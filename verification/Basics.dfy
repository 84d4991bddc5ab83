/** Optional values, lists without repetition, as the policy store keeps them, and the few
    operations of Go's slices package that it uses. */
module Basics {

  datatype Option<+T> = None | Some(value: T)

  ghost predicate NoDuplicates<T>(s: seq<T>) {
    forall i, j :: 0 <= i < j < |s| ==> s[i] != s[j]
  }

  /** slices.Index: the first position of x, or -1. */
  function IndexOf<T(==)>(s: seq<T>, x: T): (i: int)
    ensures -1 <= i < |s|
    ensures i >= 0 ==> s[i] == x && x !in s[..i]
    ensures i == -1 <==> x !in s
  {
    if |s| == 0 then -1
    else if s[0] == x then 0
    else
      var i := IndexOf(s[1..], x);
      assert s == [s[0]] + s[1..];
      if i < 0 then -1
      else
        assert s[..i + 1] == [s[0]] + s[1..][..i];
        i + 1
  }

  /** slices.Delete(s, i, i + 1). */
  function DeleteAt<T>(s: seq<T>, i: nat): (r: seq<T>)
    requires i < |s|
    ensures |r| == |s| - 1
  {
    s[..i] + s[i + 1..]
  }

  /** s without the members of gone, in the order of s. */
  function Without<T(==,!new)>(s: seq<T>, gone: set<T>): (r: seq<T>)
    ensures forall x :: x in r <==> x in s && x !in gone
  {
    if |s| == 0 then []
    else
      var rest := Without(s[1..], gone);
      assert s == [s[0]] + s[1..];
      if s[0] in gone then rest else [s[0]] + rest
  }

  lemma {:induction false} WithoutNone<T(!new)>(s: seq<T>)
    ensures Without(s, {}) == s
  {
    if |s| > 0 {
      WithoutNone(s[1..]);
      assert s == [s[0]] + s[1..];
    }
  }

  lemma {:induction false} WithoutConcat<T(!new)>(s: seq<T>, t: seq<T>, gone: set<T>)
    ensures Without(s + t, gone) == Without(s, gone) + Without(t, gone)
  {
    if |s| == 0 {
      assert s + t == t;
    } else {
      assert (s + t)[1..] == s[1..] + t;
      WithoutConcat(s[1..], t, gone);
    }
  }

  lemma {:induction false} WithoutAbsent<T(!new)>(s: seq<T>, x: T, gone: set<T>)
    requires x !in s
    ensures Without(s, gone + {x}) == Without(s, gone)
  {
    if |s| > 0 {
      assert s == [s[0]] + s[1..];
      WithoutAbsent(s[1..], x, gone);
    }
  }

  lemma WithoutUntouched<T(!new)>(s: seq<T>, x: T)
    requires x !in s
    ensures Without(s, {x}) == s
  {
    assert {x} == {} + {x};
    WithoutAbsent(s, x, {});
    WithoutNone(s);
  }

  /** In a list without repetition, deleting at the index of x is filtering x out. */
  lemma {:induction false} DeleteIsWithout<T(!new)>(s: seq<T>, i: nat)
    requires NoDuplicates(s) && i < |s|
    ensures DeleteAt(s, i) == Without(s, {s[i]})
  {
    if i == 0 {
      WithoutUntouched(s[1..], s[0]);
    } else {
      assert s[1..][i - 1] == s[i];
      DeleteIsWithout(s[1..], i - 1);
      assert DeleteAt(s, i) == [s[0]] + DeleteAt(s[1..], i - 1);
    }
  }

  lemma {:induction false} WithoutTwice<T(!new)>(s: seq<T>, a: set<T>, b: set<T>)
    ensures Without(Without(s, a), b) == Without(s, a + b)
  {
    if |s| > 0 {
      WithoutTwice(s[1..], a, b);
      if s[0] !in a {
        assert ([s[0]] + Without(s[1..], a))[1..] == Without(s[1..], a);
      }
    }
  }

  lemma {:induction false} WithoutKeepsDistinct<T(!new)>(s: seq<T>, gone: set<T>)
    requires NoDuplicates(s)
    ensures NoDuplicates(Without(s, gone))
  {
    if |s| > 0 {
      WithoutKeepsDistinct(s[1..], gone);
      assert forall j :: 0 < j < |s| ==> s[j] == s[1..][j - 1];
    }
  }
}
