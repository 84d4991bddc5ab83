/** web/src/lib/cidr.ts: does a text spell a CIDR without host bits? */
module CidrText {
  import opened Basics
  import opened Cidr

  // ---- what the function uses of the language it is written in ----

  /** White space and line terminators, as String.prototype.trim knows them. */
  predicate IsSpace(c: char) {
    || '\t' <= c <= '\r' || c == ' ' || c == '\U{A0}' || c == '\U{1680}' || '\U{2000}' <= c <= '\U{200A}'
    || c == '\U{2028}' || c == '\U{2029}' || c == '\U{202F}' || c == '\U{205F}' || c == '\U{3000}' || c == '\U{FEFF}'
  }

  function Trim(s: string): string {
    if |s| > 0 && IsSpace(s[0]) then Trim(s[1..])
    else if |s| > 0 && IsSpace(s[|s| - 1]) then Trim(s[..|s| - 1])
    else s
  }

  function Split(s: string, c: char): (parts: seq<string>)
    ensures |parts| > 0
  {
    if |s| == 0 then [""]
    else
      var rest := Split(s[1..], c);
      if s[0] == c then [""] + rest else [[s[0]] + rest[0]] + rest[1..]
  }

  predicate IsDigit(c: char) {
    '0' <= c <= '9'
  }

  predicate IsHexDigit(c: char) {
    IsDigit(c) || 'a' <= c <= 'f' || 'A' <= c <= 'F'
  }

  function HexDigit(c: char): (v: nat)
    requires IsHexDigit(c)
    ensures v < 16
  {
    if IsDigit(c) then (c - '0') as nat
    else if 'a' <= c then 10 + (c - 'a') as nat
    else 10 + (c - 'A') as nat
  }

  predicate AllDigits(s: string) {
    |s| > 0 && forall i :: 0 <= i < |s| ==> IsDigit(s[i])
  }

  function Decimal(s: string): nat
    requires forall i :: 0 <= i < |s| ==> IsDigit(s[i])
  {
    if |s| == 0 then 0
    else
      assert IsDigit(s[|s| - 1]);
      10 * Decimal(s[..|s| - 1]) + (s[|s| - 1] - '0') as nat
  }

  /** Numbers shifted together, the first one highest. */
  function Shifted(values: seq<nat>, step: nat): nat {
    if |values| == 0 then 0
    else Shifted(values[..|values| - 1], step) * Pow2(step) + values[|values| - 1]
  }

  predicate IsGroup(part: string) {
    1 <= |part| <= 4 && forall i :: 0 <= i < |part| ==> IsHexDigit(part[i])
  }

  function Group(part: string): nat
    requires IsGroup(part)
  {
    Shifted(seq(|part|, i requires 0 <= i < |part| => HexDigit(part[i])), 4)
  }

  predicate IsOctet(part: string) {
    AllDigits(part) && Decimal(part) <= 255
  }

  function OctetValue(part: string): nat
    requires IsOctet(part)
  {
    Decimal(part)
  }

  predicate AllGroups(parts: seq<string>) {
    forall i :: 0 <= i < |parts| ==> IsGroup(parts[i])
  }

  function Groups(parts: seq<string>): (values: seq<nat>)
    requires AllGroups(parts)
    ensures |values| == |parts|
  {
    seq(|parts|, i requires 0 <= i < |parts| => Group(parts[i]))
  }

  predicate AllOctets(parts: seq<string>) {
    forall i :: 0 <= i < |parts| ==> IsOctet(parts[i])
  }

  function Octets(parts: seq<string>): (values: seq<nat>)
    requires AllOctets(parts)
    ensures |values| == |parts|
  {
    seq(|parts|, i requires 0 <= i < |parts| => OctetValue(parts[i]))
  }

  /** Where the first "::" is, or -1. */
  function FindGap(s: string): (i: int)
    ensures -1 <= i && (i >= 0 ==> i + 2 <= |s| && s[i] == s[i + 1] == ':')
  {
    if |s| < 2 then -1
    else if s[0] == ':' && s[1] == ':' then 0
    else
      var i := FindGap(s[1..]);
      if i < 0 then -1 else i + 1
  }

  // ---- the function ----

  /** The groups on both sides of a gap, or all of them when there is none. */
  function FromGroups(left: seq<string>, right: seq<string>, gap: bool): Option<nat> {
    if !AllGroups(left + right) then None
    else
      var missing := 8 - |left| - |right|;
      if (gap && missing < 1) || (!gap && missing != 0) then None
      else
        var zeros := seq(missing, _ => "0");
        GroupsOfConcat(left, right);
        FilledGap(left, right, zeros);
        Some(Shifted(Groups(left + zeros + right), 16))
  }

  function Parts(side: string): seq<string> {
    if side == "" then [] else Split(side, ':')
  }

  function ParseV6(address: string): Option<nat> {
    var gap := FindGap(address);
    if gap < 0 then FromGroups(Parts(address), [], false)
    else if FindGap(address[gap + 2..]) >= 0 then None
    else FromGroups(Parts(address[..gap]), Parts(address[gap + 2..]), true)
  }

  function ParseV4(address: string): Option<nat> {
    var octets := Split(address, '.');
    if |octets| != 4 || !AllOctets(octets) then None
    else Some(Shifted(Octets(octets), 8))
  }

  /** The mask test is written as a remainder: the mask is 2^hostBits - 1. */
  predicate IsCanonicalCIDR(value: string) {
    var parts := Split(Trim(value), '/');
    if |parts| != 2 || parts[0] == "" || !AllDigits(parts[1]) then false
    else
      var bits := Decimal(parts[1]);
      var family := if ':' in parts[0] then V6 else V4;
      var numeric := if family == V6 then ParseV6(parts[0]) else ParseV4(parts[0]);
      bits <= Width(family) && numeric.Some? && numeric.value % Pow2(Width(family) - bits) == 0
  }

  // ---- what a CIDR looks like: sections 2.2 and 2.3 of RFC 4291, without the mixed form ----

  datatype Spelling =
    | Quad(octets: seq<string>, length: string)
    | Full(groups: seq<string>, length: string)
    | Gapped(left: seq<string>, right: seq<string>, length: string)

  predicate Legal(sp: Spelling) {
    && AllDigits(sp.length)
    && match sp
       case Quad(octets, _) => |octets| == 4 && AllOctets(octets)
       case Full(groups, _) => |groups| == 8 && AllGroups(groups)
       case Gapped(left, right, _) => |left| + |right| < 8 && AllGroups(left) && AllGroups(right)
  }

  function Join(parts: seq<string>, c: char): string {
    if |parts| == 0 then ""
    else if |parts| == 1 then parts[0]
    else parts[0] + [c] + Join(parts[1..], c)
  }

  function AddressText(sp: Spelling): string {
    match sp
    case Quad(octets, _) => Join(octets, '.')
    case Full(groups, _) => Join(groups, ':')
    case Gapped(left, right, _) => Join(left, ':') + "::" + Join(right, ':')
  }

  function Written(sp: Spelling): string {
    AddressText(sp) + "/" + sp.length
  }

  /** The groups before a gap are the highest ones of the address, those after it the
      lowest. */
  function Meaning(sp: Spelling): Prefix
    requires Legal(sp)
  {
    var addr := match sp
      case Quad(octets, _) => Addr(V4, Shifted(Octets(octets), 8))
      case Full(groups, _) => Addr(V6, Shifted(Groups(groups), 16))
      case Gapped(left, right, _) =>
        Addr(V6, Shifted(Groups(left), 16) * Pow2(128 - 16 * |left|) + Shifted(Groups(right), 16));
    Prefix(addr, Decimal(sp.length))
  }

  // ---- splitting and joining ----

  lemma {:induction false} SplitAfter(p: string, s: string, c: char)
    requires c !in p
    ensures Split(p + s, c) == [p + Split(s, c)[0]] + Split(s, c)[1..]
  {
    if |p| == 0 {
      assert p + s == s && p + Split(s, c)[0] == Split(s, c)[0];
    } else {
      assert (p + s)[1..] == p[1..] + s;
      SplitAfter(p[1..], s, c);
      var rest := Split(s, c);
      assert ([p[1..] + rest[0]] + rest[1..])[1..] == rest[1..];
      assert [p[0]] + (p[1..] + rest[0]) == p + rest[0];
    }
  }

  lemma {:induction false} JoinThenSplit(parts: seq<string>, c: char)
    requires |parts| > 0 && forall p <- parts :: c !in p
    ensures Split(Join(parts, c), c) == parts
  {
    if |parts| == 1 {
      SplitAfter(parts[0], "", c);
      assert parts[0] + "" == parts[0];
    } else {
      var rest := [c] + Join(parts[1..], c);
      assert Join(parts, c) == parts[0] + rest;
      assert rest[1..] == Join(parts[1..], c);
      JoinThenSplit(parts[1..], c);
      SplitAfter(parts[0], rest, c);
      assert Split(rest, c) == [""] + parts[1..];
      assert parts[0] + "" == parts[0] && parts == [parts[0]] + parts[1..];
    }
  }

  lemma {:induction false} SplitThenJoin(s: string, c: char)
    ensures Join(Split(s, c), c) == s && forall p <- Split(s, c) :: c !in p
  {
    if |s| > 0 {
      SplitThenJoin(s[1..], c);
      var rest := Split(s[1..], c);
      assert s == [s[0]] + s[1..];
      if s[0] == c {
        assert ([""] + rest)[1..] == rest;
      } else {
        assert ([[s[0]] + rest[0]] + rest[1..])[1..] == rest[1..];
      }
    }
  }

  lemma {:induction false} NoGapAfter(p: string, s: string)
    requires ':' !in p && FindGap(s) < 0
    ensures FindGap(p + s) < 0
  {
    if |p| == 0 {
      assert p + s == s;
    } else {
      assert (p + s)[1..] == p[1..] + s;
      NoGapAfter(p[1..], s);
    }
  }

  /** No gap, and no colon at either end. */
  predicate Smooth(s: string) {
    |s| > 0 && FindGap(s) < 0 && s[0] != ':' && s[|s| - 1] != ':'
  }

  lemma SmoothAfter(p: string, s: string)
    requires ':' !in p && |p| > 0
    ensures Smooth(p) && (Smooth(s) ==> Smooth(p + ":" + s))
  {
    NoGapAfter(p, "");
    assert p + "" == p;
    if Smooth(s) {
      assert (":" + s)[1..] == s;
      NoGapAfter(p, ":" + s);
      assert p + ":" + s == p + (":" + s);
    }
  }

  lemma {:induction false} JoinedPartsAreSmooth(parts: seq<string>)
    requires |parts| > 0 && forall p <- parts :: |p| > 0 && ':' !in p
    ensures Smooth(Join(parts, ':'))
  {
    if |parts| == 1 {
      SmoothAfter(parts[0], "");
    } else {
      JoinedPartsAreSmooth(parts[1..]);
      SmoothAfter(parts[0], Join(parts[1..], ':'));
    }
  }

  lemma {:induction false} FirstGap(a: string, b: string)
    requires FindGap(a) < 0 && (|a| > 0 ==> a[|a| - 1] != ':')
    ensures FindGap(a + "::" + b) == |a|
  {
    if |a| > 0 {
      assert (a + "::" + b)[1..] == a[1..] + "::" + b;
      FirstGap(a[1..], b);
    } else {
      assert (a + "::" + b)[0] == ':' && (a + "::" + b)[1] == ':';
    }
  }

  // ---- numbers ----

  lemma ShiftedAppend(values: seq<nat>, last: nat, step: nat)
    ensures Shifted(values + [last], step) == Shifted(values, step) * Pow2(step) + last
  {
    assert (values + [last])[..|values|] == values;
  }

  lemma Pow2Next(step: nat, n: nat)
    ensures Pow2(step * (n + 1)) == Pow2(step * n) * Pow2(step)
  {
    assert step * (n + 1) == step * n + step;
    Pow2Adds(step * n, step);
  }

  lemma {:induction false} ShiftedConcat(a: seq<nat>, b: seq<nat>, step: nat)
    ensures Shifted(a + b, step) == Shifted(a, step) * Pow2(step * |b|) + Shifted(b, step)
  {
    if |b| == 0 {
      assert a + b == a && step * |b| == 0;
    } else {
      hide Shifted, Pow2;
      var init, last := b[..|b| - 1], b[|b| - 1];
      assert a + b == (a + init) + [last] && b == init + [last];
      ShiftedConcat(a, init, step);
      ShiftedAppend(a + init, last, step);
      ShiftedAppend(init, last, step);
      Pow2Next(step, |init|);
      Distribute(Shifted(a, step), Pow2(step * |init|), Shifted(init, step), Pow2(step));
    }
  }

  lemma Distribute(x: nat, m: nat, y: nat, n: nat)
    ensures (x * m + y) * n == x * (m * n) + y * n
  {
    assert x * m * n == x * (m * n);
  }

  lemma {:induction false} ShiftedZeros(n: nat, step: nat)
    ensures Shifted(seq(n, _ => 0), step) == 0
  {
    if n > 0 {
      assert seq(n, _ => 0)[..n - 1] == seq(n - 1, _ => 0);
      ShiftedZeros(n - 1, step);
    }
  }

  predicate AllBelow(values: seq<nat>, limit: nat) {
    forall i :: 0 <= i < |values| ==> values[i] < limit
  }

  lemma {:induction false} ShiftedFits(values: seq<nat>, step: nat)
    requires AllBelow(values, Pow2(step))
    ensures Shifted(values, step) < Pow2(step * |values|)
  {
    if |values| == 0 {
      assert step * |values| == 0;
    } else {
      var init, last := values[..|values| - 1], values[|values| - 1];
      ShiftedFits(init, step);
      Pow2Next(step, |init|);
      StaysBelow(Shifted(init, step), Pow2(step * |init|), last, Pow2(step));
    }
  }

  lemma StaysBelow(x: nat, m: nat, y: nat, n: nat)
    requires x < m && y < n
    ensures x * n + y < m * n
  {
    MulAtLeast(n, m - x);
    assert n * (m - x) == m * n - x * n;
  }

  lemma GroupFits(part: string)
    requires IsGroup(part)
    ensures Group(part) < Pow2(16)
  {
    var digits := seq(|part|, i requires 0 <= i < |part| => HexDigit(part[i]));
    assert Pow2(4) == 16;
    ShiftedFits(digits, 4);
    Pow2Adds(4 * |part|, 16 - 4 * |part|);
    MulAtLeast(Pow2(4 * |part|), Pow2(16 - 4 * |part|));
  }

  lemma GroupsFit(parts: seq<string>)
    requires AllGroups(parts)
    ensures Shifted(Groups(parts), 16) < Pow2(16 * |parts|)
  {
    forall i | 0 <= i < |parts| ensures Groups(parts)[i] < Pow2(16) {
      GroupFits(parts[i]);
    }
    ShiftedFits(Groups(parts), 16);
  }

  lemma ZeroGroups(n: nat)
    ensures AllGroups(seq(n, _ => "0")) && Groups(seq(n, _ => "0")) == seq(n, _ => 0)
  {
    var digits := seq(1, i requires 0 <= i < 1 => HexDigit("0"[i]));
    assert digits == [0] && Shifted(digits[..0], 4) == 0;
  }

  lemma GroupsConcat(a: seq<string>, b: seq<string>)
    requires AllGroups(a) && AllGroups(b)
    ensures AllGroups(a + b) && Groups(a + b) == Groups(a) + Groups(b)
  {
  }

  lemma GroupsOfConcat(a: seq<string>, b: seq<string>)
    requires AllGroups(a + b)
    ensures AllGroups(a) && AllGroups(b)
  {
    forall i | 0 <= i < |a| ensures IsGroup(a[i]) {
      assert (a + b)[i] == a[i];
    }
    forall i | 0 <= i < |b| ensures IsGroup(b[i]) {
      assert (a + b)[|a| + i] == b[i];
    }
  }

  /** Filling a gap with zeros puts the groups where the spelling means them. */
  lemma FilledGap(left: seq<string>, right: seq<string>, zeros: seq<string>)
    requires AllGroups(left) && AllGroups(right)
    requires |left| + |zeros| + |right| == 8 && zeros == seq(|zeros|, _ => "0")
    ensures AllGroups(left + zeros + right)
    ensures Shifted(Groups(left + zeros + right), 16)
         == Shifted(Groups(left), 16) * Pow2(128 - 16 * |left|) + Shifted(Groups(right), 16)
  {
    hide Groups, AllGroups, Shifted, Pow2;
    ZeroGroups(|zeros|);
    ShiftedZeros(|zeros|, 16);
    GroupsConcat(zeros, right);
    GroupsConcat(left, zeros + right);
    assert left + zeros + right == left + (zeros + right);
    ShiftedConcat(Groups(zeros), Groups(right), 16);
    ShiftedConcat(Groups(left), Groups(zeros) + Groups(right), 16);
    assert 16 * |zeros + right| == 128 - 16 * |left|;
  }

  lemma {:induction false} JoinLacks(parts: seq<string>, c: char, d: char)
    requires c != d && forall i :: 0 <= i < |parts| ==> d !in parts[i]
    ensures d !in Join(parts, c)
  {
    if |parts| > 1 {
      JoinLacks(parts[1..], c, d);
    }
  }

  // ---- every legal spelling is read as what it means ----

  lemma ReadsQuad(octets: seq<string>)
    requires |octets| == 4 && AllOctets(octets)
    ensures ParseV4(Join(octets, '.')) == Some(Shifted(Octets(octets), 8))
    ensures ':' !in Join(octets, '.') && '/' !in Join(octets, '.')
    ensures |Join(octets, '.')| > 0 && Shifted(Octets(octets), 8) < Limit(V4)
  {
    forall i | 0 <= i < |octets| ensures '.' !in octets[i] && ':' !in octets[i] && '/' !in octets[i] {
      assert IsOctet(octets[i]);
    }
    JoinThenSplit(octets, '.');
    JoinLacks(octets, '.', ':');
    JoinLacks(octets, '.', '/');
    assert Pow2(8) == 256;
    ShiftedFits(Octets(octets), 8);
    LimitIsPow2(V4);
  }

  lemma GroupsLack(parts: seq<string>)
    requires AllGroups(parts)
    ensures forall i :: 0 <= i < |parts| ==> ':' !in parts[i] && '/' !in parts[i] && |parts[i]| > 0
    ensures '/' !in Join(parts, ':')
    ensures |parts| > 0 ==> Smooth(Join(parts, ':')) && Split(Join(parts, ':'), ':') == parts
  {
    forall i | 0 <= i < |parts| ensures ':' !in parts[i] && '/' !in parts[i] && |parts[i]| > 0 {
      assert IsGroup(parts[i]);
    }
    JoinLacks(parts, ':', '/');
    if |parts| > 0 {
      JoinedPartsAreSmooth(parts);
      JoinThenSplit(parts, ':');
    }
  }

  lemma FillsGap(left: seq<string>, right: seq<string>, gap: bool, zeros: seq<string>)
    requires AllGroups(left) && AllGroups(right) && |left| + |right| <= 8
    requires (gap <==> |left| + |right| < 8) && zeros == seq(8 - |left| - |right|, _ => "0")
    ensures AllGroups(left + zeros + right)
    ensures FromGroups(left, right, gap) == Some(Shifted(Groups(left + zeros + right), 16))
  {
    hide Groups, Shifted, AllGroups, Pow2;
    GroupsConcat(left, right);
    FilledGap(left, right, zeros);
  }

  lemma FromFilledGap(left: seq<string>, right: seq<string>, gap: bool)
    requires AllGroups(left) && AllGroups(right) && |left| + |right| <= 8
    requires gap <==> |left| + |right| < 8
    ensures
      var value := Shifted(Groups(left), 16) * Pow2(128 - 16 * |left|) + Shifted(Groups(right), 16);
      FromGroups(left, right, gap) == Some(value) && value < Limit(V6)
  {
    hide FromGroups, Groups, Shifted, AllGroups, Pow2;
    var zeros := seq(8 - |left| - |right|, _ => "0");
    FillsGap(left, right, gap, zeros);
    FilledGap(left, right, zeros);
    GroupsFit(left + zeros + right);
    LimitIsPow2(V6);
  }

  lemma JoinedHasColon(parts: seq<string>)
    requires |parts| > 1
    ensures ':' in Join(parts, ':')
  {
    assert Join(parts, ':')[|parts[0]|] == ':';
  }

  lemma NothingAfter(groups: seq<string>)
    requires |groups| == 8 && AllGroups(groups)
    ensures Shifted(Groups(groups), 16) * Pow2(128 - 16 * |groups|) + Shifted(Groups([]), 16) ==
        Shifted(Groups(groups), 16)
  {
    assert 128 - 16 * |groups| == 0;
    hide Groups;
  }

  lemma ReadsFull(groups: seq<string>)
    requires |groups| == 8 && AllGroups(groups)
    ensures ParseV6(Join(groups, ':')) == Some(Shifted(Groups(groups), 16))
    ensures ':' in Join(groups, ':') && '/' !in Join(groups, ':')
    ensures Shifted(Groups(groups), 16) < Limit(V6)
  {
    hide FromGroups, Groups, Shifted, Join, FindGap, AllGroups, Pow2, Split;
    GroupsLack(groups);
    assert groups + [] == groups;
    GroupsOfConcat(groups, []);
    FromFilledGap(groups, [], false);
    JoinedHasColon(groups);
    NothingAfter(groups);
  }

  lemma ReadsGapped(left: seq<string>, right: seq<string>)
    requires |left| + |right| < 8 && AllGroups(left) && AllGroups(right)
    ensures
      var text := Join(left, ':') + "::" + Join(right, ':');
      var value := Shifted(Groups(left), 16) * Pow2(128 - 16 * |left|) + Shifted(Groups(right), 16);
      ParseV6(text) == Some(value) && value < Limit(V6) && ':' in text && '/' !in text
  {
    var l, r := Join(left, ':'), Join(right, ':');
    var text := l + "::" + r;
    FromFilledGap(left, right, true);
    GroupsLack(left);
    GroupsLack(right);
    FirstGap(l, r);
    assert text[..|l|] == l && text[|l| + 2..] == r && text[|l|] == ':';
    assert Parts(l) == left && Parts(r) == right && FindGap(r) < 0;
    hide FromGroups, Groups, Shifted, Parts, Join, FindGap, AllGroups, Pow2, Smooth;
  }

  /** What the function computes from the address of a legal spelling is the address it
      means. */
  lemma ReadsAddress(sp: Spelling)
    requires Legal(sp)
    ensures
      var text := AddressText(sp);
      && (if ':' in text then ParseV6(text) else ParseV4(text)) == Some(Meaning(sp).addr.value)
      && Meaning(sp).addr.family == (if ':' in text then V6 else V4)
      && Meaning(sp).addr.Valid() && '/' !in text && |text| > 0
  {
    hide ParseV6, ParseV4, Shifted, Join, Groups, Octets, Pow2;
    match sp
    case Quad(octets, _) => ReadsQuad(octets);
    case Full(groups, _) => ReadsFull(groups);
    case Gapped(left, right, _) => ReadsGapped(left, right);
  }

  lemma RemainderDecides(p: Prefix)
    requires p.addr.Valid() && p.bits >= 0
    ensures p.Canonical() <==>
      p.bits <= Width(p.addr.family) && p.addr.value % Pow2(Width(p.addr.family) - p.bits) == 0
  {
    CanonicalIsRemainder(p);
  }

  lemma DigitsLackSlash(s: string)
    requires AllDigits(s)
    ensures '/' !in s
  {
  }

  lemma WrittenSplits(sp: Spelling)
    requires AllDigits(sp.length) && '/' !in AddressText(sp)
    ensures Split(Written(sp), '/') == [AddressText(sp), sp.length]
  {
    hide AddressText, Split, AllDigits;
    DigitsLackSlash(sp.length);
    assert Join([AddressText(sp), sp.length], '/') == Written(sp);
    JoinThenSplit([AddressText(sp), sp.length], '/');
  }

  lemma LengthMeans(sp: Spelling)
    requires Legal(sp)
    ensures AllDigits(sp.length) && Meaning(sp).bits == Decimal(sp.length)
  {
    hide Shifted, Groups, Octets, Pow2, AllGroups, AllOctets, Decimal;
  }

  /** What is left to decide once the text is split: the length and the host bits. */
  lemma SplitDecides(value: string, text: string, length: string)
    requires Split(Trim(value), '/') == [text, length] && text != "" && AllDigits(length)
    ensures
      var family := if ':' in text then V6 else V4;
      var numeric := if ':' in text then ParseV6(text) else ParseV4(text);
      IsCanonicalCIDR(value) <==>
        Decimal(length) <= Width(family) && numeric.Some? && numeric.value % Pow2(Width(family) - Decimal(length)) == 0
  {
    hide Split, Trim, ParseV6, ParseV4, Decimal, AllDigits, Pow2;
  }

  /** A legal spelling, with white space around it or not, is accepted exactly when it
      means a prefix without host bits. */
  lemma SpellingDecides(value: string, sp: Spelling)
    requires Legal(sp) && Trim(value) == Written(sp)
    ensures IsCanonicalCIDR(value) <==> Meaning(sp).Canonical()
  {
    LengthMeans(sp);
    hide IsCanonicalCIDR, Trim, Written, Split, AddressText, Meaning, ParseV6, ParseV4, Decimal, AllDigits, Legal, Pow2;
    ReadsAddress(sp);
    WrittenSplits(sp);
    SplitDecides(value, AddressText(sp), sp.length);
    RemainderDecides(Meaning(sp));
  }

  predicate AllSpaces(s: string) {
    forall i :: 0 <= i < |s| ==> IsSpace(s[i])
  }

  lemma {:induction false} TrimTakesPadding(before: string, text: string, after: string)
    requires AllSpaces(before) && AllSpaces(after)
    requires |text| > 0 && !IsSpace(text[0]) && !IsSpace(text[|text| - 1])
    ensures Trim(before + text + after) == text
    decreases |before| + |after|
  {
    hide IsSpace;
    var s := before + text + after;
    if |before| > 0 {
      assert s[1..] == before[1..] + text + after;
      TrimTakesPadding(before[1..], text, after);
    } else if |after| > 0 {
      assert s[..|s| - 1] == before + text + after[..|after| - 1];
      assert s[0] == text[0] && s[|s| - 1] == after[|after| - 1];
      TrimTakesPadding(before, text, after[..|after| - 1]);
    } else {
      assert s == text;
    }
  }

  lemma StartOfText(sp: Spelling)
    requires Legal(sp)
    ensures |AddressText(sp)| > 0 && !IsSpace(AddressText(sp)[0])
  {
    match sp
    case Quad(octets, _) =>
      assert IsOctet(octets[0]);
    case Full(groups, _) =>
      assert IsGroup(groups[0]);
    case Gapped(left, right, _) =>
      if |left| > 0 {
        assert IsGroup(left[0]);
      }
  }

  /** In particular, any white space may stand around a spelling. */
  lemma PaddedSpellingDecides(before: string, sp: Spelling, after: string)
    requires Legal(sp) && AllSpaces(before) && AllSpaces(after)
    ensures IsCanonicalCIDR(before + Written(sp) + after) <==> Meaning(sp).Canonical()
  {
    StartOfText(sp);
    assert Written(sp)[|Written(sp)| - 1] == sp.length[|sp.length| - 1];
    TrimTakesPadding(before, Written(sp), after);
    SpellingDecides(before + Written(sp) + after, sp);
  }

  // ---- and nothing else is read ----

  lemma OnlyQuadsRead(address: string, length: string) returns (sp: Spelling)
    requires ParseV4(address).Some? && AllDigits(length)
    ensures Legal(sp) && AddressText(sp) == address && sp.length == length
  {
    SplitThenJoin(address, '.');
    sp := Quad(Split(address, '.'), length);
  }

  lemma PartsJoin(side: string)
    ensures Join(Parts(side), ':') == side
  {
    SplitThenJoin(side, ':');
  }

  lemma OnlyGroupsRead(address: string, length: string) returns (sp: Spelling)
    requires ParseV6(address).Some? && AllDigits(length)
    ensures Legal(sp) && AddressText(sp) == address && sp.length == length
  {
    var gap := FindGap(address);
    hide Join, Split, Shifted, Groups;
    if gap < 0 {
      PartsJoin(address);
      GroupsOfConcat(Parts(address), []);
      sp := Full(Parts(address), length);
    } else {
      var left, right := Parts(address[..gap]), Parts(address[gap + 2..]);
      PartsJoin(address[..gap]);
      PartsJoin(address[gap + 2..]);
      GroupsOfConcat(left, right);
      assert address == address[..gap] + "::" + address[gap + 2..];
      sp := Gapped(left, right, length);
    }
  }

  /** The function accepts exactly the legal spellings, trimmed, of canonical prefixes. */
  lemma AcceptsExactlyCanonical(value: string)
    ensures IsCanonicalCIDR(value)
       <==> exists sp :: Legal(sp) && Trim(value) == Written(sp) && Meaning(sp).Canonical()
  {
    if IsCanonicalCIDR(value) {
      var parts := Split(Trim(value), '/');
      SplitThenJoin(Trim(value), '/');
      var sp;
      if ':' in parts[0] {
        sp := OnlyGroupsRead(parts[0], parts[1]);
      } else {
        sp := OnlyQuadsRead(parts[0], parts[1]);
      }
      assert Join(parts, '/') == parts[0] + ['/'] + parts[1];
      assert Trim(value) == Written(sp);
      SpellingDecides(value, sp);
    } else {
      forall sp | Legal(sp) && Trim(value) == Written(sp) ensures !Meaning(sp).Canonical() {
        SpellingDecides(value, sp);
      }
    }
  }

  // ---- texts printed from numbers ----

  const LOWER: string := "0123456789abcdef"
  const UPPER: string := "0123456789ABCDEF"

  lemma HexDigitExactly(c: char, v: nat)
    requires v < 16
    ensures IsHexDigit(c) && HexDigit(c) == v <==> c == LOWER[v] || c == UPPER[v]
    ensures IsDigit(c) && HexDigit(c) == v <==> v < 10 && c == LOWER[v]
  {
  }

  lemma SpacesAre(c: char)
    ensures IsSpace(c) <==> c in {
      '\t', '\n', '\U{B}', '\U{C}', '\r', ' ', '\U{A0}', '\U{1680}', '\U{2000}', '\U{2001}', '\U{2002}', '\U{2003}',
      '\U{2004}', '\U{2005}', '\U{2006}', '\U{2007}', '\U{2008}', '\U{2009}', '\U{200A}', '\U{2028}', '\U{2029}',
      '\U{202F}', '\U{205F}', '\U{3000}', '\U{FEFF}'}
  {
  }

  /** A number in decimal digits. */
  function Dec(n: nat): (s: string)
    ensures |s| > 0
  {
    (if n < 10 then "" else Dec(n / 10)) + [LOWER[n % 10]]
  }

  /** A number in hexadecimal digits. */
  function Hex(n: nat): (s: string)
    ensures |s| > 0
  {
    (if n < 16 then "" else Hex(n / 16)) + [LOWER[n % 16]]
  }

  lemma DecimalAppend(s: string, v: nat)
    requires forall i :: 0 <= i < |s| ==> IsDigit(s[i])
    requires v < 10
    ensures AllDigits(s + [LOWER[v]]) && Decimal(s + [LOWER[v]]) == 10 * Decimal(s) + v
  {
    HexDigitExactly(LOWER[v], v);
    assert (s + [LOWER[v]])[..|s|] == s;
  }

  lemma {:induction false} ReadsDec(n: nat)
    ensures AllDigits(Dec(n)) && Decimal(Dec(n)) == n
    ensures IsOctet(Dec(n)) <==> n <= 255
  {
    var q, r := n / 10, n % 10;
    hide Decimal, AllDigits;
    if q == 0 {
      assert Dec(n) == "" + [LOWER[r]];
      DecimalAppend("", r);
      assert Decimal("") == 0 by { DecimalOfNothing(); }
    } else {
      assert Dec(n) == Dec(q) + [LOWER[r]];
      ReadsDec(q);
      AllAreDigits(Dec(q));
      DecimalAppend(Dec(q), r);
    }
  }

  lemma AllAreDigits(s: string)
    requires AllDigits(s)
    ensures forall i :: 0 <= i < |s| ==> IsDigit(s[i])
  {
  }

  lemma DecimalOfNothing()
    ensures Decimal("") == 0
  {
  }

  predicate AllHexDigits(s: string) {
    forall i :: 0 <= i < |s| ==> IsHexDigit(s[i])
  }

  function HexValues(s: string): seq<nat>
    requires AllHexDigits(s)
  {
    seq(|s|, i requires 0 <= i < |s| => HexDigit(s[i]))
  }

  lemma HexValuesAppend(s: string, v: nat)
    requires AllHexDigits(s) && v < 16
    ensures AllHexDigits(s + [LOWER[v]]) && HexValues(s + [LOWER[v]]) == HexValues(s) + [v]
  {
    HexDigitExactly(LOWER[v], v);
    hide HexDigit, IsHexDigit;
  }

  lemma ShiftedHex(values: seq<nat>, v: nat)
    ensures Shifted(values + [v], 4) == 16 * Shifted(values, 4) + v
  {
    assert Pow2(4) == 16;
    ShiftedAppend(values, v, 4);
    hide Shifted;
  }

  lemma {:induction false} ReadsHexValues(n: nat)
    ensures AllHexDigits(Hex(n)) && Shifted(HexValues(Hex(n)), 4) == n
  {
    var q, r := n / 16, n % 16;
    hide HexValues, Shifted, AllHexDigits;
    if q == 0 {
      assert Hex(n) == "" + [LOWER[r]];
      NoHexValues();
      HexValuesAppend("", r);
      ShiftedHex([], r);
    } else {
      assert Hex(n) == Hex(q) + [LOWER[r]];
      ReadsHexValues(q);
      HexValuesAppend(Hex(q), r);
      ShiftedHex(HexValues(Hex(q)), r);
    }
  }

  lemma NoHexValues()
    ensures AllHexDigits("") && HexValues("") == [] && Shifted([], 4) == 0
  {
  }

  lemma HexLength(n: nat)
    ensures |Hex(n)| <= 4 <==> n < 0x1_0000
  {
    assert n / 16 / 16 / 16 == n / 4096;
    assert |Hex(n)| == 1 + if n < 16 then 0 else |Hex(n / 16)|;
    assert |Hex(n / 16)| == 1 + if n / 16 < 16 then 0 else |Hex(n / 16 / 16)|;
    assert |Hex(n / 16 / 16)| == 1 + if n / 16 / 16 < 16 then 0 else |Hex(n / 16 / 16 / 16)|;
    assert |Hex(n / 16 / 16 / 16)| == 1 + if n / 16 / 16 / 16 < 16 then 0 else |Hex(n / 16 / 16 / 16 / 16)|;
  }

  lemma ReadsHex(n: nat)
    ensures IsGroup(Hex(n)) <==> n < 0x1_0000
    ensures n < 0x1_0000 ==> Group(Hex(n)) == n
    ensures ':' !in Hex(n) && '/' !in Hex(n)
  {
    ReadsHexValues(n);
    HexLength(n);
    if n < 0x1_0000 {
      assert HexValues(Hex(n)) == seq(|Hex(n)|, i requires 0 <= i < |Hex(n)| => HexDigit(Hex(n)[i]));
    }
    hide Hex, Shifted, HexDigit;
  }

  /** A zero in front changes neither what digits mean nor whether they are read. */
  lemma {:induction false} LeadingZero(s: string)
    requires AllDigits(s)
    ensures AllDigits("0" + s) && Decimal("0" + s) == Decimal(s)
    ensures IsOctet("0" + s) <==> IsOctet(s)
  {
    var init, last := s[..|s| - 1], s[|s| - 1];
    assert ("0" + s)[..|s|] == "0" + init && ("0" + s)[|s|] == last;
    if init == "" {
      assert "0" + init == "0" && Decimal("0") == 0;
    } else {
      LeadingZero(init);
    }
  }

  lemma LeadingZeroGroup(s: string)
    requires IsGroup(s) && |s| < 4
    ensures IsGroup("0" + s) && Group("0" + s) == Group(s)
  {
    assert HexValues("0" + s) == [0] + HexValues(s);
    ShiftedConcat([0], HexValues(s), 4);
    assert [0][..0] == [] && Shifted([0], 4) == 0;
    assert Group("0" + s) == Shifted(HexValues("0" + s), 4) && Group(s) == Shifted(HexValues(s), 4);
  }

  function Decs(numbers: seq<nat>): (parts: seq<string>)
    ensures |parts| == |numbers|
  {
    seq(|numbers|, i requires 0 <= i < |numbers| => Dec(numbers[i]))
  }

  function Hexes(numbers: seq<nat>): (parts: seq<string>)
    ensures |parts| == |numbers|
  {
    seq(|numbers|, i requires 0 <= i < |numbers| => Hex(numbers[i]))
  }

  /** What an address of four octets is worth. */
  lemma QuadValue(octets: seq<nat>)
    requires |octets| == 4
    ensures Shifted(octets, 8) == octets[0] * 0x100_0000 + octets[1] * 0x1_0000 + octets[2] * 0x100 + octets[3]
  {
    assert Pow2(8) == 256;
    hide Pow2;
    assert octets == [octets[0]] + [octets[1]] + [octets[2]] + [octets[3]];
    ShiftedAppend([], octets[0], 8);
    ShiftedAppend([octets[0]], octets[1], 8);
    ShiftedAppend([octets[0]] + [octets[1]], octets[2], 8);
    ShiftedAppend([octets[0]] + [octets[1]] + [octets[2]], octets[3], 8);
    assert Shifted([], 8) == 0 && [] + [octets[0]] == [octets[0]];
  }

  lemma DecsRead(octets: seq<nat>)
    ensures AllOctets(Decs(octets)) <==> forall i :: 0 <= i < |octets| ==> octets[i] <= 255
    ensures AllOctets(Decs(octets)) ==> Octets(Decs(octets)) == octets
    ensures forall p <- Decs(octets) :: AllDigits(p)
  {
    forall i | 0 <= i < |octets|
      ensures AllDigits(Decs(octets)[i]) && Decimal(Decs(octets)[i]) == octets[i]
      ensures IsOctet(Decs(octets)[i]) <==> octets[i] <= 255
    {
      ReadsDec(octets[i]);
    }
    hide AllDigits, Decimal, IsOctet, Dec;
  }

  lemma DigitsLack(s: string)
    requires AllDigits(s)
    ensures '.' !in s && ':' !in s && '/' !in s && !IsSpace(s[0]) && !IsSpace(s[|s| - 1])
  {
  }

  lemma WrittenQuad(parts: seq<string>)
    requires |parts| == 4
    ensures Join(parts, '.') == parts[0] + "." + parts[1] + "." + parts[2] + "." + parts[3]
  {
    assert parts[1..][1..] == parts[2..] && parts[2..][1..] == parts[3..];
    assert Join(parts[3..], '.') == parts[3];
    assert Join(parts[2..], '.') == parts[2] + "." + parts[3];
    assert Join(parts[1..], '.') == parts[1] + ("." + Join(parts[2..], '.'));
  }

  lemma NotFourOctets(octets: seq<string>)
    requires |octets| == 4 && (forall p <- octets :: AllDigits(p)) && !AllOctets(octets)
    ensures ParseV4(Join(octets, '.')) == None
    ensures ':' !in Join(octets, '.') && '/' !in Join(octets, '.') && |Join(octets, '.')| > 0
  {
    forall p <- octets ensures '.' !in p && ':' !in p && '/' !in p {
      DigitsLack(p);
    }
    JoinThenSplit(octets, '.');
    JoinLacks(octets, '.', ':');
    JoinLacks(octets, '.', '/');
  }

  /** A text with a slash in it and nothing to trim is decided by its two halves. */
  lemma HalvesDecide(text: string, length: string)
    requires '/' !in text && |text| > 0 && !IsSpace(text[0]) && AllDigits(length)
    ensures
      var family := if ':' in text then V6 else V4;
      var numeric := if ':' in text then ParseV6(text) else ParseV4(text);
      IsCanonicalCIDR(text + "/" + length) <==>
        Decimal(length) <= Width(family) && numeric.Some? && numeric.value % Pow2(Width(family) - Decimal(length)) == 0
  {
    hide IsCanonicalCIDR, ParseV6, ParseV4, Decimal, IsSpace, Pow2;
    DigitsLack(length);
    var value := text + "/" + length;
    assert value[0] == text[0] && value[|value| - 1] == length[|length| - 1];
    TrimTakesPadding("", value, "");
    assert "" + value + "" == value;
    assert Join([text, length], '/') == value;
    JoinThenSplit([text, length], '/');
    SplitDecides(value, text, length);
  }

  lemma StartsWithDigit(parts: seq<string>)
    requires |parts| > 1 && AllDigits(parts[0])
    ensures |Join(parts, '.')| > 0 && !IsSpace(Join(parts, '.')[0])
  {
    assert Join(parts, '.')[0] == parts[0][0];
  }

  /** What is read of four printed numbers. */
  lemma ReadsDecs(octets: seq<nat>)
    requires |octets| == 4
    ensures
      var text := Join(Decs(octets), '.');
      && ':' !in text && '/' !in text && |text| > 0 && !IsSpace(text[0])
      && ParseV4(text) == if forall i :: 0 <= i < 4 ==> octets[i] <= 255 then Some(Shifted(octets, 8)) else None
  {
    var parts := Decs(octets);
    DecsRead(octets);
    assert parts[0] in parts;
    hide ParseV4, Dec, Shifted, AllOctets, IsSpace, AllDigits;
    StartsWithDigit(parts);
    if AllOctets(parts) {
      ReadsQuad(parts);
    } else {
      NotFourOctets(parts);
    }
  }

  lemma QuadDecides(octets: seq<nat>, bits: nat, value: nat)
    requires |octets| == 4 && value == Shifted(octets, 8)
    ensures IsCanonicalCIDR(Join(Decs(octets), '.') + "/" + Dec(bits)) <==>
      && (forall i :: 0 <= i < 4 ==> octets[i] <= 255) && bits <= 32 && value % Pow2(32 - bits) == 0
  {
    hide IsCanonicalCIDR, ParseV4, ParseV6, Dec, Decs, Decimal, Shifted, Pow2, IsSpace, Join, AllDigits;
    ReadsDec(bits);
    ReadsDecs(octets);
    HalvesDecide(Join(Decs(octets), '.'), Dec(bits));
  }

  /** Four numbers and a length, printed in decimal with dots and a slash: accepted exactly when
      the numbers are octets, the length is one an IPv4 prefix can have, and the bits of
      the address below it are zero. */
  lemma PrintedV4Decides(octets: seq<nat>, value: nat, bits: nat)
    requires |octets| == 4
    requires value == octets[0] * 0x100_0000 + octets[1] * 0x1_0000 + octets[2] * 0x100 + octets[3]
    ensures
      var text := Dec(octets[0]) + "." + Dec(octets[1]) + "." + Dec(octets[2]) + "." + Dec(octets[3]);
      IsCanonicalCIDR(text + "/" + Dec(bits)) <==>
        (forall i :: 0 <= i < 4 ==> octets[i] <= 255) && bits <= 32 && value % Pow2(32 - bits) == 0
  {
    QuadValue(octets);
    hide *;
    QuadDecides(octets, bits, value);
    QuadText(octets);
  }

  lemma QuadText(octets: seq<nat>)
    requires |octets| == 4
    ensures Join(Decs(octets), '.') ==
        Dec(octets[0]) + "." + Dec(octets[1]) + "." + Dec(octets[2]) + "." + Dec(octets[3])
  {
    WrittenQuad(Decs(octets));
    hide Join, Dec;
  }

  lemma HexesRead(groups: seq<nat>)
    ensures AllGroups(Hexes(groups)) <==> forall i :: 0 <= i < |groups| ==> groups[i] < 0x1_0000
    ensures AllGroups(Hexes(groups)) ==> Groups(Hexes(groups)) == groups
    ensures forall p <- Hexes(groups) :: |p| > 0 && ':' !in p && '/' !in p
  {
    forall i | 0 <= i < |groups|
      ensures IsGroup(Hexes(groups)[i]) <==> groups[i] < 0x1_0000
      ensures groups[i] < 0x1_0000 ==> Group(Hexes(groups)[i]) == groups[i]
      ensures ':' !in Hexes(groups)[i] && '/' !in Hexes(groups)[i]
    {
      ReadsHex(groups[i]);
    }
    hide IsGroup, Group, Hex;
  }

  lemma HexIsNoSpace(n: nat)
    ensures !IsSpace(Hex(n)[0])
  {
    ReadsHexValues(n);
    assert IsHexDigit(Hex(n)[0]);
    hide Hex;
  }

  /** A number eight parts of which are not all groups is not read. */
  lemma NotEightGroups(parts: seq<string>)
    requires |parts| == 8 && (forall p <- parts :: |p| > 0 && ':' !in p) && !AllGroups(parts)
    ensures ParseV6(Join(parts, ':')) == None
  {
    hide AllGroups, IsGroup, Groups, Shifted, Join, Split;
    JoinedPartsAreSmooth(parts);
    JoinThenSplit(parts, ':');
    assert parts + [] == parts;
  }

  /** What is read of eight printed numbers. */
  lemma ReadsHexes(groups: seq<nat>)
    requires |groups| == 8
    ensures
      var text := Join(Hexes(groups), ':');
      && ':' in text && '/' !in text && !IsSpace(text[0])
      && ParseV6(text) == if forall i :: 0 <= i < 8 ==> groups[i] < 0x1_0000 then Some(Shifted(groups, 16)) else None
  {
    var parts := Hexes(groups);
    HexesRead(groups);
    HexIsNoSpace(groups[0]);
    JoinedHasColon(parts);
    JoinLacks(parts, ':', '/');
    assert Join(parts, ':')[0] == parts[0][0];
    hide ParseV6, Hex, Shifted, AllGroups, IsSpace, Join;
    if AllGroups(parts) {
      ReadsFull(parts);
    } else {
      NotEightGroups(parts);
    }
  }

  lemma ShiftedGroup(values: seq<nat>, last: nat)
    ensures Shifted(values + [last], 16) == 0x1_0000 * Shifted(values, 16) + last
  {
    Pow2Doubles(4, 16);
    Pow2Doubles(8, 0x100);
    ShiftedAppend(values, last, 16);
    hide Shifted, Pow2;
  }

  /** The groups taken in one after the other, each below what was there. */
  predicate RunningValues(groups: seq<nat>, values: seq<nat>) {
    && |values| == |groups| > 0 && values[0] == groups[0]
    && forall i :: 0 < i < |groups| ==> values[i] == 0x1_0000 * values[i - 1] + groups[i]
  }

  lemma {:induction false} ShiftedIsRunning(groups: seq<nat>, values: seq<nat>, n: nat)
    requires RunningValues(groups, values) && n < |groups|
    ensures Shifted(groups[..n + 1], 16) == values[n]
  {
    assert groups[..n + 1] == groups[..n] + [groups[n]];
    ShiftedGroup(groups[..n], groups[n]);
    if n == 0 {
      assert Shifted(groups[..n], 16) == 0;
    } else {
      hide Shifted;
      ShiftedIsRunning(groups, values, n - 1);
      assert groups[..n - 1 + 1] == groups[..n];
    }
  }

  lemma GroupsDecide(groups: seq<nat>, bits: nat, value: nat)
    requires |groups| == 8 && value == Shifted(groups, 16)
    ensures IsCanonicalCIDR(Join(Hexes(groups), ':') + "/" + Dec(bits)) <==>
      && (forall i :: 0 <= i < 8 ==> groups[i] < 0x1_0000) && bits <= 128 && value % Pow2(128 - bits) == 0
  {
    hide IsCanonicalCIDR, ParseV4, ParseV6, Dec, Hexes, Decimal, Shifted, Pow2, IsSpace, Join, AllDigits;
    ReadsDec(bits);
    ReadsHexes(groups);
    HalvesDecide(Join(Hexes(groups), ':'), Dec(bits));
  }

  /** Eight numbers printed in hexadecimal with colons, and a length: accepted exactly when the
      numbers have 16 bits, the length is one an IPv6 prefix can have, and the bits of the
      address below it are zero. */
  lemma PrintedV6Decides(groups: seq<nat>, values: seq<nat>, bits: nat)
    requires |groups| == 8 && RunningValues(groups, values)
    ensures IsCanonicalCIDR(Join(Hexes(groups), ':') + "/" + Dec(bits)) <==>
      && (forall i :: 0 <= i < 8 ==> groups[i] < 0x1_0000) && bits <= 128 && values[7] % Pow2(128 - bits) == 0
  {
    ShiftedIsRunning(groups, values, 7);
    assert groups[..8] == groups;
    hide *;
    GroupsDecide(groups, bits, values[7]);
  }

  lemma FilledMeans(left: seq<string>, right: seq<string>, zeros: seq<string>, length: string)
    requires AllGroups(left) && AllGroups(right) && AllDigits(length)
    requires |left| + |right| < 8 && zeros == seq(8 - |left| - |right|, _ => "0")
    ensures Legal(Gapped(left, right, length)) && Legal(Full(left + zeros + right, length))
    ensures Meaning(Gapped(left, right, length)) == Meaning(Full(left + zeros + right, length))
  {
    hide Groups, Shifted, AllGroups, Pow2, AllDigits, Decimal;
    FilledGap(left, right, zeros);
  }

  lemma UnpaddedDecides(sp: Spelling)
    requires Legal(sp)
    ensures IsCanonicalCIDR(Written(sp)) <==> Meaning(sp).Canonical()
  {
    hide IsCanonicalCIDR, Legal, Meaning, Written;
    PaddedSpellingDecides("", sp, "");
    assert "" + Written(sp) + "" == Written(sp);
  }

  lemma HexesFilled(left: seq<nat>, right: seq<nat>)
    requires |left| + |right| < 8
    ensures Hexes(left + seq(8 - |left| - |right|, _ => 0) + right)
         == Hexes(left) + seq(8 - |left| - |right|, _ => "0") + Hexes(right)
  {
    assert Hex(0) == "0";
    hide Hex;
  }

  lemma GapDecides(left: seq<string>, right: seq<string>, zeros: seq<string>, length: string)
    requires AllGroups(left) && AllGroups(right) && AllDigits(length)
    requires |left| + |right| < 8 && zeros == seq(8 - |left| - |right|, _ => "0")
    ensures IsCanonicalCIDR(Join(left, ':') + "::" + Join(right, ':') + "/" + length)
       <==> IsCanonicalCIDR(Join(left + zeros + right, ':') + "/" + length)
  {
    FilledMeans(left, right, zeros, length);
    assert Written(Gapped(left, right, length)) == Join(left, ':') + "::" + Join(right, ':') + "/" + length;
    assert Written(Full(left + zeros + right, length)) == Join(left + zeros + right, ':') + "/" + length;
    hide *;
    UnpaddedDecides(Gapped(left, right, length));
    UnpaddedDecides(Full(left + zeros + right, length));
  }

  lemma HexesAreGroups(groups: seq<nat>)
    requires forall n <- groups :: n < 0x1_0000
    ensures AllGroups(Hexes(groups))
  {
    forall i | 0 <= i < |groups| ensures groups[i] < 0x1_0000 {
      assert groups[i] in groups;
    }
    HexesRead(groups);
    hide IsGroup, Hexes;
  }

  /** A gap stands for as many zeros as are missing. */
  lemma GapMeansZeros(left: seq<nat>, right: seq<nat>, zeros: seq<nat>, bits: nat)
    requires (forall n <- left :: n < 0x1_0000) && (forall n <- right :: n < 0x1_0000)
    requires |left| + |right| < 8 && zeros == seq(8 - |left| - |right|, _ => 0)
    ensures IsCanonicalCIDR(Join(Hexes(left), ':') + "::" + Join(Hexes(right), ':') + "/" + Dec(bits))
       <==> IsCanonicalCIDR(Join(Hexes(left + zeros + right), ':') + "/" + Dec(bits))
  {
    hide *;
    HexesAreGroups(left);
    HexesAreGroups(right);
    ReadsDec(bits);
    HexesFilled(left, right);
    GapDecides(Hexes(left), Hexes(right), seq(8 - |left| - |right|, _ => "0"), Dec(bits));
  }
}
