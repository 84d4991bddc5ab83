/** Addresses and CIDR prefixes as net/netip gives them meaning: an address is a
    number of 32 or 128 bits, a prefix is the block of addresses that agree with
    its address above the host bits. */
module Cidr {
  import opened Basics

  datatype Family = V4 | V6

  function Width(f: Family): nat {
    match f
    case V4 => 32
    case V6 => 128
  }

  function Pow2(n: nat): (r: nat)
    ensures r > 0
  {
    if n == 0 then 1 else 2 * Pow2(n - 1)
  }

  /** The number of addresses in a family: Pow2 of its width. */
  function Limit(f: Family): nat {
    match f
    case V4 => 0x1_0000_0000
    case V6 => 0x1_0000_0000_0000_0000_0000_0000_0000_0000
  }

  datatype Addr = Addr(family: Family, value: nat) {
    predicate Valid() {
      value < Limit(family)
    }
  }

  datatype Prefix = Prefix(addr: Addr, bits: int) {
    predicate Valid() {
      addr.Valid() && 0 <= bits <= Width(addr.family)
    }

    /** The number of addresses in the block. */
    function Size(): (n: nat)
      requires Valid()
      ensures n > 0
    {
      Pow2(Width(addr.family) - bits)
    }

    function Masked(): Prefix
      requires Valid()
    {
      MaskedKeepsQuotient(addr.value, Size());
      Prefix(Addr(addr.family, addr.value - addr.value % Size()), bits)
    }

    /** Valid and equal to its own masked form: the canonical CIDR. */
    predicate Canonical() {
      Valid() && this == Masked()
    }

    predicate Contains(a: Addr) {
      Valid() && a.Valid() && a.family == addr.family && a.value / Size() == addr.value / Size()
    }
  }

  /** The two-containment test of internal/runtime/policy.go. */
  predicate Overlaps(p: Prefix, q: Prefix) {
    p.Contains(q.addr) || q.Contains(p.addr)
  }

  /** Some prefix of the list contains the address. */
  predicate Covers(prefixes: seq<Prefix>, a: Addr) {
    exists p <- prefixes :: p.Contains(a)
  }

  /** The text of a prefix. What netip.ParsePrefix makes of it is all that counts:
      it does not parse, or it spells a valid prefix in one of several ways. */
  datatype PrefixText = Unparsable | Spelled(prefix: Prefix, spelling: nat)

  function ParsePrefix(t: PrefixText): Option<Prefix> {
    if t.Spelled? && t.prefix.Valid() then Some(t.prefix) else None
  }

  /** Prefix.String. */
  function Text(p: Prefix): PrefixText {
    Spelled(p, 0)
  }

  // ---- arithmetic of blocks ----

  lemma QuotientUnique(n: int, q: int, r: int, q': int, r': int)
    requires 0 <= r < n && 0 <= r' < n && n * q + r == n * q' + r'
    ensures q == q' && r == r'
  {
    if q < q' {
      MulAtLeast(n, q' - q);
    } else if q > q' {
      MulAtLeast(n, q - q');
    }
  }

  lemma MulAtLeast(n: int, k: int)
    requires n >= 0 && k >= 1
    ensures n * k >= n
  {
    assert n * k == n * (k - 1) + n;
  }

  lemma DivisionUnique(x: int, n: int, q: int, r: int)
    requires 0 <= r < n && x == n * q + r
    ensures x / n == q && x % n == r
  {
    DivisionExists(x, n);
    QuotientUnique(n, q, r, x / n, x % n);
  }

  lemma DivisionExists(x: int, n: int)
    requires n > 0
    ensures x == n * (x / n) + x % n && 0 <= x % n < n
    ensures x >= 0 ==> x / n >= 0
  {
  }

  lemma DivisionNests(x: nat, m: nat, k: nat)
    requires m > 0 && k > 0
    ensures m * k > 0 && x / (m * k) == (x / m) / k
  {
    MulAtLeast(m, k);
    DivisionExists(x, m);
    var q, r := x / m, x % m;
    DivisionExists(q, k);
    RegroupQuotients(x, m, k, q, r, q / k, q % k);
    DivisionUnique(x, m * k, q / k, m * (q % k) + r);
  }

  lemma RegroupQuotients(x: int, m: int, k: int, q: int, r: int, q2: int, r2: int)
    requires 0 <= r < m && 0 <= r2 < k && x == m * q + r && q == k * q2 + r2
    ensures x == (m * k) * q2 + (m * r2 + r) && 0 <= m * r2 + r < m * k
  {
    assert m * q == m * (k * q2) + m * r2;
    assert m * (k * q2) == (m * k) * q2;
    MulAtLeast(m, k - r2);
    assert m * (k - r2) == m * k - m * r2;
  }

  lemma {:induction false} Pow2Adds(a: nat, b: nat)
    ensures Pow2(a + b) == Pow2(a) * Pow2(b)
  {
    if a > 0 {
      Pow2Adds(a - 1, b);
      assert Pow2(a + b) == 2 * (Pow2(a - 1) * Pow2(b));
    }
  }

  lemma Pow2Doubles(n: nat, value: nat)
    requires Pow2(n) == value
    ensures Pow2(n + n) == value * value
  {
    Pow2Adds(n, n);
  }

  lemma LimitIsPow2(f: Family)
    ensures Pow2(Width(f)) == Limit(f)
  {
    var n := 4;
    Pow2Doubles(n, 16);
    Pow2Doubles(n + n, 0x100);
    n := n + n;
    Pow2Doubles(n + n, 0x1_0000);
    n := n + n;
    if f == V6 {
      Pow2Doubles(n + n, 0x1_0000_0000);
      n := n + n;
      Pow2Doubles(n + n, 0x1_0000_0000_0000_0000);
    }
  }

  lemma MaskedKeepsQuotient(x: nat, n: nat)
    requires n > 0
    ensures 0 <= x - x % n <= x
    ensures (x - x % n) / n == x / n && (x - x % n) % n == 0
  {
    DivisionExists(x, n);
    assert n * (x / n) >= 0;
    DivisionUnique(x - x % n, n, x / n, 0);
  }

  lemma MaskedIsCanonical(p: Prefix)
    requires p.Valid()
    ensures p.Masked().Canonical() && p.Masked().Contains(p.addr)
  {
    MaskedKeepsQuotient(p.addr.value, p.Size());
  }

  /** Masking clears host bits and nothing else: the block is the same. */
  lemma MaskedKeepsBlock(p: Prefix, a: Addr)
    requires p.Valid()
    ensures p.Masked().Contains(a) <==> p.Contains(a)
  {
    MaskedKeepsQuotient(p.addr.value, p.Size());
  }

  lemma MulGrows(n: nat, a: int, b: int)
    requires a <= b
    ensures n * a <= n * b
  {
    assert n * (b - a) >= 0;
    assert n * (b - a) == n * b - n * a;
  }

  lemma QuotientInterval(base: nat, n: nat, v: nat)
    requires n > 0 && base % n == 0
    ensures v / n == base / n <==> base <= v < base + n
  {
    DivisionExists(base, n);
    DivisionExists(v, n);
    var q, q' := base / n, v / n;
    if q' < q {
      MulGrows(n, q' + 1, q);
      assert n * (q' + 1) == n * q' + n;
    } else if q' > q {
      MulGrows(n, q + 1, q');
      assert n * (q + 1) == n * q + n;
    }
  }

  lemma MultipleFits(n: nat, k: nat, q: nat)
    requires n > 0 && n * q < n * k
    ensures n * q + n <= n * k
  {
    if q >= k {
      MulGrows(n, k, q);
    } else {
      MulGrows(n, q + 1, k);
      assert n * (q + 1) == n * q + n;
    }
  }

  /** A block is a run of 2^n addresses that starts at a multiple of 2^n, where n counts the
      bits below the prefix. */
  lemma BlockIsRange(p: Prefix, a: Addr)
    requires p.Valid()
    ensures
      var n := Pow2(Width(p.addr.family) - p.bits);
      var first := p.addr.value - p.addr.value % n;
      && first % n == 0 && first + n <= Limit(p.addr.family)
      && (p.Contains(a) <==> a.family == p.addr.family && first <= a.value < first + n)
      && p.Masked() == Prefix(Addr(p.addr.family, first), p.bits)
  {
    var n, k := p.Size(), Pow2(p.bits);
    var first := p.addr.value - p.addr.value % n;
    MaskedKeepsQuotient(p.addr.value, n);
    QuotientInterval(first, n, a.value);
    LimitIsPow2(p.addr.family);
    Pow2Adds(Width(p.addr.family) - p.bits, p.bits);
    DivisionExists(first, n);
    MultipleFits(n, k, first / n);
  }

  /** A prefix is canonical exactly when its address is the first of its block. */
  lemma CanonicalIsRemainder(p: Prefix)
    ensures p.Canonical() <==>
      && p.addr.value < Limit(p.addr.family) && 0 <= p.bits <= Width(p.addr.family)
      && p.addr.value % Pow2(Width(p.addr.family) - p.bits) == 0
  {
    if p.Valid() {
      MaskedKeepsQuotient(p.addr.value, p.Size());
    }
  }

  /** Two prefixes have the same masked form exactly when they are of one length and share
      their addresses. */
  lemma SameMasked(p: Prefix, q: Prefix)
    requires p.Valid() && q.Valid()
    ensures p.Masked() == q.Masked() <==> p.bits == q.bits && p.Contains(q.addr)
  {
    if p.bits == q.bits && p.addr.family == q.addr.family {
      DivisionExists(p.addr.value, p.Size());
      DivisionExists(q.addr.value, p.Size());
    }
    if p.Masked() == q.Masked() {
      MaskedIsCanonical(p);
      MaskedIsCanonical(q);
    }
  }

  // ---- blocks are nested or disjoint (section 3.1 of RFC 4632) ----

  lemma WiderContainsNarrower(p: Prefix, q: Prefix, shared: Addr, a: Addr)
    requires p.Contains(shared) && q.Contains(shared) && p.bits <= q.bits
    requires q.Contains(a)
    ensures p.Contains(a)
  {
    var n, k := q.Size(), Pow2(q.bits - p.bits);
    Pow2Adds(Width(q.addr.family) - q.bits, q.bits - p.bits);
    assert p.Size() == n * k;
    DivisionNests(shared.value, n, k);
    DivisionNests(a.value, n, k);
  }

  /** Two blocks that share one address are nested; which way is decided by length. */
  lemma NestedOrDisjoint(p: Prefix, q: Prefix)
    ensures (forall a :: !(p.Contains(a) && q.Contains(a)))
         || (forall a :: q.Contains(a) ==> p.Contains(a))
         || (forall a :: p.Contains(a) ==> q.Contains(a))
  {
    if shared :| p.Contains(shared) && q.Contains(shared) {
      if p.bits <= q.bits {
        forall a | q.Contains(a) ensures p.Contains(a) {
          WiderContainsNarrower(p, q, shared, a);
        }
      } else {
        forall a | p.Contains(a) ensures q.Contains(a) {
          WiderContainsNarrower(q, p, shared, a);
        }
      }
    }
  }

  /** The two-containment test is exactly non-empty intersection of the blocks. */
  lemma OverlapIsIntersection(p: Prefix, q: Prefix)
    requires p.Valid() && q.Valid()
    ensures Overlaps(p, q) <==> exists a :: p.Contains(a) && q.Contains(a)
  {
    if Overlaps(p, q) {
      var a := if p.Contains(q.addr) then q.addr else p.addr;
      assert p.Contains(a) && q.Contains(a);
    }
    if shared :| p.Contains(shared) && q.Contains(shared) {
      if p.bits <= q.bits {
        WiderContainsNarrower(p, q, shared, q.addr);
      } else {
        WiderContainsNarrower(q, p, shared, p.addr);
      }
    }
  }
}
