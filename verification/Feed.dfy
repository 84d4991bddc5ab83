/** internal/feed/feed.go: reading a list of addresses and prefixes, one a line, and
    expanding IPv4 subnets into their hosts. */
module Feed {
  import opened Basics
  import opened Cidr
  import opened PolicyStore
  import opened Routing
  import opened Words

  /** A line after trimming and comment stripping: nothing usable, a bare address, or
      anything netip.ParsePrefix accepts. */
  datatype Line = Ignored | BareAddress(addr: Addr) | Subnet(prefix: Prefix) {
    predicate Valid() {
      match this
      case Ignored => true
      case BareAddress(a) => a.Valid()
      case Subnet(p) => p.Valid()
    }
  }

  // ---- expansion ----

  predicate Expandable(p: Prefix) {
    p.addr.family == V4 && 16 <= p.bits < 32
  }

  function Host(value: nat): Prefix {
    Prefix(Addr(V4, value), 32)
  }

  /** The hosts of a masked IPv4 block, ascending. */
  function Hosts(base: nat, count: nat): (r: seq<Prefix>)
    ensures |r| == count && forall i :: 0 <= i < count ==> r[i] == Host(base + i)
  {
    seq(count, i requires 0 <= i < count => Host(base + i))
  }

  function Expansion(p: Prefix): seq<Prefix>
    requires p.Valid()
  {
    if Expandable(p) then Hosts(p.Masked().addr.value, p.Size()) else [p.Masked()]
  }

  /** Adding an index to the base of a masked block stays inside 32 bits. */
  lemma NoWrap(p: Prefix)
    requires p.Valid() && p.addr.family == V4
    ensures p.Masked().addr.value + p.Size() <= WORD
  {
    BlockIsRange(p, p.addr);
  }

  /** The loop of the expansion, index by index: a 32-bit addition, then the address
      byte by byte. */
  method FillHosts(base: nat, count: nat) returns (r: seq<Prefix>)
    requires base + count <= WORD
    ensures r == Hosts(base, count)
  {
    hide SplitBytes, JoinBytes;
    var res := new Prefix[count];
    for i := 0 to count
      invariant forall j :: 0 <= j < i ==> res[j] == Host(base + j)
    {
      var curr := (base + i) % WORD;
      assert curr == base + i;
      SplitThenJoin(curr);
      res[i] := Prefix(Addr(V4, JoinBytes(SplitBytes(curr))), 32);
    }
    r := res[..];
  }

  method ExpandIPv4ToSlash32(prefix: Prefix) returns (r: seq<Prefix>)
    requires prefix.Valid()
    ensures r == Expansion(prefix)
  {
    var masked := prefix.Masked();
    if masked.addr.family != V4 || masked.bits < 16 || masked.bits == 32 {
      return [masked];
    }
    var count := Pow2(32 - masked.bits);
    NoWrap(prefix);
    SplitThenJoin(masked.addr.value);
    var baseInt := JoinBytes(SplitBytes(masked.addr.value));
    r := FillHosts(baseInt, count);
  }

  lemma HostContains(value: nat, a: Addr)
    requires value < WORD
    ensures Host(value).Canonical()
    ensures Host(value).Contains(a) <==> a == Addr(V4, value)
  {
    assert Host(value).Size() == 1;
  }

  lemma HostsAscend(base: nat, count: nat)
    requires base + count <= WORD
    ensures forall i, j :: 0 <= i < j < count ==> Hosts(base, count)[i].addr.value < Hosts(base, count)[j].addr.value
    ensures forall h <- Hosts(base, count) :: h.Canonical() && h.bits == 32 && h.addr.family == V4
  {
    forall i | 0 <= i < count ensures Hosts(base, count)[i].Canonical() {
      HostContains(base + i, Addr(V4, base + i));
    }
  }

  lemma HostsCover(base: nat, count: nat, a: Addr)
    requires base + count <= WORD
    ensures Covers(Hosts(base, count), a) <==> a.family == V4 && base <= a.value < base + count
    ensures forall i :: 0 <= i < count && Hosts(base, count)[i].Contains(a) ==> a == Addr(V4, base + i)
  {
    forall i | 0 <= i < count ensures Hosts(base, count)[i].Contains(a) <==> a == Addr(V4, base + i) {
      HostContains(base + i, a);
    }
    if a.family == V4 && base <= a.value < base + count {
      assert Hosts(base, count)[a.value - base].Contains(a);
    }
  }

  /** The expansion of an expandable prefix is 2^(32-bits) hosts, ascending and so
      distinct, that partition the block: each address in exactly one of them. */
  lemma ExpansionPartitions(p: Prefix, a: Addr, i: nat, j: nat)
    requires p.Valid() && Expandable(p)
    ensures |Expansion(p)| == Pow2(32 - p.bits)
    ensures forall h <- Expansion(p) :: h.Canonical() && h.bits == 32 && h.addr.family == V4
    ensures i < j < |Expansion(p)| ==> Expansion(p)[i].addr.value < Expansion(p)[j].addr.value
    ensures Covers(Expansion(p), a) <==> p.Contains(a)
    ensures i < j < |Expansion(p)| ==> !(Expansion(p)[i].Contains(a) && Expansion(p)[j].Contains(a))
  {
    NoWrap(p);
    var hosts := Hosts(p.Masked().addr.value, p.Size());
    assert Expansion(p) == hosts;
    HostsAscend(p.Masked().addr.value, p.Size());
    HostsCover(p.Masked().addr.value, p.Size(), a);
    BlockIsRange(p, a);
  }

  lemma ExpansionCoversBlock(p: Prefix, a: Addr)
    requires p.Valid()
    ensures Covers(Expansion(p), a) <==> p.Contains(a)
    ensures forall q <- Expansion(p) :: q.Canonical()
  {
    if Expandable(p) {
      ExpansionPartitions(p, a, 0, 0);
    } else {
      MaskedKeepsBlock(p, a);
      MaskedIsCanonical(p);
    }
  }

  // ---- the list ----

  /** The prefixes one line stands for. */
  function LinePrefixes(line: Line, expand: bool): seq<Prefix>
    requires line.Valid()
  {
    match line
    case Ignored => []
    case BareAddress(a) => [Prefix(a, Width(a.family)).Masked()]
    case Subnet(p) => if expand && Expandable(p) then Expansion(p) else [p.Masked()]
  }

  ghost predicate AllValid(lines: seq<Line>) {
    forall l <- lines :: l.Valid()
  }

  function AllPrefixes(lines: seq<Line>, expand: bool): seq<Prefix>
    requires AllValid(lines)
  {
    if |lines| == 0 then []
    else AllPrefixes(lines[..|lines| - 1], expand) + LinePrefixes(lines[|lines| - 1], expand)
  }

  /** Each member once, at its first place. */
  function FirstOccurrences(s: seq<Prefix>): (r: seq<Prefix>)
    ensures forall p :: p in r <==> p in s
    ensures NoDuplicates(r)
  {
    if |s| == 0 then []
    else
      var before := FirstOccurrences(s[..|s| - 1]);
      var last := s[|s| - 1];
      assert s == s[..|s| - 1] + [last];
      if last in before then before else before + [last]
  }

  lemma FirstOccurrencesStep(s: seq<Prefix>, p: Prefix)
    ensures FirstOccurrences(s + [p]) == if p in s then FirstOccurrences(s) else FirstOccurrences(s) + [p]
  {
    assert (s + [p])[..|s|] == s;
  }

  /** What a line stands for, prefix by prefix: an address for itself; an IPv4 subnet of 16 to
      31 bits, if asked for, for each host in it; any other subnet for its block. */
  predicate Contributes(line: Line, expand: bool, p: Prefix) {
    match line
    case Ignored => false
    case BareAddress(a) => p == Prefix(a, if a.family == V6 then 128 else 32)
    case Subnet(q) =>
      if expand && q.addr.family == V4 && 16 <= q.bits <= 31 then p.bits == 32 && q.Contains(p.addr)
      else q.Valid() && p == q.Masked()
  }

  lemma LineMembers(line: Line, expand: bool, p: Prefix)
    requires line.Valid()
    ensures p in LinePrefixes(line, expand) <==> Contributes(line, expand, p)
  {
    match line
    case Ignored =>
    case BareAddress(a) =>
      BlockIsRange(Prefix(a, Width(a.family)), a);
    case Subnet(q) =>
      if expand && Expandable(q) {
        BlockIsRange(q, p.addr);
        var base, hosts := q.Masked().addr.value, Expansion(q);
        if Contributes(line, expand, p) {
          assert p == Host(base + (p.addr.value - base)) == hosts[p.addr.value - base];
        }
      }
  }

  ghost predicate Named(lines: seq<Line>, expand: bool, p: Prefix) {
    exists l <- lines :: Contributes(l, expand, p)
  }

  lemma {:induction false} ListMembers(lines: seq<Line>, expand: bool, p: Prefix)
    requires AllValid(lines)
    ensures p in AllPrefixes(lines, expand) <==> Named(lines, expand, p)
  {
    if |lines| > 0 {
      var init, last := lines[..|lines| - 1], lines[|lines| - 1];
      assert lines == init + [last];
      ListMembers(init, expand, p);
      LineMembers(last, expand, p);
    }
  }

  lemma {:induction false} OccurrencesAppend(s: seq<Prefix>, more: seq<Prefix>)
    ensures FirstOccurrences(s) <= FirstOccurrences(s + more)
  {
    if more == [] {
      assert s + more == s;
    } else {
      var init, last := more[..|more| - 1], more[|more| - 1];
      assert s + more == (s + init) + [last];
      OccurrencesAppend(s, init);
      FirstOccurrencesStep(s + init, last);
    }
  }

  lemma PrefixesStep(lines: seq<Line>, last: Line, expand: bool)
    requires AllValid(lines) && last.Valid()
    ensures AllValid(lines + [last])
    ensures AllPrefixes(lines + [last], expand) == AllPrefixes(lines, expand) + LinePrefixes(last, expand)
  {
    assert (lines + [last])[..|lines|] == lines;
    hide LinePrefixes;
  }

  /** What is read keeps the order of the lines: more lines only add at the end. */
  lemma {:induction false} MoreLinesOnlyAppend(lines: seq<Line>, more: seq<Line>, expand: bool)
    requires AllValid(lines) && AllValid(more)
    ensures AllValid(lines + more)
    ensures FirstOccurrences(AllPrefixes(lines, expand)) <= FirstOccurrences(AllPrefixes(lines + more, expand))
  {
    if more == [] {
      assert lines + more == lines;
    } else {
      var init, last := more[..|more| - 1], more[|more| - 1];
      assert AllValid(init) && last.Valid() && lines + more == (lines + init) + [last];
      hide AllPrefixes, LinePrefixes, AllValid, FirstOccurrences;
      MoreLinesOnlyAppend(lines, init, expand);
      PrefixesStep(lines + init, last, expand);
      OccurrencesAppend(AllPrefixes(lines + init, expand), LinePrefixes(last, expand));
    }
  }

  /** What one line contributes. */
  method ReadLine(line: Line, expand: bool) returns (entries: seq<Prefix>)
    requires line.Valid()
    ensures entries == LinePrefixes(line, expand)
  {
    match line
    case Ignored =>
      return [];
    case BareAddress(addr) =>
      var bits := if addr.family == V6 then 128 else 32;
      return [Prefix(addr, bits).Masked()];
    case Subnet(p) =>
      var masked := p.Masked();
      MaskedTwice(p);
      if expand && masked.addr.family == V4 && masked.bits >= 16 && masked.bits < 32 {
        entries := ExpandIPv4ToSlash32(masked);
      } else {
        return [masked];
      }
  }

  /** addPrefix for each entry: mask, and append what has not been seen. */
  method AddPrefixes(known: seq<Prefix>, seen: set<Prefix>, entries: seq<Prefix>, ghost before: seq<Prefix>)
    returns (prefixes: seq<Prefix>, seen': set<Prefix>)
    requires known == FirstOccurrences(before) && forall q :: q in seen <==> q in known
    requires forall i :: 0 <= i < |entries| ==> entries[i].Canonical()
    ensures prefixes == FirstOccurrences(before + entries) && forall q :: q in seen' <==> q in prefixes
  {
    prefixes, seen' := known, seen;
    ghost var all := before;
    for j := 0 to |entries|
      invariant all == before + entries[..j]
      invariant prefixes == FirstOccurrences(all)
      invariant forall q :: q in seen' <==> q in prefixes
    {
      var p := entries[j].Masked();
      FirstOccurrencesStep(all, p);
      all := all + [p];
      if p !in seen' {
        seen', prefixes := seen' + {p}, prefixes + [p];
      }
    }
    assert all == before + entries;
  }

  /** complete says that the scanner came to the end of its input without an error. */
  method ParseList(lines: seq<Line>, complete: bool, expand: bool) returns (r: Option<seq<Prefix>>)
    requires AllValid(lines)
    ensures r == if complete then Some(FirstOccurrences(AllPrefixes(lines, expand))) else None
    ensures r.Some? ==> NoDuplicates(r.value) && forall p :: p in r.value <==> Named(lines, expand, p)
  {
    var prefixes: seq<Prefix> := [];
    var seen: set<Prefix> := {};
    for i := 0 to |lines|
      invariant prefixes == FirstOccurrences(AllPrefixes(lines[..i], expand))
      invariant forall q :: q in seen <==> q in prefixes
    {
      assert lines[..i + 1][..i] == lines[..i];
      var entries := ReadLine(lines[i], expand);
      LineCoverage(lines[i], expand, Addr(V4, 0));
      prefixes, seen := AddPrefixes(prefixes, seen, entries, AllPrefixes(lines[..i], expand));
    }
    assert lines[..|lines|] == lines;
    forall p ensures p in prefixes <==> Named(lines, expand, p) {
      ListMembers(lines, expand, p);
    }
    r := if complete then Some(prefixes) else None;
  }

  lemma MaskedTwice(p: Prefix)
    requires p.Valid()
    ensures p.Masked().Valid() && p.Masked().Masked() == p.Masked() && p.Masked().Size() == p.Size()
  {
    MaskedIsCanonical(p);
  }

  // ---- meaning ----

  predicate LineCovers(line: Line, a: Addr) {
    match line
    case Ignored => false
    case BareAddress(b) => a == b
    case Subnet(p) => p.Contains(a)
  }

  lemma LineCoverage(line: Line, expand: bool, a: Addr)
    requires line.Valid()
    ensures Covers(LinePrefixes(line, expand), a) <==> LineCovers(line, a) && a.Valid()
    ensures forall p <- LinePrefixes(line, expand) :: p.Canonical()
  {
    match line
    case Ignored =>
    case BareAddress(b) =>
      var p := Prefix(b, Width(b.family));
      MaskedKeepsBlock(p, a);
      MaskedIsCanonical(p);
      assert p.Size() == 1;
    case Subnet(p) =>
      ExpansionCoversBlock(p, a);
      MaskedKeepsBlock(p, a);
      MaskedIsCanonical(p);
  }

  lemma {:induction false} ListCoverage(lines: seq<Line>, expand: bool, a: Addr)
    requires AllValid(lines)
    ensures Covers(AllPrefixes(lines, expand), a) <==> a.Valid() && exists l <- lines :: LineCovers(l, a)
    ensures forall p <- AllPrefixes(lines, expand) :: p.Canonical()
  {
    if |lines| > 0 {
      var init, last := lines[..|lines| - 1], lines[|lines| - 1];
      assert lines == init + [last];
      ListCoverage(init, expand, a);
      LineCoverage(last, expand, a);
    }
  }

  /** What a list covers does not depend on whether its subnets are expanded. */
  lemma ExpansionPreservesCoverage(lines: seq<Line>, a: Addr)
    requires AllValid(lines)
    ensures Covers(FirstOccurrences(AllPrefixes(lines, true)), a)
       <==> Covers(FirstOccurrences(AllPrefixes(lines, false)), a)
  {
    ListCoverage(lines, true, a);
    ListCoverage(lines, false, a);
  }

  /** So a whitelist feed means the same expanded or not: the same routes are announced
      and the same addresses blocked, over every blocklist, at every moment. */
  lemma WhitelistExpansionPreservesMeaning(s: State, lines: seq<Line>, now: Time)
    requires (forall p <- s.blocklist :: p.Valid()) && AllValid(lines)
    ensures
      var plain := s.(whitelist := FirstOccurrences(AllPrefixes(lines, false)));
      var expanded := s.(whitelist := FirstOccurrences(AllPrefixes(lines, true)));
      && EffectiveOf(plain, now) == EffectiveOf(expanded, now)
      && forall a :: BlockedBy(plain, a) <==> BlockedBy(expanded, a)
  {
    var plain := s.(whitelist := FirstOccurrences(AllPrefixes(lines, false)));
    forall a ensures Covers(plain.whitelist, a) <==> Covers(FirstOccurrences(AllPrefixes(lines, true)), a) {
      ExpansionPreservesCoverage(lines, a);
    }
    ListCoverage(lines, false, Addr(V4, 0));
    ListCoverage(lines, true, Addr(V4, 0));
    SameCoverageSameMeaning(plain, FirstOccurrences(AllPrefixes(lines, true)), now);
  }
}
