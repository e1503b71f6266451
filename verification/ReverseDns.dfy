/** Selection of PTR records for addresses inside the configured reverse zones. */
module ReverseDns {
  import opened Prelude

  /** An IP address; the version is 4 or 6. */
  datatype Addr = Addr(version: nat, value: nat)

  datatype Network = Network(version: nat, base: nat, prefixLen: nat)

  /** A candidate; an address that does not parse is None, and the priority defaults to 100. */
  datatype Candidate = Candidate(address: Option<Addr>, target: string, priority: Option<int>)

  datatype Record = Record(address: Addr, zone: string, target: string)

  // ---------------------------------------------------------------- names

  /** `r` is the name without white space around it and with a final dot. */
  ghost predicate Qualified(name: string, r: string) {
    exists core :: Stripped(name, core)
      && (if core != "" && core[|core| - 1] == '.' then r == core else r == core + ".")
  }

  function Fqdn(name: string): (r: string)
    ensures r != "" && r[|r| - 1] == '.'
  {
    var s := Strip(name);
    if s != "" && s[|s| - 1] == '.' then s else s + "."
  }

  lemma FqdnQualifies(name: string)
    ensures Qualified(name, Fqdn(name))
  {
    StripStrips(name);
  }

  /** `r` is the name without the dots at its end. */
  ghost predicate Undotted(s: string, r: string) {
    && r <= s && (r != "" ==> r[|r| - 1] != '.')
    && forall i :: |r| <= i < |s| ==> s[i] == '.'
  }

  function RStripDots(s: string): string {
    if s != "" && s[|s| - 1] == '.' then RStripDots(s[..|s| - 1]) else s
  }

  lemma {:induction false} DotsStripped(s: string)
    ensures Undotted(s, RStripDots(s))
  {
    if s != "" && s[|s| - 1] == '.' {
      DotsStripped(s[..|s| - 1]);
    }
  }

  // ---------------------------------------------------------------- the order of candidates

  /** Lexicographic order on strings by code point. */
  predicate StrLe(a: string, b: string) {
    a == "" || (b != "" && (a[0] < b[0] || (a[0] == b[0] && StrLe(a[1..], b[1..]))))
  }

  /** The first string ends, or has the smaller character where the two first differ. */
  ghost predicate Precedes(a: string, b: string) {
    a <= b || exists k :: 0 <= k < |a| && k < |b| && a[..k] == b[..k] && a[k] < b[k]
  }

  lemma {:induction false} StrLeIff(a: string, b: string)
    ensures StrLe(a, b) <==> Precedes(a, b)
  {
    if a != "" && b != "" && a[0] == b[0] {
      StrLeIff(a[1..], b[1..]);
      if Precedes(a, b) {
        PrecedesTail(a, b);
      }
      if Precedes(a[1..], b[1..]) {
        PrecedesLonger(a, b);
      }
    } else if a != "" && b != "" && a[0] < b[0] {
      assert a[..0] == b[..0];
    } else if a != "" && b != "" {
      forall k | 0 <= k < |a| && k < |b| && a[..k] == b[..k]
        ensures k == 0
      {
        if k > 0 {
          SameFirst(a, b, k);
        }
      }
    }
  }

  lemma PrecedesTail(a: string, b: string)
    requires a != "" && b != "" && a[0] == b[0] && Precedes(a, b)
    ensures Precedes(a[1..], b[1..])
  {
    var x, y := a[1..], b[1..];
    if !(a <= b) {
      var k :| 0 <= k < |a| && k < |b| && a[..k] == b[..k] && a[k] < b[k];
      assert x[..k - 1] == a[..k][1..] && y[..k - 1] == b[..k][1..];
      assert x[k - 1] < y[k - 1];
    }
  }

  lemma PrecedesLonger(a: string, b: string)
    requires a != "" && b != "" && a[0] == b[0] && Precedes(a[1..], b[1..])
    ensures Precedes(a, b)
  {
    var x, y := a[1..], b[1..];
    assert a == [a[0]] + x && b == [b[0]] + y;
    if !(x <= y) {
      var k :| 0 <= k < |x| && k < |y| && x[..k] == y[..k] && x[k] < y[k];
      assert a[..k + 1] == [a[0]] + x[..k] && b[..k + 1] == [b[0]] + y[..k];
      assert a[k + 1] < b[k + 1];
    }
  }

  lemma SameFirst(a: string, b: string, k: nat)
    requires 0 < k <= |a| && k <= |b| && a[..k] == b[..k]
    ensures a[0] == b[0]
  {
    assert a[..k][0] == b[..k][0];
  }

  lemma {:induction false} StrTotal(a: string, b: string)
    ensures StrLe(a, b) || StrLe(b, a)
    ensures StrLe(a, b) && StrLe(b, a) ==> a == b
  {
    if a != "" && b != "" {
      StrTotal(a[1..], b[1..]);
      if a[0] == b[0] && a[1..] == b[1..] {
        assert a == [a[0]] + a[1..] && b == [b[0]] + b[1..];
      }
    }
  }

  lemma {:induction false} StrTransitive(a: string, b: string, c: string)
    requires StrLe(a, b) && StrLe(b, c)
    ensures StrLe(a, c)
  {
    if a != "" && b != "" && c != "" && a[0] == b[0] == c[0] {
      StrTransitive(a[1..], b[1..], c[1..]);
    }
  }

  function Priority(c: Candidate): int {
    if c.priority.Some? then c.priority.value else 100
  }

  /** The sort key (priority, fully qualified target). */
  predicate KeyLe(a: Candidate, b: Candidate) {
    Priority(a) < Priority(b) || (Priority(a) == Priority(b) && StrLe(Fqdn(a.target), Fqdn(b.target)))
  }

  lemma KeyTotal(a: Candidate, b: Candidate)
    ensures KeyLe(a, b) || KeyLe(b, a)
    ensures KeyLe(a, b) && KeyLe(b, a) ==> Fqdn(a.target) == Fqdn(b.target)
  {
    StrTotal(Fqdn(a.target), Fqdn(b.target));
  }

  lemma KeyTransitive(a: Candidate, b: Candidate, c: Candidate)
    requires KeyLe(a, b) && KeyLe(b, c)
    ensures KeyLe(a, c)
  {
    if StrLe(Fqdn(a.target), Fqdn(b.target)) && StrLe(Fqdn(b.target), Fqdn(c.target)) {
      StrTransitive(Fqdn(a.target), Fqdn(b.target), Fqdn(c.target));
    }
  }

  /** The lower priority wins, and 100 stands for a missing one. */
  lemma DefaultPriority(a: Addr, plain: string, given: string, p: int)
    requires p != 100
    ensures var c, d := Candidate(Some(a), plain, None), Candidate(Some(a), given, Some(p));
            BestTarget([c, d], a, if p < 100 then Fqdn(given) else Fqdn(plain))
  {
    var c, d := Candidate(Some(a), plain, None), Candidate(Some(a), given, Some(p));
    KeyTotal(c, c);
    KeyTotal(d, d);
    assert c in [c, d] && d in [c, d];
  }

  // ---------------------------------------------------------------- stable sorting of candidates

  function Insert(c: Candidate, s: seq<Candidate>): seq<Candidate> {
    if s == [] || KeyLe(c, s[0]) then [c] + s else [s[0]] + Insert(c, s[1..])
  }

  function Sorted(s: seq<Candidate>): seq<Candidate> {
    if s == [] then [] else Insert(s[0], Sorted(s[1..]))
  }

  ghost predicate Ascending(s: seq<Candidate>) {
    forall i, j :: 0 <= i < j < |s| ==> KeyLe(s[i], s[j])
  }

  lemma {:induction false} InsertMembers(c: Candidate, s: seq<Candidate>, x: Candidate)
    ensures x in Insert(c, s) <==> x == c || x in s
  {
    if s != [] && !KeyLe(c, s[0]) {
      InsertMembers(c, s[1..], x);
      assert s == [s[0]] + s[1..];
    }
  }

  lemma {:induction false} InsertAscends(c: Candidate, s: seq<Candidate>)
    requires Ascending(s)
    ensures Ascending(Insert(c, s))
  {
    if s == [] {
    } else if KeyLe(c, s[0]) {
      forall j | 0 <= j < |s|
        ensures KeyLe(c, s[j])
      {
        if j > 0 {
          KeyTransitive(c, s[0], s[j]);
        }
      }
    } else {
      var t := Insert(c, s[1..]);
      InsertAscends(c, s[1..]);
      KeyTotal(c, s[0]);
      forall j | 0 <= j < |t|
        ensures KeyLe(s[0], t[j])
      {
        InsertMembers(c, s[1..], t[j]);
        assert t[j] in t;
      }
    }
  }

  lemma {:induction false} SortedAscends(s: seq<Candidate>)
    ensures Ascending(Sorted(s))
  {
    if s != [] {
      SortedAscends(s[1..]);
      InsertAscends(s[0], Sorted(s[1..]));
    }
  }

  lemma {:induction false} SortedMembers(s: seq<Candidate>, x: Candidate)
    ensures x in Sorted(s) <==> x in s
  {
    if s != [] {
      SortedMembers(s[1..], x);
      InsertMembers(s[0], Sorted(s[1..]), x);
      assert s == [s[0]] + s[1..];
    }
  }

  // ---------------------------------------------------------------- zones

  function Pow2(n: nat): (r: nat)
    ensures r > 0
  {
    if n == 0 then 1 else 2 * Pow2(n - 1)
  }

  function Bits(version: nat): nat {
    if version == 4 then 32 else 128
  }

  /** The k-th bit, counted from the lowest one. */
  ghost function Bit(v: nat, k: nat): nat {
    if k == 0 then v % 2 else Bit(v / 2, k - 1)
  }

  lemma HalfFirst(v: nat, p: nat)
    requires p > 0
    ensures v / 2 / p == v / (2 * p)
  {
    var q, r := v / (2 * p), v % (2 * p);
    assert v == 2 * (p * q) + r;
    assert v / 2 == p * q + r / 2 && r / 2 < p;
    QuotientIs(v / 2, p, q, r / 2);
  }

  lemma QuotientIs(v: nat, p: nat, q: nat, r: nat)
    requires v == p * q + r && r < p
    ensures v / p == q
  {
    if v / p > q {
      TimesGrows(p, q + 1, v / p);
    } else if v / p < q {
      TimesGrows(p, v / p + 1, q);
    }
  }

  lemma TimesGrows(p: nat, x: nat, y: nat)
    requires x <= y
    ensures p * x <= p * y
  {
  }

  /** The value without its lowest h bits. */
  ghost function Shifted(v: nat, h: nat): nat {
    if h == 0 then v else Shifted(v / 2, h - 1)
  }

  lemma {:induction false} ShiftedIsQuotient(v: nat, h: nat)
    ensures Shifted(v, h) == v / Pow2(h)
  {
    if h > 0 {
      ShiftedIsQuotient(v / 2, h - 1);
      HalfFirst(v, Pow2(h - 1));
    }
  }

  lemma {:induction false} ShiftedBit(v: nat, h: nat, k: nat)
    ensures Bit(Shifted(v, h), k) == Bit(v, h + k)
  {
    if h > 0 {
      ShiftedBit(v / 2, h - 1, k);
    }
  }

  lemma {:induction false} EqualByBits(x: nat, y: nat)
    requires forall k :: k >= 0 ==> Bit(x, k) == Bit(y, k)
    ensures x == y
    decreases x + y
  {
    assert Bit(x, 0) == Bit(y, 0);
    if x / 2 + y / 2 < x + y {
      forall k | k >= 0
        ensures Bit(x / 2, k) == Bit(y / 2, k)
      {
        assert Bit(x, k + 1) == Bit(y, k + 1);
      }
      EqualByBits(x / 2, y / 2);
    }
  }

  /** Two values agree in all bits from the h-th on. */
  ghost predicate SameFrom(v: nat, w: nat, h: nat) {
    forall k :: k >= h ==> Bit(v, k) == Bit(w, k)
  }

  /** Values that agree in these bits have the same prefix, and the other way round. */
  lemma SamePrefix(v: nat, w: nat, h: nat)
    ensures v / Pow2(h) == w / Pow2(h) <==> SameFrom(v, w, h)
  {
    ShiftedIsQuotient(v, h);
    ShiftedIsQuotient(w, h);
    SameShift(v, w, h);
  }

  lemma SameShift(v: nat, w: nat, h: nat)
    ensures Shifted(v, h) == Shifted(w, h) <==> SameFrom(v, w, h)
  {
    forall k | k >= 0
      ensures Bit(Shifted(v, h), k) == Bit(v, h + k) && Bit(Shifted(w, h), k) == Bit(w, h + k)
    {
      ShiftedBit(v, h, k);
      ShiftedBit(w, h, k);
    }
    SameByBits(v, w, Shifted(v, h), Shifted(w, h), h);
  }

  lemma SameByBits(v: nat, w: nat, x: nat, y: nat, h: nat)
    requires forall k :: k >= 0 ==> Bit(x, k) == Bit(v, h + k) && Bit(y, k) == Bit(w, h + k)
    ensures x == y <==> SameFrom(v, w, h)
  {
    if SameFrom(v, w, h) {
      EqualByBits(x, y);
    }
    if x == y {
      forall k | k >= h
        ensures Bit(v, k) == Bit(w, k)
      {
        var m := k - h;
        assert Bit(x, m) == Bit(v, h + m) && Bit(y, m) == Bit(w, h + m);
      }
    }
  }

  /** The address agrees with the network in the bits of the prefix, of 32 bits for IPv4 and 128 for IPv6. */
  predicate Contains(net: Network, a: Addr): (r: bool)
    ensures var bits := if net.version == 4 then 32 else 128;
            r <==>
              net.version == a.version && net.prefixLen <= bits && SameFrom(a.value, net.base, bits - net.prefixLen)
  {
    if net.version == a.version && net.prefixLen <= Bits(net.version) then
      var low := Bits(net.version) - net.prefixLen;
      SamePrefix(a.value, net.base, low);
      a.value / Pow2(low) == net.base / Pow2(low)
    else false
  }

  type Zones = seq<(Network, string)>

  /** The i-th zone is the first of the longest prefixes that contain the address. */
  ghost predicate Longest(zones: Zones, a: Addr, i: nat) {
    && i < |zones| && Contains(zones[i].0, a)
    && forall j :: 0 <= j < |zones| && Contains(zones[j].0, a) ==>
         zones[j].0.prefixLen <= zones[i].0.prefixLen && (j < i ==> zones[j].0.prefixLen < zones[i].0.prefixLen)
  }

  function BestZone(zones: Zones, a: Addr): (r: Option<nat>)
    ensures r.Some? ==> Longest(zones, a, r.value)
    ensures r.None? ==> forall j :: 0 <= j < |zones| ==> !Contains(zones[j].0, a)
  {
    if zones == [] then None
    else
      var n := |zones| - 1;
      var best := BestZone(zones[..n], a);
      assert forall j :: 0 <= j < n ==> zones[..n][j] == zones[j];
      if Contains(zones[n].0, a) && (best.None? || zones[best.value].0.prefixLen < zones[n].0.prefixLen) then Some(n)
      else best
  }

  /** The zone of an address; an empty zone name counts as none. */
  function ZoneFor(zones: Zones, a: Addr): Option<string> {
    var best := BestZone(zones, a);
    if best.Some? && RStripDots(zones[best.value].1) != "" then Some(RStripDots(zones[best.value].1)) else None
  }

  /**
   The zone is that of the longest prefix, without the dots at its end; there is none if nothing
   else is left of it.
   */
  lemma ZoneForIs(zones: Zones, a: Addr)
    ensures match ZoneFor(zones, a)
            case Some(z) => z != "" && exists i: nat :: Longest(zones, a, i) && Undotted(zones[i].1, z)
            case None => || (forall i :: 0 <= i < |zones| ==> !Contains(zones[i].0, a))
                         || (exists i: nat :: Longest(zones, a, i) && Undotted(zones[i].1, ""))
  {
    var best := BestZone(zones, a);
    if best.Some? {
      DotsStripped(zones[best.value].1);
    }
  }

  // ---------------------------------------------------------------- selection

  /** Custom entries in dictionary order: a target and its addresses. */
  type Custom = seq<(string, seq<Option<Addr>>)>

  /** All (address, target) pairs of the custom entries, in order. */
  function Pairs(custom: Custom): seq<(Option<Addr>, string)>
    decreases |custom|
  {
    if custom == [] then [] else PairsOf(custom[0]) + Pairs(custom[1..])
  }

  function PairsOf(entry: (string, seq<Option<Addr>>)): (r: seq<(Option<Addr>, string)>)
    ensures |r| == |entry.1| && forall i :: 0 <= i < |r| ==> r[i] == (entry.1[i], Fqdn(entry.0))
  {
    seq(|entry.1|, i requires 0 <= i < |entry.1| => (entry.1[i], Fqdn(entry.0)))
  }

  predicate AllParse(pairs: seq<(Option<Addr>, string)>) {
    forall i :: 0 <= i < |pairs| ==> pairs[i].0.Some?
  }

  /** The last pair that names the address wins. */
  predicate LastPair(pairs: seq<(Option<Addr>, string)>, a: Addr, t: string) {
    exists i :: 0 <= i < |pairs| && pairs[i] == (Some(a), t) && forall j :: i < j < |pairs| ==> pairs[j].0 != Some(a)
  }

  predicate Mentioned(pairs: seq<(Option<Addr>, string)>, a: Addr) {
    exists i :: 0 <= i < |pairs| && pairs[i].0 == Some(a)
  }

  /** Some candidate for the address has this target and the least (priority, target). */
  ghost predicate BestTarget(cs: seq<Candidate>, a: Addr, t: string) {
    exists c :: c in cs && c.address == Some(a) && Fqdn(c.target) == t
      && forall d :: d in cs && d.address == Some(a) ==> KeyLe(c, d)
  }

  ghost predicate Proposed(cs: seq<Candidate>, a: Addr) {
    exists c :: c in cs && c.address == Some(a)
  }

  /** The target chosen for an address: custom entries override candidates. */
  ghost predicate IsTarget(cs: seq<Candidate>, pairs: seq<(Option<Addr>, string)>, a: Addr, t: string) {
    if Mentioned(pairs, a) then LastPair(pairs, a, t) else BestTarget(cs, a, t)
  }

  /** The dictionary `selected` after both loops. */
  ghost predicate Selected(m: map<Addr, string>, cs: seq<Candidate>, pairs: seq<(Option<Addr>, string)>) {
    && (forall a :: a in m <==> Proposed(cs, a) || Mentioned(pairs, a))
    && (forall a :: a in m ==> IsTarget(cs, pairs, a, m[a]))
  }

  /** First loop: the first candidate in key order sets the target. */
  method SelectCandidates(cs: seq<Candidate>) returns (m: map<Addr, string>)
    ensures Selected(m, cs, [])
  {
    m := map[];
    var sorted := Sorted(cs);
    for i := 0 to |sorted|
      invariant Firsts(m, sorted, i)
    {
      var target := Fqdn(sorted[i].target);
      FirstsStep(m, sorted, i, target);
      if sorted[i].address.Some? && sorted[i].address.value !in m {
        m := m[sorted[i].address.value := target];
      }
    }
    FirstsSelected(m, cs);
  }

  /** Every address among the first `i` candidates is mapped to the target of its first one. */
  ghost predicate Firsts(m: map<Addr, string>, s: seq<Candidate>, i: nat) {
    && (forall a :: a in m ==> FirstOf(s, i, a, m[a]))
    && (forall k :: 0 <= k < i && k < |s| && s[k].address.Some? ==> s[k].address.value in m)
  }

  lemma FirstsStep(m: map<Addr, string>, s: seq<Candidate>, i: nat, t: string)
    requires i < |s| && Firsts(m, s, i) && t == Fqdn(s[i].target)
    ensures Firsts(if s[i].address.Some? && s[i].address.value !in m then m[s[i].address.value := t] else m, s, i + 1)
  {
    forall a | a in m
      ensures FirstOf(s, i + 1, a, m[a])
    {
      var k :| 0 <= k < i && FirstAt(s, k, a, m[a]);
    }
    if s[i].address.Some? && s[i].address.value !in m {
      assert FirstAt(s, i, s[i].address.value, t);
    }
  }

  lemma ProposedSelected(m: map<Addr, string>, cs: seq<Candidate>, a: Addr)
    requires Firsts(m, Sorted(cs), |Sorted(cs)|) && Proposed(cs, a)
    ensures a in m
  {
    var s := Sorted(cs);
    var c :| c in cs && c.address == Some(a);
    SortedMembers(cs, c);
    var k :| 0 <= k < |s| && s[k] == c;
  }

  lemma FirstsSelected(m: map<Addr, string>, cs: seq<Candidate>)
    requires Firsts(m, Sorted(cs), |Sorted(cs)|)
    ensures Selected(m, cs, [])
  {
    forall a
      ensures a in m <==> Proposed(cs, a) || Mentioned([], a)
      ensures a in m ==> IsTarget(cs, [], a, m[a])
    {
      if a in m {
        FirstIsBest(cs, a, m[a]);
      } else if Proposed(cs, a) {
        ProposedSelected(m, cs, a);
      }
    }
  }

  /** Position `k` is the first one of the address, and holds this target. */
  predicate FirstAt(s: seq<Candidate>, k: nat, a: Addr, t: string) {
    k < |s| && s[k].address == Some(a) && Fqdn(s[k].target) == t && forall j :: 0 <= j < k ==> s[j].address != Some(a)
  }

  predicate FirstOf(s: seq<Candidate>, i: nat, a: Addr, t: string) {
    exists k :: 0 <= k < i && FirstAt(s, k, a, t)
  }

  lemma FirstIsBest(cs: seq<Candidate>, a: Addr, t: string)
    requires FirstOf(Sorted(cs), |Sorted(cs)|, a, t)
    ensures Proposed(cs, a) && BestTarget(cs, a, t)
  {
    var s := Sorted(cs);
    var k :| 0 <= k < |s| && FirstAt(s, k, a, t);
    SortedAscends(cs);
    SortedMembers(cs, s[k]);
    forall d | d in cs && d.address == Some(a)
      ensures KeyLe(s[k], d)
    {
      SortedMembers(cs, d);
      var j :| 0 <= j < |s| && s[j] == d;
      if j == k {
        KeyTotal(d, d);
      }
    }
  }

  /** Second loop: custom entries override; an address that does not parse raises. */
  method ApplyCustom(m0: map<Addr, string>, cs: seq<Candidate>, custom: Custom)
    returns (r: Result<map<Addr, string>, ()>)
    requires Selected(m0, cs, [])
    ensures r.Ok? <==> AllParse(Pairs(custom))
    ensures r.Ok? ==> Selected(r.value, cs, Pairs(custom))
  {
    var m := m0;
    ghost var done: seq<(Option<Addr>, string)> := [];
    for i := 0 to |custom|
      invariant done + Pairs(custom[i..]) == Pairs(custom)
      invariant AllParse(done) && Selected(m, cs, done)
    {
      ghost var mine := PairsOf(custom[i]);
      assert custom[i..][1..] == custom[i + 1..];
      assert (done + mine) + Pairs(custom[i + 1..]) == Pairs(custom);
      var ok;
      ok, m := ApplyEntry(m, cs, custom[i], done);
      ParsePrefix(done + mine, Pairs(custom[i + 1..]));
      if !ok {
        return Err(());
      }
      done := done + mine;
    }
    assert custom[|custom|..] == [];
    assert done == Pairs(custom);
    return Ok(m);
  }

  lemma ParsePrefix(a: seq<(Option<Addr>, string)>, b: seq<(Option<Addr>, string)>)
    ensures AllParse(a + b) ==> AllParse(a)
  {
    if AllParse(a + b) {
      forall i | 0 <= i < |a|
        ensures a[i].0.Some?
      {
        assert (a + b)[i] == a[i];
      }
    }
  }

  /** The inner loop, over the addresses of one custom target. */
  method ApplyEntry(m0: map<Addr, string>, ghost cs: seq<Candidate>, entry: (string, seq<Option<Addr>>),
                    ghost done0: seq<(Option<Addr>, string)>)
    returns (ok: bool, m: map<Addr, string>)
    requires AllParse(done0) && Selected(m0, cs, done0)
    ensures ok <==> AllParse(done0 + PairsOf(entry))
    ensures ok ==> Selected(m, cs, done0 + PairsOf(entry))
  {
    m := m0;
    ghost var mine := PairsOf(entry);
    assert done0 + mine[..0] == done0;
    for k := 0 to |entry.1|
      invariant AllParse(done0 + mine[..k]) && Selected(m, cs, done0 + mine[..k])
    {
      assert done0 + mine[..k + 1] == (done0 + mine[..k]) + [mine[k]];
      assert (done0 + mine)[|done0| + k] == mine[k];
      if entry.1[k].None? {
        return false, m;
      }
      OverrideOne(m, cs, done0 + mine[..k], entry.1[k].value, Fqdn(entry.0));
      m := m[entry.1[k].value := Fqdn(entry.0)];
    }
    assert mine[..|entry.1|] == mine;
    return true, m;
  }

  lemma OverrideOne(m: map<Addr, string>, cs: seq<Candidate>, done: seq<(Option<Addr>, string)>, a: Addr, t: string)
    requires Selected(m, cs, done)
    ensures Selected(m[a := t], cs, done + [(Some(a), t)])
  {
    var now := done + [(Some(a), t)];
    assert now[|done|] == (Some(a), t);
    forall b
      ensures Mentioned(now, b) <==> Mentioned(done, b) || b == a
      ensures b != a ==> forall u :: LastPair(done, b, u) ==> LastPair(now, b, u)
    {
      if Mentioned(done, b) {
        var i :| 0 <= i < |done| && done[i].0 == Some(b);
        assert now[i] == done[i];
      }
      forall u | b != a && LastPair(done, b, u)
        ensures LastPair(now, b, u)
      {
        var i :| 0 <= i < |done| && done[i] == (Some(b), u) && forall j :: i < j < |done| ==> done[j].0 != Some(b);
        assert now[i] == done[i];
      }
    }
    assert LastPair(now, a, t);
  }

  // ---------------------------------------------------------------- output

  predicate AddrLess(a: Addr, b: Addr) {
    a.version < b.version || (a.version == b.version && a.value < b.value)
  }

  /** IPv4 before IPv6, then by value. */
  ghost predicate Earlier(a: Addr, b: Addr) {
    if a.version == b.version then a.value < b.value else a.version < b.version
  }

  ghost predicate StrictlySorted(rs: seq<Record>) {
    forall i, j :: 0 <= i < j < |rs| ==> Earlier(rs[i].address, rs[j].address)
  }

  function InsertRecord(r: Record, rs: seq<Record>): seq<Record> {
    if rs == [] || AddrLess(r.address, rs[0].address) then [r] + rs else [rs[0]] + InsertRecord(r, rs[1..])
  }

  lemma {:induction false} InsertRecordSorts(r: Record, rs: seq<Record>)
    requires StrictlySorted(rs) && forall i :: 0 <= i < |rs| ==> rs[i].address != r.address
    ensures StrictlySorted(InsertRecord(r, rs))
    ensures forall x :: x in InsertRecord(r, rs) <==> x == r || x in rs
  {
    if rs != [] && !AddrLess(r.address, rs[0].address) {
      InsertRecordSorts(r, rs[1..]);
      var t := InsertRecord(r, rs[1..]);
      assert rs == [rs[0]] + rs[1..];
      assert forall i :: 0 <= i < |t| ==> t[i] in t;
    }
  }

  /** What the result promises: one record per selected address inside a zone, strictly sorted. */
  ghost predicate Correct(rs: seq<Record>, cs: seq<Candidate>, zones: Zones, pairs: seq<(Option<Addr>, string)>) {
    && StrictlySorted(rs)
    && (forall a :: (exists r :: r in rs && r.address == a) <==>
          (Proposed(cs, a) || Mentioned(pairs, a)) && ZoneFor(zones, a).Some?)
    && (forall r :: r in rs ==> IsTarget(cs, pairs, r.address, r.target) && ZoneFor(zones, r.address) == Some(r.zone))
  }

  method PtrRecords(cs: seq<Candidate>, zones: Zones, custom: Custom) returns (result: Result<seq<Record>, ()>)
    ensures result.Ok? <==> AllParse(Pairs(custom))
    ensures result.Ok? ==> Correct(result.value, cs, zones, Pairs(custom))
  {
    var m := SelectCandidates(cs);
    var selected := ApplyCustom(m, cs, custom);
    if selected.Err? {
      return Err(());
    }
    var records := Emit(selected.value, zones);
    EmittedCorrect(selected.value, records, cs, zones, Pairs(custom));
    return Ok(records);
  }

  lemma EmittedCorrect(m: map<Addr, string>, rs: seq<Record>, cs: seq<Candidate>, zones: Zones,
                       pairs: seq<(Option<Addr>, string)>)
    requires Selected(m, cs, pairs) && StrictlySorted(rs)
    requires forall r :: r in rs <==>
               r.address in m && r.target == m[r.address] && ZoneFor(zones, r.address) == Some(r.zone)
    ensures Correct(rs, cs, zones, pairs)
  {
    forall a | a in m && ZoneFor(zones, a).Some?
      ensures exists r :: r in rs && r.address == a
    {
      assert Record(a, ZoneFor(zones, a).value, m[a]) in rs;
    }
  }

  /** The loop over the selected addresses, in any order; the records are kept sorted. */
  method Emit(m: map<Addr, string>, zones: Zones) returns (rs: seq<Record>)
    ensures StrictlySorted(rs)
    ensures forall r :: r in rs <==>
              r.address in m && r.target == m[r.address] && ZoneFor(zones, r.address) == Some(r.zone)
  {
    rs := [];
    var todo := m.Keys;
    while todo != {}
      invariant todo <= m.Keys && StrictlySorted(rs)
      invariant forall r :: r in rs <==>
                  r.address in m && r.address !in todo && r.target == m[r.address]
                  && ZoneFor(zones, r.address) == Some(r.zone)
      decreases |todo|
    {
      var a :| a in todo;
      var zone := ZoneFor(zones, a);
      if zone.Some? {
        var r := Record(a, zone.value, m[a]);
        assert forall i :: 0 <= i < |rs| ==> rs[i] in rs;
        InsertRecordSorts(r, rs);
        rs := InsertRecord(r, rs);
      }
      todo := todo - {a};
    }
  }

  // ---------------------------------------------------------------- the order of candidates does not matter

  lemma BestTargetUnique(cs: seq<Candidate>, a: Addr, t: string, u: string)
    requires BestTarget(cs, a, t) && BestTarget(cs, a, u)
    ensures t == u
  {
    var c :| c in cs && c.address == Some(a) && Fqdn(c.target) == t
        && forall d :: d in cs && d.address == Some(a) ==> KeyLe(c, d);
    var e :| e in cs && e.address == Some(a) && Fqdn(e.target) == u
        && forall d :: d in cs && d.address == Some(a) ==> KeyLe(e, d);
    KeyTotal(c, e);
  }

  lemma TargetUnique(cs: seq<Candidate>, ds: seq<Candidate>, pairs: seq<(Option<Addr>, string)>, a: Addr, t: string,
                     u: string)
    requires forall c :: c in cs <==> c in ds
    requires IsTarget(cs, pairs, a, t) && IsTarget(ds, pairs, a, u)
    ensures t == u
  {
    if Mentioned(pairs, a) {
      var i :| 0 <= i < |pairs| && pairs[i] == (Some(a), t) && forall j :: i < j < |pairs| ==> pairs[j].0 != Some(a);
      var k :| 0 <= k < |pairs| && pairs[k] == (Some(a), u) && forall j :: k < j < |pairs| ==> pairs[j].0 != Some(a);
    } else {
      assert BestTarget(cs, a, u);
      BestTargetUnique(cs, a, t, u);
    }
  }

  /** Two strictly sorted lists with the same members are equal. */
  lemma {:induction false} SortedUnique(rs: seq<Record>, qs: seq<Record>)
    requires StrictlySorted(rs) && StrictlySorted(qs) && forall r :: r in rs <==> r in qs
    ensures rs == qs
  {
    FirstIsMember(rs);
    FirstIsMember(qs);
    if rs != [] {
      assert rs[0] in qs && qs != [] && qs[0] in rs;
      var i :| 0 <= i < |qs| && qs[i] == rs[0];
      var j :| 0 <= j < |rs| && rs[j] == qs[0];
      assert rs[0] == qs[0];
      assert rs == [rs[0]] + rs[1..] && qs == [qs[0]] + qs[1..];
      forall r
        ensures r in rs[1..] <==> r in qs[1..]
      {
        assert r in rs[1..] <==> r in rs && r != rs[0];
        assert r in qs[1..] <==> r in qs && r != qs[0];
      }
      SortedUnique(rs[1..], qs[1..]);
    }
  }

  /** Permuting the candidates, or repeating some, never changes the result. */
  lemma OrderIrrelevant(cs: seq<Candidate>, ds: seq<Candidate>, zones: Zones, pairs: seq<(Option<Addr>, string)>,
                        rs: seq<Record>, qs: seq<Record>)
    requires forall c :: c in cs <==> c in ds
    requires Correct(rs, cs, zones, pairs) && Correct(qs, ds, zones, pairs)
    ensures rs == qs
  {
    forall r | r in rs
      ensures r in qs
    {
      SameRecord(cs, ds, zones, pairs, rs, qs, r);
    }
    forall r | r in qs
      ensures r in rs
    {
      SameRecord(ds, cs, zones, pairs, qs, rs, r);
    }
    SortedUnique(rs, qs);
  }

  lemma SameRecord(cs: seq<Candidate>, ds: seq<Candidate>, zones: Zones, pairs: seq<(Option<Addr>, string)>,
                   rs: seq<Record>, qs: seq<Record>, r: Record)
    requires forall c :: c in cs <==> c in ds
    requires Correct(rs, cs, zones, pairs) && Correct(qs, ds, zones, pairs) && r in rs
    ensures r in qs
  {
    assert Proposed(cs, r.address) <==> Proposed(ds, r.address);
    assert exists q :: q in rs && q.address == r.address;
    var q :| q in qs && q.address == r.address;
    TargetUnique(cs, ds, pairs, r.address, r.target, q.target);
  }
}
