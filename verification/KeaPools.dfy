/** The Kea pool report in dhcpd-pools form, and the exit code of the check built on it. */
module KeaPools {
  import opened Prelude

  datatype StatName = Total | Assigned | Declined

  datatype StatKey = StatKey(subnet: nat, name: StatName)

  /** Statistics as samples, newest first. */
  type Stats = map<StatKey, seq<int>>

  datatype Subnet = Subnet(id: nat, prefix: string, pools: seq<string>)

  /** A shared network; the subnets outside of any are collected under the empty name. */
  datatype Network = Network(name: string, subnets: seq<Subnet>)

  /** Addresses defined, used and touched. */
  datatype Counts = Counts(defined: int, used: int, touched: int)

  /** `c` is the sum of `a` and `b`. */
  predicate Adds(a: Counts, b: Counts, c: Counts) {
    c.defined == a.defined + b.defined && c.used == a.used + b.used && c.touched == a.touched + b.touched
  }

  const ZERO := Counts(0, 0, 0)

  datatype Entry = Entry(location: string, range: string, counts: Counts, free: int, percent: real, touchCount: int,
                         touchPercent: real, status: nat)

  datatype Report = Report(ranges: seq<Entry>, shared: seq<Entry>, summary: Entry)

  datatype Limits = Limits(warning: Option<real>, critical: Option<real>)

  const OK: nat := 0
  const WARNING: nat := 1
  const CRITICAL: nat := 2

  // ---------------------------------------------------------------- one set of counters

  function Stat(stats: Stats, key: StatKey): int {
    if key in stats && stats[key] != [] then stats[key][0] else 0
  }

  /** The value is the newest sample of the statistic, or 0 if there is none. */
  ghost predicate Newest(stats: Stats, id: nat, name: StatName, v: int) {
    var key := StatKey(id, name);
    (v == 0 && (key !in stats || stats[key] == [])) || (key in stats && |stats[key]| > 0 && v == stats[key][0])
  }

  /** Declined addresses count as touched, not as used. */
  function CountsOf(stats: Stats, s: Subnet): (c: Counts)
    ensures c.used >= 0
  {
    var declined := Stat(stats, StatKey(s.id, Declined));
    var used := Stat(stats, StatKey(s.id, Assigned)) - declined;
    Counts(Stat(stats, StatKey(s.id, Total)), if used > 0 then used else 0, declined)
  }

  /** Used and declined addresses together are the leased ones, unless more are declined than leased. */
  lemma CountsAdd(stats: Stats, s: Subnet, total: int, leased: int, declined: int)
    requires Newest(stats, s.id, Total, total) && Newest(stats, s.id, Assigned, leased)
    requires Newest(stats, s.id, Declined, declined)
    ensures var c := CountsOf(stats, s);
            && c.defined == total && c.touched == declined
            && if leased >= declined then c.used + declined == leased else c.used == 0
  {
  }

  /** The nearest integer, the even one of two. */
  ghost predicate Nearest(y: real, n: int) {
    n as real - 0.5 <= y <= n as real + 0.5 && (y == n as real - 0.5 || y == n as real + 0.5 ==> n % 2 == 0)
  }

  ghost predicate Thousandths(x: real, n: int) {
    Nearest(1000.0 * x, n)
  }

  /** The nearest multiple of 0.001. */
  ghost predicate Rounded(x: real, r: real) {
    exists n :: Thousandths(x, n) && r == n as real / 1000.0
  }

  lemma NearestAbove(y: real, n: int, m: int)
    requires Nearest(y, n) && Nearest(y, m) && n <= m
    ensures n == m
  {
    var d := m - n;
    assert d as real == m as real - n as real;
    assert d as real <= 1.0;
    assert d <= 1;
  }

  lemma RoundedUnique(x: real, p: real, q: real)
    requires Rounded(x, p) && Rounded(x, q)
    ensures p == q
  {
    var n :| Thousandths(x, n) && p == n as real / 1000.0;
    var m :| Thousandths(x, m) && q == m as real / 1000.0;
    if n <= m {
      NearestAbove(1000.0 * x, n, m);
    } else {
      NearestAbove(1000.0 * x, m, n);
    }
  }

  /** Rounding to an integer, ties to the even one. */
  function Round(y: real): (n: int)
    ensures Nearest(y, n)
  {
    var low := y.Floor;
    if y - low as real > 0.5 || (y - low as real == 0.5 && low % 2 != 0) then low + 1 else low
  }

  /** Rounding to three places. */
  function Round3(x: real): (r: real)
    ensures Rounded(x, r) && (x == 0.0 ==> r == 0.0)
  {
    var n := Round(1000.0 * x);
    assert Thousandths(x, n);
    n as real / 1000.0
  }

  /** The part in percent of the whole, to three places; 0 of nothing. */
  ghost predicate IsPercent(part: int, whole: int, p: real) {
    if whole == 0 then p == 0.0 else Rounded(100.0 * part as real / whole as real, p)
  }

  function Percent(part: int, whole: int): (r: real)
    ensures IsPercent(part, whole, r)
    ensures part == 0 || whole == 0 ==> r == 0.0
  {
    if whole == 0 then 0.0 else Round3(100.0 * part as real / whole as real)
  }

  function Status(percent: real, limits: Limits): nat {
    if limits.critical.Some? && percent >= limits.critical.value then CRITICAL
    else if limits.warning.Some? && percent >= limits.warning.value then WARNING
    else OK
  }

  function MakeEntry(location: string, range: string, c: Counts, limits: Limits): (e: Entry)
    ensures e.location == location && e.range == range && e.counts == c
    ensures e.free >= 0 && (c.used <= c.defined ==> e.free + c.used == c.defined)
            && (c.used > c.defined ==> e.free == 0)
    ensures IsPercent(c.used, c.defined, e.percent) && e.status == Status(e.percent, limits)
    ensures e.touchCount == c.used + c.touched && IsPercent(e.touchCount, c.defined, e.touchPercent)
    ensures e.percent == Percent(c.used, c.defined)
  {
    var percent := Percent(c.used, c.defined);
    Entry(location, range, c, if c.defined > c.used then c.defined - c.used else 0, percent,
          c.used + c.touched, Percent(c.used + c.touched, c.defined), Status(percent, limits))
  }

  // ---------------------------------------------------------------- the report

  /** The pools of one subnet: the first one carries the counts, the others none. */
  function PoolEntries(location: string, pools: seq<string>, c: Counts, limits: Limits): seq<Entry> {
    if pools == [] then []
    else [MakeEntry(location, pools[0], c, limits)] + PoolEntries(location, pools[1..], ZERO, limits)
  }

  function Location(name: string, s: Subnet): string {
    if name != "" then name else s.prefix
  }

  function SubnetEntries(stats: Stats, name: string, subnets: seq<Subnet>, limits: Limits): seq<Entry> {
    if subnets == [] then []
    else
      var n := |subnets| - 1;
      SubnetEntries(stats, name, subnets[..n], limits) + PoolEntries(Location(name, subnets[n]), subnets[n].pools,
        CountsOf(stats, subnets[n]), limits)
  }

  function SubnetTotals(stats: Stats, subnets: seq<Subnet>): Counts {
    if subnets == [] then ZERO
    else
      var (t, c) := (SubnetTotals(stats, subnets[..|subnets| - 1]), CountsOf(stats, subnets[|subnets| - 1]));
      Counts(t.defined + c.defined, t.used + c.used, t.touched + c.touched)
  }

  function Ranges(stats: Stats, nets: seq<Network>, limits: Limits): seq<Entry> {
    if nets == [] then []
    else
      var n := |nets| - 1;
      Ranges(stats, nets[..n], limits) + SubnetEntries(stats, nets[n].name, nets[n].subnets, limits)
  }

  function Shared(stats: Stats, nets: seq<Network>, limits: Limits): seq<Entry> {
    if nets == [] then []
    else
      var n := |nets| - 1;
      Shared(stats, nets[..n], limits) +
      if nets[n].name != "" then [MakeEntry(nets[n].name, "", SubnetTotals(stats, nets[n].subnets), limits)] else []
  }

  function Totals(stats: Stats, nets: seq<Network>): Counts {
    if nets == [] then ZERO
    else
      var (t, c) := (Totals(stats, nets[..|nets| - 1]), SubnetTotals(stats, nets[|nets| - 1].subnets));
      Counts(t.defined + c.defined, t.used + c.used, t.touched + c.touched)
  }

  method PoolLoop(location: string, pools: seq<string>, c: Counts, limits: Limits) returns (entries: seq<Entry>)
    ensures entries == PoolEntries(location, pools, c, limits)
  {
    entries := [];
    var counts := c;
    for i := 0 to |pools|
      invariant entries + PoolEntries(location, pools[i..], counts, limits) == PoolEntries(location, pools, c, limits)
    {
      assert pools[i..][1..] == pools[i + 1..];
      entries := entries + [MakeEntry(location, pools[i], counts, limits)];
      counts := ZERO;
    }
  }

  lemma ReportStep(stats: Stats, nets: seq<Network>, i: nat, limits: Limits)
    requires i < |nets|
    ensures var t, c := Totals(stats, nets[..i]), SubnetTotals(stats, nets[i].subnets);
            && Totals(stats, nets[..i + 1]) == Counts(t.defined + c.defined, t.used + c.used, t.touched + c.touched)
            && Ranges(stats, nets[..i + 1], limits) ==
              Ranges(stats, nets[..i], limits) + SubnetEntries(stats, nets[i].name, nets[i].subnets, limits)
            && Shared(stats, nets[..i + 1], limits) == Shared(stats, nets[..i], limits) +
                 if nets[i].name != "" then [MakeEntry(nets[i].name, "", c, limits)] else []
  {
    assert nets[..i + 1][..i] == nets[..i];
  }

  method BuildReport(stats: Stats, nets: seq<Network>, limits: Limits) returns (report: Report)
    ensures report ==
            Report(Ranges(stats, nets, limits), Shared(stats, nets, limits),
              MakeEntry("All networks", "", Totals(stats, nets), limits))
    ensures AllPooled(nets) ==> Sum(report.ranges) == report.summary.counts
  {
    var ranges: seq<Entry>, shared: seq<Entry> := [], [];
    var totals := ZERO;
    for i := 0 to |nets|
      invariant ranges == Ranges(stats, nets[..i], limits)
      invariant shared == Shared(stats, nets[..i], limits)
      invariant totals == Totals(stats, nets[..i])
    {
      ReportStep(stats, nets, i, limits);
      var name, subnets := nets[i].name, nets[i].subnets;
      var more, netTotals := SubnetLoop(stats, name, subnets, limits);
      ranges := ranges + more;
      if name != "" {
        shared := shared + [MakeEntry(name, "", netTotals, limits)];
      }
      totals := Counts(totals.defined + netTotals.defined, totals.used + netTotals.used,
        totals.touched + netTotals.touched);
    }
    assert nets[..|nets|] == nets;
    RangesSumToSummary(stats, nets, limits);
    report := Report(ranges, shared, MakeEntry("All networks", "", totals, limits));
  }

  method SubnetLoop(stats: Stats, name: string, subnets: seq<Subnet>, limits: Limits)
    returns (entries: seq<Entry>, totals: Counts)
    ensures entries == SubnetEntries(stats, name, subnets, limits)
    ensures totals == SubnetTotals(stats, subnets)
  {
    entries, totals := [], ZERO;
    for i := 0 to |subnets|
      invariant entries == SubnetEntries(stats, name, subnets[..i], limits)
      invariant totals == SubnetTotals(stats, subnets[..i])
    {
      assert subnets[..i + 1][..i] == subnets[..i];
      var c := CountsOf(stats, subnets[i]);
      totals := Counts(totals.defined + c.defined, totals.used + c.used, totals.touched + c.touched);
      var more := PoolLoop(Location(name, subnets[i]), subnets[i].pools, c, limits);
      entries := entries + more;
    }
    assert subnets[..|subnets|] == subnets;
  }

  // ---------------------------------------------------------------- one entry per pool

  /** How many pools the subnets have. */
  function PoolCount(subnets: seq<Subnet>): nat {
    if subnets == [] then 0 else PoolCount(subnets[..|subnets| - 1]) + |subnets[|subnets| - 1].pools|
  }

  function AllPools(nets: seq<Network>): nat {
    if nets == [] then 0 else AllPools(nets[..|nets| - 1]) + PoolCount(nets[|nets| - 1].subnets)
  }

  lemma {:induction false} PoolEntryAt(location: string, pools: seq<string>, c: Counts, limits: Limits, k: nat)
    requires k < |pools|
    ensures |PoolEntries(location, pools, c, limits)| == |pools|
    ensures PoolEntries(location, pools, c, limits)[k] ==
            MakeEntry(location, pools[k], if k == 0 then c else ZERO, limits)
  {
    if |pools| > 1 {
      PoolEntryAt(location, pools[1..], ZERO, limits, if k > 0 then k - 1 else 0);
    }
  }

  lemma {:induction false} SubnetEntryCount(stats: Stats, name: string, subnets: seq<Subnet>, limits: Limits)
    ensures |SubnetEntries(stats, name, subnets, limits)| == PoolCount(subnets)
  {
    if subnets != [] {
      var n := |subnets| - 1;
      SubnetEntryCount(stats, name, subnets[..n], limits);
      if subnets[n].pools != [] {
        PoolEntryAt(Location(name, subnets[n]), subnets[n].pools, CountsOf(stats, subnets[n]), limits, 0);
      }
    }
  }

  /** The report has as many ranges as there are pools. */
  lemma {:induction false} RangeCount(stats: Stats, nets: seq<Network>, limits: Limits)
    ensures |Ranges(stats, nets, limits)| == AllPools(nets)
  {
    if nets != [] {
      RangeCount(stats, nets[..|nets| - 1], limits);
      SubnetEntryCount(stats, nets[|nets| - 1].name, nets[|nets| - 1].subnets, limits);
    }
  }

  /**
   The entry of a pool: under the name of its shared network or the prefix of its subnet, with the
   counts of the subnet if it is the first pool and with none otherwise.
   */
  ghost predicate Describes(e: Entry, stats: Stats, name: string, s: Subnet, k: nat)
    requires k < |s.pools|
  {
    && e.location == (if name == "" then s.prefix else name) && e.range == s.pools[k]
    && e.counts == (if k == 0 then CountsOf(stats, s) else Counts(0, 0, 0))
  }

  lemma {:induction false} SubnetPoolEntry(stats: Stats, name: string, subnets: seq<Subnet>, limits: Limits, j: nat,
                                           k: nat)
    requires j < |subnets| && k < |subnets[j].pools|
    ensures exists e :: e in SubnetEntries(stats, name, subnets, limits) && Describes(e, stats, name, subnets[j], k)
  {
    var n := |subnets| - 1;
    if j == n {
      var c := CountsOf(stats, subnets[n]);
      var last := PoolEntries(Location(name, subnets[n]), subnets[n].pools, c, limits);
      PoolEntryAt(Location(name, subnets[n]), subnets[n].pools, c, limits, k);
      assert last[k] in SubnetEntries(stats, name, subnets, limits);
      assert Describes(last[k], stats, name, subnets[j], k);
    } else {
      assert subnets[..n][j] == subnets[j];
      SubnetPoolEntry(stats, name, subnets[..n], limits, j, k);
    }
  }

  /** Every pool of every subnet of every network has its entry. */
  lemma {:induction false} EveryPool(stats: Stats, nets: seq<Network>, limits: Limits, i: nat, j: nat, k: nat)
    requires i < |nets| && j < |nets[i].subnets| && k < |nets[i].subnets[j].pools|
    ensures exists e :: e in Ranges(stats, nets, limits) && Describes(e, stats, nets[i].name, nets[i].subnets[j], k)
  {
    var n := |nets| - 1;
    if i == n {
      SubnetPoolEntry(stats, nets[n].name, nets[n].subnets, limits, j, k);
      var e :| e in SubnetEntries(stats, nets[n].name, nets[n].subnets, limits)
          && Describes(e, stats, nets[n].name, nets[n].subnets[j], k);
      assert e in Ranges(stats, nets, limits);
    } else {
      assert nets[..n][i] == nets[i];
      EveryPool(stats, nets[..n], limits, i, j, k);
    }
  }

  /** Every named network has an entry with the counts of its subnets. */
  lemma {:induction false} EveryNamedNetwork(stats: Stats, nets: seq<Network>, limits: Limits, i: nat)
    requires i < |nets| && nets[i].name != ""
    ensures exists e :: e in Shared(stats, nets, limits) && e.location == nets[i].name
                        && e.counts == SubnetTotals(stats, nets[i].subnets)
  {
    var n := |nets| - 1;
    if i == n {
      assert MakeEntry(nets[n].name, "", SubnetTotals(stats, nets[n].subnets), limits) in Shared(stats, nets, limits);
    } else {
      assert nets[..n][i] == nets[i];
      EveryNamedNetwork(stats, nets[..n], limits, i);
    }
  }

  // ---------------------------------------------------------------- conservation

  function Sum(entries: seq<Entry>): Counts {
    if entries == [] then ZERO
    else
      var (t, c) := (Sum(entries[..|entries| - 1]), entries[|entries| - 1].counts);
      Counts(t.defined + c.defined, t.used + c.used, t.touched + c.touched)
  }

  lemma {:induction false} SumAppends(a: seq<Entry>, b: seq<Entry>)
    ensures Adds(Sum(a), Sum(b), Sum(a + b))
  {
    if b == [] {
      assert a + b == a;
    } else {
      var n := |b| - 1;
      SumAppends(a, b[..n]);
      assert (a + b)[..|a + b| - 1] == a + b[..n];
    }
  }

  lemma {:induction false} PoolSum(location: string, pools: seq<string>, c: Counts, limits: Limits)
    ensures Sum(PoolEntries(location, pools, c, limits)) == if pools == [] then ZERO else c
  {
    if pools != [] {
      var first := MakeEntry(location, pools[0], c, limits);
      PoolSum(location, pools[1..], ZERO, limits);
      SumAppends([first], PoolEntries(location, pools[1..], ZERO, limits));
      assert [first][..0] == [];
      assert Sum([first]) == c;
    }
  }

  /** What the subnets without pools count: it appears in the summary but in no range. */
  function Hidden(stats: Stats, subnets: seq<Subnet>): Counts {
    if subnets == [] then ZERO
    else
      var n := |subnets| - 1;
      var (t, c) := (Hidden(stats, subnets[..n]), if subnets[n].pools == [] then CountsOf(stats, subnets[n]) else ZERO);
      Counts(t.defined + c.defined, t.used + c.used, t.touched + c.touched)
  }

  function AllHidden(stats: Stats, nets: seq<Network>): Counts {
    if nets == [] then ZERO
    else
      var (t, c) := (AllHidden(stats, nets[..|nets| - 1]), Hidden(stats, nets[|nets| - 1].subnets));
      Counts(t.defined + c.defined, t.used + c.used, t.touched + c.touched)
  }

  lemma {:induction false} SubnetSum(stats: Stats, name: string, subnets: seq<Subnet>, limits: Limits)
    ensures Adds(Sum(SubnetEntries(stats, name, subnets, limits)), Hidden(stats, subnets), SubnetTotals(stats, subnets))
  {
    if subnets != [] {
      var n := |subnets| - 1;
      var last := PoolEntries(Location(name, subnets[n]), subnets[n].pools, CountsOf(stats, subnets[n]), limits);
      SubnetSum(stats, name, subnets[..n], limits);
      PoolSum(Location(name, subnets[n]), subnets[n].pools, CountsOf(stats, subnets[n]), limits);
      SumAppends(SubnetEntries(stats, name, subnets[..n], limits), last);
    }
  }

  /** The ranges and the hidden counts together make up the summary, for every configuration. */
  lemma {:induction false} ReportSum(stats: Stats, nets: seq<Network>, limits: Limits)
    ensures Adds(Sum(Ranges(stats, nets, limits)), AllHidden(stats, nets), Totals(stats, nets))
  {
    if nets != [] {
      var n := |nets| - 1;
      ReportSum(stats, nets[..n], limits);
      SubnetSum(stats, nets[n].name, nets[n].subnets, limits);
      SumAppends(Ranges(stats, nets[..n], limits), SubnetEntries(stats, nets[n].name, nets[n].subnets, limits));
    }
  }

  ghost predicate AllPooled(nets: seq<Network>) {
    forall i, j :: 0 <= i < |nets| && 0 <= j < |nets[i].subnets| ==> nets[i].subnets[j].pools != []
  }

  lemma {:induction false} NothingHidden(stats: Stats, subnets: seq<Subnet>)
    requires forall j :: 0 <= j < |subnets| ==> subnets[j].pools != []
    ensures Hidden(stats, subnets) == ZERO
  {
    if subnets != [] {
      NothingHidden(stats, subnets[..|subnets| - 1]);
    }
  }

  lemma {:induction false} NoNetHides(stats: Stats, nets: seq<Network>)
    requires AllPooled(nets)
    ensures AllHidden(stats, nets) == ZERO
  {
    if nets != [] {
      var n := |nets| - 1;
      assert forall i :: 0 <= i < n ==> nets[..n][i] == nets[i];
      NoNetHides(stats, nets[..n]);
      NothingHidden(stats, nets[n].subnets);
    }
  }

  /** The ranges sum to the summary exactly when nothing is hidden, in particular when every subnet has a pool. */
  lemma RangesSumToSummary(stats: Stats, nets: seq<Network>, limits: Limits)
    ensures Sum(Ranges(stats, nets, limits)) == Totals(stats, nets) <==> AllHidden(stats, nets) == ZERO
    ensures AllPooled(nets) ==> Sum(Ranges(stats, nets, limits)) == Totals(stats, nets)
  {
    ReportSum(stats, nets, limits);
    if AllPooled(nets) {
      NoNetHides(stats, nets);
    }
  }

  /** A subnet without pools: its addresses are in the summary and in no range. */
  lemma PoollessHidden(id: nat, prefix: string, addresses: int, limits: Limits)
    requires addresses != 0
    ensures var stats := map[StatKey(id, Total) := [addresses]];
            var nets := [Network("", [Subnet(id, prefix, [])])];
            Sum(Ranges(stats, nets, limits)) != Totals(stats, nets) && Totals(stats, nets).defined == addresses
  {
    var stats, subnet := map[StatKey(id, Total) := [addresses]], Subnet(id, prefix, []);
    var nets := [Network("", [subnet])];
    assert nets[..0] == [] && [subnet][..0] == [];
    assert SubnetTotals(stats, [subnet]).defined == addresses;
    assert SubnetEntries(stats, "", [subnet], limits) == [];
    assert Ranges(stats, nets, limits) == [];
  }

  // ---------------------------------------------------------------- the exit code

  /** The worst status of all ranges, OK without ranges. */
  function Worst(entries: seq<Entry>): nat {
    if entries == [] then OK
    else
      var n := |entries| - 1;
      var w := Worst(entries[..n]);
      if entries[n].status > w then entries[n].status else w
  }

  lemma {:induction false} WorstAtLeast(entries: seq<Entry>, level: nat)
    ensures level > 0 ==> (Worst(entries) >= level <==> exists e :: e in entries && e.status >= level)
  {
    if entries != [] {
      var n := |entries| - 1;
      WorstAtLeast(entries[..n], level);
      assert entries == entries[..n] + [entries[n]];
    }
  }

  /** Some subnet with a pool has a status of at least this level. */
  ghost predicate SomeSubnet(stats: Stats, subnets: seq<Subnet>, limits: Limits, level: nat) {
    exists s :: s in subnets && Alarms(stats, s, limits, level)
  }

  /** The first pool of the subnet has such a status for its counts, or a later one for none. */
  ghost predicate Alarms(stats: Stats, s: Subnet, limits: Limits, level: nat) {
    || (|s.pools| > 0 && Status(PercentOf(stats, s), limits) >= level)
    || (|s.pools| > 1 && Status(0.0, limits) >= level)
  }

  function PercentOf(stats: Stats, s: Subnet): real {
    Percent(CountsOf(stats, s).used, CountsOf(stats, s).defined)
  }

  ghost predicate SomeEntry(entries: seq<Entry>, level: nat) {
    exists e :: e in entries && e.status >= level
  }

  lemma SomeEntryAppends(a: seq<Entry>, b: seq<Entry>, level: nat)
    ensures SomeEntry(a + b, level) <==> SomeEntry(a, level) || SomeEntry(b, level)
  {
    if SomeEntry(a, level) {
      var e :| e in a && e.status >= level;
      assert e in a + b;
    }
    if SomeEntry(b, level) {
      var e :| e in b && e.status >= level;
      assert e in a + b;
    }
  }

  lemma {:induction false} PoolStatus(location: string, pools: seq<string>, c: Counts, limits: Limits, level: nat)
    ensures SomeEntry(PoolEntries(location, pools, c, limits), level) <==>
            || (|pools| > 0 && Status(Percent(c.used, c.defined), limits) >= level)
            || (|pools| > 1 && Status(0.0, limits) >= level)
  {
    if pools != [] {
      var first, rest := MakeEntry(location, pools[0], c, limits), PoolEntries(location, pools[1..], ZERO, limits);
      PoolStatus(location, pools[1..], ZERO, limits, level);
      SomeEntryAppends([first], rest, level);
      assert first in [first];
    }
  }

  lemma {:induction false} SubnetStatus(stats: Stats, name: string, subnets: seq<Subnet>, limits: Limits, level: nat)
    ensures SomeEntry(SubnetEntries(stats, name, subnets, limits), level) <==> SomeSubnet(stats, subnets, limits, level)
  {
    if subnets != [] {
      var n := |subnets| - 1;
      var c := CountsOf(stats, subnets[n]);
      SubnetStatus(stats, name, subnets[..n], limits, level);
      PoolStatus(Location(name, subnets[n]), subnets[n].pools, c, limits, level);
      SomeEntryAppends(SubnetEntries(stats, name, subnets[..n], limits),
        PoolEntries(Location(name, subnets[n]), subnets[n].pools, c, limits), level);
      SomeSubnetSnoc(stats, subnets, limits, level);
    }
  }

  lemma SomeSubnetSnoc(stats: Stats, subnets: seq<Subnet>, limits: Limits, level: nat)
    requires subnets != []
    ensures var n := |subnets| - 1;
            SomeSubnet(stats, subnets, limits, level) <==>
            SomeSubnet(stats, subnets[..n], limits, level)
              || Alarms(stats, subnets[n], limits, level)
  {
    var n := |subnets| - 1;
    assert subnets == subnets[..n] + [subnets[n]];
    assert forall s :: s in subnets <==> s in subnets[..n] || s == subnets[n];
  }

  /** Some subnet of some network has a status of at least this level. */
  ghost predicate SomeNet(stats: Stats, nets: seq<Network>, limits: Limits, level: nat) {
    exists i :: 0 <= i < |nets| && SomeSubnet(stats, nets[i].subnets, limits, level)
  }

  lemma {:induction false} RangeStatus(stats: Stats, nets: seq<Network>, limits: Limits, level: nat)
    ensures SomeEntry(Ranges(stats, nets, limits), level) <==> SomeNet(stats, nets, limits, level)
  {
    if nets != [] {
      var n := |nets| - 1;
      RangeStatus(stats, nets[..n], limits, level);
      SubnetStatus(stats, nets[n].name, nets[n].subnets, limits, level);
      SomeEntryAppends(Ranges(stats, nets[..n], limits), SubnetEntries(stats, nets[n].name, nets[n].subnets, limits),
        level);
      SomeNetSnoc(stats, nets, limits, level);
    }
  }

  lemma SomeNetSnoc(stats: Stats, nets: seq<Network>, limits: Limits, level: nat)
    requires nets != []
    ensures SomeNet(stats, nets, limits, level) <==>
            SomeNet(stats, nets[..|nets| - 1], limits, level)
              || SomeSubnet(stats, nets[|nets| - 1].subnets, limits, level)
  {
    var n := |nets| - 1;
    if SomeNet(stats, nets[..n], limits, level) {
      var i :| 0 <= i < n && SomeSubnet(stats, nets[..n][i].subnets, limits, level);
      assert nets[..n][i] == nets[i];
    }
    if SomeNet(stats, nets, limits, level) {
      var i :| 0 <= i < |nets| && SomeSubnet(stats, nets[i].subnets, limits, level);
      if i < n {
        assert nets[..n][i] == nets[i];
      }
    }
  }

  /** The used addresses of the subnet, in percent of the defined ones, to three places. */
  ghost predicate Uses(stats: Stats, s: Subnet, p: real) {
    exists total, leased, declined ::
      && Newest(stats, s.id, Total, total) && Newest(stats, s.id, Assigned, leased)
        && Newest(stats, s.id, Declined, declined)
      && IsPercent(if leased > declined then leased - declined else 0, total, p)
  }

  lemma UsesPercent(stats: Stats, s: Subnet, p: real)
    ensures Uses(stats, s, p) <==> p == PercentOf(stats, s)
  {
    var c := CountsOf(stats, s);
    var total, leased, declined := Stat(stats, StatKey(s.id, Total)), Stat(stats, StatKey(s.id, Assigned)),
        Stat(stats, StatKey(s.id, Declined));
    assert Newest(stats, s.id, Total, total) && Newest(stats, s.id, Assigned, leased);
    assert Newest(stats, s.id, Declined, declined);
    CountsAdd(stats, s, total, leased, declined);
    assert Uses(stats, s, PercentOf(stats, s));
    if Uses(stats, s, p) {
      var t, a, d :| && Newest(stats, s.id, Total, t) && Newest(stats, s.id, Assigned, a)
          && Newest(stats, s.id, Declined, d)
                     && IsPercent(if a > d then a - d else 0, t, p);
      assert t == c.defined && a == leased && d == c.touched;
      if t != 0 {
        RoundedUnique(100.0 * c.used as real / c.defined as real, p, PercentOf(stats, s));
      }
    }
  }

  /** Some subnet with a pool reaches this percentage; later pools of a subnet count as empty. */
  ghost predicate Reaches(stats: Stats, nets: seq<Network>, limit: Option<real>) {
    limit.Some? && exists i, s, p :: && 0 <= i < |nets| && s in nets[i].subnets && Uses(stats, s, p)
                                     && ((|s.pools| > 0 && p >= limit.value) || (|s.pools| > 1 && 0.0 >= limit.value))
  }

  /** The same through the computed percentage. */
  ghost predicate Meets(stats: Stats, nets: seq<Network>, limit: Option<real>) {
    limit.Some? && exists i, s :: 0 <= i < |nets| && s in nets[i].subnets && MeetsAt(stats, s, limit.value)
  }

  ghost predicate MeetsAt(stats: Stats, s: Subnet, limit: real) {
    (|s.pools| > 0 && PercentOf(stats, s) >= limit) || (|s.pools| > 1 && 0.0 >= limit)
  }

  lemma ReachesIff(stats: Stats, nets: seq<Network>, limit: Option<real>)
    ensures Reaches(stats, nets, limit) <==> Meets(stats, nets, limit)
  {
    if limit.Some? {
      if i, s, p :| && 0 <= i < |nets| && s in nets[i].subnets && Uses(stats, s, p)
                    && ((|s.pools| > 0 && p >= limit.value) || (|s.pools| > 1 && 0.0 >= limit.value)) {
        UsesPercent(stats, s, p);
        assert MeetsAt(stats, s, limit.value);
      }
      if i, s :| 0 <= i < |nets| && s in nets[i].subnets && MeetsAt(stats, s, limit.value) {
        UsesPercent(stats, s, PercentOf(stats, s));
        assert Uses(stats, s, PercentOf(stats, s));
      }
    }
  }

  lemma AlarmsIff(stats: Stats, s: Subnet, limits: Limits)
    ensures Alarms(stats, s, limits, CRITICAL) <==> limits.critical.Some? && MeetsAt(stats, s, limits.critical.value)
    ensures Alarms(stats, s, limits, WARNING) <==>
            || (limits.critical.Some? && MeetsAt(stats, s, limits.critical.value))
            || (limits.warning.Some? && MeetsAt(stats, s, limits.warning.value))
    ensures !Alarms(stats, s, limits, CRITICAL + 1)
  {
  }

  lemma LevelReached(stats: Stats, nets: seq<Network>, limits: Limits)
    ensures SomeNet(stats, nets, limits, CRITICAL) <==> Meets(stats, nets, limits.critical)
    ensures SomeNet(stats, nets, limits, WARNING)
            <==> Meets(stats, nets, limits.critical) || Meets(stats, nets, limits.warning)
    ensures !SomeNet(stats, nets, limits, CRITICAL + 1)
  {
    forall i, s | 0 <= i < |nets| && s in nets[i].subnets
      ensures Alarms(stats, s, limits, CRITICAL) <==> limits.critical.Some? && MeetsAt(stats, s, limits.critical.value)
      ensures Alarms(stats, s, limits, WARNING) <==>
              || (limits.critical.Some? && MeetsAt(stats, s, limits.critical.value))
              || (limits.warning.Some? && MeetsAt(stats, s, limits.warning.value))
      ensures !Alarms(stats, s, limits, CRITICAL + 1)
    {
      AlarmsIff(stats, s, limits);
    }
    AlarmInNet(stats, nets, limits, CRITICAL);
    AlarmInNet(stats, nets, limits, WARNING);
    AlarmInNet(stats, nets, limits, CRITICAL + 1);
  }

  lemma AlarmInNet(stats: Stats, nets: seq<Network>, limits: Limits, level: nat)
    ensures SomeNet(stats, nets, limits, level) <==>
            exists i, s :: 0 <= i < |nets| && s in nets[i].subnets && Alarms(stats, s, limits, level)
  {
    if SomeNet(stats, nets, limits, level) {
      var i :| 0 <= i < |nets| && SomeSubnet(stats, nets[i].subnets, limits, level);
    }
    if i, s :| 0 <= i < |nets| && s in nets[i].subnets && Alarms(stats, s, limits, level) {
      assert SomeSubnet(stats, nets[i].subnets, limits, level);
    }
  }

  /**
   The check exits with 2, CRITICAL, exactly when some subnet with a pool reaches the critical limit,
   and with 1, WARNING, exactly when none does but some reaches the warning limit.
   */
  lemma ExitCode(stats: Stats, nets: seq<Network>, limits: Limits)
    ensures var code := Worst(Ranges(stats, nets, limits));
            && (code == 2 <==> Reaches(stats, nets, limits.critical))
            && (code == 1 <==> !Reaches(stats, nets, limits.critical) && Reaches(stats, nets, limits.warning))
            && code <= 2
  {
    var entries := Ranges(stats, nets, limits);
    WorstAtLeast(entries, CRITICAL + 1);
    RangeStatus(stats, nets, limits, CRITICAL + 1);
    WorstAtLeast(entries, CRITICAL);
    WorstAtLeast(entries, WARNING);
    RangeStatus(stats, nets, limits, CRITICAL);
    RangeStatus(stats, nets, limits, WARNING);
    LevelReached(stats, nets, limits);
    ReachesIff(stats, nets, limits.critical);
    ReachesIff(stats, nets, limits.warning);
  }

  /** 95 of 100 addresses used, with a critical limit of 90: the check raises the alarm. */
  lemma AlmostFull(id: nat, prefix: string, pool: string)
    ensures var stats := map[StatKey(id, Total) := [100], StatKey(id, Assigned) := [95]];
            var nets := [Network("", [Subnet(id, prefix, [pool])])];
            Worst(Ranges(stats, nets, Limits(None, Some(90.0)))) == 2
  {
    var stats := map[StatKey(id, Total) := [100], StatKey(id, Assigned) := [95]];
    var s := Subnet(id, prefix, [pool]);
    var nets := [Network("", [s])];
    ExitCode(stats, nets, Limits(None, Some(90.0)));
    assert Newest(stats, id, Total, 100) && Newest(stats, id, Assigned, 95) && Newest(stats, id, Declined, 0);
    assert Thousandths(95.0, 95000) && Rounded(95.0, 95.0);
    assert IsPercent(95, 100, 95.0);
    assert Uses(stats, s, 95.0) && s in nets[0].subnets;
  }
}
