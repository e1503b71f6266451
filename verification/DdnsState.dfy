/** The `present` and `absent` states, and passes of `present` over a list of records. */
module DdnsState {
  import opened Prelude
  import opened DdnsServer
  import opened Ddns
  import opened DdnsTheorems

  datatype Request = Request(zone: Name, name: HostName, ttl: nat, rdata: Rdata, replace: bool, onChange: bool)
  {
    function Fqdn(): Name {
      Qualify(name, zone)
    }

    function Key(): RKey {
      RKey(Fqdn(), rdata.rtype)
    }
  }

  /** The server and the return value after the update for a request. */
  function Applied(s: Server, q: Request): (Server, Status) {
    Updated(s, q.zone, q.Fqdn(), q.ttl, q.rdata, q.replace, q.onChange)
  }

  /** What `present` reports: the `result` field and whether `changes` is filled. */
  datatype StateReport = StateReport(result: Option<bool>, changes: bool)

  function Reported(status: Status): StateReport {
    match status
    case Unchanged => StateReport(Some(true), false)
    case Done => StateReport(Some(true), true)
    case Refused => StateReport(Some(false), false)
  }

  /** The `present` state; the flags are passed on to `update`, and test mode touches nothing. */
  method Present(ns: NameServer, q: Request, test: bool) returns (ret: StateReport)
    modifies ns
    ensures test ==> ns.zones == old(ns.zones) && ret == StateReport(None, false)
    ensures !test ==> ns.zones == Applied(old(ns.zones), q).0
    ensures !test ==>
              var sends := q.replace || !IsHeld(old(ns.zones), q);
              var accepts := Accepts(old(ns.zones), q.zone, q.Fqdn());
              ret.result == Some(!sends || accepts) && ret.changes == (sends && accepts)
  {
    ret := StateReport(Some(false), false);
    if test {
      return StateReport(None, false);
    }
    var status := Update(ns, q.zone, q.name, q.ttl, q.rdata, q.replace, q.onChange);
    if status.Unchanged? {
      ret := ret.(result := Some(true));
    } else if status.Done? {
      ret := StateReport(Some(true), true);
    }
  }

  /** The `absent` state. */
  method Absent(ns: NameServer, zone: Name, name: HostName, rtype: Option<RType>, data: Option<seq<string>>, test: bool)
    returns (ret: StateReport)
    modifies ns
    ensures test ==> ns.zones == old(ns.zones) && ret == StateReport(None, false)
    ensures !test ==> ns.zones == Deleted(old(ns.zones), zone, Qualify(name, zone), rtype, data).0
    ensures !test ==>
              var n, s := Qualify(name, zone), old(ns.zones);
              var sends := if rtype.Some? then Lookup(s, n, rtype.value).Some? else HasAny(s, n);
              ret.result == Some(!sends || Accepts(s, zone, n)) && ret.changes == (sends && Accepts(s, zone, n))
  {
    ret := StateReport(Some(false), false);
    if test {
      return StateReport(None, false);
    }
    var status := Delete(ns, zone, name, rtype, data);
    if status.Unchanged? {
      ret := ret.(result := Some(true));
    } else if status.Done? {
      ret := StateReport(Some(true), true);
    }
  }

  // ---------------------------------------------------------------- passes over a list of records

  /** One pass of `present` over a list. */
  function Pass(s: Server, qs: seq<Request>): (Server, seq<StateReport>)
    decreases |qs|
  {
    if qs == [] then (s, [])
    else
      var (t, status) := Applied(s, qs[0]);
      var (u, reports) := Pass(t, qs[1..]);
      (u, [Reported(status)] + reports)
  }

  /** No two requests for one name and type. */
  predicate OncePerRRset(qs: seq<Request>) {
    forall i, j :: 0 <= i < j < |qs| ==> qs[i].Key() != qs[j].Key()
  }

  /** One asks for a CNAME beside the other. */
  predicate Rivals(q: Request, p: Request) {
    q.Fqdn() == p.Fqdn() && (q.rdata.rtype == CNAME) != (p.rdata.rtype == CNAME)
  }

  predicate IsHeld(s: Server, q: Request) {
    Held(s, q.Fqdn(), q.ttl, q.rdata)
  }

  predicate IsExact(s: Server, q: Request) {
    Exact(s, q.Fqdn(), q.ttl, q.rdata)
  }

  predicate IsTaken(s: Server, q: Request) {
    Takes(s, q.zone, q.Fqdn(), q.rdata)
  }

  predicate IsReplaceable(s: Server, q: Request) {
    Replaceable(s, q.zone, q.Fqdn(), q.rdata, q.replace, q.onChange)
  }

  /** Of the requests before the i-th no rival wins. */
  ghost predicate NoRivalWon(qs: seq<Request>, i: nat, won: seq<bool>)
    requires i < |qs| && |won| == i
  {
    forall j :: 0 <= j < i && Rivals(qs[j], qs[i]) ==> !won[j]
  }

  /**
   Which of the first `n` requests win, given which of them go to the closest zone unblocked and
   which ask for an RRset that is not there: of rivals for a free name the first one wins.
   */
  ghost function Winners(qs: seq<Request>, taken: seq<bool>, free: seq<bool>, n: nat): (won: seq<bool>)
    requires n <= |qs| == |taken| == |free|
    ensures |won| == n
  {
    if n == 0 then []
    else
      var won := Winners(qs, taken, free, n - 1);
      won + [taken[n - 1] && (free[n - 1] ==> NoRivalWon(qs, n - 1, won))]
  }

  ghost function TakenOf(s: Server, qs: seq<Request>): (taken: seq<bool>)
    ensures |taken| == |qs| && forall i :: 0 <= i < |qs| ==> taken[i] == IsTaken(s, qs[i])
  {
    seq(|qs|, i requires 0 <= i < |qs| => IsTaken(s, qs[i]))
  }

  ghost predicate IsFree(s: Server, q: Request) {
    Lookup(s, q.Fqdn(), q.rdata.rtype).None?
  }

  ghost function FreeOf(s: Server, qs: seq<Request>): (free: seq<bool>)
    ensures |free| == |qs| && forall i :: 0 <= i < |qs| ==> free[i] == IsFree(s, qs[i])
  {
    seq(|qs|, i requires 0 <= i < |qs| => IsFree(s, qs[i]))
  }

  ghost predicate Wins(s: Server, qs: seq<Request>, i: nat)
    requires i < |qs|
  {
    Winners(qs, TakenOf(s, qs), FreeOf(s, qs), i + 1)[i]
  }

  lemma {:induction false} WinnersPrefix(qs: seq<Request>, taken: seq<bool>, free: seq<bool>, n: nat, i: nat)
    requires i < n <= |qs| == |taken| == |free|
    ensures Winners(qs, taken, free, n)[i] == Winners(qs, taken, free, i + 1)[i]
  {
    if i < n - 1 {
      WinnersPrefix(qs, taken, free, n - 1, i);
    }
  }

  /** A request wins if it goes to the closest zone unblocked and, for a free RRset, no rival before it wins. */
  lemma WinsMeans(s: Server, qs: seq<Request>, i: nat)
    requires i < |qs|
    ensures Wins(s, qs, i) <==>
            && IsTaken(s, qs[i])
            && (IsFree(s, qs[i]) ==> forall j :: 0 <= j < i && Rivals(qs[j], qs[i]) ==> !Wins(s, qs, j))
  {
    var taken, free := TakenOf(s, qs), FreeOf(s, qs);
    forall j | 0 <= j < i
      ensures Winners(qs, taken, free, i)[j] == Wins(s, qs, j)
    {
      WinnersPrefix(qs, taken, free, i, j);
    }
    assert taken[i] == IsTaken(s, qs[i]) && free[i] == IsFree(s, qs[i]);
  }

  /** An update for one RRset leaves the others alone. */
  lemma OtherRRset(s: Server, q: Request, p: Request)
    requires q.Key() != p.Key()
    ensures var t := Applied(s, q).0;
            && t.Keys == s.Keys && Authority(t, p.Fqdn()) == Authority(s, p.Fqdn())
            && Lookup(t, p.Fqdn(), p.rdata.rtype) == Lookup(s, p.Fqdn(), p.rdata.rtype)
  {
    UpdatedFrame(s, q.zone, q.Fqdn(), q.ttl, q.rdata, q.replace, q.onChange);
    LookupFrame(s, Applied(s, q).0, q.zone, q.Key(), p.Fqdn(), p.rdata.rtype);
  }

  /** A rival that was taken blocks, one that was not taken does not. */
  lemma RivalBlocks(s: Server, q: Request, p: Request)
    requires Consistent(s) && q.Key() != p.Key() && Authority(s, p.Fqdn()) == Some(p.zone)
    requires Lookup(s, p.Fqdn(), p.rdata.rtype).None?
    ensures var t := Applied(s, q).0;
            p.zone in t && (Blocked(t[p.zone], p.Fqdn(), p.rdata.rtype) <==>
              Blocked(s[p.zone], p.Fqdn(), p.rdata.rtype) || (Rivals(q, p) && IsTaken(s, q)))
  {
    var t := Applied(s, q).0;
    UpdatedFrame(s, q.zone, q.Fqdn(), q.ttl, q.rdata, q.replace, q.onChange);
    if !Rivals(q, p) {
      SameBlocked(s, t, q.zone, q.Key(), p.zone, p.Fqdn(), p.rdata.rtype);
    } else if Authority(s, q.Fqdn()) == Some(q.zone) {
      UpdatedRRset(s, q.zone, q.Fqdn(), q.ttl, q.rdata, q.replace, q.onChange);
      SameAuthority(s, t, q.Fqdn());
      RivalInZone(s[p.zone], t[p.zone], q.Key(), p.Key());
    }
  }

  lemma RivalInZone(y: Zone, z: Zone, q: RKey, p: RKey)
    requires SameBut(y, z, q) && q.name == p.name && (q.rtype == CNAME) != (p.rtype == CNAME) && p !in y
    requires q in y ==> q in z
    ensures Blocked(z, p.name, p.rtype) <==> Blocked(y, p.name, p.rtype) || q in z
  {
    assert q == RKey(p.name, q.rtype);
  }

  /** What applying the first request does to the i-th. */
  lemma TakenNext(s: Server, qs: seq<Request>, i: nat)
    requires Consistent(s) && OncePerRRset(qs) && 0 < i < |qs|
    ensures IsFree(Applied(s, qs[0]).0, qs[i]) == IsFree(s, qs[i])
    ensures TakenAsBefore(s, Applied(s, qs[0]).0, qs[0], qs[i])
  {
    OtherRRset(s, qs[0], qs[i]);
    if Authority(s, qs[i].Fqdn()) == Some(qs[i].zone) && IsFree(s, qs[i]) {
      RivalBlocks(s, qs[0], qs[i]);
    }
  }

  /** Dropping the first request of a list. */
  lemma {:induction false} WinnersShift(qs: seq<Request>, taken: seq<bool>, free: seq<bool>, rest: seq<bool>, n: nat)
    requires 0 < n <= |qs| == |taken| == |free| && |rest| == |qs| - 1
    requires Follows(qs, taken, free, rest)
    ensures Winners(qs[1..], rest, free[1..], n - 1) == Winners(qs, taken, free, n)[1..]
    ensures Winners(qs, taken, free, n)[0] == taken[0]
  {
    if n > 1 {
      WinnersShift(qs, taken, free, rest, n - 1);
      var won, later := Winners(qs, taken, free, n - 1), Winners(qs[1..], rest, free[1..], n - 2);
      ShiftedRivals(qs, n - 1, won, later);
      var i := n - 1;
      assert free[1..][i - 1] == free[i]
          && (rest[i - 1] <==> taken[i] && !(free[i] && Rivals(qs[0], qs[i]) && taken[0]));
    }
  }

  lemma FreeNext(s: Server, t: Server, qs: seq<Request>)
    requires qs != [] && forall i :: 0 < i < |qs| ==> IsFree(t, qs[i]) == IsFree(s, qs[i])
    ensures FreeOf(t, qs[1..]) == FreeOf(s, qs)[1..]
  {
    var a, b := FreeOf(t, qs[1..]), FreeOf(s, qs)[1..];
    forall k | 0 <= k < |a|
      ensures a[k] == b[k]
    {
      assert qs[1..][k] == qs[k + 1];
    }
  }

  /** How applying the first request changes which requests are taken. */
  ghost predicate Follows(qs: seq<Request>, taken: seq<bool>, free: seq<bool>, rest: seq<bool>)
    requires 0 < |qs| == |taken| == |free| && |rest| == |qs| - 1
  {
    forall i :: 0 < i < |qs| ==> (rest[i - 1] <==> taken[i] && !(free[i] && Rivals(qs[0], qs[i]) && taken[0]))
  }

  /** After the first request this one is taken as before, unless a rival just won. */
  ghost predicate TakenAsBefore(s: Server, t: Server, first: Request, q: Request) {
    IsTaken(t, q) <==> IsTaken(s, q) && !(IsFree(s, q) && Rivals(first, q) && IsTaken(s, first))
  }

  lemma TakenFollows(s: Server, t: Server, qs: seq<Request>)
    requires qs != [] && forall i :: 0 < i < |qs| ==> TakenAsBefore(s, t, qs[0], qs[i])
    ensures Follows(qs, TakenOf(s, qs), FreeOf(s, qs), TakenOf(t, qs[1..]))
  {
    forall i | 0 < i < |qs|
      ensures TakenOf(t, qs[1..])[i - 1] <==>
              TakenOf(s, qs)[i] && !(FreeOf(s, qs)[i] && Rivals(qs[0], qs[i]) && TakenOf(s, qs)[0])
    {
      assert qs[1..][i - 1] == qs[i];
      assert TakenAsBefore(s, t, qs[0], qs[i]);
    }
  }

  /** Dropping the first request of a list after it was applied. */
  lemma WinsShift(s: Server, qs: seq<Request>, i: nat)
    requires Consistent(s) && OncePerRRset(qs) && 0 < i < |qs|
    ensures Wins(Applied(s, qs[0]).0, qs[1..], i - 1) <==> Wins(s, qs, i)
  {
    var t := Applied(s, qs[0]).0;
    forall j | 0 < j < |qs|
      ensures IsFree(t, qs[j]) == IsFree(s, qs[j]) && TakenAsBefore(s, t, qs[0], qs[j])
    {
      TakenNext(s, qs, j);
    }
    WinsShiftBy(s, t, qs, i);
  }

  lemma WinsShiftBy(s: Server, t: Server, qs: seq<Request>, i: nat)
    requires 0 < i < |qs|
    requires forall j :: 0 < j < |qs| ==> IsFree(t, qs[j]) == IsFree(s, qs[j])
    requires forall j :: 0 < j < |qs| ==> TakenAsBefore(s, t, qs[0], qs[j])
    ensures Wins(t, qs[1..], i - 1) <==> Wins(s, qs, i)
  {
    FreeNext(s, t, qs);
    TakenFollows(s, t, qs);
    ShiftAt(qs, TakenOf(s, qs), FreeOf(s, qs), TakenOf(t, qs[1..]), i);
  }

  lemma ShiftAt(qs: seq<Request>, taken: seq<bool>, free: seq<bool>, rest: seq<bool>, i: nat)
    requires 0 < i < |qs| == |taken| == |free| && |rest| == |qs| - 1 && Follows(qs, taken, free, rest)
    ensures Winners(qs[1..], rest, free[1..], i)[i - 1] == Winners(qs, taken, free, i + 1)[i]
  {
    WinnersShift(qs, taken, free, rest, i + 1);
  }

  /** The same counted from either end of the first step. */
  lemma ShiftedRivals(qs: seq<Request>, i: nat, won: seq<bool>, later: seq<bool>)
    requires 0 < i < |qs| && |won| == i && |later| == i - 1 && forall j :: 0 <= j < i - 1 ==> later[j] == won[j + 1]
    ensures NoRivalWon(qs, i, won) <==> (Rivals(qs[0], qs[i]) ==> !won[0]) && NoRivalWon(qs[1..], i - 1, later)
  {
    var rest := qs[1..];
    assert rest[i - 1] == qs[i];
    if NoRivalWon(rest, i - 1, later) {
      forall m | 0 < m < i && Rivals(qs[m], qs[i])
        ensures !won[m]
      {
        var j := m - 1;
        assert rest[j] == qs[m] && later[j] == won[j + 1];
      }
    }
    if NoRivalWon(qs, i, won) {
      forall j | 0 <= j < i - 1 && Rivals(rest[j], rest[i - 1])
        ensures !later[j]
      {
        assert rest[j] == qs[j + 1];
      }
    }
  }

  /**
   What a pass does to each record, for every list that names no RRset twice: it ends exact, or
   held, if it was or if its request wins.
   */
  lemma {:induction false} PassAchieves(s: Server, qs: seq<Request>, i: nat)
    requires Consistent(s) && OncePerRRset(qs) && i < |qs|
    ensures Achieves(s, qs, i, Pass(s, qs).0)
    decreases |qs|
  {
    var t := Applied(s, qs[0]).0;
    if i == 0 {
      WinsMeans(s, qs, 0);
      FirstAchieves(s, qs[0]);
      PassKeeps(t, qs[1..], qs[0]);
    } else {
      UpdatedConsistent(s, qs[0].zone, qs[0].Fqdn(), qs[0].ttl, qs[0].rdata, qs[0].replace, qs[0].onChange);
      PassAchieves(t, qs[1..], i - 1);
      OtherRRset(s, qs[0], qs[i]);
      WinsShift(s, qs, i);
      LaterAchieves(s, t, qs, i, Pass(t, qs[1..]).0);
    }
  }

  /** The i-th record ends exact, or held, in `t` if it was in `s` or if its request wins. */
  ghost predicate Achieves(s: Server, qs: seq<Request>, i: nat, t: Server)
    requires i < |qs|
  {
    && (IsExact(t, qs[i]) <==> IsExact(s, qs[i]) || (Wins(s, qs, i) && IsReplaceable(s, qs[i])))
    && (IsHeld(t, qs[i]) <==> IsHeld(s, qs[i]) || Wins(s, qs, i))
  }

  lemma LaterAchieves(s: Server, t: Server, qs: seq<Request>, i: nat, u: Server)
    requires 0 < i < |qs| && Achieves(t, qs[1..], i - 1, u) && (Wins(t, qs[1..], i - 1) <==> Wins(s, qs, i))
    requires Lookup(t, qs[i].Fqdn(), qs[i].rdata.rtype) == Lookup(s, qs[i].Fqdn(), qs[i].rdata.rtype)
    ensures Achieves(s, qs, i, u)
  {
    assert qs[1..][i - 1] == qs[i];
  }

  lemma FirstAchieves(s: Server, q: Request)
    requires Consistent(s)
    ensures var t := Applied(s, q).0;
            && (IsExact(t, q) <==> IsExact(s, q) || (IsTaken(s, q) && IsReplaceable(s, q)))
            && (IsHeld(t, q) <==> IsHeld(s, q) || IsTaken(s, q))
  {
    ExactIff(s, q.zone, q.Fqdn(), q.ttl, q.rdata, q.replace, q.onChange);
    HeldIff(s, q.zone, q.Fqdn(), q.ttl, q.rdata, q.replace, q.onChange);
  }

  lemma {:induction false} PassKeeps(s: Server, qs: seq<Request>, p: Request)
    requires forall j :: 0 <= j < |qs| ==> qs[j].Key() != p.Key()
    ensures Lookup(Pass(s, qs).0, p.Fqdn(), p.rdata.rtype) == Lookup(s, p.Fqdn(), p.rdata.rtype)
    decreases |qs|
  {
    if qs != [] {
      OtherRRset(s, qs[0], p);
      PassKeeps(Applied(s, qs[0]).0, qs[1..], p);
    }
  }

  /** Updates and passes never change which zones there are. */
  lemma {:induction false} PassKeys(s: Server, qs: seq<Request>)
    ensures Pass(s, qs).0.Keys == s.Keys && |Pass(s, qs).1| == |qs|
    decreases |qs|
  {
    if qs != [] {
      var q := qs[0];
      UpdatedFrame(s, q.zone, q.Fqdn(), q.ttl, q.rdata, q.replace, q.onChange);
      PassKeys(Applied(s, q).0, qs[1..]);
    }
  }

  /** The request asks for replacement or is not held, and its message is accepted. */
  predicate Sends(s: Server, q: Request) {
    (q.replace || !IsHeld(s, q)) && Accepts(s, q.zone, q.Fqdn())
  }

  /** In a pass exactly those requests report changes that were to be sent at its start, and only refused ones fail. */
  lemma {:induction false} PassReport(s: Server, qs: seq<Request>, i: nat)
    requires OncePerRRset(qs) && i < |qs|
    ensures |Pass(s, qs).1| == |qs| && (Pass(s, qs).1[i].changes <==> Sends(s, qs[i]))
    ensures Pass(s, qs).1[i].result ==
            Some(Accepts(s, qs[i].zone, qs[i].Fqdn()) || (!qs[i].replace && IsHeld(s, qs[i])))
    decreases |qs|
  {
    PassKeys(s, qs);
    if i == 0 {
      FirstReport(s, qs[0]);
      assert Pass(s, qs).1[0] == Reported(Applied(s, qs[0]).1);
    } else {
      OtherRRset(s, qs[0], qs[i]);
      assert qs[1..][i - 1] == qs[i];
      PassReport(Applied(s, qs[0]).0, qs[1..], i - 1);
    }
  }

  lemma FirstReport(s: Server, q: Request)
    ensures var report := Reported(Applied(s, q).1);
            && (report.changes <==> Sends(s, q))
            && report.result == Some(Accepts(s, q.zone, q.Fqdn()) || (!q.replace && IsHeld(s, q)))
  {
  }

  /** A pass in which nothing is to be sent changes nothing. */
  lemma {:induction false} QuietPass(s: Server, qs: seq<Request>)
    requires forall i :: 0 <= i < |qs| ==> !Sends(s, qs[i])
    ensures Pass(s, qs).0 == s
    decreases |qs|
  {
    if qs != [] {
      assert !Sends(s, qs[0]);
      QuietPass(s, qs[1..]);
    }
  }

  /** No report of the pass has changes. */
  predicate Quiet(reports: seq<StateReport>) {
    forall i :: 0 <= i < |reports| ==> !reports[i].changes
  }

  /** After a first pass there is nothing to send for the request. */
  ghost predicate Satisfied(s: Server, qs: seq<Request>, i: nat)
    requires i < |qs|
  {
    !Accepts(s, qs[i].zone, qs[i].Fqdn()) || (!qs[i].replace && (IsHeld(s, qs[i]) || Wins(s, qs, i)))
  }

  /**
   The second pass is quiet if and only if every request is refused, or does not ask for
   replacement and is held or wins; and a quiet second pass leaves the server alone.
   */
  lemma PassTwice(s: Server, qs: seq<Request>)
    requires Consistent(s) && OncePerRRset(qs)
    ensures var t := Pass(s, qs).0;
            && (Quiet(Pass(t, qs).1) <==> forall i :: 0 <= i < |qs| ==> Satisfied(s, qs, i))
            && (Quiet(Pass(t, qs).1) ==> Pass(t, qs).0 == t)
  {
    var t := Pass(s, qs).0;
    PassKeys(s, qs);
    PassKeys(t, qs);
    forall i | 0 <= i < |qs|
      ensures Sends(t, qs[i]) <==> !Satisfied(s, qs, i)
      ensures Pass(t, qs).1[i].changes <==> Sends(t, qs[i])
    {
      PassAchieves(s, qs, i);
      PassReport(t, qs, i);
    }
    if Quiet(Pass(t, qs).1) {
      assert forall i :: 0 <= i < |qs| ==> !Pass(t, qs).1[i].changes;
      QuietPass(t, qs);
    }
  }

  /** An address requested beside a CNAME is reported as a change in every pass and never there. */
  lemma BlockedForever(zone: Name, n: Name, ttl: nat, alias: Rdata, address: Rdata)
    requires Under(n, zone) && alias.rtype == CNAME && address.rtype == A
    ensures var s := map[zone := map[RKey(n, CNAME) := RRset(ttl, {alias})]];
            var qs := [Request(zone, Absolute(n), ttl, address, false, true)];
            var t := Pass(s, qs).0;
            Consistent(s) && !IsHeld(t, qs[0]) && !Quiet(Pass(t, qs).1)
  {
    var z: Zone := map[RKey(n, CNAME) := RRset(ttl, {alias})];
    var s := map[zone := z];
    var q := Request(zone, Absolute(n), ttl, address, false, true);
    OnlyZone(s, zone, n);
    assert ConsistentZone(z);
    assert Lookup(s, n, A) == None && Blocked(z, n, A);
    assert !Satisfied(s, [q], 0);
    PassAchieves(s, [q], 0);
    PassTwice(s, [q]);
  }
}
