/** The dynamic DNS execution module, against the modelled server. */
module Ddns {
  import opened Prelude
  import opened DdnsServer

  /** Return values of `update` and `delete`: None, True and False. */
  datatype Status = Unchanged | Done | Refused

  /** A host name argument: with a trailing dot it is absolute, otherwise relative to the zone. */
  datatype HostName = Relative(labels: Name) | Absolute(labels: Name)

  function Qualify(name: HostName, zone: Name): (n: Name)
    ensures name.Absolute? ==> n == name.labels
    ensures name.Relative? ==> Under(n, zone) && n[..|n| - |zone|] == name.labels
  {
    if name.Absolute? then name.labels else name.labels + zone
  }

  // ---------------------------------------------------------------- specifications

  function Sent(s: Server, zone: Name, n: Name, changes: seq<Change>): (Server, Status) {
    if Accepts(s, zone, n) then (s[zone := ProcessAll(s[zone], zone, changes)], Done) else (s, Refused)
  }

  function ProcessAll(z: Zone, apex: Name, changes: seq<Change>): Zone
    decreases |changes|
  {
    if changes == [] then z else ProcessAll(Process(z, apex, changes[0]), apex, changes[1..])
  }

  /** The server and the return value after `update`. */
  function Updated(s: Server, zone: Name, n: Name, ttl: nat, r: Rdata, replace: bool,
                   onChange: bool): (Server, Status) {
    var answer := Lookup(s, n, r.rtype);
    if replace || (onChange && answer.Some? && r !in answer.value.items) then
      Sent(s, zone, n, [DropRRset(n, r.rtype), Insert(n, ttl, r)])
    else if answer.Some? && r in answer.value.items && answer.value.ttl == ttl then (s, Unchanged)
    else Sent(s, zone, n, [Insert(n, ttl, r)])
  }

  /** What `delete` asks the server to drop: data counts only together with a type. */
  function Dropped(n: Name, rtype: Option<RType>, data: Option<seq<string>>): Change {
    if rtype.None? then DropName(n)
    else if data.Some? then DropRdata(n, Rdata(rtype.value, data.value))
    else DropRRset(n, rtype.value)
  }

  function Deleted(s: Server, zone: Name, n: Name, rtype: Option<RType>, data: Option<seq<string>>): (Server, Status) {
    if (if rtype.Some? then Lookup(s, n, rtype.value).Some? else HasAny(s, n)) then
      Sent(s, zone, n, [Dropped(n, rtype, data)])
    else (s, Unchanged)
  }

  // ---------------------------------------------------------------- the module

  class NameServer {
    var zones: Server

    constructor (zones: Server)
      ensures this.zones == zones
    {
      this.zones := zones;
    }

    /** An UPDATE message; the answer is NOERROR or a refusal. */
    method Send(zone: Name, n: Name, changes: seq<Change>) returns (status: Status)
      modifies this
      ensures (zones, status) == Sent(old(zones), zone, n, changes)
    {
      if !Accepts(zones, zone, n) {
        return Refused;
      }
      var z := zones[zone];
      ghost var z0 := z;
      var i := 0;
      while i < |changes|
        invariant 0 <= i <= |changes|
        invariant ProcessAll(z, zone, changes[i..]) == ProcessAll(z0, zone, changes)
        invariant zones == old(zones)
      {
        assert changes[i..][1..] == changes[i + 1..];
        z := Process(z, zone, changes[i]);
        i := i + 1;
      }
      zones := zones[zone := z];
      return Done;
    }

    method Query(n: Name, t: RType) returns (answer: seq<RRset>)
      ensures answer == if Lookup(zones, n, t).Some? then [Lookup(zones, n, t).value] else []
    {
      var found := Lookup(zones, n, t);
      answer := if found.Some? then [found.value] else [];
    }
  }

  method Update(ns: NameServer, zone: Name, name: HostName, ttl: nat, rdata: Rdata, replace: bool,
                replaceOnChange: bool)
    returns (status: Status)
    modifies ns
    ensures (ns.zones, status) ==
            Updated(old(ns.zones), zone, Qualify(name, zone), ttl, rdata, replace, replaceOnChange)
  {
    var fqdn := Qualify(name, zone);
    var answer := ns.Query(fqdn, rdata.rtype);
    var isExist := false;
    for i := 0 to |answer|
      invariant isExist <==> exists k :: 0 <= k < i && rdata in answer[k].items && answer[k].ttl == ttl
    {
      if rdata in answer[i].items {
        if ttl == answer[i].ttl {
          isExist := true;
          assert answer[i] == answer[0];
          break;
        }
      }
    }
    assert isExist <==> answer != [] && rdata in answer[0].items && answer[0].ttl == ttl;
    var doReplace := replace;
    if replaceOnChange {
      if |answer| >= 2 {
        doReplace := true;
      } else if |answer| == 1 && rdata !in answer[0].items {
        doReplace := true;
      }
    }
    if doReplace {
      status := ns.Send(zone, fqdn, [DropRRset(fqdn, rdata.rtype), Insert(fqdn, ttl, rdata)]);
    } else if !isExist {
      status := ns.Send(zone, fqdn, [Insert(fqdn, ttl, rdata)]);
    } else {
      status := Unchanged;
    }
  }

  method Delete(ns: NameServer, zone: Name, name: HostName, rtype: Option<RType>, data: Option<seq<string>>)
    returns (status: Status)
    modifies ns
    ensures (ns.zones, status) == Deleted(old(ns.zones), zone, Qualify(name, zone), rtype, data)
  {
    var fqdn := Qualify(name, zone);
    var nothing;
    if rtype.Some? {
      var answer := ns.Query(fqdn, rtype.value);
      nothing := answer == [];
    } else {
      nothing := !HasAny(ns.zones, fqdn);
    }
    if nothing {
      return Unchanged;
    }
    status := ns.Send(zone, fqdn, [Dropped(fqdn, rtype, data)]);
  }

  // ---------------------------------------------------------------- host records

  /** An IPv4 address by its four parts. */
  type Ip = p: seq<string> | |p| == 4 witness ["0", "0", "0", "0"]

  const ARPA: Name := ["in-addr", "arpa"]

  function Reversed(s: seq<string>): (r: seq<string>)
    ensures |r| == |s| && forall i :: 0 <= i < |s| ==> r[i] == s[|s| - 1 - i]
  {
    seq(|s|, i requires 0 <= i < |s| => s[|s| - 1 - i])
  }

  /** The name of the PTR record, as in section 3.5 of RFC 1035. */
  function ReverseName(ip: Ip): (n: Name)
    ensures n == [ip[3], ip[2], ip[1], ip[0], "in-addr", "arpa"]
  {
    Reversed(ip) + ARPA
  }

  /** Moving one part from the zone to the name keeps the reverse name. */
  lemma ShiftOne(ip: Ip, popped: seq<string>, parts: seq<string>)
    requires popped + parts == Reversed(ip) && |parts| > 1
    ensures popped + [parts[0]] + parts[1..] == Reversed(ip)
    ensures var n := |popped| + 1;
            n + 2 < |ReverseName(ip)| && ReverseName(ip)[n..] == parts[1..] + ARPA
            && (popped + [parts[0]]) + (parts[1..] + ARPA) == ReverseName(ip)
  {
    assert popped + [parts[0]] + parts[1..] == popped + parts;
    var rev := ReverseName(ip);
    assert rev == (popped + [parts[0]]) + (parts[1..] + ARPA);
  }

  /** Tries the zones of the reverse name from the k-th label on, until one takes the record. */
  function WalkAdd(s: Server, rev: Name, k: nat, ttl: nat, target: Name, replace: bool, onChange: bool): (Server, bool)
    requires k <= |rev|
    decreases |rev| - k
  {
    if k + 2 >= |rev| then (s, false)
    else
      var (t, status) := Updated(s, rev[k..], rev, ttl, Rdata(PTR, target), replace, onChange);
      if status.Done? then (t, true) else WalkAdd(t, rev, k + 1, ttl, target, replace, onChange)
  }

  /** Deletes the record from the zones of the reverse name, from the k-th label on. */
  function WalkDelete(s: Server, rev: Name, k: nat, target: Name): Server
    requires k <= |rev|
    decreases |rev| - k
  {
    if k + 2 >= |rev| then s
    else WalkDelete(Deleted(s, rev[k..], rev, Some(PTR), Some(target)).0, rev, k + 1, target)
  }

  /** The status of the last of these deletions, the one in the shortest zone. */
  function WalkStatus(s: Server, rev: Name, k: nat, target: Name): Status
    requires k + 2 < |rev|
    decreases |rev| - k
  {
    var (t, status) := Deleted(s, rev[k..], rev, Some(PTR), Some(target));
    if k + 3 == |rev| then status else WalkStatus(t, rev, k + 1, target)
  }

  /** The server and the return value after `add_host`. */
  function HostAdded(s: Server, zone: Name, name: Name, ttl: nat, ip: Ip, replace: bool,
                     onChange: bool): (Server, Status) {
    var (t, status) := Updated(s, zone, name + zone, ttl, Rdata(A, ip), replace, onChange);
    if status.Refused? then (t, Refused)
    else
      var (u, ok) := WalkAdd(t, ReverseName(ip), 1, ttl, name + zone, replace, onChange);
      (u, if ok then Done else status)
  }

  /**
   add_host. The source passes `port` in the position of replace_on_change, so a nonzero port
   switches replacement on change on for both records; what it returns when the walk finds no
   zone is the status of the forward update, which is None when the record was already there.
   */
  method AddHost(ns: NameServer, zone: Name, name: Name, ttl: nat, ip: Ip, replace: bool, port: nat)
    returns (res: Status)
    modifies ns
    ensures (ns.zones, res) == HostAdded(old(ns.zones), zone, name, ttl, ip, replace, port != 0)
  {
    res := Update(ns, zone, Relative(name), ttl, Rdata(A, ip), replace, port != 0);
    if res.Refused? {
      return;
    }
    var fqdn := name + zone;
    var parts, popped := Reversed(ip), [];
    ghost var first := ns.zones;
    ghost var rev := ReverseName(ip);
    while |parts| > 1
      invariant popped + parts == Reversed(ip) && 1 <= |parts|
      invariant WalkAdd(first, rev, 1, ttl, fqdn, replace, port != 0) ==
                WalkAdd(ns.zones, rev, |popped| + 1, ttl, fqdn, replace, port != 0)
      decreases |parts|
    {
      ShiftOne(ip, popped, parts);
      popped, parts := popped + [parts[0]], parts[1..];
      var ptr := Update(ns, parts + ARPA, Relative(popped), ttl, Rdata(PTR, fqdn), replace, port != 0);
      if ptr.Done? {
        return Done;
      }
    }
  }

  /** The addresses of a host, in the order the answer lists them. */
  ghost predicate ListsAddresses(ips: seq<seq<string>>, answer: Option<RRset>) {
    && NoDup(ips)
    && forall ip :: ip in ips <==> answer.Some? && Rdata(A, ip) in answer.value.items
  }

  function PointersDeleted(s: Server, ips: seq<seq<string>>, target: Name): Server
    decreases |ips|
  {
    if ips == [] then s
    else if |ips[0]| != 4 then PointersDeleted(s, ips[1..], target)
    else PointersDeleted(WalkDelete(s, ReverseName(ips[0]), 1, target), ips[1..], target)
  }

  /** For some address the deletion in the shortest zone was accepted. */
  function PointersReported(s: Server, ips: seq<Ip>, target: Name): bool
    decreases |ips|
  {
    && ips != []
    && (WalkStatus(s, ReverseName(ips[0]), 1, target).Done?
        || PointersReported(WalkDelete(s, ReverseName(ips[0]), 1, target), ips[1..], target))
  }

  function HostDeleted(s: Server, zone: Name, name: Name, ips: seq<seq<string>>): Server {
    PointersDeleted(Deleted(s, zone, name + zone, None, None).0, ips, name + zone)
  }

  /** The inner loop of delete_host; it returns the status of the last zone tried. */
  method DeletePointer(ns: NameServer, ip: Ip, fqdn: Name) returns (ptr: Status)
    modifies ns
    ensures ns.zones == WalkDelete(old(ns.zones), ReverseName(ip), 1, fqdn)
    ensures ptr == WalkStatus(old(ns.zones), ReverseName(ip), 1, fqdn)
  {
    ghost var s, rev := ns.zones, ReverseName(ip);
    var parts, popped := Reversed(ip), [];
    ptr := Unchanged;
    while |parts| > 1
      invariant popped + parts == Reversed(ip) && 1 <= |parts|
      invariant WalkDelete(s, rev, 1, fqdn) == WalkDelete(ns.zones, rev, |popped| + 1, fqdn)
      invariant WalkStatus(s, rev, 1, fqdn) == if |parts| > 1 then WalkStatus(ns.zones, rev, |popped| + 1, fqdn)
                else ptr
      decreases |parts|
    {
      ShiftOne(ip, popped, parts);
      popped, parts := popped + [parts[0]], parts[1..];
      ptr := Delete(ns, parts + ARPA, Relative(popped), Some(PTR), Some(fqdn));
    }
  }

  /**
   delete_host, given the addresses in the order of the answer. It returns True when the shortest
   zone of some address accepted a deletion, and otherwise what the forward deletion returned.
   */
  method DeleteHost(ns: NameServer, zone: Name, name: Name, ips: seq<Ip>) returns (res: Status)
    requires ListsAddresses(ips, Lookup(ns.zones, name + zone, A))
    modifies ns
    ensures ns.zones == HostDeleted(old(ns.zones), zone, name, ips)
    ensures var (t, status) := Deleted(old(ns.zones), zone, name + zone, None, None);
            res == if PointersReported(t, ips, name + zone) then Done else status
  {
    var fqdn := name + zone;
    res := Delete(ns, zone, Relative(name), None, None);
    ghost var first, status := ns.zones, res;
    for i := 0 to |ips|
      invariant PointersDeleted(first, ips, fqdn) == PointersDeleted(ns.zones, ips[i..], fqdn)
      invariant res == status || res.Done?
      invariant PointersReported(first, ips, fqdn) || status.Done?
                <==> PointersReported(ns.zones, ips[i..], fqdn) || res.Done?
    {
      var ptr := DeletePointer(ns, ips[i], fqdn);
      if ptr.Done? {
        res := Done;
      }
      assert ips[i..][1..] == ips[i + 1..];
    }
  }
}
