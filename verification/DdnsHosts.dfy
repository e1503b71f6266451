/** The records of a host: the walk over the reverse zones, and adding and deleting a host. */
module DdnsHosts {
  import opened Prelude
  import opened DdnsServer
  import opened Ddns
  import opened DdnsTheorems

  /** Whether the PTR record of the address points to the host. */
  predicate Points(s: Server, rev: Name, target: Name) {
    var answer := Lookup(s, rev, PTR);
    answer.Some? && Rdata(PTR, target) in answer.value.items
  }

  lemma {:induction false} WalkDeleteFewer(s: Server, rev: Name, k: nat, target: Name)
    requires k <= |rev|
    ensures Fewer(s, WalkDelete(s, rev, k, target))
    decreases |rev| - k
  {
    if k + 2 < |rev| {
      DeletedFewer(s, rev[k..], rev, Some(PTR), Some(target));
      WalkDeleteFewer(Deleted(s, rev[k..], rev, Some(PTR), Some(target)).0, rev, k + 1, target);
    }
  }

  /** Deleting at the closest zone takes the pointer away. */
  lemma DeleteAtAuthority(s: Server, zone: Name, rev: Name, target: Name)
    requires Authority(s, rev) == Some(zone)
    ensures !Points(Deleted(s, zone, rev, Some(PTR), Some(target)).0, rev, target)
  {
    var t := Deleted(s, zone, rev, Some(PTR), Some(target)).0;
    DeletedFewer(s, zone, rev, Some(PTR), Some(target));
    SameAuthority(s, t, rev);
    AuthorityAccepts(s, rev);
    DroppedFromZone(s[zone], zone, rev, Some(PTR), Some(target));
  }

  /** The walk removes the pointer if it passes the closest zone. */
  lemma {:induction false} WalkDeleteClears(s: Server, rev: Name, k: nat, j: nat, target: Name)
    requires k <= j && j + 2 < |rev| && Authority(s, rev) == Some(rev[j..])
    ensures !Points(WalkDelete(s, rev, k, target), rev, target)
    decreases |rev| - k
  {
    var t := Deleted(s, rev[k..], rev, Some(PTR), Some(target)).0;
    DeletedFewer(s, rev[k..], rev, Some(PTR), Some(target));
    SameAuthority(s, t, rev);
    if k == j {
      DeleteAtAuthority(s, rev[k..], rev, target);
      WalkDeleteFewer(t, rev, k + 1, target);
      FewerLookup(t, WalkDelete(t, rev, k + 1, target), rev, PTR);
    } else {
      WalkDeleteClears(t, rev, k + 1, j, target);
    }
  }

  /**
   The walk goes from the longest zone to the shortest, always for the same reverse name, and
   writes at most once: to the longest of these zones that the server holds.
   */
  lemma {:induction false} WalkAddOnce(s: Server, rev: Name, k: nat, ttl: nat, target: Name, replace: bool,
                                       onChange: bool) returns (j: nat)
    requires k <= |rev|
    ensures var (t, ok) := WalkAdd(s, rev, k, ttl, target, replace, onChange);
            && (!ok ==> t == s)
            && (ok ==> k <= j && j + 2 < |rev| && rev[j..] in s && (forall i :: k <= i < j ==> rev[i..] !in s)
                       && t == Updated(s, rev[j..], rev, ttl, Rdata(PTR, target), replace, onChange).0)
    decreases |rev| - k
  {
    j := k;
    if k + 2 < |rev| {
      var (t, status) := Updated(s, rev[k..], rev, ttl, Rdata(PTR, target), replace, onChange);
      if !status.Done? {
        assert t == s;
        j := WalkAddOnce(s, rev, k + 1, ttl, target, replace, onChange);
        if status.Unchanged? {
          UnchangedEverywhere(s, rev, k + 1, ttl, target, replace, onChange);
        }
      }
    }
  }

  lemma {:induction false} UnchangedEverywhere(s: Server, rev: Name, k: nat, ttl: nat, target: Name, replace: bool,
                                               onChange: bool)
    requires k <= |rev| && !replace && Held(s, rev, ttl, Rdata(PTR, target))
    ensures !WalkAdd(s, rev, k, ttl, target, replace, onChange).1
    decreases |rev| - k
  {
    if k + 2 < |rev| {
      UnchangedEverywhere(s, rev, k + 1, ttl, target, replace, onChange);
    }
  }

  /** The longest suffix that is a zone is the closest zone. */
  lemma {:induction false} FirstZone(s: Server, n: Name, i: nat, j: nat)
    requires i <= j <= |n| && n[j..] in s && forall m :: i <= m < j ==> n[m..] !in s
    ensures Authority(s, n[i..]) == Some(n[j..])
    decreases j - i
  {
    if i < j {
      assert n[i..][1..] == n[i + 1..];
      FirstZone(s, n, i + 1, j);
    }
  }

  /** An addition writes a pointer only where a later deletion finds it. */
  lemma PointerRemovable(s: Server, rev: Name, ttl: nat, target: Name, replace: bool, onChange: bool)
    requires |rev| > 3 && !Points(s, rev, target)
    ensures var t := WalkAdd(s, rev, 1, ttl, target, replace, onChange).0;
            t.Keys == s.Keys
              && (Points(t, rev, target) ==> exists j :: 1 <= j < |rev| - 2 && Authority(t, rev) == Some(rev[j..]))
  {
    var t := WalkAdd(s, rev, 1, ttl, target, replace, onChange).0;
    var j := WalkAddOnce(s, rev, 1, ttl, target, replace, onChange);
    if t != s {
      UpdatedFrame(s, rev[j..], rev, ttl, Rdata(PTR, target), replace, onChange);
      LookupFrame(s, t, rev[j..], RKey(rev, PTR), rev, PTR);
    }
  }

  /** The walk reaches the closest zone of an address that is no zone itself, and no CNAME stands there. */
  predicate TakesPointer(s: Server, rev: Name, j: nat) {
    && 1 <= j < |rev| - 2 && rev !in s && rev[j..] in s
    && (forall i :: 1 <= i < j ==> rev[i..] !in s)
    && !Blocked(s[rev[j..]], rev, PTR)
  }

  /** The pointer that the walk writes is visible. */
  ghost predicate LeavesPointer(s: Server, rev: Name) {
    exists j :: TakesPointer(s, rev, j)
  }

  /** The first zone of the walk that the server holds. */
  predicate FirstIn(s: Server, rev: Name, k: nat, j: nat) {
    k <= j < |rev| - 2 && rev[j..] in s && forall i :: k <= i < j ==> rev[i..] !in s
  }

  lemma {:induction false} FirstServed(s: Server, rev: Name, k: nat, ttl: nat, target: Name, replace: bool,
                                       onChange: bool, j: nat)
    requires FirstIn(s, rev, k, j) && (replace || !Held(s, rev, ttl, Rdata(PTR, target)))
    ensures WalkAdd(s, rev, k, ttl, target, replace, onChange) ==
            (Updated(s, rev[j..], rev, ttl, Rdata(PTR, target), replace, onChange).0, true)
    decreases |rev| - k
  {
    assert rev[|rev| - |rev[j..]|..] == rev[j..];
    if k < j {
      FirstServed(s, rev, k + 1, ttl, target, replace, onChange, j);
    }
  }

  /** An update of the pointer in the closest zone makes it visible unless a CNAME stands there. */
  lemma PointerWritten(s: Server, zone: Name, rev: Name, ttl: nat, target: Name, replace: bool, onChange: bool)
    requires Authority(s, rev) == Some(zone) && !Points(s, rev, target)
    ensures Points(Updated(s, zone, rev, ttl, Rdata(PTR, target), replace, onChange).0, rev, target)
            <==> !Blocked(s[zone], rev, PTR)
  {
    var r := Rdata(PTR, target);
    var added, replaced := [Insert(rev, ttl, r)], [DropRRset(rev, PTR), Insert(rev, ttl, r)];
    PointerInZone(s[zone], zone, rev, ttl, r);
    SentToClosest(s, zone, rev, PTR, added);
    SentToClosest(s, zone, rev, PTR, replaced);
    PointerSent(s, zone, rev, ttl, r, replace, onChange);
  }

  /** An update of data that is not there is one of two messages. */
  lemma PointerSent(s: Server, zone: Name, rev: Name, ttl: nat, r: Rdata, replace: bool, onChange: bool)
    requires r.rtype == PTR && (Lookup(s, rev, PTR).Some? ==> r !in Lookup(s, rev, PTR).value.items)
    ensures var result := Updated(s, zone, rev, ttl, r, replace, onChange);
            || result == Sent(s, zone, rev, [Insert(rev, ttl, r)])
            || result == Sent(s, zone, rev, [DropRRset(rev, PTR), Insert(rev, ttl, r)])
  {
  }

  predicate ZoneHolds(z: Zone, n: Name, r: Rdata) {
    RKey(n, r.rtype) in z && r in z[RKey(n, r.rtype)].items
  }

  lemma PointerInZone(z: Zone, apex: Name, rev: Name, ttl: nat, r: Rdata)
    requires r.rtype == PTR && !ZoneHolds(z, rev, r)
    ensures ZoneHolds(ProcessAll(z, apex, [Insert(rev, ttl, r)]), rev, r) <==> !Blocked(z, rev, PTR)
    ensures ZoneHolds(ProcessAll(z, apex, [DropRRset(rev, PTR), Insert(rev, ttl, r)]), rev, r)
            <==> !Blocked(z, rev, PTR)
  {
    TwoChanges(z, apex, DropRRset(rev, PTR), Insert(rev, ttl, r));
    TwoChanges(z, apex, Insert(rev, ttl, r), Insert(rev, ttl, r));
  }

  /** A pointer that was not there is visible after the walk if and only if the walk takes it where it is looked up. */
  lemma PointerVisible(s: Server, rev: Name, ttl: nat, target: Name, replace: bool, onChange: bool)
    requires |rev| > 3 && !Points(s, rev, target)
    ensures Points(WalkAdd(s, rev, 1, ttl, target, replace, onChange).0, rev, target) <==> LeavesPointer(s, rev)
  {
    var t := WalkAdd(s, rev, 1, ttl, target, replace, onChange).0;
    if j: nat :| FirstIn(s, rev, 1, j) {
      FirstServed(s, rev, 1, ttl, target, replace, onChange, j);
      if rev in s {
        assert Authority(s, rev) == Some(rev);
        UpdatedFrame(s, rev[j..], rev, ttl, Rdata(PTR, target), replace, onChange);
        LookupFrame(s, t, rev[j..], RKey(rev, PTR), rev, PTR);
      } else {
        assert rev[0..] == rev;
        FirstZone(s, rev, 0, j);
        PointerWritten(s, rev[j..], rev, ttl, target, replace, onChange);
        assert TakesPointer(s, rev, j) <==> !Blocked(s[rev[j..]], rev, PTR);
        OnlyFirst(s, rev, j);
      }
    } else {
      var j := WalkAddOnce(s, rev, 1, ttl, target, replace, onChange);
      assert !FirstIn(s, rev, 1, j);
      assert forall i :: TakesPointer(s, rev, i) ==> FirstIn(s, rev, 1, i);
    }
  }

  lemma OnlyFirst(s: Server, rev: Name, j: nat)
    requires FirstIn(s, rev, 1, j)
    ensures forall i :: TakesPointer(s, rev, i) ==> i == j
  {
  }

  /** A first address at a name without records. */
  lemma FirstAddress(s: Server, zone: Name, n: Name, ttl: nat, r: Rdata, replace: bool, onChange: bool)
    requires Authority(s, n) == Some(zone) && (forall k :: k in s[zone] ==> k.name != n) && r.rtype == A
    ensures Updated(s, zone, n, ttl, r, replace, onChange).1 == Done
    ensures Lookup(Updated(s, zone, n, ttl, r, replace, onChange).0, n, A) == Some(RRset(ttl, {r}))
  {
    FirstInZone(s[zone], zone, n, ttl, r);
    SentToClosest(s, zone, n, A, [Insert(n, ttl, r)]);
    SentToClosest(s, zone, n, A, [DropRRset(n, A), Insert(n, ttl, r)]);
  }

  lemma FirstInZone(z: Zone, apex: Name, n: Name, ttl: nat, r: Rdata)
    requires (forall k :: k in z ==> k.name != n) && r.rtype == A
    ensures At(ProcessAll(z, apex, [Insert(n, ttl, r)]), RKey(n, A)) == Some(RRset(ttl, {r}))
    ensures At(ProcessAll(z, apex, [DropRRset(n, A), Insert(n, ttl, r)]), RKey(n, A)) == Some(RRset(ttl, {r}))
  {
    TwoChanges(z, apex, DropRRset(n, A), Insert(n, ttl, r));
    TwoChanges(z, apex, Insert(n, ttl, r), Insert(n, ttl, r));
  }

  /** The walk over the reverse zones leaves addresses alone. */
  lemma WalkKeepsAddress(t: Server, rev: Name, ttl: nat, target: Name, replace: bool, onChange: bool, n: Name)
    requires |rev| > 0
    ensures WalkAdd(t, rev, 1, ttl, target, replace, onChange).0.Keys == t.Keys
    ensures Lookup(WalkAdd(t, rev, 1, ttl, target, replace, onChange).0, n, A) == Lookup(t, n, A)
  {
    var u := WalkAdd(t, rev, 1, ttl, target, replace, onChange).0;
    var j := WalkAddOnce(t, rev, 1, ttl, target, replace, onChange);
    if u != t {
      UpdatedFrame(t, rev[j..], rev, ttl, Rdata(PTR, target), replace, onChange);
      LookupFrame(t, u, rev[j..], RKey(rev, PTR), n, A);
    }
  }

  /** After adding a host that had no records, its only address is the given one. */
  lemma AddedAddress(s: Server, zone: Name, name: Name, ttl: nat, ip: Ip, replace: bool, onChange: bool)
    requires Authority(s, name + zone) == Some(zone) && forall k :: k in s[zone] ==> k.name != name + zone
    ensures !HostAdded(s, zone, name, ttl, ip, replace, onChange).1.Refused?
    ensures Lookup(HostAdded(s, zone, name, ttl, ip, replace, onChange).0, name + zone, A) ==
            Some(RRset(ttl, {Rdata(A, ip)}))
  {
    FirstAddress(s, zone, name + zone, ttl, Rdata(A, ip), replace, onChange);
    WalkKeepsAddress(Updated(s, zone, name + zone, ttl, Rdata(A, ip), replace, onChange).0,
                     ReverseName(ip), ttl, name + zone, replace, onChange, name + zone);
  }

  lemma NameDropped(z: Zone, apex: Name, n: Name)
    ensures RKey(n, A) !in ProcessAll(z, apex, [DropName(n)])
  {
    TwoChanges(z, apex, DropName(n), DropName(n));
  }

  /** Deleting the host's name at its closest zone takes its address away. */
  lemma NameDeleted(s: Server, zone: Name, n: Name)
    requires Authority(s, n) == Some(zone)
    ensures Lookup(Deleted(s, zone, n, None, None).0, n, A) == None
  {
    SentToClosest(s, zone, n, A, [DropName(n)]);
    NameDropped(s[zone], zone, n);
    assert !HasAny(s, n) ==> RKey(n, A) !in s[zone];
  }

  /**
   From a server without records for the host, add_host followed by delete_host leaves neither
   the address record nor a pointer from the address to the host.
   */
  lemma AddThenDelete(s: Server, zone: Name, name: Name, ttl: nat, ip: Ip, replace: bool, onChange: bool,
                      ips: seq<seq<string>>)
    requires Authority(s, name + zone) == Some(zone) && forall k :: k in s[zone] ==> k.name != name + zone
    requires !Points(s, ReverseName(ip), name + zone)
    requires ListsAddresses(ips, Lookup(HostAdded(s, zone, name, ttl, ip, replace, onChange).0, name + zone, A))
    ensures var u := HostDeleted(HostAdded(s, zone, name, ttl, ip, replace, onChange).0, zone, name, ips);
            Lookup(u, name + zone, A) == None && !Points(u, ReverseName(ip), name + zone)
  {
    var n, rev := name + zone, ReverseName(ip);
    var t := Updated(s, zone, n, ttl, Rdata(A, ip), replace, onChange).0;
    UpdatedFrame(s, zone, n, ttl, Rdata(A, ip), replace, onChange);
    LookupFrame(s, t, zone, RKey(n, A), rev, PTR);
    var a := HostAdded(s, zone, name, ttl, ip, replace, onChange).0;
    AddedAddress(s, zone, name, ttl, ip, replace, onChange);
    PointerRemovable(t, rev, ttl, n, replace, onChange);
    SameAuthority(s, a, n);
    OnlyAddress(ips, ip, ttl);
    DeletesBoth(a, zone, n, ip);
    assert ips[1..] == [];
    assert HostDeleted(a, zone, name, ips) == PointersDeleted(Deleted(a, zone, n, None, None).0, ips, n);
  }

  lemma FirstTwoDiffer<T>(s: seq<T>)
    requires NoDup(s)
    ensures |s| > 1 ==> s[0] != s[1]
  {
  }

  lemma OnlyAddress(ips: seq<seq<string>>, ip: Ip, ttl: nat)
    requires ListsAddresses(ips, Some(RRset(ttl, {Rdata(A, ip)})))
    ensures ips == [ip]
  {
    FirstTwoDiffer(ips);
    assert ip in ips;
    forall i | 0 <= i < |ips|
      ensures ips[i] == ip
    {
      assert ips[i] in ips;
      assert Rdata(A, ips[i]) in {Rdata(A, ip)};
    }
  }

  lemma DeletesBoth(a: Server, zone: Name, n: Name, ip: Ip)
    requires Authority(a, n) == Some(zone)
    requires Points(a, ReverseName(ip), n) ==>
               exists j :: 1 <= j < |ReverseName(ip)| - 2 && Authority(a, ReverseName(ip)) == Some(ReverseName(ip)[j..])
    ensures var u := WalkDelete(Deleted(a, zone, n, None, None).0, ReverseName(ip), 1, n);
            Lookup(u, n, A) == None && !Points(u, ReverseName(ip), n)
  {
    var rev := ReverseName(ip);
    var b := Deleted(a, zone, n, None, None).0;
    var u := WalkDelete(b, rev, 1, n);
    NameDeleted(a, zone, n);
    DeletedFewer(a, zone, n, None, None);
    WalkDeleteFewer(b, rev, 1, n);
    FewerLookup(b, u, n, A);
    FewerLookup(a, b, rev, PTR);
    FewerLookup(b, u, rev, PTR);
    if Points(a, rev, n) {
      var j :| 1 <= j < |rev| - 2 && Authority(a, rev) == Some(rev[j..]);
      SameAuthority(a, b, rev);
      WalkDeleteClears(b, rev, 1, j, n);
    }
  }

  /** The walk reports success exactly when there is something to write and a zone that takes it. */
  lemma WalkAddIff(s: Server, rev: Name, ttl: nat, target: Name, replace: bool, onChange: bool)
    requires |rev| > 0
    ensures WalkAdd(s, rev, 1, ttl, target, replace, onChange).1
            <==> (replace || !Held(s, rev, ttl, Rdata(PTR, target))) && exists j: nat :: FirstIn(s, rev, 1, j)
  {
    if !replace && Held(s, rev, ttl, Rdata(PTR, target)) {
      UnchangedEverywhere(s, rev, 1, ttl, target, replace, onChange);
    } else if j: nat :| FirstIn(s, rev, 1, j) {
      FirstServed(s, rev, 1, ttl, target, replace, onChange, j);
    } else {
      var j := WalkAddOnce(s, rev, 1, ttl, target, replace, onChange);
      assert WalkAdd(s, rev, 1, ttl, target, replace, onChange).1 ==> FirstIn(s, rev, 1, j);
    }
  }

  /**
   What add_host returns: False exactly when an address has to be sent and the zone is not held,
   None exactly when neither the address nor a pointer had to be written, or could be.
   */
  lemma AddHostReturns(s: Server, zone: Name, name: Name, ttl: nat, ip: Ip, replace: bool, onChange: bool)
    ensures var n, rev := name + zone, ReverseName(ip);
            var sends := replace || !Held(s, n, ttl, Rdata(A, ip));
            var t := Updated(s, zone, n, ttl, Rdata(A, ip), replace, onChange).0;
            var points := (replace || !Held(t, rev, ttl, Rdata(PTR, n))) && exists j: nat :: FirstIn(t, rev, 1, j);
            HostAdded(s, zone, name, ttl, ip, replace, onChange).1 ==
              if sends && zone !in s then Refused else if sends || points then Done else Unchanged
  {
    var n := name + zone;
    assert n[|n| - |zone|..] == zone;
    var t := Updated(s, zone, n, ttl, Rdata(A, ip), replace, onChange).0;
    WalkAddIff(t, ReverseName(ip), ttl, n, replace, onChange);
  }

  /** For all flags and whatever was there, the addresses of the host after add_host. */
  lemma AddedAddresses(s: Server, zone: Name, name: Name, ttl: nat, ip: Ip, replace: bool, onChange: bool)
    requires Consistent(s) && Authority(s, name + zone) == Some(zone)
    ensures Lookup(HostAdded(s, zone, name, ttl, ip, replace, onChange).0, name + zone, A) ==
            NewRRset(Lookup(s, name + zone, A), Blocked(s[zone], name + zone, A), false, ttl, Rdata(A, ip), replace,
              onChange)
  {
    var n, rev := name + zone, ReverseName(ip);
    var (t, status) := Updated(s, zone, n, ttl, Rdata(A, ip), replace, onChange);
    UpdatedRRset(s, zone, n, ttl, Rdata(A, ip), replace, onChange);
    WalkKeepsAddress(t, rev, ttl, n, replace, onChange, n);
  }

  /** The pointers of an address after the walk, where it meets their closest zone and has something to do. */
  lemma WrittenPointers(s: Server, rev: Name, ttl: nat, target: Name, replace: bool, onChange: bool, j: nat)
    requires Consistent(s) && FirstIn(s, rev, 1, j) && rev !in s
    requires replace || !Held(s, rev, ttl, Rdata(PTR, target))
    ensures Lookup(WalkAdd(s, rev, 1, ttl, target, replace, onChange).0, rev, PTR) ==
            NewRRset(Lookup(s, rev, PTR), Blocked(s[rev[j..]], rev, PTR), false, ttl, Rdata(PTR, target), replace,
              onChange)
  {
    FirstServed(s, rev, 1, ttl, target, replace, onChange, j);
    assert rev[0..] == rev;
    FirstZone(s, rev, 0, j);
    UpdatedRRset(s, rev[j..], rev, ttl, Rdata(PTR, target), replace, onChange);
  }

  /** The pointer of each of these addresses lies in a zone that delete_host tries. */
  ghost predicate Within(s: Server, ip: Ip) {
    exists j :: 1 <= j < |ReverseName(ip)| - 2 && Authority(s, ReverseName(ip)) == Some(ReverseName(ip)[j..])
  }

  lemma {:induction false} PointersFewer(s: Server, ips: seq<seq<string>>, target: Name)
    ensures Fewer(s, PointersDeleted(s, ips, target))
    decreases |ips|
  {
    if ips != [] {
      if |ips[0]| == 4 {
        WalkDeleteFewer(s, ReverseName(ips[0]), 1, target);
        PointersFewer(WalkDelete(s, ReverseName(ips[0]), 1, target), ips[1..], target);
      } else {
        PointersFewer(s, ips[1..], target);
      }
    }
  }

  lemma {:induction false} PointersCleared(s: Server, ips: seq<seq<string>>, target: Name, ip: Ip)
    requires ip in ips && Within(s, ip)
    ensures !Points(PointersDeleted(s, ips, target), ReverseName(ip), target)
    decreases |ips|
  {
    var rev := ReverseName(ip);
    var t := if |ips[0]| == 4 then WalkDelete(s, ReverseName(ips[0]), 1, target) else s;
    if |ips[0]| == 4 {
      WalkDeleteFewer(s, ReverseName(ips[0]), 1, target);
    }
    if ips[0] == ip {
      var j :| 1 <= j < |rev| - 2 && Authority(s, rev) == Some(rev[j..]);
      WalkDeleteClears(s, rev, 1, j, target);
      PointersFewer(t, ips[1..], target);
      FewerLookup(t, PointersDeleted(t, ips[1..], target), rev, PTR);
    } else {
      SameAuthority(s, t, rev);
      PointersCleared(t, ips[1..], target, ip);
    }
  }

  /**
   From any server: delete_host in the closest zone of the host leaves no address of it, and for
   none of its addresses a pointer that lies in a zone it tries.
   */
  lemma DeleteHostClears(s: Server, zone: Name, name: Name, ips: seq<seq<string>>)
    requires Authority(s, name + zone) == Some(zone) && ListsAddresses(ips, Lookup(s, name + zone, A))
    ensures Lookup(HostDeleted(s, zone, name, ips), name + zone, A) == None
    ensures forall ip: Ip :: ip in ips && Within(s, ip) ==>
              !Points(HostDeleted(s, zone, name, ips), ReverseName(ip), name + zone)
  {
    var n := name + zone;
    var t := Deleted(s, zone, n, None, None).0;
    NameDeleted(s, zone, n);
    DeletedFewer(s, zone, n, None, None);
    PointersFewer(t, ips, n);
    FewerLookup(t, PointersDeleted(t, ips, n), n, A);
    forall ip: Ip | ip in ips && Within(s, ip)
      ensures !Points(PointersDeleted(t, ips, n), ReverseName(ip), n)
    {
      SameAuthority(s, t, ReverseName(ip));
      PointersCleared(t, ips, n, ip);
    }
  }

  // ---------------------------------------------------------------- a zone that is not the closest one

  /** The walk leaves pointers exactly where it left them before an address was written. */
  lemma SamePointers(s: Server, t: Server, zone: Name, n: Name, rev: Name)
    requires DiffersAt(s, t, zone, RKey(n, A))
    ensures LeavesPointer(t, rev) == LeavesPointer(s, rev)
  {
    forall j | 1 <= j < |rev| - 2
      ensures TakesPointer(t, rev, j) == TakesPointer(s, rev, j)
    {
      if rev[j..] in s {
        SameBlocked(s, t, zone, RKey(n, A), rev[j..], rev, PTR);
      }
    }
  }

  /** A deletion sent to a zone that is not the closest one of a name changes no lookup there. */
  lemma HiddenDeletion(s: Server, zone: Name, n: Name, m: Name, ty: RType)
    requires Authority(s, m) != Some(zone)
    ensures Lookup(Deleted(s, zone, n, None, None).0, m, ty) == Lookup(s, m, ty)
  {
    DeletedFewer(s, zone, n, None, None);
    SameAuthority(s, Deleted(s, zone, n, None, None).0, m);
  }

  /** The address that add_host sends to such a zone is invisible. */
  lemma HiddenAddress(s: Server, zone: Name, name: Name, ttl: nat, ip: Ip, replace: bool, onChange: bool)
    requires Authority(s, name + zone) != Some(zone) && !HasAny(s, name + zone)
    ensures var a := HostAdded(s, zone, name, ttl, ip, replace, onChange).0;
            a.Keys == s.Keys && Lookup(a, name + zone, A) == None
  {
    var n, rev := name + zone, ReverseName(ip);
    var t := Updated(s, zone, n, ttl, Rdata(A, ip), replace, onChange).0;
    UpdatedFrame(s, zone, n, ttl, Rdata(A, ip), replace, onChange);
    LookupFrame(s, t, zone, RKey(n, A), n, A);
    WalkKeepsAddress(t, rev, ttl, n, replace, onChange, n);
  }

  lemma NoAddresses(a: Server, n: Name, ips: seq<seq<string>>)
    requires Lookup(a, n, A).None? && ListsAddresses(ips, Lookup(a, n, A))
    ensures ips == []
  {
    FirstIsMember(ips);
  }

  /** delete_host after add_host in a zone that is not the closest one keeps what is visible. */
  lemma HiddenHostStays(s: Server, zone: Name, name: Name, ttl: nat, ip: Ip, replace: bool, onChange: bool,
                        ips: seq<seq<string>>)
    requires Authority(s, name + zone) != Some(zone) && !HasAny(s, name + zone)
    requires ListsAddresses(ips, Lookup(HostAdded(s, zone, name, ttl, ip, replace, onChange).0, name + zone, A))
    ensures var a := HostAdded(s, zone, name, ttl, ip, replace, onChange).0;
            var u := HostDeleted(a, zone, name, ips);
            Lookup(u, name + zone, A) == None && Lookup(u, ReverseName(ip), PTR) == Lookup(a, ReverseName(ip), PTR)
  {
    var n, rev := name + zone, ReverseName(ip);
    var a := HostAdded(s, zone, name, ttl, ip, replace, onChange).0;
    HiddenAddress(s, zone, name, ttl, ip, replace, onChange);
    NoAddresses(a, n, ips);
    assert HostDeleted(a, zone, name, ips) == Deleted(a, zone, n, None, None).0;
    SameAuthority(s, a, n);
    HiddenDeletion(a, zone, n, n, A);
    if n == rev {
      HiddenDeletion(a, zone, n, rev, PTR);
    } else {
      OtherNameKept(a, zone, n, rev);
    }
  }

  lemma OtherNameKept(a: Server, zone: Name, n: Name, rev: Name)
    requires n != rev
    ensures Lookup(Deleted(a, zone, n, None, None).0, rev, PTR) == Lookup(a, rev, PTR)
  {
    var b := Deleted(a, zone, n, None, None).0;
    DeletedFewer(a, zone, n, None, None);
    SameAuthority(a, b, rev);
    if zone in a {
      TwoChanges(a[zone], zone, DropName(n), DropName(n));
    }
  }

  /** The zone given for the host is held by the server, but a longer one answers for its name. */
  predicate Hidden(s: Server, zone: Name, n: Name) {
    zone in s && Authority(s, n) != Some(zone)
  }

  /** In a hidden zone the pointer stays exactly when the walk left it. */
  lemma HiddenPointer(s: Server, zone: Name, name: Name, ttl: nat, ip: Ip, replace: bool, onChange: bool)
    requires Authority(s, name + zone) != Some(zone) && !HasAny(s, name + zone)
    requires !Points(s, ReverseName(ip), name + zone)
    ensures Points(HostAdded(s, zone, name, ttl, ip, replace, onChange).0, ReverseName(ip), name + zone)
            <==> zone in s && LeavesPointer(s, ReverseName(ip))
  {
    var n, rev := name + zone, ReverseName(ip);
    var (t, status) := Updated(s, zone, n, ttl, Rdata(A, ip), replace, onChange);
    FirstAddressSent(s, zone, name, ttl, Rdata(A, ip), replace, onChange);
    if zone in s {
      UpdatedFrame(s, zone, n, ttl, Rdata(A, ip), replace, onChange);
      LookupFrame(s, t, zone, RKey(n, A), rev, PTR);
      PointerVisible(t, rev, ttl, n, replace, onChange);
      SamePointers(s, t, zone, n, rev);
    }
  }

  lemma FirstAddressSent(s: Server, zone: Name, name: Name, ttl: nat, r: Rdata, replace: bool, onChange: bool)
    requires !HasAny(s, name + zone)
    ensures var (t, status) := Updated(s, zone, name + zone, ttl, r, replace, onChange);
            status == (if zone in s then Done else Refused) && (zone !in s ==> t == s)
  {
    var n := name + zone;
    assert n[|n| - |zone|..] == zone;
    assert Lookup(s, n, r.rtype) == None;
  }

  /**
   For every server without records for the host and every combination of flags: add_host followed
   by delete_host leaves neither the address nor the pointer, unless the zone is hidden and the
   walk leaves a pointer.
   */
  lemma AddThenDeleteIff(s: Server, zone: Name, name: Name, ttl: nat, ip: Ip, replace: bool, onChange: bool,
                         ips: seq<seq<string>>)
    requires !HasAny(s, name + zone) && !Points(s, ReverseName(ip), name + zone)
    requires ListsAddresses(ips, Lookup(HostAdded(s, zone, name, ttl, ip, replace, onChange).0, name + zone, A))
    ensures var u := HostDeleted(HostAdded(s, zone, name, ttl, ip, replace, onChange).0, zone, name, ips);
            (Lookup(u, name + zone, A) == None && !Points(u, ReverseName(ip), name + zone))
            <==> !(Hidden(s, zone, name + zone) && LeavesPointer(s, ReverseName(ip)))
  {
    if Authority(s, name + zone) == Some(zone) {
      AddThenDelete(s, zone, name, ttl, ip, replace, onChange, ips);
    } else {
      HiddenHostStays(s, zone, name, ttl, ip, replace, onChange, ips);
      HiddenPointer(s, zone, name, ttl, ip, replace, onChange);
    }
  }

  /** A server on which the pointer stays: it holds the zone, the host's name as a zone, and a reverse zone. */
  lemma PointerStays(zone: Name, name: Name, ttl: nat, ip: Ip, replace: bool, onChange: bool) returns (s: Server)
    requires |zone| == 1 && |name| == 1
    ensures !HasAny(s, name + zone) && !Points(s, ReverseName(ip), name + zone)
    ensures var u := HostDeleted(HostAdded(s, zone, name, ttl, ip, replace, onChange).0, zone, name, []);
            Points(u, ReverseName(ip), name + zone)
    ensures ListsAddresses([], Lookup(HostAdded(s, zone, name, ttl, ip, replace, onChange).0, name + zone, A))
  {
    var n, rev := name + zone, ReverseName(ip);
    s := map[zone := map[], n := map[], rev[3..] := map[]];
    assert |rev| == 6 && |rev[3..]| == 3 && |n| == 2;
    assert rev[2..] !in s && rev[1..] !in s && rev !in s;
    assert TakesPointer(s, rev, 3);
    HiddenAddress(s, zone, name, ttl, ip, replace, onChange);
    AddThenDeleteIff(s, zone, name, ttl, ip, replace, onChange, []);
    HiddenHostStays(s, zone, name, ttl, ip, replace, onChange, []);
  }

  // ---------------------------------------------------------------- what delete_host reports

  /** The server before the deletion in the m-th zone. */
  function WalkTo(s: Server, rev: Name, k: nat, m: nat, target: Name): Server
    requires k <= m <= |rev|
    decreases m - k
  {
    if k == m then s else WalkTo(Deleted(s, rev[k..], rev, Some(PTR), Some(target)).0, rev, k + 1, m, target)
  }

  lemma {:induction false} StatusIsLast(s: Server, rev: Name, k: nat, target: Name)
    requires k + 2 < |rev|
    ensures WalkStatus(s, rev, k, target) ==
            Deleted(WalkTo(s, rev, k, |rev| - 3, target), rev[|rev| - 3..], rev, Some(PTR), Some(target)).1
    decreases |rev| - k
  {
    if k + 3 < |rev| {
      StatusIsLast(Deleted(s, rev[k..], rev, Some(PTR), Some(target)).0, rev, k + 1, target);
    }
  }

  /** Nothing happens in zones that the server does not hold. */
  lemma {:induction false} SkipsAbsent(s: Server, rev: Name, k: nat, j: nat, m: nat, target: Name)
    requires k <= j <= m <= |rev| && forall i :: k <= i < j ==> rev[i..] !in s
    ensures WalkTo(s, rev, k, m, target) == WalkTo(s, rev, j, m, target)
    decreases j - k
  {
    if k < j {
      SkipsAbsent(s, rev, k + 1, j, m, target);
    }
  }

  /** The deletions touch no zone but their own. */
  lemma {:induction false} WalkKeepsZone(s: Server, rev: Name, k: nat, m: nat, target: Name, home: Name)
    requires k <= m <= |rev| && home in s && forall i :: k <= i < m ==> rev[i..] != home
    ensures var u := WalkTo(s, rev, k, m, target); u.Keys == s.Keys && u[home] == s[home]
    decreases m - k
  {
    if k < m {
      DropKeepsZone(s, rev[k..], rev, target, home);
      WalkKeepsZone(Deleted(s, rev[k..], rev, Some(PTR), Some(target)).0, rev, k + 1, m, target, home);
    }
  }

  lemma DropKeepsZone(s: Server, zone: Name, rev: Name, target: Name, home: Name)
    requires home in s && zone != home
    ensures var t := Deleted(s, zone, rev, Some(PTR), Some(target)).0; t.Keys == s.Keys && t[home] == s[home]
  {
  }

  lemma ShorterSuffix(rev: Name, j: nat, k: nat)
    requires j < k <= |rev|
    ensures rev[j..] != rev[k..] && Under(rev, rev[k..])
  {
    assert |rev[j..]| != |rev[k..]|;
  }

  lemma HiddenDrop(s: Server, zone: Name, rev: Name, target: Name)
    requires Authority(s, rev) != Some(zone) && Under(rev, zone)
    ensures var (t, status) := Deleted(s, zone, rev, Some(PTR), Some(target));
            && t.Keys == s.Keys && Lookup(t, rev, PTR) == Lookup(s, rev, PTR)
            && (status.Done? <==> zone in s && Lookup(s, rev, PTR).Some?)
  {
    var t := Deleted(s, zone, rev, Some(PTR), Some(target)).0;
    DeletedFewer(s, zone, rev, Some(PTR), Some(target));
    SameAuthority(s, t, rev);
  }

  /** What the deletion in the closest zone leaves. */
  lemma PointerTaken(s: Server, zone: Name, rev: Name, target: Name)
    requires Authority(s, rev) == Some(zone) && zone != rev
    ensures var (t, status) := Deleted(s, zone, rev, Some(PTR), Some(target));
            && t.Keys == s.Keys && (status.Done? <==> Lookup(s, rev, PTR).Some?)
            && (Lookup(t, rev, PTR).Some?
              <==> Lookup(s, rev, PTR).Some? && Lookup(s, rev, PTR).value.items - {Rdata(PTR, target)} != {})
  {
    var t := Deleted(s, zone, rev, Some(PTR), Some(target)).0;
    DeletedFewer(s, zone, rev, Some(PTR), Some(target));
    SameAuthority(s, t, rev);
    AuthorityAccepts(s, rev);
    DroppedData(s[zone], zone, rev, Rdata(PTR, target));
  }

  /**
   Exactly when the deletion of a pointer is reported: the closest zone of the address is the
   shortest one, or that one is held too and other records were left beside the pointer.
   */
  lemma ReportedIff(s: Server, rev: Name, j: nat, target: Name)
    requires 1 <= j && j + 2 < |rev| && Authority(s, rev) == Some(rev[j..]) && forall i :: 1 <= i < j ==> rev[i..] !in s
    ensures WalkStatus(s, rev, 1, target).Done? <==>
            && Lookup(s, rev, PTR).Some?
            && (j + 3 == |rev|
              || (rev[|rev| - 3..] in s && Lookup(s, rev, PTR).value.items - {Rdata(PTR, target)} != {}))
  {
    var last := |rev| - 3;
    StatusIsLast(s, rev, 1, target);
    SkipsAbsent(s, rev, 1, j, last, target);
    ShorterSuffix(rev, 0, j);
    assert rev[0..] == rev;
    PointerTaken(s, rev[j..], rev, target);
    if j < last {
      LastStatus(s, rev, j, target);
    }
  }

  lemma LastStatus(s: Server, rev: Name, j: nat, target: Name)
    requires j + 3 < |rev| && Authority(s, rev) == Some(rev[j..])
    ensures Deleted(WalkTo(s, rev, j, |rev| - 3, target), rev[|rev| - 3..], rev, Some(PTR), Some(target)).1.Done?
            <==> rev[|rev| - 3..] in s && Lookup(Deleted(s, rev[j..], rev, Some(PTR), Some(target)).0, rev, PTR).Some?
  {
    var last := |rev| - 3;
    var u := WalkTo(s, rev, j, last, target);
    AfterClosest(s, rev, j, last, target);
    SameAuthority(s, u, rev);
    ShorterSuffix(rev, j, last);
    HiddenDrop(u, rev[last..], rev, target);
  }

  /** What is visible after the deletion in the closest zone stays visible up to the m-th. */
  lemma AfterClosest(s: Server, rev: Name, j: nat, m: nat, target: Name)
    requires j < m <= |rev| && Authority(s, rev) == Some(rev[j..])
    ensures var u := WalkTo(s, rev, j, m, target);
            u.Keys == s.Keys
              && Lookup(u, rev, PTR) == Lookup(Deleted(s, rev[j..], rev, Some(PTR), Some(target)).0, rev, PTR)
  {
    var t := Deleted(s, rev[j..], rev, Some(PTR), Some(target)).0;
    DeletedFewer(s, rev[j..], rev, Some(PTR), Some(target));
    forall i | j < i < m
      ensures rev[i..] != rev[j..]
    {
      ShorterSuffix(rev, j, i);
    }
    WalkKeepsZone(t, rev, j + 1, m, target, rev[j..]);
    SameZoneSameAnswer(t, WalkTo(t, rev, j + 1, m, target), rev[j..], rev, s);
  }

  lemma SameZoneSameAnswer(t: Server, u: Server, home: Name, rev: Name, s: Server)
    requires s.Keys == t.Keys == u.Keys && Authority(s, rev) == Some(home) && t[home] == u[home]
    ensures Lookup(u, rev, PTR) == Lookup(t, rev, PTR)
  {
    SameAuthority(s, t, rev);
    SameAuthority(s, u, rev);
  }

  /** delete_host looks at the last zone of each address, after the addresses before it. */
  lemma {:induction false} ReportedSome(s: Server, ips: seq<Ip>, target: Name)
    ensures PointersReported(s, ips, target) <==>
            exists i :: 0 <= i < |ips| && ReportsAt(s, ips, target, i)
    decreases |ips|
  {
    if ips != [] {
      var t := WalkDelete(s, ReverseName(ips[0]), 1, target);
      ReportedSome(t, ips[1..], target);
      assert ips[..0] == [] && PointersDeleted(s, [], target) == s;
      forall i | 0 <= i < |ips| - 1
        ensures ReportsAt(t, ips[1..], target, i) <==> ReportsAt(s, ips, target, i + 1)
      {
        assert ips[..i + 1][0] == ips[0] && ips[..i + 1][1..] == ips[1..][..i];
      }
      if i :| 0 <= i < |ips| && ReportsAt(s, ips, target, i) {
        assert i > 0 ==> ReportsAt(t, ips[1..], target, i - 1);
      }
      assert ReportsAt(s, ips, target, 0) <==> WalkStatus(s, ReverseName(ips[0]), 1, target).Done?;
    }
  }

  /** The deletion in the last zone of the i-th address was accepted. */
  ghost predicate ReportsAt(s: Server, ips: seq<Ip>, target: Name, i: nat)
    requires i < |ips|
  {
    WalkStatus(PointersDeleted(s, ips[..i], target), ReverseName(ips[i]), 1, target).Done?
  }

  /** A server on which delete_host deletes the pointer and reports that it deleted nothing. */
  lemma DeletionUnreported(zone: Name, name: Name, ttl: nat, ip: Ip) returns (s: Server)
    requires |zone| == 2 && |name| == 1
    ensures ListsAddresses([ip], Lookup(s, name + zone, A))
    ensures var (t, status) := Deleted(s, zone, name + zone, None, None);
            status.Refused? && !PointersReported(t, [ip], name + zone)
    ensures Points(s, ReverseName(ip), name + zone)
    ensures !Points(HostDeleted(s, zone, name, [ip]), ReverseName(ip), name + zone)
  {
    var n, rev, top := name + zone, ReverseName(ip), zone[1..];
    s := map[top := map[RKey(n, A) := RRset(ttl, {Rdata(A, ip)})],
      rev[1..] := map[RKey(rev, PTR) := RRset(ttl, {Rdata(PTR, n)})]];
    assert |rev| == 6 && |rev[1..]| == 5 && |n| == 3 && |top| == 1;
    assert n[2..] == top;
    assert rev[0..] == rev && n[0..] == n && rev !in s;
    FirstZone(s, rev, 0, 1);
    assert n !in s && n[1..] !in s;
    FirstZone(s, n, 0, 2);
    assert zone !in s;
    assert Deleted(s, zone, n, None, None) == (s, Refused);
    assert rev[3..] !in s;
    ReportedIff(s, rev, 1, n);
    WalkDeleteClears(s, rev, 1, 1, n);
    assert [ip][1..] == [];
    assert PointersDeleted(s, [ip], n) == WalkDelete(s, rev, 1, n);
  }
}
