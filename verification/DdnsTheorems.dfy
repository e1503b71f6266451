/** What one update and one deletion achieve: exact conditions and frames. */
module DdnsTheorems {
  import opened Prelude
  import opened DdnsServer
  import opened Ddns

  // ---------------------------------------------------------------- one update

  lemma TwoChanges(z: Zone, apex: Name, a: Change, b: Change)
    ensures ProcessAll(z, apex, [a]) == Process(z, apex, a)
    ensures ProcessAll(z, apex, [a, b]) == Process(Process(z, apex, a), apex, b)
  {
    var y := Process(z, apex, a);
    assert [a, b][1..] == [b] && [b][1..] == [] && [a][1..] == [];
    assert ProcessAll(y, apex, []) == y;
    assert ProcessAll(z, apex, [a]) == ProcessAll(y, apex, [a][1..]);
    assert ProcessAll(Process(y, apex, b), apex, []) == Process(y, apex, b);
    assert ProcessAll(y, apex, [b]) == ProcessAll(Process(y, apex, b), apex, [b][1..]);
    assert ProcessAll(z, apex, [a, b]) == ProcessAll(y, apex, [a, b][1..]);
  }

  /** Two servers hold the same zones and differ at most in one RRset of one zone. */
  ghost predicate DiffersAt(s: Server, t: Server, zone: Name, key: RKey) {
    && s.Keys == t.Keys
    && (forall z :: z in s && z != zone ==> t[z] == s[z])
    && (zone in s ==> SameBut(s[zone], t[zone], key))
  }

  lemma UpdatedFrame(s: Server, zone: Name, n: Name, ttl: nat, r: Rdata, replace: bool, onChange: bool)
    ensures DiffersAt(s, Updated(s, zone, n, ttl, r, replace, onChange).0, zone, RKey(n, r.rtype))
  {
    if zone in s {
      ZoneFrame(s[zone], zone, n, ttl, r);
    }
  }

  /** Outside of one key two zones agree. */
  ghost predicate SameBut(y: Zone, z: Zone, key: RKey) {
    forall k :: k != key ==> (k in y <==> k in z) && (k in y ==> y[k] == z[k])
  }

  lemma ZoneFrame(z: Zone, apex: Name, n: Name, ttl: nat, r: Rdata)
    ensures SameBut(z, ProcessAll(z, apex, [Insert(n, ttl, r)]), RKey(n, r.rtype))
    ensures SameBut(z, ProcessAll(z, apex, [DropRRset(n, r.rtype), Insert(n, ttl, r)]), RKey(n, r.rtype))
  {
    TwoChanges(z, apex, DropRRset(n, r.rtype), Insert(n, ttl, r));
    TwoChanges(z, apex, Insert(n, ttl, r), Insert(n, ttl, r));
    OneFrame(z, apex, Insert(n, ttl, r), RKey(n, r.rtype));
    OneFrame(z, apex, DropRRset(n, r.rtype), RKey(n, r.rtype));
    OneFrame(Process(z, apex, DropRRset(n, r.rtype)), apex, Insert(n, ttl, r), RKey(n, r.rtype));
  }

  lemma OneFrame(z: Zone, apex: Name, c: Change, key: RKey)
    requires c.name == key.name && (c.Insert? ==> c.rdata.rtype == key.rtype) && (c.DropRRset? ==> c.rtype == key.rtype)
    requires c.Insert? || c.DropRRset?
    ensures SameBut(z, Process(z, apex, c), key)
  {
  }

  lemma LookupFrame(s: Server, t: Server, zone: Name, key: RKey, n: Name, ty: RType)
    requires DiffersAt(s, t, zone, key)
    ensures Authority(t, n) == Authority(s, n)
    ensures RKey(n, ty) != key || Authority(s, n) != Some(zone) ==> Lookup(t, n, ty) == Lookup(s, n, ty)
  {
    SameAuthority(s, t, n);
  }

  lemma SameBlocked(s: Server, t: Server, zone: Name, key: RKey, z: Name, n: Name, ty: RType)
    requires DiffersAt(s, t, zone, key) && z in s
    requires key.name == n ==> ty != CNAME && key.rtype != CNAME
    ensures Blocked(t[z], n, ty) == Blocked(s[z], n, ty)
  {
    if z == zone {
      assert forall k: RKey :: k.name == n && k != key ==> (k in t[z] <==> k in s[z]);
    }
  }

  /** The RRset consists of exactly the requested record with the requested TTL. */
  predicate Exact(s: Server, n: Name, ttl: nat, r: Rdata) {
    Lookup(s, n, r.rtype) == Some(RRset(ttl, {r}))
  }

  /** The RRset contains the requested record and has the requested TTL. */
  predicate Held(s: Server, n: Name, ttl: nat, r: Rdata) {
    Lookup(s, n, r.rtype).Some? && Lookup(s, n, r.rtype).value.ttl == ttl && r in Lookup(s, n, r.rtype).value.items
  }

  /** The update is sent to the closest zone, and no CNAME is in the way of a first record. */
  predicate Takes(s: Server, zone: Name, n: Name, r: Rdata) {
    Authority(s, n) == Some(zone) && (Lookup(s, n, r.rtype).None? ==> !Blocked(s[zone], n, r.rtype))
  }

  /** The other records of the RRset go: it is replaced, or a CNAME takes the place of another. */
  predicate Drops(items: set<Rdata>, r: Rdata, replace: bool, onChange: bool) {
    replace || (onChange && r !in items) || r.rtype == CNAME
  }

  /** The RRset was empty or a singleton of the requested data, or its other records go. */
  predicate Replaceable(s: Server, zone: Name, n: Name, r: Rdata, replace: bool, onChange: bool) {
    var answer := Lookup(s, n, r.rtype);
    || answer.None?
    || answer.value.items == {r}
    || (Drops(answer.value.items, r, replace, onChange) && !(n == zone && r.rtype == NS))
  }

  /** The RRset after an update that reaches the zone, from the one before. */
  function NewRRset(before: Option<RRset>, blocked: bool, apexNs: bool, ttl: nat, r: Rdata, replace: bool,
                    onChange: bool): Option<RRset> {
    if before.None? then if blocked then None else Some(RRset(ttl, {r}))
    else if Drops(before.value.items, r, replace, onChange) && !apexNs then Some(RRset(ttl, {r}))
    else Some(RRset(ttl, before.value.items + {r}))
  }

  function At(z: Zone, k: RKey): Option<RRset> {
    if k in z then Some(z[k]) else None
  }

  lemma UpdatedRRset(s: Server, zone: Name, n: Name, ttl: nat, r: Rdata, replace: bool, onChange: bool)
    requires Consistent(s) && Authority(s, n) == Some(zone)
    ensures Lookup(Updated(s, zone, n, ttl, r, replace, onChange).0, n, r.rtype) ==
            NewRRset(Lookup(s, n, r.rtype), Blocked(s[zone], n, r.rtype), n == zone && r.rtype == NS, ttl, r, replace,
              onChange)
  {
    var answer := Lookup(s, n, r.rtype);
    assert answer == At(s[zone], RKey(n, r.rtype));
    assert ConsistentZone(s[zone]);
    InsertedRRset(s[zone], zone, n, ttl, r);
    ReplacedRRset(s[zone], zone, n, ttl, r);
    SentToClosest(s, zone, n, r.rtype, [Insert(n, ttl, r)]);
    SentToClosest(s, zone, n, r.rtype, [DropRRset(n, r.rtype), Insert(n, ttl, r)]);
    if answer.Some? && r in answer.value.items {
      SingleCname(s[zone], n, r);
      assert answer.value.items + {r} == answer.value.items;
    }
  }

  /** A message to the closest zone is accepted, and lookups show what it did. */
  lemma SentToClosest(s: Server, zone: Name, n: Name, ty: RType, changes: seq<Change>)
    requires Authority(s, n) == Some(zone)
    ensures Sent(s, zone, n, changes) == (s[zone := ProcessAll(s[zone], zone, changes)], Done)
    ensures Lookup(Sent(s, zone, n, changes).0, n, ty) == At(ProcessAll(s[zone], zone, changes), RKey(n, ty))
  {
    AuthorityAccepts(s, n);
    SameAuthority(s, s[zone := ProcessAll(s[zone], zone, changes)], n);
  }

  lemma InsertedRRset(z: Zone, apex: Name, n: Name, ttl: nat, r: Rdata)
    requires ConsistentZone(z)
    ensures At(ProcessAll(z, apex, [Insert(n, ttl, r)]), RKey(n, r.rtype)) ==
            NewRRset(At(z, RKey(n, r.rtype)), Blocked(z, n, r.rtype), false, ttl, r, false, false)
  {
    TwoChanges(z, apex, Insert(n, ttl, r), Insert(n, ttl, r));
    if RKey(n, r.rtype) in z {
      NotBlocked(z, apex, n, r.rtype);
    }
  }

  lemma SingleCname(z: Zone, n: Name, r: Rdata)
    requires ConsistentZone(z) && RKey(n, r.rtype) in z && r in z[RKey(n, r.rtype)].items
    ensures r.rtype == CNAME ==> z[RKey(n, r.rtype)].items == {r}
  {
    if r.rtype == CNAME {
      var x :| z[RKey(n, r.rtype)].items == {x};
    }
  }

  lemma ReplacedRRset(z: Zone, apex: Name, n: Name, ttl: nat, r: Rdata)
    requires ConsistentZone(z)
    ensures At(ProcessAll(z, apex, [DropRRset(n, r.rtype), Insert(n, ttl, r)]), RKey(n, r.rtype)) ==
            NewRRset(At(z, RKey(n, r.rtype)), Blocked(z, n, r.rtype), n == apex && r.rtype == NS, ttl, r, true, false)
  {
    TwoChanges(z, apex, DropRRset(n, r.rtype), Insert(n, ttl, r));
    if RKey(n, r.rtype) in z {
      NotBlocked(z, apex, n, r.rtype);
    } else {
      assert Process(z, apex, DropRRset(n, r.rtype)) == z;
    }
  }

  /** Beside an RRset of the same type nothing blocks an addition, before or after it is dropped. */
  lemma NotBlocked(z: Zone, apex: Name, n: Name, ty: RType)
    requires ConsistentZone(z) && RKey(n, ty) in z
    ensures !Blocked(z, n, ty) && !Blocked(Process(z, apex, DropRRset(n, ty)), n, ty)
    ensures ty == CNAME ==> exists r :: z[RKey(n, ty)].items == {r}
  {
  }

  /** For all flags, one update leaves exactly the requested record if and only if this holds. */
  lemma ExactIff(s: Server, zone: Name, n: Name, ttl: nat, r: Rdata, replace: bool, onChange: bool)
    requires Consistent(s)
    ensures Exact(Updated(s, zone, n, ttl, r, replace, onChange).0, n, ttl, r) <==>
            Exact(s, n, ttl, r) || (Takes(s, zone, n, r) && Replaceable(s, zone, n, r, replace, onChange))
  {
    var t := Updated(s, zone, n, ttl, r, replace, onChange).0;
    if Authority(s, n) == Some(zone) {
      UpdatedRRset(s, zone, n, ttl, r, replace, onChange);
      ExtraItem(s, zone, n, r);
    } else {
      UpdatedFrame(s, zone, n, ttl, r, replace, onChange);
      LookupFrame(s, t, zone, RKey(n, r.rtype), n, r.rtype);
    }
  }

  /** Adding to a nonempty set gives the singleton only if it was one. */
  lemma ExtraItem(s: Server, zone: Name, n: Name, r: Rdata)
    requires Consistent(s) && Authority(s, n) == Some(zone)
    ensures var answer := Lookup(s, n, r.rtype);
            answer.Some? ==> (answer.value.items + {r} == {r} <==> answer.value.items == {r})
  {
    assert ConsistentZone(s[zone]);
    var answer := Lookup(s, n, r.rtype);
    if answer.Some? && answer.value.items + {r} == {r} {
      var x :| x in answer.value.items;
      assert x in {r};
    }
  }

  /** The record is held afterwards if and only if it was, or the update reaches the zone unblocked. */
  lemma HeldIff(s: Server, zone: Name, n: Name, ttl: nat, r: Rdata, replace: bool, onChange: bool)
    requires Consistent(s)
    ensures Held(Updated(s, zone, n, ttl, r, replace, onChange).0, n, ttl, r)
            <==> Held(s, n, ttl, r) || Takes(s, zone, n, r)
  {
    var t := Updated(s, zone, n, ttl, r, replace, onChange).0;
    if Authority(s, n) == Some(zone) {
      UpdatedRRset(s, zone, n, ttl, r, replace, onChange);
    } else {
      UpdatedFrame(s, zone, n, ttl, r, replace, onChange);
      LookupFrame(s, t, zone, RKey(n, r.rtype), n, r.rtype);
    }
  }

  /** Of two records the one asked for is already there: replacement on change leaves the other. */
  lemma OtherRecordStays(zone: Name, n: Name, ttl: nat, r: Rdata, other: Rdata)
    requires Under(n, zone) && r != other && r.rtype == other.rtype == A
    ensures var s := map[zone := map[RKey(n, A) := RRset(ttl, {r, other})]];
            Consistent(s) && !Exact(Updated(s, zone, n, ttl, r, false, true).0, n, ttl, r)
  {
    var z: Zone := map[RKey(n, A) := RRset(ttl, {r, other})];
    var s := map[zone := z];
    OnlyZone(s, zone, n);
    assert ConsistentZone(z);
    assert Lookup(s, n, A) == Some(RRset(ttl, {r, other}));
    assert other in {r, other} && other !in {r};
    ExactIff(s, zone, n, ttl, r, false, true);
  }

  /** With one zone, that zone answers for every name under it. */
  lemma OnlyZone(s: Server, zone: Name, n: Name)
    requires s.Keys == {zone} && Under(n, zone)
    ensures Authority(s, n) == Some(zone)
  {
    AuthorityIsClosest(s, n, zone);
  }

  /** A server stays consistent under updates. */
  lemma ProcessConsistent(z: Zone, apex: Name, c: Change)
    requires ConsistentZone(z) && !c.DropRdata? && !c.DropName?
    ensures ConsistentZone(Process(z, apex, c))
  {
    var y := Process(z, apex, c);
    if c.Insert? && !Blocked(z, c.name, c.rdata.rtype) {
      assert c.rdata.rtype == CNAME ==> y[RKey(c.name, CNAME)].items == {c.rdata};
      assert forall k :: k in y && k != RKey(c.name, c.rdata.rtype) ==> k in z && y[k] == z[k];
    } else {
      assert forall k :: k in y ==> k in z && y[k] == z[k];
    }
  }

  lemma UpdatedConsistent(s: Server, zone: Name, n: Name, ttl: nat, r: Rdata, replace: bool, onChange: bool)
    requires Consistent(s)
    ensures Consistent(Updated(s, zone, n, ttl, r, replace, onChange).0)
  {
    if zone in s {
      assert ConsistentZone(s[zone]);
      var a, b := DropRRset(n, r.rtype), Insert(n, ttl, r);
      TwoChanges(s[zone], zone, a, b);
      TwoChanges(s[zone], zone, b, b);
      ProcessConsistent(s[zone], zone, a);
      ProcessConsistent(s[zone], zone, b);
      ProcessConsistent(Process(s[zone], zone, a), zone, b);
    }
  }

  // ---------------------------------------------------------------- one deletion

  /** `t` shows no record that `s` does not show. */
  ghost predicate Fewer(s: Server, t: Server) {
    && s.Keys == t.Keys
    && forall z, k :: z in s && k in t[z] ==> k in s[z] && t[z][k].items <= s[z][k].items
  }

  lemma FewerLookup(s: Server, t: Server, n: Name, ty: RType)
    requires Fewer(s, t)
    ensures Lookup(t, n, ty).Some? ==>
              Lookup(s, n, ty).Some? && Lookup(t, n, ty).value.items <= Lookup(s, n, ty).value.items
  {
    SameAuthority(s, t, n);
  }

  lemma DeletedFewer(s: Server, zone: Name, n: Name, rtype: Option<RType>, data: Option<seq<string>>)
    ensures Fewer(s, Deleted(s, zone, n, rtype, data).0)
  {
    if zone in s {
      TwoChanges(s[zone], zone, Dropped(n, rtype, data), Dropped(n, rtype, data));
    }
  }

  lemma DroppedFromZone(z: Zone, apex: Name, n: Name, rtype: Option<RType>, data: Option<seq<string>>)
    requires n != apex || (rtype.Some? && rtype.value != NS)
    ensures var y := ProcessAll(z, apex, [Dropped(n, rtype, data)]);
            if rtype.None? then forall k :: k in y ==> k.name != n
            else if data.None? then RKey(n, rtype.value) !in y
            else RKey(n, rtype.value) in y ==> Rdata(rtype.value, data.value) !in y[RKey(n, rtype.value)].items
  {
    TwoChanges(z, apex, Dropped(n, rtype, data), Dropped(n, rtype, data));
  }

  /** The deletion may touch this RRset: its name, and its type if one is given. */
  ghost predicate Named(k: RKey, n: Name, rtype: Option<RType>) {
    k.name == n && (rtype.None? || rtype.value == k.rtype)
  }

  /**
   A deletion leaves other zones, names and types alone; of a named RRset it leaves all, all but the
   given data, or nothing.
   */
  lemma DeletedFrame(s: Server, zone: Name, n: Name, rtype: Option<RType>, data: Option<seq<string>>)
    ensures var t := Deleted(s, zone, n, rtype, data).0;
            && t.Keys == s.Keys
            && (forall z :: z in s && z != zone ==> t[z] == s[z])
            && (zone in s ==> forall k :: !Named(k, n, rtype) ==> At(t[zone], k) == At(s[zone], k))
            && (zone in s && rtype.Some? && data.Some? ==>
                  DroppedOne(At(s[zone], RKey(n, rtype.value)), At(t[zone], RKey(n, rtype.value)),
                    Rdata(rtype.value, data.value)))
  {
    if zone in s {
      TwoChanges(s[zone], zone, Dropped(n, rtype, data), Dropped(n, rtype, data));
    }
  }

  /** Without the data the TTL and the other records are as before. */
  ghost predicate DroppedOne(before: Option<RRset>, after: Option<RRset>, r: Rdata) {
    || after == before
    || (before.Some? && after == Some(RRset(before.value.ttl, before.value.items - {r})))
    || (before.Some? && after.None? && before.value.items <= {r})
  }

  /** Nothing that `absent` was asked to remove is left. */
  predicate Gone(s: Server, n: Name, rtype: Option<RType>, data: Option<seq<string>>) {
    if rtype.None? then !HasAny(s, n)
    else if data.None? then Lookup(s, n, rtype.value).None?
    else Lookup(s, n, rtype.value).Some? ==> Rdata(rtype.value, data.value) !in Lookup(s, n, rtype.value).value.items
  }

  /** The name server records at the apex that a server does not give up. */
  predicate KeptNs(s: Server, zone: Name, n: Name, rtype: Option<RType>, data: Option<seq<string>>) {
    var answer := Lookup(s, zone, NS);
    && n == zone && answer.Some?
    && (rtype.None? || (rtype.value == NS && (data.None? || answer.value.items == {Rdata(NS, data.value)})))
  }

  /**
   `absent` removes what it names if and only if it is sent to the closest zone and does not ask
   for the last name servers of the apex; sent elsewhere it achieves nothing.
   */
  lemma AbsentAchieves(s: Server, zone: Name, n: Name, rtype: Option<RType>, data: Option<seq<string>>)
    ensures var t := Deleted(s, zone, n, rtype, data).0;
            Gone(t, n, rtype, data) <==>
              if Authority(s, n) == Some(zone) then !KeptNs(s, zone, n, rtype, data) else Gone(s, n, rtype, data)
  {
    var t := Deleted(s, zone, n, rtype, data).0;
    DeletedFewer(s, zone, n, rtype, data);
    SameAuthority(s, t, n);
    if Authority(s, n) == Some(zone) {
      if n == zone && (rtype.None? || rtype.value == NS) {
        KeptAtApex(s, zone, rtype, data);
        AnyIffSome(t, zone);
        assert rtype.None? ==> Lookup(t, zone, NS) == Lookup(s, zone, NS);
        if rtype.Some? && data.Some? && Lookup(s, zone, NS).Some? {
          LastOne(Lookup(s, zone, NS).value.items, Rdata(NS, data.value));
        }
      } else {
        AuthorityAccepts(s, n);
        DroppedFromZone(s[zone], zone, n, rtype, data);
      }
    }
  }

  lemma AnyIffSome(s: Server, n: Name)
    ensures HasAny(s, n) <==> exists ty :: Lookup(s, n, ty).Some?
  {
    if HasAny(s, n) {
      var k :| k in s[Authority(s, n).value] && k.name == n;
      assert RKey(n, k.rtype) == k;
      assert Lookup(s, n, k.rtype).Some?;
    }
  }

  lemma LastOne(items: set<Rdata>, r: Rdata)
    ensures items == {r} <==> r in items && items - {r} == {}
  {
    if r in items && items - {r} == {} {
      assert items == (items - {r}) + {r};
    }
  }

  /** At the apex everything but the name servers goes, and of these all but the last. */
  lemma KeptAtApex(s: Server, zone: Name, rtype: Option<RType>, data: Option<seq<string>>)
    requires zone in s && (rtype.None? || rtype.value == NS)
    ensures var t, before := Deleted(s, zone, zone, rtype, data).0, Lookup(s, zone, NS);
            && (rtype.None? ==> forall ty :: Lookup(t, zone, ty) == if ty == NS then before else None)
            && (rtype.Some? && data.None? ==> t == s)
            && (rtype.Some? && data.Some? ==>
                  Lookup(t, zone, NS) ==
                    if before.Some? && before.value.items - {Rdata(NS, data.value)} != {} then
                      Some(RRset(before.value.ttl, before.value.items - {Rdata(NS, data.value)}))
                    else before)
  {
    var t := Deleted(s, zone, zone, rtype, data).0;
    DeletedFewer(s, zone, zone, rtype, data);
    SameAuthority(s, t, zone);
    TwoChanges(s[zone], zone, Dropped(zone, rtype, data), Dropped(zone, rtype, data));
  }

  /** After a first call sent to the closest zone a second one still finds something. */
  predicate StillFinds(s: Server, zone: Name, n: Name, rtype: Option<RType>, data: Option<seq<string>>) {
    if rtype.None? || data.None? then KeptNs(s, zone, n, rtype, data)
    else
      var answer := Lookup(s, n, rtype.value);
      answer.Some? && (answer.value.items - {Rdata(rtype.value, data.value)} != {} || (n == zone && rtype.value == NS))
  }

  /**
   A second call changes nothing. It reports no change exactly when it finds nothing more; sent
   to a zone that is not the closest one it reports what the first one did.
   */
  lemma AbsentTwice(s: Server, zone: Name, n: Name, rtype: Option<RType>, data: Option<seq<string>>)
    ensures var (t, first) := Deleted(s, zone, n, rtype, data);
            var (u, second) := Deleted(t, zone, n, rtype, data);
            && u == t
            && (Authority(s, n) == Some(zone) ==> (second.Unchanged? <==> !StillFinds(s, zone, n, rtype, data)))
            && (Authority(s, n) != Some(zone) ==> second == first)
  {
    DeletedTwice(s, zone, n, rtype, data);
    if Authority(s, n) != Some(zone) {
      HiddenTwice(s, zone, n, rtype, data);
    } else if rtype.None? || data.None? {
      AbsentAchieves(s, zone, n, rtype, data);
    } else {
      DataTwice(s, zone, n, rtype.value, data.value);
    }
  }

  lemma DeletedTwice(s: Server, zone: Name, n: Name, rtype: Option<RType>, data: Option<seq<string>>)
    ensures var t := Deleted(s, zone, n, rtype, data).0; Deleted(t, zone, n, rtype, data).0 == t
  {
    if zone in s {
      DropTwice(s[zone], zone, n, rtype, data);
    }
  }

  lemma HiddenTwice(s: Server, zone: Name, n: Name, rtype: Option<RType>, data: Option<seq<string>>)
    requires Authority(s, n) != Some(zone)
    ensures var t := Deleted(s, zone, n, rtype, data).0;
            Deleted(t, zone, n, rtype, data).1 == Deleted(s, zone, n, rtype, data).1
  {
    DeletedFewer(s, zone, n, rtype, data);
    SameAuthority(s, Deleted(s, zone, n, rtype, data).0, n);
  }

  lemma DataTwice(s: Server, zone: Name, n: Name, rtype: RType, data: seq<string>)
    requires Authority(s, n) == Some(zone)
    ensures var t := Deleted(s, zone, n, Some(rtype), Some(data)).0;
            Lookup(t, n, rtype).None? <==> !StillFinds(s, zone, n, Some(rtype), Some(data))
  {
    DeletedFewer(s, zone, n, Some(rtype), Some(data));
    SameAuthority(s, Deleted(s, zone, n, Some(rtype), Some(data)).0, n);
    AuthorityAccepts(s, n);
    DroppedData(s[zone], zone, n, Rdata(rtype, data));
  }

  /** What is left of an RRset after one of its records was dropped. */
  lemma DroppedData(z: Zone, apex: Name, n: Name, r: Rdata)
    ensures RKey(n, r.rtype) in ProcessAll(z, apex, [DropRdata(n, r)])
            <==> RKey(n, r.rtype) in z && (z[RKey(n, r.rtype)].items - {r} != {} || (n == apex && r.rtype == NS))
  {
    TwoChanges(z, apex, DropRdata(n, r), DropRdata(n, r));
  }

  /** A zone with one name server: `absent` for its apex leaves it, however often it reports a change. */
  lemma NameServerStays(zone: Name, ttl: nat, server: seq<string>)
    ensures var s := map[zone := map[RKey(zone, NS) := RRset(ttl, {Rdata(NS, server)})]];
            var (t, first) := Deleted(s, zone, zone, None, None);
            !Gone(t, zone, None, None) && first.Done? && Deleted(t, zone, zone, None, None).1.Done?
  {
    var z: Zone := map[RKey(zone, NS) := RRset(ttl, {Rdata(NS, server)})];
    var s := map[zone := z];
    assert RKey(zone, NS) in z;
    assert KeptNs(s, zone, zone, None, None);
    AbsentAchieves(s, zone, zone, None, None);
    AbsentTwice(s, zone, zone, None, None);
  }

  lemma DropTwice(z: Zone, apex: Name, n: Name, rtype: Option<RType>, data: Option<seq<string>>)
    ensures var c := [Dropped(n, rtype, data)]; ProcessAll(ProcessAll(z, apex, c), apex, c) == ProcessAll(z, apex, c)
  {
    var c := Dropped(n, rtype, data);
    TwoChanges(z, apex, c, c);
    var y := Process(z, apex, c);
    TwoChanges(y, apex, c, c);
    if c.DropRdata? && RKey(n, c.rdata.rtype) in y && z[RKey(n, c.rdata.rtype)].items - {c.rdata} != {} {
      assert y[RKey(n, c.rdata.rtype)].items - {c.rdata} == y[RKey(n, c.rdata.rtype)].items;
    }
    assert Process(y, apex, c) == y;
  }
}
