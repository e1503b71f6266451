/**
 What every run keeps, completed or not: the keys of each of its zones, that a name is not broken
 in between, and that addresses stay available.
 */
module CloudflareTheorems {
  import opened Prelude
  import opened CloudflareRecords
  import opened CloudflarePlan
  import opened CloudflareZone

  // ---------------------------------------------------------------- keys of every zone of a run

  /** How the planned operations relate to the zone they were planned from. */
  ghost predicate Sound(ops: seq<Op>, s: Remote, exclude: seq<Pattern>) {
    && Separate(ops, s)
    && (forall i :: 0 <= i < |ops| ==> ops[i].record.saltManaged)
    && (forall i :: 0 <= i < |ops| && !ops[i].action.Add? ==>
          BodyKey(s.records[ops[i].record.id.value]) == ops[i].record.KeyOf() && !Excluded(exclude, ops[i].record.name))
    && (forall i :: 0 <= i < |ops| && ops[i].action.Add? && !Excluded(exclude, ops[i].record.name) ==>
          !HasKey(s.records, ops[i].record.KeyOf()))
    && (forall i, j :: 0 <= i < j < |ops| ==> ops[i].record.KeyOf() != ops[j].record.KeyOf())
  }

  lemma PlanSound(s: Remote, exclude: seq<Pattern>, existing: seq<Record>, wanted: seq<Record>, ops: seq<Op>)
    requires Prepared(s, exclude, existing, wanted, ops)
    ensures Sound(ops, s, exclude)
  {
    PlanSeparate(s, exclude, existing, wanted, ops);
    forall i | 0 <= i < |ops|
      ensures ops[i].record.saltManaged
      ensures !ops[i].action.Add? ==>
                BodyKey(s.records[ops[i].record.id.value]) == ops[i].record.KeyOf()
                  && !Excluded(exclude, ops[i].record.name)
      ensures ops[i].action.Add? && !Excluded(exclude, ops[i].record.name) ==> !HasKey(s.records, ops[i].record.KeyOf())
    {
      TargetHeld(s, exclude, existing, wanted, ops, ops[i]);
      if ops[i].action.Add? && !Excluded(exclude, ops[i].record.name) {
        IndexedIffHeld(s, exclude, existing, ops[i].record.KeyOf());
        assert IsChange(ops[i], Index(existing), Index(wanted), Flags(wanted));
      }
    }
    forall i, j | 0 <= i < j < |ops|
      ensures ops[i].record.KeyOf() != ops[j].record.KeyOf()
    {
      if ops[i].record.KeyOf() == ops[j].record.KeyOf() {
        OncePerKey(s, exclude, existing, wanted, ops, i, j);
      }
    }
  }

  /** Among the first `k` operations there is one of this kind for this key. */
  ghost predicate Happened(ops: seq<Op>, k: nat, action: Action, key: Key)
    requires k <= |ops|
  {
    exists i :: 0 <= i < k && ops[i].action == action && ops[i].record.KeyOf() == key
  }

  lemma HappenedStays(ops: seq<Op>, k: nat, action: Action, key: Key)
    requires k <= |ops|
    ensures Happened(ops, k, action, key) ==> Happened(ops, |ops|, action, key)
  {
  }

  lemma OldRecord(ops: seq<Op>, trace: seq<Remote>, exclude: seq<Pattern>, k: nat, id: Id)
    requires IsRun(ops, trace) && Sound(ops, trace[0], exclude) && k < |trace| && After(ops, trace, k)
    requires id in trace[k].records && id < trace[0].next
    ensures id in trace[0].records && BodyKey(trace[k].records[id]) == BodyKey(trace[0].records[id])
  {
    if i :| 0 <= i < k && Touches(ops, i, id) {
      assert Done(ops, trace, i, trace[k]);
    }
  }

  lemma NewRecord(ops: seq<Op>, trace: seq<Remote>, exclude: seq<Pattern>, k: nat, id: Id) returns (i: nat)
    requires IsRun(ops, trace) && Sound(ops, trace[0], exclude) && k < |trace| && After(ops, trace, k)
    requires id in trace[k].records && trace[0].next <= id
    ensures i < k && Made(ops, trace, i, id) && trace[k].records[id] == ops[i].record.Json()
    ensures BodyKey(trace[k].records[id]) == ops[i].record.KeyOf()
  {
    i :| 0 <= i < k && Made(ops, trace, i, id);
    assert Done(ops, trace, i, trace[k]);
  }

  /** The keys of every zone: what the old zone held, minus the removed ones, plus the added ones. */
  lemma KeysAfter(ops: seq<Op>, trace: seq<Remote>, exclude: seq<Pattern>, k: nat, key: Key)
    requires IsRun(ops, trace) && Sound(ops, trace[0], exclude) && Distinct(trace[0].records, exclude)
    requires k < |trace|
    ensures HasKey(trace[k].records, key) <==>
            (HasKey(trace[0].records, key) && !Happened(ops, k, Remove, key)) || Happened(ops, k, Add, key)
  {
    RunReaches(ops, trace, k);
    if HasKey(trace[k].records, key) {
      KeyHasOrigin(ops, trace, exclude, k, key);
    }
    if Happened(ops, k, Add, key) {
      var i :| 0 <= i < k && ops[i].action == Add && ops[i].record.KeyOf() == key;
      assert Done(ops, trace, i, trace[k]);
      assert BodyKey(trace[k].records[trace[i + 1].next - 1]) == key;
    }
    if HasKey(trace[0].records, key) && !Happened(ops, k, Remove, key) {
      KeyStays(ops, trace, exclude, k, key);
    }
  }

  lemma KeyHasOrigin(ops: seq<Op>, trace: seq<Remote>, exclude: seq<Pattern>, k: nat, key: Key)
    requires IsRun(ops, trace) && Sound(ops, trace[0], exclude) && Distinct(trace[0].records, exclude)
    requires k < |trace| && After(ops, trace, k) && HasKey(trace[k].records, key)
    ensures (HasKey(trace[0].records, key) && !Happened(ops, k, Remove, key)) || Happened(ops, k, Add, key)
  {
    var id :| id in trace[k].records && BodyKey(trace[k].records[id]) == key;
    if id < trace[0].next {
      OldRecord(ops, trace, exclude, k, id);
      forall i | 0 <= i < k && ops[i].action == Remove
        ensures ops[i].record.KeyOf() != key
      {
        assert Done(ops, trace, i, trace[k]);
      }
    } else {
      var i := NewRecord(ops, trace, exclude, k, id);
    }
  }

  lemma KeyStays(ops: seq<Op>, trace: seq<Remote>, exclude: seq<Pattern>, k: nat, key: Key)
    requires IsRun(ops, trace) && Sound(ops, trace[0], exclude)
    requires k < |trace| && After(ops, trace, k)
    requires HasKey(trace[0].records, key) && !Happened(ops, k, Remove, key)
    ensures HasKey(trace[k].records, key)
  {
    var id :| id in trace[0].records && BodyKey(trace[0].records[id]) == key;
    if i :| 0 <= i < k && Touches(ops, i, id) {
      assert Done(ops, trace, i, trace[k]);
      assert ops[i].action == Update;
      assert BodyKey(trace[k].records[id]) == key;
    } else {
      assert trace[k].records[id] == trace[0].records[id];
    }
  }

  /** No call makes two visible records alike. */
  lemma DistinctAfter(ops: seq<Op>, trace: seq<Remote>, exclude: seq<Pattern>, k: nat)
    requires IsRun(ops, trace) && Sound(ops, trace[0], exclude) && Distinct(trace[0].records, exclude)
    requires k < |trace|
    ensures Distinct(trace[k].records, exclude)
  {
    RunReaches(ops, trace, k);
    var t := trace[k].records;
    forall x, y | x in t && y in t && x < y && !Excluded(exclude, t[x].name)
      ensures BodyKey(t[x]) != BodyKey(t[y])
    {
      PairDistinct(ops, trace, exclude, k, x, y);
    }
  }

  lemma PairDistinct(ops: seq<Op>, trace: seq<Remote>, exclude: seq<Pattern>, k: nat, x: Id, y: Id)
    requires IsRun(ops, trace) && Sound(ops, trace[0], exclude) && Distinct(trace[0].records, exclude)
    requires k < |trace| && After(ops, trace, k) && x in trace[k].records && y in trace[k].records && x < y
    requires !Excluded(exclude, trace[k].records[x].name)
    ensures BodyKey(trace[k].records[x]) != BodyKey(trace[k].records[y])
  {
    var t := trace[k].records;
    if y < trace[0].next {
      OldRecord(ops, trace, exclude, k, x);
      OldRecord(ops, trace, exclude, k, y);
    } else {
      var j := NewRecord(ops, trace, exclude, k, y);
      if x < trace[0].next {
        OldRecord(ops, trace, exclude, k, x);
        assert HasKey(trace[0].records, BodyKey(t[x]));
      } else {
        var i := NewRecord(ops, trace, exclude, k, x);
      }
    }
  }

  // ---------------------------------------------------------------- no broken name in between

  /** At this name no CNAME stands beside another CNAME or an address. */
  ghost predicate Clean(zone: map<Id, Body>, name: string) {
    forall i, j :: i in zone && j in zone && i != j && zone[i].name == name && zone[j].name == name ==>
        !Clash(zone[i].rtype, zone[j].rtype)
  }

  /**
   In the order that applies to one name, a key about to vanish and a key already added never
   clash: the CNAME among them forces removals to come first.
   */
  lemma RemovalPrecedesClash(ops: seq<Op>, i: nat, j: nat)
    requires Ordered(ops) && i < |ops| && j < |ops|
    requires ops[i].action.Add? && ops[j].action.Remove? && ops[i].record.name == ops[j].record.name
    requires Clash(ops[i].record.rtype, ops[j].record.rtype)
    ensures j < i
  {
    assert ops[i] in ops && ops[j] in ops;
    assert CnameAt(ops, ops[i].record.name);
    assert SameGroup(ops[i], ops[j]);
  }

  // ---------------------------------------------------------------- where the plan leads

  /** The key is held once all operations are done. */
  ghost predicate PlannedKey(ops: seq<Op>, zone: map<Id, Body>, key: Key) {
    (HasKey(zone, key) && !Happened(ops, |ops|, Remove, key)) || Happened(ops, |ops|, Add, key)
  }

  /** The record is in the zone and no operation removes it. */
  ghost predicate Stays(ops: seq<Op>, zone: map<Id, Body>, name: string, id: Id) {
    && id in zone && zone[id].name == name
    && forall i :: 0 <= i < |ops| && ops[i].action.Remove? ==> ops[i].record.id != Some(id)
  }

  predicate AddsAt(ops: seq<Op>, i: int, name: string) {
    0 <= i < |ops| && ops[i].action.Add? && ops[i].record.name == name
  }

  /** Nothing clashes at the name once all operations are done: records that stay, and those to be added. */
  ghost predicate CleanPlan(ops: seq<Op>, zone: map<Id, Body>, name: string) {
    && (forall x, y :: Stays(ops, zone, name, x) && Stays(ops, zone, name, y) && x != y ==>
          !Clash(zone[x].rtype, zone[y].rtype))
    && (forall x, i :: Stays(ops, zone, name, x) && AddsAt(ops, i, name) ==> !Clash(zone[x].rtype, ops[i].record.rtype))
    && (forall i, j :: AddsAt(ops, i, name) && AddsAt(ops, j, name) && i < j ==>
          !Clash(ops[i].record.rtype, ops[j].record.rtype))
  }

  /** A completed run holds exactly the planned keys. */
  lemma CompletedHoldsPlan(ops: seq<Op>, trace: seq<Remote>, exclude: seq<Pattern>, key: Key)
    requires IsRun(ops, trace) && Sound(ops, trace[0], exclude) && Distinct(trace[0].records, exclude)
    requires |trace| == |ops| + 1
    ensures HasKey(trace[|ops|].records, key) <==> PlannedKey(ops, trace[0].records, key)
  {
    KeysAfter(ops, trace, exclude, |ops|, key);
  }

  /** A record of a zone of a run is an old one that stays or is removed later, or one added before. */
  ghost predicate HasOrigin(ops: seq<Op>, trace: seq<Remote>, k: nat, name: string, id: Id)
    requires k < |trace| <= |ops| + 1 && id in trace[k].records
  {
    || (Kept(trace, k, name, id) && Stays(ops, trace[0].records, name, id))
    || (Kept(trace, k, name, id) && exists j :: k <= j < |ops| && RemovesOld(ops, trace, j, id))
    || exists i :: 0 <= i < k && AddsAt(ops, i, name) && Made(ops, trace, i, id)
                   && ops[i].record.rtype == trace[k].records[id].rtype
  }

  /** The record is an old one with its old name and type. */
  ghost predicate Kept(trace: seq<Remote>, k: nat, name: string, id: Id)
    requires k < |trace| && id in trace[k].records
  {
    && id in trace[0].records && trace[0].records[id].name == name
    && trace[0].records[id].rtype == trace[k].records[id].rtype
  }

  ghost predicate RemovesOld(ops: seq<Op>, trace: seq<Remote>, j: nat, id: Id)
    requires j < |ops| && 0 < |trace|
  {
    && ops[j].action.Remove? && ops[j].record.id == Some(id)
    && id in trace[0].records && BodyKey(trace[0].records[id]) == ops[j].record.KeyOf()
  }

  /** A record that is there was not removed by the calls so far. */
  lemma NotRemovedYet(ops: seq<Op>, trace: seq<Remote>, k: nat, id: Id)
    requires k < |trace| <= |ops| + 1 && After(ops, trace, k) && id in trace[k].records
    ensures forall j :: 0 <= j < k && ops[j].action.Remove? ==> ops[j].record.id != Some(id)
  {
    forall j | 0 <= j < k && ops[j].action.Remove?
      ensures ops[j].record.id != Some(id)
    {
      assert Done(ops, trace, j, trace[k]);
    }
  }

  lemma RecordOrigin(ops: seq<Op>, trace: seq<Remote>, exclude: seq<Pattern>, k: nat, id: Id)
    requires IsRun(ops, trace) && Sound(ops, trace[0], exclude) && k < |trace| && After(ops, trace, k)
    requires id in trace[k].records
    ensures HasOrigin(ops, trace, k, trace[k].records[id].name, id)
  {
    var name := trace[k].records[id].name;
    if id < trace[0].next {
      OldRecord(ops, trace, exclude, k, id);
      if !Stays(ops, trace[0].records, name, id) {
        var j :| 0 <= j < |ops| && ops[j].action.Remove? && ops[j].record.id == Some(id);
        NotRemovedYet(ops, trace, k, id);
        assert RemovesOld(ops, trace, j, id);
      }
    } else {
      var i := NewRecord(ops, trace, exclude, k, id);
      assert AddsAt(ops, i, name);
    }
  }

  lemma ClashSymmetric(a: RType, b: RType)
    ensures Clash(a, b) == Clash(b, a)
  {
  }

  /** An old record, kept so far, and one added so far do not clash. */
  lemma OldNewClean(ops: seq<Op>, trace: seq<Remote>, k: nat, name: string, x: Id, i: nat)
    requires k < |trace| <= |ops| + 1 && i < k && AddsAt(ops, i, name) && x in trace[0].records
    requires Ordered(ops) && CleanPlan(ops, trace[0].records, name)
    requires Stays(ops, trace[0].records, name, x)
             || (trace[0].records[x].name == name && exists j :: k <= j < |ops| && RemovesOld(ops, trace, j, x))
    ensures !Clash(trace[0].records[x].rtype, ops[i].record.rtype)
  {
    if !Stays(ops, trace[0].records, name, x) && Clash(trace[0].records[x].rtype, ops[i].record.rtype) {
      var j :| k <= j < |ops| && RemovesOld(ops, trace, j, x);
      ClashSymmetric(ops[i].record.rtype, ops[j].record.rtype);
      RemovalPrecedesClash(ops, i, j);
    }
  }

  lemma PairClean(ops: seq<Op>, trace: seq<Remote>, k: nat, name: string, x: Id, y: Id)
    requires k < |trace| <= |ops| + 1 && x in trace[k].records && y in trace[k].records && x != y
    requires Ordered(ops) && Clean(trace[0].records, name) && CleanPlan(ops, trace[0].records, name)
    requires HasOrigin(ops, trace, k, name, x) && HasOrigin(ops, trace, k, name, y)
    ensures !Clash(trace[k].records[x].rtype, trace[k].records[y].rtype)
  {
    var t := trace[k].records;
    ClashSymmetric(t[x].rtype, t[y].rtype);
    if Kept(trace, k, name, x) && Kept(trace, k, name, y) {
    } else if i :| 0 <= i < k && AddsAt(ops, i, name) && Made(ops, trace, i, y) && ops[i].record.rtype == t[y].rtype {
      if j :| 0 <= j < k && AddsAt(ops, j, name) && Made(ops, trace, j, x) && ops[j].record.rtype == t[x].rtype {
        assert i < j || j < i;
      } else {
        OldNewClean(ops, trace, k, name, x, i);
      }
    } else {
      var j :| 0 <= j < k && AddsAt(ops, j, name) && Made(ops, trace, j, x) && ops[j].record.rtype == t[x].rtype;
      OldNewClean(ops, trace, k, name, y, j);
    }
  }

  /**
   A name that is clean at the start and that the plan leaves clean is clean after each call of
   every run, also of one that is interrupted.
   */
  lemma CleanThroughout(ops: seq<Op>, trace: seq<Remote>, exclude: seq<Pattern>, k: nat, name: string)
    requires IsRun(ops, trace) && Sound(ops, trace[0], exclude) && Ordered(ops) && k < |trace|
    requires Clean(trace[0].records, name) && CleanPlan(ops, trace[0].records, name)
    ensures Clean(trace[k].records, name)
  {
    RunReaches(ops, trace, k);
    var t := trace[k].records;
    forall x, y | x in t && y in t && x != y && t[x].name == name && t[y].name == name
      ensures !Clash(t[x].rtype, t[y].rtype)
    {
      RecordOrigin(ops, trace, exclude, k, x);
      RecordOrigin(ops, trace, exclude, k, y);
      PairClean(ops, trace, k, name, x, y);
    }
  }

  /** What stays is there at the end, with its name and type. */
  lemma StaysHeld(ops: seq<Op>, trace: seq<Remote>, exclude: seq<Pattern>, name: string, id: Id)
    requires IsRun(ops, trace) && Sound(ops, trace[0], exclude) && |trace| == |ops| + 1 && After(ops, trace, |ops|)
    requires Stays(ops, trace[0].records, name, id)
    ensures id in trace[|ops|].records && BodyKey(trace[|ops|].records[id]) == BodyKey(trace[0].records[id])
  {
    if i :| 0 <= i < |ops| && Touches(ops, i, id) {
      assert Done(ops, trace, i, trace[|ops|]);
    } else {
      assert trace[|ops|].records[id] == trace[0].records[id];
    }
  }

  /** What is added is there at the end, under an identifier of its own. */
  lemma AddedHeld(ops: seq<Op>, trace: seq<Remote>, i: nat) returns (id: Id)
    requires IsRun(ops, trace) && |trace| == |ops| + 1 && trace[0].Valid() && After(ops, trace, |ops|)
    requires i < |ops| && ops[i].action.Add?
    ensures id !in trace[0].records && id in trace[|ops|].records && trace[|ops|].records[id] == ops[i].record.Json()
  {
    assert Done(ops, trace, i, trace[|ops|]);
    id := trace[i + 1].next - 1;
  }

  /** A completed run that is clean at a name follows a plan that is. */
  lemma CompletedIsPlanned(ops: seq<Op>, trace: seq<Remote>, exclude: seq<Pattern>, name: string)
    requires IsRun(ops, trace) && Sound(ops, trace[0], exclude) && |trace| == |ops| + 1
    requires Clean(trace[|ops|].records, name)
    ensures CleanPlan(ops, trace[0].records, name)
  {
    RunReaches(ops, trace, |ops|);
    var s := trace[0].records;
    forall x | Stays(ops, s, name, x)
      ensures forall y :: Stays(ops, s, name, y) && x != y ==> !Clash(s[x].rtype, s[y].rtype)
      ensures forall i :: AddsAt(ops, i, name) ==> !Clash(s[x].rtype, ops[i].record.rtype)
    {
      StaysHeld(ops, trace, exclude, name, x);
      forall y | Stays(ops, s, name, y) && x != y
        ensures !Clash(s[x].rtype, s[y].rtype)
      {
        StaysHeld(ops, trace, exclude, name, y);
      }
      forall i | AddsAt(ops, i, name)
        ensures !Clash(s[x].rtype, ops[i].record.rtype)
      {
        var y := AddedHeld(ops, trace, i);
      }
    }
    forall i, j | AddsAt(ops, i, name) && AddsAt(ops, j, name) && i < j
      ensures !Clash(ops[i].record.rtype, ops[j].record.rtype)
    {
      var x := AddedHeld(ops, trace, i);
      var y := AddedHeld(ops, trace, j);
      assert ops[i].record.KeyOf() != ops[j].record.KeyOf();
      assert x != y;
    }
  }

  // ---------------------------------------------------------------- addresses stay available

  /** The key belongs to the address and CNAME group, or to the rest. */
  predicate KeyGroup(key: Key, name: string, primary: bool) {
    key.name == name && (IsAddress(key.rtype) || key.rtype.CNAME?) == primary
  }

  /** Every key of the old zone at this name in the given group is held. */
  ghost predicate HoldsOld(zone: map<Id, Body>, before: map<Id, Body>, name: string, primary: bool) {
    forall key :: HasKey(before, key) && KeyGroup(key, name, primary) ==> HasKey(zone, key)
  }

  /** Every planned key at this name in the given group is held. */
  ghost predicate HoldsNew(zone: map<Id, Body>, ops: seq<Op>, before: map<Id, Body>, name: string, primary: bool) {
    forall key :: PlannedKey(ops, before, key) && KeyGroup(key, name, primary) ==> HasKey(zone, key)
  }

  /** In the regular order additions come before removals. */
  lemma AdditionPrecedesRemoval(ops: seq<Op>, i: nat, j: nat)
    requires Ordered(ops) && i < |ops| && j < |ops|
    requires ops[i].action.Add? && ops[j].action.Remove? && SameGroup(ops[i], ops[j])
    requires !(Primary(ops[i]) && CnameAt(ops, ops[i].record.name))
    ensures i < j
  {
  }

  /**
   At a name without CNAME operations each zone of every run, completed or not, holds all old
   addresses or all new ones; for the other record types that is so at every name.
   */
  lemma NeverDown(ops: seq<Op>, trace: seq<Remote>, exclude: seq<Pattern>, k: nat, name: string, primary: bool)
    requires IsRun(ops, trace) && Sound(ops, trace[0], exclude) && Distinct(trace[0].records, exclude) && Ordered(ops)
    requires k < |trace|
    requires primary ==> !CnameAt(ops, name)
    ensures || HoldsOld(trace[k].records, trace[0].records, name, primary)
            || HoldsNew(trace[k].records, ops, trace[0].records, name, primary)
  {
    if !HoldsOld(trace[k].records, trace[0].records, name, primary) {
      var a :| HasKey(trace[0].records, a) && KeyGroup(a, name, primary) && !HasKey(trace[k].records, a);
      KeysAfter(ops, trace, exclude, k, a);
      var i :| 0 <= i < k && ops[i].action == Remove && ops[i].record.KeyOf() == a;
      forall b | PlannedKey(ops, trace[0].records, b) && KeyGroup(b, name, primary)
        ensures HasKey(trace[k].records, b)
      {
        NewKeyHeld(ops, trace, exclude, k, i, b);
      }
    }
  }

  /** Once a removal of a group has happened, everything planned for the group is there. */
  lemma NewKeyHeld(ops: seq<Op>, trace: seq<Remote>, exclude: seq<Pattern>, k: nat, i: nat, key: Key)
    requires IsRun(ops, trace) && Sound(ops, trace[0], exclude) && Distinct(trace[0].records, exclude) && Ordered(ops)
    requires i < k < |trace| && ops[i].action.Remove? && KeyGroup(key, ops[i].record.name, Primary(ops[i]))
    requires Primary(ops[i]) ==> !CnameAt(ops, key.name)
    requires PlannedKey(ops, trace[0].records, key)
    ensures HasKey(trace[k].records, key)
  {
    KeysAfter(ops, trace, exclude, k, key);
    HappenedStays(ops, k, Remove, key);
    if Happened(ops, |ops|, Add, key) {
      var j :| 0 <= j < |ops| && ops[j].action == Add && ops[j].record.KeyOf() == key;
      assert SameGroup(ops[j], ops[i]);
      AdditionPrecedesRemoval(ops, j, i);
    }
  }

  /** Some address record stands at the name. */
  ghost predicate HasAddress(zone: map<Id, Body>, name: string) {
    exists key :: HasKey(zone, key) && key.name == name && IsAddress(key.rtype)
  }

  /** Some address record is planned for the name. */
  ghost predicate PlansAddress(ops: seq<Op>, zone: map<Id, Body>, name: string) {
    exists key :: PlannedKey(ops, zone, key) && key.name == name && IsAddress(key.rtype)
  }

  /** A name without CNAME operations that has an address and is to keep one is never without, in any run. */
  lemma NeverWithoutAddress(ops: seq<Op>, trace: seq<Remote>, exclude: seq<Pattern>, k: nat, name: string)
    requires IsRun(ops, trace) && Sound(ops, trace[0], exclude) && Distinct(trace[0].records, exclude) && Ordered(ops)
    requires k < |trace| && !CnameAt(ops, name)
    requires HasAddress(trace[0].records, name) && PlansAddress(ops, trace[0].records, name)
    ensures HasAddress(trace[k].records, name)
  {
    var s := trace[0].records;
    var a :| HasKey(s, a) && a.name == name && IsAddress(a.rtype);
    var b :| PlannedKey(ops, s, b) && b.name == name && IsAddress(b.rtype);
    NeverDown(ops, trace, exclude, k, name, true);
    assert KeyGroup(a, name, true) && KeyGroup(b, name, true);
    assert HasKey(trace[k].records, a) || HasKey(trace[k].records, b);
  }
}
