/**
 The remote zone under POST, PUT and DELETE, and what every zone of a run of the planned
 operations looks like, told apart by identifiers.
 */
module CloudflareZone {
  import opened Prelude
  import opened CloudflareRecords
  import opened CloudflarePlan

  /** The zone held by the API. Identifiers below `next` have been issued, and none is issued twice. */
  datatype Remote = Remote(records: map<Id, Body>, next: Id)
  {
    ghost predicate Valid() {
      forall id :: id in records ==> id < next
    }
  }

  /** One API call. DELETE and PUT of an unknown identifier are errors, so no step exists for them. */
  ghost predicate Step(op: Op, s: Remote, t: Remote) {
    match op.action
    case Add =>
      s.next < t.next && t.records == s.records[t.next - 1 := op.record.Json()]
    case Remove =>
      op.record.id.Some? && op.record.id.value in s.records && t == s.(records := s.records - {op.record.id.value})
    case Update =>
      && op.record.id.Some? && op.record.id.value in s.records
      && t == s.(records := s.records[op.record.id.value := op.record.Json()])
  }

  /** `trace` holds the zone before, between and after the calls for the first |trace| - 1 operations. */
  ghost predicate IsRun(ops: seq<Op>, trace: seq<Remote>) {
    && 1 <= |trace| <= |ops| + 1
    && forall i :: 0 <= i < |trace| - 1 ==> Step(ops[i], trace[i], trace[i + 1])
  }

  /** The API key of a stored body, as `Read` would give it. */
  function BodyKey(b: Body): Key {
    Key(b.rtype, b.name, b.content, true)
  }

  /** No two records of the visible zone agree in type, name and content. */
  ghost predicate Distinct(zone: map<Id, Body>, exclude: seq<Pattern>) {
    forall i, j :: i in zone && j in zone && i != j && !Excluded(exclude, zone[i].name) ==>
        BodyKey(zone[i]) != BodyKey(zone[j])
  }

  ghost predicate HasKey(zone: map<Id, Body>, k: Key) {
    exists id :: id in zone && BodyKey(zone[id]) == k
  }

  /** A plan computed from a listing of the zone. */
  ghost predicate Prepared(s: Remote, exclude: seq<Pattern>, existing: seq<Record>, wanted: seq<Record>, ops: seq<Op>) {
    && s.Valid() && Distinct(s.records, exclude)
    && Lists(existing, Visible(s.records, exclude))
    && Plan(ops, Index(existing), Index(wanted), Flags(wanted))
  }

  // ---------------------------------------------------------------- the plan and the zone it was made from

  lemma IndexOfListing(s: Remote, exclude: seq<Pattern>, existing: seq<Record>, id: Id)
    requires Distinct(s.records, exclude) && Lists(existing, Visible(s.records, exclude))
    requires id in s.records && !Excluded(exclude, s.records[id].name)
    ensures BodyKey(s.records[id]) in Index(existing)
    ensures Index(existing)[BodyKey(s.records[id])] == Read(id, s.records[id])
  {
    var v := Visible(s.records, exclude);
    var r := Read(id, s.records[id]);
    assert v[id] == r && r in existing && r.KeyOf() == BodyKey(s.records[id]);
    var w := Index(existing)[r.KeyOf()];
    assert w in existing && w.KeyOf() == r.KeyOf();
    assert v[w.id.value] == w;
  }

  lemma IndexedIsVisible(s: Remote, exclude: seq<Pattern>, existing: seq<Record>, k: Key)
    requires Lists(existing, Visible(s.records, exclude)) && k in Index(existing)
    ensures var r := Index(existing)[k];
            && r.id.Some? && r.id.value in s.records && !Excluded(exclude, k.name)
            && r == Read(r.id.value, s.records[r.id.value]) && BodyKey(s.records[r.id.value]) == k
  {
    var r := Index(existing)[k];
    assert r in existing;
  }

  /** For visible names the index of the listing tells which keys the zone holds. */
  lemma IndexedIffHeld(s: Remote, exclude: seq<Pattern>, existing: seq<Record>, k: Key)
    requires Distinct(s.records, exclude) && Lists(existing, Visible(s.records, exclude))
    requires !Excluded(exclude, k.name)
    ensures k in Index(existing) <==> HasKey(s.records, k)
  {
    if k in Index(existing) {
      IndexedIsVisible(s, exclude, existing, k);
    }
    if HasKey(s.records, k) {
      var id :| id in s.records && BodyKey(s.records[id]) == k;
      IndexOfListing(s, exclude, existing, id);
    }
  }

  /** DELETE and PUT name an identifier of the visible zone whose key is the operation's key. */
  lemma TargetHeld(s: Remote, exclude: seq<Pattern>, existing: seq<Record>, wanted: seq<Record>, ops: seq<Op>, op: Op)
    requires Prepared(s, exclude, existing, wanted, ops) && op in ops
    ensures op.record.saltManaged
    ensures !op.action.Add? ==>
              && op.record.id.Some? && op.record.id.value in s.records
              && BodyKey(s.records[op.record.id.value]) == op.record.KeyOf() && !Excluded(exclude, op.record.name)
  {
    var k := op.record.KeyOf();
    assert IsChange(op, Index(existing), Index(wanted), Flags(wanted));
    if !op.action.Add? {
      IndexedIsVisible(s, exclude, existing, k);
    }
  }

  lemma OncePerKey(s: Remote, exclude: seq<Pattern>, existing: seq<Record>, wanted: seq<Record>, ops: seq<Op>, i: nat,
                   j: nat)
    requires Prepared(s, exclude, existing, wanted, ops)
    requires i < |ops| && j < |ops| && ops[i].record.KeyOf() == ops[j].record.KeyOf()
    ensures i == j
  {
    OneChangePerKey(ops[i], ops[j], Index(existing), Index(wanted), Flags(wanted));
  }

  // ---------------------------------------------------------------- every zone of a run

  /** Operation `i` is a DELETE or PUT of `id`. */
  predicate Touches(ops: seq<Op>, i: nat, id: Id)
    requires i < |ops|
  {
    !ops[i].action.Add? && ops[i].record.id == Some(id)
  }

  /** The zone after the first `k` operations, told apart by identifiers. */
  ghost predicate After(ops: seq<Op>, trace: seq<Remote>, k: nat)
    requires k < |trace| <= |ops| + 1
  {
    && trace[k].Valid() && trace[0].next <= trace[k].next
    && Untouched(ops, trace, k)
    && (forall i :: 0 <= i < k ==> Done(ops, trace, i, trace[k]))
    && OnlyAdded(ops, trace, k)
  }

  /** Records that no operation names so far are as they were. */
  ghost predicate Untouched(ops: seq<Op>, trace: seq<Remote>, k: nat)
    requires k < |trace| <= |ops| + 1
  {
    forall id :: id in trace[0].records && (forall i :: 0 <= i < k ==> !Touches(ops, i, id)) ==>
      id in trace[k].records && trace[k].records[id] == trace[0].records[id]
  }

  /** Operation `i` is a POST that was given the identifier `id`. */
  ghost predicate Made(ops: seq<Op>, trace: seq<Remote>, i: nat, id: Id)
    requires i < |trace| - 1 <= |ops|
  {
    ops[i].action.Add? && id == trace[i + 1].next - 1
  }

  /** Every record is an old one or was made by a POST of the run. */
  ghost predicate OnlyAdded(ops: seq<Op>, trace: seq<Remote>, k: nat)
    requires k < |trace| <= |ops| + 1
  {
    && (forall id :: id in trace[k].records && id < trace[0].next ==> id in trace[0].records)
    && (forall id :: id in trace[k].records && trace[0].next <= id ==>
        exists i :: 0 <= i < k && Made(ops, trace, i, id))
  }

  /** The effect of operation `i` is still there in the zone `t`. */
  ghost predicate Done(ops: seq<Op>, trace: seq<Remote>, i: nat, t: Remote)
    requires i < |trace| - 1 <= |ops|
  {
    match ops[i].action
    case Add =>
      && trace[0].next <= trace[i + 1].next - 1 < t.next
      && trace[i + 1].next - 1 in t.records && t.records[trace[i + 1].next - 1] == ops[i].record.Json()
    case Remove => ops[i].record.id.Some? && ops[i].record.id.value !in t.records
    case Update =>
      && ops[i].record.id.Some? && ops[i].record.id.value in t.records
      && t.records[ops[i].record.id.value] == ops[i].record.Json()
  }

  /** Every DELETE and PUT names a record of the zone, and no two name the same one. */
  ghost predicate Separate(ops: seq<Op>, s: Remote) {
    && s.Valid()
    && (forall i :: 0 <= i < |ops| && !ops[i].action.Add? ==>
        ops[i].record.id.Some? && ops[i].record.id.value in s.records)
    && (forall i, j :: 0 <= i < j < |ops| && !ops[i].action.Add? && !ops[j].action.Add? ==>
        ops[i].record.id != ops[j].record.id)
  }

  lemma PlanSeparate(s: Remote, exclude: seq<Pattern>, existing: seq<Record>, wanted: seq<Record>, ops: seq<Op>)
    requires Prepared(s, exclude, existing, wanted, ops)
    ensures Separate(ops, s)
  {
    forall i | 0 <= i < |ops| && !ops[i].action.Add?
      ensures ops[i].record.id.Some? && ops[i].record.id.value in s.records
    {
      TargetHeld(s, exclude, existing, wanted, ops, ops[i]);
    }
    forall i, j | 0 <= i < j < |ops| && !ops[i].action.Add? && !ops[j].action.Add?
      ensures ops[i].record.id != ops[j].record.id
    {
      TargetHeld(s, exclude, existing, wanted, ops, ops[i]);
      TargetHeld(s, exclude, existing, wanted, ops, ops[j]);
      if ops[i].record.id == ops[j].record.id {
        OncePerKey(s, exclude, existing, wanted, ops, i, j);
      }
    }
  }

  lemma DoneStays(ops: seq<Op>, trace: seq<Remote>, i: nat, k: nat)
    requires IsRun(ops, trace) && Separate(ops, trace[0])
    requires i <= k < |trace| - 1
    requires trace[k].Valid() && trace[0].next <= trace[k].next
    requires i < k ==> Done(ops, trace, i, trace[k])
    ensures Done(ops, trace, i, trace[k + 1])
  {
    assert Step(ops[k], trace[k], trace[k + 1]);
  }

  lemma UntouchedNext(ops: seq<Op>, trace: seq<Remote>, k: nat)
    requires IsRun(ops, trace) && trace[0].Valid() && k < |trace| - 1
    requires trace[0].next <= trace[k].next && Untouched(ops, trace, k)
    ensures Untouched(ops, trace, k + 1)
  {
    assert Step(ops[k], trace[k], trace[k + 1]);
    forall id | id in trace[0].records && (forall i :: 0 <= i < k + 1 ==> !Touches(ops, i, id))
      ensures id in trace[k + 1].records && trace[k + 1].records[id] == trace[0].records[id]
    {
      assert !Touches(ops, k, id);
      assert forall i :: 0 <= i < k ==> !Touches(ops, i, id);
    }
  }

  lemma OnlyAddedNext(ops: seq<Op>, trace: seq<Remote>, k: nat)
    requires IsRun(ops, trace) && k < |trace| - 1
    requires trace[0].next <= trace[k].next && OnlyAdded(ops, trace, k)
    ensures OnlyAdded(ops, trace, k + 1)
  {
    var t := trace[k + 1];
    assert Step(ops[k], trace[k], t);
    forall id | id in t.records && trace[0].next <= id
      ensures exists i :: 0 <= i < k + 1 && Made(ops, trace, i, id)
    {
      if id in trace[k].records {
        var i :| 0 <= i < k && Made(ops, trace, i, id);
      } else {
        assert Made(ops, trace, k, id);
      }
    }
  }

  lemma StepValid(op: Op, s: Remote, t: Remote)
    requires s.Valid() && Step(op, s, t)
    ensures t.Valid() && s.next <= t.next
  {
  }

  lemma AfterNext(ops: seq<Op>, trace: seq<Remote>, k: nat)
    requires IsRun(ops, trace) && Separate(ops, trace[0])
    requires k < |trace| - 1 && After(ops, trace, k)
    ensures After(ops, trace, k + 1)
  {
    var t := trace[k + 1];
    StepValid(ops[k], trace[k], t);
    UntouchedNext(ops, trace, k);
    OnlyAddedNext(ops, trace, k);
    forall i | 0 <= i <= k
      ensures Done(ops, trace, i, t)
    {
      DoneStays(ops, trace, i, k);
    }
  }

  /** The description holds of every zone of every run, however far the run got. */
  lemma {:induction false} RunReaches(ops: seq<Op>, trace: seq<Remote>, k: nat)
    requires IsRun(ops, trace) && Separate(ops, trace[0])
    requires k < |trace|
    ensures After(ops, trace, k)
  {
    if k > 0 {
      RunReaches(ops, trace, k - 1);
      AfterNext(ops, trace, k - 1);
    }
  }

  /** A planned operation never meets an unknown identifier: every call of a run can be made. */
  lemma NeverUnknown(ops: seq<Op>, trace: seq<Remote>, k: nat)
    requires IsRun(ops, trace) && Separate(ops, trace[0])
    requires k == |trace| - 1 < |ops| && !ops[k].action.Add?
    ensures ops[k].record.id.Some? && ops[k].record.id.value in trace[k].records
  {
    RunReaches(ops, trace, k);
    var id := ops[k].record.id.value;
    forall i | 0 <= i < k
      ensures !Touches(ops, i, id)
    {
    }
  }

  /** Every run can be carried on to the end of the plan. */
  lemma {:induction false} RunExtends(ops: seq<Op>, trace: seq<Remote>) returns (full: seq<Remote>)
    requires IsRun(ops, trace) && Separate(ops, trace[0])
    ensures IsRun(ops, full) && |full| == |ops| + 1 && trace <= full
    decreases |ops| - |trace|
  {
    full := trace;
    if |trace| <= |ops| {
      var k := |trace| - 1;
      var last, op := trace[k], ops[k];
      var next: Remote;
      if op.action.Add? {
        next := Remote(last.records[last.next := op.record.Json()], last.next + 1);
      } else {
        NeverUnknown(ops, trace, k);
        next := if op.action.Remove? then last.(records := last.records - {op.record.id.value})
                else last.(records := last.records[op.record.id.value := op.record.Json()]);
      }
      assert Step(op, last, next);
      full := RunExtends(ops, trace + [next]);
    }
  }
}
