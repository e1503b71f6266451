/**
 The zone a completed run leaves behind, the plan of the run after it, and the condition under
 which no run ever breaks a name.
 */
module CloudflareConvergence {
  import opened Prelude
  import opened CloudflareRecords
  import opened CloudflarePlan
  import opened CloudflareZone
  import opened CloudflareTheorems

  /** A stored body reads back as the wanted record, identifiers aside. */
  predicate Same(b: Body, r: Record) {
    Read(0, b).Pure() == r.Pure()
  }

  lemma WrittenReadsBack(r: Record)
    requires r.saltManaged && (r.rtype != MX ==> r.priority == None)
    ensures Same(r.Json(), r)
  {
  }

  /** What becomes of a visible record. */
  ghost predicate Fate(id: Id, s: map<Id, Body>, t: map<Id, Body>, wanted: map<Key, Record>, flags: map<string, bool>)
    requires id in s
  {
    var key := BodyKey(s[id]);
    if key in wanted then id in t && Same(t[id], wanted[key])
    else if HandsOff(flags, key.name) then id in t && t[id] == s[id]
    else id !in t
  }

  /** The zone `t` is what the wanted records make of the zone `s`. */
  ghost predicate Reconciled(s: map<Id, Body>, t: map<Id, Body>, exclude: seq<Pattern>,
                             wanted: map<Key, Record>, flags: map<string, bool>) {
    && (forall id :: id in s && Excluded(exclude, s[id].name) ==> id in t && t[id] == s[id])
    && (forall id :: id in s && !Excluded(exclude, s[id].name) ==> Fate(id, s, t, wanted, flags))
    && (forall key :: key in wanted && key.saltManaged ==> Realised(key, t, wanted))
    && (forall id :: id in t && id !in s ==> BodyKey(t[id]) in wanted)
    && Distinct(t, exclude)
  }

  ghost predicate Realised(key: Key, t: map<Id, Body>, wanted: map<Key, Record>)
    requires key in wanted
  {
    exists id :: id in t && BodyKey(t[id]) == key && Same(t[id], wanted[key])
  }

  // ---------------------------------------------------------------- convergence

  /** The premises shared by the lemmas about a completed run. */
  ghost predicate Completed(s: Remote, exclude: seq<Pattern>, existing: seq<Record>, wanted: seq<Record>,
                            ops: seq<Op>, trace: seq<Remote>) {
    && Prepared(s, exclude, existing, wanted, ops) && WellFormed(wanted)
    && IsRun(ops, trace) && |trace| == |ops| + 1 && trace[0] == s
    && Sound(ops, s, exclude) && After(ops, trace, |ops|)
  }

  lemma Undisturbed(ops: seq<Op>, trace: seq<Remote>, exclude: seq<Pattern>, id: Id)
    requires |trace| == |ops| + 1 && Sound(ops, trace[0], exclude) && After(ops, trace, |ops|)
    requires id in trace[0].records
    requires Excluded(exclude, trace[0].records[id].name)
             || forall op :: op in ops && !op.action.Add? ==> op.record.KeyOf() != BodyKey(trace[0].records[id])
    ensures id in trace[|ops|].records && trace[|ops|].records[id] == trace[0].records[id]
  {
    forall i | 0 <= i < |ops|
      ensures !Touches(ops, i, id)
    {
      assert ops[i] in ops;
    }
  }

  lemma FateOf(s: Remote, exclude: seq<Pattern>, existing: seq<Record>, wanted: seq<Record>, ops: seq<Op>,
               trace: seq<Remote>, id: Id)
    requires Completed(s, exclude, existing, wanted, ops, trace)
    requires id in s.records && !Excluded(exclude, s.records[id].name)
    ensures Fate(id, s.records, trace[|ops|].records, Index(wanted), Flags(wanted))
  {
    var key, w, f := BodyKey(s.records[id]), Index(wanted), Flags(wanted);
    IndexOfListing(s, exclude, existing, id);
    var e := Index(existing);
    if key in w && e[key].Pure() != w[key] {
      Overwritten(s, exclude, existing, wanted, ops, trace, id);
    } else if key !in w && !HandsOff(f, key.name) {
      var i := DeletePlanned(existing, wanted, ops, key);
      assert Done(ops, trace, i, trace[|ops|]);
    } else {
      NotNamed(existing, wanted, ops, key);
      Undisturbed(ops, trace, exclude, id);
    }
  }

  /** An unwanted key is deleted unless its name is handed off. */
  lemma DeletePlanned(existing: seq<Record>, wanted: seq<Record>, ops: seq<Op>, key: Key) returns (i: nat)
    requires Plan(ops, Index(existing), Index(wanted), Flags(wanted))
    requires key in Index(existing) && key !in Index(wanted) && !HandsOff(Flags(wanted), key.name)
    ensures i < |ops| && ops[i] == Op(Remove, Index(existing)[key])
  {
    var op := Op(Remove, Index(existing)[key]);
    assert IsChange(op, Index(existing), Index(wanted), Flags(wanted));
    i :| 0 <= i < |ops| && ops[i] == op;
  }

  /** A key that needs no change is named by no removal or update. */
  lemma NotNamed(existing: seq<Record>, wanted: seq<Record>, ops: seq<Op>, key: Key)
    requires Plan(ops, Index(existing), Index(wanted), Flags(wanted)) && key in Index(existing)
    requires if key in Index(wanted) then Index(existing)[key].Pure() == Index(wanted)[key]
             else HandsOff(Flags(wanted), key.name)
    ensures forall op :: op in ops && !op.action.Add? ==> op.record.KeyOf() != key
  {
    forall op | op in ops && !op.action.Add?
      ensures op.record.KeyOf() != key
    {
      assert IsChange(op, Index(existing), Index(wanted), Flags(wanted));
    }
  }

  lemma Overwritten(s: Remote, exclude: seq<Pattern>, existing: seq<Record>, wanted: seq<Record>, ops: seq<Op>,
                    trace: seq<Remote>, id: Id)
    requires Completed(s, exclude, existing, wanted, ops, trace)
    requires id in s.records && BodyKey(s.records[id]) in Index(wanted)
    requires BodyKey(s.records[id]) in Index(existing)
    requires Index(existing)[BodyKey(s.records[id])] == Read(id, s.records[id])
    requires Read(id, s.records[id]).Pure() != Index(wanted)[BodyKey(s.records[id])]
    ensures id in trace[|ops|].records && Same(trace[|ops|].records[id], Index(wanted)[BodyKey(s.records[id])])
  {
    var i := PutPlanned(existing, wanted, ops, BodyKey(s.records[id]), id);
    assert Done(ops, trace, i, trace[|ops|]);
  }

  /** A managed key whose record differs is put under its identifier. */
  lemma PutPlanned(existing: seq<Record>, wanted: seq<Record>, ops: seq<Op>, key: Key, id: Id) returns (i: nat)
    requires Plan(ops, Index(existing), Index(wanted), Flags(wanted)) && WellFormed(wanted)
    requires key in Index(wanted) && key.saltManaged && key in Index(existing) && Index(existing)[key].id == Some(id)
    requires Index(existing)[key].Pure() != Index(wanted)[key]
    ensures i < |ops| && ops[i] == Op(Update, Index(wanted)[key].(id := Some(id)))
    ensures Same(ops[i].record.Json(), Index(wanted)[key])
  {
    var r := Index(wanted)[key];
    var op := Op(Update, r.(id := Some(id)));
    assert IsChange(op, Index(existing), Index(wanted), Flags(wanted));
    i :| 0 <= i < |ops| && ops[i] == op;
    assert r in wanted;
    WrittenReadsBack(r);
  }

  lemma RealisedBy(s: Remote, exclude: seq<Pattern>, existing: seq<Record>, wanted: seq<Record>, ops: seq<Op>,
                   trace: seq<Remote>, key: Key)
    requires Completed(s, exclude, existing, wanted, ops, trace)
    requires key in Index(wanted) && key.saltManaged
    ensures Realised(key, trace[|ops|].records, Index(wanted))
  {
    var w, e, t := Index(wanted), Index(existing), trace[|ops|].records;
    if key in e {
      IndexedIsVisible(s, exclude, existing, key);
      var id := e[key].id.value;
      FateOf(s, exclude, existing, wanted, ops, trace, id);
      assert BodyKey(t[id]) == key;
    } else {
      var id := Posted(s, exclude, existing, wanted, ops, trace, key);
      assert Same(t[id], w[key]);
    }
  }

  /** A managed key that the listing does not show is posted under a new identifier. */
  lemma Posted(s: Remote, exclude: seq<Pattern>, existing: seq<Record>, wanted: seq<Record>, ops: seq<Op>,
               trace: seq<Remote>, key: Key)
    returns (id: Id)
    requires Completed(s, exclude, existing, wanted, ops, trace)
    requires key in Index(wanted) && key.saltManaged && key !in Index(existing)
    ensures id !in s.records && id in trace[|ops|].records && BodyKey(trace[|ops|].records[id]) == key
    ensures Same(trace[|ops|].records[id], Index(wanted)[key])
  {
    var i := PostPlanned(existing, wanted, ops, key);
    id := AddedHeld(ops, trace, i);
  }

  lemma PostPlanned(existing: seq<Record>, wanted: seq<Record>, ops: seq<Op>, key: Key) returns (i: nat)
    requires Plan(ops, Index(existing), Index(wanted), Flags(wanted)) && WellFormed(wanted)
    requires key in Index(wanted) && key.saltManaged && key !in Index(existing)
    ensures i < |ops| && ops[i] == Op(Add, Index(wanted)[key]) && Same(ops[i].record.Json(), ops[i].record)
  {
    var r := Index(wanted)[key];
    assert IsChange(Op(Add, r), Index(existing), Index(wanted), Flags(wanted));
    i :| 0 <= i < |ops| && ops[i] == Op(Add, r);
    assert r in wanted;
    WrittenReadsBack(r);
  }

  /**
   Convergence, for every zone and every list of wanted records: wanted keys are realised, other
   visible records are deleted unless their name is handed off, excluded ones stay as they are.
   */
  lemma Convergence(s: Remote, exclude: seq<Pattern>, existing: seq<Record>, wanted: seq<Record>, ops: seq<Op>,
                    trace: seq<Remote>)
    requires Prepared(s, exclude, existing, wanted, ops) && WellFormed(wanted)
    requires IsRun(ops, trace) && |trace| == |ops| + 1 && trace[0] == s
    ensures Reconciled(s.records, trace[|ops|].records, exclude, Index(wanted), Flags(wanted))
  {
    PlanSound(s, exclude, existing, wanted, ops);
    RunReaches(ops, trace, |ops|);
    DistinctAfter(ops, trace, exclude, |ops|);
    var t, w := trace[|ops|].records, Index(wanted);
    forall id | id in s.records && Excluded(exclude, s.records[id].name)
      ensures id in t && t[id] == s.records[id]
    {
      Undisturbed(ops, trace, exclude, id);
    }
    forall id | id in s.records && !Excluded(exclude, s.records[id].name)
      ensures Fate(id, s.records, t, w, Flags(wanted))
    {
      FateOf(s, exclude, existing, wanted, ops, trace, id);
    }
    forall key | key in w && key.saltManaged
      ensures Realised(key, t, w)
    {
      RealisedBy(s, exclude, existing, wanted, ops, trace, key);
    }
    forall id | id in t && id !in s.records
      ensures BodyKey(t[id]) in w
    {
      NewIsWanted(s, exclude, existing, wanted, ops, trace, id);
    }
  }

  lemma NewIsWanted(s: Remote, exclude: seq<Pattern>, existing: seq<Record>, wanted: seq<Record>, ops: seq<Op>,
                    trace: seq<Remote>, id: Id)
    requires Completed(s, exclude, existing, wanted, ops, trace)
    requires id in trace[|ops|].records && id !in s.records
    ensures BodyKey(trace[|ops|].records[id]) in Index(wanted)
  {
    var i := NewRecord(ops, trace, exclude, |ops|, id);
    assert ops[i] in ops;
    assert IsChange(ops[i], Index(existing), Index(wanted), Flags(wanted));
  }

  // ---------------------------------------------------------------- the outcome, by the lists alone

  /** The managed record is meant for the stored one. */
  ghost predicate Asks(r: Record, b: Body) {
    r.saltManaged && r.rtype == b.rtype && r.name == b.name && r.content == b.content
  }

  /** The stored record is what the wanted one says. */
  ghost predicate Shows(b: Body, r: Record) {
    && b.rtype == r.rtype && b.name == r.name && b.content == r.content
    && b.proxied == r.proxied && b.ttl == r.ttl && (r.rtype == MX ==> b.priority == r.priority)
  }

  /** A visible record that is asked for ends as asked; any other one is gone exactly if its name is claimed. */
  ghost predicate Ends(id: Id, s: map<Id, Body>, t: map<Id, Body>, wanted: seq<Record>)
    requires id in s
  {
    && (forall j :: Final(wanted, j) && Asks(wanted[j], s[id]) ==> id in t && Shows(t[id], wanted[j]))
    && ((forall j :: 0 <= j < |wanted| ==> !Asks(wanted[j], s[id])) ==>
          (id !in t <==> Claims(wanted, s[id].name)) && (id in t ==> t[id] == s[id]))
  }

  ghost predicate Shown(t: map<Id, Body>, r: Record) {
    exists id :: id in t && Shows(t[id], r)
  }

  /** What a completed run makes of the zone `s`, in terms of the list of wanted records. */
  ghost predicate Outcome(s: map<Id, Body>, t: map<Id, Body>, exclude: seq<Pattern>, wanted: seq<Record>) {
    && (forall id :: id in s && Excluded(exclude, s[id].name) ==> id in t && t[id] == s[id])
    && (forall id :: id in s && !Excluded(exclude, s[id].name) ==> Ends(id, s, t, wanted))
    && (forall j :: Final(wanted, j) && wanted[j].saltManaged ==> Shown(t, wanted[j]))
    && (forall id :: id in t && id !in s ==> exists j :: 0 <= j < |wanted| && Asks(wanted[j], t[id]))
  }

  lemma SameShows(b: Body, r: Record)
    requires Same(b, r) && (r.rtype != MX ==> r.priority == None)
    ensures Shows(b, r)
  {
    var e := Read(0, b);
    assert e.Pure().rtype == r.Pure().rtype && e.Json().ttl == b.ttl;
    assert e.Pure().ttl == r.Pure().ttl && e.Pure().priority == r.Pure().priority;
  }

  lemma FinalIndexed(wanted: seq<Record>, j: int)
    requires Final(wanted, j)
    ensures wanted[j].KeyOf() in Index(wanted) && Index(wanted)[wanted[j].KeyOf()] == wanted[j]
  {
    IndexIsFinal(wanted, wanted[j]);
  }

  lemma EndsAsFated(id: Id, s: map<Id, Body>, t: map<Id, Body>, wanted: seq<Record>)
    requires id in s && Fate(id, s, t, Index(wanted), Flags(wanted)) && WellFormed(wanted)
    ensures Ends(id, s, t, wanted)
  {
    var key := BodyKey(s[id]);
    forall j | Final(wanted, j) && Asks(wanted[j], s[id])
      ensures id in t && Shows(t[id], wanted[j])
    {
      FinalIndexed(wanted, j);
      assert wanted[j].KeyOf() == key;
      SameShows(t[id], wanted[j]);
    }
    ClaimsIff(wanted, key.name);
    AskedIff(wanted, s[id]);
  }

  lemma AskedIff(wanted: seq<Record>, b: Body)
    ensures BodyKey(b) in Index(wanted) <==> exists j :: 0 <= j < |wanted| && Asks(wanted[j], b)
  {
    if BodyKey(b) in Index(wanted) {
      var j :| 0 <= j < |wanted| && wanted[j] == Index(wanted)[BodyKey(b)];
    }
    forall j | 0 <= j < |wanted| && Asks(wanted[j], b)
      ensures BodyKey(b) in Index(wanted)
    {
      assert wanted[j] in wanted && wanted[j].KeyOf() == BodyKey(b);
    }
  }

  /**
   Convergence by the lists alone: a visible record that nobody asks for is gone if and only if its
   name is not in the list, or the last record of the name there is managed.
   */
  lemma ConvergedOutcome(s: map<Id, Body>, t: map<Id, Body>, exclude: seq<Pattern>, wanted: seq<Record>)
    requires Reconciled(s, t, exclude, Index(wanted), Flags(wanted)) && WellFormed(wanted)
    ensures Outcome(s, t, exclude, wanted)
  {
    forall id | id in s && !Excluded(exclude, s[id].name)
      ensures Ends(id, s, t, wanted)
    {
      EndsAsFated(id, s, t, wanted);
    }
    forall j | Final(wanted, j) && wanted[j].saltManaged
      ensures Shown(t, wanted[j])
    {
      FinalIndexed(wanted, j);
      ShownIfRealised(t, wanted, j);
    }
    forall id | id in t && id !in s
      ensures exists j :: 0 <= j < |wanted| && Asks(wanted[j], t[id])
    {
      var j :| 0 <= j < |wanted| && wanted[j] == Index(wanted)[BodyKey(t[id])];
      assert Asks(wanted[j], t[id]);
    }
  }

  lemma ShownIfRealised(t: map<Id, Body>, wanted: seq<Record>, j: nat)
    requires j < |wanted| && WellFormed(wanted) && wanted[j].KeyOf() in Index(wanted)
    requires Index(wanted)[wanted[j].KeyOf()] == wanted[j] && Realised(wanted[j].KeyOf(), t, Index(wanted))
    ensures Shown(t, wanted[j])
  {
    var id :| id in t && BodyKey(t[id]) == wanted[j].KeyOf() && Same(t[id], wanted[j]);
    SameShows(t[id], wanted[j]);
  }

  // ---------------------------------------------------------------- what that means for one name

  /** A visible name that is not handed off ends with exactly the wanted records. */
  lemma ManagedName(s: map<Id, Body>, t: map<Id, Body>, exclude: seq<Pattern>, wanted: map<Key, Record>,
                    flags: map<string, bool>, name: string)
    requires Reconciled(s, t, exclude, wanted, flags) && !Excluded(exclude, name) && !HandsOff(flags, name)
    ensures forall id :: id in t && t[id].name == name ==>
              BodyKey(t[id]) in wanted && Same(t[id], wanted[BodyKey(t[id])])
    ensures forall key :: key in wanted && key.saltManaged && key.name == name ==> Realised(key, t, wanted)
  {
    forall id | id in t && t[id].name == name
      ensures BodyKey(t[id]) in wanted && Same(t[id], wanted[BodyKey(t[id])])
    {
      if id in s {
        assert Excluded(exclude, s[id].name) || Fate(id, s, t, wanted, flags);
      } else {
        assert Realised(BodyKey(t[id]), t, wanted);
      }
    }
  }

  /** A name whose wanted records are all unmanaged is left exactly as it was. */
  lemma UnmanagedName(s: map<Id, Body>, t: map<Id, Body>, exclude: seq<Pattern>, wanted: seq<Record>, name: string)
    requires Reconciled(s, t, exclude, Index(wanted), Flags(wanted))
    requires exists r :: r in wanted && r.name == name
    requires forall r :: r in wanted && r.name == name ==> !r.saltManaged
    ensures forall id :: (id in t && t[id].name == name) <==> (id in s && s[id].name == name)
    ensures forall id :: id in s && s[id].name == name ==> t[id] == s[id]
  {
    UnmanagedKeys(wanted, name);
    var w, f := Index(wanted), Flags(wanted);
    forall id | id in s
      ensures (id in t && t[id].name == name) <==> s[id].name == name
      ensures s[id].name == name ==> t[id] == s[id]
    {
      UnmanagedRecord(s, t, exclude, w, f, name, id);
    }
    forall id | id in t && id !in s
      ensures t[id].name != name
    {
      assert BodyKey(t[id]) in w;
    }
  }

  lemma UnmanagedKeys(wanted: seq<Record>, name: string)
    requires exists r :: r in wanted && r.name == name
    requires forall r :: r in wanted && r.name == name ==> !r.saltManaged
    ensures HandsOff(Flags(wanted), name)
    ensures forall key :: key in Index(wanted) && key.saltManaged ==> key.name != name
  {
    var r :| r in wanted && r.name == name;
    var i :| 0 <= i < |wanted| && wanted[i] == r;
    assert name in Flags(wanted);
    var j :| 0 <= j < |wanted| && wanted[j].name == name && wanted[j].saltManaged == Flags(wanted)[name];
    assert wanted[j] in wanted;
    forall key | key in Index(wanted) && key.saltManaged
      ensures key.name != name
    {
      assert Index(wanted)[key] in wanted;
    }
  }

  lemma UnmanagedRecord(s: map<Id, Body>, t: map<Id, Body>, exclude: seq<Pattern>, wanted: map<Key, Record>,
                        flags: map<string, bool>,
                        name: string, id: Id)
    requires Reconciled(s, t, exclude, wanted, flags) && id in s
    requires HandsOff(flags, name) && forall key :: key in wanted && key.saltManaged ==> key.name != name
    ensures (id in t && t[id].name == name) <==> s[id].name == name
    ensures s[id].name == name ==> t[id] == s[id]
  {
    assert Excluded(exclude, s[id].name) || Fate(id, s, t, wanted, flags);
  }

  lemma ExcludedKept(s: map<Id, Body>, t: map<Id, Body>, exclude: seq<Pattern>, wanted: map<Key, Record>,
                     flags: map<string, bool>)
    requires Reconciled(s, t, exclude, wanted, flags)
    requires forall key :: key in wanted && key.saltManaged ==> !Excluded(exclude, key.name)
    ensures forall id :: id in t && Excluded(exclude, t[id].name) ==> id in s && t[id] == s[id]
  {
    forall id | id in t && Excluded(exclude, t[id].name)
      ensures id in s && t[id] == s[id]
    {
      if id in s {
        assert Excluded(exclude, s[id].name) || Fate(id, s, t, wanted, flags);
      }
    }
  }

  /** Nothing is added at excluded names exactly when no managed record is wanted there. */
  lemma ExcludedUntouched(s: Remote, exclude: seq<Pattern>, existing: seq<Record>, wanted: seq<Record>, ops: seq<Op>,
                          trace: seq<Remote>)
    requires Prepared(s, exclude, existing, wanted, ops) && WellFormed(wanted)
    requires IsRun(ops, trace) && |trace| == |ops| + 1 && trace[0] == s
    ensures var t := trace[|ops|].records;
            (forall id :: id in t && Excluded(exclude, t[id].name) ==> id in s.records && t[id] == s.records[id])
            <==> (forall key :: key in Index(wanted) && key.saltManaged ==> !Excluded(exclude, key.name))
  {
    Convergence(s, exclude, existing, wanted, ops, trace);
    PlanSound(s, exclude, existing, wanted, ops);
    RunReaches(ops, trace, |ops|);
    var t := trace[|ops|].records;
    if forall key :: key in Index(wanted) && key.saltManaged ==> !Excluded(exclude, key.name) {
      ExcludedKept(s.records, t, exclude, Index(wanted), Flags(wanted));
    } else {
      var key :| key in Index(wanted) && key.saltManaged && Excluded(exclude, key.name);
      ExcludedNotListed(s, exclude, existing, key);
      var id := Posted(s, exclude, existing, wanted, ops, trace, key);
      assert t[id].name == key.name;
    }
  }

  lemma ExcludedNotListed(s: Remote, exclude: seq<Pattern>, existing: seq<Record>, key: Key)
    requires Lists(existing, Visible(s.records, exclude)) && Excluded(exclude, key.name)
    ensures key !in Index(existing)
  {
    forall k | k in Index(existing)
      ensures !Excluded(exclude, k.name)
    {
      IndexedIsVisible(s, exclude, existing, k);
    }
  }

  // ---------------------------------------------------------------- the next run

  /** Condition under which a second run has nothing to do. */
  ghost predicate Settles(wanted: map<Key, Record>, exclude: seq<Pattern>) {
    forall key :: key in wanted && key.saltManaged ==> !Excluded(exclude, key.name) && wanted[key].id == None
  }

  lemma KeyKept(s: map<Id, Body>, t: map<Id, Body>, exclude: seq<Pattern>, wanted: map<Key, Record>,
                flags: map<string, bool>, id: Id)
    requires Reconciled(s, t, exclude, wanted, flags) && id in t && !Excluded(exclude, t[id].name)
    ensures BodyKey(t[id]) in wanted || HandsOff(flags, t[id].name)
  {
    if id in s {
      assert Excluded(exclude, s[id].name) || Fate(id, s, t, wanted, flags);
    }
  }

  lemma NothingLeft(s: map<Id, Body>, t: Remote, exclude: seq<Pattern>, wanted: map<Key, Record>,
                    flags: map<string, bool>,
                    existing: seq<Record>, op: Op)
    requires Reconciled(s, t.records, exclude, wanted, flags) && Settles(wanted, exclude)
    requires Lists(existing, Visible(t.records, exclude))
    ensures !IsChange(op, Index(existing), wanted, flags)
  {
    var key, e := op.record.KeyOf(), Index(existing);
    if key in wanted && key.saltManaged {
      assert Realised(key, t.records, wanted);
      var id :| id in t.records && BodyKey(t.records[id]) == key && Same(t.records[id], wanted[key]);
      IndexOfListing(t, exclude, existing, id);
    }
    if key in e {
      IndexedIsVisible(t, exclude, existing, key);
      KeyKept(s, t.records, exclude, wanted, flags, e[key].id.value);
    }
  }

  /** After a completed run the next plan is empty exactly when the wanted records settle. */
  lemma Idempotent(s: map<Id, Body>, t: Remote, exclude: seq<Pattern>, existing: seq<Record>, wanted: seq<Record>,
                   ops: seq<Op>)
    requires Reconciled(s, t.records, exclude, Index(wanted), Flags(wanted))
    requires Prepared(t, exclude, existing, wanted, ops)
    ensures ops == [] <==> Settles(Index(wanted), exclude)
  {
    var w, e, f := Index(wanted), Index(existing), Flags(wanted);
    if Settles(w, exclude) {
      if ops != [] {
        assert ops[0] in ops;
        NothingLeft(s, t, exclude, w, f, existing, ops[0]);
      }
    } else {
      var key :| key in w && key.saltManaged && !(!Excluded(exclude, key.name) && w[key].id == None);
      Unsettled(t, exclude, existing, wanted, ops, key);
    }
  }

  /** One managed record at an excluded name, or with an identifier: every later plan has it again. */
  lemma NeverSettles(t: Remote, exclude: seq<Pattern>, existing: seq<Record>, r: Record, ops: seq<Op>)
    requires r.saltManaged && (Excluded(exclude, r.name) || r.id.Some?)
    requires Prepared(t, exclude, existing, [r], ops)
    ensures ops != []
  {
    assert r in [r];
    assert LastOfKey([r], 0) && Index([r])[r.KeyOf()] == r;
    Unsettled(t, exclude, existing, [r], ops, r.KeyOf());
  }

  lemma Unsettled(t: Remote, exclude: seq<Pattern>, existing: seq<Record>, wanted: seq<Record>, ops: seq<Op>, key: Key)
    requires Lists(existing, Visible(t.records, exclude)) && Plan(ops, Index(existing), Index(wanted), Flags(wanted))
    requires key in Index(wanted) && key.saltManaged && (Excluded(exclude, key.name) || Index(wanted)[key].id.Some?)
    ensures ops != []
  {
    var w, e, f := Index(wanted), Index(existing), Flags(wanted);
    if key in e {
      IndexedIsVisible(t, exclude, existing, key);
      assert IsChange(Op(Update, w[key].(id := e[key].id)), e, w, f);
    } else {
      assert IsChange(Op(Add, w[key]), e, w, f);
    }
  }

  // ---------------------------------------------------------------- clean names

  /**
   A managed record is wanted beside an existing one that it may not stand beside and that stays:
   one at an excluded name, or an unwanted one at a handed-off name.
   */
  ghost predicate Stray(s: map<Id, Body>, exclude: seq<Pattern>, wanted: map<Key, Record>, flags: map<string, bool>,
                        name: string) {
    exists w, e :: && w in wanted && w.saltManaged && HasKey(s, e) && w.name == name && e.name == name
                   && Clash(w.rtype, e.rtype) && (Excluded(exclude, name) || (HandsOff(flags, name) && e !in wanted))
  }

  /** The same, by the lists alone. */
  ghost predicate Collides(s: map<Id, Body>, exclude: seq<Pattern>, wanted: seq<Record>, name: string) {
    exists id, j :: id in s && 0 <= j < |wanted| && CollidesWith(s[id], exclude, wanted, j, name)
  }

  ghost predicate CollidesWith(b: Body, exclude: seq<Pattern>, wanted: seq<Record>, j: nat, name: string)
    requires j < |wanted|
  {
    && b.name == name && wanted[j].name == name && wanted[j].saltManaged
    && Clash(wanted[j].rtype, b.rtype) && LetStay(b, exclude, wanted)
  }

  /** The record is hidden by an exclude pattern, or nobody asks for it and its name is not claimed. */
  ghost predicate LetStay(b: Body, exclude: seq<Pattern>, wanted: seq<Record>) {
    || Excluded(exclude, b.name)
    || (!Claims(wanted, b.name) && forall j :: 0 <= j < |wanted| ==> !Asks(wanted[j], b))
  }

  lemma LetStayIff(b: Body, exclude: seq<Pattern>, wanted: seq<Record>)
    ensures LetStay(b, exclude, wanted)
            <==> Excluded(exclude, b.name) || (HandsOff(Flags(wanted), b.name) && BodyKey(b) !in Index(wanted))
  {
    ClaimsIff(wanted, b.name);
    AskedIff(wanted, b);
  }

  lemma StrayIff(s: map<Id, Body>, exclude: seq<Pattern>, wanted: seq<Record>, name: string)
    ensures Stray(s, exclude, Index(wanted), Flags(wanted), name) <==> Collides(s, exclude, wanted, name)
  {
    if Stray(s, exclude, Index(wanted), Flags(wanted), name) {
      StrayCollides(s, exclude, wanted, name);
    }
    if id, j :| id in s && 0 <= j < |wanted| && CollidesWith(s[id], exclude, wanted, j, name) {
      CollisionStrays(s, exclude, wanted, name, id, j);
    }
  }

  lemma CollisionStrays(s: map<Id, Body>, exclude: seq<Pattern>, wanted: seq<Record>, name: string, id: Id, j: nat)
    requires id in s && j < |wanted| && CollidesWith(s[id], exclude, wanted, j, name)
    ensures Stray(s, exclude, Index(wanted), Flags(wanted), name)
  {
    LetStayIff(s[id], exclude, wanted);
    WantedIndexed(wanted, j);
    PairStrays(s, exclude, Index(wanted), Flags(wanted), name, wanted[j].KeyOf(), id);
  }

  lemma WantedIndexed(wanted: seq<Record>, j: nat)
    requires j < |wanted|
    ensures wanted[j].KeyOf() in Index(wanted)
  {
    assert wanted[j] in wanted;
  }

  lemma PairStrays(s: map<Id, Body>, exclude: seq<Pattern>, index: map<Key, Record>, flags: map<string, bool>,
                   name: string,
                   w: Key, id: Id)
    requires w in index && w.saltManaged && w.name == name && id in s && s[id].name == name
    requires Clash(w.rtype, s[id].rtype)
    requires Excluded(exclude, name) || (HandsOff(flags, name) && BodyKey(s[id]) !in index)
    ensures Stray(s, exclude, index, flags, name)
  {
    assert HasKey(s, BodyKey(s[id]));
  }

  lemma StrayCollides(s: map<Id, Body>, exclude: seq<Pattern>, wanted: seq<Record>, name: string)
    requires Stray(s, exclude, Index(wanted), Flags(wanted), name)
    ensures Collides(s, exclude, wanted, name)
  {
    var w, e :| && w in Index(wanted) && w.saltManaged && HasKey(s, e) && w.name == name && e.name == name
                && Clash(w.rtype, e.rtype)
                && (Excluded(exclude, name) || (HandsOff(Flags(wanted), name) && e !in Index(wanted)));
    var id :| id in s && BodyKey(s[id]) == e;
    LetStayIff(s[id], exclude, wanted);
    var j := PlaceOf(wanted, w);
    assert CollidesWith(s[id], exclude, wanted, j, name);
  }

  lemma PlaceOf(wanted: seq<Record>, w: Key) returns (j: nat)
    requires w in Index(wanted)
    ensures j < |wanted| && wanted[j].KeyOf() == w
  {
    j :| 0 <= j < |wanted| && wanted[j] == Index(wanted)[w];
  }

  /** Which keys are added and removed. */
  lemma HappenedIff(existing: seq<Record>, wanted: seq<Record>, ops: seq<Op>, key: Key)
    requires Plan(ops, Index(existing), Index(wanted), Flags(wanted))
    ensures Happened(ops, |ops|, Add, key) <==> key in Index(wanted) && key !in Index(existing) && key.saltManaged
    ensures Happened(ops, |ops|, Remove, key)
            <==> key in Index(existing) && key !in Index(wanted) && !HandsOff(Flags(wanted), key.name)
  {
    var e, w, f := Index(existing), Index(wanted), Flags(wanted);
    forall i | 0 <= i < |ops|
      ensures IsChange(ops[i], e, w, f)
    {
      assert ops[i] in ops;
    }
    if key in w && key !in e && key.saltManaged {
      assert IsChange(Op(Add, w[key]), e, w, f);
      var i :| 0 <= i < |ops| && ops[i] == Op(Add, w[key]);
    }
    if key in e && key !in w && !HandsOff(f, key.name) {
      assert IsChange(Op(Remove, e[key]), e, w, f);
      var i :| 0 <= i < |ops| && ops[i] == Op(Remove, e[key]);
    }
  }

  lemma WantedNoClash(wanted: seq<Record>, a: Key, b: Key)
    requires NoClash(wanted) && a in Index(wanted) && b in Index(wanted) && a != b && a.name == b.name
    ensures !Clash(a.rtype, b.rtype)
  {
    var i :| 0 <= i < |wanted| && wanted[i] == Index(wanted)[a];
    var j :| 0 <= j < |wanted| && wanted[j] == Index(wanted)[b];
    assert i < j || j < i;
  }

  /** An added record is a managed wanted one that the listing does not show. */
  lemma AddedIsWanted(existing: seq<Record>, wanted: seq<Record>, ops: seq<Op>, i: nat, name: string)
    requires Plan(ops, Index(existing), Index(wanted), Flags(wanted)) && AddsAt(ops, i, name)
    ensures var w := ops[i].record.KeyOf();
            w in Index(wanted) && w !in Index(existing) && w.saltManaged && w.name == name
  {
    assert ops[i] in ops;
    assert IsChange(ops[i], Index(existing), Index(wanted), Flags(wanted));
  }

  /** Which records stay. */
  lemma StaysIff(s: Remote, exclude: seq<Pattern>, existing: seq<Record>, wanted: seq<Record>, ops: seq<Op>, id: Id)
    requires Prepared(s, exclude, existing, wanted, ops) && id in s.records
    ensures var e := BodyKey(s.records[id]);
            Stays(ops, s.records, e.name, id) <==>
              Excluded(exclude, e.name) || e in Index(wanted) || HandsOff(Flags(wanted), e.name)
  {
    var e := BodyKey(s.records[id]);
    PlanSound(s, exclude, existing, wanted, ops);
    HappenedIff(existing, wanted, ops, e);
    if !Excluded(exclude, e.name) {
      IndexOfListing(s, exclude, existing, id);
      if Happened(ops, |ops|, Remove, e) {
        var i :| 0 <= i < |ops| && ops[i].action == Remove && ops[i].record.KeyOf() == e;
        assert ops[i].record.id.value == id;
      }
    }
  }

  lemma AddedBesideStaying(s: Remote, exclude: seq<Pattern>, existing: seq<Record>, wanted: seq<Record>, ops: seq<Op>,
                           name: string, x: Id, i: nat)
    requires Prepared(s, exclude, existing, wanted, ops) && NoClash(wanted)
    requires Stays(ops, s.records, name, x) && AddsAt(ops, i, name)
    requires !Stray(s.records, exclude, Index(wanted), Flags(wanted), name)
    ensures !Clash(s.records[x].rtype, ops[i].record.rtype)
  {
    var w, e := ops[i].record.KeyOf(), BodyKey(s.records[x]);
    AddedIsWanted(existing, wanted, ops, i, name);
    StaysIff(s, exclude, existing, wanted, ops, x);
    ClashSymmetric(w.rtype, e.rtype);
    assert HasKey(s.records, e);
    if !Excluded(exclude, name) && e in Index(wanted) {
      IndexOfListing(s, exclude, existing, x);
      WantedNoClash(wanted, w, e);
    }
  }

  lemma NoStrayIsClean(s: Remote, exclude: seq<Pattern>, existing: seq<Record>, wanted: seq<Record>, ops: seq<Op>,
                       name: string)
    requires Prepared(s, exclude, existing, wanted, ops) && NoClash(wanted) && Clean(s.records, name)
    requires !Stray(s.records, exclude, Index(wanted), Flags(wanted), name)
    ensures CleanPlan(ops, s.records, name)
  {
    forall x, i | Stays(ops, s.records, name, x) && AddsAt(ops, i, name)
      ensures !Clash(s.records[x].rtype, ops[i].record.rtype)
    {
      AddedBesideStaying(s, exclude, existing, wanted, ops, name, x, i);
    }
    forall i, j | AddsAt(ops, i, name) && AddsAt(ops, j, name) && i < j
      ensures !Clash(ops[i].record.rtype, ops[j].record.rtype)
    {
      AddedIsWanted(existing, wanted, ops, i, name);
      AddedIsWanted(existing, wanted, ops, j, name);
      PlanSound(s, exclude, existing, wanted, ops);
      WantedNoClash(wanted, ops[i].record.KeyOf(), ops[j].record.KeyOf());
    }
  }

  /** A stray record is added: were it there already, the name would not be clean. */
  lemma StrayIsAdded(s: Remote, exclude: seq<Pattern>, existing: seq<Record>, wanted: seq<Record>, ops: seq<Op>, w: Key,
                     x: Id)
    returns (i: nat)
    requires Prepared(s, exclude, existing, wanted, ops) && Clean(s.records, w.name)
    requires w in Index(wanted) && w.saltManaged && x in s.records && s.records[x].name == w.name
    requires Clash(w.rtype, s.records[x].rtype)
    requires Excluded(exclude, w.name) || BodyKey(s.records[x]) !in Index(wanted)
    ensures AddsAt(ops, i, w.name) && ops[i].record.KeyOf() == w
  {
    if w in Index(existing) {
      IndexedIsVisible(s, exclude, existing, w);
    }
    HappenedIff(existing, wanted, ops, w);
    i :| 0 <= i < |ops| && ops[i].action == Add && ops[i].record.KeyOf() == w;
  }

  lemma StrayBreaks(s: Remote, exclude: seq<Pattern>, existing: seq<Record>, wanted: seq<Record>, ops: seq<Op>,
                    name: string)
    requires Prepared(s, exclude, existing, wanted, ops) && Clean(s.records, name)
    requires Stray(s.records, exclude, Index(wanted), Flags(wanted), name)
    ensures !CleanPlan(ops, s.records, name)
  {
    var w, e :| && w in Index(wanted) && w.saltManaged && HasKey(s.records, e) && w.name == name && e.name == name
                && Clash(w.rtype, e.rtype)
                  && (Excluded(exclude, name) || (HandsOff(Flags(wanted), name) && e !in Index(wanted)));
    var x :| x in s.records && BodyKey(s.records[x]) == e;
    var i := StrayIsAdded(s, exclude, existing, wanted, ops, w, x);
    StaysIff(s, exclude, existing, wanted, ops, x);
    ClashSymmetric(w.rtype, e.rtype);
  }

  /** The plan leaves a name clean exactly when nothing strays there. */
  lemma PlanCleanIff(s: Remote, exclude: seq<Pattern>, existing: seq<Record>, wanted: seq<Record>, ops: seq<Op>,
                     name: string)
    requires Prepared(s, exclude, existing, wanted, ops) && NoClash(wanted) && Clean(s.records, name)
    ensures CleanPlan(ops, s.records, name) <==> !Stray(s.records, exclude, Index(wanted), Flags(wanted), name)
  {
    if Stray(s.records, exclude, Index(wanted), Flags(wanted), name) {
      StrayBreaks(s, exclude, existing, wanted, ops, name);
    } else {
      NoStrayIsClean(s, exclude, existing, wanted, ops, name);
    }
  }

  /**
   From a zone that is clean at a name and an accepted list: if nothing strays, every zone of
   every run is clean there, interrupted runs included; if something does, no completed run is.
   */
  lemma NoBrokenName(s: Remote, exclude: seq<Pattern>, existing: seq<Record>, wanted: seq<Record>, ops: seq<Op>,
                     trace: seq<Remote>, name: string)
    requires Prepared(s, exclude, existing, wanted, ops) && Ordered(ops)
    requires IsRun(ops, trace) && trace[0] == s
    requires NoClash(wanted) && Clean(s.records, name)
    ensures !Stray(s.records, exclude, Index(wanted), Flags(wanted), name) ==>
              forall k :: 0 <= k < |trace| ==> Clean(trace[k].records, name)
    ensures |trace| == |ops| + 1 && Stray(s.records, exclude, Index(wanted), Flags(wanted), name) ==>
              !Clean(trace[|ops|].records, name)
  {
    PlanSound(s, exclude, existing, wanted, ops);
    PlanCleanIff(s, exclude, existing, wanted, ops, name);
    if CleanPlan(ops, s.records, name) {
      forall k | 0 <= k < |trace|
        ensures Clean(trace[k].records, name)
      {
        CleanThroughout(ops, trace, exclude, k, name);
      }
    } else if |trace| == |ops| + 1 && Clean(trace[|ops|].records, name) {
      CompletedIsPlanned(ops, trace, exclude, name);
    }
  }

  /** In every run from the zone `s`, however far it gets, the name stays clean. */
  ghost predicate NeverBroken(ops: seq<Op>, s: Remote, name: string) {
    forall trace: seq<Remote>, k: nat :: IsRun(ops, trace) && trace[0] == s && k < |trace| ==>
        Clean(trace[k].records, name)
  }

  /** Over all runs of the plan, no zone is ever broken at the name if and only if nothing strays there. */
  lemma NoRunBreaksIff(s: Remote, exclude: seq<Pattern>, existing: seq<Record>, wanted: seq<Record>, ops: seq<Op>,
                       name: string)
    requires Prepared(s, exclude, existing, wanted, ops) && Ordered(ops)
    requires NoClash(wanted) && Clean(s.records, name)
    ensures NeverBroken(ops, s, name) <==> !Collides(s.records, exclude, wanted, name)
  {
    StrayIff(s.records, exclude, wanted, name);
    if Stray(s.records, exclude, Index(wanted), Flags(wanted), name) {
      PlanSeparate(s, exclude, existing, wanted, ops);
      var full := RunExtends(ops, [s]);
      assert full[0] == s;
      NoBrokenName(s, exclude, existing, wanted, ops, full, name);
    } else {
      forall trace: seq<Remote>, k: nat | IsRun(ops, trace) && trace[0] == s && k < |trace|
        ensures Clean(trace[k].records, name)
      {
        NoBrokenName(s, exclude, existing, wanted, ops, trace, name);
      }
    }
  }

  /** What every zone of a run, completed or interrupted, promises at every name. */
  ghost predicate SafeRun(ops: seq<Op>, trace: seq<Remote>, exclude: seq<Pattern>, wanted: seq<Record>)
    requires |trace| > 0
  {
    forall name, k :: 0 <= k < |trace| ==> SafeAt(ops, trace, exclude, wanted, name, k)
  }

  ghost predicate SafeAt(ops: seq<Op>, trace: seq<Remote>, exclude: seq<Pattern>, wanted: seq<Record>, name: string,
                         k: nat)
    requires k < |trace|
  {
    var s, t := trace[0].records, trace[k].records;
    && (Clean(s, name) && !Collides(s, exclude, wanted, name) ==> Clean(t, name))
    && (!CnameAt(ops, name) ==> HoldsOld(t, s, name, true) || HoldsNew(t, ops, s, name, true))
    && (HoldsOld(t, s, name, false) || HoldsNew(t, ops, s, name, false))
  }

  lemma RunIsSafe(s: Remote, exclude: seq<Pattern>, existing: seq<Record>, wanted: seq<Record>, ops: seq<Op>,
                  trace: seq<Remote>)
    requires Prepared(s, exclude, existing, wanted, ops) && Ordered(ops) && NoClash(wanted)
    requires IsRun(ops, trace) && trace[0] == s
    ensures SafeRun(ops, trace, exclude, wanted)
  {
    forall name, k | 0 <= k < |trace|
      ensures SafeAt(ops, trace, exclude, wanted, name, k)
    {
      PlanSound(s, exclude, existing, wanted, ops);
      if Clean(s.records, name) {
        StrayIff(s.records, exclude, wanted, name);
        NoBrokenName(s, exclude, existing, wanted, ops, trace, name);
      }
      if !CnameAt(ops, name) {
        NeverDown(ops, trace, exclude, k, name, true);
      }
      NeverDown(ops, trace, exclude, k, name, false);
    }
  }

  /**
   When salt_managed is uniform at a name, something can stray there only if the name is excluded
   and its wanted records are managed.
   */
  lemma UniformNeverStrays(s: map<Id, Body>, exclude: seq<Pattern>, wanted: seq<Record>, name: string)
    requires forall a, b :: a in wanted && b in wanted && a.name == name && b.name == name ==>
               a.saltManaged == b.saltManaged
    ensures Stray(s, exclude, Index(wanted), Flags(wanted), name) ==>
              Excluded(exclude, name) && exists r :: r in wanted && r.name == name && r.saltManaged
  {
    forall w | w in Index(wanted) && w.name == name && w.saltManaged
      ensures !HandsOff(Flags(wanted), name)
      ensures exists r :: r in wanted && r.name == name && r.saltManaged
    {
      UniformManaged(wanted, w);
      assert Index(wanted)[w] in wanted;
    }
  }

  lemma UniformManaged(wanted: seq<Record>, w: Key)
    requires w in Index(wanted) && w.saltManaged
    requires forall a :: a in wanted && a.name == w.name ==> a.saltManaged == Index(wanted)[w].saltManaged
    ensures !HandsOff(Flags(wanted), w.name)
  {
    if w.name in Flags(wanted) {
      assert LastFlag(wanted, w.name, Flags(wanted)[w.name]);
    }
  }

  /** An accepted list with mixed flags at one name that leaves a CNAME beside an address. */
  lemma MixedFlagsStray(name: string, zone: string, exclude: seq<Pattern>)
    requires Belongs(name, zone)
    ensures var wanted := [Record(None, CNAME, name, "www.example.net", None, false, 1, true),
                           Record(None, Other("TXT"), name, "note", None, false, 1, false)];
            var before := map[0 := Body(A, name, "192.0.2.1", None, false, 1)];
            && Accepted(wanted, zone, _ => true) && Clean(before, name)
            && Stray(before, exclude, Index(wanted), Flags(wanted), name)
  {
    MixedStray(name, zone, exclude, "www.example.net", Other("TXT"), "note", "192.0.2.1");
  }

  lemma MixedStray(name: string, zone: string, exclude: seq<Pattern>, target: string, other: RType, text: string,
                   address: string)
    requires Belongs(name, zone) && other.Other?
    ensures var a, b := Record(None, CNAME, name, target, None, false, 1, true),
            Record(None, other, name, text, None, false, 1, false);
            var before := map[0 := Body(A, name, address, None, false, 1)];
            && Accepted([a, b], zone, _ => true) && Clean(before, name)
            && Stray(before, exclude, Index([a, b]), Flags([a, b]), name)
  {
    var a, b := Record(None, CNAME, name, target, None, false, 1, true),
        Record(None, other, name, text, None, false, 1, false);
    TwoAccepted(a, b, zone);
    TwoWanted(a, b);
    TwoStray(a, b, exclude, Index([a, b]), Flags([a, b]), Body(A, name, address, None, false, 1));
  }

  lemma TwoAccepted(a: Record, b: Record, zone: string)
    requires a.name == b.name && Belongs(a.name, zone) && a.ttl == b.ttl == 1 && a.rtype.CNAME? && b.rtype.Other?
    ensures Accepted([a, b], zone, _ => true)
  {
  }

  lemma TwoStray(a: Record, b: Record, exclude: seq<Pattern>, index: map<Key, Record>, flags: map<string, bool>,
                 held: Body)
    requires index.Keys == {a.KeyOf(), b.KeyOf()} && HandsOff(flags, held.name) && a.name == b.name == held.name
    requires a.saltManaged && a.rtype.CNAME? && b.rtype.Other? && held.rtype.A?
    ensures Stray(map[0 := held], exclude, index, flags, held.name)
  {
    var before, e := map[0 := held], BodyKey(held);
    assert BodyKey(before[0]) == e;
    assert a.KeyOf() in index && HasKey(before, e) && e !in index;
  }

  /** An accepted list with one record, at an excluded name, that is posted beside an address. */
  lemma ExcludedStray(name: string, zone: string, exclude: seq<Pattern>, target: string, address: string)
    requires Belongs(name, zone) && Excluded(exclude, name)
    ensures var wanted := [Record(None, CNAME, name, target, None, false, 1, true)];
            var before := map[0 := Body(A, name, address, None, false, 1)];
            && Accepted(wanted, zone, _ => true) && Clean(before, name)
            && Stray(before, exclude, Index(wanted), Flags(wanted), name)
  {
    var r := Record(None, CNAME, name, target, None, false, 1, true);
    var held := Body(A, name, address, None, false, 1);
    var before, e := map[0 := held], BodyKey(held);
    assert BodyKey(before[0]) == e;
    assert r in [r] && r.KeyOf() in Index([r]) && HasKey(before, e);
  }

  lemma TwoWanted(a: Record, b: Record)
    requires a.name == b.name && a.rtype != b.rtype
    ensures Flags([a, b]).Keys == {a.name} && Flags([a, b])[a.name] == b.saltManaged
    ensures Index([a, b]).Keys == {a.KeyOf(), b.KeyOf()}
  {
    var wanted := [a, b];
    assert wanted[..1] == [a];
    assert a in wanted && b in wanted;
    assert wanted[0] == a && wanted[1] == b;
    assert Flags(wanted) == Flags([a])[b.name := b.saltManaged];
    forall k | k in Index(wanted)
      ensures k == a.KeyOf() || k == b.KeyOf()
    {
      assert Index(wanted)[k] in wanted;
    }
    forall n | n in Flags(wanted)
      ensures n == a.name
    {
      var i :| 0 <= i < |wanted| && wanted[i].name == n;
    }
  }
}
