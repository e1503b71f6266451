/** The `manage_zone_records` state: the API object, applying a plan, and the whole state run. */
module CloudflareState {
  import opened CloudflareRecords
  import opened CloudflarePlan
  import opened CloudflareZone
  import opened CloudflareConvergence

  /** The remote end of the API. DELETE and PUT of an unknown identifier answer with an error. */
  class Api {
    var remote: Remote

    constructor (remote: Remote)
      ensures this.remote == remote
    {
      this.remote := remote;
    }

    method Call(op: Op) returns (ok: bool)
      modifies this
      ensures ok <==> op.action.Add? || (op.record.id.Some? && op.record.id.value in old(remote).records)
      ensures ok ==> Step(op, old(remote), remote)
      ensures !ok ==> remote == old(remote)
    {
      match op.action
      case Add =>
        remote := Remote(remote.records[remote.next := op.record.Json()], remote.next + 1);
        return true;
      case Remove =>
        if op.record.id.None? || op.record.id.value !in remote.records {
          return false;
        }
        remote := remote.(records := remote.records - {op.record.id.value});
        return true;
      case Update =>
        if op.record.id.None? || op.record.id.value !in remote.records {
          return false;
        }
        remote := remote.(records := remote.records[op.record.id.value := op.record.Json()]);
        return true;
    }
  }

  /**
   Applies the operations one call at a time. The request after the first `outage` ones fails
   for reasons of its own, and took effect all the same if only its answer is `lost`; a failed
   call raises and the rest is not attempted.
   */
  method Apply(api: Api, ops: seq<Op>, outage: nat, lost: bool) returns (ok: bool, ghost trace: seq<Remote>)
    modifies api
    ensures IsRun(ops, trace) && trace[0] == old(api.remote) && trace[|trace| - 1] == api.remote
    ensures ok ==> |trace| == |ops| + 1
    ensures Separate(ops, old(api.remote)) ==>
              && (ok <==> |ops| <= outage)
              && |trace| == 1 + if ok then |ops| else if lost then outage + 1 else outage
  {
    trace := [api.remote];
    for i := 0 to |ops|
      invariant |trace| == i + 1 && i <= outage
      invariant IsRun(ops, trace) && trace[0] == old(api.remote) && trace[i] == api.remote
    {
      if i == outage && !lost {
        return false, trace;
      }
      if Separate(ops, trace[0]) && !ops[i].action.Add? {
        NeverUnknown(ops, trace, i);
      }
      var done := api.Call(ops[i]);
      if !done {
        return false, trace;
      }
      trace := trace + [api.remote];
      if i == outage {
        return false, trace;
      }
    }
    return true, trace;
  }

  datatype Verdict =
    | Rejected(error: Error)
    | UpToDate
    | WouldChange(count: nat)
    | Changed(count: nat)
    | Interrupted

  /**
   One run of the state. Whatever the outcome, the zone went through a run of an ordered plan
   each zone of which is safe; when it completes, the zone is reconciled with the wanted records.
   */
  method ManageZoneRecords(api: Api, name: string, found: string, dicts: seq<RecordDict>, exclude: seq<Pattern>,
                           pages: seq<Page>, synthesizes: Record -> bool, test: bool, outage: nat, lost: bool)
    returns (outcome: Verdict, ghost ops: seq<Op>, ghost trace: seq<Remote>)
    requires api.remote.Valid() && Paginates(pages, api.remote.records)
    modifies api
    ensures IsRun(ops, trace) && trace[0] == old(api.remote) && trace[|trace| - 1] == api.remote && Ordered(ops)
    ensures outcome.Rejected?
            <==> !(found == name && Desired(dicts).Ok? && Accepted(Desired(dicts).value, name, synthesizes))
    ensures outcome == Rejected(ZoneMismatch) <==> found != name
    ensures outcome.Rejected? || outcome.UpToDate? || outcome.WouldChange? ==> api.remote == old(api.remote)
    ensures outcome.WouldChange? || outcome.Changed? ==> outcome.count == |ops| > 0 && test == outcome.WouldChange?
    ensures !outcome.Rejected? && Distinct(old(api.remote).records, exclude) ==>
              var wanted := Desired(dicts).value;
              && NoClash(wanted) && WellFormed(wanted)
              && (exists existing :: Prepared(old(api.remote), exclude, existing, wanted, ops))
              && (outcome.UpToDate? <==> ops == [])
              && (outcome.UpToDate? || outcome.Changed? ==>
                    Outcome(old(api.remote).records, api.remote.records, exclude, wanted))
              && (outcome.Interrupted? ==> outage < |ops|)
              && SafeRun(ops, trace, exclude, wanted)
  {
    ops, trace := [], [api.remote];
    if found != name {
      return Rejected(ZoneMismatch), ops, trace;
    }
    var desired := Desired(dicts);
    if desired.Err? {
      return Rejected(desired.error), ops, trace;
    }
    var wanted := desired.value;
    var checked := SanityCheck(name, found, wanted, synthesizes);
    if checked.Err? {
      return Rejected(checked.error), ops, trace;
    }
    var existing, _ := Existing(pages, exclude, api.remote.records);
    var diff := Diff(existing, wanted);
    ops := diff;
    ghost var before := api.remote;
    if |diff| == 0 {
      if Distinct(before.records, exclude) {
        assert Prepared(before, exclude, existing, wanted, ops);
        Convergence(before, exclude, existing, wanted, ops, trace);
        ConvergedOutcome(before.records, trace[|ops|].records, exclude, wanted);
        RunIsSafe(before, exclude, existing, wanted, ops, trace);
      }
      return UpToDate, ops, trace;
    }
    if test {
      if Distinct(before.records, exclude) {
        assert Prepared(before, exclude, existing, wanted, ops);
        RunIsSafe(before, exclude, existing, wanted, ops, trace);
      }
      return WouldChange(|diff|), ops, trace;
    }
    if Distinct(before.records, exclude) {
      PlanSeparate(before, exclude, existing, wanted, ops);
    }
    var ok;
    ok, trace := Apply(api, diff, outage, lost);
    if Distinct(before.records, exclude) {
      assert Prepared(before, exclude, existing, wanted, ops);
      RunIsSafe(before, exclude, existing, wanted, ops, trace);
      if ok {
        Convergence(before, exclude, existing, wanted, ops, trace);
        ConvergedOutcome(before.records, trace[|ops|].records, exclude, wanted);
      }
    }
    return if ok then Changed(|diff|) else Interrupted, ops, trace;
  }
}
