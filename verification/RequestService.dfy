/** The code that moves requests along, as it loops over requests and webhooks. */
module RequestService {
  import opened Common
  import opened Lifecycle

  // ----- Review

  function ReviewStep(approve: bool, submitted: bool): Step {
    if approve then Approve(submitted) else Deny
  }

  function Fine(approve: bool, submitted: string -> bool): string -> bool {
    id => !approve || submitted(id)
  }

  /** Of the listed requests those that were pending have taken the step, and no other has. */
  ghost predicate IsReviewed(c: Settings, before: map<string, Request>, after: map<string, Request>,
                             ids: seq<string>, approve: bool, submitted: string -> bool) {
    && after.Keys == before.Keys
    && forall id :: id in after ==>
         after[id] == if id in ids && before[id].status == Pending
                      then Next(c, before[id], ReviewStep(approve, submitted(id)))
                      else before[id]
  }

  lemma ReviewedOneMore(c: Settings, before: map<string, Request>, after: map<string, Request>,
                        ids: seq<string>, id: string, approve: bool, submitted: string -> bool)
    requires IsReviewed(c, before, after, ids, approve, submitted)
    ensures id in after && after[id].status == Pending <==>
              id !in ids && id in before && before[id].status == Pending
    ensures IsReviewed(c, before,
                       if id in after && after[id].status == Pending
                       then after[id := Next(c, after[id], ReviewStep(approve, submitted(id)))] else after,
                       ids + [id], approve, submitted)
  {
  }

  /** Every listed request is reported as often as it is listed: as succeeded the first
      time, if it was pending and nothing went wrong, and otherwise as failed. */
  ghost predicate IsReported(before: map<string, Request>, ids: seq<string>, fine: string -> bool,
                             succeeded: seq<string>, failed: seq<string>) {
    && (forall id :: id in succeeded <==> id in ids && id in before && before[id].status == Pending && fine(id))
    && (forall i, j :: 0 <= i < j < |succeeded| ==> succeeded[i] != succeeded[j])
    && multiset(succeeded) + multiset(failed) == multiset(ids)
  }

  lemma ReportedOneMore(before: map<string, Request>, ids: seq<string>, fine: string -> bool,
                        succeeded: seq<string>, failed: seq<string>, id: string)
    requires IsReported(before, ids, fine, succeeded, failed)
    ensures if id !in ids && id in before && before[id].status == Pending && fine(id)
            then IsReported(before, ids + [id], fine, succeeded + [id], failed)
            else IsReported(before, ids + [id], fine, succeeded, failed + [id])
  {
  }

  /** The request is one that some steps lead to. */
  ghost predicate Lived(c: Settings, r: Request) {
    exists steps :: r == After(c, steps)
  }

  lemma LivesOn(c: Settings, r: Request, step: Step)
    requires Lived(c, r)
    ensures Lived(c, Next(c, r, step))
  {
    var steps :| r == After(c, steps);
    assert (steps + [step])[..|steps|] == steps;
    assert Next(c, r, step) == After(c, steps + [step]);
  }

  lemma ReviewedLive(c: Settings, before: map<string, Request>, after: map<string, Request>,
                     ids: seq<string>, approve: bool, submitted: string -> bool)
    requires IsReviewed(c, before, after, ids, approve, submitted)
    requires forall id :: id in before ==> Lived(c, before[id])
    ensures forall id :: id in after ==> Lived(c, after[id])
  {
    forall id | id in after ensures Lived(c, after[id]) {
      LivesOn(c, before[id], ReviewStep(approve, submitted(id)));
    }
  }

  class RequestStore {
    const settings: Settings
    var requests: map<string, Request>

    /** Every stored request has come about by steps of the machine. */
    ghost predicate Valid()
      reads this
    {
      forall id :: id in requests ==> Lived(settings, requests[id])
    }

    /** So every stored request of a system that requires approval is safe. */
    lemma StoredAreSafe()
      requires Valid() && settings.manualApproval
      ensures forall id :: id in requests ==> Safe(requests[id]) && Inv(requests[id])
    {
      forall id | id in requests ensures Safe(requests[id]) && Inv(requests[id]) {
        var steps :| requests[id] == After(settings, steps);
        InvAlways(settings, steps);
      }
    }

    constructor (settings: Settings)
      ensures this.settings == settings && requests == map[] && Valid()
    {
      this.settings := settings;
      requests := map[];
    }

    method Create(id: string)
      requires Valid()
      modifies this
      ensures Valid()
      ensures id in requests && requests == old(requests)[id := requests[id]]
      ensures var r := requests[id];
              && r.status == Pending && !r.approved && !r.started && !r.finished
              && r.triggered == [] && r.executions == 0 && !r.executionFailed && r.pausedBy == None
              && r.runs == if settings.manualApproval then [] else [Run(Submitted(None), false)]
    {
      var runs := if settings.manualApproval then [] else [Run(Submitted(None), false)];
      var r := Request(Pending, false, false, false, runs, [], 0, false, None);
      assert r == After(settings, []);
      requests := requests[id := r];
    }

    /** A pending request is approved, and a run submitted for it, or it is denied. */
    method ReviewOne(id: string, approve: bool, submitted: bool) returns (ok: bool)
      modifies this
      ensures ok <==> id in old(requests) && old(requests)[id].status == Pending
      ensures !ok ==> requests == old(requests)
      ensures ok ==>
                var r := old(requests)[id];
                requests == old(requests)[id :=
                  if !approve then r.(status := Denied)
                  else if submitted
                  then r.(status := Approved, approved := true, runs := r.runs + [Run(Submitted(None), false)])
                  else r.(status := Approved, approved := true)]
    {
      ok := id in requests && requests[id].status == Pending;
      if ok {
        var r := requests[id];
        if approve {
          r := r.(status := Approved, approved := true);
          if submitted { r := r.(runs := r.runs + [Run(Submitted(None), false)]); }
        } else {
          r := r.(status := Denied);
        }
        requests := requests[id := r];
      }
    }

    /** Approves or denies the listed requests. One that does not exist or is not pending,
        for instance because it was listed before, is reported and left alone; the others
        take one step each, and are reported too when an approved one's run could not be
        submitted. */
    method Review(ids: seq<string>, approve: bool, submitted: string -> bool)
      returns (succeeded: seq<string>, failed: seq<string>)
      requires Valid()
      modifies this
      ensures Valid()
      ensures IsReviewed(settings, old(requests), requests, ids, approve, submitted)
      ensures IsReported(old(requests), ids, Fine(approve, submitted), succeeded, failed)
    {
      succeeded, failed := [], [];
      ghost var before := requests;
      for n := 0 to |ids|
        invariant IsReviewed(settings, before, requests, ids[..n], approve, submitted)
        invariant IsReported(before, ids[..n], Fine(approve, submitted), succeeded, failed)
      {
        var id := ids[n];
        assert ids[..n+1] == ids[..n] + [id];
        ReviewedOneMore(settings, before, requests, ids[..n], id, approve, submitted);
        ReportedOneMore(before, ids[..n], Fine(approve, submitted), succeeded, failed, id);
        var ok := ReviewOne(id, approve, submitted(id));
        if ok && Fine(approve, submitted)(id) {
          succeeded := succeeded + [id];
        } else {
          failed := failed + [id];
        }
      }
      assert ids[..|ids|] == ids;
      ReviewedLive(settings, before, requests, ids, approve, submitted);
    }

    method ResumeRequest(id: string, token: int) returns (ok: bool)
      requires Valid()
      modifies this
      ensures Valid()
      ensures ok <==> id in old(requests) && old(requests)[id].status == Paused
      ensures !ok ==> requests == old(requests)
      ensures ok ==>
                var r := old(requests)[id];
                requests == old(requests)[id :=
                  r.(status := InProcessing, runs := r.runs + [Run(Submitted(Some(token)), false)])]
    {
      ok := id in requests && requests[id].status == Paused;
      if ok {
        LivesOn(settings, requests[id], Resume(token));
        var r := requests[id].(status := InProcessing);
        requests := requests[id := r.(runs := r.runs + [Run(Submitted(Some(token)), false)])];
      }
    }

    method MarkPausedAsExpired(id: string)
      requires Valid()
      modifies this
      ensures Valid()
      ensures requests == if id in old(requests) && old(requests)[id].status == Paused
                          then old(requests)[id := old(requests)[id].(status := Error, finished := true)]
                          else old(requests)
    {
      if id in requests && requests[id].status == Paused {
        LivesOn(settings, requests[id], Expire);
        requests := requests[id := requests[id].(status := Error, finished := true)];
      }
    }

    /** One step of an active run, at which a worker calls a webhook or executes. */
    method AdvanceOne(id: string, run: nat, response: Response)
      requires Valid()
      modifies this
      ensures Valid()
      ensures requests == if id in old(requests) && run < |old(requests)[id].runs|
                          then old(requests)[id := AdvanceRun(settings, old(requests)[id], run, response)]
                          else old(requests)
    {
      if id in requests && run < |requests[id].runs| {
        LivesOn(settings, requests[id], Advance(run, response));
        requests := requests[id := AdvanceRun(settings, requests[id], run, response)];
      }
    }
  }
}
