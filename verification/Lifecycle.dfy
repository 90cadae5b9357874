/** The life of a privacy request: review, runs with their webhooks, pausing, resuming
    and expiry, as atomic steps that may interleave in any way. */
module Lifecycle {
  import opened Common

  datatype Status = Pending | Approved | Denied | InProcessing | Complete | Paused | Error

  /** The settings of the system and of the request's policy. A pre-execution webhook is
      known by its order. */
  datatype Settings = Settings(manualApproval: bool, pre: seq<int>, post: nat, hasRules: bool)

  /** What a webhook call or the execution comes to. `Reject` stands for an unsuccessful
      or invalid response, `Crash` for an exception nobody catches. */
  datatype Response = Continue | Halt | Reject | Crash

  /** How far a run has come: submitted (to go on after some webhook), calling the
      pre-execution webhooks left, executing, calling post-execution webhooks. */
  datatype Phase = Submitted(from: Option<int>) | Pre(left: seq<int>) | Executing | Post(count: nat)

  datatype Run = Run(phase: Phase, failed: bool)

  datatype Request = Request(
    status: Status,
    approved: bool,
    started: bool,
    finished: bool,
    runs: seq<Run>,
    triggered: seq<int>,
    executions: nat,
    executionFailed: bool,
    pausedBy: Option<int>)

  datatype Step =
    | Approve(submitted: bool)
    | Deny
    | Resume(token: int)
    | Expire
    | Advance(run: nat, response: Response)

  /** The webhooks ordered after a given one. */
  function Above(hooks: seq<int>, order: int): seq<int> {
    if hooks == [] then []
    else (if hooks[0] > order then [hooks[0]] else []) + Above(hooks[1..], order)
  }

  const FRESH := Run(Submitted(None), false)

  function Created(c: Settings): Request {
    Request(Pending, false, false, false, if c.manualApproval then [] else [FRESH], [], 0, false, None)
  }

  function WithoutRun(runs: seq<Run>, i: nat): seq<Run>
    requires i < |runs|
  {
    runs[..i] + runs[i+1..]
  }

  function InPhase(r: Request, i: nat, phase: Phase): Request
    requires i < |r.runs|
  {
    r.(runs := r.runs[i := r.runs[i].(phase := phase)])
  }

  function Stopped(r: Request, i: nat): Request
    requires i < |r.runs|
  {
    r.(runs := WithoutRun(r.runs, i))
  }

  function Rejected(r: Request, i: nat): Request
    requires i < |r.runs|
  {
    Stopped(r, i).(status := Error, finished := true)
  }

  /** A run begins by listing the webhooks to call. */
  function StartStep(c: Settings, r: Request, i: nat, from: Option<int>): Request
    requires i < |r.runs|
  {
    InPhase(r, i, Pre(if from.None? then c.pre else Above(c.pre, from.value))).(started := true)
  }

  /** The next pre-execution webhook is called; after the last, execution begins. */
  function PreStep(c: Settings, r: Request, i: nat, left: seq<int>, response: Response): Request
    requires i < |r.runs|
  {
    if left == [] then
      if response == Crash || !c.hasRules then Stopped(r, i)
      else InPhase(r, i, Executing).(executions := r.executions + 1)
    else
      var called := r.(triggered := r.triggered + [left[0]]);
      match response
      case Continue => InPhase(called, i, Pre(left[1..]))
      case Halt => Stopped(called, i).(status := Paused, pausedBy := Some(left[0]))
      case Reject => Rejected(called, i)
      case Crash => Stopped(called, i)
  }

  /** Whatever goes wrong in execution is caught and remembered. */
  function ExecuteStep(c: Settings, r: Request, i: nat, response: Response): Request
    requires i < |r.runs|
  {
    var failed := response != Continue;
    r.(runs := r.runs[i := Run(Post(c.post), failed)], executionFailed := failed)
  }

  /** The next post-execution webhook is called; after the last, the run is finished. A
      post-execution webhook cannot halt. */
  function PostStep(r: Request, i: nat, count: nat, response: Response): Request
    requires i < |r.runs|
  {
    if response == Crash then Stopped(r, i)
    else if count > 0 then
      if response == Reject then Rejected(r, i) else InPhase(r, i, Post(count - 1))
    else Stopped(r, i).(status := if r.runs[i].failed then Error else Complete, finished := true)
  }

  /** One step of the active run `i`. */
  function AdvanceRun(c: Settings, r: Request, i: nat, response: Response): Request
    requires i < |r.runs|
  {
    match r.runs[i].phase
    case Submitted(from) => StartStep(c, r, i, from)
    case Pre(left) => PreStep(c, r, i, left, response)
    case Executing => ExecuteStep(c, r, i, response)
    case Post(count) => PostStep(r, i, count, response)
  }

  /** The endpoints refuse, changing nothing, when the status is not the one they act on. */
  function Next(c: Settings, r: Request, step: Step): Request {
    match step
    case Approve(submitted) =>
      if r.status != Pending then r
      else r.(status := Approved, approved := true, runs := if submitted then r.runs + [FRESH] else r.runs)
    case Deny => if r.status != Pending then r else r.(status := Denied)
    case Resume(token) =>
      if r.status != Paused then r
      else r.(status := InProcessing, runs := r.runs + [Run(Submitted(Some(token)), false)])
    case Expire => if r.status != Paused then r else r.(status := Error, finished := true)
    case Advance(i, response) => if i < |r.runs| then AdvanceRun(c, r, i, response) else r
  }

  function After(c: Settings, steps: seq<Step>): Request {
    if steps == [] then Created(c) else Next(c, After(c, steps[..|steps|-1]), steps[|steps|-1])
  }

  // ----- Safety in every interleaving

  ghost predicate Safe(r: Request) {
    && (r.runs != [] ==> r.approved)
    && |r.runs| <= 1
    && (r.executions > 0 ==> r.approved)
    && (r.status == Complete ==> !r.executionFailed)
    && (r.status == Complete || r.status == Error ==> r.finished)
  }

  predicate Final(s: Status) {
    s == Denied || s == Complete || s == Error
  }

  ghost predicate Inv(r: Request) {
    && |r.runs| <= 1
    && (r.status == Pending || r.status == Denied ==> r.runs == [] && r.executions == 0)
    && (r.status == Paused || Final(r.status) ==> r.runs == [])
    && (r.status != Pending && r.status != Denied ==> r.approved)
    && (r.status == Complete ==> !r.executionFailed)
    && (r.status == Complete || r.status == Error ==> r.finished)
    && (|r.runs| == 1 && r.runs[0].phase.Post? ==> r.runs[0].failed == r.executionFailed)
  }

  lemma StoppedHasNoRun(r: Request)
    requires |r.runs| == 1
    ensures Stopped(r, 0).runs == []
  {
  }

  lemma PreKeepsInv(c: Settings, r: Request, left: seq<int>, response: Response)
    requires Inv(r) && |r.runs| == 1
    ensures Inv(PreStep(c, r, 0, left, response))
  {
    StoppedHasNoRun(r);
  }

  lemma PostKeepsInv(r: Request, count: nat, response: Response)
    requires Inv(r) && |r.runs| == 1 && r.runs[0].phase.Post?
    ensures Inv(PostStep(r, 0, count, response))
  {
    StoppedHasNoRun(r);
  }

  lemma AdvanceKeepsInv(c: Settings, r: Request, i: nat, response: Response)
    requires Inv(r) && i < |r.runs|
    ensures Inv(AdvanceRun(c, r, i, response))
  {
    match r.runs[i].phase
    case Submitted(_) =>
    case Pre(left) => PreKeepsInv(c, r, left, response);
    case Executing =>
    case Post(count) => PostKeepsInv(r, count, response);
  }

  lemma NextKeepsInv(c: Settings, r: Request, step: Step)
    requires Inv(r)
    ensures Inv(Next(c, r, step))
    ensures Final(r.status) ==> Next(c, r, step) == r
  {
    if step.Advance? && step.run < |r.runs| { AdvanceKeepsInv(c, r, step.run, step.response); }
  }

  lemma {:induction false} InvAlways(c: Settings, steps: seq<Step>)
    requires c.manualApproval
    ensures Inv(After(c, steps))
    decreases |steps|
  {
    if steps != [] {
      InvAlways(c, steps[..|steps|-1]);
      NextKeepsInv(c, After(c, steps[..|steps|-1]), steps[|steps|-1]);
    }
  }

  lemma {:induction false} FinalStays(c: Settings, steps: seq<Step>, more: seq<Step>)
    requires c.manualApproval && Final(After(c, steps).status)
    ensures After(c, steps + more) == After(c, steps)
    decreases |more|
  {
    if more == [] {
      assert steps + more == steps;
    } else {
      var n := |more| - 1;
      assert (steps + more)[..|steps + more|-1] == steps + more[..n];
      FinalStays(c, steps, more[..n]);
      InvAlways(c, steps);
      NextKeepsInv(c, After(c, steps), more[n]);
    }
  }

  /** The run at `i` is gone or has moved on; the others are as and where they were, and so
      is the approval. */
  ghost predicate OthersStay(r: Request, i: nat, t: Request)
    requires i < |r.runs|
  {
    && (|| t.runs == r.runs[..i] + r.runs[i+1..]
        || (|t.runs| == |r.runs| && forall j :: 0 <= j < |r.runs| && j != i ==> t.runs[j] == r.runs[j]))
    && t.approved == r.approved && r.triggered <= t.triggered
  }

  lemma PreOthers(c: Settings, r: Request, i: nat, left: seq<int>, response: Response)
    requires i < |r.runs|
    ensures OthersStay(r, i, PreStep(c, r, i, left, response))
  {
  }

  lemma PostOthers(r: Request, i: nat, count: nat, response: Response)
    requires i < |r.runs|
    ensures OthersStay(r, i, PostStep(r, i, count, response))
  {
  }

  /** A step of one run leaves the other runs alone. */
  lemma OtherRunsStay(c: Settings, r: Request, i: nat, response: Response)
    requires i < |r.runs|
    ensures OthersStay(r, i, AdvanceRun(c, r, i, response))
  {
    match r.runs[i].phase
    case Submitted(_) =>
    case Pre(left) => PreOthers(c, r, i, left, response);
    case Executing =>
    case Post(count) => PostOthers(r, i, count, response);
  }

  /** Every interleaving is safe just when requests need manual approval: a request runs
      only once approved, in one run at a time; a run whose execution failed does not end
      complete; complete and error requests have a finish time. */
  lemma SafeIffApprovalRequired(c: Settings)
    ensures (forall steps :: Safe(After(c, steps))) <==> c.manualApproval
  {
    if c.manualApproval {
      forall steps ensures Safe(After(c, steps)) { InvAlways(c, steps); }
    } else {
      assert After(c, []) == Created(c);
      assert !Safe(After(c, []));
    }
  }

  /** Without manual approval, approving a request that already runs starts a second run. */
  lemma TwoRunsWithoutApproval(c: Settings)
    requires !c.manualApproval
    ensures |After(c, [Approve(true)]).runs| == 2
  {
    assert [Approve(true)][..0] == [];
  }

  // ----- Every pre-execution webhook exactly once

  ghost predicate Increasing(s: seq<int>) {
    forall i, j :: 0 <= i < j < |s| ==> s[i] < s[j]
  }

  /** Every resume comes with the token of the webhook that paused the request. */
  ghost predicate TokensMatch(c: Settings, steps: seq<Step>)
    decreases |steps|
  {
    steps == [] ||
    (var before := steps[..|steps|-1];
     && TokensMatch(c, before)
     && (steps[|steps|-1].Resume? && After(c, before).status == Paused ==>
           After(c, before).pausedBy == Some(steps[|steps|-1].token)))
  }

  lemma {:induction false} InAbove(hooks: seq<int>, order: int, h: int)
    ensures h in Above(hooks, order) <==> h in hooks && h > order
    decreases |hooks|
  {
    if hooks != [] {
      InAbove(hooks[1..], order, h);
      assert hooks == [hooks[0]] + hooks[1..];
    }
  }

  lemma {:induction false} AboveFrom(hooks: seq<int>, order: int, n: nat)
    requires n <= |hooks|
    requires forall i :: 0 <= i < n ==> hooks[i] <= order
    requires forall i :: n <= i < |hooks| ==> hooks[i] > order
    ensures Above(hooks, order) == hooks[n..]
    decreases |hooks|
  {
    if hooks != [] {
      var rest := hooks[1..];
      assert forall i :: 0 <= i < |rest| ==> rest[i] == hooks[i+1];
      AboveFrom(rest, order, if n == 0 then 0 else n - 1);
      if n == 0 { assert hooks == [hooks[0]] + rest; } else { assert rest[n-1..] == hooks[n..]; }
    }
  }

  lemma AboveOwn(hooks: seq<int>, n: nat)
    requires Increasing(hooks) && n < |hooks|
    ensures Above(hooks, hooks[n]) == hooks[n+1..]
  {
    AboveFrom(hooks, hooks[n], n + 1);
  }

  lemma {:induction false} FirstAbove(hooks: seq<int>, order: int, n: nat) returns (m: nat)
    requires Increasing(hooks) && n <= |hooks| && forall i :: 0 <= i < n ==> hooks[i] <= order
    ensures m <= |hooks| && Above(hooks, order) == hooks[m..]
    ensures (forall i :: 0 <= i < m ==> hooks[i] <= order) && forall i :: m <= i < |hooks| ==> hooks[i] > order
    decreases |hooks| - n
  {
    if n == |hooks| || hooks[n] > order {
      m := n;
      AboveFrom(hooks, order, n);
    } else {
      m := FirstAbove(hooks, order, n + 1);
    }
  }

  /** Whatever webhook the token is for, a run that was paused by the webhook at `n` takes
      up where the pause left off just when the token's order is that webhook's, or lies
      before the next one's. */
  lemma ResumeContinues(hooks: seq<int>, n: nat, token: int)
    requires Increasing(hooks) && n < |hooks|
    ensures Above(hooks, token) == hooks[n+1..] <==>
              hooks[n] <= token && (n + 1 < |hooks| ==> token < hooks[n+1])
    ensures token in hooks ==> (Above(hooks, token) == hooks[n+1..] <==> token == hooks[n])
  {
    var m := FirstAbove(hooks, token, 0);
    assert hooks[m..] == hooks[n+1..] ==> |hooks[m..]| == |hooks[n+1..]|;
    if token in hooks {
      var t :| 0 <= t < |hooks| && hooks[t] == token;
      assert t + 1 < |hooks| ==> hooks[t] < hooks[t+1];
    }
  }

  ghost predicate RunHooks(c: Settings, r: Request, phase: Phase) {
    match phase
    case Submitted(from) =>
      && r.executions == 0
      && from == if r.triggered == [] then None else Some(r.triggered[|r.triggered|-1])
    case Pre(left) => r.triggered + left == c.pre && r.executions == 0
    case Executing => r.triggered == c.pre
    case Post(_) => r.triggered == c.pre
  }

  /** The webhooks triggered so far are the first ones; a run has the others left, and an
      execution has begun only after all of them. */
  ghost predicate HooksOf(c: Settings, r: Request) {
    && r.triggered <= c.pre
    && (c.manualApproval && r.status == Pending ==> r.triggered == [])
    && (r.status == Paused ==> r.triggered != [] && r.pausedBy == Some(r.triggered[|r.triggered|-1]))
    && (r.executions > 0 ==> r.triggered == c.pre)
    && (r.status == Paused ==> r.executions == 0)
    && r.executions <= 1
    && (|r.runs| == 1 ==> RunHooks(c, r, r.runs[0].phase))
  }

  /** Nobody approves requests that run without approval. */
  ghost predicate ApprovedOnce(c: Settings, steps: seq<Step>) {
    c.manualApproval || forall i :: 0 <= i < |steps| ==> !steps[i].Approve?
  }

  /** Runs do not overlap, and none is active in a pause or ahead of an approval. */
  ghost predicate OneRun(c: Settings, r: Request) {
    && |r.runs| <= 1
    && (r.status == Paused ==> r.runs == [])
    && (c.manualApproval && r.status == Pending ==> r.runs == [] && r.executions == 0)
  }

  lemma PreKeepsOneRun(c: Settings, r: Request, left: seq<int>, response: Response)
    requires OneRun(c, r) && |r.runs| == 1
    ensures OneRun(c, PreStep(c, r, 0, left, response))
  {
    StoppedHasNoRun(r);
  }

  lemma PostKeepsOneRun(c: Settings, r: Request, count: nat, response: Response)
    requires OneRun(c, r) && |r.runs| == 1
    ensures OneRun(c, PostStep(r, 0, count, response))
  {
    StoppedHasNoRun(r);
  }

  lemma AdvanceKeepsOneRun(c: Settings, r: Request, response: Response)
    requires OneRun(c, r) && |r.runs| == 1
    ensures OneRun(c, AdvanceRun(c, r, 0, response))
  {
    match r.runs[0].phase
    case Submitted(_) =>
    case Pre(left) => PreKeepsOneRun(c, r, left, response);
    case Executing =>
    case Post(count) => PostKeepsOneRun(c, r, count, response);
  }

  lemma NextKeepsOneRun(c: Settings, r: Request, step: Step)
    requires OneRun(c, r) && (step.Approve? ==> c.manualApproval)
    ensures OneRun(c, Next(c, r, step))
  {
    if step.Advance? && step.run < |r.runs| { AdvanceKeepsOneRun(c, r, step.response); }
  }

  lemma {:induction false} OneRunAlways(c: Settings, steps: seq<Step>)
    requires ApprovedOnce(c, steps)
    ensures OneRun(c, After(c, steps))
    decreases |steps|
  {
    if steps != [] {
      OneRunAlways(c, steps[..|steps|-1]);
      NextKeepsOneRun(c, After(c, steps[..|steps|-1]), steps[|steps|-1]);
    }
  }

  lemma StartKeepsHooks(c: Settings, r: Request)
    requires Increasing(c.pre) && HooksOf(c, r) && |r.runs| == 1 && r.runs[0].phase.Submitted?
    ensures HooksOf(c, StartStep(c, r, 0, r.runs[0].phase.from))
  {
    if r.triggered == [] {
      assert r.triggered + c.pre == c.pre;
    } else {
      AboveOwn(c.pre, |r.triggered| - 1);
      var n := |r.triggered|;
      assert c.pre[n-1] == r.triggered[n-1] && c.pre[..n] == r.triggered;
      assert c.pre[..n] + c.pre[n..] == c.pre;
    }
  }

  lemma CallKeepsHooks(c: Settings, r: Request, left: seq<int>, response: Response)
    requires HooksOf(c, r) && OneRun(c, r) && |r.runs| == 1 && r.runs[0].phase == Pre(left) && left != []
    ensures HooksOf(c, PreStep(c, r, 0, left, response))
  {
    var called := r.(triggered := r.triggered + [left[0]]);
    assert called.triggered + left[1..] == c.pre;
    assert called.triggered <= c.pre;
    StoppedHasNoRun(called);
  }

  lemma PreKeepsHooks(c: Settings, r: Request, response: Response)
    requires HooksOf(c, r) && OneRun(c, r) && |r.runs| == 1 && r.runs[0].phase.Pre?
    ensures HooksOf(c, PreStep(c, r, 0, r.runs[0].phase.left, response))
  {
    var left := r.runs[0].phase.left;
    if left == [] {
      StoppedHasNoRun(r);
      assert r.triggered + [] == r.triggered;
    } else {
      CallKeepsHooks(c, r, left, response);
    }
  }

  lemma ExecuteKeepsHooks(c: Settings, r: Request, response: Response)
    requires HooksOf(c, r) && |r.runs| == 1 && r.runs[0].phase.Executing?
    ensures HooksOf(c, ExecuteStep(c, r, 0, response))
  {
  }

  lemma PostKeepsHooks(c: Settings, r: Request, response: Response)
    requires HooksOf(c, r) && |r.runs| == 1 && r.runs[0].phase.Post? && OneRun(c, r)
    ensures HooksOf(c, PostStep(r, 0, r.runs[0].phase.count, response))
  {
    var count := r.runs[0].phase.count;
    StoppedHasNoRun(r);
    assert r.triggered == c.pre && r.executions <= 1;
    if count > 0 && response != Crash && response != Reject {
      assert PostStep(r, 0, count, response).runs == [r.runs[0].(phase := Post(count - 1))];
    } else {
      assert PostStep(r, 0, count, response).runs == [];
    }
  }

  lemma NextKeepsHooks(c: Settings, r: Request, step: Step)
    requires Increasing(c.pre) && OneRun(c, r) && HooksOf(c, r)
    requires step.Approve? ==> c.manualApproval
    requires step.Resume? && r.status == Paused ==> r.pausedBy == Some(step.token)
    ensures HooksOf(c, Next(c, r, step))
  {
    if step.Advance? && step.run < |r.runs| {
      match r.runs[0].phase
      case Submitted(_) => StartKeepsHooks(c, r);
      case Pre(_) => PreKeepsHooks(c, r, step.response);
      case Executing => ExecuteKeepsHooks(c, r, step.response);
      case Post(_) => PostKeepsHooks(c, r, step.response);
    }
  }

  lemma {:induction false} HooksAlways(c: Settings, steps: seq<Step>)
    requires ApprovedOnce(c, steps) && Increasing(c.pre) && TokensMatch(c, steps)
    ensures HooksOf(c, After(c, steps))
    decreases |steps|
  {
    if steps != [] {
      var before := steps[..|steps|-1];
      HooksAlways(c, before);
      OneRunAlways(c, before);
      NextKeepsHooks(c, After(c, before), steps[|steps|-1]);
    }
  }

  /** Across any number of pauses and resumptions, the webhooks triggered form a strictly
      increasing sequence, and a request executes at most once, after every webhook has
      been triggered exactly once, in order. */
  lemma WebhooksExactlyOnce(c: Settings, steps: seq<Step>)
    requires ApprovedOnce(c, steps) && Increasing(c.pre) && TokensMatch(c, steps)
    ensures var r := After(c, steps);
            && Increasing(r.triggered)
            && r.executions <= 1
            && (r.executions > 0 ==> r.triggered == c.pre)
  {
    HooksAlways(c, steps);
    var r := After(c, steps);
    forall i, j | 0 <= i < j < |r.triggered| ensures r.triggered[i] < r.triggered[j] {
      assert r.triggered[i] == c.pre[i] && r.triggered[j] == c.pre[j];
    }
  }
}
