/** A run of a request: the webhooks before execution, the execution, and the webhooks after. */
module RequestRuns {
  import opened Common
  import opened Lifecycle

  /** A sequence of steps taken from a given request. */
  function Steps(c: Settings, r: Request, steps: seq<Step>): Request {
    if steps == [] then r else Next(c, Steps(c, r, steps[..|steps|-1]), steps[|steps|-1])
  }

  lemma StepsSnoc(c: Settings, r: Request, steps: seq<Step>, step: Step)
    ensures Steps(c, r, steps + [step]) == Next(c, Steps(c, r, steps), step)
  {
    assert (steps + [step])[..|steps|] == steps;
  }

  lemma {:induction false} StepsAppend(c: Settings, r: Request, a: seq<Step>, b: seq<Step>)
    ensures Steps(c, r, a + b) == Steps(c, Steps(c, r, a), b)
    decreases |b|
  {
    if b == [] {
      assert a + b == a;
    } else {
      var n := |b| - 1;
      assert (a + b)[..|a + b| - 1] == a + b[..n];
      StepsAppend(c, r, a, b[..n]);
    }
  }

  lemma {:induction false} AfterSteps(c: Settings, before: seq<Step>, steps: seq<Step>)
    ensures After(c, before + steps) == Steps(c, After(c, before), steps)
    decreases |steps|
  {
    if steps == [] {
      assert before + steps == before;
    } else {
      var n := |steps| - 1;
      assert (before + steps)[..|before + steps| - 1] == before + steps[..n];
      AfterSteps(c, before, steps[..n]);
    }
  }

  // ----- What a run does to its request

  /** The webhooks a run has to call: all, or those after the one it was resumed from. */
  function ToCall(c: Settings, from: Option<int>): seq<int> {
    if from.None? then c.pre else Above(c.pre, from.value)
  }

  lemma InToCall(c: Settings, from: Option<int>, h: int)
    ensures h in ToCall(c, from) <==> h in c.pre && (from.Some? ==> h > from.value)
  {
    if from.Some? { InAbove(c.pre, from.value, h); }
  }

  /** The request when a webhook has responded; a run that does not go on is over. */
  function AfterResponse(r: Request, hook: int, response: Response): Request {
    match response
    case Continue => r
    case Halt => r.(status := Paused, pausedBy := Some(hook))
    case Reject => r.(status := Error, finished := true)
    case Crash => r
  }

  /** A post-execution webhook that asks to halt is taken to go on. */
  predicate GoesOn(response: Response) { response == Continue || response == Halt }

  /** What becomes of a request whose run was stopped by the webhook at `n` of those to
      call, or by the one at `m` of those after execution; the length stands for none. */
  function Ending(c: Settings, r0: Request, hooks: seq<int>, pre: int -> Response, outcome: Response,
                  post: nat -> Response, n: nat, m: nat): Request
    requires n <= |hooks|
  {
    var begun := r0.(started := true, runs := []);
    if n < |hooks| then
      AfterResponse(begun.(triggered := r0.triggered + hooks[..n+1]), hooks[n], pre(hooks[n]))
    else
      var called := begun.(triggered := r0.triggered + hooks);
      if !c.hasRules then called
      else
        var ran := called.(executions := r0.executions + 1, executionFailed := outcome != Continue);
        if m < c.post then AfterResponse(ran, 0, post(m))
        else ran.(finished := true, status := if outcome == Continue then Complete else Error)
  }

  /** The webhook at `n` is the first before execution that does not go on, and the one at
      `m` the first after it, if the run came so far. */
  ghost predicate StoppedBy(c: Settings, hooks: seq<int>, pre: int -> Response, post: nat -> Response, n: nat, m: nat) {
    && n <= |hooks| && (forall i :: 0 <= i < n ==> pre(hooks[i]) == Continue)
    && (n < |hooks| ==> pre(hooks[n]) != Continue)
    && m <= c.post && (n == |hooks| && c.hasRules ==> StoppedAfter(c, post, m))
  }

  ghost predicate StoppedAfter(c: Settings, post: nat -> Response, m: nat) {
    m <= c.post && (forall i :: 0 <= i < m ==> GoesOn(post(i))) && (m < c.post ==> !GoesOn(post(m)))
  }

  // ----- The code

  /** Calls the webhooks in order until one pauses the request, fails it or raises. */
  method RunPreWebhooks(r0: Request, hooks: seq<int>, respond: int -> Response)
    returns (r: Request, proceed: bool, n: nat)
    ensures n <= |hooks| && forall i :: 0 <= i < n ==> respond(hooks[i]) == Continue
    ensures proceed <==> n == |hooks|
    ensures proceed ==> r == r0.(triggered := r0.triggered + hooks)
    ensures !proceed ==>
              && respond(hooks[n]) != Continue
              && r == AfterResponse(r0.(triggered := r0.triggered + hooks[..n+1]), hooks[n], respond(hooks[n]))
  {
    r, proceed, n := r0, true, 0;
    for i := 0 to |hooks|
      invariant n == i && r == r0.(triggered := r0.triggered + hooks[..i])
      invariant forall j :: 0 <= j < i ==> respond(hooks[j]) == Continue
    {
      assert hooks[..i+1] == hooks[..i] + [hooks[i]];
      assert r.triggered + [hooks[i]] == r0.triggered + hooks[..i+1];
      r := r.(triggered := r.triggered + [hooks[i]]);
      assert r == r0.(triggered := r0.triggered + hooks[..i+1]);
      match respond(hooks[i]) {
        case Continue =>
        case Halt =>
          r := r.(status := Paused, pausedBy := Some(hooks[i]));
          proceed := false;
          return;
        case Reject =>
          r := r.(status := Error, finished := true);
          proceed := false;
          return;
        case Crash =>
          proceed := false;
          return;
      }
      n := i + 1;
    }
    assert hooks[..|hooks|] == hooks;
  }

  /** The same after execution, when nothing can be paused any more. */
  method RunPostWebhooks(r0: Request, count: nat, respond: nat -> Response)
    returns (r: Request, proceed: bool, n: nat)
    ensures n <= count && forall i :: 0 <= i < n ==> GoesOn(respond(i))
    ensures proceed <==> n == count
    ensures proceed ==> r == r0
    ensures !proceed ==> !GoesOn(respond(n)) && r == AfterResponse(r0, 0, respond(n))
  {
    r, proceed, n := r0, true, 0;
    for i := 0 to count
      invariant n == i && r == r0
      invariant forall j :: 0 <= j < i ==> GoesOn(respond(j))
    {
      match respond(i) {
        case Continue =>
        case Halt =>
        case Reject =>
          r := r.(status := Error, finished := true);
          proceed := false;
          return;
        case Crash =>
          proceed := false;
          return;
      }
      n := i + 1;
    }
  }

  /** One run of a request, from the time it was submitted. */
  method RunRequest(c: Settings, r0: Request, from: Option<int>, pre: int -> Response, outcome: Response,
                    post: nat -> Response)
    returns (r: Request, n: nat, m: nat)
    ensures StoppedBy(c, ToCall(c, from), pre, post, n, m)
    ensures r == Ending(c, r0, ToCall(c, from), pre, outcome, post, n, m)
  {
    var hooks := ToCall(c, from);
    m := 0;
    var proceed;
    r, proceed, n := RunPreWebhooks(r0.(started := true, runs := []), hooks, pre);
    if !proceed || !c.hasRules { return; }
    var failed := outcome != Continue;
    r := r.(executions := r.executions + 1, executionFailed := failed);
    r, proceed, m := RunPostWebhooks(r, c.post, post);
    if !proceed { return; }
    r := r.(finished := true);
    r := r.(status := if failed then Error else Complete);
  }

  // ----- It takes the machine's steps

  lemma StartOne(c: Settings, r: Request, from: Option<int>, response: Response)
    requires r.runs == [Run(Submitted(from), false)]
    ensures Next(c, r, Advance(0, response)) == r.(started := true, runs := [Run(Pre(ToCall(c, from)), false)])
  {
  }

  lemma CallOne(c: Settings, r: Request, left: seq<int>, response: Response)
    requires r.runs == [Run(Pre(left), false)] && left != []
    ensures var called := r.(triggered := r.triggered + [left[0]]);
            Next(c, r, Advance(0, response)) ==
              if response == Continue then called.(runs := [Run(Pre(left[1..]), false)])
              else AfterResponse(called.(runs := []), left[0], response)
  {
  }

  lemma ExecuteOne(c: Settings, r: Request, outcome: Response)
    requires r.runs == [Run(Pre([]), false)]
    ensures var t := Next(c, r, Advance(0, Continue));
            && (!c.hasRules ==> t == r.(runs := []))
            && Next(c, r, Advance(0, Crash)) == r.(runs := [])
            && (c.hasRules ==>
                  Next(c, t, Advance(0, outcome))
                  == r.(executions := r.executions + 1, executionFailed := outcome != Continue,
                        runs := [Run(Post(c.post), outcome != Continue)]))
  {
  }

  lemma PostOne(c: Settings, r: Request, count: nat, failed: bool, response: Response)
    requires r.runs == [Run(Post(count), failed)] && count > 0
    ensures Next(c, r, Advance(0, response)) ==
              if GoesOn(response) then r.(runs := [Run(Post(count - 1), failed)])
              else AfterResponse(r.(runs := []), 0, response)
  {
  }

  /** After the last webhook a run ends complete just when its execution did not fail. */
  lemma FinishOne(c: Settings, r: Request, failed: bool, response: Response)
    requires r.runs == [Run(Post(0), failed)]
    ensures var t := Next(c, r, Advance(0, response));
            if response == Crash then t == r.(runs := [])
            else t == r.(runs := [], finished := true, status := t.status) &&
                 (t.status == Complete <==> !failed) && (t.status == Error <==> failed)
  {
  }

  /** The advances in which the first `n` webhooks before, or after, execution respond. */
  function PreCalls(hooks: seq<int>, pre: int -> Response, n: nat): (r: seq<Step>)
    requires n <= |hooks|
    ensures |r| == n
  {
    seq(n, i requires 0 <= i < n => Advance(0, pre(hooks[i])))
  }

  function PostCalls(post: nat -> Response, m: nat): (r: seq<Step>)
    ensures |r| == m
  {
    seq(m, i requires 0 <= i < m => Advance(0, post(i)))
  }

  lemma {:induction false} PreSteps(c: Settings, r: Request, hooks: seq<int>, pre: int -> Response, n: nat)
    requires r.runs == [Run(Pre(hooks), false)]
    requires n <= |hooks| && forall i :: 0 <= i < n ==> pre(hooks[i]) == Continue
    ensures Steps(c, r, PreCalls(hooks, pre, n))
         == r.(triggered := r.triggered + hooks[..n], runs := [Run(Pre(hooks[n..]), false)])
    decreases n
  {
    if n == 0 {
      assert hooks[..0] == [] && hooks[0..] == hooks;
    } else {
      PreSteps(c, r, hooks, pre, n - 1);
      PreStepNext(c, r, hooks, pre, n - 1);
    }
  }

  lemma PreStepNext(c: Settings, r: Request, hooks: seq<int>, pre: int -> Response, n: nat)
    requires n < |hooks|
    requires Steps(c, r, PreCalls(hooks, pre, n))
          == r.(triggered := r.triggered + hooks[..n], runs := [Run(Pre(hooks[n..]), false)])
    ensures var called := r.(triggered := r.triggered + hooks[..n+1]);
            Steps(c, r, PreCalls(hooks, pre, n + 1)) ==
              if pre(hooks[n]) == Continue then called.(runs := [Run(Pre(hooks[n+1..]), false)])
              else AfterResponse(called.(runs := []), hooks[n], pre(hooks[n]))
  {
    assert PreCalls(hooks, pre, n + 1) == PreCalls(hooks, pre, n) + [Advance(0, pre(hooks[n]))];
    StepsSnoc(c, r, PreCalls(hooks, pre, n), Advance(0, pre(hooks[n])));
    assert hooks[n..][0] == hooks[n] && hooks[n..][1..] == hooks[n+1..];
    assert r.triggered + hooks[..n] + [hooks[n]] == r.triggered + hooks[..n+1];
    CallOne(c, Steps(c, r, PreCalls(hooks, pre, n)), hooks[n..], pre(hooks[n]));
  }

  lemma NoStep(c: Settings, r: Request, steps: seq<Step>)
    requires |steps| == 0
    ensures Steps(c, r, steps) == r
  {
  }

  lemma {:induction false} PostSteps(c: Settings, r: Request, count: nat, failed: bool, post: nat -> Response, m: nat)
    requires r.runs == [Run(Post(count), failed)]
    requires m <= count && forall i :: 0 <= i < m ==> GoesOn(post(i))
    ensures Steps(c, r, PostCalls(post, m)) == r.(runs := [Run(Post(count - m), failed)])
    decreases m
  {
    if m == 0 {
      NoStep(c, r, PostCalls(post, 0));
    } else {
      PostSteps(c, r, count, failed, post, m - 1);
      PostStepNext(c, r, count, failed, post, m - 1);
    }
  }

  lemma PostStepNext(c: Settings, r: Request, count: nat, failed: bool, post: nat -> Response, m: nat)
    requires m < count && Steps(c, r, PostCalls(post, m)) == r.(runs := [Run(Post(count - m), failed)])
    ensures Steps(c, r, PostCalls(post, m + 1)) ==
              if GoesOn(post(m)) then r.(runs := [Run(Post(count - m - 1), failed)])
              else AfterResponse(r.(runs := []), 0, post(m))
  {
    assert PostCalls(post, m + 1) == PostCalls(post, m) + [Advance(0, post(m))];
    StepsSnoc(c, r, PostCalls(post, m), Advance(0, post(m)));
    PostOne(c, Steps(c, r, PostCalls(post, m)), count - m, failed, post(m));
  }

  const GO := [Advance(0, Continue)]

  lemma StepsOne(c: Settings, r: Request, step: Step)
    ensures Steps(c, r, [step]) == Next(c, r, step)
  {
    StepsSnoc(c, r, [], step);
    assert [] + [step] == [step];
  }

  /** All the steps of a run up to where it was stopped. */
  function RunSteps(c: Settings, hooks: seq<int>, pre: int -> Response, outcome: Response, post: nat -> Response,
                    n: nat, m: nat): seq<Step>
    requires n <= |hooks| && m <= c.post
  {
    if n < |hooks| then GO + PreCalls(hooks, pre, n + 1)
    else GO + PreCalls(hooks, pre, n) + AfterPre(c, outcome, post, m)
  }

  function AfterPre(c: Settings, outcome: Response, post: nat -> Response, m: nat): seq<Step>
    requires m <= c.post
  {
    if !c.hasRules then GO
    else GO + [Advance(0, outcome)] + if m < c.post then PostCalls(post, m + 1) else PostCalls(post, m) + GO
  }

  lemma PostEnding(c: Settings, r: Request, count: nat, failed: bool, post: nat -> Response, m: nat)
    requires r.runs == [Run(Post(count), failed)] && m <= count
    requires (forall i :: 0 <= i < m ==> GoesOn(post(i))) && (m < count ==> !GoesOn(post(m)))
    ensures Steps(c, r, if m < count then PostCalls(post, m + 1) else PostCalls(post, m) + GO) ==
              if m < count then AfterResponse(r.(runs := []), 0, post(m))
              else r.(runs := [], finished := true, status := if failed then Error else Complete)
  {
    PostSteps(c, r, count, failed, post, m);
    if m < count {
      PostStepNext(c, r, count, failed, post, m);
    } else {
      StepsSnoc(c, r, PostCalls(post, m), GO[0]);
      FinishOne(c, Steps(c, r, PostCalls(post, m)), failed, Continue);
    }
  }

  lemma AfterPreEnding(c: Settings, r: Request, outcome: Response, post: nat -> Response, m: nat)
    requires r.runs == [Run(Pre([]), false)] && m <= c.post && (c.hasRules ==> StoppedAfter(c, post, m))
    ensures var ran := r.(executions := r.executions + 1, executionFailed := outcome != Continue, runs := []);
            Steps(c, r, AfterPre(c, outcome, post, m)) ==
              if !c.hasRules then r.(runs := [])
              else if m < c.post then AfterResponse(ran, 0, post(m))
              else ran.(finished := true, status := if outcome == Continue then Complete else Error)
  {
    StepsOne(c, r, GO[0]);
    ExecuteOne(c, r, outcome);
    if c.hasRules {
      StepsSnoc(c, r, GO, Advance(0, outcome));
      var ran := Steps(c, r, GO + [Advance(0, outcome)]);
      StepsAppend(c, r, GO + [Advance(0, outcome)],
                  if m < c.post then PostCalls(post, m + 1) else PostCalls(post, m) + GO);
      PostEnding(c, ran, c.post, outcome != Continue, post, m);
    }
  }

  lemma Begins(c: Settings, r: Request, from: Option<int>)
    requires r.runs == [Run(Submitted(from), false)]
    ensures Steps(c, r, GO) == r.(started := true, runs := [Run(Pre(ToCall(c, from)), false)])
  {
    StepsOne(c, r, GO[0]);
    StartOne(c, r, from, Continue);
  }

  lemma StoppedSteps(c: Settings, r: Request, from: Option<int>, pre: int -> Response, n: nat)
    requires r.runs == [Run(Submitted(from), false)] && n < |ToCall(c, from)| && pre(ToCall(c, from)[n]) != Continue
    requires forall i :: 0 <= i < n ==> pre(ToCall(c, from)[i]) == Continue
    ensures var hooks := ToCall(c, from);
            Steps(c, r, GO + PreCalls(hooks, pre, n + 1))
            == AfterResponse(r.(started := true, runs := [], triggered := r.triggered + hooks[..n+1]),
                             hooks[n], pre(hooks[n]))
  {
    var hooks := ToCall(c, from);
    Begins(c, r, from);
    var begun := r.(started := true, runs := [Run(Pre(hooks), false)]);
    StepsAppend(c, r, GO, PreCalls(hooks, pre, n + 1));
    PreSteps(c, begun, hooks, pre, n);
    PreStepNext(c, begun, hooks, pre, n);
  }

  lemma CalledSteps(c: Settings, r: Request, from: Option<int>, pre: int -> Response)
    requires r.runs == [Run(Submitted(from), false)]
    requires forall i :: 0 <= i < |ToCall(c, from)| ==> pre(ToCall(c, from)[i]) == Continue
    ensures var hooks := ToCall(c, from);
            Steps(c, r, GO + PreCalls(hooks, pre, |hooks|))
            == r.(started := true, runs := [Run(Pre([]), false)], triggered := r.triggered + hooks)
  {
    var hooks := ToCall(c, from);
    Begins(c, r, from);
    var begun := r.(started := true, runs := [Run(Pre(hooks), false)]);
    StepsAppend(c, r, GO, PreCalls(hooks, pre, |hooks|));
    PreSteps(c, begun, hooks, pre, |hooks|);
    assert hooks[..|hooks|] == hooks && hooks[|hooks|..] == [];
  }

  lemma Chain(c: Settings, r: Request, a: seq<Step>, b: seq<Step>, mid: Request, end: Request)
    requires Steps(c, r, a) == mid && Steps(c, mid, b) == end
    ensures Steps(c, r, a + b) == end
  {
    StepsAppend(c, r, a, b);
  }

  lemma RanSteps(c: Settings, r: Request, from: Option<int>, pre: int -> Response, outcome: Response,
                 post: nat -> Response, m: nat)
    requires r.runs == [Run(Submitted(from), false)] && StoppedBy(c, ToCall(c, from), pre, post, |ToCall(c, from)|, m)
    ensures var hooks := ToCall(c, from);
            Steps(c, r, GO + PreCalls(hooks, pre, |hooks|) + AfterPre(c, outcome, post, m))
            == Ending(c, r, hooks, pre, outcome, post, |hooks|, m)
  {
    var hooks := ToCall(c, from);
    var called := r.(started := true, runs := [Run(Pre([]), false)], triggered := r.triggered + hooks);
    var end := Ending(c, r, hooks, pre, outcome, post, |hooks|, m);
    AfterPreEnds(c, r, hooks, pre, outcome, post, m, called);
    CalledSteps(c, r, from, pre);
    Chain(c, r, GO + PreCalls(hooks, pre, |hooks|), AfterPre(c, outcome, post, m), called, end);
  }

  lemma AfterPreEnds(c: Settings, r: Request, hooks: seq<int>, pre: int -> Response, outcome: Response,
                     post: nat -> Response, m: nat, called: Request)
    requires called == r.(started := true, runs := [Run(Pre([]), false)], triggered := r.triggered + hooks)
    requires m <= c.post && (c.hasRules ==> StoppedAfter(c, post, m))
    ensures Steps(c, called, AfterPre(c, outcome, post, m)) == Ending(c, r, hooks, pre, outcome, post, |hooks|, m)
  {
    AfterPreEnding(c, called, outcome, post, m);
  }

  /** What a run does is what the steps of the machine do, and they use it up. */
  lemma EndingIsSteps(c: Settings, r: Request, from: Option<int>, pre: int -> Response, outcome: Response,
                      post: nat -> Response, n: nat, m: nat)
    requires r.runs == [Run(Submitted(from), false)] && StoppedBy(c, ToCall(c, from), pre, post, n, m)
    ensures Steps(c, r, RunSteps(c, ToCall(c, from), pre, outcome, post, n, m))
         == Ending(c, r, ToCall(c, from), pre, outcome, post, n, m)
  {
    if n < |ToCall(c, from)| {
      StoppedSteps(c, r, from, pre, n);
    } else {
      RanSteps(c, r, from, pre, outcome, post, m);
    }
  }

  // ----- Nothing else is needed for a request to be answered

  /** A run that no webhook stops comes to its end having called every webhook due and
      executed once; the request is then complete just when the execution succeeded, and
      an error otherwise. */
  lemma RunCompletes(c: Settings, r: Request, from: Option<int>, pre: int -> Response, outcome: Response,
                     post: nat -> Response) returns (steps: seq<Step>)
    requires r.runs == [Run(Submitted(from), false)] && c.hasRules
    requires forall i :: 0 <= i < |ToCall(c, from)| ==> pre(ToCall(c, from)[i]) == Continue
    requires forall i :: 0 <= i < c.post ==> GoesOn(post(i))
    ensures forall i :: 0 <= i < |steps| ==> steps[i].Advance? && steps[i].run == 0
    ensures Steps(c, r, steps)
         == r.(started := true, triggered := r.triggered + ToCall(c, from), executions := r.executions + 1,
               executionFailed := outcome != Continue, runs := [], finished := true,
               status := if outcome == Continue then Complete else Error)
  {
    var hooks := ToCall(c, from);
    steps := RunSteps(c, hooks, pre, outcome, post, |hooks|, c.post);
    EndingIsSteps(c, r, from, pre, outcome, post, |hooks|, c.post);
  }

  /** So every request that is approved can be completed. */
  lemma ApprovedCanComplete(c: Settings) returns (steps: seq<Step>)
    requires c.manualApproval && c.hasRules
    ensures After(c, steps).status == Complete && After(c, steps).finished
    ensures After(c, steps).triggered == c.pre && After(c, steps).executions == 1
  {
    var approved := [Approve(true)];
    var r := After(c, approved);
    AfterSteps(c, [], approved);
    StepsOne(c, After(c, []), Approve(true));
    assert [] + approved == approved && After(c, []) == Created(c);
    assert r.runs == [Run(Submitted(None), false)];
    var run := RunCompletes(c, r, None, (h: int) => Continue, Continue, (i: nat) => Continue);
    steps := approved + run;
    AfterSteps(c, approved, run);
    assert [] + c.pre == c.pre;
  }
}
