/** What every traversal does, read off the sequence of node executions. */
module SchedulerTraces {
  import opened Common
  import opened Graph
  import opened Scheduler

  ghost function Ran(trace: seq<Run>): set<CollAddr> {
    set r | r in trace :: r.node
  }

  ghost function Consumed(trace: seq<Run>): set<Edge> {
    set r, e | r in trace && e in r.inputs :: e
  }

  function Front<T>(s: seq<T>): seq<T>
    requires s != []
  {
    s[..|s| - 1]
  }

  function Last<T>(s: seq<T>): T
    requires s != []
  {
    s[|s| - 1]
  }

  /** The root runs first; every later execution belongs to a node of the graph that
      was free to run, and completes just the edges that lead into it from nodes
      that had already run and that no earlier execution completed. */
  ghost predicate GoodTrace(c: Config, trace: seq<Run>)
    decreases |trace|, 0
  {
    && trace != []
    && (if |trace| == 1 then trace[0] == Run(ROOT, {}) else GoodExtension(c, Front(trace), Last(trace)))
  }

  ghost predicate GoodExtension(c: Config, before: seq<Run>, r: Run)
    decreases |before|, 1
  {
    && GoodTrace(c, before)
    && r.node in c.nodes
    && r.inputs != {}
    && r.inputs == Completed(c.edges - Consumed(before), r.node, Ran(before))
    && c.CanRun(r.node, c.nodes - Ran(before))
  }

  lemma Extend(trace: seq<Run>, r: Run)
    ensures Ran(trace + [r]) == Ran(trace) + {r.node}
    ensures Consumed(trace + [r]) == Consumed(trace) + r.inputs
  {
    var t := trace + [r];
    assert forall x :: x in t <==> x in trace || x == r;
    forall e | e in Consumed(trace) + r.inputs ensures e in Consumed(t) {
      if e in r.inputs {
        assert r in t;
      }
    }
  }

  /** A good trace taken apart at its last execution. */
  lemma SplitLast(c: Config, trace: seq<Run>)
    requires GoodTrace(c, trace) && |trace| > 1
    ensures GoodExtension(c, Front(trace), Last(trace))
    ensures trace == Front(trace) + [Last(trace)]
    ensures Ran(trace) == Ran(Front(trace)) + {Last(trace).node}
    ensures Consumed(trace) == Consumed(Front(trace)) + Last(trace).inputs
    ensures Last(trace).inputs !! Consumed(Front(trace))
  {
    assert trace == Front(trace) + [Last(trace)];
    Extend(Front(trace), Last(trace));
  }

  lemma GoodPrefix(c: Config, trace: seq<Run>, k: nat)
    requires GoodTrace(c, trace) && 1 <= k <= |trace|
    ensures GoodTrace(c, trace[..k])
    decreases |trace|
  {
    if k < |trace| {
      GoodPrefix(c, Front(trace), k);
      assert Front(trace)[..k] == trace[..k];
    } else {
      assert trace[..k] == trace;
    }
  }

  /** The shape of a good trace at any index. */
  lemma RunAt(c: Config, trace: seq<Run>, k: nat)
    requires GoodTrace(c, trace) && 1 <= k < |trace|
    ensures trace[0] == Run(ROOT, {})
    ensures GoodExtension(c, trace[..k], trace[k])
  {
    GoodPrefix(c, trace, k + 1);
    assert Front(trace[..k+1]) == trace[..k];
    GoodPrefix(c, trace, 1);
  }

  // ----- The machine produces good traces

  ghost predicate Explains(c: Config, s: State) {
    && GoodTrace(c, s.trace)
    && s.finished == Ran(s.trace)
    && s.edges == c.edges - Consumed(s.trace)
  }

  lemma RunExplains(c: Config, order: PushOrder, s: State, i: nat)
    requires c.WellFormed() && Inv(c, s) && Explains(c, s)
    requires i < |s.queue| && c.CanRun(s.queue[i], s.remaining)
    ensures Explains(c, RunNode(order, s, i))
  {
    var n := s.queue[i];
    var r := Run(n, Completed(s.edges, n, s.finished));
    RunCompletesAnEdge(c, s, i);
    Extend(s.trace, r);
    assert Front(s.trace + [r]) == s.trace;
    assert s.remaining == c.nodes - Ran(s.trace);
    assert GoodExtension(c, s.trace, r);
  }

  lemma {:induction false} ExplainsAlways(c: Config, order: PushOrder, k: nat)
    requires c.WellFormed() && IsPushOrder(order) && k > 0
    ensures Inv(c, After(c, order, k)) && Explains(c, After(c, order, k))
  {
    InvAlways(c, order, k);
    AfterNext(c, order, k - 1);
    if k == 1 {
      InitStep(c, order);
      Extend([], Run(ROOT, {}));
      assert [] + [Run(ROOT, {})] == [Run(ROOT, {})];
    } else {
      ExplainsAlways(c, order, k - 1);
      var s := After(c, order, k - 1);
      if !Halted(c, s) {
        FirstRunnableIsFirst(c, s.queue, s.remaining);
        RunExplains(c, order, s, FirstRunnable(c, s.queue, s.remaining));
      }
    }
  }

  ghost predicate RunsOneNode(f: State -> State) {
    forall s :: f(s) == s || |f(s).trace| == |s.trace| + 1
  }

  lemma AdvanceRunsOneNode(c: Config, order: PushOrder)
    ensures RunsOneNode(Advance(c, order))
    ensures forall s :: Advance(c, order)(s) == s ==> Halted(c, s)
  {
    forall s | !Halted(c, s) ensures |Advance(c, order)(s).trace| == |s.trace| + 1 {
      assert Advance(c, order)(s) == Step(c, order, s);
    }
  }

  lemma {:induction false} IterateRunsNodes(f: State -> State, s: State, k: nat)
    requires RunsOneNode(f)
    ensures f(Iterate(f, s, k)) == Iterate(f, s, k) || |Iterate(f, s, k).trace| == |s.trace| + k
  {
    if k > 0 { IterateRunsNodes(f, s, k - 1); }
  }

  /** Until the machine halts, every iteration runs one node. */
  lemma RunsOncePerIteration(c: Config, order: PushOrder, k: nat)
    ensures |After(c, order, k).trace| == k || Halted(c, After(c, order, k))
  {
    AdvanceRunsOneNode(c, order);
    IterateRunsNodes(Advance(c, order), Init(c), k);
  }

  // ----- Termination

  /** Each execution after the root's uses up at least one edge of its own. */
  lemma {:induction false} EdgesBoundRuns(c: Config, trace: seq<Run>)
    requires GoodTrace(c, trace)
    ensures |trace| - 1 <= |Consumed(trace)|
    decreases |trace|
  {
    if |trace| == 1 {
    } else {
      SplitLast(c, trace);
      EdgesBoundRuns(c, Front(trace));
      LargerUnion(Consumed(Front(trace)), Last(trace).inputs);
    }
  }

  lemma LargerUnion<T>(a: set<T>, b: set<T>)
    requires a !! b && b != {}
    ensures |a + b| > |a|
  {
    assert |a + b| == |a| + |b|;
  }

  lemma {:induction false} ConsumedAreEdges(c: Config, trace: seq<Run>)
    requires GoodTrace(c, trace)
    ensures Consumed(trace) <= c.edges
    decreases |trace|
  {
    if |trace| == 1 {
    } else {
      SplitLast(c, trace);
      ConsumedAreEdges(c, Front(trace));
    }
  }

  lemma SubsetCard<T>(a: set<T>, b: set<T>)
    requires a <= b
    ensures |a| <= |b|
    ensures |a| == |b| ==> a == b
  {
    assert b == a + (b - a);
    assert |b| == |a| + |b - a|;
  }

  lemma EmptyElems<T>(s: seq<T>)
    ensures Elems(s) == {} ==> s == []
  {
    if s != [] { assert s[0] in Elems(s); }
  }

  lemma NothingLeft(c: Config, s: State)
    requires Inv(c, s) && s.edges == {}
    ensures Halted(c, s)
  {
    assert Elems(s.queue) == {};
    EmptyElems(s.queue);
  }

  lemma AllConsumed(c: Config, s: State)
    requires Inv(c, s) && Explains(c, s)
    ensures 1 <= |s.trace| <= |c.edges| + 1
    ensures |s.trace| == |c.edges| + 1 ==> Halted(c, s)
  {
    EdgesBoundRuns(c, s.trace);
    ConsumedAreEdges(c, s.trace);
    SubsetCard(Consumed(s.trace), c.edges);
    if |s.trace| == |c.edges| + 1 {
      assert s.edges == {};
      NothingLeft(c, s);
    }
  }

  /** The loop stops by itself within |edges| + 1 iterations, whatever the push order. */
  lemma PassHalts(c: Config, order: PushOrder)
    requires c.WellFormed() && IsPushOrder(order)
    ensures Halted(c, Pass(c, order))
    ensures 1 <= |Pass(c, order).trace| <= |c.edges| + 1
  {
    ExplainsAlways(c, order, |c.edges| + 1);
    RunsOncePerIteration(c, order, |c.edges| + 1);
    AllConsumed(c, Pass(c, order));
  }

  /** Nothing changes once the machine has halted, so an early halt is `Pass`. */
  lemma HaltedIsPass(c: Config, order: PushOrder, k: nat)
    requires c.WellFormed() && IsPushOrder(order)
    requires Halted(c, After(c, order, k))
    ensures After(c, order, k) == Pass(c, order)
  {
    PassHalts(c, order);
    SameHalt(c, order, k, |c.edges| + 1);
  }

  lemma SameHalt(c: Config, order: PushOrder, k: nat, m: nat)
    requires Halted(c, After(c, order, k)) && Halted(c, After(c, order, m))
    ensures After(c, order, k) == After(c, order, m)
  {
    if k <= m {
      IterateFixed(Advance(c, order), Init(c), k, m);
    } else {
      IterateFixed(Advance(c, order), Init(c), m, k);
    }
  }

  lemma {:induction false} IterateFixed(f: State -> State, s: State, k: nat, m: nat)
    requires k <= m && f(Iterate(f, s, k)) == Iterate(f, s, k)
    ensures Iterate(f, s, m) == Iterate(f, s, k)
    decreases m
  {
    if k < m { IterateFixed(f, s, k, m - 1); }
  }

  function CountRuns(trace: seq<Run>, n: CollAddr): nat {
    if trace == [] then 0
    else CountRuns(Front(trace), n) + (if Last(trace).node == n then 1 else 0)
  }

  ghost function RunsOf(trace: seq<Run>, n: CollAddr): set<int> {
    set k | 0 <= k < |trace| && trace[k].node == n
  }

  lemma {:induction false} CountRunsIs(trace: seq<Run>, n: CollAddr)
    ensures CountRuns(trace, n) == |RunsOf(trace, n)|
    decreases |trace|
  {
    if trace != [] {
      var last := |trace| - 1;
      CountRunsIs(Front(trace), n);
      var before := RunsOf(Front(trace), n);
      assert RunsOf(trace, n) == if trace[last].node == n then before + {last} else before;
    }
  }

  function ConsumedBy(trace: seq<Run>, n: CollAddr): set<Edge> {
    if trace == [] then {}
    else ConsumedBy(Front(trace), n) + (if Last(trace).node == n then Last(trace).inputs else {})
  }

  ghost function EdgesInto(c: Config, n: CollAddr): set<Edge> {
    set e | e in c.edges && (e.f2.coll == n || (e.bidi && e.f1.coll == n))
  }

  lemma {:induction false} ConsumedByNode(c: Config, trace: seq<Run>, n: CollAddr)
    requires GoodTrace(c, trace) && n != ROOT
    ensures ConsumedBy(trace, n) <= EdgesInto(c, n) * Consumed(trace)
    ensures CountRuns(trace, n) <= |ConsumedBy(trace, n)|
    decreases |trace|
  {
    if |trace| == 1 {
      assert Front(trace) == [];
    } else {
      var before, r := Front(trace), Last(trace);
      SplitLast(c, trace);
      ConsumedByNode(c, before, n);
      DisjointCard(ConsumedBy(before, n), r.inputs, Consumed(before));
    }
  }

  lemma DisjointCard<T>(a: set<T>, b: set<T>, c: set<T>)
    requires a <= c && b !! c
    ensures |a + b| == |a| + |b|
    ensures b != {} ==> |b| >= 1
  {
    assert a !! b;
  }

  /** A node runs at most as often as it has edges into it. */
  lemma RunsBoundedByIncomingEdges(c: Config, order: PushOrder, n: CollAddr)
    requires c.WellFormed() && IsPushOrder(order) && n in c.nodes
    ensures |RunsOf(Pass(c, order).trace, n)| <= |EdgesInto(c, n)|
  {
    CountRunsIs(Pass(c, order).trace, n);
    var trace := Pass(c, order).trace;
    ExplainsAlways(c, order, |c.edges| + 1);
    ConsumedByNode(c, trace, n);
    SubsetCard(ConsumedBy(trace, n), EdgesInto(c, n));
  }
}
