/** The main results about a traversal: which nodes it visits, in what order, and
    how the links it leaves behind connect them. */
module SchedulerTheorems {
  import opened Common
  import opened Graph
  import opened Scheduler
  import opened SchedulerTraces

  // ----- Success does not depend on the push order

  /** The edge runs from a member to `v`; an undirected one may run either way. */
  ghost predicate Enters(e: Edge, v: CollAddr, reached: set<CollAddr>) {
    || (e.f1.coll in reached && e.f2.coll == v)
    || (e.bidi && e.f2.coll in reached && e.f1.coll == v)
  }

  /** `v` names the collection `m`, or the dataset it is in, as one to run after. */
  ghost predicate RunsAfter(c: Config, v: CollAddr, m: CollAddr) {
    m in c.after(v) || m.dataset in c.datasetAfter(v)
  }

  /** Everything `v` has to run after is a member. */
  ghost predicate WaitsForMembers(c: Config, v: CollAddr, reached: set<CollAddr>) {
    forall m :: m in c.nodes && RunsAfter(c, v, m) ==> m in reached
  }

  /** `reached` holds the root, and every node that has an edge from a member and
      waits for members only. */
  ghost predicate Closed(c: Config, reached: set<CollAddr>) {
    && ROOT in reached
    && forall v, e | v in c.nodes && e in c.edges && Enters(e, v, reached) && WaitsForMembers(c, v, reached) ::
         v in reached
  }

  /** A node may run just when it has to run after none of those that wait. */
  lemma CanRunIff(c: Config, n: CollAddr, waiting: set<CollAddr>)
    requires n != ROOT
    ensures c.CanRun(n, waiting) <==> forall m :: m in waiting ==> !RunsAfter(c, n, m)
  {
    var datasets := set k | k in waiting :: k.dataset;
    assert forall m :: m in waiting ==> m.dataset in datasets;
    if forall m :: m in waiting ==> !RunsAfter(c, n, m) {
      assert forall d :: d in datasets ==> exists m :: m in waiting && m.dataset == d;
    }
    if c.CanRun(n, waiting) {
      forall m | m in waiting ensures !RunsAfter(c, n, m) {
        assert m !in c.after(n) * waiting && m.dataset !in c.datasetAfter(n) * datasets;
      }
    }
  }

  lemma CanRunWhenMembers(c: Config, v: CollAddr, reached: set<CollAddr>)
    requires c.WellFormed() && v in c.nodes
    ensures c.CanRun(v, c.nodes - reached) <==> WaitsForMembers(c, v, reached)
  {
    CanRunIff(c, v, c.nodes - reached);
  }

  /** The least closed set. */
  ghost function Reachable(c: Config): set<CollAddr> {
    set v | v in c.nodes + {ROOT} && forall reached :: Closed(c, reached) ==> v in reached
  }

  lemma {:induction false} RanInEveryClosedSet(c: Config, trace: seq<Run>, reached: set<CollAddr>)
    requires c.WellFormed() && GoodTrace(c, trace) && Closed(c, reached)
    ensures Ran(trace) <= reached
    decreases |trace|
  {
    if |trace| == 1 {
    } else {
      var before, r := Front(trace), Last(trace);
      RanInEveryClosedSet(c, before, reached);
      SplitLast(c, trace);
      var e :| e in r.inputs;
      assert Enters(e, r.node, reached);
      CanRunWhenMembers(c, r.node, Ran(before));
    }
  }

  lemma CanRunMonotone(c: Config, n: CollAddr, waiting: set<CollAddr>, fewer: set<CollAddr>)
    requires c.CanRun(n, waiting) && fewer <= waiting
    ensures c.CanRun(n, fewer)
  {
  }

  /** An edge out of a finished node into an unfinished one is still there. */
  lemma {:induction false} OpenEdgeRemains(c: Config, trace: seq<Run>, e: Edge, v: CollAddr)
    requires c.WellFormed() && GoodTrace(c, trace)
    requires e in c.edges && e.LeadsInto(v, Ran(trace)) && v !in Ran(trace)
    ensures e !in Consumed(trace)
    decreases |trace|
  {
    if |trace| == 1 {
    } else {
      var before, r := Front(trace), Last(trace);
      SplitLast(c, trace);
      if e.LeadsInto(v, Ran(before)) {
        OpenEdgeRemains(c, before, e, v);
      } else if e in Consumed(before) {
        ConsumedEnds(c, before, e);
        assert false;
      }
    }
  }

  /** Both ends of a completed edge have run. */
  lemma {:induction false} ConsumedEnds(c: Config, trace: seq<Run>, e: Edge)
    requires GoodTrace(c, trace) && e in Consumed(trace)
    ensures e in c.edges && e.f1.coll in Ran(trace) && e.f2.coll in Ran(trace)
    decreases |trace|
  {
    if |trace| == 1 {
    } else {
      var before, r := Front(trace), Last(trace);
      SplitLast(c, trace);
      if e in Consumed(before) { ConsumedEnds(c, before, e); }
    }
  }

  lemma OpenNodeIsQueued(c: Config, s: State, e: Edge, v: CollAddr)
    requires c.WellFormed() && Inv(c, s) && Explains(c, s)
    requires e in c.edges && e.LeadsInto(v, s.finished) && v !in s.finished
    ensures v in s.queue
  {
    OpenEdgeRemains(c, s.trace, e, v);
    assert e in s.edges;
    assert v in Elems(s.queue);
  }

  lemma HaltedIsClosed(c: Config, s: State)
    requires c.WellFormed() && Inv(c, s) && Explains(c, s) && Halted(c, s)
    ensures Closed(c, s.finished)
  {
    FirstRunnableIsFirst(c, s.queue, s.remaining);
    forall v, e | v in c.nodes && e in c.edges && Enters(e, v, s.finished) && WaitsForMembers(c, v, s.finished)
      ensures v in s.finished
    {
      CanRunWhenMembers(c, v, s.finished);
      if v !in s.finished { OpenNodeIsQueued(c, s, e, v); }
    }
  }

  /** What is known of the state in which the loop stops. */
  ghost predicate Final(c: Config, s: State) {
    Inv(c, s) && Explains(c, s) && Halted(c, s)
  }

  lemma PassIsFinal(c: Config, order: PushOrder)
    requires c.WellFormed() && IsPushOrder(order)
    ensures Final(c, Pass(c, order))
  {
    ExplainsAlways(c, order, |c.edges| + 1);
    PassHalts(c, order);
  }

  /** Whatever the push order, the nodes a traversal runs are the least closed set. */
  lemma FinalIsReachable(c: Config, s: State)
    requires c.WellFormed() && Final(c, s)
    ensures s.finished == Reachable(c)
  {
    HaltedIsClosed(c, s);
    forall reached | Closed(c, reached) ensures s.finished <= reached {
      RanInEveryClosedSet(c, s.trace, reached);
    }
  }

  datatype Outcome = Succeeded | OrderingUnreachable | NodesUnreachable | EdgesUnreachable

  /** How `traverse` ends, given the state its loop stopped in. */
  function OutcomeOf(s: State): Outcome {
    if s.queue != [] then OrderingUnreachable
    else if s.remaining != {} then NodesUnreachable
    else if s.edges != {} then EdgesUnreachable
    else Succeeded
  }

  /** An unreachable node has an edge from a reachable one: it waits in vain. */
  ghost predicate SomeNodeBlocked(c: Config) {
    exists v, e :: v in c.nodes - Reachable(c) && e in c.edges && Enters(e, v, Reachable(c))
  }

  /** The outcome of a traversal depends on the graph alone. In particular it
      succeeds just when every node is reachable, and no traversal ends with an
      edge left over. */
  lemma FinalOutcome(c: Config, s: State)
    requires c.WellFormed() && Final(c, s)
    ensures OutcomeOf(s) ==
              if c.nodes <= Reachable(c) then Succeeded
              else if SomeNodeBlocked(c) then OrderingUnreachable
              else NodesUnreachable
  {
    FinalIsReachable(c, s);
    QueueAtHalt(c, s);
  }

  /** So it does not depend on the push order. */
  lemma OutcomeIsOrderIndependent(c: Config, order: PushOrder, order': PushOrder)
    requires c.WellFormed() && IsPushOrder(order) && IsPushOrder(order')
    ensures OutcomeOf(Pass(c, order)) == OutcomeOf(Pass(c, order'))
    ensures OutcomeOf(Pass(c, order)) == Succeeded <==> c.nodes <= Reachable(c)
    ensures OutcomeOf(Pass(c, order)) != EdgesUnreachable
    ensures Pass(c, order).finished == Pass(c, order').finished == Reachable(c)
  {
    PassIsFinal(c, order);
    PassIsFinal(c, order');
    FinalOutcome(c, Pass(c, order));
    FinalOutcome(c, Pass(c, order'));
    FinalIsReachable(c, Pass(c, order));
    FinalIsReachable(c, Pass(c, order'));
  }

  /** When the loop stops, the queue is empty unless a node is blocked. */
  lemma QueueAtHalt(c: Config, s: State)
    requires c.WellFormed() && Final(c, s) && s.finished == Reachable(c)
    ensures s.queue != [] <==> SomeNodeBlocked(c)
    ensures c.nodes <= s.finished ==> s.queue == [] && s.edges == {}
  {
    FirstRunnableIsFirst(c, s.queue, s.remaining);
    if s.queue != [] {
      var v := s.queue[0];
      assert v in Elems(s.queue);
      var e := FrontierEdge(s.edges, s.finished, v);
      if v in s.finished { FinishedCanRun(c, s.trace, v); }
      assert WellFormedEdge(e, c.nodes);
      assert Enters(e, v, Reachable(c));
      assert SomeNodeBlocked(c);
    }
    if SomeNodeBlocked(c) {
      var v, e :| v in c.nodes - Reachable(c) && e in c.edges && Enters(e, v, Reachable(c));
      OpenNodeIsQueued(c, s, e, v);
    }
    if c.nodes <= s.finished {
      assert !SomeNodeBlocked(c);
      EveryEdgeReachesTheQueue(c, s);
    }
  }

  lemma EveryEdgeReachesTheQueue(c: Config, s: State)
    requires c.WellFormed() && Inv(c, s) && c.nodes <= s.finished
    ensures forall e :: e in s.edges ==> e.f2.coll in s.queue
  {
    forall e | e in s.edges ensures e.f2.coll in s.queue {
      assert WellFormedEdge(e, c.nodes);
      assert e.f2.coll in Frontier(s.edges, s.finished);
      assert e.f2.coll in Elems(s.queue);
    }
  }

  /** A node that has run once is free to run again. */
  lemma {:induction false} FinishedCanRun(c: Config, trace: seq<Run>, n: CollAddr)
    requires GoodTrace(c, trace) && n in Ran(trace)
    ensures c.CanRun(n, c.nodes - Ran(trace))
    decreases |trace|
  {
    if |trace| == 1 {
    } else {
      var before, r := Front(trace), Last(trace);
      SplitLast(c, trace);
      if r.node == n {
        CanRunMonotone(c, n, c.nodes - Ran(before), c.nodes - Ran(trace));
      } else {
        FinishedCanRun(c, before, n);
        CanRunMonotone(c, n, c.nodes - Ran(before), c.nodes - Ran(trace));
      }
    }
  }

  /** Every execution of a node comes after everything it must run after has finished. */
  lemma RunsAfterItsPrerequisites(c: Config, trace: seq<Run>, k: nat, m: CollAddr) returns (j: nat)
    requires c.WellFormed() && GoodTrace(c, trace) && 0 < k < |trace| && m in c.nodes
    requires m in c.after(trace[k].node) || m.dataset in c.datasetAfter(trace[k].node)
    ensures j < k && trace[j].node == m
  {
    RunAt(c, trace, k);
    CanRunWhenMembers(c, trace[k].node, Ran(trace[..k]));
    assert RunsAfter(c, trace[k].node, m);
    var r :| r in trace[..k] && r.node == m;
    j :| 0 <= j < k && trace[..k][j] == r;
  }
}
