/** The parent-child links a traversal leaves behind. */
module SchedulerLinks {
  import opened Common
  import opened Graph
  import opened Scheduler
  import opened SchedulerTraces
  import opened SchedulerTheorems

  /** The k-th execution linked its node as a child of `u`. */
  ghost predicate LinkAt(trace: seq<Run>, k: nat, u: CollAddr) {
    k < |trace| && exists e :: e in trace[k].inputs && e.Other(trace[k].node) == u
  }

  ghost predicate Linked(trace: seq<Run>, u: CollAddr, v: CollAddr) {
    exists k: nat :: LinkAt(trace, k, u) && trace[k].node == v
  }

  /** A path of links, from parent to child. */
  ghost predicate IsPath(trace: seq<Run>, p: seq<CollAddr>) {
    p != [] && forall i :: 0 <= i < |p| - 1 ==> Linked(trace, p[i], p[i+1])
  }

  // ----- Every edge is linked exactly once

  lemma {:induction false} ConsumedOnce(c: Config, trace: seq<Run>, e: Edge) returns (k: nat)
    requires GoodTrace(c, trace) && e in Consumed(trace)
    ensures 0 < k < |trace| && e in trace[k].inputs
    ensures e.LeadsInto(trace[k].node, Ran(trace[..k]))
    ensures forall j :: 0 <= j < |trace| && e in trace[j].inputs ==> j == k
    decreases |trace|
  {
    if |trace| == 1 {
      assert false;
    } else {
      var before, r := Front(trace), Last(trace);
      SplitLast(c, trace);
      if e in Consumed(before) {
        k := ConsumedOnce(c, before, e);
        assert before[..k] == trace[..k];
      } else {
        k := |trace| - 1;
        forall j | 0 <= j < k ensures e !in trace[j].inputs {
          assert before[j] in before;
        }
      }
    }
  }

  /** In a successful traversal every edge, seed edges included, makes its node a
      child exactly once, of a node that had finished by then. */
  lemma EveryEdgeLinkedOnce(c: Config, s: State, e: Edge) returns (k: nat)
    requires c.WellFormed() && Final(c, s) && e in c.edges
    requires OutcomeOf(s) == Succeeded
    ensures 0 < k < |s.trace| && e in s.trace[k].inputs
    ensures e.LeadsInto(s.trace[k].node, Ran(s.trace[..k]))
    ensures forall j :: 0 <= j < |s.trace| && e in s.trace[j].inputs ==> j == k
  {
    assert e !in s.edges;
    k := ConsumedOnce(c, s.trace, e);
  }

  // ----- The root is above every node

  lemma {:induction false} PathFromRoot(c: Config, trace: seq<Run>, n: CollAddr) returns (p: seq<CollAddr>)
    requires GoodTrace(c, trace) && n in Ran(trace)
    ensures IsPath(trace, p) && p[0] == ROOT && Last(p) == n
    decreases |trace|
  {
    if |trace| == 1 {
      p := [ROOT];
    } else {
      var before, r := Front(trace), Last(trace);
      SplitLast(c, trace);
      if n in Ran(before) {
        p := PathFromRoot(c, before, n);
        PathExtends(before, r, p);
      } else {
        var e :| e in r.inputs;
        var u := e.Other(n);
        var q := PathFromRoot(c, before, u);
        PathExtends(before, r, q);
        assert LinkAt(trace, |before|, u);
        p := q + [n];
        PathAppend(trace, q, n);
      }
    }
  }

  lemma PathAppend(trace: seq<Run>, p: seq<CollAddr>, n: CollAddr)
    requires IsPath(trace, p) && Linked(trace, Last(p), n)
    ensures IsPath(trace, p + [n])
  {
    var q := p + [n];
    forall i | 0 <= i < |q| - 1 ensures Linked(trace, q[i], q[i+1]) {
      if i < |p| - 1 { assert Linked(trace, p[i], p[i+1]); }
    }
  }

  lemma PathExtends(before: seq<Run>, r: Run, p: seq<CollAddr>)
    requires IsPath(before, p)
    ensures IsPath(before + [r], p)
  {
    forall i | 0 <= i < |p| - 1 ensures Linked(before + [r], p[i], p[i+1]) {
      assert Linked(before, p[i], p[i+1]);
      var k: nat :| LinkAt(before, k, p[i]) && before[k].node == p[i+1];
      assert (before + [r])[k] == before[k];
      assert LinkAt(before + [r], k, p[i]);
    }
  }

  // ----- Undirected references: one execution each, no cycles

  /** Every reference is undirected; seed edges leave the root. */
  ghost predicate Undirected(c: Config) {
    forall e :: e in c.edges ==> e.bidi || e.f1.coll == ROOT
  }

  /** No remaining edge leads into a finished node from another. */
  lemma {:induction false} NothingLeadsBack(c: Config, trace: seq<Run>, n: CollAddr, e: Edge)
    requires c.WellFormed() && Undirected(c) && GoodTrace(c, trace)
    requires n in Ran(trace) && e in c.edges - Consumed(trace)
    ensures !e.LeadsInto(n, Ran(trace))
    decreases |trace|
  {
    if |trace| == 1 {
    } else {
      var before, r := Front(trace), Last(trace);
      SplitLast(c, trace);
      assert ROOT in Ran(before) by { RootRan(c, before); }
      if n in Ran(before) { NothingLeadsBack(c, before, n, e); }
      if e.Other(r.node) in Ran(before) { NothingLeadsBack(c, before, e.Other(r.node), e); }
    }
  }

  lemma RootRan(c: Config, trace: seq<Run>)
    requires GoodTrace(c, trace)
    ensures ROOT in Ran(trace)
  {
    GoodPrefix(c, trace, 1);
    assert trace[0] in trace;
  }

  ghost predicate RunsOnce(trace: seq<Run>) {
    forall i, j :: 0 <= i < j < |trace| ==> trace[i].node != trace[j].node
  }

  lemma {:induction false} UndirectedRunsOnce(c: Config, trace: seq<Run>)
    requires c.WellFormed() && Undirected(c) && GoodTrace(c, trace)
    ensures RunsOnce(trace)
    decreases |trace|
  {
    if |trace| == 1 {
    } else {
      var before, r := Front(trace), Last(trace);
      UndirectedRunsOnce(c, before);
      var e :| e in r.inputs;
      if r.node in Ran(before) { NothingLeadsBack(c, before, r.node, e); }
      forall i | 0 <= i < |before| ensures before[i].node != r.node {
        assert before[i] in before;
      }
    }
  }

  /** Where links only go forward, a path's end runs after its start. */
  lemma {:induction false} PathGoesForward(c: Config, trace: seq<Run>, p: seq<CollAddr>) returns (i: nat, j: nat)
    requires GoodTrace(c, trace) && RunsOnce(trace) && IsPath(trace, p) && |p| > 1
    ensures i < j < |trace| && trace[i].node == p[0] && trace[j].node == Last(p)
    decreases |p|
  {
    assert Linked(trace, p[0], p[1]);
    var k: nat :| LinkAt(trace, k, p[0]) && trace[k].node == p[1];
    var e :| e in trace[k].inputs && e.Other(trace[k].node) == p[0];
    if k > 0 { RunAt(c, trace, k); } else { GoodPrefix(c, trace, 1); }
    assert p[0] in Ran(trace[..k]);
    var r :| r in trace[..k] && r.node == p[0];
    i :| 0 <= i < k && trace[..k][i] == r;
    if |p| == 2 {
      j := k;
    } else {
      assert IsPath(trace, p[1..]) by {
        forall x | 0 <= x < |p[1..]| - 1 ensures Linked(trace, p[1..][x], p[1..][x+1]) {
          assert Linked(trace, p[x+1], p[x+2]);
        }
      }
      var i2, j2 := PathGoesForward(c, trace, p[1..]);
      j := j2;
    }
  }

  /** With undirected references each node runs exactly once, and the links form no
      cycle, with the root above every node. */
  lemma UndirectedIsAcyclic(c: Config, s: State)
    requires c.WellFormed() && Final(c, s) && Undirected(c)
    ensures RunsOnce(s.trace)
    ensures forall p :: IsPath(s.trace, p) && |p| > 1 ==> p[0] != Last(p)
    ensures forall n :: n in s.finished ==>
              exists p :: IsPath(s.trace, p) && p[0] == ROOT && Last(p) == n
  {
    UndirectedRunsOnce(c, s.trace);
    forall p | IsPath(s.trace, p) && |p| > 1 ensures p[0] != Last(p) {
      var i, j := PathGoesForward(c, s.trace, p);
    }
    forall n | n in s.finished ensures exists p :: IsPath(s.trace, p) && p[0] == ROOT && Last(p) == n {
      var p := PathFromRoot(c, s.trace, n);
    }
  }

  // ----- Directed references that no walk returns from

  /** A reference can be followed from `u` to `v`. */
  ghost predicate Leads(c: Config, u: CollAddr, v: CollAddr) {
    exists e :: e in c.edges && e.LeadsInto(v, {u})
  }

  ghost predicate IsWalk(c: Config, p: seq<CollAddr>) {
    p != [] && forall i :: 0 <= i < |p| - 1 ==> Leads(c, p[i], p[i+1])
  }

  ghost predicate Walks(c: Config, u: CollAddr, v: CollAddr) {
    exists p :: IsWalk(c, p) && p[0] == u && Last(p) == v
  }

  /** No directed edge lies on a closed walk; undirected ones can be walked either way. */
  ghost predicate NoReturn(c: Config) {
    forall e :: e in c.edges && !e.bidi ==> !Walks(c, e.f2.coll, e.f1.coll)
  }

  /** An undirected edge with both ends run has been completed. */
  lemma {:induction false} UndirectedIsCompleted(c: Config, trace: seq<Run>, e: Edge)
    requires c.WellFormed() && GoodTrace(c, trace) && e in c.edges && e.bidi
    requires e.f1.coll in Ran(trace) && e.f2.coll in Ran(trace)
    ensures e in Consumed(trace)
    decreases |trace|
  {
    assert WellFormedEdge(e, c.nodes);
    if |trace| > 1 {
      SplitLast(c, trace);
      var before := Front(trace);
      if e.f1.coll in Ran(before) && e.f2.coll in Ran(before) { UndirectedIsCompleted(c, before, e); }
    }
  }

  /** The first execution of a node. */
  function FirstRun(trace: seq<Run>, n: CollAddr): (k: nat)
    requires exists i :: 0 <= i < |trace| && trace[i].node == n
    ensures k < |trace| && trace[k].node == n
    ensures forall j :: 0 <= j < k ==> trace[j].node != n
  {
    if trace[0].node == n then 0
    else
      assert forall i :: 0 < i < |trace| ==> trace[1..][i-1] == trace[i];
      1 + FirstRun(trace[1..], n)
  }

  /** A link is an edge of the graph that was followed from its one end to the other. */
  lemma LinkEdgeOf(c: Config, trace: seq<Run>, u: CollAddr, v: CollAddr) returns (k: nat, e: Edge)
    requires c.WellFormed() && GoodTrace(c, trace) && Linked(trace, u, v)
    ensures 0 < k < |trace| && trace[k].node == v && e in trace[k].inputs && e in c.edges
    ensures e !in Consumed(trace[..k]) && e.LeadsInto(v, {u}) && u in Ran(trace[..k])
  {
    k :| LinkAt(trace, k, u) && trace[k].node == v;
    e :| e in trace[k].inputs && e.Other(trace[k].node) == u;
    if k > 0 { RunAt(c, trace, k); } else { GoodPrefix(c, trace, 1); }
    assert WellFormedEdge(e, c.nodes);
  }

  /** Along an undirected link the child first ran after the parent. */
  lemma UndirectedGoesForward(c: Config, trace: seq<Run>, u: CollAddr, v: CollAddr, k: nat, e: Edge)
    requires c.WellFormed() && GoodTrace(c, trace) && e in c.edges && e.bidi && e.LeadsInto(v, {u})
    requires 0 < k < |trace| && trace[k].node == v && e !in Consumed(trace[..k]) && u in Ran(trace[..k])
    ensures FirstAfter(trace, u, v)
  {
    var before := trace[..k];
    GoodPrefix(c, trace, k);
    if v in Ran(before) { UndirectedIsCompleted(c, before, e); }
    var r :| r in before && r.node == u;
    var i :| 0 <= i < k && before[i] == r;
    assert trace[i].node == u;
    forall j | 0 <= j < k ensures trace[j].node != v { assert trace[j] in before; }
  }

  lemma WalkAround(c: Config, p: seq<CollAddr>, i: nat)
    requires IsWalk(c, p) && i + 1 < |p| && p[0] == Last(p)
    ensures Walks(c, p[i+1], p[i])
  {
    var q := p[i+1..] + p[1..i+1];
    var n := |p| - i - 1;
    forall j | 0 <= j < |q| - 1 ensures Leads(c, q[j], q[j+1]) {
      if j < n - 1 {
        assert Leads(c, p[i+1+j], p[i+2+j]);
      } else {
        assert Leads(c, p[j-n+1], p[j-n+2]);
      }
    }
    assert IsWalk(c, q) && q[0] == p[i+1] && Last(q) == p[i];
  }

  lemma PathIsWalk(c: Config, trace: seq<Run>, p: seq<CollAddr>)
    requires c.WellFormed() && GoodTrace(c, trace) && IsPath(trace, p)
    ensures IsWalk(c, p)
  {
    forall i | 0 <= i < |p| - 1 ensures Leads(c, p[i], p[i+1]) {
      var k, e := LinkEdgeOf(c, trace, p[i], p[i+1]);
    }
  }

  /** Both have run, `v` for the first time after `u` had. */
  ghost predicate FirstAfter(trace: seq<Run>, u: CollAddr, v: CollAddr) {
    && (exists i :: 0 <= i < |trace| && trace[i].node == u)
    && (exists i :: 0 <= i < |trace| && trace[i].node == v)
    && FirstRun(trace, u) < FirstRun(trace, v)
  }

  lemma {:induction false} FirstRunsIncrease(trace: seq<Run>, p: seq<CollAddr>, n: nat)
    requires 0 < n < |p| && forall i :: 0 <= i < |p| - 1 ==> FirstAfter(trace, p[i], p[i+1])
    ensures FirstAfter(trace, p[0], p[n])
  {
    if n > 1 { FirstRunsIncrease(trace, p, n - 1); }
    assert FirstAfter(trace, p[n-1], p[n-1+1]);
  }

  /** Where no walk of references returns to a directed one, the links form no cycle,
      although a node may still run more than once. */
  lemma NoReturnIsAcyclic(c: Config, s: State, p: seq<CollAddr>)
    requires c.WellFormed() && Final(c, s) && NoReturn(c)
    requires IsPath(s.trace, p) && |p| > 1
    ensures p[0] != Last(p)
  {
    if p[0] == Last(p) {
      PathIsWalk(c, s.trace, p);
      forall i | 0 <= i < |p| - 1 ensures FirstAfter(s.trace, p[i], p[i+1]) {
        assert Linked(s.trace, p[i], p[i+1]);
        var k, e := LinkEdgeOf(c, s.trace, p[i], p[i+1]);
        WalkAround(c, p, i);
        UndirectedGoesForward(c, s.trace, p[i], p[i+1], k, e);
      }
      FirstRunsIncrease(s.trace, p, |p| - 1);
    }
  }

  /** Undirected references are such: nothing leads back to the root. */
  lemma UndirectedHasNoReturn(c: Config)
    requires c.WellFormed() && Undirected(c)
    ensures NoReturn(c)
  {
    forall e | e in c.edges && !e.bidi ensures !Walks(c, e.f2.coll, e.f1.coll) {
      assert WellFormedEdge(e, c.nodes);
      forall p | IsWalk(c, p) && p[0] == e.f2.coll ensures Last(p) != ROOT {
        if |p| > 1 {
          assert Leads(c, p[|p|-2], p[|p|-2+1]);
          var f :| f in c.edges && f.LeadsInto(Last(p), {p[|p|-2]});
          assert WellFormedEdge(f, c.nodes);
        }
      }
    }
  }

  // ----- Directed references: cycles are followed all the way round

  ghost predicate DirectedEdge(c: Config, u: CollAddr, v: CollAddr) {
    exists e :: e in c.edges && !e.bidi && e.f1.coll == u && e.f2.coll == v
  }

  ghost predicate DirectedWalk(c: Config, p: seq<CollAddr>) {
    p != [] && forall i :: 0 <= i < |p| - 1 ==> DirectedEdge(c, p[i], p[i+1])
  }

  lemma DirectedEdgeIsLinked(c: Config, s: State, u: CollAddr, v: CollAddr)
    requires c.WellFormed() && Final(c, s) && OutcomeOf(s) == Succeeded
    requires DirectedEdge(c, u, v)
    ensures Linked(s.trace, u, v)
  {
    var e :| e in c.edges && !e.bidi && e.f1.coll == u && e.f2.coll == v;
    var k := EveryEdgeLinkedOnce(c, s, e);
    assert WellFormedEdge(e, c.nodes);
    assert LinkAt(s.trace, k, u);
  }

  /** A cycle of directed references becomes a cycle of links in every successful
      traversal, and makes some node run more than once. */
  lemma DirectedCycleIsLinked(c: Config, s: State, p: seq<CollAddr>)
    requires c.WellFormed() && Final(c, s) && OutcomeOf(s) == Succeeded
    requires DirectedWalk(c, p) && |p| > 1 && p[0] == Last(p)
    ensures IsPath(s.trace, p)
    ensures !RunsOnce(s.trace)
  {
    forall i | 0 <= i < |p| - 1 ensures Linked(s.trace, p[i], p[i+1]) {
      assert DirectedEdge(c, p[i], p[i+1]);
      DirectedEdgeIsLinked(c, s, p[i], p[i+1]);
    }
    if RunsOnce(s.trace) {
      var i, j := PathGoesForward(c, s.trace, p);
    }
  }

  /** Two collections with directed references to each other, one of them seeded. */
  const A := CollAddr("d", "a")
  const B := CollAddr("d", "b")
  const SEED := Edge(FieldAddr(ROOT, ["email"]), FieldAddr(A, ["email"]), false)
  const FORTH := Edge(FieldAddr(A, ["id"]), FieldAddr(B, ["a_id"]), false)
  const BACK := Edge(FieldAddr(B, ["id"]), FieldAddr(A, ["b_id"]), false)
  const CYCLIC := Config({A, B}, {SEED, FORTH, BACK}, _ => {}, _ => {})

  /** Every traversal of this graph succeeds, runs a node twice and links A, B, A. */
  lemma DirectedMayCycle(s: State)
    requires Final(CYCLIC, s)
    ensures CYCLIC.WellFormed()
    ensures OutcomeOf(s) == Succeeded && !RunsOnce(s.trace) && IsPath(s.trace, [A, B, A])
  {
    assert A != B && A != ROOT && B != ROOT;
    CyclicIsReachable();
    FinalOutcome(CYCLIC, s);
    assert FORTH in CYCLIC.edges && BACK in CYCLIC.edges;
    assert DirectedEdge(CYCLIC, A, B) && DirectedEdge(CYCLIC, B, A);
    DirectedCycleIsLinked(CYCLIC, s, [A, B, A]);
  }

  lemma CyclicIsReachable()
    ensures CYCLIC.nodes <= Reachable(CYCLIC)
  {
    forall reached | Closed(CYCLIC, reached) ensures A in reached && B in reached {
      assert SEED in CYCLIC.edges && Enters(SEED, A, reached);
      assert A in reached;
      assert FORTH in CYCLIC.edges && Enters(FORTH, B, reached);
    }
  }

  // ----- Every node reaches an end node

  /** After its last execution, `n` became the parent of a later node. */
  ghost predicate HandsOn(trace: seq<Run>, n: CollAddr) {
    exists k: nat :: LinkAt(trace, k, n) && NotAgain(trace, k, n)
  }

  ghost predicate NotAgain(trace: seq<Run>, k: nat, n: CollAddr) {
    forall j :: k <= j < |trace| ==> trace[j].node != n
  }

  ghost predicate HasOpenEdge(s: State, n: CollAddr) {
    exists e :: e in s.edges && e.LeadsFrom(n)
  }

  ghost predicate EndsOrContinues(s: State) {
    forall n :: n in s.finished ==> n in s.terminal || HasOpenEdge(s, n) || HandsOn(s.trace, n)
  }

  lemma HandsOnStays(trace: seq<Run>, r: Run, n: CollAddr)
    requires HandsOn(trace, n) && r.node != n
    ensures HandsOn(trace + [r], n)
  {
    var k: nat :| LinkAt(trace, k, n) && NotAgain(trace, k, n);
    assert (trace + [r])[k] == trace[k];
    assert LinkAt(trace + [r], k, n) && NotAgain(trace + [r], k, n);
  }

  lemma RunKeepsEnds(c: Config, order: PushOrder, s: State, i: nat)
    requires c.WellFormed() && Inv(c, s) && EndsOrContinues(s) && i < |s.queue|
    ensures EndsOrContinues(RunNode(order, s, i))
  {
    var t := RunNode(order, s, i);
    var m := s.queue[i];
    var r := Run(m, Completed(s.edges, m, s.finished));
    forall n | n in t.finished ensures n in t.terminal || HasOpenEdge(t, n) || HandsOn(t.trace, n) {
      if n == m {
        if n !in t.terminal {
          var v :| v in Children(t.edges, n);
          assert HasOpenEdge(t, n);
        }
      } else if n !in s.terminal {
        if HandsOn(s.trace, n) {
          HandsOnStays(s.trace, r, n);
        } else {
          var e :| e in s.edges && e.LeadsFrom(n);
          if e !in t.edges {
            assert WellFormedEdge(e, c.nodes);
            assert e in r.inputs;
            assert e.LeadsInto(m, s.finished);
            assert e.Other(m) == n;
            assert t.trace[|s.trace|] == r;
            assert LinkAt(t.trace, |s.trace|, n) && NotAgain(t.trace, |s.trace|, n);
          }
        }
      }
    }
  }

  /** The k-th execution is one of `n`, and left no edge by which to go on from it. */
  ghost predicate NoWayOn(c: Config, trace: seq<Run>, k: nat, n: CollAddr)
    requires k < |trace|
  {
    && trace[k].node == n
    && forall e :: e in c.edges && e !in Consumed(trace[..k+1]) ==> e.f1.coll != n && (e.bidi ==> e.f2.coll != n)
  }

  ghost predicate TerminalExact(c: Config, s: State) {
    && s.edges == c.edges - Consumed(s.trace)
    && forall n :: n in s.terminal <==> exists k :: 0 <= k < |s.trace| && NoWayOn(c, s.trace, k, n)
  }

  lemma NoChildrenIff(edges: set<Edge>, n: CollAddr)
    ensures Children(edges, n) == {} <==> forall e :: e in edges ==> e.f1.coll != n && (e.bidi ==> e.f2.coll != n)
  {
    assert forall e :: e in edges && e.LeadsFrom(n) ==> e.Other(n) in Children(edges, n);
  }

  lemma RunKeepsTerminal(c: Config, order: PushOrder, s: State, i: nat)
    requires TerminalExact(c, s) && i < |s.queue|
    ensures TerminalExact(c, RunNode(order, s, i))
  {
    var t, last := RunNode(order, s, i), |s.trace|;
    var r := Run(s.queue[i], Completed(s.edges, s.queue[i], s.finished));
    Extend(s.trace, r);
    assert t.trace == s.trace + [r] && t.trace[..last+1] == t.trace;
    forall k, n | 0 <= k < last ensures NoWayOn(c, t.trace, k, n) <==> NoWayOn(c, s.trace, k, n) {
      assert t.trace[..k+1] == s.trace[..k+1];
    }
    forall n ensures NoWayOn(c, t.trace, last, n) <==> n == r.node && Children(t.edges, n) == {} {
      NoChildrenIff(t.edges, n);
    }
    forall n ensures n in t.terminal <==> exists k :: 0 <= k < |t.trace| && NoWayOn(c, t.trace, k, n) {
      if k :| 0 <= k < |t.trace| && NoWayOn(c, t.trace, k, n) {
        assert k < last ==> NoWayOn(c, s.trace, k, n);
      }
      if n in s.terminal {
        var k :| 0 <= k < last && NoWayOn(c, s.trace, k, n);
        assert NoWayOn(c, t.trace, k, n);
      }
    }
  }

  /** At every point just those nodes are marked terminal that ran when nothing was left to
      go on to. */
  lemma {:induction false} TerminalAlways(c: Config, order: PushOrder, k: nat)
    ensures TerminalExact(c, After(c, order, k))
    decreases k
  {
    if k == 0 {
      AfterNext(c, order, 0);
      NoneTerminal(c);
    } else {
      TerminalAlways(c, order, k - 1);
      TerminalNext(c, order, k - 1);
    }
  }

  lemma TerminalNext(c: Config, order: PushOrder, k: nat)
    requires TerminalExact(c, After(c, order, k))
    ensures TerminalExact(c, After(c, order, k + 1))
  {
    var s := After(c, order, k);
    var t := if Halted(c, s) then s else Step(c, order, s);
    if !Halted(c, s) { StepKeepsTerminal(c, order, s); }
    assert TerminalExact(c, t);
    AfterNext(c, order, k);
  }

  lemma NoneTerminal(c: Config)
    ensures TerminalExact(c, Init(c))
  {
    assert Consumed([]) == {};
  }

  lemma StepKeepsTerminal(c: Config, order: PushOrder, s: State)
    requires TerminalExact(c, s) && !Halted(c, s)
    ensures TerminalExact(c, Step(c, order, s))
  {
    RunKeepsTerminal(c, order, s, FirstRunnable(c, s.queue, s.remaining));
  }

  lemma {:induction false} EndsAlways(c: Config, order: PushOrder, k: nat)
    requires c.WellFormed() && IsPushOrder(order) && k > 0
    ensures EndsOrContinues(After(c, order, k))
  {
    AfterNext(c, order, k - 1);
    if k == 1 {
      FirstEnds(c, order);
    } else {
      EndsAlways(c, order, k - 1);
      InvAlways(c, order, k - 1);
      var s := After(c, order, k - 1);
      if !Halted(c, s) { RunKeepsEnds(c, order, s, FirstRunnable(c, s.queue, s.remaining)); }
    }
  }

  lemma FirstEnds(c: Config, order: PushOrder)
    ensures !Halted(c, Init(c)) && EndsOrContinues(Step(c, order, Init(c)))
  {
    var s := Init(c);
    assert FirstRunnable(c, s.queue, s.remaining) == 0;
    var t := RunNode(order, s, 0);
    if ROOT !in t.terminal {
      var v :| v in Children(t.edges, ROOT);
      assert HasOpenEdge(t, ROOT);
    }
  }

  function LastRun(trace: seq<Run>, n: CollAddr): (k: nat)
    requires exists i :: 0 <= i < |trace| && trace[i].node == n
    ensures k < |trace| && trace[k].node == n
    ensures forall j :: k < j < |trace| ==> trace[j].node != n
  {
    if Last(trace).node == n then |trace| - 1
    else
      assert forall i :: 0 <= i < |trace| && trace[i].node == n ==> Front(trace)[i].node == n;
      LastRun(Front(trace), n)
  }

  lemma {:induction false} PathToEnd(s: State, n: CollAddr) returns (p: seq<CollAddr>)
    requires s.finished == Ran(s.trace) && s.edges == {} && EndsOrContinues(s)
    requires exists i :: 0 <= i < |s.trace| && s.trace[i].node == n
    ensures IsPath(s.trace, p) && p[0] == n && Last(p) in s.terminal
    decreases |s.trace| - LastRun(s.trace, n)
  {
    var last := LastRun(s.trace, n);
    assert s.trace[last] in s.trace;
    assert n in s.finished;
    if n in s.terminal {
      p := [n];
    } else {
      var k: nat :| LinkAt(s.trace, k, n) && NotAgain(s.trace, k, n);
      var v := s.trace[k].node;
      assert Linked(s.trace, n, v);
      var q := PathToEnd(s, v);
      p := [n] + q;
    }
  }

  /** The state in which a traversal stops, with what is known of its end nodes. */
  ghost predicate Ended(c: Config, s: State) {
    Final(c, s) && EndsOrContinues(s)
  }

  lemma PassEnds(c: Config, order: PushOrder)
    requires c.WellFormed() && IsPushOrder(order)
    ensures Ended(c, Pass(c, order))
  {
    PassIsFinal(c, order);
    EndsAlways(c, order, |c.edges| + 1);
  }

  /** In a successful traversal every node reaches an end node along child links. */
  lemma ReachesAnEndNode(c: Config, s: State, n: CollAddr) returns (p: seq<CollAddr>)
    requires c.WellFormed() && Ended(c, s) && OutcomeOf(s) == Succeeded
    requires n in c.nodes + {ROOT}
    ensures IsPath(s.trace, p) && p[0] == n && Last(p) in s.terminal
  {
    var r :| r in s.trace && r.node == n;
    var i :| 0 <= i < |s.trace| && s.trace[i] == r;
    p := PathToEnd(s, n);
  }
}
