/** One traversal as a deterministic machine. The order in which children are
    pushed is an arbitrary function of the iteration number and the set of
    children, so a statement about every `order` is one about every run. */
module Scheduler {
  import opened Common
  import opened Graph
  import opened MatchingQueues

  type PushOrder = (nat, set<CollAddr>) -> seq<CollAddr>

  ghost predicate IsPushOrder(order: PushOrder) {
    forall k: nat, s :: NoDuplicates(order(k, s)) && Elems(order(k, s)) == s
  }

  /** One execution of a node: the edges that were completed by it. */
  datatype Run = Run(node: CollAddr, inputs: set<Edge>)

  datatype State = State(
    queue: seq<CollAddr>,
    finished: set<CollAddr>,
    remaining: set<CollAddr>,
    edges: set<Edge>,
    terminal: set<CollAddr>,
    trace: seq<Run>)

  function Init(c: Config): State {
    State([ROOT], {}, c.nodes, c.edges, {}, [])
  }

  function Runnable(c: Config, waiting: set<CollAddr>): CollAddr -> bool {
    n => c.CanRun(n, waiting)
  }

  /** Index of the first queued node that may run, or the queue's length. */
  function FirstRunnable(c: Config, queue: seq<CollAddr>, waiting: set<CollAddr>): (i: nat)
    ensures i <= |queue|
  {
    FirstMatch(Runnable(c, waiting), queue)
  }

  lemma FirstRunnableIsFirst(c: Config, queue: seq<CollAddr>, waiting: set<CollAddr>)
    ensures var i := FirstRunnable(c, queue, waiting);
            && (i < |queue| ==> c.CanRun(queue[i], waiting))
            && forall j :: 0 <= j < i ==> !c.CanRun(queue[j], waiting)
  {
    FirstMatchMatches(Runnable(c, waiting), queue);
  }

  predicate Halted(c: Config, s: State) {
    FirstRunnable(c, s.queue, s.remaining) == |s.queue|
  }

  /** The remaining edges that lead into `n` from a finished node. */
  function Completed(edges: set<Edge>, n: CollAddr, finished: set<CollAddr>): set<Edge> {
    set e | e in edges && e.LeadsInto(n, finished)
  }

  function Children(edges: set<Edge>, n: CollAddr): set<CollAddr> {
    set e | e in edges && e.LeadsFrom(n) :: e.Other(n)
  }

  function PushAll(queue: seq<CollAddr>, xs: seq<CollAddr>): seq<CollAddr>
    decreases |xs|
  {
    if xs == [] then queue else PushAll(PushedIfNew(queue, xs[0]), xs[1..])
  }

  /** Execute the node at index `i` of the queue. */
  function RunNode(order: PushOrder, s: State, i: nat): State
    requires i < |s.queue|
  {
    var n := s.queue[i];
    var done := Completed(s.edges, n, s.finished);
    var left := s.edges - done;
    var children := Children(left, n);
    State(
      PushAll(s.queue[..i] + s.queue[i+1..], order(|s.trace|, children)),
      s.finished + {n},
      s.remaining - {n},
      left,
      if children == {} then s.terminal + {n} else s.terminal,
      s.trace + [Run(n, done)])
  }

  function Step(c: Config, order: PushOrder, s: State): State
    requires !Halted(c, s)
  {
    RunNode(order, s, FirstRunnable(c, s.queue, s.remaining))
  }

  function Iterate(f: State -> State, s: State, k: nat): State {
    if k == 0 then s else f(Iterate(f, s, k - 1))
  }

  /** One turn of the loop; a halted machine stays where it is. */
  function Advance(c: Config, order: PushOrder): State -> State {
    s => if Halted(c, s) then s else Step(c, order, s)
  }

  /** The state after `k` iterations. */
  function After(c: Config, order: PushOrder, k: nat): State {
    Iterate(Advance(c, order), Init(c), k)
  }

  /** The state in which the loop stops. */
  function Pass(c: Config, order: PushOrder): State {
    After(c, order, |c.edges| + 1)
  }

  lemma AfterNext(c: Config, order: PushOrder, k: nat)
    ensures After(c, order, 0) == Init(c)
    ensures var s := After(c, order, k);
            After(c, order, k + 1) == if Halted(c, s) then s else Step(c, order, s)
  {
  }

  // ----- The loop invariant

  /** Nodes that a remaining edge leads into from a finished node. */
  ghost function Frontier(edges: set<Edge>, finished: set<CollAddr>): set<CollAddr> {
    (set e | e in edges && e.f1.coll in finished :: e.f2.coll)
    + (set e | e in edges && e.bidi && e.f2.coll in finished :: e.f1.coll)
  }

  ghost predicate Inv(c: Config, s: State) {
    && ROOT in s.finished
    && s.finished <= c.nodes + {ROOT}
    && s.remaining == c.nodes - s.finished
    && s.edges <= c.edges
    && NoDuplicates(s.queue)
    && Elems(s.queue) == Frontier(s.edges, s.finished)
    && (forall e :: e in s.edges && e.bidi ==> e.f1.coll !in s.finished || e.f2.coll !in s.finished)
  }

  lemma {:induction false} PushAllElems(queue: seq<CollAddr>, xs: seq<CollAddr>)
    requires NoDuplicates(queue)
    ensures NoDuplicates(PushAll(queue, xs))
    ensures Elems(PushAll(queue, xs)) == Elems(queue) + Elems(xs)
    decreases |xs|
  {
    if xs != [] {
      var q := PushedIfNew(queue, xs[0]);
      PushedIfNewElems(queue, xs[0]);
      PushAllElems(q, xs[1..]);
      assert xs == [xs[0]] + xs[1..];
      assert Elems(xs) == {xs[0]} + Elems(xs[1..]);
    }
  }

  lemma RemoveAt(queue: seq<CollAddr>, i: nat)
    requires NoDuplicates(queue) && i < |queue|
    ensures NoDuplicates(queue[..i] + queue[i+1..])
    ensures Elems(queue[..i] + queue[i+1..]) == Elems(queue) - {queue[i]}
  {
    var q := queue[..i] + queue[i+1..];
    forall x | x in queue && x != queue[i] ensures x in q {
      var j :| 0 <= j < |queue| && queue[j] == x;
      assert if j < i then q[j] == x else q[j-1] == x;
    }
  }

  lemma InitStep(c: Config, order: PushOrder)
    requires c.WellFormed() && IsPushOrder(order)
    ensures !Halted(c, Init(c))
    ensures Inv(c, Step(c, order, Init(c)))
    ensures Step(c, order, Init(c)).trace == [Run(ROOT, {})]
  {
    var s := Init(c);
    assert FirstRunnable(c, s.queue, s.remaining) == 0;
    assert Completed(s.edges, ROOT, {}) == {};
    assert s.edges - {} == s.edges;
    assert s.queue[..0] + s.queue[1..] == [];
    var children := Children(s.edges, ROOT);
    assert NoDuplicates(order(0, children)) && Elems(order(0, children)) == children;
    PushAllElems([], order(0, children));
    FrontierGrows(s.edges, {}, {}, ROOT);
  }

  lemma FrontierEdge(edges: set<Edge>, finished: set<CollAddr>, v: CollAddr) returns (e: Edge)
    requires v in Frontier(edges, finished)
    ensures e in edges && e.LeadsInto(v, finished)
  {
    if x :| x in edges && x.f1.coll in finished && x.f2.coll == v {
      e := x;
    } else {
      e :| e in edges && e.bidi && e.f2.coll in finished && e.f1.coll == v;
    }
  }

  /** Running `n` takes it off the frontier and puts its children on. */
  lemma FrontierGrows(edges: set<Edge>, done: set<Edge>, finished: set<CollAddr>, n: CollAddr)
    requires forall e :: e in edges ==> e.f1.coll != e.f2.coll
    requires done == Completed(edges, n, finished)
    requires forall e :: e in edges && e.bidi ==> e.f1.coll !in finished || e.f2.coll !in finished
    ensures Frontier(edges - done, finished + {n})
         == Frontier(edges, finished) - {n} + Children(edges - done, n)
  {
    var left := edges - done;
    var after := Frontier(left, finished + {n});
    forall v | v in Frontier(edges, finished) && v != n ensures v in after {
      var e := FrontierEdge(edges, finished, v);
      assert e in left;
    }
    forall v | v in Children(left, n) ensures v in after && v != n {
      var e :| e in left && e.LeadsFrom(n) && e.Other(n) == v;
      assert e in edges;
    }
    forall v | v in after ensures v in Frontier(edges, finished) - {n} + Children(left, n) {
      var e := FrontierEdge(left, finished + {n}, v);
      assert e in edges && !e.LeadsInto(n, finished);
      assert e.LeadsInto(v, finished) || (e.LeadsFrom(n) && e.Other(n) == v);
    }
  }

  lemma OrderLists(order: PushOrder, k: nat, s: set<CollAddr>)
    requires IsPushOrder(order)
    ensures NoDuplicates(order(k, s)) && Elems(order(k, s)) == s
  {
  }

  /** Popping `n` at index `i` and pushing its children turns one frontier into the next. */
  lemma QueueIsFrontier(queue: seq<CollAddr>, i: nat, xs: seq<CollAddr>,
                        edges: set<Edge>, finished: set<CollAddr>)
    requires i < |queue| && NoDuplicates(queue) && Elems(queue) == Frontier(edges, finished)
    requires forall e :: e in edges ==> e.f1.coll != e.f2.coll
    requires forall e :: e in edges && e.bidi ==> e.f1.coll !in finished || e.f2.coll !in finished
    requires Elems(xs) == Children(edges - Completed(edges, queue[i], finished), queue[i])
    ensures var q := PushAll(queue[..i] + queue[i+1..], xs);
            && NoDuplicates(q)
            && Elems(q) == Frontier(edges - Completed(edges, queue[i], finished), finished + {queue[i]})
  {
    RemoveAt(queue, i);
    PushAllElems(queue[..i] + queue[i+1..], xs);
    FrontierGrows(edges, Completed(edges, queue[i], finished), finished, queue[i]);
  }

  lemma StepBidi(s: State, n: CollAddr)
    requires forall e :: e in s.edges && e.bidi ==> e.f1.coll !in s.finished || e.f2.coll !in s.finished
    requires forall e :: e in s.edges ==> e.f1.coll != e.f2.coll
    ensures forall e :: e in s.edges - Completed(s.edges, n, s.finished) && e.bidi ==>
              e.f1.coll !in s.finished + {n} || e.f2.coll !in s.finished + {n}
  {
    forall e | e in s.edges - Completed(s.edges, n, s.finished) && e.bidi
      ensures e.f1.coll !in s.finished + {n} || e.f2.coll !in s.finished + {n}
    {
      assert !e.LeadsInto(n, s.finished);
    }
  }

  lemma RunKeepsInv(c: Config, order: PushOrder, s: State, i: nat)
    requires c.WellFormed() && IsPushOrder(order)
    requires Inv(c, s) && i < |s.queue|
    ensures Inv(c, RunNode(order, s, i))
  {
    var children := Children(s.edges - Completed(s.edges, s.queue[i], s.finished), s.queue[i]);
    OrderLists(order, |s.trace|, children);
    QueueIsFrontier(s.queue, i, order(|s.trace|, children), s.edges, s.finished);
    RunCompletesAnEdge(c, s, i);
    StepBidi(s, s.queue[i]);
  }

  /** Every queued node but the root has an edge to complete. */
  lemma RunCompletesAnEdge(c: Config, s: State, i: nat)
    requires c.WellFormed() && Inv(c, s) && i < |s.queue|
    ensures s.queue[i] in c.nodes
    ensures Completed(s.edges, s.queue[i], s.finished) != {}
  {
    var n := s.queue[i];
    assert n in Elems(s.queue);
    var e := FrontierEdge(s.edges, s.finished, n);
    assert e in Completed(s.edges, n, s.finished);
  }

  lemma {:induction false} InvAlways(c: Config, order: PushOrder, k: nat)
    requires c.WellFormed() && IsPushOrder(order) && k > 0
    ensures Inv(c, After(c, order, k))
  {
    AfterNext(c, order, k - 1);
    if k == 1 {
      InitStep(c, order);
    } else {
      InvAlways(c, order, k - 1);
      var s := After(c, order, k - 1);
      if !Halted(c, s) { RunKeepsInv(c, order, s, FirstRunnable(c, s.queue, s.remaining)); }
    }
  }
}
