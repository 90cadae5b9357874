/** The traversal as it runs: nodes whose parent and child lists grow in place and
    persist from one pass to the next. */
module Traversals {
  import opened Common
  import opened Graph
  import opened MatchingQueues
  import opened Scheduler
  import opened SchedulerTraces
  import opened SchedulerTheorems
  import opened SchedulerLinks

  /** An entry of a node's parent or child list: the edge followed, and its ends in
      the direction it was followed. */
  datatype Link = Link(via: Edge, parent: FieldAddr, child: FieldAddr)

  /** The entry made when `e` is followed into `n`. */
  function LinkInto(e: Edge, n: CollAddr): Link {
    if e.f1.coll == n then Link(e, e.f2, e.f1) else Link(e, e.f1, e.f2)
  }

  /** An entry as a directed edge, parent to child. */
  function AsEdge(l: Link): Edge {
    Edge(l.parent, l.child, false)
  }

  class TraversalNode {
    const address: CollAddr
    var children: seq<Link>
    var parents: seq<Link>
    var isTerminal: bool

    constructor (address: CollAddr)
      ensures this.address == address && children == [] && parents == [] && !isTerminal
    {
      this.address := address;
      children, parents, isTerminal := [], [], false;
    }

    /** Nothing happens when the edge does not lead away from this node. */
    method AddChild(child: TraversalNode, edge: Edge)
      requires edge.f1.coll != edge.f2.coll
      modifies this`children, child`parents
      ensures edge.LeadsFrom(address) ==>
                && children == old(children) + [LinkInto(edge, edge.Other(address))]
                && child.parents == old(child.parents) + [LinkInto(edge, edge.Other(address))]
      ensures !edge.LeadsFrom(address) ==>
                children == old(children) && child.parents == old(child.parents)
    {
      match edge.SplitByAddress(address) {
        case Some((own, other)) =>
          var link := Link(edge, own, other);
          children := children + [link];
          child.parents := child.parents + [link];
        case None =>
      }
    }

    /** The edges into this node, as (other collection -> this collection). */
    function IncomingEdges(): set<Edge>
      reads this`parents
    {
      EdgesOf(parents)
    }
  }

  predicate Blank(n: TraversalNode)
    reads n
  {
    n.parents == [] && n.children == [] && !n.isTerminal
  }

  ghost predicate OwnEntries(n: TraversalNode)
    reads n
  {
    && (forall l :: l in n.children ==> l.parent.coll == n.address)
    && (forall l :: l in n.parents ==> l.child.coll == n.address)
  }

  /** `n` has `m` among its children as often as `m` has `n` among its parents. */
  ghost predicate SameEntries(n: TraversalNode, m: TraversalNode)
    reads n, m
  {
    forall l: Link :: l.parent.coll == n.address && l.child.coll == m.address ==>
      multiset(n.children)[l] == multiset(m.parents)[l]
  }

  function EdgesOf(links: seq<Link>): set<Edge> {
    set l | l in links :: AsEdge(l)
  }

  // ----- Which entries a sequence of executions adds to a node's parents

  ghost function LinksInto(edges: set<Edge>, n: CollAddr): set<Link> {
    set e | e in edges :: LinkInto(e, n)
  }

  ghost function InLinks(trace: seq<Run>, a: CollAddr): set<Link> {
    LinksInto(ConsumedBy(trace, a), a)
  }

  lemma BagOfUnion<T>(a: set<T>, b: set<T>)
    requires a !! b
    ensures multiset(a + b) == multiset(a) + multiset(b)
  {
  }

  lemma MoreLinks(was: set<Edge>, now: set<Edge>, n: CollAddr)
    requires was !! now
    ensures multiset(LinksInto(was + now, n)) == multiset(LinksInto(was, n)) + multiset(LinksInto(now, n))
  {
    assert LinksInto(was + now, n) == LinksInto(was, n) + LinksInto(now, n);
    BagOfUnion(LinksInto(was, n), LinksInto(now, n));
  }

  lemma MoveOne<T>(done: set<T>, todo: set<T>, x: T)
    requires done !! todo && x in todo
    ensures (done + {x}) + (todo - {x}) == done + todo
    ensures (done + {x}) !! (todo - {x})
    ensures |todo - {x}| < |todo|
  {
  }

  lemma OneMoreLink(was: set<Edge>, e: Edge, n: CollAddr)
    requires e !in was
    ensures multiset(LinksInto(was + {e}, n)) == multiset(LinksInto(was, n)) + multiset{LinkInto(e, n)}
  {
    MoreLinks(was, {e}, n);
    assert LinksInto({e}, n) == {LinkInto(e, n)};
  }

  /** An edge that spans two addresses ends with the second and leads from the first. */
  lemma EndsAndLeads(e: Edge, a: CollAddr, b: CollAddr)
    requires e.Spans(a, b) && e.f1.coll != e.f2.coll
    ensures e.EndsWithCollection(b) && e.LeadsFrom(a) && e.Other(a) == b
    ensures LinkInto(e, b).parent.coll == a && LinkInto(e, b).child.coll == b
  {
  }

  /** An edge ends with just those collections it can be followed into. */
  lemma EndsWithIff(e: Edge, b: CollAddr)
    ensures e.EndsWithCollection(b) <==> exists a :: e.Spans(a, b)
  {
    if e.EndsWithCollection(b) { assert e.Spans(e.f1.coll, b) || e.Spans(e.f2.coll, b); }
  }

  lemma CompletedFromOneMore(edges: set<Edge>, n: CollAddr, before: set<CollAddr>, f: CollAddr,
                             was: set<Edge>, now: set<Edge>)
    requires was == Completed(edges, n, before)
    requires forall e :: e in now <==> e in edges && e !in was && e.Spans(f, n)
    ensures Completed(edges, n, before + {f}) == was + now
  {
  }

  lemma {:induction false} ConsumedByConsumed(trace: seq<Run>, a: CollAddr)
    ensures ConsumedBy(trace, a) <= Consumed(trace)
    decreases |trace|
  {
    if trace != [] {
      ConsumedByConsumed(Front(trace), a);
      Extend(Front(trace), Last(trace));
      assert trace == Front(trace) + [Last(trace)];
    }
  }

  /** One more execution adds its own entries, each once. */
  lemma LinksGrow(trace: seq<Run>, r: Run, a: CollAddr)
    requires r.inputs !! Consumed(trace)
    ensures a == r.node ==>
              multiset(InLinks(trace + [r], a)) == multiset(InLinks(trace, a)) + multiset(LinksInto(r.inputs, a))
    ensures a != r.node ==> InLinks(trace + [r], a) == InLinks(trace, a)
  {
    assert Front(trace + [r]) == trace;
    ConsumedByConsumed(trace, a);
    if a == r.node { MoreLinks(ConsumedBy(trace, a), r.inputs, a); }
  }

  /** The edges into `a` that the executions of `trace` have linked. */
  ghost function IncomingOf(trace: seq<Run>, a: CollAddr): set<Edge> {
    set l | l in InLinks(trace, a) :: AsEdge(l)
  }

  /** Those already linked when `a` was last about to run. */
  ghost function SeenBy(trace: seq<Run>, a: CollAddr): set<Edge> {
    if trace == [] then {}
    else if Last(trace).node == a then IncomingOf(Front(trace), a)
    else SeenBy(Front(trace), a)
  }

  lemma {:induction false} SeenIsIncoming(trace: seq<Run>, a: CollAddr)
    ensures SeenBy(trace, a) <= IncomingOf(trace, a)
    decreases |trace|
  {
    if trace != [] {
      SeenIsIncoming(Front(trace), a);
      assert ConsumedBy(Front(trace), a) <= ConsumedBy(trace, a);
      assert InLinks(Front(trace), a) <= InLinks(trace, a);
    }
  }

  lemma IncomingFromBag(parents: seq<Link>, were: seq<Link>, added: set<Link>)
    requires multiset(parents) == multiset(were) + multiset(added)
    ensures EdgesOf(parents) == EdgesOf(were) + set l | l in added :: AsEdge(l)
  {
    forall l ensures l in parents <==> l in were || l in added {
      assert l in parents <==> l in multiset(parents);
      assert l in were <==> l in multiset(were);
    }
  }

  // ----- What a traversal makes of its nodes

  /** A node's parents and mark at some moment. */
  datatype Mark = Mark(parents: seq<Link>, isTerminal: bool) {
    /** What the executions of `trace` make of those of the node `a`. */
    ghost predicate Become(now: Mark, a: CollAddr, trace: seq<Run>, terminal: set<CollAddr>) {
      && multiset(now.parents) == multiset(parents) + multiset(InLinks(trace, a))
      && now.isTerminal == (isTerminal || a in terminal)
    }
  }

  function MarkOf(n: TraversalNode): Mark
    reads n
  {
    Mark(n.parents, n.isTerminal)
  }

  lemma BecomeOneMore(start: Mark, was: Mark, now: Mark, a: CollAddr, trace: seq<Run>, r: Run,
                      terminal: set<CollAddr>, terminal': set<CollAddr>)
    requires start.Become(was, a, trace, terminal) && r.inputs !! Consumed(trace)
    requires if a == r.node then multiset(now.parents) == multiset(was.parents) + multiset(LinksInto(r.inputs, a))
             else now.parents == was.parents
    requires now.isTerminal == (was.isTerminal || (a == r.node && a in terminal'))
    requires terminal <= terminal' <= terminal + {r.node}
    ensures start.Become(now, a, trace + [r], terminal')
  {
    LinksGrow(trace, r, a);
  }

  /** `env` holds what each executed node's incoming edges were when it was last called back. */
  ghost predicate Recorded(env: map<CollAddr, set<Edge>>, start: map<CollAddr, Mark>, s: State) {
    && env.Keys == s.finished - {ROOT}
    && env.Keys <= start.Keys
    && forall a :: a in env ==> env[a] == EdgesOf(start[a].parents) + SeenBy(s.trace, a)
  }

  /** The marks are those one pass `s` over fresh nodes leaves. */
  ghost predicate SameAs(start: map<CollAddr, Mark>, s: State) {
    forall a :: a in start ==>
      EdgesOf(start[a].parents) == IncomingOf(s.trace, a) && start[a].isTerminal == (a in s.terminal)
  }

  lemma TasksSeeAll(env: map<CollAddr, set<Edge>>, start: map<CollAddr, Mark>, s: State)
    requires Recorded(env, start, s) && SameAs(start, s)
    ensures forall a :: a in env ==> env[a] == IncomingOf(s.trace, a)
  {
    forall a | a in env ensures env[a] == IncomingOf(s.trace, a) {
      SeenIsIncoming(s.trace, a);
    }
  }

  lemma RecordOne(env: map<CollAddr, set<Edge>>, start: map<CollAddr, Mark>, s: State, order: PushOrder, i: nat,
                  seen: set<Edge>)
    requires i < |s.queue| && Recorded(env, start, s) && s.queue[i] in start
    requires seen == EdgesOf(start[s.queue[i]].parents) + IncomingOf(s.trace, s.queue[i])
    ensures Recorded(if s.queue[i] == ROOT then env else env[s.queue[i] := seen], start, RunNode(order, s, i))
  {
    assert Front(RunNode(order, s, i).trace) == s.trace;
  }

  /** What one turn of the loop may rely on. */
  ghost predicate Ready(c: Config, s: State) {
    var i := FirstRunnable(c, s.queue, s.remaining);
    && (i < |s.queue| ==>
          && s.queue[i] in c.nodes + {ROOT}
          && Completed(s.edges, s.queue[i], s.finished) !! Consumed(s.trace))
    && forall e :: e in s.edges ==> e.f1.coll != e.f2.coll
  }

  lemma IsReady(c: Config, order: PushOrder, s: State, k: nat)
    requires c.WellFormed() && IsPushOrder(order) && s == After(c, order, k)
    ensures Ready(c, s)
  {
    AfterNext(c, order, 0);
    if k == 0 {
      assert Consumed([]) == {};
    } else {
      ExplainsAlways(c, order, k);
      var i := FirstRunnable(c, s.queue, s.remaining);
      if i < |s.queue| { RunCompletesAnEdge(c, s, i); }
    }
  }

  lemma Progress(c: Config, order: PushOrder, s: State, t: State, k: nat)
    requires c.WellFormed() && IsPushOrder(order) && s == After(c, order, k)
    requires t == Advance(c, order)(s)
    ensures t == After(c, order, k + 1)
    ensures Halted(c, s) ==> t == s
    ensures !Halted(c, s) ==> |t.trace| == |s.trace| + 1 && (k > 0 ==> |t.edges| < |s.edges|)
  {
    AfterNext(c, order, k);
    if k > 0 && !Halted(c, s) {
      ExplainsAlways(c, order, k);
      var i := FirstRunnable(c, s.queue, s.remaining);
      RunCompletesAnEdge(c, s, i);
      SubsetCard(s.edges - Completed(s.edges, s.queue[i], s.finished), s.edges);
    }
  }

  class Traversal {
    const config: Config
    /** The traversal nodes by address, the artificial root among them. */
    const nodes: map<CollAddr, TraversalNode>
    ghost const owned: set<TraversalNode>

    /** How the verification pass of the constructor ended. */
    var outcome: Outcome

    ghost predicate Valid() {
      && config.WellFormed()
      && nodes.Keys == config.nodes + {ROOT}
      && (forall a :: a in nodes ==> nodes[a].address == a && nodes[a] in owned)
      && (forall n :: n in owned ==> n.address in nodes && nodes[n.address] == n)
    }

    /** An entry stands in a parent list as often as in the matching child list, so
        either kind of list determines the other. */
    ghost predicate Mirrored()
      reads owned
    {
      && (forall n :: n in owned ==> OwnEntries(n))
      && (forall n, m :: n in owned && m in owned ==> SameEntries(n, m))
    }

    /** One node without links for every address. */
    static method MakeNodes(addresses: set<CollAddr>)
      returns (dict: map<CollAddr, TraversalNode>, ghost made: set<TraversalNode>)
      ensures dict.Keys == addresses && fresh(made)
      ensures forall a :: a in dict ==> dict[a] in made && dict[a].address == a
      ensures forall n :: n in made ==> n.address in dict && dict[n.address] == n && Blank(n)
    {
      dict, made := map[], {};
      var todo := addresses;
      while todo != {}
        invariant todo <= addresses && dict.Keys == addresses - todo && fresh(made)
        invariant forall a :: a in dict ==> dict[a] in made && dict[a].address == a
        invariant forall n :: n in made ==> n.address in dict && dict[n.address] == n && Blank(n)
      {
        var a :| a in todo;
        var n := new TraversalNode(a);
        todo, dict, made := todo - {a}, dict[a := n], made + {n};
      }
    }

    /** Fresh nodes for every collection and the root, then the traversal that verifies
        the graph. */
    constructor (config: Config, order: PushOrder)
      requires config.WellFormed() && IsPushOrder(order)
      ensures this.config == config && Valid() && Mirrored() && fresh(owned)
      ensures outcome == OutcomeOf(Pass(config, order)) && Verified(order)
    {
      var dict;
      ghost var made;
      dict, made := MakeNodes(config.nodes + {ROOT});
      this.config, this.nodes, this.owned := config, dict, made;
      outcome := Succeeded;
      new;
      outcome := Verify(order);
    }

    method Verify(order: PushOrder) returns (outcome: Outcome)
      requires Valid() && IsPushOrder(order) && forall n :: n in owned ==> Blank(n)
      modifies owned
      ensures Mirrored() && Verified(order) && outcome == OutcomeOf(Pass(config, order))
    {
      ghost var start := Marks();
      var ends, env;
      outcome, ends, env := Traverse(order);
      NowVerified(order, start);
    }

    /** Deletes the edges leading from one address to another. */
    static method DeleteEdges(edges: set<Edge>, from: CollAddr, to: CollAddr)
      returns (deleted: set<Edge>, left: set<Edge>)
      ensures forall e :: e in deleted <==> e in edges && e.Spans(from, to)
      ensures left == edges - deleted
    {
      deleted := set e | e in edges && e.Spans(from, to);
      left := edges - deleted;
    }

    /** Makes `n` a child of `f` along one edge. */
    method LinkEdge(f: TraversalNode, n: TraversalNode, e: Edge)
      requires Valid() && Mirrored() && f in owned && n in owned
      requires e.Spans(f.address, n.address) && e.f1.coll != e.f2.coll
      modifies f`children, n`parents
      ensures multiset(n.parents) == old(multiset(n.parents)) + multiset{LinkInto(e, n.address)}
      ensures Mirrored()
    {
      EndsAndLeads(e, f.address, n.address);
      if e.EndsWithCollection(n.address) {
        f.AddChild(n, e);
      }
      forall x, y | x in owned && y in owned ensures SameEntries(x, y) {
        assert old(SameEntries(x, y));
        assert x != f ==> x.address != f.address && x.children == old(x.children);
        assert y != n ==> y.address != n.address && y.parents == old(y.parents);
      }
      forall x | x in owned ensures OwnEntries(x) {
        assert old(OwnEntries(x));
      }
    }

    /** Makes `n` a child of the finished node `f` along each of the edges `done`. */
    method LinkEdges(f: TraversalNode, n: TraversalNode, done: set<Edge>)
      requires Valid() && Mirrored() && f in owned && n in owned
      requires forall e: Edge :: e in done ==> e.Spans(f.address, n.address) && e.f1.coll != e.f2.coll
      modifies f`children, n`parents
      ensures multiset(n.parents) == old(multiset(n.parents)) + multiset(LinksInto(done, n.address))
      ensures Mirrored()
    {
      var todo := done;
      ghost var linked := {};
      while todo != {}
        invariant linked + todo == done && linked !! todo
        invariant multiset(n.parents) == old(multiset(n.parents)) + multiset(LinksInto(linked, n.address))
        invariant Mirrored()
        decreases |todo|
      {
        var e: Edge :| e in todo;
        LinkEdge(f, n, e);
        OneMoreLink(linked, e, n.address);
        MoveOne(linked, todo, e);
        todo, linked := todo - {e}, linked + {e};
      }
      assert linked == done;
    }

    /** Completes the edges into `n` from every finished node. */
    method LinkInputs(n: TraversalNode, finished: seq<CollAddr>, edges: set<Edge>) returns (left: set<Edge>)
      requires Valid() && Mirrored() && n in owned && NoDuplicates(finished)
      requires forall f :: f in finished ==> f in nodes
      requires forall e :: e in edges ==> e.f1.coll != e.f2.coll
      modifies owned`children, n`parents
      ensures Mirrored()
      ensures left == edges - Completed(edges, n.address, Elems(finished))
      ensures multiset(n.parents)
           == old(multiset(n.parents)) + multiset(LinksInto(Completed(edges, n.address, Elems(finished)), n.address))
    {
      left := edges;
      var i := 0;
      ghost var was := {};
      while i < |finished|
        invariant 0 <= i <= |finished|
        invariant was == Completed(edges, n.address, Elems(finished[..i]))
        invariant left == edges - was
        invariant multiset(n.parents) == old(multiset(n.parents)) + multiset(LinksInto(was, n.address))
        invariant Mirrored()
      {
        var done;
        done, left := DeleteEdges(left, finished[i], n.address);
        LinkEdges(nodes[finished[i]], n, done);
        ElemsNext(finished, i);
        CompletedFromOneMore(edges, n.address, Elems(finished[..i]), finished[i], was, done);
        MoreLinks(was, done, n.address);
        was := was + done;
        i := i + 1;
      }
      assert finished[..i] == finished;
    }

    static method PushChildren(queue: MatchingQueue<CollAddr>, xs: seq<CollAddr>)
      modifies queue
      ensures queue.data == PushAll(old(queue.data), xs)
    {
      var i := 0;
      while i < |xs|
        invariant 0 <= i <= |xs|
        invariant PushAll(queue.data, xs[i..]) == PushAll(old(queue.data), xs)
      {
        queue.PushIfNew(xs[i]);
        i := i + 1;
      }
    }

    /** Runs one node: links its inputs, marks it terminal when nothing leads on from
        it, and queues its children. */
    method RunOne(n: TraversalNode, k: nat, order: PushOrder, queue: MatchingQueue<CollAddr>,
                  finished: seq<CollAddr>, edges: set<Edge>) returns (left: set<Edge>)
      requires Valid() && Mirrored() && n in owned && NoDuplicates(finished)
      requires forall f :: f in finished ==> f in nodes
      requires forall e :: e in edges ==> e.f1.coll != e.f2.coll
      modifies owned`children, n`parents, n`isTerminal, queue
      ensures Mirrored()
      ensures left == edges - Completed(edges, n.address, Elems(finished))
      ensures queue.data == PushAll(old(queue.data), order(k, Children(left, n.address)))
      ensures n.isTerminal == (old(n.isTerminal) || Children(left, n.address) == {})
      ensures multiset(n.parents)
           == old(multiset(n.parents)) + multiset(LinksInto(Completed(edges, n.address, Elems(finished)), n.address))
    {
      left := LinkInputs(n, finished, edges);
      var children := Children(left, n.address);
      if children == {} {
        MarkTerminal(n);
      }
      PushChildren(queue, order(k, children));
    }

    method MarkTerminal(n: TraversalNode)
      requires Mirrored() && n in owned
      modifies n`isTerminal
      ensures n.isTerminal && Mirrored()
    {
      n.isTerminal := true;
      forall x, y | x in owned && y in owned ensures OwnEntries(x) && SameEntries(x, y) {
        assert old(OwnEntries(x)) && old(SameEntries(x, y));
      }
    }

    ghost function Marks(): map<CollAddr, Mark>
      requires Valid()
      reads owned
    {
      map a | a in nodes :: MarkOf(nodes[a])
    }

    /** The parents and marks are what the traversal `s` makes of those at the start. */
    ghost predicate Follows(start: map<CollAddr, Mark>, s: State)
      requires Valid()
      reads owned
    {
      && start.Keys == nodes.Keys
      && forall a :: a in nodes ==> start[a].Become(MarkOf(nodes[a]), a, s.trace, s.terminal)
    }

    /** The loop's variables stand for the machine's state `s`. */
    ghost predicate InStep(s: State, data: seq<CollAddr>, finished: seq<CollAddr>,
                           remaining: set<CollAddr>, edges: set<Edge>)
    {
      && s.queue == data && s.remaining == remaining && s.edges == edges
      && NoDuplicates(finished) && Elems(finished) == s.finished
      && forall f :: f in finished ==> f in nodes
    }

    /** Runs the node that was at index `i` of the queue. */
    method RunNext(n: TraversalNode, order: PushOrder, queue: MatchingQueue<CollAddr>,
                   finished: seq<CollAddr>, edges: set<Edge>, k: nat,
                   ghost s: State, ghost i: nat, ghost start: map<CollAddr, Mark>)
      returns (left: set<Edge>)
      requires Valid() && Mirrored() && n in owned && k == |s.trace|
      requires i < |s.queue| && s.queue[i] == n.address && queue.data == s.queue[..i] + s.queue[i+1..]
      requires InStep(s, s.queue, finished, s.remaining, edges)
      requires forall e :: e in edges ==> e.f1.coll != e.f2.coll
      requires Completed(s.edges, n.address, s.finished) !! Consumed(s.trace)
      requires Follows(start, s)
      modifies owned, queue
      ensures Mirrored()
      ensures queue.data == RunNode(order, s, i).queue && left == RunNode(order, s, i).edges
      ensures Follows(start, RunNode(order, s, i))
    {
      ghost var r := Run(n.address, Completed(s.edges, n.address, s.finished));
      label before:
      left := RunOne(n, k, order, queue, finished, edges);
      ghost var t := RunNode(order, s, i);
      forall a | a in nodes ensures start[a].Become(MarkOf(nodes[a]), a, t.trace, t.terminal) {
        BecomeOneMore(start[a], old@before(MarkOf(nodes[a])), MarkOf(nodes[a]), a, s.trace, r,
                      s.terminal, t.terminal);
      }
    }

    /** The callback: tasks are built for every node but the root. */
    method Record(n: TraversalNode, env: map<CollAddr, set<Edge>>, ghost s: State, ghost start: map<CollAddr, Mark>)
      returns (env': map<CollAddr, set<Edge>>)
      requires Valid() && n in owned && Follows(start, s)
      ensures n.address in start
      ensures n.IncomingEdges() == EdgesOf(start[n.address].parents) + IncomingOf(s.trace, n.address)
      ensures env' == if n.address == ROOT then env else env[n.address := n.IncomingEdges()]
    {
      assert start[n.address].Become(MarkOf(n), n.address, s.trace, s.terminal);
      IncomingFromBag(n.parents, start[n.address].parents, InLinks(s.trace, n.address));
      env' := if n.address == ROOT then env else env[n.address := n.IncomingEdges()];
    }

    /** Calls back for the node that was at index `i` of the queue, then runs it. */
    method Turn(n: TraversalNode, order: PushOrder, k: nat, queue: MatchingQueue<CollAddr>,
                finished: seq<CollAddr>, remaining: set<CollAddr>, edges: set<Edge>,
                env: map<CollAddr, set<Edge>>, ghost s: State, ghost i: nat, ghost start: map<CollAddr, Mark>)
      returns (finished': seq<CollAddr>, remaining': set<CollAddr>, edges': set<Edge>,
               env': map<CollAddr, set<Edge>>)
      requires Valid() && Mirrored() && n in owned && k == |s.trace|
      requires i < |s.queue| && s.queue[i] == n.address && queue.data == s.queue[..i] + s.queue[i+1..]
      requires InStep(s, s.queue, finished, remaining, edges)
      requires forall e :: e in edges ==> e.f1.coll != e.f2.coll
      requires Completed(s.edges, n.address, s.finished) !! Consumed(s.trace)
      requires Follows(start, s) && Recorded(env, start, s)
      modifies owned, queue
      ensures Mirrored()
      ensures InStep(RunNode(order, s, i), queue.data, finished', remaining', edges')
      ensures Follows(start, RunNode(order, s, i))
      ensures Recorded(env', start, RunNode(order, s, i))
    {
      env' := Record(n, env, s, start);
      RecordOne(env, start, s, order, i, n.IncomingEdges());
      edges' := RunNext(n, order, queue, finished, edges, k, s, i, start);
      PushedIfNewElems(finished, n.address);
      finished' := PushedIfNew(finished, n.address);
      remaining' := remaining - {n.address};
    }

    /** Takes the first node that may run off the queue; no other object changes. */
    method PopRunnable(queue: MatchingQueue<CollAddr>, remaining: set<CollAddr>,
                       ghost s: State, ghost start: map<CollAddr, Mark>)
      returns (popped: Option<CollAddr>)
      requires Valid() && Mirrored() && Follows(start, s)
      requires queue.data == s.queue && remaining == s.remaining
      modifies queue
      ensures Mirrored() && Follows(start, s)
      ensures popped == None <==> Halted(config, s)
      ensures popped == None ==> queue.data == s.queue
      ensures popped != None ==>
                var i := FirstRunnable(config, s.queue, s.remaining);
                i < |s.queue| && popped.value == s.queue[i] && queue.data == s.queue[..i] + s.queue[i+1..]
    {
      popped := queue.PopFirstMatch(Runnable(config, remaining));
    }

    /** Takes the first node that may run off the queue and runs it. */
    method RunFirst(order: PushOrder, k: nat, queue: MatchingQueue<CollAddr>,
                    finished: seq<CollAddr>, remaining: set<CollAddr>, edges: set<Edge>,
                    env: map<CollAddr, set<Edge>>, ghost s: State, ghost start: map<CollAddr, Mark>)
      returns (ran: bool, finished': seq<CollAddr>, remaining': set<CollAddr>, edges': set<Edge>,
               env': map<CollAddr, set<Edge>>, ghost t: State)
      requires Valid() && Mirrored() && k == |s.trace| && Ready(config, s)
      requires InStep(s, queue.data, finished, remaining, edges)
      requires Follows(start, s) && Recorded(env, start, s)
      modifies owned, queue
      ensures Mirrored()
      ensures t == Advance(config, order)(s) && (ran <==> !Halted(config, s))
      ensures InStep(t, queue.data, finished', remaining', edges')
      ensures Follows(start, t) && Recorded(env', start, t)
    {
      t := Advance(config, order)(s);
      finished', remaining', edges', env' := finished, remaining, edges, env;
      var popped := PopRunnable(queue, remaining, s, start);
      ran := popped != None;
      if ran {
        finished', remaining', edges', env' :=
          Turn(nodes[popped.value], order, k, queue, finished, remaining, edges, env,
               s, FirstRunnable(config, s.queue, s.remaining), start);
      }
    }

    /** The machine has come to state `s` by running `k` nodes, unless it has halted;
        and the loop's variables say the same. */
    ghost predicate At(order: PushOrder, k: nat, s: State, ran: bool, data: seq<CollAddr>,
                       finished: seq<CollAddr>, remaining: set<CollAddr>, edges: set<Edge>)
    {
      && s == After(config, order, |s.trace|)
      && (if ran then |s.trace| == k else Halted(config, s))
      && InStep(s, data, finished, remaining, edges)
    }

    lemma AtStart(order: PushOrder)
      ensures At(order, 0, Init(config), true, [ROOT], [], config.nodes, config.edges)
    {
      AfterNext(config, order, 0);
    }

    lemma AtEnd(order: PushOrder, k: nat, s: State, ran: bool, data: seq<CollAddr>,
                finished: seq<CollAddr>, remaining: set<CollAddr>, edges: set<Edge>)
      requires Valid() && IsPushOrder(order) && At(order, k, s, ran, data, finished, remaining, edges)
      requires !ran || data == []
      ensures s == Pass(config, order)
    {
      HaltedIsPass(config, order, |s.trace|);
    }

    /** One turn of the loop. */
    method NextTurn(order: PushOrder, k: nat, queue: MatchingQueue<CollAddr>,
                    finished: seq<CollAddr>, remaining: set<CollAddr>, edges: set<Edge>,
                    env: map<CollAddr, set<Edge>>, ghost s: State, ghost start: map<CollAddr, Mark>)
      returns (ran: bool, finished': seq<CollAddr>, remaining': set<CollAddr>, edges': set<Edge>,
               env': map<CollAddr, set<Edge>>, ghost t: State)
      requires Valid() && Mirrored() && IsPushOrder(order)
      requires At(order, k, s, true, queue.data, finished, remaining, edges)
      requires Follows(start, s) && Recorded(env, start, s)
      modifies owned, queue
      ensures Mirrored()
      ensures At(order, k + 1, t, ran, queue.data, finished', remaining', edges')
      ensures ran && k > 0 ==> |edges'| < |edges|
      ensures Follows(start, t) && Recorded(env', start, t)
    {
      IsReady(config, order, s, k);
      ran, finished', remaining', edges', env', t :=
        RunFirst(order, k, queue, finished, remaining, edges, env, s, start);
      Progress(config, order, s, t, k);
      assert ran ==> |t.trace| == k + 1;
    }

    lemma StartFollows()
      requires Valid()
      ensures Follows(Marks(), Init(config)) && Recorded(map[], Marks(), Init(config))
    {
      assert forall a :: InLinks([], a) == {};
    }

    /** The loop of the traversal, from the root to the state in which it stops. */
    method RunAll(order: PushOrder, queue: MatchingQueue<CollAddr>, ghost start: map<CollAddr, Mark>)
      returns (finished: seq<CollAddr>, remaining: set<CollAddr>, edges: set<Edge>,
               env: map<CollAddr, set<Edge>>, ghost s: State)
      requires Valid() && Mirrored() && IsPushOrder(order) && queue.data == [ROOT]
      requires Follows(start, Init(config)) && Recorded(map[], start, Init(config))
      modifies owned, queue
      ensures Mirrored()
      ensures s == Pass(config, order) && InStep(s, queue.data, finished, remaining, edges)
      ensures Follows(start, s) && Recorded(env, start, s)
    {
      finished, remaining, edges, env := [], config.nodes, config.edges, map[];
      var ran, k := true, 0;
      s := Init(config);
      AtStart(order);
      while ran && queue.data != []
        invariant Recorded(env, start, s)
        invariant At(order, k, s, ran, queue.data, finished, remaining, edges)
        invariant Follows(start, s)
        invariant Mirrored()
        decreases ran, k == 0, |edges|
      {
        ran, finished, remaining, edges, env, s :=
          NextTurn(order, k, queue, finished, remaining, edges, env, s, start);
        k := k + 1;
      }
      AtEnd(order, k, s, ran, queue.data, finished, remaining, edges);
    }

    method EndNodes(finished: seq<CollAddr>) returns (ends: seq<CollAddr>)
      requires NoDuplicates(finished) && forall f :: f in finished ==> f in nodes
      ensures NoDuplicates(ends)
      ensures forall a :: a in ends <==> a in finished && a in nodes && nodes[a].isTerminal
    {
      ends := [];
      for i := 0 to |finished|
        invariant NoDuplicates(ends)
        invariant forall a :: a in ends <==> a in finished[..i] && a in nodes && nodes[a].isTerminal
      {
        assert finished[i] !in finished[..i];
        if nodes[finished[i]].isTerminal {
          ends := ends + [finished[i]];
        }
      }
    }

    /** Traverses the graph, calling back before each node is linked. The callback is
        the one that builds tasks: it records, for every node but the root, the
        incoming edges the node has at that moment. */
    method Traverse(order: PushOrder)
      returns (outcome: Outcome, ends: seq<CollAddr>, env: map<CollAddr, set<Edge>>)
      requires Valid() && Mirrored() && IsPushOrder(order)
      modifies owned
      ensures Mirrored()
      ensures outcome == OutcomeOf(Pass(config, order))
      ensures Follows(old(Marks()), Pass(config, order))
      ensures Recorded(env, old(Marks()), Pass(config, order))
      ensures outcome == Succeeded ==>
                && NoDuplicates(ends)
                && forall a :: a in ends <==> a in nodes && nodes[a].isTerminal && a in Pass(config, order).finished
    {
      var queue := new MatchingQueue([ROOT]);
      var finished, remaining, edges;
      ghost var s;
      StartFollows();
      finished, remaining, edges, env, s := RunAll(order, queue, Marks());
      ends := [];
      if queue.data != [] {
        outcome := OrderingUnreachable;
      } else if remaining != {} {
        outcome := NodesUnreachable;
      } else if edges != {} {
        outcome := EdgesUnreachable;
      } else {
        outcome := Succeeded;
        ends := EndNodes(finished);
      }
    }
  
    /** The state a successful verification pass leaves: every node's incoming edges
        and mark are those of one traversal with this push order. */
    ghost predicate Verified(order: PushOrder)
      requires Valid()
      reads owned
    {
      forall a :: a in nodes ==>
        && nodes[a].IncomingEdges() == IncomingOf(Pass(config, order).trace, a)
        && nodes[a].isTerminal == (a in Pass(config, order).terminal)
    }

    /** A pass over fresh nodes, or over nodes a pass with this order has left, leaves
        the state of one such pass. */
    lemma NowVerified(order: PushOrder, start: map<CollAddr, Mark>)
      requires Valid() && Follows(start, Pass(config, order))
      requires (forall a :: a in start ==> start[a] == Mark([], false)) || SameAs(start, Pass(config, order))
      ensures Verified(order)
    {
      var s := Pass(config, order);
      forall a | a in nodes
        ensures nodes[a].IncomingEdges() == IncomingOf(s.trace, a) && nodes[a].isTerminal == (a in s.terminal)
      {
        assert start[a].Become(MarkOf(nodes[a]), a, s.trace, s.terminal);
        IncomingFromBag(nodes[a].parents, start[a].parents, InLinks(s.trace, a));
      }
    }

    /** The pass in which tasks are collected, after one with the same push order
        verified the graph. It changes no node's incoming edges or mark, and every task
        sees all of its node's inputs although the pass links the node only later. */
    method CollectTasks(order: PushOrder)
      returns (outcome: Outcome, ends: seq<CollAddr>, env: map<CollAddr, set<Edge>>)
      requires Valid() && Mirrored() && IsPushOrder(order) && Verified(order)
      modifies owned
      ensures Mirrored() && Verified(order)
      ensures outcome == OutcomeOf(Pass(config, order))
      ensures env.Keys == Pass(config, order).finished - {ROOT}
      ensures forall a :: a in env ==> env[a] == IncomingOf(Pass(config, order).trace, a)
      ensures outcome == Succeeded ==>
                && NoDuplicates(ends)
                && forall a :: a in ends <==>
                     a in nodes && a in Pass(config, order).terminal && a in Pass(config, order).finished
    {
      ghost var start := Marks();
      assert SameAs(start, Pass(config, order));
      outcome, ends, env := Traverse(order);
      NowVerified(order, start);
      TasksSeeAll(env, start, Pass(config, order));
    }
  }

  // ----- Dependencies between tasks

  /** `v`'s task reads the result of `u`'s task. */
  ghost predicate DependsOn(env: map<CollAddr, set<Edge>>, v: CollAddr, u: CollAddr) {
    v in env && exists e :: e in env[v] && e.f1.coll == u
  }

  lemma {:induction false} ConsumedByRun(trace: seq<Run>, k: nat)
    requires k < |trace|
    ensures trace[k].inputs <= ConsumedBy(trace, trace[k].node)
    decreases |trace|
  {
    if k < |trace| - 1 { ConsumedByRun(Front(trace), k); }
  }

  /** `e` is the edge `f`, followed in one of the ways it can be, into `a`. */
  ghost predicate IsInput(f: Edge, e: Edge, a: CollAddr) {
    && !e.bidi && e.f2.coll == a
    && ((e.f1, e.f2) == (f.f1, f.f2) || (f.bidi && (e.f1, e.f2) == (f.f2, f.f1)))
  }

  /** A node's inputs, field by field, are the edges its own runs completed, followed into it. */
  lemma InputsExact(c: Config, s: State, a: CollAddr, e: Edge)
    requires c.WellFormed() && Final(c, s) && a != ROOT
    ensures e in IncomingOf(s.trace, a) <==> exists f :: f in ConsumedBy(s.trace, a) && IsInput(f, e, a)
  {
    ConsumedByNode(c, s.trace, a);
    forall f | f in ConsumedBy(s.trace, a) ensures IsInput(f, e, a) <==> e == AsEdge(LinkInto(f, a)) {
      assert f in EdgesInto(c, a) && WellFormedEdge(f, c.nodes);
    }
    if f :| f in ConsumedBy(s.trace, a) && IsInput(f, e, a) { assert LinkInto(f, a) in InLinks(s.trace, a); }
  }

  /** In a successful traversal every edge is an input of one of its ends. */
  lemma EveryEdgeIsInput(c: Config, s: State, f: Edge) returns (a: CollAddr, e: Edge)
    requires c.WellFormed() && Final(c, s) && OutcomeOf(s) == Succeeded && f in c.edges
    ensures a in c.nodes && IsInput(f, e, a) && e in IncomingOf(s.trace, a)
  {
    var k := EveryEdgeLinkedOnce(c, s, f);
    a := s.trace[k].node;
    RunAt(c, s.trace, k);
    ConsumedByRun(s.trace, k);
    assert WellFormedEdge(f, c.nodes);
    e := if f.f2.coll == a then Edge(f.f1, f.f2, false) else Edge(f.f2, f.f1, false);
    InputsExact(c, s, a, e);
  }

  lemma LinkIsDependency(c: Config, s: State, env: map<CollAddr, set<Edge>>, u: CollAddr, v: CollAddr)
    requires c.WellFormed() && Final(c, s) && Linked(s.trace, u, v)
    requires env.Keys == s.finished - {ROOT}
    requires forall a :: a in env ==> env[a] == IncomingOf(s.trace, a)
    ensures DependsOn(env, v, u)
  {
    var k: nat :| LinkAt(s.trace, k, u) && s.trace[k].node == v;
    var e :| e in s.trace[k].inputs && e.Other(v) == u;
    if k == 0 { GoodPrefix(c, s.trace, 1); } else { RunAt(c, s.trace, k); }
    assert s.trace[k] in s.trace;
    ConsumedByRun(s.trace, k);
    assert LinkInto(e, v) in InLinks(s.trace, v);
    assert AsEdge(LinkInto(e, v)) in env[v];
  }

  /** The terminator task, which reads the end nodes only, depends through them on
      every collection's task: each has a chain of tasks up to an end node. */
  lemma TerminatorWaitsForAll(c: Config, s: State, env: map<CollAddr, set<Edge>>, n: CollAddr)
    returns (p: seq<CollAddr>)
    requires c.WellFormed() && Ended(c, s) && OutcomeOf(s) == Succeeded && n in c.nodes
    requires env.Keys == s.finished - {ROOT}
    requires forall a :: a in env ==> env[a] == IncomingOf(s.trace, a)
    ensures p != [] && p[0] == n && Last(p) in s.terminal * s.finished
    ensures forall i :: 0 <= i < |p| - 1 ==> DependsOn(env, p[i+1], p[i])
  {
    p := ReachesAnEndNode(c, s, n);
    forall i | 0 <= i < |p| - 1 ensures DependsOn(env, p[i+1], p[i]) {
      assert Linked(s.trace, p[i], p[i+1]);
      LinkIsDependency(c, s, env, p[i], p[i+1]);
    }
    if |p| > 1 { assert DependsOn(env, p[|p|-2+1], p[|p|-2]); }
  }
}
