/** The graph of collections: addresses, edges and what it means for an edge to
    lead from one collection to another. */
module Graph {
  import opened Common

  datatype CollAddr = CollAddr(dataset: string, collection: string)

  datatype FieldAddr = FieldAddr(coll: CollAddr, path: seq<string>)

  /** The artificial collection the seed data comes from. */
  const ROOT := CollAddr("__ROOT__", "__ROOT__")

  /** A directed edge runs from `f1` to `f2`; a bidirectional one runs either way. */
  datatype Edge = Edge(f1: FieldAddr, f2: FieldAddr, bidi: bool) {

    predicate Contains(a: CollAddr) {
      f1.coll == a || f2.coll == a
    }

    predicate Spans(a: CollAddr, b: CollAddr) {
      || (f1.coll == a && f2.coll == b)
      || (bidi && f1.coll == b && f2.coll == a)
    }

    /** The two ends as (end in `a`, opposite end), if the edge leads away from `a`. */
    function SplitByAddress(a: CollAddr): Option<(FieldAddr, FieldAddr)> {
      if f1.coll == a then Some((f1, f2))
      else if bidi && f2.coll == a then Some((f2, f1))
      else None
    }

    predicate EndsWithCollection(a: CollAddr) {
      if bidi then Contains(a) else f2.coll == a
    }

    predicate LeadsFrom(a: CollAddr) {
      SplitByAddress(a).Some?
    }

    /** The collection at the opposite end from `a`. */
    function Other(a: CollAddr): CollAddr {
      if f1.coll == a then f2.coll else f1.coll
    }

    /** The edge can be followed into `a` from some collection of `from`. */
    predicate LeadsInto(a: CollAddr, from: set<CollAddr>) {
      || (f2.coll == a && f1.coll in from)
      || (bidi && f1.coll == a && f2.coll in from)
    }
  }

  /** What a traversal is given: the collections, the references and seed edges
      between them, and the "run after" constraints. */
  datatype Config = Config(
    nodes: set<CollAddr>,
    edges: set<Edge>,
    after: CollAddr -> set<CollAddr>,
    datasetAfter: CollAddr -> set<string>)
  {
    ghost predicate WellFormed() {
      && ROOT !in nodes
      && forall e :: e in edges ==> WellFormedEdge(e, nodes)
    }

    /** No collection this one must run after is still waiting. The artificial root
        has no constraints. */
    predicate CanRun(n: CollAddr, waiting: set<CollAddr>) {
      n == ROOT ||
      (&& after(n) * waiting == {}
       && datasetAfter(n) * (set k | k in waiting :: k.dataset) == {})
    }
  }

  /** Edges join two different collections; only seed edges touch the root, and
      those leave it. */
  predicate WellFormedEdge(e: Edge, nodes: set<CollAddr>) {
    && e.f1.coll != e.f2.coll
    && e.f2.coll in nodes
    && (e.f1.coll in nodes || (e.f1.coll == ROOT && !e.bidi))
  }
}
