/** Building the graph from the references the collections declare, and adding the edges
    along which the seed data flows. */
module DatasetGraphs {
  import opened Common
  import opened Graph
  import opened SchedulerLinks

  datatype Direction = From | To

  /** One field of a collection refers to a field elsewhere. */
  datatype Reference = Reference(path: seq<string>, dest: FieldAddr, direction: Option<Direction>)

  /** The comparison of field addresses, by which the ends of undirected edges are put in order. */
  type Less = (FieldAddr, FieldAddr) -> bool

  ghost predicate IsOrder(less: Less) {
    forall a, b :: a == b || (less(a, b) <==> !less(b, a))
  }

  /** No edge joins a collection to itself. */
  function CreateEdge(less: Less, a: FieldAddr, b: FieldAddr, direction: Option<Direction>): Option<Edge> {
    if a.coll == b.coll then None
    else Some(match direction
      case Some(From) => Edge(b, a, false)
      case Some(To) => Edge(a, b, false)
      case None => if less(b, a) then Edge(b, a, true) else Edge(a, b, true))
  }

  function Flip(d: Option<Direction>): Option<Direction> {
    match d case Some(From) => Some(To) case Some(To) => Some(From) case None => None
  }

  /** Two declarations make the same edge just when they say the same thing, from the same
      end or from opposite ones. */
  lemma SameEdge(less: Less, a: FieldAddr, b: FieldAddr, d: Option<Direction>,
                 a': FieldAddr, b': FieldAddr, d': Option<Direction>)
    requires IsOrder(less) && a.coll != b.coll && a'.coll != b'.coll
    ensures CreateEdge(less, a, b, d) == CreateEdge(less, a', b', d')
        <==> (a', b', d') == (a, b, d) || (a', b', d') == (b, a, Flip(d))
  {
    assert less(a, b) <==> !less(b, a);
  }

  function SourceOf(a: CollAddr, r: Reference): FieldAddr { FieldAddr(a, r.path) }

  function EdgeOf(less: Less, a: CollAddr, r: Reference): Option<Edge> {
    CreateEdge(less, SourceOf(a, r), r.dest, r.direction)
  }

  /** The edge joins the field and the one it refers to, and can be followed as declared:
      away from the field unless the direction is "from", towards it unless it is "to". */
  ghost predicate IsEdgeFor(e: Edge, a: CollAddr, r: Reference) {
    && {e.f1, e.f2} == {FieldAddr(a, r.path), r.dest}
    && (e.Spans(a, r.dest.coll) <==> r.direction != Some(From))
    && (e.Spans(r.dest.coll, a) <==> r.direction != Some(To))
  }

  lemma CreatedAsDeclared(less: Less, a: CollAddr, r: Reference)
    requires r.dest.coll != a
    ensures EdgeOf(less, a, r).Some? && IsEdgeFor(EdgeOf(less, a, r).value, a, r)
  {
  }

  type References = map<CollAddr, seq<Reference>>

  predicate Declares(refs: References, a: CollAddr, r: Reference) { a in refs && r in refs[a] }

  /** A reference to a collection that does not exist, or to its own collection. */
  predicate Refused(refs: References, a: CollAddr, r: Reference) {
    r.dest.coll !in refs || r.dest.coll == a
  }

  /** The edges of one collection's references; nothing when one of them is refused. */
  method AddReferences(less: Less, refs: References, a: CollAddr, edges: set<Edge>)
      returns (r: Option<set<Edge>>)
    requires a in refs
    ensures r.None? <==> exists x :: x in refs[a] && Refused(refs, a, x)
    ensures r.Some? ==> forall e ::
              e in r.value <==> e in edges || exists x :: x in refs[a] && EdgeOf(less, a, x) == Some(e)
  {
    var out := edges;
    for i := 0 to |refs[a]|
      invariant forall x :: x in refs[a][..i] ==> !Refused(refs, a, x)
      invariant forall e :: e in out <==> e in edges || exists x :: x in refs[a][..i] && EdgeOf(less, a, x) == Some(e)
    {
      var x := refs[a][i];
      assert refs[a][..i+1] == refs[a][..i] + [x];
      assert x in refs[a];
      if x.dest.coll !in refs {
        assert Refused(refs, a, x);
        return None;
      }
      var edge := CreateEdge(less, SourceOf(a, x), x.dest, x.direction);
      if edge.None? {
        assert Refused(refs, a, x);
        return None;
      }
      out := out + {edge.value};
      forall e ensures e in out <==> e in edges || exists y :: y in refs[a][..i+1] && EdgeOf(less, a, y) == Some(e) {
        if e == edge.value { assert x in refs[a][..i+1] && EdgeOf(less, a, x) == Some(e); }
        if y :| y in refs[a][..i] && EdgeOf(less, a, y) == Some(e) { assert y in refs[a][..i+1]; }
      }
    }
    assert refs[a][..|refs[a]|] == refs[a];
    r := Some(out);
  }

  /** The edges are those of the references of `nodes`, none of which is refused. */
  ghost predicate IsGraphOf(less: Less, refs: References, nodes: set<CollAddr>, edges: set<Edge>) {
    && (forall a, r :: a in nodes && Declares(refs, a, r) ==> !Refused(refs, a, r))
    && (forall e :: e in edges <==> exists a, r :: a in nodes && Declares(refs, a, r) && EdgeOf(less, a, r) == Some(e))
  }

  lemma OneMoreNode(less: Less, refs: References, nodes: set<CollAddr>, edges: set<Edge>, a: CollAddr, more: set<Edge>)
    requires IsGraphOf(less, refs, nodes, edges) && a in refs
    requires forall x :: x in refs[a] ==> !Refused(refs, a, x)
    requires forall e :: e in more <==> e in edges || exists x :: x in refs[a] && EdgeOf(less, a, x) == Some(e)
    ensures IsGraphOf(less, refs, nodes + {a}, more)
  {
    forall e
      ensures e in more <==> exists b, r :: b in nodes + {a} && Declares(refs, b, r) && EdgeOf(less, b, r) == Some(e)
    {
      if x :| x in refs[a] && EdgeOf(less, a, x) == Some(e) { assert Declares(refs, a, x); }
    }
  }

  /** The graph holds the edge of every reference and no other; it is refused just when
      some reference is. */
  method BuildEdges(less: Less, refs: References, order: seq<CollAddr>) returns (r: Option<set<Edge>>)
    requires forall a :: a in order <==> a in refs
    ensures r.None? <==> exists a, x :: Declares(refs, a, x) && Refused(refs, a, x)
    ensures r.Some? ==> IsGraph(less, refs, r.value) && AsDeclared(refs, r.value)
  {
    var edges: set<Edge> := {};
    for i := 0 to |order|
      invariant IsGraphOf(less, refs, Elems(order[..i]), edges)
    {
      var a := order[i];
      var more := AddReferences(less, refs, a, edges);
      if more.None? {
        ghost var x :| x in refs[a] && Refused(refs, a, x);
        assert Declares(refs, a, x);
        return None;
      }
      OneMoreNode(less, refs, Elems(order[..i]), edges, a, more.value);
      ElemsNext(order, i);
      edges := more.value;
    }
    assert order[..|order|] == order;
    assert forall a, x :: Declares(refs, a, x) ==> a in Elems(order);
    assert IsGraph(less, refs, edges);
    forall a, x | Declares(refs, a, x) ensures HasEdge(edges, a, x) { DeclaredHasEdge(less, refs, edges, a, x); }
    forall e | e in edges ensures HasReference(refs, e) { EdgeHasReference(less, refs, edges, e); }
    r := Some(edges);
  }

  ghost predicate HasEdge(edges: set<Edge>, a: CollAddr, r: Reference) {
    exists e :: e in edges && IsEdgeFor(e, a, r)
  }

  ghost predicate HasReference(refs: References, e: Edge) {
    exists a, r :: Declares(refs, a, r) && IsEdgeFor(e, a, r)
  }

  /** There is an edge for every reference, and every edge is for one. */
  ghost predicate AsDeclared(refs: References, edges: set<Edge>) {
    && (forall a, r :: Declares(refs, a, r) ==> HasEdge(edges, a, r))
    && (forall e :: e in edges ==> HasReference(refs, e))
  }

  lemma DeclaredHasEdge(less: Less, refs: References, edges: set<Edge>, a: CollAddr, r: Reference)
    requires IsGraph(less, refs, edges) && Declares(refs, a, r)
    ensures HasEdge(edges, a, r)
  {
    assert !Refused(refs, a, r);
    CreatedAsDeclared(less, a, r);
    var e := EdgeOf(less, a, r).value;
    assert e in edges;
  }

  lemma EdgeHasReference(less: Less, refs: References, edges: set<Edge>, e: Edge)
    requires IsGraph(less, refs, edges) && e in edges
    ensures HasReference(refs, e)
  {
    var a, r :| Declares(refs, a, r) && EdgeOf(less, a, r) == Some(e);
    assert !Refused(refs, a, r);
    CreatedAsDeclared(less, a, r);
  }

  /** However often and from whichever ends a reference is declared, it has one edge. */
  lemma OneEdgeEach(less: Less, refs: References, edges: set<Edge>, e: Edge, e': Edge, a: CollAddr, r: Reference)
    requires IsOrder(less) && IsGraph(less, refs, edges) && e in edges && e' in edges && a != r.dest.coll
    requires IsEdgeFor(e, a, r) && IsEdgeFor(e', a, r)
    ensures e == e'
  {
    var b, x :| Declares(refs, b, x) && EdgeOf(less, b, x) == Some(e);
    var b', x' :| Declares(refs, b', x') && EdgeOf(less, b', x') == Some(e');
    var f, g := FieldAddr(a, r.path), r.dest;
    assert e.f1 in {f, g} && e.f2 in {f, g} && e'.f1 in {f, g} && e'.f2 in {f, g};
    assert less(f, g) <==> !less(g, f);
  }

  ghost predicate IsGraph(less: Less, refs: References, edges: set<Edge>) {
    && (forall a, x :: Declares(refs, a, x) ==> !Refused(refs, a, x))
    && (forall e :: e in edges <==> exists a, x :: Declares(refs, a, x) && EdgeOf(less, a, x) == Some(e))
  }

  // ----- Seeds

  /** The edge runs from the root, by the key the identity goes by, to an identity field. */
  predicate IsSeedEdge(e: Edge, identities: map<FieldAddr, string>, given: set<string>) {
    && e.f2 in identities && identities[e.f2] in given && !e.bidi
    && e.f1 == FieldAddr(CollAddr("__ROOT__", "__ROOT__"), [identities[e.f2]])
  }

  function SeedEdge(f: FieldAddr, key: string): Edge { Edge(FieldAddr(ROOT, [key]), f, false) }

  /** An edge from the root into every identity field whose key the request gives. */
  method AddSeeds(edges: set<Edge>, identities: map<FieldAddr, string>, order: seq<FieldAddr>, given: set<string>)
      returns (all: set<Edge>)
    requires forall f :: f in order <==> f in identities
    ensures all == edges + SeedEdges(identities, given)
    ensures forall e :: e in all <==> (e in edges || IsSeedEdge(e, identities, given))
  {
    all := edges;
    for i := 0 to |order|
      invariant all == edges + set f | f in order[..i] && identities[f] in given :: SeedEdge(f, identities[f])
    {
      assert order[..i+1] == order[..i] + [order[i]];
      if identities[order[i]] in given { all := all + {SeedEdge(order[i], identities[order[i]])}; }
    }
  }

  function SeedEdges(identities: map<FieldAddr, string>, given: set<string>): set<Edge> {
    set f | f in identities && identities[f] in given :: SeedEdge(f, identities[f])
  }

  // ----- What a traversal may rely on

  /** Every graph that is built, with any seeds, is one a traversal accepts. */
  lemma BuiltIsWellFormed(less: Less, refs: References, edges: set<Edge>, identities: map<FieldAddr, string>,
                          given: set<string>, after: CollAddr -> set<CollAddr>, datasetAfter: CollAddr -> set<string>)
    requires IsGraph(less, refs, edges) && ROOT !in refs
    requires forall f :: f in identities ==> f.coll in refs
    ensures Config(refs.Keys, edges + SeedEdges(identities, given), after, datasetAfter).WellFormed()
  {
    forall e | e in edges ensures WellFormedEdge(e, refs.Keys) {
      var a, x :| Declares(refs, a, x) && EdgeOf(less, a, x) == Some(e);
      assert !Refused(refs, a, x);
    }
  }

  /** The references are all undirected just when none was declared with a direction. */
  lemma UndirectedIff(less: Less, refs: References, edges: set<Edge>, identities: map<FieldAddr, string>,
                      given: set<string>, after: CollAddr -> set<CollAddr>, datasetAfter: CollAddr -> set<string>)
    requires IsGraph(less, refs, edges) && ROOT !in refs
    ensures Undirected(Config(refs.Keys, edges + SeedEdges(identities, given), after, datasetAfter))
        <==> forall a, x :: Declares(refs, a, x) ==> x.direction == None
  {
    var c := Config(refs.Keys, edges + SeedEdges(identities, given), after, datasetAfter);
    forall a, x | Declares(refs, a, x)
      ensures exists e :: e in edges && EdgeOf(less, a, x) == Some(e) &&
                (e.bidi <==> x.direction == None) && e.f1.coll != ROOT
    {
      assert !Refused(refs, a, x);
      var e := EdgeOf(less, a, x).value;
      assert e in edges;
    }
    if Undirected(c) {
      forall a, x | Declares(refs, a, x) ensures x.direction == None {
        var e :| e in edges && EdgeOf(less, a, x) == Some(e);
        assert e in c.edges;
      }
    }
    forall e | e in edges ensures exists a, x :: Declares(refs, a, x) && (e.bidi <==> x.direction == None) {
      var a, x :| Declares(refs, a, x) && EdgeOf(less, a, x) == Some(e);
      assert e.bidi <==> x.direction == None;
    }
  }
}
