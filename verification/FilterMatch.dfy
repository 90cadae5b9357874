/** The code that filters a row in place, deepest arrays first. */
module FilterMatch {
  import opened Common
  import opened Rows
  import opened RefinePath
  import opened FilterElements
  import opened RefineTheorems

  function ModeOf(deleteElements: bool): Mode {
    if deleteElements then Delete else Replace
  }

  // ----- The paths that match a query

  /** Target paths with the values to match along them. */
  type Query = seq<(seq<string>, Only)>

  function AllMatches(row: Row, query: Query): seq<Path> {
    if query == [] then []
    else
      var n := |query| - 1;
      AllMatches(row, query[..n]) + Matches(row, query[n].0, query[n].1)
  }

  /** The paths of one length, in the order listed. */
  function OfLength(ps: seq<Path>, n: nat): seq<Path> {
    if ps == [] then []
    else OfLength(ps[..|ps|-1], n) + if |ps[|ps|-1]| == n then [ps[|ps|-1]] else []
  }

  ghost predicate ShortestFirst(ps: seq<Path>) {
    forall i, j :: 0 <= i < j < |ps| ==> |ps[i]| <= |ps[j]|
  }

  /** After the last path that is not longer. */
  function Insert(ps: seq<Path>, p: Path): seq<Path> {
    if ps == [] || |ps[|ps|-1]| <= |p| then ps + [p]
    else Insert(ps[..|ps|-1], p) + [ps[|ps|-1]]
  }

  lemma {:induction false} InsertElems(ps: seq<Path>, p: Path, q: Path)
    ensures q in Insert(ps, p) <==> q in ps || q == p
    decreases |ps|
  {
    if !(ps == [] || |ps[|ps|-1]| <= |p|) {
      InsertElems(ps[..|ps|-1], p, q);
      assert ps == ps[..|ps|-1] + [ps[|ps|-1]];
    }
  }

  lemma {:induction false} InsertSorted(ps: seq<Path>, p: Path)
    requires ShortestFirst(ps)
    ensures ShortestFirst(Insert(ps, p))
    decreases |ps|
  {
    if !(ps == [] || |ps[|ps|-1]| <= |p|) {
      var init, last := ps[..|ps|-1], ps[|ps|-1];
      InsertSorted(init, p);
      var r := Insert(init, p);
      forall i | 0 <= i < |r| ensures |r[i]| <= |last| {
        InsertElems(init, p, r[i]);
        if r[i] in init { var j :| 0 <= j < |init| && init[j] == r[i]; assert ps[j] == r[i]; }
      }
    }
  }

  lemma {:induction false} InsertStable(ps: seq<Path>, p: Path, n: nat)
    requires ShortestFirst(ps)
    ensures OfLength(Insert(ps, p), n) == OfLength(ps + [p], n)
    decreases |ps|
  {
    assert (ps + [p])[..|ps|] == ps;
    if ps == [] || |ps[|ps|-1]| <= |p| {
    } else {
      var init, last := ps[..|ps|-1], ps[|ps|-1];
      InsertStable(init, p, n);
      assert (init + [p])[..|init|] == init;
      var r := Insert(init, p) + [last];
      assert r[..|r|-1] == Insert(init, p);
      if |p| == n { NoneOfLonger(ps, n); }
    }
  }

  lemma NoneOfLonger(ps: seq<Path>, n: nat)
    requires ps != [] && |ps[|ps|-1]| > n
    ensures OfLength(ps, n) == OfLength(ps[..|ps|-1], n)
  {
  }

  lemma {:induction false} InOfLength(ps: seq<Path>, q: Path)
    ensures q in ps <==> q in OfLength(ps, |q|)
    decreases |ps|
  {
    if ps != [] {
      var n := |ps| - 1;
      assert ps == ps[..n] + [ps[n]];
      InOfLength(ps[..n], q);
    }
  }

  /** Sorted by length, paths of the same length in the order listed. */
  function Sorted(ps: seq<Path>): seq<Path> {
    if ps == [] then [] else Insert(Sorted(ps[..|ps|-1]), ps[|ps|-1])
  }

  /** The sort is one, and it is stable. */
  lemma {:induction false} SortedIsStable(ps: seq<Path>)
    ensures ShortestFirst(Sorted(ps))
    ensures forall n: nat :: OfLength(Sorted(ps), n) == OfLength(ps, n)
    decreases |ps|
  {
    if ps != [] {
      var init, last := ps[..|ps|-1], ps[|ps|-1];
      SortedIsStable(init);
      InsertSorted(Sorted(init), last);
      forall n: nat ensures OfLength(Sorted(ps), n) == OfLength(ps, n) {
        InsertStable(Sorted(init), last, n);
        assert (Sorted(init) + [last])[..|Sorted(init)|] == Sorted(init);
      }
    }
  }

  lemma SortedElems(ps: seq<Path>)
    ensures Elems(Sorted(ps)) == Elems(ps)
  {
    SortedIsStable(ps);
    forall q ensures q in Sorted(ps) <==> q in ps {
      InOfLength(Sorted(ps), q);
      InOfLength(ps, q);
    }
  }

  method SortByLength(ps: seq<Path>) returns (r: seq<Path>)
    ensures r == Sorted(ps)
  {
    r := [];
    for i := 0 to |ps|
      invariant r == Sorted(ps[..i])
    {
      assert ps[..i+1][..i] == ps[..i];
      r := Insert(r, ps[i]);
    }
    assert ps[..|ps|] == ps;
  }

  lemma MatchesNonEmpty(row: Row, path: seq<string>, only: Only)
    ensures NonEmpty(Matches(row, path, only))
  {
    if row.Obj? && path != [] && path[0] in row.fields {
      assert forall j :: 0 <= j < |Matches(row, path, only)| ==> Matches(row, path, only)[j][0] == Name(path[0]);
    }
  }

  method BuildRefinedTargetPaths(row: Row, query: Query) returns (paths: seq<Path>)
    ensures paths == Sorted(AllMatches(row, query))
  {
    var found := [];
    for i := 0 to |query|
      invariant found == AllMatches(row, query[..i])
    {
      var encoded := RefineTargetPath(row, query[i].0, query[i].1);
      MatchesNonEmpty(row, query[i].0, query[i].1);
      DecodeEncode(Matches(row, query[i].0, query[i].1));
      found := found + Decode(encoded);
      assert query[..i+1][..i] == query[..i];
    }
    assert query[..|query|] == query;
    paths := SortByLength(found);
  }

  // ----- The indices to preserve, by array

  /** For every array that a path of the set crosses, the indices with which paths go on. */
  ghost predicate Preserves(preserve: map<Path, seq<nat>>, matched: set<Path>) {
    && preserve.Keys == ArrayPaths(matched)
    && forall p :: p in preserve ==> Elems(preserve[p]) == Indices(Under(matched, p))
  }

  /** The prefixes of a path that end in an index. */
  ghost function IndexPrefixes(path: Path, n: nat): set<Path>
    requires n <= |path|
  {
    set k: nat | k < n && path[k].Idx? :: path[..k+1]
  }

  lemma OneMorePrefix(path: Path, n: nat)
    requires n < |path|
    ensures IndexPrefixes(path, n + 1)
         == if path[n].Idx? then IndexPrefixes(path, n) + {path[..n+1]} else IndexPrefixes(path, n)
  {
  }

  /** Drops the names at the end of a path. */
  method Trim(path: Path) returns (trimmed: Path)
    ensures trimmed <= path && (trimmed == [] || trimmed[|trimmed|-1].Idx?)
    ensures IndexPrefixes(path, |trimmed|) == IndexPrefixes(path, |path|)
  {
    trimmed := path;
    while trimmed != [] && !trimmed[|trimmed|-1].Idx?
      invariant trimmed <= path
      invariant IndexPrefixes(path, |trimmed|) == IndexPrefixes(path, |path|)
    {
      OneMorePrefix(path, |trimmed| - 1);
      trimmed := trimmed[..|trimmed|-1];
    }
  }

  ghost predicate EndInIndex(ps: seq<Path>) {
    forall q: Path :: q in ps ==> q != [] && q[|q|-1].Idx?
  }

  /** Adds the prefixes of a path that end in an index, if they are new. */
  method ExpandPath(path: Path, expanded: seq<Path>) returns (r: seq<Path>)
    requires EndInIndex(expanded)
    ensures EndInIndex(r) && Elems(r) == Elems(expanded) + IndexPrefixes(path, |path|)
  {
    r := expanded;
    var trimmed := Trim(path);
    var newPath: Path := [];
    for i := 0 to |trimmed|
      invariant newPath == trimmed[..i]
      invariant EndInIndex(r) && Elems(r) == Elems(expanded) + IndexPrefixes(path, i)
    {
      newPath := newPath + [trimmed[i]];
      assert newPath == path[..i+1];
      OneMorePrefix(path, i);
      if trimmed[i].Idx? && newPath !in r {
        assert Elems(r + [newPath]) == Elems(r) + {newPath};
        r := r + [newPath];
      }
    }
  }

  ghost function AllIndexPrefixes(paths: seq<Path>): set<Path> {
    set q, p | q in paths && p in IndexPrefixes(q, |q|) :: p
  }

  lemma AllIndexPrefixesOf(paths: seq<Path>, p: Path, i: nat)
    ensures p + [Idx(i)] in AllIndexPrefixes(paths) <==> i in Indices(Under(Elems(paths), p))
  {
    if p + [Idx(i)] in AllIndexPrefixes(paths) {
      var q: Path :| q in paths && p + [Idx(i)] in IndexPrefixes(q, |q|);
      var k: nat :| k < |q| && q[k].Idx? && q[..k+1] == p + [Idx(i)];
      assert q[..k] == q[..k+1][..k] == p && q[k] == q[..k+1][k] == Idx(i);
      assert p <= q && q[|p|..] in Under(Elems(paths), p) && q[|p|..][0] == Idx(i);
    }
    if i in Indices(Under(Elems(paths), p)) {
      var t: Path :| t in Under(Elems(paths), p) && t != [] && t[0] == Idx(i);
      var q: Path :| q in Elems(paths) && p <= q && q[|p|..] == t;
      assert q[|p|] == Idx(i) && q[..|p|+1] == p + [Idx(i)];
      assert p + [Idx(i)] in IndexPrefixes(q, |q|);
    }
  }

  /** The map sends a path to the indices that continue it in `expanded`. */
  ghost predicate Merged(m: map<Path, seq<nat>>, expanded: seq<Path>) {
    && (forall p :: p in m ==> m[p] != [])
    && (forall p, i: nat :: (p in m && i in m[p]) <==> p + [Idx(i)] in expanded)
  }

  lemma MergeOne(m: map<Path, seq<nat>>, expanded: seq<Path>, q: Path)
    requires Merged(m, expanded) && q != [] && q[|q|-1].Idx?
    ensures var p, i := q[..|q|-1], q[|q|-1].index;
            Merged(m[p := (if p in m then m[p] else []) + [i]], expanded + [q])
  {
    var p, i := q[..|q|-1], q[|q|-1].index;
    assert q == p + [Idx(i)];
    var n := m[p := (if p in m then m[p] else []) + [i]];
    forall a, j: nat ensures (a in n && j in n[a]) <==> a + [Idx(j)] in expanded + [q] {
      if a + [Idx(j)] == q {
        assert (a + [Idx(j)])[..|a|] == a && (a + [Idx(j)])[|a|] == Idx(j);
      }
      assert (a in m && j in m[a]) <==> a + [Idx(j)] in expanded;
    }
  }

  /** For every array crossed by one of the paths, the indices to preserve in it. */
  method ExpandArrayPathsToPreserve(paths: seq<Path>) returns (m: map<Path, seq<nat>>)
    ensures Preserves(m, Elems(paths))
  {
    var expanded: seq<Path> := [];
    for i := 0 to |paths|
      invariant EndInIndex(expanded) && Elems(expanded) == AllIndexPrefixes(paths[..i])
    {
      expanded := ExpandPath(paths[i], expanded);
      assert paths[..i+1] == paths[..i] + [paths[i]];
    }
    assert paths[..|paths|] == paths;
    m := map[];
    for j := 0 to |expanded|
      invariant Merged(m, expanded[..j])
    {
      var q := expanded[j];
      MergeOne(m, expanded[..j], q);
      var p := q[..|q|-1];
      m := m[p := (if p in m then m[p] else []) + [q[|q|-1].index]];
      assert expanded[..j+1] == expanded[..j] + [q];
    }
    assert expanded[..|expanded|] == expanded;
    MergedPreserves(m, expanded, paths);
  }

  lemma MergedPreserves(m: map<Path, seq<nat>>, expanded: seq<Path>, paths: seq<Path>)
    requires Merged(m, expanded) && Elems(expanded) == AllIndexPrefixes(paths)
    ensures Preserves(m, Elems(paths))
  {
    var matched := Elems(paths);
    forall p, i: nat ensures (p in m && i in m[p]) <==> i in Indices(Under(matched, p)) {
      AllIndexPrefixesOf(paths, p, i);
      assert p + [Idx(i)] in expanded <==> p + [Idx(i)] in Elems(expanded);
    }
    forall p ensures p in m <==> p in ArrayPaths(matched) {
      InArrayPaths(matched, p);
      if p in m { assert m[p][0] in m[p]; }
    }
  }

  // ----- Editing the row

  /** Goes through an array from its end, deleting or replacing what is not kept. */
  method EditArray(es: seq<Row>, keep: seq<nat>, deleteElements: bool) returns (out: seq<Row>)
    ensures out == Kept(es, 0, Elems(keep), ModeOf(deleteElements))
  {
    out := es;
    var i := |es|;
    while i > 0
      invariant 0 <= i <= |es|
      invariant out == es[..i] + Kept(es, i, Elems(keep), ModeOf(deleteElements))
    {
      i := i - 1;
      ghost var rest := Kept(es, i + 1, Elems(keep), ModeOf(deleteElements));
      assert es[..i+1] == es[..i] + [es[i]];
      if i !in keep {
        if deleteElements {
          out := out[..i] + out[i+1..];
          assert out == es[..i] + rest;
        } else {
          out := out[i := PLACEHOLDER];
          assert out == es[..i] + ([PLACEHOLDER] + rest);
        }
      } else {
        assert out == es[..i] + ([es[i]] + rest);
      }
    }
  }

  /** Edits the array at a path, if there is one. */
  method EditAt(row: Row, p: Path, keep: seq<nat>, deleteElements: bool) returns (out: Row, found: bool)
    ensures found <==> Get(row, p).Some? && Get(row, p).value.Arr?
    ensures found ==>
              out == Put(row, p, Arr(Kept(Get(row, p).value.elems, 0, Elems(keep), ModeOf(deleteElements))))
    ensures !found ==> out == row
  {
    var value := Get(row, p);
    found := value.Some? && value.value.Arr?;
    out := row;
    if found {
      var es := EditArray(value.value.elems, keep, deleteElements);
      out := Put(row, p, Arr(es));
    }
  }

  /** All the paths lead to arrays of the row. */
  ghost predicate LeadToArrays(row: Row, paths: set<Path>) {
    forall p :: p in paths ==> Get(row, p).Some? && Get(row, p).value.Arr?
  }

  /** Edits the arrays of a row, deepest first. A path that leads nowhere is skipped and
      counted; when the paths are those the matched paths cross, none is. */
  method RemovePathsFromRow(row: Row, preserve: map<Path, seq<nat>>, deleteElements: bool, ghost matched: set<Path>)
    returns (out: Row, notFound: nat)
    ensures Preserves(preserve, matched) && LeadToArrays(row, ArrayPaths(matched)) ==>
              notFound == 0 && out == FilterRow(row, matched, ModeOf(deleteElements))
  {
    out, notFound := row, 0;
    var todo := preserve.Keys;
    ghost var good := Preserves(preserve, matched) && LeadToArrays(row, ArrayPaths(matched));
    ghost var mode := ModeOf(deleteElements);
    ghost var edited: set<Path> := {};
    PartlyNone(row, matched, mode);
    while todo != {}
      invariant todo !! edited && todo + edited == preserve.Keys
      invariant forall p, q :: p in todo && q in edited ==> |p| <= |q|
      invariant good ==> notFound == 0 && out == Partly(row, matched, edited, mode)
    {
      var p := Deepest(todo);
      if good { EditOneMore(row, matched, edited, p, mode); }
      var found;
      out, found := EditAt(out, p, preserve[p], deleteElements);
      if !found {
        notFound := notFound + 1;
      }
      todo, edited := todo - {p}, edited + {p};
    }
    assert edited == preserve.Keys;
    PartlyAll(row, matched, mode);
  }

  /** A path no other path of the set is longer than. */
  method Deepest(paths: set<Path>) returns (p: Path)
    requires paths != {}
    ensures p in paths && forall q :: q in paths ==> |q| <= |p|
  {
    p :| p in paths;
    var todo := paths - {p};
    while todo != {}
      invariant p in paths && todo <= paths
      invariant forall q :: q in paths && q !in todo ==> |q| <= |p|
    {
      var q :| q in todo;
      if |q| > |p| { p := q; }
      todo := todo - {q};
    }
  }

  lemma MatchedLeadToArrays(row: Row, matched: set<Path>)
    requires forall q :: q in matched ==> Get(row, q).Some?
    ensures LeadToArrays(row, ArrayPaths(matched))
  {
    forall p | p in ArrayPaths(matched) ensures Get(row, p).Some? && Get(row, p).value.Arr? {
      var q: Path, n: nat :| q in matched && n < |q| && q[n].Idx? && q[..n] == p;
      assert q == p + q[n..];
      GetAppend(row, p, q[n..]);
    }
  }

  lemma {:induction false} AllMatchesFound(row: Row, query: Query)
    ensures forall q :: q in AllMatches(row, query) ==> Get(row, q).Some?
    decreases |query|
  {
    if query != [] {
      var n := |query| - 1;
      AllMatchesFound(row, query[..n]);
      forall q | q in Matches(row, query[n].0, query[n].1) ensures Get(row, q).Some? {
        MatchesExact(row, query[n].0, query[n].1, q);
      }
    }
  }

  /** The in-place edit, deepest arrays first, is the filter in one pass. */
  method FilterElementMatch(row: Row, query: Query, deleteElements: bool) returns (out: Row)
    ensures out == FilterRow(row, Elems(AllMatches(row, query)), ModeOf(deleteElements))
  {
    var paths := BuildRefinedTargetPaths(row, query);
    SortedElems(AllMatches(row, query));
    AllMatchesFound(row, query);
    MatchedLeadToArrays(row, Elems(paths));
    var preserve := ExpandArrayPathsToPreserve(paths);
    var notFound;
    out, notFound := RemovePathsFromRow(row, preserve, deleteElements, Elems(paths));
    assert notFound == 0;
  }
}
