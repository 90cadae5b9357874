/** Which configurations let erasure reach an array element that did not match. */
module Erasure {
  import opened Common
  import opened Rows
  import opened RefinePath
  import opened RefineTheorems
  import opened FilterElements
  import opened FilterMatch
  import opened Views
  import opened Masking

  function Matched(row: Row, query: Query): set<Path> {
    Elems(AllMatches(row, query))
  }

  /** Some value can match: scalars and objects can, arrays are entered instead. */
  predicate CanMatch(only: Only) {
    only == None || only.value == [] || exists x | x in only.value :: !x.Arr? && x != PLACEHOLDER
  }

  /** A queried path leads on from the path of a rule, to data that can match. */
  predicate Extended(query: Query, path: seq<string>) {
    path != [] && exists i | 0 <= i < |query| :: path < query[i].0 && CanMatch(query[i].1)
  }

  // ----- Without an extension

  lemma {:induction false} InAllMatches(row: Row, query: Query, n: nat, p: Path)
    requires n <= |query|
    ensures p in AllMatches(row, query[..n]) <==>
              exists i :: 0 <= i < n && p in Matches(row, query[i].0, query[i].1)
    decreases n
  {
    if n > 0 {
      InAllMatches(row, query, n - 1, p);
      assert query[..n][..n-1] == query[..n-1];
    }
  }

  lemma InMatched(row: Row, query: Query, p: Path)
    ensures p in Matched(row, query) <==>
              exists i :: 0 <= i < |query| && p in Matches(row, query[i].0, query[i].1)
  {
    InAllMatches(row, query, |query|, p);
    assert query[..|query|] == query;
  }

  lemma {:induction false} NamesAppend(p: Path, q: Path)
    ensures Names(p + q) == Names(p) + Names(q)
    decreases |p|
  {
    if p == [] {
      assert p + q == q;
    } else {
      assert (p + q)[1..] == p[1..] + q;
      NamesAppend(p[1..], q);
    }
  }

  lemma InUnder(paths: set<Path>, p: Path, r: Path)
    ensures r in Under(paths, p) <==> p + r in paths
  {
    if r in Under(paths, p) {
      var q :| q in paths && p <= q && q[|p|..] == r;
      assert q == p + r;
    }
    assert (p + r)[|p|..] == r;
  }

  /** An array inside a value is crossed by a path that goes on inside the value. */
  lemma CrossedInside(paths: set<Path>, q: Path, p: Path) returns (r: Path)
    requires q <= p && Indices(Under(paths, p)) != {}
    ensures r != [] && r in Under(paths, q)
  {
    var i :| i in Indices(Under(paths, p));
    var s :| s in Under(paths, p) && s != [] && s[0] == Idx(i);
    InUnder(paths, p, s);
    r := p[|q|..] + s;
    assert p + s == q + r;
    InUnder(paths, q, r);
  }

  /** A value that is matched as a whole, and nothing inside it, is not filtered. */
  lemma WholeMatch(v: Row, paths: set<Path>)
    requires paths <= {[]}
    ensures FilterRow(v, paths, Replace) == v
  {
    assert forall l :: Under(paths, [l]) == {};
    match v
    case Leaf(_) =>
    case Obj(m) =>
      forall k | k in m ensures FilterRow(m[k], Under(paths, [Name(k)]), Replace) == m[k] {
        FilterNothing(m[k], Replace);
      }
      assert FilterRow(v, paths, Replace).fields == m;
    case Arr(es) => assert Indices(paths) == {};
  }

  /** A matched path follows a queried one that can match. */
  lemma QueriedBy(row: Row, query: Query, p: Path) returns (i: nat)
    requires p in Matched(row, query)
    ensures i < |query| && Names(p) <= query[i].0 && CanMatch(query[i].1)
    ensures Get(row, p).Some? && !Get(row, p).value.Arr?
  {
    InMatched(row, query, p);
    i :| 0 <= i < |query| && p in Matches(row, query[i].0, query[i].1);
    MatchesExact(row, query[i].0, query[i].1, p);
  }

  /** A rule's match is a scalar, or an object at the end of the rule's path. */
  lemma RuleMatch(row: Row, path: seq<string>, q: Path)
    requires q in Matches(row, path, None)
    ensures path != [] && Get(row, q).Some?
    ensures Get(row, q).value.Leaf? || (Get(row, q).value.Obj? && Names(q) == path)
  {
    MatchesExact(row, path, None, q);
  }

  /** Whatever is matched further inside a rule's match comes from a path that leads on. */
  lemma InsideIsExtended(row: Row, query: Query, path: seq<string>, q: Path, rest: Path)
    requires q in Matches(row, path, None) && q + rest in Matched(row, query) && rest != []
    ensures Extended(query, path)
  {
    RuleMatch(row, path, q);
    var i := QueriedBy(row, query, q + rest);
    GetAppend(row, q, rest);
    NamesAppend(q, rest);
    assert rest[0].Name? && Names(rest) == [rest[0].name] + Names(rest[1..]);
    assert path < Names(q + rest) <= query[i].0;
  }

  /** Then every masked path has, in the row with placeholders, the value it has in the
      original row. */
  lemma MaskedValuesSame(row: Row, query: Query, path: seq<string>, q: Path)
    requires !Extended(query, path)
    requires q in Matches(row, path, None) && !PassesReplaced(Matched(row, query), q)
    ensures Get(FilterRow(row, Matched(row, query), Replace), q) == Get(row, q)
  {
    var matched := Matched(row, query);
    MatchesExact(row, path, None, q);
    NothingInside(row, query, path, q);
    MaskedValues(row, matched, q);
    WholeMatch(Get(row, q).value, Under(matched, q));
    UntouchedIsSame(Get(row, q).value, Under(matched, q));
  }

  lemma NothingInside(row: Row, query: Query, path: seq<string>, q: Path)
    requires !Extended(query, path) && q in Matches(row, path, None)
    ensures Under(Matched(row, query), q) <= {[]}
  {
    forall rest | rest in Under(Matched(row, query), q) ensures rest == [] {
      InUnder(Matched(row, query), q, rest);
      if rest != [] { InsideIsExtended(row, query, path, q, rest); }
    }
  }

  /** And no match of the rule lies around an element that was replaced. */
  lemma NotMaskedAround(row: Row, query: Query, targets: seq<Target>, p: Path)
    requires !AnyExtended(query, targets) && PassesReplaced(Matched(row, query), p)
    ensures !MaskedAround(row, Matched(row, query), targets, p)
  {
    var matched := Matched(row, query);
    var n: nat :| n < |p| && ReplacedAt(matched, p, n);
    forall t, q | t in targets && t.supported && q in Matches(row, t.path, None) && q <= p
      ensures PassesReplaced(matched, q)
    {
      var j :| 0 <= j < |targets| && targets[j] == t;
      NothingInside(row, query, t.path, q);
      if n >= |q| { var r := CrossedInside(matched, q, p[..n]); }
      assert q[..n] == p[..n] && ReplacedAt(matched, q, n);
    }
  }

  predicate AnyExtended(query: Query, targets: seq<Target>) {
    exists i | 0 <= i < |targets| :: targets[i].supported && Extended(query, targets[i].path)
  }

  /** What an erasure sends for a row that was found by a query, in some order. */
  ghost predicate IsErasure(row: Row, query: Query, targets: seq<Target>, m: map<Path, Row>, order: seq<Path>) {
    && IsValueMap(FilterRow(row, Matched(row, query), Replace), targets, |targets|, m)
    && forall q :: q in order <==> q in m
  }

  /** So erasure leaves every array element that did not match as it is stored. */
  lemma ErasureSpares(row: Row, query: Query, targets: seq<Target>, m: map<Path, Row>, order: seq<Path>, p: Path)
    requires !AnyExtended(query, targets) && IsErasure(row, query, targets, m, order)
    requires Get(row, p).Some? && PassesReplaced(Matched(row, query), p)
    ensures Get(Apply(row, m, order), p) == Get(row, p)
  {
    NotMaskedAround(row, query, targets, p);
    ErasureSparesUnmatched(row, Matched(row, query), targets, m, order, p);
  }

  // ----- What is kept

  /** The path leads to a value that the query asks for along one of its own paths. */
  ghost predicate AskedFor(row: Row, query: Query, p: Path) {
    exists i :: 0 <= i < |query| && p in Matches(row, query[i].0, None) && Wants(query[i].1, Get(row, p))
  }

  predicate Wants(only: Only, v: Option<Row>) {
    v.Some? && (only == None || only.value == [] || v.value in only.value)
  }

  lemma MatchedIff(row: Row, query: Query, p: Path)
    ensures p in Matched(row, query) <==> AskedFor(row, query, p)
  {
    InMatched(row, query, p);
    forall i | 0 <= i < |query|
      ensures p in Matches(row, query[i].0, query[i].1) <==>
                p in Matches(row, query[i].0, None) && Wants(query[i].1, Get(row, p))
    {
      MatchesAskedFor(row, query[i].0, if query[i].1.Some? then query[i].1.value else [], p);
    }
  }

  /** An element of an array is on a matched path just when a value asked for is at it or
      inside it. */
  lemma KeptIff(row: Row, query: Query, r: Path, i: nat)
    ensures i in Indices(Under(Matched(row, query), r)) <==>
              exists p :: r + [Idx(i)] <= p && AskedFor(row, query, p)
  {
    var matched := Matched(row, query);
    if i in Indices(Under(matched, r)) {
      var s :| s in Under(matched, r) && s != [] && s[0] == Idx(i);
      InUnder(matched, r, s);
      MatchedIff(row, query, r + s);
      assert (r + s)[..|r| + 1] == r + [Idx(i)];
    }
    if p :| r + [Idx(i)] <= p && AskedFor(row, query, p) {
      MatchedIff(row, query, p);
      assert p == r + p[|r|..] && p[|r|..][0] == Idx(i);
      InUnder(matched, r, p[|r|..]);
    }
  }

  /** So, in either view, an element of an array in which something was asked for is there
      just when a value asked for is at it or inside it; and all of another array is. */
  lemma ElementReplacedIff(row: Row, query: Query, r: Path, i: nat)
    ensures ReplacesHere(Under(Matched(row, query), r), Idx(i)) <==>
              && (exists j: nat, p :: r + [Idx(j)] <= p && AskedFor(row, query, p))
              && !(exists p :: r + [Idx(i)] <= p && AskedFor(row, query, p))
  {
    KeptIff(row, query, r, i);
    var kept := Indices(Under(Matched(row, query), r));
    if kept != {} {
      var j :| j in kept;
      KeptIff(row, query, r, j);
    }
    if j: nat, p :| r + [Idx(j)] <= p && AskedFor(row, query, p) { KeptIff(row, query, r, j); }
  }

  // ----- With one

  function Down(names: seq<string>): (r: Path)
    ensures |r| == |names| && forall i :: 0 <= i < |r| ==> r[i] == Name(names[i])
  {
    seq(|names|, i requires 0 <= i < |names| => Name(names[i]))
  }

  function Nest(names: seq<string>, v: Row): Row {
    if names == [] then v else Obj(map[names[0] := Nest(names[1..], v)])
  }

  lemma {:induction false} GetNest(names: seq<string>, v: Row, q: Path)
    ensures Get(Nest(names, v), Down(names) + q) == Get(v, q)
    decreases |names|
  {
    if names == [] {
      assert Down(names) + q == q;
    } else {
      assert (Down(names) + q)[1..] == Down(names[1..]) + q;
      GetNest(names[1..], v, q);
    }
  }

  lemma {:induction false} NamesDown(names: seq<string>)
    ensures Names(Down(names)) == names
    decreases |names|
  {
    if names != [] {
      assert Down(names)[1..] == Down(names[1..]);
      NamesDown(names[1..]);
    }
  }

  lemma MatchedNotReplaced(matched: set<Path>, p: Path, q: Path)
    requires p in matched && q <= p
    ensures !PassesReplaced(matched, q)
  {
    forall n: nat | n < |q| && q[n].Idx? ensures q[n].index in Indices(Under(matched, q[..n])) {
      assert q[..n] <= p && p[n..] in Under(matched, q[..n]) && p[n..][0] == q[n];
    }
  }

  /** At the end of the rule's path an object, in which the queried path leads to an array
      with an element that matches and one that does not. */
  function Hiding(path: seq<string>, more: seq<string>, x: Row): Row {
    Nest(path, Arr([Nest(more, Arr([x, Arr([])]))]))
  }

  function RulePath(path: seq<string>): Path { Down(path) + [Idx(0)] }

  function InnerPath(path: seq<string>, more: seq<string>): Path { RulePath(path) + Down(more) }

  lemma GetHiding(path: seq<string>, more: seq<string>, x: Row, q: Path)
    ensures Get(Hiding(path, more, x), RulePath(path)) == Some(Nest(more, Arr([x, Arr([])])))
    ensures Get(Hiding(path, more, x), InnerPath(path, more) + q) == Get(Arr([x, Arr([])]), q)
  {
    var inner := Nest(more, Arr([x, Arr([])]));
    GetNest(path, Arr([inner]), [Idx(0)]);
    assert [Idx(0)][1..] == [];
    assert InnerPath(path, more) + q == Down(path) + ([Idx(0)] + (Down(more) + q));
    GetNest(path, Arr([inner]), [Idx(0)] + (Down(more) + q));
    assert ([Idx(0)] + (Down(more) + q))[1..] == Down(more) + q;
    GetNest(more, Arr([x, Arr([])]), q);
  }

  lemma RuleMatches(path: seq<string>, more: seq<string>, x: Row)
    requires path != [] && more != []
    ensures RulePath(path) in Matches(Hiding(path, more, x), path, None)
  {
    var row, q := Hiding(path, more, x), RulePath(path);
    GetHiding(path, more, x, []);
    NamesAppend(Down(path), [Idx(0)]);
    NamesDown(path);
    MatchesExact(row, path, None, q);
  }

  lemma InnerNames(path: seq<string>, more: seq<string>)
    ensures Names(InnerPath(path, more) + [Idx(0)]) == path + more
  {
    NamesDown(path);
    NamesDown(more);
    NamesAppend(Down(path), [Idx(0)]);
    NamesAppend(RulePath(path), Down(more));
    NamesAppend(InnerPath(path, more), [Idx(0)]);
  }

  lemma InnerIndices(path: seq<string>, more: seq<string>)
    requires more != []
    ensures NestedOnlyAtTheEnd(InnerPath(path, more) + [Idx(0)])
  {
    var q := InnerPath(path, more) + [Idx(0)];
    assert forall i :: 0 <= i < |q| ==> (q[i].Idx? <==> i == |path| || i == |q| - 1);
  }

  lemma QueryMatches(path: seq<string>, more: seq<string>, x: Row, only: Only)
    requires path != [] && more != [] && !x.Arr? && MatchFound(x, only)
    ensures InnerPath(path, more) + [Idx(0)] in Matches(Hiding(path, more, x), path + more, only)
  {
    var row, q := Hiding(path, more, x), InnerPath(path, more) + [Idx(0)];
    GetHiding(path, more, x, [Idx(0)]);
    assert Get(row, q) == Some(x) by { assert [Idx(0)][1..] == []; }
    InnerNames(path, more);
    InnerIndices(path, more);
    MatchesExact(row, path + more, only, q);
  }

  lemma OnlyTheEmptyArray(x: Row, s: Path)
    requires s != [] && s[0] == Idx(1)
    ensures var v := Get(Arr([x, Arr([])]), s); v.Some? ==> v.value.Arr?
  {
    assert Get(Arr([]), s[1..]).Some? ==> s[1..] == [];
  }

  /** Nothing matches in the empty array, nor does it match itself. */
  lemma EmptyNeverMatches(path: seq<string>, more: seq<string>, x: Row, query: Query)
    ensures 1 !in Indices(Under(Matched(Hiding(path, more, x), query), InnerPath(path, more)))
  {
    var row, r := Hiding(path, more, x), InnerPath(path, more);
    forall s | s in Under(Matched(row, query), r) && s != [] ensures s[0] != Idx(1) {
      InUnder(Matched(row, query), r, s);
      var i := QueriedBy(row, query, r + s);
      GetHiding(path, more, x, s);
      if s[0] == Idx(1) { OnlyTheEmptyArray(x, s); }
    }
  }

  /** A row in which the rule's match is an object, not itself replaced, around an array
      element that is. */
  lemma ExtensionHides(query: Query, path: seq<string>) returns (row: Row, q: Path, p: Path)
    requires Extended(query, path)
    ensures q in Matches(row, path, None) && !PassesReplaced(Matched(row, query), q)
    ensures Get(row, p).Some? && PassesReplaced(Matched(row, query), p) && q <= p
    ensures Get(FilterRow(row, Matched(row, query), Replace), q) != Get(row, q)
  {
    var i :| 0 <= i < |query| && path < query[i].0 && CanMatch(query[i].1);
    var more, only := query[i].0[|path|..], query[i].1;
    var x: Row;
    if only == None || only.value == [] {
      x := Leaf(Null);
    } else {
      x :| x in only.value && !x.Arr? && x != PLACEHOLDER;
    }
    row, q := Hiding(path, more, x), RulePath(path);
    var r := InnerPath(path, more);
    p := r + [Idx(1)];
    RuleMatches(path, more, x);
    assert query[i].0 == path + more;
    QueryMatches(path, more, x, only);
    InMatched(row, query, r + [Idx(0)]);
    MatchedNotReplaced(Matched(row, query), r + [Idx(0)], q);
    MatchedNotReplaced(Matched(row, query), r + [Idx(0)], r);
    HiddenIsReplaced(path, more, x, query);
  }

  lemma HiddenIsReplaced(path: seq<string>, more: seq<string>, x: Row, query: Query)
    requires InnerPath(path, more) + [Idx(0)] in Matched(Hiding(path, more, x), query)
    ensures var row, p := Hiding(path, more, x), InnerPath(path, more) + [Idx(1)];
            && Get(row, p).Some? && PassesReplaced(Matched(row, query), p)
            && Get(FilterRow(row, Matched(row, query), Replace), RulePath(path)) != Get(row, RulePath(path))
  {
    var row, r := Hiding(path, more, x), InnerPath(path, more);
    var matched, w := Matched(row, query), FilterRow(row, Matched(row, query), Replace);
    var es, under := [x, Arr([])], Under(matched, r);
    EmptyNeverMatches(path, more, x, query);
    InUnder(matched, r, [Idx(0)]);
    assert 0 in Indices(under);
    GetHiding(path, more, x, [Idx(1)]);
    GetHiding(path, more, x, []);
    assert r + [] == r && [Idx(1)][1..] == [];
    assert (r + [Idx(1)])[..|r|] == r && ReplacedAt(matched, r + [Idx(1)], |r|);
    MatchedNotReplaced(matched, r + [Idx(0)], r);
    PositionsKept(row, matched, r);
    ArrayInPlace(es, under);
    assert FilterRow(Arr(es), under, Replace).elems[1] == PLACEHOLDER;
    GetAppend(row, RulePath(path), Down(more));
    GetAppend(w, RulePath(path), Down(more));
  }

  // ----- So these are exactly the configurations

  /** Masked paths have the same values in both rows, whatever the row, just when no
      queried path that can match leads on from the rule's. */
  lemma MaskedValuesIff(query: Query, path: seq<string>)
    ensures !Extended(query, path) <==>
              forall row, q :: q in Matches(row, path, None) && !PassesReplaced(Matched(row, query), q) ==>
                Get(FilterRow(row, Matched(row, query), Replace), q) == Get(row, q)
  {
    if Extended(query, path) {
      var row, q, p := ExtensionHides(query, path);
    } else {
      forall row, q | q in Matches(row, path, None) && !PassesReplaced(Matched(row, query), q)
        ensures Get(FilterRow(row, Matched(row, query), Replace), q) == Get(row, q)
      {
        MaskedValuesSame(row, query, path, q);
      }
    }
  }

  lemma {:induction false} SomeValueMap(row: Row, targets: seq<Target>, n: nat) returns (m: map<Path, Row>)
    requires n <= |targets|
    ensures IsValueMap(row, targets, n, m)
    decreases n
  {
    if n == 0 {
      m := map[];
    } else {
      var before := SomeValueMap(row, targets, n - 1);
      var t := targets[n-1];
      OneTarget(row, t.path);
      var paths := Elems(PathsToMask(row, t));
      m := map q | q in before.Keys + paths ::
        if q in paths && Get(row, q).Some? then t.mask(Get(row, q).value) else if q in before then before[q] else row;
    }
  }

  /** Erasure with scalar masks changes no array element that did not match, in any row,
      just when no queried path that can match leads on from that of a supported target. */
  lemma ErasureSparesIff(query: Query, targets: seq<Target>)
    requires forall i, v :: 0 <= i < |targets| ==> targets[i].mask(v).Leaf?
    ensures !AnyExtended(query, targets) <==>
              forall row, m, order, p ::
                IsErasure(row, query, targets, m, order) && Get(row, p).Some? && PassesReplaced(Matched(row, query), p)
                ==> Get(Apply(row, m, order), p) == Get(row, p)
  {
    if AnyExtended(query, targets) {
      var row, m, order, p := ErasureMayHit(query, targets);
    } else {
      forall row, m, order, p
        | IsErasure(row, query, targets, m, order) && Get(row, p).Some? && PassesReplaced(Matched(row, query), p)
        ensures Get(Apply(row, m, order), p) == Get(row, p)
      {
        ErasureSpares(row, query, targets, m, order, p);
      }
    }
  }

  /** A row, and the update sent for it, that changes a stored value that did not match. */
  lemma ErasureMayHit(query: Query, targets: seq<Target>)
      returns (row: Row, m: map<Path, Row>, order: seq<Path>, p: Path)
    requires forall i, v :: 0 <= i < |targets| ==> targets[i].mask(v).Leaf?
    requires AnyExtended(query, targets)
    ensures IsErasure(row, query, targets, m, order)
    ensures Get(row, p).Some? && PassesReplaced(Matched(row, query), p)
    ensures Get(Apply(row, m, order), p) != Get(row, p)
  {
    var i :| 0 <= i < |targets| && targets[i].supported && Extended(query, targets[i].path);
    var q;
    row, q, p := ExtensionHides(query, targets[i].path);
    var w := FilterRow(row, Matched(row, query), Replace);
    m := SomeValueMap(w, targets, |targets|);
    order := Listing(m.Keys);
    assert forall r :: r in order <==> r in Elems(order);
    assert MaskedAround(row, Matched(row, query), targets, p) by { assert targets[i] in targets; }
    forall r | r in m ensures m[r].Leaf? { CoveringIsTarget(w, targets, |targets|, r); }
    ErasureSparesUnmatched(row, Matched(row, query), targets, m, order, p);
  }

  lemma {:induction false} CoveringIsTarget(row: Row, targets: seq<Target>, n: nat, q: Path)
    requires n <= |targets| && Covering(row, targets, n, q).Some?
    ensures exists i :: 0 <= i < |targets| && targets[i] == Covering(row, targets, n, q).value
    decreases n
  {
    if q !in PathsToMask(row, targets[n-1]) { CoveringIsTarget(row, targets, n - 1, q); }
  }

  // ----- A placeholder of the row's own

  /** A row that holds the placeholder in an array no queried path leads into has two
      views that do not agree: the access view keeps it. */
  lemma ViewsMayDiffer(m: map<string, Row>, k: string, query: Query)
    requires k in m && m[k] == Arr([PLACEHOLDER])
    requires forall i :: 0 <= i < |query| && query[i].0 != [] ==> query[i].0[0] != k
    ensures var row := Obj(m);
            Strip(FilterRow(row, Matched(row, query), Replace)) != FilterRow(row, Matched(row, query), Delete)
  {
    var row, q := Obj(m), [Name(k), Idx(0)];
    var matched := Matched(row, query);
    assert [Name(k)][1..] == [];
    forall r | r in Under(matched, [Name(k)]) ensures false {
      InUnder(matched, [Name(k)], r);
      var i := QueriedBy(row, query, [Name(k)] + r);
      NamesAppend([Name(k)], r);
    }
    assert Get(row, q) == Some(PLACEHOLDER) by {
      GetOne(row, Name(k));
      GetOne(m[k], Idx(0));
      GetAppend(row, [Name(k)], [Idx(0)]);
      assert q == [Name(k)] + [Idx(0)];
    }
    assert Hidden(row, q);
    assert q[..1] == [Name(k)];
    assert !ReplacedAt(matched, q, 0) && !ReplacedAt(matched, q, 1);
    ViewsAgree(row, matched);
  }
}
