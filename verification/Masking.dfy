/** The update an erasure sends for a row, and what it leaves alone. */
module Masking {
  import opened Common
  import opened Rows
  import opened RefinePath
  import opened RefineTheorems
  import opened FilterElements
  import opened FilterMatch
  import opened Views

  /** A field to be masked by some rule; a data type the strategy does not support is skipped. */
  datatype Target = Target(path: seq<string>, supported: bool, mask: Row -> Row)

  function PathsToMask(row: Row, t: Target): seq<Path> {
    if t.supported then Matches(row, t.path, None) else []
  }

  /** The last of the first `n` targets that covers a path decides its masked value. */
  function Covering(row: Row, targets: seq<Target>, n: nat, q: Path): Option<Target>
    requires n <= |targets|
  {
    if n == 0 then None
    else if q in PathsToMask(row, targets[n-1]) then Some(targets[n-1])
    else Covering(row, targets, n - 1, q)
  }

  ghost predicate IsValueMap(row: Row, targets: seq<Target>, n: nat, m: map<Path, Row>)
    requires n <= |targets|
  {
    && (forall q :: q in m <==> Covering(row, targets, n, q).Some?)
    && (forall q :: q in m ==> Get(row, q).Some? && m[q] == Covering(row, targets, n, q).value.mask(Get(row, q).value))
  }

  method WriteMasks(row: Row, paths: seq<Path>, mask: Row -> Row, m: map<Path, Row>) returns (r: map<Path, Row>)
    requires forall q :: q in paths ==> Get(row, q).Some?
    ensures forall q :: q in r <==> q in m || q in paths
    ensures forall q :: q in paths ==> r[q] == mask(Get(row, q).value)
    ensures forall q :: q in m && q !in paths ==> r[q] == m[q]
  {
    r := m;
    for i := 0 to |paths|
      invariant forall q :: q in r <==> q in m || q in paths[..i]
      invariant forall q :: q in paths[..i] ==> r[q] == mask(Get(row, q).value)
      invariant forall q :: q in m && q !in paths[..i] ==> r[q] == m[q]
    {
      r := r[paths[i] := mask(Get(row, paths[i]).value)];
      assert paths[..i+1] == paths[..i] + [paths[i]];
    }
    assert paths[..|paths|] == paths;
  }

  method MaskPaths(row: Row, t: Target, m: map<Path, Row>) returns (r: map<Path, Row>)
    ensures forall q :: q in r <==> q in m || q in PathsToMask(row, t)
    ensures forall q :: q in PathsToMask(row, t) ==> Get(row, q).Some? && r[q] == t.mask(Get(row, q).value)
    ensures forall q :: q in m && q !in PathsToMask(row, t) ==> r[q] == m[q]
  {
    if !t.supported { return m; }
    var paths := BuildRefinedTargetPaths(row, [(t.path, None)]);
    OneTarget(row, t.path);
    r := WriteMasks(row, paths, t.mask, m);
  }

  lemma OneTarget(row: Row, path: seq<string>)
    ensures forall q :: q in Sorted(AllMatches(row, [(path, None)])) <==> q in Matches(row, path, None)
    ensures forall q :: q in Matches(row, path, None) ==> Get(row, q).Some?
  {
    var all := AllMatches(row, [(path, None)]);
    SortedElems(all);
    assert forall q :: q in Sorted(all) <==> q in Elems(Sorted(all));
    assert AllMatches(row, []) + Matches(row, path, None) == Matches(row, path, None);
    forall q | q in Matches(row, path, None) ensures Get(row, q).Some? {
      MatchesExact(row, path, None, q);
    }
  }

  /** The values to write, by path. */
  method UpdateValueMap(row: Row, targets: seq<Target>) returns (m: map<Path, Row>)
    ensures IsValueMap(row, targets, |targets|, m)
  {
    m := map[];
    for n := 0 to |targets|
      invariant IsValueMap(row, targets, n, m)
    {
      m := MaskPaths(row, targets[n], m);
    }
  }

  // ----- Erasure writes only matched data

  /** The row after the update has been applied, in some order of its paths. */
  function Apply(row: Row, m: map<Path, Row>, order: seq<Path>): Row
    requires forall q :: q in order ==> q in m
  {
    if order == [] then row
    else Put(Apply(row, m, order[..|order|-1]), order[|order|-1], m[order[|order|-1]])
  }

  lemma {:induction false} PutElsewhere(v: Row, q: Path, x: Row, p: Path)
    requires !(q <= p) && !(p <= q)
    ensures Get(Put(v, q, x), p) == Get(v, p)
    decreases |q|
  {
    if q != [] && p != [] {
      if q[0] == p[0] {
        assert q == [q[0]] + q[1..] && p == [p[0]] + p[1..];
        assert !(q[1..] <= p[1..]) && !(p[1..] <= q[1..]);
        match (v, q[0])
        case (Obj(m), Name(k)) => if k in m { PutElsewhere(m[k], q[1..], x, p[1..]); }
        case (Arr(es), Idx(i)) => if i < |es| { PutElsewhere(es[i], q[1..], x, p[1..]); }
        case _ =>
      }
    }
  }

  lemma {:induction false} ApplyElsewhere(row: Row, m: map<Path, Row>, order: seq<Path>, p: Path)
    requires forall q :: q in order ==> q in m && !(q <= p) && !(p <= q)
    ensures Get(Apply(row, m, order), p) == Get(row, p)
    decreases |order|
  {
    if order != [] {
      var n := |order| - 1;
      assert forall q :: q in order[..n] ==> q in order;
      ApplyElsewhere(row, m, order[..n], p);
      assert order[n] in order;
      PutElsewhere(Apply(row, m, order[..n]), order[n], m[order[n]], p);
    }
  }

  lemma {:induction false} CoveredIsMatch(row: Row, targets: seq<Target>, n: nat, q: Path)
    requires n <= |targets| && Covering(row, targets, n, q).Some?
    ensures exists t :: t in targets && t.supported && q in Matches(row, t.path, None)
    decreases n
  {
    if q in PathsToMask(row, targets[n-1]) {
      assert targets[n-1] in targets;
    } else {
      CoveredIsMatch(row, targets, n - 1, q);
    }
  }

  lemma {:induction false} InSurviving(ps: seq<Path>, matched: set<Path>, q: Path)
    ensures q in Surviving(ps, matched) <==> q in ps && !PassesReplaced(matched, q)
    decreases |ps|
  {
    if ps != [] {
      InSurviving(ps[..|ps|-1], matched, q);
      assert ps == ps[..|ps|-1] + [ps[|ps|-1]];
    }
  }

  /** Every written path is a match of the original row that was not filtered out. */
  lemma WrittenPaths(row: Row, matched: set<Path>, targets: seq<Target>, m: map<Path, Row>, q: Path)
    requires IsValueMap(FilterRow(row, matched, Replace), targets, |targets|, m)
    ensures q in m <==>
              !PassesReplaced(matched, q) && exists t :: t in targets && t.supported && q in Matches(row, t.path, None)
  {
    var w := FilterRow(row, matched, Replace);
    forall t | t in targets
      ensures q in Matches(w, t.path, None) <==> q in Matches(row, t.path, None) && !PassesReplaced(matched, q)
    {
      MaskedPaths(row, t.path, matched);
      InSurviving(Matches(row, t.path, None), matched, q);
    }
    if q in m { CoveredIsMatch(w, targets, |targets|, q); }
    if t :| t in targets && t.supported && q in Matches(w, t.path, None) {
      var i :| 0 <= i < |targets| && targets[i] == t;
      CoveredOnce(w, targets, |targets|, i, q);
    }
  }

  lemma {:induction false} CoveredOnce(row: Row, targets: seq<Target>, n: nat, i: nat, q: Path)
    requires i < n <= |targets| && q in PathsToMask(row, targets[i])
    ensures Covering(row, targets, n, q).Some?
    decreases n
  {
    if i < n - 1 { CoveredOnce(row, targets, n - 1, i, q); }
  }

  lemma ReplacedStays(matched: set<Path>, p: Path, q: Path)
    requires p <= q && PassesReplaced(matched, p)
    ensures PassesReplaced(matched, q)
  {
    var n: nat :| n < |p| && ReplacedAt(matched, p, n);
    assert p[..n] == q[..n] && ReplacedAt(matched, q, n);
  }

  /** What is not there stays away, and what was inside a value overwritten by a scalar goes. */
  lemma {:induction false} PutLeaf(v: Row, q: Path, x: Row, p: Path)
    requires x.Leaf? && (Get(v, p).None? || (q <= p && q != p))
    ensures Get(Put(v, q, x), p).None?
    decreases |q|
  {
    if q == [] {
      assert p != [] ==> Get(x, p).None?;
    } else if p != [] {
      assert q == [q[0]] + q[1..] && p == [p[0]] + p[1..];
      match (v, q[0])
      case (Obj(m), Name(k)) => if k in m && p[0] == q[0] { PutLeaf(m[k], q[1..], x, p[1..]); }
      case (Arr(es), Idx(i)) => if i < |es| && p[0] == q[0] { PutLeaf(es[i], q[1..], x, p[1..]); }
      case _ =>
    }
  }

  lemma {:induction false} ApplyAround(row: Row, m: map<Path, Row>, order: seq<Path>, p: Path, q: Path)
    requires forall r :: r in order ==> r in m && m[r].Leaf?
    requires q in order && q <= p && q != p
    ensures Get(Apply(row, m, order), p).None?
    decreases |order|
  {
    var n := |order| - 1;
    assert order == order[..n] + [order[n]];
    if q != order[n] { ApplyAround(row, m, order[..n], p, q); }
    PutLeaf(Apply(row, m, order[..n]), order[n], m[order[n]], p);
  }

  /** A target has a match around the path, through no replaced element. */
  ghost predicate MaskedAround(row: Row, matched: set<Path>, targets: seq<Target>, p: Path) {
    exists t, q ::
      t in targets && t.supported && q in Matches(row, t.path, None) && q <= p && !PassesReplaced(matched, q)
  }

  /** Applied to the stored row, the update computed from the placeholder row changes
      nothing inside an array element that did not match the query, unless a target has a
      match, which is then an object, around that element; and if masks are scalars it does
      change it then. */
  lemma ErasureSparesUnmatched(row: Row, matched: set<Path>, targets: seq<Target>, m: map<Path, Row>,
                               order: seq<Path>, p: Path)
    requires IsValueMap(FilterRow(row, matched, Replace), targets, |targets|, m)
    requires forall q :: q in order <==> q in m
    requires Get(row, p).Some? && PassesReplaced(matched, p)
    ensures !MaskedAround(row, matched, targets, p) ==> Get(Apply(row, m, order), p) == Get(row, p)
    ensures MaskedAround(row, matched, targets, p) && (forall q :: q in m ==> m[q].Leaf?) ==>
              Get(Apply(row, m, order), p) != Get(row, p)
  {
    if MaskedAround(row, matched, targets, p) {
      var t, q :| t in targets && t.supported && q in Matches(row, t.path, None) && q <= p
                  && !PassesReplaced(matched, q);
      WrittenPaths(row, matched, targets, m, q);
      if forall r :: r in m ==> m[r].Leaf? { ApplyAround(row, m, order, p, q); }
    } else {
      forall q | q in order ensures !(q <= p) && !(p <= q) {
        WrittenPaths(row, matched, targets, m, q);
        if p <= q { ReplacedStays(matched, p, q); }
      }
      ApplyElsewhere(row, m, order, p);
    }
  }
}
