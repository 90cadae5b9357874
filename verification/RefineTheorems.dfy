/** `Matches` lists exactly the matching positions, in document order. */
module RefineTheorems {
  import opened Common
  import opened Rows
  import opened RefinePath

  /** The field names along a path. */
  function Names(q: Path): seq<string> {
    if q == [] then []
    else (if q[0].Name? then [q[0].name] else []) + Names(q[1..])
  }

  /** Once a path takes two indices in a row, only indices follow. */
  ghost predicate NestedOnlyAtTheEnd(q: Path) {
    forall i, j :: 0 < i <= j < |q| && q[i-1].Idx? && q[i].Idx? ==> q[j].Idx?
  }

  /** The value is not the placeholder text and, if values were given, is one of them. */
  predicate IsAskedFor(x: Row, only: Only) {
    x != Leaf(Str("FIDESOPS_DO_NOT_MASK")) && (only.None? || only.value == [] || x in only.value)
  }

  /** The path leads to a value asked for, and its names follow the target path: to the
      end of it when the value is an array element, and otherwise to a scalar, which
      may be met early. */
  ghost predicate Hit(v: Row, rest: seq<string>, only: Only, q: Path) {
    && Get(v, q).Some?
    && var x := Get(v, q).value;
    && IsAskedFor(x, only)
    && Names(q) <= rest
    && NestedOnlyAtTheEnd(q)
    && (if q != [] && q[|q|-1].Idx? then Names(q) == rest && !x.Arr? else x.Leaf?)
  }

  lemma InPrefixed(l: Level, ps: seq<Path>, q: Path)
    ensures q in Prefixed(l, ps) <==> q != [] && q[0] == l && q[1..] in ps
  {
    if q != [] && q[0] == l && q[1..] in ps {
      var j :| 0 <= j < |ps| && ps[j] == q[1..];
      assert Prefixed(l, ps)[j] == q;
    }
    if q in Prefixed(l, ps) {
      var j :| 0 <= j < |ps| && Prefixed(l, ps)[j] == q;
      assert q[1..] == ps[j];
    }
  }

  lemma {:induction false} InInArray(es: seq<Row>, rest: seq<string>, only: Only, q: Path)
    ensures q in InArray(es, rest, only) <==>
              q != [] && q[0].Idx? && q[0].index < |es| && q[1..] in Item(es[q[0].index], rest, only)
    decreases |es|
  {
    if es != [] {
      var n := |es| - 1;
      InInArray(es[..n], rest, only, q);
      InPrefixed(Idx(n), Item(es[n], rest, only), q);
    }
  }

  /** Putting a level in front of a path. */
  lemma NamesCons(q: Path)
    requires q != []
    ensures Names(q) == (if q[0].Name? then [q[0].name] else []) + Names(q[1..])
    ensures NestedOnlyAtTheEnd(q) ==> NestedOnlyAtTheEnd(q[1..])
    ensures NestedOnlyAtTheEnd(q[1..]) && (q[0].Name? || |q| == 1 || q[1].Name?) ==> NestedOnlyAtTheEnd(q)
  {
    var t := q[1..];
    if NestedOnlyAtTheEnd(q) {
      forall i, j | 0 < i <= j < |t| && t[i-1].Idx? && t[i].Idx? ensures t[j].Idx? {
        assert q[i].Idx? && q[i+1].Idx?;
        assert q[(i+1)-1] == q[i];
        assert q[j+1].Idx?;
      }
    }
    if NestedOnlyAtTheEnd(t) && (q[0].Name? || |q| == 1 || q[1].Name?) {
      forall i, j | 0 < i <= j < |q| && q[i-1].Idx? && q[i].Idx? ensures q[j].Idx? {
        assert i > 1 ==> t[i-2].Idx? && t[i-1].Idx? && t[(i-1)-1] == t[i-2];
        assert t[j-1].Idx?;
      }
    }
  }

  lemma {:induction false} NoNames(q: Path)
    ensures Names(q) == [] <==> forall i :: 0 <= i < |q| ==> q[i].Idx?
    decreases |q|
  {
    if q != [] {
      NoNames(q[1..]);
      if Names(q) == [] {
        forall i | 0 <= i < |q| ensures q[i].Idx? { assert i > 0 ==> q[1..][i-1].Idx?; }
      }
      if forall i :: 0 <= i < |q| ==> q[i].Idx? {
        assert q[0].Idx?;
        forall i | 0 <= i < |q[1..]| ensures q[1..][i].Idx? { assert q[i+1].Idx?; }
      }
    }
  }

  /** A path lists just the matching positions. */
  lemma {:induction false} BelowExact(v: Row, rest: seq<string>, only: Only, q: Path)
    ensures q in Below(v, rest, only) <==> Hit(v, rest, only, q)
    decreases v, |q|
  {
    match v
    case Leaf(_) =>
    case Obj(m) =>
      HitThroughField(m, rest, only, q);
      if rest != [] && rest[0] in m {
        InPrefixed(Name(rest[0]), Below(m[rest[0]], rest[1..], only), q);
        if q != [] && q[0] == Name(rest[0]) {
          BelowExact(m[rest[0]], rest[1..], only, q[1..]);
        }
      }
    case Arr(es) =>
      InInArray(es, rest, only, q);
      if q != [] && q[0].Idx? && q[0].index < |es| {
        ElementExact(es, rest, only, q);
      }
  }

  lemma {:induction false} ElementExact(es: seq<Row>, rest: seq<string>, only: Only, q: Path)
    requires q != [] && q[0].Idx? && q[0].index < |es|
    ensures q[1..] in Item(es[q[0].index], rest, only) <==> Hit(Arr(es), rest, only, q)
    decreases Arr(es), |q|, 0
  {
    var e, t := es[q[0].index], q[1..];
    if rest != [] {
      if e.Obj? { BelowExact(e, rest, only, t); }
      HitThroughElement(es, rest, only, q);
    } else {
      if e.Arr? { BelowExact(e, rest, only, t); }
      HitLastElement(es, only, q);
    }
  }

  lemma HitThroughField(m: map<string, Row>, rest: seq<string>, only: Only, q: Path)
    ensures Hit(Obj(m), rest, only, q) <==>
              && rest != [] && rest[0] in m && q != [] && q[0] == Name(rest[0])
              && Hit(m[rest[0]], rest[1..], only, q[1..])
  {
    if q != [] && q[0].Name? {
      NamesCons(q);
      assert Names(q) == [q[0].name] + Names(q[1..]);
      assert |q| > 1 ==> q[1..][|q|-2] == q[|q|-1];
      if rest != [] { assert rest == [rest[0]] + rest[1..]; }
    }
  }

  /** On the way along the target path only objects are entered from an array. */
  lemma HitThroughElement(es: seq<Row>, rest: seq<string>, only: Only, q: Path)
    requires q != [] && q[0].Idx? && q[0].index < |es| && rest != []
    ensures Hit(Arr(es), rest, only, q) <==> es[q[0].index].Obj? && Hit(es[q[0].index], rest, only, q[1..])
  {
    var e, t := es[q[0].index], q[1..];
    assert Get(Arr(es), q) == Get(e, t);
    if t == [] {
      NamesCons(q);
      assert q == [q[0]];
    } else if t[0].Idx? {
      NamesCons(q);
      if NestedOnlyAtTheEnd(q) { DoubleStart(q); }
    } else {
      HitThroughNamed(es, rest, only, q);
    }
  }

  lemma HitThroughNamed(es: seq<Row>, rest: seq<string>, only: Only, q: Path)
    requires |q| > 1 && q[0].Idx? && q[0].index < |es| && q[1].Name?
    ensures Hit(Arr(es), rest, only, q) <==> es[q[0].index].Obj? && Hit(es[q[0].index], rest, only, q[1..])
  {
    var t := q[1..];
    NamesCons(q);
    assert Get(Arr(es), q) == Get(es[q[0].index], t);
    assert t[|t|-1] == q[|q|-1] && t[0] == q[1];
  }

  lemma DoubleStart(q: Path)
    requires |q| > 1 && q[0].Idx? && q[1].Idx? && NestedOnlyAtTheEnd(q)
    ensures Names(q) == [] && q[|q|-1].Idx?
  {
    NoNames(q);
    forall i | 0 <= i < |q| ensures q[i].Idx? {
      assert i >= 1 ==> q[1-1].Idx? && q[1].Idx?;
    }
  }

  /** At the end of it every element counts, and arrays in arrays are entered. */
  lemma HitLastElement(es: seq<Row>, only: Only, q: Path)
    requires q != [] && q[0].Idx? && q[0].index < |es|
    ensures var e := es[q[0].index];
            Hit(Arr(es), [], only, q) <==>
              if e.Arr? then Hit(e, [], only, q[1..]) else q[1..] == [] && MatchFound(e, only)
  {
    var e, t := es[q[0].index], q[1..];
    assert Get(Arr(es), q) == Get(e, t);
    AllIndices(q, t);
    if t == [] {
      assert q == [q[0]];
    } else {
      assert t[|t|-1] == q[|q|-1] && t[0] == q[1];
    }
  }

  lemma AllIndices(q: Path, t: Path)
    requires q != [] && q[0].Idx? && t == q[1..]
    ensures Names(q) == Names(t)
    ensures Names(q) == [] ==>
              NestedOnlyAtTheEnd(q) && NestedOnlyAtTheEnd(t) && (forall i :: 0 <= i < |q| ==> q[i].Idx?)
  {
    NoNames(q);
    NoNames(t);
  }

  /** No path leads to a placeholder; and with values to match, just those paths are listed
      that lead to one of them. */
  lemma MatchesAskedFor(row: Row, path: seq<string>, vs: seq<Row>, q: Path)
    ensures q in Matches(row, path, None) ==>
              Get(row, q).Some? && Get(row, q).value != Leaf(Str("FIDESOPS_DO_NOT_MASK"))
    ensures q in Matches(row, path, Some(vs)) <==>
              q in Matches(row, path, None) && Get(row, q).Some? && (vs == [] || Get(row, q).value in vs)
  {
    MatchesExact(row, path, None, q);
    MatchesExact(row, path, Some(vs), q);
  }

  /** A row's refined paths are exactly its hits. */
  lemma MatchesExact(row: Row, path: seq<string>, only: Only, q: Path)
    ensures q in Matches(row, path, only) <==> row.Obj? && Hit(row, path, only, q)
  {
    if row.Obj? { BelowExact(row, path, only, q); }
  }

  // ----- Document order

  /** Where the two paths part, the first takes the smaller index. */
  ghost predicate Before(p: Path, q: Path) {
    exists d :: 0 <= d < |p| && d < |q| && p[..d] == q[..d] && IndexBefore(p[d], q[d])
  }

  predicate IndexBefore(a: Level, b: Level) {
    a.Idx? && b.Idx? && a.index < b.index
  }

  ghost predicate InOrder(ps: seq<Path>) {
    forall a, b :: 0 <= a < b < |ps| ==> Before(ps[a], ps[b])
  }

  lemma PrefixedInOrder(l: Level, ps: seq<Path>)
    requires InOrder(ps)
    ensures InOrder(Prefixed(l, ps))
  {
    var r := Prefixed(l, ps);
    forall a, b | 0 <= a < b < |r| ensures Before(r[a], r[b]) {
      assert Before(ps[a], ps[b]);
      var d :| 0 <= d < |ps[a]| && d < |ps[b]| && ps[a][..d] == ps[b][..d] && IndexBefore(ps[a][d], ps[b][d]);
      assert r[a][..d+1] == [l] + ps[a][..d] && r[b][..d+1] == [l] + ps[b][..d];
      assert IndexBefore(r[a][d+1], r[b][d+1]);
    }
  }

  lemma {:induction false} InArrayInOrder(es: seq<Row>, rest: seq<string>, only: Only)
    ensures InOrder(InArray(es, rest, only))
    decreases es, 0
  {
    if es != [] {
      var n := |es| - 1;
      var before, last := InArray(es[..n], rest, only), Prefixed(Idx(n), Item(es[n], rest, only));
      InArrayInOrder(es[..n], rest, only);
      ItemInOrder(es[n], rest, only);
      PrefixedInOrder(Idx(n), Item(es[n], rest, only));
      forall a, b | 0 <= a < |before| && 0 <= b < |last| ensures Before(before[a], last[b]) {
        InInArray(es[..n], rest, only, before[a]);
        assert before[a][..0] == last[b][..0] && IndexBefore(before[a][0], last[b][0]);
      }
      JoinInOrder(before, last);
    }
  }

  lemma JoinInOrder(before: seq<Path>, last: seq<Path>)
    requires InOrder(before) && InOrder(last)
    requires forall a, b :: 0 <= a < |before| && 0 <= b < |last| ==> Before(before[a], last[b])
    ensures InOrder(before + last)
  {
    var all := before + last;
    forall a, b | 0 <= a < b < |all| ensures Before(all[a], all[b]) {
      if b < |before| {
        assert Before(before[a], before[b]);
      } else if a < |before| {
        assert Before(before[a], last[b - |before|]);
      } else {
        assert Before(last[a - |before|], last[b - |before|]);
      }
    }
  }

  lemma {:induction false} ItemInOrder(e: Row, rest: seq<string>, only: Only)
    ensures InOrder(Item(e, rest, only))
    decreases e, 2
  {
    if rest != [] {
      if e.Obj? { BelowInOrder(e, rest, only); }
    } else if e.Arr? {
      InArrayInOrder(e.elems, [], only);
    }
  }

  lemma {:induction false} BelowInOrder(v: Row, rest: seq<string>, only: Only)
    ensures InOrder(Below(v, rest, only))
    decreases v, 1
  {
    match v
    case Leaf(_) =>
    case Obj(m) =>
      if rest != [] && rest[0] in m {
        BelowInOrder(m[rest[0]], rest[1..], only);
        PrefixedInOrder(Name(rest[0]), Below(m[rest[0]], rest[1..], only));
      }
    case Arr(es) => InArrayInOrder(es, rest, only);
  }

  /** The refined paths come in document order, so none is listed twice. */
  lemma MatchesInOrder(row: Row, path: seq<string>, only: Only)
    ensures InOrder(Matches(row, path, only))
  {
    BelowInOrder(row, path, only);
  }
}
