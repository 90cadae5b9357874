/** The two cached views of a row, and what erasure then masks. */
module Views {
  import opened Common
  import opened Rows
  import opened RefinePath
  import opened FilterElements

  // ----- Removing placeholders from one view gives the other

  /** Drops placeholder elements from every array. */
  function Strip(v: Row): Row {
    match v
    case Leaf(_) => v
    case Obj(m) => Obj(map k | k in m :: Strip(m[k]))
    case Arr(es) => Arr(StripAll(es))
  }

  function StripAll(es: seq<Row>): seq<Row> {
    if es == [] then []
    else (if es[0] == PLACEHOLDER then [] else [Strip(es[0])]) + StripAll(es[1..])
  }

  /** No array of the row has a placeholder element. */
  predicate Clean(v: Row) {
    match v
    case Leaf(_) => true
    case Obj(m) => forall k | k in m :: Clean(m[k])
    case Arr(es) => forall i | 0 <= i < |es| :: es[i] != PLACEHOLDER && Clean(es[i])
  }

  lemma {:induction false} StripAllAppend(es: seq<Row>, fs: seq<Row>)
    ensures StripAll(es + fs) == StripAll(es) + StripAll(fs)
    decreases |es|
  {
    if es == [] {
      assert es + fs == fs;
    } else {
      StripAllAppend(es[1..], fs);
      var both := es + fs;
      assert both[1..] == es[1..] + fs && both[0] == es[0];
      var first := if es[0] == PLACEHOLDER then [] else [Strip(es[0])];
      assert StripAll(es) == first + StripAll(es[1..]);
      assert StripAll(both) == first + (StripAll(es[1..]) + StripAll(fs));
    }
  }

  lemma {:induction false} StripLonger(es: seq<Row>)
    ensures |StripAll(es)| <= |es|
    decreases |es|
  {
    if es != [] { StripLonger(es[1..]); }
  }

  lemma {:induction false} StripAllFixed(es: seq<Row>)
    requires forall i :: 0 <= i < |es| ==> (Strip(es[i]) == es[i] <==> Clean(es[i]))
    ensures StripAll(es) == es <==> forall i :: 0 <= i < |es| ==> es[i] != PLACEHOLDER && Clean(es[i])
    decreases |es|
  {
    if es != [] {
      StripAllFixed(es[1..]);
      StripLonger(es[1..]);
      assert es == [es[0]] + es[1..];
      if es[0] != PLACEHOLDER {
        assert StripAll(es) == [Strip(es[0])] + StripAll(es[1..]);
        assert StripAll(es) == es ==> StripAll(es)[0] == es[0] && StripAll(es)[1..] == es[1..];
      } else {
        assert |StripAll(es)| < |es|;
      }
      assert (forall i :: 0 <= i < |es| ==> es[i] != PLACEHOLDER && Clean(es[i]))
        <==> (es[0] != PLACEHOLDER && Clean(es[0])
              && forall i :: 0 <= i < |es[1..]| ==> es[1..][i] != PLACEHOLDER && Clean(es[1..][i])) by {
        if es[0] != PLACEHOLDER && Clean(es[0])
           && forall i :: 0 <= i < |es[1..]| ==> es[1..][i] != PLACEHOLDER && Clean(es[1..][i]) {
          forall i | 0 <= i < |es| ensures es[i] != PLACEHOLDER && Clean(es[i]) {
            if i > 0 { assert es[i] == es[1..][i-1]; }
          }
        }
      }
    }
  }

  /** Stripping changes nothing just when there is nothing to strip. */
  lemma {:induction false} StripFixed(v: Row)
    ensures Strip(v) == v <==> Clean(v)
  {
    match v
    case Leaf(_) =>
    case Obj(m) =>
      forall k | k in m { StripFixed(m[k]); }
      if Strip(v) == v {
        forall k | k in m ensures Clean(m[k]) { assert Strip(v).fields[k] == Strip(m[k]); }
      }
      if Clean(v) {
        assert Strip(v).fields == m;
      }
    case Arr(es) =>
      forall i | 0 <= i < |es| { StripFixed(es[i]); }
      StripAllFixed(es);
  }

  lemma {:induction false} KeptStripped(es: seq<Row>, fs: seq<Row>, i: nat, keep: set<nat>)
    requires |es| == |fs| && i <= |es|
    requires forall j :: 0 <= j < |es| ==>
               Strip(es[j]) == Strip(fs[j]) && (es[j] == PLACEHOLDER <==> fs[j] == PLACEHOLDER)
    ensures StripAll(Kept(es, i, keep, Replace)) == StripAll(Kept(fs, i, keep, Delete))
    decreases |es| - i
  {
    if i < |es| {
      KeptStripped(es, fs, i + 1, keep);
      var r, d := Kept(es, i + 1, keep, Replace), Kept(fs, i + 1, keep, Delete);
      if i in keep {
        StripAllAppend([es[i]], r);
        StripAllAppend([fs[i]], d);
      } else {
        StripAllAppend([PLACEHOLDER], r);
        assert [] + d == d;
      }
    }
  }

  lemma FilterPlaceholder(v: Row, matched: set<Path>, mode: Mode)
    ensures FilterRow(v, matched, mode) == PLACEHOLDER <==> v == PLACEHOLDER
  {
  }

  /** The two filters differ in placeholder elements only. */
  lemma {:induction false} SameStripped(v: Row, matched: set<Path>)
    ensures Strip(FilterRow(v, matched, Replace)) == Strip(FilterRow(v, matched, Delete))
  {
    match v
    case Leaf(_) =>
    case Obj(m) =>
      forall k | k in m { SameStripped(m[k], Under(matched, [Name(k)])); }
    case Arr(es) =>
      if Indices(matched) != {} {
        var r := seq(|es|, i requires 0 <= i < |es| => FilterRow(es[i], Under(matched, [Idx(i)]), Replace));
        var d := seq(|es|, i requires 0 <= i < |es| => FilterRow(es[i], Under(matched, [Idx(i)]), Delete));
        forall i | 0 <= i < |es|
          ensures Strip(r[i]) == Strip(d[i]) && (r[i] == PLACEHOLDER <==> d[i] == PLACEHOLDER)
        {
          SameStripped(es[i], Under(matched, [Idx(i)]));
          FilterPlaceholder(es[i], Under(matched, [Idx(i)]), Replace);
          FilterPlaceholder(es[i], Under(matched, [Idx(i)]), Delete);
        }
        KeptStripped(r, d, 0, Indices(matched));
      }
  }

  // ----- Paths through replaced elements

  /** The path goes through an element that was replaced: some array on it is crossed by
      matched paths, none of which takes the path's index. */
  ghost predicate PassesReplaced(matched: set<Path>, q: Path) {
    exists n: nat :: n < |q| && ReplacedAt(matched, q, n)
  }

  ghost predicate ReplacedAt(matched: set<Path>, q: Path, n: nat)
    requires n < |q|
  {
    q[n].Idx? && Indices(Under(matched, q[..n])) != {} && q[n].index !in Indices(Under(matched, q[..n]))
  }

  ghost predicate ReplacesHere(matched: set<Path>, l: Level) {
    l.Idx? && Indices(matched) != {} && l.index !in Indices(matched)
  }

  lemma PassesReplacedCons(matched: set<Path>, q: Path)
    requires q != []
    ensures PassesReplaced(matched, q) <==>
              ReplacesHere(matched, q[0]) || PassesReplaced(Under(matched, [q[0]]), q[1..])
  {
    UnderNothing(matched);
    assert q[..0] == [];
    assert ReplacedAt(matched, q, 0) <==> ReplacesHere(matched, q[0]);
    forall n: nat | 0 < n < |q|
      ensures ReplacedAt(matched, q, n) <==> ReplacedAt(Under(matched, [q[0]]), q[1..], n - 1)
    {
      assert q[..n] == [q[0]] + q[1..][..n-1];
      UnderUnder(matched, q[0], q[1..][..n-1]);
    }
    if PassesReplaced(Under(matched, [q[0]]), q[1..]) {
      var n: nat :| n < |q[1..]| && ReplacedAt(Under(matched, [q[0]]), q[1..], n);
      assert ReplacedAt(matched, q, n + 1);
    }
  }

  // ----- When the two views agree

  lemma CleanCons(e: Row, es: seq<Row>)
    ensures Clean(Arr([e] + es)) <==> e != PLACEHOLDER && Clean(e) && Clean(Arr(es))
  {
    var all := [e] + es;
    assert all[0] == e && all[1..] == es;
    assert forall i :: 0 <= i < |es| ==> es[i] == all[i+1];
  }

  lemma {:induction false} CleanKept(es: seq<Row>, i: nat, keep: set<nat>)
    requires i <= |es|
    ensures Clean(Arr(Kept(es, i, keep, Delete))) <==>
              forall j :: i <= j < |es| && j in keep ==> es[j] != PLACEHOLDER && Clean(es[j])
    decreases |es| - i
  {
    if i < |es| {
      CleanKept(es, i + 1, keep);
      var rest := Kept(es, i + 1, keep, Delete);
      if i in keep { CleanCons(es[i], rest); } else { assert [] + rest == rest; }
    }
  }

  /** An array of the access view is clean just when every element that is kept is. */
  lemma CleanArray(es: seq<Row>, matched: set<Path>)
    ensures Clean(FilterRow(Arr(es), matched, Delete)) <==>
              forall i :: 0 <= i < |es| && !ReplacesHere(matched, Idx(i)) ==>
                es[i] != PLACEHOLDER && Clean(FilterRow(es[i], Under(matched, [Idx(i)]), Delete))
  {
    forall i | 0 <= i < |es| { FilterPlaceholder(es[i], Under(matched, [Idx(i)]), Delete); }
    if Indices(matched) == {} {
      forall i | 0 <= i < |es| ensures FilterRow(es[i], Under(matched, [Idx(i)]), Delete) == es[i] {
        NoneUnder(matched, i);
        FilterNothing(es[i], Delete);
      }
    } else {
      var d := seq(|es|, i requires 0 <= i < |es| => FilterRow(es[i], Under(matched, [Idx(i)]), Delete));
      CleanKept(d, 0, Indices(matched));
    }
  }

  /** Every array element of the row that is a placeholder is inside a replaced element. */
  ghost predicate PlaceholdersReplaced(v: Row, matched: set<Path>) {
    forall q :: Hidden(v, q) ==> PassesReplaced(matched, q)
  }

  predicate Hidden(v: Row, q: Path) {
    q != [] && q[|q|-1].Idx? && Get(v, q) == Some(PLACEHOLDER)
  }

  lemma ReplacedBelow(v: Row, matched: set<Path>, l: Level)
    requires PlaceholdersReplaced(v, matched) && Get(v, [l]).Some? && !ReplacesHere(matched, l)
    ensures PlaceholdersReplaced(Get(v, [l]).value, Under(matched, [l]))
  {
    forall q | Hidden(Get(v, [l]).value, q) ensures PassesReplaced(Under(matched, [l]), q) {
      var p := [l] + q;
      GetAppend(v, [l], q);
      assert p[|p|-1] == q[|q|-1] && p[1..] == q;
      assert Hidden(v, p);
      PassesReplacedCons(matched, p);
    }
  }

  lemma ReplacedAbove(v: Row, matched: set<Path>, p: Path)
    requires Hidden(v, p) && Get(v, [p[0]]).Some?
    requires !ReplacesHere(matched, p[0]) ==>
               |p| > 1 && PlaceholdersReplaced(Get(v, [p[0]]).value, Under(matched, [p[0]]))
    ensures PassesReplaced(matched, p)
  {
    var l, q := p[0], p[1..];
    assert p == [l] + q;
    GetAppend(v, [l], q);
    PassesReplacedCons(matched, p);
    if !ReplacesHere(matched, l) { assert Hidden(Get(v, [l]).value, q); }
  }

  lemma ReplacedInObject(m: map<string, Row>, matched: set<Path>)
    ensures PlaceholdersReplaced(Obj(m), matched) <==>
              forall k :: k in m ==> PlaceholdersReplaced(m[k], Under(matched, [Name(k)]))
  {
    if PlaceholdersReplaced(Obj(m), matched) {
      forall k | k in m ensures PlaceholdersReplaced(m[k], Under(matched, [Name(k)])) {
        GetOne(Obj(m), Name(k));
        ReplacedBelow(Obj(m), matched, Name(k));
      }
    }
    if forall k :: k in m ==> PlaceholdersReplaced(m[k], Under(matched, [Name(k)])) {
      forall p | Hidden(Obj(m), p) ensures PassesReplaced(matched, p) {
        GetOne(Obj(m), p[0]);
        ReplacedAbove(Obj(m), matched, p);
      }
    }
  }

  lemma ReplacedInArray(es: seq<Row>, matched: set<Path>)
    ensures PlaceholdersReplaced(Arr(es), matched) <==>
              forall i :: 0 <= i < |es| && !ReplacesHere(matched, Idx(i)) ==>
                es[i] != PLACEHOLDER && PlaceholdersReplaced(es[i], Under(matched, [Idx(i)]))
  {
    if PlaceholdersReplaced(Arr(es), matched) {
      forall i | 0 <= i < |es| && !ReplacesHere(matched, Idx(i))
        ensures es[i] != PLACEHOLDER && PlaceholdersReplaced(es[i], Under(matched, [Idx(i)]))
      {
        GetOne(Arr(es), Idx(i));
        ReplacedBelow(Arr(es), matched, Idx(i));
        PassesReplacedCons(matched, [Idx(i)]);
        assert !Hidden(Arr(es), [Idx(i)]);
      }
    }
    if forall i :: 0 <= i < |es| && !ReplacesHere(matched, Idx(i)) ==>
         es[i] != PLACEHOLDER && PlaceholdersReplaced(es[i], Under(matched, [Idx(i)]))
    {
      forall p | Hidden(Arr(es), p) ensures PassesReplaced(matched, p) {
        GetOne(Arr(es), p[0]);
        assert |p| == 1 ==> p == [p[0]];
        ReplacedAbove(Arr(es), matched, p);
      }
    }
  }

  lemma GetOne(v: Row, l: Level)
    ensures Get(v, [l]) ==
              match (v, l)
              case (Obj(m), Name(k)) => if k in m then Some(m[k]) else None
              case (Arr(es), Idx(i)) => if i < |es| then Some(es[i]) else None
              case _ => None
  {
    assert [l][1..] == [];
  }

  /** The access view is clean just when every placeholder is inside a replaced element. */
  lemma {:induction false} CleanAccess(v: Row, matched: set<Path>)
    ensures Clean(FilterRow(v, matched, Delete)) <==> PlaceholdersReplaced(v, matched)
    decreases v
  {
    match v
    case Leaf(_) =>
    case Obj(m) =>
      forall k | k in m { CleanAccess(m[k], Under(matched, [Name(k)])); }
      ReplacedInObject(m, matched);
      var d := FilterRow(v, matched, Delete).fields;
      assert d.Keys == m.Keys;
      assert forall k :: k in m ==> d[k] == FilterRow(m[k], Under(matched, [Name(k)]), Delete);
    case Arr(es) =>
      forall i | 0 <= i < |es| { CleanAccess(es[i], Under(matched, [Idx(i)])); }
      ReplacedInArray(es, matched);
      CleanArray(es, matched);
  }

  /** Taking the placeholders out of the erasure view gives the access view, just when
      every placeholder element the row already had is inside an element that was replaced. */
  lemma ViewsAgree(row: Row, matched: set<Path>)
    ensures Strip(FilterRow(row, matched, Replace)) == FilterRow(row, matched, Delete)
            <==> PlaceholdersReplaced(row, matched)
  {
    SameStripped(row, matched);
    StripFixed(FilterRow(row, matched, Delete));
    CleanAccess(row, matched);
  }

  lemma {:induction false} CleanHidesNothing(v: Row, q: Path)
    requires Clean(v)
    ensures !Hidden(v, q)
    decreases |q|
  {
    if q != [] && Get(v, q).Some? {
      GetOne(v, q[0]);
      assert q == [q[0]] + q[1..];
      GetAppend(v, [q[0]], q[1..]);
      CleanHidesNothing(Get(v, [q[0]]).value, q[1..]);
    }
  }

  /** In particular, on rows that had no placeholder element to begin with. */
  lemma ViewsAgreeOnCleanRows(row: Row, matched: set<Path>)
    requires Clean(row)
    ensures Strip(FilterRow(row, matched, Replace)) == FilterRow(row, matched, Delete)
  {
    forall q ensures !Hidden(row, q) { CleanHidesNothing(row, q); }
    ViewsAgree(row, matched);
  }

  // ----- Places in the erasure view

  lemma {:induction false} KeptReplaced(es: seq<Row>, i: nat, keep: set<nat>)
    requires i <= |es|
    ensures |Kept(es, i, keep, Replace)| == |es| - i
    ensures forall j :: i <= j < |es| ==>
              Kept(es, i, keep, Replace)[j - i] == if j in keep then es[j] else PLACEHOLDER
    decreases |es| - i
  {
    if i < |es| { KeptReplaced(es, i + 1, keep); }
  }

  /** An array of the erasure view has the length of the original, each element in its
      place: filtered in turn if kept, the placeholder if not. */
  lemma ArrayInPlace(es: seq<Row>, matched: set<Path>)
    ensures var w := FilterRow(Arr(es), matched, Replace);
            && w.Arr? && |w.elems| == |es|
            && forall i :: 0 <= i < |es| ==>
                 w.elems[i] == if ReplacesHere(matched, Idx(i)) then PLACEHOLDER
                               else FilterRow(es[i], Under(matched, [Idx(i)]), Replace)
  {
    if Indices(matched) == {} {
      forall i | 0 <= i < |es| ensures FilterRow(es[i], Under(matched, [Idx(i)]), Replace) == es[i] {
        NoneUnder(matched, i);
        FilterNothing(es[i], Replace);
      }
    } else {
      var fs := seq(|es|, i requires 0 <= i < |es| => FilterRow(es[i], Under(matched, [Idx(i)]), Replace));
      KeptReplaced(fs, 0, Indices(matched));
    }
  }

  /** At every path of the row that goes through no replaced element, the erasure view
      has the filtered value, so arrays there have kept their length and indices. */
  lemma {:induction false} PositionsKept(v: Row, matched: set<Path>, q: Path)
    requires Get(v, q).Some? && !PassesReplaced(matched, q)
    ensures Get(FilterRow(v, matched, Replace), q)
         == Some(FilterRow(Get(v, q).value, Under(matched, q), Replace))
    decreases |q|
  {
    if q == [] {
      UnderNothing(matched);
    } else {
      PassesReplacedCons(matched, q);
      UnderUnder(matched, q[0], q[1..]);
      assert [q[0]] + q[1..] == q;
      match (v, q[0])
      case (Obj(m), Name(k)) => PositionsKept(m[k], Under(matched, [q[0]]), q[1..]);
      case (Arr(es), Idx(i)) =>
        ArrayInPlace(es, matched);
        PositionsKept(es[i], Under(matched, [q[0]]), q[1..]);
    }
  }

  // ----- What erasure masks

  /** The paths of a list that go through no replaced element. */
  ghost function Surviving(ps: seq<Path>, matched: set<Path>): seq<Path> {
    if ps == [] then []
    else Surviving(ps[..|ps|-1], matched)
         + if PassesReplaced(matched, ps[|ps|-1]) then [] else [ps[|ps|-1]]
  }

  lemma {:induction false} SurvivingAppend(ps: seq<Path>, qs: seq<Path>, matched: set<Path>)
    ensures Surviving(ps + qs, matched) == Surviving(ps, matched) + Surviving(qs, matched)
    decreases |qs|
  {
    if qs == [] {
      assert ps + qs == ps;
    } else {
      var n := |qs| - 1;
      assert (ps + qs)[..|ps + qs|-1] == ps + qs[..n];
      SurvivingAppend(ps, qs[..n], matched);
    }
  }

  lemma {:induction false} SurvivingPrefixed(l: Level, ps: seq<Path>, matched: set<Path>)
    ensures Surviving(Prefixed(l, ps), matched)
         == if ReplacesHere(matched, l) then [] else Prefixed(l, Surviving(ps, Under(matched, [l])))
    decreases |ps|
  {
    if ps != [] {
      var n := |ps| - 1;
      SurvivingPrefixed(l, ps[..n], matched);
      assert Prefixed(l, ps)[..n] == Prefixed(l, ps[..n]);
      PassesReplacedCons(matched, [l] + ps[n]);
      assert ([l] + ps[n])[1..] == ps[n];
    }
  }

  lemma {:induction false} BelowSurviving(v: Row, rest: seq<string>, matched: set<Path>)
    ensures Below(FilterRow(v, matched, Replace), rest, None) == Surviving(Below(v, rest, None), matched)
    decreases v, 1
  {
    match v
    case Leaf(_) =>
    case Obj(m) =>
      if rest != [] && rest[0] in m {
        var l := Name(rest[0]);
        BelowSurviving(m[rest[0]], rest[1..], Under(matched, [l]));
        SurvivingPrefixed(l, Below(m[rest[0]], rest[1..], None), matched);
      }
    case Arr(es) =>
      ArrayInPlace(es, matched);
      var w := FilterRow(v, matched, Replace).elems;
      InArraySurviving(es, w, |es|, rest, matched);
      assert es[..|es|] == es && w[..|es|] == w;
  }

  lemma InArraySnoc(es: seq<Row>, i: nat, rest: seq<string>)
    requires i < |es|
    ensures InArray(es[..i+1], rest, None) == InArray(es[..i], rest, None) + Prefixed(Idx(i), Item(es[i], rest, None))
  {
    assert es[..i+1][..i] == es[..i];
  }

  lemma {:induction false} InArraySurviving(es: seq<Row>, w: seq<Row>, n: nat, rest: seq<string>, matched: set<Path>)
    requires n <= |es| && w == FilterRow(Arr(es), matched, Replace).elems && |w| == |es|
    ensures InArray(w[..n], rest, None) == Surviving(InArray(es[..n], rest, None), matched)
    decreases es, 0, n
  {
    if n > 0 {
      var i := n - 1;
      InArraySurviving(es, w, i, rest, matched);
      ArrayInPlace(es, matched);
      ElementSurviving(es[i], w[i], i, rest, matched);
      InArraySnoc(es, i, rest);
      InArraySnoc(w, i, rest);
      SurvivingAppend(InArray(es[..i], rest, None), Prefixed(Idx(i), Item(es[i], rest, None)), matched);
    }
  }

  lemma {:induction false} ElementSurviving(e: Row, f: Row, i: nat, rest: seq<string>, matched: set<Path>)
    requires f == if ReplacesHere(matched, Idx(i)) then PLACEHOLDER
                  else FilterRow(e, Under(matched, [Idx(i)]), Replace)
    ensures Prefixed(Idx(i), Item(f, rest, None)) == Surviving(Prefixed(Idx(i), Item(e, rest, None)), matched)
    decreases e, 3
  {
    SurvivingPrefixed(Idx(i), Item(e, rest, None), matched);
    if !ReplacesHere(matched, Idx(i)) {
      ItemSurviving(e, rest, Under(matched, [Idx(i)]));
    }
  }

  lemma {:induction false} ItemSurviving(e: Row, rest: seq<string>, matched: set<Path>)
    ensures Item(FilterRow(e, matched, Replace), rest, None) == Surviving(Item(e, rest, None), matched)
    decreases e, 2
  {
    BelowSurviving(e, rest, matched);
    FilterPlaceholder(e, matched, Replace);
  }

  /** The paths erasure masks in the placeholder row are exactly the paths of the
      original row for that field that go through no replaced element, in order. */
  lemma MaskedPaths(row: Row, path: seq<string>, matched: set<Path>)
    ensures Matches(FilterRow(row, matched, Replace), path, None) == Surviving(Matches(row, path, None), matched)
  {
    BelowSurviving(row, path, matched);
  }

  /** Nothing inside the value was replaced, or what was replaced was a placeholder. */
  ghost predicate Untouched(v: Row, matched: set<Path>) {
    match v
    case Leaf(_) => true
    case Obj(m) => forall k | k in m :: Untouched(m[k], Under(matched, [Name(k)]))
    case Arr(es) =>
      forall i | 0 <= i < |es| ::
        if ReplacesHere(matched, Idx(i)) then es[i] == PLACEHOLDER else Untouched(es[i], Under(matched, [Idx(i)]))
  }

  lemma {:induction false} UntouchedIsSame(v: Row, matched: set<Path>)
    ensures FilterRow(v, matched, Replace) == v <==> Untouched(v, matched)
  {
    var w := FilterRow(v, matched, Replace);
    match v
    case Leaf(_) =>
    case Obj(m) =>
      forall k | k in m { UntouchedIsSame(m[k], Under(matched, [Name(k)])); }
      if w == v {
        forall k | k in m ensures Untouched(m[k], Under(matched, [Name(k)])) { assert w.fields[k] == m[k]; }
      }
      if Untouched(v, matched) { assert w.fields == m; }
    case Arr(es) =>
      ArrayInPlace(es, matched);
      forall i | 0 <= i < |es| { UntouchedIsSame(es[i], Under(matched, [Idx(i)])); }
      if w == v {
        forall i | 0 <= i < |es|
          ensures if ReplacesHere(matched, Idx(i)) then es[i] == PLACEHOLDER
                  else Untouched(es[i], Under(matched, [Idx(i)]))
        {
          assert w.elems[i] == es[i];
        }
      }
      if Untouched(v, matched) { assert w.elems == es; }
  }

  /** A masked path has the same value in both rows just when nothing inside the value
      was replaced; scalars always do. */
  lemma MaskedValues(row: Row, matched: set<Path>, q: Path)
    requires Get(row, q).Some? && !PassesReplaced(matched, q)
    ensures var w := FilterRow(row, matched, Replace);
            && (Get(w, q) == Get(row, q) <==> Untouched(Get(row, q).value, Under(matched, q)))
            && (Get(row, q).value.Leaf? ==> Get(w, q) == Get(row, q))
  {
    PositionsKept(row, matched, q);
    UntouchedIsSame(Get(row, q).value, Under(matched, q));
  }
}
