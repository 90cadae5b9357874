/** Filtering the arrays of a row down to the elements that matched a query. */
module FilterElements {
  import opened Common
  import opened Rows
  import opened RefinePath

  /** Unmatched elements are deleted, or replaced by a placeholder. */
  datatype Mode = Delete | Replace

  // ----- The filter in one pass

  /** What the paths of a set say about the value at `p`. */
  function Under(paths: set<Path>, p: Path): set<Path> {
    set q: Path | q in paths && p <= q :: q[|p|..]
  }

  /** The indices with which paths of the set continue. */
  function Indices(paths: set<Path>): set<nat> {
    set q: Path | q in paths && q != [] && q[0].Idx? :: q[0].index
  }

  /** The elements from index `i` on, those not to be kept deleted or replaced. */
  function Kept(es: seq<Row>, i: nat, keep: set<nat>, mode: Mode): seq<Row>
    requires i <= |es|
    decreases |es| - i
  {
    if i == |es| then []
    else (if i in keep then [es[i]] else if mode == Delete then [] else [PLACEHOLDER])
         + Kept(es, i + 1, keep, mode)
  }

  /** In every array that some matched path crosses, keep just the elements on a
      matched path; leave everything else alone. */
  function FilterRow(v: Row, matched: set<Path>, mode: Mode): Row {
    match v
    case Leaf(_) => v
    case Obj(m) => Obj(map k | k in m :: FilterRow(m[k], Under(matched, [Name(k)]), mode))
    case Arr(es) =>
      if Indices(matched) == {} then v
      else
        var fs := seq(|es|, i requires 0 <= i < |es| => FilterRow(es[i], Under(matched, [Idx(i)]), mode));
        Arr(Kept(fs, 0, Indices(matched), mode))
  }

  // ----- The filter after some of the arrays have been edited

  /** As `FilterRow`, but only the arrays at the paths `edited` have lost elements. */
  function Partly(v: Row, matched: set<Path>, edited: set<Path>, mode: Mode): Row {
    match v
    case Leaf(_) => v
    case Obj(m) =>
      Obj(map k | k in m :: Partly(m[k], Under(matched, [Name(k)]), Under(edited, [Name(k)]), mode))
    case Arr(es) =>
      var fs := seq(|es|, i requires 0 <= i < |es| =>
                    Partly(es[i], Under(matched, [Idx(i)]), Under(edited, [Idx(i)]), mode));
      if [] in edited then Arr(Kept(fs, 0, Indices(matched), mode)) else Arr(fs)
  }

  lemma UnderUnder(paths: set<Path>, l: Level, p: Path)
    ensures Under(Under(paths, [l]), p) == Under(paths, [l] + p)
  {
    forall q | q in Under(Under(paths, [l]), p) ensures q in Under(paths, [l] + p) {
      var r :| r in Under(paths, [l]) && p <= r && r[|p|..] == q;
      var s :| s in paths && [l] <= s && s[1..] == r;
      assert [l] + p <= s && s[|[l] + p|..] == q;
    }
    forall q | q in Under(paths, [l] + p) ensures q in Under(Under(paths, [l]), p) {
      var s :| s in paths && [l] + p <= s && s[|[l] + p|..] == q;
      assert [l] <= s && s[1..] in Under(paths, [l]);
      assert p <= s[1..] && s[1..][|p|..] == q;
    }
  }

  lemma UnderAdd(edited: set<Path>, p: Path, l: Level)
    ensures Under(edited + {p}, [l])
         == if p != [] && p[0] == l then Under(edited, [l]) + {p[1..]} else Under(edited, [l])
  {
    forall q | q in Under(edited + {p}, [l])
      ensures q in Under(edited, [l]) || (p != [] && p[0] == l && q == p[1..])
    {
      var s :| s in edited + {p} && [l] <= s && s[1..] == q;
      assert s[0] == l;
    }
    if p != [] && p[0] == l { assert [l] <= p && p[1..] in Under(edited + {p}, [l]); }
  }

  lemma UnderShorter(edited: set<Path>, l: Level, n: nat)
    requires forall q :: q in edited ==> |q| >= n + 1
    ensures forall q :: q in Under(edited, [l]) ==> |q| >= n
  {
  }

  /** Editing the array at `p` after those at `edited` is editing the array that stands
      at `p` by then; that array is still there. */
  ghost predicate EditsInPlace(v: Row, matched: set<Path>, edited: set<Path>, p: Path, mode: Mode) {
    var w := Partly(v, matched, edited, mode);
    && Get(w, p).Some? && Get(w, p).value.Arr?
    && Partly(v, matched, edited + {p}, mode)
       == Put(w, p, Arr(Kept(Get(w, p).value.elems, 0, Indices(Under(matched, p)), mode)))
  }

  lemma EditHere(es: seq<Row>, matched: set<Path>, edited: set<Path>, mode: Mode)
    requires [] !in edited
    ensures EditsInPlace(Arr(es), matched, edited, [], mode)
  {
    UnderNothing(matched);
    forall i | 0 <= i < |es| ensures Under(edited + {[]}, [Idx(i)]) == Under(edited, [Idx(i)]) {
      UnderAdd(edited, [], Idx(i));
    }
    var fs := seq(|es|, i requires 0 <= i < |es| =>
                  Partly(es[i], Under(matched, [Idx(i)]), Under(edited, [Idx(i)]), mode));
    var gs := seq(|es|, i requires 0 <= i < |es| =>
                  Partly(es[i], Under(matched, [Idx(i)]), Under(edited + {[]}, [Idx(i)]), mode));
    assert fs == gs;
  }

  lemma UnderNothing(paths: set<Path>)
    ensures Under(paths, []) == paths
  {
    forall q | q in paths ensures q in Under(paths, []) { assert [] <= q && q[0..] == q; }
  }

  lemma EditInField(m: map<string, Row>, k: string, matched: set<Path>, edited: set<Path>, p: Path, mode: Mode)
    requires k in m && [] !in edited
    requires EditsInPlace(m[k], Under(matched, [Name(k)]), Under(edited, [Name(k)]), p, mode)
    ensures EditsInPlace(Obj(m), matched, edited, [Name(k)] + p, mode)
  {
    var q := [Name(k)] + p;
    assert q[1..] == p;
    UnderUnder(matched, Name(k), p);
    forall j | j in m
      ensures Under(edited + {q}, [Name(j)])
           == if j == k then Under(edited, [Name(j)]) + {p} else Under(edited, [Name(j)])
    {
      UnderAdd(edited, q, Name(j));
    }
    var w, w' := Partly(Obj(m), matched, edited, mode), Partly(Obj(m), matched, edited + {q}, mode);
    var x := Arr(Kept(Get(w, q).value.elems, 0, Indices(Under(matched, q)), mode));
    assert w'.fields == w.fields[k := Put(w.fields[k], p, x)];
  }

  lemma EditInElement(es: seq<Row>, i: nat, matched: set<Path>, edited: set<Path>, p: Path, mode: Mode)
    requires i < |es| && [] !in edited
    requires EditsInPlace(es[i], Under(matched, [Idx(i)]), Under(edited, [Idx(i)]), p, mode)
    ensures EditsInPlace(Arr(es), matched, edited, [Idx(i)] + p, mode)
  {
    var q := [Idx(i)] + p;
    assert q[1..] == p;
    UnderUnder(matched, Idx(i), p);
    forall j | 0 <= j < |es|
      ensures Under(edited + {q}, [Idx(j)])
           == if j == i then Under(edited, [Idx(j)]) + {p} else Under(edited, [Idx(j)])
    {
      UnderAdd(edited, q, Idx(j));
    }
    var w, w' := Partly(Arr(es), matched, edited, mode), Partly(Arr(es), matched, edited + {q}, mode);
    var x := Arr(Kept(Get(w, q).value.elems, 0, Indices(Under(matched, q)), mode));
    assert w'.elems == w.elems[i := Put(w.elems[i], p, x)];
  }

  lemma {:induction false} EditOneMore(v: Row, matched: set<Path>, edited: set<Path>, p: Path, mode: Mode)
    requires p !in edited && forall q :: q in edited ==> |q| >= |p|
    requires Get(v, p).Some? && Get(v, p).value.Arr?
    ensures EditsInPlace(v, matched, edited, p, mode)
    decreases |p|
  {
    if p == [] {
      EditHere(v.elems, matched, edited, mode);
    } else {
      UnderShorter(edited, p[0], |p| - 1);
      NotUnder(edited, p);
      assert [p[0]] + p[1..] == p;
      match (v, p[0])
      case (Obj(m), Name(k)) =>
        EditOneMore(m[k], Under(matched, [p[0]]), Under(edited, [p[0]]), p[1..], mode);
        EditInField(m, k, matched, edited, p[1..], mode);
      case (Arr(es), Idx(i)) =>
        EditOneMore(es[i], Under(matched, [p[0]]), Under(edited, [p[0]]), p[1..], mode);
        EditInElement(es, i, matched, edited, p[1..], mode);
    }
  }

  lemma NotUnder(edited: set<Path>, p: Path)
    requires p != [] && p !in edited
    ensures p[1..] !in Under(edited, [p[0]])
  {
    assert p == [p[0]] + p[1..];
    forall s | s in edited && [p[0]] <= s ensures s[1..] != p[1..] {
      assert s == [p[0]] + s[1..];
    }
  }

  // ----- From no array edited to all of them

  /** The paths of the arrays that some matched path crosses. */
  ghost function ArrayPaths(matched: set<Path>): set<Path> {
    set q: Path, n: nat | q in matched && n < |q| && q[n].Idx? :: q[..n]
  }

  lemma InArrayPaths(matched: set<Path>, p: Path)
    ensures p in ArrayPaths(matched) <==> Indices(Under(matched, p)) != {}
  {
    if p in ArrayPaths(matched) {
      var q: Path, n: nat :| q in matched && n < |q| && q[n].Idx? && q[..n] == p;
      assert p <= q && q[|p|..] in Under(matched, p);
      assert q[|p|..][0].index in Indices(Under(matched, p));
    }
    if Indices(Under(matched, p)) != {} {
      var i :| i in Indices(Under(matched, p));
      var t: Path :| t in Under(matched, p) && t != [] && t[0].Idx? && t[0].index == i;
      var q: Path :| q in matched && p <= q && q[|p|..] == t;
      assert q[|p|] == t[0] && q[..|p|] == p;
    }
  }

  lemma ArrayPathsUnder(matched: set<Path>, l: Level)
    ensures Under(ArrayPaths(matched), [l]) == ArrayPaths(Under(matched, [l]))
  {
    forall p ensures p in Under(ArrayPaths(matched), [l]) <==> p in ArrayPaths(Under(matched, [l])) {
      InArrayPaths(matched, [l] + p);
      InArrayPaths(Under(matched, [l]), p);
      UnderUnder(matched, l, p);
      if p in Under(ArrayPaths(matched), [l]) {
        var q :| q in ArrayPaths(matched) && [l] <= q && q[1..] == p;
        assert q == [l] + p;
      }
      if [l] + p in ArrayPaths(matched) {
        assert [l] <= [l] + p && ([l] + p)[1..] == p;
      }
    }
  }

  lemma {:induction false} PartlyNone(v: Row, matched: set<Path>, mode: Mode)
    ensures Partly(v, matched, {}, mode) == v
  {
    assert forall l :: Under({}, [l]) == {};
    match v
    case Leaf(_) =>
    case Obj(m) =>
      forall k | k in m { PartlyNone(m[k], Under(matched, [Name(k)]), mode); }
    case Arr(es) =>
      forall i | 0 <= i < |es| ensures Partly(es[i], Under(matched, [Idx(i)]), Under({}, [Idx(i)]), mode) == es[i] {
        PartlyNone(es[i], Under(matched, [Idx(i)]), mode);
      }
  }

  lemma {:induction false} FilterNothing(v: Row, mode: Mode)
    ensures FilterRow(v, {}, mode) == v
  {
    assert forall l :: Under({}, [l]) == {};
    if v.Obj? {
      forall k | k in v.fields { FilterNothing(v.fields[k], mode); }
    }
  }

  lemma NoneUnder(matched: set<Path>, i: nat)
    requires i !in Indices(matched)
    ensures Under(matched, [Idx(i)]) == {}
  {
    assert forall q: Path :: q in matched && [Idx(i)] <= q ==> q[0] == Idx(i);
  }

  lemma {:induction false} PartlyAll(v: Row, matched: set<Path>, mode: Mode)
    ensures Partly(v, matched, ArrayPaths(matched), mode) == FilterRow(v, matched, mode)
  {
    match v
    case Leaf(_) =>
    case Obj(m) =>
      forall k | k in m
        ensures Partly(m[k], Under(matched, [Name(k)]), Under(ArrayPaths(matched), [Name(k)]), mode)
             == FilterRow(m[k], Under(matched, [Name(k)]), mode)
      {
        ArrayPathsUnder(matched, Name(k));
        PartlyAll(m[k], Under(matched, [Name(k)]), mode);
      }
    case Arr(es) =>
      UnderNothing(matched);
      InArrayPaths(matched, []);
      forall i | 0 <= i < |es|
        ensures Partly(es[i], Under(matched, [Idx(i)]), Under(ArrayPaths(matched), [Idx(i)]), mode)
             == FilterRow(es[i], Under(matched, [Idx(i)]), mode)
        ensures Indices(matched) == {} ==> FilterRow(es[i], Under(matched, [Idx(i)]), mode) == es[i]
      {
        ArrayPathsUnder(matched, Idx(i));
        PartlyAll(es[i], Under(matched, [Idx(i)]), mode);
        if Indices(matched) == {} {
          NoneUnder(matched, i);
          FilterNothing(es[i], mode);
        }
      }
      var fs := seq(|es|, i requires 0 <= i < |es| =>
                    Partly(es[i], Under(matched, [Idx(i)]), Under(ArrayPaths(matched), [Idx(i)]), mode));
      var gs := seq(|es|, i requires 0 <= i < |es| => FilterRow(es[i], Under(matched, [Idx(i)]), mode));
      assert fs == gs;
  }
}
