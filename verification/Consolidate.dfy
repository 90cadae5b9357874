/** Collecting the values along a path, and how that compares with refining the path. */
module Consolidation {
  import opened Common
  import opened Rows
  import opened RefinePath

  /** All scalars met along the path, in order. */
  function Consolidate(v: Row, path: seq<string>): seq<Row>
    decreases v, 1
  {
    match v
    case Leaf(_) => [v]
    case Obj(m) => if path != [] && path[0] in m then Consolidate(m[path[0]], path[1..]) else []
    case Arr(es) => ConsolidateAll(es, path)
  }

  function ConsolidateAll(es: seq<Row>, path: seq<string>): seq<Row>
    decreases es, 0
  {
    if es == [] then [] else ConsolidateAll(es[..|es|-1], path) + Consolidate(es[|es|-1], path)
  }

  /** Appends to the list handed on from call to call. */
  method ConsolidateQueryMatches(row: Row, path: seq<string>, flattened: seq<Row>) returns (out: seq<Row>)
    ensures out == flattened + Consolidate(row, path)
    decreases row
  {
    out := flattened;
    match row
    case Arr(es) =>
      for i := 0 to |es|
        invariant out == flattened + ConsolidateAll(es[..i], path)
      {
        assert es[..i+1][..i] == es[..i];
        out := ConsolidateQueryMatches(es[i], path, out);
      }
      assert es[..|es|] == es;
    case Obj(m) =>
      var keys := m.Keys;
      while keys != {}
        invariant keys <= m.Keys
        invariant out == flattened + if path != [] && path[0] in m && path[0] !in keys
                                     then Consolidate(m[path[0]], path[1..]) else []
      {
        var key :| key in keys;
        keys := keys - {key};
        if path != [] && key == path[0] {
          out := ConsolidateQueryMatches(m[key], path[1..], out);
        }
      }
    case Leaf(_) =>
      out := out + [row];
  }

  // ----- The values at the refined paths

  function ValuesAt(v: Row, ps: seq<Path>): (r: seq<Option<Row>>)
    ensures |r| == |ps| && forall j :: 0 <= j < |ps| ==> r[j] == Get(v, ps[j])
  {
    seq(|ps|, j requires 0 <= j < |ps| => Get(v, ps[j]))
  }

  function Somes(rows: seq<Row>): (r: seq<Option<Row>>)
    ensures |r| == |rows| && forall j :: 0 <= j < |rows| ==> r[j] == Some(rows[j])
  {
    seq(|rows|, j requires 0 <= j < |rows| => Some(rows[j]))
  }

  lemma ValuesThroughField(m: map<string, Row>, k: string, ps: seq<Path>)
    requires k in m
    ensures ValuesAt(Obj(m), Prefixed(Name(k), ps)) == ValuesAt(m[k], ps)
  {
    forall j | 0 <= j < |ps| ensures Get(Obj(m), [Name(k)] + ps[j]) == Get(m[k], ps[j]) {
      assert ([Name(k)] + ps[j])[1..] == ps[j];
    }
  }

  lemma ValuesThroughElement(es: seq<Row>, i: nat, ps: seq<Path>)
    requires i < |es|
    ensures ValuesAt(Arr(es), Prefixed(Idx(i), ps)) == ValuesAt(es[i], ps)
  {
    forall j | 0 <= j < |ps| ensures Get(Arr(es), [Idx(i)] + ps[j]) == Get(es[i], ps[j]) {
      assert ([Idx(i)] + ps[j])[1..] == ps[j];
    }
  }

  /** The values at a value's refined paths, and at an element's. */
  function Refined(v: Row, rest: seq<string>): seq<Option<Row>> {
    ValuesAt(v, Below(v, rest, None))
  }

  function RefinedItem(e: Row, rest: seq<string>): seq<Option<Row>> {
    ValuesAt(e, Item(e, rest, None))
  }

  /** The values at the refined paths of the first `n` elements of an array. */
  lemma RefinedStep(es: seq<Row>, n: nat, rest: seq<string>)
    requires n < |es|
    ensures ValuesAt(Arr(es), InArray(es[..n+1], rest, None))
         == ValuesAt(Arr(es), InArray(es[..n], rest, None)) + RefinedItem(es[n], rest)
    ensures ConsolidateAll(es[..n+1], rest) == ConsolidateAll(es[..n], rest) + Consolidate(es[n], rest)
  {
    assert es[..n+1][..n] == es[..n];
    ValuesThroughElement(es, n, Item(es[n], rest, None));
  }

  // ----- When the two agree

  /** Nothing is collected along the path. */
  predicate Silent(v: Row, path: seq<string>) {
    match v
    case Leaf(_) => false
    case Obj(m) => path == [] || path[0] !in m || Silent(m[path[0]], path[1..])
    case Arr(es) => forall i | 0 <= i < |es| :: Silent(es[i], path)
  }

  /** On the way, arrays hold only objects (or nothing that would be collected); at the
      end, no objects; and no placeholder is met. */
  predicate Aligned(v: Row, rest: seq<string>)
    decreases v, 0
  {
    match v
    case Leaf(_) => v != PLACEHOLDER
    case Obj(m) => rest == [] || rest[0] !in m || Aligned(m[rest[0]], rest[1..])
    case Arr(es) => forall i | 0 <= i < |es| :: AlignedItem(es[i], rest)
  }

  predicate AlignedItem(e: Row, rest: seq<string>)
    decreases e, 1
  {
    if rest != [] then (if e.Obj? then Aligned(e, rest) else Silent(e, rest))
    else if e.Arr? then Aligned(e, rest)
    else e.Leaf? && e != PLACEHOLDER
  }

  lemma {:induction false} SilentCollectsNothing(v: Row, path: seq<string>)
    ensures Silent(v, path) <==> Consolidate(v, path) == []
    decreases v
  {
    match v
    case Leaf(_) =>
    case Obj(m) => if path != [] && path[0] in m { SilentCollectsNothing(m[path[0]], path[1..]); }
    case Arr(es) =>
      forall i | 0 <= i < |es| { SilentCollectsNothing(es[i], path); }
      CollectsNothing(es, path, |es|);
      assert es[..|es|] == es;
  }

  lemma {:induction false} CollectsNothing(es: seq<Row>, path: seq<string>, n: nat)
    requires n <= |es|
    ensures ConsolidateAll(es[..n], path) == [] <==> forall i :: 0 <= i < n ==> Consolidate(es[i], path) == []
    decreases n
  {
    if n > 0 {
      CollectsNothing(es, path, n - 1);
      RefinedStep(es, n - 1, path);
    }
  }

  function Leaves(vs: seq<Option<Row>>): (n: nat)
    ensures n <= |vs|
  {
    if vs == [] then 0
    else Leaves(vs[..|vs|-1]) + if vs[|vs|-1].Some? && vs[|vs|-1].value.Leaf? then 1 else 0
  }

  lemma {:induction false} LeavesAppend(a: seq<Option<Row>>, b: seq<Option<Row>>)
    ensures Leaves(a + b) == Leaves(a) + Leaves(b)
    decreases |b|
  {
    if b == [] {
      assert a + b == a;
    } else {
      assert (a + b)[..|a + b|-1] == a + b[..|b|-1];
      LeavesAppend(a, b[..|b|-1]);
    }
  }

  lemma {:induction false} OnlyScalars(v: Row, path: seq<string>)
    ensures forall x :: x in Consolidate(v, path) ==> x.Leaf?
    decreases v, 1
  {
    match v
    case Leaf(_) =>
    case Obj(m) => if path != [] && path[0] in m { OnlyScalars(m[path[0]], path[1..]); }
    case Arr(es) => OnlyScalarsIn(es, path);
  }

  lemma {:induction false} OnlyScalarsIn(es: seq<Row>, path: seq<string>)
    ensures forall x :: x in ConsolidateAll(es, path) ==> x.Leaf?
    decreases es, 0
  {
    if es != [] {
      OnlyScalarsIn(es[..|es|-1], path);
      OnlyScalars(es[|es|-1], path);
    }
  }

  lemma {:induction false} AllLeaves(rows: seq<Row>)
    requires forall x :: x in rows ==> x.Leaf?
    ensures Leaves(Somes(rows)) == |rows|
    decreases |rows|
  {
    if rows != [] {
      var n := |rows| - 1;
      assert Somes(rows)[..n] == Somes(rows[..n]) && rows[n] in rows;
      assert forall x :: x in rows[..n] ==> x in rows;
      AllLeaves(rows[..n]);
    }
  }

  /** `refined` has no more scalars than were collected, and as many, with nothing else
      besides, just when the data is aligned. */
  ghost predicate Counted(refined: seq<Option<Row>>, collected: seq<Row>, aligned: bool) {
    && Leaves(refined) <= |collected|
    && (aligned <==> Leaves(refined) == |refined| == |collected|)
    && (aligned ==> refined == Somes(collected))
  }

  lemma CountedAppend(a: seq<Option<Row>>, b: seq<Option<Row>>, x: seq<Row>, y: seq<Row>, p: bool, q: bool)
    requires Counted(a, x, p) && Counted(b, y, q)
    ensures Counted(a + b, x + y, p && q)
  {
    LeavesAppend(a, b);
    assert Somes(x + y) == Somes(x) + Somes(y);
  }

  lemma {:induction false} Count(v: Row, rest: seq<string>)
    ensures Counted(Refined(v, rest), Consolidate(v, rest), Aligned(v, rest))
    decreases v, 0
  {
    match v
    case Leaf(_) =>
      if v != PLACEHOLDER { assert Refined(v, rest) == [Some(v)]; }
    case Obj(m) =>
      if rest != [] && rest[0] in m {
        Count(m[rest[0]], rest[1..]);
        ValuesThroughField(m, rest[0], Below(m[rest[0]], rest[1..], None));
      }
    case Arr(es) =>
      CountElements(es, |es|, rest);
      assert es[..|es|] == es;
  }

  predicate AlignedItems(es: seq<Row>, n: nat, rest: seq<string>)
    requires n <= |es|
  {
    forall i | 0 <= i < n :: AlignedItem(es[i], rest)
  }

  lemma {:induction false} CountElements(es: seq<Row>, n: nat, rest: seq<string>)
    requires n <= |es|
    ensures Counted(ValuesAt(Arr(es), InArray(es[..n], rest, None)), ConsolidateAll(es[..n], rest),
                    AlignedItems(es, n, rest))
    decreases es, 0, n
  {
    if n > 0 {
      CountElements(es, n - 1, rest);
      CountItem(es[n-1], rest);
      RefinedStep(es, n - 1, rest);
      CountedAppend(ValuesAt(Arr(es), InArray(es[..n-1], rest, None)), RefinedItem(es[n-1], rest),
                    ConsolidateAll(es[..n-1], rest), Consolidate(es[n-1], rest),
                    AlignedItems(es, n - 1, rest), AlignedItem(es[n-1], rest));
      assert AlignedItems(es, n, rest) <==> AlignedItems(es, n - 1, rest) && AlignedItem(es[n-1], rest);
    }
  }

  lemma {:induction false} CountItem(e: Row, rest: seq<string>)
    ensures Counted(RefinedItem(e, rest), Consolidate(e, rest), AlignedItem(e, rest))
    decreases e, 1
  {
    if rest != [] {
      if e.Obj? { Count(e, rest); } else { SilentCollectsNothing(e, rest); }
    } else if e.Arr? {
      Count(e, rest);
    } else if e.Leaf? && e != PLACEHOLDER {
      assert RefinedItem(e, rest) == [Some(e)];
    }
  }

  /** The values at a row's refined paths are what is collected from it, in order, just
      when the row is aligned with the path. */
  lemma RefinedValuesAreCollected(row: Row, path: seq<string>)
    requires row.Obj?
    ensures ValuesAt(row, Matches(row, path, None)) == Somes(Consolidate(row, path)) <==> Aligned(row, path)
  {
    Count(row, path);
    OnlyScalars(row, path);
    AllLeaves(Consolidate(row, path));
  }
}
