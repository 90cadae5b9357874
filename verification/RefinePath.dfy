/** Expanding a field path into the paths, with array indices, of the data it names. */
module RefinePath {
  import opened Common
  import opened Rows

  /** The values to match; an absent or empty list matches everything. */
  type Only = Option<seq<Row>>

  predicate MatchFound(elem: Row, only: Only) {
    elem != PLACEHOLDER && (only == None || only.value == [] || elem in only.value)
  }

  // ----- The paths, as a plain list

  function Prefixed(l: Level, ps: seq<Path>): (r: seq<Path>)
    ensures |r| == |ps| && forall j :: 0 <= j < |ps| ==> r[j] == [l] + ps[j]
  {
    seq(|ps|, j requires 0 <= j < |ps| => [l] + ps[j])
  }

  /** Paths, relative to a value met below a field name, of the data it holds on `rest`. */
  function Below(v: Row, rest: seq<string>, only: Only): seq<Path>
    decreases v, 1
  {
    match v
    case Leaf(_) => if MatchFound(v, only) then [[]] else []
    case Obj(m) =>
      if rest == [] || rest[0] !in m then []
      else Prefixed(Name(rest[0]), Below(m[rest[0]], rest[1..], only))
    case Arr(es) => InArray(es, rest, only)
  }

  /** The same for the elements of an array, in order. */
  function InArray(es: seq<Row>, rest: seq<string>, only: Only): seq<Path>
    decreases es, 0
  {
    if es == [] then []
    else
      var n := |es| - 1;
      InArray(es[..n], rest, only) + Prefixed(Idx(n), Item(es[n], rest, only))
  }

  function Item(e: Row, rest: seq<string>, only: Only): seq<Path>
    decreases e, 2
  {
    if rest != [] then (if e.Obj? then Below(e, rest, only) else [])
    else if e.Arr? then InArray(e.elems, [], only)
    else if MatchFound(e, only) then [[]] else []
  }

  /** All paths in a row to the data on a target path. */
  function Matches(row: Row, path: seq<string>, only: Only): seq<Path> {
    if row.Obj? then Below(row, path, only) else []
  }

  // ----- The one-or-many encoding of a list of paths

  /** An entry of a Python list: a level, or a list. */
  datatype Entry = Lvl(level: Level) | Sub(entries: seq<Entry>)

  function Flat(p: Path): (r: seq<Entry>)
    ensures |r| == |p| && forall j :: 0 <= j < |p| ==> r[j] == Lvl(p[j])
  {
    seq(|p|, j requires 0 <= j < |p| => Lvl(p[j]))
  }

  function Listed(ps: seq<Path>): (r: seq<Entry>)
    ensures |r| == |ps| && forall j :: 0 <= j < |ps| ==> r[j] == Sub(Flat(ps[j]))
  {
    seq(|ps|, j requires 0 <= j < |ps| => Sub(Flat(ps[j])))
  }

  /** No path is the empty list, one is itself, several are a list of lists. */
  function Encode(ps: seq<Path>): seq<Entry> {
    if |ps| == 1 then Flat(ps[0]) else Listed(ps)
  }

  function Unflat(es: seq<Entry>): Path {
    if es == [] then []
    else (if es[0].Lvl? then [es[0].level] else []) + Unflat(es[1..])
  }

  function Decode(es: seq<Entry>): seq<Path> {
    if es == [] then []
    else if es[0].Sub? then seq(|es|, j requires 0 <= j < |es| => if es[j].Sub? then Unflat(es[j].entries) else [])
    else [Unflat(es)]
  }

  predicate NonEmpty(ps: seq<Path>) {
    forall j :: 0 <= j < |ps| ==> ps[j] != []
  }

  lemma {:induction false} UnflatFlat(p: Path)
    ensures Unflat(Flat(p)) == p
    decreases |p|
  {
    if p != [] {
      assert Flat(p)[1..] == Flat(p[1..]);
      UnflatFlat(p[1..]);
    }
  }

  /** The encoding loses nothing. */
  lemma DecodeEncode(ps: seq<Path>)
    requires NonEmpty(ps)
    ensures Decode(Encode(ps)) == ps
  {
    forall j | 0 <= j < |ps| ensures Unflat(Flat(ps[j])) == ps[j] {
      UnflatFlat(ps[j]);
    }
  }

  // ----- The code, on encoded lists

  /** Puts a level in front of every encoded path. */
  method UpdatePath(level: Level, deeper: seq<Entry>, ghost ps: seq<Path>) returns (r: seq<Entry>)
    requires deeper == Encode(ps) && NonEmpty(ps)
    ensures r == Encode(Prefixed(level, ps))
    decreases deeper
  {
    if deeper == [] {
      return [];
    }
    if deeper[0].Sub? {
      r := [];
      for j := 0 to |deeper|
        invariant r == Listed(Prefixed(level, ps))[..j]
      {
        var longer := UpdatePath(level, deeper[j].entries, [ps[j]]);
        r := r + [Sub(longer)];
      }
    } else {
      r := [Lvl(level)] + deeper;
      assert r == Flat([level] + ps[0]);
    }
  }

  lemma {:induction false} InArrayNonEmpty(es: seq<Row>, rest: seq<string>, only: Only)
    ensures NonEmpty(InArray(es, rest, only))
    decreases |es|
  {
    if es != [] {
      var n := |es| - 1;
      InArrayNonEmpty(es[..n], rest, only);
    }
  }

  method RefineTargetPath(row: Row, path: seq<string>, only: Only) returns (r: seq<Entry>)
    ensures r == Encode(Matches(row, path, only))
    decreases row, 3
  {
    if path == [] || !row.Obj? || path[0] !in row.fields {
      return [];
    }
    var elem := row.fields[path[0]];
    var next;
    match elem {
      case Obj(_) =>
        next := RefineTargetPath(elem, path[1..], only);
        r := UpdatePath(Name(path[0]), next, Below(elem, path[1..], only));
      case Arr(es) =>
        next := EnterArray(es, path[1..], only);
        InArrayNonEmpty(es, path[1..], only);
        r := UpdatePath(Name(path[0]), next, Below(elem, path[1..], only));
      case Leaf(_) =>
        r := if MatchFound(elem, only) then [Lvl(Name(path[0]))] else [];
        assert Matches(row, path, only) == Prefixed(Name(path[0]), Below(elem, path[1..], only));
        assert Prefixed(Name(path[0]), [[]])[0] == [Name(path[0])];
    }
  }

  method EnterArray(es: seq<Row>, path: seq<string>, only: Only) returns (r: seq<Entry>)
    ensures r == Encode(InArray(es, path, only))
    decreases es, 0
  {
    var results := [];
    for i := 0 to |es|
      invariant results == Listed(InArray(es[..i], path, only))
    {
      var current := EnterElement(i, es[i], path, only);
      if current != [] {
        if current[0].Sub? {
          results := results + current;
        } else {
          results := results + [Sub(current)];
        }
      }
      assert es[..i+1][..i] == es[..i];
      ListedAppend(InArray(es[..i], path, only), Prefixed(Idx(i), Item(es[i], path, only)));
    }
    assert es[..|es|] == es;
    r := if |results| == 1 then results[0].entries else results;
  }

  lemma ListedAppend(ps: seq<Path>, qs: seq<Path>)
    ensures Listed(ps + qs) == Listed(ps) + Listed(qs)
    ensures Listed(qs) == if |qs| == 1 then [Sub(Encode(qs))] else Encode(qs)
  {
  }

  /** The encoded paths through one element of an array. */
  method EnterElement(i: nat, elem: Row, path: seq<string>, only: Only) returns (r: seq<Entry>)
    ensures r == Encode(Prefixed(Idx(i), Item(elem, path, only)))
    decreases elem, 4
  {
    r := [];
    if path != [] {
      var next := RefineTargetPath(elem, path, only);
      r := UpdatePath(Idx(i), next, Item(elem, path, only));
    } else if elem.Arr? {
      var next := EnterArray(elem.elems, path, only);
      InArrayNonEmpty(elem.elems, path, only);
      r := UpdatePath(Idx(i), next, Item(elem, path, only));
    } else if MatchFound(elem, only) {
      r := [Lvl(Idx(i))];
      assert [Idx(i)] + [] == [Idx(i)];
    }
  }
}
