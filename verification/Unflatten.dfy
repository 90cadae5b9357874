/** Turning a dictionary of dotted paths into a nested one, and back. */
module Unflatten {
  import opened Common
  import opened Rows

  type Levels = seq<string>
  type Dict = map<string, Row>

  // ----- Dotted paths

  function Split(s: string): (r: Levels)
    ensures r != []
  {
    if s == [] then [[]]
    else
      var rest := Split(s[1..]);
      if s[0] == '.' then [[]] + rest else [[s[0]] + rest[0]] + rest[1..]
  }

  function Join(levels: Levels): string
    requires levels != []
  {
    if |levels| == 1 then levels[0] else levels[0] + "." + Join(levels[1..])
  }

  lemma JoinEmptyFirst(rest: Levels)
    requires rest != []
    ensures Join([[]] + rest) == "." + Join(rest)
  {
    assert ([[]] + rest)[1..] == rest;
  }

  lemma JoinLongerFirst(c: char, rest: Levels)
    requires rest != []
    ensures Join([[c] + rest[0]] + rest[1..]) == [c] + Join(rest)
  {
    var r := [[c] + rest[0]] + rest[1..];
    assert r[1..] == rest[1..] && r[0] == [c] + rest[0];
    if |rest| > 1 {
      assert Join(r) == ([c] + rest[0]) + "." + Join(rest[1..]);
    }
  }

  /** Joining undoes splitting, so different paths have different levels. */
  lemma {:induction false} JoinSplit(s: string)
    ensures Join(Split(s)) == s
    decreases |s|
  {
    if s != [] {
      var rest := Split(s[1..]);
      JoinSplit(s[1..]);
      assert s == [s[0]] + s[1..];
      if s[0] == '.' { JoinEmptyFirst(rest); } else { JoinLongerFirst(s[0], rest); }
    }
  }

  predicate NoDots(p: Levels) {
    forall i | 0 <= i < |p| :: '.' !in p[i]
  }

  lemma {:induction false} SplitHasNoDots(s: string)
    ensures NoDots(Split(s))
    decreases |s|
  {
    if s != [] { SplitHasNoDots(s[1..]); }
  }

  lemma {:induction false} SplitOne(a: string)
    requires '.' !in a
    ensures Split(a) == [a]
    decreases |a|
  {
    if a != [] {
      SplitOne(a[1..]);
      assert [a[0]] + a[1..] == a;
    }
  }

  lemma {:induction false} SplitDot(a: string, b: string)
    requires '.' !in a
    ensures Split(a + "." + b) == [a] + Split(b)
    decreases |a|
  {
    var s := a + "." + b;
    if a == [] {
      assert s[1..] == b;
    } else {
      assert s[1..] == a[1..] + "." + b;
      SplitDot(a[1..], b);
      assert [a[0]] + a[1..] == a;
    }
  }

  lemma {:induction false} SplitJoin(p: Levels)
    requires p != [] && NoDots(p)
    ensures Split(Join(p)) == p
    decreases |p|
  {
    if |p| == 1 {
      SplitOne(p[0]);
    } else {
      SplitDot(p[0], Join(p[1..]));
      SplitJoin(p[1..]);
      assert [p[0]] + p[1..] == p;
    }
  }

  /** The levels of a path are the dotless strings, one or more, that it joins. */
  lemma SplitIff(s: string, p: Levels)
    ensures Split(s) == p <==> p != [] && NoDots(p) && Join(p) == s
  {
    JoinSplit(s);
    SplitHasNoDots(s);
    if p != [] && NoDots(p) { SplitJoin(p); }
  }

  lemma {:induction false} JoinAppend(p: Levels, q: Levels)
    requires p != [] && q != []
    ensures Join(p + q) == Join(p) + "." + Join(q)
    decreases |p|
  {
    if |p| == 1 {
      assert (p + q)[1..] == q;
    } else {
      assert (p + q)[1..] == p[1..] + q;
      JoinAppend(p[1..], q);
    }
  }

  lemma LevelsBegin(s: string, t: string)
    requires Split(s) < Split(t)
    ensures s + "." <= t
  {
    var p, q := Split(s), Split(t);
    JoinSplit(s);
    JoinSplit(t);
    var rest := q[|p|..];
    JoinAppend(p, rest);
    assert p + rest == q;
  }

  lemma DottedBegins(s: string, rest: string)
    ensures Split(s + "." + rest) == Split(s) + Split(rest)
  {
    JoinSplit(s);
    JoinSplit(rest);
    JoinAppend(Split(s), Split(rest));
    SplitHasNoDots(s);
    SplitHasNoDots(rest);
    SplitJoin(Split(s) + Split(rest));
  }

  /** A path's levels begin another's just when the path and a dot begin that path. */
  lemma BeginsIff(s: string, t: string)
    ensures Split(s) < Split(t) <==> s + "." <= t
  {
    if Split(s) < Split(t) { LevelsBegin(s, t); }
    if s + "." <= t {
      var rest := t[|s| + 1..];
      assert t == s + "." + rest;
      DottedBegins(s, rest);
    }
  }

  lemma JoinSplitAll()
    ensures forall s :: Join(Split(s)) == s
  {
    forall s ensures Join(Split(s)) == s { JoinSplit(s); }
  }

  // ----- Setting one path

  /** Walks down, making dictionaries where there is nothing yet, and sets the last level;
      fails when something other than a dictionary is in the way. */
  function SetAt(tree: Dict, path: Levels, value: Row): Option<Dict>
    requires path != []
    decreases |path|
  {
    var k := path[0];
    if |path| == 1 then Some(tree[k := value])
    else
      var child := if k in tree then tree[k] else Obj(map[]);
      if !child.Obj? then None
      else
        var below := SetAt(child.fields, path[1..], value);
        if below.None? then None else Some(tree[k := Obj(below.value)])
  }

  /** The value at a path, unless it is itself a dictionary. */
  function LeafAt(tree: Dict, path: Levels): Option<Row>
    decreases |path|
  {
    if path == [] || path[0] !in tree then None
    else
      var v := tree[path[0]];
      if |path| == 1 then (if v.Obj? then None else Some(v))
      else if v.Obj? then LeafAt(v.fields, path[1..]) else None
  }

  lemma {:induction false} SetAtLeaves(tree: Dict, q: Levels, value: Row, p: Levels)
    requires q != [] && !value.Obj? && SetAt(tree, q, value).Some?
    ensures LeafAt(SetAt(tree, q, value).value, p)
         == if p == q then Some(value) else if p <= q || q <= p then None else LeafAt(tree, p)
    decreases |q|
  {
    if p != [] {
      assert q == [q[0]] + q[1..] && p == [p[0]] + p[1..];
      if p[0] == q[0] && |q| > 1 {
        var child := if q[0] in tree then tree[q[0]] else Obj(map[]);
        SetAtLeaves(child.fields, q[1..], value, p[1..]);
        if q[0] !in tree && p[1..] != [] { assert LeafAt(map[], p[1..]) == None; }
      }
    }
  }

  lemma {:induction false} SetAtSucceeds(tree: Dict, q: Levels, value: Row)
    requires q != []
    ensures SetAt(tree, q, value).None? <==> exists n :: 0 < n < |q| && LeafAt(tree, q[..n]).Some?
    decreases |q|
  {
    if |q| > 1 {
      var k := q[0];
      var child := if k in tree then tree[k] else Obj(map[]);
      forall n | 1 < n < |q| && child.Obj?
        ensures LeafAt(tree, q[..n]).Some? <==> LeafAt(child.fields, q[1..][..n-1]).Some?
      {
        assert q[..n][1..] == q[1..][..n-1];
      }
      assert q[..1] == [k];
      if child.Obj? {
        SetAtSucceeds(child.fields, q[1..], value);
        if n :| 0 < n < |q[1..]| && LeafAt(child.fields, q[1..][..n]).Some? {
          assert LeafAt(tree, q[..n+1]).Some?;
        }
        if n :| 0 < n < |q| && LeafAt(tree, q[..n]).Some? {
          assert n > 1;
          assert LeafAt(child.fields, q[1..][..n-1]).Some?;
        }
      } else {
        assert LeafAt(tree, q[..1]).Some?;
        forall n | 1 < n < |q| ensures LeafAt(tree, q[..n]).None? { assert q[..n][0] == k; }
      }
    }
  }

  // ----- The whole dictionary

  /** The dictionary sends just the paths of `flat` to their values. */
  ghost predicate IsFlattening(tree: Dict, flat: map<Levels, Row>) {
    forall p :: LeafAt(tree, p) == if p in flat then Some(flat[p]) else None
  }

  predicate NoDicts(flat: map<Levels, Row>) {
    forall p | p in flat :: !flat[p].Obj?
  }

  /** No path is the beginning of another. */
  predicate PrefixFree(flat: map<Levels, Row>) {
    forall p, q | p in flat && q in flat :: p <= q ==> p == q
  }

  /** A dictionary keyed by dotted paths, with its paths split. */
  ghost function ByLevels(dict: Dict): map<Levels, Row> {
    JoinSplitAll();
    map p: Levels | p in (set s | s in dict :: Split(s)) :: dict[Join(p)]
  }

  lemma ByLevelsAt(dict: Dict, s: string)
    ensures Split(s) in ByLevels(dict) <==> s in dict
    ensures s in dict ==> ByLevels(dict)[Split(s)] == dict[s]
    ensures forall p :: p in ByLevels(dict) ==> p != [] && Join(p) in dict && Split(Join(p)) == p
  {
    JoinSplit(s);
    forall p | p in ByLevels(dict) ensures p != [] && Join(p) in dict && Split(Join(p)) == p {
      var t :| t in dict && Split(t) == p;
      JoinSplit(t);
    }
  }

  function UnflattenAll(dict: Dict, order: seq<string>): Option<Dict>
    requires forall s :: s in order ==> s in dict
  {
    if order == [] then Some(map[])
    else
      var n := |order| - 1;
      var before := UnflattenAll(dict, order[..n]);
      if before.None? || dict[order[n]].Obj? then None
      else SetAt(before.value, Split(order[n]), dict[order[n]])
  }

  lemma {:induction false} FailsForGood(dict: Dict, order: seq<string>, n: nat)
    requires forall s :: s in order ==> s in dict
    requires n <= |order| && UnflattenAll(dict, order[..n]).None?
    ensures UnflattenAll(dict, order).None?
    decreases |order|
  {
    if n < |order| {
      var m := |order| - 1;
      assert order[..m][..n] == order[..n];
      FailsForGood(dict, order[..m], n);
    } else {
      assert order[..n] == order;
    }
  }

  /** The entries set so far, by levels. */
  ghost function SetSoFar(dict: Dict, order: seq<string>): map<Levels, Row> {
    map p: Levels | p in ByLevels(dict) && Join(p) in order :: ByLevels(dict)[p]
  }

  lemma {:induction false} UnflattenPrefixFree(dict: Dict, order: seq<string>)
    requires forall s :: s in order ==> s in dict
    requires NoDicts(ByLevels(dict)) && PrefixFree(ByLevels(dict))
    ensures UnflattenAll(dict, order).Some?
    ensures IsFlattening(UnflattenAll(dict, order).value, SetSoFar(dict, order))
    decreases |order|
  {
    if order != [] {
      var n := |order| - 1;
      var s := order[n];
      var q, value := Split(s), dict[s];
      UnflattenPrefixFree(dict, order[..n]);
      var tree := UnflattenAll(dict, order[..n]).value;
      var so, far := SetSoFar(dict, order[..n]), SetSoFar(dict, order);
      ByLevelsAt(dict, s);
      JoinSplit(s);
      assert order == order[..n] + [s];
      SetAtSucceeds(tree, q, value);
      forall i | 0 < i < |q| ensures LeafAt(tree, q[..i]).None? {
        assert q[..i] <= q && q[..i] != q;
      }
      forall p
        ensures LeafAt(SetAt(tree, q, value).value, p) == if p in far then Some(far[p]) else None
      {
        SetAtLeaves(tree, q, value, p);
        if p in ByLevels(dict) { ByLevelsAt(dict, Join(p)); }
      }
    }
  }

  lemma {:induction false} LeafHasNoExtension(tree: Dict, p: Levels, q: Levels)
    requires LeafAt(tree, p).Some? && LeafAt(tree, q).Some? && p <= q
    ensures p == q
    decreases |p|
  {
    assert p == [p[0]] + p[1..] && q == [q[0]] + q[1..];
    if |p| > 1 { LeafHasNoExtension(tree[p[0]].fields, p[1..], q[1..]); }
  }

  lemma {:induction false} DictFails(dict: Dict, order: seq<string>, s: string)
    requires forall t :: t in order ==> t in dict
    requires s in order && dict[s].Obj?
    ensures UnflattenAll(dict, order).None?
    decreases |order|
  {
    var n := |order| - 1;
    if order[n] != s {
      assert order == order[..n] + [order[n]];
      DictFails(dict, order[..n], s);
    }
  }

  /** A flattening holds no dictionary, and no path in it begins another. */
  lemma FlatteningIsPrefixFree(tree: Dict, flat: map<Levels, Row>)
    requires IsFlattening(tree, flat)
    ensures NoDicts(flat) && PrefixFree(flat)
  {
    forall p | p in flat ensures !flat[p].Obj? {
      assert LeafAt(tree, p) == Some(flat[p]);
      LeafIsNoDict(tree, p);
    }
    forall p, q | p in flat && q in flat && p <= q ensures p == q {
      assert LeafAt(tree, p).Some? && LeafAt(tree, q).Some?;
      LeafHasNoExtension(tree, p, q);
    }
  }

  lemma RoundTripByLevels(dict: Dict, order: seq<string>)
    requires forall s :: s in order <==> s in dict
    ensures (UnflattenAll(dict, order).Some? && IsFlattening(UnflattenAll(dict, order).value, ByLevels(dict)))
            <==> NoDicts(ByLevels(dict)) && PrefixFree(ByLevels(dict))
  {
    var flat := ByLevels(dict);
    if NoDicts(flat) && PrefixFree(flat) {
      ByLevelsAt(dict, []);
      UnflattenPrefixFree(dict, order);
      assert SetSoFar(dict, order) == flat;
    }
    if UnflattenAll(dict, order).Some? && IsFlattening(UnflattenAll(dict, order).value, flat) {
      FlatteningIsPrefixFree(UnflattenAll(dict, order).value, flat);
    }
  }

  // ----- A tree and its flattening determine each other

  /** No dictionary in the tree, the whole of it apart, is empty. */
  predicate NoEmptyDict(tree: Dict)
    decreases Obj(tree)
  {
    forall k | k in tree :: tree[k].Obj? ==> tree[k].fields != map[] && NoEmptyDict(tree[k].fields)
  }

  /** Somewhere below a dictionary that is not empty there is a leaf. */
  lemma {:induction false} SomeLeaf(tree: Dict) returns (p: Levels)
    requires tree != map[] && NoEmptyDict(tree)
    ensures p != [] && LeafAt(tree, p).Some?
    decreases Obj(tree)
  {
    var k :| k in tree;
    if tree[k].Obj? {
      var q := SomeLeaf(tree[k].fields);
      p := [k] + q;
      assert p[1..] == q;
    } else {
      p := [k];
    }
  }

  lemma LeavesBelow(tree: Dict, k: string, q: Levels)
    requires k in tree && q != []
    ensures LeafAt(tree, [k] + q) == if tree[k].Obj? then LeafAt(tree[k].fields, q) else None
  {
    assert ([k] + q)[1..] == q;
  }

  lemma {:induction false} SameKind(a: Dict, b: Dict, k: string)
    requires NoEmptyDict(a) && NoEmptyDict(b)
    requires forall p :: LeafAt(a, p) == LeafAt(b, p)
    requires k in a
    ensures k in b && a[k].Obj? == b[k].Obj?
    ensures !a[k].Obj? ==> a[k] == b[k]
  {
    if a[k].Obj? {
      var q := SomeLeaf(a[k].fields);
      LeavesBelow(a, k, q);
      assert LeafAt(b, [k] + q).Some?;
      LeavesBelow(b, k, q);
    } else {
      assert LeafAt(a, [k]) == Some(a[k]);
      assert LeafAt(b, [k]).Some?;
    }
  }

  /** Trees without empty dictionaries are the same when their leaves are. */
  lemma {:induction false} LeavesDetermineTree(a: Dict, b: Dict)
    requires NoEmptyDict(a) && NoEmptyDict(b)
    requires forall p :: LeafAt(a, p) == LeafAt(b, p)
    ensures a == b
    decreases Obj(a)
  {
    forall k | k in a ensures k in b && a[k] == b[k] {
      SameKind(a, b, k);
      if a[k].Obj? {
        forall q ensures LeafAt(a[k].fields, q) == LeafAt(b[k].fields, q) {
          if q != [] {
            LeavesBelow(a, k, q);
            LeavesBelow(b, k, q);
          }
        }
        LeavesDetermineTree(a[k].fields, b[k].fields);
      }
    }
    forall k | k in b ensures k in a { SameKind(b, a, k); }
  }

  lemma {:induction false} SetAtKeepsNoEmptyDict(tree: Dict, q: Levels, value: Row)
    requires q != [] && !value.Obj? && NoEmptyDict(tree) && SetAt(tree, q, value).Some?
    ensures SetAt(tree, q, value).value != map[] && NoEmptyDict(SetAt(tree, q, value).value)
    decreases |q|
  {
    var r := SetAt(tree, q, value).value;
    assert q[0] in r;
    if |q| > 1 {
      var child := if q[0] in tree then tree[q[0]] else Obj(map[]);
      SetAtKeepsNoEmptyDict(child.fields, q[1..], value);
    }
  }

  lemma {:induction false} NeverAnEmptyDict(dict: Dict, order: seq<string>)
    requires forall s :: s in order ==> s in dict
    requires UnflattenAll(dict, order).Some?
    ensures NoEmptyDict(UnflattenAll(dict, order).value)
    decreases |order|
  {
    if order != [] {
      var n := |order| - 1;
      NeverAnEmptyDict(dict, order[..n]);
      SetAtKeepsNoEmptyDict(UnflattenAll(dict, order[..n]).value, Split(order[n]), dict[order[n]]);
    }
  }

  lemma {:induction false} LeafIsNoDict(tree: Dict, p: Levels)
    requires LeafAt(tree, p).Some?
    ensures !LeafAt(tree, p).value.Obj?
    decreases |p|
  {
    if |p| > 1 { LeafIsNoDict(tree[p[0]].fields, p[1..]); }
  }

  lemma InvertsByLevels(tree: Dict, dict: Dict, order: seq<string>)
    requires NoEmptyDict(tree) && IsFlattening(tree, ByLevels(dict))
    requires forall s :: s in order <==> s in dict
    ensures UnflattenAll(dict, order) == Some(tree)
  {
    FlatteningIsPrefixFree(tree, ByLevels(dict));
    RoundTripByLevels(dict, order);
    NeverAnEmptyDict(dict, order);
    LeavesDetermineTree(UnflattenAll(dict, order).value, tree);
  }

  // ----- The same, by dotted paths

  /** Flattened, the tree is the dictionary: it has the value of every dotted path at the
      levels the path joins, and no other leaf. */
  ghost predicate Flattens(tree: Dict, dict: Dict) {
    forall p :: LeafAt(tree, p) ==
      if p != [] && NoDots(p) && Join(p) in dict then Some(dict[Join(p)]) else None
  }

  lemma FlattensIff(tree: Dict, dict: Dict)
    ensures Flattens(tree, dict) <==> IsFlattening(tree, ByLevels(dict))
  {
    forall p: Levels
      ensures p in ByLevels(dict) <==> p != [] && NoDots(p) && Join(p) in dict
      ensures p in ByLevels(dict) ==> ByLevels(dict)[p] == dict[Join(p)]
    {
      if p != [] {
        SplitIff(Join(p), p);
        ByLevelsAt(dict, Join(p));
      }
      ByLevelsAt(dict, []);
    }
  }

  /** No value is a dictionary, and no path followed by a dot begins another. */
  predicate Flat(dict: Dict) {
    && (forall s | s in dict :: !dict[s].Obj?)
    && (forall s, t | s in dict && t in dict :: !(s + "." <= t))
  }

  lemma FlatByLevels(dict: Dict)
    requires Flat(dict)
    ensures NoDicts(ByLevels(dict)) && PrefixFree(ByLevels(dict))
  {
    var flat := ByLevels(dict);
    forall p | p in flat ensures p != [] && Join(p) in dict && Split(Join(p)) == p && flat[p] == dict[Join(p)] {
      ByLevelsAt(dict, []);
      ByLevelsAt(dict, Join(p));
    }
    forall p, q | p in flat && q in flat && p <= q ensures p == q { BeginsIff(Join(p), Join(q)); }
  }

  lemma ByLevelsFlat(dict: Dict)
    requires NoDicts(ByLevels(dict)) && PrefixFree(ByLevels(dict))
    ensures Flat(dict)
  {
    forall s | s in dict ensures Split(s) in ByLevels(dict) && !dict[s].Obj? { ByLevelsAt(dict, s); }
    forall s, t | s in dict && t in dict ensures !(s + "." <= t) { BeginsIff(s, t); }
  }

  /** Flattening the result gives back the dictionary just when no value is a dictionary
      and no path is the beginning of another; the order of the entries plays no part. */
  lemma RoundTrip(dict: Dict, order: seq<string>)
    requires forall s :: s in order <==> s in dict
    ensures (UnflattenAll(dict, order).Some? && Flattens(UnflattenAll(dict, order).value, dict)) <==> Flat(dict)
  {
    RoundTripByLevels(dict, order);
    if Flat(dict) { FlatByLevels(dict); }
    if NoDicts(ByLevels(dict)) && PrefixFree(ByLevels(dict)) { ByLevelsFlat(dict); }
    if UnflattenAll(dict, order).Some? { FlattensIff(UnflattenAll(dict, order).value, dict); }
  }

  /** Unflattening a flattened tree gives back that tree. */
  lemma UnflattenInverts(tree: Dict, dict: Dict, order: seq<string>)
    requires NoEmptyDict(tree) && Flattens(tree, dict)
    requires forall s :: s in order <==> s in dict
    ensures UnflattenAll(dict, order) == Some(tree)
  {
    FlattensIff(tree, dict);
    InvertsByLevels(tree, dict, order);
  }

  // ----- Every tree without dots in its keys can be flattened

  predicate DotlessKeys(tree: Dict)
    decreases Obj(tree)
  {
    forall k | k in tree :: '.' !in k && (tree[k].Obj? ==> DotlessKeys(tree[k].fields))
  }

  ghost function LeafPaths(tree: Dict): set<Levels>
    decreases Obj(tree)
  {
    (set k | k in tree && !tree[k].Obj? :: [k])
    + (set k, p | k in tree && tree[k].Obj? && p in LeafPaths(tree[k].fields) :: [k] + p)
  }

  lemma {:induction false} LeafPathsIff(tree: Dict, p: Levels)
    ensures p in LeafPaths(tree) <==> LeafAt(tree, p).Some?
    decreases Obj(tree)
  {
    if k, q :| k in tree && tree[k].Obj? && q in LeafPaths(tree[k].fields) && p == [k] + q {
      LeafPathsIff(tree[k].fields, q);
      assert p[1..] == q && q != [];
    }
    if LeafAt(tree, p).Some? {
      assert p == [p[0]] + p[1..];
      if tree[p[0]].Obj? {
        LeafPathsIff(tree[p[0]].fields, p[1..]);
      } else {
        assert p == [p[0]];
      }
    }
  }

  lemma {:induction false} LeafIsDotless(tree: Dict, p: Levels)
    requires DotlessKeys(tree) && LeafAt(tree, p).Some?
    ensures p != [] && NoDots(p)
    decreases |p|
  {
    if |p| > 1 {
      LeafIsDotless(tree[p[0]].fields, p[1..]);
      assert forall i :: 0 < i < |p| ==> p[i] == p[1..][i-1];
    }
  }

  lemma CanBeFlattened(tree: Dict) returns (dict: Dict)
    requires DotlessKeys(tree)
    ensures Flattens(tree, dict)
  {
    forall p ensures p in LeafPaths(tree) <==> LeafAt(tree, p).Some? { LeafPathsIff(tree, p); }
    forall p | p in LeafPaths(tree) ensures p != [] && NoDots(p) && Split(Join(p)) == p {
      LeafIsDotless(tree, p);
      SplitJoin(p);
    }
    var names := set p | p in LeafPaths(tree) :: if p == [] then [] else Join(p);
    dict := map s | s in names && LeafAt(tree, Split(s)).Some? :: LeafAt(tree, Split(s)).value;
    forall p ensures LeafAt(tree, p) == if p != [] && NoDots(p) && Join(p) in dict then Some(dict[Join(p)]) else None {
      if p != [] && NoDots(p) { SplitJoin(p); }
    }
  }

  // ----- When it fails

  /** A path that no shorter one begins is a leaf once it has been set. */
  lemma {:induction false} ShortestIsLeaf(dict: Dict, order: seq<string>, s: string)
    requires forall t :: t in order ==> t in dict
    requires UnflattenAll(dict, order).Some? && s in order
    requires forall t :: t in order ==> !(Split(t) < Split(s))
    ensures LeafAt(UnflattenAll(dict, order).value, Split(s)).Some?
    decreases |order|
  {
    var n := |order| - 1;
    var before, q := UnflattenAll(dict, order[..n]).value, Split(order[n]);
    assert order == order[..n] + [order[n]];
    SetAtLeaves(before, q, dict[order[n]], Split(s));
    if Split(s) != q {
      assert Split(s) < q ==> q[..|Split(s)|] == Split(s);
      ShortestIsLeaf(dict, order[..n], s);
      SetAtSucceeds(before, q, dict[order[n]]);
    }
  }

  lemma {:induction false} LeafWasSet(dict: Dict, order: seq<string>, p: Levels)
    requires forall t :: t in order ==> t in dict
    requires UnflattenAll(dict, order).Some? && LeafAt(UnflattenAll(dict, order).value, p).Some?
    ensures exists t :: t in order && Split(t) == p
    decreases |order|
  {
    if order != [] {
      var n := |order| - 1;
      SetAtLeaves(UnflattenAll(dict, order[..n]).value, Split(order[n]), dict[order[n]], p);
      if p != Split(order[n]) { LeafWasSet(dict, order[..n], p); }
    }
  }

  lemma {:induction false} ShortestBeginning(order: seq<string>, s: string, q: Levels) returns (t: string)
    requires s in order && Split(s) < q
    ensures t in order && Split(t) < q && forall u :: u in order ==> !(Split(u) < Split(t))
    decreases |Split(s)|
  {
    if u :| u in order && Split(u) < Split(s) {
      t := ShortestBeginning(order, u, q);
    } else {
      t := s;
    }
  }

  /** Setting a path fails just when an earlier one, followed by a dot, begins it. */
  lemma NextFails(dict: Dict, order: seq<string>, s: string, value: Row)
    requires forall t :: t in order ==> t in dict
    requires UnflattenAll(dict, order).Some?
    ensures SetAt(UnflattenAll(dict, order).value, Split(s), value).None? <==> exists t :: t in order && t + "." <= s
  {
    var tree, q := UnflattenAll(dict, order).value, Split(s);
    SetAtSucceeds(tree, q, value);
    if n :| 0 < n < |q| && LeafAt(tree, q[..n]).Some? {
      LeafWasSet(dict, order, q[..n]);
      var t :| t in order && Split(t) == q[..n];
      BeginsIff(t, s);
    }
    if t :| t in order && t + "." <= s {
      BeginsIff(t, s);
      var u := ShortestBeginning(order, t, q);
      ShortestIsLeaf(dict, order, u);
      assert q[..|Split(u)|] == Split(u);
    }
  }

  /** The entry at `i` is a dictionary, or an earlier path, followed by a dot, begins its own. */
  ghost predicate Conflicts(dict: Dict, order: seq<string>, i: nat)
    requires i < |order| && order[i] in dict
  {
    dict[order[i]].Obj? || exists t :: t in order[..i] && t + "." <= order[i]
  }

  /** The call fails just when some entry is a dictionary or comes after one it runs into. */
  lemma {:induction false} FailsIff(dict: Dict, order: seq<string>)
    requires forall s :: s in order ==> s in dict
    ensures UnflattenAll(dict, order).None? <==> exists i :: 0 <= i < |order| && Conflicts(dict, order, i)
    decreases |order|
  {
    if order != [] {
      var n := |order| - 1;
      var before := order[..n];
      FailsIff(dict, before);
      forall i | 0 <= i < n ensures Conflicts(dict, before, i) <==> Conflicts(dict, order, i) {
        assert before[..i] == order[..i];
      }
      if UnflattenAll(dict, before).Some? {
        NextFails(dict, before, order[n], dict[order[n]]);
        assert UnflattenAll(dict, order).None? <==> Conflicts(dict, order, n);
      }
      if i :| 0 <= i < n && Conflicts(dict, before, i) { assert Conflicts(dict, order, i); }
      if i :| 0 <= i < |order| && Conflicts(dict, order, i) { assert i < n ==> Conflicts(dict, before, i); }
    }
  }

  /** Sets the entries one after another, in the dictionary's own order. */
  method UnflattenDict(dict: Dict, order: seq<string>) returns (r: Option<Dict>)
    requires forall s :: s in order <==> s in dict
    ensures r == UnflattenAll(dict, order)
    ensures r.None? <==> exists i :: 0 <= i < |order| && Conflicts(dict, order, i)
    ensures (r.Some? && Flattens(r.value, dict)) <==> Flat(dict)
  {
    FailsIff(dict, order);
    RoundTrip(dict, order);
    var output: Dict := map[];
    for i := 0 to |order|
      invariant UnflattenAll(dict, order[..i]) == Some(output)
    {
      assert order[..i+1][..i] == order[..i];
      var value := dict[order[i]];
      var next := if value.Obj? then None else SetAt(output, Split(order[i]), value);
      if next.None? {
        FailsForGood(dict, order, i + 1);
        return None;
      }
      output := next.value;
    }
    assert order[..|order|] == order;
    r := Some(output);
  }
}
