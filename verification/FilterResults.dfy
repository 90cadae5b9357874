/** Cutting access results down to the fields of the requested categories. */
module FilterResults {
  import opened Common
  import opened Rows
  import opened RefineTheorems

  type FieldPath = seq<string>

  /** Either the value, or the error raised when a target path ends at an object. */
  datatype Result = Success(value: Row) | Failure

  // ----- Selecting one path

  /** What a newly saved value starts from. */
  function Default(v: Row): Row {
    match v
    case Leaf(_) => v
    case Obj(_) => Obj(map[])
    case Arr(_) => Arr([])
  }

  /** The path ends at a non-empty object somewhere in the value. */
  predicate EndsAtObject(v: Row, path: FieldPath) {
    match v
    case Leaf(_) => false
    case Obj(m) => if path == [] then m != map[] else path[0] in m && EndsAtObject(m[path[0]], path[1..])
    case Arr(es) => exists i | 0 <= i < |es| :: EndsAtObject(es[i], path)
  }

  /** What has been saved was taken from the row. */
  predicate Fits(saved: Row, row: Row) {
    match row
    case Leaf(_) => true
    case Obj(m) => saved.Obj? && forall k | k in saved.fields && k in m :: Fits(saved.fields[k], m[k])
    case Arr(es) =>
      && saved.Arr? && |saved.elems| <= |es|
      && forall i | 0 <= i < |saved.elems| :: Fits(saved.elems[i], es[i])
  }

  /** What has been saved, with the data on one more path added. */
  function Selected(saved: Row, row: Row, path: FieldPath): Row
    requires Fits(saved, row)
    decreases row
  {
    match row
    case Leaf(_) => saved
    case Obj(m) =>
      if path != [] && path[0] in m then
        var start := if path[0] in saved.fields then saved.fields[path[0]] else Default(m[path[0]]);
        Obj(saved.fields[path[0] := Selected(start, m[path[0]], path[1..])])
      else saved
    case Arr(es) =>
      Arr(seq(|es|, i requires 0 <= i < |es| =>
              Selected(if i < |saved.elems| then saved.elems[i] else Default(es[i]), es[i], path)))
  }

  method SelectAndSaveField(saved: Row, row: Row, path: FieldPath) returns (r: Result)
    requires Fits(saved, row)
    ensures r == if EndsAtObject(row, path) then Failure else Success(Selected(saved, row, path))
    decreases row
  {
    match row {
      case Leaf(_) => r := Success(saved);
      case Obj(m) => r := SelectInObject(saved.fields, m, path);
      case Arr(es) => r := SelectInArray(saved.elems, es, path);
    }
  }

  method SelectInObject(saved: map<string, Row>, m: map<string, Row>, path: FieldPath) returns (r: Result)
    requires Fits(Obj(saved), Obj(m))
    ensures r == if EndsAtObject(Obj(m), path) then Failure else Success(Selected(Obj(saved), Obj(m), path))
    decreases Obj(m), 0
  {
    var out := saved;
    var keys := m.Keys;
    while keys != {}
      invariant keys <= m.Keys && (keys < m.Keys ==> path != [])
      invariant path != [] && path[0] in m && path[0] !in keys ==>
                  !EndsAtObject(m[path[0]], path[1..]) && Obj(out) == Selected(Obj(saved), Obj(m), path)
      invariant path == [] || path[0] !in m || path[0] in keys ==> out == saved
    {
      var key :| key in keys;
      keys := keys - {key};
      if path == [] { return Failure; }
      if key == path[0] {
        var start := if key in out then out[key] else Default(m[key]);
        var below := SelectAndSaveField(start, m[key], path[1..]);
        if below.Failure? { return Failure; }
        out := out[key := below.value];
      }
    }
    r := Success(Obj(out));
  }

  /** An element whose place is not saved yet is started afresh; so is one for which the
      first attempt raised the error, which then raises it again. */
  method SelectInArray(saved: seq<Row>, es: seq<Row>, path: FieldPath) returns (r: Result)
    requires Fits(Arr(saved), Arr(es))
    ensures r == if EndsAtObject(Arr(es), path) then Failure else Success(Selected(Arr(saved), Arr(es), path))
    decreases Arr(es), 0
  {
    var out := saved;
    ghost var whole := Selected(Arr(saved), Arr(es), path).elems;
    for i := 0 to |es|
      invariant |out| == if i < |saved| then |saved| else i
      invariant out[..i] == whole[..i]
      invariant forall j :: i <= j < |saved| ==> out[j] == saved[j]
      invariant forall j :: 0 <= j < i ==> !EndsAtObject(es[j], path)
    {
      var attempt := Failure;
      if i < |out| {
        attempt := SelectAndSaveField(out[i], es[i], path);
      }
      if attempt.Success? {
        out := out[i := attempt.value];
      } else {
        var again := SelectAndSaveField(Default(es[i]), es[i], path);
        if again.Failure? { return Failure; }
        out := out + [again.value];
      }
    }
    r := Success(Arr(out));
  }

  // ----- Selecting many paths at once

  function Heads(paths: set<FieldPath>): set<string> {
    set p | p in paths && p != [] :: p[0]
  }

  function Tails(paths: set<FieldPath>, k: string): set<FieldPath> {
    set p | p in paths && p != [] && p[0] == k :: p[1..]
  }

  /** The part of a row that lies on the paths; arrays keep all their places. */
  function Project(v: Row, paths: set<FieldPath>): Row {
    match v
    case Leaf(_) => v
    case Obj(m) => Obj(map k | k in m && k in Heads(paths) :: Project(m[k], Tails(paths, k)))
    case Arr(es) => Arr(seq(|es|, i requires 0 <= i < |es| => Project(es[i], paths)))
  }

  lemma {:induction false} ProjectFits(v: Row, paths: set<FieldPath>)
    ensures Fits(Project(v, paths), v)
  {
    match v
    case Leaf(_) =>
    case Obj(m) => forall k | k in m { ProjectFits(m[k], Tails(paths, k)); }
    case Arr(es) => forall i | 0 <= i < |es| { ProjectFits(es[i], paths); }
  }

  lemma TailsOfMore(paths: set<FieldPath>, path: FieldPath, k: string)
    ensures Heads(paths + {path}) == if path == [] then Heads(paths) else Heads(paths) + {path[0]}
    ensures Tails(paths + {path}, k)
         == if path != [] && path[0] == k then Tails(paths, k) + {path[1..]} else Tails(paths, k)
    ensures k in Heads(paths) <==> Tails(paths, k) != {}
  {
    if k in Heads(paths) {
      var p :| p in paths && p != [] && p[0] == k;
      assert p[1..] in Tails(paths, k);
    }
  }

  /** One more path changes the projection of the field it starts with only. */
  lemma ProjectMore(m: map<string, Row>, paths: set<FieldPath>, path: FieldPath)
    ensures var was, now := Project(Obj(m), paths).fields, Project(Obj(m), paths + {path}).fields;
            now == if path != [] && path[0] in m
                   then was[path[0] := Project(m[path[0]], Tails(paths, path[0]) + {path[1..]})]
                   else was
  {
    forall k | k in m
      ensures k in Heads(paths + {path}) <==> k in Heads(paths) || (path != [] && path[0] == k)
      ensures Tails(paths + {path}, k)
           == if path != [] && path[0] == k then Tails(paths, k) + {path[1..]} else Tails(paths, k)
    {
      TailsOfMore(paths, path, k);
    }
  }

  lemma SelectField(m: map<string, Row>, paths: set<FieldPath>, path: FieldPath)
    requires Fits(Project(Obj(m), paths), Obj(m))
    requires path != [] && path[0] in m ==>
               var k := path[0];
               var start := if k in Heads(paths) then Project(m[k], Tails(paths, k)) else Default(m[k]);
               && Fits(start, m[k])
               && Selected(start, m[k], path[1..]) == Project(m[k], Tails(paths, k) + {path[1..]})
    ensures Selected(Project(Obj(m), paths), Obj(m), path) == Project(Obj(m), paths + {path})
  {
    ProjectMore(m, paths, path);
  }

  lemma {:induction false} SelectFirst(row: Row, path: FieldPath)
    ensures Fits(Default(row), row)
    ensures Selected(Default(row), row, path) == Project(row, {path})
    decreases row
  {
    match row
    case Leaf(_) =>
    case Obj(m) =>
      assert Project(row, {}).fields == map[];
      if path != [] && path[0] in m {
        SelectFirst(m[path[0]], path[1..]);
        assert Heads({}) == {} && Tails({}, path[0]) + {path[1..]} == {path[1..]};
      }
      SelectField(m, {}, path);
      assert {} + {path} == {path};
    case Arr(es) =>
      forall i | 0 <= i < |es| ensures Selected(Default(es[i]), es[i], path) == Project(es[i], {path}) {
        SelectFirst(es[i], path);
      }
  }

  lemma {:induction false} SelectMore(row: Row, paths: set<FieldPath>, path: FieldPath)
    requires paths != {} && Fits(Project(row, paths), row)
    ensures Selected(Project(row, paths), row, path) == Project(row, paths + {path})
    decreases row
  {
    match row
    case Leaf(_) =>
    case Obj(m) =>
      if path != [] && path[0] in m {
        var k := path[0];
        TailsOfMore(paths, path, k);
        if k in Heads(paths) {
          ProjectFits(m[k], Tails(paths, k));
          SelectMore(m[k], Tails(paths, k), path[1..]);
        } else {
          SelectFirst(m[k], path[1..]);
          assert Tails(paths, k) + {path[1..]} == {path[1..]};
        }
      }
      SelectField(m, paths, path);
    case Arr(es) =>
      forall i | 0 <= i < |es|
        ensures Fits(Project(es[i], paths), es[i])
        ensures Selected(Project(es[i], paths), es[i], path) == Project(es[i], paths + {path})
      {
        ProjectFits(es[i], paths);
        SelectMore(es[i], paths, path);
      }
  }

  /** One more path, whatever was selected before. */
  lemma SelectNext(row: Row, paths: set<FieldPath>, path: FieldPath)
    requires row.Obj?
    ensures Fits(Project(row, paths), row)
    ensures Selected(Project(row, paths), row, path) == Project(row, paths + {path})
  {
    ProjectFits(row, paths);
    if paths == {} {
      assert Project(row, {}).fields == map[];
      SelectFirst(row, path);
      assert {} + {path} == {path};
    } else {
      SelectMore(row, paths, path);
    }
  }

  /** The scalars of a projection: each stands at its own place in the row, and just
      those on a target path, or met early on one, are there. */
  lemma {:induction false} ProjectedScalars(v: Row, paths: set<FieldPath>, q: Path, x: Scalar)
    ensures Get(Project(v, paths), q) == Some(Leaf(x)) <==>
              Get(v, q) == Some(Leaf(x)) && (Names(q) == [] || exists p :: p in paths && Names(q) <= p)
    decreases |q|
  {
    if q != [] {
      match (v, q[0])
      case (Obj(m), Name(k)) =>
        if k in m {
          ProjectedScalars(m[k], Tails(paths, k), q[1..], x);
          NamesThroughField(paths, k, Names(q[1..]));
          assert Names(q) == [k] + Names(q[1..]);
        }
      case (Arr(es), Idx(i)) =>
        if i < |es| {
          ProjectedScalars(es[i], paths, q[1..], x);
          assert Names(q) == Names(q[1..]);
        }
      case _ =>
    }
  }

  lemma NamesThroughField(paths: set<FieldPath>, k: string, names: FieldPath)
    ensures (exists p :: p in paths && [k] + names <= p) <==>
              k in Heads(paths) && (names == [] || exists p :: p in Tails(paths, k) && names <= p)
  {
    if p :| p in paths && [k] + names <= p {
      assert p[0] == k && p[1..] in Tails(paths, k) && names <= p[1..];
    }
    if k in Heads(paths) && names == [] {
      var p :| p in paths && p != [] && p[0] == k;
      assert [k] + names <= p;
    }
    if t :| t in Tails(paths, k) && names <= t {
      var p :| p in paths && p != [] && p[0] == k && p[1..] == t;
      assert p == [k] + t;
      assert [k] + names <= p;
    }
  }

  // ----- Removing empty containers

  predicate IsEmpty(v: Row) {
    v == Obj(map[]) || v == Arr([])
  }

  /** Without the containers, at any depth, that hold nothing. */
  function Pruned(v: Row): Row
    decreases v, 1
  {
    match v
    case Leaf(_) => v
    case Obj(m) => Obj(map k | k in m && !IsEmpty(Pruned(m[k])) :: Pruned(m[k]))
    case Arr(es) => Arr(PrunedAll(es))
  }

  function PrunedAll(es: seq<Row>): seq<Row>
    decreases es, 0
  {
    if es == [] then []
    else (if IsEmpty(Pruned(es[0])) then [] else [Pruned(es[0])]) + PrunedAll(es[1..])
  }

  /** Goes through the fields of a copy, or through the elements from the last, and
      deletes what has become empty. */
  method RemoveEmptyContainers(row: Row) returns (out: Row)
    ensures out == Pruned(row)
    decreases row
  {
    out := row;
    match row
    case Obj(m) =>
      var fields, keys := m, m.Keys;
      while keys != {}
        invariant keys <= m.Keys
        invariant forall k :: k in fields <==> k in m && (k in keys || !IsEmpty(Pruned(m[k])))
        invariant forall k :: k in fields ==> fields[k] == if k in keys then m[k] else Pruned(m[k])
      {
        var key :| key in keys;
        keys := keys - {key};
        var value := RemoveEmptyContainers(m[key]);
        fields := fields[key := value];
        if IsEmpty(value) { fields := fields - {key}; }
      }
      out := Obj(fields);
    case Arr(es) =>
      var elems, i := es, |es|;
      while i > 0
        invariant 0 <= i <= |es|
        invariant elems == es[..i] + PrunedAll(es[i..])
      {
        i := i - 1;
        assert es[i..][0] == es[i] && es[i..][1..] == es[i+1..];
        assert elems[..i] == es[..i] && elems[i+1..] == PrunedAll(es[i+1..]);
        var elem := RemoveEmptyContainers(es[i]);
        elems := elems[i := elem];
        assert elems == es[..i] + ([elem] + PrunedAll(es[i+1..]));
        if IsEmpty(elem) {
          elems := elems[..i] + elems[i+1..];
          assert elems == es[..i] + ([] + PrunedAll(es[i+1..]));
        }
      }
      assert es[0..] == es && elems == PrunedAll(es);
      out := Arr(elems);
    case Leaf(_) =>
  }

  /** No container inside the value is empty. */
  predicate NoneEmptyInside(v: Row) {
    match v
    case Leaf(_) => true
    case Obj(m) => forall k | k in m :: !IsEmpty(m[k]) && NoneEmptyInside(m[k])
    case Arr(es) => forall i | 0 <= i < |es| :: !IsEmpty(es[i]) && NoneEmptyInside(es[i])
  }

  lemma {:induction false} PrunedHasNoneEmpty(v: Row)
    ensures NoneEmptyInside(Pruned(v))
    decreases v, 1
  {
    match v
    case Leaf(_) =>
    case Obj(m) => forall k | k in m { PrunedHasNoneEmpty(m[k]); }
    case Arr(es) => PrunedAllHaveNone(es);
  }

  /** Nowhere inside the pruned value is there an empty object or an empty array. */
  lemma NothingEmptyInPruned(v: Row, q: Path)
    requires q != []
    ensures Get(Pruned(v), q) != Some(Obj(map[])) && Get(Pruned(v), q) != Some(Arr([]))
  {
    PrunedHasNoneEmpty(v);
    NothingEmptyInside(Pruned(v), q);
  }

  lemma {:induction false} NothingEmptyInside(v: Row, q: Path)
    requires NoneEmptyInside(v) && q != []
    ensures Get(v, q) != Some(Obj(map[])) && Get(v, q) != Some(Arr([]))
    decreases |q|
  {
    if Get(v, q).Some? && |q| > 1 {
      match (v, q[0])
      case (Obj(m), Name(k)) => NothingEmptyInside(m[k], q[1..]);
      case (Arr(es), Idx(i)) => NothingEmptyInside(es[i], q[1..]);
    }
  }

  lemma {:induction false} PrunedAllHaveNone(es: seq<Row>)
    ensures NoneEmptyInside(Arr(PrunedAll(es)))
    decreases es, 0
  {
    if es != [] {
      PrunedHasNoneEmpty(es[0]);
      PrunedAllHaveNone(es[1..]);
    }
  }

  lemma {:induction false} NothingToPrune(v: Row)
    requires NoneEmptyInside(v)
    ensures Pruned(v) == v
    decreases v, 1
  {
    match v
    case Leaf(_) =>
    case Obj(m) =>
      forall k | k in m { NothingToPrune(m[k]); }
      assert Pruned(v).fields == m;
    case Arr(es) => NothingToPruneIn(es);
  }

  lemma {:induction false} NothingToPruneIn(es: seq<Row>)
    requires NoneEmptyInside(Arr(es))
    ensures PrunedAll(es) == es
    decreases es, 0
  {
    if es != [] {
      NothingToPrune(es[0]);
      assert NoneEmptyInside(Arr(es[1..])) by {
        forall i | 0 <= i < |es[1..]| ensures !IsEmpty(es[1..][i]) && NoneEmptyInside(es[1..][i]) {
          assert es[1..][i] == es[i+1];
        }
      }
      NothingToPruneIn(es[1..]);
      assert es == [es[0]] + es[1..];
    }
  }

  /** Pruning a second time changes nothing. */
  lemma PruneTwice(v: Row)
    ensures Pruned(Pruned(v)) == Pruned(v)
  {
    PrunedHasNoneEmpty(v);
    NothingToPrune(Pruned(v));
  }

  /** The scalars of a value in order, fields being taken in the order of `keys`. */
  function Scalars(v: Row, keys: seq<string>): seq<Scalar>
    decreases v, 1
  {
    match v
    case Leaf(x) => [x]
    case Obj(m) => FieldScalars(m, keys, keys)
    case Arr(es) => ElementScalars(es, keys)
  }

  function FieldScalars(m: map<string, Row>, todo: seq<string>, keys: seq<string>): seq<Scalar>
    decreases Obj(m), 0, |todo|
  {
    if todo == [] then []
    else (if todo[0] in m then Scalars(m[todo[0]], keys) else []) + FieldScalars(m, todo[1..], keys)
  }

  function ElementScalars(es: seq<Row>, keys: seq<string>): seq<Scalar>
    decreases es, 0
  {
    if es == [] then [] else Scalars(es[0], keys) + ElementScalars(es[1..], keys)
  }

  lemma {:induction false} NoFieldScalars(todo: seq<string>, keys: seq<string>)
    ensures FieldScalars(map[], todo, keys) == []
    decreases |todo|
  {
    if todo != [] { NoFieldScalars(todo[1..], keys); }
  }

  lemma EmptyHasNoScalars(v: Row, keys: seq<string>)
    requires IsEmpty(v)
    ensures Scalars(v, keys) == []
  {
    NoFieldScalars(keys, keys);
  }

  /** Pruning keeps every scalar, in order, whatever order fields are listed in. */
  lemma {:induction false} PruneKeepsScalars(v: Row, keys: seq<string>)
    ensures Scalars(Pruned(v), keys) == Scalars(v, keys)
    decreases v, 1
  {
    match v
    case Leaf(_) =>
    case Obj(m) =>
      forall k | k in m
        ensures (if k in Pruned(v).fields then Scalars(Pruned(v).fields[k], keys) else []) == Scalars(m[k], keys)
      {
        PruneKeepsScalars(m[k], keys);
        if IsEmpty(Pruned(m[k])) { EmptyHasNoScalars(Pruned(m[k]), keys); }
      }
      SameFieldScalars(Pruned(v).fields, m, keys, keys);
    case Arr(es) => PruneKeepsElementScalars(es, keys);
  }

  lemma {:induction false} SameFieldScalars(a: map<string, Row>, b: map<string, Row>,
                                            todo: seq<string>, keys: seq<string>)
    requires a.Keys <= b.Keys
    requires forall k :: k in b ==> (if k in a then Scalars(a[k], keys) else []) == Scalars(b[k], keys)
    ensures FieldScalars(a, todo, keys) == FieldScalars(b, todo, keys)
    decreases |todo|
  {
    if todo != [] { SameFieldScalars(a, b, todo[1..], keys); }
  }

  lemma {:induction false} PruneKeepsElementScalars(es: seq<Row>, keys: seq<string>)
    ensures ElementScalars(PrunedAll(es), keys) == ElementScalars(es, keys)
    decreases es, 0
  {
    if es != [] {
      PruneKeepsScalars(es[0], keys);
      PruneKeepsElementScalars(es[1..], keys);
      var p := Pruned(es[0]);
      if IsEmpty(p) {
        EmptyHasNoScalars(p, keys);
        assert PrunedAll(es) == PrunedAll(es[1..]);
      } else {
        assert PrunedAll(es) == [p] + PrunedAll(es[1..]);
        assert ([p] + PrunedAll(es[1..]))[1..] == PrunedAll(es[1..]);
      }
    }
  }

  // ----- One row of an access result

  ghost function PathSet(paths: seq<FieldPath>): set<FieldPath> {
    set p | p in paths
  }

  /** The row cut down to the target paths, given in any order. */
  method SelectTargets(row: Row, paths: seq<FieldPath>) returns (r: Result)
    requires row.Obj?
    ensures r.Failure? <==> exists p :: p in paths && EndsAtObject(row, p)
    ensures r.Success? ==> r.value == Pruned(Project(row, PathSet(paths)))
  {
    var saved := Obj(map[]);
    assert Project(row, {}).fields == map[];
    for i := 0 to |paths|
      invariant saved == Project(row, PathSet(paths[..i]))
      invariant forall p :: p in paths[..i] ==> !EndsAtObject(row, p)
    {
      SelectNext(row, PathSet(paths[..i]), paths[i]);
      var next := SelectAndSaveField(saved, row, paths[i]);
      if next.Failure? {
        assert paths[i] in paths;
        return Failure;
      }
      saved := next.value;
      assert PathSet(paths[..i+1]) == PathSet(paths[..i]) + {paths[i]};
    }
    assert paths[..|paths|] == paths;
    var pruned := RemoveEmptyContainers(saved);
    r := Success(pruned);
  }
}
