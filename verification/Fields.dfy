/** The fields a collection declares, and why erasure spares unmatched elements of its rows. */
module Fields {
  import opened Common
  import opened Rows
  import opened RefinePath
  import opened FilterElements
  import opened FilterMatch
  import opened Views
  import opened Masking
  import opened Erasure

  datatype Field =
    | ScalarField(categories: set<string>, returnAll: bool)
    | ObjectField(categories: set<string>, returnAll: bool, fields: map<string, Field>)

  /** No object field has data categories of its own; others are refused. */
  predicate Accepted(f: Field) {
    f.ObjectField? ==> f.categories == {} && forall k | k in f.fields :: Accepted(f.fields[k])
  }

  /** The field that a path leads to below another. */
  function SubField(f: Field, path: seq<string>): Option<Field> {
    if path == [] then Some(f)
    else if f.ObjectField? && path[0] in f.fields then SubField(f.fields[path[0]], path[1..])
    else None
  }

  datatype Named = Named(name: string, field: Field)

  type Collection = seq<Named>

  /** A collection's fields by path; a later declaration takes precedence. */
  function FieldAt(c: Collection, path: seq<string>): Option<Field> {
    if c == [] || path == [] then None
    else
      var n := |c| - 1;
      var here := if c[n].name == path[0] then SubField(c[n].field, path[1..]) else None;
      if here.Some? then here else FieldAt(c[..n], path)
  }

  /** Every field is accepted, and none is declared twice. */
  ghost predicate WellDeclared(c: Collection) {
    && (forall i :: 0 <= i < |c| ==> Accepted(c[i].field))
    && (forall i, j :: 0 <= i < j < |c| ==> c[i].name != c[j].name)
  }

  // ----- The same as a dictionary

  /** A field and all those below it, by the path that leads to them from it. */
  ghost function Collected(f: Field): map<seq<string>, Field>
    decreases f
  {
    if f.ScalarField? then map[[] := f]
    else
      var below := set k, p | k in f.fields && p in Collected(f.fields[k]) :: [k] + p;
      map p: seq<string> | p in {[]} + below ::
        if p != [] && p[0] in f.fields && p[1..] in Collected(f.fields[p[0]]) then Collected(f.fields[p[0]])[p[1..]]
        else f
  }

  /** Walking down a path finds what was collected for it. */
  lemma {:induction false} CollectedIff(f: Field, path: seq<string>)
    ensures path in Collected(f) <==> SubField(f, path).Some?
    ensures path in Collected(f) ==> Collected(f)[path] == SubField(f, path).value
    decreases f
  {
    if f.ObjectField? {
      if path != [] {
        assert path == [path[0]] + path[1..];
        if path[0] in f.fields { CollectedIff(f.fields[path[0]], path[1..]); }
      }
      if k, p :| k in f.fields && p in Collected(f.fields[k]) && path == [k] + p { assert path[1..] == p; }
    }
  }

  /** All fields of a collection, those declared later taking precedence. */
  ghost function FieldDict(c: Collection): map<seq<string>, Field> {
    if c == [] then map[]
    else
      var n := |c| - 1;
      var own := set p | p in Collected(c[n].field) :: [c[n].name] + p;
      FieldDict(c[..n]) +
      map p: seq<string> | p in own && p[1..] in Collected(c[n].field) :: Collected(c[n].field)[p[1..]]
  }

  /** The dictionary has just the fields that paths lead to. */
  lemma {:induction false} FieldDictIff(c: Collection, path: seq<string>)
    ensures path in FieldDict(c) <==> FieldAt(c, path).Some?
    ensures path in FieldDict(c) ==> FieldDict(c)[path] == FieldAt(c, path).value
    decreases |c|
  {
    if c != [] {
      var n := |c| - 1;
      FieldDictIff(c[..n], path);
      if path != [] {
        assert path == [path[0]] + path[1..];
        CollectedIff(c[n].field, path[1..]);
      }
      if p :| p in Collected(c[n].field) && path == [c[n].name] + p { assert path[1..] == p; }
    }
  }

  // ----- What a row is queried for

  function Coerced(cast: Row -> Row, vs: seq<Row>): (r: seq<Row>)
    ensures forall x :: x in r <==> x != Leaf(Null) && exists v :: v in vs && cast(v) == x
  {
    if vs == [] then []
    else
      var n := |vs| - 1;
      var before := Coerced(cast, vs[..n]);
      assert vs == vs[..n] + [vs[n]];
      if cast(vs[n]) == Leaf(Null) then before else before + [cast(vs[n])]
  }

  /** What a field's input comes to: everything, the values that can be cast, or nothing. */
  function Wanted(f: Field, cast: Row -> Row, vs: seq<Row>): (r: Option<Only>)
    ensures r == Some(None) <==> f.returnAll
    ensures r.Some? && r.value.Some? ==> r.value.value != []
    ensures r.Some? && r.value.Some? ==>
              forall x :: x in r.value.value <==> x != Leaf(Null) && exists v :: v in vs && cast(v) == x
    ensures r == None <==> !f.returnAll && forall v :: v in vs ==> cast(v) == Leaf(Null)
  {
    var filtered := Coerced(cast, vs);
    assert forall v :: v in vs && cast(v) != Leaf(Null) ==> cast(v) in filtered;
    assert filtered != [] ==> filtered[0] in filtered;
    if f.returnAll then Some(None) else if filtered == [] then None else Some(Some(filtered))
  }

  /** Only declared fields that can be queried are filtered by. */
  method PostProcessInputData(c: Collection, input: map<seq<string>, seq<Row>>, keys: seq<seq<string>>,
                              queried: set<seq<string>>, cast: (seq<string>, Row) -> Row) returns (query: Query)
    requires forall k :: k in keys <==> k in input
    ensures IsQuery(c, query)
    ensures forall k, only :: (k, only) in query <==>
              k in input && k in queried && FieldAt(c, k).Some? &&
              Wanted(FieldAt(c, k).value, x => cast(k, x), input[k]) == Some(only)
  {
    query := [];
    for i := 0 to |keys|
      invariant forall k, only :: (k, only) in query <==>
                  k in keys[..i] && k in queried && FieldAt(c, k).Some? &&
                  Wanted(FieldAt(c, k).value, x => cast(k, x), input[k]) == Some(only)
    {
      var k := keys[i];
      var f := FieldAt(c, k);
      if f.Some? && k in queried {
        var wanted := Wanted(f.value, x => cast(k, x), input[k]);
        if wanted.Some? { query := query + [(k, wanted.value)]; }
      }
      assert keys[..i+1] == keys[..i] + [k];
    }
  }

  ghost predicate IsQuery(c: Collection, query: Query) {
    forall i :: 0 <= i < |query| ==> FieldAt(c, query[i].0).Some?
  }

  /** Rules mask fields of the collection that have a data category. */
  ghost predicate AreTargets(c: Collection, targets: seq<Target>) {
    forall i :: 0 <= i < |targets| ==>
      FieldAt(c, targets[i].path).Some? && FieldAt(c, targets[i].path).value.categories != {}
  }

  // ----- No field below a masked one

  lemma {:induction false} CategoryHasNoSubField(f: Field, path: seq<string>, more: seq<string>)
    requires Accepted(f) && SubField(f, path).Some? && SubField(f, path).value.categories != {}
    requires SubField(f, path + more).Some?
    ensures more == []
    decreases |path|
  {
    if path == [] {
      assert path + more == more;
    } else {
      assert (path + more)[1..] == path[1..] + more;
      CategoryHasNoSubField(f.fields[path[0]], path[1..], more);
    }
  }

  lemma {:induction false} DeclaredBy(c: Collection, path: seq<string>) returns (i: nat)
    requires FieldAt(c, path).Some?
    ensures i < |c| && path != [] && c[i].name == path[0] && SubField(c[i].field, path[1..]) == FieldAt(c, path)
    decreases |c|
  {
    var n := |c| - 1;
    if c[n].name == path[0] && SubField(c[n].field, path[1..]).Some? {
      i := n;
    } else {
      i := DeclaredBy(c[..n], path);
    }
  }

  lemma CategoryIsNotExtended(c: Collection, path: seq<string>, t: seq<string>)
    requires WellDeclared(c) && FieldAt(c, path).Some? && FieldAt(c, path).value.categories != {}
    requires FieldAt(c, t).Some?
    ensures !(path < t)
  {
    if path < t {
      var i := DeclaredBy(c, path);
      var j := DeclaredBy(c, t);
      assert t[0] == path[0];
      var more := t[|path|..];
      assert t[1..] == path[1..] + more;
      CategoryHasNoSubField(c[i].field, path[1..], more);
    }
  }

  /** Where every field is declared once, no queried path leads on from a masked one. */
  lemma DeclaredIsNotExtended(c: Collection, query: Query, targets: seq<Target>)
    requires WellDeclared(c) && IsQuery(c, query) && AreTargets(c, targets)
    ensures !AnyExtended(query, targets)
  {
    forall i, j | 0 <= i < |targets| && 0 <= j < |query| ensures !(targets[i].path < query[j].0) {
      CategoryIsNotExtended(c, targets[i].path, query[j].0);
    }
  }

  /** So erasure masks the very values of the stored row, and spares every array element
      that did not match. */
  lemma ErasureIsExact(c: Collection, row: Row, query: Query, targets: seq<Target>, m: map<Path, Row>,
                       order: seq<Path>, p: Path)
    requires WellDeclared(c) && IsQuery(c, query) && AreTargets(c, targets)
    requires IsErasure(row, query, targets, m, order) && Get(row, p).Some?
    ensures PassesReplaced(Matched(row, query), p) ==> Get(Apply(row, m, order), p) == Get(row, p)
    ensures p in m ==> Get(FilterRow(row, Matched(row, query), Replace), p) == Get(row, p)
  {
    DeclaredIsNotExtended(c, query, targets);
    if PassesReplaced(Matched(row, query), p) { ErasureSpares(row, query, targets, m, order, p); }
    if p in m {
      WrittenPaths(row, Matched(row, query), targets, m, p);
      var t :| t in targets && t.supported && p in Matches(row, t.path, None);
      var i :| 0 <= i < |targets| && targets[i] == t;
      MaskedValuesSame(row, query, t.path, p);
    }
  }

  // ----- A field declared twice

  /** A first declared with a sub-field, and then as a scalar with a data category. */
  const TWICE: Collection :=
    [Named("A", ObjectField({}, false, map["B" := ScalarField({}, false)])), Named("A", ScalarField({"user"}, false))]

  const ON_B: Query := [(["A", "B"], Some([Leaf(Num(1.0))]))]

  const NULL_A: seq<Target> := [Target(["A"], true, (v: Row) => Leaf(Null))]

  lemma TwiceIsExtended()
    ensures AnyExtended(ON_B, NULL_A)
  {
    assert ["A"] < ["A", "B"];
    assert CanMatch(ON_B[0].1) by { assert Leaf(Num(1.0)) in ON_B[0].1.value; }
    assert Extended(ON_B, NULL_A[0].path);
    assert 0 < |NULL_A| && NULL_A[0].supported;
  }

  lemma TwiceIsConfigured()
    ensures IsQuery(TWICE, ON_B) && AreTargets(TWICE, NULL_A)
    ensures forall i :: 0 <= i < |TWICE| ==> Accepted(TWICE[i].field)
  {
    assert FieldAt(TWICE, ["A"]) == Some(ScalarField({"user"}, false)) by { assert ["A"][1..] == []; }
    assert FieldAt(TWICE, ["A", "B"]).Some? by {
      var f := TWICE[0].field;
      assert ["A", "B"][1..] == ["B"] && ["B"][1..] == [];
      assert SubField(f, ["B"]) == SubField(f.fields["B"], []);
      assert TWICE[..1][0] == TWICE[0];
    }
    assert "user" in {"user"};
  }

  /** Querying B and nulling A then changes, in some row, a value that did not match. */
  lemma DeclaredTwiceMayBeHit() returns (row: Row, m: map<Path, Row>, order: seq<Path>, p: Path)
    ensures IsQuery(TWICE, ON_B) && AreTargets(TWICE, NULL_A)
    ensures forall i :: 0 <= i < |TWICE| ==> Accepted(TWICE[i].field)
    ensures IsErasure(row, ON_B, NULL_A, m, order)
    ensures Get(row, p).Some? && PassesReplaced(Matched(row, ON_B), p)
    ensures Get(Apply(row, m, order), p) != Get(row, p)
  {
    TwiceIsConfigured();
    TwiceIsExtended();
    row, m, order, p := ErasureMayHit(ON_B, NULL_A);
  }
}
