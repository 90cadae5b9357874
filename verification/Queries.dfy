/** The three retrieval query generators, and the rows each of them selects. */
module Queries {
  import opened Common
  import opened Rows

  type Values = seq<Scalar>

  /** A row as the datastore holds it; a column that is missing is never selected. */
  type Record = map<string, Scalar>

  // ----- What is asked for

  /** What `input_data` asks of the fields that can be queried: each value is cast, those
      with no cast are dropped, and so is a field left without values. */
  method TypedFilteredValues(input: map<string, Values>, keys: seq<string>, queried: set<string>,
                             cast: (string, Scalar) -> Scalar)
      returns (typed: map<string, Values>)
    requires forall k :: k in keys <==> k in input
    ensures forall k :: k in typed <==>
              k in input && k in queried && exists v :: v in input[k] && cast(k, v) != Null
    ensures forall k, x :: k in typed ==>
              (x in typed[k] <==> x != Null && exists v :: v in input[k] && cast(k, v) == x)
    ensures Askable(typed)
  {
    typed := map[];
    for i := 0 to |keys|
      invariant forall k :: k in typed <==>
                  k in keys[..i] && k in queried && exists v :: v in input[k] && cast(k, v) != Null
      invariant forall k, x :: k in typed ==>
                  (x in typed[k] <==> x != Null && exists v :: v in input[k] && cast(k, v) == x)
    {
      var k := keys[i];
      if k in queried {
        var filtered := Casted(cast, k, input[k]);
        if filtered != [] {
          assert filtered[0] in filtered;
          typed := typed[k := filtered];
        } else {
          assert forall v :: v in input[k] && cast(k, v) != Null ==> cast(k, v) in filtered;
        }
      }
    }
    forall k | k in typed ensures typed[k] != [] && Null !in typed[k] {
      var v :| v in input[k] && cast(k, v) != Null;
      assert cast(k, v) in typed[k];
    }
  }

  function Casted(cast: (string, Scalar) -> Scalar, k: string, vs: Values): (r: Values)
    ensures forall x :: x in r <==> x != Null && exists v :: v in vs && cast(k, v) == x
  {
    if vs == [] then []
    else
      var last := cast(k, vs[|vs| - 1]);
      var before := Casted(cast, k, vs[..|vs| - 1]);
      assert vs == vs[..|vs| - 1] + [vs[|vs| - 1]];
      if last == Null then before else before + [last]
  }

  predicate Askable(typed: map<string, Values>) {
    forall f | f in typed :: typed[f] != [] && Null !in typed[f]
  }

  /** The selection asked for: some queried field holds one of its values. */
  ghost predicate Selected(typed: map<string, Values>, row: Record) {
    exists f :: f in typed && f in row && row[f] in typed[f]
  }

  /** The members, each listed once. */
  ghost predicate IsList(s: Values, members: Values) {
    NoDuplicates(s) && forall x :: x in s <==> x in members
  }

  /** The dictionary's iteration order and, for each field, that of the set of its values. */
  ghost predicate IsOrdering(typed: map<string, Values>, order: seq<string>, listed: map<string, Values>) {
    (forall f :: f in order <==> f in typed) &&
    NoDuplicates(order) &&
    listed.Keys == typed.Keys && forall f :: f in typed ==> IsList(listed[f], typed[f])
  }

  // ----- SQL

  /** `field = :operand` or `field IN (:operand, ...)`. */
  datatype Clause = Clause(field: string, operands: seq<string>)

  /** The clauses joined by OR, and the values bound to the operands. */
  datatype Statement = Statement(clauses: seq<Clause>, params: map<string, Values>)

  ghost predicate Holds(c: Clause, params: map<string, Values>, row: Record) {
    c.field in row && exists o :: o in c.operands && o in params && row[c.field] in params[o]
  }

  ghost predicate Matches(s: Statement, row: Record) {
    exists i :: 0 <= i < |s.clauses| && Holds(s.clauses[i], s.params, row)
  }

  /** One operand a field, bound to a tuple of its values. */
  method GenerateQuery(typed: map<string, Values>, order: seq<string>, listed: map<string, Values>)
      returns (r: Option<Statement>)
    requires Askable(typed) && IsOrdering(typed, order, listed)
    ensures r.None? <==> typed == map[]
    ensures forall row :: r.Some? ==> (Matches(r.value, row) <==> Selected(typed, row))
  {
    var clauses: seq<Clause> := [];
    var params: map<string, Values> := map[];
    for i := 0 to |order|
      invariant |clauses| == i
      invariant forall k :: 0 <= k < i ==>
                  clauses[k] == Clause(order[k], [order[k]]) &&
                  order[k] in params && params[order[k]] == listed[order[k]]
    {
      var f := order[i];
      assert f in typed && typed[f][0] in listed[f];
      clauses := clauses + [Clause(f, [f])];
      params := params[f := listed[f]];
    }
    if clauses == [] {
      assert forall f :: f !in order;
      return None;
    }
    assert order[0] in typed;
    var s := Statement(clauses, params);
    forall row ensures Matches(s, row) <==> Selected(typed, row) {
      if f :| f in typed && f in row && row[f] in typed[f] {
        var k :| 0 <= k < |order| && order[k] == f;
        assert f in clauses[k].operands && row[f] in params[f];
        assert Holds(s.clauses[k], s.params, row);
      }
      if k :| 0 <= k < |clauses| && Holds(clauses[k], params, row) {
        assert order[k] in typed;
      }
    }
    r := Some(s);
  }

  // ----- SQL without tuples

  function Digits(n: nat): (r: string)
    ensures r != [] && '_' !in r
  {
    var d := '0' + (n % 10) as char;
    if n < 10 then [d] else Digits(n / 10) + [d]
  }

  /** The number a string of decimal digits stands for. */
  function Value(s: string): int {
    if s == [] then 0 else 10 * Value(s[..|s|-1]) + (s[|s|-1] as int - '0' as int)
  }

  /** The digits are decimal ones, they stand for the number, and none is put in front in vain. */
  lemma {:induction false} DigitsValue(n: nat)
    ensures Value(Digits(n)) == n && (forall c :: c in Digits(n) ==> '0' <= c <= '9')
    ensures n > 0 ==> Digits(n)[0] != '0'
  {
    var s := Digits(n);
    if n >= 10 {
      DigitsValue(n / 10);
      assert s[..|s|-1] == Digits(n / 10);
    } else {
      assert s[..0] == [];
      assert Value(s[..0]) == 0;
    }
  }

  lemma DigitsInjective(m: nat, n: nat)
    requires Digits(m) == Digits(n)
    ensures m == n
  {
    DigitsValue(m);
    DigitsValue(n);
  }

  const INFIX := "_in_stmt_generated_"

  function Generated(field: string, i: nat): string { field + INFIX + Digits(i) }

  /** The field ends where the last underscore says. */
  lemma LastUnderscore(f: string, i: nat)
    ensures var s, n := Generated(f, i), |f| + |INFIX|;
            n <= |s| && s[n-1] == '_' && (forall k :: n <= k < |s| ==> s[k] != '_') &&
            s[..|f|] == f && s[n..] == Digits(i)
  {
    var s, n := Generated(f, i), |f| + |INFIX|;
    assert s[n-1] == INFIX[|INFIX| - 1];
    forall k | n <= k < |s| ensures s[k] != '_' { assert s[k] == Digits(i)[k - n]; }
  }

  /** No two generated names are the same. */
  lemma GeneratedInjective(f: string, i: nat, g: string, j: nat)
    requires Generated(f, i) == Generated(g, j)
    ensures f == g && i == j
  {
    LastUnderscore(f, i);
    LastUnderscore(g, j);
    assert |f| == |g|;
    DigitsInjective(i, j);
  }

  function GeneratedNames(f: string, n: nat): (r: seq<string>)
    ensures |r| == n
    ensures forall i :: 0 <= i < n ==> r[i] == Generated(f, i)
  {
    seq(n, i requires 0 <= i < n => Generated(f, i))
  }

  /** One operand a value, named after the field unless the value is its only one. */
  function Operands(f: string, n: nat): (r: seq<string>)
    ensures |r| == n
  {
    if n == 1 then [f] else GeneratedNames(f, n)
  }

  function Bind(params: map<string, Values>, names: seq<string>, values: Values): map<string, Values>
    requires |names| <= |values|
  {
    if names == [] then params
    else
      var n := |names| - 1;
      Bind(params, names[..n], values)[names[n] := [values[n]]]
  }

  function Expanded(order: seq<string>, listed: map<string, Values>): (r: Statement)
    requires forall f :: f in order ==> f in listed
    ensures |r.clauses| == |order|
    ensures forall k :: 0 <= k < |order| ==> r.clauses[k] == Clause(order[k], Operands(order[k], |listed[order[k]]|))
  {
    if order == [] then Statement([], map[])
    else
      var n := |order| - 1;
      var f := order[n];
      var before := Expanded(order[..n], listed);
      var names := Operands(f, |listed[f]|);
      Statement(before.clauses + [Clause(f, names)], Bind(before.params, names, listed[f]))
  }

  method BindValues(f: string, data: Values, params: map<string, Values>)
      returns (names: seq<string>, bound: map<string, Values>)
    ensures names == Operands(f, |data|)
    ensures bound == Bind(params, names, data)
  {
    if |data| == 1 {
      names, bound := [f], params[f := [data[0]]];
      assert names[..0] == [];
    } else {
      names, bound := [], params;
      for j := 0 to |data|
        invariant names == GeneratedNames(f, j)
        invariant bound == Bind(params, names, data)
      {
        var name := Generated(f, j);
        assert (names + [name])[..j] == names;
        bound := bound[name := [data[j]]];
        names := names + [name];
      }
    }
  }

  lemma ExpandedNext(order: seq<string>, listed: map<string, Values>, i: nat)
    requires forall f :: f in order ==> f in listed
    requires i < |order|
    ensures var s, f := Expanded(order[..i], listed), order[i];
            var names := Operands(f, |listed[f]|);
            Expanded(order[..i+1], listed)
              == Statement(s.clauses + [Clause(f, names)], Bind(s.params, names, listed[f]))
  {
    assert order[..i+1][..i] == order[..i];
  }

  /** One operand a value; no statement when nothing is asked for. */
  method GenerateExpandedQuery(typed: map<string, Values>, order: seq<string>, listed: map<string, Values>)
      returns (r: Option<Statement>)
    requires Askable(typed) && IsOrdering(typed, order, listed)
    ensures r == if typed == map[] then None else Some(Expanded(order, listed))
    ensures forall row :: r.Some? && NoClash(typed) ==> (Matches(r.value, row) <==> Selected(typed, row))
  {
    var s := Statement([], map[]);
    for i := 0 to |order|
      invariant s == Expanded(order[..i], listed)
    {
      var f := order[i];
      ExpandedNext(order, listed, i);
      var names, params := BindValues(f, listed[f], s.params);
      s := Statement(s.clauses + [Clause(f, names)], params);
    }
    assert order[..|order|] == order;
    if s.clauses == [] {
      assert forall f :: f !in order;
      return None;
    }
    assert order[0] in typed;
    forall row | NoClash(typed) ensures Matches(s, row) <==> Selected(typed, row) {
      NoClashSelects(typed, order, listed, row);
    }
    r := Some(s);
  }

  // ----- Clashing names

  lemma {:induction false} ListLength(s: Values, members: Values)
    requires IsList(s, members)
    ensures |s| == |Elems(members)|
  {
    assert Elems(members) == Elems(s);
    ElemsSize(s);
  }

  /** No field asked for one value is called what a value of another field is bound to. */
  predicate NoClash(typed: map<string, Values>) {
    forall f, g | f in typed && g in typed && |Elems(typed[f])| == 1 && |Elems(typed[g])| > 1 ::
      f !in GeneratedNames(g, |Elems(typed[g])|)
  }

  lemma OperandsDistinct(typed: map<string, Values>, f: string, g: string, i: nat, j: nat)
    requires NoClash(typed) && f in typed && g in typed
    requires i < |Elems(typed[f])| && j < |Elems(typed[g])|
    requires Operands(f, |Elems(typed[f])|)[i] == Operands(g, |Elems(typed[g])|)[j]
    ensures f == g && i == j
  {
    if |Elems(typed[f])| > 1 && |Elems(typed[g])| > 1 {
      GeneratedInjective(f, i, g, j);
    }
  }

  lemma {:induction false} BindElsewhere(params: map<string, Values>, names: seq<string>, values: Values, o: string)
    requires |names| <= |values| && o !in names
    ensures o in Bind(params, names, values) <==> o in params
    ensures o in params ==> Bind(params, names, values)[o] == params[o]
    decreases |names|
  {
    if names != [] { BindElsewhere(params, names[..|names| - 1], values, o); }
  }

  lemma {:induction false} BindAt(params: map<string, Values>, names: seq<string>, values: Values, j: nat)
    requires j < |names| <= |values|
    requires forall i :: 0 <= i < |names| && names[i] == names[j] ==> i == j
    ensures names[j] in Bind(params, names, values) && Bind(params, names, values)[names[j]] == [values[j]]
    decreases |names|
  {
    if j < |names| - 1 { BindAt(params, names[..|names| - 1], values, j); }
  }

  lemma OwnBound(typed: map<string, Values>, params: map<string, Values>, g: string, data: Values, j: nat)
    requires NoClash(typed) && g in typed && |data| == |Elems(typed[g])| && j < |data|
    ensures var names := Operands(g, |data|);
            names[j] in Bind(params, names, data) && Bind(params, names, data)[names[j]] == [data[j]]
  {
    var names := Operands(g, |data|);
    forall i | 0 <= i < |names| && names[i] == names[j] ensures i == j { OperandsDistinct(typed, g, g, i, j); }
    BindAt(params, names, data, j);
  }

  lemma OtherKept(typed: map<string, Values>, params: map<string, Values>, f: string, j: nat, g: string, data: Values)
    requires NoClash(typed) && f in typed && g in typed && f != g
    requires |data| == |Elems(typed[g])| && j < |Elems(typed[f])|
    ensures var o, after := Operands(f, |Elems(typed[f])|)[j], Bind(params, Operands(g, |data|), data);
            o in params ==> o in after && after[o] == params[o]
  {
    var o, names := Operands(f, |Elems(typed[f])|)[j], Operands(g, |data|);
    forall i | 0 <= i < |names| ensures names[i] != o {
      if names[i] == o { OperandsDistinct(typed, f, g, j, i); }
    }
    BindElsewhere(params, names, data, o);
  }

  /** Without a clash every operand is bound to the value it stands for. */
  lemma {:induction false} ExpandedBinds(typed: map<string, Values>, order: seq<string>, listed: map<string, Values>,
                                         n: nat, k: nat, j: nat)
    requires NoClash(typed) && k < n <= |order|
    requires forall f :: f in order ==> f in typed && f in listed && |listed[f]| == |Elems(typed[f])|
    requires NoDuplicates(order)
    requires j < |listed[order[k]]|
    ensures var o, params := Operands(order[k], |listed[order[k]]|)[j], Expanded(order[..n], listed).params;
            o in params && params[o] == [listed[order[k]][j]]
    decreases n
  {
    var f, g := order[k], order[n-1];
    ExpandedNext(order, listed, n - 1);
    var before := Expanded(order[..n-1], listed).params;
    if k == n - 1 {
      OwnBound(typed, before, g, listed[g], j);
    } else {
      ExpandedBinds(typed, order, listed, n - 1, k, j);
      OtherKept(typed, before, f, j, g, listed[g]);
    }
  }

  lemma AskedIsMatched(typed: map<string, Values>, order: seq<string>, listed: map<string, Values>, row: Record)
    requires NoClash(typed) && IsOrdering(typed, order, listed) && Selected(typed, row)
    requires forall f :: f in typed ==> |listed[f]| == |Elems(typed[f])|
    ensures Matches(Expanded(order, listed), row)
  {
    var s := Expanded(order, listed);
    var f :| f in typed && f in row && row[f] in typed[f];
    assert row[f] in listed[f] && f in order;
    var k :| 0 <= k < |order| && order[k] == f;
    var j :| 0 <= j < |listed[f]| && listed[f][j] == row[f];
    ExpandedBinds(typed, order, listed, |order|, k, j);
    assert order[..|order|] == order;
    assert Operands(f, |listed[f]|)[j] in s.clauses[k].operands;
    assert Holds(s.clauses[k], s.params, row);
  }

  lemma MatchedIsAsked(typed: map<string, Values>, order: seq<string>, listed: map<string, Values>, row: Record, k: nat)
    requires NoClash(typed) && IsOrdering(typed, order, listed)
    requires forall f :: f in typed ==> |listed[f]| == |Elems(typed[f])|
    requires k < |order| && Holds(Expanded(order, listed).clauses[k], Expanded(order, listed).params, row)
    ensures Selected(typed, row)
  {
    var f, params := order[k], Expanded(order, listed).params;
    assert f in order;
    var names := Operands(f, |listed[f]|);
    var o :| o in names && o in params && row[f] in params[o];
    var j :| 0 <= j < |names| && names[j] == o;
    ExpandedBinds(typed, order, listed, |order|, k, j);
    assert order[..|order|] == order;
    assert row[f] == listed[f][j];
  }

  /** Without a clash the statement selects what was asked for. */
  lemma NoClashSelects(typed: map<string, Values>, order: seq<string>, listed: map<string, Values>, row: Record)
    requires NoClash(typed) && IsOrdering(typed, order, listed)
    ensures Matches(Expanded(order, listed), row) <==> Selected(typed, row)
  {
    forall f | f in typed ensures |listed[f]| == |Elems(typed[f])| { ListLength(listed[f], typed[f]); }
    if Selected(typed, row) { AskedIsMatched(typed, order, listed, row); }
    var s := Expanded(order, listed);
    if k :| 0 <= k < |s.clauses| && Holds(s.clauses[k], s.params, row) { MatchedIsAsked(typed, order, listed, row, k); }
  }

  // ----- What a clash does

  lemma {:induction false} ListOf(vs: Values) returns (s: Values)
    ensures IsList(s, vs)
    decreases |vs|
  {
    if vs == [] {
      s := [];
    } else {
      var n := |vs| - 1;
      s := ListOf(vs[..n]);
      assert vs == vs[..n] + [vs[n]];
      if vs[n] !in s { s := s + [vs[n]]; }
    }
  }

  /** A list of two values or more can be ordered to have another value than `v` at a place. */
  lemma ListAvoiding(vs: Values, i: nat, v: Scalar) returns (s: Values)
    requires i < |Elems(vs)| && |Elems(vs)| > 1
    ensures IsList(s, vs) && |s| == |Elems(vs)| && s[i] != v
  {
    s := ListOf(vs);
    ListLength(s, vs);
    if s[i] == v {
      var j := if i == 0 then 1 else 0;
      var t := s[i := s[j]][j := s[i]];
      forall x ensures x in t <==> x in s {
        if x in s {
          var k :| 0 <= k < |s| && s[k] == x;
          assert t[if k == i then j else if k == j then i else k] == x;
        }
      }
      s := t;
    }
  }

  lemma {:induction false} ListsOf(typed: map<string, Values>, fields: set<string>)
      returns (listed: map<string, Values>)
    requires fields <= typed.Keys
    ensures listed.Keys == fields && forall f :: f in fields ==> IsList(listed[f], typed[f])
    decreases fields
  {
    if fields == {} {
      listed := map[];
    } else {
      var f :| f in fields;
      listed := ListsOf(typed, fields - {f});
      var s := ListOf(typed[f]);
      listed := listed[f := s];
    }
  }

  /** The field iterated last has its values bound. */
  lemma LastIsBound(before: seq<string>, g: string, listed: map<string, Values>, i: nat)
    requires forall f :: f in before ==> f in listed
    requires g in listed && i < |listed[g]| && |listed[g]| > 1
    ensures var r := Expanded(before + [g], listed).params;
            Generated(g, i) in r && r[Generated(g, i)] == [listed[g][i]]
  {
    var order := before + [g];
    assert order[..|before|] == before;
    var names := Operands(g, |listed[g]|);
    forall j | 0 <= j < |names| && names[j] == names[i] ensures j == i { GeneratedInjective(g, j, g, i); }
    BindAt(Expanded(before, listed).params, names, listed[g], i);
  }

  /** An ordering in which `g` is last and has another value than `v` at place `i`. */
  lemma LateOrdering(typed: map<string, Values>, g: string, i: nat, v: Scalar)
      returns (before: seq<string>, listed: map<string, Values>)
    requires g in typed && i < |Elems(typed[g])| && |Elems(typed[g])| > 1
    ensures IsOrdering(typed, before + [g], listed)
    ensures |listed[g]| == |Elems(typed[g])| && listed[g][i] != v
  {
    listed := ListsOf(typed, typed.Keys);
    var s := ListAvoiding(typed[g], i, v);
    listed := listed[g := s];
    before := Listing(typed.Keys - {g});
    assert forall f :: f in before <==> f in Elems(before);
  }

  lemma OneValueMissed(order: seq<string>, listed: map<string, Values>, f: string, v: Scalar)
    requires forall g :: g in order ==> g in listed
    requires f in listed && |listed[f]| == 1
    requires f in Expanded(order, listed).params && v !in Expanded(order, listed).params[f]
    ensures !Matches(Expanded(order, listed), map[f := v])
  {
    var r := Expanded(order, listed);
    forall k | 0 <= k < |r.clauses| ensures !Holds(r.clauses[k], r.params, map[f := v]) {
      if order[k] == f { assert r.clauses[k].operands == [f]; }
    }
  }

  lemma LateClashMisses(before: seq<string>, g: string, listed: map<string, Values>, f: string, i: nat, v: Scalar)
    requires forall h :: h in before + [g] ==> h in listed
    requires f in listed && |listed[f]| == 1 && f == Generated(g, i)
    requires g in listed && i < |listed[g]| && |listed[g]| > 1 && listed[g][i] != v
    ensures !Matches(Expanded(before + [g], listed), map[f := v])
  {
    assert forall h :: h in before ==> h in before + [g];
    LastIsBound(before, g, listed, i);
    OneValueMissed(before + [g], listed, f, v);
  }

  /** A clash makes some ordering miss a row that was asked for: the one value of the
      field is overwritten by a value of the other field. */
  lemma ClashMisses(typed: map<string, Values>, f: string, g: string, i: nat)
      returns (order: seq<string>, listed: map<string, Values>, row: Record)
    requires f in typed && g in typed && |Elems(typed[f])| == 1 && i < |Elems(typed[g])| && |Elems(typed[g])| > 1
    requires f == Generated(g, i)
    ensures IsOrdering(typed, order, listed)
    ensures Selected(typed, row) && !Matches(Expanded(order, listed), row)
  {
    var v :| v in Elems(typed[f]);
    var before;
    before, listed := LateOrdering(typed, g, i, v);
    order := before + [g];
    row := map[f := v];
    assert f in row && row[f] in typed[f];
    ListLength(listed[f], typed[f]);
    LateClashMisses(before, g, listed, f, i, v);
  }

  /** The statement selects what was asked for, in whatever order the dictionary and the
      sets are listed, just when no names clash. */
  lemma ExpandedSelectsIff(typed: map<string, Values>)
    ensures NoClash(typed) <==>
              forall order, listed, row :: IsOrdering(typed, order, listed) ==>
                (Matches(Expanded(order, listed), row) <==> Selected(typed, row))
  {
    if NoClash(typed) {
      forall order, listed, row | IsOrdering(typed, order, listed)
        ensures Matches(Expanded(order, listed), row) <==> Selected(typed, row)
      {
        NoClashSelects(typed, order, listed, row);
      }
    } else {
      var f, g :| f in typed && g in typed && |Elems(typed[f])| == 1 && |Elems(typed[g])| > 1 &&
                  f in GeneratedNames(g, |Elems(typed[g])|);
      var i :| 0 <= i < |Elems(typed[g])| && GeneratedNames(g, |Elems(typed[g])|)[i] == f;
      var order, listed, row := ClashMisses(typed, f, g, i);
    }
  }

  // ----- MongoDB

  datatype Condition = Equal(value: Scalar) | OneOf(values: Values)

  /** Every pair has to hold, or with `$or` some one of the listed filters. */
  datatype Filter = AllOf(pairs: map<string, Condition>) | AnyOf(filters: seq<map<string, Condition>>)

  predicate Meets(row: Record, field: string, c: Condition) {
    field in row && match c case Equal(v) => row[field] == v case OneOf(vs) => row[field] in vs
  }

  ghost predicate MeetsAll(pairs: map<string, Condition>, row: Record) {
    forall f :: f in pairs ==> Meets(row, f, pairs[f])
  }

  ghost predicate Finds(q: Filter, row: Record) {
    match q
    case AllOf(pairs) => MeetsAll(pairs, row)
    case AnyOf(filters) => exists i :: 0 <= i < |filters| && MeetsAll(filters[i], row)
  }

  method TransformQueryPairs(pairs: map<string, Condition>, order: seq<string>) returns (q: Filter)
    requires (forall f :: f in order <==> f in pairs) && NoDuplicates(order)
    ensures q.AllOf? <==> |order| < 2
    ensures forall row :: pairs != map[] ==> (Finds(q, row) <==> exists f :: f in pairs && Meets(row, f, pairs[f]))
  {
    if |order| < 2 {
      q := AllOf(pairs);
      if pairs != map[] {
        assert order != [];
        assert forall f :: f in pairs <==> f == order[0];
      }
    } else {
      var filters: seq<map<string, Condition>> := [];
      for i := 0 to |order|
        invariant |filters| == i
        invariant forall k :: 0 <= k < i ==> filters[k] == map[order[k] := pairs[order[k]]]
      {
        filters := filters + [map[order[i] := pairs[order[i]]]];
      }
      q := AnyOf(filters);
      forall row ensures Finds(q, row) <==> exists f :: f in pairs && Meets(row, f, pairs[f]) {
        if f :| f in pairs && Meets(row, f, pairs[f]) {
          var k :| 0 <= k < |order| && order[k] == f;
          assert MeetsAll(filters[k], row);
        }
        if k :| 0 <= k < |filters| && MeetsAll(filters[k], row) {
          assert order[k] in filters[k];
        }
      }
    }
  }

  method GenerateMongoQuery(typed: map<string, Values>, order: seq<string>) returns (r: Option<Filter>)
    requires Askable(typed)
    requires (forall f :: f in order <==> f in typed) && NoDuplicates(order)
    ensures r.None? <==> typed == map[]
    ensures forall row :: r.Some? ==> (Finds(r.value, row) <==> Selected(typed, row))
  {
    if typed == map[] { return None; }
    var pairs: map<string, Condition> := map[];
    for i := 0 to |order|
      invariant forall f :: f in pairs <==> f in order[..i]
      invariant forall f, row :: f in pairs && f in row ==> (Meets(row, f, pairs[f]) <==> row[f] in typed[f])
    {
      var data := typed[order[i]];
      pairs := pairs[order[i] := if |data| == 1 then Equal(data[0]) else OneOf(data)];
    }
    var f :| f in typed;
    assert f in pairs;
    var q := TransformQueryPairs(pairs, order);
    forall row ensures Finds(q, row) <==> Selected(typed, row) {
      if f :| f in typed && f in row && row[f] in typed[f] { assert Meets(row, f, pairs[f]); }
    }
    r := Some(q);
  }
}
