/** Rows as trees, and paths into them. */
module Rows {
  import opened Common

  /** Python compares numbers, booleans among them, by value; so does `Num`. */
  datatype Scalar = Null | Str(text: string) | Num(value: real)

  datatype Row = Leaf(scalar: Scalar) | Obj(fields: map<string, Row>) | Arr(elems: seq<Row>)

  datatype Level = Name(name: string) | Idx(index: nat)

  type Path = seq<Level>

  const PLACEHOLDER := Leaf(Str("FIDESOPS_DO_NOT_MASK"))

  /** The value at a path, if there is one. */
  function Get(v: Row, p: Path): Option<Row> {
    if p == [] then Some(v)
    else match (v, p[0])
      case (Obj(m), Name(k)) => if k in m then Get(m[k], p[1..]) else None
      case (Arr(es), Idx(i)) => if i < |es| then Get(es[i], p[1..]) else None
      case _ => None
  }

  /** Replaces the value at a path; nothing happens when there is none. */
  function Put(v: Row, p: Path, x: Row): Row {
    if p == [] then x
    else match (v, p[0])
      case (Obj(m), Name(k)) => if k in m then Obj(m[k := Put(m[k], p[1..], x)]) else v
      case (Arr(es), Idx(i)) => if i < |es| then Arr(es[i := Put(es[i], p[1..], x)]) else v
      case _ => v
  }

  lemma {:induction false} GetPut(v: Row, p: Path, x: Row)
    requires Get(v, p).Some?
    ensures Get(Put(v, p, x), p) == Some(x)
    decreases |p|
  {
    if p != [] {
      match (v, p[0])
      case (Obj(m), Name(k)) => GetPut(m[k], p[1..], x);
      case (Arr(es), Idx(i)) => GetPut(es[i], p[1..], x);
    }
  }

  lemma {:induction false} GetAppend(v: Row, p: Path, q: Path)
    ensures Get(v, p + q) == if Get(v, p).Some? then Get(Get(v, p).value, q) else None
    decreases |p|
  {
    if p == [] {
      assert p + q == q;
    } else {
      assert (p + q)[1..] == p[1..] + q && (p + q)[0] == p[0];
      match (v, p[0])
      case (Obj(m), Name(k)) => if k in m { GetAppend(m[k], p[1..], q); }
      case (Arr(es), Idx(i)) => if i < |es| { GetAppend(es[i], p[1..], q); }
      case _ =>
    }
  }
}
