/** A queue that can also give up the first element satisfying a condition. */
module MatchingQueues {
  import opened Common

  /** Index of the first element satisfying `fn`, or the length. */
  function FirstMatch<T>(fn: T -> bool, data: seq<T>): (i: nat)
    ensures i <= |data|
  {
    if data == [] || fn(data[0]) then 0 else 1 + FirstMatch(fn, data[1..])
  }

  lemma {:induction false} FirstMatchIsFirst<T>(fn: T -> bool, data: seq<T>, i: nat)
    requires i <= |data| && forall j :: 0 <= j < i ==> !fn(data[j])
    requires i < |data| ==> fn(data[i])
    ensures FirstMatch(fn, data) == i
    decreases i
  {
    if i > 0 { FirstMatchIsFirst(fn, data[1..], i - 1); }
  }

  lemma {:induction false} FirstMatchMatches<T>(fn: T -> bool, data: seq<T>)
    ensures var i := FirstMatch(fn, data);
            (i < |data| ==> fn(data[i])) && forall j :: 0 <= j < i ==> !fn(data[j])
  {
    if data != [] && !fn(data[0]) {
      FirstMatchMatches(fn, data[1..]);
      var i := FirstMatch(fn, data);
      forall j | 0 <= j < i ensures !fn(data[j]) {
        if j > 0 { assert data[j] == data[1..][j-1]; }
      }
    }
  }

  function PushedIfNew<T(==)>(data: seq<T>, x: T): seq<T> {
    if x in data then data else data + [x]
  }

  lemma PushedIfNewElems<T>(data: seq<T>, x: T)
    requires NoDuplicates(data)
    ensures NoDuplicates(PushedIfNew(data, x))
    ensures Elems(PushedIfNew(data, x)) == Elems(data) + {x}
  {
  }

  class MatchingQueue<T(==)> {
    var data: seq<T>

    constructor (values: seq<T>)
      ensures data == values
    {
      data := values;
    }

    method Push(t: T)
      modifies this
      ensures data == old(data) + [t]
    {
      data := data + [t];
    }

    method PushIfNew(t: T)
      modifies this
      ensures data == PushedIfNew(old(data), t)
    {
      if t !in data { Push(t); }
    }

    method Pop() returns (r: Option<T>)
      modifies this
      ensures old(data) == [] ==> r == None && data == []
      ensures old(data) != [] ==> r == Some(old(data)[0]) && data == old(data)[1..]
    {
      if data == [] { return None; }
      r := Some(data[0]);
      data := data[1..];
    }

    /** Removes and returns the first element satisfying `fn`, leaving the others in order. */
    method PopFirstMatch(fn: T -> bool) returns (r: Option<T>)
      modifies this
      ensures var i := FirstMatch(fn, old(data));
              if i == |old(data)| then r == None && data == old(data)
              else r == Some(old(data)[i]) && data == old(data)[..i] + old(data)[i+1..]
    {
      var idx := 0;
      while idx < |data|
        invariant 0 <= idx <= |data|
        invariant data == old(data)
        invariant forall j :: 0 <= j < idx ==> !fn(data[j])
      {
        if fn(data[idx]) {
          FirstMatchIsFirst(fn, data, idx);
          r := Some(data[idx]);
          data := data[..idx] + data[idx+1..];
          return;
        }
        idx := idx + 1;
      }
      FirstMatchIsFirst(fn, data, idx);
      r := None;
    }

    method IsEmpty() returns (b: bool)
      ensures b <==> data == []
    {
      b := |data| == 0;
    }
  }
}
