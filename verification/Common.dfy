/** What several modules use: an optional value, and sequences as listings of sets. */
module Common {

  datatype Option<+T> = None | Some(value: T)

  function Elems<T>(s: seq<T>): set<T> {
    set x | x in s
  }

  ghost predicate NoDuplicates<T>(s: seq<T>) {
    forall i, j :: 0 <= i < j < |s| ==> s[i] != s[j]
  }

  lemma {:induction false} ElemsSize<T>(s: seq<T>)
    requires NoDuplicates(s)
    ensures |Elems(s)| == |s|
    decreases |s|
  {
    if s != [] {
      var n := |s| - 1;
      ElemsSize(s[..n]);
      assert s == s[..n] + [s[n]];
      assert Elems(s) == Elems(s[..n]) + {s[n]};
    }
  }

  lemma ElemsNext<T>(s: seq<T>, i: nat)
    requires i < |s|
    ensures Elems(s[..i+1]) == Elems(s[..i]) + {s[i]}
  {
    assert s[..i+1] == s[..i] + [s[i]];
  }

  /** Every finite set can be listed. */
  lemma {:induction false} Listing<T>(xs: set<T>) returns (s: seq<T>)
    ensures NoDuplicates(s) && Elems(s) == xs
    decreases xs
  {
    if xs == {} {
      s := [];
    } else {
      var x :| x in xs;
      var rest := Listing(xs - {x});
      s := rest + [x];
      forall i | 0 <= i < |rest| ensures rest[i] != x { assert rest[i] in Elems(rest); }
      assert Elems(s) == Elems(rest) + {x};
    }
  }
}
