/** The stored order of a policy's webhooks under replacing, moving and deleting. */
module WebhookOrder {
  import opened Common

  datatype Hook = Hook(policy: string, order: int)

  type Hooks = map<string, Hook>

  /** The policy's webhooks are the listed ones, and their orders are 0, 1, 2 and so on. */
  ghost predicate Listed(hooks: Hooks, policy: string, keys: seq<string>) {
    && (forall i :: 0 <= i < |keys| ==> keys[i] in hooks && hooks[keys[i]] == Hook(policy, i))
    && (forall k :: k in hooks && hooks[k].policy == policy ==> k in keys)
  }

  lemma ListedOnce(hooks: Hooks, policy: string, keys: seq<string>)
    requires Listed(hooks, policy, keys)
    ensures NoDuplicates(keys)
  {
  }

  /** The orders determine the list. */
  lemma ListIsUnique(hooks: Hooks, policy: string, keys: seq<string>, keys': seq<string>)
    requires Listed(hooks, policy, keys) && Listed(hooks, policy, keys')
    ensures keys == keys'
  {
    if |keys| < |keys'| { SamePlace(hooks, policy, keys', keys, |keys|); }
    if |keys'| < |keys| { SamePlace(hooks, policy, keys, keys', |keys'|); }
    if |keys| == |keys'| {
      forall i | 0 <= i < |keys| ensures keys'[i] == keys[i] {
        SamePlace(hooks, policy, keys, keys', i);
      }
    }
  }

  lemma SamePlace(hooks: Hooks, policy: string, keys: seq<string>, keys': seq<string>, i: nat)
    requires Listed(hooks, policy, keys) && Listed(hooks, policy, keys') && i < |keys|
    ensures i < |keys'| && keys'[i] == keys[i]
  {
    assert hooks[keys[i]].policy == policy;
    var j :| 0 <= j < |keys'| && keys'[j] == keys[i];
    assert hooks[keys'[j]] == Hook(policy, j);
  }

  /** A policy is not affected by changes to webhooks of other policies. */
  lemma ListedStill(hooks: Hooks, hooks': Hooks, policy: string, keys: seq<string>)
    requires Listed(hooks, policy, keys)
    requires forall k :: k in hooks && hooks[k].policy == policy ==> k in hooks' && hooks'[k] == hooks[k]
    requires forall k :: k in hooks' && hooks'[k].policy == policy ==> k in hooks && hooks[k].policy == policy
    ensures Listed(hooks', policy, keys)
  {
  }

  /** The webhook of least order among those from index `n` on is the one at `n`. */
  lemma LeastIsNext(hooks: Hooks, policy: string, list: seq<string>, n: nat, k: string)
    requires Listed(hooks, policy, list) && n < |list| && k in list[n..]
    requires forall x :: x in list[n..] ==> x in hooks && hooks[k].order <= hooks[x].order
    ensures k == list[n]
    ensures forall x :: x in list[n+1..] <==> x in list[n..] && x != k
  {
    var i :| 0 <= i < |list[n..]| && list[n..][i] == k;
    assert list[n + i] == k && list[n..][0] == list[n];
    assert list[n] in list[n..];
    assert list[n..] == [list[n]] + list[n+1..];
    var later := list[n+1..];
    forall j | 0 <= j < |later| ensures later[j] != k {
      assert later[j] == list[n + 1 + j];
    }
  }

  lemma ListedWithoutLast(hooks: Hooks, policy: string, list: seq<string>)
    requires list != [] && Listed(hooks, policy, list)
    ensures Listed(hooks - {list[|list|-1]}, policy, list[..|list|-1])
  {
    ListedOnce(hooks, policy, list);
    assert list == list[..|list|-1] + [list[|list|-1]];
  }

  // ----- Moving one webhook

  function Without<T>(s: seq<T>, i: nat): seq<T>
    requires i < |s|
  {
    s[..i] + s[i+1..]
  }

  function InsertedAt<T>(s: seq<T>, i: nat, x: T): seq<T>
    requires i <= |s|
  {
    s[..i] + [x] + s[i..]
  }

  function Moved<T>(s: seq<T>, from: nat, to: nat): seq<T>
    requires from < |s| && to < |s|
  {
    InsertedAt(Without(s, from), to, s[from])
  }

  /** A move puts the chosen element at the new index and keeps the order of all others. */
  lemma MovePlaces<T>(s: seq<T>, from: nat, to: nat)
    requires from < |s| && to < |s|
    ensures |Moved(s, from, to)| == |s|
    ensures Moved(s, from, to)[to] == s[from]
    ensures Without(Moved(s, from, to), to) == Without(s, from)
  {
  }

  lemma WithoutElems(s: seq<string>, i: nat)
    requires i < |s|
    ensures forall x :: x in s <==> x in Without(s, i) || x == s[i]
    ensures NoDuplicates(s) ==> NoDuplicates(Without(s, i)) && s[i] !in Without(s, i)
  {
    assert s == s[..i] + [s[i]] + s[i+1..];
  }

  lemma InsertedElems(s: seq<string>, i: nat, x: string)
    requires i <= |s|
    ensures forall y :: y in InsertedAt(s, i, x) <==> y in s || y == x
    ensures NoDuplicates(s) && x !in s ==> NoDuplicates(InsertedAt(s, i, x))
  {
    assert s == s[..i] + s[i..];
  }

  lemma MovedElems(s: seq<string>, from: nat, to: nat)
    requires from < |s| && to < |s|
    ensures forall x :: x in Moved(s, from, to) <==> x in s
    ensures NoDuplicates(s) ==> NoDuplicates(Moved(s, from, to))
  {
    WithoutElems(s, from);
    InsertedElems(Without(s, from), to, s[from]);
  }

  function IndexOf(s: seq<string>, x: string): (i: nat)
    requires x in s
    ensures i < |s| && s[i] == x
  {
    if s[0] == x then 0 else 1 + IndexOf(s[1..], x)
  }

  lemma IndexOfOwn(s: seq<string>, i: nat)
    requires NoDuplicates(s) && i < |s|
    ensures IndexOf(s, s[i]) == i
  {
  }

  // ----- Replacing all webhooks

  /** A key of the request already belongs to another policy's webhook. */
  predicate Steals(hooks: Hooks, policy: string, keys: seq<string>) {
    exists i | 0 <= i < |keys| :: keys[i] in hooks && hooks[keys[i]].policy != policy
  }

  /** Each webhook takes the order it has in the request; others of the policy go. */
  ghost predicate IsReplaced(hooks: Hooks, policy: string, keys: seq<string>, hooks': Hooks) {
    && (forall i :: 0 <= i < |keys| ==> keys[i] in hooks' && hooks'[keys[i]] == Hook(policy, i))
    && (forall k :: k in hooks' && k !in keys ==> k in hooks && hooks[k].policy != policy && hooks'[k] == hooks[k])
    && (forall k :: k in hooks && hooks[k].policy != policy ==> k in hooks')
  }

  lemma OrderBelow(hooks: Hooks, policy: string, list: seq<string>, k: string)
    requires Listed(hooks, policy, list) && k in hooks && hooks[k].policy == policy
    ensures 0 <= hooks[k].order < |list| && list[hooks[k].order] == k
  {
    var j :| 0 <= j < |list| && list[j] == k;
  }

  lemma KeysAreOwn(hooks: Hooks, policy: string, keys: seq<string>, hooks': Hooks)
    requires IsReplaced(hooks, policy, keys, hooks')
    ensures forall k :: k in keys ==> k in hooks' && hooks'[k].policy == policy
  {
  }

  /** Taking webhooks from another policy leaves that policy's orders without gaps just
      when the webhooks taken were its last ones. */
  lemma StealingLeavesGaps(hooks: Hooks, policy: string, keys: seq<string>, hooks': Hooks,
                           other: string, list: seq<string>)
    requires other != policy && Listed(hooks, other, list) && IsReplaced(hooks, policy, keys, hooks')
    ensures (exists list' :: Listed(hooks', other, list')) <==>
              exists n: nat :: n <= |list| && TakesLast(list, keys, n)
  {
    KeysAreOwn(hooks, policy, keys, hooks');
    if n: nat :| n <= |list| && TakesLast(list, keys, n) {
      forall k | k in hooks' && hooks'[k].policy == other ensures k in list[..n] {
        OrderBelow(hooks, other, list, k);
        assert list[hooks[k].order] !in keys;
      }
      assert Listed(hooks', other, list[..n]);
    }
    if list' :| Listed(hooks', other, list') {
      forall j | 0 <= j < |list'| ensures hooks[list'[j]] == Hook(other, j) && list'[j] !in keys {
        assert hooks'[list'[j]] == Hook(other, j);
      }
      forall j | 0 <= j < |list'| ensures 0 <= j < |list| && list[j] == list'[j] {
        OrderBelow(hooks, other, list, list'[j]);
      }
      if list' != [] { assert list'[|list'|-1] == list[|list'|-1]; }
      forall i | 0 <= i < |list| && list[i] !in keys ensures i < |list'| {
        assert hooks'[list[i]] == Hook(other, i);
        OrderBelow(hooks', other, list', list[i]);
      }
      assert TakesLast(list, keys, |list'|);
    }
  }

  ghost predicate TakesLast(list: seq<string>, keys: seq<string>, n: nat) {
    forall i :: 0 <= i < |list| ==> (list[i] in keys <==> i >= n)
  }

  /** The webhooks of other policies are as they were. */
  ghost predicate OthersKept(hooks: Hooks, hooks': Hooks, policy: string) {
    && (forall k :: k in hooks && hooks[k].policy != policy ==> k in hooks' && hooks'[k] == hooks[k])
    && (forall k :: k in hooks' && hooks'[k].policy != policy ==> k in hooks && hooks[k] == hooks'[k])
  }

  /** So their orders are still without gaps. */
  lemma OthersStillListed(hooks: Hooks, hooks': Hooks, policy: string, other: string, list: seq<string>)
    requires OthersKept(hooks, hooks', policy) && other != policy && Listed(hooks, other, list)
    ensures Listed(hooks', other, list)
  {
    ListedStill(hooks, hooks', other, list);
  }

  /** After a replacement the policy's orders are those of the request; and as long as no
      webhook was taken from another policy, the others are untouched. */
  lemma ReplacedIsListed(hooks: Hooks, policy: string, keys: seq<string>, hooks': Hooks)
    requires IsReplaced(hooks, policy, keys, hooks')
    ensures Listed(hooks', policy, keys)
    ensures !Steals(hooks, policy, keys) ==> OthersKept(hooks, hooks', policy)
  {
    KeysAreOwn(hooks, policy, keys, hooks');
  }

  lemma ReorderedIsListed(hooks: Hooks, policy: string, list: seq<string>, list': seq<string>, hooks': Hooks)
    requires Listed(hooks, policy, list) && hooks'.Keys == hooks.Keys
    requires forall k :: k in list' <==> k in list
    requires forall i :: 0 <= i < |list'| ==> list'[i] in hooks' && hooks'[list'[i]] == Hook(policy, i)
    requires forall k :: k in hooks && k !in list' ==> hooks'[k] == hooks[k]
    ensures Listed(hooks', policy, list') && OthersKept(hooks, hooks', policy)
  {
    forall k | k in list' ensures hooks[k].policy == policy && hooks'[k].policy == policy {
      var i :| 0 <= i < |list'| && list'[i] == k;
      var j :| 0 <= j < |list| && list[j] == k;
    }
  }

  lemma MovedInPlace<T>(s: seq<T>, i: nat)
    requires i < |s|
    ensures Moved(s, i, i) == s
  {
  }

  /** Moving to the end and dropping the end is dropping in place. */
  lemma DropMoved<T>(s: seq<T>, from: nat)
    requires from < |s|
    ensures var m := Moved(s, from, |s| - 1);
            |m| == |s| && m[|s|-1] == s[from] && m[..|s|-1] == Without(s, from)
  {
  }

  lemma NoElements<T>(s: seq<T>)
    ensures (forall x :: x !in s) ==> s == []
  {
    if s != [] { assert s[0] in s; }
  }

  // ----- Any sequence of calls

  datatype Call =
    | PutAll(policy: string, keys: seq<string>, names: seq<string>)
    | Patch(key: string, newIndex: int)
    | Remove(key: string)

  /** Exactly the listed webhooks are the policy's, in that order. */
  function ReplacedBy(hooks: Hooks, policy: string, keys: seq<string>): Hooks {
    map k | k in hooks.Keys + Elems(keys) && (k in keys || hooks[k].policy != policy) ::
      if k in keys then Hook(policy, IndexOf(keys, k)) else hooks[k]
  }

  /** Where a move takes the webhook at a place. */
  function Shift(place: int, from: int, to: int): int {
    if place == from then to
    else if from < place <= to then place - 1
    else if to <= place < from then place + 1
    else place
  }

  function Shifted(hooks: Hooks, policy: string, from: int, to: int): Hooks {
    map k | k in hooks ::
      if hooks[k].policy == policy then Hook(policy, Shift(hooks[k].order, from, to)) else hooks[k]
  }

  function Removed(hooks: Hooks, key: string): Hooks
    requires key in hooks
  {
    map k | k in hooks && k != key ::
      if hooks[k].policy == hooks[key].policy && hooks[k].order > hooks[key].order
      then Hook(hooks[k].policy, hooks[k].order - 1) else hooks[k]
  }

  function Count(hooks: Hooks, policy: string): nat { |set k | k in hooks && hooks[k].policy == policy| }

  /** The store after a call. A put with a key or a name listed twice, a move out of range
      and a call that names no webhook are refused. */
  ghost function Applied(hooks: Hooks, call: Call): Hooks {
    match call
    case PutAll(policy, keys, names) =>
      if NoDuplicates(keys) && NoDuplicates(names) then ReplacedBy(hooks, policy, keys) else hooks
    case Patch(key, to) =>
      if key in hooks && 0 <= to < Count(hooks, hooks[key].policy)
      then Shifted(hooks, hooks[key].policy, hooks[key].order, to) else hooks
    case Remove(key) => if key in hooks then Removed(hooks, key) else hooks
  }

  ghost function AppliedAll(hooks: Hooks, calls: seq<Call>): Hooks {
    if calls == [] then hooks else Applied(AppliedAll(hooks, calls[..|calls|-1]), calls[|calls|-1])
  }

  ghost predicate InOrder(hooks: Hooks, policy: string) {
    exists list :: Listed(hooks, policy, list)
  }

  /** Every policy's orders are 0, 1, 2 and so on. */
  ghost predicate AllInOrder(hooks: Hooks) {
    forall policy :: InOrder(hooks, policy)
  }

  /** What a put takes away from any other policy are that policy's last webhooks. */
  ghost predicate Harmless(hooks: Hooks, call: Call) {
    call.PutAll? && NoDuplicates(call.keys) && NoDuplicates(call.names) ==>
      forall other, list :: other != call.policy && Listed(hooks, other, list) ==>
        exists n: nat :: n <= |list| && TakesLast(list, call.keys, n)
  }

  // ----- The orders after each call

  lemma ReplacedByIs(hooks: Hooks, policy: string, keys: seq<string>)
    requires NoDuplicates(keys)
    ensures IsReplaced(hooks, policy, keys, ReplacedBy(hooks, policy, keys))
  {
    forall i | 0 <= i < |keys| ensures IndexOf(keys, keys[i]) == i { IndexOfOwn(keys, i); }
  }

  lemma MovedAt<T>(s: seq<T>, from: nat, to: nat, i: nat)
    requires from < |s| && to < |s| && i < |s|
    ensures |Moved(s, from, to)| == |s| && 0 <= Shift(i, from, to) < |s|
    ensures Moved(s, from, to)[Shift(i, from, to)] == s[i]
  {
  }

  lemma ShiftedListed(hooks: Hooks, policy: string, list: seq<string>, from: nat, to: nat)
    requires Listed(hooks, policy, list) && from < |list| && to < |list|
    ensures Listed(Shifted(hooks, policy, from, to), policy, Moved(list, from, to))
    ensures OthersKept(hooks, Shifted(hooks, policy, from, to), policy)
  {
    var moved, after := Moved(list, from, to), Shifted(hooks, policy, from, to);
    ListedOnce(hooks, policy, list);
    MovedElems(list, from, to);
    MovePlaces(list, from, to);
    forall j | 0 <= j < |moved| ensures moved[j] in after && after[moved[j]] == Hook(policy, j) {
      assert moved[j] in list;
      var i :| 0 <= i < |list| && list[i] == moved[j];
      MovedAt(list, from, to, i);
    }
  }

  lemma RemovedListed(hooks: Hooks, key: string, list: seq<string>)
    requires key in hooks && Listed(hooks, hooks[key].policy, list)
    ensures 0 <= hooks[key].order < |list|
    ensures Listed(Removed(hooks, key), hooks[key].policy, Without(list, hooks[key].order))
    ensures OthersKept(hooks, Removed(hooks, key), hooks[key].policy)
  {
    OrderBelow(hooks, hooks[key].policy, list, key);
    ListedOnce(hooks, hooks[key].policy, list);
    WithoutElems(list, hooks[key].order);
  }

  /** A policy's list and the other policies determine the store. */
  lemma SameHooks(hooks: Hooks, a: Hooks, b: Hooks, policy: string, list: seq<string>)
    requires Listed(a, policy, list) && Listed(b, policy, list)
    requires OthersKept(hooks, a, policy) && OthersKept(hooks, b, policy)
    ensures a == b
  {
    forall k ensures k in a <==> k in b { assert k in list ==> k in a && k in b; }
    forall k | k in a ensures a[k] == b[k] {
      if k in list { var i :| 0 <= i < |list| && list[i] == k; }
    }
  }

  lemma SameReplaced(hooks: Hooks, policy: string, keys: seq<string>, a: Hooks, b: Hooks)
    requires IsReplaced(hooks, policy, keys, a) && IsReplaced(hooks, policy, keys, b)
    ensures a == b
  {
    forall k | k in keys ensures k in a && k in b && a[k] == b[k] {
      var i :| 0 <= i < |keys| && keys[i] == k;
    }
  }

  lemma CountIsLength(hooks: Hooks, policy: string, list: seq<string>)
    requires Listed(hooks, policy, list)
    ensures Count(hooks, policy) == |list|
  {
    ListedOnce(hooks, policy, list);
    ElemsSize(list);
    assert (set k | k in hooks && hooks[k].policy == policy) == Elems(list);
  }

  // ----- Over whole sequences

  lemma OnePolicyChanged(hooks: Hooks, hooks': Hooks, policy: string, list: seq<string>)
    requires AllInOrder(hooks) && OthersKept(hooks, hooks', policy) && Listed(hooks', policy, list)
    ensures AllInOrder(hooks')
  {
    forall p ensures InOrder(hooks', p) {
      if p != policy {
        assert InOrder(hooks, p);
        var l :| Listed(hooks, p, l);
        OthersStillListed(hooks, hooks', policy, p, l);
      }
    }
  }

  lemma PutKeepsOrder(hooks: Hooks, call: Call)
    requires AllInOrder(hooks) && call.PutAll? && NoDuplicates(call.keys) && NoDuplicates(call.names)
    ensures AllInOrder(Applied(hooks, call)) <==> Harmless(hooks, call)
  {
    var policy, keys, after := call.policy, call.keys, Applied(hooks, call);
    ReplacedByIs(hooks, policy, keys);
    ReplacedIsListed(hooks, policy, keys, after);
    forall other, list | other != policy && Listed(hooks, other, list)
      ensures InOrder(after, other) <==> exists n: nat :: n <= |list| && TakesLast(list, keys, n)
    {
      StealingLeavesGaps(hooks, policy, keys, after, other, list);
    }
    if Harmless(hooks, call) {
      forall other ensures InOrder(after, other) {
        assert InOrder(hooks, other);
        var list :| Listed(hooks, other, list);
        if other != policy { assert exists n: nat :: n <= |list| && TakesLast(list, keys, n); }
      }
    }
  }

  /** A call leaves every policy's orders without gaps just when it is harmless; moves,
      deletions and refused calls always are. */
  lemma AppliedInOrder(hooks: Hooks, call: Call)
    requires AllInOrder(hooks)
    ensures AllInOrder(Applied(hooks, call)) <==> Harmless(hooks, call)
  {
    match call
    case PutAll(policy, keys, names) =>
      if NoDuplicates(keys) && NoDuplicates(names) { PutKeepsOrder(hooks, call); }
    case Patch(key, to) =>
      if key in hooks {
        var policy := hooks[key].policy;
        assert InOrder(hooks, policy);
        var list :| Listed(hooks, policy, list);
        OrderBelow(hooks, policy, list, key);
        CountIsLength(hooks, policy, list);
        if 0 <= to < |list| {
          ShiftedListed(hooks, policy, list, hooks[key].order, to);
          OnePolicyChanged(hooks, Applied(hooks, call), policy, Moved(list, hooks[key].order, to));
        }
      }
    case Remove(key) =>
      if key in hooks {
        assert InOrder(hooks, hooks[key].policy);
        var list :| Listed(hooks, hooks[key].policy, list);
        RemovedListed(hooks, key, list);
        OnePolicyChanged(hooks, Applied(hooks, call), hooks[key].policy, Without(list, hooks[key].order));
      }
  }

  ghost predicate AllHarmless(hooks: Hooks, calls: seq<Call>) {
    forall i :: 0 <= i < |calls| ==> Harmless(AppliedAll(hooks, calls[..i]), calls[i])
  }

  lemma AppliedNext(hooks: Hooks, calls: seq<Call>, i: nat)
    requires i < |calls|
    ensures AppliedAll(hooks, calls[..i+1]) == Applied(AppliedAll(hooks, calls[..i]), calls[i])
  {
    assert calls[..i+1][..i] == calls[..i];
  }

  lemma {:induction false} InOrderUpTo(hooks: Hooks, calls: seq<Call>, n: nat)
    requires AllInOrder(hooks) && n <= |calls| && AllHarmless(hooks, calls)
    ensures AllInOrder(AppliedAll(hooks, calls[..n]))
    decreases n
  {
    if n > 0 {
      InOrderUpTo(hooks, calls, n - 1);
      AppliedNext(hooks, calls, n - 1);
      AppliedInOrder(AppliedAll(hooks, calls[..n-1]), calls[n-1]);
    }
  }

  /** Every policy's orders stay without gaps all through a sequence of calls just when no
      put takes away from another policy anything but its last webhooks. */
  lemma AlwaysInOrderIff(hooks: Hooks, calls: seq<Call>)
    requires AllInOrder(hooks)
    ensures AllHarmless(hooks, calls) <==>
              forall n :: 0 <= n <= |calls| ==> AllInOrder(AppliedAll(hooks, calls[..n]))
  {
    if AllHarmless(hooks, calls) {
      forall n | 0 <= n <= |calls| ensures AllInOrder(AppliedAll(hooks, calls[..n])) { InOrderUpTo(hooks, calls, n); }
    }
    if forall n :: 0 <= n <= |calls| ==> AllInOrder(AppliedAll(hooks, calls[..n])) {
      forall i | 0 <= i < |calls| ensures Harmless(AppliedAll(hooks, calls[..i]), calls[i]) {
        AppliedNext(hooks, calls, i);
        assert AllInOrder(AppliedAll(hooks, calls[..i])) && AllInOrder(AppliedAll(hooks, calls[..i+1]));
        AppliedInOrder(AppliedAll(hooks, calls[..i]), calls[i]);
      }
    }
  }

  /** A put that names no other policy's webhook is harmless. */
  lemma NotStealingIsHarmless(hooks: Hooks, call: Call)
    requires call.PutAll? ==> !Steals(hooks, call.policy, call.keys)
    ensures Harmless(hooks, call)
  {
    if call.PutAll? {
      forall other, list | other != call.policy && Listed(hooks, other, list)
        ensures exists n: nat :: n <= |list| && TakesLast(list, call.keys, n)
      {
        assert TakesLast(list, call.keys, |list|);
      }
    }
  }

  const TWO_OF_P: Hooks := map["a" := Hook("P", 0), "b" := Hook("P", 1)]

  const TAKE_A := PutAll("Q", ["a"], ["a"])

  lemma TwoInOrder()
    ensures AllInOrder(TWO_OF_P)
  {
    forall p ensures InOrder(TWO_OF_P, p) {
      assert Listed(TWO_OF_P, p, if p == "P" then ["a", "b"] else []);
    }
  }

  /** Policy Q takes the first of P's two webhooks, and P is left with order 1 alone. */
  lemma TakingTheFirst()
    ensures AllInOrder(TWO_OF_P)
    ensures Applied(TWO_OF_P, TAKE_A) == map["a" := Hook("Q", 0), "b" := Hook("P", 1)]
    ensures !InOrder(Applied(TWO_OF_P, TAKE_A), "P")
  {
    TwoInOrder();
    var after := Applied(TWO_OF_P, TAKE_A);
    assert IndexOf(["a"], "a") == 0;
    assert after == map["a" := Hook("Q", 0), "b" := Hook("P", 1)];
    assert "b" in after && after["b"].policy == "P";
    assert forall k :: k in after ==> after[k] != Hook("P", 0);
    forall list ensures !Listed(after, "P", list) {
      if "b" in list { assert |list| > 0 && list[0] in list; }
    }
  }

  class WebhookStore {
    var hooks: Hooks

    constructor ()
      ensures hooks == map[]
    {
      hooks := map[];
    }

    /** The keys of a policy's webhooks by order. */
    method OrderedKeys(policy: string, ghost list: seq<string>) returns (keys: seq<string>)
      requires Listed(hooks, policy, list)
      ensures keys == list
    {
      keys := [];
      var todo := set k | k in hooks && hooks[k].policy == policy;
      assert list[0..] == list;
      while todo != {}
        invariant |keys| <= |list| && keys == list[..|keys|]
        invariant todo <= hooks.Keys && forall k :: k in todo <==> k in list[|keys|..]
        decreases |list| - |keys|
      {
        var k := First(todo);
        LeastIsNext(hooks, policy, list, |keys|, k);
        keys := keys + [k];
        todo := todo - {k};
      }
      NoElements(list[|keys|..]);
    }

    /** A webhook of the set with the least order. */
    method First(keys: set<string>) returns (k: string)
      requires keys != {} && keys <= hooks.Keys
      ensures k in keys && forall x :: x in keys ==> hooks[k].order <= hooks[x].order
    {
      k :| k in keys;
      var todo := keys - {k};
      while todo != {}
        invariant k in keys && todo <= keys
        invariant forall x :: x in keys && x !in todo ==> hooks[k].order <= hooks[x].order
      {
        var x :| x in todo;
        if hooks[x].order < hooks[k].order { k := x; }
        todo := todo - {x};
      }
    }

    /** Gives every webhook of the list its index there as its order. */
    method SetOrders(policy: string, keys: seq<string>)
      requires NoDuplicates(keys)
      requires forall k :: k in keys ==> k in hooks && hooks[k].policy == policy
      modifies this`hooks
      ensures hooks.Keys == old(hooks).Keys
      ensures forall i :: 0 <= i < |keys| ==> hooks[keys[i]] == Hook(policy, i)
      ensures forall k :: k in hooks && k !in keys ==> hooks[k] == old(hooks)[k]
    {
      var i := 0;
      while i < |keys|
        invariant 0 <= i <= |keys| && hooks.Keys == old(hooks).Keys
        invariant forall j :: 0 <= j < i ==> hooks[keys[j]] == Hook(policy, j)
        invariant forall j :: i <= j < |keys| ==> hooks[keys[j]].policy == policy
        invariant forall k :: k in hooks && k !in keys ==> hooks[k] == old(hooks)[k]
      {
        IndexOfOwn(keys, i);
        hooks := hooks[keys[i] := hooks[keys[i]].(order := IndexOf(keys, keys[i]))];
        i := i + 1;
      }
    }

    /** Moves one webhook of a policy; refused when the index is out of range. */
    method Reorder(key: string, newIndex: int, ghost list: seq<string>) returns (ok: bool)
      requires key in hooks && Listed(hooks, hooks[key].policy, list)
      modifies this
      ensures ok <==> 0 <= newIndex < |list|
      ensures !ok ==> hooks == old(hooks)
      ensures ok ==>
                var from := old(hooks)[key].order;
                && 0 <= from < |list| && list[from] == key
                && Listed(hooks, old(hooks)[key].policy, Moved(list, from, newIndex))
      ensures OthersKept(old(hooks), hooks, old(hooks)[key].policy) && hooks.Keys == old(hooks).Keys
    {
      var policy, from := hooks[key].policy, hooks[key].order;
      var webhooks := OrderedKeys(policy, list);
      OrderBelow(hooks, policy, webhooks, key);
      ok := !(newIndex > |webhooks| - 1 || newIndex < 0);
      if ok {
        ListedOnce(hooks, policy, webhooks);
        MovedElems(webhooks, from, newIndex);
        var order := Moved(webhooks, from, newIndex);
        SetOrders(policy, order);
        ReorderedIsListed(old(hooks), policy, webhooks, order, hooks);
      }
    }

    /** Moves a webhook to the end unless it is there. */
    method MoveToEnd(key: string, ghost list: seq<string>)
      requires key in hooks && Listed(hooks, hooks[key].policy, list)
      modifies this
      ensures var from := old(hooks)[key].order;
              && 0 <= from < |list| && list[from] == key
              && Listed(hooks, old(hooks)[key].policy, Moved(list, from, |list| - 1))
      ensures OthersKept(old(hooks), hooks, old(hooks)[key].policy) && hooks.Keys == old(hooks).Keys
    {
      var webhooks := OrderedKeys(hooks[key].policy, list);
      var last := |webhooks| - 1;
      if last != hooks[key].order {
        assert list != [];
        var ok := Reorder(key, last, list);
      } else {
        OrderBelow(hooks, hooks[key].policy, list, key);
        MovedInPlace(list, last);
      }
    }

    /** Deletes a webhook; those after it move up. */
    method Delete(key: string, ghost list: seq<string>)
      requires key in hooks && Listed(hooks, hooks[key].policy, list)
      modifies this
      ensures var from := old(hooks)[key].order;
              && 0 <= from < |list| && list[from] == key
              && Listed(hooks, old(hooks)[key].policy, Without(list, from))
      ensures OthersKept(old(hooks), hooks, old(hooks)[key].policy) && hooks.Keys == old(hooks).Keys - {key}
    {
      ghost var policy, from := hooks[key].policy, hooks[key].order;
      MoveToEnd(key, list);
      DropMoved(list, from);
      ListedWithoutLast(hooks, policy, Moved(list, from, |list| - 1));
      hooks := hooks - {key};
    }

    /** Replaces a policy's webhooks by those of the request; refused, changing nothing,
        when a key or a name is listed twice. */
    method Put(policy: string, keys: seq<string>, names: seq<string>) returns (ok: bool)
      modifies this
      ensures ok <==> NoDuplicates(keys) && NoDuplicates(names)
      ensures !ok ==> hooks == old(hooks)
      ensures ok ==> IsReplaced(old(hooks), policy, keys, hooks) && Listed(hooks, policy, keys)
      ensures !Steals(old(hooks), policy, keys) ==> OthersKept(old(hooks), hooks, policy)
    {
      ok := Distinct(keys);
      if !ok { return; }
      ok := Distinct(names);
      if !ok { return; }
      StoreAll(policy, keys);
      hooks := hooks - set k | k in hooks && hooks[k].policy == policy && k !in keys;
      assert IsReplaced(old(hooks), policy, keys, hooks);
      ReplacedIsListed(old(hooks), policy, keys, hooks);
    }

    /** Creates or updates the webhooks of the request, each with its index as its order. */
    method StoreAll(policy: string, keys: seq<string>)
      requires NoDuplicates(keys)
      modifies this`hooks
      ensures hooks.Keys == old(hooks).Keys + set k | k in keys
      ensures forall i :: 0 <= i < |keys| ==> hooks[keys[i]] == Hook(policy, i)
      ensures forall k :: k in hooks && k !in keys ==> hooks[k] == old(hooks)[k]
    {
      var i := 0;
      while i < |keys|
        invariant 0 <= i <= |keys|
        invariant forall k :: k in hooks <==> k in old(hooks) || k in keys[..i]
        invariant forall j :: 0 <= j < i ==> hooks[keys[j]] == Hook(policy, j)
        invariant forall k :: k in hooks && k !in keys ==> hooks[k] == old(hooks)[k]
      {
        hooks := hooks[keys[i] := Hook(policy, i)];
        i := i + 1;
      }
      assert keys[..i] == keys;
    }

    method Distinct(keys: seq<string>) returns (b: bool)
      ensures b <==> NoDuplicates(keys)
    {
      var seen: set<string> := {};
      for i := 0 to |keys|
        invariant forall x :: x in seen <==> x in keys[..i]
        invariant NoDuplicates(keys[..i])
      {
        assert keys[..i+1] == keys[..i] + [keys[i]];
        if keys[i] in seen {
          ghost var j :| 0 <= j < i && keys[..i][j] == keys[i];
          return false;
        }
        seen := seen + {keys[i]};
      }
      assert keys[..|keys|] == keys;
      b := true;
    }

    /** One call, from a store in order. */
    method Handle(call: Call)
      requires AllInOrder(hooks)
      modifies this
      ensures hooks == Applied(old(hooks), call)
    {
      ghost var before := hooks;
      match call
      case PutAll(policy, keys, names) =>
        var ok := Put(policy, keys, names);
        if ok {
          ReplacedByIs(before, policy, keys);
          SameReplaced(before, policy, keys, hooks, ReplacedBy(before, policy, keys));
        }
      case Patch(key, newIndex) =>
        if key in hooks {
          ghost var policy, from := hooks[key].policy, hooks[key].order;
          assert InOrder(hooks, policy);
          ghost var list :| Listed(hooks, policy, list);
          CountIsLength(hooks, policy, list);
          var ok := Reorder(key, newIndex, list);
          if ok {
            ShiftedListed(before, policy, list, from, newIndex);
            SameHooks(before, hooks, Shifted(before, policy, from, newIndex), policy, Moved(list, from, newIndex));
          }
        }
      case Remove(key) =>
        if key in hooks {
          ghost var policy, from := hooks[key].policy, hooks[key].order;
          assert InOrder(hooks, policy);
          ghost var list :| Listed(hooks, policy, list);
          Delete(key, list);
          RemovedListed(before, key, list);
          SameHooks(before, hooks, Removed(before, key), policy, Without(list, from));
        }
    }

    /** Any sequence of calls of which each is harmless when it comes. */
    method HandleAll(calls: seq<Call>)
      requires AllInOrder(hooks) && AllHarmless(hooks, calls)
      modifies this
      ensures hooks == AppliedAll(old(hooks), calls) && AllInOrder(hooks)
    {
      ghost var before := hooks;
      for i := 0 to |calls|
        invariant hooks == AppliedAll(before, calls[..i]) && AllInOrder(hooks)
      {
        AppliedInOrder(hooks, calls[i]);
        AppliedNext(before, calls, i);
        Handle(calls[i]);
      }
      assert calls[..|calls|] == calls;
    }
  }
}
