/**
 * The procedures the test cases are built from: shuffling an array of node pointers (modelled by
 * the keys they point at), inserting or removing a batch of keys with a black-height check after
 * every step, walking the tree with a cursor, and removing the n-th node through a cursor.
 * The rand() draws are parameters.
 */
module Workloads {
  import opened Options
  import opened Trees
  import opened Paths
  import opened Traversal
  import opened Insertion
  import opened Deletion
  import opened Checkers

  /** One round of shuffle: i is the first draw mod n; j is the second draw mod n - 1, moved past i. */
  function PickPair(n: nat, di: nat, dj: nat): (p: (nat, nat))
    requires n >= 2
    ensures p.0 < n && p.1 < n && p.0 != p.1
    ensures p.0 == di % n
  {
    var i := di % n;
    var j := dj % (n - 1);
    if j >= i then (i, j + 1) else (i, j)
  }

  function Swap(s: seq<int>, i: nat, j: nat): (r: seq<int>)
    requires i < |s| && j < |s|
    ensures |r| == |s| && r[i] == s[j] && r[j] == s[i]
    ensures forall k :: 0 <= k < |s| && k != i && k != j ==> r[k] == s[k]
  {
    s[i := s[j]][j := s[i]]
  }

  /** The contents after the first `rounds` swaps of shuffle, two draws per round. */
  function Shuffled(s: seq<int>, draws: seq<nat>, rounds: nat): (r: seq<int>)
    requires |s| >= 2 && 2 * rounds <= |draws|
    ensures |r| == |s|
  {
    if rounds == 0 then s
    else
      var p := PickPair(|s|, draws[2 * rounds - 2], draws[2 * rounds - 1]);
      Swap(Shuffled(s, draws, rounds - 1), p.0, p.1)
  }

  /** Swapping two entries keeps the same keys. */
  lemma SwapPermutes(s: seq<int>, i: nat, j: nat)
    requires i < |s| && j < |s|
    ensures multiset(Swap(s, i, j)) == multiset(s)
  {
    var r := Swap(s, i, j);
    if i != j {
      assert r == s[i := s[j]][j := s[i]];
      assert multiset(s[i := s[j]]) == multiset(s) - multiset{s[i]} + multiset{s[j]};
    }
  }

  /** However many rounds run and whatever the draws, shuffling only permutes the keys. */
  lemma {:induction false} ShuffledPermutes(s: seq<int>, draws: seq<nat>, rounds: nat)
    requires |s| >= 2 && 2 * rounds <= |draws|
    ensures multiset(Shuffled(s, draws, rounds)) == multiset(s)
  {
    if rounds > 0 {
      ShuffledPermutes(s, draws, rounds - 1);
      var p := PickPair(|s|, draws[2 * rounds - 2], draws[2 * rounds - 1]);
      SwapPermutes(Shuffled(s, draws, rounds - 1), p.0, p.1);
    }
  }

  /** shuffle: 2n rounds, each swapping two distinct entries picked by two rand() draws. */
  method Shuffle(buf: array<int>, draws: seq<nat>)
    requires buf.Length >= 2 && |draws| == 4 * buf.Length
    modifies buf
    ensures buf[..] == Shuffled(old(buf[..]), draws, 2 * buf.Length)
    ensures multiset(buf[..]) == multiset(old(buf[..]))
  {
    var n := buf.Length;
    for round := 0 to 2 * n
      invariant buf[..] == Shuffled(old(buf[..]), draws, round)
    {
      var p := PickPair(n, draws[2 * round], draws[2 * round + 1]);
      buf[p.0], buf[p.1] := buf[p.1], buf[p.0];
    }
    ShuffledPermutes(old(buf[..]), draws, 2 * n);
  }

  /** The tree after inserting `keys` into `t`, first key first. */
  function InsertEach(t: Tree, keys: seq<int>): (r: Tree)
    requires IsRedBlack(t)
    ensures IsRedBlack(r)
    ensures Keys(r) == Keys(t) + set k | k in keys
    decreases |keys|
  {
    if keys == [] then t
    else
      assert (set k | k in keys) == {keys[0]} + set k | k in keys[1..] by {
        assert keys == [keys[0]] + keys[1..];
      }
      InsertEach(Insert(t, keys[0]), keys[1..])
  }

  /** The tree after removing `keys` from `t`, first key first. */
  function RemoveEach(t: Tree, keys: seq<int>): (r: Tree)
    requires IsRedBlack(t)
    ensures IsRedBlack(r)
    ensures Keys(r) == Keys(t) - set k | k in keys
    decreases |keys|
  {
    if keys == [] then t
    else
      assert (set k | k in keys) == {keys[0]} + set k | k in keys[1..] by {
        assert keys == [keys[0]] + keys[1..];
      }
      RemoveEach(Remove(t, keys[0]), keys[1..])
  }

  /** Insert `keys` in order into an empty tree, checking the black-heights after every insert. */
  method InsertAll(keys: seq<int>) returns (t: Tree, ok: bool)
    ensures t == InsertEach(Leaf, keys)
    ensures ok && IsRedBlack(t) && Keys(t) == set k | k in keys
  {
    t, ok := Leaf, true;
    for i := 0 to |keys|
      invariant ok && IsRedBlack(t)
      invariant InsertEach(t, keys[i..]) == InsertEach(Leaf, keys)
    {
      assert keys[i..][1..] == keys[i + 1..];
      t := Insert(t, keys[i]);
      ok := ok && CheckedBlackHeight(t).Some?;
    }
  }

  /** Insert `keys` in order into an empty tree, without checks in between. */
  method InsertKeys(keys: seq<int>) returns (t: Tree)
    ensures t == InsertEach(Leaf, keys)
    ensures IsRedBlack(t) && Keys(t) == set k | k in keys
  {
    t := Leaf;
    for i := 0 to |keys|
      invariant IsRedBlack(t)
      invariant InsertEach(t, keys[i..]) == InsertEach(Leaf, keys)
    {
      assert keys[i..][1..] == keys[i + 1..];
      t := Insert(t, keys[i]);
    }
  }

  /** Remove `keys` in order, checking the black-heights after every removal. */
  method RemoveAll(t0: Tree, keys: seq<int>) returns (t: Tree, ok: bool)
    requires IsRedBlack(t0)
    ensures t == RemoveEach(t0, keys)
    ensures ok && IsRedBlack(t) && Keys(t) == Keys(t0) - set k | k in keys
  {
    t, ok := t0, true;
    for i := 0 to |keys|
      invariant ok && IsRedBlack(t)
      invariant RemoveEach(t, keys[i..]) == RemoveEach(t0, keys)
    {
      assert keys[i..][1..] == keys[i + 1..];
      t := Remove(t, keys[i]);
      ok := ok && CheckedBlackHeight(t).Some?;
    }
  }

  /** The keys of node[order[0]], node[order[1]], ... when node[i] holds key i + 1. */
  function NodeKeys(order: seq<nat>): seq<int>
  {
    seq(|order|, i requires 0 <= i < |order| => order[i] + 1)
  }

  /** init_rbtree: node[i] holds key i + 1; insert node[order[0]], node[order[1]], ... */
  method InitTree(n: nat, order: seq<nat>) returns (t: Tree)
    requires |order| == n && forall i :: 0 <= i < n ==> order[i] < n
    ensures t == InsertEach(Leaf, NodeKeys(order))
    ensures IsRedBlack(t)
  {
    t := Leaf;
    for i := 0 to n
      invariant IsRedBlack(t)
      invariant InsertEach(t, NodeKeys(order)[i..]) == InsertEach(Leaf, NodeKeys(order))
    {
      assert NodeKeys(order)[i..][1..] == NodeKeys(order)[i + 1..];
      t := Insert(t, order[i] + 1);
    }
  }

  /** The tree init_rbtree builds holds exactly the keys node[order[i]].val == order[i] + 1. */
  lemma InitTreeKeys(order: seq<nat>)
    ensures Keys(InsertEach(Leaf, NodeKeys(order))) == set i | 0 <= i < |order| :: order[i] + 1
  {
    var keys := NodeKeys(order);
    forall y ensures y in keys <==> exists i :: 0 <= i < |order| && y == order[i] + 1 {
      if y in keys {
        var j :| 0 <= j < |keys| && keys[j] == y;
        assert y == order[j] + 1;
      }
      if exists i :: 0 <= i < |order| && y == order[i] + 1 {
        var j :| 0 <= j < |order| && y == order[j] + 1;
        assert keys[j] == y;
      }
    }
  }

  /** rb_next from `start` until NULL: the keys visited, from the cursor's key to the largest. */
  method WalkOn(t: Tree, start: Cursor) returns (visited: seq<int>)
    requires IsCursorOf(start, t)
    ensures Position(start) < |InOrder(t)| && visited == InOrder(t)[Position(start)..]
  {
    CursorKey(start);
    var s, p := InOrder(t), Position(start);
    var iter := Some(start);
    visited := [];
    while iter.Some?
      invariant iter.Some? ==> IsCursorOf(iter.value, t) && Position(iter.value) == p + |visited|
      invariant iter.None? ==> p + |visited| == |s|
      invariant p + |visited| <= |s| && visited == s[p..p + |visited|]
      decreases |s| - |visited|
    {
      var c := iter.value;
      CursorKey(c);
      assert s[p..p + |visited| + 1] == s[p..p + |visited|] + [c.node.key];
      visited := visited + [c.node.key];
      iter := Next(c);
    }
  }

  /** rb_first, then rb_next until NULL: the keys visited, in visiting order. */
  method WalkForward(t: Tree) returns (visited: seq<int>)
    ensures visited == InOrder(t)
  {
    var iter := First(t);
    if iter.None? {
      return [];
    }
    visited := WalkOn(t, iter.value);
  }

  /** rb_last, then rb_prev until NULL: the keys visited, in visiting order (the in-order sequence reversed). */
  method WalkBackward(t: Tree) returns (visited: seq<int>)
    ensures |visited| == |InOrder(t)|
    ensures forall i :: 0 <= i < |visited| ==> visited[i] == InOrder(t)[|InOrder(t)| - 1 - i]
  {
    var iter := Last(t);
    visited := [];
    while iter.Some?
      invariant iter.Some? ==> IsCursorOf(iter.value, t) && Position(iter.value) == |InOrder(t)| - 1 - |visited|
      invariant iter.None? ==> |visited| == |InOrder(t)|
      invariant |visited| <= |InOrder(t)|
      invariant forall i :: 0 <= i < |visited| ==> visited[i] == InOrder(t)[|InOrder(t)| - 1 - i]
      decreases |InOrder(t)| - |visited|
    {
      CursorKey(iter.value);
      visited := visited + [iter.value.node.key];
      iter := Prev(iter.value);
    }
  }

  /** RB_FIND, then rb_next until NULL: the keys from `x` to the largest; nothing when `x` is absent. */
  method WalkFrom(t: Tree, x: int) returns (visited: seq<int>)
    requires Ordered(t)
    ensures visited != [] <==> x in Keys(t)
    ensures visited != [] ==> visited[0] == x
    ensures |visited| <= |InOrder(t)| && visited == InOrder(t)[|InOrder(t)| - |visited|..]
  {
    var iter := Find(t, x);
    if iter.None? {
      return [];
    }
    CursorKey(iter.value);
    visited := WalkOn(t, iter.value);
  }

  /** rb_first, `d` times rb_next, then rb_remove at that cursor: returns the removed key too. */
  method RemoveNth(t: Tree, d: nat) returns (r: Tree, key: int)
    requires IsRedBlack(t) && d < |InOrder(t)|
    ensures key == InOrder(t)[d]
    ensures IsRedBlack(r) && InOrder(r) == InOrder(t)[..d] + InOrder(t)[d + 1..]
  {
    var iter := First(t);
    var c := iter.value;
    for i := 0 to d
      invariant IsCursorOf(c, t) && Position(c) == i
    {
      iter := Next(c);
      c := iter.value;
    }
    CursorKey(c);
    key := c.node.key;
    RemoveAtRestores(c);
    r := RemoveAt(c);
  }
}
