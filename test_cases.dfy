/**
 * The eight test cases of the driver. Each returns `ok`, the conjunction of its assertions, and
 * promises `ok`: the fixed scenarios by computing the trees the engine builds, the randomised
 * ones for every array size n >= 2 (the driver uses 1000 and 10), every number of runs and every
 * sequence of rand() draws.
 */
module TestCases {
  import opened SortedSeqs
  import opened Trees
  import opened Insertion
  import opened Deletion
  import opened Checkers
  import opened Workloads
  import opened Scenarios

  /** test_rbtree_init: one insert gives a non-empty tree of black-height 1; removing the key empties it. */
  method InitTest() returns (ok: bool)
    ensures ok
  {
    var root := Insert(Leaf, 1);
    ok := root.Node? && ValidateBlackHeight(root, 1);
    root := Remove(root, 1);
    ok := ok && root.Leaf? && ValidateBlackHeight(root, 0);
  }

  /**
   * test_rbtree_insert_left: insert 8, 7, 2, 4, 1, 3, 6, 5 one at a time, checking the black-height
   * after each against LeftHeights, then check the in-order sequence is 1..8. The driver writes
   * the eight steps out; here they run from the LeftKeys and LeftHeights tables.
   */
  method InsertLeftTest() returns (ok: bool)
    ensures ok
  {
    LeftSteps();
    LeftTraceHeights();
    var root := Leaf;
    ok := true;
    for i := 0 to |LeftKeys|
      invariant ok && IsRedBlack(root) && root == LeftTrace[i]
    {
      root := Insert(root, LeftKeys[i]);
      ok := ok && ValidateBlackHeight(root, LeftHeights[i]);
    }
    var sortedOk := ValidateSortedOrder(root, Range(1, 9));
    ok := ok && sortedOk;
  }

  /**
   * test_rbtree_insert_right: insert 1, 2, 7, 5, 8, 6, 3, 4 one at a time, checking the black-height
   * after each against RightHeights, then check the in-order sequence is 1..8. The driver writes
   * the eight steps out; here they run from the RightKeys and RightHeights tables.
   */
  method InsertRightTest() returns (ok: bool)
    ensures ok
  {
    RightSteps();
    RightTraceHeights();
    var root := Leaf;
    ok := true;
    for i := 0 to |RightKeys|
      invariant ok && IsRedBlack(root) && root == RightTrace[i]
    {
      root := Insert(root, RightKeys[i]);
      ok := ok && ValidateBlackHeight(root, RightHeights[i]);
    }
    var sortedOk := ValidateSortedOrder(root, Range(1, 9));
    ok := ok && sortedOk;
  }

  /** An ordered tree whose keys are a permutation of 1..n lists exactly 1..n in order. */
  lemma PermutationInOrder(t: Tree, s: seq<int>, n: nat)
    requires Ordered(t) && Keys(t) == set k | k in s
    requires multiset(s) == multiset(Range(1, n + 1))
    ensures InOrder(t) == Range(1, n + 1)
  {
    OrderedIffAscending(t);
    KeysInOrder(t);
    var r := Range(1, n + 1);
    forall y ensures y in InOrder(t) <==> 1 <= y < n + 1 {
      if 1 <= y < n + 1 { assert r[y - 1] == y; }
      assert y in InOrder(t) <==> y in multiset(s);
    }
    AscendingRange(InOrder(t), 1, n + 1);
  }

  /** test_rbtree_insert_random: each run shuffles keys 1..n, inserts them all and finds 1..n in order. */
  method InsertRandomTest(n: nat, draws: seq<seq<nat>>) returns (ok: bool)
    requires n >= 2 && forall run :: 0 <= run < |draws| ==> |draws[run]| == 4 * n
    ensures ok
  {
    var sorted := Range(1, n + 1);
    var node := new int[n](i => i + 1);
    assert node[..] == sorted;
    ok := true;
    for run := 0 to |draws|
      invariant ok && multiset(node[..]) == multiset(sorted)
    {
      Shuffle(node, draws[run]);
      var root, insertOk := InsertAll(node[..]);
      PermutationInOrder(root, node[..], n);
      var sortedOk := ValidateSortedOrder(root, sorted);
      ok := ok && insertOk && sortedOk;
    }
  }

  /** test_rbtree_remove_simple: from the tree of 3, 1, 4, 2, removing the leaf 4 or the one-child node 1 keeps black-height 2. */
  method RemoveSimpleTest() returns (ok: bool)
    ensures ok
  {
    var root := InitTree(4, SimpleOrder);
    SimpleBuilt();
    SimpleRemove4();
    SimpleRemove1();
    root := Remove(root, 4);
    ok := ValidateBlackHeight(root, 2);
    root := InitTree(4, SimpleOrder);
    root := Remove(root, 1);
    ok := ok && ValidateBlackHeight(root, 2);
  }

  /**
   * test_rbtree_remove_simple2: from the tree of 6, 1, 10, 3, 7, 4, 8, 9, 5, 2, removing 3 (its
   * successor is its right child) or 8 (its successor lies deeper) keeps black-height 2.
   */
  method RemoveSimple2Test() returns (ok: bool)
    ensures ok
  {
    var root := InitTree(10, Simple2Order);
    Simple2Built();
    Simple2Remove3();
    Simple2Remove8();
    root := Remove(root, 3);
    ok := ValidateBlackHeight(root, 2);
    root := InitTree(10, Simple2Order);
    root := Remove(root, 8);
    ok := ok && ValidateBlackHeight(root, 2);
  }

  /**
   * qsort of the first m entries of `node`, which holds a permutation of 1..n: the keys are
   * distinct, so the prefix ends up listing its keys in increasing order.
   */
  method SortPrefix(node: array<int>, m: nat, n: nat)
    requires m <= node.Length && multiset(node[..]) == multiset(Range(1, n + 1))
    modifies node
    ensures node[..m] == AscendingOf(1, n + 1, set k | k in old(node[..m]))
    ensures node[m..] == old(node[m..])
    ensures multiset(node[..]) == multiset(old(node[..]))
  {
    var s := node[..];
    var sorted := AscendingOf(1, n + 1, set k | k in s[..m]);
    AscendingOfPrefix(s, 1, n + 1, m);
    forall i | 0 <= i < m {
      node[i] := sorted[i];
    }
    assert node[..] == sorted + s[m..];
    assert s == s[..m] + s[m..];
  }

  /** Two sequences with the same multiset of keys have the same set of keys. */
  lemma SameKeySet(a: seq<int>, b: seq<int>)
    requires multiset(a) == multiset(b)
    ensures (set k | k in a) == set k | k in b
  {
    forall y ensures y in a <==> y in b {
      assert y in a <==> y in multiset(a);
      assert y in b <==> y in multiset(b);
    }
  }

  /**
   * One run of test_rbtree_remove_random on the pointer array `node`, which holds a permutation
   * of 1..n: shuffle, insert everything, shuffle again, remove the keys in node[n2..n)
   * (n2 = n / 4 * 3), sort node[0..n2) and compare the tree with it.
   */
  method RemoveRandomRun(node: array<int>, insertDraws: seq<nat>, removeDraws: seq<nat>) returns (ok: bool)
    requires node.Length >= 2 && |insertDraws| == 4 * node.Length && |removeDraws| == 4 * node.Length
    requires multiset(node[..]) == multiset(Range(1, node.Length + 1))
    modifies node
    ensures ok && multiset(node[..]) == multiset(Range(1, node.Length + 1))
    ensures var s := Shuffled(Shuffled(old(node[..]), insertDraws, 2 * node.Length), removeDraws, 2 * node.Length);
      var n2 := node.Length / 4 * 3;
      node[..n2] == AscendingOf(1, node.Length + 1, set k | k in s[..n2]) && node[n2..] == s[n2..]
  {
    var n := node.Length;
    var n2 := n / 4 * 3;
    ghost var s0 := node[..];
    Shuffle(node, insertDraws);
    var inserted := node[..];
    var root, insertOk := InsertAll(inserted);
    Shuffle(node, removeDraws);
    var shuffled := node[..];
    assert shuffled == Shuffled(Shuffled(s0, insertDraws, 2 * n), removeDraws, 2 * n);
    var removeOk;
    root, removeOk := RemoveAll(root, shuffled[n2..]);
    SameKeySet(inserted, shuffled);
    RemainingInOrder(root, shuffled, n, n2);
    SortPrefix(node, n2, n);
    var sortedOk := ValidateSortedOrder(root, node[..n2]);
    ok := insertOk && removeOk && sortedOk;
  }

  /** After removing the tail of a permutation of 1..n, the tree lists the head's keys in increasing order. */
  lemma RemainingInOrder(t: Tree, s: seq<int>, n: nat, m: nat)
    requires m <= |s| && multiset(s) == multiset(Range(1, n + 1))
    requires Ordered(t) && Keys(t) == (set k | k in s) - set k | k in s[m..]
    ensures InOrder(t) == AscendingOf(1, n + 1, set k | k in s[..m])
  {
    var sorted := AscendingOf(1, n + 1, set k | k in s[..m]);
    PermutationCutDisjoint(s, Range(1, n + 1), m);
    OrderedIffAscending(t);
    KeysInOrder(t);
    assert s == s[..m] + s[m..];
    forall y ensures y in InOrder(t) <==> y in sorted {
      PrefixOfRange(s, 1, n + 1, m, y);
    }
    AscendingUnique(InOrder(t), sorted);
  }

  /** test_rbtree_remove_random: every run keeps node[] a permutation of 1..n and passes. */
  method RemoveRandomTest(n: nat, insertDraws: seq<seq<nat>>, removeDraws: seq<seq<nat>>) returns (ok: bool)
    requires n >= 2 && |removeDraws| == |insertDraws|
    requires forall run :: 0 <= run < |insertDraws| ==> |insertDraws[run]| == 4 * n && |removeDraws[run]| == 4 * n
    ensures ok
  {
    var node := new int[n](i => i + 1);
    assert node[..] == Range(1, n + 1);
    ok := true;
    for run := 0 to |insertDraws|
      invariant ok && multiset(node[..]) == multiset(Range(1, n + 1))
    {
      var runOk := RemoveRandomRun(node, insertDraws[run], removeDraws[run]);
      ok := ok && runOk;
    }
  }

  /**
   * The three walks of test_rbtree_iter over a tree holding 1..n: rb_first/rb_next visits 1..n,
   * rb_last/rb_prev visits n..1, and RB_FIND(n / 2)/rb_next visits n / 2..n.
   */
  method IterWalks(root: Tree, n: nat) returns (ok: bool)
    requires n >= 2 && Ordered(root) && InOrder(root) == Range(1, n + 1)
    ensures ok
  {
    var forward := WalkForward(root);
    ok := forward == Range(1, n + 1);

    var backward := WalkBackward(root);
    ok := ok && |backward| == n && forall i :: 0 <= i < n ==> backward[i] == n - i;

    var fromMiddle := WalkFrom(root, n / 2);
    assert n / 2 in Keys(root) by {
      KeysInOrder(root);
      assert InOrder(root)[n / 2 - 1] == n / 2;
    }
    assert fromMiddle == Range(n / 2, n + 1) by {
      assert InOrder(root)[n - |fromMiddle|] == n / 2;
      RangeSplit(1, n / 2, n + 1);
    }
    ok := ok && fromMiddle == Range(n / 2, n + 1);
  }

  /**
   * The check inside one round of the rb_remove part of test_rbtree_iter, on a tree holding
   * 1..n: step rb_next d times from rb_first, find key d + 1 there, remove it through the cursor
   * and find 1..d, d + 2..n in order.
   */
  method RemoveNthCheck(root: Tree, n: nat, d: nat) returns (ok: bool)
    requires IsRedBlack(root) && InOrder(root) == Range(1, n + 1) && d < n
    ensures ok
  {
    var rest, key := RemoveNth(root, d);
    var sorted := Range(1, d + 1) + Range(d + 2, n + 1);
    RangeDrop(1, d + 1, n + 1);
    var sortedOk := ValidateSortedOrder(rest, sorted);
    ok := key == d + 1 && sortedOk;
  }

  /** One round of the rb_remove part of test_rbtree_iter: insert `keys`, a permutation of 1..n, afresh, then check. */
  method IterRemoveRound(keys: seq<int>, n: nat, d: nat) returns (ok: bool)
    requires multiset(keys) == multiset(Range(1, n + 1)) && d < n
    ensures ok
  {
    var root := InsertKeys(keys);
    PermutationInOrder(root, keys, n);
    ok := RemoveNthCheck(root, n, d);
  }

  /**
   * test_rbtree_iter: shuffle and insert 1..n, run the three walks, then for every d < n remove
   * the (d + 1)-th node through a cursor.
   */
  method IterTest(n: nat, draws: seq<nat>) returns (ok: bool)
    requires n >= 2 && |draws| == 4 * n
    ensures ok
  {
    var node := new int[n](i => i + 1);
    assert node[..] == Range(1, n + 1);
    Shuffle(node, draws);
    var root := InsertKeys(node[..]);
    PermutationInOrder(root, node[..], n);
    ok := IterWalks(root, n);
    for d := 0 to n
      invariant ok && multiset(node[..]) == multiset(Range(1, n + 1))
    {
      var roundOk := IterRemoveRound(node[..], n, d);
      ok := ok && roundOk;
    }
  }
}
