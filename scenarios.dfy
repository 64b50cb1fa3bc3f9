/**
 * The fixed scenarios of the driver, computed step by step: the tree after each insert of the
 * left- and right-leaning sequences, the trees init_rbtree builds for the removal cases, and the
 * trees each removal leaves.
 */
module Scenarios {
  import opened Options
  import opened Trees
  import opened Paths
  import opened Traversal
  import opened Insertion
  import opened Deletion
  import opened Workloads

  /** Inserting keys one by one follows a trace of trees when each insert step does. */
  lemma {:induction false} InsertEachTrace(trace: seq<Tree>, keys: seq<int>)
    requires |trace| == |keys| + 1 && IsRedBlack(trace[0])
    requires forall i :: 0 <= i < |keys| ==> Blacken(Ins(trace[i], keys[i])) == trace[i + 1]
    ensures InsertEach(trace[0], keys) == trace[|keys|]
    decreases |keys|
  {
    if keys != [] {
      assert Insert(trace[0], keys[0]) == trace[1];
      InsertEachTrace(trace[1..], keys[1..]);
    }
  }

  /** The keys test_rbtree_insert_left inserts, in order. */
  const LeftKeys: seq<int> := [8, 7, 2, 4, 1, 3, 6, 5]

  /** The black-height test_rbtree_insert_left expects after each insert. */
  const LeftHeights: seq<nat> := [1, 1, 1, 2, 2, 2, 2, 2]

  /** The empty tree, then the tree after each insert of LeftKeys. */
  const LeftTrace: seq<Tree> := [
    Leaf,
    Node(Black, Leaf, 8, Leaf),
    Node(Black, Node(Red, Leaf, 7, Leaf), 8, Leaf),
    Node(Black, Node(Red, Leaf, 2, Leaf), 7, Node(Red, Leaf, 8, Leaf)),
    Node(Black, Node(Black, Leaf, 2, Node(Red, Leaf, 4, Leaf)), 7, Node(Black, Leaf, 8, Leaf)),
    Node(Black, Node(Black, Node(Red, Leaf, 1, Leaf), 2, Node(Red, Leaf, 4, Leaf)), 7, Node(Black, Leaf, 8, Leaf)),
    Node(Black, Node(Red, Node(Black, Leaf, 1, Leaf), 2, Node(Black, Node(Red, Leaf, 3, Leaf), 4, Leaf)), 7, Node(Black, Leaf, 8, Leaf)),
    Node(Black, Node(Red, Node(Black, Leaf, 1, Leaf), 2, Node(Black, Node(Red, Leaf, 3, Leaf), 4, Node(Red, Leaf, 6, Leaf))), 7, Node(Black, Leaf, 8, Leaf)),
    Node(Black, Node(Red, Node(Black, Leaf, 1, Leaf), 2, Node(Black, Leaf, 3, Leaf)), 4, Node(Red, Node(Black, Node(Red, Leaf, 5, Leaf), 6, Leaf), 7, Node(Black, Leaf, 8, Leaf)))
  ]

  /** Each tree of LeftTrace is the insert of the next key into the one before, with the expected black-height. */
  lemma LeftSteps()
    ensures |LeftTrace| == 9
    ensures forall i :: 0 <= i < 8 ==> Blacken(Ins(LeftTrace[i], LeftKeys[i])) == LeftTrace[i + 1]
  {
  }

  /** After each insert the tree of LeftTrace has valid black-heights, equal to the one test_rbtree_insert_left expects. */
  lemma LeftTraceHeights()
    ensures forall i :: 0 <= i < 8 ==> ValidBlackHeight(LeftTrace[i + 1]) && BlackHeight(LeftTrace[i + 1]) == LeftHeights[i]
  {
  }

  /** The keys test_rbtree_insert_right inserts, in order. */
  const RightKeys: seq<int> := [1, 2, 7, 5, 8, 6, 3, 4]

  /** The black-height test_rbtree_insert_right expects after each insert. */
  const RightHeights: seq<nat> := [1, 1, 1, 2, 2, 2, 2, 2]

  /** The empty tree, then the tree after each insert of RightKeys. */
  const RightTrace: seq<Tree> := [
    Leaf,
    Node(Black, Leaf, 1, Leaf),
    Node(Black, Leaf, 1, Node(Red, Leaf, 2, Leaf)),
    Node(Black, Node(Red, Leaf, 1, Leaf), 2, Node(Red, Leaf, 7, Leaf)),
    Node(Black, Node(Black, Leaf, 1, Leaf), 2, Node(Black, Node(Red, Leaf, 5, Leaf), 7, Leaf)),
    Node(Black, Node(Black, Leaf, 1, Leaf), 2, Node(Black, Node(Red, Leaf, 5, Leaf), 7, Node(Red, Leaf, 8, Leaf))),
    Node(Black, Node(Black, Leaf, 1, Leaf), 2, Node(Red, Node(Black, Leaf, 5, Node(Red, Leaf, 6, Leaf)), 7, Node(Black, Leaf, 8, Leaf))),
    Node(Black, Node(Black, Leaf, 1, Leaf), 2, Node(Red, Node(Black, Node(Red, Leaf, 3, Leaf), 5, Node(Red, Leaf, 6, Leaf)), 7, Node(Black, Leaf, 8, Leaf))),
    Node(Black, Node(Red, Node(Black, Leaf, 1, Leaf), 2, Node(Black, Leaf, 3, Node(Red, Leaf, 4, Leaf))), 5, Node(Red, Node(Black, Leaf, 6, Leaf), 7, Node(Black, Leaf, 8, Leaf)))
  ]

  /** Each tree of RightTrace is the insert of the next key into the one before, with the expected black-height. */
  lemma RightSteps()
    ensures |RightTrace| == 9
    ensures forall i :: 0 <= i < 8 ==> Blacken(Ins(RightTrace[i], RightKeys[i])) == RightTrace[i + 1]
  {
  }

  /** After each insert the tree of RightTrace has valid black-heights, equal to the one test_rbtree_insert_right expects. */
  lemma RightTraceHeights()
    ensures forall i :: 0 <= i < 8 ==> ValidBlackHeight(RightTrace[i + 1]) && BlackHeight(RightTrace[i + 1]) == RightHeights[i]
  {
  }

  /** The insertion order of test_rbtree_remove_simple, as indices into the node array. */
  const SimpleOrder: seq<nat> := [2, 0, 3, 1]

  /** The trees init_rbtree passes through for SimpleOrder. */
  const SimpleTrace: seq<Tree> := [
    Leaf,
    Node(Black, Leaf, 3, Leaf),
    Node(Black, Node(Red, Leaf, 1, Leaf), 3, Leaf),
    Node(Black, Node(Red, Leaf, 1, Leaf), 3, Node(Red, Leaf, 4, Leaf)),
    Node(Black, Node(Black, Leaf, 1, Node(Red, Leaf, 2, Leaf)), 3, Node(Black, Leaf, 4, Leaf))
  ]

  /** Each tree of SimpleTrace is the insert of the next key into the one before. */
  lemma SimpleSteps()
    ensures |SimpleTrace| == 5
    ensures forall i :: 0 <= i < 4 ==> Blacken(Ins(SimpleTrace[i], NodeKeys(SimpleOrder)[i])) == SimpleTrace[i + 1]
  {
  }

  /** The tree test_rbtree_remove_simple starts from. */
  const SimpleTree: Tree := Node(Black, Node(Black, Leaf, 1, Node(Red, Leaf, 2, Leaf)), 3, Node(Black, Leaf, 4, Leaf))

  /** init_rbtree with SimpleOrder builds SimpleTree, the last tree of SimpleTrace, and it is red-black. */
  lemma SimpleBuilt()
    ensures InsertEach(Leaf, NodeKeys(SimpleOrder)) == SimpleTree
    ensures IsRedBlack(SimpleTree)
  {
    SimpleSteps();
    InsertEachTrace(SimpleTrace, NodeKeys(SimpleOrder));
  }

  /** The insertion order of test_rbtree_remove_simple2, as indices into the node array. */
  const Simple2Order: seq<nat> := [5, 0, 9, 2, 6, 3, 7, 8, 4, 1]

  /** The trees init_rbtree passes through for Simple2Order. */
  const Simple2Trace: seq<Tree> := [
    Leaf,
    Node(Black, Leaf, 6, Leaf),
    Node(Black, Node(Red, Leaf, 1, Leaf), 6, Leaf),
    Node(Black, Node(Red, Leaf, 1, Leaf), 6, Node(Red, Leaf, 10, Leaf)),
    Node(Black, Node(Black, Leaf, 1, Node(Red, Leaf, 3, Leaf)), 6, Node(Black, Leaf, 10, Leaf)),
    Node(Black, Node(Black, Leaf, 1, Node(Red, Leaf, 3, Leaf)), 6, Node(Black, Node(Red, Leaf, 7, Leaf), 10, Leaf)),
    Node(Black, Node(Black, Node(Red, Leaf, 1, Leaf), 3, Node(Red, Leaf, 4, Leaf)), 6, Node(Black, Node(Red, Leaf, 7, Leaf), 10, Leaf)),
    Node(Black, Node(Black, Node(Red, Leaf, 1, Leaf), 3, Node(Red, Leaf, 4, Leaf)), 6, Node(Black, Node(Red, Leaf, 7, Leaf), 8, Node(Red, Leaf, 10, Leaf))),
    Node(Black, Node(Black, Node(Red, Leaf, 1, Leaf), 3, Node(Red, Leaf, 4, Leaf)), 6, Node(Red, Node(Black, Leaf, 7, Leaf), 8, Node(Black, Node(Red, Leaf, 9, Leaf), 10, Leaf))),
    Node(Black, Node(Red, Node(Black, Leaf, 1, Leaf), 3, Node(Black, Leaf, 4, Node(Red, Leaf, 5, Leaf))), 6, Node(Red, Node(Black, Leaf, 7, Leaf), 8, Node(Black, Node(Red, Leaf, 9, Leaf), 10, Leaf))),
    Node(Black, Node(Red, Node(Black, Leaf, 1, Node(Red, Leaf, 2, Leaf)), 3, Node(Black, Leaf, 4, Node(Red, Leaf, 5, Leaf))), 6, Node(Red, Node(Black, Leaf, 7, Leaf), 8, Node(Black, Node(Red, Leaf, 9, Leaf), 10, Leaf)))
  ]

  /** Each tree of Simple2Trace is the insert of the next key into the one before. */
  lemma Simple2Steps()
    ensures |Simple2Trace| == 11
    ensures forall i :: 0 <= i < 10 ==> Blacken(Ins(Simple2Trace[i], NodeKeys(Simple2Order)[i])) == Simple2Trace[i + 1]
  {
  }

  /** The tree test_rbtree_remove_simple2 starts from. */
  const Simple2Tree: Tree := Node(Black, Node(Red, Node(Black, Leaf, 1, Node(Red, Leaf, 2, Leaf)), 3, Node(Black, Leaf, 4, Node(Red, Leaf, 5, Leaf))), 6, Node(Red, Node(Black, Leaf, 7, Leaf), 8, Node(Black, Node(Red, Leaf, 9, Leaf), 10, Leaf)))

  /** init_rbtree with Simple2Order builds Simple2Tree, the last tree of Simple2Trace, and it is red-black. */
  lemma Simple2Built()
    ensures InsertEach(Leaf, NodeKeys(Simple2Order)) == Simple2Tree
    ensures IsRedBlack(Simple2Tree)
  {
    Simple2Steps();
    InsertEachTrace(Simple2Trace, NodeKeys(Simple2Order));
  }

  /** Removing the leaf 4: its black parent leaves a double-black hole, repaired through the red 2. */
  lemma SimpleRemove4()
    ensures Remove(SimpleTree, 4) == Node(Black, Node(Black, Leaf, 1, Leaf), 2, Node(Black, Leaf, 3, Leaf))
  {
  }

  /** Removing 1, whose only child 2 is red: the child takes its place, blackened. */
  lemma SimpleRemove1()
    ensures Remove(SimpleTree, 1) == Node(Black, Node(Black, Leaf, 2, Leaf), 3, Node(Black, Leaf, 4, Leaf))
  {
  }

  /** Simple2Tree after removing 3: 4 takes its place and 5 is blackened. */
  const Simple2Without3: Tree := Node(Black, Node(Red, Node(Black, Leaf, 1, Node(Red, Leaf, 2, Leaf)), 4, Node(Black, Leaf, 5, Leaf)), 6, Node(Red, Node(Black, Leaf, 7, Leaf), 8, Node(Black, Node(Red, Leaf, 9, Leaf), 10, Leaf)))

  /** Simple2Tree after removing 8: the red 9 takes its place. */
  const Simple2Without8: Tree := Node(Black, Node(Red, Node(Black, Leaf, 1, Node(Red, Leaf, 2, Leaf)), 3, Node(Black, Leaf, 4, Node(Red, Leaf, 5, Leaf))), 6, Node(Red, Node(Black, Leaf, 7, Leaf), 9, Node(Black, Leaf, 10, Leaf)))

  /** Removing 3, whose successor 4 is its right child. */
  lemma Simple2Remove3()
    ensures Remove(Simple2Tree, 3) == Simple2Without3
  {
    assert IsRedBlack(Simple2Tree) by { Simple2Built(); }
    var n1 := Node(Black, Leaf, 1, Node(Red, Leaf, 2, Leaf));
    var n3 := Node(Red, n1, 3, Node(Black, Leaf, 4, Node(Red, Leaf, 5, Leaf)));
    var n8 := Node(Red, Node(Black, Leaf, 7, Leaf), 8, Node(Black, Node(Red, Leaf, 9, Leaf), 10, Leaf));
    var n5 := Node(Black, Leaf, 5, Leaf);
    var t := Node(Black, n3, 6, n8);
    var f6, f4 := Frame(Left, Black, 6, n8), Frame(Right, Red, 4, n1);
    // RB_FIND stops one step left of the root.
    assert Find(t, 3) == Some(Cursor([f6], n3));
    // The successor 4 is the right child: the splice path is the find path plus 4's frame.
    assert [f6] + [f4] + [] == [f6, f4];
    // The rebuild plugs the blackened 5 under 4, then 4 under the root.
    assert [f6, f4][..1] == [f6];
    assert Plug([f6], Node(Red, n1, 4, n5)) == Plug([], Node(Black, Node(Red, n1, 4, n5), 6, n8));
  }

  /** Removing 8, whose successor 9 lies deeper in its right subtree. */
  lemma Simple2Remove8()
    ensures Remove(Simple2Tree, 8) == Simple2Without8
  {
    assert IsRedBlack(Simple2Tree) by { Simple2Built(); }
    var n1 := Node(Black, Leaf, 1, Node(Red, Leaf, 2, Leaf));
    var n3 := Node(Red, n1, 3, Node(Black, Leaf, 4, Node(Red, Leaf, 5, Leaf)));
    var n7 := Node(Black, Leaf, 7, Leaf);
    var n8 := Node(Red, n7, 8, Node(Black, Node(Red, Leaf, 9, Leaf), 10, Leaf));
    var t := Node(Black, n3, 6, n8);
    var f6, f9, f10 := Frame(Right, Black, 6, n3), Frame(Right, Red, 9, n7), Frame(Left, Black, 10, Leaf);
    // RB_FIND stops one step right of the root.
    assert Find(t, 8) == Some(Cursor([f6], n8));
    // The successor 9 is the left child of 10: the splice path runs through 9's new frame to 10.
    assert [f6] + [f9] + [f10] == [f6, f9, f10];
    // The red 9 leaves no deficiency: the rebuild plugs 10 under 9, then 9 under the root.
    assert [f6, f9, f10][..2] == [f6, f9];
    assert Plug([f6, f9], Node(Black, Leaf, 10, Leaf)) == Plug([f6], Node(Red, n7, 9, Node(Black, Leaf, 10, Leaf)));
  }
}
