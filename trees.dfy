/** The Option result of lookups and checkers (a NULL pointer or a failed assertion is None). */
module Options {
  datatype Option<T> = None | Some(value: T)
}

/**
 * The red-black tree of int keys and its invariants: binary-search order, no red node with a
 * red child, equal black-height on both sides of every node, and a black root.
 */
module Trees {
  import opened SortedSeqs

  datatype Color = Red | Black

  /** A tree as reached from a root handle: Leaf is the NULL child link. */
  datatype Tree = Leaf | Node(color: Color, left: Tree, key: int, right: Tree)

  /** NULL links count as black. */
  predicate IsBlack(t: Tree) { t.Leaf? || t.color == Black }

  predicate IsRed(t: Tree) { t.Node? && t.color == Red }

  function Blacken(t: Tree): Tree
  {
    match t
    case Leaf => Leaf
    case Node(_, l, k, r) => Node(Black, l, k, r)
  }

  /** The keys in in-order (left subtree, node, right subtree) sequence. */
  function InOrder(t: Tree): seq<int>
  {
    match t
    case Leaf => []
    case Node(_, l, k, r) => InOrder(l) + [k] + InOrder(r)
  }

  function Keys(t: Tree): set<int>
  {
    match t
    case Leaf => {}
    case Node(_, l, k, r) => Keys(l) + {k} + Keys(r)
  }

  /** Binary-search order: every key of a left subtree is below the node's key, every key of a right subtree above it. */
  predicate Ordered(t: Tree)
  {
    match t
    case Leaf => true
    case Node(_, l, k, r) =>
      Ordered(l) && Ordered(r) &&
      (forall y :: y in Keys(l) ==> y < k) &&
      (forall y :: y in Keys(r) ==> k < y)
  }

  /** Black nodes on the leftmost path: 0 for NULL, else 1 for a black node (0 for a red one) plus the left subtree's. */
  function BlackHeight(t: Tree): nat
  {
    match t
    case Leaf => 0
    case Node(c, l, _, _) => (if c == Black then 1 else 0) + BlackHeight(l)
  }

  /** At every node the left and right subtrees have the same black-height. */
  predicate ValidBlackHeight(t: Tree)
  {
    match t
    case Leaf => true
    case Node(_, l, _, r) =>
      ValidBlackHeight(l) && ValidBlackHeight(r) && BlackHeight(l) == BlackHeight(r)
  }

  /** No red node has a red child. */
  predicate NoRedRed(t: Tree)
  {
    match t
    case Leaf => true
    case Node(c, l, _, r) =>
      NoRedRed(l) && NoRedRed(r) && (c == Red ==> IsBlack(l) && IsBlack(r))
  }

  /** All red-black tree invariants together, as every engine operation must leave them. */
  predicate IsRedBlack(t: Tree)
  {
    Ordered(t) && ValidBlackHeight(t) && NoRedRed(t) && IsBlack(t)
  }

  /** Number of nodes on the longest root-to-NULL path. */
  function Height(t: Tree): nat
  {
    match t
    case Leaf => 0
    case Node(_, l, _, r) => 1 + (if Height(l) < Height(r) then Height(r) else Height(l))
  }

  /** Number of black nodes on each root-to-NULL path, collected over all paths. */
  function PathBlackCounts(t: Tree): set<nat>
  {
    match t
    case Leaf => {0}
    case Node(c, l, _, r) =>
      set n | n in PathBlackCounts(l) + PathBlackCounts(r) :: (if c == Black then 1 else 0) + n
  }

  function Pow2(n: nat): nat
  {
    if n == 0 then 1 else 2 * Pow2(n - 1)
  }

  /** The key set is exactly the set of keys the in-order traversal visits. */
  lemma {:induction false} KeysInOrder(t: Tree)
    ensures forall y :: y in Keys(t) <==> y in InOrder(t)
  {
    match t
    case Leaf =>
    case Node(_, l, k, r) =>
      KeysInOrder(l);
      KeysInOrder(r);
  }

  /** The binary-search order holds at every node exactly when the in-order traversal is strictly ascending. */
  lemma {:induction false} OrderedIffAscending(t: Tree)
    ensures Ordered(t) <==> Ascending(InOrder(t))
  {
    match t
    case Leaf =>
    case Node(_, l, k, r) =>
      OrderedIffAscending(l);
      OrderedIffAscending(r);
      KeysInOrder(l);
      KeysInOrder(r);
      AscendingJoin(InOrder(l), k, InOrder(r));
  }

  /** Restructuring that keeps the in-order sequence keeps the key set and the order invariant. */
  lemma SameInOrder(t1: Tree, t2: Tree)
    requires InOrder(t1) == InOrder(t2)
    ensures Keys(t1) == Keys(t2)
    ensures Ordered(t1) <==> Ordered(t2)
  {
    KeysInOrder(t1);
    KeysInOrder(t2);
    forall y ensures y in Keys(t1) <==> y in Keys(t2) {
      assert y in InOrder(t1) <==> y in InOrder(t2);
    }
    OrderedIffAscending(t1);
    OrderedIffAscending(t2);
  }

  /** An ordered tree holds each key once: its size is the size of its key set. */
  lemma OrderedSize(t: Tree)
    requires Ordered(t)
    ensures |Keys(t)| == |InOrder(t)|
  {
    match t
    case Leaf =>
    case Node(_, l, k, r) =>
      OrderedSize(l);
      OrderedSize(r);
      assert Keys(l) * Keys(r) == {} by {
        forall y | y in Keys(l) ensures y !in Keys(r) { }
      }
      assert k !in Keys(l) + Keys(r);
      assert |Keys(l) + Keys(r)| == |Keys(l)| + |Keys(r)|;
  }

  /** With valid black-heights, every root-to-NULL path carries BlackHeight(t) black nodes. */
  lemma {:induction false} BlackHeightIsPathCount(t: Tree)
    requires ValidBlackHeight(t)
    ensures PathBlackCounts(t) == {BlackHeight(t)}
  {
    match t
    case Leaf =>
    case Node(c, l, _, r) =>
      BlackHeightIsPathCount(l);
      BlackHeightIsPathCount(r);
  }

  /** A set holding two different numbers has at least two elements. */
  lemma TwoMembers(s: set<nat>, x: nat, y: nat)
    requires x in s && y in s && x != y
    ensures |s| >= 2
  {
    var pair := {x, y};
    assert |pair| == 2;
    assert |s| == |pair| + |s - pair|;
  }

  /** Two different elements of a set with at least two. */
  lemma PickTwo(s: set<nat>) returns (x: nat, y: nat)
    requires |s| >= 2
    ensures x in s && y in s && x != y
  {
    x :| x in s;
    assert |s - {x}| >= 1;
    y :| y in s - {x};
  }

  /** A path count below a child, plus the node's own black count, is a path count of the node. */
  lemma ChildCount(c: Color, l: Tree, k: int, r: Tree, n: nat)
    requires n in PathBlackCounts(l) + PathBlackCounts(r)
    ensures (if c == Black then 1 else 0) + n in PathBlackCounts(Node(c, l, k, r))
  {
  }

  /** Conversely, a subtree pair with different black-heights gives a node with two path counts. */
  lemma {:induction false} UnequalSidesTwoCounts(c: Color, l: Tree, k: int, r: Tree)
    requires ValidBlackHeight(l) && ValidBlackHeight(r) && BlackHeight(l) != BlackHeight(r)
    ensures |PathBlackCounts(Node(c, l, k, r))| >= 2
  {
    BlackHeightIsPathCount(l);
    BlackHeightIsPathCount(r);
    var b := if c == Black then 1 else 0;
    var s := PathBlackCounts(Node(c, l, k, r));
    assert b + BlackHeight(l) in s && b + BlackHeight(r) in s;
    TwoMembers(s, b + BlackHeight(l), b + BlackHeight(r));
  }

  /** A tree that fails the check somewhere has root-to-NULL paths with two different black counts. */
  lemma {:induction false} InvalidTwoCounts(t: Tree)
    requires !ValidBlackHeight(t)
    ensures |PathBlackCounts(t)| >= 2
  {
    match t
    case Node(c, l, k, r) =>
      var b := if c == Black then 1 else 0;
      var s := PathBlackCounts(t);
      if !ValidBlackHeight(l) || !ValidBlackHeight(r) {
        var side := if !ValidBlackHeight(l) then l else r;
        InvalidTwoCounts(side);
        var x, y := PickTwo(PathBlackCounts(side));
        ChildCount(c, l, k, r, x);
        ChildCount(c, l, k, r, y);
        TwoMembers(s, b + x, b + y);
      } else {
        UnequalSidesTwoCounts(c, l, k, r);
      }
  }

  /** The check passes exactly when every root-to-NULL path carries the same number of black nodes. */
  lemma ValidIffOneCount(t: Tree)
    ensures ValidBlackHeight(t) <==> PathBlackCounts(t) == {BlackHeight(t)}
  {
    if ValidBlackHeight(t) {
      BlackHeightIsPathCount(t);
    } else {
      InvalidTwoCounts(t);
    }
  }

  /** A valid subtree of black-height h holds at least 2^h - 1 nodes. */
  lemma {:induction false} SizeAtLeastPow2(t: Tree)
    requires ValidBlackHeight(t)
    ensures Pow2(BlackHeight(t)) <= |InOrder(t)| + 1
  {
    match t
    case Leaf =>
    case Node(c, l, _, r) =>
      SizeAtLeastPow2(l);
      SizeAtLeastPow2(r);
  }

  /** No path is more than twice the black-height long (plus one for a red root). */
  lemma {:induction false} HeightAtMostTwiceBlack(t: Tree)
    requires ValidBlackHeight(t) && NoRedRed(t)
    ensures Height(t) <= 2 * BlackHeight(t) + (if IsRed(t) then 1 else 0)
  {
    match t
    case Leaf =>
    case Node(c, l, _, r) =>
      HeightAtMostTwiceBlack(l);
      HeightAtMostTwiceBlack(r);
  }
}
