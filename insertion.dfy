/**
 * Insertion: descend by key comparison, link the new key as a red leaf, and on the way back up
 * resolve a red node with a red child at its black grandparent:
 *   case 1, uncle red: recolor parent and uncle black, grandparent red (the violation may move up);
 *   case 2, uncle black, new node on the zigzag side: rotate it into line, then case 3;
 *   case 3, uncle black, straight line: rotate at the grandparent, parent black, grandparent red.
 * The root is painted black at the end.
 */
module Insertion {
  import opened Trees

  /** A red root whose two subtrees are free of red-red pairs and not both red: what inserting below a red node leaves. */
  predicate Infrared(t: Tree)
  {
    t.Node? && NoRedRed(t.left) && NoRedRed(t.right) && (IsBlack(t.left) || IsBlack(t.right))
  }

  /** Fix a red-red pair in the left subtree `l` of a grandparent with color `c`, key `k` and right subtree (the uncle side) `r`. */
  function FixLeft(c: Color, l: Tree, k: int, r: Tree): Tree
  {
    if c == Black && IsRed(l) && (IsRed(l.left) || IsRed(l.right)) then
      if IsRed(r) then
        Node(Red, Blacken(l), k, Blacken(r))
      else if IsRed(l.left) then
        Node(Black, l.left, l.key, Node(Red, l.right, k, r))
      else
        Node(Black, Node(Red, l.left, l.key, l.right.left), l.right.key, Node(Red, l.right.right, k, r))
    else
      Node(c, l, k, r)
  }

  /** Mirror image of FixLeft: the red-red pair is in the right subtree `r`, the uncle is `l`. */
  function FixRight(c: Color, l: Tree, k: int, r: Tree): Tree
  {
    if c == Black && IsRed(r) && (IsRed(r.left) || IsRed(r.right)) then
      if IsRed(l) then
        Node(Red, Blacken(l), k, Blacken(r))
      else if IsRed(r.right) then
        Node(Black, Node(Red, l, k, r.left), r.key, r.right)
      else
        Node(Black, Node(Red, l, k, r.left.left), r.left.key, Node(Red, r.left.right, r.key, r.right))
    else
      Node(c, l, k, r)
  }

  /** Insert `x` below `t`, fixing red-red pairs at each black grandparent on the way back up. */
  function Ins(t: Tree, x: int): (r: Tree)
    ensures r.Node?
  {
    match t
    case Leaf => Node(Red, Leaf, x, Leaf)
    case Node(c, l, k, rt) =>
      if x < k then FixLeft(c, Ins(l, x), k, rt)
      else if k < x then FixRight(c, l, k, Ins(rt, x))
      else t
  }

  /** RB_INSERT: insert `x` and paint the root black. A key already present leaves the tree as it is. */
  function Insert(t: Tree, x: int): (r: Tree)
    requires IsRedBlack(t)
    ensures IsRedBlack(r)
    ensures Keys(r) == Keys(t) + {x}
    ensures BlackHeight(r) == BlackHeight(t) || BlackHeight(r) == BlackHeight(t) + 1
    ensures x in Keys(t) ==> r == t
  {
    InsRestores(t, x);
    InsKeys(t, x);
    InsPresent(t, x);
    Blacken(Ins(t, x))
  }

  /** Inserting a key already present descends to it and changes nothing on the way back up. */
  lemma {:induction false} InsPresent(t: Tree, x: int)
    requires Ordered(t) && NoRedRed(t)
    ensures x in Keys(t) ==> Ins(t, x) == t
  {
    match t
    case Leaf =>
    case Node(c, l, k, r) =>
      if x < k {
        assert x in Keys(r) ==> k < x;
        InsPresent(l, x);
      } else if k < x {
        assert x in Keys(l) ==> x < k;
        InsPresent(r, x);
      }
  }

  /** The rotations and recolorings of FixLeft keep the in-order sequence. */
  lemma FixLeftInOrder(c: Color, l: Tree, k: int, r: Tree)
    ensures InOrder(FixLeft(c, l, k, r)) == InOrder(l) + [k] + InOrder(r)
  {
  }

  /** The mirror image of FixLeftInOrder. */
  lemma FixRightInOrder(c: Color, l: Tree, k: int, r: Tree)
    ensures InOrder(FixRight(c, l, k, r)) == InOrder(l) + [k] + InOrder(r)
  {
  }

  /** Insertion adds exactly `x` to the key set and keeps the binary-search order. */
  lemma {:induction false} InsKeys(t: Tree, x: int)
    ensures Keys(Ins(t, x)) == Keys(t) + {x}
    ensures Ordered(t) ==> Ordered(Ins(t, x))
  {
    match t
    case Leaf =>
    case Node(c, l, k, r) =>
      if x < k {
        InsKeys(l, x);
        FixLeftKeys(c, l, Ins(l, x), k, r, x);
      } else if k < x {
        InsKeys(r, x);
        FixRightKeys(c, l, k, r, Ins(r, x), x);
      }
  }

  /** The step of InsKeys on the left: replacing `l` by `l2`, its insert of `x < k`, then fixing. */
  lemma FixLeftKeys(c: Color, l: Tree, l2: Tree, k: int, r: Tree, x: int)
    requires x < k && Keys(l2) == Keys(l) + {x} && (Ordered(l) ==> Ordered(l2))
    ensures Keys(FixLeft(c, l2, k, r)) == Keys(Node(c, l, k, r)) + {x}
    ensures Ordered(Node(c, l, k, r)) ==> Ordered(FixLeft(c, l2, k, r))
  {
    FixLeftInOrder(c, l2, k, r);
    SameInOrder(FixLeft(c, l2, k, r), Node(c, l2, k, r));
    if Ordered(Node(c, l, k, r)) {
      assert forall y :: y in Keys(l2) ==> y < k;
    }
  }

  /** The mirror image of FixLeftKeys. */
  lemma FixRightKeys(c: Color, l: Tree, k: int, r: Tree, r2: Tree, x: int)
    requires k < x && Keys(r2) == Keys(r) + {x} && (Ordered(r) ==> Ordered(r2))
    ensures Keys(FixRight(c, l, k, r2)) == Keys(Node(c, l, k, r)) + {x}
    ensures Ordered(Node(c, l, k, r)) ==> Ordered(FixRight(c, l, k, r2))
  {
    FixRightInOrder(c, l, k, r2);
    SameInOrder(FixRight(c, l, k, r2), Node(c, l, k, r2));
    if Ordered(Node(c, l, k, r)) {
      assert forall y :: y in Keys(r2) ==> k < y;
    }
  }

  /** FixLeft keeps black-heights valid and unchanged, and leaves no red-red pair below a black grandparent. */
  lemma FixLeftRestores(c: Color, l: Tree, k: int, r: Tree)
    requires ValidBlackHeight(l) && ValidBlackHeight(r) && BlackHeight(l) == BlackHeight(r)
    requires NoRedRed(r) && (c == Red ==> IsBlack(r) && NoRedRed(l))
    requires c == Black ==> NoRedRed(l) || (IsRed(l) && Infrared(l))
    ensures ValidBlackHeight(FixLeft(c, l, k, r))
    ensures BlackHeight(FixLeft(c, l, k, r)) == BlackHeight(Node(c, l, k, r))
    ensures c == Black ==> NoRedRed(FixLeft(c, l, k, r))
    ensures c == Red ==> FixLeft(c, l, k, r) == Node(c, l, k, r)
  {
  }

  /** The mirror image of FixLeftRestores. */
  lemma FixRightRestores(c: Color, l: Tree, k: int, r: Tree)
    requires ValidBlackHeight(l) && ValidBlackHeight(r) && BlackHeight(l) == BlackHeight(r)
    requires NoRedRed(l) && (c == Red ==> IsBlack(l) && NoRedRed(r))
    requires c == Black ==> NoRedRed(r) || (IsRed(r) && Infrared(r))
    ensures ValidBlackHeight(FixRight(c, l, k, r))
    ensures BlackHeight(FixRight(c, l, k, r)) == BlackHeight(Node(c, l, k, r))
    ensures c == Black ==> NoRedRed(FixRight(c, l, k, r))
    ensures c == Red ==> FixRight(c, l, k, r) == Node(c, l, k, r)
  {
  }

  /**
   * Insertion below a black node (or NULL) leaves no red-red pair; below a red node it leaves a
   * red root with at most one red child. Black-heights stay valid and unchanged.
   */
  lemma {:induction false} InsRestores(t: Tree, x: int)
    requires ValidBlackHeight(t) && NoRedRed(t)
    ensures ValidBlackHeight(Ins(t, x)) && BlackHeight(Ins(t, x)) == BlackHeight(t)
    ensures IsBlack(t) ==> NoRedRed(Ins(t, x))
    ensures IsRed(t) ==> IsRed(Ins(t, x)) && Infrared(Ins(t, x))
  {
    match t
    case Leaf =>
    case Node(c, l, k, r) =>
      if x < k {
        InsRestores(l, x);
        FixLeftRestores(c, Ins(l, x), k, r);
      } else if k < x {
        InsRestores(r, x);
        FixRightRestores(c, l, k, Ins(r, x));
      }
  }
}
