/**
 * Removal at a cursor, as the compact layout does it with its path: a node with at most one
 * child is replaced by that child; a node with two children takes the key of its in-order
 * successor (the leftmost node of its right subtree), which is then spliced out instead. If the
 * spliced-out position was black, its subtree is one black node short, and the deficiency is
 * walked up the path, one sibling case at a time:
 *   case 1, sibling red: rotate it up so that the sibling becomes black, then cases 2-4;
 *   case 2, sibling black with two black children: recolor the sibling red, move the deficiency up
 *           (it ends at a red parent, which is painted black);
 *   case 3, sibling black, only its near child red: rotate that child up, then case 4;
 *   case 4, sibling black, its far child red: rotate at the parent, recolor; done.
 * Removal by key is find followed by removal at the cursor.
 */
module Deletion {
  import opened Options
  import opened SortedSeqs
  import opened Trees
  import opened Paths
  import opened Traversal

  /** A subtree after a removal below it, and whether its black-height dropped by one. */
  datatype Removal = Removal(tree: Tree, short: bool)

  /** Splice out a node of color `c` whose only (possibly NULL) child is `child`. */
  function ReplaceByChild(c: Color, child: Tree): (d: Removal)
    ensures InOrder(d.tree) == InOrder(child)
  {
    if c == Red then Removal(child, false)
    else if IsRed(child) then Removal(Blacken(child), false)
    else Removal(child, true)
  }

  /** Resolve a left subtree `l` one black node short, at a parent with color `c` and key `k`; `r` is the sibling. */
  function RepairLeft(c: Color, l: Tree, k: int, r: Tree): (d: Removal)
    ensures InOrder(d.tree) == InOrder(l) + [k] + InOrder(r)
    decreases r
  {
    match r
    case Leaf => Removal(Node(c, l, k, r), true)
    case Node(Red, rl, rk, rr) =>
      Removal(Node(Black, RepairLeft(Red, l, k, rl).tree, rk, rr), false)
    case Node(Black, rl, rk, rr) =>
      if IsBlack(rl) && IsBlack(rr) then
        Removal(Node(Black, l, k, Node(Red, rl, rk, rr)), c == Black)
      else if IsBlack(rr) then
        Removal(Node(c, Node(Black, l, k, rl.left), rl.key, Node(Black, rl.right, rk, rr)), false)
      else
        Removal(Node(c, Node(Black, l, k, rl), rk, Blacken(rr)), false)
  }

  /** Mirror image of RepairLeft: the right subtree `r` is short and `l` is the sibling. */
  function RepairRight(c: Color, l: Tree, k: int, r: Tree): (d: Removal)
    ensures InOrder(d.tree) == InOrder(l) + [k] + InOrder(r)
    decreases l
  {
    match l
    case Leaf => Removal(Node(c, l, k, r), true)
    case Node(Red, ll, lk, lr) =>
      Removal(Node(Black, ll, lk, RepairRight(Red, lr, k, r).tree), false)
    case Node(Black, ll, lk, lr) =>
      if IsBlack(ll) && IsBlack(lr) then
        Removal(Node(Black, Node(Red, ll, lk, lr), k, r), c == Black)
      else if IsBlack(ll) then
        Removal(Node(c, Node(Black, ll, lk, lr.left), lr.key, Node(Black, lr.right, k, r)), false)
      else
        Removal(Node(c, Blacken(ll), lk, Node(Black, lr, k, r)), false)
  }

  /** Walk a deficiency up the path until it is resolved or reaches the root; then rebuild the tree. */
  function FixUp(path: seq<Frame>, d: Removal): (t: Tree)
    ensures InOrder(t) == Before(path) + InOrder(d.tree) + After(path)
    decreases |path|
  {
    if path == [] then d.tree
    else if !d.short then PlugInOrder(path, d.tree); Plug(path, d.tree)
    else
      var up, f := path[..|path| - 1], path[|path| - 1];
      if f.dir == Left then
        assert Before(path) == Before(up);
        assert After(path) == [f.key] + InOrder(f.other) + After(up);
        Regroup3(Before(up), InOrder(d.tree), [f.key], InOrder(f.other), After(up));
        FixUp(up, RepairLeft(f.color, d.tree, f.key, f.other))
      else
        assert Before(path) == Before(up) + InOrder(f.other) + [f.key];
        assert After(path) == After(up);
        Regroup3(Before(up), InOrder(f.other), [f.key], InOrder(d.tree), After(up));
        FixUp(up, RepairRight(f.color, f.other, f.key, d.tree))
  }

  /** rb_remove: remove the node at the cursor; the result keeps every other key in order. */
  function RemoveAt(c: Cursor): (t: Tree)
    requires c.node.Node?
    ensures InOrder(t) == Before(c.path) + InOrder(c.node.left) + InOrder(c.node.right) + After(c.path)
  {
    var n := c.node;
    if n.left.Leaf? then FixUp(c.path, ReplaceByChild(n.color, n.right))
    else if n.right.Leaf? then FixUp(c.path, ReplaceByChild(n.color, n.left))
    else
      var s := LeftmostFrom([], n.right);
      var path := c.path + [Frame(Right, n.color, s.node.key, n.left)] + s.path;
      SuccessorSpliceInOrder(c, s);
      FixUp(path, ReplaceByChild(s.node.color, s.node.right))
  }

  /** RB_REMOVE: remove key `x` if present; otherwise the tree is unchanged. */
  function Remove(t: Tree, x: int): (r: Tree)
    requires IsRedBlack(t)
    ensures IsRedBlack(r)
    ensures Keys(r) == Keys(t) - {x}
    ensures BlackHeight(r) == BlackHeight(t) || BlackHeight(r) + 1 == BlackHeight(t)
    ensures x !in Keys(t) ==> r == t
  {
    match Find(t, x)
    case None => t
    case Some(c) => RemoveAtRestores(c); RemoveAt(c)
  }

  /** The in-order bookkeeping of the two-children case: the successor's key moves up, its node is spliced out. */
  lemma SuccessorSpliceInOrder(c: Cursor, s: Cursor)
    requires c.node.Node?
    requires IsCursorOf(s, c.node.right) && Position(s) == 0
    ensures var f := Frame(Right, c.node.color, s.node.key, c.node.left);
      Before(c.path + [f] + s.path) + InOrder(s.node.right) + After(c.path + [f] + s.path)
      == Before(c.path) + InOrder(c.node.left) + InOrder(c.node.right) + After(c.path)
  {
    var n := c.node;
    var f := Frame(Right, n.color, s.node.key, n.left);
    var p, q := c.path + [f], s.path;
    assert Before(p + q) == Before(c.path) + InOrder(n.left) + [s.node.key] by {
      assert Before(q) == [];
      BeforeAppend(p, q);
      BeforeAppend(c.path, [f]);
      assert Before([f]) == InOrder(n.left) + [s.node.key] by { assert [f][..0] == []; }
    }
    assert After(p + q) == After(q) + After(c.path) by {
      AfterAppend(p, q);
      AfterAppend(c.path, [f]);
      assert After([f]) == [] by { assert [f][..0] == []; }
    }
    assert InOrder(n.right) == [s.node.key] + (InOrder(s.node.right) + After(q)) by {
      CursorSplit(s);
      assert Before(q) + InOrder(s.node.left) == [];
    }
    Regroup(Before(c.path), InOrder(n.left), [s.node.key], InOrder(s.node.right), After(q), After(c.path));
  }

  /** Splicing out a node with at most one child keeps the colors valid; a shortfall is flagged when a black node leaves with a black child. */
  lemma ReplaceByChildRestores(c: Color, child: Tree)
    requires ValidBlackHeight(child) && NoRedRed(child) && BlackHeight(child) == 0
    requires c == Red ==> IsBlack(child)
    ensures ValidBlackHeight(ReplaceByChild(c, child).tree) && NoRedRed(ReplaceByChild(c, child).tree)
    ensures BlackHeight(ReplaceByChild(c, child).tree) + (if ReplaceByChild(c, child).short then 1 else 0)
      == (if c == Black then 1 else 0)
    ensures IsRed(ReplaceByChild(c, child).tree) ==> c == Red
  {
  }

  /**
   * The sibling cases restore a left subtree that is one black node short: the result is valid,
   * its black-height is the parent's old one unless the deficiency moves up (case 2 at a black
   * parent), and a black parent position stays black.
   */
  lemma {:induction false} RepairLeftRestores(c: Color, l: Tree, k: int, r: Tree)
    requires ValidBlackHeight(l) && ValidBlackHeight(r) && NoRedRed(l) && NoRedRed(r)
    requires BlackHeight(r) == BlackHeight(l) + 1
    requires c == Red ==> IsBlack(r)
    ensures ValidBlackHeight(RepairLeft(c, l, k, r).tree) && NoRedRed(RepairLeft(c, l, k, r).tree)
    ensures BlackHeight(RepairLeft(c, l, k, r).tree) + (if RepairLeft(c, l, k, r).short then 1 else 0)
      == (if c == Black then 1 else 0) + BlackHeight(r)
    ensures c == Black ==> IsBlack(RepairLeft(c, l, k, r).tree)
    ensures RepairLeft(c, l, k, r).short ==> c == Black
    decreases r
  {
    if IsRed(r) {
      RepairLeftRestores(Red, l, k, r.left);
    }
  }

  /** The mirror image of RepairLeftRestores. */
  lemma {:induction false} RepairRightRestores(c: Color, l: Tree, k: int, r: Tree)
    requires ValidBlackHeight(l) && ValidBlackHeight(r) && NoRedRed(l) && NoRedRed(r)
    requires BlackHeight(l) == BlackHeight(r) + 1
    requires c == Red ==> IsBlack(l)
    ensures ValidBlackHeight(RepairRight(c, l, k, r).tree) && NoRedRed(RepairRight(c, l, k, r).tree)
    ensures BlackHeight(RepairRight(c, l, k, r).tree) + (if RepairRight(c, l, k, r).short then 1 else 0)
      == (if c == Black then 1 else 0) + BlackHeight(l)
    ensures c == Black ==> IsBlack(RepairRight(c, l, k, r).tree)
    ensures RepairRight(c, l, k, r).short ==> c == Black
    decreases l
  {
    if IsRed(l) {
      RepairRightRestores(Red, l.right, k, r);
    }
  }

  /**
   * Walking the deficiency up the path of a valid tree, in which `d` replaces the subtree `sub`
   * (one black node short when d.short), gives a valid tree whose black-height is the old one or
   * one less, and whose root is red only if the old root was.
   */
  lemma {:induction false} FixUpRestores(path: seq<Frame>, sub: Tree, d: Removal)
    requires ValidBlackHeight(Plug(path, sub)) && NoRedRed(Plug(path, sub))
    requires ValidBlackHeight(d.tree) && NoRedRed(d.tree)
    requires BlackHeight(d.tree) + (if d.short then 1 else 0) == BlackHeight(sub)
    requires IsRed(d.tree) ==> IsRed(sub)
    ensures ValidBlackHeight(FixUp(path, d)) && NoRedRed(FixUp(path, d))
    ensures BlackHeight(FixUp(path, d)) == BlackHeight(Plug(path, sub)) ||
            BlackHeight(FixUp(path, d)) + 1 == BlackHeight(Plug(path, sub))
    ensures IsRed(FixUp(path, d)) ==> IsRed(Plug(path, sub))
    decreases |path|
  {
    if path == [] {
    } else if !d.short {
      PlugReplace(path, sub, d.tree);
    } else {
      var up, f := path[..|path| - 1], path[|path| - 1];
      PlugSubtree(up, Attach(f, sub));
      if f.dir == Left {
        RepairLeftRestores(f.color, d.tree, f.key, f.other);
        FixUpRestores(up, Attach(f, sub), RepairLeft(f.color, d.tree, f.key, f.other));
      } else {
        RepairRightRestores(f.color, f.other, f.key, d.tree);
        FixUpRestores(up, Attach(f, sub), RepairRight(f.color, f.other, f.key, d.tree));
      }
    }
  }

  /** The successor's path runs through the node whose key it takes. */
  lemma SuccessorPath(path: seq<Frame>, f: Frame, s: Cursor, right: Tree)
    requires f.dir == Right && IsCursorOf(s, right)
    ensures Plug(path + [f] + s.path, s.node) == Plug(path, Attach(f, right))
  {
    PlugAppend(path + [f], s.path, s.node);
    PlugAppend(path, [f], right);
    assert [f][..0] == [];
  }

  /** Removal at a cursor keeps every red-black invariant; the black-height drops by at most one. */
  lemma RemoveAtValid(c: Cursor)
    requires c.node.Node?
    requires ValidBlackHeight(Plug(c.path, c.node)) && NoRedRed(Plug(c.path, c.node)) && IsBlack(Plug(c.path, c.node))
    ensures ValidBlackHeight(RemoveAt(c)) && NoRedRed(RemoveAt(c)) && IsBlack(RemoveAt(c))
    ensures BlackHeight(RemoveAt(c)) == BlackHeight(Plug(c.path, c.node)) ||
            BlackHeight(RemoveAt(c)) + 1 == BlackHeight(Plug(c.path, c.node))
  {
    var n := c.node;
    PlugSubtree(c.path, n);
    if n.left.Leaf? {
      ReplaceByChildRestores(n.color, n.right);
      FixUpRestores(c.path, n, ReplaceByChild(n.color, n.right));
    } else if n.right.Leaf? {
      ReplaceByChildRestores(n.color, n.left);
      FixUpRestores(c.path, n, ReplaceByChild(n.color, n.left));
    } else {
      var s := LeftmostFrom([], n.right);
      var f := Frame(Right, n.color, s.node.key, n.left);
      var path := c.path + [f] + s.path;
      var moved := Node(n.color, n.left, s.node.key, n.right);
      PlugReplace(c.path, n, moved);
      SuccessorPath(c.path, f, s, n.right);
      PlugSubtree(path, s.node);
      ReplaceByChildRestores(s.node.color, s.node.right);
      FixUpRestores(path, s.node, ReplaceByChild(s.node.color, s.node.right));
    }
  }

  /** Removing at a cursor cuts exactly the cursor's position out of the in-order sequence. */
  lemma RemoveAtInOrder(c: Cursor)
    requires c.node.Node?
    ensures var s := InOrder(Plug(c.path, c.node));
      Position(c) < |s| && InOrder(RemoveAt(c)) == s[..Position(c)] + s[Position(c) + 1..]
  {
    var n := c.node;
    CursorSplit(c);
    DropPivot(InOrder(Plug(c.path, n)), Before(c.path) + InOrder(n.left), n.key, InOrder(n.right) + After(c.path));
  }

  /**
   * Removal at a cursor of a red-black tree gives a red-black tree whose in-order sequence is
   * the old one without the cursor's position, and whose keys are the old ones without the cursor's key.
   */
  lemma RemoveAtRestores(c: Cursor)
    requires c.node.Node? && IsRedBlack(Plug(c.path, c.node))
    ensures IsRedBlack(RemoveAt(c))
    ensures var s := InOrder(Plug(c.path, c.node));
      Position(c) < |s| && InOrder(RemoveAt(c)) == s[..Position(c)] + s[Position(c) + 1..]
    ensures Keys(RemoveAt(c)) == Keys(Plug(c.path, c.node)) - {c.node.key}
    ensures BlackHeight(RemoveAt(c)) == BlackHeight(Plug(c.path, c.node)) ||
            BlackHeight(RemoveAt(c)) + 1 == BlackHeight(Plug(c.path, c.node))
  {
    var t, r := Plug(c.path, c.node), RemoveAt(c);
    var s := InOrder(t);
    var p := Position(c);
    RemoveAtValid(c);
    CursorKey(c);
    RemoveAtInOrder(c);
    assert Ascending(InOrder(r)) && forall y :: y in InOrder(r) <==> y in s && y != c.node.key by {
      OrderedIffAscending(t);
      AscendingDrop(s, p);
    }
    OrderedIffAscending(r);
    KeysInOrder(t);
    KeysInOrder(r);
    forall y ensures y in Keys(r) <==> y in Keys(t) - {c.node.key} {
      assert y in InOrder(r) <==> y in s && y != c.node.key;
    }
  }
}
