/**
 * Traversal paths: the ancestor stack that the compact node layout keeps instead of parent
 * links. A path lists, from the root downwards, each ancestor of the current subtree with the
 * side the path went to; plugging a subtree back into its path rebuilds the whole tree.
 */
module Paths {
  import opened Trees

  datatype Dir = Left | Right

  /** One path entry: an ancestor's color and key, the side taken, and the ancestor's other child. */
  datatype Frame = Frame(dir: Dir, color: Color, key: int, other: Tree)

  /** A cursor: the path from the root to the current node, and the subtree rooted at that node. */
  datatype Cursor = Cursor(path: seq<Frame>, node: Tree)

  /** The ancestor of `f` with `sub` hung on the side the path took. */
  function Attach(f: Frame, sub: Tree): (t: Tree)
    ensures t.Node? && t.key == f.key && t.color == f.color
  {
    if f.dir == Left then Node(f.color, sub, f.key, f.other) else Node(f.color, f.other, f.key, sub)
  }

  /** The whole tree: `sub` hung below the innermost frame, that below the next, up to the root. */
  function Plug(path: seq<Frame>, sub: Tree): Tree
    decreases |path|
  {
    if path == [] then sub else Plug(path[..|path| - 1], Attach(path[|path| - 1], sub))
  }

  /** The keys the in-order traversal visits before the subtree at the end of `path`. */
  function Before(path: seq<Frame>): seq<int>
    decreases |path|
  {
    if path == [] then []
    else
      var f := path[|path| - 1];
      Before(path[..|path| - 1]) + (if f.dir == Right then InOrder(f.other) + [f.key] else [])
  }

  /** The keys the in-order traversal visits after the subtree at the end of `path`. */
  function After(path: seq<Frame>): seq<int>
    decreases |path|
  {
    if path == [] then []
    else
      var f := path[|path| - 1];
      (if f.dir == Left then [f.key] + InOrder(f.other) else []) + After(path[..|path| - 1])
  }

  predicate IsCursorOf(c: Cursor, t: Tree)
  {
    c.node.Node? && Plug(c.path, c.node) == t
  }

  /** The index of the cursor's key in the in-order sequence of the whole tree. */
  function Position(c: Cursor): nat
  {
    |Before(c.path)| + (if c.node.Node? then |InOrder(c.node.left)| else 0)
  }

  /** The in-order sequence of a plugged tree: what precedes the subtree, the subtree, what follows it. */
  lemma {:induction false} PlugInOrder(path: seq<Frame>, sub: Tree)
    ensures InOrder(Plug(path, sub)) == Before(path) + InOrder(sub) + After(path)
    decreases |path|
  {
    if path != [] {
      var up, f := path[..|path| - 1], path[|path| - 1];
      PlugInOrder(up, Attach(f, sub));
    }
  }

  /** Around a cursor, the in-order sequence is: what precedes its node, its node's subtrees and key, what follows. */
  lemma CursorSplit(c: Cursor)
    requires c.node.Node?
    ensures InOrder(Plug(c.path, c.node)) ==
      (Before(c.path) + InOrder(c.node.left)) + [c.node.key] + (InOrder(c.node.right) + After(c.path))
  {
    PlugInOrder(c.path, c.node);
  }

  /** The cursor's key sits at its position in the in-order sequence of its tree. */
  lemma CursorKey(c: Cursor)
    requires c.node.Node?
    ensures Position(c) < |InOrder(Plug(c.path, c.node))|
    ensures InOrder(Plug(c.path, c.node))[Position(c)] == c.node.key
  {
    CursorSplit(c);
  }

  /** Plugging into a longer path is plugging in two steps. */
  lemma {:induction false} PlugAppend(p: seq<Frame>, q: seq<Frame>, sub: Tree)
    ensures Plug(p + q, sub) == Plug(p, Plug(q, sub))
    decreases |q|
  {
    if q != [] {
      var q', f := q[..|q| - 1], q[|q| - 1];
      assert (p + q)[..|p + q| - 1] == p + q';
      PlugAppend(p, q', Attach(f, sub));
    } else {
      assert p + q == p;
    }
  }

  lemma {:induction false} BeforeAppend(p: seq<Frame>, q: seq<Frame>)
    ensures Before(p + q) == Before(p) + Before(q)
    decreases |q|
  {
    if q != [] {
      assert (p + q)[..|p + q| - 1] == p + q[..|q| - 1];
      BeforeAppend(p, q[..|q| - 1]);
    } else {
      assert p + q == p;
    }
  }

  lemma {:induction false} AfterAppend(p: seq<Frame>, q: seq<Frame>)
    ensures After(p + q) == After(q) + After(p)
    decreases |q|
  {
    if q != [] {
      assert (p + q)[..|p + q| - 1] == p + q[..|q| - 1];
      AfterAppend(p, q[..|q| - 1]);
    } else {
      assert p + q == p;
    }
  }

  /** A subtree of a tree with valid black-heights and no red-red pair has both properties too. */
  lemma {:induction false} PlugSubtree(path: seq<Frame>, sub: Tree)
    requires ValidBlackHeight(Plug(path, sub)) && NoRedRed(Plug(path, sub))
    ensures ValidBlackHeight(sub) && NoRedRed(sub)
    decreases |path|
  {
    if path != [] {
      PlugSubtree(path[..|path| - 1], Attach(path[|path| - 1], sub));
    }
  }

  /**
   * Swapping a subtree for one of the same black-height that is valid and no redder at its
   * root keeps the whole tree valid, with the same black-height and root color.
   */
  lemma {:induction false} PlugReplace(path: seq<Frame>, a: Tree, b: Tree)
    requires ValidBlackHeight(Plug(path, a)) && NoRedRed(Plug(path, a))
    requires ValidBlackHeight(b) && NoRedRed(b) && BlackHeight(b) == BlackHeight(a)
    requires IsRed(b) ==> IsRed(a)
    ensures ValidBlackHeight(Plug(path, b)) && NoRedRed(Plug(path, b))
    ensures BlackHeight(Plug(path, b)) == BlackHeight(Plug(path, a))
    ensures IsRed(Plug(path, b)) ==> IsRed(Plug(path, a))
    decreases |path|
  {
    if path != [] {
      var up, f := path[..|path| - 1], path[|path| - 1];
      PlugSubtree(up, Attach(f, a));
      PlugReplace(up, Attach(f, a), Attach(f, b));
    }
  }

  /** A path is shorter than the tree is high, so a tree's height bounds the stack a path needs. */
  lemma {:induction false} PathShorterThanHeight(path: seq<Frame>, sub: Tree)
    ensures |path| + Height(sub) <= Height(Plug(path, sub))
    decreases |path|
  {
    if path != [] {
      var up, f := path[..|path| - 1], path[|path| - 1];
      PathShorterThanHeight(up, Attach(f, sub));
    }
  }

  /**
   * The stack a cursor needs in a red-black tree: fewer than 2 * bh entries, where 2^bh - 1 is at
   * most the number of keys. So 2 * log2(n + 1) entries suffice for a tree of n keys.
   */
  lemma CursorPathBound(c: Cursor, t: Tree)
    requires IsCursorOf(c, t) && IsRedBlack(t)
    ensures |c.path| < 2 * BlackHeight(t)
    ensures Pow2(BlackHeight(t)) <= |InOrder(t)| + 1
  {
    PathShorterThanHeight(c.path, c.node);
    HeightAtMostTwiceBlack(t);
    SizeAtLeastPow2(t);
  }
}
