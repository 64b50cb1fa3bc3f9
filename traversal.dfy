/**
 * In-order traversal with a cursor: first/last descend all the way left/right from the root;
 * next/prev step to the in-order successor/predecessor, going down into a child subtree when
 * there is one and otherwise popping the path until it crosses an edge of the right side.
 * find descends by key comparison and leaves the path to the node it finds.
 */
module Traversal {
  import opened Options
  import opened Trees
  import opened Paths

  /** Descend from `sub` (below `path`) to its leftmost node, pushing each step onto the path. */
  function LeftmostFrom(path: seq<Frame>, sub: Tree): (c: Cursor)
    requires sub.Node?
    ensures IsCursorOf(c, Plug(path, sub))
    ensures Position(c) == |Before(path)|
    ensures c.node.left.Leaf?
    decreases sub
  {
    if sub.left.Leaf? then Cursor(path, sub)
    else
      var f := Frame(Left, sub.color, sub.key, sub.right);
      assert (path + [f])[..|path + [f]| - 1] == path;
      LeftmostFrom(path + [f], sub.left)
  }

  /** Descend from `sub` (below `path`) to its rightmost node, pushing each step onto the path. */
  function RightmostFrom(path: seq<Frame>, sub: Tree): (c: Cursor)
    requires sub.Node?
    ensures IsCursorOf(c, Plug(path, sub))
    ensures Position(c) == |Before(path)| + |InOrder(sub)| - 1
    ensures c.node.right.Leaf?
    decreases sub
  {
    if sub.right.Leaf? then Cursor(path, sub)
    else
      var f := Frame(Right, sub.color, sub.key, sub.left);
      assert (path + [f])[..|path + [f]| - 1] == path;
      RightmostFrom(path + [f], sub.right)
  }

  /** rb_first: the cursor at the smallest key, or None for the empty tree. */
  function First(t: Tree): (r: Option<Cursor>)
    ensures r.None? <==> t.Leaf?
    ensures r.Some? ==> IsCursorOf(r.value, t) && Position(r.value) == 0
  {
    if t.Leaf? then None else Some(LeftmostFrom([], t))
  }

  /** rb_last: the cursor at the largest key, or None for the empty tree. */
  function Last(t: Tree): (r: Option<Cursor>)
    ensures r.None? <==> t.Leaf?
    ensures r.Some? ==> IsCursorOf(r.value, t) && Position(r.value) == |InOrder(t)| - 1
  {
    if t.Leaf? then None else Some(RightmostFrom([], t))
  }

  /**
   * Pop the path while the popped step went right; the first ancestor reached from its left
   * side is the successor of everything in `sub`. None when the path runs out.
   */
  function NextUp(path: seq<Frame>, sub: Tree): (r: Option<Cursor>)
    ensures r.Some? ==> IsCursorOf(r.value, Plug(path, sub)) && Position(r.value) == |Before(path)| + |InOrder(sub)|
    ensures r.None? <==> After(path) == []
    decreases |path|
  {
    if path == [] then None
    else
      var up, f := path[..|path| - 1], path[|path| - 1];
      if f.dir == Left then Some(Cursor(up, Attach(f, sub)))
      else NextUp(up, Attach(f, sub))
  }

  /** Pop the path while the popped step went left; the first ancestor reached from its right side is the predecessor. */
  function PrevUp(path: seq<Frame>, sub: Tree): (r: Option<Cursor>)
    ensures r.Some? ==> IsCursorOf(r.value, Plug(path, sub)) && Position(r.value) + 1 == |Before(path)|
    ensures r.None? <==> Before(path) == []
    decreases |path|
  {
    if path == [] then None
    else
      var up, f := path[..|path| - 1], path[|path| - 1];
      if f.dir == Right then Some(Cursor(up, Attach(f, sub)))
      else PrevUp(up, Attach(f, sub))
  }

  /** rb_next: the cursor one step further in key order, or None after the largest key. */
  function Next(c: Cursor): (r: Option<Cursor>)
    requires c.node.Node?
    ensures r.Some? ==> IsCursorOf(r.value, Plug(c.path, c.node)) && Position(r.value) == Position(c) + 1
    ensures r.None? <==> Position(c) + 1 == |InOrder(Plug(c.path, c.node))|
  {
    PlugInOrder(c.path, c.node);
    var n := c.node;
    if n.right.Node? then
      var f := Frame(Right, n.color, n.key, n.left);
      assert (c.path + [f])[..|c.path + [f]| - 1] == c.path;
      BeforeAppend(c.path, [f]);
      assert Before([f]) == InOrder(n.left) + [n.key] by {
        assert [f][..0] == [];
      }
      Some(LeftmostFrom(c.path + [f], n.right))
    else
      NextUp(c.path, n)
  }

  /** rb_prev: the cursor one step back in key order, or None before the smallest key. */
  function Prev(c: Cursor): (r: Option<Cursor>)
    requires c.node.Node?
    ensures r.Some? ==> IsCursorOf(r.value, Plug(c.path, c.node)) && Position(r.value) + 1 == Position(c)
    ensures r.None? <==> Position(c) == 0
  {
    var n := c.node;
    if n.left.Node? then
      var f := Frame(Left, n.color, n.key, n.right);
      assert (c.path + [f])[..|c.path + [f]| - 1] == c.path;
      BeforeAppend(c.path, [f]);
      assert Before([f]) == [] by {
        assert [f][..0] == [];
      }
      Some(RightmostFrom(c.path + [f], n.left))
    else
      PrevUp(c.path, n)
  }

  /** Descend from `sub` (below `path`) comparing `x` with each key until it is met. */
  function FindFrom(path: seq<Frame>, sub: Tree, x: int): (r: Option<Cursor>)
    requires Ordered(sub)
    ensures r.Some? <==> x in Keys(sub)
    ensures r.Some? ==> IsCursorOf(r.value, Plug(path, sub)) && r.value.node.key == x
    decreases sub
  {
    match sub
    case Leaf => None
    case Node(c, l, k, r) =>
      if x < k then
        var f := Frame(Left, c, k, r);
        assert (path + [f])[..|path + [f]| - 1] == path;
        FindFrom(path + [f], l, x)
      else if k < x then
        var f := Frame(Right, c, k, l);
        assert (path + [f])[..|path + [f]| - 1] == path;
        FindFrom(path + [f], r, x)
      else Some(Cursor(path, sub))
  }

  /** RB_FIND: the cursor at key `x` with its path from the root, or None when `x` is absent. */
  function Find(t: Tree, x: int): (r: Option<Cursor>)
    requires Ordered(t)
    ensures r.Some? <==> x in Keys(t)
    ensures r.Some? ==> IsCursorOf(r.value, t) && r.value.node.key == x
  {
    FindFrom([], t, x)
  }

  /** In an ordered tree the cursor Find returns sits at the index of `x` in the in-order sequence. */
  lemma FindPosition(t: Tree, x: int)
    requires Ordered(t) && x in Keys(t)
    ensures Find(t, x).Some?
    ensures Position(Find(t, x).value) < |InOrder(t)| && InOrder(t)[Position(Find(t, x).value)] == x
  {
    CursorKey(Find(t, x).value);
  }

  /** In an ordered tree, Next lands on the smallest key greater than the cursor's key. */
  lemma NextIsSuccessor(c: Cursor)
    requires c.node.Node? && Ordered(Plug(c.path, c.node))
    ensures Next(c).Some? ==> c.node.key < Next(c).value.node.key
    ensures Next(c).Some? ==> forall y :: y in Keys(Plug(c.path, c.node)) && c.node.key < y ==> Next(c).value.node.key <= y
    ensures Next(c).None? ==> forall y :: y in Keys(Plug(c.path, c.node)) ==> y <= c.node.key
  {
    var t := Plug(c.path, c.node);
    var s := InOrder(t);
    OrderedIffAscending(t);
    KeysInOrder(t);
    CursorKey(c);
    var p := Position(c);
    if Next(c).Some? {
      CursorKey(Next(c).value);
      forall y | y in Keys(t) && c.node.key < y ensures Next(c).value.node.key <= y {
        var j :| 0 <= j < |s| && s[j] == y;
        assert p < j;
      }
    } else {
      forall y | y in Keys(t) ensures y <= c.node.key {
        var j :| 0 <= j < |s| && s[j] == y;
        assert j <= p;
      }
    }
  }

  /** In an ordered tree, Prev lands on the largest key smaller than the cursor's key. */
  lemma PrevIsPredecessor(c: Cursor)
    requires c.node.Node? && Ordered(Plug(c.path, c.node))
    ensures Prev(c).Some? ==> Prev(c).value.node.key < c.node.key
    ensures Prev(c).Some? ==> forall y :: y in Keys(Plug(c.path, c.node)) && y < c.node.key ==> y <= Prev(c).value.node.key
    ensures Prev(c).None? ==> forall y :: y in Keys(Plug(c.path, c.node)) ==> c.node.key <= y
  {
    var t := Plug(c.path, c.node);
    var s := InOrder(t);
    OrderedIffAscending(t);
    KeysInOrder(t);
    CursorKey(c);
    var p := Position(c);
    if Prev(c).Some? {
      CursorKey(Prev(c).value);
      forall y | y in Keys(t) && y < c.node.key ensures y <= Prev(c).value.node.key {
        var j :| 0 <= j < |s| && s[j] == y;
        assert j < p;
      }
    } else {
      forall y | y in Keys(t) ensures c.node.key <= y {
        var j :| 0 <= j < |s| && s[j] == y;
        assert p <= j;
      }
    }
  }
}
