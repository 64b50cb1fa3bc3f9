/**
 * The test driver's own checkers. A failed assertion aborts the test case; here it is a None
 * result or a false flag.
 */
module Checkers {
  import opened Options
  import opened Trees

  /**
   * get_rbtree_black_height: the black nodes on a path from `t` down to NULL, counting the node
   * itself when it is black; None when some node's two sides disagree.
   */
  function CheckedBlackHeight(t: Tree): (r: Option<nat>)
    ensures r.Some? <==> ValidBlackHeight(t)
    ensures r.Some? ==> r.value == BlackHeight(t)
  {
    match t
    case Leaf => Some(0)
    case Node(c, l, _, rt) =>
      var lbh := CheckedBlackHeight(l);
      var rbh := CheckedBlackHeight(rt);
      if lbh.None? || rbh.None? || lbh.value != rbh.value then None
      else Some((if c == Black then 1 else 0) + lbh.value)
  }

  /** validate_rbtree_black_height: the tree passes when it is balanced with black-height `bh`. */
  predicate ValidateBlackHeight(t: Tree, bh: nat): (ok: bool)
    ensures ok <==> ValidBlackHeight(t) && BlackHeight(t) == bh
  {
    CheckedBlackHeight(t) == Some(bh)
  }

  /**
   * traverse_rbtree: visit `t` in order, comparing each key with `sorted[index]` and advancing
   * `index`. It passes exactly when the keys of `t` are the slice of `sorted` starting at `index`.
   * A read past the end of `sorted` counts as a mismatch; `index` itself never passes the end,
   * since it only advances after a successful read.
   */
  method Traverse(t: Tree, sorted: seq<int>, index: nat) returns (next: nat, ok: bool)
    requires index <= |sorted|
    ensures ok <==> index + |InOrder(t)| <= |sorted| && sorted[index..index + |InOrder(t)|] == InOrder(t)
    ensures ok ==> next == index + |InOrder(t)|
    decreases t
  {
    match t
    case Leaf =>
      return index, true;
    case Node(_, l, k, r) =>
      var i, okl := Traverse(l, sorted, index);
      var n := index + |InOrder(t)|;
      if !okl {
        if n <= |sorted| {
          assert sorted[index..n][..|InOrder(l)|] == sorted[index..index + |InOrder(l)|];
        }
        return i, false;
      }
      if i >= |sorted| || sorted[i] != k {
        if n <= |sorted| {
          assert sorted[index..n][|InOrder(l)|] == sorted[i];
        }
        return i, false;
      }
      next, ok := Traverse(r, sorted, i + 1);
      if n <= |sorted| {
        assert sorted[index..n] == sorted[index..i] + [k] + sorted[i + 1..n];
        assert InOrder(t) == InOrder(l) + [k] + InOrder(r);
        if sorted[index..n] == InOrder(t) {
          assert sorted[i + 1..n] == sorted[index..n][|InOrder(l)| + 1..];
        }
      }
  }

  /** validate_rbtree_sorted_order: the whole in-order traversal is exactly `sorted`. */
  method ValidateSortedOrder(t: Tree, sorted: seq<int>) returns (ok: bool)
    ensures ok <==> InOrder(t) == sorted
  {
    var index;
    index, ok := Traverse(t, sorted, 0);
    ok := ok && index == |sorted|;
    assert sorted[0..|sorted|] == sorted;
  }
}
