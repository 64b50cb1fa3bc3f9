/** Facts about strictly ascending sequences of keys, the shape of an in-order traversal. */
module SortedSeqs {

  /** Strictly ascending: the order the in-order traversal must produce, with no duplicates. */
  predicate Ascending(s: seq<int>)
  {
    forall i, j :: 0 <= i < j < |s| ==> s[i] < s[j]
  }

  /** The keys lo, lo + 1, ..., hi - 1, the contents of the tests' sorted node arrays. */
  function Range(lo: int, hi: int): (r: seq<int>)
    decreases hi - lo
    ensures |r| == if lo <= hi then hi - lo else 0
    ensures forall i :: 0 <= i < |r| ==> r[i] == lo + i
  {
    if hi <= lo then [] else [lo] + Range(lo + 1, hi)
  }

  /** Cutting lo..hi-1 at mid gives lo..mid-1 and mid..hi-1. */
  lemma RangeSplit(lo: int, mid: int, hi: int)
    requires lo <= mid <= hi
    ensures Range(lo, hi)[..mid - lo] == Range(lo, mid)
    ensures Range(lo, hi)[mid - lo..] == Range(mid, hi)
  {
  }

  /** Dropping key p from lo..hi-1 leaves lo..p-1 followed by p+1..hi-1. */
  lemma RangeDrop(lo: int, p: int, hi: int)
    requires lo <= p < hi
    ensures Range(lo, hi)[..p - lo] + Range(lo, hi)[p - lo + 1..] == Range(lo, p) + Range(p + 1, hi)
  {
    RangeSplit(lo, p, hi);
    assert Range(lo, hi)[p - lo + 1..] == Range(p, hi)[1..];
  }

  /** Joining around a pivot is ascending exactly when both sides are and the pivot separates them. */
  lemma AscendingJoin(a: seq<int>, k: int, b: seq<int>)
    ensures Ascending(a + [k] + b) <==>
      Ascending(a) && Ascending(b) && (forall y :: y in a ==> y < k) && (forall y :: y in b ==> k < y)
  {
    if Ascending(a + [k] + b) {
      AscendingSplit(a, k, b);
    }
    if Ascending(a) && Ascending(b) && (forall y :: y in a ==> y < k) && (forall y :: y in b ==> k < y) {
      AscendingGlue(a, k, b);
    }
  }

  /** The sides of an ascending join are ascending and separated by the pivot. */
  lemma AscendingSplit(a: seq<int>, k: int, b: seq<int>)
    requires Ascending(a + [k] + b)
    ensures Ascending(a) && Ascending(b) && (forall y :: y in a ==> y < k) && (forall y :: y in b ==> k < y)
  {
    var s := a + [k] + b;
    assert forall i :: 0 <= i < |a| ==> s[i] == a[i];
    assert s[|a|] == k;
    assert forall i :: 0 <= i < |b| ==> s[|a| + 1 + i] == b[i];
    forall y | y in a ensures y < k {
      var i :| 0 <= i < |a| && a[i] == y;
      assert s[i] < s[|a|];
    }
    forall y | y in b ensures k < y {
      var i :| 0 <= i < |b| && b[i] == y;
      assert s[|a|] < s[|a| + 1 + i];
    }
    forall i, j | 0 <= i < j < |b| ensures b[i] < b[j] {
      assert s[|a| + 1 + i] < s[|a| + 1 + j];
    }
  }

  /** Ascending sides separated by the pivot join into an ascending sequence. */
  lemma AscendingGlue(a: seq<int>, k: int, b: seq<int>)
    requires Ascending(a) && Ascending(b) && (forall y :: y in a ==> y < k) && (forall y :: y in b ==> k < y)
    ensures Ascending(a + [k] + b)
  {
    var s := a + [k] + b;
    forall i, j | 0 <= i < j < |s| ensures s[i] < s[j] {
      if j < |a| {
        assert s[i] == a[i] && s[j] == a[j];
      } else if j == |a| {
        assert s[i] == a[i] && a[i] in a;
      } else if i < |a| {
        assert s[i] == a[i] && s[j] == b[j - |a| - 1];
        assert a[i] in a && b[j - |a| - 1] in b;
      } else if i == |a| {
        assert s[j] == b[j - |a| - 1] && b[j - |a| - 1] in b;
      } else {
        assert s[i] == b[i - |a| - 1] && s[j] == b[j - |a| - 1];
      }
    }
  }

  /** Dropping the element at index p keeps a sequence ascending and removes exactly that key. */
  lemma AscendingDrop(s: seq<int>, p: nat)
    requires Ascending(s) && p < |s|
    ensures Ascending(s[..p] + s[p + 1..])
    ensures forall y :: y in s[..p] + s[p + 1..] <==> y in s && y != s[p]
  {
    var d := s[..p] + s[p + 1..];
    assert forall i :: 0 <= i < |d| ==> d[i] == if i < p then s[i] else s[i + 1];
    forall y ensures y in d <==> y in s && y != s[p] {
      if y in d {
        var i :| 0 <= i < |d| && d[i] == y;
        assert s[if i < p then i else i + 1] == y;
      }
      if y in s && y != s[p] {
        var j :| 0 <= j < |s| && s[j] == y;
        assert d[if j < p then j else j - 1] == y;
      }
    }
  }

  /** Cutting the pivot out of a join leaves the two sides. */
  lemma DropPivot(s: seq<int>, a: seq<int>, k: int, b: seq<int>)
    requires s == a + [k] + b
    ensures |a| < |s| && s[|a|] == k
    ensures s[..|a|] + s[|a| + 1..] == a + b
  {
    assert s[..|a|] == a;
    assert s[|a| + 1..] == b;
  }

  /** Two ascending sequences holding the same keys are the same sequence. */
  lemma {:induction false} AscendingUnique(a: seq<int>, b: seq<int>)
    requires Ascending(a) && Ascending(b)
    requires forall y :: y in a <==> y in b
    ensures a == b
  {
    if a != [] || b != [] {
      assert a != [] ==> a[0] in a && a[0] in b;
      assert b != [] ==> b[0] in b && b[0] in a;
      var i :| 0 <= i < |b| && b[i] == a[0];
      var j :| 0 <= j < |a| && a[j] == b[0];
      assert a[0] <= a[j] && b[0] <= b[i];
      forall y ensures y in a[1..] <==> y in b[1..] {
        if y in a[1..] {
          var m :| 1 <= m < |a| && a[m] == y;
          assert a[0] < y && y in a && y in b;
          var n :| 0 <= n < |b| && b[n] == y;
          assert n != 0;
          assert b[1..][n - 1] == y;
        }
        if y in b[1..] {
          var m :| 1 <= m < |b| && b[m] == y;
          assert b[0] < y && y in b && y in a;
          var n :| 0 <= n < |a| && a[n] == y;
          assert n != 0;
          assert a[1..][n - 1] == y;
        }
      }
      AscendingUnique(a[1..], b[1..]);
      assert a == [a[0]] + a[1..] && b == [b[0]] + b[1..];
    }
  }

  /** An ascending sequence whose keys are exactly lo..hi-1 is Range(lo, hi). */
  lemma AscendingRange(s: seq<int>, lo: int, hi: int)
    requires Ascending(s)
    requires forall y :: y in s <==> lo <= y < hi
    ensures s == Range(lo, hi)
  {
    var r := Range(lo, hi);
    forall y ensures y in s <==> y in r {
      if lo <= y < hi { assert r[y - lo] == y; }
    }
    AscendingUnique(s, r);
  }

  /** The keys in [lo, hi) that belong to `keep`, in increasing order: what sorting distinct keys from that range yields. */
  function AscendingOf(lo: int, hi: int, keep: set<int>): (r: seq<int>)
    decreases hi - lo
    ensures Ascending(r)
    ensures forall i :: 0 <= i < |r| ==> lo <= r[i]
    ensures forall y :: y in r <==> lo <= y < hi && y in keep
  {
    if hi <= lo then []
    else (if lo in keep then [lo] else []) + AscendingOf(lo + 1, hi, keep)
  }

  /** An ascending sequence holds each key at most once. */
  lemma {:induction false} AscendingCountOne(r: seq<int>, y: int)
    requires Ascending(r)
    ensures multiset(r)[y] <= 1
  {
    if r != [] {
      AscendingCountOne(r[1..], y);
      assert r == [r[0]] + r[1..];
      assert r[0] !in r[1..];
    }
  }

  /** A permutation of an ascending sequence, cut in two, has no key on both sides of the cut. */
  lemma PermutationCutDisjoint(s: seq<int>, r: seq<int>, m: nat)
    requires Ascending(r) && multiset(s) == multiset(r) && m <= |s|
    ensures forall y :: y in s[..m] ==> y !in s[m..]
  {
    assert s == s[..m] + s[m..];
    forall y | y in s[..m] ensures y !in s[m..] {
      AscendingCountOne(r, y);
      assert multiset(s)[y] == multiset(s[..m])[y] + multiset(s[m..])[y];
      assert multiset(s[..m])[y] >= 1;
    }
  }

  /** In a prefix of a permutation of lo..hi-1 every key lies in that range and appears at most once. */
  lemma PrefixOfRange(s: seq<int>, lo: int, hi: int, m: nat, y: int)
    requires multiset(s) == multiset(Range(lo, hi)) && m <= |s|
    ensures multiset(s[..m])[y] <= 1
    ensures y in s[..m] ==> lo <= y < hi
  {
    var range := Range(lo, hi);
    AscendingCountOne(range, y);
    assert s == s[..m] + s[m..];
    assert multiset(s)[y] == multiset(s[..m])[y] + multiset(s[m..])[y];
    if y in s[..m] {
      assert multiset(range)[y] > 0;
      var i :| 0 <= i < |range| && range[i] == y;
    }
  }

  /**
   * Sorting the first m entries of a permutation of lo..hi-1: the ascending sequence of their
   * keys has m entries and the same keys, each once.
   */
  lemma AscendingOfPrefix(s: seq<int>, lo: int, hi: int, m: nat)
    requires multiset(s) == multiset(Range(lo, hi)) && m <= |s|
    ensures |AscendingOf(lo, hi, set k | k in s[..m])| == m
    ensures multiset(AscendingOf(lo, hi, set k | k in s[..m])) == multiset(s[..m])
  {
    var keep := set k | k in s[..m];
    var r := AscendingOf(lo, hi, keep);
    forall y ensures multiset(r)[y] == multiset(s[..m])[y] {
      AscendingCountOne(r, y);
      PrefixOfRange(s, lo, hi, m, y);
      assert y in r <==> y in s[..m];
    }
    assert multiset(r) == multiset(s[..m]);
    assert |multiset(r)| == |r| && |multiset(s[..m])| == m;
  }

  /** Two regroupings of a concatenation around a middle part, as the in-order bookkeeping of rotations needs them. */
  lemma Regroup3(x: seq<int>, l: seq<int>, m: seq<int>, r: seq<int>, y: seq<int>)
    ensures x + (l + m + r) + y == x + l + (m + r + y)
    ensures x + (l + m + r) + y == (x + l + m) + r + y
  {
  }

  /** A regrouping of a concatenation of six parts. */
  lemma Regroup(a: seq<int>, b: seq<int>, c: seq<int>, d: seq<int>, e: seq<int>, f: seq<int>)
    ensures (a + b + c) + d + (e + f) == a + b + (c + (d + e)) + f
  {
  }
}
