/**
 * Frame insertion order. `AddFrame` finds the insertion point with
 * `List.BinarySearch` under `FrameInsertionComparer`, which subtracts two
 * 32-bit priorities (wrapping on overflow) and never answers "equal". The frame
 * list is kept with the weakest priority first and the strongest last, and a
 * new frame goes after every existing frame of the same priority, so the most
 * recently added of equal frames wins.
 */
module FrameOrder {
  import opened Base

  /** `FrameInsertionComparer.Compare(x, y)`: `y - x` in 32-bit arithmetic, or
      -1 when that is zero. */
  function Compare(x: int, y: int): (r: int)
    ensures r != 0
    ensures IsInt32(y - x) ==> (r < 0 <==> y <= x)
  {
    var d := Wrap32(y - x);
    if d != 0 then d else -1
  }

  /** The loop of `List.BinarySearch(item, comparer)` over `ps[lo..hi]`, as a
      recursion: probe the midpoint, go right on a negative answer and left on a
      positive one; the complement of `lo` reports "not found". */
  function BinarySearch(ps: seq<int>, x: int, lo: int, hi: int): (r: int)
    requires 0 <= lo <= hi + 1 <= |ps|
    ensures r >= 0 ==> lo <= r <= hi
    ensures r < 0 ==> lo <= -r - 1 <= hi + 1
    decreases hi - lo + 1
  {
    if lo > hi then -lo - 1
    else
      var i := lo + (hi - lo) / 2;
      var order := Compare(ps[i], x);
      if order == 0 then i
      else if order < 0 then BinarySearch(ps, x, i + 1, hi)
      else BinarySearch(ps, x, lo, i - 1)
  }

  /** `AddFrame`'s insertion index: the complement of a negative search result. */
  function InsertionIndex(ps: seq<int>, x: int): (r: int)
    ensures 0 <= r <= |ps|
  {
    var index := BinarySearch(ps, x, 0, |ps| - 1);
    if index < 0 then -index - 1 else index
  }

  /** Weakest priority (largest number) first. */
  predicate Sorted(ps: seq<int>) {
    forall i, j :: 0 <= i < j < |ps| ==> NotStronger(ps, i, j)
  }

  /** The frame at `i` is at least as weak as the one at `j`. */
  predicate NotStronger(ps: seq<int>, i: int, j: int)
    requires 0 <= i < |ps| && 0 <= j < |ps|
  {
    ps[i] >= ps[j]
  }

  /** No subtraction the comparer performs against `x` overflows. */
  predicate NoOverflow(ps: seq<int>, x: int) {
    forall i :: 0 <= i < |ps| ==> IsInt32(x - ps[i])
  }

  /** Every frame before `lo` is at least as weak as `x`; every frame after
      `hi` is strictly stronger. */
  predicate Bracketed(ps: seq<int>, x: int, lo: int, hi: int) {
    && (forall i :: 0 <= i < lo && i < |ps| ==> ps[i] >= x)
    && (forall i :: hi < i < |ps| && 0 <= i ==> ps[i] < x)
  }

  /** A probe at least as weak as `x` moves the lower bracket past it. */
  lemma ExtendLeft(ps: seq<int>, x: int, lo: int, hi: int, i: int)
    requires Sorted(ps) && 0 <= lo <= i < |ps| && ps[i] >= x && Bracketed(ps, x, lo, hi)
    ensures Bracketed(ps, x, i + 1, hi)
  {
    forall j | lo <= j < i ensures ps[j] >= x { assert NotStronger(ps, j, i); }
  }

  /** A probe stronger than `x` moves the upper bracket back to it. */
  lemma ExtendRight(ps: seq<int>, x: int, lo: int, hi: int, i: int)
    requires Sorted(ps) && 0 <= i <= hi < |ps| && ps[i] < x && Bracketed(ps, x, lo, hi)
    ensures Bracketed(ps, x, lo, i - 1)
  {
    forall j | i < j <= hi ensures ps[j] < x { assert NotStronger(ps, i, j); }
  }

  /** One probe of the search without overflow: the midpoint `i` sends the
      search right when `ps[i]` is at least as weak as `x`, left otherwise. */
  lemma SearchStep(ps: seq<int>, x: int, lo: int, hi: int) returns (i: int)
    requires 0 <= lo <= hi < |ps| && NoOverflow(ps, x)
    ensures lo <= i <= hi
    ensures BinarySearch(ps, x, lo, hi) ==
      if ps[i] >= x then BinarySearch(ps, x, i + 1, hi) else BinarySearch(ps, x, lo, i - 1)
  {
    i := lo + (hi - lo) / 2;
    assert IsInt32(x - ps[i]);
    var order := Compare(ps[i], x);
    assert order < 0 <==> ps[i] >= x;
  }

  /** The search over a bracketed range ends, without a hit, at the point
      where the brackets meet. */
  lemma {:induction false} BinarySearchSplits(ps: seq<int>, x: int, lo: int, hi: int) returns (k: int)
    requires 0 <= lo <= hi + 1 <= |ps|
    requires Sorted(ps) && NoOverflow(ps, x) && Bracketed(ps, x, lo, hi)
    ensures BinarySearch(ps, x, lo, hi) == -k - 1
    ensures lo <= k <= hi + 1 && Bracketed(ps, x, k, k - 1)
    decreases hi - lo + 1, 2
  {
    if lo <= hi {
      k := ProbeSplits(ps, x, lo, hi);
    } else {
      k := lo;
    }
  }

  /** The inductive step: one probe narrows the bracketed range. */
  lemma {:induction false} ProbeSplits(ps: seq<int>, x: int, lo: int, hi: int) returns (k: int)
    requires 0 <= lo <= hi < |ps|
    requires Sorted(ps) && NoOverflow(ps, x) && Bracketed(ps, x, lo, hi)
    ensures BinarySearch(ps, x, lo, hi) == -k - 1
    ensures lo <= k <= hi + 1 && Bracketed(ps, x, k, k - 1)
    decreases hi - lo + 1, 1
  {
    var i := SearchStep(ps, x, lo, hi);
    if ps[i] >= x {
      k := GoRight(ps, x, lo, hi, i);
    } else {
      k := GoLeft(ps, x, lo, hi, i);
    }
  }

  /** A probe at least as weak as `x`: the search continues right of it. */
  lemma {:induction false} GoRight(ps: seq<int>, x: int, lo: int, hi: int, i: int) returns (k: int)
    requires 0 <= lo <= i <= hi < |ps| && ps[i] >= x
    requires Sorted(ps) && NoOverflow(ps, x) && Bracketed(ps, x, lo, hi)
    ensures BinarySearch(ps, x, i + 1, hi) == -k - 1
    ensures lo <= k <= hi + 1 && Bracketed(ps, x, k, k - 1)
    decreases hi - lo + 1, 0
  {
    ExtendLeft(ps, x, lo, hi, i);
    k := BinarySearchSplits(ps, x, i + 1, hi);
  }

  /** A probe stronger than `x`: the search continues left of it. */
  lemma {:induction false} GoLeft(ps: seq<int>, x: int, lo: int, hi: int, i: int) returns (k: int)
    requires 0 <= lo <= i <= hi < |ps| && ps[i] < x
    requires Sorted(ps) && NoOverflow(ps, x) && Bracketed(ps, x, lo, hi)
    ensures BinarySearch(ps, x, lo, i - 1) == -k - 1
    ensures lo <= k <= hi + 1 && Bracketed(ps, x, k, k - 1)
    decreases hi - lo + 1, 0
  {
    ExtendRight(ps, x, lo, hi, i);
    k := BinarySearchSplits(ps, x, lo, i - 1);
  }

  /** On a sorted list without overflow, the insertion point splits the list:
      every frame before it is at least as weak as the new one, every frame
      from it on is strictly stronger. */
  lemma InsertionIndexSplits(ps: seq<int>, x: int)
    requires Sorted(ps) && NoOverflow(ps, x)
    ensures var k := InsertionIndex(ps, x);
      0 <= k <= |ps|
      && (forall i :: 0 <= i < k ==> ps[i] >= x)
      && (forall i :: k <= i < |ps| ==> ps[i] < x)
  {
    var k := BinarySearchSplits(ps, x, 0, |ps| - 1);
  }

  /** `_frames.Insert(index, frame)`. */
  function InsertAt<T>(s: seq<T>, k: int, x: T): (r: seq<T>)
    requires 0 <= k <= |s|
    ensures |r| == |s| + 1 && r[k] == x
    ensures forall i :: 0 <= i < k ==> r[i] == s[i]
    ensures forall i :: k < i < |r| ==> r[i] == s[i - 1]
  {
    s[..k] + [x] + s[k..]
  }

  /** Inserting at `InsertionIndex` keeps the list sorted, and the new frame
      lands after every frame of equal priority (so it beats them) and before
      every stronger one. */
  lemma InsertKeepsOrder(ps: seq<int>, x: int)
    requires Sorted(ps) && NoOverflow(ps, x)
    ensures 0 <= InsertionIndex(ps, x) <= |ps|
    ensures Sorted(InsertAt(ps, InsertionIndex(ps, x), x))
    ensures var k := InsertionIndex(ps, x);
      forall i :: 0 <= i < |ps| && ps[i] == x ==> i < k
  {
    InsertionIndexSplits(ps, x);
    var k := InsertionIndex(ps, x);
    var qs := InsertAt(ps, k, x);
    forall i, j | 0 <= i < j < |qs| ensures NotStronger(qs, i, j) {
      if i < k && j > k { assert NotStronger(ps, i, j - 1); }
      else if j < k { assert NotStronger(ps, i, j); }
      else if i > k { assert NotStronger(ps, i - 1, j - 1); }
    }
  }

  /** The frames at or after the insertion point are exactly the strictly
      stronger ones. */
  lemma InsertionSplitsTiers(ps: seq<int>, x: int)
    requires Sorted(ps) && NoOverflow(ps, x)
    ensures forall i :: 0 <= i < |ps| ==> (InsertionIndex(ps, x) <= i <==> ps[i] < x)
  {
    InsertKeepsOrder(ps, x);
    var k := InsertionIndex(ps, x);
    var qs := InsertAt(ps, k, x);
    forall i | 0 <= i < |ps| ensures k <= i <==> ps[i] < x {
      if i < k { assert NotStronger(qs, i, k); }
      else { assert NotStronger(qs, k, i + 1); }
    }
  }

  /** When the subtraction of two 32-bit priorities overflows, the comparer
      answers the reverse of their order, and a frame added next to a single
      frame lands on the wrong side of it: after it (on the strong side)
      exactly when it is weaker. The Unset and Animation tiers are such a
      pair. */
  lemma WrappedCompareMisorders(a: int, x: int)
    requires IsInt32(a) && IsInt32(x) && !IsInt32(x - a)
    ensures Compare(a, x) < 0 <==> x > a
    ensures InsertionIndex([a], x) == 1 <==> a < x
  {
    var d := x - a;
    if d > Int32Max {
      assert Wrap32(d) == d - 0x1_0000_0000 by {
        assert 0x1_0000_0000 <= d + 0x8000_0000 < 2 * 0x1_0000_0000;
      }
    } else {
      assert Wrap32(d) == d + 0x1_0000_0000 by {
        assert 0 <= d + 0x8000_0000 + 0x1_0000_0000 < 0x1_0000_0000;
      }
    }
  }
}
