/**
 * The algorithms of algo.h: iter_swap and reverse, with reverse's two
 * overloads (bidirectional and random-access iterators) and the dispatch on
 * the iterator category between them.
 *
 * An iterator is an index into an array; `[first, last)` is an index range.
 */
module Algo {
  import Util
  import opened Iterators

  /** iter_swap(lhs, rhs): swap(*lhs, *rhs) on the cells the two iterators point at. */
  method IterSwap<T>(a1: array<T>, i: nat, a2: array<T>, j: nat)
    requires i < a1.Length && j < a2.Length
    modifies a1, a2
    ensures a1 == a2 ==> a1[..] == old(a1[..])[i := old(a1[j])][j := old(a1[i])]
    ensures a1 != a2 ==> a1[..] == old(a1[..])[i := old(a2[j])] && a2[..] == old(a2[..])[j := old(a1[i])]
  {
    Util.SwapCells(a1, i, a2, j);
  }

  /** The elements of s in the opposite order. */
  function Reversed<T>(s: seq<T>): (r: seq<T>)
    ensures |r| == |s|
    ensures forall k :: 0 <= k < |s| ==> r[k] == s[|s| - 1 - k]
  {
    seq(|s|, k requires 0 <= k < |s| => s[|s| - 1 - k])
  }

  /** Reversing twice gives the original back, and reversal turns concatenation around. */
  lemma ReversedInvolution<T>(s: seq<T>, t: seq<T>)
    ensures Reversed(Reversed(s)) == s
    ensures Reversed(s + t) == Reversed(t) + Reversed(s)
  {
    assert Reversed(Reversed(s)) == s by {
      forall k | 0 <= k < |s| ensures Reversed(Reversed(s))[k] == s[k] {
        assert Reversed(Reversed(s))[k] == Reversed(s)[|s| - 1 - k];
      }
    }
    var u := s + t;
    forall k | 0 <= k < |u| ensures Reversed(u)[k] == (Reversed(t) + Reversed(s))[k] {
      if k < |t| {
        assert Reversed(u)[k] == u[|u| - 1 - k] == t[|t| - 1 - k];
      } else {
        assert Reversed(u)[k] == u[|u| - 1 - k] == s[|s| - 1 - (k - |t|)];
      }
    }
  }

  /**
   * The state of a reverse loop on [first, last) of the original contents s0, with the cells
   * below lo and from hi on already mirrored: every cell of [first, lo) and [hi, last) holds its
   * mirror image first + last - 1 - k of s0, and every other cell is as in s0.
   */
  ghost predicate Mirrored<T>(c: seq<T>, s0: seq<T>, first: int, last: int, lo: int, hi: int)
  {
    |c| == |s0| && 0 <= first <= last <= |c| && first <= lo <= hi + 1 && hi <= last && lo + hi == first + last
    && (forall k :: 0 <= k < |c| && ((first <= k < lo) || (hi <= k < last)) ==> c[k] == s0[first + last - 1 - k])
    && (forall k :: 0 <= k < |c| && !((first <= k < lo) || (hi <= k < last)) ==> c[k] == s0[k])
  }

  /** Swapping the cells lo and hi - 1 mirrors one more pair. */
  lemma MirrorStep<T>(c: seq<T>, d: seq<T>, s0: seq<T>, first: int, last: int, lo: int, hi: int)
    requires Mirrored(c, s0, first, last, lo, hi) && lo < hi
    requires d == c[lo := c[hi - 1]][hi - 1 := c[lo]]
    ensures Mirrored(d, s0, first, last, lo + 1, hi - 1)
  {
  }

  /** Once the unmirrored middle has at most one cell, the range holds Reversed of its old contents. */
  lemma MirrorDone<T>(c: seq<T>, s0: seq<T>, first: int, last: int, lo: int, hi: int)
    requires Mirrored(c, s0, first, last, lo, hi) && hi <= lo + 1
    ensures c[first..last] == Reversed(s0[first..last])
    ensures c[..first] == s0[..first] && c[last..] == s0[last..]
  {
    var n := last - first;
    forall k | 0 <= k < n ensures c[first..last][k] == Reversed(s0[first..last])[k] {
      assert c[first + k] == s0[first + last - 1 - (first + k)];
    }
    assert c[..first] == s0[..first] by {
      forall k | 0 <= k < first ensures c[k] == s0[k] { }
    }
    assert c[last..] == s0[last..] by {
      forall k | last <= k < |c| ensures c[k] == s0[k] { }
    }
  }

  /** Nothing is mirrored yet. */
  lemma MirrorStart<T>(s0: seq<T>, first: int, last: int)
    requires 0 <= first <= last <= |s0|
    ensures Mirrored(s0, s0, first, last, first, last)
  {
  }

  /**
   * reverse_dispatch for random-access iterators: while first < last, iter_swap(first++, --last).
   * The range ends up reversed, nothing else changes, and the loop swaps (n + 1) / 2 times for a
   * range of n elements (for odd n the last swap exchanges the middle cell with itself).
   */
  method ReverseRandomAccess<T>(a: array<T>, first: nat, last: nat) returns (swaps: nat)
    requires first <= last <= a.Length
    modifies a
    ensures a[first..last] == Reversed(old(a[first..last]))
    ensures a[..first] == old(a[..first]) && a[last..] == old(a[last..])
    ensures swaps == (last - first + 1) / 2
  {
    ghost var s0 := a[..];
    var lo, hi := first, last;
    swaps := 0;
    MirrorStart(s0, first, last);
    while lo < hi
      invariant Mirrored(a[..], s0, first, last, lo, hi)
      invariant swaps == lo - first
    {
      hi := hi - 1;
      ghost var c := a[..];
      IterSwap(a, lo, a, hi);
      MirrorStep(c, a[..], s0, first, last, lo, hi + 1);
      lo := lo + 1;
      swaps := swaps + 1;
    }
    MirrorDone(a[..], s0, first, last, lo, hi);
  }

  /**
   * reverse_dispatch for bidirectional iterators: stop when first == last, step last back, stop
   * when first == last again, otherwise iter_swap(first++, last).  Empty and one-element ranges
   * are left alone at once; otherwise the result is that of the random-access overload.
   */
  method ReverseBidirectional<T>(a: array<T>, first: nat, last: nat)
    requires first <= last <= a.Length
    modifies a
    ensures a[first..last] == Reversed(old(a[first..last]))
    ensures a[..first] == old(a[..first]) && a[last..] == old(a[last..])
    ensures last - first <= 1 ==> a[..] == old(a[..])
  {
    ghost var s0 := a[..];
    var lo, hi := first, last;
    MirrorStart(s0, first, last);
    while true
      invariant Mirrored(a[..], s0, first, last, lo, hi) && lo <= hi
      invariant last - first <= 1 ==> a[..] == s0
      decreases hi - lo
    {
      if lo == hi {
        MirrorDone(a[..], s0, first, last, lo, hi);
        return;
      }
      hi := hi - 1;
      if lo == hi {
        MirrorDone(a[..], s0, first, last, lo, hi + 1);
        return;
      }
      ghost var c := a[..];
      IterSwap(a, lo, a, hi);
      MirrorStep(c, a[..], s0, first, last, lo, hi + 1);
      lo := lo + 1;
    }
  }

  /** The iterator categories reverse has an overload for. */
  const ReverseOverloads: seq<Category> := [BidirectionalTag, RandomAccessTag]

  /** Dispatch of reverse: random-access iterators take their own overload, the others the bidirectional one. */
  lemma ReverseDispatch(c: Category)
    requires IsBidirectionalIterator(c)
    ensures BestOverload(c, ReverseOverloads) == if c == RandomAccessTag then RandomAccessTag else BidirectionalTag
  {
    assert BidirectionalTag in ReverseOverloads && RandomAccessTag in ReverseOverloads;
    var r := BestOverload(c, ReverseOverloads);
    assert r == BidirectionalTag || r == RandomAccessTag;
    if c == RandomAccessTag {
      assert ConvertsTo(r, RandomAccessTag);
    } else {
      assert !ConvertsTo(c, RandomAccessTag) by { CategoryHierarchy(c); }
    }
  }

  /**
   * reverse(first, last): reverse_dispatch on the category of the iterators, which must be at
   * least bidirectional.
   */
  method Reverse<T>(c: Category, a: array<T>, first: nat, last: nat)
    requires IsBidirectionalIterator(c)
    requires first <= last <= a.Length
    modifies a
    ensures a[first..last] == Reversed(old(a[first..last]))
    ensures a[..first] == old(a[..first]) && a[last..] == old(a[last..])
  {
    ReverseDispatch(c);
    if BestOverload(c, ReverseOverloads) == RandomAccessTag {
      var _ := ReverseRandomAccess(a, first, last);
    } else {
      ReverseBidirectional(a, first, last);
    }
  }
}
