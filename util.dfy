/**
 * The utilities of util.h: swap of two values, swap_range over two array
 * ranges, and pair with make_pair, assignment, member swap and the
 * comparison operators.
 *
 * A `pair` value is the datatype Pair; a pair object that is assigned to or
 * swapped in place is the class PairVar, whose Get() is its current value.
 */
module Util {

  // ---------------------------------------------------------------------
  // swap / swap_range
  // ---------------------------------------------------------------------

  /** swap(lhs, rhs): the two values change places (tmp = lhs; lhs = rhs; rhs = tmp). */
  method Swap<T>(lhs: T, rhs: T) returns (newLhs: T, newRhs: T)
    ensures newLhs == rhs && newRhs == lhs
  {
    var tmp := lhs;
    newLhs := rhs;
    newRhs := tmp;
  }

  /**
   * swap(*p, *q) for p = a1 + i and q = a2 + j: the two cells change places, and no other cell
   * of either array changes.  The cells may be one and the same.
   */
  method SwapCells<T>(a1: array<T>, i: nat, a2: array<T>, j: nat)
    requires i < a1.Length && j < a2.Length
    modifies a1, a2
    ensures a1 == a2 ==> a1[..] == old(a1[..])[i := old(a1[j])][j := old(a1[i])]
    ensures a1 != a2 ==> a1[..] == old(a1[..])[i := old(a2[j])] && a2[..] == old(a2[..])[j := old(a1[i])]
  {
    var x, y := Swap(a1[i], a2[j]);
    a1[i] := x;
    a2[j] := y;
  }

  /** The two ranges have traded contents: a1[f1..l1] is old b2's range and a2's range is old b1's. */
  ghost predicate Traded<T>(a1: seq<T>, f1: int, l1: int, a2: seq<T>, f2: int, b1: seq<T>, b2: seq<T>)
    requires 0 <= f1 <= l1 <= |a1| == |b1| && 0 <= f2 && f2 + (l1 - f1) <= |a2| == |b2|
  {
    a1[f1..l1] == b2[f2..f2 + (l1 - f1)] && a2[f2..f2 + (l1 - f1)] == b1[f1..l1]
  }

  /**
   * After i rounds of swap_range on two arrays, from the contents b1, b2 to c1, c2: the first i
   * cells of each range hold the other range's old cells, and every other cell is as it was.
   */
  ghost predicate SwappedApart<T>(c1: seq<T>, c2: seq<T>, b1: seq<T>, b2: seq<T>, f1: int, f2: int, i: int)
  {
    |c1| == |b1| && |c2| == |b2|
    && (forall k :: f1 <= k < f1 + i && 0 <= k < |c1| ==> 0 <= k - f1 + f2 < |b2| && c1[k] == b2[k - f1 + f2])
    && (forall k :: f2 <= k < f2 + i && 0 <= k < |c2| ==> 0 <= k - f2 + f1 < |b1| && c2[k] == b1[k - f2 + f1])
    && (forall k :: 0 <= k < |c1| && !(f1 <= k < f1 + i) ==> c1[k] == b1[k])
    && (forall k :: 0 <= k < |c2| && !(f2 <= k < f2 + i) ==> c2[k] == b2[k])
  }

  /** The same for two ranges of one array, from b to c. */
  ghost predicate SwappedWithin<T>(c: seq<T>, b: seq<T>, f1: int, f2: int, i: int)
  {
    |c| == |b|
    && (forall k :: f1 <= k < f1 + i && 0 <= k < |c| ==> 0 <= k - f1 + f2 < |b| && c[k] == b[k - f1 + f2])
    && (forall k :: f2 <= k < f2 + i && 0 <= k < |c| ==> 0 <= k - f2 + f1 < |b| && c[k] == b[k - f2 + f1])
    && (forall k :: 0 <= k < |c| && !(f1 <= k < f1 + i) && !(f2 <= k < f2 + i) ==> c[k] == b[k])
  }

  /** One more round on two arrays: cell f1 + i and cell f2 + i have changed places. */
  lemma SwapApartStep<T>(p1: seq<T>, p2: seq<T>, n1: seq<T>, n2: seq<T>, b1: seq<T>, b2: seq<T>,
                         f1: int, f2: int, i: int, n: int)
    requires 0 <= f1 && 0 <= f2 && 0 <= i < n && f1 + n <= |b1| && f2 + n <= |b2|
    requires SwappedApart(p1, p2, b1, b2, f1, f2, i)
    requires n1 == p1[f1 + i := p2[f2 + i]] && n2 == p2[f2 + i := p1[f1 + i]]
    ensures SwappedApart(n1, n2, b1, b2, f1, f2, i + 1)
  {
  }

  /** One more round within one array, the ranges being disjoint. */
  lemma SwapWithinStep<T>(p: seq<T>, c: seq<T>, b: seq<T>, f1: int, f2: int, i: int, n: int)
    requires 0 <= f1 && 0 <= f2 && 0 <= i < n && f1 + n <= |b| && f2 + n <= |b|
    requires f1 + n <= f2 || f2 + n <= f1
    requires SwappedWithin(p, b, f1, f2, i)
    requires c == p[f1 + i := p[f2 + i]][f2 + i := p[f1 + i]]
    ensures SwappedWithin(c, b, f1, f2, i + 1)
  {
  }

  /** After all n rounds, element k of each range holds element k of the other's old contents. */
  lemma SwapDone<T>(c1: seq<T>, c2: seq<T>, b1: seq<T>, b2: seq<T>, f1: int, l1: int, f2: int)
    requires 0 <= f1 <= l1 <= |b1| == |c1| && 0 <= f2 && f2 + (l1 - f1) <= |b2| == |c2|
    requires forall k :: f1 <= k < l1 ==> c1[k] == b2[k - f1 + f2]
    requires forall k :: f2 <= k < f2 + (l1 - f1) ==> c2[k] == b1[k - f2 + f1]
    ensures Traded(c1, f1, l1, c2, f2, b1, b2)
  {
    var n := l1 - f1;
    assert c1[f1..l1] == b2[f2..f2 + n] by {
      forall k | 0 <= k < n ensures c1[f1..l1][k] == b2[f2..f2 + n][k] {
        assert c1[f1 + k] == b2[f2 + k];
      }
    }
    assert c2[f2..f2 + n] == b1[f1..l1] by {
      forall k | 0 <= k < n ensures c2[f2..f2 + n][k] == b1[f1..l1][k] {
        assert c2[f2 + k] == b1[f1 + k];
      }
    }
  }

  /** All n rounds on two arrays have traded the ranges. */
  lemma ApartTraded<T>(c1: seq<T>, c2: seq<T>, b1: seq<T>, b2: seq<T>, f1: int, l1: int, f2: int)
    requires 0 <= f1 <= l1 <= |b1| && 0 <= f2 && f2 + (l1 - f1) <= |b2|
    requires SwappedApart(c1, c2, b1, b2, f1, f2, l1 - f1)
    ensures Traded(c1, f1, l1, c2, f2, b1, b2)
  {
    SwapDone(c1, c2, b1, b2, f1, l1, f2);
  }

  /** All n rounds within one array have traded the ranges. */
  lemma WithinTraded<T>(c: seq<T>, b: seq<T>, f1: int, l1: int, f2: int)
    requires 0 <= f1 <= l1 <= |b| && 0 <= f2 && f2 + (l1 - f1) <= |b|
    requires SwappedWithin(c, b, f1, f2, l1 - f1)
    ensures Traded(c, f1, l1, c, f2, b, b)
  {
    SwapDone(c, c, b, b, f1, l1, f2);
  }

  /**
   * swap_range(first1, last1, first2): element k of [first1, last1) changes places with element
   * k of the range at first2; returns first2 + n.  Nothing outside the two ranges changes.  The
   * ranges may lie in one array only if they do not overlap.
   */
  method SwapRange<T>(a1: array<T>, first1: nat, last1: nat, a2: array<T>, first2: nat) returns (r: nat)
    requires first1 <= last1 <= a1.Length && first2 + (last1 - first1) <= a2.Length
    requires a1 != a2 || last1 <= first2 || first2 + (last1 - first1) <= first1
    modifies a1, a2
    ensures r == first2 + (last1 - first1)
    ensures Traded(a1[..], first1, last1, a2[..], first2, old(a1[..]), old(a2[..]))
    ensures a1 != a2 ==> SwappedApart(a1[..], a2[..], old(a1[..]), old(a2[..]), first1, first2, last1 - first1)
    ensures a1 == a2 ==> SwappedWithin(a1[..], old(a1[..]), first1, first2, last1 - first1)
  {
    ghost var s1, s2 := a1[..], a2[..];
    var n := last1 - first1;
    var i := 0;
    while i < n
      invariant 0 <= i <= n
      invariant a1 != a2 ==> SwappedApart(a1[..], a2[..], s1, s2, first1, first2, i)
      invariant a1 == a2 ==> SwappedWithin(a1[..], s1, first1, first2, i)
    {
      ghost var p1, p2 := a1[..], a2[..];
      SwapCells(a1, first1 + i, a2, first2 + i);
      if a1 == a2 {
        SwapWithinStep(p1, a1[..], s1, first1, first2, i, n);
      } else {
        SwapApartStep(p1, p2, a1[..], a2[..], s1, s2, first1, first2, i, n);
      }
      i := i + 1;
    }
    if a1 == a2 {
      WithinTraded(a1[..], s1, first1, last1, first2);
    } else {
      ApartTraded(a1[..], a2[..], s1, s2, first1, last1, first2);
    }
    r := first2 + n;
  }

  // ---------------------------------------------------------------------
  // pair
  // ---------------------------------------------------------------------

  datatype Pair<A, B> = Pair(first: A, second: B)

  /** make_pair(first, second). */
  function MakePair<A, B>(first: A, second: B): (p: Pair<A, B>)
    ensures p.first == first && p.second == second
  {
    Pair(first, second)
  }

  /** pair == pair: both components are equal. */
  predicate Equal<A(==), B(==)>(p: Pair<A, B>, q: Pair<A, B>)
  {
    p.first == q.first && p.second == q.second
  }

  /** pair != pair: the negation of ==. */
  predicate NotEqual<A(==), B(==)>(p: Pair<A, B>, q: Pair<A, B>)
  {
    !Equal(p, q)
  }

  /** == on pairs is equality of the pair values, and != its negation. */
  lemma EqualIsEquality<A, B>(p: Pair<A, B>, q: Pair<A, B>)
    ensures Equal(p, q) <==> p == q
    ensures NotEqual(p, q) <==> p != q
  {
  }

  /** pair < pair as written: both components smaller, a conjunction rather than a lexicographic order. */
  predicate LessAsWritten(p: Pair<int, int>, q: Pair<int, int>)
  {
    p.first < q.first && p.second < q.second
  }

  /** pair > pair as written: `*this < rhs`, the same test as <. */
  predicate GreaterAsWritten(p: Pair<int, int>, q: Pair<int, int>)
  {
    LessAsWritten(p, q)
  }

  /** pair < pair as the operator family evidently intends: lexicographic on (first, second). */
  predicate Less(p: Pair<int, int>, q: Pair<int, int>)
  {
    p.first < q.first || (p.first == q.first && p.second < q.second)
  }

  /** pair > pair: rhs < *this. */
  predicate Greater(p: Pair<int, int>, q: Pair<int, int>)
  {
    Less(q, p)
  }

  /** pair <= pair: !(*this > rhs). */
  predicate LessEqual(p: Pair<int, int>, q: Pair<int, int>)
  {
    !Greater(p, q)
  }

  /** pair >= pair: !(*this < rhs). */
  predicate GreaterEqual(p: Pair<int, int>, q: Pair<int, int>)
  {
    !Less(p, q)
  }

  /** The corrected < is a strict total order: exactly one of <, == and > holds, and < is transitive. */
  lemma LessIsStrictTotalOrder(p: Pair<int, int>, q: Pair<int, int>, u: Pair<int, int>)
    ensures (Less(p, q) && !Equal(p, q) && !Greater(p, q))
         || (!Less(p, q) && Equal(p, q) && !Greater(p, q))
         || (!Less(p, q) && !Equal(p, q) && Greater(p, q))
    ensures Less(p, q) && Less(q, u) ==> Less(p, u)
    ensures LessEqual(p, q) <==> Less(p, q) || Equal(p, q)
    ensures GreaterEqual(p, q) <==> Greater(p, q) || Equal(p, q)
  {
  }

  /**
   * As written, (1, 2) and (2, 1) are neither equal nor ordered either way, and (1, 1) is both
   * less than and greater than (2, 2).
   */
  lemma PairOrderAsWrittenIsNotTotal()
    ensures !LessAsWritten(Pair(1, 2), Pair(2, 1)) && !Equal(Pair(1, 2), Pair(2, 1))
    ensures !GreaterAsWritten(Pair(1, 2), Pair(2, 1))
    ensures LessAsWritten(Pair(1, 1), Pair(2, 2)) && GreaterAsWritten(Pair(1, 1), Pair(2, 2))
    ensures Less(Pair(1, 2), Pair(2, 1)) && Less(Pair(1, 1), Pair(2, 2)) && !Greater(Pair(1, 1), Pair(2, 2))
  {
  }

  /** A pair object: the target of operator= and of pair::swap. */
  class PairVar<A, B> {
    var first: A
    var second: B

    constructor(first: A, second: B)
      ensures this.first == first && this.second == second
    {
      this.first, this.second := first, second;
    }

    /** The pair value the object holds. */
    function Get(): (p: Pair<A, B>)
      reads this
      ensures p.first == first && p.second == second
    {
      Pair(first, second)
    }

    /**
     * operator=(rhs), copy and move alike: both fields are taken from rhs, nothing happens on
     * self-assignment; rhs keeps its value (a moved-from component is not modelled).
     */
    method Assign(rhs: PairVar<A, B>)
      modifies this
      ensures Get() == old(rhs.Get())
      ensures rhs.Get() == old(rhs.Get())
    {
      if this != rhs {
        first := rhs.first;
        second := rhs.second;
      }
    }

    /** pair::swap(other): the two objects exchange both components; swapping with itself does nothing. */
    method Swap(other: PairVar<A, B>)
      modifies this, other
      ensures Get() == old(other.Get()) && other.Get() == old(Get())
    {
      if this != other {
        first, other.first := other.first, first;
        second, other.second := other.second, second;
      }
    }
  }
}
