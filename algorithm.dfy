/**
 * The basic range algorithms of algorithm.h: max/min, the copy and move
 * family, fill/fill_n, equal, lexicographical_compare (generic and the
 * byte-wise memcmp specialisation) and mismatch.
 *
 * Ranges are index intervals of Dafny arrays (`[first, last)` of `a`); the
 * read-only algorithms are stated on sequences. Under the requires of each
 * method (the ranges are disjoint, or they overlap only on the side the
 * loop's direction tolerates), the memmove fast paths of copy, copy_backward,
 * move and move_backward write the cells and return the positions the loops
 * modelled here do; overlaps where the two would differ are outside those
 * requires. The memset overload of fill_n writes
 * the bytes the loop writes but returns first + n for every n; FillNBytes
 * models it.
 */
module Algorithm {
  import opened Common

  // ---------------------------------------------------------------------
  // max / min
  // ---------------------------------------------------------------------

  /** max: the larger argument; an upper bound of both that is one of them. */
  function Max(lhs: int, rhs: int): (r: int)
    ensures r >= lhs && r >= rhs
    ensures r == lhs || r == rhs
  {
    if lhs < rhs then rhs else lhs
  }

  /** min: the smaller argument; a lower bound of both that is one of them. */
  function Min(lhs: int, rhs: int): (r: int)
    ensures r <= lhs && r <= rhs
    ensures r == lhs || r == rhs
  {
    if rhs < lhs then rhs else lhs
  }

  /** max with a comparator: `rhs` only when `comp(lhs, rhs)`, so ties keep `lhs`. */
  function MaxBy<T>(lhs: T, rhs: T, comp: (T, T) -> bool): (r: T)
    ensures comp(lhs, rhs) ==> r == rhs
    ensures !comp(lhs, rhs) ==> r == lhs
  {
    if comp(lhs, rhs) then rhs else lhs
  }

  /** min with a comparator: `rhs` only when `comp(rhs, lhs)`, so ties keep `lhs`. */
  function MinBy<T>(lhs: T, rhs: T, comp: (T, T) -> bool): (r: T)
    ensures comp(rhs, lhs) ==> r == rhs
    ensures !comp(rhs, lhs) ==> r == lhs
  {
    if comp(rhs, lhs) then rhs else lhs
  }

  /** Whatever the order of the arguments, min never exceeds max. */
  lemma MinLeMax(a: int, b: int)
    ensures Min(a, b) <= Max(a, b)
    ensures Min(a, b) + Max(a, b) == a + b
  {
  }

  // ---------------------------------------------------------------------
  // copy / copy_backward / copy_n / move / move_backward
  // ---------------------------------------------------------------------

  /**
   * copy: `[first, last)` of `src` into `dst` from `result`, front to back;
   * returns the end of the written range. Within one array the destination
   * may overlap the source only if it starts at or before `first`.
   */
  method Copy<T>(src: array<T>, first: nat, last: nat, dst: array<T>, result: nat) returns (r: nat)
    requires first <= last <= src.Length
    requires result + (last - first) <= dst.Length
    requires src != dst || result <= first || last <= result
    modifies dst
    ensures r == result + (last - first)
    ensures dst[result..r] == old(src[first..last])
    ensures dst[..result] == old(dst[..result]) && dst[r..] == old(dst[r..])
  {
    ghost var s0 := src[..];
    ghost var d0 := dst[..];
    var n := last - first;
    var i := 0;
    while i < n
      invariant 0 <= i <= n
      invariant forall k :: result <= k < result + i ==> dst[k] == s0[k - result + first]
      invariant forall k :: first + i <= k < last ==> src[k] == s0[k]
      invariant forall k :: 0 <= k < dst.Length && !(result <= k < result + i) ==> dst[k] == d0[k]
    {
      dst[result + i] := src[first + i];
      i := i + 1;
    }
    r := result + n;
    assert dst[result..r] == s0[first..last] by {
      forall k | 0 <= k < n ensures dst[result..r][k] == s0[first..last][k] { }
    }
  }

  /**
   * copy_backward: `[first, last)` of `src` into `[result - n, result)` of
   * `dst`, last element first; returns `result - n`. Within one array the
   * destination may overlap the source only if it ends at or after `last`.
   */
  method CopyBackward<T>(src: array<T>, first: nat, last: nat, dst: array<T>, result: nat) returns (r: nat)
    requires first <= last <= src.Length
    requires last - first <= result <= dst.Length
    requires src != dst || result <= first || last <= result
    modifies dst
    ensures r == result - (last - first)
    ensures dst[r..result] == old(src[first..last])
    ensures dst[..r] == old(dst[..r]) && dst[result..] == old(dst[result..])
  {
    ghost var s0 := src[..];
    ghost var d0 := dst[..];
    var n := last - first;
    var i := 0;
    while i < n
      invariant 0 <= i <= n
      invariant forall k :: result - i <= k < result ==> dst[k] == s0[k - result + last]
      invariant forall k :: first <= k < last - i ==> src[k] == s0[k]
      invariant forall k :: 0 <= k < dst.Length && !(result - i <= k < result) ==> dst[k] == d0[k]
    {
      dst[result - 1 - i] := src[last - 1 - i];
      i := i + 1;
    }
    r := result - n;
    assert dst[r..result] == s0[first..last] by {
      forall k | 0 <= k < n ensures dst[r..result][k] == s0[first..last][k] { }
    }
  }

  /**
   * copy_n for random-access ranges: copies `n` elements and returns the
   * pair (first + n, result + n).
   */
  method CopyN<T>(src: array<T>, first: nat, n: nat, dst: array<T>, result: nat) returns (srcEnd: nat, r: nat)
    requires first + n <= src.Length
    requires result + n <= dst.Length
    requires src != dst || result <= first || first + n <= result
    modifies dst
    ensures srcEnd == first + n && r == result + n
    ensures dst[result..r] == old(src[first..first + n])
    ensures dst[..result] == old(dst[..result]) && dst[r..] == old(dst[r..])
  {
    srcEnd := first + n;
    r := Copy(src, first, srcEnd, dst, result);
  }

  /**
   * copy_n for input iterators as written: `first` is never advanced, so
   * every output position receives the first source element.
   */
  function CopyNInputAsWritten<T>(src: seq<T>, n: nat): (out: seq<T>)
    requires n > 0 ==> |src| > 0
    ensures |out| == n
    ensures forall k :: 0 <= k < n ==> out[k] == src[0]
  {
    if n == 0 then [] else CopyNInputAsWritten(src, n - 1) + [src[0]]
  }

  /**
   * The loop of copy_n for input iterators as written: it writes *first n times and returns
   * the pair (first, result + n), first not advanced where first + n is meant.
   */
  method CopyNInputLoopAsWritten<T>(src: array<T>, first: nat, n: nat, dst: array<T>, result: nat)
    returns (srcEnd: nat, r: nat)
    requires first <= src.Length && (n > 0 ==> first < src.Length)
    requires result + n <= dst.Length
    requires src != dst || first < result || result + n <= first
    modifies dst
    ensures srcEnd == first && r == result + n
    ensures dst[result..r] == CopyNInputAsWritten(old(src[first..]), n)
    ensures dst[..result] == old(dst[..result]) && dst[r..] == old(dst[r..])
  {
    var i := 0;
    r := result;
    while i < n
      invariant 0 <= i <= n && r == result + i
      invariant n > 0 ==> src[first] == old(src[first])
      invariant dst[result..r] == CopyNInputAsWritten(old(src[first..]), i)
      invariant dst[..result] == old(dst[..result]) && dst[result + n..] == old(dst[result + n..])
    {
      dst[r] := src[first];
      r, i := r + 1, i + 1;
    }
    srcEnd := first;
  }

  /** The input-iterator copy_n writes [1, 1] where [1, 2] was meant. */
  lemma CopyNInputAsWrittenRepeatsFirst()
    ensures CopyNInputAsWritten([1, 2], 2) == [1, 1]
    ensures CopyNInputAsWritten([1, 2], 2) != [1, 2][..2]
  {
    assert CopyNInputAsWritten([1, 2], 2)[1] == 1;
  }

  /** move: at the value level the same effect as copy. */
  method Move<T>(src: array<T>, first: nat, last: nat, dst: array<T>, result: nat) returns (r: nat)
    requires first <= last <= src.Length
    requires result + (last - first) <= dst.Length
    requires src != dst || result <= first || last <= result
    modifies dst
    ensures r == result + (last - first)
    ensures dst[result..r] == old(src[first..last])
    ensures dst[..result] == old(dst[..result]) && dst[r..] == old(dst[r..])
  {
    r := Copy(src, first, last, dst, result);
  }

  /** move_backward for random-access ranges: the value-level effect of copy_backward. */
  method MoveBackward<T>(src: array<T>, first: nat, last: nat, dst: array<T>, result: nat) returns (r: nat)
    requires first <= last <= src.Length
    requires last - first <= result <= dst.Length
    requires src != dst || result <= first || last <= result
    modifies dst
    ensures r == result - (last - first)
    ensures dst[r..result] == old(src[first..last])
    ensures dst[..r] == old(dst[..r]) && dst[result..] == old(dst[result..])
  {
    r := CopyBackward(src, first, last, dst, result);
  }

  /**
   * One iteration of the bidirectional move_backward as written: `result`
   * steps back while `first` and `last` stay put (and `*last` is read).
   */
  datatype MoveBackwardState = MoveBackwardState(first: int, last: int, result: int)

  function MoveBackwardBidiStep(st: MoveBackwardState): (next: MoveBackwardState)
    ensures next.first == st.first && next.last == st.last
    ensures next.result == st.result - 1
  {
    MoveBackwardState(st.first, st.last, st.result - 1)
  }

  function MoveBackwardBidiIterate(st: MoveBackwardState, k: nat): MoveBackwardState
  {
    if k == 0 then st else MoveBackwardBidiStep(MoveBackwardBidiIterate(st, k - 1))
  }

  /**
   * On a non-empty range the loop guard `first != last` of the as-written
   * bidirectional move_backward holds after any number of iterations: the
   * loop never terminates.
   */
  lemma {:induction false} MoveBackwardBidiNeverStops(st: MoveBackwardState, k: nat)
    requires st.first != st.last
    ensures MoveBackwardBidiIterate(st, k).first != MoveBackwardBidiIterate(st, k).last
    ensures MoveBackwardBidiIterate(st, k).result == st.result - k
  {
    if k > 0 {
      MoveBackwardBidiNeverStops(st, k - 1);
    }
  }

  // ---------------------------------------------------------------------
  // fill / fill_n
  // ---------------------------------------------------------------------

  /**
   * fill_n: writes `value` into `n` positions from `first` and returns the
   * position after them; for `n <= 0` nothing is written and `first` is
   * returned.
   */
  method FillN<T>(a: array<T>, first: nat, n: int, value: T) returns (r: nat)
    requires n <= 0 || first + n <= a.Length
    requires first <= a.Length
    modifies a
    ensures r == if n > 0 then first + n else first
    ensures forall k :: first <= k < r ==> a[k] == value
    ensures a[..first] == old(a[..first]) && a[r..] == old(a[r..])
  {
    ghost var a0 := a[..];
    var count := n;
    r := first;
    while count > 0
      invariant count <= 0 ==> r == first + (if n > 0 then n else 0)
      invariant count > 0 ==> r + count == first + n && first <= r
      invariant forall k :: first <= k < r ==> a[k] == value
      invariant forall k :: 0 <= k < a.Length && !(first <= k < r) ==> a[k] == a0[k]
    {
      a[r] := value;
      count := count - 1;
      r := r + 1;
    }
  }

  /**
   * The one-byte overload of fill_n_dispatch: memset of the n bytes from `first` when n > 0,
   * and `first + n` returned for every n. For n < 0 that is a position before `first`, where
   * the generic loop returns `first`.
   */
  method FillNBytes(a: array<byte>, first: nat, n: int, value: byte) returns (r: int)
    requires n <= 0 || first + n <= a.Length
    requires first <= a.Length
    modifies a
    ensures r == first + n
    ensures forall k :: first <= k < first + n ==> a[k] == value
    ensures a[..first] == old(a[..first]) && (n > 0 ==> a[first + n..] == old(a[first + n..]))
    ensures n <= 0 ==> a[..] == old(a[..])
  {
    if n > 0 {
      var _ := FillN(a, first, n, value);
    }
    r := first + n;
  }

  /** fill for random-access ranges: calls fill_n with `last - first`. */
  method Fill<T>(a: array<T>, first: nat, last: nat, value: T)
    requires first <= last <= a.Length
    modifies a
    ensures forall k :: first <= k < last ==> a[k] == value
    ensures a[..first] == old(a[..first]) && a[last..] == old(a[last..])
  {
    var _ := FillN(a, first, last - first, value);
  }

  // ---------------------------------------------------------------------
  // equal / mismatch / lexicographical_compare
  // ---------------------------------------------------------------------

  /**
   * equal: the first range agrees element-wise with the range starting at
   * `first2` (the second sequence must be at least as long).
   */
  function Equal<T(==)>(s1: seq<T>, s2: seq<T>): (r: bool)
    requires |s1| <= |s2|
    ensures r <==> s1 == s2[..|s1|]
  {
    if |s1| == 0 then true
    else if s1[0] != s2[0] then false
    else
      assert s1 == [s1[0]] + s1[1..];
      assert s2[..|s1|] == [s2[0]] + s2[1..][..|s1| - 1];
      Equal(s1[1..], s2[1..])
  }

  /** equal with a binary predicate: `cmp` holds pairwise over the first range. */
  function EqualBy<T>(s1: seq<T>, s2: seq<T>, cmp: (T, T) -> bool): (r: bool)
    requires |s1| <= |s2|
    ensures r <==> forall k :: 0 <= k < |s1| ==> cmp(s1[k], s2[k])
  {
    if |s1| == 0 then true
    else if !cmp(s1[0], s2[0]) then false
    else
      var rest := EqualBy(s1[1..], s2[1..], cmp);
      assert rest <==> forall k :: 1 <= k < |s1| ==> cmp(s1[k], s2[k]) by {
        assert forall k :: 1 <= k < |s1| ==> s1[1..][k - 1] == s1[k] && s2[1..][k - 1] == s2[k];
      }
      rest
  }

  /**
   * mismatch: the first index where the ranges differ, or the length of the
   * first range when they agree on all of it.
   */
  function Mismatch<T(==)>(s1: seq<T>, s2: seq<T>): (i: nat)
    requires |s1| <= |s2|
    ensures i <= |s1|
    ensures forall k :: 0 <= k < i ==> s1[k] == s2[k]
    ensures i < |s1| ==> s1[i] != s2[i]
  {
    if |s1| == 0 || s1[0] != s2[0] then 0
    else
      var j := Mismatch(s1[1..], s2[1..]);
      assert forall k :: 1 <= k < j + 1 ==> s1[1..][k - 1] == s1[k] && s2[1..][k - 1] == s2[k];
      j + 1
  }

  /**
   * The four documented outcomes of a lexicographical comparison: the first
   * position where neither element is less than the other fails to hold
   * decides, and a strict prefix is less.
   */
  ghost predicate LexLessSpec<T>(s1: seq<T>, s2: seq<T>, less: (T, T) -> bool)
  {
    (exists i :: 0 <= i < |s1| && i < |s2| && Equivalent(s1, s2, less, i) && less(s1[i], s2[i]))
    || (|s1| < |s2| && Equivalent(s1, s2, less, |s1|))
  }

  /** The first `i` elements of both ranges are pairwise neither-less. */
  ghost predicate Equivalent<T>(s1: seq<T>, s2: seq<T>, less: (T, T) -> bool, i: nat)
    requires i <= |s1| && i <= |s2|
  {
    forall k :: 0 <= k < i ==> !less(s1[k], s2[k]) && !less(s2[k], s1[k])
  }

  /**
   * lexicographical_compare with a comparator, following the source loop:
   * a smaller element of the first range returns true, a smaller element of
   * the second returns false, otherwise the first range must run out first.
   */
  function LexCompareBy<T>(s1: seq<T>, s2: seq<T>, less: (T, T) -> bool): (r: bool)
    ensures r <==> LexLessSpec(s1, s2, less)
  {
    if |s1| == 0 || |s2| == 0 then
      assert |s1| == 0 ==> Equivalent(s1, s2, less, 0);
      |s1| == 0 && |s2| != 0
    else if less(s1[0], s2[0]) then
      assert Equivalent(s1, s2, less, 0);
      true
    else if less(s2[0], s1[0]) then
      assert !LexLessSpec(s1, s2, less) by {
        forall i | 0 <= i < |s1| && i < |s2| && Equivalent(s1, s2, less, i) ensures i == 0 { }
      }
      false
    else
      var rest := LexCompareBy(s1[1..], s2[1..], less);
      LexStep(s1, s2, less);
      rest
  }

  /** Peeling one neither-less pair off the front does not change the outcome. */
  lemma LexStep<T>(s1: seq<T>, s2: seq<T>, less: (T, T) -> bool)
    requires |s1| > 0 && |s2| > 0
    requires !less(s1[0], s2[0]) && !less(s2[0], s1[0])
    ensures LexLessSpec(s1, s2, less) <==> LexLessSpec(s1[1..], s2[1..], less)
  {
    var t1, t2 := s1[1..], s2[1..];
    forall i | 0 <= i <= |t1| && i <= |t2|
      ensures Equivalent(s1, s2, less, i + 1) <==> Equivalent(t1, t2, less, i)
    {
      assert forall k :: 0 <= k < i ==> t1[k] == s1[k + 1] && t2[k] == s2[k + 1];
    }
    if LexLessSpec(s1, s2, less) {
      if i :| 0 <= i < |s1| && i < |s2| && Equivalent(s1, s2, less, i) && less(s1[i], s2[i]) {
        assert i != 0;
        assert Equivalent(t1, t2, less, i - 1) && less(t1[i - 1], t2[i - 1]);
      } else {
        assert Equivalent(t1, t2, less, |t1|);
      }
    }
    if LexLessSpec(t1, t2, less) {
      if i :| 0 <= i < |t1| && i < |t2| && Equivalent(t1, t2, less, i) && less(t1[i], t2[i]) {
        assert Equivalent(s1, s2, less, i + 1) && less(s1[i + 1], s2[i + 1]);
      } else {
        assert Equivalent(s1, s2, less, |s1|);
      }
    }
  }

  /** The default comparison of lexicographical_compare on integers. */
  function IntLess(x: int, y: int): bool
  {
    x < y
  }

  /** lexicographical_compare with `<` on integers. */
  function LexicographicalCompare(s1: seq<int>, s2: seq<int>): (r: bool)
    ensures r <==>
      (exists i :: 0 <= i < |s1| && i < |s2| && s1[..i] == s2[..i] && s1[i] < s2[i])
      || (|s1| < |s2| && s1 == s2[..|s1|])
  {
    var r := LexCompareBy(s1, s2, IntLess);
    IntEquivalent(s1, s2);
    r
  }

  /** Under `<` on integers, neither-less elements are equal ones. */
  lemma IntEquivalent(s1: seq<int>, s2: seq<int>)
    ensures forall i :: 0 <= i <= |s1| && i <= |s2| ==>
              (Equivalent(s1, s2, IntLess, i) <==> s1[..i] == s2[..i])
  {
    forall i | 0 <= i <= |s1| && i <= |s2|
      ensures Equivalent(s1, s2, IntLess, i) <==> s1[..i] == s2[..i]
    {
      if Equivalent(s1, s2, IntLess, i) {
        assert forall k :: 0 <= k < i ==> s1[..i][k] == s2[..i][k];
      }
    }
  }

  /** A sequence is never lexicographically less than itself. */
  lemma LexIrreflexive(s: seq<int>)
    ensures !LexicographicalCompare(s, s)
  {
  }

  /**
   * memcmp over the first `n` bytes: the sign of the first differing pair
   * (compared as unsigned values), or 0 when the prefixes agree.
   */
  function Memcmp(s1: seq<byte>, s2: seq<byte>, n: nat): (r: int)
    requires n <= |s1| && n <= |s2|
    ensures -1 <= r <= 1
    ensures r == 0 <==> s1[..n] == s2[..n]
  {
    if n == 0 then 0
    else if s1[0] < s2[0] then -1
    else if s2[0] < s1[0] then 1
    else
      assert s1[..n] == [s1[0]] + s1[1..][..n - 1];
      assert s2[..n] == [s2[0]] + s2[1..][..n - 1];
      Memcmp(s1[1..], s2[1..], n - 1)
  }

  /** The byte-wise specialisation: memcmp on the common length, then length order. */
  function LexicographicalCompareBytes(s1: seq<byte>, s2: seq<byte>): (r: bool)
  {
    var len1, len2 := |s1|, |s2|;
    var result := Memcmp(s1, s2, Min(len1, len2));
    if result != 0 then result < 0 else len1 < len2
  }

  function BytesToInts(s: seq<byte>): (r: seq<int>)
    ensures |r| == |s|
    ensures forall k :: 0 <= k < |s| ==> r[k] == s[k] as int
  {
    seq(|s|, k requires 0 <= k < |s| => s[k] as int)
  }

  /** memcmp is negative exactly when the first differing byte of s1 is the smaller. */
  lemma {:induction false} MemcmpIsLex(s1: seq<byte>, s2: seq<byte>, n: nat)
    requires n <= |s1| && n <= |s2|
    ensures Memcmp(s1, s2, n) < 0 <==>
      exists i :: 0 <= i < n && s1[..i] == s2[..i] && s1[i] < s2[i]
    ensures Memcmp(s1, s2, n) > 0 <==>
      exists i :: 0 <= i < n && s1[..i] == s2[..i] && s2[i] < s1[i]
  {
    MemcmpNegative(s1, s2, n);
    MemcmpNegative(s2, s1, n);
    MemcmpSwap(s1, s2, n);
  }

  /** Swapping the operands of memcmp negates its result. */
  lemma {:induction false} MemcmpSwap(s1: seq<byte>, s2: seq<byte>, n: nat)
    requires n <= |s1| && n <= |s2|
    ensures Memcmp(s2, s1, n) == -Memcmp(s1, s2, n)
  {
    if n > 0 && s1[0] == s2[0] {
      MemcmpSwap(s1[1..], s2[1..], n - 1);
    }
  }

  /** memcmp stepping: equal leading bytes defer to the tails. */
  lemma {:induction false} MemcmpNegative(s1: seq<byte>, s2: seq<byte>, n: nat)
    requires n <= |s1| && n <= |s2|
    ensures Memcmp(s1, s2, n) < 0 <==>
      exists i :: 0 <= i < n && s1[..i] == s2[..i] && s1[i] < s2[i]
  {
    if n == 0 {
    } else if s1[0] < s2[0] {
      assert s1[..0] == s2[..0];
    } else if s2[0] < s1[0] {
      forall i | 0 < i <= n ensures s1[..i] != s2[..i] {
        assert s1[..i][0] != s2[..i][0];
      }
    } else {
      var t1, t2 := s1[1..], s2[1..];
      MemcmpNegative(t1, t2, n - 1);
      forall i | 1 <= i <= n ensures (s1[..i] == s2[..i]) <==> (t1[..i - 1] == t2[..i - 1]) {
        assert s1[..i] == [s1[0]] + t1[..i - 1];
        assert s2[..i] == [s2[0]] + t2[..i - 1];
        assert t1[..i - 1] == s1[..i][1..] && t2[..i - 1] == s2[..i][1..];
      }
      if exists i :: 0 <= i < n && s1[..i] == s2[..i] && s1[i] < s2[i] {
        var i :| 0 <= i < n && s1[..i] == s2[..i] && s1[i] < s2[i];
        assert i != 0;
        assert t1[..i - 1] == t2[..i - 1] && t1[i - 1] < t2[i - 1];
      }
      if exists i :: 0 <= i < n - 1 && t1[..i] == t2[..i] && t1[i] < t2[i] {
        var i :| 0 <= i < n - 1 && t1[..i] == t2[..i] && t1[i] < t2[i];
        assert s1[..i + 1] == s2[..i + 1] && s1[i + 1] < s2[i + 1];
      }
    }
  }

  /** The memcmp specialisation returns what the generic algorithm returns. */
  lemma LexBytesAgreesWithGeneric(s1: seq<byte>, s2: seq<byte>)
    ensures LexicographicalCompareBytes(s1, s2) == LexicographicalCompare(BytesToInts(s1), BytesToInts(s2))
  {
    var a, b := BytesToInts(s1), BytesToInts(s2);
    var m := Min(|s1|, |s2|);
    MemcmpIsLex(s1, s2, m);
    forall i | 0 <= i <= m ensures (s1[..i] == s2[..i]) <==> (a[..i] == b[..i]) {
      if a[..i] == b[..i] {
        assert forall k :: 0 <= k < i ==> s1[..i][k] as int == a[..i][k] && s2[..i][k] as int == b[..i][k];
      }
    }
    // Either the common prefix of length m decides, or the shorter is a prefix.
    if Memcmp(s1, s2, m) < 0 {
      var i :| 0 <= i < m && s1[..i] == s2[..i] && s1[i] < s2[i];
      assert a[..i] == b[..i] && a[i] < b[i];
    } else if Memcmp(s1, s2, m) > 0 {
      var i :| 0 <= i < m && s1[..i] == s2[..i] && s2[i] < s1[i];
      LexDecidedAt(a, b, i);
    } else {
      LexByLength(a, b, m);
    }
  }

  /** Where the first difference has the second sequence's element smaller, the first is not less. */
  lemma LexDecidedAt(a: seq<int>, b: seq<int>, i: int)
    requires 0 <= i < |a| && i < |b| && a[..i] == b[..i] && b[i] < a[i]
    ensures !LexicographicalCompare(a, b)
  {
    forall j | 0 <= j < |a| && j < |b| ensures !(a[..j] == b[..j] && a[j] < b[j]) {
      if j < i { assert a[j] == a[..i][j] && b[j] == b[..i][j]; }
      else if j > i { assert a[..j][i] != b[..j][i]; }
    }
    if |a| < |b| { assert a[i] != b[..|a|][i]; }
  }

  /** When the common-length prefixes agree, the shorter sequence is the lesser. */
  lemma LexByLength(a: seq<int>, b: seq<int>, m: int)
    requires m == Min(|a|, |b|) && a[..m] == b[..m]
    ensures LexicographicalCompare(a, b) == (|a| < |b|)
  {
    forall j | 0 <= j < |a| && j < |b| ensures !(a[..j] == b[..j] && a[j] < b[j]) {
      assert a[j] == a[..m][j] && b[j] == b[..m][j];
    }
    if |a| < |b| { assert a == a[..m]; }
  }

  /**
   * lexicographical_compare with `<` on integers is a strict total order: of a < b, a == b and
   * b < a exactly one holds.
   */
  lemma LexTrichotomy(a: seq<int>, b: seq<int>)
    ensures LexicographicalCompare(a, b) || a == b || LexicographicalCompare(b, a)
    ensures !(LexicographicalCompare(a, b) && LexicographicalCompare(b, a))
    ensures a == b ==> !LexicographicalCompare(a, b)
  {
    var m := Min(|a|, |b|);
    var i := Mismatch(a[..m], b[..m]);
    assert a[..i] == b[..i] by {
      forall k | 0 <= k < i ensures a[k] == b[k] { assert a[..m][k] == a[k] && b[..m][k] == b[k]; }
    }
    if i < m {
      assert a[i] == a[..m][i] && b[i] == b[..m][i];
      if a[i] < b[i] {
        LexDecidedAt(b, a, i);
      } else {
        LexDecidedAt(a, b, i);
      }
    } else {
      assert a[..m] == b[..m];
      LexByLength(a, b, m);
      LexByLength(b, a, m);
      if |a| == |b| {
        assert a == a[..m] && b == b[..m];
      }
    }
  }
}
