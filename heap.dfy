/**
 * The heap algorithms of heap_algo.h on a max-heap of integers under `<`:
 * push_heap (sift the last element up), pop_heap (move the root to the end
 * and sift the displaced last element down with adjust_heap), make_heap and
 * sort_heap.
 *
 * A heap range `[first, last)` is the prefix `a[..n]` of an array: index i of
 * the model is `first + i` of the source. The node at index i has children
 * 2i + 1 and 2i + 2 and, for i > 0, the parent Parent(i).
 */
module Heap {

  /** The parent of slot i > 0. */
  function Parent(i: int): int
  {
    (i - 1) / 2
  }

  /** Every parent-child edge whose parent index is at least k is ordered: child <= parent. */
  ghost predicate HeapFrom(s: seq<int>, k: int)
  {
    forall i {:trigger Parent(i)} :: 0 < i < |s| && k <= Parent(i) ==> s[i] <= s[Parent(i)]
  }

  /** s is a max-heap: every element is at most its parent. */
  ghost predicate IsHeap(s: seq<int>)
  {
    HeapFrom(s, 0)
  }

  /** s is sorted ascending. */
  ghost predicate Sorted(s: seq<int>)
  {
    forall i, j :: 0 <= i < j < |s| ==> s[i] <= s[j]
  }

  /** The root of a non-empty max-heap is its largest element. */
  lemma {:induction false} RootIsMax(s: seq<int>, i: int)
    requires IsHeap(s) && 0 <= i < |s|
    ensures s[i] <= s[0]
    decreases i
  {
    if i > 0 {
      RootIsMax(s, Parent(i));
    }
  }

  /** Every element of t also occurs in s, and all of s is at most m: so is all of t. */
  lemma BoundedByMultiset(s: seq<int>, t: seq<int>, m: int)
    requires multiset(t) <= multiset(s)
    requires forall j :: 0 <= j < |s| ==> s[j] <= m
    ensures forall j :: 0 <= j < |t| ==> t[j] <= m
  {
    forall j | 0 <= j < |t|
      ensures t[j] <= m
    {
      assert t[j] in multiset(t);
      assert t[j] in s;
    }
  }

  // ---------------------------------------------------------------------
  // push_heap
  // ---------------------------------------------------------------------

  /**
   * push_heap(first, last) = push_heap_aux(first, n - 1, 0, a[n - 1]): the hole starts at the
   * last index and moves up the parent chain while the parent is less than the value, each
   * parent moving down into the hole; the value is written where the hole stops.
   */
  method PushHeap(a: array<int>, n: int)
    requires 0 < n <= a.Length && IsHeap(a[..n - 1])
    modifies a
    ensures IsHeap(a[..n])
    ensures multiset(a[..n]) == multiset(old(a[..n]))
    ensures a[n..] == old(a[n..])
  {
    var v := a[n - 1];
    var shiftIdx := n - 1;
    var parent := Parent(shiftIdx);
    SiftUpStart(a[..n]);
    while shiftIdx > 0 && a[parent] < v
      invariant 0 <= shiftIdx < n && parent == Parent(shiftIdx)
      invariant SiftUpInv(a[..n], shiftIdx, v)
      invariant multiset(a[..n][shiftIdx := v]) == multiset(old(a[..n]))
      invariant a[n..] == old(a[n..])
      decreases shiftIdx
    {
      SiftUpMove(a, n, shiftIdx, parent, v);
      shiftIdx := parent;
      parent := Parent(shiftIdx);
    }
    SiftUpPlace(a, n, shiftIdx, v);
  }

  /**
   * The state of push_heap_aux with the hole at h, for the value v: every edge is ordered
   * except, while the hole is still at the last slot, the last slot's own; and the hole's
   * children are at most v.
   */
  ghost predicate SiftUpInv(s: seq<int>, h: int, v: int)
  {
    && 0 <= h < |s|
    && (forall i {:trigger Parent(i)} :: 0 < i < |s| && (i != |s| - 1 || h != |s| - 1) ==> s[i] <= s[Parent(i)])
    && ChildrenAtMost(s, h, v)
  }

  /** push_heap's start: a heap followed by one new element, with the hole at that element. */
  lemma SiftUpStart(s: seq<int>)
    requires |s| > 0 && IsHeap(s[..|s| - 1])
    ensures SiftUpInv(s, |s| - 1, s[|s| - 1])
    ensures s[|s| - 1 := s[|s| - 1]] == s
  {
    var t := s[..|s| - 1];
    forall i | 0 < i < |s| - 1
      ensures s[i] <= s[Parent(i)]
    {
      assert t[i] <= t[Parent(i)];
    }
  }

  /** One move of push_heap_aux: the parent p of the hole h, less than v, moves down into the hole. */
  method SiftUpMove(a: array<int>, n: int, h: int, p: int, v: int)
    requires 0 < h < n <= a.Length && p == Parent(h) && a[p] < v && SiftUpInv(a[..n], h, v)
    modifies a
    ensures SiftUpInv(a[..n], p, v)
    ensures multiset(a[..n][p := v]) == multiset(old(a[..n])[h := v])
    ensures a[n..] == old(a[n..])
  {
    ghost var s := a[..n];
    SiftUpStep(s, h, p, v);
    a[h] := a[p];
    assert a[..n] == s[h := s[p]];
  }

  /** Where push_heap_aux stops, v is written into the hole. */
  method SiftUpPlace(a: array<int>, n: int, h: int, v: int)
    requires 0 <= n <= a.Length && SiftUpInv(a[..n], h, v) && (h > 0 ==> v <= a[Parent(h)])
    modifies a
    ensures IsHeap(a[..n])
    ensures a[..n] == old(a[..n])[h := v]
    ensures a[n..] == old(a[n..])
  {
    ghost var s := a[..n];
    SiftUpLast(s, h, v);
    a[h] := v;
    assert a[..n] == s[h := v];
  }

  /** Writing v into the hole where push_heap_aux stops makes the whole range a heap. */
  lemma SiftUpLast(s: seq<int>, h: int, v: int)
    requires SiftUpInv(s, h, v) && (h > 0 ==> v <= s[Parent(h)])
    ensures IsHeap(s[h := v])
  {
    var t := s[h := v];
    forall i | 0 < i < |s| && 0 <= Parent(i)
      ensures t[i] <= t[Parent(i)]
    {
      if i != h && Parent(i) != h {
        assert i != |s| - 1 || h != |s| - 1;
      }
    }
  }

  /** Moving the parent p, less than v, into the hole h keeps push_heap_aux's invariant. */
  lemma SiftUpStep(s: seq<int>, h: int, p: int, v: int)
    requires 0 < h < |s| && p == Parent(h) && s[p] < v && SiftUpInv(s, h, v)
    ensures SiftUpInv(s[h := s[p]], p, v)
    ensures multiset(s[h := s[p]][p := v]) == multiset(s[h := v])
  {
    var t := s[h := s[p]];
    forall i | 0 < i < |s|
      ensures t[i] <= t[Parent(i)]
    {
      if i != h && Parent(i) == h {
        assert h < i < |s|;
        assert s[h] <= s[Parent(h)];
      }
    }
    forall c | 0 < c < |s| && Parent(c) == p
      ensures t[c] <= v
    {
      if c != h {
        assert s[c] <= s[p] by {
          assert c != |s| - 1 || h != |s| - 1;
        }
      }
    }
  }

  // ---------------------------------------------------------------------
  // adjust_heap / pop_heap
  // ---------------------------------------------------------------------

  /**
   * adjust_heap(first, k, len, v), with the hole at k: the hole moves down to the larger child
   * while that child is greater than v, the child moving up into the hole, and v is written
   * where the hole stops.  The loop stops as soon as the larger child is not greater than v;
   * see AdjustHeapAsWritten for the loop of the source, which does not stop.
   */
  method AdjustHeap(a: array<int>, k: int, len: int, v: int)
    requires 0 <= k < len <= a.Length && HeapFrom(a[..len], k + 1)
    modifies a
    ensures HeapFrom(a[..len], k)
    ensures multiset(a[..len]) == multiset(old(a[..len])[k := v])
    ensures a[len..] == old(a[len..])
  {
    var shiftIdx := k;
    var done := false;
    while !done
      invariant k <= shiftIdx < len && SiftDownInv(a[..len], k, shiftIdx, v)
      invariant done ==> ChildrenAtMost(a[..len], shiftIdx, v)
      invariant multiset(a[..len][shiftIdx := v]) == multiset(old(a[..len])[k := v])
      invariant a[len..] == old(a[len..])
      decreases len - shiftIdx, if done then 0 else 1
    {
      shiftIdx, done := SiftDownMove(a, k, len, shiftIdx, v);
    }
    SiftDownPlace(a, k, len, shiftIdx, v);
  }

  /** The children of slot h in s are at most v. */
  ghost predicate ChildrenAtMost(s: seq<int>, h: int, v: int)
  {
    forall c :: 0 < c < |s| && Parent(c) == h ==> s[c] <= v
  }

  /** The children of slot h are 2h + 1 and 2h + 2. */
  lemma ChildOf(c: int, h: int)
    requires 0 < c && Parent(c) == h
    ensures c == 2 * h + 1 || c == 2 * h + 2
  {
  }

  /**
   * One round of adjust_heap's loop with the hole at h: lchild becomes the larger child, and
   * the loop is done when there is none.
   */
  method SiftDownMove(a: array<int>, k: int, len: int, h: int, v: int) returns (next: int, done: bool)
    requires 0 <= k <= h < len <= a.Length && SiftDownInv(a[..len], k, h, v)
    modifies a
    ensures k <= next < len && SiftDownInv(a[..len], k, next, v)
    ensures if done then next == h && ChildrenAtMost(a[..len], h, v) else next > h
    ensures multiset(a[..len][next := v]) == multiset(old(a[..len])[h := v])
    ensures a[len..] == old(a[len..])
  {
    var lchild := 2 * h + 1;
    if lchild >= len {
      Childless(a[..len], h, v);
      return h, true;
    }
    if lchild + 1 < len && a[lchild] < a[lchild + 1] {
      lchild := lchild + 1;
    }
    LargerChildOf(a[..len], h, lchild);
    next, done := SiftDownTo(a, k, len, h, lchild, v);
  }

  /** A slot whose first child lies past the range has no children. */
  lemma Childless(s: seq<int>, h: int, v: int)
    requires 0 <= h && 2 * h + 1 >= |s|
    ensures ChildrenAtMost(s, h, v)
  {
    forall c | 0 < c < |s| && Parent(c) == h
      ensures false
    {
      ChildOf(c, h);
    }
  }

  /** c is the child of h holding the larger value. */
  ghost predicate LargerChild(s: seq<int>, h: int, c: int)
  {
    0 < c < |s| && Parent(c) == h && forall d :: 0 < d < |s| && Parent(d) == h ==> s[d] <= s[c]
  }

  /** What adjust_heap's child choice picks is the larger child. */
  lemma LargerChildOf(s: seq<int>, h: int, c: int)
    requires 0 <= h && (c == 2 * h + 1 || c == 2 * h + 2) && c < |s|
    requires c == 2 * h + 1 ==> !(c + 1 < |s| && s[c] < s[c + 1])
    requires c == 2 * h + 2 ==> s[c - 1] < s[c]
    ensures LargerChild(s, h, c)
  {
    forall d | 0 < d < |s| && Parent(d) == h
      ensures s[d] <= s[c]
    {
      ChildOf(d, h);
    }
  }

  /** The rest of a round of adjust_heap: the larger child c moves into the hole if it exceeds v. */
  method SiftDownTo(a: array<int>, k: int, len: int, h: int, c: int, v: int) returns (next: int, done: bool)
    requires 0 <= k <= h < len <= a.Length && SiftDownInv(a[..len], k, h, v) && LargerChild(a[..len], h, c)
    modifies a
    ensures k <= next < len && SiftDownInv(a[..len], k, next, v)
    ensures if done then next == h && ChildrenAtMost(a[..len], h, v) else next > h
    ensures multiset(a[..len][next := v]) == multiset(old(a[..len])[h := v])
    ensures a[len..] == old(a[len..])
  {
    if a[c] > v {
      ghost var s := a[..len];
      SiftDownStep(s, k, h, c, v);
      a[h] := a[c];
      assert a[..len] == s[h := s[c]];
      next, done := c, false;
    } else {
      next, done := h, true;
    }
  }

  /** Where adjust_heap stops, v is written into the hole. */
  method SiftDownPlace(a: array<int>, k: int, len: int, h: int, v: int)
    requires 0 <= k <= h < len <= a.Length && SiftDownInv(a[..len], k, h, v) && ChildrenAtMost(a[..len], h, v)
    modifies a
    ensures HeapFrom(a[..len], k)
    ensures a[..len] == old(a[..len])[h := v]
    ensures a[len..] == old(a[len..])
  {
    ghost var s := a[..len];
    SiftDownLast(s, k, h, v);
    a[h] := v;
    assert a[..len] == s[h := v];
  }

  /**
   * The state of adjust_heap with the hole at h: every edge under k is ordered except those
   * from the hole's children, and below the starting slot the hole's children and v fit under
   * the hole's parent.
   */
  ghost predicate SiftDownInv(s: seq<int>, k: int, h: int, v: int)
    requires 0 <= k <= h < |s|
  {
    && (forall i {:trigger Parent(i)} :: 0 < i < |s| && k <= Parent(i) && Parent(i) != h ==> s[i] <= s[Parent(i)])
    && (h > k ==> v <= s[Parent(h)])
    && (h > k ==> forall c :: 0 < c < |s| && Parent(c) == h ==> s[c] <= s[Parent(h)])
  }

  /** One move of adjust_heap keeps its invariant: the larger child c, greater than v, moves into the hole h. */
  lemma SiftDownStep(s: seq<int>, k: int, h: int, c: int, v: int)
    requires 0 <= k <= h < |s| && LargerChild(s, h, c) && s[c] > v
    requires SiftDownInv(s, k, h, v)
    ensures SiftDownInv(s[h := s[c]], k, c, v)
    ensures multiset(s[h := s[c]][c := v]) == multiset(s[h := v])
  {
    var t := s[h := s[c]];
    forall i | 0 < i < |s| && k <= Parent(i) && Parent(i) != c
      ensures t[i] <= t[Parent(i)]
    {
      if i == h {
        assert h > k;
      }
    }
    forall d | 0 < d < |s| && Parent(d) == c
      ensures t[d] <= t[Parent(c)]
    {
      assert d != h;
    }
  }

  /** Where adjust_heap stops, writing v into the hole orders every edge under k. */
  lemma SiftDownLast(s: seq<int>, k: int, h: int, v: int)
    requires 0 <= k <= h < |s| && SiftDownInv(s, k, h, v) && ChildrenAtMost(s, h, v)
    ensures HeapFrom(s[h := v], k)
  {
    var t := s[h := v];
    forall i | 0 < i < |s| && k <= Parent(i)
      ensures t[i] <= t[Parent(i)]
    {
      if i == h {
        assert h > k;
      }
    }
  }

  /**
   * pop_heap(first, last) = pop_heap_aux: the root goes to the last slot and the old last
   * element is sifted down from the root over the other n - 1 slots.
   */
  method PopHeap(a: array<int>, n: int)
    requires 0 < n <= a.Length && IsHeap(a[..n])
    modifies a
    ensures IsHeap(a[..n - 1])
    ensures a[n - 1] == old(a[0])
    ensures forall i :: 0 <= i < n - 1 ==> a[i] <= a[n - 1]
    ensures multiset(a[..n]) == multiset(old(a[..n]))
    ensures a[n..] == old(a[n..])
  {
    ghost var s := a[..n];
    var v := a[n - 1];
    a[n - 1] := a[0];
    if n > 1 {
      assert a[..n - 1] == s[..n - 1];
      PopStart(s);
      ghost var mid := a[..];
      assert mid[..n - 1] == s[..n - 1];
      AdjustHeap(a, 0, n - 1, v);
      assert a[n - 1..] == mid[n - 1..];
      assert a[n - 1] == a[n - 1..][0] && a[n..] == a[n - 1..][1..] && mid[n..] == mid[n - 1..][1..];
      PopResultIn(a, s, v, n);
    }
  }

  /** Below the root, a heap is a heap: what adjust_heap from the root needs. */
  lemma PopStart(s: seq<int>)
    requires |s| > 1 && IsHeap(s)
    ensures HeapFrom(s[..|s| - 1], 1)
  {
    var t := s[..|s| - 1];
    forall i | 0 < i < |t| && 1 <= Parent(i)
      ensures t[i] <= t[Parent(i)]
    {
      assert s[i] <= s[Parent(i)];
    }
  }

  /**
   * After pop_heap on the heap s: w holds the sifted heap of the other elements and then the
   * old root.  The elements are those of s, and the old root is at least each of the rest.
   */
  lemma PopResult(s: seq<int>, w: seq<int>, v: int, n: int)
    requires n == |s| > 1 && IsHeap(s) && |w| == n && v == s[n - 1] && w[n - 1] == s[0]
    requires multiset(w[..n - 1]) == multiset(s[..n - 1][0 := v])
    ensures multiset(w) == multiset(s)
    ensures forall i :: 0 <= i < n - 1 ==> w[i] <= w[n - 1]
  {
    var t, u := s[..|s| - 1], w[..|s| - 1];
    assert w == u + [s[0]];
    assert s == t + [v];
    calc {
      multiset(w);
      multiset(u) + multiset{s[0]};
      multiset(t[0 := v]) + multiset{s[0]};
      multiset(t) - multiset{s[0]} + multiset{v} + multiset{s[0]};
      multiset(t) + multiset{v};
      multiset(s);
    }
    forall j | 0 <= j < |s|
      ensures s[j] <= s[0]
    {
      RootIsMax(s, j);
    }
    BoundedByMultiset(s, u, s[0]);
  }

  /** PopResult read on the array a once pop_heap has finished with it. */
  lemma PopResultIn(a: array<int>, s: seq<int>, v: int, n: int)
    requires n == |s| > 1 && n <= a.Length && IsHeap(s) && v == s[n - 1] && a[n - 1] == s[0]
    requires multiset(a[..n - 1]) == multiset(s[..n - 1][0 := v])
    ensures multiset(a[..n]) == multiset(s)
    ensures forall i :: 0 <= i < n - 1 ==> a[i] <= a[n - 1]
  {
    assert a[..n][..n - 1] == a[..n - 1];
    PopResult(s, a[..n], v, n);
    forall i | 0 <= i < n - 1
      ensures a[i] <= a[n - 1]
    {
      assert a[i] == a[..n][i];
    }
  }

  // ---------------------------------------------------------------------
  // make_heap / sort_heap
  // ---------------------------------------------------------------------

  /**
   * make_heap(first, last) = make_heap_aux: a range of fewer than two elements is left alone;
   * otherwise adjust_heap runs on every slot from (len - 2) / 2 down to 0, each time with the
   * slot's own value. This is built on the corrected AdjustHeap; the source's make_heap_aux
   * calls the as-written loop, which MakeHeapAsWritten follows.
   */
  method MakeHeap(a: array<int>)
    modifies a
    ensures IsHeap(a[..])
    ensures multiset(a[..]) == multiset(old(a[..]))
    ensures a.Length < 2 ==> a[..] == old(a[..])
  {
    var len := a.Length;
    if len < 2 {
      return;
    }
    var shiftIdx := (len - 2) / 2;
    LeavesAreHeaps(a[..], shiftIdx);
    while true
      invariant 0 <= shiftIdx < len && HeapFrom(a[..], shiftIdx + 1)
      invariant multiset(a[..]) == multiset(old(a[..]))
      decreases shiftIdx
    {
      assert a[..] == a[..len] && a[..len][shiftIdx := a[shiftIdx]] == a[..len];
      AdjustHeap(a, shiftIdx, len, a[shiftIdx]);
      assert a[..] == a[..len];
      if shiftIdx == 0 {
        return;
      }
      shiftIdx := shiftIdx - 1;
    }
  }

  /** No slot after (|s| - 2) / 2 has a child: those edges are vacuously ordered. */
  lemma LeavesAreHeaps(s: seq<int>, k: int)
    requires |s| >= 2 && k == (|s| - 2) / 2
    ensures HeapFrom(s, k + 1)
  {
    forall i | 0 < i < |s| && k + 1 <= Parent(i)
      ensures false
    {
    }
  }

  /**
   * sort_heap(first, last): pop_heap on the shrinking range while it has more than one
   * element; each pop puts the largest remaining element in front of the sorted tail. This is
   * built on the corrected PopHeap; SortHeapAsWritten follows the source's pop_heap.
   */
  method SortHeap(a: array<int>)
    requires IsHeap(a[..])
    modifies a
    ensures Sorted(a[..])
    ensures multiset(a[..]) == multiset(old(a[..]))
  {
    var last := a.Length;
    while last > 1
      invariant 0 <= last <= a.Length && (a.Length > 0 ==> last >= 1)
      invariant IsHeap(a[..last]) && Sorted(a[last..])
      invariant forall i, j :: 0 <= i < last <= j < a.Length ==> a[i] <= a[j]
      invariant multiset(a[..]) == multiset(old(a[..]))
      decreases last
    {
      SortStep(a, last);
      last := last - 1;
    }
    assert a[..] == a[..last] + a[last..];
  }

  /** One round of sort_heap: pop_heap on [0, last) grows the sorted tail by one. */
  method SortStep(a: array<int>, last: int)
    requires 1 < last <= a.Length && IsHeap(a[..last]) && Sorted(a[last..])
    requires forall i, j :: 0 <= i < last <= j < a.Length ==> a[i] <= a[j]
    modifies a
    ensures IsHeap(a[..last - 1]) && Sorted(a[last - 1..])
    ensures forall i, j :: 0 <= i < last - 1 <= j < a.Length ==> a[i] <= a[j]
    ensures multiset(a[..]) == multiset(old(a[..]))
  {
    ghost var s := a[..];
    PopHeap(a, last);
    assert a[..] == a[..last] + a[last..] && s == s[..last] + s[last..];
    forall i, j | 0 <= i < last - 1 <= j < a.Length
      ensures a[i] <= a[j]
    {
      if j >= last {
        assert a[i] in multiset(a[..last]);
        assert a[i] in s[..last];
        var i' :| 0 <= i' < last && s[i'] == a[i];
        assert a[j] == s[j];
      }
    }
    forall i, j | last - 1 <= i < j < a.Length
      ensures a[i] <= a[j]
    {
      if i == last - 1 {
        assert a[i] == s[0] && a[j] == s[j];
      } else {
        assert a[i] == s[i] && a[j] == s[j];
      }
    }
  }

  // ---------------------------------------------------------------------
  // adjust_heap and pop_heap as the source writes them
  // ---------------------------------------------------------------------

  /**
   * The loop of adjust_heap exactly as written: at each step the hole moves to the larger
   * child whether or not that child is greater than v; the child is copied up only when it
   * is greater.  v is written at the leaf where the walk ends.
   */
  function AdjustHeapAsWritten(s: seq<int>, h: int, len: int, v: int): (r: seq<int>)
    requires 0 <= h < len <= |s|
    ensures |r| == |s| && r[len..] == s[len..]
    decreases len - h
  {
    var l := 2 * h + 1;
    if l >= len then s[h := v]
    else
      var c := if l + 1 < len && s[l] < s[l + 1] then l + 1 else l;
      var t := if s[c] > v then s[h := s[c]] else s;
      AdjustHeapAsWritten(t, c, len, v)
  }

  /** pop_heap as written: the root goes to the end, then the as-written adjust_heap. */
  function PopHeapAsWritten(s: seq<int>): (r: seq<int>)
    requires |s| > 0
    ensures |r| == |s| && r[|s| - 1] == s[0]
  {
    var t := s[|s| - 1 := s[0]];
    if |s| == 1 then t else AdjustHeapAsWritten(t, 0, |s| - 1, s[|s| - 1])
  }

  /**
   * On the heap [3, 1, 2] the as-written loop moves past the child 1, which is not greater
   * than the displaced 2, and then overwrites it: the 1 is lost and the 3 appears twice.
   */
  lemma PopHeapAsWrittenLosesElement()
    ensures IsHeap([3, 1, 2])
    ensures PopHeapAsWritten([3, 1, 2]) == [3, 2, 3]
    ensures multiset(PopHeapAsWritten([3, 1, 2])) != multiset([3, 1, 2])
  {
    SmallHeap();
    var s, t := [3, 1, 2], [3, 1, 3];
    assert PopHeapAsWritten(s) == AdjustHeapAsWritten(t, 0, 2, 2);
    assert AdjustHeapAsWritten(t, 0, 2, 2) == AdjustHeapAsWritten(t, 1, 2, 2);
    assert AdjustHeapAsWritten(t, 1, 2, 2) == t[1 := 2] == [3, 2, 3];
    assert s[1] == 1 && s[1] in multiset(s);
    assert multiset([3, 2, 3])[1] == 0;
  }

  /**
   * make_heap_aux as written: the as-written adjust_heap on every slot from (len - 2) / 2 down
   * to 0, each time with the slot's own value; ranges shorter than 2 are left alone.
   */
  function MakeHeapAsWritten(s: seq<int>): (r: seq<int>)
    ensures |r| == |s|
    ensures |s| < 2 ==> r == s
  {
    if |s| < 2 then s else MakeHeapDownFromAsWritten(s, (|s| - 2) / 2)
  }

  /** The rounds of make_heap_aux as written from slot k down to slot 0. */
  function MakeHeapDownFromAsWritten(s: seq<int>, k: int): (r: seq<int>)
    requires 0 <= k < |s|
    ensures |r| == |s|
    decreases k
  {
    var t := AdjustHeapAsWritten(s, k, |s|, s[k]);
    if k == 0 then t else MakeHeapDownFromAsWritten(t, k - 1)
  }

  /**
   * sort_heap as written: pop_heap as written on [0, last) while the range holds more than
   * one element, the popped maximum joining the tail.
   */
  function SortHeapAsWritten(s: seq<int>, last: int): (r: seq<int>)
    requires 0 <= last <= |s|
    ensures |r| == |s|
    decreases last
  {
    if last <= 1 then s else SortHeapAsWritten(PopHeapAsWritten(s[..last]) + s[last..], last - 1)
  }

  /**
   * make_heap as written breaks a range that is already a heap: on [5, 3, 4, 1, 2] slot 1 takes
   * the walk to the leaf 4 and writes 3 there, then slot 0 writes 5 over the 4, giving
   * [5, 3, 5, 1, 3]; the 4 and the 2 are lost.
   */
  lemma MakeHeapAsWrittenLosesElements()
    ensures IsHeap([5, 3, 4, 1, 2])
    ensures MakeHeapAsWritten([5, 3, 4, 1, 2]) == [5, 3, 5, 1, 3]
    ensures multiset(MakeHeapAsWritten([5, 3, 4, 1, 2])) != multiset([5, 3, 4, 1, 2])
  {
    var s, t, u := [5, 3, 4, 1, 2], [5, 3, 4, 1, 3], [5, 3, 5, 1, 3];
    FiveHeap();
    AdjustSlotOne();
    AdjustSlotZero();
    assert MakeHeapAsWritten(s) == MakeHeapDownFromAsWritten(s, 1);
    assert MakeHeapDownFromAsWritten(s, 1) == MakeHeapDownFromAsWritten(t, 0);
    assert MakeHeapDownFromAsWritten(t, 0) == u;
    assert s[2] in multiset(s);
    assert multiset(u)[4] == 0;
  }

  /** [5, 3, 4, 1, 2] is a heap. */
  lemma FiveHeap()
    ensures IsHeap([5, 3, 4, 1, 2])
  {
    var s := [5, 3, 4, 1, 2];
    forall i {:trigger Parent(i)} | 0 < i < |s| && 0 <= Parent(i)
      ensures s[i] <= s[Parent(i)]
    {
      assert Parent(i) == (if i <= 2 then 0 else 1);
    }
  }

  /** The first round of make_heap as written: slot 1, value 3, walks to the leaf 4. */
  lemma AdjustSlotOne()
    ensures AdjustHeapAsWritten([5, 3, 4, 1, 2], 1, 5, 3) == [5, 3, 4, 1, 3]
  {
    var s := [5, 3, 4, 1, 2];
    assert s[3] < s[4] && !(s[4] > 3);
    assert AdjustHeapAsWritten(s, 1, 5, 3) == AdjustHeapAsWritten(s, 4, 5, 3);
    assert AdjustHeapAsWritten(s, 4, 5, 3) == s[4 := 3];
  }

  /** The second round: slot 0, value 5, walks to the leaf 2 and writes 5 over the 4. */
  lemma AdjustSlotZero()
    ensures AdjustHeapAsWritten([5, 3, 4, 1, 3], 0, 5, 5) == [5, 3, 5, 1, 3]
  {
    var t := [5, 3, 4, 1, 3];
    assert t[1] < t[2] && !(t[2] > 5);
    assert AdjustHeapAsWritten(t, 0, 5, 5) == AdjustHeapAsWritten(t, 2, 5, 5);
    assert AdjustHeapAsWritten(t, 2, 5, 5) == t[2 := 5];
  }

  /**
   * sort_heap as written loses elements too: on the heap [3, 1, 2] the first pop gives
   * [3, 2, 3], and the second turns [3, 2] into [2, 3], so the result is [2, 3, 3].
   */
  lemma SortHeapAsWrittenLosesElement()
    ensures IsHeap([3, 1, 2])
    ensures SortHeapAsWritten([3, 1, 2], 3) == [2, 3, 3]
    ensures multiset(SortHeapAsWritten([3, 1, 2], 3)) != multiset([3, 1, 2])
  {
    SmallHeap();
    SortFirstRound();
    SortSecondRound();
    var s, w := [3, 1, 2], [2, 3, 3];
    assert s[1] in multiset(s);
    assert multiset(w)[1] == 0;
  }

  /** The first round of sort_heap as written on [3, 1, 2]. */
  lemma SortFirstRound()
    ensures SortHeapAsWritten([3, 1, 2], 3) == SortHeapAsWritten([3, 2, 3], 2)
  {
    PopHeapAsWrittenLosesElement();
    var s := [3, 1, 2];
    assert s[..3] == s && s[3..] == [];
    assert PopHeapAsWritten(s[..3]) + s[3..] == [3, 2, 3];
  }

  /** The second and last round of sort_heap as written, on [3, 2, 3] with last == 2. */
  lemma SortSecondRound()
    ensures SortHeapAsWritten([3, 2, 3], 2) == [2, 3, 3]
  {
    PopTwoAsWritten();
    var u := [3, 2, 3];
    assert u[..2] == [3, 2] && u[2..] == [3];
    assert PopHeapAsWritten(u[..2]) + u[2..] == [2, 3, 3];
    assert SortHeapAsWritten(u, 2) == SortHeapAsWritten([2, 3, 3], 1);
  }

  /** pop_heap as written on [3, 2]: the 3 goes to the end and the 2 to the front. */
  lemma PopTwoAsWritten()
    ensures PopHeapAsWritten([3, 2]) == [2, 3]
  {
    var t := [3, 3];
    assert PopHeapAsWritten([3, 2]) == AdjustHeapAsWritten(t, 0, 1, 2);
    assert AdjustHeapAsWritten(t, 0, 1, 2) == t[0 := 2];
  }

  /** [3, 1, 2] is a heap: both children are below the root. */
  lemma SmallHeap()
    ensures IsHeap([3, 1, 2])
  {
    var s := [3, 1, 2];
    forall i {:trigger Parent(i)} | 0 < i < |s| && 0 <= Parent(i)
      ensures s[i] <= s[Parent(i)]
    {
      assert Parent(i) == 0;
    }
  }
}
