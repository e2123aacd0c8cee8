/**
 * The deque iterator of deque.h (deque_iterator) and the buffer-size rule deque_buf_size.
 *
 * A deque stores its elements in fixed-size buffers of B elements each; an array of buffer
 * pointers, the map, holds them in order.  An iterator is four values: the element it points at
 * (cur), the bounds of the buffer holding it (first, last) and the map slot owning that buffer
 * (node).  The model places the buffers in a virtual address space in which the buffer held by
 * map slot n covers the addresses [n * B, n * B + B), so cur, first and last are addresses and
 * node is a slot index.  Iterators are value types in the source (copied freely, never shared),
 * so they are a datatype here and every operator returns the new iterator.
 */
module DequeIterators {

  /** Number of elements per buffer for an element type of sizeOfT bytes (deque_buf_size). */
  function BufSize(sizeOfT: nat): (r: nat)
    requires sizeOfT > 0
    ensures r >= 16
    ensures sizeOfT < 256 ==> r * sizeOfT <= 4096 < (r + 1) * sizeOfT
    ensures sizeOfT >= 256 ==> r == 16
  {
    if sizeOfT < 256 then
      var q := 4096 / sizeOfT;
      DivBounds(4096, sizeOfT);
      assert 16 * sizeOfT < 4096 + sizeOfT;
      LessMulCancel(15, q, sizeOfT);
      q
    else 16
  }

  datatype Iter = Iter(cur: int, first: int, last: int, node: int)

  /** The iterator points into the buffer of its own map slot: first and last bound that buffer. */
  predicate Wf(it: Iter, B: nat)
  {
    B > 0 && it.first == it.node * B && it.last == it.first + B && it.first <= it.cur < it.last
  }

  /** The map slot whose buffer holds address p. */
  function NodeOf(p: int, B: nat): int
    requires B > 0
  {
    p / B
  }

  /** iterator(v, n): an iterator at address v inside the buffer of slot n. */
  function MakeIter(v: int, n: int, B: nat): (it: Iter)
    requires B > 0 && n * B <= v < n * B + B
    ensures Wf(it, B) && it.cur == v && it.node == n && it.first == n * B
  {
    Iter(v, n * B, n * B + B, n)
  }

  /** set_node: moves first, last and node to slot n and leaves cur alone. */
  function SetNode(it: Iter, n: int, B: nat): (r: Iter)
    ensures r.cur == it.cur && r.node == n && r.first == n * B && r.last == r.first + B
  {
    Iter(it.cur, n * B, n * B + B, n)
  }

  /** operator++: one element forward, moving to the first cell of the next buffer at a boundary. */
  function Inc(it: Iter, B: nat): (r: Iter)
    requires Wf(it, B)
    ensures Wf(r, B) && r.cur == it.cur + 1
    ensures r.node == if it.cur + 1 == it.last then it.node + 1 else it.node
  {
    var c := it.(cur := it.cur + 1);
    if c.cur == c.last then
      var t := SetNode(c, c.node + 1, B);
      t.(cur := t.first)
    else c
  }

  /** operator--: one element back, moving to the last cell of the previous buffer at a boundary. */
  function Dec(it: Iter, B: nat): (r: Iter)
    requires Wf(it, B)
    ensures Wf(r, B) && r.cur == it.cur - 1
    ensures r.node == if it.cur == it.first then it.node - 1 else it.node
  {
    var c := if it.cur == it.first then var t := SetNode(it, it.node - 1, B); t.(cur := t.last) else it;
    c.(cur := c.cur - 1)
  }

  /**
   * operator+= (and operator+, which copies the iterator and applies +=): n elements forward,
   * or back for negative n.  Inside the current buffer only cur moves; otherwise the slot offset
   * is computed with truncating division on a non-negative operand in both branches, which is
   * floor division of the offset from the buffer start.
   */
  function Plus(it: Iter, n: int, B: nat): (r: Iter)
    requires Wf(it, B)
    ensures Wf(r, B) && r.cur == it.cur + n
    ensures r.node == it.node + (n + (it.cur - it.first)) / B
  {
    var offset := n + (it.cur - it.first);
    if 0 <= offset < B then
      DivModUnique(offset, B, 0, offset);
      it.(cur := it.cur + n)
    else
      var nodeOffset := if offset > 0 then offset / B else -((-offset - 1) / B) - 1;
      assert nodeOffset == offset / B by {
        if offset < 0 {
          FloorOffset(offset, B);
        }
      }
      DivBounds(offset, B);
      var t := SetNode(it, it.node + nodeOffset, B);
      t.(cur := t.first + (offset - nodeOffset * B))
  }

  /** operator-= (and operator-(n)): n elements back. */
  function Minus(it: Iter, n: int, B: nat): (r: Iter)
    requires Wf(it, B)
    ensures Wf(r, B) && r.cur == it.cur - n
  {
    Plus(it, -n, B)
  }

  /** operator-(iterator): the number of elements between two iterators. */
  function Diff(a: Iter, b: Iter, B: nat): (d: int)
    ensures Wf(a, B) && Wf(b, B) ==> d == a.cur - b.cur
  {
    B * (a.node - b.node) + (a.cur - a.first) - (b.cur - b.first)
  }

  /** operator==: compares cur only. */
  predicate Eq(a: Iter, b: Iter)
  {
    a.cur == b.cur
  }

  predicate Ne(a: Iter, b: Iter)
  {
    !Eq(a, b)
  }

  /** operator<: by slot first, then by address inside the same slot. */
  predicate Less(a: Iter, b: Iter)
  {
    if a.node == b.node then a.cur < b.cur else a.node < b.node
  }

  predicate Gt(a: Iter, b: Iter)
  {
    Less(b, a)
  }

  predicate Le(a: Iter, b: Iter)
  {
    !Gt(a, b)
  }

  predicate Ge(a: Iter, b: Iter)
  {
    !Less(a, b)
  }

  // ---------------------------------------------------------------------------------------------
  // Properties of the iterator operations.

  /** A well-formed iterator is determined by its address: its slot is the address divided by B. */
  lemma NodeOfCell(it: Iter, B: nat)
    requires Wf(it, B)
    ensures NodeOf(it.cur, B) == it.node && it.cur % B == it.cur - it.first
  {
    DivModUnique(it.cur, B, it.node, it.cur - it.first);
  }

  /** Two well-formed iterators at the same address are the same iterator. */
  lemma WfUnique(a: Iter, b: Iter, B: nat)
    requires Wf(a, B) && Wf(b, B) && a.cur == b.cur
    ensures a == b
  {
    NodeOfCell(a, B);
    NodeOfCell(b, B);
  }

  /** Comparing cur only is harmless: on well-formed iterators it is full equality. */
  lemma EqIsIdentity(a: Iter, b: Iter, B: nat)
    requires Wf(a, B) && Wf(b, B)
    ensures Eq(a, b) <==> a == b
    ensures Ne(a, b) <==> a != b
  {
    if a.cur == b.cur {
      WfUnique(a, b, B);
    }
  }

  /** Slot order agrees with address order on well-formed iterators. */
  lemma NodeOrder(a: Iter, b: Iter, B: nat)
    requires Wf(a, B) && Wf(b, B)
    ensures a.node < b.node ==> a.cur < b.cur
    ensures a.cur <= b.cur ==> a.node <= b.node
  {
    if a.node < b.node {
      MulMono(a.node + 1, b.node, B);
    }
    if b.node < a.node {
      MulMono(b.node + 1, a.node, B);
    }
  }

  /** The four orderings compare addresses, i.e. positions in the sequence. */
  lemma ComparisonsFollowAddresses(a: Iter, b: Iter, B: nat)
    requires Wf(a, B) && Wf(b, B)
    ensures Less(a, b) <==> a.cur < b.cur
    ensures Gt(a, b) <==> a.cur > b.cur
    ensures Le(a, b) <==> a.cur <= b.cur
    ensures Ge(a, b) <==> a.cur >= b.cur
  {
    NodeOrder(a, b, B);
    NodeOrder(b, a, B);
  }

  /** ++ and -- undo each other. */
  lemma IncDecInverse(it: Iter, B: nat)
    requires Wf(it, B)
    ensures Dec(Inc(it, B), B) == it
    ensures Inc(Dec(it, B), B) == it
  {
    WfUnique(Dec(Inc(it, B), B), it, B);
    WfUnique(Inc(Dec(it, B), B), it, B);
  }

  /** Stepping by one with + and - is ++ and --. */
  lemma PlusOneIsInc(it: Iter, B: nat)
    requires Wf(it, B)
    ensures Plus(it, 1, B) == Inc(it, B)
    ensures Minus(it, 1, B) == Dec(it, B)
  {
    WfUnique(Plus(it, 1, B), Inc(it, B), B);
    WfUnique(Minus(it, 1, B), Dec(it, B), B);
  }

  /** Moving by n and then measuring the distance gives n back. */
  lemma PlusDiff(it: Iter, n: int, B: nat)
    requires Wf(it, B)
    ensures Diff(Plus(it, n, B), it, B) == n
    ensures Diff(it, Plus(it, n, B), B) == -n
  {
  }

  /** - n undoes + n, and moves compose additively. */
  lemma PlusMinusInverse(it: Iter, m: int, n: int, B: nat)
    requires Wf(it, B)
    ensures Minus(Plus(it, n, B), n, B) == it
    ensures Plus(Plus(it, m, B), n, B) == Plus(it, m + n, B)
  {
    WfUnique(Minus(Plus(it, n, B), n, B), it, B);
    WfUnique(Plus(Plus(it, m, B), n, B), Plus(it, m + n, B), B);
  }

  // ---------------------------------------------------------------------------------------------
  // Arithmetic helpers.

  lemma DivBounds(x: int, B: int)
    requires B > 0
    ensures (x / B) * B <= x < (x / B) * B + B
    ensures x % B == x - (x / B) * B
  {
  }

  /** Multiplication by B distributes over a sum. */
  lemma AddMul(x: int, y: int, B: int)
    ensures (x + y) * B == x * B + y * B
  {
  }

  lemma MulMono(x: int, y: int, B: int)
    requires x <= y && B >= 0
    ensures x * B <= y * B
  {
    assert y * B - x * B == (y - x) * B;
  }

  lemma LessMulCancel(x: int, y: int, B: int)
    requires B > 0 && x * B < y * B + B
    ensures x <= y
  {
    if x > y {
      MulMono(y + 1, x, B);
    }
  }

  /** Division is determined by any decomposition x == q * B + r with 0 <= r < B. */
  lemma DivModUnique(x: int, B: int, q: int, r: int)
    requires B > 0 && x == q * B + r && 0 <= r < B
    ensures x / B == q && x % B == r
  {
    DivBounds(x, B);
    LessMulCancel(q, x / B, B);
    LessMulCancel(x / B, q, B);
  }

  /** Addresses of distinct (slot, offset) pairs are distinct. */
  lemma CellAddressInjective(i: int, o: int, j: int, q: int, B: nat)
    requires B > 0 && 0 <= o < B && 0 <= q < B && i * B + o == j * B + q
    ensures i == j && o == q
  {
    DivModUnique(i * B + o, B, i, o);
    DivModUnique(j * B + q, B, j, q);
  }

  lemma CellAddressDistinct(i: int, o: int, j: int, q: int, B: nat)
    requires B > 0 && 0 <= o < B && 0 <= q < B && (i != j || o != q)
    ensures i * B + o != j * B + q
  {
    if i * B + o == j * B + q {
      CellAddressInjective(i, o, j, q, B);
    }
  }

  /** The cells of slots [0, size) fill the addresses [0, size * B). */
  lemma CellInRange(i: int, o: int, size: int, B: nat)
    requires B > 0 && 0 <= i < size && 0 <= o < B
    ensures 0 <= i * B + o < size * B
  {
    MulMono(0, i, B);
    MulMono(i + 1, size, B);
  }

  /** Comparing an address with the first address n * B of slot n compares its slot with n. */
  lemma NodeOfBounds(p: int, n: int, B: nat)
    requires B > 0
    ensures p < n * B ==> NodeOf(p, B) < n
    ensures n * B <= p ==> n <= NodeOf(p, B)
    ensures n * B <= p < n * B + B ==> NodeOf(p, B) == n
  {
    DivBounds(p, B);
    if p < n * B {
      if p / B >= n {
        MulMono(n, p / B, B);
      }
    }
    if n * B <= p {
      LessMulCancel(n, p / B, B);
    }
    if n * B <= p < n * B + B {
      DivModUnique(p, B, n, p - n * B);
    }
  }

  /** The addresses from lo to hi (both included) lie in the slots from lo.node to hi.node. */
  lemma SpanSlots(lo: Iter, hi: Iter, size: int, B: nat)
    requires Wf(lo, B) && Wf(hi, B) && 0 <= lo.node <= hi.node < size && lo.cur <= hi.cur
    ensures 0 <= lo.cur && hi.cur < size * B
    ensures forall p :: lo.cur <= p <= hi.cur ==> lo.node <= NodeOf(p, B) <= hi.node
  {
    CellInRange(lo.node, lo.cur - lo.first, size, B);
    CellInRange(hi.node, hi.cur - hi.first, size, B);
    forall p | lo.cur <= p <= hi.cur
      ensures lo.node <= NodeOf(p, B) <= hi.node
    {
      SlotBetween(p, lo.node, hi.node, B);
    }
  }

  /** An address from slot lo's first cell to slot hi's last lies in a slot between them. */
  lemma SlotBetween(p: int, lo: int, hi: int, B: nat)
    requires B > 0 && lo * B <= p < hi * B + B
    ensures lo <= NodeOf(p, B) <= hi
  {
    AddMul(hi, 1, B);
    NodeOfBounds(p, lo, B);
    NodeOfBounds(p, hi + 1, B);
  }

  /** Every slot from lo's up to (not including) hi's has an address in [lo.cur, hi.cur). */
  lemma CellOfSlot(lo: Iter, hi: Iter, i: int, B: nat) returns (p: int)
    requires Wf(lo, B) && Wf(hi, B) && lo.node <= i < hi.node
    ensures lo.cur <= p < hi.cur && NodeOf(p, B) == i
  {
    MulMono(i + 1, hi.node, B);
    if i == lo.node {
      p := lo.cur;
      NodeOfCell(lo, B);
    } else {
      p := i * B;
      MulMono(lo.node + 1, i, B);
      NodeOfBounds(p, i, B);
    }
  }

  /** The negative-offset slot formula of operator+= is floor division. */
  lemma FloorOffset(offset: int, B: int)
    requires B > 0 && offset < 0
    ensures -((-offset - 1) / B) - 1 == offset / B
  {
    var q := (-offset - 1) / B;
    DivBounds(-offset - 1, B);
    DivModUnique(offset, B, -q - 1, offset - (-q - 1) * B);
  }
}
