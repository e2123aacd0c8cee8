/**
 * Helpers of deque.h as they are written, on a plain model of what each one touches: the map as
 * the sequence of its slots (true for a slot that holds a buffer pointer), the elements as a
 * sequence.  Each comes with the input that shows where it departs from what its callers rely
 * on.  The Deque module uses the intended versions: Deque.CreateMap, Deque.Deque.CreateBuffer,
 * Deque.Deque.RequireCapacity and Deque.Deque.Erase.
 */
module DequeAsWritten {
  import opened Common
  import DequeIterators

  // ---------------------------------------------------------------------
  // create_map
  // ---------------------------------------------------------------------

  /**
   * The initialising loop of create_map(size) as written, from round i on: every round stores
   * nullptr into slot 1 (`*(mp + 1)`), not slot i.  held is what the fresh allocation holds.
   */
  function CreateMapAsWritten(held: seq<bool>, i: nat): (r: seq<bool>)
    requires |held| >= 2 && i <= |held|
    ensures |r| == |held|
    decreases |held| - i
  {
    if i == |held| then held else CreateMapAsWritten(held[1 := false], i + 1)
  }

  /**
   * As written, the loop of create_map from any round on clears slot 1 only (when it runs at
   * all): every other slot keeps what the allocation left there.
   */
  lemma {:induction false} CreateMapClearsAsWritten(held: seq<bool>, i: nat)
    requires |held| >= 2 && i <= |held|
    ensures CreateMapAsWritten(held, i) == if i < |held| then held[1 := false] else held
    decreases |held| - i
  {
    if i < |held| {
      CreateMapClearsAsWritten(held[1 := false], i + 1);
      assert held[1 := false][1 := false] == held[1 := false];
    }
  }

  /** A fresh map of eight slots that all hold garbage keeps seven of them after create_map. */
  lemma CreateMapKeepsGarbage()
    ensures forall i :: 0 <= i < 8 ==> CreateMapAsWritten(Repeat(true, 8), 0)[i] == (i != 1)
  {
    CreateMapClearsAsWritten(Repeat(true, 8), 0);
  }

  // ---------------------------------------------------------------------
  // create_buffer
  // ---------------------------------------------------------------------

  /**
   * create_buffer(start, finish) as written, from slot cur on: the loop runs while cur < finish,
   * so slot finish gets no buffer, although every caller passes the last slot it needs.
   */
  function CreateBufferAsWritten(held: seq<bool>, cur: int, finish: int): (r: seq<bool>)
    requires 0 <= cur && finish <= |held|
    ensures |r| == |held|
    decreases finish - cur
  {
    if cur >= finish then held else CreateBufferAsWritten(held[cur := true], cur + 1, finish)
  }

  /**
   * As written, create_buffer fills the slots of [start, finish) and leaves slot finish and the
   * others as they were.  So map_init(n) for n < B, which asks for the one slot start == finish
   * (slot 3 of a map of 8), allocates no buffer at all while begin and end point into that slot.
   */
  lemma {:induction false} CreateBufferAsWrittenSkipsFinish(held: seq<bool>, start: int, finish: int)
    requires 0 <= start && finish < |held|
    ensures forall i :: 0 <= i < |held| ==>
              CreateBufferAsWritten(held, start, finish)[i] == if start <= i < finish then true else held[i]
    ensures CreateBufferAsWritten(Repeat(false, 8), 3, 3) == Repeat(false, 8)
    decreases finish - start
  {
    if start < finish {
      CreateBufferAsWrittenSkipsFinish(held[start := true], start + 1, finish);
    }
  }

  // ---------------------------------------------------------------------
  // require_capacity, back side
  // ---------------------------------------------------------------------

  /** What the back branch of require_capacity does: reallocate the map, or fill free slots after end. */
  datatype BackStep = ReallocateAtBack(need: int) | BuffersAfterEnd(need: int)

  /**
   * The back branch of require_capacity(n, false) as written, when the room = end.last - end.cur
   * - 1 free cells after end in its buffer are fewer than n and free empty slots follow end's:
   * need_buffer lacks the + 1 of the front branch, and the test of the free slots ends in an
   * empty statement, so the map is reallocated for every call with that need.
   */
  function RequireBackAsWritten(n: int, room: int, B: int, free: int): (s: BackStep)
    requires B > 0 && 0 <= room < n
  {
    var needBuffer := (n - room) / B;
    if needBuffer > free then ReallocateAtBack(needBuffer) else ReallocateAtBack(needBuffer)
  }

  /**
   * As written, the back branch always reallocates the map, and the buffers it asks for hold
   * the n new elements and the cell end then moves to only when n - room is a multiple of B.
   * push_back on a deque whose end is the last cell of its buffer (n == 1, room == 0) asks for
   * no buffer at all, and end then steps into a slot without one.
   */
  lemma RequireBackAsWrittenFallsShort(n: int, room: int, B: int, free: int)
    requires B > 0 && 0 <= room < n
    ensures RequireBackAsWritten(n, room, B, free).ReallocateAtBack?
    ensures room + 1 + RequireBackAsWritten(n, room, B, free).need * B >= n + 1 <==> (n - room) % B == 0
    ensures RequireBackAsWritten(1, 0, 8, free) == ReallocateAtBack(0)
  {
    var q := (n - room) / B;
    DequeIterators.DivBounds(n - room, B);
    assert RequireBackAsWritten(n, room, B, free).need == q;
    assert (n - room) % B == (n - room) - q * B;
  }

  // ---------------------------------------------------------------------
  // erase(position), front branch
  // ---------------------------------------------------------------------

  /**
   * copy(first, first + count, result) on one sequence of elements, one cell at a time from the
   * front, as the random-access copy does: cell dst takes cell src, then the next pair.
   */
  function CopyForward<T>(s: seq<T>, src: int, dst: int, count: nat): (r: seq<T>)
    requires 0 <= src && 0 <= dst && src + count <= |s| && dst + count <= |s|
    ensures |r| == |s|
    decreases count
  {
    if count == 0 then s else CopyForward(s[dst := s[src]], src + 1, dst + 1, count - 1)
  }

  /**
   * A forward copy between ranges that do not overlap puts the count source cells at dst and
   * changes nothing else, whichever range comes first: cell j of the result.
   */
  lemma {:induction false} CopyForwardDisjointAt<T>(s: seq<T>, src: nat, dst: nat, count: nat, j: nat)
    requires src + count <= |s| && dst + count <= |s| && j < |s|
    requires src + count <= dst || dst + count <= src
    ensures CopyForward(s, src, dst, count)[j] == if dst <= j < dst + count then s[src + (j - dst)] else s[j]
    decreases count
  {
    if count > 0 {
      var t := s[dst := s[src]];
      CopyForwardDisjointAt(t, src + 1, dst + 1, count - 1, j);
      if dst + 1 <= j < dst + count {
        assert t[src + 1 + (j - dst - 1)] == s[src + (j - dst)];
      }
    }
  }

  /** The whole result of a forward copy between ranges that do not overlap. */
  lemma CopyForwardDisjoint<T>(s: seq<T>, src: nat, dst: nat, count: nat)
    requires src + count <= |s| && dst + count <= |s|
    requires src + count <= dst || dst + count <= src
    ensures CopyForward(s, src, dst, count) == s[..dst] + s[src..src + count] + s[dst + count..]
  {
    var c, e := CopyForward(s, src, dst, count), s[..dst] + s[src..src + count] + s[dst + count..];
    forall j | 0 <= j < |s|
      ensures c[j] == e[j]
    {
      CopyForwardDisjointAt(s, src, dst, count, j);
    }
  }

  /**
   * erase(position) for an element at index k in the front half, as written: next is
   * position + 1, so copy(begin, position, next) writes the first k elements to the k cells
   * after position, then pop_front drops the first cell.  The guard k < size() / 2 of the
   * front branch keeps those cells inside the deque.
   */
  function EraseFrontAsWritten<T>(s: seq<T>, k: nat): (r: seq<T>)
    requires 2 * k + 1 <= |s|
    ensures |r| == |s| - 1
  {
    CopyForward(s, 0, k + 1, k)[1..]
  }

  /**
   * As written, erase(position) in the front half overwrites the k elements after position with
   * the k elements before it and keeps position's own element: erasing index k leaves
   * s[1..k+1] + s[..k] + s[2k+1..], where erase should leave s[..k] + s[k+1..].  Erasing index
   * 2 of [1, 2, 3, 4, 5, 6] gives [2, 3, 1, 2, 6], not [1, 2, 4, 5, 6].
   */
  lemma EraseFrontAsWrittenOverwritesAfter<T>(s: seq<T>, k: nat)
    requires 2 * k + 1 <= |s|
    ensures EraseFrontAsWritten(s, k) == s[1..k + 1] + s[..k] + s[2 * k + 1..]
    ensures EraseFrontAsWritten([1, 2, 3, 4, 5, 6], 2) == [2, 3, 1, 2, 6] != [1, 2] + [4, 5, 6]
  {
    CopyForwardDisjoint(s, 0, k + 1, k);
    var c := s[..k + 1] + s[..k] + s[2 * k + 1..];
    assert c[1..] == s[1..k + 1] + s[..k] + s[2 * k + 1..];
    var e := [1, 2, 3, 4, 5, 6];
    CopyForwardDisjoint(e, 0, 3, 2);
    assert e[..3] + e[..2] + e[5..] == [1, 2, 3, 1, 2, 6];
    assert [1, 2] + [4, 5, 6] == [1, 2, 4, 5, 6];
  }
}
