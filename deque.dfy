/**
 * The segmented double-ended queue of deque.h.
 *
 * The elements live in buffers of B cells; the map, an array of nullable buffer references,
 * holds them in order.  begin and end are deque iterators: the live elements are the cells from
 * begin to end (end excluded), every slot from begin.node to end.node holds a buffer, and slots
 * outside that range are null or hold reserved buffers.
 *
 * Proofs go through a ghost view Cells of the whole virtual address space: the cell at address
 * n * B + o is element o of the buffer in slot n (when that slot holds one).  The sequence the
 * deque represents is then Cells[begin.cur..end.cur].
 *
 * Allocation of a buffer can fail; an oracle alloc(i) says whether the allocation for map slot i
 * succeeds, and operations that allocate report success in a boolean.  Allocating a map and
 * constructing an element are taken to succeed except where noted.
 */
module Deque {
  import opened Common
  import opened DequeIterators
  import opened DequeLayout
  import Algorithm

  /** DEQUE_MAP_INIT_SIZE: the smallest number of map slots a deque allocates. */
  const MapInitSize: nat := 8

  /** The exception kinds at() can throw. */
  datatype Error = LengthError | OutOfRange

  class Deque<T(0)> {
    /** buffer_size: the number of cells of every buffer. */
    const B: nat
    /** map_: one slot per buffer. */
    var nodeMap: array?<array?<T>>
    /** map_size_ */
    var mapSize: nat
    /** begin_: the first element. */
    var begin: Iter
    /** end_: one past the last element. */
    var end: Iter

    /** The contents of the buffer of every slot (arbitrary for a null slot). */
    ghost var Buf: seq<seq<T>>
    /** The virtual address space: address n * B + o is cell o of the buffer of slot n. */
    ghost var Cells: seq<T>
    ghost var Repr: set<object>

    /**
     * The map m of size slots, the buffers it points to, the ghost buffer contents buf and the
     * address space cells agree: cells is buf laid end to end, and every slot that holds a
     * buffer holds its own buffer of B cells, whose contents are the slot's entry of buf.
     */
    ghost predicate Layout(m: array?<array?<T>>, size: nat, buf: seq<seq<T>>, cells: seq<T>, repr: set<object>)
      reads repr - {this}
    {
      m != null && m in repr - {this} && B > 0 && size == m.Length
      && |buf| == size && Uniform(buf, B) && cells == Concat(buf) && |cells| == size * B
      && (forall i :: 0 <= i < size && m[i] != null ==>
            m[i] in repr - {this} && m[i].Length == B && m[i] as object != m && m[i][..] == buf[i])
      && (forall i, j :: 0 <= i < size && 0 <= j < size && i != j && m[i] != null ==> m[i] != m[j])
    }

    /** The map and its buffers, and the tie between the buffers and Cells. */
    ghost predicate Storage()
      reads this`nodeMap, this`mapSize, this`Buf, this`Cells, this`Repr, Repr - {this}
    {
      this in Repr && Layout(nodeMap, mapSize, Buf, Cells, Repr)
    }

    /** The deque invariant: begin and end are well formed, ordered, and every slot between them holds a buffer. */
    ghost predicate Valid()
      reads this, Repr
    {
      Storage() && Spans()
    }

    /** begin and end are well formed and ordered, and every slot from begin's to end's holds a buffer. */
    ghost predicate Spans()
      reads this, nodeMap
    {
      SpansOf(begin, end)
    }

    /** b and e are well formed and ordered, and every slot from b's to e's holds a buffer. */
    ghost predicate SpansOf(b: Iter, e: Iter)
      reads this`nodeMap, nodeMap
    {
      Wf(b, B) && Wf(e, B) && nodeMap != null
      && 0 <= b.node <= e.node < nodeMap.Length && b.cur <= e.cur
      && (forall i :: b.node <= i <= e.node ==> nodeMap[i] != null)
    }

    /** Two adjacent spans make one. */
    lemma JoinSpans(a: Iter, m: Iter, c: Iter)
      requires SpansOf(a, m) && SpansOf(m, c)
      ensures SpansOf(a, c)
    {
    }

    /** Slot i exists and holds a buffer. */
    ghost predicate Allocated(i: int)
      reads this`nodeMap, nodeMap
    {
      nodeMap != null && 0 <= i < nodeMap.Length && nodeMap[i] != null
    }

    /** Every address in [lo, hi) lies in a buffer. */
    ghost predicate CellsAllocated(lo: int, hi: int)
      reads this`nodeMap, nodeMap
      requires B > 0
    {
      forall p :: lo <= p < hi ==> Allocated(NodeOf(p, B))
    }

    lemma LiveBounds()
      requires Valid()
      ensures 0 <= begin.cur <= end.cur < |Cells|
      ensures CellsAllocated(begin.cur, end.cur + 1)
    {
      SpanSlots(begin, end, mapSize, B);
    }

    /** The elements, front to back. */
    ghost function Contents(): (c: seq<T>)
      reads this, Repr
      requires Valid()
      ensures |c| == end.cur - begin.cur
    {
      LiveBounds();
      Cells[begin.cur..end.cur]
    }

    lemma IterAllocated(it: Iter, lo: int, hi: int)
      requires Storage() && Wf(it, B) && CellsAllocated(lo, hi) && lo <= it.cur < hi
      ensures 0 <= it.node < mapSize && nodeMap[it.node] != null
    {
      NodeOfCell(it, B);
    }

    // -------------------------------------------------------------------------------------------
    // Element access.

    /** *it: the element an iterator points at. */
    function Deref(it: Iter): (v: T)
      reads this, Repr
      requires Storage() && Wf(it, B) && 0 <= it.node < mapSize && nodeMap[it.node] != null
      ensures it.cur < |Cells| && v == Cells[it.cur]
    {
      ConcatIndex(Buf, B, it.node, it.cur - it.first);
      nodeMap[it.node][it.cur - it.first]
    }

    /** *it = v: stores v in the cell it points at; no other cell changes. */
    method WriteCell(it: Iter, v: T)
      requires Storage() && Wf(it, B) && 0 <= it.node < mapSize && nodeMap[it.node] != null
      modifies nodeMap[it.node], this`Buf, this`Cells
      ensures Storage() && it.cur < |Cells| && Cells == old(Cells)[it.cur := v]
    {
      var off := it.cur - it.first;
      ConcatIndex(Buf, B, it.node, off);
      ConcatUpdate(Buf, B, it.node, off, v);
      nodeMap[it.node][off] := v;
      Buf := Buf[it.node := Buf[it.node][off := v]];
      Cells := Cells[it.cur := v];
    }

    /** *to = *from: one step of the copy loops. */
    method CopyCell(from: Iter, to: Iter)
      requires Storage() && Wf(from, B) && Wf(to, B)
      requires 0 <= from.node < mapSize && nodeMap[from.node] != null
      requires 0 <= to.node < mapSize && nodeMap[to.node] != null
      modifies nodeMap[to.node], this`Buf, this`Cells
      ensures Storage() && from.cur < |Cells| && to.cur < |Cells|
      ensures Cells == old(Cells)[to.cur := old(Cells)[from.cur]]
    {
      var v := Deref(from);
      WriteCell(to, v);
    }

    /**
     * Writes vals into consecutive cells starting at it and returns the iterator past them; this
     * is fill, fill_n and uninitialized_copy/uninitialized_fill on deque iterators.
     */
    method WriteRange(it: Iter, vals: seq<T>, ghost wlo: int, ghost whi: int) returns (r: Iter)
      requires Storage() && Wf(it, B) && CellsAllocated(wlo, whi)
      requires 0 <= wlo <= it.cur && it.cur + |vals| <= whi <= |Cells|
      modifies Repr - {this}, this`Buf, this`Cells
      ensures Storage() && unchanged(nodeMap)
      ensures Cells == Overwrite(old(Cells), it.cur, vals)
      ensures Wf(r, B) && r.cur == it.cur + |vals|
    {
      r := it;
      var i := 0;
      OverwriteEmpty(old(Cells), it.cur);
      while i < |vals|
        invariant 0 <= i <= |vals|
        invariant Storage() && unchanged(nodeMap)
        invariant Wf(r, B) && r.cur == it.cur + i
        invariant Cells == Overwrite(old(Cells), it.cur, vals[..i])
      {
        IterAllocated(r, wlo, whi);
        WriteCell(r, vals[i]);
        OverwriteSnoc(old(Cells), it.cur, vals[..i], vals[i]);
        assert vals[..i + 1] == vals[..i] + [vals[i]];
        r := Inc(r, B);
        i := i + 1;
      }
      assert vals[..i] == vals;
    }

    /**
     * copy(first, last, result) with all three iterators in this deque: the loop of the
     * random-access copy, one cell at a time from the front.  Every use inside deque.h either
     * moves elements towards the front (the destination starts at or before the source) or
     * copies into cells past the source, where the front-to-back order makes the copy exact.
     */
    method CopyWithin(first: Iter, last: Iter, result: Iter, ghost wlo: int, ghost whi: int) returns (r: Iter)
      requires Storage() && Wf(first, B) && Wf(last, B) && Wf(result, B)
      requires CellsAllocated(wlo, whi) && 0 <= wlo && whi <= |Cells|
      requires wlo <= first.cur <= last.cur <= whi
      requires wlo <= result.cur && result.cur + (last.cur - first.cur) <= whi
      requires result.cur <= first.cur || last.cur <= result.cur
      modifies Repr - {this}, this`Buf, this`Cells
      ensures Storage() && unchanged(nodeMap)
      ensures Cells == Overwrite(old(Cells), result.cur, old(Cells)[first.cur..last.cur])
      ensures Wf(r, B) && r.cur == result.cur + (last.cur - first.cur)
    {
      var from := first;
      r := result;
      var n := Diff(last, first, B);
      OverwriteEmpty(old(Cells), result.cur);
      while n > 0
        invariant 0 <= n <= last.cur - first.cur
        invariant Storage() && unchanged(nodeMap)
        invariant Wf(from, B) && from.cur == last.cur - n
        invariant Wf(r, B) && r.cur == result.cur + (from.cur - first.cur)
        invariant Cells == Overwrite(old(Cells), result.cur, old(Cells)[first.cur..from.cur])
      {
        from, r := CopyForwardCell(old(Cells), first.cur, last.cur, result.cur, wlo, whi, from, r);
        n := n - 1;
      }
      assert from.cur == last.cur;
    }

    /** One round of CopyWithin's loop: *r = *from, then both advance. */
    method CopyForwardCell(ghost c0: seq<T>, ghost lo: int, ghost hi: int, ghost at: int, ghost wlo: int, ghost whi: int,
                           from: Iter, r: Iter) returns (nextFrom: Iter, nextR: Iter)
      requires Storage() && Wf(from, B) && Wf(r, B) && CellsAllocated(wlo, whi) && whi <= |c0|
      requires 0 <= wlo <= lo <= from.cur < hi <= whi && wlo <= at && (at <= lo || hi <= at) && at + (hi - lo) <= whi
      requires r.cur == at + (from.cur - lo)
      requires Cells == Overwrite(c0, at, c0[lo..from.cur])
      modifies Repr - {this}, this`Buf, this`Cells
      ensures Storage() && unchanged(nodeMap)
      ensures Wf(nextFrom, B) && nextFrom.cur == from.cur + 1 && Wf(nextR, B) && nextR.cur == r.cur + 1
      ensures Cells == Overwrite(c0, at, c0[lo..nextFrom.cur])
    {
      IterAllocated(from, wlo, whi);
      IterAllocated(r, wlo, whi);
      nextFrom := Inc(from, B);
      CopyForwardStep(c0, lo, from.cur, nextFrom.cur, hi, at);
      CopyCell(from, r);
      nextR := Inc(r, B);
    }

    /**
     * copy_backward(first, last, result) with all three iterators in this deque: the loop of the
     * random-access copy_backward, one cell at a time from the back into [result - n, result).
     * Every use inside deque.h moves elements towards the back (the destination ends at or after
     * the source), where the back-to-front order makes the copy exact.
     */
    method CopyBackwardWithin(first: Iter, last: Iter, result: Iter, ghost wlo: int, ghost whi: int) returns (r: Iter)
      requires Storage() && Wf(first, B) && Wf(last, B) && Wf(result, B)
      requires CellsAllocated(wlo, whi) && 0 <= wlo && whi <= |Cells|
      requires wlo <= first.cur <= last.cur <= result.cur <= whi && wlo <= result.cur - (last.cur - first.cur)
      modifies Repr - {this}, this`Buf, this`Cells
      ensures Storage() && unchanged(nodeMap)
      ensures Cells == Overwrite(old(Cells), result.cur - (last.cur - first.cur), old(Cells)[first.cur..last.cur])
      ensures Wf(r, B) && r.cur == result.cur - (last.cur - first.cur)
    {
      var from := last;
      r := result;
      var n := Diff(last, first, B);
      OverwriteEmpty(old(Cells), result.cur);
      while n > 0
        invariant 0 <= n <= last.cur - first.cur
        invariant Storage() && unchanged(nodeMap)
        invariant Wf(from, B) && from.cur == first.cur + n
        invariant Wf(r, B) && r.cur == result.cur - (last.cur - from.cur)
        invariant Cells == Overwrite(old(Cells), r.cur, old(Cells)[from.cur..last.cur])
      {
        from, r := CopyBackwardCell(old(Cells), first.cur, last.cur, result.cur, wlo, whi, from, r);
        n := n - 1;
      }
      assert from.cur == first.cur;
    }

    /** One round of CopyBackwardWithin's loop: both step back, then *r = *from. */
    method CopyBackwardCell(ghost c0: seq<T>, ghost lo: int, ghost hi: int, ghost end: int, ghost wlo: int, ghost whi: int,
                            from: Iter, r: Iter) returns (prevFrom: Iter, prevR: Iter)
      requires Storage() && Wf(from, B) && Wf(r, B) && CellsAllocated(wlo, whi) && whi <= |c0|
      requires 0 <= wlo <= lo < from.cur <= hi <= end <= whi && wlo <= end - (hi - lo) && r.cur == end - (hi - from.cur)
      requires Cells == Overwrite(c0, r.cur, c0[from.cur..hi])
      modifies Repr - {this}, this`Buf, this`Cells
      ensures Storage() && unchanged(nodeMap)
      ensures Wf(prevFrom, B) && prevFrom.cur == from.cur - 1 && Wf(prevR, B) && prevR.cur == r.cur - 1
      ensures Cells == Overwrite(c0, prevR.cur, c0[prevFrom.cur..hi])
    {
      prevFrom := Dec(from, B);
      prevR := Dec(r, B);
      IterAllocated(prevFrom, wlo, whi);
      IterAllocated(prevR, wlo, whi);
      CopyBackwardStep(c0, lo, prevFrom.cur, from.cur, hi, r.cur, prevR.cur);
      CopyCell(prevFrom, prevR);
    }

    /** The slots [lo, hi] hold buffers, so every address from lo * B to hi * B + B lies in one. */
    lemma SlotsCells(lo: int, hi: int)
      requires Storage() && 0 <= lo && hi < mapSize
      requires forall i :: lo <= i <= hi ==> nodeMap[i] != null
      ensures CellsAllocated(lo * B, hi * B + B)
    {
      forall p | lo * B <= p < hi * B + B
        ensures Allocated(NodeOf(p, B))
      {
        SlotBetween(p, lo, hi, B);
      }
    }

    // -------------------------------------------------------------------------------------------
    // Size and element access.

    /** size(): end_ - begin_. */
    function Size(): (n: int)
      reads this, Repr
      requires Valid()
      ensures n == |Contents()|
    {
      Diff(end, begin, B)
    }

    /** empty(): begin() == end(). */
    function Empty(): (r: bool)
      reads this, Repr
      requires Valid()
      ensures r <==> Contents() == []
    {
      Eq(begin, end)
    }

    /** front(): the first element. */
    function Front(): (v: T)
      reads this, Repr
      requires Valid() && Contents() != []
      ensures v == Contents()[0]
    {
      LiveBounds();
      Deref(begin)
    }

    /** back(): *(end() - 1), the last element. */
    function Back(): (v: T)
      reads this, Repr
      requires Valid() && Contents() != []
      ensures v == Contents()[|Contents()| - 1]
    {
      LiveBounds();
      IterAllocated(Dec(end, B), begin.cur, end.cur + 1);
      Deref(Dec(end, B))
    }

    /** operator[](n): element n, for n < size(). */
    function Get(n: int): (v: T)
      reads this, Repr
      requires Valid() && 0 <= n < |Contents()|
      ensures v == Contents()[n]
    {
      LiveBounds();
      IterAllocated(Plus(begin, n, B), begin.cur, end.cur + 1);
      Deref(Plus(begin, n, B))
    }

    /** at(n), non-const overload: element n, or length_error when n >= size(). */
    function At(n: nat): (r: Result<T, Error>)
      reads this, Repr
      requires Valid()
      ensures r.Err? <==> n >= |Contents()|
      ensures r.Err? ==> r.error == LengthError
      ensures r.Ok? ==> r.value == Contents()[n]
    {
      if !(n < Size()) then Err(LengthError) else Ok(Get(n))
    }

    /** at(n), const overload: element n, or out_of_range when n >= size(). */
    function AtConst(n: nat): (r: Result<T, Error>)
      reads this, Repr
      requires Valid()
      ensures r.Err? <==> n >= |Contents()|
      ensures r.Err? ==> r.error == OutOfRange
      ensures r.Ok? ==> r.value == Contents()[n]
    {
      if !(n < Size()) then Err(OutOfRange) else Ok(Get(n))
    }

    /** it[n] for an iterator into this deque: *(it + n). */
    function IterIndex(it: Iter, n: int): (v: T)
      reads this, Repr
      requires Valid() && Wf(it, B) && begin.cur <= it.cur + n < end.cur
      ensures v == Contents()[it.cur + n - begin.cur]
    {
      LiveBounds();
      IterAllocated(Plus(it, n, B), begin.cur, end.cur + 1);
      Deref(Plus(it, n, B))
    }

    // -------------------------------------------------------------------------------------------
    // Buffers.

    /**
     * create_buffer(start, finish): allocates a buffer for every slot from start to finish, both
     * included, as its callers intend.  alloc(i) says whether the allocation for slot i succeeds;
     * on the first failure the slots already filled are cleared again and false is returned.
     * The other slots and their buffers are left alone.
     */
    method CreateBuffer(start: int, finish: int, alloc: int -> bool) returns (ok: bool)
      requires Storage() && 0 <= start && finish < mapSize
      modifies nodeMap, this`Buf, this`Cells, this`Repr
      ensures Storage() && fresh(Repr - old(Repr))
      ensures forall i :: 0 <= i < mapSize && !(start <= i <= finish) ==>
                nodeMap[i] == old(nodeMap[i]) && Buf[i] == old(Buf[i])
      ensures ok <==> forall i :: start <= i <= finish ==> alloc(i)
      ensures ok ==> forall i :: start <= i <= finish ==> nodeMap[i] != null
      ensures !ok ==> forall i :: start <= i <= finish && old(nodeMap[i]) == null ==> nodeMap[i] == null
    {
      var cur := start;
      while cur <= finish
        invariant start <= cur <= finish + 1 || cur == start
        invariant Storage() && fresh(Repr - old(Repr))
        invariant forall i :: 0 <= i < mapSize && !(start <= i < cur) ==>
                    nodeMap[i] == old(nodeMap[i]) && Buf[i] == old(Buf[i])
        invariant forall i :: start <= i < cur ==> alloc(i) && nodeMap[i] != null
      {
        if !alloc(cur) {
          // Give back what was allocated so far.
          DestroyBuffer(start, cur - 1);
          return false;
        }
        NewBuffer(cur);
        cur := cur + 1;
      }
      ok := true;
    }

    /** data_allocator::allocate(buffer_size) stored in slot i; no other slot changes. */
    method NewBuffer(i: int)
      requires Storage() && 0 <= i < mapSize
      modifies nodeMap, this`Buf, this`Cells, this`Repr
      ensures Storage() && fresh(Repr - old(Repr)) && nodeMap[i] != null
      ensures forall j :: 0 <= j < mapSize && j != i ==> nodeMap[j] == old(nodeMap[j]) && Buf[j] == old(Buf[j])
    {
      var buf := new T[B];
      ConcatLength(Buf[i := buf[..]], B);
      nodeMap[i] := buf;
      Buf := Buf[i := buf[..]];
      Cells := Concat(Buf);
      Repr := Repr + {buf};
    }

    /** destroy_buffer(start, finish): releases the buffers of the slots from start to finish, both included. */
    method DestroyBuffer(start: int, finish: int)
      requires Storage() && 0 <= start && finish < mapSize
      modifies nodeMap
      ensures Storage()
      ensures forall i :: start <= i <= finish ==> nodeMap[i] == null
      ensures forall i :: 0 <= i < mapSize && !(start <= i <= finish) ==> nodeMap[i] == old(nodeMap[i])
    {
      var n := start;
      while n <= finish
        invariant start <= n && (n <= finish + 1 || n == start)
        invariant Storage()
        invariant forall i :: start <= i < n ==> nodeMap[i] == null
        invariant forall i :: 0 <= i < mapSize && !(start <= i < n) ==> nodeMap[i] == old(nodeMap[i])
      {
        nodeMap[n] := null;
        n := n + 1;
      }
    }

    /**
     * shrink_to_fit(): releases every buffer before begin's slot and after end's slot; the
     * elements and the buffers holding them stay.
     */
    method ShrinkToFit()
      requires Valid()
      modifies nodeMap
      ensures Valid() && Contents() == old(Contents())
      ensures forall i :: 0 <= i < mapSize ==>
                nodeMap[i] == if begin.node <= i <= end.node then old(nodeMap[i]) else null
    {
      DestroyBuffer(0, begin.node - 1);
      DestroyBuffer(end.node + 1, mapSize - 1);
    }

    // -------------------------------------------------------------------------------------------
    // Growing the map.

    /**
     * What reallocate_map_at_front and reallocate_map_at_back share: a fresh map of newSize slots
     * (create_map) whose slots from at on take over the buffers of slots begin.node .. end.node,
     * with begin and end moved along, each keeping its offset in its buffer.
     */
    method Relocate(newSize: nat, at: nat)
      requires Valid() && at + (end.node - begin.node) < newSize
      modifies this
      ensures Valid() && Contents() == old(Contents())
      ensures fresh(nodeMap) && Repr == old(Repr) + {nodeMap} && mapSize == newSize
      ensures begin.node == at && end.node == at + old(end.node - begin.node)
      ensures begin.cur - begin.first == old(begin.cur - begin.first)
      ensures end.cur - end.first == old(end.cur - end.first)
    {
      var bn, en := begin.node, end.node;
      var bo, eo := begin.cur - begin.first, end.cur - end.first;
      ghost var newBuf := Recentred(newSize, at);
      ghost var cells := Concat(newBuf);
      var top := at + (en - bn);
      var b, e := at * B + bo, at * B + ((en - bn) * B + eo);
      RelocateContents(newSize, at, top, b, e);
      var nb, ne := MakeIter(b, at, B), MakeIter(e, top, B);
      AddMul(at, en - bn, B);
      var newMap := BuildMap(newSize, at, newBuf);
      InstallLive(newMap, newSize, newBuf, cells, Repr + {newMap}, nb, ne);
    }

    /** The fresh map of Relocate: the live buffers in slots at .. at + (end.node - begin.node), null elsewhere. */
    method BuildMap(size: nat, at: nat, ghost buf: seq<seq<T>>) returns (mp: array<array?<T>>)
      requires Valid() && at + (end.node - begin.node) < size && buf == Recentred(size, at)
      ensures fresh(mp) && mp.Length == size
      ensures Layout(mp, size, buf, Concat(buf), Repr + {mp})
      ensures forall i :: at <= i <= at + (end.node - begin.node) ==> mp[i] != null
    {
      mp := MoveSlots(nodeMap, begin.node, end.node, size, at);
      RelocateLayout(mp, size, at);
    }

    /** Install, for a description that satisfies the deque invariant: the elements are cells[b.cur..e.cur]. */
    method InstallLive(m: array<array?<T>>, size: nat, ghost buf: seq<seq<T>>, ghost cells: seq<T>, ghost repr: set<object>, b: Iter, e: Iter)
      requires this in repr && Layout(m, size, buf, cells, repr)
      requires Wf(b, B) && Wf(e, B) && 0 <= b.node <= e.node < size && 0 <= b.cur <= e.cur <= |cells|
      requires forall i :: b.node <= i <= e.node ==> m[i] != null
      modifies this
      ensures Valid() && Contents() == cells[b.cur..e.cur]
      ensures nodeMap == m && mapSize == size && Buf == buf && Cells == cells && Repr == repr
      ensures begin == b && end == e
    {
      Install(m, size, buf, cells, repr, b, e);
    }

    /** Makes the deque use map m (with its ghost description) and the iterators b and e. */
    method Install(m: array<array?<T>>, size: nat, ghost buf: seq<seq<T>>, ghost cells: seq<T>, ghost repr: set<object>, b: Iter, e: Iter)
      requires this in repr && Layout(m, size, buf, cells, repr)
      modifies this
      ensures Storage()
      ensures nodeMap == m && mapSize == size && Buf == buf && Cells == cells && Repr == repr
      ensures begin == b && end == e
    {
      nodeMap, mapSize, begin, end := m, size, b, e;
      Buf, Cells, Repr := buf, cells, repr;
    }

    /** The ghost buffers once the live slots are moved to start at slot at of a map of size slots. */
    ghost function Recentred(size: nat, at: nat): (r: seq<seq<T>>)
      reads this, Repr
      requires Valid() && at + (end.node - begin.node) < size
      ensures |r| == size
    {
      Recentre(Buf, Buf[begin.node], begin.node, end.node, at, size)
    }

    /** mp has size slots; from slot at on it holds the buffers of the live slots, in order, and null elsewhere. */
    ghost predicate Moved(mp: array<array?<T>>, size: nat, at: nat)
      reads this, nodeMap, mp
      requires nodeMap != null && 0 <= begin.node <= end.node < nodeMap.Length
    {
      mp.Length == size && at + (end.node - begin.node) < size
      && forall i :: 0 <= i < size ==>
           mp[i] == if at <= i <= at + (end.node - begin.node) then nodeMap[begin.node + i - at] else null
    }

    /** The map Relocate builds is laid out like the old one, with the live buffers moved to slot at. */
    lemma RelocateLayout(mp: array<array?<T>>, size: nat, at: nat)
      requires Valid() && mp !in Repr && Moved(mp, size, at)
      ensures Layout(mp, size, Recentred(size, at), Concat(Recentred(size, at)), Repr + {mp})
    {
      var nb := Recentred(size, at);
      RecentreUniform(Buf, B, Buf[begin.node], begin.node, end.node, at, size);
      ConcatLength(nb, B);
      MovedBuffers(mp, size, at);
      MovedDistinct(mp, size, at);
    }

    /** Every buffer of the new map is a buffer of the old one, holding its slot's new contents. */
    lemma MovedBuffers(mp: array<array?<T>>, size: nat, at: nat)
      requires Valid() && mp !in Repr && Moved(mp, size, at)
      ensures forall i :: 0 <= i < size && mp[i] != null ==>
                mp[i] in (Repr + {mp}) - {this} && mp[i].Length == B && mp[i] as object != mp && mp[i][..] == Recentred(size, at)[i]
    {
      var nb := Recentred(size, at);
      forall i | 0 <= i < size && mp[i] != null
        ensures mp[i] in Repr && mp[i].Length == B && mp[i] as object != mp && mp[i][..] == nb[i]
      {
        var j := begin.node + i - at;
        assert mp[i] == nodeMap[j] && nb[i] == Buf[j];
      }
    }

    /** No buffer sits in two slots of the new map. */
    lemma MovedDistinct(mp: array<array?<T>>, size: nat, at: nat)
      requires Valid() && Moved(mp, size, at)
      ensures forall i, k :: 0 <= i < size && 0 <= k < size && i != k && mp[i] != null ==> mp[i] != mp[k]
    {
      forall i, k | 0 <= i < size && 0 <= k < size && i != k && mp[i] != null
        ensures mp[i] != mp[k]
      {
        assert mp[i] == nodeMap[begin.node + i - at];
        if mp[k] != null {
          assert mp[k] == nodeMap[begin.node + k - at];
        }
      }
    }

    /** Moving the live slots to slot at moves the elements along with them. */
    lemma RelocateContents(size: nat, at: nat, top: int, b: int, e: int)
      requires Valid() && at + (end.node - begin.node) < size && top == at + (end.node - begin.node)
      requires b == at * B + (begin.cur - begin.first)
      requires e == at * B + ((end.node - begin.node) * B + (end.cur - end.first))
      ensures at * B <= b < at * B + B
      ensures top * B <= e < top * B + B
      ensures 0 <= b <= e <= |Concat(Recentred(size, at))|
      ensures Concat(Recentred(size, at))[b..e] == Contents()
    {
      var bn, en := begin.node, end.node;
      var bo, eo := begin.cur - begin.first, end.cur - end.first;
      AddMul(bn, en - bn, B);
      AddMul(at, en - bn, B);
      RecentreMoves(Buf, B, Buf[bn], bn, en, at, size, bo, (en - bn) * B + eo, begin.cur, end.cur);
    }

    /**
     * reallocate_map_at_front(need): a map of max(2 * map_size_, map_size_ + need + 8) slots, the
     * need + live buffers centred in it, need fresh buffers in front of the live ones.  If a
     * buffer cannot be allocated the deque is left exactly as it was.
     */
    method ReallocateMapAtFront(need: nat, alloc: int -> bool) returns (ok: bool)
      requires Valid()
      modifies this
      ensures Valid() && Contents() == old(Contents()) && fresh(Repr - old(Repr))
      ensures ok ==> mapSize == Algorithm.Max(2 * old(mapSize), old(mapSize) + need + MapInitSize)
      ensures ok ==> begin.node == (mapSize - (old(end.node - begin.node) + 1 + need)) / 2 + need
      ensures ok ==> need <= begin.node
      ensures ok ==> end.node - begin.node == old(end.node - begin.node)
      ensures ok ==> begin.cur - begin.first == old(begin.cur - begin.first)
      ensures ok ==> end.cur - end.first == old(end.cur - end.first)
      ensures ok ==> forall i :: begin.node - need <= i < begin.node ==> 0 <= i && nodeMap[i] != null
      ensures !ok ==> nodeMap == old(nodeMap) && mapSize == old(mapSize) && begin == old(begin) && end == old(end)
      ensures !ok ==> Buf == old(Buf) && Cells == old(Cells) && Repr == old(Repr)
      ensures (forall i :: alloc(i)) ==> ok
    {
      var oldMap, oldSize, oldBegin, oldEnd := nodeMap, mapSize, begin, end;
      ghost var oldBuf, oldCells, oldRepr := Buf, Cells, Repr;
      var newSize := Algorithm.Max(2 * mapSize, mapSize + need + MapInitSize);
      var oldBuffer := end.node - begin.node + 1;
      var newBuffer := oldBuffer + need;
      var nb := (newSize - newBuffer) / 2;
      var mid := nb + need;
      Relocate(newSize, mid);
      ghost var c1 := Buf;
      ok := CreateBuffer(nb, mid - 1, alloc);
      if !ok {
        Install(oldMap, oldSize, oldBuf, oldCells, oldRepr, oldBegin, oldEnd);
        return;
      }
      LiveFrame(c1, Buf, B, begin.node, end.node, begin.cur, end.cur);
    }

    /**
     * reallocate_map_at_back(need): as ReallocateMapAtFront, with the need fresh buffers after
     * the live ones.
     */
    method ReallocateMapAtBack(need: nat, alloc: int -> bool) returns (ok: bool)
      requires Valid()
      modifies this
      ensures Valid() && Contents() == old(Contents()) && fresh(Repr - old(Repr))
      ensures ok ==> mapSize == Algorithm.Max(2 * old(mapSize), old(mapSize) + need + MapInitSize)
      ensures ok ==> begin.node == (mapSize - (old(end.node - begin.node) + 1 + need)) / 2
      ensures ok ==> end.node + need < mapSize
      ensures ok ==> end.node - begin.node == old(end.node - begin.node)
      ensures ok ==> begin.cur - begin.first == old(begin.cur - begin.first)
      ensures ok ==> end.cur - end.first == old(end.cur - end.first)
      ensures ok ==> forall i :: end.node < i <= end.node + need ==> i < mapSize && nodeMap[i] != null
      ensures !ok ==> nodeMap == old(nodeMap) && mapSize == old(mapSize) && begin == old(begin) && end == old(end)
      ensures !ok ==> Buf == old(Buf) && Cells == old(Cells) && Repr == old(Repr)
      ensures (forall i :: alloc(i)) ==> ok
    {
      var oldMap, oldSize, oldBegin, oldEnd := nodeMap, mapSize, begin, end;
      ghost var oldBuf, oldCells, oldRepr := Buf, Cells, Repr;
      var newSize := Algorithm.Max(2 * mapSize, mapSize + need + MapInitSize);
      var oldBuffer := end.node - begin.node + 1;
      var newBuffer := oldBuffer + need;
      var nb := (newSize - newBuffer) / 2;
      var mid := nb + oldBuffer;
      Relocate(newSize, nb);
      ghost var c1 := Buf;
      ok := CreateBuffer(mid, mid + need - 1, alloc);
      if !ok {
        Install(oldMap, oldSize, oldBuf, oldCells, oldRepr, oldBegin, oldEnd);
        return;
      }
      LiveFrame(c1, Buf, B, begin.node, end.node, begin.cur, end.cur);
    }

    /**
     * require_capacity(n, front): makes room for n more elements before begin (front) or after
     * end (back), allocating buffers in the free slots on that side or, when there are not
     * enough of them, reallocating the map.  The elements do not change.  need is computed with
     * the + 1 of the front case on both sides and the back reallocation is guarded by its test
     * (see RequireBackAsWrittenFallsShort for the code as written).
     */
    method RequireCapacity(n: nat, front: bool, alloc: int -> bool) returns (ok: bool)
      requires Valid()
      modifies Repr
      ensures Valid() && Contents() == old(Contents()) && fresh(Repr - old(Repr))
      ensures ok && front ==> n <= begin.cur && CellsAllocated(begin.cur - n, begin.cur)
      ensures ok && !front ==> end.cur + n < |Cells| && CellsAllocated(end.cur, end.cur + n + 1)
      ensures (forall i :: alloc(i)) ==> ok
    {
      ok := true;
      if front && begin.cur - begin.first < n {
        ok := ReserveFront(n, alloc);
      } else if !front && end.last - end.cur - 1 < n {
        ok := ReserveBack(n, alloc);
      } else if front {
        FrontFits(n);
      } else {
        BackFits(n);
      }
    }

    /** With n free cells before begin in its buffer, no buffer is needed. */
    lemma FrontFits(n: nat)
      requires Valid() && n <= begin.cur - begin.first
      ensures n <= begin.cur && CellsAllocated(begin.cur - n, begin.cur)
    {
      SlotsCells(begin.node, begin.node);
    }

    /** With n free cells after end in its buffer, no buffer is needed. */
    lemma BackFits(n: nat)
      requires Valid() && n <= end.last - end.cur - 1
      ensures end.cur + n < |Cells| && CellsAllocated(end.cur, end.cur + n + 1)
    {
      SlotsCells(end.node, end.node);
      MulMono(end.node + 1, mapSize, B);
      AddMul(end.node, 1, B);
    }

    /** The front half of require_capacity, when begin's buffer has fewer than n free cells before begin. */
    method ReserveFront(n: nat, alloc: int -> bool) returns (ok: bool)
      requires Valid() && begin.cur - begin.first < n
      modifies Repr
      ensures Valid() && Contents() == old(Contents()) && fresh(Repr - old(Repr))
      ensures ok ==> n <= begin.cur && CellsAllocated(begin.cur - n, begin.cur)
      ensures (forall i :: alloc(i)) ==> ok
    {
      var need := (n - (begin.cur - begin.first)) / B + 1;
      if need > begin.node {
        ok := ReallocateMapAtFront(need, alloc);
      } else {
        ghost var c1 := Buf;
        ok := CreateBuffer(begin.node - need, begin.node - 1, alloc);
        LiveFrame(c1, Buf, B, begin.node, end.node, begin.cur, end.cur);
      }
      if ok {
        FrontRoom(n, need);
      }
    }

    /** The back half of require_capacity, when end's buffer has fewer than n free cells after end. */
    method ReserveBack(n: nat, alloc: int -> bool) returns (ok: bool)
      requires Valid() && end.last - end.cur - 1 < n
      modifies Repr
      ensures Valid() && Contents() == old(Contents()) && fresh(Repr - old(Repr))
      ensures ok ==> end.cur + n < |Cells| && CellsAllocated(end.cur, end.cur + n + 1)
      ensures (forall i :: alloc(i)) ==> ok
    {
      var need := (n - (end.last - end.cur - 1)) / B + 1;
      if need > mapSize - end.node - 1 {
        ok := ReallocateMapAtBack(need, alloc);
      } else {
        ghost var c1 := Buf;
        ok := CreateBuffer(end.node + 1, end.node + need, alloc);
        LiveFrame(c1, Buf, B, begin.node, end.node, begin.cur, end.cur);
      }
      if ok {
        BackRoom(n, need);
      }
    }

    /** need = (n - (begin.cur - begin.first)) / B + 1 buffers before begin's hold the n cells before begin. */
    lemma FrontRoom(n: nat, need: int)
      requires Valid() && begin.cur - begin.first < n
      requires need == (n - (begin.cur - begin.first)) / B + 1 && 0 <= begin.node - need
      requires forall i :: begin.node - need <= i < begin.node ==> nodeMap[i] != null
      ensures n <= begin.cur && CellsAllocated(begin.cur - n, begin.cur)
    {
      NeedCovers(n - (begin.cur - begin.first), need, B);
      AddMul(begin.node - need, need, B);
      SlotsCells(begin.node - need, end.node);
    }

    /** need = (n - room) / B + 1 buffers after end's, room the free cells of end's buffer, hold the n cells after end. */
    lemma BackRoom(n: nat, need: int)
      requires Valid() && end.last - end.cur - 1 < n
      requires need == (n - (end.last - end.cur - 1)) / B + 1 && end.node + need < mapSize
      requires forall i :: end.node < i <= end.node + need ==> nodeMap[i] != null
      ensures end.cur + n < |Cells| && CellsAllocated(end.cur, end.cur + n + 1)
    {
      BackCells(end.node, end.cur, n, need, mapSize, B);
      SlotsCells(begin.node, end.node + need);
    }

    // -------------------------------------------------------------------------------------------
    // Adding and removing at the ends.

    /**
     * push_back(v) (and emplace_back, which constructs the same element in place): v becomes the
     * last element.  When end is the last cell of its buffer, require_capacity(1, false) first
     * makes sure the next slot holds a buffer; if that allocation fails nothing changes.
     */
    method PushBack(v: T, alloc: int -> bool) returns (ok: bool)
      requires Valid()
      modifies Repr
      ensures Valid() && fresh(Repr - old(Repr))
      ensures ok ==> Contents() == old(Contents()) + [v]
      ensures !ok ==> Contents() == old(Contents())
      ensures (forall i :: alloc(i)) ==> ok
    {
      if end.cur != end.last - 1 {
        BackFits(1);
      } else {
        ok := RequireCapacity(1, false, alloc);
        if !ok {
          return;
        }
      }
      StoreBack(v);
      ok := true;
    }

    /**
     * construct(end_.cur, v) then ++end_ (inside a buffer ++end_.cur, which is the same step):
     * the cell after end is already in a buffer.
     */
    method StoreBack(v: T)
      requires Valid() && CellsAllocated(end.cur, end.cur + 2)
      modifies nodeMap[end.node], this`Buf, this`Cells, this`end
      ensures Valid() && Contents() == old(Contents()) + [v]
      ensures Repr == old(Repr)
    {
      ghost var c := Cells;
      LiveBounds();
      WriteCell(end, v);
      SnocCell(c, begin.cur, end.cur, v);
      IterAllocated(Inc(end, B), end.cur, end.cur + 2);
      end := Inc(end, B);
    }

    /**
     * push_front(v) (and emplace_front): v becomes the first element.  constructs says whether
     * constructing the element succeeds.  When begin is the first cell of its buffer,
     * require_capacity(1, true) first makes sure the previous slot holds a buffer; the source
     * then steps begin back, and forward again if the construction throws, which leaves begin
     * where it was (IncDecInverse).  On any failure the elements are unchanged.
     */
    method PushFront(v: T, alloc: int -> bool, constructs: bool) returns (ok: bool)
      requires Valid()
      modifies Repr
      ensures Valid() && fresh(Repr - old(Repr))
      ensures ok ==> constructs && Contents() == [v] + old(Contents())
      ensures !ok ==> Contents() == old(Contents())
      ensures constructs && (forall i :: alloc(i)) ==> ok
    {
      if begin.cur != begin.first {
        FrontFits(1);
      } else {
        ok := RequireCapacity(1, true, alloc);
        if !ok {
          return;
        }
      }
      if !constructs {
        IncDecInverse(begin, B);
        return false;
      }
      StoreFront(v);
      ok := true;
    }

    /** --begin_ then construct(begin_.cur, v): the cell before begin is already in a buffer. */
    method StoreFront(v: T)
      requires Valid() && 1 <= begin.cur && CellsAllocated(begin.cur - 1, begin.cur)
      modifies nodeMap[Dec(begin, B).node], this`Buf, this`Cells, this`begin
      ensures Valid() && Contents() == [v] + old(Contents())
      ensures Repr == old(Repr)
    {
      ghost var c := Cells;
      LiveBounds();
      var nb := Dec(begin, B);
      IterAllocated(nb, begin.cur - 1, begin.cur);
      WriteCell(nb, v);
      ConsCell(c, begin.cur, end.cur, v);
      begin := nb;
    }

    /**
     * pop_front() on a non-empty deque: the first element goes.  When it was the last cell of its
     * buffer, begin moves to the next slot and the emptied buffer is released.
     */
    method PopFront()
      requires Valid() && Contents() != []
      modifies this, nodeMap
      ensures nodeMap == old(nodeMap) && mapSize == old(mapSize) && end == old(end)
      ensures Buf == old(Buf) && Cells == old(Cells) && Repr == old(Repr)
      ensures Valid() && Contents() == old(Contents())[1..]
      ensures old(begin.cur) == old(begin.last) - 1 ==> nodeMap[old(begin.node)] == null
      ensures forall i :: 0 <= i < mapSize && i != old(begin.node) ==> nodeMap[i] == old(nodeMap[i])
    {
      LiveBounds();
      DropFirstCells(Cells, begin.cur, end.cur, 1);
      if begin.cur != begin.last - 1 {
        begin := begin.(cur := begin.cur + 1);
      } else {
        NodeOrder(Inc(begin, B), end, B);
        begin := Inc(begin, B);
        DestroyBuffer(begin.node - 1, begin.node - 1);
      }
    }

    /**
     * pop_back() on a non-empty deque: the last element goes.  When end was the first cell of its
     * buffer, end moves back to the previous slot and the buffer it left is released.
     */
    method PopBack()
      requires Valid() && Contents() != []
      modifies this, nodeMap
      ensures nodeMap == old(nodeMap) && mapSize == old(mapSize) && begin == old(begin)
      ensures Buf == old(Buf) && Cells == old(Cells) && Repr == old(Repr)
      ensures Valid() && Contents() == old(Contents())[..|old(Contents())| - 1]
      ensures old(end.cur) == old(end.first) ==> nodeMap[old(end.node)] == null
      ensures forall i :: 0 <= i < mapSize && i != old(end.node) ==> nodeMap[i] == old(nodeMap[i])
    {
      LiveBounds();
      DropLastCells(Cells, begin.cur, end.cur, 1);
      if end.cur != end.first {
        end := end.(cur := end.cur - 1);
      } else {
        NodeOrder(begin, Dec(end, B), B);
        end := Dec(end, B);
        DestroyBuffer(end.node + 1, end.node + 1);
      }
    }

    // -------------------------------------------------------------------------------------------
    // Inserting and erasing one element.

    /**
     * insert(position, v): v goes in at position's index k, and the returned iterator points at
     * it.  At the front this is push_front and the result begin; at the back push_back and the
     * result end - 1; elsewhere insert_aux.
     */
    method Insert(pos: Iter, v: T, alloc: int -> bool, constructs: bool) returns (ok: bool, r: Iter)
      requires Valid() && Wf(pos, B) && begin.cur <= pos.cur <= end.cur
      modifies Repr
      ensures Valid() && fresh(Repr - old(Repr))
      ensures ok ==> Contents() == old(Contents()[..pos.cur - begin.cur] + [v] + Contents()[pos.cur - begin.cur..])
      ensures ok ==> Wf(r, B) && r.cur - begin.cur == old(pos.cur - begin.cur)
      ensures !ok ==> Contents() == old(Contents())
      ensures constructs && (forall i :: alloc(i)) ==> ok
    {
      ghost var s, k := Contents(), pos.cur - begin.cur;
      if pos.cur == begin.cur {
        ok := PushFront(v, alloc, constructs);
        r := begin;
      } else if pos.cur == end.cur {
        ok := PushBack(v, alloc);
        r := Dec(end, B);
        assert ok ==> s[..k] + [v] + s[k..] == s + [v];
      } else {
        ok, r := InsertAux(pos, v, alloc, constructs);
      }
    }

    /**
     * emplace(pos, v) as written: like insert, except that at the back it returns end, one past
     * the new element, where insert returns end - 1.
     */
    method Emplace(pos: Iter, v: T, alloc: int -> bool, constructs: bool) returns (ok: bool, r: Iter)
      requires Valid() && Wf(pos, B) && begin.cur <= pos.cur <= end.cur
      modifies Repr
      ensures Valid() && fresh(Repr - old(Repr))
      ensures ok ==> Contents() == old(Contents()[..pos.cur - begin.cur] + [v] + Contents()[pos.cur - begin.cur..])
      ensures ok && old(pos.cur == begin.cur || pos.cur != end.cur) ==>
                Wf(r, B) && r.cur - begin.cur == old(pos.cur - begin.cur)
      ensures ok && old(pos.cur != begin.cur && pos.cur == end.cur) ==>
                r == end && r.cur - begin.cur == old(pos.cur - begin.cur) + 1
      ensures !ok ==> Contents() == old(Contents())
      ensures constructs && (forall i :: alloc(i)) ==> ok
    {
      ghost var s, k := Contents(), pos.cur - begin.cur;
      if pos.cur == begin.cur {
        ok := PushFront(v, alloc, constructs);
        r := begin;
      } else if pos.cur == end.cur {
        ok := PushBack(v, alloc);
        r := end;
        assert ok ==> s[..k] + [v] + s[k..] == s + [v];
      } else {
        ok, r := InsertAux(pos, v, alloc, constructs);
      }
    }

    /**
     * insert_aux(position, v) for a position strictly inside the deque: the shorter side moves by
     * one cell to make room, and v is stored at index k = position - begin.
     */
    method InsertAux(pos: Iter, v: T, alloc: int -> bool, constructs: bool) returns (ok: bool, r: Iter)
      requires Valid() && Wf(pos, B) && begin.cur < pos.cur < end.cur
      modifies Repr
      ensures Valid() && fresh(Repr - old(Repr))
      ensures ok ==> Contents() == old(Contents()[..pos.cur - begin.cur] + [v] + Contents()[pos.cur - begin.cur..])
      ensures ok ==> Wf(r, B) && r.cur - begin.cur == old(pos.cur - begin.cur)
      ensures !ok ==> Contents() == old(Contents())
      ensures constructs && (forall i :: alloc(i)) ==> ok
    {
      var k := Diff(pos, begin, B);
      if k < Size() / 2 {
        ok, r := InsertNearFront(k, v, alloc, constructs);
      } else {
        ok, r := InsertNearBack(k, v, alloc);
      }
    }

    /**
     * The front branch of insert_aux: emplace_front(front()) duplicates the first element, the
     * elements at indices 1 .. k - 1 of the old sequence move one cell forward (copy of
     * [begin + 2, begin + k + 1) to begin + 1), and v is stored at begin + k.
     */
    method InsertNearFront(k: int, v: T, alloc: int -> bool, constructs: bool) returns (ok: bool, r: Iter)
      requires Valid() && 0 < k < |Contents()|
      modifies Repr
      ensures Valid() && fresh(Repr - old(Repr))
      ensures ok ==> Contents() == old(Contents()[..k] + [v] + Contents()[k..])
      ensures ok ==> Wf(r, B) && r.cur == begin.cur + k
      ensures !ok ==> Contents() == old(Contents())
      ensures constructs && (forall i :: alloc(i)) ==> ok
    {
      ghost var s := Contents();
      r := begin;
      ok := PushFront(Front(), alloc, constructs);
      if ok {
        r := ShiftFront(k, v, s);
      }
    }

    /** What insert_aux does after emplace_front(front()) turned the elements s into [s[0]] + s. */
    method ShiftFront(k: int, v: T, ghost s: seq<T>) returns (r: Iter)
      requires Valid() && 0 < k < |s| && Contents() == [s[0]] + s
      modifies Repr - {this}, this`Buf, this`Cells
      ensures Valid() && Repr == old(Repr) && begin == old(begin) && end == old(end)
      ensures Contents() == s[..k] + [v] + s[k..]
      ensures Wf(r, B) && r.cur == begin.cur + k
    {
      LiveBounds();
      r := Plus(begin, k, B);
      InsertFrontCells(begin, end, r, k, v, s);
    }

    /** ShiftFront on the cells [lo, hi) that hold [s[0]] + s, with r at index k. */
    method InsertFrontCells(lo: Iter, hi: Iter, r: Iter, k: int, v: T, ghost s: seq<T>)
      requires Storage() && Wf(lo, B) && Wf(hi, B) && Wf(r, B) && 0 <= lo.cur <= hi.cur < |Cells|
      requires CellsAllocated(lo.cur, hi.cur + 1)
      requires 0 < k < |s| && Cells[lo.cur..hi.cur] == [s[0]] + s && r.cur == lo.cur + k
      modifies Repr - {this}, this`Buf, this`Cells
      ensures Storage() && unchanged(nodeMap)
      ensures Cells[lo.cur..hi.cur] == s[..k] + [v] + s[k..]
    {
      var front1 := Inc(lo, B);
      var front2 := Inc(front1, B);
      var pos := Inc(r, B);
      ghost var c1 := Cells;
      var moved := CopyWithin(front2, pos, front1, lo.cur, hi.cur + 1);
      IterAllocated(r, lo.cur, hi.cur + 1);
      WriteCell(r, v);
      InsertAuxFront(c1, lo.cur, hi.cur, s, k, v, front1.cur, front2.cur, r.cur, pos.cur);
    }

    /**
     * The back branch of insert_aux: emplace_back(back()) duplicates the last element, the
     * elements from index k up to the old last move one cell back (copy_backward of
     * [begin + k, end - 2) to end at end - 1), and v is stored at begin + k.
     */
    method InsertNearBack(k: int, v: T, alloc: int -> bool) returns (ok: bool, r: Iter)
      requires Valid() && 0 <= k < |Contents()|
      modifies Repr
      ensures Valid() && fresh(Repr - old(Repr))
      ensures ok ==> Contents() == old(Contents()[..k] + [v] + Contents()[k..])
      ensures ok ==> Wf(r, B) && r.cur == begin.cur + k
      ensures !ok ==> Contents() == old(Contents())
      ensures (forall i :: alloc(i)) ==> ok
    {
      ghost var s := Contents();
      r := begin;
      ok := PushBack(Back(), alloc);
      if ok {
        r := ShiftBack(k, v, s);
      }
    }

    /** What insert_aux does after emplace_back(back()) turned the elements s into s + [last of s]. */
    method ShiftBack(k: int, v: T, ghost s: seq<T>) returns (r: Iter)
      requires Valid() && 0 <= k < |s| && Contents() == s + [s[|s| - 1]]
      modifies Repr - {this}, this`Buf, this`Cells
      ensures Valid() && Repr == old(Repr) && begin == old(begin) && end == old(end)
      ensures Contents() == s[..k] + [v] + s[k..]
      ensures Wf(r, B) && r.cur == begin.cur + k
    {
      LiveBounds();
      r := Plus(begin, k, B);
      InsertBackCells(begin, end, r, k, v, s);
    }

    /** ShiftBack on the cells [lo, hi) that hold s + [last of s], with r at index k. */
    method InsertBackCells(lo: Iter, hi: Iter, r: Iter, k: int, v: T, ghost s: seq<T>)
      requires Storage() && Wf(lo, B) && Wf(hi, B) && Wf(r, B) && 0 <= lo.cur <= hi.cur < |Cells|
      requires CellsAllocated(lo.cur, hi.cur + 1)
      requires 0 <= k < |s| && Cells[lo.cur..hi.cur] == s + [s[|s| - 1]] && r.cur == lo.cur + k
      modifies Repr - {this}, this`Buf, this`Cells
      ensures Storage() && unchanged(nodeMap)
      ensures Cells[lo.cur..hi.cur] == s[..k] + [v] + s[k..]
    {
      var back1 := Dec(hi, B);
      var back2 := Dec(back1, B);
      ghost var c1 := Cells;
      var moved := CopyBackwardWithin(r, back2, back1, lo.cur, hi.cur + 1);
      IterAllocated(r, lo.cur, hi.cur + 1);
      WriteCell(r, v);
      InsertAuxBack(c1, lo.cur, hi.cur, s, k, v, r.cur, back2.cur, back1.cur);
    }

    /**
     * erase(position) for a dereferenceable position at index k: the shorter side moves one cell
     * over the erased element and the cell it leaves is popped; the result is begin + k.  The
     * front move is a copy_backward (see EraseFrontAsWritten for the forward copy as written).
     */
    method Erase(pos: Iter) returns (r: Iter)
      requires Valid() && Wf(pos, B) && begin.cur <= pos.cur < end.cur
      modifies Repr
      ensures Valid() && Repr == old(Repr)
      ensures Contents() == old(Contents()[..pos.cur - begin.cur] + Contents()[pos.cur - begin.cur + 1..])
      ensures Wf(r, B) && r.cur - begin.cur == old(pos.cur - begin.cur)
    {
      var k := Diff(pos, begin, B);
      if k < Size() / 2 {
        ShiftForward(k, 1);
        PopFront();
      } else {
        ShiftBackward(k, 1);
        PopBack();
      }
      r := Plus(begin, k, B);
    }

    /**
     * erase(first, last): the elements of [first, last), indices i to j, go and the result is
     * begin + i.  Erasing everything is clear() (and the result end); otherwise the shorter side
     * moves over the gap and begin or end moves by j - i.  No buffer is released here.
     */
    method EraseRange(first: Iter, last: Iter) returns (r: Iter)
      requires Valid() && Wf(first, B) && Wf(last, B) && begin.cur <= first.cur <= last.cur <= end.cur
      modifies Repr
      ensures Valid() && Repr == old(Repr)
      ensures Contents() == old(Contents()[..first.cur - begin.cur] + Contents()[last.cur - begin.cur..])
      ensures Wf(r, B) && r.cur - begin.cur == old(first.cur - begin.cur)
    {
      ghost var s := Contents();
      if Eq(first, begin) && Eq(last, end) {
        Clear();
        r := end;
        assert s[..0] + s[|s|..] == [];
      } else {
        r := EraseGap(Diff(first, begin, B), Diff(last, first, B));
      }
    }

    /** The branches of erase(first, last) that move elements: len elements from index k go. */
    method EraseGap(k: int, len: int) returns (r: Iter)
      requires Valid() && 0 <= k && 0 <= len && k + len <= |Contents()|
      modifies Repr
      ensures Valid() && Repr == old(Repr)
      ensures Contents() == old(Contents()[..k] + Contents()[k + len..])
      ensures Wf(r, B) && r.cur == begin.cur + k
    {
      if k < (Size() - len) / 2 {
        ShiftForward(k, len);
        DropFront(len);
      } else {
        ShiftBackward(k, len);
        DropBack(len);
      }
      r := Plus(begin, k, B);
    }

    /**
     * clear(): no elements are left; begin stays, end moves to it, and shrink_to_fit releases
     * every buffer outside the slots the elements occupied.
     */
    method Clear()
      requires Valid()
      modifies this, nodeMap
      ensures nodeMap == old(nodeMap) && mapSize == old(mapSize) && begin == old(begin) && end == begin
      ensures Buf == old(Buf) && Cells == old(Cells) && Repr == old(Repr)
      ensures Valid() && Contents() == []
      ensures forall i :: 0 <= i < mapSize ==>
                nodeMap[i] == if old(begin.node) <= i <= old(end.node) then old(nodeMap[i]) else null
    {
      ShrinkToFit();
      end := begin;
    }

    /**
     * copy_backward(begin, begin + k, begin + k + len): the first k elements move len cells
     * forward, after which the elements from index len are the old ones without [k, k + len).
     */
    method ShiftForward(k: int, len: int)
      requires Valid() && 0 <= k && 0 <= len && k + len <= |Contents()|
      modifies Repr - {this}, this`Buf, this`Cells
      ensures Valid() && Repr == old(Repr) && begin == old(begin) && end == old(end)
      ensures Contents()[len..] == old(Contents()[..k] + Contents()[k + len..])
    {
      LiveBounds();
      EraseFrontCells(begin, end, k, len, Contents());
    }

    /** ShiftForward on the cells [lo, hi) that hold s. */
    method EraseFrontCells(lo: Iter, hi: Iter, k: int, len: int, ghost s: seq<T>)
      requires Storage() && Wf(lo, B) && Wf(hi, B) && 0 <= lo.cur <= hi.cur < |Cells|
      requires CellsAllocated(lo.cur, hi.cur + 1)
      requires 0 <= k && 0 <= len && k + len <= |s| && Cells[lo.cur..hi.cur] == s
      modifies Repr - {this}, this`Buf, this`Cells
      ensures Storage() && unchanged(nodeMap)
      ensures Cells[lo.cur..hi.cur][len..] == s[..k] + s[k + len..]
    {
      ghost var c1 := Cells;
      var first := Plus(lo, k, B);
      var last := Plus(lo, k + len, B);
      var moved := CopyBackwardWithin(lo, first, last, lo.cur, hi.cur + 1);
      EraseShiftFront(c1, lo.cur, hi.cur, s, k, len, first.cur, last.cur);
    }

    /**
     * copy(begin + k + len, end, begin + k): the elements after index k + len move len cells
     * back, after which all but the last len elements are the old ones without [k, k + len).
     */
    method ShiftBackward(k: int, len: int)
      requires Valid() && 0 <= k && 0 <= len && k + len <= |Contents()|
      modifies Repr - {this}, this`Buf, this`Cells
      ensures Valid() && Repr == old(Repr) && begin == old(begin) && end == old(end)
      ensures Contents()[..|Contents()| - len] == old(Contents()[..k] + Contents()[k + len..])
    {
      LiveBounds();
      EraseBackCells(begin, end, k, len, Contents());
    }

    /** ShiftBackward on the cells [lo, hi) that hold s. */
    method EraseBackCells(lo: Iter, hi: Iter, k: int, len: int, ghost s: seq<T>)
      requires Storage() && Wf(lo, B) && Wf(hi, B) && 0 <= lo.cur <= hi.cur < |Cells|
      requires CellsAllocated(lo.cur, hi.cur + 1)
      requires 0 <= k && 0 <= len && k + len <= |s| && Cells[lo.cur..hi.cur] == s
      modifies Repr - {this}, this`Buf, this`Cells
      ensures Storage() && unchanged(nodeMap)
      ensures Cells[lo.cur..hi.cur][..hi.cur - lo.cur - len] == s[..k] + s[k + len..]
    {
      ghost var c1 := Cells;
      var first := Plus(lo, k, B);
      var last := Plus(lo, k + len, B);
      var moved := CopyWithin(last, hi, first, lo.cur, hi.cur + 1);
      EraseShiftBack(c1, lo.cur, hi.cur, s, k, len, first.cur, last.cur);
    }

    /** begin = begin + len: the first len elements are no longer part of the deque. */
    method DropFront(len: int)
      requires Valid() && 0 <= len <= |Contents()|
      modifies this`begin
      ensures Valid() && Contents() == old(Contents())[len..]
      ensures begin.cur == old(begin.cur) + len
    {
      LiveBounds();
      DropFirstCells(Cells, begin.cur, end.cur, len);
      var nb := Plus(begin, len, B);
      NodeOrder(begin, nb, B);
      NodeOrder(nb, end, B);
      begin := nb;
    }

    /** end = end - len: the last len elements are no longer part of the deque. */
    method DropBack(len: int)
      requires Valid() && 0 <= len <= |Contents()|
      modifies this`end
      ensures Valid() && Contents() == old(Contents())[..|old(Contents())| - len]
      ensures end.cur == old(end.cur) - len
    {
      LiveBounds();
      DropLastCells(Cells, begin.cur, end.cur, len);
      var ne := Minus(end, len, B);
      NodeOrder(begin, ne, B);
      NodeOrder(ne, end, B);
      end := ne;
    }

    // -------------------------------------------------------------------------------------------
    // Inserting several elements.

    /** The addresses [lo.cur, hi.cur) lie in buffers and hi's slot holds one: so does every slot between. */
    lemma SlotsOfCells(lo: Iter, hi: Iter)
      requires Storage() && Wf(lo, B) && Wf(hi, B) && lo.cur <= hi.cur
      requires CellsAllocated(lo.cur, hi.cur) && Allocated(hi.node)
      ensures 0 <= lo.node <= hi.node < mapSize
      ensures SpansOf(lo, hi)
    {
      forall i | lo.node <= i < hi.node
        ensures Allocated(i)
      {
        var p := CellOfSlot(lo, hi, i, B);
        assert Allocated(NodeOf(p, B));
      }
      NodeOrder(lo, hi, B);
      if lo.node < hi.node {
        assert Allocated(lo.node);
      }
      assert Allocated(hi.node);
      forall i | lo.node <= i <= hi.node
        ensures nodeMap[i] != null
      {
        assert Allocated(i);
      }
    }

    /**
     * uninitialized_copy(first, last, begin_ - n) then begin_ = begin_ - n: the n cells before
     * begin, already in buffers, receive vals, which become the first elements.
     */
    method StoreBefore(vals: seq<T>)
      requires Valid() && |vals| <= begin.cur && CellsAllocated(begin.cur - |vals|, begin.cur)
      modifies Repr - {this}, this`Buf, this`Cells, this`begin
      ensures Repr == old(Repr) && end == old(end)
      ensures Valid() && Contents() == vals + old(Contents())
    {
      LiveBounds();
      ghost var c := Cells;
      var nb := Minus(begin, |vals|, B);
      SlotsOfCells(nb, begin);
      JoinSpans(nb, begin, end);
      var r := WriteRange(nb, vals, begin.cur - |vals|, begin.cur);
      OverwriteBefore(c, begin.cur, end.cur, vals);
      begin := nb;
    }

    /**
     * uninitialized_copy(first, last, end_) then end_ = end_ + n: the n cells after end, and
     * the cell the new end points at, are already in buffers; vals become the last elements.
     */
    method StoreAfter(vals: seq<T>)
      requires Valid() && end.cur + |vals| < |Cells| && CellsAllocated(end.cur, end.cur + |vals| + 1)
      modifies Repr - {this}, this`Buf, this`Cells, this`end
      ensures Repr == old(Repr) && begin == old(begin)
      ensures Valid() && Contents() == old(Contents()) + vals
    {
      LiveBounds();
      ghost var c := Cells;
      var ne := Plus(end, |vals|, B);
      NodeOfCell(ne, B);
      assert Allocated(NodeOf(ne.cur, B));
      SlotsOfCells(end, ne);
      JoinSpans(begin, end, ne);
      var r := WriteRange(end, vals, end.cur, end.cur + |vals| + 1);
      OverwriteAfter(c, begin.cur, end.cur, vals);
      end := ne;
    }

    /** The front branch of both insert(position, ...) overloads: require_capacity, then vals go before begin. */
    method InsertAtFront(vals: seq<T>, alloc: int -> bool) returns (ok: bool)
      requires Valid()
      modifies Repr
      ensures Valid() && fresh(Repr - old(Repr))
      ensures Contents() == if ok then vals + old(Contents()) else old(Contents())
      ensures (forall i :: alloc(i)) ==> ok
    {
      ok := RequireCapacity(|vals|, true, alloc);
      if ok {
        StoreBefore(vals);
      }
    }

    /** The back branch of both insert(position, ...) overloads: require_capacity, then vals go after end. */
    method InsertAtBack(vals: seq<T>, alloc: int -> bool) returns (ok: bool)
      requires Valid()
      modifies Repr
      ensures Valid() && fresh(Repr - old(Repr))
      ensures Contents() == if ok then old(Contents()) + vals else old(Contents())
      ensures (forall i :: alloc(i)) ==> ok
    {
      ok := RequireCapacity(|vals|, false, alloc);
      if ok {
        StoreAfter(vals);
      }
    }

    /**
     * insert(position, n, value): n copies of value go in at position's index.  At the front or
     * the back require_capacity makes room and the copies are stored there; elsewhere
     * fill_insert.  When an allocation fails the elements are unchanged.
     */
    method InsertFill(pos: Iter, n: nat, v: T, alloc: int -> bool) returns (ok: bool)
      requires Valid() && Wf(pos, B) && begin.cur <= pos.cur <= end.cur
      modifies Repr
      ensures Valid() && fresh(Repr - old(Repr))
      ensures ok ==> Contents() == old(Contents()[..pos.cur - begin.cur]) + Repeat(v, n) + old(Contents()[pos.cur - begin.cur..])
      ensures !ok ==> Contents() == old(Contents())
      ensures (forall i :: alloc(i)) ==> ok
    {
      ghost var s := Contents();
      if pos.cur == begin.cur {
        ok := InsertAtFront(Repeat(v, n), alloc);
        assert s[..0] == [] && s[0..] == s;
      } else if pos.cur == end.cur {
        ok := InsertAtBack(Repeat(v, n), alloc);
        assert s[..|s|] == s && s[|s|..] == [];
      } else {
        ok := FillInsert(Diff(pos, begin, B), n, v, alloc);
      }
    }

    /**
     * fill_insert(position, n, value) for the position at index k: branch for branch it writes
     * the same cells as copy_insert of n copies of value (the long branches fill where
     * copy_insert copies, the short ones fill the two pieces copy_insert copies from its range).
     */
    method FillInsert(k: int, n: nat, v: T, alloc: int -> bool) returns (ok: bool)
      requires Valid() && 0 <= k <= |Contents()|
      modifies Repr
      ensures Valid() && fresh(Repr - old(Repr))
      ensures ok ==> Contents() == old(Contents()[..k]) + Repeat(v, n) + old(Contents()[k..])
      ensures !ok ==> Contents() == old(Contents())
      ensures (forall i :: alloc(i)) ==> ok
    {
      ok := CopyInsert(k, Repeat(v, n), alloc);
    }

    /**
     * insert(position, first, last) on a forward range, held here as the sequence vals: nothing
     * happens for an empty range; at the front or the back require_capacity makes room and the
     * range is stored there; elsewhere copy_insert.  When an allocation fails the elements are
     * unchanged.
     */
    method InsertRange(pos: Iter, vals: seq<T>, alloc: int -> bool) returns (ok: bool)
      requires Valid() && Wf(pos, B) && begin.cur <= pos.cur <= end.cur
      modifies Repr
      ensures Valid() && fresh(Repr - old(Repr))
      ensures ok ==> Contents() == old(Contents()[..pos.cur - begin.cur]) + vals + old(Contents()[pos.cur - begin.cur..])
      ensures !ok ==> Contents() == old(Contents())
      ensures (forall i :: alloc(i)) ==> ok
    {
      ghost var s, k := Contents(), pos.cur - begin.cur;
      if |vals| == 0 {
        ok := true;
        assert s[..k] + vals + s[k..] == s;
      } else if pos.cur == begin.cur {
        ok := InsertAtFront(vals, alloc);
        assert s[..0] == [] && s[0..] == s;
      } else if pos.cur == end.cur {
        ok := InsertAtBack(vals, alloc);
        assert s[..|s|] == s && s[|s|..] == [];
      } else {
        ok := CopyInsert(Diff(pos, begin, B), vals, alloc);
      }
    }

    /**
     * copy_insert(position, first, last, n) for the position at index k: the shorter side makes
     * room (k < size / 2 means the front), require_capacity reserves n cells on that side, and
     * one of four copy patterns moves the elements and stores vals.
     */
    method CopyInsert(k: int, vals: seq<T>, alloc: int -> bool) returns (ok: bool)
      requires Valid() && 0 <= k <= |Contents()|
      modifies Repr
      ensures Valid() && fresh(Repr - old(Repr))
      ensures ok ==> Contents() == old(Contents()[..k]) + vals + old(Contents()[k..])
      ensures !ok ==> Contents() == old(Contents())
      ensures (forall i :: alloc(i)) ==> ok
    {
      if k < Size() / 2 {
        ok := RequireCapacity(|vals|, true, alloc);
        if ok {
          GrowFront(k, vals);
        }
      } else {
        ok := RequireCapacity(|vals|, false, alloc);
        if ok {
          GrowBack(k, vals);
        }
      }
    }

    /**
     * The front branch of copy_insert once require_capacity has made room for n = |vals| cells
     * before begin: the elements before the position and vals are laid out from begin - n, and
     * begin_ = new_begin.
     */
    method GrowFront(k: int, vals: seq<T>)
      requires Valid() && 0 <= k <= |Contents()|
      requires |vals| <= begin.cur && CellsAllocated(begin.cur - |vals|, begin.cur)
      modifies Repr - {this}, this`Buf, this`Cells, this`begin
      ensures Repr == old(Repr) && end == old(end)
      ensures Valid() && Contents() == old(Contents()[..k]) + vals + old(Contents()[k..])
    {
      LiveBounds();
      var newBegin := Minus(begin, |vals|, B);
      SlotsOfCells(newBegin, begin);
      JoinSpans(newBegin, begin, end);
      CellsJoin(begin.cur - |vals|, begin.cur, begin.cur, end.cur + 1, end.cur);
      SpliceFront(begin, end, k, vals);
      begin := newBegin;
    }

    /**
     * The back branch of copy_insert once require_capacity has made room for n = |vals| cells
     * after end: the elements from the position on and vals are laid out up to end + n, and
     * end_ = new_end.
     */
    method GrowBack(k: int, vals: seq<T>)
      requires Valid() && 0 <= k <= |Contents()|
      requires end.cur + |vals| < |Cells| && CellsAllocated(end.cur, end.cur + |vals| + 1)
      modifies Repr - {this}, this`Buf, this`Cells, this`end
      ensures Repr == old(Repr) && begin == old(begin)
      ensures Valid() && Contents() == old(Contents()[..k]) + vals + old(Contents()[k..])
    {
      LiveBounds();
      var newEnd := Plus(end, |vals|, B);
      NodeOfCell(newEnd, B);
      assert Allocated(NodeOf(newEnd.cur, B));
      SlotsOfCells(end, newEnd);
      JoinSpans(begin, end, newEnd);
      CellsJoin(begin.cur, end.cur + 1, end.cur, end.cur + |vals| + 1, end.cur + |vals|);
      SpliceBack(begin, end, k, vals);
      end := newEnd;
    }

    /** Addresses [a, m1) and [m2, c) lie in buffers, and the ranges overlap or touch: so does [a, d) for d <= c. */
    lemma CellsJoin(a: int, m1: int, m2: int, c: int, d: int)
      requires B > 0 && CellsAllocated(a, m1) && CellsAllocated(m2, c) && m2 <= m1 && d <= c
      ensures CellsAllocated(a, d)
    {
    }

    /** copy_insert's front branch on the cells [lo, hi): the long or the short case, by k against n = |vals|. */
    method SpliceFront(lo: Iter, hi: Iter, k: int, vals: seq<T>)
      requires Storage() && Wf(lo, B) && Wf(hi, B) && |vals| <= lo.cur && 0 <= k <= hi.cur - lo.cur
      requires hi.cur <= |Cells| && CellsAllocated(lo.cur - |vals|, hi.cur)
      modifies Repr - {this}, this`Buf, this`Cells
      ensures Storage() && unchanged(nodeMap)
      ensures Cells[lo.cur - |vals|..hi.cur] == old(Cells[lo.cur..hi.cur][..k]) + vals + old(Cells[lo.cur..hi.cur][k..])
    {
      if k >= |vals| {
        SpliceFrontLong(lo, hi, k, vals);
      } else {
        SpliceFrontShort(lo, hi, k, vals);
      }
    }

    /** copy_insert's back branch on the cells [lo, hi): the long or the short case, by the elements after k against n. */
    method SpliceBack(lo: Iter, hi: Iter, k: int, vals: seq<T>)
      requires Storage() && Wf(lo, B) && Wf(hi, B) && 0 <= lo.cur && 0 <= k <= hi.cur - lo.cur
      requires hi.cur + |vals| <= |Cells| && CellsAllocated(lo.cur, hi.cur + |vals|)
      modifies Repr - {this}, this`Buf, this`Cells
      ensures Storage() && unchanged(nodeMap)
      ensures Cells[lo.cur..hi.cur + |vals|] == old(Cells[lo.cur..hi.cur][..k]) + vals + old(Cells[lo.cur..hi.cur][k..])
    {
      if hi.cur - lo.cur - k > |vals| {
        SpliceBackLong(lo, hi, k, vals);
      } else {
        SpliceBackShort(lo, hi, k, vals);
      }
    }

    /**
     * copy_insert towards the front with at least n = |vals| of the elements [lo, hi) before
     * the position lo + k: uninitialized_copy(begin_, begin_n, new_begin) moves the first n to
     * the n cells before lo, copy(begin_n, position, old_begin) moves the next k - n after them,
     * and copy(first, last, position - n) stores vals.
     */
    method SpliceFrontLong(lo: Iter, hi: Iter, k: int, vals: seq<T>)
      requires Storage() && Wf(lo, B) && Wf(hi, B) && |vals| <= lo.cur && |vals| <= k <= hi.cur - lo.cur
      requires hi.cur <= |Cells| && CellsAllocated(lo.cur - |vals|, hi.cur)
      modifies Repr - {this}, this`Buf, this`Cells
      ensures Storage() && unchanged(nodeMap)
      ensures Cells[lo.cur - |vals|..hi.cur] == old(Cells[lo.cur..hi.cur][..k]) + vals + old(Cells[lo.cur..hi.cur][k..])
    {
      var n := |vals|;
      ghost var c0 := Cells;
      var newBegin := Minus(lo, n, B);
      var position := Plus(lo, k, B);
      MoveFrontBlock(lo, hi, newBegin, position, k, n);
      ghost var c2 := Cells;
      var posN := Minus(position, n, B);
      var r3 := WriteRange(posN, vals, lo.cur - n, hi.cur);
      FrontLongStore(c0, c2, Cells, lo.cur, hi.cur, k, vals, newBegin.cur, position.cur, posN.cur);
    }

    /**
     * uninitialized_copy(begin_, begin_n, new_begin) then copy(begin_n, position, old_begin):
     * the k elements [lo, position) move n cells back.
     */
    method MoveFrontBlock(lo: Iter, hi: Iter, newBegin: Iter, position: Iter, k: int, n: int)
      requires Storage() && Wf(lo, B) && Wf(hi, B) && Wf(newBegin, B) && Wf(position, B)
      requires 0 <= n <= lo.cur && n <= k <= hi.cur - lo.cur && hi.cur <= |Cells| && CellsAllocated(lo.cur - n, hi.cur)
      requires newBegin.cur == lo.cur - n && position.cur == lo.cur + k
      modifies Repr - {this}, this`Buf, this`Cells
      ensures Storage() && unchanged(nodeMap)
      ensures Cells == Overwrite(old(Cells), newBegin.cur, old(Cells)[lo.cur..position.cur])
    {
      ghost var c0 := Cells;
      var beginN := Plus(lo, n, B);
      var r1 := CopyWithin(lo, beginN, newBegin, lo.cur - n, hi.cur);
      ghost var c1 := Cells;
      var r2 := CopyWithin(beginN, position, lo, lo.cur - n, hi.cur);
      FrontLongMoves(c0, c1, Cells, lo.cur, k, n, newBegin.cur, lo.cur, beginN.cur, lo.cur, beginN.cur, position.cur);
    }

    /**
     * copy_insert towards the front with fewer than n = |vals| of the elements [lo, hi) before
     * the position lo + k: uninitialized_copy(begin_, position, new_begin) moves those k to the
     * cells from lo - n, the first n - k values follow them (mid = first + (n - k)), and
     * copy(mid, last, old_begin) stores the other k values from lo.
     */
    method SpliceFrontShort(lo: Iter, hi: Iter, k: int, vals: seq<T>)
      requires Storage() && Wf(lo, B) && Wf(hi, B) && |vals| <= lo.cur && 0 <= k < |vals| && k <= hi.cur - lo.cur
      requires hi.cur <= |Cells| && CellsAllocated(lo.cur - |vals|, hi.cur)
      modifies Repr - {this}, this`Buf, this`Cells
      ensures Storage() && unchanged(nodeMap)
      ensures Cells[lo.cur - |vals|..hi.cur] == old(Cells[lo.cur..hi.cur][..k]) + vals + old(Cells[lo.cur..hi.cur][k..])
    {
      var n := |vals|;
      ghost var c0 := Cells;
      var newBegin := Minus(lo, n, B);
      var position := Plus(lo, k, B);
      var r1 := CopyWithin(lo, position, newBegin, lo.cur - n, hi.cur);
      ghost var c1 := Cells;
      var r2 := WriteRange(r1, vals[..n - k], lo.cur - n, hi.cur);
      ghost var c2 := Cells;
      var r3 := WriteRange(lo, vals[n - k..], lo.cur - n, hi.cur);
      CopyInsertFrontShort(c0, c1, c2, Cells, lo.cur, hi.cur, k, vals, newBegin.cur, lo.cur, position.cur, r1.cur);
    }

    /**
     * copy_insert towards the back with more than n = |vals| of the elements [lo, hi) from the
     * position lo + k on: those elements move n cells back (OpenGap) and copy(first, last,
     * position) stores vals.
     */
    method SpliceBackLong(lo: Iter, hi: Iter, k: int, vals: seq<T>)
      requires Storage() && Wf(lo, B) && Wf(hi, B) && 0 <= lo.cur && 0 <= k && k + |vals| < hi.cur - lo.cur
      requires hi.cur + |vals| <= |Cells| && CellsAllocated(lo.cur, hi.cur + |vals|)
      modifies Repr - {this}, this`Buf, this`Cells
      ensures Storage() && unchanged(nodeMap)
      ensures Cells[lo.cur..hi.cur + |vals|] == old(Cells[lo.cur..hi.cur][..k]) + vals + old(Cells[lo.cur..hi.cur][k..])
    {
      ghost var c0 := Cells;
      var position := Plus(lo, k, B);
      OpenGap(position, hi, |vals|);
      assert CellsAllocated(lo.cur, hi.cur + |vals|);
      ghost var c2 := Cells;
      var r := WriteRange(position, vals, lo.cur, hi.cur + |vals|);
      CopyInsertBackLong(c0, c2, Cells, lo.cur, hi.cur, k, vals, position.cur);
    }

    /**
     * uninitialized_copy(end_n, end_, end_) then copy_backward(position, end_n, old_end): the
     * elements [first, hi), more than n of them, move n cells back into [first + n, hi + n).
     */
    method OpenGap(first: Iter, hi: Iter, n: int)
      requires Storage() && Wf(first, B) && Wf(hi, B) && 0 <= first.cur && 0 <= n && first.cur + n < hi.cur
      requires hi.cur + n <= |Cells| && CellsAllocated(first.cur, hi.cur + n)
      modifies Repr - {this}, this`Buf, this`Cells
      ensures Storage() && unchanged(nodeMap)
      ensures Cells == Overwrite(old(Cells), first.cur + n, old(Cells)[first.cur..hi.cur])
    {
      ghost var c0 := Cells;
      var endN := OpenGapTail(first, hi, n);
      ghost var c1 := Cells;
      OpenGapBody(first, endN, hi, n);
      OpenGapBack(c0, c1, Cells, first.cur, hi.cur, n, endN.cur, hi.cur - (endN.cur - first.cur), endN.cur);
    }

    /** end_n = end_ - n, then uninitialized_copy(end_n, end_, end_): the last n elements of [first, hi) go to [hi, hi + n). */
    method OpenGapTail(first: Iter, hi: Iter, n: int) returns (endN: Iter)
      requires Storage() && Wf(hi, B) && 0 <= first.cur && 0 <= n && first.cur + n < hi.cur
      requires hi.cur + n <= |Cells| && CellsAllocated(first.cur, hi.cur + n)
      modifies Repr - {this}, this`Buf, this`Cells
      ensures Wf(endN, B) && endN.cur == hi.cur - n
      ensures Storage() && unchanged(nodeMap) && CellsAllocated(first.cur, hi.cur + n)
      ensures Cells == Overwrite(old(Cells), hi.cur, old(Cells)[endN.cur..hi.cur])
    {
      endN := Minus(hi, n, B);
      var r := CopyWithin(endN, hi, hi, first.cur, hi.cur + n);
    }

    /** copy_backward(position, end_n, old_end): the rest of [first, hi) moves n cells back. */
    method OpenGapBody(first: Iter, endN: Iter, hi: Iter, n: int)
      requires Storage() && Wf(first, B) && Wf(endN, B) && Wf(hi, B) && 0 <= first.cur && 0 <= n && first.cur + n < hi.cur
      requires endN.cur == hi.cur - n && hi.cur + n <= |Cells| && CellsAllocated(first.cur, hi.cur + n)
      modifies Repr - {this}, this`Buf, this`Cells
      ensures Storage() && unchanged(nodeMap)
      ensures Cells == Overwrite(old(Cells), hi.cur - (endN.cur - first.cur), old(Cells)[first.cur..endN.cur])
    {
      var r := CopyBackwardWithin(first, endN, hi, first.cur, hi.cur + n);
    }

    /**
     * copy_insert towards the back with at most n = |vals| of the elements [lo, hi) from the
     * position lo + k on, m of them: with mid = first + m, uninitialized_copy(mid, last, end_)
     * stores the last n - m values after hi, uninitialized_copy(position, end_, ...) moves the m
     * elements after them, and copy(first, mid, position) stores the first m values.
     */
    method SpliceBackShort(lo: Iter, hi: Iter, k: int, vals: seq<T>)
      requires Storage() && Wf(lo, B) && Wf(hi, B) && 0 <= lo.cur && 0 <= k <= hi.cur - lo.cur
      requires hi.cur - lo.cur - k <= |vals|
      requires hi.cur + |vals| <= |Cells| && CellsAllocated(lo.cur, hi.cur + |vals|)
      modifies Repr - {this}, this`Buf, this`Cells
      ensures Storage() && unchanged(nodeMap)
      ensures Cells[lo.cur..hi.cur + |vals|] == old(Cells[lo.cur..hi.cur][..k]) + vals + old(Cells[lo.cur..hi.cur][k..])
    {
      var n := |vals|;
      var m := Diff(hi, lo, B) - k;
      ghost var c0 := Cells;
      var position := Plus(lo, k, B);
      var r1 := WriteRange(hi, vals[m..], lo.cur, hi.cur + n);
      ghost var c1 := Cells;
      var r2 := CopyWithin(position, hi, r1, lo.cur, hi.cur + n);
      ghost var c2 := Cells;
      var r3 := WriteRange(position, vals[..m], lo.cur, hi.cur + n);
      CopyInsertBackShort(c0, c1, c2, Cells, lo.cur, hi.cur, k, vals, m, r1.cur, position.cur);
    }

    // -------------------------------------------------------------------------------------------
    // Construction, assignment, swap and comparison.

    /**
     * map_init(n): a fresh map of max(DEQUE_MAP_INIT_SIZE, n / B + 1 + 2) slots whose middle
     * n / B + 1 slots, from (mapSize - (n / B + 1)) / 2 on, get buffers (create_buffer over
     * both ends, as its callers intend); begin is the first cell of the first of them and end
     * lies n cells further on, n % B cells into the last.  The cells are not yet initialised:
     * the n elements are whatever the fresh buffers hold.
     */
    method MapInit(n: nat)
      requires B > 0
      modifies this
      ensures Valid() && fresh(Repr - {this}) && |Contents()| == n
      ensures mapSize == Algorithm.Max(MapInitSize, n / B + 1 + 2)
      ensures begin.node == (mapSize - (n / B + 1)) / 2 && end.node == begin.node + n / B
      ensures begin.cur == begin.first && end.cur == end.first + n % B
      ensures forall i :: 0 <= i < mapSize ==> (nodeMap[i] != null <==> begin.node <= i <= end.node)
    {
      var nNode := n / B + 1;
      var size := Algorithm.Max(MapInitSize, nNode + 2);
      EmptyMap(size);
      var start := (size - nNode) / 2;
      var finish := start + nNode - 1;
      MapInitSlots(n, B, size, start, finish);
      var ok := CreateBuffer(start, finish, _ => true);
      begin := MakeIter(start * B, start, B);
      end := MakeIter(finish * B + n % B, finish, B);
    }

    /** create_map(size) installed as the deque's map: size empty slots, begin and end at cell 0. */
    method EmptyMap(size: nat)
      requires B > 0
      modifies this
      ensures Storage() && fresh(Repr - {this}) && mapSize == size
      ensures forall i :: 0 <= i < size ==> nodeMap[i] == null
    {
      var mp := CreateMap<T>(size);
      ghost var x: T := *;
      ghost var pad := seq(B, _ => x);
      ghost var buf := seq(size, _ => pad);
      ConcatLength(buf, B);
      Install(mp, size, buf, Concat(buf), {this, mp}, Iter(0, 0, B, 0), Iter(0, 0, B, 0));
    }

    /**
     * dw_stl::copy(vals, begin()) over live cells: the first |vals| elements become vals and
     * the rest stay; the result points just past the last one written.  With |vals| copies of
     * one value this is fill(begin(), begin() + |vals|, value).
     */
    method AssignPrefix(vals: seq<T>) returns (r: Iter)
      requires Valid() && |vals| <= |Contents()|
      modifies Repr - {this}, this`Buf, this`Cells
      ensures Valid() && Contents() == vals + old(Contents())[|vals|..]
      ensures Wf(r, B) && r.cur == begin.cur + |vals| && r.cur <= end.cur
    {
      LiveBounds();
      r := WriteRange(begin, vals, begin.cur, end.cur + 1);
      assert Cells[begin.cur..end.cur] == vals + old(Cells)[begin.cur + |vals|..end.cur];
    }

    /**
     * The deque(n, value) constructors (deque() and deque(n) with the value-initialised element
     * as value): fill_init(n, value), which is map_init(n) followed by filling the n cells.
     * The buffers have bufSize cells.
     */
    constructor Fill(bufSize: nat, n: nat, value: T)
      requires bufSize > 0
      ensures Valid() && fresh(Repr) && B == bufSize
      ensures Contents() == Repeat(value, n)
    {
      B := bufSize;
      nodeMap, mapSize := null, 0;
      begin, end := Iter(0, 0, bufSize, 0), Iter(0, 0, bufSize, 0);
      Buf, Cells, Repr := [], [], {this};
      new;
      MapInit(n);
      if n != 0 {
        var _ := AssignPrefix(Repeat(value, n));
      }
      assert Contents()[n..] == [];
      assert n == 0 ==> Contents() == [];
    }

    /**
     * copy_init(first, last, forward_iterator_tag), behind deque(first, last) for forward
     * iterators, deque(ilist) and the copy constructor (vals holds the range): map_init of the
     * range's length, then the range copied in buffer by buffer.
     */
    constructor CopyInit(bufSize: nat, vals: seq<T>)
      requires bufSize > 0
      ensures Valid() && fresh(Repr) && B == bufSize
      ensures Contents() == vals
    {
      B := bufSize;
      nodeMap, mapSize := null, 0;
      begin, end := Iter(0, 0, bufSize, 0), Iter(0, 0, bufSize, 0);
      Buf, Cells, Repr := [], [], {this};
      new;
      MapInit(|vals|);
      var _ := AssignPrefix(vals);
      assert Contents()[|vals|..] == [];
    }

    /**
     * copy_init(first, last, input_iterator_tag) as written: map_init(n) already makes n
     * elements, and emplace_back then appends the n values after them, so the deque ends up
     * with 2n elements, the last n of which are the range.
     */
    constructor CopyInitInputAsWritten(bufSize: nat, vals: seq<T>)
      requires bufSize > 0
      ensures Valid() && fresh(Repr) && B == bufSize
      ensures |Contents()| == 2 * |vals| && Contents()[|vals|..] == vals
    {
      B := bufSize;
      nodeMap, mapSize := null, 0;
      begin, end := Iter(0, 0, bufSize, 0), Iter(0, 0, bufSize, 0);
      Buf, Cells, Repr := [], [], {this};
      new;
      MapInit(|vals|);
      ghost var pre := Contents();
      AppendAll(vals);
    }

    /**
     * copy_init(first, last, input_iterator_tag) as intended: an empty map (map_init(0)), then
     * emplace_back of every value of the range, so the deque holds exactly the range.
     */
    constructor CopyInitInput(bufSize: nat, vals: seq<T>)
      requires bufSize > 0
      ensures Valid() && fresh(Repr) && B == bufSize
      ensures Contents() == vals
    {
      B := bufSize;
      nodeMap, mapSize := null, 0;
      begin, end := Iter(0, 0, bufSize, 0), Iter(0, 0, bufSize, 0);
      Buf, Cells, Repr := [], [], {this};
      new;
      MapInit(0);
      AppendAll(vals);
    }

    /** emplace_back(v) for every v of vals in turn, every allocation succeeding. */
    method AppendAll(vals: seq<T>)
      requires Valid()
      modifies Repr
      ensures Valid() && fresh(Repr - old(Repr))
      ensures Contents() == old(Contents()) + vals
    {
      var i := 0;
      while i < |vals|
        invariant 0 <= i <= |vals|
        invariant Valid() && fresh(Repr - old(Repr))
        invariant Contents() == old(Contents()) + vals[..i]
      {
        var ok := PushBack(vals[i], _ => true);
        assert vals[..i + 1] == vals[..i] + [vals[i]];
        i := i + 1;
      }
      assert vals[..i] == vals;
    }

    /**
     * The move constructor deque(deque&& rhs): this deque takes rhs's map, size and iterators,
     * and rhs is left with a null map of size 0.  rhs keeps its begin and end: the source's
     * assignments of nullptr to them name no iterator constructor, and with a null map the
     * destructor never reads them.
     */
    constructor Move(rhs: Deque<T>)
      requires rhs.Valid()
      modifies rhs
      ensures Valid() && B == rhs.B && Contents() == old(rhs.Contents())
      ensures Repr == old(rhs.Repr) - {rhs} + {this}
      ensures rhs.nodeMap == null && rhs.mapSize == 0
      ensures rhs.begin == old(rhs.begin) && rhs.end == old(rhs.end)
    {
      B := rhs.B;
      nodeMap, mapSize := rhs.nodeMap, rhs.mapSize;
      begin, end := rhs.begin, rhs.end;
      Buf, Cells, Repr := rhs.Buf, rhs.Cells, rhs.Repr - {rhs} + {this};
      new;
      AdoptLayout(rhs);
      rhs.nodeMap := null;
      rhs.mapSize := 0;
    }

    /** The map and buffers of another deque with the same buffer size, described from this one. */
    lemma AdoptLayout(other: Deque<T>)
      requires other.Storage() && other.B == B && this !in other.Repr
      ensures Layout(other.nodeMap, other.mapSize, other.Buf, other.Cells, other.Repr - {other} + {this})
    {
    }

    /** A copy of the elements, front to back: the range [begin(), end()) read off one by one. */
    method Elements() returns (s: seq<T>)
      requires Valid()
      ensures s == Contents()
    {
      s := [];
      var i := 0;
      var n := Size();
      while i < n
        invariant 0 <= i <= n == |Contents()|
        invariant s == Contents()[..i]
      {
        s := s + [Get(i)];
        i := i + 1;
      }
    }

    /**
     * resize(newSize, value): a longer deque erases [begin + newSize, end); otherwise
     * newSize - size() copies of value are inserted at the end.  When that allocation fails the
     * elements are unchanged.
     */
    method Resize(newSize: nat, value: T, alloc: int -> bool) returns (ok: bool)
      requires Valid()
      modifies Repr
      ensures Valid() && fresh(Repr - old(Repr))
      ensures newSize < old(|Contents()|) ==> ok && Contents() == old(Contents())[..newSize]
      ensures newSize >= old(|Contents()|) && ok ==>
                Contents() == old(Contents()) + Repeat(value, newSize - old(|Contents()|))
      ensures !ok ==> Contents() == old(Contents())
      ensures (forall i :: alloc(i)) ==> ok
    {
      ghost var s := Contents();
      var len := Size();
      if newSize < len {
        var _ := EraseRange(Plus(begin, newSize, B), end);
        assert s[..newSize] + s[|s|..] == s[..newSize];
        ok := true;
      } else {
        ok := InsertFill(end, newSize - len, value, alloc);
        assert s[..|s|] == s && s[|s|..] == [];
      }
    }

    /**
     * fill_assign(n, value), behind assign(n, value): a deque shorter than n is filled with
     * value and grown by the missing copies at the end; otherwise it is cut to n elements and
     * filled.  When the allocation fails the deque keeps its length, every element now value.
     */
    method FillAssign(n: nat, value: T, alloc: int -> bool) returns (ok: bool)
      requires Valid()
      modifies Repr
      ensures Valid() && fresh(Repr - old(Repr))
      ensures ok ==> Contents() == Repeat(value, n)
      ensures !ok ==> Contents() == Repeat(value, old(|Contents()|))
      ensures (forall i :: alloc(i)) ==> ok
    {
      if n > Size() {
        var _ := AssignPrefix(Repeat(value, Size()));
        ghost var s := Contents();
        ok := InsertFill(end, n - Size(), value, alloc);
        assert s[..|s|] == s && s[|s|..] == [];
        assert Repeat(value, |s|) + Repeat(value, n - |s|) == Repeat(value, n);
      } else {
        ghost var s := Contents();
        var _ := EraseRange(Plus(begin, n, B), end);
        assert s[..n] + s[|s|..] == s[..n];
        var _ := AssignPrefix(Repeat(value, Size()));
        ok := true;
      }
    }

    /**
     * copy_assign(first, last, forward_iterator_tag), behind assign(first, last) for forward
     * iterators (vals holds the range): with len1 = size() < |vals| the first len1
     * values are copied over the elements and the rest inserted at the end; otherwise the
     * values are copied from begin and everything after them erased.  When the allocation fails
     * the deque keeps its length and holds the first values.
     */
    method CopyAssign(vals: seq<T>, alloc: int -> bool) returns (ok: bool)
      requires Valid()
      modifies Repr
      ensures Valid() && fresh(Repr - old(Repr))
      ensures ok ==> Contents() == vals
      ensures !ok ==> old(|Contents()|) < |vals| && Contents() == vals[..old(|Contents()|)]
      ensures (forall i :: alloc(i)) ==> ok
    {
      var len1 := Size();
      if len1 < |vals| {
        var _ := AssignPrefix(vals[..len1]);
        ghost var s := Contents();
        ok := InsertRange(end, vals[len1..], alloc);
        assert s[..|s|] == s && s[|s|..] == [];
        assert vals[..len1] + vals[len1..] == vals;
      } else {
        var r := AssignPrefix(vals);
        ghost var s := Contents();
        var _ := EraseRange(r, end);
        assert s[..|vals|] + s[|s|..] == vals;
        ok := true;
      }
    }

    /**
     * operator=(const deque& rhs): unless rhs is this deque, the elements of rhs are copied
     * over this one's (copy, then erase the rest or insert the remainder at the end).
     */
    method Assign(rhs: Deque<T>, alloc: int -> bool) returns (ok: bool)
      requires Valid() && rhs.Valid() && (rhs != this ==> Repr !! rhs.Repr)
      modifies Repr
      ensures Valid() && fresh(Repr - old(Repr)) && rhs.Valid()
      ensures rhs == this ==> ok && Contents() == old(Contents())
      ensures rhs != this && ok ==> Contents() == old(rhs.Contents()) && rhs.Contents() == old(rhs.Contents())
      ensures !ok ==> (rhs != this && old(|Contents()| < |rhs.Contents()|)
                       && Contents() == old(rhs.Contents()[..|Contents()|]))
      ensures (forall i :: alloc(i)) ==> ok
    {
      if rhs != this {
        var vals := rhs.Elements();
        ok := CopyAssign(vals, alloc);
      } else {
        ok := true;
      }
    }

    /**
     * operator=(deque&& rhs): clear(), then this deque takes rhs's iterators, map and size, and
     * rhs is left with a null map of size 0. There is no self-check: d = move(d) clears d, keeps
     * its (now equal) begin_ and end_, and then sets its own map_ to nullptr and map_size_ to 0,
     * so d is left without a map while begin_ and end_ still point into the abandoned buffer.
     */
    method MoveAssign(rhs: Deque<T>)
      requires Valid() && rhs.Valid() && B == rhs.B && (rhs != this ==> Repr !! rhs.Repr)
      modifies this, nodeMap, rhs
      ensures rhs != this ==> Valid() && Contents() == old(rhs.Contents())
      ensures rhs != this ==> Repr == old(rhs.Repr) - {rhs} + {this}
      ensures rhs.nodeMap == null && rhs.mapSize == 0
      ensures rhs == this ==> begin == old(begin) && end == begin && Repr == old(Repr)
    {
      Clear();
      if rhs != this {
        rhs.LiveBounds();
        AdoptLayout(rhs);
        InstallLive(rhs.nodeMap, rhs.mapSize, rhs.Buf, rhs.Cells, rhs.Repr - {rhs} + {this}, rhs.begin, rhs.end);
      }
      rhs.nodeMap := null;
      rhs.mapSize := 0;
    }

    /** swap(rhs): unless rhs is this deque, the two exchange iterators, maps and sizes. */
    method Swap(rhs: Deque<T>)
      requires Valid() && rhs.Valid() && B == rhs.B && (rhs != this ==> Repr !! rhs.Repr)
      modifies this, rhs
      ensures Valid() && rhs.Valid()
      ensures rhs != this ==> Contents() == old(rhs.Contents()) && rhs.Contents() == old(Contents())
      ensures rhs != this ==> Repr == old(rhs.Repr) - {rhs} + {this} && rhs.Repr == old(Repr) - {this} + {rhs}
      ensures rhs == this ==> Contents() == old(Contents()) && Repr == old(Repr)
    {
      if rhs != this {
        var m1, s1, b1, e1 := nodeMap, mapSize, begin, end;
        ghost var buf1, cells1, repr1 := Buf, Cells, Repr;
        LiveBounds();
        rhs.LiveBounds();
        AdoptLayout(rhs);
        rhs.AdoptLayout(this);
        InstallLive(rhs.nodeMap, rhs.mapSize, rhs.Buf, rhs.Cells, rhs.Repr - {rhs} + {this}, rhs.begin, rhs.end);
        rhs.InstallLive(m1, s1, buf1, cells1, repr1 - {this} + {rhs}, b1, e1);
      }
    }
  }

  /** operator==(lhs, rhs): the sizes agree and equal(lhs.begin(), lhs.end(), rhs.begin()) holds. */
  method Equals<T(0, ==)>(lhs: Deque<T>, rhs: Deque<T>) returns (r: bool)
    requires lhs.Valid() && rhs.Valid()
    ensures r <==> lhs.Contents() == rhs.Contents()
  {
    var a := lhs.Elements();
    var b := rhs.Elements();
    r := lhs.Size() == rhs.Size() && Algorithm.Equal(a, b);
  }

  /** operator<(lhs, rhs): lexicographical_compare(lhs.begin(), lhs.end(), rhs.begin(), rhs.end()) under less. */
  method Less<T(0)>(lhs: Deque<T>, rhs: Deque<T>, less: (T, T) -> bool) returns (r: bool)
    requires lhs.Valid() && rhs.Valid()
    ensures r <==> Algorithm.LexLessSpec(lhs.Contents(), rhs.Contents(), less)
  {
    var a := lhs.Elements();
    var b := rhs.Elements();
    r := Algorithm.LexCompareBy(a, b, less);
  }

  /**
   * The slots map_init picks: n / B + 1 of them in the middle of a map of
   * max(DEQUE_MAP_INIT_SIZE, n / B + 1 + 2) slots, from start to finish, hold n cells from the
   * first cell of start to n % B cells into finish.
   */
  lemma MapInitSlots(n: nat, B: nat, size: nat, start: int, finish: int)
    requires B > 0 && size == Algorithm.Max(MapInitSize, n / B + 1 + 2)
    requires start == (size - (n / B + 1)) / 2 && finish == start + (n / B + 1) - 1
    ensures 0 <= start <= finish < size && finish == start + n / B
    ensures finish * B <= finish * B + n % B < finish * B + B
    ensures finish * B + n % B - start * B == n
    ensures finish * B + B <= size * B
  {
    DivBounds(n, B);
    AddMul(start, n / B, B);
    MulMono(finish + 1, size, B);
  }

  /** need = x / B + 1 buffers of B cells hold x > 0 cells with at least one to spare. */
  lemma NeedCovers(x: int, need: int, B: int)
    requires B > 0 && 0 < x && need == x / B + 1
    ensures 1 <= need && x < need * B
  {
    DivBounds(x, B);
    AddMul(x / B, 1, B);
  }

  /** The cells up to the n-th after cur, in slot node, end within slot node + need, inside a map of size slots. */
  lemma BackCells(node: int, cur: int, n: int, need: int, size: int, B: int)
    requires B > 0 && node * B <= cur < node * B + B && node * B + B - cur - 1 < n
    requires need == (n - (node * B + B - cur - 1)) / B + 1 && node + need < size
    ensures cur + n + 1 <= (node + need) * B + B <= size * B
  {
    NeedCovers(n - (node * B + B - cur - 1), need, B);
    AddMul(node, need, B);
    MulMono(node + need + 1, size, B);
  }

  /**
   * create_map(size): a fresh map of size empty slots.  As written the initialising loop stores
   * into slot 1 on every round (see CreateMapClearsAsWritten); this is the intended loop.
   */
  method CreateMap<T>(size: nat) returns (mp: array<array?<T>>)
    ensures fresh(mp) && mp.Length == size
    ensures forall i :: 0 <= i < size ==> mp[i] == null
  {
    mp := new array?<T>[size];
    var i := 0;
    while i < size
      invariant 0 <= i <= size
      invariant forall j :: 0 <= j < i ==> mp[j] == null
    {
      mp[i] := null;
      i := i + 1;
    }
  }

  /**
   * create_map(size) followed by the copy of buffer addresses in reallocate_map_at_front/back: slots at,
   * at + 1, ... of the new map take the buffers of src[lo], ..., src[hi]; the rest are empty.
   */
  method MoveSlots<T>(src: array<array?<T>>, lo: nat, hi: nat, size: nat, at: nat) returns (mp: array<array?<T>>)
    requires lo <= hi < src.Length && at + (hi - lo) < size
    ensures fresh(mp) && mp.Length == size
    ensures forall i :: 0 <= i < size ==> mp[i] == if at <= i <= at + (hi - lo) then src[lo + i - at] else null
  {
    mp := CreateMap(size);
    var j := 0;
    while j <= hi - lo
      invariant 0 <= j <= hi - lo + 1
      invariant forall i :: 0 <= i < size ==> mp[i] == if at <= i < at + j then src[lo + i - at] else null
    {
      mp[at + j] := src[lo + j];
      j := j + 1;
    }
  }
}
