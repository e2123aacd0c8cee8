# dw_stl in Dafny

A model of the container and algorithm toolkit of dw_stl, with proofs about it. At its centre are two pieces of deque.h:

- the segmented double-ended queue, `deque`;
- its iterator, `deque_iterator`.

The model also covers the heap algorithms of heap_algo.h and the range algorithms of algorithm.h and algo.h. From iterator.h it takes the iterator-category tags with `distance`/`advance` and the offset algebra of `reverse_iterator`. From util.h it takes `swap`, `swap_range` and `pair`. The rest is the functors and FNV-1a hash of functional.h, `auto_ptr` and the halving buffer-request policy of memory.h, and the `stack` and `queue` adapters.

One Dafny module stands for each header:

| Module | Models |
|---|---|
| `Algorithm` | algorithm.h |
| `Iterators` | iterator.h |
| `Algo` | algo.h |
| `Util` | util.h |
| `Functional` | functional.h |
| `Heap` | heap_algo.h |
| `Memory` | memory.h |
| `Stack` | stack.h |
| `Queue` | queue.h |
| `DequeIterators` | `deque_buf_size` and `deque_iterator` |
| `Deque` | the `deque` class |
| `DequeAsWritten` | deque.h helpers exactly as written, each with the input that shows the defect |

`DequeLayout` holds sequence lemmas for the deque proofs. `Common` holds `Option`, `Result` and `Repeat`.

**The deque.**
- `Deque.Deque` is a class. Its fields are the source's fields:
  - the map: an array of nullable buffers, each of `B` cells;
  - `mapSize`;
  - the iterators `begin` and `end`.
- A ghost view `Cells` lays all buffers end to end in one address space. Map slot n owns addresses `[n*B, n*B + B)`.
- The abstraction function is `Contents() == Cells[begin.cur..end.cur]`.
- The invariant `Valid()` says:
  - both iterators are well formed, and `begin <= end`;
  - every slot from `begin.node` to `end.node` holds a buffer;
  - the ghost view agrees with the buffers.
- Every operation is a method with `modifies` and `ensures` clauses. They state what happens to `Contents()`, to the map and to the iterators.
- Buffer allocation can fail. An oracle `alloc(i)` says whether the allocation for map slot i succeeds, and growing operations return `ok`. The element constructor of `push_front` can also fail; the `constructs` flag carries that.

**The iterator.** The deque iterator is a value type in the source: it is copied, never shared. So it is the datatype `DequeIterators.Iter(cur, first, last, node)`, and every operator is a function returning the new iterator.

**Other mutated state.** Code that changes things in place is modelled as methods over Dafny arrays or class fields. This covers the heap algorithms, copy/fill/reverse/swap_range, `auto_ptr`, `temporary_buffer`, and the `c` member of the adapters. Each such method is proved against a specification function or predicate. For example, `Heap.PushHeap` ensures `IsHeap` and equality of multisets; `Algo.ReverseRandomAccess` ensures the range equals `Reversed` of the old range.

**Details of the code the model follows.**
- `deque_buf_size` is `4096 / sizeof(T)` for `sizeof(T) < 256` and 16 otherwise.
- `clear()` destroys the elements and runs `shrink_to_fit()` before `end_ = begin_`. So it keeps every buffer from `begin_.node` to the old `end_.node`.
- At the front, `require_capacity` asks for `(n - room) / B + 1` extra buffers.
- `push_back` and `emplace_back` have no rollback. In the model only the allocation can fail, and when it fails nothing has changed.
- `at(n)` throws `length_error` in the non-const overload and `out_of_range` in the const one. `Deque.Deque.At` and `Deque.Deque.AtConst` model both.
- The iterator's `==` compares only `cur`. `DequeIterators.EqIsIdentity` proves that on well-formed iterators this is full equality.

## Model

| member | source | states |
|---|---|---|
| DequeIterators.BufSize | dw_stl/deque.h:41-46 | For sizeof(T) < 256 the buffer holds the largest count of elements that fit in 4096 bytes; otherwise it holds 16. |
| DequeIterators.MakeIter | dw_stl/deque.h:85-86 | iterator(v, n) is a well-formed iterator at address v in the buffer of slot n. |
| DequeIterators.SetNode | dw_stl/deque.h:115-121 | set_node(n) always resets first to slot n's buffer and last to first + B, and keeps cur. |
| DequeIterators.Inc | dw_stl/deque.h:141-158 | ++ moves one element forward and stays well formed. It changes slot exactly when it steps off the buffer's last cell, landing on the next buffer's first cell. |
| DequeIterators.Dec | dw_stl/deque.h:160-177 | -- moves one element back and stays well formed. It changes slot exactly when it starts at first, landing on the previous buffer's last cell. |
| DequeIterators.Plus | dw_stl/deque.h:179-203 | += n and + n move the address by n. The new slot is node + floor((n + cur - first) / B), so inside the buffer the node does not change. |
| DequeIterators.FloorOffset | dw_stl/deque.h:190-192 | The negative-offset formula -((-offset - 1) / B) - 1 is floor division. |
| DequeIterators.Minus | dw_stl/deque.h:205-215 | -= n and - n move the address back by n and stay well formed. |
| DequeIterators.Diff | dw_stl/deque.h:134-138 | The difference formula B*(node - x.node) + (cur - first) - (x.cur - x.first) is the distance between the two addresses. |
| DequeIterators.NodeOfCell | dw_stl/deque.h:115-121 | The slot of a well-formed iterator is its address divided by B, and cur - first is the address modulo B. |
| DequeIterators.EqIsIdentity | dw_stl/deque.h:225-236 | == and != compare only cur. On well-formed iterators that is full equality and inequality. |
| DequeIterators.ComparisonsFollowAddresses | dw_stl/deque.h:229-249 | <, >, <= and >= compare by slot, then by cur. On well-formed iterators each is the same comparison of addresses. |
| DequeIterators.Eq | dw_stl/deque.h:224-228 | == compares cur only; DequeIterators.EqIsIdentity proves that on well-formed iterators this is equality of the iterators. |
| DequeIterators.Ne | dw_stl/deque.h:233-236 | != is the negation of ==; DequeIterators.EqIsIdentity proves it is inequality of well-formed iterators. |
| DequeIterators.Less | dw_stl/deque.h:229-232 | < compares node first and cur inside one node; DequeIterators.ComparisonsFollowAddresses proves that is address order. |
| DequeIterators.Gt | dw_stl/deque.h:237-240 | > is rhs < *this; DequeIterators.ComparisonsFollowAddresses proves it is a.cur > b.cur. |
| DequeIterators.Le | dw_stl/deque.h:241-244 | <= is !(rhs < *this); DequeIterators.ComparisonsFollowAddresses proves it is a.cur <= b.cur. |
| DequeIterators.Ge | dw_stl/deque.h:245-248 | >= is !(*this < rhs); DequeIterators.ComparisonsFollowAddresses proves it is a.cur >= b.cur. |
| DequeIterators.IncDecInverse | dw_stl/deque.h:141-177 | ++ then -- is the identity, and so is -- then ++. |
| DequeIterators.PlusOneIsInc | dw_stl/deque.h:179-215 | + 1 is ++ and - 1 is --. |
| DequeIterators.PlusDiff | dw_stl/deque.h:134-203 | (it + k) - it == k and it - (it + k) == -k, for every k. |
| DequeIterators.PlusMinusInverse | dw_stl/deque.h:179-215 | (it + k) - k == it, and (it + m) + n == it + (m + n). |
| Deque.Deque.Contents | dw_stl/deque.h:416-424 | The elements from begin to end; their number is end.cur - begin.cur. |
| Deque.Deque.LiveBounds | dw_stl/deque.h:416-423 | Under the invariant, every address from begin to end lies in an allocated buffer. |
| Deque.Deque.Deref | dw_stl/deque.h:125-128 | *it is the cell at the iterator's address. |
| Deque.Deque.Size | dw_stl/deque.h:421-424 | size() is the number of elements. |
| Deque.Deque.Empty | dw_stl/deque.h:416-420 | empty() holds exactly when there are no elements. |
| Deque.Deque.Front | dw_stl/deque.h:460-469 | front() is the first element. |
| Deque.Deque.Back | dw_stl/deque.h:471-481 | back(), which is *(end() - 1), is the last element. |
| Deque.Deque.Get | dw_stl/deque.h:437-445 | operator[](n) is element n. |
| Deque.Deque.At | dw_stl/deque.h:448-452 | at(n), non-const: length_error exactly when n >= size(), otherwise element n. |
| Deque.Deque.AtConst | dw_stl/deque.h:453-457 | at(n), const: out_of_range exactly when n >= size(), otherwise element n. |
| Deque.Deque.IterIndex | dw_stl/deque.h:218-221 | it[n] is the element n places after it. |
| Deque.CreateMap | dw_stl/deque.h:984-994 | create_map(size), as intended: a fresh map of size null slots. |
| Deque.Deque.CreateBuffer | dw_stl/deque.h:996-1020 | create_buffer(start, finish) fills every slot of [start, finish], both ends included. It succeeds exactly when every allocation does. On failure it nulls again the slots it filled, and it leaves other slots alone. |
| Deque.Deque.DestroyBuffer | dw_stl/deque.h:1022-1030 | destroy_buffer(start, finish) nulls the slots of [start, finish] and leaves the others alone. |
| Deque.Deque.ShrinkToFit | dw_stl/deque.h:645-661 | shrink_to_fit() keeps the elements. Afterwards a slot holds a buffer exactly when it did before and lies in [begin.node, end.node]. |
| Deque.MoveSlots | dw_stl/deque.h:1479-1482 | The copy of buffer addresses in map reallocation: slot at + j of the new map takes buffer lo + j of the old one. Every other slot is null. |
| Deque.Deque.Relocate | dw_stl/deque.h:1469-1522 | The re-centring both reallocations share. The live buffers are moved to slot at of a fresh map. The elements, and each iterator's offset in its buffer, do not change. |
| Deque.Deque.ReallocateMapAtFront | dw_stl/deque.h:1467-1495 | On success the map has max(2 * mapSize, mapSize + need + 8) slots, and the need + live buffers are centred in it. need fresh buffers precede begin's, and the element offsets are kept. On failure the deque is exactly as before. It succeeds whenever every allocation does, and the elements never change. |
| Deque.Deque.ReallocateMapAtBack | dw_stl/deque.h:1497-1522 | The same as ReallocateMapAtFront, with the need fresh buffers after end's. |
| Deque.Deque.RequireCapacity | dw_stl/deque.h:1434-1463 | require_capacity(n, front) leaves the elements unchanged. On success there are n allocated cells before begin (front), or n cells after end plus the cell end then moves to (back). It succeeds whenever every allocation does. |
| Deque.Deque.FrontRoom | dw_stl/deque.h:1436-1447 | need = (n - room) / B + 1 buffers before begin's hold the n cells the front needs. |
| Deque.Deque.BackRoom | dw_stl/deque.h:1450-1462 | With the front's + 1, the buffers after end's hold the n cells after end and the cell end moves to. |
| Deque.Deque.PushBack | dw_stl/deque.h:692-776 | push_back(v) and emplace_back(v): the contents become old + [v]. If the allocation fails, nothing changes. |
| Deque.Deque.PushFront | dw_stl/deque.h:664-757 | push_front(v) and emplace_front(v): the contents become [v] + old. If the element or a buffer cannot be made, begin is rolled back and the contents are unchanged. |
| Deque.Deque.PopFront | dw_stl/deque.h:779-796 | pop_front() removes the first element. When that empties begin's buffer, that buffer's slot is nulled; no other slot changes. |
| Deque.Deque.PopBack | dw_stl/deque.h:798-813 | pop_back() removes the last element. When end was at its buffer's first cell, the slot end leaves is nulled; no other slot changes. |
| Deque.Deque.Insert | dw_stl/deque.h:816-861 | insert(pos, v) at index k gives s[..k] + [v] + s[k..], and the returned iterator points at index k. This holds at the front, at the back and inside. If construction or allocation fails, the contents are unchanged. |
| Deque.Deque.Emplace | dw_stl/deque.h:710-730 | emplace(pos, v) inserts as insert does. At the back it returns end, index k + 1 (see Findings). |
| Deque.Deque.InsertAux | dw_stl/deque.h:1176-1208 | insert_aux moves the shorter side by one cell and stores v. The result is s[..k] + [v] + s[k..], and the returned iterator points at index k. |
| Deque.Deque.InsertNearFront | dw_stl/deque.h:1182-1194 | The front branch of insert_aux: emplace_front(front()), a copy of the next k - 1 elements, then v at index k. |
| Deque.Deque.InsertNearBack | dw_stl/deque.h:1195-1206 | The back branch of insert_aux: emplace_back(back()), a copy_backward, then v at index k. |
| Deque.Deque.Erase | dw_stl/deque.h:887-901 | erase(pos) at index k gives s[..k] + s[k+1..] and returns begin + k. The front side moves with copy_backward. |
| Deque.Deque.EraseRange | dw_stl/deque.h:903-939 | erase(first, last) over indices [i, j) gives s[..i] + s[j..] and returns begin + i. Erasing everything is clear(). |
| Deque.Deque.EraseGap | dw_stl/deque.h:915-937 | The shifting branches of erase(first, last): the shorter side closes the gap of len elements at k. |
| Deque.Deque.Clear | dw_stl/deque.h:941-964 | clear() leaves no elements, with end == begin and the map and begin unchanged. Afterwards a slot holds a buffer exactly when it did before and lies in [begin.node, old end.node]. |
| Deque.Deque.InsertFill | dw_stl/deque.h:862-885 | insert(pos, n, v) gives s[..k] + n copies of v + s[k..]. If an allocation fails, the contents are unchanged. |
| Deque.Deque.FillInsert | dw_stl/deque.h:1210-1286 | fill_insert at index k gives s[..k] + n copies of v + s[k..]. If an allocation fails, the contents are unchanged. |
| Deque.Deque.InsertRange | dw_stl/deque.h:1386-1430 | insert(pos, first, last) for forward iterators gives s[..k] + range + s[k..]. An empty range changes nothing. If an allocation fails, the contents are unchanged. |
| Deque.Deque.CopyInsert | dw_stl/deque.h:1288-1361 | copy_insert at index k gives s[..k] + range + s[k..], moving the side with fewer elements. If the allocation fails, the contents are unchanged. |
| Deque.Deque.SpliceFrontLong | dw_stl/deque.h:1303-1310 | The front branch of copy_insert with elems_before >= n lays out s[..k] + range + s[k..] from begin - n. |
| Deque.Deque.SpliceFrontShort | dw_stl/deque.h:1311-1318 | The front branch of copy_insert with elems_before < n lays out the same sequence from begin - n. |
| Deque.Deque.SpliceBackLong | dw_stl/deque.h:1337-1344 | The back branch of copy_insert with elems_after > n lays out s[..k] + range + s[k..] up to end + n. |
| Deque.Deque.SpliceBackShort | dw_stl/deque.h:1345-1352 | The back branch of copy_insert with elems_after <= n lays out the same sequence up to end + n. |
| Deque.Deque.MapInit | dw_stl/deque.h:1032-1068 | map_init(n) makes a fresh map of max(8, n / B + 1 + 2) slots. Exactly the n / B + 1 middle slots, from (mapSize - (n / B + 1)) / 2, hold buffers. begin is at its buffer's first cell, and end is n cells later, n % B into the last buffer. |
| Deque.MapInitSlots | dw_stl/deque.h:1036-1062 | The centred slots exist in the map, and the cells from begin to end number exactly n. |
| Deque.Deque.Fill | dw_stl/deque.h:294-306 | deque(), deque(n) and deque(n, value) hold n copies of value. |
| Deque.Deque.CopyInit | dw_stl/deque.h:1097-1113 | copy_init for forward iterators, behind deque(first, last), deque(ilist) and the copy constructor, holds exactly the range. |
| Deque.Deque.CopyInitInputAsWritten | dw_stl/deque.h:1086-1095 | copy_init for input iterators, as written, holds 2n elements, the last n of which are the range (see Findings). |
| Deque.Deque.CopyInitInput | dw_stl/deque.h:1086-1095 | copy_init for input iterators, as intended, holds exactly the range. |
| Deque.Deque.Move | dw_stl/deque.h:326-337 | The move constructor takes rhs's elements and storage and leaves rhs with a null map of size 0. rhs keeps its begin and end. |
| Deque.Deque.Elements | dw_stl/deque.h:1525-1541 | The helper of `operator==` and `operator<`: walking [begin(), end()) one element at a time yields exactly the elements in order. |
| Deque.Deque.Resize | dw_stl/deque.h:627-642 | resize(n, v) on a longer deque keeps the first n elements. Otherwise it appends n - size() copies of v; if that allocation fails, the contents are unchanged. |
| Deque.Deque.FillAssign | dw_stl/deque.h:1116-1130 | assign(n, v): the contents become n copies of v. If the growth fails, the old length stays, filled with v. |
| Deque.Deque.CopyAssign | dw_stl/deque.h:1155-1173 | assign(first, last) for forward iterators: the contents become the range. If the growth fails, the old length stays, holding the range's first values. |
| Deque.Deque.Assign | dw_stl/deque.h:587-610 | operator=(const deque&): self-assignment changes nothing. Otherwise the contents become rhs's, and rhs is unchanged. |
| Deque.Deque.MoveAssign | dw_stl/deque.h:612-624 | operator=(deque&&) from another deque takes rhs's elements and storage and leaves rhs with a null map of size 0. There is no self-check: d = move(d) clears d and then leaves it with a null map of size 0 and begin == end at the old begin. |
| Deque.Deque.Swap | dw_stl/deque.h:966-978 | swap(rhs) exchanges the two contents and storages. Self-swap changes nothing. |
| Deque.Equals | dw_stl/deque.h:1525-1529 | lhs == rhs holds exactly when the two element sequences are equal. |
| Deque.Less | dw_stl/deque.h:1537-1541 | lhs < rhs is the lexicographic order of the element sequences under less. |
| DequeAsWritten.CreateMapClearsAsWritten | dw_stl/deque.h:991-992 | create_map's loop as written clears only slot 1, from any round on. |
| DequeAsWritten.CreateMapKeepsGarbage | dw_stl/deque.h:984-994 | A fresh 8-slot map of garbage keeps 7 garbage slots after create_map. |
| DequeAsWritten.CreateBufferAsWrittenSkipsFinish | dw_stl/deque.h:998-1020 | create_buffer as written fills [start, finish) only. So map_init of fewer than B elements allocates no buffer at all. |
| DequeAsWritten.RequireBackAsWrittenFallsShort | dw_stl/deque.h:1450-1462 | The back branch as written always reallocates. Its buffers cover the n cells and the new end only when (n - room) % B == 0, so push_back at a buffer's end asks for 0 buffers. |
| DequeAsWritten.CopyForwardDisjointAt | dw_stl/algorithm.h:79-81 | When the source and target ranges of the copy loop do not overlap, cell j of the result is the matching source cell inside the target and the old cell outside it. |
| DequeAsWritten.CopyForwardDisjoint | dw_stl/algorithm.h:79-81 | When the ranges do not overlap, the copy loop gives s[..dst] + s[src..src+count] + s[dst+count..]. |
| DequeAsWritten.EraseFrontAsWrittenOverwritesAfter | dw_stl/deque.h:891-898 | erase(pos) at index k in the front half, as written, leaves s[1..k+1] + s[..k] + s[2k+1..]. Erasing index 2 of [1, 2, 3, 4, 5, 6] gives [2, 3, 1, 2, 6], not [1, 2, 4, 5, 6]. |
| DequeAsWritten.CreateMapAsWritten | dw_stl/deque.h:984-994 | create_map's nulling loop as written, from round i on; DequeAsWritten.CreateMapClearsAsWritten proves it writes only slot 1. |
| DequeAsWritten.CreateBufferAsWritten | dw_stl/deque.h:998-1020 | create_buffer's loop as written over [cur, finish); DequeAsWritten.CreateBufferAsWrittenSkipsFinish proves it never allocates the finish slot. |
| DequeAsWritten.RequireBackAsWritten | dw_stl/deque.h:1450-1462 | require_capacity's back branch as written; DequeAsWritten.RequireBackAsWrittenFallsShort proves it can leave end without a buffer. |
| DequeAsWritten.EraseFrontAsWritten | dw_stl/deque.h:891-898 | erase(pos) in the front half, as written: copy(begin_, position, next) writes the first k elements to the k cells after position, then pop_front. It is defined when 2k + 1 <= size, which the branch guard k < size() / 2 ensures. It is one element shorter than its input. DequeAsWritten.EraseFrontAsWrittenOverwritesAfter proves what it leaves. |
| DequeAsWritten.CopyForward | dw_stl/algorithm.h:79-81 | The random-access copy loop on one sequence, one cell at a time from the front, as deque.h:896 uses it. It keeps the length. DequeAsWritten.CopyForwardDisjoint states its result. |
| Heap.RootIsMax | dw_stl/heap_algo.h:101-107 | The root of a max-heap is its largest element. |
| Heap.PushHeap | dw_stl/heap_algo.h:14-43 | If [0, n-1) is a max-heap, push_heap makes [0, n) a max-heap and a permutation of the input, and leaves the rest alone. |
| Heap.SiftUpStep | dw_stl/heap_algo.h:19-31 | Each step of push_heap_aux moves the hole to its parent (i - 1) / 2 and keeps the sift-up invariant and the multiset. |
| Heap.SiftUpLast | dw_stl/heap_algo.h:29-31 | Writing value into the hole where push_heap_aux stops makes the whole range a heap. |
| Heap.AdjustHeap | dw_stl/heap_algo.h:81-99 | adjust_heap, stopping when the larger child is not above value, orders every edge below k. The result is a permutation of the range with value at k, and nothing past len changes. |
| Heap.LargerChildOf | dw_stl/heap_algo.h:88-91 | adjust_heap's choice among 2i + 1 and 2i + 2 is the larger child. |
| Heap.SiftDownStep | dw_stl/heap_algo.h:86-95 | Moving the larger child up into the hole keeps the sift-down invariant and the multiset. |
| Heap.PopHeap | dw_stl/heap_algo.h:101-113 | pop_heap on a heap moves the old root to n - 1. [0, n-1) is then a heap of elements that are all at most that root, and the whole range keeps its multiset. |
| Heap.MakeHeap | dw_stl/heap_algo.h:177-199 | make_heap_aux's loop built on the corrected adjust_heap (Heap.AdjustHeap): ranges shorter than 2 are unchanged, and otherwise the result is a max-heap permutation of the input. The source's loop calls the as-written adjust_heap; see Heap.MakeHeapAsWritten. |
| Heap.SortHeap | dw_stl/heap_algo.h:155-163 | sort_heap's loop built on the corrected pop_heap (Heap.PopHeap): on a heap it gives an ascending permutation of the input. The source's pop_heap is the as-written one; see Heap.SortHeapAsWritten. |
| Heap.SortStep | dw_stl/heap_algo.h:158-162 | Each round pops one maximum into the sorted tail, keeping the heap in front, every front element at most every tail element, and the multiset. |
| Heap.AdjustHeapAsWritten | dw_stl/heap_algo.h:81-99 | adjust_heap as written never stops early. It descends to a leaf even when the larger child is not above value, and keeps the length and the tail. |
| Heap.PopHeapAsWritten | dw_stl/heap_algo.h:101-113 | pop_heap as written puts the root at the end. |
| Heap.PopHeapAsWrittenLosesElement | dw_stl/heap_algo.h:92-95 | On the heap [3, 1, 2], pop_heap as written gives [3, 2, 3]: an element is lost. |
| Heap.MakeHeapAsWritten | dw_stl/heap_algo.h:177-193 | make_heap_aux as written runs the as-written adjust_heap on every slot from (len - 2) / 2 down to 0. It keeps the length, and leaves ranges shorter than 2 unchanged. |
| Heap.MakeHeapDownFromAsWritten | dw_stl/heap_algo.h:184-191 | The rounds of make_heap_aux as written, from one slot down to slot 0, keep the length. |
| Heap.SortHeapAsWritten | dw_stl/heap_algo.h:155-163 | sort_heap as written runs pop_heap as written on the shrinking prefix and keeps the length. |
| Heap.MakeHeapAsWrittenLosesElements | dw_stl/heap_algo.h:177-193 | On [5, 3, 4, 1, 2], already a heap, make_heap as written gives [5, 3, 5, 1, 3]: the 4 and the 2 are lost. |
| Heap.SortHeapAsWrittenLosesElement | dw_stl/heap_algo.h:155-163 | On the heap [3, 1, 2], sort_heap as written gives [2, 3, 3]: the 1 is lost. |
| Algorithm.Max | dw_stl/algorithm.h:30-34 | max is an upper bound of both arguments and is one of them. |
| Algorithm.Min | dw_stl/algorithm.h:47-51 | min is a lower bound of both arguments and is one of them. |
| Algorithm.MaxBy | dw_stl/algorithm.h:37-42 | max with comp returns rhs exactly when comp(lhs, rhs), so ties return lhs. |
| Algorithm.MinBy | dw_stl/algorithm.h:54-59 | min with comp returns rhs exactly when comp(rhs, lhs), so ties return lhs. |
| Algorithm.MinLeMax | dw_stl/algorithm.h:30-51 | min <= max, and min + max == a + b. |
| Algorithm.Copy | dw_stl/algorithm.h:64-113 | copy writes the source range to [result, result + n) and returns result + n. Nothing else changes, including when a same-array destination lies before the source. |
| Algorithm.CopyBackward | dw_stl/algorithm.h:116-170 | copy_backward writes the range to [result - n, result) and returns result - n. Nothing else changes, including when the destination overlaps later in the same array. |
| Algorithm.CopyN | dw_stl/algorithm.h:186-200 | copy_n for random-access iterators copies n elements and returns (first + n, result + n). |
| Algorithm.CopyNInputAsWritten | dw_stl/algorithm.h:177-184 | copy_n for input iterators, as written, never advances first, so every output is src[0]. |
| Algorithm.CopyNInputLoopAsWritten | dw_stl/algorithm.h:177-184 | The input-iterator copy_n loop, as written, writes the n values CopyNInputAsWritten gives at result and returns (first, result + n): first is not advanced, where (first + n, result + n) is meant. Nothing outside the n cells changes. |
| Algorithm.CopyNInputAsWrittenRepeatsFirst | dw_stl/algorithm.h:180-181 | copy_n of [1, 2] for input iterators as written writes [1, 1]. |
| Algorithm.Move | dw_stl/algorithm.h:204-253 | move has the value-level effect of copy. |
| Algorithm.MoveBackward | dw_stl/algorithm.h:269-310 | move_backward for random-access ranges has the value-level effect of copy_backward. |
| Algorithm.MoveBackwardBidiStep | dw_stl/algorithm.h:264-265 | One round of the bidirectional move_backward steps result back and leaves first and last as they are. |
| Algorithm.MoveBackwardBidiIterate | dw_stl/algorithm.h:259-267 | k rounds of the bidirectional move_backward loop as written. Algorithm.MoveBackwardBidiNeverStops proves that the guard still holds after any k on a non-empty range, and that result has stepped back k. |
| Algorithm.MoveBackwardBidiNeverStops | dw_stl/algorithm.h:259-267 | On a non-empty range the loop guard first != last stays true after any number of rounds. |
| Algorithm.FillN | dw_stl/algorithm.h:345-351 | The generic fill_n_dispatch writes value into n positions and returns first + n. For n <= 0 it does nothing and returns first. |
| Algorithm.FillNBytes | dw_stl/algorithm.h:353-370 | The one-byte fill_n_dispatch writes value into the n bytes when n > 0 and otherwise changes nothing, and it returns first + n for every n, so a negative n gives a position before first. |
| Algorithm.Fill | dw_stl/algorithm.h:372-399 | fill makes every position of [first, last) value and changes nothing else. |
| Algorithm.Equal | dw_stl/algorithm.h:313-326 | equal is true exactly when the first range equals the same-length prefix of the second. |
| Algorithm.EqualBy | dw_stl/algorithm.h:328-338 | equal with cmp is true exactly when cmp holds pairwise over the first range. |
| Algorithm.LexCompareBy | dw_stl/algorithm.h:424-437 | lexicographical_compare with cmp: at the first pair where neither is less, the first range's element being smaller decides; if no pair decides, a strict prefix is less (the four documented cases). |
| Algorithm.LexicographicalCompare | dw_stl/algorithm.h:408-421 | With < on integers: true exactly when at the first difference the first element is smaller, or when the first sequence is a strict prefix of the second. |
| Algorithm.LexTrichotomy | dw_stl/algorithm.h:402-421 | Under <, lexicographical_compare is a strict total order: exactly one of a < b, a == b, b < a holds. |
| Algorithm.LexDecidedAt | dw_stl/algorithm.h:413-418 | When the sequences agree before index i and b[i] < a[i], a is not less than b. |
| Algorithm.LexByLength | dw_stl/algorithm.h:413-421 | When the shorter length's prefixes agree, a < b exactly when a is shorter. |
| Algorithm.LexIrreflexive | dw_stl/algorithm.h:408-421 | No sequence is less than itself. |
| Algorithm.Memcmp | dw_stl/algorithm.h:450 | memcmp over n bytes is -1, 0 or 1, and 0 exactly when the prefixes agree. |
| Algorithm.MemcmpIsLex | dw_stl/algorithm.h:450 | memcmp is negative (positive) exactly when the first differing byte of s1 is smaller (larger). |
| Algorithm.LexBytesAgreesWithGeneric | dw_stl/algorithm.h:440-453 | The unsigned char specialisation returns what the generic algorithm returns. |
| Algorithm.LexicographicalCompareBytes | dw_stl/algorithm.h:440-453 | The unsigned char overload: memcmp over the common length decides, and on a tie the shorter range is less; Algorithm.LexBytesAgreesWithGeneric proves it equals the generic algorithm. |
| Algorithm.Mismatch | dw_stl/algorithm.h:459-469 | mismatch returns the first index where the ranges differ, or the first range's length. |
| Iterators.CategoryHierarchy | dw_stl/iterator.h:131-148 | The tags form the chain random_access -> bidirectional -> forward -> input. Each is_*_iterator test holds for every subcategory, and output is unrelated. |
| Iterators.ConvertsTo | dw_stl/iterator.h:121-128 | is_convertible on tags: a tag converts to itself and, through its base classes, to every ancestor; Iterators.ConvertsToDeepens and ConvertsToTransitive prove it is a partial order that follows derivation. |
| Iterators.IsInputIterator | dw_stl/iterator.h:130-133 | is_input_iterator: the category converts to input_iterator_tag; Iterators.CategoryHierarchy proves forward, bidirectional and random access pass, output does not. |
| Iterators.IsOutputIterator | dw_stl/iterator.h:134-137 | is_output_iterator: the category converts to output_iterator_tag; Iterators.CategoryHierarchy proves only the output tag passes. |
| Iterators.IsForwardIterator | dw_stl/iterator.h:138-141 | is_forward_iterator: the category converts to forward_iterator_tag; Iterators.CategoryHierarchy proves bidirectional and random access pass too. |
| Iterators.IsBidirectionalIterator | dw_stl/iterator.h:142-145 | is_bidirectional_iterator: the category converts to bidirectional_iterator_tag; Iterators.CategoryHierarchy proves random access passes too. |
| Iterators.IsRandomAccessIterator | dw_stl/iterator.h:146-149 | is_random_access_iterator: only the random-access tag passes, as Iterators.CategoryHierarchy proves. |
| Iterators.ConvertsToDeepens | dw_stl/iterator.h:14-18 | Category conversion follows derivation depth, and is antisymmetric. |
| Iterators.ConvertsToTransitive | dw_stl/iterator.h:14-18 | Category conversion is transitive. |
| Iterators.BestOverload | dw_stl/iterator.h:185-255 | Tag dispatch picks a provided overload that the category converts to, and it is the most derived one. |
| Iterators.DistanceDispatch | dw_stl/iterator.h:212-218 | distance uses last - first exactly for random-access iterators. |
| Iterators.AdvanceDispatch | dw_stl/iterator.h:250-255 | advance uses += for random access, the bidirectional loop for bidirectional iterators, and the input loop otherwise. |
| Iterators.DistanceInput | dw_stl/iterator.h:186-199 | The counting loop of distance returns last - first. |
| Iterators.Distance | dw_stl/iterator.h:201-218 | distance, for every category, returns last - first: the counting loop and the subtraction agree. |
| Iterators.AdvanceInput | dw_stl/iterator.h:226-231 | The input advance moves i by n. |
| Iterators.AdvanceBidirectional | dw_stl/iterator.h:234-241 | The bidirectional advance, corrected, moves i by n for negative n too. |
| Iterators.BackwardLoopAsWrittenOffByOne | dw_stl/iterator.h:240 | while (++n) --i steps back only abs(n) - 1 times. |
| Iterators.AdvanceBackOneAsWrittenStays | dw_stl/iterator.h:240 | advance(i, -1) as written does not move i. |
| Iterators.BackwardLoopAsWritten | dw_stl/iterator.h:240 | The backward loop `while (++n) --i;` as written, for n < 0. Iterators.BackwardLoopAsWrittenOffByOne proves it ends at i + n + 1. |
| Iterators.Advance | dw_stl/iterator.h:243-255 | advance moves i by exactly n. |
| Iterators.Deref | dw_stl/iterator.h:297-302 | *r is *(r.base() - 1). |
| Iterators.Increment | dw_stl/iterator.h:312-323 | ++r decrements the base, and r moves one step in reverse order (the difference is 1). |
| Iterators.Decrement | dw_stl/iterator.h:327-338 | --r increments the base and is undone by ++r. |
| Iterators.Plus | dw_stl/iterator.h:341-350 | r + n and r += n subtract n from the base, at difference n. |
| Iterators.Minus | dw_stl/iterator.h:353-362 | r - n and r -= n add n to the base, undone by + n. |
| Iterators.Index | dw_stl/iterator.h:365-368 | r[n] is the element n places further in reverse order. |
| Iterators.Base | dw_stl/iterator.h:291-294 | base() is the stored position current; Iterators.Deref reads the element just before it. |
| Iterators.Diff | dw_stl/iterator.h:371-374 | r1 - r2 is rhs.base() - current; Iterators.Increment and Iterators.Plus prove ++ and + n move it by 1 and n. |
| Iterators.Equal | dw_stl/iterator.h:377-380 | == compares the bases; Iterators.ComparisonsAgreeWithDiff proves it holds exactly when the difference is 0. |
| Iterators.NotEqual | dw_stl/iterator.h:389-392 | != compares the bases; Iterators.ComparisonsAgreeWithDiff proves it is the negation of ==. |
| Iterators.LessAsWritten | dw_stl/iterator.h:383-386 | < as written, current < rhs.base(); Iterators.LessAsWrittenContradictsDiff proves it is the corrected >. |
| Iterators.GreaterAsWritten | dw_stl/iterator.h:395-398 | > as written, current > rhs.base(); Iterators.LessAsWrittenContradictsDiff proves it is the corrected <. |
| Iterators.Less | dw_stl/iterator.h:383-386 | The corrected <, rhs.base() < current; Iterators.ComparisonsAgreeWithDiff proves it holds exactly when r1 - r2 < 0. |
| Iterators.Greater | dw_stl/iterator.h:395-398 | The corrected >, r2 < r1; Iterators.ComparisonsAgreeWithDiff proves it holds exactly when r1 - r2 > 0. |
| Iterators.LessEqual | dw_stl/iterator.h:400-404 | <= as !(r1 > r2); Iterators.ComparisonsAgreeWithDiff proves it is < or ==. |
| Iterators.GreaterEqual | dw_stl/iterator.h:406-410 | >= as !(r1 < r2); Iterators.ComparisonsAgreeWithDiff proves it is > or ==. |
| Iterators.ReverseTraversal | dw_stl/iterator.h:297-350 | Starting from reverse_iterator(end), step k reads s[size - 1 - k]. |
| Iterators.ComparisonsAgreeWithDiff | dw_stl/iterator.h:371-410 | With the base order reversed, <, >, <= and >= agree with the difference r2.base() - r1.base(). == and != agree with equality of bases. |
| Iterators.LessAsWrittenContradictsDiff | dw_stl/iterator.h:383-398 | For bases 2 and 1 the difference is -1, yet < as written is false; for bases 1 and 2 it is 1, yet > as written is false. For all iterators the as-written < is the corrected > and the as-written > is the corrected <. |
| Algo.IterSwap | dw_stl/algo.h:12-16 | iter_swap exchanges the two cells, which may coincide, and changes nothing else. |
| Algo.Reversed | dw_stl/algo.h:17-47 | The reference reversal: element k is s[size - 1 - k]. |
| Algo.ReversedInvolution | dw_stl/algo.h:17-47 | Reversing twice is the identity, and reversal turns concatenation around. |
| Algo.ReverseRandomAccess | dw_stl/algo.h:35-41 | The random-access reverse reverses the range, touches nothing else, and makes (n + 1) / 2 iterations: floor(n / 2) proper swaps, plus the middle cell with itself when n is odd. |
| Algo.ReverseBidirectional | dw_stl/algo.h:20-32 | The bidirectional reverse reverses the range and leaves empty and one-element ranges untouched. |
| Algo.ReverseDispatch | dw_stl/algo.h:43-47 | reverse takes the random-access overload exactly for random-access iterators. |
| Algo.Reverse | dw_stl/algo.h:43-47 | reverse leaves the range holding its old elements in reverse order. |
| Util.Swap | dw_stl/util.h:53-59 | swap exchanges the two values. |
| Util.SwapCells | dw_stl/util.h:53-59 | swap(*p, *q) exchanges the two cells, which may coincide, and nothing else. |
| Util.SwapRange | dw_stl/util.h:61-68 | swap_range trades [first1, last1) element-wise with the range at first2, returns first2 + n, and leaves every other cell alone. |
| Util.MakePair | dw_stl/util.h:295-299 | make_pair(a, b) has first a and second b. |
| Util.Equal | dw_stl/util.h:253-256 | pair ==: both components equal; Util.EqualIsEquality proves it is equality of the pairs. |
| Util.NotEqual | dw_stl/util.h:263-266 | pair !=: !(*this == rhs); Util.EqualIsEquality proves it is inequality of the pairs. |
| Util.LessAsWritten | dw_stl/util.h:258-261 | pair < as written, first < rhs.first && second < rhs.second; Util.PairOrderAsWrittenIsNotTotal proves it leaves (1, 2) and (2, 1) unordered. |
| Util.GreaterAsWritten | dw_stl/util.h:268-271 | pair > as written, *this < rhs; Util.PairOrderAsWrittenIsNotTotal proves (1, 1) is both < and > (2, 2). |
| Util.Less | dw_stl/util.h:258-261 | The lexicographic < the operator family evidently intends; Util.LessIsStrictTotalOrder proves it is a strict total order. |
| Util.Greater | dw_stl/util.h:268-271 | The corrected >, rhs < *this; Util.LessIsStrictTotalOrder proves exactly one of <, == and > holds. |
| Util.LessEqual | dw_stl/util.h:273-276 | <= as !(*this > rhs); Util.LessIsStrictTotalOrder proves it is < or ==. |
| Util.GreaterEqual | dw_stl/util.h:278-281 | >= as !(*this < rhs); Util.LessIsStrictTotalOrder proves it is > or ==. |
| Util.EqualIsEquality | dw_stl/util.h:253-266 | pair == holds exactly when both components are equal, and != is its negation. |
| Util.LessIsStrictTotalOrder | dw_stl/util.h:258-281 | The intended < is lexicographic and a strict total order, with <= as < or ==, and >= as > or ==. |
| Util.PairOrderAsWrittenIsNotTotal | dw_stl/util.h:258-276 | As written, (1, 2) and (2, 1) are unordered and unequal, and (1, 1) is both < and > (2, 2). |
| Util.PairVar.Assign | dw_stl/util.h:193-214 | operator=: both fields are taken from rhs, and self-assignment changes nothing. |
| Util.PairVar.Swap | dw_stl/util.h:242-249 | pair::swap exchanges both components, and self-swap changes nothing. |
| Util.PairVar.constructor | dw_stl/util.h:96-104 | pair(a, b) holds a as first and b as second. |
| Util.PairVar.Get | dw_stl/util.h:84-85 | The pair value the object holds: its first and second members. |
| Functional.Divides | dw_stl/functional.h:60-67 | divides rounds toward zero: q * y + x % y == x. |
| Functional.Modulus | dw_stl/functional.h:70-77 | modules is the C++ remainder; Functional.DividesRoundsTowardZero proves it is smaller in magnitude than y and takes the sign of x. |
| Functional.Plus | dw_stl/functional.h:30-37 | plus is x + y; Functional.IdentityElements proves 0 is neutral for it on both sides. |
| Functional.Minus | dw_stl/functional.h:40-47 | minus is x - y; Functional.IdentityElements proves it is plus of the negation. |
| Functional.Multiplies | dw_stl/functional.h:50-57 | multiplies is x * y; Functional.IdentityElements proves 1 is neutral for it on both sides. |
| Functional.Negate | dw_stl/functional.h:80-87 | negate is -x; Functional.IdentityElements proves it is an involution. |
| Functional.IdentityElementPlus | dw_stl/functional.h:90-94 | identity_element(plus) is 0; Functional.IdentityElements proves it neutral on both sides. |
| Functional.IdentityElementMultiplies | dw_stl/functional.h:97-101 | identity_element(multiplies) is 1; Functional.IdentityElements proves it neutral on both sides. |
| Functional.EqualTo | dw_stl/functional.h:104-111 | equal_to is x == y; Functional.ComparisonFunctors relates it to the other five. |
| Functional.NotEqualTo | dw_stl/functional.h:114-121 | not_equal_to; Functional.ComparisonFunctors proves it is the negation of equal_to. |
| Functional.Greater | dw_stl/functional.h:124-131 | greater; Functional.ComparisonFunctors proves it is less with the arguments swapped. |
| Functional.Less | dw_stl/functional.h:134-141 | less; Functional.ComparisonFunctors proves exactly one of less, equal_to and greater holds. |
| Functional.GreaterEqual | dw_stl/functional.h:144-151 | greater_equal; Functional.ComparisonFunctors proves it is the negation of less. |
| Functional.LessEqual | dw_stl/functional.h:154-161 | less_equal; Functional.ComparisonFunctors proves it is the negation of greater. |
| Functional.LogicalAnd | dw_stl/functional.h:164-171 | logical_and; Functional.LogicalFunctors proves its negation is logical_or of the negations. |
| Functional.LogicalOr | dw_stl/functional.h:174-181 | logical_or; Functional.LogicalFunctors proves its negation is logical_and of the negations. |
| Functional.LogicalNot | dw_stl/functional.h:184-191 | logical_not; Functional.LogicalFunctors proves it is an involution. |
| Functional.Identity | dw_stl/functional.h:194-201 | identity returns its argument; Functional.Selectors relates the projections to it. |
| Functional.SelectFirst | dw_stl/functional.h:204-211 | selectfirst returns the pair's first; Functional.Selectors proves it takes make_pair apart. |
| Functional.SelectSecond | dw_stl/functional.h:214-221 | selectsecond returns the pair's second; Functional.Selectors proves it takes make_pair apart. |
| Functional.ProjectFirst | dw_stl/functional.h:224-231 | projectfirst returns its first argument; Functional.Selectors proves it is identity of that argument. |
| Functional.ProjectSecond | dw_stl/functional.h:234-241 | projectsecond returns its second argument; Functional.Selectors proves it is identity of that argument. |
| Functional.DividesRoundsTowardZero | dw_stl/functional.h:60-77 | The remainder is smaller than the divisor in magnitude and has the dividend's sign. The quotient is odd in each argument. |
| Functional.IdentityElements | dw_stl/functional.h:90-101 | identity_element(plus) is 0 and identity_element(multiplies) is 1, each neutral on both sides. |
| Functional.ComparisonFunctors | dw_stl/functional.h:104-161 | The six comparison functors are one order seen six ways, and exactly one of less, equal_to, greater holds. |
| Functional.LogicalFunctors | dw_stl/functional.h:164-191 | logical_and and logical_or are dual under logical_not, and not is an involution. |
| Functional.Selectors | dw_stl/functional.h:194-241 | selectfirst and selectsecond take make_pair apart, and the projections return one argument. |
| Functional.HashInteger | dw_stl/functional.h:260-281 | The integer hash is static_cast<size_t>: a value below 2^64 congruent to the input. |
| Functional.HashIntegerInjective | dw_stl/functional.h:260-281 | Unsigned values are hashed to themselves, and distinct signed 64-bit values hash apart. |
| Functional.BitwiseHash | dw_stl/functional.h:286-302 | bitwise_hash returns FNV-1a of the count bytes: h := (h xor b) * prime mod 2^64, from the 64-bit offset basis. |
| Functional.FnvStep | dw_stl/functional.h:296-300 | One round of bitwise_hash: xor the byte, then multiply by fnv_prime modulo 2^64; Functional.FnvShortInputs proves a one-byte hash is one round. |
| Functional.Fnv1a | dw_stl/functional.h:286-302 | The hash bitwise_hash computes, the rounds from fnv_offset; Functional.BitwiseHash proves the loop returns it, and Functional.FnvTestVector checks the published vector. |
| Functional.FnvFromConcat | dw_stl/functional.h:295-300 | Hashing s + t continues from the hash of s. |
| Functional.FnvShortInputs | dw_stl/functional.h:295-301 | With count 0 the result is the offset basis, and one byte is one round. |
| Functional.FnvTestVector | dw_stl/functional.h:286-302 | The hash of "a" is 0xaf63dc4c8601ec8c. |
| Memory.Clamp | dw_stl/memory.h:30-31 | The clamped request is len or INT_MAX / sizeof(T), whichever is smaller. |
| Memory.GetBufferHelper | dw_stl/memory.h:27-42 | get_buffer_helper's loop returns the outcome of the halving policy on the clamped request. |
| Memory.AttemptsHalve | dw_stl/memory.h:32-40 | The requests start at len, are positive, and each halves the one before. |
| Memory.FirstFitIsFirstGranted | dw_stl/memory.h:32-41 | The result is the first request malloc grants, with its length, or (nullptr, 0) when all fail. |
| Memory.GetBufferBounds | dw_stl/memory.h:27-42 | The result is (nullptr, 0) or a non-null buffer of L elements, 0 < L <= min(len, INT_MAX / sizeof(T)). |
| Memory.TemporaryBuffer.AllocateBuffer | dw_stl/memory.h:121-135 | allocate_buffer records original_len first, then applies the same clamp and halving policy. |
| Memory.TemporaryBuffer.Size | dw_stl/memory.h:78 | size() is len, which Memory.TemporaryBuffer.AllocateBuffer sets to the length obtained. |
| Memory.TemporaryBuffer.RequestedSize | dw_stl/memory.h:79 | requested_size() is original_len, which Memory.TemporaryBuffer.AllocateBuffer sets to the length asked for. |
| Memory.AutoPtr.constructor | dw_stl/memory.h:149 | auto_ptr(p) owns p. |
| Memory.AutoPtr.Transfer | dw_stl/memory.h:150 | The transferring constructor owns rhs's old pointer and leaves rhs null. |
| Memory.AutoPtr.Release | dw_stl/memory.h:196-202 | release() returns the owned address and holds null, deleting nothing. |
| Memory.AutoPtr.Get | dw_stl/memory.h:190-193 | get() is the owned pointer, which Release, Reset and Assign update. |
| Memory.AutoPtr.Reset | dw_stl/memory.h:205-212 | reset(p) with p != held deletes the old object and owns p. reset(held) changes nothing. |
| Memory.AutoPtr.Assign | dw_stl/memory.h:155-163 | Self-assignment changes nothing. Otherwise the old object is deleted and ownership moves from rhs, which becomes null. |
| Stack.PushThenPop | dw_stl/stack.h:109-124 | After push(v), top() is v, and pop() gives the old stack back. |
| Stack.PushAllAppends | dw_stl/stack.h:109-118 | Pushing a sequence appends it. |
| Stack.PushCount | dw_stl/stack.h:109-118 | N pushes onto an empty stack give N elements. |
| Stack.LastInFirstOut | dw_stl/stack.h:120-131 | Popping until empty yields the pushed elements in reverse order. |
| Stack.Stack.Top | dw_stl/stack.h:83-91 | top() is the last element of the container. |
| Stack.Stack.constructor | dw_stl/stack.h:36 | stack(): the container is empty. |
| Stack.Stack.WithCount | dw_stl/stack.h:39-42 | stack(n) and stack(n, value): the container holds n copies of the value. |
| Stack.Stack.FromSeq | dw_stl/stack.h:44-52 | stack(first, last), stack(ilist) and stack(c_): the container holds exactly these elements. |
| Stack.Stack.Copy | dw_stl/stack.h:54-57 | The copy and move constructors: the container equals rhs's. |
| Stack.Stack.Assign | dw_stl/stack.h:60-71 | operator=(const stack&) and operator=(stack&&): the container becomes rhs's. |
| Stack.Stack.AssignSeq | dw_stl/stack.h:74-78 | operator=(ilist): the container becomes ilist. |
| Stack.Stack.Size | dw_stl/stack.h:97-100 | size() is the container's size; Stack.Stack.Push proves it grows by one. |
| Stack.Stack.NotEquals | dw_stl/stack.h:164-168 | != as !(lhs == rhs); Stack.StackOrder proves it holds exactly when the containers differ. |
| Stack.Stack.Greater | dw_stl/stack.h:170-174 | > as rhs < lhs; Stack.StackOrder proves it excludes < and ==. |
| Stack.Stack.LessEqual | dw_stl/stack.h:176-180 | <= as !(rhs < lhs); Stack.StackOrder proves it is < or ==. |
| Stack.Stack.GreaterEqual | dw_stl/stack.h:182-186 | >= as !(lhs < rhs), the negation of Stack.Stack.Less. |
| Stack.Stack.Empty | dw_stl/stack.h:93-96 | empty() holds exactly when the container is empty. |
| Stack.Stack.Push | dw_stl/stack.h:102-118 | push and emplace append v; then top() == v and size() is one more. |
| Stack.Stack.Pop | dw_stl/stack.h:120-124 | pop() removes the last element. |
| Stack.Stack.Clear | dw_stl/stack.h:127-131 | clear() pops until empty, and the loop terminates. |
| Stack.Stack.Swap | dw_stl/stack.h:133-136 | swap exchanges the containers. |
| Stack.Stack.Equals | dw_stl/stack.h:140-155 | == holds exactly when the containers are equal. The friend operator and the free template that forwards to it. |
| Stack.Stack.Less | dw_stl/stack.h:144-161 | < is lexicographical_compare of the containers. The friend operator and the free template that forwards to it. |
| Stack.StackOrder | dw_stl/stack.h:140-147 | On integer stacks, <, == and > are exclusive and exhaustive, != negates ==, and <= is < or ==. |
| Queue.PoppedFront | dw_stl/queue.h:124-128 | pop() leaves the container without its first element. |
| Queue.PushKeepsFront | dw_stl/queue.h:114-128 | push makes v back(), keeps a non-empty queue's front, and commutes with pop. |
| Queue.DrainFrontInOrder | dw_stl/queue.h:124-134 | Popping until empty yields the elements front first. |
| Queue.FirstInFirstOut | dw_stl/queue.h:102-134 | N pushes onto an empty queue give N elements, which come off in push order. |
| Queue.Queue.Front | dw_stl/queue.h:80-87 | front() is the first element of the container. |
| Queue.Queue.constructor | dw_stl/queue.h:35 | queue(): the container is empty. |
| Queue.Queue.WithCount | dw_stl/queue.h:37-39 | queue(n) and queue(n, value): the container holds n copies of the value. |
| Queue.Queue.FromSeq | dw_stl/queue.h:41-50 | queue(first, last), queue(ilist) and queue(c_): the container holds exactly these elements. |
| Queue.Queue.Copy | dw_stl/queue.h:52-55 | The copy and move constructors: the container equals rhs's. |
| Queue.Queue.Assign | dw_stl/queue.h:58-68 | operator=(const queue&) and operator=(queue&&): the container becomes rhs's. |
| Queue.Queue.AssignSeq | dw_stl/queue.h:70-74 | operator=(ilist): the container becomes ilist. |
| Queue.Queue.Size | dw_stl/queue.h:102-105 | size() is the container's size; Queue.Queue.Push proves it grows by one. |
| Queue.Queue.NotEquals | dw_stl/queue.h:160-164 | != as !(lhs == rhs); Queue.QueueOrder proves it holds exactly when the containers differ. |
| Queue.Queue.Greater | dw_stl/queue.h:172-176 | > as rhs < lhs; Queue.QueueOrder proves it excludes < and ==. |
| Queue.Queue.LessEqual | dw_stl/queue.h:178-182 | <= as !(rhs < lhs); Queue.QueueOrder proves it is < or ==. |
| Queue.Queue.GreaterEqual | dw_stl/queue.h:184-188 | >= as !(lhs < rhs), the negation of Queue.Queue.Less. |
| Queue.Queue.Back | dw_stl/queue.h:88-95 | back() is the last element. |
| Queue.Queue.Empty | dw_stl/queue.h:98-101 | empty() holds exactly when the container is empty. |
| Queue.Queue.Push | dw_stl/queue.h:107-122 | push and emplace append v; then back() == v, size() is one more, and a non-empty queue keeps its front. |
| Queue.Queue.Pop | dw_stl/queue.h:124-128 | pop() removes the front element. |
| Queue.Queue.Clear | dw_stl/queue.h:130-134 | clear() pops until empty, and the loop terminates. |
| Queue.Queue.Swap | dw_stl/queue.h:136-140 | swap exchanges the containers. |
| Queue.Queue.Equals | dw_stl/queue.h:143-158 | == holds exactly when the containers are equal. The friend operator and the free template that forwards to it. |
| Queue.Queue.Less | dw_stl/queue.h:147-170 | < is lexicographical_compare of the containers. The friend operator and the free template that forwards to it. |
| Queue.QueueOrder | dw_stl/queue.h:143-150 | On integer queues, <, == and > are exclusive and exhaustive, != negates ==, and <= is < or ==. |

## Left out

**Memory and object lifetime**
- Element construction and destruction are plain value writes. `allocator.h`, `construct.h` and `uninitialized.h` are not part of this model; their value-level effect is that of copy and fill.
- Allocating the map never fails in the model. So the deque constructors (`Deque.Deque.Fill`, `CopyInit`, `CopyInitInput`) and the map-allocating growth steps assume enough memory is available. Buffer allocation can fail, through the `alloc` oracle. Element construction fails only in `push_front`/`emplace_front`, as the code's rollback there requires.
- Releasing memory is not observable in Dafny, so nothing about freeing is stated. A buffer or map that the source frees simply becomes unreachable. In particular:
  - move-assignment's failure to free the old map (deque.h:616-623) is not visible;
  - so are the destructors of `deque`, `auto_ptr` and `temporary_buffer`.
- The constructor of `temporary_buffer` (memory.h:99-118) and its fill of the obtained buffer are left out, because they are foreign allocation plus placement construction. The source leaves `buffer` indeterminate before `allocate_buffer`; the model starts it at nullptr.
- `malloc` is an oracle from the requested byte count to a pointer. `delete` is recorded in a ghost log.
- Memory.AutoPtr: the templated `operator=` (memory.h:165-174) compares `this->get` without calling it and does not compile, so only the plain `operator=` is modelled.

**Operations not modelled**
- `insert(position, first, last)` for input iterators (deque.h:1364-1384) is not modelled. It reuses `position` after every insert invalidates it, and at the value level the result depends on which side each insert shifts.
- The deque's `!=`, `>`, `<=` and `>=` (deque.h:1531-1559) are not separate members. They are the negation and argument swap of `Deque.Equals` and `Deque.Less`. The stack and queue versions are modelled, and StackOrder and QueueOrder relate them.
- The global `swap(lhs, rhs)` (deque.h:1562-1566) only calls `lhs.swap(rhs)`, so it is `Deque.Deque.Swap`.
- `copy_assign` for input iterators (deque.h:1134-1153) is not modelled; the forward-iterator version is. Both write the same values.
- The comparator overloads are left out:
  - the heap algorithms. The `adjust_heap` overload tests `(value, cmp(x))` (heap_algo.h:126) and does not compile. The `sort_heap` overload calls itself rather than `pop_heap` (heap_algo.h:170);
  - `mismatch` (algorithm.h:473-476).
  The heap algorithms are stated on `int` with `<`.
- The free template `operator==` and `operator<` of stack.h (stack.h:150-161) and queue.h (queue.h:153-170) forward to the friend comparisons, which argument-dependent lookup finds and overload resolution prefers as exact non-template matches. So `Stack.Stack.Equals`, `Stack.Stack.Less`, `Queue.Queue.Equals` and `Queue.Queue.Less` cover them.
- The reverse_iterator's own `<=` and `>=` refer to an undeclared `lhs` and do not compile. The model gives them the meaning `!(>)` and `!(<)`.
- The hash of pointers (functional.h:250-257) uses `reinterpret_cast`, and the hashes of floating-point types (functional.h:304-329) are floating point. Both are left out.
- Functional: the 32-bit FNV constants (functional.h:292-293) are left out. The hash is stated for 64-bit `size_t`.
- vector.h is an incomplete class with no operations and is not part of this model.

**Representation choices**
- Deque.Deque.Move: rhs keeps its begin and end. The source's `rhs.begin_ = nullptr; rhs.end_ = nullptr;` (deque.h:331-332) does not compile, and the model has no null iterator. Once rhs's map is null, the destructor's `map_ != nullptr` test skips everything that would read them.
- `B` is a positive parameter of each deque (`bufSize`), not `deque_buf_size<T>`. `DequeIterators.BufSize` states the source's formula separately.
- Functional: the arithmetic functors are stated on unbounded integers, so the element type's overflow is not modelled.
- Iterators: an iterator over a range is its integer position. The SFINAE trait machinery (iterator.h:42-163) is compile-time selection, modelled only as `BestOverload`.

**Typos modelled as evidently intended**
Several typos keep the source from compiling. Each is modelled as intended:
- `mystl::swap` in `deque::swap`;
- `beign_` in the deque;
- the missing `;` after `*(mp + 1) = nullptr` in `create_map`;
- `return result` without `;` in the random-access `copy`;
- the two-argument `copy` call in `operator=`;
- `self& -=` without `operator` in the deque iterator (deque.h:205);
- `begin_(n)` for `begin_[n]` in the non-const `operator[]` (deque.h:440);
- the postfix `--` of `reverse_iterator` declared without its `int` parameter (iterator.h:333);
- `_end.cur` for `end_.cur` in `emplace_back` (deque.h:696), which `push_back(T&&)` reaches through deque.h:518;
- the three-argument call `uninitialized_copy_dispatch(first, mid, ...)` in `copy_insert` (deque.h:1315), where both overloads take a fourth tag argument (uninitialized.h:32, 41); it is modelled as `uninitialized_copy`;
- `throw();` for `throw;` in the back-end `catch` of `fill_insert` (deque.h:1281-1282);
- `rhs.begin_ = nullptr; rhs.end_ = nullptr;` in the move constructor (deque.h:331-332), since `deque_iterator` has no constructor from a single pointer (deque.h:81-99) and its only `operator=` takes `const iterator&` (deque.h:102). `Deque.Deque.Move` leaves rhs's begin and end as they were;
- the second `front()` and `back()` declared `const_reference` without `const` (deque.h:465, 476), which redeclare the non-const ones with only the return type changed. Each pair is one member, `Deque.Deque.Front` or `Deque.Deque.Back`;
- the undeclared `Iterator` in `is_iterator` (iterator.h:153);
- `iterator_catogory` for `iterator_category` in the return type of `iterator_category()` (iterator.h:158), which `deque::assign` calls (deque.h:495).

## Findings

| source | as written | input that shows it | evidently intended | confidence | as-written member | corrected member |
|---|---|---|---|---|---|---|
| dw_stl/deque.h:991-992 | `create_map` stores nullptr into `*(mp + 1)` on every round | any map of 8 slots whose fresh memory is non-null: 7 slots keep garbage | `*(mp + i) = nullptr` | not executed | DequeAsWritten.CreateMapKeepsGarbage | Deque.CreateMap |
| dw_stl/deque.h:1004 | `create_buffer` loops over `[start, finish)`; every caller passes an inclusive last slot | `map_init(n)` with n < B: start == finish, so no buffer is allocated, though begin and end point into that slot | allocate `[start, finish]` | not executed | DequeAsWritten.CreateBufferAsWrittenSkipsFinish | Deque.Deque.CreateBuffer |
| dw_stl/deque.h:1455-1456 | the back `need_buffer` lacks the front's `+ 1`, and `if (...);` makes reallocation unconditional | push_back at the last cell of a buffer (n = 1, room = 0): need = 0 buffers, and end then steps into an unallocated slot | need = (n - room) / B + 1; reallocate only if the free slots after end are fewer than need | not executed | DequeAsWritten.RequireBackAsWrittenFallsShort | Deque.Deque.RequireCapacity |
| dw_stl/deque.h:896 | `erase(position)` front half copies the k elements before position to `next`, one past position, so they overwrite the k elements after it; position's own element survives and `pop_front` drops only the first | erasing index 2 of [1, 2, 3, 4, 5, 6] gives [2, 3, 1, 2, 6] | `copy_backward(begin_, position, next)` | not executed | DequeAsWritten.EraseFrontAsWrittenOverwritesAfter | Deque.Deque.Erase |
| dw_stl/deque.h:1088-1095 | `copy_init` for input iterators calls `map_init(n)`, which already makes n elements, then `emplace_back`s the n values | a range of 2 values gives a deque of 4 elements | `map_init(0)` and then `emplace_back` each value | not executed | Deque.Deque.CopyInitInputAsWritten | Deque.Deque.CopyInitInput |
| dw_stl/deque.h:726 | `emplace` at the end returns `end_`, one past the new element | emplace(end(), v) returns end(), where insert(end(), v) returns end() - 1 | return `end_ - 1`, as insert does | not executed | Deque.Deque.Emplace | Deque.Deque.Insert |
| dw_stl/heap_algo.h:92-95 | `adjust_heap` keeps descending after a child that is not above value, leaving the hole's old value in place, and writes value only at the leaf; pop_heap, make_heap and sort_heap all reach it | pop_heap on the heap [3, 1, 2] gives [3, 2, 3]: 1 is lost | stop when the larger child is not above value | not executed | Heap.PopHeapAsWrittenLosesElement | Heap.PopHeap |
| dw_stl/heap_algo.h:185-186 | make_heap_aux calls the as-written `adjust_heap` on every slot, so it breaks even a range that is already a heap | make_heap on [5, 3, 4, 1, 2] gives [5, 3, 5, 1, 3]: 4 and 2 are lost | the same loop over the corrected `adjust_heap` | not executed | Heap.MakeHeapAsWrittenLosesElements | Heap.MakeHeap |
| dw_stl/heap_algo.h:159-161 | sort_heap's rounds are the as-written `pop_heap` | sort_heap on the heap [3, 1, 2] gives [2, 3, 3]: 1 is lost | the same loop over the corrected `pop_heap` | not executed | Heap.SortHeapAsWrittenLosesElement | Heap.SortHeap |
| dw_stl/algorithm.h:180-181 | the input-iterator `copy_n` never advances `first` | copy_n of [1, 2] with n = 2 writes [1, 1] and returns first unadvanced | `++first` in each round | not executed | Algorithm.CopyNInputAsWrittenRepeatsFirst | Algorithm.CopyN |
| dw_stl/algorithm.h:264-265 | the bidirectional `move_backward` never decrements `last` and reads `*last` | any non-empty range: the loop never ends | `*--result = move(*--last)` | not executed | Algorithm.MoveBackwardBidiNeverStops | Algorithm.MoveBackward |
| dw_stl/iterator.h:240 | `while (++n) --i;` steps back abs(n) - 1 times | advance(i, -1) does not move i | `while (n++) --i;` | not executed | Iterators.AdvanceBackOneAsWrittenStays | Iterators.AdvanceBidirectional |
| dw_stl/iterator.h:383-398 | reverse_iterator `<` and `>` compare bases in forward order | bases 2 and 1: r1 - r2 == -1, yet r1 < r2 is false; bases 1 and 2: r1 - r2 == 1, yet r1 > r2 is false | `rhs.base() < current` for `<` and `rhs.base() > current` for `>` | not executed | Iterators.LessAsWrittenContradictsDiff | Iterators.ComparisonsAgreeWithDiff |
| dw_stl/util.h:258-276 | pair `<` is a conjunction of the components, and `>` returns `*this < rhs` | (1, 2) and (2, 1) are unordered; (1, 1) is both < and > (2, 2) | lexicographic `<`, with `>` as `rhs < *this` | not executed | Util.PairOrderAsWrittenIsNotTotal | Util.LessIsStrictTotalOrder |
