/**
 * The memory management of memory.h: the request policy of
 * get_buffer_helper and temporary_buffer::allocate_buffer (clamp the
 * request to INT_MAX / sizeof(T) elements, then ask malloc, halving the
 * request after each failure), and auto_ptr, a pointer with transfer of
 * ownership.
 *
 * Memory is not modelled: a pointer is `Null` or an address, `malloc` is an
 * oracle from the requested byte count to the address it returns, and a
 * `delete` is recorded in a ghost log of deleted pointers.
 */
module Memory {
  import opened Util

  /** A raw pointer: nullptr or the address of an object. */
  datatype Ptr = Null | Addr(addr: nat)

  /** INT_MAX of a 32-bit int. */
  const IntMax: int := 0x7fff_ffff

  // ---------------------------------------------------------------------
  // get_buffer_helper and the halving request policy
  // ---------------------------------------------------------------------

  /** The request after the clamp: at most INT_MAX / sizeof(T) elements. */
  function Clamp(len: int, size: nat): (r: int)
    requires size > 0
    ensures r <= len && r <= IntMax / size
    ensures r == len || r == IntMax / size
  {
    if len > IntMax / size then IntMax / size else len
  }

  /**
   * The lengths the halving loop asks malloc for, starting from len: len, len / 2, len / 4, ...
   * while positive.
   */
  function Attempts(len: int): (r: seq<int>)
    decreases if len > 0 then len else 0
  {
    if len <= 0 then [] else [len] + Attempts(len / 2)
  }

  /**
   * The outcome of the halving loop from len: the first length for which malloc returns a
   * pointer, with that pointer, or (nullptr, 0) once the length reaches 0.
   */
  function FirstFit(len: int, size: nat, malloc: int -> Ptr): (r: Pair<Ptr, int>)
    decreases if len > 0 then len else 0
  {
    if len <= 0 then Pair(Null, 0)
    else if malloc(len * size) != Null then Pair(malloc(len * size), len)
    else FirstFit(len / 2, size, malloc)
  }

  /**
   * get_buffer_helper(len): clamp the request, then malloc(len * sizeof(T)) and halve len after
   * every failure; return the first buffer obtained with its length, or (nullptr, 0).
   */
  method GetBufferHelper(len: int, size: nat, malloc: int -> Ptr) returns (r: Pair<Ptr, int>)
    requires size > 0
    ensures r == FirstFit(Clamp(len, size), size, malloc)
  {
    var n := Clamp(len, size);
    while n > 0
      invariant FirstFit(n, size, malloc) == FirstFit(Clamp(len, size), size, malloc)
      decreases n
    {
      var tmp := malloc(n * size);
      if tmp != Null {
        return Pair(tmp, n);
      }
      n := n / 2;
    }
    r := Pair(Null, 0);
  }

  /** The attempts start at the request, are positive, and each one halves the one before. */
  lemma {:induction false} AttemptsHalve(len: int)
    ensures len > 0 ==> |Attempts(len)| > 0 && Attempts(len)[0] == len
    ensures forall i :: 0 <= i < |Attempts(len)| ==> 0 < Attempts(len)[i] <= len
    ensures forall i :: 0 < i < |Attempts(len)| ==> Attempts(len)[i] == Attempts(len)[i - 1] / 2
    decreases if len > 0 then len else 0
  {
    if len > 0 {
      AttemptsHalve(len / 2);
      var t := Attempts(len / 2);
      assert Attempts(len) == [len] + t;
      forall i | 0 < i < |Attempts(len)| ensures Attempts(len)[i] == Attempts(len)[i - 1] / 2 {
        assert Attempts(len)[i] == t[i - 1];
        if i > 1 {
          assert Attempts(len)[i - 1] == t[i - 2];
        }
      }
    }
  }

  /**
   * The number of attempts of `at` that malloc refuses before it grants one (all of them when it
   * grants none): every attempt before that index is refused, and the one at it is granted.
   */
  ghost function Refusals(at: seq<int>, size: nat, malloc: int -> Ptr): (k: nat)
    ensures k <= |at|
    ensures forall j :: 0 <= j < k ==> malloc(at[j] * size) == Null
    ensures k < |at| ==> malloc(at[k] * size) != Null
    decreases |at|
  {
    if |at| == 0 then 0
    else if malloc(at[0] * size) != Null then 0
    else
      var k := 1 + Refusals(at[1..], size, malloc);
      assert forall j :: 1 <= j < |at| ==> at[j] == at[1..][j - 1];
      k
  }

  /**
   * The halving loop returns the first attempt malloc grants, with its length, after every
   * earlier attempt failed; when every attempt fails it returns (nullptr, 0).
   */
  lemma {:induction false} FirstFitIsFirstGranted(len: int, size: nat, malloc: int -> Ptr)
    ensures var at := Attempts(len);
      var k := Refusals(at, size, malloc);
      FirstFit(len, size, malloc) == if k == |at| then Pair(Null, 0) else Pair(malloc(at[k] * size), at[k])
    decreases if len > 0 then len else 0
  {
    if len > 0 && malloc(len * size) == Null {
      FirstFitIsFirstGranted(len / 2, size, malloc);
      var at, t := Attempts(len), Attempts(len / 2);
      assert at == [len] + t && at[1..] == t;
      var k := Refusals(t, size, malloc);
      assert Refusals(at, size, malloc) == 1 + k;
      assert k < |t| ==> at[k + 1] == t[k];
    }
  }

  /**
   * get_buffer_helper returns either (nullptr, 0) or a non-null buffer of L elements with
   * 0 < L <= min(len, INT_MAX / sizeof(T)).
   */
  lemma GetBufferBounds(len: int, size: nat, malloc: int -> Ptr)
    requires size > 0
    ensures var r := FirstFit(Clamp(len, size), size, malloc);
      r == Pair(Null, 0) || (r.first != Null && 0 < r.second <= len && r.second <= IntMax / size)
  {
    var n := Clamp(len, size);
    FirstFitIsFirstGranted(n, size, malloc);
    AttemptsHalve(n);
    var at := Attempts(n);
    var k := Refusals(at, size, malloc);
    assert k < |at| ==> 0 < at[k] <= n;
  }

  // ---------------------------------------------------------------------
  // temporary_buffer
  // ---------------------------------------------------------------------

  /** temporary_buffer: the requested length, the length obtained and the buffer. */
  class TemporaryBuffer {
    var originalLen: int
    var len: int
    var buffer: Ptr

    /**
     * The buffer's state before allocate_buffer: `len` holds the distance of the range. The
     * source leaves `buffer` indeterminate; the model starts it at nullptr.
     */
    constructor(distance: int)
      ensures len == distance && buffer == Null
    {
      len := distance;
      originalLen := distance;
      buffer := Null;
    }

    /** size(): the length obtained. */
    function Size(): int
      reads this
    {
      len
    }

    /** requested_size(): the length asked for. */
    function RequestedSize(): int
      reads this
    {
      originalLen
    }

    /**
     * allocate_buffer(): record the request as original_len, clamp it, then malloc and halve
     * after every failure. A request that is not positive after the clamp leaves buffer as it
     * was and len at the clamped request; otherwise len and buffer are the outcome of the
     * halving policy, and len is 0 with buffer null when every attempt fails.
     */
    method AllocateBuffer(size: nat, malloc: int -> Ptr)
      requires size > 0
      modifies this
      ensures originalLen == old(len)
      ensures Clamp(old(len), size) <= 0 ==> len == Clamp(old(len), size) && buffer == old(buffer)
      ensures Clamp(old(len), size) > 0 ==>
        Pair(buffer, len) == FirstFit(Clamp(old(len), size), size, malloc)
    {
      originalLen := len;
      if len > IntMax / size {
        len := IntMax / size;
      }
      while len > 0
        invariant originalLen == old(len) && len <= Clamp(old(len), size)
        invariant len == Clamp(old(len), size) ==> buffer == old(buffer)
        invariant Clamp(old(len), size) <= 0 ==> len == Clamp(old(len), size)
        invariant len > 0 ==> FirstFit(len, size, malloc) == FirstFit(Clamp(old(len), size), size, malloc)
        invariant len <= 0 && Clamp(old(len), size) > 0 ==>
          Pair(buffer, len) == FirstFit(Clamp(old(len), size), size, malloc)
        decreases len
      {
        buffer := malloc(len * size);
        if buffer != Null {
          break;
        }
        len := len / 2;
      }
    }
  }

  // ---------------------------------------------------------------------
  // auto_ptr
  // ---------------------------------------------------------------------

  /** What `delete p` destroys: nothing for nullptr, the object otherwise. */
  function Deleted(p: Ptr): (r: seq<Ptr>)
    ensures (p == Null) == (r == [])
  {
    if p == Null then [] else [p]
  }

  /** auto_ptr: the address it owns, and the ghost log of the objects it has deleted. */
  class AutoPtr {
    var held: Ptr
    ghost var deleted: seq<Ptr>

    /** auto_ptr(p): take ownership of p. */
    constructor(p: Ptr)
      ensures held == p && deleted == []
    {
      held := p;
      deleted := [];
    }

    /** auto_ptr(auto_ptr& rhs): take ownership of rhs's object; rhs is left holding nullptr. */
    constructor Transfer(rhs: AutoPtr)
      modifies rhs
      ensures held == old(rhs.held) && deleted == []
      ensures rhs.held == Null && rhs.deleted == old(rhs.deleted)
    {
      held := rhs.held;
      deleted := [];
      new;
      rhs.held := Null;
    }

    /** get(): the owned pointer. */
    function Get(): Ptr
      reads this
    {
      held
    }

    /** release(): give up ownership without deleting; return the owned address and hold nullptr. */
    method Release() returns (p: Ptr)
      modifies this
      ensures p == old(held) && held == Null && deleted == old(deleted)
    {
      p := held;
      held := Null;
    }

    /**
     * reset(p): when p differs from the owned pointer, delete the owned object and own p;
     * reset with the owned pointer changes nothing.
     */
    method Reset(p: Ptr)
      modifies this
      ensures p == old(held) ==> held == old(held) && deleted == old(deleted)
      ensures p != old(held) ==> held == p && deleted == old(deleted) + Deleted(old(held))
    {
      if held != p {
        deleted := deleted + Deleted(held);
        held := p;
      }
    }

    /**
     * operator=(auto_ptr& rhs): assignment to itself changes nothing; otherwise delete the owned
     * object and take ownership from rhs, which is left holding nullptr.
     */
    method Assign(rhs: AutoPtr)
      modifies this, rhs
      ensures rhs == this ==> held == old(held) && deleted == old(deleted)
      ensures rhs != this ==> held == old(rhs.held) && deleted == old(deleted) + Deleted(old(held))
      ensures rhs != this ==> rhs.held == Null && rhs.deleted == old(rhs.deleted)
    {
      if this != rhs {
        deleted := deleted + Deleted(held);
        var p := rhs.Release();
        held := p;
      }
    }
  }
}
