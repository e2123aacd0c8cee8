/**
 * The queue adapter of queue.h: a first-in first-out view of an underlying
 * sequence container `c` (a deque by default); elements enter at the back
 * and leave at the front.
 *
 * The container is held as the sequence of its elements; push is the same
 * c.push_back as the stack's, so the queue reuses Stack.Pushed and
 * Stack.PushAll. The comparisons are those of the container.
 */
module Queue {
  import opened Common
  import Algorithm
  import Stack

  // ---------------------------------------------------------------------
  // The queue operations on the container's contents
  // ---------------------------------------------------------------------

  /** The contents after pop(): c.pop_front(). */
  function PoppedFront<T>(c: seq<T>): (r: seq<T>)
    requires |c| > 0
    ensures |r| == |c| - 1 && c == [c[0]] + r
  {
    c[1..]
  }

  /** front(): c.front(). */
  function FrontOf<T>(c: seq<T>): T
    requires |c| > 0
  {
    c[0]
  }

  /** back(): c.back(). */
  function BackOf<T>(c: seq<T>): T
    requires |c| > 0
  {
    c[|c| - 1]
  }

  /** The fronts seen by popping until the queue is empty, as clear() does. */
  function DrainFront<T>(c: seq<T>): (r: seq<T>)
    decreases |c|
  {
    if |c| == 0 then [] else [FrontOf(c)] + DrainFront(PoppedFront(c))
  }

  /**
   * push adds at the back and leaves the front alone: the pushed element is back(), a
   * non-empty queue keeps its front, and push and pop on a non-empty queue commute.
   */
  lemma PushKeepsFront<T>(c: seq<T>, v: T)
    ensures BackOf(Stack.Pushed(c, v)) == v
    ensures |c| > 0 ==> FrontOf(Stack.Pushed(c, v)) == FrontOf(c)
    ensures |c| > 0 ==> PoppedFront(Stack.Pushed(c, v)) == Stack.Pushed(PoppedFront(c), v)
    ensures c == [] ==> FrontOf(Stack.Pushed(c, v)) == v
  {
  }

  /** Popping until empty yields the elements front first. */
  lemma {:induction false} DrainFrontInOrder<T>(c: seq<T>)
    ensures DrainFront(c) == c
    decreases |c|
  {
    if |c| > 0 {
      DrainFrontInOrder(c[1..]);
      assert [c[0]] + c[1..] == c;
    }
  }

  /**
   * First in, first out: the elements pushed onto an empty queue come off in the order they
   * were pushed, and N pushes give a queue of N elements.
   */
  lemma FirstInFirstOut<T>(vs: seq<T>)
    ensures DrainFront(Stack.PushAll([], vs)) == vs
    ensures |Stack.PushAll([], vs)| == |vs|
  {
    Stack.PushAllAppends([], vs);
    assert [] + vs == vs;
    DrainFrontInOrder(vs);
  }

  // ---------------------------------------------------------------------
  // The adapter
  // ---------------------------------------------------------------------

  /** queue: the underlying container's elements, front first. */
  class Queue<T(==)> {
    var c: seq<T>

    /** queue(): an empty container. */
    constructor()
      ensures c == []
    {
      c := [];
    }

    /** queue(n, value) and queue(n) (with the value-initialised element): n copies of value. */
    constructor WithCount(n: nat, value: T)
      ensures c == Repeat(value, n)
    {
      c := Repeat(value, n);
    }

    /** queue(first, last), queue(ilist) and queue(c_): a container holding these elements. */
    constructor FromSeq(s: seq<T>)
      ensures c == s
    {
      c := s;
    }

    /** The copy and move constructors: the container of rhs. */
    constructor Copy(rhs: Queue<T>)
      ensures c == rhs.c
    {
      c := rhs.c;
    }

    /** operator=(const queue&) and operator=(queue&&): c = rhs.c. */
    method Assign(rhs: Queue<T>)
      modifies this
      ensures c == old(rhs.c)
    {
      c := rhs.c;
    }

    /** operator=(ilist): c = ilist. */
    method AssignSeq(s: seq<T>)
      modifies this
      ensures c == s
    {
      c := s;
    }

    /** front(): the oldest element not yet popped. */
    function Front(): (t: T)
      requires |c| > 0
      reads this
      ensures t == FrontOf(c)
    {
      c[0]
    }

    /** back(): the most recently pushed element. */
    function Back(): (t: T)
      requires |c| > 0
      reads this
      ensures t == BackOf(c)
    {
      c[|c| - 1]
    }

    /** empty(): c.empty(). */
    function Empty(): (b: bool)
      reads this
      ensures b <==> c == []
    {
      |c| == 0
    }

    /** size(): c.size(). */
    function Size(): nat
      reads this
    {
      |c|
    }

    /** push(value) and emplace(args): c.push_back, so value becomes back() and size grows by one. */
    method Push(v: T)
      modifies this
      ensures c == Stack.Pushed(old(c), v)
      ensures Back() == v && Size() == old(Size()) + 1
      ensures old(|c|) > 0 ==> Front() == old(Front())
    {
      c := c + [v];
    }

    /** pop(): c.pop_front(), removing the front; the container must not be empty. */
    method Pop()
      requires |c| > 0
      modifies this
      ensures c == PoppedFront(old(c))
    {
      c := c[1..];
    }

    /** clear(): pop while not empty. */
    method Clear()
      modifies this
      ensures c == []
    {
      while !Empty()
        invariant c == old(c)[|old(c)| - |c|..]
        decreases |c|
      {
        Pop();
      }
    }

    /** swap(rhs): exchange the two containers. */
    method Swap(rhs: Queue<T>)
      modifies this, rhs
      ensures this != rhs ==> c == old(rhs.c) && rhs.c == old(c)
      ensures this == rhs ==> c == old(c)
    {
      var tmp := c;
      c := rhs.c;
      rhs.c := tmp;
    }

    /** operator==: the containers have the same size and are element-wise equal. */
    function Equals(rhs: Queue<T>): (r: bool)
      reads this, rhs
      ensures r <==> c == rhs.c
    {
      |c| == |rhs.c| && Algorithm.Equal(c, rhs.c)
    }

    /** operator<: lexicographical_compare of the containers. */
    function Less(rhs: Queue<T>, less: (T, T) -> bool): (r: bool)
      reads this, rhs
      ensures r <==> Algorithm.LexLessSpec(c, rhs.c, less)
    {
      Algorithm.LexCompareBy(c, rhs.c, less)
    }

    /** operator!=, >, <= and >=, derived from == and <. */
    function NotEquals(rhs: Queue<T>): bool
      reads this, rhs
    {
      !Equals(rhs)
    }

    function Greater(rhs: Queue<T>, less: (T, T) -> bool): bool
      reads this, rhs
    {
      rhs.Less(this, less)
    }

    function LessEqual(rhs: Queue<T>, less: (T, T) -> bool): bool
      reads this, rhs
    {
      !rhs.Less(this, less)
    }

    function GreaterEqual(rhs: Queue<T>, less: (T, T) -> bool): bool
      reads this, rhs
    {
      !Less(rhs, less)
    }
  }

  /**
   * On queues of integers the comparisons order queues totally: exactly one of <, == and >
   * holds, != is the negation of ==, and <= is < or ==.
   */
  lemma QueueOrder(a: Queue<int>, b: Queue<int>)
    ensures a.Less(b, Algorithm.IntLess) || a.Equals(b) || a.Greater(b, Algorithm.IntLess)
    ensures !(a.Less(b, Algorithm.IntLess) && a.Greater(b, Algorithm.IntLess))
    ensures a.Equals(b) ==> !a.Less(b, Algorithm.IntLess) && !a.Greater(b, Algorithm.IntLess)
    ensures a.NotEquals(b) <==> a.c != b.c
    ensures a.LessEqual(b, Algorithm.IntLess) <==> (a.Less(b, Algorithm.IntLess) || a.Equals(b))
  {
    Algorithm.LexTrichotomy(a.c, b.c);
    assert a.Less(b, Algorithm.IntLess) == Algorithm.LexicographicalCompare(a.c, b.c);
    assert b.Less(a, Algorithm.IntLess) == Algorithm.LexicographicalCompare(b.c, a.c);
  }
}
