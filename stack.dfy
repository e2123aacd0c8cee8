/**
 * The stack adapter of stack.h: a last-in first-out view of an underlying
 * sequence container `c` (a deque by default), whose back is the top.
 *
 * The container is held as the sequence of its elements. The comparisons
 * are those of the container: `==` is element-wise equality and `<` is
 * lexicographical_compare under the element order `less`.
 */
module Stack {
  import opened Common
  import Algorithm
  import Algo

  // ---------------------------------------------------------------------
  // The stack operations on the container's contents
  // ---------------------------------------------------------------------

  /** The contents after push(v): c.push_back(v). */
  function Pushed<T>(c: seq<T>, v: T): (r: seq<T>)
    ensures |r| == |c| + 1 && r[|c|] == v && r[..|c|] == c
  {
    c + [v]
  }

  /** The contents after pop(): c.pop_back(). */
  function Popped<T>(c: seq<T>): (r: seq<T>)
    requires |c| > 0
    ensures |r| == |c| - 1 && c == r + [c[|c| - 1]]
  {
    c[..|c| - 1]
  }

  /** top(): c.back(). */
  function TopOf<T>(c: seq<T>): T
    requires |c| > 0
  {
    c[|c| - 1]
  }

  /** The contents after pushing the elements of vs in order. */
  function PushAll<T>(c: seq<T>, vs: seq<T>): seq<T>
    decreases |vs|
  {
    if |vs| == 0 then c else PushAll(Pushed(c, vs[0]), vs[1..])
  }

  /** The tops seen by popping until the stack is empty, as clear() does. */
  function Drain<T>(c: seq<T>): (r: seq<T>)
    decreases |c|
  {
    if |c| == 0 then [] else [TopOf(c)] + Drain(Popped(c))
  }

  /** push then pop gives the stack back, and the pushed element is on top in between. */
  lemma PushThenPop<T>(c: seq<T>, v: T)
    ensures TopOf(Pushed(c, v)) == v && Popped(Pushed(c, v)) == c
  {
  }

  /** Pushing a sequence appends it to the stack, last element on top. */
  lemma {:induction false} PushAllAppends<T>(c: seq<T>, vs: seq<T>)
    ensures PushAll(c, vs) == c + vs
    decreases |vs|
  {
    if |vs| > 0 {
      PushAllAppends(Pushed(c, vs[0]), vs[1..]);
      assert c + [vs[0]] + vs[1..] == c + vs;
    }
  }

  /** N pushes onto an empty stack give a stack of N elements. */
  lemma PushCount<T>(vs: seq<T>)
    ensures |PushAll([], vs)| == |vs|
  {
    PushAllAppends([], vs);
  }

  /**
   * Last in, first out: popping a stack until it is empty yields its elements from the top
   * down, so the elements pushed onto an empty stack come off in reverse order.
   */
  lemma {:induction false} LastInFirstOut<T>(vs: seq<T>)
    ensures Drain(PushAll([], vs)) == Algo.Reversed(vs)
    ensures |Drain(vs)| == |vs|
    decreases |vs|
  {
    PushAllAppends([], vs);
    assert [] + vs == vs;
    if |vs| > 0 {
      var n := |vs| - 1;
      LastInFirstOut(vs[..n]);
      PushAllAppends([], vs[..n]);
      assert [] + vs[..n] == vs[..n];
      assert Popped(vs) == vs[..n];
      assert Drain(vs) == [vs[n]] + Drain(vs[..n]);
      assert Algo.Reversed(vs) == [vs[n]] + Algo.Reversed(vs[..n]);
    }
  }

  // ---------------------------------------------------------------------
  // The adapter
  // ---------------------------------------------------------------------

  /** stack: the underlying container's elements, bottom first. */
  class Stack<T(==)> {
    var c: seq<T>

    /** stack(): an empty container. */
    constructor()
      ensures c == []
    {
      c := [];
    }

    /** stack(n, value) and stack(n) (with the value-initialised element): n copies of value. */
    constructor WithCount(n: nat, value: T)
      ensures c == Repeat(value, n)
    {
      c := Repeat(value, n);
    }

    /** stack(first, last), stack(ilist) and stack(c_): a container holding these elements. */
    constructor FromSeq(s: seq<T>)
      ensures c == s
    {
      c := s;
    }

    /** The copy and move constructors: the container of rhs. */
    constructor Copy(rhs: Stack<T>)
      ensures c == rhs.c
    {
      c := rhs.c;
    }

    /** operator=(const stack&) and operator=(stack&&): c = rhs.c. */
    method Assign(rhs: Stack<T>)
      modifies this
      ensures c == old(rhs.c)
    {
      c := rhs.c;
    }

    /** operator=(ilist): c = ilist. */
    method AssignSeq(s: seq<T>)
      modifies this
      ensures c == s
    {
      c := s;
    }

    /** top(): the most recently pushed element not yet popped. */
    function Top(): (t: T)
      requires |c| > 0
      reads this
      ensures t == TopOf(c)
    {
      c[|c| - 1]
    }

    /** empty(): c.empty(). */
    function Empty(): (b: bool)
      reads this
      ensures b <==> c == []
    {
      |c| == 0
    }

    /** size(): c.size(). */
    function Size(): nat
      reads this
    {
      |c|
    }

    /** push(value) and emplace(args): c.push_back, so value becomes the top and size grows by one. */
    method Push(v: T)
      modifies this
      ensures c == Pushed(old(c), v)
      ensures Top() == v && Size() == old(Size()) + 1
    {
      c := c + [v];
    }

    /** pop(): c.pop_back(), removing the top; the container must not be empty. */
    method Pop()
      requires |c| > 0
      modifies this
      ensures c == Popped(old(c))
    {
      c := c[..|c| - 1];
    }

    /** clear(): pop while not empty. */
    method Clear()
      modifies this
      ensures c == []
    {
      while !Empty()
        invariant c == old(c)[..|c|]
        decreases |c|
      {
        Pop();
      }
    }

    /** swap(rhs): exchange the two containers. */
    method Swap(rhs: Stack<T>)
      modifies this, rhs
      ensures this != rhs ==> c == old(rhs.c) && rhs.c == old(c)
      ensures this == rhs ==> c == old(c)
    {
      var tmp := c;
      c := rhs.c;
      rhs.c := tmp;
    }

    /** operator==: the containers have the same size and are element-wise equal. */
    function Equals(rhs: Stack<T>): (r: bool)
      reads this, rhs
      ensures r <==> c == rhs.c
    {
      |c| == |rhs.c| && Algorithm.Equal(c, rhs.c)
    }

    /** operator<: lexicographical_compare of the containers. */
    function Less(rhs: Stack<T>, less: (T, T) -> bool): (r: bool)
      reads this, rhs
      ensures r <==> Algorithm.LexLessSpec(c, rhs.c, less)
    {
      Algorithm.LexCompareBy(c, rhs.c, less)
    }

    /** operator!=, >, <= and >=, derived from == and <. */
    function NotEquals(rhs: Stack<T>): bool
      reads this, rhs
    {
      !Equals(rhs)
    }

    function Greater(rhs: Stack<T>, less: (T, T) -> bool): bool
      reads this, rhs
    {
      rhs.Less(this, less)
    }

    function LessEqual(rhs: Stack<T>, less: (T, T) -> bool): bool
      reads this, rhs
    {
      !rhs.Less(this, less)
    }

    function GreaterEqual(rhs: Stack<T>, less: (T, T) -> bool): bool
      reads this, rhs
    {
      !Less(rhs, less)
    }
  }

  /**
   * On stacks of integers the comparisons order stacks totally: exactly one of <, == and >
   * holds, != is the negation of ==, and <= / >= are the negations of > / <.
   */
  lemma StackOrder(a: Stack<int>, b: Stack<int>)
    ensures a.Less(b, Algorithm.IntLess) || a.Equals(b) || a.Greater(b, Algorithm.IntLess)
    ensures !(a.Less(b, Algorithm.IntLess) && a.Greater(b, Algorithm.IntLess))
    ensures a.Equals(b) ==> !a.Less(b, Algorithm.IntLess) && !a.Greater(b, Algorithm.IntLess)
    ensures a.NotEquals(b) <==> a.c != b.c
    ensures a.LessEqual(b, Algorithm.IntLess) <==> (a.Less(b, Algorithm.IntLess) || a.Equals(b))
  {
    Algorithm.LexTrichotomy(a.c, b.c);
    assert a.Less(b, Algorithm.IntLess) == Algorithm.LexicographicalCompare(a.c, b.c);
    assert b.Less(a, Algorithm.IntLess) == Algorithm.LexicographicalCompare(b.c, a.c);
  }
}
