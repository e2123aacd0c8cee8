/**
 * Iterator utilities of iterator.h: the five category tags and their
 * derivation order, the category tests, distance and advance with their
 * tag dispatch, and the offset algebra of reverse_iterator.
 *
 * An iterator over a range is modelled by its position (an integer index
 * into the range); `++i` and `--i` move the position by one. The tag
 * dispatch that C++ performs by overload resolution on the tag classes is
 * modelled by choosing, among the overloads a function provides, the most
 * derived tag that the iterator's category converts to.
 */
module Iterators {

  // ---------------------------------------------------------------------
  // Category tags
  // ---------------------------------------------------------------------

  datatype Category = InputTag | OutputTag | ForwardTag | BidirectionalTag | RandomAccessTag

  /** The direct base class of each tag struct, if any. */
  function BaseTag(c: Category): (b: Category)
    requires c.ForwardTag? || c.BidirectionalTag? || c.RandomAccessTag?
  {
    match c
    case ForwardTag => InputTag
    case BidirectionalTag => ForwardTag
    case RandomAccessTag => BidirectionalTag
  }

  /** How many derivation steps separate a tag from its root class. */
  function Depth(c: Category): nat
  {
    match c
    case InputTag => 0
    case OutputTag => 0
    case ForwardTag => 1
    case BidirectionalTag => 2
    case RandomAccessTag => 3
  }

  /** `c` converts to `target`: it is `target` or (transitively) derived from it. */
  predicate ConvertsTo(c: Category, target: Category)
    decreases Depth(c)
  {
    c == target
    || ((c.ForwardTag? || c.BidirectionalTag? || c.RandomAccessTag?) && ConvertsTo(BaseTag(c), target))
  }

  predicate IsInputIterator(c: Category) { ConvertsTo(c, InputTag) }
  predicate IsOutputIterator(c: Category) { ConvertsTo(c, OutputTag) }
  predicate IsForwardIterator(c: Category) { ConvertsTo(c, ForwardTag) }
  predicate IsBidirectionalIterator(c: Category) { ConvertsTo(c, BidirectionalTag) }
  predicate IsRandomAccessIterator(c: Category) { ConvertsTo(c, RandomAccessTag) }

  /** Conversion is a partial order that follows the derivation depth. */
  lemma {:induction false} ConvertsToDeepens(c: Category, target: Category)
    requires ConvertsTo(c, target)
    ensures Depth(target) <= Depth(c)
    ensures Depth(target) == Depth(c) ==> c == target
    decreases Depth(c)
  {
    if c != target {
      ConvertsToDeepens(BaseTag(c), target);
    }
  }

  lemma {:induction false} ConvertsToTransitive(a: Category, b: Category, c: Category)
    requires ConvertsTo(a, b) && ConvertsTo(b, c)
    ensures ConvertsTo(a, c)
    decreases Depth(a)
  {
    if a != b {
      ConvertsToTransitive(BaseTag(a), b, c);
    }
  }

  /**
   * The chain random_access -> bidirectional -> forward -> input: every
   * category test holds for all subcategories, and output is unrelated.
   */
  lemma CategoryHierarchy(c: Category)
    ensures IsRandomAccessIterator(c) ==> IsBidirectionalIterator(c)
    ensures IsBidirectionalIterator(c) ==> IsForwardIterator(c)
    ensures IsForwardIterator(c) ==> IsInputIterator(c)
    ensures IsInputIterator(c) <==> c != OutputTag
    ensures IsOutputIterator(c) <==> c == OutputTag
  {
  }

  /**
   * Overload resolution on a tag argument: among the tags an algorithm
   * provides overloads for, the most derived one that `c` converts to.
   */
  function BestOverload(c: Category, provided: seq<Category>): (r: Category)
    requires exists t :: t in provided && ConvertsTo(c, t)
    ensures r in provided && ConvertsTo(c, r)
    ensures forall t :: t in provided && ConvertsTo(c, t) ==> ConvertsTo(r, t)
    decreases |provided|
  {
    var t := provided[0];
    if !ConvertsTo(c, t) then
      assert forall u :: u in provided && u != t ==> u in provided[1..];
      BestOverload(c, provided[1..])
    else if !(exists u :: u in provided[1..] && ConvertsTo(c, u)) then
      t
    else
      var rest := BestOverload(c, provided[1..]);
      if ConvertsTo(rest, t) then
        rest
      else
        // both tags are bases of c, so one converts to the other; rest does not convert to t
        ConvertsToChain(c, rest, t);
        assert forall u :: u in provided && ConvertsTo(c, u) ==> u == t || u in provided[1..];
        forall u | u in provided && ConvertsTo(c, u) ensures ConvertsTo(t, u) {
          if u != t { ConvertsToTransitive(t, rest, u); }
        }
        t
  }

  /** Two bases of the same tag are ordered by conversion (the hierarchy is a chain). */
  lemma {:induction false} ConvertsToChain(c: Category, a: Category, b: Category)
    requires ConvertsTo(c, a) && ConvertsTo(c, b)
    ensures ConvertsTo(a, b) || ConvertsTo(b, a)
    decreases Depth(c)
  {
    if c != a && c != b {
      ConvertsToChain(BaseTag(c), a, b);
    }
  }

  /** The tags distance_dispatch has overloads for. */
  const DistanceOverloads: seq<Category> := [InputTag, RandomAccessTag]

  /** The tags advance_dispatch has overloads for. */
  const AdvanceOverloads: seq<Category> := [InputTag, BidirectionalTag, RandomAccessTag]

  /** Dispatch of distance: only random-access iterators take the subtraction. */
  lemma DistanceDispatch(c: Category)
    requires IsInputIterator(c)
    ensures BestOverload(c, DistanceOverloads) == if c == RandomAccessTag then RandomAccessTag else InputTag
  {
    assert InputTag in DistanceOverloads && RandomAccessTag in DistanceOverloads;
    var r := BestOverload(c, DistanceOverloads);
    assert r == InputTag || r == RandomAccessTag;
    if c == RandomAccessTag {
      assert ConvertsTo(r, RandomAccessTag);
    } else {
      assert !ConvertsTo(c, RandomAccessTag);
    }
  }

  /** Dispatch of advance: forward iterators fall back to the input version. */
  lemma AdvanceDispatch(c: Category)
    requires IsInputIterator(c)
    ensures BestOverload(c, AdvanceOverloads) ==
      match c
      case RandomAccessTag => RandomAccessTag
      case BidirectionalTag => BidirectionalTag
      case _ => InputTag
  {
    assert InputTag in AdvanceOverloads && BidirectionalTag in AdvanceOverloads;
    assert RandomAccessTag in AdvanceOverloads;
    var r := BestOverload(c, AdvanceOverloads);
    assert r == InputTag || r == BidirectionalTag || r == RandomAccessTag;
    if c == RandomAccessTag {
      assert ConvertsTo(r, RandomAccessTag);
    } else if c == BidirectionalTag {
      assert ConvertsTo(c, BidirectionalTag) && !ConvertsTo(c, RandomAccessTag);
      assert ConvertsTo(r, BidirectionalTag);
    } else if c == InputTag || c == ForwardTag {
      assert !ConvertsTo(c, BidirectionalTag) && !ConvertsTo(c, RandomAccessTag);
    }
  }

  // ---------------------------------------------------------------------
  // distance
  // ---------------------------------------------------------------------

  /** distance for input iterators: count the increments from first to last. */
  method DistanceInput(first: int, last: int) returns (n: int)
    requires first <= last
    ensures n == last - first
  {
    var it := first;
    n := 0;
    while it != last
      invariant first <= it <= last
      invariant n == it - first
      decreases last - it
    {
      it := it + 1;
      n := n + 1;
    }
  }

  /** distance: dispatches on the category of the iterators. */
  method Distance(c: Category, first: int, last: int) returns (n: int)
    requires IsInputIterator(c)
    requires c != RandomAccessTag ==> first <= last
    ensures n == last - first
  {
    DistanceDispatch(c);
    if BestOverload(c, DistanceOverloads) == RandomAccessTag {
      n := last - first;
    } else {
      n := DistanceInput(first, last);
    }
  }

  // ---------------------------------------------------------------------
  // advance
  // ---------------------------------------------------------------------

  /** advance for input iterators: `while (n--) ++i;` (only meaningful for n >= 0). */
  method AdvanceInput(i: int, n: int) returns (j: int)
    requires n >= 0
    ensures j == i + n
  {
    j := i;
    var k := n;
    while k != 0
      invariant 0 <= k <= n
      invariant j == i + (n - k)
      decreases k
    {
      k := k - 1;
      j := j + 1;
    }
  }

  /**
   * advance for bidirectional iterators: forward n steps for n >= 0, and
   * back |n| steps otherwise.
   */
  method AdvanceBidirectional(i: int, n: int) returns (j: int)
    ensures j == i + n
  {
    if n >= 0 {
      j := AdvanceInput(i, n);
    } else {
      j := i;
      var k := n;
      while k != 0
        invariant n <= k <= 0
        invariant j == i + (n - k)
        decreases -k
      {
        k := k + 1;
        j := j - 1;
      }
    }
  }

  /** The backward loop as written, `while (++n) --i;`. */
  function BackwardLoopAsWritten(i: int, n: int): (j: int)
    requires n < 0
    decreases -n
  {
    var m := n + 1;
    if m != 0 then BackwardLoopAsWritten(i - 1, m) else i
  }

  /** The as-written backward loop steps back only |n| - 1 times. */
  lemma {:induction false} BackwardLoopAsWrittenOffByOne(i: int, n: int)
    requires n < 0
    ensures BackwardLoopAsWritten(i, n) == i + n + 1
    decreases -n
  {
    if n + 1 != 0 {
      BackwardLoopAsWrittenOffByOne(i - 1, n + 1);
    }
  }

  /** advance(i, -1) on a bidirectional iterator as written does not move it. */
  lemma AdvanceBackOneAsWrittenStays()
    ensures BackwardLoopAsWritten(5, -1) == 5 && 5 + -1 == 4
  {
  }

  /** advance: dispatches on the category; the result is `i` moved by `n`. */
  method Advance(c: Category, i: int, n: int) returns (j: int)
    requires IsInputIterator(c)
    requires !IsBidirectionalIterator(c) ==> n >= 0
    ensures j == i + n
  {
    AdvanceDispatch(c);
    var tag := BestOverload(c, AdvanceOverloads);
    if tag == RandomAccessTag {
      j := i + n;
    } else if tag == BidirectionalTag {
      j := AdvanceBidirectional(i, n);
    } else {
      j := AdvanceInput(i, n);
    }
  }

  // ---------------------------------------------------------------------
  // reverse_iterator over a random-access base iterator
  // ---------------------------------------------------------------------

  /** A reverse iterator stores the base position `current` one past its element. */
  datatype ReverseIterator = ReverseIterator(current: int)

  function Base(r: ReverseIterator): int { r.current }

  /** `*r`: the element just before the base position. */
  function Deref<T>(r: ReverseIterator, s: seq<T>): (x: T)
    requires 0 < r.current <= |s|
    ensures x == s[Base(r) - 1]
  {
    var tmp := r.current - 1;
    s[tmp]
  }

  /** reverse_iterator difference: `rhs.base() - current`. */
  function Diff(r1: ReverseIterator, r2: ReverseIterator): int
  {
    r2.current - r1.current
  }

  /** `++r`: `--current`; the iterator advances one element in reverse order. */
  function Increment(r: ReverseIterator): (q: ReverseIterator)
    ensures Diff(q, r) == 1
    ensures Base(q) == Base(r) - 1
  {
    ReverseIterator(r.current - 1)
  }

  /** `--r`: `++current`; the iterator moves back one element in reverse order. */
  function Decrement(r: ReverseIterator): (q: ReverseIterator)
    ensures Diff(q, r) == -1
    ensures Increment(q) == r
  {
    ReverseIterator(r.current + 1)
  }

  /** `r + n` and `r += n`: the base moves back by n. */
  function Plus(r: ReverseIterator, n: int): (q: ReverseIterator)
    ensures Diff(q, r) == n
  {
    ReverseIterator(r.current - n)
  }

  /** `r - n` and `r -= n`: the base moves forward by n. */
  function Minus(r: ReverseIterator, n: int): (q: ReverseIterator)
    ensures Diff(q, r) == -n
    ensures Plus(q, n) == r
  {
    ReverseIterator(r.current + n)
  }

  /** `r[n]`: `*(r + n)`, the element n places further in reverse order. */
  function Index<T>(r: ReverseIterator, n: int, s: seq<T>): (x: T)
    requires 0 < r.current - n <= |s|
    ensures x == s[Base(r) - n - 1]
  {
    Deref(Plus(r, n), s)
  }

  predicate Equal(r1: ReverseIterator, r2: ReverseIterator) { r1.current == Base(r2) }
  predicate NotEqual(r1: ReverseIterator, r2: ReverseIterator) { r1.current != Base(r2) }

  /** `<` as written: compares the base positions in forward order. */
  predicate LessAsWritten(r1: ReverseIterator, r2: ReverseIterator) { r1.current < Base(r2) }

  /** `>` as written: compares the base positions in forward order too. */
  predicate GreaterAsWritten(r1: ReverseIterator, r2: ReverseIterator) { r1.current > Base(r2) }

  /** `<` consistent with the difference: r1 comes first in reverse order. */
  predicate Less(r1: ReverseIterator, r2: ReverseIterator) { Base(r2) < r1.current }

  predicate Greater(r1: ReverseIterator, r2: ReverseIterator) { Less(r2, r1) }
  predicate LessEqual(r1: ReverseIterator, r2: ReverseIterator) { !Greater(r1, r2) }
  predicate GreaterEqual(r1: ReverseIterator, r2: ReverseIterator) { !Less(r1, r2) }

  /** Walking from rbegin = reverse_iterator(end) visits the range back to front. */
  lemma ReverseTraversal<T>(s: seq<T>, k: nat)
    requires k < |s|
    ensures Deref(Plus(ReverseIterator(|s|), k), s) == s[|s| - 1 - k]
    ensures Index(ReverseIterator(|s|), k, s) == s[|s| - 1 - k]
  {
  }

  /** The corrected comparisons agree with the difference and equality. */
  lemma ComparisonsAgreeWithDiff(r1: ReverseIterator, r2: ReverseIterator)
    ensures Less(r1, r2) <==> Diff(r1, r2) < 0
    ensures Greater(r1, r2) <==> Diff(r1, r2) > 0
    ensures LessEqual(r1, r2) <==> Less(r1, r2) || Equal(r1, r2)
    ensures GreaterEqual(r1, r2) <==> Greater(r1, r2) || Equal(r1, r2)
    ensures Equal(r1, r2) <==> Diff(r1, r2) == 0
    ensures NotEqual(r1, r2) <==> !Equal(r1, r2)
  {
  }

  /**
   * The as-written `<` and `>` contradict the difference: for bases 2 and 1 the
   * difference r1 - r2 is -1, yet r1 < r2 is false; for bases 1 and 2 it is 1,
   * yet r1 > r2 is false. In general the as-written `<` is the corrected `>`
   * and the as-written `>` is the corrected `<`.
   */
  lemma LessAsWrittenContradictsDiff(r1: ReverseIterator, r2: ReverseIterator)
    ensures Diff(ReverseIterator(2), ReverseIterator(1)) < 0
    ensures !LessAsWritten(ReverseIterator(2), ReverseIterator(1))
    ensures Less(ReverseIterator(2), ReverseIterator(1))
    ensures Diff(ReverseIterator(1), ReverseIterator(2)) > 0
    ensures !GreaterAsWritten(ReverseIterator(1), ReverseIterator(2))
    ensures Greater(ReverseIterator(1), ReverseIterator(2))
    ensures LessAsWritten(r1, r2) <==> Greater(r1, r2)
    ensures GreaterAsWritten(r1, r2) <==> Less(r1, r2)
  {
  }
}
