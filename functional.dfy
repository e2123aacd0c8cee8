/**
 * The function objects of functional.h: the arithmetic functors with
 * identity_element, the comparison and logical functors, identity /
 * selectfirst / selectsecond / projectfirst / projectsecond, the integer
 * hash and bitwise_hash, the 64-bit FNV-1a hash of a byte range.
 *
 * The functors are stated on unbounded `int` and `bool`: the element type's
 * overflow is not modelled. Division and remainder follow C++, which rounds
 * the quotient toward zero. `size_t` is 64 bits wide: the hashes are `bv64`
 * values or naturals below 2^64.
 */
module Functional {
  import opened Common
  import opened Util

  // ---------------------------------------------------------------------
  // Arithmetic functors and identity_element
  // ---------------------------------------------------------------------

  function Plus(x: int, y: int): int { x + y }
  function Minus(x: int, y: int): int { x - y }
  function Multiplies(x: int, y: int): int { x * y }
  function Negate(x: int): int { -x }

  /** divides: the C++ quotient, rounded toward zero. */
  function Divides(x: int, y: int): (q: int)
    requires y != 0
    ensures q * y + Modulus(x, y) == x
  {
    var m := (if x < 0 then -x else x) / (if y < 0 then -y else y);
    if (x < 0) == (y < 0) then m else -m
  }

  /** modules (the remainder functor): the C++ remainder, which has the sign of x. */
  function Modulus(x: int, y: int): (r: int)
    requires y != 0
  {
    var m := (if x < 0 then -x else x) % (if y < 0 then -y else y);
    if x < 0 then -m else m
  }

  /**
   * divides and modules agree with C++: the remainder is smaller in magnitude than the divisor
   * and takes the sign of the dividend; so the quotient is x / y rounded toward zero.
   */
  lemma DividesRoundsTowardZero(x: int, y: int)
    requires y != 0
    ensures Multiplies(Divides(x, y), y) + Modulus(x, y) == x
    ensures -(if y < 0 then -y else y) < Modulus(x, y) < (if y < 0 then -y else y)
    ensures x >= 0 ==> Modulus(x, y) >= 0
    ensures x <= 0 ==> Modulus(x, y) <= 0
    ensures Divides(-x, y) == -Divides(x, y) && Divides(x, -y) == -Divides(x, y)
  {
  }

  /** identity_element(plus<T>()). */
  function IdentityElementPlus(): (e: int)
  {
    0
  }

  /** identity_element(multiplies<T>()). */
  function IdentityElementMultiplies(): (e: int)
  {
    1
  }

  /** The identity elements are neutral on both sides; minus is plus of the negation. */
  lemma IdentityElements(x: int, y: int)
    ensures Plus(x, IdentityElementPlus()) == x == Plus(IdentityElementPlus(), x)
    ensures Multiplies(x, IdentityElementMultiplies()) == x == Multiplies(IdentityElementMultiplies(), x)
    ensures Minus(x, y) == Plus(x, Negate(y)) && Negate(Negate(x)) == x
  {
  }

  // ---------------------------------------------------------------------
  // Comparison and logical functors
  // ---------------------------------------------------------------------

  predicate EqualTo(x: int, y: int) { x == y }
  predicate NotEqualTo(x: int, y: int) { x != y }
  predicate Greater(x: int, y: int) { x > y }
  predicate Less(x: int, y: int) { x < y }
  predicate GreaterEqual(x: int, y: int) { x >= y }
  predicate LessEqual(x: int, y: int) { x <= y }

  /**
   * The comparison functors are one order seen six ways: not_equal_to negates equal_to, greater
   * is less with the arguments swapped, the non-strict ones negate the strict ones, and exactly
   * one of less, equal_to and greater holds.
   */
  lemma ComparisonFunctors(x: int, y: int)
    ensures NotEqualTo(x, y) <==> !EqualTo(x, y)
    ensures Greater(x, y) <==> Less(y, x)
    ensures GreaterEqual(x, y) <==> !Less(x, y)
    ensures LessEqual(x, y) <==> !Greater(x, y)
    ensures (Less(x, y) && !EqualTo(x, y) && !Greater(x, y))
         || (!Less(x, y) && EqualTo(x, y) && !Greater(x, y))
         || (!Less(x, y) && !EqualTo(x, y) && Greater(x, y))
  {
  }

  predicate LogicalAnd(x: bool, y: bool) { x && y }
  predicate LogicalOr(x: bool, y: bool) { x || y }
  predicate LogicalNot(x: bool) { !x }

  /** logical_and and logical_or are dual under logical_not. */
  lemma LogicalFunctors(x: bool, y: bool)
    ensures LogicalNot(LogicalAnd(x, y)) == LogicalOr(LogicalNot(x), LogicalNot(y))
    ensures LogicalNot(LogicalOr(x, y)) == LogicalAnd(LogicalNot(x), LogicalNot(y))
    ensures LogicalNot(LogicalNot(x)) == x
  {
  }

  // ---------------------------------------------------------------------
  // identity / selectfirst / selectsecond / projectfirst / projectsecond
  // ---------------------------------------------------------------------

  function Identity<T>(x: T): T { x }
  function SelectFirst<A, B>(p: Pair<A, B>): A { p.first }
  function SelectSecond<A, B>(p: Pair<A, B>): B { p.second }
  function ProjectFirst<A, B>(x: A, y: B): A { x }
  function ProjectSecond<A, B>(x: A, y: B): B { y }

  /** The selectors take make_pair apart again; the projections keep one argument. */
  lemma Selectors<A, B>(a: A, b: B, p: Pair<A, B>)
    ensures SelectFirst(MakePair(a, b)) == a && SelectSecond(MakePair(a, b)) == b
    ensures MakePair(SelectFirst(p), SelectSecond(p)) == p
    ensures ProjectFirst(a, b) == Identity(a) && ProjectSecond(a, b) == Identity(b)
  {
  }

  // ---------------------------------------------------------------------
  // hash
  // ---------------------------------------------------------------------

  /** 2^64: size_t on the 64-bit targets the source selects fnv_offset for. */
  const SizeTModulus: int := 0x1_0000_0000_0000_0000

  /**
   * hash<integer type>(val): static_cast<size_t>(val), which for a negative value wraps
   * modulo 2^64.
   */
  function HashInteger(val: int): (h: int)
    ensures 0 <= h < SizeTModulus
    ensures (h - val) % SizeTModulus == 0
  {
    val % SizeTModulus
  }

  /**
   * The integer hash leaves every unsigned value below 2^64 as it is, and tells apart any two
   * values of a signed type of at most 64 bits.
   */
  lemma HashIntegerInjective(a: int, b: int)
    ensures 0 <= a < SizeTModulus ==> HashInteger(a) == a
    ensures (-SizeTModulus / 2 <= a < SizeTModulus / 2 && -SizeTModulus / 2 <= b < SizeTModulus / 2
             && HashInteger(a) == HashInteger(b)) ==> a == b
  {
    if -SizeTModulus / 2 <= a < SizeTModulus / 2 && -SizeTModulus / 2 <= b < SizeTModulus / 2
       && HashInteger(a) == HashInteger(b) {
      var qa, qb := a / SizeTModulus, b / SizeTModulus;
      assert a == qa * SizeTModulus + HashInteger(a);
      assert b == qb * SizeTModulus + HashInteger(b);
      assert qa == (if a < 0 then -1 else 0) && qb == (if b < 0 then -1 else 0);
    }
  }

  /** fnv_offset on 64-bit targets. */
  const FnvOffsetBasis: bv64 := 14695981039346656037

  /** fnv_prime on 64-bit targets. */
  const FnvPrime: bv64 := 1099511628211

  /** One round of bitwise_hash: result ^= byte, then result *= fnv_prime (modulo 2^64). */
  function FnvStep(h: bv64, b: byte): bv64
  {
    (h ^ (b as bv64)) * FnvPrime
  }

  /** The rounds of bitwise_hash over the bytes s, starting from h. */
  function FnvFrom(h: bv64, s: seq<byte>): bv64
    decreases |s|
  {
    if |s| == 0 then h else FnvFrom(FnvStep(h, s[0]), s[1..])
  }

  /** FNV-1a of the bytes s: the rounds starting from the offset basis. */
  function Fnv1a(s: seq<byte>): bv64
  {
    FnvFrom(FnvOffsetBasis, s)
  }

  /** bitwise_hash(first, count): FNV-1a of the count bytes at first. */
  method BitwiseHash(first: array<byte>, count: nat) returns (result: bv64)
    requires count <= first.Length
    ensures result == Fnv1a(first[..count])
  {
    result := FnvOffsetBasis;
    var i := 0;
    while i < count
      invariant 0 <= i <= count
      invariant FnvFrom(result, first[i..count]) == Fnv1a(first[..count])
    {
      assert first[i..count][1..] == first[i + 1..count];
      result := FnvStep(result, first[i]);
      i := i + 1;
    }
  }

  /**
   * Hashing runs byte by byte: hashing s and then t continues from the hash of s, so the hash
   * of s + [b] is one more round on the hash of s.
   */
  lemma {:induction false} FnvFromConcat(h: bv64, s: seq<byte>, t: seq<byte>)
    ensures FnvFrom(h, s + t) == FnvFrom(FnvFrom(h, s), t)
    decreases |s|
  {
    if |s| == 0 {
      assert s + t == t;
    } else {
      assert (s + t)[1..] == s[1..] + t;
      FnvFromConcat(FnvStep(h, s[0]), s[1..], t);
    }
  }

  /** With count == 0 bitwise_hash returns the offset basis; one byte is a single round. */
  lemma FnvShortInputs(b: byte)
    ensures Fnv1a([]) == FnvOffsetBasis
    ensures Fnv1a([b]) == FnvStep(FnvOffsetBasis, b)
  {
    assert [b][1..] == [];
    assert Fnv1a([b]) == FnvFrom(FnvStep(FnvOffsetBasis, b), []);
  }

  /** The published FNV-1a 64-bit test vector: the hash of "a" (byte 0x61) is 0xaf63dc4c8601ec8c. */
  lemma FnvTestVector()
    ensures Fnv1a([0x61]) == 0xaf63dc4c8601ec8c
  {
    FnvShortInputs(0x61);
  }
}
