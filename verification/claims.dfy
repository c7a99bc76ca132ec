/**
 Reading a whole-number claim back, when JSON decoding may have landed it in a float64
 (roundTiesToEven, section 4.3.1 of IEEE 754-2019).
 */
module ClaimNumbers {
  import opened Wrappers

  const MAX_EXACT_INTEGER: int := 0x20_0000_0000_0000  // 2^53
  const MAX_INT64: int := 0x7FFF_FFFF_FFFF_FFFF
  const MIN_INT64: int := -0x8000_0000_0000_0000

  datatype Float64 = Finite(value: real) | Infinite | NotANumber

  function Abs(n: int): nat {
    if n < 0 then -n else n
  }

  function Pow2(k: nat): (r: int)
    ensures r > 0
  {
    if k == 0 then 1 else 2 * Pow2(k - 1)
  }

  /** How far apart the float64 values around `n` are, as a power of two: 53 bits of `n` are kept. */
  function Exponent(n: nat): nat {
    if n < MAX_EXACT_INTEGER then 0 else 1 + Exponent(n / 2)
  }

  /** How many steps of `ulp` come nearest to `n`, and of two equally near the even number. */
  function NearestSteps(n: nat, ulp: int): nat
    requires ulp > 0
  {
    var q, r := n / ulp, n % ulp;
    if 2 * r < ulp || (2 * r == ulp && q % 2 == 0) then q else q + 1
  }

  lemma NearestStepsIsNearest(n: nat, ulp: int, error: int)
    requires ulp > 0 && error == NearestSteps(n, ulp) * ulp - n
    ensures -ulp <= 2 * error <= ulp
    ensures 2 * error == ulp || 2 * error == -ulp ==> NearestSteps(n, ulp) % 2 == 0
  {
    var q, r := n / ulp, n % ulp;
    var below := q * ulp;
    assert n == below + r;
    assert (q + 1) * ulp == below + ulp;
    if NearestSteps(n, ulp) == q {
      assert error == -r;
    } else {
      assert error == ulp - r;
    }
  }

  function NearestEven(n: nat, ulp: int): nat
    requires ulp > 0
  {
    NearestSteps(n, ulp) * ulp
  }

  /** The integer a decoded number stands for, when it is one a float64 can hold at all. */
  function Rounded(n: int): int {
    var magnitude: int := NearestEven(Abs(n), Pow2(Exponent(Abs(n))));
    if n < 0 then -magnitude else magnitude
  }

  /** A number decoded from its digits; from 2^1024 on there is only infinity. */
  function Decoded(n: int): Float64 {
    if Abs(Rounded(n)) < Pow2(1024) then Finite(Rounded(n) as real) else Infinite
  }

  /** A json.Number is written as an integer, or with a fraction or an exponent; the latter is read as a
      float64, and what is too large for one does not read at all. */
  datatype ClaimValue =
    | Signed(i: int)
    | Unsigned(u: nat)
    | JsonNumber(digits: int)
    | JsonFraction(parsed: Float64)
    | Double(d: Float64)
    | NotNumeric

  function IntFromFloat(d: Float64): Option<int> {
    match d
    case Finite(v) =>
      if v != v.Floor as real then None
      else if v.Floor > MAX_EXACT_INTEGER || v.Floor < -MAX_EXACT_INTEGER then None
      else Some(v.Floor)
    case _ => None
  }

  /** An integer-kinded Go value is in range by its type; a json.Number is parsed from its digits, as
      an int64 if it fits. */
  function IntOf(value: ClaimValue): Option<int> {
    match value
    case JsonNumber(n) => if MIN_INT64 <= n <= MAX_INT64 then Some(n) else IntFromFloat(Decoded(n))
    case JsonFraction(d) => IntFromFloat(d)
    case Signed(i) => Some(i)
    case Unsigned(u) => if u > MAX_INT64 then None else Some(u)
    case Double(d) => IntFromFloat(d)
    case NotNumeric => None
  }

  lemma {:induction false} KeepsFiftyThreeBits(n: nat)
    ensures MAX_EXACT_INTEGER <= n ==> MAX_EXACT_INTEGER / 2 * Pow2(Exponent(n)) <= n
    decreases n
  {
    if MAX_EXACT_INTEGER <= n {
      KeepsFiftyThreeBits(n / 2);
      if n / 2 < MAX_EXACT_INTEGER {
        assert Exponent(n) == 1 && Pow2(1) == 2 * Pow2(0);
      }
    }
  }

  lemma NearestEvenAtLeast(n: nat, ulp: int, m: nat)
    requires ulp > 0 && m * ulp <= n
    ensures NearestEven(n, ulp) >= m * ulp
  {
    var q := n / ulp;
    assert n == q * ulp + n % ulp;
    assert (q + 1) * ulp == q * ulp + ulp;
    if q < m {
      MulMonotone(q + 1, m, ulp);
      assert false;
    }
    MulMonotone(m, q, ulp);
    MulMonotone(m, q + 1, ulp);
  }

  lemma MulMonotone(a: int, b: int, c: int)
    requires a <= b && c > 0
    ensures a * c <= b * c
  {
  }

  lemma SmallIsExact(n: int)
    requires Abs(n) <= MAX_EXACT_INTEGER
    ensures Rounded(n) == n
  {
    var m := Abs(n);
    if m == MAX_EXACT_INTEGER {
      assert Exponent(m) == 1 && Pow2(1) == 2 * Pow2(0) == 2;
    } else {
      assert Pow2(Exponent(m)) == 1;
    }
  }

  lemma NextRoundsDown(n: int)
    requires Abs(n) == MAX_EXACT_INTEGER + 1
    ensures Abs(Rounded(n)) == MAX_EXACT_INTEGER && (n < 0 <==> Rounded(n) < 0)
  {
    var m := Abs(n);
    assert Exponent(m) == 1 && Pow2(1) == 2 * Pow2(0) == 2;
    assert m / 2 == MAX_EXACT_INTEGER / 2 && m % 2 == 1;
  }

  lemma LargeStaysLarge(n: int)
    requires Abs(n) >= MAX_EXACT_INTEGER + 2
    ensures Abs(Rounded(n)) >= MAX_EXACT_INTEGER + 2
  {
    var m := Abs(n);
    var k := Exponent(m);
    assert k >= 1;
    if k == 1 {
      assert Pow2(1) == 2 * Pow2(0) == 2;
      NearestEvenAtLeast(m, 2, MAX_EXACT_INTEGER / 2 + 1);
    } else {
      KeepsFiftyThreeBits(m);
      NearestEvenAtLeast(m, Pow2(k), MAX_EXACT_INTEGER / 2);
      assert Pow2(k) == 2 * Pow2(k - 1) == 4 * Pow2(k - 2);
      MulMonotone(4, Pow2(k), MAX_EXACT_INTEGER / 2);
    }
  }

  lemma SmallIsDecoded(n: int)
    requires Abs(n) <= MAX_EXACT_INTEGER + 1
    ensures Decoded(n) == Finite(Rounded(n) as real)
  {
    var m := Abs(n);
    assert Exponent(m) <= 1 by {
      assert Exponent(m / 2) == 0;
    }
    if m <= MAX_EXACT_INTEGER {
      SmallIsExact(n);
    } else {
      NextRoundsDown(n);
    }
    Pow2Grows(54, 1024);
    PowOf54();
  }

  lemma {:induction false} Pow2Grows(a: nat, b: nat)
    requires a <= b
    ensures Pow2(a) <= Pow2(b)
    decreases b - a
  {
    if a < b {
      Pow2Grows(a + 1, b);
    }
  }

  lemma PowOf54()
    ensures Pow2(54) == 2 * MAX_EXACT_INTEGER
  {
    assert Pow2(10) == 1024;
    assert Pow2(20) == 0x10_0000;
    assert Pow2(30) == 0x4000_0000;
    assert Pow2(40) == 0x100_0000_0000;
    assert Pow2(50) == 0x4_0000_0000_0000;
  }

  /** What a whole number that crossed JSON reads as: itself up to 2^53, absent from 2^53 + 2 on, and
      in between the neighbour it was rounded to. */
  lemma DecodedReadsAs(n: int)
    ensures IntOf(Double(Decoded(n))) ==
            if -9007199254740992 <= n <= 9007199254740992 then Some(n)
            else if n == 9007199254740993 then Some(9007199254740992)
            else if n == -9007199254740993 then Some(-9007199254740992)
            else None
  {
    var r := Rounded(n);
    assert (r as real).Floor == r;
    if Abs(n) <= MAX_EXACT_INTEGER {
      SmallIsExact(n);
      SmallIsDecoded(n);
    } else if Abs(n) == MAX_EXACT_INTEGER + 1 {
      NextRoundsDown(n);
      SmallIsDecoded(n);
    } else {
      LargeStaysLarge(n);
    }
  }

  /** "Absent rather than off by one" holds of every whole number but two. */
  lemma NeverOffByOneExcept(n: int)
    ensures IntOf(Double(Decoded(n))) in {Some(n), None} <==> n != 9007199254740993 && n != -9007199254740993
  {
    DecodedReadsAs(n);
  }

  /** Up to 2^53 every representation of a number reads as that number. */
  lemma RepresentationsAgree(n: int)
    requires -9007199254740992 <= n <= 9007199254740992
    ensures IntOf(Signed(n)) == IntOf(JsonNumber(n)) == IntOf(Double(Decoded(n))) == Some(n)
    ensures n >= 0 ==> IntOf(Unsigned(n)) == Some(n)
  {
    DecodedReadsAs(n);
  }

  /** A float64 reads as the whole number it is, up to 2^53; a fraction, an infinity and NaN do not read. */
  lemma FloatReadsAs(d: Float64, n: int)
    ensures IntOf(Double(d)) == IntOf(JsonFraction(d))
    ensures IntOf(Double(d)) == Some(n) <==> d == Finite(n as real) && -9007199254740992 <= n <= 9007199254740992
  {
    assert (n as real).Floor == n;
  }

  /** A json.Number written as an integer keeps every digit through the whole of int64, and does not read
      past it; an unsigned value past it does not either. */
  lemma IntegersReadExactly(n: int)
    ensures IntOf(JsonNumber(n)) == if -9223372036854775808 <= n <= 9223372036854775807 then Some(n) else None
    ensures n >= 0 ==> IntOf(Unsigned(n)) == if n <= 9223372036854775807 then Some(n) else None
    ensures IntOf(Signed(n)) == Some(n) && IntOf(NotNumeric) == None
  {
    DecodedReadsAs(n);
  }
}
