/**
 The fixed-point primitives of the cepstral smoother (pico/lib/picocep.c), on unbounded integers. Which
 intermediate results fit 32 bits is stated separately.
 */
module FixedPoint {
  import opened Powers

  const INT32_LIMIT := 0x8000_0000

  predicate FitsInt32(v: int) { -INT32_LIMIT <= v < INT32_LIMIT }

  // ---------------------------------------------------------------------------
  // Rounding to nearest
  // ---------------------------------------------------------------------------

  /** `r` is the integer nearest to num/den; a tie goes to the one further from zero. */
  ghost predicate Nearest(r: int, num: int, den: int) {
    && den > 0
    && (num >= 0 ==> r >= 0) && (num <= 0 ==> r <= 0)
    && 2 * (Abs(r) * den) - den <= 2 * Abs(num) < 2 * (Abs(r) * den) + den
  }

  lemma NearestUnique(r: int, s: int, num: int, den: int)
    requires Nearest(r, num, den) && Nearest(s, num, den)
    ensures r == s
  {
    assert den * (Abs(r) - Abs(s)) == Abs(r) * den - Abs(s) * den;
    SmallMultiple(den, Abs(r) - Abs(s));
  }

  /** Adding half the divisor before dividing rounds to nearest. */
  lemma HalfUp(n: nat, b: nat, q: int)
    requires b > 0 && q == (n + b / 2) / b
    ensures q >= 0 && Nearest(q, n, b)
  {
    assert n + b / 2 == b * q + (n + b / 2) % b;
    if q < 0 { MulMonotone(q, -1, b); }
    assert b * q == q * b;
  }

  lemma NearestNegated(r: int, num: int, den: int)
    requires Nearest(r, num, den)
    ensures Nearest(-r, -num, den)
  {
  }

  /** Adding a multiple of the divisor, away from zero, adds to the quotient. */
  lemma NearestShift(r: int, num: int, den: int, k: int)
    requires Nearest(r, num, den) && (num > 0 ==> k >= 0) && (num < 0 ==> k <= 0)
    ensures Nearest(k + r, k * den + num, den)
  {
    assert (k + r) * den == k * den + r * den;
    if k >= 0 && num >= 0 {
      MulMonotone(0, k, den);
      assert Abs(k + r) == k + r && Abs(k * den + num) == k * den + num;
    } else {
      MulMonotone(k, 0, den);
      assert (-(k + r)) * den == -(k * den + r * den) && (-r) * den == -(r * den);
      assert Abs(k + r) == -(k + r) && Abs(k * den + num) == -(k * den + num);
    }
  }

  // ---------------------------------------------------------------------------
  // Division by a power of two
  // ---------------------------------------------------------------------------

  function HalfAdded(a: int, half: nat): int
    requires half > 0
  {
    if a == 0 then a
    else if a > 0 then (a + half) / (2 * half)
    else -((-a + half) / (2 * half))
  }

  function DivPow(a: int, pow: nat): int
    requires pow >= 1
  {
    HalfAdded(a, Pow2(pow - 1))
  }

  lemma DivPowNearest(a: int, pow: nat)
    requires pow >= 1
    ensures Nearest(DivPow(a, pow), a, Pow2(pow))
  {
    assert Pow2(pow) == 2 * Pow2(pow - 1);
    hide HalfAdded, Nearest;
    HalfUpSigned(a, Pow2(pow - 1));
  }

  lemma HalfUpSigned(a: int, half: nat)
    requires half > 0
    ensures Nearest(HalfAdded(a, half), a, 2 * half)
  {
    assert 2 * half / 2 == half;
    if a > 0 {
      HalfUp(a, 2 * half, HalfAdded(a, half));
    } else if a < 0 {
      HalfUp(-a, 2 * half, -HalfAdded(a, half));
      NearestNegated(-HalfAdded(a, half), -a, 2 * half);
    }
  }

  // ---------------------------------------------------------------------------
  // Multiplication
  // ---------------------------------------------------------------------------

  /** The digits of `x` above and below the point, both with the sign of `x`. */
  function High(x: int, bigpow: nat): int { if x >= 0 then x / Pow2(bigpow) else -((-x) / Pow2(bigpow)) }
  function Rest(x: int, bigpow: nat): int { x - High(x, bigpow) * Pow2(bigpow) }

  lemma QuotientDigits(x: nat, b: nat, a: int)
    requires b > 0 && a == x / b
    ensures a >= 0 && 0 <= x - a * b < b
  {
    assert x == b * a + x % b;
    if a < 0 { MulMonotone(a, -1, b); }
  }

  lemma Digits(x: int, bigpow: nat)
    ensures var (a, b, big) := (High(x, bigpow), Rest(x, bigpow), Pow2(bigpow));
            && x == a * big + b && Abs(b) < big
            && (x >= 0 ==> a >= 0 && b >= 0) && (x <= 0 ==> a <= 0 && b <= 0)
  {
    var (a, big) := (High(x, bigpow), Pow2(bigpow));
    if x >= 0 {
      QuotientDigits(x, big, a);
      if x == 0 { DivModUnique(0, big, 0, 0); }
    } else {
      QuotientDigits(-x, big, -a);
      assert (-a) * big == -(a * big);
    }
  }

  /** Long multiplication, digit by digit. */
  function MultDouble(x: int, y: int, bigpow: nat, doubleDec: bool): int
    requires bigpow >= 1
  {
    var (a, b) := (High(x, bigpow), Rest(x, bigpow));
    var (c, d) := (High(y, bigpow), Rest(y, bigpow));
    if doubleDec then
      var e := a * d + b * c + DivPow(b * d, bigpow);
      a * c + DivPow(e, bigpow)
    else
      a * c * Pow2(bigpow) + (a * d + b * c) + DivPow(b * d, bigpow)
  }

  /** Number of bits of `x`, found by comparisons; never more than 31. */
  function HighestBitNZ(x: nat): nat {
    if x >= 0x10000 then
      (if x >= 0x1000000 then
         (if x >= 0x10000000 then (if x >= 0x40000000 then 31 else if x >= 0x20000000 then 30 else 29)
          else if x >= 0x4000000 then (if x >= 0x8000000 then 28 else 27)
          else (if x >= 0x2000000 then 26 else 25))
       else if x >= 0x100000 then
         (if x >= 0x400000 then (if x >= 0x800000 then 24 else 23)
          else (if x >= 0x200000 then 22 else 21))
       else if x >= 0x40000 then (if x >= 0x80000 then 20 else 19)
       else (if x >= 0x20000 then 18 else 17))
    else if x >= 0x100 then
      (if x >= 0x1000 then
         (if x >= 0x4000 then (if x >= 0x8000 then 16 else 15)
          else (if x >= 0x2000 then 14 else 13))
       else if x >= 0x400 then (if x >= 0x800 then 12 else 11)
       else (if x >= 0x200 then 10 else 9))
    else if x >= 0x10 then
      (if x >= 0x40 then (if x >= 0x80 then 8 else 7)
       else (if x >= 0x20 then 6 else 5))
    else if x >= 0x4 then (if x >= 0x8 then 4 else 3)
    else (if x >= 0x2 then 2 else 1)
  }

  function HighestBit(x: int): nat { if x == 0 then 0 else HighestBitNZ(Abs(x)) }

  lemma Pow2Values()
    ensures Pow2(0) == 0x1 && Pow2(1) == 0x2 && Pow2(2) == 0x4 && Pow2(3) == 0x8
    ensures Pow2(4) == 0x10 && Pow2(5) == 0x20 && Pow2(6) == 0x40 && Pow2(7) == 0x80
    ensures Pow2(8) == 0x100 && Pow2(9) == 0x200 && Pow2(10) == 0x400 && Pow2(11) == 0x800
    ensures Pow2(12) == 0x1000 && Pow2(13) == 0x2000 && Pow2(14) == 0x4000 && Pow2(15) == 0x8000
    ensures Pow2(16) == 0x10000 && Pow2(17) == 0x20000 && Pow2(18) == 0x40000 && Pow2(19) == 0x80000
    ensures Pow2(20) == 0x100000 && Pow2(21) == 0x200000 && Pow2(22) == 0x400000 && Pow2(23) == 0x800000
    ensures Pow2(24) == 0x1000000 && Pow2(25) == 0x2000000 && Pow2(26) == 0x4000000 && Pow2(27) == 0x8000000
    ensures Pow2(28) == 0x10000000 && Pow2(29) == 0x20000000 && Pow2(30) == 0x40000000 && Pow2(31) == 0x80000000
  {
  }

  lemma HighestBitIsLength(x: nat)
    requires x < INT32_LIMIT
    ensures HighestBit(x) <= 31 && x < Pow2(HighestBit(x))
    ensures x > 0 ==> HighestBit(x) >= 1 && x >= Pow2(HighestBit(x) - 1)
  {
    Pow2Values();
  }

  function Mult(x: int, y: int, bigpow: nat, doubleDec: bool): int
    requires bigpow >= 1
  {
    if HighestBit(x) + HighestBit(y) <= 30 then
      DivPow(x * y, if doubleDec then bigpow + bigpow else bigpow)
    else
      MultDouble(x, y, bigpow, doubleDec)
  }

  lemma Product(a: int, b: int, c: int, d: int, big: int)
    ensures (a * big + b) * (c * big + d) == (a * c * big + (a * d + b * c)) * big + b * d
  {
    assert (a * big + b) * (c * big + d) == (a * big) * (c * big) + (a * big) * d + b * (c * big) + b * d;
    assert (a * big) * (c * big) == (a * c * big) * big;
    assert (a * big) * d == (a * d) * big && b * (c * big) == (b * c) * big;
  }

  lemma ProductSign(u: int, v: int)
    ensures (u >= 0 && v >= 0) || (u <= 0 && v <= 0) ==> u * v >= 0
    ensures (u >= 0 && v <= 0) || (u <= 0 && v >= 0) ==> u * v <= 0
  {
    if u >= 0 {
      if v >= 0 { MulMonotone(0, v, u); } else { MulMonotone(v, 0, u); }
    } else {
      if v >= 0 { MulMonotone(0, v, -u); } else { MulMonotone(v, 0, -u); }
    }
  }

  /** All four partial products have the sign of the product, or are zero. */
  lemma PartialSigns(x: int, y: int, bigpow: nat)
    ensures var (a, b, c, d) := (High(x, bigpow), Rest(x, bigpow), High(y, bigpow), Rest(y, bigpow));
            if (x >= 0 && y >= 0) || (x <= 0 && y <= 0)
            then a * c >= 0 && a * d >= 0 && b * c >= 0 && b * d >= 0
            else a * c <= 0 && a * d <= 0 && b * c <= 0 && b * d <= 0
  {
    var (a, b, c, d) := (High(x, bigpow), Rest(x, bigpow), High(y, bigpow), Rest(y, bigpow));
    Digits(x, bigpow);
    Digits(y, bigpow);
    ProductSign(a, c);
    ProductSign(a, d);
    ProductSign(b, c);
    ProductSign(b, d);
  }

  lemma RoundingKeepsSign(a: int, pow: nat)
    requires pow >= 1
    ensures (a >= 0 ==> DivPow(a, pow) >= 0) && (a <= 0 ==> DivPow(a, pow) <= 0)
  {
    DivPowNearest(a, pow);
  }

  lemma ScaledSign(a: int, big: int)
    requires big > 0
    ensures (a >= 0 ==> a * big >= a) && (a <= 0 ==> a * big <= a)
  {
  }

  lemma LongRounded(x: int, y: int, a: int, b: int, c: int, d: int, big: int, r: int)
    requires x == a * big + b && y == c * big + d && Nearest(r, b * d, big)
    requires var k := a * c * big + (a * d + b * c); (b * d > 0 ==> k >= 0) && (b * d < 0 ==> k <= 0)
    ensures Nearest(a * c * big + (a * d + b * c) + r, x * y, big)
  {
    Product(a, b, c, d, big);
    NearestShift(r, b * d, big, a * c * big + (a * d + b * c));
  }

  lemma LongIsNearest(x: int, y: int, bigpow: nat)
    requires bigpow >= 1
    ensures Nearest(MultDouble(x, y, bigpow, false), x * y, Pow2(bigpow))
  {
    var (a, b, c, d) := (High(x, bigpow), Rest(x, bigpow), High(y, bigpow), Rest(y, bigpow));
    Digits(x, bigpow);
    Digits(y, bigpow);
    PartialSigns(x, y, bigpow);
    ScaledSign(a * c, Pow2(bigpow));
    DivPowNearest(b * d, bigpow);
    LongRounded(x, y, a, b, c, d, Pow2(bigpow), DivPow(b * d, bigpow));
  }

  /** Without double decimals, short and long multiplication both round x*y/2^bigpow to nearest. */
  lemma MultIsNearest(x: int, y: int, bigpow: nat)
    requires bigpow >= 1
    ensures Nearest(Mult(x, y, bigpow, false), x * y, Pow2(bigpow))
    ensures MultDouble(x, y, bigpow, false) == DivPow(x * y, bigpow)
  {
    LongIsNearest(x, y, bigpow);
    DivPowNearest(x * y, bigpow);
    NearestUnique(MultDouble(x, y, bigpow, false), DivPow(x * y, bigpow), x * y, Pow2(bigpow));
  }

  /** `t` is between zero and `z`. */
  predicate Within(t: int, z: int) { 0 <= t <= z || z <= t <= 0 }

  lemma RestProduct(b: int, d: int, big: int)
    requires Abs(b) < big && Abs(d) < big
    ensures Abs(b * d) + big / 2 <= big * big
  {
    AbsProduct(b, d);
    MulMonotone(Abs(b), big - 1, Abs(d));
    MulMonotone(Abs(d), big - 1, big - 1);
    assert (big - 1) * (big - 1) == big * big - 2 * big + 1;
  }

  /** No intermediate result of the long multiplication is larger than its result, except the lowest partial product. */
  lemma LongWithin(x: int, y: int, bigpow: nat)
    requires bigpow >= 1
    ensures var (a, b, c, d, big) := (High(x, bigpow), Rest(x, bigpow), High(y, bigpow), Rest(y, bigpow), Pow2(bigpow));
            var z := MultDouble(x, y, bigpow, false);
            && Within(a * c, z) && Within(a * c * big, z) && Within(a * d, z) && Within(b * c, z)
            && Within(a * d + b * c, z) && Within(a * c * big + (a * d + b * c), z) && Within(DivPow(b * d, bigpow), z)
            && Abs(b * d) + big / 2 <= big * big
  {
    var (a, b, c, d, big) := (High(x, bigpow), Rest(x, bigpow), High(y, bigpow), Rest(y, bigpow), Pow2(bigpow));
    Digits(x, bigpow);
    Digits(y, bigpow);
    PartialSigns(x, y, bigpow);
    ScaledSign(a * c, big);
    RoundingKeepsSign(b * d, bigpow);
    RestProduct(b, d, big);
  }

  /** With at most 15 decimals, nothing overflows 32 bits in the long multiplication unless its result does. */
  lemma LongFitsInt32(x: int, y: int, bigpow: nat)
    requires 1 <= bigpow <= 15 && FitsInt32(MultDouble(x, y, bigpow, false))
    ensures var (a, b, c, d, big) := (High(x, bigpow), Rest(x, bigpow), High(y, bigpow), Rest(y, bigpow), Pow2(bigpow));
            && FitsInt32(a * c) && FitsInt32(a * c * big) && FitsInt32(a * d) && FitsInt32(b * c)
            && FitsInt32(a * d + b * c) && FitsInt32(a * c * big + (a * d + b * c)) && FitsInt32(Abs(b * d) + big / 2)
  {
    LongWithin(x, y, bigpow);
    SquareOfDecimals(bigpow);
  }

  lemma SquareOfDecimals(bigpow: nat)
    requires bigpow <= 15
    ensures Pow2(bigpow) * Pow2(bigpow) <= 0x4000_0000
  {
    Pow2Monotone(bigpow, 15);
    Pow2Values();
    SquareBound(Pow2(bigpow));
  }

  lemma SquareBound(big: nat)
    requires big <= 0x8000
    ensures big * big <= 0x4000_0000
  {
    MulMonotone(big, 0x8000, big);
  }

  /** The short multiplication cannot overflow. */
  lemma ShortFitsInt32(x: int, y: int, pow: nat)
    requires Abs(x) < INT32_LIMIT && Abs(y) < INT32_LIMIT && HighestBit(x) + HighestBit(y) <= 30 && 1 <= pow <= 31
    ensures Abs(x * y) + Pow2(pow - 1) < INT32_LIMIT
  {
    HighestBitIsLength(Abs(x));
    HighestBitIsLength(Abs(y));
    ShortFits(x, y, HighestBit(x), HighestBit(y), pow);
  }

  lemma ShortFits(x: int, y: int, i: nat, j: nat, pow: nat)
    requires Abs(x) < Pow2(i) && Abs(y) < Pow2(j) && i + j <= 30 && 1 <= pow <= 31
    ensures Abs(x * y) + Pow2(pow - 1) < INT32_LIMIT
  {
    Pow2Sum(i, j);
    Pow2Monotone(i + j, 30);
    Pow2Monotone(pow - 1, 30);
    ShortBound(x, y, Pow2(i), Pow2(j));
    Pow2Values();
  }

  lemma ShortBound(x: int, y: int, u: nat, v: nat)
    requires Abs(x) < u && Abs(y) < v
    ensures Abs(x * y) < u * v
  {
    AbsProduct(x, y);
    MulMonotone(Abs(x), u - 1, Abs(y));
    MulMonotone(Abs(y), v - 1, u - 1);
    assert (u - 1) * (v - 1) == u * v - u - v + 1;
  }

  lemma AbsProduct(x: int, y: int)
    ensures Abs(x * y) == Abs(x) * Abs(y)
  {
    ProductSign(x, y);
    assert (-x) * y == -(x * y) && x * (-y) == -(x * y) && (-x) * (-y) == x * y;
  }

  // ---------------------------------------------------------------------------
  // Double decimals
  // ---------------------------------------------------------------------------

  /** With double decimals, the long multiplication rounds twice. */
  lemma DoubleRoundsTwice(x: int, y: int, bigpow: nat)
    requires bigpow >= 1
    ensures MultDouble(x, y, bigpow, true) == DivPow(DivPow(x * y, bigpow), bigpow)
  {
    var (a, b, c, d, big) := (High(x, bigpow), Rest(x, bigpow), High(y, bigpow), Rest(y, bigpow), Pow2(bigpow));
    var e := a * d + b * c + DivPow(b * d, bigpow);
    PartialSigns(x, y, bigpow);
    RoundingKeepsSign(b * d, bigpow);
    DivPowNearest(e, bigpow);
    NearestShift(DivPow(e, bigpow), e, big, a * c);
    MultIsNearest(x, y, bigpow);
    DivPowNearest(DivPow(x * y, bigpow), bigpow);
    NearestUnique(MultDouble(x, y, bigpow, true), DivPow(DivPow(x * y, bigpow), bigpow), DivPow(x * y, bigpow), big);
  }

  lemma NearestError(r: int, num: int, den: int)
    requires Nearest(r, num, den)
    ensures -den <= 2 * (r * den - num) <= den
  {
    assert (-r) * den == -(r * den);
  }

  /** The result is within 1/2 + 1/(2 * 2^bigpow) of x*y/2^(2*bigpow). */
  lemma DoubleError(x: int, y: int, bigpow: nat)
    requires bigpow >= 1
    ensures var (z, big) := (MultDouble(x, y, bigpow, true), Pow2(bigpow));
            Abs(2 * (z * (big * big) - x * y)) <= big * big + big
  {
    var (w, z, big) := (DivPow(x * y, bigpow), MultDouble(x, y, bigpow, true), Pow2(bigpow));
    DoubleRoundsTwice(x, y, bigpow);
    DivPowNearest(x * y, bigpow);
    DivPowNearest(w, bigpow);
    NearestError(w, x * y, big);
    NearestError(z, w, big);
    ErrorsAdd(z, w, x * y, big);
  }

  lemma ErrorsAdd(z: int, w: int, num: int, big: int)
    requires big >= 0 && -big <= 2 * (w * big - num) <= big && -big <= 2 * (z * big - w) <= big
    ensures -(big * big + big) <= 2 * (z * (big * big) - num) <= big * big + big
  {
    MulMonotone(2 * (z * big - w), big, big);
    MulMonotone(-big, 2 * (z * big - w), big);
    assert z * (big * big) == (z * big) * big;
    assert 2 * (z * big - w) * big == 2 * ((z * big) * big) - 2 * (w * big);
    assert (-big) * big == -(big * big);
  }

  /** Rounding a number with the digit `u` below the point. */
  lemma RoundDigit(n: nat, h: nat, q: nat, u: nat)
    requires h > 0 && n == q * (2 * h) + u && u < 2 * h
    ensures (n + h) / (2 * h) == q + if u >= h then 1 else 0
  {
    if u >= h {
      assert (q + 1) * (2 * h) == q * (2 * h) + 2 * h;
      DivModUnique(n + h, 2 * h, q + 1, u - h);
    } else {
      DivModUnique(n + h, 2 * h, q, u + h);
    }
  }

  /** Rounding twice, a digit each time. */
  lemma RoundTwice(n: nat, h: nat, q: nat, t: nat, u: nat)
    requires h > 0 && t < 2 * h && u < 2 * h && n == (q * (2 * h) + t) * (2 * h) + u
    ensures ((n + h) / (2 * h) + h) / (2 * h) == q + if t >= h || (t == h - 1 && u >= h) then 1 else 0
  {
    RoundDigit(n, h, q * (2 * h) + t, u);
    var t' := t + if u >= h then 1 else 0;
    if t' == 2 * h {
      assert (q + 1) * (2 * h) == q * (2 * h) + 2 * h;
      RoundDigit(q * (2 * h) + t', h, q + 1, 0);
    } else {
      RoundDigit(q * (2 * h) + t', h, q, t');
    }
  }

  /** Rounding once, both digits together; `sq` is the square of `h`. */
  lemma RoundOnce(n: nat, h: nat, sq: nat, q: nat, t: nat, u: nat)
    requires h > 0 && sq == h * h && t < 2 * h && u < 2 * h && n == q * (4 * sq) + t * (2 * h) + u
    ensures sq > 0 && (n + 2 * sq) / (4 * sq) == q + if t >= h then 1 else 0
    ensures n == (q * (2 * h) + t) * (2 * h) + u
  {
    TwoDigits(h, t, u);
    assert (q * (2 * h)) * (2 * h) == q * (4 * sq);
    RoundDigit(n, 2 * sq, q, t * (2 * h) + u);
  }

  lemma TwoDigits(h: nat, t: nat, u: nat)
    requires h > 0 && t < 2 * h && u < 2 * h
    ensures t * (2 * h) + u < 4 * (h * h) && 2 * (h * h) > 0
    ensures t * (2 * h) + u >= 2 * (h * h) <==> t >= h
  {
    var w := 2 * h;
    assert h * w == 2 * (h * h) && w * w == 4 * (h * h);
    MulMonotone(1, h, h);
    ProductStep(t, w, w);
    if t >= h { MulMonotone(h, t, w); } else { ProductStep(t, h, w); }
  }

  lemma ProductStep(t: int, v: int, w: int)
    requires t < v && w >= 0
    ensures t * w + w <= v * w
  {
    MulMonotone(t + 1, v, w);
    assert (t + 1) * w == t * w + w;
  }

  lemma SplitDigits(n: nat, h: nat) returns (q: nat, t: nat, u: nat)
    requires h > 0
    ensures h * h > 0 && t < 2 * h && u < 2 * h && n == q * (4 * (h * h)) + t * (2 * h) + u
    ensures 2 * (h * h) - h <= n % (4 * (h * h)) < 2 * (h * h) <==> t == h - 1 && u >= h
  {
    MulMonotone(1, h, h);
    var rest;
    q, rest := Split(n, 4 * (h * h));
    t, u := Split(rest, 2 * h);
    UpperDigit(rest, h, t, u);
    DigitsNearHalf(h, t, u);
  }

  lemma UpperDigit(rest: nat, h: nat, t: nat, u: nat)
    requires rest == t * (2 * h) + u && rest < 4 * (h * h)
    ensures t < 2 * h
  {
    SquareOfDouble(h);
    if t >= 2 * h { MulMonotone(2 * h, t, 2 * h); }
  }

  lemma SquareOfDouble(h: nat)
    ensures (2 * h) * (2 * h) == 4 * (h * h)
  {
  }

  lemma Split(n: nat, b: nat) returns (q: nat, r: nat)
    requires b > 0
    ensures n == q * b + r && r < b && n % b == r
  {
    q, r := n / b, n % b;
  }

  lemma DigitsNearHalf(h: nat, t: nat, u: nat)
    requires h > 0 && t < 2 * h && u < 2 * h
    ensures 2 * (h * h) - h <= t * (2 * h) + u < 2 * (h * h) <==> t == h - 1 && u >= h
  {
    assert h * (2 * h) == 2 * (h * h) && (h - 1) * (2 * h) == 2 * (h * h) - 2 * h
           && (h - 2) * (2 * h) == 2 * (h * h) - 4 * h;
    if t >= h { MulMonotone(h, t, 2 * h); }
    if t <= h - 2 { MulMonotone(t, h - 2, 2 * h); }
  }

  lemma DivPowAbs(a: int, pow: nat, half: nat)
    requires pow >= 1 && half == Pow2(pow - 1)
    ensures Abs(DivPow(a, pow)) == (Abs(a) + half) / (2 * half)
  {
    RoundingKeepsSign(a, pow);
    if a == 0 { DivModUnique(half, 2 * half, 0, half); }
  }

  /**
   Long and short multiplication with double decimals differ exactly when the digits of |x*y| below the point
   are just short of one half; the long one is then one larger.
   */
  lemma LongAgreesIff(x: int, y: int, bigpow: nat)
    requires bigpow >= 1
    ensures var half := Pow2(bigpow - 1);
            var (long, short) := (Abs(MultDouble(x, y, bigpow, true)), Abs(DivPow(x * y, bigpow + bigpow)));
            && half * half > 0
            && (long == short <==>
                !(2 * (half * half) - half <= Abs(x * y) % (4 * (half * half)) < 2 * (half * half)))
            && short <= long <= short + 1
  {
    var (n, h) := (Abs(x * y), Pow2(bigpow - 1));
    DoubleRoundsTwice(x, y, bigpow);
    DivPowAbs(x * y, bigpow, h);
    DivPowAbs(DivPow(x * y, bigpow), bigpow, h);
    DoublePow(bigpow, h);
    DivPowAbs(x * y, bigpow + bigpow, 2 * (h * h));
    var q, t, u := SplitDigits(n, h);
    RoundOnce(n, h, h * h, q, t, u);
    RoundTwice(n, h, q, t, u);
  }

  /** So equal products can have different results: 1 * 545257473 takes the long path, 3 * 181752491 the short one. */
  lemma PathsDiffer()
    ensures 1 * 545257473 == 3 * 181752491
    ensures Mult(1, 545257473, 12, true) == 33 && Mult(3, 181752491, 12, true) == 32
  {
    ShortPath();
    LongPath();
    assert HighestBit(1) == 1 && HighestBit(545257473) == 30 && HighestBit(3) == 2 && HighestBit(181752491) == 28;
    hide MultDouble, DivPow, HighestBit;
  }

  lemma ShortPath()
    ensures DivPow(545257473, 24) == 32
  {
    Pow2Values();
    hide Pow2;
  }

  lemma LongPath()
    ensures MultDouble(1, 545257473, 12, true) == 33
  {
    Pow2Values();
    hide Pow2;
    assert High(1, 12) == 0 && Rest(1, 12) == 1;
    assert High(545257473, 12) == 133119 && Rest(545257473, 12) == 2049;
    assert DivPow(2049, 12) == 1 && DivPow(133120, 12) == 33;
    hide High, Rest, DivPow;
  }

  lemma DoublePow(bigpow: nat, h: nat)
    requires bigpow >= 1 && h == Pow2(bigpow - 1)
    ensures Pow2(bigpow + bigpow - 1) == 2 * (h * h)
  {
    Pow2Sum(bigpow, bigpow - 1);
    assert (2 * h) * h == 2 * (h * h);
  }

  // ---------------------------------------------------------------------------
  // Shift-subtract division
  // ---------------------------------------------------------------------------

  /** One quotient bit; `p` is the weight of the next one. */
  lemma NextBit(n: int, c: int, b: int, r: int, p: int)
    requires n == c * b + r * (2 * p)
    ensures n == c * b + (2 * r) * p
    ensures n == (c + 2 * p) * b + (2 * (r - b)) * p
  {
    assert (2 * r) * p == r * (2 * p);
    assert (c + 2 * p) * b == c * b + 2 * (p * b) && (2 * (r - b)) * p == 2 * (r * p) - 2 * (b * p);
  }

  lemma FirstBits(r0: int, h: int, b: int, r: int, p: int)
    requires r0 == h * b + r
    ensures r0 * (2 * p) == (h * (2 * p)) * b + (2 * r) * p
  {
    assert (h * b + r) * (2 * p) == (h * b) * (2 * p) + r * (2 * p);
    assert (h * b) * (2 * p) == (h * (2 * p)) * b;
  }

  /** The final rounding: the remainder is below twice the divisor. */
  lemma LastBits(n: nat, c: int, b: nat, r: nat, c': int)
    requires n == c * b + r && b > 0 && r < 2 * b
    requires c' == if r != 0 && r + b / 2 >= b then (if r + b / 2 >= b + b then c + 2 else c + 1) else c
    ensures c' == (n + b / 2) / b
  {
    assert (c' - c) * b == if c' == c then 0 else if c' == c + 1 then b else 2 * b;
    assert c' * b == c * b + (c' - c) * b;
    DivModUnique(n + b / 2, b, c', n + b / 2 - c' * b);
  }

  function Max(a: int, b: int): int { if a < b then b else a }

  /**
   The loop that the two divisions share: r0 * 2^bigpow / b, rounded, bit by bit. `quotients` and `remainders` are the
   highest values that occur among the partial quotients and among the other intermediate results.
   */
  method ShiftSubtract(r0: nat, b: nat, bigpow: nat) returns (c: int, ghost quotients: int, ghost remainders: int)
    requires b > 0 && bigpow >= 1
    ensures c == (r0 * Pow2(bigpow) + b / 2) / b
    ensures quotients == c && remainders <= Max(r0, 2 * b + b / 2)
  {
    ghost var n := r0 * Pow2(bigpow);
    var h := r0 / b;
    QuotientDigits(r0, b, h);
    c := h * Pow2(bigpow);
    var r := r0 - h * b;
    var k := bigpow - 1;
    FirstBits(r0, h, b, r, Pow2(k));
    MulMonotone(0, h, Pow2(bigpow));
    r := 2 * r;
    quotients, remainders := c, Max(r0, r);
    while k > 0 && r != 0
      invariant 0 <= r < 2 * b && n == c * b + r * Pow2(k)
      invariant quotients == c >= 0 && remainders <= Max(r0, 2 * b)
      decreases k
    {
      NextBit(n, c, b, r, Pow2(k - 1));
      if r >= b {
        c := c + Pow2(k);
        r := r - b;
      }
      k := k - 1;
      r := 2 * r;
      quotients, remainders := Max(quotients, c), Max(remainders, r);
    }
    ghost var c0 := c;
    if r != 0 {
      var f := r + b / 2;
      remainders := Max(remainders, f);
      if f >= b {
        remainders := Max(remainders, b + b);
        if f >= b + b { c := c + 2; } else { c := c + 1; }
      }
    }
    quotients := Max(quotients, c);
    LastBits(n, c0, b, r, c);
  }

  /** a * 2^bigpow / b, rounded to nearest; nothing overflows if the result, |a| and 5/2 b fit 32 bits. */
  method FixptDiv(a: int, b: nat, bigpow: nat) returns (c: int, ghost quotients: int, ghost remainders: int)
    requires b > 0 && bigpow >= 1
    ensures Abs(c) == (Abs(a) * Pow2(bigpow) + b / 2) / b
    ensures Nearest(c, a * Pow2(bigpow), b)
    ensures quotients == Abs(c)
    ensures Abs(a) < INT32_LIMIT && 2 * b + b / 2 < INT32_LIMIT ==> remainders < INT32_LIMIT
  {
    var r := Abs(a);
    ghost var n := r * Pow2(bigpow);
    assert n >= 0 by { MulMonotone(0, r, Pow2(bigpow)); }
    assert a * Pow2(bigpow) == if a < 0 then -n else n by { assert (-a) * Pow2(bigpow) == -(a * Pow2(bigpow)); }
    HalfUp(n, b, (n + b / 2) / b);
    if r == 0 {
      DivModUnique(b / 2, b, 0, b / 2);
      return 0, 0, 0;
    }
    c, quotients, remainders := ShiftSubtract(r, b, bigpow);
    if a < 0 {
      NearestNegated(c, n, b);
      c := -c;
    }
  }

  const UINT32_LIMIT := 0x1_0000_0000

  /** The inverse of a pivot, and the power of two by which the row has to be scaled; nothing overflows 32 unsigned
      bits if 2^invpow and 5/2 of the scaled pivot fit. */
  method FixptInvDiagEle(d: nat, bigpow: nat, invpow: nat)
    returns (c: int, rowscpow: nat, ghost quotients: int, ghost remainders: int)
    requires d > 0 && bigpow >= 1
    ensures rowscpow == if invpow + bigpow > 30 + HighestBit(d) then invpow + bigpow - 30 - HighestBit(d) else 0
    ensures Nearest(c, Pow2(invpow + bigpow), d * Pow2(rowscpow))
    ensures quotients == c <= INT32_LIMIT
    ensures var b := d * Pow2(rowscpow); invpow < 32 && 2 * b + b / 2 < UINT32_LIMIT ==> remainders < UINT32_LIMIT
  {
    var dlen := HighestBit(d);
    if invpow + bigpow > 30 + dlen {
      rowscpow := invpow + bigpow - 30 - dlen;
    } else {
      rowscpow := 0;
    }
    var b := d * Pow2(rowscpow);
    MulMonotone(1, Pow2(rowscpow), d);
    c, quotients, remainders := ShiftSubtract(Pow2(invpow), b, bigpow);
    Pow2Sum(invpow, bigpow);
    HalfUp(Pow2(invpow + bigpow), b, c);
    InverseFits(d, bigpow, invpow, c, rowscpow);
    if invpow < 32 {
      Pow2Monotone(invpow, 31);
      LimitIsPower();
    }
  }

  lemma Cancel(u: int, v: int, k: int)
    requires k > 0 && u * k <= v * k
    ensures u <= v
  {
    if u > v { MulMonotone(v + 1, u, k); }
  }

  lemma NearestCancel(c: nat, num: nat, d: nat, k: nat)
    requires k > 0 && d > 0 && Nearest(c, num * k, d * k)
    ensures 2 * (c * d) - d <= 2 * num
  {
    var low := 2 * (c * d) - d;
    MulMonotone(0, num, k);
    assert c * (d * k) == (c * d) * k;
    assert low * k == 2 * ((c * d) * k) - d * k;
    assert (2 * num) * k == 2 * (num * k);
    Cancel(low, 2 * num, k);
  }

  /** `q` is the highest power of two that is not above `d`. */
  lemma InverseBound(c: nat, d: nat, num: nat, q: nat)
    requires 2 * (c * d) - d <= 2 * num && 0 < q <= d && q <= 0x4000_0000
    requires num == INT32_LIMIT * q || 2 * num <= INT32_LIMIT * q
    ensures c <= INT32_LIMIT && (c == INT32_LIMIT ==> d == q && num == INT32_LIMIT * q)
  {
    assert (2 * c - 1) * d == 2 * (c * d) - d;
    assert (2 * INT32_LIMIT) * d >= 2 * num by { MulMonotone(q, d, 2 * INT32_LIMIT); }
    Cancel(2 * c - 1, 2 * INT32_LIMIT, d);
  }

  /** What is divided, and the divisor, with the scaling of the row cancelled. */
  lemma Unscaled(c: nat, d: nat, s: nat, dlen: nat, rows: nat)
    requires d > 0 && rows == (if s > 30 + dlen then s - 30 - dlen else 0) && Nearest(c, Pow2(s), d * Pow2(rows))
    ensures 2 * (c * d) - d <= 2 * Pow2(s - rows)
  {
    Pow2Sum(s - rows, rows);
    NearestCancel(c, Pow2(s - rows), d, Pow2(rows));
  }

  lemma BitLength(d: nat)
    requires d > 0
    ensures 1 <= HighestBit(d) <= 31 && Pow2(HighestBit(d) - 1) <= d
  {
    if d < INT32_LIMIT { HighestBitIsLength(d); } else { Pow2Values(); }
  }

  /** The inverse of a pivot is at most 2^31, and it is 2^31 exactly for large enough powers of two. */
  lemma InverseFits(d: nat, bigpow: nat, invpow: nat, c: int, rowscpow: nat)
    requires 0 < d && bigpow >= 1
    requires rowscpow == if invpow + bigpow > 30 + HighestBit(d) then invpow + bigpow - 30 - HighestBit(d) else 0
    requires Nearest(c, Pow2(invpow + bigpow), d * Pow2(rowscpow))
    ensures 0 <= c <= INT32_LIMIT
    ensures c == INT32_LIMIT <==> d == Pow2(HighestBit(d) - 1) && invpow + bigpow >= 30 + HighestBit(d)
  {
    BitLength(d);
    InverseFitsAt(d, invpow + bigpow, HighestBit(d), c, rowscpow);
  }

  /** With the base of the logarithmic f0 (invpow 31) and 12 decimals, the inverse of the pivot 4096 is 2^31. */
  lemma InverseExceedsInt32(c: int)
    requires Nearest(c, Pow2(31 + 12), 4096 * Pow2(0))
    ensures c == INT32_LIMIT && !FitsInt32(c)
  {
    Pow2Values();
    assert HighestBit(4096) == 13;
    InverseFits(4096, 12, 31, c, 0);
  }

  lemma InverseFitsAt(d: nat, s: nat, dlen: nat, c: int, rows: nat)
    requires 1 <= dlen <= 31 && Pow2(dlen - 1) <= d
    requires rows == if s > 30 + dlen then s - 30 - dlen else 0
    requires Nearest(c, Pow2(s), d * Pow2(rows))
    ensures 0 <= c <= INT32_LIMIT
    ensures c == INT32_LIMIT <==> d == Pow2(dlen - 1) && s >= 30 + dlen
  {
    var (q, num) := (Pow2(dlen - 1), Pow2(s - rows));
    LimitTimes(dlen);
    Unscaled(c, d, s, dlen, rows);
    Pow2Monotone(dlen - 1, 30);
    if s >= 30 + dlen {
      InverseBound(c, d, num, q);
      if d == q { ExactInverse(c, d, num, rows, s); }
    } else {
      Pow2Monotone(s, 29 + dlen);
      InverseBound(c, d, num, q);
    }
  }

  lemma LimitTimes(dlen: nat)
    requires 1 <= dlen
    ensures Pow2(30 + dlen) == INT32_LIMIT * Pow2(dlen - 1) && Pow2(30 + dlen) == 2 * Pow2(29 + dlen)
    ensures Pow2(30) == 0x4000_0000
  {
    Pow2Values();
    Pow2Sum(31, dlen - 1);
  }

  lemma ExactInverse(c: int, d: nat, num: nat, rows: nat, s: nat)
    requires rows <= s && num == Pow2(s - rows) == INT32_LIMIT * d && d > 0 && Nearest(c, Pow2(s), d * Pow2(rows))
    ensures c == INT32_LIMIT
  {
    Pow2Sum(s - rows, rows);
    assert INT32_LIMIT * (d * Pow2(rows)) == (INT32_LIMIT * d) * Pow2(rows);
    NearestUnique(c, INT32_LIMIT, Pow2(s), d * Pow2(rows));
  }

  // ---------------------------------------------------------------------------
  // Division by multiplication with the inverse
  // ---------------------------------------------------------------------------

  function MultPow(a: int, pow: nat): int {
    if HighestBit(a) + pow < 32 then a * Pow2(pow)
    else if a > 0 then INT32_LIMIT - 1 else -INT32_LIMIT
  }

  /** Clips exactly where the product does not fit (but turns 0 into the lowest number if `pow` is 32 or more). */
  lemma MultPowSaturates(a: int, pow: nat)
    requires Abs(a) < INT32_LIMIT
    ensures var p := a * Pow2(pow);
            MultPow(a, pow) == (if p >= INT32_LIMIT then INT32_LIMIT - 1
              else if p < -INT32_LIMIT then -INT32_LIMIT else p)
            <==> a != 0 || pow < 32
  {
    if a != 0 {
      HighestBitIsLength(Abs(a));
      SaturatesAt(a, pow, HighestBit(a));
    }
  }

  lemma LimitIsPower()
    ensures Pow2(31) == INT32_LIMIT
  {
    Pow2Values();
  }

  lemma SaturatesAt(a: int, pow: nat, h: nat)
    requires h >= 1 && Pow2(h - 1) <= Abs(a) < Pow2(h)
    ensures if h + pow < 32 then Abs(a * Pow2(pow)) < INT32_LIMIT else Abs(a * Pow2(pow)) >= INT32_LIMIT
    ensures a > 0 <==> a * Pow2(pow) > 0
  {
    AbsProduct(a, Pow2(pow));
    PositiveProduct(a, Pow2(pow));
    LimitIsPower();
    if h + pow < 32 {
      ProductBelow(Abs(a), Pow2(h), Pow2(pow));
      Pow2Sum(h, pow);
      Pow2Monotone(h + pow, 31);
    } else {
      MulMonotone(Pow2(h - 1), Abs(a), Pow2(pow));
      Pow2Sum(h - 1, pow);
      Pow2Monotone(31, h - 1 + pow);
    }
  }

  lemma ProductBelow(u: int, v: int, p: int)
    requires u < v && p > 0
    ensures u * p < v * p
  {
    MulMonotone(u, v - 1, p);
    assert (v - 1) * p == v * p - p;
  }

  lemma PositiveProduct(a: int, p: int)
    requires p > 0
    ensures a > 0 <==> a * p > 0
  {
    if a > 0 { MulMonotone(1, a, p); } else { MulMonotone(a, 0, p); }
  }

  function FixptInv(a: int, invb: int, bigpow: nat, invpow: nat, doubleDec: bool): int
    requires bigpow >= 1
  {
    var c := Mult(a, invb, bigpow, doubleDec);
    var normpow := if doubleDec then 3 * bigpow else bigpow;
    if normpow < invpow then DivPow(c, invpow - normpow) else MultPow(c, normpow - invpow)
  }

  lemma Scale(e: int, bound: int, k: int)
    requires -bound <= e <= bound && k >= 0
    ensures -(bound * k) <= e * k <= bound * k
  {
    MulMonotone(e, bound, k);
    MulMonotone(-bound, e, k);
    assert (-bound) * k == -(bound * k);
  }

  lemma ScaleSigned(e: int, bound: int, k: int)
    requires -bound <= e <= bound && bound >= 0
    ensures -(bound * Abs(k)) <= e * k <= bound * Abs(k)
  {
    Scale(e, bound, Abs(k));
    if k < 0 { assert e * (-k) == -(e * k); }
  }

  /**
   r is nearest to c/k, c close to a*inv/w, and inv nearest to n/d: then r is close to a*n/(k*w*d).
   */
  lemma InverseErrors(a: int, inv: int, c: int, r: int, w: int, k: int, n: int, d: int, err: int)
    requires w > 0 && k > 0 && d > 0 && err >= 0
    requires -err <= 2 * (c * w - a * inv) <= err
    requires -k <= 2 * (r * k - c) <= k
    requires -d <= 2 * (inv * d - n) <= d
    ensures var bound := d * (k * w + err + Abs(a));
            -bound <= 2 * (r * (k * w) * d - a * n) <= bound
  {
    var (e1, e2, e3) := (2 * (c * w - a * inv), 2 * (r * k - c), 2 * (inv * d - n));
    Scale(e2, k, w);
    Scale(e2 * w, k * w, d);
    Scale(e1, err, d);
    ScaleSigned(e3, d, a);
    InverseSum(a, inv, c, r, w, k, n, d);
    assert d * (k * w + err + Abs(a)) == (k * w) * d + err * d + d * Abs(a);
  }

  lemma InverseSum(a: int, inv: int, c: int, r: int, w: int, k: int, n: int, d: int)
    ensures 2 * (r * (k * w) * d - a * n)
         == (2 * (r * k - c) * w) * d + 2 * (c * w - a * inv) * d + 2 * (inv * d - n) * a
  {
    assert r * (k * w) == (r * k) * w;
    assert (2 * (r * k - c) * w) * d == 2 * (((r * k) * w) * d) - 2 * ((c * w) * d);
    assert 2 * (c * w - a * inv) * d == 2 * ((c * w) * d) - 2 * ((a * inv) * d);
    assert 2 * (inv * d - n) * a == 2 * ((inv * d) * a) - 2 * (n * a);
    assert (inv * d) * a == (a * inv) * d;
  }

  /** What a product is scaled by, and how much it can be off, in halves. */
  function Weight(bigpow: nat, doubleDec: bool): nat { if doubleDec then Pow2(bigpow + bigpow) else Pow2(bigpow) }
  function Slack(bigpow: nat, doubleDec: bool): nat {
    if doubleDec then Pow2(bigpow + bigpow) + Pow2(bigpow) else Pow2(bigpow)
  }

  lemma MultError(x: int, y: int, bigpow: nat, doubleDec: bool)
    requires bigpow >= 1
    ensures Abs(2 * (Mult(x, y, bigpow, doubleDec) * Weight(bigpow, doubleDec) - x * y)) <= Slack(bigpow, doubleDec)
  {
    var pow := if doubleDec then bigpow + bigpow else bigpow;
    if doubleDec && HighestBit(x) + HighestBit(y) > 30 {
      Pow2Sum(bigpow, bigpow);
      DoubleError(x, y, bigpow);
    } else {
      if !doubleDec { MultIsNearest(x, y, bigpow); }
      DivPowNearest(x * y, pow);
      NearestError(DivPow(x * y, pow), x * y, Pow2(pow));
    }
  }

  function NormPow(bigpow: nat, doubleDec: bool): nat { if doubleDec then 3 * bigpow else bigpow }

  /**
   Multiplying by the inverse of a pivot divides by it: with `div` the scaled pivot, the result r approximates
   a * 2^bigpow / div (a * 2^(2*bigpow) / div with double decimals), both sides scaled by a power of two here.
   Where the product has to be shifted up, this holds if the shifted product fits.
   */
  lemma DivisionByInverse(a: int, inv: int, div: nat, bigpow: nat, invpow: nat, doubleDec: bool)
    requires bigpow >= 1 && div > 0 && Nearest(inv, Pow2(invpow + bigpow), div) && inv < INT32_LIMIT
    ensures var (r, c) := (FixptInv(a, inv, bigpow, invpow, doubleDec), Mult(a, inv, bigpow, doubleDec));
            var (norm, w, slack) := (NormPow(bigpow, doubleDec), Weight(bigpow, doubleDec), Slack(bigpow, doubleDec));
            if norm < invpow then
              var unit := Pow2(invpow - norm) * w;
              var bound := div * (unit + slack + Abs(a));
              -bound <= 2 * (r * unit * div - a * Pow2(invpow + bigpow)) <= bound
            else
              var up := Pow2(norm - invpow);
              FitsInt32(c * up) && (c != 0 || norm - invpow < 32) ==>
                var bound := div * (slack + Abs(a)) * up;
                r == c * up && -bound <= 2 * (r * w * div - a * Pow2(norm + bigpow)) <= bound
  {
    MultError(a, inv, bigpow, doubleDec);
    NearestError(inv, Pow2(invpow + bigpow), div);
    if NormPow(bigpow, doubleDec) < invpow {
      InverseDown(a, inv, div, bigpow, invpow, doubleDec);
    } else {
      InverseUp(a, inv, div, bigpow, invpow, doubleDec);
    }
  }

  lemma InverseDown(a: int, inv: int, div: int, bigpow: nat, invpow: nat, doubleDec: bool)
    requires bigpow >= 1 && div > 0 && NormPow(bigpow, doubleDec) < invpow
    requires -div <= 2 * (inv * div - Pow2(invpow + bigpow)) <= div
    requires var c := Mult(a, inv, bigpow, doubleDec);
             Abs(2 * (c * Weight(bigpow, doubleDec) - a * inv)) <= Slack(bigpow, doubleDec)
    ensures var unit := Pow2(invpow - NormPow(bigpow, doubleDec)) * Weight(bigpow, doubleDec);
            var bound := div * (unit + Slack(bigpow, doubleDec) + Abs(a));
            var r := FixptInv(a, inv, bigpow, invpow, doubleDec);
            -bound <= 2 * (r * unit * div - a * Pow2(invpow + bigpow)) <= bound
  {
    var pow := invpow - NormPow(bigpow, doubleDec);
    var c := Mult(a, inv, bigpow, doubleDec);
    DivPowNearest(c, pow);
    NearestError(DivPow(c, pow), c, Pow2(pow));
    InverseErrors(a, inv, c, DivPow(c, pow), Weight(bigpow, doubleDec), Pow2(pow), Pow2(invpow + bigpow), div,
                  Slack(bigpow, doubleDec));
  }

  lemma InverseUp(a: int, inv: int, div: int, bigpow: nat, invpow: nat, doubleDec: bool)
    requires bigpow >= 1 && div > 0 && NormPow(bigpow, doubleDec) >= invpow
    requires -div <= 2 * (inv * div - Pow2(invpow + bigpow)) <= div
    requires var c := Mult(a, inv, bigpow, doubleDec);
             Abs(2 * (c * Weight(bigpow, doubleDec) - a * inv)) <= Slack(bigpow, doubleDec)
    ensures var (c, up) := (Mult(a, inv, bigpow, doubleDec), Pow2(NormPow(bigpow, doubleDec) - invpow));
            var (r, w) := (FixptInv(a, inv, bigpow, invpow, doubleDec), Weight(bigpow, doubleDec));
            var bound := div * (Slack(bigpow, doubleDec) + Abs(a)) * up;
            FitsInt32(c * up) && (c != 0 || NormPow(bigpow, doubleDec) - invpow < 32) ==>
              r == c * up && -bound <= 2 * (r * w * div - a * Pow2(NormPow(bigpow, doubleDec) + bigpow)) <= bound
  {
    var pow := NormPow(bigpow, doubleDec) - invpow;
    var c := Mult(a, inv, bigpow, doubleDec);
    if FitsInt32(c * Pow2(pow)) && (c != 0 || pow < 32) {
      ShiftedUp(c, pow);
      Pow2Sum(invpow + bigpow, pow);
      InverseErrorsUp(a, inv, c, Weight(bigpow, doubleDec), Pow2(pow), Pow2(invpow + bigpow), div, Slack(bigpow,
        doubleDec));
    }
  }

  /** Shifting up is exact where the result fits, the lowest number included. */
  lemma ShiftedUp(c: int, pow: nat)
    requires FitsInt32(c * Pow2(pow)) && (c != 0 || pow < 32)
    ensures MultPow(c, pow) == c * Pow2(pow)
  {
    if Abs(c) < INT32_LIMIT {
      MultPowSaturates(c, pow);
    } else {
      LowestFits(c, Pow2(pow));
      assert pow == 0;
    }
  }

  lemma LowestFits(c: int, p: nat)
    requires p >= 1 && FitsInt32(c * p) && Abs(c) >= INT32_LIMIT
    ensures c == -INT32_LIMIT && p == 1
  {
    AbsProduct(c, p);
    MulMonotone(INT32_LIMIT, Abs(c), p);
    assert c * 1 == c;
  }

  /** The same as `InverseErrors` for a product that is scaled by `up`, which adds no error. */
  lemma InverseErrorsUp(a: int, inv: int, c: int, w: int, up: int, n: int, d: int, err: int)
    requires w > 0 && up > 0 && d > 0 && err >= 0
    requires -err <= 2 * (c * w - a * inv) <= err
    requires -d <= 2 * (inv * d - n) <= d
    ensures var bound := d * (err + Abs(a)) * up;
            -bound <= 2 * ((c * up) * w * d - a * (n * up)) <= bound
  {
    ProductError(a, inv, c, w, n, d, err);
    var sum := 2 * (c * w * d - a * n);
    Scale(sum, d * (err + Abs(a)), up);
    ScaledDifference(c, w, d, a, n, up);
  }

  lemma ProductError(a: int, inv: int, c: int, w: int, n: int, d: int, err: int)
    requires d > 0 && err >= 0
    requires -err <= 2 * (c * w - a * inv) <= err
    requires -d <= 2 * (inv * d - n) <= d
    ensures var bound := d * (err + Abs(a));
            -bound <= 2 * (c * w * d - a * n) <= bound
  {
    var (e1, e3) := (2 * (c * w - a * inv), 2 * (inv * d - n));
    Scale(e1, err, d);
    ScaleSigned(e3, d, a);
    InverseSum(a, inv, c, c, w, 1, n, d);
    assert d * (err + Abs(a)) == err * d + d * Abs(a);
    assert c * (1 * w) * d == c * w * d && (2 * (c * 1 - c) * w) * d == 0;
  }

  lemma ScaledDifference(c: int, w: int, d: int, a: int, n: int, up: int)
    ensures 2 * ((c * up) * w * d - a * (n * up)) == 2 * (c * w * d - a * n) * up
  {
    assert (c * up) * w == (c * w) * up;
    assert ((c * w) * up) * d == (c * w * d) * up;
    assert a * (n * up) == (a * n) * up;
  }

  // ---------------------------------------------------------------------------
  // Where 32 bits are not enough
  // ---------------------------------------------------------------------------

  /** The sum of the middle digits in the long multiplication with double decimals. */
  function MiddleSum(x: int, y: int, bigpow: nat): int
    requires bigpow >= 1
  {
    High(x, bigpow) * Rest(y, bigpow) + Rest(x, bigpow) * High(y, bigpow) + DivPow(Rest(x, bigpow) * Rest(y, bigpow),
      bigpow)
  }

  lemma MiddleRounded(x: int, y: int, a: int, b: int, c: int, d: int, big: int, r: int)
    requires x == a * big + b && y == c * big + d && Nearest(r, b * d, big)
    requires (b * d > 0 ==> a * d + b * c >= 0) && (b * d < 0 ==> a * d + b * c <= 0)
    ensures Nearest(a * d + b * c + r, x * y - a * c * (big * big), big)
  {
    Product(a, b, c, d, big);
    MiddleDigits(x * y, a * c, a * d + b * c, b * d, big);
    NearestShift(r, b * d, big, a * d + b * c);
  }

  lemma MiddleIsNearest(x: int, y: int, bigpow: nat)
    requires bigpow >= 1
    ensures var big := Pow2(bigpow);
            Nearest(MiddleSum(x, y, bigpow), x * y - High(x, bigpow) * High(y, bigpow) * (big * big), big)
  {
    var (a, b, c, d) := (High(x, bigpow), Rest(x, bigpow), High(y, bigpow), Rest(y, bigpow));
    Digits(x, bigpow);
    Digits(y, bigpow);
    PartialSigns(x, y, bigpow);
    DivPowNearest(b * d, bigpow);
    MiddleRounded(x, y, a, b, c, d, Pow2(bigpow), DivPow(b * d, bigpow));
  }

  /** It fits exactly if the product without the high digits does, once rounded. */
  lemma MiddleSumFitsIff(x: int, y: int, bigpow: nat)
    requires bigpow >= 1
    ensures var big := Pow2(bigpow);
            var low := x * y - High(x, bigpow) * High(y, bigpow) * (big * big);
            FitsInt32(MiddleSum(x, y, bigpow)) <==> 2 * Abs(low) < (2 * INT32_LIMIT + if low < 0 then 1 else -1) * big
  {
    var big := Pow2(bigpow);
    var low := x * y - High(x, bigpow) * High(y, bigpow) * (big * big);
    MiddleIsNearest(x, y, bigpow);
    NearestBelow(MiddleSum(x, y, bigpow), low, big, if low < 0 then INT32_LIMIT + 1 else INT32_LIMIT);
  }

  /** All intermediate results of the long multiplication with double decimals, roundings included. */
  ghost predicate DoubleFits(x: int, y: int, bigpow: nat)
    requires bigpow >= 1
  {
    var (a, b, c, d, half) := (High(x, bigpow), Rest(x, bigpow), High(y, bigpow), Rest(y, bigpow), Pow2(bigpow - 1));
    && FitsInt32(a * d) && FitsInt32(b * c) && FitsInt32(a * d + b * c) && FitsInt32(Abs(b * d) + half)
    && FitsInt32(MiddleSum(x, y, bigpow)) && FitsInt32(Abs(MiddleSum(x, y, bigpow)) + half)
    && FitsInt32(a * c) && FitsInt32(MultDouble(x, y, bigpow, true))
  }

  /** With at most 15 decimals, nothing overflows exactly if the result fits and the product without the high digits
      is not too large. */
  lemma DoubleFitsIff(x: int, y: int, bigpow: nat)
    requires 1 <= bigpow <= 15
    ensures var (big, half) := (Pow2(bigpow), Pow2(bigpow - 1));
            DoubleFits(x, y, bigpow) <==>
              && FitsInt32(MultDouble(x, y, bigpow, true))
              && 2 * Abs(x * y - High(x, bigpow) * High(y, bigpow) * (big * big)) < (2 * (INT32_LIMIT - half) - 1) * big
  {
    hide Pow2, DivPow, High, Rest;
    var (big, half) := (Pow2(bigpow), Pow2(bigpow - 1));
    var low := x * y - High(x, bigpow) * High(y, bigpow) * (big * big);
    Pow2Monotone(bigpow - 1, 14);
    Pow2Values();
    DoubleWithin(x, y, bigpow);
    SquareOfDecimals(bigpow);
    MiddleIsNearest(x, y, bigpow);
    NearestBelow(MiddleSum(x, y, bigpow), low, big, INT32_LIMIT - half);
  }

  lemma WithinSums(high: int, u: int, v: int, low: int, r: int)
    requires (high >= 0 && u >= 0 && v >= 0 && low >= 0) || (high <= 0 && u <= 0 && v <= 0 && low <= 0)
    requires (u + v + low >= 0 ==> r >= 0) && (u + v + low <= 0 ==> r <= 0)
    ensures Within(u, u + v + low) && Within(v, u + v + low) && Within(u + v, u + v + low) && Within(high, high + r)
  {
  }

  /** The partial products are not larger than the sum of the middle digits, or than the result. */
  lemma DoubleWithin(x: int, y: int, bigpow: nat)
    requires bigpow >= 1
    ensures var (a, b, c, d) := (High(x, bigpow), Rest(x, bigpow), High(y, bigpow), Rest(y, bigpow));
            var (e, z, big) := (MiddleSum(x, y, bigpow), MultDouble(x, y, bigpow, true), Pow2(bigpow));
            && Within(a * d, e) && Within(b * c, e) && Within(a * d + b * c, e) && Within(a * c, z)
            && Abs(b * d) + big / 2 <= big * big
  {
    var (a, b, c, d, big) := (High(x, bigpow), Rest(x, bigpow), High(y, bigpow), Rest(y, bigpow), Pow2(bigpow));
    hide Pow2, DivPow, High, Rest;
    Digits(x, bigpow);
    Digits(y, bigpow);
    PartialSigns(x, y, bigpow);
    RoundingKeepsSign(b * d, bigpow);
    RoundingKeepsSign(MiddleSum(x, y, bigpow), bigpow);
    RestProduct(b, d, big);
    WithinSums(a * c, a * d, b * c, DivPow(b * d, bigpow), DivPow(MiddleSum(x, y, bigpow), bigpow));
  }

  lemma MiddleDigits(n: int, high: int, mid: int, low: int, big: int)
    requires n == (high * big + mid) * big + low
    ensures n - high * (big * big) == mid * big + low
  {
    assert (high * big + mid) * big == (high * big) * big + mid * big;
  }

  lemma NearestBelow(r: int, num: int, den: int, limit: nat)
    requires Nearest(r, num, den)
    ensures Abs(r) < limit <==> 2 * Abs(num) < (2 * limit - 1) * den
  {
    assert (2 * limit - 1) * den == 2 * (limit * den) - den;
    if Abs(r) < limit {
      MulMonotone(Abs(r), limit - 1, den);
      assert (limit - 1) * den == limit * den - den;
    } else {
      MulMonotone(limit, Abs(r), den);
    }
  }

  /** So it can overflow although the result fits, with the 12 decimals of the smoother. */
  lemma MiddleSumOverflows()
    ensures FitsInt32(MultDouble(0x7fff_ffff, 0x00ff_efff, 12, true))
            && !FitsInt32(MiddleSum(0x7fff_ffff, 0x00ff_efff, 12))
  {
    Pow2Values();
    assert High(0x7fff_ffff, 12) == 0x7_ffff && Rest(0x7fff_ffff, 12) == 0xfff;
    assert High(0x00ff_efff, 12) == 0xffe && Rest(0x00ff_efff, 12) == 0xfff;
  }
}
