/** Powers of two, and the few facts about division that the bit-level code rests on. */
module Powers {

  type byte = b: int | 0 <= b < 256

  function Pow2(n: nat): (p: nat)
    ensures p >= 1
  {
    if n == 0 then 1 else 2 * Pow2(n - 1)
  }

  // ---------------------------------------------------------------------------
  // Shifts and masks, one bit at a time
  // ---------------------------------------------------------------------------

  /** `v << n` */
  function Shl(v: int, n: nat): (r: int)
    ensures (v >= 0 ==> r >= v) && (v == 0 ==> r == 0)
  {
    if n == 0 then v else 2 * Shl(v, n - 1)
  }

  /** `v >> n` */
  function Shr(v: int, n: nat): int {
    if n == 0 then v else Shr(v, n - 1) / 2
  }

  /** The low `n` bits of `v`. */
  function Low(v: int, n: nat): (r: int)
    ensures r >= 0
    decreases n
  {
    if n == 0 then 0 else 2 * Low(v / 2, n - 1) + v % 2
  }

  lemma {:induction false} ShlAdd(u: int, v: int, n: nat)
    ensures Shl(u + v, n) == Shl(u, n) + Shl(v, n)
  {
    if n == 0 {
    } else {
      ShlAdd(u, v, n - 1);
    }
  }

  lemma {:induction false} ShrInner(v: int, n: nat)
    requires n > 0
    ensures Shr(v, n) == Shr(v / 2, n - 1)
    decreases n
  {
    if n <= 1 {
    } else {
      ShrInner(v, n - 1);
    }
  }

  lemma {:induction false} LowShr(v: int, n: nat, k: nat)
    ensures Shr(Low(v, n + k), k) == Low(Shr(v, k), n)
    decreases k
  {
    if k == 0 {
    } else {
      ShrInner(v, k);
      ShrInner(Low(v, n + k), k);
      LowShr(v / 2, n, k - 1);
    }
  }

  lemma {:induction false} LowSmall(v: int, n: nat)
    requires 0 <= v < Pow2(n)
    ensures Low(v, n) == v
    decreases n
  {
    if n == 0 {
    } else {
      LowSmall(v / 2, n - 1);
    }
  }

  lemma {:induction false} ShrBound(v: int, n: nat, k: nat)
    requires 0 <= v < Pow2(n + k)
    ensures 0 <= Shr(v, k) < Pow2(n)
    decreases k
  {
    if k == 0 {
    } else {
      ShrInner(v, k);
      ShrBound(v / 2, n, k - 1);
    }
  }

  /** The low bits are a remainder. */
  lemma {:induction false} LowIsRemainder(v: nat, n: nat)
    ensures Low(v, n) == v % Pow2(n)
  {
    if n > 0 {
      LowIsRemainder(v / 2, n - 1);
      HalfRemainder(v, Pow2(n - 1));
    }
  }

  lemma HalfRemainder(v: nat, p: nat)
    requires p > 0
    ensures v % (2 * p) == 2 * (v / 2 % p) + v % 2
  {
    var (h, b) := (v / 2, v % 2);
    var (q, r) := (h / p, h % p);
    assert v == 2 * h + b && h == p * q + r;
    TwiceSum(p, q, r);
    DivModUnique(v, 2 * p, q, 2 * r + b);
  }

  lemma TwiceSum(p: int, q: int, r: int)
    ensures 2 * (p * q + r) == (2 * p) * q + 2 * r
  {
  }

  lemma {:induction false} ShlIsProduct(v: int, n: nat)
    ensures Shl(v, n) == v * Pow2(n)
  {
    if n == 0 {
    } else {
      ShlIsProduct(v, n - 1);
    }
  }

  lemma {:induction false} ShrIsQuotient(v: int, n: nat)
    ensures Shr(v, n) == v / Pow2(n)
  {
    if n == 0 {
    } else {
      ShrIsQuotient(v, n - 1);
      DivDiv(v, Pow2(n - 1), 2);
    }
  }

  /** The division of C, which truncates towards zero. */
  function CDiv(a: int, b: int): int
    requires b != 0
  {
    if (a >= 0) == (b > 0) then Abs(a) / Abs(b) else -(Abs(a) / Abs(b))
  }

  function Abs(a: int): nat { if a < 0 then -a else a }

  lemma {:induction false} Pow2Sum(m: nat, n: nat)
    ensures Pow2(m + n) == Pow2(m) * Pow2(n)
  {
    if m == 0 {
    } else {
      Pow2Sum(m - 1, n);
      assert Pow2(m + n) == 2 * (Pow2(m - 1) * Pow2(n));
    }
  }

  lemma {:induction false} Pow2Monotone(m: nat, n: nat)
    requires m <= n
    ensures Pow2(m) <= Pow2(n)
  {
    if m >= n {
    } else {
      Pow2Monotone(m, n - 1);
    }
  }

  lemma SmallMultiple(b: int, d: int)
    requires -b < b * d < b
    ensures d == 0
  {
  }

  lemma MulMonotone(a: int, b: int, c: int)
    requires a <= b && c >= 0
    ensures a * c <= b * c
  {
  }

  /** Quotient and remainder are determined by their equation. */
  lemma DivModUnique(a: int, b: int, q: int, r: int)
    requires b > 0 && a == b * q + r && 0 <= r < b
    ensures a / b == q && a % b == r
  {
    var d := a / b - q;
    assert b * d == r - a % b;
    SmallMultiple(b, d);
  }

  lemma DivDiv(a: int, b: int, c: int)
    requires b > 0 && c > 0
    ensures b * c > 0 && a / (b * c) == a / b / c
  {
    var q, r := a / b, a % b;
    var u, s := q / c, q % c;
    assert a == b * q + r && q == c * u + s;
    MulMonotone(s, c - 1, b);
    MulMonotone(1, c, b);
    assert b * q == b * (c * u) + b * s;
    assert b * (c * u) == (b * c) * u;
    DivModUnique(a, b * c, u, b * s + r);
  }
}
