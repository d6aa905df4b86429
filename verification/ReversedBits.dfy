/** Numbers with their bits in reverse order, and counting in them (pico/lib/picofftsg.c). */
module ReversedBits {
  import opened Powers

  /** `i` with its lowest `k` bits in reverse order. */
  function Rev(k: nat, i: nat): (r: nat)
    ensures r < Pow2(k)
  {
    if k == 0 then 0 else (if i % 2 == 1 then Pow2(k - 1) else 0) + Rev(k - 1, i / 2)
  }

  predicate BitAt(i: int, t: nat) { Shr(i, t) % 2 == 1 }

  // ---------------------------------------------------------------------------
  // Reversal, bit by bit
  // ---------------------------------------------------------------------------

  /** A further top bit becomes the lowest bit. */
  lemma {:induction false} RevTop(k: nat, i: nat, top: bool)
    requires i < Pow2(k)
    ensures Rev(k + 1, i + if top then Pow2(k) else 0) == 2 * Rev(k, i) + if top then 1 else 0
    decreases k
  {
    if k == 0 {
    } else {
      var j := i + if top then Pow2(k) else 0;
      assert j % 2 == i % 2 && j / 2 == i / 2 + if top then Pow2(k - 1) else 0;
      RevTop(k - 1, i / 2, top);
    }
  }

  /** Reversing twice changes nothing. */
  lemma {:induction false} RevInvolution(k: nat, i: nat)
    requires i < Pow2(k)
    ensures Rev(k, Rev(k, i)) == i
    decreases k
  {
    if k == 0 {
    } else {
      RevInvolution(k - 1, i / 2);
      RevTop(k - 1, Rev(k - 1, i / 2), i % 2 == 1);
    }
  }

  /** Setting bit t of the index sets bit k-1-t of the reversal. */
  lemma {:induction false} RevSetBit(k: nat, i: nat, t: nat)
    requires t < k && !BitAt(i, t)
    ensures Rev(k, i + Pow2(t)) == Rev(k, i) + Pow2(k - 1 - t)
    decreases k
  {
    if t == 0 {
    } else {
      ShrInner(i, t);
      RevSetBit(k - 1, i / 2, t - 1);
      assert (i + Pow2(t)) / 2 == i / 2 + Pow2(t - 1) && (i + Pow2(t)) % 2 == i % 2;
    }
  }

  lemma {:induction false} LowTop(v: int, n: nat)
    ensures Low(v, n + 1) == Low(v, n) + if BitAt(v, n) then Pow2(n) else 0
    decreases n
  {
    if n == 0 {
    } else {
      ShrInner(v, n);
      LowTop(v / 2, n - 1);
    }
  }

  lemma {:induction false} LowBound(v: int, n: nat)
    ensures 0 <= Low(v, n) < Pow2(n)
    decreases n
  {
    if n == 0 {
    } else {
      LowBound(v / 2, n - 1);
    }
  }

  /** A multiple of 2^s has no influence on the bits below s. */
  lemma {:induction false} HighBitIgnored(v: int, s: nat, t: nat)
    requires t < s
    ensures BitAt(v + Pow2(s), t) == BitAt(v, t)
    decreases t
  {
    if t == 0 {
    } else {
      ShrInner(v, t);
      ShrInner(v + Pow2(s), t);
      HighBitIgnored(v / 2, s - 1, t - 1);
    }
  }

  lemma {:induction false} LowHighIgnored(v: int, s: nat, n: nat)
    requires n <= s
    ensures Low(v + Pow2(s), n) == Low(v, n)
    decreases n
  {
    if n == 0 {
    } else {
      LowHighIgnored(v / 2, s - 1, n - 1);
    }
  }

  lemma {:induction false} SmallBit(v: int, n: nat)
    requires 0 <= v < Pow2(n + 1)
    ensures BitAt(v, n) <==> v >= Pow2(n)
    decreases n
  {
    if n == 0 {
    } else {
      ShrInner(v, n);
      SmallBit(v / 2, n - 1);
    }
  }

  /** Bit t of the reversal is bit k-1-t of the index. */
  lemma {:induction false} RevBit(k: nat, i: nat, t: nat)
    requires t < k
    ensures BitAt(Rev(k, i), t) == BitAt(i, k - 1 - t)
    decreases k
  {
    var r := Rev(k - 1, i / 2);
    SmallBit(Rev(k, i), k - 1);
    if t >= k - 1 {
    } else {
      RevBit(k - 1, i / 2, t);
      ShrInner(i, k - 1 - t);
      HighBitIgnored(r, k - 1, t);
    }
  }

  lemma RevAddTop(k: nat, v: nat, t: nat, bit: bool)
    requires t < k && v < Pow2(t)
    ensures Rev(k, v + if bit then Pow2(t) else 0) == Rev(k, v) + if bit then Pow2(k - 1 - t) else 0
  {
    if bit {
      SmallBit(v, t);
      RevSetBit(k, v, t);
    }
  }

  /** The q lowest bits of the reversal, reversed back, are the q highest bits of the index. */
  lemma {:induction false} RevLow(k: nat, i: nat, q: nat)
    requires i < Pow2(k) && q <= k
    ensures Rev(k, Low(Rev(k, i), q)) == i - Low(i, k - q)
    decreases q
  {
    hide *;
    if q == 0 {
      LowZero(Rev(k, i));
      LowSmall(i, k);
      RevZero(k);
    } else {
      var r := Rev(k, i);
      RevLow(k, i, q - 1);
      LowTop(r, q - 1);
      LowTop(i, k - q);
      RevBit(k, i, q - 1);
      LowBound(r, q - 1);
      RevAddTop(k, Low(r, q - 1), q - 1, BitAt(r, q - 1));
    }
  }

  lemma LowZero(v: int)
    ensures Low(v, 0) == 0
  {
  }

  lemma {:induction false} RevZero(k: nat)
    ensures Rev(k, 0) == 0
  {
    if k == 0 {
    } else {
      RevZero(k - 1);
    }
  }

  // ---------------------------------------------------------------------------
  // Counting in reversed binary
  // ---------------------------------------------------------------------------

  /** `k ^ (1 << e)` */
  function Flip(k: int, e: nat): int {
    if BitAt(k, e) then k - Pow2(e) else k + Pow2(e)
  }

  /** What the loop `for (i = 1 << e; i > (k ^= i); i >>= 1)` leaves in k. */
  function Carry(k: int, e: nat): int
    decreases e
  {
    var f := Flip(k, e);
    if e > 0 && f < Pow2(e) then Carry(f, e - 1) else f
  }

  /** It is the successor of a counter whose bits are reversed. */
  lemma {:induction false} CarryIsSuccessor(bits: nat, z: nat)
    requires bits > 0 && z + 1 < Pow2(bits)
    ensures Carry(Rev(bits, z), bits - 1) == Rev(bits, z + 1)
    decreases bits
  {
    var (r, half) := (Rev(bits - 1, z / 2), Pow2(bits - 1));
    assert Rev(bits, z) == (if z % 2 == 1 then half else 0) + r && Pow2(bits) == 2 * half;
    SmallBit(Rev(bits, z), bits - 1);
    if z % 2 == 0 {
      assert (z + 1) / 2 == z / 2 && Rev(bits, z + 1) == half + r;
      hide Rev, BitAt;
    } else {
      assert (z + 1) / 2 == z / 2 + 1 && Rev(bits, z + 1) == Rev(bits - 1, z / 2 + 1) && bits > 1;
      hide Rev, BitAt;
      CarryIsSuccessor(bits - 1, z / 2);
    }
  }

  /** `k ^ i` for a power of two `i`. */
  function Xor(k: nat, i: nat): nat
    requires i > 0
  {
    if k / i % 2 == 1 && k >= i then k - i else k + i
  }

  lemma XorFlips(k: nat, i: nat, e: nat)
    requires i == Pow2(e)
    ensures Xor(k, i) == Flip(k, e)
  {
    ShrIsQuotient(k, e);
    if k < i { DivModUnique(k, i, 0, k); }
  }

  /** The xor loop. */
  method NextReversed(nh: nat, k0: nat, ghost bits: nat, ghost z: nat) returns (k: nat)
    requires bits > 0 && nh == Pow2(bits) && z + 1 < Pow2(bits) && k0 == Rev(bits, z)
    ensures k == Rev(bits, z + 1)
  {
    hide Rev, Flip;
    ghost var e: nat := bits - 1;
    CarryIsSuccessor(bits, z);
    RevInvolution(bits, z + 1);
    RevZero(bits);
    var i := nh / 2;
    XorFlips(k0, i, e);
    k := Xor(k0, i);
    while i > k
      invariant i == Pow2(e) && (if e > 0 && k < Pow2(e) then Carry(k, e - 1) else k) == Rev(bits, z + 1)
      decreases e
    {
      i := i / 2;
      e := e - 1;
      XorFlips(k, i, e);
      k := Xor(k, i);
    }
  }

  // ---------------------------------------------------------------------------
  // An index in parts: low half, reversed high half, and the outer bits
  // ---------------------------------------------------------------------------

  /** The low half of an index without its lowest bit. */
  function X(bits: nat, i: nat): nat
    requires bits >= 2
  {
    2 * Low(i / 2, bits / 2 - 1)
  }

  /** The same of the reversed index. */
  function Y(bits: nat, i: nat): nat
    requires bits >= 2
  {
    X(bits, Rev(bits, i))
  }

  /** Number of indices with a given low half: 2^(bits/2). */
  function Half(bits: nat): nat { Pow2(bits / 2) }

  /** The bits that X and Y leave out: lowest, highest, and the middle one of an odd number of bits. */
  function Outer(bits: nat, low: bool, mid: bool, top: bool): nat
    requires bits >= 2
  {
    (if low then 1 else 0) + (if mid then Half(bits) else 0) + (if top then Pow2(bits - 1) else 0)
  }

  lemma LowPart(bits: nat, i: nat)
    requires bits >= 2
    ensures Low(i, bits - bits / 2)
         == X(bits, i) + i % 2 + if bits % 2 == 1 && BitAt(i, bits / 2) then Half(bits) else 0
  {
    assert Low(i, bits / 2) == X(bits, i) + i % 2;
    if bits % 2 == 1 {
      LowTop(i, bits / 2);
    }
  }

  lemma HighPart(bits: nat, i: nat)
    requires bits >= 2 && i < Pow2(bits)
    ensures i - Low(i, bits - bits / 2) == Rev(bits, Y(bits, i)) + if BitAt(i, bits - 1) then Pow2(bits - 1) else 0
  {
    var (q, r) := (bits / 2, Rev(bits, i));
    RevLow(bits, i, q);
    RevBit(bits, i, 0);
    assert Low(r, q) == Y(bits, i) + r % 2;
    if r % 2 == 1 {
      RevSetBit(bits, Y(bits, i), 0);
    }
  }

  /** An index is determined by its parts. */
  lemma Reassemble(bits: nat, i: nat)
    requires bits >= 2 && i < Pow2(bits)
    ensures i == Inner(bits, Y(bits, i), X(bits, i))
                 + Outer(bits, i % 2 == 1, bits % 2 == 1 && BitAt(i, bits / 2), BitAt(i, bits - 1))
  {
    LowPart(bits, i);
    HighPart(bits, i);
  }

  lemma LowOfEven(v: nat, s: nat)
    requires s > 0 && Low(v, s) == 0
    ensures v % 2 == 0 && Low(v / 2, s - 1) == 0
  {
  }

  lemma EvenSplit(v: nat, l: nat)
    requires v % 2 == 0
    ensures (v + l) / 2 == v / 2 + l / 2 && (v + l) % 2 == l % 2 && l == 2 * (l / 2) + l % 2 && v == 2 * (v / 2)
  {
  }

  lemma {:induction false} LowDisjoint(v: nat, s: nat, l: nat)
    requires Low(v, s) == 0 && l < Pow2(s)
    ensures Low(v + l, s) == l
    decreases s
  {
    if s == 0 {
    } else {
      LowOfEven(v, s);
      EvenSplit(v, l);
      assert Low(v + l, s) == 2 * Low((v + l) / 2, s - 1) + (v + l) % 2 && Pow2(s) == 2 * Pow2(s - 1);
      hide *;
      LowDisjoint(v / 2, s - 1, l / 2);
    }
  }

  lemma {:induction false} SumBelow(v: nat, s: nat, l: nat, t: nat)
    requires Low(v, s) == 0 && l < Pow2(s) && s <= t && v < Pow2(t)
    ensures v + l < Pow2(t)
    decreases s
  {
    if s == 0 {
    } else {
      LowOfEven(v, s);
      EvenSplit(v, l);
      assert Pow2(s) == 2 * Pow2(s - 1) && Pow2(t) == 2 * Pow2(t - 1);
      hide *;
      SumBelow(v / 2, s - 1, l / 2, t - 1);
    }
  }

  lemma {:induction false} RevDisjoint(k: nat, v: nat, s: nat, l: nat)
    requires Low(v, s) == 0 && l < Pow2(s) && s <= k
    ensures Rev(k, v + l) == Rev(k, v) + Rev(k, l)
    decreases s
  {
    if s > 0 {
      LowOfEven(v, s);
      EvenSplit(v, l);
      assert Pow2(s) == 2 * Pow2(s - 1);
      assert Rev(k, v) == Rev(k - 1, v / 2);
      assert Rev(k, v + l) - Rev(k - 1, (v + l) / 2) == Rev(k, l) - Rev(k - 1, l / 2);
      hide *;
      RevDisjoint(k - 1, v / 2, s - 1, l / 2);
    } else {
      RevZero(k);
    }
  }

  lemma {:induction false} LowOfMultiple(v: nat, s: nat, n: nat)
    requires Low(v, s) == 0 && n <= s
    ensures Low(v, n) == 0
    decreases s - n
  {
    if n >= s {
    } else {
      LowTop(v, s - 1);
      LowOfMultiple(v, s - 1, n);
    }
  }

  lemma RevOfEven(bits: nat, x: nat)
    requires bits >= 1 && x % 2 == 0
    ensures Rev(bits, x) < Pow2(bits - 1)
  {
    RevBit(bits, x, bits - 1);
    SmallBit(Rev(bits, x), bits - 1);
  }

  /** The reversal of a low half is a high half. */
  lemma RevOfHalf(bits: nat, x: nat)
    requires bits >= 2 && x < Half(bits)
    ensures Low(Rev(bits, x), bits - bits / 2) == 0 && Rev(bits, Rev(bits, x)) == x
  {
    var q := bits / 2;
    Pow2Monotone(q, bits);
    RevInvolution(bits, x);
    LowSmall(x, q);
    RevLow(bits, Rev(bits, x), q);
  }

  /** The index with reversed high half `y` and low half `x`, and no outer bits. */
  function Inner(bits: nat, y: nat, x: nat): nat {
    Rev(bits, y) + x
  }

  ghost predicate Halves(bits: nat, y: nat, x: nat) {
    bits >= 2 && x < Half(bits) && y < Half(bits) && x % 2 == 0 && y % 2 == 0
  }

  lemma InnerLow(bits: nat, y: nat, x: nat)
    requires Halves(bits, y, x)
    ensures var j := Inner(bits, y, x);
            && Low(j, bits / 2) == x && X(bits, j) == x && j % 2 == 0
            && (bits % 2 == 1 ==> !BitAt(j, bits / 2))
  {
    var j := Inner(bits, y, x);
    InnerLowHalf(bits, y, x);
    assert Low(j, bits / 2) == 2 * Low(j / 2, bits / 2 - 1) + j % 2;
    assert X(bits, j) == 2 * Low(j / 2, bits / 2 - 1);
    hide Low, Inner, Shr;
    if bits % 2 == 1 { LowTop(j, bits / 2); }
  }

  lemma InnerLowHalf(bits: nat, y: nat, x: nat)
    requires Halves(bits, y, x)
    ensures Low(Inner(bits, y, x), bits / 2) == x && (bits % 2 == 1 ==> Low(Inner(bits, y, x), bits / 2 + 1) == x)
  {
    var (q, v) := (bits / 2, Rev(bits, y));
    hide Rev, Low;
    RevOfHalf(bits, y);
    LowOfMultiple(v, bits - q, q);
    LowDisjoint(v, q, x);
    if bits % 2 == 1 {
      Pow2Monotone(q, q + 1);
      LowDisjoint(v, q + 1, x);
    }
  }

  lemma InnerBound(bits: nat, y: nat, x: nat)
    requires Halves(bits, y, x)
    ensures Inner(bits, y, x) < Pow2(bits - 1)
  {
    var (q, v) := (bits / 2, Rev(bits, y));
    RevOfHalf(bits, y);
    RevOfEven(bits, y);
    Pow2Monotone(q, bits - q);
    SumBelow(v, bits - q, x, bits - 1);
  }

  lemma InnerReversed(bits: nat, y: nat, x: nat)
    requires Halves(bits, y, x)
    ensures Rev(bits, Inner(bits, y, x)) == Inner(bits, x, y)
  {
    var (q, v) := (bits / 2, Rev(bits, y));
    RevOfHalf(bits, y);
    Pow2Monotone(q, bits - q);
    RevDisjoint(bits, v, bits - q, x);
  }

  /** Setting one outer bit. */
  lemma SetOuter(bits: nat, i: nat, t: nat)
    requires bits >= 2 && i < Pow2(bits) && !BitAt(i, t)
    requires t == 0 || t == bits - 1 || (bits % 2 == 1 && t == bits / 2)
    ensures i + Pow2(t) < Pow2(bits) && X(bits, i + Pow2(t)) == X(bits, i)
    ensures Rev(bits, i + Pow2(t)) == Rev(bits, i) + Pow2(bits - 1 - t)
  {
    RevSetBit(bits, i, t);
    SetBitBound(i, bits, t);
    if t > 0 {
      assert (i + Pow2(t)) / 2 == i / 2 + Pow2(t - 1);
      LowHighIgnored(i / 2, t - 1, bits / 2 - 1);
    }
  }

  lemma {:induction false} SetBitBound(i: nat, k: nat, t: nat)
    requires i < Pow2(k) && t < k && !BitAt(i, t)
    ensures i + Pow2(t) < Pow2(k)
    decreases k
  {
    assert Pow2(k) == 2 * Pow2(k - 1);
    if t == 0 {
      assert i % 2 == 0;
      hide *;
      EvenBelow(i, Pow2(k - 1));
    } else {
      assert Pow2(t) == 2 * Pow2(t - 1) && !BitAt(i / 2, t - 1) by { ShrInner(i, t); }
      hide *;
      SetBitBound(i / 2, k - 1, t - 1);
    }
  }

  lemma EvenBelow(i: nat, p: nat)
    requires i < 2 * p && i % 2 == 0
    ensures i + 1 < 2 * p
  {
  }

  lemma SetMiddle(bits: nat, j: nat, mid: bool)
    requires bits >= 2 && j < Pow2(bits) && !BitAt(j, 0) && (mid ==> bits % 2 == 1) && (mid ==> !BitAt(j, bits / 2))
    ensures var u := j + if mid then Half(bits) else 0;
            && u < Pow2(bits) && X(bits, u) == X(bits, j) && !BitAt(u, 0)
            && Rev(bits, u) == Rev(bits, j) + if mid then Half(bits) else 0
  {
    if mid {
      SetOuter(bits, j, bits / 2);
      HighBitIgnored(j, bits / 2, 0);
    }
  }

  lemma SetTop(bits: nat, j: nat, top: bool)
    requires bits >= 2 && j < Pow2(bits - 1) && !BitAt(j, 0)
    ensures var u := j + if top then Pow2(bits - 1) else 0;
            && u < Pow2(bits) && X(bits, u) == X(bits, j) && !BitAt(u, 0)
            && (bits % 2 == 1 ==> BitAt(u, bits / 2) == BitAt(j, bits / 2))
            && Rev(bits, u) == Rev(bits, j) + if top then 1 else 0
  {
    if top {
      SmallBit(j, bits - 1);
      SetOuter(bits, j, bits - 1);
      HighBitIgnored(j, bits - 1, 0);
      if bits % 2 == 1 { HighBitIgnored(j, bits - 1, bits / 2); }
    }
  }

  lemma SetAll(bits: nat, j: nat, low: bool, mid: bool, top: bool)
    requires bits >= 2 && j < Pow2(bits - 1) && !BitAt(j, 0) && (mid ==> bits % 2 == 1)
    requires bits % 2 == 1 ==> !BitAt(j, bits / 2)
    ensures var u := j + Outer(bits, low, mid, top);
            u < Pow2(bits) && X(bits, u) == X(bits, j) && Rev(bits, u) == Rev(bits, j) + Outer(bits, top, mid, low)
  {
    assert Pow2(0) == 1;
    assert Outer(bits, low, mid, top)
        == (if low then 1 else 0) + (if mid then Half(bits) else 0) + (if top then Pow2(bits - 1) else 0);
    assert Outer(bits, top, mid, low)
        == (if top then 1 else 0) + (if mid then Half(bits) else 0) + (if low then Pow2(bits - 1) else 0);
    hide *;
    var j1 := j + if top then Pow2(bits - 1) else 0;
    var j2 := j1 + if mid then Half(bits) else 0;
    SetTop(bits, j, top);
    SetMiddle(bits, j1, mid);
    if low { SetOuter(bits, j2, 0); }
  }

  lemma AssembledHalf(bits: nat, y: nat, x: nat, low: bool, mid: bool, top: bool)
    requires Halves(bits, y, x) && (mid ==> bits % 2 == 1)
    ensures var u := Inner(bits, y, x) + Outer(bits, low, mid, top);
            && u < Pow2(bits) && X(bits, u) == x && Rev(bits, u) == Inner(bits, x, y) + Outer(bits, top, mid, low)
  {
    var j := Inner(bits, y, x);
    InnerLow(bits, y, x);
    InnerBound(bits, y, x);
    InnerReversed(bits, y, x);
    SetAll(bits, j, low, mid, top);
  }

  /** The parts of an index put together from its parts, and of its reversal. */
  lemma Assembled(bits: nat, y: nat, x: nat, low: bool, mid: bool, top: bool)
    requires Halves(bits, y, x) && (mid ==> bits % 2 == 1)
    ensures var u := Inner(bits, y, x) + Outer(bits, low, mid, top);
            && u < Pow2(bits) && X(bits, u) == x && Y(bits, u) == y
            && Rev(bits, u) == Inner(bits, x, y) + Outer(bits, top, mid, low) < Pow2(bits)
  {
    AssembledHalf(bits, y, x, low, mid, top);
    AssembledHalf(bits, x, y, top, mid, low);
  }

  lemma KeyBounds(bits: nat, i: nat)
    requires bits >= 2
    ensures Halves(bits, Y(bits, i), X(bits, i))
  {
    EvenHalf(bits, i);
    EvenHalf(bits, Rev(bits, i));
    hide X, Half, Rev;
  }

  lemma EvenHalf(bits: nat, i: nat)
    requires bits >= 2
    ensures X(bits, i) < Half(bits) && X(bits, i) % 2 == 0
  {
    var h := bits / 2 - 1;
    LowBound(i / 2, h);
    TwiceBelow(Low(i / 2, h), Pow2(h), X(bits, i));
  }

  lemma TwiceBelow(l: nat, p: nat, x: nat)
    requires x == 2 * l && l < p
    ensures x < 2 * p && x % 2 == 0
  {
  }
}
