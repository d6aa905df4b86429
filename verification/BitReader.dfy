/**
 Reading bit fields from the body of a decision tree (pico/lib/picokdt.c, `kdtGetShiftVal`, its
 commented-out predecessor `orig_kdtGetShiftVal`, and `kdt_jump`).

 The program's cursor is a byte number and a bit number that counts down from 7; `Pos` is the number of bits
 in front of it.  All values below fit `picoos_uint32`: a field has at most 32 bits.  An "or" of numbers
 that share no set bit is written as a sum.
 */
module BitReader {
  import opened Powers

  function Pos(byteNo: nat, bitNo: int): int {
    8 * byteNo + (7 - bitNo)
  }

  /** Bit `p` of the body, most significant bit of each byte first. */
  function Bit(body: seq<byte>, p: nat): (b: nat)
    requires p < 8 * |body|
    ensures b < 2
  {
    Shr(body[p / 8], 7 - p % 8) % 2
  }

  /** The `n` bits from bit `p` on, as a number. */
  function Val(body: seq<byte>, p: nat, n: nat): nat
    requires p + n <= 8 * |body|
  {
    if n == 0 then 0 else 2 * Val(body, p, n - 1) + Bit(body, p + n - 1)
  }

  lemma {:induction false} ValSplit(body: seq<byte>, p: nat, m: nat, n: nat)
    requires p + m + n <= 8 * |body|
    ensures Val(body, p, m + n) == Shl(Val(body, p, m), n) + Val(body, p + m, n)
  {
    if n == 0 {
    } else {
      ValSplit(body, p, m, n - 1);
    }
  }

  lemma {:induction false} ValBound(body: seq<byte>, p: nat, n: nat)
    requires p + n <= 8 * |body|
    ensures Val(body, p, n) < Pow2(n)
  {
    if n == 0 {
    } else {
      ValBound(body, p, n - 1);
    }
  }

  /** Bits s .. s+n-1 of one byte. */
  lemma {:induction false} ByteVal(body: seq<byte>, b: nat, s: nat, n: nat)
    requires b < |body| && s + n <= 8
    ensures Val(body, 8 * b + s, n) == Low(Shr(body[b], 8 - s - n), n)
  {
    if n == 0 {
    } else {
      ByteVal(body, b, s, n - 1);
      var p := 8 * b + s + n - 1;
      assert p / 8 == b && 7 - p % 8 == 8 - s - n;
    }
  }

  /** The field at bit s of a byte: the byte in binary notation, with `s` digits in front of it. */
  lemma ByteField(body: seq<byte>, b: nat, s: nat, n: nat)
    requires b < |body| && s + n <= 8
    ensures Val(body, 8 * b + s, n) == body[b] / Pow2(8 - s - n) % Pow2(n)
  {
    ByteVal(body, b, s, n);
    ShrIsQuotient(body[b], 8 - s - n);
    QuotientNotNegative(body[b], Pow2(8 - s - n));
    LowIsRemainder(body[b] / Pow2(8 - s - n), n);
  }

  lemma QuotientNotNegative(a: nat, b: nat)
    requires b > 0
    ensures a / b >= 0
  {
  }

  lemma WholeByte(body: seq<byte>, b: nat)
    requires b < |body|
    ensures Val(body, 8 * b, 8) == body[b]
  {
    hide *;
    SmallPowers();
    ByteField(body, b, 0, 8);
  }

  lemma SmallPowers()
    ensures Pow2(0) == 1 && Pow2(1) == 2 && Pow2(2) == 4 && Pow2(6) == 64 && Pow2(7) == 128 && Pow2(8) == 256
  {
  }

  /** A byte divided into its first bit and the others, or its first two bits and the others. */
  lemma DividedByte(body: seq<byte>, b: nat, x: nat)
    requires b < |body| && body[b] == x
    ensures Val(body, 8 * b, 1) == x / 128 && Val(body, 8 * b + 1, 7) == x % 128
    ensures Val(body, 8 * b, 2) == x / 64 && Val(body, 8 * b + 2, 6) == x % 64
  {
    hide *;
    SmallPowers();
    ByteField(body, b, 0, 1);
    ByteField(body, b, 1, 7);
    ByteField(body, b, 0, 2);
    ByteField(body, b, 2, 6);
    assert x / 128 % 2 == x / 128 && x / 1 % 128 == x % 128;
    assert x / 64 % 4 == x / 64 && x / 1 % 64 == x % 64;
  }

  /** Whole bytes are a number with the high byte first. */
  lemma WholeBytes(body: seq<byte>, b: nat, high: nat, low: nat)
    requires b + 1 < |body| && body[b] == high && body[b + 1] == low
    ensures Val(body, 8 * b, 16) == 256 * high + low
  {
    hide *;
    SmallPowers();
    WholeByte(body, b);
    WholeByte(body, b + 1);
    ValSplit(body, 8 * b, 8, 8);
    ShlIsProduct(high, 8);
  }

  lemma BitAtCursor(body: seq<byte>, byteNo: nat, bitNo: int)
    requires byteNo < |body| && 0 <= bitNo <= 7
    ensures Bit(body, Pos(byteNo, bitNo)) == Shr(body[byteNo], bitNo) % 2
  {
    assert Pos(byteNo, bitNo) / 8 == byteNo && 7 - Pos(byteNo, bitNo) % 8 == bitNo;
  }

  /** The reference reader, bit by bit (`orig_kdtGetShiftVal`). */
  method GetBits(body: seq<byte>, size: nat, byteNo: nat, bitNo: int) returns (val: nat, byteNo': nat, bitNo': int)
    requires 0 <= bitNo <= 7 && size <= 32 && Pos(byteNo, bitNo) + size <= 8 * |body|
    ensures val == Val(body, Pos(byteNo, bitNo), size)
    ensures 0 <= bitNo' <= 7 && Pos(byteNo', bitNo') == Pos(byteNo, bitNo) + size
  {
    ghost var p := Pos(byteNo, bitNo);
    val, byteNo', bitNo' := 0, byteNo, bitNo;
    var i := size - 1;
    ghost var k := 0;
    assert Val(body, p, 0) == 0 && Shl(0, size) == 0;
    hide *;
    while i >= 0
      invariant 0 <= k && i + k == size - 1 && -1 <= i && 0 <= bitNo' <= 7
      invariant Pos(byteNo', bitNo') == p + k
      invariant val == Shl(Val(body, p, k), i + 1)
      decreases i
    {
      CursorMoves(body, byteNo', bitNo');
      BitAppended(body, p, k, i, byteNo', bitNo');
      if Shr(body[byteNo'], bitNo') % 2 > 0 {
        val := val + Shl(1, i);
      }
      bitNo' := bitNo' - 1;
      if bitNo' < 0 {
        bitNo' := 7;
        byteNo' := byteNo' + 1;
      }
      i := i - 1;
      k := k + 1;
    }
    ShlByZero(val);
  }

  lemma CursorMoves(body: seq<byte>, byteNo: nat, bitNo: int)
    requires 0 <= bitNo <= 7 && Pos(byteNo, bitNo) < 8 * |body|
    ensures byteNo < |body|
    ensures Pos(byteNo, bitNo) + 1 == if bitNo == 0 then Pos(byteNo + 1, 7) else Pos(byteNo, bitNo - 1)
  {
  }

  /** The next bit, set in the value of a field that is filled from above. */
  lemma BitAppended(body: seq<byte>, p: nat, k: nat, i: nat, byteNo: nat, bitNo: int)
    requires 0 <= bitNo <= 7 && byteNo < |body| && Pos(byteNo, bitNo) == p + k
    ensures Shl(Val(body, p, k + 1), i)
         == Shl(Val(body, p, k), i + 1) + if Shr(body[byteNo], bitNo) % 2 > 0 then Shl(1, i) else 0
  {
    hide Val, Shl, Shr, Bit;
    ValNext(body, p, k);
    BitAtCursor(body, byteNo, bitNo);
    AppendBit(Val(body, p, k), Bit(body, p + k), i);
  }

  lemma ValNext(body: seq<byte>, p: nat, k: nat)
    requires p + k < 8 * |body|
    ensures Val(body, p, k + 1) == 2 * Val(body, p, k) + Bit(body, p + k)
  {
  }

  lemma ShlByZero(v: int)
    ensures Shl(v, 0) == v
  {
  }

  lemma {:induction false} AppendBit(v: nat, b: nat, i: nat)
    requires b < 2
    ensures Shl(2 * v + b, i) == Shl(v, i + 1) + (if b > 0 then Shl(1, i) else 0)
  {
    if i == 0 {
    } else {
      AppendBit(v, b, i - 1);
    }
  }

  /** What the first byte contributes. */
  lemma FirstByte(body: seq<byte>, byteNo: nat, bitNo: int, size: nat)
    requires 0 <= bitNo <= 7 && byteNo < |body| && Pos(byteNo, bitNo) + size <= 8 * |body|
    ensures var first := if bitNo < 7 then Low(body[byteNo], bitNo + 1) else body[byteNo];
            if size < bitNo + 1 then Val(body, Pos(byteNo, bitNo), size) == Shr(first, bitNo + 1 - size)
            else Val(body, Pos(byteNo, bitNo), bitNo + 1) == first
  {
    var n := if size < bitNo + 1 then size else bitNo + 1;
    ByteVal(body, byteNo, 7 - bitNo, n);
    LowShr(body[byteNo], n, bitNo + 1 - n);
    if bitNo == 7 {
      assert Pow2(8) == 256;
      LowSmall(body[byteNo], 8);
    }
  }

  /** The top `j` bits of a byte. */
  lemma TopBits(body: seq<byte>, b: nat, j: nat)
    requires b < |body| && j <= 8
    ensures Val(body, 8 * b, j) == if j < 8 then Shr(body[b], 8 - j) else body[b]
  {
    ByteVal(body, b, 0, j);
    assert Pow2(8) == 256 && Shr(body[b], 0) == body[b];
    hide Val, Shr, Low, Pow2;
    ShrBound(body[b], j, 8 - j);
    LowSmall(Shr(body[b], 8 - j), j);
  }

  /** Appending the top `j` bits of byte `b` to a field that ends where the byte starts. */
  lemma AppendByte(body: seq<byte>, p: nat, k: nat, b: nat, j: nat)
    requires b < |body| && j <= 8 && 8 * b == p + k
    ensures Val(body, p, k + j) == Shl(Val(body, p, k), j) + (if j < 8 then Shr(body[b], 8 - j) else body[b])
  {
    TopBits(body, b, j);
    ValSplit(body, p, k, j);
  }

  /** The fast reader, byte by byte: same value, same final cursor. */
  method GetShiftVal(body: seq<byte>, size: nat, byteNo: nat, bitNo: int) returns (v: nat, byteNo': nat, bitNo': int)
    requires 0 <= bitNo <= 7 && size <= 32 && Pos(byteNo, bitNo) + size <= 8 * |body|
    ensures v == Val(body, Pos(byteNo, bitNo), size)
    ensures 0 <= bitNo' <= 7 && Pos(byteNo', bitNo') == Pos(byteNo, bitNo) + size
  {
    if size < 4 {
      v, byteNo', bitNo' := GetBits(body, size, byteNo, bitNo);
      return;
    }
    ghost var p := Pos(byteNo, bitNo);
    var b, j, len := byteNo, bitNo, size as int;
    byteNo', bitNo' := byteNo, j - size;
    while bitNo' < 0
      invariant bitNo' <= 7 && Pos(byteNo', bitNo') == p + size
    {
      bitNo' := bitNo' + 8;
      byteNo' := byteNo' + 1;
    }

    FirstByte(body, byteNo, bitNo, size);
    var val: int := body[b];
    b := b + 1;
    if j < 7 {
      val := Low(val, j + 1);      // masks 0x01, 0x03, .., 0x7f
    }
    len := len - (j + 1);
    if len < 0 {
      val := Shr(val, -len);
    }
    v := val;
    if len > 0 {
      v := ReadBytes(body, v, b, len, p, size);
    }
  }

  /** The byte loop of the fast reader: `len` of the `size` bits from `p` on are still missing. */
  method ReadBytes(body: seq<byte>, v0: nat, b0: nat, len0: nat, ghost p: nat, ghost size: nat) returns (v: nat)
    requires len0 <= size && p + size <= 8 * |body| && 8 * b0 == p + size - len0 && v0 == Val(body, p, size - len0)
    ensures v == Val(body, p, size)
  {
    hide Val, Shr;
    var b, len := b0, len0;
    v := v0;
    while len > 0
      invariant 0 <= len <= size && (len > 0 ==> 8 * b == p + size - len)
      invariant v == Val(body, p, size - len)
    {
      var j := if len >= 8 then 8 else len;
      AppendByte(body, p, size - len, b, j);
      v := Shl(v, j);
      var val: int := body[b];
      b := b + 1;
      if j < 8 {
        val := Shr(val, 8 - j);    // masks 0x80, 0xc0, .., 0xfe, then a shift
      }
      v := v + val;
      len := len - j;
    }
  }

  /** `kdt_jump`: moves the cursor over `n` bits without reading them. */
  method Jump(n: nat, byteNo: nat, bitNo: int) returns (byteNo': nat, bitNo': int)
    requires 0 <= bitNo <= 7
    ensures 0 <= bitNo' <= 7 && Pos(byteNo', bitNo') == Pos(byteNo, bitNo) + n
  {
    var byteSize := n / 8;
    bitNo' := (n - byteSize * 8) + (7 - bitNo);
    byteNo' := byteNo + byteSize;
    if bitNo' >= 8 {
      byteNo' := byteNo' + 1;
      bitNo' := 15 - bitNo';
    } else {
      bitNo' := 7 - bitNo';
    }
  }

  /** A cursor is determined by its bit position, so equal positions are equal cursors. */
  lemma PosInjective(b: nat, i: int, c: nat, j: int)
    requires 0 <= i <= 7 && 0 <= j <= 7 && Pos(b, i) == Pos(c, j)
    ensures b == c && i == j
  {
  }

  /** The value of a field depends on its own bits only: no other bit of the body is looked at. */
  lemma {:induction false} ValLocal(body: seq<byte>, other: seq<byte>, p: nat, n: nat)
    requires p + n <= 8 * |body| && p + n <= 8 * |other|
    requires forall q :: p <= q < p + n ==> Bit(body, q) == Bit(other, q)
    ensures Val(body, p, n) == Val(other, p, n)
  {
    if n == 0 {
    } else {
      ValLocal(body, other, p, n - 1);
    }
  }
}
