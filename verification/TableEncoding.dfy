/**
 The hash table of a transducer written as bytes: every table of pairs has an encoding from which the search and the
 iteration (pico/lib/picokfst.c) get back exactly its pairs.
 */
module TableEncoding {
  import opened Concatenation
  import opened Powers
  import opened Transducers

  // ---------------------------------------------------------------------------
  // The encoding
  // ---------------------------------------------------------------------------

  const OFFSET_ROOM := 5

  function Zeros(n: nat): (s: seq<byte>)
    ensures |s| == n
  {
    seq(n, _ => 0)
  }

  /** The room for the offset of the next cell does not depend on the offset. */
  function CellSize(c: Cell): (n: nat)
    ensures n > 0
  {
    |EncodeNum(c.sym)| + OFFSET_ROOM + |EncodePairs(c.pairs)|
  }

  /** Symbol, offset of the next cell, pairs, and what the offset leaves of its room. */
  function CellBytes(c: Cell, next: nat): (s: seq<byte>)
    requires |EncodeNum(next)| <= OFFSET_ROOM
    ensures |s| == CellSize(c)
  {
    EncodeNum(c.sym) + (EncodeNum(next) + (EncodePairs(c.pairs) + Zeros(OFFSET_ROOM - |EncodeNum(next)|)))
  }

  /** The offset behind a cell of a chain. */
  function NextOf(cells: seq<Cell>): nat
    requires |cells| > 0
  {
    if |cells| == 1 then 0 else CellSize(cells[0])
  }

  function ChainSize(cells: seq<Cell>): nat {
    if |cells| == 0 then 0 else CellSize(cells[0]) + ChainSize(cells[1..])
  }

  /** Numbers that fit their fields, and no output symbol that would end the pairs. */
  ghost predicate CellFits(c: Cell) {
    && 0 <= c.sym < 0x8000_0000 && CellSize(c) < 0x8000_0000
    && forall i :: 0 <= i < |c.pairs| ==> IsInt16(c.pairs[i].0) && IsInt16(c.pairs[i].1) && c.pairs[i].0 != ILLEG
  }

  ghost predicate ChainFits(cells: seq<Cell>) {
    forall i :: 0 <= i < |cells| ==> CellFits(cells[i])
  }

  /** A number has five digits to the base 128 at most. */
  lemma DigitsShort(n: nat)
    requires n < 0x8000_0000
    ensures |EncodeNum(n)| <= OFFSET_ROOM
  {
    var u := Unsigned(n) / 128;
    var (v, w, x, y) := (u / 128, u / 128 / 128, u / 128 / 128 / 128, u / 128 / 128 / 128 / 128);
    assert u < 0x200_0000 && v < 0x4_0000 && w < 0x800 && x < 16 && y == 0;
    assert |Digits(y)| == 0 && |Digits(x)| <= 1 && |Digits(w)| <= 2 && |Digits(v)| <= 3;
  }

  ghost function ChainBytes(cells: seq<Cell>): (s: seq<byte>)
    requires ChainFits(cells)
    ensures |s| == ChainSize(cells)
  {
    if |cells| == 0 then []
    else
      DigitsShort(NextOf(cells));
      CellBytes(cells[0], NextOf(cells)) + ChainBytes(cells[1..])
  }

  ghost predicate TableFits(table: seq<seq<Cell>>) {
    forall h :: 0 <= h < |table| ==> ChainFits(table[h])
  }

  function TableSize(table: seq<seq<Cell>>): nat {
    if |table| == 0 then 0 else ChainSize(table[0]) + TableSize(table[1..])
  }

  function FirstOffset(table: seq<seq<Cell>>, off: nat): nat
    requires |table| > 0
  {
    if |table[0]| == 0 then 0 else off
  }

  /** The offsets of the buckets, in four bytes each; the first chain starts at `off`. */
  function HeadBytes(table: seq<seq<Cell>>, off: nat): (s: seq<byte>)
    ensures |s| == 4 * |table|
  {
    if |table| == 0 then []
    else Fixed(Unsigned(FirstOffset(table, off)), 4) + HeadBytes(table[1..], off + ChainSize(table[0]))
  }

  ghost function BodyBytes(table: seq<seq<Cell>>): (s: seq<byte>)
    requires TableFits(table)
    ensures |s| == TableSize(table)
  {
    if |table| == 0 then [] else ChainBytes(table[0]) + BodyBytes(table[1..])
  }

  /** The hash table, and behind it the chains of the buckets. */
  ghost function TableBytes(table: seq<seq<Cell>>): seq<byte>
    requires TableFits(table)
  {
    HeadBytes(table, 4 * |table|) + BodyBytes(table)
  }

  /** Some numbers in their bytes. */
  lemma NumberForms()
    ensures EncodeNum(0) == [128] && EncodeNum(-1) == [129] && EncodeNum(1) == [130] && EncodeNum(-2) == [131]
    ensures EncodeNum(3) == [134] && EncodeNum(9) == [146] && EncodeNum(64) == [1, 128] && Fixed(8, 4) == [0, 0, 0, 8]
  {
    assert Digits(0) == [] && Digits(1) == Digits(0) + [1];
    assert Unsigned(0) == 0 && Unsigned(-1) == 1 && Unsigned(1) == 2 && Unsigned(-2) == 3;
    assert Unsigned(3) == 6 && Unsigned(9) == 18 && Unsigned(64) == 128;
    hide Digits, Unsigned;
    assert Fixed(0, 1) == [0] && Fixed(0, 2) == [0, 0] && Fixed(0, 3) == [0, 0, 0];
  }

  const CELL := Cell(3, [(1, -2)])
  const LAST := Cell(64, [])

  /** A table in its bytes: one bucket, with the pair of 1 and -2 for symbol 3, and no pair for symbol 64. */
  lemma TableForm()
    ensures TableFits([[CELL, LAST]]) && TableBytes([[CELL, LAST]]) ==
            [0, 0, 0, 8] +                            // the chain starts behind these four bytes
            ([134, 146, 130, 131, 129, 0, 0, 0, 0] +  // symbol, offset of the next cell, pair, end of the pairs
             [1, 128, 128, 129, 0, 0, 0, 0])          // symbol, no next cell, end of the pairs
  {
    ChainForm();
    NumberForms();
    var cells := [CELL, LAST];
    hide EncodeNum, Fixed, ChainBytes, ChainFits, ChainSize, CELL, LAST;
    assert [cells][1..] == [] && BodyBytes([]) == [] && HeadBytes([], 4 + ChainSize(cells)) == [];
    assert HeadBytes([cells], 4) == Fixed(Unsigned(4), 4) + [];
    assert BodyBytes([cells]) == ChainBytes(cells) + [];
  }

  lemma ChainForm()
    ensures ChainFits([CELL, LAST])
    ensures ChainBytes([CELL, LAST]) == [134, 146, 130, 131, 129, 0, 0, 0, 0] + [1, 128, 128, 129, 0, 0, 0, 0]
  {
    FirstCellForm();
    SecondCellForm();
    hide EncodeNum, CellBytes, CellSize, CellFits, CELL, LAST;
    var (cells, rest) := ([CELL, LAST], [LAST]);
    assert cells[1..] == rest && rest[1..] == [];
    assert NextOf(cells) == 9 && NextOf(rest) == 0;
    assert ChainFits(rest) && ChainFits(cells);
    assert ChainBytes(rest) == CellBytes(LAST, 0) + [];
    assert ChainBytes(cells) == CellBytes(CELL, 9) + ChainBytes(rest);
  }

  lemma FirstCellForm()
    ensures var c := CELL;
            && CellFits(c) && CellSize(c) == 9 && |EncodeNum(9)| <= OFFSET_ROOM
            && CellBytes(c, 9) == [134, 146, 130, 131, 129, 0, 0, 0, 0]
  {
    NumberForms();
    FormOfPairs();
    assert Zeros(4) == [0, 0, 0, 0];
    hide EncodeNum, EncodePairs, Zeros;
  }

  lemma SecondCellForm()
    ensures var d := LAST;
            && CellFits(d) && CellSize(d) == 8 && |EncodeNum(0)| <= OFFSET_ROOM
            && CellBytes(d, 0) == [1, 128, 128, 129, 0, 0, 0, 0]
  {
    NumberForms();
    FormOfPairs();
    assert Zeros(4) == [0, 0, 0, 0];
    hide EncodeNum, EncodePairs, Zeros;
  }

  lemma FormOfPairs()
    ensures EncodePairs([(1, -2)]) == [130, 131, 129] && EncodePairs([]) == [129]
  {
    NumberForms();
    assert [(1, -2)][1..] == [];
  }

  // ---------------------------------------------------------------------------
  // What is stored is held
  // ---------------------------------------------------------------------------

  lemma StoredParts(stream: seq<byte>, pos: nat, a: seq<byte>, b: seq<byte>, c: seq<byte>, d: seq<byte>)
    requires StoredAt(stream, pos, a + (b + (c + d)))
    ensures StoredAt(stream, pos, a) && StoredAt(stream, pos + |a|, b) && StoredAt(stream, pos + |a| + |b|, c)
  {
    hide StoredAt;
    StoredConcat(stream, pos, a, b + (c + d));
    StoredConcat(stream, pos + |a|, b, c + d);
    StoredConcat(stream, pos + |a| + |b|, c, d);
  }

  /** The head of a stored cell, and its pairs. */
  lemma CellStored(stream: seq<byte>, pos: nat, c: Cell, next: nat)
    requires CellFits(c) && next < 0x8000_0000 && |EncodeNum(next)| <= OFFSET_ROOM
             && StoredAt(stream, pos, CellBytes(c, next))
    ensures NumberAt(stream, pos) && ReadNum(stream, pos).0 == c.sym
    ensures var p := ReadNum(stream, pos).1;
            NumberAt(stream, p) && ReadNum(stream, p).0 == next && PairsAt(stream, ReadNum(stream, p).1, c.pairs)
  {
    hide EncodeNum, EncodePairs, StoredAt, NumberAt, ReadNum, PairsAt, Zeros, CellSize;
    StoredParts(stream, pos, EncodeNum(c.sym), EncodeNum(next), EncodePairs(c.pairs),
      Zeros(OFFSET_ROOM - |EncodeNum(next)|));
    ReadEncoded(stream, pos, c.sym);
    ReadEncoded(stream, pos + |EncodeNum(c.sym)|, next);
    EncodedPairsAt(stream, pos + |EncodeNum(c.sym)| + |EncodeNum(next)|, c.pairs);
  }

  /** The first cell and the rest of the chain. */
  lemma ChainParts(stream: seq<byte>, pos: nat, cells: seq<Cell>)
    requires |cells| > 0 && ChainFits(cells) && StoredAt(stream, pos, ChainBytes(cells))
    ensures CellFits(cells[0]) && ChainFits(cells[1..])
    ensures NextOf(cells) < 0x8000_0000 && |EncodeNum(NextOf(cells))| <= OFFSET_ROOM
    ensures StoredAt(stream, pos, CellBytes(cells[0], NextOf(cells)))
    ensures StoredAt(stream, pos + CellSize(cells[0]), ChainBytes(cells[1..]))
  {
    hide StoredAt, EncodeNum, EncodePairs, CellBytes;
    assert CellFits(cells[0]);
    DigitsShort(NextOf(cells));
    StoredConcat(stream, pos, CellBytes(cells[0], NextOf(cells)), ChainBytes(cells[1..]));
  }

  /** A stored chain of cells is found by following the offsets. */
  lemma {:induction false} ChainStored(stream: seq<byte>, pos: nat, cells: seq<Cell>)
    requires |cells| > 0 && ChainFits(cells) && StoredAt(stream, pos, ChainBytes(cells))
    ensures ChainAt(stream, pos, cells)
    decreases |cells|
  {
    hide StoredAt, CellBytes, ChainFits, CellFits, EncodeNum, EncodePairs, NumberAt, ReadNum, PairsAt, ChainBytes,
         CellSize;
    ChainParts(stream, pos, cells);
    CellStored(stream, pos, cells[0], NextOf(cells));
    if |cells| == 1 {
    } else {
      ChainStored(stream, pos + CellSize(cells[0]), cells[1..]);
    }
  }

  lemma WordIsPower()
    ensures Pow2(32) == WORD
  {
    assert Pow2(8) == 0x100;
    Pow2Sum(8, 8);
    Pow2Sum(16, 16);
  }

  /** A stored offset is read back. */
  lemma OffsetStored(fst: Transducer, h: nat, off: nat)
    requires off < 0x8000_0000 && StoredAt(fst.stream, fst.alphaHashTabPos + 4 * h, Fixed(Unsigned(off), 4))
    ensures fst.alphaHashTabPos + 4 * h + 4 <= |fst.stream| && BucketOffset(fst, h) == off
  {
    WordIsPower();
    hide Fixed, Pow2;
    FixedRoundTrip(Unsigned(off), 4);
    SignedUnsigned(off, 0);
  }

  /** The first bucket and the rest of the table. */
  lemma BucketParts(stream: seq<byte>, heads: nat, bodies: nat, table: seq<seq<Cell>>, off: nat, size: nat)
    requires TableFits(table) && |table| > 0 && size == ChainSize(table[0])
    requires StoredAt(stream, heads, HeadBytes(table, off)) && StoredAt(stream, bodies, BodyBytes(table))
    ensures ChainFits(table[0]) && TableFits(table[1..]) && TableSize(table) == size + TableSize(table[1..])
    ensures StoredAt(stream, heads, Fixed(Unsigned(FirstOffset(table, off)), 4))
    ensures StoredAt(stream, heads + 4, HeadBytes(table[1..], off + size))
    ensures StoredAt(stream, bodies, ChainBytes(table[0])) && StoredAt(stream, bodies + size, BodyBytes(table[1..]))
  {
    hide *;
    FitsSplits(table);
    BytesSplit(table, off);
    StoredConcat(stream, heads, Fixed(Unsigned(FirstOffset(table, off)), 4), HeadBytes(table[1..], off + size));
    StoredConcat(stream, bodies, ChainBytes(table[0]), BodyBytes(table[1..]));
  }

  lemma BytesSplit(table: seq<seq<Cell>>, off: nat)
    requires TableFits(table) && |table| > 0 && ChainFits(table[0]) && TableFits(table[1..])
    ensures HeadBytes(table, off) == Fixed(Unsigned(FirstOffset(table, off)), 4) + HeadBytes(table[1..],
            off + ChainSize(table[0]))
    ensures BodyBytes(table) == ChainBytes(table[0]) + BodyBytes(table[1..])
    ensures TableSize(table) == ChainSize(table[0]) + TableSize(table[1..])
  {
  }

  lemma FirstBucketStored(fst: Transducer, table: seq<seq<Cell>>, k: nat, off: nat, cells: seq<Cell>)
    requires |table| > 0 && cells == table[0] && ChainFits(cells) && 0 < off < 0x8000_0000
    requires StoredAt(fst.stream, fst.alphaHashTabPos + 4 * k, Fixed(Unsigned(FirstOffset(table, off)), 4))
    requires StoredAt(fst.stream, fst.alphaHashTabPos + off, ChainBytes(cells))
    ensures BucketAt(fst, k, cells)
  {
    hide StoredAt, ChainBytes, ChainFits, Fixed, ChainAt, BucketOffset;
    OffsetStored(fst, k, FirstOffset(table, off));
    if |cells| > 0 {
      ChainStored(fst.stream, fst.alphaHashTabPos + off, cells);
    }
  }

  /** Bucket `h`, from the offsets and the chains of the buckets `k` and following. */
  lemma {:induction false} BucketStored(fst: Transducer, table: seq<seq<Cell>>, k: nat, off: nat, h: nat)
    requires TableFits(table) && h < |table| && off + TableSize(table) < 0x8000_0000 && off > 0
    requires StoredAt(fst.stream, fst.alphaHashTabPos + 4 * k, HeadBytes(table, off))
    requires StoredAt(fst.stream, fst.alphaHashTabPos + off, BodyBytes(table))
    ensures BucketAt(fst, k + h, table[h])
    decreases h
  {
    hide *;
    var size := ChainSize(table[0]);
    BucketParts(fst.stream, fst.alphaHashTabPos + 4 * k, fst.alphaHashTabPos + off, table, off, size);
    if h == 0 {
      FirstBucketStored(fst, table, k, off, table[0]);
    } else {
      BucketStored(fst, table[1..], k + 1, off + size, h - 1);
    }
  }

  lemma FitsSplits(table: seq<seq<Cell>>)
    requires TableFits(table) && |table| > 0
    ensures ChainFits(table[0]) && TableFits(table[1..])
  {
  }

  /** A table that is written is held, wherever it is in the stream. */
  lemma EncodedTable(pre: seq<byte>, table: seq<seq<Cell>>, post: seq<byte>)
    requires |table| > 0 && TableFits(table) && 4 * |table| + TableSize(table) < 0x8000_0000
    requires forall h, i :: 0 <= h < |table| && 0 <= i < |table[h]| ==> table[h][i].sym % |table| == h
    ensures Holds(Transducer(pre + TableBytes(table) + post, |table|, |pre|), table)
  {
    var fst := Transducer(pre + TableBytes(table) + post, |table|, |pre|);
    StoredMiddle(pre, TableBytes(table), post);
    TableStored(fst, table);
    hide BucketAt;
    forall h, i | 0 <= h < |table| && 0 <= i < |table[h]| ensures table[h][i].sym >= 0 {
      assert ChainFits(table[h]) && CellFits(table[h][i]);
    }
  }

  lemma TableStored(fst: Transducer, table: seq<seq<Cell>>)
    requires |table| > 0 && TableFits(table) && 4 * |table| + TableSize(table) < 0x8000_0000
    requires StoredAt(fst.stream, fst.alphaHashTabPos, TableBytes(table))
    ensures forall h :: 0 <= h < |table| ==> BucketAt(fst, h, table[h])
  {
    hide StoredAt, HeadBytes, BodyBytes, TableFits, TableSize, BucketAt;
    StoredConcat(fst.stream, fst.alphaHashTabPos, HeadBytes(table, 4 * |table|), BodyBytes(table));
    forall h | 0 <= h < |table| ensures BucketAt(fst, h, table[h]) {
      BucketStored(fst, table, 0, 4 * |table|, h);
    }
  }
}
