/**
 The byte stream of a finite-state transducer (pico/lib/picokfst.c): numbers of varying size, and the hash table
 from input symbols to the pairs of output symbol and pair class.
 */
module Transducers {
  import opened Concatenation
  import opened Powers

  const WORD: nat := 0x1_0000_0000

  predicate IsInt32(n: int) { -0x8000_0000 <= n < 0x8000_0000 }

  // ---------------------------------------------------------------------------
  // Numbers
  // ---------------------------------------------------------------------------

  /** The sign is in the lowest bit. */
  function Unsigned(n: int): nat { if n < 0 then -2 * n - 1 else 2 * n }

  function Signed(val: nat): int { if val % 2 == 1 then -((val - 1) / 2) - 1 else val / 2 }

  /** Each 32-bit number has one unsigned form. */
  lemma SignedUnsigned(n: int, val: nat)
    ensures Signed(Unsigned(n)) == n && Unsigned(Signed(val)) == val
    ensures IsInt32(n) <==> Unsigned(n) < WORD
  {
  }

  /** Seven bits to a byte, the highest first. */
  function Digits(val: nat): seq<byte> {
    if val == 0 then [] else Digits(val / 128) + [val % 128]
  }

  /** The last byte is marked by its highest bit. */
  function EncodeNum(n: int): (bytes: seq<byte>)
    ensures |bytes| >= 1
  {
    Digits(Unsigned(n) / 128) + [128 + Unsigned(n) % 128]
  }

  function Shift7(val: nat, b: nat): nat { (val * 128 + b) % WORD }

  /** A number starts at `pos`. */
  ghost predicate NumberAt(stream: seq<byte>, pos: nat)
    decreases |stream| - pos
  {
    pos < |stream| && (stream[pos] >= 128 || NumberAt(stream, pos + 1))
  }

  /** The value of the number, with `val` for the digits before `pos`, and the position behind it. */
  ghost function ReadFrom(stream: seq<byte>, pos: nat, val: nat): (r: (int, nat))
    requires NumberAt(stream, pos)
    ensures pos < r.1 <= |stream|
    decreases |stream| - pos
  {
    if stream[pos] >= 128 then (Signed(Shift7(val, stream[pos] - 128)), pos + 1)
    else ReadFrom(stream, pos + 1, Shift7(val, stream[pos]))
  }

  ghost function ReadNum(stream: seq<byte>, pos: nat): (r: (int, nat))
    requires NumberAt(stream, pos)
    ensures pos < r.1 <= |stream|
  {
    ReadFrom(stream, pos, 0)
  }

  method BytesToNum(stream: seq<byte>, pos: nat) returns (num: int, pos': nat)
    requires NumberAt(stream, pos)
    ensures (num, pos') == ReadNum(stream, pos)
  {
    var val := 0;
    var b: nat := stream[pos];
    pos' := pos + 1;
    while b < 128
      invariant pos < pos' <= |stream| && b == stream[pos' - 1] && val >= 0
      invariant NumberAt(stream, pos' - 1) && ReadFrom(stream, pos' - 1, val) == ReadNum(stream, pos)
      decreases |stream| - pos'
    {
      val := (val * 128 + b) % WORD;
      b := stream[pos'];
      pos' := pos' + 1;
    }
    val := (val * 128 + (b - 128)) % WORD;
    if val % 2 == 1 {
      num := -((val - 1) / 2) - 1;
    } else {
      num := val / 2;
    }
  }

  lemma LastDigit(u: nat)
    requires u < WORD
    ensures Shift7(u / 128, u % 128) == u
  {
  }

  /** Digits do not end a number, and reading them gives their value. */
  lemma {:induction false} ReadDigits(stream: seq<byte>, pos: nat, val: nat)
    requires val < WORD && StoredAt(stream, pos, Digits(val)) && NumberAt(stream, pos + |Digits(val)|)
    ensures NumberAt(stream, pos) && ReadNum(stream, pos) == ReadFrom(stream, pos + |Digits(val)|, val)
    decreases val
  {
    if val == 0 {
    } else {
      var ds := Digits(val / 128);
      StoredConcat(stream, pos, ds, [val % 128]);
      StoredFirst(stream, pos + |ds|, [val % 128]);
      LastDigit(val);
      ReadDigits(stream, pos, val / 128);
    }
  }

  /** Reading undoes encoding, for every 32-bit number, and ends just behind it. */
  lemma ReadEncoded(stream: seq<byte>, pos: nat, n: int)
    requires IsInt32(n) && StoredAt(stream, pos, EncodeNum(n))
    ensures NumberAt(stream, pos) && ReadNum(stream, pos) == (n, pos + |EncodeNum(n)|)
  {
    var u := Unsigned(n);
    var ds := Digits(u / 128);
    SignedUnsigned(n, u);
    StoredConcat(stream, pos, ds, [128 + u % 128]);
    StoredFirst(stream, pos + |ds|, [128 + u % 128]);
    LastDigit(u);
    ReadDigits(stream, pos, u / 128);
  }

  // ---------------------------------------------------------------------------
  // Numbers of fixed size
  // ---------------------------------------------------------------------------

  /** `k` bytes, the highest first. */
  function Fixed(val: nat, k: nat): (bytes: seq<byte>)
    ensures |bytes| == k
  {
    if k == 0 then [] else Fixed(val / 256, k - 1) + [val % 256]
  }

  function FixedValue(bytes: seq<byte>): nat {
    if bytes == [] then 0 else (FixedValue(bytes[..|bytes| - 1]) * 256 + bytes[|bytes| - 1]) % WORD
  }

  method FixedBytesToUnsignedNum(stream: seq<byte>, nrBytes: nat, pos: nat) returns (num: nat, pos': nat)
    requires pos + nrBytes <= |stream|
    ensures num == FixedValue(stream[pos..pos + nrBytes]) && pos' == pos + nrBytes
  {
    num, pos' := 0, pos;
    for i := 0 to nrBytes
      invariant pos' == pos + i && num == FixedValue(stream[pos..pos'])
    {
      assert stream[pos..pos' + 1][..i] == stream[pos..pos'];
      num := (num * 256 + stream[pos']) % WORD;
      pos' := pos' + 1;
    }
  }

  method FixedBytesToSignedNum(stream: seq<byte>, nrBytes: nat, pos: nat) returns (num: int, pos': nat)
    requires pos + nrBytes <= |stream|
    ensures num == Signed(FixedValue(stream[pos..pos + nrBytes])) && pos' == pos + nrBytes
  {
    var val := 0;
    pos' := pos;
    for i := 0 to nrBytes
      invariant pos' == pos + i && val >= 0 && val == FixedValue(stream[pos..pos'])
    {
      assert stream[pos..pos' + 1][..i] == stream[pos..pos'];
      val := (val * 256 + stream[pos']) % WORD;
      pos' := pos' + 1;
    }
    if val % 2 == 1 {
      num := -((val - 1) / 2) - 1;
    } else {
      num := val / 2;
    }
  }

  lemma {:induction false} FixedRoundTrip(val: nat, k: nat)
    requires val < WORD && val < Pow2(8 * k)
    ensures FixedValue(Fixed(val, k)) == val
    decreases k
  {
    if k == 0 {
    } else {
      Pow2Sum(8, 8 * (k - 1));
      FixedDigits(val, Pow2(8 * (k - 1)));
      FixedRoundTrip(val / 256, k - 1);
      assert Fixed(val, k)[..k - 1] == Fixed(val / 256, k - 1);
    }
  }

  lemma FixedDigits(val: nat, p: nat)
    requires val < WORD && val < 256 * p
    ensures val / 256 < p && val / 256 < WORD && (val / 256 * 256 + val % 256) % WORD == val
  {
  }

  // ---------------------------------------------------------------------------
  // The pair alphabet
  // ---------------------------------------------------------------------------

  const ILLEG := -1

  /** A conversion to 16 bits. */
  function Int16(v: int): int { (v + 0x8000) % 0x10000 - 0x8000 }

  /** A cell of the hash table: an input symbol and its pairs of output symbol and class. */
  datatype Cell = Cell(sym: int, pairs: seq<(int, int)>)

  datatype Transducer = Transducer(stream: seq<byte>, alphaHashTabSize: nat, alphaHashTabPos: nat)

  /** At `pos` are stored pairs, with an illegal output symbol behind the last one. */
  ghost predicate PairsAt(stream: seq<byte>, pos: nat, pairs: seq<(int, int)>)
    decreases |pairs|
  {
    NumberAt(stream, pos) &&
    var (out, p) := ReadNum(stream, pos);
    if pairs == [] then Int16(out) == ILLEG
    else
      Int16(out) == pairs[0].0 != ILLEG && NumberAt(stream, p) &&
      var (cls, q) := ReadNum(stream, p);
      Int16(cls) == pairs[0].1 && PairsAt(stream, q, pairs[1..])
  }

  /** At `pos` is stored a chain of cells: symbol, offset of the next cell (if positive), and pairs of each. */
  ghost predicate ChainAt(stream: seq<byte>, pos: nat, cells: seq<Cell>)
    decreases |cells|
  {
    cells != [] && NumberAt(stream, pos) &&
    var (sym, p) := ReadNum(stream, pos);
    sym == cells[0].sym && NumberAt(stream, p) &&
    var (next, q) := ReadNum(stream, p);
    PairsAt(stream, q, cells[0].pairs) &&
    if |cells| == 1 then next <= 0 else next > 0 && ChainAt(stream, pos + next, cells[1..])
  }

  /** The position and the number found in bucket `h` of the hash table. */
  ghost function BucketOffset(fst: Transducer, h: nat): int
    requires fst.alphaHashTabPos + 4 * h + 4 <= |fst.stream|
  {
    Signed(FixedValue(fst.stream[fst.alphaHashTabPos + 4 * h..fst.alphaHashTabPos + 4 * h + 4]))
  }

  /** Bucket `h` holds the cells. */
  ghost predicate BucketAt(fst: Transducer, h: nat, cells: seq<Cell>) {
    fst.alphaHashTabPos + 4 * h + 4 <= |fst.stream| &&
    var offs := BucketOffset(fst, h);
    if cells == [] then offs <= 0 else offs > 0 && ChainAt(fst.stream, fst.alphaHashTabPos + offs, cells)
  }

  /** The hash table holds, in bucket h, cells for different symbols s with s % size == h. */
  ghost predicate Holds(fst: Transducer, table: seq<seq<Cell>>) {
    && |table| == fst.alphaHashTabSize > 0
    && (forall h :: 0 <= h < |table| ==> BucketAt(fst, h, table[h]))
    && (forall h, k :: 0 <= h < |table| && 0 <= k < |table[h]| ==>
          table[h][k].sym >= 0 && table[h][k].sym % |table| == h)
  }

  /** Whether a chain has a cell for a symbol, and the pairs of the first one. */
  function Lookup(cells: seq<Cell>, sym: int): (r: (bool, seq<(int, int)>)) {
    if cells == [] then (false, [])
    else if cells[0].sym == sym then (true, cells[0].pairs)
    else Lookup(cells[1..], sym)
  }

  /** Reads the head of a cell: its symbol, and the offset of the next cell. */
  method ReadHead(stream: seq<byte>, cellPos: nat, ghost cells: seq<Cell>) returns (sym: int, next: int, pos: nat)
    requires ChainAt(stream, cellPos, cells)
    ensures sym == cells[0].sym && PairsAt(stream, pos, cells[0].pairs)
    ensures if next > 0 then |cells| > 1 && ChainAt(stream, cellPos + next, cells[1..]) else |cells| == 1
  {
    sym, pos := BytesToNum(stream, cellPos);
    next, pos := BytesToNum(stream, pos);
  }

  /** Searches the chain of a bucket; the search state is the position behind the cell's head. */
  method SearchChain(stream: seq<byte>, start: nat, inSym: int, ghost cells: seq<Cell>)
    returns (found: bool, state: int)
    requires ChainAt(stream, start, cells)
    ensures found == Lookup(cells, inSym).0
    ensures if found then state >= 0 && PairsAt(stream, state, Lookup(cells, inSym).1) else state == -1
  {
    hide PairsAt, NumberAt, ReadNum, ChainAt;
    var inSymCellPos: nat := start;
    ghost var rest := cells;
    var inSymX, nextOffs, pos := ReadHead(stream, inSymCellPos, rest);
    while inSymX != inSym && nextOffs > 0
      invariant rest != [] && inSymX == rest[0].sym && PairsAt(stream, pos, rest[0].pairs)
      invariant if nextOffs > 0 then |rest| > 1 && ChainAt(stream, inSymCellPos + nextOffs, rest[1..]) else |rest| == 1
      invariant Lookup(cells, inSym) == Lookup(rest, inSym)
      decreases |rest|
    {
      inSymCellPos := inSymCellPos + nextOffs;
      rest := rest[1..];
      inSymX, nextOffs, pos := ReadHead(stream, inSymCellPos, rest);
    }
    if inSymX == inSym {
      return true, pos;
    }
    return false, -1;
  }

  /** Starts the search for the pairs of an input symbol. */
  method StartPairSearch(fst: Transducer, inSym: nat, ghost table: seq<seq<Cell>>)
    returns (inSymFound: bool, searchState: int)
    requires Holds(fst, table)
    ensures var r := Lookup(table[inSym % |table|], inSym);
            && inSymFound == r.0
            && if inSymFound then searchState >= 0 && PairsAt(fst.stream, searchState, r.1) else searchState == -1
  {
    var h := inSym % fst.alphaHashTabSize;
    assert BucketAt(fst, h, table[h]);
    var offs, pos := FixedBytesToSignedNum(fst.stream, 4, fst.alphaHashTabPos + 4 * h);
    if offs > 0 {
      inSymFound, searchState := SearchChain(fst.stream, fst.alphaHashTabPos + offs, inSym, table[h]);
    } else {
      return false, -1;
    }
  }

  /** The next pair, if there is one. */
  method GetNextPair(fst: Transducer, searchState: int, ghost pairs: seq<(int, int)>)
    returns (pairFound: bool, outSym: int, pairClass: int, searchState': int)
    requires searchState >= 0 ==> PairsAt(fst.stream, searchState, pairs)
    ensures pairFound <==> searchState >= 0 && pairs != []
    ensures pairFound ==>
              (outSym, pairClass) == pairs[0] && searchState' > searchState
              && PairsAt(fst.stream, searchState', pairs[1..])
    ensures !pairFound ==> outSym == ILLEG && pairClass == -1 && searchState' < 0
  {
    if searchState < 0 {
      return false, ILLEG, -1, searchState;
    }
    var val, pos := BytesToNum(fst.stream, searchState);
    outSym := Int16(val);
    if outSym != ILLEG {
      val, pos := BytesToNum(fst.stream, pos);
      return true, outSym, Int16(val), pos;
    }
    return false, ILLEG, -1, -1;
  }

  /** All pairs of an input symbol, one after the other. */
  method AllPairs(fst: Transducer, inSym: nat, ghost table: seq<seq<Cell>>) returns (pairs: seq<(int, int)>)
    requires Holds(fst, table)
    ensures pairs == Lookup(table[inSym % |table|], inSym).1
  {
    var found, state := StartPairSearch(fst, inSym, table);
    ghost var all := Lookup(table[inSym % |table|], inSym).1;
    NotFoundEmpty(table[inSym % |table|], inSym);
    hide PairsAt, Holds, Lookup;
    ghost var rest := all;
    pairs := [];
    while true
      invariant state >= 0 ==> PairsAt(fst.stream, state, rest)
      invariant state < 0 ==> rest == []
      invariant pairs + rest == all
      decreases |rest|
    {
      var outSym, pairClass: int;
      found, outSym, pairClass, state := GetNextPair(fst, state, rest);
      if !found {
        break;
      }
      pairs := pairs + [(outSym, pairClass)];
      rest := rest[1..];
    }
  }

  lemma {:induction false} NotFoundEmpty(cells: seq<Cell>, sym: int)
    ensures !Lookup(cells, sym).0 ==> Lookup(cells, sym).1 == []
    ensures (forall i :: 0 <= i < |cells| ==> cells[i].sym != sym) ==> !Lookup(cells, sym).0
  {
    if cells == [] {
    } else {
      NotFoundEmpty(cells[1..], sym);
    }
  }

  lemma {:induction false} LookupAt(cells: seq<Cell>, k: nat)
    requires k < |cells| && forall i :: 0 <= i < k ==> cells[i].sym != cells[k].sym
    ensures Lookup(cells, cells[k].sym) == (true, cells[k].pairs)
  {
    if k == 0 {
    } else {
      LookupAt(cells[1..], k - 1);
    }
  }

  /** Every symbol occurs in at most one cell of its bucket. */
  ghost predicate DistinctSymbols(table: seq<seq<Cell>>) {
    forall h, i, k :: 0 <= h < |table| && 0 <= i < k < |table[h]| ==> table[h][i].sym != table[h][k].sym
  }

  /** Looking in one bucket finds the cell of a symbol wherever in the table it is... */
  lemma BucketSuffices(fst: Transducer, table: seq<seq<Cell>>, h: nat, k: nat)
    requires Holds(fst, table) && DistinctSymbols(table) && h < |table| && k < |table[h]|
    ensures var sym := table[h][k].sym;
            sym >= 0 && Lookup(table[sym % |table|], sym) == (true, table[h][k].pairs)
  {
    assert table[h][k].sym % |table| == h;
    LookupAt(table[h], k);
  }

  /** ... and finds nothing if it is nowhere. */
  lemma AbsentSymbol(fst: Transducer, table: seq<seq<Cell>>, sym: nat)
    requires Holds(fst, table) && forall h, k :: 0 <= h < |table| && 0 <= k < |table[h]| ==> table[h][k].sym != sym
    ensures Lookup(table[sym % |table|], sym) == (false, [])
  {
    NotFoundEmpty(table[sym % |table|], sym);
  }

  /** Pairs as they are stored. */
  function EncodePairs(pairs: seq<(int, int)>): seq<byte> {
    if pairs == [] then EncodeNum(ILLEG)
    else EncodeNum(pairs[0].0) + (EncodeNum(pairs[0].1) + EncodePairs(pairs[1..]))
  }

  predicate IsInt16(v: int) { -0x8000 <= v < 0x8000 }

  lemma PairStored(stream: seq<byte>, pos: nat, a: int, b: int, rest: seq<byte>) returns (p: nat, q: nat)
    requires StoredAt(stream, pos, EncodeNum(a) + (EncodeNum(b) + rest)) && IsInt16(a) && IsInt16(b)
    ensures NumberAt(stream, pos) && ReadNum(stream, pos) == (a, p) && Int16(a) == a
    ensures NumberAt(stream, p) && ReadNum(stream, p) == (b, q) && Int16(b) == b
    ensures StoredAt(stream, q, rest)
  {
    hide StoredAt, EncodeNum, NumberAt, ReadNum;
    StoredConcat(stream, pos, EncodeNum(a), EncodeNum(b) + rest);
    p := pos + |EncodeNum(a)|;
    StoredConcat(stream, p, EncodeNum(b), rest);
    q := p + |EncodeNum(b)|;
    ReadEncoded(stream, pos, a);
    ReadEncoded(stream, p, b);
  }

  lemma {:induction false} EncodedPairsAt(stream: seq<byte>, pos: nat, pairs: seq<(int, int)>)
    requires StoredAt(stream, pos, EncodePairs(pairs))
    requires forall i :: 0 <= i < |pairs| ==> IsInt16(pairs[i].0) && IsInt16(pairs[i].1) && pairs[i].0 != ILLEG
    ensures PairsAt(stream, pos, pairs)
    decreases |pairs|
  {
    if pairs == [] {
      ReadEncoded(stream, pos, ILLEG);
    } else {
      var p, q := PairStored(stream, pos, pairs[0].0, pairs[0].1, EncodePairs(pairs[1..]));
      EncodedPairsAt(stream, q, pairs[1..]);
    }
  }
}
