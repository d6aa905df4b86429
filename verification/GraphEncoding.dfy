/**
 The grapheme table written as bytes: every list of ranges with properties has an encoding (overview in
 pico/lib/picoktab.c) from which the search, the offsets of properties and the reading of a record get back exactly
 what was written.
 */
module GraphEncoding {
  import opened ByteOrder
  import opened Concatenation
  import opened GraphTables
  import opened Options
  import opened Powers
  import opened Utf8

  // ---------------------------------------------------------------------------
  // The encoding
  // ---------------------------------------------------------------------------

  /** The characters from `from` to `to`, or `from` alone, and their properties. */
  datatype Entry = Entry(from: seq<byte>, to: Option<seq<byte>>, tokenType: Option<byte>, tokenSubType: Option<byte>,
                         value: Option<byte>, lowercase: Option<seq<byte>>, graphsubs1: Option<seq<byte>>,
                         graphsubs2: Option<seq<byte>>, punct: Option<byte>)

  /** A character whose first byte announces its length. */
  predicate IsText(c: seq<byte>) { c != [] && DetUtf8Length(c[0]) == |c| }

  predicate MayBeText(c: Option<seq<byte>>) { c.Some? ==> IsText(c.value) }

  predicate EntryFits(e: Entry) {
    && IsText(e.from) && MayBeText(e.to) && MayBeText(e.lowercase)
    && MayBeText(e.graphsubs1) && MayBeText(e.graphsubs2)
  }

  function Text(c: Option<seq<byte>>): seq<byte> { if c.Some? then c.value else [] }

  function One(b: Option<byte>): seq<byte> { if b.Some? then [b.value] else [] }

  /** The fields behind the first character. */
  function Fields(e: Entry): (fs: seq<seq<byte>>)
    ensures |fs| == 8
  {
    [Text(e.to), One(e.tokenType), One(e.tokenSubType), One(e.value),
     Text(e.lowercase), Text(e.graphsubs1), Text(e.graphsubs2), One(e.punct)]
  }

  function Flag(b: bool): (n: nat)
    ensures n <= 1
  {
    if b then 1 else 0
  }

  /** One bit for each property, from the lowest one on. */
  function Propset(e: Entry): byte {
    Flag(e.to.Some?) + 2 * Flag(e.tokenType.Some?) + 4 * Flag(e.tokenSubType.Some?) + 8 * Flag(e.value.Some?) +
    16 * Flag(e.lowercase.Some?) + 32 * Flag(e.graphsubs1.Some?) + 64 * Flag(e.graphsubs2.Some?) +
    128 * Flag(e.punct.Some?)
  }

  function EntryBytes(e: Entry): seq<byte> { [Propset(e)] + (e.from + Flatten(Fields(e))) }

  function ByteOr(b: Option<byte>): byte { if b.Some? then b.value else 255 }

  /** What reading the record gives. */
  function Info(e: Entry): GraphInfo {
    GraphInfo(Propset(e), e.from, if e.to.Some? then e.to.value else e.from, ByteOr(e.tokenType),
      ByteOr(e.tokenSubType), ByteOr(e.value), Text(e.lowercase), Text(e.graphsubs1), Text(e.graphsubs2),
      ByteOr(e.punct))
  }

  function Bodies(es: seq<Entry>): (bs: seq<seq<byte>>)
    ensures |bs| == |es|
  {
    seq(|es|, i requires 0 <= i < |es| => EntryBytes(es[i]))
  }

  /** Where the record of entry i starts: behind number of entries, size of an offset, offsets and records before it. */
  function Start(es: seq<Entry>, size: nat, i: nat): nat
    requires i <= |es|
  {
    3 + size * |es| + Offset(Bodies(es), i)
  }

  /** An offset, low byte first. */
  function OffsetBytes(v: nat, size: nat): seq<byte>
    requires v < 65536
  {
    if size == 1 then [v % 256] else [v % 256, v / 256]
  }

  /** One or two bytes are enough for the offsets. */
  ghost predicate Fits(es: seq<Entry>, size: nat) {
    && (size == 1 || size == 2)
    && forall i :: 0 <= i < |es| ==> EntryFits(es[i]) && Start(es, size, i) < (if size == 1 then 256 else 65536)
  }

  ghost function OffsetTable(es: seq<Entry>, size: nat): (os: seq<seq<byte>>)
    requires Fits(es, size)
    ensures |os| == |es|
  {
    seq(|es|, i requires 0 <= i < |es| => OffsetBytes(Start(es, size, i), size))
  }

  ghost function GraphBytes(es: seq<Entry>, size: nat): seq<byte>
    requires Fits(es, size) && |es| < 65536
  {
    [|es| % 256, |es| / 256, size] + (Flatten(OffsetTable(es, size)) + Flatten(Bodies(es)))
  }

  /** The table at the start of a knowledge base; all offsets count from there. */
  function GraphsOf(base: seq<byte>): Graphs
    requires |base| >= 3
  {
    Graphs(TwoBytes(base[0], base[1]), base[2], base[3..], base)
  }

  /** The ranges that are written. */
  ghost function Ranges(es: seq<Entry>, size: nat): (rs: seq<Range>)
    ensures |rs| == |es|
  {
    seq(|es|, i requires 0 <= i < |es| => Range(es[i].from, Info(es[i]).to, Start(es, size, i)))
  }

  // ---------------------------------------------------------------------------
  // One record
  // ---------------------------------------------------------------------------

  lemma BitOfSum(p: nat, m: nat, low: nat, bit: nat, high: nat)
    requires low < m && bit <= 1 && p == m * (bit + 2 * high) + low
    ensures p / m % 2 == bit
  {
    DivModUnique(p, m, bit + 2 * high, low);
  }

  /** The digits of a binary number, lowest first. */
  lemma BitsOfSum(a: nat, b: nat, c: nat, d: nat, s: nat, t: nat, u: nat, v: nat, p: nat)
    requires a <= 1 && b <= 1 && c <= 1 && d <= 1 && s <= 1 && t <= 1 && u <= 1 && v <= 1
    requires p == a + 2 * b + 4 * c + 8 * d + 16 * s + 32 * t + 64 * u + 128 * v
    ensures p / 1 % 2 == a && p / 2 % 2 == b && p / 4 % 2 == c && p / 8 % 2 == d
    ensures p / 16 % 2 == s && p / 32 % 2 == t && p / 64 % 2 == u && p / 128 % 2 == v
  {
    BitOfSum(p, 1, 0, a, b + 2 * c + 4 * d + 8 * s + 16 * t + 32 * u + 64 * v);
    BitOfSum(p, 2, a, b, c + 2 * d + 4 * s + 8 * t + 16 * u + 32 * v);
    BitOfSum(p, 4, a + 2 * b, c, d + 2 * s + 4 * t + 8 * u + 16 * v);
    BitOfSum(p, 8, a + 2 * b + 4 * c, d, s + 2 * t + 4 * u + 8 * v);
    BitOfSum(p, 16, a + 2 * b + 4 * c + 8 * d, s, t + 2 * u + 4 * v);
    BitOfSum(p, 32, a + 2 * b + 4 * c + 8 * d + 16 * s, t, u + 2 * v);
    BitOfSum(p, 64, a + 2 * b + 4 * c + 8 * d + 16 * s + 32 * t, u, v);
    BitOfSum(p, 128, a + 2 * b + 4 * c + 8 * d + 16 * s + 32 * t + 64 * u, v, 0);
  }

  /** Eight flags as one number: each is a bit of it. */
  lemma FlagBits(e: Entry)
    ensures Has(Propset(e), 0x01) == e.to.Some? && Has(Propset(e), 0x02) == e.tokenType.Some?
    ensures Has(Propset(e), 0x04) == e.tokenSubType.Some? && Has(Propset(e), 0x08) == e.value.Some?
    ensures Has(Propset(e), 0x10) == e.lowercase.Some? && Has(Propset(e), 0x20) == e.graphsubs1.Some?
    ensures Has(Propset(e), 0x40) == e.graphsubs2.Some? && Has(Propset(e), 0x80) == e.punct.Some?
  {
    var p := Propset(e);
    FlagSum(e, p);
    hide *;
    FlagBit(p, 0x01, e.to.Some?);
    FlagBit(p, 0x02, e.tokenType.Some?);
    FlagBit(p, 0x04, e.tokenSubType.Some?);
    FlagBit(p, 0x08, e.value.Some?);
    FlagBit(p, 0x10, e.lowercase.Some?);
    FlagBit(p, 0x20, e.graphsubs1.Some?);
    FlagBit(p, 0x40, e.graphsubs2.Some?);
    FlagBit(p, 0x80, e.punct.Some?);
  }

  lemma FlagSum(e: Entry, p: nat)
    requires p == Propset(e)
    ensures p / 1 % 2 == Flag(e.to.Some?) && p / 2 % 2 == Flag(e.tokenType.Some?)
    ensures p / 4 % 2 == Flag(e.tokenSubType.Some?) && p / 8 % 2 == Flag(e.value.Some?)
    ensures p / 16 % 2 == Flag(e.lowercase.Some?) && p / 32 % 2 == Flag(e.graphsubs1.Some?)
    ensures p / 64 % 2 == Flag(e.graphsubs2.Some?) && p / 128 % 2 == Flag(e.punct.Some?)
  {
    hide Flag;
    BitsOfSum(Flag(e.to.Some?), Flag(e.tokenType.Some?), Flag(e.tokenSubType.Some?), Flag(e.value.Some?),
      Flag(e.lowercase.Some?), Flag(e.graphsubs1.Some?), Flag(e.graphsubs2.Some?), Flag(e.punct.Some?), p);
  }

  lemma FlagBit(p: byte, mask: nat, b: bool)
    requires mask > 0 && p / mask % 2 == Flag(b)
    ensures Has(p, mask) == b
  {
  }

  /** The property set tells which fields there are. */
  lemma PropsetBits(e: Entry, k: Prop)
    requires EntryFits(e)
    ensures Has(Propset(e), Mask(k)) <==> Fields(e)[k] != []
  {
    hide Propset, Has;
    FlagBits(e);
  }

  /** The first byte of a stored character announces its length. */
  lemma TextStored(t: seq<byte>, pos: nat, c: seq<byte>)
    requires StoredAt(t, pos, c) && IsText(c)
    ensures DetUtf8Length(At(t, pos)) == |c| && Char(t, pos) == c && pos + |c| <= |t|
  {
    StoredFirst(t, pos, c);
  }

  /** The parts of a stored record. */
  lemma EntryParts(t: seq<byte>, off: nat, e: Entry)
    requires StoredAt(t, off, EntryBytes(e))
    ensures At(t, off) == Propset(e) && StoredAt(t, off + 1, e.from)
    ensures StoredAt(t, off + 1 + |e.from|, Flatten(Fields(e))) && off < |t|
  {
    hide StoredAt, Fields, Flatten, Propset;
    StoredConcat(t, off, [Propset(e)], e.from + Flatten(Fields(e)));
    StoredFirst(t, off, [Propset(e)]);
    StoredConcat(t, off + 1, e.from, Flatten(Fields(e)));
  }

  /** The fields with a character announce their length, and the others have one byte. */
  lemma FieldLengthStored(t: seq<byte>, e: Entry, k: Prop, p: nat)
    requires EntryFits(e) && StoredAt(t, p, Fields(e)[k]) && Fields(e)[k] != []
    ensures FieldLength(t, k, p) == |Fields(e)[k]|
  {
    hide StoredAt, DetUtf8Length;
    if k == TO || k == LOWERCASE || k == GRAPHSUBS1 || k == GRAPHSUBS2 {
      TextStored(t, p, Fields(e)[k]);
    }
  }

  /** Where the fields of a stored record are: one behind the other. */
  lemma {:induction false} FieldStartStored(t: seq<byte>, off: nat, e: Entry, k: nat)
    requires EntryFits(e) && StoredAt(t, off, EntryBytes(e)) && k <= 8
    ensures FieldStart(t, off, k) == 1 + |e.from| + Offset(Fields(e), k)
  {
    hide StoredAt, Fields, Flatten, Propset, Has, Mask, Offset, EntryBytes, FieldLength, IsText;
    EntryParts(t, off, e);
    if k == 0 {
      OffsetAll(Fields(e));
      TextStored(t, off + 1, e.from);
    } else {
      FieldStartStored(t, off, e, k - 1);
      StoredPart(t, off + 1 + |e.from|, Fields(e), k - 1);
      PropsetBits(e, k - 1);
      if Fields(e)[k - 1] != [] {
        FieldLengthStored(t, e, k - 1, off + 1 + |e.from| + Offset(Fields(e), k - 1));
      }
    }
  }

  /** Where field k of a stored record is, and what is there. */
  lemma FieldStored(t: seq<byte>, off: nat, e: Entry, k: Prop)
    requires EntryFits(e) && StoredAt(t, off, EntryBytes(e))
    ensures Has(At(t, off), Mask(k)) <==> Fields(e)[k] != []
    ensures StoredAt(t, off + FieldStart(t, off, k), Fields(e)[k])
    ensures Fields(e)[k] != [] ==> FieldLength(t, k, off + FieldStart(t, off, k)) == |Fields(e)[k]|
  {
    hide *;
    EntryParts(t, off, e);
    FieldStartStored(t, off, e, k);
    StoredPart(t, off + 1 + |e.from|, Fields(e), k);
    PropsetBits(e, k);
    if Fields(e)[k] != [] {
      FieldLengthStored(t, e, k, off + FieldStart(t, off, k));
    }
  }

  /** A stored record is a record, with the fields that were written. */
  lemma EntryStored(t: seq<byte>, off: nat, e: Entry)
    requires EntryFits(e) && StoredAt(t, off, EntryBytes(e))
    ensures IsRecord(t, off) && Describes(t, off, Info(e))
  {
    EntryIsRecord(t, off, e);
    EntryDescribed(t, off, e);
  }

  lemma EntryIsRecord(t: seq<byte>, off: nat, e: Entry)
    requires EntryFits(e) && StoredAt(t, off, EntryBytes(e))
    ensures IsRecord(t, off)
  {
    hide StoredAt, Fields, Flatten, Propset, Has, Mask, EntryBytes, FieldLength, FieldStart, DetUtf8Length, Offset;
    EntryParts(t, off, e);
    FieldStartStored(t, off, e, 8);
    OffsetAll(Fields(e));
    EntryWhole(t, off, e);
    forall k: Prop | Has(At(t, off), Mask(k)) ensures FieldLength(t, k, off + FieldStart(t, off, k)) >= 1 {
      FieldStored(t, off, e, k);
    }
  }

  lemma EntryWhole(t: seq<byte>, off: nat, e: Entry)
    requires EntryFits(e) && StoredAt(t, off, EntryBytes(e))
    ensures off + 1 + |e.from| + |Flatten(Fields(e))| <= |t| && DetUtf8Length(At(t, off + 1)) >= 1
  {
    hide Fields, Flatten;
    EntryParts(t, off, e);
    TextStored(t, off + 1, e.from);
  }

  lemma EntryDescribed(t: seq<byte>, off: nat, e: Entry)
    requires EntryFits(e) && StoredAt(t, off, EntryBytes(e))
    ensures Describes(t, off, Info(e))
  {
    hide StoredAt, Flatten, Propset, Has, Mask, EntryBytes, FieldLength, FieldStart, DetUtf8Length;
    EntryParts(t, off, e);
    TextStored(t, off + 1, e.from);
    TextDescribed(t, off, e, TO, e.to);
    ByteDescribed(t, off, e, TOKENTYPE, e.tokenType);
    ByteDescribed(t, off, e, TOKENSUBTYPE, e.tokenSubType);
    ByteDescribed(t, off, e, VALUE, e.value);
    TextDescribed(t, off, e, LOWERCASE, e.lowercase);
    TextDescribed(t, off, e, GRAPHSUBS1, e.graphsubs1);
    TextDescribed(t, off, e, GRAPHSUBS2, e.graphsubs2);
    ByteDescribed(t, off, e, PUNCT, e.punct);
  }

  lemma TextDescribed(t: seq<byte>, off: nat, e: Entry, k: Prop, c: Option<seq<byte>>)
    requires EntryFits(e) && StoredAt(t, off, EntryBytes(e)) && Fields(e)[k] == Text(c) && MayBeText(c)
    ensures forall none: seq<byte> :: CharField(t, off, k, none) == if c.Some? then c.value else none
  {
    hide StoredAt, Fields, Flatten, Propset, Has, Mask, EntryBytes, FieldLength, FieldStart, DetUtf8Length, Char;
    FieldStored(t, off, e, k);
    if c.Some? {
      TextPresent(t, off + FieldStart(t, off, k), c.value);
    }
  }

  lemma TextPresent(t: seq<byte>, pos: nat, c: seq<byte>)
    requires StoredAt(t, pos, c) && IsText(c)
    ensures c != [] && Char(t, pos) == c
  {
    TextStored(t, pos, c);
  }

  lemma ByteDescribed(t: seq<byte>, off: nat, e: Entry, k: Prop, b: Option<byte>)
    requires EntryFits(e) && StoredAt(t, off, EntryBytes(e)) && Fields(e)[k] == One(b)
    ensures ByteField(t, off, k) == ByteOr(b)
  {
    hide StoredAt, Fields, Flatten, Propset, Has, Mask, EntryBytes, FieldLength, FieldStart;
    FieldStored(t, off, e, k);
    if b.Some? {
      StoredFirst(t, off + FieldStart(t, off, k), [b.value]);
    }
  }

  // ---------------------------------------------------------------------------
  // The whole table
  // ---------------------------------------------------------------------------

  lemma {:induction false} SameSizes(parts: seq<seq<byte>>, size: nat, k: nat)
    requires k <= |parts| && forall i :: 0 <= i < |parts| ==> |parts[i]| == size
    ensures Offset(parts, k) == size * k
  {
    hide Flatten;
    if k == 0 {
      OffsetAll(parts);
    } else {
      SameSizes(parts, size, k - 1);
      StoredPart(Flatten(parts), 0, parts, k - 1) by { assert Flatten(parts)[0..] == Flatten(parts); }
      NextMultiple(size, k);
    }
  }

  lemma NextMultiple(size: nat, k: nat)
    requires k > 0
    ensures size * (k - 1) + size == size * k
  {
  }

  /** The parts of a stored table. */
  lemma TableParts(base: seq<byte>, es: seq<Entry>, size: nat)
    requires Fits(es, size) && |es| < 65536 && GraphBytes(es, size) <= base
    ensures |base| >= 3 && base[0] == |es| % 256 && base[1] == |es| / 256 && base[2] == size
    ensures StoredAt(base, 3, Flatten(OffsetTable(es, size))) && |Flatten(OffsetTable(es, size))| == size * |es|
    ensures StoredAt(base, 3 + size * |es|, Flatten(Bodies(es)))
  {
    hide Flatten, OffsetTable, Bodies;
    var head: seq<byte> := [|es| % 256, |es| / 256, size];
    var rest := Flatten(OffsetTable(es, size)) + Flatten(Bodies(es));
    assert StoredAt(base, 0, head + rest);
    StoredConcat(base, 0, head, rest);
    StoredConcat(base, 3, Flatten(OffsetTable(es, size)), Flatten(Bodies(es)));
    assert base[..3] == head;
    assert base[0] == base[..3][0] && base[1] == base[..3][1] && base[2] == base[..3][2];
    OffsetsHaveSize(es, size);
    SameSizes(OffsetTable(es, size), size, |es|);
    OffsetAll(OffsetTable(es, size));
  }

  lemma OffsetsHaveSize(es: seq<Entry>, size: nat)
    requires Fits(es, size)
    ensures forall i :: 0 <= i < |es| ==> |OffsetTable(es, size)[i]| == size
  {
  }

  /** The offset of record i is where it starts. */
  lemma OffsetStored(base: seq<byte>, es: seq<Entry>, size: nat, i: nat)
    requires Fits(es, size) && |es| < 65536 && GraphBytes(es, size) <= base && i < |es|
    ensures |base| >= 3 && GraphsOf(base) == Graphs(|es|, size, base[3..], base) && HasOffsets(GraphsOf(base))
    ensures RecordOffset(GraphsOf(base), i) == Start(es, size, i)
  {
    hide Flatten, OffsetTable, Bodies, GraphBytes, Start;
    TableParts(base, es, size);
    OffsetsHaveSize(es, size);
    StoredPart(base, 3, OffsetTable(es, size), i);
    SameSizes(OffsetTable(es, size), size, i);
    var v := Start(es, size, i);
    assert OffsetTable(es, size)[i] == OffsetBytes(v, size) by { OffsetEntry(es, size, i); }
    var b := OffsetBytes(v, size);
    var p := 3 + size * i;
    assert base[p..p + size] == b;
    assert base[p] == base[p..p + size][0];
    if size == 2 {
      assert base[p + 1] == base[p..p + size][1];
    }
  }

  lemma OffsetEntry(es: seq<Entry>, size: nat, i: nat)
    requires Fits(es, size) && i < |es|
    ensures Start(es, size, i) < 65536 && OffsetTable(es, size)[i] == OffsetBytes(Start(es, size, i), size)
  {
  }

  /** Record i of a stored table is the one that was written, at the offset that was written. */
  lemma RecordStored(base: seq<byte>, es: seq<Entry>, size: nat, i: nat)
    requires Fits(es, size) && |es| < 65536 && GraphBytes(es, size) <= base && i < |es|
    ensures IsRecord(base, Start(es, size, i)) && Describes(base, Start(es, size, i), Info(es[i]))
  {
    hide *;
    TableParts(base, es, size);
    StoredPart(base, 3 + size * |es|, Bodies(es), i);
    StartOf(es, size, i);
    EntryStored(base, Start(es, size, i), es[i]);
  }

  lemma StartOf(es: seq<Entry>, size: nat, i: nat)
    requires Fits(es, size) && i < |es|
    ensures Start(es, size, i) == 3 + size * |es| + Offset(Bodies(es), i) && EntryFits(es[i])
    ensures Bodies(es)[i] == EntryBytes(es[i])
  {
  }

  /**
   * Every list of entries that fits can be written, so that the table has exactly its ranges, in its order, and the
   * record of each one has exactly its properties.
   */
  lemma EncodedGraphs(es: seq<Entry>, size: nat, post: seq<byte>)
    requires Fits(es, size) && |es| < 65536
    ensures var base := GraphBytes(es, size) + post;
            && |base| >= 3 && Valid(GraphsOf(base), Ranges(es, size))
            && forall i :: 0 <= i < |es| ==> Describes(base, Ranges(es, size)[i].offset, Info(es[i]))
  {
    var base := GraphBytes(es, size) + post;
    hide *;
    TableHasOffsets(base, es, size);
    forall i | 0 <= i < |es|
      ensures RecordOf(GraphsOf(base), Ranges(es, size), i) && Describes(base, Ranges(es, size)[i].offset, Info(es[i]))
    {
      RecordHeld(base, es, size, i);
    }
    ValidTable(GraphsOf(base), Ranges(es, size));
  }

  lemma ValidTable(g: Graphs, rs: seq<Range>)
    requires HasOffsets(g) && |rs| == g.nrOffset && forall i :: 0 <= i < g.nrOffset ==> RecordOf(g, rs, i)
    ensures Valid(g, rs)
  {
  }

  lemma RecordHeld(base: seq<byte>, es: seq<Entry>, size: nat, i: nat)
    requires Fits(es, size) && |es| < 65536 && GraphBytes(es, size) <= base && i < |es|
    ensures |base| >= 3 && RecordOf(GraphsOf(base), Ranges(es, size), i)
    ensures Describes(base, Ranges(es, size)[i].offset, Info(es[i]))
  {
    hide GraphBytes, Fits, Start, IsRecord, Has, Mask, FieldStart, Flatten, Bodies, RecordOffset, Char, CharField,
         ByteField, GraphsOf;
    TableHasOffsets(base, es, size);
    OffsetStored(base, es, size, i);
    RecordStored(base, es, size, i);
  }

  lemma TableHasOffsets(base: seq<byte>, es: seq<Entry>, size: nat)
    requires Fits(es, size) && |es| < 65536 && GraphBytes(es, size) <= base
    ensures |base| >= 3 && GraphsOf(base) == Graphs(|es|, size, base[3..], base) && HasOffsets(GraphsOf(base))
  {
    hide Flatten, OffsetTable, Bodies, GraphBytes, Start;
    TableParts(base, es, size);
  }

  /** The offset of a property leads to what was written for it, and is 0 exactly if nothing was. */
  lemma PropertyFound(t: seq<byte>, off: nat, e: Entry, k: Prop)
    requires EntryFits(e) && StoredAt(t, off, EntryBytes(e))
    ensures PropPos(t, off, k) > 0 <==> Fields(e)[k] != []
    ensures PropPos(t, off, k) > 0 ==> StoredAt(t, off + PropPos(t, off, k), Fields(e)[k])
  {
    hide Fields, StoredAt;
    FieldStored(t, off, e, k);
  }

  /** A character in a range that was written is found, and its record has what was written; no other one is found. */
  lemma EncodedLookup(es: seq<Entry>, size: nat, post: seq<byte>, graph: seq<byte>)
    requires Fits(es, size) && |es| < 65536 && Ordered(Ranges(es, size))
    ensures forall i :: 0 <= i < |es| && Cmp(es[i].from, graph) <= 0 && Cmp(graph, Info(es[i]).to) <= 0 ==>
              Scan(Ranges(es, size), graph) == Start(es, size, i) > 0
    ensures Unknown(es, graph) ==> Scan(Ranges(es, size), graph) == 0
  {
    var rs := Ranges(es, size);
    forall i | 0 <= i < |es| && Cmp(es[i].from, graph) <= 0 && Cmp(graph, Info(es[i]).to) <= 0
      ensures Scan(rs, graph) == Start(es, size, i) > 0
    {
      FoundByScan(rs, i, graph);
    }
    if Unknown(es, graph) {
      forall i | 0 <= i < |rs| ensures !rs[i].Contains(graph) {
        assert InRange(es[i], graph) == rs[i].Contains(graph);
      }
      ScanSkips(rs, graph, |rs|);
    }
  }

  predicate InRange(e: Entry, graph: seq<byte>) { Cmp(e.from, graph) <= 0 && Cmp(graph, Info(e).to) <= 0 }

  predicate Unknown(es: seq<Entry>, graph: seq<byte>) { forall i :: 0 <= i < |es| ==> !InRange(es[i], graph) }

  // ---------------------------------------------------------------------------
  // Graphemes that are like vowels
  // ---------------------------------------------------------------------------

  /** A grapheme of the table is like a vowel exactly if its token type says so, also if it has none. */
  lemma KnownVowel(base: seq<byte>, off: nat, e: Entry)
    requires EntryFits(e) && StoredAt(base, off, EntryBytes(e))
    ensures VowelAt(base, off) <==> e.tokenType == Some(LETTERV)
  {
    hide StoredAt, Propset;
    EntryParts(base, off, e);
    FieldStored(base, off, e, TOKENTYPE);
    if e.tokenType.Some? {
      StoredFirst(base, off + FieldStart(base, off, TOKENTYPE), Fields(e)[TOKENTYPE]);
    }
  }

  lemma {:induction false} BodiesLong(es: seq<Entry>, size: nat, k: nat)
    requires Fits(es, size) && k <= |es|
    ensures Offset(Bodies(es), k) >= 2 * k
  {
    hide Flatten;
    if k == 0 {
      OffsetAll(Bodies(es));
    } else {
      BodiesLong(es, size, k - 1);
      var all := Flatten(Bodies(es));
      assert all[0..] == all;
      StoredPart(all, 0, Bodies(es), k - 1);
      StartOf(es, size, k - 1);
    }
  }

  /** Records have two bytes at least, so that there are not many of them. */
  lemma FewRecords(es: seq<Entry>, size: nat)
    requires Fits(es, size)
    ensures |es| < if size == 1 then 86 else 16384
  {
    var n := |es|;
    if n > 0 {
      BodiesLong(es, size, n - 1);
      assert Start(es, size, n - 1) == 3 + size * n + Offset(Bodies(es), n - 1);
      assert size * n == n || size * n == 2 * n;
    }
  }

  /** The start of a table, taken for a record. */
  lemma HeadAsRecord(t: seq<byte>, n: nat, size: nat)
    requires |t| >= 3 && t[0] == n % 256 && t[1] == n / 256 && t[2] == size && n < 16384 && 1 <= size <= 2
    ensures PropPos(t, 0, TOKENTYPE) == if n / 2 % 2 == 0 then 0 else if n % 2 == 0 then 2 else 3
  {
    assert FieldStart(t, 0, 0) == 2;
    assert n % 256 / 2 % 2 == n / 2 % 2;
    assert FieldStart(t, 0, 1) == if n % 2 == 0 then 2 else 3;
  }

  /**
   * For an unknown grapheme the start of the table is taken for its record: with offsets of one byte and exactly 83
   * records, the first offset is the code of a letter that is like a vowel.
   */
  lemma UnknownVowel(es: seq<Entry>, size: nat, post: seq<byte>)
    requires Fits(es, size) && |es| < 65536
    ensures var base := GraphBytes(es, size) + post;
            Readable(base, 0, TOKENTYPE) && (VowelAt(base, 0) <==> size == 1 && |es| == 83)
  {
    var base := GraphBytes(es, size) + post;
    var n := |es|;
    hide *;
    TableParts(base, es, size);
    FewRecords(es, size);
    SizeIsSmall(es, size);
    HeadAsRecord(base, n, size);
    if n > 0 {
      FirstOffsetByte(base, es, size);
    }
    HeadVowel(base, n, size);
  }

  lemma HeadVowel(t: seq<byte>, n: nat, size: nat)
    requires |t| >= 3 && t[0] == n % 256 && t[2] == size && (size == 1 || size == 2)
    requires n < (if size == 1 then 86 else 16384) && (n > 0 ==> |t| > 3 && t[3] == (3 + size * n) % 256)
    requires PropPos(t, 0, TOKENTYPE) == if n / 2 % 2 == 0 then 0 else if n % 2 == 0 then 2 else 3
    ensures Readable(t, 0, TOKENTYPE) && (VowelAt(t, 0) <==> size == 1 && n == 83)
  {
    hide FieldStart;
    assert n % 256 / 2 % 2 == n / 2 % 2;
    if n / 2 % 2 == 0 {
    } else if n % 2 == 1 {
      if size == 2 { OddByte(n); }
    }
  }

  lemma OddByte(n: nat)
    ensures (3 + 2 * n) % 256 % 2 == 1
  {
  }

  lemma SizeIsSmall(es: seq<Entry>, size: nat)
    requires Fits(es, size)
    ensures 1 <= size <= 2
  {
  }

  /** The byte behind the head is the low byte of the first offset. */
  lemma FirstOffsetByte(base: seq<byte>, es: seq<Entry>, size: nat)
    requires Fits(es, size) && 0 < |es| < 65536 && GraphBytes(es, size) <= base
    ensures |base| > 3 && base[3] == (3 + size * |es|) % 256
  {
    hide Flatten, OffsetTable, Bodies, GraphBytes;
    OffsetStored(base, es, size, 0);
    OffsetAll(Bodies(es));
    assert base[3] == base[3..][0];
  }

  /** Single characters from `!` on, without properties. */
  function Plain(n: nat): (es: seq<Entry>)
    requires n <= 83
    ensures |es| == n
  {
    seq(n, i requires 0 <= i < n => Entry([33 + i], None, None, None, None, None, None, None, None))
  }

  /** 83 characters without properties fit a table with offsets of one byte, in which a blank is like a vowel. */
  lemma BlankIsVowel()
    ensures var es := Plain(83);
            && Fits(es, 1) && Ordered(Ranges(es, 1)) && Unknown(es, [32])
            && VowelAt(GraphBytes(es, 1), Scan(Ranges(es, 1), [32]))
  {
    var es := Plain(83);
    PlainFits();
    PlainOrdered();
    EncodedLookup(es, 1, [], [32]);
    UnknownVowel(es, 1, []);
    assert GraphBytes(es, 1) + [] == GraphBytes(es, 1);
  }

  lemma PlainFits()
    ensures Fits(Plain(83), 1)
  {
    var es := Plain(83);
    hide Flatten;
    forall i | 0 <= i < 83 ensures |Bodies(es)[i]| == 2 {
      NoFields(es[i]);
    }
    forall i | 0 <= i < 83 ensures Start(es, 1, i) < 256 {
      SameSizes(Bodies(es), 2, i);
    }
  }

  lemma NoFields(e: Entry)
    requires e == Entry(e.from, None, None, None, None, None, None, None, None)
    ensures |EntryBytes(e)| == 1 + |e.from|
  {
    var fs := Fields(e);
    hide Flatten;
    SameSizes(fs, 0, 8);
    OffsetAll(fs);
  }

  lemma CmpOne(a: byte, b: byte)
    ensures Cmp([a], [b]) == if a < b then -1 else if a > b then 1 else 0
  {
    assert [a][1..] == [] && [b][1..] == [];
  }

  lemma SingleBefore(rs: seq<Range>, i: nat, j: nat, a: byte, b: byte)
    requires i <= j < |rs| && rs[i].from == rs[i].to == [a] && rs[j].from == rs[j].to == [b] && (i < j ==> a < b)
    ensures Before(rs, i, j)
  {
    hide Cmp;
    CmpOne(a, a);
    CmpOne(a, b);
    CmpOne(b, b);
  }

  lemma PlainOrdered()
    ensures Ordered(Ranges(Plain(83), 1)) && Unknown(Plain(83), [32])
  {
    var (es, rs) := (Plain(83), Ranges(Plain(83), 1));
    hide Start;
    forall i, j | 0 <= i <= j < |rs| ensures Before(rs, i, j) {
      assert rs[i].from == rs[i].to == [33 + i] && rs[j].from == rs[j].to == [33 + j];
      SingleBefore(rs, i, j, 33 + i, 33 + j);
    }
    forall i | 0 <= i < |es| ensures !InRange(es[i], [32]) {
      assert es[i].from == [33 + i];
    }
  }
}
