/**
 The grapheme table (pico/lib/picoktab.c): variable-length records for ranges of characters, found by binary
 search, with two ways to find a property in a record.
 */
module GraphTables {
  import opened ByteOrder
  import opened Powers
  import opened Utf8

  /** `graphTable` is the whole knowledge base, to which offsets refer. */
  datatype Graphs = Graphs(nrOffset: nat, sizeOffset: nat, offsetTable: seq<byte>, graphTable: seq<byte>)

  // ---------------------------------------------------------------------------
  // Records
  // ---------------------------------------------------------------------------

  // The properties, in the order of their bits and of their fields.
  const TO := 0
  const TOKENTYPE := 1
  const TOKENSUBTYPE := 2
  const VALUE := 3
  const LOWERCASE := 4
  const GRAPHSUBS1 := 5
  const GRAPHSUBS2 := 6
  const PUNCT := 7

  type Prop = k: nat | k < 8

  /** The bit of a property in the property set. */
  function Mask(k: Prop): (m: nat)
    ensures m > 0
  {
    match k
    case 0 => 0x01 case 1 => 0x02 case 2 => 0x04 case 3 => 0x08
    case 4 => 0x10 case 5 => 0x20 case 6 => 0x40 case _ => 0x80
  }

  /** `propset & mask` for a single bit */
  predicate Has(propset: byte, mask: nat) requires mask > 0 { propset / mask % 2 == 1 }

  /** The byte at `i`; nothing is known about bytes outside of the table. */
  function At(t: seq<byte>, i: nat): byte { if i < |t| then t[i] else 0 }

  /** Length of the field of a property that starts at `p`: a character for some, one byte for the others. */
  function FieldLength(t: seq<byte>, k: Prop, p: nat): nat {
    if k == TO || k == LOWERCASE || k == GRAPHSUBS1 || k == GRAPHSUBS2 then DetUtf8Length(At(t, p)) else 1
  }

  /** Where the field of property k is in the record at `off`, or would be: behind the fields before it. */
  function FieldStart(t: seq<byte>, off: nat, k: nat): (n: nat)
    requires k <= 8
    ensures n >= 1
  {
    if k == 0 then 1 + DetUtf8Length(At(t, off + 1))
    else
      var n := FieldStart(t, off, k - 1);
      if Has(At(t, off), Mask(k - 1)) then n + FieldLength(t, k - 1, off + n) else n
  }

  /** A record within the table: every field has at least one byte. */
  ghost predicate IsRecord(t: seq<byte>, off: nat) {
    && off + FieldStart(t, off, 8) <= |t| && DetUtf8Length(At(t, off + 1)) >= 1
    && forall k: Prop :: Has(At(t, off), Mask(k)) ==> FieldLength(t, k, off + FieldStart(t, off, k)) >= 1
  }

  lemma {:induction false} FieldsInTable(t: seq<byte>, off: nat, k: nat)
    requires IsRecord(t, off) && k <= 8
    ensures off + FieldStart(t, off, k) <= |t| && FieldStart(t, off, k) >= 2
    ensures k < 8 && Has(At(t, off), Mask(k)) ==>
              off + FieldStart(t, off, k) + FieldLength(t, k, off + FieldStart(t, off, k)) <= |t|
    decreases 8 - k
  {
    if k >= 8 {
    } else {
      FieldsInTable(t, off, k + 1);
    }
    FieldStartGrows(t, off, k);
  }

  lemma {:induction false} FieldStartGrows(t: seq<byte>, off: nat, k: nat)
    requires IsRecord(t, off) && k <= 8
    ensures FieldStart(t, off, k) >= 2
  {
    if k == 0 {
    } else {
      FieldStartGrows(t, off, k - 1);
    }
  }

  /** A character of the table; nothing is known about bytes outside of it. */
  function Char(t: seq<byte>, p: nat): seq<byte> {
    var l := DetUtf8Length(At(t, p));
    if p + l <= |t| then t[p..p + l] else []
  }

  lemma {:induction false} FieldsGrow(t: seq<byte>, off: nat, j: nat, k: nat)
    requires j <= k <= 8
    ensures FieldStart(t, off, j) <= FieldStart(t, off, k)
  {
    if j < k {
      FieldsGrow(t, off, j, k - 1);
    }
  }

  /** Overreads the field of a property, if there is one. */
  method Overread(t: seq<byte>, off: nat, k: Prop, n: nat) returns (n': nat)
    requires off + n < |t| && n == FieldStart(t, off, k)
    ensures n' == FieldStart(t, off, k + 1)
  {
    n' := n;
    if Has(t[off], Mask(k)) {
      if k == TO || k == LOWERCASE || k == GRAPHSUBS1 || k == GRAPHSUBS2 {
        n' := n' + DetUtf8Length(t[off + n']);
      } else {
        n' := n' + 1;
      }
    }
  }

  /** The fields up to that of property k are inside of the table. */
  ghost predicate Readable(t: seq<byte>, off: nat, k: Prop) {
    off < |t| && (Has(At(t, off), Mask(k)) ==> off + FieldStart(t, off, k) < |t|)
  }

  lemma FieldsReadable(t: seq<byte>, off: nat, j: nat, k: Prop)
    requires Readable(t, off, k) && Has(At(t, off), Mask(k)) && j <= k
    ensures off + FieldStart(t, off, j) < |t|
  {
    FieldsGrow(t, off, j, k);
  }

  lemma RecordReadable(t: seq<byte>, off: nat, k: Prop)
    requires IsRecord(t, off)
    ensures Readable(t, off, k)
  {
    FieldsInTable(t, off, 0);
    FieldsInTable(t, off, k);
  }

  /** Where the field of property k is, counted from the start of the record; 0 if there is none. */
  function PropPos(t: seq<byte>, off: nat, k: Prop): nat {
    if Has(At(t, off), Mask(k)) then FieldStart(t, off, k) else 0
  }

  /** Offset of a property in the record at `off`, or 0. */
  method PropOffset(t: seq<byte>, off: nat, k: Prop) returns (n: nat)
    requires Readable(t, off, k)
    ensures n == PropPos(t, off, k)
  {
    hide DetUtf8Length;
    n := 0;
    if Has(t[off], Mask(k)) {
      forall j: nat | j <= k ensures off + FieldStart(t, off, j) < |t| { FieldsReadable(t, off, j, k); }
      n := n + 1;
      assert FieldStart(t, off, TO) == 1 + DetUtf8Length(At(t, off + 1));
      n := n + DetUtf8Length(t[off + n]);
      if k > TO { n := Overread(t, off, TO, n); } else { return; }
      if k > TOKENTYPE { n := Overread(t, off, TOKENTYPE, n); } else { return; }
      if k > TOKENSUBTYPE { n := Overread(t, off, TOKENSUBTYPE, n); } else { return; }
      if k > VALUE { n := Overread(t, off, VALUE, n); } else { return; }
      if k > LOWERCASE { n := Overread(t, off, LOWERCASE, n); } else { return; }
      if k > GRAPHSUBS1 { n := Overread(t, off, GRAPHSUBS1, n); } else { return; }
      if k > GRAPHSUBS2 { n := Overread(t, off, GRAPHSUBS2, n); }
    }
  }

  // ---------------------------------------------------------------------------
  // Reading a whole record
  // ---------------------------------------------------------------------------

  const NONE: byte := 255

  datatype GraphInfo = GraphInfo(propset: byte, from: seq<byte>, to: seq<byte>, tokenType: byte, tokenSubType: byte,
                                 value: byte, lowercase: seq<byte>, graphsubs1: seq<byte>, graphsubs2: seq<byte>,
                                   punct: byte)

  /** The field of a property with a character, if it has one. */
  function CharField(t: seq<byte>, off: nat, k: Prop, none: seq<byte>): seq<byte> {
    if Has(At(t, off), Mask(k)) then Char(t, off + FieldStart(t, off, k)) else none
  }

  /** The field of a property with one byte. */
  function ByteField(t: seq<byte>, off: nat, k: Prop): byte {
    if Has(At(t, off), Mask(k)) then At(t, off + FieldStart(t, off, k)) else NONE
  }

  /** Gets a character and advances. */
  method GetUtf8(t: seq<byte>, pos: nat) returns (to: seq<byte>, pos': nat)
    requires pos + DetUtf8Length(At(t, pos)) <= |t| && pos < |t|
    ensures to == Char(t, pos) && pos' == pos + |to|
  {
    var l := DetUtf8Length(t[pos]);
    ghost var n := l;
    to, pos' := [], pos;
    while l > 0
      invariant 0 <= l <= n && pos' == pos + (n - l) && to == t[pos..pos']
    {
      to := to + [t[pos']];
      pos' := pos' + 1;
      l := l - 1;
    }
  }

  /** Reads the field of a property with a character, if it has one, and advances. */
  method NextChar(t: seq<byte>, off: nat, k: Prop, pos: nat, none: seq<byte>) returns (c: seq<byte>, pos': nat)
    requires IsRecord(t, off) && (k == TO || k == LOWERCASE || k == GRAPHSUBS1 || k == GRAPHSUBS2)
    requires pos == off + FieldStart(t, off, k)
    ensures c == CharField(t, off, k, none) && pos' == off + FieldStart(t, off, k + 1)
  {
    FieldsInTable(t, off, 0);
    FieldsInTable(t, off, k);
    if Has(t[off], Mask(k)) {
      c, pos' := GetUtf8(t, pos);
    } else {
      c, pos' := none, pos;
    }
  }

  /** Reads the field of a property with one byte, if it has one, and advances. */
  method NextByte(t: seq<byte>, off: nat, k: Prop, pos: nat) returns (b: byte, pos': nat)
    requires IsRecord(t, off) && (k == TOKENTYPE || k == TOKENSUBTYPE || k == VALUE || k == PUNCT)
    requires pos == off + FieldStart(t, off, k)
    ensures b == ByteField(t, off, k) && pos' == off + FieldStart(t, off, k + 1)
  {
    FieldsInTable(t, off, 0);
    FieldsInTable(t, off, k);
    if Has(t[off], Mask(k)) {
      b, pos' := t[pos], pos + 1;
    } else {
      b, pos' := NONE, pos;
    }
  }

  /** What the offsets of the properties say about the fields of a record. */
  ghost predicate Describes(t: seq<byte>, off: nat, info: GraphInfo) {
    && info.propset == At(t, off) && info.from == Char(t, off + 1) && info.to == CharField(t, off, TO, info.from)
    && info.tokenType == ByteField(t, off, TOKENTYPE) && info.tokenSubType == ByteField(t, off, TOKENSUBTYPE)
    && info.value == ByteField(t, off, VALUE) && info.lowercase == CharField(t, off, LOWERCASE, [])
    && info.graphsubs1 == CharField(t, off, GRAPHSUBS1, []) && info.graphsubs2 == CharField(t, off, GRAPHSUBS2, [])
    && info.punct == ByteField(t, off, PUNCT)
  }

  /** Reads a record from front to back: each field is where the offset of its property says. */
  method ReadRecord(t: seq<byte>, off: nat) returns (info: GraphInfo)
    requires IsRecord(t, off)
    ensures Describes(t, off, info)
  {
    FieldsInTable(t, off, 0);
    var pos := off + 1;
    var from, to, lowercase, graphsubs1, graphsubs2;
    var tokenType, tokenSubType, value, punct;
    from, pos := GetUtf8(t, pos);
    to, pos := NextChar(t, off, TO, pos, from);
    tokenType, pos := NextByte(t, off, TOKENTYPE, pos);
    tokenSubType, pos := NextByte(t, off, TOKENSUBTYPE, pos);
    value, pos := NextByte(t, off, VALUE, pos);
    lowercase, pos := NextChar(t, off, LOWERCASE, pos, []);
    graphsubs1, pos := NextChar(t, off, GRAPHSUBS1, pos, []);
    graphsubs2, pos := NextChar(t, off, GRAPHSUBS2, pos, []);
    punct, pos := NextByte(t, off, PUNCT, pos);
    info := GraphInfo(t[off], from, to, tokenType, tokenSubType, value, lowercase, graphsubs1, graphsubs2, punct);
  }

  // ---------------------------------------------------------------------------
  // The search
  // ---------------------------------------------------------------------------

  /** The characters from `from` to `to` have the record at `offset`. */
  datatype Range = Range(from: seq<byte>, to: seq<byte>, offset: nat) {
    predicate Contains(graph: seq<byte>) { Cmp(from, graph) <= 0 && Cmp(graph, to) <= 0 }
  }

  ghost predicate Before(rs: seq<Range>, i: nat, j: nat) {
    i < |rs| && j < |rs| && Cmp(rs[i].from, rs[i].to) <= 0 && Cmp(rs[j].from, rs[j].to) <= 0
    && (i < j ==> Cmp(rs[i].to, rs[j].from) < 0)
  }

  /** Ranges in order that do not overlap. */
  ghost predicate Ordered(rs: seq<Range>) { forall i, j :: 0 <= i <= j < |rs| ==> Before(rs, i, j) }

  /** The first range with a character: a scan of all records. */
  function Scan(rs: seq<Range>, graph: seq<byte>): nat {
    if rs == [] then 0 else if rs[0].Contains(graph) then rs[0].offset else Scan(rs[1..], graph)
  }

  lemma {:induction false} ScanSkips(rs: seq<Range>, graph: seq<byte>, m: nat)
    requires m <= |rs| && forall k :: 0 <= k < m ==> !rs[k].Contains(graph)
    ensures Scan(rs, graph) == Scan(rs[m..], graph)
  {
    if m > 0 {
      ScanSkips(rs[1..], graph, m - 1);
      assert rs[1..][m - 1..] == rs[m..];
    } else {
      assert rs[0..] == rs;
    }
  }

  lemma NotBefore(rs: seq<Range>, i: nat, m: nat, graph: seq<byte>)
    requires Ordered(rs) && i <= m < |rs| && Cmp(graph, rs[m].to) > 0
    ensures !rs[i].Contains(graph)
  {
    CmpSwap(graph, rs[m].to);
    CmpSwap(graph, rs[i].to);
    assert Before(rs, i, m);
    if i < m {
      CmpTransitive(rs[i].to, rs[m].from, rs[m].to);
      CmpTransitive(rs[i].to, rs[m].to, graph);
    }
  }

  lemma NotBehind(rs: seq<Range>, m: nat, j: nat, graph: seq<byte>)
    requires Ordered(rs) && m <= j < |rs| && Cmp(graph, rs[m].from) < 0
    ensures !rs[j].Contains(graph)
  {
    CmpSwap(graph, rs[j].from);
    assert Before(rs, m, j);
    if m < j {
      CmpTransitive(graph, rs[m].from, rs[m].to);
      CmpTransitive(graph, rs[m].to, rs[j].from);
    }
  }

  /** A character is in one range at most, so that any range with it is the one a scan finds. */
  lemma FoundByScan(rs: seq<Range>, m: nat, graph: seq<byte>)
    requires Ordered(rs) && m < |rs| && rs[m].Contains(graph)
    ensures Scan(rs, graph) == rs[m].offset
    ensures forall k :: 0 <= k < |rs| && rs[k].Contains(graph) ==> k == m
  {
    forall k | 0 <= k < |rs| && k != m ensures !rs[k].Contains(graph) {
      OnlyRange(rs, k, m, graph);
    }
    ScanSkips(rs, graph, m);
  }

  lemma OnlyRange(rs: seq<Range>, k: nat, m: nat, graph: seq<byte>)
    requires Ordered(rs) && k < |rs| && m < |rs| && k != m && rs[m].Contains(graph)
    ensures !rs[k].Contains(graph)
  {
    if k < m {
      assert Before(rs, k, m);
      CmpTransitive(rs[k].to, rs[m].from, graph);
      CmpSwap(graph, rs[k].to);
    } else {
      assert Before(rs, m, k);
      CmpTransitive(graph, rs[m].to, rs[k].from);
      CmpSwap(graph, rs[k].from);
    }
  }

  ghost predicate HasOffsets(g: Graphs) {
    (g.sizeOffset == 1 || g.sizeOffset == 2) && g.sizeOffset * g.nrOffset <= |g.offsetTable|
  }

  function TwoBytes(low: nat, high: nat): nat { low + 256 * high }

  /** The offset of record i, in one or two bytes. */
  function RecordOffset(g: Graphs, i: nat): nat
    requires HasOffsets(g) && i < g.nrOffset
  {
    if g.sizeOffset == 1 then g.offsetTable[i] else TwoBytes(g.offsetTable[2 * i], g.offsetTable[2 * i + 1])
  }

  /** Record i is for range i. */
  ghost predicate RecordOf(g: Graphs, rs: seq<Range>, i: nat) {
    && HasOffsets(g) && i < g.nrOffset && i < |rs| && IsRecord(g.graphTable, RecordOffset(g, i))
    && var off := RecordOffset(g, i);
       rs[i] == Range(Char(g.graphTable, off + 1), CharField(g.graphTable, off, TO, Char(g.graphTable, off + 1)), off)
  }

  ghost predicate Valid(g: Graphs, rs: seq<Range>) {
    HasOffsets(g) && |rs| == g.nrOffset && forall i :: 0 <= i < g.nrOffset ==> RecordOf(g, rs, i)
  }

  /** Reads the range of a record. */
  method ReadRange(g: Graphs, m: nat, ghost rs: seq<Range>) returns (r: Range)
    requires Valid(g, rs) && m < g.nrOffset
    ensures r == rs[m]
  {
    assert RecordOf(g, rs, m);
    var graphsOffset: nat;
    if g.sizeOffset == 1 {
      graphsOffset := g.offsetTable[m];
    } else {
      graphsOffset := TwoBytes(g.offsetTable[2 * m], g.offsetTable[2 * m + 1]);
    }
    FieldsInTable(g.graphTable, graphsOffset, TO);
    var from, p := GetUtf8(g.graphTable, graphsOffset + 1);
    var to := from;
    RecordReadable(g.graphTable, graphsOffset, TO);
    var propOffset := PropOffset(g.graphTable, graphsOffset, TO);
    if propOffset > 0 {
      to, p := GetUtf8(g.graphTable, graphsOffset + propOffset);
    }
    r := Range(from, to, graphsOffset);
  }

  /** Binary search for the record of a character: the one that a scan of all records finds. */
  method GraphOffset(g: Graphs, graph: seq<byte>, ghost rs: seq<Range>) returns (offset: nat)
    requires Valid(g, rs) && Ordered(rs)
    ensures offset == Scan(rs, graph)
  {
    var a, b := 0, g.nrOffset - 1;
    while a <= b
      invariant 0 <= a <= g.nrOffset && -1 <= b < g.nrOffset && a <= b + 1
      invariant forall i :: 0 <= i < a || b < i < g.nrOffset ==> !rs[i].Contains(graph)
      decreases b - a
    {
      var m := (a + b) / 2;
      var r := ReadRange(g, m, rs);
      CmpSwap(graph, r.from);
      var utfGEfrom := Cmp(graph, r.from) >= 0;
      var utfLEto := Cmp(graph, r.to) <= 0;
      if utfGEfrom && utfLEto {
        FoundByScan(rs, m, graph);
        return r.offset;
      }
      if !utfGEfrom {
        forall i | m <= i < g.nrOffset ensures !rs[i].Contains(graph) { NotBehind(rs, m, i, graph); }
        b := m - 1;
      } else if !utfLEto {
        forall i | 0 <= i <= m ensures !rs[i].Contains(graph) { NotBefore(rs, i, m, graph); }
        a := m + 1;
      }
    }
    ScanSkips(rs, graph, |rs|);
    return 0;
  }

  // ---------------------------------------------------------------------------
  // A question about a grapheme
  // ---------------------------------------------------------------------------

  /** Token type of a letter that is like a vowel. */
  const LETTERV: byte := 86

  /** The byte that is taken for the token type of the record at `off`. */
  predicate VowelAt(t: seq<byte>, off: nat) { At(t, off + PropPos(t, off, TOKENTYPE)) == LETTERV }

  lemma {:induction false} ScanFinds(rs: seq<Range>, graph: seq<byte>)
    ensures Scan(rs, graph) == 0 || exists k :: 0 <= k < |rs| && rs[k].offset == Scan(rs, graph)
  {
    if rs != [] && !rs[0].Contains(graph) {
      ScanFinds(rs[1..], graph);
      if k :| 0 <= k < |rs[1..]| && rs[1..][k].offset == Scan(rs[1..], graph) {
        assert rs[k + 1].offset == Scan(rs, graph);
      }
    }
  }

  lemma FoundReadable(g: Graphs, rs: seq<Range>, graph: seq<byte>)
    requires Valid(g, rs) && Readable(g.graphTable, 0, TOKENTYPE)
    ensures Readable(g.graphTable, Scan(rs, graph), TOKENTYPE)
  {
    hide IsRecord, Readable, FieldStart, Has, Mask;
    ScanFinds(rs, graph);
    if Scan(rs, graph) != 0 {
      var k :| 0 <= k < |rs| && rs[k].offset == Scan(rs, graph);
      assert RecordOf(g, rs, k);
      RecordReadable(g.graphTable, rs[k].offset, TOKENTYPE);
    }
  }

  /** Whether a grapheme is like a vowel.  For an unknown one the start of the table is taken for a record. */
  method HasVowellikeProp(g: Graphs, graph: seq<byte>, ghost rs: seq<Range>) returns (vowel: bool)
    requires Valid(g, rs) && Ordered(rs) && Readable(g.graphTable, 0, TOKENTYPE)
    ensures vowel <==> VowelAt(g.graphTable, Scan(rs, graph))
  {
    var graphsOffset := GraphOffset(g, graph, rs);
    FoundReadable(g, rs, graph);
    hide Valid, Ordered, FieldStart, Has, Mask, Scan;
    var n := PropOffset(g.graphTable, graphsOffset, TOKENTYPE);
    vowel := g.graphTable[graphsOffset + n] == LETTERV;
  }
}
