/**
 Lexicon lookup (pico/lib/picoklex.c): binary search over the block index, extension to the neighbouring blocks,
 and a scan of variable-length entries, against a scan of all entries.
 */
module Lexicons {
  import opened Powers
  import opened ByteOrder

  const MAX_NRRES := 4
  const POSIND_SIZE := 4
  const NEEDS_G2P := 5

  /**
   The memory of a lexicon: `searchind` from the block index (5 bytes each) on, `lexblocks` from the first
   block (512 bytes each) on.
   */
  datatype Lexicon = Lexicon(nrblocks: nat, searchind: seq<byte>, lexblocks: seq<byte>) {

    /** One more byte can be read behind the blocks, and the blocks behind the index. */
    ghost predicate Valid() {
      nrblocks < 0x10000 && |searchind| == 5 * nrblocks + |lexblocks| && 512 * nrblocks < |lexblocks|
    }

    /** The three-byte prefix in the index; behind the last one, bytes of the first block are read. */
    function SearchIndexVal(index: nat): nat
      requires Valid() && index <= nrblocks && 0 < nrblocks
    {
      var pos := 5 * index;
      Three(searchind[pos], searchind[pos + 1], searchind[pos + 2])
    }
  }

  /** The blocks follow their index: what is read behind its last prefix are the first bytes of the first block. */
  lemma BehindIndex(lex: Lexicon)
    requires lex.Valid() && lex.nrblocks > 0 && lex.searchind[5 * lex.nrblocks..] == lex.lexblocks
    ensures lex.SearchIndexVal(lex.nrblocks) == Three(lex.lexblocks[0], lex.lexblocks[1], lex.lexblocks[2])
  {
    var (n, s) := (5 * lex.nrblocks, lex.searchind);
    assert s[n..][0] == s[n] && s[n..][1] == s[n + 1] && s[n..][2] == s[n + 2];
  }

  // ---------------------------------------------------------------------------
  // Entries
  // ---------------------------------------------------------------------------

  /** An entry at `p`: length + 1, grapheme string, length + 2 of the rest, part of speech, phones. */
  predicate IsEntry(lb: seq<byte>, p: nat) {
    && p < |lb| && lb[p] >= 1 && p + lb[p] < |lb|
    && lb[p + lb[p]] >= 2 && p + lb[p] + lb[p + lb[p]] <= |lb|
  }

  function Graph(lb: seq<byte>, p: nat): seq<byte> requires IsEntry(lb, p) { lb[p + 1..p + lb[p]] }
  function Rest(lb: seq<byte>, p: nat): nat requires IsEntry(lb, p) { p + lb[p] }
  function End(lb: seq<byte>, p: nat): nat requires IsEntry(lb, p) { Rest(lb, p) + lb[Rest(lb, p)] }
  function Pos(lb: seq<byte>, p: nat): byte requires IsEntry(lb, p) { lb[Rest(lb, p) + 1] }
  function Phones(lb: seq<byte>, p: nat): seq<byte> requires IsEntry(lb, p) { lb[Rest(lb, p) + 2..End(lb, p)] }

  /** The pronunciation is left to the grapheme-to-phoneme rules. */
  predicate NeedsG2P(lb: seq<byte>, p: nat) requires IsEntry(lb, p) {
    2 < lb[Rest(lb, p)] && lb[Rest(lb, p) + 2] == NEEDS_G2P
  }

  /** The entry at `p` against a grapheme string. */
  method LexMatch(lb: seq<byte>, p: nat, graph: seq<byte>) returns (rv: int)
    requires IsEntry(lb, p)
    ensures rv == Cmp(Graph(lb, p), graph)
  {
    var lexlen := lb[p] - 1;
    ghost var lexgraph := Graph(lb, p);
    var i := 0;
    while i < |graph| && i < lexlen
      invariant i <= |graph| && i <= lexlen && lexgraph[..i] == graph[..i]
    {
      if lb[p + 1 + i] < graph[i] {
        CmpPrefix(lexgraph, graph, i);
        return -1;
      } else if lb[p + 1 + i] > graph[i] {
        CmpPrefix(lexgraph, graph, i);
        return 1;
      }
      assert lexgraph[..i + 1] == lexgraph[..i] + [lexgraph[i]] && graph[..i + 1] == graph[..i] + [graph[i]];
      i := i + 1;
    }
    CmpPrefix(lexgraph, graph, i);
    if |graph| == lexlen {
      return 0;
    } else if lexlen < |graph| {
      return -1;
    } else {
      return 1;
    }
  }

  // ---------------------------------------------------------------------------
  // The result record
  // ---------------------------------------------------------------------------

  /** Results are four bytes each: part of speech, and the position of the entry in three bytes. */
  datatype Found = Found(phonfound: bool, posindlen: nat, posind: seq<byte>, nrres: nat)

  function Index3(p: nat): seq<byte> { [p % 0x100, p / 0x100 % 0x100, p / 0x10000 % 0x100] }

  /** What one more entry makes of the results so far. */
  function Added(r: Found, lb: seq<byte>, p: nat): (r': Found)
    requires IsEntry(lb, p) && |r.posind| == 16 && r.nrres < MAX_NRRES
    ensures |r'.posind| == 16 && r'.nrres <= MAX_NRRES
  {
    if NeedsG2P(lb, p) then
      Found(false, 1, r.posind[0 := Pos(lb, p)], 1)
    else
      var i := r.nrres * POSIND_SIZE;
      Found(true, r.posindlen + POSIND_SIZE,
            r.posind[i := Pos(lb, p)][i + 1 := p % 0x100][i + 2 := p / 0x100 % 0x100][i + 3 := p / 0x10000 % 0x100],
            r.nrres + 1)
  }

  class LexResult {
    var phonfound: bool
    var posindlen: nat
    var posind: array<byte>
    var nrres: nat

    ghost function Value(): (r: Found)
      reads this, posind
      ensures |r.posind| == posind.Length
    {
      Found(phonfound, posindlen, posind[..], nrres)
    }

    constructor ()
      ensures posind.Length == 16 && fresh(posind)
    {
      phonfound, posindlen, nrres := false, 0, 0;
      posind := new byte[16];
    }

    /** Enters the entry at `p`. */
    method SetLexResult(lb: seq<byte>, p: nat)
      requires IsEntry(lb, p) && posind.Length == 16 && nrres < MAX_NRRES
      modifies this`phonfound, this`posindlen, this`nrres, posind
      ensures Value() == Added(old(Value()), lb, p)
    {
      if 2 < lb[p + lb[p]] && lb[p + lb[p] + 2] == NEEDS_G2P {
        posind[0] := lb[p + lb[p] + 1];
        phonfound := false;
        posindlen := 1;
        nrres := 1;
      } else {
        var i := nrres * POSIND_SIZE;
        posindlen := posindlen + POSIND_SIZE;
        phonfound := true;
        posind[i] := lb[p + lb[p] + 1];
        i := i + 1;
        posind[i] := p % 0x100;
        i := i + 1;
        posind[i] := p / 0x100 % 0x100;
        i := i + 1;
        posind[i] := p / 0x10000 % 0x100;
        nrres := nrres + 1;
      }
    }
  }

  // ---------------------------------------------------------------------------
  // What a lexicon has to look like
  // ---------------------------------------------------------------------------

  /** Position of entry `i`, or the end. */
  function At(ps: seq<nat>, i: nat, end: nat): nat { if i < |ps| then ps[i] else end }

  /** Entry `i` is followed by zeros up to the next one. */
  ghost predicate Followed(lb: seq<byte>, ps: seq<nat>, i: nat, end: nat) {
    && i < |ps| && IsEntry(lb, ps[i])
    && ps[i] < End(lb, ps[i]) <= At(ps, i + 1, end) <= end < |lb|
    && forall q :: End(lb, ps[i]) <= q < At(ps, i + 1, end) ==> lb[q] == 0
  }

  /** `ps` are the positions of all entries up to `end`. */
  ghost predicate Layout(lb: seq<byte>, ps: seq<nat>, end: nat) {
    && (ps != [] ==> ps[0] < end)
    && (forall i :: 0 <= i < |ps| ==> IsEntry(lb, ps[i]))
    && (forall i :: 0 <= i < |ps| ==> Followed(lb, ps, i, end))
  }

  /** Entry `i` does not come after entry `j`. */
  ghost predicate InOrder(lb: seq<byte>, ps: seq<nat>, i: nat, j: nat) {
    && i < |ps| && j < |ps| && IsEntry(lb, ps[i]) && IsEntry(lb, ps[j])
    && Cmp(Graph(lb, ps[i]), Graph(lb, ps[j])) <= 0
  }

  ghost predicate Sorted(lb: seq<byte>, ps: seq<nat>) {
    forall i, j :: 0 <= i < j < |ps| ==> InOrder(lb, ps, i, j)
  }

  /** The entries for a grapheme string, in order: the scan of all entries. */
  function Matching(lb: seq<byte>, ps: seq<nat>, graph: seq<byte>): (ms: seq<nat>)
    requires forall i :: 0 <= i < |ps| ==> IsEntry(lb, ps[i])
    ensures forall i :: 0 <= i < |ms| ==> IsEntry(lb, ms[i])
  {
    if ps == [] then []
    else (if Graph(lb, ps[0]) == graph then [ps[0]] else []) + Matching(lb, ps[1..], graph)
  }

  lemma {:induction false} MatchingMember(lb: seq<byte>, ps: seq<nat>, graph: seq<byte>, p: nat)
    requires forall i :: 0 <= i < |ps| ==> IsEntry(lb, ps[i])
    ensures p in Matching(lb, ps, graph) <==> p in ps && Graph(lb, p) == graph
  {
    if ps == [] {
    } else {
      MatchingMember(lb, ps[1..], graph, p);
    }
  }

  lemma {:induction false} MatchingConcat(lb: seq<byte>, ps: seq<nat>, qs: seq<nat>, graph: seq<byte>)
    requires forall i :: 0 <= i < |ps + qs| ==> IsEntry(lb, (ps + qs)[i])
    requires forall i :: 0 <= i < |ps| ==> IsEntry(lb, ps[i])
    requires forall i :: 0 <= i < |qs| ==> IsEntry(lb, qs[i])
    ensures Matching(lb, ps + qs, graph) == Matching(lb, ps, graph) + Matching(lb, qs, graph)
  {
    if ps == [] {
      assert ps + qs == qs;
    } else {
      assert (ps + qs)[1..] == ps[1..] + qs;
      MatchingConcat(lb, ps[1..], qs, graph);
    }
  }

  lemma {:induction false} NoMatch(lb: seq<byte>, ps: seq<nat>, graph: seq<byte>)
    requires forall i :: 0 <= i < |ps| ==> IsEntry(lb, ps[i]) && Graph(lb, ps[i]) != graph
    ensures Matching(lb, ps, graph) == []
  {
    if ps == [] {
    } else {
      NoMatch(lb, ps[1..], graph);
    }
  }

  /** The results of the first entries, up to four; nothing follows an entry without phones as the first one. */
  function Results(lb: seq<byte>, ms: seq<nat>, r: Found): (r': Found)
    requires (forall i :: 0 <= i < |ms| ==> IsEntry(lb, ms[i])) && |r.posind| == 16 && r.nrres < MAX_NRRES
    ensures |r'.posind| == 16
  {
    if ms == [] then r
    else
      var r1 := Added(r, lb, ms[0]);
      if r1.phonfound then More(lb, ms[1..], r1) else r1
  }

  function More(lb: seq<byte>, ms: seq<nat>, r: Found): (r': Found)
    requires (forall i :: 0 <= i < |ms| ==> IsEntry(lb, ms[i])) && |r.posind| == 16 && r.nrres <= MAX_NRRES
    ensures |r'.posind| == 16
  {
    if ms == [] || r.nrres == MAX_NRRES then r else More(lb, ms[1..], Added(r, lb, ms[0]))
  }

  // ---------------------------------------------------------------------------
  // Scanning blocks
  // ---------------------------------------------------------------------------

  /** Advances to the next entry, or to the end. */
  method NextEntry(lb: seq<byte>, p: nat, end: nat, ghost ps: seq<nat>, ghost i: nat) returns (q: nat)
    requires Layout(lb, ps, end) && i < |ps| && p == ps[i]
    ensures q == At(ps, i + 1, end) && p < q <= end < |lb| && (q < end <==> i + 1 < |ps|)
  {
    assert Followed(lb, ps, i, end) && (i + 1 < |ps| ==> Followed(lb, ps, i + 1, end));
    ghost var next := At(ps, i + 1, end);
    q := p + lb[p];
    q := q + lb[q];
    while lb[q] == 0 && q < end
      invariant End(lb, p) <= q <= next
      decreases end - q
    {
      q := q + 1;
    }
  }

  /** A stretch of the lexicon that can be scanned. */
  ghost predicate Scannable(lb: seq<byte>, ps: seq<nat>, end: nat) {
    Layout(lb, ps, end) && Sorted(lb, ps)
  }

  lemma SortedFrom(lb: seq<byte>, ps: seq<nat>, end: nat, i: nat, k: nat, graph: seq<byte>)
    requires Scannable(lb, ps, end) && i <= k < |ps| && Cmp(Graph(lb, ps[i]), graph) > 0
    ensures Graph(lb, ps[k]) != graph
  {
    CmpEqual(Graph(lb, ps[k]), graph);
    if i < k {
      assert InOrder(lb, ps, i, k);
    }
  }

  /** Entries behind one that comes after the grapheme string do not match. */
  lemma NoLaterMatch(lb: seq<byte>, ps: seq<nat>, end: nat, i: nat, graph: seq<byte>)
    requires Scannable(lb, ps, end) && i <= |ps| && (i < |ps| ==> Cmp(Graph(lb, ps[i]), graph) > 0)
    ensures Matching(lb, ps[i..], graph) == []
  {
    var qs := ps[i..];
    forall k | 0 <= k < |qs| ensures IsEntry(lb, qs[k]) && Graph(lb, qs[k]) != graph {
      assert qs[k] == ps[i + k];
      if i < |ps| {
        CmpEqual(Graph(lb, ps[i]), graph);
        SortedFrom(lb, ps, end, i, i + k, graph);
      }
    }
    NoMatch(lb, qs, graph);
  }

  lemma MatchingFrom(lb: seq<byte>, ps: seq<nat>, end: nat, i: nat, graph: seq<byte>)
    requires Scannable(lb, ps, end) && i < |ps|
    ensures Matching(lb, ps[i..], graph)
         == (if Cmp(Graph(lb, ps[i]), graph) == 0 then [ps[i]] else []) + Matching(lb, ps[i + 1..], graph)
  {
    CmpEqual(Graph(lb, ps[i]), graph);
    assert ps[i..][1..] == ps[i + 1..];
  }

  /** Behind a matching entry, the next one matches or none does. */
  lemma NextMatches(lb: seq<byte>, ps: seq<nat>, end: nat, i: nat, graph: seq<byte>)
    requires Scannable(lb, ps, end) && i + 1 < |ps| && Graph(lb, ps[i]) == graph
    ensures Matching(lb, ps[i + 1..], graph)
         == if Cmp(Graph(lb, ps[i + 1]), graph) == 0 then [ps[i + 1]] + Matching(lb, ps[i + 2..], graph) else []
  {
    var (g, h) := (Graph(lb, ps[i]), Graph(lb, ps[i + 1]));
    assert InOrder(lb, ps, i, i + 1);
    CmpSwap(g, h);
    if Cmp(h, g) == 0 {
      MatchingFrom(lb, ps, end, i + 1, graph);
    } else {
      NoLaterMatch(lb, ps, end, i + 1, graph);
    }
  }

  /** Advances from a matching entry to the next one that matches, or to the end. */
  method NextMatch(lb: seq<byte>, p: nat, end: nat, graph: seq<byte>, ghost ps: seq<nat>, ghost i: nat)
    returns (q: nat, ghost ms: seq<nat>)
    requires Scannable(lb, ps, end) && i < |ps| && p == ps[i] && Graph(lb, p) == graph
    ensures p < q <= end < |lb|
    ensures if q < end then i + 1 < |ps| && q == ps[i + 1] && Graph(lb, q) == graph
                            && ms == Matching(lb, ps[i + 2..], graph) && Matching(lb, ps[i + 1..], graph) == [q] + ms
            else Matching(lb, ps[i + 1..], graph) == []
  {
    q := NextEntry(lb, p, end, ps, i);
    if q < end {
      NextMatches(lb, ps, end, i, graph);
      CmpEqual(Graph(lb, q), graph);
      ms := Matching(lb, ps[i + 2..], graph);
      var rv := LexMatch(lb, q, graph);
      if rv != 0 {
        q := end;
      }
    } else {
      NoLaterMatch(lb, ps, end, |ps|, graph);
      ms := [];
    }
  }

  /** Collects further entries with the same grapheme string. */
  method LookForMore(lb: seq<byte>, p: nat, end: nat, graph: seq<byte>, lexres: LexResult, ghost ps: seq<nat>,
        ghost i0: nat)
    requires Scannable(lb, ps, end) && i0 < |ps| && p == ps[i0] && p < end && Graph(lb, p) == graph
    requires lexres.posind.Length == 16 && lexres.nrres <= MAX_NRRES
    modifies lexres`phonfound, lexres`posindlen, lexres`nrres, lexres.posind
    ensures lexres.Value() == More(lb, Matching(lb, ps[i0 + 1..], graph), old(lexres.Value()))
  {
    var lexpos := p;
    ghost var i: nat := i0;
    ghost var ms := Matching(lb, ps[i0 + 1..], graph);
    ghost var goal := More(lb, ms, lexres.Value());
    while lexres.nrres < MAX_NRRES && lexpos < end
      invariant lexres.nrres <= MAX_NRRES && lexpos <= end
      invariant lexpos < end ==>
                  i < |ps| && lexpos == ps[i] && Graph(lb, lexpos) == graph && ms == Matching(lb, ps[i + 1..], graph)
      invariant lexpos == end ==> ms == []
      invariant goal == More(lb, ms, lexres.Value())
      decreases end - lexpos
    {
      lexpos, ms := NextMatch(lb, lexpos, end, graph, ps, i);
      i := i + 1;
      if lexpos < end {
        lexres.SetLexResult(lb, lexpos);
      } else {
        ms := [];
      }
    }
  }

  /** Scans the entries from `start` to `end`. */
  method LexblockLookup(lb: seq<byte>, start: nat, end: nat, graph: seq<byte>, lexres: LexResult, ghost qs: seq<nat>)
    requires Scannable(lb, qs, end) && |qs| > 0 && qs[0] == start && lexres.posind.Length == 16
    modifies lexres`phonfound, lexres`posindlen, lexres`nrres, lexres.posind
    ensures lexres.Value() == Results(lb, Matching(lb, qs, graph), old(lexres.Value()).(nrres := 0))
  {
    lexres.nrres := 0;
    ghost var v0 := lexres.Value();
    ghost var goal := Results(lb, Matching(lb, qs, graph), v0);
    var lexpos, rv := start, -1;
    ghost var i: nat := 0;
    assert qs[0..] == qs;
    while rv < 0 && lexpos < end
      invariant rv < 0 ==> i <= |qs| && lexpos == At(qs, i, end) && lexres.Value() == v0
      invariant rv < 0 ==> (lexpos < end <==> i < |qs|) && Matching(lb, qs, graph) == Matching(lb, qs[i..], graph)
      invariant rv >= 0 ==> lexres.Value() == goal
      decreases if rv < 0 then end - lexpos + 1 else 0
    {
      rv := LexMatch(lb, lexpos, graph);
      MatchingFrom(lb, qs, end, i, graph);
      if rv == 0 {
        CmpEqual(Graph(lb, lexpos), graph);
        lexres.SetLexResult(lb, lexpos);
        if lexres.phonfound {
          LookForMore(lb, lexpos, end, graph, lexres, qs, i);
        }
      } else if rv < 0 {
        lexpos := NextEntry(lb, lexpos, end, qs, i);
        i := i + 1;
      } else {
        NoLaterMatch(lb, qs, end, i, graph);
      }
    }
    if rv < 0 { NoLaterMatch(lb, qs, end, |qs|, graph); }
  }

  // ---------------------------------------------------------------------------
  // The block index
  // ---------------------------------------------------------------------------

  /** `vals` are the prefixes in the index, and the value read behind them. */
  ghost predicate IsIndex(lex: Lexicon, vals: seq<nat>) {
    && lex.Valid() && lex.nrblocks > 0 && |vals| == lex.nrblocks + 1
    && forall b :: 0 <= b <= lex.nrblocks ==> IndexAt(lex, vals, b)
  }

  ghost predicate IndexAt(lex: Lexicon, vals: seq<nat>, b: nat) {
    lex.Valid() && lex.nrblocks > 0 && b < |vals| && b <= lex.nrblocks && vals[b] == lex.SearchIndexVal(b)
  }

  /** The index is sorted, its first two prefixes differ, and so do the last and what follows. */
  ghost predicate Searchable(vals: seq<nat>) {
    && |vals| >= 2
    && (forall b, c :: 0 <= b < c < |vals| - 1 ==> vals[b] <= vals[c])
    && (|vals| > 2 ==> vals[0] != vals[1])
    && vals[|vals| - 1] != vals[|vals| - 2]
  }

  /** The first of the blocks whose prefix is the highest one up to `key`; only the last block, if all prefixes are
      below. */
  ghost predicate IsFirstBlock(vals: seq<nat>, key: nat, nr: nat) {
    && nr < |vals| - 1 && vals[nr] <= key
    && (forall b :: nr < b < |vals| - 1 ==> vals[b] == vals[nr] || vals[b] > key)
    && (vals[|vals| - 2] >= key ==> forall b :: 0 <= b < nr ==> vals[b] < vals[nr])
  }

  /** Number of prefixes below `searchval`, by binary search. */
  method LowerBound(lex: Lexicon, searchval: nat, ghost vals: seq<nat>) returns (low: nat)
    requires IsIndex(lex, vals) && Searchable(vals)
    ensures low <= lex.nrblocks
    ensures forall b :: 0 <= b < low ==> vals[b] < searchval
    ensures forall b :: low <= b < lex.nrblocks ==> vals[b] >= searchval
  {
    low := 0;
    var high := lex.nrblocks;
    while low < high
      invariant 0 <= low <= high <= lex.nrblocks
      invariant forall b :: 0 <= b < low ==> vals[b] < searchval
      invariant forall b :: high <= b < lex.nrblocks ==> vals[b] >= searchval
    {
      var mid := (low + high) / 2;
      var indval := lex.SearchIndexVal(mid);
      assert IndexAt(lex, vals, mid);
      if indval < searchval {
        low := mid + 1;
      } else {
        high := mid;
      }
    }
  }

  /** Below the first prefix, there is no such block: the result wraps around to 65535. */
  method GetLexblockNr(lex: Lexicon, graphsi: seq<byte>, ghost vals: seq<nat>) returns (nr: nat)
    requires IsIndex(lex, vals) && Searchable(vals) && |graphsi| == 3
    ensures if vals[0] <= Key3(graphsi) then IsFirstBlock(vals, Key3(graphsi), nr) else nr == 0xffff
  {
    var searchval := Three(graphsi[0], graphsi[1], graphsi[2]);
    nr := LowerBound(lex, searchval, vals);
    if nr < lex.nrblocks {
      var indval := lex.SearchIndexVal(nr);
      assert IndexAt(lex, vals, nr);
      if indval > searchval {
        if nr == 0 {
          return 0xffff;
        }
        nr := nr - 1;
        if nr > 0 {
          nr := FirstOfRun(lex, nr, vals);
        }
      }
    } else {
      nr := lex.nrblocks - 1;
    }
  }

  /** So it does for "A" in a lexicon of one block, entries of which start with "a" (and the block with the length of
      the first one). */
  method UpperCaseKeyWraps(block: seq<byte>) returns (lex: Lexicon, nr: nat)
    requires |block| == 513 && block[0] != 97
    ensures lex == Lexicon(1, [97, 0, 0, 0, 0] + block, block) && lex.Valid() && nr == 0xffff
  {
    var ind: seq<byte> := [97, 0, 0, 0, 0];
    lex := Lexicon(1, ind + block, block);
    assert (ind + block)[5..] == block;
    BehindIndex(lex);
    assert lex.searchind[0] == 97 && lex.searchind[1] == 0 && lex.searchind[2] == 0;
    nr := KeyBelowPrefix(lex, [65, 0, 0]);
  }

  /** In a lexicon of one block, for any key below its prefix. */
  method KeyBelowPrefix(lex: Lexicon, key: seq<byte>) returns (nr: nat)
    requires lex.Valid() && lex.nrblocks == 1 && lex.SearchIndexVal(0) != lex.SearchIndexVal(1)
    requires |key| == 3 && Key3(key) < lex.SearchIndexVal(0)
    ensures nr == 0xffff
  {
    ghost var vals := [lex.SearchIndexVal(0), lex.SearchIndexVal(1)];
    assert forall b :: 0 <= b <= 1 ==> IndexAt(lex, vals, b);
    nr := GetLexblockNr(lex, key, vals);
  }

  /** Moves to the first block with the same prefix. */
  method FirstOfRun(lex: Lexicon, nr: nat, ghost vals: seq<nat>) returns (low: nat)
    requires IsIndex(lex, vals) && 0 < nr < lex.nrblocks && Searchable(vals)
    ensures 0 < low <= nr && vals[low - 1] < vals[low] == vals[nr]
  {
    low := nr;
    var indval := lex.SearchIndexVal(low);
    assert IndexAt(lex, vals, nr) && IndexAt(lex, vals, nr - 1);
    while indval == lex.SearchIndexVal(low - 1)
      invariant 0 < low <= nr && vals[low] == indval && IndexAt(lex, vals, low - 1)
      decreases low
    {
      low := low - 1;
      assert low > 0 ==> IndexAt(lex, vals, low - 1);
    }
  }

  /** The number of blocks from `index` on with the same prefix. */
  method GetLexblockRange(lex: Lexicon, index: nat, ghost vals: seq<nat>) returns (count: nat)
    requires IsIndex(lex, vals) && index < lex.nrblocks && Searchable(vals)
    ensures 1 <= count && index + count <= lex.nrblocks
    ensures forall b :: index <= b < index + count ==> vals[b] == vals[index]
    ensures vals[index + count] != vals[index]
  {
    var sval1 := lex.SearchIndexVal(index);
    var i := index + 1;
    var sval2 := lex.SearchIndexVal(i);
    assert IndexAt(lex, vals, index) && IndexAt(lex, vals, i);
    count := 1;
    while sval1 == sval2
      invariant 1 <= count && i == index + count <= lex.nrblocks && sval2 == vals[i]
      invariant forall b :: index <= b < index + count ==> vals[b] == sval1
      decreases lex.nrblocks - i
    {
      assert i < lex.nrblocks by { assert vals[i - 1] == sval1; }
      count := count + 1;
      i := i + 1;
      sval2 := lex.SearchIndexVal(i);
      assert IndexAt(lex, vals, i);
    }
  }

  // ---------------------------------------------------------------------------
  // Lookup
  // ---------------------------------------------------------------------------

  /** Entry `starts[b]` is the first one of block b. */
  ghost predicate BlockStarts(nrblocks: nat, ps: seq<nat>, starts: seq<nat>) {
    && |starts| == nrblocks + 1 && starts[0] == 0 && starts[nrblocks] == |ps|
    && (forall b, c :: 0 <= b < c <= nrblocks ==> Earlier(starts, b, c))
    && (forall b :: 0 <= b < nrblocks ==> StartsBlock(ps, starts, b))
  }

  ghost predicate Earlier(starts: seq<nat>, b: nat, c: nat) { b < |starts| && c < |starts| && starts[b] < starts[c] }

  ghost predicate StartsBlock(ps: seq<nat>, starts: seq<nat>, b: nat) {
    b < |starts| && starts[b] < |ps| && ps[starts[b]] == 512 * b
  }

  /** Entry `i` is in block b. */
  ghost predicate InBlock(starts: seq<nat>, i: nat, b: nat) {
    b + 1 < |starts| && starts[b] <= i < starts[b + 1]
  }

  /** The index has the prefix of the first entry of block b. */
  ghost predicate HasPrefix(lb: seq<byte>, ps: seq<nat>, starts: seq<nat>, vals: seq<nat>, b: nat) {
    && b < |vals| == |starts| && starts[b] < |ps| && IsEntry(lb, ps[starts[b]])
    && vals[b] == Key3(Graph(lb, ps[starts[b]]))
  }

  /** If entry `i` in block b has the prefix of block c, then so has block b. */
  ghost predicate Unambiguous(lb: seq<byte>, ps: seq<nat>, starts: seq<nat>, vals: seq<nat>, i: nat, b: nat, c: nat) {
    i < |ps| && IsEntry(lb, ps[i]) && InBlock(starts, i, b) && b < |vals| && c < |vals| - 1 ==>
      Key3(Graph(lb, ps[i])) == vals[c] ==> vals[b] == vals[c]
  }

  ghost predicate Indexed(lb: seq<byte>, ps: seq<nat>, starts: seq<nat>, vals: seq<nat>) {
    && |vals| == |starts| > 0
    && (forall b :: 0 <= b < |vals| - 1 ==> HasPrefix(lb, ps, starts, vals, b))
    && (forall i, b, c :: Unambiguous(lb, ps, starts, vals, i, b, c))
  }

  /**
   A lexicon: sorted entries in blocks, an index with the prefix of the first entry of each block, and no entry
   with the prefix of some block in a block with another prefix.
   */
  ghost predicate WellFormed(lb: seq<byte>, nrblocks: nat, ps: seq<nat>, starts: seq<nat>, vals: seq<nat>) {
    && Searchable(vals)
    && Scannable(lb, ps, 512 * nrblocks)
    && BlockStarts(nrblocks, ps, starts)
    && Indexed(lb, ps, starts, vals)
  }

  lemma {:induction false} FindBlock(starts: seq<nat>, i: nat, n: nat) returns (b: nat)
    requires n < |starts| && starts[0] == 0 && i < starts[n]
    ensures b < n && InBlock(starts, i, b)
  {
    if starts[n - 1] <= i { b := n - 1; } else { b := FindBlock(starts, i, n - 1); }
  }

  /** The prefix of an entry is not below the prefix of its block, and not above that of the next one. */
  lemma PrefixOfBlock(lb: seq<byte>, nrblocks: nat, ps: seq<nat>, starts: seq<nat>, vals: seq<nat>, i: nat, b: nat)
    requires WellFormed(lb, nrblocks, ps, starts, vals)
    requires i < |ps| && InBlock(starts, i, b)
    ensures vals[b] <= Key3(Graph(lb, ps[i])) && (b + 1 < |vals| - 1 ==> Key3(Graph(lb, ps[i])) <= vals[b + 1])
  {
    assert HasPrefix(lb, ps, starts, vals, b);
    if starts[b] < i {
      assert InOrder(lb, ps, starts[b], i);
      Key3Monotone(Graph(lb, ps[starts[b]]), Graph(lb, ps[i]));
    }
    if b + 1 < |vals| - 1 {
      assert HasPrefix(lb, ps, starts, vals, b + 1);
      assert InOrder(lb, ps, i, starts[b + 1]);
      Key3Monotone(Graph(lb, ps[i]), Graph(lb, ps[starts[b + 1]]));
    }
  }

  /** Which blocks can hold an entry with the prefix `key`. */
  lemma BlockInRange(vals: seq<nat>, key: nat, nr: nat, count: nat, b: nat)
    requires Searchable(vals) && IsFirstBlock(vals, key, nr) && 1 <= count && nr + count < |vals|
    requires vals[nr + count] != vals[nr]
    requires b < |vals| - 1 && vals[b] <= key && (b + 1 < |vals| - 1 ==> key <= vals[b + 1])
    requires vals[nr] == key ==> vals[b] == key
    ensures nr <= b < nr + count
  {
  }

  /** All entries for a grapheme string are in the blocks that are scanned. */
  lemma MatchInRange(lb: seq<byte>, nrblocks: nat, ps: seq<nat>, starts: seq<nat>, vals: seq<nat>,
                     key: nat, nr: nat, count: nat, i: nat)
    requires WellFormed(lb, nrblocks, ps, starts, vals)
    requires IsFirstBlock(vals, key, nr) && 1 <= count && nr + count < |vals|
    requires vals[nr + count] != vals[nr]
    requires i < |ps| && Key3(Graph(lb, ps[i])) == key
    ensures starts[nr] <= i < starts[nr + count]
  {
    var b := FindBlock(starts, i, nrblocks);
    PrefixOfBlock(lb, nrblocks, ps, starts, vals, i, b);
    assert Unambiguous(lb, ps, starts, vals, i, b, nr);
    BlockInRange(vals, key, nr, count, b);
    assert b == nr || Earlier(starts, nr, b);
    assert b + 1 == nr + count || Earlier(starts, b + 1, nr + count);
  }

  /** A part of the lexicon that consists of whole blocks can be scanned. */
  lemma ScannablePart(lb: seq<byte>, ps: seq<nat>, end: nat, i0: nat, i1: nat, qs: seq<nat>)
    requires Scannable(lb, ps, end) && i0 <= i1 <= |ps| && qs == ps[i0..i1]
    ensures Scannable(lb, qs, At(ps, i1, end))
  {
    LayoutPart(lb, ps, end, i0, i1, qs);
    forall i, j | 0 <= i < j < |qs| ensures InOrder(lb, qs, i, j) {
      assert InOrder(lb, ps, i0 + i, i0 + j);
    }
  }

  lemma LayoutPart(lb: seq<byte>, ps: seq<nat>, end: nat, i0: nat, i1: nat, qs: seq<nat>)
    requires Layout(lb, ps, end) && i0 <= i1 <= |ps| && qs == ps[i0..i1]
    ensures Layout(lb, qs, At(ps, i1, end))
  {
    forall k | 0 <= k < |qs| ensures Followed(lb, qs, k, At(ps, i1, end)) {
      FollowedUpTo(lb, ps, end, i0 + k, i1);
    }
    if i0 < i1 { FollowedUpTo(lb, ps, end, i0, i1); }
  }

  lemma {:induction false} FollowedUpTo(lb: seq<byte>, ps: seq<nat>, end: nat, i: nat, i1: nat)
    requires Layout(lb, ps, end) && i < i1 <= |ps|
    ensures Followed(lb, ps, i, end) && End(lb, ps[i]) <= At(ps, i + 1, end) <= At(ps, i1, end) <= end
            && ps[i] < At(ps, i1, end)
    decreases i1 - i
  {
    assert Followed(lb, ps, i, end);
    if i + 1 < i1 {
      FollowedUpTo(lb, ps, end, i + 1, i1);
    } else if i1 < |ps| {
      assert Followed(lb, ps, i1, end);
    }
  }

  lemma MatchesInMiddle(lb: seq<byte>, left: seq<nat>, mid: seq<nat>, right: seq<nat>, graph: seq<byte>)
    requires forall i :: 0 <= i < |left + (mid + right)| ==> IsEntry(lb, (left + (mid + right))[i])
    requires forall i :: 0 <= i < |mid + right| ==> IsEntry(lb, (mid + right)[i])
    requires forall i :: 0 <= i < |left| ==> IsEntry(lb, left[i]) && Graph(lb, left[i]) != graph
    requires forall i :: 0 <= i < |mid| ==> IsEntry(lb, mid[i])
    requires forall i :: 0 <= i < |right| ==> IsEntry(lb, right[i]) && Graph(lb, right[i]) != graph
    ensures Matching(lb, left + (mid + right), graph) == Matching(lb, mid, graph)
  {
    NoMatch(lb, left, graph);
    NoMatch(lb, right, graph);
    MatchingConcat(lb, mid, right, graph);
    MatchingConcat(lb, left, mid + right, graph);
  }

  /** The matches are those in the part that is scanned. */
  lemma MatchesInPart(lb: seq<byte>, ps: seq<nat>, i0: nat, i1: nat, graph: seq<byte>)
    requires (forall i :: 0 <= i < |ps| ==> IsEntry(lb, ps[i])) && i0 <= i1 <= |ps|
    requires forall i :: 0 <= i < |ps| && Graph(lb, ps[i]) == graph ==> i0 <= i < i1
    ensures Matching(lb, ps, graph) == Matching(lb, ps[i0..i1], graph)
  {
    assert ps[i0..] == ps[i0..i1] + ps[i1..] && ps == ps[..i0] + (ps[i0..i1] + ps[i1..]);
    MatchesInMiddle(lb, ps[..i0], ps[i0..i1], ps[i1..], graph);
  }

  /** Scanning the blocks with the prefix of the grapheme string finds all its entries. */
  lemma PartSuffices(lb: seq<byte>, nrblocks: nat, ps: seq<nat>, starts: seq<nat>, vals: seq<nat>,
                     nr: nat, count: nat, graph: seq<byte>, i0: nat, i1: nat, end: nat)
    requires WellFormed(lb, nrblocks, ps, starts, vals)
    requires IsFirstBlock(vals, Key3(graph), nr) && 1 <= count && nr + count < |vals|
    requires vals[nr + count] != vals[nr]
    requires i0 == starts[nr] < i1 == starts[nr + count] <= |ps| && end == At(ps, i1, 512 * nrblocks)
    ensures Scannable(lb, ps[i0..i1], end) && Matching(lb, ps, graph) == Matching(lb, ps[i0..i1], graph)
  {
    forall i | 0 <= i < |ps| && Graph(lb, ps[i]) == graph ensures i0 <= i < i1 {
      MatchInRange(lb, nrblocks, ps, starts, vals, Key3(graph), nr, count, i);
    }
    ScannablePart(lb, ps, 512 * nrblocks, i0, i1, ps[i0..i1]);
    MatchesInPart(lb, ps, i0, i1, graph);
  }

  lemma BlockBounds(nrblocks: nat, ps: seq<nat>, starts: seq<nat>, nr: nat, count: nat)
    requires BlockStarts(nrblocks, ps, starts) && 1 <= count && nr + count <= nrblocks
    ensures starts[nr] < starts[nr + count] <= |ps| && ps[starts[nr]] == 512 * nr
    ensures At(ps, starts[nr + count], 512 * nrblocks) == 512 * nr + 512 * count
  {
    assert Earlier(starts, nr, nr + count) && StartsBlock(ps, starts, nr);
    if nr + count < nrblocks { assert Earlier(starts, nr + count, nrblocks) && StartsBlock(ps, starts, nr + count); }
  }

  /** The blocks to scan for a grapheme string. */
  method FindBlocks(lex: Lexicon, graph: seq<byte>, ghost vals: seq<nat>) returns (nr: nat, count: nat)
    requires IsIndex(lex, vals) && Searchable(vals) && vals[0] <= Key3(graph)
    ensures IsFirstBlock(vals, Key3(graph), nr) && 1 <= count && nr + count < |vals| && vals[nr + count] != vals[nr]
  {
    var tgraph := [Padded(graph, 0), Padded(graph, 1), Padded(graph, 2)];
    nr := GetLexblockNr(lex, tgraph, vals);
    count := GetLexblockRange(lex, nr, vals);
  }

  /** Scanning these blocks is as good as scanning all. */
  lemma BlocksSuffice(lb: seq<byte>, nrblocks: nat, ps: seq<nat>, starts: seq<nat>, vals: seq<nat>,
                      nr: nat, count: nat, graph: seq<byte>) returns (qs: seq<nat>)
    requires WellFormed(lb, nrblocks, ps, starts, vals)
    requires IsFirstBlock(vals, Key3(graph), nr) && 1 <= count && nr + count < |vals| && vals[nr + count] != vals[nr]
    ensures Scannable(lb, qs, 512 * nr + 512 * count) && |qs| > 0 && qs[0] == 512 * nr
    ensures Matching(lb, ps, graph) == Matching(lb, qs, graph)
  {
    BlockBounds(nrblocks, ps, starts, nr, count);
    var (i0, i1) := (starts[nr], starts[nr + count]);
    PartSuffices(lb, nrblocks, ps, starts, vals, nr, count, graph, i0, i1, 512 * nr + 512 * count);
    qs := ps[i0..i1];
  }

  lemma IndexSearchable(lb: seq<byte>, nrblocks: nat, ps: seq<nat>, starts: seq<nat>, vals: seq<nat>)
    requires WellFormed(lb, nrblocks, ps, starts, vals)
    ensures Searchable(vals)
  {
  }

  /** The part of the lexicon to scan. */
  method PartFor(lex: Lexicon, graph: seq<byte>, ghost ps: seq<nat>, ghost starts: seq<nat>, ghost vals: seq<nat>)
    returns (start: nat, end: nat, ghost qs: seq<nat>)
    requires WellFormed(lex.lexblocks, lex.nrblocks, ps, starts, vals) && IsIndex(lex, vals) && vals[0] <= Key3(graph)
    ensures Scannable(lex.lexblocks, qs, end) && |qs| > 0 && qs[0] == start
    ensures Matching(lex.lexblocks, ps, graph) == Matching(lex.lexblocks, qs, graph)
  {
    hide *;
    IndexSearchable(lex.lexblocks, lex.nrblocks, ps, starts, vals);
    var nr, count := FindBlocks(lex, graph, vals);
    qs := BlocksSuffice(lex.lexblocks, lex.nrblocks, ps, starts, vals, nr, count, graph);
    start := 512 * nr;
    end := start + 512 * count;
  }

  /** Looks up a grapheme string: the results are those of the scan of all entries. */
  method LexLookup(lex: Lexicon, graph: seq<byte>, lexres: LexResult,
                   ghost ps: seq<nat>, ghost starts: seq<nat>, ghost vals: seq<nat>)
    returns (found: bool)
    requires lexres.posind.Length == 16
    requires lex.nrblocks > 0 ==>
               WellFormed(lex.lexblocks, lex.nrblocks, ps, starts, vals) && IsIndex(lex, vals) && vals[0] <= Key3(graph)
    modifies lexres`phonfound, lexres`posindlen, lexres`nrres, lexres.posind
    ensures found == (lexres.nrres > 0)
    ensures var none := Found(false, 0, old(lexres.posind[..]), 0);
            lexres.Value() == if lex.nrblocks == 0 then none
                              else Results(lex.lexblocks, Matching(lex.lexblocks, ps, graph), none)
  {
    lexres.nrres := 0;
    lexres.posindlen := 0;
    lexres.phonfound := false;
    if lex.nrblocks == 0 {
      return false;
    }
    var start, end, qs := PartFor(lex, graph, ps, starts, vals);
    LexblockLookup(lex.lexblocks, start, end, graph, lexres, qs);
    return lexres.nrres > 0;
  }

  /** A grapheme string below the first prefix has no entry, so nothing is lost where the search cannot be used. */
  lemma BelowFirstPrefix(lb: seq<byte>, nrblocks: nat, ps: seq<nat>, starts: seq<nat>, vals: seq<nat>, graph: seq<byte>)
    requires WellFormed(lb, nrblocks, ps, starts, vals) && Key3(graph) < vals[0]
    ensures Matching(lb, ps, graph) == []
  {
    assert HasPrefix(lb, ps, starts, vals, 0);
    forall i | 0 <= i < |ps| ensures Graph(lb, ps[i]) != graph {
      if i > 0 {
        assert InOrder(lb, ps, 0, i);
        Key3Monotone(Graph(lb, ps[0]), Graph(lb, ps[i]));
      }
    }
    NoMatch(lb, ps, graph);
  }

  // ---------------------------------------------------------------------------
  // What is in the results
  // ---------------------------------------------------------------------------

  /** Four bytes for each entry. */
  function Encoded(lb: seq<byte>, ms: seq<nat>): (bytes: seq<byte>)
    requires forall i :: 0 <= i < |ms| ==> IsEntry(lb, ms[i])
    ensures |bytes| == 4 * |ms|
  {
    if ms == [] then [] else [Pos(lb, ms[0])] + Index3(ms[0]) + Encoded(lb, ms[1..])
  }

  lemma AddedPlain(lb: seq<byte>, p: nat, r: Found)
    requires IsEntry(lb, p) && !NeedsG2P(lb, p) && |r.posind| == 16 && r.nrres < MAX_NRRES
    ensures var r' := Added(r, lb, p);
            && r'.phonfound && r'.nrres == r.nrres + 1 && r'.posindlen == r.posindlen + 4
            && Bytes(r') == Bytes(r) + ([Pos(lb, p)] + Index3(p))
  {
  }

  /** Number of results taken from `n` matches when there is room for `room`. */
  function Taken(n: nat, room: nat): nat { if n < room then n else room }

  lemma EncodedFirst(lb: seq<byte>, ms: seq<nat>, k: nat)
    requires (forall i :: 0 <= i < |ms| ==> IsEntry(lb, ms[i])) && 0 < k <= |ms|
    ensures Encoded(lb, ms[..k]) == ([Pos(lb, ms[0])] + Index3(ms[0])) + Encoded(lb, ms[1..][..k - 1])
  {
    assert ms[..k][1..] == ms[1..][..k - 1] && ms[..k][0] == ms[0];
  }

  /** The bytes of the results so far. */
  function Bytes(r: Found): seq<byte> requires |r.posind| == 16 && r.nrres <= MAX_NRRES { r.posind[..4 * r.nrres] }

  /** One more result, and the rest. */
  lemma MoreStep(lb: seq<byte>, ms: seq<nat>, r: Found) returns (r1: Found)
    requires (forall i :: 0 <= i < |ms| ==> IsEntry(lb, ms[i])) && ms != [] && !NeedsG2P(lb, ms[0])
    requires |r.posind| == 16 && r.nrres < MAX_NRRES
    ensures r1 == Added(r, lb, ms[0])
    ensures |r1.posind| == 16 && r1.phonfound && r1.nrres == r.nrres + 1 && r1.posindlen == r.posindlen + 4
    ensures More(lb, ms, r) == More(lb, ms[1..], r1)
    ensures Bytes(r1) == Bytes(r) + ([Pos(lb, ms[0])] + Index3(ms[0]))
  {
    r1 := Added(r, lb, ms[0]);
    AddedPlain(lb, ms[0], r);
  }

  /** None of the first `k` matches is left to the rules. */
  ghost predicate PlainUpTo(lb: seq<byte>, ms: seq<nat>, k: nat) {
    k <= |ms| && forall i :: 0 <= i < k ==> IsEntry(lb, ms[i]) && !NeedsG2P(lb, ms[i])
  }

  lemma {:induction false} MorePlain(lb: seq<byte>, ms: seq<nat>, r: Found, r': Found, k: nat)
    requires (forall i :: 0 <= i < |ms| ==> IsEntry(lb, ms[i])) && PlainUpTo(lb, ms, k)
    requires |r.posind| == 16 && r.nrres <= MAX_NRRES && r' == More(lb, ms, r) && k == Taken(|ms|, MAX_NRRES - r.nrres)
    ensures r'.nrres == r.nrres + k && r'.posindlen == r.posindlen + 4 * k && (r.phonfound ==> r'.phonfound)
    ensures Bytes(r') == Bytes(r) + Encoded(lb, ms[..k])
  {
    if k == 0 {
      assert ms[..0] == [];
    } else {
      var r1 := MoreStep(lb, ms, r);
      MorePlain(lb, ms[1..], r1, r', k - 1);
      EncodedFirst(lb, ms, k);
      Associative(Bytes(r), [Pos(lb, ms[0])] + Index3(ms[0]), Encoded(lb, ms[1..][..k - 1]));
    }
  }

  lemma Associative(a: seq<byte>, b: seq<byte>, c: seq<byte>)
    ensures (a + b) + c == a + (b + c)
  {
  }

  /** The results are the part of speech and the position of the first `k` matches. */
  ghost predicate ArePlain(lb: seq<byte>, ms: seq<nat>, r: Found, k: nat) {
    && |r.posind| == 16 && k <= |ms| && k <= MAX_NRRES && (forall i :: 0 <= i < |ms| ==> IsEntry(lb, ms[i]))
    && r.nrres == k && (r.phonfound <==> k > 0) && r.posindlen == 4 * k && r.posind[..4 * k] == Encoded(lb, ms[..k])
  }

  lemma FirstPlain(lb: seq<byte>, ms: seq<nat>, posind: seq<byte>)
    requires (forall i :: 0 <= i < |ms| ==> IsEntry(lb, ms[i])) && |posind| == 16
    requires PlainUpTo(lb, ms, Taken(|ms|, MAX_NRRES))
    ensures ArePlain(lb, ms, Results(lb, ms, Found(false, 0, posind, 0)), Taken(|ms|, MAX_NRRES))
  {
    var r := Found(false, 0, posind, 0);
    if ms != [] {
      var r1 := MoreStep(lb, ms, r);
      assert PlainUpTo(lb, ms[1..], Taken(|ms| - 1, MAX_NRRES - 1));
      MorePlain(lb, ms, r, More(lb, ms, r), Taken(|ms|, MAX_NRRES));
      MorePlain(lb, ms[1..], r1, Results(lb, ms, r), Taken(|ms| - 1, MAX_NRRES - 1));
    }
  }

  /** Behind an entry for the rules, the length of the results is never a multiple of four again. */
  lemma {:induction false} LengthStaysOdd(lb: seq<byte>, ms: seq<nat>, r: Found)
    requires (forall i :: 0 <= i < |ms| ==> IsEntry(lb, ms[i])) && |r.posind| == 16 && r.nrres <= MAX_NRRES
    requires r.posindlen % 4 == 1
    ensures More(lb, ms, r).posindlen % 4 == 1
  {
    if ms == [] || r.nrres == MAX_NRRES {
    } else {
      LengthStaysOdd(lb, ms[1..], Added(r, lb, ms[0]));
    }
  }

  lemma {:induction false} MoreMixed(lb: seq<byte>, ms: seq<nat>, r: Found, i: nat)
    requires (forall j :: 0 <= j < |ms| ==> IsEntry(lb, ms[j])) && |r.posind| == 16
    requires i < |ms| && r.nrres + i < MAX_NRRES && NeedsG2P(lb, ms[i])
    ensures More(lb, ms, r).posindlen % 4 == 1
    decreases i
  {
    var r1 := Added(r, lb, ms[0]);
    if NeedsG2P(lb, ms[0]) {
      LengthStaysOdd(lb, ms[1..], r1);
    } else {
      MoreMixed(lb, ms[1..], r1, i - 1);
    }
  }

  /** The results are the first matches, up to four, exactly if none of these is left to the rules. */
  lemma ResultsPlain(lb: seq<byte>, ms: seq<nat>, posind: seq<byte>)
    requires (forall i :: 0 <= i < |ms| ==> IsEntry(lb, ms[i])) && |posind| == 16
    ensures var k := Taken(|ms|, MAX_NRRES);
            ArePlain(lb, ms, Results(lb, ms, Found(false, 0, posind, 0)), k) <==> PlainUpTo(lb, ms, k)
  {
    var (r, k) := (Found(false, 0, posind, 0), Taken(|ms|, MAX_NRRES));
    if PlainUpTo(lb, ms, k) {
      FirstPlain(lb, ms, posind);
    } else {
      var i :| 0 <= i < k && NeedsG2P(lb, ms[i]);
      if !NeedsG2P(lb, ms[0]) {
        MoreMixed(lb, ms[1..], Added(r, lb, ms[0]), i - 1);
      }
    }
  }

  /** Plain results fill the record: there are as many of them as there are matches and groups of four bytes. */
  lemma ResultsFill(lb: seq<byte>, ms: seq<nat>, posind: seq<byte>)
    requires (forall i :: 0 <= i < |ms| ==> IsEntry(lb, ms[i]) && !NeedsG2P(lb, ms[i])) && |posind| == 16
    ensures var r := Results(lb, ms, Found(false, 0, posind, 0));
            r.nrres == (if 4 * |ms| < |posind| then |ms| else |posind| / 4) && r.posindlen == 4 * r.nrres
  {
    FirstPlain(lb, ms, posind);
  }

  /** Otherwise entries get mixed up: of the matches `a`, `g`, `b`, the second of which is left to the rules, two
      results remain, and the part of speech of `g` goes with the index of `a`. */
  lemma MixedResults(lb: seq<byte>, a: nat, g: nat, b: nat, posind: seq<byte>)
    requires IsEntry(lb, a) && IsEntry(lb, g) && IsEntry(lb, b) && |posind| == 16
    requires !NeedsG2P(lb, a) && NeedsG2P(lb, g) && !NeedsG2P(lb, b)
    ensures var r := Results(lb, [a, g, b], Found(false, 0, posind, 0));
            && r.phonfound && r.nrres == 2 && r.posindlen == 5
            && r.posind[0] == Pos(lb, g) && r.posind[1..4] == Index3(a)
            && r.posind[4] == Pos(lb, b) && r.posind[5..8] == Index3(b)
    ensures var r := Results(lb, [a, g], Found(false, 0, posind, 0));
            !r.phonfound && r.nrres == 1 && r.posindlen == 1 && r.posind[0] == Pos(lb, g)
  {
    var r0 := Found(false, 0, posind, 0);
    var r1 := Added(r0, lb, a);
    var r2 := Added(r1, lb, g);
    var r3 := Added(r2, lb, b);
    assert [a, g, b][1..] == [g, b] && [g, b][1..] == [b] && [b][1..] == [] && [a, g][1..] == [g] && [g][1..] == [];
    MoreOne(lb, g, [b], r1);
    MoreOne(lb, b, [], r2);
    MoreOne(lb, g, [], r1);
  }

  lemma MoreOne(lb: seq<byte>, p: nat, ms: seq<nat>, r: Found)
    requires IsEntry(lb, p) && (forall i :: 0 <= i < |ms| ==> IsEntry(lb, ms[i]))
    requires |r.posind| == 16 && r.nrres < MAX_NRRES
    ensures (forall i :: 0 <= i < |[p] + ms| ==> IsEntry(lb, ([p] + ms)[i]))
    ensures More(lb, [p] + ms, r) == More(lb, ms, Added(r, lb, p))
  {
    assert ([p] + ms)[1..] == ms;
  }

  const MIXED: seq<byte> := [2, 97, 3, 1, 65, 2, 97, 3, 2, NEEDS_G2P, 2, 97, 3, 3, 66, 0]

  lemma MixedBytes()
    ensures IsEntry(MIXED, 0) && Graph(MIXED, 0) == [97] && End(MIXED, 0) == 5 && !NeedsG2P(MIXED, 0)
    ensures IsEntry(MIXED, 5) && Graph(MIXED, 5) == [97] && End(MIXED, 5) == 10 && NeedsG2P(MIXED, 5)
    ensures IsEntry(MIXED, 10) && Graph(MIXED, 10) == [97] && End(MIXED, 10) == 15 && !NeedsG2P(MIXED, 10)
    ensures Pos(MIXED, 5) == 2 && |MIXED| == 16
  {
  }

  /** Such entries: three for the string "a", with the parts of speech 1, 2 and 3. */
  lemma MixedEntries(posind: seq<byte>)
    requires |posind| == 16
    ensures Layout(MIXED, [0, 5, 10], 15) && Sorted(MIXED, [0, 5, 10])
            && Matching(MIXED, [0, 5, 10], [97]) == [0, 5, 10]
    ensures Results(MIXED, [0, 5, 10], Found(false, 0, posind, 0)).posind[..4] == [2, 0, 0, 0]
  {
    MixedBytes();
    assert Index3(0) == [0, 0, 0];
    hide *;
    ThreeEqual(MIXED, 0, 5, 10, 15, [97]);
    MixedResults(MIXED, 0, 5, 10, posind);
    var p := Results(MIXED, [0, 5, 10], Found(false, 0, posind, 0)).posind;
    assert p[..4] == [p[0]] + p[1..4];
  }

  /** Three adjacent entries for the same string. */
  lemma ThreeEqual(lb: seq<byte>, a: nat, b: nat, c: nat, end: nat, graph: seq<byte>)
    requires IsEntry(lb, a) && IsEntry(lb, b) && IsEntry(lb, c) && end < |lb|
    requires Graph(lb, a) == Graph(lb, b) == Graph(lb, c) == graph
    requires a < End(lb, a) == b < End(lb, b) == c < End(lb, c) == end
    ensures Layout(lb, [a, b, c], end) && Sorted(lb, [a, b, c]) && Matching(lb, [a, b, c], graph) == [a, b, c]
  {
    hide IsEntry, Graph, End;
    var ps := [a, b, c];
    assert Followed(lb, ps, 0, end) && Followed(lb, ps, 1, end) && Followed(lb, ps, 2, end);
    assert ps[1..] == [b, c] && [b, c][1..] == [c] && [c][1..] == [];
    assert Matching(lb, [c], graph) == [c];
    assert Matching(lb, [b, c], graph) == [b, c];
    CmpEqual(graph, graph);
  }

  /** A first match that is left to the rules is the only result, and only its part of speech is known. */
  lemma ResultsG2P(lb: seq<byte>, ms: seq<nat>, posind: seq<byte>)
    requires (forall i :: 0 <= i < |ms| ==> IsEntry(lb, ms[i])) && |ms| > 0 && NeedsG2P(lb, ms[0]) && |posind| == 16
    ensures Results(lb, ms, Found(false, 0, posind, 0)) == Found(false, 1, posind[0 := Pos(lb, ms[0])], 1)
  {
  }

  /** Part of speech and index of result k. */
  lemma {:induction false} EncodedAt(lb: seq<byte>, ms: seq<nat>, k: nat)
    requires (forall i :: 0 <= i < |ms| ==> IsEntry(lb, ms[i])) && k < |ms|
    ensures Encoded(lb, ms)[4 * k] == Pos(lb, ms[k]) && Encoded(lb, ms)[4 * k + 1..4 * k + 4] == Index3(ms[k])
  {
    EncodedSplit(lb, ms);
    if k > 0 {
      EncodedAt(lb, ms[1..], k - 1);
      hide Encoded, IsEntry, Pos;
      BehindFour([Pos(lb, ms[0])] + Index3(ms[0]), Encoded(lb, ms[1..]), k);
    }
  }

  lemma EncodedSplit(lb: seq<byte>, ms: seq<nat>)
    requires (forall i :: 0 <= i < |ms| ==> IsEntry(lb, ms[i])) && ms != []
    ensures Encoded(lb, ms) == ([Pos(lb, ms[0])] + Index3(ms[0])) + Encoded(lb, ms[1..])
    ensures Encoded(lb, ms)[0] == Pos(lb, ms[0]) && Encoded(lb, ms)[1..4] == Index3(ms[0])
  {
  }

  lemma BehindFour(a: seq<byte>, b: seq<byte>, k: nat)
    requires |a| == 4 && 1 <= k && 4 * k <= |b|
    ensures (a + b)[4 * k] == b[4 * (k - 1)]
    ensures (a + b)[4 * k + 1..4 * k + 4] == b[4 * (k - 1) + 1..4 * (k - 1) + 4]
  {
  }

  function Decode3(ind: seq<byte>): nat requires |ind| == 3 { Three(ind[2], ind[1], ind[0]) }

  lemma Digits256(p: nat, q1: nat, q2: nat, q3: nat)
    requires q1 == p / 0x100 && q2 == p / 0x10000 && q3 == p / 0x1000000
    ensures p == 0x1000000 * q3 + Three(q2 % 0x100, q1 % 0x100, p % 0x100)
  {
    assert q2 == q1 / 0x100;
    assert q3 == q2 / 0x100;
  }

  /** Three bytes are enough exactly below 2^24. */
  lemma IndexRoundTrip(p: nat)
    ensures Decode3(Index3(p)) == p <==> p < 0x100_0000
  {
    Digits256(p, p / 0x100, p / 0x10000, p / 0x1000000);
  }

  /** The low byte of an index comes first. */
  lemma IndexLowFirst(low: nat, middle: nat, high: nat)
    requires low < 256 && middle < 256 && high < 256
    ensures Index3(low + 256 * middle + 65536 * high) == [low, middle, high]
  {
    var p := low + 256 * middle + 65536 * high;
    assert p / 0x100 == middle + 256 * high && p / 0x10000 == high;
  }

  /** An 8-bit number minus 2. */
  function Minus2(x: byte): byte { if x >= 2 then x - 2 else x + 254 }

  /** Part of speech and phones at an index, whatever bytes are there, as far as they can be read. */
  method LexIndLookup(lex: Lexicon, ind: seq<byte>) returns (ok: bool, pos: byte, phon: nat, phonlen: nat)
    requires lex.Valid()
    requires |ind| == 3 && Decode3(ind) < 512 * lex.nrblocks ==>
               Decode3(ind) + lex.lexblocks[Decode3(ind)] + 1 < |lex.lexblocks|
    ensures ok <==> |ind| == 3 && Decode3(ind) < 512 * lex.nrblocks
    ensures ok ==> var rest := Decode3(ind) + lex.lexblocks[Decode3(ind)];
                   pos == lex.lexblocks[rest + 1] && phon == rest + 2 && phonlen == Minus2(lex.lexblocks[rest])
    ensures ok && IsEntry(lex.lexblocks, Decode3(ind)) ==> IsPartOf(lex.lexblocks, Decode3(ind), pos, phon, phonlen)
  {
    if |ind| != 3 {
      return false, 0, 0, 0;
    }
    var pentry := Three(ind[2], ind[1], ind[0]);
    if pentry >= 512 * lex.nrblocks {
      return false, 0, 0, 0;
    }
    pentry := pentry + lex.lexblocks[pentry];
    phonlen := Minus2(lex.lexblocks[pentry]);
    pentry := pentry + 1;
    pos := lex.lexblocks[pentry];
    pentry := pentry + 1;
    phon := pentry;
    ok := true;
    if IsEntry(lex.lexblocks, Decode3(ind)) {
      EntryParts(lex.lexblocks, Decode3(ind));
    }
  }

  /** Part of speech and phones of an entry. */
  ghost predicate IsPartOf(lb: seq<byte>, p: nat, pos: byte, phon: nat, phonlen: nat) {
    IsEntry(lb, p) && pos == Pos(lb, p) && phon + phonlen <= |lb| && lb[phon..phon + phonlen] == Phones(lb, p)
  }

  /** At an entry, what is read are its part of speech and phones. */
  lemma EntryParts(lb: seq<byte>, p: nat)
    requires IsEntry(lb, p)
    ensures var rest := p + lb[p];
            IsPartOf(lb, p, lb[rest + 1], rest + 2, Minus2(lb[rest]))
  {
    assert Rest(lb, p) + 2 + Minus2(lb[Rest(lb, p)]) == End(lb, p);
  }

  /** The index of result k leads back to the k-th match, so that its part of speech and phones are found. */
  lemma ResultLeadsBack(lb: seq<byte>, nrblocks: nat, ps: seq<nat>, starts: seq<nat>, vals: seq<nat>,
                        graph: seq<byte>, posind: seq<byte>, k: nat)
    requires WellFormed(lb, nrblocks, ps, starts, vals) && 512 * nrblocks <= 0x100_0000 && |posind| == 16
    requires PlainUpTo(lb, Matching(lb, ps, graph), Taken(|Matching(lb, ps, graph)|, MAX_NRRES))
    requires k < Taken(|Matching(lb, ps, graph)|, MAX_NRRES)
    ensures var ms := Matching(lb, ps, graph);
            var r := Results(lb, ms, Found(false, 0, posind, 0));
            var ind := r.posind[4 * k + 1..4 * k + 4];
            && |ind| == 3 && Decode3(ind) == ms[k] < 512 * nrblocks && r.posind[4 * k] == Pos(lb, ms[k])
  {
    var ms := Matching(lb, ps, graph);
    var (r, n) := (Results(lb, ms, Found(false, 0, posind, 0)), Taken(|ms|, MAX_NRRES));
    ResultsPlain(lb, ms, posind);
    EncodedAt(lb, ms[..n], k);
    PrefixSlice(r.posind, 4 * n, 4 * k);
    MatchBelowEnd(lb, ps, 512 * nrblocks, graph, k);
    IndexRoundTrip(ms[k]);
  }

  lemma PrefixSlice(s: seq<byte>, m: nat, a: nat)
    requires a + 4 <= m <= |s|
    ensures s[a] == s[..m][a] && s[a + 1..a + 4] == s[..m][a + 1..a + 4]
  {
  }

  lemma MatchBelowEnd(lb: seq<byte>, ps: seq<nat>, end: nat, graph: seq<byte>, k: nat)
    requires Layout(lb, ps, end) && k < |Matching(lb, ps, graph)|
    ensures Matching(lb, ps, graph)[k] < end
  {
    var p := Matching(lb, ps, graph)[k];
    MatchingMember(lb, ps, graph, p);
    var i :| 0 <= i < |ps| && ps[i] == p;
    assert Followed(lb, ps, i, end);
  }
}
