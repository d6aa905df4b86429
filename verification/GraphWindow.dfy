/**
 The input vector of the part-of-speech prediction tree (pico/lib/picokdt.c, `picokdt_dtPosPconstructInVec`):
 the first graphemes of a word in slots 0 to 3, the last ones in slots 4 to 9, in one pass over the word.
 */
module GraphWindow {
  import opened Concatenation
  import opened Options
  import opened Powers
  import opened Utf8

  const PREFATT := 4
  const SUFFATT := 6
  const GRAPHATT := 10

  /** Stands for a grapheme outside of the word. */
  const OUTSIDE: seq<byte> := [0x30]

  /** What an input map table answers: a value, or a fallback (0 for none). */
  datatype Mapping = Mapping(found: bool, value: int, fallback: int) {
    function Value(): Option<int> {
      if found then Some(value) else if fallback != 0 then Some(fallback) else None
    }
  }

  // ---------------------------------------------------------------------------
  // What the slots are for
  // ---------------------------------------------------------------------------

  /** The position of the grapheme for a slot, in a word of `n` graphemes. */
  function Position(n: nat, slot: nat): Option<nat>
    requires slot < GRAPHATT
  {
    if slot < PREFATT then (if slot + SUFFATT < n then Some(slot) else None)
    else (if n + slot >= GRAPHATT then Some(n + slot - GRAPHATT) else None)
  }

  /** Each grapheme is used once at most. */
  lemma PositionOnce(n: nat, s: nat, t: nat)
    requires s < t < GRAPHATT && Position(n, s).Some? && Position(n, t).Some?
    ensures Position(n, s).value < Position(n, t).value < n
  {
  }

  /** The last six are always used, and of the others the first four. */
  lemma PositionUsed(n: nat, p: nat)
    requires p < n
    ensures p < PREFATT || p + SUFFATT >= n <==> exists s :: 0 <= s < GRAPHATT && Position(n, s) == Some(p)
  {
    if p + SUFFATT >= n {
      assert Position(n, p + GRAPHATT - n) == Some(p);
    } else if p < PREFATT {
      assert Position(n, p) == Some(p);
    }
  }

  function SlotGraph(gs: seq<seq<byte>>, slot: nat): seq<byte>
    requires slot < GRAPHATT
  {
    match Position(|gs|, slot)
    case Some(p) => gs[p]
    case None => OUTSIDE
  }

  // ---------------------------------------------------------------------------
  // The buffer of the last graphemes
  // ---------------------------------------------------------------------------

  /** A circular buffer with the last (up to six) of the first k graphemes. */
  ghost predicate Buffered(chbuf: seq<seq<byte>>, gs: seq<seq<byte>>, k: nat) {
    && |chbuf| == SUFFATT && k <= |gs|
    && forall p :: 0 <= p < k && k <= p + SUFFATT ==> chbuf[p % SUFFATT] == gs[p]
  }

  lemma BufferedNext(chbuf: seq<seq<byte>>, gs: seq<seq<byte>>, k: nat)
    requires Buffered(chbuf, gs, k) && k < |gs|
    ensures Buffered(chbuf[k % SUFFATT := gs[k]], gs, k + 1)
  {
    forall p | 0 <= p < k && k + 1 <= p + SUFFATT ensures p % SUFFATT != k % SUFFATT {
      Residues(p, k);
    }
  }

  lemma Residues(p: nat, k: nat)
    requires p < k < p + 6
    ensures p % 6 != k % 6
  {
  }

  function AtMost(n: nat, limit: nat): nat { if n < limit then n else limit }

  /** The number of prefix slots that the first k graphemes of a longer word fill. */
  function PrefixSlots(k: nat): nat { if k <= SUFFATT then 0 else AtMost(k - SUFFATT, PREFATT) }

  lemma PrevResidue(k: nat)
    requires k > 0
    ensures (k - 1) % 6 == if k % 6 == 0 then 5 else k % 6 - 1
  {
  }

  lemma NextResidue(k: nat)
    ensures (k % 6 + 1) % 6 == (k + 1) % 6
  {
  }

  class PosP {
    var invec: array<int>
    var inveclen: nat
    const mapGraph: (nat, seq<byte>) -> Mapping
    const mapFixed: (nat, nat) -> Mapping

    ghost predicate Valid() reads this { invec.Length == 12 }

    constructor (mapGraph: (nat, seq<byte>) -> Mapping, mapFixed: (nat, nat) -> Mapping)
      ensures Valid() && fresh(invec) && this.mapGraph == mapGraph && this.mapFixed == mapFixed
    {
      this.mapGraph := mapGraph;
      this.mapFixed := mapFixed;
      invec := new int[12];
      inveclen := 0;
    }

    /** The value for a grapheme slot in the input vector of a word. */
    ghost function GraphSlot(gs: seq<seq<byte>>, slot: nat): Option<int>
      requires slot < GRAPHATT
    {
      mapGraph(slot, SlotGraph(gs, slot)).Value()
    }

    /** Slots from `a` to `b` (not included) have their values. */
    ghost predicate Filled(gs: seq<seq<byte>>, a: nat, b: nat)
      requires Valid() && b <= GRAPHATT
      reads this, invec
    {
      forall s :: a <= s < b ==> Some(invec[s]) == GraphSlot(gs, s)
    }

    /** Sets an element of the input vector. */
    method Put(slot: nat, m: Mapping) returns (ok: bool)
      requires Valid() && slot < 12
      modifies invec
      ensures ok <==> m.Value().Some?
      ensures ok ==> invec[..] == old(invec[..])[slot := m.Value().value]
      ensures !ok ==> invec[..] == old(invec[..])
    {
      if m.found {
        invec[slot] := m.value;
      } else if m.fallback != 0 {
        invec[slot] := m.fallback;
      } else {
        return false;
      }
      return true;
    }

    /** Puts the front grapheme into the next prefix slot, if there is one left. */
    method UseFront(chbuf: array<seq<byte>>, chbfront: nat, invecpos: nat, ghost gs: seq<seq<byte>>, ghost k: nat)
      returns (ok: bool, invecpos': nat)
      requires Valid() && Buffered(chbuf[..], gs, k) && SUFFATT <= k < |gs| && chbfront == (k - SUFFATT) % SUFFATT
      requires invecpos == PrefixSlots(k) && Filled(gs, 0, invecpos)
      modifies invec
      ensures ok ==> invecpos' == PrefixSlots(k + 1) && Filled(gs, 0, invecpos')
      ensures !ok ==> invecpos' == invecpos < PREFATT && GraphSlot(gs, invecpos).None?
    {
      invecpos' := invecpos;
      ok := true;
      if invecpos < PREFATT {
        assert chbuf[..][chbfront] == gs[k - SUFFATT];
        assert Position(|gs|, invecpos) == Some(k - SUFFATT);
        ok := Put(invecpos, mapGraph(invecpos, chbuf[chbfront]));
        if ok { invecpos' := invecpos + 1; }
      }
    }

    /** Reads the word: fills the prefix slots that can be filled, and keeps the last graphemes. */
    method ReadWord(graph: seq<byte>, chbuf: array<seq<byte>>, ghost gs: seq<seq<byte>>)
      returns (ok: bool, nrutfg: nat, chbrear: nat, chblen: nat, invecpos: nat)
      requires Valid() && AreChars(gs) && graph == Flatten(gs) && chbuf.Length == SUFFATT
      modifies invec, chbuf
      ensures ok ==> nrutfg == |gs| && Buffered(chbuf[..], gs, |gs|) && chbrear == |gs| % SUFFATT
      ensures ok ==> chblen == AtMost(|gs|, SUFFATT) && invecpos == PrefixSlots(|gs|) && Filled(gs, 0, invecpos)
      ensures !ok ==> invecpos < PREFATT && GraphSlot(gs, invecpos).None?
    {
      var chbfront, poscg := 0, 0;
      chbrear, chblen, nrutfg, invecpos := 0, 0, 0, 0;
      OffsetAll(gs);
      assert gs != [] ==> |gs[0]| > 0;
      while poscg < |graph|
        invariant nrutfg <= |gs| && poscg == Offset(gs, nrutfg) && (poscg < |graph| <==> nrutfg < |gs|)
        invariant Buffered(chbuf[..], gs, nrutfg) && chbrear == nrutfg % SUFFATT && chblen == AtMost(nrutfg, SUFFATT)
        invariant chbfront == (nrutfg - chblen) % SUFFATT
        invariant invecpos == PrefixSlots(nrutfg) && Filled(gs, 0, invecpos)
        decreases |gs| - nrutfg
      {
        if chblen >= SUFFATT {
          NextResidue(nrutfg - SUFFATT);
          ok, invecpos := UseFront(chbuf, chbfront, invecpos, gs, nrutfg);
          if !ok {
            return;
          }
          chbfront := (chbfront + 1) % SUFFATT;
          chblen := chblen - 1;
        }
        poscg := AddGraph(graph, poscg, chbuf, chbrear, gs, nrutfg);
        NextResidue(nrutfg);
        chbrear := (chbrear + 1) % SUFFATT;
        chblen := chblen + 1;
        nrutfg := nrutfg + 1;
      }
      ok := true;
    }

    /** Adds the grapheme at `pos` to the buffer. */
    method AddGraph(graph: seq<byte>, pos: nat, chbuf: array<seq<byte>>, rear: nat, ghost gs: seq<seq<byte>>,
          ghost k: nat)
      returns (pos': nat)
      requires AreChars(gs) && graph == Flatten(gs) && k < |gs| && pos == Offset(gs, k)
      requires Buffered(chbuf[..], gs, k) && rear == k % SUFFATT
      modifies chbuf
      ensures pos' == Offset(gs, k + 1) && (pos' < |graph| <==> k + 1 < |gs|)
      ensures Buffered(chbuf[..], gs, k + 1)
    {
      CharAt(gs, graph, k);
      BufferedNext(chbuf[..], gs, k);
      pos' := CopyGraph(graph, pos, chbuf, rear, gs[k]);
      if k + 1 < |gs| { CharAt(gs, graph, k + 1); } else { OffsetAll(gs); }
    }

    method CopyGraph(graph: seq<byte>, pos: nat, chbuf: array<seq<byte>>, rear: nat, ghost e: seq<byte>)
          returns (pos': nat)
      requires IsAt(graph, pos, e) && rear < chbuf.Length
      modifies chbuf
      ensures pos' == pos + |e| && chbuf[..] == old(chbuf[..])[rear := e]
    {
      assert graph[pos + 0] == e[0];
      var lencg, i := DetUtf8Length(graph[pos]), 0;
      pos' := pos;
      chbuf[rear] := [];
      while i < lencg
        invariant i <= lencg && pos' == pos + i && chbuf[rear] == e[..i]
        invariant chbuf[..] == old(chbuf[..])[rear := e[..i]]
      {
        assert graph[pos + i] == e[i] && e[..i + 1] == e[..i] + [e[i]];
        chbuf[rear] := chbuf[rear] + [graph[pos']];
        pos' := pos' + 1;
        i := i + 1;
      }
      assert e[..lencg] == e;
    }

    /** Fills the prefix slots that are left. */
    method FillPrefix(start: nat, ghost gs: seq<seq<byte>>) returns (ok: bool)
      requires Valid() && start == PrefixSlots(|gs|) && Filled(gs, 0, start)
      modifies invec
      ensures ok ==> Filled(gs, 0, PREFATT)
      ensures !ok ==> exists s :: 0 <= s < PREFATT && GraphSlot(gs, s).None?
    {
      var invecpos := start;
      while invecpos < PREFATT
        invariant start <= invecpos <= PREFATT && Filled(gs, 0, invecpos)
      {
        assert SlotGraph(gs, invecpos) == OUTSIDE;
        ok := Put(invecpos, mapGraph(invecpos, OUTSIDE));
        if !ok {
          assert GraphSlot(gs, invecpos).None?;
          return;
        }
        invecpos := invecpos + 1;
      }
      ok := true;
    }

    /** Empties the buffer from behind into the suffix slots, the last one first. */
    method FillSuffix(chbuf: array<seq<byte>>, rear: nat, len: nat, ghost gs: seq<seq<byte>>) returns (ok: bool)
      requires Valid() && Buffered(chbuf[..], gs, |gs|) && rear == |gs| % SUFFATT && len == AtMost(|gs|, SUFFATT)
      requires Filled(gs, 0, PREFATT)
      modifies invec
      ensures ok ==> Filled(gs, 0, GRAPHATT)
      ensures !ok ==> exists s :: 0 <= s < GRAPHATT && GraphSlot(gs, s).None?
    {
      var chbrear, chblen, i := rear, len, GRAPHATT - 1;
      while i >= PREFATT
        invariant PREFATT - 1 <= i < GRAPHATT && Filled(gs, 0, PREFATT) && Filled(gs, i + 1, GRAPHATT)
        invariant chblen == if len > GRAPHATT - 1 - i then len - (GRAPHATT - 1 - i) else 0
        invariant chblen > 0 ==> chbrear == (|gs| - (GRAPHATT - 1 - i)) % SUFFATT
      {
        ghost var p := |gs| - (GRAPHATT - i);
        if chblen > 0 {
          PrevResidue(p + 1);
          if chbrear == 0 {
            chbrear := SUFFATT - 1;
          } else {
            chbrear := chbrear - 1;
          }
          assert chbuf[..][p % SUFFATT] == gs[p];
          ok := Put(i, mapGraph(i, chbuf[chbrear]));
          chblen := chblen - 1;
        } else {
          ok := Put(i, mapGraph(i, OUTSIDE));
        }
        if !ok {
          assert GraphSlot(gs, i).None?;
          return;
        }
        i := i - 1;
      }
      ok := true;
    }

    /** Constructs the input vector of a word. */
    method ConstructInVec(graph: seq<byte>, specgraphflag: bool, ghost gs: seq<seq<byte>>) returns (ok: bool)
      requires Valid() && AreChars(gs) && graph == Flatten(gs)
      modifies this`inveclen, invec
      ensures ok <==> && gs != [] && (forall s :: 0 <= s < GRAPHATT ==> GraphSlot(gs, s).Some?)
                      && mapFixed(10, if specgraphflag then 1 else 0).Value().Some? && mapFixed(11, |gs|).Value().Some?
      ensures ok ==> && Filled(gs, 0, GRAPHATT) && inveclen == 12
                     && Some(invec[10]) == mapFixed(10, if specgraphflag then 1 else 0).Value()
                     && Some(invec[11]) == mapFixed(11, |gs|).Value()
      ensures !ok ==> inveclen == 0
    {
      var chbuf := new seq<byte>[6];
      inveclen := 0;
      var nrutfg, chbrear, chblen, invecpos;
      ok, nrutfg, chbrear, chblen, invecpos := ReadWord(graph, chbuf, gs);
      if !ok || chblen == 0 {
        return false;
      }
      ok := FillPrefix(invecpos, gs);
      if !ok {
        return;
      }
      ok := FillSuffix(chbuf, chbrear, chblen, gs);
      if !ok {
        return;
      }
      ok := Put(10, mapFixed(10, if specgraphflag then 1 else 0));
      if !ok {
        return;
      }
      ok := Put(11, mapFixed(11, nrutfg));
      if !ok {
        return;
      }
      inveclen := 12;
    }
  }
}
