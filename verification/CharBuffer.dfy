/**
 The ring buffers between processing units (pico/lib/picodata.c): bytes in a circular array, read and written
 as whole items of a 4-byte head (the last byte of which is the content length) and a content.
 */
module CharBuffers {
  import opened Concatenation
  import opened Powers

  datatype Status = Ok | Eof | BufUnderflow | BufOverflow

  const HEADSIZE := 4
  const IND_LEN := 3
  const ITEM_FRAME: byte := 102

  // ---------------------------------------------------------------------------
  // What the buffer operations mean for the queue of bytes
  // ---------------------------------------------------------------------------

  datatype PutResult = PutResult(status: Status, blen: nat, contents: seq<byte>)
  datatype GetResult = GetResult(status: Status, out: seq<byte>, contents: seq<byte>)

  function PutItemSpec(c: seq<byte>, size: nat, src: seq<byte>, blenmax: nat): PutResult
    requires blenmax <= |src|
  {
    if blenmax < HEADSIZE then PutResult(BufUnderflow, 0, c)
    else
      var n := src[IND_LEN] + HEADSIZE;
      if n > size - |c| then PutResult(BufOverflow, 0, c)
      else if n > blenmax then PutResult(BufUnderflow, 0, c)
      else PutResult(Ok, n, c + src[..n])
  }

  predicate FrontComplete(c: seq<byte>) {
    |c| >= HEADSIZE ==> HEADSIZE + c[IND_LEN] <= |c|
  }

  /** Asking for speech data drops a front item of another type before it is known to be complete. */
  predicate DropsTooMuch(c: seq<byte>, issd: bool) {
    issd && |c| >= HEADSIZE && c[0] != ITEM_FRAME && !FrontComplete(c)
  }

  function GetItemSpec(c: seq<byte>, blenmax: nat, issd: bool): GetResult
    requires !DropsTooMuch(c, issd)
  {
    if |c| < HEADSIZE then GetResult(if c == [] then Eof else BufUnderflow, [], c)
    else
      var n := HEADSIZE + c[IND_LEN];
      if issd && c[0] != ITEM_FRAME then GetResult(Ok, [], c[n..])
      else if n > |c| then GetResult(BufUnderflow, [], c)
      else if blenmax < n then GetResult(BufOverflow, [], c)
      else GetResult(Ok, if issd then c[HEADSIZE..n] else c[..n], c[n..])
  }

  // ---------------------------------------------------------------------------
  // The circular array
  // ---------------------------------------------------------------------------

  lemma NextIndex(x: nat, size: nat)
    requires x < size
    ensures (x + 1) % size == if x + 1 == size then 0 else x + 1
  {
    DivModUnique(x + 1, size, if x + 1 == size then 1 else 0, if x + 1 == size then 0 else x + 1);
  }

  lemma WrappedIndex(x: nat, size: nat)
    requires x < 2 * size
    ensures x % size == if x < size then x else x - size
  {
    DivModUnique(x, size, if x < size then 0 else 1, if x < size then x else x - size);
  }

  /** `len` bytes of a circular array from `front` on. */
  function Window(b: seq<byte>, front: nat, len: nat): (w: seq<byte>)
    requires front < |b| && len <= |b|
    ensures |w| == len
  {
    seq(len, i requires 0 <= i < len => b[if front + i < |b| then front + i else front + i - |b|])
  }

  lemma WindowGrows(b: seq<byte>, front: nat, len: nat, rear: nat, ch: byte)
    requires front < |b| && len < |b| && rear == if front + len < |b| then front + len else front + len - |b|
    ensures Window(b[rear := ch], front, len + 1) == Window(b, front, len) + [ch]
  {
  }

  lemma WindowShrinks(b: seq<byte>, front: nat, len: nat, next: nat)
    requires front < |b| && 0 < len <= |b| && next == if front + 1 == |b| then 0 else front + 1
    ensures Window(b, next, len - 1) == Window(b, front, len)[1..] && Window(b, front, len)[0] == b[front]
  {
  }

  /** `d` with its first `n` bytes replaced by those of `c`. */
  function Overwritten(d: seq<byte>, c: seq<byte>, n: nat): seq<byte>
    requires n <= |d| && n <= |c|
  {
    c[..n] + d[n..]
  }

  lemma OverwriteNext(d: seq<byte>, c: seq<byte>, i: nat)
    requires i < |d| && i < |c|
    ensures Overwritten(d, c, i)[i := c[i]] == Overwritten(d, c, i + 1)
  {
  }

  class CharBuffer {
    const buf: array<byte>
    var rear: nat
    var front: nat
    var len: nat

    function Slot(i: nat): nat
      reads this
    {
      if front + i < buf.Length then front + i else front + i - buf.Length
    }

    ghost predicate Valid()
      reads this
    {
      0 < buf.Length < 0x10000 && front < buf.Length && len <= buf.Length && rear == Slot(len)
    }

    ghost function Contents(): (c: seq<byte>)
      reads this, buf
      requires Valid()
      ensures |c| == len
    {
      Window(buf[..], front, len)
    }

    constructor (size: nat)
      requires 0 < size < 0x10000
      ensures Valid() && fresh(buf) && buf.Length == size && Contents() == []
    {
      buf := new byte[size](_ => 0);
      rear, front, len := 0, 0, 0;
    }

    /** The write position is always the read position plus the fill level, modulo the size. */
    lemma RearFollowsFront()
      requires Valid()
      ensures rear == (front + len) % buf.Length
    {
      WrappedIndex(front + len, buf.Length);
    }

    /** `picodata_cbReset` */
    method Reset()
      requires Valid()
      modifies this
      ensures Valid() && Contents() == []
    {
      rear, front, len := 0, 0, 0;
    }

    /** The circular write of one byte. */
    method Push(ch: byte)
      requires Valid() && len < buf.Length
      modifies this, buf
      ensures Valid() && Contents() == old(Contents()) + [ch]
    {
      NextIndex(rear, buf.Length);
      WindowGrows(buf[..], front, len, rear, ch);
      hide Window;
      buf[rear] := ch;
      rear := rear + 1;
      rear := rear % buf.Length;
      len := len + 1;
    }

    /** The circular read of one byte. */
    method Pop() returns (ch: byte)
      requires Valid() && len > 0
      modifies this
      ensures Valid() && ch == old(Contents())[0] && Contents() == old(Contents())[1..]
    {
      NextIndex(front, buf.Length);
      WindowShrinks(buf[..], front, len, if front + 1 == buf.Length then 0 else front + 1);
      hide Window;
      ch := buf[front];
      front := front + 1;
      front := front % buf.Length;
      len := len - 1;
    }

    /** `picodata_cbPutCh` */
    method PutCh(ch: byte) returns (status: Status)
      requires Valid()
      modifies this, buf
      ensures Valid() && status == (if old(len) < buf.Length then Ok else BufOverflow)
      ensures Contents() == old(Contents()) + if status == Ok then [ch] else []
    {
      if len < buf.Length {
        Push(ch);
        return Ok;
      }
      status := BufOverflow;
    }

    /** `picodata_cbGetCh`; `None` stands for `PICO_EOF`. */
    method GetCh() returns (status: Status, ch: byte)
      requires Valid()
      modifies this
      ensures Valid() && status == (if old(len) > 0 then Ok else Eof)
      ensures if status == Ok then ch == old(Contents())[0] && Contents() == old(Contents())[1..]
              else Contents() == old(Contents()) == []
    {
      ch := 0;
      if len > 0 {
        ch := Pop();
        return Ok, ch;
      }
      status := Eof;
    }

    /** `data_cbPutItem` */
    method PutItem(src: seq<byte>, blenmax: nat) returns (status: Status, blen: nat)
      requires Valid() && blenmax <= |src|
      modifies this, buf
      ensures Valid()
      ensures PutResult(status, blen, Contents()) == PutItemSpec(old(Contents()), buf.Length, src, blenmax)
    {
      if blenmax < HEADSIZE {
        return BufUnderflow, 0;
      }
      blen := src[IND_LEN] + HEADSIZE;
      if blen > buf.Length - len {
        return BufOverflow, 0;
      }
      if blen > blenmax {
        return BufUnderflow, 0;
      }
      Write(src, blen);
      status := Ok;
    }

    /** Appends the first `n` bytes of `src`. */
    method Write(src: seq<byte>, n: nat)
      requires Valid() && n <= |src| && n <= buf.Length - len
      modifies this, buf
      ensures Valid() && Contents() == old(Contents()) + src[..n]
    {
      ghost var c := Contents();
      for i := 0 to n
        invariant Valid() && Contents() == c + src[..i]
      {
        Push(src[i]);
        assert (c + src[..i]) + [src[i]] == c + src[..i + 1];
      }
    }

    /** One byte of the front is passed; a fill level of 0 wraps around in 16 bits. */
    method PassFront()
      requires 0 < buf.Length && front < buf.Length
      modifies this`front, this`len
      ensures front == if old(front) + 1 == buf.Length then 0 else old(front) + 1
      ensures len == if old(len) == 0 then 0xffff else old(len) - 1
      ensures old(Valid()) && old(len) > 0 ==> Valid() && Contents() == old(Contents())[1..]
    {
      NextIndex(front, buf.Length);
      if Valid() && len > 0 {
        WindowShrinks(buf[..], front, len, if front + 1 == buf.Length then 0 else front + 1);
      }
      hide Window;
      front := front + 1;
      front := front % buf.Length;
      len := if len == 0 then 0xffff else len - 1;
    }

    /** The front item is passed although it may not be complete: then the fill level is wrong ever after. */
    method PassItem(n: nat)
      requires Valid() && HEADSIZE <= len && n <= HEADSIZE + 255
      modifies this`front, this`len
      ensures n <= old(len) ==> Valid() && Contents() == old(Contents())[n..]
      ensures n > old(len) ==> len == old(len) + 0x10000 - n && !Valid()
    {
      ghost var c := Contents();
      for i := 0 to n
        invariant front < buf.Length && rear == old(rear)
        invariant i <= |c| ==> Valid() && Contents() == c[i..]
        invariant i > |c| ==> len == |c| + 0x10000 - i
        invariant i <= buf.Length ==> front == if old(front) + i < buf.Length then old(front) + i
                  else old(front) + i - buf.Length
      {
        ghost var before := len;
        PassFront();
        assert i < |c| ==> before > 0 && c[i..][1..] == c[i + 1..];
      }
    }

    /** Drops `n` bytes from the front. */
    method Skip(n: nat)
      requires Valid() && n <= len
      modifies this
      ensures Valid() && Contents() == old(Contents())[n..]
    {
      ghost var c := Contents();
      for i := 0 to n
        invariant Valid() && Contents() == c[i..]
      {
        var _ := Pop();
        assert c[i..][1..] == c[i + 1..];
      }
    }

    method PopInto(dst: array<byte>, i: nat)
      requires Valid() && len > 0 && dst != buf && i < dst.Length
      modifies this, dst
      ensures Valid() && Contents() == old(Contents())[1..]
      ensures dst[..] == old(dst[..][i := Contents()[0]])
    {
      ghost var c := Contents();
      var ch := Pop();
      dst[i] := ch;
      assert Contents() == c[1..];
    }

    /** Moves `n` bytes from the front into `dst`. */
    method Read(dst: array<byte>, n: nat)
      requires Valid() && n <= len && dst != buf && n <= dst.Length
      modifies this, dst
      ensures Valid() && Contents() == old(Contents())[n..]
      ensures dst[..] == Overwritten(old(dst[..]), old(Contents()), n)
    {
      ghost var c, d := Contents(), dst[..];
      for i := 0 to n
        invariant Valid() && Contents() == c[i..]
        invariant dst[..] == Overwritten(d, c, i)
      {
        PopInto(dst, i);
        assert c[i..][0] == c[i] && c[i..][1..] == c[i + 1..];
        OverwriteNext(d, c, i);
      }
    }

    /** The front item, of `n` bytes, or its content only. */
    method Deliver(dst: array<byte>, n: nat, issd: bool) returns (blen: nat)
      requires Valid() && dst != buf && HEADSIZE <= n <= len && n <= dst.Length
      modifies this, dst
      ensures Valid() && Contents() == old(Contents())[n..] && blen <= n
      ensures dst[..blen] == if issd then old(Contents())[HEADSIZE..n] else old(Contents())[..n]
      ensures dst[blen..] == old(dst[..])[blen..]
    {
      ghost var c := Contents();
      blen := n;
      if issd {
        Skip(HEADSIZE);
        blen := blen - HEADSIZE;
        assert c[HEADSIZE..][..blen] == c[HEADSIZE..n] && c[HEADSIZE..][blen..] == c[n..];
      }
      c := Contents();
      Read(dst, blen);
      assert dst[..blen] == c[..blen] && dst[blen..] == old(dst[..])[blen..];
    }

    /** `data_cbGetItem`; with `issd` only the content of a speech frame is delivered, other items are dropped, which
        breaks the buffer exactly if the item is not complete. */
    method GetItem(dst: array<byte>, blenmax: nat, issd: bool) returns (status: Status, blen: nat)
      requires Valid() && dst != buf && blenmax <= dst.Length
      modifies this, dst
      ensures Valid() <==> !DropsTooMuch(old(Contents()), issd)
      ensures blen <= dst.Length
      ensures Valid() ==> GetResult(status, dst[..blen], Contents()) == GetItemSpec(old(Contents()), blenmax, issd)
      ensures !Valid() ==> status == Ok && blen == 0 && len == old(len) + 0x10000 - HEADSIZE - old(Contents())[IND_LEN]
      ensures dst[blen..] == old(dst[..])[blen..]
    {
      ghost var c := Contents();
      if len < HEADSIZE {
        return if len == 0 then Eof else BufUnderflow, 0;
      }
      WrappedIndex(front + IND_LEN, buf.Length);
      blen := HEADSIZE + buf[(front + IND_LEN) % buf.Length];
      assert blen == HEADSIZE + c[IND_LEN];
      if issd {
        assert buf[front] == c[0];
        if buf[front] != ITEM_FRAME {
          PassItem(blen);
          return Ok, 0;
        }
      }
      if blen > len {
        return BufUnderflow, 0;
      }
      if blenmax < blen {
        return BufOverflow, 0;
      }
      blen := Deliver(dst, blen, issd);
      status := Ok;
    }
  }

  /** The head of a word item ("w") of five bytes without its content, and a request for speech data. */
  method IncompleteItemBreaks() returns (cb: CharBuffer, status: Status)
    ensures fresh(cb) && status == Ok && !cb.Valid()
  {
    cb := new CharBuffer(16);
    var dst := new byte[16];
    var s0 := cb.PutCh(119);
    var s1 := cb.PutCh(0);
    var s2 := cb.PutCh(0);
    var s3 := cb.PutCh(5);
    var blen;
    status, blen := cb.GetItem(dst, 16, true);
  }

  /** `picoctrl_engFeedText`: as many bytes of the text as there is room for. */
  method FeedText(cbIn: CharBuffer, text: seq<byte>) returns (bytesPut: nat)
    requires cbIn.Valid()
    modifies cbIn, cbIn.buf
    ensures cbIn.Valid() && bytesPut <= |text| && (bytesPut < |text| ==> cbIn.len == cbIn.buf.Length)
    ensures cbIn.Contents() == old(cbIn.Contents()) + text[..bytesPut]
  {
    bytesPut := 0;
    ghost var c := cbIn.Contents();
    assert c + text[..0] == c;
    while bytesPut < |text|
      invariant bytesPut <= |text| && cbIn.Valid() && cbIn.Contents() == c + text[..bytesPut]
    {
      var status := cbIn.PutCh(text[bytesPut]);
      if status != Ok {
        assert c + text[..bytesPut] + [] == c + text[..bytesPut];
        return;
      }
      assert text[..bytesPut + 1] == text[..bytesPut] + [text[bytesPut]];
      Associative(c, text[..bytesPut], [text[bytesPut]]);
      bytesPut := bytesPut + 1;
    }
  }

  // ---------------------------------------------------------------------------
  // Whole items
  // ---------------------------------------------------------------------------

  predicate WholeItem(x: seq<byte>) {
    |x| >= HEADSIZE && |x| == HEADSIZE + x[IND_LEN]
  }

  ghost predicate WholeItems(xs: seq<seq<byte>>) {
    forall i :: 0 <= i < |xs| ==> WholeItem(xs[i])
  }

  /** The front of a queue of whole items can be told apart from the rest by its length byte. */
  lemma FrontItem(c: seq<byte>, x: seq<byte>, rest: seq<byte>)
    requires WholeItem(x) && c == x + rest
    ensures |c| >= HEADSIZE && HEADSIZE + c[IND_LEN] == |x| && c[0] == x[0] && c[..|x|] == x && c[|x|..] == rest
  {
  }

  /** Putting adds exactly the item offered, or changes nothing at all. */
  lemma PutItemAtomic(c: seq<byte>, size: nat, src: seq<byte>, blenmax: nat)
    requires blenmax <= |src|
    ensures var r := PutItemSpec(c, size, src, blenmax);
            && (r.status != Ok ==> r.contents == c && r.blen == 0)
            && (r.status == Ok ==> r.blen <= blenmax && WholeItem(src[..r.blen]) && r.contents == c + src[..r.blen])
  {
  }

  /** A whole item is accepted exactly if it fits the free space. */
  lemma PutAcceptedIff(c: seq<byte>, size: nat, src: seq<byte>, x: seq<byte>)
    requires WholeItem(x) && x <= src
    ensures var r := PutItemSpec(c, size, src, |src|);
            if |c| + |x| <= size then r == PutResult(Ok, |x|, c + x) else r == PutResult(BufOverflow, 0, c)
  {
    assert src[IND_LEN] == x[IND_LEN] && src[..|x|] == x;
  }

  /** Getting from whole items never reports an underflow.  The front item goes and is delivered (its content only,
      if speech was asked for), a non-speech item goes undelivered if speech was asked for, or nothing happens
      because the destination is too small. */
  lemma GetFrontItem(c: seq<byte>, x: seq<byte>, rest: seq<byte>, blenmax: nat, issd: bool)
    requires WholeItem(x) && c == x + rest
    ensures FrontComplete(c)
    ensures GetItemSpec(c, blenmax, issd)
         == if issd && x[0] != ITEM_FRAME then GetResult(Ok, [], rest)
            else if blenmax < |x| then GetResult(BufOverflow, [], c)
            else GetResult(Ok, if issd then x[HEADSIZE..] else x, rest)
  {
    FrontItem(c, x, rest);
    assert c[HEADSIZE..|x|] == x[HEADSIZE..];
  }

  // ---------------------------------------------------------------------------
  // Any interleaving of puts and gets
  // ---------------------------------------------------------------------------

  datatype Op = Put(src: seq<byte>) | Get(blenmax: nat, issd: bool)

  /** A run so far: the bytes in the buffer, the items accepted by puts, and the items removed by gets. */
  datatype Trace = Trace(contents: seq<byte>, accepted: seq<seq<byte>>, removed: seq<seq<byte>>)

  /** The items removed so far are the first ones accepted, and the buffer holds the bytes of the others, in order. */
  ghost predicate Fifo(t: Trace) {
    && WholeItems(t.accepted) && |t.removed| <= |t.accepted|
    && t.removed == t.accepted[..|t.removed|]
    && t.contents == Flatten(t.accepted[|t.removed|..])
  }

  lemma FifoFront(t: Trace)
    requires Fifo(t)
    ensures FrontComplete(t.contents)
    ensures t.contents == [] <==> |t.removed| == |t.accepted|
    ensures |t.removed| < |t.accepted| ==>
              t.contents == t.accepted[|t.removed|] + Flatten(t.accepted[|t.removed| + 1..])
  {
    var k := |t.removed|;
    if k < |t.accepted| {
      var xs := t.accepted[k..];
      assert xs[0] == t.accepted[k] && xs[1..] == t.accepted[k + 1..];
      FrontItem(t.contents, xs[0], Flatten(xs[1..]));
    }
  }

  ghost function Step(t: Trace, size: nat, op: Op): Trace
    requires Fifo(t)
  {
    match op
    case Put(src) =>
      var r := PutItemSpec(t.contents, size, src, |src|);
      t.(contents := r.contents, accepted := t.accepted + if r.status == Ok then [src[..r.blen]] else [])
    case Get(blenmax, issd) =>
      FifoFront(t);
      var r := GetItemSpec(t.contents, blenmax, issd);
      t.(contents := r.contents,
         removed := t.removed + if r.status == Ok then [t.contents[..|t.contents| - |r.contents|]] else [])
  }

  lemma PutKeepsFifo(t: Trace, size: nat, src: seq<byte>)
    requires Fifo(t)
    ensures Fifo(Step(t, size, Put(src)))
  {
    PutItemAtomic(t.contents, size, src, |src|);
    var r := PutItemSpec(t.contents, size, src, |src|);
    if r.status == Ok {
      var (x, k) := (src[..r.blen], |t.removed|);
      FlattenAppend(t.accepted[k..], x);
      assert (t.accepted + [x])[k..] == t.accepted[k..] + [x];
      assert (t.accepted + [x])[..k] == t.accepted[..k];
    } else {
      assert t.accepted + [] == t.accepted;
    }
  }

  lemma GetKeepsFifo(t: Trace, size: nat, blenmax: nat, issd: bool)
    requires Fifo(t)
    ensures Fifo(Step(t, size, Get(blenmax, issd)))
  {
    FifoFront(t);
    var k := |t.removed|;
    if k < |t.accepted| {
      var (x, rest) := (t.accepted[k], Flatten(t.accepted[k + 1..]));
      GetFrontItem(t.contents, x, rest, blenmax, issd);
      FrontItem(t.contents, x, rest);
      assert t.accepted[..k + 1] == t.accepted[..k] + [x];
    }
  }

  ghost function Run(size: nat, ops: seq<Op>): (t: Trace)
    ensures Fifo(t)
  {
    if ops == [] then Trace([], [], [])
    else
      var t := Run(size, ops[..|ops| - 1]);
      var op := ops[|ops| - 1];
      if op.Put? then PutKeepsFifo(t, size, op.src); Step(t, size, op)
      else GetKeepsFifo(t, size, op.blenmax, op.issd); Step(t, size, op)
  }

  /** At every moment of every run of whole-buffer puts and gets: the items removed are the first ones accepted, byte
      for byte and in order; no get reports an underflow; and the bytes held always fit. */
  lemma RunIsFifo(size: nat, ops: seq<Op>, blenmax: nat, issd: bool)
    ensures var t := Run(size, ops);
            && t.removed + t.accepted[|t.removed|..] == t.accepted
            && t.contents == Flatten(t.accepted[|t.removed|..]) && |t.contents| <= size
            && FrontComplete(t.contents)
            && GetItemSpec(t.contents, blenmax, issd).status != BufUnderflow
            && (GetItemSpec(t.contents, blenmax, issd).status == Eof <==> t.removed == t.accepted)
  {
    RunFits(size, ops);
    FifoObserved(Run(size, ops), blenmax, issd);
  }

  lemma FifoObserved(t: Trace, blenmax: nat, issd: bool)
    requires Fifo(t)
    ensures t.removed + t.accepted[|t.removed|..] == t.accepted && FrontComplete(t.contents)
    ensures GetItemSpec(t.contents, blenmax, issd).status != BufUnderflow
    ensures GetItemSpec(t.contents, blenmax, issd).status == Eof <==> t.removed == t.accepted
  {
    FifoFront(t);
    var k := |t.removed|;
    if k < |t.accepted| {
      GetFrontItem(t.contents, t.accepted[k], Flatten(t.accepted[k + 1..]), blenmax, issd);
    }
  }

  lemma StepFits(t: Trace, size: nat, op: Op)
    requires Fifo(t) && |t.contents| <= size
    ensures |Step(t, size, op).contents| <= size
  {
    FifoFront(t);
  }

  lemma {:induction false} RunFits(size: nat, ops: seq<Op>)
    ensures |Run(size, ops).contents| <= size
  {
    if ops == [] {
    } else {
      var t := Run(size, ops[..|ops| - 1]);
      RunFits(size, ops[..|ops| - 1]);
      StepFits(t, size, ops[|ops| - 1]);
      hide Step, Fifo;
    }
  }
}
