/** Strings of UTF-8 characters, and moving about in them (pico/lib/picobase.c). */
module Utf8 {
  import opened Concatenation
  import opened Powers

  /** Number of bytes of a character, from its first one; 0 for a byte that cannot start a character. */
  function DetUtf8Length(x: byte): nat {
    if x < 128 then 1
    else if x >= 248 then 0
    else if x >= 240 then 4
    else if x >= 224 then 3
    else if x >= 192 then 2
    else 0
  }

  /** A character: the first byte tells the length, and no other byte can be taken for a first one. */
  ghost predicate IsChar(e: seq<byte>) {
    && 1 <= |e| <= 4 && DetUtf8Length(e[0]) == |e| && e[0] != 0
    && forall j :: 1 <= j < |e| ==> 128 <= e[j] < 192
  }

  ghost predicate AreChars(es: seq<seq<byte>>) { forall k :: 0 <= k < |es| ==> IsChar(es[k]) }

  /** The character `e` is stored at `pos`. */
  ghost predicate IsAt(utf8: seq<byte>, pos: nat, e: seq<byte>) {
    IsChar(e) && pos + |e| <= |utf8| && forall j {:trigger e[j]} :: 0 <= j < |e| ==> utf8[pos + j] == e[j]
  }

  lemma CharAt(es: seq<seq<byte>>, utf8: seq<byte>, k: nat)
    requires AreChars(es) && Flatten(es) <= utf8 && k < |es|
    ensures IsAt(utf8, Offset(es, k), es[k]) && Offset(es, k + 1) == Offset(es, k) + |es[k]| <= |Flatten(es)|
  {
    PartAt(es, utf8, k);
    var part := utf8[Offset(es, k)..Offset(es, k + 1)];
    forall j | 0 <= j < |es[k]| ensures utf8[Offset(es, k) + j] == es[k][j] {
      assert part[j] == es[k][j];
    }
  }

  /** A buffer with a zero-terminated character. */
  ghost predicate Holds(utf8char: seq<byte>, e: seq<byte>) {
    |e| < |utf8char| && utf8char[..|e|] == e && utf8char[|e|] == 0
  }

  // ---------------------------------------------------------------------------
  // One character
  // ---------------------------------------------------------------------------

  /** The bytes of a character announced by the first one, if none of them is zero. */
  ghost predicate IsWhole(utf8s: seq<byte>, pos: nat, slenmax: nat) {
    && pos < |utf8s| && pos + DetUtf8Length(utf8s[pos]) <= slenmax <= |utf8s|
    && forall j :: pos <= j < pos + DetUtf8Length(utf8s[pos]) ==> utf8s[j] != 0
  }

  lemma WholeAt(utf8s: seq<byte>, pos: nat, slenmax: nat, e: seq<byte>)
    requires IsAt(utf8s, pos, e) && pos + |e| <= slenmax <= |utf8s|
    ensures IsWhole(utf8s, pos, slenmax) && DetUtf8Length(utf8s[pos]) == |e| && utf8s[pos..pos + |e|] == e
  {
    assert utf8s[pos + 0] == e[0];
    forall j | pos <= j < pos + |e| ensures utf8s[j] != 0 {
      assert utf8s[pos + (j - pos)] == e[j - pos];
    }
  }

  /** Copies the next character, zero terminated, and moves behind it, whatever the bytes are. */
  method GetNextUtf8Char(utf8s: seq<byte>, slenmax: nat, pos: nat, utf8char: array<byte>) returns (ok: bool, pos': nat)
    requires pos < |utf8s| && slenmax <= |utf8s| && utf8char.Length == 5
    modifies utf8char
    ensures ok <==> IsWhole(utf8s, pos, slenmax)
    ensures pos' == if ok then pos + DetUtf8Length(utf8s[pos]) else pos
    ensures ok ==> Holds(utf8char[..], utf8s[pos..pos'])
  {
    utf8char[0] := 0;
    var len := DetUtf8Length(utf8s[pos]);
    if pos + len > slenmax || len > 4 {
      return false, pos;
    }
    var i, poscnt := 0, pos;
    while i < len && utf8s[poscnt] != 0
      invariant i <= len && poscnt == pos + i && utf8char[..i] == utf8s[pos..poscnt]
      invariant forall j :: pos <= j < poscnt ==> utf8s[j] != 0
    {
      utf8char[i] := utf8s[poscnt];
      poscnt := poscnt + 1;
      i := i + 1;
    }
    utf8char[i] := 0;
    if i < len && utf8s[poscnt] == 0 {
      return false, pos;
    }
    return true, poscnt;
  }

  /** The last `i` bytes before `pos` are as many as the first of them announces, none is zero, and they start at
      `slenmin` at the earliest. */
  ghost predicate PrevAt(utf8s: seq<byte>, slenmin: nat, pos: nat, i: nat) {
    && 1 <= i <= 4 && i <= pos <= |utf8s| && slenmin <= pos - i && DetUtf8Length(utf8s[pos - i]) == i
    && forall j :: pos - i <= j < pos ==> utf8s[j] != 0
  }

  /** The search does not run past the start of the string (its unsigned position would wrap around). */
  ghost predicate StopsInside(utf8s: seq<byte>, slenmin: nat, pos: nat) {
    && pos <= |utf8s|
    && (pos == 0 || slenmin > 0 || pos >= 4 ||
        exists j :: 0 <= j < pos && (utf8s[j] == 0 || DetUtf8Length(utf8s[j]) == pos - j))
  }

  /** None of the last i - 1 bytes stops the search. */
  ghost predicate Passed(utf8s: seq<byte>, slenmin: nat, pos: nat, i: nat) {
    && pos <= |utf8s| && i <= pos + 1
    && forall j :: pos - i < j < pos ==> j >= slenmin && utf8s[j] != 0 && DetUtf8Length(utf8s[j]) != pos - j
  }

  /** Copies the previous character, zero terminated, and moves to it, whatever the bytes are. */
  method GetPrevUtf8Char(utf8s: seq<byte>, slenmin: nat, pos: nat, utf8char: array<byte>) returns (ok: bool, pos': nat)
    requires StopsInside(utf8s, slenmin, pos) && utf8char.Length == 5
    modifies utf8char
    ensures ok <==> exists i: nat :: PrevAt(utf8s, slenmin, pos, i)
    ensures ok ==> pos' < pos && PrevAt(utf8s, slenmin, pos, pos - pos') && Holds(utf8char[..], utf8s[pos'..pos])
    ensures ok ==> forall i: nat :: PrevAt(utf8s, slenmin, pos, i) ==> i >= pos - pos'
    ensures !ok ==> pos' == pos
  {
    utf8char[0] := 0;
    if pos == 0 {
      return false, pos;
    }
    var i, poscnt := 1, pos - 1;
    while i <= 4 && poscnt >= slenmin && utf8s[poscnt] != 0
      invariant 1 <= i <= 5 && poscnt == pos - i && (i <= 4 ==> poscnt >= 0 || slenmin > 0)
      invariant Passed(utf8s, slenmin, pos, i)
    {
      var len := DetUtf8Length(utf8s[poscnt]);
      if len == i {
        CopyChar(utf8s, poscnt, len, utf8char);
        assert PrevAt(utf8s, slenmin, pos, i);
        return true, poscnt;
      }
      i := i + 1;
      poscnt := poscnt - 1;
    }
    NonePrev(utf8s, slenmin, pos, i);
    return false, pos;
  }

  /** The search has ended without result. */
  lemma NonePrev(utf8s: seq<byte>, slenmin: nat, pos: nat, i: nat)
    requires 1 <= i && pos <= |utf8s| && Passed(utf8s, slenmin, pos, i)
    requires i > 4 || pos - i < slenmin || utf8s[pos - i] == 0
    ensures forall k: nat :: !PrevAt(utf8s, slenmin, pos, k)
  {
    forall k: nat ensures !PrevAt(utf8s, slenmin, pos, k) {
      if 1 <= k < i && k <= pos {
        var j := pos - k;
        assert DetUtf8Length(utf8s[j]) != pos - j;
      } else if i <= 4 && slenmin <= pos - i {
        assert utf8s[pos - i] == 0;
      }
    }
  }

  /** Copies the `len` bytes from `pos` on. */
  method CopyChar(utf8s: seq<byte>, pos: nat, len: nat, utf8char: array<byte>)
    requires 1 <= len <= 4 && pos + len <= |utf8s| && utf8char.Length == 5
    modifies utf8char
    ensures Holds(utf8char[..], utf8s[pos..pos + len])
  {
    var j := 0;
    while j < len
      invariant j <= len && utf8char[..j] == utf8s[pos..pos + j]
    {
      utf8char[j] := utf8s[pos + j];
      j := j + 1;
    }
    utf8char[j] := 0;
  }

  /** From behind a character, the search finds that character. */
  lemma PrevOfChar(utf8s: seq<byte>, slenmin: nat, start: nat, e: seq<byte>, pos: nat)
    requires IsAt(utf8s, start, e) && slenmin <= start && pos == start + |e|
    ensures StopsInside(utf8s, slenmin, pos) && PrevAt(utf8s, slenmin, pos, |e|)
    ensures forall i: nat :: PrevAt(utf8s, slenmin, pos, i) ==> i >= |e|
    ensures utf8s[start..pos] == e
  {
    WholeAt(utf8s, start, |utf8s|, e);
    forall i: nat | 1 <= i < |e| ensures !PrevAt(utf8s, slenmin, pos, i) {
      assert utf8s[start + (|e| - i)] == e[|e| - i];
    }
  }

  /** Going back from behind a character undoes going forward. */
  method NextThenPrev(utf8s: seq<byte>, slenmin: nat, slenmax: nat, utf8char: array<byte>, ghost es: seq<seq<byte>>,
        ghost k: nat, pos: nat)
    returns (ok: bool, back: nat)
    requires AreChars(es) && Flatten(es) <= utf8s && |Flatten(es)| <= slenmax <= |utf8s| && k < |es|
             && pos == Offset(es, k)
    requires slenmin <= pos && utf8char.Length == 5
    modifies utf8char
    ensures ok && back == pos && Holds(utf8char[..], es[k])
  {
    hide IsWhole, IsChar, AreChars, StopsInside, PrevAt, Flatten;
    CharAt(es, utf8s, k);
    WholeAt(utf8s, pos, slenmax, es[k]);
    var ahead: nat;
    ok, ahead := GetNextUtf8Char(utf8s, slenmax, pos, utf8char);
    PrevOfChar(utf8s, slenmin, pos, es[k], ahead);
    ok, back := GetPrevUtf8Char(utf8s, slenmin, ahead, utf8char);
  }

  // ---------------------------------------------------------------------------
  // Length
  // ---------------------------------------------------------------------------

  /** A zero-terminated string in memory. */
  ghost predicate IsString(utf8: seq<byte>, es: seq<seq<byte>>) {
    AreChars(es) && Flatten(es) <= utf8 && |Flatten(es)| < |utf8| && utf8[|Flatten(es)|] == 0
  }

  /** The number of characters that start in the first `n` bytes. */
  ghost predicate Started(es: seq<seq<byte>>, n: nat, k: nat) {
    k <= |es| && (k > 0 ==> Offset(es, k - 1) < n) && (k < |es| ==> Offset(es, k) >= n)
  }

  lemma {:induction false} OffsetMonotone(es: seq<seq<byte>>, j: nat, k: nat)
    requires AreChars(es) && j <= k <= |es|
    ensures Offset(es, j) + (k - j) <= Offset(es, k)
  {
    if j >= k {
    } else {
      CharAt(es, Flatten(es), k - 1);
      OffsetMonotone(es, j, k - 1);
    }
  }

  lemma StartedUnique(es: seq<seq<byte>>, n: nat, j: nat, k: nat)
    requires AreChars(es) && Started(es, n, j) && Started(es, n, k)
    ensures j == k
  {
    if j < k { OffsetMonotone(es, j, k - 1); }
    if k < j { OffsetMonotone(es, k, j - 1); }
  }

  /** Byte `i` of a string: character k starts `follow` bytes later. */
  lemma ByteAt(es: seq<seq<byte>>, utf8: seq<byte>, i: nat, follow: nat, k: nat)
    requires IsString(utf8, es) && k <= |es| && i + follow == Offset(es, k)
    requires follow > 0 ==> k > 0 && Offset(es, k - 1) < i
    ensures i < |utf8|
    ensures follow > 0 ==> 128 <= utf8[i] < 192
    ensures follow == 0 && k == |es| ==> utf8[i] == 0
    ensures follow == 0 && k < |es| ==>
              utf8[i] != 0 && DetUtf8Length(utf8[i]) == |es[k]| && Offset(es, k + 1) == i + |es[k]|
  {
    if follow > 0 {
      CharAt(es, utf8, k - 1);
      var d := i - Offset(es, k - 1);
      assert utf8[Offset(es, k - 1) + d] == es[k - 1][d];
    } else if k < |es| {
      CharAt(es, utf8, k);
      assert utf8[i + 0] == es[k][0];
    } else {
      OffsetAll(es);
    }
  }

  /** One byte of a string, `follow` bytes before the next character starts. */
  method CountByte(x: byte, follow: nat) returns (ok: bool, follow': nat, started: nat)
    ensures ok <==> if follow > 0 then 128 <= x < 192 else DetUtf8Length(x) > 0
    ensures ok ==> follow' == (if follow > 0 then follow else DetUtf8Length(x)) - 1
    ensures ok ==> started == if follow > 0 then 0 else 1
  {
    ok, follow', started := true, 0, 0;
    if follow > 0 {
      if x >= 128 && x < 192 {
        follow' := follow - 1;
      } else {
        ok := false;
      }
    } else if x < 128 {
      started := 1;
    } else if x >= 248 {
      ok := false;
    } else if x >= 240 {
      follow', started := 3, 1;
    } else if x >= 224 {
      follow', started := 2, 1;
    } else if x >= 192 {
      follow', started := 1, 1;
    } else {
      ok := false;
    }
  }

  /** The text that is looked at: up to a zero byte or the length limit. */
  ghost predicate IsExtent(utf8: seq<byte>, maxlen: nat, n: nat) {
    && n <= |utf8| && n <= maxlen && (forall j :: 0 <= j < n ==> utf8[j] != 0)
    && (n == maxlen || (n < |utf8| && utf8[n] == 0))
  }

  /** The first `n` bytes start the characters `es`, the last of which may be cut off. */
  ghost predicate Covers(es: seq<seq<byte>>, utf8: seq<byte>, n: nat) {
    AreChars(es) && n <= |utf8| && utf8[..n] <= Flatten(es)
  }

  /** A character of which `follow` bytes are missing. */
  ghost predicate Open(part: seq<byte>, follow: nat) {
    && |part| >= 1 && follow > 0 && part[0] != 0 && DetUtf8Length(part[0]) == |part| + follow
    && forall j :: 1 <= j < |part| ==> 128 <= part[j] < 192
  }

  /** The first `i` bytes are whole characters and a part of one. */
  ghost predicate Parsed(utf8: seq<byte>, i: nat, done: seq<seq<byte>>, part: seq<byte>, follow: nat) {
    && i <= |utf8| && AreChars(done) && utf8[..i] == Flatten(done) + part
    && if follow == 0 then part == [] else Open(part, follow)
  }

  /** There is only one way to take a text apart. */
  lemma {:induction false} ParseUnique(done: seq<seq<byte>>, part: seq<byte>, es: seq<seq<byte>>)
    requires AreChars(done) && AreChars(es) && Flatten(done) + part <= Flatten(es)
    ensures done <= es && part <= Flatten(es[|done|..]) && AreChars(es[|done|..])
    ensures Flatten(es) == Flatten(done) + Flatten(es[|done|..])
  {
    if done == [] {
    } else {
      hide IsChar;
      FlattenCons(done, part);
      FirstUnique(done[0], Flatten(done[1..]) + part, es);
      ParseUnique(done[1..], part, es[1..]);
      TailPrefix(done, es);
      FlattenCons(done, Flatten(es[|done|..]));
    }
  }

  lemma FlattenCons(done: seq<seq<byte>>, part: seq<byte>)
    requires done != []
    ensures Flatten(done) + part == done[0] + (Flatten(done[1..]) + part)
  {
  }

  lemma TailPrefix(done: seq<seq<byte>>, es: seq<seq<byte>>)
    requires done != [] && es != [] && es[0] == done[0] && done[1..] <= es[1..]
    ensures done <= es && es[1..][|done| - 1..] == es[|done|..]
  {
    assert done == [done[0]] + done[1..] && es == [es[0]] + es[1..];
  }

  lemma FirstUnique(d: seq<byte>, tail: seq<byte>, es: seq<seq<byte>>)
    requires IsChar(d) && AreChars(es) && d + tail <= Flatten(es)
    ensures es != [] && es[0] == d && tail <= Flatten(es[1..])
  {
    var all := Flatten(es);
    assert (d + tail)[0] == d[0];
    assert all == es[0] + Flatten(es[1..]) && IsChar(es[0]) && all[0] == es[0][0];
    assert |es[0]| == |d|;
    assert all[..|d|] == es[0] && (d + tail)[..|d|] == d;
    assert all[|d|..] == Flatten(es[1..]) && (d + tail)[|d|..] == tail;
  }

  /** What must come next. */
  lemma NextByte(utf8: seq<byte>, i: nat, n: nat, done: seq<seq<byte>>, part: seq<byte>, follow: nat,
        es: seq<seq<byte>>)
    requires Parsed(utf8, i, done, part, follow) && i < n && Covers(es, utf8, n)
    ensures if follow > 0 then 128 <= utf8[i] < 192 else DetUtf8Length(utf8[i]) > 0
  {
    var x := utf8[i];
    assert utf8[..i + 1] == Flatten(done) + (part + [x]) && utf8[..n][..i + 1] == utf8[..i + 1];
    ParseUnique(done, part + [x], es);
    var rest := es[|done|..];
    var all := Flatten(rest);
    assert (part + [x])[0] == all[0] && (part + [x])[|part|] == all[|part|] == x;
    assert rest != [] && all == rest[0] + Flatten(rest[1..]) && IsChar(rest[0]);
    if follow > 0 {
      assert rest[0][0] == part[0] && all[|part|] == rest[0][|part|];
    } else {
      assert rest[0][0] == x;
    }
  }

  /** One byte more. */
  lemma ParsedNext(utf8: seq<byte>, i: nat, done: seq<seq<byte>>, part: seq<byte>, follow: nat, follow': nat)
    returns (done': seq<seq<byte>>, part': seq<byte>)
    requires Parsed(utf8, i, done, part, follow) && i < |utf8| && utf8[i] != 0
    requires if follow > 0 then 128 <= utf8[i] < 192 else DetUtf8Length(utf8[i]) > 0
    requires follow' == (if follow > 0 then follow else DetUtf8Length(utf8[i])) - 1
    ensures Parsed(utf8, i + 1, done', part', follow')
    ensures |done'| + (if follow' > 0 then 1 else 0) == |done| + 1
  {
    var next := part + [utf8[i]];
    assert utf8[..i + 1] == Flatten(done) + next;
    if follow' > 0 {
      done', part' := done, next;
    } else {
      done', part' := done + [next], [];
      FlattenAppend(done, next);
      assert IsChar(next);
    }
  }

  /** A parsed text is covered, and its characters are counted. */
  lemma ParsedCovered(utf8: seq<byte>, n: nat, done: seq<seq<byte>>, part: seq<byte>, follow: nat)
    requires Parsed(utf8, n, done, part, follow)
    ensures exists es :: Covers(es, utf8, n)
  {
    if follow == 0 {
      assert Covers(done, utf8, n);
    } else {
      var last: seq<byte> := part + seq(follow, _ => 128);
      FlattenAppend(done, last);
      assert Flatten(done) + part <= Flatten(done) + last && IsChar(last);
      assert Covers(done + [last], utf8, n);
    }
  }

  lemma ParsedStarted(utf8: seq<byte>, n: nat, done: seq<seq<byte>>, part: seq<byte>, follow: nat, es: seq<seq<byte>>)
    requires Parsed(utf8, n, done, part, follow) && Covers(es, utf8, n)
    ensures Started(es, n, |done| + if follow > 0 then 1 else 0)
  {
    ParseUnique(done, part, es);
    var (k, rest) := (|done|, es[|done|..]);
    assert es[..k] == done && Offset(es, k) + |part| == n;
    if k > 0 { OffsetMonotone(es, k - 1, k); }
    if follow > 0 {
      assert part[0] == Flatten(rest)[0] && rest != [] && rest[0] == es[k];
      assert Flatten(rest) == rest[0] + Flatten(rest[1..]) && rest[0][0] == part[0];
      CharAt(es, Flatten(es), k);
    }
  }

  /** The number of characters that start in the text; -1 if it is no text of characters (the last one may be cut
      off). */
  method Utf8Length(utf8str: seq<byte>, maxlen: nat, ghost n: nat) returns (len: int)
    requires IsExtent(utf8str, maxlen, n)
    ensures len >= -1 && (len >= 0 <==> exists es :: Covers(es, utf8str, n))
    ensures forall es :: Covers(es, utf8str, n) ==> len >= 0 && Started(es, n, len)
  {
    var ok, i, follow := true, 0, 0;
    ghost var done: seq<seq<byte>>, part: seq<byte> := [], [];
    len := 0;
    while ok && i < maxlen && utf8str[i] != 0
      invariant 0 <= i <= n && 0 <= follow
      invariant ok ==> Parsed(utf8str, i, done, part, follow) && len == |done| + if follow > 0 then 1 else 0
      invariant !ok ==> forall es :: !Covers(es, utf8str, n)
      decreases n - i
    {
      var follow', started: nat;
      ok, follow', started := CountByte(utf8str[i], follow);
      if ok {
        done, part := ParsedNext(utf8str, i, done, part, follow, follow');
      } else {
        forall es ensures !Covers(es, utf8str, n) {
          if Covers(es, utf8str, n) { NextByte(utf8str, i, n, done, part, follow, es); }
        }
      }
      len := len + started;
      follow := follow';
      i := i + 1;
    }
    if ok {
      ParsedCovered(utf8str, n, done, part, follow);
      forall es | Covers(es, utf8str, n) ensures Started(es, n, len) {
        ParsedStarted(utf8str, n, done, part, follow, es);
      }
      return len;
    } else {
      return -1;
    }
  }

  lemma {:induction false} NoZeros(es: seq<seq<byte>>, j: nat)
    requires AreChars(es) && j < |Flatten(es)|
    ensures Flatten(es)[j] != 0
    decreases |es|
  {
    if j < |es[0]| {
      assert IsChar(es[0]);
    } else {
      NoZeros(es[1..], j - |es[0]|);
    }
  }

  /** For a zero-terminated string of characters, the count is that of all characters, or of those that start before
      the limit. */
  lemma LengthOfString(utf8: seq<byte>, maxlen: nat, n: nat, es: seq<seq<byte>>, k: nat)
    requires IsString(utf8, es) && IsExtent(utf8, maxlen, n) && Started(es, n, k)
    ensures Covers(es, utf8, n) && Started(es, maxlen, k)
    ensures maxlen >= |Flatten(es)| ==> k == |es|
  {
    var all := Flatten(es);
    assert n <= |all|;
    if n < |all| {
      NoZeros(es, n);
      assert utf8[n] == all[n];
    }
    assert utf8[..n] <= all;
    OffsetAll(es);
    if n == |all| && k < |es| { OffsetMonotone(es, k, |es|); }
  }
}
