/** Code points in UTF-8, and strings in lower case (pico/lib/picobase.c). */
module CodePoints {
  import opened Concatenation
  import opened LowerCase
  import opened Powers
  import opened Utf8

  /** The code points of RFC 3629, without the zero that ends a string. */
  type Code = c: nat | 0 < c < 0x110000 witness 1

  /** The encoder of the program takes those below 2^20 only. */
  const LIMIT := 0x100000

  // ---------------------------------------------------------------------------
  // Single characters
  // ---------------------------------------------------------------------------

  /** Section 3 of RFC 3629. */
  function Encode(c: Code): (bytes: seq<byte>)
    ensures 1 <= |bytes| <= 4
  {
    if c < 128 then [c]
    else if c < 2048 then [192 + c / 64, 128 + c % 64]
    else if c < 65536 then [224 + c / 4096, 128 + c / 64 % 64, 128 + c % 64]
    else [240 + c / 262144, 128 + c / 4096 % 64, 128 + c / 64 % 64, 128 + c % 64]
  }

  lemma EncodeIsChar(c: Code)
    ensures IsChar(Encode(c))
  {
  }

  function Decode2(a: nat, b: nat): nat { 64 * (a % 32) + b % 64 }
  function Decode3(a: nat, b: nat, c: nat): nat { 4096 * (a % 16) + 64 * (b % 64) + c % 64 }
  function Decode4(a: nat, b: nat, c: nat, d: nat): nat { 262144 * (a % 8) + 4096 * (b % 64) + 64 * (c % 64) + d % 64 }

  /** Decodes the character at the start of a buffer. */
  function Utf8ToUtf32(utf8: seq<byte>): (r: (nat, bool))
    requires |utf8| >= 4
  {
    if utf8[0] < 128 then (utf8[0], true)
    else if utf8[0] >= 248 then (0, true)
    else if utf8[0] >= 240 then (Decode4(utf8[0], utf8[1], utf8[2], utf8[3]), true)
    else if utf8[0] >= 224 then (Decode3(utf8[0], utf8[1], utf8[2]), true)
    else if utf8[0] >= 192 then (Decode2(utf8[0], utf8[1]), true)
    else (0, false)
  }

  lemma DecodeTwo(c: nat)
    requires c < 2048
    ensures Decode2(192 + c / 64, 128 + c % 64) == c
  {
  }

  lemma DecodeThree(c: nat)
    requires c < 65536
    ensures Decode3(224 + c / 4096, 128 + c / 64 % 64, 128 + c % 64) == c
  {
    var h := c / 64;
    assert h / 64 == c / 4096;
  }

  lemma DecodeFour(c: nat)
    requires c < 0x200000
    ensures Decode4(240 + c / 262144, 128 + c / 4096 % 64, 128 + c / 64 % 64, 128 + c % 64) == c
  {
    assert c / 64 / 64 == c / 4096;
    assert c / 4096 / 64 == c / 262144;
    FourDigits(c, c / 64, c / 4096, c / 262144);
  }

  lemma FourDigits(c: nat, h: nat, g: nat, f: nat)
    requires h == c / 64 && g == h / 64 && f == g / 64 && f < 8
    ensures Decode4(240 + f, 128 + g % 64, 128 + h % 64, 128 + c % 64) == c
  {
    assert c == 64 * h + c % 64 && h == 64 * g + h % 64 && g == 64 * f + g % 64;
    SixBits(c);
    SixBits(h);
    SixBits(g);
    assert (240 + f) % 8 == f;
  }

  lemma SixBits(x: nat)
    ensures (128 + x % 64) % 64 == x % 64
  {
  }

  /** Decoding undoes encoding. */
  lemma DecodeEncode(c: Code, utf8: seq<byte>)
    requires |utf8| >= 4 && Encode(c) <= utf8
    ensures Utf8ToUtf32(utf8) == (c, true)
  {
    var e := Encode(c);
    assert utf8[..|e|] == e;
    if 128 <= c < 2048 {
      DecodeTwo(c);
    } else if 2048 <= c < 65536 {
      DecodeThree(c);
    } else if 65536 <= c {
      DecodeFour(c);
    }
  }

  /** Where two strings of bytes differ first, the first one has the lower byte. */
  ghost predicate Below(e: seq<byte>, f: seq<byte>) {
    exists k :: 0 <= k < |e| && k < |f| && e[..k] == f[..k] && e[k] < f[k]
  }

  lemma SixBitOrder(c: nat, d: nat)
    requires c < d
    ensures c / 64 < d / 64 || (c / 64 == d / 64 && c % 64 < d % 64)
  {
  }

  lemma BelowAt(e: seq<byte>, f: seq<byte>, k: nat)
    requires k < |e| && k < |f| && e[k] < f[k]
    requires forall j :: 0 <= j < k ==> e[j] == f[j]
    ensures Below(e, f)
  {
    assert e[..k] == f[..k];
  }

  lemma LengthOrder(c: Code, d: Code)
    requires c < d && |Encode(c)| != |Encode(d)|
    ensures Encode(c)[0] < Encode(d)[0]
  {
  }

  lemma LastByteOrder(c: Code, d: Code)
    requires c < d && |Encode(c)| == |Encode(d)| > 1 && c / 64 == d / 64
    ensures var (e, f) := (Encode(c), Encode(d)); var n := |e| - 1; e[..n] == f[..n] && e[n] < f[n]
  {
    SixBitOrder(c, d);
    assert c / 64 / 64 == c / 4096 && d / 64 / 64 == d / 4096;
    assert c / 4096 / 64 == c / 262144 && d / 4096 / 64 == d / 262144;
  }

  /** The encodings are in the order of the code points, as section 1 of RFC 3629 promises. */
  lemma EncodeOrdered(c: Code, d: Code)
    requires c < d
    ensures Below(Encode(c), Encode(d))
  {
    var (e, f) := (Encode(c), Encode(d));
    if |e| != |f| {
      LengthOrder(c, d);
      BelowAt(e, f, 0);
    } else if |e| == 1 {
      BelowAt(e, f, 0);
    } else if c / 64 == d / 64 {
      LastByteOrder(c, d);
      BelowAt(e, f, |e| - 1);
    } else {
      SixBitOrder(c, d);
      HigherOrder(c, d);
    }
  }

  lemma HigherOrder(c: Code, d: Code)
    requires |Encode(c)| == |Encode(d)| > 1 && c / 64 < d / 64
    ensures Below(Encode(c), Encode(d))
  {
    var (e, f) := (Encode(c), Encode(d));
    var (h, i) := (c / 64, d / 64);
    assert h / 64 == c / 4096 && i / 64 == d / 4096;
    SixBitOrder(h, i);
    if |e| == 2 || (|e| == 3 && h / 64 < i / 64) {
      BelowAt(e, f, 0);
    } else if |e| == 3 {
      BelowAt(e, f, 1);
    } else {
      HighestOrder(c, d, h, i);
    }
  }

  lemma HighestOrder(c: Code, d: Code, h: nat, i: nat)
    requires |Encode(c)| == |Encode(d)| == 4 && h == c / 64 && i == d / 64 && h < i
    ensures Below(Encode(c), Encode(d))
  {
    var (e, f) := (Encode(c), Encode(d));
    assert h / 64 == c / 4096 && i / 64 == d / 4096;
    assert h / 64 / 64 == c / 262144 && i / 64 / 64 == d / 262144;
    SixBitOrder(h, i);
    if h / 64 == i / 64 {
      BelowAt(e, f, 2);
    } else {
      SixBitOrder(h / 64, i / 64);
      if h / 64 / 64 == i / 64 / 64 {
        BelowAt(e, f, 1);
      } else {
        BelowAt(e, f, 0);
      }
    }
  }

  method EncodeInto(utf32: nat, utf8: array<byte>) returns (len: nat)
    requires utf32 < 0x100000 && utf8.Length >= 4
    modifies utf8
    ensures 1 <= len <= 4
    ensures utf32 > 0 ==> len == |Encode(utf32)| && utf8[..len] == Encode(utf32)
  {
    var u: nat := utf32;
    assert u / 64 / 64 == u / 4096 && u / 64 / 64 / 64 == u / 262144;
    if u < 128 {
      len := 1;
      utf8[0] := u;
    } else if u < 2048 {
      len := 2;
      utf8[1] := 128 + u % 64;
      u := u / 64;
      utf8[0] := 192 + u % 32;
    } else if u < 65536 {
      len := 3;
      utf8[2] := 128 + u % 64;
      u := u / 64;
      utf8[1] := 128 + u % 64;
      u := u / 64;
      utf8[0] := 224 + u;
    } else {
      len := 4;
      utf8[3] := 128 + u % 64;
      u := u / 64;
      utf8[2] := 128 + u % 64;
      u := u / 64;
      utf8[1] := 128 + u % 64;
      u := u / 64;
      utf8[0] := 240 + u;
    }
  }

  /** Encodes into a buffer of at least four bytes. */
  method Utf32ToUtf8(utf32: nat, utf8: array<byte>, utf8MaxLen: int) returns (len: nat, done: bool)
    requires utf8MaxLen <= utf8.Length
    modifies utf8
    ensures done <==> utf8MaxLen >= 4 && utf32 < 0x100000
    ensures !done ==> len == 0 && utf8[..] == old(utf8[..])
    ensures done && utf32 > 0 ==> len == |Encode(utf32)| && utf8[..len] == Encode(utf32)
    ensures done ==> len <= 4 && (len < utf8MaxLen ==> utf8[len] == 0)
  {
    if utf8MaxLen >= 4 {
      if utf32 >= 1048576 {
        return 0, false;
      }
      len := EncodeInto(utf32, utf8);
      if len <= utf8MaxLen - 1 {
        utf8[len] := 0;
      }
      done := true;
    } else {
      return 0, false;
    }
  }

  // ---------------------------------------------------------------------------
  // Strings
  // ---------------------------------------------------------------------------

  function Encodings(cs: seq<Code>): (es: seq<seq<byte>>)
    ensures |es| == |cs|
  {
    seq(|cs|, i requires 0 <= i < |cs| => Encode(cs[i]))
  }

  lemma EncodingsAreChars(cs: seq<Code>)
    ensures AreChars(Encodings(cs))
  {
    forall k | 0 <= k < |cs| ensures IsChar(Encodings(cs)[k]) {
      EncodeIsChar(cs[k]);
    }
  }

  lemma Lowered(c: Code)
    ensures 0 < Lower(c) < 0x110000 && |Encode(Lower(c))| <= |Encode(c)| && (Lower(c) < LIMIT <==> c < LIMIT)
  {
    LowerNotLonger(c);
  }

  function LowerCode(c: Code): Code {
    LowerNotLonger(c);
    Lower(c)
  }

  function LowerAll(cs: seq<Code>): (ls: seq<Code>)
    ensures |ls| == |cs|
  {
    seq(|cs|, i requires 0 <= i < |cs| => LowerCode(cs[i]))
  }

  /** The code points that the encoder takes. */
  function Kept(cs: seq<Code>): seq<Code> {
    if cs == [] then []
    else
      var n := |cs| - 1;
      Kept(cs[..n]) + if cs[n] < LIMIT then [cs[n]] else []
  }

  /** The string in lower case; code points that the encoder does not take are dropped. */
  function LowerString(cs: seq<Code>): seq<byte> { Flatten(Encodings(LowerAll(Kept(cs)))) }

  function Written(c: Code): seq<byte> { if c < LIMIT then Encode(LowerCode(c)) else [] }

  lemma LowerStringStep(cs: seq<Code>, n: nat)
    requires n < |cs|
    ensures LowerString(cs[..n + 1]) == LowerString(cs[..n]) + Written(cs[n])
  {
    assert cs[..n + 1][..n] == cs[..n];
    var ks := Kept(cs[..n]);
    if cs[n] < LIMIT {
      assert Encodings(LowerAll(ks + [cs[n]])) == Encodings(LowerAll(ks)) + [Encode(LowerCode(cs[n]))];
      FlattenAppend(Encodings(LowerAll(ks)), Encode(LowerCode(cs[n])));
    } else {
      assert ks + [] == ks;
    }
  }

  /** From U+100000 on, nothing is written, and the conversion still counts as done. */
  lemma HighCodesDropped(c: Code)
    ensures LowerString([c]) == [] <==> c >= LIMIT
  {
    assert [c][..0] == [] && LowerAll([]) == [] && Encodings([]) == [];
    LowerStringStep([c], 0);
    assert [c][..1] == [c];
  }

  lemma EncodingsStep(cs: seq<Code>, n: nat)
    requires n < |cs|
    ensures Flatten(Encodings(cs[..n + 1])) == Flatten(Encodings(cs[..n])) + Encode(cs[n])
  {
    hide Encode;
    assert Encodings(cs[..n + 1]) == Encodings(cs[..n]) + [Encode(cs[n])];
    FlattenAppend(Encodings(cs[..n]), Encode(cs[n]));
  }

  lemma NothingWritten(cs: seq<Code>)
    ensures LowerString(cs[..0]) == []
  {
    assert cs[..0] == [] && LowerAll([]) == [] && Encodings([]) == [];
  }

  lemma WrittenNotLonger(c: Code)
    ensures |Written(c)| <= |Encode(c)|
  {
    Lowered(c);
  }

  /** Lower case never takes more bytes. */
  lemma {:induction false} LowerStringNotLonger(cs: seq<Code>, n: nat)
    requires n <= |cs|
    ensures |LowerString(cs[..n])| <= |Flatten(Encodings(cs[..n]))|
  {
    hide *;
    if n == 0 {
      NothingWritten(cs);
    } else {
      LowerStringNotLonger(cs, n - 1);
      LowerStringStep(cs, n - 1);
      EncodingsStep(cs, n - 1);
      WrittenNotLonger(cs[n - 1]);
    }
  }

  // ---------------------------------------------------------------------------
  // Strings of ASCII characters
  // ---------------------------------------------------------------------------

  predicate Ascii(cs: seq<Code>) { forall j :: 0 <= j < |cs| ==> cs[j] < 128 }

  /** The letters A to Z become a to z, and nothing else changes. */
  predicate AsciiLowered(before: nat, after: nat) { after == if 65 <= before <= 90 then before + 32 else before }

  lemma AsciiCode(c: Code)
    requires c < 128
    ensures Encode(c) == [c] && |Written(c)| == 1 && AsciiLowered(c, Written(c)[0])
    ensures LowerCode(c) == c <==> !(65 <= c <= 90)
  {
  }

  /** Character n of the string is byte n. */
  lemma {:induction false} AsciiBytes(cs: seq<Code>, n: nat)
    requires Ascii(cs) && n <= |cs|
    ensures Offset(Encodings(cs), n) == n && |Flatten(Encodings(cs[..n]))| == n
    ensures forall j :: 0 <= j < n ==> Flatten(Encodings(cs[..n]))[j] == cs[j]
  {
    hide Flatten, Encode;
    assert Encodings(cs)[..n] == Encodings(cs[..n]);
    if n == 0 {
      assert cs[..0] == [] && Encodings([]) == [];
      OffsetAll(Encodings(cs));
    } else {
      AsciiBytes(cs, n - 1);
      EncodingsStep(cs, n - 1);
      AsciiCode(cs[n - 1]);
    }
  }

  /** In a string of ASCII characters, exactly the bytes 65 to 90 change, each by 32. */
  lemma {:induction false} AsciiLowerString(cs: seq<Code>, n: nat)
    requires Ascii(cs) && n <= |cs|
    ensures |LowerString(cs[..n])| == n
    ensures forall j :: 0 <= j < n ==> AsciiLowered(cs[j], LowerString(cs[..n])[j])
  {
    hide LowerString, Written, LowerCode, Encode;
    if n == 0 {
      NothingWritten(cs);
    } else {
      AsciiLowerString(cs, n - 1);
      LowerStringStep(cs, n - 1);
      AsciiCode(cs[n - 1]);
    }
  }

  /** What the bytes of a string of ASCII characters are converted to. */
  lemma AsciiConverted(cs: seq<Code>, utf8: seq<byte>, lowercase: seq<byte>, k: nat)
    requires IsString(utf8, Encodings(cs)) && Ascii(cs)
    requires k <= |lowercase| && k <= |LowerString(cs)| && lowercase[..k] == LowerString(cs)[..k]
    ensures |LowerString(cs)| == |cs| < |utf8|
    ensures forall j :: 0 <= j < k ==> AsciiLowered(utf8[j], lowercase[j])
  {
    hide LowerString, Encodings, Ascii, AsciiLowered;
    assert cs[..|cs|] == cs;
    AsciiBytes(cs, |cs|);
    AsciiLowerString(cs, |cs|);
    forall j | 0 <= j < k ensures AsciiLowered(utf8[j], lowercase[j]) {
      assert utf8[j] == cs[j];
      assert lowercase[j] == lowercase[..k][j];
    }
  }

  lemma LowerIsString(cs: seq<Code>, utf8: seq<byte>, k: nat)
    requires k < |utf8| && utf8[..k] == LowerString(cs) && utf8[k] == 0
    ensures IsString(utf8, Encodings(LowerAll(Kept(cs))))
  {
    EncodingsAreChars(LowerAll(Kept(cs)));
  }

  /** Copies the character at `pos`, zero terminated, and moves behind it. */
  method GetUtf8Char(utf8: seq<byte>, pos: nat, utf8char: array<byte>, ghost e: seq<byte>) returns (pos': nat)
    requires IsAt(utf8, pos, e) && utf8char.Length == 5
    modifies utf8char
    ensures pos' == pos + |e| && Holds(utf8char[..], e)
  {
    assert utf8[pos + 0] == e[0];
    utf8char[0] := 0;
    var l, i := DetUtf8Length(utf8[pos]), 0;
    pos' := pos;
    while i < l && i < 4 && utf8[pos'] != 0
      invariant i <= l && pos' == pos + i && utf8char[..i] == e[..i]
      invariant i < l ==> utf8[pos + i] == e[i]
    {
      utf8char[i] := utf8[pos'];
      pos' := pos' + 1;
      i := i + 1;
      assert i < l ==> utf8[pos + i] == e[i];
    }
    utf8char[i] := 0;
  }

  /** Reads the code point at `pos`. */
  method GetCode(utf8: seq<byte>, pos: nat, utf8char: array<byte>, ghost c: Code) returns (utf32: nat, pos': nat)
    requires IsAt(utf8, pos, Encode(c)) && utf8char.Length == 5
    modifies utf8char
    ensures utf32 == c && pos' == pos + |Encode(c)|
  {
    pos' := GetUtf8Char(utf8, pos, utf8char, Encode(c));
    DecodeEncode(c, utf8char[..]);
    var r := Utf8ToUtf32(utf8char[..]);
    utf32 := r.0;
  }

  /** The first `k` bytes are those of `low`, as many as fit with a zero behind them. */
  ghost predicate WrittenTo(lowercase: seq<byte>, k: nat, maxLen: nat, low: seq<byte>) {
    && k <= |low| && k < maxLen <= |lowercase| && lowercase[..k] == low[..k]
    && (k < |low| ==> k == maxLen - 1)
  }

  /** Appends a character as far as there is room; `low` is what should have been written so far. */
  method AppendChar(lowercase: array<byte>, k: nat, utf8char: array<byte>, l: nat, maxLen: nat, ghost low: seq<byte>)
    returns (k': nat, all: bool)
    requires l <= utf8char.Length && lowercase != utf8char && WrittenTo(lowercase[..], k, maxLen, low)
    modifies lowercase
    ensures WrittenTo(lowercase[..], k', maxLen, low + utf8char[..l])
    ensures if k < |low| then k' == k else all <==> k' == |low| + l
  {
    ghost var e := utf8char[..l];
    ghost var low' := low + e;
    var j := 0;
    k' := k;
    while j < l && k' < maxLen - 1
      invariant j <= l && k' == k + j && k' < maxLen && (k < |low| ==> j == 0) && lowercase[..k'] == low'[..k']
    {
      assert low'[k'] == e[j];
      lowercase[k'] := utf8char[j];
      k' := k' + 1;
      j := j + 1;
    }
    all := j == l;
  }

  /** Appends the lower-case form of character `n`, which starts at `i`. */
  method LowerNext(utf8str: seq<byte>, i: nat, utf8char: array<byte>, lowercase: array<byte>, k: nat, maxLen: nat,
                   ghost cs: seq<Code>, ghost n: nat)
    returns (i': nat, k': nat, all: bool)
    requires IsString(utf8str, Encodings(cs)) && n < |cs| && i == Offset(Encodings(cs), n)
    requires utf8char.Length == 5 && lowercase != utf8char && WrittenTo(lowercase[..], k, maxLen, LowerString(cs[..n]))
    modifies utf8char, lowercase
    ensures i' == Offset(Encodings(cs), n + 1) && WrittenTo(lowercase[..], k', maxLen, LowerString(cs[..n + 1]))
    ensures |LowerString(cs[..n])| <= |LowerString(cs[..n + 1])|
    ensures if k < |LowerString(cs[..n])| then k' == k else all <==> k' == |LowerString(cs[..n + 1])|
  {
    CharAt(Encodings(cs), utf8str, n);
    var c := cs[n];
    assert Encodings(cs)[n] == Encode(c) && LowerCode(c) == Lower(c);
    assert Written(c) == if c < LIMIT then Encode(LowerCode(c)) else [];
    hide *;
    var utf32: nat;
    utf32, i' := GetCode(utf8str, i, utf8char, c);
    Lowered(c);
    utf32 := Lower(utf32);
    var l, done1 := Utf32ToUtf8(utf32, utf8char, 4);
    LowerStringStep(cs, n);
    assert utf8char[..l] == Written(c);
    k', all := AppendChar(lowercase, k, utf8char, l, maxLen, LowerString(cs[..n]));
  }

  /** The string in lower case, as much of it as fits with a terminating zero. */
  method LowercaseUtf8Str(utf8str: seq<byte>, lowercase: array<byte>, lowercaseMaxLen: nat, ghost cs: seq<Code>)
    returns (k: nat, done: bool)
    requires IsString(utf8str, Encodings(cs)) && 1 <= lowercaseMaxLen <= lowercase.Length
    modifies lowercase
    ensures var low := LowerString(cs);
            && k == (if |low| < lowercaseMaxLen then |low| else lowercaseMaxLen - 1)
            && lowercase[..k] == low[..k] && lowercase[k] == 0
            && (done <==> |low| < lowercaseMaxLen)
    ensures |Flatten(Encodings(cs))| < lowercaseMaxLen ==> done
    ensures done ==> IsString(lowercase[..], Encodings(LowerAll(Kept(cs))))
    ensures Ascii(cs) ==> k <= |cs| < |utf8str| && (done <==> k == |cs|)
    ensures Ascii(cs) ==> forall j :: 0 <= j < k ==> AsciiLowered(utf8str[j], lowercase[j])
  {
    var utf8char := new byte[5];
    var i := 0;
    ghost var (n, es) := (0, Encodings(cs));
    k, done := 0, true;
    NothingWritten(cs);
    OffsetAll(es);
    ByteAt(es, utf8str, 0, 0, 0);
    hide LowerString, IsString, Flatten, Encodings;
    while utf8str[i] != 0
      invariant n <= |cs| && i == Offset(es, n) && i < |utf8str| && (utf8str[i] == 0 <==> n == |cs|)
      invariant WrittenTo(lowercase[..], k, lowercaseMaxLen, LowerString(cs[..n]))
      invariant done <==> k == |LowerString(cs[..n])|
      decreases |cs| - n
    {
      var all: bool;
      i, k, all := LowerNext(utf8str, i, utf8char, lowercase, k, lowercaseMaxLen, cs, n);
      done := done && all;
      n := n + 1;
      ByteAt(es, utf8str, i, 0, n);
    }
    lowercase[k] := 0;
    assert cs[..n] == cs;
    LowerStringNotLonger(cs, n);
    if done { LowerIsString(cs, lowercase[..], k); }
    if Ascii(cs) { AsciiConverted(cs, utf8str, lowercase[..], k); }
  }

  /** `flags[k]` tells whether character k is its own lower-case form. */
  ghost predicate FlagAt(cs: seq<Code>, flags: seq<bool>, k: nat) {
    k < |cs| == |flags| && flags[k] == (LowerCode(cs[k]) == cs[k])
  }

  method NextIsLower(utf8str: seq<byte>, i: nat, utf8char: array<byte>, ghost cs: seq<Code>, ghost flags: seq<bool>,
        ghost n: nat)
    returns (isLower: bool, i': nat)
    requires IsString(utf8str, Encodings(cs)) && utf8char.Length == 5
    requires n < |cs| && i == Offset(Encodings(cs), n) && FlagAt(cs, flags, n)
    modifies utf8char
    ensures isLower == flags[n] && i' == Offset(Encodings(cs), n + 1)
  {
    CharAt(Encodings(cs), utf8str, n);
    var utf32: nat;
    utf32, i' := GetCode(utf8str, i, utf8char, cs[n]);
    isLower := utf32 == Lower(utf32);
  }

  method TestLower(utf8str: seq<byte>, utf8strmaxlen: nat, ghost cs: seq<Code>, ghost flags: seq<bool>)
    returns (isLowerCase: bool)
    requires IsString(utf8str, Encodings(cs)) && |flags| == |cs| && forall k :: 0 <= k < |cs| ==> FlagAt(cs, flags, k)
    ensures isLowerCase <==> forall k :: 0 <= k < |cs| && Offset(Encodings(cs), k) < utf8strmaxlen ==> flags[k]
  {
    var utf8char := new byte[5];
    var i := 0;
    ghost var (n, es) := (0, Encodings(cs));
    isLowerCase := true;
    OffsetAll(es);
    ByteAt(es, utf8str, 0, 0, 0);
    hide Encodings, IsString, IsChar, LowerCode, Encode, FlagAt, Flatten;
    while isLowerCase && i < utf8strmaxlen && utf8str[i] != 0
      invariant 0 <= n <= |cs| && i == Offset(es, n) && i < |utf8str| && (utf8str[i] == 0 <==> n == |cs|)
      invariant isLowerCase ==> forall k :: 0 <= k < n ==> flags[k]
      invariant !isLowerCase ==> n > 0 && Offset(es, n - 1) < utf8strmaxlen && !flags[n - 1]
      decreases |cs| - n
    {
      assert FlagAt(cs, flags, n);
      var isLower: bool;
      isLower, i := NextIsLower(utf8str, i, utf8char, cs, flags, n);
      isLowerCase := isLowerCase && isLower;
      n := n + 1;
      ByteAt(es, utf8str, i, 0, n);
    }
    if isLowerCase {
      forall k | n <= k < |cs| ensures Offset(es, k) >= i { OffsetMonotone(es, n, k); }
    }
  }

  lemma AsciiTested(cs: seq<Code>, utf8: seq<byte>, flags: seq<bool>, max: nat, isLowerCase: bool)
    requires IsString(utf8, Encodings(cs)) && Ascii(cs)
    requires |flags| == |cs| && forall k :: 0 <= k < |cs| ==> FlagAt(cs, flags, k)
    requires isLowerCase <==> forall k :: 0 <= k < |cs| && Offset(Encodings(cs), k) < max ==> flags[k]
    ensures |cs| < |utf8|
    ensures isLowerCase <==> forall k :: 0 <= k < |cs| && k < max ==> !(65 <= utf8[k] <= 90)
  {
    hide Encodings, LowerCode, Encode, Flatten, Offset;
    assert cs[..|cs|] == cs;
    AsciiBytes(cs, |cs|);
    forall k | 0 <= k < |cs|
      ensures Offset(Encodings(cs), k) == k && utf8[k] == cs[k] && (flags[k] <==> !(65 <= utf8[k] <= 90))
    {
      AsciiBytes(cs, k);
      AsciiCode(cs[k]);
      assert FlagAt(cs, flags, k);
    }
  }

  /** Whether all characters that start before `maxlen` are their own lower-case forms. */
  method IsUtf8Lowercase(utf8str: seq<byte>, utf8strmaxlen: nat, ghost cs: seq<Code>) returns (isLowerCase: bool)
    requires IsString(utf8str, Encodings(cs))
    ensures isLowerCase <==>
            forall k :: 0 <= k < |cs| && Offset(Encodings(cs), k) < utf8strmaxlen ==> LowerAll(cs)[k] == cs[k]
    ensures Ascii(cs) ==> |cs| < |utf8str|
    ensures Ascii(cs) ==>
              (isLowerCase <==> forall k :: 0 <= k < |cs| && k < utf8strmaxlen ==> !(65 <= utf8str[k] <= 90))
  {
    ghost var flags := seq(|cs|, k requires 0 <= k < |cs| => LowerAll(cs)[k] == cs[k]);
    forall k | 0 <= k < |cs| ensures FlagAt(cs, flags, k) {
      assert flags[k] == (LowerAll(cs)[k] == cs[k]);
    }
    isLowerCase := TestLower(utf8str, utf8strmaxlen, cs, flags);
    if Ascii(cs) { AsciiTested(cs, utf8str, flags, utf8strmaxlen, isLowerCase); }
  }

  /** A string in lower case stays what it is, so that the test accepts it. */
  lemma LoweredIsLower(cs: seq<Code>)
    ensures LowerAll(LowerAll(cs)) == LowerAll(cs)
  {
    forall k | 0 <= k < |cs| ensures LowerAll(LowerAll(cs))[k] == LowerAll(cs)[k] {
      LowerIdempotent(cs[k]);
    }
  }
}
