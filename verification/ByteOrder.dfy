/** Strings of bytes in lexicographic order. */
module ByteOrder {
  import opened Powers

  /** -1, 0 or 1 as `a` comes before, is, or comes after `b`. */
  function Cmp(a: seq<byte>, b: seq<byte>): (r: int)
    ensures -1 <= r <= 1
  {
    if a == [] then (if b == [] then 0 else -1)
    else if b == [] then 1
    else if a[0] < b[0] then -1
    else if a[0] > b[0] then 1
    else Cmp(a[1..], b[1..])
  }

  lemma {:induction false} CmpEqual(a: seq<byte>, b: seq<byte>)
    ensures Cmp(a, b) == 0 <==> a == b
  {
    if a != [] && b != [] {
      CmpEqual(a[1..], b[1..]);
      assert a == [a[0]] + a[1..] && b == [b[0]] + b[1..];
    }
  }

  lemma {:induction false} CmpSwap(a: seq<byte>, b: seq<byte>)
    ensures Cmp(b, a) == -Cmp(a, b)
  {
    if a != [] && b != [] { CmpSwap(a[1..], b[1..]); }
  }

  lemma {:induction false} CmpTransitive(a: seq<byte>, b: seq<byte>, c: seq<byte>)
    requires Cmp(a, b) <= 0 && Cmp(b, c) <= 0
    ensures Cmp(a, c) <= 0 && (Cmp(a, b) < 0 || Cmp(b, c) < 0 ==> Cmp(a, c) < 0)
  {
    if a != [] && b != [] && c != [] && a[0] == b[0] == c[0] {
      CmpTransitive(a[1..], b[1..], c[1..]);
    }
  }

  /** A common prefix does not matter. */
  lemma {:induction false} CmpPrefix(a: seq<byte>, b: seq<byte>, i: nat)
    requires i <= |a| && i <= |b| && a[..i] == b[..i]
    ensures Cmp(a, b) == Cmp(a[i..], b[i..])
  {
    if i > 0 {
      assert a[0] == a[..i][0] && b[0] == b[..i][0];
      assert a[1..][..i - 1] == a[..i][1..] && b[1..][..i - 1] == b[..i][1..];
      CmpPrefix(a[1..], b[1..], i - 1);
      assert a[1..][i - 1..] == a[i..] && b[1..][i - 1..] == b[i..];
    } else {
      assert a[0..] == a && b[0..] == b;
    }
  }

  /** The byte at `i`, or zero behind the end. */
  function Padded(a: seq<byte>, i: nat): byte { if i < |a| then a[i] else 0 }

  /** The first three bytes as a number. */
  function Key3(a: seq<byte>): nat { Three(Padded(a, 0), Padded(a, 1), Padded(a, 2)) }

  function Three(a: nat, b: nat, c: nat): nat { 0x10000 * a + 0x100 * b + c }

  lemma Key3Monotone(a: seq<byte>, b: seq<byte>)
    requires Cmp(a, b) <= 0
    ensures Key3(a) <= Key3(b)
  {
    if a != [] && b != [] && a[0] == b[0] {
      var (a1, b1) := (a[1..], b[1..]);
      if a1 != [] && b1 != [] && a1[0] == b1[0] {
        assert a1[1..] != [] && b1[1..] != [] ==> a1[1..][0] <= b1[1..][0];
      }
    }
  }
}
