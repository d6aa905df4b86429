/** Strings put together from parts. */
module Concatenation {

  function Flatten<T>(parts: seq<seq<T>>): seq<T> {
    if parts == [] then [] else parts[0] + Flatten(parts[1..])
  }

  lemma {:induction false} FlattenConcat<T>(xs: seq<seq<T>>, ys: seq<seq<T>>)
    ensures Flatten(xs + ys) == Flatten(xs) + Flatten(ys)
  {
    if xs == [] {
      assert xs + ys == ys;
    } else {
      FlattenConcat(xs[1..], ys);
      ConsConcat(xs, ys);
      Associative(xs[0], Flatten(xs[1..]), Flatten(ys));
    }
  }

  lemma ConsConcat<T>(xs: seq<T>, ys: seq<T>)
    requires xs != []
    ensures xs + ys != [] && (xs + ys)[0] == xs[0] && (xs + ys)[1..] == xs[1..] + ys
  {
  }

  lemma Associative<T>(a: seq<T>, b: seq<T>, c: seq<T>)
    ensures (a + b) + c == a + (b + c)
  {
  }

  lemma FlattenAppend<T>(xs: seq<seq<T>>, x: seq<T>)
    ensures Flatten(xs + [x]) == Flatten(xs) + x
  {
    FlattenConcat(xs, [x]);
    assert Flatten([x]) == x + Flatten([][..]);
  }

  /** Where part k starts. */
  function Offset<T>(parts: seq<seq<T>>, k: nat): nat
    requires k <= |parts|
  {
    |Flatten(parts[..k])|
  }

  lemma PartAt<T>(parts: seq<seq<T>>, all: seq<T>, k: nat)
    requires Flatten(parts) <= all && k < |parts|
    ensures Offset(parts, k + 1) == Offset(parts, k) + |parts[k]| <= |Flatten(parts)|
    ensures all[Offset(parts, k)..Offset(parts, k + 1)] == parts[k]
  {
    hide Flatten;
    SplitAt(parts, k);
    FlattenAppend(parts[..k], parts[k]);
    FlattenConcat(parts[..k + 1], parts[k + 1..]);
    Middle(Flatten(parts[..k]), parts[k], Flatten(parts[k + 1..]), all);
  }

  lemma SplitAt<T>(parts: seq<T>, k: nat)
    requires k < |parts|
    ensures parts[..k] + [parts[k]] == parts[..k + 1] && parts[..k + 1] + parts[k + 1..] == parts
  {
  }

  lemma Middle<T>(a: seq<T>, b: seq<T>, c: seq<T>, all: seq<T>)
    requires (a + b) + c <= all
    ensures all[|a|..|a| + |b|] == b
  {
    assert all[..|a| + |b|] == a + b;
  }

  lemma OffsetAll<T>(parts: seq<seq<T>>)
    ensures Offset(parts, |parts|) == |Flatten(parts)| && Offset(parts, 0) == 0
  {
    assert parts[..|parts|] == parts;
  }

  /** The elements of `part` are stored at `pos`. */
  ghost predicate StoredAt<T>(stream: seq<T>, pos: nat, part: seq<T>) {
    pos + |part| <= |stream| && stream[pos..pos + |part|] == part
  }

  lemma StoredConcat<T>(stream: seq<T>, pos: nat, a: seq<T>, b: seq<T>)
    requires StoredAt(stream, pos, a + b)
    ensures StoredAt(stream, pos, a) && StoredAt(stream, pos + |a|, b)
  {
    var part := stream[pos..pos + |a + b|];
    assert part[..|a|] == a && part[|a|..] == b;
    assert stream[pos..pos + |a|] == part[..|a|] && stream[pos + |a|..pos + |a| + |b|] == part[|a|..];
  }

  lemma StoredFirst<T>(stream: seq<T>, pos: nat, part: seq<T>)
    requires StoredAt(stream, pos, part) && part != []
    ensures pos < |stream| && stream[pos] == part[0]
  {
    assert stream[pos] == stream[pos..pos + |part|][0];
  }

  lemma StoredMiddle<T>(pre: seq<T>, part: seq<T>, post: seq<T>)
    ensures StoredAt(pre + part + post, |pre|, part)
  {
  }

  lemma StoredPart<T>(stream: seq<T>, pos: nat, parts: seq<seq<T>>, k: nat)
    requires StoredAt(stream, pos, Flatten(parts)) && k < |parts|
    ensures StoredAt(stream, pos + Offset(parts, k), parts[k])
    ensures Offset(parts, k + 1) == Offset(parts, k) + |parts[k]| <= |Flatten(parts)|
  {
    hide Flatten;
    var all := stream[pos..pos + |Flatten(parts)|];
    PartAt(parts, all, k);
    assert stream[pos + Offset(parts, k)..pos + Offset(parts, k + 1)] == all[Offset(parts, k)..Offset(parts, k + 1)];
  }
}
