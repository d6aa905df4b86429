/**
 Decision trees written as bits: every tree has an encoding, and if its numbers fit their fields then there is a
 body from which the interpreter (pico/lib/picokdt.c, `kdtAskTree`) reads back exactly that tree.
 */
module TreeEncoding {
  import opened BitReader
  import opened DecisionTree
  import opened Powers

  // ---------------------------------------------------------------------------
  // Field after field
  // ---------------------------------------------------------------------------

  /** Numbers to be written one behind the other, each in its own width. */
  datatype Code = End | Put(value: nat, width: nat, rest: Code)

  predicate Fits(code: Code) {
    code.Put? ==> code.value < Pow2(code.width) && Fits(code.rest)
  }

  /** From `p` on, the fields of `code` lie in the body. */
  ghost predicate Holds(body: seq<byte>, p: nat, code: Code)
    decreases code
  {
    match code
    case End => true
    case Put(v, n, rest) => p + n <= 8 * |body| && Val(body, p, n) == v && Holds(body, p + n, rest)
  }

  lemma Next(kb: KnowledgeBase, p: nat, v: nat, n: nat, rest: Code)
    requires Holds(kb.body, p, Put(v, n, rest))
    ensures kb.Field(p, n, v) && Holds(kb.body, p + n, rest)
  {
  }

  lemma NextTwo(kb: KnowledgeBase, p: nat, v: nat, n: nat, u: nat, m: nat, rest: Code)
    requires Holds(kb.body, p, Put(v, n, Put(u, m, rest)))
    ensures kb.Field(p, n, v) && kb.Field(p + n, m, u) && Holds(kb.body, p + n + m, rest)
  {
    hide Val;
    Next(kb, p, v, n, Put(u, m, rest));
    Next(kb, p + n, u, m, rest);
  }

  // ---------------------------------------------------------------------------
  // The encoding
  // ---------------------------------------------------------------------------

  function MaskCode(mask: seq<bool>, rest: Code): Code {
    if mask == [] then rest else Put(if mask[0] then 1 else 0, 1, MaskCode(mask[1..], rest))
  }

  function SubsetCode(w: Widths, q: nat, s: Subset, rest: Code): Code
    requires w.Valid() && q < w.nrattributes
  {
    var (b, c) := (w.QField(q, BIT_NO), w.QField(q, BIT_COUNT));
    match s
    case OneValue(v) => Put(0, 2, Put(v, b, rest))
    case TwoValues(v, u) => Put(1, 2, Put(v, b, Put(u, c, rest)))
    case WithoutBitMask(first, count) => Put(2, 2, Put(first, b, Put(count, c, rest)))
    case BitMask(first, mask) => Put(3, 2, Put(first, b, Put(|mask|, c, MaskCode(mask, rest))))
  }

  function SubsetsCode(w: Widths, q: nat, ss: seq<Subset>, rest: Code): Code
    requires w.Valid() && q < w.nrattributes
  {
    if ss == [] then rest else SubsetCode(w, q, ss[0], SubsetsCode(w, q, ss[1..], rest))
  }

  /** The part of a node in front of its forks. */
  function NodeCode(w: Widths, t: Tree, rest: Code): Code
    requires w.Valid() && t.question < w.nrattributes
  {
    var q := t.question;
    Put(TypeOf(t), 2, Put(q, w.VField(QUESTION),
      match t
      case Terminal(_) => rest
      case Binary(_, _) => rest
      case Continuous(_, cut, _) => Put(cut, w.QField(q, CUT), rest)
      case Discrete(_, subsets, forks) => Put(Count(forks), w.QField(q, FORK_COUNT), SubsetsCode(w, q, subsets, rest))))
  }

  /** The questions of the tree are attributes, and its nodes have as many forks as the interpreter takes for
      granted. */
  predicate WellFormed(w: Widths, t: Tree)
    decreases t, 0
  {
    && t.question < w.nrattributes && t.question < 256
    && match t
       case Terminal(_) => true
       case Binary(_, forks) => Count(forks) == 2 && WellFormedForks(w, forks)
       case Continuous(_, _, forks) => Count(forks) == 2 && WellFormedForks(w, forks)
       case Discrete(_, subsets, forks) =>
         |subsets| == (if Count(forks) == 0 then 0 else Count(forks) - 1) && WellFormedForks(w, forks)
  }

  predicate WellFormedForks(w: Widths, f: Forks)
    decreases f, 1
  {
    match f
    case NoMore => true
    case Decide(_, rest) => WellFormedForks(w, rest)
    case Child(t, rest) => WellFormed(w, t) && WellFormedForks(w, rest)
  }

  function ForksSize(w: Widths, q: nat, f: Forks): nat
    requires w.Valid() && q < w.nrattributes
  {
    match f
    case NoMore => 0
    case Decide(_, rest) => 1 + w.VField(DECIDE) + ForksSize(w, q, rest)
    case Child(_, rest) => 1 + w.QField(q, JUMP) + ForksSize(w, q, rest)
  }

  function TreeSize(w: Widths, t: Tree): nat
    requires w.Valid() && WellFormed(w, t)
    decreases t, 0
  {
    if t.Terminal? then ForksPos(w, 0, t)
    else ForksPos(w, 0, t) + ForksSize(w, t.question, t.forks) + SubtreesSize(w, t.forks)
  }

  function SubtreesSize(w: Widths, f: Forks): nat
    requires w.Valid() && WellFormedForks(w, f)
    decreases f, 1
  {
    match f
    case NoMore => 0
    case Decide(_, rest) => SubtreesSize(w, rest)
    case Child(t, rest) => TreeSize(w, t) + SubtreesSize(w, rest)
  }

  /** The forks of a node; the next subtree starts `gap` bits after the first of them. */
  function ForksCode(w: Widths, q: nat, f: Forks, gap: nat, rest: Code): Code
    requires w.Valid() && q < w.nrattributes && WellFormedForks(w, f) && gap >= ForksSize(w, q, f)
    decreases f
  {
    match f
    case NoMore => rest
    case Decide(c, more) => Put(1, 1, Put(c, w.VField(DECIDE), ForksCode(w, q, more, gap - 1 - w.VField(DECIDE), rest)))
    case Child(t, more) =>
      var jump := gap - 1 - w.QField(q, JUMP);
      Put(0, 1, Put(jump, w.QField(q, JUMP), ForksCode(w, q, more, jump + TreeSize(w, t), rest)))
  }

  /** A node, its forks, and behind them the subtrees. */
  function TreeCode(w: Widths, t: Tree, rest: Code): Code
    requires w.Valid() && WellFormed(w, t)
    decreases t, 0
  {
    if t.Terminal? then NodeCode(w, t, rest)
    else
      var gap := ForksSize(w, t.question, t.forks);
      NodeCode(w, t, ForksCode(w, t.question, t.forks, gap, SubtreesCode(w, t.forks, rest)))
  }

  function SubtreesCode(w: Widths, f: Forks, rest: Code): Code
    requires w.Valid() && WellFormedForks(w, f)
    decreases f, 1
  {
    match f
    case NoMore => rest
    case Decide(_, more) => SubtreesCode(w, more, rest)
    case Child(t, more) => TreeCode(w, t, SubtreesCode(w, more, rest))
  }

  // ---------------------------------------------------------------------------
  // A body that holds the encoding represents the tree
  // ---------------------------------------------------------------------------

  lemma {:induction false} MaskHeld(body: seq<byte>, p: nat, mask: seq<bool>, rest: Code)
    requires Holds(body, p, MaskCode(mask, rest)) && p <= 8 * |body|
    ensures p + |mask| <= 8 * |body| && Holds(body, p + |mask|, rest)
    decreases |mask|
  {
    hide Val;
    if mask == [] {
    } else {
      MaskHeld(body, p + 1, mask[1..], rest);
    }
  }

  lemma {:induction false} MaskBitHeld(body: seq<byte>, p: nat, mask: seq<bool>, rest: Code, k: nat)
    requires Holds(body, p, MaskCode(mask, rest)) && k < |mask| && p + |mask| <= 8 * |body|
    ensures mask[k] <==> Bit(body, p + k) == 1
    decreases k
  {
    assert Val(body, p, 1) == 2 * Val(body, p, 0) + Bit(body, p);
    if k == 0 {
    } else {
      MaskBitHeld(body, p + 1, mask[1..], rest, k - 1);
    }
  }

  lemma BitMaskHeld(kb: KnowledgeBase, p: nat, first: nat, b: nat, c: nat, mask: seq<bool>, rest: Code)
    requires Holds(kb.body, p, Put(3, 2, Put(first, b, Put(|mask|, c, MaskCode(mask, rest)))))
    ensures kb.Field(p, 2, 3) && kb.Field(p + 2, b, first) && kb.Field(p + 2 + b, c, |mask|)
    ensures p + 2 + b + c + |mask| <= 8 * |kb.body| && Holds(kb.body, p + 2 + b + c + |mask|, rest)
    ensures forall k :: 0 <= k < |mask| ==> (mask[k] <==> Bit(kb.body, p + 2 + b + c + k) == 1)
  {
    hide Val;
    var r := p + 2 + b + c;
    NextTwo(kb, p, 3, 2, first, b, Put(|mask|, c, MaskCode(mask, rest)));
    Next(kb, p + 2 + b, |mask|, c, MaskCode(mask, rest));
    MaskHeld(kb.body, r, mask, rest);
    forall k | 0 <= k < |mask| ensures mask[k] <==> Bit(kb.body, r + k) == 1 {
      MaskBitHeld(kb.body, r, mask, rest, k);
    }
  }

  lemma SubsetHeld(kb: KnowledgeBase, w: Widths, q: nat, p: nat, s: Subset, rest: Code)
    requires w == kb.widths && w.Valid() && q < w.nrattributes && Holds(kb.body, p, SubsetCode(w, q, s, rest))
    ensures RepresentsSubset(kb, q, p, s) && Holds(kb.body, p + SubsetSize(w, q, s), rest)
  {
    hide Val, Holds, MaskCode;
    var (b, c) := (w.QField(q, BIT_NO), w.QField(q, BIT_COUNT));
    match s
    case OneValue(v) => NextTwo(kb, p, 0, 2, v, b, rest);
    case TwoValues(v, u) =>
      NextTwo(kb, p, 1, 2, v, b, Put(u, c, rest));
      Next(kb, p + 2 + b, u, c, rest);
    case WithoutBitMask(first, count) =>
      NextTwo(kb, p, 2, 2, first, b, Put(count, c, rest));
      Next(kb, p + 2 + b, count, c, rest);
    case BitMask(first, mask) => BitMaskHeld(kb, p, first, b, c, mask, rest);
  }

  lemma {:induction false} SubsetsHeld(kb: KnowledgeBase, w: Widths, q: nat, p: nat, ss: seq<Subset>, rest: Code)
    requires w == kb.widths && w.Valid() && q < w.nrattributes && Holds(kb.body, p, SubsetsCode(w, q, ss, rest))
    ensures RepresentsSubsets(kb, q, p, ss) && Holds(kb.body, p + SubsetsSize(w, q, ss), rest)
    decreases |ss|
  {
    hide Val, Holds, SubsetCode, RepresentsSubset;
    if ss == [] {
    } else {
      SubsetHeld(kb, w, q, p, ss[0], SubsetsCode(w, q, ss[1..], rest));
      SubsetsHeld(kb, w, q, p + SubsetSize(w, q, ss[0]), ss[1..], rest);
    }
  }

  lemma NodeHeld(kb: KnowledgeBase, w: Widths, p: nat, t: Tree, rest: Code)
    requires w == kb.widths && w.Valid() && WellFormed(w, t) && Holds(kb.body, p, NodeCode(w, t, rest))
    ensures RepresentsNode(kb, p, t) && Holds(kb.body, ForksPos(w, p, t), rest)
  {
    hide Val, Holds, SubsetsCode, RepresentsSubsets;
    var (q, vq) := (t.question, w.VField(QUESTION));
    var at := p + 2 + vq;
    match t
    case Terminal(_) => NextTwo(kb, p, 0, 2, q, vq, rest);
    case Binary(_, _) => NextTwo(kb, p, 1, 2, q, vq, rest);
    case Continuous(_, cut, _) =>
      NextTwo(kb, p, 2, 2, q, vq, Put(cut, w.QField(q, CUT), rest));
      Next(kb, at, cut, w.QField(q, CUT), rest);
    case Discrete(_, subsets, forks) =>
      var fc := w.QField(q, FORK_COUNT);
      NextTwo(kb, p, 3, 2, q, vq, Put(Count(forks), fc, SubsetsCode(w, q, subsets, rest)));
      Next(kb, at, Count(forks), fc, SubsetsCode(w, q, subsets, rest));
      SubsetsHeld(kb, w, q, at + fc, subsets, rest);
  }

  /** Behind the forks of a node. */
  lemma {:induction false} ForksPassed(kb: KnowledgeBase, w: Widths, q: nat, p: nat, f: Forks, gap: nat, rest: Code)
    requires w.Valid() && q < w.nrattributes && WellFormedForks(w, f) && gap >= ForksSize(w, q, f)
    requires Holds(kb.body, p, ForksCode(w, q, f, gap, rest))
    ensures Holds(kb.body, p + ForksSize(w, q, f), rest)
    decreases f
  {
    hide Val, Holds, TreeSize, WellFormed;
    match f
    case NoMore =>
    case Decide(c, more) =>
      var d := w.VField(DECIDE);
      NextTwo(kb, p, 1, 1, c, d, ForksCode(w, q, more, gap - 1 - d, rest));
      ForksPassed(kb, w, q, p + 1 + d, more, gap - 1 - d, rest);
    case Child(t, more) =>
      var j := w.QField(q, JUMP);
      NextTwo(kb, p, 0, 1, gap - 1 - j, j, ForksCode(w, q, more, gap - 1 - j + TreeSize(w, t), rest));
      ForksPassed(kb, w, q, p + 1 + j, more, gap - 1 - j + TreeSize(w, t), rest);
  }

  lemma {:induction false} ForksHeld(kb: KnowledgeBase, w: Widths, q: nat, p: nat, f: Forks, gap: nat, r: Code,
        rest: Code)
    requires w == kb.widths && w.Valid() && q < w.nrattributes && WellFormedForks(w, f) && gap >= ForksSize(w, q, f)
    requires Holds(kb.body, p, ForksCode(w, q, f, gap, r)) && Holds(kb.body, p + gap, SubtreesCode(w, f, rest))
    ensures RepresentsForks(kb, q, p, f) && Holds(kb.body, p + gap + SubtreesSize(w, f), rest)
    decreases f, 1
  {
    hide Val, Holds, Represents, TreeCode, TreeSize, WellFormed;
    match f
    case NoMore =>
    case Decide(c, more) =>
      var d := w.VField(DECIDE);
      NextTwo(kb, p, 1, 1, c, d, ForksCode(w, q, more, gap - 1 - d, r));
      ForksHeld(kb, w, q, p + 1 + d, more, gap - 1 - d, r, rest);
    case Child(t, more) =>
      var (j, size) := (w.QField(q, JUMP), TreeSize(w, t));
      NextTwo(kb, p, 0, 1, gap - 1 - j, j, ForksCode(w, q, more, gap - 1 - j + size, r));
      TreeHeld(kb, w, p + gap, t, SubtreesCode(w, more, rest));
      ForksHeld(kb, w, q, p + 1 + j, more, gap - 1 - j + size, r, rest);
  }

  /** Where a body holds the encoding of a tree, it represents that tree. */
  lemma {:induction false} TreeHeld(kb: KnowledgeBase, w: Widths, p: nat, t: Tree, rest: Code)
    requires w == kb.widths && w.Valid() && WellFormed(w, t) && Holds(kb.body, p, TreeCode(w, t, rest))
    ensures Represents(kb, p, t) && Holds(kb.body, p + TreeSize(w, t), rest)
    decreases t, 0
  {
    hide Val;
    if t.Terminal? {
      NodeHeld(kb, w, p, t, rest);
    } else {
      var (q, f, r) := (t.question, t.forks, SubtreesCode(w, t.forks, rest));
      var gap := ForksSize(w, q, f);
      NodeHeld(kb, w, p, t, ForksCode(w, q, f, gap, r));
      ForksPassed(kb, w, q, ForksPos(w, p, t), f, gap, r);
      ForksHeld(kb, w, q, ForksPos(w, p, t), f, gap, r, rest);
    }
  }

  // ---------------------------------------------------------------------------
  // A body for every code
  // ---------------------------------------------------------------------------

  /** `v` in `n` bits, the highest first. */
  function Bits(v: nat, n: nat): (s: seq<bool>)
    ensures |s| == n
  {
    seq(n, k requires 0 <= k < n => Shr(v, n - 1 - k) % 2 == 1)
  }

  function CodeBits(code: Code): seq<bool> {
    if code.End? then [] else Bits(code.value, code.width) + CodeBits(code.rest)
  }

  /** The bits of the body from `p` on are `s`. */
  ghost predicate HasBits(body: seq<byte>, p: nat, s: seq<bool>) {
    p + |s| <= 8 * |body| && forall i :: 0 <= i < |s| ==> BitIs(body, p, s, i)
  }

  ghost predicate BitIs(body: seq<byte>, p: nat, s: seq<bool>, i: nat) {
    i < |s| && p + i < 8 * |body| && (Bit(body, p + i) == 1 <==> s[i])
  }

  lemma HasBitsConcat(body: seq<byte>, p: nat, a: seq<bool>, b: seq<bool>)
    requires HasBits(body, p, a + b)
    ensures HasBits(body, p, a) && HasBits(body, p + |a|, b)
  {
    forall i | 0 <= i < |a| ensures BitIs(body, p, a, i) {
      assert BitIs(body, p, a + b, i);
    }
    var r := p + |a|;
    forall i | 0 <= i < |b| ensures BitIs(body, r, b, i) {
      assert BitIs(body, p, a + b, |a| + i);
    }
  }

  lemma BitsSplit(v: nat, n: nat)
    requires n > 0
    ensures Bits(v, n) == Bits(v / 2, n - 1) + [v % 2 == 1]
  {
    assert Shr(v, 0) == v;
    forall k | 0 <= k < n - 1 ensures Bits(v, n)[k] == Bits(v / 2, n - 1)[k] {
      ShrInner(v, n - 1 - k);
    }
  }

  /** A field holds the number whose bits are stored. */
  lemma {:induction false} StoredField(body: seq<byte>, p: nat, v: nat, n: nat)
    requires HasBits(body, p, Bits(v, n)) && v < Pow2(n)
    ensures p + n <= 8 * |body| && Val(body, p, n) == v
    decreases n
  {
    if n == 0 {
    } else {
      BitsSplit(v, n);
      HasBitsConcat(body, p, Bits(v / 2, n - 1), [v % 2 == 1]);
      StoredField(body, p, v / 2, n - 1);
      assert BitIs(body, p + n - 1, [v % 2 == 1], 0);
    }
  }

  lemma {:induction false} StoredCode(body: seq<byte>, p: nat, code: Code)
    requires Fits(code) && HasBits(body, p, CodeBits(code))
    ensures Holds(body, p, code)
    decreases code
  {
    if code.End? {
    } else {
      HasBitsConcat(body, p, Bits(code.value, code.width), CodeBits(code.rest));
      StoredField(body, p, code.value, code.width);
      StoredCode(body, p + code.width, code.rest);
    }
  }

  /** The number whose `n` bits are those of `s` from `i` on, or zeros behind its end. */
  function PackBits(s: seq<bool>, i: nat, n: nat): (v: nat)
    ensures v < Pow2(n)
  {
    if n == 0 then 0 else 2 * PackBits(s, i, n - 1) + if i + n - 1 < |s| && s[i + n - 1] then 1 else 0
  }

  lemma {:induction false} PackedBit(s: seq<bool>, i: nat, n: nat, j: nat)
    requires j < n && i + j < |s|
    ensures Shr(PackBits(s, i, n), n - 1 - j) % 2 == (if s[i + j] then 1 else 0)
    decreases n
  {
    if j >= n - 1 {
    } else {
      ShrInner(PackBits(s, i, n), n - 1 - j);
      PackedBit(s, i, n - 1, j);
    }
  }

  function Pack(s: seq<bool>): (body: seq<byte>)
    ensures 8 * |body| >= |s|
  {
    assert Pow2(8) == 256;
    seq((|s| + 7) / 8, k requires 0 <= k => PackBits(s, 8 * k, 8))
  }

  lemma PackHasBits(s: seq<bool>)
    ensures HasBits(Pack(s), 0, s)
  {
    forall i | 0 <= i < |s| ensures BitIs(Pack(s), 0, s, i) {
      PackedBit(s, 8 * (i / 8), 8, i % 8);
    }
  }

  /** The body written for a tree represents that tree and no other. */
  lemma EncodedTree(w: Widths, t: Tree, u: Tree)
    requires w.Valid() && WellFormed(w, t) && Fits(TreeCode(w, t, End))
    ensures var kb := KnowledgeBase(w, Pack(CodeBits(TreeCode(w, t, End))));
            Represents(kb, 0, u) <==> u == t
  {
    var code := TreeCode(w, t, End);
    var kb := KnowledgeBase(w, Pack(CodeBits(code)));
    PackHasBits(CodeBits(code));
    StoredCode(kb.body, 0, code);
    TreeHeld(kb, w, 0, t, End);
    if Represents(kb, 0, u) {
      TreeUnique(kb, 0, u, t);
    }
  }
}
