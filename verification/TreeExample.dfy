/** A small decision tree in its bytes, with numbers for every field, and the classes that it assigns. */
module TreeExample {
  import opened BitReader
  import opened DecisionTree
  import opened Options
  import opened Powers

  /** Bits of the fields: question and decision of a node; fork count, number, count, jump and cut of two attributes. */
  const WIDTHS := Widths([6, 7], [8, 6, 8, 7, 1, 1, 1, 1, 1, 8], 2)

  const BODY: seq<byte> :=
    [ 192, 3       // a discrete node (3) that asks for attribute 0, with three forks
    , 9            // one value (0): 9 takes the first fork
    , 196, 8, 129  // a mask (3) of eight bits: the values 4 and 11 take the second one
    , 145          // fork 0: a decision (1) for class 17
    , 8            // fork 1: no decision (0), a tree that starts eight bits later
    , 146          // fork 2: a decision for class 18
    , 129, 5       // the tree: a continuous node (2) that asks for attribute 1, with the cut 5
    , 129, 130     // decisions for class 1 up to the cut, and for class 2 above it
    ]

  const KB := KnowledgeBase(WIDTHS, BODY)

  const MASK := [true, false, false, false, false, false, false, true]

  const INNER := Continuous(1, 5, Decide(1, Decide(2, NoMore)))

  const FORKS := Decide(17, Child(INNER, Decide(18, NoMore)))

  const ROOT := Discrete(0, [OneValue(9), BitMask(4, MASK)], FORKS)

  lemma Bytes()
    ensures |BODY| == 13 && KB.body == BODY && KB.widths == WIDTHS
    ensures BODY[0] == 192 && BODY[1] == 3 && BODY[2] == 9 && BODY[3] == 196 && BODY[4] == 8 && BODY[5] == 129
    ensures BODY[6] == 145 && BODY[7] == 8 && BODY[8] == 146 && BODY[9] == 129 && BODY[10] == 5
    ensures BODY[11] == 129 && BODY[12] == 130
  {
  }

  lemma Sizes()
    ensures WIDTHS.Valid() && WIDTHS.nrattributes == 2 && WIDTHS.VField(QUESTION) == 6 && WIDTHS.VField(DECIDE) == 7
    ensures WIDTHS.QField(0, FORK_COUNT) == 8 && WIDTHS.QField(0, BIT_NO) == 6 && WIDTHS.QField(0, BIT_COUNT) == 8
    ensures WIDTHS.QField(0, JUMP) == 7 && WIDTHS.QField(1, CUT) == 8
  {
  }

  /** The bits of 129. */
  lemma MaskByte()
    ensures Shr(129, 7) % 2 == 1 && Shr(129, 6) % 2 == 0 && Shr(129, 5) % 2 == 0 && Shr(129, 4) % 2 == 0
    ensures Shr(129, 3) % 2 == 0 && Shr(129, 2) % 2 == 0 && Shr(129, 1) % 2 == 0 && Shr(129, 0) % 2 == 1
  {
    assert Shr(129, 1) == 64 && Shr(129, 2) == 32 && Shr(129, 3) == 16;
    assert Shr(129, 4) == 8 && Shr(129, 5) == 4 && Shr(129, 6) == 2;
  }

  lemma MaskBits(p: nat)
    requires p == 40
    ensures |BODY| == 13 && forall k :: 0 <= k < |MASK| ==> (MASK[k] <==> Bit(BODY, p + k) == 1)
  {
    hide Shr, BODY;
    Bytes();
    MaskByte();
    forall k | 0 <= k < |MASK| ensures MASK[k] <==> Bit(BODY, p + k) == 1 {
      BitAtCursor(BODY, 5, 7 - k);
    }
  }

  lemma InnerHeld()
    ensures WIDTHS.Valid() && Represents(KB, 72, INNER)
  {
    hide Val, BODY, WIDTHS, KB;
    Bytes();
    Sizes();
    DividedByte(BODY, 9, 129);
    WholeByte(BODY, 10);
    DividedByte(BODY, 11, 129);
    DividedByte(BODY, 12, 130);
  }

  lemma ValueHeld()
    ensures WIDTHS.Valid() && RepresentsSubset(KB, 0, 16, OneValue(9)) && SubsetSize(WIDTHS, 0, OneValue(9)) == 8
  {
    hide Val, Bit, BODY, WIDTHS, KB;
    Bytes();
    Sizes();
    DividedByte(BODY, 2, 9);
  }

  lemma MaskSize()
    ensures WIDTHS.Valid() && |MASK| == 8 && SubsetSize(WIDTHS, 0, BitMask(4, MASK)) == 24
  {
    assert |MASK| == 8;
    hide WIDTHS, MASK;
    Sizes();
  }

  lemma MaskHeld()
    ensures WIDTHS.Valid() && RepresentsSubset(KB, 0, 24, BitMask(4, MASK))
  {
    MaskBits(40);
    MaskSize();
    hide Val, Bit, BODY, WIDTHS, KB, MASK, SubsetSize;
    Bytes();
    Sizes();
    DividedByte(BODY, 3, 196);
    WholeByte(BODY, 4);
  }

  lemma SubsetsHeld()
    ensures WIDTHS.Valid() && RepresentsSubsets(KB, 0, 16, [OneValue(9), BitMask(4, MASK)])
    ensures SubsetsSize(WIDTHS, 0, [OneValue(9), BitMask(4, MASK)]) == 32
  {
    ValueHeld();
    MaskSize();
    MaskHeld();
    hide Val, Bit, BODY, WIDTHS, KB, MASK, RepresentsSubset, SubsetSize;
    Bytes();
    Sizes();
    var ss := [OneValue(9), BitMask(4, MASK)];
    assert ss[1..] == [BitMask(4, MASK)] && ss[1..][1..] == [];
    assert RepresentsSubsets(KB, 0, 24, ss[1..]) && SubsetsSize(WIDTHS, 0, ss[1..]) == 24;
  }

  lemma ForksHeld()
    ensures WIDTHS.Valid() && RepresentsForks(KB, 0, 48, FORKS)
  {
    InnerHeld();
    hide Val, Bit, BODY, WIDTHS, KB, Represents, INNER;
    Bytes();
    Sizes();
    DividedByte(BODY, 6, 145);
    DividedByte(BODY, 7, 8);
    DividedByte(BODY, 8, 146);
    assert RepresentsForks(KB, 0, 72, NoMore);
    assert RepresentsForks(KB, 0, 64, Decide(18, NoMore));
    assert RepresentsForks(KB, 0, 56, Child(INNER, Decide(18, NoMore)));
  }

  /** The bytes are this tree. */
  lemma RootHeld()
    ensures KB.widths.Valid() && Represents(KB, 0, ROOT)
  {
    SubsetsHeld();
    ForksHeld();
    hide Val, Bit, BODY, WIDTHS, KB, RepresentsForks, RepresentsSubsets, MASK, INNER;
    Bytes();
    Sizes();
    DividedByte(BODY, 0, 192);
    WholeByte(BODY, 1);
    hide SubsetsSize;
    assert Count(FORKS) == 3 by { assert Count(Decide(18, NoMore)) == 1; }
    assert ForksPos(WIDTHS, 0, ROOT) == 48;
    assert RepresentsNode(KB, 0, ROOT);
  }

  /** The classifier on these bytes. */
  method Classified(a: nat, b: nat) returns (c: nat)
    ensures c == if a == 9 then 17 else if a != 4 && a != 11 then 18 else if b <= 5 then 1 else 2
  {
    RootHeld();
    RootEvaluates(a, b);
    hide *;
    var classifier := new Classifier(KB);
    var ok := classifier.Classify([a, b], ROOT);
    c := classifier.dclass;
  }

  lemma FirstOf(a: nat)
    ensures FirstMatch([OneValue(9), BitMask(4, MASK)], a) == if a == 9 then 0 else if a == 4 || a == 11 then 1 else 2
  {
    var ss := [OneValue(9), BitMask(4, MASK)];
    assert Matches(ss[0], a) <==> a == 9;
    assert Matches(ss[1], a) <==> a == 4 || a == 11;
    hide FirstMatch, Matches;
  }

  lemma InnerEvaluates(a: nat, b: nat)
    ensures Evaluate(INNER, [a, b]) == Some(if b <= 5 then 1 else 2)
  {
    StumpEvaluated(INNER, [a, b]);
  }

  lemma RootEvaluates(a: nat, b: nat)
    ensures Evaluate(ROOT, [a, b])
         == Some(if a == 9 then 17 else if a != 4 && a != 11 then 18 else if b <= 5 then 1 else 2)
  {
    FirstOf(a);
    InnerEvaluates(a, b);
    hide FirstMatch, INNER;
    var i := FirstMatch([OneValue(9), BitMask(4, MASK)], a);
    FollowIsForkAt(FORKS, i, [a, b]);
    assert Evaluate(ROOT, [a, b]) == Follow(FORKS, i, [a, b]);
    var last := Decide(18, NoMore);
    var more := Child(INNER, last);
    assert ForkAt(last, 0) == Class(18) && ForkAt(more, 0) == Continue(INNER) && ForkAt(more, 1) == ForkAt(last, 0);
    assert FORKS == Decide(17, more);
    assert ForkAt(FORKS, 0) == Class(17) && ForkAt(FORKS, 1) == ForkAt(more, 0) && ForkAt(FORKS, 2) == ForkAt(more, 1);
  }
}
