/**
 The bit-reversal permutation in front of the FFT (pico/lib/picofftsg.c, `bitrv1`), for n = 2^bits.

 An index is taken apart into its low half, its reversed high half and the outer bits; the loops run over
 the pairs of halves, and their bodies over the outer bits.
 */
module BitReversal {
  import opened Powers
  import opened ReversedBits
  import opened Exchanges

  function Max(a: nat, b: nat): nat { if a < b then b else a }
  function Min(a: nat, b: nat): nat { if a < b then a else b }

  // ---------------------------------------------------------------------------
  // The order in which the pairs are exchanged
  // ---------------------------------------------------------------------------

  function LowBit(i: nat): bool { i % 2 == 1 }
  function MidBit(bits: nat, i: nat): bool { bits % 2 == 1 && BitAt(i, bits / 2) }
  function TopBit(bits: nat, i: nat): bool requires bits >= 1 { BitAt(i, bits - 1) }

  /** The order in which a loop body goes through the outer bits. */
  function Code(low: bool, mid: bool, top: bool): nat {
    if low then (if top then (if mid then 5 else 4) else (if mid then 6 else 7))
    else (if top then (if mid then 2 else 3) else (if mid then 1 else 0))
  }

  /** The next one; without a middle bit, half of them do not occur. */
  function NextCode(bits: nat, code: nat): nat {
    if bits % 2 == 1 || code == 3 || code == 7 then code + 1 else code + 3
  }

  lemma CodeUnique(bits: nat, low: bool, mid: bool, top: bool, low': bool, mid': bool, top': bool)
    requires bits % 2 == 0 ==> !mid && !mid'
    requires Code(low, mid, top) <= Code(low', mid', top') < NextCode(bits, Code(low, mid, top))
    ensures low == low' && mid == mid' && top == top'
  {
  }

  function Step(bits: nat, i: nat): nat
    requires bits >= 2
  {
    var (x, y) := (X(bits, i), Y(bits, i));
    if x < y then Code(LowBit(i), MidBit(bits, i), TopBit(bits, i))
    else if x > y then Code(TopBit(bits, i), MidBit(bits, i), LowBit(i))
    else if MidBit(bits, i) then 1 else 0
  }

  function Turn(bits: nat, i: nat): Key
    requires bits >= 2
  {
    Key(Max(X(bits, i), Y(bits, i)), Min(X(bits, i), Y(bits, i)), Step(bits, i))
  }

  /** Every index is paired with its reversal. */
  ghost function ReversalPlan(bits: nat): Plan
    requires bits >= 2
  {
    var n := Pow2(bits);
    Plan(seq(n, i requires 0 <= i => Rev(bits, i)), seq(n, i requires 0 <= i => Turn(bits, i)))
  }

  lemma PlanAt(bits: nat, plan: Plan, i: nat)
    requires bits >= 2 && i < Pow2(bits) && plan == ReversalPlan(bits)
    ensures |plan.key| == |plan.partner| == Pow2(bits)
    ensures plan.partner[i] == Rev(bits, i) && plan.key[i] == Turn(bits, i)
  {
  }

  lemma ReversedBit(bits: nat, i: nat, t: nat)
    requires t < bits
    ensures BitAt(Rev(bits, i), t) == BitAt(i, bits - 1 - t)
    ensures t == 0 ==> LowBit(Rev(bits, i)) == BitAt(i, bits - 1)
    ensures t == bits - 1 ==> BitAt(Rev(bits, i), t) == LowBit(i)
  {
    RevBit(bits, i, t);
    assert BitAt(i, 0) == LowBit(i) && BitAt(Rev(bits, i), 0) == LowBit(Rev(bits, i));
  }

  lemma ReversedOuter(bits: nat, i: nat)
    requires bits >= 2
    ensures var r := Rev(bits, i);
            LowBit(r) == TopBit(bits, i) && TopBit(bits, r) == LowBit(i) && MidBit(bits, r) == MidBit(bits, i)
  {
    ReversedBit(bits, i, 0);
    ReversedBit(bits, i, bits - 1);
    if bits % 2 == 1 { ReversedBit(bits, i, bits / 2); }
  }

  /** Reversal exchanges the halves, and the lowest with the highest bit. */
  lemma ReversedParts(bits: nat, i: nat, r: nat)
    requires bits >= 2 && i < Pow2(bits) && r == Rev(bits, i)
    ensures X(bits, r) == Y(bits, i) && Y(bits, r) == X(bits, i)
    ensures LowBit(r) == TopBit(bits, i) && TopBit(bits, r) == LowBit(i) && MidBit(bits, r) == MidBit(bits, i)
  {
    RevInvolution(bits, i);
    ReversedOuter(bits, i);
  }

  lemma TurnOfReversal(bits: nat, i: nat)
    requires bits >= 2 && i < Pow2(bits)
    ensures Turn(bits, Rev(bits, i)) == Turn(bits, i)
  {
    ReversedParts(bits, i, Rev(bits, i));
  }

  lemma PlanPairs(bits: nat, plan: Plan, i: nat)
    requires bits >= 2 && i < Pow2(bits) && plan == ReversalPlan(bits)
    ensures plan.partner[i] < |plan.partner| == |plan.key| && plan.partner[plan.partner[i]] == i
    ensures plan.key[plan.partner[i]] == plan.key[i]
  {
    PlanAt(bits, plan, i);
    PlanAt(bits, plan, Rev(bits, i));
    RevInvolution(bits, i);
    TurnOfReversal(bits, i);
  }

  lemma PlanIsValid(bits: nat, plan: Plan)
    requires bits >= 2 && plan == ReversalPlan(bits)
    ensures plan.Valid() && |plan.partner| == Pow2(bits)
  {
    var n := Pow2(bits);
    PlanAt(bits, plan, 0);
    forall i | 0 <= i < n
      ensures plan.partner[i] < n && plan.partner[plan.partner[i]] == i && plan.key[plan.partner[i]] == plan.key[i]
    {
      PlanPairs(bits, plan, i);
    }
  }

  // ---------------------------------------------------------------------------
  // Whose turn it is
  // ---------------------------------------------------------------------------

  lemma FromParts(bits: nat, i: nat, y: nat, x: nat, low: bool, mid: bool, top: bool)
    requires bits >= 2 && i < Pow2(bits) && X(bits, i) == x && Y(bits, i) == y
    requires LowBit(i) == low && MidBit(bits, i) == mid && TopBit(bits, i) == top
    ensures i == Inner(bits, y, x) + Outer(bits, low, mid, top) && Halves(bits, y, x)
  {
    KeyBounds(bits, i);
    Reassemble(bits, i);
  }

  lemma AssembledEnds(bits: nat, y: nat, x: nat, low: bool, mid: bool, top: bool, u: nat, v: nat)
    requires Halves(bits, y, x) && u == Inner(bits, y, x) + Outer(bits, low, mid, top)
    requires v == Rev(bits, u) && v == Inner(bits, x, y) + Outer(bits, top, mid, low)
    ensures LowBit(u) == low && TopBit(bits, u) == top
  {
    AssembledParity(bits, y, x, low, mid, top, u);
    AssembledParity(bits, x, y, top, mid, low, v);
    TopOfReversal(bits, u, v);
  }

  lemma TopOfReversal(bits: nat, u: nat, v: nat)
    requires bits >= 2 && v == Rev(bits, u)
    ensures TopBit(bits, u) == LowBit(v)
  {
    ReversedBit(bits, u, 0);
  }

  lemma OuterMid(bits: nat, low: bool, mid: bool, top: bool, mid': bool)
    requires bits >= 2 && Outer(bits, low, mid, top) == Outer(bits, low, mid', top)
    ensures mid == mid'
  {
  }

  lemma AssembledParts(bits: nat, y: nat, x: nat, low: bool, mid: bool, top: bool)
    requires Halves(bits, y, x) && (mid ==> bits % 2 == 1)
    ensures var u := Inner(bits, y, x) + Outer(bits, low, mid, top);
            && u < Pow2(bits) && X(bits, u) == x && Y(bits, u) == y
            && LowBit(u) == low && MidBit(bits, u) == mid && TopBit(bits, u) == top
  {
    assert bits >= 2;
    hide *;
    var u := Inner(bits, y, x) + Outer(bits, low, mid, top);
    Assembled(bits, y, x, low, mid, top);
    AssembledEnds(bits, y, x, low, mid, top, u, Rev(bits, u));
    FromParts(bits, u, y, x, low, MidBit(bits, u), top);
    OuterMid(bits, low, mid, top, MidBit(bits, u));
  }

  lemma AssembledParity(bits: nat, y: nat, x: nat, low: bool, mid: bool, top: bool, u: nat)
    requires Halves(bits, y, x) && u == Inner(bits, y, x) + Outer(bits, low, mid, top)
    ensures LowBit(u) == low
  {
    InnerLow(bits, y, x);
    assert LowBit(u) == (u % 2 == 1);
    hide *;
    OuterParity(bits, low, mid, top);
    EvenPlus(Inner(bits, y, x), Outer(bits, low, mid, top));
  }

  lemma OuterParity(bits: nat, low: bool, mid: bool, top: bool)
    requires bits >= 2
    ensures Outer(bits, low, mid, top) % 2 == if low then 1 else 0
  {
    var (g, t) := (if mid then Pow2(bits / 2 - 1) else 0, if top then Pow2(bits - 2) else 0);
    assert Half(bits) == 2 * Pow2(bits / 2 - 1) && Pow2(bits - 1) == 2 * Pow2(bits - 2);
    assert Outer(bits, low, mid, top) == (if low then 1 else 0) + 2 * (g + t);
    hide *;
    LowDigit(if low then 1 else 0, g + t);
  }

  lemma LowDigit(l: nat, m: nat)
    requires l < 2
    ensures (l + 2 * m) % 2 == l
  {
  }

  lemma EvenPlus(a: nat, b: nat)
    requires a % 2 == 0
    ensures (a + b) % 2 == b % 2
  {
  }

  /** The pair exchanged for the halves (k0, l) and the given outer bits. */
  lemma PairOf(bits: nat, plan: Plan, k0: nat, l: nat, low: bool, mid: bool, top: bool)
    requires Halves(bits, k0, l) && l < k0 && (mid ==> bits % 2 == 1) && plan == ReversalPlan(bits)
    ensures var u := Inner(bits, k0, l) + Outer(bits, low, mid, top);
            && u < |plan.partner| == |plan.key| && plan.key[u] == Key(k0, l, Code(low, mid, top))
              && plan.partner[u] != u
            && plan.partner[u] == Inner(bits, l, k0) + Outer(bits, top, mid, low)
  {
    var u := Inner(bits, k0, l) + Outer(bits, low, mid, top);
    AssembledParts(bits, k0, l, low, mid, top);
    Assembled(bits, k0, l, low, mid, top);
    ReversedParts(bits, u, Rev(bits, u));
    PlanAt(bits, plan, u);
  }

  /** An index with that turn is the lower one of the pair... */
  lemma LowerIndex(bits: nat, i: nat, k0: nat, l: nat, low: bool, mid: bool, top: bool)
    requires bits >= 2 && i < Pow2(bits) && l < k0 && (mid ==> bits % 2 == 1)
    requires X(bits, i) == l && Y(bits, i) == k0
    requires Code(low, mid, top) <= Step(bits, i) < NextCode(bits, Code(low, mid, top))
    ensures i == Inner(bits, k0, l) + Outer(bits, low, mid, top)
  {
    CodeUnique(bits, low, mid, top, LowBit(i), MidBit(bits, i), TopBit(bits, i));
    Reassemble(bits, i);
  }

  /** ... or its partner. */
  lemma EitherIndex(bits: nat, i: nat, k0: nat, l: nat, low: bool, mid: bool, top: bool)
    requires bits >= 2 && i < Pow2(bits) && l < k0 && (mid ==> bits % 2 == 1)
    requires Turn(bits, i).hi == k0 && Turn(bits, i).lo == l
    requires Code(low, mid, top) <= Step(bits, i) < NextCode(bits, Code(low, mid, top))
    ensures var u := Inner(bits, k0, l) + Outer(bits, low, mid, top); i == u || i == Rev(bits, u)
  {
    if X(bits, i) == l {
      LowerIndex(bits, i, k0, l, low, mid, top);
    } else {
      ReversedParts(bits, i, Rev(bits, i));
      TurnOfReversal(bits, i);
      LowerIndex(bits, Rev(bits, i), k0, l, low, mid, top);
      RevInvolution(bits, i);
    }
  }

  lemma PairTurn(bits: nat, plan: Plan, k0: nat, l: nat, low: bool, mid: bool, top: bool)
    requires Halves(bits, k0, l) && l < k0 && (mid ==> bits % 2 == 1) && plan == ReversalPlan(bits)
    ensures plan.Valid()
    ensures plan.OnlyPair(Inner(bits, k0, l) + Outer(bits, low, mid, top),
                          Key(k0, l, Code(low, mid, top)), Key(k0, l, NextCode(bits, Code(low, mid, top))))
  {
    hide Inner, Outer, Rev, Pow2;
    var u := Inner(bits, k0, l) + Outer(bits, low, mid, top);
    var (now, next) := (Key(k0, l, Code(low, mid, top)), Key(k0, l, NextCode(bits, Code(low, mid, top))));
    PlanIsValid(bits, plan);
    PairOf(bits, plan, k0, l, low, mid, top);
    PlanAt(bits, plan, u);
    forall i | 0 <= i < |plan.partner| && plan.partner[i] != i && !plan.key[i].Before(now) && plan.key[i].Before(next)
      ensures i == u || i == plan.partner[u]
    {
      PlanAt(bits, plan, i);
      EitherIndex(bits, i, k0, l, low, mid, top);
    }
  }

  lemma DiagonalFixed(bits: nat, i: nat, k0: nat, end: bool, mid: bool)
    requires Halves(bits, k0, k0) && (mid ==> bits % 2 == 1) && i == Inner(bits, k0, k0) + Outer(bits, end, mid, end)
    ensures Rev(bits, i) == i
  {
    AssembledHalf(bits, k0, k0, end, mid, end);
  }

  /** The only indices with equal halves that move have different lowest and highest bits. */
  lemma DiagonalIndex(bits: nat, i: nat, k0: nat, low: bool, mid: bool, top: bool)
    requires Halves(bits, k0, k0) && (mid ==> bits % 2 == 1) && i == Inner(bits, k0, k0) + Outer(bits, low, mid, top)
    requires Rev(bits, i) != i
    ensures i == Inner(bits, k0, k0) + Outer(bits, true, mid, false)
            || i == Inner(bits, k0, k0) + Outer(bits, false, mid, true)
  {
    if low == top { DiagonalFixed(bits, i, k0, low, mid); }
  }

  lemma DiagonalPair(bits: nat, plan: Plan, k0: nat, mid: bool)
    requires Halves(bits, k0, k0) && (mid ==> bits % 2 == 1) && plan == ReversalPlan(bits)
    ensures var u := Inner(bits, k0, k0) + Outer(bits, true, mid, false);
            && u < |plan.partner| == |plan.key| && plan.key[u] == Key(k0, k0, if mid then 1 else 0)
            && plan.partner[u] == Inner(bits, k0, k0) + Outer(bits, false, mid, true)
  {
    var u := Inner(bits, k0, k0) + Outer(bits, true, mid, false);
    AssembledHalf(bits, k0, k0, true, mid, false);
    DiagonalKey(bits, u, k0, mid);
    PlanAt(bits, plan, u);
  }

  lemma DiagonalKey(bits: nat, u: nat, k0: nat, mid: bool)
    requires Halves(bits, k0, k0) && (mid ==> bits % 2 == 1) && u == Inner(bits, k0, k0) + Outer(bits, true, mid, false)
    ensures Turn(bits, u) == Key(k0, k0, if mid then 1 else 0)
  {
    AssembledParts(bits, k0, k0, true, mid, false);
  }

  lemma DiagonalMember(bits: nat, plan: Plan, k0: nat, mid: bool, i: nat)
    requires bits >= 2 && plan == ReversalPlan(bits) && i < |plan.partner| == |plan.key|
    requires plan.partner[i] != i && plan.key[i] == Key(k0, k0, if mid then 1 else 0)
    ensures i == Inner(bits, k0, k0) + Outer(bits, true, mid, false)
            || i == Inner(bits, k0, k0) + Outer(bits, false, mid, true)
  {
    PlanAt(bits, plan, i);
    FromParts(bits, i, k0, k0, LowBit(i), mid, TopBit(bits, i));
    DiagonalIndex(bits, i, k0, LowBit(i), mid, TopBit(bits, i));
  }

  lemma DiagonalTurn(bits: nat, plan: Plan, k0: nat, mid: bool, step: nat)
    requires Halves(bits, k0, k0) && (mid ==> bits % 2 == 1) && plan == ReversalPlan(bits)
             && step == if mid then 1 else 0
    ensures plan.Valid()
    ensures plan.OnlyPair(Inner(bits, k0, k0) + Outer(bits, true, mid, false), Key(k0, k0, step), Key(k0, k0, step + 1))
  {
    hide Inner, Outer, Rev, Pow2;
    PlanIsValid(bits, plan);
    DiagonalPair(bits, plan, k0, mid);
    var u := Inner(bits, k0, k0) + Outer(bits, true, mid, false);
    forall i | 0 <= i < |plan.partner| && plan.partner[i] != i
               && !plan.key[i].Before(Key(k0, k0, step)) && plan.key[i].Before(Key(k0, k0, step + 1))
      ensures i == u || i == plan.partner[u]
    {
      DiagonalMember(bits, plan, k0, mid, i);
    }
  }

  lemma TurnShape(bits: nat, plan: Plan, i: nat)
    requires bits >= 2 && i < Pow2(bits) && plan == ReversalPlan(bits)
    ensures |plan.key| == |plan.partner| == Pow2(bits)
    ensures var t := plan.key[i];
            && t.lo <= t.hi < Half(bits) && t.lo % 2 == 0 && t.hi % 2 == 0 && t.step < 8
            && (t.hi == t.lo ==> t.step < if bits % 2 == 1 then 2 else 1)
  {
    PlanAt(bits, plan, i);
    KeyBounds(bits, i);
  }

  /** The array when all turns before `now` are over. */
  ghost function Reached<T>(bits: nat, before: seq<T>, now: Key): (r: seq<T>)
    requires bits >= 2 && |before| >= Pow2(bits)
    ensures |r| == |before|
  {
    PlanIsValid(bits, ReversalPlan(bits));
    After(ReversalPlan(bits), before, now)
  }

  lemma SkipSteps(t: Key, k0: nat, l: nat)
    requires t.lo % 2 == 0 && l % 2 == 0 && t.step < 8
    ensures t.Before(Key(k0, l, 8)) <==> t.Before(Key(k0, l + 2, 0))
  {
  }

  lemma SkipDiagonal(t: Key, k0: nat, steps: nat)
    requires t.lo % 2 == 0 && t.hi % 2 == 0 && t.lo <= t.hi && k0 % 2 == 0 && (t.hi == t.lo ==> t.step < steps)
    ensures t.Before(Key(k0, k0, steps)) <==> t.Before(Key(k0 + 2, 0, 0))
  {
  }

  /** After the last outer bits, the next pair of halves. */
  lemma NextHalves<T>(bits: nat, k0: nat, l: nat, before: seq<T>)
    requires bits >= 2 && l % 2 == 0 && |before| >= Pow2(bits)
    ensures Reached(bits, before, Key(k0, l, 8)) == Reached(bits, before, Key(k0, l + 2, 0))
  {
    var plan := ReversalPlan(bits);
    PlanIsValid(bits, plan);
    forall i | 0 <= i < |plan.partner|
      ensures plan.key[i].Before(Key(k0, l, 8)) <==> plan.key[i].Before(Key(k0, l + 2, 0))
    {
      TurnShape(bits, plan, i);
      SkipSteps(plan.key[i], k0, l);
    }
    AfterSkip(plan, before, Key(k0, l, 8), Key(k0, l + 2, 0));
  }

  lemma NextDiagonal<T>(bits: nat, k0: nat, before: seq<T>, steps: nat)
    requires bits >= 2 && k0 % 2 == 0 && |before| >= Pow2(bits) && steps == if bits % 2 == 1 then 2 else 1
    ensures Reached(bits, before, Key(k0, k0, steps)) == Reached(bits, before, Key(k0 + 2, 0, 0))
  {
    var plan := ReversalPlan(bits);
    PlanIsValid(bits, plan);
    forall i | 0 <= i < |plan.partner|
      ensures plan.key[i].Before(Key(k0, k0, steps)) <==> plan.key[i].Before(Key(k0 + 2, 0, 0))
    {
      TurnShape(bits, plan, i);
      SkipDiagonal(plan.key[i], k0, steps);
    }
    AfterSkip(plan, before, Key(k0, k0, steps), Key(k0 + 2, 0, 0));
  }

  // ---------------------------------------------------------------------------
  // The loops
  // ---------------------------------------------------------------------------

  /** One exchange of the inner loop body. */
  method SwapVariant<T>(a: array<T>, u: nat, v: nat, ghost bits: nat, ghost before: seq<T>,
                        ghost k0: nat, ghost l: nat, ghost low: bool, ghost mid: bool, ghost top: bool)
    requires Halves(bits, k0, l) && l < k0 && (mid ==> bits % 2 == 1)
    requires u == Inner(bits, k0, l) + Outer(bits, low, mid, top)
             && v == Inner(bits, l, k0) + Outer(bits, top, mid, low)
    requires |before| >= Pow2(bits) && a[..] == Reached(bits, before, Key(k0, l, Code(low, mid, top)))
    modifies a
    ensures a[..] == Reached(bits, before, Key(k0, l, NextCode(bits, Code(low, mid, top))))
  {
    ghost var plan := ReversalPlan(bits);
    PairTurn(bits, plan, k0, l, low, mid, top);
    PairOf(bits, plan, k0, l, low, mid, top);
    SwapNext(a, u, v, plan, before, Key(k0, l, Code(low, mid, top)), Key(k0, l, NextCode(bits, Code(low, mid, top))));
  }

  /** The inner loop body when the number of bits is even. */
  method MoveFour<T>(a: array<T>, j: nat, k: nat, nh: nat, ghost bits: nat, ghost before: seq<T>,
                     ghost k0: nat, ghost l: nat)
    requires Halves(bits, k0, l) && l < k0 && bits % 2 == 0
    requires j == Inner(bits, k0, l) && k == Inner(bits, l, k0) && nh == Pow2(bits - 1)
    requires |before| >= Pow2(bits) && a[..] == Reached(bits, before, Key(k0, l, 0))
    modifies a
    ensures a[..] == Reached(bits, before, Key(k0, l, 8))
  {
    SwapVariant(a, j, k, bits, before, k0, l, false, false, false);
    var j1, k1 := j + nh, k + 1;
    SwapVariant(a, j1, k1, bits, before, k0, l, false, false, true);
    j1, k1 := j1 + 1, k1 + nh;
    SwapVariant(a, j1, k1, bits, before, k0, l, true, false, true);
    j1, k1 := j1 - nh, k1 - 1;
    SwapVariant(a, j1, k1, bits, before, k0, l, true, false, false);
  }

  /** The inner loop body when the number of bits is odd. */
  method MoveEight<T>(a: array<T>, j: nat, k: nat, nh: nat, m: nat, ghost bits: nat, ghost before: seq<T>,
                      ghost k0: nat, ghost l: nat)
    requires Halves(bits, k0, l) && l < k0 && bits % 2 == 1
    requires j == Inner(bits, k0, l) && k == Inner(bits, l, k0) && nh == Pow2(bits - 1) && m == Half(bits)
    requires |before| >= Pow2(bits) && a[..] == Reached(bits, before, Key(k0, l, 0))
    modifies a
    ensures a[..] == Reached(bits, before, Key(k0, l, 8))
  {
    SwapVariant(a, j, k, bits, before, k0, l, false, false, false);
    var j1, k1 := j + m, k + m;
    SwapVariant(a, j1, k1, bits, before, k0, l, false, true, false);
    j1, k1 := j1 + nh, k1 + 1;
    SwapVariant(a, j1, k1, bits, before, k0, l, false, true, true);
    j1, k1 := j1 - m, k1 - m;
    SwapVariant(a, j1, k1, bits, before, k0, l, false, false, true);
    j1, k1 := j1 + 1, k1 + nh;
    SwapVariant(a, j1, k1, bits, before, k0, l, true, false, true);
    j1, k1 := j1 + m, k1 + m;
    SwapVariant(a, j1, k1, bits, before, k0, l, true, true, true);
    j1, k1 := j1 - nh, k1 - 1;
    SwapVariant(a, j1, k1, bits, before, k0, l, true, true, false);
    j1, k1 := j1 - m, k1 - m;
    SwapVariant(a, j1, k1, bits, before, k0, l, true, false, false);
  }

  /** One exchange after the inner loop. */
  method SwapDiagonal<T>(a: array<T>, u: nat, v: nat, ghost bits: nat, ghost before: seq<T>,
                         ghost k0: nat, ghost mid: bool, ghost step: nat)
    requires Halves(bits, k0, k0) && (mid ==> bits % 2 == 1) && step == if mid then 1 else 0
    requires u == Inner(bits, k0, k0) + Outer(bits, true, mid, false)
             && v == Inner(bits, k0, k0) + Outer(bits, false, mid, true)
    requires |before| >= Pow2(bits) && a[..] == Reached(bits, before, Key(k0, k0, step))
    modifies a
    ensures a[..] == Reached(bits, before, Key(k0, k0, step + 1))
  {
    ghost var plan := ReversalPlan(bits);
    DiagonalTurn(bits, plan, k0, mid, step);
    DiagonalPair(bits, plan, k0, mid);
    SwapNext(a, u, v, plan, before, Key(k0, k0, step), Key(k0, k0, step + 1));
  }

  lemma RevOfEvenHalf(bits: nat, x: nat)
    requires bits >= 1 && x % 2 == 0
    ensures Rev(bits, x) == Rev(bits - 1, x / 2)
  {
  }

  /** The inner loop variable k follows j: it is the reversal of j. */
  method NextInner(k: nat, nh: nat, ghost bits: nat, ghost k0: nat, ghost l: nat) returns (k': nat)
    requires Halves(bits, k0, l) && Halves(bits, k0, l + 2) && nh == Pow2(bits - 1) && k == Inner(bits, l, k0)
    ensures k' == Inner(bits, l + 2, k0)
  {
    ghost var j := Inner(bits, k0, l);
    InnerLow(bits, k0, l);
    InnerReversed(bits, k0, l);
    InnerReversed(bits, k0, l + 2);
    InnerBound(bits, k0, l + 2);
    RevOfEvenHalf(bits, j);
    RevOfEvenHalf(bits, j + 2);
    k' := NextReversed(nh, k, bits - 1, j / 2);
  }

  /** The outer loop variable j0 follows k0. */
  method NextOuter(j0: nat, nh: nat, ghost bits: nat, ghost k0: nat) returns (j0': nat)
    requires k0 % 2 == 0 && Halves(bits, k0 + 2, k0 + 2) && nh == Pow2(bits - 1) && j0 == Rev(bits, k0)
    ensures j0' == Rev(bits, k0 + 2)
  {
    Pow2Monotone(bits / 2, bits);
    RevOfEvenHalf(bits, k0);
    RevOfEvenHalf(bits, k0 + 2);
    j0' := NextReversed(nh, j0, bits - 1, k0 / 2);
  }

  /** The exchanges before the loops are those for the halves (0, 0). */
  lemma FirstIndices(bits: nat, nh: nat)
    requires bits >= 2 && nh == Pow2(bits - 1)
    ensures Halves(bits, 0, 0)
    ensures 1 == Inner(bits, 0, 0) + Outer(bits, true, false, false)
            && nh == Inner(bits, 0, 0) + Outer(bits, false, false, true)
    ensures Half(bits) + 1 == Inner(bits, 0, 0) + Outer(bits, true, true, false)
    ensures Half(bits) + nh == Inner(bits, 0, 0) + Outer(bits, false, true, true)
  {
    RevZero(bits);
  }

  lemma LoopStart(bits: nat, m: nat)
    requires bits >= 2 && m == Half(bits)
    ensures m >= 2 && m % 2 == 0 && Rev(bits, 0) == 0
    ensures forall k0: nat :: k0 < m && k0 % 2 == 0 ==> Halves(bits, k0, k0)
  {
    RevZero(bits);
  }

  /** The loops when the number of bits is even. */
  method LoopsEven<T>(a: array<T>, nh: nat, m: nat, ghost bits: nat, ghost before: seq<T>)
    requires bits >= 2 && bits % 2 == 0 && nh == Pow2(bits - 1) && m == Half(bits)
    requires |before| >= Pow2(bits) && a[..] == Reached(bits, before, Key(2, 0, 0))
    modifies a
    ensures a[..] == Reached(bits, before, Key(m, 0, 0))
  {
    hide *;
    var j0, k0 := 0, 2;
    LoopStart(bits, m);
    while k0 < m
      invariant 2 <= k0 <= m && k0 % 2 == 0 && j0 == Rev(bits, k0 - 2)
      invariant a[..] == Reached(bits, before, Key(k0, 0, 0))
    {
      j0 := MovePair(a, j0, k0, nh, bits, before);
      k0 := k0 + 2;
    }
  }

  method InnerLoopEven<T>(a: array<T>, j0: nat, k0: nat, nh: nat, ghost bits: nat, ghost before: seq<T>)
    requires Halves(bits, k0, k0) && bits % 2 == 0 && nh == Pow2(bits - 1) && j0 == Rev(bits, k0)
    requires |before| >= Pow2(bits) && a[..] == Reached(bits, before, Key(k0, 0, 0))
    modifies a
    ensures a[..] == Reached(bits, before, Key(k0, k0, 0))
  {
    hide Reached, Pow2, Rev;
    assert Halves(bits, k0, 0);
    var j, k := j0, k0;
    ghost var l := 0;
    RevZero(bits);
    while j < j0 + k0
      invariant j == j0 + l && l <= k0 && Halves(bits, k0, l) && k == Inner(bits, l, k0)
      invariant a[..] == Reached(bits, before, Key(k0, l, 0))
      decreases k0 - l
    {
      MoveFour(a, j, k, nh, bits, before, k0, l);
      NextHalves(bits, k0, l, before);
      j := j + 2;
      k := NextInner(k, nh, bits, k0, l);
      l := l + 2;
    }
  }

  /** The body of the outer loop when the number of bits is even. */
  method MovePair<T>(a: array<T>, j0: nat, k0: nat, nh: nat, ghost bits: nat, ghost before: seq<T>)
    returns (j0': nat)
    requires Halves(bits, k0, k0) && bits % 2 == 0 && k0 >= 2 && nh == Pow2(bits - 1) && j0 == Rev(bits, k0 - 2)
    requires |before| >= Pow2(bits) && a[..] == Reached(bits, before, Key(k0, 0, 0))
    modifies a
    ensures a[..] == Reached(bits, before, Key(k0 + 2, 0, 0)) && j0' == Rev(bits, k0)
  {
    j0' := NextOuter(j0, nh, bits, k0 - 2);
    InnerLoopEven(a, j0', k0, nh, bits, before);
    var k1 := j0' + k0;
    var j1 := k1 + 1;
    k1 := k1 + nh;
    SwapDiagonal(a, j1, k1, bits, before, k0, false, 0);
    NextDiagonal(bits, k0, before, 1);
  }

  /** The loops when the number of bits is odd. */
  method LoopsOdd<T>(a: array<T>, nh: nat, m: nat, ghost bits: nat, ghost before: seq<T>)
    requires bits >= 2 && bits % 2 == 1 && nh == Pow2(bits - 1) && m == Half(bits)
    requires |before| >= Pow2(bits) && a[..] == Reached(bits, before, Key(2, 0, 0))
    modifies a
    ensures a[..] == Reached(bits, before, Key(m, 0, 0))
  {
    hide *;
    var j0, k0 := 0, 2;
    LoopStart(bits, m);
    while k0 < m
      invariant 2 <= k0 <= m && k0 % 2 == 0 && j0 == Rev(bits, k0 - 2)
      invariant a[..] == Reached(bits, before, Key(k0, 0, 0))
    {
      j0 := MovePairOdd(a, j0, k0, nh, m, bits, before);
      k0 := k0 + 2;
    }
  }

  method InnerLoopOdd<T>(a: array<T>, j0: nat, k0: nat, nh: nat, m: nat, ghost bits: nat, ghost before: seq<T>)
    requires Halves(bits, k0, k0) && bits % 2 == 1 && nh == Pow2(bits - 1) && m == Half(bits) && j0 == Rev(bits, k0)
    requires |before| >= Pow2(bits) && a[..] == Reached(bits, before, Key(k0, 0, 0))
    modifies a
    ensures a[..] == Reached(bits, before, Key(k0, k0, 0))
  {
    hide Reached, Pow2, Rev;
    assert Halves(bits, k0, 0);
    var j, k := j0, k0;
    ghost var l := 0;
    RevZero(bits);
    while j < j0 + k0
      invariant j == j0 + l && l <= k0 && Halves(bits, k0, l) && k == Inner(bits, l, k0)
      invariant a[..] == Reached(bits, before, Key(k0, l, 0))
      decreases k0 - l
    {
      MoveEight(a, j, k, nh, m, bits, before, k0, l);
      NextHalves(bits, k0, l, before);
      j := j + 2;
      k := NextInner(k, nh, bits, k0, l);
      l := l + 2;
    }
  }

  /** The body of the outer loop when the number of bits is odd. */
  method MovePairOdd<T>(a: array<T>, j0: nat, k0: nat, nh: nat, m: nat, ghost bits: nat, ghost before: seq<T>)
    returns (j0': nat)
    requires Halves(bits, k0, k0) && bits % 2 == 1
    requires k0 >= 2 && nh == Pow2(bits - 1) && m == Half(bits) && j0 == Rev(bits, k0 - 2)
    requires |before| >= Pow2(bits) && a[..] == Reached(bits, before, Key(k0, 0, 0))
    modifies a
    ensures a[..] == Reached(bits, before, Key(k0 + 2, 0, 0)) && j0' == Rev(bits, k0)
  {
    j0' := NextOuter(j0, nh, bits, k0 - 2);
    InnerLoopOdd(a, j0', k0, nh, m, bits, before);
    var k1 := j0' + k0;
    var j1 := k1 + 1;
    k1 := k1 + nh;
    SwapDiagonal(a, j1, k1, bits, before, k0, false, 0);
    j1, k1 := j1 + m, k1 + m;
    SwapDiagonal(a, j1, k1, bits, before, k0, true, 1);
    NextDiagonal(bits, k0, before, 2);
  }

  /** Splits the number of bits: m = 2^(bits/2), and l tells whether a middle bit remains. */
  method Split(n: nat, ghost bits: nat) returns (m: nat, l: nat)
    requires bits >= 2 && n == Pow2(bits)
    ensures m == Half(bits) && l == if bits % 2 == 1 then 2 else 1
  {
    m := 2;
    l := n / 4;
    ghost var (q, rest) := (1, bits - 2);
    while l > 2
      invariant q >= 1 && rest >= 0 && l == Pow2(rest) && m == Pow2(q) && 2 * q + rest == bits
      decreases rest
    {
      m := 2 * m;
      l := l / 4;
      q, rest := q + 1, rest - 2;
    }
  }

  /** Every element in the place whose index is the reversal of its own. */
  ghost function BitReversed<T>(bits: nat, s: seq<T>): (r: seq<T>)
    requires |s| >= Pow2(bits)
    ensures |r| == |s|
  {
    seq(|s|, i requires 0 <= i < |s| => s[if i < Pow2(bits) then Rev(bits, i) else i])
  }

  lemma BitReversedAt<T>(bits: nat, s: seq<T>, i: nat)
    requires i < Pow2(bits) <= |s|
    ensures BitReversed(bits, s)[i] == s[Rev(bits, i)]
  {
  }

  /** Reordering twice restores the order. */
  lemma BitReversedTwice<T>(bits: nat, s: seq<T>)
    requires |s| >= Pow2(bits)
    ensures BitReversed(bits, BitReversed(bits, s)) == s
  {
    var r := BitReversed(bits, s);
    forall i | 0 <= i < |s| ensures BitReversed(bits, r)[i] == s[i] {
      if i < Pow2(bits) {
        RevInvolution(bits, i);
        BitReversedAt(bits, s, Rev(bits, i));
        BitReversedAt(bits, r, i);
      }
    }
  }

  lemma AllReached<T>(bits: nat, before: seq<T>)
    requires bits >= 2 && |before| >= Pow2(bits)
    ensures Reached(bits, before, Key(0, 0, 0)) == before
    ensures Reached(bits, before, Key(Half(bits), 0, 0)) == BitReversed(bits, before)
  {
    var plan := ReversalPlan(bits);
    PlanIsValid(bits, plan);
    AfterStart(plan, before);
    forall i | 0 <= i < |before|
      ensures After(plan, before, Key(Half(bits), 0, 0))[i] == BitReversed(bits, before)[i]
    {
      if i < Pow2(bits) {
        TurnShape(bits, plan, i);
        PlanAt(bits, plan, i);
      }
    }
  }

  lemma HalfOfPower(bits: nat)
    requires bits >= 1
    ensures Pow2(bits) / 2 == Pow2(bits - 1)
  {
  }

  method Bitrv1<T>(n: nat, a: array<T>, ghost bits: nat)
    requires bits >= 2 && n == Pow2(bits) && a.Length >= n
    modifies a
    ensures a[..] == BitReversed(bits, old(a[..]))
  {
    hide *;
    ghost var before := a[..];
    AllReached(bits, before);
    var nh := n / 2;
    HalfOfPower(bits);
    FirstIndices(bits, nh);
    SwapDiagonal(a, 1, nh, bits, before, 0, false, 0);
    var m, l := Split(n, bits);
    if l == 2 {
      SwapDiagonal(a, m + 1, m + nh, bits, before, 0, true, 1);
      NextDiagonal(bits, 0, before, 2);
      LoopsOdd(a, nh, m, bits, before);
    } else {
      NextDiagonal(bits, 0, before, 1);
      LoopsEven(a, nh, m, bits, before);
    }
  }
}
