/**
 The decision-tree interpreter (pico/lib/picokdt.c, `kdtAskTree` and the `picokdt_dt*classify` loops).

 A tree is stored as one bit stream; `Represents` relates a position in that stream to an abstract tree, and the
 main result is that walking the bits gives what evaluating the abstract tree gives.
 */
module DecisionTree {
  import opened BitReader
  import opened Options
  import opened Powers

  // ---------------------------------------------------------------------------
  // Abstract trees
  // ---------------------------------------------------------------------------

  datatype Subset =
    | OneValue(v: nat)
    | TwoValues(v: nat, w: nat)
    | WithoutBitMask(first: nat, count: nat)
    | BitMask(first: nat, mask: seq<bool>)

  datatype Forks = NoMore | Decide(class_: nat, rest: Forks) | Child(tree: Tree, rest: Forks)

  datatype Tree =
    | Terminal(question: nat)
    | Binary(question: nat, forks: Forks)
    | Continuous(question: nat, cut: nat, forks: Forks)
    | Discrete(question: nat, subsets: seq<Subset>, forks: Forks)

  predicate Matches(s: Subset, val: nat) {
    match s
    case OneValue(v) => val == v
    case TwoValues(v, w) => val == v || val == w
    case WithoutBitMask(first, count) => first <= val < first + count
    case BitMask(first, mask) => first <= val < first + |mask| && mask[val - first]
  }

  /** Index of the first subset that holds `val`; |ss| if there is none. */
  function FirstMatch(ss: seq<Subset>, val: nat): (i: nat)
    ensures i <= |ss|
    ensures i < |ss| ==> Matches(ss[i], val)
    ensures forall k :: 0 <= k < i ==> !Matches(ss[k], val)
  {
    if ss == [] then 0 else if Matches(ss[0], val) then 0 else 1 + FirstMatch(ss[1..], val)
  }

  function Count(f: Forks): nat {
    if f.NoMore? then 0 else 1 + Count(f.rest)
  }

  function ForksOf(t: Tree): Forks {
    if t.Terminal? then NoMore else t.forks
  }

  /** The fork that a node takes for an attribute value. */
  function Choice(t: Tree, val: nat): nat {
    match t
    case Terminal(_) => 0
    case Binary(_, _) => val
    case Continuous(_, cut, _) => if val <= cut then 0 else 1
    case Discrete(_, subsets, _) => FirstMatch(subsets, val)
  }

  /** The class that a tree assigns to an input vector; `None` if a question or a fork is missing. */
  function Evaluate(t: Tree, invec: seq<nat>): Option<nat>
    decreases t, 0
  {
    if t.question >= |invec| || t.Terminal? then None
    else Follow(t.forks, Choice(t, invec[t.question]), invec)
  }

  function Follow(f: Forks, i: nat, invec: seq<nat>): Option<nat>
    decreases f, 1
  {
    match f
    case NoMore => None
    case Decide(c, rest) => if i == 0 then Some(c) else Follow(rest, i - 1, invec)
    case Child(t, rest) => if i == 0 then Evaluate(t, invec) else Follow(rest, i - 1, invec)
  }

  // ---------------------------------------------------------------------------
  // What the answers are, said without evaluation
  // ---------------------------------------------------------------------------

  /** The answer of one step: no answer, a class, or a subtree to continue with. */
  datatype Answer = Nothing | Class(class_: nat) | Continue(tree: Tree)

  function ForkAt(f: Forks, i: int): Answer {
    match f
    case NoMore => Nothing
    case Decide(c, rest) => if i == 0 then Class(c) else ForkAt(rest, i - 1)
    case Child(t, rest) => if i == 0 then Continue(t) else ForkAt(rest, i - 1)
  }

  /** The forks of a node as a list. */
  function ForkList(f: Forks): (answers: seq<Answer>) {
    match f
    case NoMore => []
    case Decide(c, rest) => [Class(c)] + ForkList(rest)
    case Child(t, rest) => [Continue(t)] + ForkList(rest)
  }

  lemma {:induction false} ForkListed(f: Forks, i: int)
    ensures |ForkList(f)| == Count(f)
    ensures ForkAt(f, i) == if 0 <= i < |ForkList(f)| then ForkList(f)[i] else Nothing
  {
    if !f.NoMore? {
      ForkListed(f.rest, i - 1);
    }
  }

  /** The attribute values in a subset. */
  function ValuesOf(s: Subset): set<nat> {
    match s
    case OneValue(v) => {v}
    case TwoValues(v, w) => {v, w}
    case WithoutBitMask(first, count) => Interval(first, count)
    case BitMask(first, mask) => set k: nat | k < |mask| && mask[k] :: first + k
  }

  function Interval(first: nat, count: nat): set<nat> {
    if count == 0 then {} else Interval(first, count - 1) + {first + count - 1}
  }

  lemma MatchesIsMembership(s: Subset, val: nat)
    ensures Matches(s, val) <==> val in ValuesOf(s)
  {
    if s.WithoutBitMask? {
      IntervalSize(s.first, s.count);
    } else if s.BitMask? && Matches(s, val) {
      assert s.mask[val - s.first] && s.first + (val - s.first) == val;
    }
  }

  /** A subset without bit mask has exactly `count` values, from `first` on. */
  lemma {:induction false} IntervalSize(first: nat, count: nat)
    ensures |ValuesOf(WithoutBitMask(first, count))| == count
    ensures forall x: nat :: x in ValuesOf(WithoutBitMask(first, count)) <==> first <= x < first + count
  {
    if count > 0 {
      IntervalSize(first, count - 1);
    }
  }

  /** Fork number `i` is the one for the attribute value `val`. */
  ghost predicate Takes(t: Tree, val: nat, i: nat) {
    match t
    case Terminal(_) => false
    case Binary(_, _) => i == val
    case Continuous(_, cut, _) => (i == 0 && val <= cut) || (i == 1 && val > cut)
    case Discrete(_, subsets, _) =>
      && i <= |subsets|
      && (i < |subsets| ==> val in ValuesOf(subsets[i]))
      && forall k :: 0 <= k < i ==> val !in ValuesOf(subsets[k])
  }

  /** Every node with forks takes exactly one of them. */
  lemma TakesOne(t: Tree, val: nat, i: nat)
    requires !t.Terminal?
    ensures Takes(t, val, i) <==> i == Choice(t, val)
  {
    if t.Discrete? {
      forall s | s in t.subsets ensures Matches(s, val) <==> val in ValuesOf(s) {
        MatchesIsMembership(s, val);
      }
      var j := FirstMatch(t.subsets, val);
      assert forall k :: 0 <= k < j ==> t.subsets[k] in t.subsets && val !in ValuesOf(t.subsets[k]);
      assert j < |t.subsets| ==> t.subsets[j] in t.subsets && val in ValuesOf(t.subsets[j]);
    }
  }

  /** From the root of `t`, the fork numbers `route` lead to the decision for class `c`. */
  ghost predicate Leads(t: Tree, invec: seq<nat>, route: seq<nat>, c: nat)
    decreases |route|
  {
    && t.question < |invec| && !t.Terminal? && route != []
    && Takes(t, invec[t.question], route[0])
    && var answers := ForkList(t.forks);
      && route[0] < |answers|
      && match answers[route[0]]
         case Nothing => false
         case Class(d) => route == [route[0]] && c == d
         case Continue(u) => Leads(u, invec, route[1..], c)
  }

  /** Evaluation finds exactly the class that a route leads to. */
  lemma {:induction false} EvaluateFindsRoute(t: Tree, invec: seq<nat>, route: seq<nat>, c: nat)
    requires Leads(t, invec, route, c)
    ensures Evaluate(t, invec) == Some(c)
    decreases |route|
  {
    TakesOne(t, invec[t.question], route[0]);
    ForkListed(t.forks, route[0]);
    FollowIsForkAt(t.forks, route[0], invec);
    var answer := ForkList(t.forks)[route[0]];
    if answer.Continue? {
      EvaluateFindsRoute(answer.tree, invec, route[1..], c);
    }
  }

  /** The route of an evaluation that finds a class. */
  lemma {:induction false} RouteOfEvaluate(t: Tree, invec: seq<nat>) returns (route: seq<nat>)
    requires Evaluate(t, invec).Some?
    ensures Leads(t, invec, route, Evaluate(t, invec).value)
    decreases t
  {
    var i := Choice(t, invec[t.question]);
    TakesOne(t, invec[t.question], i);
    ForkListed(t.forks, i);
    FollowIsForkAt(t.forks, i, invec);
    var answer := ForkAt(t.forks, i);
    route := [i];
    if answer.Continue? {
      ForkSmaller(t.forks, i);
      var rest := RouteOfEvaluate(answer.tree, invec);
      route := route + rest;
      assert route[1..] == rest;
    }
  }

  lemma RoutesEvaluated(t: Tree, invec: seq<nat>)
    ensures Evaluate(t, invec).Some? <==> exists route: seq<nat>, c: nat :: Leads(t, invec, route, c)
    ensures forall route: seq<nat>, c: nat :: Leads(t, invec, route, c) ==> Evaluate(t, invec) == Some(c)
  {
    hide Evaluate;
    forall route: seq<nat>, c: nat | Leads(t, invec, route, c) ensures Evaluate(t, invec) == Some(c) {
      EvaluateFindsRoute(t, invec, route, c);
    }
    if Evaluate(t, invec).Some? {
      var route := RouteOfEvaluate(t, invec);
      var c := Evaluate(t, invec).value;
      assert Leads(t, invec, route, c);
    }
  }

  /** One continuous question with two classes. */
  predicate StumpAsked(t: Tree, invec: seq<nat>) {
    && t.Continuous? && t.question < |invec|
    && t.forks.Decide? && t.forks.rest.Decide? && t.forks.rest.rest.NoMore?
  }

  lemma StumpEvaluated(t: Tree, invec: seq<nat>)
    requires StumpAsked(t, invec)
    ensures Evaluate(t, invec) ==
            Some(if invec[t.question] <= t.cut then t.forks.class_ else t.forks.rest.class_)
  {
    var i := if invec[t.question] <= t.cut then 0 else 1;
    ForkListed(t.forks, i);
    EvaluateFindsRoute(t, invec, [i], ForkList(t.forks)[i].class_);
  }

  lemma {:induction false} ForkSmaller(f: Forks, i: int)
    ensures match ForkAt(f, i) case Continue(u) => u < f case _ => true
  {
    if !f.NoMore? && i != 0 {
      ForkSmaller(f.rest, i - 1);
    }
  }

  // ---------------------------------------------------------------------------
  // Trees as bits
  // ---------------------------------------------------------------------------

  /** The bit widths of the fields of a loaded tree, and its number of attributes. */
  datatype Widths = Widths(vfields: seq<byte>, qfields: seq<byte>, nrattributes: nat)
  {
    /** What the loader guarantees, and that every field fits a signed 32-bit number with room for one addition. */
    ghost predicate Valid() {
      && |vfields| == 2 && |qfields| == 5 * nrattributes
      && (forall w :: w in vfields || w in qfields ==> w <= 30)
    }

    function QField(att: nat, ind: nat): (w: nat)
      requires Valid() && att < nrattributes && ind < 5
      ensures w <= 30
    {
      assert qfields[att * 5 + ind] in qfields;
      qfields[att * 5 + ind]
    }

    function VField(ind: nat): (w: nat)
      requires Valid() && ind < 2
      ensures w <= 30
    {
      assert vfields[ind] in vfields;
      vfields[ind]
    }
  }

  /** The immutable part of a loaded tree. */
  datatype KnowledgeBase = KnowledgeBase(widths: Widths, body: seq<byte>)
  {
    /** The field of `n` bits at `p` lies in the body and holds `v`. */
    ghost predicate Field(p: nat, n: nat, v: nat) {
      p + n <= 8 * |body| && Val(body, p, n) == v
    }
  }

  const QUESTION := 0
  const DECIDE := 1
  const FORK_COUNT := 0
  const BIT_NO := 1
  const BIT_COUNT := 2
  const JUMP := 3
  const CUT := 4

  /** Number of bits that a subset takes up, its type included. */
  function SubsetSize(w: Widths, q: nat, s: Subset): nat
    requires w.Valid() && q < w.nrattributes
  {
    var (b, c) := (w.QField(q, BIT_NO), w.QField(q, BIT_COUNT));
    match s
    case OneValue(_) => 2 + b
    case TwoValues(_, _) => 2 + b + c
    case WithoutBitMask(_, _) => 2 + b + c
    case BitMask(_, mask) => 2 + b + c + |mask|
  }

  ghost predicate RepresentsSubset(kb: KnowledgeBase, q: nat, p: nat, s: Subset)
    requires kb.widths.Valid() && q < kb.widths.nrattributes
  {
    var (b, c) := (kb.widths.QField(q, BIT_NO), kb.widths.QField(q, BIT_COUNT));
    && p + SubsetSize(kb.widths, q, s) <= 8 * |kb.body|
    && match s
       case OneValue(v) => kb.Field(p, 2, 0) && kb.Field(p + 2, b, v)
       case TwoValues(v, w) => kb.Field(p, 2, 1) && kb.Field(p + 2, b, v) && kb.Field(p + 2 + b, c, w)
       case WithoutBitMask(first, count) =>
         kb.Field(p, 2, 2) && kb.Field(p + 2, b, first) && kb.Field(p + 2 + b, c, count)
       case BitMask(first, mask) =>
         && kb.Field(p, 2, 3) && kb.Field(p + 2, b, first) && kb.Field(p + 2 + b, c, |mask|)
         && forall k :: 0 <= k < |mask| ==> (mask[k] <==> Bit(kb.body, p + 2 + b + c + k) == 1)
  }

  function SubsetsSize(w: Widths, q: nat, ss: seq<Subset>): nat
    requires w.Valid() && q < w.nrattributes
  {
    if ss == [] then 0 else SubsetSize(w, q, ss[0]) + SubsetsSize(w, q, ss[1..])
  }

  ghost predicate RepresentsSubsets(kb: KnowledgeBase, q: nat, p: nat, ss: seq<Subset>)
    requires kb.widths.Valid() && q < kb.widths.nrattributes
    decreases |ss|
  {
    ss != [] ==>
      RepresentsSubset(kb, q, p, ss[0]) && RepresentsSubsets(kb, q, p + SubsetSize(kb.widths, q, ss[0]), ss[1..])
  }

  function TypeOf(t: Tree): nat {
    match t
    case Terminal(_) => 0
    case Binary(_, _) => 1
    case Continuous(_, _, _) => 2
    case Discrete(_, _, _) => 3
  }

  /** The part of a node in front of its forks. */
  ghost predicate RepresentsNode(kb: KnowledgeBase, p: nat, t: Tree)
    requires kb.widths.Valid()
  {
    var (q, at) := (t.question, p + 2 + kb.widths.VField(QUESTION));
    && kb.Field(p, 2, TypeOf(t)) && kb.Field(p + 2, kb.widths.VField(QUESTION), q) && q < kb.widths.nrattributes
      && q < 256
    && match t
       case Terminal(_) => true
       case Binary(_, forks) => Count(forks) == 2
       case Continuous(_, cut, forks) => Count(forks) == 2 && kb.Field(at, kb.widths.QField(q, CUT), cut)
       case Discrete(_, subsets, forks) =>
         && kb.Field(at, kb.widths.QField(q, FORK_COUNT), Count(forks))
         && |subsets| == (if Count(forks) == 0 then 0 else Count(forks) - 1)
         && RepresentsSubsets(kb, q, at + kb.widths.QField(q, FORK_COUNT), subsets)
  }

  /** Where the forks of a node start; the input vector plays no part in it. */
  function ForksPos(w: Widths, p: nat, t: Tree): nat
    requires w.Valid() && t.question < w.nrattributes
  {
    var (q, at) := (t.question, p + 2 + w.VField(QUESTION));
    match t
    case Terminal(_) => at
    case Binary(_, _) => at
    case Continuous(_, _, _) => at + w.QField(q, CUT)
    case Discrete(_, subsets, _) => at + w.QField(q, FORK_COUNT) + SubsetsSize(w, q, subsets)
  }

  ghost predicate RepresentsForks(kb: KnowledgeBase, q: nat, p: nat, f: Forks)
    requires kb.widths.Valid() && q < kb.widths.nrattributes
    decreases f, 1
  {
    match f
    case NoMore => true
    case Decide(c, rest) =>
      && kb.Field(p, 1, 1) && kb.Field(p + 1, kb.widths.VField(DECIDE), c)
      && RepresentsForks(kb, q, p + 1 + kb.widths.VField(DECIDE), rest)
    case Child(t, rest) =>
      var here := p + 1 + kb.widths.QField(q, JUMP);
      && kb.Field(p, 1, 0) && here <= 8 * |kb.body|
      && Represents(kb, here + Val(kb.body, p + 1, kb.widths.QField(q, JUMP)), t)
      && RepresentsForks(kb, q, here, rest)
  }

  /** The bits from `p` on are the tree `t`. */
  ghost predicate Represents(kb: KnowledgeBase, p: nat, t: Tree)
    requires kb.widths.Valid()
    decreases t, 0
  {
    && RepresentsNode(kb, p, t)
    && (!t.Terminal? ==> RepresentsForks(kb, t.question, ForksPos(kb.widths, p, t), t.forks))
  }

  lemma SubsetUnique(kb: KnowledgeBase, q: nat, p: nat, s: Subset, r: Subset)
    requires kb.widths.Valid() && q < kb.widths.nrattributes
    requires RepresentsSubset(kb, q, p, s) && RepresentsSubset(kb, q, p, r)
    ensures s == r
  {
    hide Val;
    if s.BitMask? && r.BitMask? {
      assert |s.mask| == |r.mask|;
      forall k | 0 <= k < |s.mask| ensures s.mask[k] == r.mask[k] {
      }
    }
  }

  lemma {:induction false} SubsetsUnique(kb: KnowledgeBase, q: nat, p: nat, ss: seq<Subset>, rs: seq<Subset>)
    requires kb.widths.Valid() && q < kb.widths.nrattributes && |ss| == |rs|
    requires RepresentsSubsets(kb, q, p, ss) && RepresentsSubsets(kb, q, p, rs)
    ensures ss == rs
    decreases |ss|
  {
    hide Val;
    if ss == [] {
    } else {
      SubsetUnique(kb, q, p, ss[0], rs[0]);
      SubsetsUnique(kb, q, p + SubsetSize(kb.widths, q, ss[0]), ss[1..], rs[1..]);
    }
  }

  lemma {:induction false} ForksUnique(kb: KnowledgeBase, q: nat, p: nat, f: Forks, g: Forks)
    requires kb.widths.Valid() && q < kb.widths.nrattributes && Count(f) == Count(g)
    requires RepresentsForks(kb, q, p, f) && RepresentsForks(kb, q, p, g)
    ensures f == g
    decreases f, 1
  {
    hide Val;
    if f.Decide? {
      assert g.Decide?;
      ForksUnique(kb, q, p + 1 + kb.widths.VField(DECIDE), f.rest, g.rest);
    } else if f.Child? {
      assert g.Child?;
      var here := p + 1 + kb.widths.QField(q, JUMP);
      ForksUnique(kb, q, here, f.rest, g.rest);
      TreeUnique(kb, here + Val(kb.body, p + 1, kb.widths.QField(q, JUMP)), f.tree, g.tree);
    }
  }

  lemma NodeUnique(kb: KnowledgeBase, p: nat, t: Tree, u: Tree)
    requires kb.widths.Valid() && RepresentsNode(kb, p, t) && RepresentsNode(kb, p, u)
    ensures TypeOf(t) == TypeOf(u) && t.question == u.question && ForksPos(kb.widths, p, t) == ForksPos(kb.widths, p, u)
    ensures !t.Terminal? ==> Count(t.forks) == Count(u.forks)
    ensures !t.Terminal? && t.forks == u.forks ==> t == u
  {
    hide Val;
    if t.Discrete? {
      SubsetsUnique(kb, t.question, p + 2 + kb.widths.VField(QUESTION) + kb.widths.QField(t.question, FORK_COUNT),
        t.subsets, u.subsets);
    }
  }

  /** A bit position represents at most one tree. */
  lemma {:induction false} TreeUnique(kb: KnowledgeBase, p: nat, t: Tree, u: Tree)
    requires kb.widths.Valid() && Represents(kb, p, t) && Represents(kb, p, u)
    ensures t == u
    decreases t, 0
  {
    NodeUnique(kb, p, t, u);
    if !t.Terminal? {
      ForksUnique(kb, t.question, ForksPos(kb.widths, p, t), t.forks, u.forks);
    }
  }

  // ---------------------------------------------------------------------------
  // The interpreter
  // ---------------------------------------------------------------------------

  /** One subset of a discrete node.  Once a fork is chosen (`id > -1`) the subset is only skipped. */
  method AskSubset(kb: KnowledgeBase, q: nat, val: nat, i: nat, id: int, byteNo: nat, bitNo: int, ghost s: Subset)
    returns (id': int, byteNo': nat, bitNo': int)
    requires kb.widths.Valid() && q < kb.widths.nrattributes && 0 <= bitNo <= 7 && id >= -1
    requires RepresentsSubset(kb, q, Pos(byteNo, bitNo), s)
    ensures 0 <= bitNo' <= 7 && Pos(byteNo', bitNo') == Pos(byteNo, bitNo) + SubsetSize(kb.widths, q, s)
    ensures id' == if id == -1 && Matches(s, val) then i else id
  {
    hide Val;
    ghost var p := Pos(byteNo, bitNo);
    var subsetType, bitPos, bitCount;
    id' := id;
    subsetType, byteNo', bitNo' := GetShiftVal(kb.body, 2, byteNo, bitNo);
    if subsetType == 0 {
      if id > -1 {
        byteNo', bitNo' := Jump(kb.widths.QField(q, BIT_NO), byteNo', bitNo');
      } else {
        bitPos, byteNo', bitNo' := GetShiftVal(kb.body, kb.widths.QField(q, BIT_NO), byteNo', bitNo');
        if val == bitPos { id' := i; }
      }
    } else if subsetType == 1 || subsetType == 2 {
      if id > -1 {
        byteNo', bitNo' := Jump(kb.widths.QField(q, BIT_NO) + kb.widths.QField(q, BIT_COUNT), byteNo', bitNo');
      } else {
        bitPos, byteNo', bitNo' := GetShiftVal(kb.body, kb.widths.QField(q, BIT_NO), byteNo', bitNo');
        bitCount, byteNo', bitNo' := GetShiftVal(kb.body, kb.widths.QField(q, BIT_COUNT), byteNo', bitNo');
        if subsetType == 1 {
          if val == bitPos || val == bitCount { id' := i; }
        } else if bitPos <= val < bitPos + bitCount {
          id' := i;
        }
      }
    } else {
      id', byteNo', bitNo' := AskBitMask(kb, q, val, i, id, byteNo', bitNo', s);
    }
  }

  method AskBitMask(kb: KnowledgeBase, q: nat, val: nat, i: nat, id: int, byteNo: nat, bitNo: int, ghost s: Subset)
    returns (id': int, byteNo': nat, bitNo': int)
    requires kb.widths.Valid() && q < kb.widths.nrattributes && 0 <= bitNo <= 7 && id >= -1
    requires s.BitMask? && Pos(byteNo, bitNo) >= 2 && RepresentsSubset(kb, q, Pos(byteNo, bitNo) - 2, s)
    ensures 0 <= bitNo' <= 7 && Pos(byteNo', bitNo') == Pos(byteNo, bitNo) - 2 + SubsetSize(kb.widths, q, s)
    ensures id' == if id == -1 && Matches(s, val) then i else id
  {
    var bitPos, bitCount := 0, 0;
    id' := id;
    if id > -1 {
      byteNo', bitNo' := Jump(kb.widths.QField(q, BIT_NO), byteNo, bitNo);
    } else {
      bitPos, byteNo', bitNo' := GetShiftVal(kb.body, kb.widths.QField(q, BIT_NO), byteNo, bitNo);
    }
    bitCount, byteNo', bitNo' := GetShiftVal(kb.body, kb.widths.QField(q, BIT_COUNT), byteNo', bitNo');
    if id > -1 {
      byteNo', bitNo' := Jump(bitCount, byteNo', bitNo');
      return;
    }
    if bitPos <= val < bitPos + bitCount {
      byteNo', bitNo' := Jump(val - bitPos, byteNo', bitNo');
      BitAtCursor(kb.body, byteNo', bitNo');
      if Shr(kb.body[byteNo'], bitNo') % 2 > 0 {
        id' := i;
      }
      byteNo', bitNo' := Jump(bitCount - (val - bitPos), byteNo', bitNo');
    } else {
      byteNo', bitNo' := Jump(bitCount, byteNo', bitNo');
    }
  }

  /** All subsets of a discrete node: the first one that holds `val` decides. */
  method AskSubsets(kb: KnowledgeBase, q: nat, val: nat, forks: nat, byteNo: nat, bitNo: int, ghost ss: seq<Subset>)
    returns (id: int, byteNo': nat, bitNo': int)
    requires kb.widths.Valid() && q < kb.widths.nrattributes && 0 <= bitNo <= 7
    requires |ss| == (if forks == 0 then 0 else forks - 1) && RepresentsSubsets(kb, q, Pos(byteNo, bitNo), ss)
    ensures 0 <= bitNo' <= 7 && Pos(byteNo', bitNo') == Pos(byteNo, bitNo) + SubsetsSize(kb.widths, q, ss)
    ensures id == if FirstMatch(ss, val) < |ss| then FirstMatch(ss, val) else forks - 1
  {
    id, byteNo', bitNo' := -1, byteNo, bitNo;
    ghost var (rest, m) := (ss, FirstMatch(ss, val));
    hide Val, RepresentsSubset, RepresentsSubsets, SubsetSize, SubsetsSize, FirstMatch, Matches;
    var i := 0;
    while i < forks - 1
      invariant 0 <= bitNo' <= 7 && 0 <= i <= |ss| && rest == ss[i..]
      invariant RepresentsSubsets(kb, q, Pos(byteNo', bitNo'), rest)
      invariant Pos(byteNo', bitNo') + SubsetsSize(kb.widths, q, rest) == Pos(byteNo, bitNo) + SubsetsSize(kb.widths,
                q, ss)
      invariant id == if m < i then m else -1
    {
      FirstSubset(kb, q, Pos(byteNo', bitNo'), rest);
      id, byteNo', bitNo' := AskSubset(kb, q, val, i, id, byteNo', bitNo', rest[0]);
      rest := rest[1..];
      i := i + 1;
    }
    NoSubset(kb, q, rest);
    if id == -1 {
      id := forks - 1;
    }
  }

  lemma FirstSubset(kb: KnowledgeBase, q: nat, p: nat, ss: seq<Subset>)
    requires kb.widths.Valid() && q < kb.widths.nrattributes && ss != [] && RepresentsSubsets(kb, q, p, ss)
    ensures RepresentsSubset(kb, q, p, ss[0])
    ensures RepresentsSubsets(kb, q, p + SubsetSize(kb.widths, q, ss[0]), ss[1..])
    ensures SubsetsSize(kb.widths, q, ss) == SubsetSize(kb.widths, q, ss[0]) + SubsetsSize(kb.widths, q, ss[1..])
  {
  }

  lemma NoSubset(kb: KnowledgeBase, q: nat, ss: seq<Subset>)
    requires kb.widths.Valid() && q < kb.widths.nrattributes
    ensures ss == [] ==> SubsetsSize(kb.widths, q, ss) == 0
  {
  }

  /** The node in front of its forks: how many there are, and which one is taken. */
  method AskNode(kb: KnowledgeBase, nodeType: nat, q: nat, val: nat, byteNo: nat, bitNo: int,
                 ghost at: nat, ghost t: Tree)
    returns (forks: nat, id: int, byteNo': nat, bitNo': int)
    requires kb.widths.Valid() && 0 <= bitNo <= 7 && RepresentsNode(kb, at, t) && q == t.question
    requires Pos(byteNo, bitNo) == at + 2 + kb.widths.VField(QUESTION) && nodeType == Val(kb.body, at, 2)
    ensures 0 <= bitNo' <= 7 && Pos(byteNo', bitNo') == ForksPos(kb.widths, at, t) >= Pos(byteNo, bitNo)
    ensures forks == Count(ForksOf(t))
    ensures if forks == 0 then id == -1 else id == Choice(t, val)
  {
    hide Val;
    forks, id, byteNo', bitNo' := 0, -1, byteNo, bitNo;
    assert nodeType == TypeOf(t);
    if nodeType == 1 {
      forks, id := 2, val;
    } else if nodeType == 2 {
      forks, id := 2, 1;
      var cut;
      cut, byteNo', bitNo' := GetShiftVal(kb.body, kb.widths.QField(q, CUT), byteNo', bitNo');
      if val <= cut { id := 0; }
    } else if nodeType == 3 {
      forks, byteNo', bitNo' := GetShiftVal(kb.body, kb.widths.QField(q, FORK_COUNT), byteNo', bitNo');
      id, byteNo', bitNo' := AskSubsets(kb, q, val, forks, byteNo', bitNo', t.subsets);
    }
  }

  /** One fork: if `taken`, its decision is read or its subtree jumped to; otherwise it is skipped. */
  method AskFork(kb: KnowledgeBase, q: nat, taken: bool, byteNo: nat, bitNo: int, ghost f: Forks)
    returns (isDecide: bool, decision: nat, byteNo': nat, bitNo': int)
    requires kb.widths.Valid() && q < kb.widths.nrattributes && 0 <= bitNo <= 7
    requires !f.NoMore? && RepresentsForks(kb, q, Pos(byteNo, bitNo), f)
    ensures 0 <= bitNo' <= 7 && Pos(byteNo', bitNo') > Pos(byteNo, bitNo) && isDecide == f.Decide?
    ensures !taken ==> RepresentsForks(kb, q, Pos(byteNo', bitNo'), f.rest)
    ensures taken && f.Decide? ==> decision == f.class_
    ensures taken && f.Child? ==> Represents(kb, Pos(byteNo', bitNo'), f.tree)
  {
    hide Val;
    var flag;
    flag, byteNo', bitNo' := GetShiftVal(kb.body, 1, byteNo, bitNo);
    isDecide, decision := flag != 0, 0;
    if !isDecide {
      if taken {
        var jump;
        jump, byteNo', bitNo' := GetShiftVal(kb.body, kb.widths.QField(q, JUMP), byteNo', bitNo');
        byteNo', bitNo' := Jump(jump, byteNo', bitNo');
      } else {
        byteNo', bitNo' := Jump(kb.widths.QField(q, JUMP), byteNo', bitNo');
      }
    } else if taken {
      decision, byteNo', bitNo' := GetShiftVal(kb.body, kb.widths.VField(DECIDE), byteNo', bitNo');
    } else {
      byteNo', bitNo' := Jump(kb.widths.VField(DECIDE), byteNo', bitNo');
    }
  }

  /** Walks over the forks and follows number `id`. */
  method FollowFork(kb: KnowledgeBase, q: nat, forks: nat, id: int, byteNo: nat, bitNo: int, ghost f: Forks)
    returns (rv: int, decision: nat, byteNo': nat, bitNo': int)
    requires kb.widths.Valid() && q < kb.widths.nrattributes && 0 <= bitNo <= 7
    requires forks == Count(f) && RepresentsForks(kb, q, Pos(byteNo, bitNo), f)
    ensures 0 <= bitNo' <= 7 && Pos(byteNo', bitNo') >= Pos(byteNo, bitNo)
    ensures match ForkAt(f, id)
            case Nothing => rv == -1
            case Class(c) => rv == 0 && decision == c
            case Continue(t) => rv == 1 && Represents(kb, Pos(byteNo', bitNo'), t)
  {
    hide Val;
    byteNo', bitNo', decision := byteNo, bitNo, 0;
    ghost var rest := f;
    for i := 0 to forks
      invariant 0 <= bitNo' <= 7 && Pos(byteNo', bitNo') >= Pos(byteNo, bitNo)
      invariant Count(rest) == forks - i && RepresentsForks(kb, q, Pos(byteNo', bitNo'), rest)
      invariant ForkAt(f, id) == ForkAt(rest, id - i)
    {
      var isDecide;
      isDecide, decision, byteNo', bitNo' := AskFork(kb, q, id == i, byteNo', bitNo', rest);
      if id == i {
        return if isDecide then 0 else 1, decision, byteNo', bitNo';
      }
      rest := rest.rest;
    }
    rv := -1;
  }

  lemma {:induction false} FollowIsForkAt(f: Forks, i: nat, invec: seq<nat>)
    ensures Follow(f, i, invec) == match ForkAt(f, i)
                                   case Nothing => None
                                   case Class(c) => Some(c)
                                   case Continue(t) => Evaluate(t, invec)
  {
    if !f.NoMore? && i > 0 {
      FollowIsForkAt(f.rest, i - 1, invec);
    }
  }

  /** Of the `answers` of a node, number `i` is the outcome; there may be none. */
  ghost predicate Answered(answers: seq<Answer>, i: nat, rv: int, dclass: nat, next: Tree) {
    match if i < |answers| then answers[i] else Nothing
    case Nothing => rv == -1
    case Class(c) => rv == 0 && dclass == c % 0x1_0000
    case Continue(u) => rv == 1 && next == u
  }

  /** What the outcome of one node has to do with its forks. */
  ghost predicate AnsweredRight(t: Tree, val: nat, rv: int, dclass: nat, next: Tree) {
    && (t.Terminal? ==> rv == -1)
    && (t.Binary? ==> Answered(ForkList(t.forks), val, rv, dclass, next))
    && (t.Continuous? ==> Answered(ForkList(t.forks), if val <= t.cut then 0 else 1, rv, dclass, next))
    && (t.Discrete? ==> forall i: nat :: Takes(t, val, i) ==> Answered(ForkList(t.forks), i, rv, dclass, next))
  }

  lemma NodeAnswered(t: Tree, val: nat, rv: int, dclass: nat, next: Tree)
    requires match ForkAt(ForksOf(t), Choice(t, val))
             case Nothing => rv == -1
             case Class(c) => rv == 0 && dclass == c % 0x1_0000
             case Continue(u) => rv == 1 && next == u
    ensures AnsweredRight(t, val, rv, dclass, next)
  {
    if !t.Terminal? {
      ForkListed(t.forks, Choice(t, val));
      forall i: nat ensures Takes(t, val, i) <==> i == Choice(t, val) {
        TakesOne(t, val, i);
      }
    }
  }

  class Classifier {
    const kb: KnowledgeBase
    var dset: bool
    var dclass: nat

    constructor (kb: KnowledgeBase)
      requires kb.widths.Valid()
      ensures this.kb == kb && !dset
    {
      this.kb := kb;
      dset, dclass := false, 0;
    }

    /** `kdtAskTree`: one node.  A positive result means that the cursor has moved on to the subtree `next`. */
    method AskTree(invec: seq<nat>, byteNo: nat, bitNo: int, ghost t: Tree)
      returns (rv: int, byteNo': nat, bitNo': int, ghost next: Tree)
      requires kb.widths.Valid() && 0 <= bitNo <= 7 && Represents(kb, Pos(byteNo, bitNo), t)
      modifies this
      ensures 0 <= bitNo' <= 7 && -1 <= rv <= 1
      ensures dset <==> rv == 0
      ensures rv == -1 ==> Evaluate(t, invec) == None
      ensures rv == 0 ==> exists c :: Evaluate(t, invec) == Some(c) && dclass == c % 0x1_0000
      ensures rv == 1 ==> Pos(byteNo', bitNo') > Pos(byteNo, bitNo)
      ensures rv == 1 ==> Represents(kb, Pos(byteNo', bitNo'), next) && Evaluate(next, invec) == Evaluate(t, invec)
      ensures t.question >= |invec| ==> rv == -1
      ensures t.question < |invec| ==> AnsweredRight(t, invec[t.question], rv, dclass, next)
    {
      hide Val;
      next := t;
      ghost var p := Pos(byteNo, bitNo);
      var nodeType, question, forks, id, decision;
      nodeType, byteNo', bitNo' := GetShiftVal(kb.body, 2, byteNo, bitNo);
      question, byteNo', bitNo' := GetShiftVal(kb.body, kb.widths.VField(QUESTION), byteNo', bitNo');
      question := question % 256;
      if !(question < kb.widths.nrattributes && question < |invec|) {
        dset := false;
        return -1, byteNo', bitNo', next;
      }
      var val := invec[question];
      forks, id, byteNo', bitNo' := AskNode(kb, nodeType, question, val, byteNo', bitNo', p, t);
      FollowIsForkAt(ForksOf(t), Choice(t, val), invec);
      rv, decision, byteNo', bitNo' := FollowFork(kb, question, forks, id, byteNo', bitNo', ForksOf(t));
      if rv == 0 {
        dclass := decision % 0x1_0000;
      } else if rv == 1 {
        next := ForkAt(ForksOf(t), id).tree;
      }
      dset := rv == 0;
      NodeAnswered(t, val, rv, dclass, next);
    }

    /** The classification loop: equals evaluating the tree, and always ends. */
    method Classify(invec: seq<nat>, ghost root: Tree) returns (ok: bool)
      requires kb.widths.Valid() && Represents(kb, 0, root)
      modifies this
      ensures ok <==> Evaluate(root, invec) != None
      ensures ok ==> dset && dclass == Evaluate(root, invec).value % 0x1_0000
      ensures ok <==> exists route: seq<nat>, c: nat :: Leads(root, invec, route, c)
      ensures forall route: seq<nat>, c: nat :: Leads(root, invec, route, c) ==> dclass == c % 0x1_0000
      ensures StumpAsked(root, invec) ==>
                ok && dclass == (if invec[root.question] <= root.cut then root.forks.class_
                                 else root.forks.rest.class_) % 0x1_0000
    {
      var byteNo, bitNo := 0, 7;
      ghost var t := root;
      var rv;
      rv, byteNo, bitNo, t := AskTree(invec, byteNo, bitNo, t);
      while rv > 0
        invariant 0 <= bitNo <= 7 && -1 <= rv <= 1 && (dset <==> rv == 0)
        invariant rv == 1 ==> Represents(kb, Pos(byteNo, bitNo), t) && Evaluate(t, invec) == Evaluate(root, invec)
        invariant rv == -1 ==> Evaluate(root, invec) == None
        invariant rv == 0 ==> exists c :: Evaluate(root, invec) == Some(c) && dclass == c % 0x1_0000
        decreases if rv > 0 then 8 * |kb.body| + 1 - Pos(byteNo, bitNo) else 0
      {
        rv, byteNo, bitNo, t := AskTree(invec, byteNo, bitNo, t);
      }
      ok := rv == 0 && dset;
      RoutesEvaluated(root, invec);
      if StumpAsked(root, invec) { StumpEvaluated(root, invec); }
    }
  }
}
