/**
 The control unit (pico/lib/picoctrl.c): a chain of processing units (PUs) with a buffer between any two neighbours,
 one of which is stepped at a time.

 What a PU does in one step is not modelled; a step of it is any `Outcome` that meets `Contract`.
 Buffer k feeds PU k: buffer 0 is the engine's input, buffer n the engine's output, the others are internal.
 */
module Scheduler {
  import opened Powers
  import opened Concatenation
  import opened CharBuffers

  datatype PuStatus = Idle | Busy | Atomic | OutFull | Error

  /** `work` stands for whatever the PUs still have to do; it is read by the progress argument only. */
  datatype State = State(cur: nat, status: seq<PuStatus>, bufs: seq<seq<byte>>, work: nat)

  /** One PU step: what it returns, what it leaves in its input and output buffers, how much it put out. */
  datatype Outcome = Outcome(status: PuStatus, cbIn: seq<byte>, cbOut: seq<byte>, bytesOutput: nat, work: nat)

  ghost predicate Shape(s: State) {
    s.cur < |s.status| && |s.bufs| == |s.status| + 1
  }

  /** A PU consumes from the front of its input and appends to its output; it reports output exactly if there is some,
      and reports idle only if its input is empty. */
  ghost predicate Contract(s: State, o: Outcome)
    requires Shape(s)
  {
    && |o.cbIn| <= |s.bufs[s.cur]| && o.cbIn == s.bufs[s.cur][|s.bufs[s.cur]| - |o.cbIn|..]
    && s.bufs[s.cur + 1] <= o.cbOut
    && (o.bytesOutput > 0 <==> o.cbOut != s.bufs[s.cur + 1])
    && (o.status == Idle ==> o.cbIn == [])
  }

  // ---------------------------------------------------------------------------
  // The transition function
  // ---------------------------------------------------------------------------

  datatype StepResult = StepResult(state: State, returned: PuStatus)

  /** The nearest PU from `c` upwards in the chain that is not idle; 0 if there is none. */
  function WalkUp(status: seq<PuStatus>, c: nat): (m: nat)
    requires c < |status|
    ensures m <= c && (m > 0 ==> status[m] != Idle)
    ensures forall k :: m < k <= c ==> status[k] == Idle
  {
    if c > 0 && status[c] == Idle then WalkUp(status, c - 1) else c
  }

  /** The state right after the PU's own step: its status, its buffers, and the next PU woken if there was output. */
  function AfterPu(s: State, o: Outcome): State
    requires Shape(s)
  {
    var status := s.status[s.cur := o.status];
    State(s.cur,
          if o.bytesOutput > 0 && s.cur + 1 < |s.status| then status[s.cur + 1 := Busy] else status,
          s.bufs[s.cur := o.cbIn][s.cur + 1 := o.cbOut], o.work)
  }

  function MoveTo(s: State, pu: nat): State
    requires pu < |s.status|
  {
    s.(cur := pu, status := s.status[pu := Busy])
  }

  function Transition(s: State, o: Outcome): (r: StepResult)
    requires Shape(s)
    ensures Shape(r.state) && |r.state.status| == |s.status|
  {
    var t := AfterPu(s, o);
    var below := s.cur + 1 < |s.status| && t.status[s.cur + 1] == Busy;
    match o.status
    case Atomic => StepResult(t, Atomic)
    case Busy => StepResult(if below then t.(cur := s.cur + 1) else t, Busy)
    case Idle =>
      if below then StepResult(t.(cur := s.cur + 1), Busy)
      else if s.cur == 0 then StepResult(t, Idle)
      else StepResult(MoveTo(t, WalkUp(t.status, s.cur)), Busy)
    case OutFull =>
      if s.cur + 1 < |s.status| then StepResult(MoveTo(t, s.cur + 1), Busy) else StepResult(t, OutFull)
    case Error => StepResult(t, Error)
  }

  /** `ctrlInitialize` and the buffer resets of `picoctrl_engReset`: the PU statuses are left as they are. */
  function Reset(s: State, work: nat): State {
    State(0, s.status, seq(|s.bufs|, _ => []), work)
  }

  function Initial(n: nat, work: nat): State {
    State(0, seq(n, _ => Idle), seq(n + 1, _ => []), work)
  }

  // ---------------------------------------------------------------------------
  // Who gets the next turn
  // ---------------------------------------------------------------------------

  /** The nearest PU above `c` in the chain that is not idle, or the first one if there is none. */
  ghost predicate NearestAbove(status: seq<PuStatus>, c: nat, m: nat) {
    && m < c <= |status| && (m > 0 ==> status[m] != Idle)
    && forall k :: m < k < c ==> status[k] == Idle
  }

  /** The PU below the current one is busy, or is woken by what the current one puts out. */
  ghost predicate BelowBusy(s: State, o: Outcome)
    requires Shape(s)
  {
    s.cur + 1 < |s.status| && (o.bytesOutput > 0 || s.status[s.cur + 1] == Busy)
  }

  /** PU `next` gets the next turn, and `returned` is what the caller is told. */
  ghost predicate Turn(s: State, o: Outcome, next: nat, returned: PuStatus)
    requires Shape(s)
  {
    match o.status
    case Atomic => next == s.cur && returned == Atomic
    case Busy => next == (if BelowBusy(s, o) then s.cur + 1 else s.cur) && returned == Busy
    case Idle =>
      if BelowBusy(s, o) then next == s.cur + 1 && returned == Busy
      else if s.cur == 0 then next == 0 && returned == Idle
      else NearestAbove(s.status, s.cur, next) && returned == Busy
    case OutFull =>
      if s.cur + 1 < |s.status| then next == s.cur + 1 && returned == Busy else next == s.cur && returned == OutFull
    case Error => next == s.cur && returned == Error
  }

  /** A PU that gets the turn from another one is marked busy, and so is one that is woken. */
  ghost predicate StatusesAfter(s: State, o: Outcome, t: State)
    requires Shape(s)
  {
    && |t.status| == |s.status|
    && forall k :: 0 <= k < |s.status| ==>
         t.status[k] == if k == t.cur != s.cur then Busy
                        else if k == s.cur then o.status
                        else if k == s.cur + 1 && o.bytesOutput > 0 then Busy
                        else s.status[k]
  }

  ghost predicate BuffersAfter(s: State, o: Outcome, t: State)
    requires Shape(s)
  {
    && |t.bufs| == |s.bufs| && t.work == o.work
    && forall k :: 0 <= k < |s.bufs| ==>
         t.bufs[k] == if k == s.cur then o.cbIn else if k == s.cur + 1 then o.cbOut else s.bufs[k]
  }

  /** The rules of the time slots. */
  ghost predicate SlotRules(s: State, o: Outcome, t: State, returned: PuStatus)
    requires Shape(s)
  {
    Turn(s, o, t.cur, returned) && StatusesAfter(s, o, t) && BuffersAfter(s, o, t)
  }

  lemma StepMeetsRules(s: State, o: Outcome)
    requires Shape(s)
    ensures SlotRules(s, o, Transition(s, o).state, Transition(s, o).returned)
  {
    var (t, r) := (AfterPu(s, o), Transition(s, o));
    if o.status == Idle && s.cur > 0 && !BelowBusy(s, o) {
      var m := WalkUp(t.status, s.cur);
      assert t.status[s.cur] == Idle;
      forall k | m < k < s.cur ensures s.status[k] == Idle {
        assert t.status[k] == s.status[k];
      }
      assert m < s.cur && NearestAbove(s.status, s.cur, m);
    }
  }

  lemma NearestUnique(status: seq<PuStatus>, c: nat, m: nat, k: nat)
    requires NearestAbove(status, c, m) && NearestAbove(status, c, k)
    ensures m == k
  {
  }

  /** The rules leave no choice: what a step does is the only thing that meets them. */
  lemma RulesDetermine(s: State, o: Outcome, t: State, returned: PuStatus)
    requires Shape(s) && SlotRules(s, o, t, returned)
    ensures StepResult(t, returned) == Transition(s, o)
  {
    StepMeetsRules(s, o);
    var r := Transition(s, o);
    hide Transition;
    if o.status == Idle && s.cur > 0 && !BelowBusy(s, o) {
      NearestUnique(s.status, s.cur, t.cur, r.state.cur);
    }
    assert t.cur == r.state.cur && returned == r.returned;
    assert t.status == r.state.status && t.bufs == r.state.bufs;
  }

  // ---------------------------------------------------------------------------
  // Drain safety
  // ---------------------------------------------------------------------------

  /** Data can only sit in front of the current PU or of the one below it, and then that one is busy;
      an idle PU has nothing to read. */
  ghost predicate Settled(s: State) {
    && Shape(s)
    && (forall k :: s.cur + 1 < k < |s.status| ==> s.bufs[k] == [])
    && (s.cur + 1 < |s.status| && s.bufs[s.cur + 1] != [] ==> s.status[s.cur + 1] == Busy)
    && (forall k :: 1 <= k < |s.status| && s.status[k] == Idle ==> s.bufs[k] == [])
  }

  /** Between steps, the current PU is not idle, either, unless it is the first. */
  ghost predicate Inv(s: State) {
    Settled(s) && (s.cur >= 1 ==> s.status[s.cur] != Idle)
  }

  /** All buffers between PUs are empty. */
  ghost predicate Drained(s: State)
    requires Shape(s)
  {
    forall k :: 1 <= k < |s.status| ==> s.bufs[k] == []
  }

  /** A PU's own step touches its two buffers and the statuses of itself and of its successor only. */
  lemma PuKeepsSettled(s: State, o: Outcome)
    requires Inv(s) && Contract(s, o)
    ensures Settled(AfterPu(s, o)) && AfterPu(s, o).status[s.cur] == o.status
  {
    var t := AfterPu(s, o);
    var below := s.cur + 1;
    assert forall k :: 0 <= k < |s.bufs| && k != s.cur && k != below ==> t.bufs[k] == s.bufs[k];
    assert forall k :: 0 <= k < |s.status| && k != s.cur && k != below ==> t.status[k] == s.status[k];
    assert t.bufs[s.cur] == o.cbIn && t.bufs[below] == o.cbOut && t.status[s.cur] == o.status;
    if below < |s.status| && o.bytesOutput == 0 {
      assert t.bufs[below] == s.bufs[below] && t.status[below] == s.status[below];
    }
  }

  /** The upward walk passes idle PUs, which have nothing to read. */
  lemma WalkKeepsInv(t: State)
    requires Settled(t) && t.status[t.cur] == Idle
    requires t.cur + 1 < |t.status| ==> t.status[t.cur + 1] != Busy
    ensures Inv(MoveTo(t, WalkUp(t.status, t.cur)))
  {
    var m := WalkUp(t.status, t.cur);
    var u := MoveTo(t, m);
    forall k | m < k < |t.status| ensures t.bufs[k] == [] {
      if k <= t.cur { assert t.status[k] == Idle; }
    }
    forall k | 1 <= k < |t.status| && u.status[k] == Idle ensures u.bufs[k] == [] {
      assert k != m && t.status[k] == Idle;
    }
  }

  /** Moving down to the next PU, which is marked busy. */
  lemma DownKeepsInv(t: State)
    requires Settled(t) && t.cur + 1 < |t.status|
    ensures Inv(MoveTo(t, t.cur + 1)) && (t.status[t.cur + 1] == Busy ==> MoveTo(t, t.cur + 1) == t.(cur := t.cur + 1))
  {
    var u := MoveTo(t, t.cur + 1);
    forall k | 1 <= k < |t.status| && u.status[k] == Idle ensures u.bufs[k] == [] {
      assert k != t.cur + 1 && t.status[k] == Idle;
    }
    if t.status[t.cur + 1] == Busy { assert u.status == t.status; }
  }

  lemma StepKeepsInv(s: State, o: Outcome)
    requires Inv(s) && Contract(s, o)
    ensures Inv(Transition(s, o).state)
  {
    PuKeepsSettled(s, o);
    AfterPuStays(s, o);
    var t := AfterPu(s, o);
    hide Settled, AfterPu, WalkUp, Contract;
    if o.status in {Busy, Idle, OutFull} && s.cur + 1 < |s.status|
       && (o.status == OutFull || t.status[s.cur + 1] == Busy) {
      DownKeepsInv(t);
    } else if o.status == Idle {
      if s.cur > 0 { WalkKeepsInv(t); }
    }
  }

  lemma AfterPuStays(s: State, o: Outcome)
    requires Shape(s)
    ensures AfterPu(s, o).cur == s.cur && |AfterPu(s, o).status| == |s.status|
  {
  }

  /** An idle control unit has nothing in its buffers, not even in its input. */
  lemma IdleMeansDrained(s: State, o: Outcome)
    requires Inv(s) && Contract(s, o) && Transition(s, o).returned == Idle
    ensures var t := Transition(s, o).state;
            t.cur == 0 && t.bufs[0] == [] && Drained(t)
  {
  }

  // ---------------------------------------------------------------------------
  // Runs
  // ---------------------------------------------------------------------------

  datatype Event =
    | Step(o: Outcome)                  // one step of the control unit
    | Feed(text: seq<byte>, work: nat)  // the caller puts text into the input buffer
    | Fetch(count: nat)                 // the caller takes bytes from the output buffer
    | EngineReset(work: nat)

  ghost predicate Enabled(s: State, e: Event)
    requires Shape(s)
  {
    match e
    case Step(o) => Contract(s, o)
    case Feed(_, _) => true
    case Fetch(count) => count <= |s.bufs[|s.status|]|
    case EngineReset(_) => true
  }

  function Next(s: State, e: Event): (t: State)
    requires Shape(s) && (e.Fetch? ==> e.count <= |s.bufs[|s.status|]|)
    ensures Shape(t) && |t.status| == |s.status|
  {
    match e
    case Step(o) => Transition(s, o).state
    case Feed(text, work) => s.(bufs := s.bufs[0 := s.bufs[0] + text], work := work)
    case Fetch(count) => var n := |s.status|; s.(bufs := s.bufs[n := s.bufs[n][count..]])
    case EngineReset(work) => Reset(s, work)
  }

  /** `states` is what the events `es` produce from a newly built chain of `n` PUs. */
  ghost predicate IsRun(n: nat, es: seq<Event>, states: seq<State>) {
    && n > 0 && |states| == |es| + 1 && states[0] == Initial(n, states[0].work)
    && forall i :: 0 <= i < |es| ==>
                     Shape(states[i]) && Enabled(states[i], es[i]) && states[i + 1] == Next(states[i], es[i])
  }

  lemma NextKeepsInv(s: State, e: Event)
    requires Inv(s) && Enabled(s, e)
    ensures Inv(Next(s, e))
  {
    if e.Step? {
      hide *;
      StepKeepsInv(s, e.o);
      StepIsTransition(s, e);
    } else {
      hide Transition;
    }
  }

  lemma StepIsTransition(s: State, e: Event)
    requires Shape(s) && e.Step?
    ensures Next(s, e) == Transition(s, e.o).state
  {
  }

  lemma {:induction false} RunKeepsInv(n: nat, es: seq<Event>, states: seq<State>, k: nat)
    requires IsRun(n, es, states) && k <= |es|
    ensures Inv(states[k]) && |states[k].status| == n
  {
    if k == 0 {
    } else {
      RunKeepsInv(n, es, states, k - 1);
      var s, e := states[k - 1], es[k - 1];
      assert Enabled(s, e) && states[k] == Next(s, e);
      hide *;
      NextKeepsInv(s, e);
    }
  }

  /** The engine is left alone, or its caller feeds text or fetches bytes. */
  predicate FromCaller(e: Event) { e.Feed? || e.Fetch? }

  /** Neither changes whose turn it is. */
  lemma CallerKeepsTurn(s: State, e: Event)
    requires Shape(s) && Enabled(s, e) && FromCaller(e)
    ensures Next(s, e).cur == s.cur && Next(s, e).status == s.status
  {
  }

  lemma {:induction false} CallsKeepTurn(n: nat, es: seq<Event>, states: seq<State>, i: nat, j: nat)
    requires IsRun(n, es, states) && i <= j <= |es| && forall k :: i <= k < j ==> FromCaller(es[k])
    ensures Shape(states[i]) && states[j].cur == states[i].cur && states[j].status == states[i].status
  {
    RunKeepsInv(n, es, states, i);
    if i < j {
      CallsKeepTurn(n, es, states, i, j - 1);
      CallerKeepsTurn(states[j - 1], es[j - 1]);
      assert states[j - 1 + 1] == Next(states[j - 1], es[j - 1]);
    }
  }

  /** Step j is the next one after step i. */
  ghost predicate NextStep(es: seq<Event>, i: nat, j: nat) {
    i < j < |es| && es[i].Step? && es[j].Step? && forall k :: i < k < j ==> FromCaller(es[k])
  }

  /** In every run, between two steps: the PU that gets the second one, and the statuses, are those of the rules. */
  lemma TurnsOfRun(n: nat, es: seq<Event>, states: seq<State>, i: nat, j: nat, returned: PuStatus)
    requires IsRun(n, es, states) && NextStep(es, i, j) && Shape(states[i])
    requires returned == Transition(states[i], es[i].o).returned
    ensures Turn(states[i], es[i].o, states[j].cur, returned) && StatusesAfter(states[i], es[i].o, states[j])
  {
    StepMeetsRules(states[i], es[i].o);
    assert states[i + 1] == Next(states[i], es[i]);
    CallsKeepTurn(n, es, states, i + 1, j);
    hide Transition, Turn;
  }

  /** As long as its steps are atomic, the same PU is stepped, whatever it puts out. */
  lemma {:induction false} AtomicKeepsTurn(n: nat, es: seq<Event>, states: seq<State>, i: nat, j: nat)
    requires IsRun(n, es, states) && i <= j <= |es|
    requires forall k :: i <= k < j ==> FromCaller(es[k]) || (es[k].Step? && es[k].o.status == Atomic)
    ensures Shape(states[i]) && Shape(states[j]) && states[j].cur == states[i].cur
    ensures (exists k :: i <= k < j && es[k].Step?) ==> states[j].status[states[i].cur] == Atomic
  {
    RunKeepsInv(n, es, states, i);
    RunKeepsInv(n, es, states, j);
    if i < j {
      AtomicKeepsTurn(n, es, states, i, j - 1);
      var (s, e) := (states[j - 1], es[j - 1]);
      assert states[j - 1 + 1] == Next(s, e);
      if e.Step? {
        StepMeetsRules(s, e.o);
      } else {
        CallerKeepsTurn(s, e);
      }
    }
  }

  /** A PU whose output buffer is full hands its turn to the PU that reads this buffer. */
  lemma FullBufferIsRead(n: nat, es: seq<Event>, states: seq<State>, i: nat, j: nat)
    requires IsRun(n, es, states) && NextStep(es, i, j) && es[i].o.status == OutFull
    ensures Shape(states[i]) && Shape(states[j])
    ensures states[i].cur + 1 < n ==>
              states[j].cur == states[i].cur + 1 && states[j].status[states[j].cur] == Busy
    ensures states[i].cur + 1 == n ==> states[j].cur == states[i].cur && states[j].status[states[j].cur] == OutFull
  {
    RunKeepsInv(n, es, states, i);
    RunKeepsInv(n, es, states, j);
    TurnsOfRun(n, es, states, i, j, Transition(states[i], es[i].o).returned);
  }

  /** A busy PU lets the PU below go on exactly if that one is busy, and keeps its turn otherwise. */
  lemma BusyMovesDown(n: nat, es: seq<Event>, states: seq<State>, i: nat, j: nat)
    requires IsRun(n, es, states) && NextStep(es, i, j) && es[i].o.status == Busy && Shape(states[i])
    ensures states[j].cur == states[i].cur + 1 <==> BelowBusy(states[i], es[i].o)
    ensures states[j].cur == states[i].cur <==> !BelowBusy(states[i], es[i].o)
  {
    TurnsOfRun(n, es, states, i, j, Transition(states[i], es[i].o).returned);
  }

  ghost predicate AllEmpty(bufs: seq<seq<byte>>) {
    forall j :: 0 <= j < |bufs| ==> bufs[j] == []
  }

  /** Drain safety: in every run, resets included, whenever the control unit reports idle, every buffer up to
      the last PU is empty. */
  lemma RunDrains(n: nat, es: seq<Event>, states: seq<State>, k: nat)
    requires IsRun(n, es, states) && k < |es| && es[k].Step? && Transition(states[k], es[k].o).returned == Idle
    ensures |states[k + 1].bufs| == n + 1 && AllEmpty(states[k + 1].bufs[..n])
  {
    RunKeepsInv(n, es, states, k);
    assert states[k + 1] == Next(states[k], es[k]);
    IdleMeansDrained(states[k], es[k].o);
  }

  // ---------------------------------------------------------------------------
  // The status invariant written in the source
  // ---------------------------------------------------------------------------

  /** All PUs beyond the current one are idle, except that the next one may be busy. */
  ghost predicate StatusInv(s: State) {
    && Shape(s)
    && (forall k :: s.cur + 1 < k < |s.status| ==> s.status[k] == Idle)
    && (s.cur + 1 < |s.status| ==> s.status[s.cur + 1] == Idle || s.status[s.cur + 1] == Busy)
  }

  lemma StepKeepsStatusInv(s: State, o: Outcome)
    requires Inv(s) && StatusInv(s) && Contract(s, o)
    ensures StatusInv(Transition(s, o).state)
  {
    var t := AfterPu(s, o);
    if o.status == Idle && s.cur > 0 && !(s.cur + 1 < |s.status| && t.status[s.cur + 1] == Busy) {
      var m := WalkUp(t.status, s.cur);
      assert forall k :: m < k < |t.status| ==> t.status[k] == Idle;
    }
  }

  lemma NextKeepsStatusInv(s: State, e: Event)
    requires Inv(s) && StatusInv(s) && Enabled(s, e) && !e.EngineReset?
    ensures StatusInv(Next(s, e))
  {
    if e.Step? {
      hide *;
      StepKeepsStatusInv(s, e.o);
      StepIsTransition(s, e);
    } else {
      hide Transition;
    }
  }

  /** It holds in every run without a reset. */
  lemma {:induction false} RunKeepsStatusInv(n: nat, es: seq<Event>, states: seq<State>, k: nat)
    requires IsRun(n, es, states) && k <= |es|
    requires forall i :: 0 <= i < |es| ==> !es[i].EngineReset?
    ensures StatusInv(states[k])
  {
    if k == 0 {
    } else {
      RunKeepsStatusInv(n, es, states, k - 1);
      RunKeepsInv(n, es, states, k - 1);
      var s, e := states[k - 1], es[k - 1];
      assert Enabled(s, e) && states[k] == Next(s, e) && !e.EngineReset?;
      hide *;
      NextKeepsStatusInv(s, e);
    }
  }

  /** A reset keeps the statuses, so the invariant survives it exactly if no PU behind the second is non-idle, and the
      second one is idle or busy, at the time of the reset. */
  lemma ResetStatusInvIff(s: State, work: nat)
    requires Shape(s)
    ensures StatusInv(Reset(s, work)) <==>
              (forall k :: 2 <= k < |s.status| ==> s.status[k] == Idle) && (|s.status| > 1
                ==> s.status[1] in {Idle, Busy})
  {
  }

  /** The run of the next lemma: text is fed, the first two PUs pass it on, and then the engine is reset. */
  function Example(n: nat, i: nat): State {
    if i <= 3 then
      State(if i == 0 then 0 else i - 1,
            seq(n, k => if i >= 2 && k < i then Busy else Idle),
            seq(n + 1, k => if i >= 1 && k == i - 1 then [7] else []), 0)
    else State(0, seq(n, k => if k < 3 then Busy else Idle), seq(n + 1, _ => []), 0)
  }

  function ExampleEvent(i: nat): Event {
    if i == 0 then Feed([7], 0) else if i <= 2 then Step(Outcome(Busy, [], [7], 1, 0)) else EngineReset(0)
  }

  lemma ExampleStep(n: nat, i: nat)
    requires n >= 3 && i < 4
    ensures Shape(Example(n, i)) && Enabled(Example(n, i), ExampleEvent(i))
    ensures Next(Example(n, i), ExampleEvent(i)) == Example(n, i + 1)
  {
    var (s, t, u) := (Example(n, i), Next(Example(n, i), ExampleEvent(i)), Example(n, i + 1));
    assert t.status == u.status;
    assert |t.bufs| == |u.bufs|;
    forall k | 0 <= k <= n ensures t.bufs[k] == u.bufs[k] {
      if i == 0 { assert s.bufs[0] == [] && t.bufs[0] == [] + [7]; }
    }
    assert t.bufs == u.bufs;
  }

  lemma ExtendRun(n: nat, es: seq<Event>, states: seq<State>, e: Event)
    requires IsRun(n, es, states) && Shape(states[|es|]) && Enabled(states[|es|], e)
    ensures IsRun(n, es + [e], states + [Next(states[|es|], e)])
  {
    var (fs, ts) := (es + [e], states + [Next(states[|es|], e)]);
    forall i | 0 <= i < |fs| ensures Shape(ts[i]) && Enabled(ts[i], fs[i]) && ts[i + 1] == Next(ts[i], fs[i]) {
      assert ts[i] == states[i];
      if i < |es| { assert fs[i] == es[i] && ts[i + 1] == states[i + 1]; }
    }
  }

  lemma {:induction false} ExampleRun(n: nat, k: nat) returns (es: seq<Event>, states: seq<State>)
    requires n >= 3 && k <= 4
    ensures IsRun(n, es, states) && |es| == k && states[k] == Example(n, k)
  {
    if k == 0 {
      assert Example(n, 0).status == Initial(n, 0).status && Example(n, 0).bufs == Initial(n, 0).bufs;
      es, states := [], [Example(n, 0)];
    } else {
      es, states := ExampleRun(n, k - 1);
      ExampleStep(n, k - 1);
      ExtendRun(n, es, states, ExampleEvent(k - 1));
      es, states := es + [ExampleEvent(k - 1)], states + [Example(n, k)];
    }
  }

  /** With three PUs or more, it fails in this run, which leaves PU 2 marked busy. */
  lemma ResetBreaksStatusInv(n: nat) returns (es: seq<Event>, states: seq<State>)
    requires n >= 3
    ensures IsRun(n, es, states) && !StatusInv(states[|es|])
  {
    es, states := ExampleRun(n, 4);
    assert Example(n, 4).status[2] == Busy;
  }

  // ---------------------------------------------------------------------------
  // Progress
  // ---------------------------------------------------------------------------

  /** A step either gets work done, or truthfully reports why it cannot: nothing to read, or no room to write
      (which takes a non-empty output buffer). */
  ghost predicate Progress(s: State, o: Outcome)
    requires Shape(s)
  {
    && o.status != Error
    && (o.work < s.work ||
        (&& o.work == s.work && o.cbIn == s.bufs[s.cur] && o.cbOut == s.bufs[s.cur + 1]
         && (o.status == Idle || (o.status == OutFull && s.bufs[s.cur + 1] != []))))
  }

  function NonIdle(status: seq<PuStatus>, k: nat): nat
    decreases |status| - k
  {
    if k >= |status| then 0 else (if status[k] == Idle then 0 else 1) + NonIdle(status, k + 1)
  }

  lemma {:induction false} NonIdleUpdate(status: seq<PuStatus>, k: nat, j: nat, v: PuStatus)
    requires j < |status|
    ensures NonIdle(status[j := v], k)
         == NonIdle(status, k) + if j < k then 0
                                 else (if v == Idle then 0 else 1) - (if status[j] == Idle then 0 else 1)
    decreases |status| - k
  {
    if k >= |status| {
    } else {
      NonIdleUpdate(status, k + 1, j, v);
    }
  }

  /** How far a full buffer can still be pushed down the chain. */
  function PushesLeft(s: State): nat
    requires Shape(s)
  {
    if s.cur >= 1 && s.bufs[s.cur] != [] then |s.status| - s.cur else |s.status|
  }

  /** How many idle answers can still come in before the first PU is reached and is idle, too. */
  function WalksLeft(s: State): nat {
    2 * NonIdle(s.status, 1) + if s.cur == 0 then 1 else 0
  }

  /** The output buffer is emptied by the caller between steps. */
  function DrainOutput(s: State): State
    requires Shape(s)
  {
    s.(bufs := s.bufs[|s.status| := []])
  }

  ghost predicate Less(t: State, s: State)
    requires Shape(t) && Shape(s)
  {
    || t.work < s.work
    || (t.work == s.work && PushesLeft(t) < PushesLeft(s))
    || (t.work == s.work && PushesLeft(t) == PushesLeft(s) && WalksLeft(t) < WalksLeft(s))
  }

  /** A PU that reports idle and leaves its buffers as they are. */
  lemma IdleAfter(s: State, o: Outcome)
    requires Shape(s) && Contract(s, o) && o.status == Idle && o.work == s.work
    requires o.cbIn == s.bufs[s.cur] && o.cbOut == s.bufs[s.cur + 1]
    ensures var t := AfterPu(s, o);
            && t.bufs == s.bufs && t.status == s.status[s.cur := Idle] && t.cur == s.cur && t.work == s.work
            && s.bufs[s.cur] == []
  {
  }

  /** The two ways to go on from there. */
  lemma IdleMoves(s: State, o: Outcome)
    requires Shape(s) && o.status == Idle && Transition(s, o).returned != Idle
    ensures var (t, u) := (AfterPu(s, o), Transition(s, o).state);
            if s.cur + 1 < |s.status| && t.status[s.cur + 1] == Busy then u == t.(cur := s.cur + 1)
            else s.cur > 0 && u == MoveTo(t, WalkUp(t.status, s.cur))
  {
  }

  /** The PU below either has data, or one PU fewer is non-idle, or the first PU is left. */
  lemma BelowGetsCloser(s: State, t: State)
    requires Inv(s) && Shape(t) && t.bufs == s.bufs && t.status == s.status[s.cur := Idle]
    requires t.cur == s.cur && t.work == s.work && s.bufs[s.cur] == [] && s.cur + 1 < |s.status|
    ensures Less(t.(cur := s.cur + 1), s)
  {
    NonIdleUpdate(s.status, 1, s.cur, Idle);
    hide NonIdle;
  }

  /** An idle answer: either data is found below, or one PU fewer is non-idle, or the walk from the first PU begins. */
  lemma IdleGetsCloser(s: State, o: Outcome)
    requires Inv(s) && Contract(s, o) && o.status == Idle && o.work == s.work
    requires o.cbIn == s.bufs[s.cur] && o.cbOut == s.bufs[s.cur + 1]
    requires Transition(s, o).returned != Idle
    ensures Less(Transition(s, o).state, s)
  {
    assert Shape(s) && s.cur + 1 < |s.bufs|;
    hide *;
    IdleAfter(s, o);
    IdleMoves(s, o);
    var t := AfterPu(s, o);
    if s.cur + 1 < |s.status| && t.status[s.cur + 1] == Busy {
      BelowGetsCloser(s, t);
    } else {
      WalkGetsCloser(s, t, WalkUp(t.status, s.cur));
    }
  }

  /** The walk ends at a PU that is marked busy, which the current one was before. */
  lemma WalkGetsCloser(s: State, t: State, m: nat)
    requires Inv(s) && Shape(t) && t.bufs == s.bufs && t.status == s.status[s.cur := Idle]
    requires t.cur == s.cur > 0 && t.work == s.work && s.bufs[s.cur] == [] && m == WalkUp(t.status, s.cur)
    ensures Less(MoveTo(t, m), s)
  {
    NonIdleUpdate(s.status, 1, s.cur, Idle);
    NonIdleUpdate(t.status, 1, m, Busy);
    hide NonIdle, WalkUp;
  }

  /** A full output buffer: the PU below gets to read it, and the last PU cannot be in this position. */
  lemma OutFullGetsCloser(s: State, o: Outcome)
    requires Inv(s) && Contract(s, o) && o.status == OutFull && o.work == s.work
    requires o.cbIn == s.bufs[s.cur] && o.cbOut == s.bufs[s.cur + 1] != []
    requires s.bufs[|s.status|] == []
    ensures Less(Transition(s, o).state, s)
  {
    assert AfterPu(s, o).bufs == s.bufs;
  }

  lemma DrainKeepsLess(t: State, s: State)
    requires Shape(t) && Shape(s) && Less(t, s)
    ensures Less(DrainOutput(t), s)
  {
  }

  /** Every step that does not report idle gets closer to the end. */
  lemma StepGetsCloser(s: State, o: Outcome)
    requires Inv(s) && Contract(s, o) && Progress(s, o) && s.bufs[|s.status|] == []
    requires Transition(s, o).returned != Idle
    ensures Less(DrainOutput(Transition(s, o).state), s)
  {
    if o.work == s.work {
      if o.status == Idle {
        IdleGetsCloser(s, o);
      } else {
        OutFullGetsCloser(s, o);
      }
    }
    DrainKeepsLess(Transition(s, o).state, s);
  }

  /** One step of a caller that feeds nothing more and empties the output buffer after each step. */
  ghost predicate DriveStep(s: State, o: Outcome, t: State) {
    Shape(s) && Contract(s, o) && Progress(s, o) && t == DrainOutput(Transition(s, o).state)
  }

  /** `st(j)` is the state before step `j`, and `os(j)` what the current PU does in it. */
  ghost predicate Drive(st: nat -> State, os: nat -> Outcome) {
    && Inv(st(0)) && st(0).bufs[|st(0).status|] == []
    && forall j: nat :: DriveStep(st(j), os(j), st(j + 1))
  }

  lemma DriveStepKeepsInv(s: State, o: Outcome, t: State)
    requires Inv(s) && DriveStep(s, o, t)
    ensures Inv(t) && t.bufs[|t.status|] == []
  {
    StepKeepsInv(s, o);
  }

  lemma {:induction false} DriveKeepsInv(st: nat -> State, os: nat -> Outcome, j: nat)
    requires Drive(st, os)
    ensures Inv(st(j)) && st(j).bufs[|st(j).status|] == []
  {
    if j == 0 {
    } else {
      DriveKeepsInv(st, os, j - 1);
      assert DriveStep(st(j - 1), os(j - 1), st(j - 1 + 1));
      DriveStepKeepsInv(st(j - 1), os(j - 1), st(j));
    }
  }

  lemma {:induction false} ReachesIdleFrom(st: nat -> State, os: nat -> Outcome, j: nat) returns (k: nat)
    requires Drive(st, os) && Inv(st(j))
    ensures k >= j && Inv(st(k)) && Transition(st(k), os(k)).returned == Idle
    decreases st(j).work, PushesLeft(st(j)), WalksLeft(st(j))
  {
    DriveKeepsInv(st, os, j);
    assert DriveStep(st(j), os(j), st(j + 1));
    if Transition(st(j), os(j)).returned == Idle {
      k := j;
    } else {
      StepGetsCloser(st(j), os(j));
      DriveKeepsInv(st, os, j + 1);
      k := ReachesIdleFrom(st, os, j + 1);
    }
  }

  /** Progress: from any state of any run, if every PU step gets work done or truthfully reports that it cannot, then
      after finitely many steps the control unit reports idle, and then everything has been drained. */
  lemma ReachesIdle(st: nat -> State, os: nat -> Outcome)
    requires Drive(st, os)
    ensures exists k: nat :: Shape(st(k)) && Transition(st(k), os(k)).returned == Idle && AllEmpty(st(k + 1).bufs)
  {
    var k := ReachesIdleFrom(st, os, 0);
    assert DriveStep(st(k), os(k), st(k + 1));
    IdleMeansDrained(st(k), os(k));
    assert AllEmpty(st(k + 1).bufs);
  }

  // ---------------------------------------------------------------------------
  // The control unit itself
  // ---------------------------------------------------------------------------

  class Control {
    var curPU: nat
    const procStatus: array<PuStatus>
    const cb: array<seq<byte>>
    ghost var work: nat

    ghost function Abs(): State
      reads this, procStatus, cb
    {
      State(curPU, procStatus[..], cb[..], work)
    }

    ghost predicate Valid()
      reads this, procStatus, cb
    {
      Shape(Abs())
    }

    /** `picoctrl_newControl`: `n` units, all idle, with empty buffers. */
    constructor (n: nat, ghost work: nat)
      requires n > 0
      ensures Valid() && Abs() == Initial(n, work) && fresh(procStatus) && fresh(cb)
    {
      curPU, this.work := 0, work;
      procStatus := new PuStatus[n](_ => Idle);
      cb := new seq<byte>[n + 1](_ => []);
    }

    /** `ctrlStep`, for a PU step with outcome `o`. */
    method CtrlStep(o: Outcome) returns (returned: PuStatus, bytesOutput: nat)
      requires Valid()
      modifies this, procStatus, cb
      ensures Valid()
      ensures StepResult(Abs(), returned) == Transition(old(Abs()), o)
      ensures SlotRules(old(Abs()), o, Abs(), returned)
      ensures bytesOutput == if old(curPU) + 1 < procStatus.Length then 0 else o.bytesOutput
    {
      hide SlotRules;
      bytesOutput := 0;
      PuStep(o);
      procStatus[curPU] := o.status;
      if o.bytesOutput > 0 {
        if curPU < procStatus.Length - 1 {
          procStatus[curPU + 1] := Busy;
        } else {
          bytesOutput := o.bytesOutput;
        }
      }
      assert Abs() == AfterPu(old(Abs()), o);
      hide AfterPu;
      match o.status {
        case Atomic =>
          returned := Atomic;
        case Busy =>
          if curPU + 1 < procStatus.Length && procStatus[curPU + 1] == Busy {
            curPU := curPU + 1;
          }
          returned := Busy;
        case Idle =>
          if curPU + 1 < procStatus.Length && procStatus[curPU + 1] == Busy {
            curPU := curPU + 1;
          } else if curPU == 0 {
          } else {
            FindNonIdle();
          }
          returned := procStatus[curPU];
        case OutFull =>
          if curPU + 1 < procStatus.Length {
            curPU := curPU + 1;
            procStatus[curPU] := Busy;
          }
          returned := procStatus[curPU];
        case Error =>
          returned := Error;
      }
      StepMeetsRules(old(Abs()), o);
    }

    /** What the current PU does to its two buffers. */
    method PuStep(o: Outcome)
      requires Valid()
      modifies this`work, cb
      ensures cb[..] == old(cb[..])[curPU := o.cbIn][curPU + 1 := o.cbOut] && work == o.work
    {
      cb[curPU] := o.cbIn;
      cb[curPU + 1] := o.cbOut;
      work := o.work;
    }

    /** The upward walk of the idle branch. */
    method FindNonIdle()
      requires Valid()
      modifies this`curPU, procStatus
      ensures Abs() == MoveTo(old(Abs()), WalkUp(old(procStatus[..]), old(curPU)))
    {
      ghost var status := procStatus[..];
      while curPU > 0 && procStatus[curPU] == Idle
        invariant curPU < procStatus.Length && procStatus[..] == status
        invariant WalkUp(status, curPU) == WalkUp(status, old(curPU))
        decreases curPU
      {
        curPU := curPU - 1;
      }
      procStatus[curPU] := Busy;
    }

    /** `ctrlInitialize` as part of `picoctrl_engReset`. */
    method EngReset(ghost newWork: nat)
      requires Valid()
      modifies this, cb
      ensures Valid() && Abs() == Reset(old(Abs()), newWork)
    {
      curPU, work := 0, newWork;
      for i := 0 to cb.Length
        invariant curPU == 0 && work == newWork
        invariant forall k :: 0 <= k < i ==> cb[k] == []
      {
        cb[i] := [];
      }
    }
  }

  // ---------------------------------------------------------------------------
  // The engine's fetch call
  // ---------------------------------------------------------------------------

  datatype FetchStatus = StepIdle | StepBusy | StepError
  datatype Fetched = Fetched(state: State, status: FetchStatus, bytes: seq<byte>)

  /** `picoctrl_engFetchOutputItemBytes`: one step, then at most one speech item from the output buffer. What is left
      in an output buffer that drops more than it holds is not modelled. */
  function FetchOutputItem(s: State, o: Outcome, bufferSize: nat): (f: Fetched)
    requires Shape(s)
    ensures Shape(f.state)
  {
    var n := |s.status|;
    var r := Transition(s, o);
    if r.returned == Error then Fetched(r.state, StepError, [])
    else if DropsTooMuch(r.state.bufs[n], true) then Fetched(r.state, StepBusy, [])
    else
      var g := GetItemSpec(r.state.bufs[n], bufferSize, true);
      var t := r.state.(bufs := r.state.bufs[n := g.contents]);
      if |g.out| > 255 || g.status == BufUnderflow || g.status == BufOverflow then Fetched(t, StepError, [])
      else Fetched(t, if r.returned == Idle && g.status == Eof then StepIdle else StepBusy, g.out)
  }

  /** What is in the engine's output buffer right after a step. */
  function OutputAfter(s: State, o: Outcome): seq<byte>
    requires Shape(s)
  {
    if s.cur + 1 == |s.status| then o.cbOut else s.bufs[|s.status|]
  }

  lemma StepOutput(s: State, o: Outcome)
    requires Shape(s)
    ensures Transition(s, o).state.bufs[|s.status|] == OutputAfter(s, o)
    ensures Transition(s, o).returned == Error <==> o.status == Error
  {
    StepMeetsRules(s, o);
    hide Transition;
  }

  /**
   * One fetch with a whole item at the front of the output buffer: the content of a speech item is delivered, an item
   * of another type goes undelivered, and an item that is too large stays.
   */
  lemma FetchTakesItem(s: State, o: Outcome, bufferSize: nat, x: seq<byte>, rest: seq<byte>)
    requires Shape(s) && o.status != Error && OutputAfter(s, o) == x + rest && WholeItem(x)
    ensures var f := FetchOutputItem(s, o, bufferSize);
            var output := f.state.bufs[|s.status|];
            if x[0] != ITEM_FRAME then f.status == StepBusy && f.bytes == [] && output == rest
            else if |x| <= bufferSize then f.status == StepBusy && f.bytes == x[HEADSIZE..] && output == rest
            else f.status == StepError && f.bytes == [] && output == x + rest
  {
    StepOutput(s, o);
    GetFrontItem(x + rest, x, rest, bufferSize, true);
    hide Transition, GetItemSpec;
  }

  /** One fetch with an empty output buffer: idle exactly if the step is. */
  lemma FetchFindsNothing(s: State, o: Outcome, bufferSize: nat)
    requires Shape(s) && o.status != Error && OutputAfter(s, o) == []
    ensures var f := FetchOutputItem(s, o, bufferSize);
            && f.bytes == [] && f.state.bufs[|s.status|] == []
            && f.status == if Transition(s, o).returned == Idle then StepIdle else StepBusy
  {
    StepOutput(s, o);
    hide Transition;
  }

  /** The buffers in front of the output buffer, and whose turn it is, are as the step leaves them. */
  lemma FetchTouchesOutput(s: State, o: Outcome, bufferSize: nat)
    requires Shape(s)
    ensures var (f, t) := (FetchOutputItem(s, o, bufferSize).state, Transition(s, o).state);
            f == t.(bufs := t.bufs[|s.status| := f.bufs[|s.status|]])
  {
    hide Transition, GetItemSpec;
    var (n, t) := (|s.status|, Transition(s, o).state);
    assert t.bufs[n := t.bufs[n]] == t.bufs;
  }

  /** What the caller gets of an item: the content if it is a speech item. */
  function SpeechOf(x: seq<byte>): seq<byte> { if |x| >= 4 && x[0] == 102 then x[4..] else [] }

  function Speech(items: seq<seq<byte>>): seq<byte> {
    if items == [] then [] else Speech(items[..|items| - 1]) + SpeechOf(items[|items| - 1])
  }

  /** Of the items `put`, the first `k` have been taken from the output buffer and delivered; the others are in it. */
  ghost predicate Delivered(put: seq<seq<byte>>, k: nat, bytes: seq<byte>, output: seq<byte>) {
    WholeItems(put) && k <= |put| && bytes == Speech(put[..k]) && output == Flatten(put[k..])
  }

  lemma PutMore(put: seq<seq<byte>>, k: nat, bytes: seq<byte>, output: seq<byte>, items: seq<seq<byte>>)
    requires Delivered(put, k, bytes, output) && WholeItems(items)
    ensures Delivered(put + items, k, bytes, output + Flatten(items))
  {
    hide Flatten, Speech, WholeItem;
    FlattenConcat(put[k..], items);
    assert (put + items)[k..] == put[k..] + items && (put + items)[..k] == put[..k];
  }

  lemma TakeOne(put: seq<seq<byte>>, k: nat, bytes: seq<byte>, output: seq<byte>)
    requires Delivered(put, k, bytes, output) && k < |put|
    ensures WholeItem(put[k]) && output == put[k] + Flatten(put[k + 1..])
    ensures Delivered(put, k + 1, bytes + SpeechOf(put[k]), Flatten(put[k + 1..]))
  {
    assert put[k..][0] == put[k] && put[k..][1..] == put[k + 1..];
    assert put[..k + 1][..k] == put[..k];
  }

  /** One call of the engine's client: text is fed, and then a fetch steps the engine, in which items are put out. */
  datatype Call = Call(text: seq<byte>, work: nat, o: Outcome, put: seq<seq<byte>>, bufferSize: nat)

  function Fed(s: State, c: Call): (t: State)
    requires Shape(s)
    ensures Shape(t)
  {
    Next(s, Feed(c.text, c.work))
  }

  /** The step puts out whole items, no larger than the destination of any fetch. */
  ghost predicate PutsItems(s: State, c: Call, room: nat)
    requires Shape(s)
  {
    && Contract(s, c.o) && c.o.status != Error && c.bufferSize >= room
    && WholeItems(c.put) && (forall i :: 0 <= i < |c.put| ==> |c.put[i]| <= room)
    && OutputAfter(s, c.o) == s.bufs[|s.status|] + Flatten(c.put)
  }

  ghost predicate Calls(s: State, c: Call, room: nat, t: State, bytes: seq<byte>) {
    && Shape(s) && PutsItems(Fed(s, c), c, room)
    && var f := FetchOutputItem(Fed(s, c), c.o, c.bufferSize);
       t == f.state && bytes == f.bytes
  }

  /** `states` and the deliveries `got` are what the calls `cs` produce from a newly built chain. */
  ghost predicate IsCallRun(n: nat, cs: seq<Call>, room: nat, states: seq<State>, got: seq<seq<byte>>) {
    && n > 0 && |states| == |cs| + 1 && |got| == |cs| && states[0] == Initial(n, states[0].work)
    && forall i :: 0 <= i < |cs| ==> Calls(states[i], cs[i], room, states[i + 1], got[i])
  }

  /** All items put out so far. */
  function AllPut(cs: seq<Call>): seq<seq<byte>> {
    if cs == [] then [] else AllPut(cs[..|cs| - 1]) + cs[|cs| - 1].put
  }

  ghost predicate FitRoom(items: seq<seq<byte>>, room: nat) {
    forall i :: 0 <= i < |items| ==> |items[i]| <= room
  }

  /** One call takes one item from the output buffer, if there is any. */
  lemma CallDelivers(s: State, c: Call, room: nat, t: State, bytes: seq<byte>, put: seq<seq<byte>>, k: nat,
                     got: seq<byte>) returns (k': nat)
    requires Calls(s, c, room, t, bytes) && FitRoom(put, room)
    requires Delivered(put, k, got, s.bufs[|s.status|])
    ensures Shape(t) && |t.status| == |s.status| && FitRoom(put + c.put, room)
    ensures k' == if k < |put + c.put| then k + 1 else k
    ensures Delivered(put + c.put, k', got + bytes, t.bufs[|t.status|])
    ensures FetchOutputItem(Fed(s, c), c.o, c.bufferSize).status != StepError
    ensures FetchOutputItem(Fed(s, c), c.o, c.bufferSize).status == StepIdle ==> k' == k == |put + c.put|
  {
    var (u, all) := (Fed(s, c), put + c.put);
    PutMore(put, k, got, s.bufs[|s.status|], c.put);
    FetchTouchesOutput(u, c.o, c.bufferSize);
    if k < |all| {
      TakeOne(all, k, got, OutputAfter(u, c.o));
      FetchTakesItem(u, c.o, c.bufferSize, all[k], Flatten(all[k + 1..]));
      k' := k + 1;
    } else {
      FetchFindsNothing(u, c.o, c.bufferSize);
      k' := k;
    }
  }

  lemma FeedKeepsInv(s: State, c: Call)
    requires Inv(s)
    ensures Inv(Fed(s, c))
  {
    NextKeepsInv(s, Feed(c.text, c.work));
  }

  /** The invariant does not speak of the output buffer. */
  lemma OutputFree(t: State, output: seq<byte>)
    requires Inv(t)
    ensures Inv(t.(bufs := t.bufs[|t.status| := output]))
  {
  }

  lemma CallKeepsInv(s: State, c: Call, room: nat, t: State, bytes: seq<byte>)
    requires Inv(s) && Calls(s, c, room, t, bytes)
    ensures Inv(t) && |t.status| == |s.status| && Inv(Transition(Fed(s, c), c.o).state)
  {
    var u := Fed(s, c);
    FeedKeepsInv(s, c);
    FetchTouchesOutput(u, c.o, c.bufferSize);
    hide Transition, FetchOutputItem, Inv, Contract, Delivered;
    StepKeepsInv(u, c.o);
    OutputFree(Transition(u, c.o).state, t.bufs[|s.status|]);
  }

  lemma {:induction false} CallsKeepInv(n: nat, cs: seq<Call>, room: nat, states: seq<State>, got: seq<seq<byte>>,
                                        j: nat)
    requires IsCallRun(n, cs, room, states, got) && j <= |cs|
    ensures Inv(states[j]) && |states[j].status| == n
  {
    RunSizes(n, cs, room, states, got);
    hide *;
    if j > 0 {
      CallsKeepInv(n, cs, room, states, got, j - 1);
      CallAt(n, cs, room, states, got, j - 1);
      CallKeepsInv(states[j - 1], cs[j - 1], room, states[j], got[j - 1]);
    }
  }

  lemma RunSizes(n: nat, cs: seq<Call>, room: nat, states: seq<State>, got: seq<seq<byte>>)
    requires IsCallRun(n, cs, room, states, got)
    ensures |states| == |cs| + 1 && |got| == |cs| && Inv(states[0]) && |states[0].status| == n
  {
  }

  lemma CallAt(n: nat, cs: seq<Call>, room: nat, states: seq<State>, got: seq<seq<byte>>, j: nat)
    requires IsCallRun(n, cs, room, states, got) && j < |cs|
    ensures |states| == |cs| + 1 && |got| == |cs| && Calls(states[j], cs[j], room, states[j + 1], got[j])
  {
  }

  lemma NothingYet(n: nat, cs: seq<Call>, room: nat, states: seq<State>, got: seq<seq<byte>>)
    requires IsCallRun(n, cs, room, states, got)
    ensures DeliveredBy(n, cs, room, states, got, 0, 0)
  {
    assert cs[..0] == [] && got[..0] == [];
  }

  lemma OneMore(cs: seq<Call>, got: seq<seq<byte>>, j: nat)
    requires j < |cs| == |got|
    ensures AllPut(cs[..j + 1]) == AllPut(cs[..j]) + cs[j].put
    ensures Flatten(got[..j + 1]) == Flatten(got[..j]) + got[j]
  {
    assert cs[..j + 1][..j] == cs[..j];
    FlattenAppend(got[..j], got[j]);
    assert got[..j + 1] == got[..j] + [got[j]];
  }

  /**
   * Conservation over the first `j` calls: what has been delivered is the content of the speech items among the first
   * `k` items put out, in order, and the items behind them are in the output buffer.
   */
  ghost predicate DeliveredBy(n: nat, cs: seq<Call>, room: nat, states: seq<State>, got: seq<seq<byte>>,
                              j: nat, k: nat)
  {
    && j <= |cs| == |got| && |states| == |cs| + 1 && Shape(states[j]) && |states[j].status| == n && k <= j
    && FitRoom(AllPut(cs[..j]), room) && Delivered(AllPut(cs[..j]), k, Flatten(got[..j]), states[j].bufs[n])
  }

  lemma DeliverNext(n: nat, cs: seq<Call>, room: nat, states: seq<State>, got: seq<seq<byte>>, j: nat, k: nat)
    returns (k': nat)
    requires IsCallRun(n, cs, room, states, got) && j < |cs| && DeliveredBy(n, cs, room, states, got, j, k)
    ensures DeliveredBy(n, cs, room, states, got, j + 1, k')
  {
    CallAt(n, cs, room, states, got, j);
    OneMore(cs, got, j);
    hide Flatten, AllPut, Calls, IsCallRun, Delivered, FitRoom;
    k' := CallDelivers(states[j], cs[j], room, states[j + 1], got[j], AllPut(cs[..j]), k, Flatten(got[..j]));
  }

  /** It holds at every moment of every run of calls. */
  lemma {:induction false} CallsDeliver(n: nat, cs: seq<Call>, room: nat, states: seq<State>, got: seq<seq<byte>>,
                                        j: nat)
    returns (k: nat)
    requires IsCallRun(n, cs, room, states, got) && j <= |cs|
    ensures DeliveredBy(n, cs, room, states, got, j, k)
  {
    hide *;
    if j == 0 {
      NothingYet(n, cs, room, states, got);
      k := 0;
    } else {
      k := CallsDeliver(n, cs, room, states, got, j - 1);
      k := DeliverNext(n, cs, room, states, got, j - 1, k);
    }
  }

  /** No call fails, and when one reports idle, all that was put out has been delivered, and the engine is empty. */
  lemma IdleDeliversAll(n: nat, cs: seq<Call>, room: nat, states: seq<State>, got: seq<seq<byte>>, j: nat)
    requires IsCallRun(n, cs, room, states, got) && j < |cs| && Shape(states[j])
    ensures var status := FetchOutputItem(Fed(states[j], cs[j]), cs[j].o, cs[j].bufferSize).status;
            && status != StepError
            && (status == StepIdle ==>
                  Flatten(got[..j + 1]) == Speech(AllPut(cs[..j + 1])) && AllEmpty(states[j + 1].bufs))
  {
    var k := CallsDeliver(n, cs, room, states, got, j);
    var (s, c, put) := (states[j], cs[j], AllPut(cs[..j]));
    CallsKeepInv(n, cs, room, states, got, j);
    assert Calls(s, c, room, states[j + 1], got[j]);
    k := CallDelivers(s, c, room, states[j + 1], got[j], put, k, Flatten(got[..j]));
    OneMore(cs, got, j);
    FeedKeepsInv(s, c);
    var u := Fed(s, c);
    if FetchOutputItem(u, c.o, c.bufferSize).status == StepIdle {
      AllDelivered(put + c.put, Flatten(got[..j]) + got[j], states[j + 1].bufs[n]);
      IdleIsEmpty(u, c.o, c.bufferSize);
    }
  }

  lemma AllDelivered(put: seq<seq<byte>>, bytes: seq<byte>, output: seq<byte>)
    requires Delivered(put, |put|, bytes, output)
    ensures bytes == Speech(put)
  {
    assert put[..|put|] == put;
  }

  /** When a fetch reports idle, the whole engine is empty: input, internal buffers and output. */
  lemma IdleIsEmpty(s: State, o: Outcome, bufferSize: nat)
    requires Inv(s) && Contract(s, o) && FetchOutputItem(s, o, bufferSize).status == StepIdle
    ensures AllEmpty(FetchOutputItem(s, o, bufferSize).state.bufs) && FetchOutputItem(s, o, bufferSize).bytes == []
  {
    IdleMeansDrained(s, o);
    IdleFetch(s, o, bufferSize);
    hide Transition, FetchOutputItem, Inv, Contract;
  }

  /** `picoctrl_engFetchOutputItemBytes`, for a PU step with outcome `o`. */
  method EngFetchOutputItemBytes(control: Control, o: Outcome, bufferSize: nat)
    returns (status: FetchStatus, bytes: seq<byte>)
    requires control.Valid() && !DropsTooMuch(OutputAfter(control.Abs(), o), true)
    modifies control, control.procStatus, control.cb
    ensures control.Valid()
    ensures Fetched(control.Abs(), status, bytes) == FetchOutputItem(old(control.Abs()), o, bufferSize)
  {
    StepOutput(control.Abs(), o);
    var stepResult, ui := control.CtrlStep(o);
    hide Transition, SlotRules, GetItemSpec, DropsTooMuch;
    if stepResult != Error {
      var n := control.procStatus.Length;
      var rv := GetItemSpec(control.cb[n], bufferSize, true);
      control.cb[n] := rv.contents;
      if |rv.out| > 255 {
        return StepError, [];
      }
      if rv.status == BufUnderflow || rv.status == BufOverflow {
        return StepError, [];
      }
      bytes := rv.out;
      if stepResult == Idle && rv.status == Eof {
        status := StepIdle;
      } else {
        status := StepBusy;
      }
    } else {
      return StepError, [];
    }
  }

  lemma IdleFetch(s: State, o: Outcome, bufferSize: nat)
    requires Shape(s) && FetchOutputItem(s, o, bufferSize).status == StepIdle
    ensures var (t, f) := (Transition(s, o), FetchOutputItem(s, o, bufferSize));
            t.returned == Idle && t.state.bufs[|s.status|] == [] && f.state.bufs == t.state.bufs && f.bytes == []
  {
    hide Transition;
  }

  /** When a fetch reports idle, the whole engine is empty: input, internal buffers and output. */
  lemma FetchIdleMeansEmpty(n: nat, es: seq<Event>, states: seq<State>, k: nat, o: Outcome, bufferSize: nat)
    requires IsRun(n, es, states) && k <= |es| && Shape(states[k]) && Contract(states[k], o)
    requires FetchOutputItem(states[k], o, bufferSize).status == StepIdle
    ensures AllEmpty(FetchOutputItem(states[k], o, bufferSize).state.bufs)
    ensures FetchOutputItem(states[k], o, bufferSize).bytes == []
  {
    RunKeepsInv(n, es, states, k);
    IdleIsEmpty(states[k], o, bufferSize);
  }
}
