/**
 Scaling phone state durations (pico/lib/picodata.c, `transDurUniform` and `transDurWeighted`): frame counts are
 changed in place, and what rounding leaves over is carried on to the next state and to the next call.
 Products and sums are taken to fit `picoos_int32`; what is stored back is cut to `picoos_uint8`.
 */
module Durations {
  import opened Powers

  const PRECISION := 10
  const UNIT := 1024

  function Sum(s: seq<int>): int {
    if s == [] then 0 else Sum(s[..|s| - 1]) + s[|s| - 1]
  }

  datatype Scaled<T> = Scaled(outs: seq<T>, rest: int)

  /** What each state adds to the carry, in units of 2^-10 frames. */
  function UniformGain(fact: int, dur: byte): int {
    fact * dur
  }

  function UniformGains(durs: seq<byte>, fact: int): (g: seq<int>)
    ensures |g| == |durs|
  {
    seq(|durs|, i requires 0 <= i < |durs| => UniformGain(fact, durs[i]))
  }

  function WeightedGain(fact: int, dur: byte, weight: nat): int {
    fact * dur * weight
  }

  function WeightedGains(durs: seq<byte>, weight: seq<nat>, fact: int): (g: seq<int>)
    requires |durs| <= |weight|
    ensures |g| == |durs|
  {
    seq(|durs|, i requires 0 <= i < |durs| => WeightedGain(fact, durs[i], weight[i]))
  }

  function Weighted(durs: seq<byte>, weight: seq<nat>): (g: seq<nat>)
    requires |durs| <= |weight|
    ensures |g| == |durs|
  {
    seq(|durs|, i requires 0 <= i < |durs| => durs[i] * weight[i])
  }

  lemma {:induction false} SumScales(s: seq<int>, t: seq<int>, fact: int)
    requires |s| == |t| && forall i :: 0 <= i < |s| ==> t[i] == fact * s[i]
    ensures Sum(t) == fact * Sum(s)
  {
    if s == [] {
    } else {
      var n := |s| - 1;
      SumScales(s[..n], t[..n], fact);
      Distribute(fact, Sum(s[..n]), s[n]);
    }
  }

  lemma SumSnoc(s: seq<int>, x: int)
    ensures Sum(s + [x]) == Sum(s) + x
  {
    assert (s + [x])[..|s|] == s;
  }

  lemma SumNext(s: seq<int>, i: nat)
    requires i < |s|
    ensures Sum(s[..i + 1]) == Sum(s[..i]) + s[i]
  {
    assert s[..i + 1][..i] == s[..i];
  }

  lemma Distribute(a: int, b: int, c: int)
    ensures a * (b + c) == a * b + a * c
  {
  }

  lemma GainSums(durs: seq<byte>, weight: seq<nat>, fact: int)
    requires |durs| <= |weight|
    ensures Sum(UniformGains(durs, fact)) == fact * Sum(durs)
    ensures Sum(WeightedGains(durs, weight, fact)) == fact * Sum(Weighted(durs, weight))
  {
    assert forall i :: 0 <= i < |durs| ==> UniformGains(durs, fact)[i] == fact * durs[i];
    SumScales(durs, UniformGains(durs, fact), fact);
    forall i | 0 <= i < |durs| ensures fact * durs[i] * weight[i] == fact * (durs[i] * weight[i]) {
      MulAssociates(fact, durs[i], weight[i]);
    }
    SumScales(Weighted(durs, weight), WeightedGains(durs, weight, fact), fact);
  }

  lemma MulAssociates(a: int, b: int, c: int)
    ensures a * b * c == a * (b * c)
  {
  }

  // ---------------------------------------------------------------------------
  // Uniform scaling
  // ---------------------------------------------------------------------------

  function UniformOut(raised: int): byte {
    raised / UNIT % 256
  }

  /** The values stored, and the carry afterwards. */
  function UniformRun(gains: seq<int>, rest: int): (r: Scaled<byte>)
    ensures |r.outs| == |gains|
  {
    if gains == [] then Scaled([], rest)
    else
      var n := |gains| - 1;
      var r := UniformRun(gains[..n], rest);
      var out := UniformOut(r.rest + gains[n]);
      Scaled(r.outs + [out], r.rest + gains[n] - out * UNIT)
  }

  /** The carry is conserved: nothing is lost or invented, even where a stored value wraps. */
  lemma {:induction false} UniformConserves(gains: seq<int>, rest: int)
    ensures var r := UniformRun(gains, rest);
            UNIT * Sum(r.outs) + r.rest == rest + Sum(gains)
  {
    if gains == [] {
    } else {
      var n := |gains| - 1;
      UniformConserves(gains[..n], rest);
      assert UniformRun(gains, rest).outs[..n] == UniformRun(gains[..n], rest).outs;
    }
  }

  /** State `i` stores its value without wrapping. */
  ghost predicate FitsByte(gains: seq<int>, rest: int, i: int)
    requires 0 <= i < |gains|
  {
    0 <= (UniformRun(gains[..i], rest).rest + gains[i]) / UNIT < 256
  }

  /** A value fits exactly if the carry it leaves is a proper remainder. */
  lemma FitsIffProperRemainder(gains: seq<int>, rest: int, i: int)
    requires 0 <= i < |gains|
    ensures FitsByte(gains, rest, i) <==> 0 <= UniformRun(gains[..i + 1], rest).rest < UNIT
  {
    assert gains[..i + 1][..i] == gains[..i];
    var raised := UniformRun(gains[..i], rest).rest + gains[i];
    assert raised == UNIT * (raised / UNIT) + raised % UNIT;
    assert raised / UNIT == 256 * (raised / UNIT / 256) + raised / UNIT % 256;
  }

  /** Where a value fits, the new durations up to it add up to the exactly scaled sum of the old ones, rounded down. */
  lemma UniformPartialSums(durs: seq<byte>, fact: int, rest: int, i: nat)
    requires i < |durs| && FitsByte(UniformGains(durs, fact), rest, i)
    ensures Sum(UniformRun(UniformGains(durs, fact)[..i + 1], rest).outs) == (rest + fact * Sum(durs[..i + 1])) / UNIT
  {
    var gains := UniformGains(durs, fact);
    FitsIffProperRemainder(gains, rest, i);
    UniformConserves(gains[..i + 1], rest);
    assert gains[..i + 1] == UniformGains(durs[..i + 1], fact);
    SumScales(durs[..i + 1], gains[..i + 1], fact);
    var r := UniformRun(gains[..i + 1], rest);
    DivModUnique(rest + Sum(gains[..i + 1]), UNIT, Sum(r.outs), r.rest);
  }

  /** The exactly scaled total of the first `i` states, rounded down; no state, no frame. */
  function UniformTotal(gains: seq<int>, rest: int, i: nat): int
    requires i <= |gains|
  {
    if i == 0 then 0 else (rest + Sum(gains[..i])) / UNIT
  }

  /** What this total gains in each of the first `n` states is a byte. */
  ghost predicate TotalsFit(gains: seq<int>, rest: int, n: nat)
    requires n <= |gains|
  {
    forall i :: 0 <= i < n ==> 0 <= UniformTotal(gains, rest, i + 1) - UniformTotal(gains, rest, i) <= 255
  }

  lemma UniformValue(gains: seq<int>, rest: int, i: nat)
    requires i < |gains| && Sum(UniformRun(gains[..i], rest).outs) == UniformTotal(gains, rest, i)
    ensures (UniformRun(gains[..i], rest).rest + gains[i]) / UNIT
         == UniformTotal(gains, rest, i + 1) - UniformTotal(gains, rest, i)
  {
    var r := UniformRun(gains[..i], rest);
    UniformConserves(gains[..i], rest);
    SumNext(gains, i);
    ShiftedQuotient(rest + Sum(gains[..i + 1]), r.rest + gains[i], Sum(r.outs));
  }

  /** The first `n` values are stored without wrapping. */
  ghost predicate ValuesFit(gains: seq<int>, rest: int, n: nat)
    requires n <= |gains|
  {
    forall i :: 0 <= i < n ==> FitsByte(gains, rest, i)
  }

  lemma FitsSplit(gains: seq<int>, rest: int, n: nat)
    requires n < |gains|
    ensures ValuesFit(gains, rest, n + 1) <==> ValuesFit(gains, rest, n) && FitsByte(gains, rest, n)
    ensures TotalsFit(gains, rest, n + 1) <==>
              TotalsFit(gains, rest, n) && 0 <= UniformTotal(gains, rest, n + 1) - UniformTotal(gains, rest, n) <= 255
  {
    hide FitsByte, UniformTotal;
  }

  /** This holds exactly if the gains of the scaled total are bytes, and then the stored values add up to it. */
  lemma {:induction false} UniformFitsIff(gains: seq<int>, rest: int, n: nat)
    requires n <= |gains|
    ensures ValuesFit(gains, rest, n) <==> TotalsFit(gains, rest, n)
    ensures TotalsFit(gains, rest, n) ==> Sum(UniformRun(gains[..n], rest).outs) == UniformTotal(gains, rest, n)
  {
    if n == 0 {
    } else {
      hide *;
      UniformFitsIff(gains, rest, n - 1);
      FitsSplit(gains, rest, n - 1);
      if TotalsFit(gains, rest, n - 1) {
        UniformFitsNext(gains, rest, n - 1);
      }
    }
  }

  lemma UniformFitsNext(gains: seq<int>, rest: int, i: nat)
    requires i < |gains| && Sum(UniformRun(gains[..i], rest).outs) == UniformTotal(gains, rest, i)
    ensures FitsByte(gains, rest, i) <==> 0 <= UniformTotal(gains, rest, i + 1) - UniformTotal(gains, rest, i) <= 255
    ensures FitsByte(gains, rest, i) ==> Sum(UniformRun(gains[..i + 1], rest).outs) == UniformTotal(gains, rest, i + 1)
  {
    var r := UniformRun(gains[..i], rest);
    var raised := r.rest + gains[i];
    assert FitsByte(gains, rest, i) <==> 0 <= raised / UNIT < 256;
    hide *;
    UniformValue(gains, rest, i);
    UniformNext(gains, rest, i);
    OutOfByte(raised);
    SumSnoc(r.outs, UniformOut(raised));
  }

  lemma OutOfByte(raised: int)
    ensures 0 <= raised / UNIT < 256 ==> UniformOut(raised) == raised / UNIT
  {
  }

  lemma StoreNext(outs: seq<byte>, before: seq<byte>, i: nat, out: byte)
    requires i == |outs| < |before|
    ensures (outs + before[i..])[i := out] == (outs + [out]) + before[i + 1..]
  {
  }

  lemma UniformNext(gains: seq<int>, rest: int, i: nat)
    requires i < |gains|
    ensures var r := UniformRun(gains[..i], rest);
            var out := UniformOut(r.rest + gains[i]);
            UniformRun(gains[..i + 1], rest) == Scaled(r.outs + [out], r.rest + gains[i] - out * UNIT)
  {
    assert gains[..i + 1][..i] == gains[..i];
  }

  method UniformStep(inout: array<byte>, i: nat, raised: int, ghost done: seq<byte>, ghost before: seq<byte>)
    returns (rest: int)
    requires i == |done| < |before| && inout[..] == done + before[i..]
    modifies inout
    ensures inout[..] == (done + [UniformOut(raised)]) + before[i + 1..]
    ensures rest == raised - UniformOut(raised) * UNIT
  {
    StoreNext(done, before, i, UniformOut(raised));
    inout[i] := raised / UNIT % 256;
    rest := raised - inout[i] * UNIT;
  }

  /** The first `i` states are scaled, and the others are as they were. */
  ghost predicate UniformTo(inout: seq<byte>, rest: int, before: seq<byte>, gains: seq<int>, rest0: int, i: nat)
    requires i <= |gains| <= |before|
  {
    var r := UniformRun(gains[..i], rest0);
    inout == r.outs + before[i..] && rest == r.rest
  }

  lemma UniformToNext(before: seq<byte>, gains: seq<int>, rest0: int, i: nat, raised: int, done: seq<byte>)
    requires i < |gains| <= |before|
    requires var r := UniformRun(gains[..i], rest0); done == r.outs && raised == r.rest + gains[i]
    ensures UniformTo((done + [UniformOut(raised)]) + before[i + 1..], raised - UniformOut(raised) * UNIT, before,
            gains,
                      rest0, i + 1)
  {
    UniformNext(gains, rest0, i);
  }

  /** One iteration of the loop. */
  method UniformState(inout: array<byte>, i: nat, fact: int, rest0: int, ghost before: seq<byte>, ghost gains: seq<int>,
                      ghost start: int)
    returns (rest: int)
    requires i < |gains| <= |before| && gains[i] == UniformGain(fact, before[i])
    requires UniformTo(inout[..], rest0, before, gains, start, i)
    modifies inout
    ensures UniformTo(inout[..], rest, before, gains, start, i + 1)
  {
    ghost var done := UniformRun(gains[..i], start).outs;
    assert inout[..] == done + before[i..];
    assert inout[i] == before[i] && rest0 == UniformRun(gains[..i], start).rest;
    hide *;
    var raised := rest0 + UniformGain(fact, inout[i]);
    UniformToNext(before, gains, start, i, raised, done);
    rest := UniformStep(inout, i, raised, done, before);
  }

  /** The loop of `transDurUniform`. */
  method ScaleUniformly(n: nat, inout: array<byte>, fact: int, rest0: int) returns (rest: int)
    requires n <= inout.Length
    modifies inout
    ensures var r := UniformRun(UniformGains(old(inout[..n]), fact), rest0);
            inout[..] == r.outs + old(inout[n..]) && rest == r.rest
  {
    rest := rest0;
    ghost var before, gains := inout[..], UniformGains(inout[..n], fact);
    assert UniformTo(before, rest0, before, gains, rest0, 0) by { assert before[..0] == [] && gains[..0] == []; }
    for i := 0 to n
      invariant UniformTo(inout[..], rest, before, gains, rest0, i)
    {
      assert gains[i] == UniformGain(fact, before[i]);
      hide *;
      rest := UniformState(inout, i, fact, rest, before, gains, rest0);
    }
    assert before[..n] == old(inout[..n]) && gains[..n] == gains;
  }

  /** `transDurUniform` */
  method TransDurUniform(frameDurationExp: nat, arrayLength: nat, inout: array<byte>, inputdur: int, targetdur: int,
                         restdur: int) returns (restdur': int)
    requires frameDurationExp <= PRECISION && arrayLength <= inout.Length && inputdur != 0
    modifies inout
    ensures var (s, durs) := (PRECISION - frameDurationExp, old(inout[..arrayLength]));
            var r := UniformRun(UniformGains(durs, CDiv(Shl(targetdur, s), inputdur)), Shl(restdur, s));
            inout[..] == r.outs + old(inout[arrayLength..]) && restdur' == Shr(r.rest, s)
  {
    var s := PRECISION - frameDurationExp;
    var rest := ScaleUniformly(arrayLength, inout, CDiv(Shl(targetdur, s), inputdur), Shl(restdur, s));
    restdur' := Shr(rest, s);
  }

  // ---------------------------------------------------------------------------
  // Weighted scaling
  // ---------------------------------------------------------------------------

  /** The new value before it is cut to a byte. */
  function WeightedOut(dur: nat, raised: int): nat {
    if dur + raised / UNIT < 0 then 0 else dur + raised / UNIT
  }

  /** The values computed, before they are cut to a byte, and the carry afterwards. */
  function WeightedRun(durs: seq<byte>, gains: seq<int>, rest: int): (r: Scaled<nat>)
    requires |durs| == |gains|
    ensures |r.outs| == |durs|
  {
    if durs == [] then Scaled([], rest)
    else
      var n := |durs| - 1;
      var r := WeightedRun(durs[..n], gains[..n], rest);
      var out := WeightedOut(durs[n], r.rest + gains[n]);
      Scaled(r.outs + [out], r.rest + gains[n] - (out - durs[n]) * UNIT)
  }

  function Stored(outs: seq<nat>): (s: seq<byte>)
    ensures |s| == |outs|
  {
    seq(|outs|, i requires 0 <= i < |outs| => outs[i] % 256)
  }

  /** The carry is conserved through the clamping at zero. */
  lemma {:induction false} WeightedConserves(durs: seq<byte>, gains: seq<int>, rest: int)
    requires |durs| == |gains|
    ensures var r := WeightedRun(durs, gains, rest);
            UNIT * (Sum(r.outs) - Sum(durs)) + r.rest == rest + Sum(gains)
  {
    if durs == [] {
    } else {
      var n := |durs| - 1;
      WeightedConserves(durs[..n], gains[..n], rest);
      assert WeightedRun(durs, gains, rest).outs[..n] == WeightedRun(durs[..n], gains[..n], rest).outs;
    }
  }

  /** The exactly scaled total of the first `i` states, rounded down. */
  function Target(durs: seq<byte>, gains: seq<int>, rest: int, i: nat): int
    requires i <= |durs| == |gains|
  {
    Sum(durs[..i]) + (rest + Sum(gains[..i])) / UNIT
  }

  /** The highest of these totals up to state `i`, and at least 0: durations cannot be taken back. */
  function Peak(durs: seq<byte>, gains: seq<int>, rest: int, i: nat): (m: nat)
    requires i <= |durs| == |gains|
  {
    if i == 0 then 0
    else
      var (m, t) := (Peak(durs, gains, rest, i - 1), Target(durs, gains, rest, i));
      if t > m then t else m
  }

  lemma ShiftedQuotient(a: int, b: int, k: int)
    requires a == b + k * UNIT
    ensures a / UNIT == b / UNIT + k
  {
  }

  /** The values computed up to any state add up to the highest total so far, which fixes what clamping does. */
  lemma {:induction false} WeightedPartialSums(durs: seq<byte>, gains: seq<int>, rest: int, i: nat)
    requires i <= |durs| == |gains|
    ensures Sum(WeightedRun(durs[..i], gains[..i], rest).outs) == Peak(durs, gains, rest, i)
  {
    if i == 0 {
    } else {
      WeightedPartialSums(durs, gains, rest, i - 1);
      WeightedConserves(durs[..i - 1], gains[..i - 1], rest);
      WeightedNext(durs, gains, rest, i - 1);
      var r := WeightedRun(durs[..i - 1], gains[..i - 1], rest);
      hide WeightedRun;
      SumNext(durs, i - 1);
      SumNext(gains, i - 1);
      SumSnoc(r.outs, WeightedOut(durs[i - 1], r.rest + gains[i - 1]));
      ShiftedQuotient(rest + Sum(gains[..i]), r.rest + gains[i - 1], Sum(r.outs) - Sum(durs[..i - 1]));
    }
  }

  lemma {:induction false} RunPrefix(durs: seq<byte>, gains: seq<int>, rest: int, i: nat)
    requires i <= |durs| == |gains|
    ensures WeightedRun(durs, gains, rest).outs[..i] == WeightedRun(durs[..i], gains[..i], rest).outs
    decreases |durs| - i
  {
    if i == |durs| {
      assert durs[..i] == durs && gains[..i] == gains;
    } else {
      RunPrefix(durs, gains, rest, i + 1);
      WeightedNext(durs, gains, rest, i);
      var outs := WeightedRun(durs, gains, rest).outs;
      assert outs[..i] == outs[..i + 1][..i];
    }
  }

  /** So each computed value is the rise of the highest total. */
  lemma WeightedValue(durs: seq<byte>, gains: seq<int>, rest: int, i: nat)
    requires i < |durs| == |gains|
    ensures WeightedRun(durs, gains, rest).outs[i] == Peak(durs, gains, rest, i + 1) - Peak(durs, gains, rest, i)
  {
    var outs := WeightedRun(durs, gains, rest).outs;
    RunPrefix(durs, gains, rest, i);
    RunPrefix(durs, gains, rest, i + 1);
    WeightedPartialSums(durs, gains, rest, i);
    WeightedPartialSums(durs, gains, rest, i + 1);
    assert outs[..i + 1][..i] == outs[..i];
  }

  /** No rise of the highest total is more than a byte can hold. */
  ghost predicate RisesFit(durs: seq<byte>, gains: seq<int>, rest: int)
    requires |durs| == |gains|
  {
    forall i :: 0 <= i < |durs| ==> Peak(durs, gains, rest, i + 1) - Peak(durs, gains, rest, i) <= 255
  }

  ghost predicate AllBytes(outs: seq<nat>) {
    forall i :: 0 <= i < |outs| ==> outs[i] < 256
  }

  lemma AllBytesIff(durs: seq<byte>, gains: seq<int>, rest: int)
    requires |durs| == |gains|
    ensures AllBytes(WeightedRun(durs, gains, rest).outs) <==> RisesFit(durs, gains, rest)
  {
    var outs := WeightedRun(durs, gains, rest).outs;
    hide WeightedRun, Peak;
    forall i | 0 <= i < |durs| ensures outs[i] == Peak(durs, gains, rest, i + 1) - Peak(durs, gains, rest, i) {
      WeightedValue(durs, gains, rest, i);
    }
    if RisesFit(durs, gains, rest) {
      forall i | 0 <= i < |outs| ensures outs[i] < 256 {
        assert Peak(durs, gains, rest, i + 1) - Peak(durs, gains, rest, i) <= 255;
      }
    }
    if AllBytes(outs) {
      forall i | 0 <= i < |durs| ensures Peak(durs, gains, rest, i + 1) - Peak(durs, gains, rest, i) <= 255 {
        assert outs[i] < 256;
      }
    }
  }

  lemma {:induction false} StoredSum(outs: seq<nat>)
    ensures Sum(Stored(outs)) <= Sum(outs)
    ensures Sum(Stored(outs)) == Sum(outs) <==> AllBytes(outs)
  {
    if outs == [] {
    } else {
      var n := |outs| - 1;
      StoredSum(outs[..n]);
      assert Stored(outs)[..n] == Stored(outs[..n]);
      assert outs[n] % 256 <= outs[n] && (outs[n] % 256 == outs[n] <==> outs[n] < 256);
      assert AllBytes(outs) <==> AllBytes(outs[..n]) && outs[n] < 256;
    }
  }

  /** For the values actually stored, conservation holds exactly if no rise of the highest total exceeds 255. */
  lemma StoredConservesIff(durs: seq<byte>, weight: seq<nat>, fact: int, rest: int)
    requires |durs| <= |weight|
    ensures var gains := WeightedGains(durs, weight, fact);
            var r := WeightedRun(durs, gains, rest);
            UNIT * (Sum(Stored(r.outs)) - Sum(durs)) + r.rest == rest + fact * Sum(Weighted(durs, weight))
            <==> RisesFit(durs, gains, rest)
  {
    var gains := WeightedGains(durs, weight, fact);
    WeightedConserves(durs, gains, rest);
    GainSums(durs, weight, fact);
    StoredSum(WeightedRun(durs, gains, rest).outs);
    AllBytesIff(durs, gains, rest);
  }

  /** The additive change factor of `transDurWeighted`. */
  function ChangeFactor(inputdur: int, targetdur: int, s: nat, weightedSum: int): int
    requires weightedSum != 0
  {
    if targetdur > inputdur then CDiv(Shl(targetdur - inputdur, s), weightedSum)
    else CDiv(-Shl(inputdur - targetdur, s), weightedSum)
  }

  /** It does not for a state of 200 frames of 4 ms and weight 1 that is to last 1100 ms instead of 800 ms: the new
      value is 275, and 19 is stored. */
  lemma StoredLosesFrames()
    ensures var (durs: seq<byte>, weight: seq<nat>, fact) := ([200], [1], ChangeFactor(800, 1100, 8, 200));
            var gains := WeightedGains(durs, weight, fact);
            var r := WeightedRun(durs, gains, 0);
            && Sum(Weighted(durs, weight)) == 200
            && fact == 384 && r.outs == [275] && Stored(r.outs) == [19] && !RisesFit(durs, gains, 0)
            && UNIT * (Sum(Stored(r.outs)) - Sum(durs)) + r.rest != fact * Sum(Weighted(durs, weight))
  {
    var durs: seq<byte> := [200];
    var weight: seq<nat> := [1];
    assert Weighted(durs, weight) == [200] && [200][..0] == [];
    assert Shl(300, 8) == 76800;
    var gains := WeightedGains(durs, weight, 384);
    assert gains == [76800] && durs[..0] == [] && gains[..0] == [];
    assert WeightedRun(durs[..0], gains[..0], 0) == Scaled([], 0);
    var r := WeightedRun(durs, gains, 0);
    assert r.outs == [275];
    assert Stored(r.outs) == [19];
    WeightedValue(durs, gains, 0, 0);
    StoredConservesIff(durs, weight, 384, 0);
  }

  lemma TruncationError(a: int, w: int)
    requires w > 0
    ensures -w < CDiv(a, w) * w - a < w
  {
    var m := Abs(a);
    assert m == w * (m / w) + m % w;
    if a < 0 {
      assert -(m / w) * w == -(w * (m / w));
    }
  }

  lemma ChangeFactorError(inputdur: int, targetdur: int, s: nat, w: int)
    requires w > 0
    ensures -w < ChangeFactor(inputdur, targetdur, s, w) * w - Shl(targetdur - inputdur, s) < w
  {
    ShlAdd(targetdur - inputdur, inputdur - targetdur, s);
    TruncationError(Shl(targetdur - inputdur, s), w);
  }

  /** The factor is the quotient without its fraction, in either direction of the change. */
  lemma ChangeFactorIs(inputdur: int, targetdur: int, s: nat, w: int)
    requires w > 0
    ensures ChangeFactor(inputdur, targetdur, s, w)
         == if targetdur >= inputdur then (targetdur - inputdur) * Pow2(s) / w
            else -((inputdur - targetdur) * Pow2(s) / w)
  {
    ShlIsProduct(targetdur - inputdur, s);
    ShlIsProduct(inputdur - targetdur, s);
  }

  /** The multiplicative factor of `transDurUniform`. */
  lemma UniformFactorIs(inputdur: int, targetdur: nat, s: nat)
    requires inputdur > 0
    ensures CDiv(Shl(targetdur, s), inputdur) == targetdur * Pow2(s) / inputdur
  {
    ShlIsProduct(targetdur, s);
  }

  /** Quotient and remainder of `a` by `b`, as bounds. */
  lemma QuotientBounds(a: nat, b: nat)
    requires b > 0
    ensures b * (a / b) <= a < b * (a / b) + b
  {
  }

  /** The arithmetic of the uniform factor: with `p` milliseconds in a frame, `p * q` is 1024. */
  lemma UniformBounds(frames: nat, p: nat, q: nat, target: nat, fact: nat, sum: nat)
    requires p > 0 && q > 0 && p * q == 1024 && frames > 0
    requires fact == target * q / (p * frames) && sum == fact * frames / 1024
    ensures p * (p * sum) <= target
    ensures 1024 * target < p * (p * (1024 * sum + 1024 + frames))
  {
    var (m, g) := (fact * frames, p * frames);
    NotNegative(p - 1, frames);
    assert g == frames + (p - 1) * frames > 0;
    QuotientBounds(target * q, g);
    QuotientBounds(m, 1024);
    assert g * fact == p * m by { Regroup(p, frames, fact); }
    UniformAbove(p, q, target, m, sum);
    UniformBelow(p, q, target, m, sum, frames);
  }

  lemma Regroup(p: int, frames: int, fact: int)
    ensures (p * frames) * fact == p * (fact * frames)
  {
  }

  lemma UniformAbove(p: nat, q: nat, target: nat, m: nat, sum: nat)
    requires q > 0 && p * q == 1024 && 1024 * sum <= m && p * m <= target * q
    ensures p * (p * sum) <= target
  {
    MulMonotone(1024 * sum, m, p);
    var t := p * sum;
    assert 1024 * sum * p == 1024 * t;
    assert p * t * q == (p * q) * t;
    CancelFactor(p * t, target, q);
  }

  lemma UniformBelow(p: nat, q: nat, target: nat, m: nat, sum: nat, frames: nat)
    requires p > 0 && p * q == 1024 && m < 1024 * sum + 1024 && target * q < p * m + p * frames
    ensures 1024 * target < p * (p * (1024 * sum + 1024 + frames))
  {
    var b := 1024 * sum + 1024 + frames;
    MulMonotone(m + frames, b, p);
    assert (m + frames) * p == p * m + p * frames;
    assert b * p == p * b;
    MulStrict(target * q, p * b, p);
    assert p * (target * q) == (p * q) * target;
  }

  lemma MulStrict(a: int, b: int, c: int)
    requires a < b && c > 0
    ensures c * a < c * b
  {
  }

  lemma CancelFactor(a: int, b: int, c: int)
    requires c > 0 && a * c <= b * c
    ensures a <= b
  {
  }

  lemma {:induction false} UniformSum(durs: seq<byte>, fact: int)
    requires |durs| > 0 && FitsByte(UniformGains(durs, fact), 0, |durs| - 1)
    ensures Sum(UniformRun(UniformGains(durs, fact), 0).outs) == fact * Sum(durs) / UNIT
  {
    var (n, gains) := (|durs|, UniformGains(durs, fact));
    UniformPartialSums(durs, fact, 0, n - 1);
    assert gains[..n - 1 + 1] == gains && durs[..n - 1 + 1] == durs;
  }

  /**
   * With frames of 2^exp milliseconds, uniform scaling does not reach the target: both durations are given in
   * milliseconds, but the factor is taken for one of frame counts.  The new duration is the 2^exp-th part of the
   * target, up to less than a frame and a 1024-th of the old duration.
   */
  lemma UniformMissesTarget(durs: seq<byte>, exp: nat, inputdur: int, targetdur: nat, fact: int)
    requires exp <= PRECISION && inputdur == Pow2(exp) * Sum(durs) > 0 && |durs| > 0
    requires fact == CDiv(Shl(targetdur, PRECISION - exp), inputdur)
    requires FitsByte(UniformGains(durs, fact), 0, |durs| - 1)
    ensures var (p, sum) := (Pow2(exp), Sum(UniformRun(UniformGains(durs, fact), 0).outs));
            sum >= 0 && p * (p * sum) <= targetdur
            && 1024 * targetdur < p * (p * (1024 * sum + 1024 + Sum(durs)))
  {
    var (p, q, frames) := (Pow2(exp), Pow2(PRECISION - exp), Sum(durs));
    ScaleIs(exp);
    UniformSum(durs, fact);
    UniformFactorIs(inputdur, targetdur, PRECISION - exp);
    hide *;
    PositiveFactor(p, frames);
    UniformParts(p, q, frames, inputdur, targetdur, fact, Sum(UniformRun(UniformGains(durs, fact), 0).outs));
  }

  /** A shift by what the exponent leaves of the precision: 1024 units are one frame of 2^exp milliseconds. */
  lemma ScaleIs(exp: nat)
    requires exp <= PRECISION
    ensures Pow2(exp) * Pow2(PRECISION - exp) == 1024 == UNIT
  {
    Pow2Sum(exp, PRECISION - exp);
    assert Pow2(PRECISION) == 1024;
  }

  lemma PositiveFactor(p: int, frames: int)
    requires p > 0 && p * frames > 0
    ensures frames > 0
  {
  }

  lemma UniformParts(p: nat, q: nat, frames: nat, inputdur: nat, target: nat, fact: int, sum: int)
    requires p > 0 && p * q == 1024 && frames > 0 && inputdur == p * frames > 0
    requires fact == target * q / inputdur && sum == fact * frames / 1024
    ensures sum >= 0 && p * (p * sum) <= target && 1024 * target < p * (p * (1024 * sum + 1024 + frames))
  {
    PositiveFactor(p, q);
    NotNegative(target, q);
    assert fact >= 0;
    NotNegative(fact, frames);
    UniformBounds(frames, p, q, target, fact, sum);
  }

  lemma NotNegative(a: nat, b: nat)
    ensures a * b >= 0
  {
  }

  /** `sum` frames of `p` milliseconds last as long as the target, up to a frame and a 1024-th of the old duration. */
  predicate Reached(sum: int, p: nat, frames: int, targetdur: int) {
    p * sum <= targetdur && 1024 * targetdur < p * (1024 * sum + 1024 + frames)
  }

  /** For targets of more than a few frames: the target is reached exactly if frames have one millisecond. */
  lemma UniformReachesIff(durs: seq<byte>, exp: nat, inputdur: int, targetdur: nat, fact: int)
    requires exp <= PRECISION && inputdur == Pow2(exp) * Sum(durs) > 0 && |durs| > 0
    requires fact == CDiv(Shl(targetdur, PRECISION - exp), inputdur)
    requires FitsByte(UniformGains(durs, fact), 0, |durs| - 1)
    requires 512 * targetdur >= Pow2(exp) * (1024 + Sum(durs))
    ensures Reached(Sum(UniformRun(UniformGains(durs, fact), 0).outs), Pow2(exp), Sum(durs), targetdur) <==> exp == 0
  {
    hide *;
    UniformMissesTarget(durs, exp, inputdur, targetdur, fact);
    FrameLength(exp);
    PositiveFactor(Pow2(exp), Sum(durs));
    var sum := Sum(UniformRun(UniformGains(durs, fact), 0).outs);
    if exp > 0 {
      NotReached(Pow2(exp), sum, Sum(durs), targetdur);
    } else {
      OneMillisecond(sum, Sum(durs), targetdur);
    }
  }

  lemma FrameLength(exp: nat)
    ensures Pow2(exp) > 0 && (exp == 0 ==> Pow2(exp) == 1) && (exp > 0 ==> Pow2(exp) >= 2)
  {
    if exp > 0 { Pow2Monotone(1, exp); }
  }

  lemma OneMillisecond(sum: int, frames: int, target: int)
    requires sum <= target && 1024 * target < 1024 * sum + 1024 + frames
    ensures Reached(sum, 1, frames, target)
  {
  }

  lemma NotReached(p: nat, sum: nat, frames: nat, target: nat)
    requires p >= 2 && p * (p * sum) <= target && 512 * target >= p * (1024 + frames)
    ensures !Reached(sum, p, frames, target)
  {
    var t := p * sum;
    MulMonotone(2, p, t);
    assert p * (1024 * sum + 1024 + frames) == 1024 * t + p * (1024 + frames);
  }

  /** 200 frames of 4 ms, which are to last 800 ms as before, become 50 frames. */
  lemma UniformQuarter()
    ensures UniformRun(UniformGains([200], CDiv(Shl(800, 8), 800)), 0).outs == [50]
  {
    ShlIsProduct(800, 8);
    assert Pow2(8) == 256;
    var gains := UniformGains([200], 256);
    assert gains == [51200] && gains[..0] == [];
    assert UniformRun(gains[..0], 0) == Scaled([], 0);
  }

  /** Where no value wraps, the total change misses the requested one, in units of 2^-10 frames and with the carry
      taken into account, by less than the weighted sum. */
  lemma WeightedMiss(durs: seq<byte>, weight: seq<nat>, inputdur: int, targetdur: int, s: nat, rest: int)
    requires |durs| <= |weight| && Sum(Weighted(durs, weight)) > 0
    requires var fact := ChangeFactor(inputdur, targetdur, s, Sum(Weighted(durs, weight)));
             RisesFit(durs, WeightedGains(durs, weight, fact), rest)
    ensures var w := Sum(Weighted(durs, weight));
            var r := WeightedRun(durs, WeightedGains(durs, weight, ChangeFactor(inputdur, targetdur, s, w)), rest);
            -w < UNIT * (Sum(Stored(r.outs)) - Sum(durs)) - Shl(targetdur - inputdur, s) - (rest - r.rest) < w
  {
    var w := Sum(Weighted(durs, weight));
    ChangeFactorError(inputdur, targetdur, s, w);
    StoredConservesIff(durs, weight, ChangeFactor(inputdur, targetdur, s, w), rest);
  }

  /** The summing loop of `transDurWeighted`. */
  method SumWeights(n: nat, inout: array<byte>, weight: seq<nat>) returns (sum: int)
    requires n <= inout.Length && n <= |weight|
    ensures sum == Sum(Weighted(inout[..n], weight))
  {
    sum := 0;
    ghost var w := Weighted(inout[..n], weight);
    for i := 0 to n
      invariant sum == Sum(w[..i])
    {
      assert w[..i + 1][..i] == w[..i];
      sum := sum + inout[i] * weight[i];
    }
    assert w[..n] == w;
  }

  lemma WeightedNext(durs: seq<byte>, gains: seq<int>, rest: int, i: nat)
    requires i < |gains| <= |durs|
    ensures var r := WeightedRun(durs[..i], gains[..i], rest);
            var out := WeightedOut(durs[i], r.rest + gains[i]);
            && WeightedRun(durs[..i + 1], gains[..i + 1], rest)
               == Scaled(r.outs + [out], r.rest + gains[i] - (out - durs[i]) * UNIT)
            && Stored(r.outs + [out]) == Stored(r.outs) + [out % 256]
  {
    assert gains[..i + 1][..i] == gains[..i] && durs[..i + 1][..i] == durs[..i];
  }

  method WeightedStep(inout: array<byte>, i: nat, raised: int, ghost done: seq<byte>, ghost before: seq<byte>)
    returns (rest: int)
    requires i == |done| < |before| && inout[..] == done + before[i..]
    modifies inout
    ensures inout[..] == (done + [WeightedOut(before[i], raised) % 256]) + before[i + 1..]
    ensures rest == raised - (WeightedOut(before[i], raised) - before[i]) * UNIT
  {
    assert inout[i] == before[i];
    rest := raised;
    var out := inout[i] + rest / UNIT;
    if out < 0 {
      out := 0;
    }
    if out - inout[i] >= 0 {
      rest := rest - (out - inout[i]) * UNIT;
    } else {
      rest := rest + (inout[i] - out) * UNIT;
    }
    StoreNext(done, before, i, out % 256);
    inout[i] := out % 256;
  }

  /** The first `i` states are scaled, and the others are as they were. */
  ghost predicate ScaledTo(inout: seq<byte>, rest: int, before: seq<byte>, gains: seq<int>, rest0: int, i: nat)
    requires i <= |gains| <= |before|
  {
    var r := WeightedRun(before[..i], gains[..i], rest0);
    inout == Stored(r.outs) + before[i..] && rest == r.rest
  }

  lemma ScaledToNext(before: seq<byte>, gains: seq<int>, rest0: int, i: nat, raised: int, done: seq<byte>)
    requires i < |gains| <= |before|
    requires var r := WeightedRun(before[..i], gains[..i], rest0); done == Stored(r.outs) && raised == r.rest + gains[i]
    ensures ScaledTo((done + [WeightedOut(before[i], raised) % 256]) + before[i + 1..],
                     raised - (WeightedOut(before[i], raised) - before[i]) * UNIT, before, gains, rest0, i + 1)
  {
    WeightedNext(before, gains, rest0, i);
  }

  /** The scaling loop of `transDurWeighted`. */
  method ScaleWeighted(n: nat, inout: array<byte>, weight: seq<nat>, fact: int, rest0: int) returns (rest: int)
    requires n <= inout.Length && n <= |weight|
    modifies inout
    ensures var r := WeightedRun(old(inout[..n]), WeightedGains(old(inout[..n]), weight, fact), rest0);
            inout[..] == Stored(r.outs) + old(inout[n..]) && rest == r.rest
  {
    rest := rest0;
    ghost var before, gains := inout[..], WeightedGains(inout[..n], weight, fact);
    assert ScaledTo(before, rest0, before, gains, rest0, 0) by { assert before[..0] == [] && gains[..0] == []; }
    for i := 0 to n
      invariant ScaledTo(inout[..], rest, before, gains, rest0, i)
    {
      ghost var done := Stored(WeightedRun(before[..i], gains[..i], rest0).outs);
      assert inout[..] == done + before[i..];
      var raised := rest + WeightedGain(fact, inout[i], weight[i]);
      assert inout[i] == before[i] && raised == rest + gains[i];
      hide *;
      ScaledToNext(before, gains, rest0, i, raised, done);
      rest := WeightedStep(inout, i, raised, done, before);
    }
    assert before[..n] == old(inout[..n]) && gains[..n] == gains;
  }

  /** `transDurWeighted` */
  method TransDurWeighted(frameDurationExp: nat, arrayLength: nat, inout: array<byte>, weight: seq<nat>, inputdur: int,
                          targetdur: int, restdur: int) returns (restdur': int)
    requires frameDurationExp <= PRECISION && arrayLength <= inout.Length && arrayLength <= |weight| && inputdur != 0
    modifies inout
    ensures var (s, durs) := (PRECISION - frameDurationExp, old(inout[..arrayLength]));
            var w := Sum(Weighted(durs, weight));
            if w == 0 then
              var r := UniformRun(UniformGains(durs, CDiv(Shl(targetdur, s), inputdur)), Shl(restdur, s));
              inout[..] == r.outs + old(inout[arrayLength..]) && restdur' == Shr(r.rest, s)
            else
              var gains := WeightedGains(durs, weight, ChangeFactor(inputdur, targetdur, s, w));
              var r := WeightedRun(durs, gains, Shl(restdur, s));
              inout[..] == Stored(r.outs) + old(inout[arrayLength..]) && restdur' == Shr(r.rest, s)
  {
    var s := PRECISION - frameDurationExp;
    var weightedSum := SumWeights(arrayLength, inout, weight);
    if weightedSum == 0 {
      restdur' := TransDurUniform(frameDurationExp, arrayLength, inout, inputdur, targetdur, restdur);
      return;
    }
    var fact := ChangeFactor(inputdur, targetdur, s, weightedSum);
    var rest := ScaleWeighted(arrayLength, inout, weight, fact, Shl(restdur, s));
    restdur' := Shr(rest, s);
  }
}
