/**
  How closely the quantizer follows its input (tools/ima_adpcm.py,
  encode_samples): a bound on the error in range, and on how long the input can
  outrun the step.
*/
module AdpcmTracking {
  import opened Adpcm

  function Abs(x: int): nat { if x < 0 then -x else x }

  /** The sample is out of the quantizer's reach. */
  predicate Overloaded(st: State, sample: S16) {
    Abs(sample - st.predictor) >= 2 * StepOf(st)
  }

  function StepOf(st: State): int { StepAt(st.index) }

  /** In range, the chosen change misses the difference by an eighth of a step
      plus the rounding of the halved and quartered steps. */
  lemma QuantizeInRange(step: Step, difference: int)
    requires Abs(difference) < 2 * step
    ensures Abs(difference - Delta(step, Quantize(step, difference).code)) <= step / 8 + 2
  {
    QuantizeIsDelta(step, difference);
    var d, m := Abs(difference), Quantize(step, difference).magnitude;
    var q, r := step / 8, step % 8;
    assert step == 8 * q + r;
    assert step / 2 == 4 * q + r / 2 && step / 4 == 2 * q + r / 4;
    assert Abs(d - m) <= q + 2;
  }

  /** Out of range, the change is as large as it can be and still falls short. */
  lemma QuantizeOverloaded(step: Step, difference: int)
    requires Abs(difference) >= 2 * step
    ensures var delta := Delta(step, Quantize(step, difference).code);
            && step <= Abs(delta) <= Abs(difference)
            && (delta < 0 <==> difference < 0)
    ensures Quantize(step, difference).code % 8 == 7
  {
    QuantizeIsDelta(step, difference);
  }

  lemma ClampHelps(x: int, sample: S16)
    ensures Abs(Clamp(x) - sample) <= Abs(x - sample)
    ensures x <= sample ==> x <= Clamp(x) <= sample
    ensures x >= sample ==> sample <= Clamp(x) <= x
  {
  }

  /** Within reach, the next error is at most an eighth of the step plus two,
      despite the clamping of the predictor. */
  lemma TracksInRange(st: State, sample: S16)
    requires !Overloaded(st, sample)
    ensures Abs(sample - EncoderAdvance(st, sample).predictor) <= StepOf(st) / 8 + 2
  {
    hide StepAt, Delta, Quantize, Clamp;
    var step := StepAt(st.index);
    StepsAgree(st, sample);
    QuantizeInRange(step, sample - st.predictor);
    ClampHelps(st.predictor + Delta(step, CodeOf(st, sample)), sample);
  }

  /** Out of reach, the error strictly falls and the predictor does not pass the
      sample; the index takes its largest stride. */
  lemma TracksOverloaded(st: State, sample: S16)
    requires Overloaded(st, sample)
    ensures var next := EncoderAdvance(st, sample);
            && Abs(sample - next.predictor) <= Abs(sample - st.predictor) - 7
            && (st.predictor < sample ==> st.predictor < next.predictor <= sample)
            && (st.predictor > sample ==> sample <= next.predictor < st.predictor)
            && next.index == ClampIndex(st.index + 8)
  {
    hide StepAt, Delta, Quantize, Clamp;
    var step := StepAt(st.index);
    StepsAgree(st, sample);
    var code := CodeOf(st, sample);
    QuantizeOverloaded(step, sample - st.predictor);
    var x := st.predictor + Delta(step, code);
    ClampHelps(x, sample);
    ClampKeeps(x, st.predictor, sample);
    assert code == 7 || code == 15;
    assert INDEX_TABLE[code] == 8;
  }

  /** Clamping a value between two s16 values does nothing. */
  lemma ClampKeeps(x: int, a: S16, b: S16)
    ensures a <= x <= b || b <= x <= a ==> Clamp(x) == x
  {
  }

  // A constant input

  function Held(st: State, sample: S16, n: nat): State {
    if n == 0 then st else EncoderAdvance(Held(st, sample, n - 1), sample)
  }

  lemma {:induction false} OverloadClimbs(st: State, sample: S16, n: nat)
    requires forall k :: 0 <= k < n ==> Overloaded(Held(st, sample, k), sample)
    ensures Held(st, sample, n).index == ClampIndex(st.index + 8 * n)
    ensures Abs(sample - Held(st, sample, n).predictor) <= Abs(sample - st.predictor) - 7 * n
  {
    hide EncoderAdvance, Overloaded;
    if n > 0 {
      OverloadClimbs(st, sample, n - 1);
      TracksOverloaded(Held(st, sample, n - 1), sample);
    }
  }

  /** On a constant input, from any valid state, overload lasts at most eleven
      consecutive samples. */
  lemma OverloadEnds(st: State, sample: S16)
    ensures exists k :: 0 <= k < 12 && !Overloaded(Held(st, sample, k), sample)
  {
    hide EncoderAdvance, StepAt, Held;
    if forall k :: 0 <= k < 12 ==> Overloaded(Held(st, sample, k), sample) {
      OverloadClimbs(st, sample, 11);
      assert Overloaded(Held(st, sample, 11), sample);
      TopStep(Held(st, sample, 11));
    }
  }

  /** Steps rise, each to at most twice its predecessor. */
  predicate StepsClose(i: int) { 0 < i <= 88 ==> StepAt(i - 1) <= StepAt(i) <= 2 * StepAt(i - 1) }

  lemma LowSteps(i: Index)
    requires i < 32
    ensures StepsClose(i)
  {
  }

  lemma MiddleSteps(i: Index)
    requires 32 <= i < 64
    ensures StepsClose(i)
  {
  }

  lemma HighSteps(i: Index)
    requires 64 <= i
    ensures StepsClose(i)
  {
  }

  lemma StepsNear(i: Index)
    ensures StepsClose(i)
  {
    hide StepsClose;
    if i < 32 { LowSteps(i); } else if i < 64 { MiddleSteps(i); } else { HighSteps(i); }
  }

  lemma {:induction false} StepsRise(i: Index, j: Index)
    requires i <= j
    ensures StepAt(i) <= StepAt(j)
    decreases j - i
  {
    hide StepAt;
    if i < j {
      StepsRise(i, j - 1);
      StepsNear(j);
    }
  }

  /** Once the input is within reach it stays within reach. */
  lemma InRangeStays(st: State, sample: S16)
    requires !Overloaded(st, sample)
    ensures !Overloaded(EncoderAdvance(st, sample), sample)
  {
    TracksInRange(st, sample);
    var next := EncoderAdvance(st, sample);
    assert next.index >= st.index - 1;
    hide EncoderAdvance, StepAt;
    if st.index > 0 {
      StepsNear(st.index);
      StepsRise(st.index - 1, next.index);
    }
  }

  lemma {:induction false} RangeKept(st: State, sample: S16, n: nat, k: nat)
    requires n <= k && !Overloaded(Held(st, sample, n), sample)
    ensures !Overloaded(Held(st, sample, k), sample)
    decreases k
  {
    hide EncoderAdvance, Overloaded;
    if n < k {
      RangeKept(st, sample, n, k - 1);
      InRangeStays(Held(st, sample, k - 1), sample);
    }
  }

  /** On a constant input overload is exactly the first n samples, for some n of at
      most eleven, and never returns. */
  lemma OverloadIsInitial(st: State, sample: S16)
    ensures exists n :: 0 <= n <= 11 && OverloadedUntil(st, sample, n)
  {
    hide EncoderAdvance, Overloaded, Held;
    OverloadEnds(st, sample);
    var n := 0;
    while Overloaded(Held(st, sample, n), sample)
      invariant 0 <= n <= 11 && forall k :: 0 <= k < n ==> Overloaded(Held(st, sample, k), sample)
      decreases 11 - n
    {
      n := n + 1;
    }
    forall k: nat | n <= k ensures !Overloaded(Held(st, sample, k), sample) { RangeKept(st, sample, n, k); }
    assert OverloadedUntil(st, sample, n);
  }

  ghost predicate OverloadedUntil(st: State, sample: S16, n: nat) {
    forall k: nat :: Overloaded(Held(st, sample, k), sample) <==> k < n
  }

  lemma TopStep(st: State)
    requires st.index == 88
    ensures StepOf(st) == 32767
  {
  }

  /** An overloaded step towards the top rail, spelled out. */
  lemma Jump(p: S16, index: Index, step: Step)
    requires StepAt(index) == step && 32767 - p >= 2 * step
    ensures Overloaded(State(p, index), 32767)
    ensures EncoderAdvance(State(p, index), 32767)
         == State(p + step + step / 2 + step / 4 + step / 8, ClampIndex(index + 8))
  {
    hide StepAt, ClampIndex;
    TopCode(step, 32767 - p);
    hide Quantize;
  }

  lemma TopCode(step: Step, difference: int)
    requires difference >= 2 * step
    ensures Quantize(step, difference) == Choice(7, step + step / 2 + step / 4 + step / 8)
  {
  }

  lemma EveryEighthStep()
    ensures StepAt(0) == 7 && StepAt(8) == 16 && StepAt(16) == 34 && StepAt(24) == 73
    ensures StepAt(32) == 157 && StepAt(40) == 337 && StepAt(48) == 724 && StepAt(56) == 1552
    ensures StepAt(64) == 3327 && StepAt(72) == 7132 && StepAt(80) == 15289
  {
  }

  /** Eleven is reached: from the bottom rail at the smallest step, a jump to the
      top rail overloads the quantizer for exactly eleven samples. */
  lemma ElevenIsReached()
    ensures forall k :: 0 <= k < 11 ==> Overloaded(Held(State(-32768, 0), 32767, k), 32767)
    ensures !Overloaded(Held(State(-32768, 0), 32767, 11), 32767)
  {
    hide EncoderAdvance, Overloaded, StepAt;
    var st: State, top: S16 := State(-32768, 0), 32767;
    EveryEighthStep();
    Jump(-32768, 0, 7);
    assert Held(st, top, 0) == st;
    assert Held(st, top, 1) == State(-32757, 8);
    Jump(-32757, 8, 16);
    assert Held(st, top, 2) == State(-32727, 16);
    Jump(-32727, 16, 34);
    assert Held(st, top, 3) == State(-32664, 24);
    Jump(-32664, 24, 73);
    assert Held(st, top, 4) == State(-32528, 32);
    Jump(-32528, 32, 157);
    assert Held(st, top, 5) == State(-32235, 40);
    Jump(-32235, 40, 337);
    assert Held(st, top, 6) == State(-31604, 48);
    Jump(-31604, 48, 724);
    assert Held(st, top, 7) == State(-30247, 56);
    Jump(-30247, 56, 1552);
    assert Held(st, top, 8) == State(-27337, 64);
    Jump(-27337, 64, 3327);
    assert Held(st, top, 9) == State(-21101, 72);
    Jump(-21101, 72, 7132);
    assert Held(st, top, 10) == State(-7729, 80);
    Jump(-7729, 80, 15289);
    assert Held(st, top, 11) == State(20937, 88);
    InReach(State(20937, 88));
  }

  lemma InReach(st: State)
    requires st == State(20937, 88)
    ensures !Overloaded(st, 32767)
  {
    TopStep(st);
  }
}
