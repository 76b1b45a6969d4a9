/**
  Checkpointed continuous IMA ADPCM (tools/ima_adpcm.py): the encoder and decoder
  loops, the chunk format, and the lockstep between them.
*/
module Adpcm {
  import opened Arith

  type S16 = x: int | -32768 <= x <= 32767 witness 0

  type Step = n: nat | 7 <= n <= 32767 witness 7

  type Nibble = c: nat | c < 16 witness 0

  const STEP_TABLE: seq<Step> :=
    [7, 8, 9, 10, 11, 12, 13, 14]
    + [16, 17, 19, 21, 23, 25, 28, 31]
    + [34, 37, 41, 45, 50, 55, 60, 66]
    + [73, 80, 88, 97, 107, 118, 130, 143]
    + [157, 173, 190, 209, 230, 253, 279, 307]
    + [337, 371, 408, 449, 494, 544, 598, 658]
    + [724, 796, 876, 963, 1060, 1166, 1282, 1411]
    + [1552, 1707, 1878, 2066, 2272, 2499, 2749, 3024]
    + [3327, 3660, 4026, 4428, 4871, 5358, 5894, 6484]
    + [7132, 7845, 8630, 9493, 10442, 11487, 12635, 13899]
    + [15289, 16818, 18500, 20350, 22385, 24623, 27086, 29794]
    + [32767]

  const INDEX_TABLE: seq<int> := [-1, -1, -1, -1, 2, 4, 6, 8, -1, -1, -1, -1, 2, 4, 6, 8]

  type Index = i: nat | i <= 88 witness 0

  function StepAt(i: Index): Step { STEP_TABLE[i] }

  datatype State = State(predictor: S16, index: Index)

  function Clamp(x: int): S16 { Max(-32768, Min(32767, x)) }

  function ClampIndex(i: int): Index { Max(0, Min(88, i)) }

  predicate Bit(code: Nibble, weight: nat)
    requires weight > 0
  {
    code / weight % 2 == 1
  }

  /** _delta: the signed change a code stands for. */
  function Delta(step: Step, code: Nibble): int {
    var magnitude := step / 8
                     + (if Bit(code, 4) then step else 0)
                     + (if Bit(code, 2) then step / 2 else 0)
                     + (if Bit(code, 1) then step / 4 else 0);
    if Bit(code, 8) then -magnitude else magnitude
  }

  /** One decoder step. */
  function Advance(st: State, code: Nibble): State {
    State(Clamp(st.predictor + Delta(StepAt(st.index), code)),
          ClampIndex(st.index + INDEX_TABLE[code]))
  }

  datatype Choice = Choice(code: Nibble, magnitude: int)

  /** The encoder's successive comparisons of a difference with the step. */
  function Quantize(step: Step, difference: int): Choice {
    var sign := if difference < 0 then 8 else 0;
    var d0: nat := if difference < 0 then -difference else difference;
    var b4 := d0 >= step;
    var d1 := if b4 then d0 - step else d0;
    var b2 := d1 >= step / 2;
    var d2 := if b2 then d1 - step / 2 else d1;
    var b1 := d2 >= step / 4;
    Choice(sign + (if b4 then 4 else 0) + (if b2 then 2 else 0) + (if b1 then 1 else 0),
           step / 8 + (if b4 then step else 0) + (if b2 then step / 2 else 0) + (if b1 then step / 4 else 0))
  }

  /** One encoder step, with the encoder's own running predictor. */
  function EncoderAdvance(st: State, sample: S16): State {
    var choice := Quantize(StepAt(st.index), sample - st.predictor);
    State(Clamp(st.predictor + (if Bit(choice.code, 8) then -choice.magnitude else choice.magnitude)),
          ClampIndex(st.index + INDEX_TABLE[choice.code]))
  }

  function CodeOf(st: State, sample: S16): Nibble {
    Quantize(StepAt(st.index), sample - st.predictor).code
  }

  /** The magnitude the encoder adds up is the one its code stands for. */
  lemma QuantizeIsDelta(step: Step, difference: int)
    ensures var c := Quantize(step, difference);
            Delta(step, c.code) == if difference < 0 then -c.magnitude else c.magnitude
    ensures Bit(Quantize(step, difference).code, 8) <==> difference < 0
  {
  }

  /** What the bits of a code add up to, without the constant eighth. */
  function Parts(step: Step, code: nat): nat {
    (if code / 4 % 2 == 1 then step else 0) + (if code / 2 % 2 == 1 then step / 2 else 0)
    + if code % 2 == 1 then step / 4 else 0
  }

  /** The code is the greatest one whose parts do not exceed the difference. */
  lemma QuantizeIsGreatest(step: Step, difference: int, other: nat)
    requires other < 8
    ensures var code, d := Quantize(step, difference).code, if difference < 0 then -difference else difference;
            && (code >= 8 <==> difference < 0)
            && Parts(step, code % 8) <= d && (Parts(step, other) <= d ==> other <= code % 8)
  {
  }

  /** So encoder and decoder take the same step. */
  lemma StepsAgree(st: State, sample: S16)
    ensures EncoderAdvance(st, sample) == Advance(st, CodeOf(st, sample))
  {
    QuantizeIsDelta(StepAt(st.index), sample - st.predictor);
  }

  // Whole sequences

  /** The predictors a decoder produces. */
  function Decoded(codes: seq<Nibble>, st: State): (r: seq<S16>)
    ensures |r| == |codes|
  {
    if codes == [] then []
    else Decoded(codes[..|codes| - 1], st)
         + [Advance(After(codes[..|codes| - 1], st), codes[|codes| - 1]).predictor]
  }

  function After(codes: seq<Nibble>, st: State): State {
    if codes == [] then st else Advance(After(codes[..|codes| - 1], st), codes[|codes| - 1])
  }

  /** The encoder's state after each prefix of the samples. */
  function EncoderAfter(samples: seq<S16>, st: State): State {
    if samples == [] then st
    else EncoderAdvance(EncoderAfter(samples[..|samples| - 1], st), samples[|samples| - 1])
  }

  function Codes(samples: seq<S16>, st: State): (r: seq<Nibble>)
    ensures |r| == |samples|
  {
    if samples == [] then []
    else Codes(samples[..|samples| - 1], st)
         + [CodeOf(EncoderAfter(samples[..|samples| - 1], st), samples[|samples| - 1])]
  }

  function EncoderPredictors(samples: seq<S16>, st: State): (r: seq<S16>)
    ensures |r| == |samples|
  {
    if samples == [] then []
    else EncoderPredictors(samples[..|samples| - 1], st) + [EncoderAfter(samples, st).predictor]
  }

  /** Lockstep: decoding the codes gives the encoder's predictors and final state. */
  lemma {:induction false} Lockstep(samples: seq<S16>, st: State)
    ensures After(Codes(samples, st), st) == EncoderAfter(samples, st)
    ensures Decoded(Codes(samples, st), st) == EncoderPredictors(samples, st)
  {
    if samples != [] {
      var init, last := samples[..|samples| - 1], samples[|samples| - 1];
      Lockstep(init, st);
      StepsAgree(EncoderAfter(init, st), last);
      assert Codes(samples, st)[..|samples| - 1] == Codes(init, st);
    }
  }

  lemma {:induction false} AfterSplit(a: seq<Nibble>, b: seq<Nibble>, st: State)
    ensures After(a + b, st) == After(b, After(a, st))
    ensures Decoded(a + b, st) == Decoded(a, st) + Decoded(b, After(a, st))
  {
    hide Advance, After, Decoded;
    if b == [] {
      assert a + b == a;
      DecodedNone(st);
      DecodedNone(After(a, st));
    } else {
      var init, last := b[..|b| - 1], b[|b| - 1];
      AfterSplit(a, init, st);
      DecodedNext(a + init, last, st);
      DecodedNext(init, last, After(a, st));
      assert a + b == (a + init) + [last] && b == init + [last];
    }
  }

  lemma DecodedNext(codes: seq<Nibble>, code: Nibble, st: State)
    ensures After(codes + [code], st) == Advance(After(codes, st), code)
    ensures Decoded(codes + [code], st) == Decoded(codes, st) + [Advance(After(codes, st), code).predictor]
  {
    hide Advance;
    assert (codes + [code])[..|codes|] == codes;
  }

  lemma EncodedNext(samples: seq<S16>, n: nat, st: State)
    requires n < |samples|
    ensures EncoderAfter(samples[..n + 1], st) == EncoderAdvance(EncoderAfter(samples[..n], st), samples[n])
    ensures Codes(samples[..n + 1], st)
            == Codes(samples[..n], st) + [CodeOf(EncoderAfter(samples[..n], st), samples[n])]
  {
    hide EncoderAdvance, CodeOf;
    assert samples[..n + 1][..n] == samples[..n];
  }

  // Packing two codes to a byte, low nibble first

  function Pack(codes: seq<Nibble>): (r: seq<Byte>)
    ensures |r| == (|codes| + 1) / 2
  {
    if codes == [] then []
    else if |codes| == 1 then [codes[0]]
    else [Joined(codes[0], codes[1])] + Pack(codes[2..])
  }

  function Joined(low: int, high: int): int { low + 16 * high }

  function NibbleAt(data: seq<Byte>, n: nat): Nibble
    requires n < 2 * |data|
  {
    if n % 2 == 0 then data[n / 2] % 16 else data[n / 2] / 16
  }

  /** The first `count` codes of packed data. */
  function Unpack(data: seq<Byte>, count: nat): (r: seq<Nibble>)
    requires count <= 2 * |data|
    ensures |r| == count
  {
    seq(count, n requires 0 <= n < count => NibbleAt(data, n))
  }

  lemma {:induction false} UnpackPack(codes: seq<Nibble>)
    ensures Unpack(Pack(codes), |codes|) == codes
  {
    if |codes| >= 2 {
      UnpackPack(codes[2..]);
      var p, rest := Pack(codes), Pack(codes[2..]);
      forall n | 0 <= n < |codes| ensures NibbleAt(p, n) == codes[n] {
        if n >= 2 {
          assert p[n / 2] == rest[(n - 2) / 2];
          assert Unpack(rest, |codes| - 2)[n - 2] == codes[2..][n - 2];
        }
      }
    }
  }

  lemma {:induction false} PackConcat(a: seq<Nibble>, b: seq<Nibble>)
    requires |a| % 2 == 0
    ensures Pack(a + b) == Pack(a) + Pack(b)
  {
    if a == [] {
      assert a + b == b;
    } else {
      assert (a + b)[2..] == a[2..] + b;
      PackConcat(a[2..], b);
    }
  }

  /** A nibble of the packed form, whatever the parity of the length. */
  lemma {:induction false} PackAt(codes: seq<Nibble>, k: nat)
    requires k < |Pack(codes)|
    ensures Pack(codes)[k] == PartByte(codes, k)
  {
    if |codes| >= 2 && k > 0 {
      PackAt(codes[2..], k - 1);
    }
  }

  // The loops

  /** encode_samples: codes are or-ed into a byte buffer as they are chosen. */
  method EncodeSamples(samples: seq<S16>, state: State) returns (packed: seq<Byte>, final: State)
    ensures packed == Pack(Codes(samples, state))
    ensures final == EncoderAfter(samples, state)
  {
    hide StepAt, Pack, Codes, EncoderAfter, EncoderAdvance, CodeOf, Quantize, Clamp, ClampIndex, Bit, PartlyPacked;
    EncodedNone(state);
    var predictor: S16, index: Index := state.predictor, state.index;
    var out := new Byte[(|samples| + 1) / 2](_ => 0);
    NothingPacked(out[..]);
    for n := 0 to |samples|
      invariant State(predictor, index) == EncoderAfter(samples[..n], state)
      invariant PartlyPacked(out[..], Codes(samples[..n], state))
    {
      EncodedNext(samples, n, state);
      EncoderStep(State(predictor, index), samples[n]);
      ghost var bytes := out[..];
      var step := StepAt(index);
      var choice := Quantize(step, samples[n] - predictor);
      PackedNext(bytes, Codes(samples[..n], state), choice.code);
      predictor := Clamp(predictor + (if Bit(choice.code, 8) then -choice.magnitude else choice.magnitude));
      index := ClampIndex(index + INDEX_TABLE[choice.code]);
      if n % 2 == 1 {
        out[n / 2] := Joined(out[n / 2], choice.code);
        assert out[..] == bytes[n / 2 := Joined(bytes[n / 2], choice.code)];
      } else {
        out[n / 2] := choice.code;
        assert out[..] == bytes[n / 2 := choice.code];
      }
    }
    assert samples[..|samples|] == samples;
    packed := out[..];
    AllPacked(packed, Codes(samples, state));
    final := State(predictor, index);
  }

  lemma EncoderStep(st: State, sample: S16)
    ensures var choice := Quantize(StepAt(st.index), sample - st.predictor);
            && EncoderAdvance(st, sample)
               == State(Clamp(st.predictor + (if Bit(choice.code, 8) then -choice.magnitude else choice.magnitude)),
                        ClampIndex(st.index + INDEX_TABLE[choice.code]))
            && CodeOf(st, sample) == choice.code
  {
    hide Quantize, Clamp, ClampIndex, Bit, StepAt;
  }

  /** The bytes that the codes so far reach. */
  ghost predicate PartlyPacked(bytes: seq<Byte>, codes: seq<Nibble>) {
    |codes| <= 2 * |bytes| && forall k :: 0 <= k < (|codes| + 1) / 2 ==> bytes[k] == PartByte(codes, k)
  }

  lemma NothingPacked(bytes: seq<Byte>)
    ensures PartlyPacked(bytes, [])
  {
  }

  lemma PackedNext(bytes: seq<Byte>, codes: seq<Nibble>, code: Nibble)
    requires PartlyPacked(bytes, codes) && |codes| < 2 * |bytes|
    ensures var h := |codes| / 2;
            if |codes| % 2 == 1
            then 0 <= Joined(bytes[h], code) < 256
                 && PartlyPacked(bytes[h := Joined(bytes[h], code)], codes + [code])
            else PartlyPacked(bytes[h := code], codes + [code])
  {
    var h := |codes| / 2;
    if |codes| % 2 == 1 { assert bytes[h] == PartByte(codes, h); }
  }

  lemma AllPacked(bytes: seq<Byte>, codes: seq<Nibble>)
    requires PartlyPacked(bytes, codes) && |bytes| == (|codes| + 1) / 2
    ensures bytes == Pack(codes)
  {
    hide PartByte, Pack;
    forall k | 0 <= k < |bytes| ensures bytes[k] == Pack(codes)[k] { PackAt(codes, k); }
  }

  lemma EncodedNone(st: State)
    ensures EncoderAfter([], st) == st && Codes([], st) == [] && EncoderPredictors([], st) == []
  {
  }

  /** A byte of which perhaps only the low nibble is known yet. */
  function PartByte(codes: seq<Nibble>, k: nat): int
    requires 2 * k < |codes|
  {
    if 2 * k + 1 < |codes| then Joined(codes[2 * k], codes[2 * k + 1]) else codes[2 * k]
  }

  /** decode_samples; None when more samples are asked for than are packed. */
  method DecodeSamples(data: seq<Byte>, sampleCount: int, state: State) returns (r: Option<(seq<S16>, State)>)
    ensures r.Some? <==> 0 <= sampleCount <= 2 * |data|
    ensures r.Some? ==> r.value.0 == Decoded(Unpack(data, sampleCount), state)
    ensures r.Some? ==> r.value.1 == After(Unpack(data, sampleCount), state)
  {
    if sampleCount < 0 || sampleCount > 2 * |data| { return None; }
    hide StepAt, Delta, Clamp, ClampIndex, After, Decoded, Unpack;
    DecodedNone(state);
    assert Unpack(data, 0) == [];
    var predictor: S16, index: Index := state.predictor, state.index;
    var out := new S16[sampleCount](_ => 0);
    for n := 0 to sampleCount
      invariant State(predictor, index) == After(Unpack(data, n), state)
      invariant out[..n] == Decoded(Unpack(data, n), state)
    {
      UnpackNext(data, n);
      DecodedNext(Unpack(data, n), NibbleAt(data, n), state);
      var byte := data[n / 2];
      var code: Nibble := if n % 2 == 0 then byte % 16 else byte / 16;
      predictor := Clamp(predictor + Delta(StepAt(index), code));
      index := ClampIndex(index + INDEX_TABLE[code]);
      out[n] := predictor;
      assert out[..n + 1] == out[..n] + [predictor];
    }
    r := Some((out[..], State(predictor, index)));
    assert out[..] == out[..sampleCount];
  }

  lemma DecodedNone(st: State)
    ensures After([], st) == st && Decoded([], st) == []
  {
  }

  lemma UnpackNext(data: seq<Byte>, n: nat)
    requires n < 2 * |data|
    ensures Unpack(data, n + 1) == Unpack(data, n) + [NibbleAt(data, n)]
  {
  }

  // Checkpointed chunks

  const CHECKPOINT_BYTES: nat := 4

  /** Big-endian s16 predictor, step index, and a reserved zero. */
  function Checkpoint(st: State): (r: seq<Byte>)
    ensures |r| == CHECKPOINT_BYTES
  {
    var word := if st.predictor < 0 then st.predictor + 65536 else st.predictor;
    [word / 256, word % 256, st.index, 0]
  }

  function CheckpointPredictor(high: Byte, low: Byte): S16 {
    var word: int := Joined256(high, low);
    if word >= 32768 then word - 65536 else word
  }

  function Joined256(high: int, low: int): int { high * 256 + low }

  datatype ChunkResult = Chunk(samples: seq<S16>, final: State) | BadCount | BadLength | BadReserved | BadIndex

  predicate ValidCount(count: int) { count > 0 && count % 2 == 0 }

  function EncodedBytes(count: nat): nat { CHECKPOINT_BYTES + count / 2 }

  method EncodeChunk(samples: seq<S16>, state: State) returns (r: Option<(seq<Byte>, State)>)
    ensures r.Some? <==> |samples| > 0 && |samples| % 2 == 0
    ensures r.Some? ==> r.value.0 == Checkpoint(state) + Pack(Codes(samples, state))
    ensures r.Some? ==> |r.value.0| == 4 + |samples| / 2
    ensures r.Some? ==> r.value.1 == EncoderAfter(samples, state)
  {
    if !ValidCount(|samples|) { return None; }
    var packed, final := EncodeSamples(samples, state);
    r := Some((Checkpoint(state) + packed, final));
  }

  method DecodeChunk(chunk: seq<Byte>, sampleCount: int) returns (r: ChunkResult)
    ensures r.BadCount? <==> sampleCount <= 0 || sampleCount % 2 == 1
    ensures r.BadLength? <==> !r.BadCount? && |chunk| != 4 + sampleCount / 2
    ensures r.BadReserved? <==> !r.BadCount? && !r.BadLength? && chunk[3] != 0
    ensures r.BadIndex? <==> !r.BadCount? && !r.BadLength? && chunk[3] == 0 && chunk[2] > 88
    ensures r.Chunk? ==>
              var st := State(CheckpointPredictor(chunk[0], chunk[1]), chunk[2]);
              r == Chunk(Decoded(Unpack(chunk[4..], sampleCount), st), After(Unpack(chunk[4..], sampleCount), st))
  {
    hide Decoded, After, Unpack;
    if !ValidCount(sampleCount) { return BadCount; }
    if |chunk| != EncodedBytes(sampleCount) { return BadLength; }
    if chunk[3] != 0 { return BadReserved; }
    if chunk[2] > 88 { return BadIndex; }
    var decoded := DecodeSamples(chunk[4..], sampleCount, State(CheckpointPredictor(chunk[0], chunk[1]), chunk[2]));
    r := Chunk(decoded.value.0, decoded.value.1);
  }

  lemma CheckpointRestores(st: State)
    ensures var c := Checkpoint(st); State(CheckpointPredictor(c[0], c[1]), c[2]) == st && c[3] == 0
  {
  }

  /** A chunk carries everything its decoding needs: decoded alone it gives the
      encoder's predictors and final state. */
  lemma ChunkIsIndependent(samples: seq<S16>, state: State, chunk: seq<Byte>)
    requires chunk == Checkpoint(state) + Pack(Codes(samples, state))
    requires |samples| > 0 && |samples| % 2 == 0
    ensures |chunk| == 4 + |samples| / 2 && chunk[3] == 0 && chunk[2] <= 88
    ensures var st := State(CheckpointPredictor(chunk[0], chunk[1]), chunk[2]);
            && st == state
            && Decoded(Unpack(chunk[4..], |samples|), st) == EncoderPredictors(samples, state)
            && After(Unpack(chunk[4..], |samples|), st) == EncoderAfter(samples, state)
  {
    hide Decoded, After, Codes, Pack, Unpack, Checkpoint, CheckpointPredictor;
    CheckpointRestores(state);
    assert chunk[4..] == Pack(Codes(samples, state));
    UnpackPack(Codes(samples, state));
    Lockstep(samples, state);
  }

  lemma {:induction false} EncoderSplit(a: seq<S16>, b: seq<S16>, st: State)
    ensures EncoderAfter(a + b, st) == EncoderAfter(b, EncoderAfter(a, st))
    ensures Codes(a + b, st) == Codes(a, st) + Codes(b, EncoderAfter(a, st))
    ensures EncoderPredictors(a + b, st) == EncoderPredictors(a, st) + EncoderPredictors(b, EncoderAfter(a, st))
  {
    hide EncoderAdvance, CodeOf, EncoderAfter, Codes, EncoderPredictors;
    if b == [] {
      assert a + b == a;
      EncodedNone(EncoderAfter(a, st));
    } else {
      var init, last := b[..|b| - 1], b[|b| - 1];
      EncoderSplit(a, init, st);
      EncoderNext(a + init, last, st);
      EncoderNext(init, last, EncoderAfter(a, st));
      assert a + b == (a + init) + [last] && b == init + [last];
    }
  }

  lemma EncoderNext(samples: seq<S16>, sample: S16, st: State)
    ensures EncoderAfter(samples + [sample], st) == EncoderAdvance(EncoderAfter(samples, st), sample)
    ensures Codes(samples + [sample], st) == Codes(samples, st) + [CodeOf(EncoderAfter(samples, st), sample)]
    ensures EncoderPredictors(samples + [sample], st)
         == EncoderPredictors(samples, st) + [EncoderAfter(samples + [sample], st).predictor]
  {
    hide EncoderAdvance, CodeOf;
    assert (samples + [sample])[..|samples|] == samples;
  }

  // The RF5C164 output

  /** Two consecutive payloads read as one stream: one continuous decode is the
      first chunk's followed by the second's from its own checkpoint. */
  lemma ContinuousDecode(a: seq<S16>, b: seq<S16>, st: State)
    requires |a| % 2 == 0
    ensures var mid := EncoderAfter(a, st);
            var payload := Pack(Codes(a, st)) + Pack(Codes(b, mid));
            && |a| + |b| <= 2 * |payload|
            && Decoded(Unpack(payload, |a| + |b|), st) == Decoded(Codes(a, st), st) + Decoded(Codes(b, mid), mid)
            && After(Unpack(payload, |a| + |b|), st) == EncoderAfter(a + b, st)
  {
    hide Pack, Unpack, Codes, EncoderAfter, Decoded, After;
    var mid := EncoderAfter(a, st);
    PackConcat(Codes(a, st), Codes(b, mid));
    EncoderSplit(a, b, st);
    UnpackPack(Codes(a + b, st));
    AfterSplit(Codes(a, st), Codes(b, mid), st);
    Lockstep(a, st);
    Lockstep(a + b, st);
  }

  /** s16 to sign-magnitude: the high byte, clipped to 0x7F up and 0x7E down. */
  function SignMagnitude(sample: S16): (b: Byte)
    ensures b != 0xFF
  {
    var high := sample / 256;
    if high >= 0 then Min(high, 0x7F) else 0x80 + Min(-high, 0x7E)
  }

  /** The playback side: sign-magnitude bytes as linear samples. */
  function Linear(b: Byte): int { (if b >= 128 then -(b % 128) else b % 128) * 256 }

  /** Playback gives back the sample's high byte; below -126 it stops there.  The
      sign bit is set for negative samples only. */
  lemma LinearOfSignMagnitude(sample: S16)
    ensures Linear(SignMagnitude(sample)) == 256 * Max(-126, sample / 256)
    ensures SignMagnitude(sample) >= 128 <==> sample < 0
  {
  }

  function SignMagnitudes(samples: seq<S16>): (r: seq<Byte>)
    ensures |r| == |samples|
    ensures forall i :: 0 <= i < |r| ==> r[i] != 0xFF
  {
    seq(|samples|, i requires 0 <= i < |samples| => SignMagnitude(samples[i]))
  }

  /** State before the sample at `start`, in one continuous encoding. */
  function StateAt(samples: seq<S16>, start: nat): State
    requires start <= |samples|
  {
    EncoderAfter(samples[..start], State(0, 0))
  }

  function Piece<T>(samples: seq<T>, start: nat, size: nat): (r: seq<T>)
    requires start + size <= |samples|
    ensures |r| == size
  {
    samples[start..][..size]
  }

  /** A control chunk begins with the continuous state at its start, and its
      output is that slice of the continuous decode. */
  ghost predicate ChunkHolds(samples: seq<S16>, start: nat, size: nat, control: seq<Byte>, output: seq<Byte>)
  {
    && start + size <= |samples|
    && control == Checkpoint(StateAt(samples, start))
                  + Pack(Codes(Piece(samples, start, size), StateAt(samples, start)))
    && output == SignMagnitudes(Piece(EncoderPredictors(samples, State(0, 0)), start, size))
  }

  ghost predicate ChunksHold(samples: seq<S16>, size: nat, controls: seq<seq<Byte>>, outputs: seq<seq<Byte>>) {
    && |controls| == |outputs|
    && forall i :: 0 <= i < |controls| ==> ChunkHolds(samples, i * size, size, controls[i], outputs[i])
  }

  lemma ChunkStep(samples: seq<S16>, start: nat, size: nat)
    requires start + size <= |samples|
    ensures StateAt(samples, start + size) == EncoderAfter(Piece(samples, start, size), StateAt(samples, start))
  {
    hide EncoderAfter, Codes, EncoderPredictors, EncoderAdvance, CodeOf;
    EncoderSplit(samples[..start], Piece(samples, start, size), State(0, 0));
    assert samples[..start] + Piece(samples, start, size) == samples[..start + size];
  }

  lemma ChunkPredictors(samples: seq<S16>, start: nat, size: nat)
    requires start + size <= |samples|
    ensures Piece(EncoderPredictors(samples, State(0, 0)), start, size)
         == EncoderPredictors(Piece(samples, start, size), StateAt(samples, start))
  {
    hide EncoderAfter, Codes, EncoderPredictors, EncoderAdvance, CodeOf, Piece;
    var a, b, c := samples[..start], Piece(samples, start, size), samples[start + size..];
    EncoderSplit(a, b, State(0, 0));
    EncoderSplit(a + b, c, State(0, 0));
    Cut(samples, start, size);
    Middle(EncoderPredictors(a, State(0, 0)), EncoderPredictors(b, EncoderAfter(a, State(0, 0))),
           EncoderPredictors(c, EncoderAfter(a + b, State(0, 0))));
  }

  lemma Cut<T>(s: seq<T>, start: nat, size: nat)
    requires start + size <= |s|
    ensures s[..start] + Piece(s, start, size) + s[start + size..] == s
  {
    assert s[..start] + Piece(s, start, size) == s[..start + size];
  }

  lemma Middle<T>(x: seq<T>, y: seq<T>, z: seq<T>)
    ensures Piece(x + y + z, |x|, |y|) == y
  {
  }

  /** encode_decode_chunks: encode continuously, decode every chunk on its own,
      and compare states.  The comparison never fails. */
  method EncodeDecodeChunks(samples: seq<S16>, samplesPerChunk: int)
    returns (r: Option<(seq<seq<Byte>>, seq<seq<Byte>>)>)
    ensures r.Some? <==> samplesPerChunk > 0 && samplesPerChunk % 2 == 0 && |samples| % samplesPerChunk == 0
    ensures r.Some? ==> |r.value.0| == |samples| / samplesPerChunk
    ensures r.Some? ==> ChunksHold(samples, samplesPerChunk, r.value.0, r.value.1)
  {
    hide Decoded, After, Codes, Pack, Unpack, EncoderAfter, EncoderPredictors, Checkpoint, ChunkHolds, Piece;
    if !ValidCount(samplesPerChunk) || |samples| % samplesPerChunk != 0 { return None; }
    var size: nat := samplesPerChunk;
    var controls: seq<seq<Byte>>, outputs: seq<seq<Byte>> := [], [];
    var state, start: nat := State(0, 0), 0;
    ghost var frames := |samples| / size;
    FirstState(samples);
    while start < |samples|
      invariant start == |controls| * size && start <= |samples| == frames * size
      invariant |controls| <= frames
      invariant state == StateAt(samples, start)
      invariant ChunksHold(samples, size, controls, outputs)
      decreases |samples| - start
    {
      Fits(|controls|, frames, size);
      ChunkStep(samples, start, size);
      ChunkPredictors(samples, start, size);
      ghost var before := state;
      var piece := Piece(samples, start, size);
      var encoded := EncodeChunk(piece, state);
      var chunk := encoded.value.0;
      state := encoded.value.1;
      var decoded := DecodeChunk(chunk, size);
      ChunkIsIndependent(piece, before, chunk);
      assert decoded.Chunk? && decoded.final == state;  // the source's state-mismatch error is unreachable
      HoldsHere(samples, start, size, chunk, SignMagnitudes(decoded.samples));
      controls := controls + [chunk];
      outputs := outputs + [SignMagnitudes(decoded.samples)];
      start := start + size;
    }
    Fits(|controls|, frames, size);
    r := Some((controls, outputs));
  }

  lemma FirstState(samples: seq<S16>)
    ensures StateAt(samples, 0) == State(0, 0)
  {
    assert samples[..0] == [];
  }

  lemma Fits(done: nat, frames: nat, size: nat)
    requires done <= frames && size > 0
    ensures (done + 1) * size == done * size + size
    ensures done * size < frames * size ==> done + 1 <= frames && done * size + size <= frames * size
    ensures done * size >= frames * size ==> done == frames
  {
    if done < frames {
      MulMono(done + 1, frames, size);
    }
  }

  lemma HoldsHere(samples: seq<S16>, start: nat, size: nat, chunk: seq<Byte>, output: seq<Byte>)
    requires start + size <= |samples|
    requires chunk == Checkpoint(StateAt(samples, start))
                      + Pack(Codes(Piece(samples, start, size), StateAt(samples, start)))
    requires output == SignMagnitudes(Piece(EncoderPredictors(samples, State(0, 0)), start, size))
    ensures ChunkHolds(samples, start, size, chunk, output)
  {
  }
}
