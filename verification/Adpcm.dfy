/**
 The IMA ADPCM recurrence shared by the encoder and the decoder of application/audio/adpcm.c
 (the DVI4 scheme of section 4.5.1 of RFC 3551).

 The encoder finds a 4-bit code with a greedy subtraction loop, the decoder rebuilds the difference
 from the bits of that code. This module states both steps on one sample, proves that they move the
 predictor in the same way, and bounds the error one step leaves behind.
 */
module Adpcm {
  type Sample = s: int | -32768 <= s <= 32767
  type Index = i: int | 0 <= i <= 88
  type Nibble = c: int | 0 <= c < 16

  /** The persistent variables `predict` and `predict_idx` of either side. */
  datatype State = State(predict: Sample, idx: Index)

  // ----- tables

  /** The rows of `steptbl` as it is laid out, ten entries each and nine in the last. */
  function Row(r: nat): seq<nat> {
    match r
    case 0 => [7, 8, 9, 10, 11, 12, 13, 14, 16, 17]
    case 1 => [19, 21, 23, 25, 28, 31, 34, 37, 41, 45]
    case 2 => [50, 55, 60, 66, 73, 80, 88, 97, 107, 118]
    case 3 => [130, 143, 157, 173, 190, 209, 230, 253, 279, 307]
    case 4 => [337, 371, 408, 449, 494, 544, 598, 658, 724, 796]
    case 5 => [876, 963, 1060, 1166, 1282, 1411, 1552, 1707, 1878, 2066]
    case 6 => [2272, 2499, 2749, 3024, 3327, 3660, 4026, 4428, 4871, 5358]
    case 7 => [5894, 6484, 7132, 7845, 8630, 9493, 10442, 11487, 12635, 13899]
    case _ => [15289, 16818, 18500, 20350, 22385, 24623, 27086, 29794, 32767]
  }

  /** Entry `i` of the rows from `r` on. Recursive so that a use of the table does not unfold all of it. */
  function SizeFrom(r: nat, i: nat): nat
    requires r <= 8 && 10 * r + i <= 88
    decreases i
  {
    if i < 10 then Row(r)[i] else SizeFrom(r + 1, i - 10)
  }

  /** `steptbl[i]` */
  function StepSize(i: Index): nat { SizeFrom(0, i) }

  /** `idxtbl` */
  function IndexShift(code: Nibble): int {
    match code
    case 4 | 12 => 2
    case 5 | 13 => 4
    case 6 | 14 => 6
    case 7 | 15 => 8
    case _ => -1
  }

  /** Step sizes grow strictly, but slowly enough that a settled error stays below the next smaller step. */
  predicate Grows(size: nat, next: nat) { 7 <= size < next <= 32767 && next / 8 + 2 < size }

  lemma RowShape(r: nat, i: nat)
    requires r <= 8 && 10 * r + i < 88 && i < 10
    ensures i < |Row(r)|
    ensures i < 9 ==> i + 1 < |Row(r)| && Grows(Row(r)[i], Row(r)[i + 1])
    ensures i == 9 ==> Grows(Row(r)[i], Row(r + 1)[0])
  {
  }

  lemma {:induction false} ShapeFrom(r: nat, i: nat)
    requires r <= 8 && 10 * r + i < 88
    ensures Grows(SizeFrom(r, i), SizeFrom(r, i + 1))
    decreases i
  {
    if i < 10 {
      RowShape(r, i);
      if i == 9 {
        assert SizeFrom(r, 10) == SizeFrom(r + 1, 0);
      }
    } else {
      ShapeFrom(r + 1, i - 10);
    }
  }

  lemma LastEntry(r: nat)
    requires r <= 8
    ensures SizeFrom(r, 88 - 10 * r) == 32767
    decreases 8 - r
  {
    if r == 8 {
    } else {
      LastEntry(r + 1);
    }
  }

  lemma StepTableShape(i: Index)
    ensures 7 <= StepSize(i) <= 32767
    ensures StepSize(0) == 7 && StepSize(1) == 8 && StepSize(88) == 32767
    ensures i < 88 ==> Grows(StepSize(i), StepSize(i + 1))
  {
    LastEntry(0);
    if i < 88 {
      ShapeFrom(0, i);
    }
  }

  lemma {:induction false} StepTableMonotone(i: Index, j: Index)
    requires i <= j
    ensures StepSize(i) <= StepSize(j)
    decreases j - i
  {
    if i == j {
    } else {
      StepTableShape(i);
      StepTableMonotone(i + 1, j);
    }
  }

  // ----- one step on either side

  function Abs(x: int): nat { if x < 0 then -x else x }

  function ClampPredict(p: int): Sample {
    if p > 32767 then 32767 else if p < -32768 then -32768 else p
  }

  function ClampIndex(i: int): Index {
    if i < 0 then 0 else if i > 88 then 88 else i
  }

  /** A code's magnitude bits and the difference they stand for, beside the fixed `step >> 3`. */
  datatype Quantum = Quantum(bits: nat, diffq: int)

  function Choose(b: bool, x: int): int { if b then x else 0 }

  const TOP_BIT: nat := 4

  /** The encoder's loop `for (j = 4; j > 0; j >>= 1)` from `j` on: subtract a step when it fits, then halve it. */
  function Greedy(diff: nat, step: nat, j: nat): (q: Quantum)
    ensures q.bits <= 2 * j && (j > 0 ==> q.bits < 2 * j)
    decreases j
  {
    if j == 0 then Quantum(0, 0)
    else if diff >= step then
      var q := Greedy(diff - step, step / 2, j / 2);
      Quantum(j + q.bits, step + q.diffq)
    else Greedy(diff, step / 2, j / 2)
  }

  /** The three rounds of the loop, written out. */
  lemma GreedyUnfolds(diff: nat, step: nat)
    ensures
      var b2 := diff >= step;
      var d1 := diff - Choose(b2, step);
      var b1 := d1 >= step / 2;
      var d0 := d1 - Choose(b1, step / 2);
      var b0 := d0 >= step / 2 / 2;
      Greedy(diff, step, TOP_BIT) ==
      Quantum(Choose(b2, 4) + Choose(b1, 2) + Choose(b0, 1),
              Choose(b2, step) + Choose(b1, step / 2) + Choose(b0, step / 2 / 2))
  {
    var d1 := diff - Choose(diff >= step, step);
    var d0 := d1 - Choose(d1 >= step / 2, step / 2);
    var q0 := Greedy(d0, step / 2 / 2, 1);
    assert q0 == Quantum(Choose(d0 >= step / 2 / 2, 1), Choose(d0 >= step / 2 / 2, step / 2 / 2));
    var q1 := Greedy(d1, step / 2, 2);
    assert q1 == Quantum(Choose(d1 >= step / 2, 2) + q0.bits, Choose(d1 >= step / 2, step / 2) + q0.diffq);
  }

  /** The code the encoder emits for sample `s`: the sign in bit 3, the greedy magnitude below it. */
  function Code(st: State, s: Sample): Nibble {
    var diff := s - st.predict;
    (if diff >= 0 then 0 else 8) + Greedy(Abs(diff), StepSize(st.idx), TOP_BIT).bits
  }

  /** The distance the encoder moves its predictor for sample `s`. */
  function EncoderDiffq(st: State, s: Sample): int {
    StepSize(st.idx) / 8 + Greedy(Abs(s - st.predict), StepSize(st.idx), TOP_BIT).diffq
  }

  /** The encoder's state after sample `s`. */
  function EncodeStep(st: State, s: Sample): State {
    var code := Code(st, s);
    var diffq := EncoderDiffq(st, s);
    State(ClampPredict(if code >= 8 then st.predict - diffq else st.predict + diffq),
          ClampIndex(st.idx + IndexShift(code)))
  }

  /** The step from its quantum, as the code puts it together. */
  lemma StepInParts(st: State, s: Sample, q: Quantum)
    requires q == Greedy(Abs(s - st.predict), StepSize(st.idx), TOP_BIT)
    ensures var sign, diffq := if s < st.predict then 8 else 0, StepSize(st.idx) / 8 + q.diffq;
            && sign + q.bits == Code(st, s)
            && EncodeStep(st, s) == State(
                 ClampPredict(if sign + q.bits >= 8 then st.predict - diffq else st.predict + diffq),
                 ClampIndex(st.idx + IndexShift(Code(st, s))))
  {
    hide Greedy, StepSize, IndexShift;
  }

  /** The decoder's tests `code & 8`, `code & 4`, `code & 2` and `code & 1`. */
  predicate Bit3(code: nat) { code / 8 % 2 == 1 }
  predicate Bit2(code: nat) { code / 4 % 2 == 1 }
  predicate Bit1(code: nat) { code / 2 % 2 == 1 }
  predicate Bit0(code: nat) { code % 2 == 1 }

  /** The distance the decoder reads off the bits of a code. */
  function DecoderDiffq(step: nat, code: nat): int {
    step / 8
    + (if Bit2(code) then step else 0)
    + (if Bit1(code) then step / 2 else 0)
    + (if Bit0(code) then step / 2 / 2 else 0)
  }

  /** The decoder's state after one code. */
  function DecodeStep(st: State, code: Nibble): State {
    var diffq := DecoderDiffq(StepSize(st.idx), code);
    State(ClampPredict(if Bit3(code) then st.predict - diffq else st.predict + diffq),
          ClampIndex(st.idx + IndexShift(code)))
  }

  lemma BitsOfCode(b3: bool, b2: bool, b1: bool, b0: bool)
    ensures
      var code := Choose(b3, 8) + Choose(b2, 4) + Choose(b1, 2) + Choose(b0, 1);
      Bit3(code) == b3 && Bit2(code) == b2 && Bit1(code) == b1 && Bit0(code) == b0
  {
  }

  /** The greedy loop and the bit tests agree on the difference a code stands for. */
  lemma GreedyMatchesBits(diff: nat, step: nat, negative: bool)
    ensures
      var q := Greedy(diff, step, TOP_BIT);
      var code := Choose(negative, 8) + q.bits;
      && DecoderDiffq(step, code) == step / 8 + q.diffq
      && (Bit3(code) <==> code >= 8)
  {
    var b2 := diff >= step;
    var d1 := diff - Choose(b2, step);
    var b1 := d1 >= step / 2;
    var b0 := d1 - Choose(b1, step / 2) >= step / 2 / 2;
    GreedyUnfolds(diff, step);
    BitsOfCode(negative, b2, b1, b0);
    assert Choose(negative, 8) + Greedy(diff, step, TOP_BIT).bits
        == Choose(negative, 8) + Choose(b2, 4) + Choose(b1, 2) + Choose(b0, 1);
  }

  /** One sample of lockstep: the decoder, fed the encoder's code, lands in the encoder's state. */
  lemma StepLockstep(st: State, s: Sample)
    ensures DecodeStep(st, Code(st, s)) == EncodeStep(st, s)
  {
    StepTableShape(st.idx);
    GreedyMatchesBits(Error(st, s), StepSize(st.idx), s < st.predict);
  }

  // ----- what one step does to the error

  /** How far the predictor is from a sample. */
  function Error(st: State, s: Sample): nat { Abs(s - st.predict) }

  /** The sample is too far for one step: every magnitude bit will be set. */
  predicate Overload(st: State, s: Sample) { Error(st, s) >= 2 * StepSize(st.idx) }

  /** The greedy loop leaves at most a quarter step (plus one) uncovered, or sets every bit. */
  lemma GreedyRemainder(diff: nat, step: nat)
    requires step >= 7
    ensures diff >= 2 * step ==> Greedy(diff, step, TOP_BIT) == Quantum(7, step + step / 2 + step / 2 / 2)
    ensures diff < 2 * step ==> 0 <= diff - Greedy(diff, step, TOP_BIT).diffq <= step / 2 / 2 + 1
    ensures diff < step ==> Greedy(diff, step, TOP_BIT).bits < 4
    ensures diff >= step ==> Greedy(diff, step, TOP_BIT).bits >= 4
  {
    GreedyUnfolds(diff, step);
  }

  /** Clamping the predictor to 16 bits never takes it further from a 16-bit sample. */
  lemma ClampNeverHurts(p: int, s: Sample)
    ensures Abs(s - ClampPredict(p)) <= Abs(s - p)
  {
  }

  /** One predictor move in plain numbers, for any step size and any distance moved. */
  lemma MoveBound(p: Sample, s: Sample, diffq: int, slack: nat)
    requires Abs(Abs(s - p) - diffq) <= slack
    ensures Abs(s - ClampPredict(if s < p then p - diffq else p + diffq)) <= slack
  {
    ClampNeverHurts(if s < p then p - diffq else p + diffq, s);
  }

  /** In range: one step brings the error down to an eighth of the step size, plus two. */
  lemma QuantiserBound(st: State, s: Sample)
    requires !Overload(st, s)
    ensures Error(EncodeStep(st, s), s) <= StepSize(st.idx) / 8 + 2
  {
    var step, diff := StepSize(st.idx), Error(st, s);
    StepTableShape(st.idx);
    GreedyRemainder(diff, step);
    var diffq := EncoderDiffq(st, s);
    RemainderSlack(step, diff, Greedy(diff, step, TOP_BIT).diffq);
    MoveBound(st.predict, s, diffq, step / 8 + 2);
    CodeSign(st, s);
  }

  /** The code's sign bit is the direction of the move. */
  lemma CodeSign(st: State, s: Sample)
    ensures Code(st, s) >= 8 <==> s < st.predict
    ensures Code(st, s) % 8 == Greedy(Error(st, s), StepSize(st.idx), TOP_BIT).bits
  {
  }

  /** The index falls exactly when the error was below the step size. */
  lemma IndexFalls(st: State, s: Sample)
    ensures Error(st, s) < StepSize(st.idx) ==> EncodeStep(st, s).idx == if st.idx > 0 then st.idx - 1 else 0
    ensures Error(st, s) >= StepSize(st.idx) ==> EncodeStep(st, s).idx >= if st.idx < 87 then st.idx + 2 else 88
  {
    StepTableShape(st.idx);
    GreedyRemainder(Error(st, s), StepSize(st.idx));
    CodeSign(st, s);
  }

  /**
   The code says how far the sample was, in steps, half steps and quarter steps, and which way; the predictor moves by
   as much and an eighth of a step.
   */
  lemma CodeByDistance(st: State, s: Sample)
    ensures var e := if s < st.predict then st.predict - s else s - st.predict;
            var step := StepSize(st.idx);
            var half, quarter := step / 2, step / 4;
            var m := if e < quarter then 0 else if e < half then 1 else if e < half + quarter then 2 else if e < step then 3
                     else if e < step + quarter then 4 else if e < step + half then 5
                     else if e < step + half + quarter then 6 else 7;
            var moved := step / 8 + (if m >= 4 then step else 0)
                         + (if m % 4 >= 2 then half else 0) + (if m % 2 == 1 then quarter else 0);
            var p := if s < st.predict then st.predict - moved else st.predict + moved;
            && Code(st, s) == m + (if s < st.predict then 8 else 0)
            && EncodeStep(st, s).predict == if p > 32767 then 32767 else if p < -32768 then -32768 else p
  {
    hide StepSize, Greedy, Code, EncodeStep;
    var e, step := Abs(s - st.predict), StepSize(st.idx);
    StepTableShape(st.idx);
    GreedyByDistance(e, step);
    StepInParts(st, s, Greedy(e, step, TOP_BIT));
  }

  lemma GreedyByDistance(e: nat, step: nat)
    requires step >= 7
    ensures var half, quarter := step / 2, step / 4;
            var m := if e < quarter then 0 else if e < half then 1 else if e < half + quarter then 2 else if e < step then 3
                     else if e < step + quarter then 4 else if e < step + half then 5
                     else if e < step + half + quarter then 6 else 7;
            Greedy(e, step, TOP_BIT) ==
            Quantum(m, (if m >= 4 then step else 0) + (if m % 4 >= 2 then half else 0) + if m % 2 == 1 then quarter else 0)
  {
    hide Greedy;
    GreedyUnfolds(e, step);
  }

  /** What the decoder makes of each code, in any state. */
  lemma DecodeByCode(st: State, code: Nibble)
    ensures var step, m := StepSize(st.idx), code % 8;
            var moved := step / 8 + (if m >= 4 then step else 0)
                         + (if m % 4 >= 2 then step / 2 else 0) + (if m % 2 == 1 then step / 4 else 0);
            var p := if code >= 8 then st.predict - moved else st.predict + moved;
            var i := st.idx + if m < 4 then -1 else 2 * m - 6;
            && DecodeStep(st, code).predict == (if p > 32767 then 32767 else if p < -32768 then -32768 else p)
            && DecodeStep(st, code).idx == if i > 88 then 88 else if i < 0 then 0 else i
  {
    hide StepSize, IndexShift, Bit3, Bit2, Bit1, Bit0;
    BitsByRemainder(code);
    ShiftByRemainder(code);
  }

  lemma BitsByRemainder(code: Nibble)
    ensures Bit3(code) <==> code >= 8
    ensures Bit2(code) <==> code % 8 >= 4
    ensures Bit1(code) <==> code % 8 % 4 >= 2
    ensures Bit0(code) <==> code % 8 % 2 == 1
  {
  }

  lemma ShiftByRemainder(code: Nibble)
    ensures IndexShift(code) == if code % 8 < 4 then -1 else 2 * (code % 8) - 6
  {
  }

  /** From the step size on the index climbs, by 2, 4, 6 or 8 as the distance grows by quarter steps. */
  lemma IndexRises(st: State, s: Sample)
    ensures var e := if s < st.predict then st.predict - s else s - st.predict;
            var step := StepSize(st.idx);
            var climb := if e < step + step / 4 then 2 else if e < step + step / 2 then 4
                         else if e < step + step / 2 + step / 4 then 6 else 8;
            e >= step ==> EncodeStep(st, s).idx == if st.idx + climb > 88 then 88 else st.idx + climb
  {
    hide StepSize;
    CodeByDistance(st, s);
    StepTableShape(st.idx);
  }

  lemma RemainderSlack(step: nat, diff: nat, greedy: int)
    requires 0 <= diff - greedy <= step / 2 / 2 + 1
    ensures Abs(diff - (step / 8 + greedy)) <= step / 8 + 2
  {
  }

  /**
   Overload: the code is all ones below the sign, the predictor moves by the whole of `diffq`, neither
   overshooting the sample nor touching the 16-bit clamp, and the index climbs by eight.
   */
  lemma OverloadStep(st: State, s: Sample)
    requires Overload(st, s)
    ensures Code(st, s) % 8 == 7
    ensures var step := StepSize(st.idx);
            var diffq := step / 8 + step + step / 2 + step / 4;
            && diffq < Error(st, s)
            && Error(EncodeStep(st, s), s) == Error(st, s) - diffq
            && EncodeStep(st, s).predict == (if s < st.predict then st.predict - diffq else st.predict + diffq)
    ensures EncodeStep(st, s).idx == if st.idx + 8 <= 88 then st.idx + 8 else 88
  {
    StepTableShape(st.idx);
    GreedyRemainder(Error(st, s), StepSize(st.idx));
  }
}
