/** The IMA ADPCM decoder of core/grim/src/audio/adpcm.rs: each byte holds two 4-bit deltas,
  * the low nibble first; each delta moves the predicted sample by a difference scaled by the
  * current step size and moves the index into the step table. */
module Adpcm {
  import opened Ints

  type I16 = x: int | -0x8000 <= x < 0x8000

  const I16_MIN: int := -0x8000
  const I16_MAX: int := 0x7FFF

  /** `ADPCM_INDEX_TABLE`: the index change for each delta. */
  const INDEX_TABLE: seq<int> := [
    -1, -1, -1, -1, 2, 4, 6, 8,
    -1, -1, -1, -1, 2, 4, 6, 8]

  /** `ADPCM_STEP_SIZE_TABLE`: the step size at each index. */
  const STEP_SIZES: seq<nat> :=
    [    7,     8,     9,    10,    11,    12,    13,    14,    16,    17] +
    [   19,    21,    23,    25,    28,    31,    34,    37,    41,    45] +
    [   50,    55,    60,    66,    73,    80,    88,    97,   107,   118] +
    [  130,   143,   157,   173,   190,   209,   230,   253,   279,   307] +
    [  337,   371,   408,   449,   494,   544,   598,   658,   724,   796] +
    [  876,   963,  1060,  1166,  1282,  1411,  1552,  1707,  1878,  2066] +
    [ 2272,  2499,  2749,  3024,  3327,  3660,  4026,  4428,  4871,  5358] +
    [ 5894,  6484,  7132,  7845,  8630,  9493, 10442, 11487, 12635, 13899] +
    [15289, 16818, 18500, 20350, 22385, 24623, 27086, 29794, 32767]

  /** The step size at an index of the table. */
  function StepSize(index: int): (step: nat)
    requires 0 <= index <= MAX_INDEX
  {
    STEP_SIZES[index]
  }

  /** The largest step index, `ADPCM_STEP_SIZE_TABLE.len() - 1`. */
  const MAX_INDEX: int := 88

  /** The decoder's `state`: the previous sample and the step index. */
  datatype DecoderState = DecoderState(prevVal: int, index: int)

  const INITIAL: DecoderState := DecoderState(0, 0)

  /** The states the decoder can be in: a sample in the `i16` range and an index into the step table. */
  predicate ValidState(s: DecoderState) {
    I16_MIN <= s.prevVal <= I16_MAX && 0 <= s.index <= MAX_INDEX
  }

  /** `x` held to `[lo, hi]`. */
  function Clamp(x: int, lo: int, hi: int): (r: int)
    requires lo <= hi
    ensures lo <= r <= hi
    ensures lo <= x <= hi ==> r == x
    ensures x < lo ==> r == lo
    ensures hi < x ==> r == hi
  {
    if x < lo then lo else if x > hi then hi else x
  }

  /** The difference a delta's magnitude (its low three bits) adds at a step size:
    * `step >> 3`, plus `step`, `step >> 1` and `step >> 2` for bits 4, 2 and 1. A shift of a
    * non-negative number is its floor division by a power of two. */
  function Diff(step: nat, magnitude: nat): (d: nat)
    requires magnitude < 8
    ensures step / 8 <= d <= step / 8 + step + step / 2 + step / 4
  {
    step / 8
    + (if magnitude >= 4 then step else 0)
    + (if (magnitude / 2) % 2 == 1 then step / 2 else 0)
    + (if magnitude % 2 == 1 then step / 4 else 0)
  }

  /** The difference approximates `(2 * magnitude + 1) * step / 8`, as IMA ADPCM intends, and
    * never exceeds it; the shifts lose at most 17 eighths of a unit. */
  lemma DiffApproximates(step: nat, magnitude: nat)
    requires magnitude < 8
    ensures 0 <= (2 * magnitude + 1) * step - 8 * Diff(step, magnitude) <= 17
  {
    // One case per magnitude keeps the products linear.
    if magnitude == 0 { assert (2 * magnitude + 1) * step == step; }
    else if magnitude == 1 { assert (2 * magnitude + 1) * step == 3 * step; }
    else if magnitude == 2 { assert (2 * magnitude + 1) * step == 5 * step; }
    else if magnitude == 3 { assert (2 * magnitude + 1) * step == 7 * step; }
    else if magnitude == 4 { assert (2 * magnitude + 1) * step == 9 * step; }
    else if magnitude == 5 { assert (2 * magnitude + 1) * step == 11 * step; }
    else if magnitude == 6 { assert (2 * magnitude + 1) * step == 13 * step; }
    else { assert (2 * magnitude + 1) * step == 15 * step; }
  }

  /** The step index after a delta: moved by the index table and clamped to the table. */
  function NextIndex(index: int, delta: nat): (r: int)
    requires delta < 16
    ensures 0 <= r <= MAX_INDEX
    ensures 0 <= index + INDEX_TABLE[delta] <= MAX_INDEX ==> r == index + INDEX_TABLE[delta]
  {
    Clamp(index + INDEX_TABLE[delta], 0, MAX_INDEX)
  }

  /** The sample after a delta at a step size: moved by the difference, down when the sign bit
    * (8) is set, and clamped to the `i16` range. */
  function Predict(prev: int, step: nat, delta: nat): (v: int)
    requires delta < 16
    ensures I16_MIN <= v <= I16_MAX
    ensures var d := Diff(step, delta % 8);
      I16_MIN <= prev - d && prev + d <= I16_MAX ==> v == if delta >= 8 then prev - d else prev + d
  {
    var d := Diff(step, delta % 8);
    Clamp(if delta >= 8 then prev - d else prev + d, I16_MIN, I16_MAX)
  }

  /** One delta. The difference uses the step size of the index before the move. */
  function Step(s: DecoderState, delta: nat): (r: DecoderState)
    requires ValidState(s) && delta < 16
    ensures ValidState(r)
  {
    DecoderState(Predict(s.prevVal, StepSize(s.index), delta), NextIndex(s.index, delta))
  }

  /** The sign bit only mirrors the move: the index moves the same way, and the sample moves by
    * the same amount in the other direction unless clamping cuts either move short. */
  lemma SignMirrors(prev: int, index: int, step: nat, magnitude: nat)
    requires magnitude < 8
    ensures NextIndex(index, magnitude + 8) == NextIndex(index, magnitude)
    ensures var d := Diff(step, magnitude);
      I16_MIN <= prev - d && prev + d <= I16_MAX ==>
        Predict(prev, step, magnitude + 8) - prev == -(Predict(prev, step, magnitude) - prev)
  {
    assert INDEX_TABLE[magnitude + 8] == INDEX_TABLE[magnitude];
    assert (magnitude + 8) % 8 == magnitude % 8 == magnitude;
  }

  /** The deltas of `data`: two per byte, the low nibble (`& 0xf`) before the high one
    * (`(& 0xf0) >> 4`). */
  function Nibbles(data: Bytes): (n: seq<nat>)
    ensures |n| == 2 * |data|
    ensures forall k :: 0 <= k < |data| ==> n[2 * k] == data[k] % 16 && n[2 * k + 1] == data[k] / 16
  {
    if data == [] then [] else [data[0] % 16, data[0] / 16] + Nibbles(data[1..])
  }

  /** The `i`-th delta, as the loop of `decode_with_buffer` picks it. */
  lemma NibbleAt(data: Bytes, i: nat)
    requires i < 2 * |data|
    ensures Nibbles(data)[i] == if i % 2 == 0 then data[i / 2] % 16 else data[i / 2] / 16
  {
    var k := i / 2;
    if i % 2 == 0 {
      assert i == 2 * k;
    } else {
      assert i == 2 * k + 1;
    }
  }

  lemma {:induction false} NibblesBelow16(data: Bytes)
    ensures AreDeltas(Nibbles(data))
  {
    if data != [] {
      NibblesBelow16(data[1..]);
      assert Nibbles(data) == [data[0] % 16, data[0] / 16] + Nibbles(data[1..]);
    }
  }

  /** The mask-and-shift of the source picks the same nibbles. */
  lemma NibbleBits(b: bv8)
    ensures (b & 0xF) as int == (b as int) % 16
    ensures ((b & 0xF0) >> 4) as int == (b as int) / 16
  {
    MaskIsRemainder(b);
    RemainderAsInt(b);
  }

  lemma MaskIsRemainder(x: bv8)
    ensures x & 0xF == x % 16
    ensures (x & 0xF0) >> 4 == x / 16
  {
  }

  lemma RemainderAsInt(x: bv8)
    ensures (x % 16) as int == (x as int) % 16
    ensures (x / 16) as int == (x as int) / 16
  {
  }

  /** The delta tests of the source read the same bits as `Step`'s arithmetic. */
  lemma DeltaBits(delta: nat)
    requires delta < 16
    ensures ((delta as bv8) & 8 != 0) == (delta >= 8)
    ensures ((delta as bv8) & 7) as int == delta % 8
    ensures var m := delta % 8;
      ((m as bv8) & 4 != 0) == (m >= 4)
      && ((m as bv8) & 2 != 0) == ((m / 2) % 2 == 1)
      && ((m as bv8) & 1 != 0) == (m % 2 == 1)
  {
  }

  /** Every delta fits in a nibble. */
  predicate AreDeltas(deltas: seq<nat>) {
    forall i :: 0 <= i < |deltas| ==> deltas[i] < 16
  }

  /** The samples and the final state of decoding `deltas` from `s`. */
  datatype Output = Output(samples: seq<I16>, state: DecoderState)

  function Run(s: DecoderState, deltas: seq<nat>): (r: Output)
    requires ValidState(s)
    requires AreDeltas(deltas)
    ensures |r.samples| == |deltas| && ValidState(r.state)
  {
    if deltas == [] then Output([], s)
    else
      var prev := Run(s, deltas[..|deltas| - 1]);
      var next := Step(prev.state, deltas[|deltas| - 1]);
      Output(prev.samples + [next.prevVal], next)
  }

  lemma RunStep(s: DecoderState, deltas: seq<nat>, i: nat)
    requires ValidState(s) && i < |deltas|
    requires AreDeltas(deltas)
    ensures var prev := Run(s, deltas[..i]);
      Run(s, deltas[..i + 1]) == Output(prev.samples + [Step(prev.state, deltas[i]).prevVal], Step(prev.state, deltas[i]))
  {
    assert deltas[..i + 1][..i] == deltas[..i];
  }

  /** The samples `decode` produces from `data`, starting in state `s`. */
  function DecodeOutput(s: DecoderState, data: Bytes): (r: Output)
    requires ValidState(s)
    ensures |r.samples| == 2 * |data| && ValidState(r.state)
  {
    NibblesBelow16(data);
    Run(s, Nibbles(data))
  }

  /** Decoding runs the deltas one after another, so decoding a concatenation is decoding the
    * second part from the state the first part left. */
  lemma {:induction false} RunConcat(s: DecoderState, a: seq<nat>, b: seq<nat>)
    requires ValidState(s)
    requires AreDeltas(a)
    requires AreDeltas(b)
    ensures Run(s, a + b) == Output(Run(s, a).samples + Run(Run(s, a).state, b).samples, Run(Run(s, a).state, b).state)
    decreases |b|
  {
    if b == [] {
      assert a + b == a;
    } else {
      var b' := b[..|b| - 1];
      assert (a + b)[..|a + b| - 1] == a + b';
      RunConcat(s, a, b');
      var mid := Run(s, a).state;
      assert Run(s, a).samples + Run(mid, b').samples + [Step(Run(mid, b').state, b[|b| - 1]).prevVal]
        == Run(s, a).samples + (Run(mid, b').samples + [Step(Run(mid, b').state, b[|b| - 1]).prevVal]);
    }
  }

  lemma {:induction false} NibblesConcat(a: Bytes, b: Bytes)
    ensures Nibbles(a + b) == Nibbles(a) + Nibbles(b)
  {
    if a != [] {
      assert (a + b)[1..] == a[1..] + b;
      NibblesConcat(a[1..], b);
    } else {
      assert a + b == b;
    }
  }

  /** The decoder's state carries over between calls: decoding `a` and then `b` gives the samples
    * and the state of decoding `a + b` at once. */
  lemma DecodeResumes(s: DecoderState, a: Bytes, b: Bytes)
    requires ValidState(s)
    ensures var first := DecodeOutput(s, a);
      DecodeOutput(s, a + b) == Output(first.samples + DecodeOutput(first.state, b).samples, DecodeOutput(first.state, b).state)
  {
    NibblesConcat(a, b);
    NibblesBelow16(a);
    NibblesBelow16(b);
    RunConcat(s, Nibbles(a), Nibbles(b));
  }

  /** A fresh decoder stays silent on zero bytes: delta 0 at index 0 moves neither the sample
    * nor the index. */
  lemma {:induction false} ZerosDecodeToSilence(deltas: seq<nat>)
    requires forall i :: 0 <= i < |deltas| ==> deltas[i] == 0
    ensures Run(INITIAL, deltas).state == INITIAL
    ensures forall i :: 0 <= i < |deltas| ==> Run(INITIAL, deltas).samples[i] == 0
  {
    if deltas != [] {
      var init := deltas[..|deltas| - 1];
      assert forall i :: 0 <= i < |init| ==> init[i] == 0;
      ZerosDecodeToSilence(init);
      assert StepSize(0) == 7 && Diff(7, 0) == 0 && NextIndex(0, 0) == 0;
      assert Step(INITIAL, deltas[|deltas| - 1]) == INITIAL;
    }
  }

  /** `ADPCMDecoder`, whose `state` pair is kept as two fields. */
  class AdpcmDecoder {
    var prevVal: int
    var index: int

    ghost predicate Valid()
      reads this
    {
      ValidState(DecoderState(prevVal, index))
    }

    ghost function State(): DecoderState
      reads this
    {
      DecoderState(prevVal, index)
    }

    /** `ADPCMDecoder::new`. */
    constructor()
      ensures Valid() && State() == INITIAL
    {
      prevVal := 0;
      index := 0;
    }

    /** `reset`: back to the initial state. */
    method Reset()
      modifies this
      ensures Valid() && State() == INITIAL
    {
      prevVal := 0;
      index := 0;
    }

    /** `decode_with_buffer`: writes the `2 * |data|` samples to the front of `buffer` (the
      * source panics on a shorter buffer) and keeps the state for the next call. */
    method DecodeWithBuffer(data: Bytes, buffer: array<I16>)
      requires Valid() && 2 * |data| <= buffer.Length
      modifies this, buffer
      ensures Valid()
      ensures buffer[..2 * |data|] == DecodeOutput(old(State()), data).samples
      ensures buffer[2 * |data|..] == old(buffer[2 * |data|..])
      ensures State() == DecodeOutput(old(State()), data).state
    {
      ghost var start := State();
      ghost var deltas := Nibbles(data);
      NibblesBelow16(data);
      var step := STEP_SIZES[index];
      for i := 0 to 2 * |data|
        invariant Valid() && step == StepSize(index)
        invariant Run(start, deltas[..i]) == Output(buffer[..i], State())
        invariant buffer[2 * |data|..] == old(buffer[2 * |data|..])
      {
        RunStep(start, deltas, i);
        step := DecodeAt(data, i, step, buffer);
        assert buffer[..i + 1] == buffer[..i] + [prevVal];
      }
      assert deltas[..2 * |data|] == deltas;
    }

    /** The body of the loop of `decode_with_buffer`: delta `i` is picked from its byte, applied,
      * and the new sample stored at `buffer[i]`. */
    method DecodeAt(data: Bytes, i: nat, step: nat, buffer: array<I16>) returns (newStep: nat)
      requires Valid() && i < 2 * |data| <= buffer.Length && step == StepSize(index)
      modifies this, buffer
      ensures Valid() && Nibbles(data)[i] < 16 && State() == Step(old(State()), Nibbles(data)[i])
      ensures newStep == StepSize(index)
      ensures buffer[..] == old(buffer[..])[i := prevVal]
    {
      var delta := if i % 2 == 0 then data[i / 2] % 16 else data[i / 2] / 16;
      NibbleAt(data, i);
      newStep := Advance(delta, step);
      buffer[i] := prevVal;
    }

    /** One pass of the loop of `decode_with_buffer`: the new index, the difference from the
      * old step size, the clamped sample, and the new step size. */
    method Advance(delta: nat, step: nat) returns (newStep: nat)
      requires Valid() && delta < 16 && step == StepSize(index)
      modifies this
      ensures Valid() && State() == Step(old(State()), delta)
      ensures newStep == StepSize(index)
    {
      ghost var before := State();
      index := index + INDEX_TABLE[delta];
      if index < 0 {
        index := 0;
      } else if index >= |STEP_SIZES| {
        index := |STEP_SIZES| - 1;
      }
      var sign := delta >= 8;
      var magnitude := delta % 8;
      var diff := Difference(step, magnitude);
      prevVal := if sign then prevVal - diff else prevVal + diff;
      if prevVal > I16_MAX {
        prevVal := I16_MAX;
      } else if prevVal < I16_MIN {
        prevVal := I16_MIN;
      }
      newStep := STEP_SIZES[index];
    }

    /** The difference of one pass, bit by bit of the magnitude. */
    static method Difference(step: nat, magnitude: nat) returns (diff: nat)
      requires magnitude < 8
      ensures diff == Diff(step, magnitude)
    {
      diff := step / 8;
      if magnitude >= 4 { diff := diff + step; }
      if (magnitude / 2) % 2 == 1 { diff := diff + step / 2; }
      if magnitude % 2 == 1 { diff := diff + step / 4; }
    }

    /** `decode`: a fresh buffer of `2 * |data|` samples. */
    method Decode(data: Bytes) returns (samples: seq<I16>)
      requires Valid()
      modifies this
      ensures Valid()
      ensures samples == DecodeOutput(old(State()), data).samples
      ensures State() == DecodeOutput(old(State()), data).state
    {
      var buffer := new I16[2 * |data|](_ => 0);
      DecodeWithBuffer(data, buffer);
      samples := buffer[..];
    }
  }
}
