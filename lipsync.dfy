/** Lip-sync animation (core/grim/src/scene/char_lip_sync/mod.rs): the packed frame data of a
  * `CharLipSync` and the viseme weights of each frame decoded from it. */
module LipSync {
  import opened Wrappers
  import opened Ints

  /** `CharLipSync`, without the base object's name, type and note. */
  datatype CharLipSync = CharLipSync(visemes: seq<string>, framesCount: nat, data: Bytes)

  /** One viseme of a frame: its name and its weight. */
  datatype VisemeWeight = VisemeWeight(name: string, weight: U8)

  /** A frame as stored: viseme indices and weights. */
  datatype PackedWeight = PackedWeight(index: U8, weight: U8)

  /** The weights of one frame, read from `pos` for at most `count` pairs; reading stops early
    * (without error) when the data ends, also after an index whose weight is missing. `None`
    * when an index names no viseme, where the source panics. Gives the weights and the
    * position after them. */
  function WeightsAt(visemes: seq<string>, data: Bytes, pos: nat, count: nat): (r: Option<(seq<VisemeWeight>, nat)>)
    requires pos <= |data|
    ensures r.Some? ==> pos <= r.value.1 <= |data| && |r.value.0| <= count
    decreases count
  {
    if count == 0 || pos == |data| then Some(([], pos))
    else if pos + 1 == |data| then Some(([], pos + 1))
    else if data[pos] >= |visemes| then None
    else
      match WeightsAt(visemes, data, pos + 2, count - 1)
      case None => None
      case Some((rest, next)) => Some(([VisemeWeight(visemes[data[pos]], data[pos + 1])] + rest, next))
  }

  /** The frames read from `pos`, at most `remaining` of them: each is a count byte followed by
    * its weights. */
  function FramesAt(visemes: seq<string>, data: Bytes, pos: nat, remaining: nat): (r: Option<seq<seq<VisemeWeight>>>)
    requires pos <= |data|
    ensures r.Some? ==> |r.value| <= remaining && |r.value| <= |data| - pos
    decreases |data| - pos
  {
    if pos == |data| || remaining == 0 then Some([])
    else
      match WeightsAt(visemes, data, pos + 1, data[pos])
      case None => None
      case Some((weights, next)) =>
        match FramesAt(visemes, data, next, remaining - 1)
        case None => None
        case Some(rest) => Some([weights] + rest)
  }

  /** The frames `get_frames` produces, or `None` where it panics. */
  function Frames(lipSync: CharLipSync): (r: Option<seq<seq<VisemeWeight>>>)
    ensures r.Some? ==> |r.value| <= lipSync.framesCount && |r.value| <= |lipSync.data|
  {
    FramesAt(lipSync.visemes, lipSync.data, 0, lipSync.framesCount)
  }

  /** `get_frames`: reads the data byte by byte, as the source's iterator does. */
  method GetFrames(lipSync: CharLipSync) returns (frames: seq<seq<VisemeWeight>>)
    requires Frames(lipSync).Some?
    ensures frames == Frames(lipSync).value
  {
    var data := lipSync.data;
    var visemes := lipSync.visemes;
    frames := [];
    var idx := 0;
    var pos := 0;
    while pos < |data|
      invariant pos <= |data| && idx <= lipSync.framesCount
      invariant FramesAt(visemes, data, pos, lipSync.framesCount - idx).Some?
      invariant frames + FramesAt(visemes, data, pos, lipSync.framesCount - idx).value == Frames(lipSync).value
      decreases |data| - pos
    {
      var weightCount := data[pos];
      pos := pos + 1;
      if idx >= lipSync.framesCount {
        break;
      }
      var weights, next := ReadWeights(visemes, data, pos, weightCount);
      pos := next;
      frames := frames + [weights];
      idx := idx + 1;
    }
  }

  /** The inner loop of `get_frames`: at most `count` (index, weight) pairs. */
  method ReadWeights(visemes: seq<string>, data: Bytes, start: nat, count: nat) returns (weights: seq<VisemeWeight>, pos: nat)
    requires start <= |data| && WeightsAt(visemes, data, start, count).Some?
    ensures (weights, pos) == WeightsAt(visemes, data, start, count).value
  {
    weights := [];
    pos := start;
    var k := 0;
    assert weights + WeightsAt(visemes, data, pos, count).value.0 == WeightsAt(visemes, data, pos, count).value.0;
    while k < count
      invariant k <= count && pos <= |data|
      invariant WeightsAt(visemes, data, pos, count - k).Some?
      invariant var rest := WeightsAt(visemes, data, pos, count - k).value;
        (weights + rest.0, rest.1) == WeightsAt(visemes, data, start, count).value
    {
      if pos == |data| {
        break;
      }
      var visemeIdx := data[pos];
      pos := pos + 1;
      if pos == |data| {
        break;
      }
      var weight := data[pos];
      pos := pos + 1;
      ghost var rest := WeightsAt(visemes, data, pos, count - k - 1).value;
      assert weights + [VisemeWeight(visemes[visemeIdx], weight)] + rest.0
        == weights + ([VisemeWeight(visemes[visemeIdx], weight)] + rest.0);
      weights := weights + [VisemeWeight(visemes[visemeIdx], weight)];
      k := k + 1;
    }
    assert weights + [] == weights;
  }

  // ---- The packed format ----

  /** The bytes of one frame's weights. */
  function PackWeights(ws: seq<PackedWeight>): (b: Bytes)
    ensures |b| == 2 * |ws|
  {
    if ws == [] then [] else [ws[0].index, ws[0].weight] + PackWeights(ws[1..])
  }

  /** The bytes of a sequence of frames: each a count byte and then its weights. */
  function PackFrames(frames: seq<seq<PackedWeight>>): Bytes
    requires FramesFit(frames)
  {
    if frames == [] then [] else [|frames[0]|] + PackWeights(frames[0]) + PackFrames(frames[1..])
  }

  /** The decoded form of a packed frame. */
  function Named(visemes: seq<string>, ws: seq<PackedWeight>): seq<VisemeWeight>
    requires IndicesValid(visemes, ws)
  {
    if ws == [] then [] else [VisemeWeight(visemes[ws[0].index], ws[0].weight)] + Named(visemes, ws[1..])
  }

  /** Every index of a packed frame names a viseme. */
  predicate IndicesValid(visemes: seq<string>, ws: seq<PackedWeight>) {
    forall i :: 0 <= i < |ws| ==> ws[i].index < |visemes|
  }

  /** Every packed frame's count fits its byte. */
  predicate FramesFit(frames: seq<seq<PackedWeight>>) {
    forall i :: 0 <= i < |frames| ==> |frames[i]| < 0x100
  }

  /** Every index of every packed frame names a viseme. */
  predicate FramesValid(visemes: seq<string>, frames: seq<seq<PackedWeight>>) {
    forall i :: 0 <= i < |frames| ==> IndicesValid(visemes, frames[i])
  }

  /** The decoded form of packed frames. */
  function NamedFrames(visemes: seq<string>, frames: seq<seq<PackedWeight>>): (r: seq<seq<VisemeWeight>>)
    requires FramesValid(visemes, frames)
    ensures |r| == |frames|
  {
    if frames == [] then [] else [Named(visemes, frames[0])] + NamedFrames(visemes, frames[1..])
  }

  /** Reading a packed frame's weights, followed by anything, gives its named weights. */
  lemma {:induction false} WeightsRoundTrip(visemes: seq<string>, ws: seq<PackedWeight>, rest: Bytes)
    requires IndicesValid(visemes, ws)
    ensures WeightsAt(visemes, PackWeights(ws) + rest, 0, |ws|) == Some((Named(visemes, ws), 2 * |ws|))
  {
    if ws != [] {
      var data := PackWeights(ws) + rest;
      var tail := PackWeights(ws[1..]) + rest;
      assert data == [ws[0].index, ws[0].weight] + tail;
      assert IndicesValid(visemes, ws[1..]);
      WeightsRoundTrip(visemes, ws[1..], rest);
      WeightsShift(visemes, [ws[0].index, ws[0].weight], tail, 0, |ws| - 1);
    }
  }

  /** Reading from position `|prefix| + pos` of `prefix + data` is reading from `pos` of `data`. */
  lemma {:induction false} WeightsShift(visemes: seq<string>, prefix: Bytes, data: Bytes, pos: nat, count: nat)
    requires pos <= |data|
    ensures WeightsAt(visemes, prefix + data, |prefix| + pos, count)
      == match WeightsAt(visemes, data, pos, count)
         case None => None
         case Some((ws, next)) => Some((ws, |prefix| + next))
    decreases count
  {
    var all := prefix + data;
    if count == 0 || pos == |data| || pos + 1 == |data| {
    } else {
      assert all[|prefix| + pos] == data[pos] && all[|prefix| + pos + 1] == data[pos + 1];
      WeightsShift(visemes, prefix, data, pos + 2, count - 1);
    }
  }

  /** Reading the frames from position `|prefix| + pos` of `prefix + data` is reading them from
    * `pos` of `data`. */
  lemma {:induction false} FramesShift(visemes: seq<string>, prefix: Bytes, data: Bytes, pos: nat, remaining: nat)
    requires pos <= |data|
    ensures FramesAt(visemes, prefix + data, |prefix| + pos, remaining) == FramesAt(visemes, data, pos, remaining)
    decreases |data| - pos
  {
    var all := prefix + data;
    if pos == |data| || remaining == 0 {
    } else {
      assert all[|prefix| + pos] == data[pos];
      WeightsShift(visemes, prefix, data, pos + 1, data[pos]);
      match WeightsAt(visemes, data, pos + 1, data[pos])
      case None =>
      case Some((weights, next)) =>
        FramesShift(visemes, prefix, data, next, remaining - 1);
    }
  }

  /** Packed frames decode back to their named weights when the frame count allows them all;
    * bytes after the last frame are ignored once the frame count is used up. */
  lemma {:induction false} FramesRoundTrip(visemes: seq<string>, frames: seq<seq<PackedWeight>>, extra: Bytes, remaining: nat)
    requires FramesFit(frames) && FramesValid(visemes, frames)
    requires |frames| <= remaining && (remaining == |frames| || extra == [])
    ensures FramesAt(visemes, PackFrames(frames) + extra, 0, remaining) == Some(NamedFrames(visemes, frames))
  {
    if frames != [] {
      var f, rest := frames[0], frames[1..];
      FramesTail(visemes, frames);
      FramesRoundTrip(visemes, rest, extra, remaining - 1);
      FramesCons(visemes, f, rest, extra, remaining);
      assert PackFrames(frames) == [|f|] + PackWeights(f) + PackFrames(rest);
      assert NamedFrames(visemes, frames) == [Named(visemes, f)] + NamedFrames(visemes, rest);
    }
  }

  /** Decoding a first frame in front of frames that decode. */
  lemma FramesCons(visemes: seq<string>, f: seq<PackedWeight>, rest: seq<seq<PackedWeight>>, extra: Bytes, remaining: nat)
    requires |f| < 0x100 && IndicesValid(visemes, f) && FramesFit(rest) && FramesValid(visemes, rest) && 0 < remaining
    requires FramesAt(visemes, PackFrames(rest) + extra, 0, remaining - 1) == Some(NamedFrames(visemes, rest))
    ensures FramesAt(visemes, [|f|] + PackWeights(f) + PackFrames(rest) + extra, 0, remaining)
      == Some([Named(visemes, f)] + NamedFrames(visemes, rest))
  {
    var head: Bytes := [|f|] + PackWeights(f);
    var tail := PackFrames(rest) + extra;
    assert [|f|] + PackWeights(f) + PackFrames(rest) + extra == head + tail;
    FirstFrame(visemes, f, tail);
    FrameStep(visemes, head, tail, remaining, Named(visemes, f), NamedFrames(visemes, rest));
  }

  /** The first frame of valid frames is valid, and so are the others. */
  lemma FramesTail(visemes: seq<string>, frames: seq<seq<PackedWeight>>)
    requires frames != [] && FramesFit(frames) && FramesValid(visemes, frames)
    ensures |frames[0]| < 0x100 && IndicesValid(visemes, frames[0])
    ensures FramesFit(frames[1..]) && FramesValid(visemes, frames[1..])
  {
    assert forall i :: 0 <= i < |frames| - 1 ==> frames[1..][i] == frames[i + 1];
  }

  /** The first frame of packed data decodes to its named weights. */
  lemma FirstFrame(visemes: seq<string>, f: seq<PackedWeight>, tail: Bytes)
    requires |f| < 0x100 && IndicesValid(visemes, f)
    ensures ([|f|] + PackWeights(f) + tail)[0] == |f|
    ensures WeightsAt(visemes, [|f|] + PackWeights(f) + tail, 1, |f|) == Some((Named(visemes, f), |[|f|] + PackWeights(f)|))
  {
    var data := [|f|] + PackWeights(f) + tail;
    assert data == [|f|] + (PackWeights(f) + tail);
    WeightsRoundTrip(visemes, f, tail);
    WeightsShift(visemes, [|f|], PackWeights(f) + tail, 0, |f|);
  }

  /** One step of `FramesAt`: a first frame that ends where `tail` starts, then the frames of
    * `tail`. */
  lemma FrameStep(visemes: seq<string>, head: Bytes, tail: Bytes, remaining: nat, weights: seq<VisemeWeight>, rest: seq<seq<VisemeWeight>>)
    requires 0 < |head| && 0 < remaining
    requires WeightsAt(visemes, head + tail, 1, (head + tail)[0]) == Some((weights, |head|))
    requires FramesAt(visemes, tail, 0, remaining - 1) == Some(rest)
    ensures FramesAt(visemes, head + tail, 0, remaining) == Some([weights] + rest)
  {
    FramesShift(visemes, head, tail, 0, remaining - 1);
    assert FramesAt(visemes, head + tail, |head|, remaining - 1) == Some(rest);
  }

  /** A frame count of zero yields no frames, whatever the data. */
  lemma NoFramesCounted(visemes: seq<string>, data: Bytes)
    ensures Frames(CharLipSync(visemes, 0, data)) == Some([])
  {
  }

  /** A frame cut short by the end of the data keeps the weights read so far: here its count
    * promises one more pair than the data holds, whose index byte alone is present. */
  lemma {:induction false} TruncatedFrame(visemes: seq<string>, ws: seq<PackedWeight>, index: U8, remaining: nat)
    requires IndicesValid(visemes, ws) && |ws| < 0xFF && remaining > 0
    ensures FramesAt(visemes, [|ws| + 1] + PackWeights(ws) + [index], 0, remaining)
      == Some([Named(visemes, ws)])
  {
    var data := [|ws| + 1] + PackWeights(ws) + [index];
    assert data == [|ws| + 1] + (PackWeights(ws) + [index]);
    TruncatedWeights(visemes, ws, index);
    WeightsShift(visemes, [|ws| + 1], PackWeights(ws) + [index], 0, |ws| + 1);
    assert data + [] == data;
    FrameStep(visemes, data, [], remaining, Named(visemes, ws), []);
    assert [Named(visemes, ws)] + [] == [Named(visemes, ws)];
  }

  lemma {:induction false} TruncatedWeights(visemes: seq<string>, ws: seq<PackedWeight>, index: U8)
    requires IndicesValid(visemes, ws)
    ensures WeightsAt(visemes, PackWeights(ws) + [index], 0, |ws| + 1)
      == Some((Named(visemes, ws), 2 * |ws| + 1))
  {
    if ws != [] {
      var tail := PackWeights(ws[1..]) + [index];
      assert PackWeights(ws) + [index] == [ws[0].index, ws[0].weight] + tail;
      assert IndicesValid(visemes, ws[1..]);
      TruncatedWeights(visemes, ws[1..], index);
      WeightsShift(visemes, [ws[0].index, ws[0].weight], tail, 0, |ws|);
    }
  }

  /** An index naming no viseme makes the source panic. */
  lemma BadIndexPanics(visemes: seq<string>, weight: U8)
    requires |visemes| < 0x100
    ensures Frames(CharLipSync(visemes, 1, [1, |visemes|, weight])).None?
  {
    var data: Bytes := [1, |visemes|, weight];
    assert Frames(CharLipSync(visemes, 1, data)) == FramesAt(visemes, data, 0, 1);
    assert data[0] == 1 && data[1] == |visemes|;
    assert WeightsAt(visemes, data, 1, 1).None?;
  }
}
