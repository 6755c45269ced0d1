/** Writing MIDI tracks (core/grim/src/midi/io.rs, `generate_tempo_track`, `generate_track`
  * and `write_to_file`): every event is first given its absolute position, then the
  * positions are turned into delta times. Overflow and underflow of the 64-bit positions
  * stop the program, as in a debug build, and are modelled as errors, as are the deltas
  * larger than `MAX_DELTA` that the source refuses with a panic. */
module MidiWrite {
  import opened Wrappers
  import opened Ints
  import opened Midi
  import opened MidiIo

  /** The delta written for a distance: cast to 32 bits, then into midly's 28-bit integer,
    * which keeps the low 28 bits. */
  function Delta28(d: int): (r: U32)
    ensures 0 <= d < 0x1000_0000 ==> r == d
  {
    d % 0x1000_0000
  }

  /** midly's lossy conversions into its 24-, 7- and 4-bit integers keep the low bits. */
  function Low24(x: U32): U32 { x % 0x100_0000 }
  function Low7(x: U8): U7 { x % 0x80 }
  function Low4(x: U8): U8 { x % 0x10 }

  // ---------------------------------------------------------------------------------------
  // From absolute positions to delta times

  /** An event to write at an absolute position; `checked` events are refused when their
    * delta is larger than `MAX_DELTA` (note-offs are not checked). */
  datatype Timed = Timed(pos: nat, kind: EventKind, checked: bool)

  /** The events written so far and the position of the last one. */
  datatype Written = Written(out: seq<TrackEvent>, prev: nat)

  /** Writing one event: its delta is its distance from the previous one. */
  function DeltaStep(w: Written, x: Timed): Result<Written, MidiIoError> {
    if x.pos < w.prev then Err(Overflow)
    else
      var d := x.pos - w.prev;
      if x.checked && d > MAX_DELTA then Err(DeltaTooLarge(d))
      else Ok(Written(w.out + [TrackEvent(Delta28(d), x.kind)], x.pos))
  }

  /** Writing a timeline from position 0, one event after the other. */
  function DeltasOf(t: seq<Timed>): Result<Written, MidiIoError>
    decreases |t|
  {
    if t == [] then Ok(Written([], 0))
    else
      match DeltasOf(t[..|t| - 1])
      case Ok(w) => DeltaStep(w, t[|t| - 1])
      case Err(e) => Err(e)
  }

  /** The position before the `k`-th event of a timeline. */
  function PrevPos(t: seq<Timed>, k: nat): nat
    requires k < |t|
  {
    if k == 0 then 0 else t[k - 1].pos
  }

  /** The positions never go back, and no checked event is more than `MAX_DELTA` after the
    * one before it. */
  ghost predicate Writable(t: seq<Timed>) {
    forall k :: 0 <= k < |t| ==>
      PrevPos(t, k) <= t[k].pos && (t[k].checked ==> t[k].pos - PrevPos(t, k) <= MAX_DELTA)
  }

  /** The first `n` events of a timeline are writable exactly when all but the last are and
    * the last one keeps to the rule. */
  lemma WritableInit(t: seq<Timed>, n: nat)
    requires n < |t|
    ensures Writable(t[..n + 1]) <==>
      Writable(t[..n]) && PrevPos(t, n) <= t[n].pos && (t[n].checked ==> t[n].pos - PrevPos(t, n) <= MAX_DELTA)
  {
    var a, b := t[..n], t[..n + 1];
    assert forall k :: 0 <= k < n ==> a[k] == t[k] && b[k] == t[k] && PrevPos(a, k) == PrevPos(b, k);
    assert b[n] == t[n] && PrevPos(b, n) == PrevPos(t, n);
  }

  /** A written timeline has one event per timed event, and its last position is that of
    * the last event. */
  lemma {:induction false} DeltasOfLength(t: seq<Timed>)
    requires DeltasOf(t).Ok?
    ensures |DeltasOf(t).value.out| == |t|
    ensures DeltasOf(t).value.prev == if t == [] then 0 else t[|t| - 1].pos
    decreases |t|
  {
    if t != [] {
      DeltasOfLength(t[..|t| - 1]);
    }
  }

  /** The `k`-th written event has the kind of the `k`-th timed event and its distance from
    * the one before as its delta. */
  lemma {:induction false} DeltasOfAt(t: seq<Timed>, k: nat)
    requires DeltasOf(t).Ok? && k < |t|
    ensures |DeltasOf(t).value.out| == |t| && DeltasOf(t).value.out[k] == TrackEvent(Delta28(t[k].pos - PrevPos(t, k)), t[k].kind)
    decreases |t|
  {
    var n := |t| - 1;
    var init := t[..n];
    DeltasOfLength(init);
    var w0 := DeltasOf(init).value;
    assert DeltasOf(t).value.out == w0.out + [TrackEvent(Delta28(t[n].pos - w0.prev), t[n].kind)];
    if k < n {
      DeltasOfAt(init, k);
      assert init[k] == t[k] && PrevPos(init, k) == PrevPos(t, k);
    }
  }

  /** A written timeline has one event per timed event, of its kind, with the distance from
    * the one before as its delta; the last position is that of the last event. */
  lemma DeltasOfShape(t: seq<Timed>)
    requires DeltasOf(t).Ok?
    ensures var w := DeltasOf(t).value;
      |w.out| == |t| && w.prev == (if t == [] then 0 else t[|t| - 1].pos)
      && forall k :: 0 <= k < |t| ==> w.out[k] == TrackEvent(Delta28(t[k].pos - PrevPos(t, k)), t[k].kind)
  {
    DeltasOfLength(t);
    forall k | 0 <= k < |t|
      ensures DeltasOf(t).value.out[k] == TrackEvent(Delta28(t[k].pos - PrevPos(t, k)), t[k].kind)
    {
      DeltasOfAt(t, k);
    }
  }

  /** Writing a timeline fails exactly when a position goes back or a checked delta is too
    * large. */
  lemma {:induction false} DeltasOfOk(t: seq<Timed>)
    ensures DeltasOf(t).Ok? <==> Writable(t)
    decreases |t|
  {
    if t != [] {
      var n := |t| - 1;
      var init := t[..n];
      DeltasOfOk(init);
      WritableInit(t, n);
      assert t[..n + 1] == t;
      if DeltasOf(init).Ok? {
        DeltasOfShape(init);
        assert DeltasOf(init).value.prev == PrevPos(t, n);
      }
    }
  }

  /** A timeline whose writing fails fails the same way with more events after it. */
  lemma {:induction false} DeltasOfErrExtends(t: seq<Timed>, u: seq<Timed>)
    requires DeltasOf(t).Err?
    ensures DeltasOf(t + u) == DeltasOf(t)
    decreases |u|
  {
    if u == [] {
      assert t + u == t;
    } else {
      var n := |u| - 1;
      DeltasOfErrExtends(t, u[..n]);
      assert (t + u)[..|t + u| - 1] == t + u[..n];
    }
  }

  lemma TotalTicksSnoc(events: seq<TrackEvent>, e: TrackEvent)
    ensures TotalTicks(events + [e]) == TotalTicks(events) + e.delta
    decreases |events|
  {
    if events != [] {
      assert (events + [e])[1..] == events[1..] + [e];
      TotalTicksSnoc(events[1..], e);
    }
  }

  /** Writing the first `m` events of a timeline writes the first `m` events of its
    * writing. */
  lemma {:induction false} DeltasOfPrefix(t: seq<Timed>, m: nat)
    requires DeltasOf(t).Ok? && m <= |t|
    ensures DeltasOf(t[..m]).Ok?
    ensures |DeltasOf(t).value.out| == |t| && DeltasOf(t[..m]).value.out == DeltasOf(t).value.out[..m]
    decreases |t|
  {
    DeltasOfLength(t);
    if m < |t| {
      var n := |t| - 1;
      assert t[..n][..m] == t[..m];
      DeltasOfPrefix(t[..n], m);
      DeltasOfLength(t[..n]);
      var w0 := DeltasOf(t[..n]).value;
      assert DeltasOf(t).value.out == w0.out + [TrackEvent(Delta28(t[n].pos - w0.prev), t[n].kind)];
      assert DeltasOf(t).value.out[..m] == w0.out[..m];
    } else {
      assert t[..m] == t;
    }
  }

  /** When no distance needs more than 28 bits, the deltas of a written timeline add up to
    * the position of its last event. */
  lemma {:induction false} DeltasTotal(t: seq<Timed>)
    requires DeltasOf(t).Ok?
    requires forall k :: 0 <= k < |t| ==> t[k].pos - PrevPos(t, k) < 0x1000_0000
    ensures TotalTicks(DeltasOf(t).value.out) == DeltasOf(t).value.prev
    decreases |t|
  {
    if t != [] {
      var n := |t| - 1;
      var init := t[..n];
      assert forall k :: 0 <= k < n ==> init[k] == t[k] && PrevPos(init, k) == PrevPos(t, k);
      DeltasTotal(init);
      DeltasOfLength(init);
      var w0 := DeltasOf(init).value;
      var e := TrackEvent(Delta28(t[n].pos - w0.prev), t[n].kind);
      assert DeltasOf(t).value.out == w0.out + [e];
      assert w0.prev == PrevPos(t, n);
      TotalTicksSnoc(w0.out, e);
    }
  }

  /** When no distance needs more than 28 bits, the deltas add up to the positions: the sum
    * of the first `k + 1` deltas is the position of the `k`-th event. */
  lemma DeltasAddUp(t: seq<Timed>)
    requires DeltasOf(t).Ok?
    requires forall k :: 0 <= k < |t| ==> t[k].pos - PrevPos(t, k) < 0x1000_0000
    ensures var w := DeltasOf(t).value;
      |w.out| == |t| && forall k :: 0 <= k < |t| ==> TotalTicks(w.out[..k + 1]) == t[k].pos
  {
    DeltasOfLength(t);
    var w := DeltasOf(t).value;
    forall k | 0 <= k < |t|
      ensures TotalTicks(w.out[..k + 1]) == t[k].pos
    {
      var p := t[..k + 1];
      DeltasOfPrefix(t, k + 1);
      assert forall j :: 0 <= j < |p| ==> p[j] == t[j] && PrevPos(p, j) == PrevPos(t, j);
      DeltasTotal(p);
      DeltasOfLength(p);
    }
  }

  // ---------------------------------------------------------------------------------------
  // The tempo track

  /** The name of the tempo track, "tempo". */
  const TEMPO_NAME: Bytes := [0x74, 0x65, 0x6D, 0x70, 0x6F]

  /** Every tempo change at its position, checked against `MAX_DELTA`. */
  function TempoTimeline(tempo: seq<MidiTempo>): (t: seq<Timed>)
    ensures |t| == |tempo|
    ensures forall k :: 0 <= k < |t| ==> t[k] == Timed(tempo[k].pos, Tempo(Low24(tempo[k].mpq)), true)
  {
    seq(|tempo|, k requires 0 <= k < |tempo| => Timed(tempo[k].pos, Tempo(Low24(tempo[k].mpq)), true))
  }

  /** The tempo track `generate_tempo_track` builds: the track name, the tempo changes with
    * delta times, the end of the track. */
  function TempoTrackOf(tempo: seq<MidiTempo>): Result<seq<TrackEvent>, MidiIoError> {
    match DeltasOf(TempoTimeline(tempo))
    case Ok(w) => Ok([TrackEvent(0, TrackName(TEMPO_NAME))] + w.out + [TrackEvent(0, EndOfTrack)])
    case Err(e) => Err(e)
  }

  /** The loop of `generate_tempo_track`. */
  method GenerateTempoTrack(tempo: seq<MidiTempo>) returns (r: Result<seq<TrackEvent>, MidiIoError>)
    ensures r == TempoTrackOf(tempo)
  {
    ghost var t := TempoTimeline(tempo);
    var out: seq<TrackEvent> := [];
    var current: nat := 0;
    var i := 0;
    assert t[..0] == [];
    while i < |tempo|
      invariant 0 <= i <= |tempo|
      invariant DeltasOf(t[..i]) == Ok(Written(out, current))
    {
      assert t[..i + 1][..i] == t[..i];
      if tempo[i].pos < current {
        DeltasOfErrExtends(t[..i + 1], t[i + 1..]);
        assert t[..i + 1] + t[i + 1..] == t;
        return Err(Overflow);
      }
      var delta := tempo[i].pos - current;
      if delta > MAX_DELTA {
        DeltasOfErrExtends(t[..i + 1], t[i + 1..]);
        assert t[..i + 1] + t[i + 1..] == t;
        return Err(DeltaTooLarge(delta));
      }
      out := out + [TrackEvent(delta, Tempo(Low24(tempo[i].mpq)))];
      current := tempo[i].pos;
      i := i + 1;
    }
    assert t[..i] == t;
    r := Ok([TrackEvent(0, TrackName(TEMPO_NAME))] + out + [TrackEvent(0, EndOfTrack)]);
  }

  /** The position before the `k`-th tempo change. */
  function PrevTempoPos(tempo: seq<MidiTempo>, k: nat): nat
    requires k < |tempo|
  {
    if k == 0 then 0 else tempo[k - 1].pos
  }

  /** The tempo changes are in position order, none more than `MAX_DELTA` after the one
    * before it (the first counted from 0). */
  ghost predicate TempoWritable(tempo: seq<MidiTempo>) {
    forall k :: 0 <= k < |tempo| ==> PrevTempoPos(tempo, k) <= tempo[k].pos <= PrevTempoPos(tempo, k) + MAX_DELTA
  }

  /** Writing the tempo track fails exactly when the tempo changes are out of order or two
    * are too far apart; the track starts with its name and ends with the end of the track,
    * with one event per tempo change between. */
  lemma TempoTrackOk(tempo: seq<MidiTempo>)
    ensures TempoTrackOf(tempo).Ok? <==> TempoWritable(tempo)
    ensures TempoTrackOf(tempo).Ok? ==> var r := TempoTrackOf(tempo).value;
      |r| == |tempo| + 2 && r[0] == TrackEvent(0, TrackName(TEMPO_NAME)) && r[|r| - 1] == TrackEvent(0, EndOfTrack)
  {
    var t := TempoTimeline(tempo);
    DeltasOfOk(t);
    assert forall k :: 0 <= k < |t| ==> PrevPos(t, k) == PrevTempoPos(tempo, k);
    if DeltasOf(t).Ok? {
      DeltasOfLength(t);
    }
  }

  /** The tempo changes read from the concatenation of two tracks: those of the first, then
    * those of the second from where the first ends. */
  lemma {:induction false} TemposFromAppend(a: seq<TrackEvent>, b: seq<TrackEvent>, start: nat)
    requires start + TotalTicks(a + b) < U64_LIMIT
    ensures TotalTicks(a + b) == TotalTicks(a) + TotalTicks(b)
    ensures TemposFrom(a + b, start) == TemposFrom(a, start) + TemposFrom(b, start + TotalTicks(a))
    decreases |a|
  {
    if a == [] {
      assert a + b == b;
    } else {
      assert (a + b)[0] == a[0] && (a + b)[1..] == a[1..] + b;
      TemposFromAppend(a[1..], b, start + a[0].delta);
    }
  }

  /** Reading back a written tempo track gives the tempo list back, when every tempo fits the
    * 24 bits of the event. */
  lemma TempoRoundTrip(tempo: seq<MidiTempo>)
    requires TempoTrackOf(tempo).Ok?
    requires forall k :: 0 <= k < |tempo| ==> tempo[k].mpq < 0x100_0000
    ensures TotalTicks(TempoTrackOf(tempo).value) < U64_LIMIT
    ensures TemposFrom(TempoTrackOf(tempo).value, 0) == tempo
  {
    var w := DeltasOf(TempoTimeline(tempo)).value;
    TemposFromWritten(tempo);
    var head := [TrackEvent(0, TrackName(TEMPO_NAME))];
    var tail := [TrackEvent(0, EndOfTrack)];
    assert TempoTrackOf(tempo).value == head + (w.out + tail);
    assert TotalTicks(tail) == 0 && TemposFrom(tail, w.prev) == [];
    TotalTicksSnoc(w.out, tail[0]);
    TemposFromAppend(w.out, tail, 0);
    assert (head + (w.out + tail))[1..] == w.out + tail;
    assert TotalTicks(head) == 0 && TemposFrom(head, 0) == [];
    TemposFromAppend(head, w.out + tail, 0);
  }

  /** The tempo changes read from the written tempo events are the tempo list, and the
    * deltas add up to the position of the last one. */
  lemma {:induction false} TemposFromWritten(tempo: seq<MidiTempo>)
    requires DeltasOf(TempoTimeline(tempo)).Ok?
    requires forall k :: 0 <= k < |tempo| ==> tempo[k].mpq < 0x100_0000
    ensures TotalTicks(DeltasOf(TempoTimeline(tempo)).value.out) == DeltasOf(TempoTimeline(tempo)).value.prev
    ensures DeltasOf(TempoTimeline(tempo)).value.prev < U64_LIMIT
    ensures TemposFrom(DeltasOf(TempoTimeline(tempo)).value.out, 0) == tempo
    decreases |tempo|
  {
    var t := TempoTimeline(tempo);
    if tempo != [] {
      var n := |tempo| - 1;
      var init, last := tempo[..n], tempo[n];
      DeltasOfLast(t);
      var w0 := DeltasOf(t[..n]).value;
      assert TotalTicks(w0.out) == w0.prev && TemposFrom(w0.out, 0) == init by {
        assert TempoTimeline(init) == t[..n];
        TemposFromWritten(init);
      }
      var e := TrackEvent(Delta28(last.pos - w0.prev), Tempo(Low24(last.mpq)));
      assert w0.prev <= last.pos && last.pos - w0.prev <= MAX_DELTA
        && DeltasOf(t).value == Written(w0.out + [e], last.pos) by {
        assert t[n] == Timed(last.pos, Tempo(Low24(last.mpq)), true);
      }
      TempoWrittenStep(w0.out, w0.prev, init, last);
      assert init + [last] == tempo;
    }
  }

  /** Reading one more written tempo event adds its tempo change at its position. */
  lemma TempoWrittenStep(out: seq<TrackEvent>, prev: nat, init: seq<MidiTempo>, last: MidiTempo)
    requires TotalTicks(out) == prev <= last.pos && TemposFrom(out, 0) == init && last.mpq < 0x100_0000
    ensures var e := TrackEvent(Delta28(last.pos - prev), Tempo(Low24(last.mpq)));
      last.pos - prev <= MAX_DELTA ==>
        TotalTicks(out + [e]) == last.pos && TemposFrom(out + [e], 0) == init + [last]
  {
    var e := TrackEvent(Delta28(last.pos - prev), Tempo(Low24(last.mpq)));
    if last.pos - prev <= MAX_DELTA {
      TotalTicksSnoc(out, e);
      TemposFromAppend(out, [e], 0);
      assert TemposFrom([e], prev) == [last] by {
        assert Low24(last.mpq) == last.mpq;
        assert TemposFrom([e][1..], last.pos) == [];
      }
    }
  }

  /** Writing a timeline ends with writing its last event after the others. */
  lemma DeltasOfLast(t: seq<Timed>)
    requires t != [] && DeltasOf(t).Ok?
    ensures var n := |t| - 1; var w0 := DeltasOf(t[..n]);
      w0.Ok? && w0.value.prev <= t[n].pos && (t[n].checked ==> t[n].pos - w0.value.prev <= MAX_DELTA)
      && DeltasOf(t).value == Written(w0.value.out + [TrackEvent(Delta28(t[n].pos - w0.value.prev), t[n].kind)], t[n].pos)
  {
  }

  // ---------------------------------------------------------------------------------------
  // Note tracks

  /** A note-off still to be written: `(off_pos, pitch, channel, velocity)` in the heap of
    * `generate_track`. */
  datatype Off = Off(pos: nat, pitch: U8, channel: U8, velocity: U8)

  /** The order of the heap's tuples: by position, then pitch, channel and velocity. */
  predicate OffLe(a: Off, b: Off) {
    a.pos < b.pos || (a.pos == b.pos &&
      (a.pitch < b.pitch || (a.pitch == b.pitch &&
        (a.channel < b.channel || (a.channel == b.channel && a.velocity <= b.velocity)))))
  }

  /** The pending note-offs, smallest first: the order a min-heap hands them out in. */
  ghost predicate OffsSorted(offs: seq<Off>) {
    forall i, j :: 0 <= i < j < |offs| ==> OffLe(offs[i], offs[j])
  }

  /** Pushing onto the heap: the note-off goes before the first larger one. */
  function InsertOff(offs: seq<Off>, o: Off): seq<Off>
    decreases |offs|
  {
    if offs == [] || OffLe(o, offs[0]) then [o] + offs
    else [offs[0]] + InsertOff(offs[1..], o)
  }

  /** The note-off event written for a pending note-off; its delta is not checked. */
  function OffEvent(o: Off): Timed {
    Timed(o.pos, NoteOff(Low4(o.channel), Low7(o.pitch), Low7(o.velocity)), false)
  }

  /** The event written for a track event: a note becomes its note-on. */
  function EventKindOf(ev: MidiEvent): EventKind {
    match ev
    case Note(n) => NoteOn(Low4(n.channel), Low7(n.pitch), Low7(n.velocity))
    case Meta(m) => (match m.text case TextEvent(d) => Text(d) case Lyric(d) => LyricText(d))
    case SysEx(x) => SysExData(x.data)
  }

  /** The note-offs of the heap up to `limit`, smallest first, and what is left. */
  function FlushUpTo(offs: seq<Off>, limit: nat): (seq<Timed>, seq<Off>)
    decreases |offs|
  {
    if offs == [] || offs[0].pos > limit then ([], offs)
    else
      var r := FlushUpTo(offs[1..], limit);
      ([OffEvent(offs[0])] + r.0, r.1)
  }

  /** The note-offs left at the end of the track, in heap order. */
  function FlushAll(offs: seq<Off>): seq<Timed>
    decreases |offs|
  {
    if offs == [] then [] else [OffEvent(offs[0])] + FlushAll(offs[1..])
  }

  /** The heap and the timeline built so far. */
  datatype Plan = Plan(offs: seq<Off>, timed: seq<Timed>)

  /** One event of the track: the note-offs due by its position come first, then the event;
    * a note also pushes its note-off at its end, which must fit in 64 bits. */
  function PlanStep(p: Plan, ev: MidiEvent): Result<Plan, MidiIoError> {
    var pos := ev.Pos();
    var flushed := FlushUpTo(p.offs, pos);
    var timed := p.timed + flushed.0 + [Timed(pos, EventKindOf(ev), true)];
    match ev
    case Note(n) =>
      if pos + n.length >= U64_LIMIT then Err(Overflow)
      else Ok(Plan(InsertOff(flushed.1, Off(pos + n.length, n.pitch, n.channel, n.velocity)), timed))
    case _ => Ok(Plan(flushed.1, timed))
  }

  /** The plan after the first `i` events of the track. */
  function PlanUpTo(events: seq<MidiEvent>, i: nat): Result<Plan, MidiIoError>
    requires i <= |events|
  {
    if i == 0 then Ok(Plan([], []))
    else
      match PlanUpTo(events, i - 1)
      case Ok(p) => PlanStep(p, events[i - 1])
      case Err(e) => Err(e)
  }

  /** Everything `generate_track` writes between the name and the end, at absolute
    * positions: the events with the note-offs woven in, then the note-offs left. */
  function Timeline(events: seq<MidiEvent>): Result<seq<Timed>, MidiIoError> {
    match PlanUpTo(events, |events|)
    case Ok(p) => Ok(p.timed + FlushAll(p.offs))
    case Err(e) => Err(e)
  }

  /** The track-name event, when the track has a name. */
  function NameEvents(name: Option<Bytes>): seq<TrackEvent> {
    match name
    case Some(n) => [TrackEvent(0, TrackName(n))]
    case None => []
  }

  /** The track `generate_track` builds. */
  function TrackEventsOf(track: MidiTrack): Result<seq<TrackEvent>, MidiIoError> {
    match Timeline(track.events)
    case Err(e) => Err(e)
    case Ok(t) =>
      match DeltasOf(t)
      case Ok(w) => Ok(NameEvents(track.name) + w.out + [TrackEvent(0, EndOfTrack)])
      case Err(e) => Err(e)
  }

  /** The timeline after fewer events is a prefix of the timeline after more. */
  lemma {:induction false} PlanPrefix(events: seq<MidiEvent>, i: nat, j: nat)
    requires i <= j <= |events| && PlanUpTo(events, j).Ok?
    ensures PlanUpTo(events, i).Ok? && PlanUpTo(events, i).value.timed <= PlanUpTo(events, j).value.timed
    decreases j
  {
    if i < j {
      PlanPrefix(events, i, j - 1);
      var a := PlanUpTo(events, i).value.timed;
      var b := PlanUpTo(events, j - 1).value.timed;
      var c := PlanUpTo(events, j).value.timed;
      assert b <= c;
      assert c[..|a|] == b[..|a|];
    }
  }

  /** A writing that fails on a prefix of the timeline fails on the whole. */
  lemma DeltasOfErrPrefix(t: seq<Timed>, u: seq<Timed>)
    requires t <= u && DeltasOf(t).Err?
    ensures DeltasOf(u).Err?
  {
    assert u == t + u[|t|..];
    DeltasOfErrExtends(t, u[|t|..]);
  }

  /** A failure while writing event `i` of the track, or the note-offs due before it, is a
    * failure of the whole track. */
  lemma TrackErrAt(events: seq<MidiEvent>, i: nat, p: Plan, t: seq<Timed>)
    requires i < |events| && PlanUpTo(events, i) == Ok(p) && DeltasOf(t).Err?
    requires t <= p.timed + FlushUpTo(p.offs, events[i].Pos()).0 + [Timed(events[i].Pos(), EventKindOf(events[i]), true)]
    ensures Timeline(events).Err? || DeltasOf(Timeline(events).value).Err?
  {
    if Timeline(events).Ok? {
      PlanPrefix(events, i + 1, |events|);
      var q := PlanUpTo(events, i + 1).value.timed;
      var r := PlanUpTo(events, |events|).value;
      assert t <= q;
      assert q <= r.timed;
      assert r.timed <= Timeline(events).value;
      assert t <= Timeline(events).value by {
        assert Timeline(events).value[..|t|] == q[..|t|];
      }
      DeltasOfErrPrefix(t, Timeline(events).value);
    }
  }

  /** The first loop of `generate_track` for one event: the note-offs due by `limit` are
    * taken from the heap, smallest first, and written. */
  method WriteDueOffs(offs: seq<Off>, out: seq<TrackEvent>, prev: nat, limit: nat, ghost timed: seq<Timed>)
    returns (offs': seq<Off>, out': seq<TrackEvent>, prev': nat, ghost timed': seq<Timed>, failed: bool)
    requires DeltasOf(timed) == Ok(Written(out, prev))
    ensures timed' <= timed + FlushUpTo(offs, limit).0
    ensures failed ==> DeltasOf(timed').Err?
    ensures !failed ==>
      offs' == FlushUpTo(offs, limit).1 && timed' == timed + FlushUpTo(offs, limit).0
      && DeltasOf(timed') == Ok(Written(out', prev'))
  {
    offs', out', prev', timed' := offs, out, prev, timed;
    ghost var flushed := FlushUpTo(offs, limit);
    while offs' != [] && offs'[0].pos <= limit
      invariant FlushUpTo(offs', limit).1 == flushed.1
      invariant timed' + FlushUpTo(offs', limit).0 == timed + flushed.0
      invariant DeltasOf(timed') == Ok(Written(out', prev'))
      decreases |offs'|
    {
      var o := offs'[0];
      assert FlushUpTo(offs', limit).0 == [OffEvent(o)] + FlushUpTo(offs'[1..], limit).0;
      assert (timed' + [OffEvent(o)])[..|timed'|] == timed';
      if o.pos < prev' {
        timed' := timed' + [OffEvent(o)];
        return offs', out', prev', timed', true;
      }
      var offDelta := o.pos - prev';
      out' := out' + [TrackEvent(Delta28(offDelta), NoteOff(Low4(o.channel), Low7(o.pitch), Low7(o.velocity)))];
      prev' := o.pos;
      timed' := timed' + [OffEvent(o)];
      offs' := offs'[1..];
    }
    failed := false;
  }

  /** The last loop of `generate_track`: every note-off left in the heap, smallest first. */
  method WriteRemainingOffs(offs: seq<Off>, out: seq<TrackEvent>, prev: nat, ghost timed: seq<Timed>)
    returns (out': seq<TrackEvent>, ghost timed': seq<Timed>, failed: bool)
    requires DeltasOf(timed) == Ok(Written(out, prev))
    ensures timed' <= timed + FlushAll(offs)
    ensures failed ==> DeltasOf(timed').Err?
    ensures !failed ==> timed' == timed + FlushAll(offs) && DeltasOf(timed').Ok? && DeltasOf(timed').value.out == out'
  {
    out', timed' := out, timed;
    var prev' := prev;
    var rest := offs;
    while rest != []
      invariant timed' + FlushAll(rest) == timed + FlushAll(offs)
      invariant DeltasOf(timed') == Ok(Written(out', prev'))
      decreases |rest|
    {
      var o := rest[0];
      assert FlushAll(rest) == [OffEvent(o)] + FlushAll(rest[1..]);
      assert (timed' + [OffEvent(o)])[..|timed'|] == timed';
      if o.pos < prev' {
        timed' := timed' + [OffEvent(o)];
        return out', timed', true;
      }
      var offDelta := o.pos - prev';
      out' := out' + [TrackEvent(Delta28(offDelta), NoteOff(Low4(o.channel), Low7(o.pitch), Low7(o.velocity)))];
      prev' := o.pos;
      timed' := timed' + [OffEvent(o)];
      rest := rest[1..];
    }
    failed := false;
  }

  /** Writing one more event continues the writing of those before it. */
  lemma DeltasOfSnoc(t: seq<Timed>, x: Timed)
    ensures DeltasOf(t + [x]) == match DeltasOf(t) case Ok(w) => DeltaStep(w, x) case Err(e) => Err(e)
  {
    assert (t + [x])[..|t|] == t;
  }

  /** A checked event at most `MAX_DELTA` after the previous one is written with its
    * distance as its delta. */
  lemma DeltaStepChecked(w: Written, x: Timed)
    requires w.prev <= x.pos <= w.prev + MAX_DELTA
    ensures DeltaStep(w, x) == Ok(Written(w.out + [TrackEvent(x.pos - w.prev, x.kind)], x.pos))
  {
  }

  /** The plan after one more event: the note-offs due written, then the event; a note's own
    * note-off pushed, or the whole timeline failing when the note ends past the 64-bit range. */
  lemma PlanNext(events: seq<MidiEvent>, i: nat, p: Plan)
    requires i < |events| && PlanUpTo(events, i) == Ok(p)
    ensures var ev := events[i];
      var flushed := FlushUpTo(p.offs, ev.Pos());
      var timed := p.timed + flushed.0 + [Timed(ev.Pos(), EventKindOf(ev), true)];
      (!ev.Note? ==> PlanUpTo(events, i + 1) == Ok(Plan(flushed.1, timed)))
      && (ev.Note? && ev.note.pos + ev.note.length < U64_LIMIT ==>
            PlanUpTo(events, i + 1) == Ok(Plan(InsertOff(flushed.1, Off(ev.note.pos + ev.note.length, ev.note.pitch, ev.note.channel, ev.note.velocity)), timed)))
      && (ev.Note? && ev.note.pos + ev.note.length >= U64_LIMIT ==> Timeline(events).Err?)
  {
    if events[i].Note? && events[i].note.pos + events[i].note.length >= U64_LIMIT {
      PlanErrStays(events, i + 1);
    }
  }

  /** A failure while planning the first `i` events is a failure of the whole timeline. */
  lemma PlanErrStays(events: seq<MidiEvent>, i: nat)
    requires i <= |events| && PlanUpTo(events, i).Err?
    ensures Timeline(events).Err?
  {
    if Timeline(events).Ok? {
      PlanPrefix(events, i, |events|);
    }
  }

  /** `generate_track`: the track name, then each event after the note-offs due by its
    * position, then the note-offs left, then the end of the track. It fails exactly when
    * the track it is specified by fails, and otherwise writes that track. */
  method GenerateTrack(track: MidiTrack) returns (r: Result<seq<TrackEvent>, MidiIoError>)
    ensures r.Ok? <==> TrackEventsOf(track).Ok?
    ensures r.Ok? ==> r == TrackEventsOf(track)
  {
    var events := track.events;
    var out: seq<TrackEvent> := [];
    var offs: seq<Off> := [];
    var prev: nat := 0;
    ghost var timed: seq<Timed> := [];
    for i := 0 to |events|
      invariant PlanUpTo(events, i) == Ok(Plan(offs, timed))
      invariant DeltasOf(timed) == Ok(Written(out, prev))
    {
      var err: Option<MidiIoError>;
      offs, out, prev, timed, err := WriteEvent(events, i, offs, out, prev, timed);
      if err.Some? {
        return Err(err.value);
      }
    }
    ghost var whole := timed + FlushAll(offs);
    var failed: bool;
    ghost var written: seq<Timed>;
    out, written, failed := WriteRemainingOffs(offs, out, prev, timed);
    if failed {
      DeltasOfErrPrefix(written, whole);
      return Err(Overflow);
    }
    r := Ok(NameEvents(track.name) + out + [TrackEvent(0, EndOfTrack)]);
  }

  /** One turn of the event loop of `generate_track`: the note-offs due, then the event with
    * its delta checked, then its note-off pushed onto the heap. A failure here is a failure
    * of the whole track. */
  method WriteEvent(events: seq<MidiEvent>, i: nat, offs: seq<Off>, out: seq<TrackEvent>, prev: nat, ghost timed: seq<Timed>)
    returns (offs': seq<Off>, out': seq<TrackEvent>, prev': nat, ghost timed': seq<Timed>, err: Option<MidiIoError>)
    requires i < |events| && PlanUpTo(events, i) == Ok(Plan(offs, timed))
    requires DeltasOf(timed) == Ok(Written(out, prev))
    ensures err.None? ==> PlanUpTo(events, i + 1) == Ok(Plan(offs', timed')) && DeltasOf(timed') == Ok(Written(out', prev'))
    ensures err.Some? ==> Timeline(events).Err? || DeltasOf(Timeline(events).value).Err?
  {
    var ev := events[i];
    var pos := ev.Pos();
    ghost var p := Plan(offs, timed);
    ghost var flushed := FlushUpTo(offs, pos);
    var failed: bool;
    offs', out', prev', timed', failed := WriteDueOffs(offs, out, prev, pos, timed);
    if failed {
      TrackErrAt(events, i, p, timed');
      return offs', out', prev', timed', Some(Overflow);
    }
    offs', out', prev', timed', err := WriteChecked(events, i, p, offs', out', prev', timed');
  }

  /** The second half of a turn of the event loop: the event itself, after the note-offs due
    * before it have been written. */
  method WriteChecked(events: seq<MidiEvent>, i: nat, ghost p: Plan, offs: seq<Off>, out: seq<TrackEvent>, prev: nat, ghost due: seq<Timed>)
    returns (offs': seq<Off>, out': seq<TrackEvent>, prev': nat, ghost timed': seq<Timed>, err: Option<MidiIoError>)
    requires i < |events| && PlanUpTo(events, i) == Ok(p)
    requires offs == FlushUpTo(p.offs, events[i].Pos()).1 && due == p.timed + FlushUpTo(p.offs, events[i].Pos()).0
    requires DeltasOf(due) == Ok(Written(out, prev))
    ensures err.None? ==> PlanUpTo(events, i + 1) == Ok(Plan(offs', timed')) && DeltasOf(timed') == Ok(Written(out', prev'))
    ensures err.Some? ==> Timeline(events).Err? || DeltasOf(Timeline(events).value).Err?
  {
    var ev := events[i];
    var pos := ev.Pos();
    ghost var flushed := FlushUpTo(p.offs, pos);
    ghost var x := Timed(pos, EventKindOf(ev), true);
    offs', out', prev', timed' := offs, out, prev, due;
    DeltasOfSnoc(due, x);
    assert (due + [x])[..|due|] == due;
    if pos < prev {
      TrackErrAt(events, i, p, due + [x]);
      return offs', out', prev', timed', Some(Overflow);
    }
    var delta := pos - prev;
    if delta > MAX_DELTA {
      TrackErrAt(events, i, p, due + [x]);
      return offs', out', prev', timed', Some(DeltaTooLarge(delta));
    }
    DeltaStepChecked(Written(out, prev), x);
    PlanNext(events, i, p);
    if ev.Note? {
      var n := ev.note;
      if pos + n.length >= U64_LIMIT {
        return offs', out', prev', timed', Some(Overflow);
      }
      offs' := InsertOff(offs, Off(pos + n.length, n.pitch, n.channel, n.velocity));
    }
    out' := out + [TrackEvent(delta, EventKindOf(ev))];
    timed' := due + [x];
    prev' := pos;
    err := None;
  }

  // ---------------------------------------------------------------------------------------
  // What a written track holds

  /** The events of a timeline that come from the track, in order. */
  function CheckedOf(t: seq<Timed>): seq<Timed>
    decreases |t|
  {
    if t == [] then [] else (if t[0].checked then [t[0]] else []) + CheckedOf(t[1..])
  }

  /** The note-offs of a timeline, in order. */
  function UncheckedOf(t: seq<Timed>): seq<Timed>
    decreases |t|
  {
    if t == [] then [] else (if t[0].checked then [] else [t[0]]) + UncheckedOf(t[1..])
  }

  lemma {:induction false} FilterAppend(a: seq<Timed>, b: seq<Timed>)
    ensures CheckedOf(a + b) == CheckedOf(a) + CheckedOf(b)
    ensures UncheckedOf(a + b) == UncheckedOf(a) + UncheckedOf(b)
    decreases |a|
  {
    if a == [] {
      assert a + b == b;
    } else {
      var ab := a + b;
      assert ab[0] == a[0];
      assert ab[1..] == a[1..] + b;
      FilterAppend(a[1..], b);
      var h := if a[0].checked then [a[0]] else [];
      var u := if a[0].checked then [] else [a[0]];
      assert CheckedOf(ab) == h + CheckedOf(a[1..] + b);
      assert CheckedOf(a) == h + CheckedOf(a[1..]);
      assert UncheckedOf(ab) == u + UncheckedOf(a[1..] + b);
      assert UncheckedOf(a) == u + UncheckedOf(a[1..]);
    }
  }

  lemma {:induction false} FlushAllUnchecked(offs: seq<Off>)
    ensures CheckedOf(FlushAll(offs)) == [] && UncheckedOf(FlushAll(offs)) == FlushAll(offs)
    decreases |offs|
  {
    if offs != [] {
      FlushAllUnchecked(offs[1..]);
    }
  }

  /** The note-offs due by a limit, then all those left, are all the note-offs, in order. */
  lemma {:induction false} FlushUpToSplit(offs: seq<Off>, limit: nat)
    ensures FlushUpTo(offs, limit).0 + FlushAll(FlushUpTo(offs, limit).1) == FlushAll(offs)
    decreases |offs|
  {
    if offs != [] && offs[0].pos <= limit {
      FlushUpToSplit(offs[1..], limit);
    }
  }

  /** Pushing a note-off adds it to those the heap holds. */
  lemma {:induction false} InsertOffAll(offs: seq<Off>, o: Off)
    ensures multiset(FlushAll(InsertOff(offs, o))) == multiset(FlushAll(offs)) + multiset{OffEvent(o)}
    decreases |offs|
  {
    if offs != [] && !OffLe(o, offs[0]) {
      InsertOffAll(offs[1..], o);
    }
  }

  /** The timed event a track event is written as. */
  function EventTimed(ev: MidiEvent): Timed {
    Timed(ev.Pos(), EventKindOf(ev), true)
  }

  /** The track events as timed events, in order. */
  function EventsTimed(events: seq<MidiEvent>): seq<Timed>
    decreases |events|
  {
    if events == [] then [] else EventsTimed(events[..|events| - 1]) + [EventTimed(events[|events| - 1])]
  }

  /** The note-off a note of the track is closed with: at its end, with its pitch, channel
    * and velocity; none for the other events. */
  function OffsOfEvent(ev: MidiEvent): seq<Timed> {
    if ev.Note? then [OffEvent(Off(ev.note.pos + ev.note.length, ev.note.pitch, ev.note.channel, ev.note.velocity))]
    else []
  }

  /** The note-offs of every note of the track. */
  function NoteOffsOf(events: seq<MidiEvent>): seq<Timed>
    decreases |events|
  {
    if events == [] then [] else NoteOffsOf(events[..|events| - 1]) + OffsOfEvent(events[|events| - 1])
  }

  lemma {:induction false} FlushUpToUnchecked(offs: seq<Off>, limit: nat)
    ensures CheckedOf(FlushUpTo(offs, limit).0) == [] && UncheckedOf(FlushUpTo(offs, limit).0) == FlushUpTo(offs, limit).0
    decreases |offs|
  {
    if offs != [] && offs[0].pos <= limit {
      FlushUpToUnchecked(offs[1..], limit);
    }
  }

  /** One step of the plan adds the event to the written events, and its note-off, if any,
    * to the note-offs written or pending. */
  lemma PlanStepContents(p: Plan, ev: MidiEvent)
    requires PlanStep(p, ev).Ok?
    ensures var q := PlanStep(p, ev).value;
      CheckedOf(q.timed) == CheckedOf(p.timed) + [EventTimed(ev)]
      && multiset(UncheckedOf(q.timed)) + multiset(FlushAll(q.offs))
         == multiset(UncheckedOf(p.timed)) + multiset(FlushAll(p.offs)) + multiset(OffsOfEvent(ev))
  {
    var q := PlanStep(p, ev).value;
    var flushed := FlushUpTo(p.offs, ev.Pos());
    assert q.timed == (p.timed + flushed.0) + [EventTimed(ev)];
    assert CheckedOf(q.timed) == CheckedOf(p.timed) + [EventTimed(ev)]
      && UncheckedOf(q.timed) == UncheckedOf(p.timed) + flushed.0 by {
      StepFilters(p.timed, flushed.0, EventTimed(ev));
      FlushUpToUnchecked(p.offs, ev.Pos());
    }
    FlushUpToSplit(p.offs, ev.Pos());
    var pending := multiset(FlushAll(flushed.1));
    assert multiset(FlushAll(p.offs)) == multiset(flushed.0) + pending;
    PlanStepOffs(p, ev);
    MultisetRegroup(multiset(UncheckedOf(p.timed)), multiset(flushed.0), pending, multiset(OffsOfEvent(ev)));
  }

  /** The written and the note-off events of a timeline grown by some note-offs and one
    * checked event. */
  lemma StepFilters(t: seq<Timed>, f: seq<Timed>, x: Timed)
    requires x.checked
    ensures CheckedOf(t + f + [x]) == CheckedOf(t) + CheckedOf(f) + [x]
    ensures UncheckedOf(t + f + [x]) == UncheckedOf(t) + UncheckedOf(f)
  {
    FilterAppend(t, f);
    FilterAppend(t + f, [x]);
    assert UncheckedOf([x]) == [] && CheckedOf([x]) == [x];
  }

  /** The note-offs still pending after a step: those not yet due, and the event's own. */
  lemma PlanStepOffs(p: Plan, ev: MidiEvent)
    requires PlanStep(p, ev).Ok?
    ensures multiset(FlushAll(PlanStep(p, ev).value.offs))
      == multiset(FlushAll(FlushUpTo(p.offs, ev.Pos()).1)) + multiset(OffsOfEvent(ev))
  {
    var rest := FlushUpTo(p.offs, ev.Pos()).1;
    match ev
    case Note(n) =>
      var o := Off(ev.Pos() + n.length, n.pitch, n.channel, n.velocity);
      assert PlanStep(p, ev).value.offs == InsertOff(rest, o);
      assert OffsOfEvent(ev) == [OffEvent(o)];
      InsertOffAll(rest, o);
    case _ =>
      assert PlanStep(p, ev).value.offs == rest;
      assert OffsOfEvent(ev) == [];
  }

  lemma MultisetRegroup<T>(u: multiset<T>, f: multiset<T>, r: multiset<T>, o: multiset<T>)
    ensures (u + f) + (r + o) == u + (f + r) + o
  {
  }

  /** After `i` events, the plan holds those events in order, and its note-offs, written or
    * still in the heap, are those of their notes. */
  lemma {:induction false} PlanContents(events: seq<MidiEvent>, i: nat)
    requires i <= |events| && PlanUpTo(events, i).Ok?
    ensures var p := PlanUpTo(events, i).value;
      CheckedOf(p.timed) == EventsTimed(events[..i])
      && multiset(UncheckedOf(p.timed)) + multiset(FlushAll(p.offs)) == multiset(NoteOffsOf(events[..i]))
  {
    if i == 0 {
      assert events[..0] == [];
    } else {
      var ev := events[i - 1];
      assert PlanUpTo(events, i - 1).Ok?;
      var p := PlanUpTo(events, i - 1).value;
      assert PlanUpTo(events, i) == PlanStep(p, ev);
      assert CheckedOf(p.timed) == EventsTimed(events[..i - 1])
        && multiset(UncheckedOf(p.timed)) + multiset(FlushAll(p.offs)) == multiset(NoteOffsOf(events[..i - 1])) by {
        PlanContents(events, i - 1);
      }
      assert EventsTimed(events[..i]) == EventsTimed(events[..i - 1]) + [EventTimed(ev)]
        && NoteOffsOf(events[..i]) == NoteOffsOf(events[..i - 1]) + OffsOfEvent(ev) by {
        assert events[..i][..i - 1] == events[..i - 1] && events[..i][i - 1] == ev;
      }
      PlanStepContents(p, ev);
    }
  }

  /** A written track holds every event of the track once, in order, at its position (a note
    * as its note-on), and exactly one note-off per note, at the note's end. */
  lemma TimelineContents(events: seq<MidiEvent>)
    requires Timeline(events).Ok?
    ensures CheckedOf(Timeline(events).value) == EventsTimed(events)
    ensures multiset(UncheckedOf(Timeline(events).value)) == multiset(NoteOffsOf(events))
  {
    var p := PlanUpTo(events, |events|).value;
    PlanContents(events, |events|);
    assert events[..|events|] == events;
    FilterAppend(p.timed, FlushAll(p.offs));
    FlushAllUnchecked(p.offs);
  }

  /** Writing a track fails on the timeline exactly when a note ends past the 64-bit range. */
  lemma {:induction false} PlanOk(events: seq<MidiEvent>, i: nat)
    requires i <= |events|
    ensures PlanUpTo(events, i).Ok? <==>
      forall k :: 0 <= k < i && events[k].Note? ==> events[k].note.pos + events[k].note.length < U64_LIMIT
  {
    if i > 0 {
      PlanOk(events, i - 1);
    }
  }

  // ---------------------------------------------------------------------------------------
  // The heap of pending note-offs

  /** Pushing onto the heap adds exactly the one note-off. */
  lemma {:induction false} InsertOffMultiset(offs: seq<Off>, o: Off)
    ensures |InsertOff(offs, o)| == |offs| + 1
    ensures multiset(InsertOff(offs, o)) == multiset(offs) + multiset{o}
    decreases |offs|
  {
    if offs != [] && !OffLe(o, offs[0]) {
      InsertOffMultiset(offs[1..], o);
      assert offs == [offs[0]] + offs[1..];
    }
  }

  /** Pushing onto the heap keeps it in order. */
  lemma {:induction false} InsertOffSorted(offs: seq<Off>, o: Off)
    requires OffsSorted(offs)
    ensures OffsSorted(InsertOff(offs, o))
    decreases |offs|
  {
    if offs != [] && !OffLe(o, offs[0]) {
      var tail := offs[1..];
      InsertOffSorted(tail, o);
      InsertOffMultiset(tail, o);
      var t := InsertOff(tail, o);
      forall j | 0 <= j < |t|
        ensures OffLe(offs[0], t[j])
      {
        assert t[j] in multiset(t);
        if t[j] != o {
          assert t[j] in multiset(tail);
          var k :| 0 <= k < |tail| && tail[k] == t[j];
          assert tail[k] == offs[k + 1];
        }
      }
      assert InsertOff(offs, o) == [offs[0]] + t;
    }
  }

  // ---------------------------------------------------------------------------------------
  // The order of a written track

  /** A timeline is in position order. */
  ghost predicate TimedSorted(t: seq<Timed>) {
    forall i, j :: 0 <= i < j < |t| ==> t[i].pos <= t[j].pos
  }

  ghost predicate TimedUpTo(t: seq<Timed>, hi: nat) {
    forall k :: 0 <= k < |t| ==> t[k].pos <= hi
  }

  ghost predicate TimedFrom(t: seq<Timed>, lo: nat) {
    forall k :: 0 <= k < |t| ==> lo <= t[k].pos
  }

  ghost predicate OffsFrom(offs: seq<Off>, lo: nat) {
    forall k :: 0 <= k < |offs| ==> lo <= offs[k].pos
  }

  lemma AppendSorted(a: seq<Timed>, b: seq<Timed>, m: nat)
    requires TimedSorted(a) && TimedSorted(b) && TimedUpTo(a, m) && TimedFrom(b, m)
    ensures TimedSorted(a + b)
  {
    forall i, j | 0 <= i < j < |a + b|
      ensures (a + b)[i].pos <= (a + b)[j].pos
    {
      if j < |a| {
        assert (a + b)[i] == a[i] && (a + b)[j] == a[j];
      } else if i >= |a| {
        assert (a + b)[i] == b[i - |a|] && (a + b)[j] == b[j - |a|];
      } else {
        assert (a + b)[i] == a[i] && (a + b)[j] == b[j - |a|];
      }
    }
  }

  /** The note-offs due by a limit come out in order, between the heap's least position and
    * the limit; those left are in order and past the limit. */
  lemma {:induction false} FlushUpToOrder(offs: seq<Off>, limit: nat, lo: nat)
    requires OffsSorted(offs) && OffsFrom(offs, lo) && lo <= limit
    ensures var f := FlushUpTo(offs, limit);
      TimedSorted(f.0) && TimedFrom(f.0, lo) && TimedUpTo(f.0, limit)
      && OffsSorted(f.1) && OffsFrom(f.1, limit)
    decreases |offs|
  {
    if offs != [] && offs[0].pos <= limit {
      var tail := offs[1..];
      assert OffsFrom(tail, offs[0].pos) by {
        forall k | 0 <= k < |tail| ensures offs[0].pos <= tail[k].pos {
          assert tail[k] == offs[k + 1];
        }
      }
      FlushUpToOrder(tail, limit, offs[0].pos);
      var r := FlushUpTo(tail, limit);
      AppendSorted([OffEvent(offs[0])], r.0, offs[0].pos);
    }
  }

  /** The note-offs left at the end come out in order, from the heap's least position on. */
  lemma {:induction false} FlushAllOrder(offs: seq<Off>, lo: nat)
    requires OffsSorted(offs) && OffsFrom(offs, lo)
    ensures TimedSorted(FlushAll(offs)) && TimedFrom(FlushAll(offs), lo)
    decreases |offs|
  {
    if offs != [] {
      var tail := offs[1..];
      assert OffsFrom(tail, offs[0].pos) by {
        forall k | 0 <= k < |tail| ensures offs[0].pos <= tail[k].pos {
          assert tail[k] == offs[k + 1];
        }
      }
      FlushAllOrder(tail, offs[0].pos);
      AppendSorted([OffEvent(offs[0])], FlushAll(tail), offs[0].pos);
    }
  }

  /** What the plan keeps after an event at position `last`: the heap in order and not before
    * `last`, the timeline in order and not past it. */
  ghost predicate PlanOrdered(p: Plan, last: nat) {
    OffsSorted(p.offs) && OffsFrom(p.offs, last) && TimedSorted(p.timed) && TimedUpTo(p.timed, last)
  }

  lemma PlanStepOrder(p: Plan, ev: MidiEvent, last: nat)
    requires PlanOrdered(p, last) && last <= ev.Pos() && PlanStep(p, ev).Ok?
    ensures PlanOrdered(PlanStep(p, ev).value, ev.Pos())
  {
    var q := PlanStep(p, ev).value;
    assert q.timed == p.timed + FlushUpTo(p.offs, ev.Pos()).0 + [EventTimed(ev)];
    PlanStepTimedOrder(p, ev, last);
    PlanStepOffsOrder(p, ev, last);
  }

  /** The timeline after a step: the note-offs due, then the event, all in order. */
  lemma PlanStepTimedOrder(p: Plan, ev: MidiEvent, last: nat)
    requires PlanOrdered(p, last) && last <= ev.Pos()
    ensures var t := p.timed + FlushUpTo(p.offs, ev.Pos()).0 + [EventTimed(ev)];
      TimedSorted(t) && TimedUpTo(t, ev.Pos())
  {
    var pos := ev.Pos();
    var f := FlushUpTo(p.offs, pos);
    FlushUpToOrder(p.offs, pos, last);
    AppendSorted(p.timed, f.0, last);
    var before := p.timed + f.0;
    assert TimedUpTo(before, pos);
    AppendSorted(before, [EventTimed(ev)], pos);
  }

  /** The heap after a step: in order, and nothing in it before the event. */
  lemma PlanStepOffsOrder(p: Plan, ev: MidiEvent, last: nat)
    requires PlanOrdered(p, last) && last <= ev.Pos() && PlanStep(p, ev).Ok?
    ensures OffsSorted(PlanStep(p, ev).value.offs) && OffsFrom(PlanStep(p, ev).value.offs, ev.Pos())
  {
    var pos := ev.Pos();
    var f := FlushUpTo(p.offs, pos);
    FlushUpToOrder(p.offs, pos, last);
    match ev
    case Note(n) =>
      var o := Off(pos + n.length, n.pitch, n.channel, n.velocity);
      assert PlanStep(p, ev).value.offs == InsertOff(f.1, o);
      InsertOffSorted(f.1, o);
      InsertOffFrom(f.1, o, pos);
    case _ =>
      assert PlanStep(p, ev).value.offs == f.1;
  }

  /** Pushing a note-off at or after a bound keeps every pending position at or after it. */
  lemma {:induction false} InsertOffFrom(offs: seq<Off>, o: Off, lo: nat)
    requires OffsFrom(offs, lo) && lo <= o.pos
    ensures OffsFrom(InsertOff(offs, o), lo)
    decreases |offs|
  {
    if offs != [] && !OffLe(o, offs[0]) {
      var tail := offs[1..];
      assert OffsFrom(tail, lo) by {
        forall k | 0 <= k < |tail| ensures lo <= tail[k].pos {
          assert tail[k] == offs[k + 1];
        }
      }
      InsertOffFrom(tail, o, lo);
      assert InsertOff(offs, o) == [offs[0]] + InsertOff(tail, o);
    }
  }

  /** Over a track in position order, the plan stays in order. */
  lemma {:induction false} PlanOrder(events: seq<MidiEvent>, i: nat)
    requires SortedByPos(events) && i <= |events| && PlanUpTo(events, i).Ok?
    ensures PlanOrdered(PlanUpTo(events, i).value, if i == 0 then 0 else events[i - 1].Pos())
  {
    if i > 0 {
      PlanOrder(events, i - 1);
      PlanStepOrder(PlanUpTo(events, i - 1).value, events[i - 1], if i == 1 then 0 else events[i - 2].Pos());
    }
  }

  /** A track in position order is written in position order, note-offs included. */
  lemma TimelineSorted(events: seq<MidiEvent>)
    requires SortedByPos(events) && Timeline(events).Ok?
    ensures TimedSorted(Timeline(events).value)
  {
    var last := if |events| == 0 then 0 else events[|events| - 1].Pos();
    PlanOrder(events, |events|);
    var p := PlanUpTo(events, |events|).value;
    FlushAllOrder(p.offs, last);
    AppendSorted(p.timed, FlushAll(p.offs), last);
  }
}
