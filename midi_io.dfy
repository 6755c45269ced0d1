/** Reading and writing MIDI tracks (core/grim/src/midi/io.rs): turning a parsed file's events
  * into notes with lengths, and turning tracks back into events with delta times. The events
  * are those of the `midly` crate after parsing; parsing and writing the bytes of a file is
  * that crate's and is not part of this model. Arithmetic overflow stops the program, as
  * in a debug build, and is modelled as an error. */
module MidiIo {
  import opened Wrappers
  import opened Ints
  import opened Utf8
  import opened Midi

  /** The largest delta time `generate_tempo_track` and `generate_track` accept. */
  const MAX_DELTA: nat := 0x800_0000
  /** The number of MIDI keys, the size of the pending-note table. */
  const KEY_COUNT: nat := 0x80

  type U7 = x: int | 0 <= x < 0x80

  /** The kinds of track event the conversion looks at; every other kind is `OtherEvent`. */
  datatype EventKind =
    | TrackName(name: Bytes)
    | Tempo(mpq: U32)
    | EndOfTrack
    | Text(text: Bytes)
    | LyricText(text: Bytes)
    | NoteOn(channel: U8, key: U7, vel: U7)
    | NoteOff(channel: U8, key: U7, vel: U7)
    | SysExData(data: Bytes)
    | OtherEvent

  /** A track event: the ticks since the previous event of its track, and its kind. */
  datatype TrackEvent = TrackEvent(delta: U32, kind: EventKind)

  datatype MidiIoError = DeltaTooLarge(delta: nat) | Overflow | TimecodeNotSupported

  // ---------------------------------------------------------------------------------------
  // Header fields

  datatype Format = SingleTrack | Parallel | Sequential

  /** The format number `from_path` stores. */
  function FormatCode(f: Format): U16 {
    match f
    case SingleTrack => 0
    case Parallel => 1
    case Sequential => 2
  }

  /** The format `write_to_file` writes for a format number: anything above 1 is sequential. */
  function FormatOfCode(code: U16): Format {
    if code == 0 then SingleTrack else if code == 1 then Parallel else Sequential
  }

  /** Reading then writing keeps the format; writing then reading keeps the numbers 0 to 2 and
    * turns every larger number into 2. */
  lemma FormatRoundTrip(f: Format, code: U16)
    ensures FormatOfCode(FormatCode(f)) == f
    ensures code <= 2 ==> FormatCode(FormatOfCode(code)) == code
    ensures code > 2 ==> FormatCode(FormatOfCode(code)) == 2
  {
  }

  /** The header's timing: metrical (ticks per quarter note) or timecode. */
  datatype Timing = Metrical(ticks: U16) | Timecode(fps: nat, subframe: nat)

  /** The resolution `from_path` stores; timecode timing is refused. */
  function TicksPerQuarter(t: Timing): (r: Result<U16, MidiIoError>)
    ensures r.Ok? <==> t.Metrical?
    ensures r.Ok? ==> r.value == t.ticks
  {
    match t
    case Metrical(ticks) => Ok(ticks)
    case Timecode(_, _) => Err(TimecodeNotSupported)
  }

  // ---------------------------------------------------------------------------------------
  // Absolute positions

  /** The tick position after all the events: the sum of their deltas. */
  function TotalTicks(events: seq<TrackEvent>): nat
    decreases |events|
  {
    if events == [] then 0 else events[0].delta + TotalTicks(events[1..])
  }

  lemma TotalTicksStep(events: seq<TrackEvent>, i: nat)
    requires i < |events|
    ensures TotalTicks(events[i..]) == events[i].delta + TotalTicks(events[i + 1..])
  {
    assert events[i..][1..] == events[i + 1..];
  }

  /** The tempo changes of the tempo track, at the position each is reached after `start`. */
  function TemposFrom(events: seq<TrackEvent>, start: nat): seq<MidiTempo>
    requires start + TotalTicks(events) < U64_LIMIT
    decreases |events|
  {
    if events == [] then []
    else
      var pos := start + events[0].delta;
      var rest := TemposFrom(events[1..], pos);
      if events[0].kind.Tempo? then [MidiTempo(pos, events[0].kind.mpq)] + rest else rest
  }

  /** The tempo list read from a track is in position order, and every change lies between
    * the start and the end of the track. */
  lemma {:induction false} TemposFromSorted(events: seq<TrackEvent>, start: nat)
    requires start + TotalTicks(events) < U64_LIMIT
    ensures TemposSorted(TemposFrom(events, start))
    ensures forall k :: 0 <= k < |TemposFrom(events, start)| ==>
      start <= TemposFrom(events, start)[k].pos <= start + TotalTicks(events)
    decreases |events|
  {
    if events != [] {
      var pos := start + events[0].delta;
      TemposFromSorted(events[1..], pos);
    }
  }

  /** The tempo-track loop of `from_path`: each tempo event becomes a tempo change at the sum
    * of the deltas up to it. */
  method ReadTempoTrack(events: seq<TrackEvent>) returns (r: Result<seq<MidiTempo>, MidiIoError>)
    ensures r.Err? <==> TotalTicks(events) >= U64_LIMIT
    ensures r.Ok? ==> r.value == TemposFrom(events, 0)
  {
    var tempo: seq<MidiTempo> := [];
    var absPos: nat := 0;
    var i := 0;
    while i < |events|
      invariant 0 <= i <= |events|
      invariant absPos + TotalTicks(events[i..]) == TotalTicks(events)
      invariant absPos < U64_LIMIT
      invariant TotalTicks(events) < U64_LIMIT ==> tempo + TemposFrom(events[i..], absPos) == TemposFrom(events, 0)
    {
      TotalTicksStep(events, i);
      if absPos + events[i].delta >= U64_LIMIT {
        return Err(Overflow);
      }
      absPos := absPos + events[i].delta;
      match events[i].kind {
        case Tempo(mpq) =>
          tempo := tempo + [MidiTempo(absPos, mpq)];
        case _ =>
      }
      i := i + 1;
    }
    return Ok(tempo);
  }

  // ---------------------------------------------------------------------------------------
  // Pairing note-on and note-off events

  /** The pairing state of one track: the note held down on each key, the events so far and
    * the track name. */
  datatype PairState = PairState(pending: seq<Option<MidiNote>>, events: seq<MidiEvent>, name: Option<Bytes>)

  /** A pending note sits on its own key, has no length yet and started at or before `pos`;
    * every finished note has a length and ended at or before `pos`, and no event lies after
    * `pos`. */
  ghost predicate ValidState(st: PairState, pos: nat) {
    && |st.pending| == KEY_COUNT
    && (forall k :: 0 <= k < KEY_COUNT && st.pending[k].Some? ==>
          st.pending[k].value.pitch == k && st.pending[k].value.length == 0 && st.pending[k].value.pos <= pos)
    && (forall i :: 0 <= i < |st.events| ==> st.events[i].Pos() <= pos)
    && (forall i :: 0 <= i < |st.events| && st.events[i].Note? ==>
          st.events[i].note.length > 0 && st.events[i].note.pos + st.events[i].note.length <= pos
          && st.events[i].note.pitch < KEY_COUNT)
  }

  /** No note is pending. */
  ghost predicate NonePending(pending: seq<Option<MidiNote>>) {
    forall k :: 0 <= k < |pending| ==> pending[k].None?
  }

  /** A note closed at `pos`: the note with its length set. */
  function Closed(note: MidiNote, pos: U64): MidiNote
    requires note.pos <= pos
  {
    note.(length := pos - note.pos)
  }

  /** The notes a closing at `pos` adds: the note with its length, unless it would be empty. */
  function CloseNote(note: MidiNote, pos: U64): seq<MidiEvent>
  {
    if note.pos < pos then [Note(Closed(note, pos))] else []
  }

  /** One event of a track in `from_path`, at absolute position `pos`. A note-on starts a note
    * on its key; a note-off, or a note-on with velocity 0, ends the note on its key; a note-on
    * with another velocity or channel ends the note and starts a new one; the same velocity
    * and channel again keep the note. A closing that would give an empty note drops it. */
  function PairStep(st: PairState, pos: U64, kind: EventKind): (r: PairState)
    requires ValidState(st, pos)
  {
    match kind
    case TrackName(raw) => if Utf8Valid(raw) then st.(name := Some(raw)) else st
    case LyricText(text) => st.(events := st.events + [Meta(MidiText(pos, Lyric(text)))])
    case Text(text) => st.(events := st.events + [Meta(MidiText(pos, TextEvent(text)))])
    case NoteOn(channel, key, vel) =>
      var started := Some(MidiNote(pos, 0, key, channel, vel));
      (match st.pending[key]
       case Some(note) =>
         if vel == 0 then
           st.(pending := st.pending[key := None], events := st.events + CloseNote(note, pos))
         else if note.velocity != vel || note.channel != channel then
           st.(pending := st.pending[key := started], events := st.events + CloseNote(note, pos))
         else st
       case None =>
         if vel == 0 then st else st.(pending := st.pending[key := started]))
    case NoteOff(_, key, _) =>
      (match st.pending[key]
       case Some(note) => st.(pending := st.pending[key := None], events := st.events + CloseNote(note, pos))
       case None => st)
    case SysExData(data) => st.(events := st.events + [SysEx(MidiSysex(pos, data))])
    case _ => st
  }

  lemma ValidStateLater(st: PairState, pos: nat, later: nat)
    requires ValidState(st, pos) && pos <= later
    ensures ValidState(st, later)
  {
  }

  /** Every step keeps the state valid at its position. */
  lemma PairStepValid(st: PairState, pos: U64, kind: EventKind)
    requires ValidState(st, pos)
    ensures ValidState(PairStep(st, pos, kind), pos)
  {
    var r := PairStep(st, pos, kind);
    if kind.NoteOn? || kind.NoteOff? {
      var key := kind.key;
      forall i | 0 <= i < |r.events| && r.events[i].Note?
        ensures r.events[i].note.length > 0 && r.events[i].note.pos + r.events[i].note.length <= pos
      {
        if i >= |st.events| {
          assert r.events[i] == Note(Closed(st.pending[key].value, pos));
        }
      }
    }
  }

  /** A note-off, or a note-on with velocity 0, ends the note pending on its key: the key is
    * free afterwards, and the note is added with its length, unless that is 0. Nothing else
    * changes. */
  lemma NoteEnds(st: PairState, pos: U64, kind: EventKind)
    requires ValidState(st, pos)
    requires kind.NoteOff? || (kind.NoteOn? && kind.vel == 0)
    requires st.pending[kind.key].Some?
    ensures var r := PairStep(st, pos, kind); var note := st.pending[kind.key].value;
      r.pending == st.pending[kind.key := None] && r.name == st.name
      && (pos > note.pos ==> r.events == st.events + [Note(note.(length := pos - note.pos))])
      && (pos == note.pos ==> r.events == st.events)
  {
  }

  /** A note-on on a free key with a velocity starts a note there; a note-on with velocity 0
    * on a free key is ignored. */
  lemma NoteStarts(st: PairState, pos: U64, channel: U8, key: U7, vel: U7)
    requires ValidState(st, pos) && st.pending[key].None?
    ensures var r := PairStep(st, pos, NoteOn(channel, key, vel));
      r.events == st.events && r.name == st.name
      && r.pending == (if vel == 0 then st.pending else st.pending[key := Some(MidiNote(pos, 0, key, channel, vel))])
  {
  }

  /** The events of a track from position `start` on. */
  function PairAll(st: PairState, events: seq<TrackEvent>, start: nat): (r: PairState)
    requires ValidState(st, start) && start + TotalTicks(events) < U64_LIMIT
    ensures ValidState(r, start + TotalTicks(events))
    decreases |events|
  {
    if events == [] then st
    else
      var pos := start + events[0].delta;
      ValidStateLater(st, start, pos);
      PairStepValid(st, pos, events[0].kind);
      PairAll(PairStep(st, pos, events[0].kind), events[1..], pos)
  }

  /** The "add remaining notes" loop over the keys below `n`: every note still pending there
    * is closed at the end of the track, in key order. */
  function CloseUpTo(pending: seq<Option<MidiNote>>, n: nat, pos: U64): seq<MidiEvent>
    requires n <= |pending|
  {
    if n == 0 then []
    else
      CloseUpTo(pending, n - 1, pos) + match pending[n - 1] case Some(note) => CloseNote(note, pos) case None => []
  }

  /** The "add remaining notes" loop over every key. */
  function CloseAll(pending: seq<Option<MidiNote>>, pos: U64): seq<MidiEvent> {
    CloseUpTo(pending, |pending|, pos)
  }

  /** Closing at the end adds, for each key in turn, the note pending there with its length
    * up to the end, and only those; a note that started at the end is dropped. */
  lemma {:induction false} CloseUpToNotes(pending: seq<Option<MidiNote>>, n: nat, pos: U64)
    requires n <= |pending|
    requires forall j :: 0 <= j < |pending| && pending[j].Some? ==> pending[j].value.pos <= pos
    ensures forall j :: 0 <= j < n && pending[j].Some? && pending[j].value.pos < pos ==>
      Note(Closed(pending[j].value, pos)) in CloseUpTo(pending, n, pos)
    ensures forall e :: e in CloseUpTo(pending, n, pos) ==>
      exists j :: 0 <= j < n && pending[j].Some? && pending[j].value.pos < pos && e == Note(Closed(pending[j].value, pos))
  {
    if n > 0 {
      CloseUpToNotes(pending, n - 1, pos);
    }
  }

  /** The track a parsed track becomes: the pairing over its events, the notes still pending
    * closed at its end, sorted by position. */
  function TrackOf(events: seq<TrackEvent>): MidiTrack
    requires TotalTicks(events) < U64_LIMIT
  {
    var start := PairState(seq(KEY_COUNT, _ => None), [], None);
    var st := PairAll(start, events, 0);
    var end := TotalTicks(events);
    MidiTrack(st.name, st.events + CloseAll(st.pending, end)).Sort()
  }

  lemma PairAllStep(st: PairState, events: seq<TrackEvent>, i: nat, start: nat)
    requires i < |events| && ValidState(st, start) && start + TotalTicks(events[i..]) < U64_LIMIT
    ensures TotalTicks(events[i..]) == events[i].delta + TotalTicks(events[i + 1..])
    ensures var pos := start + events[i].delta;
      ValidState(st, pos) && ValidState(PairStep(st, pos, events[i].kind), pos)
      && PairAll(st, events[i..], start) == PairAll(PairStep(st, pos, events[i].kind), events[i + 1..], pos)
  {
    TotalTicksStep(events, i);
    var pos := start + events[i].delta;
    ValidStateLater(st, start, pos);
    PairStepValid(st, pos, events[i].kind);
    assert events[i..][0] == events[i] && events[i..][1..] == events[i + 1..];
  }

  /** Every note of a read track has a length, lies within the track and is on a MIDI key,
    * and no event lies after the end of the track; the events are in position order. */
  lemma TrackOfNotes(events: seq<TrackEvent>)
    requires TotalTicks(events) < U64_LIMIT
    ensures var t := TrackOf(events); var end := TotalTicks(events);
      SortedByPos(t.events)
      && forall e :: e in t.events ==>
        e.Pos() <= end && (e.Note? ==> e.note.length > 0 && e.note.pos + e.note.length <= end && e.note.pitch < KEY_COUNT)
  {
    var start := PairState(seq(KEY_COUNT, _ => None), [], None);
    var st := PairAll(start, events, 0);
    var end := TotalTicks(events);
    var closing := CloseAll(st.pending, end);
    CloseUpToNotes(st.pending, |st.pending|, end);
    var all := st.events + closing;
    forall e | e in all
      ensures e.Pos() <= end
      ensures e.Note? ==> e.note.length > 0 && e.note.pos + e.note.length <= end && e.note.pitch < KEY_COUNT
    {
      if e in st.events {
        var i :| 0 <= i < |st.events| && st.events[i] == e;
      } else {
        assert e in closing;
      }
    }
    var t := TrackOf(events);
    forall e | e in t.events
      ensures e in all
    {
      assert e in multiset(t.events);
    }
  }

  /** One track of `from_path` (after the tempo track): the pairing loop over its events with
    * the shared table of pending notes, then the remaining notes closed at the end of the
    * track, then the sort. The table is empty before and after every track. */
  method ReadTrack(events: seq<TrackEvent>, pending: array<Option<MidiNote>>) returns (r: Result<MidiTrack, MidiIoError>)
    requires pending.Length == KEY_COUNT && NonePending(pending[..])
    modifies pending
    ensures r.Err? <==> TotalTicks(events) >= U64_LIMIT
    ensures r.Ok? ==> r.value == TrackOf(events) && NonePending(pending[..])
  {
    var absPos: nat := 0;
    var out: seq<MidiEvent> := [];
    var name: Option<Bytes> := None;
    ghost var start := PairState(seq(KEY_COUNT, _ => None), [], None);
    assert pending[..] == start.pending;
    var i := 0;
    while i < |events|
      invariant 0 <= i <= |events|
      invariant absPos + TotalTicks(events[i..]) == TotalTicks(events) && absPos < U64_LIMIT
      invariant ValidState(PairState(pending[..], out, name), absPos)
      invariant TotalTicks(events) < U64_LIMIT ==>
        PairAll(PairState(pending[..], out, name), events[i..], absPos) == PairAll(start, events, 0)
    {
      TotalTicksStep(events, i);
      if absPos + events[i].delta >= U64_LIMIT {
        return Err(Overflow);
      }
      absPos, out, name := ReadEvent(events, i, pending, absPos, out, name);
      i := i + 1;
    }
    ghost var final := PairState(pending[..], out, name);
    assert events[i..] == [];
    out := CloseRemaining(pending, out, absPos);
    assert events[0..] == events;
    TrackOfFinal(events, final, absPos);
    return Ok(MidiTrack(name, out).Sort());
  }

  /** One turn of the pairing loop: the event's delta is added to the position and the event
    * paired; what is left of the track pairs the same from the new state. */
  method ReadEvent(events: seq<TrackEvent>, i: nat, pending: array<Option<MidiNote>>, absPos: nat,
                   out: seq<MidiEvent>, name: Option<Bytes>)
    returns (absPos': nat, out': seq<MidiEvent>, name': Option<Bytes>)
    requires i < |events| && pending.Length == KEY_COUNT
    requires absPos + TotalTicks(events[i..]) == TotalTicks(events) && absPos + events[i].delta < U64_LIMIT
    requires ValidState(PairState(pending[..], out, name), absPos)
    modifies pending
    ensures absPos' == absPos + events[i].delta && absPos' + TotalTicks(events[i + 1..]) == TotalTicks(events)
    ensures ValidState(PairState(pending[..], out', name'), absPos')
    ensures TotalTicks(events) < U64_LIMIT ==>
      PairAll(PairState(pending[..], out', name'), events[i + 1..], absPos')
      == PairAll(PairState(old(pending[..]), out, name), events[i..], absPos)
  {
    TotalTicksStep(events, i);
    ghost var before := PairState(pending[..], out, name);
    ValidStateLater(before, absPos, absPos + events[i].delta);
    PairStepValid(before, absPos + events[i].delta, events[i].kind);
    if TotalTicks(events) < U64_LIMIT {
      PairAllStep(before, events, i, absPos);
    }
    absPos' := absPos + events[i].delta;
    out', name' := PairEvent(pending, out, name, absPos', events[i].kind);
  }

  /** The state the pairing loop ends in, closed at the end of the track and sorted, is the
    * track the events describe. */
  lemma TrackOfFinal(events: seq<TrackEvent>, final: PairState, end: nat)
    requires TotalTicks(events) == end < U64_LIMIT && ValidState(final, end)
    requires PairAll(final, [], end) == PairAll(PairState(seq(KEY_COUNT, _ => None), [], None), events, 0)
    ensures TrackOf(events) == MidiTrack(final.name, final.events + CloseAll(final.pending, end)).Sort()
  {
  }

  /** The body of the pairing loop for one event at `pos`. */
  method PairEvent(pending: array<Option<MidiNote>>, out: seq<MidiEvent>, name: Option<Bytes>, pos: U64, kind: EventKind)
    returns (out': seq<MidiEvent>, name': Option<Bytes>)
    requires pending.Length == KEY_COUNT && ValidState(PairState(pending[..], out, name), pos)
    modifies pending
    ensures PairState(pending[..], out', name') == PairStep(PairState(old(pending[..]), out, name), pos, kind)
  {
    out', name' := out, name;
    match kind {
      case TrackName(raw) =>
        if Utf8Valid(raw) {
          name' := Some(raw);
        }
      case LyricText(text) =>
        out' := out + [Meta(MidiText(pos, Lyric(text)))];
      case Text(text) =>
        out' := out + [Meta(MidiText(pos, TextEvent(text)))];
      case NoteOn(channel, key, vel) =>
        out' := PairNoteOn(pending, out, name, pos, channel, key, vel);
      case NoteOff(channel, key, vel) =>
        out' := PairNoteOff(pending, out, name, pos, channel, key, vel);
      case SysExData(data) =>
        out' := out + [SysEx(MidiSysex(pos, data))];
      case _ =>
    }
  }

  /** A note-on: the pending note on the key is taken, then closed, replaced or put back. */
  method PairNoteOn(pending: array<Option<MidiNote>>, out: seq<MidiEvent>, ghost name: Option<Bytes>, pos: U64, channel: U8, key: U7, vel: U7)
    returns (out': seq<MidiEvent>)
    requires pending.Length == KEY_COUNT && ValidState(PairState(pending[..], out, name), pos)
    modifies pending
    ensures PairState(pending[..], out', name) == PairStep(PairState(old(pending[..]), out, name), pos, NoteOn(channel, key, vel))
  {
    out' := out;
    var taken := pending[key];
    pending[key] := None;
    match taken {
      case Some(note) =>
        if vel == 0 {
          var length := pos - note.pos;
          if length != 0 {
            out' := out + [Note(note.(length := length))];
          }
        } else if note.velocity != vel || note.channel != channel {
          var length := pos - note.pos;
          if length > 0 {
            out' := out + [Note(note.(length := length))];
          }
          pending[key] := Some(MidiNote(pos, 0, key, channel, vel));
        } else {
          pending[key] := Some(note);
        }
      case None =>
        if vel != 0 {
          pending[key] := Some(MidiNote(pos, 0, key, channel, vel));
        }
    }
  }

  /** A note-off: the pending note on the key is taken and closed. */
  method PairNoteOff(pending: array<Option<MidiNote>>, out: seq<MidiEvent>, ghost name: Option<Bytes>, pos: U64,
                     ghost channel: U8, key: U7, ghost vel: U7)
    returns (out': seq<MidiEvent>)
    requires pending.Length == KEY_COUNT && ValidState(PairState(pending[..], out, name), pos)
    modifies pending
    ensures PairState(pending[..], out', name) == PairStep(PairState(old(pending[..]), out, name), pos, NoteOff(channel, key, vel))
  {
    out' := out;
    var taken := pending[key];
    pending[key] := None;
    match taken {
      case Some(note) =>
        var length := pos - note.pos;
        if length != 0 {
          out' := out + [Note(note.(length := length))];
        }
      case None =>
    }
  }

  /** The "add remaining notes" loop: every key in turn is emptied and its note closed. */
  method CloseRemaining(pending: array<Option<MidiNote>>, out: seq<MidiEvent>, pos: U64) returns (out': seq<MidiEvent>)
    requires pending.Length == KEY_COUNT
    modifies pending
    ensures NonePending(pending[..])
    ensures out' == out + CloseAll(old(pending[..]), pos)
  {
    ghost var initial := pending[..];
    out' := out;
    var k := 0;
    while k < KEY_COUNT
      invariant 0 <= k <= KEY_COUNT
      invariant forall j :: 0 <= j < k ==> pending[j].None?
      invariant forall j :: k <= j < KEY_COUNT ==> pending[j] == initial[j]
      invariant out' == out + CloseUpTo(initial, k, pos)
    {
      var taken := pending[k];
      pending[k] := None;
      match taken {
        case Some(note) =>
          if note.pos < pos {
            out' := out' + [Note(note.(length := pos - note.pos))];
          }
        case None =>
      }
      k := k + 1;
    }
  }
}
