/** Reading and writing whole MIDI files (core/grim/src/midi/io.rs, `from_path` and
  * `write_to_file`) on the parsed form of a standard MIDI file: its header and its tracks of
  * delta-timed events. Turning bytes into that form and back is midly's work and is not part
  * of this model. */
module MidiFileIo {
  import opened Wrappers
  import opened Ints
  import opened Midi
  import opened MidiIo
  import opened MidiWrite

  /** A standard MIDI file as midly parses and writes it. */
  datatype Smf = Smf(format: Format, timing: Timing, tracks: seq<seq<TrackEvent>>)

  /** The contents `from_path` fills a `MidiFile` with. */
  datatype FileContents = FileContents(format: U16, ticksPerQuarter: U16, tracks: seq<MidiTrack>, tempo: seq<MidiTempo>)

  // ---------------------------------------------------------------------------------------
  // Reading

  /** No track's positions leave the 64-bit range. */
  predicate AllFit(tracks: seq<seq<TrackEvent>>) {
    forall k :: 0 <= k < |tracks| ==> TotalTicks(tracks[k]) < U64_LIMIT
  }

  /** Every track after the tempo track, each paired, closed and sorted; a track whose
    * positions leave the 64-bit range fails the file. */
  function TracksOf(tracks: seq<seq<TrackEvent>>): Result<seq<MidiTrack>, MidiIoError> {
    if AllFit(tracks) then Ok(seq(|tracks|, k requires 0 <= k < |tracks| => TrackOf(tracks[k])))
    else Err(Overflow)
  }

  /** The tempo changes of the first track, if there is one. */
  function TempoOf(tracks: seq<seq<TrackEvent>>): Result<seq<MidiTempo>, MidiIoError> {
    if tracks == [] then Ok([])
    else if TotalTicks(tracks[0]) >= U64_LIMIT then Err(Overflow)
    else Ok(TemposFrom(tracks[0], 0))
  }

  /** What `from_path` makes of a parsed file: the format number, the resolution (timecode
    * timing is refused), the tempo changes of the first track, and every later track. In a
    * single-track file the one track is read as the tempo track only. */
  function FileOf(smf: Smf): Result<FileContents, MidiIoError> {
    match TicksPerQuarter(smf.timing)
    case Err(e) => Err(e)
    case Ok(tpq) =>
      match TempoOf(smf.tracks)
      case Err(e) => Err(e)
      case Ok(tempo) =>
        match TracksOf(if smf.tracks == [] then [] else smf.tracks[1..])
        case Err(e) => Err(e)
        case Ok(tracks) => Ok(FileContents(FormatCode(smf.format), tpq, tracks, tempo))
  }

  /** A file is read exactly when its timing is metrical and no track overflows. */
  lemma FileOfOk(smf: Smf)
    ensures FileOf(smf).Ok? <==> smf.timing.Metrical? && AllFit(smf.tracks)
  {
    var rest := if smf.tracks == [] then [] else smf.tracks[1..];
    var tpq, tempo, read := TicksPerQuarter(smf.timing), TempoOf(smf.tracks), TracksOf(rest);
    assert FileOf(smf).Ok? <==> tpq.Ok? && tempo.Ok? && read.Ok?;
    assert read.Ok? <==> AllFit(rest);
    if smf.tracks != [] {
      assert tempo.Ok? <==> TotalTicks(smf.tracks[0]) < U64_LIMIT;
      assert AllFit(smf.tracks) <==> TotalTicks(smf.tracks[0]) < U64_LIMIT && AllFit(rest) by {
        if TotalTicks(smf.tracks[0]) < U64_LIMIT && AllFit(rest) {
          forall k | 0 <= k < |smf.tracks| ensures TotalTicks(smf.tracks[k]) < U64_LIMIT {
            if k > 0 {
              assert smf.tracks[k] == rest[k - 1];
            }
          }
        }
      }
    }
  }

  /** A file read holds the format number, resolution and tempo changes of the parsed file,
    * and one track per track after the first, in order. */
  lemma FileOfContents(smf: Smf)
    requires FileOf(smf).Ok?
    ensures var c := FileOf(smf).value;
      c.format == FormatCode(smf.format) && c.ticksPerQuarter == smf.timing.ticks
      && (smf.tracks != [] ==> c.tempo == TemposFrom(smf.tracks[0], 0))
      && |c.tracks| + 1 == |smf.tracks| + (if smf.tracks == [] then 1 else 0)
      && forall k :: 1 <= k < |smf.tracks| ==> c.tracks[k - 1] == TrackOf(smf.tracks[k])
  {
    var c := FileOf(smf).value;
    if smf.tracks != [] {
      forall k | 1 <= k < |smf.tracks| ensures c.tracks[k - 1] == TrackOf(smf.tracks[k]) {
        FileTrackAt(smf, k);
      }
      var rest := smf.tracks[1..];
      assert c.tracks == TracksOf(rest).value;
      assert |c.tracks| == |rest|;
    }
  }

  lemma TracksOfAt(tracks: seq<seq<TrackEvent>>, i: nat)
    requires AllFit(tracks) && i < |tracks|
    ensures |TracksOf(tracks).value| == |tracks| && TracksOf(tracks).value[i] == TrackOf(tracks[i])
  {
  }

  lemma FileTrackAt(smf: Smf, k: nat)
    requires FileOf(smf).Ok? && 1 <= k < |smf.tracks|
    ensures k - 1 < |FileOf(smf).value.tracks| && FileOf(smf).value.tracks[k - 1] == TrackOf(smf.tracks[k])
  {
    var rest := smf.tracks[1..];
    assert FileOf(smf).value.tracks == TracksOf(rest).value;
    TracksOfAt(rest, k - 1);
    assert rest[k - 1] == smf.tracks[k];
  }

  /** `from_path` after parsing: a default file, its header fields set, the tempo track read,
    * then every later track read with one table of pending notes shared between them. */
  method FromParsed(smf: Smf) returns (r: Result<MidiFile, MidiIoError>)
    ensures r.Err? <==> FileOf(smf).Err?
    ensures r.Ok? ==>
      fresh(r.value) && FileContents(r.value.format, r.value.ticksPerQuarter, r.value.tracks, r.value.tempo) == FileOf(smf).value
  {
    var tpq := TicksPerQuarter(smf.timing);
    if tpq.Err? {
      return Err(tpq.error);
    }
    var mid := new MidiFile();
    mid.format := FormatCode(smf.format);
    mid.ticksPerQuarter := tpq.value;
    if smf.tracks != [] {
      var tempo := ReadTempoTrack(smf.tracks[0]);
      if tempo.Err? {
        return Err(tempo.error);
      }
      mid.tempo := tempo.value;
    }
    var rest := if smf.tracks == [] then [] else smf.tracks[1..];
    var pending := new Option<MidiNote>[KEY_COUNT](_ => None);
    var tracks: seq<MidiTrack> := [];
    var i := 0;
    while i < |rest|
      invariant 0 <= i <= |rest|
      invariant pending.Length == KEY_COUNT && NonePending(pending[..])
      invariant |tracks| == i
      invariant forall k :: 0 <= k < i ==> TotalTicks(rest[k]) < U64_LIMIT && tracks[k] == TrackOf(rest[k])
      invariant mid.format == FormatCode(smf.format) && mid.ticksPerQuarter == tpq.value
      invariant TempoOf(smf.tracks) == Ok(mid.tempo) && mid.tracks == []
      invariant fresh(mid)
    {
      var track := ReadTrack(rest[i], pending);
      if track.Err? {
        return Err(track.error);
      }
      ghost var before := tracks;
      tracks := tracks + [track.value];
      forall k | 0 <= k <= i ensures TotalTicks(rest[k]) < U64_LIMIT && tracks[k] == TrackOf(rest[k]) {
        if k < i {
          assert tracks[k] == before[k];
        }
      }
      i := i + 1;
    }
    assert AllFit(rest);
    forall k | 0 <= k < |rest| ensures TracksOf(rest).value[k] == tracks[k] {
      TracksOfAt(rest, k);
    }
    assert TracksOf(rest).value == tracks;
    mid.tracks := tracks;
    return Ok(mid);
  }

  // ---------------------------------------------------------------------------------------
  // Writing

  /** What `write_to_file` hands midly: the format for the stored number, metrical timing
    * with the resolution cut to midly's 15 bits, the tempo track, then every track. */
  function SmfOf(format: U16, ticksPerQuarter: U16, tracks: seq<MidiTrack>, tempo: seq<MidiTempo>): Result<Smf, MidiIoError> {
    match TempoTrackOf(tempo)
    case Err(e) => Err(e)
    case Ok(tempoTrack) =>
      match WrittenTracks(tracks)
      case Err(e) => Err(e)
      case Ok(written) => Ok(Smf(FormatOfCode(format), Metrical(ticksPerQuarter % 0x8000), [tempoTrack] + written))
  }

  /** Every track as `generate_track` writes it, in order. */
  function WrittenTracks(tracks: seq<MidiTrack>): Result<seq<seq<TrackEvent>>, MidiIoError>
    decreases |tracks|
  {
    if tracks == [] then Ok([])
    else
      match WrittenTracks(tracks[..|tracks| - 1])
      case Err(e) => Err(e)
      case Ok(written) =>
        match TrackEventsOf(tracks[|tracks| - 1])
        case Err(e) => Err(e)
        case Ok(t) => Ok(written + [t])
  }

  /** The tracks are written exactly when each one is. */
  lemma {:induction false} WrittenTracksOk(tracks: seq<MidiTrack>)
    ensures WrittenTracks(tracks).Ok? <==> forall k :: 0 <= k < |tracks| ==> TrackEventsOf(tracks[k]).Ok?
    decreases |tracks|
  {
    if tracks != [] {
      var init := tracks[..|tracks| - 1];
      var last := tracks[|tracks| - 1];
      WrittenTracksOk(init);
      assert WrittenTracks(tracks).Ok? <==> WrittenTracks(init).Ok? && TrackEventsOf(last).Ok?;
      if forall k :: 0 <= k < |tracks| ==> TrackEventsOf(tracks[k]).Ok? {
        forall k | 0 <= k < |init| ensures TrackEventsOf(init[k]).Ok? {
          assert init[k] == tracks[k];
        }
      }
      if WrittenTracks(tracks).Ok? {
        forall k | 0 <= k < |tracks| ensures TrackEventsOf(tracks[k]).Ok? {
          if k < |init| {
            assert init[k] == tracks[k];
          } else {
            assert k == |tracks| - 1;
          }
        }
      }
    }
  }

  lemma {:induction false} WrittenTracksLength(tracks: seq<MidiTrack>)
    requires WrittenTracks(tracks).Ok?
    ensures |WrittenTracks(tracks).value| == |tracks|
    decreases |tracks|
  {
    if tracks != [] {
      WrittenTracksLength(tracks[..|tracks| - 1]);
    }
  }

  /** Written tracks are one per track, in order. */
  lemma {:induction false} WrittenTracksAt(tracks: seq<MidiTrack>, k: nat)
    requires WrittenTracks(tracks).Ok? && k < |tracks|
    ensures |WrittenTracks(tracks).value| == |tracks| && Ok(WrittenTracks(tracks).value[k]) == TrackEventsOf(tracks[k])
    decreases |tracks|
  {
    WrittenTracksLength(tracks);
    var init := tracks[..|tracks| - 1];
    var written := WrittenTracks(init).value;
    var x := TrackEventsOf(tracks[|tracks| - 1]).value;
    WrittenTracksLength(init);
    assert WrittenTracks(tracks).value == written + [x];
    if k < |init| {
      WrittenTracksAt(init, k);
      assert init[k] == tracks[k];
      assert (written + [x])[k] == written[k];
    } else {
      assert k == |written|;
      assert (written + [x])[k] == x;
    }
  }

  lemma {:induction false} WrittenTracksErr(tracks: seq<MidiTrack>, i: nat)
    requires i <= |tracks| && WrittenTracks(tracks[..i]).Err?
    ensures WrittenTracks(tracks).Err?
    decreases |tracks| - i
  {
    if i < |tracks| {
      assert tracks[..i + 1][..i] == tracks[..i];
      WrittenTracksErr(tracks, i + 1);
    } else {
      assert tracks[..i] == tracks;
    }
  }

  /** `write_to_file` up to the point where midly writes the bytes. */
  method WriteToFile(mid: MidiFile) returns (r: Result<Smf, MidiIoError>)
    ensures r.Ok? <==> SmfOf(mid.format, mid.ticksPerQuarter, mid.tracks, mid.tempo).Ok?
    ensures r.Ok? ==> r == SmfOf(mid.format, mid.ticksPerQuarter, mid.tracks, mid.tempo)
  {
    var tempoTrack := GenerateTempoTrack(mid.tempo);
    if tempoTrack.Err? {
      return Err(tempoTrack.error);
    }
    var written: seq<seq<TrackEvent>> := [];
    var i := 0;
    while i < |mid.tracks|
      invariant 0 <= i <= |mid.tracks|
      invariant WrittenTracks(mid.tracks[..i]) == Ok(written)
    {
      assert mid.tracks[..i + 1][..i] == mid.tracks[..i];
      var track := GenerateTrack(mid.tracks[i]);
      if track.Err? {
        WrittenTracksErr(mid.tracks, i + 1);
        return Err(track.error);
      }
      written := written + [track.value];
      i := i + 1;
    }
    assert mid.tracks[..i] == mid.tracks;
    return Ok(Smf(FormatOfCode(mid.format), Metrical(mid.ticksPerQuarter % 0x8000), [tempoTrack.value] + written));
  }

  /** Reading back a written file gives back its format number (0 to 2), its resolution
    * (below 2^15), its tempo changes (each below 2^24 microseconds per quarter note) and one
    * track per track written. */
  lemma WrittenReadsBack(format: U16, ticksPerQuarter: U16, tracks: seq<MidiTrack>, tempo: seq<MidiTempo>)
    requires SmfOf(format, ticksPerQuarter, tracks, tempo).Ok?
    requires format <= 2 && ticksPerQuarter < 0x8000
    requires forall k :: 0 <= k < |tempo| ==> tempo[k].mpq < 0x100_0000
    ensures var smf := SmfOf(format, ticksPerQuarter, tracks, tempo).value;
      FormatCode(smf.format) == format && TicksPerQuarter(smf.timing) == Ok(ticksPerQuarter)
      && TempoOf(smf.tracks) == Ok(tempo) && |smf.tracks| == |tracks| + 1
  {
    var smf := SmfOf(format, ticksPerQuarter, tracks, tempo).value;
    FormatRoundTrip(FormatOfCode(format), format);
    TempoRoundTrip(tempo);
    if tracks != [] {
      WrittenTracksAt(tracks, 0);
    }
    assert TotalTicks(smf.tracks[0]) < U64_LIMIT;
  }
}
