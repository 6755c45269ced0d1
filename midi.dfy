/** The MIDI track model (core/grim_midi/src/lib.rs): events with tick positions, sorting a
  * track by position, finding a track by name, merging tracks into a file, and the tempo
  * navigator that finds the tempo in effect at a tick position. Realtime (millisecond)
  * positions are `f64` and are not part of this model. */
module Midi {
  import opened Wrappers
  import opened Ints

  datatype MidiNote = MidiNote(pos: U64, length: U64, pitch: U8, channel: U8, velocity: U8)

  /** `MidiTextType`: a text event or a lyric, with its raw bytes. */
  datatype MidiTextType = TextEvent(data: Bytes) | Lyric(data: Bytes)

  datatype MidiText = MidiText(pos: U64, text: MidiTextType) {
    predicate IsLyric() {
      text.Lyric?
    }

    predicate IsText() {
      text.TextEvent?
    }
  }

  datatype MidiSysex = MidiSysex(pos: U64, data: Bytes)

  datatype MidiEvent = Note(note: MidiNote) | Meta(meta: MidiText) | SysEx(sysex: MidiSysex) {
    /** `get_pos`: the tick position of the event, whatever its kind. */
    function Pos(): U64 {
      match this
      case Note(n) => n.pos
      case Meta(m) => m.pos
      case SysEx(s) => s.pos
    }

    /** `get_length`: only notes last; text and system-exclusive events have length 0. */
    function Length(): (r: U64)
      ensures Note? ==> r == note.length
      ensures Meta? || SysEx? ==> r == 0
    {
      match this
      case Note(n) => n.length
      case _ => 0
    }
  }

  /** A text event is exactly one of a text and a lyric. */
  lemma TextKinds(m: MidiText)
    ensures m.IsLyric() != m.IsText()
  {
  }

  datatype MidiTempo = MidiTempo(pos: U64, mpq: U32)

  /** The events of a track are in nondecreasing position order. */
  ghost predicate SortedByPos(s: seq<MidiEvent>) {
    forall i, j :: 0 <= i < j < |s| ==> s[i].Pos() <= s[j].Pos()
  }

  /** The order of `[u8]`: the first differing byte decides, and a proper prefix comes first. */
  predicate BytesLess(a: Bytes, b: Bytes)
    decreases |a|
  {
    if a == [] then b != []
    else if b == [] then false
    else if a[0] != b[0] then a[0] < b[0]
    else BytesLess(a[1..], b[1..])
  }

  lemma {:induction false} BytesLessIrreflexive(a: Bytes)
    ensures !BytesLess(a, a)
    decreases |a|
  {
    if a != [] {
      BytesLessIrreflexive(a[1..]);
    }
  }

  lemma {:induction false} BytesLessTransitive(a: Bytes, b: Bytes, c: Bytes)
    requires BytesLess(a, b) && BytesLess(b, c)
    ensures BytesLess(a, c)
    decreases |a|
  {
    if a != [] && a[0] == b[0] && b[0] == c[0] {
      BytesLessTransitive(a[1..], b[1..], c[1..]);
    }
  }

  lemma {:induction false} BytesLessTotal(a: Bytes, b: Bytes)
    requires a != b
    ensures BytesLess(a, b) || BytesLess(b, a)
    decreases |a|
  {
    if a != [] && b != [] && a[0] == b[0] {
      assert a == [a[0]] + a[1..] && b == [b[0]] + b[1..];
      BytesLessTotal(a[1..], b[1..]);
    }
  }

  /** Where an event's kind ranks in the derived order of `MidiEvent`: notes, then text
    * events, then system-exclusive events. */
  function Rank(e: MidiEvent): (r: nat)
    ensures r < 3
  {
    match e
    case Note(_) => 0
    case Meta(_) => 1
    case SysEx(_) => 2
  }

  /** The derived order of two notes at the same position: length, pitch, channel, velocity. */
  predicate NoteLess(a: MidiNote, b: MidiNote) {
    a.length < b.length || (a.length == b.length && (a.pitch < b.pitch || (a.pitch == b.pitch
      && (a.channel < b.channel || (a.channel == b.channel && a.velocity < b.velocity)))))
  }

  /** The derived order of `MidiTextType`: text events before lyrics, then the bytes. */
  predicate TextLess(a: MidiTextType, b: MidiTextType) {
    (a.TextEvent? && b.Lyric?) || (a.TextEvent? == b.TextEvent? && BytesLess(a.data, b.data))
  }

  /** The derived order of two events of the same kind at the same position. */
  predicate SameKindLess(a: MidiEvent, b: MidiEvent) {
    match (a, b)
    case (Note(x), Note(y)) => NoteLess(x, y)
    case (Meta(x), Meta(y)) => TextLess(x.text, y.text)
    case (SysEx(x), SysEx(y)) => BytesLess(x.data, y.data)
    case _ => false
  }

  /** The comparison `MidiTrack::sort` sorts by: position first, and for events at the same
    * position the derived order of `MidiEvent`. */
  predicate EventLess(a: MidiEvent, b: MidiEvent) {
    a.Pos() < b.Pos() || (a.Pos() == b.Pos()
      && (Rank(a) < Rank(b) || (Rank(a) == Rank(b) && SameKindLess(a, b))))
  }

  predicate EventLe(a: MidiEvent, b: MidiEvent) {
    a == b || EventLess(a, b)
  }

  lemma EventLessIrreflexive(a: MidiEvent)
    ensures !EventLess(a, a)
  {
    match a
    case Note(_) =>
    case Meta(m) => BytesLessIrreflexive(m.text.data);
    case SysEx(x) => BytesLessIrreflexive(x.data);
  }

  lemma SameKindLessTransitive(a: MidiEvent, b: MidiEvent, c: MidiEvent)
    requires Rank(a) == Rank(b) == Rank(c) && SameKindLess(a, b) && SameKindLess(b, c)
    ensures SameKindLess(a, c)
  {
    match a
    case Note(_) =>
    case Meta(x) =>
      var y, z := b.meta.text, c.meta.text;
      if x.text.TextEvent? == y.TextEvent? == z.TextEvent? {
        BytesLessTransitive(x.text.data, y.data, z.data);
      }
    case SysEx(x) => BytesLessTransitive(x.data, b.sysex.data, c.sysex.data);
  }

  lemma EventLessTransitive(a: MidiEvent, b: MidiEvent, c: MidiEvent)
    requires EventLess(a, b) && EventLess(b, c)
    ensures EventLess(a, c)
  {
    if a.Pos() == b.Pos() == c.Pos() && Rank(a) == Rank(b) == Rank(c) {
      SameKindLessTransitive(a, b, c);
    }
  }

  lemma EventLeTransitive(a: MidiEvent, b: MidiEvent, c: MidiEvent)
    requires EventLe(a, b) && EventLe(b, c)
    ensures EventLe(a, c)
  {
    if a != b && b != c {
      EventLessTransitive(a, b, c);
    }
  }

  /** Two different events are always ordered one way or the other. */
  lemma EventLessTotal(a: MidiEvent, b: MidiEvent)
    requires a != b
    ensures EventLess(a, b) || EventLess(b, a)
  {
    match (a, b)
    case (Meta(x), Meta(y)) =>
      if x.pos == y.pos && x.text.TextEvent? == y.text.TextEvent? {
        assert x.text.data != y.text.data;
        BytesLessTotal(x.text.data, y.text.data);
      }
    case (SysEx(x), SysEx(y)) =>
      if x.pos == y.pos {
        BytesLessTotal(x.data, y.data);
      }
    case _ =>
  }

  /** Two events ordered both ways are the same event. */
  lemma EventLeAntisymmetric(a: MidiEvent, b: MidiEvent)
    requires EventLe(a, b) && EventLe(b, a)
    ensures a == b
  {
    if a != b {
      EventLessTransitive(a, b, a);
      EventLessIrreflexive(a);
    }
  }

  /** The events are in the order `MidiTrack::sort` establishes. */
  ghost predicate EventSorted(s: seq<MidiEvent>) {
    forall i, j :: 0 <= i < j < |s| ==> EventLe(s[i], s[j])
  }

  /** The order refines position order. */
  lemma EventSortedByPos(s: seq<MidiEvent>)
    requires EventSorted(s)
    ensures SortedByPos(s)
  {
    assert forall i, j :: 0 <= i < j < |s| ==> EventLe(s[i], s[j]);
  }

  /** One insertion step: `x` goes after every event not greater than it. */
  function InsertEvent(x: MidiEvent, s: seq<MidiEvent>): (r: seq<MidiEvent>)
    ensures multiset(r) == multiset(s) + multiset{x}
  {
    if s == [] then [x]
    else if EventLess(x, s[0]) then [x] + s
    else
      assert s == [s[0]] + s[1..];
      [s[0]] + InsertEvent(x, s[1..])
  }

  /** Every event of the insertion is at or after a bound that bounds `x` and `s`. */
  lemma {:induction false} InsertEventBound(x: MidiEvent, s: seq<MidiEvent>, b: MidiEvent)
    requires EventLe(b, x) && forall i :: 0 <= i < |s| ==> EventLe(b, s[i])
    ensures forall k :: 0 <= k < |InsertEvent(x, s)| ==> EventLe(b, InsertEvent(x, s)[k])
  {
    if s != [] && !EventLess(x, s[0]) {
      InsertEventBound(x, s[1..], b);
    }
  }

  lemma {:induction false} InsertEventSorted(x: MidiEvent, s: seq<MidiEvent>)
    requires EventSorted(s)
    ensures EventSorted(InsertEvent(x, s))
  {
    if s == [] {
    } else if EventLess(x, s[0]) {
      forall j | 0 <= j < |s|
        ensures EventLe(x, s[j])
      {
        EventLeTransitive(x, s[0], s[j]);
      }
      assert InsertEvent(x, s) == [x] + s;
    } else {
      if x != s[0] {
        EventLessTotal(x, s[0]);
      }
      InsertEventSorted(x, s[1..]);
      var t := InsertEvent(x, s[1..]);
      InsertEventBound(x, s[1..], s[0]);
      assert InsertEvent(x, s) == [s[0]] + t;
    }
  }

  /** What `MidiTrack::sort` does to the events: a permutation of them in event order, and so
    * in position order. */
  function SortEvents(s: seq<MidiEvent>): (r: seq<MidiEvent>)
    ensures multiset(r) == multiset(s)
    ensures EventSorted(r) && SortedByPos(r)
  {
    if s == [] then []
    else
      var init, last := s[..|s| - 1], s[|s| - 1];
      var sorted := SortEvents(init);
      InsertEventSorted(last, sorted);
      assert s == init + [last];
      EventSortedByPos(InsertEvent(last, sorted));
      InsertEvent(last, sorted)
  }

  /** The least events of two sequences holding the same events are the same event. */
  lemma FirstOfSorted(s: seq<MidiEvent>, t: seq<MidiEvent>)
    requires s != [] && EventSorted(s) && EventSorted(t) && multiset(s) == multiset(t)
    ensures t != [] && s[0] == t[0]
  {
    assert s[0] in multiset(t);
    var j :| 0 <= j < |t| && t[j] == s[0];
    assert t[0] in multiset(s);
    var i :| 0 <= i < |s| && s[i] == t[0];
    assert EventLe(t[0], s[0]) by {
      if j > 0 { assert EventLe(t[0], t[j]); }
    }
    assert EventLe(s[0], t[0]) by {
      if i > 0 { assert EventLe(s[0], s[i]); }
    }
    EventLeAntisymmetric(s[0], t[0]);
  }

  /** There is one way to put a collection of events in event order: whichever algorithm a
    * sort by this comparison uses, it ends with the same sequence as `SortEvents`. */
  lemma {:induction false} SortedUnique(s: seq<MidiEvent>, t: seq<MidiEvent>)
    requires EventSorted(s) && EventSorted(t) && multiset(s) == multiset(t)
    ensures s == t
    decreases |s|
  {
    if s == [] {
      assert |t| == |multiset(t)| == 0;
    } else {
      FirstOfSorted(s, t);
      TailMultiset(s, t);
      SortedTail(s);
      SortedTail(t);
      SortedUnique(s[1..], t[1..]);
    }
  }

  lemma TailMultiset(s: seq<MidiEvent>, t: seq<MidiEvent>)
    requires s != [] && t != [] && s[0] == t[0] && multiset(s) == multiset(t)
    ensures multiset(s[1..]) == multiset(t[1..])
  {
    assert s == [s[0]] + s[1..] && t == [t[0]] + t[1..];
    assert multiset(s[1..]) == multiset(s) - multiset{s[0]};
    assert multiset(t[1..]) == multiset(t) - multiset{t[0]};
  }

  lemma SortedTail(s: seq<MidiEvent>)
    requires s != [] && EventSorted(s)
    ensures EventSorted(s[1..])
  {
    assert forall i, j :: 0 <= i < j < |s[1..]| ==> s[1..][i] == s[i + 1] && s[1..][j] == s[j + 1];
  }

  /** Sorting changes nothing in a track that is already in event order, for instance one
    * whose events are at strictly increasing positions. */
  lemma SortKeepsSorted(s: seq<MidiEvent>)
    requires EventSorted(s)
    ensures SortEvents(s) == s
  {
    SortedUnique(SortEvents(s), s);
  }

  lemma StrictPositionsSorted(s: seq<MidiEvent>)
    requires forall i, j :: 0 <= i < j < |s| ==> s[i].Pos() < s[j].Pos()
    ensures EventSorted(s)
  {
    assert forall i, j :: 0 <= i < j < |s| ==> EventLess(s[i], s[j]);
  }

  /** At one position a note sorts before a text event and a text event before a
    * system-exclusive event, whatever order they came in. */
  lemma SortTieExample(n: MidiNote, m: MidiText, x: MidiSysex)
    requires n.pos == m.pos == x.pos
    ensures SortEvents([SysEx(x), Meta(m), Note(n)]) == [Note(n), Meta(m), SysEx(x)]
  {
    var r := [Note(n), Meta(m), SysEx(x)];
    assert EventSorted(r) by {
      assert forall i, j :: 0 <= i < j < 3 ==> Rank(r[i]) < Rank(r[j]);
    }
    assert multiset([SysEx(x), Meta(m), Note(n)]) == multiset(r);
    SortedUnique(SortEvents([SysEx(x), Meta(m), Note(n)]), r);
  }

  /** A track; its name is the UTF-8 text of its track-name event. */
  datatype MidiTrack = MidiTrack(name: Option<Bytes>, events: seq<MidiEvent>) {
    /** `is_sorted`: each event is at or after the one before it. */
    method IsSorted() returns (r: bool)
      ensures r <==> SortedByPos(events)
    {
      if |events| <= 1 {
        return true;
      }
      var prevPos := events[0].Pos();
      var i := 1;
      while i < |events|
        invariant 1 <= i <= |events|
        invariant prevPos == events[i - 1].Pos()
        invariant forall j, k :: 0 <= j < k < i ==> events[j].Pos() <= events[k].Pos()
      {
        var evPos := events[i].Pos();
        if prevPos > evPos {
          return false;
        }
        prevPos := evPos;
        i := i + 1;
      }
      return true;
    }

    /** `sort`: the same track with its events in event order. */
    function Sort(): (r: MidiTrack)
      ensures r.name == name
      ensures EventSorted(r.events) && SortedByPos(r.events) && multiset(r.events) == multiset(events)
    {
      MidiTrack(name, SortEvents(events))
    }
  }

  /** Whether the track carries the name. */
  predicate HasName(t: MidiTrack, name: Bytes) {
    t.name == Some(name)
  }

  /** `get_track_with_name`: the first of the tracks that carries the name. */
  function TrackWithName(tracks: seq<MidiTrack>, name: Bytes): (r: Option<MidiTrack>)
  {
    if tracks == [] then None
    else if HasName(tracks[0], name) then Some(tracks[0])
    else TrackWithName(tracks[1..], name)
  }

  /** A track is found exactly when one carries the name, and it is the first that does. */
  lemma {:induction false} TrackWithNameFirst(tracks: seq<MidiTrack>, name: Bytes)
    ensures TrackWithName(tracks, name).None? <==> forall i :: 0 <= i < |tracks| ==> !HasName(tracks[i], name)
    ensures TrackWithName(tracks, name).Some? ==>
      exists i :: 0 <= i < |tracks| && tracks[i] == TrackWithName(tracks, name).value && HasName(tracks[i], name)
        && forall j :: 0 <= j < i ==> !HasName(tracks[j], name)
  {
    if tracks != [] && !HasName(tracks[0], name) {
      TrackWithNameFirst(tracks[1..], name);
      if TrackWithName(tracks[1..], name).Some? {
        var i :| 0 <= i < |tracks[1..]| && tracks[1..][i] == TrackWithName(tracks[1..], name).value
          && HasName(tracks[1..][i], name) && forall j :: 0 <= j < i ==> !HasName(tracks[1..][j], name);
        assert tracks[i + 1] == tracks[1..][i];
        forall j | 0 <= j < i + 1 ensures !HasName(tracks[j], name) {
          if j > 0 { assert tracks[j] == tracks[1..][j - 1]; }
        }
      } else {
        forall i | 0 <= i < |tracks| ensures !HasName(tracks[i], name) {
          if i > 0 { assert tracks[i] == tracks[1..][i - 1]; }
        }
      }
    }
  }

  /** The name map `add_tracks_with_realtime_positions` builds over the tracks with a name:
    * each name goes to an index of a track carrying it, a later track overriding an earlier. */
  function NameMap(tracks: seq<MidiTrack>): (m: map<Bytes, nat>)
    ensures forall n :: n in m ==> m[n] < |tracks| && HasName(tracks[m[n]], n)
  {
    if tracks == [] then map[]
    else
      var init, last := tracks[..|tracks| - 1], tracks[|tracks| - 1];
      var m := NameMap(init);
      if last.name.Some? then m[last.name.value := |tracks| - 1] else m
  }

  /** The name map holds every name a track carries, and gives the LAST track that carries it
    * (so merging joins the last same-named track, while `get_track_with_name` finds the
    * first). */
  lemma {:induction false} NameMapLast(tracks: seq<MidiTrack>, n: Bytes)
    ensures n in NameMap(tracks) <==> exists i :: 0 <= i < |tracks| && HasName(tracks[i], n)
    ensures n in NameMap(tracks) ==> forall j :: NameMap(tracks)[n] < j < |tracks| ==> !HasName(tracks[j], n)
  {
    if tracks != [] {
      var init, last := tracks[..|tracks| - 1], tracks[|tracks| - 1];
      NameMapLast(init, n);
      if !HasName(last, n) {
        if exists i :: 0 <= i < |tracks| && HasName(tracks[i], n) {
          var i :| 0 <= i < |tracks| && HasName(tracks[i], n);
          assert init[i] == tracks[i];
        }
        if n in NameMap(tracks) {
          forall j | NameMap(tracks)[n] < j < |tracks| ensures !HasName(tracks[j], n) {
            if j < |init| { assert init[j] == tracks[j]; }
          }
        }
      }
    }
  }

  /** One track of `add_tracks_with_realtime_positions`: with merging on, a named track whose
    * name is in the map has its events appended to that existing track, which is re-sorted;
    * otherwise the track is sorted and appended. */
  function AddTrack(tracks: seq<MidiTrack>, nameMap: map<Bytes, nat>, track: MidiTrack, merge: bool): (r: seq<MidiTrack>)
  {
    if merge && track.name.Some? && track.name.value in nameMap && nameMap[track.name.value] < |tracks| then
      var i := nameMap[track.name.value];
      tracks[i := MidiTrack(tracks[i].name, tracks[i].events + track.events).Sort()]
    else
      tracks + [track.Sort()]
  }

  /** What one step does: a merged track keeps its place and name and gains the new events in
    * position order, and no other track changes; an unmerged track is appended sorted. */
  lemma AddTrackEffect(tracks: seq<MidiTrack>, nameMap: map<Bytes, nat>, track: MidiTrack, merge: bool)
    ensures var r := AddTrack(tracks, nameMap, track, merge);
      if merge && track.name.Some? && track.name.value in nameMap && nameMap[track.name.value] < |tracks| then
        var i := nameMap[track.name.value];
        |r| == |tracks| && r[i].name == tracks[i].name && SortedByPos(r[i].events)
        && multiset(r[i].events) == multiset(tracks[i].events) + multiset(track.events)
        && forall j :: 0 <= j < |tracks| && j != i ==> r[j] == tracks[j]
      else
        r[..|tracks|] == tracks && r[|tracks|].name == track.name && SortedByPos(r[|tracks|].events)
        && multiset(r[|tracks|].events) == multiset(track.events) && |r| == |tracks| + 1
  {
  }

  /** The loop over the new tracks. */
  function AddTracks(tracks: seq<MidiTrack>, nameMap: map<Bytes, nat>, newTracks: seq<MidiTrack>, merge: bool): (r: seq<MidiTrack>)
    decreases |newTracks|
  {
    if newTracks == [] then tracks
    else AddTracks(AddTrack(tracks, nameMap, newTracks[0], merge), nameMap, newTracks[1..], merge)
  }

  /** All events of all tracks, counted with multiplicity. */
  function AllEvents(ts: seq<MidiTrack>): multiset<MidiEvent> {
    if ts == [] then multiset{} else AllEvents(ts[..|ts| - 1]) + multiset(ts[|ts| - 1].events)
  }

  lemma {:induction false} AllEventsUpdate(ts: seq<MidiTrack>, i: nat, t: MidiTrack)
    requires i < |ts|
    ensures AllEvents(ts[i := t]) + multiset(ts[i].events) == AllEvents(ts) + multiset(t.events)
  {
    var u := ts[i := t];
    var init, last := ts[..|ts| - 1], ts[|ts| - 1];
    var a, b := multiset(ts[i].events), multiset(t.events);
    if i < |ts| - 1 {
      assert u[..|u| - 1] == init[i := t] && u[|u| - 1] == last;
      AllEventsUpdate(init, i, t);
      var c, l := AllEvents(init[i := t]), multiset(last.events);
      assert AllEvents(u) == c + l;
      assert c + a == AllEvents(init) + b;
      assert AllEvents(ts) == AllEvents(init) + l;
      assert AllEvents(u) + a == (c + a) + l;
    } else {
      assert u[..|u| - 1] == init && u[|u| - 1] == t;
      assert AllEvents(u) == AllEvents(init) + b;
    }
  }

  lemma AllEventsSnoc(ts: seq<MidiTrack>, t: MidiTrack)
    ensures AllEvents(ts + [t]) == AllEvents(ts) + multiset(t.events)
  {
    assert (ts + [t])[..|ts|] == ts;
  }

  /** Adding tracks loses no event and invents none: the events of the result are those of
    * the tracks present plus those of the new tracks. The tracks present keep their places
    * and names. */
  lemma {:induction false} AddTracksKeeps(tracks: seq<MidiTrack>, nameMap: map<Bytes, nat>, newTracks: seq<MidiTrack>, merge: bool)
    ensures var r := AddTracks(tracks, nameMap, newTracks, merge);
      |r| >= |tracks| && (forall j :: 0 <= j < |tracks| ==> r[j].name == tracks[j].name)
      && AllEvents(r) == AllEvents(tracks) + AllEvents(newTracks)
    decreases |newTracks|
  {
    if newTracks == [] {
    } else {
      var t := newTracks[0];
      var next := AddTrack(tracks, nameMap, t, merge);
      AddTrackEvents(tracks, nameMap, t, merge);
      AddTracksKeeps(next, nameMap, newTracks[1..], merge);
      AllEventsCons(newTracks);
    }
  }

  lemma AddTrackEvents(tracks: seq<MidiTrack>, nameMap: map<Bytes, nat>, t: MidiTrack, merge: bool)
    ensures var next := AddTrack(tracks, nameMap, t, merge);
      |next| >= |tracks| && (forall j :: 0 <= j < |tracks| ==> next[j].name == tracks[j].name)
      && AllEvents(next) == AllEvents(tracks) + multiset(t.events)
  {
    var next := AddTrack(tracks, nameMap, t, merge);
    if merge && t.name.Some? && t.name.value in nameMap && nameMap[t.name.value] < |tracks| {
      var i := nameMap[t.name.value];
      var merged := MidiTrack(tracks[i].name, tracks[i].events + t.events).Sort();
      assert next == tracks[i := merged];
      assert multiset(merged.events) == multiset(tracks[i].events) + multiset(t.events);
      AllEventsUpdate(tracks, i, merged);
      MultisetCancel(AllEvents(next), AllEvents(tracks), multiset(tracks[i].events), multiset(t.events));
    } else {
      var sorted := t.Sort();
      assert next == tracks + [sorted];
      AllEventsSnoc(tracks, sorted);
    }
  }

  lemma MultisetCancel<T>(x: multiset<T>, y: multiset<T>, a: multiset<T>, b: multiset<T>)
    requires x + a == y + (a + b)
    ensures x == y + b
  {
    forall e
      ensures x[e] == (y + b)[e]
    {
      assert (x + a)[e] == (y + (a + b))[e];
    }
  }

  lemma {:induction false} AllEventsCons(ts: seq<MidiTrack>)
    requires ts != []
    ensures AllEvents(ts) == multiset(ts[0].events) + AllEvents(ts[1..])
    decreases |ts|
  {
    if |ts| > 1 {
      AllEventsCons(ts[..|ts| - 1]);
      assert ts[..|ts| - 1][1..] == ts[1..][..|ts[1..]| - 1];
      assert ts[..|ts| - 1][0] == ts[0];
    } else {
      assert ts[..|ts| - 1] == [];
      assert ts[1..] == [];
    }
  }

  /** Each track sorted, in order. */
  function SortedTracks(ts: seq<MidiTrack>): (r: seq<MidiTrack>)
    ensures |r| == |ts|
  {
    if ts == [] then [] else [ts[0].Sort()] + SortedTracks(ts[1..])
  }

  /** Without merging, every new track is appended sorted, in order. */
  lemma {:induction false} AddTracksAppends(tracks: seq<MidiTrack>, nameMap: map<Bytes, nat>, newTracks: seq<MidiTrack>)
    ensures AddTracks(tracks, nameMap, newTracks, false) == tracks + SortedTracks(newTracks)
    decreases |newTracks|
  {
    if newTracks != [] {
      var sorted := newTracks[0].Sort();
      var next := tracks + [sorted];
      assert AddTrack(tracks, nameMap, newTracks[0], false) == next;
      assert AddTracks(tracks, nameMap, newTracks, false) == AddTracks(next, nameMap, newTracks[1..], false);
      AddTracksAppends(next, nameMap, newTracks[1..]);
      var rest := SortedTracks(newTracks[1..]);
      assert SortedTracks(newTracks) == [sorted] + rest;
      assert next + rest == tracks + ([sorted] + rest);
    }
  }

  lemma AddTracksStep(tracks: seq<MidiTrack>, nameMap: map<Bytes, nat>, newTracks: seq<MidiTrack>, k: nat, merge: bool)
    requires k < |newTracks|
    ensures AddTracks(tracks, nameMap, newTracks[k..], merge)
      == AddTracks(AddTrack(tracks, nameMap, newTracks[k], merge), nameMap, newTracks[k + 1..], merge)
  {
    assert newTracks[k..][0] == newTracks[k] && newTracks[k..][1..] == newTracks[k + 1..];
  }

  /** A MIDI file: its format, its resolution, its tracks and its tempo changes. */
  class MidiFile {
    var format: U16
    var ticksPerQuarter: U16
    var tracks: seq<MidiTrack>
    var tempo: seq<MidiTempo>

    /** `MidiFile::default`: format 1, 480 ticks per quarter note, no tracks, no tempo. */
    constructor ()
      ensures format == 1 && ticksPerQuarter == 480 && tracks == [] && tempo == []
    {
      format := 1;
      ticksPerQuarter := 480;
      tracks := [];
      tempo := [];
    }

    function GetTrackWithName(name: Bytes): (r: Option<MidiTrack>)
      reads this
    {
      TrackWithName(tracks, name)
    }

    /** `add_tracks_with_realtime_positions` on tracks whose tick positions are already known:
      * the map from names to tracks is built from the tracks present before the call, then
      * each new track is merged or appended. */
    method AddTracksWithRealtimePositions(newTracks: seq<MidiTrack>, merge: bool)
      modifies this
      ensures tracks == AddTracks(old(tracks), NameMap(old(tracks)), newTracks, merge)
      ensures format == old(format) && ticksPerQuarter == old(ticksPerQuarter) && tempo == old(tempo)
    {
      var nameMap := map[];
      var i := 0;
      while i < |tracks|
        invariant 0 <= i <= |tracks|
        invariant nameMap == NameMap(tracks[..i])
      {
        assert tracks[..i + 1][..i] == tracks[..i];
        if tracks[i].name.Some? {
          nameMap := nameMap[tracks[i].name.value := i];
        }
        i := i + 1;
      }
      assert tracks[..|tracks|] == tracks;
      var k := 0;
      while k < |newTracks|
        invariant 0 <= k <= |newTracks|
        invariant AddTracks(tracks, nameMap, newTracks[k..], merge) == AddTracks(old(tracks), nameMap, newTracks, merge)
        invariant format == old(format) && ticksPerQuarter == old(ticksPerQuarter) && tempo == old(tempo)
      {
        var track := newTracks[k];
        AddTracksStep(tracks, nameMap, newTracks, k, merge);
        if merge && track.name.Some? && track.name.value in nameMap && nameMap[track.name.value] < |tracks| {
          var j := nameMap[track.name.value];
          var existing := tracks[j];
          tracks := tracks[j := MidiTrack(existing.name, existing.events + track.events).Sort()];
        } else {
          tracks := tracks + [track.Sort()];
        }
        k := k + 1;
      }
    }
  }

  /** The tempo changes are in nondecreasing position order. */
  ghost predicate TemposSorted(tempo: seq<MidiTempo>) {
    forall i, j :: 0 <= i < j < |tempo| ==> tempo[i].pos <= tempo[j].pos
  }

  /** No two tempo changes share a position, and they are in position order. */
  ghost predicate TemposStrictlySorted(tempo: seq<MidiTempo>) {
    forall i, j :: 0 <= i < j < |tempo| ==> tempo[i].pos < tempo[j].pos
  }

  /** The index of the last tempo change at or before the position, if any: the tempo in
    * effect there. */
  function TempoIndexAt(tempo: seq<MidiTempo>, pos: nat): (r: Option<nat>)
    ensures r.Some? ==> (r.value < |tempo| && tempo[r.value].pos <= pos
      && forall j :: r.value < j < |tempo| ==> tempo[j].pos > pos)
    ensures r.None? ==> forall j :: 0 <= j < |tempo| ==> tempo[j].pos > pos
  {
    if tempo == [] then None
    else if tempo[|tempo| - 1].pos <= pos then Some(|tempo| - 1)
    else TempoIndexAt(tempo[..|tempo| - 1], pos)
  }

  /** `TempoNavigator`: a cursor over the tempo changes, kept between lookups so that lookups
    * at nearby positions move it only a little. */
  class TempoNavigator {
    var index: nat
    const tpq: U16
    const tempo: seq<MidiTempo>

    /** The cursor is on a tempo change, or at 0 when there is none. */
    ghost predicate Valid()
      reads this
    {
      index == 0 || index < |tempo|
    }

    constructor (tempo: seq<MidiTempo>, tpq: U16)
      ensures this.tempo == tempo && this.tpq == tpq && index == 0 && Valid()
    {
      this.tempo := tempo;
      this.tpq := tpq;
      index := 0;
    }

    /** `get_tempo_at_pos`: the tempo in effect at `pos`, found by moving the cursor back
      * while it is after `pos`, or forward while the next change is not after `pos`. The
      * cursor is left on the tempo returned. On tempo changes in position order the answer
      * does not depend on where the cursor was: it is the last change at or before `pos`
      * (one with the same position, when several share it), and none when every change is
      * after `pos`. */
    method GetTempoAtPos(pos: U64) returns (r: Option<MidiTempo>)
      requires Valid()
      modifies this
      ensures Valid()
      ensures r.Some? ==> index < |tempo| && r.value == tempo[index] && r.value.pos <= pos
      ensures r.None? ==> forall j :: 0 <= j <= old(index) && j < |tempo| ==> tempo[j].pos > pos
      ensures TemposSorted(tempo) ==> (r.None? <==> TempoIndexAt(tempo, pos).None?)
      ensures TemposSorted(tempo) && r.Some? ==> r.value.pos == tempo[TempoIndexAt(tempo, pos).value].pos
      ensures TemposStrictlySorted(tempo) && r.Some? ==> index == TempoIndexAt(tempo, pos).value
    {
      if tempo == [] {
        return None;
      }
      if tempo[index].pos > pos {
        ghost var start := index;
        while index > 0
          invariant index <= start < |tempo|
          invariant forall j :: index <= j <= start ==> tempo[j].pos > pos
        {
          index := index - 1;
          if tempo[index].pos <= pos {
            SortedAfter(tempo, index, start, pos);
            return Some(tempo[index]);
          }
        }
        return None;
      }
      while index + 1 < |tempo|
        invariant index < |tempo| && tempo[index].pos <= pos
        decreases |tempo| - index
      {
        if tempo[index].pos == pos || tempo[index + 1].pos > pos {
          break;
        }
        index := index + 1;
      }
      ForwardResult(tempo, index, pos);
      return Some(tempo[index]);
    }
  }

  /** Going back from `start`, the first change at or before `pos` is the last one overall. */
  lemma SortedAfter(tempo: seq<MidiTempo>, k: nat, start: nat, pos: nat)
    requires k < start < |tempo| && tempo[k].pos <= pos
    requires forall j :: k < j <= start ==> tempo[j].pos > pos
    ensures TemposSorted(tempo) ==> TempoIndexAt(tempo, pos) == Some(k)
  {
    if TemposSorted(tempo) {
      var t := TempoIndexAt(tempo, pos);
      assert forall j :: start < j < |tempo| ==> tempo[start].pos <= tempo[j].pos;
    }
  }

  /** Where the forward walk stops: at the last change at or before `pos`, or at the first
    * change exactly at `pos`. */
  lemma ForwardResult(tempo: seq<MidiTempo>, k: nat, pos: nat)
    requires k < |tempo| && tempo[k].pos <= pos
    requires k + 1 < |tempo| ==> tempo[k].pos == pos || tempo[k + 1].pos > pos
    ensures TemposSorted(tempo) ==> TempoIndexAt(tempo, pos).Some? && tempo[TempoIndexAt(tempo, pos).value].pos == tempo[k].pos
    ensures TemposStrictlySorted(tempo) ==> TempoIndexAt(tempo, pos) == Some(k)
  {
    var t := TempoIndexAt(tempo, pos);
    if TemposSorted(tempo) {
      assert t.Some?;
      if k + 1 < |tempo| && tempo[k + 1].pos > pos {
        assert forall j :: k + 1 < j < |tempo| ==> tempo[k + 1].pos <= tempo[j].pos;
      }
    }
    if TemposStrictlySorted(tempo) {
      if k + 1 < |tempo| {
        assert forall j :: k < j < |tempo| ==> tempo[k].pos < tempo[j].pos;
      }
    }
  }
}
