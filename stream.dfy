/** The in-memory byte stream with a cursor (`MemoryStream`) and the endian-aware reader and
  * writer on top of it (`BinaryStream`), from core/grim/src/io/stream.rs. */
module Stream {
  import opened Wrappers
  import opened Ints
  import opened Utf8

  /** Why a stream operation failed. On a memory stream the source panics in each case
    * (a slice out of range, a write to a read-only slice, an unsigned underflow). */
  datatype StreamError = OutOfRange | ReadOnly | NeedleTooLong | NegativeLength | InvalidUtf8

  /** `std::io::SeekFrom`; the signed offsets are kept as unbounded integers. */
  datatype SeekFrom = Start(abs: U64) | End(fromEnd: int) | Current(fromCur: int)

  /** The bytes `read_bytes(length)` returns at `pos`: exactly `length` bytes starting at
    * the cursor, or an error when they are not all there. */
  function ReadAt(data: Bytes, pos: nat, length: nat): (r: Result<Bytes, StreamError>)
    ensures r.Ok? <==> pos + length <= |data|
    ensures r.Ok? ==> |r.value| == length
    ensures r.Ok? ==> forall i :: 0 <= i < length ==> r.value[i] == data[pos + i]
  {
    if pos + length <= |data| then Ok(data[pos..pos + length]) else Err(OutOfRange)
  }

  /** The data after `write_bytes(d)` at `pos`, for `pos <= |data|`: the bytes before the cursor
    * are kept, `d` replaces what follows it (the stream grows when `d` runs past its end)
    * and any bytes after the written range are kept. */
  function WriteAt(data: Bytes, pos: nat, d: Bytes): (r: Bytes)
    requires pos <= |data|
    ensures |r| == if pos + |d| <= |data| then |data| else pos + |d|
  {
    data[..pos] + d + (if pos + |d| < |data| then data[pos + |d|..] else [])
  }

  /** Byte by byte: the bytes before the cursor are kept, `d` follows, then the rest of the
    * old data. */
  lemma WriteAtContents(data: Bytes, pos: nat, d: Bytes)
    requires pos <= |data|
    ensures forall i :: 0 <= i < pos ==> WriteAt(data, pos, d)[i] == data[i]
    ensures forall i :: 0 <= i < |d| ==> WriteAt(data, pos, d)[pos + i] == d[i]
    ensures forall i :: pos + |d| <= i < |data| ==> WriteAt(data, pos, d)[i] == data[i]
  {
  }

  /** Overwriting in place, after the data was padded with zeros to hold all of `d`. */
  lemma OverwriteIsWriteAt(data: Bytes, padded: Bytes, pos: nat, d: Bytes)
    requires pos <= |data| <= |padded| && pos + |d| <= |padded|
    requires padded[..|data|] == data
    requires |padded| > |data| ==> |padded| == pos + |d|
    ensures padded[..pos] + d + padded[pos + |d|..] == WriteAt(data, pos, d)
  {
    var lhs := padded[..pos] + d + padded[pos + |d|..];
    var rhs := WriteAt(data, pos, d);
    WriteAtContents(data, pos, d);
    assert |lhs| == |rhs|;
    forall i | 0 <= i < |lhs| ensures lhs[i] == rhs[i] {
      if i < pos {
        assert padded[i] == padded[..|data|][i];
      } else if i < pos + |d| {
        assert lhs[pos + (i - pos)] == d[i - pos];
        assert rhs[pos + (i - pos)] == d[i - pos];
      } else {
        assert padded[i] == padded[..|data|][i];
      }
    }
  }

  /** Writing at the end of the data appends. */
  lemma WriteAtEndAppends(data: Bytes, d: Bytes)
    ensures WriteAt(data, |data|, d) == data + d
  {
  }

  /** Reading back the range just written gives the written bytes. */
  lemma ReadAfterWrite(data: Bytes, pos: nat, d: Bytes)
    requires pos <= |data|
    ensures ReadAt(WriteAt(data, pos, d), pos, |d|) == Ok(d)
  {
    var w := WriteAt(data, pos, d);
    WriteAtContents(data, pos, d);
    assert w[pos..pos + |d|] == d;
  }

  /** The new cursor after `seek`: an absolute position, or an offset from the end or from the
    * current position, converted to `u64` with wrap-around as `as u64` does. */
  function SeekTarget(pos: nat, len: nat, from: SeekFrom): (p: U64)
    ensures from.Start? ==> p == from.abs
    ensures from.End? && 0 <= len + from.fromEnd < U64_LIMIT ==> p == len + from.fromEnd
    ensures from.Current? && 0 <= pos + from.fromCur < U64_LIMIT ==> p == pos + from.fromCur
  {
    match from
    case Start(abs) => abs
    case End(rel) => WrapU64(len + rel)
    case Current(rel) => WrapU64(pos + rel)
  }

  /** A memory stream over a byte vector. `writable` is false for a stream over a borrowed
    * read-only slice (`MemoryData::Read`) and true for the two vector-backed forms. */
  class MemoryStream {
    var data: Bytes
    var position: nat
    const writable: bool

    /** `MemoryStream::new`: an empty owned vector. */
    constructor New()
      ensures data == [] && position == 0 && writable
    {
      data := [];
      position := 0;
      writable := true;
    }

    /** `from_slice_as_read`. */
    constructor FromSliceAsRead(d: Bytes)
      ensures data == d && position == 0 && !writable
    {
      data := d;
      position := 0;
      writable := false;
    }

    /** `from_vector_as_read_write`. */
    constructor FromVectorAsReadWrite(d: Bytes)
      ensures data == d && position == 0 && writable
    {
      data := d;
      position := 0;
      writable := true;
    }

    function Len(): nat
      reads this
    {
      |data|
    }

    method ReadBytes(length: nat) returns (r: Result<Bytes, StreamError>)
      modifies this
      ensures r == ReadAt(old(data), old(position), length)
      ensures data == old(data)
      ensures position == old(position) + (if r.Ok? then length else 0)
    {
      if position + length <= |data| {
        r := Ok(data[position..position + length]);
        position := position + length;
      } else {
        r := Err(OutOfRange);
      }
    }

    /** `read_bytes_into_slice`: fills the whole buffer from the cursor. */
    method ReadBytesIntoSlice(buffer: array<U8>) returns (r: Result<(), StreamError>)
      modifies this, buffer
      ensures var rd := ReadAt(old(data), old(position), buffer.Length);
        r.Ok? == rd.Ok? && (rd.Ok? ==> buffer[..] == rd.value)
      ensures data == old(data)
      ensures position == old(position) + (if r.Ok? then buffer.Length else 0)
    {
      var p := position;
      if p + buffer.Length <= |data| {
        var i := 0;
        while i < buffer.Length
          invariant 0 <= i <= buffer.Length
          invariant position == p && data == old(data)
          invariant forall k :: 0 <= k < i ==> buffer[k] == data[p + k]
        {
          buffer[i] := data[p + i];
          i := i + 1;
        }
        assert buffer[..] == data[p..p + buffer.Length];
        position := p + buffer.Length;
        r := Ok(());
      } else {
        r := Err(OutOfRange);
      }
    }

    method WriteBytes(d: Bytes) returns (r: Result<(), StreamError>)
      modifies this
      ensures r.Ok? <==> writable && old(position) <= |old(data)|
      ensures r.Err? ==> data == old(data) && position == old(position)
      ensures r.Ok? ==> data == WriteAt(old(data), old(position), d) && position == old(position) + |d|
    {
      if !writable {
        return Err(ReadOnly);
      }
      if position == |data| {
        WriteAtEndAppends(data, d);
        data := data + d;
      } else {
        if position > |data| {
          return Err(OutOfRange);
        }
        ghost var before := data;
        var bytesLeft := |data| - position;
        if bytesLeft < |d| {
          data := data + seq(|d| - bytesLeft, _ => 0);
        }
        OverwriteIsWriteAt(before, data, position, d);
        data := data[..position] + d + data[position + |d|..];
      }
      position := position + |d|;
      r := Ok(());
    }

    method Seek(from: SeekFrom)
      modifies this
      ensures position == SeekTarget(old(position), |old(data)|, from)
      ensures data == old(data)
    {
      match from
      case Start(abs) => position := abs;
      case End(rel) => position := WrapU64(|data| + rel);
      case Current(rel) => position := WrapU64(position + rel);
    }
  }

  /** The value `read_uint*` decodes at `pos`. */
  function ReadUnsignedAt(e: Endian, w: Width, data: Bytes, pos: nat): (r: Result<nat, StreamError>)
    ensures r.Ok? <==> pos + w.Size() <= |data|
    ensures r.Ok? ==> r.value < Bound(w)
  {
    match ReadAt(data, pos, w.Size())
    case Ok(b) => Ok(DecodeUnsigned(e, b))
    case Err(err) => Err(err)
  }

  /** The value `read_int*` decodes at `pos`. */
  function ReadSignedAt(e: Endian, w: Width, data: Bytes, pos: nat): (r: Result<int, StreamError>)
    ensures r.Ok? <==> pos + w.Size() <= |data|
    ensures r.Ok? ==> SignedMin(w) <= r.value < -SignedMin(w)
  {
    match ReadAt(data, pos, w.Size())
    case Ok(b) => Ok(DecodeSigned(e, w, b))
    case Err(err) => Err(err)
  }

  /** Data holding the encoding of `v` at `pos` reads back as `v`. */
  lemma ReadUnsignedWindow(e: Endian, w: Width, data: Bytes, pos: nat, v: nat)
    requires v < Bound(w) && MatchAt(data, EncodeUnsigned(e, w, v), pos)
    ensures ReadUnsignedAt(e, w, data, pos) == Ok(v)
  {
    assert ReadAt(data, pos, w.Size()).value == data[pos..pos + w.Size()];
    UnsignedRoundTrip(e, w, v);
  }

  lemma ReadSignedWindow(e: Endian, w: Width, data: Bytes, pos: nat, v: int)
    requires SignedMin(w) <= v < -SignedMin(w) && MatchAt(data, EncodeSigned(e, w, v), pos)
    ensures ReadSignedAt(e, w, data, pos) == Ok(v)
  {
    assert ReadAt(data, pos, w.Size()).value == data[pos..pos + w.Size()];
    SignedRoundTrip(e, w, v);
  }

  /** A window holding `a + b` holds `a` and then, from `mid`, `b`. */
  lemma WindowSplit(data: Bytes, pos: nat, mid: nat, a: Bytes, b: Bytes)
    requires mid == pos + |a| && MatchAt(data, a + b, pos)
    ensures MatchAt(data, a, pos) && MatchAt(data, b, mid)
  {
    var win := data[pos..pos + |a| + |b|];
    assert data[pos..pos + |a|] == win[..|a|];
    assert data[pos + |a|..pos + |a| + |b|] == win[|a|..];
    assert (a + b)[..|a|] == a;
    assert (a + b)[|a|..] == b;
  }

  /** The bytes `write_prefixed_string` emits: the length as an `i32` (`len() as i32`, which
    * wraps for very long strings), then the bytes themselves. */
  function PrefixedString(e: Endian, s: Bytes): (r: Bytes)
    ensures |r| == 4 + |s|
    ensures r[4..] == s
  {
    EncodeSigned(e, W32, WrapI32(|s|)) + s
  }

  /** What `read_prefixed_string` reads at `pos`: the string and the cursor after it. A negative
    * length becomes a huge `usize` in the source, whose read cannot succeed; bytes that are not
    * UTF-8 are refused by `String::from_utf8`. */
  function ReadPrefixedAt(e: Endian, data: Bytes, pos: nat): (r: Result<(Bytes, nat), StreamError>)
    ensures r.Ok? ==> pos + 4 + |r.value.0| == r.value.1 <= |data|
    ensures r.Ok? ==> r.value.0 == data[pos + 4..r.value.1] && Utf8Valid(r.value.0)
  {
    match ReadSignedAt(e, W32, data, pos)
    case Err(err) => Err(err)
    case Ok(length) =>
      if length < 0 then Err(NegativeLength)
      else match ReadAt(data, pos + 4, length)
        case Err(err) => Err(err)
        case Ok(s) => if Utf8Valid(s) then Ok((s, pos + 4 + length)) else Err(InvalidUtf8)
  }

  /** A prefixed string fails as `InvalidUtf8` exactly when its length and its bytes are all
    * there but the bytes are not UTF-8. */
  lemma ReadPrefixedInvalid(e: Endian, data: Bytes, pos: nat)
    ensures ReadPrefixedAt(e, data, pos) == Err(InvalidUtf8) <==>
      ReadSignedAt(e, W32, data, pos).Ok? && 0 <= ReadSignedAt(e, W32, data, pos).value
      && pos + 4 + ReadSignedAt(e, W32, data, pos).value <= |data|
      && !Utf8Valid(data[pos + 4..pos + 4 + ReadSignedAt(e, W32, data, pos).value])
  {
  }

  /** Writing a prefixed string and reading it back at the same place gives the string, for
    * any string whose length fits in an `i32`. */
  lemma PrefixedRoundTrip(e: Endian, data: Bytes, pos: nat, s: Bytes)
    requires pos <= |data|
    requires |s| < 0x8000_0000 && Utf8Valid(s)
    ensures ReadPrefixedAt(e, WriteAt(data, pos, PrefixedString(e, s)), pos) == Ok((s, pos + 4 + |s|))
  {
    PrefixedWindow(e, data, pos, s);
    ReadPrefixedOk(e, WriteAt(data, pos, PrefixedString(e, s)), pos, s);
  }

  /** After the write, the length prefix and the bytes sit where a read looks for them. */
  lemma PrefixedWindow(e: Endian, data: Bytes, pos: nat, s: Bytes)
    requires pos <= |data|
    requires |s| < 0x8000_0000
    ensures ReadSignedAt(e, W32, WriteAt(data, pos, PrefixedString(e, s)), pos) == Ok(|s|)
    ensures ReadAt(WriteAt(data, pos, PrefixedString(e, s)), pos + 4, |s|) == Ok(s)
  {
    var w := WriteAt(data, pos, PrefixedString(e, s));
    var enc := EncodeSigned(e, W32, |s|);
    ReadAfterWrite(data, pos, PrefixedString(e, s));
    assert MatchAt(w, enc + s, pos);
    WindowSplit(w, pos, pos + 4, enc, s);
    ReadSignedWindow(e, W32, w, pos, |s|);
  }

  /** A length and that many UTF-8 bytes after it read as a prefixed string. */
  lemma ReadPrefixedOk(e: Endian, data: Bytes, pos: nat, s: Bytes)
    requires ReadSignedAt(e, W32, data, pos) == Ok(|s|) && ReadAt(data, pos + 4, |s|) == Ok(s) && Utf8Valid(s)
    ensures ReadPrefixedAt(e, data, pos) == Ok((s, pos + 4 + |s|))
  {
  }

  /** Writing an unsigned value and reading it back at the same place gives the value. */
  lemma UnsignedWriteRead(e: Endian, w: Width, data: Bytes, pos: nat, v: nat)
    requires pos <= |data|
    requires v < Bound(w)
    ensures ReadUnsignedAt(e, w, WriteAt(data, pos, EncodeUnsigned(e, w, v)), pos) == Ok(v)
  {
    ReadAfterWrite(data, pos, EncodeUnsigned(e, w, v));
    UnsignedRoundTrip(e, w, v);
  }

  /** The index of the first 0 byte at or after `p`. */
  function FirstZero(data: Bytes, p: nat): (r: Option<nat>)
    decreases |data| - p
    ensures r.Some? ==> p <= r.value < |data| && data[r.value] == 0
    ensures r.Some? ==> forall j :: p <= j < r.value ==> data[j] != 0
    ensures r.None? ==> forall j :: p <= j < |data| ==> data[j] != 0
  {
    if p >= |data| then None else if data[p] == 0 then Some(p) else FirstZero(data, p + 1)
  }

  /** What `read_null_terminated_string` reads at `pos`: the bytes before the first 0 and the
    * cursor just past that 0; running out of data first is an error, and so are bytes before
    * the 0 that are not UTF-8. */
  function ReadNullTerminatedAt(data: Bytes, pos: nat): (r: Result<(Bytes, nat), StreamError>)
    ensures r == Err(OutOfRange) <==> forall j :: pos <= j < |data| ==> data[j] != 0
    ensures r.Ok? ==> pos < r.value.1 <= |data| && data[r.value.1 - 1] == 0
    ensures r.Ok? ==> r.value.0 == data[pos..r.value.1 - 1] && 0 !in r.value.0 && Utf8Valid(r.value.0)
  {
    match FirstZero(data, pos)
    case None => Err(OutOfRange)
    case Some(k) => if Utf8Valid(data[pos..k]) then Ok((data[pos..k], k + 1)) else Err(InvalidUtf8)
  }

  /** A NUL-terminated string fails as `InvalidUtf8` exactly when its 0 is there but the bytes
    * before it are not UTF-8. */
  lemma ReadNullTerminatedInvalid(data: Bytes, pos: nat)
    ensures ReadNullTerminatedAt(data, pos) == Err(InvalidUtf8) <==>
      FirstZero(data, pos).Some? && !Utf8Valid(data[pos..FirstZero(data, pos).value])
  {
  }

  /** A byte that starts no UTF-8 sequence: a one-byte string of it is refused. */
  lemma NotUtf8Example()
    ensures ReadNullTerminatedAt([0xFF, 0], 0) == Err(InvalidUtf8)
    ensures ReadPrefixedAt(Little, [1, 0, 0, 0, 0xFF], 0) == Err(InvalidUtf8)
  {
    assert [0xFF, 0][0..1] == [0xFF];
    var d: Bytes := [1, 0, 0, 0, 0xFF];
    assert d[0..4] == [1, 0, 0, 0];
    assert d[4..5] == [0xFF];
    assert DecodeSigned(Little, W32, [1, 0, 0, 0]) == 1;
  }

  /** Whether `needle` occurs in `data` starting at `j`. */
  predicate MatchAt(data: Bytes, needle: Bytes, j: nat) {
    j + |needle| <= |data| && data[j..j + |needle|] == needle
  }

  /** The first position at or after `p` where `needle` occurs. */
  function FindFrom(data: Bytes, needle: Bytes, p: nat): (r: Option<nat>)
    decreases |data| - p
    ensures r.Some? ==> p <= r.value && MatchAt(data, needle, r.value)
    ensures r.Some? ==> forall j :: p <= j < r.value ==> !MatchAt(data, needle, j)
    ensures r.None? ==> forall j :: p <= j ==> !MatchAt(data, needle, j)
  {
    if p + |needle| > |data| then None
    else if data[p..p + |needle|] == needle then Some(p)
    else FindFrom(data, needle, p + 1)
  }

  /** Two consecutive writes equal one write of the concatenation. */
  lemma WriteAtConcat(data: Bytes, pos: nat, mid: nat, a: Bytes, b: Bytes)
    requires pos <= |data| && mid == pos + |a|
    ensures WriteAt(WriteAt(data, pos, a), mid, b) == WriteAt(data, pos, a + b)
  {
    var lhs := WriteAt(WriteAt(data, pos, a), pos + |a|, b);
    var rhs := WriteAt(data, pos, a + b);
    WriteAtContents(data, pos, a);
    WriteAtContents(WriteAt(data, pos, a), pos + |a|, b);
    WriteAtContents(data, pos, a + b);
    assert |lhs| == |rhs|;
    forall i | 0 <= i < |lhs| ensures lhs[i] == rhs[i] {
      if i < pos {
      } else if i < pos + |a| {
        assert rhs[pos + (i - pos)] == (a + b)[i - pos];
      } else if i < pos + |a| + |b| {
        assert rhs[pos + (i - pos)] == (a + b)[i - pos];
        assert lhs[pos + |a| + (i - pos - |a|)] == b[i - pos - |a|];
      } else {
      }
    }
  }

  /** The result and final cursor of `seek_until` started at `start`. */
  predicate SeekUntilOutcome(data: Bytes, needle: Bytes, start: nat, found: Option<nat>, cursor: nat) {
    match FindFrom(data, needle, start)
    case Some(i) => found == Some(i - start) && cursor == i
    case None =>
      found == None &&
      cursor == (if start + |needle| <= |data| then |data| - |needle| + 1 else start)
  }

  /** A stream read and written with a fixed byte order. */
  class BinaryStream {
    var endian: Endian
    const stream: MemoryStream

    /** `from_stream`: little-endian by default. */
    constructor FromStream(s: MemoryStream)
      ensures endian == Little && stream == s
    {
      endian := Little;
      stream := s;
    }

    constructor FromStreamWithEndian(s: MemoryStream, e: Endian)
      ensures endian == e && stream == s
    {
      endian := e;
      stream := s;
    }

    method SetEndian(e: Endian)
      modifies this
      ensures endian == e
    {
      endian := e;
    }

    /** `read_uint8` .. `read_uint64`. */
    method ReadUnsigned(w: Width) returns (r: Result<nat, StreamError>)
      modifies stream
      ensures r == ReadUnsignedAt(endian, w, old(stream.data), old(stream.position))
      ensures stream.data == old(stream.data)
      ensures stream.position == old(stream.position) + (if r.Ok? then w.Size() else 0)
    {
      var b := stream.ReadBytes(w.Size());
      match b
      case Ok(bytes) => r := Ok(DecodeUnsigned(endian, bytes));
      case Err(err) => r := Err(err);
    }

    /** `read_int8` .. `read_int64`. */
    method ReadSigned(w: Width) returns (r: Result<int, StreamError>)
      modifies stream
      ensures r == ReadSignedAt(endian, w, old(stream.data), old(stream.position))
      ensures stream.data == old(stream.data)
      ensures stream.position == old(stream.position) + (if r.Ok? then w.Size() else 0)
    {
      var b := stream.ReadBytes(w.Size());
      match b
      case Ok(bytes) => r := Ok(DecodeSigned(endian, w, bytes));
      case Err(err) => r := Err(err);
    }

    /** `read_boolean`: one byte, true when it is not zero. */
    method ReadBoolean() returns (r: Result<bool, StreamError>)
      modifies stream
      ensures var u := ReadUnsignedAt(endian, W8, old(stream.data), old(stream.position));
        r == if u.Ok? then Ok(u.value != 0) else Err(u.error)
      ensures stream.data == old(stream.data)
      ensures stream.position == old(stream.position) + (if r.Ok? then 1 else 0)
    {
      var v := ReadUnsigned(W8);
      r := if v.Ok? then Ok(v.value != 0) else Err(v.error);
    }

    method ReadPrefixedString() returns (r: Result<Bytes, StreamError>)
      modifies stream
      ensures var spec := ReadPrefixedAt(endian, old(stream.data), old(stream.position));
        r.Ok? == spec.Ok? && (spec.Ok? ==> r.value == spec.value.0 && stream.position == spec.value.1)
        && (spec.Err? ==> r.error == spec.error)
      ensures stream.data == old(stream.data)
    {
      var length := ReadSigned(W32);
      if length.Err? {
        return Err(length.error);
      }
      if length.value < 0 {
        return Err(NegativeLength);
      }
      var raw := stream.ReadBytes(length.value);
      if raw.Err? {
        return Err(raw.error);
      }
      if !Utf8Valid(raw.value) {
        return Err(InvalidUtf8);
      }
      r := Ok(raw.value);
    }

    method ReadNullTerminatedString() returns (r: Result<Bytes, StreamError>)
      modifies stream
      ensures var spec := ReadNullTerminatedAt(old(stream.data), old(stream.position));
        r.Ok? == spec.Ok? && (spec.Ok? ==> r.value == spec.value.0 && stream.position == spec.value.1)
        && (spec.Err? ==> r.error == spec.error)
      ensures stream.data == old(stream.data)
    {
      ghost var start := stream.position;
      var raw: Bytes := [];
      while true
        invariant stream.data == old(stream.data)
        invariant start <= stream.position
        invariant stream.position <= |stream.data| ==> raw == stream.data[start..stream.position]
        invariant stream.position > |stream.data| ==> start == stream.position
        invariant FirstZero(stream.data, start) == FirstZero(stream.data, stream.position)
        decreases |stream.data| - stream.position
      {
        var b := ReadUnsigned(W8);
        if b.Err? {
          return Err(b.error);
        }
        assert stream.data[stream.position - 1] == b.value;
        if b.value == 0 {
          break;
        }
        raw := raw + [b.value];
      }
      if !Utf8Valid(raw) {
        return Err(InvalidUtf8);
      }
      r := Ok(raw);
    }

    /** `seek_until`: searches forward from the cursor for `needle`. When found, the cursor is
      * left at the match and the distance from the start is returned; otherwise the cursor ends
      * one past the last position a match could start at. A needle longer than the stream is
      * an error: `stream_len - needle_len` panics in a debug build, and in a release build it
      * wraps so that the first read runs past the end. */
    method SeekUntil(needle: Bytes) returns (r: Result<Option<nat>, StreamError>)
      requires |stream.data| < U64_LIMIT
      modifies stream
      ensures r.Err? <==> |needle| > |old(stream.data)|
      ensures r.Err? ==> r.error == NeedleTooLong
      ensures stream.data == old(stream.data)
      ensures r.Ok? ==> SeekUntilOutcome(stream.data, needle, old(stream.position), r.value, stream.position)
    {
      ghost var data := stream.data;
      var start := stream.position;
      var len := stream.Len();
      if |needle| > len {
        return Err(NeedleTooLong);
      }
      var limit := len - |needle|;
      while stream.position <= limit
        invariant stream.data == data
        invariant start <= stream.position
        invariant start <= limit + 1 ==> stream.position <= limit + 1
        invariant start > limit + 1 ==> stream.position == start
        invariant FindFrom(data, needle, start) == FindFrom(data, needle, stream.position)
        decreases len - stream.position
      {
        var hit := Probe(needle);
        if hit {
          return Ok(Some(stream.position - start));
        }
      }
      r := Ok(None);
    }

    /** One step of the `seek_until` loop: reads the window at the cursor, then steps back to
      * the match or to one past where the window began. */
    method Probe(needle: Bytes) returns (hit: bool)
      requires stream.position + |needle| <= |stream.data| < U64_LIMIT
      modifies stream
      ensures stream.data == old(stream.data)
      ensures hit <==> MatchAt(stream.data, needle, old(stream.position))
      ensures stream.position == old(stream.position) + (if hit then 0 else 1)
    {
      ghost var p := stream.position;
      var haystack := stream.ReadBytes(|needle|);
      assert haystack.value == stream.data[p..p + |needle|];
      if haystack.value == needle {
        stream.Seek(Current(-|needle|));
        hit := true;
      } else {
        stream.Seek(Current(-(|needle| - 1)));
        hit := false;
      }
    }

    /** `write_uint8` .. `write_uint64`. */
    method WriteUnsigned(w: Width, v: nat) returns (r: Result<(), StreamError>)
      requires v < Bound(w)
      modifies stream
      ensures r.Ok? <==> stream.writable && old(stream.position) <= |old(stream.data)|
      ensures r.Ok? ==> stream.data == WriteAt(old(stream.data), old(stream.position), EncodeUnsigned(endian, w, v))
      ensures r.Ok? ==> stream.position == old(stream.position) + w.Size()
    {
      r := stream.WriteBytes(EncodeUnsigned(endian, w, v));
    }

    /** `write_int8` .. `write_int64`. */
    method WriteSigned(w: Width, v: int) returns (r: Result<(), StreamError>)
      requires SignedMin(w) <= v < -SignedMin(w)
      modifies stream
      ensures r.Ok? <==> stream.writable && old(stream.position) <= |old(stream.data)|
      ensures r.Ok? ==> stream.data == WriteAt(old(stream.data), old(stream.position), EncodeSigned(endian, w, v))
      ensures r.Ok? ==> stream.position == old(stream.position) + w.Size()
    {
      r := stream.WriteBytes(EncodeSigned(endian, w, v));
    }

    /** `write_boolean`: one byte, 1 for true and 0 for false. */
    method WriteBoolean(value: bool) returns (r: Result<(), StreamError>)
      modifies stream
      ensures r.Ok? <==> stream.writable && old(stream.position) <= |old(stream.data)|
      ensures r.Ok? ==> stream.data == WriteAt(old(stream.data), old(stream.position), [if value then 1 else 0])
      ensures r.Ok? ==> stream.position == old(stream.position) + 1
    {
      r := WriteUnsigned(W8, if value then 1 else 0);
    }

    method WritePrefixedString(s: Bytes) returns (r: Result<(), StreamError>)
      modifies stream
      ensures r.Ok? <==> stream.writable && old(stream.position) <= |old(stream.data)|
      ensures r.Ok? ==> stream.data == WriteAt(old(stream.data), old(stream.position), PrefixedString(endian, s))
      ensures r.Ok? ==> stream.position == old(stream.position) + 4 + |s|
    {
      ghost var d0, p0 := stream.data, stream.position;
      r := WriteSigned(W32, WrapI32(|s|));
      if r.Err? {
        return;
      }
      ghost var p1 := stream.position;
      r := stream.WriteBytes(s);
      WriteAtConcat(d0, p0, p1, EncodeSigned(endian, W32, WrapI32(|s|)), s);
    }
  }
}
