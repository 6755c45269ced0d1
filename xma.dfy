/** XMA2 support: the 52-byte XMA2 wave format block and a builder that lays chunks out in
  * a RIFF container. */
module Xma {
  import opened Wrappers
  import opened Ints

  const XMA_BITS_PER_SAMPLE: U16 := 16
  const XMA_BYTES_PER_PACKET: nat := 2048
  const XMA_SAMPLES_PER_FRAME: nat := 512
  const XMA_SAMPLES_PER_SUBFRAME: nat := 128

  const WAVE_FORMAT_XMA2: U16 := 0x166
  const SPEAKER_STEREO_MONO: U32 := 0x0000_0004
  const SPEAKER_STEREO_STEREO: U32 := 0x0000_0003
  const SPEAKER_ALL: U32 := 0x8000_0000

  /** `cbSize`: the bytes of the format block that follow the classic wave header. */
  const XMA_EXTRA_SIZE: U16 := 34
  /** Size of the classic wave header part of the format block. */
  const WAVE_HEADER_SIZE: nat := 18
  const FORMAT_SIZE: nat := 52

  // ---- The XMA2 format block ----

  /** The fields of the format block that vary; the tag, the bits per sample and `cbSize`
    * are constants. */
  datatype XmaWavFormat = XmaWavFormat(
    nChannels: U16,
    nSamplesPerSec: U32,
    nAvgBytesPerSec: U32,
    nBlockAlign: U16,
    numStreams: U16,
    channelMask: U32,
    samplesEncoded: U32,
    bytesPerBlock: U32,
    playBegin: U32,
    playLength: U32,
    loopBegin: U32,
    loopLength: U32,
    loopCount: U8,
    encoderVersion: U8,
    blockCount: U16)

  function Le8(v: U8): (r: Bytes)
    ensures |r| == 1
  {
    EncodeUnsigned(Little, W8, v)
  }

  function Le16(v: U16): (r: Bytes)
    ensures |r| == 2
  {
    EncodeUnsigned(Little, W16, v)
  }

  function Le32(v: U32): (r: Bytes)
    ensures |r| == 4
  {
    EncodeUnsigned(Little, W32, v)
  }

  /** `into_array`: the fields written one after another, all little-endian, filling the
    * 52-byte buffer exactly. The first 18 bytes are the classic wave header (tag, channels,
    * sample rate, byte rate, block align, bits per sample, `cbSize`); the remaining 34 are
    * the XMA2 extension that `cbSize` counts. */
  function IntoArray(f: XmaWavFormat): (r: Bytes)
    ensures |r| == FORMAT_SIZE
  {
    Le16(WAVE_FORMAT_XMA2) + (Le16(f.nChannels) + (Le32(f.nSamplesPerSec)
    + (Le32(f.nAvgBytesPerSec) + (Le16(f.nBlockAlign) + (Le16(XMA_BITS_PER_SAMPLE)
    + (Le16(XMA_EXTRA_SIZE) + (Le16(f.numStreams) + (Le32(f.channelMask)
    + (Le32(f.samplesEncoded) + (Le32(f.bytesPerBlock) + (Le32(f.playBegin)
    + (Le32(f.playLength) + (Le32(f.loopBegin) + (Le32(f.loopLength)
    + (Le8(f.loopCount) + (Le8(f.encoderVersion) + Le16(f.blockCount)))))))))))))))))
  }

  /** Reads one little-endian value of width `w` off the front of `b`. */
  function Take(b: Bytes, w: Width): (r: (nat, Bytes))
    requires w.Size() <= |b|
    ensures r.0 < Bound(w) && |r.1| == |b| - w.Size()
  {
    (DecodeUnsigned(Little, b[..w.Size()]), b[w.Size()..])
  }

  /** Reads a format block back, field by field: the inverse of `IntoArray`. A buffer of
    * another size, or with another tag, bits per sample or `cbSize`, is refused. */
  function FromArray(b: Bytes): (r: Option<XmaWavFormat>)
  {
    if |b| != FORMAT_SIZE then None
    else
      var (tag, b1) := Take(b, W16);
      var (nChannels, b2) := Take(b1, W16);
      var (nSamplesPerSec, b3) := Take(b2, W32);
      var (nAvgBytesPerSec, b4) := Take(b3, W32);
      var (nBlockAlign, b5) := Take(b4, W16);
      var (bitsPerSample, b6) := Take(b5, W16);
      var (cbSize, b7) := Take(b6, W16);
      var (numStreams, b8) := Take(b7, W16);
      var (channelMask, b9) := Take(b8, W32);
      var (samplesEncoded, b10) := Take(b9, W32);
      var (bytesPerBlock, b11) := Take(b10, W32);
      var (playBegin, b12) := Take(b11, W32);
      var (playLength, b13) := Take(b12, W32);
      var (loopBegin, b14) := Take(b13, W32);
      var (loopLength, b15) := Take(b14, W32);
      var (loopCount, b16) := Take(b15, W8);
      var (encoderVersion, b17) := Take(b16, W8);
      var (blockCount, _) := Take(b17, W16);
      if tag != WAVE_FORMAT_XMA2 || bitsPerSample != XMA_BITS_PER_SAMPLE || cbSize != XMA_EXTRA_SIZE
      then None
      else Some(XmaWavFormat(nChannels, nSamplesPerSec, nAvgBytesPerSec, nBlockAlign,
        numStreams, channelMask, samplesEncoded, bytesPerBlock, playBegin, playLength,
        loopBegin, loopLength, loopCount, encoderVersion, blockCount))
  }

  /** Taking a value off an encoding gives the value and what followed it. */
  lemma TakePiece(w: Width, v: nat, rest: Bytes)
    requires v < Bound(w)
    ensures Take(EncodeUnsigned(Little, w, v) + rest, w) == (v, rest)
  {
    var b := EncodeUnsigned(Little, w, v) + rest;
    assert b[..w.Size()] == EncodeUnsigned(Little, w, v);
    assert b[w.Size()..] == rest;
    UnsignedRoundTrip(Little, w, v);
  }

  /** Reading back what `into_array` wrote gives the same format. */
  lemma IntoArrayRoundTrip(f: XmaWavFormat)
    ensures FromArray(IntoArray(f)) == Some(f)
  {
    var t17 := Le16(f.blockCount);
    var t16 := Le8(f.encoderVersion) + t17;
    var t15 := Le8(f.loopCount) + t16;
    var t14 := Le32(f.loopLength) + t15;
    var t13 := Le32(f.loopBegin) + t14;
    var t12 := Le32(f.playLength) + t13;
    var t11 := Le32(f.playBegin) + t12;
    var t10 := Le32(f.bytesPerBlock) + t11;
    var t9 := Le32(f.samplesEncoded) + t10;
    var t8 := Le32(f.channelMask) + t9;
    var t7 := Le16(f.numStreams) + t8;
    var t6 := Le16(XMA_EXTRA_SIZE) + t7;
    var t5 := Le16(XMA_BITS_PER_SAMPLE) + t6;
    var t4 := Le16(f.nBlockAlign) + t5;
    var t3 := Le32(f.nAvgBytesPerSec) + t4;
    var t2 := Le32(f.nSamplesPerSec) + t3;
    var t1 := Le16(f.nChannels) + t2;
    assert IntoArray(f) == Le16(WAVE_FORMAT_XMA2) + t1;
    TakePiece(W16, WAVE_FORMAT_XMA2, t1);
    TakePiece(W16, f.nChannels, t2);
    TakePiece(W32, f.nSamplesPerSec, t3);
    TakePiece(W32, f.nAvgBytesPerSec, t4);
    TakePiece(W16, f.nBlockAlign, t5);
    TakePiece(W16, XMA_BITS_PER_SAMPLE, t6);
    TakePiece(W16, XMA_EXTRA_SIZE, t7);
    TakePiece(W16, f.numStreams, t8);
    TakePiece(W32, f.channelMask, t9);
    TakePiece(W32, f.samplesEncoded, t10);
    TakePiece(W32, f.bytesPerBlock, t11);
    TakePiece(W32, f.playBegin, t12);
    TakePiece(W32, f.playLength, t13);
    TakePiece(W32, f.loopBegin, t14);
    TakePiece(W32, f.loopLength, t15);
    TakePiece(W8, f.loopCount, t16);
    TakePiece(W8, f.encoderVersion, t17);
    assert t17 + [] == t17;
    TakePiece(W16, f.blockCount, []);
  }

  /** The block begins with the XMA2 tag 0x166, and `cbSize` (bytes 16..18) is 34. */
  lemma IntoArrayConstants(f: XmaWavFormat)
    ensures IntoArray(f)[..2] == [0x66, 0x01]
    ensures IntoArray(f)[14..16] == [16, 0]
    ensures IntoArray(f)[16..18] == [34, 0]
  {
    assert Le16(WAVE_FORMAT_XMA2) == [0x66, 0x01];
    assert Le16(XMA_BITS_PER_SAMPLE) == [16, 0];
    assert Le16(XMA_EXTRA_SIZE) == [34, 0];
  }

  // ---- RIFF container ----

  /** A four-byte chunk or form identifier. */
  type FourCC = s: Bytes | |s| == 4 witness [0, 0, 0, 0]

  /** "RIFF" in ASCII. */
  const RIFF_MAGIC: FourCC := [0x52, 0x49, 0x46, 0x46]

  datatype Chunk = Chunk(id: FourCC, data: Bytes)

  /** `RiffBuilder`: an optional form type and the chunks in the order they were added. */
  datatype RiffBuilder = RiffBuilder(riffType: Option<FourCC>, chunks: seq<Chunk>) {
    /** `with_type`. */
    function WithType(typ: FourCC): RiffBuilder {
      this.(riffType := Some(typ))
    }

    /** `and_chunk`: appends a chunk. */
    function AndChunk(id: FourCC, data: Bytes): RiffBuilder {
      this.(chunks := chunks + [Chunk(id, data)])
    }
  }

  /** `RiffBuilder::new`. */
  const EMPTY_BUILDER: RiffBuilder := RiffBuilder(None, [])

  /** Bytes a chunk adds to the total: its id, its data and a 4-byte length. */
  function ChunkSize(c: Chunk): nat {
    |c.id| + |c.data| + 4
  }

  function SumChunkSizes(cs: seq<Chunk>): nat {
    if cs == [] then 0 else ChunkSize(cs[0]) + SumChunkSizes(cs[1..])
  }

  /** `calc_total_chunk_size`: the type's length, if any, plus every chunk's size. */
  function CalcTotalChunkSize(b: RiffBuilder): nat {
    (if b.riffType.Some? then |b.riffType.value| else 0) + SumChunkSizes(b.chunks)
  }

  /** One chunk as written: the id, the data length truncated to 32 bits, then the data. */
  function ChunkBytes(c: Chunk): (r: Bytes)
    ensures |r| == ChunkSize(c)
  {
    c.id + Le32(WrapU32(|c.data|)) + c.data
  }

  function ChunksBytes(cs: seq<Chunk>): Bytes {
    if cs == [] then [] else ChunkBytes(cs[0]) + ChunksBytes(cs[1..])
  }

  /** The header: "RIFF", the total size truncated to 32 bits, then the type if there is one. */
  function HeaderBytes(b: RiffBuilder): Bytes {
    RIFF_MAGIC + Le32(WrapU32(CalcTotalChunkSize(b)))
      + (if b.riffType.Some? then b.riffType.value else [])
  }

  /** What `build_to_vec` produces. */
  function RiffBytes(b: RiffBuilder): Bytes {
    HeaderBytes(b) + ChunksBytes(b.chunks)
  }

  /** `build_to_vec`: the header, then each chunk appended in order to the writer. */
  method BuildToVec(b: RiffBuilder) returns (out: Bytes)
    ensures out == RiffBytes(b)
  {
    var writer := WriteHeader(b);
    assert b.chunks[..0] == [];
    assert writer == HeaderBytes(b) + ChunksBytes(b.chunks[..0]);
    for i := 0 to |b.chunks|
      invariant writer == HeaderBytes(b) + ChunksBytes(b.chunks[..i])
    {
      var c := b.chunks[i];
      writer := WriteChunk(writer, c);
      ChunksSnoc(b.chunks[..i], c);
      assert b.chunks[..i + 1] == b.chunks[..i] + [c];
    }
    assert b.chunks[..|b.chunks|] == b.chunks;
    out := writer;
  }

  /** The header part of `build_to_vec`: magic, truncated total, optional type. */
  method WriteHeader(b: RiffBuilder) returns (writer: Bytes)
    ensures writer == HeaderBytes(b)
  {
    var totalChunkSize := WrapU32(CalcTotalChunkSize(b));
    writer := [];
    writer := writer + RIFF_MAGIC;
    writer := writer + Le32(totalChunkSize);
    if b.riffType.Some? {
      writer := writer + b.riffType.value;
    }
  }

  /** One iteration of the chunk loop: id, length, data. */
  method WriteChunk(writer: Bytes, c: Chunk) returns (w: Bytes)
    ensures w == writer + ChunkBytes(c)
  {
    w := writer + c.id;
    w := w + Le32(WrapU32(|c.data|));
    w := w + c.data;
  }

  lemma {:induction false} ChunksSnoc(cs: seq<Chunk>, c: Chunk)
    ensures ChunksBytes(cs + [c]) == ChunksBytes(cs) + ChunkBytes(c)
  {
    if cs == [] {
      assert [c][1..] == [];
      assert ChunksBytes([c]) == ChunkBytes(c) + [];
    } else {
      assert (cs + [c])[1..] == cs[1..] + [c];
      ChunksSnoc(cs[1..], c);
    }
  }

  lemma {:induction false} ChunksLength(cs: seq<Chunk>)
    ensures |ChunksBytes(cs)| == SumChunkSizes(cs)
  {
    if cs != [] {
      ChunksLength(cs[1..]);
    }
  }

  /** The output is 8 bytes ("RIFF" and the size) longer than the total the size field
    * carries, and begins with "RIFF". */
  lemma RiffLength(b: RiffBuilder)
    ensures |RiffBytes(b)| == 8 + CalcTotalChunkSize(b)
    ensures RiffBytes(b)[..4] == RIFF_MAGIC
  {
    ChunksLength(b.chunks);
  }

  /** The size field (bytes 4..8) holds the length of everything after it, modulo 2^32: exact
    * for outputs under 4 GiB. */
  lemma RiffSizeField(b: RiffBuilder)
    ensures DecodeUnsigned(Little, RiffBytes(b)[4..8]) == WrapU32(|RiffBytes(b)| - 8)
  {
    RiffLength(b);
    var r := RiffBytes(b);
    assert r[4..8] == Le32(WrapU32(CalcTotalChunkSize(b)));
    UnsignedRoundTrip(Little, W32, WrapU32(CalcTotalChunkSize(b)));
  }

  /** Adding a chunk appends its id, length and data to the output and grows the size by
    * 8 plus the data's length. */
  lemma AndChunkAppends(b: RiffBuilder, id: FourCC, data: Bytes)
    ensures CalcTotalChunkSize(b.AndChunk(id, data)) == CalcTotalChunkSize(b) + 8 + |data|
    ensures ChunksBytes(b.AndChunk(id, data).chunks)
      == ChunksBytes(b.chunks) + id + Le32(WrapU32(|data|)) + data
  {
    SumSnoc(b.chunks, Chunk(id, data));
    ChunksSnoc(b.chunks, Chunk(id, data));
  }

  lemma {:induction false} SumSnoc(cs: seq<Chunk>, c: Chunk)
    ensures SumChunkSizes(cs + [c]) == SumChunkSizes(cs) + ChunkSize(c)
  {
    if cs == [] {
      assert [c][1..] == [];
    } else {
      assert (cs + [c])[1..] == cs[1..] + [c];
      SumSnoc(cs[1..], c);
    }
  }

  // ---- Reading a RIFF container back ----

  /** Chunks whose lengths survive the 32-bit length field. */
  predicate ChunksFit(cs: seq<Chunk>) {
    forall i :: 0 <= i < |cs| ==> |cs[i].data| < U32_LIMIT
  }

  /** Splits bytes into chunks (id, 32-bit little-endian length, data) until none are left. */
  function ParseChunks(data: Bytes): (r: Option<seq<Chunk>>)
    decreases |data|
  {
    if data == [] then Some([])
    else if |data| < 8 then None
    else
      var len := DecodeUnsigned(Little, data[4..8]);
      if |data| < 8 + len then None
      else match ParseChunks(data[8 + len..])
        case None => None
        case Some(rest) => Some([Chunk(data[..4], data[8..8 + len])] + rest)
  }

  /** Reads a container: "RIFF", a size matching the rest of the input, the type when
    * `typed`, then the chunks. */
  function ParseRiff(data: Bytes, typed: bool): (r: Option<RiffBuilder>)
  {
    if |data| < 8 || data[..4] != RIFF_MAGIC then None
    else if DecodeUnsigned(Little, data[4..8]) != |data| - 8 then None
    else if typed && |data| < 12 then None
    else
      var typ: Option<FourCC> := if typed then Some(data[8..12]) else None;
      var body := if typed then data[12..] else data[8..];
      match ParseChunks(body)
      case None => None
      case Some(chunks) => Some(RiffBuilder(typ, chunks))
  }

  lemma {:induction false} ChunksRoundTrip(cs: seq<Chunk>)
    requires ChunksFit(cs)
    ensures ParseChunks(ChunksBytes(cs)) == Some(cs)
  {
    if cs != [] {
      var c := cs[0];
      var rest := ChunksBytes(cs[1..]);
      var data := ChunksBytes(cs);
      assert |c.data| < U32_LIMIT;
      assert data == c.id + Le32(|c.data|) + c.data + rest;
      assert data[..4] == c.id;
      assert data[4..8] == Le32(|c.data|);
      UnsignedRoundTrip(Little, W32, |c.data|);
      assert data[8..8 + |c.data|] == c.data;
      assert data[8 + |c.data|..] == rest;
      assert ChunksFit(cs[1..]) by {
        assert forall i :: 1 <= i < |cs| ==> cs[i] == cs[1..][i - 1];
      }
      ChunksRoundTrip(cs[1..]);
      assert [c] + cs[1..] == cs;
    }
  }

  /** Reading back what `build_to_vec` wrote gives the builder again, when every length fits
    * its 32-bit field. */
  lemma RiffRoundTrip(b: RiffBuilder)
    requires ChunksFit(b.chunks) && CalcTotalChunkSize(b) < U32_LIMIT
    ensures ParseRiff(RiffBytes(b), b.riffType.Some?) == Some(b)
  {
    var r := RiffBytes(b);
    RiffLength(b);
    RiffSizeField(b);
    ChunksRoundTrip(b.chunks);
    if b.riffType.Some? {
      assert r[8..12] == b.riffType.value;
      assert r[12..] == ChunksBytes(b.chunks);
    } else {
      assert r[8..] == ChunksBytes(b.chunks);
    }
  }
}
