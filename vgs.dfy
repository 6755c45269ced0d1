/** The VGS audio container (core/grim/src/audio/vgs.rs): a little-endian header with the magic
  * "VgS!", a version and fifteen (sample rate, block count) pairs, followed by the channels'
  * 16-byte VAG blocks interleaved block by block. */
module VgsAudio {
  import opened Wrappers
  import opened Ints
  import opened Stream

  /** `VGS_MAGIC`, the bytes of "VgS!". */
  const VGS_MAGIC: Bytes := [0x56, 0x67, 0x53, 0x21]

  /** `VGS_CHANNEL_COUNT`. */
  const CHANNEL_SLOTS: nat := 15

  /** `VAG_BYTES_PER_BLOCK`. */
  const BYTES_PER_BLOCK: nat := 16

  /** Magic, version and the channel table. */
  const HEADER_SIZE: nat := 8 + 8 * CHANNEL_SLOTS

  datatype ChannelInfo = ChannelInfo(sampleRate: U32, blockCount: U32)

  datatype VgsFile = VgsFile(version: U32, channels: seq<ChannelInfo>, data: Bytes)

  /** `VgsReadError`, without the I/O variant that only `from_reader` produces. */
  datatype VgsReadError = UnknownReadError | InvalidMagic | UnsupportedVersion(version: U32)

  /** A channel whose blocks are in the data: a sample rate and at least one block. */
  predicate Audible(ch: ChannelInfo) {
    ch.sampleRate > 0 && ch.blockCount > 0
  }

  /** The size of the sample data: 16 bytes per block of every audible channel. */
  function StreamSize(chs: seq<ChannelInfo>): (n: nat)
    ensures chs == [] ==> n == 0
  {
    if chs == [] then 0
    else (if Audible(chs[0]) then chs[0].blockCount * BYTES_PER_BLOCK else 0) + StreamSize(chs[1..])
  }

  /** The little-endian `u32` at `pos`. */
  function U32At(data: Bytes, pos: nat): (v: U32)
    requires pos + 4 <= |data|
  {
    assert Pow256(4) == 0x1_0000_0000 by {
      assert Pow256(1) == 256 && Pow256(2) == 0x1_0000 && Pow256(3) == 0x100_0000;
    }
    DecodeUnsigned(Little, data[pos..pos + 4])
  }

  /** The `k`-th entry of the channel table. */
  function ChannelAt(data: Bytes, k: nat): ChannelInfo
    requires 8 + 8 * k + 8 <= |data|
  {
    ChannelInfo(U32At(data, 8 + 8 * k), U32At(data, 8 + 8 * k + 4))
  }

  /** The channel table of a header. */
  function ChannelTable(data: Bytes): (chs: seq<ChannelInfo>)
    requires HEADER_SIZE <= |data|
    ensures |chs| == CHANNEL_SLOTS
    ensures forall k :: 0 <= k < CHANNEL_SLOTS ==> chs[k] == ChannelAt(data, k)
  {
    seq(CHANNEL_SLOTS, k requires 0 <= k < CHANNEL_SLOTS => ChannelAt(data, k))
  }

  /** `VgsFile::from_data`. Every short read is `UnknownReadError`; a wrong magic is
    * `InvalidMagic`; a version other than 2 is `UnsupportedVersion`; the sample data is the
    * `StreamSize` bytes after the header, and any bytes after them are ignored. */
  function ParseVgs(data: Bytes): (r: Result<VgsFile, VgsReadError>)
    ensures r == Err(InvalidMagic) <==> 4 <= |data| && data[..4] != VGS_MAGIC
    ensures r.Err? && r.error.UnsupportedVersion? <==>
      8 <= |data| && data[..4] == VGS_MAGIC && U32At(data, 4) != 2
    ensures r.Err? && r.error.UnsupportedVersion? ==> r.error.version == U32At(data, 4)
    ensures r.Ok? <==>
      HEADER_SIZE <= |data| && data[..4] == VGS_MAGIC && U32At(data, 4) == 2
      && HEADER_SIZE + StreamSize(ChannelTable(data)) <= |data|
    ensures r.Ok? ==>
      r.value.version == 2 && r.value.channels == ChannelTable(data)
      && r.value.data == data[HEADER_SIZE..HEADER_SIZE + StreamSize(r.value.channels)]
  {
    if |data| < 4 then Err(UnknownReadError)
    else if data[..4] != VGS_MAGIC then Err(InvalidMagic)
    else if |data| < 8 then Err(UnknownReadError)
    else if U32At(data, 4) != 2 then Err(UnsupportedVersion(U32At(data, 4)))
    else if |data| < HEADER_SIZE then Err(UnknownReadError)
    else
      var chs := ChannelTable(data);
      var size := StreamSize(chs);
      if |data| < HEADER_SIZE + size then Err(UnknownReadError)
      else Ok(VgsFile(2, chs, data[HEADER_SIZE..HEADER_SIZE + size]))
  }

  /** `from_data`, reading through a binary stream as the source does. */
  method FromData(data: Bytes) returns (r: Result<VgsFile, VgsReadError>)
    ensures r == ParseVgs(data)
  {
    var stream := new MemoryStream.FromSliceAsRead(data);
    var reader := new BinaryStream.FromStreamWithEndian(stream, Little);
    var magic := stream.ReadBytes(4);
    if magic.Err? {
      return Err(UnknownReadError);
    }
    if magic.value != VGS_MAGIC {
      return Err(InvalidMagic);
    }
    var version := reader.ReadUnsigned(W32);
    if version.Err? {
      return Err(UnknownReadError);
    }
    assert version.value == U32At(data, 4);
    if version.value != 2 {
      return Err(UnsupportedVersion(version.value));
    }
    var channels := seq(CHANNEL_SLOTS, _ => ChannelInfo(0, 0));
    for k := 0 to CHANNEL_SLOTS
      invariant stream.data == data && stream.position == 8 + 8 * k && reader.endian == Little
      invariant |channels| == CHANNEL_SLOTS
      invariant forall j :: 0 <= j < k ==> 8 + 8 * j + 8 <= |data| && channels[j] == ChannelAt(data, j)
    {
      var rate := reader.ReadUnsigned(W32);
      if rate.Err? {
        return Err(UnknownReadError);
      }
      var blocks := reader.ReadUnsigned(W32);
      if blocks.Err? {
        return Err(UnknownReadError);
      }
      channels := channels[k := ChannelInfo(rate.value, blocks.value)];
    }
    assert 8 + 8 * (CHANNEL_SLOTS - 1) + 8 <= |data|;
    assert channels == ChannelTable(data);
    var size := StreamSize(channels);
    var samples := stream.ReadBytes(size);
    if samples.Err? {
      return Err(UnknownReadError);
    }
    r := Ok(VgsFile(version.value, channels, samples.value));
  }

  // ---- Writing a header, the partner of parsing ----

  function Le32(v: U32): (b: Bytes)
    ensures |b| == 4
  {
    EncodeUnsigned(Little, W32, v)
  }

  function ChannelBytes(chs: seq<ChannelInfo>): (b: Bytes)
    ensures |b| == 8 * |chs|
  {
    if chs == [] then [] else Le32(chs[0].sampleRate) + Le32(chs[0].blockCount) + ChannelBytes(chs[1..])
  }

  /** The bytes of a VGS file: magic, version, channel table, sample data. */
  function EncodeVgs(f: VgsFile): (b: Bytes)
  {
    VGS_MAGIC + Le32(f.version) + ChannelBytes(f.channels) + f.data
  }

  /** What `from_data` accepts: version 2, fifteen channels and exactly their sample data. */
  predicate WellFormed(f: VgsFile) {
    f.version == 2 && |f.channels| == CHANNEL_SLOTS && |f.data| == StreamSize(f.channels)
  }

  lemma {:induction false} ChannelBytesAt(chs: seq<ChannelInfo>, k: nat)
    requires k < |chs|
    ensures ChannelBytes(chs)[8 * k..8 * k + 4] == Le32(chs[k].sampleRate)
    ensures ChannelBytes(chs)[8 * k + 4..8 * k + 8] == Le32(chs[k].blockCount)
  {
    var head := Le32(chs[0].sampleRate) + Le32(chs[0].blockCount);
    assert ChannelBytes(chs) == head + ChannelBytes(chs[1..]);
    if k > 0 {
      ChannelBytesAt(chs[1..], k - 1);
      assert ChannelBytes(chs)[8 * k..8 * k + 4] == ChannelBytes(chs[1..])[8 * (k - 1)..8 * (k - 1) + 4];
      assert ChannelBytes(chs)[8 * k + 4..8 * k + 8] == ChannelBytes(chs[1..])[8 * (k - 1) + 4..8 * (k - 1) + 8];
    }
  }

  /** A well-formed file is read back as itself, whatever follows it. */
  lemma ParseEncoded(f: VgsFile, extra: Bytes)
    requires WellFormed(f)
    ensures ParseVgs(EncodeVgs(f) + extra) == Ok(f)
  {
    var data := EncodeVgs(f) + extra;
    var head := VGS_MAGIC + Le32(f.version);
    assert data == head + ChannelBytes(f.channels) + (f.data + extra);
    assert data[..4] == VGS_MAGIC;
    assert data[4..8] == Le32(f.version);
    UnsignedRoundTrip(Little, W32, f.version);
    TableRoundTrip(f.channels, head, f.data + extra);
    assert data[HEADER_SIZE..HEADER_SIZE + |f.data|] == f.data;
  }

  /** The channel table written after an 8-byte prefix is read back. */
  lemma TableRoundTrip(chs: seq<ChannelInfo>, head: Bytes, rest: Bytes)
    requires |chs| == CHANNEL_SLOTS && |head| == 8
    ensures ChannelTable(head + ChannelBytes(chs) + rest) == chs
  {
    var data := head + ChannelBytes(chs) + rest;
    forall k | 0 <= k < CHANNEL_SLOTS
      ensures ChannelAt(data, k) == chs[k]
    {
      ChannelRoundTrip(chs, head, rest, k);
    }
  }

  lemma ChannelRoundTrip(chs: seq<ChannelInfo>, head: Bytes, rest: Bytes, k: nat)
    requires k < |chs| && |head| == 8
    ensures 8 + 8 * k + 8 <= |head + ChannelBytes(chs) + rest|
    ensures ChannelAt(head + ChannelBytes(chs) + rest, k) == chs[k]
  {
    var data := head + ChannelBytes(chs) + rest;
    var table := ChannelBytes(chs);
    ChannelBytesAt(chs, k);
    assert data[8 + 8 * k..8 + 8 * k + 4] == table[8 * k..8 * k + 4];
    assert data[8 + 8 * k + 4..8 + 8 * k + 8] == table[8 * k + 4..8 * k + 8];
    UnsignedRoundTrip(Little, W32, chs[k].sampleRate);
    UnsignedRoundTrip(Little, W32, chs[k].blockCount);
  }

  /** A header with another magic is refused as such. */
  lemma WrongMagic(magic: Bytes, extra: Bytes)
    requires |magic| == 4 && magic != VGS_MAGIC
    ensures ParseVgs(magic + extra) == Err(InvalidMagic)
  {
    assert (magic + extra)[..4] == magic;
  }

  // ---- Channels ----

  /** `get_channel_count`: the channels with at least one block. */
  function ChannelCount(chs: seq<ChannelInfo>): (n: nat)
    ensures n <= |chs|
  {
    if chs == [] then 0 else (if chs[0].blockCount > 0 then 1 else 0) + ChannelCount(chs[1..])
  }

  /** The number of audible channels. */
  function AudibleCount(chs: seq<ChannelInfo>): (n: nat)
    ensures n <= ChannelCount(chs)
  {
    if chs == [] then 0 else (if Audible(chs[0]) then 1 else 0) + AudibleCount(chs[1..])
  }

  /** `get_sample_rate`: the largest sample rate (the table is never empty). */
  function MaxSampleRate(chs: seq<ChannelInfo>): (r: U32)
    requires chs != []
    ensures exists k :: 0 <= k < |chs| && chs[k].sampleRate == r
    ensures forall k :: 0 <= k < |chs| ==> chs[k].sampleRate <= r
  {
    if |chs| == 1 then chs[0].sampleRate
    else
      var rest := MaxSampleRate(chs[1..]);
      assert forall k :: 1 <= k < |chs| ==> chs[k] == chs[1..][k - 1];
      if chs[0].sampleRate >= rest then chs[0].sampleRate else rest
  }

  /** The high four bits of a byte, `(n >> 4) & 15`. */
  function HighNibble(n: bv8): (h: bv8)
    ensures h < 16
  {
    (n >> 4) & 15
  }

  /** The low four bits of a byte, `n & 15`. */
  function LowNibble(n: bv8): (l: bv8)
    ensures l < 16
  {
    n & 15
  }

  /** The two nibbles put back together are the byte. */
  lemma NibblesRecombine(n: bv8)
    ensures (HighNibble(n) << 4) | LowNibble(n) == n
    ensures (HighNibble(n) as int) * 16 + (LowNibble(n) as int) == n as int
  {
    assert HighNibble(n) == n / 16 && LowNibble(n) == n % 16;
    assert (n / 16) as int == (n as int) / 16 && (n % 16) as int == (n as int) % 16;
  }

  // ---- Block layout of `decode_samples_as_channels` ----

  /** Where block `b` of the `c`-th audible channel starts when `n` channels are interleaved:
    * `block_idx * channel_count * 16 + ch_idx * 16`. */
  function BlockStart(b: nat, n: nat, c: nat): (s: nat)
    ensures s == (b * n + c) * BYTES_PER_BLOCK
  {
    b * n * BYTES_PER_BLOCK + c * BYTES_PER_BLOCK
  }

  /** The block starts of the audible channels from `chs`, the first of them being audible
    * channel number `c`; `n` is the channel count. */
  function LayoutFrom(chs: seq<ChannelInfo>, n: nat, c: nat): (r: seq<seq<nat>>)
    ensures |r| == AudibleCount(chs)
  {
    if chs == [] then []
    else if Audible(chs[0]) then
      [seq(chs[0].blockCount, b requires 0 <= b => BlockStart(b, n, c))] + LayoutFrom(chs[1..], n, c + 1)
    else LayoutFrom(chs[1..], n, c)
  }

  /** The block starts `decode_samples_as_channels` reads, channel by channel. */
  function Layout(f: VgsFile): seq<seq<nat>> {
    LayoutFrom(f.channels, ChannelCount(f.channels), 0)
  }

  /** The loops of `decode_samples_as_channels`, with block decoding left out: the start of each
    * block it slices, per audible channel in table order. */
  method BlockStarts(f: VgsFile) returns (starts: seq<seq<nat>>)
    ensures starts == Layout(f)
  {
    var n := ChannelCount(f.channels);
    starts := [];
    for k := 0 to |f.channels|
      invariant starts + LayoutFrom(f.channels[k..], n, |starts|) == Layout(f)
    {
      var ch := f.channels[k];
      assert f.channels[k..][1..] == f.channels[k + 1..];
      if ch.sampleRate == 0 || ch.blockCount == 0 {
        continue;
      }
      var c := |starts|;
      var blockStarts := ChannelBlockStarts(ch.blockCount, n, c);
      assert starts + [blockStarts] + LayoutFrom(f.channels[k + 1..], n, c + 1)
        == starts + ([blockStarts] + LayoutFrom(f.channels[k + 1..], n, c + 1));
      starts := starts + [blockStarts];
    }
  }

  /** The inner loop of `decode_samples_as_channels`: the start of each block of the audible
    * channel numbered `c`. */
  method ChannelBlockStarts(blocks: nat, n: nat, c: nat) returns (blockStarts: seq<nat>)
    ensures blockStarts == seq(blocks, b requires 0 <= b => BlockStart(b, n, c))
  {
    blockStarts := [];
    for b := 0 to blocks
      invariant |blockStarts| == b && forall j :: 0 <= j < b ==> blockStarts[j] == BlockStart(j, n, c)
    {
      var startIdx := (b * n * BYTES_PER_BLOCK) + (c * BYTES_PER_BLOCK);
      blockStarts := blockStarts + [startIdx];
    }
  }

  lemma MulStep(b1: nat, b2: nat, n: nat)
    requires b1 < b2
    ensures b1 * n + n <= b2 * n
  {
    var d := b2 - b1 - 1;
    assert b2 == b1 + 1 + d;
    assert b2 * n == b1 * n + n + d * n;
  }

  /** A block below the block count of a channel below the channel count ends within the data of
    * `n` channels of `blocks` blocks. */
  lemma BlockFits(b: nat, c: nat, n: nat, blocks: nat)
    requires b < blocks && c < n
    ensures BlockStart(b, n, c) + BYTES_PER_BLOCK <= n * blocks * BYTES_PER_BLOCK
  {
    MulStep(b, blocks, n);
    assert b * n + c + 1 <= blocks * n;
    assert n * blocks == blocks * n;
  }

  /** Blocks of different (block, channel) pairs do not overlap, as long as the channel numbers
    * are below the channel count. */
  lemma BlocksDisjoint(n: nat, b1: nat, c1: nat, b2: nat, c2: nat)
    requires c1 < n && c2 < n && (b1, c1) != (b2, c2)
    ensures BlockStart(b1, n, c1) + BYTES_PER_BLOCK <= BlockStart(b2, n, c2)
      || BlockStart(b2, n, c2) + BYTES_PER_BLOCK <= BlockStart(b1, n, c1)
  {
    if b1 < b2 {
      MulStep(b1, b2, n);
    } else if b2 < b1 {
      MulStep(b2, b1, n);
    }
  }

  /** The audible channels are numbered below the channel count. */
  lemma {:induction false} LayoutChannelsBelowCount(chs: seq<ChannelInfo>, n: nat, c: nat)
    requires c + AudibleCount(chs) <= n
    ensures forall i, b :: 0 <= i < |LayoutFrom(chs, n, c)| && 0 <= b < |LayoutFrom(chs, n, c)[i]| ==>
      LayoutFrom(chs, n, c)[i][b] == BlockStart(b, n, c + i) && c + i < n
  {
    if chs != [] {
      var c' := if Audible(chs[0]) then c + 1 else c;
      LayoutChannelsBelowCount(chs[1..], n, c');
      var rest := LayoutFrom(chs[1..], n, c');
      if Audible(chs[0]) {
        var head := seq(chs[0].blockCount, b requires 0 <= b => BlockStart(b, n, c));
        assert LayoutFrom(chs, n, c) == [head] + rest;
        forall i, b | 0 <= i < |LayoutFrom(chs, n, c)| && 0 <= b < |LayoutFrom(chs, n, c)[i]|
          ensures LayoutFrom(chs, n, c)[i][b] == BlockStart(b, n, c + i) && c + i < n
        {
          if i > 0 {
            assert LayoutFrom(chs, n, c)[i] == rest[i - 1];
          }
        }
      } else {
        assert LayoutFrom(chs, n, c) == rest;
      }
    }
  }

  /** Every channel with blocks is audible, and all of them have `blocks` blocks: the header
    * the layout assumes. */
  predicate Uniform(chs: seq<ChannelInfo>, blocks: nat) {
    forall k :: 0 <= k < |chs| ==> chs[k].blockCount == 0 || (chs[k].sampleRate > 0 && chs[k].blockCount == blocks)
  }

  lemma {:induction false} UniformSize(chs: seq<ChannelInfo>, blocks: nat)
    requires Uniform(chs, blocks)
    ensures StreamSize(chs) == ChannelCount(chs) * blocks * BYTES_PER_BLOCK
    ensures AudibleCount(chs) == ChannelCount(chs)
  {
    if chs != [] {
      assert Uniform(chs[1..], blocks) by {
        assert forall k :: 1 <= k < |chs| ==> chs[k] == chs[1..][k - 1];
      }
      UniformSize(chs[1..], blocks);
      var r := ChannelCount(chs[1..]);
      if chs[0].blockCount > 0 {
        assert StreamSize(chs) == blocks * BYTES_PER_BLOCK + StreamSize(chs[1..]);
        assert ChannelCount(chs) == 1 + r && AudibleCount(chs) == 1 + AudibleCount(chs[1..]);
        MulSucc(r, blocks);
      } else {
        assert StreamSize(chs) == StreamSize(chs[1..]) && ChannelCount(chs) == r;
      }
    }
  }

  lemma MulSucc(r: nat, blocks: nat)
    ensures (1 + r) * blocks * BYTES_PER_BLOCK == blocks * BYTES_PER_BLOCK + r * blocks * BYTES_PER_BLOCK
  {
  }

  /** For a uniform header, every block the layout reads lies within the sample data. */
  lemma UniformBlocksFit(f: VgsFile, blocks: nat)
    requires |f.data| == StreamSize(f.channels) && Uniform(f.channels, blocks)
    ensures forall i, b :: 0 <= i < |Layout(f)| && 0 <= b < |Layout(f)[i]| ==>
      Layout(f)[i][b] + BYTES_PER_BLOCK <= |f.data|
  {
    var n := ChannelCount(f.channels);
    UniformSize(f.channels, blocks);
    LayoutChannelsBelowCount(f.channels, n, 0);
    assert AudibleUniform(f.channels, blocks);
    forall i, b | 0 <= i < |Layout(f)| && 0 <= b < |Layout(f)[i]|
      ensures Layout(f)[i][b] + BYTES_PER_BLOCK <= |f.data|
    {
      UniformBlockCounts(f.channels, n, 0, blocks, i);
      BlockFits(b, i, n, blocks);
    }
  }

  /** The audible channels all have `blocks` blocks; silent channels may have any count. */
  predicate AudibleUniform(chs: seq<ChannelInfo>, blocks: nat) {
    forall k :: 0 <= k < |chs| && Audible(chs[k]) ==> chs[k].blockCount == blocks
  }

  lemma {:induction false} UniformBlockCounts(chs: seq<ChannelInfo>, n: nat, c: nat, blocks: nat, i: nat)
    requires AudibleUniform(chs, blocks) && i < |LayoutFrom(chs, n, c)|
    ensures |LayoutFrom(chs, n, c)[i]| == blocks
  {
    assert AudibleUniform(chs[1..], blocks) by {
      assert forall k :: 1 <= k < |chs| ==> chs[k] == chs[1..][k - 1];
    }
    if Audible(chs[0]) {
      if i > 0 {
        UniformBlockCounts(chs[1..], n, c + 1, blocks, i - 1);
      }
    } else {
      UniformBlockCounts(chs[1..], n, c, blocks, i);
    }
  }

  /** Without the uniform header the layout can run past the data: a channel with blocks but no
    * sample rate is counted in the stride but its blocks are not read, so the audible channel's
    * second block starts at the end of the data. The table here has 2 entries where `from_data`
    * reads 15; the 13 trailing (0, 0) entries it would add change neither count, the data size
    * nor the layout of these two channels. */
  lemma SilentChannelOverruns()
    ensures var f := VgsFile(2, [ChannelInfo(0, 2), ChannelInfo(44100, 2)], seq(32, _ => 0));
      |f.data| == StreamSize(f.channels) && Layout(f)[0][1] + BYTES_PER_BLOCK > |f.data|
  {
    var chs := [ChannelInfo(0, 2), ChannelInfo(44100, 2)];
    assert chs[1..][1..] == [];
    assert StreamSize(chs) == 32;
    assert ChannelCount(chs) == 2;
    assert LayoutFrom(chs, 2, 0) == LayoutFrom(chs[1..], 2, 0);
  }

  /** The layout with the stride `decode_samples_as_channels` evidently intends: only the
    * channels it reads, the audible ones, are counted in it. */
  function LayoutCorrected(f: VgsFile): seq<seq<nat>> {
    LayoutFrom(f.channels, AudibleCount(f.channels), 0)
  }

  /** When the audible channels share their block count, the sample data is that many blocks of
    * each audible channel. */
  lemma {:induction false} AudibleSize(chs: seq<ChannelInfo>, blocks: nat)
    requires AudibleUniform(chs, blocks)
    ensures StreamSize(chs) == AudibleCount(chs) * blocks * BYTES_PER_BLOCK
  {
    if chs != [] {
      assert AudibleUniform(chs[1..], blocks) by {
        assert forall k :: 1 <= k < |chs| ==> chs[k] == chs[1..][k - 1];
      }
      AudibleSize(chs[1..], blocks);
      var r := AudibleCount(chs[1..]);
      if Audible(chs[0]) {
        assert StreamSize(chs) == blocks * BYTES_PER_BLOCK + StreamSize(chs[1..]);
        assert AudibleCount(chs) == 1 + r;
        MulSucc(r, blocks);
      } else {
        assert StreamSize(chs) == StreamSize(chs[1..]) && AudibleCount(chs) == r;
      }
    }
  }

  /** With the corrected stride every block read lies within the sample data, whatever the
    * silent channels' block counts, as long as the audible channels share theirs. */
  lemma CorrectedBlocksFit(f: VgsFile, blocks: nat)
    requires |f.data| == StreamSize(f.channels) && AudibleUniform(f.channels, blocks)
    ensures forall i, b :: 0 <= i < |LayoutCorrected(f)| && 0 <= b < |LayoutCorrected(f)[i]| ==>
      LayoutCorrected(f)[i][b] + BYTES_PER_BLOCK <= |f.data|
  {
    var n := AudibleCount(f.channels);
    AudibleSize(f.channels, blocks);
    LayoutChannelsBelowCount(f.channels, n, 0);
    forall i, b | 0 <= i < |LayoutCorrected(f)| && 0 <= b < |LayoutCorrected(f)[i]|
      ensures LayoutCorrected(f)[i][b] + BYTES_PER_BLOCK <= |f.data|
    {
      UniformBlockCounts(f.channels, n, 0, blocks, i);
      BlockFits(b, i, n, blocks);
    }
  }

  /** The file that overruns with the source's stride is read within its data with the
    * corrected one. */
  lemma SilentChannelCorrected()
    ensures var f := VgsFile(2, [ChannelInfo(0, 2), ChannelInfo(44100, 2)], seq(32, _ => 0));
      forall i, b :: 0 <= i < |LayoutCorrected(f)| && 0 <= b < |LayoutCorrected(f)[i]| ==>
        LayoutCorrected(f)[i][b] + BYTES_PER_BLOCK <= |f.data|
  {
    var chs := [ChannelInfo(0, 2), ChannelInfo(44100, 2)];
    var f := VgsFile(2, chs, seq(32, _ => 0));
    assert chs[1..][1..] == [];
    assert StreamSize(chs) == 32;
    assert AudibleUniform(chs, 2);
    CorrectedBlocksFit(f, 2);
  }
}
