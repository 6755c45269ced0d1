/** Bit unpacking shared by the texture decoders, from core/grim/src/texture/common.rs: byte
  * reads, RGB565 colours, the 2-bit and 3-bit index fields of compressed blocks, colour mixing,
  * and the writes of a decoded 4x4 block into an RGBA buffer of four bytes per pixel. Bytes are
  * `bv8`, so the source's masks and shifts are written as they stand. */
module TextureCommon {
  import opened Ints

  type Byte = bv8

  // ---- Byte reads ----

  /** `read_as_u16`: the first byte is the low byte. */
  function ReadU16(data: seq<Byte>): (r: bv16)
    requires |data| >= 2
    ensures (r & 0xFF) as Byte == data[0] && (r >> 8) as Byte == data[1]
  {
    (data[0] as bv16) | ((data[1] as bv16) << 8)
  }

  /** `read_as_u16_be`: the first byte is the high byte. */
  function ReadU16Be(data: seq<Byte>): (r: bv16)
    requires |data| >= 2
    ensures (r >> 8) as Byte == data[0] && (r & 0xFF) as Byte == data[1]
  {
    (data[1] as bv16) | ((data[0] as bv16) << 8)
  }

  /** `read_as_u24`: three bytes, low byte first, in the low 24 bits of a `u32`. */
  function ReadU24(data: seq<Byte>): (r: bv32)
    requires |data| >= 3
    ensures r >> 24 == 0
    ensures (r & 0xFF) as Byte == data[0] && ((r >> 8) & 0xFF) as Byte == data[1]
    ensures (r >> 16) as Byte == data[2]
  {
    (data[0] as bv32) | ((data[1] as bv32) << 8) | ((data[2] as bv32) << 16)
  }

  /** `read_as_u24_be`: three bytes, high byte first. */
  function ReadU24Be(data: seq<Byte>): (r: bv32)
    requires |data| >= 3
    ensures r >> 24 == 0
    ensures (r >> 16) as Byte == data[0] && ((r >> 8) & 0xFF) as Byte == data[1]
    ensures (r & 0xFF) as Byte == data[2]
  {
    (data[2] as bv32) | ((data[1] as bv32) << 8) | ((data[0] as bv32) << 16)
  }

  /** The big-endian reads are the little-endian reads of the reversed bytes. */
  lemma BigEndianReadsReversed(data: seq<Byte>)
    requires |data| >= 3
    ensures ReadU16Be(data) == ReadU16([data[1], data[0]])
    ensures ReadU24Be(data) == ReadU24([data[2], data[1], data[0]])
  {
  }

  // ---- RGB565 ----

  /** `unpack_rgb565`: red, green and blue from the 5, 6 and 5 bits of `c`; alpha is opaque. */
  function Rgb565(c: bv16): (rgba: seq<Byte>)
    ensures |rgba| == 4 && rgba[3] == 0xFF
  {
    var v := c as bv32;
    [((((v & 0xF800) << 16) | ((v & 0xE000) << 11)) >> 24) as Byte,
     ((((v & 0x07E0) << 13) | ((v & 0x0600) << 7)) >> 16) as Byte,
     ((((v & 0x001F) << 11) | ((v & 0x001C) << 6)) >> 8) as Byte,
     0xFF]
  }

  method UnpackRgb565(c: bv16, rgba: array<Byte>)
    requires rgba.Length == 4
    modifies rgba
    ensures rgba[..] == Rgb565(c)
  {
    var colour := Rgb565(c);
    rgba[0], rgba[1], rgba[2], rgba[3] := colour[0], colour[1], colour[2], colour[3];
    assert rgba[..] == colour;
  }

  /** Each channel is widened by repeating its top bits below it. */
  lemma Rgb565Widens(c: bv16)
    ensures var r5, g6, b5 := (c >> 11) as Byte, ((c >> 5) & 0x3F) as Byte, (c & 0x1F) as Byte;
      Rgb565(c)[0] == (r5 << 3) | (r5 >> 2)
      && Rgb565(c)[1] == (g6 << 2) | (g6 >> 4)
      && Rgb565(c)[2] == (b5 << 3) | (b5 >> 2)
  {
  }

  /** The 5-6-5 packing of a colour's top bits. */
  function Pack565(rgba: seq<Byte>): bv16
    requires |rgba| >= 3
  {
    (((rgba[0] >> 3) as bv16) << 11) | (((rgba[1] >> 2) as bv16) << 5) | ((rgba[2] >> 3) as bv16)
  }

  /** Widening loses nothing: packing the unpacked colour gives `c` back. */
  lemma Rgb565RoundTrip(c: bv16)
    ensures Pack565(Rgb565(c)) == c
  {
  }

  // ---- 3-bit alpha indices ----

  /** `unpack_alpha_indicies_from_bytes`: eight 3-bit fields across three bytes. */
  function AlphaIndices(p0: Byte, p1: Byte, p2: Byte): (ind: seq<Byte>)
    ensures |ind| == 8
  {
    [p0 & 0x07,
     (p0 & 0x38) >> 3,
     ((p0 & 0xC0) >> 6) | ((p1 & 0x01) << 2),
     (p1 & 0x0E) >> 1,
     (p1 & 0x70) >> 4,
     ((p1 & 0x80) >> 7) | ((p2 & 0x03) << 1),
     (p2 & 0x1C) >> 2,
     (p2 & 0xE0) >> 5]
  }

  /** Field `k` is bits 3k..3k+2 of the three bytes read as a 24-bit little-endian value, so each
    * index is below 8. */
  lemma AlphaIndicesFields(p0: Byte, p1: Byte, p2: Byte)
    ensures var v, ind := ReadU24([p0, p1, p2]), AlphaIndices(p0, p1, p2);
      ind[0] == (v & 7) as Byte && ind[1] == ((v >> 3) & 7) as Byte
      && ind[2] == ((v >> 6) & 7) as Byte && ind[3] == ((v >> 9) & 7) as Byte
      && ind[4] == ((v >> 12) & 7) as Byte && ind[5] == ((v >> 15) & 7) as Byte
      && ind[6] == ((v >> 18) & 7) as Byte && ind[7] == ((v >> 21) & 7) as Byte
    ensures forall k :: 0 <= k < 8 ==> AlphaIndices(p0, p1, p2)[k] < 8
  {
  }

  method UnpackAlphaFromBytes(p0: Byte, p1: Byte, p2: Byte, ind: array<Byte>, at: nat)
    requires at + 8 <= ind.Length
    modifies ind
    ensures ind[..] == old(ind[..at]) + AlphaIndices(p0, p1, p2) + old(ind[at + 8..])
  {
    var f := AlphaIndices(p0, p1, p2);
    forall k | 0 <= k < 8 {
      ind[at + k] := f[k];
    }
    assert ind[at..at + 8] == f;
    assert ind[..] == ind[..at] + ind[at..at + 8] + ind[at + 8..];
  }

  /** `unpack_alpha_indicies`: the sixteen indices of a block from six bytes. */
  method UnpackAlphaIndices(packed: seq<Byte>, ind: array<Byte>)
    requires |packed| >= 6 && ind.Length == 16
    modifies ind
    ensures ind[..] == AlphaIndices(packed[0], packed[1], packed[2]) + AlphaIndices(packed[3], packed[4], packed[5])
  {
    UnpackAlphaFromBytes(packed[0], packed[1], packed[2], ind, 0);
    UnpackAlphaFromBytes(packed[3], packed[4], packed[5], ind, 8);
  }

  /** `unpack_alpha_indicies_360`: the Xbox 360 order of the same six bytes. */
  method UnpackAlphaIndices360(packed: seq<Byte>, ind: array<Byte>)
    requires |packed| >= 6 && ind.Length == 16
    modifies ind
    ensures ind[..] == AlphaIndices(packed[1], packed[0], packed[3]) + AlphaIndices(packed[2], packed[5], packed[4])
  {
    UnpackAlphaFromBytes(packed[1], packed[0], packed[3], ind, 0);
    UnpackAlphaFromBytes(packed[2], packed[5], packed[4], ind, 8);
  }

  /** Bytes with each pair of neighbours exchanged, the 16-bit byte order of the Xbox 360. */
  function SwapPairs(s: seq<Byte>): (r: seq<Byte>)
    ensures |r| == |s|
  {
    seq(|s|, i requires 0 <= i < |s| => if i % 2 == 0 then (if i + 1 < |s| then s[i + 1] else s[i]) else s[i - 1])
  }

  /** The Xbox 360 alpha fields are the ordinary fields of the pair-swapped bytes. */
  lemma AlphaIndices360Swapped(packed: seq<Byte>)
    requires |packed| == 6
    ensures var q := SwapPairs(packed);
      AlphaIndices(packed[1], packed[0], packed[3]) + AlphaIndices(packed[2], packed[5], packed[4])
      == AlphaIndices(q[0], q[1], q[2]) + AlphaIndices(q[3], q[4], q[5])
  {
  }

  // ---- 2-bit colour indices ----

  /** The four 2-bit fields of a byte, lowest first. */
  function BitPairs(b: Byte): (g: seq<Byte>)
    ensures |g| == 4
  {
    [b & 0x03, (b & 0x0C) >> 2, (b & 0x30) >> 4, (b & 0xC0) >> 6]
  }

  /** `unpack_indicies`: four indices from each of four bytes. */
  function Indices(packed: seq<Byte>): (ind: seq<Byte>)
    requires |packed| >= 4
    ensures |ind| == 16
  {
    BitPairs(packed[0]) + BitPairs(packed[1]) + BitPairs(packed[2]) + BitPairs(packed[3])
  }

  /** `unpack_indicies_be`: each group of four in the opposite order. */
  function IndicesBe(packed: seq<Byte>): (ind: seq<Byte>)
    requires |packed| >= 4
    ensures |ind| == 16
  {
    Reverse4(BitPairs(packed[0])) + Reverse4(BitPairs(packed[1]))
      + Reverse4(BitPairs(packed[2])) + Reverse4(BitPairs(packed[3]))
  }

  function Reverse4<T>(g: seq<T>): (r: seq<T>)
    requires |g| == 4
    ensures |r| == 4 && forall j :: 0 <= j < 4 ==> r[j] == g[3 - j]
  {
    [g[3], g[2], g[1], g[0]]
  }

  /** Writes the four indices of one byte at `ind[4 * i..]`, in the given order. */
  method WriteIndexGroup(b: Byte, ind: array<Byte>, i: nat, reversed: bool)
    requires 4 * i + 4 <= ind.Length
    modifies ind
    ensures ind[..] == old(ind[..4 * i]) + Group(b, reversed) + old(ind[4 * i + 4..])
  {
    var g := Group(b, reversed);
    ind[4 * i], ind[4 * i + 1], ind[4 * i + 2], ind[4 * i + 3] := g[0], g[1], g[2], g[3];
    assert ind[..] == old(ind[..4 * i]) + g + old(ind[4 * i + 4..]);
  }

  /** The loop shared by the three index unpackers: chunk `i` of `ind` takes byte `order[i]`. */
  method UnpackGroups(packed: seq<Byte>, order: seq<nat>, ind: array<Byte>, reversed: bool)
    requires |order| == 4 && forall i :: 0 <= i < 4 ==> order[i] < |packed|
    requires ind.Length == 16
    modifies ind
    ensures ind[..] == Groups(packed, order, reversed, 4)
  {
    var i := 0;
    while i < 4
      invariant i <= 4
      invariant ind[..4 * i] == Groups(packed, order, reversed, i)
    {
      ghost var before := ind[..];
      WriteIndexGroup(packed[order[i]], ind, i, reversed);
      assert ind[..4 * (i + 1)] == before[..4 * i] + Group(packed[order[i]], reversed);
      i := i + 1;
    }
    assert ind[..] == ind[..16];
  }

  /** The first `n` groups written by `UnpackGroups`. */
  function Groups(packed: seq<Byte>, order: seq<nat>, reversed: bool, n: nat): (r: seq<Byte>)
    requires n <= |order| && forall i :: 0 <= i < |order| ==> order[i] < |packed|
    ensures |r| == 4 * n
  {
    if n == 0 then [] else Groups(packed, order, reversed, n - 1) + Group(packed[order[n - 1]], reversed)
  }

  function Group(b: Byte, reversed: bool): seq<Byte> {
    if reversed then Reverse4(BitPairs(b)) else BitPairs(b)
  }

  /** All four groups, spelled out. */
  lemma GroupsFour(packed: seq<Byte>, order: seq<nat>, reversed: bool)
    requires |order| == 4 && forall i :: 0 <= i < 4 ==> order[i] < |packed|
    ensures Groups(packed, order, reversed, 4)
      == Group(packed[order[0]], reversed) + Group(packed[order[1]], reversed)
        + Group(packed[order[2]], reversed) + Group(packed[order[3]], reversed)
  {
    var g0, g1 := Group(packed[order[0]], reversed), Group(packed[order[1]], reversed);
    var g2, g3 := Group(packed[order[2]], reversed), Group(packed[order[3]], reversed);
    assert Groups(packed, order, reversed, 1) == g0;
    assert Groups(packed, order, reversed, 2) == g0 + g1;
    assert Groups(packed, order, reversed, 3) == g0 + g1 + g2;
  }

  lemma GroupsInOrder(packed: seq<Byte>, reversed: bool)
    requires |packed| >= 4
    ensures Groups(packed, [0, 1, 2, 3], reversed, 4) == if reversed then IndicesBe(packed) else Indices(packed)
  {
    var order: seq<nat> := [0, 1, 2, 3];
    GroupsFour(packed, order, reversed);
  }

  method UnpackIndices(packed: seq<Byte>, ind: array<Byte>)
    requires |packed| >= 4 && ind.Length == 16
    modifies ind
    ensures ind[..] == Indices(packed)
  {
    UnpackGroups(packed, [0, 1, 2, 3], ind, false);
    GroupsInOrder(packed, false);
  }

  method UnpackIndicesBe(packed: seq<Byte>, ind: array<Byte>)
    requires |packed| >= 4 && ind.Length == 16
    modifies ind
    ensures ind[..] == IndicesBe(packed)
  {
    UnpackGroups(packed, [0, 1, 2, 3], ind, true);
    GroupsInOrder(packed, true);
  }

  /** `unpack_indicies_360`: the chunks take bytes 1, 0, 3, 2 (`PROXY_IDX`). */
  method UnpackIndices360(packed: seq<Byte>, ind: array<Byte>)
    requires |packed| >= 4 && ind.Length == 16
    modifies ind
    ensures ind[..] == Indices(SwapPairs(packed[..4]))
  {
    var order: seq<nat> := [1, 0, 3, 2];
    UnpackGroups(packed, order, ind, false);
    GroupsFour(packed, order, false);
    var q := SwapPairs(packed[..4]);
    assert q[0] == packed[1] && q[1] == packed[0] && q[2] == packed[3] && q[3] == packed[2];
  }

  /** Every index is a 2-bit value, and the four fields of a byte pack back into it. */
  lemma BitPairsRepack(b: Byte)
    ensures forall j :: 0 <= j < 4 ==> BitPairs(b)[j] < 4
    ensures var g := BitPairs(b); g[0] | (g[1] << 2) | (g[2] << 4) | (g[3] << 6) == b
  {
  }

  /** The big-endian unpacking reverses each group of four. */
  lemma IndicesBeReversed(packed: seq<Byte>, i: nat, j: nat)
    requires |packed| >= 4 && i < 4 && j < 4
    ensures IndicesBe(packed)[4 * i + j] == Indices(packed)[4 * i + 3 - j]
  {
    var gs := [BitPairs(packed[0]), BitPairs(packed[1]), BitPairs(packed[2]), BitPairs(packed[3])];
    ReversedGroups(gs, i, j);
  }

  lemma ReversedGroups<T>(gs: seq<seq<T>>, i: nat, j: nat)
    requires |gs| == 4 && (forall k :: 0 <= k < 4 ==> |gs[k]| == 4) && i < 4 && j < 4
    ensures (Reverse4(gs[0]) + Reverse4(gs[1]) + Reverse4(gs[2]) + Reverse4(gs[3]))[4 * i + j]
      == (gs[0] + gs[1] + gs[2] + gs[3])[4 * i + 3 - j]
  {
    var rs := [Reverse4(gs[0]), Reverse4(gs[1]), Reverse4(gs[2]), Reverse4(gs[3])];
    ConcatAt(gs, i, 3 - j);
    ConcatAt(rs, i, j);
  }

  /** Element `j` of group `i` of four concatenated groups of four. */
  lemma ConcatAt<T>(gs: seq<seq<T>>, i: nat, j: nat)
    requires |gs| == 4 && (forall k :: 0 <= k < 4 ==> |gs[k]| == 4) && i < 4 && j < 4
    ensures (gs[0] + gs[1] + gs[2] + gs[3])[4 * i + j] == gs[i][j]
  {
  }

  // ---- Colour mixing ----
  // The mixers compute in `u16`, where the sums cannot overflow, so their channels are integers.

  /** One channel of `mix_colors_66_33`: two parts of `a` to one of `b`. */
  function Mix6633Channel(a: U8, b: U8): U8 {
    (a * 2 + b) / 3
  }

  /** `mix_colors_66_33`: the red, green and blue channels mixed, alpha opaque. */
  function Mix6633(c0: seq<U8>, c1: seq<U8>): (m: seq<U8>)
    requires |c0| == 4 && |c1| == 4
    ensures |m| == 4 && m[3] == 0xFF
    ensures forall i :: 0 <= i < 3 ==> m[i] == Mix6633Channel(c0[i], c1[i])
  {
    [Mix6633Channel(c0[0], c1[0]), Mix6633Channel(c0[1], c1[1]), Mix6633Channel(c0[2], c1[2]), 0xFF]
  }

  method MixColors6633(c0: seq<U8>, c1: seq<U8>, mixed: array<U8>)
    requires |c0| == 4 && |c1| == 4 && mixed.Length == 4
    modifies mixed
    ensures mixed[..] == Mix6633(c0, c1)
  {
    var i := 0;
    while i < 3
      invariant i <= 3
      invariant forall j :: 0 <= j < i ==> mixed[j] == Mix6633Channel(c0[j], c1[j])
    {
      mixed[i] := Mix6633Channel(c0[i], c1[i]);
      i := i + 1;
    }
    mixed[3] := 0xFF;
  }

  /** A mixed channel lies between the two inputs, within a third of the way from `a` (rounded
    * down), and mixing a value with itself gives it back. */
  lemma Mix6633ChannelBetween(a: U8, b: U8)
    ensures a <= b ==> a <= Mix6633Channel(a, b) <= b && 3 * (Mix6633Channel(a, b) - a) <= b - a
    ensures b <= a ==> b <= Mix6633Channel(a, b) <= a && 3 * (a - Mix6633Channel(a, b)) <= a - b + 2
    ensures 3 * Mix6633Channel(a, b) <= 2 * a + b < 3 * Mix6633Channel(a, b) + 3
    ensures Mix6633Channel(a, a) == a
  {
  }

  /** One channel of `mix_colors_50_50` as the source computes it: the 66/33 weights. */
  function Mix5050ChannelAsWritten(a: U8, b: U8): U8 {
    (a * 2 + b) / 3
  }

  /** `mix_colors_50_50` as written: every channel, alpha included, with the 66/33 weights. */
  function Mix5050AsWritten(c0: seq<U8>, c1: seq<U8>): (m: seq<U8>)
    requires |c0| == 4 && |c1| == 4
    ensures |m| == 4
    ensures forall i :: 0 <= i < 4 ==> m[i] == Mix5050ChannelAsWritten(c0[i], c1[i])
  {
    seq(4, i requires 0 <= i < 4 => Mix5050ChannelAsWritten(c0[i], c1[i]))
  }

  /** The written mix is not an even mix: black and white give a third, not a half, and the result
    * depends on which colour comes first. */
  lemma Mix5050AsWrittenNotEven()
    ensures Mix5050AsWritten([0, 0, 0, 0], [0xFF, 0xFF, 0xFF, 0xFF])[0] == 0x55
    ensures Mix5050AsWritten([0xFF, 0xFF, 0xFF, 0xFF], [0, 0, 0, 0])[0] == 0xAA
    ensures Mix5050Channel(0, 0xFF) == 0x7F
  {
  }

  /** One channel of the even mix the name `mix_colors_50_50` describes. */
  function Mix5050Channel(a: U8, b: U8): U8 {
    (a + b) / 2
  }

  function Mix5050(c0: seq<U8>, c1: seq<U8>): (m: seq<U8>)
    requires |c0| == 4 && |c1| == 4
    ensures |m| == 4
    ensures forall i :: 0 <= i < 4 ==> m[i] == Mix5050Channel(c0[i], c1[i])
  {
    seq(4, i requires 0 <= i < 4 => Mix5050Channel(c0[i], c1[i]))
  }

  /** `mix_colors_50_50`, corrected: every channel, alpha included, is the even mix. */
  method MixColors5050(c0: seq<U8>, c1: seq<U8>, mixed: array<U8>)
    requires |c0| == 4 && |c1| == 4 && mixed.Length == 4
    modifies mixed
    ensures mixed[..] == Mix5050(c0, c1)
  {
    var i := 0;
    while i < 4
      invariant i <= 4
      invariant forall j :: 0 <= j < i ==> mixed[j] == Mix5050Channel(c0[j], c1[j])
    {
      mixed[i] := Mix5050Channel(c0[i], c1[i]);
      i := i + 1;
    }
  }

  /** The even mix is symmetric and halfway between the inputs, rounded down. */
  lemma Mix5050Even(c0: seq<U8>, c1: seq<U8>)
    requires |c0| == 4 && |c1| == 4
    ensures Mix5050(c0, c1) == Mix5050(c1, c0)
    ensures forall i :: 0 <= i < 4 && c0[i] <= c1[i] ==>
      c0[i] <= Mix5050(c0, c1)[i] <= c1[i]
      && 2 * (Mix5050(c0, c1)[i] - c0[i]) <= c1[i] - c0[i] <= 2 * (Mix5050(c0, c1)[i] - c0[i]) + 1
  {
  }

  /** `zero_out`: every byte of the colour becomes 0. */
  method ZeroOut(colour: array<Byte>)
    modifies colour
    ensures forall i :: 0 <= i < colour.Length ==> colour[i] == 0
  {
    var i := 0;
    while i < colour.Length
      invariant i <= colour.Length
      invariant forall j :: 0 <= j < i ==> colour[j] == 0
    {
      colour[i] := 0;
      i := i + 1;
    }
  }

  // ---- Writes of a decoded 4x4 block ----

  /** `linear_offset`: the first byte of pixel (x, y) in rows of `w` four-byte pixels. */
  function LinearOffset(x: nat, y: nat, w: nat): nat {
    RowStart(y, w * 4) + x * 4
  }

  /** The first byte of row `y` in rows of `rowBytes` bytes: `y * rowBytes`, written as a sum of
    * rows so that the offsets of neighbouring rows are related without multiplication. */
  function RowStart(y: nat, rowBytes: nat): nat
    decreases y
  {
    if y == 0 then 0 else RowStart(y - 1, rowBytes) + rowBytes
  }

  /** The sum of rows is the product of the source. */
  lemma {:induction false} RowStartIsProduct(y: nat, rowBytes: nat)
    ensures RowStart(y, rowBytes) == y * rowBytes
  {
    if y > 0 {
      RowStartIsProduct(y - 1, rowBytes);
      assert y * rowBytes == (y - 1) * rowBytes + rowBytes;
    }
  }

  /** A later row starts no earlier. */
  lemma {:induction false} RowStartMono(y1: nat, y2: nat, rowBytes: nat)
    requires y1 <= y2
    ensures RowStart(y1, rowBytes) <= RowStart(y2, rowBytes)
    decreases y2
  {
    if y1 < y2 {
      RowStartMono(y1, y2 - 1, rowBytes);
    }
  }

  /** Distinct pixels of a row of `w` have byte ranges four apart. */
  lemma LinearOffsetApart(x1: nat, y1: nat, x2: nat, y2: nat, w: nat)
    requires x1 < w && x2 < w && (x1, y1) != (x2, y2)
    ensures LinearOffset(x1, y1, w) + 4 <= LinearOffset(x2, y2, w) || LinearOffset(x2, y2, w) + 4 <= LinearOffset(x1, y1, w)
  {
    if y1 < y2 {
      RowsApart(x1, y1, x2, y2, w);
    } else if y2 < y1 {
      RowsApart(x2, y2, x1, y1, w);
    }
  }

  /** A pixel of a row ends before the next row starts. */
  lemma RowsApart(x1: nat, y1: nat, x2: nat, y2: nat, w: nat)
    requires x1 < w && y1 < y2
    ensures LinearOffset(x1, y1, w) + 4 <= LinearOffset(x2, y2, w)
  {
    RowStartMono(y1 + 1, y2, w * 4);
    assert RowStart(y1 + 1, w * 4) == RowStart(y1, w * 4) + w * 4;
  }

  /** Pixel `k` of the block at (x, y), walked row by row as `indicies.chunks(4)` does. */
  function PixelOffset(x: nat, y: nat, w: nat, k: nat): nat {
    LinearOffset(x + k % 4, y + k / 4, w)
  }

  /** `vals[k]` written over `buf` at byte `at`. */
  function Put<T>(buf: seq<T>, at: nat, vals: seq<T>): (r: seq<T>)
    requires at + |vals| <= |buf|
    ensures |r| == |buf|
  {
    buf[..at] + vals + buf[at + |vals|..]
  }

  /** Byte `i` of the written values lands at `at + i`. */
  lemma PutAt<T>(buf: seq<T>, at: nat, vals: seq<T>, i: nat)
    requires at + |vals| <= |buf| && i < |vals|
    ensures Put(buf, at, vals)[at + i] == vals[i]
  {
  }

  /** A byte outside the written range keeps its value. */
  lemma PutKeeps<T>(buf: seq<T>, at: nat, vals: seq<T>, p: nat)
    requires at + |vals| <= |buf| && p < |buf| && !(at <= p < at + |vals|)
    ensures Put(buf, at, vals)[p] == buf[p]
  {
  }

  /** Every write of the block lies within the buffer. */
  predicate BlockFits<T>(len: nat, x: nat, y: nat, w: nat, start: nat, vals: seq<seq<T>>) {
    |vals| == 16 && forall k :: 0 <= k < 16 ==> PixelOffset(x, y, w, k) + start + |vals[k]| <= len
  }

  /** The first `k` writes of a block, in order: pixel `j` gets `vals[j]` at byte `start` of the
    * pixel. */
  function BlockWrites<T>(buf: seq<T>, x: nat, y: nat, w: nat, start: nat, vals: seq<seq<T>>, k: nat): (r: seq<T>)
    requires BlockFits(|buf|, x, y, w, start, vals) && k <= 16
    ensures |r| == |buf|
  {
    if k == 0 then buf
    else Put(BlockWrites(buf, x, y, w, start, vals, k - 1), PixelOffset(x, y, w, k - 1) + start, vals[k - 1])
  }

  /** The last pixel of the block holds its furthest bytes. */
  lemma FitsByLastPixel<T>(len: nat, x: nat, y: nat, w: nat, start: nat, vals: seq<seq<T>>, n: nat)
    requires |vals| == 16 && forall k :: 0 <= k < 16 ==> |vals[k]| == n
    requires LinearOffset(x + 3, y + 3, w) + start + n <= len
    ensures BlockFits(len, x, y, w, start, vals)
  {
    forall k | 0 <= k < 16
      ensures PixelOffset(x, y, w, k) + start + |vals[k]| <= len
    {
      RowStartMono(y + k / 4, y + 3, w * 4);
    }
  }

  method PutBytes<T>(a: array<T>, at: nat, vals: seq<T>)
    requires at + |vals| <= a.Length
    modifies a
    ensures a[..] == Put(old(a[..]), at, vals)
  {
    var i := 0;
    while i < |vals|
      invariant i <= |vals|
      invariant a[..] == old(a[..])[..at] + vals[..i] + old(a[..])[at + i..]
    {
      a[at + i] := vals[i];
      assert vals[..i + 1] == vals[..i] + [vals[i]];
      i := i + 1;
    }
  }

  /** The loops shared by `copy_unpacked_pixels`, `copy_unpacked_channels` and
    * `set_channels_value`: rows of the block, then pixels of the row. */
  method WriteBlock<T>(a: array<T>, x: nat, y: nat, w: nat, start: nat, vals: seq<seq<T>>)
    requires BlockFits(a.Length, x, y, w, start, vals)
    modifies a
    ensures a[..] == BlockWrites(old(a[..]), x, y, w, start, vals, 16)
  {
    ghost var original := a[..];
    var yi := 0;
    while yi < 4
      invariant yi <= 4
      invariant a[..] == BlockWrites(original, x, y, w, start, vals, 4 * yi)
    {
      WriteRow(a, x, y, w, start, vals, yi, original);
      yi := yi + 1;
    }
  }

  /** The inner loop of the block writes: the four pixels of row `yi`. */
  method WriteRow<T>(a: array<T>, x: nat, y: nat, w: nat, start: nat, vals: seq<seq<T>>, yi: nat,
                     ghost original: seq<T>)
    requires yi < 4 && |original| == a.Length && BlockFits(a.Length, x, y, w, start, vals)
    requires a[..] == BlockWrites(original, x, y, w, start, vals, 4 * yi)
    modifies a
    ensures a[..] == BlockWrites(original, x, y, w, start, vals, 4 * yi + 4)
  {
    var xi := 0;
    while xi < 4
      invariant xi <= 4
      invariant a[..] == BlockWrites(original, x, y, w, start, vals, 4 * yi + xi)
    {
      var k := 4 * yi + xi;
      BlockPixel(x, y, w, xi, yi);
      PutBytes(a, LinearOffset(x + xi, y + yi, w) + start, vals[k]);
      BlockWritesStep(original, x, y, w, start, vals, k);
      xi := xi + 1;
    }
  }

  /** Pixel `4 * yi + xi` of the block is at column `xi` of row `yi`. */
  lemma BlockPixel(x: nat, y: nat, w: nat, xi: nat, yi: nat)
    requires xi < 4 && yi < 4
    ensures PixelOffset(x, y, w, 4 * yi + xi) == LinearOffset(x + xi, y + yi, w)
  {
    var k := 4 * yi + xi;
    assert k % 4 == xi && k / 4 == yi;
  }

  lemma BlockWritesStep<T>(buf: seq<T>, x: nat, y: nat, w: nat, start: nat, vals: seq<seq<T>>, k: nat)
    requires BlockFits(|buf|, x, y, w, start, vals) && k < 16
    ensures BlockWrites(buf, x, y, w, start, vals, k + 1)
      == Put(BlockWrites(buf, x, y, w, start, vals, k), PixelOffset(x, y, w, k) + start, vals[k])
  {
  }

  /** The colours of the block's pixels, looked up by their indices. */
  function PixelColours(colours: seq<seq<Byte>>, ind: seq<Byte>): (vals: seq<seq<Byte>>)
    requires |ind| == 16 && forall k :: 0 <= k < 16 ==> (ind[k] as int) < |colours|
    ensures |vals| == 16 && forall k :: 0 <= k < 16 ==> vals[k] == colours[ind[k]]
  {
    seq(16, k requires 0 <= k < 16 => colours[ind[k]])
  }

  /** `copy_unpacked_pixels`: pixel `k` of the block gets colour `ind[k]`. */
  method CopyUnpackedPixels(rgba: array<Byte>, colours: seq<seq<Byte>>, ind: seq<Byte>, x: U32, y: U32, width: U32)
    requires |colours| == 4 && forall c :: 0 <= c < 4 ==> |colours[c]| == 4
    requires |ind| == 16 && forall k :: 0 <= k < 16 ==> ind[k] < 4
    requires LinearOffset(x + 3, y + 3, width) + 4 <= rgba.Length
    modifies rgba
    ensures BlockFits(rgba.Length, x, y, width, 0, PixelColours(colours, ind))
    ensures rgba[..] == BlockWrites(old(rgba[..]), x, y, width, 0, PixelColours(colours, ind), 16)
  {
    var vals := PixelColours(colours, ind);
    FitsByLastPixel(rgba.Length, x, y, width, 0, vals, 4);
    WriteBlock(rgba, x, y, width, 0, vals);
  }

  /** The one-byte writes of a channel: pixel `k` gets `channels[ind[k]]`. */
  function ChannelValues(channels: seq<Byte>, ind: seq<Byte>): (vals: seq<seq<Byte>>)
    requires |ind| == 16 && forall k :: 0 <= k < 16 ==> (ind[k] as int) < |channels|
    ensures |vals| == 16 && forall k :: 0 <= k < 16 ==> vals[k] == [channels[ind[k]]]
  {
    seq(16, k requires 0 <= k < 16 => [channels[ind[k]]])
  }

  /** `copy_unpacked_channels`: byte `i` of pixel `k` gets `channels[ind[k]]`. */
  method CopyUnpackedChannels(rgba: array<Byte>, channels: seq<Byte>, ind: seq<Byte>, x: U32, y: U32, width: U32, i: nat)
    requires |channels| == 8
    requires |ind| == 16 && forall k :: 0 <= k < 16 ==> ind[k] < 8
    requires LinearOffset(x + 3, y + 3, width) + i + 1 <= rgba.Length
    modifies rgba
    ensures BlockFits(rgba.Length, x, y, width, i, ChannelValues(channels, ind))
    ensures rgba[..] == BlockWrites(old(rgba[..]), x, y, width, i, ChannelValues(channels, ind), 16)
  {
    var vals := ChannelValues(channels, ind);
    FitsByLastPixel(rgba.Length, x, y, width, i, vals, 1);
    WriteBlock(rgba, x, y, width, i, vals);
  }

  /** `copy_unpacked_alphas`: the channel writes into the alpha byte. */
  method CopyUnpackedAlphas(rgba: array<Byte>, alphas: seq<Byte>, ind: seq<Byte>, x: U32, y: U32, width: U32)
    requires |alphas| == 8
    requires |ind| == 16 && forall k :: 0 <= k < 16 ==> ind[k] < 8
    requires LinearOffset(x + 3, y + 3, width) + 4 <= rgba.Length
    modifies rgba
    ensures BlockFits(rgba.Length, x, y, width, 3, ChannelValues(alphas, ind))
    ensures rgba[..] == BlockWrites(old(rgba[..]), x, y, width, 3, ChannelValues(alphas, ind), 16)
  {
    CopyUnpackedChannels(rgba, alphas, ind, x, y, width, 3);
  }

  function ConstantValues(value: Byte): (vals: seq<seq<Byte>>)
    ensures |vals| == 16 && forall k :: 0 <= k < 16 ==> vals[k] == [value]
  {
    seq(16, k requires 0 <= k < 16 => [value])
  }

  /** `set_channels_value`: byte `i` of every pixel of the block becomes `value`. */
  method SetChannelsValue(rgba: array<Byte>, x: U32, y: U32, width: U32, i: nat, value: Byte)
    requires LinearOffset(x + 3, y + 3, width) + i + 1 <= rgba.Length
    modifies rgba
    ensures BlockFits(rgba.Length, x, y, width, i, ConstantValues(value))
    ensures rgba[..] == BlockWrites(old(rgba[..]), x, y, width, i, ConstantValues(value), 16)
  {
    var vals := ConstantValues(value);
    FitsByLastPixel(rgba.Length, x, y, width, i, vals, 1);
    WriteBlock(rgba, x, y, width, i, vals);
  }

  /** Byte `p` is among the first `m` writes of the block. */
  predicate WrittenBy(p: nat, x: nat, y: nat, w: nat, start: nat, n: nat, m: nat) {
    exists k :: 0 <= k < m && PixelOffset(x, y, w, k) + start <= p < PixelOffset(x, y, w, k) + start + n
  }

  /** When the block lies within its rows (`x + 4 <= w`), its writes do not overlap: every pixel
    * ends up with its own values, and every byte outside the block keeps its value. */
  lemma BlockWritesContents<T>(buf: seq<T>, x: nat, y: nat, w: nat, start: nat, vals: seq<seq<T>>, n: nat)
    requires x + 4 <= w && start + n <= 4
    requires BlockFits(|buf|, x, y, w, start, vals) && forall k :: 0 <= k < 16 ==> |vals[k]| == n
    ensures forall k, c :: 0 <= k < 16 && 0 <= c < n ==>
      BlockWrites(buf, x, y, w, start, vals, 16)[PixelOffset(x, y, w, k) + start + c] == vals[k][c]
    ensures forall p :: 0 <= p < |buf| && !WrittenBy(p, x, y, w, start, n, 16) ==>
      BlockWrites(buf, x, y, w, start, vals, 16)[p] == buf[p]
  {
    BlockWritesPrefix(buf, x, y, w, start, vals, n, 16);
  }

  lemma {:induction false} BlockWritesPrefix<T>(buf: seq<T>, x: nat, y: nat, w: nat, start: nat, vals: seq<seq<T>>, n: nat, m: nat)
    requires x + 4 <= w && start + n <= 4 && m <= 16
    requires BlockFits(|buf|, x, y, w, start, vals) && forall k :: 0 <= k < 16 ==> |vals[k]| == n
    ensures forall k, c :: 0 <= k < m && 0 <= c < n ==>
      BlockWrites(buf, x, y, w, start, vals, m)[PixelOffset(x, y, w, k) + start + c] == vals[k][c]
    ensures forall p :: 0 <= p < |buf| && !WrittenBy(p, x, y, w, start, n, m) ==>
      BlockWrites(buf, x, y, w, start, vals, m)[p] == buf[p]
  {
    if m > 0 {
      BlockWritesPrefix(buf, x, y, w, start, vals, n, m - 1);
      var prev := BlockWrites(buf, x, y, w, start, vals, m - 1);
      var at := PixelOffset(x, y, w, m - 1) + start;
      var r := BlockWrites(buf, x, y, w, start, vals, m);
      assert r == Put(prev, at, vals[m - 1]);
      forall k, c | 0 <= k < m && 0 <= c < n
        ensures r[PixelOffset(x, y, w, k) + start + c] == vals[k][c]
      {
        var q := PixelOffset(x, y, w, k) + start + c;
        if k < m - 1 {
          assert prev[q] == vals[k][c];
          PixelsApart(x, y, w, k, m - 1);
          PutKeeps(prev, at, vals[m - 1], q);
        } else {
          PutAt(prev, at, vals[m - 1], c);
        }
      }
      forall p | 0 <= p < |buf| && !WrittenBy(p, x, y, w, start, n, m)
        ensures r[p] == buf[p]
      {
        assert !(at <= p < at + n);
        assert !WrittenBy(p, x, y, w, start, n, m - 1);
        PutKeeps(prev, at, vals[m - 1], p);
      }
    }
  }

  lemma PixelsApart(x: nat, y: nat, w: nat, j: nat, k: nat)
    requires x + 4 <= w && j < 16 && k < 16 && j != k
    ensures PixelOffset(x, y, w, j) + 4 <= PixelOffset(x, y, w, k) || PixelOffset(x, y, w, k) + 4 <= PixelOffset(x, y, w, j)
  {
    LinearOffsetApart(x + j % 4, y + j / 4, x + k % 4, y + k / 4, w);
  }

  // ---- Byte swapping ----

  /** Bytes after `swap_image_bytes`: in every full 8-byte chunk each pair of neighbours is
    * exchanged; a shorter tail stays as it is. */
  function SwappedImage(s: seq<Byte>): (r: seq<Byte>)
    ensures |r| == |s|
  {
    seq(|s|, i requires 0 <= i < |s| =>
      if i < |s| - |s| % 8 then (if i % 2 == 0 then s[i + 1] else s[i - 1]) else s[i])
  }

  /** `swap_image_bytes`, over the chunks in order. */
  method SwapImageBytes(data: array<Byte>)
    modifies data
    ensures data[..] == SwappedImage(old(data[..]))
  {
    ghost var original := data[..];
    ghost var swapped := SwappedImage(original);
    var full := data.Length - data.Length % 8;
    var b := 0;
    while b < full
      invariant b <= full && b % 8 == 0
      invariant forall i :: 0 <= i < b ==> data[i] == swapped[i]
      invariant forall i :: b <= i < data.Length ==> data[i] == original[i]
    {
      ChunkBounds(b, data.Length);
      SwapChunk(data, b);
      SwappedChunk(original, b);
      forall i | 0 <= i < b + 8
        ensures data[i] == swapped[i]
      {
        if i >= b {
          assert i == b || i == b + 1 || i == b + 2 || i == b + 3 || i == b + 4 || i == b + 5 || i == b + 6 || i == b + 7;
        }
      }
      b := b + 8;
    }
    assert data[..] == swapped;
  }

  /** The next chunk of a full-chunk prefix is whole and starts on a chunk boundary. */
  lemma ChunkBounds(b: nat, len: nat)
    requires b % 8 == 0 && b < len - len % 8
    ensures b + 8 <= len - len % 8 && (b + 8) % 8 == 0
  {
  }

  /** What `SwappedImage` holds over the full chunk that starts at `b`. */
  lemma SwappedChunk(s: seq<Byte>, b: nat)
    requires b % 8 == 0 && b + 8 <= |s| - |s| % 8
    ensures SwappedImage(s)[b] == s[b + 1] && SwappedImage(s)[b + 1] == s[b]
    ensures SwappedImage(s)[b + 2] == s[b + 3] && SwappedImage(s)[b + 3] == s[b + 2]
    ensures SwappedImage(s)[b + 4] == s[b + 5] && SwappedImage(s)[b + 5] == s[b + 4]
    ensures SwappedImage(s)[b + 6] == s[b + 7] && SwappedImage(s)[b + 7] == s[b + 6]
  {
    var full := |s| - |s| % 8;
    ChunkParity(b);
    assert b + 7 < full;
  }

  lemma ChunkParity(b: nat)
    requires b % 8 == 0
    ensures b % 2 == 0 && (b + 1) % 2 == 1 && (b + 2) % 2 == 0 && (b + 3) % 2 == 1
    ensures (b + 4) % 2 == 0 && (b + 5) % 2 == 1 && (b + 6) % 2 == 0 && (b + 7) % 2 == 1
  {
    var h := b / 8;
    assert b == 8 * h;
    EvenOdd(4 * h);
    EvenOdd(4 * h + 1);
    EvenOdd(4 * h + 2);
    EvenOdd(4 * h + 3);
  }

  lemma EvenOdd(m: nat)
    ensures (2 * m) % 2 == 0 && (2 * m + 1) % 2 == 1
  {
  }

  /** The four swaps of one 8-byte chunk. */
  method SwapChunk(data: array<Byte>, b: nat)
    requires b + 8 <= data.Length
    modifies data
    ensures data[b] == old(data[b + 1]) && data[b + 1] == old(data[b])
    ensures data[b + 2] == old(data[b + 3]) && data[b + 3] == old(data[b + 2])
    ensures data[b + 4] == old(data[b + 5]) && data[b + 5] == old(data[b + 4])
    ensures data[b + 6] == old(data[b + 7]) && data[b + 7] == old(data[b + 6])
    ensures forall i :: 0 <= i < data.Length && !(b <= i < b + 8) ==> data[i] == old(data[i])
  {
    var tmp := data[b];
    data[b] := data[b + 1];
    data[b + 1] := tmp;
    tmp := data[b + 2];
    data[b + 2] := data[b + 3];
    data[b + 3] := tmp;
    tmp := data[b + 4];
    data[b + 4] := data[b + 5];
    data[b + 5] := tmp;
    tmp := data[b + 6];
    data[b + 6] := data[b + 7];
    data[b + 7] := tmp;
  }

  /** Swapping twice gives the bytes back. */
  lemma SwappedImageTwice(s: seq<Byte>)
    ensures SwappedImage(SwappedImage(s)) == s
  {
  }

  /** On a whole number of chunks the swap is the pair swap of the Xbox 360 byte order. */
  lemma SwappedImageIsPairSwap(s: seq<Byte>)
    requires |s| % 8 == 0
    ensures SwappedImage(s) == SwapPairs(s)
  {
  }
}
