/** Bitmap textures (core/grim/src/texture/io.rs): the size of the RGBA buffer a bitmap with
  * mip maps unpacks into, the choice of decoder per platform and encoding, the PS2 palette
  * decoder for 4 and 8 bits per pixel, and the 7-bit/8-bit alpha conversion of palettes. */
module TextureIo {
  import opened Wrappers
  import opened Ints
  import opened System
  import opened TextureCommon

  /** `Bitmap`: a texture header and its encoded bytes. */
  datatype Bitmap = Bitmap(
    bpp: U8, encoding: U32, mipMaps: U8,
    width: U16, height: U16, bpl: U16,
    rawData: seq<Byte>)

  datatype BitmapError =
    | UnsupportedEncoding(version: U32)
    | UnsupportedBitmapBpp(bpp: U8)
    | UnsupportedResolution(width: U16, height: U16)

  // ---- RGBA buffer size ----

  /** Bytes of RGBA for a `w` x `h` image and `mips` further levels, each halving the previous
    * level's width and height (rounding down). */
  function RgbaSize(w: nat, h: nat, mips: nat): nat
    decreases mips
  {
    LevelSize(w, h) + (if mips == 0 then 0 else RgbaSize(w / 2, h / 2, mips - 1))
  }

  /** Bytes of RGBA for one `w` x `h` level. */
  function LevelSize(w: nat, h: nat): nat {
    w * h * 4
  }

  /** Encoded bytes of one `w` x `h` level at `bpp` bits per pixel. */
  function EncodedSize(w: nat, h: nat, bpp: nat): nat {
    w * h * bpp / 8
  }

  /** `calc_rgba_size`. */
  method CalcRgbaSize(w: U16, h: U16, mips: U8) returns (size: nat)
    ensures size == RgbaSize(w, h, mips)
  {
    size := 0;
    var cw: nat, ch: nat, m: nat := w, h, mips;
    while true
      invariant size + RgbaSize(cw, ch, m) == RgbaSize(w, h, mips)
      decreases m
    {
      size := size + cw * ch * 4;
      assert cw * ch * 4 == LevelSize(cw, ch);
      if m == 0 {
        break;
      }
      cw, ch, m := cw / 2, ch / 2, m - 1;
    }
  }

  /** The sizes the source's tests expect. */
  lemma RgbaSizeExamples()
    ensures RgbaSize(64, 64, 0) == 16384
    ensures RgbaSize(64, 64, 2) == 21504
    ensures RgbaSize(256, 256, 4) == 349184
    ensures RgbaSize(4096, 4096, 0) == 67108864
  {
  }

  /** The mip levels add at most a third to the base level, which the buffer always holds. */
  lemma {:induction false} RgbaSizeBounds(w: nat, h: nat, mips: nat)
    ensures w * h * 4 <= RgbaSize(w, h, mips)
    ensures 3 * RgbaSize(w, h, mips) <= 16 * (w * h)
    decreases mips
  {
    if mips > 0 {
      RgbaSizeBounds(w / 2, h / 2, mips - 1);
      HalvesQuarter(w, h);
    }
  }

  lemma HalvesQuarter(w: nat, h: nat)
    ensures 4 * ((w / 2) * (h / 2)) <= w * h
  {
    var a, b := w / 2, h / 2;
    assert 2 * a <= w && 2 * b <= h;
    MulMono(2 * a, w, 2 * b, h);
    assert (2 * a) * (2 * b) == 4 * (a * b);
  }

  lemma MulMono(a: nat, b: nat, c: nat, d: nat)
    requires a <= b && c <= d
    ensures a * c <= b * d
  {
    assert a * c <= b * c;
    assert b * c <= b * d;
  }

  // ---- Mip levels of the next-generation decoders ----

  /** One level of a DXT or TPL texture: where its encoded bytes start and how many there are,
    * and where its RGBA bytes start and how many there are. */
  datatype MipSlice = MipSlice(srcStart: nat, srcSize: nat, rgbaStart: nat, rgbaSize: nat)

  /** The slices the decode loop of `unpack_rgba` walks: level `k` follows level `k - 1` in
    * both buffers, with half its width and height. */
  function MipPlan(w: nat, h: nat, bpp: nat, mips: nat, src: nat, rgba: nat): (plan: seq<MipSlice>)
    decreases mips
  {
    [MipSlice(src, EncodedSize(w, h, bpp), rgba, LevelSize(w, h))]
      + (if mips == 0 then []
         else MipPlan(w / 2, h / 2, bpp, mips - 1, src + EncodedSize(w, h, bpp), rgba + LevelSize(w, h)))
  }

  /** The slice walk of `unpack_rgba` for the DXT and TPL encodings, without the decoding of
    * each slice. */
  method MipSlices(w: U16, h: U16, bpp: U8, mips: U8) returns (slices: seq<MipSlice>)
    ensures slices == MipPlan(w, h, bpp, mips, 0, 0)
  {
    slices := [];
    var cw: nat, ch: nat, m: nat := w, h, mips;
    var startSrc: nat, startRgba: nat := 0, 0;
    ghost var target := MipPlan(w, h, bpp, mips, 0, 0);
    assert slices + MipPlan(cw, ch, bpp, m, startSrc, startRgba) == target;
    while true
      invariant slices + MipPlan(cw, ch, bpp, m, startSrc, startRgba) == target
      decreases m
    {
      var level := Level(cw, ch, bpp, startSrc, startRgba);
      PlanStep(slices, target, cw, ch, bpp, m, startSrc, startRgba);
      slices := slices + [level];
      if m == 0 {
        break;
      }
      cw, ch, m, startSrc, startRgba := cw / 2, ch / 2, m - 1, startSrc + level.srcSize, startRgba + level.rgbaSize;
    }
  }

  /** One level of the walk: its sizes in both buffers at the current width and height. */
  method Level(w: nat, h: nat, bpp: nat, src: nat, rgba: nat) returns (level: MipSlice)
    ensures level == MipSlice(src, EncodedSize(w, h, bpp), rgba, LevelSize(w, h))
  {
    var srcSize := w * h * bpp / 8;
    var rgbaSize := w * h * 4;
    level := MipSlice(src, srcSize, rgba, rgbaSize);
  }

  /** The walk after `done`: the next level is moved from the plan to the walked slices. */
  lemma PlanStep(done: seq<MipSlice>, target: seq<MipSlice>, w: nat, h: nat, bpp: nat, mips: nat, src: nat, rgba: nat)
    requires done + MipPlan(w, h, bpp, mips, src, rgba) == target
    ensures mips == 0 ==> done + [MipSlice(src, EncodedSize(w, h, bpp), rgba, LevelSize(w, h))] == target
    ensures mips > 0 ==>
      (done + [MipSlice(src, EncodedSize(w, h, bpp), rgba, LevelSize(w, h))])
        + MipPlan(w / 2, h / 2, bpp, mips - 1, src + EncodedSize(w, h, bpp), rgba + LevelSize(w, h))
      == target
  {
    MipPlanNext(w, h, bpp, mips, src, rgba);
  }

  /** One level of the plan, then the rest. */
  lemma MipPlanNext(w: nat, h: nat, bpp: nat, mips: nat, src: nat, rgba: nat)
    ensures var first := MipSlice(src, EncodedSize(w, h, bpp), rgba, LevelSize(w, h));
      && (mips == 0 ==> MipPlan(w, h, bpp, mips, src, rgba) == [first])
      && (mips > 0 ==>
            MipPlan(w, h, bpp, mips, src, rgba) == [first] + MipPlan(w / 2, h / 2, bpp, mips - 1,
              src + EncodedSize(w, h, bpp), rgba + LevelSize(w, h)))
  {
  }

  /** Each slice starts where the one before it ends, in both buffers. */
  predicate Contiguous(plan: seq<MipSlice>) {
    forall k :: 0 <= k < |plan| - 1 ==>
      plan[k + 1].srcStart == plan[k].srcStart + plan[k].srcSize
      && plan[k + 1].rgbaStart == plan[k].rgbaStart + plan[k].rgbaSize
  }

  lemma ContiguousCons(first: MipSlice, rest: seq<MipSlice>)
    requires rest != [] && Contiguous(rest)
    requires rest[0].srcStart == first.srcStart + first.srcSize
    requires rest[0].rgbaStart == first.rgbaStart + first.rgbaSize
    ensures Contiguous([first] + rest)
  {
    var plan := [first] + rest;
    forall k | 0 <= k < |plan| - 1
      ensures plan[k + 1].srcStart == plan[k].srcStart + plan[k].srcSize
      ensures plan[k + 1].rgbaStart == plan[k].rgbaStart + plan[k].rgbaSize
    {
      assert plan[k + 1] == rest[k];
      if k > 0 {
        assert plan[k] == rest[k - 1];
      }
    }
  }

  /** The levels are contiguous in both buffers, one per mip level plus the base, and the RGBA
    * slices exactly fill a buffer of `RgbaSize` bytes. */
  lemma {:induction false} MipPlanTiles(w: nat, h: nat, bpp: nat, mips: nat, src: nat, rgba: nat)
    ensures |MipPlan(w, h, bpp, mips, src, rgba)| == mips + 1
    ensures Contiguous(MipPlan(w, h, bpp, mips, src, rgba))
    ensures MipPlan(w, h, bpp, mips, src, rgba)[0].srcStart == src
    ensures MipPlan(w, h, bpp, mips, src, rgba)[0].rgbaStart == rgba
    ensures MipPlan(w, h, bpp, mips, src, rgba)[mips].rgbaStart + MipPlan(w, h, bpp, mips, src, rgba)[mips].rgbaSize
      == rgba + RgbaSize(w, h, mips)
    decreases mips
  {
    MipPlanNext(w, h, bpp, mips, src, rgba);
    if mips > 0 {
      var plan := MipPlan(w, h, bpp, mips, src, rgba);
      var src', rgba' := src + EncodedSize(w, h, bpp), rgba + LevelSize(w, h);
      var rest := MipPlan(w / 2, h / 2, bpp, mips - 1, src', rgba');
      MipPlanTiles(w / 2, h / 2, bpp, mips - 1, src', rgba');
      assert plan == [plan[0]] + rest;
      ContiguousCons(plan[0], rest);
      assert plan[mips] == rest[mips - 1];
    }
  }

  // ---- Decoder choice ----

  datatype DxEncoding = Bc1 | Bc3 | Bc5
  datatype TplEncoding = Cmp | CmpAlpha

  /** The decoder `unpack_rgba` hands the bitmap to. */
  datatype Decoder = Ps2Palette | Dx(dxEncoding: DxEncoding, is360: bool) | Tpl(tplEncoding: TplEncoding)

  /** The guards of `unpack_rgba`: the error it returns, or the decoder it uses. */
  function UnpackDecoder(bitmap: Bitmap, info: SystemInfo): (r: Result<Decoder, BitmapError>)
    ensures r == Err(UnsupportedResolution(bitmap.width, bitmap.height))
      <==> bitmap.width == 0 || bitmap.height == 0
    ensures r == Ok(Ps2Palette)
      <==> bitmap.width > 0 && bitmap.height > 0 && info.platform == PS2 && bitmap.encoding == 3
    ensures r.Ok? && r.value.Dx? <==>
      bitmap.width > 0 && bitmap.height > 0 && IsNextGen(info) && bitmap.encoding in {8, 24, 32}
    ensures r.Ok? && r.value.Dx? ==> r.value.is360 == (info.platform == X360)
    ensures r.Ok? && r.value.Tpl? <==>
      bitmap.width > 0 && bitmap.height > 0 && info.platform == Wii && bitmap.encoding in {72, 328}
    ensures r.Err? && !r.error.UnsupportedResolution? ==> r == Err(UnsupportedEncoding(bitmap.encoding))
  {
    if bitmap.width == 0 || bitmap.height == 0 then
      Err(UnsupportedResolution(bitmap.width, bitmap.height))
    else if info.platform == PS2 && bitmap.encoding == 3 then
      Ok(Ps2Palette)
    else if info.platform == PS3 || info.platform == X360 then
      if bitmap.encoding == 8 then Ok(Dx(Bc1, info.platform == X360))
      else if bitmap.encoding == 24 then Ok(Dx(Bc3, info.platform == X360))
      else if bitmap.encoding == 32 then Ok(Dx(Bc5, info.platform == X360))
      else Err(UnsupportedEncoding(bitmap.encoding))
    else if info.platform == Wii then
      if bitmap.encoding == 72 then Ok(Tpl(Cmp))
      else if bitmap.encoding == 328 then Ok(Tpl(CmpAlpha))
      else Err(UnsupportedEncoding(bitmap.encoding))
    else
      Err(UnsupportedEncoding(bitmap.encoding))
  }

  // ---- Alpha conversion ----

  /** 7-bit alpha to 8-bit: 0x80 and above saturate to 0xFF, the rest double. */
  function ExpandAlpha(a: Byte): Byte {
    if a >= 0x80 then 0xFF else (a & 0x7F) << 1
  }

  /** 8-bit alpha to 7-bit: 0xFF becomes 0x80, the rest halve. */
  function ReduceAlpha(a: Byte): Byte {
    if a == 0xFF then 0x80 else a >> 1
  }

  /** The bytes after `update_alpha_channels`: every fourth byte, from index 3, converted. */
  function AlphaUpdated(s: seq<Byte>, reduce: bool): (r: seq<Byte>)
    ensures |r| == |s|
  {
    seq(|s|, i requires 0 <= i < |s| =>
      if i % 4 == 3 then (if reduce then ReduceAlpha(s[i]) else ExpandAlpha(s[i])) else s[i])
  }

  /** `update_alpha_channels`, in place. */
  method UpdateAlphaChannels(data: array<Byte>, reduce: bool)
    modifies data
    ensures data[..] == AlphaUpdated(old(data[..]), reduce)
  {
    ghost var original := data[..];
    ghost var updated := AlphaUpdated(original, reduce);
    var p := 0;
    while 4 * p + 3 < data.Length
      invariant 4 * p <= data.Length
      invariant forall j :: 0 <= j < data.Length ==> data[j] == if j < 4 * p then updated[j] else original[j]
      decreases data.Length - 4 * p
    {
      var a := data[4 * p + 3];
      data[4 * p + 3] := if reduce then ReduceAlpha(a) else ExpandAlpha(a);
      PixelResidues(p);
      p := p + 1;
    }
    forall j | 4 * p <= j < data.Length
      ensures updated[j] == original[j]
    {
      TailResidue(p, j);
    }
  }

  lemma PixelResidues(p: nat)
    ensures (4 * p) % 4 == 0 && (4 * p + 1) % 4 == 1 && (4 * p + 2) % 4 == 2 && (4 * p + 3) % 4 == 3
  {
  }

  lemma TailResidue(p: nat, j: nat)
    requires 4 * p <= j < 4 * p + 3
    ensures j % 4 != 3
  {
    PixelResidues(p);
    assert j == 4 * p || j == 4 * p + 1 || j == 4 * p + 2;
  }

  /** Reduction undoes expansion for every 7-bit alpha (0 to 0x80). */
  lemma ReduceUndoesExpand(a: Byte)
    requires a <= 0x80
    ensures ReduceAlpha(ExpandAlpha(a)) == a
  {
  }

  /** Expansion after reduction loses only the lowest bit, and keeps 0xFF. */
  lemma ExpandAfterReduce(a: Byte)
    ensures ExpandAlpha(ReduceAlpha(a)) == if a == 0xFF then 0xFF else a & 0xFE
  {
  }

  /** Expanding a palette's alphas and reducing them again gives the palette back when its
    * alphas are 7-bit; colour bytes are never touched. */
  lemma AlphaRoundTrip(s: seq<Byte>)
    requires forall i :: 0 <= i < |s| && i % 4 == 3 ==> s[i] <= 0x80
    ensures AlphaUpdated(AlphaUpdated(s, false), true) == s
  {
    var e := AlphaUpdated(s, false);
    var r := AlphaUpdated(e, true);
    forall i | 0 <= i < |s|
      ensures r[i] == s[i]
    {
      if i % 4 == 3 {
        ReduceUndoesExpand(s[i]);
      }
    }
  }

  // ---- PS2 palette decoding ----

  /** `1 << (bpp + 2)`: bytes of the palette at the start of the bitmap data. */
  function PaletteSize(bpp: U8): (n: nat)
    requires bpp == 4 || bpp == 8
    ensures bpp == 4 ==> n == 64
    ensures bpp == 8 ==> n == 1024
  {
    assert Pow2(6) == 64 && Pow2(10) == 1024;
    Pow2(bpp + 2)
  }

  function Pow2(n: nat): (r: nat)
    ensures r >= 1
  {
    if n == 0 then 1 else 2 * Pow2(n - 1)
  }

  /** Palette offset of the colour a 4-bit pixel's low nibble selects. */
  function LowIndex(e: Byte): (p: nat)
    ensures p % 4 == 0 && p + 4 <= 64
  {
    ((e & 0x0F) as int) * 4
  }

  /** Palette offset of the colour a 4-bit pixel's high nibble selects. */
  function HighIndex(e: Byte): (p: nat)
    ensures p % 4 == 0 && p + 4 <= 64
  {
    ((e & 0xF0) as int) / 4
  }

  /** The swap of bits 3 and 4 applied to 8-bit palette indices. */
  function Swap34(e: Byte): Byte {
    (e & 0xE7) | ((e & 0x08) << 1) | ((e & 0x10) >> 1)
  }

  /** The swap keeps the other bits, exchanges bits 3 and 4, and undoes itself. */
  lemma Swap34Bits(e: Byte)
    ensures Swap34(e) & 0xE7 == e & 0xE7
    ensures Swap34(e) & 0x08 == (e & 0x10) >> 1
    ensures Swap34(e) & 0x10 == (e & 0x08) << 1
    ensures Swap34(Swap34(e)) == e
  {
  }

  /** The example in the source's comment: 0110 1011 becomes 0111 0011. */
  lemma Swap34Example()
    ensures Swap34(0x6B) == 0x73
  {
  }

  /** RGBA of the first `n` encoded bytes of a 4-bit image: two pixels per byte, low nibble
    * first. */
  function Pixels4(palette: seq<Byte>, encoded: seq<Byte>, n: nat): (r: seq<Byte>)
    requires |palette| == 64 && n <= |encoded|
    ensures |r| == 8 * n
  {
    if n == 0 then [] else Pixels4(palette, encoded, n - 1) + PixelPair(palette, encoded[n - 1])
  }

  /** The two pixels of one byte of a 4-bit image. */
  function PixelPair(palette: seq<Byte>, e: Byte): (r: seq<Byte>)
    requires |palette| == 64
    ensures |r| == 8
  {
    palette[LowIndex(e)..LowIndex(e) + 4] + palette[HighIndex(e)..HighIndex(e) + 4]
  }

  /** RGBA of the first `n` encoded bytes of an 8-bit image: one pixel per byte. */
  function Pixels8(palette: seq<Byte>, encoded: seq<Byte>, n: nat): (r: seq<Byte>)
    requires |palette| == 1024 && n <= |encoded|
    ensures |r| == 4 * n
  {
    if n == 0 then [] else Pixels8(palette, encoded, n - 1) + Pixel(palette, encoded[n - 1])
  }

  /** The pixel of one byte of an 8-bit image. */
  function Pixel(palette: seq<Byte>, e: Byte): (r: seq<Byte>)
    requires |palette| == 1024
    ensures |r| == 4
  {
    palette[(Swap34(e) as int) * 4..(Swap34(e) as int) * 4 + 4]
  }

  /** Pixel `j` of a 4-bit image: its two colours are the palette entries of byte `j`'s low
    * and high nibble. */
  lemma Pixels4At(palette: seq<Byte>, encoded: seq<Byte>, n: nat, j: nat)
    requires |palette| == 64 && n <= |encoded| && j < n
    ensures Pixels4(palette, encoded, n)[8 * j..8 * j + 4]
      == palette[LowIndex(encoded[j])..LowIndex(encoded[j]) + 4]
    ensures Pixels4(palette, encoded, n)[8 * j + 4..8 * j + 8]
      == palette[HighIndex(encoded[j])..HighIndex(encoded[j]) + 4]
  {
    var r := Pixels4(palette, encoded, n);
    Pixels4Pair(palette, encoded, n, j);
    var pair := PixelPair(palette, encoded[j]);
    assert r[8 * j..8 * j + 4] == pair[..4];
    assert r[8 * j + 4..8 * j + 8] == pair[4..];
  }

  /** The bytes of pixel pair `j` are the pair of encoded byte `j`. */
  lemma {:induction false} Pixels4Pair(palette: seq<Byte>, encoded: seq<Byte>, n: nat, j: nat)
    requires |palette| == 64 && n <= |encoded| && j < n
    ensures Pixels4(palette, encoded, n)[8 * j..8 * j + 8] == PixelPair(palette, encoded[j])
    decreases n
  {
    var prev := Pixels4(palette, encoded, n - 1);
    var pair := PixelPair(palette, encoded[n - 1]);
    assert Pixels4(palette, encoded, n) == prev + pair;
    if j == n - 1 {
      AppendedSlice(prev, pair, 0, 8);
    } else {
      Pixels4Pair(palette, encoded, n - 1, j);
      FrontSlice(prev, pair, 8 * j, 8 * j + 8);
    }
  }

  /** A slice inside the front part of a concatenation. */
  lemma FrontSlice(a: seq<Byte>, b: seq<Byte>, i: nat, k: nat)
    requires i <= k <= |a|
    ensures (a + b)[i..k] == a[i..k]
  {
  }

  /** A slice inside the back part of a concatenation. */
  lemma AppendedSlice(a: seq<Byte>, b: seq<Byte>, i: nat, k: nat)
    requires i <= k <= |b|
    ensures (a + b)[|a| + i..|a| + k] == b[i..k]
  {
  }

  /** Pixel `j` of an 8-bit image: the palette entry of byte `j` with bits 3 and 4 swapped. */
  lemma {:induction false} Pixels8At(palette: seq<Byte>, encoded: seq<Byte>, n: nat, j: nat)
    requires |palette| == 1024 && n <= |encoded| && j < n
    ensures Pixels8(palette, encoded, n)[4 * j..4 * j + 4]
      == palette[(Swap34(encoded[j]) as int) * 4..(Swap34(encoded[j]) as int) * 4 + 4]
    decreases n
  {
    var prev := Pixels8(palette, encoded, n - 1);
    var pixel := Pixel(palette, encoded[n - 1]);
    assert Pixels8(palette, encoded, n) == prev + pixel;
    if j == n - 1 {
      AppendedSlice(prev, pixel, 0, 4);
    } else {
      Pixels8At(palette, encoded, n - 1, j);
      FrontSlice(prev, pixel, 4 * j, 4 * j + 4);
    }
  }

  /** The palette of a 4- or 8-bit bitmap with its alphas expanded to 8 bits. */
  function Palette(bitmap: Bitmap): (palette: seq<Byte>)
    requires bitmap.bpp == 4 || bitmap.bpp == 8
    requires |bitmap.rawData| >= PaletteSize(bitmap.bpp)
    ensures |palette| == PaletteSize(bitmap.bpp)
  {
    AlphaUpdated(bitmap.rawData[..PaletteSize(bitmap.bpp)], false)
  }

  /** `decode_from_bitmap`. A 4-bit image fills the whole buffer, 8 bytes per encoded byte; an
    * 8-bit image fills one pixel per encoded byte while both last. The source panics when the
    * data is shorter than the palette or, for 4 bits, when the buffer is not a whole number of
    * pixel pairs or the encoded bytes run out. */
  method DecodeFromBitmap(bitmap: Bitmap, rgba: array<Byte>) returns (r: Result<(), BitmapError>)
    requires bitmap.bpp == 4 || bitmap.bpp == 8 ==> |bitmap.rawData| >= PaletteSize(bitmap.bpp)
    requires bitmap.bpp == 4 ==> rgba.Length % 8 == 0 && 8 * (|bitmap.rawData| - 64) >= rgba.Length
    modifies rgba
    ensures r.Err? <==> bitmap.bpp != 4 && bitmap.bpp != 8
    ensures r.Err? ==> r.error == UnsupportedBitmapBpp(bitmap.bpp) && rgba[..] == old(rgba[..])
    ensures bitmap.bpp == 4 ==>
      rgba[..] == Pixels4(Palette(bitmap), bitmap.rawData[64..], rgba.Length / 8)
    ensures bitmap.bpp == 8 ==>
      var n := Min(rgba.Length / 4, |bitmap.rawData| - 1024);
      rgba[..] == Pixels8(Palette(bitmap), bitmap.rawData[1024..], n) + old(rgba[4 * n..])
  {
    var bpp := bitmap.bpp;
    if bpp != 4 && bpp != 8 {
      return Err(UnsupportedBitmapBpp(bpp));
    }
    var size := PaletteSize(bpp);
    var data := bitmap.rawData;
    var buffer := new Byte[size](i requires 0 <= i < size => data[i]);
    assert buffer[..] == data[..size];
    UpdateAlphaChannels(buffer, false);
    var palette := buffer[..];
    var encoded := data[size..];
    if bpp == 4 {
      Decode4(rgba, palette, encoded);
    } else {
      Decode8(rgba, palette, encoded);
    }
    r := Ok(());
  }

  /** The 4-bit loop of `decode_from_bitmap`: two pixels per encoded byte. */
  method Decode4(rgba: array<Byte>, palette: seq<Byte>, encoded: seq<Byte>)
    requires |palette| == 64 && rgba.Length % 8 == 0 && 8 * |encoded| >= rgba.Length
    modifies rgba
    ensures rgba[..] == Pixels4(palette, encoded, rgba.Length / 8)
  {
    var n := rgba.Length / 8;
    assert 8 * n == rgba.Length;
    var i, e := 0, 0;
    while i < rgba.Length
      invariant i == 8 * e && e <= n
      invariant rgba[..i] == Pixels4(palette, encoded, e)
    {
      assert e < n && e < |encoded|;
      CopyPair(rgba, i, palette, encoded[e]);
      e := e + 1;
      i := i + 8;
    }
    assert rgba[..] == rgba[..i];
  }

  /** One byte of the 4-bit loop: the colours of its low and high nibbles, in that order. */
  method CopyPair(rgba: array<Byte>, i: nat, palette: seq<Byte>, e: Byte)
    requires i + 8 <= rgba.Length && |palette| == 64
    modifies rgba
    ensures rgba[..i + 8] == old(rgba[..i]) + PixelPair(palette, e)
  {
    var p1 := LowIndex(e);
    var p2 := HighIndex(e);
    ghost var done := rgba[..i];
    CopyColor(rgba, i, palette, p1);
    ghost var first := rgba[..i + 4];
    assert first == done + palette[p1..p1 + 4];
    CopyColor(rgba, i + 4, palette, p2);
    assert rgba[..i + 8] == first + palette[p2..p2 + 4];
  }

  /** The 8-bit loop of `decode_from_bitmap`: one pixel per encoded byte, as long as both the
    * buffer and the encoded bytes last. */
  method Decode8(rgba: array<Byte>, palette: seq<Byte>, encoded: seq<Byte>)
    requires |palette| == 1024
    modifies rgba
    ensures var n := Min(rgba.Length / 4, |encoded|);
      rgba[..] == Pixels8(palette, encoded, n) + old(rgba[4 * n..])
  {
    var n := Min(rgba.Length / 4, |encoded|);
    var k := 0;
    while k < n
      invariant k <= n
      invariant rgba[..4 * k] == Pixels8(palette, encoded, k)
      invariant rgba[4 * k..] == old(rgba[4 * k..])
    {
      var p := (Swap34(encoded[k]) as int) * 4;
      assert rgba[4 * k + 4..] == rgba[4 * k..][4..];
      assert old(rgba[4 * k + 4..]) == old(rgba[4 * k..])[4..];
      CopyColor(rgba, 4 * k, palette, p);
      assert palette[p..p + 4] == Pixel(palette, encoded[k]);
      k := k + 1;
    }
    assert rgba[..] == rgba[..4 * n] + rgba[4 * n..];
  }

  function Min(a: nat, b: nat): nat {
    if a < b then a else b
  }

  /** `clone_from_slice` of one palette colour into the buffer at `at`. */
  method CopyColor(rgba: array<Byte>, at: nat, palette: seq<Byte>, p: nat)
    requires at + 4 <= rgba.Length && p + 4 <= |palette|
    modifies rgba
    ensures rgba[..] == old(rgba[..at]) + palette[p..p + 4] + old(rgba[at + 4..])
    ensures rgba[..at + 4] == old(rgba[..at]) + palette[p..p + 4]
    ensures rgba[at + 4..] == old(rgba[at + 4..])
  {
    rgba[at] := palette[p];
    rgba[at + 1] := palette[p + 1];
    rgba[at + 2] := palette[p + 2];
    rgba[at + 3] := palette[p + 3];
  }
}
