/** The header of an ARK archive (`.hdr`): part sizes, the string blob, the string index table
  * and the file entries, resolved to a path, a part and an offset within that part. */
module Ark {
  import opened Wrappers
  import opened Ints
  import opened Order
  import opened Stream

  /** Why a header cannot be read. `ArkNotSupported` is the source's error for every failed
    * read; the other three are panics in the source (an index past the string index table, a
    * string offset with no string, an offset beyond the last part). */
  datatype ArkError =
    | ArkNotSupported
    | StringIndexOutOfRange(index: nat)
    | StringOffsetMissing(stringOffset: U32)
    | OffsetOutsideParts(offset: nat)

  datatype ArkEncryption = NoEncryption | ClassicEncryption(key: I32) | NewEncryption(key: I32)

  /** A file stored in the archive: its position in the entry table, its full path, the part
    * that holds it and its offset within that part. */
  datatype ArkOffsetEntry = ArkOffsetEntry(id: U32, path: Bytes, offset: nat, part: nat, size: nat, inflatedSize: nat)

  /** The fields of one file entry as stored, before the strings and the part are looked up. */
  datatype RawEntry = RawEntry(offset: nat, fileNameIndex: nat, dirPathIndex: nat, size: nat, inflatedSize: nat)

  /** The tables a header holds before its file entries. */
  datatype HeaderTables = HeaderTables(parts: seq<(nat, nat)>, strings: map<U32, Bytes>, indices: seq<U32>)

  /** The entries read in order, and the error that stopped the reading, if any. */
  datatype Parsed = Parsed(entries: seq<ArkOffsetEntry>, error: Option<ArkError>)

  /** `version_is_supported`: the header versions read without decryption. */
  function VersionIsSupported(version: int): (b: bool)
    ensures b <==> version in {3, 5}
  {
    match version
    case 3 => true
    case 5 => true
    case _ => false
  }

  // ---------------------------------------------------------------------------------------
  // Reading little-endian `u32` values

  /** A `read_uint32` at `pos`, with a failed read reported as `ArkNotSupported`. */
  function U32At(data: Bytes, pos: nat): (r: Result<nat, ArkError>)
    ensures r.Ok? <==> pos + 4 <= |data|
    ensures r.Ok? ==> r.value == DecodeUnsigned(Little, data[pos..pos + 4]) && r.value < U32_LIMIT
    ensures r.Err? ==> r.error == ArkNotSupported
  {
    match ReadUnsignedAt(Little, W32, data, pos)
    case Ok(v) => Ok(v)
    case Err(_) => Err(ArkNotSupported)
  }

  /** `n` consecutive `u32` values from `pos`: all of them, or an error when the data ends first. */
  function U32Seq(data: Bytes, pos: nat, n: nat): (r: Result<seq<U32>, ArkError>)
    ensures r.Ok? <==> n == 0 || pos + 4 * n <= |data|
    ensures r.Ok? ==> |r.value| == n && forall i :: 0 <= i < n ==> U32At(data, pos + 4 * i) == Ok(r.value[i] as nat)
    ensures r.Err? ==> r.error == ArkNotSupported
  {
    if n == 0 then Ok([])
    else if pos + 4 * n <= |data| then
      Ok(seq(n, i requires 0 <= i < n && pos + 4 * n <= |data| => U32At(data, pos + 4 * i).value as U32))
    else Err(ArkNotSupported)
  }

  lemma U32SeqSnoc(data: Bytes, pos: nat, i: nat, i1: nat, p: nat, values: seq<U32>, v: nat)
    requires i1 == i + 1 && p == pos + 4 * i
    requires U32Seq(data, pos, i) == Ok(values)
    requires U32At(data, p) == Ok(v)
    ensures U32Seq(data, pos, i1) == Ok(values + [v as U32])
  {
    assert U32Seq(data, pos, i1).Ok?;
    var next := U32Seq(data, pos, i1).value;
    forall j | 0 <= j < i + 1 ensures next[j] == (values + [v as U32])[j] {
      assert U32At(data, pos + 4 * j) == Ok(next[j] as nat);
      if j < i {
        assert U32At(data, pos + 4 * j) == Ok(values[j] as nat);
      }
    }
    assert next == values + [v as U32];
  }

  lemma U32SeqShort(data: Bytes, pos: nat, i: nat, p: nat, n: nat)
    requires i < n && p == pos + 4 * i && U32At(data, p).Err?
    ensures U32Seq(data, pos, n).Err?
  {
  }

  /** The reader the header is parsed with: little-endian, over a read-only copy of the header. */
  predicate HeaderReader(reader: BinaryStream)
    reads reader
  {
    reader.endian == Little
  }

  /** `read_uint32` with the error mapped to `ArkNotSupported`. */
  method ReadU32(reader: BinaryStream) returns (r: Result<nat, ArkError>)
    requires HeaderReader(reader)
    modifies reader.stream
    ensures r == U32At(old(reader.stream.data), old(reader.stream.position))
    ensures reader.stream.data == old(reader.stream.data)
    ensures r.Ok? ==> reader.stream.position == old(reader.stream.position) + 4
  {
    var v := reader.ReadUnsigned(W32);
    r := if v.Ok? then Ok(v.value) else Err(ArkNotSupported);
  }

  /** The loop of `parse_string_indices`: `n` values read one after another. */
  method ReadU32s(reader: BinaryStream, n: nat) returns (r: Result<seq<U32>, ArkError>)
    requires HeaderReader(reader)
    modifies reader.stream
    ensures r == U32Seq(old(reader.stream.data), old(reader.stream.position), n)
    ensures reader.stream.data == old(reader.stream.data)
    ensures r.Ok? ==> reader.stream.position == old(reader.stream.position) + 4 * n
  {
    ghost var data := reader.stream.data;
    ghost var pos := reader.stream.position;
    var values: seq<U32> := [];
    var i := 0;
    while i < n
      invariant 0 <= i <= n
      invariant reader.stream.data == data && reader.stream.position == pos + 4 * i
      invariant U32Seq(data, pos, i) == Ok(values)
    {
      ghost var p := reader.stream.position;
      var v := ReadU32(reader);
      if v.Err? {
        U32SeqShort(data, pos, i, p, n);
        return Err(v.error);
      }
      var i1 := i + 1;
      U32SeqSnoc(data, pos, i, i1, p, values, v.value);
      values := values + [v.value as U32];
      i := i1;
    }
    r := Ok(values);
  }

  /** What `parse_string_indices` reads at `pos`: a count, then that many values, and the
    * cursor after them. */
  function StringIndicesAt(data: Bytes, pos: nat): (r: Result<(seq<U32>, nat), ArkError>)
    ensures r.Ok? ==> U32At(data, pos).Ok? && |r.value.0| == U32At(data, pos).value
    ensures r.Ok? ==> r.value.1 == pos + 4 + 4 * |r.value.0| <= |data|
    ensures r.Ok? ==> forall i :: 0 <= i < |r.value.0| ==> U32At(data, pos + 4 + 4 * i) == Ok(r.value.0[i] as nat)
    ensures r.Err? ==> r.error == ArkNotSupported
  {
    var count :- U32At(data, pos);
    var indices :- U32Seq(data, pos + 4, count);
    Ok((indices, pos + 4 + 4 * count))
  }

  method ParseStringIndices(reader: BinaryStream) returns (r: Result<seq<U32>, ArkError>)
    requires HeaderReader(reader)
    modifies reader.stream
    ensures var spec := StringIndicesAt(old(reader.stream.data), old(reader.stream.position));
      r.Ok? == spec.Ok? && (r.Ok? ==> r.value == spec.value.0 && reader.stream.position == spec.value.1)
    ensures r.Err? ==> r.error == ArkNotSupported
    ensures reader.stream.data == old(reader.stream.data)
  {
    var count := ReadU32(reader);
    if count.Err? {
      return Err(count.error);
    }
    r := ReadU32s(reader, count.value);
  }

  // ---------------------------------------------------------------------------------------
  // Part ranges

  function Total(sizes: seq<nat>): nat {
    if sizes == [] then 0 else Total(sizes[..|sizes| - 1]) + sizes[|sizes| - 1]
  }

  /** The byte range each part covers when the parts are laid one after another from 0. */
  function PartRanges(sizes: seq<nat>): (r: seq<(nat, nat)>)
    ensures |r| == |sizes|
  {
    if sizes == [] then []
    else
      var init := sizes[..|sizes| - 1];
      PartRanges(init) + [(Total(init), Total(init) + sizes[|sizes| - 1])]
  }

  /** Part `i` covers the bytes from the total of the parts before it, for its own size. */
  lemma {:induction false} PartRangeAt(sizes: seq<nat>, i: nat)
    requires i < |sizes|
    ensures PartRanges(sizes)[i] == (Total(sizes[..i]), Total(sizes[..i]) + sizes[i])
  {
    var init := sizes[..|sizes| - 1];
    if i < |init| {
      PartRangeAt(init, i);
      assert init[..i] == sizes[..i];
    } else {
      assert init == sizes[..i];
    }
  }

  lemma TotalStep(sizes: seq<nat>, i: nat)
    requires i < |sizes|
    ensures Total(sizes[..i + 1]) == Total(sizes[..i]) + sizes[i]
  {
    assert sizes[..i + 1][..i] == sizes[..i];
  }

  /** Part ranges start at 0, each is as long as its part, and each begins where the previous
    * one ends. */
  lemma PartRangesContiguous(sizes: seq<nat>)
    ensures |sizes| > 0 ==> PartRanges(sizes)[0].0 == 0
    ensures forall i :: 0 <= i < |sizes| ==> PartRanges(sizes)[i].1 == PartRanges(sizes)[i].0 + sizes[i]
    ensures forall i :: 0 < i < |sizes| ==> PartRanges(sizes)[i].0 == PartRanges(sizes)[i - 1].1
  {
    if |sizes| > 0 {
      PartRangeAt(sizes, 0);
      assert sizes[..0] == [];
    }
    forall i | 0 <= i < |sizes| ensures PartRanges(sizes)[i].1 == PartRanges(sizes)[i].0 + sizes[i] {
      PartRangeAt(sizes, i);
    }
    forall i | 0 < i < |sizes| ensures PartRanges(sizes)[i].0 == PartRanges(sizes)[i - 1].1 {
      PartRangesAdjacent(sizes, i - 1, i);
    }
  }

  lemma PartRangesAdjacent(sizes: seq<nat>, j: nat, i: nat)
    requires i == j + 1 && i < |sizes|
    ensures PartRanges(sizes)[i].0 == PartRanges(sizes)[j].1
  {
    PartRangeAt(sizes, i);
    PartRangeAt(sizes, j);
    TotalStep(sizes, j);
  }

  /** The part ranges `parse_header` builds from `count` part sizes at `pos`. */
  function PartRangesAt(data: Bytes, pos: nat, count: nat): (r: Result<seq<(nat, nat)>, ArkError>)
    ensures r.Ok? <==> U32Seq(data, pos, count).Ok?
    ensures r.Err? ==> r.error == ArkNotSupported
  {
    var sizes :- U32Seq(data, pos, count);
    Ok(PartRanges(sizes))
  }

  lemma PartRangesSnoc(sizes: seq<nat>, size: nat)
    ensures PartRanges(sizes + [size]) == PartRanges(sizes) + [(Total(sizes), Total(sizes) + size)]
    ensures Total(sizes + [size]) == Total(sizes) + size
  {
    assert (sizes + [size])[..|sizes|] == sizes;
  }

  /** The part-size loop of `parse_header`: each size read extends the ranges from the running
    * start. */
  method ReadPartRanges(reader: BinaryStream, count: nat) returns (r: Result<seq<(nat, nat)>, ArkError>)
    requires HeaderReader(reader)
    modifies reader.stream
    ensures r == PartRangesAt(old(reader.stream.data), old(reader.stream.position), count)
    ensures reader.stream.data == old(reader.stream.data)
    ensures r.Ok? ==> reader.stream.position == old(reader.stream.position) + 4 * count
  {
    ghost var data := reader.stream.data;
    ghost var pos := reader.stream.position;
    ghost var sizes: seq<U32> := [];
    var ranges: seq<(nat, nat)> := [];
    var partStart := 0;
    var i := 0;
    while i < count
      invariant 0 <= i <= count
      invariant reader.stream.data == data && reader.stream.position == pos + 4 * i
      invariant U32Seq(data, pos, i) == Ok(sizes)
      invariant ranges == PartRanges(sizes) && partStart == Total(sizes)
    {
      ghost var p := reader.stream.position;
      var size := ReadU32(reader);
      if size.Err? {
        U32SeqShort(data, pos, i, p, count);
        return Err(size.error);
      }
      var i1 := i + 1;
      U32SeqSnoc(data, pos, i, i1, p, sizes, size.value);
      PartRangesSnoc(sizes, size.value);
      ranges := ranges + [(partStart, partStart + size.value)];
      partStart := partStart + size.value;
      sizes := sizes + [size.value as U32];
      i := i1;
    }
    r := Ok(ranges);
  }

  /** Whether `offset` falls in the range `[start, end)`. */
  predicate InPart(offset: nat, range: (nat, nat)) {
    range.0 <= offset < range.1
  }

  /** `get_ark_part_and_offset`, searching from part `i`: the first part whose range holds the
    * offset, with the offset relative to that part's start. */
  function FindPartFrom(offset: nat, ranges: seq<(nat, nat)>, i: nat): (r: Option<(nat, nat)>)
    requires i <= |ranges|
    decreases |ranges| - i
    ensures r.Some? ==> i <= r.value.0 < |ranges| && InPart(offset, ranges[r.value.0])
    ensures r.Some? ==> r.value.1 == offset - ranges[r.value.0].0
    ensures r.Some? ==> forall j :: i <= j < r.value.0 ==> !InPart(offset, ranges[j])
    ensures r.None? <==> forall j :: i <= j < |ranges| ==> !InPart(offset, ranges[j])
  {
    if i == |ranges| then None
    else if InPart(offset, ranges[i]) then Some((i, offset - ranges[i].0))
    else FindPartFrom(offset, ranges, i + 1)
  }

  function FindPart(offset: nat, ranges: seq<(nat, nat)>): (r: Option<(nat, nat)>)
    ensures r.Some? ==> r.value.0 < |ranges| && InPart(offset, ranges[r.value.0]) && r.value.1 == offset - ranges[r.value.0].0
    ensures r.Some? ==> forall j :: 0 <= j < r.value.0 ==> !InPart(offset, ranges[j])
    ensures r.None? <==> forall j :: 0 <= j < |ranges| ==> !InPart(offset, ranges[j])
  {
    FindPartFrom(offset, ranges, 0)
  }

  /** Running totals never decrease. */
  lemma {:induction false} TotalPrefix(sizes: seq<nat>, i: nat, j: nat)
    requires i <= j <= |sizes|
    decreases j - i
    ensures Total(sizes[..i]) <= Total(sizes[..j])
  {
    if i < j {
      TotalPrefix(sizes, i, j - 1);
      TotalStep(sizes, j - 1);
    }
  }

  /** Parts laid out from their sizes do not overlap. */
  lemma PartsDisjoint(sizes: seq<nat>, offset: nat, j: nat, l: nat)
    requires j < l < |sizes|
    ensures !(InPart(offset, PartRanges(sizes)[j]) && InPart(offset, PartRanges(sizes)[l]))
  {
    PartRangeAt(sizes, j);
    PartRangeAt(sizes, l);
    TotalStep(sizes, j);
    TotalPrefix(sizes, j + 1, l);
  }

  /** The part that starts last at or below an offset under the total; that part holds it. */
  lemma PartHolding(sizes: seq<nat>, offset: nat) returns (k: nat)
    requires offset < Total(sizes)
    ensures k < |sizes| && InPart(offset, PartRanges(sizes)[k])
  {
    k := 0;
    assert sizes[..0] == [];
    assert sizes[..|sizes|] == sizes;
    while Total(sizes[..k]) + sizes[k] <= offset
      invariant k < |sizes| && Total(sizes[..k]) <= offset
      decreases |sizes| - k
    {
      TotalStep(sizes, k);
      k := k + 1;
    }
    PartRangeAt(sizes, k);
  }

  /** With parts laid out from their sizes, `get_ark_part_and_offset` finds a part exactly
    * when the offset is below the total size. */
  lemma FindPartIffBelowTotal(sizes: seq<nat>, offset: nat)
    ensures FindPart(offset, PartRanges(sizes)).Some? <==> offset < Total(sizes)
  {
    if offset < Total(sizes) {
      var k := PartHolding(sizes, offset);
    } else {
      forall j | 0 <= j < |sizes| ensures !InPart(offset, PartRanges(sizes)[j]) {
        PartRangeAt(sizes, j);
        TotalStep(sizes, j);
        TotalPrefix(sizes, j + 1, |sizes|);
        assert sizes[..|sizes|] == sizes;
      }
    }
  }

  /** The part `get_ark_part_and_offset` finds is the one part holding the offset, and the offset
    * it gives is relative to the start of that part. */
  lemma FindPartIsHolder(sizes: seq<nat>, offset: nat, j: nat)
    requires j < |sizes| && InPart(offset, PartRanges(sizes)[j])
    ensures var f := FindPart(offset, PartRanges(sizes));
      f.Some? && f.value.0 == j && f.value.1 == offset - Total(sizes[..j])
  {
    var r := PartRanges(sizes);
    var f := FindPart(offset, r);
    assert f.Some?;
    var k := f.value.0;
    assert k == j by {
      if k < j {
        PartsDisjoint(sizes, offset, k, j);
      }
    }
    PartRangeAt(sizes, j);
  }

  // ---------------------------------------------------------------------------------------
  // The string blob

  /** The loop of `parse_string_blob` from `pos`: while the offset (the distance from the blob
    * start, kept as a `u32`) is below the blob size, the next NUL-terminated string is stored
    * under it. Gives the strings and the cursor after the last one. */
  function BlobFrom(data: Bytes, start: nat, pos: nat, blobSize: nat, acc: map<U32, Bytes>): (r: Result<(map<U32, Bytes>, nat), ArkError>)
    requires start <= pos
    decreases |data| - pos
    ensures r.Ok? ==> pos <= r.value.1
    ensures r.Err? ==> r.error == ArkNotSupported
  {
    var offset := WrapU32(pos - start);
    if offset >= blobSize then Ok((acc, pos))
    else match ReadNullTerminatedAt(data, pos)
      case Err(_) => Err(ArkNotSupported)
      case Ok((s, next)) => BlobFrom(data, start, next, blobSize, acc[offset := s])
  }

  /** A string of the blob starts at `offset`: at the blob start, or just after a NUL. */
  ghost predicate StartsString(data: Bytes, start: nat, offset: nat) {
    offset == 0 || (start + offset - 1 < |data| && data[start + offset - 1] == 0)
  }

  /** A key of the blob map names the string that starts at that offset in the blob. */
  ghost predicate StringStartsAt(data: Bytes, start: nat, blobSize: nat, offset: U32, s: Bytes) {
    && offset < blobSize
    && StartsString(data, start, offset)
    && ReadNullTerminatedAt(data, start + offset).Ok?
    && ReadNullTerminatedAt(data, start + offset).value.0 == s
  }

  /** When the header is shorter than 4 GiB past the blob start (so offsets do not wrap),
    * every key of the map is the offset of a string start within the blob, mapped to that
    * string, and reading stops at the first string start at or past the blob size. */
  lemma {:induction false} BlobFromKeys(data: Bytes, start: nat, pos: nat, blobSize: nat, acc: map<U32, Bytes>)
    requires start <= pos <= |data| < start + U32_LIMIT
    requires StartsString(data, start, pos - start)
    requires forall k :: k in acc ==> StringStartsAt(data, start, blobSize, k, acc[k])
    decreases |data| - pos
    ensures var r := BlobFrom(data, start, pos, blobSize, acc);
      r.Ok? ==> (forall k :: k in r.value.0 ==> StringStartsAt(data, start, blobSize, k, r.value.0[k]))
                && r.value.1 >= start + blobSize
  {
    var offset := WrapU32(pos - start);
    assert offset == pos - start;
    if offset < blobSize {
      match ReadNullTerminatedAt(data, pos)
      case Err(_) =>
      case Ok((s, next)) =>
        BlobFromStep(data, start, pos, blobSize, acc, offset, s, next);
        assert StringStartsAt(data, start, blobSize, offset, s);
        KeysStep(data, start, blobSize, acc, offset, s, acc[offset := s]);
        BlobFromKeys(data, start, next, blobSize, acc[offset := s]);
    } else {
      BlobFromStop(data, start, pos, blobSize, acc, offset);
    }
  }

  lemma KeysStep(data: Bytes, start: nat, blobSize: nat, acc: map<U32, Bytes>, offset: U32, s: Bytes, acc': map<U32, Bytes>)
    requires StringStartsAt(data, start, blobSize, offset, s) && acc' == acc[offset := s]
    requires forall k :: k in acc ==> StringStartsAt(data, start, blobSize, k, acc[k])
    ensures forall k :: k in acc' ==> StringStartsAt(data, start, blobSize, k, acc'[k])
  {
  }

  /** Reading on only adds keys. */
  lemma {:induction false} BlobFromKeepsKeys(data: Bytes, start: nat, pos: nat, blobSize: nat, acc: map<U32, Bytes>)
    requires start <= pos
    decreases |data| - pos
    ensures var r := BlobFrom(data, start, pos, blobSize, acc);
      r.Ok? ==> acc.Keys <= r.value.0.Keys
  {
    var offset := WrapU32(pos - start);
    if offset < blobSize {
      match ReadNullTerminatedAt(data, pos)
      case Err(_) =>
      case Ok((s, next)) => BlobFromKeepsKeys(data, start, next, blobSize, acc[offset := s]);
    }
  }

  /** Conversely, every string start from `pos` on and below the blob size becomes a key. */
  lemma {:induction false} BlobFromComplete(data: Bytes, start: nat, pos: nat, blobSize: nat, acc: map<U32, Bytes>)
    requires start <= pos <= |data| < start + U32_LIMIT
    decreases |data| - pos
    ensures var r := BlobFrom(data, start, pos, blobSize, acc);
      r.Ok? ==> (forall o: U32 :: pos - start <= o < blobSize && (o == pos - start || StartsString(data, start, o))
                   ==> o in r.value.0)
  {
    var offset := WrapU32(pos - start);
    assert offset == pos - start;
    if offset < blobSize {
      match ReadNullTerminatedAt(data, pos)
      case Err(_) =>
      case Ok((s, next)) =>
        var acc' := acc[offset := s];
        BlobFromComplete(data, start, next, blobSize, acc');
        BlobFromKeepsKeys(data, start, next, blobSize, acc');
    }
  }

  /** What `parse_string_blob` reads at `pos`: a `u32` blob size, then the strings. */
  function StringBlobAt(data: Bytes, pos: nat): (r: Result<(map<U32, Bytes>, nat), ArkError>)
    ensures r.Err? ==> r.error == ArkNotSupported
  {
    var blobSize :- U32At(data, pos);
    BlobFrom(data, pos + 4, pos + 4, blobSize, map[])
  }

  /** The keys of a blob are exactly the offsets below its size at which a string starts (the
    * blob start, or just after a NUL), and each maps to the string read there. */
  lemma StringBlobKeys(data: Bytes, pos: nat)
    requires |data| < pos + 4 + U32_LIMIT
    ensures var r := StringBlobAt(data, pos);
      r.Ok? ==> forall k :: k in r.value.0 ==> StringStartsAt(data, pos + 4, U32At(data, pos).value, k, r.value.0[k])
    ensures var r := StringBlobAt(data, pos);
      r.Ok? ==> forall o: U32 :: o < U32At(data, pos).value && StartsString(data, pos + 4, o) ==> o in r.value.0
  {
    if U32At(data, pos).Ok? {
      BlobFromKeys(data, pos + 4, pos + 4, U32At(data, pos).value, map[]);
      BlobFromComplete(data, pos + 4, pos + 4, U32At(data, pos).value, map[]);
    }
  }

  method ParseStringBlob(reader: BinaryStream) returns (r: Result<map<U32, Bytes>, ArkError>)
    requires HeaderReader(reader)
    modifies reader.stream
    ensures var spec := StringBlobAt(old(reader.stream.data), old(reader.stream.position));
      r.Ok? == spec.Ok? && (r.Ok? ==> r.value == spec.value.0 && reader.stream.position == spec.value.1)
    ensures r.Err? ==> r.error == ArkNotSupported
    ensures reader.stream.data == old(reader.stream.data)
  {
    ghost var data := reader.stream.data;
    var blobSize := ReadU32(reader);
    if blobSize.Err? {
      return Err(blobSize.error);
    }
    var strings: map<U32, Bytes> := map[];
    var offset: U32 := 0;
    var startPos := reader.stream.position;
    while offset < blobSize.value
      invariant reader.stream.data == data && startPos <= reader.stream.position
      invariant offset == WrapU32(reader.stream.position - startPos)
      invariant BlobFrom(data, startPos, reader.stream.position, blobSize.value, strings)
             == BlobFrom(data, startPos, startPos, blobSize.value, map[])
      decreases |data| - reader.stream.position
    {
      ghost var pos := reader.stream.position;
      var s := reader.ReadNullTerminatedString();
      if s.Err? {
        BlobFromFail(data, startPos, pos, blobSize.value, strings, offset);
        return Err(ArkNotSupported);
      }
      BlobFromStep(data, startPos, pos, blobSize.value, strings, offset, s.value, reader.stream.position);
      strings := strings[offset := s.value];
      offset := WrapU32(reader.stream.position - startPos);
    }
    BlobFromStop(data, startPos, reader.stream.position, blobSize.value, strings, offset);
    r := Ok(strings);
  }

  lemma BlobFromStep(data: Bytes, start: nat, pos: nat, blobSize: nat, acc: map<U32, Bytes>, offset: U32, s: Bytes, next: nat)
    requires start <= pos && offset == WrapU32(pos - start) && offset < blobSize
    requires ReadNullTerminatedAt(data, pos) == Ok((s, next))
    ensures start <= next
    ensures BlobFrom(data, start, pos, blobSize, acc) == BlobFrom(data, start, next, blobSize, acc[offset := s])
  {
  }

  lemma BlobFromFail(data: Bytes, start: nat, pos: nat, blobSize: nat, acc: map<U32, Bytes>, offset: U32)
    requires start <= pos && offset == WrapU32(pos - start) && offset < blobSize
    requires ReadNullTerminatedAt(data, pos).Err?
    ensures BlobFrom(data, start, pos, blobSize, acc).Err?
  {
  }

  lemma BlobFromStop(data: Bytes, start: nat, pos: nat, blobSize: nat, acc: map<U32, Bytes>, offset: U32)
    requires start <= pos && offset == WrapU32(pos - start) && blobSize <= offset
    ensures BlobFrom(data, start, pos, blobSize, acc) == Ok((acc, pos))
  {
  }

  /** The loop that skips the part file names of a version 5+ header: `n` prefixed strings. */
  function SkipPrefixed(data: Bytes, pos: nat, n: nat): (r: Result<nat, ArkError>)
    ensures r.Ok? ==> pos <= r.value
    ensures r.Ok? && n > 0 ==> r.value <= |data|
    ensures r.Err? ==> r.error == ArkNotSupported
    decreases n
  {
    if n == 0 then Ok(pos)
    else match ReadPrefixedAt(Little, data, pos)
      case Err(_) => Err(ArkNotSupported)
      case Ok((_, next)) => SkipPrefixed(data, next, n - 1)
  }

  method SkipPartNames(reader: BinaryStream, n: nat) returns (r: Result<(), ArkError>)
    requires HeaderReader(reader)
    modifies reader.stream
    ensures var spec := SkipPrefixed(old(reader.stream.data), old(reader.stream.position), n);
      r.Ok? == spec.Ok? && (r.Ok? ==> reader.stream.position == spec.value)
    ensures r.Err? ==> r.error == ArkNotSupported
    ensures reader.stream.data == old(reader.stream.data)
  {
    ghost var data := reader.stream.data;
    ghost var pos := reader.stream.position;
    var i := 0;
    while i < n
      invariant i <= n && reader.stream.data == data
      invariant SkipPrefixed(data, reader.stream.position, n - i) == SkipPrefixed(data, pos, n)
    {
      var s := reader.ReadPrefixedString();
      if s.Err? {
        return Err(ArkNotSupported);
      }
      i := i + 1;
    }
    r := Ok(());
  }

  // ---------------------------------------------------------------------------------------
  // File entries

  /** `create_full_path`: the file name alone for an empty directory, else `dir/file`. */
  function CreateFullPath(dirPath: Bytes, fileName: Bytes): (p: Bytes)
    ensures dirPath == [] ==> p == fileName
    ensures dirPath != [] ==>
      && |p| == |dirPath| + 1 + |fileName| && p[..|dirPath|] == dirPath
      && p[|dirPath|] == '/' as U8 && p[|dirPath| + 1..] == fileName
  {
    if dirPath == [] then fileName else dirPath + ['/' as U8] + fileName
  }

  /** The position of the last `/` in a path, if any. */
  function LastSlash(p: Bytes): (r: Option<nat>)
    ensures r.Some? ==> r.value < |p| && p[r.value] == '/' as U8 && '/' as U8 !in p[r.value + 1..]
    ensures r.None? ==> '/' as U8 !in p
  {
    if p == [] then None
    else if p[|p| - 1] == '/' as U8 then Some(|p| - 1)
    else
      var r := LastSlash(p[..|p| - 1]);
      assert p == p[..|p| - 1] + [p[|p| - 1]];
      if r.Some? then (assert p[r.value + 1..] == p[..|p| - 1][r.value + 1..] + [p[|p| - 1]]; r) else r
  }

  /** Splits a full path at its last `/` into directory and file name. */
  function SplitFullPath(p: Bytes): (Bytes, Bytes) {
    match LastSlash(p)
    case None => ([], p)
    case Some(i) => (p[..i], p[i + 1..])
  }

  /** A full path remembers its parts: for a file name without `/`, splitting at the last `/` gives back the directory and the file name. */
  lemma SplitCreateFullPath(dirPath: Bytes, fileName: Bytes)
    requires '/' as U8 !in fileName
    ensures SplitFullPath(CreateFullPath(dirPath, fileName)) == (dirPath, fileName)
  {
    var p := CreateFullPath(dirPath, fileName);
    if dirPath != [] {
      assert p[|dirPath|] == '/' as U8;
    }
  }

  /** The size of an entry's offset field: `u32` for versions 3 and 4, `u64` otherwise. */
  function OffsetWidth(version: int): (w: Width)
    ensures w == (if version == 3 || version == 4 then W32 else W64)
  {
    match version
    case 3 => W32
    case 4 => W32
    case _ => W64
  }

  /** The stored fields of one file entry at `pos` and the cursor after them. */
  function RawEntryAt(version: int, data: Bytes, pos: nat): (r: Result<(RawEntry, nat), ArkError>)
    ensures r.Ok? <==> pos + OffsetWidth(version).Size() + 16 <= |data|
    ensures r.Ok? ==> r.value.1 == pos + OffsetWidth(version).Size() + 16
    ensures r.Ok? ==> r.value.0.offset == DecodeUnsigned(Little, data[pos..pos + OffsetWidth(version).Size()])
    ensures r.Err? ==> r.error == ArkNotSupported
  {
    var w := OffsetWidth(version);
    match ReadUnsignedAt(Little, w, data, pos)
    case Err(_) => Err(ArkNotSupported)
    case Ok(offset) =>
      var p := pos + w.Size();
      var fileNameIndex :- U32At(data, p);
      var dirPathIndex :- U32At(data, p + 4);
      var size :- U32At(data, p + 8);
      var inflatedSize :- U32At(data, p + 12);
      Ok((RawEntry(offset, fileNameIndex, dirPathIndex, size, inflatedSize), p + 16))
  }

  /** `strings[&string_indices[index]]`: the string behind an index into the index table. */
  function LookupString(strings: map<U32, Bytes>, indices: seq<U32>, index: nat): (r: Result<Bytes, ArkError>)
    ensures r.Ok? <==> index < |indices| && indices[index] in strings
    ensures r.Ok? ==> r.value == strings[indices[index]]
    ensures index >= |indices| ==> r == Err(StringIndexOutOfRange(index))
    ensures index < |indices| && indices[index] !in strings ==> r == Err(StringOffsetMissing(indices[index]))
  {
    if index >= |indices| then Err(StringIndexOutOfRange(index))
    else if indices[index] !in strings then Err(StringOffsetMissing(indices[index]))
    else Ok(strings[indices[index]])
  }

  /** The entry `parse_file_entries` pushes for the raw fields read as entry `id`. */
  function ResolveEntry(id: U32, raw: RawEntry, tables: HeaderTables): (r: Result<ArkOffsetEntry, ArkError>)
    ensures r.Ok? ==> r.value.id == id && r.value.size == raw.size && r.value.inflatedSize == raw.inflatedSize
    ensures r.Ok? ==>
      && r.value.part < |tables.parts| && InPart(raw.offset, tables.parts[r.value.part])
      && r.value.offset == raw.offset - tables.parts[r.value.part].0
    ensures r.Ok? ==>
      && LookupString(tables.strings, tables.indices, raw.dirPathIndex).Ok?
      && LookupString(tables.strings, tables.indices, raw.fileNameIndex).Ok?
      && r.value.path == CreateFullPath(
      LookupString(tables.strings, tables.indices, raw.dirPathIndex).value,
      LookupString(tables.strings, tables.indices, raw.fileNameIndex).value)
    ensures FindPart(raw.offset, tables.parts).None? ==> r.Err?
  {
    var fileName :- LookupString(tables.strings, tables.indices, raw.fileNameIndex);
    var dirPath :- LookupString(tables.strings, tables.indices, raw.dirPathIndex);
    match FindPart(raw.offset, tables.parts)
    case None => Err(OffsetOutsideParts(raw.offset))
    case Some((part, offset)) =>
      Ok(ArkOffsetEntry(id, CreateFullPath(dirPath, fileName), offset, part, raw.size, raw.inflatedSize))
  }

  /** The entries `parse_file_entries` pushes for ids `id` up to `count`, reading from `pos`,
    * and the error that stops it early. */
  function EntriesFrom(version: int, data: Bytes, pos: nat, id: nat, count: nat, tables: HeaderTables): (r: Parsed)
    requires id <= count <= U32_LIMIT
    decreases count - id
    ensures |r.entries| <= count - id
    ensures r.error.None? ==> |r.entries| == count - id
  {
    if id >= count then Parsed([], None)
    else match RawEntryAt(version, data, pos)
      case Err(e) => Parsed([], Some(e))
      case Ok((raw, next)) =>
        match ResolveEntry(id as U32, raw, tables)
        case Err(e) => Parsed([], Some(e))
        case Ok(entry) =>
          var rest := EntriesFrom(version, data, next, id + 1, count, tables);
          Parsed([entry] + rest.entries, rest.error)
  }

  /** What `parse_file_entries` reads at `pos`: a `u32` count, then that many entries. */
  function FileEntriesAt(version: int, data: Bytes, pos: nat, tables: HeaderTables): (r: Parsed)
    ensures U32At(data, pos).Err? ==> r == Parsed([], Some(ArkNotSupported))
    ensures U32At(data, pos).Ok? && r.error.None? ==> |r.entries| == U32At(data, pos).value
  {
    match U32At(data, pos)
    case Err(e) => Parsed([], Some(e))
    case Ok(count) => EntriesFrom(version, data, pos + 4, 0, count, tables)
  }

  /** Every entry a header yields carries its own index as id, in order. */
  lemma {:induction false} EntriesFromIds(version: int, data: Bytes, pos: nat, id: nat, count: nat, tables: HeaderTables)
    requires id <= count <= U32_LIMIT
    decreases count - id
    ensures forall i :: 0 <= i < |EntriesFrom(version, data, pos, id, count, tables).entries| ==>
      EntriesFrom(version, data, pos, id, count, tables).entries[i].id == id + i
  {
    if id < count {
      var re := RawEntryAt(version, data, pos);
      if re.Ok? {
        var (raw, next) := re.value;
        var en := ResolveEntry(id as U32, raw, tables);
        if en.Ok? {
          var id1 := id + 1;
          EntriesFromIds(version, data, next, id1, count, tables);
          EntriesFromCons(version, data, pos, id, count, tables, raw, next, en.value);
        } else {
          EntriesFromResolveErr(version, data, pos, id, count, tables, raw, next);
        }
      } else {
        EntriesFromRawErr(version, data, pos, id, count, tables);
      }
    }
  }

  lemma EntriesFromRawErr(version: int, data: Bytes, pos: nat, id: nat, count: nat, tables: HeaderTables)
    requires id < count <= U32_LIMIT
    requires RawEntryAt(version, data, pos).Err?
    ensures EntriesFrom(version, data, pos, id, count, tables) == Parsed([], Some(ArkNotSupported))
  {
  }

  lemma EntriesFromCons(version: int, data: Bytes, pos: nat, id: nat, count: nat, tables: HeaderTables,
                        raw: RawEntry, next: nat, entry: ArkOffsetEntry)
    requires id < count <= U32_LIMIT
    requires RawEntryAt(version, data, pos) == Ok((raw, next))
    requires ResolveEntry(id as U32, raw, tables) == Ok(entry)
    ensures var rest := EntriesFrom(version, data, next, id + 1, count, tables);
      EntriesFrom(version, data, pos, id, count, tables) == Parsed([entry] + rest.entries, rest.error)
  {
  }

  /** The loop state of `parse_file_entries`: the entries pushed so far, followed by what the
    * rest of the header yields from `pos` on, are all the entries, and the rest ends with the
    * header's error. */
  ghost predicate EntriesRest(version: int, data: Bytes, pos: nat, id: nat, count: nat, tables: HeaderTables,
                              before: seq<ArkOffsetEntry>, target: seq<ArkOffsetEntry>, error: Option<ArkError>)
  {
    id <= count <= U32_LIMIT
    && var rest := EntriesFrom(version, data, pos, id, count, tables);
    before + rest.entries == target && rest.error == error
  }

  lemma FileEntriesStart(version: int, data: Bytes, pos: nat, p: nat, tables: HeaderTables)
    requires p == pos + 4 && U32At(data, pos).Ok?
    ensures FileEntriesAt(version, data, pos, tables) == EntriesFrom(version, data, p, 0, U32At(data, pos).value, tables)
  {
  }

  lemma EntriesRestStep(version: int, data: Bytes, pos: nat, id: nat, count: nat, tables: HeaderTables,
                        raw: RawEntry, next: nat, entry: ArkOffsetEntry,
                        before: seq<ArkOffsetEntry>, target: seq<ArkOffsetEntry>, error: Option<ArkError>)
    requires id < count <= U32_LIMIT
    requires RawEntryAt(version, data, pos) == Ok((raw, next))
    requires ResolveEntry(id as U32, raw, tables) == Ok(entry)
    requires EntriesRest(version, data, pos, id, count, tables, before, target, error)
    ensures EntriesRest(version, data, next, id + 1, count, tables, before + [entry], target, error)
  {
    var rest := EntriesFrom(version, data, next, id + 1, count, tables);
    assert EntriesFrom(version, data, pos, id, count, tables) == Parsed([entry] + rest.entries, rest.error) by {
      EntriesFromCons(version, data, pos, id, count, tables, raw, next, entry);
    }
    assert (before + [entry]) + rest.entries == before + ([entry] + rest.entries);
  }

  lemma EntriesRestRawErr(version: int, data: Bytes, pos: nat, id: nat, count: nat, tables: HeaderTables,
                          before: seq<ArkOffsetEntry>, target: seq<ArkOffsetEntry>, error: Option<ArkError>)
    requires id < count && RawEntryAt(version, data, pos).Err?
    requires EntriesRest(version, data, pos, id, count, tables, before, target, error)
    ensures before == target && error == Some(ArkNotSupported)
  {
    EntriesFromRawErr(version, data, pos, id, count, tables);
    assert before + [] == before;
  }

  lemma EntriesRestResolveErr(version: int, data: Bytes, pos: nat, id: nat, count: nat, tables: HeaderTables,
                              raw: RawEntry, next: nat,
                              before: seq<ArkOffsetEntry>, target: seq<ArkOffsetEntry>, error: Option<ArkError>)
    requires id < count <= U32_LIMIT && RawEntryAt(version, data, pos) == Ok((raw, next))
    requires ResolveEntry(id as U32, raw, tables).Err?
    requires EntriesRest(version, data, pos, id, count, tables, before, target, error)
    ensures before == target && error == Some(ResolveEntry(id as U32, raw, tables).error)
  {
    EntriesFromResolveErr(version, data, pos, id, count, tables, raw, next);
    assert before + [] == before;
  }

  lemma EntriesRestDone(version: int, data: Bytes, pos: nat, id: nat, count: nat, tables: HeaderTables,
                        before: seq<ArkOffsetEntry>, target: seq<ArkOffsetEntry>, error: Option<ArkError>)
    requires count <= id && EntriesRest(version, data, pos, id, count, tables, before, target, error)
    ensures before == target && error.None?
  {
    assert before + [] == before;
  }

  lemma EntriesFromResolveErr(version: int, data: Bytes, pos: nat, id: nat, count: nat, tables: HeaderTables,
                              raw: RawEntry, next: nat)
    requires id < count <= U32_LIMIT
    requires RawEntryAt(version, data, pos) == Ok((raw, next))
    requires ResolveEntry(id as U32, raw, tables).Err?
    ensures EntriesFrom(version, data, pos, id, count, tables) == Parsed([], Some(ResolveEntry(id as U32, raw, tables).error))
  {
  }

  // ---------------------------------------------------------------------------------------
  // Sorting by path

  ghost predicate SortedByPath(s: seq<ArkOffsetEntry>) {
    forall i, j :: 0 <= i < j < |s| ==> CompareBytes(s[i].path, s[j].path) != Greater
  }

  /** Inserts after every entry whose path does not sort after `x`'s (stable). */
  function InsertByPath(x: ArkOffsetEntry, s: seq<ArkOffsetEntry>): (r: seq<ArkOffsetEntry>)
    ensures multiset(r) == multiset(s) + multiset{x}
  {
    if s == [] then [x]
    else if CompareBytes(x.path, s[0].path) == Less then [x] + s
    else
      assert s == [s[0]] + s[1..];
      [s[0]] + InsertByPath(x, s[1..])
  }

  lemma {:induction false} InsertByPathSorted(x: ArkOffsetEntry, s: seq<ArkOffsetEntry>)
    requires SortedByPath(s)
    ensures SortedByPath(InsertByPath(x, s))
  {
    if s == [] {
    } else if CompareBytes(x.path, s[0].path) == Less {
      forall j | 0 <= j < |s| ensures CompareBytes(x.path, s[j].path) != Greater {
        if j > 0 { CompareBytesTransitive(x.path, s[0].path, s[j].path); }
      }
    } else {
      InsertByPathSorted(x, s[1..]);
      var t := InsertByPath(x, s[1..]);
      CompareBytesFlip(x.path, s[0].path);
      forall k | 0 <= k < |t| ensures CompareBytes(s[0].path, t[k].path) != Greater {
        assert t[k] in multiset(t);
        if t[k] != x {
          assert t[k] in multiset(s[1..]);
          var j :| 0 <= j < |s[1..]| && s[1..][j] == t[k];
          assert s[j + 1] == t[k];
        }
      }
      assert InsertByPath(x, s) == [s[0]] + t;
    }
  }

  lemma MultisetSplitLast<T>(s: seq<T>)
    requires s != []
    ensures multiset(s) == multiset(s[..|s| - 1]) + multiset{s[|s| - 1]}
  {
    assert s == s[..|s| - 1] + [s[|s| - 1]];
  }

  /** `sort_entries_by_name`: the entries in path order, a permutation of the input. Like the
    * source's stable `sort_by`, the insertion keeps entries with equal paths in input order;
    * that stability is not stated here. */
  function SortByPath(s: seq<ArkOffsetEntry>): (r: seq<ArkOffsetEntry>)
    ensures multiset(r) == multiset(s)
    ensures SortedByPath(r)
  {
    if s == [] then []
    else
      var init, last := s[..|s| - 1], s[|s| - 1];
      var sorted := SortByPath(init);
      InsertByPathSorted(last, sorted);
      MultisetSplitLast(s);
      InsertByPath(last, sorted)
  }

  // ---------------------------------------------------------------------------------------
  // The header

  /** The part ranges of a header and the cursor after the part sizes: the version field is
    * skipped and the part count ignored. */
  function PartTableAt(hdr: Bytes): (r: Result<(seq<(nat, nat)>, nat), ArkError>)
    ensures r.Err? ==> r.error == ArkNotSupported
  {
    var _ :- U32At(hdr, 4);
    var sizeCount :- U32At(hdr, 8);
    var parts :- PartRangesAt(hdr, 12, sizeCount);
    Ok((parts, 12 + 4 * sizeCount))
  }

  /** Where the part names of a version 5+ header end; earlier versions store none. */
  function PartNamesEnd(version: int, hdr: Bytes, pos: nat): (r: Result<nat, ArkError>)
    ensures r.Err? ==> r.error == ArkNotSupported
    ensures version < 5 ==> r == Ok(pos)
  {
    if version >= 5 then
      var nameCount :- U32At(hdr, pos);
      SkipPrefixed(hdr, pos + 4, nameCount)
    else Ok(pos)
  }

  /** The tables of a header for `version` and the cursor where its file entries begin. */
  function HeaderTablesAt(version: int, hdr: Bytes): (r: Result<(HeaderTables, nat), ArkError>)
    ensures r.Err? ==> r.error == ArkNotSupported
  {
    var (parts, afterSizes) :- PartTableAt(hdr);
    var afterNames :- PartNamesEnd(version, hdr, afterSizes);
    var (strings, afterBlob) :- StringBlobAt(hdr, afterNames);
    var (indices, afterIndices) :- StringIndicesAt(hdr, afterBlob);
    Ok((HeaderTables(parts, strings, indices), afterIndices))
  }

  /** The entries `parse_header` pushes and the error it returns, if any (before sorting). */
  function HeaderEntries(version: int, hdr: Bytes): (r: Parsed)
    ensures HeaderTablesAt(version, hdr).Err? ==> r == Parsed([], Some(HeaderTablesAt(version, hdr).error))
  {
    var t := HeaderTablesAt(version, hdr);
    if t.Err? then Parsed([], Some(t.error)) else FileEntriesAt(version, hdr, t.value.1, t.value.0)
  }

  /** The entries read from a header carry the ids 0, 1, 2, ... in table order. */
  lemma HeaderEntryIds(version: int, hdr: Bytes)
    ensures forall i :: 0 <= i < |HeaderEntries(version, hdr).entries| ==> HeaderEntries(version, hdr).entries[i].id == i
  {
    var t := HeaderTablesAt(version, hdr);
    if t.Err? {
      assert HeaderEntries(version, hdr).entries == [];
    } else {
      var tables, pos := t.value.0, t.value.1;
      assert HeaderEntries(version, hdr) == FileEntriesAt(version, hdr, pos, tables);
      if U32At(hdr, pos).Ok? {
        var count := U32At(hdr, pos).value;
        EntriesFromIds(version, hdr, pos + 4, 0, count, tables);
        assert FileEntriesAt(version, hdr, pos, tables) == EntriesFrom(version, hdr, pos + 4, 0, count, tables);
        var e := EntriesFrom(version, hdr, pos + 4, 0, count, tables).entries;
        assert forall i :: 0 <= i < |e| ==> e[i].id == i;
        assert HeaderEntries(version, hdr).entries == e;
      } else {
        assert FileEntriesAt(version, hdr, pos, tables).entries == [];
      }
    }
  }

  /** An archive being read: its header version, its encryption and its entries. */
  class Ark {
    var version: int
    var encryption: ArkEncryption
    var entries: seq<ArkOffsetEntry>

    constructor New(version: int, encryption: ArkEncryption)
      ensures this.version == version && this.encryption == encryption && entries == []
    {
      this.version := version;
      this.encryption := encryption;
      entries := [];
    }

    /** `parse_file_entries`: pushes each entry read; entries pushed before an error stay. */
    method ParseFileEntries(reader: BinaryStream, tables: HeaderTables) returns (r: Result<(), ArkError>)
      requires HeaderReader(reader)
      modifies this, reader.stream
      ensures var spec := FileEntriesAt(version, old(reader.stream.data), old(reader.stream.position), tables);
        && entries == old(entries) + spec.entries
        && (r.Ok? <==> spec.error.None?)
        && (r.Err? ==> spec.error == Some(r.error))
      ensures reader.stream.data == old(reader.stream.data)
      ensures version == old(version) && encryption == old(encryption)
    {
      ghost var data, pos0 := reader.stream.data, reader.stream.position;
      ghost var spec := FileEntriesAt(version, data, pos0, tables);
      ghost var target := entries + spec.entries;
      var count := ReadU32(reader);
      if count.Err? {
        assert entries + [] == entries;
        return Err(count.error);
      }
      FileEntriesStart(version, data, pos0, reader.stream.position, tables);
      assert EntriesRest(version, data, reader.stream.position, 0, count.value, tables, entries, target, spec.error);
      var id := 0;
      while id < count.value
        invariant id <= count.value && reader.stream.data == data
        invariant version == old(version) && encryption == old(encryption)
        invariant EntriesRest(version, data, reader.stream.position, id, count.value, tables, entries, target, spec.error)
      {
        r := ParseFileEntry(reader, tables, id, count.value, target, spec.error);
        if r.Err? {
          return;
        }
        id := id + 1;
      }
      EntriesRestDone(version, data, reader.stream.position, id, count.value, tables, entries, target, spec.error);
      r := Ok(());
    }

    /** One turn of the loop of `parse_file_entries`: reads, resolves and pushes the entry
      * with index `id`. */
    method ParseFileEntry(reader: BinaryStream, tables: HeaderTables, id: nat, count: nat,
                          ghost target: seq<ArkOffsetEntry>, ghost error: Option<ArkError>) returns (r: Result<(), ArkError>)
      requires HeaderReader(reader) && id < count
      requires EntriesRest(version, reader.stream.data, reader.stream.position, id, count, tables, entries, target, error)
      modifies this, reader.stream
      ensures reader.stream.data == old(reader.stream.data)
      ensures version == old(version) && encryption == old(encryption)
      ensures r.Ok? ==> EntriesRest(version, reader.stream.data, reader.stream.position, id + 1, count, tables, entries, target, error)
      ensures r.Err? ==> entries == target && error == Some(r.error)
    {
      ghost var data, pos := reader.stream.data, reader.stream.position;
      var raw := ReadRawEntry(reader, version);
      if raw.Err? {
        EntriesRestRawErr(version, data, pos, id, count, tables, entries, target, error);
        return Err(raw.error);
      }
      var entry := ResolveEntry(id as U32, raw.value, tables);
      if entry.Err? {
        EntriesRestResolveErr(version, data, pos, id, count, tables, raw.value, reader.stream.position, entries, target, error);
        return Err(entry.error);
      }
      EntriesRestStep(version, data, pos, id, count, tables, raw.value, reader.stream.position, entry.value, entries, target, error);
      entries := entries + [entry.value];
      r := Ok(());
    }

    /** `sort_entries_by_name`. */
    method SortEntriesByName()
      modifies this
      ensures entries == SortByPath(old(entries))
      ensures version == old(version) && encryption == old(encryption)
    {
      entries := SortByPath(entries);
    }

    /** `parse_header`: reads the header with a little-endian reader and, when every entry was
      * read, sorts all entries by path. */
    method ParseHeader(hdr: Bytes) returns (r: Result<(), ArkError>)
      modifies this
      ensures var spec := HeaderEntries(version, hdr);
        && (r.Ok? <==> spec.error.None?)
        && (r.Err? ==> spec.error == Some(r.error))
        && entries == (if r.Ok? then SortByPath(old(entries) + spec.entries) else old(entries) + spec.entries)
      ensures version == old(version) && encryption == old(encryption)
    {
      var stream := new MemoryStream.FromSliceAsRead(hdr);
      var reader := new BinaryStream.FromStream(stream);
      var tables := ReadHeaderTables(reader, version);
      if tables.Err? {
        return Err(tables.error);
      }
      r := ParseFileEntries(reader, tables.value);
      if r.Ok? {
        SortEntriesByName();
      }
    }
  }

  /** One entry's stored fields, read as `parse_file_entries` reads them. */
  method ReadRawEntry(reader: BinaryStream, version: int) returns (r: Result<RawEntry, ArkError>)
    requires HeaderReader(reader)
    modifies reader.stream
    ensures var spec := RawEntryAt(version, old(reader.stream.data), old(reader.stream.position));
      r.Ok? == spec.Ok? && (r.Ok? ==> r.value == spec.value.0 && reader.stream.position == spec.value.1)
    ensures r.Err? ==> r.error == ArkNotSupported
    ensures reader.stream.data == old(reader.stream.data)
  {
    var offset := reader.ReadUnsigned(OffsetWidth(version));
    if offset.Err? {
      return Err(ArkNotSupported);
    }
    var fileNameIndex := ReadU32(reader);
    if fileNameIndex.Err? {
      return Err(fileNameIndex.error);
    }
    var dirPathIndex := ReadU32(reader);
    if dirPathIndex.Err? {
      return Err(dirPathIndex.error);
    }
    var size := ReadU32(reader);
    if size.Err? {
      return Err(size.error);
    }
    var inflatedSize := ReadU32(reader);
    if inflatedSize.Err? {
      return Err(inflatedSize.error);
    }
    r := Ok(RawEntry(offset.value, fileNameIndex.value, dirPathIndex.value, size.value, inflatedSize.value));
  }

  /** The part sizes of `parse_header`, read from a fresh reader over the header. */
  method ReadPartTable(reader: BinaryStream) returns (r: Result<seq<(nat, nat)>, ArkError>)
    requires HeaderReader(reader) && reader.stream.position == 0
    modifies reader.stream
    ensures var spec := PartTableAt(old(reader.stream.data));
      r.Ok? == spec.Ok? && (r.Ok? ==> r.value == spec.value.0 && reader.stream.position == spec.value.1)
    ensures r.Err? ==> r.error == ArkNotSupported
    ensures reader.stream.data == old(reader.stream.data)
  {
    reader.stream.Seek(Current(4));
    var partCount := ReadU32(reader);
    if partCount.Err? {
      return Err(partCount.error);
    }
    var sizeCount := ReadU32(reader);
    if sizeCount.Err? {
      return Err(sizeCount.error);
    }
    r := ReadPartRanges(reader, sizeCount.value);
  }

  /** Skips the part names a version 5+ header stores after the part sizes. */
  method ReadPartNames(reader: BinaryStream, version: int) returns (r: Result<(), ArkError>)
    requires HeaderReader(reader)
    modifies reader.stream
    ensures var spec := PartNamesEnd(version, old(reader.stream.data), old(reader.stream.position));
      r.Ok? == spec.Ok? && (r.Ok? ==> reader.stream.position == spec.value)
    ensures r.Err? ==> r.error == ArkNotSupported
    ensures reader.stream.data == old(reader.stream.data)
  {
    if version >= 5 {
      var nameCount := ReadU32(reader);
      if nameCount.Err? {
        return Err(nameCount.error);
      }
      r := SkipPartNames(reader, nameCount.value);
    } else {
      r := Ok(());
    }
  }

  /** The part of `parse_header` before the file entries, from a fresh reader over the header. */
  method ReadHeaderTables(reader: BinaryStream, version: int) returns (r: Result<HeaderTables, ArkError>)
    requires HeaderReader(reader) && reader.stream.position == 0
    modifies reader.stream
    ensures var spec := HeaderTablesAt(version, old(reader.stream.data));
      r.Ok? == spec.Ok? && (r.Ok? ==> r.value == spec.value.0 && reader.stream.position == spec.value.1)
    ensures r.Err? ==> r.error == ArkNotSupported
    ensures reader.stream.data == old(reader.stream.data)
  {
    var parts := ReadPartTable(reader);
    if parts.Err? {
      return Err(parts.error);
    }
    var names := ReadPartNames(reader, version);
    if names.Err? {
      return Err(names.error);
    }
    var strings := ParseStringBlob(reader);
    if strings.Err? {
      return Err(ArkNotSupported);
    }
    var indices := ParseStringIndices(reader);
    if indices.Err? {
      return Err(ArkNotSupported);
    }
    r := Ok(HeaderTables(parts.value, strings.value, indices.value));
  }
}
