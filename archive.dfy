/** The Milo archive container (core/grim/src/io/archive.rs): block-type magics, entry-size
  * probing by `ADDE` padding, the order entries are written in, and the block sizes recorded
  * when a directory is packed. */
module Archive {
  import opened Wrappers
  import opened Ints
  import opened Order
  import opened Stream

  const MAX_BLOCK_SIZE: nat := 0x20000
  const ADDE_PADDING: Bytes := [0xAD, 0xDE, 0xAD, 0xDE]
  /** The little-endian reading of the bytes 1F 8B 08 08 that open a gzip stream. */
  const GZIP_MAGIC: U32 := 0x0808_8B1F
  const DEFAULT_START_OFFSET: U32 := 2064

  datatype BlockType = TypeA | TypeB | TypeC | TypeD

  datatype BlockInfo = BlockInfo(blockType: BlockType, startOffset: U32, blockSizes: seq<nat>)

  datatype MiloArchiveStructure = Blocked(info: BlockInfo) | Gzip | Uncompressed

  datatype MiloArchive = MiloArchive(structure: MiloArchiveStructure, data: Bytes)

  datatype MiloBlockStructureError = UnsupportedCompression(magic: U32) | IOError

  /** An entry of an object directory in packed form (`PackedObject`): its name, its type name
    * and its serialized bytes. Names are the UTF-8 bytes of the source's `String`s. */
  datatype PackedObject = PackedObject(name: Bytes, objectType: Bytes, data: Bytes)

  /** `BlockInfo::new`. */
  function NewBlockInfo(): (b: BlockInfo)
    ensures b.blockType == TypeB && b.startOffset == 2064 && b.blockSizes == []
  {
    BlockInfo(TypeB, DEFAULT_START_OFFSET, [])
  }

  /** The block type a magic announces (`get_block_type_or_none`). Each of the four block
    * magics is the one `MagicOf` writes for its type; every other value is reported back. */
  function BlockTypeOfMagic(magic: U32): (r: Result<BlockType, MiloBlockStructureError>)
    ensures r.Ok? ==> MagicOf(r.value) == magic
    ensures r.Err? ==> r.error == UnsupportedCompression(magic)
  {
    match magic
    case 0xCABE_DEAF => Ok(TypeA)
    case 0xCBBE_DEAF => Ok(TypeB)
    case 0xCCBE_DEAF => Ok(TypeC)
    case 0xCDBE_DEAF => Ok(TypeD)
    case _ => Err(UnsupportedCompression(magic))
  }

  /** The magic `write_to_stream` writes for a block type; reading it back gives the type. */
  function MagicOf(t: BlockType): (magic: U32)
  {
    match t
    case TypeA => 0xCABE_DEAF
    case TypeB => 0xCBBE_DEAF
    case TypeC => 0xCCBE_DEAF
    case TypeD => 0xCDBE_DEAF
  }

  /** Reading back the magic written for a type gives the type; distinct types get distinct
    * magics, and no block magic is the gzip magic. */
  lemma MagicRoundTrip(s: BlockType, t: BlockType)
    ensures BlockTypeOfMagic(MagicOf(t)) == Ok(t)
    ensures MagicOf(s) == MagicOf(t) ==> s == t
    ensures MagicOf(s) != GZIP_MAGIC
  {
  }

  /** `get_block_type_or_none`: reads a `u32` magic; a failed read is `IOError`. */
  method GetBlockTypeOrNone(reader: BinaryStream) returns (r: Result<Option<BlockType>, MiloBlockStructureError>)
    modifies reader.stream
    ensures var m := ReadUnsignedAt(reader.endian, W32, old(reader.stream.data), old(reader.stream.position));
      r == if m.Err? then Err(IOError)
           else match BlockTypeOfMagic(m.value)
             case Ok(t) => Ok(Some(t))
             case Err(e) => Err(e)
    ensures reader.stream.data == old(reader.stream.data)
  {
    var magic := reader.ReadUnsigned(W32);
    if magic.Err? {
      return Err(IOError);
    }
    var t := BlockTypeOfMagic(magic.value);
    r := if t.Ok? then Ok(Some(t.value)) else Err(t.error);
  }

  // ---------------------------------------------------------------------------------------
  // Entry order

  /** The types `get_type_order_value` knows, each with its place in the order entries are
    * written in. */
  const TYPE_ORDER: seq<(Bytes, int)> := [
    (AsciiBytes("Tex"), 0), (AsciiBytes("Mat"), 1), (AsciiBytes("Font"), 2), (AsciiBytes("Text"), 3),
    (AsciiBytes("Mesh"), 4), (AsciiBytes("Blur"), 5), (AsciiBytes("Group"), 6), (AsciiBytes("View"), 6),
    (AsciiBytes("Trans"), 7)]

  /** The value of the first row of `table` for `objectType`, or 100 when there is none. */
  function OrderValueIn(table: seq<(Bytes, int)>, objectType: Bytes): int {
    if table == [] then 100
    else if table[0].0 == objectType then table[0].1
    else OrderValueIn(table[1..], objectType)
  }

  /** `get_type_order_value`: the type's place in the order; unknown types go last (100). */
  function TypeOrderValue(objectType: Bytes): int {
    OrderValueIn(TYPE_ORDER, objectType)
  }

  lemma {:induction false} OrderValueInFacts(table: seq<(Bytes, int)>, objectType: Bytes)
    requires forall i :: 0 <= i < |table| ==> table[i].1 != 100
    ensures OrderValueIn(table, objectType) == 100 <==> forall i :: 0 <= i < |table| ==> table[i].0 != objectType
    ensures OrderValueIn(table, objectType) != 100 ==>
      exists i :: 0 <= i < |table| && table[i] == (objectType, OrderValueIn(table, objectType))
  {
    if table != [] && table[0].0 != objectType {
      OrderValueInFacts(table[1..], objectType);
      if OrderValueIn(table, objectType) != 100 {
        var i :| 0 <= i < |table[1..]| && table[1..][i] == (objectType, OrderValueIn(table, objectType));
        assert table[i + 1] == table[1..][i];
      }
    } else if table != [] {
      assert table[0] == (objectType, OrderValueIn(table, objectType));
    }
  }

  /** A known type gets the value of its row, 0 to 7; any other type gets 100. */
  lemma TypeOrderValueFacts(objectType: Bytes)
    ensures TypeOrderValue(objectType) in {0, 1, 2, 3, 4, 5, 6, 7, 100}
    ensures TypeOrderValue(objectType) == 100 <==> forall i :: 0 <= i < |TYPE_ORDER| ==> TYPE_ORDER[i].0 != objectType
    ensures TypeOrderValue(objectType) != 100 ==> exists i :: 0 <= i < |TYPE_ORDER| && TYPE_ORDER[i] == (objectType, TypeOrderValue(objectType))
  {
    assert forall i :: 0 <= i < |TYPE_ORDER| ==> 0 <= TYPE_ORDER[i].1 <= 7;
    OrderValueInFacts(TYPE_ORDER, objectType);
  }

  /** `compare_entries_by_type_and_name`: by type order value, then by name. */
  function CompareEntries(a: PackedObject, b: PackedObject): (o: Ordering)
    ensures o == Equal <==> TypeOrderValue(a.objectType) == TypeOrderValue(b.objectType) && a.name == b.name
    ensures TypeOrderValue(a.objectType) < TypeOrderValue(b.objectType) ==> o == Less
    ensures TypeOrderValue(a.objectType) > TypeOrderValue(b.objectType) ==> o == Greater
  {
    CompareBytesEqual(a.name, b.name);
    match CompareInt(TypeOrderValue(a.objectType), TypeOrderValue(b.objectType))
    case Less => Less
    case Greater => Greater
    case Equal => CompareBytes(a.name, b.name)
  }

  lemma CompareEntriesFlip(a: PackedObject, b: PackedObject)
    ensures CompareEntries(b, a) == CompareEntries(a, b).Flip()
  {
    CompareBytesFlip(a.name, b.name);
  }

  lemma CompareEntriesTransitive(a: PackedObject, b: PackedObject, c: PackedObject)
    requires CompareEntries(a, b) != Greater && CompareEntries(b, c) != Greater
    ensures CompareEntries(a, c) != Greater
  {
    if TypeOrderValue(a.objectType) == TypeOrderValue(b.objectType) == TypeOrderValue(c.objectType) {
      CompareBytesTransitive(a.name, b.name, c.name);
    }
  }

  ghost predicate SortedEntries(s: seq<PackedObject>) {
    forall i, j :: 0 <= i < j < |s| ==> CompareEntries(s[i], s[j]) != Greater
  }

  /** Inserts `x` after every element that does not sort after it, which keeps equal
    * elements in their original order. */
  function InsertEntry(x: PackedObject, s: seq<PackedObject>): (r: seq<PackedObject>)
    ensures multiset(r) == multiset(s) + multiset{x}
  {
    if s == [] then [x]
    else if CompareEntries(x, s[0]) == Less then [x] + s
    else
      assert s == [s[0]] + s[1..];
      [s[0]] + InsertEntry(x, s[1..])
  }

  lemma {:induction false} InsertEntrySorted(x: PackedObject, s: seq<PackedObject>)
    requires SortedEntries(s)
    ensures SortedEntries(InsertEntry(x, s))
  {
    if s == [] {
    } else if CompareEntries(x, s[0]) == Less {
      forall j | 0 <= j < |s| ensures CompareEntries(x, s[j]) != Greater {
        if j > 0 { CompareEntriesTransitive(x, s[0], s[j]); }
      }
    } else {
      InsertEntrySorted(x, s[1..]);
      var r := InsertEntry(x, s);
      var t := InsertEntry(x, s[1..]);
      CompareEntriesFlip(x, s[0]);
      forall k | 0 <= k < |t| ensures CompareEntries(s[0], t[k]) != Greater {
        assert t[k] in multiset(t);
        if t[k] != x {
          assert t[k] in multiset(s[1..]);
          var j :| 0 <= j < |s[1..]| && s[1..][j] == t[k];
          assert s[j + 1] == t[k];
        }
      }
      assert r == [s[0]] + t;
    }
  }

  /** The stable sort `entries.sort_by(compare_entries_by_type_and_name)` performs: the result
    * is sorted by that comparison and is a permutation of the input. The insertion is stable
    * too, but stability, which only orders entries of equal type and name, is not stated. */
  function SortEntries(s: seq<PackedObject>): (r: seq<PackedObject>)
    ensures multiset(r) == multiset(s)
    ensures SortedEntries(r)
  {
    if s == [] then []
    else
      var init, last := s[..|s| - 1], s[|s| - 1];
      var sorted := SortEntries(init);
      InsertEntrySorted(last, sorted);
      MultisetSplitLast(s);
      InsertEntry(last, sorted)
  }

  lemma MultisetSplitLast<T>(s: seq<T>)
    requires s != []
    ensures multiset(s) == multiset(s[..|s| - 1]) + multiset{s[|s| - 1]}
  {
    assert s == s[..|s| - 1] + [s[|s| - 1]];
  }

  // ---------------------------------------------------------------------------------------
  // Packing a directory

  /** `Vec::swap_remove(0)`: the last element takes the place of the first. */
  function SwapRemoveFirst<T>(s: seq<T>): (r: seq<T>)
    requires |s| > 0
    ensures |r| == |s| - 1
    ensures multiset(r) + multiset{s[0]} == multiset(s)
  {
    if |s| == 1 then []
    else
      assert s == [s[0]] + s[1..|s| - 1] + [s[|s| - 1]];
      [s[|s| - 1]] + s[1..|s| - 1]
  }

  function SumNat(s: seq<nat>): nat {
    if s == [] then 0 else SumNat(s[..|s| - 1]) + s[|s| - 1]
  }

  /** Each entry's names, NUL-terminated and placed one after another, as a string table holds them. */
  function NameTable(names: seq<Bytes>): (t: Bytes) {
    if names == [] then [] else NameTable(names[..|names| - 1]) + names[|names| - 1] + [0]
  }

  function NameLengths(entries: seq<PackedObject>): (lens: seq<nat>)
    ensures |lens| == |entries|
    ensures forall i :: 0 <= i < |entries| ==> lens[i] == |entries[i].name| + 1
  {
    seq(|entries|, i requires 0 <= i < |entries| => |entries[i].name| + 1)
  }

  function Names(entries: seq<PackedObject>): (names: seq<Bytes>)
    ensures |names| == |entries|
    ensures forall i :: 0 <= i < |entries| ==> names[i] == entries[i].name
  {
    seq(|entries|, i requires 0 <= i < |entries| => entries[i].name)
  }

  /** The `blob_size` written for a version 24+ directory: the summed name lengths plus one
    * terminator each, the directory's own name included. */
  function BlobSize(entries: seq<PackedObject>, dirName: Bytes): nat {
    SumNat(NameLengths(entries)) + (|dirName| + 1)
  }

  /** `blob_size` is exactly the size of a string table holding the entry names and then the
    * directory name, each NUL-terminated. */
  lemma {:induction false} BlobSizeIsTableSize(entries: seq<PackedObject>, dirName: Bytes)
    ensures BlobSize(entries, dirName) == |NameTable(Names(entries) + [dirName])|
  {
    NameTableLength(entries);
    var names := Names(entries) + [dirName];
    assert names[..|names| - 1] == Names(entries);
  }

  lemma {:induction false} NameTableLength(entries: seq<PackedObject>)
    ensures |NameTable(Names(entries))| == SumNat(NameLengths(entries))
  {
    if entries != [] {
      var init := entries[..|entries| - 1];
      NameTableLength(init);
      assert Names(entries)[..|entries| - 1] == Names(init);
      assert NameLengths(entries)[..|entries| - 1] == NameLengths(init);
    }
  }

  /** The `hash_count` written for a version 24+ directory, for the entries other than the
    * directory itself; the `usize` value is written as a `u32`. */
  function HashCount(otherEntries: nat): (h: U32)
    ensures otherEntries < 0x7FFF_FFFF ==> h == 2 * (otherEntries + 1)
  {
    WrapU32((otherEntries + 1) * 2)
  }

  /** The running block size and the closed blocks after the first entries of the data loop of
    * `from_object_dir`: a block closes as soon as the running size reaches `MAX_BLOCK_SIZE`. */
  function SplitState(start: nat, sizes: seq<nat>): (st: (seq<nat>, nat))
  {
    if sizes == [] then ([], start)
    else
      var prev := SplitState(start, sizes[..|sizes| - 1]);
      var current := prev.1 + sizes[|sizes| - 1];
      if current >= MAX_BLOCK_SIZE then (prev.0 + [current], 0) else (prev.0, current)
  }

  lemma SplitStateStep(start: nat, sizes: seq<nat>, i: nat)
    requires i < |sizes|
    ensures SplitState(start, sizes[..i + 1]) ==
      var prev := SplitState(start, sizes[..i]);
      var current := prev.1 + sizes[i];
      if current >= MAX_BLOCK_SIZE then (prev.0 + [current], 0) else (prev.0, current)
  {
    assert sizes[..i + 1][..i] == sizes[..i];
  }

  /** The block sizes `from_object_dir` records: the closed blocks, then the non-empty remainder. */
  function SplitBlocks(start: nat, sizes: seq<nat>): seq<nat> {
    var st := SplitState(start, sizes);
    if st.1 > 0 then st.0 + [st.1] else st.0
  }

  lemma SumNatSnoc(s: seq<nat>, x: nat)
    ensures SumNat(s + [x]) == SumNat(s) + x
  {
    assert (s + [x])[..|s|] == s;
  }

  lemma {:induction false} SplitStateFacts(start: nat, sizes: seq<nat>)
    ensures SumNat(SplitState(start, sizes).0) + SplitState(start, sizes).1 == start + SumNat(sizes)
    ensures forall i :: 0 <= i < |SplitState(start, sizes).0| ==> SplitState(start, sizes).0[i] >= MAX_BLOCK_SIZE
    ensures sizes != [] ==> SplitState(start, sizes).1 < MAX_BLOCK_SIZE
  {
    if sizes != [] {
      var init := sizes[..|sizes| - 1];
      var last := sizes[|sizes| - 1];
      SplitStateFacts(start, init);
      var prev := SplitState(start, init);
      var current := prev.1 + last;
      assert SumNat(sizes) == SumNat(init) + last;
      if current >= MAX_BLOCK_SIZE {
        assert SplitState(start, sizes) == (prev.0 + [current], 0);
        SumNatSnoc(prev.0, current);
        assert forall i :: 0 <= i < |prev.0| ==> (prev.0 + [current])[i] == prev.0[i];
      } else {
        assert SplitState(start, sizes) == (prev.0, current);
      }
    }
  }

  /** The recorded block sizes add up to the bytes they cover, every block but the last is at
    * least `MAX_BLOCK_SIZE` long, and none is empty. */
  lemma SplitBlocksFacts(start: nat, sizes: seq<nat>)
    ensures SumNat(SplitBlocks(start, sizes)) == start + SumNat(sizes)
    ensures forall i :: 0 <= i < |SplitBlocks(start, sizes)| - 1 ==> SplitBlocks(start, sizes)[i] >= MAX_BLOCK_SIZE
    ensures forall i :: 0 <= i < |SplitBlocks(start, sizes)| ==> SplitBlocks(start, sizes)[i] > 0
  {
    SplitStateFacts(start, sizes);
    var st := SplitState(start, sizes);
    if st.1 > 0 {
      SumNatSnoc(st.0, st.1);
      assert SplitBlocks(start, sizes) == st.0 + [st.1];
      assert forall i :: 0 <= i < |st.0| ==> (st.0 + [st.1])[i] == st.0[i];
    } else {
      assert SplitBlocks(start, sizes) == st.0;
    }
  }

  /** An entry's type and name as two prefixed strings. */
  function EntryNames(e: Endian, entry: PackedObject): Bytes {
    PrefixedString(e, entry.objectType) + PrefixedString(e, entry.name)
  }

  /** The type and name of each entry, in order. */
  function EntryTable(e: Endian, entries: seq<PackedObject>): Bytes {
    if entries == [] then [] else EntryTable(e, entries[..|entries| - 1]) + EntryNames(e, entries[|entries| - 1])
  }

  lemma EntryTableStep(e: Endian, s: seq<PackedObject>, i: nat)
    requires i < |s|
    ensures EntryTable(e, s[..i + 1]) == EntryTable(e, s[..i]) + EntryNames(e, s[i])
  {
    assert s[..i + 1][..i] == s[..i];
  }

  lemma AppendAssoc(a: Bytes, b: Bytes, c: Bytes)
    ensures (a + b) + c == a + (b + c)
  {
  }

  lemma AppendAssoc4(d: Bytes, a: Bytes, b: Bytes, c: Bytes, e: Bytes)
    ensures (((d + a) + b) + c) + e == d + (((a + b) + c) + e)
  {
    AppendAssoc(d, a, b);
    AppendAssoc(d, a + b, c);
    AppendAssoc(d, (a + b) + c, e);
  }

  /** Each entry's data followed by `ADDE` padding, in order. */
  function EntryData(entries: seq<PackedObject>): Bytes {
    if entries == [] then [] else EntryData(entries[..|entries| - 1]) + (entries[|entries| - 1].data + ADDE_PADDING)
  }

  lemma EntryDataStep(s: seq<PackedObject>, i: nat)
    requires i < |s|
    ensures EntryData(s[..i + 1]) == EntryData(s[..i]) + (s[i].data + ADDE_PADDING)
  {
    assert s[..i + 1][..i] == s[..i];
  }

  /** Per entry, the number of bytes the data loop adds to the running size. */
  function EntrySizes(entries: seq<PackedObject>): (sizes: seq<nat>)
    ensures |sizes| == |entries|
    ensures forall i :: 0 <= i < |entries| ==> sizes[i] == |entries[i].data| + 4
  {
    seq(|entries|, i requires 0 <= i < |entries| => |entries[i].data| + 4)
  }

  lemma {:induction false} EntryDataLength(entries: seq<PackedObject>)
    ensures |EntryData(entries)| == SumNat(EntrySizes(entries))
  {
    if entries != [] {
      EntryDataLength(entries[..|entries| - 1]);
      assert EntrySizes(entries)[..|entries| - 1] == EntrySizes(entries[..|entries| - 1]);
    }
  }

  /** The entries written after the version, and the directory entry when there is one:
    * from version 24 on the first entry is the directory itself. */
  function DirectoryAndEntries(version: U32, entries: seq<PackedObject>): (r: Option<(Option<PackedObject>, seq<PackedObject>)>)
  {
    if version >= 24 then
      if entries == [] then None else Some((Some(entries[0]), SwapRemoveFirst(entries)))
    else if version == 10 then Some((None, entries))
    else None
  }

  /** The bytes before the first entry's data (what `current_size` starts from): the version,
    * from version 24 on the directory's type and name with the string-table sizes, the entry
    * count, each sorted entry's type and name, and then either the directory entry's data with
    * padding or, for version 10, a zero `u32`. */
  function HeaderBytes(version: U32, e: Endian, dir: Option<PackedObject>, rest: seq<PackedObject>): Bytes {
    Prologue(version, e, dir, rest) + EntryTable(e, SortEntries(rest)) + Epilogue(e, dir)
  }

  function Prologue(version: U32, e: Endian, dir: Option<PackedObject>, rest: seq<PackedObject>): Bytes {
    EncodeUnsigned(e, W32, version)
    + (if dir.Some? then
         PrefixedString(e, dir.value.objectType) + PrefixedString(e, dir.value.name)
         + EncodeUnsigned(e, W32, HashCount(|rest|))
         + EncodeUnsigned(e, W32, WrapU32(BlobSize(rest, dir.value.name)))
       else [])
    + EncodeUnsigned(e, W32, WrapU32(|rest|))
  }

  function Epilogue(e: Endian, dir: Option<PackedObject>): Bytes {
    if dir.Some? then dir.value.data + ADDE_PADDING else EncodeUnsigned(e, W32, 0)
  }

  /** Appends through the writer at the end of a writable stream. */
  method Append(writer: BinaryStream, d: Bytes)
    requires writer.stream.writable && writer.stream.position == |writer.stream.data|
    modifies writer.stream
    ensures writer.stream.data == old(writer.stream.data) + d
    ensures writer.stream.position == |writer.stream.data|
  {
    var r := writer.stream.WriteBytes(d);
    WriteAtEndAppends(old(writer.stream.data), d);
  }

  method AppendU32(writer: BinaryStream, v: U32)
    requires writer.stream.writable && writer.stream.position == |writer.stream.data|
    modifies writer.stream
    ensures writer.stream.data == old(writer.stream.data) + EncodeUnsigned(writer.endian, W32, v)
    ensures writer.stream.position == |writer.stream.data|
  {
    var r := writer.WriteUnsigned(W32, v);
    WriteAtEndAppends(old(writer.stream.data), EncodeUnsigned(writer.endian, W32, v));
  }

  method AppendPrefixed(writer: BinaryStream, s: Bytes)
    requires writer.stream.writable && writer.stream.position == |writer.stream.data|
    modifies writer.stream
    ensures writer.stream.data == old(writer.stream.data) + PrefixedString(writer.endian, s)
    ensures writer.stream.position == |writer.stream.data|
  {
    var r := writer.WritePrefixedString(s);
    WriteAtEndAppends(old(writer.stream.data), PrefixedString(writer.endian, s));
  }

  /** The header part of `from_object_dir`. */
  method WriteHeader(writer: BinaryStream, version: U32, dir: Option<PackedObject>, rest: seq<PackedObject>)
    returns (sorted: seq<PackedObject>)
    requires writer.stream.writable && writer.stream.position == |writer.stream.data|
    modifies writer.stream
    ensures sorted == SortEntries(rest)
    ensures writer.stream.data == old(writer.stream.data) + HeaderBytes(version, writer.endian, dir, rest)
    ensures writer.stream.position == |writer.stream.data|
  {
    ghost var e := writer.endian;
    ghost var d0 := writer.stream.data;
    WritePrologue(writer, version, dir, rest);
    sorted := SortEntries(rest);
    WriteEntryTable(writer, sorted);
    if dir.None? {
      AppendU32(writer, 0);
    } else {
      AppendEntryData(writer, dir.value);
    }
    AppendAssoc(d0, Prologue(version, e, dir, rest), EntryTable(e, sorted));
    AppendAssoc(d0, Prologue(version, e, dir, rest) + EntryTable(e, sorted), Epilogue(e, dir));
  }

  method WritePrologue(writer: BinaryStream, version: U32, dir: Option<PackedObject>, rest: seq<PackedObject>)
    requires writer.stream.writable && writer.stream.position == |writer.stream.data|
    modifies writer.stream
    ensures writer.stream.data == old(writer.stream.data) + Prologue(version, writer.endian, dir, rest)
    ensures writer.stream.position == |writer.stream.data|
  {
    ghost var e := writer.endian;
    ghost var d0 := writer.stream.data;
    AppendU32(writer, version);
    ghost var d1 := writer.stream.data;
    if dir.Some? {
      AppendStringTableHeader(writer, dir.value, rest);
    }
    ghost var x := writer.stream.data[|d1|..];
    assert writer.stream.data == d1 + x;
    AppendU32(writer, WrapU32(|rest|));
    AppendAssoc(d0, EncodeUnsigned(e, W32, version), x);
    AppendAssoc(d0, EncodeUnsigned(e, W32, version) + x, EncodeUnsigned(e, W32, WrapU32(|rest|)));
  }

  /** The directory's type and name and the two string-table values of a version 24+ header. */
  method AppendStringTableHeader(writer: BinaryStream, dir: PackedObject, rest: seq<PackedObject>)
    requires writer.stream.writable && writer.stream.position == |writer.stream.data|
    modifies writer.stream
    ensures writer.stream.data == old(writer.stream.data) +
      (PrefixedString(writer.endian, dir.objectType) + PrefixedString(writer.endian, dir.name)
       + EncodeUnsigned(writer.endian, W32, HashCount(|rest|))
       + EncodeUnsigned(writer.endian, W32, WrapU32(BlobSize(rest, dir.name))))
    ensures writer.stream.position == |writer.stream.data|
  {
    ghost var d0 := writer.stream.data;
    AppendPrefixed(writer, dir.objectType);
    AppendPrefixed(writer, dir.name);
    AppendU32(writer, HashCount(|rest|));
    AppendU32(writer, WrapU32(BlobSize(rest, dir.name)));
    AppendAssoc4(d0, PrefixedString(writer.endian, dir.objectType), PrefixedString(writer.endian, dir.name),
      EncodeUnsigned(writer.endian, W32, HashCount(|rest|)),
      EncodeUnsigned(writer.endian, W32, WrapU32(BlobSize(rest, dir.name))));
  }

  /** One entry's type and name, as two prefixed strings. */
  method AppendNames(writer: BinaryStream, entry: PackedObject)
    requires writer.stream.writable && writer.stream.position == |writer.stream.data|
    modifies writer.stream
    ensures writer.stream.data == old(writer.stream.data) + EntryNames(writer.endian, entry)
    ensures writer.stream.position == |writer.stream.data|
  {
    ghost var d0 := writer.stream.data;
    AppendPrefixed(writer, entry.objectType);
    AppendPrefixed(writer, entry.name);
    AppendAssoc(d0, PrefixedString(writer.endian, entry.objectType), PrefixedString(writer.endian, entry.name));
  }

  method WriteEntryTable(writer: BinaryStream, sorted: seq<PackedObject>)
    requires writer.stream.writable && writer.stream.position == |writer.stream.data|
    modifies writer.stream
    ensures writer.stream.data == old(writer.stream.data) + EntryTable(writer.endian, sorted)
    ensures writer.stream.position == |writer.stream.data|
  {
    ghost var e := writer.endian;
    ghost var tableStart := writer.stream.data;
    var i := 0;
    while i < |sorted|
      invariant 0 <= i <= |sorted|
      invariant writer.stream.writable && writer.stream.position == |writer.stream.data|
      invariant writer.stream.data == tableStart + EntryTable(e, sorted[..i])
    {
      ghost var before := writer.stream.data;
      AppendNames(writer, sorted[i]);
      EntryTableStep(e, sorted, i);
      AppendAssoc(tableStart, EntryTable(e, sorted[..i]), EntryNames(e, sorted[i]));
      i := i + 1;
    }
    assert sorted[..i] == sorted;
  }

  /** One entry's data followed by the padding. */
  method AppendEntryData(writer: BinaryStream, entry: PackedObject)
    requires writer.stream.writable && writer.stream.position == |writer.stream.data|
    modifies writer.stream
    ensures writer.stream.data == old(writer.stream.data) + (entry.data + ADDE_PADDING)
    ensures writer.stream.position == |writer.stream.data|
  {
    Append(writer, entry.data);
    Append(writer, ADDE_PADDING);
  }

  /** The data loop of `from_object_dir`: writes each entry with padding and records a block
    * whenever the running size, started at the header length, reaches `MAX_BLOCK_SIZE`. */
  method WriteEntries(writer: BinaryStream, sorted: seq<PackedObject>) returns (blockSizes: seq<nat>)
    requires writer.stream.writable && writer.stream.position == |writer.stream.data|
    modifies writer.stream
    ensures writer.stream.data == old(writer.stream.data) + EntryData(sorted)
    ensures blockSizes == SplitBlocks(|old(writer.stream.data)|, EntrySizes(sorted))
  {
    ghost var header := writer.stream.data;
    blockSizes := [];
    var currentSize := writer.stream.Len();
    var i := 0;
    while i < |sorted|
      invariant 0 <= i <= |sorted|
      invariant writer.stream.writable && writer.stream.position == |writer.stream.data|
      invariant writer.stream.data == header + EntryData(sorted[..i])
      invariant (blockSizes, currentSize) == SplitState(|header|, EntrySizes(sorted)[..i])
    {
      AppendEntryData(writer, sorted[i]);
      EntryDataStep(sorted, i);
      AppendAssoc(header, EntryData(sorted[..i]), sorted[i].data + ADDE_PADDING);
      SplitStateStep(|header|, EntrySizes(sorted), i);
      assert EntrySizes(sorted)[i] == |sorted[i].data| + 4;
      currentSize := currentSize + |sorted[i].data| + 4;
      if currentSize >= MAX_BLOCK_SIZE {
        blockSizes := blockSizes + [currentSize];
        currentSize := 0;
      }
      i := i + 1;
    }
    assert sorted[..i] == sorted;
    assert EntrySizes(sorted)[..i] == EntrySizes(sorted);
    if currentSize > 0 {
      blockSizes := blockSizes + [currentSize];
    }
  }

  /** `from_object_dir` for a directory whose entries are all packed, with the version and
    * byte order of its `SystemInfo`. From version 24 on the first entry is the directory
    * itself; versions other than 10 below 24, and an empty version 24+ directory, panic in
    * the source (an `unwrap` of `None` and `swap_remove` on an empty vector). The data is the
    * header followed by each sorted entry with `ADDE` padding, and the block sizes cover
    * exactly that data. */
  method FromObjectDir(entries: seq<PackedObject>, version: U32, endian: Endian, blockType: Option<BlockType>)
    returns (r: Option<MiloArchive>)
    ensures r.None? <==> DirectoryAndEntries(version, entries).None?
    ensures r.Some? ==>
      var (dir, rest) := DirectoryAndEntries(version, entries).value;
      var header := HeaderBytes(version, endian, dir, rest);
      && r.value.data == header + EntryData(SortEntries(rest))
      && r.value.structure == Blocked(BlockInfo(
           if blockType.Some? then blockType.value else TypeB, 2064,
           SplitBlocks(|header|, EntrySizes(SortEntries(rest)))))
    ensures r.Some? ==> SumNat(r.value.structure.info.blockSizes) == |r.value.data|
  {
    var split := DirectoryAndEntries(version, entries);
    if split.None? {
      return None;
    }
    var dir := split.value.0;
    var rest := split.value.1;
    var stream := new MemoryStream.FromVectorAsReadWrite([]);
    var writer := new BinaryStream.FromStreamWithEndian(stream, endian);
    var sorted := WriteHeader(writer, version, dir, rest);
    ghost var header := stream.data;
    assert [] + HeaderBytes(version, endian, dir, rest) == HeaderBytes(version, endian, dir, rest);
    assert header == HeaderBytes(version, endian, dir, rest);
    var blockSizes := WriteEntries(writer, sorted);
    assert stream.data == header + EntryData(sorted);
    var bt := if blockType.Some? then blockType.value else TypeB;
    r := Some(MiloArchive(Blocked(BlockInfo(bt, DEFAULT_START_OFFSET, blockSizes)), stream.data));
    SplitBlocksFacts(|header|, EntrySizes(sorted));
    EntryDataLength(sorted);
  }

  // ---------------------------------------------------------------------------------------
  // Probing an entry's size and the version

  /** A probe after `ADDE` padding that marks the end of an entry: an `i32` in 0..=0xFF. */
  predicate EndsEntry(probe: Result<int, StreamError>) {
    probe.Ok? && 0 <= probe.value <= 0xFF
  }

  /** What `guess_entry_size` finds when the search for `ADDE` padding resumes at `p`: the
    * size up to a padding that ends the stream or is followed by an `i32` in 0..=0xFF, `None`
    * once no padding is left, and an error when a probe cannot be read (or, as in the
    * source's `stream_len - needle_len`, the stream is shorter than the padding). */
  function EntrySizeFrom(e: Endian, data: Bytes, start: nat, p: nat): (r: Result<Option<nat>, StreamError>)
    requires start <= p
    decreases |data| - p
    ensures |data| < 4 ==> r == Err(NeedleTooLong)
  {
    if |data| < |ADDE_PADDING| then Err(NeedleTooLong)
    else match FindFrom(data, ADDE_PADDING, p)
      case None => Ok(None)
      case Some(q) =>
        var pos := q + 4;
        if pos >= |data| then Ok(Some(pos - (start + 4)))
        else match ReadSignedAt(e, W32, data, pos)
          case Err(err) => Err(err)
          case Ok(magic) =>
            if 0 <= magic <= 0xFF then Ok(Some(pos - (start + 4)))
            else EntrySizeFrom(e, data, start, pos)
  }

  /** The paddings the search from `p` stops at: the first at or after `p`, then those the
    * search finds when it resumes 4 bytes past a padding. */
  ghost predicate SearchStops(data: Bytes, p: nat, q: nat)
    decreases |data| - p
  {
    match FindFrom(data, ADDE_PADDING, p)
    case None => false
    case Some(f) => q == f || (f < q && SearchStops(data, f + 4, q))
  }

  lemma {:induction false} StopsArePadding(data: Bytes, p: nat, q: nat)
    requires SearchStops(data, p, q)
    decreases |data| - p
    ensures p <= q && MatchAt(data, ADDE_PADDING, q)
  {
    var f := FindFrom(data, ADDE_PADDING, p).value;
    if q != f {
      StopsArePadding(data, f + 4, q);
    }
  }

  /** A stop whose probe (the `i32` after it) is there and does not end an entry, so the search
    * goes on past it. */
  ghost predicate PassesOn(e: Endian, data: Bytes, q: nat) {
    q + 4 < |data| && ReadSignedAt(e, W32, data, q + 4).Ok? && !EndsEntry(ReadSignedAt(e, W32, data, q + 4))
  }

  /** The stops from `p`: the first padding, then the stops from 4 bytes past it. */
  lemma StopsUnfold(data: Bytes, p: nat, f: nat, q: nat)
    requires FindFrom(data, ADDE_PADDING, p) == Some(f)
    ensures SearchStops(data, p, q) <==> q == f || (f < q && SearchStops(data, f + 4, q))
  {
  }

  /** No stop comes before the first padding. */
  lemma StopsFromFirst(data: Bytes, p: nat, f: nat)
    requires FindFrom(data, ADDE_PADDING, p) == Some(f)
    ensures forall q: nat :: SearchStops(data, p, q) ==> f <= q
  {
    forall q: nat | SearchStops(data, p, q)
      ensures f <= q
    {
      StopsUnfold(data, p, f, q);
    }
  }

  /** If the search goes on past the first padding and past every later stop below `b`, it
    * goes on past every stop from `p` below `b`. */
  lemma StopsPassOn(e: Endian, data: Bytes, p: nat, f: nat, b: nat)
    requires FindFrom(data, ADDE_PADDING, p) == Some(f) && PassesOn(e, data, f)
    requires forall q: nat :: SearchStops(data, f + 4, q) && q < b ==> PassesOn(e, data, q)
    ensures forall q: nat :: SearchStops(data, p, q) && q < b ==> PassesOn(e, data, q)
  {
    forall q: nat | SearchStops(data, p, q) && q < b
      ensures PassesOn(e, data, q)
    {
      StopsUnfold(data, p, f, q);
    }
  }

  /** The search resumes 4 bytes past a padding it goes on past. */
  lemma EntrySizeSkip(e: Endian, data: Bytes, start: nat, p: nat, f: nat)
    requires start <= p && |data| >= 4 && FindFrom(data, ADDE_PADDING, p) == Some(f) && PassesOn(e, data, f)
    ensures EntrySizeFrom(e, data, start, p) == EntrySizeFrom(e, data, start, f + 4)
  {
  }

  /** Otherwise the round ends at that padding. */
  lemma EntrySizeStop(e: Endian, data: Bytes, start: nat, p: nat, f: nat)
    requires start <= p && |data| >= 4 && FindFrom(data, ADDE_PADDING, p) == Some(f) && !PassesOn(e, data, f)
    ensures EntrySizeFrom(e, data, start, p).Ok? ==> EntrySizeFrom(e, data, start, p) == Ok(Some(f - start))
  {
  }

  /** A size found by `guess_entry_size` ends at a padding the search stops at, that padding
    * ends the stream or is followed by an `i32` in 0..=0xFF, and the search went on past every
    * stop before it. */
  lemma {:induction false} EntrySizeSound(e: Endian, data: Bytes, start: nat, p: nat, n: nat)
    requires start <= p && EntrySizeFrom(e, data, start, p) == Ok(Some(n))
    decreases |data| - p
    ensures p <= start + n && MatchAt(data, ADDE_PADDING, start + n) && SearchStops(data, p, start + n)
    ensures start + n + 4 < |data| ==> EndsEntry(ReadSignedAt(e, W32, data, start + n + 4))
    ensures forall q: nat :: SearchStops(data, p, q) && q < start + n ==> PassesOn(e, data, q)
  {
    var f := FindFrom(data, ADDE_PADDING, p).value;
    if PassesOn(e, data, f) {
      EntrySizeSkip(e, data, start, p, f);
      EntrySizeSound(e, data, start, f + 4, n);
      StopsPassOn(e, data, p, f, start + n);
      StopsUnfold(data, p, f, start + n);
    } else {
      EntrySizeStop(e, data, start, p, f);
      StopsFromFirst(data, p, f);
      StopsUnfold(data, p, f, f);
    }
  }

  /** No size is found exactly when the stream holds the padding's length and the search goes
    * on past every padding it stops at (so it runs out of padding). */
  lemma {:induction false} EntrySizeNone(e: Endian, data: Bytes, start: nat, p: nat)
    requires start <= p
    decreases |data| - p
    ensures EntrySizeFrom(e, data, start, p) == Ok(None) <==>
      |data| >= 4 && forall q: nat :: SearchStops(data, p, q) ==> PassesOn(e, data, q)
  {
    if |data| >= 4 && FindFrom(data, ADDE_PADDING, p).Some? {
      var f := FindFrom(data, ADDE_PADDING, p).value;
      if PassesOn(e, data, f) {
        EntrySizeSkip(e, data, start, p, f);
        EntrySizeNone(e, data, start, f + 4);
        StopsAllPass(e, data, p, f);
      } else {
        EntrySizeStop(e, data, start, p, f);
        StopsUnfold(data, p, f, f);
      }
    }
  }

  /** Past a padding the search goes on past, every stop passes on exactly when every stop from
    * 4 bytes past it does. */
  lemma StopsAllPass(e: Endian, data: Bytes, p: nat, f: nat)
    requires FindFrom(data, ADDE_PADDING, p) == Some(f) && PassesOn(e, data, f)
    ensures (forall q: nat :: SearchStops(data, p, q) ==> PassesOn(e, data, q))
      <==> (forall q: nat :: SearchStops(data, f + 4, q) ==> PassesOn(e, data, q))
  {
    forall q: nat | SearchStops(data, f + 4, q)
      ensures SearchStops(data, p, q)
    {
      StopsArePadding(data, f + 4, q);
      StopsUnfold(data, p, f, q);
    }
    forall q: nat | SearchStops(data, p, q)
      ensures q == f || SearchStops(data, f + 4, q)
    {
      StopsUnfold(data, p, f, q);
    }
  }

  /** The search for padding finds it where it is, and moves on where a byte differs. */
  lemma FindHere(data: Bytes, p: nat)
    requires MatchAt(data, ADDE_PADDING, p)
    ensures FindFrom(data, ADDE_PADDING, p) == Some(p)
  {
  }

  lemma FindPast(data: Bytes, p: nat, i: nat)
    requires p + 4 <= |data| && i < 4 && data[p + i] != ADDE_PADDING[i]
    ensures FindFrom(data, ADDE_PADDING, p) == FindFrom(data, ADDE_PADDING, p + 1)
  {
    assert data[p..p + 4][i] == data[p + i];
  }

  /** The padding may overlap itself, and the search resumes 4 bytes past a padding: here the
    * padding at 2, followed by the `i32` 5, is skipped, and the size found is 10. */
  lemma OverlappingPaddingSkipped(data: Bytes)
    requires data == OVERLAP_SAMPLE
    ensures MatchAt(data, ADDE_PADDING, 2) && ReadSignedAt(Little, W32, data, 6) == Ok(5)
    ensures EntrySizeFrom(Little, data, 0, 0) == Ok(Some(10))
  {
    OverlapSkipped(data);
    OverlapFirst(data);
    OverlapSecond(data);
    EntrySizeSkip(Little, data, 0, 0, 0);
    EntrySizeAtEnd(Little, data, 0, 4, 10);
  }

  const OVERLAP_SAMPLE: Bytes := [0xAD, 0xDE, 0xAD, 0xDE, 0xAD, 0xDE, 5, 0, 0, 0, 0xAD, 0xDE, 0xAD, 0xDE]

  lemma OverlapSkipped(data: Bytes)
    requires data == OVERLAP_SAMPLE
    ensures MatchAt(data, ADDE_PADDING, 2) && ReadSignedAt(Little, W32, data, 6) == Ok(5)
  {
    assert data[2..6] == ADDE_PADDING;
    assert data[6..10] == [5, 0, 0, 0];
    assert DecodeSigned(Little, W32, [5, 0, 0, 0]) == 5;
  }

  lemma OverlapFirst(data: Bytes)
    requires data == OVERLAP_SAMPLE
    ensures FindFrom(data, ADDE_PADDING, 0) == Some(0) && PassesOn(Little, data, 0)
  {
    assert data[0..4] == ADDE_PADDING;
    FindHere(data, 0);
    assert data[4..8] == [0xAD, 0xDE, 5, 0];
    assert DecodeSigned(Little, W32, [0xAD, 0xDE, 5, 0]) == 0x05DEAD;
  }

  lemma OverlapSecond(data: Bytes)
    requires data == OVERLAP_SAMPLE
    ensures FindFrom(data, ADDE_PADDING, 4) == Some(10)
  {
    OverlapSecondFrom4(data);
    OverlapSecondFrom7(data);
  }

  lemma OverlapSecondFrom4(data: Bytes)
    requires data == OVERLAP_SAMPLE
    ensures FindFrom(data, ADDE_PADDING, 4) == FindFrom(data, ADDE_PADDING, 7)
  {
    assert |data| == 14 && data[6] == 5 && data[5] == 0xDE;
    FindPast(data, 4, 2);
    FindPast(data, 5, 0);
    FindPast(data, 6, 0);
  }

  lemma OverlapSecondFrom7(data: Bytes)
    requires data == OVERLAP_SAMPLE
    ensures FindFrom(data, ADDE_PADDING, 7) == Some(10)
  {
    assert |data| == 14 && data[7] == 0 && data[8] == 0 && data[9] == 0;
    FindPast(data, 7, 0);
    FindPast(data, 8, 0);
    FindPast(data, 9, 0);
    assert data[10..14] == ADDE_PADDING;
    FindHere(data, 10);
  }

  /** The cases of one round of `guess_entry_size`, one lemma per way the round ends. */
  lemma EntrySizeNoPadding(e: Endian, data: Bytes, start: nat, p: nat)
    requires start <= p && |data| >= 4 && FindFrom(data, ADDE_PADDING, p).None?
    ensures EntrySizeFrom(e, data, start, p) == Ok(None)
  {
  }

  lemma EntrySizeAtEnd(e: Endian, data: Bytes, start: nat, p: nat, q: nat)
    requires start <= p && |data| >= 4 && FindFrom(data, ADDE_PADDING, p) == Some(q) && q + 4 >= |data|
    ensures EntrySizeFrom(e, data, start, p) == Ok(Some(q - start))
  {
  }

  lemma EntrySizeBadRead(e: Endian, data: Bytes, start: nat, p: nat, q: nat)
    requires start <= p && |data| >= 4 && FindFrom(data, ADDE_PADDING, p) == Some(q) && q + 4 < |data|
    requires ReadSignedAt(e, W32, data, q + 4).Err?
    ensures EntrySizeFrom(e, data, start, p) == Err(ReadSignedAt(e, W32, data, q + 4).error)
  {
  }

  lemma EntrySizeMagic(e: Endian, data: Bytes, start: nat, p: nat, q: nat, m: int)
    requires start <= p && |data| >= 4 && FindFrom(data, ADDE_PADDING, p) == Some(q) && q + 4 < |data|
    requires ReadSignedAt(e, W32, data, q + 4) == Ok(m)
    ensures 0 <= m <= 0xFF ==> EntrySizeFrom(e, data, start, p) == Ok(Some(q - start))
    ensures !(0 <= m <= 0xFF) ==> EntrySizeFrom(e, data, start, p) == EntrySizeFrom(e, data, start, q + 4)
  {
  }

  /** One round of the `guess_entry_size` loop: either the answer for the search from the
    * cursor (`done`), or the cursor moved past the padding it found, the answer unchanged. */
  method GuessRound(reader: BinaryStream, start: nat) returns (done: bool, r: Result<Option<nat>, StreamError>)
    requires |reader.stream.data| < U64_LIMIT && start <= reader.stream.position < U64_LIMIT
    modifies reader.stream
    ensures reader.stream.data == old(reader.stream.data)
    ensures done ==> r == EntrySizeFrom(reader.endian, old(reader.stream.data), start, old(reader.stream.position))
    ensures !done ==>
      && old(reader.stream.position) < reader.stream.position <= |reader.stream.data|
      && EntrySizeFrom(reader.endian, reader.stream.data, start, reader.stream.position)
         == EntrySizeFrom(reader.endian, reader.stream.data, start, old(reader.stream.position))
  {
    ghost var e := reader.endian;
    ghost var data := reader.stream.data;
    ghost var p := reader.stream.position;
    var found := reader.SeekUntil(ADDE_PADDING);
    if found.Err? {
      return true, Err(found.error);
    }
    if found.value.None? {
      EntrySizeNoPadding(e, data, start, p);
      return true, Ok(None);
    }
    ghost var q := reader.stream.position;
    assert FindFrom(data, ADDE_PADDING, p) == Some(q);
    reader.stream.Seek(Current(4));
    assert reader.stream.position == q + 4;
    if reader.stream.position >= reader.stream.Len() {
      EntrySizeAtEnd(e, data, start, p, q);
      return true, Ok(Some(reader.stream.position - (start + 4)));
    }
    var magic := reader.ReadSigned(W32);
    if magic.Err? {
      EntrySizeBadRead(e, data, start, p, q);
      return true, Err(magic.error);
    }
    reader.stream.Seek(Current(-4));
    assert reader.stream.position == q + 4;
    EntrySizeMagic(e, data, start, p, q, magic.value);
    if 0 <= magic.value <= 0xFF {
      return true, Ok(Some(reader.stream.position - (start + 4)));
    }
    return false, Ok(None);
  }

  /** `guess_entry_size`: the distance from the cursor to the padding that closes the entry
    * there, with the cursor put back where it started. */
  method GuessEntrySize(reader: BinaryStream) returns (r: Result<Option<nat>, StreamError>)
    requires |reader.stream.data| < U64_LIMIT && reader.stream.position < U64_LIMIT
    modifies reader.stream
    ensures r == EntrySizeFrom(reader.endian, old(reader.stream.data), old(reader.stream.position), old(reader.stream.position))
    ensures reader.stream.data == old(reader.stream.data)
    ensures r.Ok? ==> reader.stream.position == old(reader.stream.position)
  {
    ghost var e := reader.endian;
    ghost var data := reader.stream.data;
    var start: U64 := reader.stream.position;
    var done := false;
    r := Ok(None);
    while !done
      invariant reader.stream.data == data && reader.endian == e
      invariant !done ==> start <= reader.stream.position < U64_LIMIT
      invariant !done ==> EntrySizeFrom(e, data, start, reader.stream.position) == EntrySizeFrom(e, data, start, start)
      invariant done ==> r == EntrySizeFrom(e, data, start, start)
      decreases !done, |data| - reader.stream.position
    {
      done, r := GuessRound(reader, start);
    }
    if r.Ok? {
      reader.stream.Seek(Start(start));
    }
  }

  /** `guess_endian_version`: the first four bytes read big-endian, unless that value is above
    * 32, in which case they are read little-endian. */
  function GuessEndianVersion(data: Bytes): (r: Option<(Endian, U32)>)
    ensures r.None? <==> |data| < 4
    ensures r.Some? ==> r.value.1 == DecodeUnsigned(r.value.0, data[..4])
    ensures r.Some? ==> (r.value.0 == Big <==> DecodeUnsigned(Big, data[..4]) <= 32)
  {
    if |data| < 4 then None
    else
      var be := DecodeUnsigned(Big, data[..4]);
      if be > 32 then Some((Little, DecodeUnsigned(Little, data[..4]))) else Some((Big, be))
  }

  /** `get_version`: the first four bytes in the given byte order. */
  function GetVersion(data: Bytes, e: Endian): (r: Option<U32>)
    ensures r.None? <==> |data| < 4
  {
    if |data| < 4 then None else Some(DecodeUnsigned(e, data[..4]))
  }

  /** `get_version` with the byte order `guess_endian_version` chose gives the guessed version. */
  lemma GetVersionAgreesWithGuess(data: Bytes)
    ensures GuessEndianVersion(data).Some? ==>
      GetVersion(data, GuessEndianVersion(data).value.0) == Some(GuessEndianVersion(data).value.1)
  {
  }

  /** A version of at most 32 written in either byte order is guessed back, with its byte
    * order whenever the version is not 0 (a 0 reads the same both ways), and `get_version`
    * with the guessed order agrees. */
  lemma GuessRecoversVersion(e: Endian, v: U32, rest: Bytes)
    requires v <= 32
    ensures var data := EncodeUnsigned(e, W32, v) + rest;
      && GuessEndianVersion(data) == Some((if v == 0 then Big else e, v))
      && GetVersion(data, if v == 0 then Big else e) == Some(v)
  {
    var data := EncodeUnsigned(e, W32, v) + rest;
    assert data[..4] == EncodeUnsigned(e, W32, v);
    assert LeBytes(v, 4) == [v, 0, 0, 0] by {
      assert LeBytes(0, 1) == [0];
    }
    assert Reverse([v, 0, 0, 0]) == [0, 0, 0, v];
    assert FromLe([0, 0, 0, v]) == v * 0x100_0000 by {
      assert [v][1..] == [];
      assert FromLe([v]) == v;
      assert [0, v][1..] == [v];
      assert FromLe([0, v]) == 0x100 * v;
      assert [0, 0, v][1..] == [0, v];
      assert FromLe([0, 0, v]) == 0x1_0000 * v;
      assert [0, 0, 0, v][1..] == [0, 0, v];
    }
    assert FromLe([v, 0, 0, 0]) == v by {
      assert [v, 0, 0, 0][1..] == [0, 0, 0];
      assert [0, 0, 0][1..] == [0, 0];
      assert [0, 0][1..] == [0];
      assert [0][1..] == [];
    }
    ReverseReverse([v, 0, 0, 0]);
  }
}
