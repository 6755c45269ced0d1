# grim core in Dafny

grim is a toolkit for the Milo engine's file formats. This project models its core:

- **Binary stream** (`stream.dfy`, `ints.dfy`, `utf8.dfy`): an in-memory byte buffer with a cursor. It covers reads, writes that overwrite or zero-extend, seeks, endian-aware integers, booleans, length-prefixed and null-terminated strings (which must be valid UTF-8), and `seek_until`.
- **Milo archive** (`archive.dfy`, `order.dfy`): block-type magics and their inverse, the type-order table, and the entry ordering. It also models the probe `guess_entry_size` makes for the `ADDE` padding, the header and block sizing done by `from_object_dir`, and endian/version guessing.
- **Ark header** (`ark.dfy`): supported versions and part ranges. It also parses the string blob and string-index table, builds file entries and joins their paths, and maps an offset to the part that holds it.
- **DTA trees** (`dta.dfy`, `dta_io.dfy`, `dta_parser.dfy`):
  - the node codes;
  - symbol lookup;
  - the binary node codec with its array-id counter (save then load round-trips);
  - the text tokenizer for comments, integers, hex, floats, variables, symbols, strings and arrays.
- **MIDI** (`midi.dfy`, `midi_file.dfy`, `midi_io.dfy`, `midi_write.dfy`):
  - track sorting with the derived tie-break;
  - tempo lookup by the stepping navigator;
  - merging tracks by name;
  - pairing note-on and note-off into notes;
  - writing the tempo track and note tracks as delta-timed events.
- **P9 anim events** (`helpers.dfy`): the property/values text format.
- **Textures** (`texture_common.dfy`, `texture_io.dfy`): RGB565 and index unpacking, colour mixing, 4x4 block copies, byte-pair swapping, mip sizes, PS2 palettised bitmaps and alpha conversion.
- **Scene objects**:
  - char-bone sample sizes (`char_bones.dfy`);
  - lipsync frames (`lipsync.dfy`);
  - class-name fixes for old object directories (`object_dir.dfy`);
  - property-animation key types (`prop_anim.dfy`).
- **Audio**:
  - IMA ADPCM decoding (`adpcm.dfy`);
  - STR de-interleaving (`str_audio.dfy`);
  - the VGS header and block layout (`vgs.dfy`);
  - RIFF/XMA chunk building (`xma.dfy`).
- **glTF** (`gltf.dfy`): the accessor builder, which packs data into buffer views as section 3.6 "Binary Data Storage" of the glTF 2.0 specification describes.
- **Platform rules** (`system.dfy`): platform from file extension, system info, next-gen and revision.

`wrappers.dfy` holds `Option` and `Result`.

### Modelling conventions

- Bytes are integers in 0..255.
- The fixed-width integers are subset types, and any wrap-around is written out.
- Objects the source updates in place are classes. These are the memory stream, the binary stream, the ADPCM decoder, the glTF accessor builder, the MIDI file, the tempo navigator, the Ark and the DTA root. Buffers that are filled in place are arrays.
- Each class method is specified against a function on values. The lemmas state the properties of those functions.

## Model

| member | source | states |
|---|---|---|
| Ints.UnsignedRoundTrip | core/grim/src/io/stream.rs:437-455 | decoding the bytes an unsigned value was encoded to, with the same byte order, gives the value back |
| Ints.UnsignedRoundTripBytes | core/grim/src/io/stream.rs:427-465 | encoding the value decoded from bytes of the width's size gives those bytes back |
| Ints.SignedRoundTrip | core/grim/src/io/stream.rs:386-424 | the same round trip for signed values through two's complement |
| Ints.BigIsReversedLittle | core/grim/src/io/stream.rs:447-455 | the big-endian bytes of a value are its little-endian bytes reversed |
| Ints.FromLeLeBytes | core/grim/src/io/stream.rs:447-455 | reading n little-endian bytes of a value below 256^n gives the value |
| Ints.WrapI32 | core/grim/src/io/stream.rs:639-646 | `as i32` keeps the low 32 bits as a two's-complement value: the result is in the i32 range, congruent to the input, and unchanged when the input is already in range |
| Ints.WrapU64 | core/grim/src/io/stream.rs:164-171 | `as u64` leaves values in the u64 range unchanged |
| Utf8.AsciiIsUtf8 | core/grim/src/io/stream.rs:499-521 | ASCII bytes are well-formed UTF-8, so `String::from_utf8` accepts them |
| Stream.ReadAt | core/grim/src/io/stream.rs:86-94 | `read_bytes(length)` succeeds exactly when `length` bytes are left at the cursor, and gives exactly those bytes |
| Stream.WriteAt | core/grim/src/io/stream.rs:105-136 | the data after `write_bytes`: its length is the old length, or the end of the write when the write runs past the end |
| Stream.WriteAtContents | core/grim/src/io/stream.rs:105-136 | byte by byte, the bytes before the cursor are kept, the written bytes follow, and the old bytes after them are kept |
| Stream.WriteAtEndAppends | core/grim/src/io/stream.rs:112-114 | a write at the end of the data appends |
| Stream.OverwriteIsWriteAt | core/grim/src/io/stream.rs:115-131 | zero-extending the vector and then overwriting in place gives the same data as the write |
| Stream.ReadAfterWrite | core/grim/src/io/stream.rs:86-136 | reading back the range just written gives the written bytes |
| Stream.WriteAtConcat | core/grim/src/io/stream.rs:105-136 | two consecutive writes equal one write of the concatenation |
| Stream.SeekTarget | core/grim/src/io/stream.rs:164-171 | `Start` sets the cursor to the absolute offset; `End` and `Current` add the offset to the length or the cursor, wrapped to u64 |
| Stream.MemoryStream.New | core/grim/src/io/stream.rs:43-49 | an empty, writable stream at position 0 |
| Stream.MemoryStream.FromSliceAsRead | core/grim/src/io/stream.rs:59-65 | a read-only stream over the given bytes at position 0 |
| Stream.MemoryStream.FromVectorAsReadWrite | core/grim/src/io/stream.rs:51-57 | a writable stream over the given bytes at position 0 |
| Stream.MemoryStream.ReadBytes | core/grim/src/io/stream.rs:86-94 | returns `ReadAt` of the data at the cursor, leaves the data alone, and advances the cursor by `length` only on success |
| Stream.MemoryStream.ReadBytesIntoSlice | core/grim/src/io/stream.rs:96-103 | fills the whole buffer with the bytes at the cursor when they are all there, and advances by the buffer length |
| Stream.MemoryStream.WriteBytes | core/grim/src/io/stream.rs:105-136 | fails on a read-only stream or a cursor past the end, changing nothing; otherwise the data becomes `WriteAt` of the old data and the cursor advances by the data length |
| Stream.MemoryStream.Seek | core/grim/src/io/stream.rs:164-171 | the cursor becomes `SeekTarget` of the old cursor and length; the data is unchanged |
| Stream.ReadUnsignedAt | core/grim/src/io/stream.rs:427-465 | `read_uint*` succeeds exactly when the width's bytes are there, and the value is below 2^(8*size) |
| Stream.ReadSignedAt | core/grim/src/io/stream.rs:386-424 | `read_int*` succeeds exactly when the width's bytes are there, and the value is in the signed range |
| Stream.ReadUnsignedWindow | core/grim/src/io/stream.rs:427-465 | data holding the encoding of a value at the cursor reads back as that value |
| Stream.ReadSignedWindow | core/grim/src/io/stream.rs:386-424 | the same for signed values |
| Stream.UnsignedWriteRead | core/grim/src/io/stream.rs:574-608 | writing an unsigned value and reading it back at the same place gives the value |
| Stream.PrefixedString | core/grim/src/io/stream.rs:639-646 | the bytes written are a 4-byte length followed by the string itself |
| Stream.ReadPrefixedAt | core/grim/src/io/stream.rs:499-505 | a prefixed read gives the bytes right after the 4-byte length, ends at their end within the data, and gives only well-formed UTF-8 |
| Stream.ReadPrefixedInvalid | core/grim/src/io/stream.rs:499-505 | the read fails as `InvalidUtf8` exactly when the length is there and non-negative, all its bytes are there, and they are not UTF-8 |
| Stream.ReadPrefixedOk | core/grim/src/io/stream.rs:499-505 | a non-negative length and that many UTF-8 bytes after it are read as the string, with the cursor after it |
| Stream.PrefixedRoundTrip | core/grim/src/io/stream.rs:499-505 | writing a UTF-8 string shorter than 2^31 bytes with its prefix and reading at the same place gives the string and the cursor after it |
| Stream.FirstZero | core/grim/src/io/stream.rs:507-521 | the index of the first 0 at or after the cursor, or none when there is no 0 |
| Stream.ReadNullTerminatedAt | core/grim/src/io/stream.rs:507-521 | fails with `OutOfRange` exactly when no 0 follows the cursor; otherwise gives the bytes before the first 0 (which hold no 0 and are UTF-8) and the cursor just past the 0 |
| Stream.ReadNullTerminatedInvalid | core/grim/src/io/stream.rs:507-521 | the read fails as `InvalidUtf8` exactly when a 0 follows but the bytes before it are not UTF-8 |
| Stream.NotUtf8Example | core/grim/src/io/stream.rs:499-521 | the byte 0xFF alone is refused by both string reads |
| Stream.FindFrom | core/grim/src/io/stream.rs:346-369 | the first position at or after the start where the needle occurs, or none when it occurs nowhere after the start |
| Stream.BinaryStream.FromStream | core/grim/src/io/stream.rs:327-332 | wraps the stream, little-endian |
| Stream.BinaryStream.FromStreamWithEndian | core/grim/src/io/stream.rs:334-339 | wraps the stream with the given byte order |
| Stream.BinaryStream.SetEndian | core/grim/src/io/stream.rs:372-374 | changes the byte order only |
| Stream.BinaryStream.ReadUnsigned | core/grim/src/io/stream.rs:427-465 | returns `ReadUnsignedAt` at the cursor with the stream's byte order, and advances by the width on success |
| Stream.BinaryStream.ReadSigned | core/grim/src/io/stream.rs:386-424 | returns `ReadSignedAt` at the cursor and advances by the width on success |
| Stream.BinaryStream.ReadBoolean | core/grim/src/io/stream.rs:380-383 | reads one byte, true exactly when it is not 0 |
| Stream.BinaryStream.ReadPrefixedString | core/grim/src/io/stream.rs:499-505 | returns what `ReadPrefixedAt` gives, error included, and moves the cursor to its end on success |
| Stream.BinaryStream.ReadNullTerminatedString | core/grim/src/io/stream.rs:507-521 | returns what `ReadNullTerminatedAt` gives, error included, and moves the cursor past the 0 on success |
| Stream.BinaryStream.SeekUntil | core/grim/src/io/stream.rs:346-369 | a needle longer than the stream is an error; otherwise the result and the final cursor are `SeekUntilOutcome` from the starting cursor, with the data unchanged |
| Stream.BinaryStream.Probe | core/grim/src/io/stream.rs:353-366 | one round of the search: reports exactly whether the window at the cursor is the needle, and leaves the cursor on the match or one past where the window began |
| Stream.BinaryStream.WriteUnsigned | core/grim/src/io/stream.rs:574-608 | writes the value's encoding in the stream's byte order at the cursor |
| Stream.BinaryStream.WriteSigned | core/grim/src/io/stream.rs:537-571 | writes the two's-complement encoding at the cursor |
| Stream.BinaryStream.WriteBoolean | core/grim/src/io/stream.rs:527-534 | writes 1 for true and 0 for false |
| Stream.BinaryStream.WritePrefixedString | core/grim/src/io/stream.rs:639-646 | writes `PrefixedString` of the value at the cursor |
| Order.CompareBytesEqual | core/grim/src/io/archive.rs:332-350 | `Ord::cmp` on byte strings says `Equal` exactly for equal strings |
| Order.CompareBytesFlip | core/grim/src/io/archive.rs:332-350 | swapping the arguments flips the result |
| Order.CompareBytesTransitive | core/grim/src/io/archive.rs:332-350 | `Less` is transitive |
| Order.PrefixIsLess | core/grim/src/io/archive.rs:332-350 | a proper prefix sorts before the longer string |
| P9Helpers.FindWhitespace | apps/cli/p9_scene_tool/src/helpers/mod.rs:84 | the index of the first whitespace character, none exactly when there is none |
| P9Helpers.PropertyValues | apps/cli/p9_scene_tool/src/helpers/mod.rs:74-110 | a result exists only for a text of at least three characters bracketed by `[` and `]` |
| P9Helpers.NotBracketed | apps/cli/p9_scene_tool/src/helpers/mod.rs:76-78 | a text shorter than three characters or not bracketed has no property and is not an event |
| P9Helpers.PropertyOnly | apps/cli/p9_scene_tool/src/helpers/mod.rs:84-87 | without whitespace inside the brackets, the whole inside is the property and there are no values |
| P9Helpers.PropertyValuesAfter | apps/cli/p9_scene_tool/src/helpers/mod.rs:89-92 | with whitespace after the property, the values are read from the rest minus its leading whitespace |
| P9Helpers.ValuesNeedParentheses | apps/cli/p9_scene_tool/src/helpers/mod.rs:93-96 | after the property and whitespace, a rest that is not parenthesised gives none |
| P9Helpers.FormatEventRoundTrip | apps/cli/p9_scene_tool/src/helpers/mod.rs:74-110 | `get_property_values` reads back the property and the values of an event written as `[property (v0 v1 ...)]` |
| P9Helpers.SplitGivesWords | apps/cli/p9_scene_tool/src/helpers/mod.rs:101-104 | `split_whitespace` gives non-empty words free of whitespace |
| P9Helpers.SplitKeepsCharacters | apps/cli/p9_scene_tool/src/helpers/mod.rs:99-104 | `split_whitespace` keeps every non-whitespace character, in order |
| P9Helpers.SplitJoinSpaced | apps/cli/p9_scene_tool/src/helpers/mod.rs:99-104 | joining non-empty whitespace-free words by spaces and splitting again gives the words back |
| P9Helpers.TrimDropsWhitespace | apps/cli/p9_scene_tool/src/helpers/mod.rs:91 | `trim_start` removes only whitespace |
| P9Helpers.TryFromStr | apps/cli/p9_scene_tool/src/helpers/mod.rs:11-23 | an event exists exactly when `is_anim_event` holds; it keeps the text and the parsed property and values, all with valid characters |
| P9Helpers.TryParseValues | apps/cli/p9_scene_tool/src/helpers/mod.rs:37-46 | exactly N slots, slot i being the parse of value i, or none when there is no value i |
| P9Helpers.ValidHasNoWhitespace | apps/cli/p9_scene_tool/src/helpers/mod.rs:60-72 | a string with valid characters holds no whitespace |
| P9Helpers.ValidChars | apps/cli/p9_scene_tool/src/helpers/mod.rs:60-72 | a non-empty string whose characters are each alphanumeric or one of `._-[]()` is valid |
| P9Helpers.FormattedIsAnimEvent | apps/cli/p9_scene_tool/src/helpers/mod.rs:49-58 | a formatted event is an animation event exactly when its property and every value have valid characters |
| P9Helpers.ShortExamples | apps/cli/p9_scene_tool/src/helpers/mod.rs:118-119 | the empty text and `[]` are not events, and `[` has no property |
| P9Helpers.UnparenthesisedExample | apps/cli/p9_scene_tool/src/helpers/mod.rs:120 | `[shot CrowdCvStage04.shot]` is not an event |
| P9Helpers.CharsValidExamples | apps/cli/p9_scene_tool/src/helpers/mod.rs:132-135 | the empty and the blank string are invalid; `420` and `shot` are valid |
| Archive.NewBlockInfo | core/grim/src/io/archive.rs:32-38 | a new block info is type B with start offset 2064 and no block sizes |
| Archive.BlockTypeOfMagic | core/grim/src/io/archive.rs:138-150 | a magic that is accepted gives the type whose magic it is; any other magic gives `UnsupportedCompression` carrying that magic |
| Archive.MagicRoundTrip | core/grim/src/io/archive.rs:480-485 | the magic `write_to_stream` writes for a type reads back as that type; distinct types have distinct magics, none of them the gzip magic |
| Archive.GetBlockTypeOrNone | core/grim/src/io/archive.rs:138-150 | reads a `u32` at the cursor: an I/O error when it is not there, else the block type of the magic or its error |
| Archive.TypeOrderValueFacts | core/grim/src/io/archive.rs:316-330 | the order value is one of 0..7 or 100; it is 100 exactly for a type not in the table, and otherwise the table's value for that type |
| Archive.OrderValueInFacts | core/grim/src/io/archive.rs:316-330 | a table lookup gives 100 exactly when the type is absent, else the paired value |
| Archive.CompareEntries | core/grim/src/io/archive.rs:332-350 | entries compare equal exactly when their order values and names are equal; a smaller order value sorts first whatever the names |
| Archive.CompareEntriesFlip | core/grim/src/io/archive.rs:332-350 | swapping the entries flips the comparison |
| Archive.CompareEntriesTransitive | core/grim/src/io/archive.rs:332-350 | the comparison is transitive, so it is a total preorder |
| Archive.InsertEntry | core/grim/src/io/archive.rs:392 | one insertion step of the sort keeps the entries as a multiset |
| Archive.InsertEntrySorted | core/grim/src/io/archive.rs:392 | inserting into entries in comparison order keeps them in order |
| Archive.SortEntries | core/grim/src/io/archive.rs:392 | `entries.sort_by(compare_entries_by_type_and_name)` gives a permutation of the entries in comparison order |
| Archive.SwapRemoveFirst | core/grim/src/io/archive.rs:366 | `swap_remove(0)` removes exactly the first entry from the multiset |
| Archive.HashCount | core/grim/src/io/archive.rs:376 | the hash count is `(entries + 1) * 2` when it fits in a `u32` |
| Archive.NameLengths | core/grim/src/io/archive.rs:377-380 | each entry contributes its name length plus one |
| Archive.BlobSizeIsTableSize | core/grim/src/io/archive.rs:377-380 | the blob size is the size of the NUL-terminated names of the entries followed by the directory name |
| Archive.NameTableLength | core/grim/src/io/archive.rs:377-380 | the NUL-terminated names take the sum of the lengths plus one each |
| Archive.SplitStateFacts | core/grim/src/io/archive.rs:415-462 | the closed blocks and the running size add up to the start size plus the entry sizes; every closed block is at least `MAX_BLOCK_SIZE`, and after an entry the running size is below it |
| Archive.SplitBlocksFacts | core/grim/src/io/archive.rs:415-462 | the block sizes add up to the header size plus the entry sizes, every block but the last is at least `MAX_BLOCK_SIZE`, and no block is empty |
| Archive.EntrySizes | core/grim/src/io/archive.rs:430 | each entry takes its data length plus 4 bytes of padding |
| Archive.EntryDataLength | core/grim/src/io/archive.rs:419-458 | the entry data is as long as the sum of the entry sizes |
| Archive.WritePrologue | core/grim/src/io/archive.rs:361-389 | appends the version, from version 24 on the directory's type and name with the string-table sizes, and the entry count |
| Archive.AppendStringTableHeader | core/grim/src/io/archive.rs:369-384 | appends the directory type and name, the hash count and the blob size |
| Archive.AppendNames | core/grim/src/io/archive.rs:393-397 | appends the entry's type and name as prefixed strings |
| Archive.WriteEntryTable | core/grim/src/io/archive.rs:390-398 | appends every sorted entry's type and name, in order |
| Archive.WriteHeader | core/grim/src/io/archive.rs:361-413 | returns the sorted entries and appends exactly `HeaderBytes`: prologue, entry table, then the directory data with padding or, for version 10, a zero `u32` |
| Archive.AppendEntryData | core/grim/src/io/archive.rs:422-431 | appends the entry's data followed by the padding |
| Archive.WriteEntries | core/grim/src/io/archive.rs:415-462 | appends each entry's data with padding and returns the block sizes `SplitBlocks` gives for the header size and the entry sizes |
| Archive.FromObjectDir | core/grim/src/io/archive.rs:352-472 | none exactly when the version and entries panic in the source; otherwise the data is the header followed by the sorted entries' data, the block info has the given or default type, offset 2064 and the split sizes, and the sizes add up to the data length |
| Archive.EntrySizeFrom | core/grim/src/io/archive.rs:278-314 | a stream shorter than the padding is an error |
| Archive.EntrySizeSound | core/grim/src/io/archive.rs:278-314 | a size found ends at a padding the search stops at, which ends the stream or is followed by an `i32` in 0..=0xFF; the search went on past every earlier stop |
| Archive.EntrySizeNone | core/grim/src/io/archive.rs:278-314 | no size is found exactly when the stream holds at least 4 bytes and every padding the search stops at is followed by a readable `i32` outside 0..=0xFF |
| Archive.StopsArePadding | core/grim/src/io/archive.rs:285-290 | every place the search stops at holds the padding, at or after where it started |
| Archive.StopsUnfold | core/grim/src/io/archive.rs:300-311 | the stops are the first padding and then the stops from 4 bytes past it |
| Archive.OverlappingPaddingSkipped | core/grim/src/io/archive.rs:303 | the search resumes 4 bytes past a padding, so a padding overlapping it at 2, though followed by the `i32` 5, is skipped and the size found is 10 |
| Archive.EntrySizeNoPadding | core/grim/src/io/archive.rs:285-288 | no padding left gives `Ok(None)` |
| Archive.EntrySizeAtEnd | core/grim/src/io/archive.rs:292-296 | a padding that ends the stream gives the size up to it |
| Archive.EntrySizeBadRead | core/grim/src/io/archive.rs:298 | a probe that cannot be read is that error |
| Archive.EntrySizeMagic | core/grim/src/io/archive.rs:298-311 | a probe in 0..=0xFF gives the size up to the padding; another value resumes the search 4 bytes past it |
| Archive.GuessRound | core/grim/src/io/archive.rs:284-312 | one round leaves the data alone; it either gives the answer for the search from the cursor or moves the cursor forward with the answer unchanged |
| Archive.GuessEntrySize | core/grim/src/io/archive.rs:278-314 | the result is `EntrySizeFrom` at the starting cursor, the data is unchanged, and on success the cursor is back where it started |
| Archive.GuessEndianVersion | core/grim/src/io/archive.rs:565-581 | none exactly when there are fewer than 4 bytes; otherwise the version is the first `u32` in the chosen byte order, which is big-endian exactly when the big-endian value is at most 32 |
| Archive.GetVersion | core/grim/src/io/archive.rs:583-597 | none exactly when there are fewer than 4 bytes |
| Archive.GuessRecoversVersion | core/grim/src/io/archive.rs:565-581 | a version up to 32 written in either byte order is recovered with that byte order (big-endian for 0, where both agree) |
| Archive.GetVersionAgreesWithGuess | core/grim/src/io/archive.rs:583-597 | reading the version with the guessed byte order gives the guessed version |
| Ark.VersionIsSupported | core/grim/src/ark/io.rs:282-287 | true exactly for header versions 3 and 5 |
| Ark.U32At | core/grim/src/ark/io.rs:192-193 | a little-endian `u32` when four bytes are left, else `ArkNotSupported` |
| Ark.U32Seq | core/grim/src/ark/io.rs:315-318 | `n` values read one after another succeed exactly when the data holds them all, and value `i` is the `u32` at `pos + 4i` |
| Ark.U32SeqSnoc | core/grim/src/ark/io.rs:315-318 | reading one more value extends the sequence by it |
| Ark.U32SeqShort | core/grim/src/ark/io.rs:315-318 | a failed read part way makes the whole sequence fail |
| Ark.ReadU32 | core/grim/src/ark/io.rs:192-193 | the value is `U32At` at the cursor, the cursor moves 4 on success, the data is unchanged |
| Ark.ReadU32s | core/grim/src/ark/io.rs:315-318 | the values are `U32Seq` at the cursor and the cursor moves past them |
| Ark.StringIndicesAt | core/grim/src/ark/io.rs:309-321 | a count, then that many `u32` values, each the value at its place; every failure is `ArkNotSupported` |
| Ark.ParseStringIndices | core/grim/src/ark/io.rs:309-321 | gives `StringIndicesAt` at the cursor and leaves the cursor after the table |
| Ark.PartRanges | core/grim/src/ark/io.rs:199-209 | one range per part size |
| Ark.PartRangeAt | core/grim/src/ark/io.rs:203-209 | part `i` runs from the sum of the sizes before it for its own size |
| Ark.PartRangesContiguous | core/grim/src/ark/io.rs:199-209 | the first range starts at 0, each is as long as its part, and each starts where the previous ends |
| Ark.PartRangesAdjacent | core/grim/src/ark/io.rs:207-208 | neighbouring ranges touch |
| Ark.PartRangesSnoc | core/grim/src/ark/io.rs:207-208 | one more size appends the range from the running total |
| Ark.PartRangesAt | core/grim/src/ark/io.rs:196-209 | the ranges are read exactly when all `count` sizes can be read |
| Ark.ReadPartRanges | core/grim/src/ark/io.rs:203-209 | the loop gives `PartRangesAt` and leaves the cursor after the sizes |
| Ark.FindPartFrom | core/grim/src/ark/io.rs:331-338 | the first range from `i` on that holds the offset, with the offset relative to its start; none exactly when no range from `i` holds it |
| Ark.FindPart | core/grim/src/ark/io.rs:331-338 | the first range that holds the offset, with the offset relative to its start; none exactly when no range holds it |
| Ark.TotalPrefix | core/grim/src/ark/io.rs:207-208 | running totals never decrease |
| Ark.PartsDisjoint | core/grim/src/ark/io.rs:331-338 | no offset is in two parts |
| Ark.PartHolding | core/grim/src/ark/io.rs:331-338 | every offset below the total size is in some part |
| Ark.FindPartIffBelowTotal | core/grim/src/ark/io.rs:331-338 | a part is found exactly when the offset is below the total size, so the `unwrap` panics exactly for offsets past the last part |
| Ark.FindPartIsHolder | core/grim/src/ark/io.rs:331-338 | the part found is the one holding the offset, and the offset given is relative to that part's start |
| Ark.BlobFrom | core/grim/src/ark/io.rs:298-304 | the loop ends at or past where it starts, and fails only with `ArkNotSupported` |
| Ark.BlobFromKeys | core/grim/src/ark/io.rs:298-304 | with offsets that do not wrap, every key is the offset below the blob size of a string start, mapping to the NUL-terminated string there, and the loop ends at or past the blob end |
| Ark.KeysStep | core/grim/src/ark/io.rs:302 | inserting a string at its own start offset keeps every key a string start |
| Ark.BlobFromKeepsKeys | core/grim/src/ark/io.rs:302 | reading on only adds keys |
| Ark.BlobFromComplete | core/grim/src/ark/io.rs:298-304 | every string start from the cursor on and below the blob size becomes a key |
| Ark.BlobFromStep | core/grim/src/ark/io.rs:299-303 | below the blob size, a string read moves the loop to its end with that string inserted at the offset |
| Ark.BlobFromFail | core/grim/src/ark/io.rs:299-300 | a string that cannot be read fails the loop |
| Ark.BlobFromStop | core/grim/src/ark/io.rs:298 | at or past the blob size the loop stops with the map as it is |
| Ark.StringBlobAt | core/grim/src/ark/io.rs:289-307 | every failure is `ArkNotSupported` |
| Ark.StringBlobKeys | core/grim/src/ark/io.rs:289-307 | the keys are exactly the offsets below the blob size at which a string starts (the blob start, or just after a NUL), each mapping to the string there |
| Ark.ParseStringBlob | core/grim/src/ark/io.rs:289-307 | gives `StringBlobAt` at the cursor and leaves the cursor where the loop stopped |
| Ark.SkipPrefixed | core/grim/src/ark/io.rs:217-220 | skipping `n` prefixed strings never moves back and stays within the data |
| Ark.SkipPartNames | core/grim/src/ark/io.rs:213-220 | moves the cursor to `SkipPrefixed`'s end or fails with `ArkNotSupported` |
| Ark.CreateFullPath | core/grim/src/ark/io.rs:323-329 | the file name for an empty directory, otherwise the directory, a `/` and the file name |
| Ark.LastSlash | core/grim/src/ark/io.rs:323-329 | the position of a `/` with none after it, or none when the path has none |
| Ark.SplitCreateFullPath | core/grim/src/ark/io.rs:323-329 | splitting a full path at its last `/` gives back the directory and a file name that holds no `/` |
| Ark.OffsetWidth | core/grim/src/ark/io.rs:242-245 | offsets are `u32` for versions 3 and 4 and `u64` otherwise |
| Ark.RawEntryAt | core/grim/src/ark/io.rs:242-250 | an entry is read exactly when its offset and four `u32` fields fit; the offset has the version's width and the cursor moves past the fields |
| Ark.LookupString | core/grim/src/ark/io.rs:252-253 | the string behind index `i` when `i` is in the index table and its offset in the blob; the two panics of the source are the two errors |
| Ark.ResolveEntry | core/grim/src/ark/io.rs:252-264 | the entry keeps its id, sizes and the looked-up path joined by `create_full_path`, and lies in the part holding its offset at the offset relative to that part |
| Ark.EntriesFrom | core/grim/src/ark/io.rs:240-265 | at most the remaining count of entries, and exactly that many when no error stops the loop |
| Ark.FileEntriesAt | core/grim/src/ark/io.rs:236-268 | an unreadable count gives no entries and `ArkNotSupported`; otherwise as many entries as the count when nothing fails |
| Ark.EntriesFromIds | core/grim/src/ark/io.rs:240-258 | every entry carries its own index as id |
| Ark.EntriesFromRawErr | core/grim/src/ark/io.rs:242-250 | an entry whose fields cannot be read stops the loop with `ArkNotSupported` |
| Ark.EntriesFromCons | core/grim/src/ark/io.rs:257-264 | a resolved entry is pushed before the entries that follow it |
| Ark.EntriesFromResolveErr | core/grim/src/ark/io.rs:252-255 | an entry that cannot be resolved stops the loop with that error |
| Ark.FileEntriesStart | core/grim/src/ark/io.rs:237-240 | after the count the loop starts at id 0 |
| Ark.EntriesRestStep | core/grim/src/ark/io.rs:257-264 | pushing an entry keeps the loop state: pushed entries followed by the rest are all the entries |
| Ark.EntriesRestRawErr | core/grim/src/ark/io.rs:242-250 | an unreadable entry ends the loop with all entries pushed and `ArkNotSupported` |
| Ark.EntriesRestResolveErr | core/grim/src/ark/io.rs:252-255 | an unresolvable entry ends the loop with all entries pushed and its error |
| Ark.EntriesRestDone | core/grim/src/ark/io.rs:240 | past the count the loop ends with all entries pushed and no error |
| Ark.InsertByPath | core/grim/src/ark/io.rs:271 | one insertion step of the sort keeps the entries as a multiset |
| Ark.InsertByPathSorted | core/grim/src/ark/io.rs:271 | inserting into entries in path order keeps them in path order |
| Ark.SortByPath | core/grim/src/ark/io.rs:270-272 | a permutation of the entries in path order |
| Ark.PartTableAt | core/grim/src/ark/io.rs:189-209 | every failure is `ArkNotSupported` |
| Ark.PartNamesEnd | core/grim/src/ark/io.rs:211-221 | a version below 5 stores no part names; every failure is `ArkNotSupported` |
| Ark.HeaderTablesAt | core/grim/src/ark/io.rs:189-227 | every failure is `ArkNotSupported` |
| Ark.HeaderEntries | core/grim/src/ark/io.rs:184-230 | a header whose tables cannot be read gives no entries and that error |
| Ark.HeaderEntryIds | core/grim/src/ark/io.rs:240-258 | the entries of a header have ids 0, 1, 2 and so on |
| Ark.Ark.New | core/grim/src/ark/ark.rs:4-11 | an archive with the given version and encryption and no entries |
| Ark.Ark.ParseFileEntries | core/grim/src/ark/io.rs:236-268 | appends exactly the entries `FileEntriesAt` gives, keeping those pushed before an error, and fails exactly when it reports an error |
| Ark.Ark.ParseFileEntry | core/grim/src/ark/io.rs:241-264 | one turn of the loop: reads, resolves and pushes entry `id`, keeping the loop state |
| Ark.Ark.SortEntriesByName | core/grim/src/ark/io.rs:270-272 | the entries become `SortByPath` of the old entries |
| Ark.Ark.ParseHeader | core/grim/src/ark/io.rs:184-234 | fails exactly when `HeaderEntries` reports an error; the entries are the old ones plus the header's, sorted by path on success and unsorted after an error |
| Ark.ReadRawEntry | core/grim/src/ark/io.rs:242-250 | gives `RawEntryAt` at the cursor and leaves the cursor after the fields |
| Ark.ReadPartTable | core/grim/src/ark/io.rs:185-209 | from a fresh reader, gives `PartTableAt` of the header and leaves the cursor after the sizes |
| Ark.ReadPartNames | core/grim/src/ark/io.rs:211-221 | moves the cursor to `PartNamesEnd` or fails with `ArkNotSupported` |
| Ark.ReadHeaderTables | core/grim/src/ark/io.rs:185-227 | from a fresh reader, gives `HeaderTablesAt` of the header and leaves the cursor where the file entries begin |
| Dta.DataStringRoundTrip | core/grim/src/dta/mod.rs:14-33 | `get_raw` gives back the bytes `from_vec` wrapped, and wrapping the raw bytes gives back the string |
| Dta.NodeOfCode | core/grim/src/dta/mod.rs:73-96 | a node of a code exists exactly for the 19 codes `get_enum_value` uses |
| Dta.EnumValueDistinct | core/grim/src/dta/mod.rs:73-96 | every node's code is one of those codes and names its variant, and two nodes share a code exactly when they are the same variant |
| Dta.NodeOfCodeInverse | core/grim/src/dta/mod.rs:73-96 | the node made for a code has that code |
| Dta.FindValueForSymbol | core/grim/src/dta/mod.rs:98-125 | a node that is not an array gives none; an array headed by the symbol or a string equal to it gives its remaining items |
| Dta.FindValueSound | core/grim/src/dta/mod.rs:98-125 | a result is the remaining items of some array, reachable from the node, whose head is the key |
| Dta.FindInItemsSound | core/grim/src/dta/mod.rs:116-122 | a result from the items loop comes from an array reachable from one of the items at or after the start |
| Dta.FindValueComplete | core/grim/src/dta/mod.rs:98-125 | an array reachable from the node whose head is the key means the search finds something |
| Dta.FindInItemsComplete | core/grim/src/dta/mod.rs:116-122 | an item whose search succeeds makes the loop succeed |
| Dta.FindValueIff | core/grim/src/dta/mod.rs:98-125 | the search succeeds exactly when some reachable array is headed by the key |
| Dta.FindInItemsFirst | core/grim/src/dta/mod.rs:116-122 | the loop returns the result of the first item whose search succeeds |
| Dta.AsInteger | core/grim/src/dta/mod.rs:135-141 | an integer gives itself, a float gives its conversion, anything else none |
| DtaIo.StringBytes | core/grim/src/dta/io.rs:150-157 | a saved string is a 4-byte length followed by its bytes |
| DtaIo.LeafPayload | core/grim/src/dta/io.rs:80-101 | a node without items saves at least 4 bytes after its code |
| DtaIo.NodeBytes | core/grim/src/dta/io.rs:75-104 | a saved node is its 4-byte code followed by its payload |
| DtaIo.PayloadBytes | core/grim/src/dta/io.rs:79-102 | every payload takes at least 4 bytes |
| DtaIo.ArrayBytes | core/grim/src/dta/io.rs:48-60 | a saved array starts with a 2-byte count and a 4-byte id |
| DtaIo.ItemsBytesCons | core/grim/src/dta/io.rs:55-57 | the items are saved one after another, each with the id the ones before it leave |
| DtaIo.ReadU32 | core/grim/src/dta/io.rs:107 | a `u32` when four bytes are left |
| DtaIo.StringAt | core/grim/src/dta/io.rs:159-162 | a loaded string ends 4 plus its length past the cursor, within the data |
| DtaIo.NodeAt | core/grim/src/dta/io.rs:106-148 | a loaded node takes at least 8 bytes |
| DtaIo.PayloadAt | core/grim/src/dta/io.rs:109-145 | the node loaded is of the variant its code names |
| DtaIo.ArrayAt | core/grim/src/dta/io.rs:62-73 | a loaded array takes at least its 6-byte header |
| DtaIo.NodesAt | core/grim/src/dta/io.rs:68-70 | exactly `count` nodes are loaded on success, never moving back |
| DtaIo.ItemsStep | core/grim/src/dta/io.rs:68-70 | a node followed by `count - 1` nodes gives `count` nodes |
| DtaIo.KindUpdate | core/grim/src/dta/io.rs:109-145 | a node of the variant the code names is that node once its payload is filled in |
| DtaIo.StringRoundTrip | core/grim/src/dta/io.rs:150-162 | a saved string under 4 GiB loads back as itself, ending where the saved bytes end |
| DtaIo.NodeRoundTrip | core/grim/src/dta/io.rs:75-148 | a saved node (arrays under 65536 items, strings under 4 GiB, no `Func`) loads back as itself, ending where the saved bytes end |
| DtaIo.NodeBytesSplit | core/grim/src/dta/io.rs:76-77 | a saved node's first 4 bytes read back as its code |
| DtaIo.NodeAtKind | core/grim/src/dta/io.rs:107-109 | loading a node is loading the payload of the variant its code names |
| DtaIo.PayloadRoundTrip | core/grim/src/dta/io.rs:79-102 | a saved payload loads back as the node |
| DtaIo.LeafRoundTrip | core/grim/src/dta/io.rs:80-101 | a payload of a node without items loads back as the node |
| DtaIo.StringPayloadRoundTrip | core/grim/src/dta/io.rs:82-101 | a string payload loads back as the node |
| DtaIo.ArrayRoundTrip | core/grim/src/dta/io.rs:48-73 | a saved array loads back as its items; the id is skipped |
| DtaIo.ArrayHeader | core/grim/src/dta/io.rs:49-50 | after the 6-byte header the items follow with the next id |
| DtaIo.ArrayAtNodes | core/grim/src/dta/io.rs:63-70 | loading an array is loading `count` nodes after its header |
| DtaIo.ItemsHead | core/grim/src/dta/io.rs:68-70 | the first saved item loads back, and the rest follow it |
| DtaIo.ItemsRoundTrip | core/grim/src/dta/io.rs:55-70 | saved items load back as the items |
| DtaIo.NodeAtCode | core/grim/src/dta/io.rs:107-109 | a loaded node's code is the code read |
| DtaIo.NodeAtBadCode | core/grim/src/dta/io.rs:109-145 | code 3 (`Func`) and unknown codes are the two errors |
| DtaIo.ArrayCountIsArraysVisited | core/grim/src/dta/io.rs:52-53 | the id advances once per array, command or property in the node and everything inside it |
| DtaIo.ItemsArrayCountIsArraysVisited | core/grim/src/dta/io.rs:55-57 | the id advances once per array among the items and their contents |
| DtaIo.RootAt | core/grim/src/dta/io.rs:34-45 | loading a root reads at least its boolean |
| DtaIo.RootRoundTrip | core/grim/src/dta/io.rs:22-45 | saved root data (under 65536 items) loads back as itself |
| DtaIo.SaveThenLoad | core/grim/src/dta/io.rs:22-45 | what `save` writes at a position, `load` reads back from there |
| DtaIo.Value | core/grim/src/dta/io.rs:159-162 | keeps a result and drops the cursor |
| DtaIo.Prepend | core/grim/src/dta/io.rs:68-70 | puts nodes in front of a result, keeping its error |
| DtaIo.NodesAtUnfold | core/grim/src/dta/io.rs:68-70 | `count` nodes are a node followed by `count - 1` more, and the first error stops the loop |
| DtaIo.SaveString | core/grim/src/dta/io.rs:150-157 | fails exactly when the stream is not writable or the cursor past its end; otherwise writes `StringBytes` at the cursor |
| DtaIo.SaveNode | core/grim/src/dta/io.rs:75-104 | writes `NodeBytes` at the cursor and returns the id advanced by the arrays in the node |
| DtaIo.SaveArray | core/grim/src/dta/io.rs:48-60 | writes `ArrayBytes` at the cursor and returns the id advanced by one plus the arrays in the items |
| DtaIo.ItemsSuffixStep | core/grim/src/dta/io.rs:55-57 | the loop state: the bytes written so far followed by those of the remaining items are the items' bytes |
| DtaIo.SaveItems | core/grim/src/dta/io.rs:55-57 | writes `ItemsBytes` at the cursor and returns the id past every array written |
| DtaIo.LoadString | core/grim/src/dta/io.rs:159-162 | gives `StringAt` at the cursor and leaves the cursor after it |
| DtaIo.LoadNode | core/grim/src/dta/io.rs:106-148 | gives `NodeAt` at the cursor and leaves the cursor after it |
| DtaIo.LoadPayload | core/grim/src/dta/io.rs:109-145 | gives `PayloadAt` for the variant and leaves the cursor after it |
| DtaIo.LoadArray | core/grim/src/dta/io.rs:62-73 | gives `ArrayAt` at the cursor and leaves the cursor after it |
| DtaIo.RootData.constructor | core/grim/src/dta/mod.rs:150-152 | new root data is empty |
| DtaIo.RootData.Save | core/grim/src/dta/io.rs:22-32 | writes `RootBytes` (a boolean, then the array when there is data) at the cursor |
| DtaIo.RootData.Load | core/grim/src/dta/io.rs:34-45 | the data becomes `RootAt`'s items; after an error it is left cleared |
| DtaParser.SplitWhile | core/grim/src/dta/parser.rs:96-98 | the part taken and the rest together are as long as the input |
| DtaParser.SplitWhileFacts | core/grim/src/dta/parser.rs:96-98 | the input is the part taken followed by the rest, the part taken is all of the class, and the rest does not start with a byte of it |
| DtaParser.SplitWhileUnique | core/grim/src/dta/parser.rs:96-98 | that split is the only one with those properties |
| DtaParser.SplitWhileAll | core/grim/src/dta/parser.rs:96-98 | nothing is left exactly when the whole input is of the class |
| DtaParser.TakeComment | core/grim/src/dta/parser.rs:127-135 | never a failure, and a comment taken leaves less input |
| DtaParser.SkipWsAndComments | core/grim/src/dta/parser.rs:104-121 | the run of whitespace yielded is no longer than the input |
| DtaParser.SplitWhileSuffix | core/grim/src/dta/parser.rs:96-98 | what is left is a suffix of the input |
| DtaParser.TakeCommentSuffix | core/grim/src/dta/parser.rs:127-135 | what a comment leaves is a suffix of the input |
| DtaParser.SkipWsAndCommentsSkips | core/grim/src/dta/parser.rs:104-121 | what is left is a suffix of the input starting with neither whitespace nor `;`, and the run yielded is whitespace |
| DtaParser.SkipWsAndCommentsIdempotent | core/grim/src/dta/parser.rs:104-121 | skipping again skips nothing |
| DtaParser.SplitWhilePrepend | core/grim/src/dta/parser.rs:96-98 | bytes of the class in front of the input join the part taken |
| DtaParser.SkipLeadingWs | core/grim/src/dta/parser.rs:105 | leading whitespace is skipped |
| DtaParser.SkipLeadingComment | core/grim/src/dta/parser.rs:107-116 | a comment ended by a line break is skipped |
| DtaParser.TakeWsOrComment | core/grim/src/dta/parser.rs:104-121 | the loop gives what `SkipWsAndComments` gives |
| DtaParser.DigitValue | core/grim/src/dta/parser.rs:17-18 | a digit's value is its distance from `0` |
| DtaParser.NumberFromConcat | core/grim/src/dta/parser.rs:291 | reading digits in two parts is reading them at once |
| DtaParser.ParseInt | core/grim/src/dta/parser.rs:282-307 | never a failure; an integer parsed uses up the whole token |
| DtaParser.ParseHexIff | core/grim/src/dta/parser.rs:286-293 | the hexadecimal form is accepted exactly for `0x`/`0X` and hexadecimal digits whose value is at most `i32::MAX`, and gives that value |
| DtaParser.ParseDecIff | core/grim/src/dta/parser.rs:295-305 | the decimal form is accepted exactly for an optional `-` and digits whose value is an `i32`, and gives that value |
| DtaParser.ParseIntIff | core/grim/src/dta/parser.rs:282-307 | `parse_int` accepts exactly those two forms, trying the hexadecimal one first, and gives the value |
| DtaParser.DecimalDigits | core/grim/src/dta/parser.rs:17 | a decimal numeral is non-empty and all digits |
| DtaParser.DecimalDigitsValue | core/grim/src/dta/parser.rs:295-305 | a numeral reads back as its number |
| DtaParser.ParseIntDecimalText | core/grim/src/dta/parser.rs:558-579 | every `i32` written in decimal parses back as itself |
| DtaParser.ParseIntDecimalBounds | core/grim/src/dta/parser.rs:563-566 | unsigned text is accepted up to 2147483647 and signed text down to -2147483648, one more either way is refused |
| DtaParser.RecognizeFloat | core/grim/src/dta/parser.rs:309-316 | the float text recognized is a prefix of the input |
| DtaParser.ParseFloat | core/grim/src/dta/parser.rs:309-316 | a float parsed uses up the whole token and is the conversion of that text |
| DtaParser.FloatExponentCut | core/grim/src/dta/parser.rs:309-316 | digits and an exponent letter with nothing after it are a failure, not an error |
| DtaParser.ParseVariableIff | core/grim/src/dta/parser.rs:318-344 | a variable is accepted exactly for `$` followed by a letter or `_` and then letters, digits and `_`, and keeps the `$` |
| DtaParser.ParseSymbolName | core/grim/src/dta/parser.rs:257-262 | never a failure |
| DtaParser.ParseSymbolIff | core/grim/src/dta/parser.rs:264-280 | a symbol with a given name is accepted exactly for that name, bare or between `'`, when it is one or more letters, digits, `.`, `_` or `/` |
| DtaParser.ParseSymbolBare | core/grim/src/dta/parser.rs:268 | a bare symbol name is that symbol |
| DtaParser.ParseSymbolQuoted | core/grim/src/dta/parser.rs:269-273 | a quoted symbol name is that symbol without the quotes |
| DtaParser.ParseSymbolSound | core/grim/src/dta/parser.rs:264-280 | what is accepted is a symbol name, bare or quoted, and the symbol is that name |
| DtaParser.ParseString | core/grim/src/dta/parser.rs:246-255 | never a failure; a string parsed leaves less input |
| DtaParser.ParseStringQuoted | core/grim/src/dta/parser.rs:246-255 | a quoted text without inner quotes gives its contents and leaves the input after the closing quote |
| DtaParser.ParseToken | core/grim/src/dta/parser.rs:369-394 | a token parsed leaves less input |
| DtaParser.ParseNode | core/grim/src/dta/parser.rs:376-436 | a node parsed leaves less input |
| DtaParser.ParseGroup | core/grim/src/dta/parser.rs:399-433 | a bracketed node parsed leaves less input |
| DtaParser.ParseDataArray | core/grim/src/dta/parser.rs:438-442 | never an error, and never more input left than given |
| DtaParser.ParseBlank | core/grim/src/dta/parser.rs:517-519 | empty, whitespace-only and comment-only input give no node and an empty list |
| DtaParser.ParseCommentOnly | core/grim/src/dta/parser.rs:519 | a comment with no line break after it, alone or after whitespace, is no node |
| DtaParser.ParseNodeAfterWs | core/grim/src/dta/parser.rs:377-378 | leading whitespace does not change the node |
| DtaParser.SkipNothing | core/grim/src/dta/parser.rs:104-121 | input starting with neither whitespace nor `;` is left alone |
| DtaParser.ParseNodeBareToken | core/grim/src/dta/parser.rs:380-395 | an input that is one bare token gives that token's value |
| DtaParser.ParseTokenWhole | core/grim/src/dta/parser.rs:369-395 | a whole bare token gives its value |
| DtaParser.TokenValueInteger | core/grim/src/dta/parser.rs:384-387 | an integer's decimal text is a bare token whose value is that integer |
| DtaParser.ParseNodeInteger | core/grim/src/dta/parser.rs:520-523 | an integer's decimal text parses as that integer |
| DtaParser.ParseNodeVariable | core/grim/src/dta/parser.rs:529-532 | `$` and a variable name parse as that variable |
| DtaParser.ParseNodeTokenThen | core/grim/src/dta/parser.rs:380-395 | a bare token followed by the end, whitespace, a bracket or `;` gives its value and leaves the input after it |
| DtaParser.ParseNodeByToken | core/grim/src/dta/parser.rs:379-395 | where the token alternative succeeds after skipping, it is the node |
| DtaParser.ParseTokenThen | core/grim/src/dta/parser.rs:369-374 | a token stops at the first whitespace, bracket or `;` |
| DtaParser.ParseNodeAtClose | core/grim/src/dta/parser.rs:376-436 | a closing bracket is no node |
| DtaParser.TokenValueSymbol | core/grim/src/dta/parser.rs:382-394 | a token starting with a letter that is a symbol name and not `kDataUnhandled` is that symbol |
| DtaParser.ParseDataArrayCons | core/grim/src/dta/parser.rs:438-442 | a node that parses is kept and the list goes on after it |
| DtaParser.ParseGroupClosed | core/grim/src/dta/parser.rs:399-433 | a list of nodes in brackets, closed by the matching bracket, is the bracket's kind of node: `Array`, `Property` or `Command` |
| DtaParser.ParseLastItem | core/grim/src/dta/parser.rs:438-442 | a token before a `)` is the last item |
| DtaParser.ParseDataArrayAfterWs | core/grim/src/dta/parser.rs:438-442 | whitespace before a list of nodes is skipped |
| DtaParser.ParsePairArray | core/grim/src/dta/parser.rs:399-409 | two bare tokens in parentheses with a space between them give the `Array` of their values |
| DtaParser.ParsePairItems | core/grim/src/dta/parser.rs:438-442 | two bare tokens separated by a space, before a `)`, give both values |
| DtaParser.ParseYear2002 | core/grim/src/dta/parser.rs:549 | `(year 2002)` parses as the array of the symbol `year` and the integer 2002 |
| DtaParser.YearToken | core/grim/src/dta/parser.rs:549 | `year` is a bare token whose value is that symbol |
| DtaParser.NumberToken | core/grim/src/dta/parser.rs:549 | `2002` is a bare token whose value is that integer |
| Midi.MidiEvent.Length | core/grim_midi/src/lib.rs:118-124 | a note's length; 0 for meta and SysEx events |
| Midi.TextKinds | core/grim_midi/src/lib.rs:166-178 | a text event is exactly one of a lyric and a text |
| Midi.BytesLessIrreflexive | core/grim_midi/src/lib.rs:94-98 | the derived byte-string order is irreflexive |
| Midi.BytesLessTransitive | core/grim_midi/src/lib.rs:94-98 | and transitive |
| Midi.BytesLessTotal | core/grim_midi/src/lib.rs:94-98 | and total on distinct byte strings |
| Midi.Rank | core/grim_midi/src/lib.rs:94-98 | the derived order ranks the variants `Note`, `Meta`, `SysEx` as 0, 1, 2 |
| Midi.EventLessIrreflexive | core/grim_midi/src/lib.rs:75-85 | the order the sort uses is irreflexive |
| Midi.SameKindLessTransitive | core/grim_midi/src/lib.rs:94-98 | the derived order within one variant is transitive |
| Midi.EventLessTransitive | core/grim_midi/src/lib.rs:75-85 | the sort's order is transitive |
| Midi.EventLeTransitive | core/grim_midi/src/lib.rs:75-85 | so is its reflexive closure |
| Midi.EventLessTotal | core/grim_midi/src/lib.rs:75-85 | the sort's order is total on distinct events |
| Midi.EventLeAntisymmetric | core/grim_midi/src/lib.rs:75-85 | events ordered both ways are equal |
| Midi.EventSortedByPos | core/grim_midi/src/lib.rs:75-85 | events in the sort's order are in position order |
| Midi.InsertEvent | core/grim_midi/src/lib.rs:75 | one insertion step keeps the events as a multiset |
| Midi.InsertEventBound | core/grim_midi/src/lib.rs:75 | inserting keeps a lower bound of all events |
| Midi.InsertEventSorted | core/grim_midi/src/lib.rs:75 | inserting into sorted events keeps them sorted |
| Midi.SortEvents | core/grim_midi/src/lib.rs:74-86 | a permutation of the events in the sort's order (position, then the derived order), so in position order |
| Midi.FirstOfSorted | core/grim_midi/src/lib.rs:74-86 | two sorted permutations of the same events start with the same event |
| Midi.SortedUnique | core/grim_midi/src/lib.rs:74-86 | two sorted permutations of the same events are equal, so the sort's result does not depend on the input order |
| Midi.TailMultiset | core/grim_midi/src/lib.rs:74-86 | equal multisets with the same first event have equal tails |
| Midi.SortedTail | core/grim_midi/src/lib.rs:74-86 | the tail of sorted events is sorted |
| Midi.SortKeepsSorted | core/grim_midi/src/lib.rs:74-86 | sorting events already in order changes nothing |
| Midi.StrictPositionsSorted | core/grim_midi/src/lib.rs:74-86 | events with strictly increasing positions are in the sort's order |
| Midi.SortTieExample | core/grim_midi/src/lib.rs:94-98 | events at one position sort as note, meta, SysEx |
| Midi.MidiTrack.IsSorted | core/grim_midi/src/lib.rs:48-72 | true exactly when positions never decrease; empty and one-event tracks are sorted |
| Midi.MidiTrack.Sort | core/grim_midi/src/lib.rs:74-86 | the track keeps its name and its events as a multiset, and they end up in the sort's order |
| Midi.TrackWithNameFirst | core/grim_midi/src/lib.rs:308-316 | none exactly when no track has the name; otherwise the first track with it |
| Midi.NameMap | core/grim_midi/src/lib.rs:276-286 | every name maps to the index of a track with that name |
| Midi.NameMapLast | core/grim_midi/src/lib.rs:276-286 | a name is in the map exactly when some track has it, and maps to the last such track |
| Midi.AddTrackEffect | core/grim_midi/src/lib.rs:288-305 | with merging on and a same-named existing track, the events join that track, which is re-sorted, and nothing else changes; otherwise the track is sorted and appended |
| Midi.AllEventsUpdate | core/grim_midi/src/lib.rs:296 | replacing a track swaps its events in the multiset of all events |
| Midi.AllEventsSnoc | core/grim_midi/src/lib.rs:304 | appending a track adds its events |
| Midi.AddTracksKeeps | core/grim_midi/src/lib.rs:288-305 | existing tracks stay with their names, and all events of the new tracks end up in the tracks |
| Midi.AddTrackEvents | core/grim_midi/src/lib.rs:288-305 | one added track keeps the existing names and adds its events |
| Midi.AllEventsCons | core/grim_midi/src/lib.rs:253 | the events of all tracks are the first track's and the rest's |
| Midi.SortedTracks | core/grim_midi/src/lib.rs:303 | each track sorted |
| Midi.AddTracksAppends | core/grim_midi/src/lib.rs:302-304 | with merging off, the new tracks are sorted and appended in order |
| Midi.AddTracksStep | core/grim_midi/src/lib.rs:288 | tracks are added one at a time, in order |
| Midi.MidiFile.constructor | core/grim_midi/src/lib.rs:18-26 | format 1, 480 ticks per quarter, no tracks, no tempo |
| Midi.MidiFile.AddTracksWithRealtimePositions | core/grim_midi/src/lib.rs:247-306 | the tracks become `AddTracks` with the name map of the old tracks; format, resolution and tempo stay |
| Midi.TempoIndexAt | core/grim_midi/src/lib.rs:344-377 | the last tempo at or before the position, or none when every tempo is after it |
| Midi.TempoNavigator.constructor | core/grim_midi/src/lib.rs:336-342 | the navigator starts at index 0 |
| Midi.TempoNavigator.GetTempoAtPos | core/grim_midi/src/lib.rs:344-377 | the tempo returned is at the new index and at or before the position; none only when every tempo up to the old index is after it; for sorted tempos it is none exactly when `TempoIndexAt` is, and has the position of the tempo it gives whatever the old index, and for strictly sorted tempos the index is that one |
| Midi.SortedAfter | core/grim_midi/src/lib.rs:353-360 | stepping back, the first tempo at or before the position is the answer for sorted tempos |
| Midi.ForwardResult | core/grim_midi/src/lib.rs:367-376 | stepping forward stops at a tempo with the answer's position, and at the answer itself for strictly sorted tempos |
| MidiFileIo.FileOfOk | core/grim/src/midi/io.rs:11-190 | a parsed file is read exactly when its timing is metrical (timecode panics) and no track's positions leave the `u64` range |
| MidiFileIo.FileOfContents | core/grim/src/midi/io.rs:21-184 | the file read has the format number, the resolution, the tempo changes of the first track and one track per later track, in order |
| MidiFileIo.TracksOfAt | core/grim/src/midi/io.rs:58-184 | track `i` is read from parsed track `i` |
| MidiFileIo.FileTrackAt | core/grim/src/midi/io.rs:58 | the tracks read skip the first parsed track |
| MidiFileIo.FromParsed | core/grim/src/midi/io.rs:14-189 | fails exactly when `FileOf` does; otherwise a new file with the contents `FileOf` gives |
| MidiFileIo.WrittenTracksOk | core/grim/src/midi/io.rs:363-366 | the tracks are written exactly when each one can be |
| MidiFileIo.WrittenTracksLength | core/grim/src/midi/io.rs:363-366 | one written track per track |
| MidiFileIo.WrittenTracksAt | core/grim/src/midi/io.rs:363-366 | written track `k` is `generate_track` of track `k` |
| MidiFileIo.WrittenTracksErr | core/grim/src/midi/io.rs:363-366 | a track that cannot be written fails the whole file |
| MidiFileIo.WriteToFile | core/grim/src/midi/io.rs:346-371 | succeeds exactly when `SmfOf` does, and gives it |
| MidiFileIo.WrittenReadsBack | core/grim/src/midi/io.rs:346-371 | a written file (format 0 to 2, resolution below 2^15, tempos below 2^24) reads back with its format, resolution, tempo changes and track count |
| MidiIo.FormatRoundTrip | core/grim/src/midi/io.rs:21-25 | format numbers and midly formats convert back and forth; a number above 2 is written as 2 |
| MidiIo.TicksPerQuarter | core/grim/src/midi/io.rs:27-30 | metrical timing gives its resolution; timecode timing is the panic |
| MidiIo.TotalTicksStep | core/grim/src/midi/io.rs:37 | the end position is the sum of the deltas |
| MidiIo.TemposFromSorted | core/grim/src/midi/io.rs:33-53 | the tempo changes come out in position order, between the start and the end of the track |
| MidiIo.ReadTempoTrack | core/grim/src/midi/io.rs:33-53 | fails exactly when the positions leave the `u64` range; otherwise gives `TemposFrom` |
| MidiIo.ValidStateLater | core/grim/src/midi/io.rs:55-160 | the pairing state stays valid at later positions |
| MidiIo.PairStepValid | core/grim/src/midi/io.rs:64-159 | one event keeps the pairing state valid |
| MidiIo.NoteEnds | core/grim/src/midi/io.rs:95-106 | a note-off or a zero-velocity note-on closes the pending note on that key, emitting it with its length unless the length is 0 |
| MidiIo.NoteStarts | core/grim/src/midi/io.rs:122-135 | a note-on with no pending note on that key starts one, unless its velocity is 0 |
| MidiIo.PairAll | core/grim/src/midi/io.rs:64-160 | pairing a whole track keeps the state valid at its end |
| MidiIo.CloseUpToNotes | core/grim/src/midi/io.rs:162-174 | every pending note that started before the end is emitted with its length to the end, and nothing else is |
| MidiIo.PairAllStep | core/grim/src/midi/io.rs:64-65 | events are paired one at a time at their absolute positions |
| MidiIo.TrackOfNotes | core/grim/src/midi/io.rs:58-184 | a track read is in position order, and every note has a positive length, ends by the end of the track and has a key below 128 |
| MidiIo.ReadTrack | core/grim/src/midi/io.rs:58-184 | fails exactly when the positions leave the `u64` range; otherwise gives `TrackOf`, leaving no note pending |
| MidiIo.ReadEvent | core/grim/src/midi/io.rs:64-159 | one turn of the loop keeps the pairing state the spec function describes |
| MidiIo.TrackOfFinal | core/grim/src/midi/io.rs:162-183 | the track is the paired events and the closed remaining notes, sorted |
| MidiIo.PairEvent | core/grim/src/midi/io.rs:67-159 | the pending-note table and the output change as `PairStep` says |
| MidiIo.PairNoteOn | core/grim/src/midi/io.rs:91-136 | a note-on changes them as `PairStep` says |
| MidiIo.PairNoteOff | core/grim/src/midi/io.rs:137-150 | a note-off changes them as `PairStep` says |
| MidiIo.CloseRemaining | core/grim/src/midi/io.rs:162-174 | emits `CloseAll` of the pending notes and leaves none pending |
| MidiWrite.Delta28 | core/grim/src/midi/io.rs:312-314 | the delta written keeps the low 28 bits of the distance truncated to 32 bits, and is the distance itself below 2^28 |
| MidiWrite.WritableInit | core/grim/src/midi/io.rs:276-282 | the first events can be written exactly when all but the last can and the last keeps within `MAX_DELTA` of the one before |
| MidiWrite.DeltasOfLength | core/grim/src/midi/io.rs:311-316 | one written event per timed event; the position reached is that of the last event |
| MidiWrite.DeltasOfAt | core/grim/src/midi/io.rs:311-316 | written event `k` has the kind of timed event `k` and its distance from the one before as its delta |
| MidiWrite.DeltasOfShape | core/grim/src/midi/io.rs:311-316 | the length, kinds and deltas of a written timeline together |
| MidiWrite.DeltasOfOk | core/grim/src/midi/io.rs:276-282 | writing fails exactly when a position goes back or a checked delta exceeds `MAX_DELTA` |
| MidiWrite.DeltasOfErrExtends | core/grim/src/midi/io.rs:276-282 | a failure stays a failure when more events follow |
| MidiWrite.DeltasOfPrefix | core/grim/src/midi/io.rs:311-316 | writing a prefix of a timeline gives a prefix of its writing |
| MidiWrite.DeltasTotal | core/grim/src/midi/io.rs:311-316 | when every distance fits 28 bits the deltas add up to the last position |
| MidiWrite.DeltasAddUp | core/grim/src/midi/io.rs:311-316 | when every distance fits 28 bits the first `k + 1` deltas add up to the position of event `k` |
| MidiWrite.TempoTimeline | core/grim/src/midi/io.rs:201-219 | one checked timed event per tempo change, at its position, with its tempo |
| MidiWrite.GenerateTempoTrack | core/grim/src/midi/io.rs:192-228 | fails exactly when the tempo track cannot be written; otherwise gives `TempoTrackOf` |
| MidiWrite.TempoTrackOk | core/grim/src/midi/io.rs:192-228 | the tempo track fails exactly when the changes go back or are more than `MAX_DELTA` apart; it starts with the name and ends with the end of track |
| MidiWrite.TemposFromAppend | core/grim/src/midi/io.rs:33-53 | reading two tracks one after the other reads the tempo changes of the first, then of the second from where the first ended |
| MidiWrite.TempoRoundTrip | core/grim/src/midi/io.rs:192-228 | reading back a written tempo track gives the tempo list, when every tempo fits 24 bits |
| MidiWrite.TemposFromWritten | core/grim/src/midi/io.rs:201-219 | the tempo events written read back as the tempo list, and their deltas add up to the last position |
| MidiWrite.TempoWrittenStep | core/grim/src/midi/io.rs:201-219 | one more tempo event read adds its change at its position |
| MidiWrite.DeltasOfLast | core/grim/src/midi/io.rs:311-316 | writing a timeline ends with its last event written after the others |
| MidiWrite.PlanPrefix | core/grim/src/midi/io.rs:246-318 | the timeline after fewer events is a prefix of the timeline after more |
| MidiWrite.DeltasOfErrPrefix | core/grim/src/midi/io.rs:276-282 | a failure on a prefix of the timeline is a failure of the whole |
| MidiWrite.TrackErrAt | core/grim/src/midi/io.rs:246-318 | a failure at event `i` or at the note-offs due before it fails the whole track |
| MidiWrite.WriteDueOffs | core/grim/src/midi/io.rs:252-273 | takes the note-offs due by the event from the heap, smallest first, and writes them, or fails as the timeline does |
| MidiWrite.WriteRemainingOffs | core/grim/src/midi/io.rs:320-335 | writes every note-off left, smallest first, or fails as the timeline does |
| MidiWrite.DeltasOfSnoc | core/grim/src/midi/io.rs:311-316 | writing one more event continues the writing of the ones before |
| MidiWrite.DeltaStepChecked | core/grim/src/midi/io.rs:276-282 | a checked event within `MAX_DELTA` is written with its distance as its delta |
| MidiWrite.PlanNext | core/grim/src/midi/io.rs:246-318 | one more event: the due note-offs, then the event; a note pushes its note-off, or fails when its end leaves the `u64` range |
| MidiWrite.PlanErrStays | core/grim/src/midi/io.rs:246-318 | a failure while planning a prefix is a failure of the whole timeline |
| MidiWrite.GenerateTrack | core/grim/src/midi/io.rs:230-344 | fails exactly when the track's timeline cannot be written; otherwise gives `TrackEventsOf` |
| MidiWrite.WriteEvent | core/grim/src/midi/io.rs:246-318 | one turn of the event loop advances the plan and its writing by one event, or reports a failure of the whole track |
| MidiWrite.WriteChecked | core/grim/src/midi/io.rs:276-316 | the event itself after its due note-offs: the plan and its writing advance, or the track fails |
| MidiWrite.FilterAppend | core/grim/src/midi/io.rs:246-335 | the events and the note-offs of a concatenation are those of its parts |
| MidiWrite.FlushAllUnchecked | core/grim/src/midi/io.rs:320-335 | the note-offs left are written as note-offs |
| MidiWrite.FlushUpToSplit | core/grim/src/midi/io.rs:252-273 | the due note-offs followed by those left are the heap's note-offs, in order |
| MidiWrite.InsertOffAll | core/grim/src/midi/io.rs:287-288 | pushing a note-off adds it to those in the heap |
| MidiWrite.FlushUpToUnchecked | core/grim/src/midi/io.rs:252-273 | the due note-offs are written as note-offs |
| MidiWrite.PlanStepContents | core/grim/src/midi/io.rs:246-318 | a step adds the event to the written events and its note-off to the note-offs written or pending |
| MidiWrite.StepFilters | core/grim/src/midi/io.rs:246-318 | the written events and note-offs of a timeline grown by a step |
| MidiWrite.PlanStepOffs | core/grim/src/midi/io.rs:252-288 | the note-offs pending after a step: those not yet due, and the event's own |
| MidiWrite.MultisetRegroup | core/grim/src/midi/io.rs:246-335 | regrouping the note-offs between the written ones and the heap keeps them the same |
| MidiWrite.PlanContents | core/grim/src/midi/io.rs:246-318 | after `i` events the plan holds them in order, and its note-offs, written or pending, are exactly those of their notes |
| MidiWrite.TimelineContents | core/grim/src/midi/io.rs:230-344 | a written track holds every event once, in order, at its position (a note as its note-on), and exactly one note-off per note at its end |
| MidiWrite.PlanOk | core/grim/src/midi/io.rs:284-288 | the timeline fails exactly when a note ends past the `u64` range |
| MidiWrite.InsertOffMultiset | core/grim/src/midi/io.rs:287-288 | pushing onto the heap adds exactly the one note-off |
| MidiWrite.InsertOffSorted | core/grim/src/midi/io.rs:287-288 | pushing onto the heap keeps it ordered as a min-heap hands its items out |
| MidiWrite.AppendSorted | core/grim/src/midi/io.rs:246-335 | two ordered timelines, the first ending by the start of the second, make an ordered timeline |
| MidiWrite.FlushUpToOrder | core/grim/src/midi/io.rs:252-273 | the due note-offs come out in order up to the limit; those left are in order and past it |
| MidiWrite.FlushAllOrder | core/grim/src/midi/io.rs:320-335 | the note-offs left come out in order |
| MidiWrite.PlanStepOrder | core/grim/src/midi/io.rs:246-318 | a step over a track in position order keeps the plan in order |
| MidiWrite.PlanStepTimedOrder | core/grim/src/midi/io.rs:246-318 | the timeline after a step is in order |
| MidiWrite.PlanStepOffsOrder | core/grim/src/midi/io.rs:252-288 | the heap after a step is in order and holds nothing before the event |
| MidiWrite.InsertOffFrom | core/grim/src/midi/io.rs:287-288 | pushing a note-off at or after a bound keeps every pending position at or after it |
| MidiWrite.PlanOrder | core/grim/src/midi/io.rs:246-318 | over a track in position order the plan stays in order |
| MidiWrite.TimelineSorted | core/grim/src/midi/io.rs:230-344 | a track in position order is written in position order, note-offs included |
| TextureCommon.ReadU16 | core/grim/src/texture/common.rs:5-7 | the first byte is the low byte and the second the high byte |
| TextureCommon.ReadU16Be | core/grim/src/texture/common.rs:9-11 | the first byte is the high byte and the second the low byte |
| TextureCommon.ReadU24 | core/grim/src/texture/common.rs:13-15 | three bytes, low first, fill the low 24 bits; the top byte is 0 |
| TextureCommon.ReadU24Be | core/grim/src/texture/common.rs:17-19 | three bytes, high first, fill the low 24 bits; the top byte is 0 |
| TextureCommon.BigEndianReadsReversed | core/grim/src/texture/common.rs:5-19 | each big-endian read is the little-endian read of the reversed bytes |
| TextureCommon.Rgb565 | core/grim/src/texture/common.rs:85-92 | four channels, alpha opaque |
| TextureCommon.UnpackRgb565 | core/grim/src/texture/common.rs:85-92 | the four output bytes are `Rgb565(c)` |
| TextureCommon.Rgb565Widens | core/grim/src/texture/common.rs:88-90 | each of the 5, 6 and 5-bit fields is widened to 8 bits by repeating its top bits below it |
| TextureCommon.Rgb565RoundTrip | core/grim/src/texture/common.rs:85-92 | widening loses nothing: packing the three channels back gives `c` |
| TextureCommon.AlphaIndices | core/grim/src/texture/common.rs:104-113 | eight indices from three bytes |
| TextureCommon.AlphaIndicesFields | core/grim/src/texture/common.rs:104-113 | index `k` is bits 3k to 3k+2 of the little-endian 24-bit value, so every index is below 8 |
| TextureCommon.UnpackAlphaFromBytes | core/grim/src/texture/common.rs:104-113 | writes the eight indices at `at` and leaves the rest of the buffer alone |
| TextureCommon.UnpackAlphaIndices | core/grim/src/texture/common.rs:94-97 | the sixteen indices are those of bytes 0-2, then those of bytes 3-5 |
| TextureCommon.UnpackAlphaIndices360 | core/grim/src/texture/common.rs:99-102 | the sixteen indices are those of bytes 1, 0, 3, then those of bytes 2, 5, 4 |
| TextureCommon.AlphaIndices360Swapped | core/grim/src/texture/common.rs:99-102 | the Xbox 360 order is the ordinary order over the pair-swapped bytes |
| TextureCommon.BitPairs | core/grim/src/texture/common.rs:117-120 | four fields per byte |
| TextureCommon.BitPairsRepack | core/grim/src/texture/common.rs:117-120 | each index is below 4, and the four fields, lowest first, pack back into the byte |
| TextureCommon.Indices | core/grim/src/texture/common.rs:115-122 | sixteen indices from four bytes |
| TextureCommon.IndicesBe | core/grim/src/texture/common.rs:137-144 | sixteen indices from four bytes |
| TextureCommon.IndicesBeReversed | core/grim/src/texture/common.rs:137-144 | the big-endian unpacking reverses each group of four of the ordinary one |
| TextureCommon.WriteIndexGroup | core/grim/src/texture/common.rs:116-121 | writes the four indices of one byte at group `i` and nothing else |
| TextureCommon.UnpackGroups | core/grim/src/texture/common.rs:116-121 | group `i` of the output holds the indices of byte `order[i]` |
| TextureCommon.Groups | core/grim/src/texture/common.rs:116-121 | four indices per group |
| TextureCommon.GroupsFour | core/grim/src/texture/common.rs:116-121 | the four groups, each from its byte of `order` |
| TextureCommon.GroupsInOrder | core/grim/src/texture/common.rs:115-144 | the groups in the order 0, 1, 2, 3 are `Indices` or `IndicesBe` |
| TextureCommon.UnpackIndices | core/grim/src/texture/common.rs:115-122 | the output is `Indices(packed)` |
| TextureCommon.UnpackIndicesBe | core/grim/src/texture/common.rs:137-144 | the output is `IndicesBe(packed)` |
| TextureCommon.UnpackIndices360 | core/grim/src/texture/common.rs:124-135 | the output is the ordinary unpacking of the pair-swapped bytes |
| TextureCommon.Mix6633 | core/grim/src/texture/common.rs:68-76 | red, green and blue are each mixed two parts to one; alpha is 0xFF |
| TextureCommon.MixColors6633 | core/grim/src/texture/common.rs:68-76 | the output is `Mix6633` |
| TextureCommon.Mix6633ChannelBetween | core/grim/src/texture/common.rs:71 | a mixed channel lies between the inputs, is `(2a + b) / 3` rounded down, and mixing a value with itself gives it back |
| TextureCommon.Mix5050AsWritten | core/grim/src/texture/common.rs:78-83 | every channel, alpha included, mixed two parts to one as the code does |
| TextureCommon.Mix5050AsWrittenNotEven | core/grim/src/texture/common.rs:78-83 | black and white mix to 0x55 one way and 0xAA the other, where an even mix gives 0x7F |
| TextureCommon.Mix5050 | core/grim/src/texture/common.rs:78-83 | every channel, alpha included, is the even mix |
| TextureCommon.MixColors5050 | core/grim/src/texture/common.rs:78-83 | the output is `Mix5050` |
| TextureCommon.Mix5050Even | core/grim/src/texture/common.rs:78-83 | the even mix is symmetric and halfway between the inputs, rounded down |
| TextureCommon.ZeroOut | core/grim/src/texture/common.rs:146-150 | every byte of the colour becomes 0 |
| TextureCommon.RowStartIsProduct | core/grim/src/texture/common.rs:195-197 | the start of row `y` is `y` times the row length |
| TextureCommon.RowStartMono | core/grim/src/texture/common.rs:195-197 | a later row starts no earlier |
| TextureCommon.LinearOffsetApart | core/grim/src/texture/common.rs:195-197 | distinct pixels within the width have byte ranges at least four apart |
| TextureCommon.RowsApart | core/grim/src/texture/common.rs:195-197 | a pixel of a row ends before any pixel of a later row starts |
| TextureCommon.Put | core/grim/src/texture/common.rs:160 | a write keeps the buffer length |
| TextureCommon.PutAt | core/grim/src/texture/common.rs:160 | the written bytes land at their offsets |
| TextureCommon.PutKeeps | core/grim/src/texture/common.rs:160 | a byte outside the written range keeps its value |
| TextureCommon.BlockWrites | core/grim/src/texture/common.rs:157-162 | the block writes keep the buffer length |
| TextureCommon.FitsByLastPixel | core/grim/src/texture/common.rs:152-197 | when the last pixel of the block fits the buffer, every pixel does |
| TextureCommon.PutBytes | core/grim/src/texture/common.rs:160 | the array afterwards is `Put` of the old contents |
| TextureCommon.WriteBlock | core/grim/src/texture/common.rs:157-162 | the array afterwards is all sixteen block writes, row by row, applied to the old contents |
| TextureCommon.WriteRow | core/grim/src/texture/common.rs:158-161 | the four writes of row `yi` are applied |
| TextureCommon.BlockPixel | core/grim/src/texture/common.rs:159 | pixel `4 * yi + xi` of the block is at column `x + xi` of row `y + yi` |
| TextureCommon.BlockWritesStep | core/grim/src/texture/common.rs:157-162 | each pixel's write follows those before it |
| TextureCommon.PixelColours | core/grim/src/texture/common.rs:160 | pixel `k` gets colour `ind[k]` |
| TextureCommon.CopyUnpackedPixels | core/grim/src/texture/common.rs:152-163 | the block's sixteen pixels get the colours of their indices, written over the old contents |
| TextureCommon.ChannelValues | core/grim/src/texture/common.rs:177 | pixel `k` gets channel value `ind[k]` |
| TextureCommon.CopyUnpackedChannels | core/grim/src/texture/common.rs:169-180 | byte `i` of pixel `k` gets `channels[ind[k]]`, written over the old contents |
| TextureCommon.CopyUnpackedAlphas | core/grim/src/texture/common.rs:165-167 | the channel writes into byte 3 |
| TextureCommon.ConstantValues | core/grim/src/texture/common.rs:190 | every pixel gets `value` |
| TextureCommon.SetChannelsValue | core/grim/src/texture/common.rs:182-193 | byte `i` of every pixel of the block becomes `value`, written over the old contents |
| TextureCommon.BlockWritesContents | core/grim/src/texture/common.rs:152-197 | within the width the writes do not overlap: every pixel ends with its own values and every other byte keeps its value |
| TextureCommon.BlockWritesPrefix | core/grim/src/texture/common.rs:152-197 | the same for the first `m` writes |
| TextureCommon.PixelsApart | core/grim/src/texture/common.rs:195-197 | distinct pixels of a block within the width are four bytes apart or more |
| TextureCommon.SwapPairs | core/grim/src/texture/common.rs:206-220 | the pair swap keeps the length |
| TextureCommon.SwappedImage | core/grim/src/texture/common.rs:199-222 | the swap keeps the length |
| TextureCommon.SwapImageBytes | core/grim/src/texture/common.rs:199-222 | the array afterwards is `SwappedImage` of the old contents |
| TextureCommon.ChunkBounds | core/grim/src/texture/common.rs:202 | the chunk after a whole number of full chunks is whole |
| TextureCommon.SwappedChunk | core/grim/src/texture/common.rs:206-220 | in each full chunk every pair of neighbours is exchanged |
| TextureCommon.SwapChunk | core/grim/src/texture/common.rs:203-221 | swaps the four pairs of one chunk and leaves every other byte alone |
| TextureCommon.SwappedImageTwice | core/grim/src/texture/common.rs:199-222 | swapping twice gives the bytes back |
| TextureCommon.SwappedImageIsPairSwap | core/grim/src/texture/common.rs:199-222 | on a whole number of chunks the swap is the Xbox 360 pair swap |
| TextureIo.CalcRgbaSize | core/grim/src/texture/io.rs:267-283 | the size is `RgbaSize`: four bytes per pixel summed over the base level and each mip level, halving the width and height each time |
| TextureIo.RgbaSizeExamples | core/grim/src/texture/io.rs:401-408 | 64x64 with no mips is 16384 bytes, with two mips 21504; 256x256 with four mips is 349184; 4096x4096 with none is 67108864 |
| TextureIo.RgbaSizeBounds | core/grim/src/texture/io.rs:267-283 | the size is at least the base level and at most four thirds of it |
| TextureIo.MipSlices | core/grim/src/texture/io.rs:130-158 | the source and rgba slices the mip loop decodes are `MipPlan` |
| TextureIo.Level | core/grim/src/texture/io.rs:140-143 | one level reads `w * h * bpp / 8` encoded bytes and fills `w * h * 4` rgba bytes at the current starts |
| TextureIo.PlanStep | core/grim/src/texture/io.rs:139-158 | one turn of the mip loop appends a level and moves both starts past it |
| TextureIo.MipPlanNext | core/grim/src/texture/io.rs:139-158 | the plan is the first level, then the plan of the halved image from the end of the first |
| TextureIo.MipPlanTiles | core/grim/src/texture/io.rs:128-158 | `mips + 1` levels that follow one another without gaps, from the start of both buffers to the end of the rgba buffer `calc_rgba_size` gives |
| TextureIo.UnpackDecoder | core/grim/src/texture/io.rs:100-211 | zero width or height is `UnsupportedResolution`; PS2 with encoding 3 decodes the palette bitmap; PS3 and Xbox 360 with encodings 8, 24 and 32 decode DXT (Xbox 360 byte order on the 360); Wii with 72 and 328 decodes TPL; anything else is `UnsupportedEncoding` |
| TextureIo.AlphaUpdated | core/grim/src/texture/io.rs:340-358 | the update keeps the length |
| TextureIo.UpdateAlphaChannels | core/grim/src/texture/io.rs:340-358 | the array afterwards is `AlphaUpdated` of the old contents: only every fourth byte from byte 3 changes, reduced (0xFF to 0x80, else halved) or expanded (0x80 and up to 0xFF, else doubled) |
| TextureIo.ReduceUndoesExpand | core/grim/src/texture/io.rs:340-358 | reducing undoes expanding for alphas up to 0x80 |
| TextureIo.ExpandAfterReduce | core/grim/src/texture/io.rs:340-358 | expanding after reducing gives 0xFF back and drops the lowest bit of any other alpha |
| TextureIo.AlphaRoundTrip | core/grim/src/texture/io.rs:340-358 | expanding then reducing gives the bytes back when every alpha is at most 0x80 |
| TextureIo.PaletteSize | core/grim/src/texture/io.rs:290 | the palette is 64 bytes at 4 bpp and 1024 at 8 bpp |
| TextureIo.LowIndex | core/grim/src/texture/io.rs:304 | the low nibble picks one of the 16 palette colours |
| TextureIo.HighIndex | core/grim/src/texture/io.rs:305 | the high nibble picks one of the 16 palette colours |
| TextureIo.Swap34Bits | core/grim/src/texture/io.rs:324-326 | the index keeps bits other than 3 and 4, exchanges those two, and swapping twice gives it back |
| TextureIo.Swap34Example | core/grim/src/texture/io.rs:323 | 0110 1011 becomes 0111 0011 |
| TextureIo.Pixels4 | core/grim/src/texture/io.rs:302-314 | two pixels per encoded byte |
| TextureIo.PixelPair | core/grim/src/texture/io.rs:308-309 | two pixels per encoded byte |
| TextureIo.Pixels8 | core/grim/src/texture/io.rs:317-330 | one pixel per encoded byte |
| TextureIo.Pixel | core/grim/src/texture/io.rs:329 | one pixel per encoded byte |
| TextureIo.Pixels4At | core/grim/src/texture/io.rs:304-309 | pixel pair `j` is the palette colour of the low nibble of byte `j`, then that of its high nibble |
| TextureIo.Pixels4Pair | core/grim/src/texture/io.rs:302-314 | pixel pair `j` is the pair of encoded byte `j` |
| TextureIo.Pixels8At | core/grim/src/texture/io.rs:317-330 | pixel `j` is the palette colour of encoded byte `j` with bits 3 and 4 swapped |
| TextureIo.Palette | core/grim/src/texture/io.rs:290-292 | the palette is the first `1 << (bpp + 2)` bytes of the raw data |
| TextureIo.DecodeFromBitmap | core/grim/src/texture/io.rs:286-338 | fails exactly when bpp is neither 4 nor 8, changing nothing; otherwise the rgba buffer holds the 4-bpp pixel pairs or the 8-bpp pixels of the alpha-expanded palette |
| TextureIo.Decode4 | core/grim/src/texture/io.rs:297-314 | the buffer holds the pixel pairs of the first `len / 8` encoded bytes |
| TextureIo.CopyPair | core/grim/src/texture/io.rs:308-309 | writes one pixel pair after the pixels already written |
| TextureIo.Decode8 | core/grim/src/texture/io.rs:317-330 | the first `min(len / 4, encoded)` pixels hold their palette colours and the rest of the buffer is untouched |
| TextureIo.CopyColor | core/grim/src/texture/io.rs:329 | writes one palette colour at `at` and nothing else |
| CharBones.FindDot | core/grim/src/scene/char_bones_samples/mod.rs:50 | the index of the first `.`, or none exactly when there is no `.` |
| CharBones.AsciiLower | core/grim/src/scene/char_bones_samples/mod.rs:55 | lowering keeps the length |
| CharBones.LowerTwice | core/grim/src/scene/char_bones_samples/mod.rs:55 | lowering is idempotent |
| CharBones.Extension | core/grim/src/scene/char_bones_samples/mod.rs:50-55 | there is an extension exactly when the name has a `.` |
| CharBones.GetTypeOf | core/grim/src/scene/char_bones_samples/mod.rs:47-65 | 0 to 5 when the lowercase extension from the first `.` is `.pos`, `.scale`, `.quat`, `.rotx`, `.roty` or `.rotz`; 7 exactly when there is no `.` or the extension is another |
| CharBones.ExtensionType | core/grim/src/scene/char_bones_samples/mod.rs:56-64 | the table from extension to type number, 7 exactly for an unknown extension |
| CharBones.ExtensionTypeOf | core/grim/src/scene/char_bones_samples/mod.rs:56-64 | each of the six extensions maps to its own number |
| CharBones.GetTypeOfExtension | core/grim/src/scene/char_bones_samples/mod.rs:115-120 | a bone name without a dot followed by one of the six extensions gets that extension's number |
| CharBones.GetTypeOfAnyCase | core/grim/src/scene/char_bones_samples/mod.rs:55 | the extension matches in any letter case |
| CharBones.GetTypeOfIgnoresCase | core/grim/src/scene/char_bones_samples/mod.rs:55 | the type of a name does not change when its extension is lowered |
| CharBones.FindDotAfter | core/grim/src/scene/char_bones_samples/mod.rs:50 | a name without a dot followed by an extension has its first dot where the extension starts |
| CharBones.LowerKeeps | core/grim/src/scene/char_bones_samples/mod.rs:57-62 | the six extensions are already lowercase |
| CharBones.GetTypeOfExamples | core/grim/src/scene/char_bones_samples/mod.rs:111-114 | the empty name, `bone`, `bone.` and `bone.pdf` give 7 |
| CharBones.TypeSize | core/grim/src/scene/char_bones_samples/mod.rs:67-85 | the size is one of 2, 4, 6, 8 or 16 |
| CharBones.TypeSizeTable | core/grim/src/scene/char_bones_samples/mod.rs:125-146 | the sizes for compression 0, 1 and 2 and indices 0 to 6 are the table the test module asserts |
| CharBones.TypeSizeShrinks | core/grim/src/scene/char_bones_samples/mod.rs:67-85 | a higher compression never gives a larger size |
| CharBones.SizesPrefix | core/grim/src/scene/char_bones_samples/mod.rs:88-99 | the computed sizes start at 0 |
| CharBones.ComputedSizes | core/grim/src/scene/char_bones_samples/mod.rs:87-99 | seven computed sizes |
| CharBones.SizesStep | core/grim/src/scene/char_bones_samples/mod.rs:98 | size `i + 1` is size `i` plus the count difference times the type size, wrapping at 32 bits |
| CharBones.SizesExact | core/grim/src/scene/char_bones_samples/mod.rs:87-99 | when the counts do not go down and their spread times 16 fits 32 bits, no step wraps |
| CharBones.RoundUp16 | core/grim/src/scene/char_bones_samples/mod.rs:101 | the flags are a multiple of 16, the least one at or above the last size when that does not wrap |
| CharBones.RecomputeExample | core/grim/src/scene/char_bones_samples/mod.rs:158 | counts 0, 1, 1, 22, 22, 22, 32 at compression 1 give sizes 0, 16, 16, 184, 184, 184, 204 and flags 208 |
| CharBones.RecomputeExamplesCompressed | core/grim/src/scene/char_bones_samples/mod.rs:159-161 | all-zero counts give zero sizes and flags; counts 0, 36, 36, 53, 53, 53, 53 at compression 2 give 0, 216, 216, 352, 352, 352, 352 and flags 352 |
| CharBones.CharBonesSamples.constructor | core/grim/src/scene/char_bones_samples/mod.rs:34-44 | the given compression and counts, computed sizes and flags zero |
| CharBones.CharBonesSamples.RecomputeSizes | core/grim/src/scene/char_bones_samples/mod.rs:87-102 | the computed sizes become `ComputedSizes` of the counts and the flags the last one rounded up to 16; compression and counts stay |
| LipSync.WeightsAt | core/grim/src/scene/char_lip_sync/mod.rs:50-60 | the weights of one frame: at most `count`, read forwards within the data |
| LipSync.FramesAt | core/grim/src/scene/char_lip_sync/mod.rs:42-67 | at most the frames remaining, and no more frames than bytes left |
| LipSync.Frames | core/grim/src/scene/char_lip_sync/mod.rs:35-70 | at most `frames_count` frames, and no more than the data has bytes; none when an index names no viseme (the panic) |
| LipSync.GetFrames | core/grim/src/scene/char_lip_sync/mod.rs:35-70 | the loop returns `Frames` of the lipsync data |
| LipSync.ReadWeights | core/grim/src/scene/char_lip_sync/mod.rs:50-60 | the inner loop returns the weights and the position `WeightsAt` gives |
| LipSync.PackWeights | core/grim/src/scene/char_lip_sync/mod.rs:51-57 | two bytes per weight, index then value |
| LipSync.NamedFrames | core/grim/src/scene/char_lip_sync/mod.rs:59-64 | one named frame per packed frame |
| LipSync.WeightsRoundTrip | core/grim/src/scene/char_lip_sync/mod.rs:50-60 | reading packed weights gives each index's viseme name and weight, and stops after two bytes each |
| LipSync.WeightsShift | core/grim/src/scene/char_lip_sync/mod.rs:50-60 | bytes before the read position do not change what is read |
| LipSync.FramesShift | core/grim/src/scene/char_lip_sync/mod.rs:42-67 | bytes before the read position do not change the frames read |
| LipSync.FramesRoundTrip | core/grim/src/scene/char_lip_sync/mod.rs:42-67 | reading packed frames, each a count byte and its pairs, gives the frames back with their viseme names |
| LipSync.FramesCons | core/grim/src/scene/char_lip_sync/mod.rs:42-67 | a packed frame read before the rest is the first frame read |
| LipSync.FramesTail | core/grim/src/scene/char_lip_sync/mod.rs:42-67 | the frames after the first still pack |
| LipSync.FirstFrame | core/grim/src/scene/char_lip_sync/mod.rs:42-60 | a packed frame starts with its count and is followed by its weights |
| LipSync.FrameStep | core/grim/src/scene/char_lip_sync/mod.rs:42-66 | one turn of the outer loop: the frame's weights, then the frames after it |
| LipSync.NoFramesCounted | core/grim/src/scene/char_lip_sync/mod.rs:44-46 | with `frames_count` 0 no frame is read, whatever the data |
| LipSync.TruncatedFrame | core/grim/src/scene/char_lip_sync/mod.rs:51-57 | a frame cut short after a lone viseme index ends the frames with the weights read so far, without failing |
| LipSync.TruncatedWeights | core/grim/src/scene/char_lip_sync/mod.rs:51-57 | a weight pair cut short ends the frame's weights |
| LipSync.BadIndexPanics | core/grim/src/scene/char_lip_sync/mod.rs:59 | an index past the visemes is the panic |
| Adpcm.Clamp | core/grim/src/audio/adpcm.rs:55-59 | the value kept within the bounds, unchanged when already within them |
| Adpcm.Diff | core/grim/src/audio/adpcm.rs:66-69 | the difference is an eighth of the step plus the step, a half and a quarter of it for magnitude bits 4, 2 and 1 |
| Adpcm.DiffApproximates | core/grim/src/audio/adpcm.rs:66-69 | the difference is `(2m + 1) * step / 8` up to the truncation of the three shifts |
| Adpcm.NextIndex | core/grim/src/audio/adpcm.rs:54-59 | the index moves by the index table entry of the delta and is clamped to 0..88 |
| Adpcm.Predict | core/grim/src/audio/adpcm.rs:71-82 | the sign bit subtracts the difference and its absence adds it, and the result is clamped to the `i16` range |
| Adpcm.Step | core/grim/src/audio/adpcm.rs:45-88 | one nibble keeps the state valid: index in 0..88, value in the `i16` range |
| Adpcm.SignMirrors | core/grim/src/audio/adpcm.rs:3-6 | the sign bit does not change the index step, and mirrors the change of value when nothing is clamped |
| Adpcm.Nibbles | core/grim/src/audio/adpcm.rs:47-51 | two deltas per byte, the low nibble first |
| Adpcm.NibbleAt | core/grim/src/audio/adpcm.rs:47-51 | delta `i` is the low nibble of byte `i / 2` when `i` is even and the high one when it is odd |
| Adpcm.NibblesBelow16 | core/grim/src/audio/adpcm.rs:47-51 | every delta is below 16 |
| Adpcm.NibbleBits | core/grim/src/audio/adpcm.rs:48-50 | the masks and the shift are the remainder and the quotient by 16 |
| Adpcm.DeltaBits | core/grim/src/audio/adpcm.rs:62-69 | the sign and magnitude bit tests are the corresponding arithmetic tests |
| Adpcm.Run | core/grim/src/audio/adpcm.rs:45-89 | one sample per delta, and the state stays valid |
| Adpcm.RunStep | core/grim/src/audio/adpcm.rs:45-89 | each delta appends the value after its step |
| Adpcm.DecodeOutput | core/grim/src/audio/adpcm.rs:41-90 | two samples per byte, and the state stays valid |
| Adpcm.RunConcat | core/grim/src/audio/adpcm.rs:45-89 | decoding two runs one after the other is decoding their concatenation |
| Adpcm.NibblesConcat | core/grim/src/audio/adpcm.rs:47-51 | the deltas of concatenated bytes are the concatenated deltas |
| Adpcm.DecodeResumes | core/grim/src/audio/adpcm.rs:41-90 | the state kept between calls makes two calls decode as one call on the concatenated bytes |
| Adpcm.ZerosDecodeToSilence | core/grim/src/audio/adpcm.rs:45-89 | from the initial state, zero deltas give silence and leave the state initial |
| Adpcm.AdpcmDecoder.constructor | core/grim/src/audio/adpcm.rs:25-29 | a new decoder starts at value 0, index 0 |
| Adpcm.AdpcmDecoder.Reset | core/grim/src/audio/adpcm.rs:31-33 | the state goes back to value 0, index 0 |
| Adpcm.AdpcmDecoder.DecodeWithBuffer | core/grim/src/audio/adpcm.rs:41-90 | the first `2 * len` entries of the buffer become the samples `DecodeOutput` gives from the old state, the rest stay, and the state is the one it ends in |
| Adpcm.AdpcmDecoder.DecodeAt | core/grim/src/audio/adpcm.rs:46-88 | one turn of the loop: one step on delta `i`, its value stored at `i` |
| Adpcm.AdpcmDecoder.Advance | core/grim/src/audio/adpcm.rs:54-85 | the index and value move as `Step` says, and the step size follows the index |
| Adpcm.AdpcmDecoder.Difference | core/grim/src/audio/adpcm.rs:66-69 | computes `Diff` |
| Adpcm.AdpcmDecoder.Decode | core/grim/src/audio/adpcm.rs:35-39 | returns the samples `DecodeOutput` gives from the old state, and keeps the state it ends in |
| StrAudio.TargetFacts | core/grim/src/audio/str.rs:12-17 | left byte `i` lands in the first two bytes of a group of four and right byte `i` in the last two, each where the source index points back to `i` |
| StrAudio.SourceFacts | core/grim/src/audio/str.rs:12-17 | every buffer position is the target of exactly one left or right byte |
| StrAudio.TargetBounds | core/grim/src/audio/str.rs:17 | the right targets of a full chunk stay inside the 1024-byte buffer |
| StrAudio.Written | core/grim/src/audio/str.rs:11-18 | the buffer after the first `nl` left and `nr` right writes keeps its length |
| StrAudio.WrittenNothing | core/grim/src/audio/str.rs:11-18 | no writes leave the buffer as it was |
| StrAudio.Scattered | core/grim/src/audio/str.rs:8-18 | the buffer after both loops keeps its length |
| StrAudio.ScatteredPlaces | core/grim/src/audio/str.rs:8-18 | each left byte is at its left target, each right byte at its right target, and every other position still holds the stale byte from the chunk before |
| StrAudio.LeftPlaced | core/grim/src/audio/str.rs:12 | left byte `i` is at its target |
| StrAudio.RightPlaced | core/grim/src/audio/str.rs:17 | right byte `i` is at its target |
| StrAudio.LeftStep | core/grim/src/audio/str.rs:11-13 | one turn of the left loop writes one byte |
| StrAudio.LeftStepAt | core/grim/src/audio/str.rs:11-13 | the same, position by position |
| StrAudio.RightStep | core/grim/src/audio/str.rs:16-18 | one turn of the right loop writes one byte |
| StrAudio.RightStepAt | core/grim/src/audio/str.rs:16-18 | the same, position by position |
| StrAudio.DeinterleaveFrom | core/grim/src/audio/str.rs:7-22 | the data keeps its length |
| StrAudio.ChunkStep | core/grim/src/audio/str.rs:7-22 | each chunk becomes the front of the scattered buffer, and the next chunk starts from that buffer |
| StrAudio.Zeros | core/grim/src/audio/str.rs:5 | the scratch buffer starts as zeros |
| StrAudio.Deinterleave | core/grim/src/audio/str.rs:4-23 | the data keeps its length |
| StrAudio.DeinterleaveBlock | core/grim/src/audio/str.rs:8-21 | a whole group of four keeps its length |
| StrAudio.InterleaveBlock | core/grim/src/audio/str.rs:8-21 | the inverse keeps the length |
| StrAudio.GatherLeft | core/grim/src/audio/str.rs:12 | interleaving back finds every left byte |
| StrAudio.GatherRight | core/grim/src/audio/str.rs:17 | interleaving back finds every right byte |
| StrAudio.InterleaveUndoesDeinterleave | core/grim/src/audio/str.rs:7-21 | on a chunk whose length is a multiple of four interleaving undoes the swap, so no byte is lost or duplicated |
| StrAudio.DeinterleaveUndoesInterleave | core/grim/src/audio/str.rs:7-21 | and deinterleaving undoes interleaving: the chunk's output is a permutation of its input |
| StrAudio.AlignedChunk | core/grim/src/audio/str.rs:8-21 | a chunk whose length is a multiple of four does not depend on the stale buffer |
| StrAudio.Blocks | core/grim/src/audio/str.rs:7-22 | the data keeps its length |
| StrAudio.AlignedData | core/grim/src/audio/str.rs:4-23 | data whose length is a multiple of four deinterleaves chunk by chunk, whatever the buffer held |
| StrAudio.ShortChunk | core/grim/src/audio/str.rs:8-21 | a two-byte last chunk keeps a stale byte from the chunk before: the output shows the buffer's byte 1 |
| StrAudio.DeinterleaveStr | core/grim/src/audio/str.rs:4-23 | the array afterwards is `Deinterleave` of the old contents |
| StrAudio.NextChunk | core/grim/src/audio/str.rs:7-22 | one chunk is processed; the data before it is final and what follows is still to be processed from the new buffer |
| StrAudio.ScatterChunk | core/grim/src/audio/str.rs:8-18 | the buffer becomes `Scattered` over the chunk |
| StrAudio.ScatterLeft | core/grim/src/audio/str.rs:11-13 | the left loop performs the left writes |
| StrAudio.ScatterRight | core/grim/src/audio/str.rs:16-18 | the right loop performs the right writes |
| StrAudio.CopyBack | core/grim/src/audio/str.rs:21 | the chunk becomes the front of the buffer and nothing else in the data changes |
| VgsAudio.StreamSize | core/grim/src/audio/vgs.rs:94-99 | no channels need no sample data |
| VgsAudio.ChannelTable | core/grim/src/audio/vgs.rs:85-91 | fifteen channel entries, entry `k` read from its eight bytes after the header start |
| VgsAudio.ParseVgs | core/grim/src/audio/vgs.rs:62-104 | a magic other than `VgS!` is `InvalidMagic`; a version other than 2 is `UnsupportedVersion` with that version; success exactly when the header, the table and the sample data are all there, giving version 2, the table and the `StreamSize` bytes after the header; a short read is `UnknownReadError` |
| VgsAudio.FromData | core/grim/src/audio/vgs.rs:62-104 | returns `ParseVgs` of the data |
| VgsAudio.Le32 | core/grim/src/audio/vgs.rs:73 | four bytes per `u32` |
| VgsAudio.ChannelBytes | core/grim/src/audio/vgs.rs:85-91 | eight bytes per channel entry |
| VgsAudio.ChannelBytesAt | core/grim/src/audio/vgs.rs:86-87 | entry `k` is its sample rate, then its block count, little-endian |
| VgsAudio.ParseEncoded | core/grim/src/audio/vgs.rs:62-104 | a well-formed file written out parses back to itself, whatever follows it |
| VgsAudio.TableRoundTrip | core/grim/src/audio/vgs.rs:85-91 | a written channel table reads back |
| VgsAudio.ChannelRoundTrip | core/grim/src/audio/vgs.rs:85-91 | each written entry reads back |
| VgsAudio.WrongMagic | core/grim/src/audio/vgs.rs:67-70 | any other magic is `InvalidMagic`, whatever follows |
| VgsAudio.ChannelCount | core/grim/src/audio/vgs.rs:113-119 | counts the entries with blocks, at most all of them |
| VgsAudio.AudibleCount | core/grim/src/audio/vgs.rs:137-139 | counts the entries with both a sample rate and blocks, at most `get_channel_count` |
| VgsAudio.MaxSampleRate | core/grim/src/audio/vgs.rs:121-128 | the largest sample rate of the table, one of its entries' |
| VgsAudio.HighNibble | core/grim/src/audio/vgs.rs:207-209 | the high nibble is below 16 |
| VgsAudio.LowNibble | core/grim/src/audio/vgs.rs:211-213 | the low nibble is below 16 |
| VgsAudio.NibblesRecombine | core/grim/src/audio/vgs.rs:207-213 | the two nibbles recombine to the byte |
| VgsAudio.BlockStart | core/grim/src/audio/vgs.rs:145 | block `b` of channel `c` starts at `(b * n + c) * 16` |
| VgsAudio.LayoutFrom | core/grim/src/audio/vgs.rs:136-155 | one list of block starts per audible channel |
| VgsAudio.BlockStarts | core/grim/src/audio/vgs.rs:130-158 | the loops slice exactly the block starts `Layout` gives |
| VgsAudio.ChannelBlockStarts | core/grim/src/audio/vgs.rs:144-152 | the inner loop slices block `b` at `BlockStart(b, n, c)` |
| VgsAudio.BlockFits | core/grim/src/audio/vgs.rs:144-148 | a block of a channel below `n` lies inside `n` channels' worth of blocks |
| VgsAudio.BlocksDisjoint | core/grim/src/audio/vgs.rs:144-148 | two different blocks of channels below `n` do not overlap |
| VgsAudio.LayoutChannelsBelowCount | core/grim/src/audio/vgs.rs:136-155 | each audible channel's index is below the count used, and its blocks are at `BlockStart` |
| VgsAudio.UniformSize | core/grim/src/audio/vgs.rs:94-99 | when every channel with blocks is audible and has the same count, the data is that many blocks of each |
| VgsAudio.UniformBlocksFit | core/grim/src/audio/vgs.rs:136-155 | with such channels every block sliced lies inside the data |
| VgsAudio.UniformBlockCounts | core/grim/src/audio/vgs.rs:144 | with audible channels of one block count every channel has that many blocks |
| VgsAudio.SilentChannelOverruns | core/grim/src/audio/vgs.rs:113-148 | a silent channel with blocks counts towards the stride but not the data, so a block sliced runs past the data |
| VgsAudio.AudibleSize | core/grim/src/audio/vgs.rs:94-99 | when the audible channels share their block count, the data is that many blocks of each |
| VgsAudio.CorrectedBlocksFit | core/grim/src/audio/vgs.rs:136-155 | striding by the audible channels, every block sliced lies inside the data |
| VgsAudio.SilentChannelCorrected | core/grim/src/audio/vgs.rs:136-155 | the file of the overrun is sliced within its data by the corrected stride |
| Xma.Le8 | core/grim/src/audio/xma.rs:117-118 | one byte |
| Xma.Le16 | core/grim/src/audio/xma.rs:101 | two bytes |
| Xma.Le32 | core/grim/src/audio/xma.rs:102 | four bytes |
| Xma.IntoArray | core/grim/src/audio/xma.rs:96-122 | 52 bytes |
| Xma.Take | core/grim/src/audio/xma.rs:96-122 | reads one field of the given width and leaves the rest |
| Xma.TakePiece | core/grim/src/audio/xma.rs:96-122 | a little-endian field written before the rest reads back |
| Xma.IntoArrayRoundTrip | core/grim/src/audio/xma.rs:96-122 | every field of the format comes back from the 52 bytes, each little-endian in its place |
| Xma.IntoArrayConstants | core/grim/src/audio/xma.rs:100-106 | the bytes start with the XMA2 tag 0x166, and hold 16 bits per sample and the extra size 34 |
| Xma.ChunkBytes | core/grim/src/audio/xma.rs:162-164 | a chunk takes its id, its length and its data |
| Xma.BuildToVec | core/grim/src/audio/xma.rs:148-168 | returns `RiffBytes`: the header, then each chunk in order |
| Xma.WriteHeader | core/grim/src/audio/xma.rs:149-158 | writes `RIFF`, the total chunk size as a little-endian `u32`, and the type when there is one |
| Xma.WriteChunk | core/grim/src/audio/xma.rs:162-164 | appends the chunk's id, its length as a little-endian `u32` and its data |
| Xma.ChunksSnoc | core/grim/src/audio/xma.rs:161-165 | a chunk added last is written last |
| Xma.ChunksLength | core/grim/src/audio/xma.rs:176-178 | the chunks take the sum of their sizes |
| Xma.RiffLength | core/grim/src/audio/xma.rs:148-179 | the output is 8 bytes longer than the total chunk size, and starts with `RIFF` |
| Xma.RiffSizeField | core/grim/src/audio/xma.rs:149-155 | the size field is the output length less 8, truncated to 32 bits |
| Xma.AndChunkAppends | core/grim/src/audio/xma.rs:143-146 | adding a chunk adds 8 plus its data length to the total, and its bytes after the others |
| Xma.SumSnoc | core/grim/src/audio/xma.rs:176-178 | the total grows by the size of the chunk added |
| Xma.ChunksRoundTrip | core/grim/src/audio/xma.rs:161-165 | the written chunks parse back to the chunks |
| Xma.RiffRoundTrip | core/grim/src/audio/xma.rs:148-168 | the output parses back to the builder's type and chunks when every size fits 32 bits |
| Gltf.MaskRoundsDown | core/grim_gltf/src/lib.rs:269 | masking off the low two bits rounds down to a multiple of 4 |
| Gltf.AlignIsLeastMultiple | core/grim_gltf/src/lib.rs:268-270 | the aligned length is the least multiple of 4 at or above `n` |
| Gltf.Pad4 | core/grim_gltf/src/lib.rs:128-132 | a view's data padded with zeros to its aligned length |
| Gltf.ComponentType.Size | core/grim_gltf/src/lib.rs:211-213 | a component takes the size of its width: 2 bytes for `u16`, 4 for `f32` |
| Gltf.Encode | core/grim_gltf/src/lib.rs:233-235 | a component is encoded in its size |
| Gltf.EncodeItem | core/grim_gltf/src/lib.rs:63-66 | an item takes its arity times the component size |
| Gltf.EncodedLength | core/grim_gltf/src/lib.rs:59-75 | the data stream is one stride per item |
| Gltf.Arity | core/grim_gltf/src/lib.rs:47-55 | the accessor types have the supported arities 1, 2, 3, 4, 9 and 16 |
| Gltf.ArityRoundTrip | core/grim_gltf/src/lib.rs:47-55 | arity and accessor type convert back and forth |
| Gltf.NameOf | core/grim_gltf/src/lib.rs:104-107 | a name is kept exactly when it is not empty |
| Gltf.ColumnExtremes | core/grim_gltf/src/lib.rs:59-75 | the minimum and maximum of each column are values of that column, bounding all of them |
| Gltf.Columns | core/grim_gltf/src/lib.rs:59-75 | one minimum or maximum per column |
| Gltf.UpsertPlacesData | core/grim_gltf/src/lib.rs:24-37 | the data goes at the end of its stride's view; a new stride's view gets the next index and offset 0; views of other strides do not change |
| Gltf.StrideField | core/grim_gltf/src/lib.rs:144-148 | a view records its stride exactly when the stride is a multiple of 4 other than 64 |
| Gltf.Entries | core/grim_gltf/src/lib.rs:116-121 | the views' strides and data in index order |
| Gltf.PackViews | core/grim_gltf/src/lib.rs:123-154 | one view per entry |
| Gltf.ViewsDescribeEntries | core/grim_gltf/src/lib.rs:126-153 | view `k` has entry `k`'s padded length, the length of the data before it as offset, and its stride field |
| Gltf.PrefixOfPacked | core/grim_gltf/src/lib.rs:126-154 | packing begins with the packing of any prefix |
| Gltf.PackDataSplit | core/grim_gltf/src/lib.rs:126-154 | entry `k`'s data sits at its offset in the packed data, padded to a multiple of 4 |
| Gltf.ViewsContiguous | core/grim_gltf/src/lib.rs:116-157 | the views start at 0, each a multiple of 4 long, each starting where the one before ends, and the packed data ends where the last one ends |
| Gltf.AccessorBuilder.constructor | core/grim_gltf/src/lib.rs:13-18 | no views and no accessors |
| Gltf.AccessorBuilder.UpdateBufferView | core/grim_gltf/src/lib.rs:24-37 | returns the stride's view index and the offset at which the data went; the working data becomes `Upsert`, and a new stride is placed last in index order |
| Gltf.AccessorBuilder.AppendItem | core/grim_gltf/src/lib.rs:62-73 | one item's components are appended to the stream and fold into the running minimum and maximum |
| Gltf.AccessorBuilder.FoldItems | core/grim_gltf/src/lib.rs:57-75 | the fold gives the encoded items, their count and the column minimums and maximums |
| Gltf.AccessorBuilder.AddArray | core/grim_gltf/src/lib.rs:44-114 | no items give `None` and change nothing; otherwise the previous accessor count, with the data upserted into its stride's view and an accessor appended |
| Gltf.AccessorBuilder.GenerateBufferViews | core/grim_gltf/src/lib.rs:116-157 | the views and packed data of the entries in index order, and the working data drained |
| Gltf.AccessorBuilder.Generate | core/grim_gltf/src/lib.rs:159-180 | the accessors, the views, a buffer whose length is that of the packed data and whose uri is the name when not empty, and the data |
| Gltf.ItemStep | core/grim_gltf/src/lib.rs:59-75 | each turn of the fold takes the next item |
| System.GuessPlatform | core/grim/src/system.rs:30-45 | PS2 exactly for `milo_ps2`, `rnd`, `rnd_ps2`, `gh` and `gz`; PS3 exactly for `milo_ps3`; Wii exactly for `milo_wii`; Xbox 360 for everything else and for no extension |
| System.GuessMiloExtension | core/grim/src/system.rs:33-36 | each platform's milo extension gives that platform |
| System.UnknownExtensionIsX360 | core/grim/src/system.rs:41 | any other extension gives the Xbox 360 |
| System.GuessSystemInfo | core/grim/src/system.rs:49-74 | Xbox 360 and Wii take the guessed byte order and version, defaulting to big-endian 25; PS2 is little-endian with the little-endian version, defaulting to 24; PS3 is big-endian with the big-endian version, defaulting to 25 |
| System.UnwrapOr | core/grim/src/system.rs:64-66 | the value when there is one, the default otherwise |
| System.IsNextGen | core/grim/src/system.rs:76-81 | next-gen exactly for PS3 and the Xbox 360 |
| System.GetRevision | core/grim/src/system.rs:83-89 | 0 exactly for versions up to 24; 1 exactly for version 25 on a little-endian Xbox 360; 2 otherwise |
| System.ShortPs2IsRevisionZero | core/grim/src/system.rs:62-64 | a PS2 archive too short for a version is revision 0 |
| System.RevisionOneIsLittleX360 | core/grim/src/system.rs:49-89 | revision 1 comes only from an Xbox 360 archive whose first four bytes read 25 little-endian and more than 32 big-endian |
| System.DefaultInfo | core/grim/src/system.rs:19-27 | the default system is revision 2 and next-gen |
| ObjectDir.CurrentVersionsUnchanged | core/grim/src/scene/object_dir.rs:118-121 | from version 25 on the class name is left as it is |
| ObjectDir.LegacyRenamedInRange | core/grim/src/scene/object_dir.rs:123-145 | each legacy name of the table becomes its current name exactly up to its last version, and stays otherwise |
| ObjectDir.OtherNamesUnchanged | core/grim/src/scene/object_dir.rs:139 | a name that is not in the table is left as it is |
| ObjectDir.NewNameInTable | core/grim/src/scene/object_dir.rs:123-140 | every renaming comes from a row of the table whose version range holds the version |
| ObjectDir.CurrentNotLegacy | core/grim/src/scene/object_dir.rs:124-138 | no current name is itself a legacy name |
| ObjectDir.FixIdempotent | core/grim/src/scene/object_dir.rs:117-146 | fixing a fixed name changes nothing |
| PropAnim.GetEnumValue | core/grim/src/scene/prop_anim/mod.rs:69-79 | the kind's code, from 0 for floats to 6 for symbols |
| PropAnim.FromEnumValueRoundTrip | core/grim/src/scene/prop_anim/mod.rs:93-104 | each code from 0 to 6 gives an empty list of that kind, whose code it is; a larger code is the panic |
| PropAnim.EnumValueRoundTrip | core/grim/src/scene/prop_anim/mod.rs:69-104 | the code and back gives the same kind, and the same value exactly when the list is empty |
| PropAnim.EnumValueSeparatesKinds | core/grim/src/scene/prop_anim/mod.rs:69-79 | two lists have the same code exactly when they are of the same kind |
| PropAnim.DefaultIsEmptySymbols | core/grim/src/scene/prop_anim/mod.rs:62-66 | the default is an empty symbol list, code 6 |

## Left out

General conventions:

- Panics are modelled either as an error value or as a `requires`, never silently:
  - the stream, Ark, DTA and MIDI code return an error value (`StreamError`, `ArkNotSupported`, `Err(Overflow)` …) where the source would panic or fail;
  - a `requires` that excludes a source panic is used only where the source indexes or slices out of range on input its callers never give. Every such member is listed below by name, under its file;
  - the remaining `requires` clauses are not panic exclusions. They restate a Rust type fact, such as a `[u8; 4]`, `[u8; 16]` or `[u32; 7]` parameter, a nibble below 16 or a value that fits its integer width, or they are the invariant a loop helper needs from its caller.
- Overflow convention:
  - `midi_io.dfy` and `midi_write.dfy` treat an arithmetic overflow as `Err(Overflow)`, that is, as a debug-build panic;
  - `char_bones.dfy` (`SizesPrefix`, `RecomputeSizes`) wraps modulo 2^32, as a release build does. There the subtraction `next_count - curr_count` in `recompute_sizes` would panic in a debug build.
  - Elsewhere, wrap-around is written out where the source's integer width can overflow, for example the RIFF length in `xma.dfy`.
- Floating point is not modelled:
  - `f16`/`f32`/`f64` stream reads and writes are left out;
  - DTA `Float` nodes and property-animation float keys carry the raw 32-bit pattern;
  - the DTA text parser keeps a float token's text;
  - MIDI realtime positions (`pos_realtime`, `length_realtime`) are left out.
- I/O and foreign libraries are not modelled: `FileStream`, file paths, flate2 compression, midly parsing and writing, nom internals, and image and WAV encoders. Each is replaced by its input or output bytes.
- rayon's parallel chunk loops are modelled as sequential loops.

By file:

- Stream.MemoryStream: `get_slice` is inlined into the reads. `pos`, `len` and `can_write` are the fields `position`, `data` and `writable`.
- Stream.BinaryStream.SeekUntil: a needle longer than the stream gives `Err(NeedleTooLong)`.
  - In the source, `stream_len - needle_len` then panics in a debug build.
  - In a release build the subtraction wraps and the first read of the loop fails.
  - In both cases the caller gets no result, so this is not claimed as a defect.
- Stream.ReadPrefixedAt, Stream.ReadNullTerminatedAt: an invalid UTF-8 string is `Err(InvalidUtf8)`. The byte position that `FromUtf8Error` reports is not modelled.
- Archive:
  - `from_stream` and `unpack_directory` are left out. They need zlib/gzip decompression and the per-object readers.
  - Of `write_to_stream`, only the magic choice is modelled, by `Archive.MagicRoundTrip`.
- Archive.FromObjectDir: covers packed entries only. The `ObjectDir` in-memory objects and their serializers are not part of this model.
- Archive.SortEntries, Ark.SortByPath: state that the result is ordered and a permutation of the input, but not that the sort is stable. The source's `sort_by` is stable, and so is the model's insertion sort; stability only decides the order of entries with equal type and name, or with equal paths.
- Ark:
  - `from_path`, `get_version`, `parse_amp_ark` and `peek_ark_version` are left out. They are file discovery, decryption and header peeking over files.
  - `parse_header` and `parse_file_entries` are modelled over the decrypted header bytes.
  - A failed read is `ArkNotSupported`, as in the source. The panics of the string lookups and of the `unwrap` in `get_ark_part_and_offset` are the errors `StringIndexOutOfRange`, `StringOffsetMissing` and `OffsetOutsideParts`.
- Dta:
  - `DataArray::load` is `todo!()` in the source. `DataString::from_string`/`as_utf8` are not modelled, because strings are kept as bytes. `as_float` is not modelled.
  - Node code 0x03 (`todo!()`) loads as `Err(FuncNotSupported)`.
- DtaParser:
  - The `DTAParser` struct wrappers (`new`, `parse`, `parse_array`, `consume_whitespace`) and `take_section`, `take_quoted_string`, `take_node`, `take_root_node` and `parse_dta` are left out. They have no tests and overlap `parse_node`/`parse_data_array`, which are modelled.
  - `recognize_float` follows nom 7. `parse_float` keeps the token text.
- Midi:
  - The realtime functions (`calculate_*`, `get_tempo_at_pos_realtime`, `get_realtime_position`, `get_tick_position`, `calc_realtime_*`) are left out because they are `f64` numerics.
  - `get_current_tempo`, `get_prev_tempo` and `get_next_tempo` are inlined into `GetTempoAtPos`.
  - `get_track_with_name_mut` is left out because it only hands out a mutable alias.
- Midi.SortEvents: the tie-break compares the variant first (Note < Meta < SysEx) and then the integer fields. It does not compare the `Option<f64>` realtime fields, which are not modelled.
- Midi.MidiFile.AddTracksWithRealtimePositions: the tick-to-realtime conversion before the merge is not modelled.
- MidiWrite.GenerateTrack, MidiFileIo.WriteToFile: when several overflows would occur, the model does not pin down which error is reported. Only whether the result is `Ok`, and the `Ok` value, are specified.
- MidiFileIo.WrittenReadsBack: covers format, ticks per quarter, the tempo map and the track count. The event-level round trip of note tracks is not proved: overlapping notes on one key pair differently, and note-off deltas are truncated.
- TextureCommon:
  - DXT alpha interpolation (`texture/common.rs:43-66`) is floating point and is left out.
  - `calculate_texture_height` is not part of this model.
- TextureIo:
  - `decode_dx_image` and the TPL decoder are left out. `UnpackDecoder` models the guards and the choice of decoder.
  - `from_image`, `load`, `save` and `write_rgba_*` are image I/O and are left out.
- TextureCommon.ReadU16, TextureCommon.ReadU16Be: require at least 2 bytes; the source indexes `data[0]` and `data[1]` of a slice and panics on a shorter one. The texture decoders call it on fixed-length sub-slices of a block, such as `tpl_img[i..(i + 2)]`.
- TextureCommon.ReadU24, TextureCommon.ReadU24Be: require at least 3 bytes, for the same reason.
- TextureCommon.UnpackAlphaIndices, TextureCommon.UnpackAlphaIndices360: require at least 6 packed bytes; the source indexes `packed[0..6]` and panics on a shorter slice. It is meant for the 6 index bytes of an 8-byte alpha block.
- TextureCommon.Indices, TextureCommon.IndicesBe, TextureCommon.UnpackIndices, TextureCommon.UnpackIndicesBe, TextureCommon.UnpackIndices360: require at least 4 packed bytes; the source indexes `packed[0..4]` and panics on a shorter slice. The decoders pass the 4 index bytes of a colour block, such as `tpl_img[(i + 4)..(i + 8)]`.
- TextureIo.Palette: requires the raw data to hold the whole palette (64 or 1024 bytes); the source slices it and panics otherwise.
- TextureIo.Decode4, TextureIo.DecodeFromBitmap: require the RGBA buffer to fit the palette and pixel data. The source panics on an out-of-range slice otherwise.
- TextureCommon.CopyUnpackedPixels, TextureCommon.CopyUnpackedAlphas, TextureCommon.CopyUnpackedChannels, TextureCommon.SetChannelsValue: require the 4x4 block to lie inside the image and, where they take indices, every index to select an existing colour, alpha or channel value. The source panics otherwise; the indices it is given are 2-bit or 3-bit fields, so the second condition always holds.
- LipSync.GetFrames: requires that every viseme index is in range (`Frames(..).Some?`). The source panics on `visemes[index]` otherwise.
- PropAnim.FromEnumValue: requires a value of at most 6, because the source panics above 6.
- Gltf.AccessorBuilder.AddArray:
  - f32 columns get `None` as min/max, where the source emits the float extremes. Float comparison is not modelled.
  - Arities other than 1, 2, 3, 4, 9 and 16 are excluded by `requires`; the source panics on them.
- VgsAudio: `decode_block`, the VAG filter and `quantize` are `f64` and are left out. `from_reader` is I/O over `from_data`. The per-channel decoding is modelled only as far as the block layout.
- VgsAudio.MaxSampleRate: requires a non-empty channel table. The source's `unwrap` panics on an empty one, which `from_data` never builds, because it reads a fixed table of 15 entries.
- Xma: `PacketInfo::from_reader`, `read_frame_length` and `decode_xma_packets` are left out. They are experimental bit-reader code behind the `audio_experimental` feature: `decode_xma_packets` ends in `todo!()`, and the bit reader comes from a foreign library.
- System.GuessPlatform: takes the file extension as an `Option<string>` instead of a `Path`.
- ObjectDir.FixClassName: returns the new name instead of assigning through `&mut String`.
- Adpcm.AdpcmDecoder.DecodeWithBuffer: requires a buffer of at least `2 * |data|` samples; the source writes `buffer[i]` for every output sample and panics on a shorter buffer. `decode` always allocates a buffer of that size.
- Adpcm: the decoder state is unbounded `int`. Within the clamp to the i16 range and the 0..88 step index, the source's `i32` arithmetic never overflows.

## Findings

| source | as written | input that shows it | evidently intended | confidence | as-written member | corrected member |
|---|---|---|---|---|---|---|
| core/grim/src/texture/common.rs:78-83 | `mix_colors_50_50` computes each channel as `(2*a + b) / 3`, the same formula as `mix_colors_66_33` | `a` = black, `b` = white: every channel, alpha included, is 0x55 rather than the midpoint 0x7F; swapping the colours gives 0xAA | `(a + b) / 2` per channel, an even mix independent of argument order | not executed | TextureCommon.Mix5050AsWrittenNotEven | TextureCommon.Mix5050Even |
| core/grim/src/audio/vgs.rs:113-148 | `get_channel_count` counts every channel with `block_count > 0` and uses that as the block stride. `decode_samples_as_channels` skips channels whose sample rate is 0, and `from_data` sizes the data from the audible channels only | channels (rate 0, 2 blocks) and (rate 44100, 2 blocks) with 32 bytes of sample data: the stride is 2, so block 1 of the audible channel is read at `data[32..48]`, past the end | stride by the channels that are actually read (rate > 0 and blocks > 0), so every block lies inside the data | not executed | VgsAudio.SilentChannelOverruns | VgsAudio.CorrectedBlocksFit |
