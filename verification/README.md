# BTXT codec

A Dafny model of the BTXT binary text-table codec in
`src/Appmon.Data.BTXT/BtxtAdapter.cs`, with proofs about it. A BTXT file
holds labels. Each label has an ASCII key and a list of strings, and each
string has a 32-bit identifier and a UTF-16 value. The file has six parts,
in this order:

- the eight-byte header `00 00 00 00 24 10 12 FF`;
- the label count and the string count, as 16-bit words;
- per label, its string count and the strings' identifiers;
- a cumulative offset table;
- the NUL-padded key blocks;
- the NUL-padded value blocks.

The decoder, `ReadBtxtFileFromStream`, works as follows:

- It checks the header.
- It reads the counts and the identifiers.
- It reads one start offset, then an end offset per label and per string. The end of string number *stringCount* is not read from the table: it is the stream length.
- It turns neighbouring offsets into block lengths using signed 32-bit subtraction.
- It reads the blocks one after another. A block cut short by the end of the stream is kept as it is.
- It NUL-trims every key and value.
- It escapes each value's raw CR/LF characters as `\r`/`\n`.

The encoder, `WriteBtxtFileToStream`, works as follows:

- It writes the header, the counts truncated to 16 bits and the identifiers.
- For the label offsets, it writes the end offsets each label remembers from an earlier decode.
- It computes the string offsets as a running sum, using `CalculatePadding`.
- It writes the ASCII keys and the UTF-16 values, each padded with NULs to an even boundary.
- Before measuring each value, it unescapes it in place.

Modules, in dependency order:

- `Bytes`: bytes, little-endian words, and the unchecked `(uint)`/`(int)` casts.
- `Text`: UTF-16 code units, `Trim('\0')`, and the ASCII and UTF-16 charsets.
- `Escape`: the two escape helpers. They are tied to independent one-pass definitions, and the round trips between them are proved.
- `Models`: `BtxtFile`, `BtxtLabel` and `BtxtString`.
- `Layout`: the header, the metadata section, and the signed block length.
- `Reader`: the decoder, as functions over a byte sequence and a position, returning `Result`.
- `Writer`: the encoder. It returns the bytes, together with the file as the in-place rewrite leaves it.
- `RoundTrip` and `FileRoundTrip`: the decoder read back over the encoder's pieces.
- `WholeFile`: decode(encode(f)) == f.
- `Decoding`: what any successful decode reads, stated against the stream's bytes, and exactly when decoding fails.

A file with no strings at all need not round-trip. The encoder writes one
offset word fewer than the decoder reads, so the decoder takes the first four
bytes of the key blocks as a label end offset
(`RoundTrip.OffsetTableSizesAgree` states when the two table sizes differ).
`RoundTrip.NoStringsLosesKey` exhibits a file whose key is lost this way; a
file whose only key is empty still comes back, because the bytes taken are
its NUL padding and read as the end offset 0 it stores.

The string offsets match the value blocks written only when the last label's
stored end offset is even (`Writer.StringOffsetsMatchIffEvenLabelEnd`). The
reason is that :134 pads from the data-relative offset, while :150 pads from
the absolute stream position. These two behaviours belong to the format as
written, and the model keeps them.

## Model

| member | source | states |
|---|---|---|
| Bytes.LE16 | src/Appmon.Data.BTXT/BtxtAdapter.cs:105-106 | a 16-bit word is written as two bytes, low first, that decode back to it |
| Bytes.LE32 | src/Appmon.Data.BTXT/BtxtAdapter.cs:112-117 | a 32-bit word is written as four bytes, low first, that decode back to it |
| Bytes.LE16OfFromLE16 | src/Appmon.Data.BTXT/BtxtAdapter.cs:21-22 | any two bytes `ReadUInt16` reads are the encoding of the value read |
| Bytes.LE32OfFromLE32 | src/Appmon.Data.BTXT/BtxtAdapter.cs:29-33 | any four bytes `ReadUInt32` reads are the encoding of the value read |
| Bytes.ToU32 | src/Appmon.Data.BTXT/BtxtAdapter.cs:67 | the `(uint)` cast keeps a value below 2^32 and otherwise agrees with it modulo 2^32 |
| Bytes.Signed32 | src/Appmon.Data.BTXT/BtxtAdapter.cs:56 | the `(int)` cast of a uint lies in the signed range, agrees modulo 2^32, and is non-negative exactly below 2^31 |
| Layout.TotalIdsOfLabels | src/Appmon.Data.BTXT/BtxtAdapter.cs:27-46 | the identifiers read for all labels are as many as the labels' strings |
| Layout.Wrap32 | src/Appmon.Data.BTXT/BtxtAdapter.cs:56 | unchecked int subtraction gives a signed 32-bit value equal to the exact difference modulo 2^32, and the exact one when it fits |
| Layout.BlockLengthExact | src/Appmon.Data.BTXT/BtxtAdapter.cs:56 | offsets below 2^31 in order give their plain difference as the length |
| Layout.BlockLengthNegative | src/Appmon.Data.BTXT/BtxtAdapter.cs:68 | offsets below 2^31 out of order give a negative length |
| Layout.BlockLengthModular | src/Appmon.Data.BTXT/BtxtAdapter.cs:68 | every length is the 32-bit difference of the offsets read as two's complement |
| Text.Trim | src/Appmon.Data.BTXT/BtxtAdapter.cs:76 | `Trim('\0')` removes only NULs, from both ends, and leaves no NUL at either end |
| Text.TrimOfPadding | src/Appmon.Data.BTXT/BtxtAdapter.cs:84 | trimming a text with NUL-free ends and NUL padding after it gives the text back |
| Text.AsciiDecode | src/Appmon.Data.BTXT/BtxtAdapter.cs:76 | ASCII decoding gives one ASCII code unit per byte |
| Text.AsciiEncode | src/Appmon.Data.BTXT/BtxtAdapter.cs:143 | ASCII encoding gives bytes below 0x80 that decode back to any ASCII key |
| Text.AsciiDecodeOfPadding | src/Appmon.Data.BTXT/BtxtAdapter.cs:143-144 | an ASCII key followed by zero padding decodes to the key followed by NULs |
| Text.Utf16DecodeAppend | src/Appmon.Data.BTXT/BtxtAdapter.cs:151 | decoding the UTF-16 bytes of a text, followed by more bytes, gives the text followed by the decoding of those bytes |
| Text.Utf16DecodeOfPadding | src/Appmon.Data.BTXT/BtxtAdapter.cs:151-152 | a value's UTF-16 bytes followed by zero padding decode to the value followed by NULs |
| Escape.SerializeIsEscaped | src/Appmon.Data.BTXT/BtxtAdapter.cs:162-166 | the two chained `Replace` calls equal escaping each CR and LF on its own, in one pass |
| Escape.DeserializeIsUnescaped | src/Appmon.Data.BTXT/BtxtAdapter.cs:167-171 | the two chained `Replace` calls equal one left-to-right pass that turns each `\r` and `\n` pair into CR or LF |
| Escape.SerializedHasNoLineBreaks | src/Appmon.Data.BTXT/BtxtAdapter.cs:162-166 | a serialized text contains no raw CR or LF |
| Escape.SerializeOfDeserialize | src/Appmon.Data.BTXT/BtxtAdapter.cs:162-171 | re-escaping an unescaped text restores it when it has no raw CR or LF |
| Escape.DeserializeOfSerialize | src/Appmon.Data.BTXT/BtxtAdapter.cs:162-171 | unescaping an escaped text restores it when it has no backslash-r or backslash-n pair |
| Escape.DeserializeOfSerializeNeedsNoPairs | src/Appmon.Data.BTXT/BtxtAdapter.cs:162-171 | without that condition the round trip fails: a literal backslash-r comes back as CR |
| Escape.DeserializeKeepsNulFreeEnds | src/Appmon.Data.BTXT/BtxtAdapter.cs:133 | unescaping puts no NUL at either end of a text that had none there |
| Escape.SerializeKeepsNulFreeEnds | src/Appmon.Data.BTXT/BtxtAdapter.cs:84 | escaping puts no NUL at either end of a text that had none there |
| Reader.ReadBytes | src/Appmon.Data.BTXT/BtxtAdapter.cs:82 | `ReadBytes(count)` returns the next `count` bytes, or all the rest when fewer remain |
| Reader.ReadUInt16 | src/Appmon.Data.BTXT/BtxtAdapter.cs:21-22 | a 16-bit read succeeds exactly when two bytes remain, and fails with end of stream otherwise |
| Reader.ReadUInt32 | src/Appmon.Data.BTXT/BtxtAdapter.cs:29-33 | a 32-bit read succeeds exactly when four bytes remain, and fails with end of stream otherwise |
| Reader.ReadLabelMetadata | src/Appmon.Data.BTXT/BtxtAdapter.cs:26-46 | the metadata gives one identifier list per label, and fails only at end of stream |
| Reader.ReadPreamble | src/Appmon.Data.BTXT/BtxtAdapter.cs:13-46 | the header check fails exactly when the first eight bytes are not the BTXT header; on success there is one identifier list per label, and the table starts after 12 + 4·(labels + identifiers) bytes |
| Reader.ReadPreambleBytes | src/Appmon.Data.BTXT/BtxtAdapter.cs:13-46 | the preamble read is exactly the header, the two counts and the metadata bytes at the start of the stream |
| Reader.ReadValueEnds | src/Appmon.Data.BTXT/BtxtAdapter.cs:61-71 | the string ends fit exactly when one word per string, less the one taken from the stream length, remains; the end of string number stringCount is the stream length |
| Reader.ReadOffsetTable | src/Appmon.Data.BTXT/BtxtAdapter.cs:48-71 | the table has 1 + labels + strings entries; it fits exactly when its words (one fewer when 0 < stringCount <= strings) remain; entry labels + stringCount is the stream length |
| Reader.ReadBlocks | src/Appmon.Data.BTXT/BtxtAdapter.cs:73-85 | reading the blocks fails exactly when some length is negative; otherwise each block is no longer than its length, and shorter only at end of stream |
| Reader.ReadBlocksBytes | src/Appmon.Data.BTXT/BtxtAdapter.cs:73-85 | the blocks read are exactly the bytes consumed |
| Reader.DecodeKey | src/Appmon.Data.BTXT/BtxtAdapter.cs:76 | a decoded key is ASCII, has no NUL at either end, and is no longer than its block |
| Reader.DecodeValue | src/Appmon.Data.BTXT/BtxtAdapter.cs:82-84 | a decoded value holds no raw CR or LF and has no NUL at either end |
| Reader.Assemble | src/Appmon.Data.BTXT/BtxtAdapter.cs:40-59 | the labels carry the identifier lists, the keys in order, the values in global order, and their key block bounds as offsets |
| Reader.ReadLabels | src/Appmon.Data.BTXT/BtxtAdapter.cs:48-85 | the labels read keep the identifier lists of the metadata and have the decoded shape |
| Reader.DecodedFacts | src/Appmon.Data.BTXT/BtxtAdapter.cs:54-85 | assembled labels have ASCII keys no longer than their block, chained offsets, and values free of raw line breaks |
| Reader.ReadBtxtFileFromStream | src/Appmon.Data.BTXT/BtxtAdapter.cs:11-95 | the decode fails as not a BTXT file exactly when the header is wrong; a decoded file has the counts and identifiers of the preamble, fewer than 2^16 labels, and the decoded shape |
| Writer.CalculatePadding | src/Appmon.Data.BTXT/BtxtAdapter.cs:155-159 | the padding is n or n + 1, makes the block end even, and is n exactly when the unpadded end is already even |
| Writer.UnescapeLabels | src/Appmon.Data.BTXT/BtxtAdapter.cs:130-133 | the in-place rewrite changes only the values, each to its unescaped form |
| Writer.UnescapeFile | src/Appmon.Data.BTXT/BtxtAdapter.cs:130-133 | the file left behind keeps counts, keys, offsets and identifiers, and holds every value unescaped |
| Writer.OffsetTable | src/Appmon.Data.BTXT/BtxtAdapter.cs:121-137 | the encoder's table has one word per label and one per string |
| Writer.KeyBlock | src/Appmon.Data.BTXT/BtxtAdapter.cs:139-145 | a key block is the key's bytes plus 3 or 4 NULs, and ends at an even position |
| Writer.KeyRegion | src/Appmon.Data.BTXT/BtxtAdapter.cs:139-145 | the key region ends at an even position whenever it holds a key |
| Writer.ValueBlock | src/Appmon.Data.BTXT/BtxtAdapter.cs:147-153 | a value block is twice the value's length plus 4 or 6 NUL bytes, and keeps the position's parity |
| Writer.ValueRegion | src/Appmon.Data.BTXT/BtxtAdapter.cs:147-153 | the value region ends at a position of the same parity as its start |
| Writer.PreambleBytes | src/Appmon.Data.BTXT/BtxtAdapter.cs:101-137 | the preamble starts with the header and is 12 + 8·labels + 8·strings bytes long, an even number |
| Writer.EncodeLabels | src/Appmon.Data.BTXT/BtxtAdapter.cs:101-153 | the stream written starts with the header and has even length |
| Writer.WriteBtxtFileToStream | src/Appmon.Data.BTXT/BtxtAdapter.cs:97-160 | the bytes start with the header and have even length, and the file is left with every value unescaped |
| Writer.StringOffsetsTrackBlocks | src/Appmon.Data.BTXT/BtxtAdapter.cs:129-153 | a string offset run matches the value blocks exactly when it starts at the blocks' parity |
| Writer.StringOffsetsMatchIffEvenLabelEnd | src/Appmon.Data.BTXT/BtxtAdapter.cs:129-153 | the string offsets written match the value blocks written exactly when the last label's stored end offset is even |
| RoundTrip.ReadUInt16Of | src/Appmon.Data.BTXT/BtxtAdapter.cs:21-22 | a written 16-bit word reads back |
| RoundTrip.ReadUInt32Of | src/Appmon.Data.BTXT/BtxtAdapter.cs:29-33 | a written 32-bit word reads back |
| RoundTrip.ReadLabelMetadataOf | src/Appmon.Data.BTXT/BtxtAdapter.cs:26-46 | the metadata written reads back as the identifier lists |
| RoundTrip.ReadPreambleOf | src/Appmon.Data.BTXT/BtxtAdapter.cs:21-46 | the preamble written reads back: the header passes, the counts come back truncated to 16 bits, and the identifier lists come back when the truncated label count is the number of labels |
| RoundTrip.ReadValueEndsOf | src/Appmon.Data.BTXT/BtxtAdapter.cs:61-71 | when the declared count is the number of strings, the ends read are the words written, then the stream length |
| RoundTrip.ReadOffsetTableOf | src/Appmon.Data.BTXT/BtxtAdapter.cs:48-71 | the table written reads back, followed by the stream length |
| RoundTrip.LabelOffsetsReadBack | src/Appmon.Data.BTXT/BtxtAdapter.cs:121-127 | with at least one string, the table written reads back as 0 followed by every label's stored end offset, so the decoder takes the key block bounds from the offsets the labels carry (:50-55) |
| RoundTrip.OffsetTableSizesAgree | src/Appmon.Data.BTXT/BtxtAdapter.cs:50-71 | the tables read and written have the same size exactly when 0 < stringCount <= the number of strings |
| RoundTrip.NoStringsLosesKey | src/Appmon.Data.BTXT/BtxtAdapter.cs:50-71 | a one-label file without strings decodes with its key lost and its end offset taken from the key bytes |
| FileRoundTrip.KeyLengthsOf | src/Appmon.Data.BTXT/BtxtAdapter.cs:50-59 | with stored offsets chained over the key blocks, the key lengths the decoder computes are the sizes of the key blocks written |
| FileRoundTrip.ValueLengthsOf | src/Appmon.Data.BTXT/BtxtAdapter.cs:61-71 | string offsets at the blocks' parity give each value block's size as its length, except the last, which reaches to the end of the stream |
| FileRoundTrip.DecodeKeyOf | src/Appmon.Data.BTXT/BtxtAdapter.cs:76 | a padded key block decodes to its key when the key is ASCII with NUL-free ends |
| FileRoundTrip.DecodeKeysOf | src/Appmon.Data.BTXT/BtxtAdapter.cs:74-77 | the key blocks written decode to the keys |
| FileRoundTrip.DecodeValueOf | src/Appmon.Data.BTXT/BtxtAdapter.cs:82-84 | a padded value block decodes to its value, escaped, when the value has NUL-free ends |
| FileRoundTrip.DecodeValuesOf | src/Appmon.Data.BTXT/BtxtAdapter.cs:80-85 | the value blocks written decode to the values, escaped |
| WholeFile.ValuesKeepNulFreeEnds | src/Appmon.Data.BTXT/BtxtAdapter.cs:133 | the in-place rewrite keeps every value free of NULs at its ends |
| WholeFile.LabelsBack | src/Appmon.Data.BTXT/BtxtAdapter.cs:74-85 | the labels assembled from the blocks written are the file's labels |
| WholeFile.ReadWhatIsWritten | src/Appmon.Data.BTXT/BtxtAdapter.cs:11-160 | every file that keeps to the layout the encoder assumes decodes from its encoding to itself |
| Decoding.ReadOffsetTableEntries | src/Appmon.Data.BTXT/BtxtAdapter.cs:50-71 | entry j of the table read is the word stored at its place in the stream, with the end of string stringCount being the stream length and later entries stored one word earlier |
| Decoding.ReadBlocksClips | src/Appmon.Data.BTXT/BtxtAdapter.cs:74-85 | each block read is the stretch of the stream at the running sum of the lengths before it, cut at the end of the stream |
| Decoding.ClipOfStream | src/Appmon.Data.BTXT/BtxtAdapter.cs:82 | a block inside the stream is its slice; one running past the end is the rest of the stream and is shorter than its length |
| Decoding.ReadLabelsFromClips | src/Appmon.Data.BTXT/BtxtAdapter.cs:48-85 | the labels read take their offsets from the table, and their keys and values from the decodings of the blocks the table locates |
| Decoding.DecodedFromBlocks | src/Appmon.Data.BTXT/BtxtAdapter.cs:11-85 | every decoded file has its table at its place in the stream, non-negative block lengths, label offsets equal to the table entries, and each key and value decoded from the bytes between consecutive table entries |
| Decoding.ReadLabelsOutcome | src/Appmon.Data.BTXT/BtxtAdapter.cs:48-85 | after the preamble, the decode fails at end of stream when the table does not fit, fails with a negative length when a block length is negative, and succeeds otherwise |
| Decoding.DecodeOutcome | src/Appmon.Data.BTXT/BtxtAdapter.cs:11-85 | the decoder's verdict: a preamble error is passed on; otherwise end of stream exactly when the table does not fit, negative length exactly when some block length is negative, and success exactly when neither happens |

## Left out

- AsciiEncode: .NET's ASCII encoder writes a single '?' for a valid surrogate pair, but the model writes one byte per code unit. So, for a key that holds a surrogate pair, the model's key block is one byte longer per pair than the one written at :143. The padding at :142 is computed from `Key.Length` in both. Keys that read back unchanged are ASCII, so the round trip is unaffected.
- Utf16Encode: .NET writes U+FFFD in place of a lone surrogate (:151), but the model writes the code unit as it is. `WholeFile.ReadWhatIsWritten` therefore assumes values with no lone surrogate (`WellFormedUtf16`), and the real encoder writes such values exactly as the model does.
- Utf16Decode: .NET yields U+FFFD for a lone surrogate in the bytes read (:83), but the model keeps the code unit. The odd trailing byte is modelled, and it becomes U+FFFD.
- BtxtString's `StartOffset` and `EndOffset` (BtxtString.cs:5, 9) are not in the model's string datatype. The codec never reads or writes them.
- `BtxtLabel` carries `StartOffset` and `EndOffset`, as the adapter uses them at :54-55 and :126. The label class in the Models folder does not declare them.
- The stream is assumed to start empty, at position 0. Key and value padding (:142, :150) is computed from absolute stream positions, and the model takes them from the start of the bytes written.
- `FileLoadException`, `EndOfStreamException` and `ArgumentOutOfRangeException` are merged into the three cases of `ReadError`. Their messages are not modelled.
- The in-place rewrite of the values at :133 is modelled as a returned copy of the file (`Writer.UnescapeFile`). Other references to the same objects, which would see the change, are not modelled.
- The stream and reader objects are not modelled: `BinaryReader`, `BinaryWriter`, the `using` blocks, `reader.Close()` and the dictionaries used as lookup tables are left out. The decoder reads from a byte sequence through a position; the encoder returns its bytes.
- Writer.WriteBtxtFileToStream: its own contract states only the header, the even length and the file left behind. What the bytes mean is stated by its partner `WholeFile.ReadWhatIsWritten`, and by the per-region lemmas it is built from.
- Reader.ReadBtxtFileFromStream: its own contract states the header verdict, the counts and the decoded shape. The byte-level account of each key and value is in `Decoding.DecodedFromBlocks`, and the failure cases are in `Decoding.DecodeOutcome`.
- The `System.Reflection.Emit` import at :4 is unused, and it is not modelled.
