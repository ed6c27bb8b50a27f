/**
 The BTXT decoder (`ReadBtxtFileFromStream`). The stream becomes a byte
 sequence read through a position; every exception the source can raise
 becomes a `Failure`. `ReadBytes` keeps the one stream behaviour the format
 depends on: asked for more bytes than remain, it returns the rest.
 */
module Reader {
  import opened Bytes
  import opened Text
  import opened Escape
  import opened Models
  import opened Layout

  /** `FileLoadException` for a bad header, `EndOfStreamException` from a
      fixed-width read, `ArgumentOutOfRangeException` from `ReadBytes` with a
      negative count. */
  datatype ReadError = NotBtxtFile | EndOfStream | NegativeLength

  datatype Result<+T> = Success(value: T) | Failure(error: ReadError) {
    predicate IsFailure() {
      Failure?
    }

    function PropagateFailure<U>(): Result<U>
      requires Failure?
    {
      Failure(error)
    }

    function Extract(): T
      requires Success?
    {
      value
    }
  }

  /** A value read from the stream and the position just after it. */
  datatype Read<+T> = Read(value: T, next: nat)

  /** `BinaryReader.ReadBytes(count)`: up to `count` bytes, fewer at the end of the stream. */
  function ReadBytes(s: seq<Byte>, pos: nat, count: nat): (r: Read<seq<Byte>>)
    requires pos <= |s|
    ensures pos <= r.next <= |s| && r.value == s[pos..r.next]
    ensures |r.value| == count || r.next == |s|
    ensures |r.value| <= count
  {
    var end := if pos + count <= |s| then pos + count else |s|;
    Read(s[pos..end], end)
  }

  function ReadUInt16(s: seq<Byte>, pos: nat): (r: Result<Read<U16>>)
    requires pos <= |s|
    ensures r.Success? <==> pos + 2 <= |s|
    ensures r.Failure? ==> r.error == EndOfStream
    ensures r.Success? ==> r.value.next == pos + 2
  {
    if pos + 2 > |s| then Failure(EndOfStream)
    else Success(Read(FromLE16(s[pos..pos + 2]), pos + 2))
  }

  /** The value read is the one the two bytes consumed encode. */
  lemma ReadUInt16Bytes(s: seq<Byte>, pos: nat)
    requires pos <= |s|
    ensures ReadUInt16(s, pos).Success? ==> LE16(ReadUInt16(s, pos).value.value) == s[pos..pos + 2]
  {
    if pos + 2 <= |s| {
      LE16OfFromLE16(s[pos..pos + 2]);
    }
  }

  function ReadUInt32(s: seq<Byte>, pos: nat): (r: Result<Read<U32>>)
    requires pos <= |s|
    ensures r.Success? <==> pos + 4 <= |s|
    ensures r.Failure? ==> r.error == EndOfStream
    ensures r.Success? ==> r.value.next == pos + 4
  {
    if pos + 4 > |s| then Failure(EndOfStream)
    else Success(Read(FromLE32(s[pos..pos + 4]), pos + 4))
  }

  /** The value read is the one the four bytes consumed encode. */
  lemma ReadUInt32Bytes(s: seq<Byte>, pos: nat)
    requires pos <= |s|
    ensures ReadUInt32(s, pos).Success? ==> LE32(ReadUInt32(s, pos).value.value) == s[pos..pos + 4]
  {
    if pos + 4 <= |s| {
      LE32OfFromLE32(s[pos..pos + 4]);
    }
  }

  /** `n` consecutive 32-bit words. */
  function ReadUInt32s(s: seq<Byte>, pos: nat, n: nat): (r: Result<Read<seq<U32>>>)
    requires pos <= |s|
    ensures r.Success? <==> pos + 4 * n <= |s|
    ensures r.Failure? ==> r.error == EndOfStream
    ensures r.Success? ==> r.value.next == pos + 4 * n && |r.value.value| == n
    decreases n
  {
    if n == 0 then Success(Read([], pos))
    else
      var w :- ReadUInt32(s, pos);
      var rest :- ReadUInt32s(s, w.next, n - 1);
      Success(Read([w.value] + rest.value, rest.next))
  }

  /** The words read are exactly the bytes consumed. */
  lemma {:induction false} ReadUInt32sBytes(s: seq<Byte>, pos: nat, n: nat)
    requires pos <= |s|
    ensures var r := ReadUInt32s(s, pos, n);
      r.Success? ==> WordsBytes(r.value.value) == s[pos..r.value.next]
    decreases n
  {
    var r := ReadUInt32s(s, pos, n);
    if n > 0 && r.Success? {
      ReadUInt32Bytes(s, pos);
      ReadUInt32sBytes(s, pos + 4, n - 1);
      var w := r.value.value;
      assert w[1..] == ReadUInt32s(s, pos + 4, n - 1).value.value;
      assert s[pos..r.value.next] == s[pos..pos + 4] + s[pos + 4..r.value.next];
    }
  }

  /** One label's metadata: its string count, then that many identifiers. */
  function ReadLabelIds(s: seq<Byte>, pos: nat): (r: Result<Read<seq<U32>>>)
    requires pos <= |s|
    ensures r.Failure? ==> r.error == EndOfStream
    ensures r.Success? ==> r.value.next == pos + 4 + 4 * |r.value.value| <= |s|
  {
    var count :- ReadUInt32(s, pos);
    ReadUInt32s(s, count.next, count.value)
  }

  /** The label metadata read is exactly the bytes consumed. */
  lemma ReadLabelIdsBytes(s: seq<Byte>, pos: nat)
    requires pos <= |s|
    ensures var r := ReadLabelIds(s, pos);
      r.Success? ==> LE32(ToU32(|r.value.value|)) + WordsBytes(r.value.value) == s[pos..r.value.next]
  {
    var r := ReadLabelIds(s, pos);
    if r.Success? {
      ReadUInt32Bytes(s, pos);
      ReadUInt32sBytes(s, pos + 4, ReadUInt32(s, pos).value.value);
      assert s[pos..r.value.next] == s[pos..pos + 4] + s[pos + 4..r.value.next];
    }
  }

  /** The label metadata: for each of `n` labels, a string count and that many identifiers. */
  function ReadLabelMetadata(s: seq<Byte>, pos: nat, n: nat): (r: Result<Read<seq<seq<U32>>>>)
    requires pos <= |s|
    ensures r.Failure? ==> r.error == EndOfStream
    ensures r.Success? ==> |r.value.value| == n
    ensures r.Success? ==> pos <= r.value.next <= |s|
    decreases n
  {
    if n == 0 then Success(Read([], pos))
    else
      var ids :- ReadLabelIds(s, pos);
      var rest :- ReadLabelMetadata(s, ids.next, n - 1);
      Success(Read([ids.value] + rest.value, rest.next))
  }

  /** The label metadata read is exactly the bytes consumed. */
  lemma {:induction false} ReadLabelMetadataBytes(s: seq<Byte>, pos: nat, n: nat)
    requires pos <= |s|
    ensures var r := ReadLabelMetadata(s, pos, n);
      r.Success? ==> MetadataBytes(r.value.value) == s[pos..r.value.next]
    decreases n
  {
    var r := ReadLabelMetadata(s, pos, n);
    if n > 0 && r.Success? {
      var ids := ReadLabelIds(s, pos).value;
      ReadLabelIdsBytes(s, pos);
      ReadLabelMetadataBytes(s, ids.next, n - 1);
      var all := r.value.value;
      assert all[0] == ids.value && all[1..] == ReadLabelMetadata(s, ids.next, n - 1).value.value;
      MetadataBytesCons(all);
      SliceJoin(s, pos, ids.next, r.value.next);
    }
  }

  /** The label metadata takes four bytes per label and per identifier. */
  lemma ReadLabelMetadataNext(s: seq<Byte>, pos: nat, n: nat)
    requires pos <= |s|
    ensures var r := ReadLabelMetadata(s, pos, n);
      r.Success? ==> r.value.next == pos + 4 * (n + TotalIds(r.value.value))
  {
    ReadLabelMetadataBytes(s, pos, n);
  }

  /** What precedes the offset table. */
  datatype Preamble = Preamble(labelCount: U16, stringCount: U16, ids: seq<seq<U32>>)

  /** The header check, the two counts and the label metadata. */
  function ReadPreamble(s: seq<Byte>): (r: Result<Read<Preamble>>)
    ensures r == Failure(NotBtxtFile) <==> |s| < 8 || s[..8] != BtxtHeader
    ensures r.Success? ==> |r.value.value.ids| == r.value.value.labelCount
    ensures r.Success? ==> var p := r.value.value;
      r.value.next == 12 + 4 * (p.labelCount + TotalIds(p.ids)) <= |s|
  {
    var header := ReadBytes(s, 0, 8);
    if header.value != BtxtHeader then Failure(NotBtxtFile)
    else
      assert header.next == 8;
      var labelCount :- ReadUInt16(s, 8);
      var stringCount :- ReadUInt16(s, 10);
      var ids :- ReadLabelMetadata(s, 12, labelCount.value);
      ReadLabelMetadataNext(s, 12, labelCount.value);
      Success(Read(Preamble(labelCount.value, stringCount.value, ids.value), ids.next))
  }

  /** The preamble read is exactly the bytes consumed: the header, the two
      counts and the label metadata. */
  lemma ReadPreambleBytes(s: seq<Byte>)
    ensures var r := ReadPreamble(s);
      r.Success? ==> var p := r.value.value;
        s[..r.value.next] == BtxtHeader + LE16(p.labelCount) + LE16(p.stringCount) + MetadataBytes(p.ids)
  {
    var r := ReadPreamble(s);
    if r.Success? {
      ReadUInt16Bytes(s, 8);
      ReadUInt16Bytes(s, 10);
      ReadLabelMetadataBytes(s, 12, r.value.value.labelCount);
      assert s[..r.value.next] == s[..8] + s[8..10] + s[10..12] + s[12..r.value.next];
    }
  }

  /** The ends of the string value blocks, for strings `done + 1` to `total`.
      The string whose 1-based number equals the declared string count ends at
      the stream length instead of a word read from the table. */
  function ReadValueEnds(s: seq<Byte>, pos: nat, done: nat, total: nat, stringCount: U16): (r: Result<Read<seq<U32>>>)
    requires pos <= |s| && done <= total
    ensures r.Failure? ==> r.error == EndOfStream
    ensures r.Success? <==> pos + 4 * (total - done) - (if done < stringCount <= total then 4 else 0) <= |s|
    ensures r.Success? ==> |r.value.value| == total - done
    ensures r.Success? ==> r.value.next == pos + 4 * (total - done) - (if done < stringCount <= total then 4 else 0)
    ensures r.Success? && done < stringCount <= total ==> r.value.value[stringCount - 1 - done] == ToU32(|s|)
    decreases total - done
  {
    if done == total then Success(Read([], pos))
    else if done + 1 != stringCount then
      var e :- ReadUInt32(s, pos);
      var rest :- ReadValueEnds(s, e.next, done + 1, total, stringCount);
      Success(Read([e.value] + rest.value, rest.next))
    else
      var rest :- ReadValueEnds(s, pos, done + 1, total, stringCount);
      Success(Read([ToU32(|s|)] + rest.value, rest.next))
  }

  /** The cumulative offset table: the start of the first key block, then the
      end of every label's key block, then the end of every string's value block. */
  function ReadOffsetTable(s: seq<Byte>, pos: nat, labelCount: U16, total: nat, stringCount: U16): (r: Result<Read<seq<U32>>>)
    requires pos <= |s|
    ensures r.Failure? ==> r.error == EndOfStream
    ensures r.Success? <==> pos + 4 * (1 + labelCount + total) - (if 0 < stringCount <= total then 4 else 0) <= |s|
    ensures r.Success? ==> |r.value.value| == 1 + labelCount + total
    ensures r.Success? ==> r.value.next <= |s|
    ensures r.Success? ==> r.value.next == pos + 4 * (1 + labelCount + total) - (if 0 < stringCount <= total then 4 else 0)
    ensures r.Success? && 0 < stringCount <= total ==> r.value.value[labelCount + stringCount] == ToU32(|s|)
  {
    var start :- ReadUInt32(s, pos);
    var labelEnds :- ReadUInt32s(s, start.next, labelCount);
    var valueEnds :- ReadValueEnds(s, labelEnds.next, 0, total, stringCount);
    Success(Read([start.value] + labelEnds.value + valueEnds.value, valueEnds.next))
  }

  /** The length of every block between consecutive offsets. */
  function BlockLengths(bounds: seq<U32>): (r: seq<int>)
    requires |bounds| > 0
    ensures |r| == |bounds| - 1
    ensures forall i {:trigger r[i]} :: 0 <= i < |r| ==> r[i] == BlockLength(bounds[i], bounds[i + 1])
  {
    seq(|bounds| - 1, i requires 0 <= i < |bounds| - 1 => BlockLength(bounds[i], bounds[i + 1]))
  }

  /** Reads one block per length, one after another. */
  function ReadBlocks(s: seq<Byte>, pos: nat, lengths: seq<int>): (r: Result<Read<seq<seq<Byte>>>>)
    requires pos <= |s|
    ensures r.Failure? <==> exists i :: 0 <= i < |lengths| && lengths[i] < 0
    ensures r.Failure? ==> r.error == NegativeLength
    ensures r.Success? ==> |r.value.value| == |lengths|
    ensures r.Success? ==> pos <= r.value.next <= |s|
    ensures r.Success? ==> forall i {:trigger r.value.value[i]} :: 0 <= i < |lengths| ==>
      |r.value.value[i]| <= lengths[i] && (|r.value.value[i]| == lengths[i] || r.value.next == |s|)
    decreases |lengths|
  {
    if |lengths| == 0 then Success(Read([], pos))
    else if lengths[0] < 0 then Failure(NegativeLength)
    else
      var b := ReadBytes(s, pos, lengths[0]);
      var rest := ReadBlocks(s, b.next, lengths[1..]);
      if rest.Failure? then
        assert exists i :: 0 <= i < |lengths| && lengths[i] < 0 by {
          var j :| 0 <= j < |lengths[1..]| && lengths[1..][j] < 0;
          assert lengths[j + 1] < 0;
        }
        Failure(NegativeLength)
      else
        var blocks := [b.value] + rest.value.value;
        assert blocks[1..] == rest.value.value;
        assert forall i :: 1 <= i < |lengths| ==> lengths[i] == lengths[1..][i - 1] && blocks[i] == rest.value.value[i - 1];
        Success(Read(blocks, rest.value.next))
  }

  /** The blocks read are exactly the bytes consumed. */
  lemma {:induction false} ReadBlocksBytes(s: seq<Byte>, pos: nat, lengths: seq<int>)
    requires pos <= |s|
    ensures var r := ReadBlocks(s, pos, lengths);
      r.Success? ==> Concat(r.value.value) == s[pos..r.value.next]
    decreases |lengths|
  {
    var r := ReadBlocks(s, pos, lengths);
    if |lengths| > 0 && r.Success? {
      var b := ReadBytes(s, pos, lengths[0]);
      ReadBlocksBytes(s, b.next, lengths[1..]);
      var rest := ReadBlocks(s, b.next, lengths[1..]);
      assert r.value.value[1..] == rest.value.value;
      assert s[pos..r.value.next] == s[pos..b.next] + s[b.next..r.value.next];
    }
  }

  /** A key as stored: ASCII text with its NUL padding trimmed. */
  function DecodeKey(block: seq<Byte>): (k: Text)
    ensures IsAscii(k) && NulFreeEnds(k)
    ensures |k| <= |block|
  {
    TrimKeepsAscii(AsciiDecode(block));
    Trim(AsciiDecode(block))
  }

  /** A value as stored: UTF-16 text with its NUL padding trimmed, then escaped. */
  function DecodeValue(block: seq<Byte>): (v: Text)
    ensures NoLineBreaks(v) && NulFreeEnds(v)
  {
    SerializedHasNoLineBreaks(Trim(Utf16Decode(block)));
    SerializeKeepsNulFreeEnds(Trim(Utf16Decode(block)));
    SerializeEscapeCharacters(Trim(Utf16Decode(block)))
  }

  function DecodeKeys(blocks: seq<seq<Byte>>): (r: seq<Text>)
    ensures |r| == |blocks|
    ensures forall i :: 0 <= i < |blocks| ==> r[i] == DecodeKey(blocks[i])
  {
    seq(|blocks|, i requires 0 <= i < |blocks| => DecodeKey(blocks[i]))
  }

  function DecodeValues(blocks: seq<seq<Byte>>): (r: seq<Text>)
    ensures |r| == |blocks|
    ensures forall k :: 0 <= k < |blocks| ==> r[k] == DecodeValue(blocks[k])
  {
    seq(|blocks|, k requires 0 <= k < |blocks| => DecodeValue(blocks[k]))
  }

  function MakeStrings(ids: seq<U32>, values: seq<Text>): (r: seq<BtxtString>)
    requires |ids| == |values|
    ensures Ids(r) == ids && ValueTexts(r) == values
  {
    seq(|ids|, i requires 0 <= i < |ids| => BtxtString(ids[i], values[i]))
  }

  /** Builds the labels from per-label identifier lists, the keys, the values
      in global order and the key block bounds. */
  function Assemble(ids: seq<seq<U32>>, keys: seq<Text>, values: seq<Text>, bounds: seq<U32>): (r: seq<BtxtLabel>)
    requires |keys| == |ids| && |values| == TotalIds(ids) && |bounds| == |ids| + 1
    ensures IdLists(r) == ids && Keys(r) == keys
    ensures ValueTexts(AllStrings(r)) == values
    ensures forall i {:trigger r[i]} :: 0 <= i < |r| ==> r[i].startOffset == bounds[i] && r[i].endOffset == bounds[i + 1]
    decreases |ids|
  {
    if |ids| == 0 then []
    else
      var n := |ids[0]|;
      var first := BtxtLabel(keys[0], MakeStrings(ids[0], values[..n]), bounds[0], bounds[1]);
      var rest := Assemble(ids[1..], keys[1..], values[n..], bounds[1..]);
      AssembleStep(ids, keys, values, bounds, first, rest);
      [first] + rest
  }

  lemma AssembleStep(ids: seq<seq<U32>>, keys: seq<Text>, values: seq<Text>, bounds: seq<U32>,
                     first: BtxtLabel, rest: seq<BtxtLabel>)
    requires |keys| == |ids| > 0 && |values| == TotalIds(ids) && |bounds| == |ids| + 1
    requires first == BtxtLabel(keys[0], MakeStrings(ids[0], values[..|ids[0]|]), bounds[0], bounds[1])
    requires IdLists(rest) == ids[1..] && Keys(rest) == keys[1..]
    requires ValueTexts(AllStrings(rest)) == values[|ids[0]|..]
    requires forall i {:trigger rest[i]} :: 0 <= i < |rest| ==> rest[i].startOffset == bounds[i + 1] && rest[i].endOffset == bounds[i + 2]
    ensures var r := [first] + rest;
      && IdLists(r) == ids && Keys(r) == keys
      && ValueTexts(AllStrings(r)) == values
      && forall i {:trigger r[i]} :: 0 <= i < |r| ==> r[i].startOffset == bounds[i] && r[i].endOffset == bounds[i + 1]
  {
    LabelCons(first, rest);
    ValueTextsAppend(first.values, AllStrings(rest));
    assert values == values[..|ids[0]|] + values[|ids[0]|..];
    assert ids == [ids[0]] + ids[1..];
    assert keys == [keys[0]] + keys[1..];
  }

  /** What every decoded label list looks like: ASCII keys with no NUL at
      either end, each no longer than its key block, key blocks that follow one
      another, and values free of raw line breaks with no NUL at either end. */
  predicate DecodedShape(labels: seq<BtxtLabel>) {
    && (forall i :: 0 <= i < |labels| ==>
          && IsAscii(labels[i].key) && NulFreeEnds(labels[i].key)
          && |labels[i].key| <= BlockLength(labels[i].startOffset, labels[i].endOffset))
    && (forall i :: 0 <= i < |labels| - 1 ==> labels[i].endOffset == labels[i + 1].startOffset)
    && (forall k :: 0 <= k < |AllStrings(labels)| ==>
          NoLineBreaks(AllStrings(labels)[k].value) && NulFreeEnds(AllStrings(labels)[k].value))
  }

  /** `ReadBtxtFileFromStream`. */
  function ReadBtxtFileFromStream(s: seq<Byte>): (r: Result<BtxtFile>)
    ensures r == Failure(NotBtxtFile) <==> |s| < 8 || s[..8] != BtxtHeader
    ensures r.Success? ==> var f := r.value;
      && f.numberOfLabels == |f.labels| < TwoTo16
      && f.numberOfStrings < TwoTo16
      && 12 + 8 * |f.labels| + 8 * |AllStrings(f.labels)| <= |s|
    ensures r.Success? ==> var f := r.value;
      && ReadPreamble(s).Success?
      && ReadPreamble(s).value.value == Preamble(f.numberOfLabels, f.numberOfStrings, IdLists(f.labels))
    ensures r.Success? ==> DecodedShape(r.value.labels)
  {
    var preamble :- ReadPreamble(s);
    var p := preamble.value;
    var labels :- ReadLabels(s, preamble.next, p);
    TotalIdsOfLabels(labels);
    Success(BtxtFile(p.labelCount, p.stringCount, labels))
  }

  /** Everything after the label metadata: the offset table, the key blocks
      and the value blocks, assembled into labels. */
  function ReadLabels(s: seq<Byte>, pos: nat, p: Preamble): (r: Result<seq<BtxtLabel>>)
    requires pos <= |s| && |p.ids| == p.labelCount
    ensures r.Success? ==> IdLists(r.value) == p.ids
    ensures r.Success? ==> pos + 4 * (p.labelCount + TotalIds(p.ids)) <= |s|
    ensures r.Success? ==> DecodedShape(r.value)
  {
    var total := TotalIds(p.ids);
    var bounds :- ReadOffsetTable(s, pos, p.labelCount, total, p.stringCount);
    var lengths := BlockLengths(bounds.value);
    var keyBlocks :- ReadBlocks(s, bounds.next, lengths[..p.labelCount]);
    var valueBlocks :- ReadBlocks(s, keyBlocks.next, lengths[p.labelCount..]);
    assert |keyBlocks.value| == p.labelCount && |valueBlocks.value| == total;
    var keys := DecodeKeys(keyBlocks.value);
    var values := DecodeValues(valueBlocks.value);
    var labels := Assemble(p.ids, keys, values, bounds.value[..p.labelCount + 1]);
    DecodedFacts(labels, p.ids, keyBlocks.value, valueBlocks.value, bounds.value);
    Success(labels)
  }

  /** What `Assemble` guarantees about the decoded labels, stated label by label. */
  lemma DecodedFacts(labels: seq<BtxtLabel>, ids: seq<seq<U32>>, keyBlocks: seq<seq<Byte>>,
                     valueBlocks: seq<seq<Byte>>, bounds: seq<U32>)
    requires |keyBlocks| == |ids| && |valueBlocks| == TotalIds(ids) && |bounds| > |ids|
    requires forall i :: 0 <= i < |ids| ==> |keyBlocks[i]| <= BlockLengths(bounds)[..|ids|][i]
    requires labels == Assemble(ids, DecodeKeys(keyBlocks), DecodeValues(valueBlocks), bounds[..|ids| + 1])
    ensures DecodedShape(labels)
  {
    DecodedKeys(labels, ids, keyBlocks, valueBlocks, bounds);
    DecodedChain(labels, ids, DecodeKeys(keyBlocks), DecodeValues(valueBlocks), bounds[..|ids| + 1]);
    DecodedValues(AllStrings(labels), valueBlocks);
  }

  lemma DecodedKeys(labels: seq<BtxtLabel>, ids: seq<seq<U32>>, keyBlocks: seq<seq<Byte>>,
                    valueBlocks: seq<seq<Byte>>, bounds: seq<U32>)
    requires |keyBlocks| == |ids| && |valueBlocks| == TotalIds(ids) && |bounds| > |ids|
    requires forall i :: 0 <= i < |ids| ==> |keyBlocks[i]| <= BlockLengths(bounds)[..|ids|][i]
    requires labels == Assemble(ids, DecodeKeys(keyBlocks), DecodeValues(valueBlocks), bounds[..|ids| + 1])
    ensures forall i :: 0 <= i < |labels| ==>
          && IsAscii(labels[i].key) && NulFreeEnds(labels[i].key)
          && |labels[i].key| <= BlockLength(labels[i].startOffset, labels[i].endOffset)
  {
    var keys := DecodeKeys(keyBlocks);
    var lengths := BlockLengths(bounds);
    forall i | 0 <= i < |labels|
      ensures IsAscii(labels[i].key) && NulFreeEnds(labels[i].key)
      ensures |labels[i].key| <= BlockLength(labels[i].startOffset, labels[i].endOffset)
    {
      assert labels[i].key == Keys(labels)[i] == keys[i] == DecodeKey(keyBlocks[i]);
      assert lengths[..|ids|][i] == lengths[i] == BlockLength(bounds[i], bounds[i + 1]);
      assert bounds[..|ids| + 1][i] == bounds[i] && bounds[..|ids| + 1][i + 1] == bounds[i + 1];
    }
  }

  lemma DecodedChain(labels: seq<BtxtLabel>, ids: seq<seq<U32>>, keys: seq<Text>, values: seq<Text>, bounds: seq<U32>)
    requires |keys| == |ids| && |values| == TotalIds(ids) && |bounds| == |ids| + 1
    requires labels == Assemble(ids, keys, values, bounds)
    ensures forall i :: 0 <= i < |labels| - 1 ==> labels[i].endOffset == labels[i + 1].startOffset
  {
  }

  lemma DecodedValues(strings: seq<BtxtString>, valueBlocks: seq<seq<Byte>>)
    requires ValueTexts(strings) == DecodeValues(valueBlocks)
    ensures forall k :: 0 <= k < |strings| ==> NoLineBreaks(strings[k].value) && NulFreeEnds(strings[k].value)
  {
    forall k | 0 <= k < |strings|
      ensures NoLineBreaks(strings[k].value) && NulFreeEnds(strings[k].value)
    {
      DecodedValue(strings, DecodeValues(valueBlocks), valueBlocks, k);
    }
  }

  lemma DecodedValue(strings: seq<BtxtString>, values: seq<Text>, valueBlocks: seq<seq<Byte>>, k: nat)
    requires values == DecodeValues(valueBlocks) && ValueTexts(strings) == values && k < |strings|
    ensures NoLineBreaks(strings[k].value) && NulFreeEnds(strings[k].value)
  {
    assert strings[k].value == ValueTexts(strings)[k] == DecodeValue(valueBlocks[k]);
  }
}
