/**
 The BTXT encoder (`WriteBtxtFileToStream`). The stream becomes the returned
 byte sequence. The encoder also rewrites every string value in place before
 measuring it; that side effect becomes the updated file returned next to the
 bytes.

 The stream is written in this order: the header, the two counts, the label
 metadata, the offset table, the key blocks and the value blocks. Every block
 is padded with NULs so that the position after it has a chosen parity.
 */
module Writer {
  import opened Bytes
  import opened Text
  import opened Escape
  import opened Models
  import opened Layout

  /** `CalculatePadding`: the terminator of `nullCharacterLength` units, plus
      one more unit exactly when the block would otherwise end at an odd offset. */
  function CalculatePadding(currentEndOffset: nat, length: nat, nullCharacterLength: nat): (r: nat)
    ensures nullCharacterLength <= r <= nullCharacterLength + 1
    ensures (currentEndOffset + length + r) % 2 == 0
    ensures r == nullCharacterLength <==> (currentEndOffset + length + nullCharacterLength) % 2 == 0
  {
    (currentEndOffset + length + nullCharacterLength) % 2 + nullCharacterLength
  }

  // ---- The in-place rewrite of the values ----

  function UnescapeString(v: BtxtString): BtxtString {
    v.(value := DeserializeEscapeCharacters(v.value))
  }

  function UnescapeStrings(vs: seq<BtxtString>): (r: seq<BtxtString>)
    ensures |r| == |vs|
    ensures forall k :: 0 <= k < |vs| ==> r[k] == UnescapeString(vs[k])
  {
    seq(|vs|, k requires 0 <= k < |vs| => UnescapeString(vs[k]))
  }

  function UnescapeLabel(l: BtxtLabel): BtxtLabel {
    l.(values := UnescapeStrings(l.values))
  }

  /** The labels after `value.Value = DeserializeEscapeCharacters(value.Value)`
      has run on every string: keys, offsets and identifiers are untouched. */
  function UnescapeLabels(labels: seq<BtxtLabel>): (r: seq<BtxtLabel>)
    ensures |r| == |labels|
    ensures forall i :: 0 <= i < |labels| ==>
      && r[i].key == labels[i].key
      && r[i].startOffset == labels[i].startOffset
      && r[i].endOffset == labels[i].endOffset
      && Ids(r[i].values) == Ids(labels[i].values)
    ensures AllStrings(r) == UnescapeStrings(AllStrings(labels))
    decreases |labels|
  {
    if |labels| == 0 then []
    else
      var rest := UnescapeLabels(labels[1..]);
      var r := [UnescapeLabel(labels[0])] + rest;
      assert r[1..] == rest;
      assert forall i :: 1 <= i < |labels| ==> labels[i] == labels[1..][i - 1];
      r
  }

  // ---- The offset table ----

  /** `currentOffset` after the label offset loop: the stored end offset of the
      last label, or 0 when there are no labels. */
  function LastLabelEnd(labels: seq<BtxtLabel>): U32 {
    if |labels| == 0 then 0 else labels[|labels| - 1].endOffset
  }

  /** The label offset words: 0 for the first label, then for every other label
      the stored end offset of the label before it. */
  function LabelOffsetWords(labels: seq<BtxtLabel>): (r: seq<U32>)
    ensures |r| == |labels|
    ensures |labels| > 0 ==> r[0] == 0
    ensures forall i :: 0 < i < |labels| ==> r[i] == labels[i - 1].endOffset
  {
    seq(|labels|, i requires 0 <= i < |labels| => if i == 0 then 0 else labels[i - 1].endOffset)
  }

  /** The string offset that follows `cur` once a value of `|v|` code units has
      been accounted for, in unchecked 32-bit arithmetic. */
  function NextStringOffset(cur: U32, v: Text): U32 {
    ToU32(cur + 2 * |v| + 2 * CalculatePadding(cur, |v|, 2))
  }

  /** The string offsets from `cur` on, one per value, followed by the offset
      after the last value. */
  function StringOffsetRun(cur: U32, values: seq<Text>): (r: seq<U32>)
    ensures |r| == |values| + 1 && r[0] == cur
    decreases |values|
  {
    if |values| == 0 then [cur]
    else [cur] + StringOffsetRun(NextStringOffset(cur, values[0]), values[1..])
  }

  /** All string values of the labels, in the order the encoder visits them. */
  function ValueList(labels: seq<BtxtLabel>): (r: seq<Text>)
    ensures |r| == |AllStrings(labels)|
  {
    ValueTexts(AllStrings(labels))
  }

  /** The offset table the encoder writes: one word per label, then one per string. */
  function OffsetTable(labels: seq<BtxtLabel>): (r: seq<U32>)
    ensures |r| == |labels| + |AllStrings(labels)|
  {
    var values := ValueList(labels);
    LabelOffsetWords(labels) + StringOffsetRun(LastLabelEnd(labels), values)[..|values|]
  }

  // ---- The blocks ----

  /** A key block written at stream position `pos`: the ASCII bytes, a NUL
      terminator of three bytes and one more NUL if the block would end odd. */
  function KeyBlock(pos: nat, key: Text): (r: seq<Byte>)
    ensures |r| == |key| + 3 || |r| == |key| + 4
    ensures (pos + |r|) % 2 == 0
  {
    AsciiEncode(key) + Zeros(CalculatePadding(pos, |key|, 3))
  }

  /** The key blocks written one after another from `pos`. */
  function KeyBlocks(pos: nat, keys: seq<Text>): (r: seq<seq<Byte>>)
    ensures |r| == |keys|
    decreases |keys|
  {
    if |keys| == 0 then []
    else
      var b := KeyBlock(pos, keys[0]);
      [b] + KeyBlocks(pos + |b|, keys[1..])
  }

  /** The bytes of the key blocks written from `pos`: the region ends at an
      even position whenever it holds a key. */
  function KeyRegion(pos: nat, keys: seq<Text>): (r: seq<Byte>)
    ensures (pos + |r|) % 2 == (if |keys| == 0 then pos % 2 else 0)
    decreases |keys|
  {
    if |keys| == 0 then []
    else
      var b := KeyBlock(pos, keys[0]);
      b + KeyRegion(pos + |b|, keys[1..])
  }

  /** A value block written at stream position `pos`: the UTF-16 bytes and a
      NUL terminator of two or three code units, chosen from the parity of
      `pos + |value|`. Four or six extra bytes keep the position's parity. */
  function ValueBlock(pos: nat, value: Text): (r: seq<Byte>)
    ensures |r| == 2 * |value| + 4 || |r| == 2 * |value| + 6
    ensures (pos + |r|) % 2 == pos % 2
  {
    Utf16Encode(value) + Zeros(2 * CalculatePadding(pos, |value|, 2))
  }

  /** The value blocks written one after another from `pos`. */
  function ValueBlocks(pos: nat, values: seq<Text>): (r: seq<seq<Byte>>)
    ensures |r| == |values|
    decreases |values|
  {
    if |values| == 0 then []
    else
      var b := ValueBlock(pos, values[0]);
      [b] + ValueBlocks(pos + |b|, values[1..])
  }

  /** The bytes of the value blocks written from `pos`: the region ends at a
      position of the same parity as its start. */
  function ValueRegion(pos: nat, values: seq<Text>): (r: seq<Byte>)
    ensures (pos + |r|) % 2 == pos % 2
    decreases |values|
  {
    if |values| == 0 then []
    else
      var b := ValueBlock(pos, values[0]);
      b + ValueRegion(pos + |b|, values[1..])
  }

  // ---- The encoder ----

  /** Everything before the key blocks: the header, the two counts cast to
      16 bits, the label metadata and the offset table. */
  function PreambleBytes(numberOfLabels: U32, numberOfStrings: U32, labels: seq<BtxtLabel>): (r: seq<Byte>)
    ensures |r| == 12 + 8 * |labels| + 8 * |AllStrings(labels)|
    ensures |r| % 2 == 0
    ensures r[..8] == BtxtHeader
  {
    TotalIdsOfLabels(labels);
    EvenPreamble(|labels|, |AllStrings(labels)|);
    BtxtHeader + LE16(numberOfLabels % TwoTo16) + LE16(numberOfStrings % TwoTo16)
      + MetadataBytes(IdLists(labels)) + WordsBytes(OffsetTable(labels))
  }

  lemma EvenPreamble(labelCount: nat, stringCount: nat)
    ensures (12 + 8 * labelCount + 8 * stringCount) % 2 == 0
  {
    assert 12 + 8 * labelCount + 8 * stringCount == 2 * (6 + 4 * labelCount + 4 * stringCount);
  }

  /** The bytes the encoder writes for labels whose values are already unescaped. */
  function EncodeLabels(numberOfLabels: U32, numberOfStrings: U32, labels: seq<BtxtLabel>): (r: seq<Byte>)
    ensures |r| >= 12 && r[..8] == BtxtHeader
    ensures |r| % 2 == 0
  {
    var pre := PreambleBytes(numberOfLabels, numberOfStrings, labels);
    var keys := KeyRegion(|pre|, Keys(labels));
    var values := ValueRegion(|pre| + |keys|, ValueList(labels));
    JoinRegions(pre, keys, values, |Keys(labels)|);
    pre + keys + values
  }

  lemma JoinRegions(pre: seq<Byte>, keys: seq<Byte>, values: seq<Byte>, keyCount: nat)
    requires |pre| >= 12 && pre[..8] == BtxtHeader && |pre| % 2 == 0
    requires (|pre| + |keys|) % 2 == (if keyCount == 0 then |pre| % 2 else 0)
    requires (|pre| + |keys| + |values|) % 2 == (|pre| + |keys|) % 2
    ensures var r := pre + keys + values; |r| >= 12 && r[..8] == BtxtHeader && |r| % 2 == 0
  {
    assert (pre + keys + values)[..8] == pre[..8];
  }

  /** The file after the encoder has unescaped every value in place. */
  function UnescapeFile(f: BtxtFile): (g: BtxtFile)
    ensures g.numberOfLabels == f.numberOfLabels && g.numberOfStrings == f.numberOfStrings
    ensures |g.labels| == |f.labels|
    ensures forall i :: 0 <= i < |f.labels| ==>
      && g.labels[i].key == f.labels[i].key
      && g.labels[i].startOffset == f.labels[i].startOffset
      && g.labels[i].endOffset == f.labels[i].endOffset
      && Ids(g.labels[i].values) == Ids(f.labels[i].values)
    ensures |AllStrings(g.labels)| == |AllStrings(f.labels)|
    ensures forall k :: 0 <= k < |AllStrings(f.labels)| ==>
      && AllStrings(g.labels)[k].id == AllStrings(f.labels)[k].id
      && AllStrings(g.labels)[k].value == DeserializeEscapeCharacters(AllStrings(f.labels)[k].value)
  {
    f.(labels := UnescapeLabels(f.labels))
  }

  /** The bytes written and the file as the encoder leaves it. */
  datatype Written = Written(bytes: seq<Byte>, file: BtxtFile)

  /** `WriteBtxtFileToStream`: the bytes written, and the file as it is left. */
  function WriteBtxtFileToStream(f: BtxtFile): (w: Written)
    ensures |w.bytes| >= 12 && w.bytes[..8] == BtxtHeader
    ensures |w.bytes| % 2 == 0
    ensures w.file == UnescapeFile(f)
  {
    Written(EncodeLabels(f.numberOfLabels, f.numberOfStrings, UnescapeLabels(f.labels)), UnescapeFile(f))
  }

  // ---- The string offsets against the value blocks ----

  lemma ToU32Differs(a: nat, b: nat)
    requires a + 2 == b
    ensures ToU32(a) != ToU32(b)
  {
  }

  lemma ToU32Parity(n: nat)
    ensures ToU32(n) % 2 == n % 2
  {
    var q := n / TwoTo32;
    assert n == q * TwoTo32 + ToU32(n);
    assert q * TwoTo32 == 2 * (q * TwoTo31);
  }

  /** One step of the string offset loop keeps the offset's parity. */
  lemma NextOffsetParity(cur: U32, v: Text)
    ensures NextStringOffset(cur, v) % 2 == cur % 2
  {
    ToU32Parity(cur + 2 * |v| + 2 * CalculatePadding(cur, |v|, 2));
  }

  /** One step of the string offset loop: the offset advances by the size of
      the block written for the same value exactly when the two start at
      positions of the same parity. */
  lemma NextOffsetTracksBlock(cur: U32, pos: nat, v: Text)
    ensures NextStringOffset(cur, v) == ToU32(cur + |ValueBlock(pos, v)|) <==> cur % 2 == pos % 2
  {
    var pc := CalculatePadding(cur, |v|, 2);
    var pp := CalculatePadding(pos, |v|, 2);
    var b := ValueBlock(pos, v);
    assert |b| == 2 * |v| + 2 * pp;
    PaddingAdvance(cur, pos, |v|, pc, pp, |b|);
  }

  lemma PaddingAdvance(cur: U32, pos: nat, len: nat, pc: nat, pp: nat, size: nat)
    requires pc == CalculatePadding(cur, len, 2) && pp == CalculatePadding(pos, len, 2)
    requires size == 2 * len + 2 * pp
    ensures ToU32(cur + 2 * len + 2 * pc) == ToU32(cur + size) <==> cur % 2 == pos % 2
  {
    var n := cur + 2 * len + 2 * pc;
    var m := cur + size;
    if cur % 2 == pos % 2 {
      assert pc == pp;
    } else if pc < pp {
      ToU32Differs(n, m);
    } else {
      ToU32Differs(m, n);
    }
  }

  /** Each offset is the one before it advanced by the size of the block
      between them, in unchecked 32-bit arithmetic. */
  predicate OffsetsTrack(run: seq<U32>, blocks: seq<seq<Byte>>)
    requires |run| == |blocks| + 1
  {
    forall k {:trigger blocks[k]} :: 0 <= k < |blocks| ==> run[k + 1] == ToU32(run[k] + |blocks[k]|)
  }

  lemma ValueBlocksCons(pos: nat, values: seq<Text>)
    requires |values| > 0
    ensures var b := ValueBlock(pos, values[0]);
      ValueBlocks(pos, values) == [b] + ValueBlocks(pos + |b|, values[1..])
  {
  }

  lemma StringOffsetRunCons(cur: U32, values: seq<Text>)
    requires |values| > 0
    ensures StringOffsetRun(cur, values) == [cur] + StringOffsetRun(NextStringOffset(cur, values[0]), values[1..])
  {
  }

  /** With the offsets and the blocks starting at positions of the same parity,
      every offset advances by exactly its block's size, modulo 2^32. */
  lemma {:induction false} StringOffsetsTrackSameParity(cur: U32, pos: nat, values: seq<Text>)
    requires cur % 2 == pos % 2
    ensures OffsetsTrack(StringOffsetRun(cur, values), ValueBlocks(pos, values))
    decreases |values|
  {
    if |values| > 0 {
      var b := ValueBlock(pos, values[0]);
      var next := NextStringOffset(cur, values[0]);
      NextOffsetTracksBlock(cur, pos, values[0]);
      NextOffsetParity(cur, values[0]);
      StringOffsetsTrackSameParity(next, pos + |b|, values[1..]);
      ValueBlocksCons(pos, values);
      StringOffsetRunCons(cur, values);
      TrackCons(cur, b, StringOffsetRun(next, values[1..]), ValueBlocks(pos + |b|, values[1..]));
    }
  }

  lemma TrackCons(cur: U32, b: seq<Byte>, rest: seq<U32>, restBlocks: seq<seq<Byte>>)
    requires |rest| == |restBlocks| + 1
    requires rest[0] == ToU32(cur + |b|)
    requires OffsetsTrack(rest, restBlocks)
    ensures OffsetsTrack([cur] + rest, [b] + restBlocks)
  {
    var run := [cur] + rest;
    var blocks := [b] + restBlocks;
    forall k | 0 <= k < |blocks|
      ensures run[k + 1] == ToU32(run[k] + |blocks[k]|)
    {
      if k > 0 {
        assert run[k + 1] == rest[k] && run[k] == rest[k - 1];
        assert blocks[k] == restBlocks[k - 1];
      }
    }
  }

  /** The string offsets the encoder writes match the value blocks it writes
      exactly when the first offset and the first block's position have the
      same parity. */
  lemma StringOffsetsTrackBlocks(cur: U32, pos: nat, values: seq<Text>)
    requires |values| > 0
    ensures OffsetsTrack(StringOffsetRun(cur, values), ValueBlocks(pos, values)) <==> cur % 2 == pos % 2
  {
    if cur % 2 == pos % 2 {
      StringOffsetsTrackSameParity(cur, pos, values);
    } else {
      NextOffsetTracksBlock(cur, pos, values[0]);
      assert ValueBlocks(pos, values)[0] == ValueBlock(pos, values[0]);
      assert StringOffsetRun(cur, values)[1] == NextStringOffset(cur, values[0]);
    }
  }

  /** In the encoder's output, the string offsets match the value blocks
      exactly when the last label's stored end offset is even. */
  lemma StringOffsetsMatchIffEvenLabelEnd(numberOfLabels: U32, numberOfStrings: U32, labels: seq<BtxtLabel>)
    requires |AllStrings(labels)| > 0
    ensures var pre := PreambleBytes(numberOfLabels, numberOfStrings, labels);
      var valuesStart := |pre| + |KeyRegion(|pre|, Keys(labels))|;
      OffsetsTrack(StringOffsetRun(LastLabelEnd(labels), ValueList(labels)), ValueBlocks(valuesStart, ValueList(labels)))
      <==> LastLabelEnd(labels) % 2 == 0
  {
    var pre := PreambleBytes(numberOfLabels, numberOfStrings, labels);
    var valuesStart := |pre| + |KeyRegion(|pre|, Keys(labels))|;
    ValuesStartEven(pre, labels);
    StringOffsetsTrackBlocks(LastLabelEnd(labels), valuesStart, ValueList(labels));
  }

  lemma ValuesStartEven(pre: seq<Byte>, labels: seq<BtxtLabel>)
    requires |pre| % 2 == 0 && |AllStrings(labels)| > 0
    ensures (|pre| + |KeyRegion(|pre|, Keys(labels))|) % 2 == 0
  {
    assert |labels| > 0;
  }
}
