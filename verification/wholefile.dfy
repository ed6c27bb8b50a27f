/**
 The decoder undoes the encoder: for every file that keeps to the layout the
 encoder assumes, reading back the bytes written gives the file itself.
 */
module WholeFile {
  import opened Bytes
  import opened Text
  import opened Escape
  import opened Models
  import opened Layout
  import opened Reader
  import opened Writer
  import opened RoundTrip
  import opened FileRoundTrip

  // ---- A label list is determined by what the decoder reads ----

  /** Strings are determined by their identifiers and texts. */
  lemma StringsDetermined(a: seq<BtxtString>, b: seq<BtxtString>)
    requires Ids(a) == Ids(b) && ValueTexts(a) == ValueTexts(b)
    ensures a == b
  {
    forall i | 0 <= i < |a|
      ensures a[i] == b[i]
    {
      assert a[i].id == Ids(a)[i] && b[i].id == Ids(b)[i];
      assert a[i].value == ValueTexts(a)[i] && b[i].value == ValueTexts(b)[i];
    }
  }

  /** The offsets of every label. */
  predicate SameOffsets(a: seq<BtxtLabel>, b: seq<BtxtLabel>) {
    && |a| == |b|
    && forall i :: 0 <= i < |a| ==> a[i].startOffset == b[i].startOffset && a[i].endOffset == b[i].endOffset
  }

  /** Labels are determined by their identifier lists, keys, string texts in
      global order and offsets. */
  lemma {:induction false} LabelsDetermined(a: seq<BtxtLabel>, b: seq<BtxtLabel>)
    requires IdLists(a) == IdLists(b) && Keys(a) == Keys(b)
    requires ValueTexts(AllStrings(a)) == ValueTexts(AllStrings(b))
    requires SameOffsets(a, b)
    ensures a == b
    decreases |a|
  {
    if |a| > 0 {
      LabelsHead(a, b);
      LabelsDetermined(a[1..], b[1..]);
      assert a == [a[0]] + a[1..] && b == [b[0]] + b[1..];
    }
  }

  /** The first labels agree, and so does everything the rest determines. */
  lemma LabelsHead(a: seq<BtxtLabel>, b: seq<BtxtLabel>)
    requires |a| > 0
    requires IdLists(a) == IdLists(b) && Keys(a) == Keys(b)
    requires ValueTexts(AllStrings(a)) == ValueTexts(AllStrings(b))
    requires SameOffsets(a, b)
    ensures a[0] == b[0]
    ensures IdLists(a[1..]) == IdLists(b[1..]) && Keys(a[1..]) == Keys(b[1..])
    ensures ValueTexts(AllStrings(a[1..])) == ValueTexts(AllStrings(b[1..]))
    ensures SameOffsets(a[1..], b[1..])
  {
    assert a == [a[0]] + a[1..] && b == [b[0]] + b[1..];
    LabelCons(a[0], a[1..]);
    LabelCons(b[0], b[1..]);
    ValueTextsAppend(a[0].values, AllStrings(a[1..]));
    ValueTextsAppend(b[0].values, AllStrings(b[1..]));
    assert Ids(a[0].values) == IdLists(a)[0] == IdLists(b)[0] == Ids(b[0].values);
    TextsSplit(ValueTexts(a[0].values), ValueTexts(AllStrings(a[1..])),
               ValueTexts(b[0].values), ValueTexts(AllStrings(b[1..])));
    StringsDetermined(a[0].values, b[0].values);
    assert a[0].key == Keys(a)[0] == Keys(b)[0] == b[0].key;
    assert IdLists(a)[1..] == IdLists(a[1..]) && IdLists(b)[1..] == IdLists(b[1..]);
    assert Keys(a)[1..] == Keys(a[1..]) && Keys(b)[1..] == Keys(b[1..]);
  }

  lemma TextsSplit(x: seq<Text>, y: seq<Text>, u: seq<Text>, v: seq<Text>)
    requires |x| == |u| && x + y == u + v
    ensures x == u && y == v
  {
    assert x == (x + y)[..|x|] && u == (u + v)[..|u|];
    assert y == (x + y)[|x|..] && v == (u + v)[|u|..];
  }

  // ---- Chained key block offsets ----

  /** Every label starts where the one before it ends, the first at `start`. */
  predicate StartsChained(start: nat, labels: seq<BtxtLabel>) {
    && (|labels| > 0 ==> labels[0].startOffset == start)
    && forall i :: 0 < i < |labels| ==> labels[i].startOffset == labels[i - 1].endOffset
  }

  lemma {:induction false} ChainStarts(start: nat, labels: seq<BtxtLabel>)
    requires KeysChainFrom(start, labels)
    ensures StartsChained(start, labels)
    decreases |labels|
  {
    if |labels| > 0 {
      ChainStarts(labels[0].endOffset, labels[1..]);
      StartsStep(start, labels);
    }
  }

  lemma StartsStep(start: nat, labels: seq<BtxtLabel>)
    requires |labels| > 0 && labels[0].startOffset == start
    requires StartsChained(labels[0].endOffset, labels[1..])
    ensures StartsChained(start, labels)
  {
    var rest := labels[1..];
    forall i | 1 < i < |labels|
      ensures labels[i].startOffset == labels[i - 1].endOffset
    {
      assert labels[i] == rest[i - 1] && labels[i - 1] == rest[i - 2];
    }
  }

  /** A chain ends where the key region written from a position of the same
      parity ends. */
  lemma {:induction false} ChainEnd(start: U32, pos: nat, labels: seq<BtxtLabel>)
    requires KeysChainFrom(start, labels) && pos % 2 == start % 2
    requires start + |KeyRegion(pos, Keys(labels))| < TwoTo31
    ensures ([start] + Ends(labels))[|labels|] == start + |KeyRegion(pos, Keys(labels))|
    decreases |labels|
  {
    if |labels| > 0 {
      var rest := labels[1..];
      var b := KeyBlock(pos, labels[0].key);
      KeyChainHead(pos, start, labels, b, rest);
      ChainEnd(labels[0].endOffset, pos + |b|, rest);
    }
  }

  /** The chain depends only on the keys and the offsets. */
  lemma {:induction false} ChainSameShape(start: nat, a: seq<BtxtLabel>, b: seq<BtxtLabel>)
    requires KeysChainFrom(start, a) && SameOffsets(a, b)
    requires forall i :: 0 <= i < |a| ==> a[i].key == b[i].key
    ensures KeysChainFrom(start, b)
    decreases |a|
  {
    if |a| > 0 {
      ChainSameShape(a[0].endOffset, a[1..], b[1..]);
    }
  }

  // ---- The offset table read back ----

  /** The words the decoder reads: the encoder's table and the stream length. */
  lemma BoundsSplit(labels: seq<BtxtLabel>, x: U32)
    requires |AllStrings(labels)| > 0
    ensures var bounds := OffsetTable(labels) + [x];
      && bounds[..|labels| + 1] == [0] + Ends(labels)
      && bounds[|labels|..] == StringOffsetRun(LastLabelEnd(labels), ValueList(labels))[..|AllStrings(labels)|] + [x]
  {
    var bounds := OffsetTable(labels) + [x];
    var run := StringOffsetRun(LastLabelEnd(labels), ValueList(labels))[..|AllStrings(labels)|];
    assert OffsetTable(labels) == LabelOffsetWords(labels) + run;
    assert bounds[|labels|..] == run + [x];
    forall i | 0 <= i <= |labels|
      ensures bounds[i] == ([0] + Ends(labels))[i]
    {
      if i == |labels| {
        assert bounds[i] == run[0];
      } else {
        assert bounds[i] == LabelOffsetWords(labels)[i];
      }
    }
  }

  /** The block lengths before and after position `k`. */
  lemma BlockLengthsSplit(bounds: seq<U32>, k: nat)
    requires k < |bounds|
    ensures BlockLengths(bounds)[..k] == BlockLengths(bounds[..k + 1])
    ensures BlockLengths(bounds)[k..] == BlockLengths(bounds[k..])
  {
  }

  /** Where the offset table lies in a stream that starts with the preamble. */
  lemma TableAt(numberOfLabels: U32, numberOfStrings: U32, labels: seq<BtxtLabel>, s: seq<Byte>)
    requires HoldsAt(s, 0, PreambleBytes(numberOfLabels, numberOfStrings, labels))
    ensures HoldsAt(s, 12 + 4 * (|labels| + |AllStrings(labels)|), WordsBytes(OffsetTable(labels)))
  {
    var head := BtxtHeader + LE16(numberOfLabels % TwoTo16) + LE16(numberOfStrings % TwoTo16)
      + MetadataBytes(IdLists(labels));
    MetadataLength(labels);
    assert PreambleBytes(numberOfLabels, numberOfStrings, labels) == head + WordsBytes(OffsetTable(labels));
    HoldsAtSuffix(s, head, WordsBytes(OffsetTable(labels)), 12 + 4 * (|labels| + |AllStrings(labels)|));
  }

  lemma MetadataLength(labels: seq<BtxtLabel>)
    ensures |MetadataBytes(IdLists(labels))| == 4 * (|labels| + |AllStrings(labels)|)
  {
    TotalIdsOfLabels(labels);
  }

  lemma HoldsAtSuffix(s: seq<Byte>, head: seq<Byte>, tail: seq<Byte>, n: nat)
    requires HoldsAt(s, 0, head + tail) && |head| == n
    ensures HoldsAt(s, n, tail)
  {
    HoldsAtConcat(s, 0, head, tail);
  }

  // ---- The values ----

  /** No label holds more strings than all labels together. */
  lemma {:induction false} LabelStringsBelow(labels: seq<BtxtLabel>)
    ensures forall i :: 0 <= i < |labels| ==> |labels[i].values| <= |AllStrings(labels)|
    decreases |labels|
  {
    if |labels| > 0 {
      LabelStringsBelow(labels[1..]);
      assert forall i :: 1 <= i < |labels| ==> labels[i] == labels[1..][i - 1];
    }
  }

  /** Re-escaping the unescaped values restores the original values when none
      holds a raw line break. */
  lemma ValuesRestored(labels: seq<BtxtLabel>)
    requires forall k :: 0 <= k < |AllStrings(labels)| ==> NoLineBreaks(AllStrings(labels)[k].value)
    ensures SerializeAll(ValueList(UnescapeLabels(labels))) == ValueTexts(AllStrings(labels))
  {
    var all := AllStrings(labels);
    var values := ValueList(UnescapeLabels(labels));
    forall k | 0 <= k < |all|
      ensures SerializeAll(values)[k] == ValueTexts(all)[k]
    {
      assert values[k] == DeserializeEscapeCharacters(all[k].value);
      SerializeOfDeserialize(all[k].value);
    }
  }

  /** Unescaping keeps values free of NUL at either end. */
  lemma ValuesKeepNulFreeEnds(labels: seq<BtxtLabel>)
    requires forall k :: 0 <= k < |AllStrings(labels)| ==> NulFreeEnds(AllStrings(labels)[k].value)
    ensures forall k :: 0 <= k < |ValueList(UnescapeLabels(labels))| ==> NulFreeEnds(ValueList(UnescapeLabels(labels))[k])
  {
    var all := AllStrings(labels);
    var values := ValueList(UnescapeLabels(labels));
    forall k | 0 <= k < |values|
      ensures NulFreeEnds(values[k])
    {
      assert values[k] == DeserializeEscapeCharacters(all[k].value);
      DeserializeKeepsNulFreeEnds(all[k].value);
    }
  }

  // ---- The whole file ----

  /** The files the decoder reads back unchanged: the declared counts are the
      numbers of labels and strings, there is at least one string and fewer
      than 2^16 of each, keys are ASCII and no key or value has a NUL at
      either end, values hold no raw line break and no lone surrogate (so the
      .NET UTF-16 charset writes and reads them unchanged), the stored offsets
      are the key block bounds the encoder lays out from offset 0, and the
      stream written stays below 2^31 bytes. */
  predicate RoundTripReady(f: BtxtFile) {
    && f.numberOfLabels == |f.labels| < TwoTo16
    && f.numberOfStrings == |AllStrings(f.labels)|
    && 0 < |AllStrings(f.labels)| < TwoTo16
    && (forall i :: 0 <= i < |f.labels| ==> IsAscii(f.labels[i].key) && NulFreeEnds(f.labels[i].key))
    && (forall k :: 0 <= k < |AllStrings(f.labels)| ==>
          && NoLineBreaks(AllStrings(f.labels)[k].value) && NulFreeEnds(AllStrings(f.labels)[k].value)
          && WellFormedUtf16(AllStrings(f.labels)[k].value))
    && KeysChainFrom(0, f.labels)
    && |Encoded(f)| < TwoTo31
  }

  /** The labels as the encoder writes them: every value unescaped. */
  function Stored(f: BtxtFile): seq<BtxtLabel> {
    UnescapeLabels(f.labels)
  }

  /** The preamble and key region of the stream the encoder writes. */
  function PreamblePart(f: BtxtFile): seq<Byte> {
    PreambleBytes(f.numberOfLabels, f.numberOfStrings, Stored(f))
  }

  function KeyPart(f: BtxtFile): seq<Byte> {
    KeyRegion(|PreamblePart(f)|, Keys(Stored(f)))
  }

  /** What unescaping leaves unchanged. */
  lemma StoredShape(f: BtxtFile)
    ensures |Stored(f)| == |f.labels| && |AllStrings(Stored(f))| == |AllStrings(f.labels)|
    ensures Keys(Stored(f)) == Keys(f.labels) && IdLists(Stored(f)) == IdLists(f.labels)
    ensures Ends(Stored(f)) == Ends(f.labels)
    ensures SameOffsets(f.labels, Stored(f))
    ensures forall i :: 0 <= i < |f.labels| ==> f.labels[i].key == Stored(f)[i].key
  {
  }

  /** The stream the encoder writes is the preamble, the key region and the
      value region. */
  lemma StreamParts(f: BtxtFile)
    ensures Encoded(f) == PreambleBytes(f.numberOfLabels, f.numberOfStrings, Stored(f))
                          + KeyRegion(KeysAt(f), Keys(Stored(f)))
                          + ValueRegion(ValuesAt(f), ValueList(Stored(f)))
  {
  }

  lemma HoldsAtThree(s: seq<Byte>, a: seq<Byte>, b: seq<Byte>, c: seq<Byte>, p: nat, q: nat)
    requires s == a + b + c && p == |a| && q == |a| + |b|
    ensures HoldsAt(s, 0, a) && HoldsAt(s, p, b) && HoldsAt(s, q, c) && q + |c| == |s|
  {
    HoldsAtWhole(a + b, c);
    HoldsAtConcat(s, 0, a, b);
  }

  /** The preamble reads back as the counts and identifier lists written. */
  lemma PreambleBack(numberOfLabels: U32, numberOfStrings: U32, labels: seq<BtxtLabel>, s: seq<Byte>,
                     p: Preamble, next: nat)
    requires numberOfLabels == |labels| < TwoTo16
    requires numberOfStrings == |AllStrings(labels)| < TwoTo16
    requires HoldsAt(s, 0, PreambleBytes(numberOfLabels, numberOfStrings, labels))
    requires p == Preamble(numberOfLabels, numberOfStrings, IdLists(labels))
    requires next == 12 + 4 * (numberOfLabels + numberOfStrings)
    ensures ReadPreamble(s) == Success(Read(p, next))
  {
    SmallMod(numberOfLabels);
    SmallMod(numberOfStrings);
    LabelStringsSmall(labels);
    assert Read(Preamble(|labels|, numberOfStrings % TwoTo16, IdLists(labels)),
                12 + 4 * (|labels| + |AllStrings(labels)|)) == Read(p, next);
    ReadPreambleOf(numberOfLabels, numberOfStrings, labels, s);
  }

  lemma SmallMod(n: int)
    requires 0 <= n < TwoTo16
    ensures n % TwoTo16 == n
  {
  }

  lemma LabelStringsSmall(labels: seq<BtxtLabel>)
    requires |AllStrings(labels)| < TwoTo16
    ensures forall i :: 0 <= i < |labels| ==> |labels[i].values| < TwoTo32
  {
    LabelStringsBelow(labels);
  }

  /** The offset table reads back as the words written followed by the stream
      length, and ends where the preamble does. */
  lemma TableBack(numberOfLabels: U32, numberOfStrings: U32, labels: seq<BtxtLabel>, s: seq<Byte>,
                  pos: nat, labelCount: U16, total: nat, stringCount: U16, ws: seq<U32>, next: nat)
    requires labelCount == |labels| && stringCount == |AllStrings(labels)| > 0
    requires total == TotalIds(IdLists(labels)) && ws == OffsetTable(labels)
    requires pos == 12 + 4 * (labelCount + stringCount) && next == 12 + 8 * (labelCount + stringCount)
    requires HoldsAt(s, 0, PreambleBytes(numberOfLabels, numberOfStrings, labels))
    ensures ReadOffsetTable(s, pos, labelCount, total, stringCount) == Success(Read(ws + [ToU32(|s|)], next))
  {
    TableWordsAt(numberOfLabels, numberOfStrings, labels, s, pos, ws);
    TotalIdsOfLabels(labels);
    ReadOffsetTableAt(s, pos, labelCount, total, stringCount, ws, next);
  }

  lemma TableWordsAt(numberOfLabels: U32, numberOfStrings: U32, labels: seq<BtxtLabel>, s: seq<Byte>,
                     pos: nat, ws: seq<U32>)
    requires pos == 12 + 4 * (|labels| + |AllStrings(labels)|) && ws == OffsetTable(labels)
    requires HoldsAt(s, 0, PreambleBytes(numberOfLabels, numberOfStrings, labels))
    ensures WordsAt(s, pos, ws)
  {
    TableAt(numberOfLabels, numberOfStrings, labels, s);
    WordsAtOfBytes(s, pos, ws);
  }

  lemma ReadOffsetTableAt(s: seq<Byte>, pos: nat, labelCount: U16, total: nat, stringCount: U16,
                          ws: seq<U32>, next: nat)
    requires total == stringCount > 0 && |ws| == labelCount + total
    requires WordsAt(s, pos, ws) && next == pos + 4 * |ws|
    ensures ReadOffsetTable(s, pos, labelCount, total, stringCount) == Success(Read(ws + [ToU32(|s|)], next))
  {
    ReadOffsetTableOf(s, pos, labelCount, stringCount, ws);
  }

  /** The key block lengths the decoder derives from the table are the sizes
      of the key blocks written. */
  lemma KeyLengthsBack(pos: nat, labels: seq<BtxtLabel>, x: U32)
    requires |AllStrings(labels)| > 0
    requires KeysChainFrom(0, labels) && pos % 2 == 0
    requires |KeyRegion(pos, Keys(labels))| < TwoTo31
    ensures BlockLengths(OffsetTable(labels) + [x])[..|labels|] == Sizes(KeyBlocks(pos, Keys(labels)))
  {
    var bounds := OffsetTable(labels) + [x];
    BoundsSplit(labels, x);
    BlockLengthsSplit(bounds, |labels|);
    KeyLengthsOf(pos, 0, labels);
  }

  /** The key blocks lie one after another at `pos`, and the lengths the
      decoder derives for them are their sizes. */
  lemma KeysFit(pos: nat, labels: seq<BtxtLabel>, s: seq<Byte>,
                lengths: seq<int>, blocks: seq<seq<Byte>>)
    requires |AllStrings(labels)| > 0
    requires KeysChainFrom(0, labels) && pos % 2 == 0
    requires |KeyRegion(pos, Keys(labels))| < TwoTo31
    requires blocks == KeyBlocks(pos, Keys(labels))
    requires lengths == BlockLengths(OffsetTable(labels) + [ToU32(|s|)])[..|labels|]
    requires HoldsAt(s, pos, KeyRegion(pos, Keys(labels)))
    ensures HoldsAt(s, pos, Concat(blocks)) && LengthsFit(s, pos, blocks, lengths)
    ensures |Concat(blocks)| == |KeyRegion(pos, Keys(labels))|
  {
    KeyLengthsBack(pos, labels, ToU32(|s|));
    KeyRegionConcat(pos, Keys(labels));
    SizesFit(s, pos, blocks);
  }

  /** The last label ends where the key region does. */
  lemma KeysEnd(pos: nat, labels: seq<BtxtLabel>)
    requires KeysChainFrom(0, labels) && pos % 2 == 0
    requires |KeyRegion(pos, Keys(labels))| < TwoTo31
    ensures LastLabelEnd(labels) == |KeyRegion(pos, Keys(labels))|
  {
    ChainEnd(0, pos, labels);
    if |labels| > 0 {
      assert ([0] + Ends(labels))[|labels|] == Ends(labels)[|labels| - 1];
    }
  }

  /** The value block lengths the decoder derives from the table are the sizes
      of the value blocks written, but for the last, which reaches to the end
      of the stream. */
  lemma ValueLengthsBack(keysAt: nat, valuesAt: nat, labels: seq<BtxtLabel>, end: nat)
    requires |AllStrings(labels)| > 0
    requires KeysChainFrom(0, labels) && keysAt % 2 == 0
    requires valuesAt == keysAt + |KeyRegion(keysAt, Keys(labels))|
    requires valuesAt + |ValueRegion(valuesAt, ValueList(labels))| == end < TwoTo31
    ensures LastMayRunOver(BlockLengths(OffsetTable(labels) + [ToU32(end)])[|labels|..],
                           ValueBlocks(valuesAt, ValueList(labels)))
  {
    ValueLengthsOfTable(labels, end);
    KeysEnd(keysAt, labels);
    EvenShift(keysAt, LastLabelEnd(labels), valuesAt);
    ValueLengthsOf(LastLabelEnd(labels), valuesAt, ValueList(labels), end);
  }

  lemma EvenShift(a: nat, b: nat, c: nat)
    requires a % 2 == 0 && c == a + b
    ensures b % 2 == c % 2 && b <= c
  {
  }

  /** The value block lengths are those of the string offset run that
      continues from the last label end. */
  lemma ValueLengthsOfTable(labels: seq<BtxtLabel>, end: nat)
    requires |AllStrings(labels)| > 0
    ensures BlockLengths(OffsetTable(labels) + [ToU32(end)])[|labels|..]
      == ValueLengths(LastLabelEnd(labels), ValueList(labels), end)
  {
    var bounds := OffsetTable(labels) + [ToU32(end)];
    BoundsSplit(labels, ToU32(end));
    BlockLengthsSplit(bounds, |labels|);
  }

  /** The value blocks lie one after another up to the end of the stream, and
      the lengths the decoder derives for them fit. */
  lemma ValuesFit(keysAt: nat, valuesAt: nat, labels: seq<BtxtLabel>, s: seq<Byte>,
                  lengths: seq<int>, blocks: seq<seq<Byte>>)
    requires |AllStrings(labels)| > 0
    requires KeysChainFrom(0, labels) && keysAt % 2 == 0
    requires valuesAt == keysAt + |KeyRegion(keysAt, Keys(labels))|
    requires valuesAt + |ValueRegion(valuesAt, ValueList(labels))| == |s| < TwoTo31
    requires HoldsAt(s, valuesAt, ValueRegion(valuesAt, ValueList(labels)))
    requires blocks == ValueBlocks(valuesAt, ValueList(labels))
    requires lengths == BlockLengths(OffsetTable(labels) + [ToU32(|s|)])[|labels|..]
    ensures HoldsAt(s, valuesAt, Concat(blocks)) && LengthsFit(s, valuesAt, blocks, lengths)
    ensures valuesAt + |Concat(blocks)| == |s|
  {
    ValueLengthsBack(keysAt, valuesAt, labels, |s|);
    ValueRegionConcat(valuesAt, ValueList(labels));
    RunOverFits(s, valuesAt, blocks, lengths);
  }

  // ---- The labels read back ----

  /** Labels whose offsets chain from 0 are what assembling their own
      identifier lists, keys, string texts and bounds gives. */
  lemma AssembledIs(labels: seq<BtxtLabel>)
    requires StartsChained(0, labels)
    ensures TotalIds(IdLists(labels)) == |ValueTexts(AllStrings(labels))|
    ensures Assemble(IdLists(labels), Keys(labels), ValueTexts(AllStrings(labels)), [0] + Ends(labels)) == labels
  {
    TotalIdsOfLabels(labels);
    var r := Assemble(IdLists(labels), Keys(labels), ValueTexts(AllStrings(labels)), [0] + Ends(labels));
    forall i | 0 <= i < |labels|
      ensures r[i].startOffset == labels[i].startOffset && r[i].endOffset == labels[i].endOffset
    {
      assert ([0] + Ends(labels))[i + 1] == Ends(labels)[i];
      if i > 0 {
        assert ([0] + Ends(labels))[i] == Ends(labels)[i - 1];
      }
    }
    LabelsDetermined(r, labels);
  }

  /** What the decoder assembles from the blocks written is the file's labels. */
  lemma LabelsBack(f: BtxtFile, keysAt: nat, valuesAt: nat, x: U32)
    requires 0 < |AllStrings(f.labels)|
    requires forall i :: 0 <= i < |f.labels| ==> IsAscii(f.labels[i].key) && NulFreeEnds(f.labels[i].key)
    requires forall k :: 0 <= k < |AllStrings(f.labels)| ==>
      NoLineBreaks(AllStrings(f.labels)[k].value) && NulFreeEnds(AllStrings(f.labels)[k].value)
    requires KeysChainFrom(0, f.labels)
    ensures TotalIds(IdLists(Stored(f))) == |DecodeValues(ValueBlocks(valuesAt, ValueList(Stored(f))))|
    ensures |DecodeKeys(KeyBlocks(keysAt, Keys(Stored(f))))| == |IdLists(Stored(f))|
    ensures Assemble(IdLists(Stored(f)),
                     DecodeKeys(KeyBlocks(keysAt, Keys(Stored(f)))),
                     DecodeValues(ValueBlocks(valuesAt, ValueList(Stored(f)))),
                     (OffsetTable(Stored(f)) + [x])[..|f.labels| + 1])
      == f.labels
  {
    StoredShape(f);
    KeysDecoded(f, keysAt);
    ValuesDecoded(f, valuesAt);
    BoundsSplit(Stored(f), x);
    ChainStarts(0, f.labels);
    AssembledIs(f.labels);
  }

  lemma KeysDecoded(f: BtxtFile, keysAt: nat)
    requires forall i :: 0 <= i < |f.labels| ==> IsAscii(f.labels[i].key) && NulFreeEnds(f.labels[i].key)
    ensures DecodeKeys(KeyBlocks(keysAt, Keys(Stored(f)))) == Keys(f.labels)
  {
    StoredShape(f);
    DecodeKeysOf(keysAt, Keys(f.labels));
  }

  lemma ValuesDecoded(f: BtxtFile, valuesAt: nat)
    requires forall k :: 0 <= k < |AllStrings(f.labels)| ==>
      NoLineBreaks(AllStrings(f.labels)[k].value) && NulFreeEnds(AllStrings(f.labels)[k].value)
    ensures DecodeValues(ValueBlocks(valuesAt, ValueList(Stored(f)))) == ValueTexts(AllStrings(f.labels))
  {
    ValuesKeepNulFreeEnds(f.labels);
    DecodeValuesOf(valuesAt, ValueList(UnescapeLabels(f.labels)));
    ValuesRestored(f.labels);
  }

  // ---- The round trip ----

  /** The bytes written and where the decoder finds each part in them. */
  function Encoded(f: BtxtFile): seq<Byte> {
    WriteBtxtFileToStream(f).bytes
  }

  function TableStart(f: BtxtFile): nat {
    12 + 4 * (|f.labels| + |AllStrings(f.labels)|)
  }

  function KeysAt(f: BtxtFile): nat {
    |PreamblePart(f)|
  }

  function ValuesAt(f: BtxtFile): nat {
    |PreamblePart(f)| + |KeyPart(f)|
  }

  function Bounds(f: BtxtFile): seq<U32> {
    OffsetTable(Stored(f)) + [ToU32(|Encoded(f)|)]
  }

  function KeyBlocksOf(f: BtxtFile): seq<seq<Byte>> {
    KeyBlocks(KeysAt(f), Keys(Stored(f)))
  }

  function ValueBlocksOf(f: BtxtFile): seq<seq<Byte>> {
    ValueBlocks(ValuesAt(f), ValueList(Stored(f)))
  }

  /** The preamble the decoder reads back. */
  function PreambleOf(f: BtxtFile): Preamble
    requires |f.labels| < TwoTo16 && |AllStrings(f.labels)| < TwoTo16
  {
    Preamble(|f.labels|, |AllStrings(f.labels)|, IdLists(f.labels))
  }

  /** Where the three parts of the stream lie. */
  lemma EncodedLayout(f: BtxtFile)
    ensures HoldsAt(Encoded(f), 0, PreambleBytes(f.numberOfLabels, f.numberOfStrings, Stored(f)))
    ensures HoldsAt(Encoded(f), KeysAt(f), KeyRegion(KeysAt(f), Keys(Stored(f))))
    ensures HoldsAt(Encoded(f), ValuesAt(f), ValueRegion(ValuesAt(f), ValueList(Stored(f))))
    ensures ValuesAt(f) == KeysAt(f) + |KeyRegion(KeysAt(f), Keys(Stored(f)))|
    ensures ValuesAt(f) + |ValueRegion(ValuesAt(f), ValueList(Stored(f)))| == |Encoded(f)|
  {
    var pre := PreambleBytes(f.numberOfLabels, f.numberOfStrings, Stored(f));
    var keys := KeyRegion(KeysAt(f), Keys(Stored(f)));
    var values := ValueRegion(ValuesAt(f), ValueList(Stored(f)));
    StreamParts(f);
    HoldsAtThree(Encoded(f), pre, keys, values, KeysAt(f), ValuesAt(f));
  }

  /** What unescaping and the readiness conditions give about the labels
      written. */
  lemma StoredReady(f: BtxtFile)
    requires RoundTripReady(f)
    ensures f.numberOfLabels == |Stored(f)| < TwoTo16
    ensures f.numberOfStrings == |AllStrings(Stored(f))| < TwoTo16 && |AllStrings(Stored(f))| > 0
    ensures IdLists(Stored(f)) == IdLists(f.labels) && |f.labels| == |Stored(f)|
    ensures KeysChainFrom(0, Stored(f))
  {
    StoredShape(f);
    ChainSameShape(0, f.labels, Stored(f));
  }

  lemma EncodedPreambleLayout(f: BtxtFile)
    requires RoundTripReady(f)
    ensures HoldsAt(Encoded(f), 0, PreambleBytes(f.numberOfLabels, f.numberOfStrings, Stored(f)))
    ensures PreambleOf(f) == Preamble(f.numberOfLabels, f.numberOfStrings, IdLists(Stored(f)))
    ensures TableStart(f) == 12 + 4 * (f.numberOfLabels + f.numberOfStrings)
  {
    EncodedLayout(f);
    StoredReady(f);
  }

  lemma PreambleRead(f: BtxtFile)
    requires RoundTripReady(f)
    ensures ReadPreamble(Encoded(f)) == Success(Read(PreambleOf(f), TableStart(f)))
  {
    StoredReady(f);
    EncodedPreambleLayout(f);
    PreambleBack(f.numberOfLabels, f.numberOfStrings, Stored(f), Encoded(f), PreambleOf(f), TableStart(f));
  }

  lemma EncodedTableLayout(f: BtxtFile)
    requires RoundTripReady(f)
    ensures HoldsAt(Encoded(f), 0, PreambleBytes(f.numberOfLabels, f.numberOfStrings, Stored(f)))
    ensures |f.labels| == |Stored(f)| && |AllStrings(f.labels)| == |AllStrings(Stored(f))| > 0
    ensures TotalIds(IdLists(f.labels)) == TotalIds(IdLists(Stored(f)))
    ensures TableStart(f) == 12 + 4 * (|f.labels| + |AllStrings(f.labels)|)
    ensures KeysAt(f) == 12 + 8 * (|f.labels| + |AllStrings(f.labels)|)
    ensures Bounds(f) == OffsetTable(Stored(f)) + [ToU32(|Encoded(f)|)]
  {
    EncodedLayout(f);
    StoredReady(f);
  }

  lemma TableRead(f: BtxtFile)
    requires RoundTripReady(f)
    ensures ReadOffsetTable(Encoded(f), TableStart(f), |f.labels|, TotalIds(IdLists(f.labels)), |AllStrings(f.labels)|)
      == Success(Read(Bounds(f), KeysAt(f)))
  {
    EncodedTableLayout(f);
    TableBack(f.numberOfLabels, f.numberOfStrings, Stored(f), Encoded(f),
              TableStart(f), |f.labels|, TotalIds(IdLists(f.labels)), |AllStrings(f.labels)|,
              OffsetTable(Stored(f)), KeysAt(f));
  }

  /** Blocks that lie at `pos` and whose lengths fit read back, ending at `next`. */
  lemma ReadBlocksTo(s: seq<Byte>, pos: nat, blocks: seq<seq<Byte>>, lengths: seq<int>, next: nat)
    requires HoldsAt(s, pos, Concat(blocks)) && LengthsFit(s, pos, blocks, lengths)
    requires next == pos + |Concat(blocks)|
    ensures ReadBlocks(s, pos, lengths) == Success(Read(blocks, next))
  {
    ReadBlocksOf(s, pos, blocks, lengths);
  }

  lemma EncodedKeysLayout(f: BtxtFile)
    requires RoundTripReady(f)
    ensures |AllStrings(Stored(f))| > 0 && KeysChainFrom(0, Stored(f)) && KeysAt(f) % 2 == 0
    ensures |KeyRegion(KeysAt(f), Keys(Stored(f)))| < TwoTo31
    ensures HoldsAt(Encoded(f), KeysAt(f), KeyRegion(KeysAt(f), Keys(Stored(f))))
    ensures KeyBlocksOf(f) == KeyBlocks(KeysAt(f), Keys(Stored(f)))
    ensures Bounds(f) == OffsetTable(Stored(f)) + [ToU32(|Encoded(f)|)] && |f.labels| == |Stored(f)|
    ensures ValuesAt(f) == KeysAt(f) + |KeyRegion(KeysAt(f), Keys(Stored(f)))|
  {
    EncodedLayout(f);
    StoredReady(f);
  }

  lemma KeysRead(f: BtxtFile)
    requires RoundTripReady(f)
    ensures ReadBlocks(Encoded(f), KeysAt(f), BlockLengths(Bounds(f))[..|f.labels|])
      == Success(Read(KeyBlocksOf(f), ValuesAt(f)))
  {
    EncodedKeysLayout(f);
    var lengths := BlockLengths(Bounds(f))[..|f.labels|];
    KeysFit(KeysAt(f), Stored(f), Encoded(f), lengths, KeyBlocksOf(f));
    ReadBlocksTo(Encoded(f), KeysAt(f), KeyBlocksOf(f), lengths, ValuesAt(f));
  }

  lemma EncodedValuesLayout(f: BtxtFile)
    requires RoundTripReady(f)
    ensures |AllStrings(Stored(f))| > 0 && KeysChainFrom(0, Stored(f)) && KeysAt(f) % 2 == 0
    ensures ValuesAt(f) == KeysAt(f) + |KeyRegion(KeysAt(f), Keys(Stored(f)))|
    ensures ValuesAt(f) + |ValueRegion(ValuesAt(f), ValueList(Stored(f)))| == |Encoded(f)| < TwoTo31
    ensures HoldsAt(Encoded(f), ValuesAt(f), ValueRegion(ValuesAt(f), ValueList(Stored(f))))
    ensures ValueBlocksOf(f) == ValueBlocks(ValuesAt(f), ValueList(Stored(f)))
    ensures Bounds(f) == OffsetTable(Stored(f)) + [ToU32(|Encoded(f)|)] && |f.labels| == |Stored(f)|
  {
    EncodedLayout(f);
    StoredReady(f);
  }

  lemma ValuesRead(f: BtxtFile)
    requires RoundTripReady(f)
    ensures ReadBlocks(Encoded(f), ValuesAt(f), BlockLengths(Bounds(f))[|f.labels|..])
      == Success(Read(ValueBlocksOf(f), |Encoded(f)|))
  {
    EncodedValuesLayout(f);
    var lengths := BlockLengths(Bounds(f))[|f.labels|..];
    ValuesFit(KeysAt(f), ValuesAt(f), Stored(f), Encoded(f), lengths, ValueBlocksOf(f));
    ReadBlocksTo(Encoded(f), ValuesAt(f), ValueBlocksOf(f), lengths, |Encoded(f)|);
  }

  lemma LabelsRead(f: BtxtFile)
    requires RoundTripReady(f)
    ensures TotalIds(IdLists(f.labels)) == |DecodeValues(ValueBlocksOf(f))|
    ensures |DecodeKeys(KeyBlocksOf(f))| == |f.labels|
    ensures Assemble(IdLists(f.labels), DecodeKeys(KeyBlocksOf(f)), DecodeValues(ValueBlocksOf(f)),
                     Bounds(f)[..|f.labels| + 1]) == f.labels
  {
    LabelsBack(f, KeysAt(f), ValuesAt(f), ToU32(|Encoded(f)|));
  }

  /** The decoder's stages composed: a preamble, a table, two block runs and
      the labels assembled from them make the file read. */
  lemma ReadFileOf(s: seq<Byte>, p: Preamble, tableAt: nat, bounds: seq<U32>,
                   keysAt: nat, keyBlocks: seq<seq<Byte>>, valuesAt: nat, valueBlocks: seq<seq<Byte>>,
                   labels: seq<BtxtLabel>, file: BtxtFile)
    requires ReadPreamble(s) == Success(Read(p, tableAt))
    requires ReadOffsetTable(s, tableAt, p.labelCount, TotalIds(p.ids), p.stringCount) == Success(Read(bounds, keysAt))
    requires ReadBlocks(s, keysAt, BlockLengths(bounds)[..p.labelCount]) == Success(Read(keyBlocks, valuesAt))
    requires ReadBlocks(s, valuesAt, BlockLengths(bounds)[p.labelCount..]) == Success(Read(valueBlocks, |s|))
    requires TotalIds(p.ids) == |DecodeValues(valueBlocks)| && |DecodeKeys(keyBlocks)| == |p.ids|
    requires Assemble(p.ids, DecodeKeys(keyBlocks), DecodeValues(valueBlocks), bounds[..p.labelCount + 1]) == labels
    requires file == BtxtFile(p.labelCount, p.stringCount, labels)
    ensures ReadBtxtFileFromStream(s) == Success(file)
  {
    ReadLabelsUnfold(s, tableAt, p, bounds, keysAt, keyBlocks, valuesAt, valueBlocks, |s|);
    ReadFileUnfold(s, p, tableAt, labels);
  }

  lemma PreambleOfIs(f: BtxtFile)
    requires RoundTripReady(f)
    ensures PreambleOf(f).labelCount == |f.labels| && PreambleOf(f).ids == IdLists(f.labels)
    ensures f == BtxtFile(PreambleOf(f).labelCount, PreambleOf(f).stringCount, f.labels)
  {
  }

  /** Reading back the bytes written gives the file written. */
  lemma ReadWhatIsWritten(f: BtxtFile)
    requires RoundTripReady(f)
    ensures ReadBtxtFileFromStream(WriteBtxtFileToStream(f).bytes) == Success(f)
  {
    PreambleRead(f);
    TableRead(f);
    KeysRead(f);
    ValuesRead(f);
    LabelsRead(f);
    PreambleOfIs(f);
    ReadFileOf(Encoded(f), PreambleOf(f), TableStart(f), Bounds(f), KeysAt(f), KeyBlocksOf(f),
               ValuesAt(f), ValueBlocksOf(f), f.labels, f);
  }
}
