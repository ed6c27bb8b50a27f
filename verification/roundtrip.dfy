/**
 The decoder read back over what the encoder writes. The fixed-width reads
 recover the words written; the preamble comes back for any file whose
 declared label count matches its labels; the whole file comes back when its
 stored offsets are the ones the encoder lays out and it has at least one
 string. With no string at all the offset table the encoder writes is one
 word shorter than the one the decoder reads, and the round trip need not
 hold: the decoder takes the first key block's first four bytes as an offset.
 */
module RoundTrip {
  import opened Bytes
  import opened Text
  import opened Escape
  import opened Models
  import opened Layout
  import opened Reader
  import opened Writer

  /** `s` holds `piece` at position `pos`. */
  predicate HoldsAt(s: seq<Byte>, pos: nat, piece: seq<Byte>) {
    pos + |piece| <= |s| && s[pos..pos + |piece|] == piece
  }

  lemma HoldsAtConcat(s: seq<Byte>, pos: nat, a: seq<Byte>, b: seq<Byte>)
    requires HoldsAt(s, pos, a + b)
    ensures HoldsAt(s, pos, a) && HoldsAt(s, pos + |a|, b)
  {
    assert s[pos..pos + |a|] == (a + b)[..|a|];
    assert s[pos + |a|..pos + |a| + |b|] == (a + b)[|a|..];
  }

  lemma HoldsAtWhole(a: seq<Byte>, b: seq<Byte>)
    ensures HoldsAt(a + b, 0, a) && HoldsAt(a + b, |a|, b)
  {
    assert (a + b)[..|a|] == a;
    assert (a + b)[|a|..|a| + |b|] == b;
  }

  // ---- Fixed-width reads over what the encoder writes ----

  lemma ReadUInt16Of(s: seq<Byte>, pos: nat, n: U16)
    requires HoldsAt(s, pos, LE16(n))
    ensures ReadUInt16(s, pos) == Success(Read(n, pos + 2))
  {
  }

  lemma ReadUInt32Of(s: seq<Byte>, pos: nat, n: U32)
    requires HoldsAt(s, pos, LE32(n))
    ensures ReadUInt32(s, pos) == Success(Read(n, pos + 4))
  {
  }

  /** Each of the words `ws` reads back from `s`, one after another from `pos`. */
  predicate WordsAt(s: seq<Byte>, pos: nat, ws: seq<U32>) {
    && pos + 4 * |ws| <= |s|
    && forall j :: 0 <= j < |ws| ==> ReadUInt32(s, pos + 4 * j) == Success(Read(ws[j], pos + 4 * j + 4))
  }

  /** Words written as bytes read back one by one. */
  lemma {:induction false} WordsAtOfBytes(s: seq<Byte>, pos: nat, ws: seq<U32>)
    requires HoldsAt(s, pos, WordsBytes(ws))
    ensures WordsAt(s, pos, ws)
    decreases |ws|
  {
    if |ws| > 0 {
      HoldsAtConcat(s, pos, LE32(ws[0]), WordsBytes(ws[1..]));
      ReadUInt32Of(s, pos, ws[0]);
      WordsAtOfBytes(s, pos + 4, ws[1..]);
      forall j | 1 <= j < |ws|
        ensures ReadUInt32(s, pos + 4 * j) == Success(Read(ws[j], pos + 4 * j + 4))
      {
        assert ws[j] == ws[1..][j - 1];
      }
    }
  }

  lemma WordsAtDrop(s: seq<Byte>, pos: nat, ws: seq<U32>, k: nat)
    requires WordsAt(s, pos, ws) && k <= |ws|
    ensures WordsAt(s, pos + 4 * k, ws[k..])
  {
    forall j | 0 <= j < |ws| - k
      ensures ReadUInt32(s, pos + 4 * k + 4 * j) == Success(Read(ws[k..][j], pos + 4 * k + 4 * j + 4))
    {
      assert ws[k..][j] == ws[k + j];
    }
  }

  lemma WordsAtTake(s: seq<Byte>, pos: nat, ws: seq<U32>, k: nat)
    requires WordsAt(s, pos, ws) && k <= |ws|
    ensures WordsAt(s, pos, ws[..k])
  {
    forall j | 0 <= j < k
      ensures ReadUInt32(s, pos + 4 * j) == Success(Read(ws[..k][j], pos + 4 * j + 4))
    {
      assert ws[..k][j] == ws[j];
    }
  }

  /** Reading words back yields the words written. */
  lemma {:induction false} ReadUInt32sOf(s: seq<Byte>, pos: nat, ws: seq<U32>)
    requires WordsAt(s, pos, ws)
    ensures ReadUInt32s(s, pos, |ws|) == Success(Read(ws, pos + 4 * |ws|))
    decreases |ws|
  {
    if |ws| > 0 {
      WordsAtDrop(s, pos, ws, 1);
      ReadUInt32sOf(s, pos + 4, ws[1..]);
      assert [ws[0]] + ws[1..] == ws;
    }
  }

  /** Reading the label metadata back yields the identifier lists written,
      provided every list is short enough for its count to fit in 32 bits. */
  lemma {:induction false} ReadLabelMetadataOf(s: seq<Byte>, pos: nat, ids: seq<seq<U32>>)
    requires forall i :: 0 <= i < |ids| ==> |ids[i]| < TwoTo32
    requires WordsAt(s, pos, MetadataWords(ids))
    ensures var r := ReadLabelMetadata(s, pos, |ids|); r.Success? && r.value.value == ids
    decreases |ids|
  {
    if |ids| > 0 {
      var next := pos + 4 + 4 * |ids[0]|;
      var rest := ids[1..];
      MetadataHead(s, pos, ids);
      assert forall i :: 0 <= i < |rest| ==> rest[i] == ids[i + 1];
      ReadLabelMetadataOf(s, next, rest);
      ReadLabelMetadataUnfold(s, pos, ids[0], next, |rest|, ReadLabelMetadata(s, next, |rest|).value);
      assert [ids[0]] + rest == ids;
    }
  }

  /** The first label's count and identifiers read back, and the other
      labels' words follow them. */
  lemma MetadataHead(s: seq<Byte>, pos: nat, ids: seq<seq<U32>>)
    requires |ids| > 0 && |ids[0]| < TwoTo32
    requires WordsAt(s, pos, MetadataWords(ids))
    ensures pos + 4 + 4 * |ids[0]| <= |s|
    ensures ReadLabelIds(s, pos) == Success(Read(ids[0], pos + 4 + 4 * |ids[0]|))
    ensures WordsAt(s, pos + 4 + 4 * |ids[0]|, MetadataWords(ids[1..]))
  {
    var w := MetadataWords(ids);
    assert w == [ToU32(|ids[0]|)] + ids[0] + MetadataWords(ids[1..]);
    MetadataFirst(s, pos, ids, w);
    MetadataRest(s, pos, ids, w);
  }

  lemma MetadataFirst(s: seq<Byte>, pos: nat, ids: seq<seq<U32>>, w: seq<U32>)
    requires |ids| > 0 && |ids[0]| < TwoTo32
    requires w == [ToU32(|ids[0]|)] + ids[0] + MetadataWords(ids[1..])
    requires WordsAt(s, pos, w)
    ensures ReadLabelIds(s, pos) == Success(Read(ids[0], pos + 4 + 4 * |ids[0]|))
  {
    var n := |ids[0]|;
    WordsAtHead(s, pos, w);
    WordsAtDrop(s, pos, w, 1);
    assert w[1..][..n] == ids[0];
    WordsAtTake(s, pos + 4, w[1..], n);
    ReadUInt32sOf(s, pos + 4, ids[0]);
    ReadLabelIdsOf(s, pos, ids[0]);
  }

  lemma MetadataRest(s: seq<Byte>, pos: nat, ids: seq<seq<U32>>, w: seq<U32>)
    requires |ids| > 0
    requires w == [ToU32(|ids[0]|)] + ids[0] + MetadataWords(ids[1..])
    requires WordsAt(s, pos, w)
    ensures WordsAt(s, pos + 4 + 4 * |ids[0]|, MetadataWords(ids[1..]))
  {
    assert w[1 + |ids[0]|..] == MetadataWords(ids[1..]);
    WordsAtDrop(s, pos, w, 1 + |ids[0]|);
  }

  lemma WordsAtHead(s: seq<Byte>, pos: nat, ws: seq<U32>)
    requires WordsAt(s, pos, ws) && |ws| > 0
    ensures ReadUInt32(s, pos) == Success(Read(ws[0], pos + 4))
  {
    assert ReadUInt32(s, pos + 4 * 0) == Success(Read(ws[0], pos + 4 * 0 + 4));
  }

  /** A count followed by that many identifiers reads back as one label's identifiers. */
  lemma ReadLabelIdsOf(s: seq<Byte>, pos: nat, first: seq<U32>)
    requires |first| < TwoTo32 && pos + 4 <= |s|
    requires ReadUInt32(s, pos) == Success(Read(|first|, pos + 4))
    requires ReadUInt32s(s, pos + 4, |first|) == Success(Read(first, pos + 4 + 4 * |first|))
    ensures ReadLabelIds(s, pos) == Success(Read(first, pos + 4 + 4 * |first|))
  {
  }

  /** One unfolding of `ReadLabelMetadata`. */
  lemma ReadLabelMetadataUnfold(s: seq<Byte>, pos: nat, first: seq<U32>, next: nat, m: nat,
                                rest: Read<seq<seq<U32>>>)
    requires pos <= next <= |s|
    requires ReadLabelIds(s, pos) == Success(Read(first, next))
    requires ReadLabelMetadata(s, next, m) == Success(rest)
    ensures ReadLabelMetadata(s, pos, m + 1) == Success(Read([first] + rest.value, rest.next))
  {
  }

  // ---- The preamble ----

  /** Where each part of the preamble lies in a stream that starts with it. */
  lemma PreambleAt(numberOfLabels: U32, numberOfStrings: U32, labels: seq<BtxtLabel>, s: seq<Byte>)
    requires HoldsAt(s, 0, PreambleBytes(numberOfLabels, numberOfStrings, labels))
    ensures HoldsAt(s, 0, BtxtHeader)
    ensures HoldsAt(s, 8, LE16(numberOfLabels % TwoTo16))
    ensures HoldsAt(s, 10, LE16(numberOfStrings % TwoTo16))
    ensures HoldsAt(s, 12, MetadataBytes(IdLists(labels)))
  {
    var a := LE16(numberOfLabels % TwoTo16);
    var b := LE16(numberOfStrings % TwoTo16);
    var m := MetadataBytes(IdLists(labels));
    var w := WordsBytes(OffsetTable(labels));
    assert PreambleBytes(numberOfLabels, numberOfStrings, labels) == BtxtHeader + a + b + m + w;
    HoldsAtConcat(s, 0, BtxtHeader + a + b + m, w);
    HoldsAtConcat(s, 0, BtxtHeader + a + b, m);
    HoldsAtConcat(s, 0, BtxtHeader + a, b);
    HoldsAtConcat(s, 0, BtxtHeader, a);
  }

  /** The preamble reads back: the header check passes, the two counts come
      back truncated to 16 bits as the encoder writes them, and the
      identifier lists come back whenever the truncated label count is the
      number of labels. */
  lemma ReadPreambleOf(numberOfLabels: U32, numberOfStrings: U32, labels: seq<BtxtLabel>, s: seq<Byte>)
    requires numberOfLabels % TwoTo16 == |labels|
    requires forall i :: 0 <= i < |labels| ==> |labels[i].values| < TwoTo32
    requires HoldsAt(s, 0, PreambleBytes(numberOfLabels, numberOfStrings, labels))
    ensures ReadPreamble(s) == Success(Read(Preamble(|labels|, numberOfStrings % TwoTo16, IdLists(labels)),
                                             12 + 4 * (|labels| + |AllStrings(labels)|)))
  {
    PreambleAt(numberOfLabels, numberOfStrings, labels, s);
    ReadPreambleOfParts(numberOfLabels % TwoTo16, numberOfStrings % TwoTo16, labels, s);
  }

  lemma ReadPreambleOfParts(labelCount: U16, stringCount: U16, labels: seq<BtxtLabel>, s: seq<Byte>)
    requires labelCount == |labels|
    requires forall i :: 0 <= i < |labels| ==> |labels[i].values| < TwoTo32
    requires HoldsAt(s, 0, BtxtHeader) && HoldsAt(s, 8, LE16(labelCount)) && HoldsAt(s, 10, LE16(stringCount))
    requires HoldsAt(s, 12, MetadataBytes(IdLists(labels)))
    ensures ReadPreamble(s) == Success(Read(Preamble(|labels|, stringCount, IdLists(labels)),
                                             12 + 4 * (|labels| + |AllStrings(labels)|)))
  {
    ReadUInt16Of(s, 8, labelCount);
    ReadUInt16Of(s, 10, stringCount);
    TotalIdsOfLabels(labels);
    IdListsBelow(labels);
    MetadataReads(s, IdLists(labels), labelCount, 12 + 4 * (|labels| + |AllStrings(labels)|));
    ReadPreambleUnfold(s, |labels|, stringCount, IdLists(labels),
                       12 + 4 * (|labels| + |AllStrings(labels)|));
  }

  /** The label metadata of a stream that holds it at offset 12 reads back. */
  lemma MetadataReads(s: seq<Byte>, ids: seq<seq<U32>>, n: nat, next: nat)
    requires forall i :: 0 <= i < |ids| ==> |ids[i]| < TwoTo32
    requires HoldsAt(s, 12, MetadataBytes(ids))
    requires n == |ids| && next == 12 + 4 * (n + TotalIds(ids))
    ensures ReadLabelMetadata(s, 12, n) == Success(Read(ids, next))
  {
    var r := ReadLabelMetadata(s, 12, |ids|);
    WordsAtOfBytes(s, 12, MetadataWords(ids));
    ReadLabelMetadataOf(s, 12, ids);
    ReadLabelMetadataNext(s, 12, |ids|);
    SuccessOf(r, ids, next);
  }

  lemma IdListsBelow(labels: seq<BtxtLabel>)
    requires forall i :: 0 <= i < |labels| ==> |labels[i].values| < TwoTo32
    ensures forall i :: 0 <= i < |IdLists(labels)| ==> |IdLists(labels)[i]| < TwoTo32
  {
  }

  lemma SuccessOf<T>(r: Result<Read<T>>, value: T, next: nat)
    requires r.Success? && r.value.value == value && r.value.next == next
    ensures r == Success(Read(value, next))
  {
  }

  /** One unfolding of `ReadPreamble`. */
  lemma ReadPreambleUnfold(s: seq<Byte>, labelCount: U16, stringCount: U16, ids: seq<seq<U32>>, next: nat)
    requires HoldsAt(s, 0, BtxtHeader)
    requires ReadUInt16(s, 8) == Success(Read(labelCount, 10))
    requires ReadUInt16(s, 10) == Success(Read(stringCount, 12))
    requires ReadLabelMetadata(s, 12, labelCount) == Success(Read(ids, next))
    ensures ReadPreamble(s) == Success(Read(Preamble(labelCount, stringCount, ids), next))
  {
    assert ReadBytes(s, 0, 8).value == BtxtHeader;
  }

  // ---- The offset table ----

  /** With the declared string count equal to the number of strings, the
      value ends come from the stream for every string but the last, whose end
      is the stream length. */
  lemma {:induction false} ReadValueEndsOf(s: seq<Byte>, pos: nat, done: nat, total: nat, ws: seq<U32>)
    requires done < total < TwoTo16 && |ws| == total - 1 - done
    requires WordsAt(s, pos, ws)
    ensures ReadValueEnds(s, pos, done, total, total) == Success(Read(ws + [ToU32(|s|)], pos + 4 * |ws|))
    decreases total - done
  {
    if done + 1 == total {
      assert ws + [ToU32(|s|)] == [ToU32(|s|)] + [];
    } else {
      WordsAtHead(s, pos, ws);
      WordsAtDrop(s, pos, ws, 1);
      ReadValueEndsOf(s, pos + 4, done + 1, total, ws[1..]);
      ReadValueEndsUnfold(s, pos, done, total, ws[0], ReadValueEnds(s, pos + 4, done + 1, total, total).value);
      assert [ws[0]] + (ws[1..] + [ToU32(|s|)]) == ws + [ToU32(|s|)];
    }
  }

  lemma ReadValueEndsUnfold(s: seq<Byte>, pos: nat, done: nat, total: U16, w: U32, rest: Read<seq<U32>>)
    requires done + 1 < total && pos + 4 <= |s|
    requires ReadUInt32(s, pos) == Success(Read(w, pos + 4))
    requires ReadValueEnds(s, pos + 4, done + 1, total, total) == Success(rest)
    ensures ReadValueEnds(s, pos, done, total, total) == Success(Read([w] + rest.value, rest.next))
  {
  }

  /** The words the encoder writes read back as the offset table, followed by
      the stream length, when there is at least one string and the declared
      string count matches. */
  lemma ReadOffsetTableOf(s: seq<Byte>, pos: nat, labelCount: U16, total: U16, ws: seq<U32>)
    requires 0 < total && |ws| == labelCount + total
    requires WordsAt(s, pos, ws)
    ensures ReadOffsetTable(s, pos, labelCount, total, total) == Success(Read(ws + [ToU32(|s|)], pos + 4 * |ws|))
  {
    var last := [ToU32(|s|)];
    OffsetTableLabels(s, pos, labelCount, ws);
    OffsetTableValues(s, pos, labelCount, total, ws);
    ReadOffsetTableUnfold(s, pos, labelCount, total, ws[0], ws[1..1 + labelCount], ws[1 + labelCount..] + last, pos + 4 * |ws|);
    SplitWords(ws, 1 + labelCount, last);
  }

  lemma SplitWords(ws: seq<U32>, k: nat, last: seq<U32>)
    requires 0 < k <= |ws|
    ensures [ws[0]] + ws[1..k] + (ws[k..] + last) == ws + last
  {
    assert ws == [ws[0]] + ws[1..k] + ws[k..];
  }

  lemma OffsetTableLabels(s: seq<Byte>, pos: nat, labelCount: nat, ws: seq<U32>)
    requires labelCount < |ws| && WordsAt(s, pos, ws)
    ensures ReadUInt32(s, pos) == Success(Read(ws[0], pos + 4))
    ensures ReadUInt32s(s, pos + 4, labelCount) == Success(Read(ws[1..1 + labelCount], pos + 4 + 4 * labelCount))
  {
    WordsAtHead(s, pos, ws);
    WordsAtDrop(s, pos, ws, 1);
    WordsAtTake(s, pos + 4, ws[1..], labelCount);
    assert ws[1..][..labelCount] == ws[1..1 + labelCount];
    ReadUInt32sOf(s, pos + 4, ws[1..1 + labelCount]);
  }

  lemma OffsetTableValues(s: seq<Byte>, pos: nat, labelCount: nat, total: U16, ws: seq<U32>)
    requires 0 < total && |ws| == labelCount + total && WordsAt(s, pos, ws)
    ensures ReadValueEnds(s, pos + 4 + 4 * labelCount, 0, total, total)
      == Success(Read(ws[1 + labelCount..] + [ToU32(|s|)], pos + 4 * |ws|))
  {
    WordsAtDrop(s, pos, ws, 1 + labelCount);
    ReadValueEndsOf(s, pos + 4 + 4 * labelCount, 0, total, ws[1 + labelCount..]);
  }

  lemma ReadOffsetTableUnfold(s: seq<Byte>, pos: nat, labelCount: U16, total: U16, start: U32,
                              labelEnds: seq<U32>, valueEnds: seq<U32>, next: nat)
    requires pos + 4 + 4 * labelCount <= |s|
    requires ReadUInt32(s, pos) == Success(Read(start, pos + 4))
    requires ReadUInt32s(s, pos + 4, labelCount) == Success(Read(labelEnds, pos + 4 + 4 * labelCount))
    requires ReadValueEnds(s, pos + 4 + 4 * labelCount, 0, total, total) == Success(Read(valueEnds, next))
    ensures ReadOffsetTable(s, pos, labelCount, total, total) == Success(Read([start] + labelEnds + valueEnds, next))
  {
  }

  /** The offset table the encoder writes and the one the decoder reads have
      the same size exactly when the declared string count is between 1 and
      the number of strings. */
  lemma OffsetTableSizesAgree(s: seq<Byte>, pos: nat, labels: seq<BtxtLabel>, stringCount: U16)
    requires pos <= |s| && |labels| < TwoTo16
    ensures var r := ReadOffsetTable(s, pos, |labels|, |AllStrings(labels)|, stringCount);
      r.Success? ==>
        (r.value.next - pos == |WordsBytes(OffsetTable(labels))| <==> 0 < stringCount <= |AllStrings(labels)|)
  {
  }

  /** With at least one string, the table the encoder writes reads back with
      0 and then every label's stored end offset as its first entries: the
      decoder's key block bounds are the offsets the labels carry. */
  lemma LabelOffsetsReadBack(s: seq<Byte>, pos: nat, labels: seq<BtxtLabel>)
    requires |labels| < TwoTo16 && 0 < |AllStrings(labels)| < TwoTo16
    requires HoldsAt(s, pos, WordsBytes(OffsetTable(labels)))
    ensures var r := ReadOffsetTable(s, pos, |labels|, |AllStrings(labels)|, |AllStrings(labels)|);
      && r.Success?
      && r.value.value[0] == 0
      && forall i {:trigger labels[i]} :: 0 <= i < |labels| ==> r.value.value[i + 1] == labels[i].endOffset
  {
    var ws := OffsetTable(labels);
    WordsAtOfBytes(s, pos, ws);
    ReadOffsetTableOf(s, pos, |labels|, |AllStrings(labels)|, ws);
    var r := ReadOffsetTable(s, pos, |labels|, |AllStrings(labels)|, |AllStrings(labels)|);
    assert r.value.value == ws + [ToU32(|s|)];
    var run := StringOffsetRun(LastLabelEnd(labels), ValueList(labels));
    assert ws == LabelOffsetWords(labels) + run[..|ValueList(labels)|];
    assert ws[|labels|] == run[0] == LastLabelEnd(labels);
    forall i | 0 <= i < |labels|
      ensures r.value.value[i + 1] == labels[i].endOffset
    {
      if i + 1 < |labels| {
        assert ws[i + 1] == LabelOffsetWords(labels)[i + 1];
      }
    }
  }

  // ---- A file without strings ----

  /** A one-label file with no strings: the encoder writes one label offset
      word, the decoder reads two, so the key's bytes are taken for the
      label's end offset and the key is lost. */
  lemma NoStringsLosesKey()
    ensures var f := BtxtFile(1, 0, [BtxtLabel([65], [], 0, 4)]);
      ReadBtxtFileFromStream(WriteBtxtFileToStream(f).bytes) == Success(BtxtFile(1, 0, [BtxtLabel([], [], 0, 65)]))
  {
    NoStringsBytes();
    NoStringsDecode();
  }

  lemma NoStringsBytes()
    ensures WriteBtxtFileToStream(BtxtFile(1, 0, [BtxtLabel([65], [], 0, 4)])).bytes
      == NoStringsPreamble() + [65, 0, 0, 0]
  {
    var labels := [BtxtLabel([65], [], 0, 4)];
    assert UnescapeLabels(labels) == labels;
    NoStringsPreambleBytes();
    NoStringsKeys();
    assert ValueRegion(24, ValueList(labels)) == [];
  }

  lemma NoStringsKeys()
    ensures KeyRegion(20, Keys([BtxtLabel([65], [], 0, 4)])) == [65, 0, 0, 0]
  {
    var keys := Keys([BtxtLabel([65], [], 0, 4)]);
    assert keys == [[65]];
    assert CalculatePadding(20, 1, 3) == 3;
    assert KeyBlock(20, [65]) == [65, 0, 0, 0];
    assert KeyRegion(24, []) == [];
  }

  /** The preamble of the one-label file with no strings. */
  function NoStringsPreamble(): (r: seq<Byte>)
    ensures |r| == 20
  {
    BtxtHeader + [1, 0, 0, 0] + [0, 0, 0, 0] + [0, 0, 0, 0]
  }

  lemma NoStringsPreambleBytes()
    ensures PreambleBytes(1, 0, [BtxtLabel([65], [], 0, 4)]) == NoStringsPreamble()
  {
    var labels := [BtxtLabel([65], [], 0, 4)];
    assert AllStrings(labels) == [];
    assert MetadataWords(IdLists(labels)) == [0];
    assert MetadataBytes(IdLists(labels)) == [0, 0, 0, 0];
    assert OffsetTable(labels) == [0];
    assert WordsBytes(OffsetTable(labels)) == [0, 0, 0, 0];
  }

  lemma NoStringsDecode()
    ensures ReadBtxtFileFromStream(NoStringsPreamble() + [65, 0, 0, 0])
      == Success(BtxtFile(1, 0, [BtxtLabel([], [], 0, 65)]))
  {
    var s := NoStringsPreamble() + [65, 0, 0, 0];
    var p := Preamble(1, 0, [[]]);
    NoStringsReadPreamble(s);
    NoStringsTable(s);
    NoStringsBlocks(s);
    ReadLabelsUnfold(s, 16, p, [0, 65], 24, [[]], 24, [], 24);
    NoStringsAssemble();
    ReadFileUnfold(s, p, 16, [BtxtLabel([], [], 0, 65)]);
  }

  lemma NoStringsReadPreamble(s: seq<Byte>)
    requires s == NoStringsPreamble() + [65, 0, 0, 0]
    ensures ReadPreamble(s) == Success(Read(Preamble(1, 0, [[]]), 16))
  {
    var labels := [BtxtLabel([65], [], 0, 4)];
    NoStringsPreambleBytes();
    HoldsAtWhole(NoStringsPreamble(), [65, 0, 0, 0]);
    ReadPreambleOf(1, 0, labels, s);
    assert IdLists(labels) == [[]];
  }

  lemma NoStringsBlocks(s: seq<Byte>)
    requires s == NoStringsPreamble() + [65, 0, 0, 0]
    ensures ReadBlocks(s, 24, BlockLengths([0, 65])[..1]) == Success(Read([[]], 24))
    ensures ReadBlocks(s, 24, BlockLengths([0, 65])[1..]) == Success(Read([], 24))
  {
    BlockLengthExact(0, 65);
    var lengths := BlockLengths([0, 65]);
    assert lengths[..1] == [65] && lengths[1..] == [];
    assert ReadBytes(s, 24, 65) == Read([], 24);
    assert [65][1..] == [];
    assert ReadBlocks(s, 24, []) == Success(Read([], 24));
    var empty: seq<Byte> := [];
    assert [empty] + [] == [empty];
  }

  lemma NoStringsAssemble()
    ensures Assemble([[]], DecodeKeys([[]]), DecodeValues([]), [0, 65][..2]) == [BtxtLabel([], [], 0, 65)]
  {
    assert DecodeKeys([[]]) == [[]];
    assert [0, 65][..2] == [0, 65];
    assert Assemble([[]], [[]], [], [0, 65]) == [BtxtLabel([], [], 0, 65)];
  }

  lemma NoStringsTable(s: seq<Byte>)
    requires s == NoStringsPreamble() + [65, 0, 0, 0]
    ensures ReadOffsetTable(s, 16, 1, 0, 0) == Success(Read([0, 65], 24))
  {
    assert s[16..24] == WordsBytes([0, 65]);
    WordsAtOfBytes(s, 16, [0, 65]);
    OffsetTableLabels(s, 16, 1, [0, 65]);
    assert [0, 65][1..2] == [65];
    ReadOffsetTableUnfold(s, 16, 1, 0, 0, [65], [], 24);
    assert [0] + [65] + [] == [0, 65];
  }

  // ---- Unfolding the decoder ----

  lemma ReadLabelsUnfold(s: seq<Byte>, pos: nat, p: Preamble, bounds: seq<U32>, next: nat,
                         keyBlocks: seq<seq<Byte>>, keysNext: nat, valueBlocks: seq<seq<Byte>>, valuesNext: nat)
    requires pos <= |s| && |p.ids| == p.labelCount
    requires ReadOffsetTable(s, pos, p.labelCount, TotalIds(p.ids), p.stringCount) == Success(Read(bounds, next))
    requires ReadBlocks(s, next, BlockLengths(bounds)[..p.labelCount]) == Success(Read(keyBlocks, keysNext))
    requires ReadBlocks(s, keysNext, BlockLengths(bounds)[p.labelCount..]) == Success(Read(valueBlocks, valuesNext))
    ensures ReadLabels(s, pos, p)
      == Success(Assemble(p.ids, DecodeKeys(keyBlocks), DecodeValues(valueBlocks), bounds[..p.labelCount + 1]))
  {
  }

  lemma ReadFileUnfold(s: seq<Byte>, p: Preamble, next: nat, labels: seq<BtxtLabel>)
    requires ReadPreamble(s) == Success(Read(p, next))
    requires ReadLabels(s, next, p) == Success(labels)
    ensures ReadBtxtFileFromStream(s) == Success(BtxtFile(p.labelCount, p.stringCount, labels))
  {
  }
}
