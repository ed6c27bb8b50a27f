/**
 What the decoder reads, stated against the byte stream itself rather than
 against the reader's own steps: where each offset-table entry is stored, and
 which bytes every key and value is decoded from.

 The offset table holds the start of the first key block and then the end of
 every key block and every value block. The decoder uses the entries only for
 the lengths between neighbours; it reads the blocks one after another from the
 end of the table, and a block cut short by the end of the stream is kept as it
 is.
 */
module Decoding {
  import opened Bytes
  import opened Text
  import opened Models
  import opened Layout
  import opened Reader

  /** The little-endian word stored at `pos`, or 0 where fewer than four bytes remain. */
  function WordAt(s: seq<Byte>, pos: nat): U32 {
    if pos + 4 <= |s| then FromLE32(s[pos..pos + 4]) else 0
  }

  /** Entry `j` of the offset table stored from `pos`. The end of string number
      `stringCount` (counting from 1) is not stored: it is the stream length,
      and the entries after it are stored one word earlier. */
  function TableEntry(s: seq<Byte>, pos: nat, labelCount: nat, stringCount: nat, j: nat): U32 {
    if stringCount > 0 && j == labelCount + stringCount then ToU32(|s|)
    else if stringCount > 0 && j > labelCount + stringCount then WordAt(s, pos + 4 * (j - 1))
    else WordAt(s, pos + 4 * j)
  }

  /** All `1 + labelCount + total` entries of the offset table stored from `pos`. */
  function Table(s: seq<Byte>, pos: nat, labelCount: nat, total: nat, stringCount: nat): (r: seq<U32>)
    ensures |r| == 1 + labelCount + total
  {
    seq(1 + labelCount + total, j requires 0 <= j < 1 + labelCount + total => TableEntry(s, pos, labelCount, stringCount, j))
  }

  /** Where the blocks begin: just after the offset table. */
  function DataStart(tableAt: nat, labelCount: nat, total: nat, stringCount: nat): nat {
    tableAt + 4 * (1 + labelCount + total) - (if 0 < stringCount <= total then 4 else 0)
  }

  predicate NonNegative(xs: seq<int>) {
    forall i :: 0 <= i < |xs| ==> xs[i] >= 0
  }

  /** The sum of the first `i` lengths: where block `i` starts, counted from
      where the first one does. */
  function Before(xs: seq<int>, i: nat): int
    requires i <= |xs|
  {
    if i == 0 then 0 else Before(xs, i - 1) + xs[i - 1]
  }

  /** The position `x`, or the end of the stream if that comes first. */
  function Cut(s: seq<Byte>, x: int): int {
    if x <= |s| then x else |s|
  }

  /** The part of the stream that lies in the `len` positions from `from`:
      fewer bytes, or none, where the stream ends first. */
  function Clip(s: seq<Byte>, from: int, len: int): seq<Byte> {
    var lo := if from < 0 then 0 else Cut(s, from);
    var hi := if from + len < lo then lo else Cut(s, from + len);
    s[lo..hi]
  }
  /** Each of `blocks` is the clip of `s` that the running sums of
      `lengths` locate, counting from `pos`. */
  predicate ClipsFrom(s: seq<Byte>, blocks: seq<seq<Byte>>, pos: int, lengths: seq<int>)
    requires |blocks| <= |lengths|
  {
    forall i {:trigger blocks[i]} :: 0 <= i < |blocks| ==> blocks[i] == Clip(s, pos + Before(lengths, i), lengths[i])
  }

  /** Where the decoder expects the offset table of `f`: after the header, the
      two counts and the label metadata. */
  function TableStartOf(f: BtxtFile): nat {
    12 + 4 * (|f.labels| + |AllStrings(f.labels)|)
  }

  function BoundsOf(s: seq<Byte>, f: BtxtFile): (r: seq<U32>)
    ensures |r| == 1 + |f.labels| + |AllStrings(f.labels)|
  {
    Table(s, TableStartOf(f), |f.labels|, |AllStrings(f.labels)|, f.numberOfStrings)
  }

  function LengthsOf(s: seq<Byte>, f: BtxtFile): (r: seq<int>)
    ensures |r| == |f.labels| + |AllStrings(f.labels)|
  {
    BlockLengths(BoundsOf(s, f))
  }

  function DataStartOf(f: BtxtFile): nat {
    DataStart(TableStartOf(f), |f.labels|, |AllStrings(f.labels)|, f.numberOfStrings)
  }

  /** A decoded file as the stream determines it: the offset table lies in
      the stream; every block length between neighbouring entries is
      non-negative; each label's offsets are the entries around its key block;
      and key `i` and value `k` are the decodings of the bytes found at the sum
      of the lengths of the blocks before them, cut at the end of the stream. */
  predicate BlocksDecoded(s: seq<Byte>, f: BtxtFile) {
    && DataStartOf(f) <= |s|
    && NonNegative(LengthsOf(s, f))
    && OffsetsFrom(f.labels, BoundsOf(s, f))
    && KeysFrom(s, f.labels, DataStartOf(f), LengthsOf(s, f))
    && ValuesFrom(s, AllStrings(f.labels), |f.labels|, DataStartOf(f), LengthsOf(s, f))
  }

  /** Label `i`'s key block runs from entry `i` to entry `i + 1`. */
  predicate OffsetsFrom(labels: seq<BtxtLabel>, bounds: seq<U32>)
    requires |labels| < |bounds|
  {
    forall i {:trigger labels[i]} :: 0 <= i < |labels| ==> labels[i].startOffset == bounds[i] && labels[i].endOffset == bounds[i + 1]
  }

  /** Key `i` is decoded from the block at `dataAt` plus the lengths of the
      blocks before it. */
  predicate KeysFrom(s: seq<Byte>, labels: seq<BtxtLabel>, dataAt: nat, lengths: seq<int>)
    requires |labels| <= |lengths|
  {
    forall i {:trigger labels[i]} :: 0 <= i < |labels| ==> labels[i].key == DecodeKey(Clip(s, dataAt + Before(lengths, i), lengths[i]))
  }

  /** Value `k` is decoded from the block at `dataAt` plus the lengths of all
      key blocks and of the value blocks before it. */
  predicate ValuesFrom(s: seq<Byte>, strings: seq<BtxtString>, labelCount: nat, dataAt: nat, lengths: seq<int>)
    requires labelCount + |strings| <= |lengths|
  {
    forall k {:trigger strings[k]} :: 0 <= k < |strings| ==>
      strings[k].value == DecodeValue(Clip(s, dataAt + Before(lengths, labelCount + k), lengths[labelCount + k]))
  }

  // ---- The offset table ----

  lemma {:induction false} ReadUInt32sWords(s: seq<Byte>, pos: nat, n: nat)
    requires pos <= |s|
    ensures var r := ReadUInt32s(s, pos, n);
      r.Success? ==> forall i :: 0 <= i < n ==> r.value.value[i] == WordAt(s, pos + 4 * i)
    decreases n
  {
    var r := ReadUInt32s(s, pos, n);
    if n > 0 && r.Success? {
      ReadUInt32sWords(s, pos + 4, n - 1);
      var rest := ReadUInt32s(s, pos + 4, n - 1).value.value;
      assert r.value.value == [WordAt(s, pos)] + rest;
      forall i | 1 <= i < n
        ensures r.value.value[i] == WordAt(s, pos + 4 * i)
      {
        assert r.value.value[i] == rest[i - 1];
        assert pos + 4 + 4 * (i - 1) == pos + 4 * i;
      }
    }
  }

  /** Entry `i` of the value ends read from `pos` after `done` strings. */
  function EndEntry(s: seq<Byte>, pos: nat, done: nat, stringCount: nat, i: nat): U32 {
    if done + i + 1 == stringCount then ToU32(|s|)
    else if done < stringCount < done + i + 1 then WordAt(s, pos + 4 * (i - 1))
    else WordAt(s, pos + 4 * i)
  }

  /** After a stored end, the remaining entries are those one word further on. */
  lemma {:induction false} EndEntryShift(s: seq<Byte>, pos: nat, done: nat, stringCount: nat, i: nat)
    requires done + 1 != stringCount && i >= 1
    ensures EndEntry(s, pos + 4, done + 1, stringCount, i - 1) == EndEntry(s, pos, done, stringCount, i)
  {
    if done + i + 1 != stringCount && done < stringCount < done + i + 1 {
      assert done + 1 < stringCount;
      assert pos + 4 + 4 * (i - 2) == pos + 4 * (i - 1);
    } else if done + i + 1 != stringCount {
      assert pos + 4 + 4 * (i - 1) == pos + 4 * i;
    }
  }

  /** After the end that is not stored, the remaining entries start at the same word. */
  lemma {:induction false} EndEntrySkip(s: seq<Byte>, pos: nat, done: nat, stringCount: nat, i: nat)
    requires done + 1 == stringCount && i >= 1
    ensures EndEntry(s, pos, done + 1, stringCount, i - 1) == EndEntry(s, pos, done, stringCount, i)
  {
  }

  lemma {:induction false} ReadValueEndsEntries(s: seq<Byte>, pos: nat, done: nat, total: nat, stringCount: U16)
    requires pos <= |s| && done <= total
    ensures var r := ReadValueEnds(s, pos, done, total, stringCount);
      r.Success? ==> forall i :: 0 <= i < total - done ==> r.value.value[i] == EndEntry(s, pos, done, stringCount, i)
    decreases total - done
  {
    var r := ReadValueEnds(s, pos, done, total, stringCount);
    if done < total && r.Success? {
      if done + 1 != stringCount {
        ReadValueEndsEntries(s, pos + 4, done + 1, total, stringCount);
        var rest := ReadValueEnds(s, pos + 4, done + 1, total, stringCount).value.value;
        assert r.value.value == [WordAt(s, pos)] + rest;
        forall i | 1 <= i < total - done
          ensures r.value.value[i] == EndEntry(s, pos, done, stringCount, i)
        {
          assert r.value.value[i] == rest[i - 1];
          EndEntryShift(s, pos, done, stringCount, i);
        }
      } else {
        ReadValueEndsEntries(s, pos, done + 1, total, stringCount);
        var rest := ReadValueEnds(s, pos, done + 1, total, stringCount).value.value;
        assert r.value.value == [ToU32(|s|)] + rest;
        forall i | 1 <= i < total - done
          ensures r.value.value[i] == EndEntry(s, pos, done, stringCount, i)
        {
          assert r.value.value[i] == rest[i - 1];
          EndEntrySkip(s, pos, done, stringCount, i);
        }
      }
    }
  }

  /** `ReadOffsetTable` reads the first word, the label ends and then the value ends. */
  lemma {:induction false} ReadOffsetTableParts(s: seq<Byte>, pos: nat, labelCount: U16, total: nat, stringCount: U16)
    requires pos <= |s| && ReadOffsetTable(s, pos, labelCount, total, stringCount).Success?
    ensures pos + 4 + 4 * labelCount <= |s|
    ensures var ends := ReadUInt32s(s, pos + 4, labelCount);
      var values := ReadValueEnds(s, pos + 4 + 4 * labelCount, 0, total, stringCount);
      && ends.Success? && values.Success?
      && ReadOffsetTable(s, pos, labelCount, total, stringCount).value.value
         == [WordAt(s, pos)] + ends.value.value + values.value.value
  {
  }

  lemma {:induction false} TableEntryOfLabel(s: seq<Byte>, pos: nat, labelCount: nat, stringCount: nat, j: nat)
    requires 1 <= j <= labelCount
    ensures TableEntry(s, pos, labelCount, stringCount, j) == WordAt(s, pos + 4 + 4 * (j - 1))
  {
  }

  lemma {:induction false} TableEntryOfValue(s: seq<Byte>, pos: nat, labelCount: nat, stringCount: nat, j: nat)
    requires j > labelCount
    ensures TableEntry(s, pos, labelCount, stringCount, j) == EndEntry(s, pos + 4 + 4 * labelCount, 0, stringCount, j - labelCount - 1)
  {
    var i := j - labelCount - 1;
    if 0 < stringCount < i + 1 {
      assert pos + 4 + 4 * labelCount + 4 * (i - 1) == pos + 4 * (j - 1);
    } else if i + 1 != stringCount {
      assert pos + 4 + 4 * labelCount + 4 * i == pos + 4 * j;
    }
  }

  /** The table assembled from its three parts holds the entries
      `TableEntry` describes. */
  lemma {:induction false} TableOfParts(s: seq<Byte>, pos: nat, labelCount: nat, total: nat, stringCount: nat,
                                        ends: seq<U32>, values: seq<U32>, w: seq<U32>)
    requires |ends| == labelCount && |values| == total
    requires forall i {:trigger ends[i]} :: 0 <= i < labelCount ==> ends[i] == WordAt(s, pos + 4 + 4 * i)
    requires forall i {:trigger values[i]} :: 0 <= i < total ==> values[i] == EndEntry(s, pos + 4 + 4 * labelCount, 0, stringCount, i)
    requires w == [WordAt(s, pos)] + ends + values
    ensures w == Table(s, pos, labelCount, total, stringCount)
  {
    var t := Table(s, pos, labelCount, total, stringCount);
    forall j | 0 <= j < |t|
      ensures w[j] == t[j]
    {
      if 1 <= j <= labelCount {
        assert w[j] == ends[j - 1];
        TableEntryOfLabel(s, pos, labelCount, stringCount, j);
      } else if j > labelCount {
        assert w[j] == values[j - labelCount - 1];
        TableEntryOfValue(s, pos, labelCount, stringCount, j);
      }
    }
  }

  /** The table the decoder reads is the one `Table` describes. */
  lemma {:induction false} ReadOffsetTableEntries(s: seq<Byte>, pos: nat, labelCount: U16, total: nat, stringCount: U16)
    requires pos <= |s|
    ensures var r := ReadOffsetTable(s, pos, labelCount, total, stringCount);
      r.Success? ==> r.value.value == Table(s, pos, labelCount, total, stringCount)
  {
    var r := ReadOffsetTable(s, pos, labelCount, total, stringCount);
    if r.Success? {
      ReadOffsetTableParts(s, pos, labelCount, total, stringCount);
      ReadUInt32sWords(s, pos + 4, labelCount);
      ReadValueEndsEntries(s, pos + 4 + 4 * labelCount, 0, total, stringCount);
      TableOfParts(s, pos, labelCount, total, stringCount, ReadUInt32s(s, pos + 4, labelCount).value.value,
                   ReadValueEnds(s, pos + 4 + 4 * labelCount, 0, total, stringCount).value.value, r.value.value);
    }
  }

  // ---- The blocks ----

  lemma {:induction false} BeforeCons(xs: seq<int>, i: nat)
    requires 0 < i <= |xs|
    ensures Before(xs, i) == xs[0] + Before(xs[1..], i - 1)
    decreases i
  {
    if i > 1 {
      BeforeCons(xs, i - 1);
    }
  }

  lemma {:induction false} BeforePrefix(xs: seq<int>, k: nat, i: nat)
    requires i <= k <= |xs|
    ensures Before(xs[..k], i) == Before(xs, i)
    decreases i
  {
    if i > 0 {
      BeforePrefix(xs, k, i - 1);
    }
  }

  lemma {:induction false} BeforeSplit(xs: seq<int>, k: nat, j: nat)
    requires k + j <= |xs|
    ensures Before(xs, k + j) == Before(xs, k) + Before(xs[k..], j)
    decreases j
  {
    if j > 0 {
      BeforeSplit(xs, k, j - 1);
    }
  }

  lemma {:induction false} BeforeNonNegative(xs: seq<int>, i: nat)
    requires NonNegative(xs) && i <= |xs|
    ensures Before(xs, i) >= 0
    decreases i
  {
    if i > 0 {
      BeforeNonNegative(xs, i - 1);
    }
  }

  lemma {:induction false} NonNegativeTail(xs: seq<int>, i: nat)
    requires NonNegative(xs) && i <= |xs|
    ensures NonNegative(xs[i..]) && NonNegative(xs[..i])
  {
    assert forall k :: 0 <= k < |xs[i..]| ==> xs[i..][k] == xs[i + k];
    assert forall k :: 0 <= k < i ==> xs[..i][k] == xs[k];
  }

  /** A clip is the `len` bytes at `from` when the stream holds them all;
      otherwise it is what the stream holds from `from` on, which is shorter
      than a positive `len`. */
  lemma {:induction false} ClipOfStream(s: seq<Byte>, from: nat, len: nat)
    ensures from + len <= |s| ==> Clip(s, from, len) == s[from..from + len]
    ensures from + len > |s| ==> Clip(s, from, len) == s[Cut(s, from)..] && (len > 0 ==> |Clip(s, from, len)| < len)
  {
    if from + len > |s| {
      assert s[Cut(s, from)..|s|] == s[Cut(s, from)..];
    }
  }

  /** Starting at the end of the stream or beyond it reads nothing more. */
  lemma {:induction false} ClipPastEnd(s: seq<Byte>, a: nat, b: nat, extra: int, len: int)
    requires a == Cut(s, b) && extra >= 0
    ensures Clip(s, a + extra, len) == Clip(s, b + extra, len)
    ensures Cut(s, a + extra) == Cut(s, b + extra)
  {
  }

  lemma {:induction false} NonNegativeCons(xs: seq<int>)
    requires |xs| > 0 && xs[0] >= 0 && NonNegative(xs[1..])
    ensures NonNegative(xs)
  {
    forall i | 1 <= i < |xs|
      ensures xs[i] >= 0
    {
      assert xs[i] == xs[1..][i - 1];
    }
  }

  /** One step of `ReadBlocks`, stated on the blocks alone. */
  lemma {:induction false} BlocksStep(s: seq<Byte>, pos: nat, lengths: seq<int>, next: nat, blocks: seq<seq<Byte>>, restBlocks: seq<seq<Byte>>)
    requires |lengths| > 0 && NonNegative(lengths)
    requires pos <= |s| && next == Cut(s, pos + lengths[0])
    requires blocks == [s[pos..next]] + restBlocks && |restBlocks| == |lengths| - 1
    requires ClipsFrom(s, restBlocks, next, lengths[1..])
    ensures ClipsFrom(s, blocks, pos, lengths)
  {
    forall i | 0 <= i < |blocks|
      ensures blocks[i] == Clip(s, pos + Before(lengths, i), lengths[i])
    {
      if i == 0 {
        FirstBlock(s, pos, lengths, next);
      } else {
        NonNegativeTail(lengths, 1);
        BlockAfterFirst(s, pos, lengths, next, i);
        assert blocks[i] == restBlocks[i - 1];
      }
    }
  }

  lemma {:induction false} FirstBlock(s: seq<Byte>, pos: nat, lengths: seq<int>, next: nat)
    requires |lengths| > 0 && lengths[0] >= 0
    requires pos <= |s| && next == Cut(s, pos + lengths[0])
    ensures s[pos..next] == Clip(s, pos + Before(lengths, 0), lengths[0])
  {
  }

  lemma {:induction false} BlockAfterFirst(s: seq<Byte>, pos: nat, lengths: seq<int>, next: nat, i: nat)
    requires 0 < i < |lengths| && NonNegative(lengths[1..])
    requires pos <= |s| && next == Cut(s, pos + lengths[0])
    ensures Clip(s, next + Before(lengths[1..], i - 1), lengths[1..][i - 1]) == Clip(s, pos + Before(lengths, i), lengths[i])
  {
    BeforeCons(lengths, i);
    BeforeNonNegative(lengths[1..], i - 1);
    ClipPastEnd(s, next, pos + lengths[0], Before(lengths[1..], i - 1), lengths[i]);
  }

  /** `ReadBlocks` takes one block and then reads the rest after it. */
  lemma {:induction false} ReadBlocksFirst(s: seq<Byte>, pos: nat, lengths: seq<int>)
    requires pos <= |s| && |lengths| > 0 && ReadBlocks(s, pos, lengths).Success?
    ensures lengths[0] >= 0
    ensures var b := ReadBytes(s, pos, lengths[0]);
      var rest := ReadBlocks(s, b.next, lengths[1..]);
      && b.next == Cut(s, pos + lengths[0]) && b.value == s[pos..b.next]
      && rest.Success?
      && ReadBlocks(s, pos, lengths).value.value == [b.value] + rest.value.value
      && ReadBlocks(s, pos, lengths).value.next == rest.value.next
  {
  }

  lemma {:induction false} CutStep(s: seq<Byte>, pos: nat, len: int, next: int, rest: int, total: int, end: int)
    requires len >= 0 && rest >= 0 && pos <= |s| && total == len + rest
    requires next == Cut(s, pos + len) && end == Cut(s, next + rest)
    ensures end == Cut(s, pos + total)
  {
  }

  /** Each block `ReadBlocks` returns is the part of the stream at the running
      sum of the lengths before it, and reading stops at the sum of all of them
      or at the end of the stream. */
  lemma {:induction false} ReadBlocksClips(s: seq<Byte>, pos: nat, lengths: seq<int>)
    requires pos <= |s|
    ensures var r := ReadBlocks(s, pos, lengths);
      r.Success? ==>
        && NonNegative(lengths)
        && r.value.next == Cut(s, pos + Before(lengths, |lengths|))
        && ClipsFrom(s, r.value.value, pos, lengths)
    decreases |lengths|
  {
    var r := ReadBlocks(s, pos, lengths);
    if |lengths| > 0 && r.Success? {
      ReadBlocksFirst(s, pos, lengths);
      var b := ReadBytes(s, pos, lengths[0]);
      ReadBlocksClips(s, b.next, lengths[1..]);
      var rest := ReadBlocks(s, b.next, lengths[1..]);
      ClipsStep(s, pos, lengths, b.next, r.value.next, r.value.value, rest.value.value);
    }
  }

  /** `ReadBlocksClips` for a non-empty list, from what holds of its tail. */
  lemma {:induction false} ClipsStep(s: seq<Byte>, pos: nat, lengths: seq<int>, next: nat, end: nat,
                  blocks: seq<seq<Byte>>, restBlocks: seq<seq<Byte>>)
    requires |lengths| > 0 && lengths[0] >= 0 && NonNegative(lengths[1..])
    requires pos <= |s| && next == Cut(s, pos + lengths[0])
    requires blocks == [s[pos..next]] + restBlocks && |restBlocks| == |lengths| - 1
    requires end == Cut(s, next + Before(lengths[1..], |lengths| - 1))
    requires ClipsFrom(s, restBlocks, next, lengths[1..])
    ensures NonNegative(lengths)
    ensures end == Cut(s, pos + Before(lengths, |lengths|))
    ensures ClipsFrom(s, blocks, pos, lengths)
  {
    NonNegativeCons(lengths);
    BeforeNonNegative(lengths[1..], |lengths| - 1);
    BeforeCons(lengths, |lengths|);
    CutStep(s, pos, lengths[0], next, Before(lengths[1..], |lengths| - 1), Before(lengths, |lengths|), end);
    BlocksStep(s, pos, lengths, next, blocks, restBlocks);
  }

  // ---- A successful decode, against the stream ----

  lemma {:induction false} ReadFileParts(s: seq<Byte>)
    requires ReadBtxtFileFromStream(s).Success?
    ensures ReadPreamble(s).Success?
    ensures var pre := ReadPreamble(s).value;
      && ReadLabels(s, pre.next, pre.value).Success?
      && ReadBtxtFileFromStream(s).value
         == BtxtFile(pre.value.labelCount, pre.value.stringCount, ReadLabels(s, pre.next, pre.value).value)
  {
  }

  lemma {:induction false} ReadLabelsParts(s: seq<Byte>, pos: nat, p: Preamble)
    requires pos <= |s| && |p.ids| == p.labelCount && ReadLabels(s, pos, p).Success?
    ensures var table := ReadOffsetTable(s, pos, p.labelCount, TotalIds(p.ids), p.stringCount);
      && table.Success?
      && var lengths := BlockLengths(table.value.value);
         var keys := ReadBlocks(s, table.value.next, lengths[..p.labelCount]);
         && keys.Success?
         && var values := ReadBlocks(s, keys.value.next, lengths[p.labelCount..]);
            && values.Success?
            && ReadLabels(s, pos, p).value
               == Assemble(p.ids, DecodeKeys(keys.value.value), DecodeValues(values.value.value), table.value.value[..p.labelCount + 1])
  {
  }

  lemma {:induction false} NonNegativeJoin(xs: seq<int>, k: nat)
    requires k <= |xs| && NonNegative(xs[..k]) && NonNegative(xs[k..])
    ensures NonNegative(xs)
  {
    forall i | 0 <= i < |xs|
      ensures xs[i] >= 0
    {
      if i < k {
        assert xs[i] == xs[..k][i];
      } else {
        assert xs[i] == xs[k..][i - k];
      }
    }
  }

  /** Each of `blocks` is the clip of `s` that the running sums of
      `lengths` locate, the first one being block number `first`. */
  predicate ClipsAt(s: seq<Byte>, blocks: seq<seq<Byte>>, first: nat, dataAt: nat, lengths: seq<int>)
    requires first + |blocks| <= |lengths|
  {
    forall k {:trigger blocks[k]} :: 0 <= k < |blocks| ==>
      blocks[k] == Clip(s, dataAt + Before(lengths, first + k), lengths[first + k])
  }

  /** A successful block read, restated about its result: every block is
      a clip of `s`, and the read ends where the last clip does. */
  lemma {:induction false} ClipsOfRead(s: seq<Byte>, pos: nat, lengths: seq<int>, r: Read<seq<seq<Byte>>>)
    requires pos <= |s| && ReadBlocks(s, pos, lengths) == Success(r)
    ensures NonNegative(lengths) && |r.value| == |lengths|
    ensures r.next == Cut(s, pos + Before(lengths, |lengths|))
    ensures ClipsFrom(s, r.value, pos, lengths)
  {
    ReadBlocksClips(s, pos, lengths);
  }

  /** Blocks read with the first `labelCount` lengths from `dataAt` sit
      where the running sums of all the lengths put them. */
  lemma {:induction false} FrontClips(s: seq<Byte>, dataAt: nat, lengths: seq<int>, labelCount: nat, front: seq<int>,
                                      blocks: seq<seq<Byte>>)
    requires labelCount <= |lengths| && front == lengths[..labelCount] && |blocks| == |front|
    requires ClipsFrom(s, blocks, dataAt, front)
    ensures Before(front, |front|) == Before(lengths, labelCount)
    ensures ClipsFrom(s, blocks, dataAt, lengths)
  {
    BeforePrefix(lengths, labelCount, labelCount);
    forall k | 0 <= k < |blocks|
      ensures blocks[k] == Clip(s, dataAt + Before(lengths, k), lengths[k])
    {
      BeforePrefix(lengths, labelCount, k);
    }
  }

  /** The key-block read of `ReadLabels`: its blocks sit where the running
      sums of all the lengths put them, and it ends where the value blocks
      begin. */
  lemma {:induction false} KeyClipsOfRead(s: seq<Byte>, dataAt: nat, lengths: seq<int>, labelCount: nat, keys: Read<seq<seq<Byte>>>)
    requires dataAt <= |s| && labelCount <= |lengths|
    requires ReadBlocks(s, dataAt, lengths[..labelCount]) == Success(keys)
    ensures |keys.value| == labelCount && NonNegative(lengths[..labelCount])
    ensures keys.next == Cut(s, dataAt + Before(lengths, labelCount))
    ensures ClipsFrom(s, keys.value, dataAt, lengths)
  {
    ClipsOfRead(s, dataAt, lengths[..labelCount], keys);
    FrontClips(s, dataAt, lengths, labelCount, lengths[..labelCount], keys.value);
  }

  lemma {:induction false} ValueBlockAt(s: seq<Byte>, dataAt: nat, lengths: seq<int>, labelCount: nat, keysEnd: nat, k: nat)
    requires labelCount + k < |lengths| && NonNegative(lengths)
    requires keysEnd == Cut(s, dataAt + Before(lengths, labelCount))
    ensures Clip(s, keysEnd + Before(lengths[labelCount..], k), lengths[labelCount..][k])
         == Clip(s, dataAt + Before(lengths, labelCount + k), lengths[labelCount + k])
  {
    BeforeSplit(lengths, labelCount, k);
    NonNegativeTail(lengths, labelCount);
    BeforeNonNegative(lengths[labelCount..], k);
    ClipPastEnd(s, keysEnd, dataAt + Before(lengths, labelCount), Before(lengths[labelCount..], k), lengths[labelCount + k]);
  }

  /** Blocks read with the lengths after the first `labelCount`, from
      where the first `labelCount` blocks end, sit where the running sums of
      all the lengths put them. */
  lemma {:induction false} BackClips(s: seq<Byte>, dataAt: nat, lengths: seq<int>, labelCount: nat, back: seq<int>,
                                     keysEnd: nat, blocks: seq<seq<Byte>>)
    requires labelCount <= |lengths| && back == lengths[labelCount..] && |blocks| == |back| && NonNegative(lengths)
    requires keysEnd == Cut(s, dataAt + Before(lengths, labelCount))
    requires ClipsFrom(s, blocks, keysEnd, back)
    ensures ClipsAt(s, blocks, labelCount, dataAt, lengths)
  {
    forall k | 0 <= k < |blocks|
      ensures blocks[k] == Clip(s, dataAt + Before(lengths, labelCount + k), lengths[labelCount + k])
    {
      ValueBlockAt(s, dataAt, lengths, labelCount, keysEnd, k);
    }
  }

  /** The value-block read of `ReadLabels`, which starts where the key
      blocks end: its blocks sit where the running sums of all the lengths
      put them. */
  lemma {:induction false} ValueClipsOfRead(s: seq<Byte>, dataAt: nat, lengths: seq<int>, labelCount: nat, keysEnd: nat,
                                            values: Read<seq<seq<Byte>>>)
    requires labelCount <= |lengths| && keysEnd <= |s| && NonNegative(lengths[..labelCount])
    requires keysEnd == Cut(s, dataAt + Before(lengths, labelCount))
    requires ReadBlocks(s, keysEnd, lengths[labelCount..]) == Success(values)
    ensures NonNegative(lengths)
    ensures labelCount + |values.value| == |lengths|
    ensures ClipsAt(s, values.value, labelCount, dataAt, lengths)
  {
    ClipsOfRead(s, keysEnd, lengths[labelCount..], values);
    NonNegativeJoin(lengths, labelCount);
    BackClips(s, dataAt, lengths, labelCount, lengths[labelCount..], keysEnd, values.value);
  }

  lemma {:induction false} KeysFromBlocks(s: seq<Byte>, labels: seq<BtxtLabel>, dataAt: nat, lengths: seq<int>, keyBlocks: seq<seq<Byte>>)
    requires |keyBlocks| == |labels| <= |lengths|
    requires ClipsFrom(s, keyBlocks, dataAt, lengths)
    requires Keys(labels) == DecodeKeys(keyBlocks)
    ensures KeysFrom(s, labels, dataAt, lengths)
  {
    forall i | 0 <= i < |labels|
      ensures labels[i].key == DecodeKey(Clip(s, dataAt + Before(lengths, i), lengths[i]))
    {
      assert keyBlocks[i] == Clip(s, dataAt + Before(lengths, i), lengths[i]);
      assert labels[i].key == Keys(labels)[i];
    }
  }

  lemma {:induction false} ValuesFromBlocks(s: seq<Byte>, strings: seq<BtxtString>, labelCount: nat, dataAt: nat, lengths: seq<int>,
                                            valueBlocks: seq<seq<Byte>>)
    requires |valueBlocks| == |strings| && labelCount + |strings| <= |lengths|
    requires ClipsAt(s, valueBlocks, labelCount, dataAt, lengths)
    requires ValueTexts(strings) == DecodeValues(valueBlocks)
    ensures ValuesFrom(s, strings, labelCount, dataAt, lengths)
  {
    forall k | 0 <= k < |strings|
      ensures strings[k].value == DecodeValue(Clip(s, dataAt + Before(lengths, labelCount + k), lengths[labelCount + k]))
    {
      assert strings[k].value == ValueTexts(strings)[k];
    }
  }

  lemma {:induction false} OffsetsFromBounds(labels: seq<BtxtLabel>, labelCount: nat, bounds: seq<U32>)
    requires labelCount == |labels| < |bounds|
    requires forall i {:trigger labels[i]} :: 0 <= i < |labels| ==>
      labels[i].startOffset == bounds[..labelCount + 1][i] && labels[i].endOffset == bounds[..labelCount + 1][i + 1]
    ensures OffsetsFrom(labels, bounds)
  {
  }

  /** The labels assembled from the two block reads of `ReadLabels`,
      against the table they were read with. */
  lemma {:induction false} LabelsFromReads(s: seq<Byte>, ids: seq<seq<U32>>, labelCount: nat, labels: seq<BtxtLabel>,
                                           bounds: seq<U32>, dataAt: nat, lengths: seq<int>,
                                           keys: Read<seq<seq<Byte>>>, values: Read<seq<seq<Byte>>>)
    requires labelCount == |ids| <= |lengths| && labelCount < |bounds| && dataAt <= |s|
    requires ReadBlocks(s, dataAt, lengths[..labelCount]) == Success(keys)
    requires ReadBlocks(s, keys.next, lengths[labelCount..]) == Success(values)
    requires IdLists(labels) == ids && Keys(labels) == DecodeKeys(keys.value)
    requires ValueTexts(AllStrings(labels)) == DecodeValues(values.value)
    requires forall i {:trigger labels[i]} :: 0 <= i < |labels| ==>
      labels[i].startOffset == bounds[..labelCount + 1][i] && labels[i].endOffset == bounds[..labelCount + 1][i + 1]
    ensures |labels| == labelCount && |AllStrings(labels)| == TotalIds(ids)
    ensures NonNegative(lengths)
    ensures OffsetsFrom(labels, bounds)
    ensures KeysFrom(s, labels, dataAt, lengths)
    ensures ValuesFrom(s, AllStrings(labels), |labels|, dataAt, lengths)
  {
    KeyClipsOfRead(s, dataAt, lengths, labelCount, keys);
    ValueClipsOfRead(s, dataAt, lengths, labelCount, keys.next, values);
    TotalIdsOfLabels(labels);
    KeysFromBlocks(s, labels, dataAt, lengths, keys.value);
    ValuesFromBlocks(s, AllStrings(labels), labelCount, dataAt, lengths, values.value);
    OffsetsFromBounds(labels, labelCount, bounds);
  }

  /** The labels `ReadLabels` returns, against the table it reads. */
  lemma {:induction false} ReadLabelsFromClips(s: seq<Byte>, pos: nat, p: Preamble)
    requires pos <= |s| && |p.ids| == p.labelCount && ReadLabels(s, pos, p).Success?
    ensures var table := ReadOffsetTable(s, pos, p.labelCount, TotalIds(p.ids), p.stringCount);
      var labels := ReadLabels(s, pos, p).value;
      && table.Success?
      && |labels| == p.labelCount && |AllStrings(labels)| == TotalIds(p.ids)
      && NonNegative(BlockLengths(table.value.value))
      && OffsetsFrom(labels, table.value.value)
      && KeysFrom(s, labels, table.value.next, BlockLengths(table.value.value))
      && ValuesFrom(s, AllStrings(labels), |labels|, table.value.next, BlockLengths(table.value.value))
  {
    ReadLabelsParts(s, pos, p);
    var table := ReadOffsetTable(s, pos, p.labelCount, TotalIds(p.ids), p.stringCount).value;
    var lengths := BlockLengths(table.value);
    var keys := ReadBlocks(s, table.next, lengths[..p.labelCount]).value;
    var values := ReadBlocks(s, keys.next, lengths[p.labelCount..]).value;
    LabelsFromReads(s, p.ids, p.labelCount, ReadLabels(s, pos, p).value, table.value, table.next, lengths, keys, values);
  }

  // ---- When the decode fails ----

  /** A list of lengths with a negative entry has one in its first `k`
      entries or in the rest. */
  lemma {:induction false} NegativeSplit(xs: seq<int>, k: nat)
    requires k <= |xs| && !NonNegative(xs)
    ensures !NonNegative(xs[..k]) || !NonNegative(xs[k..])
  {
    var i :| 0 <= i < |xs| && xs[i] < 0;
    if i < k {
      assert xs[..k][i] < 0;
    } else {
      assert xs[k..][i - k] < 0;
    }
  }

  /** `ReadLabels` fails exactly when the offset table does not fit in the
      stream (end of stream) or a block length is negative (negative
      length); it succeeds otherwise. */
  lemma {:induction false} ReadLabelsOutcome(s: seq<Byte>, pos: nat, p: Preamble)
    requires pos <= |s| && |p.ids| == p.labelCount
    ensures var t := ReadOffsetTable(s, pos, p.labelCount, TotalIds(p.ids), p.stringCount);
      var r := ReadLabels(s, pos, p);
      && (t.Failure? ==> r == Failure(EndOfStream))
      && (t.Success? && NonNegative(BlockLengths(t.value.value)) ==> r.Success?)
      && (t.Success? && !NonNegative(BlockLengths(t.value.value)) ==> r == Failure(NegativeLength))
  {
    var t := ReadOffsetTable(s, pos, p.labelCount, TotalIds(p.ids), p.stringCount);
    if t.Success? {
      var lengths := BlockLengths(t.value.value);
      var keys := ReadBlocks(s, t.value.next, lengths[..p.labelCount]);
      if NonNegative(lengths) {
        assert NonNegative(lengths[..p.labelCount]) by {
          forall i | 0 <= i < p.labelCount ensures lengths[..p.labelCount][i] >= 0 {
            assert lengths[..p.labelCount][i] == lengths[i];
          }
        }
        assert NonNegative(lengths[p.labelCount..]) by {
          NonNegativeTail(lengths, p.labelCount);
        }
      } else {
        NegativeSplit(lengths, p.labelCount);
      }
    }
  }

  /** The decoder's verdict on a stream whose preamble reads: it fails
      with end of stream exactly when the offset table does not fit, with
      negative length exactly when the table holds a block that ends before
      it starts, and succeeds otherwise. A preamble that does not read
      fails the whole decode with its own error. */
  lemma {:induction false} DecodeOutcome(s: seq<Byte>)
    ensures ReadPreamble(s).Failure? ==> ReadBtxtFileFromStream(s) == Failure(ReadPreamble(s).error)
    ensures ReadPreamble(s).Success? ==>
      var pre := ReadPreamble(s).value;
      var t := ReadOffsetTable(s, pre.next, pre.value.labelCount, TotalIds(pre.value.ids), pre.value.stringCount);
      var r := ReadBtxtFileFromStream(s);
      && (t.Failure? <==> r == Failure(EndOfStream))
      && (t.Success? && NonNegative(BlockLengths(t.value.value)) <==> r.Success?)
      && (t.Success? && !NonNegative(BlockLengths(t.value.value)) <==> r == Failure(NegativeLength))
  {
    if ReadPreamble(s).Success? {
      var pre := ReadPreamble(s).value;
      ReadLabelsOutcome(s, pre.next, pre.value);
    }
  }

  /** Every file the decoder returns is made of the blocks the stream holds
      where the offset table says: see `BlocksDecoded`. */
  lemma {:induction false} DecodedFromBlocks(s: seq<Byte>)
    ensures var r := ReadBtxtFileFromStream(s);
      r.Success? ==> BlocksDecoded(s, r.value)
  {
    var r := ReadBtxtFileFromStream(s);
    if r.Success? {
      ReadFileParts(s);
      var pre := ReadPreamble(s).value;
      var p := pre.value;
      ReadLabelsFromClips(s, pre.next, p);
      ReadOffsetTableEntries(s, pre.next, p.labelCount, TotalIds(p.ids), p.stringCount);
      BlocksDecodedOf(s, r.value, pre.next, p.labelCount, TotalIds(p.ids), p.stringCount,
                      ReadOffsetTable(s, pre.next, p.labelCount, TotalIds(p.ids), p.stringCount).value);
    }
  }

  lemma {:induction false} BlocksDecodedOf(s: seq<Byte>, f: BtxtFile, tableAt: nat, labelCount: nat, total: nat, stringCount: nat,
                                           table: Read<seq<U32>>)
    requires |f.labels| == labelCount && |AllStrings(f.labels)| == total && f.numberOfStrings == stringCount
    requires tableAt == 12 + 4 * (labelCount + total)
    requires table.value == Table(s, tableAt, labelCount, total, stringCount)
    requires table.next == tableAt + 4 * (1 + labelCount + total) - (if 0 < stringCount <= total then 4 else 0) <= |s|
    requires NonNegative(BlockLengths(table.value))
    requires OffsetsFrom(f.labels, table.value)
    requires KeysFrom(s, f.labels, table.next, BlockLengths(table.value))
    requires ValuesFrom(s, AllStrings(f.labels), |f.labels|, table.next, BlockLengths(table.value))
    ensures BlocksDecoded(s, f)
  {
    assert TableStartOf(f) == tableAt;
    assert BoundsOf(s, f) == table.value;
    assert DataStartOf(f) == table.next;
  }
}
