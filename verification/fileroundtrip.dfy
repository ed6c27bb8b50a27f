/**
 The whole file read back over what the encoder writes. A file comes back
 unchanged when it has at least one string, its two counts are the numbers
 of labels and strings, its keys are ASCII and its texts have no NUL at either
 end, its values hold no raw line break, its stored offsets are the key block
 bounds the encoder lays out, and the stream it writes stays below 2^31 bytes.
 */
module FileRoundTrip {
  import opened Bytes
  import opened Text
  import opened Escape
  import opened Models
  import opened Layout
  import opened Reader
  import opened Writer
  import opened RoundTrip

  // ---- Reading the blocks back ----

  /** The size of every block. */
  function Sizes(blocks: seq<seq<Byte>>): (r: seq<int>)
    ensures |r| == |blocks|
    ensures forall i :: 0 <= i < |blocks| ==> r[i] == |blocks[i]|
  {
    seq(|blocks|, i requires 0 <= i < |blocks| => |blocks[i]|)
  }

  /** Every length is its block's size, except that the last may ask for more
      when the blocks run to the end of the stream. */
  predicate LengthsFit(s: seq<Byte>, pos: nat, blocks: seq<seq<Byte>>, lengths: seq<int>) {
    && |lengths| == |blocks|
    && forall i :: 0 <= i < |blocks| ==>
         || lengths[i] == |blocks[i]|
         || (i == |blocks| - 1 && lengths[i] >= |blocks[i]| && pos + |Concat(blocks)| == |s|)
  }

  /** Blocks written one after another read back with lengths that fit them. */
  lemma {:induction false} ReadBlocksOf(s: seq<Byte>, pos: nat, blocks: seq<seq<Byte>>, lengths: seq<int>)
    requires HoldsAt(s, pos, Concat(blocks)) && LengthsFit(s, pos, blocks, lengths)
    ensures ReadBlocks(s, pos, lengths) == Success(Read(blocks, pos + |Concat(blocks)|))
    decreases |blocks|
  {
    if |blocks| > 0 {
      var b := blocks[0];
      var rest := blocks[1..];
      assert Concat(blocks) == b + Concat(rest);
      HoldsAtConcat(s, pos, b, Concat(rest));
      LengthsFitDrop(s, pos, blocks, lengths);
      ReadBlocksOf(s, pos + |b|, rest, lengths[1..]);
      ReadBytesOf(s, pos, lengths[0], b, |rest|);
      assert [lengths[0]] + lengths[1..] == lengths;
      assert [b] + rest == blocks;
      ReadBlocksUnfold(s, pos, lengths[0], lengths[1..], lengths, b, rest, blocks, pos + |b| + |Concat(rest)|);
    } else {
      assert lengths == [];
    }
  }

  lemma LengthsFitDrop(s: seq<Byte>, pos: nat, blocks: seq<seq<Byte>>, lengths: seq<int>)
    requires |blocks| > 0 && Concat(blocks) == blocks[0] + Concat(blocks[1..])
    requires LengthsFit(s, pos, blocks, lengths)
    ensures LengthsFit(s, pos + |blocks[0]|, blocks[1..], lengths[1..])
  {
    var rest := blocks[1..];
    forall i | 0 <= i < |rest|
      ensures || lengths[1..][i] == |rest[i]|
              || (i == |rest| - 1 && lengths[1..][i] >= |rest[i]| && pos + |blocks[0]| + |Concat(rest)| == |s|)
    {
      assert lengths[1..][i] == lengths[i + 1] && rest[i] == blocks[i + 1];
    }
  }

  lemma ReadBytesOf(s: seq<Byte>, pos: nat, len: int, b: seq<Byte>, more: nat)
    requires HoldsAt(s, pos, b)
    requires len == |b| || (more == 0 && len >= |b| && pos + |b| == |s|)
    ensures ReadBytes(s, pos, len) == Read(b, pos + |b|)
  {
  }

  /** One unfolding of `ReadBlocks` over a block that lies whole in the stream. */
  lemma ReadBlocksUnfold(s: seq<Byte>, pos: nat, len: int, restLengths: seq<int>, lengths: seq<int>,
                         b: seq<Byte>, rest: seq<seq<Byte>>, blocks: seq<seq<Byte>>, next: nat)
    requires len >= 0 && pos <= |s| && lengths == [len] + restLengths && blocks == [b] + rest
    requires ReadBytes(s, pos, len) == Read(b, pos + |b|)
    requires ReadBlocks(s, pos + |b|, restLengths) == Success(Read(rest, next))
    ensures ReadBlocks(s, pos, lengths) == Success(Read(blocks, next))
  {
    assert lengths[1..] == restLengths;
  }

  lemma BlockLengthsCons(b: U32, rest: seq<U32>)
    requires |rest| > 0
    ensures BlockLengths([b] + rest) == [BlockLength(b, rest[0])] + BlockLengths(rest)
  {
  }

  lemma SizesCons(b: seq<Byte>, rest: seq<seq<Byte>>)
    ensures Sizes([b] + rest) == [|b|] + Sizes(rest)
  {
  }

  /** Lengths that are exactly the block sizes fit. */
  lemma SizesFit(s: seq<Byte>, pos: nat, blocks: seq<seq<Byte>>)
    ensures LengthsFit(s, pos, blocks, Sizes(blocks))
  {
  }

  // ---- The key blocks ----

  /** The stored end offsets of the labels. */
  function Ends(labels: seq<BtxtLabel>): (r: seq<U32>)
    ensures |r| == |labels|
    ensures forall i :: 0 <= i < |labels| ==> r[i] == labels[i].endOffset
  {
    seq(|labels|, i requires 0 <= i < |labels| => labels[i].endOffset)
  }

  /** The labels' stored offsets are the bounds of the key blocks the encoder
      writes when the first block is taken to start at offset `start`: each
      label starts where the one before it ends, and ends one key block later. */
  predicate KeysChainFrom(start: nat, labels: seq<BtxtLabel>)
    decreases |labels|
  {
    |labels| == 0 ||
      (&& labels[0].startOffset == start
       && labels[0].endOffset == start + |KeyBlock(start, labels[0].key)|
       && KeysChainFrom(labels[0].endOffset, labels[1..]))
  }

  /** A key block depends on its position only through the position's parity. */
  lemma KeyBlockParity(p: nat, q: nat, key: Text)
    requires p % 2 == q % 2
    ensures KeyBlock(p, key) == KeyBlock(q, key)
  {
    PaddingParity(p, q, |key|, 3);
  }

  lemma PaddingParity(p: nat, q: nat, length: nat, nullCharacterLength: nat)
    requires p % 2 == q % 2
    ensures CalculatePadding(p, length, nullCharacterLength) == CalculatePadding(q, length, nullCharacterLength)
  {
    ParityShift(p, q, length + nullCharacterLength);
  }

  lemma ParityShift(p: int, q: int, k: int)
    requires p % 2 == q % 2
    ensures (p + k) % 2 == (q + k) % 2
  {
  }

  /** The key region is its blocks, one after another. */
  lemma {:induction false} KeyRegionConcat(pos: nat, keys: seq<Text>)
    ensures KeyRegion(pos, keys) == Concat(KeyBlocks(pos, keys))
    decreases |keys|
  {
    if |keys| > 0 {
      var b := KeyBlock(pos, keys[0]);
      KeyRegionConcat(pos + |b|, keys[1..]);
      assert KeyBlocks(pos, keys)[1..] == KeyBlocks(pos + |b|, keys[1..]);
    }
  }

  /** The first label of a chain: its key block, and the chain that follows. */
  lemma KeyChainHead(pos: nat, start: U32, labels: seq<BtxtLabel>, b: seq<Byte>, rest: seq<BtxtLabel>)
    requires |labels| > 0 && b == KeyBlock(pos, labels[0].key) && rest == labels[1..]
    requires KeysChainFrom(start, labels) && pos % 2 == start % 2
    requires start + |KeyRegion(pos, Keys(labels))| < TwoTo31
    ensures labels[0].endOffset == start + |b|
    ensures KeysChainFrom(labels[0].endOffset, rest)
    ensures (pos + |b|) % 2 == labels[0].endOffset % 2
    ensures labels[0].endOffset + |KeyRegion(pos + |b|, Keys(rest))| < TwoTo31
    ensures KeyBlocks(pos, Keys(labels)) == [b] + KeyBlocks(pos + |b|, Keys(rest))
    ensures KeyRegion(pos, Keys(labels)) == b + KeyRegion(pos + |b|, Keys(rest))
    ensures Ends(labels) == [labels[0].endOffset] + Ends(rest)
  {
    KeysCons(labels[0], rest);
    assert labels == [labels[0]] + rest;
    KeyBlockParity(pos, start, labels[0].key);
  }

  /** With chained offsets, the decoder's key block lengths are the sizes of
      the key blocks the encoder writes. */
  lemma {:induction false} KeyLengthsOf(pos: nat, start: U32, labels: seq<BtxtLabel>)
    requires KeysChainFrom(start, labels) && pos % 2 == start % 2
    requires start + |KeyRegion(pos, Keys(labels))| < TwoTo31
    ensures BlockLengths([start] + Ends(labels)) == Sizes(KeyBlocks(pos, Keys(labels)))
    decreases |labels|
  {
    if |labels| > 0 {
      var rest := labels[1..];
      var b := KeyBlock(pos, labels[0].key);
      var end := labels[0].endOffset;
      KeyChainHead(pos, start, labels, b, rest);
      KeyLengthsOf(pos + |b|, end, rest);
      KeyLengthsStep(start, end, b, Ends(rest), KeyBlocks(pos + |b|, Keys(rest)));
    }
  }

  lemma KeyLengthsStep(start: U32, end: U32, b: seq<Byte>, restEnds: seq<U32>, restBlocks: seq<seq<Byte>>)
    requires start <= end < TwoTo31 && end == start + |b|
    requires BlockLengths([end] + restEnds) == Sizes(restBlocks)
    ensures BlockLengths([start] + ([end] + restEnds)) == Sizes([b] + restBlocks)
  {
    BlockLengthsCons(start, [end] + restEnds);
    BlockLengthExact(start, end);
    SizesCons(b, restBlocks);
  }

  // ---- The value blocks ----

  /** The value region is its blocks, one after another. */
  lemma {:induction false} ValueRegionConcat(pos: nat, values: seq<Text>)
    ensures ValueRegion(pos, values) == Concat(ValueBlocks(pos, values))
    decreases |values|
  {
    if |values| > 0 {
      var b := ValueBlock(pos, values[0]);
      ValueRegionConcat(pos + |b|, values[1..]);
      assert ValueBlocks(pos, values)[1..] == ValueBlocks(pos + |b|, values[1..]);
    }
  }

  /** Every length is its block's size but the last, which may be larger. */
  predicate LastMayRunOver(lengths: seq<int>, blocks: seq<seq<Byte>>) {
    && |lengths| == |blocks| > 0
    && (forall i :: 0 <= i < |blocks| - 1 ==> lengths[i] == |blocks[i]|)
    && lengths[|blocks| - 1] >= |blocks[|blocks| - 1]|
  }

  /** Lengths that run over only at the end of the stream fit. */
  lemma RunOverFits(s: seq<Byte>, pos: nat, blocks: seq<seq<Byte>>, lengths: seq<int>)
    requires LastMayRunOver(lengths, blocks) && pos + |Concat(blocks)| == |s|
    ensures LengthsFit(s, pos, blocks, lengths)
  {
  }

  lemma RunOverCons(len: int, b: seq<Byte>, lengths: seq<int>, blocks: seq<seq<Byte>>)
    requires len == |b| && LastMayRunOver(lengths, blocks)
    ensures LastMayRunOver([len] + lengths, [b] + blocks)
  {
    var l := [len] + lengths;
    var bs := [b] + blocks;
    forall i | 0 <= i < |bs| - 1
      ensures l[i] == |bs[i]|
    {
      if i > 0 {
        assert l[i] == lengths[i - 1] && bs[i] == blocks[i - 1];
      }
    }
  }

  /** The value lengths the decoder computes: between consecutive string
      offsets, and from the last offset to the end of the stream. */
  function ValueLengths(cur: U32, values: seq<Text>, end: nat): (r: seq<int>)
  {
    BlockLengths(StringOffsetRun(cur, values)[..|values|] + [ToU32(end)])
  }

  /** With the string offsets starting at a position of the same parity as
      the value blocks, and nothing beyond 2^31, every value length is its
      block's size except the last, which reaches to the end of the stream. */
  lemma {:induction false} ValueLengthsOf(cur: U32, pos: nat, values: seq<Text>, end: nat)
    requires |values| > 0 && cur % 2 == pos % 2 && cur <= pos
    requires pos + |ValueRegion(pos, values)| == end < TwoTo31
    ensures LastMayRunOver(ValueLengths(cur, values, end), ValueBlocks(pos, values))
    decreases |values|
  {
    var b := ValueBlock(pos, values[0]);
    var next := NextStringOffset(cur, values[0]);
    ValueHead(cur, pos, values, end, b, next);
    if |values| == 1 {
      ValueLengthsLast(cur, pos, values, end, b);
    } else {
      ValueLengthsOf(next, pos + |b|, values[1..], end);
      ValueLengthsStep(cur, next, b, values, end);
      RunOverCons(|b|, b, ValueLengths(next, values[1..], end), ValueBlocks(pos + |b|, values[1..]));
    }
  }

  /** The first value: its block, and where the offsets and positions go next. */
  lemma ValueHead(cur: U32, pos: nat, values: seq<Text>, end: nat, b: seq<Byte>, next: U32)
    requires |values| > 0 && cur % 2 == pos % 2 && cur <= pos
    requires b == ValueBlock(pos, values[0]) && next == NextStringOffset(cur, values[0])
    requires pos + |ValueRegion(pos, values)| == end < TwoTo31
    ensures next == cur + |b| && next <= pos + |b| && next % 2 == (pos + |b|) % 2
    ensures pos + |b| + |ValueRegion(pos + |b|, values[1..])| == end
    ensures ValueBlocks(pos, values) == [b] + ValueBlocks(pos + |b|, values[1..])
    ensures StringOffsetRun(cur, values) == [cur] + StringOffsetRun(next, values[1..])
  {
    ValueRegionCons(pos, values, b);
    ValueOffsetStep(cur, pos, values[0], b, next);
    ValueBlocksCons(pos, values);
    StringOffsetRunCons(cur, values);
  }

  lemma ValueRegionCons(pos: nat, values: seq<Text>, b: seq<Byte>)
    requires |values| > 0 && b == ValueBlock(pos, values[0])
    ensures ValueRegion(pos, values) == b + ValueRegion(pos + |b|, values[1..])
  {
  }

  /** With offset and position of the same parity, the next string offset is
      the offset advanced by the block's size. */
  lemma ValueOffsetStep(cur: U32, pos: nat, v: Text, b: seq<Byte>, next: U32)
    requires cur % 2 == pos % 2 && cur <= pos && pos + |b| < TwoTo31
    requires b == ValueBlock(pos, v) && next == NextStringOffset(cur, v)
    ensures next == cur + |b| && next <= pos + |b| && next % 2 == (pos + |b|) % 2
  {
    NextIsSum(cur, pos, v, b, next);
    var half := BlockHalf(pos, v, b);
    SameParityAfter(cur, pos, |b|, half);
  }

  lemma NextIsSum(cur: U32, pos: nat, v: Text, b: seq<Byte>, next: U32)
    requires cur % 2 == pos % 2 && cur <= pos && pos + |b| < TwoTo31
    requires b == ValueBlock(pos, v) && next == NextStringOffset(cur, v)
    ensures next == cur + |b|
  {
    NextOffsetTracksBlock(cur, pos, v);
  }

  lemma BlockHalf(pos: nat, v: Text, b: seq<Byte>) returns (half: nat)
    requires b == ValueBlock(pos, v)
    ensures |b| == 2 * half
  {
    half := |v| + CalculatePadding(pos, |v|, 2);
  }

  lemma SameParityAfter(a: int, b: int, size: int, half: int)
    requires a % 2 == b % 2 && size == 2 * half
    ensures (a + size) % 2 == (b + size) % 2
  {
    assert a + size == (a % 2) + 2 * (a / 2 + half);
    assert b + size == (b % 2) + 2 * (b / 2 + half);
  }

  lemma ValueLengthsLast(cur: U32, pos: nat, values: seq<Text>, end: nat, b: seq<Byte>)
    requires |values| == 1 && cur <= pos && b == ValueBlock(pos, values[0])
    requires pos + |b| == end < TwoTo31
    requires ValueBlocks(pos, values) == [b] + ValueBlocks(pos + |b|, values[1..])
    ensures LastMayRunOver(ValueLengths(cur, values, end), ValueBlocks(pos, values))
  {
    assert StringOffsetRun(cur, values)[..1] + [ToU32(end)] == [cur, end];
    BlockLengthExact(cur, end);
  }

  lemma ValueLengthsStep(cur: U32, next: U32, b: seq<Byte>, values: seq<Text>, end: nat)
    requires |values| > 1 && next == cur + |b| < TwoTo31
    requires StringOffsetRun(cur, values) == [cur] + StringOffsetRun(next, values[1..])
    ensures ValueLengths(cur, values, end) == [|b|] + ValueLengths(next, values[1..], end)
  {
    var rest := StringOffsetRun(next, values[1..])[..|values| - 1] + [ToU32(end)];
    assert StringOffsetRun(cur, values)[..|values|] + [ToU32(end)] == [cur] + rest;
    BlockLengthsCons(cur, rest);
    BlockLengthExact(cur, next);
  }

  // ---- Decoding the blocks ----

  /** `block` is the ASCII bytes of `key` followed by zeros. */
  predicate KeyPadded(block: seq<Byte>, key: Text) {
    |block| >= |key| && block == AsciiEncode(key) + Zeros(|block| - |key|)
  }

  /** Every key block is its key's bytes followed by zeros. */
  lemma {:induction false} KeyBlocksPadded(pos: nat, keys: seq<Text>)
    ensures forall i :: 0 <= i < |keys| ==> KeyPadded(KeyBlocks(pos, keys)[i], keys[i])
    decreases |keys|
  {
    if |keys| > 0 {
      var b := KeyBlock(pos, keys[0]);
      KeyBlocksPadded(pos + |b|, keys[1..]);
      KeyBlocksCons(pos, keys, b);
      KeyPaddedCons(b, KeyBlocks(pos + |b|, keys[1..]), KeyBlocks(pos, keys), keys);
    }
  }

  lemma KeyBlocksCons(pos: nat, keys: seq<Text>, b: seq<Byte>)
    requires |keys| > 0 && b == KeyBlock(pos, keys[0])
    ensures KeyBlocks(pos, keys) == [b] + KeyBlocks(pos + |b|, keys[1..])
  {
  }

  lemma KeyPaddedCons(b: seq<Byte>, restBlocks: seq<seq<Byte>>, blocks: seq<seq<Byte>>, keys: seq<Text>)
    requires blocks == [b] + restBlocks && |keys| == |blocks|
    requires KeyPadded(b, keys[0])
    requires forall i :: 0 <= i < |keys| - 1 ==> KeyPadded(restBlocks[i], keys[1..][i])
    ensures forall i :: 0 <= i < |keys| ==> KeyPadded(blocks[i], keys[i])
  {
    forall i | 1 <= i < |keys|
      ensures KeyPadded(blocks[i], keys[i])
    {
      assert blocks[i] == restBlocks[i - 1] && keys[i] == keys[1..][i - 1];
    }
  }

  /** A padded key block decodes to its key when the key is ASCII with no NUL at either end. */
  lemma DecodeKeyOf(block: seq<Byte>, key: Text)
    requires IsAscii(key) && NulFreeEnds(key) && KeyPadded(block, key)
    ensures DecodeKey(block) == key
  {
    var n := |block| - |key|;
    AsciiDecodeOfPadding(key, n);
    TrimOfPadding(key, n);
  }

  /** The key blocks decode to the keys. */
  lemma DecodeKeysOf(pos: nat, keys: seq<Text>)
    requires forall i :: 0 <= i < |keys| ==> IsAscii(keys[i]) && NulFreeEnds(keys[i])
    ensures DecodeKeys(KeyBlocks(pos, keys)) == keys
  {
    var blocks := KeyBlocks(pos, keys);
    KeyBlocksPadded(pos, keys);
    forall i | 0 <= i < |keys|
      ensures DecodeKeys(blocks)[i] == keys[i]
    {
      DecodeKeyOf(blocks[i], keys[i]);
    }
  }

  /** `block` is the UTF-16 bytes of `value` followed by an even number of zeros. */
  predicate ValuePadded(block: seq<Byte>, value: Text) {
    |block| >= 2 * |value| && block == Utf16Encode(value) + Zeros(2 * ((|block| - 2 * |value|) / 2))
  }

  /** Every value block is its value's bytes followed by zeros. */
  lemma {:induction false} ValueBlocksPadded(pos: nat, values: seq<Text>)
    ensures forall k :: 0 <= k < |values| ==> ValuePadded(ValueBlocks(pos, values)[k], values[k])
    decreases |values|
  {
    if |values| > 0 {
      var b := ValueBlock(pos, values[0]);
      ValueBlocksPadded(pos + |b|, values[1..]);
      ValueBlocksCons(pos, values);
      ValuePaddedCons(b, ValueBlocks(pos + |b|, values[1..]), ValueBlocks(pos, values), values);
    }
  }

  lemma ValuePaddedCons(b: seq<Byte>, restBlocks: seq<seq<Byte>>, blocks: seq<seq<Byte>>, values: seq<Text>)
    requires blocks == [b] + restBlocks && |values| == |blocks|
    requires ValuePadded(b, values[0])
    requires forall k :: 0 <= k < |values| - 1 ==> ValuePadded(restBlocks[k], values[1..][k])
    ensures forall k :: 0 <= k < |values| ==> ValuePadded(blocks[k], values[k])
  {
    forall k | 1 <= k < |values|
      ensures ValuePadded(blocks[k], values[k])
    {
      assert blocks[k] == restBlocks[k - 1] && values[k] == values[1..][k - 1];
    }
  }

  /** A padded value block decodes to its value, escaped, when the value has
      no NUL at either end. */
  lemma DecodeValueOf(block: seq<Byte>, value: Text)
    requires NulFreeEnds(value) && ValuePadded(block, value)
    ensures DecodeValue(block) == SerializeEscapeCharacters(value)
  {
    var n := (|block| - 2 * |value|) / 2;
    Utf16DecodeOfPadding(value, n);
    TrimOfPadding(value, n);
  }

  /** Every text escaped. */
  function SerializeAll(values: seq<Text>): (r: seq<Text>)
    ensures |r| == |values|
    ensures forall k :: 0 <= k < |values| ==> r[k] == SerializeEscapeCharacters(values[k])
  {
    seq(|values|, k requires 0 <= k < |values| => SerializeEscapeCharacters(values[k]))
  }

  /** The value blocks decode to the values, escaped. */
  lemma DecodeValuesOf(pos: nat, values: seq<Text>)
    requires forall k :: 0 <= k < |values| ==> NulFreeEnds(values[k])
    ensures DecodeValues(ValueBlocks(pos, values)) == SerializeAll(values)
  {
    var blocks := ValueBlocks(pos, values);
    ValueBlocksPadded(pos, values);
    forall k | 0 <= k < |values|
      ensures DecodeValues(blocks)[k] == SerializeAll(values)[k]
    {
      DecodeValueOf(blocks[k], values[k]);
    }
  }
}
