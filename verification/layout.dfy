/**
 Byte-layout facts shared by the BTXT decoder and encoder: the magic header,
 the label metadata section, and the signed 32-bit arithmetic the decoder uses
 to turn two offsets into a block length.
 */
module Layout {
  import opened Bytes
  import opened Models

  /** The eight bytes every BTXT file starts with. */
  const BtxtHeader: seq<Byte> := [0x00, 0x00, 0x00, 0x00, 0x24, 0x10, 0x12, 0xFF]

  /** The number of identifiers in a list of identifier lists. */
  function TotalIds(ids: seq<seq<U32>>): nat
  {
    if |ids| == 0 then 0 else |ids[0]| + TotalIds(ids[1..])
  }

  lemma {:induction false} TotalIdsOfLabels(labels: seq<BtxtLabel>)
    ensures TotalIds(IdLists(labels)) == |AllStrings(labels)|
    decreases |labels|
  {
    if |labels| > 0 {
      assert IdLists(labels)[1..] == IdLists(labels[1..]);
      TotalIdsOfLabels(labels[1..]);
    }
  }

  /** The words of the label metadata section: per label, its string count
      as a 32-bit word, then its identifiers. */
  function MetadataWords(ids: seq<seq<U32>>): (r: seq<U32>)
    ensures |r| == |ids| + TotalIds(ids)
  {
    if |ids| == 0 then [] else [ToU32(|ids[0]|)] + ids[0] + MetadataWords(ids[1..])
  }

  /** The label metadata section as bytes. */
  function MetadataBytes(ids: seq<seq<U32>>): (r: seq<Byte>)
    ensures |r| == 4 * (|ids| + TotalIds(ids))
  {
    WordsBytes(MetadataWords(ids))
  }

  /** The section is the first label's count and identifiers, then the rest. */
  lemma MetadataBytesCons(ids: seq<seq<U32>>)
    requires |ids| > 0
    ensures MetadataBytes(ids) == LE32(ToU32(|ids[0]|)) + WordsBytes(ids[0]) + MetadataBytes(ids[1..])
  {
    var head := [ToU32(|ids[0]|)];
    WordsBytesAppend(head + ids[0], MetadataWords(ids[1..]));
    WordsBytesAppend(head, ids[0]);
    assert WordsBytes(head) == LE32(head[0]) + WordsBytes([]);
  }

  /** The result of unchecked 32-bit signed arithmetic whose exact value is `x`. */
  function Wrap32(x: int): (r: int)
    ensures -TwoTo31 <= r < TwoTo31
    ensures (r - x) % TwoTo32 == 0
    ensures -TwoTo31 <= x < TwoTo31 ==> r == x
  {
    Signed32(x % TwoTo32)
  }

  /** `(int)end - (int)start`, as the decoder computes a block's length. */
  function BlockLength(start: U32, end: U32): int
  {
    Wrap32(Signed32(end) - Signed32(start))
  }

  /** Offsets below 2^31 in order give their plain difference. */
  lemma BlockLengthExact(start: U32, end: U32)
    requires start <= end < TwoTo31
    ensures BlockLength(start, end) == end - start
  {
  }

  /** Offsets below 2^31 out of order give a negative length. */
  lemma BlockLengthNegative(start: U32, end: U32)
    requires end < start < TwoTo31
    ensures BlockLength(start, end) < 0
  {
  }

  /** In general the length is the 32-bit difference read as two's complement. */
  lemma BlockLengthModular(start: U32, end: U32)
    ensures BlockLength(start, end) == Signed32((end - start) % TwoTo32)
  {
    var d := Signed32(end) - Signed32(start);
    assert (d - (end - start)) % TwoTo32 == 0;
    assert d % TwoTo32 == (end - start) % TwoTo32;
  }
}
