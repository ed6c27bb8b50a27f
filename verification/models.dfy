/**
 The three entities of a BTXT file. A file owns an ordered list of labels; a
 label owns an ordered list of strings. Flattening the labels' strings in order
 gives the global string order that the offset table and the value blocks use.
 */
module Models {
  import opened Bytes
  import opened Text

  /** One text entry: a 32-bit identifier and its value. */
  datatype BtxtString = BtxtString(id: U32, value: Text)

  /** A named group of strings. The offsets are the label's key block bounds as
      the decoder found them; the encoder writes them back unchanged. */
  datatype BtxtLabel = BtxtLabel(key: Text, values: seq<BtxtString>, startOffset: U32, endOffset: U32)

  /** The declared counts are stored, not derived: nothing forces them to
      agree with the label list. */
  datatype BtxtFile = BtxtFile(numberOfLabels: U32, numberOfStrings: U32, labels: seq<BtxtLabel>)

  /** All strings of all labels, label by label (`SelectMany`). */
  function AllStrings(labels: seq<BtxtLabel>): (r: seq<BtxtString>)
    ensures |labels| > 0 ==> |r| >= |labels[0].values|
  {
    if |labels| == 0 then [] else labels[0].values + AllStrings(labels[1..])
  }

  lemma {:induction false} AllStringsAppend(a: seq<BtxtLabel>, b: seq<BtxtLabel>)
    ensures AllStrings(a + b) == AllStrings(a) + AllStrings(b)
    decreases |a|
  {
    if |a| == 0 {
      assert a + b == b;
    } else {
      assert (a + b)[1..] == a[1..] + b;
      AllStringsAppend(a[1..], b);
    }
  }

  function Keys(labels: seq<BtxtLabel>): (r: seq<Text>)
    ensures |r| == |labels|
    ensures forall i :: 0 <= i < |labels| ==> r[i] == labels[i].key
  {
    seq(|labels|, i requires 0 <= i < |labels| => labels[i].key)
  }

  function Ids(values: seq<BtxtString>): (r: seq<U32>)
    ensures |r| == |values|
    ensures forall i :: 0 <= i < |values| ==> r[i] == values[i].id
  {
    seq(|values|, i requires 0 <= i < |values| => values[i].id)
  }

  /** The identifiers of each label, label by label. */
  function IdLists(labels: seq<BtxtLabel>): (r: seq<seq<U32>>)
    ensures |r| == |labels|
    ensures forall i :: 0 <= i < |labels| ==> r[i] == Ids(labels[i].values)
  {
    seq(|labels|, i requires 0 <= i < |labels| => Ids(labels[i].values))
  }

  function ValueTexts(values: seq<BtxtString>): (r: seq<Text>)
    ensures |r| == |values|
    ensures forall i :: 0 <= i < |values| ==> r[i] == values[i].value
  {
    seq(|values|, i requires 0 <= i < |values| => values[i].value)
  }

  lemma ValueTextsAppend(a: seq<BtxtString>, b: seq<BtxtString>)
    ensures ValueTexts(a + b) == ValueTexts(a) + ValueTexts(b)
  {
  }

  lemma LabelCons(first: BtxtLabel, rest: seq<BtxtLabel>)
    ensures IdLists([first] + rest) == [Ids(first.values)] + IdLists(rest)
    ensures Keys([first] + rest) == [first.key] + Keys(rest)
    ensures AllStrings([first] + rest) == first.values + AllStrings(rest)
  {
    AllStringsCons(first, rest);
    KeysCons(first, rest);
    IdListsCons(first, rest);
  }

  lemma AllStringsCons(first: BtxtLabel, rest: seq<BtxtLabel>)
    ensures AllStrings([first] + rest) == first.values + AllStrings(rest)
  {
    assert ([first] + rest)[1..] == rest;
  }

  lemma KeysCons(first: BtxtLabel, rest: seq<BtxtLabel>)
    ensures Keys([first] + rest) == [first.key] + Keys(rest)
  {
    var r := [first] + rest;
    assert forall i :: 1 <= i < |r| ==> r[i] == rest[i - 1];
  }

  lemma IdListsCons(first: BtxtLabel, rest: seq<BtxtLabel>)
    ensures IdLists([first] + rest) == [Ids(first.values)] + IdLists(rest)
  {
    var r := [first] + rest;
    assert forall i :: 1 <= i < |r| ==> r[i] == rest[i - 1];
  }
}
