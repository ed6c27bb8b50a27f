/**
 .NET strings as sequences of UTF-16 code units, the NUL trimming of
 `string.Trim('\0')`, and the two charsets the BTXT codec transcodes with:
 `Encoding.ASCII` for label keys and `Encoding.Unicode` (UTF-16 little-endian)
 for string values.
 */
module Text {
  import opened Bytes

  type CodeUnit = c: int | 0 <= c < 0x1_0000
  type Text = seq<CodeUnit>

  const Nul: CodeUnit := 0
  const LineFeed: CodeUnit := 10
  const CarriageReturn: CodeUnit := 13
  const QuestionMark: CodeUnit := 63
  const Backslash: CodeUnit := 92
  const LowerN: CodeUnit := 110
  const LowerR: CodeUnit := 114
  const ReplacementCharacter: CodeUnit := 0xFFFD

  predicate IsAscii(t: Text) {
    forall i :: 0 <= i < |t| ==> t[i] < 0x80
  }

  predicate IsHighSurrogate(c: CodeUnit) {
    0xD800 <= c < 0xDC00
  }

  predicate IsLowSurrogate(c: CodeUnit) {
    0xDC00 <= c < 0xE000
  }

  /** Every surrogate code unit is half of a high-low pair: the texts that
      `Encoding.Unicode` transcodes without putting U+FFFD in place of a
      lone surrogate. */
  predicate WellFormedUtf16(t: Text) {
    && (|t| == 0 || (!IsLowSurrogate(t[0]) && !IsHighSurrogate(t[|t| - 1])))
    && (forall i :: 0 <= i < |t| - 1 ==> (IsHighSurrogate(t[i]) <==> IsLowSurrogate(t[i + 1])))
  }

  /** Neither the first nor the last code unit is NUL. */
  predicate NulFreeEnds(t: Text) {
    |t| == 0 || (t[0] != Nul && t[|t| - 1] != Nul)
  }

  /** `n` NUL code units. */
  function NulRun(n: nat): (r: Text)
    ensures |r| == n
    ensures forall i :: 0 <= i < n ==> r[i] == Nul
  {
    seq(n, _ => Nul)
  }

  /** Drops the leading NULs: what remains is a suffix that does not start with NUL. */
  function TrimStart(t: Text): (r: Text)
    ensures |r| <= |t| && r == t[|t| - |r|..]
    ensures forall i :: 0 <= i < |t| - |r| ==> t[i] == Nul
    ensures |r| == 0 || r[0] != Nul
  {
    if |t| > 0 && t[0] == Nul then TrimStart(t[1..]) else t
  }

  /** Drops the trailing NULs: what remains is a prefix that does not end with NUL. */
  function TrimEnd(t: Text): (r: Text)
    ensures |r| <= |t| && r == t[..|r|]
    ensures forall i :: |r| <= i < |t| ==> t[i] == Nul
    ensures |r| == 0 || r[|r| - 1] != Nul
  {
    if |t| > 0 && t[|t| - 1] == Nul then TrimEnd(t[..|t| - 1]) else t
  }

  /** `string.Trim('\0')`: the longest slice of `t` with no NUL at either end,
      obtained by removing only NULs. */
  function Trim(t: Text): (r: Text)
    ensures NulFreeEnds(r)
    ensures |TrimStart(t)| >= |r|
    ensures forall i :: 0 <= i < |r| ==> r[i] == t[|t| - |TrimStart(t)| + i]
    ensures forall i :: 0 <= i < |t| - |TrimStart(t)| ==> t[i] == Nul
    ensures forall i :: |t| - |TrimStart(t)| + |r| <= i < |t| ==> t[i] == Nul
  {
    TrimKeepsNoNulEnds(t);
    TrimKeepsSlice(t);
    TrimEnd(TrimStart(t))
  }

  lemma TrimKeepsNoNulEnds(t: Text)
    ensures NulFreeEnds(TrimEnd(TrimStart(t)))
  {
    var s := TrimStart(t);
    var r := TrimEnd(s);
    assert |r| > 0 ==> r[0] == s[0];
  }

  lemma TrimKeepsSlice(t: Text)
    ensures var s := TrimStart(t); var r := TrimEnd(s);
      && (forall i :: 0 <= i < |r| ==> r[i] == t[|t| - |s| + i])
      && (forall i :: |t| - |s| + |r| <= i < |t| ==> t[i] == Nul)
  {
    var s := TrimStart(t);
    var r := TrimEnd(s);
    TrimKeepsSliceFront(t, s, r);
    TrimKeepsSliceBack(t, s, r);
  }

  lemma TrimKeepsSliceFront(t: Text, s: Text, r: Text)
    requires |s| <= |t| && s == t[|t| - |s|..]
    requires |r| <= |s| && r == s[..|r|]
    ensures forall i :: 0 <= i < |r| ==> r[i] == t[|t| - |s| + i]
  {
    var a := |t| - |s|;
    forall i | 0 <= i < |r|
      ensures r[i] == t[a + i]
    {
      assert r[i] == s[i];
    }
  }

  lemma TrimKeepsSliceBack(t: Text, s: Text, r: Text)
    requires |s| <= |t| && s == t[|t| - |s|..]
    requires forall i :: |r| <= i < |s| ==> s[i] == Nul
    ensures forall i :: |t| - |s| + |r| <= i < |t| ==> t[i] == Nul
  {
    var a := |t| - |s|;
    forall i | a + |r| <= i < |t|
      ensures t[i] == Nul
    {
      assert t[i] == s[i - a];
    }
  }

  lemma TrimKeepsAscii(t: Text)
    requires IsAscii(t)
    ensures IsAscii(Trim(t))
  {
    var s := TrimStart(t);
    forall i | 0 <= i < |s|
      ensures s[i] < 0x80
    {
      assert s[i] == t[|t| - |s|..][i];
    }
    var r := TrimEnd(s);
    forall i | 0 <= i < |r|
      ensures r[i] < 0x80
    {
      assert r[i] == s[..|r|][i];
    }
  }

  lemma {:induction false} TrimStartKeeps(t: Text)
    requires |t| == 0 || t[0] != Nul
    ensures TrimStart(t) == t
  {
  }

  lemma {:induction false} TrimEndOfPadding(t: Text, n: nat)
    requires |t| == 0 || t[|t| - 1] != Nul
    ensures TrimEnd(t + NulRun(n)) == t
    decreases n
  {
    if n > 0 {
      var u := t + NulRun(n);
      assert u[..|u| - 1] == t + NulRun(n - 1);
      TrimEndOfPadding(t, n - 1);
    } else {
      assert t + NulRun(0) == t;
    }
  }

  /** Trimming undoes zero padding of a text that has no NUL at its ends. */
  lemma TrimOfPadding(t: Text, n: nat)
    requires NulFreeEnds(t)
    ensures Trim(t + NulRun(n)) == t
  {
    var u := t + NulRun(n);
    if |t| == 0 {
      assert u == NulRun(n);
      if n > 0 {
        assert TrimStart(u) == [];
      }
    } else {
      TrimStartKeeps(u);
      TrimEndOfPadding(t, n);
    }
  }

  /** `Encoding.ASCII.GetString`: bytes above 0x7F become '?'. */
  function AsciiDecode(b: seq<Byte>): (r: Text)
    ensures |r| == |b|
    ensures IsAscii(r)
  {
    seq(|b|, i requires 0 <= i < |b| => if b[i] < 0x80 then b[i] as CodeUnit else QuestionMark)
  }

  /** `Encoding.ASCII.GetBytes`, modelled as one byte per code unit with every
      non-ASCII code unit becoming '?'. The .NET encoder writes a single '?'
      for a valid surrogate pair, so for a key holding one it writes one byte
      fewer than this model; the model agrees with it on every key without
      surrogates. */
  function AsciiEncode(t: Text): (r: seq<Byte>)
    ensures |r| == |t|
    ensures forall i :: 0 <= i < |t| ==> r[i] < 0x80
    ensures IsAscii(t) ==> AsciiDecode(r) == t
  {
    seq(|t|, i requires 0 <= i < |t| => if t[i] < 0x80 then t[i] as Byte else QuestionMark as Byte)
  }

  lemma AsciiDecodeOfPadding(t: Text, n: nat)
    requires IsAscii(t)
    ensures AsciiDecode(AsciiEncode(t) + Zeros(n)) == t + NulRun(n)
  {
    var d := AsciiDecode(AsciiEncode(t) + Zeros(n));
    assert forall i :: 0 <= i < |t| ==> d[i] == t[i];
    assert forall i :: |t| <= i < |t| + n ==> d[i] == Nul;
  }

  /** `Encoding.Unicode.GetBytes`: each code unit as two bytes, low byte
      first. A lone surrogate is written as it is; the .NET encoder writes
      U+FFFD in its place. */
  function Utf16Encode(t: Text): (r: seq<Byte>)
    ensures |r| == 2 * |t|
  {
    if |t| == 0 then [] else LE16(t[0]) + Utf16Encode(t[1..])
  }

  /** `Encoding.Unicode.GetString`: bytes paired low byte first; a lone
      trailing byte decodes to U+FFFD. A lone surrogate code unit is kept as
      it is; the .NET decoder yields U+FFFD in its place. */
  function Utf16Decode(b: seq<Byte>): (r: Text)
    ensures |r| == (|b| + 1) / 2
  {
    if |b| == 0 then []
    else if |b| == 1 then [ReplacementCharacter]
    else [FromLE16(b[..2])] + Utf16Decode(b[2..])
  }

  lemma Utf16DecodeCons(c: CodeUnit, x: seq<Byte>)
    ensures Utf16Decode(LE16(c) + x) == [c] + Utf16Decode(x)
  {
    var b := LE16(c) + x;
    assert b[..2] == LE16(c) && b[2..] == x;
  }

  /** Decoding the encoding of `t` followed by more bytes yields `t` followed
      by the decoding of those bytes. */
  lemma {:induction false} Utf16DecodeAppend(t: Text, rest: seq<Byte>)
    ensures Utf16Decode(Utf16Encode(t) + rest) == t + Utf16Decode(rest)
    decreases |t|
  {
    if |t| == 0 {
      assert Utf16Encode(t) + rest == rest;
    } else {
      var x := Utf16Encode(t[1..]) + rest;
      assert Utf16Encode(t) + rest == LE16(t[0]) + x;
      Utf16DecodeCons(t[0], x);
      Utf16DecodeAppend(t[1..], rest);
      assert t == [t[0]] + t[1..];
    }
  }

  lemma {:induction false} Utf16DecodeZeros(n: nat)
    ensures Utf16Decode(Zeros(2 * n)) == NulRun(n)
    decreases n
  {
    if n > 0 {
      assert Zeros(2 * n)[2..] == Zeros(2 * (n - 1));
      assert Zeros(2 * n)[..2] == [0, 0];
      Utf16DecodeZeros(n - 1);
    }
  }

  lemma Utf16DecodeOfPadding(t: Text, n: nat)
    ensures Utf16Decode(Utf16Encode(t) + Zeros(2 * n)) == t + NulRun(n)
  {
    Utf16DecodeAppend(t, Zeros(2 * n));
    Utf16DecodeZeros(n);
  }
}
