/**
 The escape helpers of the BTXT adapter. On reading, raw carriage returns and
 line feeds in a value become the two-character sequences backslash-r and
 backslash-n; on writing, those sequences become control characters again.
 Both are written in the source as two chained ordinal `string.Replace` calls.

 `Escaped` and `Unescaped` are independent single-pass reference definitions;
 the lemmas below show that the chained replacements compute them, and derive
 the round-trip laws from them.
 */
module Escape {
  import opened Text

  /** Ordinal `string.Replace(pattern, replacement)`: scanning from the left,
      every occurrence of `pattern` that does not overlap an earlier one is
      replaced. */
  function Replace(s: Text, pattern: Text, replacement: Text): Text
    requires |pattern| > 0
    decreases |s|
  {
    if |s| < |pattern| then s
    else if s[..|pattern|] == pattern then replacement + Replace(s[|pattern|..], pattern, replacement)
    else [s[0]] + Replace(s[1..], pattern, replacement)
  }

  /** Applied to every value the decoder reads. */
  function SerializeEscapeCharacters(s: Text): Text {
    Replace(Replace(s, [CarriageReturn], [Backslash, LowerR]), [LineFeed], [Backslash, LowerN])
  }

  /** Applied by the encoder to every value before it is measured and written. */
  function DeserializeEscapeCharacters(s: Text): Text {
    Replace(Replace(s, [Backslash, LowerR], [CarriageReturn]), [Backslash, LowerN], [LineFeed])
  }

  predicate NoLineBreaks(s: Text) {
    forall i :: 0 <= i < |s| ==> s[i] != CarriageReturn && s[i] != LineFeed
  }

  /** No backslash is immediately followed by 'r' or 'n'. */
  predicate NoEscapePairs(s: Text) {
    forall i :: 0 <= i < |s| - 1 && s[i] == Backslash ==> s[i + 1] != LowerR && s[i + 1] != LowerN
  }

  /** Reference definition of escaping: each code unit independently. */
  function EscapeUnit(c: CodeUnit): Text {
    if c == CarriageReturn then [Backslash, LowerR]
    else if c == LineFeed then [Backslash, LowerN]
    else [c]
  }

  function Escaped(s: Text): Text {
    if |s| == 0 then [] else EscapeUnit(s[0]) + Escaped(s[1..])
  }

  /** Reference definition of unescaping: one pass from the left. */
  function Unescaped(s: Text): Text {
    if |s| >= 2 && s[0] == Backslash && s[1] == LowerR then [CarriageReturn] + Unescaped(s[2..])
    else if |s| >= 2 && s[0] == Backslash && s[1] == LowerN then [LineFeed] + Unescaped(s[2..])
    else if |s| == 0 then []
    else [s[0]] + Unescaped(s[1..])
  }

  // ---- Replace with a one-unit pattern is a map over code units ----

  lemma {:induction false} ReplaceUnitAppend(a: Text, b: Text, c: CodeUnit, rep: Text)
    ensures Replace(a + b, [c], rep) == Replace(a, [c], rep) + Replace(b, [c], rep)
    decreases |a|
  {
    if |a| == 0 {
      assert a + b == b;
    } else {
      assert (a + b)[..1] == a[..1];
      assert (a + b)[1..] == a[1..] + b;
      ReplaceUnitAppend(a[1..], b, c, rep);
    }
  }

  lemma {:induction false} EscapedAppend(a: Text, b: Text)
    ensures Escaped(a + b) == Escaped(a) + Escaped(b)
    decreases |a|
  {
    if |a| == 0 {
      assert a + b == b;
    } else {
      assert (a + b)[1..] == a[1..] + b;
      EscapedAppend(a[1..], b);
    }
  }

  /** The chained replacements of the reader escape each code unit on its own. */
  lemma {:induction false} SerializeIsEscaped(s: Text)
    ensures SerializeEscapeCharacters(s) == Escaped(s)
    decreases |s|
  {
    if |s| > 0 {
      var crRep: Text := [Backslash, LowerR];
      var lfRep: Text := [Backslash, LowerN];
      var head := if s[0] == CarriageReturn then crRep else [s[0]];
      assert Replace(s, [CarriageReturn], crRep) == head + Replace(s[1..], [CarriageReturn], crRep) by {
        assert s[..1] == [s[0]];
      }
      ReplaceUnitAppend(head, Replace(s[1..], [CarriageReturn], crRep), LineFeed, lfRep);
      assert Replace(head, [LineFeed], lfRep) == EscapeUnit(s[0]) by {
        if s[0] == CarriageReturn {
          assert head[..1] == [Backslash];
          assert head[1..][..1] == [LowerR];
          assert head[1..][1..] == [];
        } else {
          assert head[..1] == [s[0]];
          assert head[1..] == [];
        }
      }
      SerializeIsEscaped(s[1..]);
    }
  }

  // ---- Replace with a two-unit pattern, as Deserialize uses it ----

  /** A code unit that cannot start a match passes through unchanged. */
  lemma ReplaceConsNoMatch(c: CodeUnit, y: Text, pattern: Text, rep: Text)
    requires |pattern| == 2
    requires |y| == 0 || [c, y[0]] != pattern
    ensures Replace([c] + y, pattern, rep) == [c] + Replace(y, pattern, rep)
  {
    var s := [c] + y;
    assert s[1..] == y;
    if |y| > 0 {
      assert s[..2] == [c, y[0]];
    }
  }

  /** The first code unit of the result of replacing backslash-r. */
  lemma ReplaceBackslashRHead(t: Text)
    requires |t| > 0
    ensures var r := Replace(t, [Backslash, LowerR], [CarriageReturn]);
      |r| > 0 && (r[0] == CarriageReturn || r[0] == t[0])
  {
  }

  /** The chained replacements of the writer unescape in a single pass. */
  lemma {:induction false} DeserializeIsUnescaped(s: Text)
    ensures DeserializeEscapeCharacters(s) == Unescaped(s)
    decreases |s|
  {
    var pr: Text := [Backslash, LowerR];
    var pn: Text := [Backslash, LowerN];
    var cr: Text := [CarriageReturn];
    var lf: Text := [LineFeed];
    if |s| < 2 {
      if |s| == 1 {
        assert Unescaped(s) == [s[0]] + Unescaped([]);
      }
    } else if s[0] == Backslash && s[1] == LowerR {
      assert s[..2] == pr;
      var y := Replace(s[2..], pr, cr);
      assert Replace(s, pr, cr) == [CarriageReturn] + y;
      ReplaceConsNoMatch(CarriageReturn, y, pn, lf);
      DeserializeIsUnescaped(s[2..]);
    } else if s[0] == Backslash && s[1] == LowerN {
      assert s[..2] == pn;
      ReplaceConsNoMatch(Backslash, s[1..], pr, cr);
      ReplaceConsNoMatch(LowerN, s[2..], pr, cr);
      assert s[1..] == [LowerN] + s[2..];
      assert [Backslash] + s[1..] == s;
      var y := Replace(s[2..], pr, cr);
      assert Replace(s, pr, cr) == pn + y;
      assert (pn + y)[..2] == pn;
      assert (pn + y)[2..] == y;
      DeserializeIsUnescaped(s[2..]);
    } else {
      assert s[..2] == [s[0], s[1]];
      ReplaceConsNoMatch(s[0], s[1..], pr, cr);
      assert [s[0]] + s[1..] == s;
      var y := Replace(s[1..], pr, cr);
      ReplaceBackslashRHead(s[1..]);
      ReplaceConsNoMatch(s[0], y, pn, lf);
      DeserializeIsUnescaped(s[1..]);
    }
  }

  // ---- Properties of the reference definitions ----

  lemma {:induction false} EscapedHasNoLineBreaks(s: Text)
    ensures NoLineBreaks(Escaped(s))
    decreases |s|
  {
    if |s| > 0 {
      EscapedHasNoLineBreaks(s[1..]);
    }
  }

  lemma {:induction false} EscapedOfUnescaped(s: Text)
    requires NoLineBreaks(s)
    ensures Escaped(Unescaped(s)) == s
    decreases |s|
  {
    if |s| >= 2 && s[0] == Backslash && (s[1] == LowerR || s[1] == LowerN) {
      var c := if s[1] == LowerR then CarriageReturn else LineFeed;
      assert Unescaped(s) == [c] + Unescaped(s[2..]);
      EscapedAppend([c], Unescaped(s[2..]));
      EscapedOfUnescaped(s[2..]);
      assert s == [s[0], s[1]] + s[2..];
    } else if |s| > 0 {
      assert Unescaped(s) == [s[0]] + Unescaped(s[1..]);
      EscapedAppend([s[0]], Unescaped(s[1..]));
      EscapedOfUnescaped(s[1..]);
      assert s == [s[0]] + s[1..];
    }
  }

  lemma {:induction false} UnescapedOfEscaped(t: Text)
    requires NoEscapePairs(t)
    ensures Unescaped(Escaped(t)) == t
    decreases |t|
  {
    if |t| > 0 {
      var e := Escaped(t[1..]);
      assert NoEscapePairs(t[1..]) by {
        forall i | 0 <= i < |t[1..]| - 1 && t[1..][i] == Backslash
          ensures t[1..][i + 1] != LowerR && t[1..][i + 1] != LowerN
        {
          assert t[1..][i] == t[i + 1] && t[1..][i + 1] == t[i + 2];
        }
      }
      UnescapedOfEscaped(t[1..]);
      if t[0] == CarriageReturn || t[0] == LineFeed {
        var u := EscapeUnit(t[0]) + e;
        assert u[..2] == EscapeUnit(t[0]) && u[2..] == e;
      } else {
        assert |e| > 0 ==> e[0] == Backslash || e[0] == t[1] by {
          if |e| > 0 {
            assert e == EscapeUnit(t[1]) + Escaped(t[2..]);
          }
        }
        var u := [t[0]] + e;
        assert u[1..] == e;
      }
      assert t == [t[0]] + t[1..];
    }
  }

  lemma {:induction false} UnescapedEnds(s: Text)
    requires |s| > 0
    ensures var u := Unescaped(s);
      && |u| > 0
      && (u[0] == CarriageReturn || u[0] == LineFeed || u[0] == s[0])
      && (u[|u| - 1] == CarriageReturn || u[|u| - 1] == LineFeed || u[|u| - 1] == s[|s| - 1])
    decreases |s|
  {
    if |s| >= 2 && s[0] == Backslash && (s[1] == LowerR || s[1] == LowerN) {
      if |s| > 2 {
        UnescapedEnds(s[2..]);
      }
    } else if |s| > 1 {
      UnescapedEnds(s[1..]);
    }
  }

  lemma {:induction false} EscapedEnds(s: Text)
    requires |s| > 0
    ensures var e := Escaped(s);
      && |e| > 0
      && (e[0] == Backslash || e[0] == s[0])
      && (e[|e| - 1] == LowerR || e[|e| - 1] == LowerN || e[|e| - 1] == s[|s| - 1])
    decreases |s|
  {
    var e := Escaped(s);
    assert e == EscapeUnit(s[0]) + Escaped(s[1..]);
    if |s| > 1 {
      EscapedEnds(s[1..]);
    } else {
      assert Escaped(s[1..]) == [];
    }
  }

  // ---- The laws the adapter relies on ----

  /** A value the reader produces never holds a raw carriage return or line feed. */
  lemma SerializedHasNoLineBreaks(s: Text)
    ensures NoLineBreaks(SerializeEscapeCharacters(s))
  {
    SerializeIsEscaped(s);
    EscapedHasNoLineBreaks(s);
  }

  /** Unescaping and re-escaping restores any text free of raw line breaks. */
  lemma SerializeOfDeserialize(s: Text)
    requires NoLineBreaks(s)
    ensures SerializeEscapeCharacters(DeserializeEscapeCharacters(s)) == s
  {
    DeserializeIsUnescaped(s);
    SerializeIsEscaped(Unescaped(s));
    EscapedOfUnescaped(s);
  }

  /** Escaping and unescaping restores any text with no backslash-r or backslash-n pair. */
  lemma DeserializeOfSerialize(t: Text)
    requires NoEscapePairs(t)
    ensures DeserializeEscapeCharacters(SerializeEscapeCharacters(t)) == t
  {
    SerializeIsEscaped(t);
    DeserializeIsUnescaped(Escaped(t));
    UnescapedOfEscaped(t);
  }

  /** The pair restriction is needed: a literal backslash-r comes back as a carriage return. */
  lemma DeserializeOfSerializeNeedsNoPairs()
    ensures DeserializeEscapeCharacters(SerializeEscapeCharacters([Backslash, LowerR])) == [CarriageReturn]
  {
    var t: Text := [Backslash, LowerR];
    SerializeIsEscaped(t);
    assert Escaped(t) == t by {
      assert Escaped(t) == [Backslash] + Escaped([LowerR]);
      assert Escaped([LowerR]) == [LowerR] + Escaped([]);
    }
    DeserializeIsUnescaped(t);
    assert Unescaped(t) == [CarriageReturn] + Unescaped([]);
  }

  /** Unescaping cannot bring a NUL to either end of a text. */
  lemma DeserializeKeepsNulFreeEnds(s: Text)
    requires NulFreeEnds(s)
    ensures NulFreeEnds(DeserializeEscapeCharacters(s))
  {
    DeserializeIsUnescaped(s);
    if |s| > 0 {
      UnescapedEnds(s);
    }
  }

  /** Escaping cannot bring a NUL to either end of a text either. */
  lemma SerializeKeepsNulFreeEnds(s: Text)
    requires NulFreeEnds(s)
    ensures NulFreeEnds(SerializeEscapeCharacters(s))
  {
    SerializeIsEscaped(s);
    if |s| > 0 {
      EscapedEnds(s);
    }
  }
}
