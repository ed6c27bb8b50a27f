/**
 Bytes and the fixed-width little-endian integers that .NET's BinaryReader and
 BinaryWriter read and write, together with the unchecked integer casts the
 BTXT codec applies to them.
 */
module Bytes {

  type Byte = b: int | 0 <= b < 0x100
  type U16 = n: int | 0 <= n < 0x1_0000
  type U32 = n: int | 0 <= n < 0x1_0000_0000

  const TwoTo16: int := 0x1_0000
  const TwoTo32: int := 0x1_0000_0000
  const TwoTo31: int := 0x8000_0000

  /** The two bytes of `n`, least significant first. */
  function LE16(n: U16): (r: seq<Byte>)
    ensures |r| == 2
    ensures FromLE16(r) == n
  {
    [n % 0x100, n / 0x100]
  }

  function FromLE16(b: seq<Byte>): (n: U16)
    requires |b| == 2
  {
    b[0] as int + 0x100 * b[1] as int
  }

  /** The four bytes of `n`, least significant first. */
  function LE32(n: U32): (r: seq<Byte>)
    ensures |r| == 4
    ensures FromLE32(r) == n
  {
    var q1 := n / 0x100;
    var q2 := q1 / 0x100;
    var q3 := q2 / 0x100;
    assert q3 < 0x100;
    [n % 0x100, q1 % 0x100, q2 % 0x100, q3]
  }

  function FromLE32(b: seq<Byte>): (n: U32)
    requires |b| == 4
  {
    var b0, b1, b2, b3 := b[0] as int, b[1] as int, b[2] as int, b[3] as int;
    b0 + 0x100 * (b1 + 0x100 * (b2 + 0x100 * b3))
  }

  lemma DivModBase(x: int, q: int, r: int)
    requires 0 <= r < 0x100 && x == r + 0x100 * q
    ensures x % 0x100 == r && x / 0x100 == q
  {
  }

  /** Every two bytes are the encoding of the value they decode to. */
  lemma LE16OfFromLE16(b: seq<Byte>)
    requires |b| == 2
    ensures LE16(FromLE16(b)) == b
  {
    DivModBase(FromLE16(b), b[1], b[0]);
  }

  /** Every four bytes are the encoding of the value they decode to. */
  lemma LE32OfFromLE32(b: seq<Byte>)
    requires |b| == 4
    ensures LE32(FromLE32(b)) == b
  {
    var b0, b1, b2, b3 := b[0] as int, b[1] as int, b[2] as int, b[3] as int;
    var m2 := b2 + 0x100 * b3;
    var m1 := b1 + 0x100 * m2;
    var n := b0 + 0x100 * m1;
    assert n == FromLE32(b);
    DivModBase(n, m1, b0);
    DivModBase(m1, m2, b1);
    DivModBase(m2, b3, b2);
  }

  /** The bytes of a sequence of 32-bit words, written one after another. */
  function WordsBytes(ws: seq<U32>): (r: seq<Byte>)
    ensures |r| == 4 * |ws|
  {
    if |ws| == 0 then [] else LE32(ws[0]) + WordsBytes(ws[1..])
  }

  /** Two neighbouring slices make up the slice over both. */
  lemma SliceJoin(s: seq<Byte>, a: nat, b: nat, c: nat)
    requires a <= b <= c <= |s|
    ensures s[a..c] == s[a..b] + s[b..c]
  {
  }

  lemma {:induction false} WordsBytesAppend(a: seq<U32>, b: seq<U32>)
    ensures WordsBytes(a + b) == WordsBytes(a) + WordsBytes(b)
    decreases |a|
  {
    if |a| == 0 {
      assert a + b == b;
    } else {
      assert (a + b)[1..] == a[1..] + b;
      WordsBytesAppend(a[1..], b);
    }
  }

  /** The blocks written one after another. */
  function Concat(blocks: seq<seq<Byte>>): (r: seq<Byte>)
  {
    if |blocks| == 0 then [] else blocks[0] + Concat(blocks[1..])
  }

  /** A run of `n` zero bytes, as `new byte[n]` gives. */
  function Zeros(n: nat): (r: seq<Byte>)
    ensures |r| == n
    ensures forall i :: 0 <= i < n ==> r[i] == 0
  {
    seq(n, _ => 0)
  }

  /** An unchecked `(uint)` cast of a non-negative 64-bit value keeps its low 32 bits. */
  function ToU32(n: nat): (r: U32)
    ensures n < TwoTo32 ==> r == n
    ensures (r - n) % TwoTo32 == 0
  {
    n % TwoTo32
  }

  /** An unchecked `(int)` cast of 32 bits reads them as two's complement. */
  function Signed32(n: U32): (r: int)
    ensures -TwoTo31 <= r < TwoTo31
    ensures (r - n) % TwoTo32 == 0
    ensures r >= 0 <==> n < TwoTo31
  {
    if n < TwoTo31 then n else n - TwoTo32
  }
}
