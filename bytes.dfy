/**
 * Java primitive values and the big-endian byte codecs the engine uses to
 * lay integers out in pages, log records and files.
 *
 * A Java `byte` is stored here as its unsigned bit pattern 0..255; `Signed`
 * gives the value Java arithmetic sees. `int`, `short` and `long` are bounded
 * integers, and the casts `(short)`, `(int)` are the explicit wrap-arounds
 * `Wrap16`, `Wrap32`, `Wrap64`.
 */
module Bytes {

  type Byte = b: int | 0 <= b < 256

  const TWO_15: int := 0x8000
  const TWO_16: int := 0x1_0000
  const TWO_31: int := 0x8000_0000
  const TWO_32: int := 0x1_0000_0000
  const TWO_63: int := 0x8000_0000_0000_0000
  const TWO_64: int := 0x1_0000_0000_0000_0000

  type I16 = x: int | -0x8000 <= x < 0x8000
  type I32 = x: int | -0x8000_0000 <= x < 0x8000_0000
  type I64 = x: int | -0x8000_0000_0000_0000 <= x < 0x8000_0000_0000_0000

  const LONG_MAX: I64 := 0x7FFF_FFFF_FFFF_FFFF
  const LONG_MIN: I64 := -0x8000_0000_0000_0000

  /** The value Java arithmetic gives a byte: -128..127. */
  function Signed(b: Byte): (v: int)
    ensures -128 <= v < 128
    ensures v % 256 == b
  {
    if b < 128 then b else b - 256
  }

  /** Two's-complement truncation to the range -half .. half - 1. */
  function WrapTo(x: int, half: int): (r: int)
    requires half > 0
    ensures -half <= r < half
    ensures -half <= x < half ==> r == x
  {
    if -half <= x < half then x
    else
      var m := 2 * half;
      (x + half) % m - half
  }

  /** Java's `(short)` cast. */
  function Wrap16(x: int): (r: I16)
    ensures -TWO_15 <= x < TWO_15 ==> r == x
  {
    WrapTo(x, TWO_15)
  }

  /** Java's `(int)` cast, and the result of `int` arithmetic. */
  function Wrap32(x: int): (r: I32)
    ensures -TWO_31 <= x < TWO_31 ==> r == x
  {
    WrapTo(x, TWO_31)
  }

  /** Java's `long` arithmetic. */
  function Wrap64(x: int): (r: I64)
    ensures -TWO_63 <= x < TWO_63 ==> r == x
  {
    WrapTo(x, TWO_63)
  }

  /** Java's `/`, which truncates toward zero. */
  function JavaDiv(a: int, b: int): (q: int)
    requires b > 0
    ensures a >= 0 ==> q == a / b
  {
    if a >= 0 then a / b else -((-a) / b)
  }

  function Pow256(k: nat): (p: nat)
    ensures p >= 1
  {
    if k == 0 then 1 else 256 * Pow256(k - 1)
  }

  /** The `k` low-order bytes of `n`, most significant first. */
  function BigEndian(n: nat, k: nat): (s: seq<Byte>)
    ensures |s| == k
  {
    if k == 0 then [] else BigEndian(n / 256, k - 1) + [n % 256]
  }

  /** The unsigned number a big-endian byte string denotes. */
  function FromBigEndian(s: seq<Byte>): nat
  {
    if s == [] then 0 else FromBigEndian(s[..|s| - 1]) * 256 + s[|s| - 1]
  }

  /** A 4-byte big-endian string, digit by digit. */
  lemma FromBigEndianFour(s: seq<Byte>)
    requires |s| == 4
    ensures FromBigEndian(s) == ((s[0] as int * 256 + s[1]) * 256 + s[2]) * 256 + s[3]
  {
    assert s[..3][..2] == s[..2] && s[..2][..1] == s[..1] && s[..1][..0] == [];
    assert FromBigEndian(s[..1]) == s[0];
    assert FromBigEndian(s[..2]) == s[0] as int * 256 + s[1];
    assert FromBigEndian(s[..3]) == (s[0] as int * 256 + s[1]) * 256 + s[2];
  }

  lemma {:induction false} FromBigEndianBound(s: seq<Byte>)
    ensures FromBigEndian(s) < Pow256(|s|)
  {
    if s != [] {
      FromBigEndianBound(s[..|s| - 1]);
    }
  }

  lemma {:induction false} BigEndianRoundTrip(n: nat, k: nat)
    requires n < Pow256(k)
    ensures FromBigEndian(BigEndian(n, k)) == n
  {
    if k > 0 {
      var s := BigEndian(n, k);
      var q, r := n / 256, n % 256;
      DivBy256(n, Pow256(k - 1));
      assert s[..k - 1] == BigEndian(q, k - 1) && s[k - 1] == r;
      BigEndianRoundTrip(q, k - 1);
      assert FromBigEndian(s) == FromBigEndian(s[..k - 1]) * 256 + s[k - 1];
    }
  }

  /** Splitting off the last base-256 digit. */
  lemma DivBy256(n: nat, p: nat)
    requires n < 256 * p
    ensures n / 256 < p && n == n / 256 * 256 + n % 256
  {
  }

  lemma {:induction false} FromBigEndianRoundTrip(s: seq<Byte>)
    ensures BigEndian(FromBigEndian(s), |s|) == s
  {
    if s != [] {
      var init := s[..|s| - 1];
      var n := FromBigEndian(s);
      assert n / 256 == FromBigEndian(init);
      assert n % 256 == s[|s| - 1];
      FromBigEndianRoundTrip(init);
      assert s == init + [s[|s| - 1]];
    }
  }

  /** Two's-complement view of an unsigned number below 2 * half. */
  function ToSigned(u: nat, half: int): int
  {
    if u < half then u else u - 2 * half
  }

  function ToUnsigned(x: int, half: int): int
  {
    if x < 0 then x + 2 * half else x
  }

  // The Parser codecs: `longToByte`/`parseLong`, `intToByte`/`parseInt`,
  // `shortToByte`/`parseShort`, all big-endian as java.nio.ByteBuffer.

  function LongToBytes(x: I64): (s: seq<Byte>)
    ensures |s| == 8
  {
    BigEndian(ToUnsigned(x, TWO_63), 8)
  }

  function ParseLong(s: seq<Byte>): I64
    requires |s| == 8
  {
    FromBigEndianBound(s);
    ToSigned(FromBigEndian(s), TWO_63)
  }

  function IntToBytes(x: I32): (s: seq<Byte>)
    ensures |s| == 4
  {
    BigEndian(ToUnsigned(x, TWO_31), 4)
  }

  function ParseInt(s: seq<Byte>): I32
    requires |s| == 4
  {
    FromBigEndianBound(s);
    ToSigned(FromBigEndian(s), TWO_31)
  }

  function ShortToBytes(x: I16): (s: seq<Byte>)
    ensures |s| == 2
  {
    BigEndian(ToUnsigned(x, TWO_15), 2)
  }

  function ParseShort(s: seq<Byte>): I16
    requires |s| == 2
  {
    FromBigEndianBound(s);
    ToSigned(FromBigEndian(s), TWO_15)
  }

  lemma LongRoundTrip(x: I64)
    ensures ParseLong(LongToBytes(x)) == x
  {
    BigEndianRoundTrip(ToUnsigned(x, TWO_63), 8);
  }

  lemma LongBytesRoundTrip(s: seq<Byte>)
    requires |s| == 8
    ensures LongToBytes(ParseLong(s)) == s
  {
    FromBigEndianBound(s);
    FromBigEndianRoundTrip(s);
  }

  lemma IntRoundTrip(x: I32)
    ensures ParseInt(IntToBytes(x)) == x
  {
    BigEndianRoundTrip(ToUnsigned(x, TWO_31), 4);
  }

  lemma IntBytesRoundTrip(s: seq<Byte>)
    requires |s| == 4
    ensures IntToBytes(ParseInt(s)) == s
  {
    FromBigEndianBound(s);
    FromBigEndianRoundTrip(s);
  }

  lemma ShortRoundTrip(x: I16)
    ensures ParseShort(ShortToBytes(x)) == x
  {
    BigEndianRoundTrip(ToUnsigned(x, TWO_15), 2);
  }

  lemma ShortBytesRoundTrip(s: seq<Byte>)
    requires |s| == 2
    ensures ShortToBytes(ParseShort(s)) == s
  {
    FromBigEndianBound(s);
    FromBigEndianRoundTrip(s);
  }

  /** Distinct longs have distinct encodings. */
  lemma LongToBytesInjective(x: I64, y: I64)
    requires LongToBytes(x) == LongToBytes(y)
    ensures x == y
  {
    LongRoundTrip(x);
    LongRoundTrip(y);
  }

  /** The encoding of zero is all zero bytes. */
  lemma {:induction false} BigEndianZero(k: nat)
    ensures BigEndian(0, k) == seq(k, _ => 0)
  {
    if k > 0 {
      BigEndianZero(k - 1);
    }
  }

  // Files are byte sequences. A positioned write past the end grows the file,
  // and the gap reads as zero bytes; a positioned read past the end reads
  // nothing, which leaves a freshly allocated buffer at zero.

  function Max(a: int, b: int): int { if a < b then b else a }

  function WriteAt(file: seq<Byte>, pos: nat, data: seq<Byte>): (r: seq<Byte>)
    ensures |r| == Max(|file|, pos + |data|)
    ensures r[pos..pos + |data|] == data
    ensures forall i :: 0 <= i < |r| && !(pos <= i < pos + |data|) ==>
      r[i] == (if i < |file| then file[i] else 0)
  {
    var padded := if pos + |data| <= |file| then file else file + seq(pos + |data| - |file|, _ => 0);
    assert |padded| == Max(|file|, pos + |data|);
    padded[..pos] + data + padded[pos + |data|..]
  }

  /** Writing right at the end of a file appends. */
  lemma WriteAtEnd(file: seq<Byte>, data: seq<Byte>)
    ensures WriteAt(file, |file|, data) == file + data
  {
    var r := WriteAt(file, |file|, data);
    forall i | 0 <= i < |r| ensures r[i] == (file + data)[i] {
      if i >= |file| {
        assert r[i] == r[|file|..|file| + |data|][i - |file|];
      }
    }
  }

  /** Writing at the start of a file no shorter than the data replaces its head. */
  lemma WriteAtStart(file: seq<Byte>, data: seq<Byte>)
    requires |data| <= |file|
    ensures WriteAt(file, 0, data) == data + file[|data|..]
  {
    var r := WriteAt(file, 0, data);
    forall i | 0 <= i < |r| ensures r[i] == (data + file[|data|..])[i] {
      if i < |data| {
        assert r[i] == r[0..|data|][i];
      }
    }
  }

  /** The byte at `pos`, or 0 when the file is shorter. */
  function ReadByte(file: seq<Byte>, pos: nat): Byte
  {
    if pos < |file| then file[pos] else 0
  }
}
