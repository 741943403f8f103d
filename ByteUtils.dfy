/**
 * Byte-level helpers of the library: big-endian decoding, the Intel HEX
 * checksum, fixed-width big-endian encoding of Java integers and the
 * concatenation of byte arrays.
 *
 * A Java `byte` is held as its unsigned bit pattern 0..255; Java's signed
 * view of the same bits is `Signed`.  Java `short`, `int` and `long` values
 * are mathematical integers restricted to their ranges, and the narrowing
 * casts of the source are written out as `ToInt16` and `ToInt32`.
 */
module ByteUtils {

  /** The bit pattern of a Java byte. */
  type byte = b: int | 0 <= b < 256

  const TWO_TO_15: int := 0x8000
  const TWO_TO_16: int := 0x1_0000
  const TWO_TO_31: int := 0x8000_0000
  const TWO_TO_32: int := 0x1_0000_0000
  const TWO_TO_63: int := 0x8000_0000_0000_0000
  const TWO_TO_64: int := 0x1_0000_0000_0000_0000

  /** The values of a Java short, int and long. */
  type int16 = x: int | -TWO_TO_15 <= x < TWO_TO_15
  type int32 = x: int | -TWO_TO_31 <= x < TWO_TO_31
  type int64 = x: int | -TWO_TO_63 <= x < TWO_TO_63

  /** Java's signed reading of a byte's bits. */
  function Signed(b: byte): (v: int)
    ensures -128 <= v < 128
    ensures (v - b) % 256 == 0
  {
    if b < 128 then b else b - 256
  }

  /** The narrowing cast `(short) x`: keeps the low 16 bits, two's complement. */
  function ToInt16(x: int): (r: int16)
    ensures (r - x) % TWO_TO_16 == 0
    ensures -TWO_TO_15 <= x < TWO_TO_15 ==> r == x
  {
    (x + TWO_TO_15) % TWO_TO_16 - TWO_TO_15
  }

  /** The narrowing cast `(int) x`: keeps the low 32 bits, two's complement. */
  function ToInt32(x: int): (r: int32)
    ensures (r - x) % TWO_TO_32 == 0
    ensures -TWO_TO_31 <= x < TWO_TO_31 ==> r == x
  {
    (x + TWO_TO_31) % TWO_TO_32 - TWO_TO_31
  }

  function Abs(x: int): nat { if x >= 0 then x else -x }

  /** Java's integer division, which truncates toward zero. */
  function JavaDiv(a: int, b: int): (q: int)
    requires b != 0
    ensures a >= 0 && b > 0 ==> q == a / b
    ensures Abs(q) == Abs(a) / Abs(b)
  {
    var q0 := Abs(a) / Abs(b);
    if (a >= 0) == (b > 0) then q0 else -q0
  }

  /** Java's `%`, whose sign follows the dividend. */
  function JavaRem(a: int, b: int): (r: int)
    requires b != 0
    ensures a >= 0 ==> r == a % Abs(b)
    ensures a < 0 ==> r == -((-a) % Abs(b))
  {
    var r0 := Abs(a) % Abs(b);
    if a >= 0 then r0 else -r0
  }

  function Pow256(n: nat): (p: nat)
    ensures p >= 1
  {
    if n == 0 then 1 else 256 * Pow256(n - 1)
  }

  /** The unsigned big-endian number whose bytes are `s`. */
  function BigEndian(s: seq<byte>): nat
  {
    if |s| == 0 then 0 else BigEndian(s[..|s| - 1]) * 256 + s[|s| - 1]
  }

  lemma {:induction false} BigEndianBound(s: seq<byte>)
    ensures BigEndian(s) < Pow256(|s|)
  {
    if |s| > 0 {
      BigEndianBound(s[..|s| - 1]);
    }
  }

  /** Appending a byte shifts the value left by eight bits. */
  lemma BigEndianSnoc(s: seq<byte>, b: byte)
    ensures BigEndian(s + [b]) == BigEndian(s) * 256 + b
  {
    assert (s + [b])[..|s|] == s;
  }

  /**
   * ByteUtils.toLong: accumulates every byte shifted to its position,
   * most significant first.  The result is the big-endian value of the
   * bytes; Java's 64-bit `long` wraps from the eighth byte on, which is not
   * modelled.
   */
  method ToLong(data: seq<byte>) returns (l: int)
    ensures l == BigEndian(data)
    ensures 0 <= l < Pow256(|data|)
  {
    l := 0;
    var i := 0;
    while i < |data|
      invariant 0 <= i <= |data|
      invariant l == BigEndian(data[..i]) * Pow256(|data| - i)
    {
      assert data[..i + 1] == data[..i] + [data[i]];
      BigEndianSnoc(data[..i], data[i]);
      var p := Pow256(|data| - i - 1);
      assert Pow256(|data| - i) == 256 * p;
      ShiftAdd(BigEndian(data[..i]), data[i], p);
      l := l + data[i] * p;
      i := i + 1;
    }
    assert data[..|data|] == data;
    BigEndianBound(data);
  }

  lemma ShiftAdd(a: int, d: int, p: int)
    ensures a * (256 * p) + d * p == (a * 256 + d) * p
  {
  }

  /** Sum of the unsigned byte values. */
  function Sum(s: seq<byte>): nat
  {
    if |s| == 0 then 0 else Sum(s[..|s| - 1]) + s[|s| - 1]
  }

  lemma {:induction false} SumAppend(a: seq<byte>, b: seq<byte>)
    ensures Sum(a + b) == Sum(a) + Sum(b)
  {
    if |b| == 0 {
      assert a + b == a;
    } else {
      assert (a + b)[..|a + b| - 1] == a + b[..|b| - 1];
      SumAppend(a, b[..|b| - 1]);
    }
  }

  lemma SumTwo(a: byte, b: byte)
    ensures Sum([a, b]) == a as int + b
  {
    assert [a][..0] == [];
    assert Sum([a]) == a;
    assert [a, b][..1] == [a];
  }

  lemma SumFour(a: byte, b: byte, c: byte, d: byte)
    ensures Sum([a, b, c, d]) == a as int + b + c + d
  {
    SumAppend([a, b], [c, d]);
    assert [a, b] + [c, d] == [a, b, c, d];
    SumTwo(a, b);
    SumTwo(c, d);
  }

  /**
   * The Intel HEX checksum of a byte string: the byte that brings the sum
   * of all bytes to zero modulo 256 (two's complement of the sum's low byte).
   */
  function Checksum(s: seq<byte>): (c: byte)
    ensures (Sum(s) + c) % 256 == 0
  {
    (256 - Sum(s) % 256) % 256
  }

  /**
   * ByteUtils.intelHexChecksum: adds every byte into a wrapping byte
   * accumulator and negates it.  Working on bit patterns, the signed
   * accumulator of the source is the unsigned one below.
   */
  method IntelHexChecksum(data: seq<byte>) returns (c: byte)
    ensures (Sum(data) + c) % 256 == 0
    ensures c == Checksum(data)
  {
    var acc: byte := 0;
    var i := 0;
    while i < |data|
      invariant 0 <= i <= |data|
      invariant acc == Sum(data[..i]) % 256
    {
      assert data[..i + 1][..i] == data[..i];
      acc := (acc + data[i]) % 256;
      i := i + 1;
    }
    assert data[..|data|] == data;
    c := (256 - acc) % 256;
  }

  /**
   * ByteUtils.intToByteArray: the four bytes of an int, most significant
   * first.  `value >>> 8k` on the 32-bit pattern `u` is `u` divided by 256
   * k times, and the cast to byte keeps its low eight bits.
   */
  function IntToByteArray(value: int32): (s: seq<byte>)
    ensures |s| == 4
  {
    var u := value % TWO_TO_32;
    var u1 := u / 256;
    var u2 := u1 / 256;
    var u3 := u2 / 256;
    [u3 % 256, u2 % 256, u1 % 256, u % 256]
  }

  /** ByteUtils.shortToByteArray: the two bytes of a short, most significant first. */
  function ShortToByteArray(value: int16): (s: seq<byte>)
    ensures |s| == 2
  {
    var u := value % TWO_TO_16;
    [(u / 256) % 256, u % 256]
  }

  /** ByteUtils.longToByteArray: the eight bytes of a long, most significant first. */
  function LongToByteArray(value: int64): (s: seq<byte>)
    ensures |s| == 8
  {
    var u := value % TWO_TO_64;
    var u1 := u / 256;
    var u2 := u1 / 256;
    var u3 := u2 / 256;
    var u4 := u3 / 256;
    var u5 := u4 / 256;
    var u6 := u5 / 256;
    var u7 := u6 / 256;
    [u7 % 256, u6 % 256, u5 % 256, u4 % 256, u3 % 256, u2 % 256, u1 % 256, u % 256]
  }

  lemma BigEndianTwo(a: byte, b: byte)
    ensures BigEndian([a, b]) == (a as int) * 256 + b
  {
    assert [a][..0] == [];
    assert BigEndian([a]) == a;
    assert [a, b][..1] == [a];
  }

  lemma BigEndianFour(a: byte, b: byte, c: byte, d: byte)
    ensures BigEndian([a, b, c, d]) == (((a as int) * 256 + b) * 256 + c) * 256 + d
  {
    assert [a, b, c, d][..3] == [a, b, c];
    assert [a, b, c][..2] == [a, b];
    BigEndianTwo(a, b);
  }

  /** Decoding the bytes of a short gives back its unsigned 16-bit pattern. */
  lemma ShortRoundTrip(value: int16)
    ensures BigEndian(ShortToByteArray(value)) == value % TWO_TO_16
  {
    var u := value % TWO_TO_16;
    BigEndianTwo((u / 256) % 256, u % 256);
  }

  /** A 16-bit pattern cast to short and encoded yields the pattern again. */
  lemma ShortCastRoundTrip(o: int)
    requires 0 <= o < TWO_TO_16
    ensures BigEndian(ShortToByteArray(ToInt16(o))) == o
  {
    ShortRoundTrip(ToInt16(o));
    var k := (ToInt16(o) - o) / TWO_TO_16;
    assert ToInt16(o) == o + TWO_TO_16 * k;
  }

  /** Decoding the bytes of an int gives back its unsigned 32-bit pattern. */
  lemma IntRoundTrip(value: int32)
    ensures BigEndian(IntToByteArray(value)) == value % TWO_TO_32
  {
    var u := value % TWO_TO_32;
    var u1 := u / 256;
    var u2 := u1 / 256;
    var u3 := u2 / 256;
    BigEndianFour(u3 % 256, u2 % 256, u1 % 256, u % 256);
    DivMod256(u);
    DivMod256(u1);
    DivMod256(u2);
    assert u3 % 256 == u3;
  }

  /** Division and remainder by 256 split a number into its low byte and the rest. */
  lemma DivMod256(x: int)
    ensures x == x / 256 * 256 + x % 256
    ensures 0 <= x % 256 < 256
    ensures 0 <= x ==> 0 <= x / 256 <= x
    ensures 0 <= x < 256 ==> x % 256 == x
  {
  }

  lemma BigEndianEight(a: byte, b: byte, c: byte, d: byte, e: byte, f: byte, g: byte, h: byte)
    ensures BigEndian([a, b, c, d, e, f, g, h])
         == (((((((a as int) * 256 + b) * 256 + c) * 256 + d) * 256 + e) * 256 + f) * 256 + g) * 256 + h
  {
    var s := [a, b, c, d, e, f, g, h];
    assert s[..4] == [a, b, c, d];
    BigEndianFour(a, b, c, d);
    assert s[..5][..4] == s[..4];
    assert BigEndian(s[..5]) == BigEndian(s[..4]) * 256 + e;
    assert s[..6][..5] == s[..5];
    assert BigEndian(s[..6]) == BigEndian(s[..5]) * 256 + f;
    assert s[..7][..6] == s[..6];
    assert BigEndian(s[..7]) == BigEndian(s[..6]) * 256 + g;
    assert s[..8][..7] == s[..7];
    assert s[..8] == s;
  }

  /** Decoding the bytes of a long gives back its unsigned 64-bit pattern. */
  lemma LongRoundTrip(value: int64)
    ensures BigEndian(LongToByteArray(value)) == value % TWO_TO_64
  {
    var u := value % TWO_TO_64;
    var u1 := u / 256;
    var u2 := u1 / 256;
    var u3 := u2 / 256;
    var u4 := u3 / 256;
    var u5 := u4 / 256;
    var u6 := u5 / 256;
    var u7 := u6 / 256;
    BigEndianEight(u7 % 256, u6 % 256, u5 % 256, u4 % 256, u3 % 256, u2 % 256, u1 % 256, u % 256);
    DivMod256(u);
    DivMod256(u1);
    DivMod256(u2);
    DivMod256(u3);
    DivMod256(u4);
    DivMod256(u5);
    DivMod256(u6);
    DivMod256(u7);
    assert (u7 % 256) * 256 + u6 % 256 == u6;
    assert u6 * 256 + u5 % 256 == u5;
    assert u5 * 256 + u4 % 256 == u4;
    assert u4 * 256 + u3 % 256 == u3;
    assert u3 * 256 + u2 % 256 == u2;
    assert u2 * 256 + u1 % 256 == u1;
  }

  /** The byte arrays laid end to end. */
  function Flatten(parts: seq<seq<byte>>): (s: seq<byte>)
  {
    if |parts| == 0 then [] else Flatten(parts[..|parts| - 1]) + parts[|parts| - 1]
  }

  /** Sum of the lengths of the parts. */
  function TotalLength(parts: seq<seq<byte>>): nat
  {
    if |parts| == 0 then 0 else TotalLength(parts[..|parts| - 1]) + |parts[|parts| - 1]|
  }

  lemma {:induction false} FlattenLength(parts: seq<seq<byte>>)
    ensures |Flatten(parts)| == TotalLength(parts)
  {
    if |parts| > 0 {
      FlattenLength(parts[..|parts| - 1]);
    }
  }

  /** Byte `j` of part `i` sits behind all earlier parts in the concatenation. */
  lemma {:induction false} FlattenIndex(parts: seq<seq<byte>>, i: int, j: int)
    requires 0 <= i < |parts| && 0 <= j < |parts[i]|
    ensures TotalLength(parts[..i]) + j < |Flatten(parts)|
    ensures Flatten(parts)[TotalLength(parts[..i]) + j] == parts[i][j]
  {
    var last := |parts| - 1;
    var init := parts[..last];
    FlattenLength(parts);
    FlattenLength(init);
    if i == last {
      assert parts[..i] == init;
    } else {
      assert init[..i] == parts[..i];
      FlattenIndex(init, i, j);
    }
  }

  lemma FlattenSnoc(parts: seq<seq<byte>>, i: int)
    requires 0 <= i < |parts|
    ensures Flatten(parts[..i + 1]) == Flatten(parts[..i]) + parts[i]
    ensures TotalLength(parts[..i + 1]) == TotalLength(parts[..i]) + |parts[i]|
  {
    assert parts[..i + 1][..i] == parts[..i];
  }

  lemma FlattenFour(a: seq<byte>, b: seq<byte>, c: seq<byte>, d: seq<byte>)
    ensures Flatten([a, b, c, d]) == a + b + c + d
  {
    assert [a][..0] == [];
    assert Flatten([a]) == a;
    assert [a, b][..1] == [a];
    assert Flatten([a, b]) == a + b;
    assert [a, b, c][..2] == [a, b];
    assert Flatten([a, b, c]) == a + b + c;
    assert [a, b, c, d][..3] == [a, b, c];
  }

  /**
   * ByteUtils.concatByteArrays: sums the lengths, allocates the result and
   * copies every part in order.
   */
  method ConcatByteArrays(parts: seq<seq<byte>>) returns (result: array<byte>)
    ensures fresh(result)
    ensures result.Length == TotalLength(parts)
    ensures result[..] == Flatten(parts)
  {
    var fullLength := 0;
    var i := 0;
    while i < |parts|
      invariant 0 <= i <= |parts|
      invariant fullLength == TotalLength(parts[..i])
    {
      FlattenSnoc(parts, i);
      fullLength := fullLength + |parts[i]|;
      i := i + 1;
    }
    assert parts[..|parts|] == parts;
    FlattenLength(parts);
    result := new byte[fullLength];
    var k := 0;
    i := 0;
    while i < |parts|
      invariant 0 <= i <= |parts|
      invariant k == |Flatten(parts[..i])|
      invariant k <= result.Length
      invariant result[..k] == Flatten(parts[..i])
    {
      FlattenSnoc(parts, i);
      FlattenLength(parts[..i + 1]);
      PrefixLength(parts, i + 1);
      var j := 0;
      while j < |parts[i]|
        invariant 0 <= j <= |parts[i]|
        invariant k == |Flatten(parts[..i])| + j
        invariant k <= result.Length
        invariant result[..k] == Flatten(parts[..i]) + parts[i][..j]
      {
        result[k] := parts[i][j];
        assert parts[i][..j + 1] == parts[i][..j] + [parts[i][j]];
        k := k + 1;
        j := j + 1;
      }
      assert parts[i][..j] == parts[i];
      i := i + 1;
    }
    assert parts[..|parts|] == parts;
    assert result[..] == result[..k];
  }

  lemma {:induction false} PrefixLength(parts: seq<seq<byte>>, i: int)
    requires 0 <= i <= |parts|
    ensures TotalLength(parts[..i]) <= TotalLength(parts)
  {
    if i < |parts| {
      var last := |parts| - 1;
      assert parts[..last][..i] == parts[..i];
      PrefixLength(parts[..last], i);
    } else {
      assert parts[..i] == parts;
    }
  }

  /** The byte values used by the library's own unit tests. */
  lemma ByteUtilsExamples()
    ensures BigEndian([0x6F, 0x47, 0xA9, 0x0F]) == 0x6F47A90F
    ensures Checksum([0x03, 0x00, 0x30, 0x00, 0x02, 0x33, 0x7A]) == 0x1E
    ensures Checksum([0x01]) == 0xFF
  {
    BigEndianFour(0x6F, 0x47, 0xA9, 0x0F);
    var s: seq<byte> := [0x03, 0x00, 0x30, 0x00, 0x02, 0x33, 0x7A];
    SumAppend([0x03, 0x00, 0x30], [0x00, 0x02, 0x33, 0x7A]);
    assert [0x03, 0x00, 0x30] + [0x00, 0x02, 0x33, 0x7A] == s;
    SumAppend([0x03], [0x00, 0x30]);
    assert [0x03] + [0x00, 0x30] == [0x03, 0x00, 0x30];
    SumAppend([0x00, 0x02], [0x33, 0x7A]);
    assert [0x00, 0x02] + [0x33, 0x7A] == [0x00, 0x02, 0x33, 0x7A];
    assert Sum([0x03]) == 3 by { assert [0x03][..0] == []; }
    assert Sum([0x00, 0x30]) == 0x30 by { assert [0x00, 0x30][..1] == [0x00]; assert [0 as byte][..0] == []; }
    assert Sum([0x00, 0x02]) == 2 by { assert [0x00, 0x02][..1] == [0x00]; assert [0 as byte][..0] == []; }
    assert Sum([0x33, 0x7A]) == 0x33 + 0x7A by { assert [0x33, 0x7A][..1] == [0x33]; assert [0x33 as byte][..0] == []; }
    assert Sum([0x01]) == 1 by { assert [1 as byte][..0] == []; }
  }
}
