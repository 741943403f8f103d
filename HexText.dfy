/**
 * Hexadecimal text as the library reads and writes it: Java's
 * `String.format("%0nX", v)` for output, and `Integer.parseInt(s, 16)`,
 * `Integer.parseUnsignedInt(s, 16)`, `Short.parseShort(s, 16)` and
 * `Byte.parseByte(s, 16)` for input, together with `String.trim`.
 */
module HexText {
  import opened Wrappers
  import opened ByteUtils

  const HEX_DIGITS: string := "0123456789ABCDEF"

  function Pow16(n: nat): (p: nat)
    ensures p >= 1
  {
    if n == 0 then 1 else 16 * Pow16(n - 1)
  }

  /** The upper-case digit for a value below 16. */
  function HexChar(d: nat): char
    requires d < 16
  {
    HEX_DIGITS[d]
  }

  /** The value of a hexadecimal digit of either case, if `c` is one. */
  function DigitValue(c: char): (r: Option<nat>)
    ensures r.Some? ==> r.value < 16
  {
    if '0' <= c <= '9' then Some(c as int - '0' as int)
    else if 'a' <= c <= 'f' then Some(c as int - 'a' as int + 10)
    else if 'A' <= c <= 'F' then Some(c as int - 'A' as int + 10)
    else None
  }

  lemma HexCharValue(d: nat)
    requires d < 16
    ensures DigitValue(HexChar(d)) == Some(d)
  {
  }

  /** The last `n` hexadecimal digits of `v`, most significant first. */
  function Digits(v: nat, n: nat): (s: string)
    ensures |s| == n
  {
    if n == 0 then "" else Digits(v / 16, n - 1) + [HexChar(v % 16)]
  }

  /** The number of digits `v` needs (at least one). */
  function Width(v: nat): (w: nat)
    ensures w >= 1
  {
    if v < 16 then 1 else 1 + Width(v / 16)
  }

  /**
   * `String.format("%0wX", v)` for a non-negative `v`: upper-case digits,
   * padded with zeros on the left to at least `w` characters.
   */
  function Hex(v: nat, w: nat): (s: string)
    ensures |s| >= w
    ensures w >= 1 && v < Pow16(w) ==> |s| == w
  {
    WidthBound(v, w);
    Digits(v, if w >= Width(v) then w else Width(v))
  }

  lemma {:induction false} WidthBound(v: nat, w: nat)
    ensures w >= 1 && v < Pow16(w) ==> Width(v) <= w
  {
    if w > 1 && v >= 16 && v < Pow16(w) {
      assert v / 16 < Pow16(w - 1);
      WidthBound(v / 16, w - 1);
    }
  }

  /** The value of a string of digits without sign; the empty string is 0. */
  function DigitsValue(s: string): (r: Option<nat>)
  {
    if |s| == 0 then Some(0)
    else match (DigitsValue(s[..|s| - 1]), DigitValue(s[|s| - 1]))
      case (Some(p), Some(d)) => Some(p * 16 + d)
      case _ => None
  }

  /** A digit string has a value exactly when every character is a hexadecimal digit. */
  lemma {:induction false} DigitsValueDefined(s: string)
    ensures DigitsValue(s).Some? <==> AllDigits(s)
  {
    if |s| > 0 {
      var p := s[..|s| - 1];
      DigitsValueDefined(p);
      assert forall i :: 0 <= i < |p| ==> p[i] == s[i];
    }
  }

  /** Writing `n` digits of a value below 16^n and reading them back gives the value. */
  lemma {:induction false} DigitsRoundTrip(v: nat, n: nat)
    requires v < Pow16(n)
    ensures DigitsValue(Digits(v, n)) == Some(v)
  {
    if n > 0 {
      DigitsRoundTrip(v / 16, n - 1);
      var s := Digits(v, n);
      assert s[..|s| - 1] == Digits(v / 16, n - 1);
      HexCharValue(v % 16);
    }
  }

  /** Upper-case output uses only characters that are digits. */
  lemma {:induction false} DigitsAreDigits(v: nat, n: nat, i: int)
    requires 0 <= i < n
    ensures DigitValue(Digits(v, n)[i]).Some?
    ensures Digits(v, n)[i] != '-' && Digits(v, n)[i] != '+'
  {
    if i < n - 1 {
      DigitsAreDigits(v / 16, n - 1, i);
    } else {
      HexCharValue(v % 16);
    }
  }

  /**
   * `Integer.parseInt(s, 16)`: an optional sign followed by at least one
   * digit; anything else raises NumberFormatException (None).  Digits
   * outside ASCII, which Java also accepts, are not modelled.
   */
  function ParseInt(s: string): (r: Option<int>)
    ensures r.Some? <==>
      |s| > 0 && (if s[0] == '-' || s[0] == '+' then |s| > 1 && AllDigits(s[1..]) else AllDigits(s))
    ensures r.Some? && |s| > 0 && s[0] == '-' ==>
      DigitsValue(s[1..]).Some? && r.value == -(DigitsValue(s[1..]).value as int)
    ensures r.Some? && |s| > 0 && s[0] == '+' ==>
      DigitsValue(s[1..]).Some? && r.value == DigitsValue(s[1..]).value as int
    ensures r.Some? && |s| > 0 && s[0] != '-' && s[0] != '+' ==>
      DigitsValue(s).Some? && r.value == DigitsValue(s).value as int
  {
    DigitsValueDefined(if |s| > 0 then s[1..] else s);
    DigitsValueDefined(s);
    if |s| == 0 then None
    else if s[0] == '-' || s[0] == '+' then
      if |s| == 1 then None
      else match DigitsValue(s[1..])
        case Some(v) => Some(if s[0] == '-' then -(v as int) else v)
        case None => None
    else match DigitsValue(s)
      case Some(v) => Some(v)
      case None => None
  }

  /** `Integer.parseUnsignedInt(s, 16)` for strings of at most four characters. */
  function ParseUnsignedInt(s: string): (r: Option<int>)
    requires |s| <= 4
    ensures r.Some? ==> 0 <= r.value <= 0xFFFF
  {
    ParseIntBound(s);
    assert Pow16(|s|) <= Pow16(4) == 0x1_0000 by { Pow16Monotone(|s|, 4); }
    if |s| > 0 && s[0] == '-' then None else ParseInt(s)
  }

  /** Parses of at most `n` characters stay within `n` digits. */
  lemma {:induction false} DigitsValueBound(s: string)
    ensures DigitsValue(s).Some? ==> DigitsValue(s).value < Pow16(|s|)
  {
    if |s| > 0 {
      DigitsValueBound(s[..|s| - 1]);
    }
  }

  lemma {:induction false} Pow16Monotone(m: nat, n: nat)
    requires m <= n
    ensures Pow16(m) <= Pow16(n)
  {
    if m < n {
      Pow16Monotone(m, n - 1);
    }
  }

  lemma ParseIntBound(s: string)
    ensures ParseInt(s).Some? ==> -(Pow16(|s|) as int) < ParseInt(s).value < Pow16(|s|)
    ensures ParseInt(s).Some? && (|s| == 0 || s[0] != '-') ==> 0 <= ParseInt(s).value
  {
    if |s| > 1 && (s[0] == '-' || s[0] == '+') {
      DigitsValueBound(s[1..]);
      assert Pow16(|s| - 1) <= Pow16(|s|);
    } else {
      DigitsValueBound(s);
    }
  }

  /** `(byte) Integer.parseInt(s, 16)`: the low eight bits of the value. */
  function ParseHexByte(s: string): (r: Option<byte>)
    ensures r.Some? <==> ParseInt(s).Some?
    ensures r.Some? ==> (ParseInt(s).value - r.value) % 256 == 0
  {
    match ParseInt(s)
    case Some(v) => Some(v % 256)
    case None => None
  }

  /**
   * `Short.parseShort(s, 16)` on two characters (which can never be out of
   * the short range).
   */
  function ParseShortHex(s: string): (r: Option<int16>)
    requires |s| == 2
    ensures r.Some? ==> -0xFF <= r.value <= 0xFF
  {
    ParseIntBound(s);
    match ParseInt(s)
    case Some(v) => Some(v)
    case None => None
  }

  /**
   * `Byte.parseByte(s, 16)`: a value outside -128..127 raises
   * NumberFormatException, so "80".."FF" are rejected; the bit pattern of
   * the accepted value is returned.
   */
  function ParseByte(s: string): (r: Option<byte>)
    ensures r.Some? ==> ParseInt(s).Some? && -128 <= ParseInt(s).value < 128
    ensures r.Some? ==> r.value == ParseInt(s).value % 256
  {
    match ParseInt(s)
    case Some(v) => if -128 <= v < 128 then Some(v % 256) else None
    case None => None
  }

  /**
   * HexFileLine.parseHexPerByte: `|s| / 2` consecutive pairs, each read by
   * `Byte.parseByte`; a trailing odd character is ignored.
   */
  function ParseHexPerByte(s: string): (r: Option<seq<byte>>)
    ensures r.Some? ==> |r.value| == |s| / 2
  {
    if |s| < 2 then Some([])
    else match (ParseByte(s[..2]), ParseHexPerByte(s[2..]))
      case (Some(b), Some(rest)) => Some([b] + rest)
      case _ => None
  }

  /** `%02X` of every byte, concatenated. */
  function HexBytes(data: seq<byte>): (s: string)
    ensures |s| == 2 * |data|
  {
    if |data| == 0 then "" else Hex(data[0], 2) + HexBytes(data[1..])
  }

  lemma HexTwoDigits(v: nat)
    requires v < 256
    ensures Hex(v, 2) == Digits(v, 2)
    ensures ParseInt(Hex(v, 2)) == Some(v)
  {
    assert Pow16(2) == 256;
    WidthBound(v, 2);
    DigitsRoundTrip(v, 2);
    DigitsAreDigits(v, 2, 0);
  }

  /** The two characters of `%02X`. */
  lemma HexTwoChars(v: nat)
    requires v < 256
    ensures Hex(v, 2) == [HexChar(v / 16), HexChar(v % 16)]
  {
    HexTwoDigits(v);
    assert Digits(v / 16, 1) == [HexChar(v / 16)];
  }

  /** The four characters of `%04X`. */
  lemma HexFourChars(v: nat)
    requires v <= 0xFFFF
    ensures Hex(v, 4) == [HexChar(v / 4096), HexChar(v / 256 % 16), HexChar(v / 16 % 16), HexChar(v % 16)]
  {
    HexFourDigits(v);
    var a := v / 16;
    var b := a / 16;
    var c := b / 16;
    assert Digits(v, 4) == Digits(a, 3) + [HexChar(v % 16)];
    assert Digits(a, 3) == Digits(b, 2) + [HexChar(a % 16)];
    assert Digits(b, 2) == Digits(c, 1) + [HexChar(b % 16)];
    assert Digits(c, 1) == [HexChar(c % 16)];
    DivSixteen(v);
  }

  lemma DivSixteen(v: nat)
    requires v <= 0xFFFF
    ensures v / 16 / 16 / 16 % 16 == v / 4096
    ensures v / 16 / 16 % 16 == v / 256 % 16
  {
  }

  /** `(byte) Integer.parseInt` reads back a byte written with `%02X`. */
  lemma ParseHexByteOfHex(v: byte)
    ensures ParseHexByte(Hex(v, 2)) == Some(v)
  {
    HexTwoDigits(v);
  }

  /** `Short.parseShort` reads back a byte-sized value written with `%02X`. */
  lemma ParseShortHexOfHex(v: nat)
    requires v < 256
    ensures |Hex(v, 2)| == 2
    ensures ParseShortHex(Hex(v, 2)) == Some(v)
  {
    HexTwoDigits(v);
  }

  lemma HexFourDigits(v: nat)
    requires v <= 0xFFFF
    ensures Hex(v, 4) == Digits(v, 4)
    ensures ParseInt(Hex(v, 4)) == Some(v)
    ensures ParseUnsignedInt(Hex(v, 4)) == Some(v)
  {
    assert Pow16(4) == 0x1_0000;
    WidthBound(v, 4);
    DigitsRoundTrip(v, 4);
    DigitsAreDigits(v, 4, 0);
  }

  /** `Byte.parseByte` reads back a byte below 0x80 written with `%02X`. */
  lemma ParseByteOfHex(v: byte)
    requires v < 0x80
    ensures ParseByte(Hex(v, 2)) == Some(v)
  {
    HexTwoDigits(v);
  }

  /** Bytes below 0x80 written with `%02X` are read back by parseHexPerByte. */
  lemma {:induction false} HexBytesRoundTrip(data: seq<byte>)
    requires forall i :: 0 <= i < |data| ==> data[i] < 0x80
    ensures ParseHexPerByte(HexBytes(data)) == Some(data)
  {
    if |data| > 0 {
      var s := HexBytes(data);
      assert s[..2] == Hex(data[0], 2);
      ParseByteOfHex(data[0]);
      assert s[2..] == HexBytes(data[1..]);
      HexBytesRoundTrip(data[1..]);
      assert ParseHexPerByte(s) == Some([data[0]] + data[1..]);
      assert [data[0]] + data[1..] == data;
    }
  }

  /** A byte of 0x80 or more, written with `%02X`, is refused by parseHexPerByte. */
  lemma {:induction false} HexBytesHighByteRejected(data: seq<byte>, k: int)
    requires 0 <= k < |data| && data[k] >= 0x80
    ensures ParseHexPerByte(HexBytes(data)).None?
  {
    var s := HexBytes(data);
    assert s[..2] == Hex(data[0], 2);
    assert s[2..] == HexBytes(data[1..]);
    HexTwoDigits(data[0]);
    if k > 0 {
      HexBytesHighByteRejected(data[1..], k - 1);
    }
  }

  /** Characters that `String.trim` removes: everything up to and including space. */
  predicate IsTrimmed(c: char) { c <= ' ' }

  function TrimStart(s: string): (r: string)
    ensures |r| <= |s|
    ensures |r| > 0 ==> !IsTrimmed(r[0])
  {
    if |s| > 0 && IsTrimmed(s[0]) then TrimStart(s[1..]) else s
  }

  function TrimEnd(s: string): (r: string)
    ensures |r| <= |s|
    ensures |r| > 0 ==> !IsTrimmed(r[|r| - 1])
  {
    if |s| > 0 && IsTrimmed(s[|s| - 1]) then TrimEnd(s[..|s| - 1]) else s
  }

  /**
   * `String.trim`: removes the control characters and spaces at both ends,
   * and only those.
   */
  function Trim(s: string): (r: string)
    ensures |r| <= |s|
    ensures |r| > 0 ==> !IsTrimmed(r[0]) && !IsTrimmed(r[|r| - 1])
    ensures TrimmedSlice(s, r)
  {
    TrimStartKeepsEnd(TrimEnd(s));
    TrimKeepsMiddle(s);
    TrimStart(TrimEnd(s))
  }

  /** `r` is `s` with some trimmed characters removed from its start and its end, and nothing else. */
  predicate TrimmedSlice(s: string, r: string)
  {
    exists i, j :: (0 <= i <= j <= |s| && r == s[i..j]
      && (forall k :: 0 <= k < i ==> IsTrimmed(s[k]))
      && (forall k :: j <= k < |s| ==> IsTrimmed(s[k])))
  }

  /** Trimming both ends leaves a slice of `s` with only trimmed characters around it. */
  lemma TrimKeepsMiddle(s: string)
    ensures TrimmedSlice(s, TrimStart(TrimEnd(s)))
  {
    TrimEndIsPrefix(s);
    var e := TrimEnd(s);
    TrimStartIsSuffix(e);
    var r := TrimStart(e);
    var i := |e| - |r|;
    var j := |e|;
    assert r == s[i..j];
    assert forall k :: 0 <= k < i ==> s[k] == e[k];
    assert 0 <= i <= j <= |s| && r == s[i..j]
      && (forall k :: 0 <= k < i ==> IsTrimmed(s[k]))
      && (forall k :: j <= k < |s| ==> IsTrimmed(s[k]));
  }

  /** TrimEnd removes trimmed characters from the end only. */
  lemma {:induction false} TrimEndIsPrefix(s: string)
    ensures TrimEnd(s) == s[..|TrimEnd(s)|]
    ensures forall k :: |TrimEnd(s)| <= k < |s| ==> IsTrimmed(s[k])
  {
    if |s| > 0 && IsTrimmed(s[|s| - 1]) {
      TrimEndIsPrefix(s[..|s| - 1]);
    }
  }

  /** TrimStart removes trimmed characters from the start only. */
  lemma {:induction false} TrimStartIsSuffix(s: string)
    ensures TrimStart(s) == s[|s| - |TrimStart(s)|..]
    ensures forall k :: 0 <= k < |s| - |TrimStart(s)| ==> IsTrimmed(s[k])
  {
    if |s| > 0 && IsTrimmed(s[0]) {
      TrimStartIsSuffix(s[1..]);
    }
  }

  lemma {:induction false} TrimStartKeepsEnd(s: string)
    requires |s| > 0 ==> !IsTrimmed(s[|s| - 1])
    ensures var r := TrimStart(s); |r| > 0 ==> !IsTrimmed(r[|r| - 1])
    ensures TrimStart(s) == s[|s| - |TrimStart(s)|..]
  {
    if |s| > 0 && IsTrimmed(s[0]) {
      TrimStartKeepsEnd(s[1..]);
    }
  }

  /** A string that starts and ends with visible characters is left as it is by trim. */
  lemma TrimUnchanged(s: string)
    requires |s| > 0 ==> !IsTrimmed(s[0]) && !IsTrimmed(s[|s| - 1])
    ensures Trim(s) == s
  {
  }

  /** Text made of hexadecimal digits only. */
  predicate AllDigits(s: string)
  {
    forall i :: 0 <= i < |s| ==> DigitValue(s[i]).Some?
  }

  /** `%0wX` writes digits only. */
  lemma HexAllDigits(v: nat, w: nat)
    ensures AllDigits(Hex(v, w))
  {
    var s := Hex(v, w);
    forall i | 0 <= i < |s|
      ensures DigitValue(s[i]).Some?
    {
      DigitsAreDigits(v, |s|, i);
    }
  }

  /** Two texts of digits make one. */
  lemma AllDigitsConcat(a: string, b: string)
    requires AllDigits(a) && AllDigits(b)
    ensures AllDigits(a + b)
  {
    forall i | 0 <= i < |a + b|
      ensures DigitValue((a + b)[i]).Some?
    {
      if i >= |a| {
        assert (a + b)[i] == b[i - |a|];
      }
    }
  }

  /** The data bytes are written as digits only. */
  lemma {:induction false} HexBytesAllDigits(data: seq<byte>)
    ensures AllDigits(HexBytes(data))
  {
    if |data| > 0 {
      HexAllDigits(data[0] as nat, 2);
      HexBytesAllDigits(data[1..]);
      AllDigitsConcat(Hex(data[0] as nat, 2), HexBytes(data[1..]));
    }
  }
}
