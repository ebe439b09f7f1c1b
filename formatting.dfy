/**
 * The .NET conversions the dispatcher and the argument parser rely on:
 * 32-bit `int` arithmetic, `Int32.ToString()`, `int.TryParse` and the
 * hexadecimal text of a digest (`BitConverter.ToString` with its dashes removed).
 */
module Formatting {
  import opened Wrappers

  newtype byte = b: int | 0 <= b < 256

  const Int32Min: int := -0x8000_0000
  const Int32Max: int := 0x7FFF_FFFF
  const TwoTo32: int := 0x1_0000_0000

  /** The values of a C# `int`. */
  type int32 = x: int | -0x8000_0000 <= x <= 0x7FFF_FFFF

  /** The result of an unchecked C# `int` operation whose exact value is `n`. */
  function Wrap32(n: int): (r: int32)
    ensures (r - n) % TwoTo32 == 0
    ensures Int32Min <= n <= Int32Max ==> r == n
  {
    (n - Int32Min) % TwoTo32 + Int32Min
  }

  // ---------------------------------------------------------------------
  // Decimal text

  predicate IsDigit(c: char) {
    '0' <= c <= '9'
  }

  predicate AllDigits(s: string) {
    forall k | 0 <= k < |s| :: IsDigit(s[k])
  }

  function DigitChar(d: nat): (c: char)
    requires d < 10
    ensures IsDigit(c)
  {
    ('0' as int + d) as char
  }

  function DigitValue(c: char): (d: nat)
    requires IsDigit(c)
    ensures d < 10 && DigitChar(d) == c
  {
    c as int - '0' as int
  }

  /** The number written by a string of decimal digits, most significant digit first. */
  function DigitsValue(s: string): nat
    requires AllDigits(s)
  {
    if s == [] then 0 else 10 * DigitsValue(s[..|s| - 1]) + DigitValue(s[|s| - 1])
  }

  /** The decimal text of a non-negative number: digits only, no leading zero. */
  function NatToString(n: nat): (s: string)
    ensures |s| > 0 && AllDigits(s)
    ensures DigitsValue(s) == n
    ensures s[0] == '0' ==> n == 0 && |s| == 1
  {
    if n < 10 then [DigitChar(n)]
    else
      var prefix := NatToString(n / 10);
      var s := prefix + [DigitChar(n % 10)];
      assert s[..|s| - 1] == prefix;
      s
  }

  /** `Int32.ToString()` in the invariant culture: a minus sign for negatives, then the digits. */
  function IntToString(n: int): (s: string)
    ensures |s| > 0
    ensures s[0] == '-' <==> n < 0
    ensures AllDigits(if n < 0 then s[1..] else s)
  {
    if n < 0 then "-" + NatToString(-n) else NatToString(n)
  }

  /**
   * The digits `Int32.ToString()` writes after the optional '-': the canonical
   * decimal text of the magnitude, with no leading zero except in "0".
   */
  lemma IntToStringDigits(n: int)
    ensures var s := IntToString(n);
      var d := if n < 0 then s[1..] else s;
      && |d| > 0 && AllDigits(d)
      && DigitsValue(d) == (if n < 0 then -n else n)
      && (d[0] == '0' ==> n == 0 && |d| == 1)
  {
    if n < 0 {
      assert IntToString(n)[1..] == NatToString(-n);
    }
  }

  /** The value of a non-empty run of ASCII digits; None for an empty string or any other character. */
  function ParseDigits(s: string): Option<nat> {
    if s == [] || !IsDigit(s[|s| - 1]) then None
    else if |s| == 1 then Some(DigitValue(s[0]))
    else match ParseDigits(s[..|s| - 1])
      case None => None
      case Some(m) => Some(10 * m + DigitValue(s[|s| - 1]))
  }

  /** `ParseDigits` accepts exactly the non-empty strings of digits, and reads the number they write. */
  lemma {:induction false} ParseDigitsIff(s: string)
    ensures ParseDigits(s).Some? <==> |s| > 0 && AllDigits(s)
    ensures ParseDigits(s).Some? ==> ParseDigits(s).value == DigitsValue(s)
  {
    if |s| > 1 {
      var p := s[..|s| - 1];
      ParseDigitsIff(p);
      assert forall k | 0 <= k < |p| :: p[k] == s[k];
      assert AllDigits(s) <==> AllDigits(p) && IsDigit(s[|s| - 1]);
    } else if |s| == 1 {
      assert s[..0] == [];
    }
  }

  /**
   * `int.TryParse` on a string without surrounding white space: an optional
   * sign, one or more ASCII digits, and a value that fits in 32 bits.
   */
  function ParseInt32(s: string): (r: Option<int>)
    ensures r.Some? ==> Int32Min <= r.value <= Int32Max
  {
    var negative := |s| > 0 && s[0] == '-';
    var digits := if |s| > 0 && (s[0] == '-' || s[0] == '+') then s[1..] else s;
    match ParseDigits(digits)
    case None => None
    case Some(magnitude) =>
      var m: int := magnitude;
      var v := if negative then -m else m;
      if Int32Min <= v <= Int32Max then Some(v) else None
  }

  /** The text after an optional leading '-' or '+'. */
  function Unsigned(s: string): string {
    if |s| > 0 && (s[0] == '-' || s[0] == '+') then s[1..] else s
  }

  /**
   * `int.TryParse` gives `v` exactly when the text after the optional sign is a
   * non-empty run of digits, `v` is the number they write (negated after a '-'),
   * and `v` fits in 32 bits; so "+5", "007" and "-0" are accepted too.
   */
  lemma ParseInt32Iff(s: string, v: int)
    ensures ParseInt32(s) == Some(v) <==>
      && |Unsigned(s)| > 0 && AllDigits(Unsigned(s))
      && v == (if |s| > 0 && s[0] == '-' then -(DigitsValue(Unsigned(s)) as int) else DigitsValue(Unsigned(s)))
      && Int32Min <= v <= Int32Max
  {
    ParseDigitsIff(Unsigned(s));
  }

  /** What `int.TryParse` accepts: a digit or sign first, digits after it. */
  lemma AcceptedIntShape(s: string)
    requires ParseInt32(s).Some?
    ensures |s| > 0 && (IsDigit(s[0]) || s[0] == '-' || s[0] == '+')
    ensures forall k | 0 < k < |s| :: IsDigit(s[k])
  {
    var signed := |s| > 0 && (s[0] == '-' || s[0] == '+');
    var digits := Unsigned(s);
    ParseDigitsIff(digits);
    assert forall k | 0 < k < |s| :: s[k] == digits[if signed then k - 1 else k];
  }

  /** Parsing the text `Int32.ToString()` writes gives the number back. */
  lemma ParseIntToString(n: int)
    requires Int32Min <= n <= Int32Max
    ensures ParseInt32(IntToString(n)) == Some(n)
  {
    var s := IntToString(n);
    if n < 0 {
      assert s[1..] == NatToString(-n);
      ParseDigitsIff(NatToString(-n));
    } else {
      assert s == NatToString(n);
      assert s[0] != '-' && s[0] != '+';
      ParseDigitsIff(NatToString(n));
    }
  }

  // ---------------------------------------------------------------------
  // Hexadecimal text of a digest

  function HexDigit(d: nat): char
    requires d < 16
  {
    if d < 10 then DigitChar(d) else ('A' as int + d - 10) as char
  }

  /** The two upper-case hexadecimal digits of one byte. */
  function HexPair(b: byte): string {
    [HexDigit(b as int / 16), HexDigit(b as int % 16)]
  }

  /** `BitConverter.ToString`: the byte pairs joined by '-', as in "0A-FF-10". */
  function BitConverterToString(bs: seq<byte>): string {
    if |bs| == 0 then ""
    else if |bs| == 1 then HexPair(bs[0])
    else HexPair(bs[0]) + "-" + BitConverterToString(bs[1..])
  }

  /** `s.Replace("-", String.Empty)`. */
  function RemoveDashes(s: string): string {
    if s == [] then [] else (if s[0] == '-' then [] else [s[0]]) + RemoveDashes(s[1..])
  }

  /** The checksum text the dispatcher sends for a digest. */
  function HexDigest(bs: seq<byte>): string {
    RemoveDashes(BitConverterToString(bs))
  }

  /** The byte pairs concatenated, with no separator. */
  function HexPairs(bs: seq<byte>): string {
    if bs == [] then [] else HexPair(bs[0]) + HexPairs(bs[1..])
  }

  function HexValue(c: char): Option<nat> {
    if '0' <= c <= '9' then Some(c as int - '0' as int)
    else if 'A' <= c <= 'F' then Some(c as int - 'A' as int + 10)
    else None
  }

  /** Reads upper-case hexadecimal text back into bytes, two digits per byte. */
  function ParseHex(s: string): Option<seq<byte>> {
    if |s| == 0 then Some([])
    else if |s| == 1 then None
    else match (HexValue(s[0]), HexValue(s[1]), ParseHex(s[2..]))
      case (Some(hi), Some(lo), Some(rest)) =>
        if hi < 16 && lo < 16 then Some([(hi * 16 + lo) as byte] + rest) else None
      case _ => None
  }

  lemma {:induction false} RemoveDashesAppend(a: string, b: string)
    ensures RemoveDashes(a + b) == RemoveDashes(a) + RemoveDashes(b)
  {
    if a != [] {
      assert (a + b)[1..] == a[1..] + b;
      RemoveDashesAppend(a[1..], b);
    } else {
      assert a + b == b;
    }
  }

  /** Removing the dashes from `BitConverter.ToString` leaves the byte pairs side by side. */
  lemma {:induction false} HexDigestIsPairs(bs: seq<byte>)
    ensures HexDigest(bs) == HexPairs(bs)
  {
    if |bs| == 1 {
      assert HexPairs(bs[1..]) == [];
      assert RemoveDashes(HexPair(bs[0])) == HexPair(bs[0]) by {
        var p := HexPair(bs[0]);
        assert RemoveDashes(p[1..][1..]) == [];
      }
    } else if |bs| > 1 {
      var p := HexPair(bs[0]);
      assert RemoveDashes(p) == p by {
        assert RemoveDashes(p[1..][1..]) == [];
      }
      RemoveDashesAppend(p + "-", BitConverterToString(bs[1..]));
      RemoveDashesAppend(p, "-");
      HexDigestIsPairs(bs[1..]);
    }
  }

  /** The checksum text is twice as long as the digest and reads back to it. */
  lemma {:induction false} HexDigestRoundTrip(bs: seq<byte>)
    ensures |HexDigest(bs)| == 2 * |bs|
    ensures ParseHex(HexDigest(bs)) == Some(bs)
  {
    HexDigestIsPairs(bs);
    HexPairsRoundTrip(bs);
  }

  lemma {:induction false} HexPairsRoundTrip(bs: seq<byte>)
    ensures |HexPairs(bs)| == 2 * |bs|
    ensures ParseHex(HexPairs(bs)) == Some(bs)
  {
    if bs != [] {
      HexPairsRoundTrip(bs[1..]);
      var s := HexPairs(bs);
      assert s[2..] == HexPairs(bs[1..]);
      var b := bs[0] as int;
      assert HexValue(s[0]) == Some(b / 16);
      assert HexValue(s[1]) == Some(b % 16);
      assert [bs[0]] + bs[1..] == bs;
    }
  }
}
