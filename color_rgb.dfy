/** RGB colours and their `#rrggbb` and `(r, g, b)` text forms (ColorRGB.js). */
module ColorRGB {
  import opened Wrappers

  /** Components are JavaScript integers; the serialiser expects 0..255. */
  datatype Color = Color(red: int, green: int, blue: int)
  {
    function Copy(): (c: Color)
      ensures c.red == red && c.green == green && c.blue == blue
    {
      Color(red, green, blue)
    }

    /** "#" and each component padded to two hex digits when it is below 16. */
    function ToHexString(): (s: string)
      ensures |s| >= 1 && s[0] == '#'
    {
      "#" + HexComponent(red) + HexComponent(green) + HexComponent(blue)
    }

    /** "(r, g, b)" in decimal. */
    function ToString(): (s: string)
      ensures |s| >= 1 && s[0] == '(' && s[|s| - 1] == ')'
    {
      "(" + IntToDecimal(red) + ", " + IntToDecimal(green) + ", " + IntToDecimal(blue) + ")"
    }

    predicate InByteRange()
    {
      0 <= red < 256 && 0 <= green < 256 && 0 <= blue < 256
    }
  }

  const HexDigits: string := "0123456789abcdef"

  /** A lowercase hex digit. */
  predicate IsHexDigit(c: char)
  {
    '0' <= c <= '9' || 'a' <= c <= 'f'
  }

  /** The digit toString(16) writes for a value below 16. */
  function HexDigit(d: nat): (c: char)
    requires d < 16
    ensures IsHexDigit(c)
  {
    if d < 10 then ('0' as int + d) as char else ('a' as int + (d - 10)) as char
  }

  /** The digits are those of the table 0-9, a-f, in order. */
  lemma HexDigitsTable(d: nat)
    requires d < 16
    ensures HexDigit(d) == HexDigits[d]
  {
  }

  /** The value of a lowercase hex digit, the inverse of HexDigit. */
  function HexDigitValue(c: char): (d: Option<nat>)
    ensures d.Some? ==> d.value < 16 && HexDigit(d.value) == c
  {
    if '0' <= c <= '9' then Some(c as nat - '0' as nat)
    else if 'a' <= c <= 'f' then Some(c as nat - 'a' as nat + 10)
    else None
  }

  /** Exactly the sixteen lowercase digits have a value. */
  lemma HexDigitValueDefined(c: char)
    ensures HexDigitValue(c).None? <==> c !in HexDigits
    ensures HexDigitValue(c).None? <==> !IsHexDigit(c)
  {
  }

  lemma HexDigitValueInverse(d: nat)
    requires d < 16
    ensures HexDigitValue(HexDigit(d)) == Some(d)
  {
  }

  /** Number.prototype.toString(16) for a non-negative integer: lowercase, no padding. */
  function NatToHex(n: nat): (s: string)
    ensures |s| >= 1
    ensures forall i :: 0 <= i < |s| ==> IsHexDigit(s[i])
  {
    if n < 16 then [HexDigit(n)] else NatToHex(n / 16) + [HexDigit(n % 16)]
  }

  /** toString(16) of any integer puts a minus sign before the magnitude. */
  function IntToHex(n: int): string
  {
    if n < 0 then "-" + NatToHex(-n) else NatToHex(n)
  }

  /** The per-component text of ToHexString. */
  function HexComponent(n: int): string
  {
    if n < 16 then "0" + IntToHex(n) else IntToHex(n)
  }

  /** Reads a string of lowercase hex digits back as a number. */
  function HexValue(s: string): (v: Option<nat>)
  {
    if |s| == 0 then Some(0)
    else
      var high, low := HexValue(s[..|s| - 1]), HexDigitValue(s[|s| - 1]);
      if high.Some? && low.Some? then Some(16 * high.value + low.value) else None
  }

  lemma {:induction false} NatToHexRoundTrip(n: nat)
    ensures HexValue(NatToHex(n)) == Some(n)
  {
    if n < 16 {
      assert NatToHex(n)[..0] == [];
      HexDigitValueInverse(n);
    } else {
      var s := NatToHex(n);
      var q, r := n / 16, n % 16;
      assert s == NatToHex(q) + [HexDigit(r)];
      assert s[..|s| - 1] == NatToHex(q) && s[|s| - 1] == HexDigit(r);
      NatToHexRoundTrip(q);
      HexDigitValueInverse(r);
      assert HexValue(s) == Some(16 * q + r);
      assert 16 * q + r == n;
    }
  }

  /** A byte becomes exactly its two hex digits, high digit first. */
  lemma HexComponentOfByte(n: int)
    requires 0 <= n < 256
    ensures HexComponent(n) == [HexDigit(n / 16), HexDigit(n % 16)]
  {
    if n >= 16 {
      assert n / 16 < 16;
      assert NatToHex(n) == NatToHex(n / 16) + [HexDigit(n % 16)];
      assert NatToHex(n / 16) == [HexDigit(n / 16)];
    } else {
      assert n / 16 == 0 && n % 16 == n;
      assert NatToHex(n) == [HexDigit(n)];
    }
  }

  /** Decodes "#rrggbb" back into a colour; the inverse of ToHexString on bytes. */
  function ParseHexString(s: string): (c: Option<Color>)
    ensures c.Some? ==> c.value.InByteRange()
  {
    if |s| != 7 || s[0] != '#' then None
    else match (HexValue(s[1..3]), HexValue(s[3..5]), HexValue(s[5..7]))
      case (Some(r), Some(g), Some(b)) =>
        assert r < 256 by { HexPairBound(s[1..3]); }
        assert g < 256 by { HexPairBound(s[3..5]); }
        assert b < 256 by { HexPairBound(s[5..7]); }
        Some(Color(r, g, b))
      case _ => None
  }

  /** A two-character string is read as high digit then low digit. */
  lemma HexValueOfPair(s: string)
    requires |s| == 2
    ensures var high, low := HexDigitValue(s[0]), HexDigitValue(s[1]);
      HexValue(s) == if high.Some? && low.Some? then Some(16 * high.value + low.value) else None
  {
    var first := s[..1];
    assert s[..|s| - 1] == first && s[|s| - 1] == s[1];
    assert first[..0] == [] && first[0] == s[0];
    assert HexValue(first) == if HexDigitValue(s[0]).Some? then Some(HexDigitValue(s[0]).value) else None;
  }

  lemma HexPairBound(s: string)
    requires |s| == 2 && HexValue(s).Some?
    ensures HexValue(s).value < 256
  {
    HexValueOfPair(s);
  }

  lemma HexPairValue(n: int)
    requires 0 <= n < 256
    ensures HexValue(HexComponent(n)) == Some(n)
  {
    HexComponentOfByte(n);
    var pair := HexComponent(n);
    HexValueOfPair(pair);
    HexDigitValueInverse(n / 16);
    HexDigitValueInverse(n % 16);
    assert HexDigitValue(pair[0]) == Some(n / 16) && HexDigitValue(pair[1]) == Some(n % 16);
    assert 16 * (n / 16) + n % 16 == n;
  }

  lemma HashThenPairs(a: string, b: string, c: string)
    requires |a| == 2 && |b| == 2 && |c| == 2
    ensures var s := "#" + a + b + c;
      |s| == 7 && s[1..3] == a && s[3..5] == b && s[5..7] == c
  {
  }

  /** For byte components the hex form has length 7, uses lowercase digits only,
      and decodes back to the same colour (red, green, blue in that order). */
  lemma ToHexStringRoundTrip(c: Color)
    requires c.InByteRange()
    ensures |c.ToHexString()| == 7
    ensures forall i :: 1 <= i < 7 ==> IsHexDigit(c.ToHexString()[i])
    ensures ParseHexString(c.ToHexString()) == Some(c)
  {
    HexComponentOfByte(c.red);
    HexComponentOfByte(c.green);
    HexComponentOfByte(c.blue);
    HashThenPairs(HexComponent(c.red), HexComponent(c.green), HexComponent(c.blue));
    HexPairValue(c.red);
    HexPairValue(c.green);
    HexPairValue(c.blue);
  }

  /** A component below 16 is "0" and its digit; others are emitted unpadded. */
  lemma HexComponentShape(n: int)
    ensures 0 <= n < 16 ==> HexComponent(n) == ['0', HexDigit(n)]
    ensures n >= 16 ==> HexComponent(n) == NatToHex(n)
  {
  }

  const DecimalDigits: string := "0123456789"

  /** Number.prototype.toString() of an integer. */
  function NatToDecimal(n: nat): (s: string)
    ensures |s| >= 1
    ensures forall i :: 0 <= i < |s| ==> s[i] in DecimalDigits
  {
    if n < 10 then [DecimalDigits[n]] else NatToDecimal(n / 10) + [DecimalDigits[n % 10]]
  }

  function IntToDecimal(n: int): string
  {
    if n < 0 then "-" + NatToDecimal(-n) else NatToDecimal(n)
  }

  function DecimalValue(s: string): nat
    requires forall i :: 0 <= i < |s| ==> s[i] in DecimalDigits
  {
    if |s| == 0 then 0
    else 10 * DecimalValue(s[..|s| - 1]) + (s[|s| - 1] as nat - '0' as nat)
  }

  lemma {:induction false} NatToDecimalRoundTrip(n: nat)
    ensures DecimalValue(NatToDecimal(n)) == n
  {
    if n >= 10 {
      var s := NatToDecimal(n);
      assert s[..|s| - 1] == NatToDecimal(n / 10);
      NatToDecimalRoundTrip(n / 10);
    } else {
      assert NatToDecimal(n)[..0] == [];
    }
  }

  /** toString lists the three components in decimal, in order, separated by ", ". */
  lemma ToStringLayout(c: Color)
    requires 0 <= c.red && 0 <= c.green && 0 <= c.blue
    ensures var s := c.ToString();
      var r := NatToDecimal(c.red);
      var g := NatToDecimal(c.green);
      var b := NatToDecimal(c.blue);
      s == "(" + r + ", " + g + ", " + b + ")" &&
      DecimalValue(r) == c.red && DecimalValue(g) == c.green && DecimalValue(b) == c.blue
  {
    NatToDecimalRoundTrip(c.red);
    NatToDecimalRoundTrip(c.green);
    NatToDecimalRoundTrip(c.blue);
  }

  lemma CopyEqual(c: Color)
    ensures c.Copy() == c
    ensures c.Copy().ToHexString() == c.ToHexString()
  {
  }
}
