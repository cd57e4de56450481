/** Unsigned 16-bit values as the manager reads and writes them: `{0:X}` and
    `{0}` rendering, `ushort.Parse` with the default and the `HexNumber`
    styles, and the tolerant wrappers that turn every parse failure into 0. */
module Numbers {
  import opened Results
  import opened Text

  /** .NET `ushort`. */
  type UShort = x: int | 0 <= x < 0x1_0000

  const MaxUShort: int := 0xFFFF

  /** The unchecked `(ushort)` cast of a non-negative count: the low 16
      bits, so the value is kept below 65536 and wraps around above it. */
  function NarrowToUShort(n: nat): (r: UShort)
    ensures n <= MaxUShort ==> r == n
    ensures (n - r) % 0x1_0000 == 0
  {
    n % 0x1_0000
  }

  /** Value of a hexadecimal digit of either case. */
  function DigitValue(c: char): (r: Option<nat>)
    ensures r.Some? ==> r.value < 16
    ensures r.Some? ==> !IsWhiteSpace(c)
  {
    if '0' <= c <= '9' then Some(c as int - '0' as int)
    else if 'A' <= c <= 'F' then Some(c as int - 'A' as int + 10)
    else if 'a' <= c <= 'f' then Some(c as int - 'a' as int + 10)
    else None
  }

  predicate IsDigit(c: char, base: nat) {
    DigitValue(c).Some? && DigitValue(c).value < base
  }

  predicate AllDigits(s: string, base: nat) {
    forall i :: 0 <= i < |s| ==> IsDigit(s[i], base)
  }

  /** The number a digit string denotes, most significant digit first
      (meaningful when `AllDigits(s, base)`). */
  function ValueOf(s: string, base: nat): nat
    decreases |s|
  {
    if |s| == 0 then 0 else ValueOf(s[..|s| - 1], base) * base + DigitValue(s[|s| - 1]).GetOr(0)
  }

  /** The upper-case digit for `d`. */
  function DigitChar(d: nat): (c: char)
    requires d < 16
    ensures DigitValue(c) == Some(d)
    ensures !('a' <= c <= 'z')
  {
    if d < 10 then ('0' as int + d) as char else ('A' as int + d - 10) as char
  }

  /** `n` written in `base`, upper case, without leading zeros ("0" for zero). */
  function ToBase(n: nat, base: nat): (r: string)
    requires 2 <= base <= 16
    ensures |r| >= 1 && AllDigits(r, base)
    ensures ValueOf(r, base) == n
    ensures forall i :: 0 <= i < |r| ==> !('a' <= r[i] <= 'z')
    ensures |r| > 1 ==> r[0] != '0'
    decreases n
  {
    if n < base then
      var r := [DigitChar(n)];
      assert r[..0] == [];
      r
    else
      var q, d := n / base, n % base;
      DivideByBase(n, base);
      var front := ToBase(q, base);
      AppendDigit(front, d, base);
      assert front[0] != '0' by {
        if |front| == 1 { assert DigitValue(front[0]) == Some(q); }
      }
      front + [DigitChar(d)]
  }

  lemma DivideByBase(n: nat, base: nat)
    requires 2 <= base <= n
    ensures 1 <= n / base < n && n % base < base
    ensures n == (n / base) * base + n % base
  {
  }

  /** Appending a digit multiplies the value by the base and adds the digit. */
  lemma AppendDigit(front: string, d: nat, base: nat)
    requires 2 <= base <= 16 && d < base
    requires |front| >= 1 && AllDigits(front, base)
    requires forall i :: 0 <= i < |front| ==> !('a' <= front[i] <= 'z')
    ensures AllDigits(front + [DigitChar(d)], base)
    ensures ValueOf(front + [DigitChar(d)], base) == ValueOf(front, base) * base + d
    ensures forall i :: 0 <= i < |front| + 1 ==> !('a' <= (front + [DigitChar(d)])[i] <= 'z')
    ensures (front + [DigitChar(d)])[0] == front[0]
  {
    var r := front + [DigitChar(d)];
    assert r[..|r| - 1] == front;
  }

  /** `{0:X}`: upper-case hexadecimal. */
  function Hex(n: nat): (r: string)
    ensures |r| >= 1 && AllDigits(r, 16) && IsTrimmed(r)
    ensures ValueOf(r, 16) == n
    ensures forall i :: 0 <= i < |r| ==> !('a' <= r[i] <= 'z')
  {
    ToBase(n, 16)
  }

  /** `{0}` of an unsigned value: decimal. */
  function Decimal(n: nat): (r: string)
    ensures |r| >= 1 && AllDigits(r, 10) && IsTrimmed(r)
    ensures ValueOf(r, 10) == n
  {
    ToBase(n, 10)
  }

  /** A non-empty digit string whose value fits in a `ushort`. */
  function Unsigned(digits: string, base: nat): (r: Option<UShort>)
    ensures r.Some? ==> |digits| > 0 && AllDigits(digits, base) && r.value == ValueOf(digits, base)
  {
    if |digits| > 0 && AllDigits(digits, base) && ValueOf(digits, base) <= MaxUShort
    then Some(ValueOf(digits, base)) else None
  }

  /** `ushort.Parse(s, NumberStyles.HexNumber)`: hexadecimal digits of either
      case with optional surrounding white space, no sign and no `0x`;
      `None` stands for the FormatException or OverflowException. */
  function ParseHex(s: string): Option<UShort> {
    Unsigned(Trim(s), 16)
  }

  /** `ushort.Parse(s)`: decimal digits with an optional sign and optional
      surrounding white space. A minus sign is accepted only in front of a
      zero value. */
  function ParseDecimal(s: string): Option<UShort> {
    var t := Trim(s);
    if |t| > 0 && t[0] == '+' then Unsigned(t[1..], 10)
    else if |t| > 0 && t[0] == '-' then
      (if Unsigned(t[1..], 10) == Some(0) then Some(0) else None)
    else Unsigned(t, 10)
  }

  /** TryParseUShortValue: the decimal value, or 0 when parsing fails. */
  function TryParseUShortValue(s: string): (r: UShort)
    ensures ParseDecimal(s).Some? ==> r == ParseDecimal(s).value
    ensures ParseDecimal(s).None? ==> r == 0
  {
    ParseDecimal(s).GetOr(0)
  }

  /** TryParseUShortValueAsHex: the hexadecimal value, or 0 when parsing fails. */
  function TryParseUShortValueAsHex(s: string): (r: UShort)
    ensures ParseHex(s).Some? ==> r == ParseHex(s).value
    ensures ParseHex(s).None? ==> r == 0
  {
    ParseHex(s).GetOr(0)
  }

  /** Hexadecimal rendering, padded with white space on either side, parses
      back to the value. */
  lemma ParseHexOfHex(w1: string, n: UShort, w2: string)
    requires AllWhiteSpace(w1) && AllWhiteSpace(w2)
    ensures ParseHex(w1 + Hex(n) + w2) == Some(n)
    ensures TryParseUShortValueAsHex(w1 + Hex(n) + w2) == n
  {
    TrimOfPadded(w1, Hex(n), w2);
  }

  lemma HexReadsBack(n: UShort)
    ensures ParseHex(Hex(n)) == Some(n)
  {
    ParseHexOfHex("", n, "");
    assert "" + Hex(n) + "" == Hex(n);
  }

  lemma DecimalReadsBack(n: UShort)
    ensures ParseDecimal(Decimal(n)) == Some(n)
  {
    ParseDecimalOfDecimal("", n, "");
    assert "" + Decimal(n) + "" == Decimal(n);
  }

  /** Decimal rendering, padded with white space on either side, parses back
      to the value. */
  lemma ParseDecimalOfDecimal(w1: string, n: UShort, w2: string)
    requires AllWhiteSpace(w1) && AllWhiteSpace(w2)
    ensures ParseDecimal(w1 + Decimal(n) + w2) == Some(n)
    ensures TryParseUShortValue(w1 + Decimal(n) + w2) == n
  {
    var t := Decimal(n);
    TrimOfPadded(w1, t, w2);
    UnsignedOfDecimal(n);
    ParseDecimalOfDigits(w1 + t + w2);
  }

  lemma UnsignedOfDecimal(n: UShort)
    ensures Unsigned(Decimal(n), 10) == Some(n)
  {
  }

  /** Unsigned text is read as its digits' value. */
  lemma ParseDecimalOfDigits(s: string)
    requires |Trim(s)| > 0 && IsDigit(Trim(s)[0], 10)
    ensures ParseDecimal(s) == Unsigned(Trim(s), 10)
  {
  }

  /** A successful parse reads exactly the digits left after trimming, so the
      only strings that parse to `n` are renderings of `n` with leading zeros
      (hex digits may be of either case). */
  lemma ParseHexReadsDigits(s: string)
    requires ParseHex(s).Some?
    ensures |Trim(s)| > 0 && AllDigits(Trim(s), 16)
    ensures ParseHex(s).value == ValueOf(Trim(s), 16)
  {
  }

  /** The tolerant wrapper maps every signed-negative text to 0: either it
      is a negative zero or `ushort.Parse` throws. */
  lemma NegativeTextParsesToZero(s: string)
    requires |Trim(s)| > 0 && Trim(s)[0] == '-'
    ensures TryParseUShortValue(s) == 0
  {
  }

  /** Values above 0xFFFF overflow and the tolerant wrapper gives 0. */
  lemma {:induction false} HexOverflowParsesToZero(s: string)
    requires AllDigits(Trim(s), 16) && ValueOf(Trim(s), 16) > MaxUShort
    ensures TryParseUShortValueAsHex(s) == 0
  {
  }

  lemma HexOf26()
    ensures Hex(26) == "1A" && Hex(0) == "0"
  {
  }

  /** "1A" in the CIP_ID column reads as 26. */
  lemma HexExample1A()
    ensures TryParseUShortValueAsHex("1A") == 26
  {
    HexOf26();
    ParseHexOfHex("", 26, "");
    assert "" + "1A" + "" == "1A";
  }

  /** Leading zeros, lower case and surrounding white space are accepted. */
  lemma HexExamplePadded()
    ensures TryParseUShortValueAsHex(" 001a\t") == 26
  {
    assert AllWhiteSpace(" ") && AllWhiteSpace("\t") && IsTrimmed("001a");
    TrimOfPadded(" ", "001a", "\t");
    assert " " + "001a" + "\t" == " 001a\t";
    assert AllDigits("001a", 16);
    assert "001a"[..3] == "001";
    assert "001"[..2] == "00";
    assert "00"[..1] == "0";
    assert ValueOf("001a", 16) == 26;
  }

  /** Text that is not hexadecimal reads as 0. */
  lemma HexExampleZZ()
    ensures TryParseUShortValueAsHex("ZZ") == 0
  {
    TrimOfTrimmed("ZZ");
    assert !IsDigit("ZZ"[0], 16);
  }

  /** An empty field reads as 0. */
  lemma HexExampleEmpty()
    ensures TryParseUShortValueAsHex("") == 0
  {
    TrimOfTrimmed("");
  }

  /** 0x10000 overflows a `ushort` and reads as 0. */
  lemma HexExampleOverflow()
    ensures TryParseUShortValueAsHex("10000") == 0
  {
    TrimOfTrimmed("10000");
    assert "10000"[..4] == "1000";
    assert "1000"[..3] == "100";
    assert "100"[..2] == "10";
    assert "10"[..1] == "1";
  }

  lemma DecimalExamplePort()
    ensures TryParseUShortValue("41794") == 41794
  {
    ParseDecimalOfDecimal("", 41794, "");
    assert Decimal(41794) == "41794";
    assert "" + "41794" + "" == "41794";
  }

  /** A leading plus sign and surrounding white space are accepted. */
  lemma DecimalExamplePlus()
    ensures TryParseUShortValue(" +80 ") == 80
  {
    assert AllWhiteSpace(" ") && IsTrimmed("+80");
    TrimOfPadded(" ", "+80", " ");
    assert " " + "+80" + " " == " +80 ";
    assert "+80"[1..] == "80";
    assert AllDigits("80", 10);
    assert "80"[..1] == "8";
    assert ValueOf("80", 10) == 80;
  }

  lemma DecimalExampleNegative()
    ensures TryParseUShortValue("-0") == 0
    ensures TryParseUShortValue("-5") == 0
  {
    TrimOfTrimmed("-0");
    TrimOfTrimmed("-5");
  }

  lemma DecimalExampleHexText()
    ensures TryParseUShortValue("1A") == 0
  {
    TrimOfTrimmed("1A");
    assert !IsDigit("1A"[1], 10);
  }

  /** 65536 overflows a `ushort` and reads as 0. */
  lemma DecimalExampleOverflow()
    ensures TryParseUShortValue("65536") == 0
  {
    TrimOfTrimmed("65536");
    assert "65536"[..4] == "6553";
    assert "6553"[..3] == "655";
    assert "655"[..2] == "65";
    assert "65"[..1] == "6";
    assert ValueOf("6", 10) == 6;
    assert ValueOf("65", 10) == 65;
    assert ValueOf("655", 10) == 655;
    assert ValueOf("6553", 10) == 6553;
    assert ValueOf("65536", 10) == 65536;
  }
}
