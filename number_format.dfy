/**
 * The number formatting helpers of sprintf: FormatNumber (%d, %i, %u, %n and
 * the floating-point conversions), FormatOct (%o) and FormatHex (%x, %X).
 * Each formats only numeric values and yields the empty string for anything
 * else. The text of the number is then either aligned in the field with
 * spaces ("{0,n}" / "{0,-n}"), or, for zero padding, padded on the left with
 * the padding character and given its sign or prefix in front.
 *
 * The composite-format parser of string.Format reads the alignment of
 * "{0,n}" one digit at a time and stops once it has reached 1000000; a digit
 * left over is a FormatException. The alignment is the decimal text of the
 * width, without leading zeros, so a width of eight or more digits fails.
 */
module NumberFormat {
  import opened Wrappers
  import opened Text
  import opened ClrValues
  import opened Exceptions

  /** The smallest width whose "{0,n}" string.Format rejects. */
  const AlignmentLimit: nat := 10_000_000

  predicate TooWide(width: Option<nat>) { width.Some? && width.value >= AlignmentLimit }

  /** string.Format("{0,n}", s) or "{0,-n}": s in a field of spaces, or a FormatException for too wide a field. */
  function AlignedText(s: string, width: Option<nat>, leftAlign: bool): (r: Result<string, Exception>)
    ensures r.Failure? <==> TooWide(width)
    ensures r.Failure? ==> r.error == FormatException
    ensures r.Success? ==> InField(r.value, s, width, leftAlign, ' ')
  {
    if TooWide(width) then Failure(FormatException)
    else
      AlignInField(s, width, leftAlign);
      Success(Align(s, width, leftAlign))
  }

  /** What the '+' and ' ' flags put in front of a number that is not negative. */
  function PositivePrefix(plusSign: bool, spaceSign: bool): string
  {
    if plusSign then "+" else if spaceSign then " " else ""
  }

  /** The decimal text of x with the sign the flags ask for. */
  function SignedDecimal(x: int, plusSign: bool, spaceSign: bool): string
  {
    if x >= 0 then PositivePrefix(plusSign, spaceSign) + IntText(x) else IntText(x)
  }

  /** The signed decimal text reads back to the number it was made from. */
  lemma SignedDecimalRoundTrip(x: int, plusSign: bool, spaceSign: bool)
    ensures ParseDecimal(SignedDecimal(x, plusSign, spaceSign)) == Some(x)
  {
    var m: nat := if x < 0 then -x else x;
    var digits := ToBase(m, 10, false);
    ToBaseDecimalDigits(m);
    ToBaseRoundTrip(m, 10, false);
    ReadDigitsValue(digits);
    var t := SignedDecimal(x, plusSign, spaceSign);
    if x < 0 || plusSign || spaceSign {
      assert t == [t[0]] + digits;
      assert t[1..] == digits;
    } else {
      assert t == digits;
      assert IsDigit(t[0]);
    }
  }

  /**
   * FormatNumber. Only the "d" native format (integers without digit
   * grouping) is modelled; "n", "f", "e", "E", "g" and "G" of a number are
   * reported as NotModelled.
   */
  function FormatNumber(native: char, width: Option<nat>, leftAlign: bool,
                        plusSign: bool, spaceSign: bool, padding: char, v: Value): (r: Result<string, Exception>)
    ensures !IsNumericType(v) ==> r == Success("")
    ensures r.Failure? <==>
      IsNumericType(v) && (native != 'd' || (if leftAlign || padding == ' ' then TooWide(width) else width == Some(0)))
    ensures r.Failure? ==>
      r.error == (if native != 'd' then NotModelled(native)
                  else if leftAlign || padding == ' ' then FormatException
                  else ArgumentOutOfRange)
  {
    if !IsNumericType(v) then Success("")
    else if native != 'd' then Failure(NotModelled(native))
    else if leftAlign || padding == ' ' then
      var text := if IsPositive(v, true) then PositivePrefix(plusSign, spaceSign) + IntText(v.n) else IntText(v.n);
      AlignedText(text, width, leftAlign)
    else
      var digits := IntText(v.n);
      var magnitude := if digits[0] == '-' then digits[1..] else digits;
      if width == Some(0) then Failure(ArgumentOutOfRange)
      else
        var padded := if width.Some? then PadLeft(magnitude, width.value - 1, padding) else magnitude;
        var sign :=
          if !IsPositive(v, true) then "-"
          else if plusSign then "+"
          else if spaceSign then " "
          else if width.Some? then [padding]
          else "";
        Success(sign + padded)
  }

  /**
   * Space padding: the signed decimal text of the value sits flush left or
   * flush right in a field of at least the given width, filled with spaces;
   * a field string.Format cannot align is a FormatException.
   */
  lemma FormatNumberAligned(width: Option<nat>, leftAlign: bool, plusSign: bool, spaceSign: bool,
                            padding: char, v: Value)
    requires IsNumericType(v) && InRange(v) && (leftAlign || padding == ' ')
    ensures var r := FormatNumber('d', width, leftAlign, plusSign, spaceSign, padding, v);
      var t := SignedDecimal(v.n, plusSign, spaceSign);
      && (r.Failure? <==> TooWide(width))
      && (r.Failure? ==> r.error == FormatException)
      && (r.Success? ==> InField(r.value, t, width, leftAlign, ' '))
      && ParseDecimal(t) == Some(v.n)
  {
    IsPositiveIsSign(v, true);
    SignedDecimalRoundTrip(v.n, plusSign, spaceSign);
  }

  function Magnitude(x: int): nat { if x < 0 then -x else x }

  /** IntText is a '-' for a negative number, then the digits of its magnitude. */
  lemma IntTextParts(x: int)
    ensures IntText(x) == (if x < 0 then "-" else "") + ToBase(Magnitude(x), 10, false)
    ensures IntText(x)[0] == '-' <==> x < 0
  {
    ToBaseDecimalDigits(Magnitude(x));
    assert !IsDigit('-');
  }

  /** What the zero-padding branch writes in front of the padded digits. */
  function ZeroPadSign(x: int, plusSign: bool, spaceSign: bool): char
  {
    if x < 0 then '-' else if plusSign then '+' else if spaceSign then ' ' else '0'
  }

  lemma FormatNumberZeroPaddedParts(n: nat, plusSign: bool, spaceSign: bool, v: Value)
    requires IsNumericType(v) && InRange(v) && n >= 1
    ensures FormatNumber('d', Some(n), false, plusSign, spaceSign, '0', v)
      == Success(ZeroPadded(v.n, n, plusSign, spaceSign))
  {
    IsPositiveIsSign(v, true);
    IntTextParts(v.n);
    var text := IntText(v.n);
    if v.n < 0 {
      assert text[1..] == ToBase(Magnitude(v.n), 10, false);
    }
  }

  /**
   * Zero padding to width n: the result reads back to the value, starts
   * with '-' exactly when the value is negative, and has one position for
   * the sign (or a padding '0') plus n - 1 for the digits, or more when the
   * digits do not fit: 123 with width 3 becomes "0123".
   */
  lemma FormatNumberZeroPadded(n: nat, plusSign: bool, spaceSign: bool, v: Value)
    requires IsNumericType(v) && InRange(v) && n >= 1
    ensures var r := FormatNumber('d', Some(n), false, plusSign, spaceSign, '0', v);
      var digits := ToBase(Magnitude(v.n), 10, false);
      && r.Success?
      && |r.value| == (if n - 1 > |digits| then n else |digits| + 1)
      && r.value[|r.value| - |digits|..] == digits
      && (r.value[0] == '-' <==> v.n < 0)
      && ParseDecimal(r.value) == Some(v.n)
  {
    FormatNumberZeroPaddedParts(n, plusSign, spaceSign, v);
    var t := ZeroPadded(v.n, n, plusSign, spaceSign);
    assert FormatNumber('d', Some(n), false, plusSign, spaceSign, '0', v) == Success(t);
    ZeroPaddedText(v.n, n, plusSign, spaceSign);
  }

  /** The zero-padded text of x: its length, its digits at the end, its sign and its value. */
  lemma ZeroPaddedText(x: int, n: nat, plusSign: bool, spaceSign: bool)
    requires n >= 1
    ensures var digits := ToBase(Magnitude(x), 10, false);
      var r := ZeroPadded(x, n, plusSign, spaceSign);
      && |r| == (if n - 1 > |digits| then n else |digits| + 1)
      && r[|r| - |digits|..] == digits
      && (r[0] == '-' <==> x < 0)
      && ParseDecimal(r) == Some(x)
  {
    ZeroPaddedShape(x, n, plusSign, spaceSign);
    ZeroPaddedParse(x, n, plusSign, spaceSign);
  }

  /** The text the zero-padding branch builds for x in a field of width n. */
  function ZeroPadded(x: int, n: nat, plusSign: bool, spaceSign: bool): string
    requires n >= 1
  {
    [ZeroPadSign(x, plusSign, spaceSign)] + PadLeft(ToBase(Magnitude(x), 10, false), n - 1, '0')
  }

  /** The zero-padded text: the sign, then the digits of the magnitude padded to n - 1. */
  lemma ZeroPaddedShape(x: int, n: nat, plusSign: bool, spaceSign: bool)
    requires n >= 1
    ensures var digits := ToBase(Magnitude(x), 10, false);
      var r := ZeroPadded(x, n, plusSign, spaceSign);
      && |r| == (if n - 1 > |digits| then n else |digits| + 1)
      && r[|r| - |digits|..] == digits
      && (r[0] == '-' <==> x < 0)
  {
    var digits := ToBase(Magnitude(x), 10, false);
    var padded := PadLeft(digits, n - 1, '0');
    var r := ZeroPadded(x, n, plusSign, spaceSign);
    PadLeftShape(digits, n - 1, '0');
    assert r[|r| - |digits|..] == padded[|padded| - |digits|..];
  }

  /** The zero-padded text reads back to x. */
  lemma ZeroPaddedParse(x: int, n: nat, plusSign: bool, spaceSign: bool)
    requires n >= 1
    ensures ParseDecimal(ZeroPadded(x, n, plusSign, spaceSign)) == Some(x)
  {
    var c := ZeroPadSign(x, plusSign, spaceSign);
    var k: int := Magnitude(x);
    var padded := PadLeft(ToBase(Magnitude(x), 10, false), n - 1, '0');
    assert ZeroPadded(x, n, plusSign, spaceSign) == [c] + padded;
    SignedPaddedDigits(c, Magnitude(x), n - 1);
    assert ParseDecimal([c] + padded) == Some(if c == '-' then -k else k);
    assert (if c == '-' then -k else k) == x;
  }

  /** A sign character, or '0', in front of zero-padded decimal digits of m, read back. */
  lemma SignedPaddedDigits(c: char, m: nat, w: nat)
    requires c == '-' || c == '+' || c == ' ' || c == '0'
    ensures var k: int := m; ParseDecimal([c] + PadLeft(ToBase(m, 10, false), w, '0')) == Some(if c == '-' then -k else k)
  {
    var s := PadLeft(ToBase(m, 10, false), w, '0');
    ZeroPaddedValueAndDigits(m, w);
    SignThenValue(c, m, s);
  }

  lemma SignThenValue(c: char, m: nat, s: string)
    requires c == '-' || c == '+' || c == ' ' || c == '0'
    requires s != [] && AllDigits(s) && FromBase(s, 10) == m
    ensures var k: int := m; ParseDecimal([c] + s) == Some(if c == '-' then -k else k)
  {
    SignThenDigits(c, s);
  }

  lemma ZeroPaddedValueAndDigits(m: nat, w: nat)
    ensures var padded := PadLeft(ToBase(m, 10, false), w, '0');
      padded != [] && AllDigits(padded) && FromBase(padded, 10) == m
  {
    var digits := ToBase(m, 10, false);
    ToBaseDecimalDigits(m);
    ToBaseRoundTrip(m, 10, false);
    ZeroPaddedValue(digits, w, 10);
    ZeroPaddedDigits(digits, w);
  }

  /** A sign character or a '0' in front of a digit string, read back. */
  lemma SignThenDigits(c: char, s: string)
    requires c == '-' || c == '+' || c == ' ' || c == '0'
    requires s != [] && AllDigits(s)
    ensures var f: int := FromBase(s, 10); ParseDecimal([c] + s) == Some(if c == '-' then -f else f)
  {
    var r := [c] + s;
    assert r[1..] == s;
    if c == '0' {
      assert r == Repeat('0', 1) + s;
      FromBaseLeadingZeros(1, s, 10);
      assert AllDigits(r);
      ReadDigitsValue(r);
    } else {
      ReadDigitsValue(s);
    }
  }

  /** Zero padding in a field of width 0 asks String.PadLeft for width -1. */
  lemma FormatNumberZeroWidth(plusSign: bool, spaceSign: bool, v: Value)
    requires IsNumericType(v)
    ensures FormatNumber('d', Some(0), false, plusSign, spaceSign, '0', v) == Failure(ArgumentOutOfRange)
  {
  }

  /** Convert.ToString(long, 8): the octal digits of the 64-bit two's-complement pattern. */
  function OctalDigits(v: Value): (r: string)
    ensures FromBase(r, 8) == UnboxToLong(v) % 0x1_0000_0000_0000_0000
    ensures r == "0" <==> UnboxToLong(v) % 0x1_0000_0000_0000_0000 == 0
  {
    var m := UnboxToLong(v) % 0x1_0000_0000_0000_0000;
    ToBaseRoundTrip(m, 8, false);
    ToBaseNoLeadingZero(m, 8, false);
    ToBase(m, 8, false)
  }

  /** FormatOct (%o): '#' puts a '0' in front of a non-zero number. */
  function FormatOct(alternate: bool, width: Option<nat>, leftAlign: bool, padding: char, v: Value)
    : (r: Result<string, Exception>)
    ensures !IsNumericType(v) ==> r == Success("")
    ensures r.Failure? <==>
      IsNumericType(v) &&
      if leftAlign || padding == ' ' then TooWide(width)
      else alternate && width == Some(0) && OctalDigits(v) != "0"
    ensures r.Failure? ==> r.error == if leftAlign || padding == ' ' then FormatException else ArgumentOutOfRange
  {
    if !IsNumericType(v) then Success("")
    else
      var digits := OctalDigits(v);
      if leftAlign || padding == ' ' then
        AlignedText(if alternate && digits != "0" then "0" + digits else digits, width, leftAlign)
      else
        var lead := if alternate && digits != "0" then 1 else 0;
        if width.Some? && width.value < lead then Failure(ArgumentOutOfRange)
        else
          var padded := if width.Some? then PadLeft(digits, width.value - lead, padding) else digits;
          Success(AlternateOctal(alternate, padded))
  }

  /** The '#' prefix of %o, tested on the text it is put in front of. */
  function AlternateOctal(alternate: bool, s: string): string
  {
    if alternate && s != "0" then "0" + s else s
  }

  /** '0' in front of a digit string keeps its value in any base. */
  lemma LeadingZeroValue(s: string, base: nat)
    ensures FromBase("0" + s, base) == FromBase(s, base)
  {
    assert "0" + s == Repeat('0', 1) + s;
    FromBaseLeadingZeros(1, s, base);
  }

  /**
   * Space padding (%o, %-o): the octal text, with its '0' for '#' and a
   * non-zero value, sits in the field and reads back to the 64-bit pattern.
   */
  lemma FormatOctAligned(alternate: bool, width: Option<nat>, leftAlign: bool, padding: char, v: Value)
    requires IsNumericType(v) && (leftAlign || padding == ' ')
    ensures var r := FormatOct(alternate, width, leftAlign, padding, v);
      var value := UnboxToLong(v) % 0x1_0000_0000_0000_0000;
      var t := if alternate && value != 0 then "0" + OctalDigits(v) else OctalDigits(v);
      && (r.Failure? <==> TooWide(width))
      && (r.Success? ==> InField(r.value, t, width, leftAlign, ' '))
      && FromBase(t, 8) == value
      && (alternate && value != 0 ==> t[0] == '0')
  {
    var digits := OctalDigits(v);
    LeadingZeroValue(digits, 8);
  }

  /**
   * Zero padding (%0no): at least n characters that read back to the 64-bit
   * pattern, led by '0' under '#' for a non-zero number.
   */
  lemma FormatOctZeroPadded(alternate: bool, n: nat, v: Value)
    requires IsNumericType(v) && (alternate ==> n >= 1)
    ensures var r := FormatOct(alternate, Some(n), false, '0', v);
      var value := UnboxToLong(v) % 0x1_0000_0000_0000_0000;
      && r.Success? && |r.value| >= n
      && FromBase(r.value, 8) == value
      && (alternate && value != 0 ==> r.value[0] == '0')
  {
    var digits := OctalDigits(v);
    var lead := if alternate && digits != "0" then 1 else 0;
    FormatOctZeroParts(alternate, n, v);
    ZeroPaddedOctal(alternate, n - lead, digits);
  }

  lemma FormatOctZeroParts(alternate: bool, n: nat, v: Value)
    requires IsNumericType(v) && (alternate ==> n >= 1)
    ensures var lead := if alternate && OctalDigits(v) != "0" then 1 else 0;
      FormatOct(alternate, Some(n), false, '0', v)
        == Success(AlternateOctal(alternate, PadLeft(OctalDigits(v), n - lead, '0')))
  {
  }

  lemma ZeroPaddedOctal(alternate: bool, w: nat, digits: string)
    requires digits != []
    ensures var r := AlternateOctal(alternate, PadLeft(digits, w, '0'));
      && |r| >= w + (if alternate && digits != "0" then 1 else 0)
      && FromBase(r, 8) == FromBase(digits, 8)
      && (alternate && digits != "0" ==> r[0] == '0')
  {
    var padded := PadLeft(digits, w, '0');
    ZeroPaddedValue(digits, w, 8);
    LeadingZeroValue(padded, 8);
    if padded == "0" {
      PadLeftShape(digits, w, '0');
      assert padded[|padded| - |digits|..] == digits;
    }
  }

  /**
   * The '#' test is made again after padding, so a zero padded to n >= 2
   * digits gains a further '0': %#0no of any zero is n + 1 zeros ("0000"
   * for %#03o), where a non-zero value gets n characters or more.
   */
  lemma FormatOctZeroQuirk(n: nat, v: Value)
    requires IsNumericType(v) && InRange(v) && v.n == 0 && n >= 2
    ensures FormatOct(true, Some(n), false, '0', v) == Success(Repeat('0', n + 1))
  {
    var digits := OctalDigits(v);
    assert UnboxToLong(v) == 0;
    assert digits == "0";
    FormatOctZeroParts(true, n, v);
    var padded := PadLeft(digits, n, '0');
    assert padded == Repeat('0', n - 1) + "0" && |padded| == n;
    var r := "0" + padded;
    assert forall i | 0 <= i < |r| :: r[i] == '0';
    assert r == Repeat('0', n + 1);
  }

  /** The two's-complement bit pattern of an integral value in its own width. */
  function BitPattern(v: Value): nat
    requires IsNumericType(v)
  {
    match v
    case SByte(n) => n % 0x100
    case Byte(n) => n % 0x100
    case Short(n) => n % 0x1_0000
    case UShort(n) => n % 0x1_0000
    case Int(n) => n % 0x1_0000_0000
    case UInt(n) => n % 0x1_0000_0000
    case Long(n) => n % 0x1_0000_0000_0000_0000
    case ULong(n) => n % 0x1_0000_0000_0000_0000
  }

  /** The bit pattern is the value modulo two to the width of its type. */
  lemma BitPatternIsModulo(v: Value)
    requires IsNumericType(v)
    ensures BitPattern(v) == v.n % Pow2(Bits(v)) && BitPattern(v) < Pow2(Bits(v))
  {
  }

  /** "{0:x}" or "{0:xp}": hex digits of the bit pattern, at least p of them. */
  function HexDigits(v: Value, upper: bool, precision: Option<nat>): (r: string)
    requires IsNumericType(v)
    ensures FromBase(r, 16) == BitPattern(v)
    ensures precision.Some? ==> |r| >= precision.value
  {
    var m := BitPattern(v);
    var digits := ToBase(m, 16, upper);
    ToBaseRoundTrip(m, 16, upper);
    if precision.Some? then
      ZeroPaddedValue(digits, precision.value, 16);
      PadLeft(digits, precision.value, '0')
    else digits
  }

  function HexPrefix(upper: bool): string { if upper then "0X" else "0x" }

  /** FormatHex (%x, %X): '#' puts "0x" or "0X" in front. */
  function FormatHex(upper: bool, alternate: bool, width: Option<nat>, precision: Option<nat>,
                     leftAlign: bool, padding: char, v: Value): (r: Result<string, Exception>)
    ensures !IsNumericType(v) ==> r == Success("")
    ensures r.Failure? <==>
      IsNumericType(v) &&
      if leftAlign || padding == ' ' then TooWide(width)
      else alternate && width.Some? && width.value < 2
    ensures r.Failure? ==> r.error == if leftAlign || padding == ' ' then FormatException else ArgumentOutOfRange
  {
    if !IsNumericType(v) then Success("")
    else PrefixedDigits(if alternate then HexPrefix(upper) else "", width, leftAlign, padding,
                        HexDigits(v, upper, precision))
  }

  /**
   * The hex layout on its own: space padding aligns prefix and digits; zero
   * padding pads the digits alone to the width less the prefix, which fails
   * when the prefix is wider than the field.
   */
  function PrefixedDigits(prefix: string, width: Option<nat>, leftAlign: bool, padding: char, digits: string)
    : Result<string, Exception>
  {
    if leftAlign || padding == ' ' then AlignedText(prefix + digits, width, leftAlign)
    else if width.Some? && width.value < |prefix| then Failure(ArgumentOutOfRange)
    else Success(prefix + if width.Some? then PadLeft(digits, width.value - |prefix|, padding) else digits)
  }

  /** Space padding (%x, %-#X): the prefixed hex text sits in the field; its digits read back to the value's pattern. */
  lemma FormatHexAligned(upper: bool, alternate: bool, width: Option<nat>, precision: Option<nat>,
                         leftAlign: bool, padding: char, v: Value)
    requires IsNumericType(v) && (leftAlign || padding == ' ')
    ensures var r := FormatHex(upper, alternate, width, precision, leftAlign, padding, v);
      var k := if alternate then 2 else 0;
      var t := (if alternate then HexPrefix(upper) else "") + HexDigits(v, upper, precision);
      && (r.Failure? <==> TooWide(width))
      && (r.Success? ==> InField(r.value, t, width, leftAlign, ' '))
      && t[..k] == (if alternate then HexPrefix(upper) else "")
      && FromBase(t[k..], 16) == BitPattern(v)
  {
    var prefix := if alternate then HexPrefix(upper) else "";
    assert |prefix| == if alternate then 2 else 0;
    var digits := HexDigits(v, upper, precision);
    assert FormatHex(upper, alternate, width, precision, leftAlign, padding, v)
      == PrefixedDigits(prefix, width, leftAlign, padding, digits);
    PrefixedDigitsAligned(prefix, width, leftAlign, padding, digits);
  }

  /** Space padding: prefix and digits together sit in the field. */
  lemma PrefixedDigitsAligned(prefix: string, width: Option<nat>, leftAlign: bool, padding: char, digits: string)
    requires leftAlign || padding == ' '
    ensures var r := PrefixedDigits(prefix, width, leftAlign, padding, digits);
      var t := prefix + digits;
      && (r.Failure? <==> TooWide(width))
      && (r.Success? ==> InField(r.value, t, width, leftAlign, ' '))
      && t[..|prefix|] == prefix && t[|prefix|..] == digits
  {
    var t := prefix + digits;
    assert t[..|prefix|] == prefix && t[|prefix|..] == digits;
  }

  /** Zero padding (%0nx): the prefix, then zero-padded digits filling a field of at least n, read back to the pattern. */
  lemma FormatHexZeroPadded(upper: bool, alternate: bool, n: nat, precision: Option<nat>, v: Value)
    requires IsNumericType(v) && (alternate ==> n >= 2)
    ensures var r := FormatHex(upper, alternate, Some(n), precision, false, '0', v);
      var k := if alternate then 2 else 0;
      && r.Success? && |r.value| >= n
      && r.value[..k] == (if alternate then HexPrefix(upper) else "")
      && FromBase(r.value[k..], 16) == BitPattern(v)
  {
    var prefix := if alternate then HexPrefix(upper) else "";
    assert |prefix| == if alternate then 2 else 0;
    var digits := HexDigits(v, upper, precision);
    assert FormatHex(upper, alternate, Some(n), precision, false, '0', v)
      == PrefixedDigits(prefix, Some(n), false, '0', digits);
    PrefixedDigitsZeroPadded(prefix, n, digits, 16);
  }

  /** Zero padding in a field of n at least as wide as the prefix: prefix first, the padded digits keep their value. */
  lemma PrefixedDigitsZeroPadded(prefix: string, n: nat, digits: string, base: nat)
    requires n >= |prefix|
    ensures var r := PrefixedDigits(prefix, Some(n), false, '0', digits);
      && r.Success? && |r.value| >= n && r.value[..|prefix|] == prefix
      && FromBase(r.value[|prefix|..], base) == FromBase(digits, base)
  {
    assert PrefixedDigits(prefix, Some(n), false, '0', digits) == Success(prefix + PadLeft(digits, n - |prefix|, '0'));
    PrefixedZeroPadded(prefix, n - |prefix|, digits, base);
  }

  lemma PrefixedZeroPadded(prefix: string, w: nat, digits: string, base: nat)
    ensures var r := prefix + PadLeft(digits, w, '0');
      && |r| >= |prefix| + w
      && r[..|prefix|] == prefix
      && FromBase(r[|prefix|..], base) == FromBase(digits, base)
  {
    var padded := PadLeft(digits, w, '0');
    ZeroPaddedValue(digits, w, base);
    var r := prefix + padded;
    assert r[..|prefix|] == prefix;
    assert r[|prefix|..] == padded;
  }
}
