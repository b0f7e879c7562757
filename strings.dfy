/**
 * The sprintf builtin: each conversion specifier in the template is replaced,
 * left to right, by the rendering of a parameter, and the search for the next
 * specifier resumes just after the inserted text, so text that came from a
 * parameter is never scanned again.
 *
 * Format / FormatFrom are the reference definition, one specifier at a time;
 * Sprintf is the source's loop over a mutable buffer, proved equal to it.
 * Each exception the source can throw is a Failure.
 */
module Strings {
  import opened Wrappers
  import opened Text
  import opened ClrValues
  import opened Exceptions
  import opened Specifier
  import opened NumberFormat

  const MaxInt32: nat := 0x7FFF_FFFF

  /** Convert.ToInt32 on the digit groups: no digits is a FormatException, more than Int32.MaxValue an OverflowException. */
  function ParseInt32(s: string): (r: Result<nat, Exception>)
    ensures r.Success? <==> s != [] && AllDigits(s) && FromBase(s, 10) <= MaxInt32
    ensures r.Success? ==> r.value == FromBase(s, 10)
    ensures r.Failure? ==> r.error == if s != [] && AllDigits(s) then OverflowException else FormatException
  {
    ReadDigitsSome(s);
    match ReadDigits(s)
    case None => Failure(FormatException)
    case Some(n) =>
      ReadDigitsValue(s);
      if n > MaxInt32 then Failure(OverflowException) else Success(n)
  }

  /** Convert.ToInt32 reads back what Int32.ToString writes. */
  lemma ParseInt32RoundTrip(n: nat)
    requires n <= MaxInt32
    ensures ParseInt32(ToBase(n, 10, false)) == Success(n)
  {
    ToBaseDecimalDigits(n);
    ToBaseRoundTrip(n, 10, false);
  }

  /** The flags group. ' ' is dropped when '+' is also present. */
  datatype Flags = Flags(alternate: bool, leftAlign: bool, plusSign: bool, spaceSign: bool, groupThousands: bool)

  function ResolveFlags(flags: string): (r: Flags)
    ensures r.alternate <==> '#' in flags
    ensures r.leftAlign <==> '-' in flags
    ensures r.plusSign <==> '+' in flags
    ensures r.spaceSign <==> ' ' in flags && '+' !in flags
    ensures r.groupThousands <==> '\'' in flags
  {
    Flags('#' in flags, '-' in flags, '+' in flags, ' ' in flags && '+' !in flags, '\'' in flags)
  }

  /** A width written with a leading '0' pads with zeros, unless '-' left-aligns. */
  function PaddingChar(width: string, leftAlign: bool): (c: char)
    ensures c == '0' || c == ' '
    ensures c == '0' <==> width != [] && width[0] == '0' && !leftAlign
  {
    if width != [] && width[0] == '0' && !leftAlign then '0' else ' '
  }

  /** The parameter a specifier refers to: n$ names the n-th (from 1), otherwise the next one in turn. */
  function ParameterIndex(index: Option<string>, defaultIndex: nat): (r: Result<int, Exception>)
    ensures index.None? ==> r == Success(defaultIndex)
    ensures index.Some? ==> r == match ParseInt32(index.value)
                                 case Failure(e) => Failure(e)
                                 case Success(n) => Success(n - 1)
    ensures r.Success? ==> r.value >= -1
  {
    match index
    case None => Success(defaultIndex)
    case Some(digits) =>
      var n :- ParseInt32(digits);
      Success(n - 1)
  }

  /** The width or precision group as a number, absent when the group is. */
  function OptionalInt32(digits: string): (r: Result<Option<nat>, Exception>)
    ensures digits == [] ==> r == Success(None)
    ensures digits != [] ==> r == match ParseInt32(digits)
                                  case Failure(e) => Failure(e)
                                  case Success(n) => Success(Some(n))
  {
    if digits == [] then Success(None)
    else
      var n :- ParseInt32(digits);
      Success(Some(n))
  }

  function PrecisionDigits(precision: Option<string>): string
  {
    if precision.Some? then precision.value else ""
  }

  /** Without a precision, every conversion except s, c, x, X and o gets precision 6. */
  function EffectivePrecision(precision: Option<nat>, conversion: char): (r: Option<nat>)
    ensures precision.Some? ==> r == precision
    ensures precision.None? ==> (r.Some? <==> conversion !in "scxXo")
    ensures r.Some? && precision.None? ==> r.value == 6
  {
    if precision.None? && conversion !in "scxXo" then Some(6) else precision
  }

  /**
   * The h and l length modifiers. A type the modifier does not apply to is an
   * ArgumentException, whose message calls GetType on the value, so null is a
   * NullReference.
   */
  function SizeConvert(o: Value, size: Option<char>): (r: Result<Value, Exception>)
    ensures size.None? ==> r == Success(o)
    ensures size == Some('h') ==> r == match ShortArgument(o)
                                       case Some(u) => Success(u)
                                       case None => Failure(if o.Null? then NullReference else ArgumentException)
    ensures size == Some('l') ==> r == match LongArgument(o)
                                       case Some(u) => Success(u)
                                       case None => Failure(if o.Null? then NullReference else ArgumentException)
  {
    var converted :=
      if size == Some('h') then ShortArgument(o)
      else if size == Some('l') then LongArgument(o)
      else Some(o);
    match converted
    case Some(u) => Success(u)
    case None => Failure(if o.Null? then NullReference else ArgumentException)
  }

  /**
   * The value a specifier formats: null past the end of the parameters (no
   * length modifier applied then), index -1 (from "0$") is out of range.
   */
  function SelectParameter(paramIx: int, parameters: seq<Value>, size: Option<char>): (r: Result<Value, Exception>)
    ensures paramIx >= |parameters| ==> r == Success(Null)
    ensures paramIx < 0 ==> r == Failure(IndexOutOfRange)
    ensures 0 <= paramIx < |parameters| ==> r == SizeConvert(parameters[paramIx], size)
  {
    if paramIx >= |parameters| then Success(Null)
    else if paramIx < 0 then Failure(IndexOutOfRange)
    else SizeConvert(parameters[paramIx], size)
  }

  /**
   * %c: Convert.ToChar of an integral value (OverflowException outside
   * 0..65535), a char itself, the first character of a non-empty string, and
   * nothing for anything else.
   */
  function CharText(o: Value): (r: Result<string, Exception>)
    ensures r.Failure? <==> IsNumericType(o) && !(0 <= o.n < 0xD800 || 0xE000 <= o.n <= 0xFFFF)
    ensures r.Failure? ==> r.error == if 0 <= o.n <= 0xFFFF then NotModelled('c') else OverflowException
    ensures r.Success? ==> |r.value| <= 1
    ensures r.Success? && IsNumericType(o) ==> r.value == [o.n as char]
    ensures o.Char? ==> r == Success([o.c])
    ensures o.Str? ==> r == Success(if o.s != [] then [o.s[0]] else "")
  {
    if IsNumericType(o) then
      if o.n < 0 || o.n > 0xFFFF then Failure(OverflowException)
      else if 0xD800 <= o.n < 0xE000 then Failure(NotModelled('c'))
      else Success([o.n as char])
    else if o.Char? then Success([o.c])
    else if o.Str? && o.s != [] then Success([o.s[0]])
    else Success("")
  }

  /**
   * %s: ToString of the value (a NullReference for null), cut to the
   * precision (an ArgumentOutOfRange when the text is shorter), then padded
   * to the width with the padding character.
   */
  function StringText(o: Value, width: Option<nat>, precision: Option<nat>, leftAlign: bool, padding: char)
    : (r: Result<string, Exception>)
  {
    if o.Null? then Failure(NullReference)
    else
      var text := ToText(o);
      if precision.Some? && precision.value > |text| then Failure(ArgumentOutOfRange)
      else
        var cut := if precision.Some? then text[..precision.value] else text;
        Success(Pad(cut, width, leftAlign, padding))
  }

  /** %s places the (cut) text in its field, filled with the padding character. */
  lemma StringTextInField(o: Value, width: Option<nat>, precision: Option<nat>, leftAlign: bool, padding: char)
    ensures var r := StringText(o, width, precision, leftAlign, padding);
      && (r.Failure? <==> o.Null? || (precision.Some? && precision.value > |ToText(o)|))
      && (r.Failure? ==> r.error == if o.Null? then NullReference else ArgumentOutOfRange)
      && (r.Success? ==>
            var text := ToText(o);
            var cut := if precision.Some? then text[..precision.value] else text;
            InField(r.value, cut, width, leftAlign, padding))
  {
    if !o.Null? {
      var text := ToText(o);
      if !(precision.Some? && precision.value > |text|) {
        var cut := if precision.Some? then text[..precision.value] else text;
        PadInField(cut, width, leftAlign, padding);
      }
    }
  }

  /** The conversion switch: the text that replaces one specifier. */
  function Render(conversion: char, flags: Flags, width: Option<nat>, precision: Option<nat>,
                  padding: char, o: Value, matchIndex: nat): Result<string, Exception>
  {
    var native := if flags.groupThousands then 'n' else 'd';
    match conversion
    case '%' => Success("%")
    case 'd' => FormatNumber(native, width, flags.leftAlign, flags.plusSign, flags.spaceSign, padding, o)
    case 'i' => FormatNumber(native, width, flags.leftAlign, flags.plusSign, flags.spaceSign, padding, o)
    case 'o' => FormatOct(flags.alternate, width, flags.leftAlign, padding, o)
    case 'x' => FormatHex(false, flags.alternate, width, precision, flags.leftAlign, padding, o)
    case 'X' => FormatHex(true, flags.alternate, width, precision, flags.leftAlign, padding, o)
    case 'u' => FormatNumber(native, width, flags.leftAlign, false, false, padding, ToUnsigned(o))
    case 'c' => CharText(o)
    case 's' => StringText(o, width, precision, flags.leftAlign, padding)
    case 'f' =>
      FormatNumber(if flags.groupThousands then 'n' else 'f', width, flags.leftAlign, flags.plusSign, flags.spaceSign, padding, o)
    case 'p' => Success("")
    case 'n' => FormatNumber('d', width, flags.leftAlign, flags.plusSign, flags.spaceSign, padding, Int(matchIndex))
    case 'e' => FormatNumber('e', width, flags.leftAlign, flags.plusSign, flags.spaceSign, padding, o)
    case 'E' => FormatNumber('E', width, flags.leftAlign, flags.plusSign, flags.spaceSign, padding, o)
    case 'g' => FormatNumber('g', width, flags.leftAlign, flags.plusSign, flags.spaceSign, padding, o)
    case 'G' => FormatNumber('G', width, flags.leftAlign, flags.plusSign, flags.spaceSign, padding, o)
    case _ => Success("")
  }

  /** %% and %n leave the default parameter index where it is; every other conversion moves it on. */
  function NextDefaultIndex(conversion: char, defaultIndex: nat): nat
  {
    if conversion == '%' || conversion == 'n' then defaultIndex else defaultIndex + 1
  }

  /**
   * One pass of the loop body for the match sp at matchIndex: the
   * replacement text and the next default parameter index. The groups are
   * converted in the source's order (index, width, precision), then the
   * parameter is fetched and converted, then formatted.
   */
  function Step(sp: Spec, parameters: seq<Value>, defaultIndex: nat, matchIndex: nat)
    : Result<(string, nat), Exception>
  {
    var paramIx :- ParameterIndex(sp.index, defaultIndex);
    var flags := ResolveFlags(sp.flags);
    var width :- OptionalInt32(sp.width);
    var padding := PaddingChar(sp.width, flags.leftAlign);
    var precision :- OptionalInt32(PrecisionDigits(sp.precision));
    var o :- SelectParameter(paramIx, parameters, sp.size);
    var w :- Render(sp.conversion, flags, width, EffectivePrecision(precision, sp.conversion), padding, o, matchIndex);
    Success((w, NextDefaultIndex(sp.conversion, defaultIndex)))
  }

  /** A plain "%%" is replaced by one '%' and uses up no parameter. */
  lemma StepPercent(sp: Spec, parameters: seq<Value>, defaultIndex: nat, matchIndex: nat)
    requires sp.conversion == '%' && sp.index.None? && sp.width == "" && sp.precision.None? && sp.size.None?
    ensures Step(sp, parameters, defaultIndex, matchIndex) == Success(("%", defaultIndex))
  {
  }

  /**
   * With no parameter left, the parameter is null: the integral and %c
   * conversions write nothing, %s throws NullReferenceException.
   */
  lemma StepMissingParameter(sp: Spec, parameters: seq<Value>, defaultIndex: nat, matchIndex: nat)
    requires sp.index.None? && sp.width == "" && sp.precision.None? && sp.size.None?
    requires defaultIndex >= |parameters|
    ensures sp.conversion in "diouxXc" ==> Step(sp, parameters, defaultIndex, matchIndex) == Success(("", defaultIndex + 1))
    ensures sp.conversion == 's' ==> Step(sp, parameters, defaultIndex, matchIndex) == Failure(NullReference)
  {
    assert SelectParameter(defaultIndex, parameters, None) == Success(Null);
    assert OptionalInt32("") == Success(None);
  }

  /** A successful step moves the default parameter index on, except for %% and %n. */
  lemma StepNextIndex(sp: Spec, parameters: seq<Value>, defaultIndex: nat, matchIndex: nat)
    ensures var r := Step(sp, parameters, defaultIndex, matchIndex);
      r.Success? ==> r.value.1 == if sp.conversion in "%n" then defaultIndex else defaultIndex + 1
  {
  }

  /**
   * n$ with 1 <= n renders the n-th parameter, exactly as the next-in-turn
   * specifier would at index n - 1, and still moves the default index on
   * from where it was.
   */
  lemma StepExplicitIndex(sp: Spec, parameters: seq<Value>, defaultIndex: nat, matchIndex: nat)
    requires sp.index.Some? && sp.index.value != [] && AllDigits(sp.index.value)
    requires 1 <= FromBase(sp.index.value, 10) <= MaxInt32
    ensures var n := FromBase(sp.index.value, 10);
      Step(sp, parameters, defaultIndex, matchIndex) ==
        match Step(sp.(index := None), parameters, n - 1, matchIndex)
        case Failure(e) => Failure(e)
        case Success((w, _)) => Success((w, NextDefaultIndex(sp.conversion, defaultIndex)))
  {
  }

  /** "0$" names the parameter before the first: once width and precision convert, an IndexOutOfRange. */
  lemma StepIndexZero(sp: Spec, parameters: seq<Value>, defaultIndex: nat, matchIndex: nat)
    requires sp.index.Some? && sp.index.value != [] && AllDigits(sp.index.value) && FromBase(sp.index.value, 10) == 0
    requires OptionalInt32(sp.width).Success? && OptionalInt32(PrecisionDigits(sp.precision)).Success?
    ensures Step(sp, parameters, defaultIndex, matchIndex) == Failure(IndexOutOfRange)
  {
  }

  /**
   * The pattern's \d also takes the other decimal digits of Unicode, which
   * Convert.ToInt32 rejects: such an n$ group, or an empty one ("%$d"), is
   * a FormatException, and so is such a width.
   */
  lemma StepNotAsciiDigits(sp: Spec, parameters: seq<Value>, defaultIndex: nat, matchIndex: nat)
    ensures sp.index.Some? && !(sp.index.value != [] && AllDigits(sp.index.value)) ==>
      Step(sp, parameters, defaultIndex, matchIndex) == Failure(FormatException)
    ensures sp.index.None? && sp.width != [] && !AllDigits(sp.width) ==>
      Step(sp, parameters, defaultIndex, matchIndex) == Failure(FormatException)
  {
  }

  /** Once the groups convert, a next-in-turn specifier without h or l renders the next parameter. */
  lemma StepRenders(sp: Spec, parameters: seq<Value>, defaultIndex: nat, matchIndex: nat)
    requires sp.index.None? && sp.size.None? && defaultIndex < |parameters|
    requires OptionalInt32(sp.width).Success? && OptionalInt32(PrecisionDigits(sp.precision)).Success?
    ensures var flags := ResolveFlags(sp.flags);
      var precision := EffectivePrecision(OptionalInt32(PrecisionDigits(sp.precision)).value, sp.conversion);
      Step(sp, parameters, defaultIndex, matchIndex) ==
        match Render(sp.conversion, flags, OptionalInt32(sp.width).value, precision,
                     PaddingChar(sp.width, flags.leftAlign), parameters[defaultIndex], matchIndex)
        case Failure(e) => Failure(e)
        case Success(w) => Success((w, NextDefaultIndex(sp.conversion, defaultIndex)))
  {
  }

  /**
   * %d and %i with space padding: the signed decimal text of the parameter
   * ('+' winning over ' ') sits in the field, flush left under '-' even when
   * the width starts with '0', and reads back to the parameter; a field
   * string.Format cannot align is a FormatException.
   */
  lemma StepSignedDecimal(sp: Spec, parameters: seq<Value>, defaultIndex: nat, matchIndex: nat)
    requires sp.index.None? && sp.size.None? && (sp.conversion == 'd' || sp.conversion == 'i') && '\'' !in sp.flags
    requires defaultIndex < |parameters| && IsNumericType(parameters[defaultIndex]) && InRange(parameters[defaultIndex])
    requires OptionalInt32(sp.width).Success? && OptionalInt32(PrecisionDigits(sp.precision)).Success?
    requires '-' in sp.flags || sp.width == [] || sp.width[0] != '0'
    ensures var x := parameters[defaultIndex].n;
      var width := OptionalInt32(sp.width).value;
      var t := SignedDecimal(x, '+' in sp.flags, ' ' in sp.flags && '+' !in sp.flags);
      var r := Step(sp, parameters, defaultIndex, matchIndex);
      && ParseDecimal(t) == Some(x)
      && (r.Failure? <==> TooWide(width))
      && (r.Failure? ==> r.error == FormatException)
      && (r.Success? ==> r.value.1 == defaultIndex + 1 && InField(r.value.0, t, width, '-' in sp.flags, ' '))
  {
    var flags := ResolveFlags(sp.flags);
    var width := OptionalInt32(sp.width).value;
    StepRenders(sp, parameters, defaultIndex, matchIndex);
    assert PaddingChar(sp.width, flags.leftAlign) == ' ';
    FormatNumberAligned(width, flags.leftAlign, flags.plusSign, flags.spaceSign, ' ', parameters[defaultIndex]);
  }

  /**
   * %0nd (a width starting with '0', no '-'): the sign or a padding '0',
   * then the digits padded with zeros to the rest of the field; the text
   * reads back to the parameter. A width of 0 ("%00d") is an
   * ArgumentOutOfRange from String.PadLeft.
   */
  lemma StepZeroPaddedDecimal(sp: Spec, parameters: seq<Value>, defaultIndex: nat, matchIndex: nat)
    requires sp.index.None? && sp.size.None? && (sp.conversion == 'd' || sp.conversion == 'i') && '\'' !in sp.flags
    requires defaultIndex < |parameters| && IsNumericType(parameters[defaultIndex]) && InRange(parameters[defaultIndex])
    requires OptionalInt32(sp.width).Success? && OptionalInt32(PrecisionDigits(sp.precision)).Success?
    requires '-' !in sp.flags && sp.width != [] && sp.width[0] == '0'
    ensures var x := parameters[defaultIndex].n;
      var n := FromBase(sp.width, 10);
      var digits := ToBase(Magnitude(x), 10, false);
      var r := Step(sp, parameters, defaultIndex, matchIndex);
      && (r.Failure? <==> n == 0)
      && (r.Failure? ==> r.error == ArgumentOutOfRange)
      && (r.Success? ==>
            && r.value.1 == defaultIndex + 1
            && |r.value.0| == (if n - 1 > |digits| then n else |digits| + 1)
            && (r.value.0[0] == '-' <==> x < 0)
            && ParseDecimal(r.value.0) == Some(x))
  {
    var flags := ResolveFlags(sp.flags);
    var n := FromBase(sp.width, 10);
    StepRenders(sp, parameters, defaultIndex, matchIndex);
    assert OptionalInt32(sp.width).value == Some(n) && PaddingChar(sp.width, flags.leftAlign) == '0';
    if n >= 1 {
      FormatNumberZeroPadded(n, flags.plusSign, flags.spaceSign, parameters[defaultIndex]);
    }
  }

  /**
   * The h modifier narrows int and long to short and uint and ulong to
   * ushort before formatting, keeping the value modulo 2^16; any other type
   * is an ArgumentException (a NullReference for null).
   */
  lemma StepShort(sp: Spec, parameters: seq<Value>, defaultIndex: nat, matchIndex: nat)
    requires sp.index.None? && sp.size == Some('h') && defaultIndex < |parameters|
    requires OptionalInt32(sp.width).Success? && OptionalInt32(PrecisionDigits(sp.precision)).Success?
    ensures var o := parameters[defaultIndex];
      match ShortArgument(o)
      case Some(u) =>
        && InRange(u) && Bits(u) == 16 && u.n % 0x1_0000 == o.n % 0x1_0000
        && Step(sp, parameters, defaultIndex, matchIndex) ==
             Step(sp.(size := None), parameters[defaultIndex := u], defaultIndex, matchIndex)
      case None =>
        Step(sp, parameters, defaultIndex, matchIndex) ==
          Failure(if o.Null? then NullReference else ArgumentException)
  {
    ShortArgumentNarrows(parameters[defaultIndex]);
  }

  /** %hd of an int x: the signed decimal text of x wrapped to 16 bits, in its field. */
  lemma StepShortDecimal(sp: Spec, parameters: seq<Value>, defaultIndex: nat, matchIndex: nat)
    requires sp.index.None? && sp.size == Some('h') && (sp.conversion == 'd' || sp.conversion == 'i') && '\'' !in sp.flags
    requires defaultIndex < |parameters| && parameters[defaultIndex].Int?
    requires OptionalInt32(sp.width).Success? && OptionalInt32(PrecisionDigits(sp.precision)).Success?
    requires '-' in sp.flags || sp.width == [] || sp.width[0] != '0'
    ensures var x := Wrap(parameters[defaultIndex].n, 16, true);
      var width := OptionalInt32(sp.width).value;
      var t := SignedDecimal(x, '+' in sp.flags, ' ' in sp.flags && '+' !in sp.flags);
      var r := Step(sp, parameters, defaultIndex, matchIndex);
      && -0x8000 <= x < 0x8000 && x % 0x1_0000 == parameters[defaultIndex].n % 0x1_0000
      && (r.Failure? <==> TooWide(width))
      && (r.Success? ==> InField(r.value.0, t, width, '-' in sp.flags, ' ') && ParseDecimal(t) == Some(x))
  {
    var u := ShortArgument(parameters[defaultIndex]).value;
    StepShort(sp, parameters, defaultIndex, matchIndex);
    StepSignedDecimal(sp.(size := None), parameters[defaultIndex := u], defaultIndex, matchIndex);
  }

  /** The l modifier widens short and int to long and ushort and uint to ulong, keeping the value. */
  lemma StepLong(sp: Spec, parameters: seq<Value>, defaultIndex: nat, matchIndex: nat)
    requires sp.index.None? && sp.size == Some('l') && defaultIndex < |parameters| && InRange(parameters[defaultIndex])
    requires OptionalInt32(sp.width).Success? && OptionalInt32(PrecisionDigits(sp.precision)).Success?
    ensures var o := parameters[defaultIndex];
      match LongArgument(o)
      case Some(u) =>
        && Bits(u) == 64 && u.n == o.n
        && Step(sp, parameters, defaultIndex, matchIndex) ==
             Step(sp.(size := None), parameters[defaultIndex := u], defaultIndex, matchIndex)
      case None =>
        Step(sp, parameters, defaultIndex, matchIndex) ==
          Failure(if o.Null? then NullReference else ArgumentException)
  {
    LongArgumentWidens(parameters[defaultIndex]);
  }

  /**
   * %c ignores width and flags: a character code in 0..65535 outside the
   * surrogates is that character, a code outside 0..65535 an
   * OverflowException; a char is itself, a string gives its first character,
   * anything else nothing.
   */
  lemma StepChar(sp: Spec, parameters: seq<Value>, defaultIndex: nat, matchIndex: nat)
    requires sp.index.None? && sp.size.None? && sp.conversion == 'c' && defaultIndex < |parameters|
    requires OptionalInt32(sp.width).Success? && OptionalInt32(PrecisionDigits(sp.precision)).Success?
    ensures var o := parameters[defaultIndex];
      var r := Step(sp, parameters, defaultIndex, matchIndex);
      && (IsNumericType(o) && (0 <= o.n < 0xD800 || 0xE000 <= o.n <= 0xFFFF) ==>
            r == Success(([o.n as char], defaultIndex + 1)) && [o.n as char][0] as int == o.n)
      && (IsNumericType(o) && (o.n < 0 || o.n > 0xFFFF) ==> r == Failure(OverflowException))
      && (o.Char? ==> r == Success(([o.c], defaultIndex + 1)))
      && (o.Str? ==> r == Success((if o.s != [] then [o.s[0]] else "", defaultIndex + 1)))
      && (o.Null? || o.Other? ==> r == Success(("", defaultIndex + 1)))
  {
  }

  /**
   * %s of a string: cut to the precision (an ArgumentOutOfRange when it is
   * shorter than that), then in its field, padded with '0' when the width
   * starts with '0' and '-' is absent, and with spaces otherwise.
   */
  lemma StepString(sp: Spec, parameters: seq<Value>, defaultIndex: nat, matchIndex: nat)
    requires sp.index.None? && sp.size.None? && sp.conversion == 's'
    requires defaultIndex < |parameters| && parameters[defaultIndex].Str?
    requires OptionalInt32(sp.width).Success? && OptionalInt32(PrecisionDigits(sp.precision)).Success?
    ensures var t := parameters[defaultIndex].s;
      var width := OptionalInt32(sp.width).value;
      var precision := OptionalInt32(PrecisionDigits(sp.precision)).value;
      var padding := if sp.width != [] && sp.width[0] == '0' && '-' !in sp.flags then '0' else ' ';
      var r := Step(sp, parameters, defaultIndex, matchIndex);
      && (r.Failure? <==> precision.Some? && precision.value > |t|)
      && (r.Failure? ==> r.error == ArgumentOutOfRange)
      && (r.Success? ==>
            r.value.1 == defaultIndex + 1
            && InField(r.value.0, if precision.Some? then t[..precision.value] else t, width, '-' in sp.flags, padding))
  {
    var o := parameters[defaultIndex];
    var flags := ResolveFlags(sp.flags);
    var width := OptionalInt32(sp.width).value;
    var precision := OptionalInt32(PrecisionDigits(sp.precision)).value;
    var padding := PaddingChar(sp.width, flags.leftAlign);
    StepRenders(sp, parameters, defaultIndex, matchIndex);
    assert EffectivePrecision(precision, 's') == precision;
    assert Render('s', flags, width, precision, padding, o, matchIndex) == StringText(o, width, precision, flags.leftAlign, padding);
    StringTextInField(o, width, precision, flags.leftAlign, padding);
  }

  /** A step function: the replacement for a specifier, given the default parameter index and the match position. */
  type StepFunction = (Spec, nat, nat) -> Result<(string, nat), Exception>

  /** The step of sprintf over the given parameters. */
  function StepWith(parameters: seq<Value>): StepFunction
  {
    (sp, defaultIndex, matchIndex) => Step(sp, parameters, defaultIndex, matchIndex)
  }

  /**
   * The reference definition: done is the text already produced, rest the
   * text still to be searched. The leftmost specifier in rest is replaced and
   * the search goes on in what follows it.
   */
  function FormatFrom(done: string, rest: string, defaultIndex: nat, step: StepFunction)
    : Result<string, Exception>
    decreases |rest|, 1
  {
    match Search(rest)
    case None => Success(done + rest)
    case Some((p, sp)) =>
      SearchInside(rest);
      FormatAt(done, rest, p, sp, defaultIndex, step)
  }

  /** Replace the specifier sp found at p in rest, then go on after the replacement. */
  function FormatAt(done: string, rest: string, p: nat, sp: Spec, defaultIndex: nat, step: StepFunction)
    : Result<string, Exception>
    requires p + |Written(sp)| <= |rest|
    decreases |rest|, 0
  {
    match step(sp, defaultIndex, |done| + p)
    case Failure(e) => Failure(e)
    case Success((w, next)) => FormatFrom(done + rest[..p] + w, rest[p + |Written(sp)|..], next, step)
  }

  /** sprintf(template, parameters). */
  function Format(template: string, parameters: seq<Value>): Result<string, Exception>
  {
    FormatFrom("", template, 0, StepWith(parameters))
  }

  /**
   * One pass of the loop on the buffer f == done + rest whose leftmost match
   * is at index: when the step succeeds, the spliced buffer is the new
   * done + rest, FormatFrom goes on from there, and the next search starts
   * where the new rest does.
   */
  lemma Advance(f: string, done: string, rest: string, defaultIndex: nat, step: StepFunction,
                index: nat, sp: Spec, w: string, next: nat)
    requires f == done + rest && |done| <= index && Search(rest) == Some((index - |done|, sp))
    requires step(sp, defaultIndex, index) == Success((w, next))
    ensures var p := index - |done|;
      var length := |Written(sp)|;
      && index + length <= |f|
      && var g := f[..index] + w + f[index + length..];
      && g == (done + rest[..p] + w) + rest[p + length..]
      && g[index + |w|..] == rest[p + length..]
      && |done + rest[..p] + w| == index + |w|
      && FormatFrom(done + rest[..p] + w, rest[p + length..], next, step)
           == FormatFrom(done, rest, defaultIndex, step)
  {
    var p := index - |done|;
    var length := |Written(sp)|;
    SearchInside(rest);
    assert FormatFrom(done, rest, defaultIndex, step) == FormatAt(done, rest, p, sp, defaultIndex, step);
    assert |done| + p == index;
    assert FormatAt(done, rest, p, sp, defaultIndex, step)
      == FormatFrom(done + rest[..p] + w, rest[p + length..], next, step);
    Splice(f, done, rest, p, length, w);
  }

  /** When the step at the leftmost match fails, so does FormatFrom, with the same exception. */
  lemma FormatFromFails(done: string, rest: string, defaultIndex: nat, step: StepFunction,
                        index: nat, sp: Spec, e: Exception)
    requires |done| <= index && Search(rest) == Some((index - |done|, sp))
    requires step(sp, defaultIndex, index) == Failure(e)
    ensures FormatFrom(done, rest, defaultIndex, step) == Failure(e)
  {
    SearchInside(rest);
    assert FormatFrom(done, rest, defaultIndex, step)
      == FormatAt(done, rest, index - |done|, sp, defaultIndex, step);
  }

  /** Replacing the match in the buffer done + rest gives the new done and rest. */
  lemma Splice(f: string, done: string, rest: string, p: nat, length: nat, w: string)
    requires f == done + rest && p + length <= |rest|
    ensures var g := f[..|done| + p] + w + f[|done| + p + length..];
      g == (done + rest[..p] + w) + rest[p + length..] && g[|done| + p + |w|..] == rest[p + length..]
  {
    assert f[..|done| + p] == done + rest[..p];
    assert f[|done| + p + length..] == rest[p + length..];
  }

  /** Searching the buffer done + rest from the end of done is searching rest. */
  lemma FindMatchAfter(done: string, rest: string)
    ensures FindMatch(done + rest, |done|) ==
      match Search(rest) case None => None case Some((p, sp)) => Some((|done| + p, sp))
  {
    assert (done + rest)[|done|..] == rest;
  }

  /** With no match left, FormatFrom returns the buffer. */
  lemma FormatFromDone(done: string, rest: string, defaultIndex: nat, step: StepFunction)
    requires Search(rest).None?
    ensures FormatFrom(done, rest, defaultIndex, step) == Success(done + rest)
  {
  }

  /** The text already produced is never touched again: every later replacement happens after it. */
  lemma {:induction false} FormatFromExtends(done: string, rest: string, defaultIndex: nat, step: StepFunction)
    ensures FormatFrom(done, rest, defaultIndex, step).Success? ==> done <= FormatFrom(done, rest, defaultIndex, step).value
    decreases |rest|
  {
    match Search(rest)
    case None =>
    case Some((p, sp)) =>
      SearchInside(rest);
      assert FormatFrom(done, rest, defaultIndex, step) == FormatAt(done, rest, p, sp, defaultIndex, step);
      match step(sp, defaultIndex, |done| + p)
      case Failure(_) =>
      case Success((w, next)) =>
        var done' := done + rest[..p] + w;
        FormatFromExtends(done', rest[p + |Written(sp)|..], next, step);
        assert done <= done';
  }

  /** A template without '%' comes back unchanged. */
  lemma FormatNoPercent(template: string, parameters: seq<Value>)
    requires forall i :: 0 <= i < |template| ==> template[i] != '%'
    ensures Format(template, parameters) == Success(template)
  {
    NoPercentNoMatch(template, 0);
    assert template[0..] == template && "" + template == template;
    FormatFromDone("", template, 0, StepWith(parameters));
  }

  /**
   * The text in front of the leftmost specifier is kept as it is; when the
   * step for that specifier fails, the whole call fails with its exception
   * and nothing after it is looked at.
   */
  lemma FormatFromFirst(done: string, rest: string, defaultIndex: nat, step: StepFunction)
    requires Search(rest).Some?
    ensures var (p, sp) := Search(rest).value;
      p + |Written(sp)| <= |rest| &&
      match step(sp, defaultIndex, |done| + p)
      case Failure(e) => FormatFrom(done, rest, defaultIndex, step) == Failure(e)
      case Success(_) =>
        FormatFrom(done, rest, defaultIndex, step).Success? ==>
          done + rest[..p] <= FormatFrom(done, rest, defaultIndex, step).value
  {
    var (p, sp) := Search(rest).value;
    SearchInside(rest);
    assert FormatFrom(done, rest, defaultIndex, step) == FormatAt(done, rest, p, sp, defaultIndex, step);
    match step(sp, defaultIndex, |done| + p)
    case Failure(e) =>
    case Success((w, next)) =>
      var done' := done + rest[..p] + w;
      FormatFromExtends(done', rest[p + |Written(sp)|..], next, step);
      assert done + rest[..p] <= done';
  }

  /** When the leftmost specifier is the last one, the result is the template with that one replaced. */
  lemma FormatFromLast(done: string, rest: string, defaultIndex: nat, step: StepFunction,
                       p: nat, sp: Spec, w: string, next: nat)
    requires Search(rest) == Some((p, sp)) && step(sp, defaultIndex, |done| + p) == Success((w, next))
    requires p + |Written(sp)| <= |rest| && Search(rest[p + |Written(sp)|..]).None?
    ensures FormatFrom(done, rest, defaultIndex, step) == Success(done + rest[..p] + w + rest[p + |Written(sp)|..])
  {
    var tail := rest[p + |Written(sp)|..];
    assert FormatFrom(done, rest, defaultIndex, step) == FormatAt(done, rest, p, sp, defaultIndex, step);
    assert FormatAt(done, rest, p, sp, defaultIndex, step) == FormatFrom(done + rest[..p] + w, tail, next, step);
    FormatFromDone(done + rest[..p] + w, tail, next, step);
  }

  /**
   * A replacement is not searched again: "%s" with any string comes back as
   * that string, even when it holds specifiers of its own.
   */
  lemma FormatNoRescan(text: string)
    ensures Format("%s", [Str(text)]) == Success(text)
  {
    var sp := Spec(None, "", "", None, None, 's');
    PlainSpecifierFound(sp);
    var step := StepWith([Str(text)]);
    PlainStringStep(sp, text, step);
    assert Format("%s", [Str(text)]) == FormatFrom("", "%s", 0, step);
    FormatWhole("%s", sp, text, step);
  }

  /** A template that is one specifier, whose replacement is w, formats to w. */
  lemma FormatWhole(template: string, sp: Spec, w: string, step: StepFunction)
    requires Search(template) == Some((0, sp)) && Written(sp) == template
    requires step(sp, 0, 0) == Success((w, 1))
    ensures FormatFrom("", template, 0, step) == Success(w)
  {
    var n := |template|;
    assert template[n..] == [] && "" + template[..0] + w + template[n..] == w;
    FormatFromLast("", template, 0, step, 0, sp, w, 1);
  }

  lemma PlainSpecifierFound(sp: Spec)
    requires sp == Spec(None, "", "", None, None, 's')
    ensures Written(sp) == "%s" && Search("%s") == Some((0, sp))
  {
    assert ScanText("%s") == Some(sp);
  }

  lemma PlainStringStep(sp: Spec, text: string, step: StepFunction)
    requires sp == Spec(None, "", "", None, None, 's') && step == StepWith([Str(text)])
    ensures step(sp, 0, 0) == Success((text, 1))
  {
    StringStep(sp, [Str(text)], 0, 0, text);
  }

  lemma StringStep(sp: Spec, parameters: seq<Value>, defaultIndex: nat, matchIndex: nat, text: string)
    requires sp == Spec(None, "", "", None, None, 's')
    requires defaultIndex < |parameters| && parameters[defaultIndex] == Str(text)
    ensures Step(sp, parameters, defaultIndex, matchIndex) == Success((text, defaultIndex + 1))
  {
    StepString(sp, parameters, defaultIndex, matchIndex);
    assert Pad(text, None, false, ' ') == text;
  }

  /**
   * The loop body on the buffer f == done + rest whose leftmost match from
   * |done| on is sp at index, once its replacement is computed: the
   * replacement text is spliced in, giving the new buffer, the position the
   * next search starts from and the next default parameter index.
   */
  method ReplaceMatch(f: string, index: nat, sp: Spec, defaultIndex: nat, step: StepFunction,
                      replacement: Result<(string, nat), Exception>, ghost done: string, ghost rest: string)
    returns (r: Result<(string, nat, nat), Exception>, ghost done': string, ghost rest': string)
    requires f == done + rest && |done| <= index && Search(rest) == Some((index - |done|, sp))
    requires replacement == step(sp, defaultIndex, index)
    ensures r.Failure? ==> FormatFrom(done, rest, defaultIndex, step) == Failure(r.error)
    ensures r.Success? ==>
      && r.value.0 == done' + rest' && r.value.1 == |done'| && |rest'| < |rest|
      && FormatFrom(done', rest', r.value.2, step) == FormatFrom(done, rest, defaultIndex, step)
  {
    match replacement
    case Failure(e) =>
      FormatFromFails(done, rest, defaultIndex, step, index, sp, e);
      r, done', rest' := Failure(e), done, rest;
    case Success((w, next)) =>
      Advance(f, done, rest, defaultIndex, step, index, sp, w, next);
      var length := |Written(sp)|;
      done', rest' := done + rest[..index - |done|] + w, rest[index - |done| + length..];
      r := Success((f[..index] + w + f[index + length..], index + |w|, next));
  }

  /**
   * The replacement text for the match sp at index, and the next default
   * parameter index. This is not a second definition of Step: it only hands
   * Step's result to Sprintf's loop in the form StepWith(parameters), so
   * that the loop's proof treats the step as the opaque StepFunction that
   * ReplaceMatch and FormatFrom take, and never unfolds Step's body.
   */
  method Replacement(sp: Spec, parameters: seq<Value>, defaultIndex: nat, index: nat)
    returns (r: Result<(string, nat), Exception>)
    ensures r == StepWith(parameters)(sp, defaultIndex, index)
  {
    r := Step(sp, parameters, defaultIndex, index);
  }

  /**
   * The source's loop: f is the buffer, each match is replaced in place and
   * the next search starts right after the replacement.
   */
  method Sprintf(format: string, parameters: seq<Value>) returns (r: Result<string, Exception>)
    ensures r == Format(format, parameters)
  {
    ghost var goal := Format(format, parameters);
    var f := format;
    var defaultIndex := 0;
    ghost var done := "";
    ghost var rest := format;
    var m := FindMatch(f, 0);
    while m.Some?
      invariant f == done + rest && m == FindMatch(f, |done|)
      invariant FormatFrom(done, rest, defaultIndex, StepWith(parameters)) == goal
      decreases |rest|
    {
      var (index, sp) := m.value;
      FindMatchAfter(done, rest);
      var replacement := Replacement(sp, parameters, defaultIndex, index);
      var replaced;
      replaced, done, rest := ReplaceMatch(f, index, sp, defaultIndex, StepWith(parameters), replacement, done, rest);
      if replaced.Failure? {
        return Failure(replaced.error);
      }
      var (g, start, next) := replaced.value;
      f, defaultIndex := g, next;
      m := FindMatch(f, start);
    }
    FindMatchAfter(done, rest);
    FormatFromDone(done, rest, defaultIndex, StepWith(parameters));
    r := Success(f);
  }
}
