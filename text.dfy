/**
 * Text helpers shared by the formatter: digit strings, positional notation
 * in base 8, 10 and 16 (as .NET's Convert.ToString and the "d"/"x" format
 * strings produce it), and .NET's String.PadLeft / PadRight.
 */
module Text {
  import opened Wrappers

  predicate IsDigit(c: char) { '0' <= c <= '9' }

  predicate AllDigits(s: string) { forall i :: 0 <= i < |s| ==> IsDigit(s[i]) }

  /** The character for digit d; upper selects 'A'..'F' over 'a'..'f'. */
  function DigitChar(d: nat, upper: bool): (c: char)
    requires d < 16
    ensures d < 10 ==> IsDigit(c)
  {
    if d < 10 then ('0' as int + d) as char
    else if upper then ('A' as int + d - 10) as char
    else ('a' as int + d - 10) as char
  }

  /** The value of a digit character, in any base up to 16. */
  function DigitValue(c: char): nat
  {
    if '0' <= c <= '9' then c as int - '0' as int
    else if 'a' <= c <= 'f' then c as int - 'a' as int + 10
    else if 'A' <= c <= 'F' then c as int - 'A' as int + 10
    else 0
  }

  lemma DigitValueOfChar(d: nat, upper: bool)
    requires d < 16
    ensures DigitValue(DigitChar(d, upper)) == d
  {
  }

  /** Positional notation of n in the given base, most significant digit first. */
  function ToBase(n: nat, base: nat, upper: bool): (r: string)
    requires 2 <= base <= 16
    ensures |r| >= 1
    decreases n
  {
    if n < base then [DigitChar(n, upper)]
    else ToBase(n / base, base, upper) + [DigitChar(n % base, upper)]
  }

  /** The number a digit string denotes in the given base (leading zeros allowed). */
  function FromBase(s: string, base: nat): nat
    decreases |s|
  {
    if s == [] then 0 else FromBase(s[..|s| - 1], base) * base + DigitValue(s[|s| - 1])
  }

  /** Euclidean division facts the proofs below rely on. */
  lemma DivModFacts(n: nat, base: nat)
    requires 2 <= base
    ensures n == (n / base) * base + n % base && 0 <= n % base < base
    ensures n >= base ==> 1 <= n / base < n
  {
    var q, r := n / base, n % base;
    assert n == q * base + r;
    if n >= base {
      assert q >= 1;
      assert q * base >= q * 2 by { MulMono(q, base); }
    }
  }

  lemma MulMono(q: nat, base: nat)
    requires base >= 2
    ensures q * base >= q * 2
  {
  }

  lemma {:induction false} ToBaseRoundTrip(n: nat, base: nat, upper: bool)
    requires 2 <= base <= 16
    ensures FromBase(ToBase(n, base, upper), base) == n
    decreases n
  {
    var r := ToBase(n, base, upper);
    if n < base {
      assert r[..|r| - 1] == [];
      DigitValueOfChar(n, upper);
    } else {
      var q, d := n / base, n % base;
      assert n == q * base + d && q < n by { DivModFacts(n, base); }
      var hi := ToBase(q, base, upper);
      assert r == hi + [DigitChar(d, upper)];
      assert r[..|r| - 1] == hi;
      assert DigitValue(r[|r| - 1]) == d by { DigitValueOfChar(d, upper); }
      assert FromBase(hi, base) == q by { ToBaseRoundTrip(q, base, upper); }
      assert FromBase(r, base) == FromBase(hi, base) * base + d;
    }
  }

  /** Only zero is written with a leading '0'. */
  lemma {:induction false} ToBaseNoLeadingZero(n: nat, base: nat, upper: bool)
    requires 2 <= base <= 16
    ensures ToBase(n, base, upper)[0] == '0' <==> n == 0
    decreases n
  {
    if n >= base {
      DivModFacts(n, base);
      ToBaseNoLeadingZero(n / base, base, upper);
    } else if n > 0 {
      assert DigitValue(DigitChar(n, upper)) == n;
    }
  }

  lemma {:induction false} ToBaseDecimalDigits(n: nat)
    ensures AllDigits(ToBase(n, 10, false))
    decreases n
  {
    if n >= 10 {
      ToBaseDecimalDigits(n / 10);
    }
  }

  /** Leading zeros do not change the value of a digit string. */
  lemma {:induction false} FromBaseLeadingZeros(k: nat, s: string, base: nat)
    ensures FromBase(Repeat('0', k) + s, base) == FromBase(s, base)
    decreases |s|
  {
    if s == [] {
      assert Repeat('0', k) + s == Repeat('0', k);
      ZerosValue(k, base);
    } else {
      var t := Repeat('0', k) + s;
      assert t[..|t| - 1] == Repeat('0', k) + s[..|s| - 1];
      FromBaseLeadingZeros(k, s[..|s| - 1], base);
    }
  }

  lemma {:induction false} ZerosValue(k: nat, base: nat)
    ensures FromBase(Repeat('0', k), base) == 0
  {
    if k > 0 {
      assert Repeat('0', k)[..k - 1] == Repeat('0', k - 1);
      ZerosValue(k - 1, base);
    }
  }

  function Repeat(c: char, k: nat): (r: string)
    ensures |r| == k
  {
    seq(k, _ => c)
  }

  /** String.PadLeft(totalWidth, c): right-aligns s in a field of totalWidth characters. */
  function PadLeft(s: string, totalWidth: nat, c: char): (r: string)
    ensures |r| == if totalWidth > |s| then totalWidth else |s|
  {
    if totalWidth > |s| then Repeat(c, totalWidth - |s|) + s else s
  }

  /** PadLeft keeps s at the right end and fills the rest with c. */
  lemma PadLeftShape(s: string, totalWidth: nat, c: char)
    ensures var r := PadLeft(s, totalWidth, c);
      r[|r| - |s|..] == s && forall i :: 0 <= i < |r| - |s| ==> r[i] == c
  {
    var r := PadLeft(s, totalWidth, c);
    if totalWidth > |s| {
      assert r[|r| - |s|..] == s;
    } else {
      assert r[|r| - |s|..] == r;
    }
  }

  /** String.PadRight(totalWidth, c): left-aligns s in a field of totalWidth characters. */
  function PadRight(s: string, totalWidth: nat, c: char): (r: string)
    ensures |r| == if totalWidth > |s| then totalWidth else |s|
  {
    if totalWidth > |s| then s + Repeat(c, totalWidth - |s|) else s
  }

  /** PadRight keeps s at the left end and fills the rest with c. */
  lemma PadRightShape(s: string, totalWidth: nat, c: char)
    ensures var r := PadRight(s, totalWidth, c);
      r[..|s|] == s && forall i :: |s| <= i < |r| ==> r[i] == c
  {
    var r := PadRight(s, totalWidth, c);
    assert r[..|s|] == s;
  }

  /**
   * s padded to the width with pad: on the right when leftAlign is set,
   * otherwise on the left; no width means no padding.
   */
  function Pad(s: string, width: Option<nat>, leftAlign: bool, pad: char): string
  {
    if width.None? then s
    else if leftAlign then PadRight(s, width.value, pad)
    else PadLeft(s, width.value, pad)
  }

  /** Pad places s in its field, flush left or flush right. */
  lemma PadInField(s: string, width: Option<nat>, leftAlign: bool, pad: char)
    ensures InField(Pad(s, width, leftAlign, pad), s, width, leftAlign, pad)
  {
    if width.None? {
      assert s[..|s|] == s && s[|s| - |s|..] == s;
    } else if leftAlign {
      PadRightShape(s, width.value, pad);
    } else {
      PadLeftShape(s, width.value, pad);
    }
  }

  /**
   * The alignment component of a composite format item, "{0,n}" or "{0,-n}":
   * pads with spaces on the left, or on the right when leftAlign is set.
   */
  function Align(s: string, width: Option<nat>, leftAlign: bool): string
  {
    Pad(s, width, leftAlign, ' ')
  }

  /** Align places s in its field, flush left or flush right, with spaces. */
  lemma AlignInField(s: string, width: Option<nat>, leftAlign: bool)
    ensures InField(Align(s, width, leftAlign), s, width, leftAlign, ' ')
  {
    PadInField(s, width, leftAlign, ' ');
  }

  /**
   * r is t placed in a field of the given width (at least |t|): flush left or
   * flush right, and every other character is pad.
   */
  ghost predicate InField(r: string, t: string, width: Option<nat>, leftAlign: bool, pad: char)
  {
    && |r| == (if width.Some? && width.value > |t| then width.value else |t|)
    && (leftAlign ==> r[..|t|] == t && forall i :: |t| <= i < |r| ==> r[i] == pad)
    && (!leftAlign ==> r[|r| - |t|..] == t && forall i :: 0 <= i < |r| - |t| ==> r[i] == pad)
  }

  /** Reads a non-empty run of decimal digits; None for anything else. */
  function ReadDigits(s: string): Option<nat>
    decreases |s|
  {
    if s == [] || !IsDigit(s[|s| - 1]) then None
    else if |s| == 1 then Some(DigitValue(s[0]))
    else match ReadDigits(s[..|s| - 1])
      case None => None
      case Some(v) => Some(v * 10 + DigitValue(s[|s| - 1]))
  }

  /** A digit string reads as its decimal value. */
  lemma {:induction false} ReadDigitsValue(s: string)
    requires s != [] && AllDigits(s)
    ensures ReadDigits(s) == Some(FromBase(s, 10))
    decreases |s|
  {
    if |s| > 1 {
      var init := s[..|s| - 1];
      assert AllDigits(init);
      ReadDigitsValue(init);
    } else {
      assert s[..0] == [];
    }
  }

  /** Only a non-empty digit string reads as a number. */
  lemma {:induction false} ReadDigitsSome(s: string)
    ensures ReadDigits(s).Some? <==> s != [] && AllDigits(s)
    decreases |s|
  {
    if s != [] && IsDigit(s[|s| - 1]) && |s| > 1 {
      var init := s[..|s| - 1];
      ReadDigitsSome(init);
      if AllDigits(init) {
        assert AllDigits(s) by {
          forall i | 0 <= i < |s| ensures IsDigit(s[i]) {
            if i < |s| - 1 { assert s[i] == init[i]; }
          }
        }
      } else {
        var i :| 0 <= i < |init| && !IsDigit(init[i]);
        assert s[i] == init[i];
      }
    }
  }

  /**
   * Reads back a decimal number with an optional sign character in front:
   * '-' negates, '+' and ' ' (what the sign flags write) leave it positive.
   */
  function ParseDecimal(t: string): Option<int>
  {
    if t != [] && (t[0] == '-' || t[0] == '+' || t[0] == ' ') then
      match ReadDigits(t[1..])
      case None => None
      case Some(magnitude) => var m: int := magnitude; Some(if t[0] == '-' then -m else m)
    else ReadDigits(t)
  }

  /** Padding a digit string on the left with zeros keeps its value. */
  lemma ZeroPaddedValue(s: string, totalWidth: nat, base: nat)
    ensures FromBase(PadLeft(s, totalWidth, '0'), base) == FromBase(s, base)
  {
    if totalWidth > |s| {
      FromBaseLeadingZeros(totalWidth - |s|, s, base);
    }
  }

  /** Zero padding keeps a decimal digit string made of digits. */
  lemma ZeroPaddedDigits(s: string, totalWidth: nat)
    requires AllDigits(s)
    ensures AllDigits(PadLeft(s, totalWidth, '0'))
  {
    var r := PadLeft(s, totalWidth, '0');
    PadLeftShape(s, totalWidth, '0');
    forall i | 0 <= i < |r| ensures IsDigit(r[i]) {
      if i >= |r| - |s| {
        assert r[i] == r[|r| - |s|..][i - (|r| - |s|)];
      }
    }
  }
}
