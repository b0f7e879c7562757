/**
 * The conversion-specifier grammar of sprintf,
 *   %[n$][flags][width][.precision][h|l]type
 * which the source matches with the regular expression
 *   \%(\d*\$)?([\'\#\-\+ ]*)(\d*)(?:\.(\d+))?([hl])?([dioxXucsfeEgGpn%])
 * Here the regular expression is replaced by a hand-written greedy scanner.
 * Every part of the pattern is followed by a character that the part itself
 * cannot contain, so backtracking never finds a second match: the scanner
 * finds a match at a position exactly when the pattern matches there, and
 * returns the only one (ScanSound, ScanComplete).
 * The class \d of .NET regular expressions is wider than '0'..'9': it is every
 * UTF-16 code unit whose Unicode category is Nd (IsClassDigit). The integer
 * conversion that later reads the groups accepts only '0'..'9'.
 */
module Specifier {
  import opened Wrappers
  import opened Text

  predicate IsFlag(c: char) { c == '\'' || c == '#' || c == '-' || c == '+' || c == ' ' }

  predicate IsSize(c: char) { c == 'h' || c == 'l' }

  predicate IsConversion(c: char) { c in "dioxXucsfeEgGpn%" }

  predicate AllFlags(s: string) { forall i :: 0 <= i < |s| ==> IsFlag(s[i]) }

  /**
   * The decimal digits of the Basic Multilingual Plane other than '0'..'9'
   * (Unicode category Nd: Arabic-Indic, Devanagari, Thai, fullwidth and the
   * rest, ten consecutive code points each). Characters outside the BMP are
   * surrogate pairs in UTF-16, and a surrogate is never a digit.
   */
  predicate IsOtherDigit(c: char)
  {
    var k := c as int;
    (0x0660 <= k <= 0x0669) || (0x06F0 <= k <= 0x06F9) || (0x07C0 <= k <= 0x07C9)
    || (0x0966 <= k <= 0x096F) || (0x09E6 <= k <= 0x09EF) || (0x0A66 <= k <= 0x0A6F)
    || (0x0AE6 <= k <= 0x0AEF) || (0x0B66 <= k <= 0x0B6F) || (0x0BE6 <= k <= 0x0BEF)
    || (0x0C66 <= k <= 0x0C6F) || (0x0CE6 <= k <= 0x0CEF) || (0x0D66 <= k <= 0x0D6F)
    || (0x0DE6 <= k <= 0x0DEF) || (0x0E50 <= k <= 0x0E59) || (0x0ED0 <= k <= 0x0ED9)
    || (0x0F20 <= k <= 0x0F29) || (0x1040 <= k <= 0x1049) || (0x1090 <= k <= 0x1099)
    || (0x17E0 <= k <= 0x17E9) || (0x1810 <= k <= 0x1819) || (0x1946 <= k <= 0x194F)
    || (0x19D0 <= k <= 0x19D9) || (0x1A80 <= k <= 0x1A89) || (0x1A90 <= k <= 0x1A99)
    || (0x1B50 <= k <= 0x1B59) || (0x1BB0 <= k <= 0x1BB9) || (0x1C40 <= k <= 0x1C49)
    || (0x1C50 <= k <= 0x1C59) || (0xA620 <= k <= 0xA629) || (0xA8D0 <= k <= 0xA8D9)
    || (0xA900 <= k <= 0xA909) || (0xA9D0 <= k <= 0xA9D9) || (0xA9F0 <= k <= 0xA9F9)
    || (0xAA50 <= k <= 0xAA59) || (0xABF0 <= k <= 0xABF9) || (0xFF10 <= k <= 0xFF19)
  }

  /** The \d class of the pattern. */
  predicate IsClassDigit(c: char) { ('0' <= c <= '9') || (c as int >= 0x0660 && IsOtherDigit(c)) }

  predicate AllClassDigits(s: string) { forall i :: 0 <= i < |s| ==> IsClassDigit(s[i]) }

  /** The capture groups of one match: n$ (without the '$'), flags, width, precision, h|l, type. */
  datatype Spec = Spec(index: Option<string>, flags: string, width: string,
                       precision: Option<string>, size: Option<char>, conversion: char)

  function IndexPart(sp: Spec): string { if sp.index.Some? then sp.index.value + "$" else "" }

  function PrecisionPart(sp: Spec): string { if sp.precision.Some? then "." + sp.precision.value else "" }

  function SizePart(sp: Spec): string { if sp.size.Some? then [sp.size.value] else "" }

  /** The text a specifier occupies in the template. */
  function Written(sp: Spec): string
  {
    "%" + (IndexPart(sp) + (sp.flags + (sp.width + (PrecisionPart(sp) + (SizePart(sp) + [sp.conversion])))))
  }

  /** The specifier's text followed by u, grouped from the right. */
  lemma WrittenThen(sp: Spec, u: string)
    ensures Written(sp) + u ==
      "%" + (IndexPart(sp) + (sp.flags + (sp.width + (PrecisionPart(sp) + (SizePart(sp) + ([sp.conversion] + u))))))
  {
    var z := SizePart(sp) + [sp.conversion];
    assert z + u == SizePart(sp) + ([sp.conversion] + u);
    var p := PrecisionPart(sp) + z;
    assert p + u == PrecisionPart(sp) + (z + u);
    var w := sp.width + p;
    assert w + u == sp.width + (p + u);
    var f := sp.flags + w;
    assert f + u == sp.flags + (w + u);
    var i := IndexPart(sp) + f;
    assert i + u == IndexPart(sp) + (f + u);
    assert Written(sp) + u == "%" + (i + u);
  }

  /** The groups satisfy the character classes of the pattern. */
  ghost predicate WellFormed(sp: Spec)
  {
    && (sp.index.Some? ==> AllClassDigits(sp.index.value))
    && AllFlags(sp.flags)
    && AllClassDigits(sp.width)
    && (sp.precision.Some? ==> |sp.precision.value| > 0 && AllClassDigits(sp.precision.value))
    && (sp.size.Some? ==> IsSize(sp.size.value))
    && IsConversion(sp.conversion)
  }

  /** The pattern matches at the start of t, with these groups. */
  ghost predicate MatchesText(t: string, sp: Spec)
  {
    WellFormed(sp) && |Written(sp)| <= |t| && t[..|Written(sp)|] == Written(sp)
  }

  /** The longest prefix of digits, and what follows it. */
  function SplitDigits(t: string): (string, string)
  {
    if t != [] && IsClassDigit(t[0]) then
      var r := SplitDigits(t[1..]);
      ([t[0]] + r.0, r.1)
    else ("", t)
  }

  /** The longest prefix of flag characters, and what follows it. */
  function SplitFlags(t: string): (string, string)
  {
    if t != [] && IsFlag(t[0]) then
      var r := SplitFlags(t[1..]);
      ([t[0]] + r.0, r.1)
    else ("", t)
  }

  /** SplitDigits cuts t into a digit prefix and a rest that does not start with a digit. */
  lemma {:induction false} SplitDigitsParts(t: string)
    ensures var r := SplitDigits(t);
      t == r.0 + r.1 && AllClassDigits(r.0) && (r.1 != [] ==> !IsClassDigit(r.1[0]))
  {
    if t != [] && IsClassDigit(t[0]) {
      SplitDigitsParts(t[1..]);
      var r := SplitDigits(t[1..]);
      assert t == [t[0]] + r.0 + r.1;
    }
  }

  /** SplitFlags cuts t into a flag prefix and a rest that does not start with a flag. */
  lemma {:induction false} SplitFlagsParts(t: string)
    ensures var r := SplitFlags(t);
      t == r.0 + r.1 && AllFlags(r.0) && (r.1 != [] ==> !IsFlag(r.1[0]))
  {
    if t != [] && IsFlag(t[0]) {
      SplitFlagsParts(t[1..]);
      var r := SplitFlags(t[1..]);
      assert t == [t[0]] + r.0 + r.1;
    }
  }

  /** A digit prefix followed by a non-digit is the longest one. */
  lemma {:induction false} SplitDigitsUnique(d: string, rest: string)
    requires AllClassDigits(d) && (rest != [] ==> !IsClassDigit(rest[0]))
    ensures SplitDigits(d + rest) == (d, rest)
  {
    if d != [] {
      assert (d + rest)[0] == d[0];
      assert (d + rest)[1..] == d[1..] + rest;
      SplitDigitsUnique(d[1..], rest);
      assert [d[0]] + d[1..] == d;
    } else {
      assert d + rest == rest;
    }
  }

  /** A flag prefix followed by a non-flag is the longest one. */
  lemma {:induction false} SplitFlagsUnique(f: string, rest: string)
    requires AllFlags(f) && (rest != [] ==> !IsFlag(rest[0]))
    ensures SplitFlags(f + rest) == (f, rest)
  {
    if f != [] {
      assert (f + rest)[0] == f[0];
      assert (f + rest)[1..] == f[1..] + rest;
      SplitFlagsUnique(f[1..], rest);
      assert [f[0]] + f[1..] == f;
    } else {
      assert f + rest == rest;
    }
  }

  /** The optional n$ group. */
  function ScanIndex(t: string): (Option<string>, string)
  {
    var d := SplitDigits(t);
    if d.1 != [] && d.1[0] == '$' then (Some(d.0), d.1[1..]) else (None, t)
  }

  /** The optional .precision group: a '.' counts only when a digit follows. */
  function ScanPrecision(t: string): (Option<string>, string)
  {
    if |t| >= 2 && t[0] == '.' && IsClassDigit(t[1]) then
      var d := SplitDigits(t[1..]);
      (Some(d.0), d.1)
    else (None, t)
  }

  /** The optional h|l group. */
  function ScanSize(t: string): (Option<char>, string)
  {
    if t != [] && IsSize(t[0]) then (Some(t[0]), t[1..]) else (None, t)
  }

  lemma ScanIndexParts(t: string)
    ensures var r := ScanIndex(t);
      (r.0.Some? ==> AllClassDigits(r.0.value)) && t == (if r.0.Some? then r.0.value + "$" else "") + r.1
  {
    var d := SplitDigits(t);
    SplitDigitsParts(t);
    if d.1 != [] && d.1[0] == '$' {
      assert t == d.0 + "$" + d.1[1..];
    }
  }

  lemma ScanPrecisionParts(t: string)
    ensures var r := ScanPrecision(t);
      (r.0.Some? ==> |r.0.value| > 0 && AllClassDigits(r.0.value))
      && t == (if r.0.Some? then "." + r.0.value else "") + r.1
  {
    if |t| >= 2 && t[0] == '.' && IsClassDigit(t[1]) {
      var d := SplitDigits(t[1..]);
      SplitDigitsParts(t[1..]);
      assert d.0 != [];
      assert t == "." + d.0 + d.1;
    }
  }

  lemma ScanSizeParts(t: string)
    ensures var r := ScanSize(t);
      (r.0.Some? ==> IsSize(r.0.value)) && t == (if r.0.Some? then [r.0.value] else "") + r.1
  {
  }

  /** Try the pattern at the start of t, taking each group as long as it goes. */
  function ScanText(t: string): Option<Spec>
  {
    if t == [] || t[0] != '%' then None
    else
      var index := ScanIndex(t[1..]);
      var flags := SplitFlags(index.1);
      var width := SplitDigits(flags.1);
      var precision := ScanPrecision(width.1);
      var size := ScanSize(precision.1);
      if size.1 != [] && IsConversion(size.1[0]) then
        Some(Spec(index.0, flags.0, width.0, precision.0, size.0, size.1[0]))
      else None
  }

  /** Regex.Match at position p, anchored there. */
  function ScanAt(s: string, p: nat): Option<Spec>
    requires p <= |s|
  {
    ScanText(s[p..])
  }

  /** What the scanner returns is a match of the pattern. */
  lemma ScanSound(t: string)
    requires ScanText(t).Some?
    ensures MatchesText(t, ScanText(t).value)
  {
    var sp := ScanText(t).value;
    ScanWellFormed(t);
    var u := ScanSplits(t);
    assert t[..|Written(sp)|] == Written(sp);
  }

  /** What the scanner returns satisfies the character classes of the pattern. */
  lemma ScanWellFormed(t: string)
    requires ScanText(t).Some?
    ensures WellFormed(ScanText(t).value)
  {
    var index := ScanIndex(t[1..]);
    var flags := SplitFlags(index.1);
    var width := SplitDigits(flags.1);
    var precision := ScanPrecision(width.1);
    ScanIndexParts(t[1..]);
    SplitFlagsParts(index.1);
    SplitDigitsParts(flags.1);
    ScanPrecisionParts(width.1);
    ScanSizeParts(precision.1);
  }

  /** The text of what the scanner returns starts t. */
  lemma ScanSplits(t: string) returns (u: string)
    requires ScanText(t).Some?
    ensures t == Written(ScanText(t).value) + u
  {
    var index := ScanIndex(t[1..]);
    var flags := SplitFlags(index.1);
    var width := SplitDigits(flags.1);
    var precision := ScanPrecision(width.1);
    var size := ScanSize(precision.1);
    ScanIndexParts(t[1..]);
    SplitFlagsParts(index.1);
    SplitDigitsParts(flags.1);
    ScanPrecisionParts(width.1);
    ScanSizeParts(precision.1);
    GroupsJoin(t, index, flags, width, precision, size);
    u := size.1[1..];
  }

  /** The groups, each followed by the rest of the text, join up to the specifier's text. */
  lemma GroupsJoin(t: string, index: (Option<string>, string), flags: (string, string), width: (string, string),
                   precision: (Option<string>, string), size: (Option<char>, string))
    requires t != [] && t[0] == '%'
    requires t[1..] == (if index.0.Some? then index.0.value + "$" else "") + index.1
    requires index.1 == flags.0 + flags.1 && flags.1 == width.0 + width.1
    requires width.1 == (if precision.0.Some? then "." + precision.0.value else "") + precision.1
    requires precision.1 == (if size.0.Some? then [size.0.value] else "") + size.1
    requires size.1 != []
    ensures t == Written(Spec(index.0, flags.0, width.0, precision.0, size.0, size.1[0])) + size.1[1..]
  {
    var sp := Spec(index.0, flags.0, width.0, precision.0, size.0, size.1[0]);
    var u := size.1[1..];
    assert size.1 == [sp.conversion] + u;
    WrittenThen(sp, u);
    assert t == "%" + t[1..];
  }

  /** The first character after the width group is never a digit, '$' or a flag. */
  lemma AfterWidth(sp: Spec, u: string)
    requires WellFormed(sp)
    ensures var r := PrecisionPart(sp) + SizePart(sp) + [sp.conversion] + u;
      r != [] && r[0] != '$' && !IsClassDigit(r[0]) && !IsFlag(r[0])
      && (sp.precision.None? ==> r[0] != '.')
  {
  }

  /** Any match of the pattern at the start of t is the one the scanner finds. */
  lemma ScanComplete(t: string, sp: Spec)
    requires MatchesText(t, sp)
    ensures ScanText(t) == Some(sp)
  {
    var u := t[|Written(sp)|..];
    assert t == Written(sp) + u;
    ScanWritten(sp, u);
  }

  /** A well-formed specifier's text, followed by anything, scans back to it. */
  lemma ScanWritten(sp: Spec, u: string)
    requires WellFormed(sp)
    ensures ScanText(Written(sp) + u) == Some(sp)
  {
    var t := Written(sp) + u;
    var tail := [sp.conversion] + u;
    var afterPrecision := SizePart(sp) + tail;
    var afterWidth := PrecisionPart(sp) + afterPrecision;
    var afterFlags := sp.width + afterWidth;
    var afterIndex := sp.flags + afterFlags;
    assert t[0] == '%' && t[1..] == IndexPart(sp) + afterIndex by {
      WrittenThen(sp, u);
    }
    assert afterWidth != [] && afterWidth[0] != '$' && !IsClassDigit(afterWidth[0]) && !IsFlag(afterWidth[0])
      && (sp.precision.None? ==> afterWidth[0] != '.') by {
      AfterWidth(sp, u);
      assert afterWidth == PrecisionPart(sp) + SizePart(sp) + [sp.conversion] + u;
    }
    assert ScanIndex(t[1..]) == (sp.index, afterIndex) by {
      IndexGroup(sp, afterIndex, afterFlags, afterWidth);
    }
    assert SplitFlags(afterIndex) == (sp.flags, afterFlags) by {
      SplitFlagsUnique(sp.flags, afterFlags);
    }
    assert SplitDigits(afterFlags) == (sp.width, afterWidth) by {
      SplitDigitsUnique(sp.width, afterWidth);
    }
    assert ScanPrecision(afterWidth) == (sp.precision, afterPrecision) by {
      assert afterPrecision != [] && !IsClassDigit(afterPrecision[0]) && afterPrecision[0] != '.' by {
        assert afterPrecision[0] == (if sp.size.Some? then sp.size.value else sp.conversion);
      }
      PrecisionGroup(sp, afterWidth, afterPrecision);
    }
    assert ScanSize(afterPrecision) == (sp.size, tail) by {
      SizeGroup(sp, afterPrecision, tail);
    }
    ScanTextOfGroups(t, sp, afterIndex, afterFlags, afterWidth, afterPrecision, tail);
  }

  /** Once every group is known, the scanner returns them. */
  lemma ScanTextOfGroups(t: string, sp: Spec, afterIndex: string, afterFlags: string,
                         afterWidth: string, afterPrecision: string, tail: string)
    requires t != [] && t[0] == '%' && ScanIndex(t[1..]) == (sp.index, afterIndex)
    requires SplitFlags(afterIndex) == (sp.flags, afterFlags) && SplitDigits(afterFlags) == (sp.width, afterWidth)
    requires ScanPrecision(afterWidth) == (sp.precision, afterPrecision) && ScanSize(afterPrecision) == (sp.size, tail)
    requires tail != [] && tail[0] == sp.conversion && IsConversion(sp.conversion)
    ensures ScanText(t) == Some(sp)
  {
  }

  lemma IndexGroup(sp: Spec, afterIndex: string, afterFlags: string, afterWidth: string)
    requires WellFormed(sp) && afterIndex == sp.flags + afterFlags && afterFlags == sp.width + afterWidth
    requires afterWidth != [] && afterWidth[0] != '$' && !IsClassDigit(afterWidth[0]) && !IsFlag(afterWidth[0])
    ensures ScanIndex(IndexPart(sp) + afterIndex) == (sp.index, afterIndex)
  {
    if sp.index.Some? {
      assert IndexPart(sp) + afterIndex == sp.index.value + ("$" + afterIndex);
      SplitDigitsUnique(sp.index.value, "$" + afterIndex);
    } else if sp.flags != [] {
      assert afterIndex[0] == sp.flags[0];
      SplitDigitsUnique("", afterIndex);
      assert "" + afterIndex == afterIndex;
    } else {
      assert afterIndex == sp.width + afterWidth;
      SplitDigitsUnique(sp.width, afterWidth);
    }
  }

  lemma PrecisionGroup(sp: Spec, afterWidth: string, afterPrecision: string)
    requires WellFormed(sp) && afterWidth == PrecisionPart(sp) + afterPrecision
    requires afterPrecision != [] && !IsClassDigit(afterPrecision[0]) && afterPrecision[0] != '.'
    ensures ScanPrecision(afterWidth) == (sp.precision, afterPrecision)
  {
    if sp.precision.Some? {
      var pr := sp.precision.value;
      assert afterWidth[1..] == pr + afterPrecision;
      SplitDigitsUnique(pr, afterPrecision);
    } else {
      assert afterWidth == afterPrecision;
    }
  }

  lemma SizeGroup(sp: Spec, afterPrecision: string, tail: string)
    requires WellFormed(sp) && afterPrecision == SizePart(sp) + tail && tail != [] && tail[0] == sp.conversion
    ensures ScanSize(afterPrecision) == (sp.size, tail)
  {
    if sp.size.Some? {
      assert afterPrecision[1..] == tail;
    } else {
      assert afterPrecision == tail;
    }
  }

  /** Scanning at an offset only looks at the text from there on. */
  lemma ScanAtShift(a: string, b: string, q: nat)
    requires q <= |b|
    ensures ScanAt(a + b, |a| + q) == ScanAt(b, q)
  {
    assert (a + b)[|a| + q..] == b[q..];
  }

  /** The leftmost position in t where the pattern matches, with its groups. */
  function Search(t: string): Option<(nat, Spec)>
    decreases |t|, 1
  {
    if t == [] then None else SearchHere(t)
  }

  /** Try the pattern at the start of t, and search the rest of t when it fails there. */
  function SearchHere(t: string): Option<(nat, Spec)>
    requires t != []
    decreases |t|, 0
  {
    match ScanText(t)
    case Some(sp) => Some((0, sp))
    case None =>
      match Search(t[1..])
      case None => None
      case Some((p, sp)) => Some((p + 1, sp))
  }

  /** Search finds the leftmost match, and None only when there is none. */
  lemma SearchLeftmost(t: string)
    ensures Search(t).Some? ==>
      var (p, sp) := Search(t).value;
      p < |t| && ScanText(t[p..]) == Some(sp) && forall q :: 0 <= q < p ==> ScanText(t[q..]).None?
    ensures Search(t).None? ==> forall q :: 0 <= q < |t| ==> ScanText(t[q..]).None?
  {
    if Search(t).Some? {
      SearchFound(t);
    } else {
      SearchNone(t);
    }
  }

  lemma {:induction false} SearchFound(t: string)
    requires Search(t).Some?
    ensures var (p, sp) := Search(t).value;
      p < |t| && ScanText(t[p..]) == Some(sp) && forall q :: 0 <= q < p ==> ScanText(t[q..]).None?
  {
    if ScanText(t).Some? {
      assert t[0..] == t;
    } else {
      var rest := t[1..];
      SearchFound(rest);
      var (p, sp) := Search(rest).value;
      assert Search(t).value == (p + 1, sp);
      assert t[p + 1..] == rest[p..];
      forall q | 0 <= q < p + 1 ensures ScanText(t[q..]).None? {
        if q == 0 {
          assert t[0..] == t;
        } else {
          assert t[q..] == rest[q - 1..];
        }
      }
    }
  }

  lemma {:induction false} SearchNone(t: string)
    requires Search(t).None?
    ensures forall q :: 0 <= q < |t| ==> ScanText(t[q..]).None?
  {
    if t != [] {
      var rest := t[1..];
      SearchNone(rest);
      forall q | 0 <= q < |t| ensures ScanText(t[q..]).None? {
        if q == 0 {
          assert t[0..] == t;
        } else {
          assert t[q..] == rest[q - 1..];
        }
      }
    }
  }

  /** The match Search finds lies inside t. */
  lemma SearchInside(t: string)
    requires Search(t).Some?
    ensures Search(t).value.0 + |Written(Search(t).value.1)| <= |t|
  {
    var (p, sp) := Search(t).value;
    SearchFound(t);
    var u := ScanSplits(t[p..]);
  }

  /**
   * Regex.Match(s, start). The pattern has no anchors and no look-behind, so a
   * match from start on is a match in the text that starts there.
   */
  function FindMatch(s: string, start: nat): Option<(nat, Spec)>
    requires start <= |s|
  {
    match Search(s[start..])
    case None => None
    case Some((p, sp)) => Some((start + p, sp))
  }

  /** FindMatch returns the leftmost match at or after start, and None only when there is none. */
  lemma FindMatchLeftmost(s: string, start: nat)
    requires start <= |s|
    ensures FindMatch(s, start).Some? ==>
      var (p, sp) := FindMatch(s, start).value;
      start <= p < |s| && ScanAt(s, p) == Some(sp) && forall q :: start <= q < p ==> ScanAt(s, q).None?
    ensures FindMatch(s, start).None? ==> forall q :: start <= q < |s| ==> ScanAt(s, q).None?
  {
    var t := s[start..];
    SearchLeftmost(t);
    forall q | start <= q <= |s| ensures s[q..] == t[q - start..] { }
  }

  /** Searching a + b from |a| + q is searching b from q, shifted by |a|. */
  lemma FindMatchShift(a: string, b: string, q: nat)
    requires q <= |b|
    ensures FindMatch(a + b, |a| + q) ==
      match FindMatch(b, q)
      case None => None
      case Some((p, sp)) => Some((|a| + p, sp))
  {
    assert (a + b)[|a| + q..] == b[q..];
  }

  /** A text without '%' contains no specifier. */
  lemma NoPercentNoMatch(s: string, start: nat)
    requires start <= |s|
    requires forall i :: 0 <= i < |s| ==> s[i] != '%'
    ensures FindMatch(s, start).None?
  {
    FindMatchLeftmost(s, start);
  }
}
