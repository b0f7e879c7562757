/**
 * The boxed .NET values sprintf receives in its params object[] array,
 * as a tagged datatype, and the pure switch expressions the formatter uses
 * on them: IsNumericType, IsPositive, ToUnsigned, UnboxToLong, the h / l
 * length conversions and Object.ToString.  Floating-point and decimal
 * values are outside this model; Other stands for any other object
 * (bool, a JSON element, ...) and carries its ToString text.
 */
module ClrValues {
  import opened Wrappers
  import opened Text

  datatype Value =
    | SByte(n: int) | Short(n: int) | Int(n: int) | Long(n: int)
    | Byte(n: int) | UShort(n: int) | UInt(n: int) | ULong(n: int)
    | Char(c: char)
    | Str(s: string)
    | Null
    | Other(text: string)

  /** IsNumericType: one of the eight integral types. */
  predicate IsNumericType(v: Value)
  {
    v.SByte? || v.Short? || v.Int? || v.Long? || v.Byte? || v.UShort? || v.UInt? || v.ULong?
  }

  predicate IsSignedType(v: Value)
  {
    v.SByte? || v.Short? || v.Int? || v.Long?
  }

  /** The width in bits of an integral type. */
  function Bits(v: Value): nat
    requires IsNumericType(v)
  {
    match v
    case SByte(_) => 8
    case Byte(_) => 8
    case Short(_) => 16
    case UShort(_) => 16
    case Int(_) => 32
    case UInt(_) => 32
    case Long(_) => 64
    case ULong(_) => 64
  }

  function Pow2(bits: nat): nat
  {
    if bits == 8 then 0x100
    else if bits == 16 then 0x1_0000
    else if bits == 32 then 0x1_0000_0000
    else if bits == 64 then 0x1_0000_0000_0000_0000
    else if bits == 0 then 1
    else 2 * Pow2(bits - 1)
  }

  /** The range of the value's type: the invariant every boxed value satisfies. */
  predicate InRange(v: Value)
  {
    !IsNumericType(v) ||
    if IsSignedType(v) then -(Pow2(Bits(v)) / 2) <= v.n < Pow2(Bits(v)) / 2
    else 0 <= v.n < Pow2(Bits(v))
  }

  /** An unchecked C# cast of x to an integral type of the given width and signedness. */
  function Wrap(x: int, bits: nat, signed: bool): (r: int)
    requires bits in {8, 16, 32, 64}
    ensures signed ==> -(Pow2(bits) / 2) <= r < Pow2(bits) / 2
    ensures !signed ==> 0 <= r < Pow2(bits)
    ensures r % Pow2(bits) == x % Pow2(bits)
  {
    if bits == 8 then WrapTo(x, 0x100, signed)
    else if bits == 16 then WrapTo(x, 0x1_0000, signed)
    else if bits == 32 then WrapTo(x, 0x1_0000_0000, signed)
    else WrapTo(x, 0x1_0000_0000_0000_0000, signed)
  }

  function WrapTo(x: int, m: nat, signed: bool): (r: int)
    requires m >= 2 && m % 2 == 0
    ensures signed ==> -(m / 2) <= r < m / 2
    ensures !signed ==> 0 <= r < m
    ensures r % m == x % m
  {
    var low := x % m;
    ModSmall(low, m);
    if signed && low >= m / 2 then low - m else low
  }

  lemma ModSmall(low: int, m: nat)
    requires 0 <= low < m
    ensures low % m == low && (low - m) % m == low
  {
  }

  /** IsPositive(Value, ZeroIsPositive), for the integral, char and other arms. */
  function IsPositive(v: Value, zeroIsPositive: bool): bool
  {
    match v
    case SByte(n) => if zeroIsPositive then n >= 0 else n > 0
    case Short(n) => if zeroIsPositive then n >= 0 else n > 0
    case Int(n) => if zeroIsPositive then n >= 0 else n > 0
    case Long(n) => if zeroIsPositive then n >= 0 else n > 0
    case Byte(n) => zeroIsPositive || n > 0
    case UShort(n) => zeroIsPositive || n > 0
    case UInt(n) => zeroIsPositive || n > 0
    case ULong(n) => zeroIsPositive || n > 0
    case Char(c) => zeroIsPositive || c != '\0'
    case _ => false
  }

  /** On in-range integral values, IsPositive is the sign test the formatter wants. */
  lemma IsPositiveIsSign(v: Value, zeroIsPositive: bool)
    requires IsNumericType(v) && InRange(v)
    ensures IsPositive(v, zeroIsPositive) <==> (if zeroIsPositive then v.n >= 0 else v.n > 0)
  {
  }

  /** ToUnsigned: each signed type becomes the unsigned type of its width; anything not integral becomes null. */
  function ToUnsigned(v: Value): Value
  {
    match v
    case SByte(n) => Byte(Wrap(n, 8, false))
    case Short(n) => UShort(Wrap(n, 16, false))
    case Int(n) => UInt(Wrap(n, 32, false))
    case Long(n) => ULong(Wrap(n, 64, false))
    case Byte(_) => v
    case UShort(_) => v
    case UInt(_) => v
    case ULong(_) => v
    case _ => Null
  }

  lemma ToUnsignedSameWidth(v: Value)
    requires InRange(v)
    ensures var u := ToUnsigned(v);
      if IsNumericType(v) then
        IsNumericType(u) && !IsSignedType(u) && Bits(u) == Bits(v) && InRange(u)
        && u.n % Pow2(Bits(v)) == v.n % Pow2(Bits(v))
        && (!IsSignedType(v) ==> u == v)
        && (v.n >= 0 ==> u.n == v.n)
      else u == Null
  {
    match v
    case SByte(n) => WrapSmall(n, 8);
    case Short(n) => WrapSmall(n, 16);
    case Int(n) => WrapSmall(n, 32);
    case Long(n) => WrapSmall(n, 64);
    case _ =>
  }

  /** An unsigned cast leaves a value that already fits unchanged. */
  lemma WrapSmall(x: int, bits: nat)
    requires bits in {8, 16, 32, 64}
    ensures 0 <= x < Pow2(bits) ==> Wrap(x, bits, false) == x
  {
    if 0 <= x < Pow2(bits) {
      ModSmall(x, Pow2(bits));
    }
  }

  /** UnboxToLong(Value, Round) on the integral arms: (long) casts, so ulong wraps; everything else is 0. */
  function UnboxToLong(v: Value): int
  {
    match v
    case SByte(n) => n
    case Short(n) => n
    case Int(n) => n
    case Long(n) => n
    case Byte(n) => n
    case UShort(n) => n
    case UInt(n) => n
    case ULong(n) => Wrap(n, 64, true)
    case _ => 0
  }

  lemma UnboxToLongIsLong(v: Value)
    requires InRange(v)
    ensures var l := UnboxToLong(v);
      -(Pow2(64) / 2) <= l < Pow2(64) / 2
      && (IsNumericType(v) ==> l % Pow2(64) == v.n % Pow2(64))
      && (IsNumericType(v) && !v.ULong? ==> l == v.n)
      && (!IsNumericType(v) ==> l == 0)
  {
  }

  /** The 'h' length modifier: int and long narrow to short, uint and ulong to ushort; any other type throws. */
  function ShortArgument(v: Value): Option<Value>
  {
    match v
    case Int(n) => Some(Short(Wrap(n, 16, true)))
    case Long(n) => Some(Short(Wrap(n, 16, true)))
    case UInt(n) => Some(UShort(Wrap(n, 16, false)))
    case ULong(n) => Some(UShort(Wrap(n, 16, false)))
    case _ => None
  }

  /** The 'l' length modifier: short and int widen to long, ushort and uint to ulong; any other type throws. */
  function LongArgument(v: Value): Option<Value>
  {
    match v
    case Short(n) => Some(Long(n))
    case Int(n) => Some(Long(n))
    case UShort(n) => Some(ULong(n))
    case UInt(n) => Some(ULong(n))
    case _ => None
  }

  lemma ShortArgumentNarrows(v: Value)
    ensures ShortArgument(v).Some? <==> v.Int? || v.Long? || v.UInt? || v.ULong?
    ensures ShortArgument(v).Some? ==>
      var u := ShortArgument(v).value;
      InRange(u) && Bits(u) == 16 && (IsSignedType(u) <==> IsSignedType(v))
      && u.n % 0x1_0000 == v.n % 0x1_0000
  {
  }

  lemma LongArgumentWidens(v: Value)
    requires InRange(v)
    ensures LongArgument(v).Some? <==> v.Short? || v.Int? || v.UShort? || v.UInt?
    ensures LongArgument(v).Some? ==>
      var u := LongArgument(v).value;
      InRange(u) && Bits(u) == 64 && (IsSignedType(u) <==> IsSignedType(v)) && u.n == v.n
  {
  }

  /** Decimal text of an integer as Int32.ToString() writes it. */
  function IntText(x: int): (r: string)
    ensures |r| >= 1
  {
    if x < 0 then "-" + ToBase(-x, 10, false) else ToBase(x, 10, false)
  }

  /** Object.ToString() for every value except null, which throws. */
  function ToText(v: Value): string
    requires !v.Null?
  {
    if v.Char? then [v.c]
    else if v.Str? then v.s
    else if v.Other? then v.text
    else IntText(v.n)
  }
}
