/**
 * The primitive scalar types the library registers, and the parts of their
 * native behaviour it relies on: value ranges, the two's-complement bit
 * pattern, the core byte-order methods to_be/from_be/to_le/from_le, and the
 * native arithmetic operators with their overflow and division-by-zero
 * behaviour.
 */
module Primitives {
  import opened Bytes

  /** A byte order: the host's native one, or one a wrapper declares. */
  datatype Order = Big | Little

  /**
   * A registered value type. Integer widths are in bytes; usize and isize are
   * Unsigned(w) and Signed(w) for the target's address width w. bool is held
   * as its byte, 0 for false and 1 for true.
   */
  datatype Prim =
    | Unsigned(bytes: nat)
    | Signed(bytes: nat)
    | Boolean
    | NonZeroUnsigned(bytes: nat)
    | NonZeroSigned(bytes: nat)

  predicate IsIntegerWidth(n: nat)
  {
    n == 1 || n == 2 || n == 4 || n == 8 || n == 16
  }

  /** There is no registered non-zero type of 128 bits. */
  predicate IsNonZeroWidth(n: nat)
  {
    n == 1 || n == 2 || n == 4 || n == 8
  }

  predicate WellFormed(t: Prim)
  {
    match t
    case Unsigned(n) => IsIntegerWidth(n)
    case Signed(n) => IsIntegerWidth(n)
    case Boolean => true
    case NonZeroUnsigned(n) => IsNonZeroWidth(n)
    case NonZeroSigned(n) => IsNonZeroWidth(n)
  }

  type PrimType = t: Prim | WellFormed(t) witness Unsigned(1)

  /** The plain integer types, the only ones with the core byte-order methods and arithmetic. */
  predicate IsInteger(t: PrimType)
  {
    t.Unsigned? || t.Signed?
  }

  predicate IsNonZero(t: PrimType)
  {
    t.NonZeroUnsigned? || t.NonZeroSigned?
  }

  predicate IsSigned(t: PrimType)
  {
    t.Signed? || t.NonZeroSigned?
  }

  /** The size of a value of type t in bytes. */
  function Size(t: PrimType): (n: nat)
    ensures n >= 1
  {
    if t.Boolean? then 1 else t.bytes
  }

  /** The number of bit patterns of the type's width. */
  function Modulus(t: PrimType): nat
  {
    Pow256(Size(t))
  }

  /** The integer type a non-zero type wraps (NonZeroU32 wraps u32); any other type itself. */
  function Underlying(t: PrimType): (u: PrimType)
    ensures !IsNonZero(u) && Size(u) == Size(t) && IsSigned(u) == IsSigned(t)
    ensures IsNonZero(t) ==> IsInteger(u)
  {
    match t
    case NonZeroUnsigned(n) => Unsigned(n)
    case NonZeroSigned(n) => Signed(n)
    case _ => t
  }

  function MinValue(t: PrimType): int
  {
    if IsSigned(t) then -(Modulus(t) / 2) else 0
  }

  function MaxValue(t: PrimType): int
  {
    if t.Boolean? then 1
    else if IsSigned(t) then Modulus(t) / 2 - 1
    else Modulus(t) - 1
  }

  /** v lies between the type's bounds (zero included). */
  predicate InBounds(t: PrimType, v: int)
  {
    MinValue(t) <= v <= MaxValue(t)
  }

  /** v is a value of type t. */
  predicate InRange(t: PrimType, v: int)
  {
    InBounds(t, v) && (IsNonZero(t) ==> v != 0)
  }

  lemma ModulusHalves(t: PrimType)
    ensures Modulus(t) >= 256 && Modulus(t) % 2 == 0
    ensures Modulus(t) / 2 + Modulus(t) / 2 == Modulus(t)
  {
    var p := Pow256(Size(t) - 1);
    var m := Modulus(t);
    assert m == 256 * p;
    assert m == 2 * (128 * p) + 0;
    assert m / 2 == 128 * p && m % 2 == 0;
  }

  /** The bit pattern of v as an unsigned number (two's complement for signed types). */
  function ToRaw(t: PrimType, v: int): (u: nat)
    requires InBounds(t, v)
    ensures u < Modulus(t)
    ensures u == 0 <==> v == 0
  {
    ModulusHalves(t);
    if v < 0 then v + Modulus(t) else v
  }

  /** The value whose bit pattern is u. */
  function FromRaw(t: PrimType, u: nat): (v: int)
    requires u < Modulus(t) && (t.Boolean? ==> u <= 1)
    ensures InBounds(t, v)
    ensures v == 0 <==> u == 0
  {
    ModulusHalves(t);
    if IsSigned(t) && u > MaxValue(t) then u - Modulus(t) else u
  }

  lemma RawRoundTrip(t: PrimType, v: int, u: nat)
    requires InBounds(t, v) && u < Modulus(t) && (t.Boolean? ==> u <= 1)
    ensures FromRaw(t, ToRaw(t, v)) == v
    ensures ToRaw(t, FromRaw(t, u)) == u
  {
    ModulusHalves(t);
  }

  /** Rust's swap_bytes: the value whose bit pattern is v's with its bytes reversed. */
  function SwapBytes(t: PrimType, v: int): (r: int)
    requires IsInteger(t) && InRange(t, v)
    ensures InRange(t, r)
    ensures r == 0 <==> v == 0
    ensures ToRaw(t, r) == ByteSwap(ToRaw(t, v), Size(t))
  {
    var u := ToRaw(t, v);
    ByteSwapZero(u, Size(t));
    RawRoundTrip(t, v, ByteSwap(u, Size(t)));
    FromRaw(t, ByteSwap(u, Size(t)))
  }

  lemma SwapBytesInvolutive(t: PrimType, v: int)
    requires IsInteger(t) && InRange(t, v)
    ensures SwapBytes(t, SwapBytes(t, v)) == v
  {
    var u := ToRaw(t, v);
    var w := ByteSwap(u, Size(t));
    RawRoundTrip(t, v, w);
    ByteSwapInvolutive(u, Size(t));
  }

  /** A one-byte integer is its own byte swap. */
  lemma SwapBytesSingleByte(t: PrimType, v: int)
    requires IsInteger(t) && InRange(t, v) && Size(t) == 1
    ensures SwapBytes(t, v) == v
  {
    var u := ToRaw(t, v);
    ByteSwapSingle(u);
    RawRoundTrip(t, v, u);
  }

  /** Rust's to_be: identity on a big-endian host, a byte swap on a little-endian one. */
  function ToBe(host: Order, t: PrimType, v: int): (r: int)
    requires IsInteger(t) && InRange(t, v)
    ensures InRange(t, r)
    ensures r == 0 <==> v == 0
  {
    if host == Big then v else SwapBytes(t, v)
  }

  /** Rust's from_be. */
  function FromBe(host: Order, t: PrimType, x: int): (r: int)
    requires IsInteger(t) && InRange(t, x)
    ensures InRange(t, r)
    ensures r == 0 <==> x == 0
  {
    if host == Big then x else SwapBytes(t, x)
  }

  /** Rust's to_le: identity on a little-endian host, a byte swap on a big-endian one. */
  function ToLe(host: Order, t: PrimType, v: int): (r: int)
    requires IsInteger(t) && InRange(t, v)
    ensures InRange(t, r)
    ensures r == 0 <==> v == 0
  {
    if host == Little then v else SwapBytes(t, v)
  }

  /** Rust's from_le. */
  function FromLe(host: Order, t: PrimType, x: int): (r: int)
    requires IsInteger(t) && InRange(t, x)
    ensures InRange(t, r)
    ensures r == 0 <==> x == 0
  {
    if host == Little then x else SwapBytes(t, x)
  }

  /** from_be undoes to_be and to_be undoes from_be, on either host. */
  lemma BeRoundTrip(host: Order, t: PrimType, v: int)
    requires IsInteger(t) && InRange(t, v)
    ensures FromBe(host, t, ToBe(host, t, v)) == v
    ensures ToBe(host, t, FromBe(host, t, v)) == v
  {
    SwapBytesInvolutive(t, v);
  }

  /** from_le undoes to_le and to_le undoes from_le, on either host. */
  lemma LeRoundTrip(host: Order, t: PrimType, v: int)
    requires IsInteger(t) && InRange(t, v)
    ensures FromLe(host, t, ToLe(host, t, v)) == v
    ensures ToLe(host, t, FromLe(host, t, v)) == v
  {
    SwapBytesInvolutive(t, v);
  }

  /** Going through both orders is a byte swap whatever the host is. */
  lemma BeLeIsSwap(host: Order, t: PrimType, v: int)
    requires IsInteger(t) && InRange(t, v)
    ensures ToBe(host, t, FromLe(host, t, v)) == SwapBytes(t, v)
    ensures ToLe(host, t, FromBe(host, t, v)) == SwapBytes(t, v)
  {
  }

  lemma StoreLowByte(t: PrimType, b: int)
    requires t.Unsigned? && 0 <= b < 256
    ensures SwapBytes(t, b) == b * Pow256(Size(t) - 1)
  {
    ByteSwapLowByte(b, Size(t));
    assert b * Pow256(Size(t) - 1) < Modulus(t) by {
      assert Modulus(t) == 256 * Pow256(Size(t) - 1);
    }
  }

  // ---------------------------------------------------------------------
  // Native arithmetic

  /**
   * Whether the build checks integer overflow: with checks (debug builds)
   * an overflowing +, -, * or unary - panics, without them (release builds)
   * it wraps around.
   */
  datatype OverflowMode = Checked | Wrapping

  /** What a native operation does: return a value, or panic. */
  datatype Outcome<T> = Returns(value: T) | Panics

  datatype BinOp = Add | Sub | Mul | Div

  lemma ModSmall(x: int, m: int)
    requires 0 < m && -m <= x < m
    ensures x % m == if x < 0 then x + m else x
  {
    if x < 0 {
      assert (x + m) % m == x % m by { assert x + m == x + 1 * m; }
      assert 0 <= x + m < m;
    }
  }

  /** x reduced into the range of t, as two's-complement wrap-around does. */
  function Wrap(t: PrimType, x: int): (r: int)
    requires IsInteger(t)
    ensures InRange(t, r)
    ensures r % Modulus(t) == x % Modulus(t)
    ensures InRange(t, x) ==> r == x
  {
    ModulusHalves(t);
    var u := x % Modulus(t);
    var r := FromRaw(t, u);
    assert r % Modulus(t) == u by {
      if r != u { assert r == u - Modulus(t); ModSmall(r, Modulus(t)); } else { ModSmall(u, Modulus(t)); }
    }
    assert InRange(t, x) ==> r == x by {
      if InRange(t, x) {
        ModSmall(x, Modulus(t));
        RawRoundTrip(t, x, 0);
      }
    }
    r
  }

  /** The outcome of a native +, -, * or unary - whose mathematical result is x. */
  function Arith(mode: OverflowMode, t: PrimType, x: int): (r: Outcome<int>)
    requires IsInteger(t)
    ensures r.Panics? <==> mode == Checked && !InRange(t, x)
    ensures r.Returns? ==> r.value == Wrap(t, x)
    ensures InRange(t, x) ==> r == Returns(x)
  {
    if InRange(t, x) then Returns(x)
    else match mode
      case Wrapping => Returns(Wrap(t, x))
      case Checked => Panics
  }

  function Abs(x: int): nat
  {
    if x < 0 then -x else x
  }

  /**
   * Rust's integer division, which rounds toward zero: the magnitude of the
   * quotient is the quotient of the magnitudes, and its sign is the product
   * of the operands' signs.
   */
  function TruncDiv(a: int, b: int): (q: int)
    requires b != 0
    ensures Abs(q) == Quotient(Abs(a), Abs(b))
    ensures q == 0 || (q < 0) == ((a < 0) != (b < 0))
  {
    var m := Quotient(Abs(a), Abs(b));
    if (a < 0) == (b < 0) then m else -(m as int)
  }

  /**
   * The remainder a - (a / b) * b of truncating division is smaller than the
   * divisor and has the sign of the dividend, which is what distinguishes
   * it from Euclidean division.
   */
  lemma TruncDivRemainder(a: int, b: int)
    requires b != 0
    ensures Abs(a - TruncDiv(a, b) * b) < Abs(b)
    ensures a - TruncDiv(a, b) * b == 0 || (a - TruncDiv(a, b) * b < 0) == (a < 0)
  {
    TruncRemainder(a, b, Quotient(Abs(a), Abs(b)), TruncDiv(a, b));
  }

  /** Division of natural numbers. */
  function Quotient(x: nat, y: nat): nat
    requires y > 0
  {
    x / y
  }

  lemma MulNeg(x: int, y: int)
    ensures (-x) * y == -(x * y) && x * (-y) == -(x * y)
  {
  }

  lemma DivMod(x: nat, y: nat)
    requires y > 0
    ensures x == Quotient(x, y) * y + x % y && 0 <= x % y < y
  {
  }

  lemma TruncRemainder(a: int, b: int, m: nat, q: int)
    requires b != 0 && m == Quotient(Abs(a), Abs(b))
    requires q == if (a < 0) == (b < 0) then m else -(m as int)
    ensures a - q * b == if a < 0 then -(Abs(a) % Abs(b)) else Abs(a) % Abs(b)
  {
    DivMod(Abs(a), Abs(b));
    var mb := m * Abs(b);
    if b < 0 {
      MulNeg(m, -b);
      MulNeg(-(m as int), -b);
      assert Abs(b) == -b;
      if a < 0 { assert q * b == -mb; } else { assert q * b == mb; }
    } else {
      MulNeg(m, b);
      if a < 0 { assert q * b == -mb; } else { assert q * b == mb; }
    }
  }

  /** Truncation differs from Dafny's own division, which rounds toward minus infinity here. */
  lemma TruncDivOfNegative()
    ensures TruncDiv(-7, 2) == -3 && -7 / 2 == -4
    ensures TruncDiv(7, -2) == -3 && 7 / -2 == -3
  {
  }

  /** Native a / b: dividing by zero panics, and so does MIN / -1, in either mode. */
  function NativeDiv(t: PrimType, a: int, b: int): (r: Outcome<int>)
    requires IsInteger(t) && InRange(t, a) && InRange(t, b)
    ensures r.Panics? <==> b == 0 || !InRange(t, TruncDiv(a, b))
    ensures r.Panics? <==> b == 0 || (IsSigned(t) && a == MinValue(t) && b == -1)
    ensures r.Returns? ==> r.value == TruncDiv(a, b)
  {
    if b == 0 then Panics
    else
      DivOverflow(t, a, b);
      if InRange(t, TruncDiv(a, b)) then Returns(TruncDiv(a, b)) else Panics
  }

  /** The only quotient of two values of t that leaves t's range is MIN / -1. */
  lemma DivOverflow(t: PrimType, a: int, b: int)
    requires IsInteger(t) && InRange(t, a) && InRange(t, b) && b != 0
    ensures !InRange(t, TruncDiv(a, b)) <==> IsSigned(t) && a == MinValue(t) && b == -1
  {
    ModulusHalves(t);
    TruncDivByOne(a);
    if Abs(b) >= 2 {
      LargeDivisorInRange(t, a, b);
    }
  }

  lemma LargeDivisorInRange(t: PrimType, a: int, b: int)
    requires IsInteger(t) && InRange(t, a) && InRange(t, b) && Abs(b) >= 2
    ensures InRange(t, TruncDiv(a, b))
  {
    var q := TruncDiv(a, b);
    ModulusHalves(t);
    TruncDivShrinks(a, b);
    if !IsSigned(t) {
      assert q == Quotient(Abs(a), Abs(b));
    }
  }

  lemma TruncDivByOne(a: int)
    ensures TruncDiv(a, 1) == a && TruncDiv(a, -1) == -a
  {
    DivMod(Abs(a), 1);
  }

  /** Dividing by a divisor of magnitude two or more at least halves the magnitude. */
  lemma TruncDivShrinks(a: int, b: int)
    requires Abs(b) >= 2
    ensures 2 * Abs(TruncDiv(a, b)) <= Abs(a)
  {
    var m := Quotient(Abs(a), Abs(b));
    DivMod(Abs(a), Abs(b));
    MulMono(m, 2, Abs(b));
  }

  lemma MulMono(m: nat, x: nat, y: nat)
    requires x <= y
    ensures m * x <= m * y
  {
  }

  /** The outcome of the native binary operator op on a and b. */
  function NativeBinary(mode: OverflowMode, t: PrimType, op: BinOp, a: int, b: int): (r: Outcome<int>)
    requires IsInteger(t) && InRange(t, a) && InRange(t, b)
    ensures r.Returns? ==> InRange(t, r.value)
  {
    match op
    case Add => Arith(mode, t, a + b)
    case Sub => Arith(mode, t, a - b)
    case Mul => Arith(mode, t, a * b)
    case Div => NativeDiv(t, a, b)
  }

  /** +, - and * are the overflow-checked outcome of the exact result. */
  lemma NativeArith(mode: OverflowMode, t: PrimType, op: BinOp, a: int, b: int)
    requires IsInteger(t) && InRange(t, a) && InRange(t, b) && !op.Div?
    ensures NativeBinary(mode, t, op, a, b) == Arith(mode, t, Exact(op, a, b))
  {
  }

  /** The mathematical result of +, - or *. */
  function Exact(op: BinOp, a: int, b: int): int
    requires !op.Div?
  {
    match op
    case Add => a + b
    case Sub => a - b
    case Mul => a * b
  }

  /**
   * Native unary minus, defined for the signed integers and the signed
   * non-zero integers. A non-zero value is negated through its inner
   * integer; the result is again non-zero, since MIN wraps to itself.
   */
  function NativeNeg(mode: OverflowMode, t: PrimType, a: int): (r: Outcome<int>)
    requires IsSigned(t) && InRange(t, a)
    ensures r.Panics? <==> mode == Checked && a == MinValue(t)
    ensures r.Returns? ==> InRange(t, r.value)
    ensures r.Returns? ==> r.value == if a == MinValue(t) then MinValue(t) else -a
  {
    var u := Underlying(t);
    SameBounds(t);
    NegOverflow(u, a);
    Arith(mode, u, -a)
  }

  /** A type and its underlying integer have the same bounds. */
  lemma SameBounds(t: PrimType)
    ensures MinValue(Underlying(t)) == MinValue(t) && MaxValue(Underlying(t)) == MaxValue(t)
    ensures IsSigned(t) ==> MinValue(t) < 0
  {
    ModulusHalves(t);
  }

  lemma NegOverflow(t: PrimType, a: int)
    requires t.Signed? && InRange(t, a)
    ensures InRange(t, -a) <==> a != MinValue(t)
    ensures a == MinValue(t) ==> Wrap(t, -a) == MinValue(t)
  {
    ModulusHalves(t);
    if a == MinValue(t) {
      var m := Modulus(t);
      ModSmall(-a, m);
      assert Wrap(t, -a) == FromRaw(t, -a);
    }
  }
}
