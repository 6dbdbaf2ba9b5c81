/**
 * Arithmetic on the wrappers: Add, Sub, Mul and Div and their compound
 * assignment forms. Each operator decodes both operands, applies the native
 * operator of the value type, and encodes the result in the operands' own
 * declared order. Native panics (overflow with checks on, division by zero,
 * MIN / -1) pass through unchanged.
 */
module MathOps {
  import opened Primitives
  import opened SpecificEndian

  /** The binary operator op on two big-endian wrappers of the integer type t. */
  function BigEndianBinary(host: Order, mode: OverflowMode, t: PrimType, op: BinOp, a: BigEndian, b: BigEndian)
    : (r: Outcome<BigEndian>)
    requires IsInteger(t) && a.Valid(t) && b.Valid(t)
    ensures r.Panics? <==> NativeBinary(mode, t, op, a.ToNative(host, t), b.ToNative(host, t)).Panics?
    ensures r.Returns? ==>
              r.value.Valid(t) &&
              r.value.ToNative(host, t) == NativeBinary(mode, t, op, a.ToNative(host, t), b.ToNative(host, t)).value
    ensures r.Returns? ==> r.value.ToBits() == ToBigEndian(host, t, r.value.ToNative(host, t))
  {
    match NativeBinary(mode, t, op, a.ToNative(host, t), b.ToNative(host, t))
    case Returns(v) => Returns(BigEndian.From(host, t, v))
    case Panics => Panics
  }

  /** The binary operator op on two little-endian wrappers of the integer type t. */
  function LittleEndianBinary(host: Order, mode: OverflowMode, t: PrimType, op: BinOp, a: LittleEndian, b: LittleEndian)
    : (r: Outcome<LittleEndian>)
    requires IsInteger(t) && a.Valid(t) && b.Valid(t)
    ensures r.Panics? <==> NativeBinary(mode, t, op, a.ToNative(host, t), b.ToNative(host, t)).Panics?
    ensures r.Returns? ==>
              r.value.Valid(t) &&
              r.value.ToNative(host, t) == NativeBinary(mode, t, op, a.ToNative(host, t), b.ToNative(host, t)).value
    ensures r.Returns? ==> r.value.ToBits() == ToLittleEndian(host, t, r.value.ToNative(host, t))
  {
    match NativeBinary(mode, t, op, a.ToNative(host, t), b.ToNative(host, t))
    case Returns(v) => Returns(LittleEndian.From(host, t, v))
    case Panics => Panics
  }

  /**
   * When the native operator is the overflow-checked result of the exact
   * value s, the wrapper's result is s encoded, a panic, or s wrapped.
   */
  lemma BigOutcome(host: Order, mode: OverflowMode, t: PrimType, op: BinOp, a: BigEndian, b: BigEndian)
    requires IsInteger(t) && a.Valid(t) && b.Valid(t) && !op.Div?
    ensures var s := Exact(op, a.ToNative(host, t), b.ToNative(host, t));
            var r := BigEndianBinary(host, mode, t, op, a, b);
            (InRange(t, s) ==> r == Returns(BigEndian.From(host, t, s))) &&
            (r.Panics? <==> mode == Checked && !InRange(t, s)) &&
            (r.Returns? ==> r.value.ToNative(host, t) == Wrap(t, s))
  {
    var s := Exact(op, a.ToNative(host, t), b.ToNative(host, t));
    NativeArith(mode, t, op, a.ToNative(host, t), b.ToNative(host, t));
    var r := BigEndianBinary(host, mode, t, op, a, b);
    if InRange(t, s) {
      assert r.value.Eq(host, t, BigEndian.From(host, t, s));
    }
  }

  lemma LittleOutcome(host: Order, mode: OverflowMode, t: PrimType, op: BinOp, a: LittleEndian, b: LittleEndian)
    requires IsInteger(t) && a.Valid(t) && b.Valid(t) && !op.Div?
    ensures var s := Exact(op, a.ToNative(host, t), b.ToNative(host, t));
            var r := LittleEndianBinary(host, mode, t, op, a, b);
            (InRange(t, s) ==> r == Returns(LittleEndian.From(host, t, s))) &&
            (r.Panics? <==> mode == Checked && !InRange(t, s)) &&
            (r.Returns? ==> r.value.ToNative(host, t) == Wrap(t, s))
  {
    var s := Exact(op, a.ToNative(host, t), b.ToNative(host, t));
    NativeArith(mode, t, op, a.ToNative(host, t), b.ToNative(host, t));
    var r := LittleEndianBinary(host, mode, t, op, a, b);
    if InRange(t, s) {
      assert r.value.Eq(host, t, LittleEndian.From(host, t, s));
    }
  }

  /**
   * a + b decodes to the sum of the decoded operands whenever that sum is a
   * value of t; otherwise it panics with overflow checks and wraps without.
   */
  lemma AddDecodes(host: Order, mode: OverflowMode, t: PrimType, a: BigEndian, b: BigEndian, x: LittleEndian, y: LittleEndian)
    requires IsInteger(t) && a.Valid(t) && b.Valid(t) && x.Valid(t) && y.Valid(t)
    ensures var s := a.ToNative(host, t) + b.ToNative(host, t);
            var r := BigEndianBinary(host, mode, t, Add, a, b);
            (InRange(t, s) ==> r == Returns(BigEndian.From(host, t, s))) &&
            (r.Panics? <==> mode == Checked && !InRange(t, s)) &&
            (r.Returns? ==> r.value.ToNative(host, t) == Wrap(t, s))
    ensures var s := x.ToNative(host, t) + y.ToNative(host, t);
            var r := LittleEndianBinary(host, mode, t, Add, x, y);
            (InRange(t, s) ==> r == Returns(LittleEndian.From(host, t, s))) &&
            (r.Panics? <==> mode == Checked && !InRange(t, s)) &&
            (r.Returns? ==> r.value.ToNative(host, t) == Wrap(t, s))
  {
    BigOutcome(host, mode, t, Add, a, b);
    LittleOutcome(host, mode, t, Add, x, y);
  }

  /** a - b decodes to the difference of the decoded operands, with the same overflow behaviour. */
  lemma SubDecodes(host: Order, mode: OverflowMode, t: PrimType, a: BigEndian, b: BigEndian, x: LittleEndian, y: LittleEndian)
    requires IsInteger(t) && a.Valid(t) && b.Valid(t) && x.Valid(t) && y.Valid(t)
    ensures var d := a.ToNative(host, t) - b.ToNative(host, t);
            var r := BigEndianBinary(host, mode, t, Sub, a, b);
            (InRange(t, d) ==> r == Returns(BigEndian.From(host, t, d))) &&
            (r.Panics? <==> mode == Checked && !InRange(t, d)) &&
            (r.Returns? ==> r.value.ToNative(host, t) == Wrap(t, d))
    ensures var d := x.ToNative(host, t) - y.ToNative(host, t);
            var r := LittleEndianBinary(host, mode, t, Sub, x, y);
            (InRange(t, d) ==> r == Returns(LittleEndian.From(host, t, d))) &&
            (r.Panics? <==> mode == Checked && !InRange(t, d)) &&
            (r.Returns? ==> r.value.ToNative(host, t) == Wrap(t, d))
  {
    BigOutcome(host, mode, t, Sub, a, b);
    LittleOutcome(host, mode, t, Sub, x, y);
  }

  /** a * b decodes to the product of the decoded operands, with the same overflow behaviour. */
  lemma MulDecodes(host: Order, mode: OverflowMode, t: PrimType, a: BigEndian, b: BigEndian, x: LittleEndian, y: LittleEndian)
    requires IsInteger(t) && a.Valid(t) && b.Valid(t) && x.Valid(t) && y.Valid(t)
    ensures var p := a.ToNative(host, t) * b.ToNative(host, t);
            var r := BigEndianBinary(host, mode, t, Mul, a, b);
            (InRange(t, p) ==> r == Returns(BigEndian.From(host, t, p))) &&
            (r.Panics? <==> mode == Checked && !InRange(t, p)) &&
            (r.Returns? ==> r.value.ToNative(host, t) == Wrap(t, p))
    ensures var p := x.ToNative(host, t) * y.ToNative(host, t);
            var r := LittleEndianBinary(host, mode, t, Mul, x, y);
            (InRange(t, p) ==> r == Returns(LittleEndian.From(host, t, p))) &&
            (r.Panics? <==> mode == Checked && !InRange(t, p)) &&
            (r.Returns? ==> r.value.ToNative(host, t) == Wrap(t, p))
  {
    BigOutcome(host, mode, t, Mul, a, b);
    LittleOutcome(host, mode, t, Mul, x, y);
  }

  /**
   * a / b decodes to the truncating quotient of the decoded operands; it
   * panics exactly when the divisor decodes to zero or the quotient is MIN / -1,
   * in either overflow mode.
   */
  lemma DivDecodes(host: Order, mode: OverflowMode, t: PrimType, a: BigEndian, b: BigEndian, x: LittleEndian, y: LittleEndian)
    requires IsInteger(t) && a.Valid(t) && b.Valid(t) && x.Valid(t) && y.Valid(t)
    ensures var n, d := a.ToNative(host, t), b.ToNative(host, t);
            var r := BigEndianBinary(host, mode, t, Div, a, b);
            (r.Panics? <==> d == 0 || (IsSigned(t) && n == MinValue(t) && d == -1)) &&
            (r.Returns? ==> r == Returns(BigEndian.From(host, t, TruncDiv(n, d))))
    ensures var n, d := x.ToNative(host, t), y.ToNative(host, t);
            var r := LittleEndianBinary(host, mode, t, Div, x, y);
            (r.Panics? <==> d == 0 || (IsSigned(t) && n == MinValue(t) && d == -1)) &&
            (r.Returns? ==> r == Returns(LittleEndian.From(host, t, TruncDiv(n, d))))
  {
  }

  /** Big-endian 100 plus little-endian 200 carried across to big-endian is 300, and the other way round. */
  lemma MixedEndianSum(host: Order, mode: OverflowMode)
    ensures var t := Signed(4);
            var be, le := BigEndian.From(host, t, 100), LittleEndian.From(host, t, 200);
            BigEndianBinary(host, mode, t, Add, be, BigEndian.FromLittle(host, t, le)) ==
              Returns(BigEndian.From(host, t, 300))
    ensures var t := Signed(4);
            var be, le := BigEndian.From(host, t, 100), LittleEndian.From(host, t, 200);
            LittleEndianBinary(host, mode, t, Add, le, LittleEndian.FromBig(host, t, be)) ==
              Returns(LittleEndian.From(host, t, 300))
  {
    var t := Signed(4);
    assert InRange(t, 300) by { ModulusHalves(t); assert Modulus(t) >= 256 * 256; }
  }

  /**
   * A place holding a big-endian value, modelling `&mut self` of the
   * compound assignments: `*self = *self op other`. When the operator panics
   * the assignment does not happen.
   */
  class BigEndianPlace {
    var value: BigEndian

    constructor (v: BigEndian)
      ensures value == v
    {
      value := v;
    }

    method AddAssign(host: Order, mode: OverflowMode, t: PrimType, other: BigEndian) returns (panicked: bool)
      requires IsInteger(t) && value.Valid(t) && other.Valid(t)
      modifies this
      ensures var r := BigEndianBinary(host, mode, t, Add, old(value), other);
              panicked == r.Panics? && value == if r.Returns? then r.value else old(value)
    {
      var r := BigEndianBinary(host, mode, t, Add, value, other);
      panicked := r.Panics?;
      if r.Returns? { value := r.value; }
    }

    method SubAssign(host: Order, mode: OverflowMode, t: PrimType, other: BigEndian) returns (panicked: bool)
      requires IsInteger(t) && value.Valid(t) && other.Valid(t)
      modifies this
      ensures var r := BigEndianBinary(host, mode, t, Sub, old(value), other);
              panicked == r.Panics? && value == if r.Returns? then r.value else old(value)
    {
      var r := BigEndianBinary(host, mode, t, Sub, value, other);
      panicked := r.Panics?;
      if r.Returns? { value := r.value; }
    }

    method MulAssign(host: Order, mode: OverflowMode, t: PrimType, other: BigEndian) returns (panicked: bool)
      requires IsInteger(t) && value.Valid(t) && other.Valid(t)
      modifies this
      ensures var r := BigEndianBinary(host, mode, t, Mul, old(value), other);
              panicked == r.Panics? && value == if r.Returns? then r.value else old(value)
    {
      var r := BigEndianBinary(host, mode, t, Mul, value, other);
      panicked := r.Panics?;
      if r.Returns? { value := r.value; }
    }

    method DivAssign(host: Order, mode: OverflowMode, t: PrimType, other: BigEndian) returns (panicked: bool)
      requires IsInteger(t) && value.Valid(t) && other.Valid(t)
      modifies this
      ensures var r := BigEndianBinary(host, mode, t, Div, old(value), other);
              panicked == r.Panics? && value == if r.Returns? then r.value else old(value)
    {
      var r := BigEndianBinary(host, mode, t, Div, value, other);
      panicked := r.Panics?;
      if r.Returns? { value := r.value; }
    }
  }

  /** A place holding a little-endian value; see BigEndianPlace. */
  class LittleEndianPlace {
    var value: LittleEndian

    constructor (v: LittleEndian)
      ensures value == v
    {
      value := v;
    }

    method AddAssign(host: Order, mode: OverflowMode, t: PrimType, other: LittleEndian) returns (panicked: bool)
      requires IsInteger(t) && value.Valid(t) && other.Valid(t)
      modifies this
      ensures var r := LittleEndianBinary(host, mode, t, Add, old(value), other);
              panicked == r.Panics? && value == if r.Returns? then r.value else old(value)
    {
      var r := LittleEndianBinary(host, mode, t, Add, value, other);
      panicked := r.Panics?;
      if r.Returns? { value := r.value; }
    }

    method SubAssign(host: Order, mode: OverflowMode, t: PrimType, other: LittleEndian) returns (panicked: bool)
      requires IsInteger(t) && value.Valid(t) && other.Valid(t)
      modifies this
      ensures var r := LittleEndianBinary(host, mode, t, Sub, old(value), other);
              panicked == r.Panics? && value == if r.Returns? then r.value else old(value)
    {
      var r := LittleEndianBinary(host, mode, t, Sub, value, other);
      panicked := r.Panics?;
      if r.Returns? { value := r.value; }
    }

    method MulAssign(host: Order, mode: OverflowMode, t: PrimType, other: LittleEndian) returns (panicked: bool)
      requires IsInteger(t) && value.Valid(t) && other.Valid(t)
      modifies this
      ensures var r := LittleEndianBinary(host, mode, t, Mul, old(value), other);
              panicked == r.Panics? && value == if r.Returns? then r.value else old(value)
    {
      var r := LittleEndianBinary(host, mode, t, Mul, value, other);
      panicked := r.Panics?;
      if r.Returns? { value := r.value; }
    }

    method DivAssign(host: Order, mode: OverflowMode, t: PrimType, other: LittleEndian) returns (panicked: bool)
      requires IsInteger(t) && value.Valid(t) && other.Valid(t)
      modifies this
      ensures var r := LittleEndianBinary(host, mode, t, Div, old(value), other);
              panicked == r.Panics? && value == if r.Returns? then r.value else old(value)
    {
      var r := LittleEndianBinary(host, mode, t, Div, value, other);
      panicked := r.Panics?;
      if r.Returns? { value := r.value; }
    }
  }

  /** Two compound additions of one to a big-endian 1234 leave 1236, as native arithmetic does. */
  method CompoundAddExample(host: Order, mode: OverflowMode) returns (v: BigEndian)
    ensures v.Valid(Signed(4)) && v.ToNative(host, Signed(4)) == 1236
  {
    var t := Signed(4);
    assert InRange(t, 1236) by { ModulusHalves(t); assert Modulus(t) >= 256 * 256; }
    var place := new BigEndianPlace(BigEndian.From(host, t, 1234));
    var p1 := place.AddAssign(host, mode, t, BigEndian.From(host, t, 1));
    var p2 := place.AddAssign(host, mode, t, BigEndian.From(host, t, 1));
    assert !p1 && !p2;
    assert place.value.Eq(host, t, BigEndian.From(host, t, 1236));
    v := place.value;
  }
}
