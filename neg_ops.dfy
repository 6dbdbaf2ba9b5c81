/**
 * Unary minus on the wrappers of the signed integer and signed non-zero
 * types: decode, negate natively, encode in the operand's own order.
 */
module NegOps {
  import opened Primitives
  import opened SpecificEndian

  /**
   * -a for a big-endian wrapper of a signed integer or signed non-zero type:
   * panics on MIN with overflow checks, wraps to MIN without.
   */
  function BigEndianNeg(host: Order, mode: OverflowMode, t: PrimType, a: BigEndian): (r: Outcome<BigEndian>)
    requires IsSigned(t) && a.Valid(t)
    ensures r.Panics? <==> mode == Checked && a.ToNative(host, t) == MinValue(t)
    ensures r.Returns? ==>
              r.value.Valid(t) &&
              r.value.ToNative(host, t) == if a.ToNative(host, t) == MinValue(t) then MinValue(t) else -a.ToNative(host, t)
  {
    match NativeNeg(mode, t, a.ToNative(host, t))
    case Returns(v) => Returns(BigEndian.From(host, t, v))
    case Panics => Panics
  }

  /** -a for a little-endian wrapper of a signed integer or signed non-zero type. */
  function LittleEndianNeg(host: Order, mode: OverflowMode, t: PrimType, a: LittleEndian): (r: Outcome<LittleEndian>)
    requires IsSigned(t) && a.Valid(t)
    ensures r.Panics? <==> mode == Checked && a.ToNative(host, t) == MinValue(t)
    ensures r.Returns? ==>
              r.value.Valid(t) &&
              r.value.ToNative(host, t) == if a.ToNative(host, t) == MinValue(t) then MinValue(t) else -a.ToNative(host, t)
  {
    match NativeNeg(mode, t, a.ToNative(host, t))
    case Returns(v) => Returns(LittleEndian.From(host, t, v))
    case Panics => Panics
  }

  /** The negation stores the declared-order encoding of the negated value. */
  lemma NegStoresEncoding(host: Order, mode: OverflowMode, t: PrimType, a: BigEndian, b: LittleEndian)
    requires IsSigned(t) && a.Valid(t) && b.Valid(t)
    requires a.ToNative(host, t) != MinValue(t) && b.ToNative(host, t) != MinValue(t)
    ensures BigEndianNeg(host, mode, t, a) == Returns(BigEndian.From(host, t, -a.ToNative(host, t)))
    ensures LittleEndianNeg(host, mode, t, b) == Returns(LittleEndian.From(host, t, -b.ToNative(host, t)))
  {
    NegNotMin(t, a.ToNative(host, t));
    NegNotMin(t, b.ToNative(host, t));
  }

  /** Negating twice restores any value but MIN. */
  lemma NegInvolutive(host: Order, mode: OverflowMode, t: PrimType, a: BigEndian, b: LittleEndian)
    requires IsSigned(t) && a.Valid(t) && b.Valid(t)
    requires a.ToNative(host, t) != MinValue(t) && b.ToNative(host, t) != MinValue(t)
    ensures BigEndianNeg(host, mode, t, a).Returns? &&
            BigEndianNeg(host, mode, t, BigEndianNeg(host, mode, t, a).value) == Returns(a)
    ensures LittleEndianNeg(host, mode, t, b).Returns? &&
            LittleEndianNeg(host, mode, t, LittleEndianNeg(host, mode, t, b).value) == Returns(b)
  {
    BigNegTwice(host, mode, t, a);
    LittleNegTwice(host, mode, t, b);
  }

  lemma BigNegTwice(host: Order, mode: OverflowMode, t: PrimType, a: BigEndian)
    requires IsSigned(t) && a.Valid(t) && a.ToNative(host, t) != MinValue(t)
    ensures BigEndianNeg(host, mode, t, a).Returns? &&
            BigEndianNeg(host, mode, t, BigEndianNeg(host, mode, t, a).value) == Returns(a)
  {
    var v := a.ToNative(host, t);
    NegNotMin(t, v);
    var r1 := BigEndianNeg(host, mode, t, a);
    assert r1.Returns? && r1.value.ToNative(host, t) == -v;
    var r2 := BigEndianNeg(host, mode, t, r1.value);
    assert r2.Returns? && r2.value.ToNative(host, t) == v;
    assert r2.value.Eq(host, t, a);
  }

  lemma LittleNegTwice(host: Order, mode: OverflowMode, t: PrimType, b: LittleEndian)
    requires IsSigned(t) && b.Valid(t) && b.ToNative(host, t) != MinValue(t)
    ensures LittleEndianNeg(host, mode, t, b).Returns? &&
            LittleEndianNeg(host, mode, t, LittleEndianNeg(host, mode, t, b).value) == Returns(b)
  {
    var v := b.ToNative(host, t);
    NegNotMin(t, v);
    var r1 := LittleEndianNeg(host, mode, t, b);
    assert r1.Returns? && r1.value.ToNative(host, t) == -v;
    var r2 := LittleEndianNeg(host, mode, t, r1.value);
    assert r2.Returns? && r2.value.ToNative(host, t) == v;
    assert r2.value.Eq(host, t, b);
  }

  /** A signed value other than MIN negates to a value that is again not MIN. */
  lemma NegNotMin(t: PrimType, v: int)
    requires IsSigned(t) && InRange(t, v) && v != MinValue(t)
    ensures InRange(t, -v) && -v != MinValue(t)
  {
    ModulusHalves(t);
  }

  /** -BigEndian::from(1) is i32be::from(-1). */
  lemma NegateOne(host: Order, mode: OverflowMode)
    ensures BigEndianNeg(host, mode, Signed(4), BigEndian.From(host, Signed(4), 1)) ==
              Returns(BigEndian.From(host, Signed(4), -1))
    ensures LittleEndianNeg(host, mode, Signed(4), LittleEndian.From(host, Signed(4), 1)) ==
              Returns(LittleEndian.From(host, Signed(4), -1))
  {
    ModulusHalves(Signed(4));
  }

  /**
   * Negating a NonZeroI8 wrapper: 5 becomes -5; MIN panics with overflow
   * checks and stays MIN, still non-zero, without them.
   */
  lemma NegNonZero(host: Order, mode: OverflowMode)
    ensures var t := NonZeroSigned(1);
            BigEndianNeg(host, mode, t, BigEndian.From(host, t, 5)) == Returns(BigEndian.From(host, t, -5))
    ensures var t := NonZeroSigned(1);
            BigEndianNeg(host, Checked, t, BigEndian.From(host, t, -128)).Panics?
    ensures var t := NonZeroSigned(1);
            LittleEndianNeg(host, Wrapping, t, LittleEndian.From(host, t, -128)) ==
              Returns(LittleEndian.From(host, t, -128))
  {
    assert Modulus(NonZeroSigned(1)) == 256;
  }
}
