/**
 * The conversion contract SpecificEndian and the two endian-tagged wrappers
 * built on it.
 *
 * The trait's four operations are given for every registered value type t,
 * on a host whose native byte order is host. A wrapper holds only the encoded
 * bits; the value type it decodes to is the parameter t its operations take,
 * as Rust's type parameter V is fixed statically.
 */
module SpecificEndian {
  import opened Bytes
  import opened Primitives

  /**
   * NonZero::new_unchecked: its safety precondition, a non-zero argument, is
   * a proof obligation at every call.
   */
  function NewUnchecked(t: PrimType, x: int): (r: int)
    requires IsNonZero(t) && InRange(Underlying(t), x) && x != 0
    ensures InRange(t, r) && r == x
  {
    x
  }

  // ---------------------------------------------------------------------
  // The trait: to_big_endian, to_little_endian, from_big_endian, from_little_endian.
  // u8, i8 and bool use the single-byte identity impl; the wider integers use
  // the core byte-order methods; a non-zero type converts its inner integer.

  function ToBigEndian(host: Order, t: PrimType, v: int): (r: int)
    requires InRange(t, v)
    ensures InRange(t, r)
    ensures r == 0 <==> v == 0
  {
    if t.Boolean? || (IsInteger(t) && Size(t) == 1) then v
    else if IsInteger(t) then ToBe(host, t, v)
    else NewUnchecked(t, ToBe(host, Underlying(t), v))
  }

  function ToLittleEndian(host: Order, t: PrimType, v: int): (r: int)
    requires InRange(t, v)
    ensures InRange(t, r)
    ensures r == 0 <==> v == 0
  {
    if t.Boolean? || (IsInteger(t) && Size(t) == 1) then v
    else if IsInteger(t) then ToLe(host, t, v)
    else NewUnchecked(t, ToLe(host, Underlying(t), v))
  }

  function FromBigEndian(host: Order, t: PrimType, x: int): (r: int)
    requires InRange(t, x)
    ensures InRange(t, r)
    ensures r == 0 <==> x == 0
    decreases IsNonZero(t)
  {
    if t.Boolean? || (IsInteger(t) && Size(t) == 1) then x
    else if IsInteger(t) then FromBe(host, t, x)
    else NewUnchecked(t, FromBigEndian(host, Underlying(t), x))
  }

  function FromLittleEndian(host: Order, t: PrimType, x: int): (r: int)
    requires InRange(t, x)
    ensures InRange(t, r)
    ensures r == 0 <==> x == 0
    decreases IsNonZero(t)
  {
    if t.Boolean? || (IsInteger(t) && Size(t) == 1) then x
    else if IsInteger(t) then FromLe(host, t, x)
    else NewUnchecked(t, FromLittleEndian(host, Underlying(t), x))
  }

  /** from_big_endian undoes to_big_endian, and the other way round, for every type and host. */
  lemma BigEndianRoundTrip(host: Order, t: PrimType, v: int)
    requires InRange(t, v)
    ensures FromBigEndian(host, t, ToBigEndian(host, t, v)) == v
    ensures ToBigEndian(host, t, FromBigEndian(host, t, v)) == v
  {
    var u := Underlying(t);
    if IsInteger(u) {
      BeRoundTrip(host, u, v);
      if Size(t) == 1 {
        SwapBytesSingleByte(u, v);
      }
    }
  }

  /** from_little_endian undoes to_little_endian, and the other way round, for every type and host. */
  lemma LittleEndianRoundTrip(host: Order, t: PrimType, v: int)
    requires InRange(t, v)
    ensures FromLittleEndian(host, t, ToLittleEndian(host, t, v)) == v
    ensures ToLittleEndian(host, t, FromLittleEndian(host, t, v)) == v
  {
    var u := Underlying(t);
    if IsInteger(u) {
      LeRoundTrip(host, u, v);
      if Size(t) == 1 {
        SwapBytesSingleByte(u, v);
      }
    }
  }

  /**
   * For the one-byte types all four conversions are the identity, and they
   * agree with what the core byte-order methods would do.
   */
  lemma SingleByteIdentity(host: Order, t: PrimType, v: int)
    requires (t.Boolean? || IsInteger(t)) && Size(t) == 1 && InRange(t, v)
    ensures ToBigEndian(host, t, v) == v && ToLittleEndian(host, t, v) == v
    ensures FromBigEndian(host, t, v) == v && FromLittleEndian(host, t, v) == v
    ensures IsInteger(t) ==> ToBe(host, t, v) == v && ToLe(host, t, v) == v
  {
    if IsInteger(t) {
      SwapBytesSingleByte(t, v);
    }
  }

  /**
   * The conversions of a non-zero type are those of its inner integer, and
   * never produce zero: every new_unchecked call receives a non-zero value.
   */
  lemma NonZeroConversions(host: Order, t: PrimType, v: int)
    requires IsNonZero(t) && InRange(t, v)
    ensures ToBigEndian(host, t, v) == ToBigEndian(host, Underlying(t), v) != 0
    ensures ToLittleEndian(host, t, v) == ToLittleEndian(host, Underlying(t), v) != 0
    ensures FromBigEndian(host, t, v) == FromBigEndian(host, Underlying(t), v) != 0
    ensures FromLittleEndian(host, t, v) == FromLittleEndian(host, Underlying(t), v) != 0
  {
    if Size(t) == 1 {
      SwapBytesSingleByte(Underlying(t), v);
    }
  }

  /** On a big-endian host the big-endian conversions are the identity and little-endian ones swap bytes. */
  lemma HostOrder(host: Order, t: PrimType, v: int)
    requires IsInteger(t) && InRange(t, v)
    ensures host == Big ==> ToBigEndian(host, t, v) == v && FromBigEndian(host, t, v) == v
    ensures host == Big ==> ToLittleEndian(host, t, v) == SwapBytes(t, v) == FromLittleEndian(host, t, v)
    ensures host == Little ==> ToLittleEndian(host, t, v) == v && FromLittleEndian(host, t, v) == v
    ensures host == Little ==> ToBigEndian(host, t, v) == SwapBytes(t, v) == FromBigEndian(host, t, v)
  {
    if Size(t) == 1 {
      SwapBytesSingleByte(t, v);
    }
  }

  // ---------------------------------------------------------------------
  // The wrappers

  /** BigEndian<V, B>: a value stored in big-endian order. */
  datatype BigEndian = BigEndian(bits: int)
  {
    /** The stored bits are a value of the carrier type. */
    predicate Valid(t: PrimType)
    {
      InRange(t, bits)
    }

    /** to_bits: the raw stored data. */
    function ToBits(): (b: int)
      ensures BigEndian(b) == this
    {
      bits
    }

    /** from_bits: imports raw data without any conversion. */
    static function FromBits(b: int): (w: BigEndian)
      ensures w.ToBits() == b
    {
      BigEndian(b)
    }

    /** to_native: the value in host order; re-encoding it gives back the stored bits. */
    function ToNative(host: Order, t: PrimType): (v: int)
      requires Valid(t)
      ensures InRange(t, v)
      ensures ToBigEndian(host, t, v) == bits
    {
      BigEndianRoundTrip(host, t, bits);
      FromBigEndian(host, t, bits)
    }

    /** From<V>: encodes v; decoding the result gives back v. */
    static function From(host: Order, t: PrimType, v: int): (w: BigEndian)
      requires InRange(t, v)
      ensures w.Valid(t) && w.ToNative(host, t) == v
    {
      BigEndianRoundTrip(host, t, v);
      BigEndian(ToBigEndian(host, t, v))
    }

    /**
     * PartialEq: compares decoded values. Because the encoding is one to one,
     * this is the same as comparing stored bits.
     */
    function Eq(host: Order, t: PrimType, other: BigEndian): (r: bool)
      requires Valid(t) && other.Valid(t)
      ensures r <==> this == other
    {
      ToNative(host, t) == other.ToNative(host, t)
    }

    /** Default: all-zero bits, which decode to zero. */
    static function Default(): (w: BigEndian)
      ensures w.ToBits() == 0
      ensures forall t: PrimType :: !IsNonZero(t) ==> w.Valid(t)
      ensures forall host: Order, t: PrimType :: !IsNonZero(t) ==> w.ToNative(host, t) == 0
    {
      ZeroDecodes();
      BigEndian(0)
    }

    /** The cross-tag From: decode the little-endian value, re-encode it big-endian. */
    static function FromLittle(host: Order, t: PrimType, w: LittleEndian): (r: BigEndian)
      requires w.Valid(t)
      ensures r.Valid(t) && r.ToNative(host, t) == w.ToNative(host, t)
    {
      var v := w.ToNative(host, t);
      BigEndianRoundTrip(host, t, v);
      FromBits(ToBigEndian(host, t, v))
    }
  }

  /** LittleEndian<V, B>: a value stored in little-endian order. */
  datatype LittleEndian = LittleEndian(bits: int)
  {
    predicate Valid(t: PrimType)
    {
      InRange(t, bits)
    }

    function ToBits(): (b: int)
      ensures LittleEndian(b) == this
    {
      bits
    }

    static function FromBits(b: int): (w: LittleEndian)
      ensures w.ToBits() == b
    {
      LittleEndian(b)
    }

    function ToNative(host: Order, t: PrimType): (v: int)
      requires Valid(t)
      ensures InRange(t, v)
      ensures ToLittleEndian(host, t, v) == bits
    {
      LittleEndianRoundTrip(host, t, bits);
      FromLittleEndian(host, t, bits)
    }

    static function From(host: Order, t: PrimType, v: int): (w: LittleEndian)
      requires InRange(t, v)
      ensures w.Valid(t) && w.ToNative(host, t) == v
    {
      LittleEndianRoundTrip(host, t, v);
      LittleEndian(ToLittleEndian(host, t, v))
    }

    function Eq(host: Order, t: PrimType, other: LittleEndian): (r: bool)
      requires Valid(t) && other.Valid(t)
      ensures r <==> this == other
    {
      ToNative(host, t) == other.ToNative(host, t)
    }

    static function Default(): (w: LittleEndian)
      ensures w.ToBits() == 0
      ensures forall t: PrimType :: !IsNonZero(t) ==> w.Valid(t)
      ensures forall host: Order, t: PrimType :: !IsNonZero(t) ==> w.ToNative(host, t) == 0
    {
      ZeroDecodes();
      LittleEndian(0)
    }

    static function FromBig(host: Order, t: PrimType, w: BigEndian): (r: LittleEndian)
      requires w.Valid(t)
      ensures r.Valid(t) && r.ToNative(host, t) == w.ToNative(host, t)
    {
      var v := w.ToNative(host, t);
      LittleEndianRoundTrip(host, t, v);
      FromBits(ToLittleEndian(host, t, v))
    }
  }

  /** Zero is a value of every type but the non-zero ones, and both wrappers decode all-zero bits to it. */
  lemma ZeroDecodes()
    ensures forall t: PrimType :: !IsNonZero(t) ==> InRange(t, 0)
    ensures forall host: Order, t: PrimType :: !IsNonZero(t) ==> BigEndian(0).ToNative(host, t) == 0
    ensures forall host: Order, t: PrimType :: !IsNonZero(t) ==> LittleEndian(0).ToNative(host, t) == 0
  {
    forall t: PrimType | !IsNonZero(t)
      ensures InRange(t, 0)
    {
      ModulusHalves(t);
    }
  }

  /** Raw import and export perform no conversion, in both directions, for both wrappers. */
  lemma RawBitsRoundTrip(b: int, x: BigEndian, y: LittleEndian)
    ensures BigEndian.FromBits(b).ToBits() == b && BigEndian.FromBits(x.ToBits()) == x
    ensures LittleEndian.FromBits(b).ToBits() == b && LittleEndian.FromBits(y.ToBits()) == y
  {
  }

  /**
   * A value stored with from, exported with to_bits (as into a raw buffer),
   * and imported again with from_bits decodes back to the value.
   */
  lemma BufferRoundTrip(host: Order, t: PrimType, v: int)
    requires InRange(t, v)
    ensures BigEndian.FromBits(BigEndian.From(host, t, v).ToBits()).ToNative(host, t) == v
    ensures LittleEndian.FromBits(LittleEndian.From(host, t, v).ToBits()).ToNative(host, t) == v
  {
  }

  /** to_native(from(v)) == v and from(to_native(w)) == w, for both wrappers. */
  lemma NativeRoundTrip(host: Order, t: PrimType, v: int, x: BigEndian, y: LittleEndian)
    requires InRange(t, v) && x.Valid(t) && y.Valid(t)
    ensures BigEndian.From(host, t, v).ToNative(host, t) == v
    ensures LittleEndian.From(host, t, v).ToNative(host, t) == v
    ensures BigEndian.From(host, t, x.ToNative(host, t)) == x
    ensures LittleEndian.From(host, t, y.ToNative(host, t)) == y
  {
  }

  /** Wrappers are equal exactly when they are built from equal values. */
  lemma FromInjective(host: Order, t: PrimType, v: int, u: int)
    requires InRange(t, v) && InRange(t, u)
    ensures BigEndian.From(host, t, v).Eq(host, t, BigEndian.From(host, t, u)) <==> v == u
    ensures LittleEndian.From(host, t, v).Eq(host, t, LittleEndian.From(host, t, u)) <==> v == u
  {
  }

  /** Converting to the other tag and back restores the wrapper. */
  lemma CrossTagRoundTrip(host: Order, t: PrimType, x: BigEndian, y: LittleEndian)
    requires x.Valid(t) && y.Valid(t)
    ensures BigEndian.FromLittle(host, t, LittleEndian.FromBig(host, t, x)) == x
    ensures LittleEndian.FromBig(host, t, BigEndian.FromLittle(host, t, y)) == y
  {
    NativeRoundTrip(host, t, x.bits, x, y);
  }

  /**
   * Re-encoding in the other order amounts to reversing the stored bytes,
   * whatever the host's order.
   */
  lemma CrossTagSwapsBytes(host: Order, t: PrimType, x: BigEndian, y: LittleEndian)
    requires !t.Boolean? && x.Valid(t) && y.Valid(t)
    ensures LittleEndian.FromBig(host, t, x).bits == SwapBytes(Underlying(t), x.bits)
    ensures BigEndian.FromLittle(host, t, y).bits == SwapBytes(Underlying(t), y.bits)
  {
    var u := Underlying(t);
    if Size(t) == 1 {
      SwapBytesSingleByte(u, x.bits);
      SwapBytesSingleByte(u, y.bits);
    } else {
      assert LittleEndian.FromBig(host, t, x).bits == ToLe(host, u, FromBe(host, u, x.bits));
      assert BigEndian.FromLittle(host, t, y).bits == ToBe(host, u, FromLe(host, u, y.bits));
      BeLeIsSwap(host, u, x.bits);
      BeLeIsSwap(host, u, y.bits);
    }
  }

  /** 0xfe stored as a u64: the low byte in memory order, which a little-endian host reads as the high byte. */
  lemma StoreU64(host: Order)
    ensures BigEndian.From(host, Unsigned(8), 0xfe).ToBits() ==
            if host == Big then 0xfe else 0xfe00000000000000
    ensures LittleEndian.From(host, Unsigned(8), 0xfe).ToBits() ==
            if host == Big then 0xfe00000000000000 else 0xfe
  {
    var t := Unsigned(8);
    StoreLowByte(t, 0xfe);
    Pow256Seven();
    assert SwapBytes(t, 0xfe) == 0xfe00000000000000;
    HostOrder(host, t, 0xfe);
  }
}
