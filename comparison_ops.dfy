/**
 * Ordering of the wrappers: PartialOrd and Ord compare the decoded values,
 * never the stored bits.
 */
module ComparisonOps {
  import opened Bytes
  import opened Primitives
  import opened SpecificEndian

  datatype Ordering = Less | Equal | Greater

  datatype Option<T> = None | Some(value: T)

  /** Ord::cmp on the native values. */
  function NativeCmp(a: int, b: int): (r: Ordering)
    ensures r == Less <==> a < b
    ensures r == Greater <==> a > b
  {
    if a < b then Less else if a == b then Equal else Greater
  }

  /** PartialOrd::partial_cmp on the native values: the registered types are totally ordered. */
  function NativePartialCmp(a: int, b: int): (r: Option<Ordering>)
    ensures r.Some?
  {
    Some(NativeCmp(a, b))
  }

  /** cmp on big-endian wrappers: Equal exactly for equal wrappers, otherwise the order of the decoded values. */
  function BigEndianCmp(host: Order, t: PrimType, a: BigEndian, b: BigEndian): (r: Ordering)
    requires a.Valid(t) && b.Valid(t)
    ensures r == Equal <==> a.Eq(host, t, b)
    ensures r == Less <==> a.ToNative(host, t) < b.ToNative(host, t)
    ensures r == Greater <==> a.ToNative(host, t) > b.ToNative(host, t)
  {
    NativeCmp(a.ToNative(host, t), b.ToNative(host, t))
  }

  function BigEndianPartialCmp(host: Order, t: PrimType, a: BigEndian, b: BigEndian): (r: Option<Ordering>)
    requires a.Valid(t) && b.Valid(t)
    ensures r == Some(BigEndianCmp(host, t, a, b))
  {
    NativePartialCmp(a.ToNative(host, t), b.ToNative(host, t))
  }

  /** cmp on little-endian wrappers. */
  function LittleEndianCmp(host: Order, t: PrimType, a: LittleEndian, b: LittleEndian): (r: Ordering)
    requires a.Valid(t) && b.Valid(t)
    ensures r == Equal <==> a.Eq(host, t, b)
    ensures r == Less <==> a.ToNative(host, t) < b.ToNative(host, t)
    ensures r == Greater <==> a.ToNative(host, t) > b.ToNative(host, t)
  {
    NativeCmp(a.ToNative(host, t), b.ToNative(host, t))
  }

  function LittleEndianPartialCmp(host: Order, t: PrimType, a: LittleEndian, b: LittleEndian): (r: Option<Ordering>)
    requires a.Valid(t) && b.Valid(t)
    ensures r == Some(LittleEndianCmp(host, t, a, b))
  {
    NativePartialCmp(a.ToNative(host, t), b.ToNative(host, t))
  }

  /** Comparing wrappers built from values is comparing the values, in either order. */
  lemma CmpOfFrom(host: Order, t: PrimType, v: int, u: int)
    requires InRange(t, v) && InRange(t, u)
    ensures BigEndianCmp(host, t, BigEndian.From(host, t, v), BigEndian.From(host, t, u)) == NativeCmp(v, u)
    ensures LittleEndianCmp(host, t, LittleEndian.From(host, t, v), LittleEndian.From(host, t, u)) == NativeCmp(v, u)
  {
  }

  /** cmp is antisymmetric and transitive, so it is a total order on wrappers. */
  lemma CmpIsTotalOrder(host: Order, t: PrimType, a: BigEndian, b: BigEndian, c: BigEndian)
    requires a.Valid(t) && b.Valid(t) && c.Valid(t)
    ensures BigEndianCmp(host, t, a, b) == Less <==> BigEndianCmp(host, t, b, a) == Greater
    ensures BigEndianCmp(host, t, a, b) == Equal <==> a == b
    ensures BigEndianCmp(host, t, a, b) == Less && BigEndianCmp(host, t, b, c) == Less ==>
              BigEndianCmp(host, t, a, c) == Less
  {
  }

  /** The same for little-endian wrappers. */
  lemma LittleCmpIsTotalOrder(host: Order, t: PrimType, a: LittleEndian, b: LittleEndian, c: LittleEndian)
    requires a.Valid(t) && b.Valid(t) && c.Valid(t)
    ensures LittleEndianCmp(host, t, a, b) == Less <==> LittleEndianCmp(host, t, b, a) == Greater
    ensures LittleEndianCmp(host, t, a, b) == Equal <==> a == b
    ensures LittleEndianCmp(host, t, a, b) == Less && LittleEndianCmp(host, t, b, c) == Less ==>
              LittleEndianCmp(host, t, a, c) == Less
  {
  }

  /**
   * i32 12345 < 34565 as big-endian wrappers, on either host, although on a
   * little-endian host the stored bits compare the other way.
   */
  lemma OrderIgnoresStoredBits(host: Order)
    ensures var t := Signed(4);
            var a, b := BigEndian.From(host, t, 12345), BigEndian.From(host, t, 34565);
            BigEndianCmp(host, t, a, b) == Less && BigEndianCmp(host, t, b, a) == Greater &&
            a.Eq(host, t, BigEndian.From(host, t, 12345)) && !a.Eq(host, t, b) &&
            (host == Little ==> a.ToBits() > b.ToBits())
  {
    var t := Signed(4);
    I32Bounds();
    if host == Little {
      SwappedLow();
      SwappedHigh();
      HostOrder(host, t, 12345);
      HostOrder(host, t, 34565);
      assert SwapBytes(t, 12345) == 0x3930_0000;
      assert SwapBytes(t, 34565) == 0x0587_0000;
    }
  }

  lemma I32Bounds()
    ensures Modulus(Signed(4)) == 0x1_0000_0000
    ensures MinValue(Signed(4)) == -0x8000_0000 && MaxValue(Signed(4)) == 0x7fff_ffff
  {
    assert Pow256(4) == 0x1_0000_0000 by { assert Pow256(2) == 0x10000; }
  }

  /** The byte reversal of 12345 as a four-byte pattern. */
  lemma SwappedLow()
    ensures ByteSwap(12345, 4) == 0x3930_0000
  {
    assert Pow256(4) == 0x1_0000_0000 by { assert Pow256(2) == 0x10000; }
    assert LeBytes(12345, 4) == [0x39, 0x30, 0, 0];
    assert Reverse([0x39, 0x30, 0, 0]) == [0, 0, 0x30, 0x39];
  }

  /** The byte reversal of 34565 as a four-byte pattern. */
  lemma SwappedHigh()
    ensures ByteSwap(34565, 4) == 0x0587_0000
  {
    assert Pow256(4) == 0x1_0000_0000 by { assert Pow256(2) == 0x10000; }
    assert LeBytes(34565, 4) == [0x05, 0x87, 0, 0];
    assert Reverse([0x05, 0x87, 0, 0]) == [0, 0, 0x87, 0x05];
  }
}
