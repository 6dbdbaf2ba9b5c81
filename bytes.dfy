/**
 * Fixed-width byte strings read as unsigned integers, and the byte reversal
 * on which every byte-order conversion of the library rests.
 *
 * An n-byte pattern is the number x < 256^n; LeBytes(x, n) lists its bytes
 * least significant first, and ByteSwap(x, n) is the number whose bytes are
 * those of x in the opposite order.
 */
module Bytes {

  newtype byte = x: int | 0 <= x < 256

  /** 256^n: the number of distinct n-byte patterns. */
  function Pow256(n: nat): (r: nat)
    ensures r >= 1
  {
    if n == 0 then 1 else 256 * Pow256(n - 1)
  }

  lemma Pow256Seven()
    ensures Pow256(7) == 0x100000000000000
  {
    assert Pow256(2) == 0x10000;
    assert Pow256(4) == 0x100000000 by { assert Pow256(3) == 0x1000000; }
    assert Pow256(6) == 0x1000000000000 by { assert Pow256(5) == 0x10000000000; }
  }

  /** The n bytes of x, least significant byte first. */
  function LeBytes(x: nat, n: nat): (s: seq<byte>)
    requires x < Pow256(n)
    ensures |s| == n
  {
    if n == 0 then [] else [(x % 256) as byte] + LeBytes(x / 256, n - 1)
  }

  /** The number whose bytes, least significant first, are s. */
  function LeValue(s: seq<byte>): (x: nat)
    ensures x < Pow256(|s|)
  {
    if s == [] then 0 else s[0] as nat + 256 * LeValue(s[1..])
  }

  lemma {:induction false} LeValueOfLeBytes(x: nat, n: nat)
    requires x < Pow256(n)
    ensures LeValue(LeBytes(x, n)) == x
  {
    if n > 0 {
      assert LeBytes(x, n)[1..] == LeBytes(x / 256, n - 1);
      LeValueOfLeBytes(x / 256, n - 1);
    }
  }

  lemma {:induction false} LeBytesOfLeValue(s: seq<byte>)
    ensures LeBytes(LeValue(s), |s|) == s
  {
    if s != [] {
      var v := LeValue(s[1..]);
      assert (s[0] as nat + 256 * v) % 256 == s[0] as nat;
      assert (s[0] as nat + 256 * v) / 256 == v;
      LeBytesOfLeValue(s[1..]);
      assert s == [s[0]] + s[1..];
    }
  }

  /** The bytes of s in the opposite order. */
  function Reverse(s: seq<byte>): (r: seq<byte>)
    ensures |r| == |s|
    ensures forall i :: 0 <= i < |s| ==> r[i] == s[|s| - 1 - i]
  {
    if s == [] then [] else Reverse(s[1..]) + [s[0]]
  }

  lemma ReverseReverse(s: seq<byte>)
    ensures Reverse(Reverse(s)) == s
  {
  }

  /** The n-byte pattern x with its bytes in the opposite order. */
  function ByteSwap(x: nat, n: nat): (r: nat)
    requires x < Pow256(n)
    ensures r < Pow256(n)
    ensures LeBytes(r, n) == Reverse(LeBytes(x, n))
  {
    LeBytesOfLeValue(Reverse(LeBytes(x, n)));
    LeValue(Reverse(LeBytes(x, n)))
  }

  /** Swapping twice restores the pattern. */
  lemma ByteSwapInvolutive(x: nat, n: nat)
    requires x < Pow256(n)
    ensures ByteSwap(ByteSwap(x, n), n) == x
  {
    var s := LeBytes(x, n);
    LeBytesOfLeValue(Reverse(s));
    ReverseReverse(s);
    LeValueOfLeBytes(x, n);
  }

  predicate AllZero(s: seq<byte>)
  {
    forall i :: 0 <= i < |s| ==> s[i] == 0
  }

  lemma {:induction false} LeValueZero(s: seq<byte>)
    ensures LeValue(s) == 0 <==> AllZero(s)
  {
    if s != [] {
      LeValueZero(s[1..]);
      if AllZero(s[1..]) && s[0] == 0 {
        forall i | 0 <= i < |s| ensures s[i] == 0 {
          if i > 0 { assert s[i] == s[1..][i - 1]; }
        }
      }
      if AllZero(s) {
        forall i | 0 <= i < |s[1..]| ensures s[1..][i] == 0 {
          assert s[1..][i] == s[i + 1];
        }
      }
    }
  }

  /** Byte reversal maps the zero pattern, and only it, to zero. */
  lemma ByteSwapZero(x: nat, n: nat)
    requires x < Pow256(n)
    ensures ByteSwap(x, n) == 0 <==> x == 0
  {
    var s := LeBytes(x, n);
    LeValueOfLeBytes(x, n);
    LeValueZero(s);
    LeValueZero(Reverse(s));
    if AllZero(Reverse(s)) {
      forall i | 0 <= i < |s| ensures s[i] == 0 {
        assert Reverse(s)[|s| - 1 - i] == s[i];
      }
    }
  }

  function Zeros(m: nat): (s: seq<byte>)
    ensures |s| == m && AllZero(s)
  {
    seq(m, _ => 0 as byte)
  }

  lemma {:induction false} LeBytesLowByte(b: nat, n: nat)
    requires 1 <= n && b < 256
    ensures LeBytes(b, n) == [b as byte] + Zeros(n - 1)
  {
    assert b / 256 == 0 && b % 256 == b;
    LeBytesZero(n - 1);
  }

  lemma {:induction false} LeBytesZero(m: nat)
    ensures LeBytes(0, m) == Zeros(m)
  {
    if m > 0 {
      LeBytesZero(m - 1);
      assert Zeros(m) == [0 as byte] + Zeros(m - 1);
    }
  }

  lemma {:induction false} LeValueHighByte(b: byte, m: nat)
    ensures LeValue(Zeros(m) + [b]) == b as nat * Pow256(m)
  {
    if m > 0 {
      var s := Zeros(m) + [b];
      assert s[1..] == Zeros(m - 1) + [b];
      LeValueHighByte(b, m - 1);
      assert LeValue(s) == 256 * LeValue(s[1..]);
      MulShift(b as nat, Pow256(m - 1));
    }
  }

  lemma MulShift(b: nat, p: nat)
    ensures 256 * (b * p) == b * (256 * p)
  {
  }

  /** A value held in the low byte moves to the high byte. */
  lemma ByteSwapLowByte(b: nat, n: nat)
    requires 1 <= n && b < 256
    ensures ByteSwap(b, n) == b * Pow256(n - 1)
  {
    LeBytesLowByte(b, n);
    var s := LeBytes(b, n);
    assert Reverse(s) == Zeros(n - 1) + [b as byte];
    LeValueHighByte(b as byte, n - 1);
  }

  /** A one-byte pattern is its own reversal. */
  lemma ByteSwapSingle(x: nat)
    requires x < 256
    ensures ByteSwap(x, 1) == x
  {
    ByteSwapLowByte(x, 1);
  }
}
