# simple-endian, modelled in Dafny

The `simple-endian` crate lets a program hold integers in a declared byte
order. `BigEndian<V>` and `LittleEndian<V>` each store one value already
converted to their order. The conversion comes from the `SpecificEndian`
trait, implemented for the primitive integers, `u8`/`i8`/`bool` and the
`NonZero` integers. Arithmetic and negation on a wrapper decode it to the
native value, apply the native operator, and encode the result again;
ordering compares the decoded values.

This project models that core and proves its laws: round trips, semantic
equality, the non-zero safety argument, arithmetic and ordering commuting
with decoding, and the byte layouts the crate's tests expect.

How the Rust is represented:

- **Host byte order.** It is a parameter `host: Order` (`Big | Little`). It
  stands in for `cfg!(target_endian)`, so every law is proved for both hosts.
- **Value types.** A value type is a `PrimType`:
  - `Unsigned(n)` or `Signed(n)` for `n` in {1, 2, 4, 8, 16} bytes;
  - `Boolean`, a byte holding 0 or 1;
  - `NonZeroUnsigned(n)` or `NonZeroSigned(n)` for `n` in {1, 2, 4, 8}.

  `usize`/`isize` and their non-zero forms are the width that matches the
  target's address size. A value is a mathematical integer in the type's
  range (`Primitives.InRange`). Signed variables denote values, not bit
  patterns. `ToRaw`/`FromRaw` convert to and from two's complement.
- **Core byte-order methods.** Rust's `to_be`, `from_be`, `to_le`,
  `from_le` and `swap_bytes` are defined in `Primitives`. A byte swap writes
  the pattern as `n` little-endian digits base 256, reverses them, and reads
  the result back (`Bytes.ByteSwap`).
- **Wrappers.** `BigEndian` and `LittleEndian` are datatypes with one `bits`
  field, the stored value of the carrier type `B = V`. Rust fixes the value
  type `V` statically, so here every operation takes it as a parameter `t`.
  `Valid(t)` states that the stored bits are a value of `t`, which the Rust
  type system guarantees.
- **Native operator failures.** The outcome of a native operator is
  `Outcome` = `Returns(v)` or `Panics`. `OverflowMode` chooses:
  - `Checked`, a debug build: overflow panics;
  - `Wrapping`, a release build: overflow wraps around in two's complement.

  Division by zero and `MIN / -1` panic in both modes. Division truncates
  toward zero (`Primitives.TruncDiv`), not the way Dafny's `/` does.
- **Operands.** Arithmetic takes two operands of the same wrapper type
  `Self`, so the result keeps that type's order. The `mixed_endian_*` tests
  first convert one operand to the other tag with `.into()`, which
  `MathOps.MixedEndianSum` models.
- **Registered types.** `bool` is registered with `u8` and `i8` as a
  single-byte identity type (`src/specific_endian.rs`, line 41). The
  non-zero registrations stop at 64 bits and `usize`/`isize`: there is no
  non-zero 128-bit type (lines 125-134).
- **Negation.** `Neg` is given to every wrapper whose value type has `Neg`:
  the signed integers and, through the standard library's `Neg` for the
  signed `NonZero` types (Rust 1.71 and later), the signed non-zero
  integers. A non-zero value is negated through its inner integer, and the
  result is again non-zero.
- **Compound assignment.** `a op= b` assigns through `&mut self`. It is
  modelled by the classes `BigEndianPlace` and `LittleEndianPlace`, each
  holding the wrapper in a field. When the operator panics the place keeps
  its old value.

Modules: `Bytes` (digit strings and their reversal), `Primitives` (Rust's
primitive types and their native operators), `SpecificEndian` (the trait, its
implementations, the wrappers and the cross-tag conversions), `MathOps`,
`ComparisonOps`, `NegOps`.

## Model

| member | source | states |
|---|---|---|
| Bytes.ByteSwap | src/specific_endian.rs:51-61 | the n bytes of the result, lowest first, are the n bytes of the input in reverse order |
| Bytes.ByteSwapInvolutive | src/specific_endian.rs:51-61 | reversing the bytes of an n-byte pattern twice gives the pattern back |
| Bytes.ByteSwapZero | src/specific_endian.rs:92-93 | a byte reversal is zero exactly when its input is zero, which is the safety argument behind `new_unchecked` |
| Bytes.ByteSwapLowByte | src/specific_endian.rs:432-439 | a value held in the lowest byte moves to the highest byte |
| Bytes.ByteSwapSingle | src/specific_endian.rs:19-35 | a one-byte pattern is its own reversal |
| Primitives.SwapBytes | src/specific_endian.rs:51-62 | swapping an integer's bytes gives a value of the same type whose two's-complement bytes are the input's in reverse order, zero exactly when the input is zero |
| Primitives.SwapBytesInvolutive | src/specific_endian.rs:51-62 | swapping the bytes of an integer twice restores it |
| Primitives.ToBe | src/specific_endian.rs:51-53 | `to_be` gives a value of the type, zero exactly when the input is zero |
| Primitives.FromBe | src/specific_endian.rs:57-59 | `from_be` gives a value of the type, zero exactly when the input is zero |
| Primitives.ToLe | src/specific_endian.rs:54-56 | `to_le` gives a value of the type, zero exactly when the input is zero |
| Primitives.FromLe | src/specific_endian.rs:60-62 | `from_le` gives a value of the type, zero exactly when the input is zero |
| Primitives.BeRoundTrip | src/specific_endian.rs:51-59 | `from_be` and `to_be` undo each other, in both orders of application, on either host |
| Primitives.LeRoundTrip | src/specific_endian.rs:54-62 | `from_le` and `to_le` undo each other, in both orders of application, on either host |
| Primitives.BeLeIsSwap | src/specific_endian.rs:339-350 | decoding from one order and encoding to the other is a byte swap on either host |
| Primitives.Wrap | src/math_ops.rs:19 | the wrapped result is a value of the type, congruent to the exact result modulo 2^(8n), and equal to it when it fits |
| Primitives.Arith | src/math_ops.rs:19 | a native +, - or * panics exactly when overflow checks are on and the exact result does not fit; otherwise it returns the wrapped result, which is the exact one when it fits |
| Primitives.TruncDiv | src/math_ops.rs:63 | the quotient has the magnitude of the quotient of magnitudes and is negative only when exactly one operand is |
| Primitives.TruncDivRemainder | src/math_ops.rs:63 | the remainder a - q*b is smaller in magnitude than b and has a's sign, so the quotient is rounded toward zero |
| Primitives.TruncDivOfNegative | src/math_ops.rs:63 | -7 / 2 is -3 in Rust, where Euclidean division gives -4; 7 / -2 is -3 |
| Primitives.NativeDiv | src/math_ops.rs:62-64 | native division panics exactly on a zero divisor or on signed MIN / -1, in either mode; otherwise it returns the truncating quotient |
| Primitives.DivOverflow | src/math_ops.rs:62-64 | the truncating quotient of two values of the type fits, except for signed MIN / -1 |
| Primitives.NativeBinary | src/math_ops.rs:19 | whatever a native binary operator returns is a value of the type |
| Primitives.NativeNeg | src/neg_ops.rs:15 | native unary minus on a signed or signed non-zero type panics exactly on MIN with overflow checks on; otherwise it returns a value of the type, -a, or MIN for MIN |
| Primitives.NegOverflow | src/neg_ops.rs:15 | -a is a value of the signed type exactly when a is not MIN, and MIN wraps to itself |
| SpecificEndian.ToBigEndian | src/specific_endian.rs:22-96 | `to_big_endian` of the single-byte (lines 22-24), integer (51-53) and non-zero (90-96) impls: a value of a registered type becomes again a value of that type, non-zero exactly when the input is |
| SpecificEndian.ToLittleEndian | src/specific_endian.rs:25-104 | `to_little_endian` of the single-byte (lines 25-27), integer (54-56) and non-zero (98-104) impls: again a value of that type, non-zero exactly when the input is |
| SpecificEndian.FromBigEndian | src/specific_endian.rs:28-112 | `from_big_endian` of the single-byte (lines 28-30), integer (57-59) and non-zero (106-112) impls: again a value of that type, non-zero exactly when the input is |
| SpecificEndian.FromLittleEndian | src/specific_endian.rs:31-120 | `from_little_endian` of the single-byte (lines 31-33), integer (60-62) and non-zero (114-120) impls: again a value of that type, non-zero exactly when the input is |
| SpecificEndian.BigEndianRoundTrip | src/specific_endian.rs:48-64 | `from_big_endian` undoes `to_big_endian` and the other way round, for every registered type on either host |
| SpecificEndian.LittleEndianRoundTrip | src/specific_endian.rs:48-64 | `from_little_endian` undoes `to_little_endian` and the other way round, for every registered type on either host |
| SpecificEndian.SingleByteIdentity | src/specific_endian.rs:19-41 | for `u8`, `i8` and `bool` all four conversions are the identity, and for the one-byte integers they agree with `to_be`/`to_le` |
| SpecificEndian.NonZeroConversions | src/specific_endian.rs:87-134 | a non-zero type converts like its inner integer and never produces zero, so every `new_unchecked` receives a non-zero argument |
| SpecificEndian.HostOrder | src/specific_endian.rs:51-62 | on a big-endian host the big-endian conversions are the identity and the little-endian ones swap bytes, and the mirror image holds on a little-endian host |
| SpecificEndian.BigEndian.ToNative | src/specific_endian.rs:183-185 | `to_native` gives a value of the type whose big-endian encoding is the stored bits |
| SpecificEndian.BigEndian.From | src/specific_endian.rs:188-192 | `from(v)` holds a well-formed pattern that decodes back to `v` |
| SpecificEndian.BigEndian.Eq | src/specific_endian.rs:194-198 | equality of decoded values holds exactly when the wrappers themselves are equal |
| SpecificEndian.BigEndian.FromLittle | src/specific_endian.rs:339-343 | converting a little-endian wrapper to big-endian keeps the decoded value |
| SpecificEndian.LittleEndian.ToNative | src/specific_endian.rs:220-222 | `to_native` gives a value of the type whose little-endian encoding is the stored bits |
| SpecificEndian.LittleEndian.From | src/specific_endian.rs:225-229 | `from(v)` holds a well-formed pattern that decodes back to `v` |
| SpecificEndian.LittleEndian.Eq | src/specific_endian.rs:231-235 | equality of decoded values holds exactly when the wrappers themselves are equal |
| SpecificEndian.LittleEndian.FromBig | src/specific_endian.rs:346-350 | converting a big-endian wrapper to little-endian keeps the decoded value |
| SpecificEndian.RawBitsRoundTrip | src/specific_endian.rs:175-181 | `to_bits(from_bits(b)) == b` and `from_bits(to_bits(w)) == w`, for both wrappers: raw import and export do no conversion |
| SpecificEndian.BufferRoundTrip | src/specific_endian.rs:175-192 | a value stored with `from`, exported with `to_bits` and imported again with `from_bits` decodes back to the value, for both wrappers |
| SpecificEndian.NativeRoundTrip | src/specific_endian.rs:457-461 | `to_native(from(v)) == v` and `from(to_native(w)) == w`, for both wrappers |
| SpecificEndian.FromInjective | src/specific_endian.rs:194-198 | wrappers built from two values are equal exactly when the values are |
| SpecificEndian.BigEndian.Default | src/specific_endian.rs:165 | the derived `Default` holds all-zero bits, which are a value of every type but the non-zero ones and decode to zero (false for `bool`) on either host |
| SpecificEndian.LittleEndian.Default | src/specific_endian.rs:202 | the same for the little-endian wrapper |
| SpecificEndian.ZeroDecodes | src/specific_endian.rs:165 | zero is a value of every type but the non-zero ones, and both wrappers decode all-zero bits to zero |
| SpecificEndian.BigEndian.ToBits | src/specific_endian.rs:175-177 | `to_bits` exports the stored data unconverted: the stored bits determine the wrapper |
| SpecificEndian.BigEndian.FromBits | src/specific_endian.rs:179-181 | `from_bits` imports raw data unconverted: `to_bits` gives back exactly the imported bits |
| SpecificEndian.LittleEndian.ToBits | src/specific_endian.rs:212-214 | `to_bits` exports the stored data unconverted |
| SpecificEndian.LittleEndian.FromBits | src/specific_endian.rs:216-218 | `from_bits` imports raw data unconverted |
| SpecificEndian.NewUnchecked | src/specific_endian.rs:91-94 | `new_unchecked`'s safety condition, a non-zero argument of the inner integer type, is a proof obligation at each call; the result is that value as a value of the non-zero type |
| SpecificEndian.CrossTagRoundTrip | src/specific_endian.rs:339-350 | converting to the other tag and back restores the wrapper |
| SpecificEndian.CrossTagSwapsBytes | src/specific_endian.rs:339-350 | converting to the other tag reverses the stored bytes, whatever the host |
| SpecificEndian.StoreU64 | src/specific_endian.rs:432-454 | `0xfe` stored as a big-endian `u64` has bits `0xfe` on a big-endian host and `0xfe00000000000000` on a little-endian one, and the little-endian wrapper is the mirror image |
| MathOps.BigEndianBinary | src/math_ops.rs:18-20 | a big-endian `+`, `-`, `*` or `/` panics exactly when the native operator on the decoded values does; otherwise its result decodes to the native result and stores its big-endian encoding |
| MathOps.LittleEndianBinary | src/math_ops.rs:101 | the same for little-endian wrappers, whose result stores the little-endian encoding |
| MathOps.BigOutcome | src/math_ops.rs:18-20 | a big-endian `+`, `-` or `*` returns the encoding of the exact result when it fits; otherwise it panics with overflow checks on and decodes to the wrapped result without them |
| MathOps.LittleOutcome | src/math_ops.rs:18-20 | the same for little-endian wrappers |
| MathOps.AddDecodes | src/math_ops.rs:18-20 | `(a + b).to_native()` is the sum of the decoded operands when it fits, and it panics or wraps otherwise, for both wrappers |
| MathOps.SubDecodes | src/math_ops.rs:84-86 | the same for `a - b` and the difference |
| MathOps.MulDecodes | src/math_ops.rs:40-42 | the same for `a * b` and the product |
| MathOps.DivDecodes | src/math_ops.rs:62-64 | `a / b` encodes the truncating quotient of the decoded operands, and it panics exactly on a zero divisor or on MIN / -1, for both wrappers |
| MathOps.MixedEndianSum | src/specific_endian.rs:510-524 | big-endian 100 plus little-endian 200 `.into()` the other tag is 300, in both directions |
| MathOps.BigEndianPlace.AddAssign | src/math_ops.rs:28-30 | `a += b` leaves the place holding `a + b` and reports no panic, or keeps the old value and reports the panic |
| MathOps.BigEndianPlace.SubAssign | src/math_ops.rs:94-96 | the same for `a -= b` |
| MathOps.BigEndianPlace.MulAssign | src/math_ops.rs:50-52 | the same for `a *= b` |
| MathOps.BigEndianPlace.DivAssign | src/math_ops.rs:72-74 | the same for `a /= b` |
| MathOps.LittleEndianPlace.AddAssign | src/math_ops.rs:28-30 | `a += b` on a little-endian place |
| MathOps.LittleEndianPlace.SubAssign | src/math_ops.rs:94-96 | `a -= b` on a little-endian place |
| MathOps.LittleEndianPlace.MulAssign | src/math_ops.rs:50-52 | `a *= b` on a little-endian place |
| MathOps.LittleEndianPlace.DivAssign | src/math_ops.rs:72-74 | `a /= b` on a little-endian place |
| MathOps.CompoundAddExample | src/math_ops.rs:28-30 | adding one twice with `+=` to a big-endian 1234 leaves a value that decodes to 1236 |
| ComparisonOps.NativeCmp | src/comparison_ops.rs:34 | the native `cmp` is `Less` exactly when the first value is smaller and `Greater` exactly when it is larger |
| ComparisonOps.BigEndianCmp | src/comparison_ops.rs:33-35 | `cmp` is `Equal` exactly when the wrappers are equal, and `Less` or `Greater` exactly as the decoded values compare |
| ComparisonOps.LittleEndianCmp | src/comparison_ops.rs:43-45 | the same for little-endian wrappers |
| ComparisonOps.BigEndianPartialCmp | src/comparison_ops.rs:13-15 | `partial_cmp` is always `Some` of `cmp` |
| ComparisonOps.LittleEndianPartialCmp | src/comparison_ops.rs:23-25 | the same for little-endian wrappers |
| ComparisonOps.NativePartialCmp | src/comparison_ops.rs:14 | the registered types are totally ordered, so the native `partial_cmp` always returns `Some` |
| ComparisonOps.CmpOfFrom | src/comparison_ops.rs:33-45 | comparing wrappers built from two values is comparing the values, for both wrappers |
| ComparisonOps.CmpIsTotalOrder | src/comparison_ops.rs:28-36 | big-endian `cmp` is antisymmetric and transitive, and it is `Equal` only on equal wrappers |
| ComparisonOps.LittleCmpIsTotalOrder | src/comparison_ops.rs:38-46 | the same for little-endian `cmp` |
| ComparisonOps.OrderIgnoresStoredBits | src/comparison_ops.rs:53-78 | `from(12345) < from(34565)`, `>` the other way round, `==` to itself and `!=` to the other, although on a little-endian host the stored bits compare the opposite way |
| NegOps.BigEndianNeg | src/neg_ops.rs:14-16 | big-endian `-a`, for a signed integer or signed non-zero value type, panics exactly on MIN with overflow checks on; otherwise it decodes to `-a`, or to MIN for MIN |
| NegOps.LittleEndianNeg | src/neg_ops.rs:21 | the same for little-endian wrappers |
| NegOps.NegStoresEncoding | src/neg_ops.rs:14-16 | for any value but MIN, `-a` stores the declared-order encoding of the negated decoded value, keeping the operand's tag |
| NegOps.NegInvolutive | src/neg_ops.rs:14-16 | negating twice restores every wrapper whose value is not MIN |
| NegOps.NegateOne | src/neg_ops.rs:28-33 | `-BigEndian::from(1)` is `i32be::from(-1)`, and the little-endian counterpart holds too |
| NegOps.NegNonZero | src/neg_ops.rs:14-16 | negating a `NonZeroI8` wrapper turns 5 into -5, and MIN panics with overflow checks on and stays MIN without them |

## Left out

- Floating-point types: the `f32`/`f64` implementations, their conversions and every floating-point test. Reinterpreting a float's bits and IEEE arithmetic are outside the model.
- Formatting (`formatting_ops.rs`): it only hands the decoded value to Rust's formatting machinery, which is not part of this model.
- The type aliases of `shorthand_types.rs` (`u32be`, `i64le`, ...): the value type is the parameter `t`, for example `Signed(4)` for `i32be`.
- The per-primitive `From<BigEndian<T>> for T` and `From<LittleEndian<T>> for T` impls: each one is `to_native`, which is modelled once as `ToNative`.
- The `custom_type` test: its user-defined `SpecificEndian` impl is not a pair of mutually inverse conversions, so it promises nothing to verify.
- The `&=` tests: the bitwise operators live in a file that is not part of this model.
- User-defined implementations of `SpecificEndian`: the model covers the registered primitive, `bool` and non-zero types.
- `PhantomData`, `#[repr(transparent)]`, the `size_of` test and the Cargo feature gates: these are layout and build facts, not behaviour.
- The derived `Debug` and `Hash`. `Clone`/`Copy` are the value semantics of Dafny datatypes.
- The address width of `usize`/`isize`: it is the width parameter of `Unsigned(n)`/`Signed(n)`.
- Panics are a `Panics` outcome. Unwinding and what the caller does next are not modelled.
- `from_bits` with a pattern that is not a value of the type: Rust's types rule it out, so `ToNative` requires `Valid(t)`.
