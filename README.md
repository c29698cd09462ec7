# Bn3072: a 3072-bit modular-arithmetic backend for threshold secret sharing

`ursa_sharing/examples/bn3072.rs` plugs a concrete algebra into the sharing
library's generic split/combine engine. Its element type `Bn3072` wraps one
OpenSSL big number. The type serves as both:

- the library's **Field**: `one`, `from_usize` and `scalar_div_assign`;
- the library's **Group**: `zero`, `is_zero`, `is_valid`, `negate`, `add_assign`,
  `sub_assign`, `scalar_mul_assign`, `to_bytes` and `from_bytes`.

Every operation works modulo a fixed safe prime `MODULUS` of 3071 bits.

The model has three modules:

- `Octets` (`octets.dfy`) covers big-endian octet strings.
  - `OS2IP` (section 4.2 of RFC 8017) is what `BigNum::from_slice` computes.
  - `MinimalBytes` is what `BigNum::to_vec` returns: no leading zero octet, and 0 gives the empty string.
  - `I2OSP` (section 4.1 of RFC 8017) is the fixed-width encoding.
  - Lemmas prove that fixed-width encodings are unique and that zero padding keeps the value.
  - One lemma proves that the minimal encoding fits in k octets exactly when the value is below 256^k.
- `ModArith` (`modarith.dfy`) covers what `BigNum::mod_inverse` relies on.
  - It defines the gcd and the inverse relation.
  - `ModInverse` is an iterative extended Euclidean algorithm. It is proved to find an inverse exactly when gcd(a, n) = 1.
  - A failed inversion is proved to mean that no inverse exists.
  - Lemmas prove that multiplying by an inverse undoes multiplication and that inverses are unique.
- `Bn3072Backend` (`bn3072.dfy`) holds the constant `MODULUS`, copied digit for digit from the source, and the class `Bn3072`.
  - The class has one `nat` field `bn`.
  - The `_assign` methods and `negate` overwrite `bn` in place.
  - `to_bytes` is a method that builds a zero prefix and appends the minimal encoding to it.
  - `from_bytes` is a static method that returns `Ok(element)` or `Err(ShareInvalidSecret)`.
    It checks only the range, not `is_valid`: an all-zero input parses to the zero element.

`ModulusFits` proves that `1 < MODULUS < 256^384`; this is not assumed. So
`384 - v.len()` at line 108 never underflows for an element.

OpenSSL's `BN_mod_add`, `BN_mod_sub` and `BN_mod_mul` return the non-negative
remainder. Dafny's `%` is that same Euclidean remainder, so every arithmetic
method states its new value as `(...) % MODULUS` of its old values.

In the source, `rhs` cannot alias `self`. The model's methods read `rhs` before
they write `self`, so they also stay correct when `rhs` is the same object.

`unwrap()` on `mod_inverse` at line 39 panics before `self` is written;
`ScalarDivAssign` reports this as `ok == false` with `self` unchanged.

## Model

| member | source | states |
|---|---|---|
| `Octets.OS2IP` | ursa_sharing/examples/bn3072.rs:52 | the big-endian value of an octet string (what `from_slice` parses) is below 256^length |
| `Octets.I2OSP` | ursa_sharing/examples/bn3072.rs:106-111 | the fixed-width encoding has exactly the requested length and denotes the encoded integer |
| `Octets.MinimalBytes` | ursa_sharing/examples/bn3072.rs:107 | `to_vec` yields an encoding of the value with no leading zero octet, empty exactly for 0 |
| `Octets.OS2IPInjective` | ursa_sharing/examples/bn3072.rs:106-111 | two octet strings of equal length that denote the same integer are equal, so the 384-octet encoding is unique |
| `Octets.OS2IPZeroPad` | ursa_sharing/examples/bn3072.rs:108-109 | prefixing zero octets (the `vec![0u8; ..]` padding) does not change the denoted integer |
| `Octets.OS2IPZeros` | ursa_sharing/examples/bn3072.rs:108 | a run of zero octets denotes 0 |
| `Octets.MinimalBytesFit` | ursa_sharing/examples/bn3072.rs:108 | the minimal encoding fits in k octets exactly when the value is below 256^k, so `384 - v.len()` is defined exactly for values below 256^384 |
| `Octets.PaddedIsI2OSP` | ursa_sharing/examples/bn3072.rs:107-110 | left-padding the minimal encoding to the width gives the I2OSP encoding |
| `Octets.I2OSPZero` | ursa_sharing/examples/bn3072.rs:107-108 | zero encodes as all-zero octets at every width, so `to_bytes` of zero is 384 zero octets |
| `Octets.I2OSPOfOS2IP` | ursa_sharing/examples/bn3072.rs:52 | parsing an octet string and re-encoding at the same width gives the string back |
| `Octets.Zeros` | ursa_sharing/examples/bn3072.rs:108 | the `vec![0u8; n]` padding: exactly n octets, each of them 0 |
| `Octets.Pow256Add` | ursa_sharing/examples/bn3072.rs:108 | helper: 256^(a+b) = 256^a * 256^b, used to compute 256^384 for the width bound |
| `Octets.Pow256Monotone` | ursa_sharing/examples/bn3072.rs:108 | helper: wider octet strings can hold at least as many values, used for the width bound |
| `ModArith.GcdDivides` | ursa_sharing/examples/bn3072.rs:39 | the gcd is a positive common divisor of its arguments |
| `ModArith.InverseImpliesCoprime` | ursa_sharing/examples/bn3072.rs:39 | a value with an inverse modulo n is coprime to n, so `mod_inverse` can fail only on non-coprime values |
| `ModArith.PrimeCoprime` | ursa_sharing/examples/bn3072.rs:22-23 | if the modulus is prime, every value strictly between 0 and it is coprime to it, hence invertible |
| `ModArith.BezoutInverse` | ursa_sharing/examples/bn3072.rs:39 | Bezout coefficients t, s with t*a + s*n = 1 give the inverse t mod n |
| `ModArith.Bezout` | ursa_sharing/examples/bn3072.rs:39 | the gcd of a and b is an integer combination t*a + s*b |
| `ModArith.CoprimeInverse` | ursa_sharing/examples/bn3072.rs:39 | every value coprime to n has an inverse modulo n among the residues, so coprimality is exactly when `mod_inverse` succeeds |
| `ModArith.BezoutStep` | ursa_sharing/examples/bn3072.rs:39 | one Euclidean step keeps each remainder a combination of a and n |
| `ModArith.InverseThenMul` | ursa_sharing/examples/bn3072.rs:40 | multiplying by rhs after multiplying by an inverse of rhs gives back the original value mod n |
| `ModArith.MulThenInverse` | ursa_sharing/examples/bn3072.rs:40 | multiplying by an inverse of b after multiplying by b gives back the original value mod n |
| `ModArith.CancelInvertible` | ursa_sharing/examples/bn3072.rs:34-41 | residues whose products with an invertible b agree are equal |
| `ModArith.InverseUnique` | ursa_sharing/examples/bn3072.rs:39 | a value has at most one inverse among the residues |
| `ModArith.ModInverse` | ursa_sharing/examples/bn3072.rs:39 | returns a reduced inverse exactly when gcd(a, n) = 1; when it returns none, no inverse exists |
| `Bn3072Backend.ModulusFits` | ursa_sharing/examples/bn3072.rs:22-23 | the literal modulus is above 1 and below 256^384 |
| `Bn3072Backend.Bn3072.constructor` | ursa_sharing/examples/bn3072.rs:55 | wrapping a big number keeps its value unchanged |
| `Bn3072Backend.Bn3072.One` | ursa_sharing/examples/bn3072.rs:26-28 | the Field identity is 1 and is a valid element |
| `Bn3072Backend.Bn3072.FromUsize` | ursa_sharing/examples/bn3072.rs:30-32 | a `usize` becomes exactly that value, unreduced, and is valid exactly when nonzero |
| `Bn3072Backend.Bn3072.Zero` | ursa_sharing/examples/bn3072.rs:47-49 | the Group identity is 0, tests as zero and is never valid |
| `Bn3072Backend.Bn3072.IsZero` | ursa_sharing/examples/bn3072.rs:68-70 | an element is zero exactly when its minimal encoding (`to_vec`) is empty |
| `Bn3072Backend.Bn3072.IsValid` | ursa_sharing/examples/bn3072.rs:72-75 | valid means nonzero and below the modulus, so a valid element is already reduced |
| `Bn3072Backend.ValidElementFits` | ursa_sharing/examples/bn3072.rs:72-75 | every valid element's minimal encoding fits in 384 octets, so `to_bytes` is defined on it |
| `Bn3072Backend.Bn3072.Negate` | ursa_sharing/examples/bn3072.rs:77-83 | self becomes (0 - self) mod MODULUS, a residue that sums with the old value to 0 mod MODULUS |
| `Bn3072Backend.Bn3072.AddAssign` | ursa_sharing/examples/bn3072.rs:85-90 | self becomes (self + rhs) mod MODULUS; nothing else changes |
| `Bn3072Backend.Bn3072.SubAssign` | ursa_sharing/examples/bn3072.rs:92-97 | self becomes (self - rhs) mod MODULUS, never negative; nothing else changes |
| `Bn3072Backend.Bn3072.ScalarMulAssign` | ursa_sharing/examples/bn3072.rs:99-104 | self becomes (self * rhs) mod MODULUS; nothing else changes |
| `Bn3072Backend.Bn3072.ScalarDivAssign` | ursa_sharing/examples/bn3072.rs:34-41 | succeeds exactly when rhs is coprime to the modulus, and then self becomes the residue whose product with rhs is the old self; otherwise (the source's panic) self is untouched |
| `Bn3072Backend.Bn3072.ToBytes` | ursa_sharing/examples/bn3072.rs:106-111 | returns exactly 384 octets, the I2OSP big-endian encoding of the value |
| `Bn3072Backend.Bn3072.FromBytes` | ursa_sharing/examples/bn3072.rs:51-59 | succeeds exactly when the big-endian value is below the modulus and returns that value unreduced; otherwise returns `ShareInvalidSecret` |
| `Bn3072Backend.SerializeRoundTrip` | ursa_sharing/examples/bn3072.rs:106-111 | parsing what `to_bytes` produced succeeds and gives back the same value |
| `Bn3072Backend.ParseThenSerialize` | ursa_sharing/examples/bn3072.rs:51-59 | every 384-octet string that parses is the serialisation of the parsed value (`I2OSPOfOS2IP` at width 384) |
| `Bn3072Backend.AddThenSubRestores` | ursa_sharing/examples/bn3072.rs:85-97 | for a reduced a, subtracting b after adding b gives back a |
| `Bn3072Backend.NegateInvolutive` | ursa_sharing/examples/bn3072.rs:77-83 | negating twice gives back a reduced value; because the modulus is odd, negation fixes only 0 |
| `Bn3072Backend.DivAfterMulRestores` | ursa_sharing/examples/bn3072.rs:34-41 | for a reduced a and a b coprime to the modulus (the divisors `ScalarDivAssign` accepts), dividing by b after multiplying by b gives back a |

## Left out

- `random` (lines 61-66) draws from OpenSSL's own generator with `rand_range` and ignores the RNG it is given. That is nondeterministic foreign code, so it is not modelled.
- `main` (lines 114-123) is a demo harness. It calls test helpers of the sharing library, and those are not part of this model.
- The generic split, combine and Lagrange machinery and the `Field`/`Group` traits belong to the library, not to this file. They are not part of this model.
- OpenSSL plumbing is not modelled: context allocation, and the `unwrap()` calls on allocation and on parsing the decimal `MODULUS` string. The modulus is a constant here.
- `Bn3072Backend.Bn3072.ScalarDivAssign`: the source panics when `rhs` has no inverse. The model returns `ok == false` and leaves `self` unchanged instead. A panic is not a value.
- `Bn3072Backend.Bn3072.ToBytes`: the source's behaviour for a value of more than 384 octets is not modelled. That is a debug-build panic or a release-build wrap-around in `384 - v.len()`. It is a precondition here, and no element reaches it.
- The model does not prove that `MODULUS` is prime. Division is stated under coprimality, which is what `mod_inverse` needs. `ModArith.PrimeCoprime` takes primality as a hypothesis.
- `Bn3072Backend.Bn3072.FromUsize` assumes a 64-bit `usize`. The decimal round trip through `to_string`/`from_dec_str` is modelled as the identity.
- `typenum::U384` and `GenericArray` become the constant `ENCODED_LEN` and sequences of that length.
- The model does not check that `ModArith.ModInverse` follows OpenSSL's own inversion algorithm. Only the result is modelled.
