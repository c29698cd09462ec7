/** Big-endian octet strings and the integers they denote: OS2IP and I2OSP
    (sections 4.2 and 4.1 of RFC 8017), and the minimal big-endian encoding that
    OpenSSL's BN_bn2bin produces (`BigNum::to_vec`). */
module Octets {

  /** One octet (a `u8`). */
  type Byte = b: nat | b < 256

  /** 256^k: the number of distinct k-octet strings. */
  function Pow256(k: nat): (r: nat)
    ensures r > 0
  {
    if k == 0 then 1 else 256 * Pow256(k - 1)
  }

  /** The big-endian value of an octet string (OS2IP); the empty string denotes 0.
      This is what `BigNum::from_slice` computes. */
  function OS2IP(s: seq<Byte>): (x: nat)
    ensures x < Pow256(|s|)
  {
    if s == [] then 0 else OS2IP(s[..|s| - 1]) * 256 + s[|s| - 1]
  }

  /** The len-octet big-endian encoding of x (I2OSP); defined for x < 256^len,
      the other inputs being "integer too large". */
  function I2OSP(x: nat, len: nat): (r: seq<Byte>)
    requires x < Pow256(len)
    ensures |r| == len && OS2IP(r) == x
  {
    if len == 0 then [] else I2OSP(x / 256, len - 1) + [x % 256]
  }

  /** The big-endian encoding of x with no leading zero octet; 0 encodes as the
      empty string. This is what `BigNum::to_vec` returns. */
  function MinimalBytes(x: nat): (r: seq<Byte>)
    ensures OS2IP(r) == x
    ensures r == [] <==> x == 0
    ensures r != [] ==> r[0] != 0
    decreases x
  {
    if x == 0 then [] else MinimalBytes(x / 256) + [x % 256]
  }

  /** A string of n zero octets. */
  function Zeros(n: nat): (z: seq<Byte>)
    ensures |z| == n && forall i :: 0 <= i < n ==> z[i] == 0
  {
    seq(n, _ => 0)
  }

  lemma {:induction false} Pow256Add(a: nat, b: nat)
    ensures Pow256(a + b) == Pow256(a) * Pow256(b)
    decreases b
  {
    if b > 0 {
      Pow256Add(a, b - 1);
      calc {
        Pow256(a + b);
        256 * Pow256(a + b - 1);
        256 * (Pow256(a) * Pow256(b - 1));
        Pow256(a) * (256 * Pow256(b - 1));
      }
    }
  }

  lemma {:induction false} Pow256Monotone(j: nat, k: nat)
    requires j <= k
    ensures Pow256(j) <= Pow256(k)
    decreases k
  {
    if j < k {
      Pow256Monotone(j, k - 1);
    }
  }

  /** Two octet strings of the same length that denote the same integer are equal:
      the fixed-width encoding is unique. */
  lemma {:induction false} OS2IPInjective(s: seq<Byte>, t: seq<Byte>)
    requires |s| == |t| && OS2IP(s) == OS2IP(t)
    ensures s == t
  {
    if s != [] {
      var n := |s| - 1;
      var ps, pt := OS2IP(s[..n]), OS2IP(t[..n]);
      assert ps * 256 + s[n] == pt * 256 + t[n];
      OS2IPInjective(s[..n], t[..n]);
      assert s == s[..n] + [s[n]] && t == t[..n] + [t[n]];
    }
  }

  /** Leading zero octets do not change the denoted integer. */
  lemma {:induction false} OS2IPZeroPad(n: nat, s: seq<Byte>)
    ensures OS2IP(Zeros(n) + s) == OS2IP(s)
    decreases |s|
  {
    if s == [] {
      assert Zeros(n) + s == Zeros(n);
      OS2IPZeros(n);
    } else {
      var m := |s| - 1;
      assert (Zeros(n) + s)[..n + m] == Zeros(n) + s[..m];
      OS2IPZeroPad(n, s[..m]);
    }
  }

  lemma {:induction false} OS2IPZeros(n: nat)
    ensures OS2IP(Zeros(n)) == 0
  {
    if n > 0 {
      assert Zeros(n)[..n - 1] == Zeros(n - 1);
      OS2IPZeros(n - 1);
    }
  }

  /** The minimal encoding of x fits in k octets exactly when x < 256^k; so
      `384 - v.len()` cannot underflow for any x below 256^384. */
  lemma {:induction false} MinimalBytesFit(x: nat, k: nat)
    ensures |MinimalBytes(x)| <= k <==> x < Pow256(k)
    decreases k
  {
    if |MinimalBytes(x)| <= k {
      Pow256Monotone(|MinimalBytes(x)|, k);
    }
    if x < Pow256(k) && x != 0 {
      assert k > 0;
      MinimalBytesFit(x / 256, k - 1);
    }
  }

  /** Left-padding the minimal encoding to len octets is the I2OSP encoding. */
  lemma {:induction false} PaddedIsI2OSP(x: nat, len: nat)
    requires x < Pow256(len)
    ensures |MinimalBytes(x)| <= len
    ensures Zeros(len - |MinimalBytes(x)|) + MinimalBytes(x) == I2OSP(x, len)
  {
    MinimalBytesFit(x, len);
    var v := MinimalBytes(x);
    OS2IPZeroPad(len - |v|, v);
    OS2IPInjective(Zeros(len - |v|) + v, I2OSP(x, len));
  }

  /** Decoding a string and re-encoding it at the same width gives the string back. */
  lemma I2OSPOfOS2IP(s: seq<Byte>)
    ensures I2OSP(OS2IP(s), |s|) == s
  {
    OS2IPInjective(I2OSP(OS2IP(s), |s|), s);
  }

  /** Zero encodes as a string of zero octets at every width. */
  lemma {:induction false} I2OSPZero(len: nat)
    ensures I2OSP(0, len) == Zeros(len)
  {
    OS2IPZeros(len);
    OS2IPInjective(I2OSP(0, len), Zeros(len));
  }
}
