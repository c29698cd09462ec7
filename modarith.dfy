/** Arithmetic modulo n as OpenSSL's BN_mod_inverse provides it: the greatest
    common divisor, multiplicative inverses and the extended Euclidean algorithm
    that computes them. Dafny's `%` is the non-negative remainder, which is what
    BN_mod_add, BN_mod_sub and BN_mod_mul return. */
module ModArith {

  datatype Option<T> = None | Some(value: T)

  /** The greatest common divisor, by Euclid's recursion. */
  function Gcd(a: nat, b: nat): nat
    decreases b
  {
    if b == 0 then a else Gcd(b, a % b)
  }

  /** d is a positive divisor of x. */
  predicate Divides(d: nat, x: nat) {
    d > 0 && x % d == 0
  }

  /** p is prime. */
  predicate IsPrime(p: nat) {
    p > 1 && forall d: nat :: 1 < d < p ==> !Divides(d, p)
  }

  /** h is a multiplicative inverse of a modulo n. */
  predicate IsInverse(a: nat, h: nat, n: nat) {
    n > 1 && (a * h) % n == 1
  }

  /** Euclidean division has a unique quotient and remainder. */
  lemma DivModUnique(x: int, n: int, q: int, m: int)
    requires n > 0 && x == q * n + m && 0 <= m < n
    ensures x / n == q && x % n == m
  {
    var d := q - x / n;
    assert d * n == x % n - m;
    if d > 0 {
      assert false;
    } else if d < 0 {
      assert false;
    }
  }

  /** Adding a multiple of n does not change the remainder modulo n. */
  lemma ModAddMultiple(x: int, k: int, n: int)
    requires n > 0
    ensures (x + n * k) % n == x % n
  {
    assert x + n * k == (x / n + k) * n + x % n;
    DivModUnique(x + n * k, n, x / n + k, x % n);
  }

  /** Reducing a factor first does not change a product's remainder. */
  lemma ModMulLeft(u: int, b: int, n: int)
    requires n > 0
    ensures ((u % n) * b) % n == (u * b) % n
  {
    var q := u / n;
    assert u * b == (u % n) * b + n * (q * b);
    ModAddMultiple((u % n) * b, q * b, n);
  }

  /** A common divisor of x and y divides every q * x + y. */
  lemma DividesCombination(g: nat, x: nat, y: nat, q: nat)
    requires Divides(g, x) && Divides(g, y)
    ensures Divides(g, q * x + y)
  {
    var kx, ky := x / g, y / g;
    assert q * x + y == (q * kx + ky) * g;
    DivModUnique(q * x + y, g, q * kx + ky, 0);
  }

  /** The gcd of two numbers, not both zero, is a positive common divisor. */
  lemma {:induction false} GcdDivides(a: nat, b: nat)
    requires a > 0 || b > 0
    ensures Divides(Gcd(a, b), a) && Divides(Gcd(a, b), b)
    decreases b
  {
    if b != 0 {
      var g := Gcd(b, a % b);
      assert Gcd(a, b) == g;
      GcdDivides(b, a % b);
      assert a == (a / b) * b + a % b;
      DividesCombination(g, b, a % b, a / b);
    }
  }

  /** A positive multiple of d is at least d. */
  lemma DivisorBound(d: nat, x: nat)
    requires Divides(d, x) && x > 0
    ensures d <= x
  {
  }

  /** Only numbers coprime to n have an inverse modulo n. */
  lemma InverseImpliesCoprime(a: nat, h: nat, n: nat)
    requires IsInverse(a, h, n)
    ensures Gcd(a, n) == 1
  {
    var g := Gcd(a, n);
    GcdDivides(a, n);
    var k := (a * h) / n;
    assert a * h == k * n + 1;
    var ka, kn := a / g, n / g;
    assert a == g * ka && n == g * kn;
    var m := ka * h - kn * k;
    assert g * m == a * h - n * k;
  }

  /** Every number strictly between 0 and a prime p is coprime to p. */
  lemma PrimeCoprime(p: nat, r: nat)
    requires IsPrime(p) && 0 < r < p
    ensures Gcd(r, p) == 1
  {
    var g := Gcd(r, p);
    GcdDivides(r, p);
    DivisorBound(g, r);
    assert !(1 < g < p);
  }

  /** Bezout coefficients for 1 give the inverse, reduced into [0, n). */
  lemma BezoutInverse(a: nat, t: int, s: int, n: nat)
    requires n > 1 && t * a + s * n == 1
    ensures IsInverse(a, t % n, n)
  {
    var q, h := t / n, t % n;
    var k := -s - a * q;
    assert h == t - q * n;
    ScaleShift(a, t, q, n);
    assert a * h == 1 + n * k;
    DivModUnique(1 + n * k, n, k, 1);
  }

  lemma ScaleShift(a: int, t: int, q: int, n: int)
    ensures a * (t - q * n) == t * a - n * (a * q)
  {
  }

  /** Multiplying by b undoes multiplying by an inverse of b. */
  lemma InverseThenMul(x: nat, b: nat, h: nat, n: nat)
    requires IsInverse(b, h, n)
    ensures (((x * h) % n) * b) % n == x % n
  {
    var k := (b * h) / n;
    assert b * h == k * n + 1;
    ModMulLeft(x * h, b, n);
    assert (x * h) * b == x + n * (x * k);
    ModAddMultiple(x, x * k, n);
  }

  /** Multiplying by an inverse of b undoes multiplying by b. */
  lemma MulThenInverse(x: nat, b: nat, h: nat, n: nat)
    requires IsInverse(b, h, n)
    ensures (((x * b) % n) * h) % n == x % n
  {
    var k := (b * h) / n;
    assert b * h == k * n + 1;
    ModMulLeft(x * b, h, n);
    assert (x * b) * h == x + n * (x * k);
    ModAddMultiple(x, x * k, n);
  }

  /** An invertible factor can be cancelled: residues with equal products with b
      are equal. */
  lemma CancelInvertible(x: nat, y: nat, b: nat, h: nat, n: nat)
    requires IsInverse(b, h, n)
    requires x < n && y < n && (x * b) % n == (y * b) % n
    ensures x == y
  {
    MulThenInverse(x, b, h, n);
    MulThenInverse(y, b, h, n);
    DivModUnique(x, n, 0, x);
    DivModUnique(y, n, 0, y);
    assert x % n == y % n;
  }

  /** Inverses modulo n are unique among the residues. */
  lemma InverseUnique(a: nat, h1: nat, h2: nat, n: nat)
    requires IsInverse(a, h1, n) && IsInverse(a, h2, n)
    requires h1 < n && h2 < n
    ensures h1 == h2
  {
    var k1, k2 := (a * h1) / n, (a * h2) / n;
    assert a * h1 == k1 * n + 1;
    assert a * h2 == k2 * n + 1;
    var d := h2 * k1 - h1 * k2;
    assert h1 == d * n + h2 by {
      calc {
        d * n + h2;
        h2 * (k1 * n) - h1 * (k2 * n) + h2;
        h2 * (a * h1 - 1) - h1 * (a * h2 - 1) + h2;
        h1;
      }
    }
    DivModUnique(h1, n, d, h2);
    DivModUnique(h1, n, 0, h1);
  }

  /** Bezout's identity: the gcd of a and b is an integer combination of them. */
  lemma {:induction false} Bezout(a: nat, b: nat) returns (t: int, s: int)
    ensures t * a + s * b == Gcd(a, b)
    decreases b
  {
    if b == 0 {
      t, s := 1, 0;
    } else {
      var t', s' := Bezout(b, a % b);
      assert Gcd(a, b) == Gcd(b, a % b);
      t, s := s', t' - s' * (a / b);
      assert t' * b + s' * (a % b) == Gcd(a, b);
      assert t' * b + s' * (a % b) == s' * a + (t' - s' * (a / b)) * b by {
        assert a % b == a - (a / b) * b;
      }
    }
  }

  /** Every number coprime to n has an inverse modulo n, among the residues. */
  lemma CoprimeInverse(a: nat, n: nat) returns (h: nat)
    requires n > 1 && Gcd(a, n) == 1
    ensures h < n && IsInverse(a, h, n)
  {
    var t, s := Bezout(a, n);
    BezoutInverse(a, t, s, n);
    h := t % n;
  }

  /** One step of the extended Euclidean algorithm keeps each remainder a
      combination of a and n. */
  lemma BezoutStep(a: int, n: int, r0: nat, r1: nat, t0: int, t1: int, s0: int, s1: int)
    requires r1 > 0
    requires r0 == t0 * a + s0 * n && r1 == t1 * a + s1 * n
    ensures r0 % r1 == (t0 - (r0 / r1) * t1) * a + (s0 - (r0 / r1) * s1) * n
  {
  }

  /** The inverse of a modulo n (OpenSSL's BN_mod_inverse), by the iterative
      extended Euclidean algorithm: present exactly when gcd(a, n) = 1, and when
      absent no inverse exists at all. */
  method ModInverse(a: nat, n: nat) returns (r: Option<nat>)
    requires n > 1
    ensures r.Some? <==> Gcd(a, n) == 1
    ensures r.Some? ==> r.value < n && IsInverse(a, r.value, n)
    ensures r.None? ==> forall h :: !IsInverse(a, h, n)
  {
    var r0: nat, r1: nat := n, a % n;
    var t0: int, t1: int := 0, 1;
    ghost var s0: int, s1: int := 1, -(a / n);
    while r1 != 0
      invariant r0 > 0
      invariant Gcd(r0, r1) == Gcd(a, n)
      invariant r0 == t0 * a + s0 * n
      invariant r1 == t1 * a + s1 * n
      decreases r1
    {
      var q := r0 / r1;
      assert Gcd(r1, r0 % r1) == Gcd(r0, r1);
      BezoutStep(a, n, r0, r1, t0, t1, s0, s1);
      r0, r1 := r1, r0 % r1;
      t0, t1 := t1, t0 - q * t1;
      s0, s1 := s1, s0 - q * s1;
    }
    assert r0 == Gcd(a, n);
    if r0 == 1 {
      BezoutInverse(a, t0, s0, n);
      r := Some(t0 % n);
    } else {
      forall h | IsInverse(a, h, n)
        ensures false
      {
        InverseImpliesCoprime(a, h, n);
      }
      r := None;
    }
  }
}
