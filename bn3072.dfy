/** The 3072-bit backend of the sharing library: residues modulo a fixed safe
    prime, used both as the scalar Field (identity, integer conversion, division)
    and as the Group of shared values (zero, validity, negation, addition,
    subtraction, scalar multiplication and a 384-octet big-endian codec). */
module Bn3072Backend {
  import opened Octets
  import opened ModArith

  /** The safe prime every operation reduces modulo (3071 bits). */
  const MODULUS: nat := 2810648864918553692326414703540982236400161676089967413931080487336351664151951596142800952137837786949602780093696245504389122898007840882257958695803988348815090801641319246142910064654295656659531928562021941244973691275871456332653319544240941768988728044605685210468374028296470195771445893463172468596886296397514478881750748854380716952364198170004560459348379205872353140560333434262518706391341981993534904655587887145767376775247180777074746668503322468682710283049559264203107937893133977707072588631910572571691340287270684887753691017850014026114991899690570003338568598941699411176562161168853436661856010103788770425973503571121826245383549444250163796809725074965822253566072469306063871256250293519396973490875540895189911205333942452223362768239991669324715576323296472026485762324469371989244243246598338329148439857434726497797195444870550503807350157997765978494536147484675781002402359451435754948869927

  /** Width in octets of a serialised element (`typenum::U384`). */
  const ENCODED_LEN: nat := 384

  /** One more than the largest `usize` of a 64-bit target. */
  const USIZE_LIMIT: nat := 0x1_0000_0000_0000_0000

  type Usize = v: nat | v < USIZE_LIMIT

  /** The library's error kind that this backend reports. */
  datatype SharingError = ShareInvalidSecret

  datatype SharingResult<T> = Ok(value: T) | Err(error: SharingError)

  /** The modulus is at least 2 and every residue fits in ENCODED_LEN octets. */
  lemma ModulusFits()
    ensures 1 < MODULUS < Pow256(ENCODED_LEN)
  {
    assert Pow256(1) == 256;
    Pow256Add(1, 1);
    assert Pow256(2) == 0x10000;
    Pow256Add(2, 2);
    assert Pow256(4) == 0x100000000;
    Pow256Add(4, 4);
    assert Pow256(8) == 0x10000000000000000;
    Pow256Add(8, 8);
    assert Pow256(16) == 0x100000000000000000000000000000000;
    Pow256Add(16, 16);
    assert Pow256(32) == 0x10000000000000000000000000000000000000000000000000000000000000000;
    Pow256Add(32, 32);
    assert Pow256(64) == 0x100000000000000000000000000000000000000000000000000000000000000000000000000000000000000000000000000000000000000000000000000000000;
    Pow256Add(64, 64);
    assert Pow256(128) == 0x10000000000000000000000000000000000000000000000000000000000000000000000000000000000000000000000000000000000000000000000000000000000000000000000000000000000000000000000000000000000000000000000000000000000000000000000000000000000000000000000000000000000000000;
    Pow256Add(128, 128);
    assert Pow256(256) == 0x100000000000000000000000000000000000000000000000000000000000000000000000000000000000000000000000000000000000000000000000000000000000000000000000000000000000000000000000000000000000000000000000000000000000000000000000000000000000000000000000000000000000000000000000000000000000000000000000000000000000000000000000000000000000000000000000000000000000000000000000000000000000000000000000000000000000000000000000000000000000000000000000000000000000000000000000000000000000000000000000000000000000000000000000000000000;
    Pow256Add(256, 128);
    assert Pow256(384) == 0x1000000000000000000000000000000000000000000000000000000000000000000000000000000000000000000000000000000000000000000000000000000000000000000000000000000000000000000000000000000000000000000000000000000000000000000000000000000000000000000000000000000000000000000000000000000000000000000000000000000000000000000000000000000000000000000000000000000000000000000000000000000000000000000000000000000000000000000000000000000000000000000000000000000000000000000000000000000000000000000000000000000000000000000000000000000000000000000000000000000000000000000000000000000000000000000000000000000000000000000000000000000000000000000000000000000000000000000000000000000000000000000000000000000000000000000000000000000000000000000000000000000000000000000000000000000000000000000000000;
  }

  /** An element: a non-negative big number, reduced modulo MODULUS by every
      arithmetic operation. */
  class Bn3072 {
    var bn: nat

    /** Wraps a big number as an element, unreduced (`Self(bn)`). */
    constructor (x: nat)
      ensures bn == x
    {
      bn := x;
    }

    /** The Field's multiplicative identity. */
    constructor One()
      ensures bn == 1 && IsValid()
    {
      bn := 1;
    }

    /** The Field element denoted by a `usize`, taken as is: every `usize` is below
        the modulus, so it is nonzero exactly when it is a valid element. */
    constructor FromUsize(v: Usize)
      ensures bn == v
      ensures IsValid() <==> v != 0
    {
      bn := v;
    }

    /** The Group's additive identity, which is never a valid element. */
    constructor Zero()
      ensures bn == 0 && IsZero() && !IsValid()
    {
      bn := 0;
    }

    /** The zero element, the one whose minimal encoding is empty. */
    predicate IsZero()
      reads this
      ensures IsZero() <==> MinimalBytes(bn) == []
    {
      bn == 0
    }

    /** Valid elements are the nonzero residues, each already reduced. */
    predicate IsValid()
      reads this
      ensures IsValid() ==> bn % MODULUS == bn
    {
      !IsZero() && bn < MODULUS
    }

    /** self := -self mod MODULUS. */
    method Negate()
      modifies this
      ensures bn == (0 - old(bn)) % MODULUS
      ensures bn < MODULUS && (old(bn) + bn) % MODULUS == 0
    {
      var r := bn;
      bn := (0 - r) % MODULUS;
    }

    /** self := (self + rhs) mod MODULUS; rhs may be this same element. */
    method AddAssign(rhs: Bn3072)
      modifies this
      ensures bn == (old(bn) + old(rhs.bn)) % MODULUS
      ensures bn < MODULUS
    {
      var r := bn;
      bn := (r + rhs.bn) % MODULUS;
    }

    /** self := (self - rhs) mod MODULUS, never negative. */
    method SubAssign(rhs: Bn3072)
      modifies this
      ensures bn == (old(bn) - old(rhs.bn)) % MODULUS
      ensures bn < MODULUS
    {
      var r := bn;
      bn := (r - rhs.bn) % MODULUS;
    }

    /** self := (self * rhs) mod MODULUS. */
    method ScalarMulAssign(rhs: Bn3072)
      modifies this
      ensures bn == (old(bn) * old(rhs.bn)) % MODULUS
      ensures bn < MODULUS
    {
      var r := bn;
      bn := (r * rhs.bn) % MODULUS;
    }

    /** self := self / rhs mod MODULUS, as multiplication by the inverse of rhs.
        When rhs has no inverse modulo MODULUS the source panics before writing
        self; here that is `ok == false` with self untouched. On success the new
        value is the unique residue whose product with rhs is the old value. */
    method ScalarDivAssign(rhs: Bn3072) returns (ok: bool)
      modifies this
      ensures ok <==> Gcd(old(rhs.bn), MODULUS) == 1
      ensures ok ==> bn < MODULUS && (bn * old(rhs.bn)) % MODULUS == old(bn) % MODULUS
      ensures !ok ==> bn == old(bn)
    {
      var r := bn;
      var h := ModInverse(rhs.bn, MODULUS);
      if h.None? {
        return false;
      }
      InverseThenMul(r, rhs.bn, h.value, MODULUS);
      bn := (r * h.value) % MODULUS;
      ok := true;
    }

    /** The ENCODED_LEN-octet big-endian encoding (I2OSP): the minimal encoding
        left-padded with zero octets. The source requires the minimal encoding to
        fit, which every element below 256^384 does. */
    method ToBytes() returns (out: seq<Byte>)
      requires bn < Pow256(ENCODED_LEN)
      ensures |out| == ENCODED_LEN && OS2IP(out) == bn
      ensures out == I2OSP(bn, ENCODED_LEN)
    {
      var v := MinimalBytes(bn);
      PaddedIsI2OSP(bn, ENCODED_LEN);
      var o := Zeros(ENCODED_LEN - |v|);
      o := o + v;
      out := o;
    }

    /** Parses a big-endian octet string of any length; the value is accepted
        only when it is below MODULUS, and never reduced. */
    static method FromBytes(bytes: seq<Byte>) returns (r: SharingResult<Bn3072>)
      ensures r.Ok? <==> OS2IP(bytes) < MODULUS
      ensures r.Ok? ==> fresh(r.value) && r.value.bn == OS2IP(bytes)
      ensures r.Err? ==> r.error == ShareInvalidSecret
    {
      var x := OS2IP(bytes);
      if x < MODULUS {
        var e := new Bn3072(x);
        r := Ok(e);
      } else {
        r := Err(ShareInvalidSecret);
      }
    }
  }

  /** Serialising a reduced element and parsing the octets back succeeds and
      gives the same value. */
  method SerializeRoundTrip(x: Bn3072) returns (r: SharingResult<Bn3072>)
    requires x.bn < MODULUS
    ensures r.Ok? && r.value.bn == x.bn
  {
    ModulusFits();
    var bytes := x.ToBytes();
    r := Bn3072.FromBytes(bytes);
  }

  /** Every valid element can be serialised: its minimal encoding fits in
      ENCODED_LEN octets, so `384 - v.len()` does not underflow. */
  lemma ValidElementFits(e: Bn3072)
    requires e.IsValid()
    ensures |MinimalBytes(e.bn)| <= ENCODED_LEN
  {
    ModulusFits();
    MinimalBytesFit(e.bn, ENCODED_LEN);
  }

  /** Every ENCODED_LEN-octet string that parses is the serialisation of what
      it parses to; the instance of `I2OSPOfOS2IP` at width ENCODED_LEN. */
  lemma ParseThenSerialize(bytes: seq<Byte>)
    requires |bytes| == ENCODED_LEN && OS2IP(bytes) < MODULUS
    ensures I2OSP(OS2IP(bytes), ENCODED_LEN) == bytes
  {
    I2OSPOfOS2IP(bytes);
  }

  /** Subtracting b after adding it restores a reduced a. */
  lemma AddThenSubRestores(a: nat, b: nat)
    requires a < MODULUS
    ensures ((a + b) % MODULUS - b) % MODULUS == a
  {
  }

  /** Negation is an involution on residues and, the modulus being odd, fixes
      only zero. */
  lemma NegateInvolutive(x: nat)
    requires x < MODULUS
    ensures (0 - (0 - x) % MODULUS) % MODULUS == x
    ensures (0 - x) % MODULUS == x <==> x == 0
  {
    if x == 0 {
      DivModUnique(0, MODULUS, 0, 0);
    } else {
      DivModUnique(0 - x, MODULUS, -1, MODULUS - x);
      DivModUnique(0 - (MODULUS - x), MODULUS, -1, x);
      assert MODULUS % 2 == 1;
    }
  }

  /** Dividing by a b coprime to the modulus (exactly the divisors for which
      `ScalarDivAssign` succeeds) after multiplying by it restores a reduced a:
      the only residue y with y * b = a * b is a itself. */
  lemma DivAfterMulRestores(a: nat, b: nat, y: nat)
    requires Gcd(b, MODULUS) == 1
    requires a < MODULUS && y < MODULUS
    requires (y * b) % MODULUS == (a * b) % MODULUS
    ensures y == a
  {
    ModulusFits();
    var h := CoprimeInverse(b, MODULUS);
    CancelInvertible(y, a, b, h, MODULUS);
  }
}
