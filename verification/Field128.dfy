/** The field of 2^128 elements used by GCM (src/core/gcm.rs, gf128_mul). A
    128-bit word is its bits, most significant first: bit i is the coefficient
    of x^i, as in section 6.3 of NIST SP 800-38D. */
module Field128 {
  import opened Bytes

  type Word = s: Bits | |s| == 128 witness NoBits(128)

  function NoBits(n: nat): (s: Bits)
    ensures |s| == n && forall i | 0 <= i < n :: !s[i]
  {
    seq(n, _ => false)
  }

  const ZERO: Word := NoBits(128)

  // --------------------------------------------------- exclusive or, in groups

  lemma XorAssoc(a: Bits, b: Bits, c: Bits)
    requires |a| == |b| == |c|
    ensures XorBits(XorBits(a, b), c) == XorBits(a, XorBits(b, c))
  {
  }

  lemma XorComm(a: Bits, b: Bits)
    requires |a| == |b|
    ensures XorBits(a, b) == XorBits(b, a)
  {
  }

  /** (a + b) + (c + d) == (a + c) + (b + d) */
  lemma XorSwap(a: Bits, b: Bits, c: Bits, d: Bits)
    requires |a| == |b| == |c| == |d|
    ensures XorBits(XorBits(a, b), XorBits(c, d)) == XorBits(XorBits(a, c), XorBits(b, d))
  {
  }

  lemma XorZero(a: Word)
    ensures XorBits(a, ZERO) == a == XorBits(ZERO, a)
    ensures XorBits(a, a) == ZERO
  {
  }

  // ------------------------------------------------------ multiplication by x

  /** The low terms of the modulus: x^7 + x^2 + x + 1. */
  function Tail(): Word {
    seq(128, i => i == 0 || i == 1 || i == 2 || i == 7)
  }

  /** x times a word, reduced: a shift, and the tail when a term falls off. */
  function MulX(a: Word): Word {
    var shifted: Word := [false] + a[..127];
    if a[127] then XorBits(shifted, Tail()) else shifted
  }

  function MulXPow(a: Word, n: nat): Word {
    if n == 0 then a else MulX(MulXPow(a, n - 1))
  }

  lemma MulXLinear(a: Word, b: Word)
    ensures MulX(XorBits(a, b)) == XorBits(MulX(a), MulX(b))
  {
    var l, r := MulX(XorBits(a, b)), XorBits(MulX(a), MulX(b));
    forall i | 0 <= i < 128 ensures l[i] == r[i] {
    }
  }

  lemma {:induction false} MulXPowLinear(a: Word, b: Word, n: nat)
    ensures MulXPow(XorBits(a, b), n) == XorBits(MulXPow(a, n), MulXPow(b, n))
  {
    if n > 0 {
      MulXPowLinear(a, b, n - 1);
      MulXLinear(MulXPow(a, n - 1), MulXPow(b, n - 1));
    }
  }

  lemma {:induction false} MulXPowZero(n: nat)
    ensures MulXPow(ZERO, n) == ZERO
  {
    if n > 0 {
      MulXPowZero(n - 1);
      assert MulX(ZERO) == ZERO;
    }
  }

  lemma {:induction false} MulXPowCommutes(a: Word, n: nat)
    ensures MulXPow(MulX(a), n) == MulX(MulXPow(a, n))
  {
    if n > 0 { MulXPowCommutes(a, n - 1); }
  }

  // ------------------------------------------------------------ the product

  /** The sum of c[j] x^j a over j below n, for a polynomial c of any length. */
  function Combine(a: Word, c: Bits, n: nat): Word
    requires n <= |c|
  {
    if n == 0 then ZERO
    else if c[n - 1] then XorBits(Combine(a, c, n - 1), MulXPow(a, n - 1))
    else Combine(a, c, n - 1)
  }

  /** The product of two field elements. */
  function Mul(a: Word, b: Word): Word {
    Combine(a, b, |b|)
  }

  /** The loop over the bits of one factor computes the product. */
  method Gf128Mul(x: Word, y: Word) returns (z: Word)
    ensures z == Mul(x, y)
  {
    hide XorBits, MulXPow;
    var v := x;
    z := ZERO;
    MulXPowNone(x);
    for i := 0 to 128
      invariant v == MulXPow(x, i) && z == Combine(x, y, i)
    {
      if y[i] {
        z := XorBits(z, v);
      }
      var carry := v[127];
      v := [false] + v[..127];
      if carry {
        v := XorBits(v, Tail());
      }
      MulXPowNext(x, i);
    }
  }

  lemma MulXPowNone(a: Word)
    ensures MulXPow(a, 0) == a
  {
  }

  lemma MulXPowNext(a: Word, n: nat)
    ensures MulXPow(a, n + 1) == MulX(MulXPow(a, n))
  {
  }

  // ---------------------------------------------------------------- bilinear

  lemma {:induction false} CombineLinearLeft(a: Word, b: Word, c: Bits, n: nat)
    requires n <= |c|
    ensures Combine(XorBits(a, b), c, n) == XorBits(Combine(a, c, n), Combine(b, c, n))
  {
    hide XorBits, MulXPow;
    if n == 0 {
      XorZero(ZERO);
    } else {
      CombineLinearLeft(a, b, c, n - 1);
      MulXPowLinear(a, b, n - 1);
      XorSwap(Combine(a, c, n - 1), Combine(b, c, n - 1), MulXPow(a, n - 1), MulXPow(b, n - 1));
    }
  }

  lemma {:induction false} CombineLinearRight(a: Word, c: Bits, d: Bits, n: nat)
    requires n <= |c| == |d|
    ensures Combine(a, XorBits(c, d), n) == XorBits(Combine(a, c, n), Combine(a, d, n))
  {
    if n == 0 {
      XorZero(ZERO);
    } else {
      CombineLinearRight(a, c, d, n - 1);
      var p, q, t := Combine(a, c, n - 1), Combine(a, d, n - 1), MulXPow(a, n - 1);
      assert XorBits(c, d)[n - 1] == (c[n - 1] != d[n - 1]);
      hide XorBits, MulXPow, Combine;
      XorAssoc(p, t, q);
      XorComm(t, q);
      XorAssoc(p, q, t);
      XorSwap(p, t, q, t);
      XorZero(t);
      XorZero(XorBits(p, q));
      CombineStep(a, c, n);
      CombineStep(a, d, n);
      CombineStep(a, XorBits(c, d), n);
    }
  }

  lemma CombineStep(a: Word, c: Bits, n: nat)
    requires 0 < n <= |c|
    ensures Combine(a, c, n) == if c[n - 1] then XorBits(Combine(a, c, n - 1), MulXPow(a, n - 1))
            else Combine(a, c, n - 1)
  {
  }

  /** The product is linear in either factor. */
  lemma MulBilinear(a: Word, b: Word, c: Word)
    ensures Mul(XorBits(a, b), c) == XorBits(Mul(a, c), Mul(b, c))
    ensures Mul(a, XorBits(b, c)) == XorBits(Mul(a, b), Mul(a, c))
  {
    CombineLinearLeft(a, b, c, |c|);
    CombineLinearRight(a, b, c, |b|);
  }

  // -------------------------------------------------------------- commutative

  /** x^j for j below 128. */
  function Unit(j: nat): Word {
    seq(128, i => i == j)
  }

  lemma {:induction false} UnitPower(j: nat)
    requires j < 128
    ensures MulXPow(Unit(0), j) == Unit(j)
  {
    if j > 0 {
      UnitPower(j - 1);
      assert MulX(Unit(j - 1)) == Unit(j);
    }
  }

  /** The terms of a word below x^n. */
  function Below(c: Word, n: nat): Word {
    seq(128, i requires 0 <= i < 128 => i < n && c[i])
  }

  /** Summing the terms of a word gives it back, up to where one stops. */
  lemma {:induction false} CombineOne(c: Word, n: nat)
    requires n <= 128
    ensures Combine(Unit(0), c, n) == Below(c, n)
  {
    if n > 0 {
      CombineOne(c, n - 1);
      UnitPower(n - 1);
    }
  }

  /** Combining commutes with multiplication by x. */
  lemma {:induction false} CombineMulX(a: Word, c: Bits, n: nat)
    requires n <= |c|
    ensures Combine(MulX(a), c, n) == MulX(Combine(a, c, n))
  {
    if n == 0 {
      assert MulX(ZERO) == ZERO;
    } else {
      CombineMulX(a, c, n - 1);
      hide XorBits, MulX, MulXPow;
      MulXPowCommutes(a, n - 1);
      MulXLinear(Combine(a, c, n - 1), MulXPow(a, n - 1));
    }
  }

  lemma {:induction false} CombineMulXPow(a: Word, c: Bits, n: nat, k: nat)
    requires n <= |c|
    ensures Combine(MulXPow(a, k), c, n) == MulXPow(Combine(a, c, n), k)
  {
    hide MulX, XorBits, Combine;
    if k > 0 {
      CombineMulXPow(a, c, n, k - 1);
      CombineMulX(MulXPow(a, k - 1), c, n);
    }
  }

  lemma {:induction false} CombineZero(c: Bits, n: nat)
    requires n <= |c|
    ensures Combine(ZERO, c, n) == ZERO
  {
    hide XorBits, MulXPow;
    if n > 0 {
      CombineZero(c, n - 1);
      MulXPowZero(n - 1);
      XorZero(ZERO);
    }
  }

  /** The order of two combinations can be exchanged. */
  lemma {:induction false} CombineExchange(a: Word, c: Bits, n: nat, d: Bits, m: nat)
    requires n <= |c| && m <= |d|
    ensures Combine(Combine(a, c, n), d, m) == Combine(Combine(a, d, m), c, n)
    decreases n
  {
    hide XorBits, MulXPow, Combine;
    if n == 0 {
      CombineNone(a, c);
      CombineNone(Combine(a, d, m), c);
      CombineZero(d, m);
    } else {
      CombineExchange(a, c, n - 1, d, m);
      CombineStep(a, c, n);
      CombineStep(Combine(a, d, m), c, n);
      CombineLinearLeft(Combine(a, c, n - 1), MulXPow(a, n - 1), d, m);
      CombineMulXPow(a, d, m, n - 1);
    }
  }

  lemma CombineNone(a: Word, c: Bits)
    ensures Combine(a, c, 0) == ZERO
  {
  }

  /** One is neutral on the left. */
  lemma OneLeft(a: Word)
    ensures Mul(Unit(0), a) == a
  {
    CombineOne(a, 128);
    assert Below(a, 128) == a;
  }

  lemma MulCommutative(a: Word, b: Word)
    ensures Mul(a, b) == Mul(b, a)
  {
    hide Combine;
    CombineExchange(Unit(0), a, |a|, b, |b|);
    OneLeft(a);
    OneLeft(b);
  }

  lemma MulAssociative(a: Word, b: Word, c: Word)
    ensures Mul(Mul(a, b), c) == Mul(a, Mul(b, c))
  {
    hide Combine;
    CombineExchange(b, c, |c|, a, |a|);
    MulCommutative(a, b);
    MulCommutative(a, Mul(b, c));
  }

  // --------------------------------------- the product as a polynomial product

  /** x^k a as a polynomial of 256 coefficients. */
  function Shifted(a: Word, k: nat): (r: Bits)
    requires k <= 128
    ensures |r| == 256
  {
    seq(256, i requires 0 <= i => k <= i < k + 128 && a[i - k])
  }

  /** The product of two polynomials of degree below 128, without reduction. */
  function PolyProduct(a: Word, b: Word, n: nat): (r: Bits)
    requires n <= 128
    ensures |r| == 256
  {
    if n == 0 then NoBits(256)
    else if b[n - 1] then XorBits(PolyProduct(a, b, n - 1), Shifted(a, n - 1))
    else PolyProduct(a, b, n - 1)
  }

  /** The modulus x^128 + x^7 + x^2 + x + 1, times x^k. */
  function Modulus(k: nat): (r: Bits)
    ensures |r| == 256
  {
    seq(256, i => i == k || i == k + 1 || i == k + 2 || i == k + 7 || i == k + 128)
  }

  /** Long division by the modulus, clearing the coefficients from k - 1 down
      to 128. */
  function DivideFrom(c: Bits, k: nat): (r: Bits)
    requires |c| == 256 && 128 <= k <= 256
    ensures |r| == 256
    decreases k
  {
    if k == 128 then c
    else DivideFrom(if c[k - 1] then XorBits(c, Modulus(k - 129)) else c, k - 1)
  }

  lemma {:induction false} DivideClears(c: Bits, k: nat)
    requires |c| == 256 && 128 <= k <= 256
    requires forall i | k <= i < 256 :: !c[i]
    ensures forall i | 128 <= i < 256 :: !DivideFrom(c, k)[i]
    decreases k
  {
    if k > 128 {
      var d := if c[k - 1] then XorBits(c, Modulus(k - 129)) else c;
      assert forall i | k - 1 <= i < 256 :: !d[i];
      DivideClears(d, k - 1);
    }
  }

  /** The field element a polynomial stands for. */
  function Eval(c: Bits): Word {
    Combine(Unit(0), c, |c|)
  }

  /** Coefficients that are all zero past n do not matter. */
  lemma {:induction false} CombineZeros(a: Word, c: Bits, n: nat, m: nat)
    requires n <= m <= |c| && forall i | n <= i < m :: !c[i]
    ensures Combine(a, c, m) == Combine(a, c, n)
    decreases m
  {
    if n < m { CombineZeros(a, c, n, m - 1); }
  }

  /** Only the coefficients looked at matter. */
  lemma {:induction false} CombineSame(a: Word, c: Bits, d: Bits, n: nat)
    requires n <= |c| && n <= |d| && forall i | 0 <= i < n :: c[i] == d[i]
    ensures Combine(a, c, n) == Combine(a, d, n)
  {
    if n > 0 { CombineSame(a, c, d, n - 1); }
  }

  /** x^k a, unreduced, stands for x^k times the element a. */
  lemma {:induction false} EvalShifted(a: Word, k: nat, n: nat)
    requires k <= 128 && n <= 128
    ensures Combine(Unit(0), Shifted(a, k), k + n) == MulXPow(Combine(Unit(0), a, n), k)
  {
    hide XorBits, MulX;
    if n == 0 {
      CombineZeros(Unit(0), Shifted(a, k), 0, k);
      MulXPowZero(k);
    } else {
      EvalShifted(a, k, n - 1);
      MulXPowAdds(Unit(0), n - 1, k);
      MulXPowLinear(Combine(Unit(0), a, n - 1), MulXPow(Unit(0), n - 1), k);
      assert Shifted(a, k)[k + n - 1] == a[n - 1];
    }
  }

  lemma {:induction false} MulXPowAdds(a: Word, m: nat, k: nat)
    ensures MulXPow(MulXPow(a, m), k) == MulXPow(a, k + m)
  {
    hide MulX;
    if k > 0 { MulXPowAdds(a, m, k - 1); }
  }

  lemma {:induction false} EvalProduct(a: Word, b: Word, n: nat)
    requires n <= 128
    ensures Eval(PolyProduct(a, b, n)) == Combine(a, b, n)
  {
    hide XorBits, MulXPow, Combine;
    if n == 0 {
      assert Combine(a, b, 0) == ZERO by { CombineNone(a, b); }
      var none: Bits := NoBits(256);
      CombineZeros(Unit(0), none, 0, 256);
      CombineNone(Unit(0), none);
    } else {
      EvalProduct(a, b, n - 1);
      CombineStep(a, b, n);
      if b[n - 1] {
        var p, s := PolyProduct(a, b, n - 1), Shifted(a, n - 1);
        CombineLinearRight(Unit(0), p, s, 256);
        EvalShifted(a, n - 1, 128);
        CombineZeros(Unit(0), s, n - 1 + 128, 256);
        OneLeft(a);
      }
    }
  }

  /** The modulus stands for zero, whatever power of x it is multiplied by. */
  lemma EvalModulus(k: nat)
    requires k <= 127
    ensures Eval(Modulus(k)) == ZERO
  {
    var low, top := Shifted(Tail(), k), Unit256(k + 128);
    assert Modulus(k) == XorBits(low, top);
    CombineLinearRight(Unit(0), low, top, 256);
    EvalShifted(Tail(), k, 128);
    CombineZeros(Unit(0), low, k + 128, 256);
    OneLeft(Tail());
    EvalUnit(k + 128);
    PowerOfX(k);
    XorZero(MulXPow(Tail(), k));
  }

  function Unit256(j: nat): (r: Bits)
    ensures |r| == 256
  {
    seq(256, i => i == j)
  }

  lemma EvalUnit(j: nat)
    requires j < 256
    ensures Eval(Unit256(j)) == MulXPow(Unit(0), j)
  {
    hide MulXPow;
    CombineZeros(Unit(0), Unit256(j), 0, j);
    CombineZeros(Unit(0), Unit256(j), j + 1, 256);
    XorZero(MulXPow(Unit(0), j));
  }

  /** x^128 reduces to the tail. */
  lemma PowerOfX(k: nat)
    ensures MulXPow(Unit(0), k + 128) == MulXPow(Tail(), k)
  {
    UnitPower(127);
    MulXPowNext(Unit(0), 127);
    assert MulX(Unit(127)) == Tail();
    MulXPowAdds(Unit(0), 128, k);
  }

  lemma {:induction false} EvalDivide(c: Bits, k: nat)
    requires |c| == 256 && 128 <= k <= 256
    ensures Eval(DivideFrom(c, k)) == Eval(c)
    decreases k
  {
    hide XorBits, MulXPow, Combine, Modulus;
    if k > 128 {
      var d := if c[k - 1] then XorBits(c, Modulus(k - 129)) else c;
      EvalDivide(d, k - 1);
      if c[k - 1] {
        CombineLinearRight(Unit(0), c, Modulus(k - 129), 256);
        EvalModulus(k - 129);
        XorZero(Eval(c));
      }
    }
  }

  /** The product is the remainder, on division by the modulus, of the product
      of the two polynomials. */
  lemma MulIsPolynomialProduct(a: Word, b: Word)
    ensures var r := DivideFrom(PolyProduct(a, b, 128), 256);
            && (forall i | 128 <= i < 256 :: !r[i])
            && Mul(a, b) == r[..128]
  {
    hide XorBits, MulXPow, Modulus;
    var c := PolyProduct(a, b, 128);
    var r := DivideFrom(c, 256);
    DivideClears(c, 256);
    EvalDivide(c, 256);
    EvalProduct(a, b, 128);
    CombineZeros(Unit(0), r, 128, 256);
    CombineSame(Unit(0), r, r[..128], 128);
    OneLeft(r[..128]);
  }
}
