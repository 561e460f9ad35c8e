// src/field.rs, Gf256x2::invert: a^65534 is the inverse of every non-zero a.
//
// Squaring is additive, so a^256 is the conjugate of a, and a^257 = a * a^256
// is its norm, an element of GF(256). Hence a^65535 is the 255th power of an
// element of GF(256).
module ExtensionInverse {
  import opened BaseFields
  import opened ExtensionField
  import opened Words
  import B = BinaryFields

  ghost function Power(a: Ext, n: nat): Ext {
    if n == 0 then ONE else Mul(Power(a, n - 1), a)
  }

  lemma {:induction false} PowerSum(a: Ext, i: nat, j: nat)
    ensures Power(a, i + j) == Mul(Power(a, i), Power(a, j))
  {
    hide Mul;
    if j == 0 {
      MulIdentity(Power(a, i));
    } else {
      PowerSum(a, i, j - 1);
      MulAssociates(Power(a, i), Power(a, j - 1), a);
    }
  }

  lemma {:induction false} PowerProduct(a: Ext, i: nat, j: nat)
    ensures Power(Power(a, i), j) == Power(a, i * j)
  {
    hide Mul;
    if j == 0 {
    } else {
      PowerProduct(a, i, j - 1);
      assert i * j == i * (j - 1) + i;
      PowerSum(a, i * (j - 1), i);
    }
  }

  lemma PowerOne(a: Ext)
    ensures Power(a, 1) == a
  {
    hide Mul;
    MulIdentity(a);
    assert Power(a, 1) == Mul(Power(a, 0), a);
  }

  // -------------------------------------------------------------------------
  // The conjugate
  // -------------------------------------------------------------------------

  // (c0 + c1 X)^2 = (c0^2 + 32 c1^2) + c1^2 X
  lemma SquareOf(a: Ext)
    ensures Mul(a, a) == Ext(B.Add(Squared(a.c0), Mul256(32, Squared(a.c1))), Squared(a.c1))
  {
    SquaredIsProduct(a.c0);
    SquaredIsProduct(a.c1);
    B.Commutative(B.Mod256, a.c0, a.c1);
    var p := Mul256(a.c0, a.c1);
    assert forall s :: B.Add(B.Add(p, p), s) == s;
    hide B.Product, Squared, B.Add;
  }

  // Squared iterated k times.
  ghost function Frobenius(a: Gf256, k: nat): Gf256 {
    if k == 0 then a else Squared(Frobenius(a, k - 1))
  }

  // The coefficient of Frobenius(c1, k) that k squarings move to the constant.
  ghost function Carry(k: nat): Gf256 {
    if k == 0 then 0 else B.Add(Squared(Carry(k - 1)), 32)
  }

  lemma SquaredAdditive(a: Gf256, b: Gf256)
    ensures Squared(B.Add(a, b)) == B.Add(Squared(a), Squared(b))
  {
    hide Squared, B.Product, B.Add;
    SquaredIsProduct(a);
    SquaredIsProduct(b);
    SquaredIsProduct(B.Add(a, b));
    B.ProductAdditiveLeft(B.Mod256, a, b, B.Add(a, b));
    B.Distributive(B.Mod256, a, a, b);
    B.Distributive(B.Mod256, b, a, b);
    B.Commutative(B.Mod256, a, b);
    CancelMiddle(Mul256(a, a), Mul256(a, b), Mul256(b, b));
  }

  lemma CancelMiddle(p: Gf256, q: Gf256, r: Gf256)
    ensures B.Add(B.Add(p, q), B.Add(q, r)) == B.Add(p, r)
  {
    assert (p ^ q) ^ (q ^ r) == p ^ r;
  }

  lemma SquaredMultiplicative(a: Gf256, b: Gf256)
    ensures Squared(Mul256(a, b)) == Mul256(Squared(a), Squared(b))
  {
    hide Squared, B.Product;
    SquaredIsProduct(a);
    SquaredIsProduct(b);
    SquaredIsProduct(Mul256(a, b));
    B.Associative(B.Mod256, a, b, Mul256(a, b));
    B.ProductSwap(B.Mod256, a, b, b);
    B.Commutative(B.Mod256, b, Mul256(a, b));
    B.Associative(B.Mod256, a, b, b);
    B.Associative(B.Mod256, a, a, Mul256(b, b));
  }

  lemma {:induction false} IteratedSquare(a: Ext, k: nat)
    ensures Power(a, Pow2(k)) ==
      Ext(B.Add(Frobenius(a.c0, k), Mul256(Carry(k), Frobenius(a.c1, k))), Frobenius(a.c1, k))
  {
    hide B.Add, Squared, B.Product, Power, Mul;
    if k == 0 {
      PowerOne(a);
      B.ProductZero(B.Mod256, a.c1);
      AddZero(a.c0);
    } else {
      IteratedSquare(a, k - 1);
      var f0, f1, t := Frobenius(a.c0, k - 1), Frobenius(a.c1, k - 1), Carry(k - 1);
      PowerSum(a, Pow2(k - 1), Pow2(k - 1));
      SquareOf(Power(a, Pow2(k - 1)));
      SquaredAdditive(f0, Mul256(t, f1));
      SquaredMultiplicative(t, f1);
      B.AddAssociative(Squared(f0), Mul256(Squared(t), Squared(f1)), Mul256(32, Squared(f1)));
      B.ProductAdditiveLeft(B.Mod256, Squared(t), 32, Squared(f1));
    }
  }

  lemma FrobeniusCycle(a: Gf256)
    ensures Frobenius(a, 8) == a
  {
    FourSquares(a, 0);
    FourSquares(a, 4);
    ConjugateTwice(a);
    hide Squared, Conjugate16;
  }

  lemma FourSquares(a: Gf256, k: nat)
    ensures Frobenius(a, k + 4) == Conjugate16(Frobenius(a, k))
  {
    hide Squared;
    assert Frobenius(a, k + 1) == Squared(Frobenius(a, k));
    assert Frobenius(a, k + 2) == Squared(Frobenius(a, k + 1));
    assert Frobenius(a, k + 3) == Squared(Frobenius(a, k + 2));
  }

  lemma CarryCycle()
    ensures Carry(8) == 1
  {
    assert Carry(1) == 0x20;
    assert Carry(2) == 0x4c;
  }

  ghost function Conjugate(a: Ext): Ext {
    Ext(B.Add(a.c0, a.c1), a.c1)
  }

  // The field automorphism a -> a^256 exchanges the two roots X and X + 1.
  lemma PowerIsConjugate(a: Ext)
    ensures Power(a, 256) == Conjugate(a)
  {
    hide B.Product, Squared, Power, Frobenius, Carry;
    assert Pow2(8) == 256;
    IteratedSquare(a, 8);
    FrobeniusCycle(a.c0);
    FrobeniusCycle(a.c1);
    CarryCycle();
    B.ProductOne(B.Mod256, a.c1);
  }

  // -------------------------------------------------------------------------
  // The norm
  // -------------------------------------------------------------------------

  ghost function Norm(a: Ext): Gf256 {
    B.Add(Mul256(a.c0, B.Add(a.c0, a.c1)), Mul256(32, Mul256(a.c1, a.c1)))
  }

  lemma ConjugateProduct(a: Ext)
    ensures Mul(a, Conjugate(a)) == Ext(Norm(a), 0)
  {
    hide B.Product, B.Add;
    B.Distributive(B.Mod256, a.c1, a.c0, a.c1);
    B.Commutative(B.Mod256, a.c0, a.c1);
    SumCancels(Mul256(a.c0, a.c1), Mul256(a.c1, a.c1));
  }

  lemma SumCancels(p: Gf256, q: Gf256)
    ensures B.Add(B.Add(p, B.Add(p, q)), q) == 0
  {
  }

  // X^2 + X + 32 has no root in GF(256).
  lemma Irreducible(t: Gf256)
    ensures Mul256(t, t) ^ t != 32
  {
    IrreducibleOnBits(t);
    SquaredIsProduct(t);
    hide B.Product, Squared;
  }

  lemma IrreducibleOnBits(t: Gf256)
    ensures Squared(t) ^ t != 32
  {
  }

  // With c1 * i = 1 and t = c0 * i, the norm times i^2 is t^2 + t + 32.
  lemma NormScaled(a: Ext, i: Gf256)
    requires Mul256(a.c1, i) == 1
    ensures var t := Mul256(a.c0, i);
      Mul256(Norm(a), Mul256(i, i)) == B.Add(B.Add(Mul256(t, t), t), 32)
  {
    hide B.Add, B.Product;
    var t, ii := Mul256(a.c0, i), Mul256(i, i);
    Regroup(a.c0, a.c0, i);
    Regroup(a.c0, a.c1, i);
    Regroup(a.c1, a.c1, i);
    B.Distributive(B.Mod256, a.c0, a.c0, a.c1);
    B.ProductAdditiveLeft(B.Mod256, Mul256(a.c0, B.Add(a.c0, a.c1)), Mul256(32, Mul256(a.c1, a.c1)), ii);
    B.ProductAdditiveLeft(B.Mod256, Mul256(a.c0, a.c0), Mul256(a.c0, a.c1), ii);
    B.Associative(B.Mod256, 32, Mul256(a.c1, a.c1), ii);
    B.ProductOne(B.Mod256, t);
    B.ProductOne(B.Mod256, 1);
    B.ProductOne(B.Mod256, 32);
    B.Commutative(B.Mod256, 1, t);
    B.Commutative(B.Mod256, 1, 32);
  }

  lemma Regroup(a: Gf256, b: Gf256, i: Gf256)
    ensures Mul256(Mul256(a, b), Mul256(i, i)) == Mul256(Mul256(a, i), Mul256(b, i))
  {
    hide B.Product;
    B.Associative(B.Mod256, a, b, Mul256(i, i));
    B.Associative(B.Mod256, b, i, i);
    B.Commutative(B.Mod256, i, Mul256(b, i));
    B.Associative(B.Mod256, a, i, Mul256(b, i));
  }

  lemma NormNonZero(a: Ext)
    requires a != ZERO
    ensures Norm(a) != 0
  {
    if a.c1 == 0 {
      B.ProductZero(B.Mod256, 0);
      B.Commutative(B.Mod256, 32, 0);
      B.ProductZero(B.Mod256, 32);
      SquaredIsProduct(a.c0);
      hide B.Product;
      SquaredNonZero(a.c0);
      assert B.Add(a.c0, 0) == a.c0;
      assert B.Add(Squared(a.c0), 0) == Squared(a.c0);
    } else {
      var i := B256Inverse(a.c1);
      NormScaled(a, i);
      var t := Mul256(a.c0, i);
      Irreducible(t);
      B.ProductZero(B.Mod256, Mul256(i, i));
      NotThirtyTwo(Mul256(t, t), t);
      hide B.Product, B.Add;
    }
  }

  lemma NotThirtyTwo(s: Gf256, t: Gf256)
    requires s ^ t != 32
    ensures B.Add(B.Add(s, t), 32) != 0
  {
  }

  lemma SquaredNonZero(a: Gf256)
    requires a != 0
    ensures Squared(a) != 0
  {
  }

  lemma B256Inverse(a: Gf256) returns (i: Gf256)
    requires a != 0
    ensures Mul256(a, i) == 1
  {
    hide B.Product;
    Order255(a);
    i := BaseFields.Power(B.Mod256, a, 254);
    BaseFields.PowerOne(B.Mod256, a);
    BaseFields.PowerSum(B.Mod256, a, 1, 254);
  }

  // -------------------------------------------------------------------------
  // The inverse
  // -------------------------------------------------------------------------

  lemma {:induction false} PowerOfConstant(s: Gf256, n: nat)
    ensures Power(Ext(s, 0), n) == Ext(BaseFields.Power(B.Mod256, s, n), 0)
  {
    if n == 0 {
    } else {
      PowerOfConstant(s, n - 1);
      ConstantProduct(BaseFields.Power(B.Mod256, s, n - 1), s);
      hide Mul, B.Product;
    }
  }

  lemma ConstantProduct(s: Gf256, t: Gf256)
    ensures Mul(Ext(s, 0), Ext(t, 0)) == Ext(Mul256(s, t), 0)
  {
    B.ProductZero(B.Mod256, 0);
    B.ProductZero(B.Mod256, t);
    B.Commutative(B.Mod256, s, 0);
    B.ProductZero(B.Mod256, s);
    B.Commutative(B.Mod256, 32, 0);
    B.ProductZero(B.Mod256, 32);
    hide B.Product;
  }

  // Every non-zero element has order dividing 65535.
  lemma Order65535(a: Ext)
    requires a != ZERO
    ensures Power(a, 65535) == ONE
  {
    NormNonZero(a);
    hide Mul, Power, Norm, Conjugate, BaseFields.Power;
    PowerOne(a);
    PowerSum(a, 1, 256);
    PowerIsConjugate(a);
    ConjugateProduct(a);
    PowerProduct(a, 257, 255);
    PowerOfConstant(Norm(a), 255);
    Order255(Norm(a));
  }

  method Invert(a: Ext) returns (r: Ext)
    ensures r == Power(a, 65534)
    ensures Mul(a, r) == if a == ZERO then ZERO else ONE
  {
    hide Mul;
    PowerOne(a);
    hide Power;
    r := a;
    ghost var exponent: nat := 1;
    assert Pow2(1) == 2;
    for i := 0 to 14
      invariant exponent + 1 == Pow2(i + 1)
      invariant r == Power(a, exponent)
    {
      PowerSum(a, exponent, exponent);
      PowerSum(a, 2 * exponent, 1);
      assert Pow2(i + 2) == 2 * Pow2(i + 1);
      var square := Multiply(r, r);
      r := Multiply(square, a);
      exponent := 2 * exponent + 1;
    }
    assert Pow2(15) == 32768;
    PowerSum(a, 32767, 32767);
    r := Multiply(r, r);
    PowerSum(a, 1, 65534);
    if a == ZERO {
      MulIdentity(r);
    } else {
      Order65535(a);
    }
  }

  // There are no zero divisors.
  lemma ZeroProduct(a: Ext, b: Ext)
    ensures Mul(a, b) == ZERO <==> a == ZERO || b == ZERO
  {
    hide Mul;
    MulIdentity(a);
    MulIdentity(b);
    if a != ZERO && Mul(a, b) == ZERO {
      var r := Power(a, 65534);
      PowerOne(a);
      PowerSum(a, 1, 65534);
      Order65535(a);
      MulCommutes(a, r);
      MulAssociates(r, a, b);
      MulIdentity(r);
    }
  }
}
