// src/field.rs: Gf256x2, the field of 65536 elements c0 + c1 * X modulo X^2 + X + 32.
module ExtensionField {
  import opened BaseFields
  import B = BinaryFields

  datatype Ext = Ext(c0: Gf256, c1: Gf256)

  const ZERO: Ext := Ext(0, 0)
  const ONE: Ext := Ext(1, 0)

  function Add(a: Ext, b: Ext): Ext {
    Ext(B.Add(a.c0, b.c0), B.Add(a.c1, b.c1))
  }

  // The product of polynomials in X of degree at most one, with X^2 = X + 32.
  ghost function Mul(a: Ext, b: Ext): Ext {
    Ext(B.Add(Mul256(a.c0, b.c0), Mul256(32, Mul256(a.c1, b.c1))),
        B.Add(B.Add(Mul256(a.c0, b.c1), Mul256(a.c1, b.c0)), Mul256(a.c1, b.c1)))
  }

  // The image of a base field element, a constant polynomial.
  function Lift(s: Gf16): Ext {
    Ext(Embed(s), 0)
  }

  // -------------------------------------------------------------------------
  // Addition
  // -------------------------------------------------------------------------

  lemma AddCommutes(a: Ext, b: Ext)
    ensures Add(a, b) == Add(b, a)
  {
  }

  lemma AddAssociates(a: Ext, b: Ext, c: Ext)
    ensures Add(Add(a, b), c) == Add(a, Add(b, c))
  {
    B.AddAssociative(a.c0, b.c0, c.c0);
    B.AddAssociative(a.c1, b.c1, c.c1);
  }

  lemma AddExchanges(a: Ext, b: Ext, c: Ext, d: Ext)
    ensures Add(Add(a, b), Add(c, d)) == Add(Add(a, c), Add(b, d))
  {
    B.AddExchange(a.c0, b.c0, c.c0, d.c0);
    B.AddExchange(a.c1, b.c1, c.c1, d.c1);
    hide B.Add;
  }

  lemma AddIdentity(a: Ext)
    ensures Add(a, ZERO) == a == Add(ZERO, a)
    ensures Add(a, a) == ZERO
  {
  }

  // Adding b twice changes nothing.
  lemma AddCancels(a: Ext, b: Ext)
    ensures Add(Add(a, b), b) == a
    ensures Add(a, Add(a, b)) == b
  {
    hide Add;
    AddAssociates(a, b, b);
    AddAssociates(a, a, b);
    AddIdentity(a);
    AddIdentity(b);
  }

  // -------------------------------------------------------------------------
  // Multiplication: a * b is c0 of a times b plus c1 of a times X * b
  // -------------------------------------------------------------------------

  ghost function Scale(s: Gf256, b: Ext): Ext {
    Ext(Mul256(s, b.c0), Mul256(s, b.c1))
  }

  ghost function TimesRoot(b: Ext): Ext {
    Ext(Mul256(32, b.c1), B.Add(b.c0, b.c1))
  }

  lemma MulIsScale(a: Ext, b: Ext)
    ensures Mul(a, b) == Add(Scale(a.c0, b), Scale(a.c1, TimesRoot(b)))
  {
    hide B.Product, B.Add;
    B.Distributive(B.Mod256, a.c1, b.c0, b.c1);
    B.AddAssociative(Mul256(a.c0, b.c1), Mul256(a.c1, b.c0), Mul256(a.c1, b.c1));
    B.Associative(B.Mod256, a.c1, 32, b.c1);
    B.Commutative(B.Mod256, a.c1, 32);
    B.Associative(B.Mod256, 32, a.c1, b.c1);
  }

  lemma ScaleAdditive(s: Gf256, t: Gf256, b: Ext, c: Ext)
    ensures Scale(s, Add(b, c)) == Add(Scale(s, b), Scale(s, c))
    ensures Scale(B.Add(s, t), b) == Add(Scale(s, b), Scale(t, b))
  {
    hide B.Product, B.Add;
    B.Distributive(B.Mod256, s, b.c0, c.c0);
    B.Distributive(B.Mod256, s, b.c1, c.c1);
    B.ProductAdditiveLeft(B.Mod256, s, t, b.c0);
    B.ProductAdditiveLeft(B.Mod256, s, t, b.c1);
  }

  lemma ScaleScale(s: Gf256, t: Gf256, b: Ext)
    ensures Scale(s, Scale(t, b)) == Scale(Mul256(s, t), b)
  {
    hide B.Product;
    B.Associative(B.Mod256, s, t, b.c0);
    B.Associative(B.Mod256, s, t, b.c1);
  }

  lemma TimesRootAdditive(b: Ext, c: Ext)
    ensures TimesRoot(Add(b, c)) == Add(TimesRoot(b), TimesRoot(c))
  {
    hide B.Product, B.Add;
    B.Distributive(B.Mod256, 32, b.c1, c.c1);
    B.AddExchange(b.c0, c.c0, b.c1, c.c1);
  }

  lemma TimesRootScale(s: Gf256, b: Ext)
    ensures TimesRoot(Scale(s, b)) == Scale(s, TimesRoot(b))
  {
    hide B.Product, B.Add;
    B.Associative(B.Mod256, 32, s, b.c1);
    B.Commutative(B.Mod256, 32, s);
    B.Associative(B.Mod256, s, 32, b.c1);
    B.Distributive(B.Mod256, s, b.c0, b.c1);
  }

  // X is a root of X^2 + X + 32.
  lemma TimesRootTwice(b: Ext)
    ensures TimesRoot(TimesRoot(b)) == Add(Scale(32, b), TimesRoot(b))
  {
    hide B.Product, B.Add;
    B.Distributive(B.Mod256, 32, b.c0, b.c1);
    var x := Mul256(32, b.c1);
  }

  lemma MulAdditiveLeft(a: Ext, b: Ext, c: Ext)
    ensures Mul(Add(a, b), c) == Add(Mul(a, c), Mul(b, c))
  {
    MulIsScale(Add(a, b), c);
    MulIsScale(a, c);
    MulIsScale(b, c);
    ScaleAdditive(a.c0, b.c0, c, c);
    ScaleAdditive(a.c1, b.c1, TimesRoot(c), c);
    AddExchanges(Scale(a.c0, c), Scale(b.c0, c), Scale(a.c1, TimesRoot(c)), Scale(b.c1, TimesRoot(c)));
    assert Add(a, b).c0 == B.Add(a.c0, b.c0) && Add(a, b).c1 == B.Add(a.c1, b.c1);
    hide Add, Mul, Scale, TimesRoot, B.Add, B.Product;
  }

  lemma MulScale(s: Gf256, a: Ext, b: Ext)
    ensures Mul(Scale(s, a), b) == Scale(s, Mul(a, b))
  {
    MulIsScale(a, b);
    MulIsScale(Scale(s, a), b);
    ScaleAdditive(s, 0, Scale(a.c0, b), Scale(a.c1, TimesRoot(b)));
    ScaleScale(s, a.c0, b);
    ScaleScale(s, a.c1, TimesRoot(b));
    assert Scale(s, a).c0 == Mul256(s, a.c0) && Scale(s, a).c1 == Mul256(s, a.c1);
    hide Add, Mul, Scale, TimesRoot, B.Product;
  }

  lemma MulTimesRoot(a: Ext, b: Ext)
    ensures Mul(TimesRoot(a), b) == TimesRoot(Mul(a, b))
  {
    var xb := TimesRoot(b);
    assert TimesRoot(a).c0 == Mul256(32, a.c1) && TimesRoot(a).c1 == B.Add(a.c0, a.c1);
    hide Add, Mul, Scale, TimesRoot, B.Product, B.Add;
    MulIsScale(TimesRoot(a), b);
    B.Commutative(B.Mod256, 32, a.c1);
    ScaleScale(a.c1, 32, b);
    ScaleAdditive(a.c0, a.c1, xb, b);
    MulIsScale(a, b);
    TimesRootAdditive(Scale(a.c0, b), Scale(a.c1, xb));
    TimesRootScale(a.c0, b);
    TimesRootScale(a.c1, xb);
    TimesRootTwice(b);
    ScaleAdditive(a.c1, 0, Scale(32, b), xb);
    var p, q, r := Scale(a.c1, Scale(32, b)), Scale(a.c0, xb), Scale(a.c1, xb);
    AddAssociates(q, p, r);
    AddAssociates(p, q, r);
    AddCommutes(p, q);
  }

  lemma MulCommutes(a: Ext, b: Ext)
    ensures Mul(a, b) == Mul(b, a)
  {
    hide B.Product;
    B.Commutative(B.Mod256, a.c0, b.c0);
    B.Commutative(B.Mod256, a.c1, b.c1);
    B.Commutative(B.Mod256, a.c0, b.c1);
    B.Commutative(B.Mod256, a.c1, b.c0);
  }

  lemma MulAssociates(a: Ext, b: Ext, c: Ext)
    ensures Mul(Mul(a, b), c) == Mul(a, Mul(b, c))
  {
    hide Add, Mul, Scale, TimesRoot, B.Product;
    MulIsScale(a, b);
    MulIsScale(a, Mul(b, c));
    MulAdditiveLeft(Scale(a.c0, b), Scale(a.c1, TimesRoot(b)), c);
    MulScale(a.c0, b, c);
    MulScale(a.c1, TimesRoot(b), c);
    MulTimesRoot(b, c);
  }

  lemma MulDistributes(a: Ext, b: Ext, c: Ext)
    ensures Mul(a, Add(b, c)) == Add(Mul(a, b), Mul(a, c))
  {
    hide Add, Mul;
    MulCommutes(a, Add(b, c));
    MulCommutes(a, b);
    MulCommutes(a, c);
    MulAdditiveLeft(b, c, a);
  }

  lemma MulIdentity(a: Ext)
    ensures Mul(ONE, a) == a == Mul(a, ONE)
    ensures Mul(ZERO, a) == ZERO == Mul(a, ZERO)
  {
    MulCommutes(ONE, a);
    MulCommutes(ZERO, a);
    B.ProductOne(B.Mod256, a.c0);
    B.ProductOne(B.Mod256, a.c1);
    B.ProductZero(B.Mod256, a.c0);
    B.ProductZero(B.Mod256, a.c1);
    B.Commutative(B.Mod256, 32, 0);
    B.ProductZero(B.Mod256, 32);
    hide B.Product;
  }

  // Karatsuba: three products instead of four.
  method Multiply(a: Ext, b: Ext) returns (r: Ext)
    ensures r == Mul(a, b)
  {
    hide B.Product;
    var highProduct := MultiplyGf256(a.c1, b.c1);
    var lowProduct := MultiplyGf256(a.c0, b.c0);
    var constant := MultiplyGf256(highProduct, 32);
    var mixed := MultiplyGf256(B.Add(a.c0, a.c1), B.Add(b.c0, b.c1));
    r := Ext(B.Add(lowProduct, constant), B.Add(lowProduct, mixed));
    Karatsuba(a, b);
  }

  lemma Karatsuba(a: Ext, b: Ext)
    ensures Mul(a, b) == Ext(B.Add(Mul256(a.c0, b.c0), Mul256(Mul256(a.c1, b.c1), 32)),
                             B.Add(Mul256(a.c0, b.c0), Mul256(B.Add(a.c0, a.c1), B.Add(b.c0, b.c1))))
  {
    hide B.Product, B.Add;
    B.Commutative(B.Mod256, Mul256(a.c1, b.c1), 32);
    B.ProductAdditiveLeft(B.Mod256, a.c0, a.c1, B.Add(b.c0, b.c1));
    B.Distributive(B.Mod256, a.c0, b.c0, b.c1);
    B.Distributive(B.Mod256, a.c1, b.c0, b.c1);
    var p, q, r, s := Mul256(a.c0, b.c0), Mul256(a.c0, b.c1), Mul256(a.c1, b.c0), Mul256(a.c1, b.c1);
    Cancel(p, q, r, s);
  }

  lemma Cancel(p: bv8, q: bv8, r: bv8, s: bv8)
    ensures B.Add(p, B.Add(B.Add(p, q), B.Add(r, s))) == B.Add(B.Add(q, r), s)
  {
    assert p ^ ((p ^ q) ^ (r ^ s)) == (q ^ r) ^ s;
  }

  // A base field scalar acts as the constant polynomial it embeds to.
  method MultiplyBaseScalar(s: Gf16, a: Ext) returns (r: Ext)
    ensures r == Mul(Lift(s), a)
  {
    var scalar := Embed(s);
    var c0 := MultiplyGf256(scalar, a.c0);
    var c1 := MultiplyGf256(scalar, a.c1);
    r := Ext(c0, c1);
    LiftActs(s, a);
  }

  lemma LiftActs(s: Gf16, a: Ext)
    ensures Mul(Lift(s), a) == Scale(Embed(s), a)
  {
    hide Embed, B.Product, B.Add;
    B.ProductZero(B.Mod256, a.c1);
    B.ProductZero(B.Mod256, a.c0);
    B.Commutative(B.Mod256, 32, 0);
    B.ProductZero(B.Mod256, 32);
    AddZero(Mul256(Embed(s), a.c0));
    AddZero(Mul256(Embed(s), a.c1));
    AddZero(0);
  }

  // Lift is an injective ring homomorphism.
  lemma LiftHomomorphism(s: Gf16, t: Gf16)
    ensures B.Add(s, t) < 16 && Lift(B.Add(s, t)) == Add(Lift(s), Lift(t))
    ensures Lift(Mul16(s, t)) == Mul(Lift(s), Lift(t))
    ensures Lift(1) == ONE
    ensures Lift(s) == Lift(t) ==> s == t
  {
    EmbedAdditive(s, t);
    EmbedProduct(s, t);
    EmbedInjective(s, t);
    LiftActs(s, Lift(t));
    hide Embed;
    B.ProductZero(B.Mod256, Embed(s));
    B.Commutative(B.Mod256, Embed(s), 0);
    hide B.Product;
  }

  // The modulus and the embedding: X^2 = X + 32, and the images of x, x^2, x^3.
  lemma FieldConstants()
    ensures Mul(Ext(0, 1), Ext(0, 1)) == Ext(32, 1)
    ensures Embed(1) == 0x01 && Embed(2) == 0xe0 && Embed(4) == 0x5d && Embed(8) == 0xb0
  {
    B.ProductZero(B.Mod256, 0);
    B.ProductZero(B.Mod256, 1);
    B.ProductOne(B.Mod256, 1);
    B.ProductOne(B.Mod256, 0);
    B.ProductOne(B.Mod256, 32);
    B.Commutative(B.Mod256, 1, 32);
    hide B.Product;
  }
}
