// src/field.rs: the loops of Gf16 and Gf256, and the embedding of GF(16) in GF(256).
module BaseFields {
  import opened BinaryFields

  type Gf16 = a: bv8 | a < 16
  type Gf256 = bv8

  // Gf16::new keeps the low four bits.
  function NewGf16(value: bv8): Gf16 {
    value & 0x0f
  }

  ghost function Mul16(a: Gf16, b: Gf16): Gf16 {
    ReducedProduct(Mod16, a, b);
    Product(Mod16, a, b)
  }

  ghost function Mul256(a: Gf256, b: Gf256): Gf256 {
    Product(Mod256, a, b)
  }

  // -------------------------------------------------------------------------
  // Multiplication
  // -------------------------------------------------------------------------

  // b after i right shifts.
  ghost function Shifted(b: bv8, i: nat): bv8 {
    if i == 0 then b else Half(Shifted(b, i - 1))
  }

  lemma ShiftedBits(b: bv8)
    ensures Shifted(b, 0) == b && Shifted(b, 1) == b >> 1 && Shifted(b, 2) == b >> 2
    ensures Shifted(b, 3) == b >> 3 && Shifted(b, 4) == b >> 4 && Shifted(b, 5) == b >> 5
    ensures Shifted(b, 6) == b >> 6 && Shifted(b, 7) == b >> 7 && Shifted(b, 8) == 0
  {
  }

  // One round of either loop moves a term of Horner's rule into the product.
  lemma Round(m: Modulus, a: bv8, b: bv8, product: bv8)
    ensures Add(product, Product(m, a, b)) == Add(Add(product, Select(b, a)), Product(m, TimesX(m, a), Half(b)))
  {
    hide Add, Select, TimesX, Half;
    ProductUnfold(m, a, b);
    ProductTimesX(m, a, Half(b));
    hide Product;
    AddAssociative(product, Select(b, a), TimesX(m, Product(m, a, Half(b))));
  }

  // The loop bodies, in the words of the specification.
  lemma RoundWords(a: bv8, b: bv8, product: bv8)
    ensures product ^ (a & (0 - (b & 1))) == Add(product, Select(b, a))
    ensures b >> 1 == Half(b)
    ensures ((a << 1) & 0x0f) ^ (0x03 & (0 - ((a >> 3) & 1))) == TimesX(Mod16, a)
    ensures (a << 1) ^ (0x1b & (0 - (a >> 7))) == TimesX(Mod256, a)
  {
  }

  lemma AddZero(a: bv8)
    ensures Add(0, a) == a == Add(a, 0)
  {
  }

  // One round of the loop of Gf16.
  method RoundGf16(a: bv8, b: bv8, product: bv8) returns (nextA: bv8, nextB: bv8, next: bv8)
    ensures nextA == TimesX(Mod16, a) && nextB == Half(b) && next == Add(product, Select(b, a))
  {
    hide TimesX, Half, Add, Select;
    RoundWords(a, b, product);
    var bMask := 0 - (b & 1);
    next := product ^ (a & bMask);
    var highMask := 0 - ((a >> 3) & 1);
    nextA := ((a << 1) & 0x0f) ^ (0x03 & highMask);
    nextB := b >> 1;
  }

  method MultiplyGf16(x: Gf16, y: Gf16) returns (r: Gf16)
    ensures r == Mul16(x, y)
  {
    hide Product, Add, Select, Half, TimesX;
    var a: bv8, b: bv8, product: bv8 := x, y, 0;
    AddZero(Product(Mod16, x, y));
    for i := 0 to 4
      invariant b == Shifted(y, i)
      invariant Add(product, Product(Mod16, a, b)) == Product(Mod16, x, y)
    {
      Round(Mod16, a, b, product);
      a, b, product := RoundGf16(a, b, product);
    }
    assert Shifted(y, 4) == 0 by { ShiftedBits(y); }
    ProductUnfold(Mod16, a, 0);
    AddZero(product);
    ReducedProduct(Mod16, x, y);
    r := product & 0x0f;
  }

  // One round of the loop of Gf256.
  method RoundGf256(a: bv8, b: bv8, product: bv8) returns (nextA: bv8, nextB: bv8, next: bv8)
    ensures nextA == TimesX(Mod256, a) && nextB == Half(b) && next == Add(product, Select(b, a))
  {
    hide TimesX, Half, Add, Select;
    RoundWords(a, b, product);
    var bMask := 0 - (b & 1);
    next := product ^ (a & bMask);
    var highMask := 0 - (a >> 7);
    nextA := (a << 1) ^ (0x1b & highMask);
    nextB := b >> 1;
  }

  method MultiplyGf256(x: Gf256, y: Gf256) returns (r: Gf256)
    ensures r == Mul256(x, y)
  {
    hide Product, Add, Select, Half, TimesX;
    var a: bv8, b: bv8, product: bv8 := x, y, 0;
    AddZero(Product(Mod256, x, y));
    for i := 0 to 8
      invariant b == Shifted(y, i)
      invariant Add(product, Product(Mod256, a, b)) == Product(Mod256, x, y)
    {
      Round(Mod256, a, b, product);
      a, b, product := RoundGf256(a, b, product);
    }
    assert Shifted(y, 8) == 0 by { ShiftedBits(y); }
    ProductUnfold(Mod256, a, 0);
    AddZero(product);
    r := product;
  }

  // -------------------------------------------------------------------------
  // The eight rounds of a product modulo x^8 + x^4 + x^3 + x + 1, written out.
  // Facts about one byte are decided on this form.
  // -------------------------------------------------------------------------

  ghost function Rounds(a: bv8, b0: bv8, b1: bv8, b2: bv8, b3: bv8, b4: bv8, b5: bv8, b6: bv8, b7: bv8): bv8 {
    var p7 := Select(b7, a);
    var p6 := Add(Select(b6, a), TimesX(Mod256, p7));
    var p5 := Add(Select(b5, a), TimesX(Mod256, p6));
    var p4 := Add(Select(b4, a), TimesX(Mod256, p5));
    var p3 := Add(Select(b3, a), TimesX(Mod256, p4));
    var p2 := Add(Select(b2, a), TimesX(Mod256, p3));
    var p1 := Add(Select(b1, a), TimesX(Mod256, p2));
    Add(Select(b0, a), TimesX(Mod256, p1))
  }

  ghost function StraightLine(a: bv8, b: bv8): bv8 {
    Rounds(a, b, b >> 1, b >> 2, b >> 3, b >> 4, b >> 5, b >> 6, b >> 7)
  }

  lemma ProductTail(m: Modulus, a: bv8, b: bv8, i: nat)
    ensures Product(m, a, Shifted(b, i)) == Add(Select(Shifted(b, i), a), TimesX(m, Product(m, a, Shifted(b, i + 1))))
  {
    ProductUnfold(m, a, Shifted(b, i));
  }

  lemma ProductIsRounds(a: bv8, b: bv8)
    requires Shifted(b, 8) == 0
    ensures Mul256(a, b) == Rounds(a, Shifted(b, 0), Shifted(b, 1), Shifted(b, 2), Shifted(b, 3),
                                      Shifted(b, 4), Shifted(b, 5), Shifted(b, 6), Shifted(b, 7))
  {
    assert forall c :: Add(c, TimesX(Mod256, 0)) == c;
    ProductUnfold(Mod256, a, 0);
    ProductTail(Mod256, a, b, 7);
    ProductTail(Mod256, a, b, 6);
    ProductTail(Mod256, a, b, 5);
    ProductTail(Mod256, a, b, 4);
    ProductTail(Mod256, a, b, 3);
    ProductTail(Mod256, a, b, 2);
    ProductTail(Mod256, a, b, 1);
    ProductTail(Mod256, a, b, 0);
    assert Shifted(b, 0) == b;
    hide Add, Select, TimesX, Product, Shifted;
  }

  lemma ProductIsStraightLine(a: bv8, b: bv8)
    ensures Mul256(a, b) == StraightLine(a, b)
  {
    ShiftedBits(b);
    ProductIsRounds(a, b);
    hide Rounds, Product, Shifted;
  }

  // -------------------------------------------------------------------------
  // Powers and inverses
  // -------------------------------------------------------------------------

  ghost function Power(m: Modulus, a: bv8, n: nat): bv8 {
    if n == 0 then 1 else Product(m, Power(m, a, n - 1), a)
  }

  lemma {:induction false} ReducedPower(m: Modulus, a: bv8, n: nat)
    requires Reduced(m, a)
    ensures Reduced(m, Power(m, a, n))
  {
    if n == 0 {
    } else {
      ReducedPower(m, a, n - 1);
      ReducedProduct(m, Power(m, a, n - 1), a);
    }
  }

  lemma {:induction false} PowerSum(m: Modulus, a: bv8, i: nat, j: nat)
    requires Reduced(m, a)
    ensures Power(m, a, i + j) == Product(m, Power(m, a, i), Power(m, a, j))
  {
    hide Product;
    ReducedPower(m, a, i);
    if j == 0 {
      ProductOne(m, Power(m, a, i));
      Commutative(m, 1, Power(m, a, i));
    } else {
      PowerSum(m, a, i, j - 1);
      ReducedPower(m, a, j - 1);
      Associative(m, Power(m, a, i), Power(m, a, j - 1), a);
    }
  }

  lemma PowerOne(m: Modulus, a: bv8)
    requires Reduced(m, a)
    ensures Power(m, a, 1) == a
  {
    ProductOne(m, a);
    assert Power(m, a, 1) == Product(m, Power(m, a, 0), a);
  }

  lemma {:induction false} PowerProduct(m: Modulus, a: bv8, i: nat, j: nat)
    requires Reduced(m, a)
    ensures Power(m, Power(m, a, i), j) == Power(m, a, i * j)
  {
    if j == 0 {
    } else {
      hide Product;
      PowerProduct(m, a, i, j - 1);
      assert i * j == i * (j - 1) + i;
      PowerSum(m, a, i * (j - 1), i);
    }
  }

  // a^2, which is additive, so each bit of a contributes its own square.
  ghost function Squared(a: Gf256): Gf256 {
    (a & 1) ^ ((a & 2) << 1) ^ ((a & 4) << 2) ^ ((a & 8) << 3) ^ (0x1b & (0 - ((a >> 4) & 1)))
      ^ (0x6c & (0 - ((a >> 5) & 1))) ^ (0xab & (0 - ((a >> 6) & 1))) ^ (0x9a & (0 - (a >> 7)))
  }

  lemma SquaredIsProduct(a: Gf256)
    ensures Mul256(a, a) == Squared(a)
  {
    ProductIsStraightLine(a, a);
    SquaredIsStraightLine(a);
    hide Product, Squared, StraightLine;
  }

  lemma SquaredIsStraightLine(a: Gf256)
    ensures StraightLine(a, a) == Squared(a)
  {
  }

  // a^16 and a^17, the conjugate and the norm of a over the field of 16 elements.
  ghost function Conjugate16(a: Gf256): Gf256 {
    Squared(Squared(Squared(Squared(a))))
  }

  ghost function Norm16(a: Gf256): Gf256 {
    StraightLine(a, Conjugate16(a))
  }


  lemma NormNonZero(a: Gf256)
    ensures a != 0 ==> Norm16(a) != 0
  {
  }

  lemma CubeNonZero(y: Gf256)
    ensures y != 0 ==> StraightLine(y, Squared(y)) != 0
  {
  }

  lemma FifthPowerNonZero(t: Gf256)
    ensures t != 0 ==> StraightLine(t, Squared(Squared(t))) != 0
  {
  }

  lemma OwnSquare(z: Gf256)
    requires Squared(z) == z
    ensures z == 0 || z == 1
  {
  }

  lemma PowerDouble(a: Gf256, n: nat)
    ensures Power(Mod256, a, 2 * n) == Squared(Power(Mod256, a, n))
  {
    hide Squared, Product;
    PowerSum(Mod256, a, n, n);
    SquaredIsProduct(Power(Mod256, a, n));
  }

  lemma PowerSixteen(a: Gf256)
    ensures Power(Mod256, a, 2) == Squared(a)
    ensures Power(Mod256, a, 4) == Squared(Squared(a))
    ensures Power(Mod256, a, 8) == Squared(Squared(Squared(a)))
    ensures Power(Mod256, a, 16) == Conjugate16(a)
  {
    hide Power, Squared;
    PowerOne(Mod256, a);
    PowerDouble(a, 1);
    PowerDouble(a, 2);
    PowerDouble(a, 4);
    PowerDouble(a, 8);
  }

  lemma PowerSeventeen(a: Gf256)
    ensures Power(Mod256, a, 17) == Norm16(a)
  {
    hide Power, Product, StraightLine, Conjugate16;
    PowerSixteen(a);
    PowerOne(Mod256, a);
    PowerSum(Mod256, a, 1, 16);
    ProductIsStraightLine(a, Conjugate16(a));
  }

  lemma ConjugateTwice(a: Gf256)
    ensures Conjugate16(Conjugate16(a)) == a
  {
  }

  // a^272 = a^256 a^16 = a^17.
  lemma NormInSubfield(a: Gf256)
    ensures Conjugate16(Norm16(a)) == Norm16(a)
  {
    ConjugateTwice(a);
    hide Power, Product, StraightLine, Conjugate16;
    PowerSeventeen(a);
    PowerSixteen(a);
    PowerSixteen(Conjugate16(a));
    PowerSixteen(Norm16(a));
    PowerOne(Mod256, a);
    PowerProduct(Mod256, a, 16, 16);
    PowerProduct(Mod256, a, 17, 16);
    PowerSum(Mod256, a, 256, 16);
    PowerSum(Mod256, a, 1, 16);
  }

  // y^30 = y^16 y^14 = y^15, so y^15 is its own square.
  lemma PowerFifteen(y: Gf256)
    requires y != 0 && Conjugate16(y) == y
    ensures Power(Mod256, y, 15) == 1
  {
    FifteenthNonZero(y);
    hide Power, Product, Conjugate16, Squared;
    PowerSixteen(y);
    PowerOne(Mod256, y);
    PowerSum(Mod256, y, 1, 14);
    PowerSum(Mod256, y, 16, 14);
    PowerDouble(y, 15);
    OwnSquare(Power(Mod256, y, 15));
  }

  // y^15 = y^3 y^12, and y^12 is y^3 squared twice.
  lemma FifteenthNonZero(y: Gf256)
    requires y != 0
    ensures Power(Mod256, y, 15) != 0
  {
    hide Power, Product, StraightLine, Squared;
    var t := Power(Mod256, y, 3);
    PowerOne(Mod256, y);
    PowerDouble(y, 1);
    PowerSum(Mod256, y, 1, 2);
    PowerDouble(y, 3);
    PowerDouble(y, 6);
    PowerSum(Mod256, y, 3, 12);
    ProductIsStraightLine(y, Squared(y));
    ProductIsStraightLine(t, Squared(Squared(t)));
    CubeNonZero(y);
    FifthPowerNonZero(t);
  }

  // Every non-zero element of GF(256) has order dividing 255.
  lemma Order255(a: Gf256)
    requires a != 0
    ensures Power(Mod256, a, 255) == 1
  {
    NormInSubfield(a);
    NormNonZero(a);
    hide Power, Conjugate16, Norm16;
    PowerSeventeen(a);
    PowerFifteen(Norm16(a));
    PowerProduct(Mod256, a, 17, 15);
  }

  method InvertGf256(a: Gf256) returns (r: Gf256)
    ensures r == Power(Mod256, a, 254)
    ensures Mul256(a, r) == if a == 0 then 0 else 1
  {
    hide Product;
    PowerOne(Mod256, a);
    hide Power;
    r := a;
    ghost var exponent: nat := 1;
    for i := 0 to 6
      invariant exponent == [1, 3, 7, 15, 31, 63, 127][i]
      invariant r == Power(Mod256, a, exponent)
    {
      PowerSum(Mod256, a, exponent, exponent);
      PowerSum(Mod256, a, 2 * exponent, 1);
      var square := MultiplyGf256(r, r);
      r := MultiplyGf256(square, a);
      exponent := 2 * exponent + 1;
    }
    PowerSum(Mod256, a, 127, 127);
    r := MultiplyGf256(r, r);
    PowerSum(Mod256, a, 1, 254);
    if a == 0 {
      ProductZero(Mod256, r);
    } else {
      Order255(a);
    }
  }

  // -------------------------------------------------------------------------
  // The embedding
  // -------------------------------------------------------------------------

  // The image of the basis (1, x, x^2, x^3) of GF(16) is (0x01, 0xe0, 0x5d, 0xb0).
  function Embed(a: Gf16): Gf256 {
    var bit0 := 0 - (a & 1);
    var bit1 := 0 - ((a >> 1) & 1);
    var bit2 := 0 - ((a >> 2) & 1);
    var bit3 := 0 - ((a >> 3) & 1);
    (0x01 & bit0) ^ (0xe0 & bit1) ^ (0x5d & bit2) ^ (0xb0 & bit3)
  }

  lemma EmbedXor(a: Gf16, b: Gf16)
    ensures a ^ b < 16 && Embed(a ^ b) == Embed(a) ^ Embed(b)
  {
  }

  lemma EmbedAdditive(a: Gf16, b: Gf16)
    ensures Add(a, b) < 16 && Embed(Add(a, b)) == Add(Embed(a), Embed(b))
  {
    EmbedXor(a, b);
    hide Embed;
  }

  lemma EmbedTimesX(a: Gf16)
    ensures TimesX(Mod16, a) < 16 && Embed(TimesX(Mod16, a)) == StraightLine(0xe0, Embed(a))
  {
  }

  lemma EmbedSelect(b: bv8, a: Gf16)
    ensures Select(b, a) < 16 && Embed(Select(b, a)) == Select(b, Embed(a))
  {
  }

  lemma EmbedHalf(b: Gf16)
    ensures Half(b) < 16 && Embed(b) == Add(Select(b, 1), StraightLine(0xe0, Embed(Half(b))))
    ensures b != 0 ==> Half(b) < b
  {
  }

  lemma EmbedZero()
    ensures Embed(0) == 0
  {
  }

  // Embed carries products of GF(16) to products of GF(256).
  lemma {:induction false} EmbedProduct(a: Gf16, b: Gf16)
    ensures Embed(Mul16(a, b)) == Mul256(Embed(a), Embed(b))
    decreases b
  {
    EmbedZero();
    hide Add, Select, TimesX, Half, Product, Embed, StraightLine;
    var e, f := Embed(a), Embed(b);
    if b == 0 {
      ProductUnfold(Mod256, e, 0);
      ProductUnfold(Mod16, a, 0);
    } else {
      EmbedHalf(b);
      EmbedProduct(a, Half(b));
      ProductUnfold(Mod16, a, b);
      var g := Embed(Half(b));
      var p := Mul16(a, Half(b));
      EmbedTimesX(p);
      EmbedSelect(b, a);
      EmbedAdditive(Select(b, a), TimesX(Mod16, p));
      ProductIsStraightLine(0xe0, Embed(p));
      ProductIsStraightLine(0xe0, g);
      Distributive(Mod256, e, Select(b, 1), Mul256(0xe0, g));
      Commutative(Mod256, e, Select(b, 1));
      SelectProduct(Mod256, b, 1, e);
      ProductOne(Mod256, e);
      Associative(Mod256, e, 0xe0, g);
      Commutative(Mod256, e, 0xe0);
      Associative(Mod256, 0xe0, e, g);
    }
  }

  lemma EmbedInjective(a: Gf16, b: Gf16)
    ensures Embed(a) == Embed(b) ==> a == b
    ensures Embed(1) == 1
  {
  }

  lemma {:induction false} EmbedPower(a: Gf16, n: nat)
    ensures Reduced(Mod16, Power(Mod16, a, n)) && Embed(Power(Mod16, a, n)) == Power(Mod256, Embed(a), n)
  {
    EmbedInjective(1, 1);
    if n == 0 {
    } else {
      hide Product, Embed;
      EmbedPower(a, n - 1);
      EmbedProduct(Power(Mod16, a, n - 1), a);
    }
  }

  lemma EmbedInSubfield(a: Gf16)
    ensures Conjugate16(Embed(a)) == Embed(a)
    ensures a != 0 ==> Embed(a) != 0
  {
  }

  method InvertGf16(a: Gf16) returns (r: Gf16)
    ensures r == Power(Mod16, a, 14)
    ensures Mul16(a, r) == if a == 0 then 0 else 1
  {
    hide Product;
    PowerOne(Mod16, a);
    hide Power;
    PowerSum(Mod16, a, 1, 1);
    PowerSum(Mod16, a, 2, 2);
    PowerSum(Mod16, a, 4, 4);
    PowerSum(Mod16, a, 8, 4);
    PowerSum(Mod16, a, 12, 2);
    PowerSum(Mod16, a, 1, 14);
    var a2 := MultiplyGf16(a, a);
    var a4 := MultiplyGf16(a2, a2);
    var a8 := MultiplyGf16(a4, a4);
    var a12 := MultiplyGf16(a8, a4);
    r := MultiplyGf16(a12, a2);
    if a == 0 {
      ProductZero(Mod16, r);
    } else {
      EmbedInSubfield(a);
      hide Embed, Conjugate16;
      PowerFifteen(Embed(a));
      EmbedPower(a, 15);
      EmbedInjective(Power(Mod16, a, 15), 1);
    }
  }
}
