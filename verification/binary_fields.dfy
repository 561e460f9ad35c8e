// src/field.rs, GF(16) modulo x^4 + x + 1 and GF(256) modulo
// x^8 + x^4 + x^3 + x + 1 (section 4.2 of FIPS 197).
//
// Both fields are residues of binary polynomials, so one development serves
// them. A byte is the polynomial whose coefficient of x^i is its bit i.
module BinaryFields {

  datatype Modulus = Mod16 | Mod256

  // -------------------------------------------------------------------------
  // Polynomials over GF(2)
  // -------------------------------------------------------------------------

  // The bytes that represent a residue of the modulus.
  predicate Reduced(m: Modulus, a: bv8) {
    m.Mod16? ==> a < 16
  }

  function Polynomial(m: Modulus): bv16 {
    if m.Mod16? then 0x013 else 0x11b
  }

  function Add(a: bv8, b: bv8): bv8 {
    a ^ b
  }

  // b without its constant coefficient, divided by x.
  ghost function Half(b: bv8): bv8 {
    b >> 1
  }

  // b_0 * a, where b_0 is the constant coefficient of b.
  ghost function Select(b: bv8, a: bv8): bv8 {
    a & (0 - (b & 1))
  }

  // The same on sixteen coefficients.
  ghost function Wide(a: bv8): bv16 {
    a as bv16
  }

  ghost function AddWide(a: bv16, b: bv16): bv16 {
    a ^ b
  }

  ghost function SelectWide(b: bv8, a: bv16): bv16 {
    if b & 1 == 1 then a else 0
  }

  // x * c
  ghost function Double(c: bv16): bv16 {
    c << 1
  }

  // b_0 * a + x * c
  ghost function Horner(a: bv16, b: bv8, c: bv16): bv16 {
    AddWide(SelectWide(b, a), Double(c))
  }

  // The polynomial product of a and b.
  ghost function Carryless(a: bv16, b: bv8): bv16
    decreases b
  {
    if b == 0 then 0 else Horner(a, b, Carryless(a, Half(b)))
  }

  // Dividing the polynomial c by the modulus gives quotient q and remainder r.
  ghost predicate Division(m: Modulus, c: bv16, q: bv8, r: bv8) {
    Reduced(m, r) && c == AddWide(Carryless(Polynomial(m), q), Wide(r))
  }

  ghost predicate IsRemainder(m: Modulus, c: bv16, r: bv8) {
    exists q :: Division(m, c, q, r)
  }

  // Multiplication by x of a residue, as both multiplication loops write it.
  function TimesX(m: Modulus, a: bv8): bv8 {
    if m.Mod16? then ((a << 1) & 0x0f) ^ (0x03 & (0 - ((a >> 3) & 1)))
    else (a << 1) ^ (0x1b & (0 - (a >> 7)))
  }

  // The product of two residues, by Horner's rule on the coefficients of b.
  // ProductIsPolynomialProduct says what it means.
  ghost function Product(m: Modulus, a: bv8, b: bv8): (p: bv8)
    decreases b
  {
    if b == 0 then 0 else Add(Select(b, a), TimesX(m, Product(m, a, Half(b))))
  }

  lemma AddAssociative(a: bv8, b: bv8, c: bv8)
    ensures Add(Add(a, b), c) == Add(a, Add(b, c))
  {
    assert (a ^ b) ^ c == a ^ (b ^ c);
  }

  lemma AddExchange(a: bv8, b: bv8, c: bv8, d: bv8)
    ensures Add(Add(a, b), Add(c, d)) == Add(Add(a, c), Add(b, d))
  {
    assert (a ^ b) ^ (c ^ d) == (a ^ c) ^ (b ^ d);
  }

  lemma TimesXXor(m: Modulus, a: bv8, c: bv8)
    ensures TimesX(m, a ^ c) == TimesX(m, a) ^ TimesX(m, c)
  {
    if m.Mod16? {
    } else {
    }
  }

  lemma TimesXAdditive(m: Modulus, a: bv8, c: bv8)
    ensures TimesX(m, Add(a, c)) == Add(TimesX(m, a), TimesX(m, c))
  {
    TimesXXor(m, a, c);
    hide TimesX;
  }

  lemma SelectXor(b: bv8, a: bv8, c: bv8)
    ensures Select(b, a ^ c) == Select(b, a) ^ Select(b, c)
  {
  }

  lemma SelectAdditive(b: bv8, a: bv8, c: bv8)
    ensures Select(b, Add(a, c)) == Add(Select(b, a), Select(b, c))
  {
    SelectXor(b, a, c);
    hide Select;
  }

  lemma SelectCases(b: bv8, a: bv8)
    ensures Select(b, a) == if b & 1 == 1 then a else 0
  {
  }

  lemma SelectTimesX(m: Modulus, b: bv8, a: bv8)
    ensures Select(b, TimesX(m, a)) == TimesX(m, Select(b, a))
  {
  }

  lemma HalfLess(b: bv8)
    ensures b != 0 ==> Half(b) < b
  {
  }

  // Horner's rule also holds of 0, where Product stops.
  lemma ProductUnfold(m: Modulus, a: bv8, b: bv8)
    ensures Product(m, a, b) == Add(Select(b, a), TimesX(m, Product(m, a, Half(b))))
    ensures Product(m, a, 0) == 0
  {
    assert Select(0, a) == 0 && TimesX(m, 0) == 0 && Half(0) == 0 && Add(0, 0) == 0;
    hide Add, Half, Select, TimesX;
    if b == 0 {
    } else {
    }
  }

  // -------------------------------------------------------------------------
  // The product is the remainder of the polynomial product
  // -------------------------------------------------------------------------

  // The bit that TimesX moves past the leading coefficient.
  ghost function Overflow(m: Modulus, a: bv8): bv8 {
    if m.Mod16? then (a >> 3) & 1 else a >> 7
  }

  // The quotient after one more round of Horner's rule.
  ghost function NextQuotient(m: Modulus, q: bv8, r: bv8): bv8 {
    (q << 1) ^ Overflow(m, r)
  }

  lemma TimesXSubtractsModulus(m: Modulus, a: bv8)
    requires Reduced(m, a)
    ensures Double(Wide(a)) == AddWide(Wide(TimesX(m, a)), SelectWide(Overflow(m, a), Polynomial(m)))
    ensures Reduced(m, TimesX(m, a))
  {
  }

  lemma NextQuotientBits(m: Modulus, q: bv8, r: bv8)
    requires q < 128 && Reduced(m, r)
    ensures Half(NextQuotient(m, q, r)) == q
    ensures NextQuotient(m, q, r) & 1 == Overflow(m, r) & 1
    ensures NextQuotient(m, q, r) == 0 ==> q == 0 && Overflow(m, r) == 0
  {
  }

  lemma SelectWideLow(b: bv8, t: bv8, a: bv16)
    requires b & 1 == t & 1
    ensures SelectWide(b, a) == SelectWide(t, a)
  {
  }

  lemma CarrylessNext(m: Modulus, a: bv16, q: bv8, r: bv8)
    requires q < 128 && Reduced(m, r)
    ensures Carryless(a, NextQuotient(m, q, r)) == Horner(a, Overflow(m, r), Carryless(a, q))
  {
    assert Horner(a, 0, 0) == 0;
    hide NextQuotient, Overflow, Half, Horner;
    NextQuotientBits(m, q, r);
    HornerLow(a, NextQuotient(m, q, r), Overflow(m, r), Carryless(a, q));
  }

  lemma HornerLow(a: bv16, b: bv8, t: bv8, c: bv16)
    requires b & 1 == t & 1
    ensures Horner(a, b, c) == Horner(a, t, c)
  {
    SelectWideLow(b, t, a);
    hide SelectWide, AddWide;
  }

  lemma WideSum(a: bv8, b: bv8, x: bv8)
    ensures Wide(Add(Select(b, a), x)) == AddWide(SelectWide(b, Wide(a)), Wide(x))
  {
  }

  lemma DoubleSum(d: bv16, r: bv16)
    ensures Double(AddWide(d, r)) == AddWide(Double(d), Double(r))
  {
  }

  lemma AddWideFacts(a: bv16, b: bv16, c: bv16)
    ensures AddWide(AddWide(a, b), c) == AddWide(a, AddWide(b, c))
  {
    assert (a ^ b) ^ c == a ^ (b ^ c);
  }

  lemma AddWideCommutes(a: bv16, b: bv16)
    ensures AddWide(a, b) == AddWide(b, a)
  {
  }

  lemma DivisionStepWords(poly: bv16, d: bv16, r: bv8, rx: bv8, t: bv8, a: bv8, b: bv8)
    requires Double(Wide(r)) == AddWide(Wide(rx), SelectWide(t, poly))
    ensures Horner(Wide(a), b, AddWide(d, Wide(r))) == AddWide(Horner(poly, t, d), Wide(Add(Select(b, a), rx)))
  {
    hide Wide, AddWide, SelectWide, Add, Select, Double;
    WideSum(a, b, rx);
    DoubleSum(d, Wide(r));
    var s, e, x, p := SelectWide(b, Wide(a)), Double(d), Wide(rx), SelectWide(t, poly);
    SumOfFour(s, e, x, p);
  }

  lemma SumOfFour(s: bv16, d: bv16, x: bv16, p: bv16)
    ensures AddWide(s, AddWide(d, AddWide(x, p))) == AddWide(AddWide(p, d), AddWide(s, x))
  {
    hide AddWide;
    calc {
      AddWide(s, AddWide(d, AddWide(x, p)));
      {
        AddWideCommutes(s, AddWide(d, AddWide(x, p)));
        AddWideCommutes(x, p);
        AddWideFacts(d, p, x);
        AddWideCommutes(p, d);
      }
      AddWide(AddWide(AddWide(p, d), x), s);
      { AddWideFacts(AddWide(p, d), x, s); AddWideCommutes(x, s); }
      AddWide(AddWide(p, d), AddWide(s, x));
    }
  }

  lemma QuotientBound(m: Modulus, b: bv8, q: bv8, r: bv8)
    requires b != 0 && Reduced(m, r) && (q == 0 || q < Half(b)) && (Half(b) == 0 ==> r == 0)
    ensures q < 128 && (NextQuotient(m, q, r) == 0 || NextQuotient(m, q, r) < b)
  {
  }

  lemma ReducedStep(m: Modulus, a: bv8, b: bv8, p: bv8)
    requires Reduced(m, a) && Reduced(m, p)
    ensures Reduced(m, Add(Select(b, a), p))
  {
  }

  // One round of Horner's rule keeps the division exact.
  lemma DivisionStep(m: Modulus, a: bv8, b: bv8, c: bv16, q: bv8, r: bv8)
    requires Reduced(m, a) && Division(m, c, q, r) && q < 128
    ensures Division(m, Horner(Wide(a), b, c), NextQuotient(m, q, r), Add(Select(b, a), TimesX(m, r)))
  {
    hide Carryless, TimesX, Add, Select, Overflow, Horner, Polynomial, Reduced, Wide, AddWide, SelectWide, NextQuotient;
    TimesXSubtractsModulus(m, r);
    ReducedStep(m, a, b, TimesX(m, r));
    CarrylessNext(m, Polynomial(m), q, r);
    DivisionStepWords(Polynomial(m), Carryless(Polynomial(m), q), r, TimesX(m, r), Overflow(m, r), a, b);
  }

  // Horner's rule on a product of residues is its long division by the modulus.
  lemma {:induction false} Quotient(m: Modulus, a: bv8, b: bv8) returns (q: bv8)
    requires Reduced(m, a)
    ensures Division(m, Carryless(Wide(a), b), q, Product(m, a, b))
    ensures q == 0 || q < b
    decreases b
  {
    if b == 0 {
      q := 0;
    } else {
      HalfLess(b);
      q := Quotient(m, a, Half(b));
      ProductUnfold(m, a, 0);
      var c, r := Carryless(Wide(a), Half(b)), Product(m, a, Half(b));
      QuotientBound(m, b, q, r);
      DivisionStep(m, a, b, c, q, r);
      q := NextQuotient(m, q, r);
      hide Division, TimesX, Add, Select, Overflow, Horner, Polynomial, Reduced, NextQuotient, Half;
    }
  }

  // The product of two residues is the remainder of their polynomial product.
  lemma ProductIsPolynomialProduct(m: Modulus, a: bv8, b: bv8)
    requires Reduced(m, a)
    ensures IsRemainder(m, Carryless(Wide(a), b), Product(m, a, b))
  {
    var q := Quotient(m, a, b);
  }

  // -------------------------------------------------------------------------
  // There is only one remainder
  // -------------------------------------------------------------------------

  // The coefficients of c that a residue of the modulus does not have.
  ghost function High(m: Modulus, c: bv16): bv16 {
    if m.Mod16? then c >> 4 else c >> 8
  }

  // Two words with the same leading bit.
  ghost predicate SameDegree(x: bv16, y: bv16) {
    x ^ y < x && x ^ y < y
  }

  lemma HighStep(m: Modulus, q: bv8, c: bv16)
    requires Half(q) != 0 && SameDegree(High(m, c), Wide(Half(q)))
    ensures SameDegree(High(m, Horner(Polynomial(m), q, c)), Wide(q))
  {
  }

  lemma HighStart(m: Modulus, q: bv8)
    requires q != 0 && Half(q) == 0
    ensures SameDegree(High(m, Horner(Polynomial(m), q, 0)), Wide(q))
  {
    assert q == 1;
  }

  lemma SameDegreeNonZero(x: bv16, y: bv16)
    ensures SameDegree(x, y) ==> x != 0
  {
  }

  // The modulus times q has the leading bit of q above the residues.
  lemma {:induction false} MultipleIsHigh(m: Modulus, q: bv8)
    requires q != 0
    ensures SameDegree(High(m, Carryless(Polynomial(m), q)), Wide(q))
    decreases q
  {
    HalfLess(q);
    hide High, Horner, Half, Wide, Polynomial, SameDegree;
    if Half(q) == 0 {
      HighStart(m, q);
    } else {
      MultipleIsHigh(m, Half(q));
      HighStep(m, q, Carryless(Polynomial(m), Half(q)));
    }
  }

  lemma ConstantOfSum(b: bv8, d: bv8)
    ensures Add(b, d) & 1 == 1 <==> (b & 1 == 1) != (d & 1 == 1)
  {
  }

  lemma AddWideZero(a: bv16)
    ensures AddWide(a, a) == 0 && AddWide(a, 0) == a && AddWide(0, a) == a
  {
  }

  lemma SelectWideAdditive(a: bv16, b: bv8, d: bv8)
    ensures SelectWide(Add(b, d), a) == AddWide(SelectWide(b, a), SelectWide(d, a))
  {
    ConstantOfSum(b, d);
    AddWideZero(a);
    AddWideZero(0);
    hide AddWide, Add;
  }

  lemma AddWideExchanges(s: bv16, t: bv16, u: bv16, v: bv16)
    ensures AddWide(AddWide(s, t), AddWide(u, v)) == AddWide(AddWide(s, u), AddWide(t, v))
  {
    hide AddWide;
    AddWideFacts(s, t, AddWide(u, v));
    AddWideFacts(t, u, v);
    AddWideCommutes(t, u);
    AddWideFacts(u, t, v);
    AddWideFacts(s, u, AddWide(t, v));
  }

  lemma HornerAdditive(a: bv16, b: bv8, d: bv8, c: bv16, e: bv16)
    ensures Horner(a, Add(b, d), AddWide(c, e)) == AddWide(Horner(a, b, c), Horner(a, d, e))
  {
    hide AddWide, SelectWide, Add, Double;
    DoubleSum(c, e);
    SelectWideAdditive(a, b, d);
    AddWideExchanges(SelectWide(b, a), SelectWide(d, a), Double(c), Double(e));
  }

  lemma {:induction false} CarrylessAdditive(a: bv16, b: bv8, d: bv8)
    ensures Carryless(a, Add(b, d)) == AddWide(Carryless(a, b), Carryless(a, d))
    decreases b as int + d as int
  {
    hide Horner, AddWide, Add, Half;
    ZerosFold(a, b, d);
    if b == 0 && d == 0 {
    } else {
      HalfSmaller(b);
      HalfSmaller(d);
      CarrylessAdditive(a, Half(b), Half(d));
      HornerAdditive(a, b, d, Carryless(a, Half(b)), Carryless(a, Half(d)));
    }
  }

  lemma ZerosFold(a: bv16, b: bv8, d: bv8)
    ensures Horner(a, 0, 0) == 0 && AddWide(0, 0) == 0 && Add(0, 0) == 0 && Half(0) == 0
    ensures Half(Add(b, d)) == Add(Half(b), Half(d))
  {
  }

  lemma HalfSmaller(b: bv8)
    ensures (Half(b) as int) <= b as int && (b != 0 ==> (Half(b) as int) < b as int)
  {
    assert Half(b) <= b;
    assert b != 0 ==> Half(b) < b;
  }

  lemma ResiduesApart(m: Modulus, c: bv16, x: bv16, y: bv16, r: bv8, t: bv8)
    requires Reduced(m, r) && Reduced(m, t) && c == AddWide(x, Wide(r)) && c == AddWide(y, Wide(t))
    ensures High(m, AddWide(x, y)) == 0
    ensures x == y ==> r == t
  {
  }

  lemma SumIsZero(q: bv8, w: bv8)
    ensures Add(q, w) == 0 ==> q == w
  {
  }

  // Being the remainder determines a residue.
  lemma RemainderUnique(m: Modulus, c: bv16, r: bv8, t: bv8)
    requires IsRemainder(m, c, r) && IsRemainder(m, c, t)
    ensures r == t
  {
    var q :| Division(m, c, q, r);
    var w :| Division(m, c, w, t);
    hide High, Wide, AddWide, Add, Polynomial, Carryless, Reduced, SameDegree;
    CarrylessAdditive(Polynomial(m), q, w);
    ResiduesApart(m, c, Carryless(Polynomial(m), q), Carryless(Polynomial(m), w), r, t);
    SumIsZero(q, w);
    if Add(q, w) != 0 {
      MultipleIsHigh(m, Add(q, w));
      SameDegreeNonZero(High(m, Carryless(Polynomial(m), Add(q, w))), Wide(Add(q, w)));
    }
  }

  // -------------------------------------------------------------------------
  // Ring laws
  // -------------------------------------------------------------------------

  lemma {:induction false} ProductAdditiveLeft(m: Modulus, a: bv8, c: bv8, b: bv8)
    ensures Product(m, Add(a, c), b) == Add(Product(m, a, b), Product(m, c, b))
    decreases b
  {
    assert Add(0, 0) == 0;
    HalfLess(b);
    hide Add, TimesX, Select, Half;
    if b == 0 {
    } else {
      ProductAdditiveLeft(m, a, c, Half(b));
      SelectAdditive(b, a, c);
      var p, q := Product(m, a, Half(b)), Product(m, c, Half(b));
      TimesXAdditive(m, p, q);
      AddExchange(Select(b, a), TimesX(m, p), Select(b, c), TimesX(m, q));
    }
  }

  lemma {:induction false} ProductTimesX(m: Modulus, a: bv8, b: bv8)
    ensures Product(m, TimesX(m, a), b) == TimesX(m, Product(m, a, b))
    decreases b
  {
    assert TimesX(m, 0) == 0;
    HalfLess(b);
    hide Add, TimesX, Select, Half;
    if b == 0 {
    } else {
      ProductTimesX(m, a, Half(b));
      SelectTimesX(m, b, a);
      TimesXAdditive(m, Select(b, a), TimesX(m, Product(m, a, Half(b))));
    }
  }

  lemma ProductZero(m: Modulus, b: bv8)
    ensures Product(m, 0, b) == 0
  {
    ProductAdditiveLeft(m, 0, 0, b);
    var p := Product(m, 0, b);
    assert p ^ p == 0;
  }

  lemma SelectProduct(m: Modulus, b: bv8, a: bv8, c: bv8)
    ensures Product(m, Select(b, a), c) == Select(b, Product(m, a, c))
  {
    ProductZero(m, c);
    SelectCases(b, a);
    SelectCases(b, Product(m, a, c));
    hide Product, Select;
  }

  // The two factors of c * a * b commute past each other.
  lemma {:induction false} ProductSwap(m: Modulus, c: bv8, a: bv8, b: bv8)
    ensures Product(m, Product(m, c, a), b) == Product(m, Product(m, c, b), a)
    decreases a
  {
    ProductZero(m, b);
    HalfLess(a);
    hide Add, TimesX, Select, Half;
    if a == 0 {
    } else {
      var p := Product(m, c, Half(a));
      var d := Product(m, c, b);
      ProductUnfold(m, c, a);
      ProductUnfold(m, d, a);
      hide Product;
      ProductSwap(m, c, Half(a), b);
      SelectProduct(m, a, c, b);
      ProductAdditiveLeft(m, Select(a, c), TimesX(m, p), b);
      ProductTimesX(m, p, b);
    }
  }

  lemma {:induction false} ProductOne(m: Modulus, b: bv8)
    requires Reduced(m, b)
    ensures Product(m, 1, b) == b
    decreases b
  {
    if b == 0 {
    } else {
      ProductOne(m, Half(b));
      assert Add(Select(b, 1), TimesX(m, Half(b))) == b;
    }
  }

  lemma Commutative(m: Modulus, a: bv8, b: bv8)
    requires Reduced(m, a) && Reduced(m, b)
    ensures Product(m, a, b) == Product(m, b, a)
  {
    ProductOne(m, a);
    ProductOne(m, b);
    ProductSwap(m, 1, a, b);
  }

  lemma ReducedProduct(m: Modulus, a: bv8, b: bv8)
    requires Reduced(m, a)
    ensures Reduced(m, Product(m, a, b))
  {
    var q := Quotient(m, a, b);
  }

  lemma Associative(m: Modulus, a: bv8, b: bv8, c: bv8)
    requires Reduced(m, a) && Reduced(m, b) && Reduced(m, c)
    ensures Product(m, Product(m, a, b), c) == Product(m, a, Product(m, b, c))
  {
    Commutative(m, a, b);
    ProductSwap(m, b, a, c);
    ReducedProduct(m, b, c);
    Commutative(m, a, Product(m, b, c));
  }

  lemma Distributive(m: Modulus, a: bv8, b: bv8, c: bv8)
    requires Reduced(m, a) && Reduced(m, b) && Reduced(m, c)
    ensures Product(m, a, Add(b, c)) == Add(Product(m, a, b), Product(m, a, c))
  {
    assert Reduced(m, Add(b, c));
    hide Add;
    ProductAdditiveLeft(m, b, c, a);
    Commutative(m, a, Add(b, c));
    Commutative(m, a, b);
    Commutative(m, a, c);
  }
}
