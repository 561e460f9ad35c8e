// The relation between signer and verifier: on the line x0 + p * x the
// homogenised public system is a quadratic in p. The signer sends its degree-1
// coefficient, the verifier evaluates it at one p and cancels degree 2 with the
// public output (src/sign.rs, compute_alpha; src/verify.rs, recompute_alpha_zero).
module Polynomial {
  import opened ExtensionField
  import opened ExtensionInverse
  import opened LinearAlgebra
  import opened Mq

  // (A x + p b)^T x + p^2 y: the equation x^T A x + b^T x + y made homogeneous.
  ghost function Homogenised(eq: PackedEquation, y: Ext, x: Vector, p: Ext): Ext
    requires |x| == |eq.linear|
  {
    Add(Dot(VectorAdd(MatrixVector(eq, x), VectorScale(p, eq.linear)), x), Mul(Mul(p, p), y))
  }

  // A s + b
  ghost function SlopeRow(eq: PackedEquation, secret: Vector): (t: Vector)
    requires |secret| == |eq.linear|
    ensures |t| == |secret|
  {
    VectorAdd(MatrixVector(eq, secret), eq.linear)
  }

  // Degree 0 and degree 1 of the homogenised equation on x0 + p * secret.
  ghost function DegreeZero(eq: PackedEquation, x0: Vector): Ext {
    Dot(MatrixVector(eq, x0), x0)
  }

  ghost function DegreeOne(eq: PackedEquation, x0: Vector, secret: Vector): Ext
    requires |x0| == |secret| == |eq.linear|
  {
    Add(Dot(MatrixVector(eq, x0), secret), Dot(SlopeRow(eq, secret), x0))
  }

  // The equation at the secret point: zero when y is its output there.
  ghost function Residual(eq: PackedEquation, y: Ext, secret: Vector): Ext {
    Add(Evaluate(eq, secret), y)
  }

  ghost function Line(x0: Vector, p: Ext, slope: Vector): (x: Vector)
    requires |x0| == |slope|
    ensures |x| == |x0|
  {
    VectorAdd(x0, VectorScale(p, slope))
  }

  // -------------------------------------------------------------------------
  // One equation
  // -------------------------------------------------------------------------

  // A (x0 + p s) + p b = A x0 + p (A s + b)
  lemma RowOnLine(eq: PackedEquation, x0: Vector, p: Ext, secret: Vector)
    requires |x0| == |secret| == |eq.linear|
    ensures VectorAdd(MatrixVector(eq, Line(x0, p, secret)), VectorScale(p, eq.linear)) ==
      Line(MatrixVector(eq, x0), p, SlopeRow(eq, secret))
  {
    hide Mul, Add, Row;
    MatrixVectorLinear(eq, x0, p, secret);
    var a, m, b := MatrixVector(eq, x0), MatrixVector(eq, secret), eq.linear;
    forall i: nat | i < |x0|
      ensures Add(Add(a[i], Mul(p, m[i])), Mul(p, b[i])) == Add(a[i], Mul(p, Add(m[i], b[i])))
    {
      MulDistributes(p, m[i], b[i]);
      AddAssociates(a[i], Mul(p, m[i]), Mul(p, b[i]));
    }
    assert VectorAdd(VectorAdd(a, VectorScale(p, m)), VectorScale(p, b)) == Line(a, p, SlopeRow(eq, secret));
  }

  // (t0 + p t1)^T (x0 + p s) as a polynomial in p.
  lemma ProductOfLines(t0: Vector, t1: Vector, x0: Vector, s: Vector, p: Ext)
    requires |t0| == |t1| == |x0| == |s|
    ensures Dot(Line(t0, p, t1), Line(x0, p, s)) ==
      Add(Add(Dot(t0, x0), Mul(p, Add(Dot(t0, s), Dot(t1, x0)))), Mul(Mul(p, p), Dot(t1, s)))
  {
    DotLinear(t0, p, t1, Line(x0, p, s));
    DotLinear(x0, p, s, t0);
    DotLinear(x0, p, s, t1);
    hide Dot, Mul, Add, VectorAdd, VectorScale;
    Expand(Dot(t0, x0), Dot(t0, s), Dot(t1, x0), Dot(t1, s), p);
  }

  // (a + p b) + p (c + p d) = a + p (b + c) + p^2 d
  lemma Expand(a: Ext, b: Ext, c: Ext, d: Ext, p: Ext)
    ensures Add(Add(a, Mul(p, b)), Mul(p, Add(c, Mul(p, d)))) == Add(Add(a, Mul(p, Add(b, c))), Mul(Mul(p, p), d))
  {
    hide Mul, Add;
    MulDistributes(p, c, Mul(p, d));
    MulAssociates(p, p, d);
    MulDistributes(p, b, c);
    AddAssociates(Add(a, Mul(p, b)), Mul(p, c), Mul(Mul(p, p), d));
    AddAssociates(a, Mul(p, b), Mul(p, c));
  }

  // On the line the homogenised equation has the signer's coefficients and the
  // residual in degree 2.
  lemma HomogenisedOnLine(eq: PackedEquation, y: Ext, x0: Vector, secret: Vector, p: Ext)
    requires |x0| == |secret| == |eq.linear|
    ensures Homogenised(eq, y, Line(x0, p, secret), p) ==
      Add(Add(DegreeZero(eq, x0), Mul(p, DegreeOne(eq, x0, secret))), Mul(Mul(p, p), Residual(eq, y, secret)))
  {
    var t0, t1 := MatrixVector(eq, x0), SlopeRow(eq, secret);
    RowOnLine(eq, x0, p, secret);
    ProductOfLines(t0, t1, x0, secret, p);
    DotAddLeft(MatrixVector(eq, secret), eq.linear, secret);
    hide Dot, Mul, Add, MatrixVector, Line;
    var lower, pp := Add(DegreeZero(eq, x0), Mul(p, DegreeOne(eq, x0, secret))), Mul(p, p);
    MulDistributes(pp, Evaluate(eq, secret), y);
    AddAssociates(lower, Mul(pp, Evaluate(eq, secret)), Mul(pp, y));
  }

  // -------------------------------------------------------------------------
  // The batched system
  // -------------------------------------------------------------------------

  ghost predicate System(equations: seq<PackedEquation>, n: nat) {
    forall i :: 0 <= i < |equations| ==> |equations[i].linear| == n
  }

  ghost function DegreeZeros(equations: seq<PackedEquation>, x0: Vector): (z: Vector)
    ensures |z| == |equations|
  {
    seq(|equations|, i requires 0 <= i < |equations| => DegreeZero(equations[i], x0))
  }

  ghost function DegreeOnes(equations: seq<PackedEquation>, x0: Vector, secret: Vector): (z: Vector)
    requires System(equations, |x0|) && |x0| == |secret|
    ensures |z| == |equations|
  {
    seq(|equations|, i requires 0 <= i < |equations| => DegreeOne(equations[i], x0, secret))
  }

  ghost function Residuals(equations: seq<PackedEquation>, outputs: Vector, secret: Vector): (z: Vector)
    requires |outputs| == |equations|
    ensures |z| == |equations|
  {
    seq(|equations|, i requires 0 <= i < |equations| => Residual(equations[i], outputs[i], secret))
  }

  ghost function HomogenisedAll(equations: seq<PackedEquation>, outputs: Vector, x: Vector, p: Ext): (z: Vector)
    requires System(equations, |x|) && |outputs| == |equations|
    ensures |z| == |equations|
  {
    seq(|equations|, i requires 0 <= i < |equations| => Homogenised(equations[i], outputs[i], x, p))
  }

  // The signer's two coefficients, masked by the line u0 + p * u1.
  ghost function AlphaZero(equations: seq<PackedEquation>, batching: Vector, x0: Vector, u0: Ext): Ext {
    Add(u0, Dot(batching, DegreeZeros(equations, x0)))
  }

  ghost function AlphaOne(equations: seq<PackedEquation>, batching: Vector, x0: Vector, secret: Vector, u1: Ext): Ext
    requires System(equations, |x0|) && |x0| == |secret|
  {
    Add(u1, Dot(batching, DegreeOnes(equations, x0, secret)))
  }

  // What the verifier computes at point p from the opened x and u.
  ghost function RecomputedAlphaZero(equations: seq<PackedEquation>, batching: Vector, outputs: Vector, x: Vector,
                                     u: Ext, p: Ext, alphaOne: Ext): Ext
    requires System(equations, |x|) && |outputs| == |equations|
  {
    Add(Add(u, Dot(batching, HomogenisedAll(equations, outputs, x, p))), Mul(p, alphaOne))
  }

  ghost function BatchedResidual(equations: seq<PackedEquation>, batching: Vector, outputs: Vector, secret: Vector): Ext
    requires |outputs| == |equations|
  {
    Dot(batching, Residuals(equations, outputs, secret))
  }

  lemma HomogenisedAllOnLine(equations: seq<PackedEquation>, outputs: Vector, x0: Vector, secret: Vector, p: Ext)
    requires System(equations, |x0|) && |x0| == |secret| && |outputs| == |equations|
    ensures HomogenisedAll(equations, outputs, Line(x0, p, secret), p) ==
      Line(Line(DegreeZeros(equations, x0), p, DegreeOnes(equations, x0, secret)), Mul(p, p),
        Residuals(equations, outputs, secret))
  {
    hide Mul, Add, Homogenised, DegreeZero, DegreeOne, Residual;
    forall i: nat | i < |equations|
      ensures Homogenised(equations[i], outputs[i], Line(x0, p, secret), p) ==
        Add(Add(DegreeZero(equations[i], x0), Mul(p, DegreeOne(equations[i], x0, secret))),
          Mul(Mul(p, p), Residual(equations[i], outputs[i], secret)))
    {
      HomogenisedOnLine(equations[i], outputs[i], x0, secret, p);
    }
  }

  // The recomputed value differs from the signer's by p^2 times the batched residual.
  lemma ExactDiscrepancy(equations: seq<PackedEquation>, batching: Vector, outputs: Vector, x0: Vector, secret: Vector,
                         u0: Ext, u1: Ext, p: Ext)
    requires System(equations, |x0|) && |x0| == |secret| && |outputs| == |batching| == |equations|
    ensures RecomputedAlphaZero(equations, batching, outputs, Line(x0, p, secret), Add(u0, Mul(p, u1)), p,
      AlphaOne(equations, batching, x0, secret, u1))
      == Add(AlphaZero(equations, batching, x0, u0),
        Mul(Mul(p, p), BatchedResidual(equations, batching, outputs, secret)))
  {
    var z0, z1, r := DegreeZeros(equations, x0), DegreeOnes(equations, x0, secret),
      Residuals(equations, outputs, secret);
    HomogenisedAllOnLine(equations, outputs, x0, secret, p);
    DotLinear(Line(z0, p, z1), Mul(p, p), r, batching);
    DotLinear(z0, p, z1, batching);
    hide Mul, Add, Dot, DegreeZeros, DegreeOnes, Residuals, HomogenisedAll, VectorAdd, VectorScale;
    Cancellation(u0, u1, Dot(batching, z0), Dot(batching, z1), Mul(Mul(p, p), Dot(batching, r)), p);
  }

  // ((u0 + p u1) + ((a + p b) + c)) + p (u1 + b) = (u0 + a) + c
  lemma Cancellation(u0: Ext, u1: Ext, a: Ext, b: Ext, c: Ext, p: Ext)
    ensures Add(Add(Add(u0, Mul(p, u1)), Add(Add(a, Mul(p, b)), c)), Mul(p, Add(u1, b))) == Add(Add(u0, a), c)
  {
    hide Mul, Add;
    var pu, pb := Mul(p, u1), Mul(p, b);
    MulDistributes(p, u1, b);
    AddAssociates(Add(u0, pu), Add(a, pb), c);
    AddExchanges(u0, pu, a, pb);
    var k, d := Add(u0, a), Add(pu, pb);
    // (k + d) + c + d
    AddAssociates(Add(k, d), c, d);
    AddCommutes(c, d);
    AddAssociates(Add(k, d), d, c);
    AddCancels(k, d);
  }

  // Signer and verifier agree exactly when the point or the batched residual is zero.
  lemma AgreementCondition(equations: seq<PackedEquation>, batching: Vector, outputs: Vector, x0: Vector,
                           secret: Vector, u0: Ext, u1: Ext, p: Ext)
    requires System(equations, |x0|) && |x0| == |secret| && |outputs| == |batching| == |equations|
    ensures RecomputedAlphaZero(equations, batching, outputs, Line(x0, p, secret), Add(u0, Mul(p, u1)), p,
      AlphaOne(equations, batching, x0, secret, u1))
         == AlphaZero(equations, batching, x0, u0)
       <==> p == ZERO || BatchedResidual(equations, batching, outputs, secret) == ZERO
  {
    ExactDiscrepancy(equations, batching, outputs, x0, secret, u0, u1, p);
    var a, r := AlphaZero(equations, batching, x0, u0), BatchedResidual(equations, batching, outputs, secret);
    var d := Mul(Mul(p, p), r);
    ZeroProduct(Mul(p, p), r);
    ZeroProduct(p, p);
    AddIdentity(a);
    AddCancels(a, d);
    AddIdentity(d);
    hide Mul, Add, AlphaZero, BatchedResidual, RecomputedAlphaZero;
  }

  // When every output is its equation at the secret, the residuals vanish.
  lemma ConsistentResidual(equations: seq<PackedEquation>, batching: Vector, outputs: Vector, secret: Vector)
    requires |outputs| == |batching| == |equations|
    requires forall i :: 0 <= i < |equations| ==> outputs[i] == Evaluate(equations[i], secret)
    ensures BatchedResidual(equations, batching, outputs, secret) == ZERO
  {
    var r := Residuals(equations, outputs, secret);
    hide Mul, Add, Evaluate;
    forall i: nat | i < |batching|
      ensures DotTerms(batching, r)(i) == ZERO
    {
      AddIdentity(outputs[i]);
      MulIdentity(batching[i]);
    }
    SumOfZeros(|batching|, DotTerms(batching, r));
  }

  // -------------------------------------------------------------------------
  // What the coefficients are made of
  // -------------------------------------------------------------------------

  // x^T A x + p b^T x + p^2 y
  lemma HomogenisedExpanded(eq: PackedEquation, y: Ext, x: Vector, p: Ext)
    requires |x| == |eq.linear|
    ensures Homogenised(eq, y, x, p) ==
      Add(Add(Dot(MatrixVector(eq, x), x), Mul(p, Dot(eq.linear, x))), Mul(Mul(p, p), y))
  {
    DotAddLeft(MatrixVector(eq, x), VectorScale(p, eq.linear), x);
    DotScaleLeft(p, eq.linear, x);
    hide Dot, Mul, Add, MatrixVector, VectorAdd, VectorScale;
  }

  // Whatever is added to a mask is added to the coefficient it masks.
  lemma MasksEnter(equations: seq<PackedEquation>, batching: Vector, outputs: Vector, x: Vector, secret: Vector, u: Ext,
                   d: Ext, p: Ext, alphaOne: Ext)
    requires System(equations, |x|) && |x| == |secret| && |outputs| == |equations|
    ensures AlphaZero(equations, batching, x, Add(u, d)) == Add(AlphaZero(equations, batching, x, u), d)
    ensures AlphaOne(equations, batching, x, secret, Add(u, d)) == Add(AlphaOne(equations, batching, x, secret, u), d)
    ensures RecomputedAlphaZero(equations, batching, outputs, x, Add(u, d), p, alphaOne)
         == Add(RecomputedAlphaZero(equations, batching, outputs, x, u, p, alphaOne), d)
  {
    hide Add, Mul, Dot, DegreeZeros, DegreeOnes, HomogenisedAll;
    AddedLast(u, d, Dot(batching, DegreeZeros(equations, x)));
    AddedLast(u, d, Dot(batching, DegreeOnes(equations, x, secret)));
    var h := Dot(batching, HomogenisedAll(equations, outputs, x, p));
    AddedLast(u, d, h);
    AddedLast(Add(u, h), d, Mul(p, alphaOne));
  }

  lemma AddedLast(u: Ext, d: Ext, z: Ext)
    ensures Add(Add(u, d), z) == Add(Add(u, z), d)
  {
    hide Add;
    AddAssociates(u, d, z);
    AddCommutes(d, z);
    AddAssociates(u, z, d);
  }

  // A batching row with one coefficient selects its equation.
  lemma BatchingSelects(equations: seq<PackedEquation>, i: nat, outputs: Vector, x: Vector, secret: Vector, p: Ext)
    requires System(equations, |x|) && |x| == |secret| && |outputs| == |equations| && i < |equations|
    ensures var unit := Unit(|equations|, i);
      && AlphaZero(equations, unit, x, ZERO) == DegreeZero(equations[i], x)
      && AlphaOne(equations, unit, x, secret, ZERO) == DegreeOne(equations[i], x, secret)
      && BatchedResidual(equations, unit, outputs, secret) == Residual(equations[i], outputs[i], secret)
      && RecomputedAlphaZero(equations, unit, outputs, x, ZERO, p, ZERO) == Homogenised(equations[i], outputs[i], x, p)
  {
    hide Add, Mul, Dot, DegreeZero, DegreeOne, Residual, Homogenised, Unit;
    var n := |equations|;
    DotUnit(DegreeZeros(equations, x), i);
    DotUnit(DegreeOnes(equations, x, secret), i);
    DotUnit(Residuals(equations, outputs, secret), i);
    DotUnit(HomogenisedAll(equations, outputs, x, p), i);
    AddIdentity(DegreeZero(equations[i], x));
    AddIdentity(DegreeOne(equations[i], x, secret));
    AddIdentity(Homogenised(equations[i], outputs[i], x, p));
    MulIdentity(p);
  }
}
