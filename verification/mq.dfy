// src/mq.rs: packed lower-triangular quadratic equations.
module Mq {
  import opened BaseFields
  import opened ExtensionField
  import opened LinearAlgebra

  // The number of entries of a lower-triangular matrix with r rows, which is
  // also the offset of row r in packed storage.
  function Triangle(r: nat): nat {
    if r == 0 then 0 else Triangle(r - 1) + r
  }

  lemma {:induction false} TriangleClosedForm(r: nat)
    ensures 2 * Triangle(r) == r * (r + 1)
  {
    if r == 0 {
    } else {
      TriangleClosedForm(r - 1);
    }
  }

  lemma {:induction false} TriangleMonotone(r: nat, n: nat)
    requires r <= n
    ensures Triangle(r) <= Triangle(n)
    decreases n
  {
    if r == n {
    } else {
      TriangleMonotone(r, n - 1);
    }
  }

  datatype PackedEquation = PackedEquation(quadratic: seq<Ext>, linear: seq<Ext>)

  predicate WellFormed(eq: PackedEquation) {
    |eq.quadratic| == Triangle(|eq.linear|)
  }

  // Entry (r, c) of the matrix A the equation stores.
  ghost function Entry(eq: PackedEquation, r: nat, c: nat): Ext {
    if c <= r then At(eq.quadratic, Triangle(r) + c) else ZERO
  }

  // A x
  ghost function Row(eq: PackedEquation, x: Vector, r: nat): Ext {
    Sum(|x|, (c: nat) => Mul(Entry(eq, r, c), At(x, c)))
  }

  ghost function MatrixVector(eq: PackedEquation, x: Vector): (y: Vector)
    ensures |y| == |x|
  {
    seq(|x|, r requires 0 <= r < |x| => Row(eq, x, r))
  }

  // x^T A x + b^T x
  ghost function Evaluate(eq: PackedEquation, x: Vector): Ext {
    Add(Dot(MatrixVector(eq, x), x), Dot(eq.linear, x))
  }

  ghost function LiftAll(v: seq<Gf16>): (x: Vector)
    ensures |x| == |v|
  {
    seq(|v|, i requires 0 <= i < |v| => Lift(v[i]))
  }

  // The row sum stops at the diagonal.
  lemma RowStopsAtDiagonal(eq: PackedEquation, x: Vector, r: nat)
    requires r < |x|
    ensures Row(eq, x, r) == Sum(r + 1, (c: nat) => Mul(Entry(eq, r, c), At(x, c)))
  {
    hide Mul;
    forall c: nat | r < c
      ensures Mul(Entry(eq, r, c), At(x, c)) == ZERO
    {
      MulIdentity(At(x, c));
    }
    SumTruncates(|x|, r + 1, (c: nat) => Mul(Entry(eq, r, c), At(x, c)));
  }

  // One row from its offset in packed storage.
  method ExtensionRow(eq: PackedEquation, vector: seq<Ext>, rowIndex: nat, offset: nat) returns (element: Ext)
    requires WellFormed(eq) && rowIndex < |vector| == |eq.linear| && offset == Triangle(rowIndex)
    ensures element == Row(eq, vector, rowIndex)
  {
    hide Mul, Add;
    TriangleMonotone(rowIndex + 1, |vector|);
    ghost var f := (c: nat) => Mul(Entry(eq, rowIndex, c), At(vector, c));
    element := ZERO;
    for column := 0 to rowIndex + 1
      invariant element == Sum(column, f)
    {
      var term := Multiply(eq.quadratic[offset + column], vector[column]);
      element := Add(element, term);
    }
    RowStopsAtDiagonal(eq, vector, rowIndex);
  }

  method MultiplyExtension(eq: PackedEquation, vector: seq<Ext>) returns (product: seq<Ext>)
    requires WellFormed(eq) && |vector| == |eq.linear|
    ensures product == MatrixVector(eq, vector)
  {
    hide Row;
    var n := |vector|;
    var output := new Ext[n](_ => ZERO);
    var offset := 0;
    for rowIndex := 0 to n
      invariant offset == Triangle(rowIndex)
      invariant forall r :: 0 <= r < rowIndex ==> output[r] == Row(eq, vector, r)
    {
      output[rowIndex] := ExtensionRow(eq, vector, rowIndex, offset);
      offset := offset + rowIndex + 1;
    }
    product := output[..];
  }

  method BaseRow(eq: PackedEquation, vector: seq<Gf16>, rowIndex: nat, offset: nat) returns (element: Ext)
    requires WellFormed(eq) && rowIndex < |vector| == |eq.linear| && offset == Triangle(rowIndex)
    ensures element == Row(eq, LiftAll(vector), rowIndex)
  {
    hide Mul, Add, Lift;
    TriangleMonotone(rowIndex + 1, |vector|);
    ghost var x := LiftAll(vector);
    ghost var f := (c: nat) => Mul(Entry(eq, rowIndex, c), At(x, c));
    element := ZERO;
    for column := 0 to rowIndex + 1
      invariant element == Sum(column, f)
    {
      var term := MultiplyBaseScalar(vector[column], eq.quadratic[offset + column]);
      element := Add(element, term);
      MulCommutes(Lift(vector[column]), eq.quadratic[offset + column]);
    }
    RowStopsAtDiagonal(eq, x, rowIndex);
  }

  method MultiplyBase(eq: PackedEquation, vector: seq<Gf16>) returns (product: seq<Ext>)
    requires WellFormed(eq) && |vector| == |eq.linear|
    ensures product == MatrixVector(eq, LiftAll(vector))
  {
    hide Row;
    var n := |vector|;
    var output := new Ext[n](_ => ZERO);
    var offset := 0;
    for rowIndex := 0 to n
      invariant offset == Triangle(rowIndex)
      invariant forall r :: 0 <= r < rowIndex ==> output[r] == Row(eq, LiftAll(vector), r)
    {
      output[rowIndex] := BaseRow(eq, vector, rowIndex, offset);
      offset := offset + rowIndex + 1;
    }
    product := output[..];
  }

  method EvaluateBase(eq: PackedEquation, vector: seq<Gf16>) returns (result: Ext)
    requires WellFormed(eq) && |vector| == |eq.linear|
    ensures result == Evaluate(eq, LiftAll(vector))
  {
    hide Mul, Add, Lift, MatrixVector;
    ghost var x := LiftAll(vector);
    ghost var y := MatrixVector(eq, x);
    var matrixProduct := MultiplyBase(eq, vector);
    result := ZERO;
    ghost var f := DotTerms(y, x);
    ghost var g := DotTerms(eq.linear, x);
    AddIdentity(ZERO);
    for i := 0 to |vector|
      invariant result == Add(Sum(i, f), Sum(i, g))
    {
      var quadraticTerm := MultiplyBaseScalar(vector[i], matrixProduct[i]);
      result := Add(result, quadraticTerm);
      var linearTerm := MultiplyBaseScalar(vector[i], eq.linear[i]);
      result := Add(result, linearTerm);
      MulCommutes(x[i], y[i]);
      MulCommutes(x[i], eq.linear[i]);
      AddAssociates(Add(Sum(i, f), Sum(i, g)), f(i), g(i));
      AddExchanges(Sum(i, f), Sum(i, g), f(i), g(i));
    }
  }

  // -------------------------------------------------------------------------
  // What the products mean
  // -------------------------------------------------------------------------

  // A (x + c y) = A x + c A y
  lemma MatrixVectorLinear(eq: PackedEquation, x: Vector, c: Ext, y: Vector)
    requires |x| == |y|
    ensures MatrixVector(eq, VectorAdd(x, VectorScale(c, y))) ==
      VectorAdd(MatrixVector(eq, x), VectorScale(c, MatrixVector(eq, y)))
  {
    hide Mul, Add;
    var n := |x|;
    var z := VectorAdd(x, VectorScale(c, y));
    forall r: nat | r < n
      ensures Row(eq, z, r) == Add(Row(eq, x, r), Mul(c, Row(eq, y, r)))
    {
      RowLinear(eq, x, c, y, r);
    }
    assert MatrixVector(eq, z) == VectorAdd(MatrixVector(eq, x), VectorScale(c, MatrixVector(eq, y)));
  }

  lemma RowLinear(eq: PackedEquation, x: Vector, c: Ext, y: Vector, r: nat)
    requires |x| == |y|
    ensures Row(eq, VectorAdd(x, VectorScale(c, y)), r) == Add(Row(eq, x, r), Mul(c, Row(eq, y, r)))
  {
    hide Mul, Add, Entry;
    var n := |x|;
    var z := VectorAdd(x, VectorScale(c, y));
    var f := (k: nat) => Mul(Entry(eq, r, k), At(x, k));
    var g := (k: nat) => Mul(Entry(eq, r, k), At(y, k));
    var cg := (k: nat) => Mul(c, g(k));
    forall k: nat | k < n
      ensures Mul(Entry(eq, r, k), At(z, k)) == Add(f(k), cg(k))
    {
      var e := Entry(eq, r, k);
      MulDistributes(e, x[k], Mul(c, y[k]));
      MulAssociates(e, c, y[k]);
      MulCommutes(e, c);
      MulAssociates(c, e, y[k]);
    }
    SumScale(n, c, g, cg);
    SumAdd(n, f, cg, (k: nat) => Mul(Entry(eq, r, k), At(z, k)));
  }

  // The quadratic form as a double sum over the entries.
  lemma EvaluateIsDoubleSum(eq: PackedEquation, x: Vector)
    ensures Evaluate(eq, x) ==
      Add(Sum(|x|, (r: nat) => Sum(|x|, (c: nat) => Mul(At(x, r), Mul(Entry(eq, r, c), At(x, c))))), Dot(eq.linear, x))
  {
    hide Mul, Add, Entry;
    var n, y := |x|, MatrixVector(eq, x);
    forall r: nat | r < n
      ensures Mul(At(y, r), At(x, r)) == Sum(n, (c: nat) => Mul(At(x, r), Mul(Entry(eq, r, c), At(x, c))))
    {
      MulCommutes(At(y, r), At(x, r));
      SumScale(n, At(x, r), (c: nat) => Mul(Entry(eq, r, c), At(x, c)),
        (c: nat) => Mul(At(x, r), Mul(Entry(eq, r, c), At(x, c))));
    }
    SumsEqual(n, DotTerms(y, x), (r: nat) => Sum(n, (c: nat) => Mul(At(x, r), Mul(Entry(eq, r, c), At(x, c)))));
  }

  // On the unit vector at c, row r of the product is the coefficient stored at
  // r(r+1)/2 + c, and zero above the diagonal. With linearity this fixes the product.
  lemma ProductOfUnit(eq: PackedEquation, c: nat, r: nat)
    requires WellFormed(eq) && c < |eq.linear| && r < |eq.linear|
    ensures c <= r ==> r * (r + 1) / 2 + c < |eq.quadratic|
    ensures MatrixVector(eq, Unit(|eq.linear|, c))[r] == if c <= r then eq.quadratic[r * (r + 1) / 2 + c] else ZERO
  {
    var n := |eq.linear|;
    var u := Unit(n, c);
    var f := (k: nat) => Mul(Entry(eq, r, k), At(u, k));
    hide Mul, Triangle;
    forall k: nat | k < n
      ensures f(k) == if k == c then Entry(eq, r, c) else ZERO
    {
      MulIdentity(Entry(eq, r, k));
    }
    SumSingle(n, c, f);
    if c <= r {
      RowOffset(eq, r, c);
    }
  }

  lemma RowOffset(eq: PackedEquation, r: nat, c: nat)
    requires WellFormed(eq) && c <= r < |eq.linear|
    ensures Triangle(r) == r * (r + 1) / 2 && Triangle(r) + c < |eq.quadratic|
  {
    TriangleClosedForm(r);
    TriangleMonotone(r + 1, |eq.linear|);
  }
}
