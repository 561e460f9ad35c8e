// src/sign.rs, compute_alpha, and src/verify.rs, recompute_alpha_zero.
module Alpha {
  import opened Words
  import opened ByteStrings
  import opened BaseFields
  import opened ExtensionField
  import opened LinearAlgebra
  import opened Mq
  import opened Params
  import opened Prg
  import opened Gray
  import opened Fold
  import opened Keygen
  import opened Polynomial

  // -------------------------------------------------------------------------
  // The batching coefficients and the equations
  // -------------------------------------------------------------------------

  function BatchingStream(p: Primitives, s: Profile, firstCommitment: Bytes): (b: Bytes)
    ensures |b| == s.repetitions * (2 * s.equations)
  {
    Xof(p, [0x08] + firstCommitment, s.repetitions * (2 * s.equations))
  }

  ghost function BatchingChunk(p: Primitives, s: Profile, firstCommitment: Bytes, j: nat): (b: Bytes)
    requires j < s.repetitions
    ensures |b| == 2 * s.equations
  {
    PieceSized(BatchingStream(p, s, firstCommitment), s.repetitions, 2 * s.equations, j);
    Piece(BatchingStream(p, s, firstCommitment), 2 * s.equations, j)
  }

  // Row j of the batching matrix.
  ghost function Batching(p: Primitives, s: Profile, firstCommitment: Bytes, j: nat): (row: Vector)
    requires j < s.repetitions
    ensures |row| == s.equations
  {
    var chunk := BatchingChunk(p, s, firstCommitment, j);
    seq(s.equations, i requires 0 <= i < s.equations => Element(chunk, i))
  }

  method ParseBatching(p: Primitives, s: Profile, firstCommitment: Bytes) returns (rows: seq<seq<Ext>>)
    ensures |rows| == s.repetitions
    ensures forall j: nat :: j < s.repetitions ==> rows[j] == Batching(p, s, firstCommitment, j)
  {
    hide Batching, Piece, BatchingChunk, BatchingStream;
    var batchingStream := BatchingStream(p, s, firstCommitment);
    rows := [];
    for j := 0 to s.repetitions
      invariant |rows| == j
      invariant forall k: nat :: k < j ==> rows[k] == Batching(p, s, firstCommitment, k)
    {
      ChunkIsPiece(p, s, firstCommitment, j);
      var row := ParseExtensionVector(Piece(batchingStream, 2 * s.equations, j), s.equations);
      BatchingParsed(p, s, firstCommitment, j, row.value);
      rows := rows + [row.value];
    }
  }

  lemma ChunkIsPiece(p: Primitives, s: Profile, firstCommitment: Bytes, j: nat)
    requires j < s.repetitions
    ensures BatchingChunk(p, s, firstCommitment, j) == Piece(BatchingStream(p, s, firstCommitment), 2 * s.equations, j)
  {
    hide BatchingStream;
  }

  lemma BatchingParsed(p: Primitives, s: Profile, firstCommitment: Bytes, j: nat, row: seq<Ext>)
    requires j < s.repetitions && |row| == s.equations
    requires ParseExtensionVector(BatchingChunk(p, s, firstCommitment, j), s.equations) == Some(row)
    ensures row == Batching(p, s, firstCommitment, j)
  {
    hide BatchingChunk;
  }

  ghost function Equations(p: Primitives, s: Profile, masterSeed: Bytes): (eqs: seq<PackedEquation>)
    ensures |eqs| == s.equations && System(eqs, s.variables)
    ensures forall i :: 0 <= i < s.equations ==> WellFormed(eqs[i])
  {
    seq(s.equations, i requires 0 <= i < s.equations => Equation(p, s, masterSeed, i))
  }

  method ExpandEquations(p: Primitives, s: Profile, masterSeed: Bytes) returns (equations: seq<PackedEquation>)
    ensures equations == Equations(p, s, masterSeed)
  {
    hide Equation;
    equations := [];
    for index := 0 to s.equations
      invariant |equations| == index
      invariant forall i: nat :: i < index ==> equations[i] == Equation(p, s, masterSeed, i)
    {
      var equation := ExpandEquation(p, s, masterSeed, index);
      equations := equations + [equation.value];
    }
  }

  // -------------------------------------------------------------------------
  // The signer
  // -------------------------------------------------------------------------

  // t_one: A s + b for every equation.
  method SlopeRows(s: Profile, equations: seq<PackedEquation>, secret: seq<Gf16>) returns (tOne: seq<seq<Ext>>)
    requires System(equations, s.variables) && forall i :: 0 <= i < |equations| ==> WellFormed(equations[i])
    requires |secret| == s.variables
    ensures |tOne| == |equations|
    ensures forall i: nat :: i < |equations| ==> tOne[i] == SlopeRow(equations[i], LiftAll(secret))
  {
    hide MatrixVector, Add, LiftAll;
    tOne := [];
    for i := 0 to |equations|
      invariant |tOne| == i
      invariant forall k: nat :: k < i ==> tOne[k] == SlopeRow(equations[k], LiftAll(secret))
    {
      var product := MultiplyBase(equations[i], secret);
      var value := new Ext[s.variables](k requires 0 <= k < s.variables => product[k]);
      for k := 0 to s.variables
        invariant forall r :: 0 <= r < k ==> value[r] == Add(product[r], equations[i].linear[r])
        invariant forall r :: k <= r < s.variables ==> value[r] == product[r]
      {
        value[k] := Add(value[k], equations[i].linear[k]);
      }
      assert value[..] == SlopeRow(equations[i], LiftAll(secret));
      tOne := tOne + [value[..]];
    }
  }

  // z_zero and z_one of one equation.
  method Coefficients(s: Profile, equation: PackedEquation, tOne: seq<Ext>, secret: seq<Gf16>, x0: seq<Ext>)
    returns (zZero: Ext, zOne: Ext)
    requires WellFormed(equation) && |equation.linear| == |secret| == |x0| == s.variables
    requires tOne == SlopeRow(equation, LiftAll(secret))
    ensures zZero == DegreeZero(equation, x0)
    ensures zOne == DegreeOne(equation, x0, LiftAll(secret))
  {
    hide MatrixVector, Add, Mul, Lift;
    var tZero := MultiplyExtension(equation, x0);
    ghost var x := LiftAll(secret);
    zZero, zOne := ZERO, ZERO;
    for k := 0 to s.variables
      invariant zZero == Sum(k, DotTerms(tZero, x0))
      invariant zOne == Sum(k, DotTerms(tZero, x))
    {
      var zeroTerm := Multiply(tZero[k], x0[k]);
      zZero := Add(zZero, zeroTerm);
      var oneTerm := MultiplyBaseScalar(secret[k], tZero[k]);
      MulCommutes(tZero[k], x[k]);
      zOne := Add(zOne, oneTerm);
    }
    ghost var half := zOne;
    AddIdentity(half);
    for k := 0 to s.variables
      invariant zOne == Add(half, Sum(k, DotTerms(tOne, x0)))
    {
      var term := Multiply(tOne[k], x0[k]);
      AddAssociates(half, Sum(k, DotTerms(tOne, x0)), term);
      zOne := Add(zOne, term);
    }
  }

  // start += sum of batching[i] * z[i]
  method AddBatched(start: Ext, batching: seq<Ext>, z: seq<Ext>) returns (value: Ext)
    requires |batching| == |z|
    ensures value == Add(start, Dot(batching, z))
  {
    hide Add, Mul;
    value := start;
    AddIdentity(start);
    for i := 0 to |z|
      invariant value == Add(start, Sum(i, DotTerms(batching, z)))
    {
      var term := Multiply(batching[i], z[i]);
      AddAssociates(start, Sum(i, DotTerms(batching, z)), term);
      value := Add(value, term);
    }
  }

  method AlphaExecution(s: Profile, equations: seq<PackedEquation>, tOne: seq<seq<Ext>>, batching: seq<seq<Ext>>,
                        secret: seq<Gf16>, x0: seq<Ext>, uZero: seq<Ext>, uOne: seq<Ext>)
    returns (alphaZero: seq<Ext>, alphaOne: seq<Ext>)
    requires System(equations, s.variables) && forall i :: 0 <= i < |equations| ==> WellFormed(equations[i])
    requires |secret| == |x0| == s.variables && |batching| == |uZero| == |uOne| == s.repetitions
    requires forall j :: 0 <= j < s.repetitions ==> |batching[j]| == |equations|
    requires |tOne| == |equations| && forall i: nat :: i < |equations| ==>
      tOne[i] == SlopeRow(equations[i], LiftAll(secret))
    ensures |alphaZero| == |alphaOne| == s.repetitions
    ensures forall j: nat :: j < s.repetitions ==> alphaZero[j] == AlphaZero(equations, batching[j], x0, uZero[j])
    ensures forall j: nat :: j < s.repetitions ==>
      alphaOne[j] == AlphaOne(equations, batching[j], x0, LiftAll(secret), uOne[j])
  {
    hide Add, DegreeZero, DegreeOne, SlopeRow, Dot, LiftAll;
    var m := |equations|;
    var zZero: seq<Ext>, zOne: seq<Ext> := [], [];
    for i := 0 to m
      invariant |zZero| == |zOne| == i
      invariant forall k: nat :: k < i ==>
        zZero[k] == DegreeZero(equations[k], x0) && zOne[k] == DegreeOne(equations[k], x0, LiftAll(secret))
    {
      var z0, z1 := Coefficients(s, equations[i], tOne[i], secret, x0);
      zZero, zOne := zZero + [z0], zOne + [z1];
    }
    assert zZero == DegreeZeros(equations, x0);
    assert zOne == DegreeOnes(equations, x0, LiftAll(secret));
    alphaZero, alphaOne := [], [];
    for component := 0 to s.repetitions
      invariant |alphaZero| == |alphaOne| == component
      invariant forall j: nat :: j < component ==> alphaZero[j] == AlphaZero(equations, batching[j], x0, uZero[j])
      invariant forall j: nat :: j < component ==>
        alphaOne[j] == AlphaOne(equations, batching[j], x0, LiftAll(secret), uOne[j])
    {
      var zero := AddBatched(uZero[component], batching[component], zZero);
      var one := AddBatched(uOne[component], batching[component], zOne);
      alphaZero, alphaOne := alphaZero + [zero], alphaOne + [one];
    }
  }

  // What compute_alpha returns for execution e and component j.
  ghost predicate AlphasFor(p: Primitives, s: Profile, firstCommitment: Bytes, masterSeed: Bytes, secret: seq<Gf16>,
                            x0: seq<Ext>, uZero: seq<Ext>, uOne: seq<Ext>, alphaZero: seq<Ext>, alphaOne: seq<Ext>)
    requires |secret| == |x0| == s.variables && |uZero| == |uOne| == s.repetitions
  {
    && |alphaZero| == |alphaOne| == s.repetitions
    && forall j: nat :: j < s.repetitions ==>
      && alphaZero[j] == AlphaZero(Equations(p, s, masterSeed), Batching(p, s, firstCommitment, j), x0, uZero[j])
      && alphaOne[j] == AlphaOne(Equations(p, s, masterSeed), Batching(p, s, firstCommitment, j), x0, LiftAll(secret),
        uOne[j])
  }

  method ComputeAlpha(p: Primitives, s: Profile, firstCommitment: Bytes, xZero: seq<seq<Ext>>, uZero: seq<seq<Ext>>,
                      uOne: seq<seq<Ext>>, secret: seq<Gf16>, masterSeed: Bytes)
    returns (alphaZero: seq<seq<Ext>>, alphaOne: seq<seq<Ext>>)
    requires |secret| == s.variables && |xZero| == |uZero| == |uOne| == s.executions
    requires forall e :: 0 <= e < s.executions ==> |xZero[e]| == s.variables && |uZero[e]| == |uOne[e]| == s.repetitions
    ensures |alphaZero| == |alphaOne| == s.executions
    ensures forall e: nat :: e < s.executions ==>
      AlphasFor(p, s, firstCommitment, masterSeed, secret, xZero[e], uZero[e], uOne[e], alphaZero[e], alphaOne[e])
  {
    hide AlphaZero, AlphaOne, Batching, Equations, LiftAll, SlopeRow;
    var batching := ParseBatching(p, s, firstCommitment);
    var equations := ExpandEquations(p, s, masterSeed);
    var tOne := SlopeRows(s, equations, secret);
    alphaZero, alphaOne := [], [];
    for execution := 0 to s.executions
      invariant |alphaZero| == |alphaOne| == execution
      invariant forall e: nat :: e < execution ==>
        AlphasFor(p, s, firstCommitment, masterSeed, secret, xZero[e], uZero[e], uOne[e], alphaZero[e], alphaOne[e])
    {
      var zero, one := AlphaExecution(s, equations, tOne, batching, secret, xZero[execution], uZero[execution],
        uOne[execution]);
      alphaZero, alphaOne := alphaZero + [zero], alphaOne + [one];
    }
  }

  // -------------------------------------------------------------------------
  // The verifier
  // -------------------------------------------------------------------------

  // t += point * linear
  method AddScaledLinear(product: seq<Ext>, linear: seq<Ext>, point: Ext) returns (row: seq<Ext>)
    requires |product| == |linear|
    ensures row == VectorAdd(product, VectorScale(point, linear))
  {
    hide Add, Mul;
    var n := |product|;
    var t := new Ext[n](k requires 0 <= k < n => product[k]);
    for k := 0 to n
      invariant forall r :: 0 <= r < k ==> t[r] == Add(product[r], Mul(point, linear[r]))
      invariant forall r :: k <= r < n ==> t[r] == product[r]
    {
      var term := Multiply(point, linear[k]);
      t[k] := Add(t[k], term);
    }
    row := t[..];
  }

  // One equation at one point.
  method EvaluateHomogenised(s: Profile, equation: PackedEquation, output: Ext, x: seq<Ext>, point: Ext,
                             pointSquared: Ext)
    returns (z: Ext)
    requires WellFormed(equation) && |equation.linear| == |x| == s.variables && pointSquared == Mul(point, point)
    ensures z == Homogenised(equation, output, x, point)
  {
    hide MatrixVector, VectorAdd, VectorScale, Add, Mul;
    var product := MultiplyExtension(equation, x);
    var row := AddScaledLinear(product, equation.linear, point);
    z := ZERO;
    for k := 0 to s.variables
      invariant z == Sum(k, DotTerms(row, x))
    {
      var term := Multiply(row[k], x[k]);
      z := Add(z, term);
    }
    var last := Multiply(pointSquared, output);
    z := Add(z, last);
  }

  method RecomputeExecution(s: Profile, equations: seq<PackedEquation>, batching: seq<seq<Ext>>, outputs: seq<Ext>,
                            hiddenIndex: nat, x: seq<Ext>, u: seq<Ext>, alphaOne: seq<Ext>)
    returns (alphaZero: seq<Ext>)
    requires System(equations, s.variables) && forall i :: 0 <= i < |equations| ==> WellFormed(equations[i])
    requires |outputs| == |equations| && |x| == s.variables && |batching| == |u| == |alphaOne| == s.repetitions
    requires forall j :: 0 <= j < s.repetitions ==> |batching[j]| == |equations|
    ensures |alphaZero| == s.repetitions
    ensures forall j: nat :: j < s.repetitions ==>
      alphaZero[j] == RecomputedAlphaZero(equations, batching[j], outputs, x, u[j], EvaluationPoint(hiddenIndex),
        alphaOne[j])
  {
    hide Add, Mul, Homogenised, Dot, EvaluationPoint;
    var point := EvaluationPoint(hiddenIndex);
    var pointSquared := Multiply(point, point);
    var z: seq<Ext> := [];
    for i := 0 to |equations|
      invariant |z| == i
      invariant forall k: nat :: k < i ==> z[k] == Homogenised(equations[k], outputs[k], x, point)
    {
      var value := EvaluateHomogenised(s, equations[i], outputs[i], x, point, pointSquared);
      z := z + [value];
    }
    assert z == HomogenisedAll(equations, outputs, x, point);
    alphaZero := [];
    for component := 0 to s.repetitions
      invariant |alphaZero| == component
      invariant forall j: nat :: j < component ==>
        alphaZero[j] == RecomputedAlphaZero(equations, batching[j], outputs, x, u[j], point, alphaOne[j])
    {
      var value := AddBatched(u[component], batching[component], z);
      var correction := Multiply(point, alphaOne[component]);
      alphaZero := alphaZero + [Add(value, correction)];
    }
  }

  // What recompute_alpha_zero returns for one execution.
  ghost predicate RecomputedFor(p: Primitives, s: Profile, firstCommitment: Bytes, masterSeed: Bytes, outputs: seq<Ext>,
                                hidden: nat, x: seq<Ext>, u: seq<Ext>, alphaOne: seq<Ext>, alphaZero: seq<Ext>)
    requires |outputs| == s.equations && |x| == s.variables && |u| == |alphaOne| == s.repetitions
  {
    && |alphaZero| == s.repetitions
    && forall j: nat :: j < s.repetitions ==>
      alphaZero[j] == RecomputedAlphaZero(Equations(p, s, masterSeed), Batching(p, s, firstCommitment, j), outputs, x,
        u[j], EvaluationPoint(hidden), alphaOne[j])
  }

  method RecomputeAlphaZero(p: Primitives, s: Profile, firstCommitment: Bytes, alphaOne: seq<seq<Ext>>,
                            hiddenIndices: seq<nat>,
                            x: seq<seq<Ext>>, u: seq<seq<Ext>>, masterSeed: Bytes, outputs: seq<Ext>)
    returns (alphaZero: seq<seq<Ext>>)
    requires |outputs| == s.equations && |hiddenIndices| == |x| == |u| == |alphaOne| == s.executions
    requires forall e :: 0 <= e < s.executions ==> |x[e]| == s.variables && |u[e]| == |alphaOne[e]| == s.repetitions
    ensures |alphaZero| == s.executions
    ensures forall e: nat :: e < s.executions ==>
      RecomputedFor(p, s, firstCommitment, masterSeed, outputs, hiddenIndices[e], x[e], u[e], alphaOne[e], alphaZero[e])
  {
    hide RecomputedAlphaZero, Batching, Equations, EvaluationPoint;
    var batching := ParseBatching(p, s, firstCommitment);
    var equations := ExpandEquations(p, s, masterSeed);
    alphaZero := [];
    for execution := 0 to s.executions
      invariant |alphaZero| == execution
      invariant forall e: nat :: e < execution ==>
        RecomputedFor(p, s, firstCommitment, masterSeed, outputs, hiddenIndices[e], x[e], u[e], alphaOne[e],
          alphaZero[e])
    {
      var row := RecomputeExecution(s, equations, batching, outputs, hiddenIndices[execution], x[execution],
        u[execution], alphaOne[execution]);
      alphaZero := alphaZero + [row];
    }
  }
}
