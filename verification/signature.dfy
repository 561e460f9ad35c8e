// What a signature is, when it verifies, and why an honest one does.
module Signature {
  import opened Words
  import opened ByteStrings
  import opened ExtensionField
  import opened ExtensionInverse
  import opened LinearAlgebra
  import opened Mq
  import opened Params
  import opened Prg
  import opened SeedTree
  import opened Gray
  import opened Fold
  import opened LineCommitment
  import opened Keygen
  import opened Polynomial
  import opened Alpha
  import opened Challenge

  // -------------------------------------------------------------------------
  // Encodings
  // -------------------------------------------------------------------------

  ghost function RowBytes(row: seq<Ext>): nat -> Bytes {
    (j: nat) => if j < |row| then ToBytes(row[j]) else []
  }

  // One row of extension field elements, element by element.
  ghost function EncodeRow(row: seq<Ext>): (b: Bytes)
    ensures |b| == 2 * |row|
  {
    ConcatLength(|row|, 2, RowBytes(row));
    Concat(|row|, RowBytes(row))
  }

  ghost function RowsBytes(rows: seq<seq<Ext>>): nat -> Bytes {
    (e: nat) => if e < |rows| then EncodeRow(rows[e]) else []
  }

  ghost function EncodeAll(rows: seq<seq<Ext>>): Bytes {
    Concat(|rows|, RowsBytes(rows))
  }

  ghost predicate Shaped(s: Profile, rows: seq<seq<Ext>>) {
    |rows| == s.executions && forall e :: 0 <= e < |rows| ==> |rows[e]| == s.repetitions
  }

  lemma EncodeAllLength(s: Profile, rows: seq<seq<Ext>>)
    requires Shaped(s, rows)
    ensures |EncodeAll(rows)| == s.AlphaSize()
  {
    ConcatLength(|rows|, 2 * s.repetitions, RowsBytes(rows));
  }

  // Row e of an encoded matrix, and the matrix back from its encoding.
  ghost function DecodeRow(s: Profile, b: Bytes, e: nat): (row: seq<Ext>)
    requires |b| == s.AlphaSize() && e < s.executions
    ensures |row| == s.repetitions
  {
    PieceSized(b, s.executions, 2 * s.repetitions, e);
    var chunk := Piece(b, 2 * s.repetitions, e);
    seq(s.repetitions, j requires 0 <= j < s.repetitions => Element(chunk, j))
  }

  ghost function DecodeAll(s: Profile, b: Bytes): (rows: seq<seq<Ext>>)
    requires |b| == s.AlphaSize()
    ensures Shaped(s, rows)
  {
    seq(s.executions, e requires 0 <= e < s.executions => DecodeRow(s, b, e))
  }

  lemma DecodeEncodedRow(row: seq<Ext>, j: nat)
    requires j < |row|
    ensures Element(EncodeRow(row), j) == row[j]
  {
    ConcatSlot(|row|, 2, RowBytes(row), j);
    assert EncodeRow(row)[j * 2..j * 2 + 2] == ToBytes(row[j]);
  }

  // parse_extension_vector reads an encoded row back.
  lemma ParseEncodedRow(row: seq<Ext>)
    ensures ParseExtensionVector(EncodeRow(row), |row|) == Some(row)
  {
    hide EncodeRow;
    var r := ParseExtensionVector(EncodeRow(row), |row|);
    forall j: nat | j < |row|
      ensures r.value[j] == row[j]
    {
      DecodeEncodedRow(row, j);
    }
    assert r.value == row;
  }

  lemma DecodeEncodedAt(s: Profile, rows: seq<seq<Ext>>, e: nat)
    requires Shaped(s, rows) && e < s.executions
    ensures |EncodeAll(rows)| == s.AlphaSize() && DecodeRow(s, EncodeAll(rows), e) == rows[e]
  {
    hide EncodeRow;
    EncodeAllLength(s, rows);
    ConcatSlot(s.executions, 2 * s.repetitions, RowsBytes(rows), e);
    forall j: nat | j < s.repetitions
      ensures Element(EncodeRow(rows[e]), j) == rows[e][j]
    {
      DecodeEncodedRow(rows[e], j);
    }
  }

  lemma DecodeEncoded(s: Profile, rows: seq<seq<Ext>>)
    requires Shaped(s, rows)
    ensures |EncodeAll(rows)| == s.AlphaSize() && DecodeAll(s, EncodeAll(rows)) == rows
  {
    hide EncodeAll, DecodeRow;
    EncodeAllLength(s, rows);
    forall e: nat | e < s.executions
      ensures DecodeRow(s, EncodeAll(rows), e) == rows[e]
    {
      DecodeEncodedAt(s, rows, e);
    }
  }

  // -------------------------------------------------------------------------
  // The transcript
  // -------------------------------------------------------------------------

  ghost function SecondCommitment(p: Primitives, alphaZero: seq<seq<Ext>>, alphaOne: Bytes): (c: Bytes)
    ensures |c| == DIGEST_SIZE
  {
    Xof(p, [0x03] + EncodeAll(alphaZero) + alphaOne, DIGEST_SIZE)
  }

  ghost function FiatShamirHash(p: Primitives, publicKey: Bytes, first: Bytes, second: Bytes, message: Bytes): Bytes {
    Xof(p, [0x04] + publicKey + first + second + Xof(p, [0x02] + message, DIGEST_SIZE), DIGEST_SIZE)
  }

  datatype Parts = Parts(salt: Block, first: Bytes, second: Bytes, alphaOne: Bytes, opening: Bytes, nonce: Bytes)

  ghost predicate PartsSized(s: Profile, a: Parts) {
    && |a.first| == |a.second| == DIGEST_SIZE && |a.alphaOne| == s.AlphaSize()
    && |a.opening| == s.OpeningSize() && |a.nonce| == NONCE_SIZE
  }

  ghost function Assemble(a: Parts): Bytes {
    a.salt + a.first + a.second + a.alphaOne + a.opening + a.nonce
  }

  // The offsets at which both sides cut a signature.
  function AlphaOffset(): nat { SEED_SIZE + 2 * DIGEST_SIZE }

  function OpeningOffset(s: Profile): nat { AlphaOffset() + s.AlphaSize() }

  function NonceOffset(s: Profile): nat { OpeningOffset(s) + s.OpeningSize() }

  ghost function Disassemble(s: Profile, signature: Bytes): Parts
    requires |signature| == s.SignatureSize()
  {
    Parts(signature[..SEED_SIZE], signature[SEED_SIZE..SEED_SIZE + DIGEST_SIZE],
      signature[SEED_SIZE + DIGEST_SIZE..AlphaOffset()],
      signature[AlphaOffset()..OpeningOffset(s)], signature[OpeningOffset(s)..NonceOffset(s)],
        signature[NonceOffset(s)..])
  }

  lemma DisassembleAssembled(s: Profile, a: Parts)
    requires PartsSized(s, a)
    ensures |Assemble(a)| == s.SignatureSize() && Disassemble(s, Assemble(a)) == a
  {
    var b := Assemble(a);
    assert b[..SEED_SIZE] == a.salt;
    assert b[SEED_SIZE..SEED_SIZE + DIGEST_SIZE] == a.first;
    assert b[SEED_SIZE + DIGEST_SIZE..AlphaOffset()] == a.second;
    assert b[AlphaOffset()..OpeningOffset(s)] == a.alphaOne;
    assert b[OpeningOffset(s)..NonceOffset(s)] == a.opening;
    assert b[NonceOffset(s)..] == a.nonce;
  }

  // Where the parts stand in a signature.
  lemma SignatureLayout(s: Profile, a: Parts)
    requires PartsSized(s, a)
    ensures var b, i, j := Assemble(a), 80 + s.AlphaSize(), 80 + s.AlphaSize() + s.OpeningSize();
      && |b| == j + 4
      && b[..16] == a.salt && b[16..48] == a.first && b[48..80] == a.second
      && b[80..i] == a.alphaOne && b[i..j] == a.opening && b[j..] == a.nonce
  {
    DisassembleAssembled(s, a);
  }

  // Element j of row e takes bytes 2 (e * repetitions + j) and the next one, c0 first.
  lemma EncodedAt(s: Profile, rows: seq<seq<Ext>>, e: nat, j: nat)
    requires Shaped(s, rows) && e < s.executions && j < s.repetitions
    ensures var at: nat := e * (2 * s.repetitions) + 2 * j;
      rows[e][j] == Ext(ByteAt(EncodeAll(rows), at), ByteAt(EncodeAll(rows), at + 1))
  {
    hide EncodeAll, Piece;
    DecodeEncodedAt(s, rows, e);
    var size := 2 * s.repetitions;
    PieceAt(EncodeAll(rows), s.executions, size, e, 2 * j);
    PieceAt(EncodeAll(rows), s.executions, size, e, 2 * j + 1);
  }

  // -------------------------------------------------------------------------
  // Verification
  // -------------------------------------------------------------------------

  ghost function Outputs(s: Profile, key: Bytes): (y: Vector)
    requires |key| >= s.PublicKeySize()
    ensures |y| == s.equations
  {
    seq(s.equations, i requires 0 <= i < s.equations => OutputOf(s, key, i))
  }

  lemma PartialDeltaSized(s: Profile, opening: Bytes, e: nat)
    requires |opening| == s.OpeningSize() && e < s.executions
    ensures |PartialDeltaOf(s, opening, e)| == s.PartialDeltaSize()
  {
    RegionBounds(s, e);
    hide PartialDeltaStart;
  }

  // The value of coordinate c that a signature opens in execution e.
  ghost function OpenedPoint(p: Primitives, s: Profile, a: Parts, hidden: seq<nat>, e: nat, c: Coordinate): Ext
    requires PartsSized(s, a) && |hidden| == s.executions && e < s.executions && InRange(s, c)
  {
    PartialDeltaSized(s, a.opening, e);
    OpenedValue(Context(p, a.salt, e), s, PathOf(s, a.opening, e), hidden[e], PartialDeltaOf(s, a.opening, e), c)
  }

  ghost function OpenedX(p: Primitives, s: Profile, a: Parts, hidden: seq<nat>, e: nat): (x: Vector)
    requires PartsSized(s, a) && |hidden| == s.executions && e < s.executions
    ensures |x| == s.variables
  {
    seq(s.variables, k requires 0 <= k < s.variables => OpenedPoint(p, s, a, hidden, e, Secret(k)))
  }

  ghost function RecomputedEntry(p: Primitives, s: Profile, publicKey: Bytes, a: Parts, hidden: seq<nat>, e: nat,
                                 j: nat): Ext
    requires |publicKey| == s.PublicKeySize() && PartsSized(s, a) && |hidden| == s.executions
    requires e < s.executions && j < s.repetitions
  {
    RecomputedAlphaZero(Equations(p, s, publicKey[..2 * SEED_SIZE]), Batching(p, s, a.first, j), Outputs(s, publicKey),
      OpenedX(p, s, a, hidden, e), OpenedPoint(p, s, a, hidden, e, Mask(j)), EvaluationPoint(hidden[e]),
        DecodeRow(s, a.alphaOne, e)[j])
  }

  // The matrix the verifier recomputes.
  ghost function Recomputed(p: Primitives, s: Profile, publicKey: Bytes, a: Parts,
                            hidden: seq<nat>): (rows: seq<seq<Ext>>)
    requires |publicKey| == s.PublicKeySize() && PartsSized(s, a) && |hidden| == s.executions
    ensures Shaped(s, rows)
  {
    seq(s.executions, e requires 0 <= e < s.executions =>
      seq(s.repetitions, j requires 0 <= j < s.repetitions => RecomputedEntry(p, s, publicKey, a, hidden, e, j)))
  }

  ghost function ChallengeHash(p: Primitives, publicKey: Bytes, message: Bytes, a: Parts): Bytes {
    FiatShamirHash(p, publicKey, a.first, a.second, message)
  }

  ghost function ChallengedIndices(p: Primitives, s: Profile, publicKey: Bytes, message: Bytes, a: Parts): (h: seq<nat>)
    ensures |h| == s.executions
  {
    HiddenIndices(p, s, ChallengeHash(p, publicKey, message, a), a.nonce)
  }

  ghost predicate PartsVerify(p: Primitives, s: Profile, publicKey: Bytes, message: Bytes, a: Parts)
    requires |publicKey| == s.PublicKeySize() && PartsSized(s, a)
  {
    var hidden := ChallengedIndices(p, s, publicKey, message, a);
    && Grinds(p, s, ChallengeHash(p, publicKey, message, a), a.nonce)
    && Accepts(p, s, a.salt, a.first, a.opening, hidden)
    && SecondCommitment(p, Recomputed(p, s, publicKey, a, hidden), a.alphaOne) == a.second
  }

  ghost predicate Verifies(p: Primitives, s: Profile, publicKey: Bytes, message: Bytes, signature: Bytes) {
    && |publicKey| == s.PublicKeySize() && |signature| == s.SignatureSize()
    && PartsVerify(p, s, publicKey, message, Disassemble(s, signature))
  }

  // -------------------------------------------------------------------------
  // The honest signature
  // -------------------------------------------------------------------------

  ghost function XConstants(v: Inputs, e: nat): (x: Vector)
    requires v.Valid() && e < v.s.executions
    ensures |x| == v.s.variables
  {
    seq(v.s.variables, k requires 0 <= k < v.s.variables => LineConstant(v, e, Secret(k)))
  }

  ghost function HonestZero(v: Inputs, masterSeed: Bytes, e: nat, j: nat): Ext
    requires v.Valid() && e < v.s.executions && j < v.s.repetitions
  {
    AlphaZero(Equations(v.p, v.s, masterSeed), Batching(v.p, v.s, Commitment(v), j), XConstants(v, e),
      LineConstant(v, e, Mask(j)))
  }

  ghost function HonestOne(v: Inputs, masterSeed: Bytes, e: nat, j: nat): Ext
    requires v.Valid() && e < v.s.executions && j < v.s.repetitions
  {
    AlphaOne(Equations(v.p, v.s, masterSeed), Batching(v.p, v.s, Commitment(v), j), XConstants(v, e), LiftAll(v.secret),
      LineSlope(v, e, Mask(j)))
  }

  // The two matrices compute_alpha returns.
  ghost function AlphaZeros(v: Inputs, masterSeed: Bytes): (rows: seq<seq<Ext>>)
    requires v.Valid()
    ensures Shaped(v.s, rows)
  {
    seq(v.s.executions, e requires 0 <= e < v.s.executions =>
      seq(v.s.repetitions, j requires 0 <= j < v.s.repetitions => HonestZero(v, masterSeed, e, j)))
  }

  ghost function AlphaOnes(v: Inputs, masterSeed: Bytes): (rows: seq<seq<Ext>>)
    requires v.Valid()
    ensures Shaped(v.s, rows)
  {
    seq(v.s.executions, e requires 0 <= e < v.s.executions =>
      seq(v.s.repetitions, j requires 0 <= j < v.s.repetitions => HonestOne(v, masterSeed, e, j)))
  }

  // Component j of execution e: its own mask and batching row.
  lemma AlphaEntries(v: Inputs, masterSeed: Bytes, e: nat, j: nat)
    requires v.Valid() && e < v.s.executions && j < v.s.repetitions
    ensures var eqs, x0 := Equations(v.p, v.s, masterSeed), XConstants(v, e);
      var row := Batching(v.p, v.s, Commitment(v), j);
      && AlphaZeros(v, masterSeed)[e][j] == Add(LineConstant(v, e, Mask(j)), Dot(row, DegreeZeros(eqs, x0)))
      && AlphaOnes(v, masterSeed)[e][j] ==
        Add(LineSlope(v, e, Mask(j)), Dot(row, DegreeOnes(eqs, x0, LiftAll(v.secret))))
  {
    hide Equations, Batching, XConstants, LineConstant, LineSlope, Commitment, DegreeZeros, DegreeOnes, Dot, Add,
      LiftAll;
  }

  // Parts as `sign` computes them from a secret key, a master seed and a salt.
  ghost predicate Honest(v: Inputs, publicKey: Bytes, message: Bytes, a: Parts)
    requires v.Valid() && |publicKey| == v.s.PublicKeySize()
  {
    && PartsSized(v.s, a)
    && a.salt == v.salt
    && a.first == Commitment(v)
    && a.alphaOne == EncodeAll(AlphaOnes(v, publicKey[..2 * SEED_SIZE]))
    && a.second == SecondCommitment(v.p, AlphaZeros(v, publicKey[..2 * SEED_SIZE]), a.alphaOne)
    && Grinds(v.p, v.s, ChallengeHash(v.p, publicKey, message, a), a.nonce)
    && IsOpening(v, a.opening, ChallengedIndices(v.p, v.s, publicKey, message, a))
  }

  // The batched residual of component j: what the stored outputs miss.
  ghost function Residue(v: Inputs, publicKey: Bytes, j: nat): Ext
    requires v.Valid() && |publicKey| == v.s.PublicKeySize() && j < v.s.repetitions
  {
    BatchedResidual(Equations(v.p, v.s, publicKey[..2 * SEED_SIZE]), Batching(v.p, v.s, Commitment(v), j),
      Outputs(v.s, publicKey), LiftAll(v.secret))
  }

  lemma OpenedXOnLine(v: Inputs, a: Parts, hidden: seq<nat>, e: nat)
    requires v.Valid() && PartsSized(v.s, a) && a.salt == v.salt && e < v.s.executions &&
      IsOpening(v, a.opening, hidden)
    ensures OpenedX(v.p, v.s, a, hidden, e) == Line(XConstants(v, e), EvaluationPoint(hidden[e]), LiftAll(v.secret))
  {
    var g := EvaluationPoint(hidden[e]);
    assert OpensExecution(v, e, a.opening, hidden[e]);
    hide OpenedValue, LineConstant, EvaluationPoint, Mul, Add, Lift, OpensExecution;
    forall k: nat | k < v.s.variables
      ensures OpenedPoint(v.p, v.s, a, hidden, e, Secret(k)) ==
        Add(LineConstant(v, e, Secret(k)), Mul(g, Lift(v.secret[k])))
    {
      OpeningOnLine(v, e, a.opening, hidden[e], Secret(k));
    }
  }

  // An entry the verifier recomputes from an honest opening and the signer's alpha_one.
  lemma RecomputedEntryOnLine(v: Inputs, publicKey: Bytes, a: Parts, hidden: seq<nat>, e: nat, j: nat)
    requires v.Valid() && |publicKey| == v.s.PublicKeySize() && PartsSized(v.s, a) && a.salt == v.salt &&
      a.first == Commitment(v)
    requires IsOpening(v, a.opening, hidden) && e < v.s.executions && j < v.s.repetitions
    requires DecodeRow(v.s, a.alphaOne, e)[j] == HonestOne(v, publicKey[..2 * SEED_SIZE], e, j)
    ensures var g := EvaluationPoint(hidden[e]);
      RecomputedEntry(v.p, v.s, publicKey, a, hidden, e, j) ==
        Add(HonestZero(v, publicKey[..2 * SEED_SIZE], e, j), Mul(Mul(g, g), Residue(v, publicKey, j)))
  {
    hide Mul, Add, OpenedValue, LineConstant, LineSlope, EvaluationPoint, Equations, Batching, Outputs, LiftAll,
      AlphaZero, AlphaOne, BatchedResidual, OpenedX, Line, XConstants, OpensExecution, Commitment, DecodeRow,
      RecomputedAlphaZero, PathOf, PartialDeltaOf;
    var masterSeed := publicKey[..2 * SEED_SIZE];
    assert OpensExecution(v, e, a.opening, hidden[e]);
    OpenedXOnLine(v, a, hidden, e);
    OpeningOnLine(v, e, a.opening, hidden[e], Mask(j));
    ExactDiscrepancy(Equations(v.p, v.s, masterSeed), Batching(v.p, v.s, a.first, j), Outputs(v.s, publicKey),
      XConstants(v, e), LiftAll(v.secret),
      LineConstant(v, e, Mask(j)), LineSlope(v, e, Mask(j)), EvaluationPoint(hidden[e]));
  }

  lemma HonestRow(v: Inputs, publicKey: Bytes, e: nat)
    requires v.Valid() && e < v.s.executions
    ensures var b := EncodeAll(AlphaOnes(v, publicKey));
      |b| == v.s.AlphaSize() && DecodeRow(v.s, b, e) == AlphaOnes(v, publicKey)[e]
  {
    hide HonestOne, DecodeRow, EncodeAll;
    var rows := AlphaOnes(v, publicKey);
    DecodeEncoded(v.s, rows);
    assert DecodeAll(v.s, EncodeAll(rows))[e] == DecodeRow(v.s, EncodeAll(rows), e);
  }

  // What the verifier recomputes for any key: the signer's matrix, each entry
  // off by the squared point times the batched residual.
  ghost function Discrepant(v: Inputs, publicKey: Bytes, hidden: seq<nat>): (rows: seq<seq<Ext>>)
    requires v.Valid() && |publicKey| == v.s.PublicKeySize() && |hidden| == v.s.executions
    ensures Shaped(v.s, rows)
  {
    seq(v.s.executions, e requires 0 <= e < v.s.executions =>
      seq(v.s.repetitions, j requires 0 <= j < v.s.repetitions =>
        Add(HonestZero(v, publicKey[..2 * SEED_SIZE], e, j),
          Mul(Mul(EvaluationPoint(hidden[e]), EvaluationPoint(hidden[e])), Residue(v, publicKey, j)))))
  }

  lemma RecomputedIsDiscrepant(v: Inputs, publicKey: Bytes, message: Bytes, a: Parts)
    requires v.Valid() && |publicKey| == v.s.PublicKeySize() && Honest(v, publicKey, message, a)
    ensures var hidden := ChallengedIndices(v.p, v.s, publicKey, message, a);
      Recomputed(v.p, v.s, publicKey, a, hidden) == Discrepant(v, publicKey, hidden)
  {
    hide RecomputedEntry, Mul, Add, Residue, Commitment, IsOpening, HonestZero, HonestOne, EvaluationPoint,
      ChallengedIndices, EncodeAll, Grinds, DecodeRow, SecondCommitment;
    var hidden := ChallengedIndices(v.p, v.s, publicKey, message, a);
    forall e: nat, j: nat | e < v.s.executions && j < v.s.repetitions
      ensures Recomputed(v.p, v.s, publicKey, a, hidden)[e][j] == Discrepant(v, publicKey, hidden)[e][j]
    {
      HonestRow(v, publicKey[..2 * SEED_SIZE], e);
      RecomputedEntryOnLine(v, publicKey, a, hidden, e, j);
    }
    MatricesEqual(v.s, Recomputed(v.p, v.s, publicKey, a, hidden), Discrepant(v, publicKey, hidden));
  }

  lemma MatricesEqual(s: Profile, a: seq<seq<Ext>>, b: seq<seq<Ext>>)
    requires Shaped(s, a) && Shaped(s, b) && forall e: nat, j: nat :: e < s.executions && j < s.repetitions ==>
      a[e][j] == b[e][j]
    ensures a == b
  {
    forall e: nat | e < s.executions
      ensures a[e] == b[e]
    {
      assert |a[e]| == |b[e]| && forall j: nat :: j < s.repetitions ==> a[e][j] == b[e][j];
    }
  }

  // The verdict on the signature of any key, consistent or not: it verifies
  // exactly when hashing the recomputed matrix does not tell the difference.
  lemma Verdict(v: Inputs, publicKey: Bytes, message: Bytes, a: Parts)
    requires v.Valid() && |publicKey| == v.s.PublicKeySize() && Honest(v, publicKey, message, a)
    ensures var hidden := ChallengedIndices(v.p, v.s, publicKey, message, a);
      Verifies(v.p, v.s, publicKey, message, Assemble(a)) <==>
        SecondCommitment(v.p, Discrepant(v, publicKey, hidden), a.alphaOne) == a.second
  {
    hide Discrepant, Recomputed, Accepts, Commitment, IsOpening, AlphaOnes, AlphaZeros, Disassemble, Assemble,
      ChallengedIndices, EncodeAll, Grinds, SecondCommitment;
    DisassembleAssembled(v.s, a);
    OpeningAccepted(v, a.opening, ChallengedIndices(v.p, v.s, publicKey, message, a));
    RecomputedIsDiscrepant(v, publicKey, message, a);
  }

  // The evaluation point of a leaf is zero for leaf 0 and no other.
  lemma ZeroPoint(index: nat)
    requires index < 65536
    ensures EvaluationPoint(index) == ZERO <==> index == 0
  {
    FromWordZero();
    assert Words.Xor(0, 0) == 0;
    if EvaluationPoint(index) == ZERO {
      PointsDistinct(index, 0);
    }
  }

  // The recomputed matrix is the signer's exactly when each entry opens leaf 0
  // or has no residue.
  lemma MatrixAgreement(v: Inputs, publicKey: Bytes, hidden: seq<nat>)
    requires v.Valid() && |publicKey| == v.s.PublicKeySize() && |hidden| == v.s.executions
    requires forall e :: 0 <= e < |hidden| ==> hidden[e] < 65536
    ensures Discrepant(v, publicKey, hidden) == AlphaZeros(v, publicKey[..2 * SEED_SIZE]) <==>
      forall e: nat, j: nat :: e < v.s.executions && j < v.s.repetitions ==>
        hidden[e] == 0 || Residue(v, publicKey, j) == ZERO
  {
    hide Residue, HonestZero, Mul, Add, EvaluationPoint;
    var d, z := Discrepant(v, publicKey, hidden), AlphaZeros(v, publicKey[..2 * SEED_SIZE]);
    forall e: nat, j: nat | e < v.s.executions && j < v.s.repetitions
      ensures d[e][j] == z[e][j] <==> hidden[e] == 0 || Residue(v, publicKey, j) == ZERO
    {
      ZeroPoint(hidden[e]);
      SquaredTermVanishes(z[e][j], EvaluationPoint(hidden[e]), Residue(v, publicKey, j));
    }
    if forall e: nat, j: nat :: e < v.s.executions && j < v.s.repetitions ==>
      hidden[e] == 0 || Residue(v, publicKey, j) == ZERO {
      MatricesEqual(v.s, d, z);
    }
  }

  // What the verifier recomputes from an honest signature of any key is the
  // signer's matrix if and only if each entry opens leaf 0 or has no residue.
  lemma RecomputedAgreement(v: Inputs, publicKey: Bytes, message: Bytes, a: Parts)
    requires v.Valid() && |publicKey| == v.s.PublicKeySize() && Honest(v, publicKey, message, a)
    ensures var hidden := ChallengedIndices(v.p, v.s, publicKey, message, a);
      Recomputed(v.p, v.s, publicKey, a, hidden) == AlphaZeros(v, publicKey[..2 * SEED_SIZE]) <==>
        forall e: nat, j: nat :: e < v.s.executions && j < v.s.repetitions ==>
          hidden[e] == 0 || Residue(v, publicKey, j) == ZERO
  {
    hide Honest, Recomputed, Discrepant, AlphaZeros, Residue, ChallengeHash, HiddenIndex;
    var hidden := ChallengedIndices(v.p, v.s, publicKey, message, a);
    RecomputedIsDiscrepant(v, publicKey, message, a);
    HiddenIndicesBelow(v.p, v.s, ChallengeHash(v.p, publicKey, message, a), a.nonce);
    LeavesBound(v.s);
    MatrixAgreement(v, publicKey, hidden);
  }

  lemma SquaredTermVanishes(a: Ext, g: Ext, r: Ext)
    ensures Add(a, Mul(Mul(g, g), r)) == a <==> g == ZERO || r == ZERO
  {
    var d := Mul(Mul(g, g), r);
    ZeroProduct(Mul(g, g), r);
    ZeroProduct(g, g);
    AddIdentity(a);
    AddCancels(a, d);
    hide Mul, Add;
  }

  lemma ConsistentResidue(v: Inputs, secretKey: Bytes, j: nat)
    requires v.Valid() && Consistent(v.p, v.s, secretKey) && v.secret == SecretOf(v.s, secretKey) && j < v.s.repetitions
    ensures Residue(v, secretKey[..v.s.PublicKeySize()], j) == ZERO
  {
    hide Evaluate, Equation, LiftAll, BatchedResidual, Commitment, SecretOf;
    var pk := secretKey[..v.s.PublicKeySize()];
    assert pk[..2 * SEED_SIZE] == secretKey[..2 * SEED_SIZE];
    var equations, outputs := Equations(v.p, v.s, pk[..2 * SEED_SIZE]), Outputs(v.s, pk);
    forall i: nat | i < v.s.equations
      ensures outputs[i] == Evaluate(equations[i], LiftAll(v.secret))
    {
      assert StoredOutputMatches(v.p, v.s, secretKey, i);
    }
    ConsistentResidual(equations, Batching(v.p, v.s, Commitment(v), j), outputs, LiftAll(v.secret));
  }

  // For a consistent key nothing is off.
  lemma NothingDiscrepant(v: Inputs, secretKey: Bytes, hidden: seq<nat>)
    requires v.Valid() && Consistent(v.p, v.s, secretKey) && v.secret == SecretOf(v.s, secretKey) &&
      |hidden| == v.s.executions
    ensures Discrepant(v, secretKey[..v.s.PublicKeySize()], hidden) == AlphaZeros(v, secretKey[..2 * SEED_SIZE])
  {
    hide Residue, HonestZero, Mul, Add, EvaluationPoint, StoredOutputMatches, SecretOf;
    var pk := secretKey[..v.s.PublicKeySize()];
    assert pk[..2 * SEED_SIZE] == secretKey[..2 * SEED_SIZE];
    var d, z := Discrepant(v, pk, hidden), AlphaZeros(v, pk[..2 * SEED_SIZE]);
    forall e: nat, j: nat | e < v.s.executions && j < v.s.repetitions
      ensures d[e][j] == z[e][j]
    {
      ConsistentResidue(v, secretKey, j);
      var g := EvaluationPoint(hidden[e]);
      MulIdentity(Mul(g, g));
      AddIdentity(z[e][j]);
    }
    MatricesEqual(v.s, d, z);
  }

  // For a consistent key the verifier recomputes the signer's matrix.
  lemma ConsistentRecomputed(v: Inputs, secretKey: Bytes, message: Bytes, a: Parts)
    requires v.Valid() && Consistent(v.p, v.s, secretKey) && v.secret == SecretOf(v.s, secretKey)
    requires Honest(v, secretKey[..v.s.PublicKeySize()], message, a)
    ensures var pk := secretKey[..v.s.PublicKeySize()];
      Recomputed(v.p, v.s, pk, a, ChallengedIndices(v.p, v.s, pk, message, a)) ==
        AlphaZeros(v, secretKey[..2 * SEED_SIZE])
  {
    hide Honest, Recomputed, Discrepant, AlphaZeros, ChallengedIndices, StoredOutputMatches, SecretOf;
    var pk := secretKey[..v.s.PublicKeySize()];
    RecomputedIsDiscrepant(v, pk, message, a);
    NothingDiscrepant(v, secretKey, ChallengedIndices(v.p, v.s, pk, message, a));
  }

  // Completeness: an honest signature of a consistent key verifies.
  lemma Completeness(v: Inputs, secretKey: Bytes, message: Bytes, a: Parts)
    requires v.Valid() && Consistent(v.p, v.s, secretKey) && v.secret == SecretOf(v.s, secretKey)
    requires Honest(v, secretKey[..v.s.PublicKeySize()], message, a)
    ensures Verifies(v.p, v.s, secretKey[..v.s.PublicKeySize()], message, Assemble(a))
  {
    hide Discrepant, AlphaZeros, AlphaOnes, Commitment, IsOpening, Verifies, Assemble, ChallengedIndices, EncodeAll,
      Grinds, SecondCommitment, StoredOutputMatches, SecretOf;
    var pk := secretKey[..v.s.PublicKeySize()];
    assert pk[..2 * SEED_SIZE] == secretKey[..2 * SEED_SIZE];
    Verdict(v, pk, message, a);
    NothingDiscrepant(v, secretKey, ChallengedIndices(v.p, v.s, pk, message, a));
  }
}
