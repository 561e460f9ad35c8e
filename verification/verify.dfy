// src/verify.rs: verify.
module Verify {
  import opened Words
  import opened ByteStrings
  import opened ExtensionField
  import opened Params
  import opened Prg
  import opened Gray
  import opened Fold
  import opened LineCommitment
  import opened Opening
  import opened Keygen
  import opened Polynomial
  import opened Alpha
  import opened Challenge
  import opened Signature

  // -------------------------------------------------------------------------
  // What both sides hash
  // -------------------------------------------------------------------------

  method AbsorbRow(state: Shake128State, row: seq<Ext>)
    modifies state
    ensures state.absorbed == old(state.absorbed) + EncodeRow(row)
  {
    ghost var f := RowBytes(row);
    for j := 0 to |row|
      invariant state.absorbed == old(state.absorbed) + Concat(j, f)
    {
      ConcatNext(old(state.absorbed), j, f);
      state.Absorb(ToBytes(row[j]));
    }
  }

  method HashAlphas(p: Primitives, alphaZero: seq<seq<Ext>>, serializedAlphaOne: Bytes) returns (commitment: Bytes)
    ensures commitment == SecondCommitment(p, alphaZero, serializedAlphaOne)
  {
    hide EncodeRow;
    ghost var f := RowsBytes(alphaZero);
    var state := new Shake128State();
    state.Absorb([0x03]);
    for e := 0 to |alphaZero|
      invariant state.absorbed == [0x03] + Concat(e, f)
    {
      ConcatNext([0x03], e, f);
      AbsorbRow(state, alphaZero[e]);
    }
    state.Absorb(serializedAlphaOne);
    commitment := state.Squeeze(p, DIGEST_SIZE);
  }

  method HashTranscript(p: Primitives, publicKey: Bytes, first: Bytes, second: Bytes, message: Bytes)
    returns (hash: Bytes)
    ensures hash == FiatShamirHash(p, publicKey, first, second, message)
  {
    var messageHash := Xof(p, [0x02] + message, DIGEST_SIZE);
    hash := Xof(p, [0x04] + publicKey + first + second + messageHash, DIGEST_SIZE);
  }

  // -------------------------------------------------------------------------
  // verify
  // -------------------------------------------------------------------------

  method ParseAlphaOne(s: Profile, serialized: Bytes) returns (alphaOne: seq<seq<Ext>>)
    requires |serialized| == s.AlphaSize()
    ensures alphaOne == DecodeAll(s, serialized)
  {
    alphaOne := [];
    for e := 0 to s.executions
      invariant |alphaOne| == e && forall k: nat :: k < e ==> alphaOne[k] == DecodeRow(s, serialized, k)
    {
      PieceSized(serialized, s.executions, 2 * s.repetitions, e);
      var row := ParseExtensionVector(Piece(serialized, 2 * s.repetitions, e), s.repetitions);
      alphaOne := alphaOne + [row.value];
    }
  }

  method ParseOutputs(s: Profile, publicKey: Bytes) returns (outputs: seq<Ext>)
    requires |publicKey| == s.PublicKeySize()
    ensures outputs == Outputs(s, publicKey)
  {
    var parsed := ParseExtensionVector(publicKey[2 * SEED_SIZE..], s.equations);
    outputs := parsed.value;
  }

  // The recomputed matrix is the one the closed form of the opening determines.
  lemma RecomputedFromOpened(p: Primitives, s: Profile, publicKey: Bytes, a: Parts, hidden: seq<nat>,
                             v: OpenedEvaluations, alphaZero: seq<seq<Ext>>)
    requires |publicKey| == s.PublicKeySize() && PartsSized(s, a) && |hidden| == s.executions &&
      |alphaZero| == s.executions
    requires EvaluationsOf(p, s, a.salt, a.opening, hidden, v)
    requires forall e: nat :: e < s.executions ==>
      RecomputedFor(p, s, a.first, publicKey[..2 * SEED_SIZE], Outputs(s, publicKey), hidden[e], v.x[e], v.u[e],
        DecodeRow(s, a.alphaOne, e), alphaZero[e])
    ensures alphaZero == Recomputed(p, s, publicKey, a, hidden)
  {
    hide RecomputedAlphaZero, Equations, Batching, Outputs, OpenedValue, EvaluationPoint, DecodeRow, PathOf,
      PartialDeltaOf;
    forall e: nat, j: nat | e < s.executions && j < s.repetitions
      ensures alphaZero[e][j] == RecomputedEntry(p, s, publicKey, a, hidden, e, j)
    {
      assert v.x[e] == OpenedX(p, s, a, hidden, e);
    }
    MatricesEqual(s, alphaZero, Recomputed(p, s, publicKey, a, hidden));
  }

  method VerifyParts(p: Primitives, s: Profile, publicKey: Bytes, message: Bytes, ghost a: Parts, salt: Block,
                     firstCommitment: Bytes, secondCommitment: Bytes, serializedAlphaOne: Bytes, opening: Bytes,
                     nonce: Bytes)
    returns (ok: bool)
    requires |publicKey| == s.PublicKeySize() && PartsSized(s, a)
    requires a == Parts(salt, firstCommitment, secondCommitment, serializedAlphaOne, opening, nonce)
    ensures ok <==> PartsVerify(p, s, publicKey, message, a)
  {
    hide Grinds, HiddenIndices, Accepts, Recomputed, SecondCommitment, DecodeRow, EvaluationsOf, RecomputedFor, Outputs,
      FiatShamirHash;
    var publicOutput := ParseOutputs(s, publicKey);
    var hash := HashTranscript(p, publicKey, firstCommitment, secondCommitment, message);
    var hiddenIndices := ParseChallenge(p, s, hash, nonce);
    if hiddenIndices.None? {
      return false;
    }
    var evaluated := EvaluateOpening(p, s, salt, firstCommitment, opening, hiddenIndices.value);
    if evaluated.None? {
      return false;
    }
    var alphaOne := ParseAlphaOne(s, serializedAlphaOne);
    EvaluationsShaped(p, s, salt, opening, hiddenIndices.value, evaluated.value);
    var alphaZero := RecomputeAlphaZero(p, s, firstCommitment, alphaOne, hiddenIndices.value, evaluated.value.x,
      evaluated.value.u,
      publicKey[..2 * SEED_SIZE], publicOutput);
    RecomputedFromOpened(p, s, publicKey, a, hiddenIndices.value, evaluated.value, alphaZero);
    var observed := HashAlphas(p, alphaZero, serializedAlphaOne);
    ok := observed == secondCommitment;
  }

  lemma EvaluationsShaped(p: Primitives, s: Profile, salt: Block, opening: Bytes, hidden: seq<nat>,
                          v: OpenedEvaluations)
    requires EvaluationsOf(p, s, salt, opening, hidden, v)
    ensures |v.x| == |v.u| == s.executions
    ensures forall e :: 0 <= e < s.executions ==> |v.x[e]| == s.variables && |v.u[e]| == s.repetitions
  {
    hide OpenedValue;
  }

  method VerifySignature(p: Primitives, s: Profile, publicKey: Bytes, message: Bytes, signature: Bytes)
    returns (ok: bool)
    ensures ok <==> Verifies(p, s, publicKey, message, signature)
  {
    hide PartsVerify;
    if |publicKey| != s.PublicKeySize() || |signature| != s.SignatureSize() {
      return false;
    }
    DisassembledSized(s, signature);
    var alphaOffset, openingOffset, nonceOffset := AlphaOffset(), OpeningOffset(s), NonceOffset(s);
    ok := VerifyParts(p, s, publicKey, message, Disassemble(s, signature), signature[..SEED_SIZE],
      signature[SEED_SIZE..SEED_SIZE + DIGEST_SIZE], signature[SEED_SIZE + DIGEST_SIZE..alphaOffset],
      signature[alphaOffset..openingOffset], signature[openingOffset..nonceOffset], signature[nonceOffset..]);
  }

  lemma DisassembledSized(s: Profile, signature: Bytes)
    requires |signature| == s.SignatureSize()
    ensures PartsSized(s, Disassemble(s, signature))
  {
  }
}
