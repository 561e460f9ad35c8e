// src/sign.rs: sign.
module Sign {
  import opened Words
  import opened ByteStrings
  import opened BaseFields
  import opened ExtensionField
  import opened Mq
  import opened Packing
  import opened Params
  import opened Prg
  import opened LineCommitment
  import opened Blc
  import opened Opening
  import opened Keygen
  import opened Polynomial
  import opened Alpha
  import opened Challenge
  import opened Signature
  import opened Verify

  // -------------------------------------------------------------------------
  // When `sign` succeeds
  // -------------------------------------------------------------------------

  ghost function SignerSecond(v: Inputs, publicKey: Bytes): (c: Bytes)
    requires v.Valid() && |publicKey| == v.s.PublicKeySize()
    ensures |c| == DIGEST_SIZE
  {
    var seed := publicKey[..2 * SEED_SIZE];
    SecondCommitment(v.p, AlphaZeros(v, seed), EncodeAll(AlphaOnes(v, seed)))
  }

  // The hash the challenge is searched for.
  ghost function SigningHash(v: Inputs, publicKey: Bytes, message: Bytes): Bytes
    requires v.Valid() && |publicKey| == v.s.PublicKeySize()
  {
    FiatShamirHash(v.p, publicKey, Commitment(v), SignerSecond(v, publicKey), message)
  }

  // The honest parts with the least nonce that grinds.
  ghost predicate Signs(v: Inputs, publicKey: Bytes, message: Bytes, a: Parts, n: nat)
    requires v.Valid() && |publicKey| == v.s.PublicKeySize()
  {
    && Honest(v, publicKey, message, a)
    && LeastNonce(v.p, v.s, SigningHash(v, publicKey, message), n)
    && a.nonce == LittleEndian32(n)
  }

  // The verifier's second commitment under nonce n is the signer's.
  ghost predicate SelfCheckUnder(v: Inputs, publicKey: Bytes, message: Bytes, n: nat)
    requires v.Valid() && |publicKey| == v.s.PublicKeySize()
  {
    var hidden := HiddenIndices(v.p, v.s, SigningHash(v, publicKey, message), LittleEndian32(n));
    SecondCommitment(v.p, Discrepant(v, publicKey, hidden), EncodeAll(AlphaOnes(v, publicKey[..2 * SEED_SIZE]))) ==
      SignerSecond(v, publicKey)
  }

  // There is a least nonce, and the self-verification under it passes.
  ghost predicate SelfCheck(v: Inputs, publicKey: Bytes, message: Bytes)
    requires v.Valid() && |publicKey| == v.s.PublicKeySize()
  {
    exists n: nat :: LeastNonce(v.p, v.s, SigningHash(v, publicKey, message), n) &&
      SelfCheckUnder(v, publicKey, message, n)
  }

  lemma LeastNonceUnique(p: Primitives, s: Profile, hash: Bytes, m: nat, n: nat)
    requires LeastNonce(p, s, hash, m) && LeastNonce(p, s, hash, n)
    ensures m == n
  {
    hide Grinds, LittleEndian32;
  }

  lemma {:induction false} LeastNonceBelow(p: Primitives, s: Profile, hash: Bytes, n: nat) returns (m: nat)
    requires n < NONCE_COUNT && Grinds(p, s, hash, LittleEndian32(n))
    ensures m <= n && LeastNonce(p, s, hash, m)
  {
    hide Grinds, LittleEndian32;
    if k: nat :| k < n && Grinds(p, s, hash, LittleEndian32(k)) {
      m := LeastNonceBelow(p, s, hash, k);
    } else {
      m := n;
    }
  }

  lemma SelfCheckAtLeastNonce(v: Inputs, publicKey: Bytes, message: Bytes, n: nat)
    requires v.Valid() && |publicKey| == v.s.PublicKeySize() &&
      LeastNonce(v.p, v.s, SigningHash(v, publicKey, message), n)
    ensures SelfCheck(v, publicKey, message) <==> SelfCheckUnder(v, publicKey, message, n)
  {
    hide LeastNonce, SelfCheckUnder, SigningHash;
    forall m: nat | LeastNonce(v.p, v.s, SigningHash(v, publicKey, message), m)
      ensures m == n
    {
      LeastNonceUnique(v.p, v.s, SigningHash(v, publicKey, message), m, n);
    }
  }

  // Without a nonce there is no signature, for any key.
  lemma SelfCheckNeedsNonce(v: Inputs, publicKey: Bytes, message: Bytes)
    requires v.Valid() && |publicKey| == v.s.PublicKeySize() && SelfCheck(v, publicKey, message)
    ensures Solvable(v.p, v.s, SigningHash(v, publicKey, message))
  {
    hide SelfCheckUnder, SigningHash, Grinds, LittleEndian32;
  }

  // For a consistent key the self-verification never rejects.
  lemma ConsistentSelfCheck(v: Inputs, secretKey: Bytes, message: Bytes)
    requires v.Valid() && Consistent(v.p, v.s, secretKey) && v.secret == SecretOf(v.s, secretKey)
    ensures var pk := secretKey[..v.s.PublicKeySize()];
      SelfCheck(v, pk, message) <==> Solvable(v.p, v.s, SigningHash(v, pk, message))
  {
    hide SelfCheckUnder, SelfCheck, SigningHash, Grinds, LittleEndian32, LeastNonce, StoredOutputMatches, SecretOf;
    var pk := secretKey[..v.s.PublicKeySize()];
    var hash := SigningHash(v, pk, message);
    if SelfCheck(v, pk, message) {
      SelfCheckNeedsNonce(v, pk, message);
    } else if n: nat :| n < NONCE_COUNT && Grinds(v.p, v.s, hash, LittleEndian32(n)) {
      var m := LeastNonceBelow(v.p, v.s, hash, n);
      SelfCheckAtLeastNonce(v, pk, message, m);
      ConsistentSelfCheckUnder(v, secretKey, message, m);
    }
  }

  // For any key: it passes when every component has no residue wherever the
  // hidden leaf is not leaf 0.
  lemma SelfCheckWithoutResidue(v: Inputs, publicKey: Bytes, message: Bytes, n: nat)
    requires v.Valid() && |publicKey| == v.s.PublicKeySize()
    requires var hidden := HiddenIndices(v.p, v.s, SigningHash(v, publicKey, message), LittleEndian32(n));
      forall e: nat, j: nat :: e < v.s.executions && j < v.s.repetitions ==>
        hidden[e] == 0 || Residue(v, publicKey, j) == ZERO
    ensures SelfCheckUnder(v, publicKey, message, n)
  {
    hide Residue, SigningHash, LittleEndian32, Discrepant, AlphaZeros, AlphaOnes, SecondCommitment, EncodeAll,
      HiddenIndex;
    var hash := SigningHash(v, publicKey, message);
    HiddenIndicesBelow(v.p, v.s, hash, LittleEndian32(n));
    LeavesBound(v.s);
    MatrixAgreement(v, publicKey, HiddenIndices(v.p, v.s, hash, LittleEndian32(n)));
  }

  lemma ConsistentSelfCheckUnder(v: Inputs, secretKey: Bytes, message: Bytes, n: nat)
    requires v.Valid() && Consistent(v.p, v.s, secretKey) && v.secret == SecretOf(v.s, secretKey)
    ensures SelfCheckUnder(v, secretKey[..v.s.PublicKeySize()], message, n)
  {
    hide SigningHash, LittleEndian32, StoredOutputMatches, SecretOf, Discrepant, AlphaZeros, AlphaOnes,
      SecondCommitment, EncodeAll;
    var pk := secretKey[..v.s.PublicKeySize()];
    assert pk[..2 * SEED_SIZE] == secretKey[..2 * SEED_SIZE];
    NothingDiscrepant(v, secretKey, HiddenIndices(v.p, v.s, SigningHash(v, pk, message), LittleEndian32(n)));
  }

  // -------------------------------------------------------------------------
  // Writing a signature
  // -------------------------------------------------------------------------

  lemma NothingReplaced(before: Bytes, at: nat)
    requires at <= |before|
    ensures Replaces(before, before, at, [])
  {
  }

  // Writes x behind the c already written; returns the offset behind it.
  method Append(signature: array<Byte>, ghost before: Bytes, ghost at: nat, ghost c: Bytes, offset: nat, x: Bytes)
    returns (next: nat)
    requires Replaces(before, signature[..], at, c) && offset == at + |c| && offset + |x| <= |before|
    modifies signature
    ensures next == at + |c + x| && Replaces(before, signature[..], at, c + x)
  {
    ghost var now := signature[..];
    CopyInto(signature, offset, x);
    assert now[..offset] == before[..at] + c;
    assert now[offset + |x|..] == before[offset + |x|..];
    next := offset + |x|;
  }

  // One encoded row, element by element.
  method WriteRow(signature: array<Byte>, ghost before: Bytes, ghost at: nat, ghost c: Bytes, offset: nat,
                  row: seq<Ext>) returns (next: nat)
    requires Replaces(before, signature[..], at, c) && offset == at + |c| && offset + 2 * |row| <= |before|
    modifies signature
    ensures next == at + |c + EncodeRow(row)| && Replaces(before, signature[..], at, c + EncodeRow(row))
  {
    ghost var f := RowBytes(row);
    next := offset;
    ConcatNothing(c, f);
    hide ToBytes, Concat, Replaces;
    for j := 0 to |row|
      invariant next == at + |c + Concat(j, f)| == offset + 2 * j
      invariant Replaces(before, signature[..], at, c + Concat(j, f))
    {
      ConcatNext(c, j, f);
      next := Append(signature, before, at, c + Concat(j, f), next, ToBytes(row[j]));
    }
  }

  lemma RowPiece(rows: seq<seq<Ext>>, e: nat)
    requires e < |rows|
    ensures RowsBytes(rows)(e) == EncodeRow(rows[e]) && |EncodeRow(rows[e])| == 2 * |rows[e]|
  {
  }

  // All rows, one after the other.
  method WriteRows(signature: array<Byte>, at: nat, rows: seq<seq<Ext>>) returns (offset: nat)
    requires at + |EncodeAll(rows)| <= signature.Length
    modifies signature
    ensures offset == at + |EncodeAll(rows)|
    ensures Replaces(old(signature[..]), signature[..], at, EncodeAll(rows))
  {
    ghost var f := RowsBytes(rows);
    ghost var before := signature[..];
    offset := at;
    NothingReplaced(before, at);
    assert Concat(0, f) == [];
    hide EncodeRow, Replaces, Concat, RowsBytes;
    for e := 0 to |rows|
      invariant offset == at + |Concat(e, f)|
      invariant Replaces(before, signature[..], at, Concat(e, f))
    {
      PieceFits(e, |rows|, f);
      RowPiece(rows, e);
      offset := WriteRow(signature, before, at, Concat(e, f), offset, rows[e]);
    }
  }

  // Salt, both commitments and alpha_one; the second commitment is computed
  // from the alpha_one bytes already written.
  method WriteCommitments(p: Primitives, s: Profile, salt: Block, first: Bytes, alphaZero: seq<seq<Ext>>,
                          alphaOne: seq<seq<Ext>>, signature: array<Byte>)
    returns (second: Bytes)
    requires |first| == DIGEST_SIZE && Shaped(s, alphaOne) && signature.Length == s.SignatureSize()
    modifies signature
    ensures second == SecondCommitment(p, alphaZero, EncodeAll(alphaOne))
    ensures signature[..] == salt + first + second + EncodeAll(alphaOne) + old(signature[OpeningOffset(s)..])
  {
    hide EncodeAll, SecondCommitment;
    ghost var b0 := signature[..];
    CopyInto(signature, 0, salt);
    ghost var b1 := signature[..];
    CopyInto(signature, SEED_SIZE, first);
    ghost var b2 := signature[..];
    EncodeAllLength(s, alphaOne);
    var offset := WriteRows(signature, AlphaOffset(), alphaOne);
    assert offset == OpeningOffset(s);
    ghost var b3 := signature[..];
    ghost var e := EncodeAll(alphaOne);
    CommitmentsLaidOut(s, b0, b1, b2, b3, salt, first, e);
    second := HashAlphas(p, alphaZero, signature[AlphaOffset()..OpeningOffset(s)]);
    CopyInto(signature, SEED_SIZE + DIGEST_SIZE, second);
    SecondLaidOut(s, b3, signature[..], salt + first, second, e);
  }

  lemma CommitmentsLaidOut(s: Profile, b0: Bytes, b1: Bytes, b2: Bytes, b3: Bytes, salt: Block, first: Bytes, e: Bytes)
    requires |b0| == s.SignatureSize() && |first| == DIGEST_SIZE && |e| == s.AlphaSize()
    requires b1 == b0[..0] + salt + b0[SEED_SIZE..]
    requires b2 == b1[..SEED_SIZE] + first + b1[SEED_SIZE + DIGEST_SIZE..]
    requires b3 == b2[..AlphaOffset()] + e + b2[OpeningOffset(s)..]
    ensures |b3| == |b0| && b3[..SEED_SIZE + DIGEST_SIZE] == salt + first
    ensures b3[AlphaOffset()..OpeningOffset(s)] == e && b3[OpeningOffset(s)..] == b0[OpeningOffset(s)..]
  {
    var i := SEED_SIZE + DIGEST_SIZE;
    assert b1[..SEED_SIZE] == salt;
    assert b2[..i] == salt + first;
    assert b3[..i] == b2[..AlphaOffset()][..i] == b2[..i];
  }

  lemma SecondLaidOut(s: Profile, b3: Bytes, b4: Bytes, head: Bytes, second: Bytes, e: Bytes)
    requires |b3| == s.SignatureSize() && |second| == DIGEST_SIZE && |e| == s.AlphaSize()
    requires b3[..SEED_SIZE + DIGEST_SIZE] == head && b3[AlphaOffset()..OpeningOffset(s)] == e
    requires b4 == b3[..SEED_SIZE + DIGEST_SIZE] + second + b3[AlphaOffset()..]
    ensures b4 == head + second + e + b3[OpeningOffset(s)..]
  {
    assert b3[AlphaOffset()..] == e + b3[OpeningOffset(s)..];
  }

  method WriteResponse(s: Profile, opening: Bytes, nonce: Bytes, signature: array<Byte>)
    requires signature.Length == s.SignatureSize() && |opening| == s.OpeningSize() && |nonce| == NONCE_SIZE
    modifies signature
    ensures signature[..] == old(signature[..OpeningOffset(s)]) + opening + nonce
  {
    CopyInto(signature, OpeningOffset(s), opening);
    CopyInto(signature, NonceOffset(s), nonce);
  }

  // -------------------------------------------------------------------------
  // sign
  // -------------------------------------------------------------------------

  // Commitment and coefficients are those of the specification.
  lemma AlphasAreHonest(v: Inputs, c: SigningCommitment, masterSeed: Bytes, alphaZero: seq<seq<Ext>>,
                        alphaOne: seq<seq<Ext>>)
    requires v.Valid() && CommitmentFor(v, c) && CommitmentShaped(v.s, c)
    requires |alphaZero| == |alphaOne| == v.s.executions
    requires forall e: nat :: e < v.s.executions ==>
      AlphasFor(v.p, v.s, Commitment(v), masterSeed, v.secret, c.xZero[e], c.uZero[e], c.uOne[e], alphaZero[e],
        alphaOne[e])
    ensures alphaZero == AlphaZeros(v, masterSeed) && alphaOne == AlphaOnes(v, masterSeed)
  {
    hide AlphaZero, AlphaOne, LineConstant, LineSlope, Equations, Batching, LiftAll, Commitment, LeafHash, PartialDelta,
      RootSeed, Delta;
    forall e: nat, j: nat | e < v.s.executions && j < v.s.repetitions
      ensures alphaZero[e][j] == HonestZero(v, masterSeed, e, j) && alphaOne[e][j] == HonestOne(v, masterSeed, e, j)
    {
      assert c.xZero[e] == XConstants(v, e);
    }
    MatricesEqual(v.s, alphaZero, AlphaZeros(v, masterSeed));
    MatricesEqual(v.s, alphaOne, AlphaOnes(v, masterSeed));
  }

  ghost predicate CommitmentShaped(s: Profile, c: SigningCommitment) {
    && |c.xZero| == |c.uZero| == |c.uOne| == s.executions
    && forall e :: 0 <= e < s.executions ==> |c.xZero[e]| == s.variables && |c.uZero[e]| == |c.uOne[e]| == s.repetitions
  }

  lemma CommitmentIsShaped(v: Inputs, c: SigningCommitment)
    requires v.Valid() && CommitmentFor(v, c)
    ensures CommitmentShaped(v.s, c)
  {
    hide LineConstant, LineSlope, LeafHash, PartialDelta, RootSeed, Delta;
  }

  // Everything up to the challenge: the commitment and the signer's matrices.
  method CommitToSecret(p: Primitives, s: Profile, secretKey: Bytes, master: Block, salt: Block)
    returns (commitment: SigningCommitment, alphaZero: seq<seq<Ext>>, alphaOne: seq<seq<Ext>>)
    requires |secretKey| == s.SecretKeySize()
    ensures var v := Inputs(p, s, master, salt, SecretOf(s, secretKey));
      && CommitmentFor(v, commitment)
      && alphaZero == AlphaZeros(v, secretKey[..2 * SEED_SIZE])
      && alphaOne == AlphaOnes(v, secretKey[..2 * SEED_SIZE])
  {
    hide AlphaZeros, AlphaOnes, AlphasFor, CommitsExecution, Commitment, RootSeed;
    var secretVector := new Gf16[s.variables];
    var ok := UnpackGf16(secretKey[s.PublicKeySize()..], secretVector);
    var secret := secretVector[..];
    ghost var v := Inputs(p, s, master, salt, SecretOf(s, secretKey));
    commitment := Commit(p, s, master, salt, secret);
    CommitmentIsShaped(v, commitment);
    alphaZero, alphaOne := ComputeAlpha(p, s, commitment.commitment, commitment.xZero, commitment.uZero,
      commitment.uOne, secret, secretKey[..2 * SEED_SIZE]);
    AlphasAreHonest(v, commitment, secretKey[..2 * SEED_SIZE], alphaZero, alphaOne);
  }

  // The honest parts under the least nonce, laid out.
  ghost predicate IsSignature(v: Inputs, publicKey: Bytes, message: Bytes, signature: Bytes)
    requires v.Valid() && |publicKey| == v.s.PublicKeySize()
  {
    |signature| == v.s.SignatureSize() && exists n: nat :: Signs(v, publicKey, message, Disassemble(v.s, signature), n)
  }

  // The outcome of `sign`: the honest signature if there is a nonce and the
  // self-verification passes, nothing otherwise.
  ghost predicate Outcome(v: Inputs, publicKey: Bytes, message: Bytes, result: Option<Bytes>)
    requires v.Valid() && |publicKey| == v.s.PublicKeySize()
  {
    && (result.Some? <==> SelfCheck(v, publicKey, message))
    && (result.Some? ==> IsSignature(v, publicKey, message, result.value))
    && (result.Some? ==> Verifies(v.p, v.s, publicKey, message, result.value))
  }

  lemma AssembledIsSignature(v: Inputs, publicKey: Bytes, message: Bytes, a: Parts, n: nat)
    requires v.Valid() && |publicKey| == v.s.PublicKeySize() && PartsSized(v.s, a) && Signs(v, publicKey, message, a, n)
    ensures IsSignature(v, publicKey, message, Assemble(a))
  {
    hide Signs, Assemble, Disassemble;
    DisassembleAssembled(v.s, a);
  }

  lemma VerdictIsSelfCheck(v: Inputs, publicKey: Bytes, message: Bytes, a: Parts, n: nat)
    requires v.Valid() && |publicKey| == v.s.PublicKeySize() && Signs(v, publicKey, message, a, n)
    ensures Verifies(v.p, v.s, publicKey, message, Assemble(a)) <==> SelfCheck(v, publicKey, message)
  {
    hide Verifies, SelfCheck, LeastNonce, IsOpening, Grinds, Discrepant, AlphaZeros, AlphaOnes, SecondCommitment,
      EncodeAll, Commitment, FiatShamirHash, Assemble;
    Verdict(v, publicKey, message, a);
    SelfCheckAtLeastNonce(v, publicKey, message, n);
  }

  // Parts with the signer's commitments, a least nonce and its opening.
  lemma PartsAreSigned(v: Inputs, publicKey: Bytes, message: Bytes, a: Parts, n: nat)
    requires v.Valid() && |publicKey| == v.s.PublicKeySize()
    requires a.salt == v.salt && a.first == Commitment(v) && a.second == SignerSecond(v, publicKey)
    requires a.alphaOne == EncodeAll(AlphaOnes(v, publicKey[..2 * SEED_SIZE]))
    requires LeastNonce(v.p, v.s, SigningHash(v, publicKey, message), n) && a.nonce == LittleEndian32(n)
    requires IsOpening(v, a.opening, HiddenIndices(v.p, v.s, SigningHash(v, publicKey, message), a.nonce))
    ensures Signs(v, publicKey, message, a, n) && PartsSized(v.s, a)
  {
    hide OpensExecution, Grinds, HiddenIndices, AlphaZeros, AlphaOnes, EncodeAll, SecondCommitment, Commitment,
      FiatShamirHash, LittleEndian32;
    EncodeAllLength(v.s, AlphaOnes(v, publicKey[..2 * SEED_SIZE]));
  }

  // From the Fiat-Shamir hash on: search the nonce, open, verify.
  method Respond(ghost v: Inputs, p: Primitives, s: Profile, publicKey: Bytes, message: Bytes,
                 commitment: SigningCommitment, hash: Bytes,
                 signature: array<Byte>, ghost alphaOne: Bytes)
    returns (result: Option<Bytes>)
    requires v.Valid() && v.p == p && v.s == s && |publicKey| == s.PublicKeySize() && CommitmentFor(v, commitment)
    requires hash == SigningHash(v, publicKey, message) && signature.Length == s.SignatureSize()
    requires alphaOne == EncodeAll(AlphaOnes(v, publicKey[..2 * SEED_SIZE]))
    requires signature[..OpeningOffset(s)] == v.salt + Commitment(v) + SignerSecond(v, publicKey) + alphaOne
    modifies signature
    ensures Outcome(v, publicKey, message, result)
  {
    hide Verifies, SelfCheck, Signs, CommitmentFor, IsOpening, LeastNonce, Commitment, SignerSecond, SigningHash,
      Solvable, AlphaOnes, EncodeAll, HiddenIndices, LittleEndian32, PartsSized, IsSignature;
    var found, nonceValue := SampleChallenge(p, s, hash);
    if found.None? {
      if SelfCheck(v, publicKey, message) {
        SelfCheckNeedsNonce(v, publicKey, message);
      }
      return None;
    }
    HiddenIndicesBelow(p, s, hash, found.value.1);
    var opening := Open(v, p, s, commitment, found.value.0);
    OpeningSized(v, opening.value, found.value.0);
    WriteResponse(s, opening.value, found.value.1, signature);
    ghost var a := Parts(v.salt, Commitment(v), SignerSecond(v, publicKey), alphaOne, opening.value, found.value.1);
    PartsAreSigned(v, publicKey, message, a, nonceValue);
    VerdictIsSelfCheck(v, publicKey, message, a, nonceValue);
    AssembledIsSignature(v, publicKey, message, a, nonceValue);
    assert signature[..] == Assemble(a);
    var verified := VerifySignature(p, s, publicKey, message, signature[..]);
    result := if verified then Some(signature[..]) else None;
  }

  lemma OpeningSized(v: Inputs, opening: Bytes, hidden: seq<nat>)
    requires v.Valid() && IsOpening(v, opening, hidden)
    ensures |opening| == v.s.OpeningSize()
  {
  }

  lemma CommittedDigest(v: Inputs, c: SigningCommitment)
    requires v.Valid() && CommitmentFor(v, c)
    ensures c.commitment == Commitment(v) && c.salt == v.salt
  {
  }

  method Sign(p: Primitives, s: Profile, secretKey: Bytes, message: Bytes, master: Block, salt: Block)
    returns (result: Option<Bytes>)
    requires |secretKey| == s.SecretKeySize()
    ensures var v := Inputs(p, s, master, salt, SecretOf(s, secretKey));
      var publicKey := secretKey[..s.PublicKeySize()];
      && Outcome(v, publicKey, message, result)
      && (Consistent(p, s, secretKey) ==> (result.Some? <==> Solvable(p, s, SigningHash(v, publicKey, message))))
  {
    hide Verifies, SelfCheck, Signs, IsSignature, Solvable, CommitmentFor, Commitment, SecondCommitment, AlphaZeros,
      AlphaOnes, EncodeAll, FiatShamirHash, StoredOutputMatches, SecretOf;
    var publicKey := secretKey[..s.PublicKeySize()];
    ghost var v := Inputs(p, s, master, salt, SecretOf(s, secretKey));
    assert publicKey[..2 * SEED_SIZE] == secretKey[..2 * SEED_SIZE];
    var commitment, alphaZero, alphaOne := CommitToSecret(p, s, secretKey, master, salt);
    CommittedDigest(v, commitment);
    var signature := new Byte[s.SignatureSize()](_ => 0);
    var second := WriteCommitments(p, s, salt, commitment.commitment, alphaZero, alphaOne, signature);
    var hash := HashTranscript(p, publicKey, commitment.commitment, second, message);
    result := Respond(v, p, s, publicKey, message, commitment, hash, signature, EncodeAll(alphaOne));
    if Consistent(p, s, secretKey) {
      ConsistentSelfCheck(v, secretKey, message);
    }
  }
}
