// The challenge: src/sign.rs, sample_challenge, and src/verify.rs, parse_challenge.
module Challenge {
  import opened Words
  import opened ByteStrings
  import opened Params
  import opened Prg

  ghost function ChallengeStream(p: Primitives, s: Profile, hash: Bytes, nonce: Bytes): (b: Bytes)
    ensures |b| == 2 * s.executions + 2
  {
    Xof(p, [0x05] + hash + nonce, 2 * s.executions + 2)
  }

  ghost function HiddenIndex(p: Primitives, s: Profile, hash: Bytes, nonce: Bytes, e: nat): nat
    requires e < s.executions
  {
    var b := ChallengeStream(p, s, hash, nonce);
    And(FromLittleEndian16(b[2 * e], b[2 * e + 1]), s.Leaves() - 1)
  }

  ghost function HiddenIndices(p: Primitives, s: Profile, hash: Bytes, nonce: Bytes): (h: seq<nat>)
    ensures |h| == s.executions
  {
    seq(s.executions, e requires 0 <= e < s.executions => HiddenIndex(p, s, hash, nonce, e))
  }

  // The grinding bits of the stream for this nonce are zero.
  ghost predicate Grinds(p: Primitives, s: Profile, hash: Bytes, nonce: Bytes) {
    var b := ChallengeStream(p, s, hash, nonce);
    And(FromLittleEndian16(b[2 * s.executions], b[2 * s.executions + 1]), Pow2(s.grindingBits) - 1) == 0
  }

  // Every index masked this way is a leaf index.
  lemma HiddenIndicesBelow(p: Primitives, s: Profile, hash: Bytes, nonce: Bytes)
    ensures forall e :: 0 <= e < s.executions ==> HiddenIndices(p, s, hash, nonce)[e] < s.Leaves()
  {
    forall e: nat | e < s.executions
      ensures HiddenIndex(p, s, hash, nonce, e) < s.Leaves()
    {
      var b := ChallengeStream(p, s, hash, nonce);
      AndBound(FromLittleEndian16(b[2 * e], b[2 * e + 1]), s.Leaves() - 1);
    }
  }

  method ParseChallenge(p: Primitives, s: Profile, hash: Bytes, nonce: Bytes) returns (indices: Option<seq<nat>>)
    ensures indices.Some? <==> Grinds(p, s, hash, nonce)
    ensures indices.Some? ==> indices.value == HiddenIndices(p, s, hash, nonce)
  {
    hide And, FromLittleEndian16;
    var stream := Xof(p, [0x05] + hash + nonce, 2 * s.executions + 2);
    var evaluationMask := s.Leaves() - 1;
    var parsed := seq(s.executions, e requires 0 <= e < s.executions =>
      And(FromLittleEndian16(stream[2 * e], stream[2 * e + 1]), evaluationMask));
    assert parsed == HiddenIndices(p, s, hash, nonce);
    var grinding := FromLittleEndian16(stream[2 * s.executions], stream[2 * s.executions + 1]);
    var grindingMask := Pow2(s.grindingBits) - 1;
    if And(grinding, grindingMask) == 0 {
      return Some(parsed);
    }
    return None;
  }

  const NONCE_COUNT: nat := 0x1_0000_0000

  // n is the least 32-bit nonce that grinds.
  ghost predicate LeastNonce(p: Primitives, s: Profile, hash: Bytes, n: nat) {
    && n < NONCE_COUNT && Grinds(p, s, hash, LittleEndian32(n))
    && forall k: nat :: k < n ==> !Grinds(p, s, hash, LittleEndian32(k))
  }

  // Some nonce grinds.
  ghost predicate Solvable(p: Primitives, s: Profile, hash: Bytes) {
    exists n: nat :: n < NONCE_COUNT && Grinds(p, s, hash, LittleEndian32(n))
  }

  method SampleChallenge(p: Primitives, s: Profile, hash: Bytes)
    returns (found: Option<(seq<nat>, Bytes)>, ghost nonceValue: nat)
    ensures found.Some? <==> Solvable(p, s, hash)
    ensures found.Some? ==> LeastNonce(p, s, hash, nonceValue) && found.value.1 == LittleEndian32(nonceValue)
    ensures found.Some? ==> found.value.0 == HiddenIndices(p, s, hash, found.value.1)
  {
    hide And, FromLittleEndian16, LittleEndian32;
    var evaluationMask := s.Leaves() - 1;
    var grindingMask := Pow2(s.grindingBits) - 1;
    nonceValue := 0;
    for n: nat := 0 to NONCE_COUNT
      invariant forall k: nat :: k < n ==> !Grinds(p, s, hash, LittleEndian32(k))
    {
      var nonce := LittleEndian32(n);
      var stream := Xof(p, [0x05] + hash + nonce, 2 * s.executions + 2);
      var grinding := FromLittleEndian16(stream[2 * s.executions], stream[2 * s.executions + 1]);
      if And(grinding, grindingMask) == 0 {
        nonceValue := n;
        var indices := seq(s.executions, e requires 0 <= e < s.executions =>
          And(FromLittleEndian16(stream[2 * e], stream[2 * e + 1]), evaluationMask));
        assert indices == HiddenIndices(p, s, hash, nonce);
        assert Grinds(p, s, hash, LittleEndian32(n));
        return Some((indices, nonce)), n;
      }
    }
    return None, 0;
  }

  // -------------------------------------------------------------------------
  // What index, grinding and nonce mean
  // -------------------------------------------------------------------------

  // The 16-bit word at a position of the stream, low byte first.
  ghost function WordAt(p: Primitives, input: Bytes, at: nat): nat {
    Number(p.xof(input, at)) + 256 * Number(p.xof(input, at + 1))
  }

  lemma MaskedWord(lo: Byte, hi: Byte, k: nat)
    ensures And(FromLittleEndian16(lo, hi), Pow2(k) - 1) == (Number(lo) + 256 * Number(hi)) % Pow2(k)
  {
    hide And, FromLittleEndian16, Pow2, Number;
    FromLittleEndianValue(lo, hi);
    AndMask(FromLittleEndian16(lo, hi), k);
  }

  // The hidden index of execution e is word e of the stream modulo the number of leaves.
  lemma HiddenIndexIsWord(p: Primitives, s: Profile, hash: Bytes, nonce: Bytes, e: nat)
    requires e < s.executions
    ensures HiddenIndices(p, s, hash, nonce)[e] == WordAt(p, [0x05] + hash + nonce, 2 * e) % Pow2(s.depth)
  {
    hide And, FromLittleEndian16, Pow2, Number;
    var b := ChallengeStream(p, s, hash, nonce);
    MaskedWord(b[2 * e], b[2 * e + 1], s.depth);
  }

  // A nonce grinds exactly when the word behind the indices is divisible by 2^grindingBits.
  lemma GrindsIsDivisible(p: Primitives, s: Profile, hash: Bytes, nonce: Bytes)
    ensures Grinds(p, s, hash, nonce) <==>
      WordAt(p, [0x05] + hash + nonce, 2 * s.executions) % Pow2(s.grindingBits) == 0
  {
    hide And, FromLittleEndian16, Pow2, Number;
    var n := 2 * s.executions;
    var b := ChallengeStream(p, s, hash, nonce);
    assert b[n] == p.xof([0x05] + hash + nonce, n) && b[n + 1] == p.xof([0x05] + hash + nonce, n + 1);
    MaskedWord(b[n], b[n + 1], s.grindingBits);
  }

  // The search covers every nonce there is.
  lemma SolvableByBytes(p: Primitives, s: Profile, hash: Bytes)
    ensures Solvable(p, s, hash) <==> exists nonce: Bytes :: |nonce| == NONCE_SIZE && Grinds(p, s, hash, nonce)
  {
    hide Grinds, LittleEndian32;
    if nonce: Bytes :| |nonce| == NONCE_SIZE && Grinds(p, s, hash, nonce) {
      var n := LittleEndian32Onto(nonce);
    }
    if n: nat :| n < NONCE_COUNT && Grinds(p, s, hash, LittleEndian32(n)) {
      assert |LittleEndian32(n)| == NONCE_SIZE;
    }
  }
}
