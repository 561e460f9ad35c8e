// What the hashes of the transcript depend on. Each lemma takes a hypothesis
// for every AES and SHAKE128 and applies it to one chosen pair of functions.
module TranscriptBinding {
  import opened Words
  import opened ByteStrings
  import opened ExtensionField
  import opened Mq
  import opened Params
  import opened Prg
  import opened SeedTree
  import opened LineCommitment
  import opened Keygen
  import opened Alpha
  import opened Challenge
  import opened Signature

  ghost function NoCipher(): (Bytes, Bytes, nat) -> Byte {
    (key, block, i) => 0
  }

  // SHAKE128 that answers 1 on x and 0 elsewhere.
  ghost function Marking(x: Bytes): Primitives {
    Primitives(NoCipher(), (b: Bytes, i: nat) => if b == x then 1 else 0)
  }

  lemma MarkedEqual(x: Bytes, y: Bytes, size: nat)
    requires size >= 1 && Xof(Marking(x), x, size) == Xof(Marking(x), y, size)
    ensures x == y
  {
    assert Xof(Marking(x), x, size)[0] == 1;
    assert Xof(Marking(x), y, size)[0] == if y == x then 1 else 0;
  }

  // -------------------------------------------------------------------------
  // The second commitment
  // -------------------------------------------------------------------------

  // It determines alpha_zero and the alpha_one bytes.
  lemma SecondCommitmentBinds(s: Profile, a: seq<seq<Ext>>, b: seq<seq<Ext>>, x: Bytes, y: Bytes)
    requires Shaped(s, a) && Shaped(s, b) && |x| == |y|
    requires forall p :: SecondCommitment(p, a, x) == SecondCommitment(p, b, y)
    ensures a == b && x == y
  {
    var u, v := [0x03] + EncodeAll(a) + x, [0x03] + EncodeAll(b) + y;
    assert SecondCommitment(Marking(u), a, x) == SecondCommitment(Marking(u), b, y);
    MarkedEqual(u, v, DIGEST_SIZE);
    DecodeEncoded(s, a);
    DecodeEncoded(s, b);
    hide EncodeAll, DecodeAll, Marking;
    var n := s.AlphaSize();
    assert u[1..1 + n] == EncodeAll(a) && v[1..1 + n] == EncodeAll(b);
    assert u[1 + n..] == x && v[1 + n..] == y;
  }

  // -------------------------------------------------------------------------
  // The Fiat-Shamir hash
  // -------------------------------------------------------------------------

  // SHAKE128 that is 0 on messages and marks one transcript.
  ghost function MarkingTranscript(x: Bytes): Primitives {
    Primitives(NoCipher(), (b: Bytes, i: nat) => if ByteAt(b, 0) != 2 && b == x then 1 else 0)
  }

  // SHAKE128 that marks one message and repeats the last byte of a transcript.
  ghost function MarkingMessage(m: Bytes): Primitives {
    Primitives(NoCipher(), (b: Bytes, i: nat) =>
      if ByteAt(b, 0) == 4 then b[|b| - 1] else if b == [0x02] + m then 1 else 0)
  }

  // It determines the key, both commitments and the message.
  lemma FiatShamirBinds(k: Bytes, f: Bytes, g: Bytes, m: Bytes, k': Bytes, f': Bytes, g': Bytes, m': Bytes)
    requires |k| == |k'| && |f| == |f'| && |g| == |g'|
    requires forall p :: FiatShamirHash(p, k, f, g, m) == FiatShamirHash(p, k', f', g', m')
    ensures k == k' && f == f' && g == g' && m == m'
  {
    TranscriptBinds(k, f, g, m, k', f', g', m');
    MessageBinds(k, f, g, m, k', f', g', m');
  }

  lemma TranscriptBinds(k: Bytes, f: Bytes, g: Bytes, m: Bytes, k': Bytes, f': Bytes, g': Bytes, m': Bytes)
    requires |k| == |k'| && |f| == |f'| && |g| == |g'|
    requires forall p :: FiatShamirHash(p, k, f, g, m) == FiatShamirHash(p, k', f', g', m')
    ensures k == k' && f == f' && g == g'
  {
    var zero := Zeros(DIGEST_SIZE);
    var x, y := [0x04] + k + f + g + zero, [0x04] + k' + f' + g' + zero;
    var p := MarkingTranscript(x);
    assert Xof(p, [0x02] + m, DIGEST_SIZE) == zero == Xof(p, [0x02] + m', DIGEST_SIZE);
    assert FiatShamirHash(p, k, f, g, m)[0] == 1;
    assert FiatShamirHash(p, k', f', g', m')[0] == if y == x then 1 else 0;
    assert x[1..1 + |k|] == k && y[1..1 + |k|] == k';
    assert x[1 + |k|..1 + |k| + |f|] == f && y[1 + |k|..1 + |k| + |f|] == f';
    assert x[1 + |k| + |f|..1 + |k| + |f| + |g|] == g && y[1 + |k| + |f|..1 + |k| + |f| + |g|] == g';
  }

  lemma MessageBinds(k: Bytes, f: Bytes, g: Bytes, m: Bytes, k': Bytes, f': Bytes, g': Bytes, m': Bytes)
    requires forall p :: FiatShamirHash(p, k, f, g, m) == FiatShamirHash(p, k', f', g', m')
    ensures m == m'
  {
    var p := MarkingMessage(m);
    MarkedMessage(k, f, g, m, m);
    MarkedMessage(k', f', g', m', m);
    assert FiatShamirHash(p, k, f, g, m) == FiatShamirHash(p, k', f', g', m');
  }

  lemma MarkedMessage(k: Bytes, f: Bytes, g: Bytes, m: Bytes, marked: Bytes)
    ensures FiatShamirHash(MarkingMessage(marked), k, f, g, m)[0] == if m == marked then 1 else 0
  {
    var p := MarkingMessage(marked);
    var h := Xof(p, [0x02] + m, DIGEST_SIZE);
    assert ([0x02] + m)[1..] == m && ([0x02] + marked)[1..] == marked;
    assert h[DIGEST_SIZE - 1] == if m == marked then 1 else 0;
    var x := [0x04] + k + f + g + h;
    assert x[|x| - 1] == h[DIGEST_SIZE - 1];
  }

  // -------------------------------------------------------------------------
  // Streams
  // -------------------------------------------------------------------------

  // The challenge stream determines hash and nonce.
  lemma ChallengeStreamBinds(s: Profile, hash: Bytes, nonce: Bytes, hash': Bytes, nonce': Bytes)
    requires |hash| == |hash'|
    requires forall p :: ChallengeStream(p, s, hash, nonce) == ChallengeStream(p, s, hash', nonce')
    ensures hash == hash' && nonce == nonce'
  {
    var x, y := [0x05] + hash + nonce, [0x05] + hash' + nonce';
    assert ChallengeStream(Marking(x), s, hash, nonce) == ChallengeStream(Marking(x), s, hash', nonce');
    MarkedEqual(x, y, 2 * s.executions + 2);
    assert x[1..1 + |hash|] == hash && y[1..1 + |hash|] == hash';
    assert x[1 + |hash|..] == nonce && y[1 + |hash|..] == nonce';
  }

  // A batching row determines the first commitment.
  lemma BatchingBinds(s: Profile, first: Bytes, first': Bytes, j: nat)
    requires s.equations >= 1 && j < s.repetitions
    requires forall p :: Batching(p, s, first, j) == Batching(p, s, first', j)
    ensures first == first'
  {
    var x, y := [0x08] + first, [0x08] + first';
    var p := Marking(x);
    BatchingAt(p, s, first, j, 0);
    BatchingAt(p, s, first', j, 0);
    assert Batching(p, s, first, j) == Batching(p, s, first', j);
    assert x[1..] == first && y[1..] == first';
  }

  // Coefficient i of row j is element j * m + i of the stream.
  lemma BatchingAt(p: Primitives, s: Profile, first: Bytes, j: nat, i: nat)
    requires j < s.repetitions && i < s.equations
    ensures var at := j * (2 * s.equations) + 2 * i;
      Batching(p, s, first, j)[i] == Ext(p.xof([0x08] + first, at), p.xof([0x08] + first, at + 1))
  {
    hide Piece;
    var b, size, start := BatchingStream(p, s, first), 2 * s.equations, j * (2 * s.equations);
    PieceAt(b, s.repetitions, size, j, 2 * i);
    PieceAt(b, s.repetitions, size, j, 2 * i + 1);
    ChunkIsPiece(p, s, first, j);
    hide BatchingChunk;
    assert b[start + 2 * i] == p.xof([0x08] + first, start + 2 * i);
    assert b[start + (2 * i + 1)] == p.xof([0x08] + first, start + 2 * i + 1);
  }

  // Without the cipher, byte 8 of a stream is byte 0 of its seed.
  lemma FirstDerivedByte(p: Primitives, seed: Block, size: nat)
    requires p.aes == NoCipher() && size >= SEED_SIZE
    ensures Stream(p, Zeros(SEED_SIZE), 0, seed, size)[8] == seed[0]
  {
    hide Derived, Stream, Tweaked, XorByte;
    StreamBlock(p, Zeros(SEED_SIZE), 0, seed, size, 0);
    var key := Tweaked(Zeros(SEED_SIZE), 3, 0, 0);
    DerivedAt(p, key, seed, 0);
    XorByteFacts(Derived(p, key, seed)[8], 0);
  }

  // The coefficients of an equation determine the public seed and its index.
  lemma EquationBinds(s: Profile, masterSeed: Bytes, index: nat, masterSeed': Bytes, index': nat)
    requires |masterSeed| == |masterSeed'| && index < 65536 && index' < 65536
    requires forall p :: Equation(p, s, masterSeed, index) == Equation(p, s, masterSeed', index')
    ensures masterSeed == masterSeed' && index == index'
  {
    var x, y := [0x01] + masterSeed + LittleEndian16(index), [0x01] + masterSeed' + LittleEndian16(index');
    var p := Marking(x);
    EquationShowsSeed(p, s, masterSeed, index);
    EquationShowsSeed(p, s, masterSeed', index');
    assert Equation(p, s, masterSeed, index) == Equation(p, s, masterSeed', index');
    hide Equation, ToByte;
    var n := |masterSeed|;
    assert x[1..1 + n] == masterSeed && y[1..1 + n] == masterSeed';
    assert x[1 + n..] == LittleEndian16(index) && y[1 + n..] == LittleEndian16(index');
    LittleEndian16Injective(index, index');
  }

  lemma EquationShowsSeed(p: Primitives, s: Profile, masterSeed: Bytes, index: nat)
    requires p.aes == NoCipher()
    ensures |Equation(p, s, masterSeed, index).quadratic| > 4
    ensures Equation(p, s, masterSeed, index).quadratic[4].c0 == p.xof([0x01] + masterSeed + LittleEndian16(index), 0)
  {
    hide Stream, ToByte;
    var seed := Xof(p, [0x01] + masterSeed + LittleEndian16(index), SEED_SIZE);
    TriangleMonotone(32, s.variables);
    TriangleClosedForm(32);
    hide Triangle;
    FirstDerivedByte(p, seed, s.EquationSize());
    assert EquationStream(p, s, masterSeed, index)[8] == seed[0];
  }

  // -------------------------------------------------------------------------
  // Tags
  // -------------------------------------------------------------------------

  // SHAKE128 that repeats the first absorbed byte.
  ghost function FirstByte(): Primitives {
    Primitives(NoCipher(), (b: Bytes, i: nat) => ByteAt(b, 0))
  }

  // Every use of SHAKE128 in the transcript has its own first byte.
  lemma Tags(s: Profile, rows: seq<seq<Ext>>, k: Bytes, f: Bytes, g: Bytes, m: Bytes, t: Context, path: Bytes,
             hidden: seq<nat>, j: nat)
    requires t.p == FirstByte()
    ensures SecondCommitment(FirstByte(), rows, m)[0] == 3
    ensures FiatShamirHash(FirstByte(), k, f, g, m)[0] == 4
    ensures ChallengeStream(FirstByte(), s, k, m)[0] == 5
    ensures OpenedHash(t, s, path, j, m)[0] == 6
    ensures ObservedCommitment(FirstByte(), s, t.salt, path, hidden)[0] == 7
    ensures 0 < |BatchingStream(FirstByte(), s, f)| ==> BatchingStream(FirstByte(), s, f)[0] == 8
  {
    hide EncodeAll, OpenedCommitments, OpenedHashes;
  }
}
