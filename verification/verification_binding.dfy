// What the verdict of src/verify.rs depends on: every byte of the public key, of
// the message and of the signature.
module VerificationBinding {
  import opened Words
  import opened ByteStrings
  import opened ExtensionField
  import opened Params
  import opened Prg
  import opened SeedTree
  import opened LineCommitment
  import opened Challenge
  import opened Signature
  import opened TranscriptBinding
  import opened OpeningBinding

  // -------------------------------------------------------------------------
  // Functions under which a chosen signature verifies
  // -------------------------------------------------------------------------

  // Commitments of p0 are judged: the first commitment is answered on strings
  // that p0 maps to the target, the second on strings that pass the test, and
  // all other bytes elsewhere. Messages, transcripts and challenges are `other`.
  datatype Judge = Judge(p0: Primitives, target: Bytes, first: Bytes, second: Bytes, passes: Bytes -> bool,
                         other: (Bytes, nat) -> Byte)

  ghost function Flip(b: Byte): Byte {
    XorByte(b, 1)
  }

  ghost function Answer(x: Bytes, right: bool, i: nat): Byte {
    if right then ByteAt(x, i) else Flip(ByteAt(x, i))
  }

  ghost function Judging(j: Judge): Primitives {
    Primitives(j.p0.aes, (b: Bytes, i: nat) =>
      if ByteAt(b, 0) == 7 then Answer(j.first, Xof(j.p0, b, DIGEST_SIZE) == j.target, i)
      else if ByteAt(b, 0) == 3 then Answer(j.second, j.passes(b), i)
      else if ByteAt(b, 0) == 6 then j.p0.xof(b, i)
      else j.other(b, i))
  }

  // The functions that see messages, transcripts and challenges alone.
  ghost function Outside(other: (Bytes, nat) -> Byte): Primitives {
    Primitives(NoCipher(), other)
  }

  lemma Answered(x: Bytes, right: bool, y: Bytes)
    requires |x| == |y| == DIGEST_SIZE && forall i :: 0 <= i < DIGEST_SIZE ==> y[i] == Answer(x, right, i)
    ensures right <==> y == x
  {
    if right {
      assert y == x;
    } else {
      FlipDiffers(x[0]);
      hide Flip;
      assert y[0] == Answer(x, right, 0);
    }
  }

  lemma FlipDiffers(b: Byte)
    ensures Flip(b) != b
  {
  }

  // -------------------------------------------------------------------------
  // The same cipher and the same leaf hashes give the same opened leaves
  // -------------------------------------------------------------------------

  lemma SameDerived(p: Primitives, q: Primitives, key: Block, seed: Block)
    requires p.aes == q.aes
    ensures Derived(p, key, seed) == Derived(q, key, seed)
  {
    assert Encrypt(p, key, seed) == Encrypt(q, key, seed);
  }

  lemma {:induction false} SamePartialNode(t: Context, u: Context, path: Bytes, d: nat, leaf: nat, i: nat)
    requires t.p.aes == u.p.aes && t.salt == u.salt && t.execution == u.execution
    ensures PartialNode(t, path, d, leaf, i) == PartialNode(u, path, d, leaf, i)
    decreases i
  {
    hide Derived, Tweaked, PathBlock, IsAncestor, Level, XorBytes;
    if i < 4 || IsAncestor(i, leaf) || IsAncestor(Sibling(i), leaf) {
    } else {
      SamePartialNode(t, u, path, d, leaf, i / 2);
      LevelPositive(i / 2);
      SameDerived(t.p, u.p, Tweaked(t.salt, 2, t.execution, Level(i / 2) - 1), PartialNode(t, path, d, leaf, i / 2));
    }
  }

  lemma SameOpenedHash(t: Context, u: Context, s: Profile, path: Bytes, hidden: nat, hiddenCommitment: Bytes)
    requires t.p.aes == u.p.aes && t.salt == u.salt && t.execution == u.execution
    requires forall b: Bytes, i: nat :: ByteAt(b, 0) == 6 ==> t.p.xof(b, i) == u.p.xof(b, i)
    ensures OpenedHash(t, s, path, hidden, hiddenCommitment) == OpenedHash(u, s, path, hidden, hiddenCommitment)
  {
    var n := s.Leaves();
    var f, g := OpenedCommitments(t, s, path, hidden, hiddenCommitment),
      OpenedCommitments(u, s, path, hidden, hiddenCommitment);
    hide Derived, Tweaked, PartialNode;
    forall j: nat | j < n
      ensures f(j) == g(j)
    {
      SamePartialNode(t, u, path, s.depth, s.Leaves() + hidden, s.Leaves() + j);
      var seed := OpenedSeed(t, s, path, hidden, j);
      SameDerived(t.p, u.p, Tweaked(t.salt, 0, t.execution, 0), seed);
      SameDerived(t.p, u.p, Tweaked(t.salt, 1, t.execution, 0), seed);
    }
    hide OpenedCommitments;
    ConcatsEqual(n, f, g);
    assert ByteAt([0x06] + Concat(n, f), 0) == 6;
  }

  // The judged commitment is the first one exactly when p0 reaches the target.
  lemma JudgedCommitment(j: Judge, s: Profile, salt: Block, opening: Bytes, hidden: seq<nat>)
    requires |j.first| == DIGEST_SIZE && |hidden| == s.executions
    ensures ObservedCommitment(Judging(j), s, salt, opening, hidden) == j.first <==>
      ObservedCommitment(j.p0, s, salt, opening, hidden) == j.target
  {
    var p := Judging(j);
    var f, g := OpenedHashes(p, s, salt, opening, hidden), OpenedHashes(j.p0, s, salt, opening, hidden);
    hide OpenedHash, PathOf, HiddenCommitmentOf, PartialDeltasOf;
    forall e: nat | e < s.executions
      ensures f(e) == g(e)
    {
      SameOpenedHash(Context(p, salt, e), Context(j.p0, salt, e), s, PathOf(s, opening, e), hidden[e],
        HiddenCommitmentOf(s, opening, e));
    }
    hide OpenedHashes;
    ConcatsEqual(s.executions, f, g);
    hide Concat;
    var x := [0x07] + Concat(s.executions, g) + PartialDeltasOf(s, opening);
    assert ByteAt(x, 0) == 7;
    Answered(j.first, Xof(j.p0, x, DIGEST_SIZE) == j.target, Xof(p, x, DIGEST_SIZE));
  }

  // The judged second commitment is the given one exactly when the string passes.
  lemma JudgedSecond(j: Judge, rows: seq<seq<Ext>>, alphaOne: Bytes)
    requires |j.second| == DIGEST_SIZE
    ensures SecondCommitment(Judging(j), rows, alphaOne) == j.second <==> j.passes([0x03] + EncodeAll(rows) + alphaOne)
  {
    hide EncodeAll;
    var x := [0x03] + EncodeAll(rows) + alphaOne;
    assert ByteAt(x, 0) == 3;
    Answered(j.second, j.passes(x), Xof(Judging(j), x, DIGEST_SIZE));
  }

  lemma SameOutside(j: Judge, b: Bytes, size: nat)
    requires ByteAt(b, 0) == 2 || ByteAt(b, 0) == 4 || ByteAt(b, 0) == 5
    ensures Xof(Judging(j), b, size) == Xof(Outside(j.other), b, size)
  {
  }

  // Hash, indices and grinding do not depend on what is judged.
  lemma SameChallenge(j: Judge, s: Profile, publicKey: Bytes, message: Bytes, a: Parts)
    ensures ChallengeHash(Judging(j), publicKey, message, a) == ChallengeHash(Outside(j.other), publicKey, message, a)
    ensures ChallengedIndices(Judging(j), s, publicKey, message, a) ==
      ChallengedIndices(Outside(j.other), s, publicKey, message, a)
    ensures Grinds(Judging(j), s, ChallengeHash(Judging(j), publicKey, message, a), a.nonce) <==>
      Grinds(Outside(j.other), s, ChallengeHash(Outside(j.other), publicKey, message, a), a.nonce)
  {
    hide Judging, Outside, Xof;
    var p, q := Judging(j), Outside(j.other);
    SameOutside(j, [0x02] + message, DIGEST_SIZE);
    var m := Xof(p, [0x02] + message, DIGEST_SIZE);
    SameOutside(j, [0x04] + publicKey + a.first + a.second + m, DIGEST_SIZE);
    var h := ChallengeHash(p, publicKey, message, a);
    SameOutside(j, [0x05] + h + a.nonce, 2 * s.executions + 2);
    assert ChallengeStream(p, s, h, a.nonce) == ChallengeStream(q, s, h, a.nonce);
    hide ChallengeStream, And, FromLittleEndian16;
    assert HiddenIndices(p, s, h, a.nonce) == HiddenIndices(q, s, h, a.nonce);
  }

  // -------------------------------------------------------------------------
  // Two signatures, one of which verifies whenever the other does
  // -------------------------------------------------------------------------

  datatype Claim = Claim(publicKey: Bytes, message: Bytes, parts: Parts)

  ghost predicate Complete(s: Profile, c: Claim) {
    |c.publicKey| == s.PublicKeySize() && PartsSized(s, c.parts)
  }

  ghost predicate Holds(p: Primitives, s: Profile, c: Claim)
    requires Complete(s, c)
  {
    PartsVerify(p, s, c.publicKey, c.message, c.parts)
  }

  ghost predicate Implies(s: Profile, c: Claim, d: Claim)
    requires Complete(s, c) && Complete(s, d)
  {
    forall p :: Holds(p, s, c) ==> Holds(p, s, d)
  }

  // Hidden indices and grinding of a claim under functions that judge nothing.
  ghost function Indices(other: (Bytes, nat) -> Byte, s: Profile, c: Claim): (h: seq<nat>)
    ensures |h| == s.executions
  {
    ChallengedIndices(Outside(other), s, c.publicKey, c.message, c.parts)
  }

  ghost predicate Ground(other: (Bytes, nat) -> Byte, s: Profile, c: Claim) {
    Grinds(Outside(other), s, ChallengeHash(Outside(other), c.publicKey, c.message, c.parts), c.parts.nonce)
  }

  ghost function Observed(p: Primitives, s: Profile, c: Claim, hidden: seq<nat>): Bytes {
    ObservedCommitment(p, s, c.parts.salt, c.parts.opening, hidden)
  }

  // A string that ends in x.
  ghost predicate EndsIn(b: Bytes, x: Bytes) {
    |x| <= |b| && b[|b| - |x|..] == x
  }

  // The functions that make a claim hold.
  ghost function JudgeFor(s: Profile, c: Claim, p0: Primitives, passes: Bytes -> bool,
                          other: (Bytes, nat) -> Byte): Judge
    requires Complete(s, c)
  {
    Judge(p0, Observed(p0, s, c, Indices(other, s, c)), c.parts.first, c.parts.second, passes, other)
  }

  lemma ClaimAccepted(s: Profile, c: Claim, p0: Primitives, passes: Bytes -> bool, other: (Bytes, nat) -> Byte)
    requires Complete(s, c) && Ground(other, s, c)
    ensures var p := Judging(JudgeFor(s, c, p0, passes, other));
      && Grinds(p, s, ChallengeHash(p, c.publicKey, c.message, c.parts), c.parts.nonce)
      && ChallengedIndices(p, s, c.publicKey, c.message, c.parts) == Indices(other, s, c)
      && Accepts(p, s, c.parts.salt, c.parts.first, c.parts.opening, Indices(other, s, c))
  {
    var j := JudgeFor(s, c, p0, passes, other);
    hide Judging, ObservedCommitment, ChallengeHash, Grinds, HiddenIndices, Outside, Sizes.OpeningSize, Sizes.Leaves;
    SameChallenge(j, s, c.publicKey, c.message, c.parts);
    HiddenIndicesBelow(Outside(other), s, ChallengeHash(Outside(other), c.publicKey, c.message, c.parts),
      c.parts.nonce);
    JudgedCommitment(j, s, c.parts.salt, c.parts.opening, Indices(other, s, c));
  }

  // Under them it holds, for every p0, if it grinds and alpha_one passes.
  lemma ClaimHolds(s: Profile, c: Claim, p0: Primitives, passes: Bytes -> bool, other: (Bytes, nat) -> Byte)
    requires Complete(s, c) && Ground(other, s, c)
    requires forall b :: EndsIn(b, c.parts.alphaOne) ==> passes(b)
    ensures Holds(Judging(JudgeFor(s, c, p0, passes, other)), s, c)
  {
    ClaimAccepted(s, c, p0, passes, other);
    hide Judging, SecondCommitment, Recomputed, EncodeAll, ChallengeHash, Grinds, Accepts, ChallengedIndices, Indices,
      Observed, Ground, EndsIn, Sizes.OpeningSize, Sizes.AlphaSize;
    var j, h := JudgeFor(s, c, p0, passes, other), Indices(other, s, c);
    var rows := Recomputed(Judging(j), s, c.publicKey, c.parts, h);
    JudgedSecond(j, rows, c.parts.alphaOne);
    Ends([0x03] + EncodeAll(rows), c.parts.alphaOne);
  }

  lemma Ends(b: Bytes, x: Bytes)
    ensures EndsIn(b + x, x)
  {
  }

  // What a claim that holds under the functions of another one says.
  lemma ClaimSays(s: Profile, c: Claim, d: Claim, p0: Primitives, passes: Bytes -> bool, other: (Bytes, nat) -> Byte)
    requires Complete(s, c) && Complete(s, d)
    requires Holds(Judging(JudgeFor(s, c, p0, passes, other)), s, d)
    ensures Ground(other, s, d)
    ensures var j := JudgeFor(s, c, p0, passes, other); d.parts.first == c.parts.first ==>
      Observed(p0, s, d, Indices(other, s, d)) == j.target
    ensures d.parts.second == c.parts.second ==>
      exists rows :: Shaped(s, rows) && passes([0x03] + EncodeAll(rows) + d.parts.alphaOne)
  {
    var j := JudgeFor(s, c, p0, passes, other);
    var p, h := Judging(j), Indices(other, s, d);
    hide Judging, ObservedCommitment, SecondCommitment, Recomputed, EncodeAll, ChallengeHash, Grinds, HiddenIndices,
      Outside;
    SameChallenge(j, s, d.publicKey, d.message, d.parts);
    JudgedCommitment(j, s, d.parts.salt, d.parts.opening, h);
    var rows := Recomputed(p, s, d.publicKey, d.parts, h);
    JudgedSecond(j, rows, d.parts.alphaOne);
  }

  // What follows for one choice of functions.
  lemma Transferred(s: Profile, c: Claim, d: Claim, p0: Primitives, passes: Bytes -> bool, other: (Bytes, nat) -> Byte)
    requires Complete(s, c) && Complete(s, d) && Implies(s, c, d) && Ground(other, s, c)
    requires forall b :: EndsIn(b, c.parts.alphaOne) ==> passes(b)
    ensures Holds(Judging(JudgeFor(s, c, p0, passes, other)), s, d)
    ensures Ground(other, s, d)
    ensures d.parts.first == c.parts.first ==>
      Observed(p0, s, d, Indices(other, s, d)) == Observed(p0, s, c, Indices(other, s, c))
    ensures d.parts.second == c.parts.second ==>
      exists rows :: Shaped(s, rows) && passes([0x03] + EncodeAll(rows) + d.parts.alphaOne)
  {
    hide Holds, Ground, Judging, Observed, Indices, EncodeAll;
    ClaimHolds(s, c, p0, passes, other);
    ClaimSays(s, c, d, p0, passes, other);
  }

  // The challenge stream of a claim, byte by byte.
  ghost function StreamInput(other: (Bytes, nat) -> Byte, c: Claim): Bytes {
    [0x05] + ChallengeHash(Outside(other), c.publicKey, c.message, c.parts) + c.parts.nonce
  }

  // A stream of one repeated byte.
  ghost predicate Constant(other: (Bytes, nat) -> Byte, s: Profile, c: Claim, x: Byte) {
    forall i: nat :: other(StreamInput(other, c), i) == x
  }

  lemma StreamWord(other: (Bytes, nat) -> Byte, s: Profile, c: Claim, x: Byte, at: nat)
    requires Constant(other, s, c, x)
    ensures WordAt(Outside(other), StreamInput(other, c), at) == 257 * Number(x)
  {
    hide StreamInput, Number;
    assert Outside(other).xof == other;
    assert other(StreamInput(other, c), at) == x && other(StreamInput(other, c), at + 1) == x;
  }

  lemma ZeroRemainder(m: nat)
    requires m >= 1
    ensures 0 % m == 0
  {
  }

  // A stream of zeros grinds and hides leaf 0 everywhere.
  lemma ZeroStream(other: (Bytes, nat) -> Byte, s: Profile, c: Claim)
    requires Constant(other, s, c, 0)
    ensures Ground(other, s, c) && Indices(other, s, c) == Zeroes(s)
  {
    assert Number(0) == 0;
    hide ChallengeHash, HiddenIndices, Grinds, Pow2, WordAt, Constant, Number;
    var q, h := Outside(other), ChallengeHash(Outside(other), c.publicKey, c.message, c.parts);
    GrindsIsDivisible(q, s, h, c.parts.nonce);
    StreamWord(other, s, c, 0, 2 * s.executions);
    ZeroRemainder(Pow2(s.grindingBits));
    ZeroRemainder(Pow2(s.depth));
    forall e: nat | e < s.executions
      ensures Indices(other, s, c)[e] == 0
    {
      StreamWord(other, s, c, 0, 2 * e);
      HiddenIndexIsWord(q, s, h, c.parts.nonce, e);
    }
  }

  // Leaf 0 in every execution.
  ghost function Zeroes(s: Profile): (h: seq<nat>)
    ensures |h| == s.executions
  {
    seq(s.executions, e => 0)
  }

  // A stream of ones hides leaf 0 nowhere.
  lemma OneStream(other: (Bytes, nat) -> Byte, s: Profile, c: Claim)
    requires Constant(other, s, c, 1) && s.executions >= 1
    ensures Indices(other, s, c) != Zeroes(s)
  {
    assert Number(1) == 1;
    hide ChallengeHash, HiddenIndices, Pow2, WordAt, Constant, Number;
    StreamWord(other, s, c, 1, 0);
    HiddenIndexIsWord(Outside(other), s, ChallengeHash(Outside(other), c.publicKey, c.message, c.parts), c.parts.nonce,
      0);
    OddRemainder(s.depth);
    assert Indices(other, s, c)[0] != 0 == Zeroes(s)[0];
  }

  lemma OddRemainder(k: nat)
    requires k >= 1
    ensures 257 % Pow2(k) != 0
  {
    var m := Pow2(k - 1);
    ModDoubled(257, m);
  }

  ghost function Anything(): Bytes -> bool {
    b => true
  }

  ghost function Nothing(): (Bytes, nat) -> Byte {
    (b: Bytes, i: nat) => 0
  }

  lemma NothingObserved(s: Profile, c: Claim, hidden: seq<nat>)
    ensures Observed(Outside(Nothing()), s, c, hidden) == Zeros(DIGEST_SIZE)
  {
    hide OpenedHashes, PartialDeltasOf, Concat;
  }

  // Both commitments agree.
  lemma CommitmentsAgree(s: Profile, c: Claim, d: Claim)
    requires Complete(s, c) && Complete(s, d) && Implies(s, c, d)
    ensures c.parts.first == d.parts.first && c.parts.second == d.parts.second
  {
    var zero := Outside(Nothing());
    var j := JudgeFor(s, c, zero, Anything(), Nothing());
    ZeroStream(Nothing(), s, c);
    Transferred(s, c, d, zero, Anything(), Nothing());
    NothingObserved(s, c, Indices(Nothing(), s, c));
    hide Implies, EncodeAll, Recomputed, ChallengeHash, Grinds, HiddenIndices, ObservedCommitment, SecondCommitment,
      Judging, Outside, Ground, Sizes.OpeningSize;
    var h := ChallengedIndices(Judging(j), s, d.publicKey, d.message, d.parts);
    NothingObserved(s, d, h);
    JudgedCommitment(j, s, d.parts.salt, d.parts.opening, h);
    JudgedSecond(j, Recomputed(Judging(j), s, d.publicKey, d.parts, h), d.parts.alphaOne);
  }

  ghost function OpenedBy(c: Claim, hidden: seq<nat>): Opened {
    Opened(c.parts.salt, c.parts.opening, hidden)
  }

  lemma IndicesBelow(other: (Bytes, nat) -> Byte, s: Profile, c: Claim)
    requires Complete(s, c)
    ensures Sized(s, OpenedBy(c, Indices(other, s, c)))
  {
    hide ChallengeHash, HiddenIndices, Sizes.Leaves, Sizes.OpeningSize;
    HiddenIndicesBelow(Outside(other), s, ChallengeHash(Outside(other), c.publicKey, c.message, c.parts),
      c.parts.nonce);
  }

  lemma SameForAll(s: Profile, c: Claim, d: Claim, other: (Bytes, nat) -> Byte)
    requires Complete(s, c) && Complete(s, d) && Implies(s, c, d) && Ground(other, s, c)
    requires c.parts.first == d.parts.first
    ensures SameCommitments(s, OpenedBy(c, Indices(other, s, c)), OpenedBy(d, Indices(other, s, d)))
  {
    hide Complete, Implies, Ground, Indices, ObservedCommitment;
    var h, g := Indices(other, s, c), Indices(other, s, d);
    forall p
      ensures ObservedCommitment(p, s, c.parts.salt, c.parts.opening, h) ==
        ObservedCommitment(p, s, d.parts.salt, d.parts.opening, g)
    {
      Transferred(s, c, d, p, Anything(), other);
    }
  }

  // Whatever the outside functions are that hide leaf 0 in the first claim, they
  // hide leaf 0 in the second, and the openings agree.
  lemma OpeningsAgree(s: Profile, c: Claim, d: Claim, other: (Bytes, nat) -> Byte)
    requires Complete(s, c) && Complete(s, d) && Implies(s, c, d) && Constant(other, s, c, 0)
    ensures c.parts.opening == d.parts.opening && Indices(other, s, d) == Zeroes(s)
    ensures s.executions >= 1 ==> c.parts.salt == d.parts.salt
  {
    hide Complete, Implies, Constant, Ground, Indices, Sized, SameCommitments, Zeroes;
    CommitmentsAgree(s, c, d);
    ZeroStream(other, s, c);
    SameForAll(s, c, d, other);
    IndicesBelow(other, s, c);
    IndicesBelow(other, s, d);
    ObservedCommitmentBinds(s, OpenedBy(c, Indices(other, s, c)), OpenedBy(d, Indices(other, s, d)));
  }

  // The test for one alpha_one string.
  ghost function Ending(x: Bytes): Bytes -> bool {
    b => EndsIn(b, x)
  }

  // The alpha_one bytes agree.
  lemma AlphasAgree(s: Profile, c: Claim, d: Claim)
    requires Complete(s, c) && Complete(s, d) && Implies(s, c, d)
    ensures c.parts.alphaOne == d.parts.alphaOne
  {
    var passes := Ending(c.parts.alphaOne);
    assert |c.parts.alphaOne| == |d.parts.alphaOne|;
    hide Complete, Implies, Constant, Ground, EncodeAll, Holds, Indices;
    CommitmentsAgree(s, c, d);
    ZeroStream(Nothing(), s, c);
    Transferred(s, c, d, Outside(Nothing()), passes, Nothing());
    var rows :| Shaped(s, rows) && passes([0x03] + EncodeAll(rows) + d.parts.alphaOne);
    SameEnding([0x03] + EncodeAll(rows), d.parts.alphaOne, c.parts.alphaOne);
  }

  lemma SameEnding(b: Bytes, x: Bytes, y: Bytes)
    requires |x| == |y| && EndsIn(b + x, y)
    ensures x == y
  {
    assert (b + x)[|b|..] == x;
  }

  // A claim whose stream is not zero when the first one's is does not follow.
  lemma StreamsAgree(s: Profile, c: Claim, d: Claim, other: (Bytes, nat) -> Byte, x: Byte)
    requires Complete(s, c) && Complete(s, d) && Implies(s, c, d) && s.executions >= 1
    requires Constant(other, s, c, 0) && Constant(other, s, d, x) && x <= 1
    ensures x == 0
  {
    hide Complete, Implies, Constant, Zeroes, Indices;
    OpeningsAgree(s, c, d, other);
    if x == 1 {
      OneStream(other, s, d);
    }
  }

  // -------------------------------------------------------------------------
  // Nonce, key and message
  // -------------------------------------------------------------------------

  ghost function MarkNonce(nonce: Bytes): (Bytes, nat) -> Byte {
    (b: Bytes, i: nat) => if ByteAt(b, 0) == 5 && !EndsIn(b, nonce) then 1 else 0
  }

  lemma NonceStream(s: Profile, c: Claim, nonce: Bytes)
    requires |nonce| == |c.parts.nonce|
    ensures Constant(MarkNonce(nonce), s, c, if c.parts.nonce == nonce then 0 else 1)
  {
    hide ChallengeHash;
    var b := StreamInput(MarkNonce(nonce), c);
    assert b[|b| - |nonce|..] == c.parts.nonce;
  }

  // Challenges repeat the first byte of their hash.
  ghost predicate RepeatsHash(other: (Bytes, nat) -> Byte) {
    forall b: Bytes, i: nat :: ByteAt(b, 0) == 5 ==> other(b, i) == ByteAt(b, 1)
  }

  lemma HashStream(other: (Bytes, nat) -> Byte, s: Profile, c: Claim)
    requires RepeatsHash(other)
    ensures |ChallengeHash(Outside(other), c.publicKey, c.message, c.parts)| == DIGEST_SIZE
    ensures Constant(other, s, c, ChallengeHash(Outside(other), c.publicKey, c.message, c.parts)[0])
  {
  }

  ghost function MarkKey(key: Bytes): (Bytes, nat) -> Byte {
    (b: Bytes, i: nat) =>
      if ByteAt(b, 0) == 5 then ByteAt(b, 1)
      else if ByteAt(b, 0) == 4 && !(key <= b[1..]) then 1 else 0
  }

  lemma KeyHash(c: Claim, key: Bytes)
    requires |key| == |c.publicKey|
    ensures ChallengeHash(Outside(MarkKey(key)), c.publicKey, c.message, c.parts)[0] ==
      if c.publicKey == key then 0 else 1
  {
    var m := Xof(Outside(MarkKey(key)), [0x02] + c.message, DIGEST_SIZE);
    var b := [0x04] + c.publicKey + c.parts.first + c.parts.second + m;
    assert b[1..1 + |key|] == c.publicKey;
    if key <= b[1..] {
      assert key == b[1..][..|key|] == b[1..1 + |key|];
    }
    if c.publicKey == key {
      assert b[1..] == key + (c.parts.first + c.parts.second + m);
    }
  }

  ghost function MarkMessage(message: Bytes): (Bytes, nat) -> Byte {
    (b: Bytes, i: nat) =>
      if ByteAt(b, 0) == 5 then ByteAt(b, 1)
      else if ByteAt(b, 0) == 4 then b[|b| - 1]
      else if b == [0x02] + message then 0 else 1
  }

  lemma MessageHash(c: Claim, message: Bytes)
    ensures ChallengeHash(Outside(MarkMessage(message)), c.publicKey, c.message, c.parts)[0] ==
      if c.message == message then 0 else 1
  {
    var m := Xof(Outside(MarkMessage(message)), [0x02] + c.message, DIGEST_SIZE);
    assert ([0x02] + c.message)[1..] == c.message && ([0x02] + message)[1..] == message;
    assert m[DIGEST_SIZE - 1] == if c.message == message then 0 else 1;
    var b := [0x04] + c.publicKey + c.parts.first + c.parts.second + m;
    assert b[|b| - 1] == m[DIGEST_SIZE - 1];
  }

  lemma NoncesAgree(s: Profile, c: Claim, d: Claim)
    requires Complete(s, c) && Complete(s, d) && Implies(s, c, d) && s.executions >= 1
    ensures c.parts.nonce == d.parts.nonce
  {
    assert |c.parts.nonce| == |d.parts.nonce|;
    hide Complete, Implies, Constant, MarkNonce;
    NonceStream(s, c, c.parts.nonce);
    NonceStream(s, d, c.parts.nonce);
    StreamsAgree(s, c, d, MarkNonce(c.parts.nonce), if d.parts.nonce == c.parts.nonce then 0 else 1);
  }

  lemma KeysAgree(s: Profile, c: Claim, d: Claim)
    requires Complete(s, c) && Complete(s, d) && Implies(s, c, d) && s.executions >= 1
    ensures c.publicKey == d.publicKey
  {
    assert |c.publicKey| == |d.publicKey|;
    assert RepeatsHash(MarkKey(c.publicKey));
    hide Complete, Implies, Constant, MarkKey, RepeatsHash, ChallengeHash;
    KeyHash(c, c.publicKey);
    KeyHash(d, c.publicKey);
    HashStream(MarkKey(c.publicKey), s, c);
    HashStream(MarkKey(c.publicKey), s, d);
    StreamsAgree(s, c, d, MarkKey(c.publicKey), if d.publicKey == c.publicKey then 0 else 1);
  }

  lemma MessagesAgree(s: Profile, c: Claim, d: Claim)
    requires Complete(s, c) && Complete(s, d) && Implies(s, c, d) && s.executions >= 1
    ensures c.message == d.message
  {
    assert RepeatsHash(MarkMessage(c.message));
    hide Complete, Implies, Constant, MarkMessage, RepeatsHash, ChallengeHash;
    MessageHash(c, c.message);
    MessageHash(d, c.message);
    HashStream(MarkMessage(c.message), s, c);
    HashStream(MarkMessage(c.message), s, d);
    StreamsAgree(s, c, d, MarkMessage(c.message), if d.message == c.message then 0 else 1);
  }

  // -------------------------------------------------------------------------
  // The verdict depends on everything
  // -------------------------------------------------------------------------

  lemma ClaimsAgree(s: Profile, c: Claim, d: Claim)
    requires Complete(s, c) && Complete(s, d) && Implies(s, c, d) && s.executions >= 1
    ensures c == d
  {
    hide Complete, Implies, Constant, Indices;
    CommitmentsAgree(s, c, d);
    AlphasAgree(s, c, d);
    ZeroConstant(s, c);
    OpeningsAgree(s, c, d, Nothing());
    NoncesAgree(s, c, d);
    KeysAgree(s, c, d);
    MessagesAgree(s, c, d);
  }

  lemma ZeroConstant(s: Profile, c: Claim)
    ensures Constant(Nothing(), s, c, 0)
  {
  }

  // A signature that verifies whenever another one does is that signature, for
  // the same key and the same message: the verdict depends on every byte.
  lemma VerificationBinds(s: Profile, key: Bytes, message: Bytes, signature: Bytes, key': Bytes, message': Bytes,
                          signature': Bytes)
    requires s.executions >= 1 && |key| == |key'| == s.PublicKeySize() &&
      |signature| == |signature'| == s.SignatureSize()
    requires forall p :: Verifies(p, s, key, message, signature) ==> Verifies(p, s, key', message', signature')
    ensures key == key' && message == message' && signature == signature'
  {
    DisassembledWhole(s, signature);
    DisassembledWhole(s, signature');
    var c := Claim(key, message, Disassemble(s, signature));
    var d := Claim(key', message', Disassemble(s, signature'));
    hide Disassemble, Assemble, PartsVerify, Sizes.SignatureSize;
    assert Implies(s, c, d) by {
      forall p | Holds(p, s, c)
        ensures Holds(p, s, d)
      {
        assert Verifies(p, s, key, message, signature);
      }
    }
    ClaimsAgree(s, c, d);
  }

  lemma DisassembledWhole(s: Profile, signature: Bytes)
    requires |signature| == s.SignatureSize()
    ensures PartsSized(s, Disassemble(s, signature)) && Assemble(Disassemble(s, signature)) == signature
  {
    var i, j := OpeningOffset(s), NonceOffset(s);
    SliceBehind(signature, SEED_SIZE, SEED_SIZE + DIGEST_SIZE);
    SliceBehind(signature, SEED_SIZE + DIGEST_SIZE, AlphaOffset());
    SliceBehind(signature, AlphaOffset(), i);
    SliceBehind(signature, i, j);
    SliceBehind(signature, j, |signature|);
    assert signature[..|signature|] == signature && signature[j..|signature|] == signature[j..];
  }

  lemma SliceBehind(b: Bytes, i: nat, j: nat)
    requires i <= j <= |b|
    ensures b[..i] + b[i..j] == b[..j]
  {
  }

  // A verified signature's last challenge word is divisible by 2^grindingBits.
  lemma VerifiedGrinds(p: Primitives, s: Profile, key: Bytes, message: Bytes, signature: Bytes)
    requires Verifies(p, s, key, message, signature)
    ensures var hash := ChallengeHash(p, key, message, Disassemble(s, signature));
      WordAt(p, [0x05] + hash + signature[|signature| - NONCE_SIZE..], 2 * s.executions) % Pow2(s.grindingBits) == 0
  {
    var a := Disassemble(s, signature);
    assert a.nonce == signature[|signature| - NONCE_SIZE..];
    hide ChallengeHash, Pow2, Grinds, WordAt, Disassemble;
    GrindsIsDivisible(p, s, ChallengeHash(p, key, message, a), a.nonce);
  }

  // Without executions nothing depends on the salt, so the condition is needed.
  lemma SaltUnused(p: Primitives, s: Profile, key: Bytes, message: Bytes, a: Parts, salt: Block)
    requires s.executions == 0 && |key| == s.PublicKeySize() && PartsSized(s, a)
    ensures PartsVerify(p, s, key, message, a) <==> PartsVerify(p, s, key, message, a.(salt := salt))
  {
    var b := a.(salt := salt);
    var h := ChallengedIndices(p, s, key, message, a);
    assert Recomputed(p, s, key, a, h) == [] == Recomputed(p, s, key, b, h);
    hide EncodeAll, PartialDeltasOf;
  }
}
