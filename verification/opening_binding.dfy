// What the commitment of src/blc.rs depends on: the verifier's, on every byte of
// the opening, on the salt and on the hidden indices; the signer's, on the
// secret, the master seed and the salt.
module OpeningBinding {
  import opened Words
  import opened ByteStrings
  import opened Params
  import opened Prg
  import opened SeedTree
  import opened LineCommitment
  import opened Opening
  import opened Packing
  import opened TranscriptBinding

  // SHAKE128 that repeats a leaf hash from byte `low` on and a commitment from
  // byte `high` on.
  ghost function Repeating(aes: (Bytes, Bytes, nat) -> Byte, low: nat, high: nat): Primitives {
    Primitives(aes, (b: Bytes, i: nat) =>
      if ByteAt(b, 0) == 6 then ByteAt(b, low + i) else if ByteAt(b, 0) == 7 then ByteAt(b, high + i) else 0)
  }

  // -------------------------------------------------------------------------
  // Reading one leaf commitment off a commitment
  // -------------------------------------------------------------------------

  lemma TaggedSlot(tag: Byte, n: nat, size: nat, f: nat -> Bytes, tail: Bytes, k: nat, i: nat)
    requires k < n && i < size && forall j: nat :: j < n ==> |f(j)| == size
    ensures ByteAt([tag] + Concat(n, f) + tail, 1 + k * size + i) == f(k)[i]
  {
    ConcatSlot(n, size, f, k);
    hide Concat;
    SliceByte(tag, Concat(n, f), tail, k * size, size, i);
  }

  lemma SliceByte(tag: Byte, c: Bytes, tail: Bytes, at: nat, size: nat, i: nat)
    requires at + size <= |c| && i < size
    ensures ByteAt([tag] + c + tail, 1 + at + i) == c[at..at + size][i]
  {
  }

  // The answer on pieces behind a tag is one piece.
  lemma RepeatedPiece(aes: (Bytes, Bytes, nat) -> Byte, low: nat, high: nat, tag: Byte, n: nat, f: nat -> Bytes,
                      tail: Bytes, k: nat)
    requires k < n && forall j: nat :: j < n ==> |f(j)| == DIGEST_SIZE
    requires (tag == 6 && low == 1 + k * DIGEST_SIZE) || (tag == 7 && high == 1 + k * DIGEST_SIZE)
    ensures Xof(Repeating(aes, low, high), [tag] + Concat(n, f) + tail, DIGEST_SIZE) == f(k)
  {
    hide Concat;
    var x := [tag] + Concat(n, f) + tail;
    assert ByteAt(x, 0) == tag;
    forall i | 0 <= i < DIGEST_SIZE
      ensures Xof(Repeating(aes, low, high), x, DIGEST_SIZE)[i] == f(k)[i]
    {
      TaggedSlot(tag, n, DIGEST_SIZE, f, tail, k, i);
      hide ByteAt;
    }
  }

  lemma RepeatedLeaf(aes: (Bytes, Bytes, nat) -> Byte, j: nat, high: nat, t: Context, s: Profile, path: Bytes,
                     hidden: nat, hiddenCommitment: Bytes)
    requires t.p == Repeating(aes, 1 + j * DIGEST_SIZE, high) && j < s.Leaves() && |hiddenCommitment| == DIGEST_SIZE
    ensures OpenedHash(t, s, path, hidden, hiddenCommitment) ==
      OpenedCommitments(t, s, path, hidden, hiddenCommitment)(j)
  {
    hide OpenedCommitments, Concat, Repeating, Xof;
    var f := OpenedCommitments(t, s, path, hidden, hiddenCommitment);
    OpenedCommitmentsSized(t, s, path, hidden, hiddenCommitment);
    RepeatedPiece(aes, 1 + j * DIGEST_SIZE, high, 0x06, s.Leaves(), f, [], j);
    assert [0x06] + Concat(s.Leaves(), f) + [] == [0x06] + Concat(s.Leaves(), f);
  }

  lemma OpenedCommitmentsSized(t: Context, s: Profile, path: Bytes, hidden: nat, hiddenCommitment: Bytes)
    requires |hiddenCommitment| == DIGEST_SIZE
    ensures forall j: nat :: |OpenedCommitments(t, s, path, hidden, hiddenCommitment)(j)| == DIGEST_SIZE
  {
    hide CommittedSeed, OpenedSeed;
  }

  lemma HiddenCommitmentSized(s: Profile, opening: Bytes, e: nat)
    requires e < s.executions && |opening| == s.OpeningSize()
    ensures |HiddenCommitmentOf(s, opening, e)| == DIGEST_SIZE
  {
    RegionBounds(s, e);
    hide HiddenCommitmentStart, PathStart, PartialDeltaStart;
  }

  // The leaf commitment that an opening shows for leaf j of execution e.
  ghost function ShownCommitment(p: Primitives, s: Profile, salt: Block, opening: Bytes, hidden: seq<nat>, e: nat,
                                 j: nat): Bytes
    requires e < |hidden|
  {
    OpenedCommitments(Context(p, salt, e), s, PathOf(s, opening, e), hidden[e], HiddenCommitmentOf(s, opening, e))(j)
  }

  // The commitment is the leaf commitment of leaf j in execution e.
  lemma RepeatedCommitment(aes: (Bytes, Bytes, nat) -> Byte, e: nat, j: nat, s: Profile, salt: Block, opening: Bytes,
                           hidden: seq<nat>)
    requires e < s.executions == |hidden| && j < s.Leaves() && |opening| == s.OpeningSize()
    ensures var p := Repeating(aes, 1 + j * DIGEST_SIZE, 1 + e * DIGEST_SIZE);
      ObservedCommitment(p, s, salt, opening, hidden) == ShownCommitment(p, s, salt, opening, hidden, e, j)
  {
    hide OpenedHash, OpenedCommitments, Concat, PathOf, HiddenCommitmentOf, PartialDeltasOf, Repeating, Xof;
    var p := Repeating(aes, 1 + j * DIGEST_SIZE, 1 + e * DIGEST_SIZE);
    var f := OpenedHashes(p, s, salt, opening, hidden);
    RepeatedPiece(aes, 1 + j * DIGEST_SIZE, 1 + e * DIGEST_SIZE, 0x07, s.executions, f, PartialDeltasOf(s, opening), e);
    HiddenCommitmentSized(s, opening, e);
    RepeatedLeaf(aes, j, 1 + e * DIGEST_SIZE, Context(p, salt, e), s, PathOf(s, opening, e), hidden[e],
      HiddenCommitmentOf(s, opening, e));
  }

  // -------------------------------------------------------------------------
  // Two openings with the same commitment, whatever the functions
  // -------------------------------------------------------------------------

  datatype Opened = Opened(salt: Block, opening: Bytes, hidden: seq<nat>)

  ghost predicate Sized(s: Profile, a: Opened) {
    && |a.opening| == s.OpeningSize() && |a.hidden| == s.executions
    && forall e :: 0 <= e < s.executions ==> a.hidden[e] < s.Leaves()
  }

  ghost predicate SameCommitments(s: Profile, a: Opened, b: Opened) {
    forall p :: ObservedCommitment(p, s, a.salt, a.opening, a.hidden) ==
      ObservedCommitment(p, s, b.salt, b.opening, b.hidden)
  }

  ghost function Shown(p: Primitives, s: Profile, a: Opened, e: nat, j: nat): Bytes
    requires e < |a.hidden|
  {
    ShownCommitment(p, s, a.salt, a.opening, a.hidden, e, j)
  }

  lemma SameShown(s: Profile, a: Opened, b: Opened, aes: (Bytes, Bytes, nat) -> Byte, e: nat, j: nat)
    returns (p: Primitives)
    requires Sized(s, a) && Sized(s, b) && SameCommitments(s, a, b) && e < s.executions && j < s.Leaves()
    ensures p.aes == aes && Shown(p, s, a, e, j) == Shown(p, s, b, e, j)
  {
    p := Repeating(aes, 1 + j * DIGEST_SIZE, 1 + e * DIGEST_SIZE);
    RepeatedCommitment(aes, e, j, s, a.salt, a.opening, a.hidden);
    RepeatedCommitment(aes, e, j, s, b.salt, b.opening, b.hidden);
    hide ObservedCommitment, ShownCommitment;
  }

  // The cipher that answers x under one key and 0 under every other.
  ghost function OneKey(k: Block, x: Byte): (Bytes, Bytes, nat) -> Byte {
    (key: Bytes, block: Bytes, i: nat) => if key == k then x else 0
  }

  // With that cipher the two halves of a seed commitment differ by x in byte 0.
  lemma HalvesDiffer(t: Context, seed: Block, x: Byte)
    requires t.p.aes == OneKey(Tweaked(t.salt, 1, t.execution, 0), x)
    ensures XorByte(CommittedSeed(t, seed)[0], CommittedSeed(t, seed)[SEED_SIZE]) == x
  {
    var k, l := Tweaked(t.salt, 0, t.execution, 0), Tweaked(t.salt, 1, t.execution, 0);
    TweakedEqual(t.salt, 0, t.execution, 0, 1, t.execution, 0);
    DerivedAt(t.p, k, seed, 0);
    DerivedAt(t.p, l, seed, 0);
    hide Derived, Tweaked;
    ThreeBytes(Derived(t.p, k, seed)[0], Derived(t.p, l, seed)[0], x);
  }

  lemma ThreeBytes(a: Byte, b: Byte, x: Byte)
    requires XorByte(a, 0) == XorByte(b, x)
    ensures XorByte(a, b) == x
  {
  }

  // The hidden indices are determined.
  lemma HiddenDetermined(s: Profile, a: Opened, b: Opened, e: nat)
    requires Sized(s, a) && Sized(s, b) && SameCommitments(s, a, b) && e < s.executions
    ensures a.hidden[e] == b.hidden[e]
  {
    hide Sizes.OpeningSize, SameCommitments, CommittedSeed, OpenedSeed, PathOf, HiddenCommitmentOf, Tweaked, XorByte,
      OneKey;
    if a.hidden[e] != b.hidden[e] {
      var j, c := a.hidden[e], HiddenCommitmentOf(s, a.opening, e);
      HiddenCommitmentSized(s, a.opening, e);
      var x := XorByte(XorByte(c[0], c[SEED_SIZE]), 1);
      var p := SameShown(s, a, b, OneKey(Tweaked(b.salt, 1, e, 0), x), e, j);
      var t := Context(p, b.salt, e);
      HalvesDiffer(t, OpenedSeed(t, s, PathOf(s, b.opening, e), b.hidden[e], j), x);
      assert c == CommittedSeed(t, OpenedSeed(t, s, PathOf(s, b.opening, e), b.hidden[e], j));
      OtherByte(XorByte(c[0], c[SEED_SIZE]));
    }
  }

  lemma OtherByte(a: Byte)
    ensures XorByte(a, 1) != a
  {
  }

  // The hidden commitments are determined.
  lemma HiddenCommitmentDetermined(s: Profile, a: Opened, b: Opened, e: nat)
    requires Sized(s, a) && Sized(s, b) && SameCommitments(s, a, b) && e < s.executions
    ensures HiddenCommitmentOf(s, a.opening, e) == HiddenCommitmentOf(s, b.opening, e)
  {
    HiddenDetermined(s, a, b, e);
    hide Sizes.OpeningSize, SameCommitments, CommittedSeed, OpenedSeed, PathOf, HiddenCommitmentOf;
    var p := SameShown(s, a, b, NoCipher(), e, a.hidden[e]);
  }

  // -------------------------------------------------------------------------
  // Paths
  // -------------------------------------------------------------------------

  // No cipher output below the roots: a left child is the image of its parent.
  ghost predicate Quiet(t: Context) {
    forall l: nat, x: Block :: Derived(t.p, Tweaked(t.salt, 2, t.execution, l), x) == Orthomorphism(x)
  }

  lemma DerivedWithoutCipher(p: Primitives, key: Block, seed: Block)
    requires forall i: nat :: i < SEED_SIZE ==> p.aes(key, seed, i) == 0
    ensures Derived(p, key, seed) == Orthomorphism(seed)
  {
    hide XorByte, Orthomorphism;
    forall i | 0 <= i < SEED_SIZE
      ensures Derived(p, key, seed)[i] == Orthomorphism(seed)[i]
    {
      XorByteFacts(Orthomorphism(seed)[i], 0);
    }
  }

  lemma NoCipherIsQuiet(t: Context)
    requires t.p.aes == NoCipher()
    ensures Quiet(t)
  {
    hide Derived, Tweaked, Orthomorphism;
    forall l: nat, x: Block
      ensures Derived(t.p, Tweaked(t.salt, 2, t.execution, l), x) == Orthomorphism(x)
    {
      DerivedWithoutCipher(t.p, Tweaked(t.salt, 2, t.execution, l), x);
    }
  }

  // The leftmost node m levels below x, and its seed.
  function Leftmost(x: nat, m: nat): nat {
    if m == 0 then x else 2 * Leftmost(x, m - 1)
  }

  ghost function Images(seed: Block, m: nat): Block {
    if m == 0 then seed else Orthomorphism(Images(seed, m - 1))
  }

  lemma {:induction false} ImagesInjective(a: Block, b: Block, m: nat)
    requires Images(a, m) == Images(b, m)
    ensures a == b
  {
    hide Orthomorphism;
    if m == 0 {
    } else {
      OrthomorphismInjective(Images(a, m - 1), Images(b, m - 1));
      ImagesInjective(a, b, m - 1);
    }
  }

  lemma {:induction false} LeftmostLevel(x: nat, l: nat, m: nat)
    requires Pow2(l) <= x < Pow2(l + 1)
    ensures Pow2(l + m) <= Leftmost(x, m) < Pow2(l + m + 1)
  {
    if m == 0 {
    } else {
      LeftmostLevel(x, l, m - 1);
      assert Pow2(l + m) == 2 * Pow2(l + m - 1) && Pow2(l + m + 1) == 2 * Pow2(l + m);
    }
  }

  // Off the path the seeds of leftmost nodes are images of the first one.
  lemma {:induction false} PartialLeftmost(t: Context, path: Bytes, d: nat, leaf: nat, x: nat, l: nat, m: nat)
    requires Quiet(t) && x >= 2 && Pow2(l) <= x < Pow2(l + 1) && l + m <= d
    requires Pow2(d) <= leaf && !IsAncestor(x, leaf)
    ensures !IsAncestor(Leftmost(x, m), leaf)
    ensures PartialNode(t, path, d, leaf, Leftmost(x, m)) == Images(PartialNode(t, path, d, leaf, x), m)
  {
    hide Pow2, Orthomorphism, PartialNode, IsAncestor, Quiet;
    if m == 0 {
    } else {
      PartialLeftmost(t, path, d, leaf, x, l, m - 1);
      LeftmostAbove(x, l, m - 1, d, leaf);
      PartialLeftChild(t, path, d, leaf, Leftmost(x, m - 1));
    }
  }

  lemma LeftmostAbove(x: nat, l: nat, m: nat, d: nat, leaf: nat)
    requires x >= 2 && Pow2(l) <= x < Pow2(l + 1) && l + m < d && Pow2(d) <= leaf
    ensures 2 <= Leftmost(x, m) < leaf
  {
    hide Leftmost, Pow2;
    LeftmostLevel(x, l, m);
    LeftmostGrows(x, m);
    Pow2Monotone(l + m + 1, d);
  }

  lemma {:induction false} LeftmostGrows(x: nat, m: nat)
    ensures Leftmost(x, m) >= x
  {
    if m == 0 {
    } else {
      LeftmostGrows(x, m - 1);
    }
  }

  lemma PartialLeftChild(t: Context, path: Bytes, d: nat, leaf: nat, y: nat)
    requires Quiet(t) && 2 <= y < leaf && !IsAncestor(y, leaf)
    ensures !IsAncestor(2 * y, leaf)
    ensures PartialNode(t, path, d, leaf, 2 * y) == Orthomorphism(PartialNode(t, path, d, leaf, y))
  {
    ChildAncestor(y, leaf);
    hide Orthomorphism, Derived, Tweaked, PathBlock, IsAncestor, Level;
    assert Sibling(2 * y) == 2 * y + 1 && 2 * y / 2 == y && 2 * y % 2 == 0;
    LevelPositive(y);
  }

  // The node whose seed is path block k.
  lemma BlockNode(leaf: nat, d: nat, k: nat)
    requires Pow2(d) <= leaf < Pow2(d + 1) && k < d
    ensures var x := ShiftRight(leaf, k);
      && x >= 2 && IsAncestor(x, leaf) && !IsAncestor(Sibling(x), leaf)
      && Sibling(x) >= 2 && Sibling(Sibling(x)) == x && Level(Sibling(x)) == d - k
      && Pow2(d - k) <= Sibling(x) < Pow2(d - k + 1)
  {
    var x := ShiftRight(leaf, k);
    ShiftRightLevel(leaf, d, k);
    Pow2Monotone(1, d - k);
    assert Pow2(1) == 2;
    hide Pow2, IsAncestor, ShiftRight, Level;
    LevelOf(x, d - k);
    SiblingLevel(x);
    LevelBounds(Sibling(x));
    SiblingOffPath(x, leaf, d);
  }

  // The leaf below path block k that is leftmost, and its opened seed.
  lemma LeafBelowBlock(t: Context, s: Profile, path: Bytes, hidden: nat, k: nat) returns (j: nat)
    requires Quiet(t) && hidden < s.Leaves() && k < s.depth
    ensures j < s.Leaves() && j != hidden
    ensures j == Leftmost(Sibling(ShiftRight(s.Leaves() + hidden, k)), k) - s.Leaves()
    ensures OpenedSeed(t, s, path, hidden, j) == Images(PathBlock(path, k), k)
  {
    hide PathBlock, Orthomorphism, Pow2, Level, ShiftRight, Quiet, Leftmost, Images, Sibling;
    var leaf, d := s.Leaves() + hidden, s.depth;
    LeavesDoubled(s);
    BlockNode(leaf, d, k);
    var y := Sibling(ShiftRight(leaf, k));
    LeftmostLevel(y, d - k, k);
    PartialLeftmost(t, path, d, leaf, y, d - k, k);
    j := Leftmost(y, k) - s.Leaves();
    assert IsAncestor(leaf, leaf);
    assert PartialNode(t, path, d, leaf, y) == PathBlock(path, k);
  }

  lemma SiblingOffPath(x: nat, leaf: nat, d: nat)
    requires x >= 2 && IsAncestor(x, leaf) && Pow2(d) <= leaf < Pow2(d + 1)
    ensures !IsAncestor(Sibling(x), leaf)
  {
    SiblingLevel(x);
    AncestorBound(x, leaf);
    ChildAncestor(x / 2, leaf);
    assert x == 2 * (x / 2) || x == 2 * (x / 2) + 1;
  }

  // A seed commitment without cipher determines the seed.
  lemma SeedDetermined(t: Context, u: Context, seed: Block, seed': Block)
    requires t.p.aes == NoCipher() == u.p.aes && CommittedSeed(t, seed) == CommittedSeed(u, seed')
    ensures seed == seed'
  {
    hide Derived, Orthomorphism, Tweaked;
    var k, l := Tweaked(t.salt, 0, t.execution, 0), Tweaked(u.salt, 0, u.execution, 0);
    DerivedWithoutCipher(t.p, k, seed);
    DerivedWithoutCipher(u.p, l, seed');
    assert CommittedSeed(t, seed)[..SEED_SIZE] == Derived(t.p, k, seed);
    assert CommittedSeed(u, seed')[..SEED_SIZE] == Derived(u.p, l, seed');
    OrthomorphismInjective(seed, seed');
  }

  // Every block of every path is determined.
  lemma PathBlockDetermined(s: Profile, a: Opened, b: Opened, e: nat, k: nat)
    requires Sized(s, a) && Sized(s, b) && SameCommitments(s, a, b) && e < s.executions && k < s.depth
    ensures PathBlock(PathOf(s, a.opening, e), k) == PathBlock(PathOf(s, b.opening, e), k)
  {
    HiddenDetermined(s, a, b, e);
    hide Sizes.OpeningSize, SameCommitments, CommittedSeed, OpenedSeed, PathOf, HiddenCommitmentOf, PathBlock, Images,
      Leftmost, Sibling, ShiftRight;
    var h := a.hidden[e];
    var j := LeafIndexBelow(s, h, k);
    var p := SameShown(s, a, b, NoCipher(), e, j);
    BlocksEqual(Context(p, a.salt, e), Context(p, b.salt, e), s, PathOf(s, a.opening, e), PathOf(s, b.opening, e), h,
      k, j);
  }

  // Two paths with the same seed commitment below block k.
  lemma BlocksEqual(t: Context, u: Context, s: Profile, path: Bytes, path': Bytes, hidden: nat, k: nat, j: nat)
    requires t.p.aes == NoCipher() == u.p.aes && hidden < s.Leaves() && k < s.depth
    requires j < s.Leaves() && j == Leftmost(Sibling(ShiftRight(s.Leaves() + hidden, k)), k) - s.Leaves()
    requires CommittedSeed(t, OpenedSeed(t, s, path, hidden, j)) ==
      CommittedSeed(u, OpenedSeed(u, s, path', hidden, j))
    ensures PathBlock(path, k) == PathBlock(path', k)
  {
    hide CommittedSeed, OpenedSeed, PathBlock, Images, Leftmost, Sibling, ShiftRight, Quiet, Sizes.Leaves;
    NoCipherIsQuiet(t);
    NoCipherIsQuiet(u);
    var i := LeafBelowBlock(t, s, path, hidden, k);
    i := LeafBelowBlock(u, s, path', hidden, k);
    SeedDetermined(t, u, OpenedSeed(t, s, path, hidden, j), OpenedSeed(u, s, path', hidden, j));
    ImagesInjective(PathBlock(path, k), PathBlock(path', k), k);
  }

  lemma LeafIndexBelow(s: Profile, hidden: nat, k: nat) returns (j: nat)
    requires hidden < s.Leaves() && k < s.depth
    ensures j < s.Leaves() && j == Leftmost(Sibling(ShiftRight(s.Leaves() + hidden, k)), k) - s.Leaves()
  {
    var t := Context(Repeating(NoCipher(), 0, 0), Zeros(SEED_SIZE), 0);
    NoCipherIsQuiet(t);
    j := LeafBelowBlock(t, s, [], hidden, k);
  }

  lemma PathDetermined(s: Profile, a: Opened, b: Opened, e: nat)
    requires Sized(s, a) && Sized(s, b) && SameCommitments(s, a, b) && e < s.executions
    ensures PathOf(s, a.opening, e) == PathOf(s, b.opening, e)
  {
    PathSized(s, a.opening, e);
    PathSized(s, b.opening, e);
    hide Sizes.OpeningSize, SameCommitments, PathOf;
    var pa, pb := PathOf(s, a.opening, e), PathOf(s, b.opening, e);
    forall k: nat | k < s.depth
      ensures Piece(pa, SEED_SIZE, k) == Piece(pb, SEED_SIZE, k)
    {
      PathBlockDetermined(s, a, b, e, k);
    }
    PiecesDetermine(pa, pb, s.depth, SEED_SIZE);
  }

  lemma PathSized(s: Profile, opening: Bytes, e: nat)
    requires e < s.executions && |opening| == s.OpeningSize()
    ensures |PathOf(s, opening, e)| == s.depth * SEED_SIZE
  {
    RegionBounds(s, e);
    hide HiddenCommitmentStart, PathStart, PartialDeltaStart;
  }

  // -------------------------------------------------------------------------
  // The salt
  // -------------------------------------------------------------------------

  // The sibling of the hidden leaf is a path block itself.
  lemma SaltDetermined(s: Profile, a: Opened, b: Opened, e: nat)
    requires Sized(s, a) && Sized(s, b) && SameCommitments(s, a, b) && e < s.executions
    ensures a.salt == b.salt
  {
    HiddenDetermined(s, a, b, e);
    PathDetermined(s, a, b, e);
    hide Sizes.OpeningSize, SameCommitments, CommittedSeed, PathOf, HiddenCommitmentOf, Tweaked, OneKey;
    var path, h := PathOf(s, a.opening, e), a.hidden[e];
    var j := SiblingSeed(s, path, h);
    var k := Tweaked(a.salt, 0, e, 0);
    var p := SameShown(s, a, b, OneKey(k, 1), e, j);
    var t, u := Context(p, a.salt, e), Context(p, b.salt, e);
    SiblingSeedIs(t, s, path, h, j);
    SiblingSeedIs(u, s, path, h, j);
    KeyShown(t, PathBlock(path, 0), k, 0);
    KeyShown(u, PathBlock(path, 0), k, 0);
    if b.salt != a.salt {
      if Tweaked(b.salt, 0, e, 0) == k {
        TweakedSalt(a.salt, b.salt, 0, e, 0);
      }
      BothBytes(CommittedSeed(t, PathBlock(path, 0))[0], 1);
    }
  }

  lemma SiblingSeed(s: Profile, path: Bytes, hidden: nat) returns (j: nat)
    requires hidden < s.Leaves()
    ensures j < s.Leaves() && j != hidden && s.Leaves() + j == Sibling(s.Leaves() + hidden)
  {
    LeavesDoubled(s);
    var leaf := s.Leaves() + hidden;
    BlockNode(leaf, s.depth, 0);
    LevelEven(s);
    j := Sibling(leaf) - s.Leaves();
  }

  lemma LevelEven(s: Profile)
    ensures s.Leaves() % 2 == 0
  {
  }

  lemma SiblingSeedIs(t: Context, s: Profile, path: Bytes, hidden: nat, j: nat)
    requires hidden < s.Leaves() && s.Leaves() + j == Sibling(s.Leaves() + hidden)
    ensures OpenedSeed(t, s, path, hidden, j) == PathBlock(path, 0)
  {
    hide PathBlock, Pow2, Level, IsAncestor, Sibling;
    var leaf := s.Leaves() + hidden;
    LeavesDoubled(s);
    BlockNode(leaf, s.depth, 0);
    assert ShiftRight(leaf, 0) == leaf;
    hide ShiftRight;
  }

  // With a cipher that answers 1 under one key, a seed commitment shows which of
  // its keys that is.
  lemma KeyShown(t: Context, seed: Block, k: Block, selector: nat)
    requires t.p.aes == OneKey(k, 1) && selector < 2
    ensures XorByte(CommittedSeed(t, seed)[SEED_SIZE * selector],
                    if Tweaked(t.salt, selector, t.execution, 0) == k then 1 else 0) == XorByte(seed[8], seed[0])
  {
    hide Derived, Tweaked, CommittedSeed, XorByte;
    HalfOfCommitment(t, seed, selector);
    DerivedAt(t.p, Tweaked(t.salt, selector, t.execution, 0), seed, 0);
  }

  lemma HalfOfCommitment(t: Context, seed: Block, selector: nat)
    requires selector < 2
    ensures CommittedSeed(t, seed)[SEED_SIZE * selector] ==
      Derived(t.p, Tweaked(t.salt, selector, t.execution, 0), seed)[0]
  {
    hide Derived, Tweaked;
    if selector == 0 {
    } else {
      assert selector == 1;
    }
  }

  lemma BothBytes(a: Byte, x: Byte)
    requires x != 0
    ensures XorByte(a, x) != XorByte(a, 0)
  {
  }

  // -------------------------------------------------------------------------
  // Partial deltas
  // -------------------------------------------------------------------------

  // SHAKE128 that repeats a commitment from byte m of the partial deltas on.
  lemma DeltaShown(s: Profile, salt: Block, opening: Bytes, hidden: seq<nat>, m: nat)
    requires |opening| == s.OpeningSize() && |hidden| == s.executions && m < |PartialDeltasOf(s, opening)|
    ensures ObservedCommitment(Repeating(NoCipher(), 0, 1 + s.executions * DIGEST_SIZE + m), s, salt, opening,
      hidden)[0]
         == PartialDeltasOf(s, opening)[m]
  {
    hide OpenedHash, OpenedHashes, PartialDeltasOf, Concat, ByteAt, Repeating;
    var high := 1 + s.executions * DIGEST_SIZE + m;
    var p := Repeating(NoCipher(), 0, high);
    var f := OpenedHashes(p, s, salt, opening, hidden);
    HashesSized(p, s, salt, opening, hidden);
    ConcatLength(s.executions, DIGEST_SIZE, f);
    var c, d := Concat(s.executions, f), PartialDeltasOf(s, opening);
    ByteBehind(NoCipher(), high, c, d, m);
    assert ObservedCommitment(p, s, salt, opening, hidden)[0] == p.xof([0x07] + c + d, 0);
  }

  lemma HashesSized(p: Primitives, s: Profile, salt: Block, opening: Bytes, hidden: seq<nat>)
    requires |hidden| == s.executions
    ensures forall e: nat :: e < s.executions ==> |OpenedHashes(p, s, salt, opening, hidden)(e)| == DIGEST_SIZE
  {
    hide OpenedHash;
  }

  lemma ByteBehind(aes: (Bytes, Bytes, nat) -> Byte, high: nat, c: Bytes, d: Bytes, m: nat)
    requires m < |d| && high == 1 + |c| + m
    ensures Repeating(aes, 0, high).xof([0x07] + c + d, 0) == d[m]
  {
    assert ([0x07] + c + d)[1 + |c| + m] == d[m];
  }

  lemma PartialDeltasDetermined(s: Profile, a: Opened, b: Opened)
    requires Sized(s, a) && Sized(s, b) && SameCommitments(s, a, b)
    ensures PartialDeltasOf(s, a.opening) == PartialDeltasOf(s, b.opening)
  {
    PartialDeltaRegionSize(s, a.opening);
    PartialDeltaRegionSize(s, b.opening);
    hide Sizes.OpeningSize, PartialDeltasOf, ObservedCommitment;
    var c, d := PartialDeltasOf(s, a.opening), PartialDeltasOf(s, b.opening);
    forall m | 0 <= m < |c|
      ensures c[m] == d[m]
    {
      DeltaShown(s, a.salt, a.opening, a.hidden, m);
      DeltaShown(s, b.salt, b.opening, b.hidden, m);
    }
  }

  // -------------------------------------------------------------------------
  // Everything
  // -------------------------------------------------------------------------

  // The regions of an opening are all of it.
  lemma RegionsDetermine(s: Profile, o: Bytes, o': Bytes)
    requires |o| == |o'| == s.OpeningSize()
    requires forall e: nat :: e < s.executions ==>
      PathOf(s, o, e) == PathOf(s, o', e) && HiddenCommitmentOf(s, o, e) == HiddenCommitmentOf(s, o', e)
    requires PartialDeltasOf(s, o) == PartialDeltasOf(s, o')
    ensures o == o'
  {
    OffsetWithinOpening(s);
    var n, m := s.PathsSize(), s.PartialDeltasOffset();
    RegionPieces(s, o);
    RegionPieces(s, o');
    hide Piece, PathOf, HiddenCommitmentOf, Sizes.PathSize;
    PiecesDetermine(o[..n], o'[..n], s.executions, s.PathSize());
    PiecesDetermine(o[n..m], o'[n..m], s.executions, DIGEST_SIZE);
    assert o == o[..n] + o[n..m] + o[m..] && o' == o'[..n] + o'[n..m] + o'[m..];
  }

  // Paths and hidden commitments as pieces of their regions.
  lemma RegionPieces(s: Profile, o: Bytes)
    requires |o| == s.OpeningSize()
    ensures s.PathsSize() <= s.PartialDeltasOffset() <= |o|
    ensures forall e: nat :: e < s.executions ==> Piece(o[..s.PathsSize()], s.PathSize(), e) == PathOf(s, o, e)
    ensures forall e: nat :: e < s.executions ==>
      Piece(o[s.PathsSize()..s.PartialDeltasOffset()], DIGEST_SIZE, e) == HiddenCommitmentOf(s, o, e)
  {
    OffsetWithinOpening(s);
    hide Sizes.PathSize, Sizes.PartialDeltaSize;
    var n, m, size := s.PathsSize(), s.PartialDeltasOffset(), s.PathSize();
    forall e: nat | e < s.executions
      ensures Piece(o[..n], size, e) == PathOf(s, o, e)
      ensures Piece(o[n..m], DIGEST_SIZE, e) == HiddenCommitmentOf(s, o, e)
    {
      SlotBounds(s.executions, size, e);
      PieceOfSuffix(o[..n], 0, n, e * size, size, e);
      assert o[..n][0..] == o[..n];
      SliceOfPrefix(o, n, e * size, size);
      PieceOfSuffix(o[..m], n, m - n, e * DIGEST_SIZE, DIGEST_SIZE, e);
      assert o[..m][n..] == o[n..m];
      SliceOfPrefix(o, m, n + e * DIGEST_SIZE, DIGEST_SIZE);
    }
  }

  // The verifier's commitment determines the opening and the hidden indices, and
  // the salt if there is an execution.
  lemma ObservedCommitmentBinds(s: Profile, a: Opened, b: Opened)
    requires Sized(s, a) && Sized(s, b) && SameCommitments(s, a, b)
    ensures a.opening == b.opening && a.hidden == b.hidden
    ensures s.executions >= 1 ==> a.salt == b.salt
  {
    hide Sizes.OpeningSize, SameCommitments, PathOf, HiddenCommitmentOf, PartialDeltasOf;
    forall e: nat | e < s.executions
      ensures a.hidden[e] == b.hidden[e]
      ensures PathOf(s, a.opening, e) == PathOf(s, b.opening, e)
      ensures HiddenCommitmentOf(s, a.opening, e) == HiddenCommitmentOf(s, b.opening, e)
    {
      HiddenDetermined(s, a, b, e);
      PathDetermined(s, a, b, e);
      HiddenCommitmentDetermined(s, a, b, e);
    }
    PartialDeltasDetermined(s, a, b);
    RegionsDetermine(s, a.opening, b.opening);
    if s.executions >= 1 {
      SaltDetermined(s, a, b, 0);
    }
  }

  // -------------------------------------------------------------------------
  // The signer's commitment
  // -------------------------------------------------------------------------

  ghost function With(v: Inputs, p: Primitives): (w: Inputs)
    requires v.Valid()
    ensures w.Valid()
  {
    v.(p := p)
  }

  ghost predicate SameSigned(v: Inputs, w: Inputs)
    requires v.Valid() && w.Valid()
  {
    forall p :: Commitment(With(v, p)) == Commitment(With(w, p))
  }

  lemma LeafCommitmentShown(v: Inputs, aes: (Bytes, Bytes, nat) -> Byte, e: nat, j: nat)
    requires v.Valid() && e < v.s.executions && j < v.s.Leaves()
    requires v.p == Repeating(aes, 1 + j * DIGEST_SIZE, 1 + e * DIGEST_SIZE)
    ensures Commitment(v) == CommittedSeed(TreeOf(v, e), LeafSeed(v, e, j))
  {
    hide LeafSeed, CommittedSeed, PartialDelta, Concat, Repeating, Xof, LeafHash;
    RepeatedPiece(aes, 1 + j * DIGEST_SIZE, 1 + e * DIGEST_SIZE, 0x07, v.s.executions, LeafHashes(v),
      Concat(v.s.executions, PartialDeltas(v)), e);
    LeafHashShown(v, aes, e, j);
  }

  lemma LeafHashShown(v: Inputs, aes: (Bytes, Bytes, nat) -> Byte, e: nat, j: nat)
    requires v.Valid() && e < v.s.executions && j < v.s.Leaves()
    requires v.p == Repeating(aes, 1 + j * DIGEST_SIZE, 1 + e * DIGEST_SIZE)
    ensures LeafHash(v, e) == CommittedSeed(TreeOf(v, e), LeafSeed(v, e, j))
  {
    hide LeafSeed, CommittedSeed, Concat, Repeating, Xof;
    var f := LeafCommitments(v, e);
    RepeatedPiece(aes, 1 + j * DIGEST_SIZE, 1 + e * DIGEST_SIZE, 0x06, v.s.Leaves(), f, [], j);
    assert [0x06] + Concat(v.s.Leaves(), f) + [] == [0x06] + Concat(v.s.Leaves(), f);
  }

  // Leaf commitments of both inputs under one chosen pair of functions.
  lemma SameLeaf(v: Inputs, w: Inputs, aes: (Bytes, Bytes, nat) -> Byte, e: nat, j: nat) returns (p: Primitives)
    requires v.Valid() && w.Valid() && v.s == w.s && SameSigned(v, w) && e < v.s.executions && j < v.s.Leaves()
    ensures p.aes == aes
    ensures CommittedSeed(TreeOf(With(v, p), e), LeafSeed(With(v, p), e, j))
         == CommittedSeed(TreeOf(With(w, p), e), LeafSeed(With(w, p), e, j))
  {
    hide Commitment, CommittedSeed, LeafSeed;
    p := Repeating(aes, 1 + j * DIGEST_SIZE, 1 + e * DIGEST_SIZE);
    LeafCommitmentShown(With(v, p), aes, e, j);
    LeafCommitmentShown(With(w, p), aes, e, j);
  }

  // Seeds of leftmost nodes are images of the first one.
  lemma {:induction false} NodeLeftmost(t: Context, root: Block, delta: Block, x: nat, m: nat)
    requires Quiet(t) && x >= 2
    ensures Leftmost(x, m) >= 2
    ensures Node(t, root, delta, Leftmost(x, m)) == Images(Node(t, root, delta, x), m)
  {
    hide Orthomorphism, Node, Quiet;
    if m == 0 {
    } else {
      NodeLeftmost(t, root, delta, x, m - 1);
      LeftChild(t, root, delta, Leftmost(x, m - 1));
    }
  }

  lemma LeftChild(t: Context, root: Block, delta: Block, y: nat)
    requires Quiet(t) && y >= 2
    ensures Node(t, root, delta, 2 * y) == Orthomorphism(Node(t, root, delta, y))
  {
    hide Orthomorphism, Derived, Tweaked, Level;
    assert 2 * y / 2 == y && 2 * y % 2 == 0;
    LevelPositive(y);
  }

  // The first leaf below root 2 or 3.
  lemma FirstLeafBelow(v: Inputs, e: nat, x: nat) returns (j: nat)
    requires v.Valid() && e < v.s.executions && Quiet(TreeOf(v, e)) && 2 <= x <= 3
    ensures j < v.s.Leaves() && j == Leftmost(x, v.s.depth - 1) - v.s.Leaves()
    ensures LeafSeed(v, e, j) == Images(Node(TreeOf(v, e), RootSeed(v, e), Delta(v), x), v.s.depth - 1)
  {
    hide Node, RootSeed, Delta, Leftmost, Quiet, Sizes.Leaves, Images;
    FirstLeafBounds(v.s, x);
    j := Leftmost(x, v.s.depth - 1) - v.s.Leaves();
    NodeLeftmost(TreeOf(v, e), RootSeed(v, e), Delta(v), x, v.s.depth - 1);
    assert v.s.Leaves() + j == Leftmost(x, v.s.depth - 1);
  }

  lemma FirstLeafBounds(s: Profile, x: nat)
    requires 2 <= x <= 3
    ensures s.Leaves() <= Leftmost(x, s.depth - 1) < 2 * s.Leaves()
  {
    LeavesDoubled(s);
    assert Pow2(1) == 2 && Pow2(2) == 4;
    hide Pow2, Leftmost;
    LeftmostLevel(x, 1, s.depth - 1);
  }

  // The seeds of both roots agree once the leaf commitments do.
  lemma SameRoot(v: Inputs, w: Inputs, e: nat, x: nat) returns (p: Primitives)
    requires v.Valid() && w.Valid() && v.s == w.s && SameSigned(v, w) && e < v.s.executions && 2 <= x <= 3
    ensures p.aes == NoCipher()
    ensures Node(TreeOf(With(v, p), e), RootSeed(With(v, p), e), Delta(v), x)
         == Node(TreeOf(With(w, p), e), RootSeed(With(w, p), e), Delta(w), x)
  {
    hide CommittedSeed, LeafSeed, RootSeed, Delta, SameSigned, Node, Images, Quiet, Leftmost;
    var j := FirstLeafIndex(v, x);
    p := SameLeaf(v, w, NoCipher(), e, j);
    var a, b := With(v, p), With(w, p);
    assert Delta(a) == Delta(v) && Delta(b) == Delta(w) by { SameDelta(v, p); SameDelta(w, p); }
    NoCipherIsQuiet(TreeOf(a, e));
    NoCipherIsQuiet(TreeOf(b, e));
    var ja := FirstLeafBelow(a, e, x);
    var jb := FirstLeafBelow(b, e, x);
    SeedDetermined(TreeOf(a, e), TreeOf(b, e), LeafSeed(a, e, j), LeafSeed(b, e, j));
    ImagesInjective(Node(TreeOf(a, e), RootSeed(a, e), Delta(a), x), Node(TreeOf(b, e), RootSeed(b, e), Delta(b), x),
      v.s.depth - 1);
  }

  lemma SameDelta(v: Inputs, p: Primitives)
    requires v.Valid()
    ensures Delta(With(v, p)) == Delta(v)
  {
  }

  lemma FirstLeafIndex(v: Inputs, x: nat) returns (j: nat)
    requires 2 <= x <= 3
    ensures j < v.s.Leaves() && j == Leftmost(x, v.s.depth - 1) - v.s.Leaves()
  {
    hide Leftmost, Sizes.Leaves;
    FirstLeafBounds(v.s, x);
    j := Leftmost(x, v.s.depth - 1) - v.s.Leaves();
  }

  // Without cipher every root seed is the image of the master seed.
  lemma RootIsImage(v: Inputs, e: nat)
    requires v.Valid() && e < v.s.executions && v.p.aes == NoCipher()
    ensures RootSeed(v, e) == Orthomorphism(v.master)
  {
    hide Orthomorphism, Tweaked, Derived, RootSeed;
    RootSeedAt(v, e);
    DerivedWithoutCipher(v.p, Tweaked(Zeros(SEED_SIZE), 3, 0, e), v.master);
  }

  lemma MasterDetermined(v: Inputs, w: Inputs)
    requires v.Valid() && w.Valid() && v.s == w.s && SameSigned(v, w) && v.s.executions >= 1
    ensures v.master == w.master
  {
    hide SameSigned, Orthomorphism, RootSeed, Delta;
    var p := SameRoot(v, w, 0, 2);
    RootIsImage(With(v, p), 0);
    RootIsImage(With(w, p), 0);
    RootNodes(TreeOf(With(v, p), 0), RootSeed(With(v, p), 0), Delta(v));
    RootNodes(TreeOf(With(w, p), 0), RootSeed(With(w, p), 0), Delta(w));
    hide Node;
    OrthomorphismInjective(v.master, w.master);
  }

  lemma DeltaDetermined(v: Inputs, w: Inputs)
    requires v.Valid() && w.Valid() && v.s == w.s && SameSigned(v, w) && v.s.executions >= 1
    ensures Delta(v) == Delta(w)
  {
    hide SameSigned, Orthomorphism, RootSeed, Delta, XorBytes;
    MasterDetermined(v, w);
    var p := SameRoot(v, w, 0, 3);
    RootIsImage(With(v, p), 0);
    RootIsImage(With(w, p), 0);
    var root := Orthomorphism(v.master);
    RootNodes(TreeOf(With(v, p), 0), root, Delta(v));
    RootNodes(TreeOf(With(w, p), 0), root, Delta(w));
    hide Node;
    XorBytesCancels(Delta(v), root);
    XorBytesCancels(Delta(w), root);
  }

  // Byte m of the partial delta of execution e.
  lemma PartialDeltaShown(v: Inputs, e: nat, m: nat)
    requires v.Valid() && e < v.s.executions && m < v.s.PartialDeltaSize()
    requires v.p == Repeating(NoCipher(), 0, 1 + v.s.executions * DIGEST_SIZE + (e * v.s.PartialDeltaSize() + m))
    ensures Commitment(v)[0] == PartialDelta(v, e)[m]
  {
    hide LeafHash, PartialDelta, Concat, Repeating, Sizes.PartialDeltaSize;
    var n, size, f, g := v.s.executions, v.s.PartialDeltaSize(), LeafHashes(v), PartialDeltas(v);
    ConcatLength(n, DIGEST_SIZE, f);
    ConcatSlot(n, size, g, e);
    var c, d, at := Concat(n, f), Concat(n, g), e * size;
    assert d[at..at + size][m] == d[at + m];
    ByteBehind(NoCipher(), 1 + n * DIGEST_SIZE + (at + m), c, d, at + m);
    assert Commitment(v)[0] == v.p.xof([0x07] + c + d, 0);
  }

  lemma PartialDeltaDetermined(v: Inputs, w: Inputs, e: nat, m: nat) returns (p: Primitives)
    requires v.Valid() && w.Valid() && v.s == w.s && SameSigned(v, w) && e < v.s.executions &&
      m < v.s.PartialDeltaSize()
    ensures p.aes == NoCipher() && PartialDelta(With(v, p), e)[m] == PartialDelta(With(w, p), e)[m]
  {
    hide Commitment, PartialDelta, Sizes.PartialDeltaSize;
    p := Repeating(NoCipher(), 0, 1 + v.s.executions * DIGEST_SIZE + (e * v.s.PartialDeltaSize() + m));
    PartialDeltaShown(With(v, p), e, m);
    PartialDeltaShown(With(w, p), e, m);
  }

  // The leaves depend on the secret through delta alone, and without cipher on
  // nothing of the salt.
  lemma SameAccumulated(v: Inputs, w: Inputs, e: nat)
    requires v.Valid() && w.Valid() && v.s == w.s && v.p == w.p && e < v.s.executions
    requires v.master == w.master && v.salt == w.salt && Delta(v) == Delta(w)
    ensures Accumulated(v, e) == Accumulated(w, e)
  {
    hide Node, ExpandedLeaf, Delta, Stream;
    assert RootSeed(v, e) == RootSeed(w, e);
    forall j: nat | j < v.s.Leaves()
      ensures LeafSeed(v, e, j) == LeafSeed(w, e, j)
    {
    }
    hide LeafSeed;
    assert Leaves(v, e) == Leaves(w, e);
  }

  lemma SecretDetermined(v: Inputs, w: Inputs)
    requires v.Valid() && w.Valid() && v.s == w.s && SameSigned(v, w) && v.s.executions >= 1
    ensures v.secret == w.secret
  {
    MasterDetermined(v, w);
    DeltaDetermined(v, w);
    SignedSaltDetermined(v, w);
    hide SameSigned, Accumulated, PackedSecret;
    var x, y := PackedSecret(v), PackedSecret(w);
    assert x[..SEED_SIZE] == y[..SEED_SIZE];
    forall m: nat | m < v.s.PartialDeltaSize()
      ensures x[SEED_SIZE..][m] == y[SEED_SIZE..][m]
    {
      SecretByteDetermined(v, w, m);
    }
    assert x == x[..SEED_SIZE] + x[SEED_SIZE..] && y == y[..SEED_SIZE] + y[SEED_SIZE..];
    PackedDetermines(v, w);
  }

  lemma SecretByteDetermined(v: Inputs, w: Inputs, m: nat)
    requires v.Valid() && w.Valid() && v.s == w.s && SameSigned(v, w) && v.s.executions >= 1
    requires v.master == w.master && v.salt == w.salt && Delta(v) == Delta(w) && m < v.s.PartialDeltaSize()
    ensures PackedSecret(v)[SEED_SIZE + m] == PackedSecret(w)[SEED_SIZE + m]
  {
    hide SameSigned, Accumulated, PackedSecret, PartialDelta;
    var p := PartialDeltaDetermined(v, w, 0, m);
    var a, b := With(v, p), With(w, p);
    SameDelta(v, p);
    SameDelta(w, p);
    SameAccumulated(a, b, 0);
    SecretByte(a, 0, m);
    SecretByte(b, 0, m);
    SamePacked(v, p);
    SamePacked(w, p);
  }

  lemma SamePacked(v: Inputs, p: Primitives)
    requires v.Valid()
    ensures PackedSecret(With(v, p)) == PackedSecret(v)
  {
  }

  lemma SecretByte(v: Inputs, e: nat, m: nat)
    requires v.Valid() && e < v.s.executions && m < v.s.PartialDeltaSize()
    ensures XorByte(PartialDelta(v, e)[m], Accumulated(v, e)[SEED_SIZE + m]) == PackedSecret(v)[SEED_SIZE + m]
  {
    hide Accumulated, PackedSecret, XorByte;
    XorByteTwice(PackedSecret(v)[SEED_SIZE + m], Accumulated(v, e)[SEED_SIZE + m]);
  }

  lemma XorByteTwice(a: Byte, b: Byte)
    ensures XorByte(XorByte(a, b), b) == a
  {
  }

  lemma PackedDetermines(v: Inputs, w: Inputs)
    requires v.Valid() && w.Valid() && v.s == w.s && PackedSecret(v) == PackedSecret(w)
    ensures v.secret == w.secret
  {
    UnpackPacked(v.secret);
    UnpackPacked(w.secret);
    hide Packed, Unpacked;
  }

  // -------------------------------------------------------------------------
  // The signer's salt
  // -------------------------------------------------------------------------

  // A key that no derivation below the roots uses leaves the tree quiet.
  lemma OneKeyIsQuiet(t: Context, k: Block)
    requires t.p.aes == OneKey(k, 1) && XorByte(t.salt[0], ToByte(2 + 4 * t.execution)) != k[0]
    ensures Quiet(t)
  {
    hide Derived, Tweaked, Orthomorphism, ToByte, XorByte;
    forall l: nat, y: Block
      ensures Derived(t.p, Tweaked(t.salt, 2, t.execution, l), y) == Orthomorphism(y)
    {
      TweakedAt(t.salt, 2, t.execution, l, 0);
      DerivedWithoutCipher(t.p, Tweaked(t.salt, 2, t.execution, l), y);
    }
  }

  // One of the two committing keys of a salt is no tree key of either salt.
  lemma QuietSelector(a: Block, b: Block) returns (c: nat)
    ensures c < 2
    ensures XorByte(a[0], ToByte(2)) != Tweaked(a, c, 0, 0)[0]
    ensures XorByte(b[0], ToByte(2)) != Tweaked(a, c, 0, 0)[0]
  {
    hide Tweaked, ToByte, XorByte;
    TweakedAt(a, 0, 0, 0, 0);
    TweakedAt(a, 1, 0, 0, 0);
    SelectorBytes(a[0]);
    c := if XorByte(b[0], ToByte(2)) == Tweaked(a, 0, 0, 0)[0] then 1 else 0;
  }

  lemma SelectorBytes(a: Byte)
    ensures XorByte(a, ToByte(0)) != XorByte(a, ToByte(1)) && XorByte(a, ToByte(0)) != XorByte(a, ToByte(2))
    ensures XorByte(a, ToByte(1)) != XorByte(a, ToByte(2))
  {
    assert ToByte(0) == 0 && ToByte(1) == 1 && ToByte(2) == 2;
    hide ToByte;
  }

  // What the first leaf commitment shows of the key k.
  lemma LeafShowsKey(v: Inputs, k: Block, c: nat, j: nat)
    requires v.Valid() && v.s.executions >= 1 && v.p.aes == OneKey(k, 1) && c < 2
    requires XorByte(v.salt[0], ToByte(2)) != k[0]
    requires j < v.s.Leaves() && j == Leftmost(2, v.s.depth - 1) - v.s.Leaves()
    ensures var seed := Images(RootSeed(v, 0), v.s.depth - 1);
      XorByte(CommittedSeed(TreeOf(v, 0), LeafSeed(v, 0, j))[SEED_SIZE * c],
              if Tweaked(v.salt, c, 0, 0) == k then 1 else 0) == XorByte(seed[8], seed[0])
  {
    hide Tweaked, ToByte, XorByte, Quiet, CommittedSeed, LeafSeed, Leftmost, OneKey, Images, RootSeed;
    OneKeyIsQuiet(TreeOf(v, 0), k);
    LeafOfRoot(v, j);
    KeyShown(TreeOf(v, 0), LeafSeed(v, 0, j), k, c);
  }

  // Two inputs that differ at most in secret and salt, with one leaf commitment.
  lemma SaltsEqual(v: Inputs, w: Inputs, k: Block, c: nat, j: nat)
    requires v.Valid() && w.Valid() && v.s == w.s && v.p == w.p && v.master == w.master && v.s.executions >= 1
    requires v.p.aes == OneKey(k, 1) && c < 2 && k == Tweaked(v.salt, c, 0, 0)
    requires XorByte(v.salt[0], ToByte(2)) != k[0] && XorByte(w.salt[0], ToByte(2)) != k[0]
    requires j < v.s.Leaves() && j == Leftmost(2, v.s.depth - 1) - v.s.Leaves()
    requires CommittedSeed(TreeOf(v, 0), LeafSeed(v, 0, j)) == CommittedSeed(TreeOf(w, 0), LeafSeed(w, 0, j))
    ensures v.salt == w.salt
  {
    hide Tweaked, ToByte, XorByte, CommittedSeed, LeafSeed, Leftmost, OneKey, Images, RootSeed;
    LeafShowsKey(v, k, c, j);
    LeafShowsKey(w, k, c, j);
    SameRootSeed(v, w);
    if Tweaked(w.salt, c, 0, 0) == k {
      TweakedSalt(v.salt, w.salt, c, 0, 0);
    } else {
      BothBytes(CommittedSeed(TreeOf(v, 0), LeafSeed(v, 0, j))[SEED_SIZE * c], 1);
    }
  }

  lemma SignedSaltDetermined(v: Inputs, w: Inputs)
    requires v.Valid() && w.Valid() && v.s == w.s && SameSigned(v, w) && v.s.executions >= 1
    ensures v.salt == w.salt
  {
    hide *;
    MasterDetermined(v, w);
    var c := QuietSelector(v.salt, w.salt);
    SaltStep(v, w, c);
  }

  lemma SaltStep(v: Inputs, w: Inputs, c: nat)
    requires v.Valid() && w.Valid() && v.s == w.s && SameSigned(v, w) && v.s.executions >= 1 && v.master == w.master
    requires c < 2 && XorByte(v.salt[0], ToByte(2)) != Tweaked(v.salt, c, 0, 0)[0]
    requires XorByte(w.salt[0], ToByte(2)) != Tweaked(v.salt, c, 0, 0)[0]
    ensures v.salt == w.salt
  {
    hide SameSigned, Tweaked, ToByte, XorByte, CommittedSeed, LeafSeed, Leftmost, OneKey, RootSeed, Delta;
    var k := Tweaked(v.salt, c, 0, 0);
    var j := FirstLeafIndex(v, 2);
    var p := SameLeaf(v, w, OneKey(k, 1), 0, j);
    SaltsEqual(With(v, p), With(w, p), k, c, j);
  }

  lemma SameRootSeed(v: Inputs, w: Inputs)
    requires v.s == w.s && v.p == w.p && v.master == w.master && v.s.executions >= 1
    ensures RootSeed(v, 0) == RootSeed(w, 0)
  {
    hide Stream;
  }

  lemma LeafOfRoot(v: Inputs, j: nat)
    requires v.Valid() && v.s.executions >= 1 && Quiet(TreeOf(v, 0))
    requires j < v.s.Leaves() && j == Leftmost(2, v.s.depth - 1) - v.s.Leaves()
    ensures LeafSeed(v, 0, j) == Images(RootSeed(v, 0), v.s.depth - 1)
  {
    var i := FirstLeafBelow(v, 0, 2);
    RootNodes(TreeOf(v, 0), RootSeed(v, 0), Delta(v));
    hide Node, Delta, RootSeed, Leftmost, Images, LeafSeed;
  }

  // The signer's commitment determines secret, master seed and salt.
  lemma CommitmentBinds(v: Inputs, w: Inputs)
    requires v.Valid() && w.Valid() && v.s == w.s && v.s.executions >= 1 && SameSigned(v, w)
    ensures v.secret == w.secret && v.master == w.master && v.salt == w.salt
  {
    hide SameSigned;
    MasterDetermined(v, w);
    SignedSaltDetermined(v, w);
    SecretDetermined(v, w);
  }
}
