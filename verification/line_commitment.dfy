// What src/blc.rs commits to and opens, and why an opening lies on the
// committed line.
module LineCommitment {
  import opened Words
  import opened ByteStrings
  import opened BaseFields
  import opened ExtensionField
  import opened LinearAlgebra
  import opened Packing
  import opened Params
  import opened Prg
  import opened Gray
  import opened SeedTree
  import opened Fold

  // The two derivations of a seed that commit to it, with selectors 0 and 1.
  ghost function CommittedSeed(t: Context, seed: Block): (c: Bytes)
    ensures |c| == DIGEST_SIZE
  {
    Derived(t.p, Tweaked(t.salt, 0, t.execution, 0), seed) + Derived(t.p, Tweaked(t.salt, 1, t.execution, 0), seed)
  }

  // A leaf seed followed by its generator stream.
  ghost function ExpandedLeaf(t: Context, s: Profile, seed: Block): (e: Bytes)
    ensures |e| == s.LeafSize()
  {
    seed + Stream(t.p, t.salt, t.execution, seed, s.LeafSize() - SEED_SIZE)
  }

  // -------------------------------------------------------------------------
  // The signer's side
  // -------------------------------------------------------------------------

  datatype Inputs = Inputs(p: Primitives, s: Profile, master: Block, salt: Block, secret: seq<Gf16>)
  {
    ghost predicate Valid() { |secret| == s.variables }
  }

  ghost function PackedSecret(v: Inputs): (b: Bytes)
    requires v.Valid()
    ensures |b| == v.s.BaseVectorSize()
  {
    Packed(v.secret)
  }

  ghost function Delta(v: Inputs): Block
    requires v.Valid()
  {
    PackedSecret(v)[..SEED_SIZE]
  }

  ghost function RootSeed(v: Inputs, execution: nat): Block
    requires execution < v.s.executions
  {
    var stream := Stream(v.p, Zeros(SEED_SIZE), 0, v.master, v.s.executions * SEED_SIZE);
    stream[execution * SEED_SIZE..execution * SEED_SIZE + SEED_SIZE]
  }

  ghost function TreeOf(v: Inputs, execution: nat): Context {
    Context(v.p, v.salt, execution)
  }

  ghost function LeafSeed(v: Inputs, execution: nat, j: nat): Block
    requires v.Valid() && execution < v.s.executions
  {
    Node(TreeOf(v, execution), RootSeed(v, execution), Delta(v), v.s.Leaves() + j)
  }

  ghost function Leaves(v: Inputs, execution: nat): (leaves: seq<Bytes>)
    requires v.Valid() && execution < v.s.executions
    ensures |leaves| == v.s.Leaves() && Uniform(leaves, v.s.LeafSize())
  {
    seq(v.s.Leaves(), j requires 0 <= j < v.s.Leaves() =>
      ExpandedLeaf(TreeOf(v, execution), v.s, LeafSeed(v, execution, j)))
  }

  // The sum of all expanded leaves.
  ghost function Accumulated(v: Inputs, execution: nat): (a: Bytes)
    requires v.Valid() && execution < v.s.executions
    ensures |a| == v.s.LeafSize()
  {
    Prefix(Leaves(v, execution), v.s.LeafSize(), v.s.Leaves())
  }

  // The correction that turns the accumulated base vector into the secret.
  ghost function PartialDelta(v: Inputs, execution: nat): (d: Bytes)
    requires v.Valid() && execution < v.s.executions
    ensures |d| == v.s.PartialDeltaSize()
  {
    XorBytes(PackedSecret(v)[SEED_SIZE..], Accumulated(v, execution)[SEED_SIZE..v.s.BaseVectorSize()])
  }

  // The committed line of coordinate c: its constant and its slope.
  ghost function LineConstant(v: Inputs, execution: nat, c: Coordinate): Ext
    requires v.Valid() && execution < v.s.executions && InRange(v.s, c)
  {
    DirectSum(v.s, c, Leaves(v, execution))
  }

  ghost function LineSlope(v: Inputs, execution: nat, c: Coordinate): Ext
    requires v.Valid() && execution < v.s.executions && InRange(v.s, c)
  {
    match c
    case Secret(k) => Lift(v.secret[k])
    case Mask(k) => Read(v.s, c, Accumulated(v, execution))
  }

  ghost function LeafCommitments(v: Inputs, execution: nat): nat -> Bytes
    requires v.Valid() && execution < v.s.executions
  {
    (j: nat) => CommittedSeed(TreeOf(v, execution), LeafSeed(v, execution, j))
  }

  ghost function LeafHash(v: Inputs, execution: nat): (h: Bytes)
    requires v.Valid() && execution < v.s.executions
    ensures |h| == DIGEST_SIZE
  {
    Xof(v.p, [0x06] + Concat(v.s.Leaves(), LeafCommitments(v, execution)), DIGEST_SIZE)
  }

  ghost function LeafHashes(v: Inputs): nat -> Bytes
    requires v.Valid()
  {
    (e: nat) => if e < v.s.executions then LeafHash(v, e) else []
  }

  ghost function PartialDeltas(v: Inputs): nat -> Bytes
    requires v.Valid()
  {
    (e: nat) => if e < v.s.executions then PartialDelta(v, e) else []
  }

  ghost function Commitment(v: Inputs): (c: Bytes)
    requires v.Valid()
    ensures |c| == DIGEST_SIZE
  {
    Xof(v.p,
      [0x07] + Concat(v.s.executions, LeafHashes(v)) + Concat(v.s.executions, PartialDeltas(v)),
      DIGEST_SIZE)
  }

  // -------------------------------------------------------------------------
  // The verifier's side, on any opening bytes
  // -------------------------------------------------------------------------

  // Where the parts of an execution start in an opening.
  function PathStart(s: Profile, execution: nat): nat {
    execution * s.PathSize()
  }

  function HiddenCommitmentStart(s: Profile, execution: nat): nat {
    s.PathsSize() + execution * DIGEST_SIZE
  }

  function PartialDeltaStart(s: Profile, execution: nat): nat {
    s.PartialDeltasOffset() + execution * s.PartialDeltaSize()
  }

  // The three regions of an opening follow each other.
  lemma RegionBounds(s: Profile, e: nat)
    requires e < s.executions
    ensures PathStart(s, e) + s.PathSize() <= s.PathsSize() <= HiddenCommitmentStart(s, e)
    ensures HiddenCommitmentStart(s, e) + DIGEST_SIZE <= s.PartialDeltasOffset() <= PartialDeltaStart(s, e)
    ensures PartialDeltaStart(s, e) + s.PartialDeltaSize() <= s.OpeningSize()
  {
    hide Sizes.PathSize, Sizes.PartialDeltaSize;
    var n, path, delta := s.executions, s.PathSize(), s.PartialDeltaSize();
    SlotBounds(n, path, e);
    SlotBounds(n, delta, e);
    var paths, deltas, pathStart, deltaStart: nat := n * path, n * delta, e * path, e * delta;
    assert PathStart(s, e) == pathStart && s.PathsSize() == paths;
    assert PartialDeltaStart(s, e) == s.PartialDeltasOffset() + deltaStart &&
      s.OpeningSize() == s.PartialDeltasOffset() + deltas;
    assert HiddenCommitmentStart(s, e) == paths + 32 * e && s.PartialDeltasOffset() == paths + 32 * n;
    hide *;
  }

  ghost function Slot(b: Bytes, start: nat, size: nat): Bytes {
    if start + size <= |b| then b[start..start + size] else []
  }

  ghost function PathOf(s: Profile, opening: Bytes, execution: nat): Bytes {
    Slot(opening, PathStart(s, execution), s.PathSize())
  }

  ghost function HiddenCommitmentOf(s: Profile, opening: Bytes, execution: nat): Bytes {
    Slot(opening, HiddenCommitmentStart(s, execution), DIGEST_SIZE)
  }

  ghost function PartialDeltaOf(s: Profile, opening: Bytes, execution: nat): Bytes {
    Slot(opening, PartialDeltaStart(s, execution), s.PartialDeltaSize())
  }

  ghost function OpenedSeed(t: Context, s: Profile, path: Bytes, hidden: nat, j: nat): Block {
    PartialNode(t, path, s.depth, s.Leaves() + hidden, s.Leaves() + j)
  }

  // The expanded leaves the path gives, with zeros for the hidden one.
  ghost function OpenedLeaves(t: Context, s: Profile, path: Bytes, hidden: nat): (leaves: seq<Bytes>)
    ensures |leaves| == s.Leaves() && Uniform(leaves, s.LeafSize())
  {
    seq(s.Leaves(), j requires 0 <= j < s.Leaves() =>
      if j == hidden then Zeros(s.LeafSize()) else ExpandedLeaf(t, s, OpenedSeed(t, s, path, hidden, j)))
  }

  ghost function OpenedCommitments(t: Context, s: Profile, path: Bytes, hidden: nat,
                                   hiddenCommitment: Bytes): nat -> Bytes
  {
    (j: nat) => if j == hidden then hiddenCommitment else CommittedSeed(t, OpenedSeed(t, s, path, hidden, j))
  }

  ghost function OpenedHash(t: Context, s: Profile, path: Bytes, hidden: nat, hiddenCommitment: Bytes): (h: Bytes)
    ensures |h| == DIGEST_SIZE
  {
    Xof(t.p,
      [0x06] + Concat(s.Leaves(), OpenedCommitments(t, s, path, hidden, hiddenCommitment)),
      DIGEST_SIZE)
  }

  // A partial delta in its place in an expanded leaf.
  ghost function PaddedDelta(s: Profile, partialDelta: Bytes): (b: Bytes)
    requires |partialDelta| == s.PartialDeltaSize()
    ensures |b| == s.LeafSize()
  {
    Zeros(SEED_SIZE) + partialDelta + Zeros(s.MaskVectorSize())
  }

  // The evaluation an opening determines: every visible leaf weighted by the
  // difference of its point and the hidden one, plus the corrected delta at the
  // hidden point.
  ghost function OpenedValue(t: Context, s: Profile, path: Bytes, hidden: nat, partialDelta: Bytes, c: Coordinate): Ext
    requires InRange(s, c) && |partialDelta| == s.PartialDeltaSize()
  {
    Add(Sum(s.Leaves(), Weighted(s, c, OpenedLeaves(t, s, path, hidden), EvaluationPoint(hidden))),
        Mul(Read(s, c, PaddedDelta(s, partialDelta)), EvaluationPoint(hidden)))
  }

  ghost function OpenedHashes(p: Primitives, s: Profile, salt: Block, opening: Bytes, hidden: seq<nat>): nat -> Bytes {
    (e: nat) =>
      if e < |hidden|
      then OpenedHash(Context(p, salt, e), s, PathOf(s, opening, e), hidden[e], HiddenCommitmentOf(s, opening, e))
      else []
  }

  ghost function PartialDeltasOf(s: Profile, opening: Bytes): Bytes {
    if s.PartialDeltasOffset() <= |opening| then opening[s.PartialDeltasOffset()..] else []
  }

  ghost function ObservedCommitment(p: Primitives, s: Profile, salt: Block, opening: Bytes,
                                    hidden: seq<nat>): (c: Bytes)
    ensures |c| == DIGEST_SIZE
  {
    Xof(p,
      [0x07] + Concat(s.executions, OpenedHashes(p, s, salt, opening, hidden)) + PartialDeltasOf(s, opening),
      DIGEST_SIZE)
  }

  // An opening accepted against a commitment.
  ghost predicate Accepts(p: Primitives, s: Profile, salt: Block, commitment: Bytes, opening: Bytes, hidden: seq<nat>) {
    && |hidden| == s.executions
    && |opening| == s.OpeningSize()
    && (forall e :: 0 <= e < s.executions ==> hidden[e] < s.Leaves())
    && ObservedCommitment(p, s, salt, opening, hidden) == commitment
  }

  // -------------------------------------------------------------------------
  // The honest opening
  // -------------------------------------------------------------------------

  // What `open` writes for the hidden indices.
  ghost predicate IsOpening(v: Inputs, opening: Bytes, hidden: seq<nat>)
    requires v.Valid()
  {
    && |hidden| == v.s.executions && |opening| == v.s.OpeningSize()
    && forall e: nat :: e < v.s.executions ==> OpensExecution(v, e, opening, hidden[e])
  }

  ghost predicate OpensExecution(v: Inputs, e: nat, opening: Bytes, hidden: nat)
    requires v.Valid() && e < v.s.executions
  {
    && hidden < v.s.Leaves()
    && HoldsPath(TreeOf(v, e), RootSeed(v, e), Delta(v), v.s.depth, v.s.Leaves() + hidden, PathOf(v.s, opening, e))
    && HiddenCommitmentOf(v.s, opening, e) == CommittedSeed(TreeOf(v, e), LeafSeed(v, e, hidden))
    && PartialDeltaOf(v.s, opening, e) == PartialDelta(v, e)
  }

  // Off the hidden leaf the opened seeds are the committed ones.
  lemma OpenedSeedIsLeafSeed(v: Inputs, e: nat, path: Bytes, hidden: nat, j: nat)
    requires v.Valid() && e < v.s.executions && hidden < v.s.Leaves() && j < v.s.Leaves() && j != hidden
    requires HoldsPath(TreeOf(v, e), RootSeed(v, e), Delta(v), v.s.depth, v.s.Leaves() + hidden, path)
    ensures OpenedSeed(TreeOf(v, e), v.s, path, hidden, j) == LeafSeed(v, e, j)
  {
    hide Node, PartialNode, HoldsPath, RootSeed, Delta;
    var leaf := v.s.Leaves() + hidden;
    assert Pow2(v.s.depth + 1) == 2 * v.s.Leaves();
    Pow2Monotone(1, v.s.depth);
    assert Pow2(1) == 2;
    LeafAncestor(v.s.depth, v.s.Leaves() + j, leaf);
    PathDeterminesNodes(TreeOf(v, e), RootSeed(v, e), Delta(v), v.s.depth, leaf, path, v.s.Leaves() + j);
  }

  // The opened hash of an execution is the committed one.
  lemma OpenedHashIsLeafHash(v: Inputs, e: nat, path: Bytes, hidden: nat)
    requires v.Valid() && e < v.s.executions && hidden < v.s.Leaves()
    requires HoldsPath(TreeOf(v, e), RootSeed(v, e), Delta(v), v.s.depth, v.s.Leaves() + hidden, path)
    ensures OpenedHash(TreeOf(v, e), v.s, path, hidden, CommittedSeed(TreeOf(v, e), LeafSeed(v, e, hidden))) ==
      LeafHash(v, e)
  {
    hide HoldsPath, CommittedSeed, OpenedSeed, LeafSeed, RootSeed, Delta;
    var t, n := TreeOf(v, e), v.s.Leaves();
    var f := LeafCommitments(v, e);
    var g := OpenedCommitments(t, v.s, path, hidden, CommittedSeed(t, LeafSeed(v, e, hidden)));
    forall j: nat | j < n
      ensures g(j) == f(j)
    {
      if j != hidden {
        OpenedSeedIsLeafSeed(v, e, path, hidden, j);
      }
    }
    ConcatsEqual(n, f, g);
  }

  // -------------------------------------------------------------------------
  // The accumulated leaves
  // -------------------------------------------------------------------------

  // The seeds of the first i leaves sum as their nodes do.
  lemma {:induction false} PrefixSeeds(v: Inputs, e: nat, i: nat)
    requires v.Valid() && e < v.s.executions && i <= v.s.Leaves()
    ensures Prefix(Leaves(v, e), v.s.LeafSize(), i)[..SEED_SIZE] ==
      NodeSum(TreeOf(v, e), RootSeed(v, e), Delta(v), v.s.Leaves(), i)
  {
    hide Node, RootSeed, Delta, XorBytes, Stream;
    var leaves, size := Leaves(v, e), v.s.LeafSize();
    if i == 0 {
      assert Zeros(size)[..SEED_SIZE] == Zeros(SEED_SIZE);
    } else {
      PrefixSeeds(v, e, i - 1);
      PrefixStep(leaves, size, i - 1);
      XorBytesSlice(Prefix(leaves, size, i - 1), leaves[i - 1], 0, SEED_SIZE);
      assert leaves[i - 1][..SEED_SIZE] == LeafSeed(v, e, i - 1);
    }
  }

  // All leaf seeds sum to delta, the first part of the packed secret.
  lemma AccumulatedSeeds(v: Inputs, e: nat)
    requires v.Valid() && e < v.s.executions
    ensures Accumulated(v, e)[..SEED_SIZE] == Delta(v)
  {
    PrefixSeeds(v, e, v.s.Leaves());
    SubtreeSum(TreeOf(v, e), RootSeed(v, e), Delta(v), 1, v.s.depth);
    RootNodes(TreeOf(v, e), RootSeed(v, e), Delta(v));
    hide Node, NodeSum;
  }

  // The accumulated base vector plus the partial delta is the packed secret.
  lemma CorrectedAccumulator(v: Inputs, e: nat)
    requires v.Valid() && e < v.s.executions
    ensures var b := XorBytes(Accumulated(v, e), PaddedDelta(v.s, PartialDelta(v, e)));
      && b[..v.s.BaseVectorSize()] == PackedSecret(v)
      && b[v.s.BaseVectorSize()..] == Accumulated(v, e)[v.s.BaseVectorSize()..]
  {
    var base, size := v.s.BaseVectorSize(), v.s.LeafSize();
    var a, d, m := Accumulated(v, e), PartialDelta(v, e), PackedSecret(v);
    var p := PaddedDelta(v.s, d);
    AccumulatedSeeds(v, e);
    hide Accumulated, XorBytes, Delta, PackedSecret;
    var b := XorBytes(a, p);
    XorBytesSlice(a, p, 0, SEED_SIZE);
    XorBytesSlice(a, p, SEED_SIZE, base);
    XorBytesSlice(a, p, base, size);
    assert p[..SEED_SIZE] == Zeros(SEED_SIZE) && p[SEED_SIZE..base] == d && p[base..] == Zeros(v.s.MaskVectorSize());
    XorBytesIdentity(a[..SEED_SIZE]);
    XorBytesIdentity(a[base..]);
    XorBytesCancels(m[SEED_SIZE..], a[SEED_SIZE..base]);
    assert b[..SEED_SIZE] == m[..SEED_SIZE] && b[SEED_SIZE..base] == m[SEED_SIZE..];
    assert b[..base] == b[..SEED_SIZE] + b[SEED_SIZE..base];
    assert m == m[..SEED_SIZE] + m[SEED_SIZE..];
  }

  // -------------------------------------------------------------------------
  // An opening lies on the committed line
  // -------------------------------------------------------------------------

  // Weighting by differences to the hidden point does not see the hidden leaf.
  lemma HiddenLeafDropsOut(v: Inputs, e: nat, path: Bytes, hidden: nat, c: Coordinate)
    requires v.Valid() && e < v.s.executions && hidden < v.s.Leaves() && InRange(v.s, c)
    requires HoldsPath(TreeOf(v, e), RootSeed(v, e), Delta(v), v.s.depth, v.s.Leaves() + hidden, path)
    ensures Sum(v.s.Leaves(), Weighted(v.s, c, OpenedLeaves(TreeOf(v, e), v.s, path, hidden), EvaluationPoint(hidden)))
         == Sum(v.s.Leaves(), Weighted(v.s, c, Leaves(v, e), EvaluationPoint(hidden)))
  {
    var g := EvaluationPoint(hidden);
    var visible, all := OpenedLeaves(TreeOf(v, e), v.s, path, hidden), Leaves(v, e);
    hide Mul, Add, EvaluationPoint, Read, HoldsPath, RootSeed, Delta, LeafSeed, OpenedSeed, ExpandedLeaf;
    forall j: nat | j < v.s.Leaves()
      ensures Weighted(v.s, c, visible, g)(j) == Weighted(v.s, c, all, g)(j)
    {
      if j == hidden {
        AddIdentity(g);
        MulIdentity(Value(v.s, c, visible, j));
        MulIdentity(Value(v.s, c, all, j));
      } else {
        OpenedSeedIsLeafSeed(v, e, path, hidden, j);
      }
    }
    SumsEqual(v.s.Leaves(), Weighted(v.s, c, visible, g), Weighted(v.s, c, all, g));
  }

  // A common shift of all weights adds the accumulated leaves times the shift.
  lemma ShiftedWeights(s: Profile, c: Coordinate, leaves: seq<Bytes>, shift: Ext)
    requires InRange(s, c) && Uniform(leaves, s.LeafSize()) && |leaves| == s.Leaves()
    ensures Sum(s.Leaves(), Weighted(s, c, leaves, shift)) ==
      Add(DirectSum(s, c, leaves), Mul(Read(s, c, Prefix(leaves, s.LeafSize(), s.Leaves())), shift))
  {
    var n := s.Leaves();
    var v := Values(s, c, leaves);
    var direct := (j: nat) => Mul(Value(s, c, leaves, j), EvaluationPoint(j));
    var shifted := (j: nat) => Mul(shift, v(j));
    hide Mul, Add, EvaluationPoint, Read;
    ReadPrefix(s, c, leaves, n);
    forall j: nat
      ensures Weighted(s, c, leaves, shift)(j) == Add(direct(j), shifted(j))
    {
      MulDistributes(Value(s, c, leaves, j), EvaluationPoint(j), shift);
      MulCommutes(Value(s, c, leaves, j), shift);
    }
    SumAdd(n, direct, shifted, Weighted(s, c, leaves, shift));
    SumScale(n, shift, v, shifted);
    MulCommutes(shift, Sum(n, v));
  }

  // The corrected accumulator reads as the slope of the line.
  lemma CorrectedReadsSlope(v: Inputs, e: nat, c: Coordinate)
    requires v.Valid() && e < v.s.executions && InRange(v.s, c)
    ensures Add(Read(v.s, c, Accumulated(v, e)), Read(v.s, c, PaddedDelta(v.s, PartialDelta(v, e)))) ==
      LineSlope(v, e, c)
  {
    var a, p := Accumulated(v, e), PaddedDelta(v.s, PartialDelta(v, e));
    var b := XorBytes(a, p);
    CorrectedAccumulator(v, e);
    ReadXor(v.s, c, a, p);
    hide Accumulated, XorBytes, PartialDelta, Add;
    match c {
      case Secret(k) =>
        assert Nibble(b, k) == Nibble(b[..v.s.BaseVectorSize()], k) == Unpacked(Packed(v.secret), v.s.variables)[k];
        UnpackPacked(v.secret);
      case Mask(k) =>
        assert b[v.s.BaseVectorSize() + 2 * k] == b[v.s.BaseVectorSize()..][2 * k] == a[v.s.BaseVectorSize()..][2 * k];
        assert b[v.s.BaseVectorSize() + 2 * k + 1] == b[v.s.BaseVectorSize()..][2 * k + 1] ==
          a[v.s.BaseVectorSize()..][2 * k + 1];
    }
  }

  lemma PathOnLine(v: Inputs, e: nat, path: Bytes, hidden: nat, c: Coordinate)
    requires v.Valid() && e < v.s.executions && hidden < v.s.Leaves() && InRange(v.s, c)
    requires HoldsPath(TreeOf(v, e), RootSeed(v, e), Delta(v), v.s.depth, v.s.Leaves() + hidden, path)
    ensures OpenedValue(TreeOf(v, e), v.s, path, hidden, PartialDelta(v, e), c)
         == Add(LineConstant(v, e, c), Mul(EvaluationPoint(hidden), LineSlope(v, e, c)))
  {
    hide Mul, Add, EvaluationPoint, Read, DirectSum, HoldsPath, Leaves, PartialDelta, LineSlope, Weighted, OpenedLeaves,
      RootSeed, Delta, PaddedDelta;
    HiddenLeafDropsOut(v, e, path, hidden, c);
    var g := EvaluationPoint(hidden);
    var a, p := Read(v.s, c, Accumulated(v, e)), Read(v.s, c, PaddedDelta(v.s, PartialDelta(v, e)));
    ShiftedWeights(v.s, c, Leaves(v, e), g);
    CorrectedReadsSlope(v, e, c);
    AddAssociates(DirectSum(v.s, c, Leaves(v, e)), Mul(a, g), Mul(p, g));
    MulAdditiveLeft(a, p, g);
    MulCommutes(LineSlope(v, e, c), g);
  }

  // Opening any leaf of any honest commitment evaluates the committed line at
  // that leaf's point.
  lemma OpeningOnLine(v: Inputs, e: nat, opening: Bytes, hidden: nat, c: Coordinate)
    requires v.Valid() && e < v.s.executions && InRange(v.s, c)
    requires OpensExecution(v, e, opening, hidden)
    ensures |PartialDeltaOf(v.s, opening, e)| == v.s.PartialDeltaSize()
    ensures OpenedValue(TreeOf(v, e), v.s, PathOf(v.s, opening, e), hidden, PartialDeltaOf(v.s, opening, e), c)
         == Add(LineConstant(v, e, c), Mul(EvaluationPoint(hidden), LineSlope(v, e, c)))
  {
    hide Mul, Add, EvaluationPoint, OpenedValue, HoldsPath, PartialDelta, LineSlope, LineConstant, PathOf,
      PartialDeltaOf, HiddenCommitmentOf;
    PathOnLine(v, e, PathOf(v.s, opening, e), hidden, c);
  }

  // The honest opening is accepted against the commitment.
  lemma OpeningAccepted(v: Inputs, opening: Bytes, hidden: seq<nat>)
    requires v.Valid() && IsOpening(v, opening, hidden)
    ensures Accepts(v.p, v.s, v.salt, Commitment(v), opening, hidden)
  {
    var n := v.s.executions;
    var f, g := LeafHashes(v), OpenedHashes(v.p, v.s, v.salt, opening, hidden);
    hide LeafHash, OpenedHash, HoldsPath, PartialDelta, CommittedSeed, PathOf, HiddenCommitmentOf;
    forall e: nat | e < n
      ensures g(e) == f(e)
    {
      OpensHash(v, e, opening, hidden[e]);
    }
    ConcatsEqual(n, f, g);
    PartialDeltasConcat(v, opening, hidden);
    forall e: nat | e < n
      ensures hidden[e] < v.s.Leaves()
    {
      assert OpensExecution(v, e, opening, hidden[e]);
    }
  }

  lemma OpensHash(v: Inputs, e: nat, opening: Bytes, hidden: nat)
    requires v.Valid() && e < v.s.executions && OpensExecution(v, e, opening, hidden)
    ensures OpenedHash(TreeOf(v, e), v.s, PathOf(v.s, opening, e), hidden, HiddenCommitmentOf(v.s, opening, e)) ==
      LeafHash(v, e)
  {
    hide OpenedHash, LeafHash, HoldsPath, PathOf, HiddenCommitmentOf, CommittedSeed, PartialDelta;
    OpenedHashIsLeafHash(v, e, PathOf(v.s, opening, e), hidden);
  }

  lemma PartialDeltaRegionSize(s: Profile, opening: Bytes)
    requires |opening| == s.OpeningSize()
    ensures |PartialDeltasOf(s, opening)| == s.executions * s.PartialDeltaSize()
  {
    hide Sizes.PartialDeltaSize, Sizes.PartialDeltasOffset;
    assert 0 <= s.executions * s.PartialDeltaSize();
  }

  // A piece of a suffix is a slot of the whole.
  lemma PieceOfSuffix(b: Bytes, offset: nat, total: nat, at: nat, size: nat, k: nat)
    requires at == k * size && at + size <= total && |b| == offset + total
    ensures Piece(b[offset..], size, k) == Slot(b, offset + at, size)
  {
    assert b[offset..][at..at + size] == b[offset + at..offset + at + size];
  }

  // Piece k of the last region.
  lemma PartialDeltaInRegion(s: Profile, opening: Bytes, k: nat)
    requires |opening| == s.OpeningSize() && k < s.executions
    ensures Piece(PartialDeltasOf(s, opening), s.PartialDeltaSize(), k) == PartialDeltaOf(s, opening, k)
  {
    hide Sizes.PartialDeltaSize, Sizes.PartialDeltasOffset, Piece, Slot;
    var n, size, offset := s.executions, s.PartialDeltaSize(), s.PartialDeltasOffset();
    SlotBounds(n, size, k);
    var total, at := n * size, k * size;
    PieceOfSuffix(opening, offset, total, at, size, k);
  }

  lemma PartialDeltasConcat(v: Inputs, opening: Bytes, hidden: seq<nat>)
    requires v.Valid() && IsOpening(v, opening, hidden)
    ensures PartialDeltasOf(v.s, opening) == Concat(v.s.executions, PartialDeltas(v))
  {
    hide LeafHash, HoldsPath, PartialDelta, CommittedSeed, PathOf, HiddenCommitmentOf, PartialDeltaOf, PartialDeltasOf,
      Piece, Sizes.PartialDeltaSize;
    var n, size, d := v.s.executions, v.s.PartialDeltaSize(), PartialDeltasOf(v.s, opening);
    PartialDeltaRegionSize(v.s, opening);
    forall k: nat | k < n
      ensures Piece(d, size, k) == PartialDeltas(v)(k)
    {
      PartialDeltaInRegion(v.s, opening, k);
      assert OpensExecution(v, k, opening, hidden[k]);
    }
    PiecesAreConcat(d, n, size, PartialDeltas(v));
  }

  // An expanded leaf is its seed followed by the stream of selector 3.
  lemma LeafBytes(t: Context, s: Profile, seed: Block, i: nat)
    requires i < s.LeafSize()
    ensures ExpandedLeaf(t, s, seed)[i] ==
      if i < SEED_SIZE then seed[i]
      else Derived(t.p, Tweaked(t.salt, 3, t.execution, (i - SEED_SIZE) / SEED_SIZE), seed)[i % SEED_SIZE]
  {
    hide Derived, Tweaked;
    if i >= SEED_SIZE {
      assert (i - SEED_SIZE) % SEED_SIZE == i % SEED_SIZE;
    }
  }

  // The halves of a seed commitment are derived with selectors 0 and 1.
  lemma CommittedHalves(t: Context, seed: Block)
    ensures CommittedSeed(t, seed)[..SEED_SIZE] == Derived(t.p, Tweaked(t.salt, 0, t.execution, 0), seed)
    ensures CommittedSeed(t, seed)[SEED_SIZE..] == Derived(t.p, Tweaked(t.salt, 1, t.execution, 0), seed)
  {
    hide Derived, Tweaked;
  }

  // Root seed e is derived from the master seed with the zero salt and block index e.
  lemma RootSeedAt(v: Inputs, e: nat)
    requires e < v.s.executions
    ensures RootSeed(v, e) == Derived(v.p, Tweaked(Zeros(SEED_SIZE), 3, 0, e), v.master)
  {
    hide Stream, Tweaked, Derived;
    SlotBounds(v.s.executions, SEED_SIZE, e);
    StreamBlock(v.p, Zeros(SEED_SIZE), 0, v.master, v.s.executions * SEED_SIZE, e);
  }
}
