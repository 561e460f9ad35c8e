// src/blc.rs: seed commitments, the leaf loop and commit.
module Blc {
  import opened Words
  import opened ByteStrings
  import opened BaseFields
  import opened ExtensionField
  import opened Packing
  import opened Params
  import opened Prg
  import opened SeedTree
  import opened Fold
  import opened LineCommitment

  // -------------------------------------------------------------------------
  // Leaves
  // -------------------------------------------------------------------------

  datatype SeedCommitter = SeedCommitter(first: Block, second: Block)

  ghost predicate CommitterFor(k: SeedCommitter, t: Context) {
    k.first == Tweaked(t.salt, 0, t.execution, 0) && k.second == Tweaked(t.salt, 1, t.execution, 0)
  }

  method NewCommitter(t: Context) returns (k: SeedCommitter)
    ensures CommitterFor(k, t)
  {
    var firstKey := TweakSalt(t.salt, 0, t.execution, 0);
    var secondKey := firstKey;
    secondKey := secondKey[0 := XorByte(secondKey[0], 1)];
    FlippedKey(t.salt, t.execution);
    k := SeedCommitter(firstKey, secondKey);
  }

  method CommitSeed(t: Context, k: SeedCommitter, seed: Block) returns (commitment: Bytes)
    requires CommitterFor(k, t)
    ensures commitment == CommittedSeed(t, seed)
  {
    var first := Derive(t.p, k.first, seed);
    var second := Derive(t.p, k.second, seed);
    var half: Bytes := first;
    commitment := half + second;
  }

  method ExpandLeaf(t: Context, s: Profile, generator: Generator, seed: Block) returns (expanded: Bytes)
    requires GeneratorFor(generator, t.salt, t.execution, BlockCount(s.LeafSize() - SEED_SIZE))
    ensures expanded == ExpandedLeaf(t, s, seed)
  {
    hide Stream;
    var buffer := new Byte[s.LeafSize()](_ => 0);
    CopyInto(buffer, 0, seed);
    assert buffer[..SEED_SIZE] == seed;
    var ok := Fill(t.p, generator, t.salt, t.execution, seed, buffer, SEED_SIZE);
    expanded := buffer[..];
    assert expanded == buffer[..SEED_SIZE] + buffer[SEED_SIZE..];
  }

  // -------------------------------------------------------------------------
  // commit
  // -------------------------------------------------------------------------

  datatype SigningCommitment = SigningCommitment(
    commitment: Bytes,
    xZero: seq<seq<Ext>>,
    uZero: seq<seq<Ext>>,
    uOne: seq<seq<Ext>>,
    salt: Block,
    delta: Block,
    rootSeeds: seq<Block>,
    partialDeltas: seq<Bytes>)

  // What one execution contributes to the commitment.
  ghost predicate CommitsExecution(v: Inputs, e: nat, hash: Bytes, xZero: seq<Ext>, uZero: seq<Ext>, uOne: seq<Ext>,
                                   partialDelta: Bytes)
    requires v.Valid() && e < v.s.executions
  {
    && hash == LeafHash(v, e)
    && |xZero| == v.s.variables && |uZero| == |uOne| == v.s.repetitions
    && (forall k: nat :: k < v.s.variables ==> xZero[k] == LineConstant(v, e, Secret(k)))
    && (forall k: nat :: k < v.s.repetitions ==> uZero[k] == LineConstant(v, e, Mask(k)))
    && (forall k: nat :: k < v.s.repetitions ==> uOne[k] == LineSlope(v, e, Mask(k)))
    && partialDelta == PartialDelta(v, e)
  }

  ghost predicate CommitmentFor(v: Inputs, c: SigningCommitment)
    requires v.Valid()
  {
    && c.commitment == Commitment(v)
    && |c.xZero| == |c.uZero| == |c.uOne| == |c.rootSeeds| == |c.partialDeltas| == v.s.executions
    && c.salt == v.salt && c.delta == Delta(v)
    && (forall e: nat :: e < v.s.executions ==> c.rootSeeds[e] == RootSeed(v, e))
    && (forall e: nat :: e < v.s.executions ==>
         CommitsExecution(v, e, LeafHash(v, e), c.xZero[e], c.uZero[e], c.uOne[e], c.partialDeltas[e]))
  }

  // The state of the leaf loop after i leaves.
  ghost predicate Folded(s: Profile, leaves: seq<Bytes>, i: nat, accumulator: Bytes, folding: seq<Bytes>)
    requires Uniform(leaves, s.LeafSize()) && i <= |leaves|
  {
    && accumulator == Prefix(leaves, s.LeafSize(), i)
    && |folding| == s.depth
    && forall b: nat :: b < s.depth ==> folding[b] == Row(leaves, s.LeafSize(), s.depth, b, i)
  }

  // A visible leaf: absorb its commitment, expand it, accumulate and fold.
  method ProcessLeaf(t: Context, s: Profile, committer: SeedCommitter, generator: Generator, leafSeed: Block,
                     ghost leaves: seq<Bytes>, leafIndex: nat, state: Shake128State, accumulator: array<Byte>,
                     folding: array<Bytes>)
    requires CommitterFor(committer, t)
    requires GeneratorFor(generator, t.salt, t.execution, BlockCount(s.LeafSize() - SEED_SIZE))
    requires Uniform(leaves, s.LeafSize()) && leafIndex < |leaves| == s.Leaves()
    requires leaves[leafIndex] == ExpandedLeaf(t, s, leafSeed)
    requires accumulator as object != folding as object && state as object != folding && state as object != accumulator
    requires Folded(s, leaves, leafIndex, accumulator[..], folding[..])
    modifies state, accumulator, folding
    ensures state.absorbed == old(state.absorbed) + CommittedSeed(t, leafSeed)
    ensures Folded(s, leaves, leafIndex + 1, accumulator[..], folding[..])
  {
    hide CommittedSeed, ExpandedLeaf, Row, Prefix;
    var commitment := CommitSeed(t, committer, leafSeed);
    state.Absorb(commitment);
    var expanded := ExpandLeaf(t, s, generator, leafSeed);
    AccumulateLeaf(s, leaves, leafIndex, expanded, accumulator, folding);
  }

  // The leaf loop of one execution.
  method FoldExecution(ghost v: Inputs, t: Context, s: Profile, leaves: seq<Block>)
    returns (hash: Bytes, accumulator: Bytes, folding: seq<Bytes>)
    requires v.Valid() && v.s == s && t.execution < s.executions && t == TreeOf(v, t.execution)
    requires |leaves| == s.Leaves() && forall j: nat :: j < s.Leaves() ==> leaves[j] == LeafSeed(v, t.execution, j)
    ensures hash == LeafHash(v, t.execution)
    ensures Folded(s, Leaves(v, t.execution), s.Leaves(), accumulator, folding)
  {
    hide LeafSeed, CommittedSeed, ExpandedLeaf, Folded, Leaves, CommitterFor, GeneratorFor;
    var committer, generator, state, sum, rows := StartFolding(t, s, Leaves(v, t.execution));
    FoldLeaves(v, t, s, leaves, committer, generator, state, sum, rows);
    hash := state.Squeeze(t.p, DIGEST_SIZE);
    accumulator, folding := sum[..], rows[..];
  }

  // What both leaf loops start from.
  method StartFolding(t: Context, s: Profile, ghost leaves: seq<Bytes>)
    returns (committer: SeedCommitter, generator: Generator, state: Shake128State, sum: array<Byte>, rows: array<Bytes>)
    requires Uniform(leaves, s.LeafSize())
    ensures fresh(state) && fresh(sum) && fresh(rows)
    ensures sum as object != rows as object && state as object != rows && state as object != sum
    ensures CommitterFor(committer, t)
    ensures GeneratorFor(generator, t.salt, t.execution, BlockCount(s.LeafSize() - SEED_SIZE))
    ensures state.absorbed == [0x06]
    ensures Folded(s, leaves, 0, sum[..], rows[..])
  {
    hide Folded;
    committer := NewCommitter(t);
    var newGenerator := NewGenerator(t.salt, t.execution, s.LeafSize() - SEED_SIZE);
    generator := newGenerator.value;
    state := new Shake128State();
    state.Absorb([0x06]);
    sum := new Byte[s.LeafSize()](_ => 0);
    rows := new Bytes[s.depth](_ => Zeros(s.LeafSize()));
    NothingFolded(s, leaves, sum[..], rows[..]);
  }

  method FoldLeaves(ghost v: Inputs, t: Context, s: Profile, leaves: seq<Block>, committer: SeedCommitter,
                    generator: Generator, state: Shake128State, sum: array<Byte>, rows: array<Bytes>)
    requires v.Valid() && v.s == s && t.execution < s.executions && t == TreeOf(v, t.execution)
    requires |leaves| == s.Leaves() && forall j: nat :: j < s.Leaves() ==> leaves[j] == LeafSeed(v, t.execution, j)
    requires CommitterFor(committer, t)
    requires GeneratorFor(generator, t.salt, t.execution, BlockCount(s.LeafSize() - SEED_SIZE))
    requires sum as object != rows as object && state as object != rows && state as object != sum
    requires Folded(s, Leaves(v, t.execution), 0, sum[..], rows[..])
    modifies state, sum, rows
    ensures state.absorbed == old(state.absorbed) + Concat(s.Leaves(), LeafCommitments(v, t.execution))
    ensures Folded(s, Leaves(v, t.execution), s.Leaves(), sum[..], rows[..])
  {
    hide LeafSeed, CommittedSeed, ExpandedLeaf, Folded, CommitterFor, GeneratorFor, Concat;
    ghost var f := LeafCommitments(v, t.execution);
    ConcatNothing(state.absorbed, f);
    for leafIndex := 0 to s.Leaves()
      invariant state.absorbed == old(state.absorbed) + Concat(leafIndex, f)
      invariant Folded(s, Leaves(v, t.execution), leafIndex, sum[..], rows[..])
    {
      ProcessLeaf(t, s, committer, generator, leaves[leafIndex], Leaves(v, t.execution), leafIndex, state, sum, rows);
      ConcatNext(old(state.absorbed), leafIndex, f);
    }
  }

  lemma NothingFolded(s: Profile, leaves: seq<Bytes>, accumulator: Bytes, folding: seq<Bytes>)
    requires Uniform(leaves, s.LeafSize())
    requires |accumulator| == s.LeafSize() && forall i :: 0 <= i < |accumulator| ==> accumulator[i] == 0
    requires |folding| == s.depth && forall b :: 0 <= b < s.depth ==> folding[b] == Zeros(s.LeafSize())
    ensures Folded(s, leaves, 0, accumulator, folding)
  {
    assert accumulator == Zeros(s.LeafSize());
  }

  method CommitExecution(ghost v: Inputs, t: Context, s: Profile, serializedSecret: Bytes, root: Block, delta: Block)
    returns (hash: Bytes, xZero: seq<Ext>, uZero: seq<Ext>, uOne: seq<Ext>, partialDelta: Bytes)
    requires v.Valid() && v.s == s && t.execution < s.executions && t == TreeOf(v, t.execution)
    requires serializedSecret == PackedSecret(v) && root == RootSeed(v, t.execution) && delta == Delta(v)
    ensures CommitsExecution(v, t.execution, hash, xZero, uZero, uOne, partialDelta)
  {
    hide LeafHash, Row, XorBytes, DirectSum, RowsSum, CommitsExecution, Leaves, LeafSeed;
    var nodes := FullyExpand(t, s, root, delta);
    var n := s.Leaves();
    forall j: nat | j < n
      ensures nodes[n..][j] == LeafSeed(v, t.execution, j)
    {
      LeavesStart(s);
      LeafSeedIsNode(v, t.execution, j);
    }
    var accumulator, folding;
    hash, accumulator, folding := FoldExecution(v, t, s, nodes[n..]);
    xZero, uZero := CombineRows(s, folding);
    var parsed := ParseExtensionVector(accumulator[s.BaseVectorSize()..], s.repetitions);
    uOne := parsed.value;
    partialDelta := XorBytes(serializedSecret[SEED_SIZE..], accumulator[SEED_SIZE..s.BaseVectorSize()]);
    ExecutionCommitted(v, t.execution, accumulator, folding, xZero, uZero, uOne);
  }

  // The parsed mask part of an accumulated leaf.
  ghost predicate MaskPart(s: Profile, leaf: Bytes, u: seq<Ext>) {
    && |leaf| == s.LeafSize() && |u| == s.repetitions
    && forall k: nat :: k < s.repetitions ==> u[k] == Read(s, Mask(k), leaf)
  }

  lemma ExecutionCommitted(v: Inputs, e: nat, accumulator: Bytes, folding: seq<Bytes>, xZero: seq<Ext>, uZero: seq<Ext>,
                           uOne: seq<Ext>)
    requires v.Valid() && e < v.s.executions
    requires Folded(v.s, Leaves(v, e), v.s.Leaves(), accumulator, folding) && Uniform(folding, v.s.LeafSize())
    requires |xZero| == v.s.variables && forall k: nat :: k < v.s.variables ==>
      xZero[k] == RowsSum(v.s, Secret(k), folding, v.s.depth)
    requires |uZero| == v.s.repetitions && forall k: nat :: k < v.s.repetitions ==>
      uZero[k] == RowsSum(v.s, Mask(k), folding, v.s.depth)
    requires MaskPart(v.s, accumulator, uOne)
    ensures CommitsExecution(v, e, LeafHash(v, e), xZero, uZero, uOne, PartialDelta(v, e))
  {
    hide LeafHash, PartialDelta, DirectSum, RowsSum, Leaves, Row, Read;
    forall c | InRange(v.s, c)
      ensures RowsSum(v.s, c, folding, v.s.depth) == LineConstant(v, e, c)
    {
      CombinedRows(v.s, c, Leaves(v, e), folding);
    }
  }

  lemma LeafSeedIsNode(v: Inputs, e: nat, j: nat)
    requires v.Valid() && e < v.s.executions
    ensures LeafSeed(v, e, j) == Node(TreeOf(v, e), RootSeed(v, e), Delta(v), v.s.Leaves() + j)
  {
    hide Node, RootSeed, Delta;
  }

  lemma LeavesStart(s: Profile)
    ensures s.Leaves() >= 2
  {
    Pow2Monotone(1, s.depth);
    assert Pow2(1) == 2;
  }

  method Commit(p: Primitives, s: Profile, master: Block, salt: Block, secret: seq<Gf16>) returns (c: SigningCommitment)
    requires |secret| == s.variables
    ensures CommitmentFor(Inputs(p, s, master, salt, secret), c)
  {
    hide CommitsExecution, Stream;
    ghost var v := Inputs(p, s, master, salt, secret);
    var buffer := new Byte[s.BaseVectorSize()];
    var ok := PackGf16(secret, buffer);
    var serializedSecret := buffer[..];
    var delta: Block := serializedSecret[..SEED_SIZE];

    var rootSeeds := DeriveRoots(v, p, s, master);

    var xZero: seq<seq<Ext>>, uZero: seq<seq<Ext>>, uOne: seq<seq<Ext>> := [], [], [];
    var partialDeltas: seq<Bytes>, hashes: seq<Bytes> := [], [];
    for execution := 0 to s.executions
      invariant |xZero| == |uZero| == |uOne| == |partialDeltas| == |hashes| == execution
      invariant forall e: nat :: e < execution ==>
        CommitsExecution(v, e, hashes[e], xZero[e], uZero[e], uOne[e], partialDeltas[e])
    {
      var hash, x, u0, u1, d := CommitExecution(v, Context(p, salt, execution), s, serializedSecret,
        rootSeeds[execution], delta);
      xZero, uZero, uOne := xZero + [x], uZero + [u0], uOne + [u1];
      partialDeltas, hashes := partialDeltas + [d], hashes + [hash];
    }
    forall e: nat | e < s.executions
      ensures hashes[e] == LeafHash(v, e) && partialDeltas[e] == PartialDelta(v, e)
    {
      CommitsParts(v, e, hashes[e], xZero[e], uZero[e], uOne[e], partialDeltas[e]);
    }
    var commitment := HashAll(v, p, s, hashes, partialDeltas);
    c := SigningCommitment(commitment, xZero, uZero, uOne, salt, delta, rootSeeds, partialDeltas);
  }

  lemma CommitsParts(v: Inputs, e: nat, hash: Bytes, xZero: seq<Ext>, uZero: seq<Ext>, uOne: seq<Ext>,
                     partialDelta: Bytes)
    requires v.Valid() && e < v.s.executions && CommitsExecution(v, e, hash, xZero, uZero, uOne, partialDelta)
    ensures hash == LeafHash(v, e) && partialDelta == PartialDelta(v, e)
  {
  }

  method DeriveRoots(ghost v: Inputs, p: Primitives, s: Profile, master: Block) returns (rootSeeds: seq<Block>)
    requires v.p == p && v.s == s && v.master == master
    ensures |rootSeeds| == s.executions && forall e: nat :: e < s.executions ==> rootSeeds[e] == RootSeed(v, e)
  {
    hide Stream;
    var rootSeedStream := new Byte[s.executions * SEED_SIZE];
    var ok := FillStream(p, Zeros(SEED_SIZE), 0, master, rootSeedStream);
    rootSeeds := [];
    for e := 0 to s.executions
      invariant |rootSeeds| == e && forall k: nat :: k < e ==> rootSeeds[k] == RootSeed(v, k)
    {
      rootSeeds := rootSeeds + [rootSeedStream[e * SEED_SIZE..e * SEED_SIZE + SEED_SIZE]];
    }
  }

  method HashAll(ghost v: Inputs, p: Primitives, s: Profile, hashes: seq<Bytes>, partialDeltas: seq<Bytes>)
    returns (commitment: Bytes)
    requires v.Valid() && v.p == p && v.s == s && |hashes| == |partialDeltas| == s.executions
    requires forall e: nat :: e < s.executions ==> hashes[e] == LeafHash(v, e) && partialDeltas[e] == PartialDelta(v, e)
    ensures commitment == Commitment(v)
  {
    hide LeafHash, PartialDelta, Concat;
    var state := new Shake128State();
    state.Absorb([0x07]);
    ghost var f, g := LeafHashes(v), PartialDeltas(v);
    ConcatNothing([0x07], f);
    for e := 0 to s.executions
      invariant state.absorbed == [0x07] + Concat(e, f)
    {
      ConcatNext([0x07], e, f);
      state.Absorb(hashes[e]);
    }
    ghost var start := state.absorbed;
    ConcatNothing(start, g);
    for e := 0 to s.executions
      invariant state.absorbed == start + Concat(e, g)
    {
      ConcatNext(start, e, g);
      state.Absorb(partialDeltas[e]);
    }
    commitment := state.Squeeze(p, DIGEST_SIZE);
  }
}
