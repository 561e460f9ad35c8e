// src/blc.rs: SigningCommitment::open and evaluate_opening.
module Opening {
  import opened Words
  import opened ByteStrings
  import opened ExtensionField
  import opened Params
  import opened Prg
  import opened Gray
  import opened SeedTree
  import opened Fold
  import opened LineCommitment
  import opened Blc

  // -------------------------------------------------------------------------
  // open
  // -------------------------------------------------------------------------

  // The slots of different executions do not overlap.
  lemma SlotsApart(s: Profile, e: nat, k: nat)
    requires e < s.executions && k < s.executions && k != e
    ensures PathStart(s, k) + s.PathSize() <= PathStart(s, e) || PathStart(s, e) + s.PathSize() <= PathStart(s, k)
    ensures HiddenCommitmentStart(s, k) + DIGEST_SIZE <= HiddenCommitmentStart(s, e)
         || HiddenCommitmentStart(s, e) + DIGEST_SIZE <= HiddenCommitmentStart(s, k)
    ensures PartialDeltaStart(s, k) + s.PartialDeltaSize() <= PartialDeltaStart(s, e)
         || PartialDeltaStart(s, e) + s.PartialDeltaSize() <= PartialDeltaStart(s, k)
  {
    var lo, hi := if k < e then k else e, if k < e then e else k;
    SlotBounds(hi, s.PathSize(), lo);
    SlotBounds(hi, s.PartialDeltaSize(), lo);
  }

  lemma SlotWritten(before: Bytes, after: Bytes, start: nat, x: Bytes)
    requires Replaces(before, after, start, x)
    ensures |after| == |before| && Slot(after, start, |x|) == x
  {
  }

  lemma SlotKept(before: Bytes, after: Bytes, at: nat, x: Bytes, start: nat, size: nat)
    requires Replaces(before, after, at, x)
    requires start + size <= at || at + |x| <= start
    ensures |after| == |before| && Slot(after, start, size) == Slot(before, start, size)
  {
  }

  // The three slots of execution k.
  ghost predicate SameSlots(s: Profile, a: Bytes, b: Bytes, k: nat) {
    && PathOf(s, a, k) == PathOf(s, b, k)
    && HiddenCommitmentOf(s, a, k) == HiddenCommitmentOf(s, b, k)
    && PartialDeltaOf(s, a, k) == PartialDeltaOf(s, b, k)
  }

  lemma SameSlotsTransitive(s: Profile, a: Bytes, b: Bytes, c: Bytes, k: nat)
    requires SameSlots(s, a, b, k) && SameSlots(s, b, c, k)
    ensures SameSlots(s, a, c, k)
  {
  }

  lemma PathWritten(s: Profile, a: Bytes, b: Bytes, e: nat, x: Bytes, k: nat)
    requires e < s.executions && k < s.executions && |a| == s.OpeningSize()
    requires |x| == s.PathSize() && Replaces(a, b, PathStart(s, e), x)
    ensures |b| == |a| && PathOf(s, b, e) == x
    ensures k != e ==> SameSlots(s, a, b, k)
  {
    hide Slot, Replaces, PathStart, HiddenCommitmentStart, PartialDeltaStart;
    RegionBounds(s, e);
    RegionBounds(s, k);
    SlotWritten(a, b, PathStart(s, e), x);
    if k != e {
      SlotsApart(s, e, k);
      SlotKept(a, b, PathStart(s, e), x, PathStart(s, k), s.PathSize());
      SlotKept(a, b, PathStart(s, e), x, HiddenCommitmentStart(s, k), DIGEST_SIZE);
      SlotKept(a, b, PathStart(s, e), x, PartialDeltaStart(s, k), s.PartialDeltaSize());
    }
  }

  lemma HiddenCommitmentWritten(s: Profile, a: Bytes, b: Bytes, e: nat, x: Bytes, k: nat)
    requires e < s.executions && k < s.executions && |a| == s.OpeningSize()
    requires |x| == DIGEST_SIZE && Replaces(a, b, HiddenCommitmentStart(s, e), x)
    ensures |b| == |a| && HiddenCommitmentOf(s, b, e) == x && PathOf(s, b, e) == PathOf(s, a, e)
    ensures k != e ==> SameSlots(s, a, b, k)
  {
    hide Slot, Replaces, PathStart, HiddenCommitmentStart, PartialDeltaStart;
    RegionBounds(s, e);
    RegionBounds(s, k);
    var at := HiddenCommitmentStart(s, e);
    SlotWritten(a, b, at, x);
    SlotKept(a, b, at, x, PathStart(s, e), s.PathSize());
    if k != e {
      SlotsApart(s, e, k);
      SlotKept(a, b, at, x, PathStart(s, k), s.PathSize());
      SlotKept(a, b, at, x, HiddenCommitmentStart(s, k), DIGEST_SIZE);
      SlotKept(a, b, at, x, PartialDeltaStart(s, k), s.PartialDeltaSize());
    }
  }

  lemma PartialDeltaWritten(s: Profile, a: Bytes, b: Bytes, e: nat, x: Bytes, k: nat)
    requires e < s.executions && k < s.executions && |a| == s.OpeningSize()
    requires |x| == s.PartialDeltaSize() && Replaces(a, b, PartialDeltaStart(s, e), x)
    ensures |b| == |a| && PartialDeltaOf(s, b, e) == x
    ensures PathOf(s, b, e) == PathOf(s, a, e) && HiddenCommitmentOf(s, b, e) == HiddenCommitmentOf(s, a, e)
    ensures k != e ==> SameSlots(s, a, b, k)
  {
    hide Slot, Replaces, PathStart, HiddenCommitmentStart, PartialDeltaStart;
    RegionBounds(s, e);
    RegionBounds(s, k);
    var at := PartialDeltaStart(s, e);
    SlotWritten(a, b, at, x);
    SlotKept(a, b, at, x, PathStart(s, e), s.PathSize());
    SlotKept(a, b, at, x, HiddenCommitmentStart(s, e), DIGEST_SIZE);
    if k != e {
      SlotsApart(s, e, k);
      SlotKept(a, b, at, x, PathStart(s, k), s.PathSize());
      SlotKept(a, b, at, x, HiddenCommitmentStart(s, k), DIGEST_SIZE);
      SlotKept(a, b, at, x, PartialDeltaStart(s, k), s.PartialDeltaSize());
    }
  }

  // The part of `open` that concerns one execution.
  method OpenExecution(ghost v: Inputs, p: Primitives, s: Profile, c: SigningCommitment, execution: nat,
                       hiddenIndex: nat, opening: array<Byte>)
    returns (ok: bool)
    requires v.Valid() && v.p == p && v.s == s && CommitmentFor(v, c)
    requires execution < s.executions && opening.Length == s.OpeningSize()
    modifies opening
    ensures ok <==> hiddenIndex < s.Leaves()
    ensures ok ==> OpensExecution(v, execution, opening[..], hiddenIndex)
    ensures ok ==> forall k: nat :: k < s.executions && k != execution ==>
      SameSlots(s, old(opening[..]), opening[..], k)
  {
    hide LeafHash, CommitsExecution, HoldsPath, CommittedSeed, Delta, RootSeed, PartialDelta, LeafSeed, SameSlots,
      PathOf, HiddenCommitmentOf, PartialDeltaOf;
    var t := Context(p, c.salt, execution);
    ghost var a := opening[..];
    CommitsParts(v, execution, LeafHash(v, execution), c.xZero[execution], c.uZero[execution], c.uOne[execution],
      c.partialDeltas[execution]);
    var hiddenSeed := WritePath(v, t, s, c.rootSeeds[execution], c.delta, hiddenIndex, opening);
    if hiddenSeed.None? {
      return false;
    }
    ghost var b := opening[..];
    var committer := NewCommitter(t);
    var hiddenCommitment := CommitSeed(t, committer, hiddenSeed.value);
    WriteCorrections(s, execution, hiddenCommitment, c.partialDeltas[execution], opening);
    forall k: nat | k < s.executions && k != execution
      ensures SameSlots(s, a, opening[..], k)
    {
      SameSlotsTransitive(s, a, b, opening[..], k);
    }
    return true;
  }

  method WritePath(ghost v: Inputs, t: Context, s: Profile, root: Block, delta: Block, hiddenIndex: nat,
                   opening: array<Byte>)
    returns (hiddenSeed: Option<Block>)
    requires v.Valid() && v.s == s && t.execution < s.executions && t == TreeOf(v, t.execution)
    requires root == RootSeed(v, t.execution) && delta == Delta(v) && opening.Length == s.OpeningSize()
    modifies opening
    ensures hiddenSeed.Some? <==> hiddenIndex < s.Leaves()
    ensures hiddenSeed.Some? ==> hiddenSeed.value == LeafSeed(v, t.execution, hiddenIndex)
    ensures hiddenSeed.Some? ==>
      HoldsPath(t, root, delta, s.depth, s.Leaves() + hiddenIndex, PathOf(s, opening[..], t.execution))
    ensures forall k: nat :: k < s.executions && k != t.execution ==> SameSlots(s, old(opening[..]), opening[..], k)
  {
    hide HoldsPath, Delta, RootSeed, Node, SameSlots, PathStart;
    var e := t.execution;
    RegionBounds(s, e);
    LeafSeedIsNode(v, e, hiddenIndex);
    ghost var a := opening[..];
    var pathOffset := PathStart(s, e);
    hiddenSeed := OpeningPath(t, s, root, delta, hiddenIndex, opening, pathOffset, pathOffset + s.PathSize());
    PathReplaced(a, opening[..], pathOffset, pathOffset + s.PathSize());
    hide Replaces, PathOf;
    forall k: nat | k < s.executions
      ensures k != e ==> SameSlots(s, a, opening[..], k)
    {
      PathWritten(s, a, opening[..], e, opening[..][pathOffset..pathOffset + s.PathSize()], k);
    }
    PathWritten(s, a, opening[..], e, opening[..][pathOffset..pathOffset + s.PathSize()], e);
  }

  method WriteCorrections(s: Profile, execution: nat, hiddenCommitment: Bytes, partialDelta: Bytes,
                          opening: array<Byte>)
    requires execution < s.executions && opening.Length == s.OpeningSize()
    requires |hiddenCommitment| == DIGEST_SIZE && |partialDelta| == s.PartialDeltaSize()
    modifies opening
    ensures HiddenCommitmentOf(s, opening[..], execution) == hiddenCommitment
    ensures PartialDeltaOf(s, opening[..], execution) == partialDelta
    ensures PathOf(s, opening[..], execution) == PathOf(s, old(opening[..]), execution)
    ensures forall k: nat :: k < s.executions && k != execution ==> SameSlots(s, old(opening[..]), opening[..], k)
  {
    hide SameSlots, PathOf, HiddenCommitmentOf, PartialDeltaOf, PathStart, HiddenCommitmentStart, PartialDeltaStart;
    RegionBounds(s, execution);
    ghost var a := opening[..];
    CopyInto(opening, HiddenCommitmentStart(s, execution), hiddenCommitment);
    ghost var b := opening[..];
    CopyInto(opening, PartialDeltaStart(s, execution), partialDelta);
    ghost var c := opening[..];
    assert Replaces(a, b, HiddenCommitmentStart(s, execution), hiddenCommitment);
    assert Replaces(b, c, PartialDeltaStart(s, execution), partialDelta);
    hide Replaces;
    forall k: nat | k < s.executions
      ensures k != execution ==> SameSlots(s, a, c, k)
    {
      HiddenCommitmentWritten(s, a, b, execution, hiddenCommitment, k);
      PartialDeltaWritten(s, b, c, execution, partialDelta, k);
      if k != execution {
        SameSlotsTransitive(s, a, b, c, k);
      }
    }
    HiddenCommitmentWritten(s, a, b, execution, hiddenCommitment, execution);
    PartialDeltaWritten(s, b, c, execution, partialDelta, execution);
  }

  lemma PathReplaced(a: Bytes, b: Bytes, lo: nat, hi: nat)
    requires lo <= hi <= |a| && |b| == |a| && b[..lo] == a[..lo] && b[hi..] == a[hi..]
    ensures Replaces(a, b, lo, b[lo..hi])
  {
    assert b == b[..lo] + b[lo..hi] + b[hi..];
  }

  lemma OpensWithSameSlots(v: Inputs, e: nat, a: Bytes, b: Bytes, hidden: nat)
    requires v.Valid() && e < v.s.executions && OpensExecution(v, e, a, hidden) && SameSlots(v.s, a, b, e)
    ensures OpensExecution(v, e, b, hidden)
  {
    hide HoldsPath, PathOf, HiddenCommitmentOf, PartialDeltaOf, CommittedSeed, PartialDelta, Delta, RootSeed;
  }

  // SigningCommitment::open
  method Open(ghost v: Inputs, p: Primitives, s: Profile, c: SigningCommitment, hiddenIndices: seq<nat>)
    returns (result: Option<Bytes>)
    requires v.Valid() && v.p == p && v.s == s && CommitmentFor(v, c) && |hiddenIndices| == s.executions
    ensures result.Some? <==> forall e :: 0 <= e < s.executions ==> hiddenIndices[e] < s.Leaves()
    ensures result.Some? ==> IsOpening(v, result.value, hiddenIndices)
  {
    hide OpensExecution, CommitmentFor, SameSlots;
    var opening := new Byte[s.OpeningSize()](_ => 0);
    for execution := 0 to s.executions
      invariant forall e: nat :: e < execution ==> OpensExecution(v, e, opening[..], hiddenIndices[e])
      invariant forall e :: 0 <= e < execution ==> hiddenIndices[e] < s.Leaves()
    {
      ghost var before := opening[..];
      var ok := OpenExecution(v, p, s, c, execution, hiddenIndices[execution], opening);
      if !ok {
        return None;
      }
      forall e: nat | e < execution
        ensures OpensExecution(v, e, opening[..], hiddenIndices[e])
      {
        OpensWithSameSlots(v, e, before, opening[..], hiddenIndices[e]);
      }
    }
    return Some(opening[..]);
  }

  // -------------------------------------------------------------------------
  // evaluate_opening
  // -------------------------------------------------------------------------

  // The leaf loop of the verifier: the hidden leaf counts as zero and its
  // commitment is taken from the opening.
  method FoldOpened(t: Context, s: Profile, leaves: seq<Block>, ghost path: Bytes, hiddenIndex: nat,
                    hiddenCommitment: Bytes)
    returns (hash: Bytes, accumulator: Bytes, folding: seq<Bytes>)
    requires |leaves| == s.Leaves() && hiddenIndex < s.Leaves()
    requires forall j: nat :: j < s.Leaves() ==> leaves[j] == OpenedSeed(t, s, path, hiddenIndex, j)
    ensures hash == OpenedHash(t, s, path, hiddenIndex, hiddenCommitment)
    ensures Folded(s, OpenedLeaves(t, s, path, hiddenIndex), s.Leaves(), accumulator, folding)
  {
    hide OpenedSeed, CommittedSeed, ExpandedLeaf, Folded, CommitterFor, GeneratorFor, Concat;
    ghost var strings := OpenedLeaves(t, s, path, hiddenIndex);
    ghost var f := OpenedCommitments(t, s, path, hiddenIndex, hiddenCommitment);
    ConcatNothing([0x06], f);
    var committer, generator, state, sum, rows := StartFolding(t, s, strings);
    for leafIndex := 0 to s.Leaves()
      invariant fresh(state) && fresh(sum) && fresh(rows)
      invariant state.absorbed == [0x06] + Concat(leafIndex, f)
      invariant Folded(s, strings, leafIndex, sum[..], rows[..])
    {
      ConcatNext([0x06], leafIndex, f);
      if leafIndex == hiddenIndex {
        state.Absorb(hiddenCommitment);
        FoldStep(s, strings, leafIndex, Zeros(s.LeafSize()), sum, rows);
      } else {
        ProcessLeaf(t, s, committer, generator, leaves[leafIndex], strings, leafIndex, state, sum, rows);
      }
    }
    hash := state.Squeeze(t.p, DIGEST_SIZE);
    accumulator, folding := sum[..], rows[..];
  }

  // AccumulateLeaf in terms of the loop state.
  method FoldStep(s: Profile, ghost leaves: seq<Bytes>, leafIndex: nat, expanded: Bytes, accumulator: array<Byte>,
                  folding: array<Bytes>)
    requires Uniform(leaves, s.LeafSize()) && leafIndex < |leaves| == s.Leaves() && expanded == leaves[leafIndex]
    requires accumulator as object != folding as object
    requires Folded(s, leaves, leafIndex, accumulator[..], folding[..])
    modifies accumulator, folding
    ensures Folded(s, leaves, leafIndex + 1, accumulator[..], folding[..])
  {
    hide Row, Prefix;
    AccumulateLeaf(s, leaves, leafIndex, expanded, accumulator, folding);
  }

  method EvaluateExecution(t: Context, s: Profile, path: Bytes, hiddenIndex: nat, hiddenCommitment: Bytes,
                           partialDelta: Bytes)
    returns (hash: Bytes, x: seq<Ext>, u: seq<Ext>)
    requires |path| == s.PathSize() && hiddenIndex < s.Leaves() && |partialDelta| == s.PartialDeltaSize()
    ensures hash == OpenedHash(t, s, path, hiddenIndex, hiddenCommitment)
    ensures |x| == s.variables && forall k: nat :: k < s.variables ==>
      x[k] == OpenedValue(t, s, path, hiddenIndex, partialDelta, Secret(k))
    ensures |u| == s.repetitions && forall k: nat :: k < s.repetitions ==>
      u[k] == OpenedValue(t, s, path, hiddenIndex, partialDelta, Mask(k))
  {
    hide OpenedHash, OpenedValue, OpenedLeaves, XorBytes, Read, Add, Mul, EvaluationPoint, RowsSum, Row, PartialNode,
      DirectSum, FromWord, GrayCode;
    var expanded := PartiallyExpand(t, s, path, hiddenIndex);
    ghost var strings := OpenedLeaves(t, s, path, hiddenIndex);
    var accumulator, folding;
    hash, accumulator, folding := FoldOpened(t, s, expanded.value, path, hiddenIndex, hiddenCommitment);
    var x0, u0 := CombineRows(s, folding);
    LeavesBound(s);
    GrayCodeIsPoint(hiddenIndex);
    var point := FromWord(GrayCode(hiddenIndex).value);
    var adjusted := AdjustBase(s, accumulator, partialDelta);
    var xs := new Ext[s.variables](i requires 0 <= i < s.variables => x0[i]);
    var us := new Ext[s.repetitions](i requires 0 <= i < s.repetitions => u0[i]);
    AddBaseProducts(s, adjusted, point, xs);
    AddMaskProducts(s, accumulator, point, us);
    x, u := xs[..], us[..];
    forall c | InRange(s, c)
      ensures Add(RowsSum(s, c, folding, s.depth), Mul(Read(s, c, if c.Secret? then adjusted else accumulator), point))
           == OpenedValue(t, s, path, hiddenIndex, partialDelta, c)
    {
      EvaluatesOpened(t, s, path, hiddenIndex, partialDelta, c, accumulator, folding, adjusted);
    }
  }

  // The accumulated base vector corrected by the partial delta.
  method AdjustBase(s: Profile, accumulator: Bytes, partialDelta: Bytes) returns (adjusted: Bytes)
    requires |accumulator| == s.LeafSize() && |partialDelta| == s.PartialDeltaSize()
    ensures adjusted == XorBytes(accumulator, PaddedDelta(s, partialDelta))
  {
    hide XorBytes;
    var base := s.BaseVectorSize();
    adjusted := accumulator[..SEED_SIZE] + XorBytes(accumulator[SEED_SIZE..base], partialDelta) + accumulator[base..];
    ghost var p := PaddedDelta(s, partialDelta);
    assert p[..SEED_SIZE] == Zeros(SEED_SIZE) && p[SEED_SIZE..base] == partialDelta &&
      p[base..] == Zeros(s.MaskVectorSize());
    XorBytesSlice(accumulator, p, 0, SEED_SIZE);
    XorBytesSlice(accumulator, p, SEED_SIZE, base);
    XorBytesSlice(accumulator, p, base, s.LeafSize());
    XorBytesIdentity(accumulator[..SEED_SIZE]);
    XorBytesIdentity(accumulator[base..]);
    ghost var r := XorBytes(accumulator, p);
    assert r[..SEED_SIZE] == accumulator[..SEED_SIZE];
    assert r[SEED_SIZE..base] == XorBytes(accumulator[SEED_SIZE..base], partialDelta);
    assert r[base..s.LeafSize()] == r[base..] && p[base..s.LeafSize()] == p[base..] &&
      accumulator[base..s.LeafSize()] == accumulator[base..];
    assert r[base..] == accumulator[base..];
    assert r == r[..SEED_SIZE] + r[SEED_SIZE..base] + r[base..];
  }

  // Fold plus correction is the closed form, for any path and any partial delta.
  lemma EvaluatesOpened(t: Context, s: Profile, path: Bytes, hidden: nat, partialDelta: Bytes, c: Coordinate,
                        accumulator: Bytes, folding: seq<Bytes>, adjusted: Bytes)
    requires InRange(s, c) && |partialDelta| == s.PartialDeltaSize()
    requires Folded(s, OpenedLeaves(t, s, path, hidden), s.Leaves(), accumulator, folding) &&
      Uniform(folding, s.LeafSize())
    requires adjusted == XorBytes(accumulator, PaddedDelta(s, partialDelta))
    ensures Add(RowsSum(s, c, folding, s.depth),
      Mul(Read(s, c, if c.Secret? then adjusted else accumulator), EvaluationPoint(hidden)))
         == OpenedValue(t, s, path, hidden, partialDelta, c)
  {
    var leaves, g, pad := OpenedLeaves(t, s, path, hidden), EvaluationPoint(hidden), PaddedDelta(s, partialDelta);
    CombinedRows(s, c, leaves, folding);
    ShiftedWeights(s, c, leaves, g);
    ReadXor(s, c, accumulator, pad);
    if c.Mask? {
      PaddedMaskIsZero(s, partialDelta, c);
      AddIdentity(Read(s, c, accumulator));
    }
    hide RowsSum, DirectSum, Read, Add, Mul, EvaluationPoint, XorBytes, PaddedDelta, OpenedLeaves, Row, Weighted;
    var a, b := Read(s, c, accumulator), Read(s, c, pad);
    MulAdditiveLeft(a, b, g);
    AddAssociates(DirectSum(s, c, leaves), Mul(a, g), Mul(b, g));
  }

  lemma PaddedMaskIsZero(s: Profile, partialDelta: Bytes, c: Coordinate)
    requires InRange(s, c) && c.Mask? && |partialDelta| == s.PartialDeltaSize()
    ensures Read(s, c, PaddedDelta(s, partialDelta)) == ZERO
  {
  }

  datatype OpenedEvaluations = OpenedEvaluations(x: seq<seq<Ext>>, u: seq<seq<Ext>>)

  // The evaluations an opening determines, whether honest or not.
  ghost predicate EvaluationsOf(p: Primitives, s: Profile, salt: Block, opening: Bytes, hidden: seq<nat>,
                                r: OpenedEvaluations)
  {
    && |hidden| == |r.x| == |r.u| == s.executions
    && forall e: nat :: e < s.executions ==> EvaluationOf(Context(p, salt, e), s, opening, hidden[e], r.x[e], r.u[e])
  }

  ghost predicate EvaluationOf(t: Context, s: Profile, opening: Bytes, hidden: nat, x: seq<Ext>, u: seq<Ext>) {
    && |PartialDeltaOf(s, opening, t.execution)| == s.PartialDeltaSize()
    && |x| == s.variables && |u| == s.repetitions
    && (forall k: nat :: k < s.variables ==>
          x[k] == OpenedValue(t, s, PathOf(s, opening, t.execution), hidden, PartialDeltaOf(s, opening, t.execution),
            Secret(k)))
    && (forall k: nat :: k < s.repetitions ==>
          u[k] == OpenedValue(t, s, PathOf(s, opening, t.execution), hidden, PartialDeltaOf(s, opening, t.execution),
            Mask(k)))
  }

  method EvaluateOpening(p: Primitives, s: Profile, salt: Block, expectedCommitment: Bytes, opening: Bytes,
                         hiddenIndices: seq<nat>)
    returns (result: Option<OpenedEvaluations>)
    requires |hiddenIndices| == s.executions
    ensures result.Some? <==> Accepts(p, s, salt, expectedCommitment, opening, hiddenIndices)
    ensures result.Some? <==> (
      && |opening| == s.OpeningSize()
      && (forall e :: 0 <= e < s.executions ==> hiddenIndices[e] < s.Leaves())
      && ObservedCommitment(p, s, salt, opening, hiddenIndices) == expectedCommitment)
    ensures result.Some? ==> EvaluationsOf(p, s, salt, opening, hiddenIndices, result.value)
  {
    hide OpenedHash, OpenedValue, EvaluationOf;
    if |opening| != s.OpeningSize() {
      return None;
    }
    var x: seq<seq<Ext>>, u: seq<seq<Ext>>, hashes: seq<Bytes> := [], [], [];
    ghost var f := OpenedHashes(p, s, salt, opening, hiddenIndices);
    for execution := 0 to s.executions
      invariant |x| == |u| == |hashes| == execution
      invariant forall e :: 0 <= e < execution ==> hiddenIndices[e] < s.Leaves()
      invariant forall e: nat :: e < execution ==> hashes[e] == f(e)
      invariant forall e: nat :: e < execution ==>
        EvaluationOf(Context(p, salt, e), s, opening, hiddenIndices[e], x[e], u[e])
    {
      var hiddenIndex := hiddenIndices[execution];
      if hiddenIndex >= s.Leaves() {
        return None;
      }
      var hash, xe, ue := EvaluateSlots(p, s, salt, opening, execution, hiddenIndex);
      x, u, hashes := x + [xe], u + [ue], hashes + [hash];
    }
    var observedCommitment := HashOpened(p, s, salt, opening, hiddenIndices, hashes);
    if observedCommitment != expectedCommitment {
      return None;
    }
    return Some(OpenedEvaluations(x, u));
  }

  // One execution of an honest opening: x and u lie on the committed lines.
  ghost predicate OnLine(v: Inputs, e: nat, hidden: nat, x: seq<Ext>, u: seq<Ext>)
    requires v.Valid() && e < v.s.executions
  {
    var g := EvaluationPoint(hidden);
    && |x| == v.s.variables && |u| == v.s.repetitions
    && (forall k: nat :: k < v.s.variables ==> x[k] == Add(LineConstant(v, e, Secret(k)), Mul(g, Lift(v.secret[k]))))
    && (forall k: nat :: k < v.s.repetitions ==>
      u[k] == Add(LineConstant(v, e, Mask(k)), Mul(g, LineSlope(v, e, Mask(k)))))
  }

  // Commit, open at any leaves, evaluate: the opening is accepted and every
  // evaluation is the committed line at the hidden leaf's point.
  lemma HonestOpeningEvaluates(v: Inputs, opening: Bytes, hidden: seq<nat>, r: OpenedEvaluations)
    requires v.Valid() && IsOpening(v, opening, hidden) && EvaluationsOf(v.p, v.s, v.salt, opening, hidden, r)
    ensures Accepts(v.p, v.s, v.salt, Commitment(v), opening, hidden)
    ensures forall e: nat :: e < v.s.executions ==> OnLine(v, e, hidden[e], r.x[e], r.u[e])
  {
    hide Accepts, Commitment, OpensExecution, OpenedValue, LineConstant, EvaluationPoint, Mul, Add, Lift;
    OpeningAccepted(v, opening, hidden);
    forall e: nat | e < v.s.executions
      ensures OnLine(v, e, hidden[e], r.x[e], r.u[e])
    {
      assert OpensExecution(v, e, opening, hidden[e]);
      EvaluationOnLine(v, e, opening, hidden[e], r.x[e], r.u[e]);
    }
  }

  lemma EvaluationOnLine(v: Inputs, e: nat, opening: Bytes, hidden: nat, x: seq<Ext>, u: seq<Ext>)
    requires v.Valid() && e < v.s.executions && OpensExecution(v, e, opening, hidden)
    requires EvaluationOf(Context(v.p, v.salt, e), v.s, opening, hidden, x, u)
    ensures OnLine(v, e, hidden, x, u)
  {
    hide OpensExecution, OpenedValue, LineConstant, EvaluationPoint, Mul, Add, Lift, PathOf, PartialDeltaOf;
    forall k: nat | k < v.s.variables
      ensures x[k] == Add(LineConstant(v, e, Secret(k)), Mul(EvaluationPoint(hidden), Lift(v.secret[k])))
    {
      OpeningOnLine(v, e, opening, hidden, Secret(k));
    }
    forall k: nat | k < v.s.repetitions
      ensures u[k] == Add(LineConstant(v, e, Mask(k)), Mul(EvaluationPoint(hidden), LineSlope(v, e, Mask(k))))
    {
      OpeningOnLine(v, e, opening, hidden, Mask(k));
    }
  }

  method HashOpened(p: Primitives, s: Profile, salt: Block, opening: Bytes, ghost hiddenIndices: seq<nat>,
                    hashes: seq<Bytes>)
    returns (commitment: Bytes)
    requires |opening| == s.OpeningSize() && |hashes| == s.executions
    requires forall e: nat :: e < s.executions ==> hashes[e] == OpenedHashes(p, s, salt, opening, hiddenIndices)(e)
    ensures commitment == ObservedCommitment(p, s, salt, opening, hiddenIndices)
  {
    hide OpenedHash, Concat, OpenedHashes;
    OffsetWithinOpening(s);
    ghost var f := OpenedHashes(p, s, salt, opening, hiddenIndices);
    ConcatNothing([0x07], f);
    var state := new Shake128State();
    state.Absorb([0x07]);
    for e := 0 to s.executions
      invariant state.absorbed == [0x07] + Concat(e, f)
    {
      ConcatNext([0x07], e, f);
      state.Absorb(hashes[e]);
    }
    state.Absorb(opening[s.PartialDeltasOffset()..]);
    commitment := state.Squeeze(p, DIGEST_SIZE);
  }

  lemma OffsetWithinOpening(s: Profile)
    ensures s.PartialDeltasOffset() <= s.OpeningSize()
  {
    assert 0 <= s.executions * s.PartialDeltaSize();
  }

  // One execution, on its slots of the opening.
  method EvaluateSlots(p: Primitives, s: Profile, salt: Block, opening: Bytes, execution: nat, hiddenIndex: nat)
    returns (hash: Bytes, x: seq<Ext>, u: seq<Ext>)
    requires |opening| == s.OpeningSize() && execution < s.executions && hiddenIndex < s.Leaves()
    ensures hash == OpenedHash(Context(p, salt, execution), s, PathOf(s, opening, execution), hiddenIndex,
      HiddenCommitmentOf(s, opening, execution))
    ensures EvaluationOf(Context(p, salt, execution), s, opening, hiddenIndex, x, u)
  {
    hide OpenedHash, OpenedValue, PathStart, HiddenCommitmentStart, PartialDeltaStart;
    RegionBounds(s, execution);
    var pathOffset := PathStart(s, execution);
    var path := opening[pathOffset..pathOffset + s.PathSize()];
    var hiddenCommitmentOffset := HiddenCommitmentStart(s, execution);
    var hiddenCommitment := opening[hiddenCommitmentOffset..hiddenCommitmentOffset + DIGEST_SIZE];
    var partialDeltaOffset := PartialDeltaStart(s, execution);
    var partialDelta := opening[partialDeltaOffset..partialDeltaOffset + s.PartialDeltaSize()];
    hash, x, u := EvaluateExecution(Context(p, salt, execution), s, path, hiddenIndex, hiddenCommitment, partialDelta);
  }
}
