// src/blc.rs: the correlated seed tree, the path that opens all leaves but one,
// and the expansion of that path.
//
// Nodes are numbered from the virtual root 1; node i has children 2i and 2i + 1,
// and the leaves of a tree of depth d are numbered 2^d to 2^(d+1) - 1. The
// virtual root is delta: it is never stored, and its children XOR to it as the
// children of every other node do.
module SeedTree {
  import opened Words
  import opened ByteStrings
  import opened Params
  import opened Prg

  function Sibling(i: nat): nat {
    if i % 2 == 0 then i + 1 else i - 1
  }

  function Level(i: nat): nat {
    if i < 2 then 0 else 1 + Level(i / 2)
  }

  function ShiftRight(i: nat, k: nat): nat {
    if k == 0 then i else ShiftRight(i, k - 1) / 2
  }

  // i is leaf or one of the nodes above it.
  ghost predicate IsAncestor(i: nat, leaf: nat)
    decreases leaf
  {
    i == leaf || (i < leaf && IsAncestor(i, leaf / 2))
  }

  datatype Context = Context(p: Primitives, salt: Block, execution: nat)

  // The seed of node i from that of its parent.
  ghost function Child(t: Context, parent: Block, i: nat): Block
    requires i >= 4
  {
    var left := Derived(t.p, Tweaked(t.salt, 2, t.execution, Level(i / 2) - 1), parent);
    if i % 2 == 0 then left else XorBytes(left, parent)
  }

  ghost function Node(t: Context, root: Block, delta: Block, i: nat): Block
    requires i >= 1
  {
    if i == 1 then delta
    else if i == 2 then root
    else if i == 3 then XorBytes(root, delta)
    else Child(t, Node(t, root, delta, i / 2), i)
  }

  // -------------------------------------------------------------------------
  // Levels and ancestors
  // -------------------------------------------------------------------------

  lemma {:induction false} LevelOf(i: nat, d: nat)
    requires Pow2(d) <= i < Pow2(d + 1)
    ensures Level(i) == d
  {
    if d == 0 {
    } else {
      assert Pow2(d) == 2 * Pow2(d - 1);
      LevelOf(i / 2, d - 1);
    }
  }

  lemma {:induction false} LevelBounds(i: nat)
    requires i >= 1
    ensures Pow2(Level(i)) <= i < Pow2(Level(i) + 1)
  {
    if i < 2 {
    } else {
      LevelBounds(i / 2);
    }
  }

  lemma {:induction false} ShiftRightLevel(leaf: nat, d: nat, k: nat)
    requires Pow2(d) <= leaf < Pow2(d + 1) && k <= d
    ensures Pow2(d - k) <= ShiftRight(leaf, k) < Pow2(d - k + 1)
    ensures IsAncestor(ShiftRight(leaf, k), leaf) && 1 <= ShiftRight(leaf, k) <= leaf
  {
    if k == 0 {
    } else {
      ShiftRightLevel(leaf, d, k - 1);
      assert Pow2(d - k + 1) == 2 * Pow2(d - k);
      HalfAncestor(ShiftRight(leaf, k - 1), leaf);
    }
  }

  lemma {:induction false} HalfAncestor(i: nat, leaf: nat)
    requires i >= 2 && IsAncestor(i, leaf)
    ensures IsAncestor(i / 2, leaf)
    decreases leaf
  {
    if i == leaf {
    } else {
      HalfAncestor(i, leaf / 2);
    }
  }

  // Above the leaf, a node is an ancestor exactly when one of its children is.
  lemma {:induction false} ChildAncestor(i: nat, leaf: nat)
    requires i >= 1 && leaf > i
    ensures IsAncestor(i, leaf) <==> IsAncestor(2 * i, leaf) || IsAncestor(2 * i + 1, leaf)
    ensures !(IsAncestor(2 * i, leaf) && IsAncestor(2 * i + 1, leaf))
    decreases leaf
  {
    if leaf / 2 > i {
      ChildAncestor(i, leaf / 2);
      assert leaf != 2 * i && leaf != 2 * i + 1;
    } else {
      AncestorBound(2 * i, leaf);
      AncestorBound(2 * i + 1, leaf);
      if leaf == 2 * i || leaf == 2 * i + 1 {
        assert leaf / 2 == i;
        AncestorBound(2 * i, leaf / 2);
      } else {
        AncestorBound(i, leaf / 2);
      }
    }
  }

  lemma AncestorBound(i: nat, leaf: nat)
    ensures IsAncestor(i, leaf) ==> i <= leaf
  {
  }

  // Two ancestors on one level are the same.
  lemma {:induction false} AncestorAtLevel(i: nat, leaf: nat, d: nat)
    requires i >= 1 && IsAncestor(i, leaf) && Pow2(d) <= leaf < Pow2(d + 1)
    ensures Level(i) <= d && i == ShiftRight(leaf, d - Level(i))
    decreases leaf
  {
    LevelOf(leaf, d);
    if i != leaf {
      AncestorBound(i, leaf);
      assert d > 0;
      assert Pow2(d) == 2 * Pow2(d - 1);
      AncestorAtLevel(i, leaf / 2, d - 1);
      ShiftRightHalf(leaf, d - 1 - Level(i));
    }
  }

  lemma {:induction false} ShiftRightHalf(i: nat, k: nat)
    ensures ShiftRight(i / 2, k) == ShiftRight(i, k + 1)
  {
    if k > 0 {
      ShiftRightHalf(i, k - 1);
    } else {
      assert ShiftRight(i, 1) == ShiftRight(i, 0) / 2;
    }
  }

  lemma RootNodes(t: Context, root: Block, delta: Block)
    ensures Node(t, root, delta, 1) == delta && Node(t, root, delta, 2) == root
    ensures Node(t, root, delta, 3) == XorBytes(root, delta)
  {
  }

  // The two children of a node, from its seed.
  lemma ChildrenOf(t: Context, root: Block, delta: Block, i: nat, left: Block, right: Block)
    requires i >= 1
    requires left == if i == 1 then root
      else Derived(t.p, Tweaked(t.salt, 2, t.execution, Level(i) - 1), Node(t, root, delta, i))
    requires right == XorBytes(left, Node(t, root, delta, i))
    ensures Node(t, root, delta, 2 * i) == left && Node(t, root, delta, 2 * i + 1) == right
  {
    hide Derived, Tweaked, XorBytes;
    assert 2 * i / 2 == i && (2 * i + 1) / 2 == i && 2 * i % 2 == 0 && (2 * i + 1) % 2 == 1;
  }

  // -------------------------------------------------------------------------
  // Full expansion
  // -------------------------------------------------------------------------

  method FullyExpand(t: Context, s: Profile, root: Block, delta: Block) returns (nodes: array<Block>)
    ensures fresh(nodes) && nodes.Length == 2 * s.Leaves()
    ensures forall i: nat :: 2 <= i < nodes.Length ==> nodes[i] == Node(t, root, delta, i)
  {
    RootNodes(t, root, delta);
    Pow2Monotone(1, s.depth);
    assert Pow2(1) == 2;
    hide Node, XorBytes, Pow2;
    var leaves := s.Leaves();
    nodes := new Block[2 * leaves](_ => Zeros(SEED_SIZE));
    nodes[2] := root;
    nodes[3] := XorBytes(root, delta);
    for depth := 1 to s.depth
      invariant forall i: nat :: 2 <= i < 2 * Pow2(depth) ==> i < nodes.Length && nodes[i] == Node(t, root, delta, i)
    {
      Pow2Monotone(depth + 1, s.depth);
      ExpandLevel(t, root, delta, depth, nodes);
    }
  }

  // The children of all nodes of one level.
  method ExpandLevel(t: Context, ghost root: Block, ghost delta: Block, depth: nat, nodes: array<Block>)
    requires depth >= 1 && 2 * Pow2(depth + 1) <= nodes.Length
    requires forall i: nat :: 2 <= i < 2 * Pow2(depth) ==> nodes[i] == Node(t, root, delta, i)
    modifies nodes
    ensures forall i: nat :: 2 <= i < 2 * Pow2(depth + 1) ==> nodes[i] == Node(t, root, delta, i)
  {
    hide Derived, Tweaked, Node, XorBytes;
    Pow2Monotone(1, depth);
    assert Pow2(1) == 2;
    var key := TweakSalt(t.salt, 2, t.execution, depth - 1);
    for parentIndex := Pow2(depth) to Pow2(depth + 1)
      invariant forall i: nat :: 2 <= i < 2 * parentIndex ==> nodes[i] == Node(t, root, delta, i)
    {
      LevelOf(parentIndex, depth);
      var parent := nodes[parentIndex];
      var leftIndex := 2 * parentIndex;
      var left := Derive(t.p, key, parent);
      var right := XorBytes(left, parent);
      ChildrenOf(t, root, delta, parentIndex, left, right);
      nodes[leftIndex] := left;
      nodes[leftIndex + 1] := right;
    }
  }

  // -------------------------------------------------------------------------
  // The opening path
  // -------------------------------------------------------------------------

  // The path of a leaf: block k is the sibling of the leaf's k-th ancestor.
  ghost predicate HoldsPath(t: Context, root: Block, delta: Block, depth: nat, leaf: nat, path: Bytes) {
    |path| == depth * SEED_SIZE && Pow2(depth) <= leaf &&
    forall k: nat :: k < depth ==> HoldsBlock(t, root, delta, leaf, path, k)
  }

  ghost predicate HoldsBlock(t: Context, root: Block, delta: Block, leaf: nat, path: Bytes, k: nat) {
    ShiftRight(leaf, k) >= 2 && PathBlock(path, k) == Node(t, root, delta, Sibling(ShiftRight(leaf, k)))
  }

  ghost function PathBlock(path: Bytes, k: int): Block {
    if 0 <= k && k * SEED_SIZE + SEED_SIZE <= |path| then path[k * SEED_SIZE..k * SEED_SIZE + SEED_SIZE]
    else Zeros(SEED_SIZE)
  }

  // The way from the virtual root to a leaf.
  lemma TopOfPath(leaf: nat, d: nat)
    requires Pow2(d) <= leaf < Pow2(d + 1)
    ensures ShiftRight(leaf, d) == 1 && ShiftRight(leaf, 0) == leaf
  {
    ShiftRightLevel(leaf, d, d);
    hide IsAncestor;
    assert Pow2(0) == 1 && Pow2(1) == 2;
  }

  // opening_path on the slice path[lo..hi]. Returns the hidden leaf's seed.
  method OpeningPath(t: Context, s: Profile, root: Block, delta: Block, hiddenIndex: nat, path: array<Byte>, lo: nat,
                     hi: nat)
    returns (hidden: Option<Block>)
    requires lo <= hi <= path.Length
    modifies path
    ensures hidden.Some? <==> hiddenIndex < s.Leaves() && hi - lo == s.PathSize()
    ensures hidden.Some? ==> hidden.value == Node(t, root, delta, s.Leaves() + hiddenIndex)
    ensures hidden.Some? ==> HoldsPath(t, root, delta, s.depth, s.Leaves() + hiddenIndex, path[lo..hi])
    ensures path[..lo] == old(path[..lo]) && path[hi..] == old(path[hi..])
    ensures hidden.None? ==> path[..] == old(path[..])
  {
    RootNodes(t, root, delta);
    hide Node, HoldsBlock, PathStepWrites, IsAncestor, ShiftRight, Pow2;
    if hiddenIndex >= s.Leaves() || hi - lo != s.PathSize() {
      return None;
    }
    var parent := delta;
    var leafIndex := s.Leaves() + hiddenIndex;
    LeavesDoubled(s);
    TopOfPath(leafIndex, s.depth);
    for depth := 0 to s.depth
      invariant ShiftRight(leafIndex, s.depth - depth) >= 1
      invariant parent == Node(t, root, delta, ShiftRight(leafIndex, s.depth - depth))
      invariant path[..lo] == old(path[..lo]) && path[hi..] == old(path[hi..])
      invariant forall k: nat :: s.depth - depth <= k < s.depth ==>
        HoldsBlock(t, root, delta, leafIndex, path[lo..hi], k)
    {
      ghost var before := path[lo..hi];
      parent := PathStep(t, s, root, delta, leafIndex, depth, parent, path, lo, hi);
      PathStepHolds(t, root, delta, leafIndex, s.depth - depth - 1, before, path[lo..hi], s.depth);
    }
    return Some(parent);
  }

  // The seeds of the two children of a node at the given depth.
  method SeedsBelow(t: Context, root: Block, ghost delta: Block, depth: nat, ghost i: nat, parent: Block)
    returns (left: Block, right: Block)
    requires i >= 1 && Level(i) == depth && parent == Node(t, root, delta, i)
    ensures left == Node(t, root, delta, 2 * i) && right == Node(t, root, delta, 2 * i + 1)
  {
    hide Derived, Tweaked, Node, XorBytes;
    left := root;
    if depth != 0 {
      var key := TweakSalt(t.salt, 2, t.execution, depth - 1);
      left := Derive(t.p, key, parent);
    }
    right := XorBytes(left, parent);
    ChildrenOf(t, root, delta, i, left, right);
  }

  // The node below an ancestor on the way to the leaf, and its sibling.
  lemma ChildOnPath(leaf: nat, d: nat, depth: nat)
    requires Pow2(d) <= leaf < Pow2(d + 1) && depth < d
    ensures var above, below := ShiftRight(leaf, d - depth), ShiftRight(leaf, d - depth - 1);
      && above >= 1 && Level(above) == depth && below >= 2
      && below == 2 * above + below % 2 && Sibling(below) == 2 * above + 1 - below % 2
  {
    hide IsAncestor;
    ShiftRightLevel(leaf, d, d - depth - 1);
    ShiftRightLevel(leaf, d, d - depth);
    LevelOf(ShiftRight(leaf, d - depth), depth);
    assert ShiftRight(leaf, d - depth) == ShiftRight(leaf, d - depth - 1) / 2;
  }

  method SelectChild(t: Context, s: Profile, root: Block, ghost delta: Block, leafIndex: nat, depth: nat, parent: Block)
    returns (selected: Block, sibling: Block)
    requires Pow2(s.depth) <= leafIndex < Pow2(s.depth + 1) && depth < s.depth
    requires ShiftRight(leafIndex, s.depth - depth) >= 1
    requires parent == Node(t, root, delta, ShiftRight(leafIndex, s.depth - depth))
    ensures ShiftRight(leafIndex, s.depth - depth - 1) >= 2
    ensures selected == Node(t, root, delta, ShiftRight(leafIndex, s.depth - depth - 1))
    ensures sibling == Node(t, root, delta, Sibling(ShiftRight(leafIndex, s.depth - depth - 1)))
  {
    hide Node, Sibling, Level, Pow2, ShiftRight;
    ChildOnPath(leafIndex, s.depth, depth);
    var left, right := SeedsBelow(t, root, delta, depth, ShiftRight(leafIndex, s.depth - depth), parent);
    var bit := ShiftRight(leafIndex, s.depth - 1 - depth) % 2;
    if bit == 0 {
      selected, sibling := left, right;
    } else {
      selected, sibling := right, left;
    }
  }

  // One level of the walk: the sibling goes to the path, the selected child is
  // the next parent.
  method PathStep(t: Context, s: Profile, root: Block, ghost delta: Block, leafIndex: nat, depth: nat, parent: Block,
                  path: array<Byte>, lo: nat, hi: nat)
    returns (selected: Block)
    requires lo <= hi <= path.Length && hi - lo == s.PathSize()
    requires Pow2(s.depth) <= leafIndex < Pow2(s.depth + 1) && depth < s.depth
    requires ShiftRight(leafIndex, s.depth - depth) >= 1
    requires parent == Node(t, root, delta, ShiftRight(leafIndex, s.depth - depth))
    modifies path
    ensures ShiftRight(leafIndex, s.depth - depth - 1) >= 1
    ensures selected == Node(t, root, delta, ShiftRight(leafIndex, s.depth - depth - 1))
    ensures path[..lo] == old(path[..lo]) && path[hi..] == old(path[hi..])
    ensures PathStepWrites(t, root, delta, leafIndex, s.depth - depth - 1, old(path[lo..hi]), path[lo..hi])
  {
    hide Node, Sibling, Level, Pow2, ShiftRight;
    var sibling;
    selected, sibling := SelectChild(t, s, root, delta, leafIndex, depth, parent);
    var pathIndex := s.depth - 1 - depth;
    ghost var whole := path[..];
    CopyInto(path, lo + pathIndex * SEED_SIZE, sibling);
    WindowWrite(whole, path[..], lo, hi, pathIndex, sibling);
    assert whole[lo..hi] == old(path[lo..hi]);
  }

  // Block k of the window becomes the sibling of the leaf's k-th ancestor.
  ghost predicate PathStepWrites(t: Context, root: Block, delta: Block, leaf: nat, k: nat, before: Bytes,
                                 after: Bytes)
  {
    && k * SEED_SIZE + SEED_SIZE <= |before| && ShiftRight(leaf, k) >= 2
    && after == WriteBlock(before, k, Node(t, root, delta, Sibling(ShiftRight(leaf, k))))
  }

  lemma PathStepHolds(t: Context, root: Block, delta: Block, leaf: nat, j: nat, before: Bytes, after: Bytes, depth: nat)
    requires PathStepWrites(t, root, delta, leaf, j, before, after)
    requires forall k: nat :: j < k < depth ==> HoldsBlock(t, root, delta, leaf, before, k)
    ensures forall k: nat :: j <= k < depth ==> HoldsBlock(t, root, delta, leaf, after, k)
  {
    hide HoldsBlock, Node, WriteBlock;
    forall k: nat | j <= k < depth
      ensures HoldsBlock(t, root, delta, leaf, after, k)
    {
      BlockWritten(t, root, delta, leaf, before, j, Node(t, root, delta, Sibling(ShiftRight(leaf, j))), k);
    }
  }

  // A string of blocks with block k replaced.
  ghost function WriteBlock(w: Bytes, k: nat, block: Block): Bytes
    requires k * SEED_SIZE + SEED_SIZE <= |w|
  {
    w[..k * SEED_SIZE] + block + w[k * SEED_SIZE + SEED_SIZE..]
  }

  lemma BlockWritten(t: Context, root: Block, delta: Block, leaf: nat, w: Bytes, j: nat, block: Block, k: nat)
    requires j * SEED_SIZE + SEED_SIZE <= |w|
    requires ShiftRight(leaf, j) >= 2 && block == Node(t, root, delta, Sibling(ShiftRight(leaf, j)))
    requires k == j || HoldsBlock(t, root, delta, leaf, w, k)
    ensures HoldsBlock(t, root, delta, leaf, WriteBlock(w, j, block), k)
  {
    hide Node;
    var v := WriteBlock(w, j, block);
    if k != j && k * SEED_SIZE + SEED_SIZE <= |w| {
      assert v[k * SEED_SIZE..k * SEED_SIZE + SEED_SIZE] == w[k * SEED_SIZE..k * SEED_SIZE + SEED_SIZE];
    }
  }

  // A block written to an array, seen through the window lo..hi.
  lemma WindowWrite(before: Bytes, after: Bytes, lo: nat, hi: nat, k: nat, block: Block)
    requires lo + k * SEED_SIZE + SEED_SIZE <= hi <= |before|
    requires after == before[..lo + k * SEED_SIZE] + block + before[lo + k * SEED_SIZE + SEED_SIZE..]
    ensures |after| == |before| && after[..lo] == before[..lo] && after[hi..] == before[hi..]
    ensures after[lo..hi] == WriteBlock(before[lo..hi], k, block)
  {
  }

  // -------------------------------------------------------------------------
  // Expansion of a path
  // -------------------------------------------------------------------------

  // What a path determines: path blocks beside the leaf's ancestors, derived
  // seeds below them, nothing (zero) on the ancestors themselves.
  ghost function PartialNode(t: Context, path: Bytes, depth: nat, leaf: nat, i: nat): Block {
    if i < 2 || IsAncestor(i, leaf) then Zeros(SEED_SIZE)
    else if IsAncestor(Sibling(i), leaf) then PathBlock(path, depth - Level(i))
    else if i < 4 then Zeros(SEED_SIZE)
    else Child(t, PartialNode(t, path, depth, leaf, i / 2), i)
  }

  // The state of nodes from `frontier` on: only path blocks have been written.
  ghost predicate Initial(t: Context, path: Bytes, depth: nat, leaf: nat, i: nat, node: Block, present: bool) {
    && (present <==> i >= 2 && IsAncestor(Sibling(i), leaf))
    && node == if present then PathBlock(path, depth - Level(i)) else Zeros(SEED_SIZE)
  }

  // The state of nodes before the frontier: all but the ancestors are present.
  ghost predicate Done(t: Context, path: Bytes, depth: nat, leaf: nat, i: nat, node: Block, present: bool) {
    && (present <==> !IsAncestor(i, leaf))
    && node == PartialNode(t, path, depth, leaf, i)
  }

  // While the path is being placed up to node x.
  ghost predicate Placed(path: Bytes, depth: nat, leaf: nat, x: nat, i: nat, node: Block, present: bool) {
    && (present <==> 2 <= i && 2 * x <= i && IsAncestor(Sibling(i), leaf))
    && node == if present then PathBlock(path, depth - Level(i)) else Zeros(SEED_SIZE)
  }

  ghost predicate PathPlaced(t: Context, path: Bytes, depth: nat, leaf: nat, nodes: seq<Block>, present: seq<bool>) {
    |nodes| == |present| && forall i: nat :: i < |nodes| ==> Initial(t, path, depth, leaf, i, nodes[i], present[i])
  }

  // Writes each path block beside an ancestor of the leaf.
  method PlacePath(t: Context, s: Profile, path: Bytes, hiddenIndex: nat, nodes: array<Block>, present: array<bool>)
    requires |path| == s.PathSize() && hiddenIndex < s.Leaves()
    requires nodes.Length == present.Length == 2 * s.Leaves()
    requires forall i :: 0 <= i < nodes.Length ==> nodes[i] == Zeros(SEED_SIZE) && !present[i]
    modifies nodes, present
    ensures PathPlaced(t, path, s.depth, s.Leaves() + hiddenIndex, nodes[..], present[..])
  {
    hide PlacedUpTo, PathPlaced, IsAncestor, Pow2;
    var nodeIndex := s.Leaves() + hiddenIndex;
    ghost var leaf := nodeIndex;
    LeavesDoubled(s);
    NothingPlaced(path, s.depth, leaf, nodes[..], present[..]);
    for k := 0 to s.depth
      invariant nodeIndex == ShiftRight(leaf, k)
      invariant PlacedUpTo(path, s.depth, leaf, nodeIndex, nodes[..], present[..])
    {
      ghost var nodes0: seq<Block>, present0: seq<bool> := nodes[..], present[..];
      PlaceNext(path, s.depth, leaf, k, nodes0, present0);
      var siblingIndex := Sibling(nodeIndex);
      nodes[siblingIndex] := path[k * SEED_SIZE..k * SEED_SIZE + SEED_SIZE];
      present[siblingIndex] := true;
      nodeIndex := nodeIndex / 2;
      assert nodes[..] == nodes0[siblingIndex := path[k * SEED_SIZE..k * SEED_SIZE + SEED_SIZE]];
      assert present[..] == present0[siblingIndex := true];
    }
    AllPlaced(t, path, s.depth, leaf, nodes[..], present[..]);
  }

  lemma LeavesDoubled(s: Profile)
    ensures Pow2(s.depth + 1) == 2 * s.Leaves() && Pow2(s.depth) == s.Leaves() >= 2
  {
    Pow2Monotone(1, s.depth);
    assert Pow2(1) == 2;
  }

  // All blocks up to node x are placed.
  ghost predicate PlacedUpTo(path: Bytes, depth: nat, leaf: nat, x: nat, nodes: seq<Block>, present: seq<bool>) {
    && |nodes| == |present| == Pow2(depth + 1)
    && forall i: nat :: i < |nodes| ==> Placed(path, depth, leaf, x, i, nodes[i], present[i])
  }

  lemma NothingPlaced(path: Bytes, depth: nat, leaf: nat, nodes: seq<Block>, present: seq<bool>)
    requires Pow2(depth) <= leaf < Pow2(depth + 1) == |nodes| == |present|
    requires forall i :: 0 <= i < |nodes| ==> nodes[i] == Zeros(SEED_SIZE) && !present[i]
    ensures PlacedUpTo(path, depth, leaf, leaf, nodes, present)
  {
    hide PathBlock, IsAncestor;
  }

  lemma PlaceNext(path: Bytes, depth: nat, leaf: nat, k: nat, nodes: seq<Block>, present: seq<bool>)
    requires |path| == depth * SEED_SIZE && Pow2(depth) <= leaf < Pow2(depth + 1) && k < depth
    requires PlacedUpTo(path, depth, leaf, ShiftRight(leaf, k), nodes, present)
    ensures k * SEED_SIZE + SEED_SIZE <= |path| && ShiftRight(leaf, k) >= 2 &&
      Sibling(ShiftRight(leaf, k)) < |nodes| == |present|
    ensures var x := ShiftRight(leaf, k);
      PlacedUpTo(path, depth, leaf, x / 2,
        nodes[Sibling(x) := path[k * SEED_SIZE..k * SEED_SIZE + SEED_SIZE]], present[Sibling(x) := true])
  {
    hide Placed, IsAncestor;
    PlacedSibling(path, depth, leaf, k);
    forall i: nat | i < |nodes|
      ensures i != Sibling(ShiftRight(leaf, k)) ==>
        Placed(path, depth, leaf, ShiftRight(leaf, k) / 2, i, nodes[i], present[i])
    {
      PlacedElsewhere(path, depth, leaf, k, i, nodes[i], present[i]);
    }
  }

  lemma AllPlaced(t: Context, path: Bytes, depth: nat, leaf: nat, nodes: seq<Block>, present: seq<bool>)
    requires Pow2(depth) <= leaf < Pow2(depth + 1)
    requires PlacedUpTo(path, depth, leaf, ShiftRight(leaf, depth), nodes, present)
    ensures PathPlaced(t, path, depth, leaf, nodes, present)
  {
    hide PathBlock;
    ShiftRightLevel(leaf, depth, depth);
    hide IsAncestor;
    assert Pow2(0) == 1 && Pow2(1) == 2;
  }

  lemma PlacedSibling(path: Bytes, depth: nat, leaf: nat, k: nat)
    requires |path| == depth * SEED_SIZE && Pow2(depth) <= leaf < Pow2(depth + 1) && k < depth
    ensures ShiftRight(leaf, k) >= 2 && Sibling(ShiftRight(leaf, k)) < Pow2(depth + 1)
    ensures k * SEED_SIZE + SEED_SIZE <= |path|
    ensures Placed(path, depth, leaf, ShiftRight(leaf, k) / 2, Sibling(ShiftRight(leaf, k)),
      path[k * SEED_SIZE..k * SEED_SIZE + SEED_SIZE], true)
  {
    var x := ShiftRight(leaf, k);
    ShiftRightLevel(leaf, depth, k);
    Pow2Monotone(1, depth - k);
    assert Pow2(1) == 2;
    LevelOf(x, depth - k);
    SiblingLevel(x);
    LevelBounds(Sibling(x));
    Pow2Monotone(depth - k + 1, depth + 1);
    PlaceStep(Sibling(x), leaf, depth, k);
  }

  lemma PlacedElsewhere(path: Bytes, depth: nat, leaf: nat, k: nat, i: nat, node: Block, present: bool)
    requires Pow2(depth) <= leaf < Pow2(depth + 1) && k < depth
    requires Placed(path, depth, leaf, ShiftRight(leaf, k), i, node, present)
    ensures i != Sibling(ShiftRight(leaf, k)) ==> Placed(path, depth, leaf, ShiftRight(leaf, k) / 2, i, node, present)
  {
    if i >= 2 {
      PlaceStep(i, leaf, depth, k);
    }
  }

  lemma SiblingLevel(i: nat)
    requires i >= 2
    ensures Level(Sibling(i)) == Level(i) && Sibling(Sibling(i)) == i && Sibling(i) >= 2
  {
    assert Sibling(i) / 2 == i / 2;
  }

  lemma {:induction false} ShiftRightDescends(i: nat, j: nat, k: nat)
    requires j < k
    ensures ShiftRight(i, k) <= ShiftRight(i, j) / 2
  {
    if j == k - 1 {
    } else {
      ShiftRightDescends(i, j, k - 1);
    }
  }

  // Halving the current node admits its sibling and no other.
  lemma PlaceStep(i: nat, leaf: nat, depth: nat, k: nat)
    requires i >= 2 && Pow2(depth) <= leaf < Pow2(depth + 1) && k < depth
    ensures var x := ShiftRight(leaf, k);
      (2 * (x / 2) <= i && IsAncestor(Sibling(i), leaf)) <==>
        (2 * x <= i && IsAncestor(Sibling(i), leaf)) || i == Sibling(x)
  {
    var x := ShiftRight(leaf, k);
    ShiftRightLevel(leaf, depth, k);
    Pow2Monotone(1, depth - k);
    assert Pow2(1) == 2;
    SiblingLevel(x);
    SiblingLevel(i);
    if IsAncestor(Sibling(i), leaf) {
      AncestorAtLevel(Sibling(i), leaf, depth);
      var j := depth - Level(i);
      assert Sibling(i) == ShiftRight(leaf, j);
      if j < k {
        ShiftRightDescends(leaf, j, k);
      } else if j > k {
        ShiftRightDescends(leaf, k, j);
      }
    }
  }

  lemma RootsDone(t: Context, path: Bytes, depth: nat, leaf: nat, node2: Block, present2: bool, node3: Block,
                  present3: bool)
    requires depth >= 1 && Pow2(depth) <= leaf < Pow2(depth + 1)
    requires Initial(t, path, depth, leaf, 2, node2, present2) && Initial(t, path, depth, leaf, 3, node3, present3)
    ensures Done(t, path, depth, leaf, 2, node2, present2) && Done(t, path, depth, leaf, 3, node3, present3)
  {
    Pow2Monotone(1, depth);
    assert Pow2(0) == 1 && Pow2(1) == 2;
    ShiftRightLevel(leaf, depth, depth);
    ChildAncestor(1, leaf);
  }

  // Below an ancestor one child is a path block and the other an ancestor;
  // below any other node neither child has been written yet.
  lemma ChildrenDone(t: Context, path: Bytes, depth: nat, leaf: nat, i: nat, node: Block, present: bool,
                     leftNode: Block, leftPresent: bool, rightNode: Block, rightPresent: bool)
    requires 2 <= i < leaf && Done(t, path, depth, leaf, i, node, present)
    requires Initial(t, path, depth, leaf, 2 * i, leftNode, leftPresent)
    requires Initial(t, path, depth, leaf, 2 * i + 1, rightNode, rightPresent)
    ensures !present ==> Done(t, path, depth, leaf, 2 * i, leftNode, leftPresent)
    ensures !present ==> Done(t, path, depth, leaf, 2 * i + 1, rightNode, rightPresent)
    ensures present ==> !leftPresent && !rightPresent
    ensures present ==> Done(t, path, depth, leaf, 2 * i, Child(t, node, 2 * i), true)
    ensures present ==> Done(t, path, depth, leaf, 2 * i + 1, Child(t, node, 2 * i + 1), true)
  {
    hide Derived, Tweaked, Child;
    ChildAncestor(i, leaf);
    assert Sibling(2 * i) == 2 * i + 1 && Sibling(2 * i + 1) == 2 * i;
    assert (2 * i + 1) / 2 == i && 2 * i / 2 == i;
  }

  // On the leaf level only the leaf itself is its ancestor.
  lemma LeafAncestor(depth: nat, i: nat, leaf: nat)
    requires Pow2(depth) <= i < Pow2(depth + 1) && Pow2(depth) <= leaf < Pow2(depth + 1)
    ensures IsAncestor(i, leaf) <==> i == leaf
  {
    LevelOf(i, depth);
    if IsAncestor(i, leaf) {
      AncestorAtLevel(i, leaf, depth);
    }
  }

  // Among finished leaves exactly the hidden one is absent.
  lemma LeafDone(t: Context, path: Bytes, depth: nat, leaf: nat, i: nat, node: Block, present: bool)
    requires Pow2(depth) <= i < Pow2(depth + 1) && Pow2(depth) <= leaf < Pow2(depth + 1)
    requires Done(t, path, depth, leaf, i, node, present)
    ensures present <==> i != leaf
    ensures node == PartialNode(t, path, depth, leaf, i)
  {
    hide PartialNode;
    LeafAncestor(depth, i, leaf);
  }

  method PartiallyExpand(t: Context, s: Profile, path: Bytes, hiddenIndex: nat) returns (leaves: Option<seq<Block>>)
    ensures leaves.Some? <==> |path| == s.PathSize() && hiddenIndex < s.Leaves()
    ensures leaves.Some? ==> |leaves.value| == s.Leaves()
    ensures leaves.Some? ==> forall k: nat :: k < s.Leaves() ==>
      leaves.value[k] == PartialNode(t, path, s.depth, s.Leaves() + hiddenIndex, s.Leaves() + k)
  {
    hide PartialNode, PathPlaced, Expanded, Pow2;
    if |path| != s.PathSize() || hiddenIndex >= s.Leaves() {
      return None;
    }
    var n := s.Leaves();
    LeavesDoubled(s);
    var nodes := new Block[2 * n](_ => Zeros(SEED_SIZE));
    var present := new bool[2 * n](_ => false);
    PlacePath(t, s, path, hiddenIndex, nodes, present);
    PlacedIsExpanded(t, path, s.depth, n + hiddenIndex, nodes[..], present[..]);
    ExpandLevels(t, s, path, n + hiddenIndex, nodes, present);
    var collected := CollectLeaves(t, s, path, hiddenIndex, nodes, present);
    leaves := Some(collected);
  }

  // The nodes before the frontier are done and the others as placed.
  ghost predicate Expanded(t: Context, path: Bytes, depth: nat, leaf: nat, frontier: nat, nodes: seq<Block>,
                           present: seq<bool>)
  {
    && |nodes| == |present|
    && (forall i: nat :: 2 <= i < frontier && i < |nodes| ==> Done(t, path, depth, leaf, i, nodes[i], present[i]))
    && (forall i: nat :: frontier <= i < |nodes| ==> Initial(t, path, depth, leaf, i, nodes[i], present[i]))
  }

  lemma PlacedIsExpanded(t: Context, path: Bytes, depth: nat, leaf: nat, nodes: seq<Block>, present: seq<bool>)
    requires depth >= 1 && Pow2(depth) <= leaf < Pow2(depth + 1) && |nodes| >= 4
    requires PathPlaced(t, path, depth, leaf, nodes, present)
    ensures Expanded(t, path, depth, leaf, 2 * Pow2(1), nodes, present)
  {
    hide Done, Initial;
    assert Pow2(1) == 2;
    RootsDone(t, path, depth, leaf, nodes[2], present[2], nodes[3], present[3]);
  }

  method ExpandLevels(t: Context, s: Profile, ghost path: Bytes, ghost leaf: nat, nodes: array<Block>,
                      present: array<bool>)
    requires nodes.Length == present.Length == 2 * s.Leaves() && s.Leaves() <= leaf
    requires Expanded(t, path, s.depth, leaf, 2 * Pow2(1), nodes[..], present[..])
    modifies nodes, present
    ensures Expanded(t, path, s.depth, leaf, 2 * s.Leaves(), nodes[..], present[..])
  {
    hide Expanded;
    for depth := 1 to s.depth
      invariant Expanded(t, path, s.depth, leaf, 2 * Pow2(depth), nodes[..], present[..])
    {
      Pow2Monotone(depth + 1, s.depth);
      ExpandPartialLevel(t, path, s.depth, leaf, depth, nodes, present);
    }
  }

  // The children of all present nodes of one level.
  method ExpandPartialLevel(t: Context, ghost path: Bytes, ghost treeDepth: nat, ghost leaf: nat, depth: nat,
                            nodes: array<Block>, present: array<bool>)
    requires depth >= 1 && nodes.Length == present.Length && 2 * Pow2(depth + 1) <= nodes.Length &&
      Pow2(depth + 1) <= leaf
    requires Expanded(t, path, treeDepth, leaf, 2 * Pow2(depth), nodes[..], present[..])
    modifies nodes, present
    ensures Expanded(t, path, treeDepth, leaf, 2 * Pow2(depth + 1), nodes[..], present[..])
  {
    hide Derived, Tweaked, Expanded, XorBytes;
    Pow2Monotone(1, depth);
    assert Pow2(1) == 2;
    var key := TweakSalt(t.salt, 2, t.execution, depth - 1);
    for parentIndex := Pow2(depth) to Pow2(depth + 1)
      invariant Expanded(t, path, treeDepth, leaf, 2 * parentIndex, nodes[..], present[..])
    {
      LevelOf(parentIndex, depth);
      ghost var nodes0: seq<Block>, present0: seq<bool> := nodes[..], present[..];
      if !present[parentIndex] {
        ExpandedAbsent(t, path, treeDepth, leaf, parentIndex, nodes0, present0);
        continue;
      }
      var parent := nodes[parentIndex];
      var leftIndex := 2 * parentIndex;
      var left := Derive(t.p, key, parent);
      var right := XorBytes(left, parent);
      nodes[leftIndex] := left;
      nodes[leftIndex + 1] := right;
      present[leftIndex] := true;
      present[leftIndex + 1] := true;
      ExpandedPresent(t, path, treeDepth, leaf, parentIndex, nodes0, present0, left);
      assert nodes[..] == nodes0[leftIndex := left][leftIndex + 1 := right];
      assert present[..] == present0[leftIndex := true][leftIndex + 1 := true];
    }
  }

  lemma ExpandedAbsent(t: Context, path: Bytes, depth: nat, leaf: nat, i: nat, nodes: seq<Block>, present: seq<bool>)
    requires Expanded(t, path, depth, leaf, 2 * i, nodes, present)
    requires 2 <= i < leaf && 2 * i + 1 < |nodes| && !present[i]
    ensures Expanded(t, path, depth, leaf, 2 * i + 2, nodes, present)
  {
    ChildrenDone(t, path, depth, leaf, i, nodes[i], present[i], nodes[2 * i], present[2 * i], nodes[2 * i + 1],
      present[2 * i + 1]);
    hide Done, Initial;
  }

  // No path block is overwritten when a present node gets its children.
  lemma ExpandedPresent(t: Context, path: Bytes, depth: nat, leaf: nat, i: nat, nodes: seq<Block>, present: seq<bool>,
                        left: Block)
    requires Expanded(t, path, depth, leaf, 2 * i, nodes, present)
    requires 2 <= i < leaf && 2 * i + 1 < |nodes| && present[i]
    requires left == Derived(t.p, Tweaked(t.salt, 2, t.execution, Level(i) - 1), nodes[i])
    ensures !present[2 * i] && !present[2 * i + 1]
    ensures Expanded(t, path, depth, leaf, 2 * i + 2,
      nodes[2 * i := left][2 * i + 1 := XorBytes(left, nodes[i])], present[2 * i := true][2 * i + 1 := true])
  {
    ChildrenDone(t, path, depth, leaf, i, nodes[i], present[i], nodes[2 * i], present[2 * i], nodes[2 * i + 1],
      present[2 * i + 1]);
    ChildSeeds(t, nodes[i], i, left);
    hide Done, Initial, Derived, Tweaked, XorBytes, Child;
    var right := XorBytes(left, nodes[i]);
    var ns, ps := nodes[2 * i := left][2 * i + 1 := right], present[2 * i := true][2 * i + 1 := true];
    forall j: nat | 2 <= j < 2 * i + 2 && j < |ns|
      ensures Done(t, path, depth, leaf, j, ns[j], ps[j])
    {
      if j < 2 * i {
        assert Done(t, path, depth, leaf, j, nodes[j], present[j]);
      }
    }
    forall j: nat | 2 * i + 2 <= j < |ns|
      ensures Initial(t, path, depth, leaf, j, ns[j], ps[j])
    {
      assert Initial(t, path, depth, leaf, j, nodes[j], present[j]);
    }
  }

  // The presence check of partially_expand_tree, which never fails, and the
  // seeds it then returns.
  method CollectLeaves(t: Context, s: Profile, ghost path: Bytes, hiddenIndex: nat, nodes: array<Block>,
                       present: array<bool>)
    returns (leaves: seq<Block>)
    requires hiddenIndex < s.Leaves() && nodes.Length == present.Length == 2 * s.Leaves()
    requires Expanded(t, path, s.depth, s.Leaves() + hiddenIndex, 2 * s.Leaves(), nodes[..], present[..])
    ensures |leaves| == s.Leaves()
    ensures forall k: nat :: k < s.Leaves() ==>
      leaves[k] == PartialNode(t, path, s.depth, s.Leaves() + hiddenIndex, s.Leaves() + k)
  {
    hide Expanded, PartialNode, Pow2;
    var n := s.Leaves();
    LeavesExpanded(t, s, path, hiddenIndex, nodes[..], present[..]);
    for index := 0 to n
      invariant forall i: nat :: n <= i < 2 * n ==> present[..][i] == (i != n + hiddenIndex)
    {
      assert present[n + index] == present[..][n + index];
      if present[n + index] == (index == hiddenIndex) {
        assert false; // the source would refuse the path here
      }
    }
    leaves := nodes[n..2 * n];
  }

  lemma LeavesExpanded(t: Context, s: Profile, path: Bytes, hiddenIndex: nat, nodes: seq<Block>, present: seq<bool>)
    requires hiddenIndex < s.Leaves() && |nodes| == |present| == 2 * s.Leaves()
    requires Expanded(t, path, s.depth, s.Leaves() + hiddenIndex, 2 * s.Leaves(), nodes, present)
    ensures forall i: nat :: s.Leaves() <= i < 2 * s.Leaves() ==> present[i] == (i != s.Leaves() + hiddenIndex)
    ensures forall i: nat :: s.Leaves() <= i < 2 * s.Leaves() ==>
      nodes[i] == PartialNode(t, path, s.depth, s.Leaves() + hiddenIndex, i)
  {
    hide Done, PartialNode;
    var n := s.Leaves();
    Pow2Monotone(1, s.depth);
    assert Pow2(1) == 2;
    LeavesDoubled(s);
    hide Pow2;
    forall i: nat | n <= i < 2 * n
      ensures present[i] == (i != n + hiddenIndex)
      ensures nodes[i] == PartialNode(t, path, s.depth, n + hiddenIndex, i)
    {
      LeafDone(t, path, s.depth, n + hiddenIndex, i, nodes[i], present[i]);
    }
  }

  lemma ChildSeeds(t: Context, parent: Block, i: nat, left: Block)
    requires i >= 2 && left == Derived(t.p, Tweaked(t.salt, 2, t.execution, Level(i) - 1), parent)
    ensures Child(t, parent, 2 * i) == left && Child(t, parent, 2 * i + 1) == XorBytes(left, parent)
  {
    hide Derived, Tweaked, XorBytes;
    assert 2 * i / 2 == i && (2 * i + 1) / 2 == i && 2 * i % 2 == 0 && (2 * i + 1) % 2 == 1;
  }

  // -------------------------------------------------------------------------
  // The punctured tree agrees with the full tree
  // -------------------------------------------------------------------------

  // Expanding the path of a leaf gives every node but the leaf's ancestors.
  lemma {:induction false} PathDeterminesNodes(t: Context, root: Block, delta: Block, depth: nat, leaf: nat,
                                               path: Bytes, i: nat)
    requires HoldsPath(t, root, delta, depth, leaf, path) && leaf < Pow2(depth + 1)
    requires 2 <= i < Pow2(depth + 1) && !IsAncestor(i, leaf)
    ensures PartialNode(t, path, depth, leaf, i) == Node(t, root, delta, i)
    decreases i
  {
    hide Derived, Tweaked, Child, PathBlock, HoldsPath, Pow2, Level, ShiftRight;
    SiblingLevel(i);
    PathReaches(t, root, delta, depth, leaf, path);
    if IsAncestor(Sibling(i), leaf) {
      SiblingIsPathBlock(t, root, delta, depth, leaf, path, i);
    } else {
      ParentOffPath(i, leaf, depth);
      PathDeterminesNodes(t, root, delta, depth, leaf, path, i / 2);
    }
  }

  lemma PathReaches(t: Context, root: Block, delta: Block, depth: nat, leaf: nat, path: Bytes)
    requires HoldsPath(t, root, delta, depth, leaf, path)
    ensures Pow2(depth) <= leaf
  {
    hide HoldsBlock;
  }

  // Beside an ancestor of the leaf stands a path block.
  lemma SiblingIsPathBlock(t: Context, root: Block, delta: Block, depth: nat, leaf: nat, path: Bytes, i: nat)
    requires HoldsPath(t, root, delta, depth, leaf, path) && leaf < Pow2(depth + 1)
    requires i >= 2 && IsAncestor(Sibling(i), leaf)
    ensures PathBlock(path, depth - Level(i)) == Node(t, root, delta, i)
  {
    hide Node, PathBlock, IsAncestor, Pow2, ShiftRight, Level;
    PathReaches(t, root, delta, depth, leaf, path);
    SiblingLevel(i);
    AncestorAtLevel(Sibling(i), leaf, depth);
    LevelPositive(i);
    assert HoldsBlock(t, root, delta, leaf, path, depth - Level(i));
  }

  lemma LevelPositive(i: nat)
    requires i >= 2
    ensures Level(i) >= 1
  {
  }

  // A node beside no ancestor and no ancestor itself has a parent of that kind.
  lemma ParentOffPath(i: nat, leaf: nat, depth: nat)
    requires 2 <= i < Pow2(depth + 1) && Pow2(depth) <= leaf < Pow2(depth + 1)
    requires !IsAncestor(i, leaf) && !IsAncestor(Sibling(i), leaf)
    ensures i >= 4 && !IsAncestor(i / 2, leaf) && i / 2 < Pow2(depth + 1)
  {
    ParentBelowLeaf(i, leaf, depth);
    ChildAncestor(i / 2, leaf);
    assert i == 2 * (i / 2) || i == 2 * (i / 2) + 1;
    if i < 4 {
      ShiftRightLevel(leaf, depth, depth);
      TopOfPath(leaf, depth);
    }
  }

  lemma ParentBelowLeaf(i: nat, leaf: nat, depth: nat)
    requires 2 <= i < Pow2(depth + 1) && Pow2(depth) <= leaf
    ensures i / 2 < leaf
  {
  }

  // -------------------------------------------------------------------------
  // Conservation
  // -------------------------------------------------------------------------

  // The seeds of count nodes from first on, summed.
  ghost function NodeSum(t: Context, root: Block, delta: Block, first: nat, count: nat): Block
    requires first >= 1
  {
    if count == 0 then Zeros(SEED_SIZE)
    else XorBytes(NodeSum(t, root, delta, first, count - 1), Node(t, root, delta, first + count - 1))
  }

  lemma {:induction false} NodeSumSplits(t: Context, root: Block, delta: Block, first: nat, m: nat, n: nat)
    requires first >= 1
    ensures NodeSum(t, root, delta, first, m + n) ==
      XorBytes(NodeSum(t, root, delta, first, m), NodeSum(t, root, delta, first + m, n))
  {
    hide Node, XorBytes;
    var a := NodeSum(t, root, delta, first, m);
    if n == 0 {
      XorBytesIdentity(a);
    } else {
      NodeSumSplits(t, root, delta, first, m, n - 1);
      XorBytesAssociates(a, NodeSum(t, root, delta, first + m, n - 1), Node(t, root, delta, first + m + n - 1));
    }
  }

  // Children sum to their parent; the roots sum to delta.
  lemma ChildrenSum(t: Context, root: Block, delta: Block, i: nat)
    requires i >= 1
    ensures XorBytes(Node(t, root, delta, 2 * i), Node(t, root, delta, 2 * i + 1)) == Node(t, root, delta, i)
  {
    var parent := Node(t, root, delta, i);
    var left := if i == 1 then root else Derived(t.p, Tweaked(t.salt, 2, t.execution, Level(i) - 1), parent);
    ChildrenOf(t, root, delta, i, left, XorBytes(left, parent));
    hide Node, XorBytes;
    XorBytesCancels(parent, left);
  }

  // Below the roots, the left child of a node on level d is derived from it with
  // selector 2 and index d - 1, and the right child differs from it by the node.
  lemma DerivedChildren(t: Context, root: Block, delta: Block, i: nat, d: nat, k: nat)
    requires 1 <= d && Pow2(d) <= i < Pow2(d + 1) && k < SEED_SIZE
    ensures i >= 2 && Node(t, root, delta, 2 * i) ==
      Derived(t.p, Tweaked(t.salt, 2, t.execution, d - 1), Node(t, root, delta, i))
    ensures Node(t, root, delta, 2 * i + 1)[k] ==
      XorByte(Node(t, root, delta, 2 * i)[k], Node(t, root, delta, i)[k])
  {
    LevelOf(i, d);
    assert Pow2(d) == 2 * Pow2(d - 1);
    var parent := Node(t, root, delta, i);
    var left := Derived(t.p, Tweaked(t.salt, 2, t.execution, d - 1), parent);
    ChildrenOf(t, root, delta, i, left, XorBytes(left, parent));
    hide Node, Derived, Tweaked, XorByte;
  }

  // The nodes h levels below node i sum to it. With i = 1: every level sums to delta.
  lemma {:induction false} SubtreeSum(t: Context, root: Block, delta: Block, i: nat, h: nat)
    requires i >= 1
    ensures i * Pow2(h) >= 1
    ensures NodeSum(t, root, delta, i * Pow2(h), Pow2(h)) == Node(t, root, delta, i)
    decreases h
  {
    hide Node, XorBytes;
    if h == 0 {
      XorBytesIdentity(Node(t, root, delta, i));
      assert NodeSum(t, root, delta, i, 1) == XorBytes(NodeSum(t, root, delta, i, 0), Node(t, root, delta, i));
    } else {
      var q := Pow2(h - 1);
      assert i * Pow2(h) == 2 * i * q && (2 * i + 1) * q == 2 * i * q + q;
      SubtreeSum(t, root, delta, 2 * i, h - 1);
      SubtreeSum(t, root, delta, 2 * i + 1, h - 1);
      NodeSumSplits(t, root, delta, 2 * i * q, q, q);
      ChildrenSum(t, root, delta, i);
    }
  }

  // The path blocks from block k on, summed.
  ghost function PathSum(path: Bytes, depth: nat, k: nat): Block
    decreases depth - k
  {
    if k >= depth then Zeros(SEED_SIZE) else XorBytes(PathSum(path, depth, k + 1), PathBlock(path, k))
  }

  // Every ancestor of the leaf, hence the leaf itself, is delta plus the path
  // blocks from its level up.
  lemma {:induction false} HiddenSeedIsPathSum(t: Context, root: Block, delta: Block, depth: nat, leaf: nat,
                                               path: Bytes, k: nat)
    requires HoldsPath(t, root, delta, depth, leaf, path) && leaf < Pow2(depth + 1) && k <= depth
    ensures ShiftRight(leaf, k) >= 1
    ensures Node(t, root, delta, ShiftRight(leaf, k)) == XorBytes(delta, PathSum(path, depth, k))
    decreases depth - k
  {
    RootNodes(t, root, delta);
    hide XorBytes, PathBlock, Node;
    ShiftRightLevel(leaf, depth, k);
    if k == depth {
      assert Pow2(0) == 1 && Pow2(1) == 2;
      XorBytesIdentity(delta);
    } else {
      HiddenSeedIsPathSum(t, root, delta, depth, leaf, path, k + 1);
      var x := ShiftRight(leaf, k);
      assert HoldsBlock(t, root, delta, leaf, path, k);
      ChildrenSum(t, root, delta, x / 2);
      var a, b, c := Node(t, root, delta, x), Node(t, root, delta, Sibling(x)), Node(t, root, delta, x / 2);
      XorBytesCommutes(a, b);
      assert XorBytes(a, b) == c;
      XorBytesCancels(a, b);
      XorBytesAssociates(delta, PathSum(path, depth, k + 1), b);
    }
  }

  // -------------------------------------------------------------------------
  // Node numbers
  // -------------------------------------------------------------------------

  lemma {:induction false} ShiftRightDivides(i: nat, k: nat)
    ensures ShiftRight(i, k) == i / Pow2(k)
  {
    if k == 0 {
    } else {
      ShiftRightDivides(i, k - 1);
      HalfQuotient(i, Pow2(k - 1));
    }
  }

  lemma HalfQuotient(i: nat, m: nat)
    requires m >= 1
    ensures i / m / 2 == i / (2 * m)
  {
    var q, r := i / m, i % m;
    var h := q / 2;
    assert i == q * m + r;
    if q == 2 * h {
      assert q * m == h * (2 * m);
      QuotientUnique(i, 2 * m, h, r);
    } else {
      assert q == 2 * h + 1;
      assert q * m == h * (2 * m) + m;
      QuotientUnique(i, 2 * m, h, m + r);
    }
  }

  lemma QuotientUnique(a: nat, d: nat, q: nat, r: nat)
    requires r < d && a == q * d + r
    ensures a / d == q
  {
    var k := a / d;
    if k < q {
      MultipleGap(d, k, q);
    } else if q < k {
      MultipleGap(d, q, k);
    }
  }

  // Block k of a held path is the seed of the node beside leaf / 2^k, the other
  // child of its parent.
  lemma HeldBlock(t: Context, root: Block, delta: Block, depth: nat, leaf: nat, path: Bytes, k: nat)
    requires HoldsPath(t, root, delta, depth, leaf, path) && k < depth
    ensures var x := leaf / Pow2(k);
      && x >= 2 && k * SEED_SIZE + SEED_SIZE <= |path|
      && path[k * SEED_SIZE..k * SEED_SIZE + SEED_SIZE] == Node(t, root, delta, if x % 2 == 0 then x + 1 else x - 1)
  {
    hide Node, Pow2, ShiftRight;
    ShiftRightDivides(leaf, k);
    assert HoldsBlock(t, root, delta, leaf, path, k);
  }
}
