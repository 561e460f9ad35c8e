// src/blc.rs: the running accumulator and the Gray-code folding, which sum all
// expanded leaves weighted by their evaluation points with one product per bit
// of the leaf index.
module Fold {
  import opened Words
  import opened ByteStrings
  import opened BaseFields
  import opened ExtensionField
  import opened LinearAlgebra
  import opened Packing
  import opened Params
  import opened Gray
  import B = BinaryFields

  // One coordinate of an expanded leaf: an element of the packed secret part or
  // of the mask part behind it.
  datatype Coordinate = Secret(k: nat) | Mask(k: nat)

  ghost predicate InRange(s: Profile, c: Coordinate) {
    match c
    case Secret(k) => k < s.variables
    case Mask(k) => k < s.repetitions
  }

  ghost function Read(s: Profile, c: Coordinate, leaf: Bytes): Ext
    requires InRange(s, c) && |leaf| == s.LeafSize()
  {
    match c
    case Secret(k) => Lift(Nibble(leaf, k))
    case Mask(k) => Ext(leaf[s.BaseVectorSize() + 2 * k], leaf[s.BaseVectorSize() + 2 * k + 1])
  }

  lemma ReadXor(s: Profile, c: Coordinate, a: Bytes, b: Bytes)
    requires InRange(s, c) && |a| == |b| == s.LeafSize()
    ensures Read(s, c, XorBytes(a, b)) == Add(Read(s, c, a), Read(s, c, b))
  {
    match c {
      case Secret(k) =>
        NibbleXor(a, b, k);
        hide Nibble, XorBytes, B.Product;
        LiftHomomorphism(Nibble(a, k), Nibble(b, k));
      case Mask(k) =>
    }
  }

  lemma ReadZeros(s: Profile, c: Coordinate)
    requires InRange(s, c)
    ensures Read(s, c, Zeros(s.LeafSize())) == ZERO
  {
    assert NewGf16(0) == 0 && HighNibble(0) == 0 && Embed(0) == 0;
    hide NewGf16, HighNibble, Embed;
  }

  // -------------------------------------------------------------------------
  // Specification of the accumulator and of the folding rows
  // -------------------------------------------------------------------------

  ghost predicate Uniform(leaves: seq<Bytes>, size: nat) {
    forall i :: 0 <= i < |leaves| ==> |leaves[i]| == size
  }

  // The sum of the first i leaves.
  ghost function Prefix(leaves: seq<Bytes>, size: nat, i: nat): (r: Bytes)
    requires Uniform(leaves, size) && i <= |leaves|
    ensures |r| == size
  {
    if i == 0 then Zeros(size) else XorBytes(Prefix(leaves, size, i - 1), leaves[i - 1])
  }

  // Row b after i leaves: the prefix sums at the steps where bit b of the Gray
  // code flips.
  ghost function Row(leaves: seq<Bytes>, size: nat, depth: nat, b: nat, i: nat): (r: Bytes)
    requires Uniform(leaves, size) && i <= |leaves|
    ensures |r| == size
  {
    if i == 0 then Zeros(size)
    else if BitPosition(Pow2(depth), depth, i - 1) == Some(b) then
      XorBytes(Row(leaves, size, depth, b, i - 1), Prefix(leaves, size, i))
    else Row(leaves, size, depth, b, i - 1)
  }

  // -------------------------------------------------------------------------
  // Summation by parts
  // -------------------------------------------------------------------------

  // Coordinate c of leaf j, and 0 past the last leaf.
  ghost function Value(s: Profile, c: Coordinate, leaves: seq<Bytes>, j: nat): Ext
    requires InRange(s, c) && Uniform(leaves, s.LeafSize())
  {
    if j < |leaves| then Read(s, c, leaves[j]) else ZERO
  }

  ghost function Weighted(s: Profile, c: Coordinate, leaves: seq<Bytes>, shift: Ext): nat -> Ext
    requires InRange(s, c) && Uniform(leaves, s.LeafSize())
  {
    (j: nat) => Mul(Value(s, c, leaves, j), Add(EvaluationPoint(j), shift))
  }

  // The sum of all leaves, leaf j weighted by its evaluation point.
  ghost function DirectSum(s: Profile, c: Coordinate, leaves: seq<Bytes>): Ext
    requires InRange(s, c) && Uniform(leaves, s.LeafSize())
  {
    Sum(|leaves|, (j: nat) => Mul(Value(s, c, leaves, j), EvaluationPoint(j)))
  }

  // The sum of the folding rows after i leaves, row b weighted by the basis element 2^b.
  ghost function FoldedSum(s: Profile, c: Coordinate, leaves: seq<Bytes>, i: nat): Ext
    requires InRange(s, c) && Uniform(leaves, s.LeafSize()) && i <= |leaves|
  {
    Sum(s.depth, RowTerms(s, c, leaves, i))
  }

  ghost function RowTerms(s: Profile, c: Coordinate, leaves: seq<Bytes>, i: nat): nat -> Ext
    requires InRange(s, c) && Uniform(leaves, s.LeafSize()) && i <= |leaves|
  {
    (b: nat) => Mul(Read(s, c, Row(leaves, s.LeafSize(), s.depth, b, i)), FromWord(Pow2(b)))
  }

  ghost function Values(s: Profile, c: Coordinate, leaves: seq<Bytes>): nat -> Ext
    requires InRange(s, c) && Uniform(leaves, s.LeafSize())
  {
    (j: nat) => Value(s, c, leaves, j)
  }

  lemma {:induction false} ReadPrefix(s: Profile, c: Coordinate, leaves: seq<Bytes>, i: nat)
    requires InRange(s, c) && Uniform(leaves, s.LeafSize()) && i <= |leaves|
    ensures Read(s, c, Prefix(leaves, s.LeafSize(), i)) == Sum(i, Values(s, c, leaves))
  {
    ReadZeros(s, c);
    hide Read, Add;
    if i == 0 {
    } else {
      ReadPrefix(s, c, leaves, i - 1);
      ReadXor(s, c, Prefix(leaves, s.LeafSize(), i - 1), leaves[i - 1]);
    }
  }

  // The evaluation point of leaf i, and 0 after the last one, where the cycle closes.
  ghost function NextPoint(s: Profile, i: nat): Ext {
    if i < s.Leaves() then EvaluationPoint(i) else ZERO
  }

  lemma NextPointStep(s: Profile, i: nat) returns (k: nat)
    requires i < s.Leaves()
    ensures k < s.depth && BitPosition(s.Leaves(), s.depth, i) == Some(k)
    ensures FromWord(Pow2(k)) == Add(NextPoint(s, i), NextPoint(s, i + 1))
  {
    k := PointStep(s.depth, i);
    hide FromWord, EvaluationPoint, Add, BitPosition;
  }

  // One leaf adds its prefix sum, times the sum of two consecutive points.
  lemma FoldedStep(s: Profile, c: Coordinate, leaves: seq<Bytes>, i: nat)
    requires InRange(s, c) && Uniform(leaves, s.LeafSize()) && i < |leaves| == s.Leaves()
    ensures FoldedSum(s, c, leaves, i + 1) ==
      Add(FoldedSum(s, c, leaves, i),
          Mul(Sum(i + 1, Values(s, c, leaves)), Add(NextPoint(s, i), NextPoint(s, i + 1))))
  {
    hide Read, Add, Mul, FromWord, NextPoint, Prefix, Row, RowTerms, BitPosition, Sum, Values, Pow2;
    var k := NextPointStep(s, i);
    var a := Read(s, c, Prefix(leaves, s.LeafSize(), i + 1));
    var f, g := RowTerms(s, c, leaves, i), RowTerms(s, c, leaves, i + 1);
    forall b: nat | b < s.depth
      ensures g(b) == if b == k then Add(f(k), Mul(a, FromWord(Pow2(k)))) else f(b)
    {
      RowTermStep(s, c, leaves, i, k, b);
    }
    ReadPrefix(s, c, leaves, i + 1);
    SumChangedAt(s.depth, k, Mul(a, FromWord(Pow2(k))), f, g);
  }

  // Leaf i changes the row of the bit that flips, and no other.
  lemma RowTermStep(s: Profile, c: Coordinate, leaves: seq<Bytes>, i: nat, k: nat, b: nat)
    requires InRange(s, c) && Uniform(leaves, s.LeafSize()) && i < |leaves|
    requires BitPosition(s.Leaves(), s.depth, i) == Some(k)
    ensures RowTerms(s, c, leaves, i + 1)(b) ==
      if b == k then Add(RowTerms(s, c, leaves, i)(k),
        Mul(Read(s, c, Prefix(leaves, s.LeafSize(), i + 1)), FromWord(Pow2(k))))
      else RowTerms(s, c, leaves, i)(b)
  {
    RowStep(leaves, s.LeafSize(), s.depth, b, i, k);
    hide Read, Add, Mul, FromWord, BitPosition, Row, Prefix, XorBytes;
    var r, a := Row(leaves, s.LeafSize(), s.depth, k, i), Prefix(leaves, s.LeafSize(), i + 1);
    ReadXor(s, c, r, a);
    MulAdditiveLeft(Read(s, c, r), Read(s, c, a), FromWord(Pow2(k)));
  }

  lemma RowStep(leaves: seq<Bytes>, size: nat, depth: nat, b: nat, i: nat, k: nat)
    requires Uniform(leaves, size) && i < |leaves| && BitPosition(Pow2(depth), depth, i) == Some(k)
    ensures Row(leaves, size, depth, b, i + 1) ==
      if b == k then XorBytes(Row(leaves, size, depth, b, i), Prefix(leaves, size, i + 1))
      else Row(leaves, size, depth, b, i)
  {
    hide BitPosition, XorBytes, Prefix;
  }

  // After i leaves the rows hold each leaf weighted by its own point plus that
  // of leaf i: the differences of consecutive points telescope.
  lemma {:induction false} FoldedPartial(s: Profile, c: Coordinate, leaves: seq<Bytes>, i: nat)
    requires InRange(s, c) && Uniform(leaves, s.LeafSize()) && i <= |leaves| == s.Leaves()
    ensures FoldedSum(s, c, leaves, i) == Sum(i, Weighted(s, c, leaves, NextPoint(s, i)))
  {
    hide Read, Mul, Add, EvaluationPoint, Value, RowTerms, Values;
    if i == 0 {
      FoldedNothing(s, c, leaves);
    } else {
      hide Sum;
      FoldedPartial(s, c, leaves, i - 1);
      FoldedStep(s, c, leaves, i - 1);
      Telescope(s, c, leaves, i);
    }
  }

  lemma FoldedNothing(s: Profile, c: Coordinate, leaves: seq<Bytes>)
    requires InRange(s, c) && Uniform(leaves, s.LeafSize())
    ensures FoldedSum(s, c, leaves, 0) == ZERO
  {
    ReadZeros(s, c);
    hide Read, Mul, FromWord;
    forall b: nat
      ensures RowTerms(s, c, leaves, 0)(b) == ZERO
    {
      MulIdentity(FromWord(Pow2(b)));
    }
    SumOfZeros(s.depth, RowTerms(s, c, leaves, 0));
  }

  lemma Telescope(s: Profile, c: Coordinate, leaves: seq<Bytes>, i: nat)
    requires InRange(s, c) && Uniform(leaves, s.LeafSize()) && 1 <= i <= |leaves| == s.Leaves()
    ensures Sum(i, Weighted(s, c, leaves, NextPoint(s, i))) ==
      Add(Sum(i - 1, Weighted(s, c, leaves, NextPoint(s, i - 1))),
          Mul(Sum(i, Values(s, c, leaves)), Add(NextPoint(s, i - 1), NextPoint(s, i))))
  {
    hide Add, Mul, EvaluationPoint, Value;
    var p, q := NextPoint(s, i - 1), NextPoint(s, i);
    var v := Values(s, c, leaves);
    var wp, wq := Weighted(s, c, leaves, p), Weighted(s, c, leaves, q);
    var change := (j: nat) => Mul(Add(p, q), v(j));
    forall j: nat | j < i
      ensures wq(j) == Add(wp(j), change(j))
    {
      PointsAdd(v(j), EvaluationPoint(j), p, q);
    }
    SumAdd(i, wp, change, wq);
    SumScale(i, Add(p, q), v, change);
    MulCommutes(Sum(i, v), Add(p, q));
    // the last leaf's own point cancels
    AddIdentity(EvaluationPoint(i - 1));
    MulIdentity(v(i - 1));
    AddIdentity(Sum(i - 1, wp));
  }

  lemma PointsAdd(v: Ext, g: Ext, p: Ext, q: Ext)
    ensures Mul(v, Add(g, q)) == Add(Mul(v, Add(g, p)), Mul(Add(p, q), v))
  {
    hide Add, Mul;
    MulCommutes(Add(p, q), v);
    MulDistributes(v, Add(g, p), Add(p, q));
    AddAssociates(g, p, Add(p, q));
    AddCancels(p, q);
  }

  // Folding computes the directly weighted sum, for every sequence of 2^depth leaves.
  lemma FoldingIsDirectSum(s: Profile, c: Coordinate, leaves: seq<Bytes>)
    requires InRange(s, c) && Uniform(leaves, s.LeafSize()) && |leaves| == s.Leaves()
    ensures FoldedSum(s, c, leaves, |leaves|) == DirectSum(s, c, leaves)
  {
    FoldedPartial(s, c, leaves, |leaves|);
    forall j: nat
      ensures Mul(Value(s, c, leaves, j), Add(EvaluationPoint(j), ZERO)) ==
        Mul(Value(s, c, leaves, j), EvaluationPoint(j))
    {
      AddIdentity(EvaluationPoint(j));
    }
    hide Mul, Add, EvaluationPoint, Value, FoldedSum;
    SumsEqual(|leaves|, Weighted(s, c, leaves, ZERO), (j: nat) => Mul(Value(s, c, leaves, j), EvaluationPoint(j)));
  }

  lemma PrefixStep(leaves: seq<Bytes>, size: nat, i: nat)
    requires Uniform(leaves, size) && i < |leaves|
    ensures |leaves[i]| == size && Prefix(leaves, size, i + 1) == XorBytes(Prefix(leaves, size, i), leaves[i])
  {
  }

  // -------------------------------------------------------------------------
  // The code
  // -------------------------------------------------------------------------

  function ParseExtensionVector(bytes: Bytes, n: nat): (r: Option<seq<Ext>>)
    ensures r.Some? ==> |r.value| == n
  {
    if |bytes| != 2 * n then None
    else Some(seq(n, i requires 0 <= i < n => Ext(bytes[2 * i], bytes[2 * i + 1])))
  }

  // One leaf: into the accumulator, and the accumulator into the row of the bit
  // that flips next.
  method AccumulateLeaf(s: Profile, ghost leaves: seq<Bytes>, leafIndex: nat, expanded: Bytes, accumulator: array<Byte>,
                        folding: array<Bytes>)
    requires Uniform(leaves, s.LeafSize()) && leafIndex < |leaves| == s.Leaves() && expanded == leaves[leafIndex]
    requires accumulator.Length == s.LeafSize() && accumulator[..] == Prefix(leaves, s.LeafSize(), leafIndex)
    requires folding.Length == s.depth && accumulator as object != folding as object
    requires forall b: nat :: b < s.depth ==> folding[b] == Row(leaves, s.LeafSize(), s.depth, b, leafIndex)
    modifies accumulator, folding
    ensures accumulator[..] == Prefix(leaves, s.LeafSize(), leafIndex + 1)
    ensures forall b: nat :: b < s.depth ==> folding[b] == Row(leaves, s.LeafSize(), s.depth, b, leafIndex + 1)
  {
    ghost var k := PointStep(s.depth, leafIndex);
    PrefixStep(leaves, s.LeafSize(), leafIndex);
    hide BitPosition, XorBytes, Row, Prefix;
    ghost var rows := folding[..];
    var ok := XorInto(accumulator, expanded);
    var sum := accumulator[..];
    assert sum == Prefix(leaves, s.LeafSize(), leafIndex + 1);
    assert folding[..] == rows;
    var foldingIndex := BitPosition(s.Leaves(), s.depth, leafIndex);
    assert folding[k] == rows[k] == Row(leaves, s.LeafSize(), s.depth, k, leafIndex);
    folding[foldingIndex.value] := XorBytes(folding[foldingIndex.value], sum);
    forall b: nat | b < s.depth
      ensures folding[b] == Row(leaves, s.LeafSize(), s.depth, b, leafIndex + 1)
    {
      RowStep(leaves, s.LeafSize(), s.depth, b, leafIndex, k);
    }
    assert accumulator[..] == sum;
  }

  // The rows combined with their basis elements.
  method CombineRows(s: Profile, folding: seq<Bytes>) returns (x: seq<Ext>, u: seq<Ext>)
    requires |folding| == s.depth && Uniform(folding, s.LeafSize())
    ensures |x| == s.variables && |u| == s.repetitions
    ensures forall k: nat :: k < s.variables ==> x[k] == RowsSum(s, Secret(k), folding, s.depth)
    ensures forall k: nat :: k < s.repetitions ==> u[k] == RowsSum(s, Mask(k), folding, s.depth)
  {
    hide Mul, Add, FromWord, Read, RowsSum;
    forall c | InRange(s, c)
      ensures RowsSum(s, c, folding, 0) == ZERO
    {
      RowsSumStep(s, c, folding, 0);
    }
    var xs := new Ext[s.variables](_ => ZERO);
    var us := new Ext[s.repetitions](_ => ZERO);
    for foldingIndex := 0 to s.depth
      invariant forall k: nat :: k < s.variables ==> xs[k] == RowsSum(s, Secret(k), folding, foldingIndex)
      invariant forall k: nat :: k < s.repetitions ==> us[k] == RowsSum(s, Mask(k), folding, foldingIndex)
    {
      var folded := folding[foldingIndex];
      forall c | InRange(s, c)
        ensures RowsSum(s, c, folding, foldingIndex + 1) ==
          Add(RowsSum(s, c, folding, foldingIndex), Mul(Read(s, c, folded), FromWord(Pow2(foldingIndex))))
      {
        RowsSumStep(s, c, folding, foldingIndex);
      }
      var basis := FromWord(Pow2(foldingIndex));
      AddBaseProducts(s, folded, basis, xs);
      AddMaskProducts(s, folded, basis, us);
    }
    x, u := xs[..], us[..];
  }

  // The first n rows combined with their basis elements.
  ghost function RowsSum(s: Profile, c: Coordinate, folding: seq<Bytes>, n: nat): Ext
    requires InRange(s, c) && Uniform(folding, s.LeafSize())
  {
    Sum(n, (b: nat) => if b < |folding| then Mul(Read(s, c, folding[b]), FromWord(Pow2(b))) else ZERO)
  }

  lemma RowsSumStep(s: Profile, c: Coordinate, folding: seq<Bytes>, n: nat)
    requires InRange(s, c) && Uniform(folding, s.LeafSize()) && n < |folding|
    ensures RowsSum(s, c, folding, 0) == ZERO
    ensures RowsSum(s, c, folding, n + 1) ==
      Add(RowsSum(s, c, folding, n), Mul(Read(s, c, folding[n]), FromWord(Pow2(n))))
  {
    hide Mul, Add, FromWord, Read;
  }

  // evaluation += base_element * point, for every element of the packed part.
  method AddBaseProducts(s: Profile, bytes: Bytes, point: Ext, evaluations: array<Ext>)
    requires |bytes| == s.LeafSize() && evaluations.Length == s.variables
    modifies evaluations
    ensures forall k: nat :: k < s.variables ==>
      evaluations[k] == Add(old(evaluations[k]), Mul(Read(s, Secret(k), bytes), point))
  {
    hide Mul, Add, Lift;
    var baseVector := new Gf16[s.variables];
    var packed := bytes[..s.BaseVectorSize()];
    var ok := UnpackGf16(packed, baseVector);
    for k := 0 to s.variables
      invariant baseVector[..] == Unpacked(packed, s.variables)
      invariant forall j: nat :: j < k ==>
        evaluations[j] == Add(old(evaluations[j]), Mul(Read(s, Secret(j), bytes), point))
      invariant forall j: nat :: k <= j < s.variables ==> evaluations[j] == old(evaluations[j])
    {
      assert baseVector[..][k] == baseVector[k] == Nibble(bytes, k);
      var term := MultiplyBaseScalar(baseVector[k], point);
      evaluations[k] := Add(evaluations[k], term);
    }
  }

  // evaluation += point * mask_element, for every element of the mask part.
  method AddMaskProducts(s: Profile, bytes: Bytes, point: Ext, evaluations: array<Ext>)
    requires |bytes| == s.LeafSize() && evaluations.Length == s.repetitions
    modifies evaluations
    ensures forall k: nat :: k < s.repetitions ==>
      evaluations[k] == Add(old(evaluations[k]), Mul(Read(s, Mask(k), bytes), point))
  {
    hide Mul, Add;
    var maskVector := ParseExtensionVector(bytes[s.BaseVectorSize()..], s.repetitions);
    for k := 0 to s.repetitions
      invariant forall j: nat :: j < k ==>
        evaluations[j] == Add(old(evaluations[j]), Mul(Read(s, Mask(j), bytes), point))
      invariant forall j: nat :: k <= j < s.repetitions ==> evaluations[j] == old(evaluations[j])
    {
      var term := Multiply(point, maskVector.value[k]);
      MulCommutes(point, maskVector.value[k]);
      evaluations[k] := Add(evaluations[k], term);
    }
  }

  // The combined rows of all leaves are the directly weighted sums.
  lemma CombinedRows(s: Profile, c: Coordinate, leaves: seq<Bytes>, folding: seq<Bytes>)
    requires InRange(s, c) && Uniform(leaves, s.LeafSize()) && |leaves| == s.Leaves()
    requires Uniform(folding, s.LeafSize()) && |folding| == s.depth
    requires forall b: nat :: b < s.depth ==> folding[b] == Row(leaves, s.LeafSize(), s.depth, b, |leaves|)
    ensures RowsSum(s, c, folding, s.depth) == DirectSum(s, c, leaves)
  {
    FoldingIsDirectSum(s, c, leaves);
    hide Mul, Add, Read, FromWord, Row, DirectSum;
    SumsEqual(s.depth, (b: nat) => if b < |folding| then Mul(Read(s, c, folding[b]), FromWord(Pow2(b))) else ZERO,
      RowTerms(s, c, leaves, |leaves|));
  }

  // -------------------------------------------------------------------------
  // Where the coordinates stand
  // -------------------------------------------------------------------------

  // Element k of the secret part is a nibble, low nibble first; element k of the
  // mask part is two bytes behind the secret part.
  lemma ReadAt(s: Profile, leaf: Bytes, k: nat)
    requires |leaf| == s.LeafSize()
    ensures 2 * k < s.variables ==> Read(s, Secret(2 * k), leaf) == Lift(leaf[k] & 0x0f)
    ensures 2 * k + 1 < s.variables ==> Read(s, Secret(2 * k + 1), leaf) == Lift(leaf[k] >> 4)
    ensures k < s.repetitions ==>
      Read(s, Mask(k), leaf) == Ext(leaf[s.variables / 2 + 2 * k], leaf[s.variables / 2 + 2 * k + 1])
  {
    hide Lift;
    if 2 * k + 1 < s.variables {
      HighNibbleAt(leaf[k]);
    }
  }

  lemma HighNibbleAt(b: Byte)
    ensures HighNibble(b) == b >> 4 < 16
  {
  }
}
