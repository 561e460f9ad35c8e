// src/blc.rs, gray_code and gray_code_bit_position, and src/verify.rs, evaluation_point.
module Gray {
  import opened Words
  import opened ByteStrings
  import opened ExtensionField

  function Code(i: nat): nat {
    Xor(i, i / 2)
  }

  // blc::gray_code; the index must fit sixteen bits.
  function GrayCode(index: nat): Option<nat> {
    if index < 65536 then Some(Xor(index, index / 2)) else None
  }

  function BitPosition(leaves: nat, depth: nat, index: nat): Option<nat> {
    match GrayCode(index)
    case None => None
    case Some(current) =>
      match (if index + 1 < leaves then GrayCode(index + 1) else Some(0))
      case None => None
      case Some(next) =>
        var position := TrailingZeros(Xor(current, next));
        if position < depth then Some(position) else None
  }

  // Gf256x2::from_bytes of the little-endian bytes of a word.
  function FromWord(w: nat): Ext {
    var b := LittleEndian16(w);
    Ext(b[0], b[1])
  }

  // verify::evaluation_point
  function EvaluationPoint(index: nat): Ext {
    FromWord(Xor(index, index / 2))
  }

  // The point both sides compute is the same, for every index they accept.
  lemma GrayCodeIsPoint(index: nat)
    ensures GrayCode(index).Some? <==> index < 65536
    ensures index < 65536 ==> FromWord(GrayCode(index).value) == EvaluationPoint(index)
  {
    hide FromWord;
  }

  // -------------------------------------------------------------------------
  // The cycle
  // -------------------------------------------------------------------------

  lemma CodeUnfold(i: nat)
    ensures Code(i) % 2 == (if i % 2 == i / 2 % 2 then 0 else 1)
    ensures Code(i) / 2 == Code(i / 2)
  {
    XorUnfold(i, i / 2);
  }

  lemma {:induction false} XorSelf(a: nat)
    ensures Xor(a, a) == 0
  {
    if a == 0 {
    } else {
      XorSelf(a / 2);
    }
  }

  lemma XorFromParts(a: nat, b: nat)
    ensures Xor(a, b) == (if a % 2 == b % 2 then 0 else 1) + 2 * Xor(a / 2, b / 2)
  {
  }

  // Consecutive codes differ in one bit, at the trailing zeros of the next index.
  lemma {:induction false} CodeStep(i: nat)
    ensures Xor(Code(i), Code(i + 1)) == Pow2(TrailingZeros(i + 1))
    decreases i
  {
    hide Xor, Code;
    CodeUnfold(i);
    CodeUnfold(i + 1);
    XorFromParts(Code(i), Code(i + 1));
    if i % 2 == 0 {
      assert (i + 1) / 2 == i / 2;
      XorSelf(Code(i / 2));
    } else {
      assert (i + 1) / 2 == i / 2 + 1;
      CodeStep(i / 2);
    }
  }

  // The last code has its top bit alone set, so the cycle closes on 0.
  lemma {:induction false} CodeLast(depth: nat)
    requires depth >= 1
    ensures Code(Pow2(depth) - 1) == Pow2(depth - 1)
  {
    var i := Pow2(depth) - 1;
    CodeUnfold(i);
    if depth == 1 {
      assert Pow2(1) == 2;
      assert Code(0) == 0;
    } else {
      assert i / 2 == Pow2(depth - 1) - 1;
      assert Pow2(depth - 1) == 2 * Pow2(depth - 2);
      CodeLast(depth - 1);
    }
  }

  lemma {:induction false} TrailingZerosOfPow2(k: nat)
    ensures TrailingZeros(Pow2(k)) == k
  {
    if k == 0 {
    } else {
      TrailingZerosOfPow2(k - 1);
    }
  }

  lemma {:induction false} TrailingZerosBelow(n: nat, depth: nat)
    requires 0 < n < Pow2(depth)
    ensures TrailingZeros(n) < depth
  {
    if n % 2 == 0 {
      TrailingZerosBelow(n / 2, depth - 1);
    }
  }

  // For every depth and leaf, the bit position exists, and it is the one bit in
  // which this leaf's code and the next one (0 after the last leaf) differ.
  lemma BitPositionCorrect(depth: nat, index: nat) returns (k: nat)
    requires 1 <= depth <= 16 && index < Pow2(depth)
    ensures k < depth && BitPosition(Pow2(depth), depth, index) == Some(k)
    ensures k == if index + 1 < Pow2(depth) then TrailingZeros(index + 1) else depth - 1
    ensures Xor(Code(index), if index + 1 < Pow2(depth) then Code(index + 1) else 0) == Pow2(k)
  {
    hide Xor, TrailingZeros, Pow2;
    Pow2Monotone(depth, 16);
    Pow2OfSixteen();
    if index + 1 < Pow2(depth) {
      k := TrailingZeros(index + 1);
      CodeStep(index);
      TrailingZerosBelow(index + 1, depth);
    } else {
      k := depth - 1;
      CodeLast(depth);
      XorZero(Code(index));
    }
    TrailingZerosOfPow2(k);
  }

  // Codes of different indices differ.
  lemma {:induction false} CodeInjective(i: nat, j: nat)
    requires Code(i) == Code(j)
    ensures i == j
    decreases i + j
  {
    CodeUnfold(i);
    CodeUnfold(j);
    if i == 0 && j == 0 {
    } else {
      hide Code, Xor;
      assert i / 2 == j / 2 by {
        CodeInjective(i / 2, j / 2);
      }
    }
  }

  // -------------------------------------------------------------------------
  // Codes as points of the extension field
  // -------------------------------------------------------------------------

  lemma XorHighNibble(a: nat, b: nat)
    ensures Xor(a, b) / 16 == Xor(a / 16, b / 16)
  {
    hide Xor;
    XorUnfold(a, b);
    XorUnfold(a / 2, b / 2);
    XorUnfold(a / 2 / 2, b / 2 / 2);
    XorUnfold(a / 2 / 2 / 2, b / 2 / 2 / 2);
    assert a / 2 / 2 / 2 / 2 == a / 16 && b / 2 / 2 / 2 / 2 == b / 16;
  }

  lemma XorHighByte(a: nat, b: nat)
    ensures Xor(a, b) / 256 == Xor(a / 256, b / 256)
  {
    hide Xor;
    XorHighNibble(a, b);
    XorHighNibble(a / 16, b / 16);
    assert a / 16 / 16 == a / 256 && b / 16 / 16 == b / 256;
  }

  lemma FromWordXor(a: nat, b: nat)
    ensures FromWord(Xor(a, b)) == Add(FromWord(a), FromWord(b))
  {
    XorHighByte(a, b);
    LowBitsXor(a, b, 8);
    LowBitsXor(a / 256, b / 256, 8);
    hide Xor, LowBits;
  }

  lemma FromWordZero()
    ensures FromWord(0) == ZERO
  {
    FromWordXor(0, 0);
    AddIdentity(FromWord(0));
    assert Xor(0, 0) == 0;
    hide FromWord, Add;
  }

  // The basis element of the bit that changes is the sum of the two points.
  lemma PointStep(depth: nat, index: nat) returns (k: nat)
    requires 1 <= depth <= 16 && index < Pow2(depth)
    ensures k < depth && BitPosition(Pow2(depth), depth, index) == Some(k)
    ensures FromWord(Pow2(k)) ==
      Add(EvaluationPoint(index), if index + 1 < Pow2(depth) then EvaluationPoint(index + 1) else ZERO)
  {
    k := BitPositionCorrect(depth, index);
    FromWordXor(Code(index), if index + 1 < Pow2(depth) then Code(index + 1) else 0);
    FromWordZero();
    hide FromWord, BitPosition;
  }

  // Different leaves have different evaluation points.
  lemma PointsDistinct(i: nat, j: nat)
    requires i < 65536 && j < 65536 && EvaluationPoint(i) == EvaluationPoint(j)
    ensures i == j
  {
    Pow2OfSixteen();
    CodeBound(i, 16);
    CodeBound(j, 16);
    hide ToByte, Pow2;
    LittleEndian16Injective(Code(i), Code(j));
    CodeInjective(i, j);
  }

  lemma {:induction false} CodeBound(i: nat, k: nat)
    requires i < Pow2(k)
    ensures Code(i) < Pow2(k)
  {
    CodeUnfold(i);
    if k > 0 {
      CodeBound(i / 2, k - 1);
    } else {
      assert Code(0) == 0;
    }
  }

  // A point is the code as a 16-bit word, low byte first.
  lemma PointBytes(index: nat)
    ensures Number(EvaluationPoint(index).c0) == Code(index) % 256
    ensures Number(EvaluationPoint(index).c1) == Code(index) / 256 % 256
  {
    hide ToByte, Number;
    NumberOfToByte(Code(index));
    NumberOfToByte(Code(index) / 256);
  }
}
