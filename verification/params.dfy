// src/params.rs: the sizes of a profile. The repository fixes one of them.
module Params {
  import opened Words
  import opened Mq

  const SEED_SIZE: nat := 16
  const DIGEST_SIZE: nat := 32
  const NONCE_SIZE: nat := 4

  datatype Sizes = Sizes(
    depth: nat,         // NB_EVALS_LOG, the depth of a seed tree
    executions: nat,    // TAU
    variables: nat,     // MQ_N
    equations: nat,     // EQUATION_COUNT
    repetitions: nat,   // ETA
    grindingBits: nat)  // GRINDING_BITS
  {
    // NB_EVALS, the number of leaves of a seed tree
    function Leaves(): nat { Pow2(depth) }

    function BaseVectorSize(): nat { variables / 2 }

    function MaskVectorSize(): nat { 2 * repetitions }

    function LeafSize(): nat { BaseVectorSize() + MaskVectorSize() }

    function PathSize(): nat { depth * SEED_SIZE }

    function PartialDeltaSize(): nat { if BaseVectorSize() < SEED_SIZE then 0 else BaseVectorSize() - SEED_SIZE }

    // Offsets inside an opening: paths, then hidden commitments, then partial deltas.
    function PathsSize(): nat { executions * PathSize() }

    function HiddenCommitmentsSize(): nat { executions * DIGEST_SIZE }

    function PartialDeltasOffset(): nat { PathsSize() + HiddenCommitmentsSize() }

    function OpeningSize(): nat { PartialDeltasOffset() + executions * PartialDeltaSize() }

    function PublicKeySize(): nat { 2 * SEED_SIZE + 2 * equations }

    function SecretKeySize(): nat { PublicKeySize() + BaseVectorSize() }

    function AlphaSize(): nat { executions * (2 * repetitions) }

    function SignatureSize(): nat { SEED_SIZE + 2 * DIGEST_SIZE + AlphaSize() + OpeningSize() + NONCE_SIZE }

    function EquationSize(): nat { 2 * (Triangle(variables) + variables) }
  }

  // What the constants of a profile must satisfy for the code's fixed-size
  // conversions (u8 execution, u16 leaf, block and equation index, 16-bit
  // masks) and array lengths to exist.
  predicate Supported(s: Sizes) {
    && 1 <= s.depth <= 16
    && s.executions <= 256
    && s.variables % 2 == 0 && SEED_SIZE <= s.BaseVectorSize()
    && s.equations <= 65536
    && s.grindingBits < 16
    && s.LeafSize() - SEED_SIZE <= 16 * 65536
    && s.EquationSize() <= 16 * 65536
  }

  type Profile = s: Sizes | Supported(s)
    witness (FrozenSizes(); FROZEN)

  // Every leaf index fits sixteen bits.
  lemma LeavesBound(s: Profile)
    ensures s.Leaves() <= 65536
  {
    Pow2Monotone(s.depth, 16);
    Pow2OfSixteen();
  }

  // The sizes of the frozen profile.
  const FROZEN: Sizes := Sizes(11, 12, 56, 14, 8, 8)

  lemma FrozenSizes()
    ensures Supported(FROZEN)
    ensures FROZEN.Leaves() == 2048 && FROZEN.BaseVectorSize() == 28 && FROZEN.LeafSize() - SEED_SIZE == 28
    ensures FROZEN.PartialDeltaSize() == 12 && FROZEN.PathsSize() == 2112 && FROZEN.HiddenCommitmentsSize() == 384
    ensures FROZEN.PublicKeySize() == 60 && FROZEN.SecretKeySize() == 88
    ensures FROZEN.AlphaSize() == 192 && FROZEN.SignatureSize() == 2916
    ensures FROZEN.EquationSize() == 3304
  {
    TriangleClosedForm(56);
    Pow2Sum(8, 3);
    Pow2OfSixteen();
    assert Pow2(3) == 8;
  }
}
