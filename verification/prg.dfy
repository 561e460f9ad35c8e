// src/prg.rs and src/xof.rs: tweaked keys, seed derivation, the generator, the
// extendable-output function.
module Prg {
  import opened Words
  import opened ByteStrings
  import opened Params

  type Block = b: Bytes | |b| == SEED_SIZE witness Zeros(SEED_SIZE)

  // AES-128 as an arbitrary function of key, block and output position;
  // SHAKE128 (section 6.2 of FIPS 202) as an arbitrary endless stream of bytes
  // that depends on the absorbed bytes.
  datatype Primitives = Primitives(aes: (Bytes, Bytes, nat) -> Byte, xof: (Bytes, nat) -> Byte)

  function Encrypt(p: Primitives, key: Block, block: Block): Block {
    seq(SEED_SIZE, i requires 0 <= i < SEED_SIZE => p.aes(key, block, i))
  }

  // -------------------------------------------------------------------------
  // The extendable-output function
  // -------------------------------------------------------------------------

  function Xof(p: Primitives, input: Bytes, size: nat): (output: Bytes)
    ensures |output| == size
  {
    seq(size, i requires 0 <= i < size => p.xof(input, i))
  }

  class Shake128State {
    var absorbed: Bytes

    constructor ()
      ensures absorbed == []
    {
      absorbed := [];
    }

    method Absorb(input: Bytes)
      modifies this
      ensures absorbed == old(absorbed) + input
    {
      absorbed := absorbed + input;
    }

    method Squeeze(p: Primitives, size: nat) returns (output: Bytes)
      ensures output == Xof(p, absorbed, size)
    {
      output := Xof(p, absorbed, size);
    }
  }

  // -------------------------------------------------------------------------
  // Tweaked keys
  // -------------------------------------------------------------------------

  // The salt with the selector, execution and index mixed into three bytes.
  ghost function Tweaked(salt: Block, selector: nat, execution: nat, index: nat): Block {
    XorBytes(salt, [ToByte(selector + 4 * execution)] + (LittleEndian16(index) + Zeros(13)))
  }

  method TweakSalt(salt: Block, selector: nat, execution: nat, index: nat) returns (tweaked: Block)
    ensures tweaked == Tweaked(salt, selector, execution, index)
  {
    hide ToByte, XorByte;
    var indexBytes := LittleEndian16(index);
    tweaked := salt[0 := XorByte(salt[0], ToByte(selector + 4 * execution))];
    tweaked := tweaked[1 := XorByte(tweaked[1], indexBytes[0])];
    tweaked := tweaked[2 := XorByte(tweaked[2], indexBytes[1])];
    forall i | 3 <= i < SEED_SIZE
      ensures Tweaked(salt, selector, execution, index)[i] == salt[i]
    {
      XorByteFacts(salt[i], 0);
    }
    assert tweaked == Tweaked(salt, selector, execution, index);
  }

  // Different uses of one salt have different keys.
  lemma TweakedInjective(salt: Block, s: nat, e: nat, i: nat, s': nat, e': nat, i': nat)
    requires s < 4 && s' < 4 && e < 64 && e' < 64 && i < 65536 && i' < 65536
    ensures Tweaked(salt, s, e, i) == Tweaked(salt, s', e', i') <==> s == s' && e == e' && i == i'
  {
    if Tweaked(salt, s, e, i) == Tweaked(salt, s', e', i') {
      var t := [ToByte(s + 4 * e)] + (LittleEndian16(i) + Zeros(13));
      var t' := [ToByte(s' + 4 * e')] + (LittleEndian16(i') + Zeros(13));
      XorBytesCancels(t, salt);
      XorBytesCancels(t', salt);
      assert t == t';
      assert t[0] == t'[0] && t[1..3] == t'[1..3];
      assert t[1..3] == LittleEndian16(i) && t'[1..3] == LittleEndian16(i');
      ToByteInjective(s + 4 * e, s' + 4 * e');
      LittleEndian16Injective(i, i');
    }
  }

  // Separation stops at 64 executions: the byte arithmetic wraps around.
  lemma TweakedWraps(salt: Block, selector: nat, execution: nat, index: nat)
    ensures Tweaked(salt, selector, execution + 64, index) == Tweaked(salt, selector, execution, index)
  {
    Pow2OfSixteen();
    LowBitsPeriod(selector + 4 * execution, 8);
    assert selector + 4 * (execution + 64) == selector + 4 * execution + Pow2(8);
    hide LowBits, Pow2;
  }

  lemma {:induction false} TweakedPeriodic(salt: Block, selector: nat, execution: nat, index: nat)
    ensures Tweaked(salt, selector, execution, index) == Tweaked(salt, selector, execution % 64, index)
  {
    hide Tweaked;
    if execution < 64 {
    } else {
      TweakedPeriodic(salt, selector, execution - 64, index);
      TweakedWraps(salt, selector, execution - 64, index);
    }
  }

  // The exact separation of keys: equal if and only if selector and index are
  // equal and the executions are equal modulo 64.
  lemma TweakedEqual(salt: Block, s: nat, e: nat, i: nat, s': nat, e': nat, i': nat)
    requires s < 4 && s' < 4 && i < 65536 && i' < 65536
    ensures Tweaked(salt, s, e, i) == Tweaked(salt, s', e', i') <==> s == s' && e % 64 == e' % 64 && i == i'
  {
    hide Tweaked;
    TweakedPeriodic(salt, s, e, i);
    TweakedPeriodic(salt, s', e', i');
    TweakedInjective(salt, s, e % 64, i, s', e' % 64, i');
  }

  // The selector and the execution enter byte 0, the index bytes 1 and 2.
  lemma TweakedAt(salt: Block, selector: nat, execution: nat, index: nat, k: nat)
    requires k < SEED_SIZE
    ensures Tweaked(salt, selector, execution, index)[k] == XorByte(salt[k],
      ToByte(match k
        case 0 => selector + 4 * execution
        case 1 => index
        case 2 => index / 256
        case _ => 0))
  {
    hide XorByte;
    assert ToByte(0) == 0;
    hide ToByte;
    if k >= 3 {
      XorByteFacts(salt[k], 0);
    }
  }

  // Keys of one use under different salts differ.
  lemma TweakedSalt(salt: Block, salt': Block, selector: nat, execution: nat, index: nat)
    requires Tweaked(salt, selector, execution, index) == Tweaked(salt', selector, execution, index)
    ensures salt == salt'
  {
    var x := [ToByte(selector + 4 * execution)] + (LittleEndian16(index) + Zeros(13));
    hide XorBytes, ToByte;
    XorBytesCancels(salt, x);
    XorBytesCancels(salt', x);
  }

  lemma FirstByteOfXor(salt: Block, a: Byte, b: Byte, rest: Bytes)
    requires |rest| == SEED_SIZE - 1
    ensures XorBytes(salt, [a] + rest)[0] == XorByte(salt[0], a)
    ensures XorBytes(salt, [a] + rest)[0 := XorByte(salt[0], b)] == XorBytes(salt, [b] + rest)
  {
    hide XorByte;
  }

  // Flipping the lowest bit of a key with selector 0 gives selector 1.
  lemma FlippedKey(salt: Block, execution: nat)
    ensures var k := Tweaked(salt, 0, execution, 0); k[0 := XorByte(k[0], 1)] == Tweaked(salt, 1, execution, 0)
  {
    var a, b, rest := ToByte(4 * execution), ToByte(4 * execution + 1), LittleEndian16(0) + Zeros(13);
    FlippedBit(4 * execution, salt[0]);
    FirstByteOfXor(salt, a, b, rest);
    assert 0 + 4 * execution == 4 * execution && 1 + 4 * execution == 4 * execution + 1;
    assert Tweaked(salt, 0, execution, 0) == XorBytes(salt, [a] + rest);
    assert Tweaked(salt, 1, execution, 0) == XorBytes(salt, [b] + rest);
    hide *;
  }

  lemma FlippedBit(n: nat, b: Byte)
    requires n % 2 == 0
    ensures XorByte(XorByte(b, ToByte(n)), 1) == XorByte(b, ToByte(n + 1))
  {
    ToByteSuccessor(n);
    hide ToByte, XorByte;
    XorByteAssociates(b, ToByte(n), 1);
  }

  lemma ToByteSuccessor(n: nat)
    requires n % 2 == 0
    ensures XorByte(ToByte(n), 1) == ToByte(n + 1)
  {
    assert (n + 1) / 2 == n / 2;
    LowestBit(LowBits(n / 2, 7));
    assert LowBits(n, 8) == (LowBits(n / 2, 7) << 1) | 0;
    assert LowBits(n + 1, 8) == (LowBits(n / 2, 7) << 1) | 1;
  }

  lemma LowestBit(x: Byte)
    ensures XorByte((x << 1) | 0, 1) == (x << 1) | 1
  {
  }

  // -------------------------------------------------------------------------
  // Seed derivation
  // -------------------------------------------------------------------------

  // (l, r) goes to (r + l, l).
  ghost function Orthomorphism(seed: Block): Block {
    XorBytes(seed[8..] + seed[..8], seed[..8] + Zeros(8))
  }

  method LinearOrthomorphism(seed: Block) returns (image: Block)
    ensures image == Orthomorphism(seed)
  {
    hide XorByte;
    var a := new Byte[SEED_SIZE](_ => 0);
    for i := 0 to 8
      invariant forall k :: 0 <= k < i ==> a[k] == seed[8 + k] && a[8 + k] == seed[k]
    {
      a[i] := seed[8 + i];
      a[8 + i] := seed[i];
    }
    for i := 0 to 8
      invariant forall k :: 0 <= k < i ==> a[k] == XorByte(seed[8 + k], seed[k])
      invariant forall k :: i <= k < 8 ==> a[k] == seed[8 + k]
      invariant forall k :: 8 <= k < 16 ==> a[k] == seed[k - 8]
    {
      a[i] := XorByte(a[i], seed[i]);
    }
    image := a[..];
    forall i | 0 <= i < SEED_SIZE
      ensures image[i] == Orthomorphism(seed)[i]
    {
      if i < 8 {
        OrthomorphismAt(seed, i);
      } else {
        OrthomorphismAt(seed, i - 8);
      }
    }
    assert image == Orthomorphism(seed);
  }

  // The map is an orthomorphism: it and its sum with the identity are injective.
  lemma OrthomorphismInjective(s: Block, t: Block)
    ensures Orthomorphism(s) == Orthomorphism(t) ==> s == t
    ensures XorBytes(s, Orthomorphism(s)) == XorBytes(t, Orthomorphism(t)) ==> s == t
  {
    hide Orthomorphism, XorByte;
    if Orthomorphism(s) == Orthomorphism(t) {
      forall i | 0 <= i < SEED_SIZE
        ensures s[i] == t[i]
      {
        OrthomorphismAt(s, i % 8);
        OrthomorphismAt(t, i % 8);
        CancelRight(s[8 + i % 8], t[8 + i % 8], s[i % 8]);
      }
    }
    if XorBytes(s, Orthomorphism(s)) == XorBytes(t, Orthomorphism(t)) {
      forall i | 0 <= i < SEED_SIZE
        ensures s[i] == t[i]
      {
        var k := i % 8;
        OrthomorphismAt(s, k);
        OrthomorphismAt(t, k);
        assert XorBytes(s, Orthomorphism(s))[k] == XorBytes(t, Orthomorphism(t))[k];
        assert XorBytes(s, Orthomorphism(s))[8 + k] == XorBytes(t, Orthomorphism(t))[8 + k];
        SumOfHalves(s[k], s[8 + k], t[k], t[8 + k]);
      }
    }
  }

  lemma OrthomorphismAt(b: Block, k: nat)
    requires k < 8
    ensures Orthomorphism(b)[k] == XorByte(b[8 + k], b[k])
    ensures Orthomorphism(b)[8 + k] == b[k]
  {
    hide XorByte;
    XorByteFacts(b[k], 0);
  }

  lemma CancelRight(a: Byte, b: Byte, c: Byte)
    ensures XorByte(a, c) == XorByte(b, c) ==> a == b
  {
  }

  lemma SumOfHalves(l: Byte, r: Byte, l': Byte, r': Byte)
    ensures XorByte(l, XorByte(r, l)) == XorByte(l', XorByte(r', l')) && XorByte(r, l) == XorByte(r', l') ==>
      l == l' && r == r'
  {
  }

  ghost function Derived(p: Primitives, key: Block, seed: Block): Block {
    XorBytes(Encrypt(p, key, seed), Orthomorphism(seed))
  }

  // Added to the cipher output, a derivation is the halves (r + l, l) of the seed (l, r).
  lemma DerivedAt(p: Primitives, key: Block, seed: Block, k: nat)
    requires k < 8
    ensures XorByte(Derived(p, key, seed)[k], p.aes(key, seed, k)) == XorByte(seed[8 + k], seed[k])
    ensures XorByte(Derived(p, key, seed)[8 + k], p.aes(key, seed, 8 + k)) == seed[k]
  {
    hide XorByte, Orthomorphism;
    OrthomorphismAt(seed, k);
    var o, d := Orthomorphism(seed), Derived(p, key, seed);
    assert d[k] == XorByte(p.aes(key, seed, k), o[k]);
    assert d[8 + k] == XorByte(p.aes(key, seed, 8 + k), o[8 + k]);
    XorByteCancels(p.aes(key, seed, k), o[k]);
    XorByteCancels(p.aes(key, seed, 8 + k), o[8 + k]);
  }

  lemma XorByteCancels(a: Byte, b: Byte)
    ensures XorByte(XorByte(a, b), a) == b
  {
  }

  // SeedDeriver::derive
  method Derive(p: Primitives, key: Block, seed: Block) returns (output: Block)
    ensures output == Derived(p, key, seed)
  {
    var linearImage := LinearOrthomorphism(seed);
    var encrypted := Encrypt(p, key, seed);
    var block := new Byte[SEED_SIZE](i requires 0 <= i < SEED_SIZE => encrypted[i]);
    assert block[..] == encrypted;
    var ok := XorInto(block, linearImage);
    output := block[..];
  }

  // -------------------------------------------------------------------------
  // The generator
  // -------------------------------------------------------------------------

  function BlockCount(size: nat): nat {
    (size + SEED_SIZE - 1) / SEED_SIZE
  }

  // The stream for one seed: block k comes from the key with selector 3 and index k.
  ghost function Stream(p: Primitives, salt: Block, execution: nat, seed: Block, size: nat): (s: Bytes)
    ensures |s| == size
  {
    seq(size, i requires 0 <= i < size => Derived(p, Tweaked(salt, 3, execution, i / SEED_SIZE), seed)[i % SEED_SIZE])
  }

  datatype Generator = Generator(blocks: seq<Block>)

  ghost predicate GeneratorFor(g: Generator, salt: Block, execution: nat, count: nat) {
    |g.blocks| == count && forall k: nat :: k < count ==> g.blocks[k] == Tweaked(salt, 3, execution, k)
  }

  // A generator exists for at most 65536 blocks, the range of the 16-bit index.
  method NewGenerator(salt: Block, execution: nat, outputSize: nat) returns (g: Option<Generator>)
    ensures g.Some? <==> BlockCount(outputSize) <= 65536
    ensures g.Some? ==> GeneratorFor(g.value, salt, execution, BlockCount(outputSize))
  {
    var blockCount := (outputSize + SEED_SIZE - 1) / SEED_SIZE;
    if blockCount > 65535 + 1 {
      return None;
    }
    var blocks: seq<Block> := [];
    for blockIndex := 0 to blockCount
      invariant |blocks| == blockIndex
      invariant forall k: nat :: k < blockIndex ==> blocks[k] == Tweaked(salt, 3, execution, k)
    {
      var key := TweakSalt(salt, 3, execution, blockIndex);
      blocks := blocks + [key];
    }
    return Some(Generator(blocks));
  }

  // Generator::fill on the slice output[lo..].
  method Fill(p: Primitives, g: Generator, ghost salt: Block, ghost execution: nat, seed: Block, output: array<Byte>,
              lo: nat)
    returns (ok: bool)
    requires lo <= output.Length && GeneratorFor(g, salt, execution, |g.blocks|)
    modifies output
    ensures ok == (BlockCount(output.Length - lo) <= |g.blocks|)
    ensures output[..lo] == old(output[..lo])
    ensures ok ==> output[lo..] == Stream(p, salt, execution, seed, output.Length - lo)
    ensures !ok ==> output[..] == old(output[..])
  {
    hide Derived, Tweaked, Stream, Filled;
    var size := output.Length - lo;
    var requiredBlocks := (size + SEED_SIZE - 1) / SEED_SIZE;
    if requiredBlocks > |g.blocks| {
      return false;
    }
    NothingFilled(p, salt, execution, seed, output[..], lo);
    BlocksCover(size);
    assert requiredBlocks == BlockCount(size);
    hide Least, BlockCount;
    for k := 0 to requiredBlocks
      invariant Filled(p, salt, execution, seed, old(output[..]), output[..], lo, Least(SEED_SIZE * k, size))
    {
      ghost var before := output[..];
      BlockEnds(size, k);
      var block := Derive(p, g.blocks[k], seed);
      var length := Least(size - SEED_SIZE * k, SEED_SIZE);
      CopyInto(output, lo + SEED_SIZE * k, block[..length]);
      BlockFilled(p, salt, execution, seed, old(output[..]), before, output[..], lo, k, block, length);
    }
    FilledToEnd(p, salt, execution, seed, old(output[..]), output[..], lo);
    return true;
  }

  // Block k ends where block k + 1 starts or the output ends.
  lemma BlockEnds(size: nat, k: nat)
    requires k < BlockCount(size)
    ensures Least(SEED_SIZE * k, size) == SEED_SIZE * k < size
    ensures SEED_SIZE * k + Least(size - SEED_SIZE * k, SEED_SIZE) == Least(SEED_SIZE * (k + 1), size)
    ensures 0 <= Least(size - SEED_SIZE * k, SEED_SIZE) <= SEED_SIZE
  {
  }

  lemma BlocksCover(size: nat)
    ensures Least(0, size) == 0 && Least(SEED_SIZE * BlockCount(size), size) == size
  {
  }

  function Least(a: int, b: int): int {
    if a < b then a else b
  }

  // `now` is `before` with the first n bytes of the stream written at lo.
  ghost predicate Filled(p: Primitives, salt: Block, execution: nat, seed: Block, before: Bytes, now: Bytes, lo: nat,
                         n: int)
  {
    && 0 <= n && lo + n <= |before| == |now| && now[..lo] == before[..lo]
    && now[lo..lo + n] == Stream(p, salt, execution, seed, n)
  }

  lemma NothingFilled(p: Primitives, salt: Block, execution: nat, seed: Block, before: Bytes, lo: nat)
    requires lo <= |before|
    ensures Filled(p, salt, execution, seed, before, before, lo, 0)
  {
  }

  lemma FilledToEnd(p: Primitives, salt: Block, execution: nat, seed: Block, before: Bytes, now: Bytes, lo: nat)
    requires lo <= |before| && Filled(p, salt, execution, seed, before, now, lo, |before| - lo)
    ensures |now| == |before| && now[..lo] == before[..lo]
    ensures now[lo..] == Stream(p, salt, execution, seed, |before| - lo)
  {
    hide Stream;
  }

  lemma BlockFilled(p: Primitives, salt: Block, execution: nat, seed: Block, before: Bytes, now: Bytes, next: Bytes,
                    lo: nat, k: nat, block: Block, length: nat)
    requires length <= SEED_SIZE && Filled(p, salt, execution, seed, before, now, lo, SEED_SIZE * k)
    requires block == Derived(p, Tweaked(salt, 3, execution, k), seed)
    requires Replaces(now, next, lo + SEED_SIZE * k, block[..length])
    ensures Filled(p, salt, execution, seed, before, next, lo, SEED_SIZE * k + length)
  {
    StreamNext(p, salt, execution, seed, k, length);
    hide Derived, Tweaked, Stream;
    var n := SEED_SIZE * k;
    assert next[..lo] == now[..lo];
    assert next[lo..lo + n + length] == now[lo..lo + n] + block[..length];
  }

  // The stream continues with the block of the next index.
  lemma StreamNext(p: Primitives, salt: Block, execution: nat, seed: Block, k: nat, length: nat)
    requires length <= SEED_SIZE
    ensures Stream(p, salt, execution, seed, SEED_SIZE * k + length)
         == Stream(p, salt, execution, seed, SEED_SIZE * k) + Derived(p, Tweaked(salt, 3, execution, k), seed)[..length]
  {
    hide Derived, Tweaked;
    var n := SEED_SIZE * k;
    var next := Derived(p, Tweaked(salt, 3, execution, k), seed)[..length];
    forall j | 0 <= j < length
      ensures Stream(p, salt, execution, seed, n + length)[n + j] == next[j]
    {
      assert (n + j) / SEED_SIZE == k && (n + j) % SEED_SIZE == j;
    }
    assert Stream(p, salt, execution, seed, n + length) == Stream(p, salt, execution, seed, n) + next;
  }

  // prg::fill: fails exactly when a block index would leave 16 bits.
  method FillStream(p: Primitives, salt: Block, execution: nat, seed: Block, output: array<Byte>) returns (ok: bool)
    modifies output
    ensures ok == (BlockCount(output.Length) <= 65536)
    ensures ok ==> output[..] == Stream(p, salt, execution, seed, output.Length)
    ensures !ok ==> output[..] == old(output[..])
  {
    var generator := NewGenerator(salt, execution, output.Length);
    if generator.None? {
      return false;
    }
    ok := Fill(p, generator.value, salt, execution, seed, output, 0);
    assert output[..] == output[0..];
  }

  // Block k of a stream is derived with the key of selector 3 and index k.
  lemma StreamBlock(p: Primitives, salt: Block, execution: nat, seed: Block, size: nat, k: nat)
    requires SEED_SIZE * k + SEED_SIZE <= size
    ensures Stream(p, salt, execution, seed, size)[SEED_SIZE * k..SEED_SIZE * k + SEED_SIZE]
         == Derived(p, Tweaked(salt, 3, execution, k), seed)
  {
    hide Derived, Tweaked;
    var n := SEED_SIZE * k;
    var d := Derived(p, Tweaked(salt, 3, execution, k), seed);
    forall j | 0 <= j < SEED_SIZE
      ensures Stream(p, salt, execution, seed, size)[n + j] == d[j]
    {
      assert (n + j) / SEED_SIZE == k && (n + j) % SEED_SIZE == j;
    }
    assert Stream(p, salt, execution, seed, size)[n..n + SEED_SIZE] == d;
  }

  // A shorter stream is a prefix of a longer one.
  lemma StreamPrefix(p: Primitives, salt: Block, execution: nat, seed: Block, m: nat, n: nat)
    requires m <= n
    ensures Stream(p, salt, execution, seed, m) == Stream(p, salt, execution, seed, n)[..m]
  {
    hide Derived;
  }
}
