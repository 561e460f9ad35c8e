// src/mq.rs, expand_equation, and src/keygen.rs.
module Keygen {
  import opened Words
  import opened ByteStrings
  import opened BaseFields
  import opened ExtensionField
  import opened Mq
  import opened Packing
  import opened Params
  import opened Prg

  // -------------------------------------------------------------------------
  // Equations
  // -------------------------------------------------------------------------

  ghost function EquationStream(p: Primitives, s: Profile, masterSeed: Bytes, index: nat): (b: Bytes)
    ensures |b| == s.EquationSize()
  {
    var equationSeed := Xof(p, [0x01] + masterSeed + LittleEndian16(index), SEED_SIZE);
    Stream(p, Zeros(SEED_SIZE), 0, equationSeed, s.EquationSize())
  }

  // Element k of a string of encoded extension field elements.
  function Element(b: Bytes, k: nat): Ext
    requires 2 * k + 1 < |b|
  {
    Ext(b[2 * k], b[2 * k + 1])
  }

  // The quadratic coefficients come first, row by row, then the linear ones.
  ghost function Equation(p: Primitives, s: Profile, masterSeed: Bytes, index: nat): (eq: PackedEquation)
    ensures WellFormed(eq) && |eq.linear| == s.variables
  {
    var b := EquationStream(p, s, masterSeed, index);
    var t := Triangle(s.variables);
    PackedEquation(
      seq(t, k requires 0 <= k < t => Element(b, k)),
      seq(s.variables, k requires 0 <= k < s.variables => Element(b, t + k)))
  }

  method ExpandEquation(p: Primitives, s: Profile, masterSeed: Bytes, equationIndex: nat)
    returns (eq: Option<PackedEquation>)
    ensures eq.Some? <==> equationIndex < s.equations
    ensures eq.Some? ==> eq.value == Equation(p, s, masterSeed, equationIndex)
  {
    hide Stream, Triangle;
    if equationIndex >= s.equations {
      return None;
    }
    var equationSeed := Xof(p, [0x01] + masterSeed + LittleEndian16(equationIndex), SEED_SIZE);
    var stream := new Byte[s.EquationSize()];
    var ok := FillStream(p, Zeros(SEED_SIZE), 0, equationSeed, stream);
    var b := stream[..];
    var t := Triangle(s.variables);
    var quadratic := seq(t, k requires 0 <= k < t => Element(b, k));
    var linear := seq(s.variables, k requires 0 <= k < s.variables => Element(b, t + k));
    return Some(PackedEquation(quadratic, linear));
  }

  // -------------------------------------------------------------------------
  // Keys
  // -------------------------------------------------------------------------

  function ToBytes(e: Ext): (b: Bytes)
    ensures |b| == 2
  {
    [e.c0, e.c1]
  }

  // The secret vector of a secret key.
  ghost function SecretOf(s: Profile, secretKey: Bytes): (v: seq<Gf16>)
    requires |secretKey| == s.SecretKeySize()
    ensures |v| == s.variables
  {
    Unpacked(secretKey[s.PublicKeySize()..], s.variables)
  }

  // Output i of the public system, as a key stores it.
  ghost function OutputOf(s: Profile, key: Bytes, i: nat): Ext
    requires |key| >= s.PublicKeySize() && i < s.equations
  {
    Ext(key[2 * SEED_SIZE + 2 * i], key[2 * SEED_SIZE + 2 * i + 1])
  }

  // Every stored output is its equation evaluated at the secret vector.
  ghost predicate Consistent(p: Primitives, s: Profile, secretKey: Bytes) {
    |secretKey| == s.SecretKeySize() && forall i: nat :: i < s.equations ==> StoredOutputMatches(p, s, secretKey, i)
  }

  ghost predicate StoredOutputMatches(p: Primitives, s: Profile, secretKey: Bytes, i: nat)
    requires |secretKey| == s.SecretKeySize() && i < s.equations
  {
    OutputOf(s, secretKey, i) ==
      Evaluate(Equation(p, s, secretKey[..2 * SEED_SIZE], i), LiftAll(SecretOf(s, secretKey)))
  }

  method SecretKeyIsConsistent(p: Primitives, s: Profile, secretKey: Bytes) returns (consistent: bool)
    requires |secretKey| == s.SecretKeySize()
    ensures consistent <==> Consistent(p, s, secretKey)
  {
    hide Evaluate, Equation, LiftAll;
    var masterSeed := secretKey[..2 * SEED_SIZE];
    var secretVector := new Gf16[s.variables];
    var ok := UnpackGf16(secretKey[s.PublicKeySize()..], secretVector);
    var secret := secretVector[..];
    var matches := true;
    for equationIndex := 0 to s.equations
      invariant matches <==> forall i: nat :: i < equationIndex ==> StoredOutputMatches(p, s, secretKey, i)
    {
      var equation := ExpandEquation(p, s, masterSeed, equationIndex);
      var output := EvaluateBase(equation.value, secret);
      var observedOffset := 2 * SEED_SIZE + equationIndex * 2;
      var observed := secretKey[observedOffset..observedOffset + 2];
      BytesMatch(output, observed);
      assert OutputOf(s, secretKey, equationIndex) == Ext(observed[0], observed[1]);
      assert StoredOutputMatches(p, s, secretKey, equationIndex) <==> ToBytes(output) == observed;
      matches := matches && ToBytes(output) == observed;
    }
    consistent := matches;
  }

  lemma BytesMatch(e: Ext, b: Bytes)
    requires |b| == 2
    ensures ToBytes(e) == b <==> e == Ext(b[0], b[1])
  {
  }

  // The keys of a seed: public seed and outputs, then the packed secret vector.
  ghost predicate KeysOf(p: Primitives, s: Profile, seed: Bytes, secretKey: Bytes, publicKey: Bytes) {
    var expansion := Xof(p, [0x00] + seed, s.BaseVectorSize() + 2 * SEED_SIZE);
    && |publicKey| == s.PublicKeySize()
    && secretKey == publicKey + expansion[..s.BaseVectorSize()]
    && publicKey[..2 * SEED_SIZE] == expansion[s.BaseVectorSize()..]
  }

  method KeypairFromSeed(p: Primitives, s: Profile, seed: Bytes) returns (secretKey: Bytes, publicKey: Bytes)
    requires |seed| == 2 * SEED_SIZE
    ensures KeysOf(p, s, seed, secretKey, publicKey)
    ensures |secretKey| == s.SecretKeySize() && secretKey[..s.PublicKeySize()] == publicKey
    ensures var expansion := Xof(p, [0x00] + seed, s.BaseVectorSize() + 2 * SEED_SIZE);
      && publicKey[..2 * SEED_SIZE] == expansion[s.BaseVectorSize()..]
      && secretKey[s.PublicKeySize()..] == expansion[..s.BaseVectorSize()]
    ensures Consistent(p, s, secretKey)
  {
    hide Evaluate, Equation, LiftAll;
    var base := s.BaseVectorSize();
    var expansion := Xof(p, [0x00] + seed, base + 2 * SEED_SIZE);
    var secretVector := new Gf16[s.variables];
    var ok := UnpackGf16(expansion[..base], secretVector);
    var masterSeed := expansion[base..];
    publicKey := PublicKeyFor(p, s, masterSeed, secretVector[..]);
    secretKey := publicKey + expansion[..base];
    forall i: nat | i < s.equations
      ensures StoredOutputMatches(p, s, secretKey, i)
    {
      assert secretKey[..2 * SEED_SIZE] == masterSeed;
      assert secretKey[s.PublicKeySize()..] == expansion[..base];
      assert OutputOf(s, secretKey, i) == OutputOf(s, publicKey, i);
    }
  }

  // The outputs are written behind the seed at a running offset.
  method PublicKeyFor(p: Primitives, s: Profile, masterSeed: Bytes, secret: seq<Gf16>) returns (publicKey: Bytes)
    requires |masterSeed| == 2 * SEED_SIZE && |secret| == s.variables
    ensures |publicKey| == s.PublicKeySize() && publicKey[..2 * SEED_SIZE] == masterSeed
    ensures forall i: nat :: i < s.equations ==>
      OutputOf(s, publicKey, i) == Evaluate(Equation(p, s, masterSeed, i), LiftAll(secret))
  {
    hide OutputsUpTo, ToBytes, Evaluate, Equation, LiftAll;
    var key := new Byte[s.PublicKeySize()](_ => 0);
    CopyInto(key, 0, masterSeed);
    NoOutputs(p, s, masterSeed, secret, key[..]);
    for equationIndex := 0 to s.equations
      invariant OutputsUpTo(p, s, masterSeed, secret, key[..], equationIndex)
    {
      ghost var before := key[..];
      var equation := ExpandEquation(p, s, masterSeed, equationIndex);
      var value := EvaluateBase(equation.value, secret);
      var output := ToBytes(value);
      var offset := 2 * SEED_SIZE + equationIndex * 2;
      CopyInto(key, offset, output);
      OutputsKept(p, s, masterSeed, secret, before, key[..], equationIndex, value);
    }
    publicKey := key[..];
    OutputsComplete(p, s, masterSeed, secret, publicKey);
  }

  // The seed, and the first n outputs behind it.
  ghost predicate OutputsUpTo(p: Primitives, s: Profile, masterSeed: Bytes, secret: seq<Gf16>, key: Bytes, n: nat) {
    && |key| == s.PublicKeySize() && n <= s.equations && key[..2 * SEED_SIZE] == masterSeed
    && forall i: nat :: i < n ==> OutputOf(s, key, i) == Evaluate(Equation(p, s, masterSeed, i), LiftAll(secret))
  }

  lemma NoOutputs(p: Primitives, s: Profile, masterSeed: Bytes, secret: seq<Gf16>, key: Bytes)
    requires |key| == s.PublicKeySize() && key[..2 * SEED_SIZE] == masterSeed
    ensures OutputsUpTo(p, s, masterSeed, secret, key, 0)
  {
  }

  lemma OutputsComplete(p: Primitives, s: Profile, masterSeed: Bytes, secret: seq<Gf16>, key: Bytes)
    requires OutputsUpTo(p, s, masterSeed, secret, key, s.equations)
    ensures |key| == s.PublicKeySize() && key[..2 * SEED_SIZE] == masterSeed
    ensures forall i: nat :: i < s.equations ==>
      OutputOf(s, key, i) == Evaluate(Equation(p, s, masterSeed, i), LiftAll(secret))
  {
    hide Evaluate, Equation, LiftAll, OutputOf;
  }

  lemma OutputsKept(p: Primitives, s: Profile, masterSeed: Bytes, secret: seq<Gf16>, before: Bytes, after: Bytes,
                    e: nat, value: Ext)
    requires e < s.equations && OutputsUpTo(p, s, masterSeed, secret, before, e)
    requires value == Evaluate(Equation(p, s, masterSeed, e), LiftAll(secret))
    requires after == before[..2 * SEED_SIZE + e * 2] + ToBytes(value) + before[2 * SEED_SIZE + e * 2 + 2..]
    ensures OutputsUpTo(p, s, masterSeed, secret, after, e + 1)
  {
    hide Evaluate, Equation, LiftAll;
    assert after[..2 * SEED_SIZE] == before[..2 * SEED_SIZE];
  }

  // The public key is the prefix of the secret key.
  lemma PublicKeyIsPrefix(p: Primitives, s: Profile, seed: Bytes, secretKey: Bytes, publicKey: Bytes)
    requires KeysOf(p, s, seed, secretKey, publicKey)
    ensures secretKey[..s.PublicKeySize()] == publicKey
  {
  }

  // Output i of a consistent key takes bytes 32 + 2i and 33 + 2i, c0 first.
  lemma ConsistentBytes(p: Primitives, s: Profile, secretKey: Bytes)
    requires |secretKey| == s.SecretKeySize()
    ensures Consistent(p, s, secretKey) <==> forall i: nat :: i < s.equations ==>
      var y := Evaluate(Equation(p, s, secretKey[..32], i),
        LiftAll(Unpacked(secretKey[s.PublicKeySize()..], s.variables)));
      secretKey[32 + 2 * i..34 + 2 * i] == [y.c0, y.c1]
  {
    hide Evaluate, Equation, LiftAll, Unpacked;
    forall i: nat | i < s.equations
      ensures StoredOutputMatches(p, s, secretKey, i) <==>
        var y := Evaluate(Equation(p, s, secretKey[..32], i),
          LiftAll(Unpacked(secretKey[s.PublicKeySize()..], s.variables)));
        secretKey[32 + 2 * i..34 + 2 * i] == [y.c0, y.c1]
    {
      var b := secretKey[32 + 2 * i..34 + 2 * i];
      assert b == [secretKey[32 + 2 * i], secretKey[33 + 2 * i]];
    }
  }

  // Coefficient k of an equation is element k of its stream, the linear ones
  // behind the quadratic ones.
  lemma QuadraticAt(p: Primitives, s: Profile, masterSeed: Bytes, index: nat, k: nat)
    requires k < Triangle(s.variables)
    ensures 2 * k + 1 < |EquationStream(p, s, masterSeed, index)|
    ensures var b := EquationStream(p, s, masterSeed, index);
      Equation(p, s, masterSeed, index).quadratic[k] == Ext(b[2 * k], b[2 * k + 1])
  {
    hide EquationStream, Triangle;
  }

  lemma LinearAt(p: Primitives, s: Profile, masterSeed: Bytes, index: nat, k: nat)
    requires k < s.variables
    ensures 2 * (Triangle(s.variables) + k) + 1 < |EquationStream(p, s, masterSeed, index)|
    ensures var b, i := EquationStream(p, s, masterSeed, index), 2 * (Triangle(s.variables) + k);
      Equation(p, s, masterSeed, index).linear[k] == Ext(b[i], b[i + 1])
  {
    hide EquationStream, Triangle;
    var b := EquationStream(p, s, masterSeed, index);
    assert Equation(p, s, masterSeed, index).linear[k] == Element(b, Triangle(s.variables) + k);
  }
}
