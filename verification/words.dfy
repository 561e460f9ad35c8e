// Fixed-width words as natural numbers: powers of two, bitwise operations,
// trailing zeros and little-endian bytes.
module Words {

  type Byte = bv8
  type Bytes = seq<bv8>

  function Pow2(k: nat): (p: nat)
    ensures p >= 1
  {
    if k == 0 then 1 else 2 * Pow2(k - 1)
  }

  lemma {:induction false} Pow2Sum(i: nat, j: nat)
    ensures Pow2(i + j) == Pow2(i) * Pow2(j)
  {
    if j == 0 {
    } else {
      Pow2Sum(i, j - 1);
    }
  }

  lemma {:induction false} Pow2Monotone(i: nat, j: nat)
    requires i <= j
    ensures Pow2(i) <= Pow2(j)
    ensures i < j ==> 2 * Pow2(i) <= Pow2(j)
    decreases j - i
  {
    if i == j {
    } else {
      Pow2Monotone(i + 1, j);
    }
  }

  lemma Pow2OfSixteen()
    ensures Pow2(8) == 256 && Pow2(16) == 65536
  {
    assert Pow2(8) == 256;
    Pow2Sum(8, 8);
  }

  // Bitwise exclusive or and conjunction.
  function Xor(a: nat, b: nat): nat
    decreases a + b
  {
    if a + b == 0 then 0 else (if a % 2 == b % 2 then 0 else 1) + 2 * Xor(a / 2, b / 2)
  }

  function And(a: nat, b: nat): nat
    decreases a
  {
    if a == 0 then 0 else a % 2 * (b % 2) + 2 * And(a / 2, b / 2)
  }

  // u16::trailing_zeros: the position of the lowest set bit, or 16.
  function TrailingZeros(x: nat): nat {
    if x == 0 then 16 else if x % 2 == 1 then 0 else 1 + TrailingZeros(x / 2)
  }

  // Masking never exceeds the mask.
  lemma {:induction false} AndBound(a: nat, b: nat)
    ensures And(a, b) <= b
  {
    if a == 0 {
    } else {
      AndBound(a / 2, b / 2);
      assert a % 2 * (b % 2) <= b % 2;
    }
  }

  lemma {:induction false} XorZero(a: nat)
    ensures Xor(a, 0) == a == Xor(0, a)
  {
    if a == 0 {
    } else {
      XorZero(a / 2);
    }
  }

  // -------------------------------------------------------------------------
  // Bytes
  // -------------------------------------------------------------------------

  function XorByte(a: Byte, b: Byte): Byte {
    a ^ b
  }

  lemma XorByteFacts(a: Byte, b: Byte)
    ensures XorByte(a, b) == XorByte(b, a)
    ensures XorByte(a, 0) == a == XorByte(0, a)
    ensures XorByte(a, a) == 0
  {
  }

  lemma XorByteAssociates(a: Byte, b: Byte, c: Byte)
    ensures XorByte(XorByte(a, b), c) == XorByte(a, XorByte(b, c))
  {
    assert (a ^ b) ^ c == a ^ (b ^ c);
  }

  // The k low bits of n.
  function LowBits(n: nat, k: nat): Byte {
    if k == 0 then 0 else (LowBits(n / 2, k - 1) << 1) | (if n % 2 == 1 then 1 else 0)
  }

  // n as u8: truncation to the low eight bits.
  function ToByte(n: nat): Byte {
    LowBits(n, 8)
  }

  // u16::to_le_bytes and u32::to_le_bytes.
  function LittleEndian16(n: nat): (b: Bytes)
    ensures |b| == 2
  {
    [ToByte(n), ToByte(n / 256)]
  }

  function LittleEndian32(n: nat): (b: Bytes)
    ensures |b| == 4
  {
    [ToByte(n), ToByte(n / 256), ToByte(n / 65536), ToByte(n / 16777216)]
  }

  // The value of the k low bits of b.
  function BitsValue(b: Byte, k: nat): nat {
    if k == 0 then 0 else (if b & 1 == 1 then 1 else 0) + 2 * BitsValue(b >> 1, k - 1)
  }

  // u16::from_le_bytes
  function FromLittleEndian16(lo: Byte, hi: Byte): nat {
    BitsValue(lo, 8) + 256 * BitsValue(hi, 8)
  }

  lemma ShiftInBit(x: Byte, t: Byte)
    requires x < 128 && t <= 1
    ensures ((x << 1) | t) >> 1 == x && ((x << 1) | t) & 1 == t
  {
  }

  lemma ShiftInBound(x: Byte, t: Byte, bound: Byte)
    requires t <= 1 && bound <= 127 && x <= bound
    ensures (x << 1) | t <= (bound << 1) | 1
  {
  }

  // The largest byte of k low bits.
  ghost function Ones(k: nat): Byte {
    if k == 0 then 0 else (Ones(k - 1) << 1) | 1
  }

  lemma OnesBound(k: nat)
    requires k <= 7
    ensures Ones(k) <= 127
  {
    assert Ones(1) == 1 && Ones(2) == 3 && Ones(3) == 7 && Ones(4) == 15;
    assert Ones(5) == (Ones(4) << 1) | 1 == 31;
    assert Ones(6) == (Ones(5) << 1) | 1 == 63;
    assert Ones(7) == (Ones(6) << 1) | 1 == 127;
  }

  lemma {:induction false} LowBitsBound(n: nat, k: nat)
    requires k <= 7
    ensures LowBits(n, k) <= Ones(k) <= 127
  {
    OnesBound(k);
    if k == 0 {
    } else {
      LowBitsBound(n / 2, k - 1);
      ShiftInBound(LowBits(n / 2, k - 1), if n % 2 == 1 then 1 else 0, Ones(k - 1));
    }
  }

  // n modulo 2^k, bit by bit.
  ghost function LowPart(n: nat, k: nat): nat {
    if k == 0 then 0 else n % 2 + 2 * LowPart(n / 2, k - 1)
  }

  // Reading back the k low bits.
  lemma {:induction false} LowBitsValue(n: nat, k: nat)
    requires k <= 8
    ensures BitsValue(LowBits(n, k), k) == LowPart(n, k)
  {
    if k == 0 {
    } else {
      var x, t: Byte := LowBits(n / 2, k - 1), if n % 2 == 1 then 1 else 0;
      LowBitsBound(n / 2, k - 1);
      ShiftInBit(x, t);
      LowBitsValue(n / 2, k - 1);
    }
  }

  lemma HalvedFourTimes(n: nat)
    ensures n / 2 / 2 / 2 / 2 == n / 16
    ensures n == n % 2 + 2 * (n / 2 % 2) + 4 * (n / 2 / 2 % 2) + 8 * (n / 2 / 2 / 2 % 2) + 16 * (n / 16)
  {
  }

  // The low nibble of n in front of k more bits.
  lemma LowPartOfNibble(n: nat, k: nat)
    ensures LowPart(n, k + 4) == LowPart(n, 4) + 16 * LowPart(n / 16, k)
    ensures n == LowPart(n, 4) + 16 * (n / 16)
  {
    HalvedFourTimes(n);
    var a, b, c := n / 2, n / 2 / 2, n / 2 / 2 / 2;
    assert LowPart(c, k + 1) == c % 2 + 2 * LowPart(n / 16, k);
    assert LowPart(b, k + 2) == b % 2 + 2 * LowPart(c, k + 1);
    assert LowPart(a, k + 3) == a % 2 + 2 * LowPart(b, k + 2);
    assert LowPart(c, 1) == c % 2;
    assert LowPart(b, 2) == b % 2 + 2 * LowPart(c, 1);
    assert LowPart(a, 3) == a % 2 + 2 * LowPart(b, 2);
  }

  lemma LowPartOfByte(n: nat)
    ensures n == LowPart(n, 8) + 256 * (n / 256)
  {
    LowPartOfNibble(n, 4);
    LowPartOfNibble(n / 16, 0);
    hide LowPart;
    assert n / 16 / 16 == n / 256;
  }

  lemma ToByteValue(n: nat)
    ensures n == BitsValue(ToByte(n), 8) + 256 * (n / 256)
  {
    LowBitsValue(n, 8);
    LowPartOfByte(n);
    hide LowBits, BitsValue, LowPart;
  }

  lemma ToByteInjective(m: nat, n: nat)
    requires m < 256 && n < 256 && ToByte(m) == ToByte(n)
    ensures m == n
  {
    hide ToByte, BitsValue;
    ToByteValue(m);
    ToByteValue(n);
  }

  lemma LittleEndian16Injective(m: nat, n: nat)
    requires m < 65536 && n < 65536 && LittleEndian16(m) == LittleEndian16(n)
    ensures m == n
  {
    hide ToByte, BitsValue;
    assert LittleEndian16(m)[0] == LittleEndian16(n)[0] && LittleEndian16(m)[1] == LittleEndian16(n)[1];
    ToByteValue(m);
    ToByteValue(n);
    ToByteInjective(m / 256, n / 256);
  }

  // The k low bits repeat with period 2^k.
  lemma {:induction false} LowBitsPeriod(n: nat, k: nat)
    ensures LowBits(n + Pow2(k), k) == LowBits(n, k)
  {
    if k == 0 {
    } else {
      assert (n + Pow2(k)) / 2 == n / 2 + Pow2(k - 1) && (n + Pow2(k)) % 2 == n % 2;
      LowBitsPeriod(n / 2, k - 1);
    }
  }

  // -------------------------------------------------------------------------
  // What masks and little-endian bytes mean
  // -------------------------------------------------------------------------

  lemma MultipleGap(d: nat, k: nat, q: nat)
    requires k < q
    ensures k * d + d <= q * d
  {
    var t := q - k - 1;
    assert q * d == k * d + d + t * d;
  }

  lemma ModUnique(a: nat, d: nat, q: nat, r: nat)
    requires r < d && a == q * d + r
    ensures a % d == r
  {
    var k, m := a / d, a % d;
    assert a == k * d + m;
    if k < q {
      MultipleGap(d, k, q);
    } else if q < k {
      MultipleGap(d, q, k);
    }
  }

  lemma ModDoubled(a: nat, m: nat)
    requires m >= 1
    ensures a % (2 * m) == a % 2 + 2 * (a / 2 % m)
  {
    var h := a / 2;
    var q, r := h / m, h % m;
    assert h == q * m + r;
    assert q * (2 * m) == 2 * (q * m);
    ModUnique(a, 2 * m, q, a % 2 + 2 * r);
  }

  lemma {:induction false} AndZero(a: nat)
    ensures And(a, 0) == 0
  {
    if a == 0 {
    } else {
      AndZero(a / 2);
    }
  }

  // Masking with 2^k - 1 is the remainder modulo 2^k.
  lemma {:induction false} AndMask(a: nat, k: nat)
    ensures And(a, Pow2(k) - 1) == a % Pow2(k)
  {
    hide And;
    if k == 0 {
      AndZero(a);
    } else {
      AndMask(a / 2, k - 1);
      ModDoubled(a, Pow2(k - 1));
      AndDoubled(a, Pow2(k - 1));
    }
  }

  lemma AndDoubled(a: nat, m: nat)
    requires m >= 1
    ensures And(a, 2 * m - 1) == a % 2 + 2 * And(a / 2, m - 1)
  {
    hide And;
    AndUnfold(a, 2 * m - 1);
    assert (2 * m - 1) % 2 == 1 && (2 * m - 1) / 2 == m - 1;
  }

  lemma AndUnfold(a: nat, b: nat)
    ensures And(a, b) == a % 2 * (b % 2) + 2 * And(a / 2, b / 2)
  {
    if a == 0 {
      assert And(0, b / 2) == 0;
    }
  }

  lemma HalvedByte(b: Byte)
    ensures (b >> 1) as int == b as int / 2
    ensures b & 1 == 1 <==> b as int % 2 == 1
  {
  }

  lemma {:induction false} BitsValueRest(b: Byte, k: nat)
    ensures b as int < Pow2(k) ==> BitsValue(b, k) == b as int
  {
    if k == 0 {
    } else {
      HalvedByte(b);
      BitsValueRest(b >> 1, k - 1);
    }
  }

  // All eight bits of a byte are its value.
  lemma BitsValueIsByte(b: Byte)
    ensures BitsValue(b, 8) == b as int
  {
    BitsValueRest(b, 8);
    Pow2OfSixteen();
  }

  // u16::from_le_bytes reads the low byte first.
  lemma FromLittleEndianValue(lo: Byte, hi: Byte)
    ensures FromLittleEndian16(lo, hi) == Number(lo) + 256 * Number(hi)
  {
    BitsValueIsByte(lo);
    BitsValueIsByte(hi);
  }

  // n as u8 is the remainder modulo 256.
  lemma ToByteIsRemainder(n: nat)
    ensures ToByte(n) as int == n % 256
  {
    ToByteValue(n);
    BitsValueIsByte(ToByte(n));
    hide ToByte, BitsValue;
  }

  // The value of a byte.
  function Number(b: Byte): (n: nat)
    ensures n < 256
  {
    b as int
  }

  lemma NumberOfToByte(n: nat)
    ensures Number(ToByte(n)) == n % 256
  {
    ToByteIsRemainder(n);
  }

  lemma NumberInjective(a: Byte, b: Byte)
    requires Number(a) == Number(b)
    ensures a == b
  {
  }

  lemma NestedQuotients(n: nat)
    ensures n / 256 / 256 == n / 65536 && n / 65536 / 256 == n / 16777216
  {
  }

  // u32::to_le_bytes writes the four digits of n to base 256, lowest first.
  lemma LittleEndian32Digits(n: nat)
    requires n < 0x1_0000_0000
    ensures var b := LittleEndian32(n);
      n == Number(b[0]) + 256 * (Number(b[1]) + 256 * (Number(b[2]) + 256 * Number(b[3])))
  {
    hide ToByte, Number;
    NumberOfToByte(n);
    NumberOfToByte(n / 256);
    NumberOfToByte(n / 65536);
    NumberOfToByte(n / 16777216);
    NestedQuotients(n);
    Digit(n);
    Digit(n / 256);
    Digit(n / 65536);
    TopDigit(n);
  }

  lemma Digit(n: nat)
    ensures n == n % 256 + 256 * (n / 256)
  {
  }

  lemma TopDigit(n: nat)
    requires n < 0x1_0000_0000
    ensures n / 16777216 % 256 == n / 16777216
  {
    assert n / 16777216 < 256;
  }

  lemma DigitAppended(d: nat, m: nat)
    requires d < 256
    ensures (d + 256 * m) % 256 == d && (d + 256 * m) / 256 == m
  {
  }

  lemma ByteOfDigit(b: Byte, m: nat)
    ensures ToByte(Number(b) + 256 * m) == b && (Number(b) + 256 * m) / 256 == m
  {
    hide ToByte, Number;
    NumberOfToByte(Number(b) + 256 * m);
    DigitAppended(Number(b), m);
    NumberInjective(ToByte(Number(b) + 256 * m), b);
  }

  // Every string of four bytes is a 32-bit word.
  lemma LittleEndian32Onto(b: Bytes) returns (n: nat)
    requires |b| == 4
    ensures n < 0x1_0000_0000 && LittleEndian32(n) == b
  {
    hide ToByte, Number;
    var d3: nat := Number(b[3]);
    var d2: nat := Number(b[2]) + 256 * d3;
    var d1: nat := Number(b[1]) + 256 * d2;
    n := Number(b[0]) + 256 * d1;
    ByteOfDigit(b[0], d1);
    ByteOfDigit(b[1], d2);
    ByteOfDigit(b[2], d3);
    ByteOfDigit(b[3], 0);
    NestedQuotients(n);
  }

  // Exclusive or of numbers is exclusive or of their bits.
  lemma {:induction false} LowBitsXor(a: nat, b: nat, k: nat)
    ensures LowBits(Xor(a, b), k) == LowBits(a, k) ^ LowBits(b, k)
  {
    if k == 0 {
    } else {
      LowBitsXor(a / 2, b / 2, k - 1);
      XorUnfold(a, b);
      var u, v := LowBits(a / 2, k - 1), LowBits(b / 2, k - 1);
      ShiftXor(u, v);
    }
  }

  lemma XorUnfold(a: nat, b: nat)
    ensures Xor(a, b) % 2 == (if a % 2 == b % 2 then 0 else 1)
    ensures Xor(a, b) / 2 == Xor(a / 2, b / 2)
  {
  }

  lemma ShiftXor(u: Byte, v: Byte)
    ensures ((u ^ v) << 1) | 0 == ((u << 1) | 0) ^ ((v << 1) | 0)
    ensures ((u ^ v) << 1) | 0 == ((u << 1) | 1) ^ ((v << 1) | 1)
    ensures ((u ^ v) << 1) | 1 == ((u << 1) | 1) ^ ((v << 1) | 0)
    ensures ((u ^ v) << 1) | 1 == ((u << 1) | 0) ^ ((v << 1) | 1)
  {
  }

  // u16::to_le_bytes likewise.
  lemma LittleEndian16Digits(n: nat)
    requires n < 65536
    ensures n == Number(LittleEndian16(n)[0]) + 256 * Number(LittleEndian16(n)[1])
  {
    hide ToByte, Number;
    NumberOfToByte(n);
    NumberOfToByte(n / 256);
    Digit(n);
    assert n / 256 < 256;
  }
}
