// src/field.rs, unpack_gf16 and pack_gf16: two GF(16) elements in a byte, low nibble first.
module Packing {
  import opened Words
  import opened ByteStrings
  import opened BaseFields
  import B = BinaryFields

  function HighNibble(b: Byte): Gf16 {
    NewGf16(b >> 4)
  }

  // Element i of a packed vector.
  function Nibble(bytes: Bytes, i: nat): Gf16
    requires i / 2 < |bytes|
  {
    if i % 2 == 0 then NewGf16(bytes[i / 2]) else HighNibble(bytes[i / 2])
  }

  ghost function Unpacked(bytes: Bytes, n: nat): (v: seq<Gf16>)
    requires |bytes| == (n + 1) / 2
    ensures |v| == n
  {
    seq(n, i requires 0 <= i < n => Nibble(bytes, i))
  }

  function TwoNibbles(lo: Gf16, hi: Gf16): Byte {
    lo | (hi << 4)
  }

  ghost function Packed(v: seq<Gf16>): (bytes: Bytes)
    ensures |bytes| == (|v| + 1) / 2
  {
    seq((|v| + 1) / 2, k requires 0 <= k < (|v| + 1) / 2 =>
      if 2 * k + 1 < |v| then TwoNibbles(v[2 * k], v[2 * k + 1]) else v[2 * k])
  }

  method UnpackGf16(bytes: Bytes, output: array<Gf16>) returns (ok: bool)
    modifies output
    ensures ok == (|bytes| == (output.Length + 1) / 2)
    ensures ok ==> output[..] == Unpacked(bytes, output.Length)
    ensures !ok ==> output[..] == old(output[..])
  {
    var required := (output.Length + 1) / 2;
    if |bytes| != required {
      return false;
    }
    for index := 0 to output.Length
      invariant forall k :: 0 <= k < index ==> output[k] == Nibble(bytes, k)
    {
      if index % 2 == 0 {
        output[index] := NewGf16(bytes[index / 2]);
      } else {
        output[index] := NewGf16(bytes[index / 2] >> 4);
      }
    }
    return true;
  }

  method PackGf16(elements: seq<Gf16>, output: array<Byte>) returns (ok: bool)
    modifies output
    ensures ok == (output.Length == (|elements| + 1) / 2)
    ensures ok ==> output[..] == Packed(elements)
    ensures !ok ==> output[..] == old(output[..])
  {
    var required := (|elements| + 1) / 2;
    if output.Length != required {
      return false;
    }
    for k := 0 to output.Length
      invariant forall j :: 0 <= j < k ==> output[j] == 0
    {
      output[k] := 0;
    }
    for index := 0 to |elements|
      invariant forall k :: 0 <= k < index / 2 ==> output[k] == TwoNibbles(elements[2 * k], elements[2 * k + 1])
      invariant index % 2 == 1 ==> output[index / 2] == elements[index - 1]
      invariant forall k :: (index + 1) / 2 <= k < output.Length ==> output[k] == 0
    {
      if index % 2 == 0 {
        output[index / 2] := output[index / 2] | elements[index];
        OrZero(elements[index]);
      } else {
        output[index / 2] := output[index / 2] | (elements[index] << 4);
      }
    }
    assert output[..] == Packed(elements);
    return true;
  }

  lemma OrZero(a: Byte)
    ensures 0 | a == a
  {
  }

  lemma NibblesOfByte(lo: Gf16, hi: Gf16, b: Byte)
    ensures NewGf16(TwoNibbles(lo, hi)) == lo && HighNibble(TwoNibbles(lo, hi)) == hi && NewGf16(lo) == lo
    ensures TwoNibbles(NewGf16(b), HighNibble(b)) == b
  {
  }

  // Unpacking undoes packing, for every length.
  lemma UnpackPacked(v: seq<Gf16>)
    ensures Unpacked(Packed(v), |v|) == v
  {
    forall i | 0 <= i < |v|
      ensures Nibble(Packed(v), i) == v[i]
    {
      var k := i / 2;
      NibblesOfByte(v[2 * k], if 2 * k + 1 < |v| then v[2 * k + 1] else 0, 0);
    }
  }

  lemma PackUnpackedAt(bytes: Bytes, n: nat, k: nat)
    requires |bytes| == (n + 1) / 2 && k < |bytes|
    ensures Packed(Unpacked(bytes, n))[k] == if 2 * k + 1 < n then bytes[k] else NewGf16(bytes[k])
  {
    hide TwoNibbles, NewGf16, HighNibble;
    NibblesOfByte(0, 0, bytes[k]);
    var u := Unpacked(bytes, n);
    assert u[2 * k] == NewGf16(bytes[k]);
    if 2 * k + 1 < n {
      assert u[2 * k + 1] == HighNibble(bytes[k]);
      assert Packed(u)[k] == TwoNibbles(u[2 * k], u[2 * k + 1]);
    } else {
      assert Packed(u)[k] == u[2 * k];
    }
  }

  // Packing undoes unpacking, except that it clears the unused high nibble.
  lemma PackUnpacked(bytes: Bytes, n: nat)
    requires |bytes| == (n + 1) / 2
    ensures n % 2 == 0 ==> Packed(Unpacked(bytes, n)) == bytes
    ensures n % 2 == 1 ==> Packed(Unpacked(bytes, n)) == bytes[..n / 2] + [NewGf16(bytes[n / 2])]
  {
    hide Packed, NewGf16;
    forall k | 0 <= k < |bytes|
      ensures Packed(Unpacked(bytes, n))[k] == if 2 * k + 1 < n then bytes[k] else NewGf16(bytes[k])
    {
      PackUnpackedAt(bytes, n, k);
    }
  }

  // Unpacking commutes with exclusive or.
  lemma NibbleXor(a: Bytes, b: Bytes, i: nat)
    requires |a| == |b| && i / 2 < |a|
    ensures Nibble(XorBytes(a, b), i) == B.Add(Nibble(a, i), Nibble(b, i))
  {
    hide NewGf16, HighNibble;
    var x, y := a[i / 2], b[i / 2];
    assert XorBytes(a, b)[i / 2] == XorByte(x, y);
    assert XorByte(x, y) == B.Add(x, y);
    hide B.Add, XorByte;
    NibbleXorOfByte(x, y);
  }

  lemma NibbleXorOfByte(a: Byte, b: Byte)
    ensures NewGf16(B.Add(a, b)) == B.Add(NewGf16(a), NewGf16(b))
    ensures HighNibble(B.Add(a, b)) == B.Add(HighNibble(a), HighNibble(b))
  {
    assert (a ^ b) & 0x0f == (a & 0x0f) ^ (b & 0x0f);
    assert ((a ^ b) >> 4) & 0x0f == ((a >> 4) & 0x0f) ^ ((b >> 4) & 0x0f);
  }
}
