// Byte strings: exclusive or, fixed-size slots, concatenation.
module ByteStrings {
  import opened Words

  datatype Option<+T> = None | Some(value: T)

  function Zeros(n: nat): (z: Bytes)
    ensures |z| == n
  {
    seq(n, _ => 0)
  }

  // Byte k of a string, 0 behind its end.
  ghost function ByteAt(b: Bytes, k: nat): Byte {
    if k < |b| then b[k] else 0
  }

  function XorBytes(a: Bytes, b: Bytes): (c: Bytes)
    requires |a| == |b|
    ensures |c| == |a|
  {
    seq(|a|, i requires 0 <= i < |a| => XorByte(a[i], b[i]))
  }

  lemma XorBytesCommutes(a: Bytes, b: Bytes)
    requires |a| == |b|
    ensures XorBytes(a, b) == XorBytes(b, a)
  {
    hide XorByte;
    forall i | 0 <= i < |a|
      ensures XorBytes(a, b)[i] == XorBytes(b, a)[i]
    {
      XorByteFacts(a[i], b[i]);
    }
  }

  lemma XorBytesAssociates(a: Bytes, b: Bytes, c: Bytes)
    requires |a| == |b| == |c|
    ensures XorBytes(XorBytes(a, b), c) == XorBytes(a, XorBytes(b, c))
  {
    hide XorByte;
    forall i | 0 <= i < |a|
      ensures XorBytes(XorBytes(a, b), c)[i] == XorBytes(a, XorBytes(b, c))[i]
    {
      XorByteAssociates(a[i], b[i], c[i]);
    }
  }

  lemma XorBytesIdentity(a: Bytes)
    ensures XorBytes(a, Zeros(|a|)) == a == XorBytes(Zeros(|a|), a)
    ensures XorBytes(a, a) == Zeros(|a|)
  {
    hide XorByte;
    forall i | 0 <= i < |a|
      ensures XorByte(a[i], 0) == a[i] == XorByte(0, a[i]) && XorByte(a[i], a[i]) == 0
    {
      XorByteFacts(a[i], a[i]);
    }
  }

  // b twice cancels.
  lemma XorBytesCancels(a: Bytes, b: Bytes)
    requires |a| == |b|
    ensures XorBytes(XorBytes(a, b), b) == a
    ensures XorBytes(b, XorBytes(b, a)) == a
    ensures XorBytes(b, XorBytes(a, b)) == a
  {
    XorBytesAssociates(a, b, b);
    XorBytesAssociates(b, b, a);
    XorBytesIdentity(b);
    XorBytesIdentity(a);
    XorBytesCommutes(a, b);
  }

  lemma XorBytesSlice(a: Bytes, b: Bytes, lo: nat, hi: nat)
    requires |a| == |b| && lo <= hi <= |a|
    ensures XorBytes(a, b)[lo..hi] == XorBytes(a[lo..hi], b[lo..hi])
  {
    hide XorByte;
  }

  // xor_bytes: refuses unequal lengths and leaves the destination alone.
  method XorInto(destination: array<Byte>, source: Bytes) returns (ok: bool)
    modifies destination
    ensures ok == (destination.Length == |source|)
    ensures ok ==> destination[..] == XorBytes(old(destination[..]), source)
    ensures !ok ==> destination[..] == old(destination[..])
  {
    if destination.Length != |source| {
      return false;
    }
    hide XorByte;
    ghost var before := destination[..];
    for i := 0 to destination.Length
      invariant forall k :: 0 <= k < i ==> destination[k] == XorByte(before[k], source[k])
      invariant forall k :: i <= k < destination.Length ==> destination[k] == before[k]
    {
      destination[i] := XorByte(destination[i], source[i]);
    }
    return true;
  }

  // `after` is `before` with x written at the given offset.
  ghost predicate Replaces(before: Bytes, after: Bytes, at: nat, x: Bytes) {
    at + |x| <= |before| && after == before[..at] + x + before[at + |x|..]
  }

  lemma ReplacesNext(before: Bytes, now: Bytes, at: nat, x: Bytes, i: nat)
    requires i < |x| && at + |x| <= |before| && Replaces(before, now, at, x[..i])
    ensures |now| == |before| && Replaces(before, now[at + i := x[i]], at, x[..i + 1])
  {
  }

  // copy_from_slice
  method CopyInto(destination: array<Byte>, at: nat, source: Bytes)
    requires at + |source| <= destination.Length
    modifies destination
    ensures destination[..] == old(destination[..at]) + source + old(destination[at + |source|..])
  {
    ghost var before := destination[..];
    assert Replaces(before, before, at, source[..0]);
    for i := 0 to |source|
      invariant Replaces(before, destination[..], at, source[..i])
    {
      hide Replaces;
      ghost var now := destination[..];
      destination[at + i] := source[i];
      ReplacesNext(before, now, at, source, i);
    }
  }

  // -------------------------------------------------------------------------
  // Concatenation of n pieces
  // -------------------------------------------------------------------------

  ghost function Concat(n: nat, f: nat -> Bytes): Bytes {
    if n == 0 then [] else Concat(n - 1, f) + f(n - 1)
  }

  // A string continued by one more piece.
  lemma ConcatNext(start: Bytes, n: nat, f: nat -> Bytes)
    ensures start + Concat(n, f) + f(n) == start + Concat(n + 1, f)
  {
    assert (start + Concat(n, f)) + f(n) == start + (Concat(n, f) + f(n));
  }

  lemma ConcatNothing(start: Bytes, f: nat -> Bytes)
    ensures start + Concat(0, f) == start
  {
  }

  // Piece m fits behind the pieces before it.
  lemma {:induction false} PieceFits(m: nat, n: nat, f: nat -> Bytes)
    requires m < n
    ensures |Concat(m, f)| + |f(m)| <= |Concat(n, f)|
    ensures Concat(m + 1, f) == Concat(m, f) + f(m)
  {
    if m == n - 1 {
    } else {
      PieceFits(m, n - 1, f);
    }
  }

  lemma {:induction false} ConcatsEqual(n: nat, f: nat -> Bytes, g: nat -> Bytes)
    requires forall i: nat :: i < n ==> f(i) == g(i)
    ensures Concat(n, f) == Concat(n, g)
  {
    if n == 0 {
    } else {
      ConcatsEqual(n - 1, f, g);
    }
  }

  lemma {:induction false} ConcatLength(n: nat, size: nat, f: nat -> Bytes)
    requires forall i: nat :: i < n ==> |f(i)| == size
    ensures |Concat(n, f)| == n * size
  {
    if n == 0 {
    } else {
      ConcatLength(n - 1, size, f);
      assert n * size == (n - 1) * size + size;
    }
  }

  lemma {:induction false} SlotBounds(n: nat, size: nat, k: nat)
    requires k < n
    ensures k * size + size <= n * size
    ensures (k + 1) * size == k * size + size
  {
    assert n * size == (n - 1) * size + size;
    if k == n - 1 {
    } else {
      SlotBounds(n - 1, size, k);
    }
  }

  // chunks_exact: piece k of the pieces of the given size.
  function Piece(b: Bytes, size: nat, k: nat): Bytes {
    if k * size + size <= |b| then b[k * size..k * size + size] else []
  }

  lemma PieceSized(b: Bytes, n: nat, size: nat, k: nat)
    requires |b| == n * size && k < n
    ensures |Piece(b, size, k)| == size
  {
    SlotBounds(n, size, k);
  }

  lemma PieceAt(b: Bytes, n: nat, size: nat, k: nat, i: nat)
    requires |b| == n * size && k < n && i < size
    ensures |Piece(b, size, k)| == size && k * size + i < |b| && Piece(b, size, k)[i] == b[k * size + i]
  {
    SlotBounds(n, size, k);
  }

  // Strings with equal pieces are equal.
  lemma PiecesDetermine(a: Bytes, b: Bytes, n: nat, size: nat)
    requires |a| == |b| == n * size && forall k: nat :: k < n ==> Piece(a, size, k) == Piece(b, size, k)
    ensures a == b
  {
    var f := (k: nat) => Piece(a, size, k);
    hide Piece;
    PiecesAreConcat(a, n, size, f);
    PiecesAreConcat(b, n, size, f);
  }

  // Slot k of pieces of equal size holds piece k.
  lemma {:induction false} ConcatSlot(n: nat, size: nat, f: nat -> Bytes, k: nat)
    requires k < n && forall i: nat :: i < n ==> |f(i)| == size
    ensures |Concat(n, f)| == n * size && k * size + size <= n * size
    ensures Concat(n, f)[k * size..k * size + size] == f(k)
  {
    ConcatLength(n, size, f);
    ConcatLength(n - 1, size, f);
    SlotBounds(n, size, k);
    if k == n - 1 {
    } else {
      ConcatSlot(n - 1, size, f, k);
      var c := Concat(n - 1, f);
      assert (c + f(n - 1))[k * size..k * size + size] == c[k * size..k * size + size];
    }
  }

  lemma SliceOfPrefix(s: Bytes, m: nat, at: nat, size: nat)
    requires at + size <= m <= |s|
    ensures s[..m][at..at + size] == s[at..at + size]
  {
  }

  lemma PieceOfPrefix(s: Bytes, m: nat, size: nat, k: nat)
    requires k * size + size <= m <= |s|
    ensures Piece(s[..m], size, k) == Piece(s, size, k)
  {
    SliceOfPrefix(s, m, k * size, size);
  }

  lemma LastPiece(s: Bytes, m: nat, size: nat, k: nat)
    requires m == k * size && |s| == m + size
    ensures s == s[..m] + Piece(s, size, k)
  {
  }

  // A string whose pieces are given is their concatenation.
  lemma {:induction false} PiecesAreConcat(s: Bytes, n: nat, size: nat, f: nat -> Bytes)
    requires |s| == n * size && forall k: nat :: k < n ==> Piece(s, size, k) == f(k)
    ensures s == Concat(n, f)
    decreases n
  {
    hide Piece;
    if n == 0 {
    } else {
      var m := (n - 1) * size;
      SlotBounds(n, size, n - 1);
      forall k: nat | k < n - 1
        ensures Piece(s[..m], size, k) == f(k)
      {
        SlotBounds(n - 1, size, k);
        PieceOfPrefix(s, m, size, k);
      }
      PiecesAreConcat(s[..m], n - 1, size, f);
      LastPiece(s, m, size, n - 1);
    }
  }
}
