// Finite sums, vectors and dot products over the extension field.
module LinearAlgebra {
  import opened ExtensionField

  type Vector = seq<Ext>

  // f(0) + ... + f(n - 1)
  ghost function Sum(n: nat, f: nat -> Ext): Ext {
    if n == 0 then ZERO else Add(Sum(n - 1, f), f(n - 1))
  }

  lemma {:induction false} SumsEqual(n: nat, f: nat -> Ext, g: nat -> Ext)
    requires forall i: nat :: i < n ==> f(i) == g(i)
    ensures Sum(n, f) == Sum(n, g)
  {
    hide Add;
    if n == 0 {
    } else {
      SumsEqual(n - 1, f, g);
    }
  }

  lemma {:induction false} SumAdd(n: nat, f: nat -> Ext, g: nat -> Ext, h: nat -> Ext)
    requires forall i: nat :: i < n ==> h(i) == Add(f(i), g(i))
    ensures Sum(n, h) == Add(Sum(n, f), Sum(n, g))
  {
    AddIdentity(ZERO);
    hide Add;
    if n == 0 {
    } else {
      SumAdd(n - 1, f, g, h);
      AddExchanges(Sum(n - 1, f), Sum(n - 1, g), f(n - 1), g(n - 1));
    }
  }

  lemma {:induction false} SumScale(n: nat, c: Ext, f: nat -> Ext, h: nat -> Ext)
    requires forall i: nat :: i < n ==> h(i) == Mul(c, f(i))
    ensures Sum(n, h) == Mul(c, Sum(n, f))
  {
    hide Add, Mul;
    if n == 0 {
      MulIdentity(c);
    } else {
      SumScale(n - 1, c, f, h);
      MulDistributes(c, Sum(n - 1, f), f(n - 1));
    }
  }

  lemma {:induction false} SumOfZeros(n: nat, f: nat -> Ext)
    requires forall i: nat :: i < n ==> f(i) == ZERO
    ensures Sum(n, f) == ZERO
  {
    AddIdentity(ZERO);
    hide Add;
    if n == 0 {
    } else {
      SumOfZeros(n - 1, f);
    }
  }

  // Two sums whose terms differ at k alone.
  lemma {:induction false} SumChangedAt(n: nat, k: nat, d: Ext, f: nat -> Ext, g: nat -> Ext)
    requires k < n && g(k) == Add(f(k), d)
    requires forall i: nat :: i < n && i != k ==> g(i) == f(i)
    ensures Sum(n, g) == Add(Sum(n, f), d)
  {
    hide Add;
    if k == n - 1 {
      SumsEqual(k, f, g);
      AddAssociates(Sum(k, f), f(k), d);
    } else {
      SumChangedAt(n - 1, k, d, f, g);
      var s, e := Sum(n - 1, f), f(n - 1);
      AddAssociates(s, d, e);
      AddCommutes(d, e);
      AddAssociates(s, e, d);
    }
  }

  // Terms past m that are zero may be dropped.
  lemma {:induction false} SumTruncates(n: nat, m: nat, f: nat -> Ext)
    requires m <= n && forall i: nat :: m <= i < n ==> f(i) == ZERO
    ensures Sum(n, f) == Sum(m, f)
  {
    hide Add;
    if m == n {
    } else {
      SumTruncates(n - 1, m, f);
      AddIdentity(Sum(n - 1, f));
    }
  }

  // -------------------------------------------------------------------------
  // Vectors
  // -------------------------------------------------------------------------

  ghost function VectorAdd(x: Vector, y: Vector): (z: Vector)
    requires |x| == |y|
    ensures |z| == |x|
  {
    seq(|x|, i requires 0 <= i < |x| => Add(x[i], y[i]))
  }

  ghost function VectorScale(c: Ext, x: Vector): (z: Vector)
    ensures |z| == |x|
  {
    seq(|x|, i requires 0 <= i < |x| => Mul(c, x[i]))
  }

  ghost function At(x: Vector, i: nat): Ext {
    if i < |x| then x[i] else ZERO
  }

  ghost function DotTerms(x: Vector, y: Vector): nat -> Ext {
    (i: nat) => Mul(At(x, i), At(y, i))
  }

  ghost function Dot(x: Vector, y: Vector): Ext {
    Sum(|x|, DotTerms(x, y))
  }

  lemma DotCommutes(x: Vector, y: Vector)
    requires |x| == |y|
    ensures Dot(x, y) == Dot(y, x)
  {
    hide Mul;
    forall i: nat {
      MulCommutes(At(x, i), At(y, i));
    }
    SumsEqual(|x|, DotTerms(x, y), DotTerms(y, x));
  }

  lemma DotAddLeft(x: Vector, y: Vector, z: Vector)
    requires |x| == |y| == |z|
    ensures Dot(VectorAdd(x, y), z) == Add(Dot(x, z), Dot(y, z))
  {
    hide Mul, Add;
    var w := VectorAdd(x, y);
    forall i: nat | i < |x|
      ensures Mul(At(w, i), At(z, i)) == Add(Mul(At(x, i), At(z, i)), Mul(At(y, i), At(z, i)))
    {
      MulAdditiveLeft(x[i], y[i], z[i]);
    }
    SumAdd(|x|, DotTerms(x, z), DotTerms(y, z), DotTerms(w, z));
  }

  lemma DotScaleLeft(c: Ext, x: Vector, z: Vector)
    requires |x| == |z|
    ensures Dot(VectorScale(c, x), z) == Mul(c, Dot(x, z))
  {
    hide Mul, Add;
    var w := VectorScale(c, x);
    forall i: nat | i < |x|
      ensures Mul(At(w, i), At(z, i)) == Mul(c, Mul(At(x, i), At(z, i)))
    {
      MulAssociates(c, x[i], z[i]);
    }
    SumScale(|x|, c, DotTerms(x, z), DotTerms(w, z));
  }

  // Dot is linear in its first argument, hence in both.
  lemma DotLinear(x: Vector, c: Ext, y: Vector, z: Vector)
    requires |x| == |y| == |z|
    ensures Dot(VectorAdd(x, VectorScale(c, y)), z) == Add(Dot(x, z), Mul(c, Dot(y, z)))
    ensures Dot(z, VectorAdd(x, VectorScale(c, y))) == Add(Dot(z, x), Mul(c, Dot(z, y)))
  {
    hide Dot, Mul, Add, VectorAdd, VectorScale;
    DotAddLeft(x, VectorScale(c, y), z);
    DotScaleLeft(c, y, z);
    DotCommutes(z, VectorAdd(x, VectorScale(c, y)));
    DotCommutes(z, x);
    DotCommutes(z, y);
  }

  // -------------------------------------------------------------------------
  // Unit vectors
  // -------------------------------------------------------------------------

  ghost function Unit(n: nat, c: nat): (x: Vector)
    ensures |x| == n
  {
    seq(n, i requires 0 <= i < n => if i == c then ONE else ZERO)
  }

  // A sum with one term that is not zero.
  lemma {:induction false} SumSingle(n: nat, c: nat, f: nat -> Ext)
    requires c < n && forall i: nat :: i < n && i != c ==> f(i) == ZERO
    ensures Sum(n, f) == f(c)
  {
    hide Add;
    AddIdentity(f(c));
    if c == n - 1 {
      SumOfZeros(n - 1, f);
    } else {
      SumSingle(n - 1, c, f);
    }
  }

  // Dot with a unit vector reads one element.
  lemma DotUnit(x: Vector, c: nat)
    requires c < |x|
    ensures Dot(x, Unit(|x|, c)) == x[c] == Dot(Unit(|x|, c), x)
  {
    hide Mul;
    var u := Unit(|x|, c);
    forall i: nat | i < |x|
      ensures DotTerms(x, u)(i) == if i == c then x[c] else ZERO
    {
      MulIdentity(x[i]);
    }
    SumSingle(|x|, c, DotTerms(x, u));
    DotCommutes(x, u);
  }
}
