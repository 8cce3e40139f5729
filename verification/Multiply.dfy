/** Schoolbook multiplication in place (bignum.c: mpi_mul_hlp, mpi_mul_mpi, mpi_mul_int). */
module Multiply {
  import opened Arith
  import opened Limbs
  import opened Bignum
  import opened AddSub

  /** MULADDC_CORE: the double-width sum s*b + d + c never overflows two limbs. */
  lemma MulAddCore(x: Limb, b: Limb, d: Limb, c: Limb)
    ensures
      var t := x * b + d + c;
      0 <= t && t / BASE < BASE && t == t % BASE + BASE * (t / BASE)
  {
    MulNonNeg(x, b);
    MulMono(x, b, BASE - 1);
    DivLess(x * b + d + c, BASE, BASE);
  }

  lemma MulAddStep(P: nat, Q: nat, R: nat, v: nat, w: nat, u: nat, u': nat, b: nat, c: nat, x: nat, d: nat, y: nat, c': nat)
    requires R == Q * P && u' == u + P * x
    requires v + R * c == w + Q * (b * u) && x * b + d + c == y + BASE * c'
    ensures (v + R * (y - d)) + (BASE * R) * c' == w + Q * (b * u')
  {
    calc {
      R * (y - d) + (BASE * R) * c';
      R * (y - d + BASE * c');
      R * (x * b + c);
      R * (x * b) + R * c;
    }
    assert R * (x * b) == Q * (P * (x * b));
    assert P * (x * b) == b * (P * x);
    assert Q * (b * (u + P * x)) == Q * (b * u) + Q * (b * (P * x)) by {
      assert b * (u + P * x) == b * u + b * (P * x);
    }
  }

  ghost predicate MulInvariant(p: seq<Limb>, p0: seq<Limb>, s: seq<Limb>, off: nat, k: nat, b: Limb, c: nat)
    requires k <= |s|
  {
    c < BASE && Nat(p) + Pow(off + k) * c == Nat(p0) + Pow(off) * (b * Nat(s[..k]))
  }

  lemma MulLimb(p: seq<Limb>, p0: seq<Limb>, s: seq<Limb>, off: nat, k: nat, b: Limb, c: nat, y: Limb, c': nat)
    requires k < |s| && off + k < |p| && MulInvariant(p, p0, s, off, k, b, c)
    requires s[k] * b + p[off + k] + c == y + BASE * c' && c' < BASE
    ensures MulInvariant(p[off + k := y], p0, s, off, k + 1, b, c')
  {
    hide Nat, Pow;
    NatUpdate(p, off + k, y);
    NatSnoc(s, k);
    var P, Q, R, R' := Pow(k), Pow(off), Pow(off + k), Pow(off + (k + 1));
    assert R' == BASE * R && R == Q * P by {
      PowNext(off + k);
      PowAdd(off, k);
    }
    MulAddStep(P, Q, R, Nat(p), Nat(p0), Nat(s[..k]), Nat(s[..k + 1]), b, c, s[k], p[off + k], y, c');
  }

  lemma MulStart(p: seq<Limb>, s: seq<Limb>, off: nat, b: Limb)
    ensures MulInvariant(p, p, s, off, 0, b, 0)
  {
    assert s[..0] == [];
    assert Pow(off) * (b * 0) == 0;
  }

  /** d[off..] += s[0..i] * b, the source buffer being disjoint from d. */
  method MulHlp(i: nat, s: seq<Limb>, D: Mpi, off: nat, b: Limb)
    requires i <= |s| && off + i < |D.p|
    requires Nat(D.p) + Pow(off) * (b * Nat(s[..i])) < Pow(|D.p|)
    modifies D
    ensures D.s == old(D.s) && |D.p| == |old(D.p)|
    ensures Nat(D.p) == old(Nat(D.p)) + Pow(off) * (b * Nat(s[..i]))
    ensures forall k :: 0 <= k < off ==> D.p[k] == old(D.p)[k]
  {
    hide Nat, Pow;
    ghost var p0 := D.p;
    var c, k := 0, 0;
    MulStart(p0, s, off, b);
    while k < i
      invariant 0 <= k <= i && |D.p| == |p0| && D.s == old(D.s) && 0 <= c < BASE
      invariant MulInvariant(D.p, p0, s, off, k, b, c)
      invariant forall k :: 0 <= k < off ==> D.p[k] == p0[k]
    {
      ghost var p1, c1 := D.p, c;
      MulAddCore(s[k], b, D.p[off + k], c);
      var t := s[k] * b + D.p[off + k] + c;
      D.p := D.p[off + k := t % BASE];
      c := t / BASE;
      MulLimb(p1, p0, s, off, k, b, c1, t % BASE, c);
      k := k + 1;
    }
    MulCarry(D, off + i, c);
  }

  lemma WrapAdd(x: Limb, c: Limb)
    ensures
      var y := (x + c) % BASE;
      x + c == y + BASE * (if y < c then 1 else 0)
  {
  }

  lemma CarryFits(p: seq<Limb>, i: nat, c: nat)
    requires i <= |p| && c > 0 && Nat(p) + Pow(i) * c < Pow(|p|)
    ensures i < |p|
  {
    hide Nat, Pow;
    MulMono(Pow(i), 1, c);
  }

  method MulCarry(D: Mpi, j: nat, c0: Limb)
    requires j < |D.p| && Nat(D.p) + Pow(j) * c0 < Pow(|D.p|)
    modifies D
    ensures D.s == old(D.s) && |D.p| == |old(D.p)|
    ensures Nat(D.p) == old(Nat(D.p)) + Pow(j) * c0
    ensures forall k :: 0 <= k < j ==> D.p[k] == old(D.p)[k]
  {
    hide Nat, Pow;
    ghost var p0, T := D.p, Nat(D.p) + Pow(j) * c0;
    var i, c := j, c0;
    var first := true;
    while first || c != 0   // do ... while( c != 0 )
      invariant j <= i <= |D.p| == |p0| && D.s == old(D.s) && 0 <= c < BASE
      invariant first ==> i == j
      invariant Nat(D.p) + Pow(i) * c == T
      invariant forall k :: 0 <= k < j ==> D.p[k] == p0[k]
      decreases |p0| + 1 - i
    {
      ghost var p1 := D.p;
      if c > 0 { CarryFits(p1, i, c); }
      WrapAdd(D.p[i], c);
      var y := (D.p[i] + c) % BASE;
      var c' := if y < c then 1 else 0;
      NatUpdate(p1, i, y);
      PowNext(i);
      CarryOn(Pow(i), Nat(p1), p1[i], y, c, c');
      D.p := D.p[i := y];
      i, c, first := i + 1, c', false;
    }
    CarryDone(Nat(D.p), Pow(i));
  }

  /** The partial product from limb j upwards: it fits, and the next row extends it. */
  lemma NextRow(a: nat, i: nat, t: seq<Limb>, j: nat, n: nat)
    requires a < Pow(i) && 0 < j <= |t| && i + |t| <= n
    ensures Pow(j) * (a * Nat(t[j..])) + Pow(j - 1) * (t[j - 1] * a) == Pow(j - 1) * (a * Nat(t[j - 1..]))
    ensures Pow(j - 1) * (a * Nat(t[j - 1..])) < Pow(n)
  {
    hide Nat, Pow;
    NatCons(t, j - 1);
    PowNext(j - 1);
    RowStep(Pow(j - 1), a, Nat(t[j..]), t[j - 1]);
    NatSplit(t, j - 1);
    NatBound(t);
    RowFits(a, Pow(i), Pow(j - 1), Nat(t[j - 1..]), Nat(t), Pow(|t|));
    PowAdd(i, |t|);
    PowMono(i + |t|, n);
  }

  lemma RowStep(P: nat, a: nat, h: nat, x: nat)
    ensures (BASE * P) * (a * h) + P * (x * a) == P * (a * (x + BASE * h))
  {
    assert a * (x + BASE * h) == x * a + BASE * (a * h);
    assert P * (x * a + BASE * (a * h)) == P * (x * a) + (BASE * P) * (a * h);
  }

  lemma RowFits(a: nat, A: nat, P: nat, h: nat, v: nat, V: nat)
    requires a < A && P * h <= v < V
    ensures P * (a * h) < A * V
  {
    assert P * (a * h) == a * (P * h);
    MulMono(a, P * h, v);
    MulMono(a, v, V);
    MulMono(V, a + 1, A);
    assert V * (a + 1) == a * V + V;
  }

  /** X = A * B for distinct buffers: rows are added from the most significant limb of B down. */
  method MulRows(X: Mpi, A: Mpi, B: Mpi, i: nat, j0: nat)
    requires X != A && X != B && i <= |A.p| && j0 <= |B.p| && i + j0 <= |X.p| && 1 <= |X.p|
    requires Nat(A.p) < Pow(i) && Nat(B.p) < Pow(j0) && Nat(X.p) == 0
    modifies X
    ensures X.s == old(X.s) && |X.p| == |old(X.p)|
    ensures Nat(X.p) == Nat(A.p) * Nat(B.p)
  {
    hide Nat, Pow;
    ghost var a, t := Nat(A.p), B.p[..j0];
    NatHigh(A.p, i);
    NatHigh(B.p, j0);
    var j := j0;
    assert t[j..] == [];
    NatZero(t[j..]);
    ZeroRow(Pow(j), a);
    while j > 0
      invariant 0 <= j <= j0 && |X.p| == |old(X.p)| && X.s == old(X.s)
      invariant Nat(X.p) == Pow(j) * (a * Nat(t[j..]))
    {
      NextRow(a, i, t, j, |X.p|);
      MulHlp(i, A.p, X, j - 1, B.p[j - 1]);
      j := j - 1;
    }
    assert t[0..] == t;
    PowNext(0);
  }

  lemma ZeroRow(P: nat, a: nat)
    ensures P * (a * 0) == 0
  {
  }

  lemma SignedProduct(sa: int, sb: int, a: nat, b: nat)
    requires (sa == 1 || sa == -1) && (sb == 1 || sb == -1)
    ensures (if sa < 0 then 0 - a else a) * (if sb < 0 then 0 - b else b) == if sa * sb < 0 then 0 - a * b else a * b
    ensures sa * sb == 1 || sa * sb == -1
  {
  }

  /** if( X == A ) { mpi_copy( &TA, A ); A = &TA; } */
  method CopyIfAliased(X: Mpi, A: Mpi) returns (A': Mpi)
    requires A.Valid()
    ensures A' != X && A'.Valid() && A'.Val() == A.Val() && Nat(A'.p) == Nat(A.p)
    ensures |A.p| > 0 ==> A'.s == A.s
    ensures if X == A then fresh(A') else A' == A
  {
    A' := A;
    if X == A {
      NatEmpty(A.p);
      A' := new Mpi();
      A'.Copy(A);
    }
  }

  /** X = A * B, under every aliasing. */
  method MulMpi(X: Mpi, A: Mpi, B: Mpi)
    requires A.Valid() && B.Valid()
    modifies X
    ensures X.Valid() && X.Val() == old(A.Val()) * old(B.Val())
    ensures Nat(X.p) == old(Nat(A.p)) * old(Nat(B.p))
    ensures |old(A.p)| > 0 && |old(B.p)| > 0 ==> X.s == old(A.s) * old(B.s)
    ensures |X.p| >= |old(X.p)| && |X.p| >= 1
  {
    hide Nat, Pow, Len;
    ghost var a, b := Nat(A.p), Nat(B.p);
    var A' := CopyIfAliased(X, A);
    var B' := CopyIfAliased(X, B);
    var i := HighLimb(A'.p);
    var j := HighLimb(B'.p);
    LenBounds(a);
    LenBounds(b);
    X.Grow(i + j);
    X.Lset(0);
    MulRows(X, A', B', i, j);
    SignedProduct(A'.s, B'.s, a, b);
    X.s := A'.s * B'.s;
  }

  /** X = A * b, the argument being taken as unsigned. */
  method MulInt(X: Mpi, A: Mpi, b: Limb)
    requires A.Valid()
    modifies X
    ensures X.Valid() && X.Val() == old(A.Val()) * b
    ensures Nat(X.p) == old(Nat(A.p)) * b
    ensures |old(A.p)| > 0 ==> X.s == old(A.s)
    ensures |X.p| >= |old(X.p)| && |X.p| >= 1
  {
    NatOne(b);
    var B := new Mpi.OnStack(1, b);
    MulMpi(X, A, B);
  }
}
