/** Signed and unsigned addition and subtraction in place (bignum.c: mpi_add_abs .. mpi_sub_int). */
module AddSub {
  import opened Arith
  import opened Limbs
  import opened Bignum
  import opened Bits

  // ---------- addition ----------

  lemma CarryStep(P: nat, v: nat, t: nat, u: nat, c: nat, x: Limb, o: Limb, y: Limb, c': nat)
    requires v + P * c == t + u && x + o + c == y + BASE * c'
    ensures (v + P * (y - x)) + (BASE * P) * c' == t + (u + P * o)
  {
    calc {
      P * (y - x) + (BASE * P) * c';
      P * (y - x + BASE * c');
      P * (o + c);
      P * o + P * c;
    }
  }

  /** One addition of the first loop: the two wrap-around tests add up to the carry. */
  lemma AddWithCarry(x: Limb, o: Limb, c: nat)
    requires c <= 1
    ensures
      var x1 := (x + c) % BASE;
      var c1 := if x1 < c then 1 else 0;
      var x2 := (x1 + o) % BASE;
      var c2 := c1 + (if x2 < o then 1 else 0);
      c2 <= 1 && x + o + c == x2 + BASE * c2
  {
  }

  /** What the addition loop leaves behind when the operand is the buffer being written. */
  function Doubled(s: seq<Limb>): (r: seq<Limb>)
    ensures |r| == |s|
  {
    seq(|s|, i requires 0 <= i < |s| => 2 * s[i] % BASE)
  }

  /** Adding a number to itself in place loses every carry: it is exact iff no limb has its top bit set. */
  lemma {:induction false} DoubledExact(s: seq<Limb>)
    ensures Nat(Doubled(s)) <= 2 * Nat(s)
    ensures Nat(Doubled(s)) == 2 * Nat(s) <==> forall i :: 0 <= i < |s| ==> 2 * s[i] < BASE
  {
    if |s| > 0 {
      var t := s[1..];
      DoubledExact(t);
      assert Doubled(s)[1..] == Doubled(t);
      assert Nat(Doubled(s)) == 2 * s[0] % BASE + BASE * Nat(Doubled(t));
      if forall i :: 0 <= i < |t| ==> 2 * t[i] < BASE {
        if 2 * s[0] < BASE {
          forall i | 0 <= i < |s| ensures 2 * s[i] < BASE { if i > 0 { assert s[i] == t[i - 1]; } }
        }
      } else {
        var i :| 0 <= i < |t| && 2 * t[i] >= BASE;
        assert s[i + 1] == t[i];
      }
    }
  }

  /** The concrete failure: doubling 2^31 in place gives 0. */
  lemma DoubledCounterexample()
    ensures Nat(Doubled([0x8000_0000])) == 0 != 2 * Nat([0x8000_0000])
  {
    NatOne(0x8000_0000);
    assert Doubled([0x8000_0000]) == [0];
    NatOne(0);
  }

  ghost predicate AddInvariant(p: seq<Limb>, p0: seq<Limb>, o: seq<Limb>, i: nat, c: nat)
    requires i <= |o|
  {
    c <= 1 && |p| >= i && Nat(p) + Pow(i) * c == Nat(p0) + Nat(o[..i])
  }

  lemma AddLimb(p: seq<Limb>, p0: seq<Limb>, o: seq<Limb>, i: nat, c: nat, y: Limb, c': nat)
    requires i < |o| && i < |p| && AddInvariant(p, p0, o, i, c)
    requires p[i] + o[i] + c == y + BASE * c' && c' <= 1
    ensures AddInvariant(p[i := y], p0, o, i + 1, c')
  {
    hide Nat, Pow;
    NatUpdate(p, i, y);
    NatSnoc(o, i);
    PowNext(i);
    CarryStep(Pow(i), Nat(p), Nat(p0), Nat(o[..i]), c, p[i], o[i], y, c');
  }

  /** The limb loop of mpi_add_abs, reading the operand through its object as the source does. */
  method AddLoop(X: Mpi, O: Mpi, j: nat) returns (c: nat)
    requires j <= |O.p| && j <= |X.p|
    modifies X
    ensures X.s == old(X.s) && |X.p| == |old(X.p)|
    ensures X != O ==> AddInvariant(X.p, old(X.p), O.p, j, c)
    ensures X == O ==> c == 0 && X.p == Doubled(old(X.p)[..j]) + old(X.p)[j..]
  {
    hide Nat, Pow;
    ghost var p0 := X.p;
    c := 0;
    var i := 0;
    EmptyPrefix(p0, O.p);
    while i < j
      invariant 0 <= i <= j && |X.p| == |p0| && X.s == old(X.s) && c <= 1
      invariant X != O ==> AddInvariant(X.p, p0, O.p, i, c)
      invariant X == O ==> c == 0
      invariant X == O ==> forall k :: 0 <= k < i ==> X.p[k] == 2 * p0[k] % BASE
      invariant X == O ==> forall k :: i <= k < |p0| ==> X.p[k] == p0[k]
    {
      ghost var p1, c1 := X.p, c;
      AddWithCarry(X.p[i], O.p[i], c);
      X.p := X.p[i := (X.p[i] + c) % BASE];
      c := if X.p[i] < c then 1 else 0;
      X.p := X.p[i := (X.p[i] + O.p[i]) % BASE];
      c := c + if X.p[i] < O.p[i] then 1 else 0;
      if X != O {
        assert X.p == p1[i := X.p[i]];
        AddLimb(p1, p0, O.p, i, c1, X.p[i], c);
      } else {
        SelfAdd(p1[i]);
      }
      i := i + 1;
    }
    assert X == O ==> X.p == Doubled(p0[..j]) + p0[j..];
  }

  lemma SelfAdd(x: Limb)
    ensures (x + x) % BASE == 2 * x % BASE
  {
  }

  lemma EmptyPrefix(p: seq<Limb>, o: seq<Limb>)
    ensures AddInvariant(p, p, o, 0, 0)
  {
  }

  lemma CarryOn(P: nat, v: nat, x: Limb, y: Limb, c: nat, c': nat)
    requires x + c == y + BASE * c'
    ensures (v + P * (y - x)) + (BASE * P) * c' == v + P * c
  {
    assert P * (y - x) + (BASE * P) * c' == P * (y - x + BASE * c');
  }

  lemma CarryDone(v: nat, P: nat)
    ensures v + P * 0 == v
  {
  }

  lemma FullLimb(x: Limb, c: nat)
    requires c == 1
    ensures
      var y := (x + c) % BASE;
      x + c == y + BASE * (if y < c then 1 else 0)
  {
  }

  /** The carry is pushed up, growing the buffer when it runs off the end. */
  method PropagateCarry(X: Mpi, j: nat, c0: nat)
    requires j <= |X.p| && c0 <= 1
    modifies X
    ensures X.s == old(X.s) && |X.p| >= |old(X.p)|
    ensures Nat(X.p) == old(Nat(X.p)) + Pow(j) * c0
  {
    hide Nat, Pow;
    ghost var T := Nat(X.p) + Pow(j) * c0;
    ghost var n0 := |X.p|;
    var i, c := j, c0;
    while c != 0
      invariant j <= i <= |X.p| && n0 <= |X.p| && 0 <= c <= 1 && X.s == old(X.s)
      invariant Nat(X.p) + Pow(i) * c == T
      invariant c != 0 ==> |X.p| == n0
      decreases n0 + 1 - i
    {
      if i >= |X.p| { X.Grow(i + 1); }
      ghost var p1 := X.p;
      FullLimb(X.p[i], c);
      var y := (X.p[i] + c) % BASE;
      var c' := if y < c then 1 else 0;
      NatUpdate(p1, i, y);
      PowNext(i);
      CarryOn(Pow(i), Nat(p1), p1[i], y, c, c');
      X.p := X.p[i := y];
      i, c := i + 1, c';
    }
    CarryDone(Nat(X.p), Pow(i));
  }

  /** X = |A| + |B|, under every aliasing; with all three the same object carries are lost. */
  method AddAbs(X: Mpi, A: Mpi, B: Mpi)
    modifies X
    ensures X.s == 1
    ensures !(X == A && A == B) ==> Nat(X.p) == old(Nat(A.p)) + old(Nat(B.p))
    ensures X == A && A == B ==> Nat(X.p) == Nat(Doubled(old(A.p)))
    ensures |old(A.p)| > 0 && |old(B.p)| > 0 ==> |X.p| >= |old(X.p)| && |X.p| >= 1
  {
    hide Nat, Pow, Len;
    var A', B' := A, B;
    if X == B { A', B' := X, A; }
    ghost var a, b := Nat(A'.p), Nat(B'.p);
    if X != A' { X.Copy(A'); }
    X.s := 1;
    var j := HighLimb(B'.p);
    X.Grow(j);
    ghost var p0 := X.p;
    var c := AddLoop(X, B', j);
    if X == B' {
      assert p0 == old(X.p);
      DoubledPad(p0, j);
      CarryDone(Nat(X.p), Pow(j));
    } else {
      NatHigh(B'.p, j);
      LenBounds(b);
    }
    PropagateCarry(X, j, c);
  }

  lemma DoubledPad(p: seq<Limb>, j: nat)
    requires j <= |p| && forall k :: j <= k < |p| ==> p[k] == 0
    ensures Doubled(p[..j]) + p[j..] == Doubled(p)
  {
  }

  // ---------- subtraction ----------

  /** One subtraction of the first loop: the two wrap-around tests add up to the borrow. */
  lemma SubWithBorrow(x: Limb, o: Limb, c: nat)
    requires c <= 1
    ensures
      var z := if x < c then 1 else 0;
      var x1 := (x - c) % BASE;
      var c' := (if x1 < o then 1 else 0) + z;
      var x2 := (x1 - o) % BASE;
      c' <= 1 && x - o - c == x2 - BASE * c'
  {
  }

  ghost predicate SubInvariant(p: seq<Limb>, p0: seq<Limb>, o: seq<Limb>, i: nat, c: nat)
    requires i <= |o|
  {
    c <= 1 && Nat(p) + Nat(o[..i]) == Nat(p0) + Pow(i) * c
  }

  lemma BorrowStep(P: int, v: int, u: int, w: int, c: int, x: int, o: int, y: int, c': int)
    requires v + u == w + P * c && x - o - c == y - BASE * c'
    ensures (v + P * (y - x)) + (u + P * o) == w + (BASE * P) * c'
  {
    calc {
      P * (y - x) + P * o - (BASE * P) * c';
      P * (y - x + o - BASE * c');
      P * (0 - c);
      0 - P * c;
    }
  }

  lemma SubLimb(p: seq<Limb>, p0: seq<Limb>, o: seq<Limb>, i: nat, c: nat, y: Limb, c': nat)
    requires i < |o| && i < |p| && SubInvariant(p, p0, o, i, c)
    requires p[i] - o[i] - c == y - BASE * c' && c' <= 1
    ensures SubInvariant(p[i := y], p0, o, i + 1, c')
  {
    hide Nat, Pow;
    NatUpdate(p, i, y);
    NatSnoc(o, i);
    PowNext(i);
    BorrowStep(Pow(i), Nat(p), Nat(o[..i]), Nat(p0), c, p[i], o[i], y, c');
  }

  /** When the result is not negative the borrow ends inside the buffer. */
  lemma BorrowEnds(p: seq<Limb>, v: nat, u: nat, i: nat, c: nat)
    requires u <= v && Nat(p) + u == v + Pow(i) * c && c == 1 && i <= |p|
    ensures i < |p|
  {
    hide Nat, Pow;
    NatBound(p);
  }

  method SubHlp(n: nat, s: seq<Limb>, D: Mpi)
    requires n <= |s| && n <= |D.p| && Nat(s[..n]) <= Nat(D.p)
    modifies D
    ensures D.s == old(D.s) && |D.p| == |old(D.p)|
    ensures Nat(D.p) == old(Nat(D.p)) - Nat(s[..n])
  {
    hide Nat, Pow;
    ghost var p0, u := D.p, Nat(s[..n]);
    var c, i := 0, 0;
    PowNext(0);
    NatZero(s[..0]);
    CarryDone(Nat(p0), Pow(0));
    while i < n
      invariant 0 <= i <= n && |D.p| == |p0| && D.s == old(D.s) && 0 <= c <= 1
      invariant SubInvariant(D.p, p0, s, i, c)
    {
      ghost var p1, c1 := D.p, c;
      SubWithBorrow(D.p[i], s[i], c);
      var z := if D.p[i] < c then 1 else 0;
      D.p := D.p[i := (D.p[i] - c) % BASE];
      c := (if D.p[i] < s[i] then 1 else 0) + z;
      D.p := D.p[i := (D.p[i] - s[i]) % BASE];
      assert D.p == p1[i := D.p[i]];
      SubLimb(p1, p0, s, i, c1, D.p[i], c);
      i := i + 1;
    }
    PropagateBorrow(D, i, c, Nat(p0), u);
  }

  method PropagateBorrow(D: Mpi, j: nat, c0: nat, ghost v: nat, ghost u: nat)
    requires j <= |D.p| && c0 <= 1 && u <= v && Nat(D.p) + u == v + Pow(j) * c0
    modifies D
    ensures D.s == old(D.s) && |D.p| == |old(D.p)|
    ensures Nat(D.p) == v - u
  {
    hide Nat, Pow;
    ghost var p0 := D.p;
    var i, c := j, c0;
    while c != 0
      invariant j <= i <= |D.p| == |p0| && D.s == old(D.s) && 0 <= c <= 1
      invariant Nat(D.p) + u == v + Pow(i) * c
      decreases |p0| + 1 - i
    {
      ghost var p1 := D.p;
      BorrowEnds(p1, v, u, i, c);
      var z := if D.p[i] < c then 1 else 0;
      var y := (D.p[i] - c) % BASE;
      NatUpdate(p1, i, y);
      PowNext(i);
      BorrowStep(Pow(i), Nat(p1), u, v, c, p1[i], 0, y, z);
      CarryDone(u, Pow(i));
      D.p := D.p[i := y];
      i, c := i + 1, z;
    }
    CarryDone(v, Pow(i));
  }

  /** X = |A| - |B|; refused exactly when |A| < |B|. */
  method SubAbs(X: Mpi, A: Mpi, B: Mpi) returns (r: Ret)
    modifies X
    ensures r == if old(Nat(A.p)) < old(Nat(B.p)) then Fail(NegativeValue) else Ok
    ensures r.Fail? ==> X.s == old(X.s) && X.p == old(X.p)
    ensures r.Ok? ==> X.s == 1 && Nat(X.p) == old(Nat(A.p)) - old(Nat(B.p))
    ensures r.Ok? && |old(A.p)| > 0 ==> |X.p| >= |old(X.p)| && |X.p| >= 1
  {
    hide Nat, Pow, Len;
    ghost var a, b := Nat(A.p), Nat(B.p);
    var k := CmpAbs(A, B);
    if k < 0 { return Fail(NegativeValue); }
    var B' := B;
    if X == B {
      var TB := new Mpi();
      TB.Copy(B);
      B' := TB;
    }
    if X != A { X.Copy(A); }
    X.s := 1;
    var n := HighLimb(B'.p);
    NatHigh(B'.p, n);
    LenBounds(b);
    EnoughLimbs(X.p, b);
    SubHlp(n, B'.p, X);
    return Ok;
  }

  /** A buffer holding at least v has at least as many limbs as v needs. */
  lemma EnoughLimbs(p: seq<Limb>, v: nat)
    requires v <= Nat(p)
    ensures Len(v) <= |p|
  {
    hide Nat, Pow, Len;
    NatBound(p);
    LenAtMost(v, |p|);
  }

  // ---------- signed ----------

  ghost predicate AllSame(X: Mpi, A: Mpi, B: Mpi) {
    X == A && A == B
  }

  /** X = A + B. */
  method AddMpi(X: Mpi, A: Mpi, B: Mpi)
    requires A.Valid() && B.Valid()
    modifies X
    ensures X.Valid()
    ensures !AllSame(X, A, B) ==> X.Val() == old(A.Val()) + old(B.Val())
    ensures AllSame(X, A, B) ==> Nat(X.p) == Nat(Doubled(old(A.p))) && X.s == old(A.s)
    ensures old(A.s) == old(B.s) ==> X.s == old(A.s)
    ensures |old(A.p)| > 0 && |old(B.p)| > 0 ==> |X.p| >= |old(X.p)| && |X.p| >= 1
  {
    hide Nat;
    var s := A.s;
    if A.s * B.s < 0 {
      var k := CmpAbs(A, B);
      if k >= 0 {
        var _ := SubAbs(X, A, B);
        X.s := s;
      } else {
        var _ := SubAbs(X, B, A);
        X.s := -s;
      }
    } else {
      AddAbs(X, A, B);
      X.s := s;
    }
  }

  /** X = A - B. */
  method SubMpi(X: Mpi, A: Mpi, B: Mpi)
    requires A.Valid() && B.Valid()
    modifies X
    ensures X.Valid()
    ensures X.Val() == old(A.Val()) - old(B.Val())
    ensures old(A.s) != old(B.s) ==> X.s == old(A.s)
    ensures |old(A.p)| > 0 && |old(B.p)| > 0 ==> |X.p| >= |old(X.p)| && |X.p| >= 1
  {
    hide Nat;
    var s := A.s;
    if A.s * B.s > 0 {
      var k := CmpAbs(A, B);
      if k >= 0 {
        var _ := SubAbs(X, A, B);
        X.s := s;
      } else {
        var _ := SubAbs(X, B, A);
        X.s := -s;
      }
    } else {
      AddAbs(X, A, B);
      X.s := s;
    }
  }

  method AddInt(X: Mpi, A: Mpi, b: Sint)
    requires A.Valid()
    modifies X
    ensures X.Valid() && X.Val() == old(A.Val()) + b
    ensures old(A.s) == 1 && b >= 0 ==> X.s == 1
    ensures |old(A.p)| > 0 ==> |X.p| >= |old(X.p)| && |X.p| >= 1
  {
    NatOne(AbsInt(b));
    var B := new Mpi.OnStack(if b < 0 then -1 else 1, AbsInt(b));
    AddMpi(X, A, B);
  }

  method SubInt(X: Mpi, A: Mpi, b: Sint)
    requires A.Valid()
    modifies X
    ensures X.Valid() && X.Val() == old(A.Val()) - b
    ensures old(A.s) == -1 && b >= 0 ==> X.s == -1
    ensures |old(A.p)| > 0 ==> |X.p| >= |old(X.p)| && |X.p| >= 1
  {
    NatOne(AbsInt(b));
    var B := new Mpi.OnStack(if b < 0 then -1 else 1, AbsInt(b));
    SubMpi(X, A, B);
  }
}
