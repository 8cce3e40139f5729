/** Montgomery arithmetic (bignum.c: mpi_montg_init, mpi_montmul, mpi_montred). */
module Montgomery {
  import opened Arith
  import opened Limbs
  import opened Bignum
  import opened Bits
  import opened AddSub
  import opened Multiply

  // ---------- the inverse of the low limb ----------

  /** x += ( ( m0 + 2 ) & 4 ) << 1 */
  function Seed(m0: Limb): (x: Limb) {
    (m0 + (m0 + 2) % BASE / 4 % 2 * 8) % BASE
  }

  /** x *= 2 - m0 * x */
  function Newton(m0: Limb, x: Limb): (y: Limb) {
    x * ((2 - m0 * x) % BASE) % BASE
  }

  lemma SeedResidue(r: nat)
    requires r < 16 && r % 2 == 1
    ensures r * (r + (r + 2) / 4 % 2 * 8) % 16 == 1
  {
    assert r == 1 || r == 3 || r == 5 || r == 7 || r == 9 || r == 11 || r == 13 || r == 15;
  }

  lemma SeedClass(m0: Limb)
    ensures var r := m0 % 16; Seed(m0) % 16 == (r + (r + 2) / 4 % 2 * 8) % 16
  {
    SeedBit(m0);
    TruncatedClass(m0, (m0 % 16 + 2) / 4 % 2);
  }

  /** The bit the seed tests depends on the low four bits only; 2^32 - 1 and 2^32 - 2 wrap to small values. */
  lemma SeedBit(m0: Limb)
    ensures (m0 + 2) % BASE / 4 % 2 == (m0 % 16 + 2) / 4 % 2
  {
    if m0 + 2 < BASE {
      SixteensBit(m0 / 16, m0 % 16 + 2);
    } else {
      assert m0 == BASE - 2 || m0 == BASE - 1;
    }
  }

  lemma SixteensBit(a: nat, r: nat)
    ensures (16 * a + r) / 4 % 2 == r / 4 % 2
  {
    DivUnique(16 * a + r, 4, 4 * a + r / 4, r % 4);
    ModAddMultiple(r / 4, 2 * a, 2);
  }

  lemma TruncatedClass(m0: Limb, e: nat)
    requires e <= 1
    ensures (m0 + e * 8) % BASE % 16 == (m0 % 16 + e * 8) % 16
  {
  }

  /** The seed is an inverse modulo 16. */
  lemma SeedInverse(m0: Limb)
    requires m0 % 2 == 1
    ensures Cong(m0 * Seed(m0), 1, 16)
  {
    hide Seed;
    var r := m0 % 16;
    SeedResidue(r);
    SeedClass(m0);
    CongMul(m0, r, Seed(m0), r + (r + 2) / 4 % 2 * 8, 16);
  }

  /** One Newton step squares the modulus of the inverse. */
  lemma NewtonDoubles(m0: Limb, x: Limb, k: nat)
    requires k > 0 && Cong(m0 * x, 1, k) && k * k > 0 && BASE % (k * k) == 0
    ensures Cong(m0 * Newton(m0, x), 1, k * k)
  {
    hide Cong;
    var e := 2 - m0 * x;
    var u, y := e % BASE, Newton(m0, x);
    WeakenMod(u, e, k * k);
    WeakenMod(y, x * u, k * k);
    NewtonCong(m0, x, e, u, y, k, k * k);
  }

  lemma NewtonCong(m0: int, x: int, e: int, u: int, y: int, k: nat, q: nat)
    requires k > 0 && q == k * k && q > 0 && Cong(m0 * x, 1, k) && e == 2 - m0 * x
    requires Cong(u, e, q) && Cong(y, x * u, q)
    ensures Cong(m0 * y, 1, q)
  {
    var t := CongElim(m0 * x, 1, k);
    CongMul(x, x, u, e, q);
    CongMul(m0, m0, y, x * e, q);
    SquareError(m0, x, e, t * k);
    Regroup(t, k, t, k);
    CongIntro(m0 * (x * e), 1, -(t * t), q);
  }

  lemma SquareError(m: int, x: int, e: int, z: int)
    requires m * x == 1 + z && e == 1 - z
    ensures m * (x * e) == 1 - z * z
  {
    assert m * (x * e) == (m * x) * e;
    assert (1 + z) * (1 - z) == 1 - z * z;
  }

  /** Truncation to a limb does not show modulo a divisor of 2^32. */
  lemma WeakenMod(y: int, e: int, q: nat)
    requires q > 0 && BASE % q == 0 && y == e % BASE
    ensures Cong(y, e, q)
  {
    var m, j := e / BASE, BASE / q;
    assert BASE == j * q;
    assert m * (j * q) == (m * j) * q;
    CongIntro(e, y, m * j, q);
  }

  /** The modulus the inverse is known for when the loop counter of mpi_montg_init is i. */
  ghost function NewtonModulus(i: nat): (k: nat)
    ensures k > 0
  {
    if i >= 32 then 0x10 else if i >= 16 then 0x100 else if i >= 8 then 0x1_0000 else BASE
  }

  lemma NewtonStep(m0: Limb, x: Limb, i: nat)
    requires i == 32 || i == 16 || i == 8
    requires Cong(m0 * x, 1, NewtonModulus(i))
    ensures Cong(m0 * Newton(m0, x), 1, NewtonModulus(i / 2))
  {
    hide Cong, Newton;
    var k := NewtonModulus(i);
    assert k * k == NewtonModulus(i / 2) && BASE % (k * k) == 0;
    NewtonDoubles(m0, x, k);
  }

  /** mm * N[0] = -1 modulo 2^32 for every odd N. */
  method MontgInit(N: Mpi) returns (mm: Limb)
    requires |N.p| >= 1 && Nat(N.p) % 2 == 1
    ensures (mm * N.p[0] + 1) % BASE == 0
  {
    var m0 := N.p[0];
    OddLimb(N.p);
    hide Nat;
    var x := InverseLimb(m0);
    NegatedInverse(m0, x);
    mm := (BASE - x) % BASE;   // ~x + 1
    assert mm == BASE - x;
  }

  lemma OddLimb(p: seq<Limb>)
    requires |p| >= 1 && Nat(p) % 2 == 1
    ensures p[0] % 2 == 1
  {
  }

  method InverseLimb(m0: Limb) returns (x: Limb)
    requires m0 % 2 == 1
    ensures Cong(m0 as int * x, 1, BASE)
  {
    hide Cong, Newton, Seed;
    x := Seed(m0);
    SeedInverse(m0);
    var i: nat := BIL;
    while i >= 8
      invariant i == 32 || i == 16 || i == 8 || i == 4
      invariant Cong(m0 as int * x, 1, NewtonModulus(i))
    {
      NewtonStep(m0, x, i);
      x := Newton(m0, x);
      i := i / 2;
    }
  }

  lemma NegatedInverse(m0: Limb, x: Limb)
    requires Cong(m0 * x, 1, BASE)
    ensures x > 0 && ((BASE - x) * m0 + 1) % BASE == 0
  {
    assert m0 * 0 == 0;
    NegatedProduct(m0 * x, (BASE - x) * m0, m0, x);
  }

  lemma NegatedProduct(p: int, q: int, m: int, x: int)
    requires p == m * x && q == (BASE - x) * m && Cong(p, 1, BASE)
    ensures (q + 1) % BASE == 0
  {
    var t := CongElim(p, 1, BASE);
    assert (BASE - x) * m == BASE * m - m * x;
    ModAddMultiple(0, m - t, BASE);
  }

  // ---------- one row of the multiplication ----------

  /** The quotient digit u1 makes the sum divisible by 2^32. */
  lemma RowDivisible(d0: Limb, u0: Limb, b0: Limb, n0: Limb, mm: Limb, u1: Limb)
    requires (mm * n0 + 1) % BASE == 0
    requires u1 == (d0 + u0 * b0) * mm % BASE
    ensures (d0 + u0 * b0 + u1 * n0) % BASE == 0
  {
    var s: int := d0 + u0 * b0;
    var t := s * mm;
    assert Cong(u1, t, BASE) by { CongMod(t, BASE); }
    CongMul(u1, t, n0, n0, BASE);
    assert t * n0 == s * (mm * n0);
    var k := (mm * n0 + 1) / BASE;
    RowRemainder(s, mm * n0, k, t * n0);
    CongAdd(s, s, u1 * n0, t * n0, BASE);
  }

  lemma RowRemainder(s: int, p: int, k: int, tn: int)
    requires p == k * BASE - 1 && tn == s * p
    ensures (s + tn) % BASE == 0
  {
    assert s * (k * BASE - 1) == BASE * (s * k) - s;
    assert s + tn == BASE * (s * k);
  }

  /** The running sum stays below B + N, because the digits of A and of M are limbs. */
  lemma RunningBound(t: nat, P: nat, a: nat, m: nat, b: nat, n: nat)
    requires P > 0 && a < P && m < P && n > 0 && t * P == a * b + m * n
    ensures t < b + n
  {
    MulMono(b, a, P - 1);
    MulMono(n, m, P - 1);
    assert t * P <= (P - 1) * b + (P - 1) * n;
    assert (P - 1) * b + (P - 1) * n == P * (b + n) - (b + n);
    assert t * P == P * t;
    MulCancelLess(P, t, b + n);
  }

  lemma RowFitsIn(t: nat, u0: Limb, u1: Limb, b: nat, n: nat, R: nat)
    requires t < b + n && b <= n < R
    ensures 0 <= u0 * b && 0 <= u1 * n
    ensures t + u0 * b + u1 * n < BASE * (b + n) < BASE * (BASE * R)
  {
    MulMono(b, u0, BASE - 1);
    MulMono(n, u1, BASE - 1);
    MulNonNeg(u0, b);
    MulNonNeg(u1, n);
  }

  /** The loop invariant carries over one row. */
  lemma RowStep(t: nat, t': nat, P: nat, a: nat, m: nat, b: nat, n: nat, u0: nat, u1: nat)
    requires t * P == a * b + m * n && BASE * t' == t + u0 * b + u1 * n
    ensures t' * (BASE * P) == (a + P * u0) * b + (m + P * u1) * n
  {
    assert t' * (BASE * P) == (BASE * t') * P;
    assert (t + u0 * b + u1 * n) * P == t * P + (u0 * b) * P + (u1 * n) * P;
    assert (a + P * u0) * b == a * b + (u0 * b) * P;
    assert (m + P * u1) * n == m * n + (u1 * n) * P;
  }

  lemma DigitsFit(m: nat, P: nat, u: Limb)
    requires m < P
    ensures m + P * u < BASE * P
  {
    MulMono(P, u, BASE - 1);
  }

  /** Adding at limb i changes exactly the part of the buffer from limb i. */
  lemma AddedAt(p: seq<Limb>, q: seq<Limb>, i: nat, x: nat)
    requires |p| == |q| && i <= |p| && p[..i] == q[..i]
    requires Nat(q) == Nat(p) + Pow(i) * x
    ensures Nat(q[i..]) == Nat(p[i..]) + x
  {
    hide Nat, Pow;
    NatSplit(p, i);
    NatSplit(q, i);
    MulAdd(Pow(i), Nat(p[i..]), x);
    MulCancel(Pow(i), Nat(q[i..]), Nat(p[i..]) + x);
  }

  lemma RoomAt(p: seq<Limb>, i: nat, x: nat, w: nat)
    requires i + w <= |p| && Nat(p[i..]) + x < Pow(w)
    ensures Nat(p) + Pow(i) * x < Pow(|p|)
  {
    hide Nat, Pow;
    NatSplit(p, i);
    NatBound(p[..i]);
    MulAdd(Pow(i), Nat(p[i..]), x);
    LeadingRange(Nat(p[..i]), Pow(i), Nat(p[i..]) + x, Pow(w));
    PowAdd(i, w);
    PowMono(i + w, |p|);
  }

  // ---------- Montgomery multiplication ----------

  /**
   * After i rows the low limbs of T hold A's digits, and the rest, t, satisfies t*b^i = A_i*B + M*N
   * where A_i is the number of A's first i digits.
   */
  ghost predicate MontInvariant(T: seq<Limb>, A: seq<Limb>, b: nat, n: nat, len: nat, i: nat, M: nat) {
    i <= len <= |A| && 2 * len + 2 <= |T| && T[..i] == A[..i]
    && Nat(T[i..]) * Pow(i) == Nat(A[..i]) * b + M * n && M < Pow(i)
  }

  lemma MontBound(T: seq<Limb>, A: seq<Limb>, b: nat, n: nat, len: nat, i: nat, M: nat)
    requires MontInvariant(T, A, b, n, len, i, M) && n > 0
    ensures Nat(T[i..]) < b + n
  {
    hide Nat, Pow;
    NatBound(A[..i]);
    RunningBound(Nat(T[i..]), Pow(i), Nat(A[..i]), M, b, n);
  }

  /** d[0..m] += u0 * B; d[0..n] += u1 * N; the sum is a multiple of 2^32. */
  method AddRows(T: Mpi, B: Mpi, N: Mpi, mm: Limb, m: nat, i: nat, u0: Limb) returns (ghost u1: nat)
    requires T != B && T != N && |N.p| >= 1 && 1 <= |B.p| && m == (if |B.p| < |N.p| then |B.p| else |N.p|)
    requires i < |N.p| && i + |N.p| + 2 <= |T.p|
    requires Nat(B.p) <= Nat(N.p) && Nat(N.p) > 0 && (mm * N.p[0] + 1) % BASE == 0
    requires Nat(T.p[i..]) < Nat(B.p) + Nat(N.p)
    modifies T
    ensures |T.p| == |old(T.p)| && T.p[..i] == old(T.p)[..i] && T.s == old(T.s)
    ensures 0 <= u1 < BASE && Nat(T.p[i..]) == old(Nat(T.p[i..])) + u0 * Nat(B.p) + u1 * Nat(N.p)
    ensures Nat(T.p[i..]) % BASE == 0 && Nat(T.p[i..]) < Pow(|N.p| + 2)
  {
    hide Nat, Pow;
    ghost var t, b, n := Nat(T.p[i..]), Nat(B.p), Nat(N.p);
    var k := |N.p|;
    var v1: Limb := (T.p[i] + u0 * B.p[0]) * mm % BASE;
    u1 := v1;
    ghost var p0 := T.p;
    RowDivisible(T.p[i], u0, B.p[0], N.p[0], mm, v1);
    LowLimbs(T.p[i..], B.p, N.p, u0, v1);
    NatBound(N.p);
    RowFitsIn(t, u0, v1, b, n, Pow(k));
    assert Pow(k + 2) == BASE * (BASE * Pow(k)) by { PowNext(k); PowNext(k + 1); }
    NatHigh(B.p, m);
    RoomAt(T.p, i, u0 * b, k + 2);
    MulHlp(m, B.p, T, i, u0);
    ghost var p1 := T.p;
    AddedAt(p0, p1, i, u0 * b);
    RoomAt(T.p, i, v1 * n, k + 2);
    assert N.p[..k] == N.p;
    MulHlp(k, N.p, T, i, v1);
    AddedAt(p1, T.p, i, v1 * n);
  }

  lemma LowLimbs(t: seq<Limb>, b: seq<Limb>, n: seq<Limb>, u0: Limb, u1: Limb)
    requires |t| > 0 && |b| > 0 && |n| > 0
    requires (t[0] + u0 * b[0] + u1 * n[0]) % BASE == 0
    ensures (Nat(t) + u0 * Nat(b) + u1 * Nat(n)) % BASE == 0
  {
    hide Nat;
    var k0 := LowProduct(b, u0);
    var k1 := LowProduct(n, u1);
    var k := LowProduct(t, 1);
    LowSum(Nat(t), t[0], k, u0 * Nat(b), u0 * b[0], k0, u1 * Nat(n), u1 * n[0], k1);
  }

  lemma LowProduct(b: seq<Limb>, u: Limb) returns (k: nat)
    requires |b| > 0
    ensures u * Nat(b) == u * b[0] + BASE * k
  {
    k := u * Nat(b[1..]);
    DistLimb(u, b[0], Nat(b[1..]), Nat(b));
  }

  lemma LowSum(t: int, t0: int, tx: int, p: int, p0: int, px: int, q: int, q0: int, qx: int)
    requires t == t0 + BASE * tx && p == p0 + BASE * px && q == q0 + BASE * qx && (t0 + p0 + q0) % BASE == 0
    ensures (t + p + q) % BASE == 0
  {
  }

  lemma DistLimb(u: int, x: int, y: int, v: int)
    requires v == x + BASE * y
    ensures u * v == u * x + BASE * (u * y)
  {
  }

  /** One pass of the loop: T = ( T + u0*B + u1*N ) / 2^biL. */
  method MontRow(T: Mpi, A: seq<Limb>, B: Mpi, N: Mpi, mm: Limb, m: nat, i: nat, ghost M: nat) returns (ghost M': nat)
    requires T != B && T != N && |N.p| >= 1 && 1 <= |B.p| && m == (if |B.p| < |N.p| then |B.p| else |N.p|)
    requires Nat(B.p) <= Nat(N.p) && Nat(N.p) > 0 && (mm * N.p[0] + 1) % BASE == 0
    requires i < |N.p| && MontInvariant(T.p, A, Nat(B.p), Nat(N.p), |N.p|, i, M)
    modifies T
    ensures |T.p| == |old(T.p)| && T.s == old(T.s)
    ensures MontInvariant(T.p, A, Nat(B.p), Nat(N.p), |N.p|, i + 1, M')
  {
    hide Nat, Pow;
    ghost var t := Nat(T.p[i..]);
    MontBound(T.p, A, Nat(B.p), Nat(N.p), |N.p|, i, M);
    var u0 := A[i];
    ghost var u1 := AddRows(T, B, N, mm, m, i, u0);
    M' := M + Pow(i) * u1;
    ghost var p := T.p;
    MontNext(p, A, Nat(B.p), Nat(N.p), |N.p|, i, M, t, u1);
    T.p := T.p[i := u0];
    T.p := T.p[i + |N.p| + 2 := 0];
  }

  lemma MontNext(p: seq<Limb>, A: seq<Limb>, b: nat, n: nat, len: nat, i: nat, M: nat, t: nat, u1: nat)
    requires i < len <= |A| && 2 * len + 2 <= |p| && p[..i] == A[..i] && u1 < BASE
    requires t * Pow(i) == Nat(A[..i]) * b + M * n && M < Pow(i)
    requires Nat(p[i..]) == t + A[i] * b + u1 * n && Nat(p[i..]) % BASE == 0 && Nat(p[i..]) < Pow(len + 2)
    ensures MontInvariant(p[i := A[i]][i + len + 2 := 0], A, b, n, len, i + 1, M + Pow(i) * u1)
  {
    hide Nat, Pow;
    NatCons(p, i);
    var t' := Nat(p[i + 1..]);
    assert BASE * t' == t + A[i] * b + u1 * n;
    NatHigh(p[i..], len + 2);
    assert p[i + len + 2] == p[i..][len + 2] == 0;
    var q := p[i := A[i]][i + len + 2 := 0];
    assert q[i + 1..] == p[i + 1..];
    assert q[..i + 1] == p[..i] + [A[i]] == A[..i + 1];
    NatSnoc(A, i);
    assert Pow(i + 1) == BASE * Pow(i) by { PowNext(i); }
    RowStep(t, t', Pow(i), Nat(A[..i]), M, b, n, A[i], u1);
    DigitsFit(M, Pow(i), u1);
  }

  /** A*B*R^-1 modulo N, in the form a result is recognized by: r*R = A*B (mod N). */
  ghost predicate IsMontProduct(r: nat, a: nat, b: nat, n: nat, R: nat) {
    0 < n && r < n && Cong(r * R, a * b, n)
  }

  lemma MontDone(t: nat, a: nat, b: nat, M: nat, n: nat, R: nat)
    requires n > 0 && b <= n && t < b + n && t * R == a * b + M * n
    ensures t < n ==> IsMontProduct(t, a, b, n, R)
    ensures t >= n ==> IsMontProduct(t - n, a, b, n, R)
  {
    CongIntro(t * R, a * b, M, n);
    if t >= n {
      assert (t - n) * R == t * R - n * R;
      CongIntro((t - n) * R, t * R, 0 - R, n);
    }
  }

  /** A = A * B * R^-1 mod N with R = b^n; T is scratch space. */
  method MontMul(A: Mpi, B: Mpi, N: Mpi, mm: Limb, T: Mpi)
    requires A != N && A != T && T != B && T != N
    requires |N.p| >= 1 && |B.p| >= 1 && |A.p| >= |N.p| + 1 && |T.p| >= 2 * |N.p| + 2
    requires Nat(N.p) > 0 && (mm * N.p[0] + 1) % BASE == 0
    requires Nat(A.p) < Pow(|N.p|) && Nat(B.p) <= Nat(N.p)
    modifies A, T
    ensures A.s == old(A.s) && |A.p| == |old(A.p)| && |T.p| == |old(T.p)|
    ensures IsMontProduct(Nat(A.p), old(Nat(A.p)), old(Nat(B.p)), Nat(N.p), Pow(|N.p|))
  {
    hide Nat, Pow;
    ghost var a, b, nv := Nat(A.p), Nat(B.p), Nat(N.p);
    var n := |N.p|;
    ghost var M := MontRows(A, B, N, mm, T);
    NatHigh(A.p, n);
    MontBound(T.p, A.p, b, nv, n, n, M);
    MontDone(Nat(T.p[n..]), a, b, M, nv, Pow(n));
    NatBound(N.p);
    CopyDown(A.p, T.p, n, nv);
    A.p := T.p[n..2 * n + 1] + A.p[n + 1..];
    FinalSubtract(A, N, T);
  }

  /** memset( T ); the loop of mpi_montmul. */
  method MontRows(A: Mpi, B: Mpi, N: Mpi, mm: Limb, T: Mpi) returns (ghost M: nat)
    requires A != T && T != B && T != N
    requires |N.p| >= 1 && |B.p| >= 1 && |A.p| >= |N.p| + 1 && |T.p| >= 2 * |N.p| + 2
    requires Nat(N.p) > 0 && (mm * N.p[0] + 1) % BASE == 0 && Nat(B.p) <= Nat(N.p)
    modifies T
    ensures |T.p| == |old(T.p)|
    ensures MontInvariant(T.p, A.p, Nat(B.p), Nat(N.p), |N.p|, |N.p|, M)
  {
    hide Nat, Pow;
    T.p := Zeros(|T.p|);
    var n := |N.p|;
    var m := if |B.p| < n then |B.p| else n;
    M := 0;
    MontStart(T.p, A.p, Nat(B.p), Nat(N.p), n);
    var i := 0;
    while i < n
      invariant 0 <= i <= n && |T.p| == |old(T.p)|
      invariant MontInvariant(T.p, A.p, Nat(B.p), Nat(N.p), n, i, M)
    {
      M := MontRow(T, A.p, B, N, mm, m, i, M);
      i := i + 1;
    }
  }

  lemma MontStart(T: seq<Limb>, A: seq<Limb>, b: nat, n: nat, len: nat)
    requires len <= |A| && 2 * len + 2 <= |T| && forall k :: 0 <= k < |T| ==> T[k] == 0
    ensures MontInvariant(T, A, b, n, len, 0, 0)
  {
    assert T[0..] == T && A[..0] == [] && T[..0] == [];
    NatZero(T);
  }

  /** memcpy( A->p, d, n + 1 ): nothing of the running value is left out, nothing of A's old limbs stays. */
  lemma CopyDown(A: seq<Limb>, T: seq<Limb>, n: nat, nv: nat)
    requires n + 1 <= |A| && 2 * n + 2 <= |T| && nv < Pow(n)
    requires Nat(A) < Pow(n) && Nat(T[n..]) < 2 * nv
    ensures Nat(T[n..2 * n + 1] + A[n + 1..]) == Nat(T[n..])
  {
    hide Nat, Pow;
    assert Pow(n + 1) == BASE * Pow(n) by { PowNext(n); }
    NatHigh(A, n);
    NatZero(A[n + 1..]);
    NatHigh(T[n..], n + 1);
    assert T[n..][..n + 1] == T[n..2 * n + 1];
    NatAppend(T[n..2 * n + 1], A[n + 1..]);
    ZeroRow(1, Pow(n + 1));
  }

  /** The closing comparison, with its decoy subtraction from T when nothing is to be subtracted from A. */
  method FinalSubtract(A: Mpi, N: Mpi, T: Mpi)
    requires A != N && A != T && T != N && |N.p| <= |A.p| && 2 * |N.p| + 2 <= |T.p|
    requires Nat(A.p) == Nat(T.p[|N.p|..])
    modifies A, T
    ensures A.s == old(A.s) && |A.p| == |old(A.p)| && |T.p| == |old(T.p)|
    ensures Nat(A.p) == if old(Nat(A.p)) >= Nat(N.p) then old(Nat(A.p)) - Nat(N.p) else old(Nat(A.p))
  {
    hide Nat, Pow;
    var n := |N.p|;
    var c := CmpAbs(A, N);
    if c >= 0 {
      assert N.p[..n] == N.p;
      SubHlp(n, N.p, A);
    } else {
      // prevent timing attacks
      NatSplit(T.p, n);
      NatSplit(A.p, n);
      MulMono(Nat(T.p[n..]), 1, Pow(n));
      SubHlp(n, A.p, T);
    }
  }

  /** A = A * R^-1 mod N. */
  method MontRed(A: Mpi, N: Mpi, mm: Limb, T: Mpi)
    requires A != N && A != T && T != N
    requires |N.p| >= 1 && |A.p| >= |N.p| + 1 && |T.p| >= 2 * |N.p| + 2
    requires Nat(N.p) > 0 && (mm * N.p[0] + 1) % BASE == 0 && Nat(A.p) < Pow(|N.p|)
    modifies A, T
    ensures A.s == old(A.s) && |A.p| == |old(A.p)| && |T.p| == |old(T.p)|
    ensures IsMontProduct(Nat(A.p), old(Nat(A.p)), 1, Nat(N.p), Pow(|N.p|))
  {
    NatOne(1);
    var U := new Mpi.OnStack(1, 1);
    MontMul(A, U, N, mm, T);
  }
}
