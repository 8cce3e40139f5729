/** Sliding-window exponentiation (bignum.c: mpi_exp_mod). */
module ExpMod {
  import opened Arith
  import opened Divisors
  import opened Limbs
  import opened Bignum
  import opened Bits
  import opened Shift
  import opened AddSub
  import opened Divide
  import opened Modulo
  import opened Montgomery

  const WINDOW_SIZE: nat := 6

  // ---------- Montgomery form ----------

  /** x is v in Montgomery form: v*R mod n. */
  ghost predicate Rep(x: nat, v: int, n: nat, R: nat) {
    0 < n && x < n && Cong(x, v * R, n)
  }

  /** A power of two is invertible modulo an odd number. */
  lemma OddInverse(n: nat, k: nat) returns (ri: nat)
    requires n % 2 == 1
    ensures Cong(Pow2(k) * ri, 1, n)
  {
    hide Pow2, Power;
    var h := (n + 1) / 2;
    PowerPos(h, k);
    ri := Power(h, k);
    PowerOfProduct(2, h, k);
    Pow2IsPower(k);
    CongIntro(2 * h, 1, 1, n);
    PowerCong(2 * h, 1, k, n);
    PowerOne(k);
  }

  lemma {:induction false} Pow2IsPower(k: nat)
    ensures Pow2(k) == Power(2, k)
  {
    if k > 0 { Pow2IsPower(k - 1); }
  }

  /** The product of two Montgomery forms is the Montgomery form of the product. */
  lemma RepMul(x: nat, v: int, y: nat, w: int, r: nat, n: nat, R: nat, ri: nat)
    requires Rep(x, v, n, R) && Rep(y, w, n, R) && IsMontProduct(r, x, y, n, R) && Cong(R * ri, 1, n)
    ensures Rep(r, v * w, n, R)
  {
    CongMul(x, v * R, y, w * R, n);
    Regroup(v, R, w, R);
    assert (v * w) * (R * R) == R * ((v * w) * R);
    CongCancel(R, ri, r, (v * w) * R, n);
  }

  /** Entering Montgomery form: multiply by R^2. */
  lemma RepEnter(x: nat, v: int, rr: nat, r: nat, n: nat, R: nat, ri: nat)
    requires n > 0 && Cong(x, v, n) && Cong(rr, R * R, n) && IsMontProduct(r, x, rr, n, R) && Cong(R * ri, 1, n)
    ensures Rep(r, v, n, R)
  {
    CongMul(x, v, rr, R * R, n);
    assert v * (R * R) == R * (v * R);
    CongCancel(R, ri, r, v * R, n);
  }

  /** Leaving Montgomery form: multiply by 1. */
  lemma RepLeave(x: nat, v: int, r: nat, n: nat, R: nat, ri: nat)
    requires Rep(x, v, n, R) && IsMontProduct(r, x, 1, n, R) && Cong(R * ri, 1, n)
    ensures r == v % n
  {
    CongCancel(R, ri, r, v, n);
    CongSmall(r, v, n);
  }

  /** What every multiplication of the exponentiation needs. */
  ghost predicate Ready(X: Mpi, N: Mpi, mm: Limb, T: Mpi)
    reads X, N, T
  {
    X != N && X != T && T != N && |N.p| >= 1 && |X.p| >= |N.p| + 1 && |T.p| >= 2 * |N.p| + 2
    && Nat(N.p) > 0 && (mm * N.p[0] + 1) % BASE == 0
  }

  /** mpi_montmul seen through Montgomery form. */
  method MulRep(X: Mpi, Y: Mpi, N: Mpi, mm: Limb, T: Mpi, ghost v: int, ghost w: int, ghost ri: nat)
    requires Ready(X, N, mm, T) && T != Y && |Y.p| >= 1
    requires Rep(Nat(X.p), v, Nat(N.p), Pow(|N.p|)) && Rep(Nat(Y.p), w, Nat(N.p), Pow(|N.p|))
    requires Cong(Pow(|N.p|) * ri, 1, Nat(N.p))
    modifies X, T
    ensures Ready(X, N, mm, T) && X.s == old(X.s) && |X.p| == |old(X.p)|
    ensures Rep(Nat(X.p), v * w, Nat(N.p), Pow(|N.p|))
  {
    hide Nat, Pow, Cong;
    NatBound(N.p);
    ghost var x, y := Nat(X.p), Nat(Y.p);
    MontMul(X, Y, N, mm, T);
    RepMul(x, v, y, w, Nat(X.p), Nat(N.p), Pow(|N.p|), ri);
  }

  /** X = X^2, k times. */
  method SquareTimes(X: Mpi, k: nat, N: Mpi, mm: Limb, T: Mpi, ghost a: int, ghost e: nat, ghost ri: nat)
    requires Ready(X, N, mm, T)
    requires Rep(Nat(X.p), Power(a, e), Nat(N.p), Pow(|N.p|)) && Cong(Pow(|N.p|) * ri, 1, Nat(N.p))
    modifies X, T
    ensures Ready(X, N, mm, T) && X.s == old(X.s) && |X.p| == |old(X.p)|
    ensures Rep(Nat(X.p), Power(a, e * Pow2(k)), Nat(N.p), Pow(|N.p|))
  {
    hide Nat, Pow, Cong, Power, Pow2;
    Pow2Zero();
    var i := 0;
    while i < k
      invariant 0 <= i <= k && Ready(X, N, mm, T) && X.s == old(X.s) && |X.p| == |old(X.p)|
      invariant Rep(Nat(X.p), Power(a, e * Pow2(i)), Nat(N.p), Pow(|N.p|))
    {
      ghost var f := e * Pow2(i);
      MulRep(X, X, N, mm, T, Power(a, f), Power(a, f), ri);
      PowerAdd(a, f, f);
      Pow2Next(i);
      assert e * (2 * Pow2(i)) == f + f;
      i := i + 1;
    }
  }

  // ---------- the table of odd-window powers ----------

  /** The table entries are objects of their own. */
  ghost predicate Apart(W: seq<Mpi>, N: Mpi, T: Mpi) {
    (forall i :: 0 <= i < |W| ==> W[i] != N && W[i] != T)
    && (forall i, j :: 0 <= i < j < |W| ==> W[i] != W[j])
  }

  /** W[i] holds A^i in Montgomery form. */
  ghost predicate Entry(W: seq<Mpi>, i: nat, a: int, N: Mpi)
    requires i < |W|
    reads W[i], N
  {
    |W[i].p| >= |N.p| + 1 && Rep(Nat(W[i].p), Power(a, i), Nat(N.p), Pow(|N.p|))
  }

  method NewTable(n: nat) returns (W: seq<Mpi>)
    ensures |W| == n && forall i :: 0 <= i < n ==> fresh(W[i])
    ensures forall i :: 0 <= i < n ==> W[i].p == []
    ensures forall i, j :: 0 <= i < j < n ==> W[i] != W[j]
  {
    W := [];
    while |W| < n
      invariant |W| <= n && forall i :: 0 <= i < |W| ==> fresh(W[i])
      invariant forall i :: 0 <= i < |W| ==> W[i].p == []
      invariant forall i, j :: 0 <= i < j < |W| ==> W[i] != W[j]
    {
      var M := new Mpi.Zeroed();
      W := W + [M];
    }
  }

  /** W[j] = W[1]^j by repeated squaring, j = 2^(wsize-1). */
  method FirstEntry(W: seq<Mpi>, j: nat, k: nat, N: Mpi, mm: Limb, T: Mpi, ghost a: int, ghost ri: nat)
    requires Apart(W, N, T) && 1 < j < |W| && j == Pow2(k) && Ready(W[1], N, mm, T) && Entry(W, 1, a, N)
    requires Cong(Pow(|N.p|) * ri, 1, Nat(N.p))
    modifies W[j], T
    ensures Ready(W[j], N, mm, T) && Entry(W, j, a, N)
  {
    hide Nat, Pow, Cong, Power, Pow2, Rep, Len;
    W[j].Grow(|N.p| + 1);
    W[j].Copy(W[1]);
    SquareTimes(W[j], k, N, mm, T, a, 1, ri);
  }

  method NextEntry(W: seq<Mpi>, i: nat, N: Mpi, mm: Limb, T: Mpi, ghost a: int, ghost ri: nat)
    requires Apart(W, N, T) && 2 < i < |W| && Ready(W[1], N, mm, T) && Entry(W, 1, a, N) && Entry(W, i - 1, a, N)
    requires Cong(Pow(|N.p|) * ri, 1, Nat(N.p))
    modifies W[i], T
    ensures Ready(W[1], N, mm, T) && Entry(W, i, a, N)
  {
    hide Nat, Pow, Cong, Power, Rep, Len;
    W[i].Grow(|N.p| + 1);
    W[i].Copy(W[i - 1]);
    MulRep(W[i], W[1], N, mm, T, Power(a, i - 1), Power(a, 1), ri);
    PowerAdd(a, i - 1, 1);
  }

  method BuildTable(W: seq<Mpi>, wsize: nat, N: Mpi, mm: Limb, T: Mpi, ghost a: int, ghost ri: nat)
    requires Apart(W, N, T) && 1 < wsize && Pow2(wsize) <= |W| && Ready(W[1], N, mm, T) && Entry(W, 1, a, N)
    requires Cong(Pow(|N.p|) * ri, 1, Nat(N.p))
    modifies set i | 2 <= i < |W| :: W[i], T
    ensures Ready(W[1], N, mm, T)
    ensures forall i :: Pow2(wsize - 1) <= i < Pow2(wsize) ==> Entry(W, i, a, N)
  {
    hide Nat, Pow, Cong, Power, Rep, Pow2, Entry;
    var j := Pow2(wsize - 1);
    Pow2StrictMono(wsize - 1, wsize);
    Pow2StrictMono(0, wsize - 1);
    FirstEntry(W, j, wsize - 1, N, mm, T, a, ri);
    var i := j + 1;
    while i < Pow2(wsize)
      invariant j + 1 <= i <= Pow2(wsize) && Ready(W[1], N, mm, T) && Entry(W, 1, a, N)
      invariant forall k :: j <= k < i ==> Entry(W, k, a, N)
    {
      NextEntry(W, i, N, mm, T, a, ri);
      i := i + 1;
    }
  }

  // ---------- the window state machine ----------

  /** Everything the scan multiplies by. */
  ghost predicate Table(W: seq<Mpi>, wsize: nat, X: Mpi, N: Mpi, T: Mpi, a: int)
    reads W, N
  {
    1 <= wsize && Pow2(wsize) <= |W| && Apart(W, N, T) && (forall i :: 0 <= i < |W| ==> W[i] != X)
    && (forall i :: 1 <= i < Pow2(wsize) && (i == 1 || Pow2(wsize - 1) <= i) ==> Entry(W, i, a, N))
  }

  /**
   * The exponent bits read so far form pre = e * 2^nbits + pend: X holds A^e, and the nbits pending
   * bits stand left-aligned in wbits. State 0 means no set bit yet, 1 between windows, 2 inside one.
   */
  ghost predicate Window(pre: nat, e: nat, pend: nat, nbits: nat, wbits: nat, state: nat, wsize: nat) {
    nbits <= wsize && state <= 2 && pend < Pow2(nbits)
    && pre == e * Pow2(nbits) + pend && wbits == pend * Pow2(wsize - nbits)
    && (state == 0 ==> e == 0) && (state < 2 ==> nbits == 0)
    && (state == 2 ==> nbits >= 1 && pend >= Pow2(nbits - 1))
  }

  lemma Twice(x: nat, p: nat, q: nat, y: nat, b: nat)
    requires p == 2 * q && q > 0 && b <= 1
    ensures 2 * (x * q + y) + b == x * p + (2 * y + b)
    ensures (2 * y + b) * q == y * p + b * q
    ensures y * p % p == 0 && b * q < p
  {
    assert x * (2 * q) == 2 * (x * q);
    assert (2 * y) * q == y * (2 * q);
    DivUnique(y * p, p, y, 0);
    if b == 0 { assert b * q == 0; } else { assert b * q == q; }
  }

  /** wbits |= ei << ( wsize - nbits ) appends one pending bit. */
  lemma AppendBit(pre: nat, e: nat, pend: nat, nbits: nat, wbits: nat, state: nat, wsize: nat, ei: nat)
    requires Window(pre, e, pend, nbits, wbits, state, wsize) && nbits < wsize && ei <= 1 && (ei == 1 || state == 2)
    ensures Window(2 * pre + ei, e, 2 * pend + ei, nbits + 1, BitOr(wbits, ei * Pow2(wsize - nbits - 1)), 2, wsize)
  {
    hide Pow2, BitOr;
    var q := Pow2(wsize - nbits - 1);
    Pow2Next(wsize - nbits - 1);
    Pow2Next(nbits);
    Pow2Zero();
    Twice(e, Pow2(wsize - nbits), q, pend, ei);
    Twice(e, Pow2(nbits + 1), Pow2(nbits), pend, ei);
    BitOrDisjoint(wbits, ei * q, wsize - nbits);
    if nbits > 0 { Pow2Next(nbits - 1); }
  }

  /** A full window is a table index. */
  lemma FullWindow(pre: nat, e: nat, pend: nat, wbits: nat, wsize: nat)
    requires Window(pre, e, pend, wsize, wbits, 2, wsize)
    ensures wbits == pend && Pow2(wsize - 1) <= wbits < Pow2(wsize) && wsize >= 1
    ensures Window(pre, e * Pow2(wsize) + pend, 0, 0, 0, 1, wsize)
  {
    Pow2Zero();
  }

  /** X = X^(2^wsize) * W[wbits]. */
  method FlushWindow(X: Mpi, W: seq<Mpi>, N: Mpi, mm: Limb, T: Mpi, wsize: nat, wbits: nat, ghost a: int, ghost e: nat, ghost ri: nat)
    requires Ready(X, N, mm, T) && Table(W, wsize, X, N, T, a) && Pow2(wsize - 1) <= wbits < Pow2(wsize)
    requires Rep(Nat(X.p), Power(a, e), Nat(N.p), Pow(|N.p|)) && Cong(Pow(|N.p|) * ri, 1, Nat(N.p))
    modifies X, T
    ensures Ready(X, N, mm, T) && X.s == old(X.s) && |X.p| == |old(X.p)| && Table(W, wsize, X, N, T, a)
    ensures Rep(Nat(X.p), Power(a, e * Pow2(wsize) + wbits), Nat(N.p), Pow(|N.p|))
  {
    hide Nat, Pow, Cong, Power, Pow2, Rep;
    SquareTimes(X, wsize, N, mm, T, a, e, ri);
    assert Entry(W, wbits, a, N);
    MulRep(X, W[wbits], N, mm, T, Power(a, e * Pow2(wsize)), Power(a, wbits), ri);
    PowerAdd(a, e * Pow2(wsize), wbits);
  }

  /** X = X^2. */
  method SquareX(X: Mpi, W: seq<Mpi>, N: Mpi, mm: Limb, T: Mpi, wsize: nat, ghost a: int, ghost e: nat, ghost ri: nat)
    requires Ready(X, N, mm, T) && Table(W, wsize, X, N, T, a)
    requires Rep(Nat(X.p), Power(a, e), Nat(N.p), Pow(|N.p|)) && Cong(Pow(|N.p|) * ri, 1, Nat(N.p))
    modifies X, T
    ensures Ready(X, N, mm, T) && X.s == old(X.s) && |X.p| == |old(X.p)| && Table(W, wsize, X, N, T, a)
    ensures Rep(Nat(X.p), Power(a, 2 * e), Nat(N.p), Pow(|N.p|))
  {
    hide Nat, Pow, Cong, Power, Pow2, Rep;
    MulRep(X, X, N, mm, T, Power(a, e), Power(a, e), ri);
    PowerAdd(a, e, e);
    assert e + e == 2 * e;
  }

  /** One exponent bit. */
  method ProcessBit(ei: nat, X: Mpi, W: seq<Mpi>, N: Mpi, mm: Limb, T: Mpi, wsize: nat, state: nat, nbits: nat, wbits: nat,
                    ghost a: int, ghost pre: nat, ghost e: nat, ghost pend: nat, ghost ri: nat)
    returns (state': nat, nbits': nat, wbits': nat, ghost e': nat, ghost pend': nat)
    requires ei <= 1 && Ready(X, N, mm, T) && Table(W, wsize, X, N, T, a)
    requires Rep(Nat(X.p), Power(a, e), Nat(N.p), Pow(|N.p|)) && Cong(Pow(|N.p|) * ri, 1, Nat(N.p))
    requires Window(pre, e, pend, nbits, wbits, state, wsize) && nbits < wsize
    modifies X, T
    ensures Ready(X, N, mm, T) && X.s == old(X.s) && |X.p| == |old(X.p)| && Table(W, wsize, X, N, T, a)
    ensures Rep(Nat(X.p), Power(a, e'), Nat(N.p), Pow(|N.p|))
    ensures Window(2 * pre + ei, e', pend', nbits', wbits', state', wsize) && nbits' < wsize
  {
    hide Nat, Pow, Cong, Power, Pow2, Rep, BitOr, Ready, Table;
    state', nbits', wbits', e', pend' := state, nbits, wbits, e, pend;
    if ei == 0 && state == 0 {
      EmptyWindow(pre, e, pend, wbits, wsize);
      return;
    }
    if ei == 0 && state == 1 {
      SquareX(X, W, N, mm, T, wsize, a, e, ri);
      e' := 2 * e;
      BetweenWindows(pre, e, pend, wbits, wsize);
      return;
    }
    AppendBit(pre, e, pend, nbits, wbits, state, wsize, ei);
    state', nbits' := 2, nbits + 1;
    wbits' := BitOr(wbits, ei * Pow2(wsize - nbits'));
    pend' := 2 * pend + ei;
    if nbits' == wsize {
      FullWindow(2 * pre + ei, e, pend', wbits', wsize);
      FlushWindow(X, W, N, mm, T, wsize, wbits', a, e, ri);
      e' := e * Pow2(wsize) + pend';
      state', nbits', wbits', pend' := state' - 1, 0, 0, 0;
    }
  }

  lemma EmptyWindow(pre: nat, e: nat, pend: nat, wbits: nat, wsize: nat)
    requires Window(pre, e, pend, 0, wbits, 0, wsize)
    ensures pre == 0 && Window(2 * pre, e, pend, 0, wbits, 0, wsize)
  {
    assert Pow2(0) == 1;
  }

  lemma BetweenWindows(pre: nat, e: nat, pend: nat, wbits: nat, wsize: nat)
    requires Window(pre, e, pend, 0, wbits, 1, wsize)
    ensures Window(2 * pre, 2 * e, pend, 0, wbits, 1, wsize)
  {
    assert Pow2(0) == 1;
  }

  // ---------- the scan of the exponent ----------

  /** while( 1 ) { ... }: all bits of E from the top, leading zero limbs included. */
  method ScanExponent(E: Mpi, X: Mpi, W: seq<Mpi>, N: Mpi, mm: Limb, T: Mpi, wsize: nat, ghost a: int, ghost ri: nat)
    returns (nbits: nat, wbits: nat, ghost e: nat, ghost pend: nat, ghost state: nat)
    requires E != X && E != T && Ready(X, N, mm, T) && Table(W, wsize, X, N, T, a)
    requires Rep(Nat(X.p), Power(a, 0), Nat(N.p), Pow(|N.p|)) && Cong(Pow(|N.p|) * ri, 1, Nat(N.p))
    modifies X, T
    ensures Ready(X, N, mm, T) && X.s == old(X.s) && |X.p| == |old(X.p)| && Table(W, wsize, X, N, T, a)
    ensures Rep(Nat(X.p), Power(a, e), Nat(N.p), Pow(|N.p|))
    ensures Window(Nat(E.p), e, pend, nbits, wbits, state, wsize) && nbits < wsize
  {
    assert N != X && N != T;
    hide Nat, Pow, Cong, Power, Pow2, Rep, BitOr, Ready, Table, Window;
    var nblimbs, bufsize, st := |E.p|, 0, 0;
    nbits, wbits, e, pend := 0, 0, 0, 0;
    ghost var pre := 0;
    NothingRead(E.p, wsize);
    while true
      invariant 0 <= nblimbs <= |E.p| && 0 <= bufsize <= BIL && (nblimbs == |E.p| ==> bufsize == 0)
      invariant pre == Nat(E.p) / Pow2(BIL * nblimbs + bufsize)
      invariant Ready(X, N, mm, T) && X.s == old(X.s) && |X.p| == |old(X.p)| && Table(W, wsize, X, N, T, a)
      invariant Rep(Nat(X.p), Power(a, e), Nat(N.p), Pow(|N.p|))
      invariant Window(pre, e, pend, nbits, wbits, st, wsize) && nbits < wsize
      decreases BIL * nblimbs + bufsize
    {
      if bufsize == 0 {
        if nblimbs == 0 { break; }
        nblimbs := nblimbs - 1;
        bufsize := BIL;
      }
      bufsize := bufsize - 1;
      var ei := Shr(E.p[nblimbs], bufsize) % 2;
      NextBit(E.p, nblimbs, bufsize);
      st, nbits, wbits, e, pend := ProcessBit(ei, X, W, N, mm, T, wsize, st, nbits, wbits, a, pre, e, pend, ri);
      pre := 2 * pre + ei;
    }
    Pow2Zero();
    state := st;
  }

  lemma NextBit(p: seq<Limb>, i: nat, j: nat)
    requires i < |p| && j < BIL
    ensures Nat(p) / Pow2(BIL * i + j) == 2 * (Nat(p) / Pow2(BIL * i + (j + 1))) + Shr(p[i], j) % 2
  {
    hide Nat, Pow2;
    BitOfLimb(p, i, j);
    ShiftOneBit(Nat(p), BIL * i + j);
  }

  lemma NothingRead(p: seq<Limb>, wsize: nat)
    ensures Nat(p) / Pow2(BIL * |p| + 0) == 0 && Window(0, 0, 0, 0, 0, 0, wsize)
  {
    ShiftedAway(p, BIL * |p|);
    assert 0 * Pow2(wsize) == 0;
  }

  /** The bits left in an unfinished window, one squaring and at most one multiplication each. */
  method Leftover(X: Mpi, W: seq<Mpi>, N: Mpi, mm: Limb, T: Mpi, wsize: nat, nbits: nat, wbits0: nat,
                  ghost a: int, ghost e: nat, ghost pend: nat, ghost ri: nat)
    requires Ready(X, N, mm, T) && Table(W, wsize, X, N, T, a)
    requires Rep(Nat(X.p), Power(a, e), Nat(N.p), Pow(|N.p|)) && Cong(Pow(|N.p|) * ri, 1, Nat(N.p))
    requires nbits < wsize && pend < Pow2(nbits) && wbits0 == pend * Pow2(wsize - nbits)
    modifies X, T
    ensures Ready(X, N, mm, T) && X.s == old(X.s) && |X.p| == |old(X.p)|
    ensures Rep(Nat(X.p), Power(a, e * Pow2(nbits) + pend), Nat(N.p), Pow(|N.p|))
  {
    assert N != X && N != T;
    hide Nat, Pow, Cong, Power, Pow2, Rep, BitOr, Ready, Table, LeftoverState;
    ghost var f := e;
    var wbits: nat := wbits0;
    var i: nat := 0;
    LeftoverStart(e, pend, nbits, wbits, wsize);
    while i < nbits
      invariant 0 <= i <= nbits && Ready(X, N, mm, T) && X.s == old(X.s) && |X.p| == |old(X.p)|
      invariant Table(W, wsize, X, N, T, a)
      invariant Rep(Nat(X.p), Power(a, f), Nat(N.p), Pow(|N.p|))
      invariant LeftoverState(f, e, pend, i, nbits, wbits, wsize)
    {
      LeftoverNext(f, e, pend, i, nbits, wbits, wsize);
      SquareX(X, W, N, mm, T, wsize, a, f, ri);
      wbits, f := 2 * wbits, 2 * f;
      if wbits / Pow2(wsize) % 2 != 0 {
        MulByBase(X, W, N, mm, T, wsize, a, f, ri);
        f := f + 1;
      }
      i := i + 1;
    }
    LeftoverEnd(f, e, pend, nbits, wbits, wsize);
  }

  /** X = X * W[1]. */
  method MulByBase(X: Mpi, W: seq<Mpi>, N: Mpi, mm: Limb, T: Mpi, wsize: nat, ghost a: int, ghost f: nat, ghost ri: nat)
    requires Ready(X, N, mm, T) && Table(W, wsize, X, N, T, a)
    requires Rep(Nat(X.p), Power(a, f), Nat(N.p), Pow(|N.p|)) && Cong(Pow(|N.p|) * ri, 1, Nat(N.p))
    modifies X, T
    ensures Ready(X, N, mm, T) && X.s == old(X.s) && |X.p| == |old(X.p)| && Table(W, wsize, X, N, T, a)
    ensures Rep(Nat(X.p), Power(a, f + 1), Nat(N.p), Pow(|N.p|))
  {
    hide Nat, Pow, Cong, Power, Rep, Pow2;
    Pow2StrictMono(0, wsize);
    assert Entry(W, 1, a, N);
    MulRep(X, W[1], N, mm, T, Power(a, f), Power(a, 1), ri);
    PowerAdd(a, f, 1);
  }

  /** After i leftover bits X holds A^f with f = e*2^i + (the first i pending bits). */
  ghost predicate LeftoverState(f: nat, e: nat, pend: nat, i: nat, nbits: nat, wbits: nat, wsize: nat) {
    i <= nbits <= wsize && f == e * Pow2(i) + pend / Pow2(nbits - i) && wbits == pend * Pow2(wsize - nbits + i)
  }

  lemma LeftoverStart(e: nat, pend: nat, nbits: nat, wbits: nat, wsize: nat)
    requires nbits <= wsize && pend < Pow2(nbits) && wbits == pend * Pow2(wsize - nbits)
    ensures LeftoverState(e, e, pend, 0, nbits, wbits, wsize)
  {
    hide Pow2;
    Pow2Zero();
    ModSmall(pend, Pow2(nbits));
  }

  lemma LeftoverEnd(f: nat, e: nat, pend: nat, nbits: nat, wbits: nat, wsize: nat)
    requires LeftoverState(f, e, pend, nbits, nbits, wbits, wsize)
    ensures f == e * Pow2(nbits) + pend
  {
    hide Pow2;
    Pow2Zero();
  }

  /** Bit wsize of the shifted wbits is the next pending bit. */
  lemma LeftoverNext(f: nat, e: nat, pend: nat, i: nat, nbits: nat, wbits: nat, wsize: nat)
    requires i < nbits && LeftoverState(f, e, pend, i, nbits, wbits, wsize)
    ensures var b := 2 * wbits / Pow2(wsize) % 2; LeftoverState(2 * f + b, e, pend, i + 1, nbits, 2 * wbits, wsize)
  {
    hide Pow2;
    var k, m := nbits - i - 1, wsize - nbits + i;
    ShiftOneBit(pend, k);
    Doubling(e, i);
    Doubling(pend, m);
    assert 2 * wbits / Pow2(wsize) == pend / Pow2(k) by {
      Pow2Add(m + 1, k);
      TopBits(pend, Pow2(m + 1), Pow2(k));
    }
  }

  lemma Doubling(x: nat, i: nat)
    ensures 2 * (x * Pow2(i)) == x * Pow2(i + 1)
  {
    Pow2Next(i);
    assert 2 * (x * Pow2(i)) == x * (2 * Pow2(i));
  }

  lemma TopBits(x: nat, p: nat, q: nat)
    requires p > 0 && q > 0
    ensures p * q > 0 && (x * p) / (p * q) == x / q
  {
    MulMono(p, 1, q);
    DivDiv(x * p, p, q);
    Unshift(x, p);
  }

  // ---------- the whole exponentiation ----------

  /** The window size for an exponent of i bits. */
  function WindowSize(i: nat): (w: nat)
    ensures 1 <= w <= WINDOW_SIZE
  {
    var wsize := if i > 671 then 6 else if i > 239 then 5 else if i > 79 then 4 else if i > 23 then 3 else 1;
    if wsize > WINDOW_SIZE then WINDOW_SIZE else wsize
  }

  /** R^2 mod N, the value a caller may keep between calls. */
  function RSquared(n: seq<Limb>): (r: nat)
    requires Nat(n) > 0
  {
    Pow(2 * |n|) % Nat(n)
  }

  ghost predicate Cached(RR: Mpi, N: Mpi)
    reads RR, N
  {
    Nat(N.p) > 0 ==> RR.s == 1 && |RR.p| >= 1 && Nat(RR.p) == RSquared(N.p)
  }

  lemma RSquaredCong(n: seq<Limb>)
    requires Nat(n) > 0
    ensures RSquared(n) < Nat(n) && Cong(RSquared(n), Pow(|n|) * Pow(|n|), Nat(n))
  {
    hide Nat, Pow, Cong;
    PowAdd(|n|, |n|);
    CongMod(Pow(2 * |n|), Nat(n));
  }

  /** RR = 2^(2*n*biL) mod N. */
  method ComputeRR(RR: Mpi, N: Mpi)
    requires RR != N && N.Valid() && N.Val() > 0
    modifies RR
    ensures Cached(RR, N)
  {
    hide Nat, Pow, Pow2;
    RR.Lset(1);
    PowIsPow2(2 * |N.p|);
    ShiftL(RR, |N.p| * 2 * BIL);
    var _ := ModMpi(RR, RR, N);
  }

  /** W[1] = A * R mod N. */
  method EnterBase(W1: Mpi, A: Mpi, N: Mpi, RR: Mpi, mm: Limb, T: Mpi, ghost ri: nat)
    requires Ready(W1, N, mm, T) && W1 != A && W1 != RR && T != RR && T != A && |W1.p| == |N.p| + 1
    requires A.s == 1 && N.s == 1 && |A.p| >= 1 && Cached(RR, N) && Cong(Pow(|N.p|) * ri, 1, Nat(N.p))
    modifies W1, T
    ensures Ready(W1, N, mm, T) && Rep(Nat(W1.p), Nat(A.p), Nat(N.p), Pow(|N.p|))
  {
    hide Nat, Pow, Cong, Len, RSquared;
    var c := CmpMpi(A, N);
    ghost var a, n := Nat(A.p), Nat(N.p);
    if c >= 0 {
      var _ := ModMpi(W1, A, N);
      CongMod(a, n);
    } else {
      W1.Copy(A);
    }
    assert Cong(Nat(W1.p), a, n) by { CongRefl(a, n); }
    NatBound(N.p);
    RSquaredCong(N.p);
    ghost var x := Nat(W1.p);
    MontMul(W1, RR, N, mm, T);
    RepEnter(x, a, Nat(RR.p), Nat(W1.p), n, Pow(|N.p|), ri);
  }

  lemma CongRefl(a: int, n: int)
    requires n > 0
    ensures Cong(a, a, n)
  {
  }

  /** X = R mod N. */
  method EnterOne(X: Mpi, N: Mpi, RR: Mpi, mm: Limb, T: Mpi, ghost ri: nat)
    requires Ready(X, N, mm, T) && X != RR && T != RR && N.s == 1
    requires Cached(RR, N) && Cong(Pow(|N.p|) * ri, 1, Nat(N.p))
    modifies X, T
    ensures Ready(X, N, mm, T) && X.s == 1 && Rep(Nat(X.p), 1, Nat(N.p), Pow(|N.p|))
  {
    hide Nat, Pow, Cong, Len, RSquared;
    NatBound(N.p);
    RSquaredCong(N.p);
    X.Copy(RR);
    MontRed(X, N, mm, T);
    ghost var n, R := Nat(N.p), Pow(|N.p|);
    ghost var r, rr := Nat(X.p), Nat(RR.p);
    assert Cong(R * r, R * R, n) by { OneFactor(r, rr, n, R); }
    CongCancel(R, ri, r, R, n);
  }

  lemma OneFactor(r: nat, rr: nat, n: nat, R: nat)
    requires n > 0 && Cong(r * R, rr * 1, n) && Cong(rr, R * R, n)
    ensures Cong(R * r, R * R, n)
  {
    assert rr * 1 == rr && r * R == R * r;
  }

  /** The exponentiation for a nonnegative base, all buffers prepared. */
  method ExpCore(X: Mpi, A: Mpi, E: Mpi, N: Mpi, RR: Mpi, W: seq<Mpi>, T: Mpi, mm: Limb, wsize: nat, ghost ri: nat)
    requires Ready(X, N, mm, T) && X != E && X != RR && T != RR && T != A && T != E && N.s == 1 && A.s == 1 && |A.p| >= 1
    requires 1 <= wsize && Pow2(wsize) <= |W| && 1 < |W| && Apart(W, N, T)
    requires forall i :: 0 <= i < |W| ==> W[i] != X && W[i] != A && W[i] != E && W[i] != RR
    requires |W[1].p| == |N.p| + 1
    requires Cached(RR, N) && Cong(Pow(|N.p|) * ri, 1, Nat(N.p))
    modifies W, X, T
    ensures X.s == 1 && |X.p| >= 1
    ensures Nat(X.p) == Power(old(Nat(A.p)), Nat(E.p)) % Nat(N.p)
  {
    ghost var a := Nat(A.p);
    PrepareTable(X, A, N, RR, W, T, mm, wsize, ri);
    assert N != X && N != T && E != X && E != T;
    hide Nat, Pow, Cong, Len, Pow2, Power, Ready, Table, Rep;
    var nbits, wbits;
    ghost var e, pend, state;
    nbits, wbits, e, pend, state := ScanExponent(E, X, W, N, mm, T, wsize, a, ri);
    Leftover(X, W, N, mm, T, wsize, nbits, wbits, a, e, pend, ri);
    LeaveForm(X, N, mm, T, Power(a, Nat(E.p)), ri);
  }

  /** X = X * R^-1 mod N. */
  method LeaveForm(X: Mpi, N: Mpi, mm: Limb, T: Mpi, ghost v: int, ghost ri: nat)
    requires Ready(X, N, mm, T) && Rep(Nat(X.p), v, Nat(N.p), Pow(|N.p|)) && Cong(Pow(|N.p|) * ri, 1, Nat(N.p))
    modifies X, T
    ensures X.s == old(X.s) && |X.p| >= 1 && Nat(X.p) == v % Nat(N.p)
  {
    hide Nat, Pow, Cong;
    NatBound(N.p);
    ghost var x := Nat(X.p);
    MontRed(X, N, mm, T);
    RepLeave(x, v, Nat(X.p), Nat(N.p), Pow(|N.p|), ri);
  }

  lemma PowerStart(a: int)
    ensures Power(a, 0) == 1 && Power(a, 1) == a
  {
    assert Power(a, 1) == a * Power(a, 0);
  }

  method PrepareTable(X: Mpi, A: Mpi, N: Mpi, RR: Mpi, W: seq<Mpi>, T: Mpi, mm: Limb, wsize: nat, ghost ri: nat)
    requires Ready(X, N, mm, T) && X != RR && T != RR && T != A && N.s == 1 && A.s == 1 && |A.p| >= 1
    requires 1 <= wsize && Pow2(wsize) <= |W| && 1 < |W| && Apart(W, N, T)
    requires forall i :: 0 <= i < |W| ==> W[i] != X && W[i] != A && W[i] != RR
    requires |W[1].p| == |N.p| + 1
    requires Cached(RR, N) && Cong(Pow(|N.p|) * ri, 1, Nat(N.p))
    modifies W, X, T
    ensures Ready(X, N, mm, T) && Table(W, wsize, X, N, T, old(Nat(A.p))) && X.s == 1
    ensures Rep(Nat(X.p), Power(old(Nat(A.p)), 0), Nat(N.p), Pow(|N.p|))
  {
    hide Nat, Pow, Cong, Len, Pow2, Power, RSquared, Rep;
    ghost var a := Nat(A.p);
    PowerStart(a);
    EnterBase(W[1], A, N, RR, mm, T, ri);
    EnterOne(X, N, RR, mm, T, ri);
    if wsize > 1 {
      assert Entry(W, 1, a, N);
      BuildTable(W, wsize, N, mm, T, a, ri);
    } else {
      Pow2Next(0);
      Pow2Zero();
    }
  }

  /** What mpi_exp_mod returns: for a negative base it always takes N - (|A|^E mod N). */
  function ExpResult(s: int, a: nat, e: nat, n: nat): (r: int)
    requires n > 0
  {
    var m := Power(a, e) % n;
    if s == -1 then n - m else m
  }

  /**
   * X = A^E mod N. Refused exactly for a negative or even modulus or a negative exponent. The cache argument (_RR), when
   * given, is filled with R^2 mod N or, when already filled, used.
   */
  method ExpModMpi(X: Mpi, A: Mpi, E: Mpi, N: Mpi, cache: Mpi?) returns (r: Ret)
    requires A.Valid() && E.Valid() && N.Valid() && |A.p| >= 1 && |E.p| >= 1 && |N.p| >= 1
    requires X != N && X != E && cache != X && cache != A && cache != N && cache != E
    requires cache != null && |cache.p| > 0 ==> Cached(cache, N)
    modifies X, cache
    ensures r == if N.Val() < 0 || N.p[0] % 2 == 0 || E.Val() < 0 then Fail(BadInputData) else Ok
    ensures r.Fail? ==> X.p == old(X.p) && X.s == old(X.s)
    ensures r.Ok? ==> X.Valid() && |X.p| >= 1 && N.Val() > 0 && E.Val() >= 0
    ensures r.Ok? ==> X.Val() == ExpResult(old(A.s), old(Nat(A.p)), E.Val(), N.Val())
    ensures r.Ok? && old(A.s) == 1 ==>
      && X.s == 1 && X.Val() == Power(old(Nat(A.p)), E.Val()) % N.Val()
      && 0 <= X.Val() < N.Val()
    ensures r.Ok? && cache != null ==> Cached(cache, N) && |cache.p| > 0
    ensures r.Fail? && cache != null ==> cache.p == old(cache.p) && cache.s == old(cache.s)
  {
    hide Nat, Pow, Cong, Len, Pow2, Power, RSquared;
    var c := CmpInt(N, 0);
    if c < 0 || N.p[0] % 2 == 0 { return Fail(BadInputData); }
    c := CmpInt(E, 0);
    if c < 0 { return Fail(BadInputData); }
    LowBitIsParity(N.p);
    OddIsPositive(Nat(N.p));
    var neg := A.s == -1;
    ExpAbs(X, A, E, N, cache);
    if neg {
      X.s := -1;
      AddMpi(X, N, X);
    }
    return Ok;
  }

  lemma OddIsPositive(n: nat)
    requires n % 2 == 1
    ensures n > 0
  {
  }

  /** RR, taken from the cache or computed into it. */
  method LoadRR(N: Mpi, cache: Mpi?) returns (RR: Mpi)
    requires N.Valid() && N.Val() > 0 && cache != N
    requires cache != null && |cache.p| > 0 ==> Cached(cache, N)
    modifies cache
    ensures fresh(RR) && Cached(RR, N)
    ensures cache != null ==> Cached(cache, N) && |cache.p| > 0
  {
    hide Nat, Pow, RSquared;
    RR := new Mpi();
    if cache == null || |cache.p| == 0 {
      ComputeRR(RR, N);
      if cache != null { cache.s, cache.p := RR.s, RR.p; }
    } else {
      RR.s, RR.p := cache.s, cache.p;
    }
  }

  method ExpAbs(X: Mpi, A: Mpi, E: Mpi, N: Mpi, cache: Mpi?)
    requires A.Valid() && N.s == 1 && |A.p| >= 1 && |E.p| >= 1 && |N.p| >= 1 && Nat(N.p) % 2 == 1
    requires X != N && X != E && cache != X && cache != A && cache != N && cache != E
    requires cache != null && |cache.p| > 0 ==> Cached(cache, N)
    modifies X, cache
    ensures X.s == 1 && |X.p| >= 1 && Nat(X.p) == Power(old(Nat(A.p)), Nat(E.p)) % Nat(N.p)
    ensures cache != null ==> Cached(cache, N) && |cache.p| > 0
  {
    hide Nat, Pow, Cong, Len, Power, RSquared;
    OddIsPositive(Nat(N.p));
    var mm := MontgInit(N);
    var wsize := ChooseWindow(E);
    X.Grow(|N.p| + 1);
    var W, T := Scratch(N);
    var A' := NonNegative(A);
    var RR := LoadRR(N, cache);
    ghost var ri := InverseOfR(N.p);
    ExpCore(X, A', E, N, RR, W, T, mm, wsize, ri);
  }

  method ChooseWindow(E: Mpi) returns (wsize: nat)
    requires |E.p| >= 1
    ensures 1 <= wsize <= WINDOW_SIZE && Pow2(wsize) <= 128
  {
    var i := Msb(E);
    wsize := WindowSize(i);
    TableSize(wsize);
  }

  lemma InverseOfR(n: seq<Limb>) returns (ri: nat)
    requires Nat(n) % 2 == 1
    ensures Cong(Pow(|n|) * ri, 1, Nat(n))
  {
    PowIsPow2(|n|);
    ri := OddInverse(Nat(n), BIL * |n|);
  }

  /** The window table and the scratch buffer of the Montgomery products. */
  method Scratch(N: Mpi) returns (W: seq<Mpi>, T: Mpi)
    ensures |W| == 128 && Apart(W, N, T) && |W[1].p| == |N.p| + 1
    ensures fresh(T) && forall i :: 0 <= i < |W| ==> fresh(W[i])
    ensures |T.p| == 2 * |N.p| + 2
  {
    W := NewTable(128);   // 2 << WINDOW_SIZE
    W[1].Grow(|N.p| + 1);
    T := new Mpi();
    T.Grow((|N.p| + 1) * 2);
  }

  /** Compensate for negative A. */
  method NonNegative(A: Mpi) returns (A': Mpi)
    requires A.Valid() && |A.p| >= 1
    ensures A'.s == 1 && Nat(A'.p) == Nat(A.p) && |A'.p| >= 1 && (A' == A || fresh(A'))
  {
    A' := A;
    if A.s == -1 {
      A' := new Mpi();
      A'.Copy(A);
      A'.s := 1;
    }
  }

  lemma TableSize(w: nat)
    requires w <= WINDOW_SIZE
    ensures Pow2(w) <= 128
  {
    Pow2Mono(w, 7);
    Pow2Add(3, 4);
    Pow2Values();
    assert Pow2(3) == 8;
  }

  /**
   * For a negative base the closing correction ignores the parity of the exponent: the result is
   * A^E mod N in [0, N) exactly for an odd exponent and a modulus of which something is left when
   * what it shares with A is divided out E times, that is, which does not divide the power.
   */
  lemma ExpNegative(a: int, e: nat, n: nat)
    requires 0 <= a && n % 2 == 1
    ensures ExpResult(-1, a, e, n) == Power(-a, e) % n <==> e % 2 == 1 && Stripped(n, a, e) != 1
  {
    var p := Power(a, e);
    PowerNeg(a, e);
    NegativeResidue(p, n);
    DivBounds(p, n);
    PowerDivisible(n, a, e);
  }

  /** For an odd exponent it is right for every base coprime to N > 1, and for square-free N unless N divides the base. */
  lemma ExpNegativeCommon(a: int, e: nat, n: nat)
    requires 0 <= a && n % 2 == 1 && e % 2 == 1
    ensures n > 1 && Gcd(a, n) == 1 ==> ExpResult(-1, a, e, n) == Power(-a, e) % n
    ensures SquareFree(n) ==> (ExpResult(-1, a, e, n) == Power(-a, e) % n <==> a % n != 0)
  {
    ExpNegative(a, e, n);
    hide Stripped, Gcd, Power;
    if Gcd(a, n) == 1 { CoprimeStripped(n, a, e); }
    if SquareFree(n) { SquareFreeStripped(n, a, e); }
  }

  /** The concrete failure: (-2)^2 mod 7 comes out as 3, not 4. */
  lemma ExpNegativeCounterexample()
    ensures ExpResult(-1, 2, 2, 7) == 3 && Power(-2, 2) % 7 == 4
  {
    assert Power(2, 2) == 4 && Power(-2, 2) == 4;
  }
}
