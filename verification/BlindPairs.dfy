/** The blinding pair of dhm.c: the algebra, and what every call of dhm_update_blinding makes of the pair. */
module BlindPairs {
  import opened Arith
  import opened Divisors
  import opened Bignum
  import opened Binary
  import opened Draws
  import opened InvMod

  // ---------- matching pairs ----------

  /** Vi^x * Vf = 1 (mod p). */
  ghost predicate Blinding(vi: int, vf: int, x: nat, p: int)
    requires p > 0
  {
    Cong(Power(vi, x) * vf, 1, p)
  }

  lemma BlindingOnes(x: nat, p: int)
    requires p > 0
    ensures Blinding(1, 1, x, p)
  {
    PowerOne(x);
  }

  /** Squaring both values keeps the pair matched. */
  lemma BlindingSquared(vi: int, vf: int, x: nat, p: int)
    requires p > 0 && Blinding(vi, vf, x, p)
    ensures Blinding(vi * vi % p, vf * vf % p, x, p)
  {
    var a := Power(vi, x);
    PowerOfProduct(vi, vi, x);
    CongMul(a * vf, 1, a * vf, 1, p);
    Regroup(a, vf, a, vf);
    CongMod(vi * vi, p);
    CongMod(vf * vf, p);
    PowerCong(vi * vi % p, vi * vi, x, p);
    CongMul(Power(vi * vi % p, x), a * a, vf * vf % p, vf * vf, p);
  }

  /** Vf = (Vi^-1)^x is the match of Vi. */
  lemma BlindingInverse(vi: int, inv: int, x: nat, p: int)
    requires p > 1 && IsInverse(inv, vi, p)
    ensures Blinding(vi, Power(inv, x) % p, x, p)
  {
    ModSmall(1, p);
    PowerOfProduct(vi, inv, x);
    PowerCong(vi * inv, 1, x, p);
    PowerOne(x);
    CongMod(Power(inv, x), p);
    CongMul(Power(vi, x), Power(vi, x), Power(inv, x) % p, Power(inv, x), p);
  }

  /** Unblinding: ((gy*Vi mod p)^x mod p) * Vf mod p = gy^x mod p. */
  lemma Unblind(gy: int, vi: int, vf: int, x: nat, p: int)
    requires p > 0 && Blinding(vi, vf, x, p)
    ensures Power(gy * vi % p, x) % p * vf % p == Power(gy, x) % p
  {
    var a, b := Power(gy, x), Power(vi, x);
    CongMod(gy * vi, p);
    PowerCong(gy * vi % p, gy * vi, x, p);
    PowerOfProduct(gy, vi, x);
    var c := Power(gy * vi % p, x);
    CongMod(c, p);
    CongMul(c % p, a * b, vf, vf, p);
    assert (a * b) * vf == a * (b * vf);
    CongMul(a, a, b * vf, 1, p);
  }

  /** Both peers end with the same secret. */
  lemma SharedSecret(g: int, x: nat, y: nat, p: int)
    requires p > 0
    ensures Power(Power(g, y) % p, x) % p == Power(Power(g, x) % p, y) % p
  {
    CongMod(Power(g, y), p);
    PowerCong(Power(g, y) % p, Power(g, y), x, p);
    CongMod(Power(g, x), p);
    PowerCong(Power(g, x) % p, Power(g, x), y, p);
    PowerMul(g, y, x);
    PowerMul(g, x, y);
    assert y * x == x * y;
  }

  /** Only a Vi coprime to P has a match. */
  lemma BlindingNeedsInverse(vi: nat, vf: int, x: nat, p: int)
    requires p > 1 && x > 0 && Blinding(vi, vf, x, p)
    ensures Gcd(vi, p) == 1
  {
    var w := Power(vi, x - 1) * vf;
    assert Power(vi, x) * vf == vi * w by { assert (vi * Power(vi, x - 1)) * vf == vi * (Power(vi, x - 1) * vf); }
    ModSmall(1, p);
    CongMod(w, p);
    CongMul(vi, vi, w % p, w, p);
    InverseNeedsCoprime(w % p, vi, p);
  }

  /** A pair (Vi, 1) matches exactly when the power of Vi is 1; zero has none, one has. */
  lemma BlindingWithOne(vi: nat, x: nat, p: int)
    requires p > 1
    ensures Blinding(vi, 1, x, p) <==> Power(vi, x) % p == 1
  {
    ModSmall(1, p);
  }

  /** The inverse itself, left unpowered, matches exactly when the power before is 1. */
  lemma BlindingWithInverse(vi: nat, inv: int, x: nat, p: int)
    requires p > 1 && x > 0 && IsInverse(inv, vi, p)
    ensures Blinding(vi, inv, x, p) <==> Power(vi, x - 1) % p == 1
  {
    var q := Power(vi, x - 1);
    assert Power(vi, x) * inv == q * (vi * inv) by { assert (vi * q) * inv == q * (vi * inv); }
    ModSmall(1, p);
    CongMul(q, q, vi * inv, 1, p);
  }

  // ---------- one call ----------

  /** The private value last used and the two halves. */
  datatype Pair = Pair(px: nat, vi: nat, vf: nat)

  /** The halves match for the private value they were made for; before the first use they need not. */
  ghost predicate Matching(b: Pair, p: nat)
    requires p > 0
  {
    b.px > 0 ==> b.vi < p && b.vf < p && Blinding(b.vi, b.vf, b.px, p)
  }

  /** How making a new pair ends: no draw in range, a draw without an inverse, an even P, or a pair. */
  datatype Renewal = Drawless(vi: nat) | Uninvertible(vi: nat) | EvenModulus(vi: nat) | Renewed(vi: nat)

  ghost function Renew(p: nat, tape: seq<Byte>): (w: Renewal)
    requires p > 0
    ensures w.vi < p && (w.Drawless? || w.vi > 1)
    ensures w.Uninvertible? <==> !w.Drawless? && Gcd(w.vi, p) != 1
    ensures w.EvenModulus? ==> p % 2 == 0
  {
    match PickFrom(1, tape, ByteLen(p), p, p as int - 1, 11)
    case Refused(d) => Drawless(d)
    case Picked(v) => if Gcd(v, p) != 1 then Uninvertible(v) else if p % 2 == 0 then EvenModulus(v) else Renewed(v)
  }

  /** What dhm_update_blinding makes of the pair b for the private value x. */
  ghost predicate Updated(b: Pair, x: nat, p: nat, tape: seq<Byte>, c: Pair, r: Ret)
    requires p > 0
  {
    c.px == x &&
    if b.px != x then r == Ok && c == Pair(x, 1, 1)
    else if b.vi != 1 then r == Ok && c == Pair(x, b.vi * b.vi % p, b.vf * b.vf % p)
    else
      var w := Renew(p, tape);
      && c.vi == w.vi
      && match w
         case Renewed(v) => r == Ok && c.vf < p && Blinding(v, c.vf, x, p)
         case EvenModulus(v) => r == Fail(BadInputData) && IsInverse(c.vf, v, p)
         case _ => r == Fail(NotAcceptable) && c.vf == b.vf
  }

  /** Which calls succeed: all but those that need a new pair and do not get one. */
  ghost predicate Succeeds(b: Pair, x: nat, p: nat, tape: seq<Byte>)
    requires p > 0
  {
    b.px != x || b.vi != 1 || Renew(p, tape).Renewed?
  }

  /** Which calls leave a matched pair, in terms of the draws when a new pair is made. */
  ghost predicate StaysMatched(b: Pair, x: nat, p: nat, tape: seq<Byte>)
    requires p > 1 && x > 0
  {
    b.px != x || b.vi != 1 ||
    match Renew(p, tape)
    case Renewed(_) => true
    case Uninvertible(_) => false
    case Drawless(d) => Power(d, x) % p == 1
    case EvenModulus(v) => Power(v, x - 1) % p == 1
  }

  /** From a matched pair, the pair is matched again exactly then; every success is among these calls. */
  lemma MatchedAgain(b: Pair, x: nat, p: nat, tape: seq<Byte>, c: Pair, r: Ret)
    requires p > 1 && x > 0 && Matching(b, p) && Updated(b, x, p, tape, c, r)
    ensures Matching(c, p) <==> StaysMatched(b, x, p, tape)
    ensures r.Ok? ==> Matching(c, p)
  {
    hide Power, Gcd, PickFrom, Renew;
    if b.px != x {
      BlindingOnes(x, p);
    } else if b.vi != 1 {
      BlindingSquared(b.vi, b.vf, x, p);
      DivBounds(b.vi * b.vi, p);
      DivBounds(b.vf * b.vf, p);
    } else {
      MatchOfOne(b.vf, x, p);
      RenewedMatch(p, tape, x, c.vf, r);
    }
  }

  /** Vi = 1 admits only Vf = 1. */
  lemma MatchOfOne(vf: nat, x: nat, p: int)
    requires vf < p && p > 1
    ensures Blinding(1, vf, x, p) <==> vf == 1
  {
    PowerOne(x);
    ModSmall(vf, p);
    ModSmall(1, p);
  }

  lemma RenewedMatch(p: nat, tape: seq<Byte>, x: nat, vf: nat, r: Ret)
    requires p > 1 && x > 0
    requires Updated(Pair(x, 1, 1), x, p, tape, Pair(x, Renew(p, tape).vi, vf), r)
    ensures Matching(Pair(x, Renew(p, tape).vi, vf), p) <==> StaysMatched(Pair(x, 1, 1), x, p, tape)
  {
    hide Power, Gcd, PickFrom, Renew;
    var w := Renew(p, tape);
    match w {
      case Renewed(_) => {}
      case Drawless(d) => { BlindingWithOne(d, x, p); }
      case Uninvertible(v) => { if Blinding(v, vf, x, p) { BlindingNeedsInverse(v, vf, x, p); } }
      case EvenModulus(v) => { BlindingWithInverse(v, vf, x, p); }
    }
  }

  /** A pair that does not match is not mended by squaring, unless the square of what it is off by is 1. */
  lemma SquaredAgain(vi: nat, vf: nat, x: nat, p: nat)
    requires p > 0
    ensures
      var t := Power(vi, x) * vf;
      Blinding(vi * vi % p, vf * vf % p, x, p) <==> Cong(t * t, 1, p)
  {
    var a := Power(vi, x);
    PowerOfProduct(vi, vi, x);
    Regroup(a, vf, a, vf);
    CongMod(vi * vi, p);
    CongMod(vf * vf, p);
    PowerCong(vi * vi % p, vi * vi, x, p);
    CongMul(Power(vi * vi % p, x), a * a, vf * vf % p, vf * vf, p);
  }

  /** Calls one after the other that use the pair they find: n of them raise both halves to the power 2^n. */
  ghost predicate Squarings(b: seq<Pair>, x: nat, p: nat, tapes: seq<seq<Byte>>)
    requires p > 0
  {
    && |b| == |tapes| + 1
    && forall i :: 0 <= i < |tapes| ==> b[i].px == x && b[i].vi != 1 && Updated(b[i], x, p, tapes[i], b[i + 1], Ok)
  }

  lemma {:induction false} RunOfSquarings(b: seq<Pair>, x: nat, p: nat, tapes: seq<seq<Byte>>, n: nat)
    requires p > 0 && Squarings(b, x, p, tapes) && n < |b|
    ensures Cong(b[n].vi, Power(b[0].vi, Pow2(n)), p) && Cong(b[n].vf, Power(b[0].vf, Pow2(n)), p)
  {
    if n == 0 {
      Pow2Zero();
      PowerOnce(b[0].vi);
      PowerOnce(b[0].vf);
    } else {
      RunOfSquarings(b, x, p, tapes, n - 1);
      var a := b[n - 1];
      assert Updated(a, x, p, tapes[n - 1], b[(n - 1) + 1], Ok);
      hide Updated, Squarings;
      Pow2Next(n - 1);
      Squared(b[0].vi, a.vi, b[n].vi, Pow2(n - 1), p);
      Squared(b[0].vf, a.vf, b[n].vf, Pow2(n - 1), p);
    }
  }

  lemma PowerOnce(a: int)
    ensures Power(a, 1) == a
  {
    assert Power(a, 1) == a * Power(a, 0);
  }

  lemma Squared(a: int, v: int, w: int, e: nat, p: int)
    requires p > 0 && Cong(v, Power(a, e), p) && w == v * v % p
    ensures Cong(w, Power(a, 2 * e), p)
  {
    CongMul(v, Power(a, e), v, Power(a, e), p);
    PowerAdd(a, e, e);
    CongMod(v * v, p);
  }

  // ---------- the secret under any pair ----------

  /** What dhm_calc_secret computes: the blinded value raised, then times Vf. */
  function Secret(gy: nat, vi: nat, vf: nat, x: nat, p: nat): (k: nat)
    requires p > 0
    ensures k < p
  {
    DivBounds(Power(gy * vi % p, x) % p * vf, p);
    Power(gy * vi % p, x) % p * vf % p
  }

  /** For a peer's value coprime to P, and so for every one below a prime P, it is GY^X mod P exactly under a matched pair. */
  lemma SecretExact(gy: nat, vi: nat, vf: nat, x: nat, p: nat)
    requires p > 0 && Gcd(gy, p) == 1
    ensures Secret(gy, vi, vf, x, p) == Power(gy, x) % p <==> Blinding(vi, vf, x, p)
  {
    hide Gcd, Power, Secret;
    var a, t, k := Power(gy, x), Power(vi, x) * vf, Secret(gy, vi, vf, x, p);
    SecretIs(gy, vi, vf, x, p);
    FactorOne(gy, x, t, p);
    ModSmall(k, p);
  }

  lemma FactorOne(g: nat, x: nat, t: int, p: nat)
    requires p > 0 && Gcd(g, p) == 1
    ensures Cong(Power(g, x) * t, Power(g, x), p) <==> Cong(t, 1, p)
  {
    hide Gcd, Power;
    var a, u := Power(g, x), (t - 1) % p;
    CongMod(t - 1, p);
    CongMul(a, a, u, t - 1, p);
    assert a * t == a + a * (t - 1);
    DifferenceZero(a * t, a, a * (t - 1), p);
    DifferenceZero(t, 1, t - 1, p);
    PowerCoprimeDivides(g, x, u, p);
  }

  lemma SecretIs(gy: nat, vi: nat, vf: nat, x: nat, p: nat)
    requires p > 0
    ensures Cong(Secret(gy, vi, vf, x, p), Power(gy, x) * (Power(vi, x) * vf), p)
    ensures 0 <= Secret(gy, vi, vf, x, p) < p
  {
    hide Power;
    var a, b := Power(gy, x), Power(vi, x);
    CongMod(gy * vi, p);
    PowerCong(gy * vi % p, gy * vi, x, p);
    PowerOfProduct(gy, vi, x);
    ReducedTimes(Power(gy * vi % p, x), a, b, vf, p);
  }

  lemma ReducedTimes(c: int, a: int, b: int, vf: int, p: int)
    requires p > 0 && Cong(c, a * b, p)
    ensures Cong(c % p * vf % p, a * (b * vf), p) && 0 <= c % p * vf % p < p
  {
    CongMod(c, p);
    CongMul(c % p, a * b, vf, vf, p);
    assert (a * b) * vf == a * (b * vf);
    CongMod(c % p * vf, p);
  }

  lemma DifferenceZero(a: int, b: int, d: int, p: int)
    requires p > 0 && a == b + d
    ensures Cong(a, b, p) <==> d % p == 0
  {
    if d % p == 0 { CongIntro(a, b, d / p, p); }
    if Cong(a, b, p) {
      var k := CongElim(a, b, p);
      DivUnique(d, p, k, 0);
    }
  }

  lemma {:induction false} PowerCoprimeDivides(g: nat, e: nat, y: nat, p: nat)
    requires p > 0 && Gcd(g, p) == 1
    ensures Divides(p, Power(g, e) * y) <==> Divides(p, y)
    decreases e
  {
    if e > 0 {
      PowerCoprimeDivides(g, e - 1, y, p);
      PowerNatural(g, e - 1);
      MulNonNeg(Power(g, e - 1), y);
      CoprimeDivides(p, g, Power(g, e - 1) * y);
      Assoc(g, Power(g, e - 1), y);
    }
  }

  /** A pair with Vi = 0 stays one, and every secret comes out as 0. */
  lemma SecretOfZero(gy: nat, vf: nat, x: nat, p: nat)
    requires p > 1 && x > 0
    ensures Secret(gy, 0 * 0 % p, vf, x, p) == 0 && !Blinding(0, vf, x, p)
  {
    ModSmall(0, p);
    ModSmall(1, p);
    assert gy * 0 == 0 && Power(0, x) == 0 * Power(0, x - 1) == 0;
  }

  /** Any representative of the blinded value gives the same secret; without blinding it is GY^X mod P. */
  lemma SecretOfClass(gy: nat, g: int, vi: nat, vf: nat, x: nat, p: nat)
    requires p > 0 && g % p == gy * vi % p
    ensures Power(g, x) % p * vf % p == Secret(gy, vi, vf, x, p)
    ensures vf == 1 ==> Power(g, x) % p == Secret(gy, vi, 1, x, p)
  {
    CongMod(gy * vi, p);
    PowerCong(g, gy * vi % p, x, p);
    CongMod(Power(g, x), p);
  }

  /** Under a matched pair, and without one at all, it is GY^X mod P. */
  lemma SecretMatched(gy: nat, vi: nat, vf: nat, x: nat, p: nat)
    requires p > 0 && Blinding(vi, vf, x, p)
    ensures Secret(gy, vi, vf, x, p) == Power(gy, x) % p
  {
    Unblind(gy, vi, vf, x, p);
  }

  /** The secret after a successful update, from any pair. */
  lemma SecretAfter(b: Pair, x: nat, p: nat, tape: seq<Byte>, c: Pair, gy: nat)
    requires p > 1 && x > 0 && Updated(b, x, p, tape, c, Ok)
    ensures Matching(b, p) ==> Matching(c, p)
    ensures Matching(c, p) ==> Secret(gy, c.vi, c.vf, x, p) == Power(gy, x) % p
    ensures Gcd(gy, p) == 1 ==> (Secret(gy, c.vi, c.vf, x, p) == Power(gy, x) % p <==> Matching(c, p))
  {
    hide Power, Gcd, Secret, Blinding, PickFrom, Renew;
    DivBounds(b.vi * b.vi, p);
    DivBounds(b.vf * b.vf, p);
    assert Matching(c, p) <==> Blinding(c.vi, c.vf, x, p);
    if Matching(b, p) { MatchedAgain(b, x, p, tape, c, Ok); }
    if Matching(c, p) { SecretMatched(gy, c.vi, c.vf, x, p); }
    if Gcd(gy, p) == 1 { SecretExact(gy, c.vi, c.vf, x, p); }
  }

  // ---------- the two tapes that leave 0 and 1 ----------

  /** With nothing but zero bytes to draw, Vi ends as 0, which matches nothing. */
  lemma ZeroDraws(x: nat, p: nat, tape: seq<Byte>)
    requires p > 1 && x > 0 && ByteLen(p) <= MPI_MAX_SIZE && 12 * ByteLen(p) <= |tape|
    requires forall i :: 0 <= i < |tape| ==> tape[i] == 0
    ensures Renew(p, tape) == Drawless(0) && !StaysMatched(Pair(x, 1, 1), x, p, tape)
  {
    hide ByteLen;
    ZeroTape(1, tape, ByteLen(p), p, p as int - 1, 11);
    SecretOfZero(1, 1, x, p);
    BlindingWithOne(0, x, p);
  }

  /** With nothing at all to draw, Vi stays 1, which matches. */
  lemma EmptyDraws(x: nat, p: nat)
    requires p > 1 && x > 0
    ensures Renew(p, []) == Drawless(1) && StaysMatched(Pair(x, 1, 1), x, p, [])
  {
    ByteLenBounds(p);
    hide ByteLen;
    EmptyTape(1, ByteLen(p), p, p as int - 1, 11);
    PowerOne(x);
    ModSmall(1, p);
  }

  /** A value coprime to P has no power that is 0. */
  lemma PowerNotZero(gy: nat, x: nat, p: nat)
    requires p > 1 && Gcd(gy, p) == 1
    ensures Power(gy, x) % p != 0
  {
    CoprimeStripped(p, gy, x);
    PowerDivisible(p, gy, x);
  }
}
