/** Diffie-Hellman key exchange with blinding (dhm.c). */
module Dhm {
  import opened Arith
  import opened Divisors
  import opened Limbs
  import opened Bignum
  import opened Bits
  import opened Shift
  import opened AddSub
  import opened Multiply
  import opened Modulo
  import opened ExpMod
  import opened BinaryGcd
  import opened InvMod
  import opened Binary
  import opened Draws
  import opened BlindPairs

  /** f_rng: a tape of random bytes of any content and length; drawing past its end is an error. */
  class Rng {
    var tape: seq<Byte>

    method Draw(n: nat) returns (ok: bool, b: seq<Byte>)
      modifies this
      ensures ok <==> n <= |old(tape)|
      ensures ok ==> b == old(tape)[..n] && tape == old(tape)[n..]
      ensures !ok ==> b == [] && tape == old(tape)
    {
      if n <= |tape| {
        ok, b := true, tape[..n];
        tape := tape[n..];
      } else {
        ok, b := false, [];
      }
    }
  }

  /** mpi_fill_random, whose return code every caller in dhm.c drops: on an error X stays as it was. */
  method FillRandom(X: Mpi, size: nat, rng: Rng)
    requires X.s == 1
    modifies X, rng
    ensures X.s == 1 && |X.p| >= |old(X.p)|
    ensures Nat(X.p) == Drawn(old(Nat(X.p)), old(rng.tape), size) && rng.tape == Rest(old(rng.tape), size)
    ensures !CanDraw(old(rng.tape), size) ==> X.p == old(X.p)
  {
    if size > MPI_MAX_SIZE { return; }
    var ok, b := rng.Draw(size);
    if ok { ReadBinary(X, b); }
  }

  /** while( X >= P ) X >>= 1; */
  method ShrinkBelow(X: Mpi, P: Mpi)
    requires X != P && X.s == 1 && P.s == 1 && Nat(P.p) > 0
    modifies X
    ensures X.s == 1 && Nat(X.p) == Shrunk(old(Nat(X.p)), Nat(P.p)) && (|old(X.p)| >= 1 ==> |X.p| >= 1)
  {
    hide Nat, Pow2;
    assert Pow2(1) == 2 by { Pow2Next(0); Pow2Zero(); }
    var c := CmpMpi(X, P);
    while c >= 0
      invariant X.s == 1 && c == Sgn(Nat(X.p) - Nat(P.p)) && (|old(X.p)| >= 1 ==> |X.p| >= 1)
      invariant Shrunk(Nat(X.p), Nat(P.p)) == Shrunk(old(Nat(X.p)), Nat(P.p))
      decreases Nat(X.p)
    {
      ShiftR(X, 1);
      c := CmpMpi(X, P);
    }
  }

  /** One draw, shrunk below P. */
  method DrawBelow(X: Mpi, P: Mpi, size: nat, rng: Rng)
    requires X != P && X.s == 1 && P.s == 1 && Nat(P.p) > 0
    modifies X, rng
    ensures X.s == 1 && Nat(X.p) == Shrunk(Drawn(old(Nat(X.p)), old(rng.tape), size), Nat(P.p)) < Nat(P.p)
    ensures rng.tape == Rest(old(rng.tape), size) && (|old(X.p)| >= 1 ==> |X.p| >= 1)
  {
    hide Nat, Drawn, Rest;
    FillRandom(X, size, rng);
    ShrinkBelow(X, P);
  }

  /** 2 <= param <= P - 2 */
  method CheckRange(param: Mpi, P: Mpi) returns (ok: bool)
    requires param.Valid() && P.Valid()
    ensures ok <==> 2 <= param.Val() <= P.Val() - 2
  {
    hide Nat;
    var L := new Mpi();
    L.Lset(2);
    var U := new Mpi();
    SubInt(U, P, 2);
    var c := CmpMpi(param, L);
    if c < 0 { return false; }
    c := CmpMpi(param, U);
    return c <= 0;
  }

  // ---------- the context ----------

  class Context {
    var len: nat    // size of P in bytes
    const P: Mpi
    const G: Mpi
    const X: Mpi
    const GX: Mpi
    const GY: Mpi
    const K: Mpi
    const RP: Mpi
    const Vi: Mpi
    const Vf: Mpi
    const pX: Mpi

    ghost predicate Separate() {
      P != G && P != X && P != GX && P != GY && P != K && P != RP && P != Vi && P != Vf && P != pX
      && G != X && G != GX && G != GY && G != K && G != RP && G != Vi && G != Vf && G != pX
      && X != GX && X != GY && X != K && X != RP && X != Vi && X != Vf && X != pX
      && GX != GY && GX != K && GX != RP && GX != Vi && GX != Vf && GX != pX
      && GY != K && GY != RP && GY != Vi && GY != Vf && GY != pX
      && K != RP && K != Vi && K != Vf && K != pX
      && RP != Vi && RP != Vf && RP != pX
      && Vi != Vf && Vi != pX
      && Vf != pX
    }

    /** Every number is in range of its type, the R^2 cache belongs to P, and a pair that was used has its buffers. */
    ghost predicate Formed()
      reads this, P, G, X, GX, GY, K, RP, Vi, Vf, pX
    {
      Separate() && P.s == 1 && G.s == 1 && X.s == 1 && GX.s == 1 && GY.s == 1 && K.s == 1 && Vi.s == 1 && Vf.s == 1 && pX.s == 1
      && Nat(P.p) > 0 && (|RP.p| > 0 ==> Cached(RP, P))
      && (Nat(pX.p) > 0 ==> |Vi.p| >= 1 && |Vf.p| >= 1)
    }

    /** The private value last used and its blinding pair. */
    ghost function Blinders(): Pair
      reads pX, Vi, Vf
    {
      Pair(Nat(pX.p), Nat(Vi.p), Nat(Vf.p))
    }

    /** Once used, the private value pX has a matched blinding pair. */
    ghost predicate Matched()
      reads P, Vi, Vf, pX
    {
      Nat(P.p) > 0 ==> Matching(Blinders(), Nat(P.p))
    }

    /** dhm_init: everything empty. (The sign of a cleared mpi is 0, not 1; an empty number compares the same with either.) */
    constructor ()
      ensures len == 0 && Separate() && fresh({P, G, X, GX, GY, K, RP, Vi, Vf, pX})
      ensures P.p == [] && G.p == [] && X.p == [] && GX.p == [] && GY.p == [] && K.p == [] && RP.p == []
      ensures Vi.p == [] && Vf.p == [] && pX.p == []
      ensures P.s == 1 && G.s == 1 && X.s == 1 && GX.s == 1 && GY.s == 1 && K.s == 1 && Vi.s == 1 && Vf.s == 1 && pX.s == 1
      ensures Matched()
    {
      len := 0;
      P := new Mpi();
      G := new Mpi();
      X := new Mpi();
      GX := new Mpi();
      GY := new Mpi();
      K := new Mpi();
      RP := new Mpi();
      Vi := new Mpi();
      Vf := new Mpi();
      pX := new Mpi();
    }

    /** Vi = random( 2, P-1 ); the twelfth draw is refused whatever it gave. */
    method PickBlinder(rng: Rng) returns (r: Ret)
      requires Formed()
      modifies Vi, rng
      ensures Vi.s == 1 && (|old(Vi.p)| >= 1 ==> |Vi.p| >= 1)
      ensures
        match PickFrom(old(Nat(Vi.p)), old(rng.tape), ByteLen(Nat(P.p)), Nat(P.p), Nat(P.p) - 1, 11)
        case Picked(v) => r == Ok && Nat(Vi.p) == v
        case Refused(d) => r == Fail(NotAcceptable) && Nat(Vi.p) == d
    {
      hide Nat, Shrunk, ByteLen, PickFrom, Drawn, Rest;
      NatPositive(P.p);
      ghost var p: nat, hi: int := Nat(P.p), Nat(P.p) - 1;
      ghost var goal := PickFrom(Nat(Vi.p), rng.tape, ByteLen(p), p, hi, 11);
      var count, c := 0, 0;
      while c <= 0
        invariant 0 <= count <= 11 && Vi.s == 1 && (|old(Vi.p)| >= 1 ==> |Vi.p| >= 1)
        invariant if c <= 0 then PickFrom(Nat(Vi.p), rng.tape, ByteLen(p), p, hi, 11 - count) == goal else goal == Picked(Nat(Vi.p))
        decreases 12 - count
      {
        PickStep(Nat(Vi.p), rng.tape, ByteLen(p), p, hi, 11 - count);
        var size := Size(P);
        DrawBelow(Vi, P, size, rng);
        if count > 10 { return Fail(NotAcceptable); }
        c := CmpInt(Vi, 1);
        count := count + 1;
      }
      return Ok;
    }

    /** First use of X, squaring, or a fresh pair; from a matched pair every success leaves a matched one. */
    method UpdateBlinding(rng: Rng) returns (r: Ret)
      requires Formed() && 2 <= Nat(X.p) <= Nat(P.p) - 2
      modifies pX, Vi, Vf, RP, rng
      ensures Formed()
      ensures Updated(old(Blinders()), Nat(X.p), Nat(P.p), old(rng.tape), Blinders(), r)
      ensures r.Ok? ==> |Vi.p| >= 1 && |Vf.p| >= 1
      ensures old(Matched()) ==>
        && (Matched() <==> StaysMatched(old(Blinders()), Nat(X.p), Nat(P.p), old(rng.tape)))
        && (r.Ok? ==> Matched())
      ensures r.Ok? <==> Succeeds(old(Blinders()), Nat(X.p), Nat(P.p), old(rng.tape))
    {
      hide Nat, Renew;
      ghost var b, x, p, tape := Blinders(), Nat(X.p), Nat(P.p), rng.tape;
      r := ChangeBlinding(rng);
      if Matching(b, p) { MatchedAgain(b, x, p, tape, Blinders(), r); }
    }

    /** The body of dhm_update_blinding. */
    method ChangeBlinding(rng: Rng) returns (r: Ret)
      requires Formed() && 2 <= Nat(X.p) <= Nat(P.p) - 2
      modifies pX, Vi, Vf, RP, rng
      ensures Formed()
      ensures Updated(old(Blinders()), Nat(X.p), Nat(P.p), old(rng.tape), Blinders(), r)
      ensures r.Ok? ==> |Vi.p| >= 1 && |Vf.p| >= 1
    {
      hide Nat, Blinding, Len, Renew;
      NatPositive(P.p);
      NatPositive(X.p);
      var c := CmpMpi(X, pX);
      if c != 0 {
        pX.Copy(X);
        Vi.Lset(1);
        Vf.Lset(1);
        return Ok;
      }
      c := CmpInt(Vi, 1);
      if c != 0 {
        SquareBlinding();
        return Ok;
      }
      r := NewBlinding(rng);
    }

    method SquareBlinding()
      requires Formed() && Nat(pX.p) > 0
      modifies Vi, Vf
      ensures Formed()
      ensures Nat(Vi.p) == old(Nat(Vi.p)) * old(Nat(Vi.p)) % Nat(P.p)
      ensures Nat(Vf.p) == old(Nat(Vf.p)) * old(Nat(Vf.p)) % Nat(P.p)
    {
      hide Nat, Blinding, Len;
      NatPositive(P.p);
      MulMpi(Vi, Vi, Vi);
      var _ := ModMpi(Vi, Vi, P);
      MulMpi(Vf, Vf, Vf);
      var _ := ModMpi(Vf, Vf, P);
    }

    /** Vi = random( 2, P-1 ); Vf = Vi^-X mod P. */
    method NewBlinding(rng: Rng) returns (r: Ret)
      requires Formed() && 2 <= Nat(X.p) <= Nat(P.p) - 2 && Nat(pX.p) == Nat(X.p) && Nat(Vi.p) == 1
      modifies Vi, Vf, RP, rng
      ensures Formed()
      ensures Updated(old(Blinders()), Nat(X.p), Nat(P.p), old(rng.tape), Blinders(), r)
    {
      hide Nat, PickFrom, ByteLen, Blinding, Gcd, IsInverse;
      r := PickBlinder(rng);
      if r.Fail? { return; }
      r := MatchBlinder();
    }

    /** Vf = Vi^-X mod P; refused without an inverse, and with the bare inverse in Vf for an even P. */
    method MatchBlinder() returns (r: Ret)
      requires Formed() && 2 <= Nat(X.p) <= Nat(P.p) - 2 && 1 < Nat(Vi.p) < Nat(P.p)
      modifies Vf, RP
      ensures Formed()
      ensures
        if Gcd(Nat(Vi.p), Nat(P.p)) != 1 then r == Fail(NotAcceptable) && Nat(Vf.p) == old(Nat(Vf.p))
        else if Nat(P.p) % 2 == 0 then r == Fail(BadInputData) && IsInverse(Nat(Vf.p), Nat(Vi.p), Nat(P.p))
        else r == Ok && Nat(Vf.p) < Nat(P.p) && Blinding(Nat(Vi.p), Nat(Vf.p), Nat(X.p), Nat(P.p))
    {
      hide Nat, Blinding, Len, Gcd, RSquared, IsInverse;
      NatPositive(P.p);
      NatPositive(X.p);
      NatPositive(Vi.p);
      LowBitIsParity(P.p);
      :- InvModMpi(Vf, Vi, P);
      ghost var inv := Nat(Vf.p);
      :- ExpModMpi(Vf, Vf, X, P, RP);
      BlindingInverse(Nat(Vi.p), inv, Nat(X.p), Nat(P.p));
      return Ok;
    }

    /** X = random in [2, P - 2]; the twelfth draw is refused whatever it gave. */
    method PickPrivate(xSize: nat, rng: Rng) returns (r: Ret)
      requires Formed()
      modifies X, rng
      ensures X.s == 1
      ensures
        match PickFrom(old(Nat(X.p)), old(rng.tape), xSize, Nat(P.p), Nat(P.p) - 2, 11)
        case Picked(v) => r == Ok && Nat(X.p) == v
        case Refused(d) => r == Fail(BadInputData) && Nat(X.p) == d
    {
      hide Nat, Shrunk, PickFrom, Drawn, Rest;
      ghost var p: nat, hi: int := Nat(P.p), Nat(P.p) - 2;
      ghost var goal := PickFrom(Nat(X.p), rng.tape, xSize, p, hi, 11);
      var count, ok := 0, false;
      while !ok
        invariant 0 <= count <= 11 && X.s == 1
        invariant if ok then goal == Picked(Nat(X.p)) else PickFrom(Nat(X.p), rng.tape, xSize, p, hi, 11 - count) == goal
        decreases 12 - count, !ok
      {
        PickStep(Nat(X.p), rng.tape, xSize, p, hi, 11 - count);
        DrawBelow(X, P, xSize, rng);
        if count > 10 { return Fail(BadInputData); }
        count := count + 1;
        ok := CheckRange(X, P);
      }
      return Ok;
    }

    /** The draws give a private value, P is odd, and the public value is in range. */
    static ghost predicate KeyExists(p: seq<Limb>, g: nat, x: nat, tape: seq<Byte>, xSize: nat) {
      Nat(p) > 0 && p[0] % 2 == 1 &&
      var k := PickFrom(x, tape, xSize, Nat(p), Nat(p) - 2, 11);
      k.Picked? && 2 <= Power(g, k.v) % Nat(p) <= Nat(p) - 2
    }

    /** X = random, GX = G^X mod P, both in [2, P - 2]: the part that dhm_make_params and dhm_make_public share. */
    method MakeKey(xSize: nat, rng: Rng) returns (r: Ret)
      requires Separate() && P.s == 1 && (Nat(P.p) > 0 ==> Formed()) && |G.p| >= 1
      modifies X, GX, RP, rng
      ensures r.Ok? <==> KeyExists(P.p, Nat(G.p), old(Nat(X.p)), old(rng.tape), xSize)
      ensures Nat(P.p) == 0 ==> r == Fail(BadInputData) && X.p == old(X.p) && GX.p == old(GX.p)
      ensures r.Ok? ==> Formed() && |GX.p| >= 1
      ensures r.Ok? ==> PickFrom(old(Nat(X.p)), old(rng.tape), xSize, Nat(P.p), Nat(P.p) - 2, 11) == Picked(Nat(X.p))
      ensures r.Ok? ==> Nat(GX.p) == Power(Nat(G.p), Nat(X.p)) % Nat(P.p) && 2 <= Nat(GX.p) <= Nat(P.p) - 2
    {
      hide Nat, Len, Power, RSquared, PickFrom, CanDraw;
      var c := CmpInt(P, 0);
      if c == 0 { return Fail(BadInputData); }
      :- PickPrivate(xSize, rng);
      NatPositive(X.p);
      NatPositive(P.p);
      :- ExpModMpi(GX, G, X, P, RP);
      var ok := CheckRange(GX, P);
      if !ok { return Fail(BadInputData); }
      return Ok;
    }

    /** Create the own private value X and export GX = G^X mod P. */
    method MakePublic(xSize: nat, output: array<Byte>, olen: nat, rng: Rng) returns (r: Ret)
      requires Separate() && P.s == 1 && (Nat(P.p) > 0 ==> Formed()) && |G.p| >= 1
      requires olen <= output.Length
      modifies X, GX, RP, rng, output
      ensures olen < 1 || olen > len || Nat(P.p) == 0 ==> r == Fail(BadInputData) && X.p == old(X.p) && GX.p == old(GX.p)
      ensures r.Ok? <==>
        && 1 <= olen <= len && KeyExists(P.p, Nat(G.p), old(Nat(X.p)), old(rng.tape), xSize)
        && ByteLen(Nat(GX.p)) <= olen
      ensures r.Ok? ==> Formed() && 2 <= Nat(X.p) <= Nat(P.p) - 2
      ensures r.Ok? ==> Nat(GX.p) == Power(Nat(G.p), Nat(X.p)) % Nat(P.p) && 2 <= Nat(GX.p) <= Nat(P.p) - 2
      ensures r.Ok? ==> output[..olen] == BytesOf(Nat(GX.p), olen) && BytesNat(output[..olen]) == Nat(GX.p)
    {
      hide Nat, Len, Power, BytesOf, ByteLen, BytesNat, RSquared, KeyExists, PickFrom;
      if olen < 1 || olen > len { return Fail(BadInputData); }
      :- MakeKey(xSize, rng);
      r := WriteBinary(GX, output, 0, olen);
      assert output[0..olen] == output[..olen];
    }

    /** Import the peer's public value. */
    method ReadPublic(input: seq<Byte>) returns (r: Ret)
      requires Formed()
      modifies GY
      ensures Formed()
      ensures r == if |input| < 1 || |input| > len then Fail(BadInputData) else Ok
      ensures r.Ok? ==> Nat(GY.p) == BytesNat(input)
      ensures r.Fail? ==> GY.p == old(GY.p)
    {
      hide Nat, BytesNat;
      if |input| < 1 || |input| > len { return Fail(BadInputData); }
      ReadBinary(GY, input);
      return Ok;
    }

    /** GYb = GY * Vi mod P, or GY itself without a random source. */
    method BlindPeer(rng: Rng?) returns (r: Ret, GYb: Mpi, ghost vi: nat, ghost vf: nat)
      requires Formed() && 2 <= Nat(X.p) <= Nat(P.p) - 2 && 2 <= Nat(GY.p)
      modifies pX, Vi, Vf, RP, rng
      ensures Formed() && fresh(GYb)
      ensures rng == null ==> r.Ok? && vi == 1 && vf == 1 && Blinders() == old(Blinders())
      ensures rng != null ==> Updated(old(Blinders()), Nat(X.p), Nat(P.p), old(rng.tape), Blinders(), r)
      ensures r.Ok? <==> rng == null || Succeeds(old(Blinders()), Nat(X.p), Nat(P.p), old(rng.tape))
      ensures r.Ok? && rng != null ==> vi == Nat(Vi.p) && vf == Nat(Vf.p) && |Vf.p| >= 1
      ensures r.Ok? ==> GYb.s == 1 && |GYb.p| >= 1 && Nat(GYb.p) % Nat(P.p) == Nat(GY.p) * vi % Nat(P.p)
    {
      hide Nat, Blinding, Len, Updated, Succeeds;
      NatPositive(GY.p);
      NatPositive(P.p);
      GYb := new Mpi();
      vi, vf := 1, 1;
      if rng != null {
        r := UpdateBlinding(rng);
        if r.Fail? { return; }
        vi, vf := Nat(Vi.p), Nat(Vf.p);
        MulMpi(GYb, GY, Vi);
        var _ := ModMpi(GYb, GYb, P);
        CongMod(Nat(GY.p) * vi, Nat(P.p));
      } else {
        GYb.Copy(GY);
        r := Ok;
      }
    }

    /** K = GYb^X mod P, then times Vf mod P when blinded. */
    method RaiseAndUnblind(GYb: Mpi, blinded: bool, ghost vi: nat, ghost vf: nat) returns (r: Ret)
      requires Formed() && Nat(X.p) >= 2 && GYb != K && GYb != RP && GYb.s == 1 && |GYb.p| >= 1
      requires GYb != Vf && |P.p| >= 1
      requires if blinded then vf == Nat(Vf.p) && |Vf.p| >= 1 else vi == vf == 1
      requires Nat(GYb.p) % Nat(P.p) == Nat(GY.p) * vi % Nat(P.p)
      modifies K, RP
      ensures Formed() && r == if Nat(P.p) % 2 == 1 then Ok else Fail(BadInputData)
      ensures r.Ok? ==> |K.p| >= 1 && Nat(K.p) == Secret(Nat(GY.p), vi, vf, Nat(X.p), Nat(P.p))
    {
      hide Nat, Blinding, Len, Power, RSquared, Secret;
      NatPositive(X.p);
      LowBitIsParity(P.p);
      ghost var gy, g, x, p := Nat(GY.p), Nat(GYb.p), Nat(X.p), Nat(P.p);
      :- ExpModMpi(K, GYb, X, P, RP);
      SecretOfClass(gy, g, vi, vf, x, p);
      if blinded {
        MulMpi(K, K, Vf);
        var _ := ModMpi(K, K, P);
      }
      return Ok;
    }

    /**
     * What dhm_calc_secret does past its two early refusals: the pair changes by one update, and the
     * secret is the one that the new pair gives.
     */
    ghost predicate Derived(b: Pair, tape: seq<Byte>, blinded: bool, r: Ret)
      reads P, GY, X, K, pX, Vi, Vf
    {
      Nat(P.p) > 0 &&
      if blinded then
        exists u: Ret :: Updated(b, Nat(X.p), Nat(P.p), tape, Blinders(), u)
          && r == (if u.Ok? && Nat(P.p) % 2 == 0 then Fail(BadInputData) else u)
          && (r.Ok? ==> Nat(K.p) == Secret(Nat(GY.p), Nat(Vi.p), Nat(Vf.p), Nat(X.p), Nat(P.p)))
      else
        && Blinders() == b && r == (if Nat(P.p) % 2 == 0 then Fail(BadInputData) else Ok)
        && (r.Ok? ==> Nat(K.p) == Secret(Nat(GY.p), 1, 1, Nat(X.p), Nat(P.p)))
    }

    /** Blind the peer's value, raise it, unblind the result. */
    method Derive(rng: Rng?) returns (r: Ret)
      requires Formed() && 2 <= Nat(X.p) <= Nat(P.p) - 2 && 2 <= Nat(GY.p)
      modifies pX, Vi, Vf, RP, K, rng
      ensures Formed() && Derived(old(Blinders()), if rng == null then [] else old(rng.tape), rng != null, r)
      ensures r.Ok? <==>
        Nat(P.p) % 2 == 1 && (rng == null || Succeeds(old(Blinders()), Nat(X.p), Nat(P.p), old(rng.tape)))
      ensures r.Ok? ==> |K.p| >= 1 && Nat(K.p) < Nat(P.p)
    {
      hide Nat, Blinding, Len, Power, RSquared, Updated, Secret, Succeeds;
      NatPositive(P.p);
      var GYb;
      ghost var vi, vf;
      r, GYb, vi, vf := BlindPeer(rng);
      if r.Fail? { return; }
      r := RaiseAndUnblind(GYb, rng != null, vi, vf);
    }

    /** Under a matched pair the secret is GY^X mod P. */
    lemma DerivedMatched(b: Pair, tape: seq<Byte>, blinded: bool)
      requires Nat(P.p) > 1 && Nat(X.p) > 0 && Derived(b, tape, blinded, Ok)
      ensures Matching(b, Nat(P.p)) ==> Matched()
      ensures !blinded || Matched() ==> Nat(K.p) == Power(Nat(GY.p), Nat(X.p)) % Nat(P.p)
      ensures blinded && Gcd(Nat(GY.p), Nat(P.p)) == 1 ==>
        (Nat(K.p) == Power(Nat(GY.p), Nat(X.p)) % Nat(P.p) <==> Matched())
    {
      hide Nat, Blinding, Power, Updated, Secret, Gcd;
      if blinded {
        SecretAfter(b, Nat(X.p), Nat(P.p), tape, Blinders(), Nat(GY.p));
      } else {
        BlindingOnes(Nat(X.p), Nat(P.p));
        SecretMatched(Nat(GY.p), 1, 1, Nat(X.p), Nat(P.p));
      }
    }

    /** Derive and export the shared secret, GY^X mod P under a matched pair. */
    method CalcSecret(output: array<Byte>, olen: nat, rng: Rng?) returns (r: Ret, olen': nat)
      requires Formed() && 2 <= Nat(X.p) <= Nat(P.p) - 2
      requires olen <= output.Length && len == ByteLen(Nat(P.p))
      modifies pX, Vi, Vf, RP, K, rng, output
      ensures Formed()
      ensures
        if olen < len || !(2 <= Nat(GY.p) <= Nat(P.p) - 2) then r == Fail(BadInputData) && Blinders() == old(Blinders())
        else Derived(old(Blinders()), if rng == null then [] else old(rng.tape), rng != null, r)
      ensures r.Ok? <==>
        && olen >= len && 2 <= Nat(GY.p) <= Nat(P.p) - 2 && Nat(P.p) % 2 == 1
        && (rng == null || Succeeds(old(Blinders()), Nat(X.p), Nat(P.p), old(rng.tape)))
      ensures r.Ok? ==> olen' == ByteLen(Nat(K.p)) <= output.Length && output[..olen'] == BytesOf(Nat(K.p), olen')
      ensures r.Ok? && old(Matched()) ==> Matched()
      ensures r.Ok? && (rng == null || Matched()) ==> Nat(K.p) == Power(Nat(GY.p), Nat(X.p)) % Nat(P.p)
      ensures r.Ok? && rng != null && Gcd(Nat(GY.p), Nat(P.p)) == 1 ==>
        (Nat(K.p) == Power(Nat(GY.p), Nat(X.p)) % Nat(P.p) <==> Matched())
    {
      hide Nat, Len, Power, BytesOf, ByteLen, BytesNat, RSquared, Derived, Matching, Gcd, Succeeds;
      olen' := olen;
      if olen < len { return Fail(BadInputData), olen'; }
      var ok := CheckRange(GY, P);
      if !ok { return Fail(BadInputData), olen'; }
      ghost var b, tape := Blinders(), if rng == null then [] else rng.tape;
      r := Derive(rng);
      if r.Fail? { return; }
      DerivedMatched(b, tape, rng != null);
      SecretFits(Nat(K.p), Nat(P.p));
      olen' := Size(K);
      r := WriteBinary(K, output, 0, olen');
      assert output[0..olen'] == output[..olen'];
    }
  }

  /** The secret is not longer than the prime. */
  lemma SecretFits(k: nat, p: nat)
    requires k < p
    ensures ByteLen(k) <= ByteLen(p)
  {
    ByteLenBounds(p);
    ByteLenAtMost(k, ByteLen(p));
  }

  /**
   * A regeneration from zero bytes fails, and the call after it succeeds with the secret 0, which is
   * not GY^X mod P.
   */
  method SecretAfterZeroDraws(c: Context, output: array<Byte>, olen: nat, rng: Rng) returns (first: Ret, second: Ret, n: nat)
    requires c.Formed() && 2 <= Nat(c.X.p) <= Nat(c.P.p) - 2 && c.len == ByteLen(Nat(c.P.p)) <= olen <= output.Length
    requires 2 <= Nat(c.GY.p) <= Nat(c.P.p) - 2 && Gcd(Nat(c.GY.p), Nat(c.P.p)) == 1 && Nat(c.P.p) % 2 == 1
    requires c.Blinders() == Pair(Nat(c.X.p), 1, 1) && c.len <= MPI_MAX_SIZE && 12 * c.len <= |rng.tape|
    requires forall i :: 0 <= i < |rng.tape| ==> rng.tape[i] == 0
    modifies c.pX, c.Vi, c.Vf, c.RP, c.K, rng, output
    ensures first == Fail(NotAcceptable) && second == Ok && Nat(c.K.p) == 0 && n == 0
    ensures Power(Nat(c.GY.p), Nat(c.X.p)) % Nat(c.P.p) != 0
  {
    hide Nat, Power, Gcd, ByteLen, BytesOf, Renew, Blinding, Secret;
    ghost var gy, x, p := Nat(c.GY.p), Nat(c.X.p), Nat(c.P.p);
    ZeroDraws(x, p, rng.tape);
    first, n := c.CalcSecret(output, olen, rng);
    assert c.Blinders() == Pair(x, 0, 1);
    second, n := c.CalcSecret(output, olen, rng);
    SecretOfZero(gy, Nat(c.Vf.p), x, p);
    PowerNotZero(gy, x, p);
    NoBytes();
  }

  lemma NoBytes()
    ensures ByteLen(0) == 0
  {
  }
}
