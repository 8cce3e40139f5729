/** Random numbers as dhm.c draws them: bytes from a tape, halved until they are below a bound. */
module Draws {
  import opened Arith
  import opened Binary

  const MPI_MAX_SIZE: nat := 1024

  /** A draw can fail for lack of random bytes; the number that was there before then stays. */
  predicate CanDraw(tape: seq<Byte>, size: nat) {
    size <= MPI_MAX_SIZE && size <= |tape|
  }

  function Drawn(x: nat, tape: seq<Byte>, size: nat): nat {
    if CanDraw(tape, size) then BytesNat(tape[..size]) else x
  }

  function Rest(tape: seq<Byte>, size: nat): seq<Byte> {
    if CanDraw(tape, size) then tape[size..] else tape
  }

  /** x halved as often as it takes to get below p. */
  function Shrunk(x: nat, p: nat): (r: nat)
    requires p > 0
    ensures r < p
  {
    if x < p then x else Shrunk(x / 2, p)
  }

  // ---------- drawing a number ----------

  /** The number found, or what the last draw left. */
  datatype Pick = Refused(last: nat) | Picked(v: nat)

  /** Draw and shrink below p until the number is in [2, hi]; what is drawn after that many tries is not looked at. */
  function PickFrom(x: nat, tape: seq<Byte>, size: nat, p: nat, hi: int, tries: nat): (r: Pick)
    requires p > 0
    ensures r.Picked? ==> 2 <= r.v <= hi && r.v < p
    ensures r.Refused? ==> r.last < p
    decreases tries
  {
    var v := Shrunk(Drawn(x, tape, size), p);
    if tries == 0 then Refused(v)
    else if 2 <= v <= hi then Picked(v)
    else PickFrom(v, Rest(tape, size), size, p, hi, tries - 1)
  }

  lemma PickStep(x: nat, tape: seq<Byte>, size: nat, p: nat, hi: int, tries: nat)
    requires p > 0
    ensures
      var v := Shrunk(Drawn(x, tape, size), p);
      PickFrom(x, tape, size, p, hi, tries) ==
        if tries == 0 then Refused(v) else if 2 <= v <= hi then Picked(v) else PickFrom(v, Rest(tape, size), size, p, hi, tries - 1)
  {
  }

  /** The i-th draw from a tape. */
  function DrawAt(tape: seq<Byte>, size: nat, i: nat): seq<Byte>
    decreases i
  {
    if |tape| < size then []
    else if i == 0 then tape[..size]
    else DrawAt(tape[size..], size, i - 1)
  }

  predicate GoodDraw(tape: seq<Byte>, size: nat, p: nat, hi: int, i: nat)
    requires p > 0
  {
    2 <= Shrunk(BytesNat(DrawAt(tape, size, i)), p) <= hi
  }

  /** With bytes enough, a number is found exactly when one of the draws looked at is in range. */
  lemma {:induction false} PickExact(x: nat, tape: seq<Byte>, size: nat, p: nat, hi: int, tries: nat)
    requires p > 0 && size <= MPI_MAX_SIZE && tries * size <= |tape|
    ensures PickFrom(x, tape, size, p, hi, tries).Picked? <==> exists i: nat :: i < tries && GoodDraw(tape, size, p, hi, i)
    decreases tries
  {
    hide BytesNat, Shrunk;
    if tries > 0 {
      MulMono(size, 1, tries);
      assert (tries - 1) * size == tries * size - size;
      assert DrawAt(tape, size, 0) == tape[..size];
      var v := Shrunk(BytesNat(tape[..size]), p);
      if 2 <= v <= hi {
        assert GoodDraw(tape, size, p, hi, 0);
      } else {
        PickExact(v, tape[size..], size, p, hi, tries - 1);
        forall i: nat | 0 < i < tries ensures GoodDraw(tape, size, p, hi, i) <==> GoodDraw(tape[size..], size, p, hi, i - 1) {
          assert DrawAt(tape, size, i) == DrawAt(tape[size..], size, i - 1);
        }
        assert !GoodDraw(tape, size, p, hi, 0);
        forall i: nat | i < tries - 1 && GoodDraw(tape[size..], size, p, hi, i) ensures GoodDraw(tape, size, p, hi, i + 1) {
        }
      }
    }
  }

  /** Zero bytes give the number 0, however often they are drawn. */
  lemma {:induction false} ZeroTape(x: nat, tape: seq<Byte>, size: nat, p: nat, hi: int, tries: nat)
    requires p > 0 && size <= MPI_MAX_SIZE && (tries + 1) * size <= |tape|
    requires forall i :: 0 <= i < |tape| ==> tape[i] == 0
    ensures PickFrom(x, tape, size, p, hi, tries) == Refused(0)
    decreases tries
  {
    hide BytesNat;
    MulMono(size, 1, tries + 1);
    BytesZeros(tape[..size]);
    if tries > 0 {
      assert tries * size == (tries + 1) * size - size;
      ZeroTape(0, tape[size..], size, p, hi, tries - 1);
    }
  }

  /** Without a byte on the tape the number stays what it was. */
  lemma {:induction false} EmptyTape(x: nat, size: nat, p: nat, hi: int, tries: nat)
    requires x < 2 && x < p && size > 0
    ensures PickFrom(x, [], size, p, hi, tries) == Refused(x)
    decreases tries
  {
    if tries > 0 { EmptyTape(x, size, p, hi, tries - 1); }
  }

  // ---------- which number is found ----------

  /** Halving stops at the first value below p. */
  lemma {:induction false} ShrunkIs(x: nat, p: nat) returns (j: nat)
    requires p > 0
    ensures Shrunk(x, p) == x / Pow2(j) < p && (j > 0 ==> x / Pow2(j - 1) >= p)
    decreases x
  {
    if x < p {
      j := 0;
      Pow2Zero();
    } else {
      var k := ShrunkIs(x / 2, p);
      j := k + 1;
      Pow2Next(k);
      DivDiv(x, 2, Pow2(k));
      if k > 0 {
        Pow2Next(k - 1);
        DivDiv(x, 2, Pow2(k - 1));
      } else {
        Pow2Zero();
      }
    }
  }

  /** The i-th draw is the i-th piece of the tape. */
  lemma {:induction false} DrawAtIs(tape: seq<Byte>, size: nat, i: nat)
    requires 0 <= i * size && i * size + size <= |tape|
    ensures DrawAt(tape, size, i) == tape[i * size..i * size + size]
    decreases i
  {
    if i > 0 {
      assert i * size == (i - 1) * size + size;
      MulNonNeg(i - 1, size);
      DrawAtIs(tape[size..], size, i - 1);
    } else {
      assert 0 * size == 0;
    }
  }

  /** The first draw in range. */
  ghost predicate IsFirst(tape: seq<Byte>, size: nat, p: nat, hi: int, i: nat)
    requires p > 0
  {
    GoodDraw(tape, size, p, hi, i) && forall k: nat :: k < i ==> !GoodDraw(tape, size, p, hi, k)
  }

  /** With bytes enough, the number found is the first draw in range, halved below p. */
  lemma {:induction false} PickedFirst(x: nat, tape: seq<Byte>, size: nat, p: nat, hi: int, tries: nat, v: nat)
    requires p > 0 && size <= MPI_MAX_SIZE && tries * size <= |tape|
    ensures PickFrom(x, tape, size, p, hi, tries) == Picked(v) <==>
      exists i: nat :: i < tries && IsFirst(tape, size, p, hi, i) && v == Shrunk(BytesNat(DrawAt(tape, size, i)), p)
    decreases tries
  {
    hide BytesNat, Shrunk;
    if tries > 0 {
      MulMono(size, 1, tries);
      assert (tries - 1) * size == tries * size - size;
      var w := Shrunk(BytesNat(tape[..size]), p);
      assert DrawAt(tape, size, 0) == tape[..size];
      PickStep(x, tape, size, p, hi, tries);
      if 2 <= w <= hi {
        assert IsFirst(tape, size, p, hi, 0);
      } else {
        PickedFirst(w, tape[size..], size, p, hi, tries - 1, v);
        FirstLater(tape, size, p, hi);
        assert !IsFirst(tape, size, p, hi, 0);
        forall i: nat | 0 < i ensures DrawAt(tape, size, i) == DrawAt(tape[size..], size, i - 1) {
        }
        if i: nat :| i < tries && IsFirst(tape, size, p, hi, i) && v == Shrunk(BytesNat(DrawAt(tape, size, i)), p) {
          assert IsFirst(tape[size..], size, p, hi, i - 1);
        }
        if i: nat :| i < tries - 1 && IsFirst(tape[size..], size, p, hi, i) && v == Shrunk(BytesNat(DrawAt(tape[size..], size, i)), p) {
          assert IsFirst(tape, size, p, hi, i + 1);
        }
      }
    }
  }

  lemma FirstLater(tape: seq<Byte>, size: nat, p: nat, hi: int)
    requires p > 0 && size <= |tape| && !GoodDraw(tape, size, p, hi, 0)
    ensures forall i: nat :: i > 0 ==> (IsFirst(tape, size, p, hi, i) <==> IsFirst(tape[size..], size, p, hi, i - 1))
  {
    hide BytesNat, Shrunk;
    forall i: nat | i > 0 ensures GoodDraw(tape, size, p, hi, i) <==> GoodDraw(tape[size..], size, p, hi, i - 1) {
      assert DrawAt(tape, size, i) == DrawAt(tape[size..], size, i - 1);
    }
    hide GoodDraw;
    forall i: nat | i > 0 ensures IsFirst(tape, size, p, hi, i) <==> IsFirst(tape[size..], size, p, hi, i - 1) {
      if IsFirst(tape, size, p, hi, i) {
        forall k: nat | k < i - 1 ensures !GoodDraw(tape[size..], size, p, hi, k) {
          assert !GoodDraw(tape, size, p, hi, k + 1);
        }
      }
      if IsFirst(tape[size..], size, p, hi, i - 1) {
        forall k: nat | k < i ensures !GoodDraw(tape, size, p, hi, k) {
          if k > 0 { assert !GoodDraw(tape[size..], size, p, hi, k - 1); }
        }
      }
    }
  }

  /** With too few bytes for another draw the number before it stays, and is looked at again. */
  lemma {:induction false} PickedNothing(x: nat, tape: seq<Byte>, size: nat, p: nat, hi: int, tries: nat)
    requires p > 0 && |tape| < size
    ensures
      var v := Shrunk(x, p);
      PickFrom(x, tape, size, p, hi, tries) == if tries > 0 && 2 <= v <= hi then Picked(v) else Refused(v)
    decreases tries
  {
    var v := Shrunk(x, p);
    assert Shrunk(v, p) == v;
    if tries > 0 && !(2 <= v <= hi) {
      PickedNothing(v, tape, size, p, hi, tries - 1);
    }
  }
}
