/** Little-endian limb sequences in base 2^32 and the numbers they stand for. */
module Limbs {
  import opened Arith

  // The target is a 32-bit Cortex-M: t_uint is 32 bits wide.
  const BIL: nat := 32                // bits in a limb
  const BIH: nat := 16                // bits in half a limb
  const CIL: nat := 4                 // bytes in a limb
  const BASE: nat := 0x1_0000_0000    // 2^BIL
  const HALF: nat := 0x1_0000         // 2^BIH

  type Limb = x: nat | x < BASE witness 0

  /** The weight of limb k. */
  function Pow(k: nat): (r: nat)
    ensures 1 <= r
  {
    if k == 0 then 1 else BASE * Pow(k - 1)
  }

  function Nat(s: seq<Limb>): nat {
    if |s| == 0 then 0 else s[0] + BASE * Nat(s[1..])
  }

  function Zeros(n: nat): (s: seq<Limb>)
    ensures |s| == n && forall i :: 0 <= i < n ==> s[i] == 0
  {
    seq(n, i => 0)
  }

  lemma PowNext(i: nat)
    ensures Pow(i + 1) == BASE * Pow(i) && Pow(0) == 1
  {
  }

  lemma {:induction false} PowAdd(a: nat, b: nat)
    ensures Pow(a + b) == Pow(a) * Pow(b)
  {
    if a > 0 {
      PowAdd(a - 1, b);
      assert Pow(a + b) == BASE * Pow((a - 1) + b);
    }
  }

  lemma PowMono(a: nat, b: nat)
    requires a <= b
    ensures Pow(a) <= Pow(b)
    ensures a < b ==> BASE * Pow(a) <= Pow(b)
  {
    PowAdd(a, b - a);
    MulMono(Pow(a), 1, Pow(b - a));
    if a < b {
      PowAdd(a + 1, b - a - 1);
      MulMono(Pow(a + 1), 1, Pow(b - a - 1));
    }
  }

  lemma PowOrder(a: nat, b: nat)
    ensures a <= b <==> Pow(a) <= Pow(b)
  {
    if a <= b { PowMono(a, b); } else { PowMono(b, a); }
  }

  /** A limb weight is a power of two. */
  lemma {:induction false} PowIsPow2(k: nat)
    ensures Pow(k) == Pow2(BIL * k)
  {
    Pow2Values();
    if k > 0 {
      PowIsPow2(k - 1);
      Pow2Add(BIL, BIL * (k - 1));
    }
  }

  lemma {:induction false} NatAppend(a: seq<Limb>, b: seq<Limb>)
    ensures Nat(a + b) == Nat(a) + Pow(|a|) * Nat(b)
  {
    if |a| == 0 {
      assert a + b == b;
    } else {
      assert (a + b)[1..] == a[1..] + b;
      NatAppend(a[1..], b);
      assert BASE * (Pow(|a| - 1) * Nat(b)) == (BASE * Pow(|a| - 1)) * Nat(b);
    }
  }

  lemma NatSplit(s: seq<Limb>, i: nat)
    requires i <= |s|
    ensures Nat(s) == Nat(s[..i]) + Pow(i) * Nat(s[i..])
  {
    var a, b := s[..i], s[i..];
    assert s == a + b;
    NatAppend(a, b);
  }

  lemma NatEmpty(s: seq<Limb>)
    ensures |s| == 0 ==> Nat(s) == 0
  {
  }

  lemma NatPositive(s: seq<Limb>)
    ensures Nat(s) > 0 ==> |s| > 0
  {
  }

  lemma NatOne(x: Limb)
    ensures Nat([x]) == x
  {
    assert Nat([x]) == x + BASE * Nat([x][1..]);
  }

  lemma NatSnoc(s: seq<Limb>, i: nat)
    requires i < |s|
    ensures Nat(s[..i + 1]) == Nat(s[..i]) + Pow(i) * s[i]
  {
    NatAppend(s[..i], [s[i]]);
    NatOne(s[i]);
    assert s[..i + 1] == s[..i] + [s[i]];
  }

  lemma NatCons(s: seq<Limb>, i: nat)
    requires i < |s|
    ensures Nat(s[i..]) == s[i] + BASE * Nat(s[i + 1..])
  {
    assert s[i..][1..] == s[i + 1..];
  }

  lemma {:induction false} NatBound(s: seq<Limb>)
    ensures Nat(s) < Pow(|s|)
  {
    if |s| > 0 { NatBound(s[1..]); }
  }

  lemma {:induction false} NatZero(s: seq<Limb>)
    ensures Nat(s) == 0 <==> forall i :: 0 <= i < |s| ==> s[i] == 0
  {
    if |s| > 0 {
      NatZero(s[1..]);
      assert forall i :: 0 <= i < |s[1..]| ==> s[1..][i] == s[i + 1];
      if forall i :: 0 <= i < |s[1..]| ==> s[1..][i] == 0 {
        forall i | 1 <= i < |s| ensures s[i] == s[1..][i - 1] {}
      }
    }
  }

  /** Rewriting one limb moves the number by that limb's weight. */
  lemma NatUpdate(s: seq<Limb>, i: nat, v: Limb)
    requires i < |s|
    ensures Nat(s[i := v]) == Nat(s) + Pow(i) * (v - s[i])
  {
    var t := s[i := v];
    NatSplit(s, i);
    NatSplit(t, i);
    assert t[..i] == s[..i] && t[i + 1..] == s[i + 1..];
    NatCons(s, i);
    NatCons(t, i);
    var r := BASE * Nat(s[i + 1..]);
    MulSub(Pow(i), v + r, s[i] + r);
  }

  lemma MulSub(p: int, x: int, y: int)
    ensures p * x - p * y == p * (x - y)
  {
  }

  /** Appending zero limbs changes nothing. */
  lemma NatPad(s: seq<Limb>, n: nat)
    ensures Nat(s + Zeros(n)) == Nat(s)
  {
    NatAppend(s, Zeros(n));
    NatZero(Zeros(n));
  }

  /** Prepending zero limbs multiplies by a power of the base. */
  lemma NatShift(s: seq<Limb>, n: nat)
    ensures Nat(Zeros(n) + s) == Pow(n) * Nat(s)
  {
    NatAppend(Zeros(n), s);
    NatZero(Zeros(n));
  }

  /** Cutting the buffer at limb i is dividing by that limb's weight. */
  lemma NatDivMod(s: seq<Limb>, i: nat)
    requires i <= |s|
    ensures Nat(s) / Pow(i) == Nat(s[i..]) && Nat(s) % Pow(i) == Nat(s[..i])
    ensures Nat(s) < Pow(i) <==> Nat(s[i..]) == 0
  {
    var lo, hi := s[..i], s[i..];
    NatSplit(s, i);
    NatBound(lo);
    Leading(Nat(s), Pow(i), Nat(hi), Nat(lo));
  }

  /** The limbs from i upwards vanish exactly when the number fits below their weight. */
  lemma NatHigh(s: seq<Limb>, i: nat)
    requires i <= |s|
    ensures (forall k :: i <= k < |s| ==> s[k] == 0) <==> Nat(s) < Pow(i)
    ensures Nat(s) < Pow(i) ==> Nat(s) == Nat(s[..i])
  {
    NatDivMod(s, i);
    ModIfSmall(Nat(s), Pow(i));
    var hi := s[i..];
    NatZero(hi);
    if Nat(hi) == 0 {
      forall k | i <= k < |s| ensures s[k] == 0 { assert hi[k - i] == 0; }
    }
  }

  lemma ModIfSmall(x: nat, p: nat)
    requires 0 < p
    ensures x < p ==> x % p == x
  {
    if x < p { ModSmall(x, p); }
  }

  lemma Leading(n: nat, p: nat, h: nat, l: nat)
    requires l < p && n == l + p * h
    ensures n / p == h && n % p == l
    ensures n < p <==> h == 0
  {
    DivUnique(n, p, h, l);
    if h >= 1 { MulMono(p, 1, h); }
  }

  /** A number whose limb i is its highest nonzero one lies in [Pow(i), Pow(i+1)). */
  lemma NatTop(s: seq<Limb>, i: nat)
    requires i < |s| && s[i] != 0 && forall k :: i < k < |s| ==> s[k] == 0
    ensures Pow(i) <= Nat(s) < Pow(i + 1)
  {
    NatHigh(s, i);
    NatHigh(s, i + 1);
  }

  /** Equal numbers in buffers of the same length have the same limbs. */
  lemma {:induction false} NatInjective(s: seq<Limb>, t: seq<Limb>)
    requires |s| == |t| && Nat(s) == Nat(t)
    ensures s == t
  {
    if |s| > 0 {
      assert s[0] - t[0] == BASE * (Nat(t[1..]) - Nat(s[1..]));
      NatInjective(s[1..], t[1..]);
      assert s == [s[0]] + s[1..] && t == [t[0]] + t[1..];
    }
  }

  // ---------- bits of limbs ----------

  /** x << t, truncated to a limb. */
  function Shl(x: Limb, t: nat): (r: Limb) {
    MulNonNeg(x, Pow2(t));
    x * Pow2(t) % BASE
  }

  /** x >> t. */
  function Shr(x: Limb, t: nat): (r: Limb) {
    DivBounds(x, Pow2(t));
    x / Pow2(t)
  }

  /** Bitwise or, bit by bit. */
  function BitOr(x: nat, y: nat): nat
    decreases x + y
  {
    if x == 0 then y else if y == 0 then x
    else (if x % 2 == 1 || y % 2 == 1 then 1 else 0) + 2 * BitOr(x / 2, y / 2)
  }

  /** Where the set bits do not meet, or is addition. */
  lemma {:induction false} BitOrDisjoint(x: nat, y: nat, k: nat)
    requires x % Pow2(k) == 0 && y < Pow2(k)
    ensures BitOr(x, y) == x + y == BitOr(y, x)
    decreases k
  {
    if k > 0 && x > 0 && y > 0 {
      var h := Pow2(k - 1);
      assert x == 2 * (h * (x / Pow2(k))) by {
        assert (2 * h) * (x / Pow2(k)) == 2 * (h * (x / Pow2(k)));
      }
      DivUnique(x / 2, h, x / Pow2(k), 0);
      BitOrDisjoint(x / 2, y / 2, k - 1);
    }
  }

  /** Bit j of a low limb is not touched by the limbs above it. */
  lemma LowBit(x: Limb, h: nat, j: nat)
    requires j < BIL
    ensures (x + BASE * h) / Pow2(j) % 2 == x / Pow2(j) % 2
  {
    hide Pow2;
    var p, w := Pow2(j), Pow2(BIL - j - 1);
    assert p * (2 * w) == BASE by { BaseHalves(j); }
    HighPart(p, w, h);
    EvenMultiple(x, BASE * h, p, w * h);
  }

  lemma BaseHalves(j: nat)
    requires j < BIL
    ensures Pow2(j) * (2 * Pow2(BIL - j - 1)) == BASE
  {
    Pow2Values();
    Pow2Add(j, BIL - j);
  }

  lemma HighPart(p: nat, w: nat, h: nat)
    requires p * (2 * w) == BASE
    ensures BASE * h == p * (2 * (w * h))
  {
    assert (p * (2 * w)) * h == p * ((2 * w) * h);
    assert (2 * w) * h == 2 * (w * h);
  }

  /** Adding an even multiple of p leaves the parity of the quotient by p alone. */
  lemma EvenMultiple(x: nat, y: nat, p: nat, k: nat)
    requires 0 < p && y == p * (2 * k)
    ensures (x + y) / p % 2 == x / p % 2
  {
    MulAdd(p, x / p, 2 * k);
    DivUnique(x + y, p, x / p + 2 * k, x % p);
    ModAddMultiple(x / p, k, 2);
  }

  lemma MulAdd(p: int, x: int, y: int)
    ensures p * (x + y) == p * x + p * y
  {
  }

  lemma LimbsFrom(p: seq<Limb>, i: nat)
    requires i < |p|
    ensures Nat(p) / Pow2(BIL * i) == p[i] + BASE * Nat(p[i + 1..])
  {
    hide Nat, Pow, Pow2;
    NatDivMod(p, i);
    NatCons(p, i);
    PowIsPow2(i);
  }

  /** Bit j of limb i is bit BIL*i + j of the number. */
  lemma BitOfLimb(s: seq<Limb>, i: nat, j: nat)
    requires i < |s| && j < BIL
    ensures s[i] / Pow2(j) % 2 == Nat(s) / Pow2(BIL * i + j) % 2
  {
    hide Nat, Pow2;
    LimbsFrom(s, i);
    Pow2Add(BIL * i, j);
    DivDiv(Nat(s), Pow2(BIL * i), Pow2(j));
    LowBit(s[i], Nat(s[i + 1..]), j);
  }
}
