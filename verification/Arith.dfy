/** Integer facts the limb arithmetic rests on: products, Euclidean division, congruences, powers. */
module Arith {
  type Byte = x: nat | x < 256 witness 0

  // ---------- products ----------

  lemma MulMono(a: int, x: int, y: int)
    requires 0 <= a && x <= y
    ensures a * x <= a * y
  {
  }

  lemma Exchange(a: int, b: int, c: int)
    ensures a * (b * c) == b * (a * c)
  {
  }

  lemma Assoc(a: int, b: int, c: int)
    ensures (a * b) * c == a * (b * c)
  {
  }

  lemma MulNonNeg(a: int, b: int)
    requires 0 <= a && 0 <= b
    ensures 0 <= a * b
  {
  }

  /** A product of a positive factor determines the sign of the other factor. */
  lemma MulCancelLess(a: int, x: int, y: int)
    requires 0 < a && a * x < a * y
    ensures x < y
  {
    if y <= x { MulMono(a, y, x); }
  }

  lemma MulCancel(a: int, x: int, y: int)
    requires a != 0 && a * x == a * y
    ensures x == y
  {
    assert a * (x - y) == 0;
  }

  lemma ScaledRange(lo: nat, v: nat, hi: nat, k: nat)
    requires lo <= v < hi && 1 <= k
    ensures lo * k <= v * k < hi * k
  {
    MulMono(k, lo, v);
    MulMono(k, v + 1, hi);
  }

  lemma Dist3(q: nat, b: nat, r: nat, c: nat)
    ensures (q * b + r) * c == q * (b * c) + r * c
  {
    assert (q * b) * c == q * (b * c);
  }

  lemma Regroup(a: int, b: int, c: int, d: int)
    ensures (a * b) * (c * d) == (a * c) * (b * d)
  {
    assert (a * b) * (c * d) == a * (b * (c * d)) == a * (c * (b * d)) by {
      assert b * (c * d) == c * (b * d);
    }
  }

  // ---------- Euclidean division ----------

  /** The quotient and remainder of a division are determined by their defining equation. */
  lemma DivUnique(a: int, d: int, q: int, r: int)
    requires 0 < d && 0 <= r < d && a == q * d + r
    ensures a / d == q && a % d == r
  {
    var q', r' := a / d, a % d;
    assert (q - q') * d == r' - r;
    if q < q' { MulMono(d, q - q', -1); }
    if q > q' { MulMono(d, 1, q - q'); }
  }

  lemma DivBounds(a: int, d: int)
    requires 0 < d
    ensures d * (a / d) <= a < d * (a / d) + d
    ensures 0 <= a ==> 0 <= a / d
    ensures 0 <= a ==> a / d <= a
  {
    if 0 <= a {
      MulMono(a / d, 1, d);
    }
  }

  lemma DivLess(a: int, d: int, k: int)
    requires 0 < d && 0 <= a < k * d
    ensures 0 <= a / d < k
  {
    DivBounds(a, d);
    MulCancelLess(d, a / d, k);
  }

  lemma ModAddMultiple(x: int, k: int, n: int)
    requires 0 < n
    ensures (x + k * n) % n == x % n
  {
    DivUnique(x + k * n, n, x / n + k, x % n);
  }

  lemma ModSmall(x: int, n: int)
    requires 0 <= x < n
    ensures x % n == x && x / n == 0
  {
    DivUnique(x, n, 0, x);
  }

  lemma DivDiv(x: int, a: int, b: int)
    requires 0 < a && 0 < b
    ensures 0 < a * b && x / a / b == x / (a * b)
  {
    MulMono(a, 1, b);
    var q, r := x / a, x % a;
    var q', r' := q / b, q % b;
    MulMono(a, r', b - 1);
    MulNonNeg(a, r');
    assert x == q' * (a * b) + (a * r' + r);
    DivUnique(x, a * b, q', a * r' + r);
  }

  // ---------- congruences ----------

  /** a and b leave the same remainder modulo n. */
  ghost predicate Cong(a: int, b: int, n: int)
    requires 0 < n
  {
    a % n == b % n
  }

  lemma CongIntro(a: int, b: int, k: int, n: int)
    requires 0 < n && a == b + k * n
    ensures Cong(a, b, n)
  {
    ModAddMultiple(b, k, n);
  }

  lemma CongElim(a: int, b: int, n: int) returns (k: int)
    requires 0 < n && Cong(a, b, n)
    ensures a == b + k * n
  {
    k := a / n - b / n;
    assert a == n * (a / n) + a % n && b == n * (b / n) + b % n;
  }

  lemma CongMod(a: int, n: int)
    requires 0 < n
    ensures Cong(a % n, a, n)
  {
    CongIntro(a % n, a, -(a / n), n);
  }

  lemma CongAdd(a: int, b: int, c: int, d: int, n: int)
    requires 0 < n && Cong(a, b, n) && Cong(c, d, n)
    ensures Cong(a + c, b + d, n) && Cong(a - c, b - d, n)
  {
    var k := CongElim(a, b, n);
    var l := CongElim(c, d, n);
    assert a + c == (b + d) + (k + l) * n;
    assert a - c == (b - d) + (k - l) * n;
    CongIntro(a + c, b + d, k + l, n);
    CongIntro(a - c, b - d, k - l, n);
  }

  lemma CongMul(a: int, b: int, c: int, d: int, n: int)
    requires 0 < n && Cong(a, b, n) && Cong(c, d, n)
    ensures Cong(a * c, b * d, n)
  {
    var k := CongElim(a, b, n);
    var l := CongElim(c, d, n);
    var m := k * d + b * l + k * n * l;
    assert a * c == b * d + m * n by {
      calc {
        a * c;
        (b + k * n) * (d + l * n);
        b * d + (b * l + k * d) * n + (k * n) * (l * n);
        { assert (k * n) * (l * n) == (k * n * l) * n; }
        b * d + m * n;
      }
    }
    CongIntro(a * c, b * d, m, n);
  }

  /** A remainder in [0, n) is the only representative of its class there. */
  lemma CongSmall(a: int, b: int, n: int)
    requires 0 < n && Cong(a, b, n) && 0 <= a < n
    ensures a == b % n
  {
    ModSmall(a, n);
  }

  /** An invertible factor can be removed from a congruence. */
  lemma CongCancel(r: int, ri: int, x: int, y: int, n: int)
    requires 0 < n && Cong(r * ri, 1, n) && Cong(r * x, r * y, n)
    ensures Cong(x, y, n)
  {
    CongMul(r * x, r * y, ri, ri, n);
    CongMul(r * ri, 1, x, x, n);
    CongMul(r * ri, 1, y, y, n);
    assert (r * x) * ri == (r * ri) * x && (r * y) * ri == (r * ri) * y;
  }

  // ---------- powers ----------

  function Power(a: int, e: nat): int {
    if e == 0 then 1 else a * Power(a, e - 1)
  }

  lemma {:induction false} PowerAdd(a: int, e: nat, f: nat)
    ensures Power(a, e + f) == Power(a, e) * Power(a, f)
  {
    if e > 0 {
      PowerAdd(a, e - 1, f);
      assert Power(a, e + f) == a * Power(a, (e - 1) + f);
      assert a * (Power(a, e - 1) * Power(a, f)) == (a * Power(a, e - 1)) * Power(a, f);
    }
  }

  lemma {:induction false} PowerMul(a: int, e: nat, f: nat)
    ensures e * f >= 0 && Power(a, e * f) == Power(Power(a, e), f)
  {
    MulNonNeg(e, f);
    if f > 0 {
      MulNonNeg(e, f - 1);
      assert e * f == e + e * (f - 1);
      PowerMul(a, e, f - 1);
      PowerAdd(a, e, e * (f - 1));
    } else {
      assert e * f == 0;
    }
  }

  lemma {:induction false} PowerOfProduct(a: int, b: int, e: nat)
    ensures Power(a * b, e) == Power(a, e) * Power(b, e)
  {
    if e > 0 {
      PowerOfProduct(a, b, e - 1);
      var p, q := Power(a, e - 1), Power(b, e - 1);
      Regroup(a, b, p, q);
      assert Power(a * b, e) == (a * b) * Power(a * b, e - 1);
    }
  }

  lemma {:induction false} PowerCong(a: int, b: int, e: nat, n: int)
    requires 0 < n && Cong(a, b, n)
    ensures Cong(Power(a, e), Power(b, e), n)
  {
    if e > 0 {
      PowerCong(a, b, e - 1, n);
      CongMul(a, b, Power(a, e - 1), Power(b, e - 1), n);
    }
  }

  lemma {:induction false} PowerOne(e: nat)
    ensures Power(1, e) == 1
  {
    if e > 0 { PowerOne(e - 1); }
  }

  lemma {:induction false} PowerPos(a: int, e: nat)
    requires 0 < a
    ensures 0 < Power(a, e)
  {
    if e > 0 { PowerPos(a, e - 1); MulMono(a, 1, Power(a, e - 1)); }
  }

  lemma {:induction false} PowerNeg(a: int, e: nat)
    ensures Power(-a, e) == if e % 2 == 0 then Power(a, e) else -Power(a, e)
  {
    if e > 0 {
      PowerNeg(a, e - 1);
      var p := Power(a, e - 1);
      assert (-a) * p == -(a * p) && (-a) * (-p) == a * p;
    }
  }

  // ---------- powers of two ----------

  function Pow2(k: nat): (r: nat)
    ensures 1 <= r
  {
    if k == 0 then 1 else 2 * Pow2(k - 1)
  }

  lemma Pow2Zero()
    ensures Pow2(0) == 1
  {
  }

  lemma Pow2Next(i: nat)
    ensures Pow2(i + 1) == 2 * Pow2(i)
  {
  }

  lemma {:induction false} Pow2Add(a: nat, b: nat)
    ensures Pow2(a + b) == Pow2(a) * Pow2(b)
  {
    if a > 0 {
      Pow2Add(a - 1, b);
      assert Pow2(a + b) == 2 * Pow2((a - 1) + b);
    }
  }

  lemma Pow2Mono(a: nat, b: nat)
    requires a <= b
    ensures Pow2(a) <= Pow2(b)
  {
    Pow2Add(a, b - a);
    MulMono(Pow2(a), 1, Pow2(b - a));
  }

  lemma Pow2StrictMono(a: nat, b: nat)
    requires a < b
    ensures 2 * Pow2(a) <= Pow2(b)
  {
    Pow2Mono(a + 1, b);
  }

  lemma Pow2Values()
    ensures Pow2(4) == 0x10 && Pow2(8) == 0x100 && Pow2(16) == 0x1_0000 && Pow2(32) == 0x1_0000_0000
  {
    assert Pow2(4) == 16;
    Pow2Add(4, 4);
    Pow2Add(8, 8);
    Pow2Add(16, 16);
  }

  /** One more bit of a shifted number. */
  lemma ShiftOneBit(x: nat, k: nat)
    ensures x / Pow2(k) == 2 * (x / Pow2(k + 1)) + x / Pow2(k) % 2
  {
    DivDiv(x, Pow2(k), 2);
    assert Pow2(k) * 2 == Pow2(k + 1);
  }
}
