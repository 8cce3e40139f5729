/** Divisors of natural numbers: Euclid's algorithm, its laws, and which powers a modulus divides. */
module Divisors {
  import opened Arith

  // ---------- the greatest common divisor ----------

  ghost predicate Divides(d: int, x: int) {
    d > 0 && x % d == 0
  }

  /** Euclid's algorithm, the reference. */
  function Gcd(a: nat, b: nat): (g: nat)
    decreases b
  {
    if b == 0 then a else Gcd(b, a % b)
  }

  ghost predicate IsGcd(g: nat, a: nat, b: nat) {
    if a == 0 && b == 0 then g == 0
    else g > 0 && Divides(g, a) && Divides(g, b) && forall d :: Divides(d, a) && Divides(d, b) ==> Divides(d, g)
  }

  lemma DividesSum(d: int, x: int, y: int)
    requires Divides(d, x) && Divides(d, y)
    ensures Divides(d, x + y) && Divides(d, x - y)
  {
    var k, l := x / d, y / d;
    assert x + y == (k + l) * d + 0 && x - y == (k - l) * d + 0;
    DivUnique(x + y, d, k + l, 0);
    DivUnique(x - y, d, k - l, 0);
  }

  lemma DividesMultiple(d: int, x: int, k: int)
    requires Divides(d, x)
    ensures Divides(d, k * x) && Divides(d, x * k)
  {
    var q := x / d;
    assert k * (d * q) == (k * q) * d;
    DivUnique(k * x, d, k * q, 0);
  }

  lemma DividesZero(d: int)
    requires d > 0
    ensures Divides(d, 0)
  {
    ModSmall(0, d);
  }

  lemma DividesLe(d: int, x: int)
    requires Divides(d, x) && x > 0
    ensures d <= x
  {
    if x < d { ModSmall(x, d); }
  }

  lemma DividesRefl(d: int)
    requires d > 0
    ensures Divides(d, d)
  {
    DivUnique(d, d, 1, 0);
  }

  /** Common divisors of (a, b) and of (b, a mod b) coincide. */
  lemma EuclidStep(a: nat, b: nat, d: int)
    requires b > 0 && Divides(d, b)
    ensures Divides(d, a) <==> Divides(d, a % b)
  {
    var q, r := a / b, a % b;
    assert a == q * b + r;
    DividesMultiple(d, b, q);
    if Divides(d, a) { DividesSum(d, a, q * b); }
    if Divides(d, r) { DividesSum(d, q * b, r); }
  }

  lemma {:induction false} GcdIsGcd(a: nat, b: nat)
    ensures IsGcd(Gcd(a, b), a, b)
    decreases b
  {
    if b == 0 {
      if a > 0 {
        DividesRefl(a);
        DividesZero(a);
      }
    } else {
      var r, g := a % b, Gcd(b, a % b);
      GcdIsGcd(b, r);
      EuclidStep(a, b, g);
      forall d | Divides(d, a) && Divides(d, b) ensures Divides(d, g) { EuclidStep(a, b, d); }
    }
  }

  lemma GcdUnique(g: nat, a: nat, b: nat)
    requires IsGcd(g, a, b)
    ensures g == Gcd(a, b)
  {
    var h := Gcd(a, b);
    GcdIsGcd(a, b);
    if g > 0 && h > 0 {
      DividesLe(g, h);
      DividesLe(h, g);
    }
  }

  /** Pairs with the same common divisors have the same greatest one. */
  lemma SameDivisors(a: nat, b: nat, c: nat, e: nat)
    requires a + b > 0 && c + e > 0
    requires forall d :: Divides(d, a) && Divides(d, b) <==> Divides(d, c) && Divides(d, e)
    ensures Gcd(a, b) == Gcd(c, e)
  {
    GcdIsGcd(a, b);
    GcdUnique(Gcd(a, b), c, e);
  }

  lemma {:induction false} GcdScale(a: nat, b: nat, c: nat)
    requires c > 0
    ensures Gcd(a * c, b * c) == Gcd(a, b) * c
    decreases b
  {
    var u, v := a * c, b * c;
    if b == 0 {
      assert v == 0 && Gcd(u, v) == u && Gcd(a, b) == a;
    } else {
      var q, r := a / b, a % b;
      Dist3(q, b, r, c);
      ScaledRange(0, r, b, c);
      DivUnique(u, v, q, r * c);
      GcdScale(b, r, c);
      assert Gcd(u, v) == Gcd(v, r * c);
      assert Gcd(a, b) == Gcd(b, r);
    }
  }

  lemma EvenDivisor(d: int, x: int)
    requires Divides(d, x) && d % 2 == 0
    ensures x % 2 == 0
  {
    var h, k := d / 2, x / d;
    assert x == (2 * h) * k == 2 * (h * k);
  }

  /** An odd divisor of 2x divides x. */
  lemma OddDividesHalf(d: int, x: int)
    requires d % 2 == 1
    ensures Divides(d, 2 * x) <==> Divides(d, x)
  {
    if Divides(d, x) { DividesMultiple(d, x, 2); }
    if Divides(d, 2 * x) {
      var k, h := 2 * x / d, d / 2;
      assert 2 * x == (2 * h + 1) * k == 2 * (h * k) + k;
      var j := x - h * k;
      assert k == 2 * j;
      assert d * (2 * j) == 2 * (d * j);
      DivUnique(x, d, j, 0);
    }
  }

  /** Twos of one operand do not matter when the other is odd. */
  lemma GcdHalve(x: nat, b: nat)
    requires b % 2 == 1
    ensures Gcd(2 * x, b) == Gcd(x, b)
  {
    forall d ensures Divides(d, 2 * x) && Divides(d, b) <==> Divides(d, x) && Divides(d, b) {
      if Divides(d, b) {
        if d % 2 == 1 { OddDividesHalf(d, x); } else { EvenDivisor(d, b); }
      }
    }
    SameDivisors(2 * x, b, x, b);
  }

  lemma {:induction false} GcdShift(x: nat, k: nat, b: nat)
    requires b % 2 == 1
    ensures Gcd(x * Pow2(k), b) == Gcd(x, b)
  {
    if k > 0 {
      GcdShift(x, k - 1, b);
      assert x * Pow2(k) == 2 * (x * Pow2(k - 1)) by { assert x * (2 * Pow2(k - 1)) == 2 * (x * Pow2(k - 1)); }
      GcdHalve(x * Pow2(k - 1), b);
    }
  }

  lemma GcdSymmetric(a: nat, b: nat)
    ensures Gcd(a, b) == Gcd(b, a)
  {
    if a + b > 0 { SameDivisors(a, b, b, a); }
  }

  lemma GcdSubtract(a: nat, b: nat)
    requires a >= b && b > 0
    ensures Gcd(a - b, b) == Gcd(a, b)
  {
    forall d ensures Divides(d, a - b) && Divides(d, b) <==> Divides(d, a) && Divides(d, b) {
      if Divides(d, b) {
        if Divides(d, a) { DividesSum(d, a, b); }
        if Divides(d, a - b) { DividesSum(d, a - b, b); assert a - b + b == a; }
      }
    }
    SameDivisors(a - b, b, a, b);
  }

  // ---------- coprime factors and powers ----------

  /** A factor that shares nothing with m can be left out. */
  lemma CoprimeDivides(m: nat, x: nat, y: nat)
    requires m > 0 && Gcd(x, m) == 1
    ensures Divides(m, x * y) <==> Divides(m, y)
  {
    if Divides(m, y) { DividesMultiple(m, y, x); }
    if Divides(m, x * y) && y > 0 {
      GcdScale(x, m, y);
      GcdIsGcd(x * y, m * y);
      DividesRefl(m);
      DividesMultiple(m, m, y);
      MulNonNeg(x, y);
    } else if y == 0 {
      DividesZero(m);
    }
  }

  lemma DividesScaled(m: nat, x: nat, g: nat)
    requires m > 0 && g > 0
    ensures m * g > 0 && (Divides(m * g, x * g) <==> Divides(m, x))
  {
    MulMono(g, 1, m);
    if Divides(m, x) {
      var k := x / m;
      assert x * g == (m * g) * k by { assert (m * k) * g == (m * g) * k; }
      DivUnique(x * g, m * g, k, 0);
    }
    if Divides(m * g, x * g) {
      var k := x * g / (m * g);
      assert x * g == (m * g) * k == (m * k) * g;
      MulCancel(g, x, m * k);
      DivUnique(x, m, k, 0);
    }
  }

  lemma GcdPositive(a: nat, n: nat)
    requires n > 0
    ensures 0 < Gcd(a, n) <= n && Divides(Gcd(a, n), a) && Divides(Gcd(a, n), n) && n / Gcd(a, n) > 0
  {
    var g := Gcd(a, n);
    GcdIsGcd(a, n);
    DividesLe(g, n);
    assert n == g * (n / g);
  }

  /** n without what it shares with a. */
  function Unshared(n: nat, a: nat): (m: nat)
    requires n > 0
    ensures m > 0 && m * Gcd(a, n) == n
  {
    GcdPositive(a, n);
    n / Gcd(a, n)
  }

  /** What is left of n when, e times over, what it shares with a is divided out. */
  function Stripped(n: nat, a: nat, e: nat): (m: nat)
    requires n > 0
    ensures m > 0
    decreases e
  {
    if e == 0 then n else Stripped(Unshared(n, a), a, e - 1)
  }

  /** n divides a power of a when what it does not share with a divides the power before. */
  lemma PowerStep(n: nat, a: nat, p: nat)
    requires n > 0
    ensures Divides(n, a * p) <==> Divides(Unshared(n, a), p)
  {
    hide Divides, Unshared;
    GcdPositive(a, n);
    var g, m := Gcd(a, n), Unshared(n, a);
    var b := QuotientOf(a, g);
    hide Gcd;
    GcdScale(b, m, g);
    MulCancel(g, Gcd(b, m), 1);
    assert a * p == (b * p) * g by { assert (b * g) * p == (b * p) * g; }
    MulNonNeg(b, p);
    DividesScaled(m, b * p, g);
    CoprimeDivides(m, b, p);
  }

  lemma QuotientOf(x: nat, d: nat) returns (q: nat)
    requires Divides(d, x)
    ensures q * d == x
  {
    q := x / d;
  }

  /** n divides the e-th power of a exactly when nothing is left of it. */
  lemma {:induction false} PowerDivisible(n: nat, a: nat, e: nat)
    requires n > 0
    ensures Power(a, e) % n == 0 <==> Stripped(n, a, e) == 1
    decreases e
  {
    if e == 0 {
      if n > 1 { ModSmall(1, n); }
    } else {
      hide Unshared, Gcd;
      PowerNatural(a, e - 1);
      PowerStep(n, a, Power(a, e - 1));
      PowerDivisible(Unshared(n, a), a, e - 1);
    }
  }

  lemma {:induction false} PowerNatural(a: nat, e: nat)
    ensures Power(a, e) >= 0
  {
    if e > 0 {
      PowerNatural(a, e - 1);
      MulNonNeg(a, Power(a, e - 1));
    }
  }

  /** A modulus above 1 that shares nothing with a divides no power of a. */
  lemma {:induction false} CoprimeStripped(n: nat, a: nat, e: nat)
    requires n > 0 && Gcd(a, n) == 1
    ensures Stripped(n, a, e) == n
    decreases e
  {
    if e > 0 {
      assert Unshared(n, a) == n;
      CoprimeStripped(n, a, e - 1);
    }
  }

  ghost predicate SquareFree(n: nat) {
    n > 0 && forall d: nat :: Divides(d * d, n) ==> d == 1
  }

  /** A square-free modulus divides a proper power of a exactly when it divides a. */
  lemma SquareFreeStripped(n: nat, a: nat, e: nat)
    requires SquareFree(n) && e > 0
    ensures Stripped(n, a, e) == 1 <==> a % n == 0
  {
    hide Gcd, Unshared;
    GcdPositive(a, n);
    var g, m := Gcd(a, n), Unshared(n, a);
    SquareFreeRest(n, a);
    CoprimeStripped(m, a, e - 1);
    if a % n == 0 {
      GcdIsGcd(a, n);
      DividesRefl(n);
      DividesLe(n, g);
      if m > 1 { MulMono(g, 2, m); }
    }
  }

  /** What a square-free number does not share with a shares nothing with a. */
  lemma SquareFreeRest(n: nat, a: nat)
    requires SquareFree(n)
    ensures Gcd(a, Unshared(n, a)) == 1
  {
    hide Gcd, Unshared;
    var g, m := Gcd(a, n), Unshared(n, a);
    GcdPositive(a, m);
    var d := Gcd(a, m);
    DividesMultiple(d, m, g);
    GcdIsGcd(a, n);
    SquareDivides(d, g, m);
  }

  lemma SquareDivides(d: nat, g: nat, m: nat)
    requires Divides(d, g) && Divides(d, m)
    ensures Divides(d * d, m * g)
  {
    var k, l := g / d, m / d;
    assert g == d * k && m == d * l;
    assert m * g == (d * d) * (l * k) by { Regroup(d, l, d, k); }
    MulMono(d, 1, d);
    DivUnique(m * g, d * d, l * k, 0);
  }
}
