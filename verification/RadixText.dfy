/** The digits that bignum.c writes and reads, place by place. */
module RadixText {
  import opened Arith
  import opened Radix

  const DIGITS := "0123456789ABCDEF"
  const SMALL_DIGITS := "0123456789abcdef"

  lemma DigitIs(d: nat)
    requires d < 16
    ensures DIGITS[d] == DigitChar(d)
    ensures SMALL_DIGITS[d] as int == if d < 10 then 0x30 + d else 0x57 + d
  {
    assert d in {0, 1, 2, 3, 4, 5, 6, 7, 8, 9, 10, 11, 12, 13, 14, 15};
  }

  /** The characters read as the digit d are its two forms. */
  lemma DigitDefinition(c: char, d: nat)
    requires d < 16
    ensures DigitOf(c) == d <==> c == DIGITS[d] || c == SMALL_DIGITS[d]
  {
    DigitIs(d);
    hide DIGITS, SMALL_DIGITS;
  }

  /** The digit of v with k digits behind it. */
  function Place(v: nat, radix: nat, k: nat): (d: nat)
    requires radix > 0
    ensures d < radix
  {
    PowerPositive(radix, k);
    DivBounds(v, Power(radix, k));
    v / Power(radix, k) % radix
  }

  lemma {:induction false} PowerPositive(a: nat, e: nat)
    requires a > 0
    ensures Power(a, e) > 0
  {
    if e > 0 {
      PowerPositive(a, e - 1);
      MulMono(a, 1, Power(a, e - 1));
    }
  }

  /** s is v in the radix, one digit for each place. */
  ghost predicate Spells(s: string, v: nat, radix: nat)
    requires 2 <= radix <= 16
  {
    v < Power(radix, |s|) && forall k :: 0 <= k < |s| ==> s[k] == DIGITS[Place(v, radix, |s| - 1 - k)]
  }

  lemma PlaceNext(v: nat, radix: nat, k: nat)
    requires radix > 0
    ensures Place(v, radix, k + 1) == Place(v / radix, radix, k) && Place(v, radix, 0) == v % radix
  {
    PowerPositive(radix, k);
    DivDiv(v, radix, Power(radix, k));
    assert v / 1 == v;
  }

  lemma SpellsMore(s: string, v: nat, radix: nat)
    requires 2 <= radix <= 16 && Spells(s, v / radix, radix)
    ensures Spells(s + [DigitChar(v % radix)], v, radix)
  {
    var t, n := s + [DigitChar(v % radix)], |s|;
    DigitIs(v % radix);
    hide DIGITS, DigitChar, Place;
    assert Power(radix, n + 1) == radix * Power(radix, n);
    Carried(v, radix, Power(radix, n));
    hide Power;
    forall k | 0 <= k <= n ensures t[k] == DIGITS[Place(v, radix, n - k)] {
      if k < n { PlaceNext(v, radix, n - 1 - k); } else { PlaceNext(v, radix, 0); }
    }
  }

  lemma Carried(v: nat, radix: nat, p: int)
    requires radix > 0 && v / radix < p
    ensures v < radix * p
  {
    DivBounds(v, radix);
    MulMono(radix, v / radix + 1, p);
    assert radix * (v / radix + 1) == radix * (v / radix) + radix;
  }

  /** Every other radix than 16: the digits of the number, none of them needless. */
  lemma {:induction false} DigitsDefinition(v: nat, radix: nat)
    requires 2 <= radix <= 16
    ensures
      var t := Digits(v, radix);
      Spells(t, v, radix) && (|t| > 1 ==> v >= Power(radix, |t| - 1))
    decreases v
  {
    DivBounds(v, radix);
    if v / radix == 0 {
      SpellsNothing(radix);
      SpellsMore("", v, radix);
      assert Digits(v, radix) == "" + [DigitChar(v % radix)];
    } else {
      DivLess(v, radix, v);
      DigitsDefinition(v / radix, radix);
      var s := Digits(v / radix, radix);
      SpellsMore(s, v, radix);
      AtLeast(v, radix, |s| - 1);
    }
  }

  lemma SpellsNothing(radix: nat)
    requires 2 <= radix <= 16
    ensures Spells("", 0, radix)
  {
  }

  lemma AtLeast(v: nat, radix: nat, k: nat)
    requires radix > 0 && v / radix > 0 && (k > 0 ==> v / radix >= Power(radix, k))
    ensures v >= Power(radix, k + 1)
  {
    assert Power(radix, k + 1) == radix * Power(radix, k);
    DivBounds(v, radix);
    if k > 0 { MulMono(radix, Power(radix, k), v / radix); } else { MulMono(radix, 1, v / radix); }
  }

  /** Radix 16: an even number of digits, and no needless pair of them. */
  lemma {:induction false} PairsDefinition(v: nat)
    ensures
      var t := Pairs(v);
      Spells(t, v, 16) && |t| % 2 == 0 && (|t| > 2 ==> v >= Power(16, |t| - 2))
    decreases v
  {
    var s := if v < 256 then "" else Pairs(v / 256);
    if v < 256 {
      SpellsNothing(16);
    } else {
      PairsDefinition(v / 256);
    }
    assert v / 16 / 16 == v / 256 && v / 16 % 16 == v % 256 / 16 && v % 16 == v % 256 % 16;
    SpellsMore(s, v / 16, 16);
    SpellsMore(s + [DigitChar(v % 256 / 16)], v, 16);
    assert Pairs(v) == s + [DigitChar(v % 256 / 16)] + [DigitChar(v % 256 % 16)];
    if v >= 256 {
      AtLeast16(v, |s|);
    }
  }

  lemma AtLeast16(v: nat, k: nat)
    requires k >= 2 && v >= 256 && (k > 2 ==> v / 256 >= Power(16, k - 2))
    ensures v >= Power(16, k)
  {
    assert Power(16, k) == 16 * Power(16, k - 1) && Power(16, k - 1) == 16 * Power(16, k - 2);
    if k == 2 { assert Power(16, 0) == 1; }
  }

  /** What is written for a number: the sign, and then its digits. */
  lemma TextDefinition(neg: bool, v: nat, radix: nat) returns (t: string)
    requires 2 <= radix <= 16
    ensures Text(neg, v, radix) == (if neg then "-" else "") + t && Spells(t, v, radix)
    ensures radix != 16 ==> |t| > 0 && (|t| > 1 ==> v >= Power(radix, |t| - 1))
    ensures radix == 16 ==> |t| > 0 && |t| % 2 == 0 && (|t| > 2 ==> v >= Power(16, |t| - 2))
  {
    if radix == 16 {
      t := Pairs(v);
      PairsDefinition(v);
    } else {
      t := Digits(v, radix);
      DigitsDefinition(v, radix);
    }
  }

  /** Reading: a digit in front weighs the radix to the number of digits behind it. */
  lemma {:induction false} NumberDefinition(c: char, s: string, radix: nat)
    ensures Number("", radix) == 0
    ensures Number([c] + s, radix) == DigitOf(c) * Power(radix, |s|) + Number(s, radix)
    decreases |s|
  {
    var t := [c] + s;
    if s == "" {
      assert t[..0] == "" && t[0] == c;
      assert 0 * radix == 0;
    } else {
      var k := |s| - 1;
      assert t[..k + 1] == [c] + s[..k] && t[k + 1] == s[k];
      NumberDefinition(c, s[..k], radix);
      assert Power(radix, k + 1) == radix * Power(radix, k);
      hide Power, Number, DigitOf;
      Outwards(DigitOf(c), Power(radix, k), Number(s[..k], radix), radix);
    }
  }

  lemma Outwards(d: int, p: int, n: int, r: int)
    ensures (d * p + n) * r == d * (r * p) + n * r
  {
    assert (d * p) * r == d * (p * r);
  }
}
