/** Numbers as text in radix 2 to 16 (bignum.c: mpi_read_string, mpi_write_hlp, mpi_write_string). */
module Radix {
  import opened Arith
  import opened Limbs
  import opened Bignum
  import opened Bits
  import opened Shift
  import opened AddSub
  import opened Multiply
  import opened Divide
  import opened Modulo
  import opened Binary

  // ---- The notation ----

  /** mpi_get_digit, with 255 for what is no digit in any radix. */
  function DigitOf(c: char): nat {
    if '0' <= c <= '9' then c as int - 0x30
    else if 'A' <= c <= 'F' then c as int - 0x37
    else if 'a' <= c <= 'f' then c as int - 0x57
    else 255
  }

  function DigitChar(d: nat): char
    requires d < 16
  {
    if d < 10 then (d + 0x30) as char else (d + 0x37) as char
  }

  lemma DigitRoundTrip(d: nat)
    requires d < 16
    ensures DigitOf(DigitChar(d)) == d && DigitChar(d) != '-'
  {
  }

  predicate AllDigits(s: string, radix: nat) {
    forall k :: 0 <= k < |s| ==> DigitOf(s[k]) < radix
  }

  function Number(s: string, radix: nat): nat {
    if s == [] then 0 else Number(s[..|s| - 1], radix) * radix + DigitOf(s[|s| - 1])
  }

  function Signed(neg: bool, v: nat): int {
    if neg then 0 - v else v
  }

  predicate HasSign(s: string) {
    s != [] && s[0] == '-'
  }

  function Unsigned(s: string): string {
    if HasSign(s) then s[1..] else s
  }

  /** The number that a string of digits, with or without a minus sign, stands for. */
  function Meaning(s: string, radix: nat): int {
    Signed(HasSign(s), Number(Unsigned(s), radix))
  }

  /** The text is digits of the radix, but for a minus sign in front. */
  predicate Readable(s: string, radix: nat) {
    AllDigits(Unsigned(s), radix)
  }

  // ---- Writing ----

  function Digits(v: nat, radix: nat): (r: string)
    requires 2 <= radix <= 16
    ensures |r| > 0
  {
    (if v / radix == 0 then [] else Digits(v / radix, radix)) + [DigitChar(v % radix)]
  }

  function Pair(b: nat): (r: string)
    requires b < 256
    ensures |r| == 2
  {
    [DigitChar(b / 16), DigitChar(b % 16)]
  }

  /** Hexadecimal is written byte by byte, so with an even number of digits. */
  function Pairs(v: nat): (r: string)
    ensures |r| > 0
  {
    (if v < 256 then [] else Pairs(v / 256)) + Pair(v % 256)
  }

  function Text(neg: bool, v: nat, radix: nat): (r: string)
    requires 2 <= radix <= 16
  {
    (if neg then "-" else "") + if radix == 16 then Pairs(v) else Digits(v, radix)
  }

  lemma NumberSnoc(s: string, c: char, radix: nat)
    ensures Number(s + [c], radix) == Number(s, radix) * radix + DigitOf(c)
  {
    assert (s + [c])[..|s|] == s;
  }

  lemma AllDigitsSnoc(s: string, d: nat, radix: nat)
    requires AllDigits(s, radix) && d < radix <= 16
    ensures AllDigits(s + [DigitChar(d)], radix)
  {
    DigitRoundTrip(d);
  }

  lemma DigitMeans(high: string, h: nat, d: nat, radix: nat, v: nat)
    requires 2 <= radix <= 16 && d < radix && h * radix + d == v
    requires Number(high, radix) == h && AllDigits(high, radix)
    ensures Number(high + [DigitChar(d)], radix) == v && AllDigits(high + [DigitChar(d)], radix)
  {
    hide Number, AllDigits, DigitOf, DigitChar;
    NumberSnoc(high, DigitChar(d), radix);
    AllDigitsSnoc(high, d, radix);
    DigitRoundTrip(d);
  }

  lemma {:induction false} DigitsMean(v: nat, radix: nat)
    requires 2 <= radix <= 16
    ensures Number(Digits(v, radix), radix) == v && AllDigits(Digits(v, radix), radix)
  {
    DivSmaller(v, radix);
    if v / radix == 0 {
      DigitMeans("", 0, v % radix, radix, v);
    } else {
      DigitsMean(v / radix, radix);
      DigitMeans(Digits(v / radix, radix), v / radix, v % radix, radix, v);
    }
  }

  lemma DivSmaller(v: nat, radix: nat)
    requires radix >= 2
    ensures v / radix * radix + v % radix == v && 0 <= v / radix && (v > 0 ==> v / radix < v)
    ensures v % radix < radix
  {
    DivBounds(v, radix);
    if v > 0 {
      MulMono(v / radix, 2, radix);
    }
  }

  lemma PairMeans(high: string, h: nat, b: nat)
    requires b < 256 && Number(high, 16) == h && AllDigits(high, 16)
    ensures Number(high + Pair(b), 16) == (h * 16 + b / 16) * 16 + b % 16
    ensures AllDigits(high + Pair(b), 16)
  {
    assert high + Pair(b) == high + [DigitChar(b / 16)] + [DigitChar(b % 16)];
    hide Number, AllDigits, DigitOf, DigitChar, Pair;
    NumberSnoc(high, DigitChar(b / 16), 16);
    NumberSnoc(high + [DigitChar(b / 16)], DigitChar(b % 16), 16);
    AllDigitsSnoc(high, b / 16, 16);
    AllDigitsSnoc(high + [DigitChar(b / 16)], b % 16, 16);
    DigitRoundTrip(b / 16);
    DigitRoundTrip(b % 16);
  }

  lemma {:induction false} PairsMean(v: nat)
    ensures Number(Pairs(v), 16) == v && AllDigits(Pairs(v), 16)
  {
    var high := if v < 256 then "" else Pairs(v / 256);
    if v >= 256 {
      PairsMean(v / 256);
    }
    assert Number(high, 16) == v / 256 && AllDigits(high, 16);
    assert Pairs(v) == high + Pair(v % 256);
    hide Number, AllDigits, Pairs, Pair;
    PairMeans(high, v / 256, v % 256);
    NibblesOf(v);
  }

  lemma NibblesOf(v: nat)
    ensures (v / 256 * 16 + v % 256 / 16) * 16 + v % 256 % 16 == v
  {
  }

  lemma NoSign(s: string, radix: nat)
    requires AllDigits(s, radix) && radix <= 16
    ensures !HasSign(s)
  {
  }

  /** What is written reads as the number, in every radix and with either sign. */
  lemma TextMeans(neg: bool, v: nat, radix: nat)
    requires 2 <= radix <= 16
    ensures Readable(Text(neg, v, radix), radix)
    ensures Meaning(Text(neg, v, radix), radix) == Signed(neg, v)
  {
    var t := if radix == 16 then Pairs(v) else Digits(v, radix);
    if radix == 16 {
      PairsMean(v);
    } else {
      DigitsMean(v, radix);
    }
    hide Number, AllDigits, Pairs, Digits, DigitOf;
    NoSign(t, radix);
    assert Unsigned(Text(neg, v, radix)) == t;
  }

  // ---- mpi_read_string ----

  /** mpi_get_digit. */
  method GetDigit(radix: nat, c: char) returns (ok: bool, d: nat)
    requires radix <= 16
    ensures ok <==> DigitOf(c) < radix
    ensures d == DigitOf(c)
  {
    d := 255;
    if '0' <= c <= '9' { d := c as int - 0x30; }
    if 'A' <= c <= 'F' { d := c as int - 0x37; }
    if 'a' <= c <= 'f' { d := c as int - 0x57; }
    ok := d < radix;
  }

  lemma {:induction false} NumberBound(s: string)
    requires AllDigits(s, 16)
    ensures Number(s, 16) < Pow2(4 * |s|)
    decreases |s|
  {
    Pow2Zero();
    if s != [] {
      var m := |s| - 1;
      NumberBound(s[..m]);
      NibbleUp(4 * m);
    }
  }

  lemma NibbleUp(k: nat)
    ensures Pow2(k + 4) == 16 * Pow2(k)
  {
    hide Pow2;
    Pow2Add(k, 4);
    assert Pow2(4) == 16 by { Pow2Values(); }
  }

  lemma {:induction false} NumberCons(c: char, s: string)
    ensures Number([c] + s, 16) == DigitOf(c) * Pow2(4 * |s|) + Number(s, 16)
    decreases |s|
  {
    Pow2Zero();
    if s == [] {
      assert ([c] + s)[..0] == [] && ([c] + s)[0] == c;
    } else {
      var m := |s| - 1;
      assert ([c] + s)[..m + 1] == [c] + s[..m] && ([c] + s)[m + 1] == s[m];
      NumberCons(c, s[..m]);
      Pow2Add(4 * m, 4);
      assert Pow2(4) == 16 by { Pow2Values(); }
      Distribute(DigitOf(c), Pow2(4 * m), Number(s[..m], 16));
    }
  }

  lemma Distribute(d: nat, p: nat, n: nat)
    ensures (d * p + n) * 16 == d * (p * 16) + n * 16
  {
    assert (d * p) * 16 == d * (p * 16);
  }

  /** The digit goes into bits of the limb that are still zero. */
  lemma PlaceNibble(p: seq<Limb>, j: nat, d: nat)
    requires j < 8 * |p| && Nat(p) < Pow2(4 * j) && d < 16
    ensures
      var i, t := j / 8, j % 8 * 4;
      && Shl(d, t) < BASE
      && BitOr(p[i], Shl(d, t)) == p[i] + Shl(d, t) < BASE
      && Nat(p[i := p[i] + Shl(d, t)]) == Nat(p) + d * Pow2(4 * j)
  {
    hide Nat, Pow, Pow2, BitOr, Shl;
    var i, t := j / 8, j % 8 * 4;
    NibblePosition(j);
    LimbBelow(p, i, t);
    NibbleFits(d, t);
    BitOrDisjoint(Shl(d, t), p[i], t);
    NatUpdate(p, i, p[i] + Shl(d, t));
    PowIsPow2(i);
    Pow2Add(BIL * i, t);
    Exchange(Pow(i), d, Pow2(t));
  }

  lemma NibblePosition(j: nat)
    ensures 4 * j == BIL * (j / 8) + j % 8 * 4 && j % 8 * 4 <= BIL - 4
  {
  }

  lemma NibbleFits(d: nat, t: nat)
    requires d < 16 && t % 4 == 0 && t < BIL
    ensures Shl(d, t) == d * Pow2(t) && Shl(d, t) % Pow2(t) == 0 && Shl(d, t) + Pow2(t) <= BASE
  {
    hide Pow2;
    assert Pow2(32) == BASE by { Pow2Values(); }
    NibbleUp(t);
    Pow2Mono(t + 4, 32);
    DigitFits(d, Pow2(t));
  }

  lemma DigitFits(d: nat, p: nat)
    requires d < 16 && 0 < p
    ensures d * p % p == 0 && d * p + p <= 16 * p
  {
    MulMono(p, d + 1, 16);
    MulAdd(p, d, 1);
    DivUnique(d * p, p, d, 0);
  }

  /** The hexadecimal branch: nibbles from the end of the string. */
  method ReadHex(X: Mpi, s: string) returns (r: Ret)
    modifies X
    ensures r == if Readable(s, 16) then Ok else Fail(InvalidCharacter)
    ensures r.Ok? ==> X.Valid() && |X.p| >= 1 && X.Val() == Meaning(s, 16)
  {
    hide Nat, Pow, Pow2, BitOr, Shl, Number, AllDigits, DigitOf;
    X.Grow((|s| * 4 + BIL - 1) / BIL);
    X.Lset(0);
    var i, j := |s|, 0;
    HexStart(s);
    while i > 0
      invariant 0 <= i <= |s| && j == |s| - i && X.s == 1 && |X.p| >= 1 && |X.p| >= (|s| * 4 + BIL - 1) / BIL
      invariant AllDigits(s[i..], 16) && Nat(X.p) == Number(s[i..], 16)
    {
      if i == 1 && s[0] == '-' {
        X.s := -1;
        return Ok;
      }
      var ok, d := GetDigit(16, s[i - 1]);
      HexMore(s, i);
      if !ok {
        return Fail(InvalidCharacter);
      }
      NumberBound(s[i..]);
      PlaceNibble(X.p, j, d);
      X.p := X.p[j / 8 := BitOr(X.p[j / 8], Shl(d, j % 8 * 4))];
      i, j := i - 1, j + 1;
    }
    HexEnd(s);
    return Ok;
  }

  lemma HexStart(s: string)
    ensures AllDigits(s[|s|..], 16) && Number(s[|s|..], 16) == 0
  {
  }

  lemma HexMore(s: string, i: nat)
    requires 0 < i <= |s| && AllDigits(s[i..], 16)
    ensures !(i == 1 && s[0] == '-') && DigitOf(s[i - 1]) >= 16 ==> !Readable(s, 16)
    ensures DigitOf(s[i - 1]) < 16 ==> AllDigits(s[i - 1..], 16)
    ensures Number(s[i - 1..], 16) == DigitOf(s[i - 1]) * Pow2(4 * (|s| - i)) + Number(s[i..], 16)
  {
    hide Pow2, Number, DigitOf;
    assert s[i - 1..] == [s[i - 1]] + s[i..];
    NumberCons(s[i - 1], s[i..]);
    if !(i == 1 && s[0] == '-') {
      var k := if HasSign(s) then i - 2 else i - 1;
      assert Unsigned(s)[k] == s[i - 1];
    }
  }

  lemma HexEnd(s: string)
    requires AllDigits(s, 16)
    ensures s[0..] == s && !HasSign(s)
  {
  }

  /** k digits after the sign have been read; the sign is kept in X.s even while the value is 0. */
  ghost predicate ReadTo(s: string, radix: nat, i: nat, sign: int, v: nat)
  {
    var neg := HasSign(s);
    var k := if neg && i > 0 then i - 1 else i;
    && i <= |s| && k <= |Unsigned(s)|
    && sign == (if neg && i > 0 then -1 else 1)
    && v == Number(Unsigned(s)[..k], radix)
    && AllDigits(Unsigned(s)[..k], radix)
  }

  lemma ReadToStart(s: string, radix: nat)
    ensures ReadTo(s, radix, 0, 1, 0)
  {
  }

  lemma ReadToSign(s: string, radix: nat, sign: int, v: nat)
    requires ReadTo(s, radix, 0, sign, v) && HasSign(s)
    ensures ReadTo(s, radix, 1, -1, v)
  {
  }

  lemma ReadToMore(s: string, radix: nat, i: nat, sign: int, v: nat, next: nat)
    requires ReadTo(s, radix, i, sign, v) && i < |s| && !(i == 0 && s[0] == '-')
    requires next == v * radix + DigitOf(s[i])
    ensures DigitOf(s[i]) >= radix ==> !Readable(s, radix)
    ensures DigitOf(s[i]) < radix ==> ReadTo(s, radix, i + 1, sign, next)
  {
    hide Number, DigitOf;
    var u := Unsigned(s);
    var k := if HasSign(s) then i - 1 else i;
    assert u[k] == s[i];
    assert u[..k + 1] == u[..k] + [s[i]];
    NumberSnoc(u[..k], s[i], radix);
  }

  lemma ReadToEnd(s: string, radix: nat, sign: int, v: nat)
    requires ReadTo(s, radix, |s|, sign, v)
    ensures Readable(s, radix) && sign * v == Meaning(s, radix)
  {
    var u := Unsigned(s);
    assert u[..|u|] == u;
  }

  /** One digit more: T = X * radix, then X = T + d or T - d by the sign of X. */
  method AppendDigit(X: Mpi, T: Mpi, radix: nat, d: nat)
    requires X != T && X.Valid() && |X.p| >= 1 && 2 <= radix <= 16 && d < 16
    modifies X, T
    ensures X.s == old(X.s) && |X.p| >= 1
    ensures Nat(X.p) == old(Nat(X.p)) * radix + d
  {
    hide Nat;
    MulInt(T, X, radix);
    if X.s == 1 {
      AddInt(X, T, d);
    } else {
      SubInt(X, T, d);
    }
  }

  /** The other radices: digits from the front. */
  method ReadDigits(X: Mpi, radix: nat, s: string) returns (r: Ret)
    requires 2 <= radix < 16
    modifies X
    ensures r == if Readable(s, radix) then Ok else Fail(InvalidCharacter)
    ensures r.Ok? ==> X.Valid() && |X.p| >= 1 && X.Val() == Meaning(s, radix)
  {
    hide Nat, ReadTo, Readable, Meaning, DigitOf;
    var T := new Mpi();
    X.Lset(0);
    ReadToStart(s, radix);
    var i := 0;
    while i < |s|
      invariant 0 <= i <= |s| && X.Valid() && |X.p| >= 1 && fresh(T)
      invariant ReadTo(s, radix, i, X.s, Nat(X.p))
    {
      if i == 0 && s[i] == '-' {
        ReadToSign(s, radix, X.s, Nat(X.p));
        X.s := -1;
      } else {
        var ok, d := GetDigit(radix, s[i]);
        ReadToMore(s, radix, i, X.s, Nat(X.p), Nat(X.p) * radix + d);
        if !ok {
          return Fail(InvalidCharacter);
        }
        AppendDigit(X, T, radix, d);
      }
      i := i + 1;
    }
    ReadToEnd(s, radix, X.s, Nat(X.p));
    return Ok;
  }

  /** mpi_read_string: the number the text stands for, and only texts that stand for one. */
  method ReadString(X: Mpi, radix: int, s: string) returns (r: Ret)
    modifies X
    ensures r == if radix < 2 || radix > 16 then Fail(BadInputData)
                 else if Readable(s, radix) then Ok else Fail(InvalidCharacter)
    ensures r.Ok? ==> X.Valid() && |X.p| >= 1 && X.Val() == Meaning(s, radix)
  {
    hide Nat, Readable, Meaning;
    if radix < 2 || radix > 16 {
      return Fail(BadInputData);
    }
    if radix == 16 {
      r := ReadHex(X, s);
    } else {
      r := ReadDigits(X, radix, s);
    }
  }

  // ---- mpi_write_string ----

  /** mpi_div_int with a null remainder, in place. */
  method DivideBy(X: Mpi, radix: nat)
    requires X.s == 1 && 2 <= radix <= 16
    modifies X
    ensures X.Valid() && |X.p| >= 1 && Nat(X.p) == old(Nat(X.p)) / radix
    ensures Nat(X.p) > 0 ==> X.s == 1
  {
    hide Nat, Len, AliasedQuot;
    NatOne(radix);
    var B := new Mpi.OnStack(1, radix);
    ghost var v := Nat(X.p);
    assert X.Val() == v && B.Val() == radix;
    PositiveQuot(v, radix, true, false);
    DivBounds(v, radix);
    var r := DivMpi(X, null, X, B);
  }

  /** mpi_write_hlp: the digits, high-order first; X is used up. */
  method WriteHlp(X: Mpi, radix: int, s: array<char>, p: nat) returns (r: Ret, next: nat)
    requires X.s == 1 && |X.p| >= 1 && p <= s.Length
    requires 2 <= radix <= 16 ==> p + |Digits(Nat(X.p), radix)| <= s.Length
    modifies X, s
    ensures r == if radix < 2 || radix > 16 then Fail(BadInputData) else Ok
    ensures r.Ok? ==>
      var t := Digits(old(Nat(X.p)), radix);
      && next == p + |t| <= s.Length
      && s[..next] == old(s[..p]) + t
    ensures forall i :: next <= i < s.Length ==> s[i] == old(s[i])
    decreases Nat(X.p)
  {
    hide Nat;
    next := p;
    if radix < 2 || radix > 16 {
      return Fail(BadInputData), next;
    }
    ghost var v, front := Nat(X.p), s[..p];
    DivSmaller(v, radix);
    var ret, d := ModInt(X, radix);
    DivideBy(X, radix);
    var c := CmpInt(X, 0);
    hide Digits;
    DigitsStep(v, radix);
    if c != 0 {
      r, next := WriteHlp(X, radix, s, next);
    }
    s[next] := if d < 10 then (d + 0x30) as char else (d + 0x37) as char;
    next := next + 1;
    r := Ok;
  }

  lemma DigitsStep(v: nat, radix: nat)
    requires 2 <= radix <= 16
    ensures v / radix == 0 ==> Digits(v, radix) == [DigitChar(v % radix)]
    ensures v / radix != 0 ==> Digits(v, radix) == Digits(v / radix, radix) + [DigitChar(v % radix)]
  {
  }

  // ---- The hexadecimal branch of mpi_write_string ----

  /** The digits for the bytes above the m-th: none while they are all zero. */
  function HexSoFar(v: nat, m: nat): string {
    if Down(v, 8 * m) == 0 then "" else Pairs(Down(v, 8 * m))
  }

  lemma DownByte(v: nat, m: nat)
    ensures Down(v, 8 * m) == Down(v, 8 * (m + 1)) * 256 + ByteAt(v, m)
  {
    hide Pow2;
    Pow2Add(8 * m, 8);
    assert Pow2(8) == 256 by { Pow2Values(); }
    DivDiv(v, Pow2(8 * m), 256);
  }

  /** The next byte: left out while nothing but zeros has come, unless it is the last. */
  lemma HexNext(v: nat, m: nat)
    ensures
      var b := ByteAt(v, m);
      HexSoFar(v, m) ==
        if b == 0 && Down(v, 8 * (m + 1)) == 0 then "" else HexSoFar(v, m + 1) + Pair(b)
    ensures Down(v, 8 * (m + 1)) == 0 ==> HexSoFar(v, m + 1) == ""
  {
    DownByte(v, m);
    hide Down, ByteAt, Pair;
  }

  lemma HexStartsEmpty(v: nat, n: nat)
    requires v < Pow2(8 * n)
    ensures Down(v, 8 * n) == 0 && HexSoFar(v, n) == ""
  {
    hide Pow2;
    ModSmall(v, Pow2(8 * n));
  }

  lemma HexIsWhole(v: nat)
    ensures Down(v, 0) == v
    ensures (if v == 0 then HexSoFar(v, 0) + Pair(0) else HexSoFar(v, 0)) == Pairs(v)
  {
    Pow2Zero();
  }

  lemma {:induction false} PairsLength(v: nat, w: nat)
    requires v <= w
    ensures |Pairs(v)| <= |Pairs(w)|
    decreases w
  {
    if v >= 256 {
      PairsLength(v / 256, w / 256);
    }
  }

  lemma HexSoFarFits(v: nat, m: nat)
    ensures |HexSoFar(v, m)| <= |Pairs(v)|
  {
    PairsLength(Down(v, 8 * m), v);
  }

  /** What has been written when the bytes down to the m-th are done. */
  function HexDone(v: nat, m: nat): string {
    if m == 0 then Pairs(v) else HexSoFar(v, m)
  }

  lemma HexByteFacts(v: nat, m: nat, k: bool)
    requires k <==> Down(v, 8 * (m + 1)) != 0
    ensures
      var skip := ByteAt(v, m) == 0 && !k && m != 0;
      && HexDone(v, m) == (if skip then HexSoFar(v, m + 1) else HexSoFar(v, m + 1) + Pair(ByteAt(v, m)))
      && (m > 0 ==> (Down(v, 8 * m) != 0 <==> !skip))
    ensures |HexDone(v, m)| <= |Pairs(v)|
  {
    DownByte(v, m);
    HexNext(v, m);
    HexIsWhole(v);
    HexSoFarFits(v, m);
    assert m == 0 ==> 8 * m == 0;
    hide Down, HexSoFar, Pairs, ByteAt, Pair;
  }

  /** One byte of the number: two digits, or nothing for a leading zero byte. */
  method WriteHexByte(s: array<char>, p: nat, b: nat, m: nat, k: bool, ghost v: nat, ghost front: string)
    returns (next: nat, k': bool)
    requires b == ByteAt(v, m) && (k <==> Down(v, 8 * (m + 1)) != 0)
    requires p == |front| + |HexSoFar(v, m + 1)| <= s.Length && |front| + |Pairs(v)| <= s.Length
    requires s[..p] == front + HexSoFar(v, m + 1)
    modifies s
    ensures next == |front| + |HexDone(v, m)| <= s.Length && s[..next] == front + HexDone(v, m)
    ensures m > 0 ==> (k' <==> Down(v, 8 * m) != 0)
    ensures p <= next && forall i :: next <= i < s.Length ==> s[i] == old(s[i])
  {
    HexByteFacts(v, m, k);
    hide Down, HexSoFar, HexDone, Pairs, ByteAt, Pair;
    next, k' := p, k;
    if b == 0 && !k && m != 0 {
      return;
    }
    ghost var was := s[..p];
    PutPair(s, p, b);
    next, k' := p + 2, true;
    Joined(front, HexSoFar(v, m + 1), Pair(b));
  }

  lemma Joined(a: string, b: string, c: string)
    ensures (a + b) + c == a + (b + c)
  {
  }

  method PutPair(s: array<char>, p: nat, b: nat)
    requires p + 2 <= s.Length && b < 256
    modifies s
    ensures s[..p + 2] == old(s[..p]) + Pair(b)
    ensures forall i :: p + 2 <= i < s.Length ==> s[i] == old(s[i])
  {
    ghost var was := s[..p];
    s[p] := DigitChar(b / 16);
    s[p + 1] := DigitChar(b % 16);
    assert s[..p + 2] == was + [s[p], s[p + 1]];
  }

  /** All bytes, the highest limb and its highest byte first. */
  method WriteHex(X: Mpi, s: array<char>, p: nat) returns (next: nat)
    requires |X.p| >= 1 && p + |Pairs(Nat(X.p))| <= s.Length
    modifies s
    ensures next == p + |Pairs(Nat(X.p))| && s[..next] == old(s[..p]) + Pairs(Nat(X.p))
    ensures forall i :: next <= i < s.Length ==> s[i] == old(s[i])
  {
    hide Nat, Down, HexSoFar, Pairs, Pow, Pow2, ByteAt, Shr;
    ghost var v, front := Nat(X.p), s[..p];
    NatBound(X.p);
    PowIsPow2(|X.p|);
    HexStartsEmpty(v, CIL * |X.p|);
    next := p;
    var i, k := |X.p|, false;
    while i > 0
      invariant 0 <= i <= |X.p| && p + |Pairs(v)| <= s.Length && next <= s.Length
      invariant i == 0 ==> next == p + |Pairs(v)| && s[..next] == front + Pairs(v)
      invariant i > 0 ==> next == p + |HexSoFar(v, CIL * i)| && s[..next] == front + HexSoFar(v, CIL * i)
      invariant i > 0 ==> (k <==> Down(v, 8 * (CIL * i)) != 0)
      invariant forall j :: next <= j < s.Length ==> s[j] == old(s[j])
    {
      next, k := WriteHexLimb(X, s, next, i, k, v, front);
      i := i - 1;
    }
  }

  /** The four bytes of limb i - 1. */
  method WriteHexLimb(X: Mpi, s: array<char>, p: nat, i: nat, k: bool, ghost v: nat, ghost front: string)
    returns (next: nat, k': bool)
    requires 0 < i <= |X.p| && v == Nat(X.p) && |front| + |Pairs(v)| <= s.Length
    requires (k <==> Down(v, 8 * (CIL * i)) != 0)
    requires p == |front| + |HexSoFar(v, CIL * i)| <= s.Length && s[..p] == front + HexSoFar(v, CIL * i)
    modifies s
    ensures next <= s.Length && s[..next] == front + if i == 1 then Pairs(v) else HexSoFar(v, CIL * (i - 1))
    ensures i > 1 ==> next == |front| + |HexSoFar(v, CIL * (i - 1))| && (k' <==> Down(v, 8 * (CIL * (i - 1))) != 0)
    ensures i == 1 ==> next == |front| + |Pairs(v)|
    ensures p <= next && forall j :: next <= j < s.Length ==> s[j] == old(s[j])
  {
    hide Nat, Down, HexSoFar, Pairs, ByteAt, Shr;
    next, k' := p, k;
    var j := CIL;
    ghost var m := CIL * i;
    while j > 0
      invariant 0 <= j <= CIL && m == CIL * (i - 1) + j && next <= s.Length
      invariant m == 0 ==> next == |front| + |Pairs(v)| && s[..next] == front + Pairs(v)
      invariant m > 0 ==> next == |front| + |HexSoFar(v, m)| && s[..next] == front + HexSoFar(v, m)
      invariant m > 0 ==> (k' <==> Down(v, 8 * m) != 0)
      invariant p <= next && forall l :: next <= l < s.Length ==> s[l] == old(s[l])
    {
      m := m - 1;
      ByteOfLimb(X.p, m);
      LimbIndex(i - 1, j - 1);
      var c := Shr(X.p[i - 1], (j - 1) * 8) % 256;
      next, k' := WriteHexByte(s, next, c, CIL * (i - 1) + (j - 1), k', v, front);
      j := j - 1;
    }
  }

  lemma LimbIndex(i: nat, j: nat)
    requires j < CIL
    ensures (CIL * i + j) / CIL == i && (CIL * i + j) % CIL == j
  {
  }

  // ---- The whole ----

  /** The size mpi_write_string asks for, from the number of bits. */
  function Estimate(bits: nat, radix: nat): nat
    requires 2 <= radix <= 16
  {
    var n := if radix >= 4 then bits / 2 else bits;
    var n' := if radix >= 16 then n / 2 else n;
    n' + 3
  }

  /**
    * mpi_write_string. s is the memory from the buffer on, and the buffer is its first slen characters:
    * a text longer than the buffer that passes the size check runs on behind it (see EstimateExact).
    */
  method WriteString(X: Mpi, radix: int, s: array<char>, slen: nat) returns (r: Ret, slenOut: nat)
    requires X.Valid() && |X.p| >= 1 && slen <= s.Length
    requires 2 <= radix <= 16 ==> |Text(X.s == -1, Nat(X.p), radix)| + 1 <= s.Length
    modifies s
    ensures radix < 2 || radix > 16 ==> r == Fail(BadInputData) && slenOut == slen && s[..] == old(s[..])
    ensures 2 <= radix <= 16 ==>
      var need := Estimate(BitLen(Nat(X.p)), radix);
      && r == (if slen < need then Fail(BufferTooSmall) else Ok)
      && (r.Fail? ==> slenOut == need && s[..] == old(s[..]))
    ensures r.Ok? ==>
      var t := Text(X.s == -1, Nat(X.p), radix);
      && slenOut == |t| + 1 <= s.Length && s[..|t|] == t && s[|t|] == 0 as char
      && forall i :: slenOut <= i < s.Length ==> s[i] == old(s[i])
    ensures X.s == old(X.s) && X.p == old(X.p)
  {
    hide Nat, Pairs, Digits, BitLen;
    if radix < 2 || radix > 16 {
      return Fail(BadInputData), slen;
    }
    var n := Msb(X);
    if radix >= 4 { n := n / 2; }
    if radix >= 16 { n := n / 2; }
    n := n + 3;
    if slen < n {
      return Fail(BufferTooSmall), n;
    }
    var p := 0;
    if X.s == -1 {
      s[0] := '-';
      p := 1;
    }
    assert s[..p] == if X.s == -1 then "-" else "";
    if radix == 16 {
      p := WriteHex(X, s, p);
    } else {
      var T := new Mpi();
      T.Copy(X);
      if T.s == -1 { T.s := 1; }
      r, p := WriteHlp(T, radix, s, p);
    }
    s[p] := 0 as char;
    return Ok, p + 1;
  }

  /** Reading what was written gives the number back, whenever writing accepts the buffer. */
  method RoundTrip(X: Mpi, Y: Mpi, radix: nat, s: array<char>, slen: nat) returns (r: Ret)
    requires X.Valid() && |X.p| >= 1 && X != Y && 2 <= radix <= 16 && slen <= s.Length
    requires |Text(X.s == -1, Nat(X.p), radix)| + 1 <= s.Length
    modifies Y, s
    ensures r == if slen < Estimate(BitLen(Nat(X.p)), radix) then Fail(BufferTooSmall) else Ok
    ensures r.Ok? ==> Y.Valid() && Y.Val() == X.Val() == old(X.Val())
  {
    hide Nat, Text, Estimate, BitLen, Readable, Meaning;
    TextMeans(X.s == -1, Nat(X.p), radix);
    var slenOut;
    r, slenOut := WriteString(X, radix, s, slen);
    if r.Fail? { return; }
    r := ReadString(Y, radix, s[..slenOut - 1]);
  }

  // ---- Is the size that is asked for enough? ----

  lemma BitLenHalf(v: nat)
    requires v > 0
    ensures BitLen(v) == 1 + BitLen(v / 2)
  {
  }

  lemma BitLenQuarter(v: nat)
    requires v >= 2
    ensures BitLen(v) == 2 + BitLen(v / 4)
  {
    assert v / 2 / 2 == v / 4;
  }

  lemma BitLenByte(v: nat)
    requires v >= 256
    ensures BitLen(v) == 8 + BitLen(v / 256)
  {
    hide BitLen;
    BitLenQuarter(v);
    BitLenQuarter(v / 4);
    BitLenQuarter(v / 16);
    BitLenQuarter(v / 64);
    assert v / 4 / 4 == v / 16 && v / 16 / 4 == v / 64 && v / 64 / 4 == v / 256;
  }

  lemma {:induction false} BitLenMono(v: nat, w: nat)
    requires v <= w
    ensures BitLen(v) <= BitLen(w)
    decreases w
  {
    if v > 0 {
      BitLenMono(v / 2, w / 2);
    }
  }

  lemma BitLenSmall(v: nat)
    requires v < 256
    ensures BitLen(v) <= 8
  {
    BitLenMono(v, 255);
    assert BitLen(255) == 4 + BitLen(15) && BitLen(15) == 4 by {
      assert BitLen(3) == 2;
      BitLenQuarter(15);
      BitLenQuarter(255);
      BitLenQuarter(63);
    }
  }

  lemma OneMoreByte(x: nat)
    ensures (8 + x + 7) / 8 == 1 + (x + 7) / 8
  {
  }

  /** Two characters for every byte, and two for zero. */
  lemma {:induction false} PairsSize(v: nat)
    ensures |Pairs(v)| == if BitLen(v) == 0 then 2 else 2 * ((BitLen(v) + 7) / 8)
  {
    BitLenPositive(v);
    if v >= 256 {
      PairsSize(v / 256);
      BitLenPositive(v / 256);
      hide BitLen;
      BitLenByte(v);
      OneMoreByte(BitLen(v / 256));
    } else {
      BitLenSmall(v);
    }
  }

  lemma {:induction false} DigitsSize(v: nat, radix: nat)
    requires 2 <= radix <= 16
    ensures |Digits(v, radix)| <= if BitLen(v) == 0 then 1 else if radix >= 4 then (BitLen(v) + 1) / 2 else BitLen(v)
  {
    BitLenPositive(v);
    DigitsStep(v, radix);
    DivSmaller(v, radix);
    if v / radix != 0 {
      DigitsSize(v / radix, radix);
      BitLenPositive(v / radix);
      Shrinks(v, radix);
      hide BitLen, Digits;
      if radix >= 4 {
        BitLenQuarter(v);
        BitLenMono(v / radix, v / 4);
      } else {
        BitLenHalf(v);
        BitLenMono(v / radix, v / 2);
      }
    }
  }

  lemma Shrinks(v: nat, radix: nat)
    requires 2 <= radix && v / radix != 0
    ensures v >= 2 && v / radix <= v / 2 && (radix >= 4 ==> v / radix <= v / 4)
  {
    DivBounds(v, radix);
    var q := v / radix;
    MulMono(q, 2, radix);
    if radix >= 4 {
      MulMono(q, 4, radix);
    }
  }

  /**
    * A buffer of the size that is asked for has room for the text and its NUL,
    * except for a negative number in hexadecimal whose first byte is below 8.
    */
  lemma EstimateExact(neg: bool, v: nat, radix: nat)
    requires 2 <= radix <= 16
    ensures |Text(neg, v, radix)| + 1 <= Estimate(BitLen(v), radix)
            <==> radix != 16 || !neg || (BitLen(v) > 0 && (BitLen(v) % 8 == 0 || BitLen(v) % 8 >= 4))
  {
    PairsSize(v);
    DigitsSize(v, radix);
    hide BitLen, Pairs, Digits, Estimate;
    if radix == 16 {
      HexRoom(BitLen(v), if neg then 1 else 0);
    } else {
      DigitRoom(BitLen(v), radix);
    }
  }

  lemma HexRoom(bits: nat, neg: nat)
    requires neg <= 1
    ensures
      var n := if bits == 0 then 2 else 2 * ((bits + 7) / 8);
      n + neg + 1 <= Estimate(bits, 16) <==> neg == 0 || (bits > 0 && (bits % 8 == 0 || bits % 8 >= 4))
  {
    var q, r := bits / 8, bits % 8;
    assert bits == 8 * q + r && bits / 2 / 2 == 2 * q + r / 4;
    assert (bits + 7) / 8 == if r == 0 then q else q + 1;
  }

  lemma DigitRoom(bits: nat, radix: nat)
    requires 2 <= radix < 16
    ensures (if bits == 0 then 1 else if radix >= 4 then (bits + 1) / 2 else bits) + 2 <= Estimate(bits, radix)
  {
  }

  /** The number -1 in hexadecimal: "-01" and its NUL take 4 characters, 3 are asked for. */
  lemma EstimateTooSmall()
    ensures Text(true, 1, 16) == "-01" && Estimate(BitLen(1), 16) == 3
  {
    assert Pairs(1) == [] + Pair(1);
    assert Pair(1) == "01";
    assert BitLen(1) == 1 + BitLen(0);
  }
}
