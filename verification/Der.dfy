/** DER as asn1write.c writes it, backwards, and asn1parse.c reads it, forwards (ITU-T X.690, sections 8.1.3, 8.3 and 10.1). */
module Der {
  import opened Arith
  import opened Limbs
  import opened Bignum
  import opened Binary

  const INTEGER: Byte := 2
  const SEQUENCE: Byte := 0x30

  // ---- The encoding ----

  function LenOctets(n: nat): (r: seq<Byte>)
    ensures 1 <= |r| <= 3
  {
    if n < 0x80 then [n]
    else if n <= 0xFF then [0x81, n]
    else [0x82, n / 256 % 256, n % 256]
  }

  function Tlv(tag: Byte, content: seq<Byte>): (r: seq<Byte>)
    ensures |r| >= |content| + 2
  {
    [tag] + LenOctets(|content|) + content
  }

  /**
    * The content of an INTEGER as asn1_write_mpi writes it: the bytes of v, and for a number of positive
    * sign a zero in front when the byte at the cursor would look negative. For v = 0 there are no bytes,
    * and that byte is the one that stands after the cursor already.
    */
  function Content(neg: bool, v: nat, after: Byte): (r: seq<Byte>) {
    var b := BytesOf(v, ByteLen(v));
    if !neg && (if b == [] then after else b[0]) >= 0x80 then [0] + b else b
  }

  function DerInteger(neg: bool, v: nat, after: Byte): (r: seq<Byte>)
    ensures |r| >= 2 && r[0] == INTEGER
  {
    Tlv(INTEGER, Content(neg, v, after))
  }

  /** A sign and a magnitude, the two fields of an mpi. */
  datatype Signed = Signed(neg: bool, v: nat)

  /** r stands before s, and beyond is what memory holds behind the buffer. */
  function Integers(r: Signed, s: Signed, beyond: Byte): seq<Byte> {
    DerInteger(r.neg, r.v, INTEGER) + DerInteger(s.neg, s.v, beyond)
  }

  function Signature(r: Signed, s: Signed, beyond: Byte): seq<Byte> {
    Tlv(SEQUENCE, Integers(r, s, beyond))
  }

  lemma ContentValue(neg: bool, v: nat, after: Byte)
    ensures BytesNat(Content(neg, v, after)) == v
  {
    hide BytesNat, BytesOf, ByteLen;
    ByteLenBounds(v);
    var n := ByteLen(v);
    BytesOfNat(v, n);
    var b := BytesOf(v, n);
    BytesAppend([0], b);
    ByteNat(0);
    assert 0 * Pow2(8 * |b|) == 0;
  }

  /** The content of a positive number is the least two's complement form: not negative, and no needless zero in front. */
  lemma ContentMinimal(v: nat, after: Byte)
    requires v > 0
    ensures var c := Content(false, v, after); |c| > 0 && c[0] < 0x80 && (c[0] == 0 ==> |c| > 1 && c[1] >= 0x80)
  {
    hide BytesNat, BytesOf, ByteLen;
    ByteLenBounds(v);
    FirstByte(v);
  }

  /** The first byte of a positive number is not zero. */
  lemma FirstByte(v: nat)
    requires v > 0
    ensures |BytesOf(v, ByteLen(v))| > 0 && BytesOf(v, ByteLen(v))[0] > 0
  {
    hide BytesOf, ByteLen, Pow2;
    ByteLenBounds(v);
    var n := ByteLen(v);
    BytesOfAt(v, n, n - 1);
    Pow2Add(8 * (n - 1), 8);
    assert Pow2(8) == 256 by { Pow2Values(); }
    DivBounds(v, Pow2(8 * (n - 1)));
    DivLess(v, Pow2(8 * (n - 1)), 256);
  }

  lemma TwoOctets(a: Byte, b: Byte)
    ensures BytesNat([b]) == b && BytesNat([a, b]) == a * 256 + b
  {
    assert [b][..0] == [] && [a][..0] == [] && [a, b][..1] == [a];
  }

  // ---- The format, octet by octet ----

  /** Section 8.1.3: o says that n octets follow, in the short form or in the long one with up to four octets. */
  ghost predicate IsLength(o: seq<Byte>, n: nat) {
    |o| >= 1 &&
    if o[0] < 128 then |o| == 1 && n == o[0]
    else 1 <= |o| - 1 <= 4 && o[0] == 128 + (|o| - 1) && n == BytesNat(o[1..])
  }

  /** Section 10.1: and no shorter form says so. */
  ghost predicate IsShortest(o: seq<Byte>, n: nat) {
    IsLength(o, n) && (|o| > 1 ==> n >= 128 && o[1] != 0)
  }

  /** Section 8.3: the octets of a positive integer. */
  ghost predicate IsPositive(c: seq<Byte>, v: nat) {
    |c| > 0 && c[0] < 128 && (c[0] == 0 ==> |c| > 1 && c[1] >= 128) && BytesNat(c) == v
  }

  /** The places of the elements of a signature: lengths and contents, r before s. */
  datatype Layout = Layout(o: seq<Byte>, o1: seq<Byte>, c1: seq<Byte>, o2: seq<Byte>, c2: seq<Byte>) {
    function Inner(): seq<Byte> {
      ([0x02] + o1 + c1) + ([0x02] + o2 + c2)
    }

    function Bytes(): seq<Byte> {
      [0x30] + o + Inner()
    }
  }

  /** t is an ECDSA-Sig-Value of the numbers r and s, not necessarily in the distinguished encoding. */
  ghost predicate Denotes(t: seq<Byte>, l: Layout, r: nat, s: nat) {
    && t == l.Bytes()
    && IsLength(l.o, |l.Inner()|) && IsLength(l.o1, |l.c1|) && IsLength(l.o2, |l.c2|)
    && BytesNat(l.c1) == r && BytesNat(l.c2) == s
  }

  /** In the distinguished encoding, for positive numbers. */
  ghost predicate Distinguished(t: seq<Byte>, l: Layout, r: nat, s: nat) {
    && Denotes(t, l, r, s)
    && IsShortest(l.o, |l.Inner()|) && IsShortest(l.o1, |l.c1|) && IsShortest(l.o2, |l.c2|)
    && IsPositive(l.c1, r) && IsPositive(l.c2, s)
  }

  lemma LenOctetsShortest(n: nat)
    requires n < 0x1_0000
    ensures IsShortest(LenOctets(n), n)
  {
    var o := LenOctets(n);
    if 0x80 <= n <= 0xFF {
      assert o[1..] == [n];
      TwoOctets(0, n);
    } else if n > 0xFF {
      assert o[1..] == [n / 256 % 256, n % 256];
      TwoOctets(n / 256 % 256, n % 256);
    }
  }

  /** What is written denotes the magnitudes, and is the distinguished encoding of positive ones. */
  lemma SignatureDefinition(r: Signed, s: Signed, beyond: Byte) returns (l: Layout)
    requires |Signature(r, s, beyond)| < 0x1_0000
    ensures Denotes(Signature(r, s, beyond), l, r.v, s.v)
    ensures !r.neg && !s.neg && r.v > 0 && s.v > 0 ==> Distinguished(Signature(r, s, beyond), l, r.v, s.v)
  {
    var c1, c2, n := Content(r.neg, r.v, INTEGER), Content(s.neg, s.v, beyond), |Integers(r, s, beyond)|;
    LenOctetsShortest(n);
    LenOctetsShortest(|c1|);
    LenOctetsShortest(|c2|);
    ContentValue(r.neg, r.v, INTEGER);
    ContentValue(s.neg, s.v, beyond);
    if r.v > 0 && !r.neg { ContentMinimal(r.v, INTEGER); }
    if s.v > 0 && !s.neg { ContentMinimal(s.v, beyond); }
    l := Layout(LenOctets(n), LenOctets(|c1|), c1, LenOctets(|c2|), c2);
    hide Content, LenOctets, BytesNat, IsLength;
  }

  // ---- Writing, backwards from p down to start ----

  /** The bytes e were put right before p. */
  ghost predicate Before(was: seq<Byte>, p: nat, e: seq<Byte>, now: seq<Byte>) {
    |e| <= p <= |was| && now == was[..p - |e|] + e + was[p..]
  }

  lemma BeforeTwice(was: seq<Byte>, p: nat, e: seq<Byte>, mid: seq<Byte>, f: seq<Byte>, now: seq<Byte>)
    requires Before(was, p, e, mid) && Before(mid, p - |e|, f, now)
    ensures Before(was, p, f + e, now)
  {
    var q := p - |e|;
    assert mid[..q - |f|] == was[..q - |f|] && mid[q..] == e + was[p..];
    assert now == was[..q - |f|] + f + (e + was[p..]);
  }

  /** *--(*p) = b, when there is room. */
  method PutByte(buf: array<Byte>, p: nat, b: Byte) returns (next: nat)
    requires 0 < p <= buf.Length
    modifies buf
    ensures next == p - 1 && Before(old(buf[..]), p, [b], buf[..])
  {
    next := p - 1;
    buf[next] := b;
  }

  /** Two in a row: a and then, before it, b. */
  method PutTwo(buf: array<Byte>, p: nat, a: Byte, b: Byte) returns (next: nat)
    requires 2 <= p <= buf.Length
    modifies buf
    ensures next == p - 2 && Before(old(buf[..]), p, [b, a], buf[..])
  {
    ghost var was := buf[..];
    next := PutByte(buf, p, a);
    ghost var mid := buf[..];
    next := PutByte(buf, next, b);
    BeforeTwice(was, p, [a], mid, [b], buf[..]);
    assert [b] + [a] == [b, a];
  }

  /** asn1_write_tag. */
  method WriteTag(buf: array<Byte>, p: nat, start: nat, tag: Byte) returns (ok: bool, next: nat)
    requires start <= p <= buf.Length
    modifies buf
    ensures ok <==> p - start >= 1
    ensures ok ==> start <= next == p - 1 && Before(old(buf[..]), p, [tag], buf[..])
    ensures !ok ==> next == p && buf[..] == old(buf[..])
  {
    if p - start < 1 {
      return false, p;
    }
    next := PutByte(buf, p, tag);
    ok := true;
  }

  /** asn1_write_len; lengths stay below 65536. */
  method WriteLen(buf: array<Byte>, p: nat, start: nat, len: nat) returns (ok: bool, next: nat)
    requires start <= p <= buf.Length
    modifies buf
    ensures ok <==> p - start >= |LenOctets(len)|
    ensures ok ==> start <= next == p - |LenOctets(len)| && Before(old(buf[..]), p, LenOctets(len), buf[..])
    ensures !ok ==> next == p && buf[..] == old(buf[..])
  {
    hide Before;
    if len < 0x80 {
      if p - start < 1 {
        return false, p;
      }
      next := PutByte(buf, p, len);
      return true, next;
    }
    if len <= 0xFF {
      if p - start < 2 {
        return false, p;
      }
      next := PutTwo(buf, p, len, 0x81);
      return true, next;
    }
    if p - start < 3 {
      return false, p;
    }
    ghost var was := buf[..];
    next := PutTwo(buf, p, len % 256, len / 256 % 256);
    ghost var mid := buf[..];
    next := PutByte(buf, next, 0x82);
    BeforeTwice(was, p, [len / 256 % 256, len % 256], mid, [0x82], buf[..]);
    assert LenOctets(len) == [0x82] + [len / 256 % 256, len % 256];
    ok := true;
  }

  /** The byte at p, or what memory holds behind the array. */
  function ByteHere(buf: seq<Byte>, p: nat, beyond: Byte): Byte {
    if p < |buf| then buf[p] else beyond
  }

  lemma ContentLength(neg: bool, v: nat, after: Byte)
    ensures
      var b := BytesOf(v, ByteLen(v));
      |Content(neg, v, after)| == |b| + if !neg && (if b == [] then after else b[0]) >= 0x80 then 1 else 0
  {
  }

  /** The number and, if it would look negative, the zero in front. */
  method WriteContent(buf: array<Byte>, p: nat, start: nat, X: Mpi, beyond: Byte) returns (ok: bool, next: nat)
    requires start <= p <= buf.Length && |X.p| >= 1 && X.Valid()
    modifies buf
    ensures
      var c := Content(X.s == -1, Nat(X.p), ByteHere(old(buf[..]), p, beyond));
      && (ok <==> p - start >= |c|)
      && (ok ==> start <= next == p - |c| && Before(old(buf[..]), p, c, buf[..]))
    ensures buf[p..] == old(buf[p..])
  {
    hide Nat, BytesNat, BytesOf, ByteLen, Content;
    ghost var v, was := Nat(X.p), buf[..];
    ContentLength(X.s == -1, v, ByteHere(was, p, beyond));
    ContentIs(X.s == -1, v, ByteHere(was, p, beyond));
    var len := Size(X);
    next := p;
    if p - start < len {
      return false, p;
    }
    next := p - len;
    var r := WriteBinary(X, buf, next, len);
    ghost var b := BytesOf(v, len);
    ghost var mid := buf[..];
    BytesBefore(was, p, b, mid);
    hide Before;
    var here := if next < buf.Length then buf[next] else beyond;
    assert here == if b == [] then ByteHere(was, p, beyond) else b[0];
    if X.s == 1 && here >= 0x80 {
      if next - start < 1 {
        return false, p;
      }
      next := PutByte(buf, next, 0);
      BeforeTwice(was, p, b, mid, [0], buf[..]);
    }
    ok := true;
  }

  lemma BytesBefore(was: seq<Byte>, p: nat, b: seq<Byte>, now: seq<Byte>)
    requires |b| <= p <= |was| == |now| && now[p - |b|..p] == b
    requires now[..p - |b|] == was[..p - |b|] && now[p..] == was[p..]
    ensures Before(was, p, b, now)
  {
    assert now == now[..p - |b|] + now[p - |b|..p] + now[p..];
  }

  lemma ContentIs(neg: bool, v: nat, after: Byte)
    ensures
      var b := BytesOf(v, ByteLen(v));
      Content(neg, v, after) == if !neg && (if b == [] then after else b[0]) >= 0x80 then [0] + b else b
  {
  }

  /** Length and tag in front of content that stands at p already. */
  method WriteHeader(buf: array<Byte>, p: nat, start: nat, tag: Byte, content: nat) returns (ok: bool, next: nat)
    requires start <= p <= buf.Length
    modifies buf
    ensures ok <==> p - start >= 1 + |LenOctets(content)|
    ensures ok ==> start <= next == p - 1 - |LenOctets(content)|
    ensures ok ==> Before(old(buf[..]), p, [tag] + LenOctets(content), buf[..])
    ensures buf[p..] == old(buf[p..])
  {
    ghost var was := buf[..];
    ok, next := WriteLen(buf, p, start, content);
    if !ok {
      return;
    }
    ghost var mid := buf[..];
    ok, next := WriteTag(buf, next, start, tag);
    if ok {
      BeforeTwice(was, p, LenOctets(content), mid, [tag], buf[..]);
    }
  }

  /** asn1_write_mpi: the whole INTEGER before p, or no room. */
  method WriteMpi(buf: array<Byte>, p: nat, start: nat, X: Mpi, beyond: Byte) returns (ok: bool, next: nat)
    requires start <= p <= buf.Length && |X.p| >= 1 && X.Valid()
    modifies buf
    ensures
      var e := DerInteger(X.s == -1, Nat(X.p), ByteHere(old(buf[..]), p, beyond));
      && (ok <==> p - start >= |e|)
      && (ok ==> start <= next == p - |e| && Before(old(buf[..]), p, e, buf[..]))
    ensures buf[p..] == old(buf[p..])
  {
    hide Nat, Content, LenOctets, Before;
    ghost var was := buf[..];
    ghost var m := Content(X.s == -1, Nat(X.p), ByteHere(was, p, beyond));
    ok, next := WriteContent(buf, p, start, X, beyond);
    if !ok {
      return;
    }
    ghost var mid := buf[..];
    BeforeKeeps(was, p, m, mid);
    ok, next := WriteHeader(buf, next, start, INTEGER, p - next);
    TailKept(mid, buf[..], p - |m|, p);
    if ok {
      BeforeTwice(was, p, m, mid, [INTEGER] + LenOctets(|m|), buf[..]);
    }
  }

  lemma BeforeKeeps(was: seq<Byte>, p: nat, e: seq<Byte>, now: seq<Byte>)
    requires Before(was, p, e, now)
    ensures now[p..] == was[p..]
  {
  }

  lemma TailKept(a: seq<Byte>, b: seq<Byte>, q: nat, p: nat)
    requires q <= p <= |a| == |b| && a[q..] == b[q..]
    ensures a[p..] == b[p..]
  {
    assert a[p..] == a[q..][p - q..] && b[p..] == b[q..][p - q..];
  }

  function FieldsOf(X: Mpi): Signed
    reads X
  {
    Signed(X.s == -1, Nat(X.p))
  }

  /** The two INTEGERs of a signature, s first. */
  method WriteIntegers(buf: array<Byte>, R: Mpi, S: Mpi, beyond: Byte) returns (ok: bool, next: nat)
    requires |R.p| >= 1 && R.Valid() && |S.p| >= 1 && S.Valid()
    modifies buf
    ensures
      var e := Integers(FieldsOf(R), FieldsOf(S), beyond);
      && (ok <==> |e| <= buf.Length)
      && (ok ==> next == buf.Length - |e| && Before(old(buf[..]), buf.Length, e, buf[..]))
  {
    hide Nat, DerInteger, Before;
    ghost var was := buf[..];
    ghost var r, s := DerInteger(R.s == -1, Nat(R.p), INTEGER), DerInteger(S.s == -1, Nat(S.p), beyond);
    next := buf.Length;
    ok, next := WriteMpi(buf, next, 0, S, beyond);
    if ok {
      ghost var mid := buf[..];
      FirstOf(was, s, mid);
      ok, next := WriteMpi(buf, next, 0, R, beyond);
      if ok {
        BeforeTwice(was, buf.Length, s, mid, r, buf[..]);
      }
    }
  }

  /** And the header of the SEQUENCE. */
  method WriteSequence(buf: array<Byte>, R: Mpi, S: Mpi, beyond: Byte) returns (ok: bool, next: nat)
    requires |R.p| >= 1 && R.Valid() && |S.p| >= 1 && S.Valid()
    modifies buf
    ensures ok <==> |Signature(FieldsOf(R), FieldsOf(S), beyond)| <= buf.Length
    ensures ok ==>
      && next == buf.Length - |Signature(FieldsOf(R), FieldsOf(S), beyond)|
      && buf[next..] == Signature(FieldsOf(R), FieldsOf(S), beyond)
  {
    hide Nat, Integers, LenOctets, Before;
    ghost var was := buf[..];
    ghost var e := Integers(FieldsOf(R), FieldsOf(S), beyond);
    ok, next := WriteIntegers(buf, R, S, beyond);
    if ok {
      ghost var mid := buf[..];
      ok, next := WriteHeader(buf, next, 0, SEQUENCE, buf.Length - next);
      if ok {
        BeforeTwice(was, buf.Length, e, mid, [SEQUENCE] + LenOctets(|e|), buf[..]);
        BeforeAtEnd(was, Tlv(SEQUENCE, e), buf[..]);
      }
    }
  }

  lemma FirstOf(was: seq<Byte>, e: seq<Byte>, now: seq<Byte>)
    requires e != [] && Before(was, |was|, e, now)
    ensures |now| == |was| && now[|was| - |e|] == e[0]
  {
    BeforeAtEnd(was, e, now);
    assert now[|was| - |e|..][0] == e[0];
  }

  lemma BeforeAtEnd(was: seq<Byte>, e: seq<Byte>, now: seq<Byte>)
    requires Before(was, |was|, e, now)
    ensures |now| == |was| && now[|was| - |e|..] == e
  {
  }

  /** 3 + 2 * (2 + POLARSSL_ECP_MAX_BYTES), with 66 bytes for curves of up to 521 bits. */
  const MAX_SIG_LEN := 139

  /** Numbers of 521 bits take 66 bytes of content, the zero in front included. */
  lemma ContentFits(neg: bool, v: nat, after: Byte)
    requires v < Pow2(521)
    ensures |Content(neg, v, after)| <= 66
  {
    hide BytesOf, ByteLen, Pow2;
    Pow2Mono(521, 528);
    assert v < Pow2(8 * 66) by { assert 8 * 66 == 528; }
    ByteLenAtMost(v, 66);
    ByteLenBounds(v);
    if ByteLen(v) == 66 {
      BytesOfAt(v, 66, 65);
      Pow2Add(520, 1);
      assert Pow2(1) == 2 by { Pow2Next(0); Pow2Zero(); }
      DivLess(v, Pow2(520), 2);
      assert 8 * 65 == 520;
    }
  }

  /** So the buffer of ecdsa_signature_to_asn1 holds every signature on such a curve. */
  lemma SignatureFits(r: Signed, s: Signed, beyond: Byte)
    ensures r.v < Pow2(521) && s.v < Pow2(521) ==> |Signature(r, s, beyond)| <= MAX_SIG_LEN
  {
    if r.v < Pow2(521) && s.v < Pow2(521) {
      hide Content, Pow2;
      ContentFits(r.neg, r.v, INTEGER);
      ContentFits(s.neg, s.v, beyond);
    }
  }

  /** The memcpy of the bytes from p on. */
  method CopyFrom(buf: array<Byte>, p: nat, sig: array<Byte>) returns (slen: nat)
    requires p <= buf.Length <= p + sig.Length && buf != sig
    modifies sig
    ensures slen == buf.Length - p && sig[..slen] == buf[p..] == old(buf[p..])
  {
    slen := buf.Length - p;
    forall k | 0 <= k < slen {
      sig[k] := buf[p + k];
    }
    assert sig[..slen] == buf[p..];
  }

  /** ecdsa_signature_to_asn1. */
  method SignatureToAsn1(R: Mpi, S: Mpi, sig: array<Byte>, beyond: Byte) returns (ok: bool, slen: nat)
    requires |R.p| >= 1 && R.Valid() && |S.p| >= 1 && S.Valid()
    requires sig.Length >= MAX_SIG_LEN
    modifies sig
    ensures ok <==> |Signature(FieldsOf(R), FieldsOf(S), beyond)| <= MAX_SIG_LEN
    ensures Nat(R.p) < Pow2(521) && Nat(S.p) < Pow2(521) ==> ok
    ensures ok ==>
      && slen == |Signature(FieldsOf(R), FieldsOf(S), beyond)| <= sig.Length
      && sig[..slen] == Signature(FieldsOf(R), FieldsOf(S), beyond)
    ensures !ok ==> sig[..] == old(sig[..])
    ensures ok ==> exists l :: Denotes(sig[..slen], l, Nat(R.p), Nat(S.p))
    ensures ok && R.s == 1 && S.s == 1 && Nat(R.p) > 0 && Nat(S.p) > 0 ==>
      exists l :: Distinguished(sig[..slen], l, Nat(R.p), Nat(S.p))
  {
    hide Nat, Signature, Pow2, Denotes, Distinguished;
    SignatureFits(FieldsOf(R), FieldsOf(S), beyond);
    var buf := new Byte[MAX_SIG_LEN];
    var p;
    ok, p := WriteSequence(buf, R, S, beyond);
    slen := 0;
    if ok {
      slen := CopyFrom(buf, p, sig);
      ghost var l := SignatureDefinition(FieldsOf(R), FieldsOf(S), beyond);
    }
  }

  // ---- Reading, forwards from p up to end ----

  datatype Error = None | OutOfData | UnexpectedTag | InvalidLength | LengthMismatch | SigLenMismatch

  /** How many bytes of header there were and how long the content is, or what is wrong. */
  datatype Header = Header(used: nat, len: nat) | Bad(error: Error)

  function ReadLen(t: seq<Byte>): Header {
    if t == [] then Bad(OutOfData)
    else if t[0] < 0x80 then (if t[0] > |t| - 1 then Bad(OutOfData) else Header(1, t[0]))
    else
      var k := t[0] - 0x80;
      if k == 0 || k > 4 then Bad(InvalidLength)
      else if |t| < k + 1 || BytesNat(t[1..k + 1]) > |t| - (k + 1) then Bad(OutOfData)
      else Header(k + 1, BytesNat(t[1..k + 1]))
  }

  function ReadTag(t: seq<Byte>, tag: Byte): Header {
    if t == [] then Bad(OutOfData)
    else if t[0] != tag then Bad(UnexpectedTag)
    else match ReadLen(t[1..]) case Bad(e) => Bad(e) case Header(used, len) => Header(used + 1, len)
  }

  /** On success the content lies before the end: the reader never passes it. */
  lemma ReadInside(t: seq<Byte>, tag: Byte)
    ensures ReadLen(t).Header? ==> ReadLen(t).used + ReadLen(t).len <= |t|
    ensures ReadTag(t, tag).Header? ==> ReadTag(t, tag).used + ReadTag(t, tag).len <= |t|
  {
    hide BytesNat;
  }

  lemma ReadLenWritten(n: nat, rest: seq<Byte>)
    requires n <= |rest| && n < 0x1_0000
    ensures ReadLen(LenOctets(n) + rest) == Header(|LenOctets(n)|, n)
  {
    var t := LenOctets(n) + rest;
    if n >= 0x80 {
      var k := t[0] - 0x80;
      if n <= 0xFF {
        assert t[1..2] == [n];
        TwoOctets(0, n);
      } else {
        assert t[1..3] == [n / 256 % 256, n % 256];
        TwoOctets(n / 256 % 256, n % 256);
      }
    }
  }

  /** What was written is read back, whatever follows it. */
  lemma ReadWritten(tag: Byte, content: seq<Byte>, rest: seq<Byte>)
    requires |content| < 0x1_0000
    ensures
      var t := Tlv(tag, content) + rest;
      var h := ReadTag(t, tag);
      && h == Header(1 + |LenOctets(|content|)|, |content|)
      && t[h.used..h.used + h.len] == content
      && t[h.used + h.len..] == rest
  {
    hide ReadLen, LenOctets;
    var t := Tlv(tag, content) + rest;
    ReadLenWritten(|content|, content + rest);
    assert t[1..] == LenOctets(|content|) + (content + rest);
  }

  datatype Parsed = Parsed(r: nat, s: nat, used: nat) | Failed(error: Error)

  function ReadInteger(t: seq<Byte>): Header {
    ReadTag(t, INTEGER)
  }

  /** The two numbers inside, used being what comes before them. */
  function ReadIntegers(u: seq<Byte>, used: nat): Parsed {
    ReadInside(u, INTEGER);
    match ReadInteger(u)
    case Bad(e) => Failed(e)
    case Header(n, k) =>
      var w := u[n + k..];
      ReadInside(w, INTEGER);
      match ReadInteger(w)
      case Bad(e) => Failed(e)
      case Header(n2, k2) =>
        if n2 + k2 != |w| then Failed(SigLenMismatch)
        else Parsed(BytesNat(u[n..n + k]), BytesNat(w[n2..n2 + k2]), used + n + k + n2 + k2)
  }

  /** The parsing part of ecdsa_read_signature: both numbers and how far it got. */
  function ReadSignature(t: seq<Byte>): Parsed {
    ReadInside(t, SEQUENCE);
    match ReadTag(t, SEQUENCE)
    case Bad(e) => Failed(e)
    case Header(used, len) =>
      if used + len != |t| then Failed(LengthMismatch) else ReadIntegers(t[used..], used)
  }

  /** A header that the reader accepts is one of section 8.1.3. */
  lemma ReadLenIs(t: seq<Byte>, u: nat, n: nat)
    ensures ReadLen(t) == Header(u, n) <==> u + n <= |t| && IsLength(t[..u], n)
  {
    if t != [] && t[0] >= 0x80 {
      if 1 <= u <= |t| {
        assert t[..u][1..] == t[1..u];
      }
    }
  }

  lemma ReadTagIs(t: seq<Byte>, tag: Byte, o: seq<Byte>, c: seq<Byte>, rest: seq<Byte>)
    requires IsLength(o, |c|) && t == [tag] + o + c + rest
    ensures ReadTag(t, tag) == Header(1 + |o|, |c|)
    ensures t[1 + |o|..1 + |o| + |c|] == c && t[1 + |o| + |c|..] == rest
  {
    assert t[1..] == o + c + rest && t[1..][..|o|] == o;
    ReadLenIs(t[1..], |o|, |c|);
  }

  lemma TagReadIs(t: seq<Byte>, tag: Byte, u: nat, n: nat)
    requires ReadTag(t, tag) == Header(u, n)
    ensures 1 <= u && u + n <= |t| && IsLength(t[1..u], n) && t[..u] == [tag] + t[1..u]
  {
    hide BytesNat;
    ReadLenIs(t[1..], u - 1, n);
    assert t[1..][..u - 1] == t[1..u];
    assert t[..u] == [t[0]] + t[1..u];
  }

  /** The reader accepts exactly what denotes two numbers, and those are the numbers. */
  lemma ReadDenoted(t: seq<Byte>, l: Layout, r: nat, s: nat)
    requires Denotes(t, l, r, s)
    ensures ReadSignature(t) == Parsed(r, s, |t|)
  {
    var u := l.Inner();
    hide IsLength, ReadTag, BytesNat, Layout.Inner;
    assert t == [SEQUENCE] + l.o + u + [];
    ReadTagIs(t, SEQUENCE, l.o, u, []);
    ReadInner(l, r, s, 1 + |l.o|);
    assert t[1 + |l.o|..] == u;
  }

  lemma ReadInner(l: Layout, r: nat, s: nat, used: nat)
    requires IsLength(l.o1, |l.c1|) && IsLength(l.o2, |l.c2|) && BytesNat(l.c1) == r && BytesNat(l.c2) == s
    ensures ReadIntegers(l.Inner(), used) == Parsed(r, s, used + |l.Inner()|)
  {
    hide IsLength, ReadTag, BytesNat;
    var w := [INTEGER] + l.o2 + l.c2;
    assert w == [INTEGER] + l.o2 + l.c2 + [];
    ReadTagIs(l.Inner(), INTEGER, l.o1, l.c1, w);
    ReadTagIs(w, INTEGER, l.o2, l.c2, []);
  }

  lemma DenotedRead(t: seq<Byte>) returns (l: Layout)
    requires ReadSignature(t).Parsed?
    ensures Denotes(t, l, ReadSignature(t).r, ReadSignature(t).s) && ReadSignature(t).used == |t|
  {
    hide IsLength, ReadTag, BytesNat, ReadIntegers;
    var h := ReadTag(t, SEQUENCE);
    TagReadIs(t, SEQUENCE, h.used, h.len);
    l := InnerRead(t[h.used..], h.used);
    l := l.(o := t[1..h.used]);
    assert t[h.used..] == l.Inner();
    hide Layout.Inner;
    assert t == t[..h.used] + l.Inner();
  }

  lemma InnerRead(u: seq<Byte>, used: nat) returns (l: Layout)
    requires ReadIntegers(u, used).Parsed?
    ensures u == l.Inner() && IsLength(l.o1, |l.c1|) && IsLength(l.o2, |l.c2|)
    ensures ReadIntegers(u, used) == Parsed(BytesNat(l.c1), BytesNat(l.c2), used + |u|)
  {
    hide IsLength, ReadTag, BytesNat;
    var h1 := ReadTag(u, INTEGER);
    TagReadIs(u, INTEGER, h1.used, h1.len);
    var w := u[h1.used + h1.len..];
    var h2 := ReadTag(w, INTEGER);
    TagReadIs(w, INTEGER, h2.used, h2.len);
    l := Layout([], u[1..h1.used], u[h1.used..h1.used + h1.len], w[1..h2.used], w[h2.used..h2.used + h2.len]);
    assert w == [INTEGER] + l.o2 + l.c2;
    assert u == u[..h1.used] + l.c1 + w;
  }

  /** Reading a signature that was written gives the two magnitudes and consumes every byte. */
  lemma SignatureRoundTrip(r: Signed, s: Signed, beyond: Byte)
    requires |Signature(r, s, beyond)| < 0x1_0000
    ensures ReadSignature(Signature(r, s, beyond)) == Parsed(r.v, s.v, |Signature(r, s, beyond)|)
  {
    hide Integers, LenOctets, ReadTag, ReadIntegers;
    var t, u := Signature(r, s, beyond), Integers(r, s, beyond);
    assert t + [] == t;
    ReadWritten(SEQUENCE, u, []);
    var h := ReadTag(t, SEQUENCE);
    assert t[h.used..] == u;
    IntegersRoundTrip(r, s, beyond, h.used);
  }

  lemma IntegersRoundTrip(r: Signed, s: Signed, beyond: Byte, used: nat)
    requires |Integers(r, s, beyond)| < 0x1_0000
    ensures ReadIntegers(Integers(r, s, beyond), used) == Parsed(r.v, s.v, used + |Integers(r, s, beyond)|)
  {
    hide BytesNat, Content, LenOctets, ReadTag;
    var f := DerInteger(s.neg, s.v, beyond);
    assert f + [] == f;
    ReadWritten(INTEGER, Content(r.neg, r.v, INTEGER), f);
    ReadWritten(INTEGER, Content(s.neg, s.v, beyond), []);
    ContentValue(r.neg, r.v, INTEGER);
    ContentValue(s.neg, s.v, beyond);
  }

  /** asn1_get_len: p moves over the length octets; end is the end of s. */
  method GetLen(s: seq<Byte>, p: nat) returns (err: Error, next: nat, len: nat)
    requires p <= |s|
    ensures err == None ==> p < next && next + len <= |s|
    ensures ReadLen(s[p..]) == if err == None then Header(next - p, len) else Bad(err)
  {
    ReadInside(s[p..], 0);
    next, len := p, 0;
    if |s| - p < 1 {
      return OutOfData, next, len;
    }
    ghost var t := s[p..];
    assert t[0] == s[p];
    if s[p] < 0x80 {
      len, next := s[p], p + 1;
    } else {
      var k := s[p] - 0x80;
      if k == 0 || k > 4 {
        return InvalidLength, next, len;
      }
      if |s| - p < k + 1 {
        return OutOfData, next, len;
      }
      OctetsAre(t, k);
      assert t[1] == s[p + 1] && (k > 1 ==> t[2] == s[p + 2]) && (k > 2 ==> t[3] == s[p + 3]) && (k > 3 ==> t[4] == s[p + 4]);
      hide BytesNat;
      match k {
        case 1 => len := s[p + 1];
        case 2 => len := (s[p + 1] as int) * 0x100 + s[p + 2];
        case 3 => len := (s[p + 1] as int) * 0x1_0000 + (s[p + 2] as int) * 0x100 + s[p + 3];
        case _ =>
          len := (s[p + 1] as int) * 0x100_0000 + (s[p + 2] as int) * 0x1_0000 + (s[p + 3] as int) * 0x100 + s[p + 4];
      }
      next := p + k + 1;
      assert len == BytesNat(t[1..k + 1]);
    }
    if len > |s| - next {
      return OutOfData, next, len;
    }
    err := None;
  }

  lemma OctetsAre(t: seq<Byte>, k: nat)
    requires 1 <= k <= 4 && k < |t|
    ensures BytesNat(t[1..k + 1]) ==
      match k
      case 1 => t[1]
      case 2 => (t[1] as int) * 0x100 + t[2]
      case 3 => (t[1] as int) * 0x1_0000 + (t[2] as int) * 0x100 + t[3]
      case _ => (t[1] as int) * 0x100_0000 + (t[2] as int) * 0x1_0000 + (t[3] as int) * 0x100 + t[4]
  {
    OctetsNext(t, 1);
    assert BytesNat(t[1..1]) == 0;
    hide BytesNat;
    if k > 1 {
      OctetsNext(t, 2);
    }
    if k > 2 {
      OctetsNext(t, 3);
    }
    if k > 3 {
      OctetsNext(t, 4);
    }
  }

  lemma OctetsNext(t: seq<Byte>, k: nat)
    requires 1 <= k < |t|
    ensures BytesNat(t[1..k + 1]) == BytesNat(t[1..k]) * 256 + t[k]
  {
    assert t[1..k + 1][..k - 1] == t[1..k];
  }

  /** asn1_get_tag. */
  method GetTag(s: seq<Byte>, p: nat, tag: Byte) returns (err: Error, next: nat, len: nat)
    requires p <= |s|
    ensures err == None ==> p < next && next + len <= |s|
    ensures ReadTag(s[p..], tag) == if err == None then Header(next - p, len) else Bad(err)
  {
    if |s| - p < 1 {
      return OutOfData, p, 0;
    }
    if s[p] != tag {
      return UnexpectedTag, p, 0;
    }
    assert s[p..][1..] == s[p + 1..];
    hide ReadLen;
    err, next, len := GetLen(s, p + 1);
  }

  /** asn1_get_mpi. */
  method GetMpi(s: seq<Byte>, p: nat, X: Mpi) returns (err: Error, next: nat, ghost h: Header)
    requires p <= |s|
    modifies X
    ensures h == ReadInteger(s[p..]) && (err == None <==> h.Header?) && (err != None ==> h == Bad(err))
    ensures err == None ==> p < next == p + h.used + h.len <= |s|
    ensures err == None ==> X.s == 1 && |X.p| >= 1 && Nat(X.p) == BytesNat(s[p..][h.used..h.used + h.len])
    ensures err != None ==> X.s == old(X.s) && X.p == old(X.p)
  {
    hide ReadTag, BytesNat, Nat;
    h := ReadInteger(s[p..]);
    var len;
    err, next, len := GetTag(s, p, INTEGER);
    if err == None {
      assert s[p..][h.used..h.used + h.len] == s[next..next + len];
      ReadBinary(X, s[next..next + len]);
      next := next + len;
    }
  }

  /** The parsing part of ecdsa_read_signature. */
  method ReadSignatureInto(sig: seq<Byte>, R: Mpi, S: Mpi) returns (err: Error)
    requires R != S
    modifies R, S
    ensures err != None ==> ReadSignature(sig) == Failed(err)
    ensures err == None ==>
      && ReadSignature(sig) == Parsed(Nat(R.p), Nat(S.p), |sig|)
      && R.s == 1 && S.s == 1 && |R.p| >= 1 && |S.p| >= 1
    ensures err == None ==> exists l :: Denotes(sig, l, Nat(R.p), Nat(S.p))
    ensures err != None ==> forall l, r, s :: !Denotes(sig, l, r, s)
  {
    hide Nat, Denotes, ReadSignature;
    err := ReadBoth(sig, R, S);
    if err == None {
      ghost var l := DenotedRead(sig);
    } else {
      forall l, r, s ensures !Denotes(sig, l, r, s) {
        if Denotes(sig, l, r, s) {
          ReadDenoted(sig, l, r, s);
        }
      }
    }
  }

  method ReadBoth(sig: seq<Byte>, R: Mpi, S: Mpi) returns (err: Error)
    requires R != S
    modifies R, S
    ensures err != None ==> ReadSignature(sig) == Failed(err)
    ensures err == None ==>
      && ReadSignature(sig) == Parsed(Nat(R.p), Nat(S.p), |sig|)
      && R.s == 1 && S.s == 1 && |R.p| >= 1 && |S.p| >= 1
  {
    hide ReadTag, BytesNat, Nat;
    assert sig[0..] == sig;
    var p, len;
    err, p, len := GetTag(sig, 0, SEQUENCE);
    if err != None {
      return;
    }
    if p + len != |sig| {
      return LengthMismatch;
    }
    ghost var u, w := sig[p..], [];
    ghost var h, h2;
    err, p, h := GetMpi(sig, p, R);
    if err != None {
      return;
    }
    w := sig[p..];
    assert u[h.used + h.len..] == w;
    err, p, h2 := GetMpi(sig, p, S);
    if err != None {
      return;
    }
    if p != |sig| {
      return SigLenMismatch;
    }
  }
}
