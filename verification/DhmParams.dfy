/** The ServerKeyExchange message (dhm.c: dhm_make_params, dhm_read_params) and a whole exchange over it. */
module DhmParams {
  import opened Arith
  import opened Limbs
  import opened Bignum
  import opened Bits
  import opened ExpMod
  import opened Binary
  import opened Draws
  import opened BlindPairs
  import opened Dhm

  // ---------- the message ----------

  /** A number preceded by its length in two bytes; a longer length is cut to sixteen bits. */
  function Vector(v: nat): (s: seq<Byte>)
    ensures |s| == 2 + ByteLen(v)
  {
    var n := ByteLen(v);
    [n / 256 % 256, n % 256] + BytesOf(v, n)
  }

  function Message(p: nat, g: nat, gx: nat): (s: seq<Byte>)
    ensures |s| == 6 + ByteLen(p) + ByteLen(g) + ByteLen(gx)
  {
    Vector(p) + Vector(g) + Vector(gx)
  }

  datatype Field = Malformed | Number(v: nat, next: nat)

  /** The vector that starts at byte p, and where it ends. */
  function FieldAt(buf: seq<Byte>, p: nat): (f: Field)
    requires p <= |buf|
    ensures f.Number? ==> p + 2 <= f.next <= |buf|
  {
    if |buf| - p < 2 then Malformed
    else
      var n := buf[p] as nat * 256 + buf[p + 1];
      if |buf| - (p + 2) < n then Malformed else Number(BytesNat(buf[p + 2..p + 2 + n]), p + 2 + n)
  }

  datatype Params = Broken | Read(p: nat, g: nat, gy: nat, next: nat)

  /** Three vectors, the last one a public value in range of the first. */
  function ParamsAt(buf: seq<Byte>, start: nat): (r: Params)
    requires start <= |buf|
    ensures r.Read? ==> start + 6 <= r.next <= |buf| && 2 <= r.gy <= r.p - 2
  {
    var f := FieldAt(buf, start);
    if f.Malformed? then Broken
    else
      var g := FieldAt(buf, f.next);
      if g.Malformed? then Broken
      else
        var h := FieldAt(buf, g.next);
        if h.Malformed? || h.v < 2 || f.v - 2 < h.v then Broken else Read(f.v, g.v, h.v, h.next)
  }

  /** A vector in the middle of a message is read back whole, and no byte more, exactly when its length fits two bytes. */
  lemma FieldRoundTrip(before: seq<Byte>, v: nat, after: seq<Byte>)
    ensures FieldAt(before + Vector(v) + after, |before|) == Number(v, |before| + |Vector(v)|) <==> ByteLen(v) < 0x1_0000
  {
    hide ByteLen, BytesNat, BytesOf;
    var n, p := ByteLen(v), |before|;
    var buf := before + Vector(v) + after;
    assert buf[p] == n / 256 % 256 && buf[p + 1] == n % 256;
    assert buf[p + 2..p + 2 + n] == BytesOf(v, n);
    ByteLenBounds(v);
    BytesOfNat(v, n);
  }

  /** Every number that an mpi can hold is read back whole. */
  lemma MpiSurvives(before: seq<Byte>, p: seq<Limb>, after: seq<Byte>)
    requires |p| <= MPI_MAX_LIMBS
    ensures ByteLen(Nat(p)) < 0x1_0000
    ensures FieldAt(before + Vector(Nat(p)) + after, |before|) == Number(Nat(p), |before| + |Vector(Nat(p))|)
  {
    hide Nat, ByteLen, FieldAt, Vector;
    LimbsCover(p);
    FieldRoundTrip(before, Nat(p), after);
  }

  /** What the server writes is what the client reads, whatever surrounds it. */
  lemma ParamsRoundTrip(before: seq<Byte>, p: nat, g: nat, gx: nat, after: seq<Byte>)
    requires ByteLen(p) < 0x1_0000 && ByteLen(g) < 0x1_0000 && 2 <= gx <= p - 2
    ensures ParamsAt(before + Message(p, g, gx) + after, |before|) == Read(p, g, gx, |before| + |Message(p, g, gx)|)
  {
    hide ByteLen, Vector, FieldAt;
    SecretFits(gx, p);
    var buf := before + Message(p, g, gx) + after;
    var u, v, w := Vector(p), Vector(g), Vector(gx);
    assert buf == before + u + (v + w + after) == (before + u) + v + (w + after) == (before + u + v) + w + after;
    FieldRoundTrip(before, p, v + w + after);
    FieldRoundTrip(before + u, g, w + after);
    FieldRoundTrip(before + u + v, gx, after);
  }

  /** At byte at stand the length in two bytes, high one first, and then so many bytes of the number v, up to next. */
  ghost predicate StandsAt(buf: seq<Byte>, at: nat, v: nat, next: nat) {
    && at + 2 <= next <= |buf|
    && buf[at] as int * 256 + buf[at + 1] == next - (at + 2)
    && BytesNat(buf[at + 2..next]) == v
  }

  /** The prime, then the generator, then the public value, from at to next. */
  ghost predicate IsMessage(buf: seq<Byte>, at: nat, p: nat, g: nat, gx: nat, next: nat) {
    exists a, b :: StandsAt(buf, at, p, a) && StandsAt(buf, a, g, b) && StandsAt(buf, b, gx, next)
  }

  lemma FieldIs(buf: seq<Byte>, at: nat, v: nat, next: nat)
    requires at <= |buf|
    ensures FieldAt(buf, at) == Number(v, next) <==> StandsAt(buf, at, v, next)
  {
    hide BytesNat;
  }

  /** What is written is such a message. */
  lemma MessageDefinition(p: nat, g: nat, gx: nat)
    requires ByteLen(p) < 0x1_0000 && ByteLen(g) < 0x1_0000 && ByteLen(gx) < 0x1_0000
    ensures IsMessage(Message(p, g, gx), 0, p, g, gx, |Message(p, g, gx)|)
  {
    hide ByteLen, Vector, FieldAt, StandsAt;
    var buf, u, v, w := Message(p, g, gx), Vector(p), Vector(g), Vector(gx);
    assert buf == [] + u + (v + w) == u + v + w == (u + v) + w + [];
    FieldRoundTrip([], p, v + w);
    FieldRoundTrip(u, g, w);
    FieldRoundTrip(u + v, gx, []);
    FieldIs(buf, 0, p, |u|);
    FieldIs(buf, |u|, g, |u + v|);
    FieldIs(buf, |u + v|, gx, |buf|);
  }

  /** And what is read is such a message with the public value in range, and nothing else is. */
  lemma ParamsDefinition(buf: seq<Byte>, at: nat, p: nat, g: nat, gx: nat, next: nat)
    requires at <= |buf|
    ensures ParamsAt(buf, at) == Read(p, g, gx, next) <==> IsMessage(buf, at, p, g, gx, next) && 2 <= gx <= p - 2
  {
    hide FieldAt, StandsAt;
    if ParamsAt(buf, at) == Read(p, g, gx, next) {
      var a := FieldAt(buf, at).next;
      var b := FieldAt(buf, a).next;
      FieldIs(buf, at, p, a);
      FieldIs(buf, a, g, b);
      FieldIs(buf, b, gx, next);
    }
    if IsMessage(buf, at, p, g, gx, next) {
      var a, b :| StandsAt(buf, at, p, a) && StandsAt(buf, a, g, b) && StandsAt(buf, b, gx, next);
      FieldIs(buf, at, p, a);
      StandsWithin(buf, at, p, a);
      FieldIs(buf, a, g, b);
      StandsWithin(buf, a, g, b);
      FieldIs(buf, b, gx, next);
    }
  }

  lemma StandsWithin(buf: seq<Byte>, at: nat, v: nat, next: nat)
    requires StandsAt(buf, at, v, next)
    ensures next <= |buf|
  {
  }

  /** The prime of a message is shorter than the message. */
  lemma ParamsFit(buf: seq<Byte>)
    ensures ParamsAt(buf, 0).Read? ==> 1 <= ByteLen(ParamsAt(buf, 0).p) <= |buf|
  {
    var f := FieldAt(buf, 0);
    if f.Number? {
      hide ByteLen, BytesNat;
      BytesBound(buf[2..f.next]);
      ByteLenAtMost(f.v, f.next - 2);
      ByteLenBounds(f.v);
    }
  }

  // ---------- writing ----------

  /** DHM_MPI_EXPORT: the number first, then its length in front of it; the cursor moves past both. */
  method Export(X: Mpi, output: array<Byte>, p: nat, ghost done: seq<Byte>) returns (r: Ret, p': nat)
    requires |X.p| >= 1 && p + 2 + ByteLen(Nat(X.p)) <= output.Length && output[..p] == done
    modifies output
    ensures r.Ok? && p' == p + 2 + ByteLen(Nat(X.p)) && output[..p'] == done + Vector(Nat(X.p))
  {
    hide Nat, ByteLen, BytesNat, BytesOf;
    var n := Binary.Size(X);
    r := WriteBinary(X, output, p + 2, n);
    ghost var number := output[p + 2..p + 2 + n];
    assert output[..p] == output[..p + 2][..p] == done;
    output[p] := n / 256 % 256;
    output[p + 1] := n % 256;
    p' := p + 2 + n;
    assert output[p + 2..p'] == number;
    assert output[..p'] == output[..p] + [output[p], output[p + 1]] + output[p + 2..p'];
    assert done + [n / 256 % 256, n % 256] + number == done + ([n / 256 % 256, n % 256] + number);
  }

  /** P, G and GX, one after the other. */
  method ExportAll(P: Mpi, G: Mpi, GX: Mpi, output: array<Byte>) returns (r: Ret, olen: nat)
    requires |P.p| >= 1 && |G.p| >= 1 && |GX.p| >= 1
    requires |Message(Nat(P.p), Nat(G.p), Nat(GX.p))| <= output.Length
    modifies output
    ensures r.Ok? && olen <= output.Length && output[..olen] == Message(Nat(P.p), Nat(G.p), Nat(GX.p))
  {
    hide Nat, ByteLen, Vector;
    olen := 0;
    r, olen := Export(P, output, olen, []);
    r, olen := Export(G, output, olen, [] + Vector(Nat(P.p)));
    r, olen := Export(GX, output, olen, [] + Vector(Nat(P.p)) + Vector(Nat(G.p)));
    assert [] + Vector(Nat(P.p)) == Vector(Nat(P.p));
  }

  /** Pick X, compute GX = G^X mod P and write the message. */
  method MakeParams(ctx: Context, xSize: nat, output: array<Byte>, rng: Rng) returns (r: Ret, olen: nat)
    requires ctx.Separate() && ctx.P.s == 1 && (Nat(ctx.P.p) > 0 ==> ctx.Formed()) && |ctx.G.p| >= 1
    requires 6 + 2 * ByteLen(Nat(ctx.P.p)) + ByteLen(Nat(ctx.G.p)) <= output.Length
    modifies ctx`len, ctx.X, ctx.GX, ctx.RP, rng, output
    ensures Nat(ctx.P.p) == 0 ==> r == Fail(BadInputData) && ctx.X.p == old(ctx.X.p) && ctx.GX.p == old(ctx.GX.p)
    ensures r.Ok? <==> Context.KeyExists(ctx.P.p, Nat(ctx.G.p), old(Nat(ctx.X.p)), old(rng.tape), xSize)
    ensures r.Fail? ==> ctx.len == old(ctx.len)
    ensures r.Ok? ==> ctx.Formed() && 2 <= Nat(ctx.X.p) <= Nat(ctx.P.p) - 2 && ctx.len == ByteLen(Nat(ctx.P.p))
    ensures r.Ok? ==> Nat(ctx.GX.p) == Power(Nat(ctx.G.p), Nat(ctx.X.p)) % Nat(ctx.P.p) && 2 <= Nat(ctx.GX.p) <= Nat(ctx.P.p) - 2
    ensures r.Ok? ==> olen <= output.Length && output[..olen] == Message(Nat(ctx.P.p), Nat(ctx.G.p), Nat(ctx.GX.p))
  {
    hide Nat, Len, Power, Message, ByteLen, RSquared, Context.KeyExists, PickFrom;
    olen := 0;
    r := ctx.MakeKey(xSize, rng);
    if r.Fail? { return; }
    NatPositive(ctx.P.p);
    SecretFits(Nat(ctx.GX.p), Nat(ctx.P.p));
    r, olen := ExportAll(ctx.P, ctx.G, ctx.GX, output);
    var n1 := Binary.Size(ctx.P);
    ctx.len := n1;
  }

  // ---------- reading ----------

  /** dhm_read_bignum: a vector that runs past the end is refused after its length is consumed. */
  method ReadBignum(X: Mpi, buf: seq<Byte>, p: nat) returns (r: Ret, p': nat)
    requires p <= |buf|
    modifies X
    ensures p <= p' <= |buf| && (r == Ok || r == Fail(BadInputData))
    ensures r.Ok? <==> FieldAt(buf, p).Number?
    ensures r.Ok? ==> X.s == 1 && |X.p| >= 1 && FieldAt(buf, p) == Number(Nat(X.p), p')
    ensures r.Fail? ==> X.p == old(X.p) && X.s == old(X.s) && p' == if |buf| - p < 2 then p else p + 2
  {
    hide Nat, BytesNat;
    p' := p;
    if |buf| - p' < 2 { return Fail(BadInputData), p'; }
    var n := buf[p'] as nat * 256 + buf[p' + 1];
    p' := p' + 2;
    if |buf| - p' < n { return Fail(BadInputData), p'; }
    ReadBinary(X, buf[p'..p' + n]);
    p' := p' + n;
    return Ok, p';
  }

  /** Accepts exactly the well-formed messages and leaves the three numbers in the context. */
  method ReadParams(ctx: Context, buf: seq<Byte>, p: nat) returns (r: Ret, p': nat)
    requires ctx.Separate() && p <= |buf|
    modifies ctx`len, ctx.P, ctx.G, ctx.GY
    ensures p' <= |buf| && (r == Ok || r == Fail(BadInputData))
    ensures r.Ok? <==> ParamsAt(buf, p).Read?
    ensures r.Ok? ==> ParamsAt(buf, p) == Read(Nat(ctx.P.p), Nat(ctx.G.p), Nat(ctx.GY.p), p')
    ensures r.Ok? ==> ctx.P.s == 1 && ctx.G.s == 1 && ctx.GY.s == 1 && |ctx.G.p| >= 1 && ctx.len == ByteLen(Nat(ctx.P.p))
    ensures r.Fail? ==> ctx.len == old(ctx.len)
    ensures r.Ok? && old(ctx.Formed()) ==> (ctx.Formed() <==> |ctx.RP.p| == 0 || Nat(ctx.RP.p) == RSquared(ctx.P.p))
  {
    hide Nat, ByteLen, FieldAt, RSquared;
    p' := p;
    r, p' := ReadBignum(ctx.P, buf, p');
    if r.Fail? { return; }
    r, p' := ReadBignum(ctx.G, buf, p');
    if r.Fail? { return; }
    r, p' := ReadBignum(ctx.GY, buf, p');
    if r.Fail? { return; }
    var ok := CheckRange(ctx.GY, ctx.P);
    if !ok { return Fail(BadInputData), p'; }
    ctx.len := Binary.Size(ctx.P);
    return Ok, p';
  }

  /** The cache of one prime is not that of another: reading P = 11 into a context used with P = 7 leaves it unfit. */
  lemma StaleCache()
    ensures RSquared([7]) == 2 && RSquared([11]) == 5
  {
    assert Nat([7]) == 7 by { NatOne(7); }
    assert Nat([11]) == 11 by { NatOne(11); }
    assert Pow(1) == BASE * Pow(0) == BASE;
  }

  // ---------- the exchange ----------

  /** A context whose private value has been picked for the group (p, g), before its first secret. */
  ghost predicate KeyReady(c: Context, p: nat, g: nat)
    reads c, c.P, c.G, c.X, c.GX, c.GY, c.K, c.RP, c.Vi, c.Vf, c.pX
  {
    c.Formed() && c.Matched() && Nat(c.P.p) == p && Nat(c.G.p) == g && c.len == ByteLen(p)
    && 2 <= Nat(c.X.p) <= p - 2 && Nat(c.GX.p) == Power(g, Nat(c.X.p)) % p && 2 <= Nat(c.GX.p) <= p - 2
  }

  /** The server's half: pick a key and write the message that carries it. */
  method Offer(server: Context, xSize: nat, rng: Rng) returns (r: Ret, message: seq<Byte>)
    requires server.Formed() && server.Matched() && |server.G.p| >= 1
    requires |server.P.p| <= MPI_MAX_LIMBS && |server.G.p| <= MPI_MAX_LIMBS
    modifies server`len, server.X, server.GX, server.RP, rng
    ensures r.Ok? ==> KeyReady(server, Nat(server.P.p), Nat(server.G.p))
    ensures r.Ok? ==> ParamsAt(message, 0) == Read(Nat(server.P.p), Nat(server.G.p), Nat(server.GX.p), |message|)
  {
    hide Nat, Len, Power, Message, ByteLen, RSquared, Blinding, ParamsAt, FieldAt, Vector;
    message := [];
    NatPositive(server.P.p);
    MpiSurvives([], server.P.p, []);
    MpiSurvives([], server.G.p, []);
    var n1 := Binary.Size(server.P);
    var n2 := Binary.Size(server.G);
    var output := new Byte[6 + 2 * n1 + n2];
    var olen;
    r, olen := MakeParams(server, xSize, output, rng);
    if r.Fail? { return; }
    message := output[..olen];
    ParamsRoundTrip([], Nat(server.P.p), Nat(server.G.p), Nat(server.GX.p), []);
    assert [] + message + [] == message;
  }

  /** The client's half: read the server's message into a fresh context, pick a key, answer with the public value. */
  method Answer(message: seq<Byte>, xSize: nat, rng: Rng) returns (r: Ret, client: Context, reply: seq<Byte>)
    modifies rng
    ensures fresh({client, client.P, client.G, client.X, client.GX, client.GY, client.K, client.RP, client.Vi, client.Vf, client.pX})
    ensures r.Ok? ==> ParamsAt(message, 0).Read? && ParamsAt(message, 0).gy == Nat(client.GY.p)
    ensures r.Ok? ==> KeyReady(client, ParamsAt(message, 0).p, ParamsAt(message, 0).g)
    ensures r.Ok? ==> 1 <= |reply| == client.len && BytesNat(reply) == Nat(client.GX.p)
  {
    hide Nat, Len, Power, ParamsAt, ByteLen, BytesNat, BytesOf, RSquared, Blinding;
    reply := [];
    ParamsFit(message);
    client := new Context();
    NatEmpty(client.pX.p);
    var next;
    r, next := ReadParams(client, message, 0);
    if r.Fail? { return; }
    var output := new Byte[client.len];
    r := client.MakePublic(xSize, output, client.len, rng);
    reply := output[..client.len];
  }

  /** dhm_read_public on a context whose key is picked. */
  method Hear(c: Context, input: seq<Byte>, ghost p: nat, ghost g: nat) returns (r: Ret)
    requires KeyReady(c, p, g)
    modifies c.GY
    ensures KeyReady(c, p, g) && Nat(c.X.p) == old(Nat(c.X.p))
    ensures r.Ok? ==> Nat(c.GY.p) == BytesNat(input)
  {
    hide Nat, Len, Power, ByteLen, BytesNat, RSquared, Blinding;
    r := c.ReadPublic(input);
  }

  /** Both contexts have a key for the group, and each holds the public value of the other. */
  ghost predicate Met(a: Context, b: Context, p: nat, g: nat)
    reads a, a.P, a.G, a.X, a.GX, a.GY, a.K, a.RP, a.Vi, a.Vf, a.pX, b, b.P, b.G, b.X, b.GX, b.GY, b.K, b.RP, b.Vi, b.Vf, b.pX
  {
    KeyReady(a, p, g) && KeyReady(b, p, g) && p > 0
    && Nat(a.GY.p) == Power(g, Nat(b.X.p)) % p && Nat(b.GY.p) == Power(g, Nat(a.X.p)) % p
  }

  lemma PublicValue(c: Context, p: nat, g: nat)
    requires KeyReady(c, p, g)
    ensures p > 0 && Nat(c.GX.p) == Power(g, Nat(c.X.p)) % p
  {
  }

  /** The two messages of the exchange. */
  method Meet(server: Context, xs: nat, xc: nat, rs: Rng, rc: Rng) returns (r: Ret, client: Context)
    requires server.Formed() && server.Matched() && |server.G.p| >= 1
    requires |server.P.p| <= MPI_MAX_LIMBS && |server.G.p| <= MPI_MAX_LIMBS
    modifies server`len, server.X, server.GX, server.GY, server.RP, rs, rc
    ensures fresh({client, client.P, client.G, client.X, client.GX, client.GY, client.K, client.RP, client.Vi, client.Vf, client.pX})
    ensures r.Ok? ==> Met(server, client, Nat(server.P.p), Nat(server.G.p))
  {
    ghost var p, g := Nat(server.P.p), Nat(server.G.p);
    assert server.Separate();
    assert server.G != server.GY && server.P != server.GY && server.X != server.GY;
    hide Nat, Len, Power, ByteLen, BytesNat, ParamsAt, KeyReady, Context.Formed, Context.Matched, Context.Separate;
    var message, reply;
    r, message := Offer(server, xs, rs);
    if r.Fail? { client := new Context(); return; }
    PublicValue(server, p, g);
    r, client, reply := Answer(message, xc, rc);
    if r.Fail? { return; }
    PublicValue(client, p, g);
    r := Hear(server, reply, p, g);
  }

  /** One side's secret, in the peer's and the own private value. */
  method Secret(c: Context, rng: Rng, ghost p: nat, ghost g: nat, ghost peer: nat) returns (r: Ret, secret: seq<Byte>)
    requires KeyReady(c, p, g) && Nat(c.GY.p) == Power(g, peer) % p
    modifies c.pX, c.Vi, c.Vf, c.RP, c.K, rng
    ensures r.Ok? ==> secret == BytesOf(Nat(c.K.p), ByteLen(Nat(c.K.p)))
    ensures r.Ok? ==> Nat(c.K.p) == Power(Power(g, Nat(c.X.p)) % p, peer) % p == Power(Nat(c.GY.p), Nat(c.X.p)) % p
  {
    hide Nat, Len, Power, ByteLen, BytesNat, BytesOf, RSquared, Blinding;
    var output := new Byte[c.len];
    var n;
    r, n := c.CalcSecret(output, c.len, rng);
    secret := if r.Ok? then output[..n] else [];
    SharedSecret(g, Nat(c.X.p), peer, p);
  }

  /** Whenever no step fails, server and client end with the same bytes: the number (g^xc)^xs mod p. */
  method Exchange(server: Context, xs: nat, xc: nat, rs: Rng, rc: Rng)
    returns (r: Ret, client: Context, ours: seq<Byte>, theirs: seq<Byte>)
    requires server.Formed() && server.Matched() && |server.G.p| >= 1
    requires |server.P.p| <= MPI_MAX_LIMBS && |server.G.p| <= MPI_MAX_LIMBS
    modifies server`len, server.X, server.GX, server.GY, server.K, server.RP, server.Vi, server.Vf, server.pX, rs, rc
    ensures r.Ok? ==> ours == theirs && Nat(server.P.p) > 0
    ensures r.Ok? ==> ours == SecretOf(Nat(server.G.p), Nat(client.X.p), Nat(server.X.p), Nat(server.P.p))
  {
    ghost var p, g := Nat(server.P.p), Nat(server.G.p);
    assert {server.P, server.G} !! {server.X, server.GX, server.GY, server.K, server.RP, server.Vi, server.Vf, server.pX};
    assert server.X !in {server.K, server.RP, server.Vi, server.Vf, server.pX};
    hide Nat, Len, Power, ByteLen, BytesNat, BytesOf, KeyReady, Context.Formed, Context.Matched, Context.Separate;
    ours, theirs := [], [];
    r, client := Meet(server, xs, xc, rs, rc);
    if r.Fail? { return; }
    ghost var xServer, xClient := Nat(server.X.p), Nat(client.X.p);
    r, ours := Secret(server, rs, p, g, xClient);
    if r.Fail? { return; }
    r, theirs := Secret(client, rc, p, g, xServer);
  }

  /** (g^x)^y mod p in as many bytes as it needs. */
  function SecretOf(g: nat, x: nat, y: nat, p: nat): (s: seq<Byte>)
    requires p > 0
  {
    var v := Power(Power(g, x) % p, y) % p;
    BytesOf(v, ByteLen(v))
  }
}
