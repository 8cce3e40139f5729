/** Bytes, blocks, and a block cipher taken as an arbitrary keyed permutation. */
module BlockCipher {
  type byte = bv8

  const BLOCK := 16

  type Block = b: seq<byte> | |b| == BLOCK witness seq(BLOCK, i => 0)

  lemma ByteIncrement(x: byte)
    ensures x + 1 != 0 ==> (x + 1) as nat == x as nat + 1
    ensures x + 1 == 0 <==> x as nat == 255
    ensures x as nat < 256
  {
  }

  /** The byte of value n. */
  function ByteOf(n: nat): (x: byte)
    requires n < 256
    ensures x as nat == n
  {
    if n == 0 then 0 else
      ByteIncrement(ByteOf(n - 1));
      ByteOf(n - 1) + 1
  }

  /** Both directions of a block cipher under one key. */
  datatype Perm = Perm(enc: Block -> Block, dec: Block -> Block)

  ghost predicate Inverse(c: Perm) {
    forall b: Block :: c.dec(c.enc(b)) == b
  }

  function Xor(a: seq<byte>, b: seq<byte>): (r: seq<byte>)
    requires |a| <= |b|
    ensures |r| == |a|
    ensures forall i :: 0 <= i < |a| ==> r[i] == a[i] ^ b[i]
  {
    seq(|a|, i requires 0 <= i < |a| => a[i] ^ b[i])
  }

  lemma XorByte(x: byte, y: byte)
    ensures (x ^ y) ^ y == x
    ensures x ^ y == y ^ x
  {
  }

  lemma XorTwice(a: seq<byte>, b: seq<byte>)
    requires |a| <= |b|
    ensures Xor(Xor(a, b), b) == a
  {
    forall i | 0 <= i < |a| ensures Xor(Xor(a, b), b)[i] == a[i] {
      XorByte(a[i], b[i]);
    }
  }

  /** buf with r written over it from off on. */
  function Spliced(buf: seq<byte>, off: nat, r: seq<byte>): (t: seq<byte>)
    requires off + |r| <= |buf|
    ensures |t| == |buf|
    ensures t[off..off + |r|] == r
    ensures t[..off] == buf[..off] && t[off + |r|..] == buf[off + |r|..]
  {
    buf[..off] + r + buf[off + |r|..]
  }

  lemma SplicedWhole(a: seq<byte>, b: seq<byte>)
    requires |a| == |b|
    ensures Spliced(a, 0, b) == b
  {
  }

  lemma SplicedTwice(buf: seq<byte>, off: nat, r: seq<byte>, t: seq<byte>)
    requires off + |r| + |t| <= |buf|
    ensures Spliced(Spliced(buf, off, r), off + |r|, t) == Spliced(buf, off, r + t)
  {
  }

  /** A second write to the same place leaves nothing of the first. */
  lemma SplicedOver(buf: seq<byte>, off: nat, r: seq<byte>, t: seq<byte>)
    requires off + |r| <= |buf| && |r| == |t|
    ensures Spliced(Spliced(buf, off, r), off, t) == Spliced(buf, off, t)
  {
  }

  lemma SplicedBy(buf: seq<byte>, off: nat, r: seq<byte>, t: seq<byte>)
    requires off + |r| <= |buf| == |t|
    requires forall j :: 0 <= j < |r| ==> t[off + j] == r[j]
    requires forall j :: 0 <= j < |buf| && !(off <= j < off + |r|) ==> t[j] == buf[j]
    ensures t == Spliced(buf, off, r)
  {
    forall j | 0 <= j < |buf| ensures t[j] == Spliced(buf, off, r)[j] {
      if off <= j < off + |r| {
        assert t[off + (j - off)] == r[j - off];
      }
    }
  }

  /** s stands in all at off. */
  predicate Holds(all: seq<byte>, off: nat, s: seq<byte>) {
    off + |s| <= |all| && all[off..off + |s|] == s
  }

  predicate SameFrom(a: seq<byte>, b: seq<byte>, k: nat)
  {
    k <= |a| == |b| && a[k..] == b[k..]
  }

  lemma SameFromOn(a: seq<byte>, b: seq<byte>, k: nat, m: nat)
    requires SameFrom(a, b, k) && k + m <= |a|
    ensures a[k..k + m] == b[k..k + m]
    ensures SameFrom(a, b, k + m)
  {
    assert a[k..k + m] == a[k..][..m] && b[k..k + m] == b[k..][..m];
    assert a[k + m..] == a[k..][m..] && b[k + m..] == b[k..][m..];
  }

  lemma SameFromTrans(a: seq<byte>, b: seq<byte>, d: seq<byte>, k: nat)
    requires SameFrom(a, b, k) && SameFrom(b, d, k)
    ensures SameFrom(a, d, k)
  {
  }

  lemma SplicedTail(buf: seq<byte>, off: nat, r: seq<byte>)
    requires off + |r| <= |buf|
    ensures SameFrom(Spliced(buf, off, r), buf, off + |r|)
  {
  }

  lemma SliceOfSlice<T>(a: seq<T>, off: nat, length: nat, k: nat, m: nat)
    requires off + length <= |a| && k + m <= length
    ensures a[off..off + length][k..k + m] == a[off + k..off + k + m]
  {
    var l, r := a[off..off + length][k..k + m], a[off + k..off + k + m];
    forall i | 0 <= i < m ensures l[i] == r[i] {
      assert l[i] == a[off..off + length][k + i] == a[off + (k + i)];
    }
    assert l == r;
  }

  function Zeros(n: nat): (r: seq<byte>)
    ensures |r| == n
  {
    seq(n, i => 0)
  }

  /** memcpy of b to a + off. */
  method Put(a: array<byte>, off: nat, b: seq<byte>)
    requires off + |b| <= a.Length
    modifies a
    ensures a[..] == Spliced(old(a[..]), off, b)
  {
    ghost var before := a[..];
    forall k | 0 <= k < |b| {
      a[off + k] := b[k];
    }
    assert a[..] == Spliced(before, off, b);
  }

  /** A message put together from its pieces. */
  function Concat(pieces: seq<seq<byte>>): seq<byte> {
    if pieces == [] then [] else Concat(pieces[..|pieces| - 1]) + pieces[|pieces| - 1]
  }
}
