/** Merkle-Damgard hashing over an unspecified compression function (section 6 of FIPS 180-4;
    MD5 has the same shape) and HMAC over it (section 2 of RFC 2104). */
module HashFunction {
  import opened Arithmetic
  import opened BlockEngine

  const STATE: nat := 32

  /** Initial value, compression of a state with a block, encoding of a message length in
      eight bytes, and the number of state bytes that make up the digest. */
  datatype Hash = Hash(init: Bytes, compress: (Bytes, Bytes) -> Bytes, encode: nat -> Bytes, out: nat)

  ghost predicate Sane(h: Hash) {
    && |h.init| == STATE && h.out <= STATE
    && (forall v: Bytes, b: Bytes {:trigger h.compress(v, b)} | |v| == STATE && |b| == 64 ::
          |h.compress(v, b)| == STATE)
    && (forall n: nat {:trigger h.encode(n)} :: |h.encode(n)| == 8)
  }

  /** The state after the whole blocks of `m`. */
  function Fold(h: Hash, v: Bytes, m: Bytes): (w: Bytes)
    requires Sane(h) && |v| == STATE
    ensures |w| == STATE
    decreases |m|
  {
    if |m| < 64 then v else Fold(h, h.compress(v, m[..64]), m[64..])
  }

  /** What is appended to a message of `n` bytes: a one bit, zeros up to eight bytes before
      the end of a block, and the length. */
  function Padding(h: Hash, n: nat): (p: Bytes)
    requires Sane(h)
    ensures (n + |p|) % 64 == 0
  {
    FillLength(n);
    [0x80] + Zeros((119 - n % 64) % 64) + h.encode(n)
  }

  lemma FillLength(n: nat)
    ensures (n + 1 + (119 - n % 64) % 64 + 8) % 64 == 0
  {
    var r := n % 64;
    var z := (119 - r) % 64;
    assert r <= 55 ==> z == 55 - r;
    assert r > 55 ==> z == 119 - r;
    assert n == 64 * (n / 64) + r;
  }

  function Digest(h: Hash, m: Bytes): (d: Bytes)
    requires Sane(h)
    ensures |d| == h.out
  {
    Fold(h, h.init, m + Padding(h, |m|))[..h.out]
  }

  function XorWith(k: Bytes, pad: bv8): (r: Bytes)
    ensures |r| == |k| && forall i | 0 <= i < |k| :: r[i] == k[i] ^ pad
  {
    seq(|k|, i requires 0 <= i < |k| => k[i] ^ pad)
  }

  const IPAD: bv8 := 0x36
  const OPAD: bv8 := 0x5c

  /** HMAC of a key of one block. */
  function Hmac(h: Hash, key: Bytes, text: Bytes): Bytes
    requires Sane(h) && |key| == 64
  {
    Digest(h, XorWith(key, OPAD) + Digest(h, XorWith(key, IPAD) + text))
  }

  lemma {:induction false} FoldAppend(h: Hash, v: Bytes, a: Bytes, c: Bytes)
    requires Sane(h) && |v| == STATE && |a| % 64 == 0
    ensures Fold(h, v, a + c) == Fold(h, Fold(h, v, a), c)
    decreases |a|
  {
    if a == [] {
      assert a + c == c;
    } else {
      MultipleAtLeast(|a|, 64);
      ModMinus(|a|, 64);
      FoldAppend(h, h.compress(v, a[..64]), a[64..], c);
      assert (a + c)[..64] == a[..64] && (a + c)[64..] == a[64..] + c;
    }
  }

  lemma FoldBlock(h: Hash, v: Bytes, b: Bytes, m: Bytes, p: Bytes)
    requires Sane(h) && |v| == STATE && |b| == 64
    ensures |h.compress(v, b)| == STATE
    ensures Fold(h, v, (b + m) + p) == Fold(h, h.compress(v, b), m + p)
  {
    var whole := (b + m) + p;
    assert whole[..64] == b && whole[64..] == m + p;
  }

  /** A digest may be continued from the state after a first block: the reason why a key can
      be processed in advance. */
  lemma DigestFrom(h: Hash, b: Bytes, m: Bytes)
    requires Sane(h) && |b| == 64
    ensures |h.compress(h.init, b)| == STATE
    ensures Digest(h, b + m) == Fold(h, h.compress(h.init, b), m + Padding(h, 64 + |m|))[..h.out]
  {
    FoldBlock(h, h.init, b, m, Padding(h, 64 + |m|));
  }

  /** HMAC from the two states that a processed key consists of. */
  lemma HmacFromStates(h: Hash, key: Bytes, text: Bytes)
    requires Sane(h) && |key| == 64
    ensures var i, o := h.compress(h.init, XorWith(key, IPAD)), h.compress(h.init, XorWith(key, OPAD));
            && |i| == |o| == STATE
            && Hmac(h, key, text) ==
               Fold(h, o, Fold(h, i, text + Padding(h, 64 + |text|))[..h.out] + Padding(h, 64 + h.out))[..h.out]
  {
    DigestFrom(h, XorWith(key, IPAD), text);
    DigestFrom(h, XorWith(key, OPAD), Digest(h, XorWith(key, IPAD) + text));
  }

  // ---- the standards' own terms

  /** What section 5.1.1 of FIPS 180-4 appends to a message of `n` bytes: the byte 0x80, zero bytes
      and the encoded length, up to the next end of a block. */
  ghost predicate IsPadding(h: Hash, n: nat, p: Bytes) {
    && 9 <= |p| <= 72 && (n + |p|) % 64 == 0
    && p[0] == 0x80 && (forall i | 1 <= i < |p| - 8 :: p[i] == 0) && p[|p| - 8..] == h.encode(n)
  }

  lemma PaddingIs(h: Hash, n: nat)
    requires Sane(h)
    ensures IsPadding(h, n, Padding(h, n))
  {
    var p, z := Padding(h, n), (119 - n % 64) % 64;
    assert p[1..1 + z] == Zeros(z);
    forall i | 1 <= i < |p| - 8
      ensures p[i] == 0
    {
      assert p[i] == p[1..1 + z][i - 1];
    }
  }

  /** No shorter padding ends a block, and no other one has this form. */
  lemma PaddingUnique(h: Hash, n: nat, p: Bytes)
    requires Sane(h) && IsPadding(h, n, p)
    ensures p == Padding(h, n)
    ensures forall q: Bytes | |q| >= 9 && (n + |q|) % 64 == 0 :: |p| <= |q|
  {
    PaddingIs(h, n);
    var q := Padding(h, n);
    SameLength(n, |p|, |q|);
    assert p == [p[0]] + p[1..|p| - 8] + p[|p| - 8..] && q == [q[0]] + q[1..|q| - 8] + q[|q| - 8..];
    forall s: Bytes | |s| >= 9 && (n + |s|) % 64 == 0
      ensures |p| <= |s|
    {
      SameLength(n, |p|, |s|);
    }
  }

  lemma SameLength(n: nat, a: nat, b: nat)
    requires 9 <= a <= 72 && 9 <= b && (n + a) % 64 == 0 && (n + b) % 64 == 0
    ensures a <= b && (b <= 72 ==> a == b)
  {
  }

  /** The states between the blocks of `m`, from `v` on. */
  ghost predicate Chained(h: Hash, v: Bytes, m: Bytes, states: seq<Bytes>) {
    && |m| % 64 == 0 && |states| == |m| / 64 + 1 && states[0] == v
    && forall i: nat | i < |states| - 1 :: states[i + 1] == h.compress(states[i], m[64 * i..64 * i + 64])
  }

  lemma {:induction false} FoldIsChain(h: Hash, v: Bytes, m: Bytes, states: seq<Bytes>)
    requires Sane(h) && |v| == STATE && Chained(h, v, m, states)
    ensures Fold(h, v, m) == states[|m| / 64]
    decreases |m|
  {
    if |m| >= 64 {
      var rest := m[64..];
      ModMinus(|m|, 64);
      forall i: nat | i < |states| - 2
        ensures states[1..][i + 1] == h.compress(states[1..][i], rest[64 * i..64 * i + 64])
      {
        assert rest[64 * i..64 * i + 64] == m[64 * (i + 1)..64 * (i + 1) + 64];
      }
      assert m[64 * 0..64 * 0 + 64] == m[..64];
      FoldIsChain(h, states[1], rest, states[1..]);
    }
  }

  lemma {:induction false} ChainExists(h: Hash, v: Bytes, m: Bytes) returns (states: seq<Bytes>)
    requires Sane(h) && |v| == STATE && |m| % 64 == 0
    ensures Chained(h, v, m, states)
    decreases |m|
  {
    if m == [] {
      states := [v];
    } else {
      MultipleAtLeast(|m|, 64);
      ModMinus(|m|, 64);
      var later := ChainExists(h, h.compress(v, m[..64]), m[64..]);
      states := [v] + later;
      forall i: nat | i < |states| - 1
        ensures states[i + 1] == h.compress(states[i], m[64 * i..64 * i + 64])
      {
        if i == 0 {
          assert m[64 * 0..64 * 0 + 64] == m[..64];
        } else {
          assert m[64..][64 * (i - 1)..64 * (i - 1) + 64] == m[64 * i..64 * i + 64];
        }
      }
    }
  }

  /** The digest of section 6 of FIPS 180-4: the padded message compressed block by block. */
  lemma DigestIs(h: Hash, m: Bytes, p: Bytes, states: seq<Bytes>)
    requires Sane(h) && IsPadding(h, |m|, p) && Chained(h, h.init, m + p, states)
    ensures |states[|m + p| / 64]| == STATE && Digest(h, m) == states[|m + p| / 64][..h.out]
  {
    PaddingUnique(h, |m|, p);
    FoldIsChain(h, h.init, m + p, states);
  }

  /** `k` is the 64-byte key with every byte exclusive-ored with `pad`. */
  ghost predicate IsPad(k: Bytes, key: Bytes, pad: bv8) {
    |k| == |key| == 64 && forall i | 0 <= i < 64 :: k[i] == key[i] ^ pad
  }

  /** HMAC as section 2 of RFC 2104 defines it. */
  lemma HmacIs(h: Hash, key: Bytes, text: Bytes, inner: Bytes, outer: Bytes)
    requires Sane(h) && IsPad(inner, key, 0x36) && IsPad(outer, key, 0x5c)
    ensures Hmac(h, key, text) == Digest(h, outer + Digest(h, inner + text))
  {
    assert inner == XorWith(key, IPAD) && outer == XorWith(key, OPAD);
  }
}
