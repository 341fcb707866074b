/** What an operation of the hash engine computes, from the mode bits that are set when the
    length is written: a digest, or an HMAC by either of its two key paths. */
module HashGuarantees {
  import opened BlockEngine
  import opened HashFunction
  import opened HashEngine

  /** The state an operation ends in, whose message is `m`. */
  function End(h: Hash, x: Hasher, m: Bytes): (y: Hasher)
    requires Sane(h) && |x.odigest| == |x.idigest| == STATE && x.left == |m|
    ensures Good(y) && y.stage == Idle
  {
    if m == [] then Begin(h, x) else Run(h, Begin(h, x), m)
  }

  /** An operation that closes the hash comes to finishing after the whole message. */
  lemma EndMeans(h: Hash, x: Hasher, m: Bytes)
    requires Sane(h) && |x.odigest| == |x.idigest| == STATE && x.left == |m| && x.mode.close
    ensures SameEnd(End(h, x, m), Finish(h, Load(h, x), m))
  {
    if m != [] {
      RunMeans(h, Load(h, x), m);
    }
  }

  /** And the engine has taken exactly the message. */
  lemma EndTakes(h: Hash, x: Hasher, m: Bytes)
    requires Sane(h) && |x.odigest| == |x.idigest| == STATE && x.left == |m|
    ensures End(h, x, m).taken == m
  {
    if m != [] {
      RunTakes(h, Load(h, x), m);
      assert [] + m == m;
    }
  }

  // ---- modes

  predicate PlainMode(m: Mode) {
    m.constant && m.close && !m.keyProc && !m.outer
  }

  /** HMAC with a key still to be processed. */
  predicate KeyMode(m: Mode) {
    !m.constant && m.close && m.keyProc && m.outer
  }

  /** HMAC going on from a processed key. */
  predicate ContinueMode(m: Mode) {
    !m.constant && m.close && !m.keyProc && m.outer
  }

  /** What key processing leaves in the digest registers. */
  function ProcessedKey(h: Hash, key: Bytes): (p: Bytes)
    requires Sane(h) && |key| == 64
    ensures |p| == 64
  {
    assert |XorWith(key, OPAD)| == |XorWith(key, IPAD)| == 64;
    h.compress(h.init, XorWith(key, OPAD)) + h.compress(h.init, XorWith(key, IPAD))
  }

  /** In the terms of RFC 2104: the states after the outer and after the inner key block. */
  lemma ProcessedKeyIs(h: Hash, key: Bytes, inner: Bytes, outer: Bytes)
    requires Sane(h) && IsPad(inner, key, 0x36) && IsPad(outer, key, 0x5c)
    ensures ProcessedKey(h, key) == h.compress(h.init, outer) + h.compress(h.init, inner)
  {
    assert inner == XorWith(key, IPAD) && outer == XorWith(key, OPAD);
  }

  lemma PlainDigest(h: Hash, x: Hasher, m: Bytes)
    requires Sane(h) && |x.odigest| == |x.idigest| == STATE && x.left == |m| && PlainMode(x.mode)
    ensures End(h, x, m).idigest[..h.out] == Digest(h, m)
  {
    EndMeans(h, x, m);
  }

  lemma KeyDigest(h: Hash, x: Hasher, key: Bytes, text: Bytes)
    requires Sane(h) && |x.odigest| == |x.idigest| == STATE && x.left == |text| && KeyMode(x.mode)
    requires key == x.odigest + x.idigest
    ensures End(h, x, text).idigest[..h.out] == Hmac(h, key, text)
  {
    EndMeans(h, x, text);
    HmacFromStates(h, key, text);
  }

  lemma ContinuedDigest(h: Hash, x: Hasher, key: Bytes, text: Bytes)
    requires Sane(h) && |x.odigest| == |x.idigest| == STATE && x.left == |text| && ContinueMode(x.mode)
    requires |key| == 64 && x.odigest + x.idigest == ProcessedKey(h, key) && x.count == 64
    ensures End(h, x, text).idigest[..h.out] == Hmac(h, key, text)
  {
    var i, o := h.compress(h.init, XorWith(key, IPAD)), h.compress(h.init, XorWith(key, OPAD));
    HmacFromStates(h, key, text);
    assert x.odigest == (x.odigest + x.idigest)[..STATE] == o && x.idigest == (x.odigest + x.idigest)[STATE..] == i;
    EndMeans(h, x, text);
  }

  /** Key processing alone: the processed key is left in the registers, and the bit that asked
      for it is clear again. */
  lemma KeyProcessed(h: Hash, x: Hasher, key: Bytes)
    requires Sane(h) && |x.odigest| == |x.idigest| == STATE && x.left == 0
    requires x.mode.keyProc && !x.mode.constant && !x.mode.close && !x.mode.outer && key == x.odigest + x.idigest
    ensures var y := End(h, x, []);
            && y.odigest + y.idigest == ProcessedKey(h, key)
            && y.mode == Mode(x.mode.algo, false, false, false, false)
  {
  }

  // ---- when a processed key works

  /** Setting a processed key in mode `m` leads to the HMAC under that key: for every hash, key
      and text. */
  ghost predicate ProcessedKeyWorks(m: Mode) {
    forall h: Hash, x: Hasher, key: Bytes, text: Bytes {:trigger End(h, x, text), Hmac(h, key, text)}
      | SetUp(h, m, x, key) && x.left == |text| :: End(h, x, text).idigest[..h.out] == Hmac(h, key, text)
  }

  /** The registers as SHAMD5HMACPPKeySet leaves them, given the processed form of `key`. */
  ghost predicate SetUp(h: Hash, m: Mode, x: Hasher, key: Bytes) {
    && Sane(h) && |x.odigest| == |x.idigest| == STATE && |key| == 64
    && x.mode == m.(outer := true, close := true) && x.count == 64
    && x.odigest + x.idigest == ProcessedKey(h, key)
  }

  /** A hash that shows the failure: its state is the sum of the blocks' first bytes, and that
      sum is the digest. */
  function SumHash(): Hash {
    Hash(Zeros(STATE), (v: Bytes, b: Bytes) => AddFirst(v, b), (n: nat) => Zeros(8), 1)
  }

  function AddFirst(v: Bytes, b: Bytes): (w: Bytes)
    ensures |w| == STATE
  {
    [if v == [] || b == [] then 0 else v[0] + b[0]] + Zeros(STATE - 1)
  }

  function Sum(x: bv8): (v: Bytes)
    ensures |v| == STATE
  {
    [x] + Zeros(STATE - 1)
  }

  lemma SumSane()
    ensures Sane(SumHash())
  {
  }

  /** A message of one block, once padded, adds its first byte. */
  lemma SumFold(h: Hash, x: bv8, m: Bytes)
    requires Sane(h) && h == SumHash() && |m| == 64
    ensures Fold(h, Sum(x), m) == Sum(x + m[0])
  {
    assert m[..64] == m && Fold(h, h.compress(Sum(x), m), m[64..]) == h.compress(Sum(x), m);
  }

  /** What closing the hash of an empty text gives, from inner and outer sums `i` and `o`. */
  lemma SumFinish(h: Hash, x: Hasher, i: bv8, o: bv8)
    requires Sane(h) && h == SumHash() && x.idigest == Sum(i) && x.odigest == Sum(o)
    requires x.mode.close && x.mode.outer && x.count % 64 == 0
    ensures Finish(h, x, []).idigest == Sum(o + (i + 0x80))
  {
    var p, q := [] + Padding(h, x.count + 0), [i + 0x80] + Padding(h, 64 + 1);
    assert |p| == 64 && p[0] == 0x80;
    SumFold(h, i, p);
    assert |q| == 64 && q[0] == i + 0x80;
    assert Sum(i + 0x80)[..1] + Padding(h, 64 + 1) == q;
    SumFold(h, o, q);
  }

  /** The sums that processing a key of a first byte `f` leaves. */
  lemma SumKey(h: Hash, key: Bytes, f: bv8)
    requires Sane(h) && h == SumHash() && |key| == 64 && key[0] == f
    ensures h.compress(h.init, XorWith(key, IPAD)) == Sum(f ^ 0x36)
    ensures h.compress(h.init, XorWith(key, OPAD)) == Sum(f ^ 0x5c)
  {
    assert h.init == Sum(0);
  }

  /** The failing case: in a mode in which the key would be processed again, or the initial
      value of the algorithm loaded, the key of zero bytes and the empty text. */
  lemma ProcessedKeyFails(m: Mode)
    requires m.constant || m.keyProc
    ensures !ProcessedKeyWorks(m)
  {
    SumSane();
    var h, key := SumHash(), Zeros(64);
    var i, o := Sum(0x36), Sum(0x5c);
    SumKey(h, key, 0);
    assert 0 as bv8 ^ 0x36 == 0x36 && 0 as bv8 ^ 0x5c == 0x5c;
    var x := Hasher(Starting, m.(outer := true, close := true), o, i, 64, 0, []);
    HmacSum(h, key);
    var y := Load(h, x);
    if m.keyProc {
      assert (o + i)[0] == 0x5c;
      SumKey(h, o + i, 0x5c);
      SumFinish(h, y, 0x5c ^ 0x36, 0x5c ^ 0x5c);
    } else {
      SumFinish(h, y, 0, 0x5c);
    }
    assert End(h, x, []).idigest[..1] != Hmac(h, key, []);
    assert SetUp(h, m, x, key);
  }

  lemma HmacSum(h: Hash, key: Bytes)
    requires Sane(h) && h == SumHash() && key == Zeros(64)
    ensures Hmac(h, key, []) == [0x12]
  {
    var x := Hasher(Starting, Mode(Md5, false, true, true, true), key[..STATE], key[STATE..], 0, 0, []);
    assert x.odigest + x.idigest == key;
    KeyDigest(h, x, key, []);
    SumKey(h, key, 0);
    SumFinish(h, Load(h, x), 0 ^ 0x36, 0 ^ 0x5c);
  }

  /** Setting a processed key works exactly when the mode asks neither for key processing nor
      for the algorithm's initial value; the first is what a key that was set but not used
      leaves behind. */
  lemma ProcessedKeyWorksExactly(m: Mode)
    ensures ProcessedKeyWorks(m) <==> !m.constant && !m.keyProc
  {
    if !m.constant && !m.keyProc {
      forall h: Hash, x: Hasher, key: Bytes, text: Bytes | SetUp(h, m, x, key) && x.left == |text|
        ensures End(h, x, text).idigest[..h.out] == Hmac(h, key, text)
      {
        ContinuedDigest(h, x, key, text);
      }
    } else {
      ProcessedKeyFails(m);
    }
  }
}
