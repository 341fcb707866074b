/** Block-by-block processing of byte messages by an engine of any kind: an output and a
    next chaining value for each block. */
module BlockEngine {
  import opened Arithmetic

  type Bytes = seq<bv8>

  datatype Engine = Engine(size: nat, out: (Bytes, Bytes) -> Bytes, next: (Bytes, Bytes) -> Bytes)

  ghost predicate Sized(e: Engine) {
    && e.size > 0
    && (forall v: Bytes, b: Bytes {:trigger e.out(v, b)} | |v| == |b| == e.size :: |e.out(v, b)| == e.size)
    && (forall v: Bytes, b: Bytes {:trigger e.next(v, b)} | |v| == |b| == e.size :: |e.next(v, b)| == e.size)
  }

  function Zeros(n: nat): (z: Bytes)
    ensures |z| == n && forall i | 0 <= i < n :: z[i] == 0
  {
    seq(n, _ => 0)
  }

  /** A block padded with zero bytes to the size of a block. */
  function Pad(size: nat, b: Bytes): (r: Bytes)
    requires |b| <= size
    ensures |r| == size && r[..|b|] == b && forall i | |b| <= i < size :: r[i] == 0
  {
    b + Zeros(size - |b|)
  }

  /** The engine applied to a message of any length: whole blocks, then the zero-padded rest,
      of whose output only as many bytes are kept. */
  function Transform(e: Engine, iv: Bytes, src: Bytes): (o: Bytes)
    requires Sized(e) && |iv| == e.size
    ensures |o| == |src|
    decreases |src|
  {
    if src == [] then []
    else if |src| < e.size then e.out(iv, Pad(e.size, src))[..|src|]
    else e.out(iv, src[..e.size]) + Transform(e, e.next(iv, src[..e.size]), src[e.size..])
  }

  /** The chaining value left after a message. */
  function IvAfter(e: Engine, iv: Bytes, src: Bytes): (v: Bytes)
    requires Sized(e) && |iv| == e.size
    ensures |v| == e.size
    decreases |src|
  {
    if src == [] then iv
    else if |src| < e.size then e.next(iv, Pad(e.size, src))
    else IvAfter(e, e.next(iv, src[..e.size]), src[e.size..])
  }

  // ---- the same by blocks

  /** The blocks of a message, the last one zero-padded. */
  function Blocks(size: nat, src: Bytes): (bs: seq<Bytes>)
    requires size > 0
    ensures forall i | 0 <= i < |bs| :: |bs[i]| == size
    decreases |src|
  {
    if src == [] then [] else if |src| < size then [Pad(size, src)] else [src[..size]] + Blocks(size, src[size..])
  }

  /** One more block of a message, or its zero-padded rest. */
  lemma BlocksNext(size: nat, msg: Bytes, pos: nat, length: nat)
    requires size > 0 && pos % size == 0 && 0 < length <= size && pos + length <= |msg|
    ensures Blocks(size, msg[..pos + length]) == Blocks(size, msg[..pos]) + [Pad(size, msg[pos..pos + length])]
  {
    BlocksAppend(size, msg[..pos], msg[pos..pos + length]);
    assert msg[..pos] + msg[pos..pos + length] == msg[..pos + length];
  }

  lemma {:induction false} BlocksAppend(size: nat, a: Bytes, c: Bytes)
    requires size > 0 && |a| % size == 0 && 0 < |c| <= size
    ensures Blocks(size, a + c) == Blocks(size, a) + [Pad(size, c)]
    decreases |a|
  {
    if a == [] {
      assert a + c == c;
      if |c| == size {
        assert c[..size] == c == Pad(size, c) && Blocks(size, c[size..]) == [];
      }
    } else {
      MultipleAtLeast(|a|, size);
      ModMinus(|a|, size);
      BlocksAppend(size, a[size..], c);
      assert (a + c)[..size] == a[..size] && (a + c)[size..] == a[size..] + c;
    }
  }

  lemma MultipleAtLeast(a: nat, n: nat)
    requires 0 < n && 0 < a && a % n == 0
    ensures a >= n
  {
  }

  function Join(bs: seq<Bytes>): Bytes {
    if bs == [] then [] else bs[0] + Join(bs[1..])
  }

  /** The output for each block. */
  function OutBlocks(e: Engine, iv: Bytes, bs: seq<Bytes>): (os: seq<Bytes>)
    requires Sized(e) && |iv| == e.size
    requires forall i | 0 <= i < |bs| :: |bs[i]| == e.size
    ensures |os| == |bs| && forall i | 0 <= i < |os| :: |os[i]| == e.size
    decreases |bs|
  {
    if bs == [] then [] else [e.out(iv, bs[0])] + OutBlocks(e, e.next(iv, bs[0]), bs[1..])
  }

  /** The two views agree: the output is the joined output blocks of the zero-padded message,
      cut to its length. */
  lemma {:induction false} TransformIsBlocks(e: Engine, iv: Bytes, src: Bytes)
    requires Sized(e) && |iv| == e.size
    ensures |src| <= |Join(OutBlocks(e, iv, Blocks(e.size, src)))|
    ensures Transform(e, iv, src) == Join(OutBlocks(e, iv, Blocks(e.size, src)))[..|src|]
    decreases |src|
  {
    var n := e.size;
    if src == [] {
    } else if |src| < n {
      var b := Pad(n, src);
      assert OutBlocks(e, e.next(iv, b), []) == [];
      assert OutBlocks(e, iv, [b]) == [e.out(iv, b)];
      assert Join([e.out(iv, b)]) == e.out(iv, b) + Join([]);
    } else {
      var v := e.next(iv, src[..n]);
      TransformIsBlocks(e, v, src[n..]);
      var bs := Blocks(n, src[n..]);
      assert Blocks(n, src)[1..] == bs;
      assert OutBlocks(e, iv, Blocks(n, src))[1..] == OutBlocks(e, v, bs);
    }
  }

  /** The chaining value that block `j` meets. */
  function ChainAt(e: Engine, iv: Bytes, bs: seq<Bytes>, j: nat): (v: Bytes)
    requires Sized(e) && |iv| == e.size && j <= |bs|
    requires forall i | 0 <= i < |bs| :: |bs[i]| == e.size
    ensures |v| == e.size
  {
    if j == 0 then iv else e.next(ChainAt(e, iv, bs, j - 1), bs[j - 1])
  }

  lemma {:induction false} ChainShift(e: Engine, iv: Bytes, bs: seq<Bytes>, j: nat)
    requires Sized(e) && |iv| == e.size && j < |bs|
    requires forall i | 0 <= i < |bs| :: |bs[i]| == e.size
    ensures ChainAt(e, iv, bs, j + 1) == ChainAt(e, e.next(iv, bs[0]), bs[1..], j)
  {
    if j > 0 {
      ChainShift(e, iv, bs, j - 1);
    } else {
      assert ChainAt(e, iv, bs, 0) == iv;
    }
  }

  /** Every output block is the engine's output for its input block and the chaining value
      that block meets. */
  lemma {:induction false} OutBlockAt(e: Engine, iv: Bytes, bs: seq<Bytes>, j: nat)
    requires Sized(e) && |iv| == e.size && j < |bs|
    requires forall i | 0 <= i < |bs| :: |bs[i]| == e.size
    ensures OutBlocks(e, iv, bs)[j] == e.out(ChainAt(e, iv, bs, j), bs[j])
    decreases |bs|
  {
    if j > 0 {
      OutBlockAt(e, e.next(iv, bs[0]), bs[1..], j - 1);
      ChainShift(e, iv, bs, j - 1);
    }
  }

  // ---- one block within a message

  lemma WholeNext(done: Bytes, size: nat)
    requires 0 < size && 0 < |done| && |done| % size == 0
    ensures size <= |done| && (|done| - size) % size == 0 && (|done| - size) / size == |done| / size - 1
  {
    MultipleAtLeast(|done|, size);
    ModMinus(|done|, size);
  }

  /** After whole blocks the engine goes on from the chaining value that they leave. */
  lemma {:induction false} TransformAfter(e: Engine, iv: Bytes, done: Bytes, more: Bytes)
    requires Sized(e) && |iv| == e.size && |done| % e.size == 0
    ensures Transform(e, iv, done + more) == Transform(e, iv, done) + Transform(e, IvAfter(e, iv, done), more)
    ensures IvAfter(e, iv, done + more) == IvAfter(e, IvAfter(e, iv, done), more)
    decreases |done|
  {
    var n := e.size;
    if done == [] {
      assert done + more == more;
    } else {
      WholeNext(done, n);
      var first, others := done[..n], done[n..];
      assert done + more == first + (others + more) && done == first + others;
      TransformAfter(e, e.next(iv, first), others, more);
      TransformFirst(e, iv, first, others + more);
      TransformFirst(e, iv, first, others);
      IvAfterFirst(e, iv, first, others + more);
      IvAfterFirst(e, iv, first, others);
    }
  }

  /** So the bytes that follow come out as the engine's output for them, zero-padded, and for that
      chaining value; the next chaining value comes from the same two. */
  lemma PieceAfter(e: Engine, iv: Bytes, done: Bytes, b: Bytes, rest: Bytes, v: Bytes, p: Bytes)
    requires Sized(e) && |iv| == e.size && |done| % e.size == 0
    requires 0 < |b| <= e.size && (|b| == e.size || rest == [])
    requires v == IvAfter(e, iv, done) && p == Pad(e.size, b)
    ensures |e.out(v, p)| == |e.next(v, p)| == e.size && IvAfter(e, iv, done + b) == e.next(v, p)
    ensures Transform(e, iv, done + (b + rest))[..|done|] == Transform(e, iv, done)
    ensures Transform(e, iv, done + (b + rest))[|done|..|done| + |b|] == e.out(v, p)[..|b|]
  {
    TransformAfter(e, iv, done, b + rest);
    TransformAfter(e, iv, done, b);
    FirstPiece(e, v, b, rest, p);
    Slices(Transform(e, iv, done), Transform(e, v, b + rest), |b|);
  }

  lemma Slices(x: Bytes, y: Bytes, k: nat)
    requires k <= |y|
    ensures (x + y)[..|x|] == x && (x + y)[|x|..|x| + k] == y[..k]
  {
  }

  lemma BlockAfter(e: Engine, iv: Bytes, before: Bytes, b: Bytes, v: Bytes)
    requires Sized(e) && |iv| == |b| == e.size && |before| % e.size == 0 && v == IvAfter(e, iv, before)
    ensures Transform(e, iv, before + b) == Transform(e, iv, before) + e.out(v, b)
    ensures IvAfter(e, iv, before + b) == e.next(v, b)
  {
    TransformAfter(e, iv, before, b);
    TransformFirst(e, v, b, []);
    IvAfterFirst(e, v, b, []);
    assert b + [] == b;
  }

  lemma FirstPiece(e: Engine, iv: Bytes, b: Bytes, rest: Bytes, p: Bytes)
    requires Sized(e) && |iv| == e.size && 0 < |b| <= e.size && (|b| == e.size || rest == []) && p == Pad(e.size, b)
    ensures |e.out(iv, p)| == |e.next(iv, p)| == e.size
    ensures Transform(e, iv, b + rest)[..|b|] == e.out(iv, p)[..|b|] && IvAfter(e, iv, b) == e.next(iv, p)
  {
    if |b| == e.size {
      assert p == b && b + [] == b;
      TransformFirst(e, iv, b, rest);
      IvAfterFirst(e, iv, b, []);
    } else {
      assert b + rest == b;
    }
  }

  lemma IvAfterFirst(e: Engine, iv: Bytes, b: Bytes, rest: Bytes)
    requires Sized(e) && |iv| == |b| == e.size
    ensures IvAfter(e, iv, b + rest) == IvAfter(e, e.next(iv, b), rest)
  {
    assert (b + rest)[..e.size] == b && (b + rest)[e.size..] == rest;
  }

  lemma TransformFirst(e: Engine, iv: Bytes, b: Bytes, rest: Bytes)
    requires Sized(e) && |iv| == |b| == e.size
    ensures Transform(e, iv, b + rest) == e.out(iv, b) + Transform(e, e.next(iv, b), rest)
  {
    assert (b + rest)[..e.size] == b && (b + rest)[e.size..] == rest;
  }

  // ---- round trip

  /** `d` undoes `e` on whole blocks and follows its chaining values. */
  ghost predicate Inverts(d: Engine, e: Engine) {
    && Sized(e) && Sized(d) && d.size == e.size
    && (forall v: Bytes, b: Bytes {:trigger d.out(v, e.out(v, b))} | |v| == |b| == e.size :: d.out(v, e.out(v, b)) == b)
    && (forall v: Bytes, b: Bytes {:trigger d.next(v, e.out(v, b))} | |v| == |b| == e.size ::
          d.next(v, e.out(v, b)) == e.next(v, b))
  }

  /** And on a partial block of which only the kept bytes come back. */
  ghost predicate InvertsPartial(d: Engine, e: Engine)
    requires Inverts(d, e)
  {
    forall v: Bytes, b: Bytes {:trigger e.out(v, Pad(e.size, b))} | |v| == e.size && |b| < e.size ::
      d.out(v, Pad(e.size, e.out(v, Pad(e.size, b))[..|b|]))[..|b|] == b
  }

  /** A message of whole blocks. */
  predicate Whole(n: nat, length: nat)
    requires n > 0
  {
    length == 0 || (length >= n && Whole(n, length - n))
  }

  lemma {:induction false} MultiplesAreWhole(n: nat, length: nat)
    requires n > 0 && length % n == 0
    ensures Whole(n, length)
    decreases length
  {
    if length >= n {
      ModMinus(length, n);
      MultiplesAreWhole(n, length - n);
    }
  }

  lemma TransformPart(e: Engine, iv: Bytes, b: Bytes)
    requires Sized(e) && |iv| == e.size && |b| < e.size
    ensures Transform(e, iv, b) == e.out(iv, Pad(e.size, b))[..|b|]
  {
  }

  lemma {:induction false} EngineRoundTrip(d: Engine, e: Engine, iv: Bytes, src: Bytes)
    requires Inverts(d, e) && |iv| == e.size
    requires Whole(e.size, |src|) || InvertsPartial(d, e)
    ensures Transform(d, iv, Transform(e, iv, src)) == src
    decreases |src|
  {
    var n := e.size;
    if |src| >= n {
      var b, rest := src[..n], src[n..];
      var v := e.next(iv, b);
      EngineRoundTrip(d, e, v, rest);
      assert src == b + rest;
      TransformFirst(e, iv, b, rest);
      TransformFirst(d, iv, e.out(iv, b), Transform(e, v, rest));
    } else if src != [] {
      TransformPart(e, iv, src);
      TransformPart(d, iv, e.out(iv, Pad(n, src))[..|src|]);
    }
  }
}

/** The modes of operation over an unspecified keyed permutation: ECB, CBC, CFB with
    full-block feedback and CTR (sections 6.1, 6.2, 6.3 and 6.5 of NIST SP 800-38A). */
module CipherModes {
  import Arithmetic
  import opened BlockEngine

  datatype Mode = Ecb | Cbc | Cfb | Ctr
  datatype Direction = Encrypt | Decrypt

  /** A keyed cipher on blocks of `size` bytes and the step of its counter. */
  datatype Cipher = Cipher(size: nat, enc: Bytes -> Bytes, dec: Bytes -> Bytes, inc: Bytes -> Bytes)

  ghost predicate Lawful(c: Cipher) {
    && c.size > 0
    && (forall b: Bytes {:trigger c.enc(b)} | |b| == c.size :: |c.enc(b)| == c.size)
    && (forall b: Bytes {:trigger c.enc(b)} | |b| == c.size :: c.dec(c.enc(b)) == b)
    && (forall b: Bytes {:trigger c.dec(b)} | |b| == c.size :: |c.dec(b)| == c.size)
    && (forall b: Bytes {:trigger c.inc(b)} | |b| == c.size :: |c.inc(b)| == c.size)
  }

  function Xor(a: Bytes, b: Bytes): (r: Bytes)
    ensures |r| == |a|
    ensures forall i | 0 <= i < |a| && i < |b| :: r[i] == a[i] ^ b[i]
  {
    seq(|a|, i requires 0 <= i < |a| => if i < |b| then a[i] ^ b[i] else a[i])
  }

  lemma XorCancels(a: Bytes, b: Bytes)
    ensures Xor(Xor(a, b), b) == a
  {
  }

  function StepOut(c: Cipher, mode: Mode, dir: Direction, iv: Bytes, b: Bytes): Bytes {
    match mode
    case Ecb => if dir == Encrypt then c.enc(b) else c.dec(b)
    case Cbc => if dir == Encrypt then c.enc(Xor(b, iv)) else Xor(c.dec(b), iv)
    case Cfb => Xor(b, c.enc(iv))
    case Ctr => Xor(b, c.enc(iv))
  }

  function StepIv(c: Cipher, mode: Mode, dir: Direction, iv: Bytes, b: Bytes): Bytes {
    match mode
    case Ecb => iv
    case Cbc => if dir == Encrypt then StepOut(c, mode, dir, iv, b) else b
    case Cfb => if dir == Encrypt then StepOut(c, mode, dir, iv, b) else b
    case Ctr => c.inc(iv)
  }

  /** The engine set to a mode and a direction. */
  function ModeEngine(c: Cipher, mode: Mode, dir: Direction): Engine {
    Engine(c.size, (iv, b) => StepOut(c, mode, dir, iv, b), (iv, b) => StepIv(c, mode, dir, iv, b))
  }

  lemma ModeSized(c: Cipher, mode: Mode, dir: Direction)
    requires Lawful(c)
    ensures Sized(ModeEngine(c, mode, dir))
  {
    forall v: Bytes, b: Bytes | |v| == |b| == c.size
      ensures |StepOut(c, mode, dir, v, b)| == c.size && |StepIv(c, mode, dir, v, b)| == c.size
    {
      StepSizes(c, mode, dir, v, b);
    }
  }

  lemma StepSizes(c: Cipher, mode: Mode, dir: Direction, v: Bytes, b: Bytes)
    requires Lawful(c) && |v| == |b| == c.size
    ensures |StepOut(c, mode, dir, v, b)| == c.size && |StepIv(c, mode, dir, v, b)| == c.size
  {
    assert |Xor(b, v)| == c.size;
  }

  lemma StepInverse(c: Cipher, mode: Mode, v: Bytes, b: Bytes)
    requires Lawful(c) && |v| == |b| == c.size
    ensures StepOut(c, mode, Decrypt, v, StepOut(c, mode, Encrypt, v, b)) == b
    ensures StepIv(c, mode, Decrypt, v, StepOut(c, mode, Encrypt, v, b)) == StepIv(c, mode, Encrypt, v, b)
  {
    match mode
    case Ecb =>
    case Cbc =>
      assert |Xor(b, v)| == c.size;
      XorCancels(b, v);
    case Cfb => XorCancels(b, c.enc(v));
    case Ctr => XorCancels(b, c.enc(v));
  }

  // ---- the standard's equations

  /** The initial counter block stepped `j` times. */
  function IncBy(c: Cipher, iv: Bytes, j: nat): Bytes {
    if j == 0 then iv else c.inc(IncBy(c, iv, j - 1))
  }

  /** `x` is `a` with every byte exclusive-ored with the byte of `b`. */
  ghost predicate Masked(x: Bytes, a: Bytes, b: Bytes) {
    |x| == |a| <= |b| && forall i | 0 <= i < |a| :: x[i] == a[i] ^ b[i]
  }

  /** The block before block `j` of `bs`, the initial vector before the first. */
  function Previous(iv: Bytes, bs: seq<Bytes>, j: nat): Bytes
    requires j <= |bs|
  {
    if j == 0 then iv else bs[j - 1]
  }

  /** What the standard feeds to block `j`: nothing in ECB, the previous ciphertext block or
      the initial vector in CBC and CFB, the j-th counter block in CTR. */
  function Feedback(c: Cipher, mode: Mode, dir: Direction, iv: Bytes, bs: seq<Bytes>, os: seq<Bytes>, j: nat): Bytes
    requires j < |bs| == |os|
  {
    match mode
    case Ecb => iv
    case Cbc => Previous(iv, if dir == Encrypt then os else bs, j)
    case Cfb => Previous(iv, if dir == Encrypt then os else bs, j)
    case Ctr => IncBy(c, iv, j)
  }

  lemma {:induction false} ChainIsFeedback(c: Cipher, mode: Mode, dir: Direction, iv: Bytes, bs: seq<Bytes>, j: nat)
    requires Lawful(c) && Sized(ModeEngine(c, mode, dir)) && |iv| == c.size && j < |bs|
    requires forall i | 0 <= i < |bs| :: |bs[i]| == c.size
    ensures var e := ModeEngine(c, mode, dir);
            ChainAt(e, iv, bs, j) == Feedback(c, mode, dir, iv, bs, OutBlocks(e, iv, bs), j)
  {
    var e := ModeEngine(c, mode, dir);
    if j > 0 {
      var v, b := ChainAt(e, iv, bs, j - 1), bs[j - 1];
      assert ChainAt(e, iv, bs, j) == StepIv(c, mode, dir, v, b);
      match mode {
        case Ecb => ChainIsFeedback(c, mode, dir, iv, bs, j - 1);
        case Ctr => ChainIsFeedback(c, mode, dir, iv, bs, j - 1);
        case Cbc => OutBlockAt(e, iv, bs, j - 1);
        case Cfb => OutBlockAt(e, iv, bs, j - 1);
      }
    }
  }

  /** What section 6 of the standard says of an output block `o` for the input block `b`, given the
      block `back` that is fed back: a cipher application and a bytewise exclusive-or. */
  ghost predicate Equation(c: Cipher, mode: Mode, dir: Direction, back: Bytes, b: Bytes, o: Bytes) {
    match mode
    case Ecb => o == if dir == Encrypt then c.enc(b) else c.dec(b)
    case Cbc =>
      if dir == Encrypt then exists x: Bytes {:trigger Masked(x, b, back)} :: Masked(x, b, back) && o == c.enc(x)
      else Masked(o, c.dec(b), back)
    case Cfb => Masked(o, b, c.enc(back))
    case Ctr => Masked(o, b, c.enc(back))
  }

  lemma StepMeetsEquation(c: Cipher, mode: Mode, dir: Direction, v: Bytes, b: Bytes)
    requires Lawful(c) && |v| == |b| == c.size
    ensures Equation(c, mode, dir, v, b, StepOut(c, mode, dir, v, b))
  {
    assert Masked(Xor(b, v), b, v);
  }

  /** Every output block is what the standard's equation for its mode says. */
  lemma ModeEquations(c: Cipher, mode: Mode, dir: Direction, iv: Bytes, bs: seq<Bytes>, j: nat)
    requires Lawful(c) && Sized(ModeEngine(c, mode, dir)) && |iv| == c.size && j < |bs|
    requires forall i | 0 <= i < |bs| :: |bs[i]| == c.size
    ensures var os := OutBlocks(ModeEngine(c, mode, dir), iv, bs);
            Equation(c, mode, dir, Feedback(c, mode, dir, iv, bs, os, j), bs[j], os[j])
  {
    ChainIsFeedback(c, mode, dir, iv, bs, j);
    OutBlockAt(ModeEngine(c, mode, dir), iv, bs, j);
    StepMeetsEquation(c, mode, dir, ChainAt(ModeEngine(c, mode, dir), iv, bs, j), bs[j]);
  }

  /** The last of whole blocks `m`, or the initial vector if there is none. */
  function BlockBefore(size: nat, iv: Bytes, m: Bytes): Bytes {
    if |m| < size then iv else m[|m| - size..]
  }

  /** What is fed back after whole blocks `done` that were turned into `out`. */
  function FedBack(c: Cipher, mode: Mode, dir: Direction, iv: Bytes, done: Bytes, out: Bytes): Bytes
    requires c.size > 0 && |done| % c.size == 0 && |out| == |done|
  {
    match mode
    case Ecb => iv
    case Cbc => BlockBefore(c.size, iv, if dir == Encrypt then out else done)
    case Cfb => BlockBefore(c.size, iv, if dir == Encrypt then out else done)
    case Ctr => IncBy(c, iv, |done| / c.size)
  }

  lemma {:induction false} ChainIsFedBack(c: Cipher, mode: Mode, dir: Direction, e: Engine, iv: Bytes, done: Bytes)
    requires Lawful(c) && e == ModeEngine(c, mode, dir) && Sized(e) && |iv| == c.size && |done| % c.size == 0
    ensures IvAfter(e, iv, done) == FedBack(c, mode, dir, iv, done, Transform(e, iv, done))
    decreases |done|
  {
    if done != [] {
      WholeNext(done, c.size);
      var k := |done| - c.size;
      var before, b := done[..k], done[k..];
      var v := IvAfter(e, iv, before);
      BlockAfter(e, iv, before, b, v);
      assert before + b == done;
      if mode == Ecb || mode == Ctr {
        ChainIsFedBack(c, mode, dir, e, iv, before);
      }
      FedBackNext(c, mode, dir, iv, before, b, Transform(e, iv, before), v, StepOut(c, mode, dir, v, b));
    }
  }

  /** One step of what is fed back. */
  lemma FedBackNext(c: Cipher, mode: Mode, dir: Direction, iv: Bytes, done: Bytes, b: Bytes, out: Bytes, v: Bytes,
                    o: Bytes)
    requires c.size > 0 && |done| % c.size == 0 && |out| == |done| && |b| == |o| == c.size
    requires (done + b)[|done|..] == b && |done + b| % c.size == 0 && |done| / c.size == |done + b| / c.size - 1
    requires o == StepOut(c, mode, dir, v, b)
    requires mode == Ecb || mode == Ctr ==> v == FedBack(c, mode, dir, iv, done, out)
    ensures StepIv(c, mode, dir, v, b) == FedBack(c, mode, dir, iv, done + b, out + o)
  {
    assert (out + o)[|out|..] == o;
  }

  /** The chaining value for what comes after a block `b` that went out as `o`. */
  function ChainNext(c: Cipher, mode: Mode, dir: Direction, iv: Bytes, k: nat, b: Bytes, o: Bytes): Bytes {
    match mode
    case Ecb => iv
    case Cbc => if dir == Encrypt then o else b
    case Cfb => if dir == Encrypt then o else b
    case Ctr => IncBy(c, iv, k + 1)
  }

  lemma StepMeetsChain(c: Cipher, mode: Mode, dir: Direction, iv: Bytes, done: Bytes, out: Bytes, v: Bytes, b: Bytes)
    requires c.size > 0 && |done| % c.size == 0 && |out| == |done|
    requires v == FedBack(c, mode, dir, iv, done, out)
    ensures 0 <= |done| / c.size
    ensures StepIv(c, mode, dir, v, b) ==
            ChainNext(c, mode, dir, iv, |done| / c.size, b, StepOut(c, mode, dir, v, b))
  {
  }

  /** The same for a message as it is stored: after whole blocks `done` the next bytes `b`, a
      block or the rest of the message, come out as the first bytes of a block `o` that meets the
      mode's equation for the zero-padded bytes, and leave the mode's chaining value. */
  lemma MessageEquations(c: Cipher, mode: Mode, dir: Direction, iv: Bytes, done: Bytes, b: Bytes, rest: Bytes)
    returns (o: Bytes)
    requires Lawful(c) && |iv| == c.size && |done| % c.size == 0
    requires 0 < |b| <= c.size && (|b| == c.size || rest == [])
    ensures |o| == c.size && Sized(ModeEngine(c, mode, dir))
    ensures var out := Transform(ModeEngine(c, mode, dir), iv, done + (b + rest));
            && out[|done|..|done| + |b|] == o[..|b|]
            && Equation(c, mode, dir, FedBack(c, mode, dir, iv, done, out[..|done|]), Pad(c.size, b), o)
    ensures 0 <= |done| / c.size
    ensures IvAfter(ModeEngine(c, mode, dir), iv, done + b) ==
            ChainNext(c, mode, dir, iv, |done| / c.size, Pad(c.size, b), o)
  {
    ModeSized(c, mode, dir);
    var e := ModeEngine(c, mode, dir);
    o := PieceEquations(c, mode, dir, iv, done, b, rest, e, Transform(e, iv, done + (b + rest)));
  }

  lemma PieceEquations(c: Cipher, mode: Mode, dir: Direction, iv: Bytes, done: Bytes, b: Bytes, rest: Bytes,
                       e: Engine, out: Bytes) returns (o: Bytes)
    requires Lawful(c) && e == ModeEngine(c, mode, dir) && Sized(e) && |iv| == c.size && |done| % c.size == 0
    requires 0 < |b| <= c.size && (|b| == c.size || rest == [])
    requires out == Transform(e, iv, done + (b + rest))
    ensures |o| == c.size && out[|done|..|done| + |b|] == o[..|b|]
    ensures Equation(c, mode, dir, FedBack(c, mode, dir, iv, done, out[..|done|]), Pad(c.size, b), o)
    ensures 0 <= |done| / c.size
    ensures IvAfter(e, iv, done + b) == ChainNext(c, mode, dir, iv, |done| / c.size, Pad(c.size, b), o)
  {
    var p, v := Pad(c.size, b), IvAfter(e, iv, done);
    o := e.out(v, p);
    PieceAfter(e, iv, done, b, rest, v, p);
    ChainIsFedBack(c, mode, dir, e, iv, done);
    StepMeetsEquation(c, mode, dir, v, p);
    StepMeetsChain(c, mode, dir, iv, done, out[..|done|], v, p);
  }

  // ---- round trip

  predicate Streaming(m: Mode) {
    m == Cfb || m == Ctr
  }

  /** The decrypting engine undoes the encrypting one in every mode. */
  lemma ModeInverts(c: Cipher, mode: Mode)
    requires Lawful(c)
    ensures Inverts(ModeEngine(c, mode, Decrypt), ModeEngine(c, mode, Encrypt))
  {
    ModeSized(c, mode, Encrypt);
    ModeSized(c, mode, Decrypt);
    forall v: Bytes, b: Bytes | |v| == |b| == c.size
      ensures StepOut(c, mode, Decrypt, v, StepOut(c, mode, Encrypt, v, b)) == b
      ensures StepIv(c, mode, Decrypt, v, StepOut(c, mode, Encrypt, v, b)) == StepIv(c, mode, Encrypt, v, b)
    {
      StepInverse(c, mode, v, b);
    }
  }

  /** In the modes that only add a key stream a partial block survives too. */
  lemma StreamInvertsPartial(c: Cipher, mode: Mode)
    requires Lawful(c) && Streaming(mode)
    ensures Inverts(ModeEngine(c, mode, Decrypt), ModeEngine(c, mode, Encrypt))
    ensures InvertsPartial(ModeEngine(c, mode, Decrypt), ModeEngine(c, mode, Encrypt))
  {
    ModeInverts(c, mode);
    forall v: Bytes, b: Bytes | |v| == c.size && |b| < c.size
      ensures var o := StepOut(c, mode, Encrypt, v, Pad(c.size, b))[..|b|];
              StepOut(c, mode, Decrypt, v, Pad(c.size, o))[..|b|] == b
    {
      XorPartial(c.size, b, c.enc(v));
    }
  }

  lemma XorPartial(n: nat, b: Bytes, s: Bytes)
    requires |b| < n == |s|
    ensures Xor(Pad(n, Xor(Pad(n, b), s)[..|b|]), s)[..|b|] == b
  {
    var o := Xor(Pad(n, b), s)[..|b|];
    forall i | 0 <= i < |b|
      ensures Xor(Pad(n, o), s)[i] == b[i]
    {
      assert o[i] == b[i] ^ s[i];
    }
  }

  /** Encrypting and then decrypting from the same initial vector restores the message: of
      any length in CFB and CTR, of whole blocks in ECB and CBC. */
  lemma ModeRoundTrip(c: Cipher, mode: Mode, iv: Bytes, src: Bytes)
    requires Lawful(c) && |iv| == c.size
    requires Streaming(mode) || |src| % c.size == 0
    ensures var e, d := ModeEngine(c, mode, Encrypt), ModeEngine(c, mode, Decrypt);
            Sized(e) && Sized(d) && Transform(d, iv, Transform(e, iv, src)) == src
  {
    ModeInverts(c, mode);
    if Streaming(mode) {
      StreamInvertsPartial(c, mode);
    } else {
      MultiplesAreWhole(c.size, |src|);
    }
    EngineRoundTrip(ModeEngine(c, mode, Decrypt), ModeEngine(c, mode, Encrypt), iv, src);
  }

  // ---- exactly when the round trip holds

  /** The round trip holds for every cipher of this block size, every initial vector and
      every message of `n` bytes. */
  ghost predicate RoundTrips(size: nat, mode: Mode, n: nat) {
    forall c: Cipher, iv: Bytes, src: Bytes {:trigger ModeEngine(c, mode, Encrypt), |iv|, |src|}
      | Lawful(c) && c.size == size && |iv| == size && |src| == n && Sized(ModeEngine(c, mode, Encrypt))
        && Sized(ModeEngine(c, mode, Decrypt)) ::
      Transform(ModeEngine(c, mode, Decrypt), iv, Transform(ModeEngine(c, mode, Encrypt), iv, src)) == src
  }

  /** A cipher that shows the loss: it rotates the bytes of a block. */
  function Rotation(size: nat): Cipher {
    Cipher(size, (b: Bytes) => RotateLeft(b), (b: Bytes) => RotateRight(b), (b: Bytes) => b)
  }

  function RotateLeft(b: Bytes): (r: Bytes)
    ensures |r| == |b|
  {
    if |b| == 0 then b else b[1..] + [b[0]]
  }

  function RotateRight(b: Bytes): (r: Bytes)
    ensures |r| == |b|
  {
    if |b| == 0 then b else [b[|b| - 1]] + b[..|b| - 1]
  }

  lemma RotationUndone(b: Bytes)
    ensures RotateRight(RotateLeft(b)) == b
  {
  }

  lemma RotationLawful(size: nat)
    requires size > 0
    ensures Lawful(Rotation(size))
  {
    var c := Rotation(size);
    forall b: Bytes {:trigger c.enc(b)} | |b| == size
      ensures c.dec(c.enc(b)) == b
    {
      RotationUndone(b);
    }
  }

  /** Zero bytes but for the first byte of the part that is not a whole block. */
  function Marked(size: nat, n: nat): (src: Bytes)
    requires size > 0
    ensures |src| == n
  {
    if n == 0 then [] else if n < size then [1] + Zeros(n - 1) else Zeros(size) + Marked(size, n - size)
  }

  lemma {:induction false} MarkedLost(size: nat, mode: Mode, n: nat)
    requires size > 1 && !Streaming(mode)
    requires Sized(ModeEngine(Rotation(size), mode, Encrypt))
    ensures Transform(ModeEngine(Rotation(size), mode, Encrypt), Zeros(size), Marked(size, n)) == Zeros(n)
  {
    var e, z := ModeEngine(Rotation(size), mode, Encrypt), Zeros(size);
    RotationOfZeros(size, mode, Encrypt);
    if n >= size {
      MarkedLost(size, mode, n - size);
      TransformFirst(e, z, z, Marked(size, n - size));
      ZerosJoin(size, n - size);
    } else if n > 0 {
      var b := Pad(size, Marked(size, n));
      assert Xor(b, z) == b by {
        assert forall i | 0 <= i < size :: b[i] ^ 0 == b[i];
      }
      TransformPart(e, z, Marked(size, n));
      RotatedMark(b, n);
    }
  }

  lemma RotatedMark(b: Bytes, n: nat)
    requires n < |b| && forall i | 1 <= i < |b| :: b[i] == 0
    ensures RotateLeft(b)[..n] == Zeros(n)
  {
  }

  lemma RotationOfZeros(size: nat, mode: Mode, dir: Direction)
    requires size > 0 && !Streaming(mode)
    ensures StepOut(Rotation(size), mode, dir, Zeros(size), Zeros(size)) == Zeros(size)
    ensures StepIv(Rotation(size), mode, dir, Zeros(size), Zeros(size)) == Zeros(size)
  {
    var z := Zeros(size);
    assert Xor(z, z) == z;
    assert z[1..] + [z[0]] == z && [z[size - 1]] + z[..size - 1] == z;
  }

  lemma ZerosJoin(a: nat, b: nat)
    ensures Zeros(a) + Zeros(b) == Zeros(a + b)
  {
  }

  lemma {:induction false} ZerosStay(d: Engine, n: nat, z: Bytes)
    requires Sized(d) && z == Zeros(d.size) && d.out(z, z) == z && d.next(z, z) == z
    ensures Transform(d, z, Zeros(n)) == Zeros(n)
  {
    if n >= d.size {
      ZerosStay(d, n - d.size, z);
      TransformFirst(d, z, z, Zeros(n - d.size));
      ZerosJoin(d.size, n - d.size);
    } else if n > 0 {
      assert Pad(d.size, Zeros(n)) == z;
      TransformPart(d, z, Zeros(n));
    }
  }

  lemma {:induction false} MarkedIsNotZeros(size: nat, n: nat)
    requires size > 0 && n % size != 0
    ensures Marked(size, n) != Zeros(n)
  {
    if n >= size {
      Arithmetic.ModMinus(n, size);
      MarkedIsNotZeros(size, n - size);
      assert Zeros(n)[size..] == Zeros(n - size);
    } else {
      assert Marked(size, n)[0] == 1 && Zeros(n)[0] == 0;
    }
  }

  /** The round trip holds exactly in CFB and CTR, and otherwise for whole blocks: in ECB and
      CBC the driver drops ciphertext bytes of a zero-padded rest that decryption needs. */
  lemma RoundTripsExactly(size: nat, mode: Mode, n: nat)
    requires size > 1
    ensures RoundTrips(size, mode, n) <==> Streaming(mode) || n % size == 0
  {
    if Streaming(mode) || n % size == 0 {
      forall c: Cipher, iv: Bytes, src: Bytes
        | Lawful(c) && c.size == size && |iv| == size && |src| == n && Sized(ModeEngine(c, mode, Encrypt))
          && Sized(ModeEngine(c, mode, Decrypt))
        ensures Transform(ModeEngine(c, mode, Decrypt), iv, Transform(ModeEngine(c, mode, Encrypt), iv, src)) == src
      {
        ModeRoundTrip(c, mode, iv, src);
      }
    } else {
      var c := Rotation(size);
      RotationLawful(size);
      ModeSized(c, mode, Encrypt);
      ModeSized(c, mode, Decrypt);
      MarkedLost(size, mode, n);
      RotationOfZeros(size, mode, Decrypt);
      ZerosStay(ModeEngine(c, mode, Decrypt), n, Zeros(size));
      MarkedIsNotZeros(size, n);
      assert |Zeros(size)| == size && |Marked(size, n)| == n;
    }
  }
}
