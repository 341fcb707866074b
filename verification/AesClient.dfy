/** Clients of the AES driver: what a configured mode leaves in the destination, block by block,
    and encrypting a range in place and decrypting it again. */
module AesClient {
  import opened Arithmetic
  import opened BlockEngine
  import opened CipherModes
  import opened CryptoEngine
  import opened InPlace
  import opened Wrappers
  import opened AesDriver

  /** The configuration of a basic mode. */
  function ModeSetup(c: Cipher, mode: Mode, dir: Direction, tagOf: Absorbed -> Bytes): Setup {
    Setup(ModeEngine(c, mode, dir), Basic, false, tagOf)
  }

  /** The bytes `now` are the first ones of a block that meets the mode's equation for `b`, after
      whole blocks `done` that were stored as `before`. */
  ghost predicate PieceMeets(c: Cipher, mode: Mode, dir: Direction, iv: Bytes, done: Bytes, b: Bytes,
                             before: Bytes, now: Bytes)
    requires c.size == AES_BLOCK && |done| % AES_BLOCK == 0 && |before| == |done| && |b| <= AES_BLOCK
  {
    exists o: Bytes {:trigger Equation(c, mode, dir, FedBack(c, mode, dir, iv, done, before), Pad(AES_BLOCK, b), o)} ::
      && |o| == AES_BLOCK && now == o[..|b|]
      && Equation(c, mode, dir, FedBack(c, mode, dir, iv, done, before), Pad(AES_BLOCK, b), o)
  }

  /** So block `k` of `msg`, or what there is of it, is stored in `out`. */
  ghost predicate MeetsAt(c: Cipher, mode: Mode, dir: Direction, iv: Bytes, msg: Bytes, out: Bytes, k: nat)
    requires c.size == AES_BLOCK && |out| == |msg| && 16 * k < |msg|
  {
    var at, next := 16 * k, 16 * k + Chunk(16, |msg| - 16 * k);
    PieceMeets(c, mode, dir, iv, msg[..at], msg[at..next], out[..at], out[at..next])
  }

  /** And so is every other block. */
  ghost predicate MeetsMode(c: Cipher, mode: Mode, dir: Direction, iv: Bytes, msg: Bytes, out: Bytes) {
    && c.size == AES_BLOCK && |out| == |msg|
    && forall k: nat | 16 * k < |msg| :: MeetsAt(c, mode, dir, iv, msg, out, k)
  }

  lemma PieceIsMet(c: Cipher, mode: Mode, dir: Direction, iv: Bytes, done: Bytes, b: Bytes, rest: Bytes, e: Engine,
                   out: Bytes)
    requires Lawful(c) && c.size == AES_BLOCK == |iv| && e == ModeEngine(c, mode, dir) && Sized(e)
    requires |done| % AES_BLOCK == 0 && 0 < |b| <= AES_BLOCK && (|b| == AES_BLOCK || rest == [])
    requires out == Transform(e, iv, done + (b + rest))
    ensures PieceMeets(c, mode, dir, iv, done, b, out[..|done|], out[|done|..|done| + |b|])
  {
    var o := MessageEquations(c, mode, dir, iv, done, b, rest);
  }

  lemma TransformMeetsMode(c: Cipher, mode: Mode, dir: Direction, iv: Bytes, msg: Bytes)
    requires Lawful(c) && c.size == AES_BLOCK == |iv| && Sized(ModeEngine(c, mode, dir))
    ensures MeetsMode(c, mode, dir, iv, msg, Transform(ModeEngine(c, mode, dir), iv, msg))
  {
    var e := ModeEngine(c, mode, dir);
    var out := Transform(e, iv, msg);
    forall k: nat | 16 * k < |msg|
      ensures MeetsAt(c, mode, dir, iv, msg, out, k)
    {
      var at, next := 16 * k, 16 * k + Chunk(16, |msg| - 16 * k);
      assert msg == msg[..at] + (msg[at..next] + msg[next..]);
      PieceIsMet(c, mode, dir, iv, msg[..at], msg[at..next], msg[next..], e, out);
    }
  }

  lemma FulfilledMeetsMode(c: Cipher, mode: Mode, dir: Direction, iv: Bytes, msg: Bytes, was: Bytes, to: nat,
                           dest: Bytes, v: Bytes, n: nat)
    requires Lawful(c) && c.size == AES_BLOCK == |iv| && Sized(ModeEngine(c, mode, dir)) && n == |msg|
    requires Fulfils(ModeEngine(c, mode, dir), iv, msg, was, to, dest, v)
    ensures MeetsMode(c, mode, dir, iv, msg, dest[to..to + n])
  {
    TransformMeetsMode(c, mode, dir, iv, msg);
  }

  /** One direction in a mode: every block stored meets the mode's equation. */
  method RunMode(dev: Device, c: Cipher, mode: Mode, dir: Direction, iv: Bytes, src: array<bv8>, from: nat,
                 dest: array<bv8>, to: nat, ui32Length: nat)
    requires AesDevice(dev) && Quiet(dev.core) && Lawful(c) && c.size == AES_BLOCK && |iv| == AES_BLOCK
    requires ui32Length < U32 && from + ui32Length <= src.Length && to + ui32Length <= dest.Length
    requires SafeOverlap(AES_BLOCK, src == dest, from, to, ui32Length)
    modifies dev`setup, dev`core, dev`latency, dest
    ensures AesDevice(dev) && Quiet(dev.core) && Sized(ModeEngine(c, mode, dir))
    ensures Fulfils(ModeEngine(c, mode, dir), iv, old(src[..][from..from + ui32Length]),
                    old(dest[..]), to, dest[..], dev.core.iv)
    ensures MeetsMode(c, mode, dir, iv, old(src[..][from..from + ui32Length]), dest[..][to..to + ui32Length])
  {
    ghost var was, msg := dest[..], src[..][from..from + ui32Length];
    ModeSized(c, mode, dir);
    AESConfigSet(dev, ModeSetup(c, mode, dir, dev.setup.tagOf));
    AESIVSet(dev, iv);
    ghost var run;
    var ok;
    ok, run := AESDataProcess(dev, src, from, dest, to, ui32Length);
    FulfilledMeetsMode(c, mode, dir, iv, msg, was, to, dest[..], dev.core.iv, ui32Length);
  }

  /** Encrypting and decrypting with the same key, mode and initial vector restores the
      array: for every length in the streaming modes, for whole blocks in the others. */
  method EncryptThenDecrypt(dev: Device, c: Cipher, mode: Mode, iv: Bytes, data: array<bv8>, from: nat, ui32Length: nat)
    requires AesDevice(dev) && Quiet(dev.core) && Lawful(c) && c.size == AES_BLOCK && |iv| == AES_BLOCK
    requires ui32Length < U32 && from + ui32Length <= data.Length
    requires Streaming(mode) || ui32Length % 16 == 0
    modifies dev`setup, dev`core, dev`latency, data
    ensures AesDevice(dev) && Quiet(dev.core) && data[..] == old(data[..])
  {
    ghost var was := data[..];
    RunMode(dev, c, mode, Encrypt, iv, data, from, data, from, ui32Length);
    ghost var mid, v := data[..], dev.core.iv;
    RunMode(dev, c, mode, Decrypt, iv, data, from, data, from, ui32Length);
    BothFulfilled(c, mode, iv, was, mid, data[..], from, from + ui32Length, v, dev.core.iv);
  }

  lemma BothFulfilled(c: Cipher, mode: Mode, iv: Bytes, was: Bytes, mid: Bytes, now: Bytes, lo: nat, hi: nat,
                      v: Bytes, w: Bytes)
    requires Lawful(c) && |iv| == c.size && lo <= hi <= |was| == |mid| && (Streaming(mode) || (hi - lo) % c.size == 0)
    requires Sized(ModeEngine(c, mode, Encrypt)) && Sized(ModeEngine(c, mode, Decrypt))
    requires Fulfils(ModeEngine(c, mode, Encrypt), iv, was[lo..hi], was, lo, mid, v)
    requires Fulfils(ModeEngine(c, mode, Decrypt), iv, mid[lo..hi], mid, lo, now, w)
    ensures now == was
  {
    ModeRoundTrip(c, mode, iv, was[lo..hi]);
    Restored(was, now, lo, hi);
  }

  lemma Restored(was: Bytes, now: Bytes, lo: nat, hi: nat)
    requires SameOutside(was, now, lo, hi) && lo <= hi <= |was| && now[lo..hi] == was[lo..hi]
    ensures now == was
  {
    forall j | lo <= j < hi
      ensures now[j] == was[j]
    {
      assert now[j] == now[lo..hi][j - lo];
    }
  }
}
