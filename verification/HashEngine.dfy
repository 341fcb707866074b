/** The SHA/MD5 module as hardware: the mode register with its self-clearing bits, the digest
    registers, the data registers, and an engine that takes any time for a block. */
module HashEngine {
  import opened Arithmetic
  import opened BlockEngine
  import opened HashFunction

  datatype Algo = Md5 | Sha1 | Sha224 | Sha256

  /** The bits of the mode register. */
  datatype Mode = Mode(algo: Algo, constant: bool, close: bool, keyProc: bool, outer: bool)

  datatype Stage = Idle | Starting | Taking

  /** Mode, outer and inner digest registers, digest count, bytes of the announced length
      still to come, and the bytes taken since the length was written. */
  datatype Hasher = Hasher(stage: Stage, mode: Mode, odigest: Bytes, idigest: Bytes,
                           count: nat, left: nat, taken: Bytes)

  /** With the data registers and the number of words written to them for the next block. */
  datatype Core = Core(x: Hasher, data: Bytes, written: nat)

  ghost predicate Good(x: Hasher) {
    |x.odigest| == STATE && |x.idigest| == STATE && (x.stage == Taking ==> x.left > 0)
  }

  function Need(left: nat): nat {
    if left < 64 then left else 64
  }

  // ---- what the engine does

  /** The end of a hash: `tail` is the part of a block that is left. The close and outer bits
      say what is done, and clear themselves. */
  function Finish(h: Hash, x: Hasher, tail: Bytes): (y: Hasher)
    requires Sane(h) && |x.odigest| == |x.idigest| == STATE
    ensures Good(y) && y.stage == Idle
  {
    var inner := if x.mode.close then Fold(h, x.idigest, tail + Padding(h, x.count + |tail|)) else x.idigest;
    var digest := if x.mode.outer then Fold(h, x.odigest, inner[..h.out] + Padding(h, 64 + h.out)) else inner;
    x.(stage := Idle, idigest := digest, left := 0, mode := x.mode.(close := false, outer := false))
  }

  /** What precedes the first block: key processing if it is asked for, otherwise the
      algorithm's initial value if that is; both bits clear themselves. */
  function Load(h: Hash, x: Hasher): (y: Hasher)
    requires Sane(h) && |x.odigest| == |x.idigest| == STATE
    ensures |y.odigest| == |y.idigest| == STATE && y.stage == Taking && y.left == x.left
  {
    var key := x.odigest + x.idigest;
    var y := x.(stage := Taking, mode := x.mode.(constant := false, keyProc := false), taken := []);
    if x.mode.keyProc then
      assert |XorWith(key, OPAD)| == |XorWith(key, IPAD)| == 64;
      y.(count := 64, odigest := h.compress(h.init, XorWith(key, OPAD)),
         idigest := h.compress(h.init, XorWith(key, IPAD)))
    else if x.mode.constant then y.(count := 0, idigest := h.init)
    else y
  }

  /** What the length register sets off. */
  function Begin(h: Hash, x: Hasher): (y: Hasher)
    requires Sane(h) && |x.odigest| == |x.idigest| == STATE
    ensures Good(y) && y.stage != Starting
  {
    if x.left == 0 then Finish(h, Load(h, x), []) else Load(h, x)
  }

  /** The engine takes the next block, or what there is of the last one. */
  function Eat(h: Hash, x: Hasher, b: Bytes): (y: Hasher)
    requires Sane(h) && Good(x) && x.stage == Taking && |b| == Need(x.left)
    ensures Good(y) && y.stage != Starting
  {
    if |b| == 64 then
      var y := x.(idigest := h.compress(x.idigest, b), count := x.count + 64,
                  left := x.left - 64, taken := x.taken + b);
      if y.left == 0 then Finish(h, y, []) else y
    else
      Finish(h, x.(taken := x.taken + b), b)
  }

  /** All the blocks of the bytes `m`, of which the engine expects as many. */
  function Run(h: Hash, x: Hasher, m: Bytes): (y: Hasher)
    requires Sane(h) && Good(x) && (if m == [] then x.stage == Idle else x.stage == Taking && x.left == |m|)
    ensures Good(y) && y.stage == Idle
    decreases |m|
  {
    if m == [] then x else Run(h, Eat(h, x, m[..Need(|m|)]), m[Need(|m|)..])
  }

  /** The engine takes exactly the bytes it is run on, once each and in order. */
  lemma {:induction false} RunTakes(h: Hash, x: Hasher, m: Bytes)
    requires Sane(h) && Good(x) && x.stage == Taking && x.left == |m| > 0
    ensures Run(h, x, m).taken == x.taken + m
    decreases |m|
  {
    var b, rest := m[..Need(|m|)], m[Need(|m|)..];
    var y := Eat(h, x, b);
    assert Run(h, x, m) == Run(h, y, rest) && b + rest == m;
    if rest != [] {
      RunTakes(h, y, rest);
      assert (x.taken + b) + rest == x.taken + m;
    }
  }

  /** Alike but for the digest count and the record of what was taken. */
  predicate SameEnd(x: Hasher, y: Hasher) {
    x.stage == y.stage && x.mode == y.mode && x.odigest == y.odigest && x.idigest == y.idigest && x.left == y.left
  }

  lemma CloseAfterBlock(h: Hash, x: Hasher, b: Bytes, rest: Bytes)
    requires Sane(h) && Good(x) && x.stage == Taking && x.mode.close && |b| == 64 && x.left == 64 + |rest| && rest != []
    ensures SameEnd(Finish(h, x, b + rest), Finish(h, Eat(h, x, b), rest))
  {
    FoldBlock(h, x.idigest, b, rest, Padding(h, x.count + |b + rest|));
  }

  lemma CloseAtLast(h: Hash, x: Hasher, b: Bytes)
    requires Sane(h) && Good(x) && x.stage == Taking && x.mode.close && 0 < |b| == x.left <= 64
    ensures SameEnd(Finish(h, x, b), Eat(h, x, b))
  {
    if |b| == 64 {
      FoldBlock(h, x.idigest, b, [], Padding(h, x.count + |b|));
      assert b + [] == b;
    }
  }

  /** A run that closes the hash amounts to hashing all of `m` after what came before. */
  lemma {:induction false} RunMeans(h: Hash, x: Hasher, m: Bytes)
    requires Sane(h) && Good(x) && x.stage == Taking && x.left == |m| > 0 && x.mode.close
    ensures SameEnd(Run(h, x, m), Finish(h, x, m))
    decreases |m|
  {
    var b, rest := m[..Need(|m|)], m[Need(|m|)..];
    var y := Eat(h, x, b);
    assert Run(h, x, m) == Run(h, y, rest);
    if rest == [] {
      assert b == m;
      CloseAtLast(h, x, m);
    } else {
      assert m == b + rest;
      CloseAfterBlock(h, x, b, rest);
      RunMeans(h, y, rest);
    }
  }

  // ---- with the data registers

  ghost predicate Fits(c: Core) {
    Good(c.x) && |c.data| == 64
  }

  /** The data registers hold all that the engine needs for the next block. */
  predicate Full(c: Core) {
    c.x.stage == Taking && 4 * c.written >= Need(c.x.left)
  }

  /** The state once the engine has done all it can without the driver. */
  function Settled(h: Hash, c: Core): (d: Core)
    requires Sane(h) && Fits(c)
    ensures Fits(d) && d.x.stage != Starting && !Full(d) && d.data == c.data
  {
    if c.x.stage == Starting then Core(Begin(h, c.x), c.data, 0)
    else if Full(c) then Core(Eat(h, c.x, c.data[..Need(c.x.left)]), c.data, 0)
    else c
  }

  /** The bytes of an algorithm's digest, always whole words of the state. */
  function OutLength(a: Algo): (n: nat)
    ensures n % 4 == 0 && n <= STATE
  {
    match a case Md5 => 16 case Sha1 => 20 case Sha224 => 28 case Sha256 => 32
  }

  class Device {
    const hashes: Algo -> Hash
    var core: Core
    var latency: nat

    ghost predicate Valid()
      reads this
    {
      Fits(core) && forall a: Algo {:trigger hashes(a)} :: Sane(hashes(a)) && hashes(a).out == OutLength(a)
    }

    constructor (hashes: Algo -> Hash)
      requires forall a: Algo {:trigger hashes(a)} :: Sane(hashes(a)) && hashes(a).out == OutLength(a)
      ensures Valid() && this.hashes == hashes && core.x.stage == Idle
    {
      this.hashes := hashes;
      var m := Mode(Md5, false, false, false, false);
      core := Core(Hasher(Idle, m, Zeros(STATE), Zeros(STATE), 0, 0, []), Zeros(64), 0);
      latency := 0;
    }

    /** The selected algorithm. */
    function H(): Hash
      reads this
    {
      hashes(core.x.mode.algo)
    }

    /** Reads the interrupt status: the engine may do its next step, after any number of
        reads, and the flags say what it waits for then. */
    method ReadStatus() returns (contextReady: bool, inputReady: bool, outputReady: bool)
      requires Valid()
      modifies this`core, this`latency
      ensures Valid() && core.x.mode.algo == old(core.x.mode.algo)
      ensures core == Settled(H(), old(core)) || (core == old(core) && latency < old(latency))
      ensures contextReady <==> core.x.stage == Idle
      ensures outputReady <==> core.x.stage == Idle
      ensures inputReady <==> core.x.stage == Taking && !Full(core)
    {
      SettledAlgo(H(), core);
      if core.x.stage == Starting || Full(core) {
        if latency > 0 {
          latency := latency - 1;
        } else {
          core := Settled(H(), core);
        }
      }
      contextReady := core.x.stage == Idle;
      outputReady := core.x.stage == Idle;
      inputReady := core.x.stage == Taking && !Full(core);
    }

    /** Waits until the data registers may be written. */
    method WaitInput()
      requires Valid() && Settled(H(), core).x.stage == Taking
      modifies this`core, this`latency
      ensures Valid() && H() == old(H()) && core == Settled(H(), old(core))
    {
      SettledAlgo(H(), core);
      var contextReady, inputReady, outputReady := ReadStatus();
      while !inputReady
        invariant Valid() && H() == old(H()) && (core == old(core) || core == Settled(H(), old(core)))
        invariant inputReady <==> core.x.stage == Taking && !Full(core)
        decreases !inputReady, latency
      {
        contextReady, inputReady, outputReady := ReadStatus();
      }
    }

    /** Waits until the engine is idle: for the context before an operation, for the output
        after it. */
    method WaitIdle()
      requires Valid() && Settled(H(), core).x.stage == Idle
      modifies this`core, this`latency
      ensures Valid() && H() == old(H()) && core == Settled(H(), old(core))
    {
      SettledAlgo(H(), core);
      var contextReady, inputReady, outputReady := ReadStatus();
      while !contextReady
        invariant Valid() && H() == old(H()) && (core == old(core) || core == Settled(H(), old(core)))
        invariant contextReady <==> core.x.stage == Idle
        decreases !contextReady, latency
      {
        contextReady, inputReady, outputReady := ReadStatus();
      }
    }

    /** Writes one data register. */
    method WriteData(i: nat, word: Bytes)
      requires Valid() && core.x.stage == Taking && !Full(core) && i < 16 && |word| == 4
      modifies this`core, this`latency
      ensures Valid() && core == Core(old(core.x), Overlay(old(core.data), 4 * i, word), old(core.written) + 1)
    {
      core := Core(core.x, Overlay(core.data, 4 * i, word), core.written + 1);
      latency := *;
    }
  }

  lemma SettledAlgo(h: Hash, c: Core)
    requires Sane(h) && Fits(c)
    ensures Settled(h, c).x.mode.algo == c.x.mode.algo
    ensures Settled(h, Settled(h, c)) == Settled(h, c)
  {
  }

  /** `data` with `piece` at offset `at`. */
  function Overlay(data: Bytes, at: nat, piece: Bytes): (r: Bytes)
    requires at + |piece| <= |data|
    ensures |r| == |data|
    ensures forall j | 0 <= j < |data| :: r[j] == if at <= j < at + |piece| then piece[j - at] else data[j]
  {
    data[..at] + piece + data[at + |piece|..]
  }
}
