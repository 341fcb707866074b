/** The states the engine goes through while a message is fed to it, worked out in advance. */
module HashPlan {
  import opened BlockEngine
  import opened HashFunction
  import opened HashEngine
  import opened HashFeeding

  /** The engine is about to take as many bytes as `m` has. */
  ghost predicate Expects(h: Hash, x: Hasher, m: Bytes) {
    Sane(h) && Good(x) && x.stage == Taking && x.left == |m| > 0
  }

  /** Its state after the first `k` whole blocks. */
  ghost function AfterBlocks(h: Hash, x: Hasher, m: Bytes, k: nat): (y: Hasher)
    requires Expects(h, x, m) && 64 * k <= |m|
    ensures Good(y) && y.left == |m| - 64 * k && y.stage == if y.left == 0 then Idle else Taking
  {
    if k == 0 then x else Eat(h, AfterBlocks(h, x, m, k - 1), m[64 * (k - 1)..64 * k])
  }

  /** After any number of whole blocks the run on the rest ends where the whole run does. */
  lemma {:induction false} RunByBlocks(h: Hash, x: Hasher, m: Bytes, fed: Bytes, k: nat, goal: Hasher)
    requires Expects(h, x, m) && 64 * k <= |m| == |fed| && fed[..64 * k] == m[..64 * k] && goal == Run(h, x, fed)
    ensures goal == Run(h, AfterBlocks(h, x, m, k), fed[64 * k..])
  {
    if k == 0 {
      assert fed[0..] == fed;
    } else {
      CutBlock(fed, m, 64 * (k - 1));
      RunByBlocks(h, x, m, fed, k - 1, goal);
      RunOneBlock(h, AfterBlocks(h, x, m, k - 1), m, fed, 64 * (k - 1), goal);
    }
  }

  lemma RunOneBlock(h: Hash, y: Hasher, m: Bytes, fed: Bytes, lo: nat, goal: Hasher)
    requires lo + 64 <= |fed| == |m| && Expects(h, y, fed[lo..]) && fed[..lo + 64] == m[..lo + 64]
    requires goal == Run(h, y, fed[lo..])
    ensures goal == Run(h, Eat(h, y, m[lo..lo + 64]), fed[lo + 64..])
  {
    CutBlock(fed, m, lo);
    RunBlock(h, y, fed[lo..], m[lo..lo + 64]);
  }

  lemma CutBlock(a: Bytes, b: Bytes, lo: nat)
    requires lo + 64 <= |a| == |b| && a[..lo + 64] == b[..lo + 64]
    ensures a[..lo] == b[..lo] && a[lo..][..64] == b[lo..lo + 64] && a[lo..][64..] == a[lo + 64..]
  {
    var hi := lo + 64;
    assert a[..lo] == a[..hi][..lo] && b[..lo] == b[..hi][..lo];
    assert a[..hi][lo..hi] == a[lo..hi] && b[..hi][lo..hi] == b[lo..hi];
  }

  lemma RunBlock(h: Hash, y: Hasher, rest: Bytes, b: Bytes)
    requires Expects(h, y, rest) && |rest| >= 64 && rest[..64] == b
    ensures Run(h, y, rest) == Run(h, Eat(h, y, b), rest[64..])
  {
  }

  /** The engine goes from state `c` to `d` by taking the block `b`, which stays in the data
      registers. */
  ghost predicate Takes(h: Hash, c: Core, d: Core, b: Bytes) {
    && Sane(h) && Fits(c) && c.x.stage == Taking && c.x.left >= 64 == |b| && c.written == 0
    && d == Core(Eat(h, c.x, b), b, 0)
  }

  /** Block number `i` of memory from `off` on. */
  function BlockAt(mem: Bytes, off: nat, i: nat): (b: Bytes)
    requires off + 64 * (i + 1) <= |mem|
    ensures |b| == 64
  {
    mem[off + 64 * i..off + 64 * i + 64]
  }

  /** `s` lists the states between the whole blocks of memory from `off` on. */
  ghost predicate Chain(h: Hash, s: nat -> Core, mem: Bytes, off: nat, count: nat) {
    && off + 64 * count <= |mem|
    && forall i: nat, j: nat {:trigger s(i), s(j)} | i < count && j == i + 1 ::
         Takes(h, s(i), s(j), BlockAt(mem, off, i))
  }

  ghost function StateAt(h: Hash, x: Hasher, stale: Bytes, msg: Bytes, i: nat): Core {
    if Expects(h, x, msg) && |stale| == 64 && 64 * i <= |msg|
    then Core(AfterBlocks(h, x, msg, i), LastBlock(stale, msg, i), 0)
    else Core(x, stale, 0)
  }

  lemma AfterNext(h: Hash, x: Hasher, stale: Bytes, msg: Bytes, i: nat)
    requires Expects(h, x, msg) && |stale| == 64 && 64 * (i + 1) <= |msg|
    ensures Takes(h, StateAt(h, x, stale, msg, i), StateAt(h, x, stale, msg, i + 1), msg[64 * i..64 * i + 64])
  {
    assert 64 * (i + 1) == 64 * i + 64 && i + 1 - 1 == i;
  }

  lemma SliceOfSlice(mem: Bytes, off: nat, msg: Bytes, at: nat, n: nat)
    requires off + |msg| <= |mem| && msg == mem[off..off + |msg|] && at + n <= |msg|
    ensures mem[off + at..off + at + n] == msg[at..at + n]
  {
    var t := mem[off + at..off + at + n];
    forall k | 0 <= k < |t|
      ensures msg[at..at + n][k] == t[k]
    {
    }
  }

  lemma RunLast(h: Hash, x: Hasher, m: Bytes)
    requires Sane(h) && Good(x) && (x.stage == if m == [] then Idle else Taking) && x.left == |m| < 64
    ensures Run(h, x, m) == if m == [] then x else Eat(h, x, m)
  {
    assert m[..|m|] == m && m[|m|..] == [];
  }

  /** From state `c` the bytes `tail`, if any, lead to `goal`. */
  ghost predicate EndsIn(h: Hash, c: Core, tail: Bytes, goal: Hasher) {
    && Sane(h) && Fits(c) && c.x.left == |tail| < 64 && c.written == 0
    && if tail == [] then goal == c.x
       else c.x.stage == Taking && goal == Eat(h, c.x, TailImage(c.data, tail)[..|tail|])
  }

  /** The engine's run on what the driver feeds it for `msg`. */
  ghost function RunOn(h: Hash, x: Hasher, stale: Bytes, msg: Bytes): Hasher
    requires Expects(h, x, msg) && |stale| == 64
  {
    Run(h, x, Fed(stale, msg))
  }

  lemma FedIsRun(h: Hash, x: Hasher, stale: Bytes, msg: Bytes, count: nat, c: Core, tail: Bytes, goal: Hasher)
    requires |stale| == 64 && Expects(h, x, msg) && count == |msg| / 64 && c == StateAt(h, x, stale, msg, count)
    requires 64 * count <= |msg| && tail == msg[64 * count..] && goal == RunOn(h, x, stale, msg)
    ensures EndsIn(h, c, tail, goal)
  {
    Split(|msg|);
    FedParts(stale, msg);
    RunByBlocks(h, x, msg, Fed(stale, msg), count, goal);
    RunLast(h, c.x, Fed(stale, msg)[64 * count..]);
  }

  /** A plan for a whole message: the states between its blocks, and how it ends. */
  ghost predicate Planned(h: Hash, s: nat -> Core, mem: Bytes, off: nat, count: nat, rest: nat, goal: Hasher) {
    && Chain(h, s, mem, off, count) && off + 64 * count + rest <= |mem|
    && EndsIn(h, s(count), mem[off + 64 * count..off + 64 * count + rest], goal)
  }

  /** The states that the driver will go through. */
  lemma PlanParts(h: Hash, x: Hasher, stale: Bytes, mem: Bytes, off: nat, n: nat, count: nat, rest: nat, goal: Hasher)
    returns (s: nat -> Core)
    requires |stale| == 64 && off + n <= |mem| && Expects(h, x, mem[off..off + n])
    requires count == n / 64 && rest == n % 64 && goal == RunOn(h, x, stale, mem[off..off + n])
    ensures s(0) == Core(x, stale, 0) && n % 4 == rest % 4
    ensures Planned(h, s, mem, off, count, rest, goal)
  {
    var msg := mem[off..off + n];
    s := (i: nat) => StateAt(h, x, stale, msg, i);
    Split(n);
    PlanChain(h, x, stale, msg, mem, off, count, s);
    PlanEnd(h, x, stale, msg, mem, off, count, rest, s(count), goal);
  }

  lemma PlanEnd(h: Hash, x: Hasher, stale: Bytes, msg: Bytes, mem: Bytes, off: nat, count: nat, rest: nat, c: Core,
                goal: Hasher)
    requires |stale| == 64 && Expects(h, x, msg) && off + |msg| <= |mem| && msg == mem[off..off + |msg|]
    requires count == |msg| / 64 && 64 * count + rest == |msg| && c == StateAt(h, x, stale, msg, count)
    requires goal == RunOn(h, x, stale, msg)
    ensures EndsIn(h, c, mem[off + 64 * count..off + 64 * count + rest], goal)
  {
    SliceOfSlice(mem, off, msg, 64 * count, rest);
    FedIsRun(h, x, stale, msg, count, c, mem[off + 64 * count..off + 64 * count + rest], goal);
  }

  lemma PlanChain(h: Hash, x: Hasher, stale: Bytes, msg: Bytes, mem: Bytes, off: nat, count: nat, s: nat -> Core)
    requires Expects(h, x, msg) && |stale| == 64 && off + |msg| <= |mem| && msg == mem[off..off + |msg|]
    requires 64 * count <= |msg|
    requires forall i: nat {:trigger s(i)} :: s(i) == StateAt(h, x, stale, msg, i)
    ensures Chain(h, s, mem, off, count)
  {
    forall i: nat, j: nat {:trigger s(i), s(j)} | i < count && j == i + 1 {
      Link(h, x, stale, msg, mem, off, i, s(i), s(j));
    }
  }

  lemma Link(h: Hash, x: Hasher, stale: Bytes, msg: Bytes, mem: Bytes, off: nat, i: nat, c: Core, d: Core)
    requires Expects(h, x, msg) && |stale| == 64 && off + |msg| <= |mem| && msg == mem[off..off + |msg|]
    requires 64 * (i + 1) <= |msg|
    requires c == StateAt(h, x, stale, msg, i) && d == StateAt(h, x, stale, msg, i + 1)
    ensures Takes(h, c, d, BlockAt(mem, off, i))
  {
    AfterNext(h, x, stale, msg, i);
    SliceOfSlice(mem, off, msg, 64 * i, 64);
  }
}
