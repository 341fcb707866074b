/** Processing a message block by block from one array range into another, which may overlap:
    what happens in general, and exactly when it is the transform of the message. */
module InPlace {
  import opened Arithmetic
  import opened BlockEngine

  /** The memory that a message is read from and the one its output is stored in, which may
      be one and the same. */
  datatype Memory = Memory(one: bool, src: Bytes, dest: Bytes) {
    function Put(at: nat, piece: Bytes): (m: Memory)
      requires at + |piece| <= |dest| && (one ==> |src| == |dest|)
      ensures |m.src| == |src| && |m.dest| == |dest| && m.one == one
    {
      var d := dest[..at] + piece + dest[at + |piece|..];
      Memory(one, if one then d else src, d)
    }

    ghost predicate Room(from: nat, to: nat, n: nat) {
      from + n <= |src| && to + n <= |dest| && (one ==> |src| == |dest|)
    }
  }

  function Chunk(size: nat, n: nat): nat {
    if n < size then n else size
  }

  /** The block of `k` bytes at `from`, zero-padded. */
  function BlockAt(e: Engine, m: Memory, from: nat, k: nat): (b: Bytes)
    requires k <= e.size && from + k <= |m.src|
    ensures |b| == e.size
  {
    Pad(e.size, m.src[from..from + k])
  }

  /** The memory once the output for it is stored at `to`. */
  function AfterRound(e: Engine, iv: Bytes, m: Memory, from: nat, to: nat, k: nat): (m': Memory)
    requires Sized(e) && |iv| == e.size && k <= e.size && m.Room(from, to, k)
    ensures |m'.src| == |m.src| && |m'.dest| == |m.dest| && m'.one == m.one
  {
    m.Put(to, e.out(iv, BlockAt(e, m, from, k))[..k])
  }

  // ---- rounds

  /** Between two blocks: memory, chaining value, how many bytes are done, blocks taken. */
  datatype State = State(m: Memory, iv: Bytes, pos: nat, took: seq<Bytes>)

  ghost predicate Good(e: Engine, from: nat, to: nat, n: nat, s: State) {
    Sized(e) && |s.iv| == e.size && s.pos <= n && s.m.Room(from, to, n)
  }

  /** One block is read, and its output stored. */
  ghost predicate Round(e: Engine, from: nat, to: nat, n: nat, s: State, t: State) {
    && Good(e, from, to, n, s) && s.pos < n
    && var k := Chunk(e.size, n - s.pos);
    && var b := BlockAt(e, s.m, from + s.pos, k);
    && t.m == AfterRound(e, s.iv, s.m, from + s.pos, to + s.pos, k)
    && t.iv == e.next(s.iv, b) && t.pos == s.pos + k && t.took == s.took + [b]
  }

  /** Source and destination array as they are. */
  ghost function MemoryOf(src: array<bv8>, dest: array<bv8>): (m: Memory)
    reads src, dest
    ensures m.one ==> m.src == m.dest
  {
    Memory(src == dest, src[..], dest[..])
  }

  function Start(m: Memory, iv: Bytes): State {
    State(m, iv, 0, [])
  }

  /** The rounds of a pass of `n` bytes from `from` to `to`: each block is read when its turn
      comes, so in one memory blocks already written may be read again. */
  ghost predicate Rounds(e: Engine, from: nat, to: nat, n: nat, run: seq<State>) {
    && |run| > 0 && Good(e, from, to, n, run[0]) && run[0].pos == 0 && run[0].took == []
    && forall i :: 0 <= i < |run| - 1 ==> Round(e, from, to, n, run[i], run[i + 1])
  }

  function Last(run: seq<State>): State
    requires |run| > 0
  {
    run[|run| - 1]
  }

  ghost predicate Pass(e: Engine, from: nat, to: nat, n: nat, run: seq<State>) {
    Rounds(e, from, to, n, run) && Last(run).pos == n
  }

  lemma RoundGood(e: Engine, from: nat, to: nat, n: nat, s: State, t: State)
    requires Round(e, from, to, n, s, t)
    ensures Good(e, from, to, n, t)
  {
  }

  lemma RoundsGood(e: Engine, from: nat, to: nat, n: nat, run: seq<State>)
    requires Rounds(e, from, to, n, run)
    ensures Good(e, from, to, n, Last(run))
  {
    if |run| > 1 {
      assert Round(e, from, to, n, run[|run| - 2], run[|run| - 2 + 1]);
      RoundGood(e, from, to, n, run[|run| - 2], Last(run));
    }
  }

  /** Memory in which the range at `to` holds the output for the block at `from`, and nothing
      else has changed, is the memory after a round. */
  lemma RoundStored(e: Engine, iv: Bytes, m: Memory, m': Memory, from: nat, to: nat, k: nat, o: Bytes)
    requires Sized(e) && |iv| == e.size && k <= e.size && m.Room(from, to, k)
    requires o == e.out(iv, BlockAt(e, m, from, k)) && |o| == e.size
    requires m'.one == m.one && m'.src == (if m.one then m'.dest else m.src) && |m'.dest| == |m.dest|
    requires m'.dest[to..to + k] == o[..k]
    requires forall j | 0 <= j < |m.dest| && !(to <= j < to + k) :: m'.dest[j] == m.dest[j]
    ensures m' == AfterRound(e, iv, m, from, to, k)
  {
    assert m'.dest == m.dest[..to] + o[..k] + m.dest[to + k..];
  }

  lemma RoundsExtend(e: Engine, from: nat, to: nat, n: nat, run: seq<State>, t: State)
    requires Rounds(e, from, to, n, run) && Round(e, from, to, n, Last(run), t)
    ensures Rounds(e, from, to, n, run + [t]) && Last(run + [t]) == t
  {
  }

  /** Every pass can be made. */
  lemma PassExists(e: Engine, from: nat, to: nat, n: nat, s: State) returns (run: seq<State>)
    requires Good(e, from, to, n, s) && s.pos == 0 && s.took == []
    ensures Pass(e, from, to, n, run) && run[0] == s
  {
    run := [s];
    while Last(run).pos < n
      invariant Rounds(e, from, to, n, run) && run[0] == s && Good(e, from, to, n, Last(run))
      decreases n - Last(run).pos
    {
      var l := Last(run);
      var t := NextState(e, from, to, n, l);
      RoundGood(e, from, to, n, l, t);
      RoundsExtend(e, from, to, n, run, t);
      run := run + [t];
    }
  }

  lemma NextState(e: Engine, from: nat, to: nat, n: nat, s: State) returns (t: State)
    requires Good(e, from, to, n, s) && s.pos < n
    ensures Round(e, from, to, n, s, t) && t.pos > s.pos
  {
    var k := Chunk(e.size, n - s.pos);
    var b := BlockAt(e, s.m, from + s.pos, k);
    t := State(AfterRound(e, s.iv, s.m, from + s.pos, to + s.pos, k), e.next(s.iv, b), s.pos + k, s.took + [b]);
  }

  /** Source and destination may be one array as long as no byte is overwritten before it is
      read: one block at most, or the destination not ahead, or the ranges apart. */
  predicate SafeOverlap(size: nat, same: bool, from: nat, to: nat, n: nat) {
    !same || n <= size || to <= from || from + n <= to
  }

  /** Two contents of an array that differ from index `lo` up to `hi` at most. */
  ghost predicate SameOutside(a: Bytes, b: Bytes, lo: nat, hi: nat) {
    |a| == |b| && forall j | 0 <= j < |a| && !(lo <= j < hi) :: b[j] == a[j]
  }

  /** How far a message has been processed: what is done and what the engine would still
      produce make up the whole transform. */
  ghost predicate Progress(e: Engine, iv0: Bytes, msg: Bytes, iv: Bytes, done: Bytes, pos: nat)
    requires Sized(e) && |iv0| == |iv| == e.size
  {
    && pos <= |msg|
    && Transform(e, iv0, msg) == done + Transform(e, iv, msg[pos..])
    && IvAfter(e, iv0, msg) == IvAfter(e, iv, msg[pos..])
  }

  lemma ProgressBlock(e: Engine, iv0: Bytes, msg: Bytes, iv: Bytes, done: Bytes, pos: nat, length: nat)
    requires Sized(e) && |iv0| == |iv| == e.size && Progress(e, iv0, msg, iv, done, pos)
    requires 0 < length <= e.size && pos + length <= |msg| && (length == e.size || pos + length == |msg|)
    ensures var b := Pad(e.size, msg[pos..pos + length]);
            |e.out(iv, b)| == |e.next(iv, b)| == e.size &&
            Progress(e, iv0, msg, e.next(iv, b), done + e.out(iv, b)[..length], pos + length)
  {
    var rest := msg[pos..];
    var b := Pad(e.size, msg[pos..pos + length]);
    assert rest[..length] == msg[pos..pos + length] && rest[length..] == msg[pos + length..];
    if length == e.size {
      assert b == rest[..length];
    } else {
      assert rest == msg[pos..pos + length];
      assert rest[length..] == [];
    }
  }

  /** The source still holds the part of the message from position `pos` on. */
  ghost predicate Unread(mem: Bytes, from: nat, msg: Bytes, pos: nat) {
    from + |msg| <= |mem| && forall j | pos <= j < |msg| :: mem[from + j] == msg[j]
  }

  /** The whole state of the loop: `was` is the destination array before the call. */
  ghost predicate Midway(e: Engine, iv0: Bytes, msg: Bytes, iv: Bytes, mem: Bytes, from: nat,
                         was: Bytes, now: Bytes, to: nat, pos: nat)
    requires Sized(e) && |iv0| == |iv| == e.size
  {
    && pos <= |msg| && to + |msg| <= |now|
    && Progress(e, iv0, msg, iv, now[to..to + pos], pos)
    && Unread(mem, from, msg, pos)
    && SameOutside(was, now, to, to + pos)
  }

  lemma MidwayStart(e: Engine, iv: Bytes, mem: Bytes, from: nat, was: Bytes, to: nat, n: nat)
    requires Sized(e) && |iv| == e.size && from + n <= |mem| && to + n <= |was|
    ensures Midway(e, iv, mem[from..from + n], iv, mem, from, was, was, to, 0)
  {
    var msg := mem[from..from + n];
    assert msg[0..] == msg && was[to..to + 0] == [];
  }

  lemma MidwayEnd(e: Engine, iv0: Bytes, msg: Bytes, iv: Bytes, mem: Bytes, from: nat, was: Bytes, now: Bytes, to: nat)
    requires Sized(e) && |iv0| == |iv| == e.size && Midway(e, iv0, msg, iv, mem, from, was, now, to, |msg|)
    ensures to + |msg| <= |now| && now[to..to + |msg|] == Transform(e, iv0, msg)
    ensures SameOutside(was, now, to, to + |msg|) && iv == IvAfter(e, iv0, msg)
  {
    assert msg[|msg|..] == [];
  }

  /** One more block, or the zero-padded rest. */
  lemma MidwayNext(e: Engine, iv0: Bytes, msg: Bytes, iv: Bytes, mem: Bytes, mem': Bytes, from: nat,
                   was: Bytes, now: Bytes, now': Bytes, to: nat, pos: nat, length: nat, same: bool)
    requires Sized(e) && |iv0| == |iv| == e.size
    requires Midway(e, iv0, msg, iv, mem, from, was, now, to, pos)
    requires 0 < length <= e.size && pos + length <= |msg| && (length == e.size || pos + length == |msg|)
    requires SameOutside(now, now', to + pos, to + pos + length)
    requires var b := Pad(e.size, msg[pos..pos + length]);
             |e.out(iv, b)| == e.size && now'[to + pos..to + pos + length] == e.out(iv, b)[..length]
    requires if same then mem == now && mem' == now' && SafeOverlap(e.size, true, from, to, |msg|) else mem' == mem
    ensures var iv' := e.next(iv, Pad(e.size, msg[pos..pos + length]));
            |iv'| == e.size && Midway(e, iv0, msg, iv', mem', from, was, now', to, pos + length)
  {
    ProgressBlock(e, iv0, msg, iv, now[to..to + pos], pos, length);
    assert now'[to..to + pos] == now[to..to + pos];
    assert now'[to..to + pos + length] == now'[to..to + pos] + now'[to + pos..to + pos + length];
  }

  // ---- the pass is the transform

  /** A pass that did what it should: the transform is stored, nothing else has changed, and
      the chaining value is the message's. */
  ghost predicate Fulfils(e: Engine, iv0: Bytes, msg: Bytes, was: Bytes, to: nat, dest: Bytes, iv: Bytes)
    requires Sized(e) && |iv0| == e.size
  {
    && to + |msg| <= |dest| && dest[to..to + |msg|] == Transform(e, iv0, msg)
    && SameOutside(was, dest, to, to + |msg|) && iv == IvAfter(e, iv0, msg)
  }

  lemma PutFacts(m: Memory, at: nat, piece: Bytes)
    requires at + |piece| <= |m.dest| && (m.one ==> |m.src| == |m.dest|)
    ensures m.Put(at, piece).dest[at..at + |piece|] == piece
    ensures SameOutside(m.dest, m.Put(at, piece).dest, at, at + |piece|)
    ensures m.Put(at, piece).src == if m.one then m.Put(at, piece).dest else m.src
  {
  }

  /** What holds between two blocks of a pass that is safe: of the memory, and of the blocks
      taken. */
  ghost predicate OnTheWay(e: Engine, iv0: Bytes, msg: Bytes, from: nat, was: Bytes, to: nat, s: State)
    requires Sized(e) && |iv0| == e.size
  {
    && |s.iv| == e.size && (s.m.one ==> s.m.src == s.m.dest)
    && Midway(e, iv0, msg, s.iv, s.m.src, from, was, s.m.dest, to, s.pos)
  }

  ghost predicate TookAll(size: nat, msg: Bytes, pos: nat, took: seq<Bytes>)
    requires size > 0
  {
    pos <= |msg| && (pos % size == 0 || pos == |msg|) && took == Blocks(size, msg[..pos])
  }

  /** What is read is still the message. */
  lemma ReadsMessage(size: nat, msg: Bytes, mem: Bytes, from: nat, pos: nat, k: nat)
    requires pos + k <= |msg| && k <= size && Unread(mem, from, msg, pos)
    ensures Pad(size, mem[from + pos..from + pos + k]) == Pad(size, msg[pos..pos + k])
  {
    assert mem[from + pos..from + pos + k] == msg[pos..pos + k];
  }

  /** So a round stores the output for a block of the message. */
  lemma RoundStores(e: Engine, msg: Bytes, from: nat, to: nat, s: State, t: State, k: nat, b: Bytes)
    requires Round(e, from, to, |msg|, s, t) && Unread(s.m.src, from, msg, s.pos)
    requires k == Chunk(e.size, |msg| - s.pos) && b == Pad(e.size, msg[s.pos..s.pos + k])
    ensures |e.out(s.iv, b)| == e.size && t.m == s.m.Put(to + s.pos, e.out(s.iv, b)[..k])
    ensures t.iv == e.next(s.iv, b) && t.pos == s.pos + k
  {
    ReadsMessage(e.size, msg, s.m.src, from, s.pos, k);
  }

  lemma RoundOnTheWay(e: Engine, iv0: Bytes, msg: Bytes, from: nat, was: Bytes, to: nat, s: State, t: State)
    requires Sized(e) && |iv0| == e.size && OnTheWay(e, iv0, msg, from, was, to, s)
    requires Round(e, from, to, |msg|, s, t) && SafeOverlap(e.size, s.m.one, from, to, |msg|)
    ensures OnTheWay(e, iv0, msg, from, was, to, t) && t.m.one == s.m.one
  {
    var k := Chunk(e.size, |msg| - s.pos);
    var b := Pad(e.size, msg[s.pos..s.pos + k]);
    RoundStores(e, msg, from, to, s, t, k, b);
    PutOnTheWay(e, iv0, msg, s.iv, s.m, from, was, to, s.pos, k, b, t.m);
  }

  lemma PutOnTheWay(e: Engine, iv0: Bytes, msg: Bytes, iv: Bytes, m: Memory, from: nat, was: Bytes, to: nat, pos: nat,
                    k: nat, b: Bytes, m': Memory)
    requires Sized(e) && |iv0| == |iv| == e.size && (m.one ==> m.src == m.dest)
    requires Midway(e, iv0, msg, iv, m.src, from, was, m.dest, to, pos) && SafeOverlap(e.size, m.one, from, to, |msg|)
    requires pos < |msg| && k == Chunk(e.size, |msg| - pos) && b == Pad(e.size, msg[pos..pos + k])
    requires |e.out(iv, b)| == e.size && m' == m.Put(to + pos, e.out(iv, b)[..k])
    ensures |e.next(iv, b)| == e.size && m'.one == m.one && (m'.one ==> m'.src == m'.dest)
    ensures Midway(e, iv0, msg, e.next(iv, b), m'.src, from, was, m'.dest, to, pos + k)
  {
    PutFacts(m, to + pos, e.out(iv, b)[..k]);
    MidwayNext(e, iv0, msg, iv, m.src, m'.src, from, was, m.dest, m'.dest, to, pos, k, m.one);
  }

  lemma RoundTakes(e: Engine, msg: Bytes, from: nat, to: nat, s: State, t: State)
    requires Round(e, from, to, |msg|, s, t) && TookAll(e.size, msg, s.pos, s.took)
    requires Unread(s.m.src, from, msg, s.pos)
    ensures TookAll(e.size, msg, t.pos, t.took)
  {
    var k := Chunk(e.size, |msg| - s.pos);
    ReadsMessage(e.size, msg, s.m.src, from, s.pos, k);
    TookNext(e.size, msg, s.pos, k);
  }

  lemma TookNext(size: nat, msg: Bytes, pos: nat, k: nat)
    requires size > 0 && pos < |msg| && pos % size == 0 && k == Chunk(size, |msg| - pos)
    ensures Blocks(size, msg[..pos + k]) == Blocks(size, msg[..pos]) + [Pad(size, msg[pos..pos + k])]
    ensures (pos + k) % size == 0 || pos + k == |msg|
  {
    BlocksNext(size, msg, pos, k);
    if k == size {
      Residue(pos + k, size, pos / size + 1, 0);
    }
  }

  lemma {:induction false} RoundsOnTheWay(e: Engine, iv0: Bytes, msg: Bytes, from: nat, was: Bytes, to: nat,
                                          run: seq<State>, i: nat)
    requires Sized(e) && |iv0| == e.size && Rounds(e, from, to, |msg|, run) && i < |run|
    requires OnTheWay(e, iv0, msg, from, was, to, run[0]) && SafeOverlap(e.size, run[0].m.one, from, to, |msg|)
    ensures OnTheWay(e, iv0, msg, from, was, to, run[i]) && run[i].m.one == run[0].m.one
    ensures TookAll(e.size, msg, run[i].pos, run[i].took)
  {
    if i > 0 {
      RoundsOnTheWay(e, iv0, msg, from, was, to, run, i - 1);
      assert Round(e, from, to, |msg|, run[i - 1], run[i - 1 + 1]);
      RoundOnTheWay(e, iv0, msg, from, was, to, run[i - 1], run[i]);
      RoundTakes(e, msg, from, to, run[i - 1], run[i]);
    } else {
      assert msg[..0] == [];
    }
  }

  /** When nothing is overwritten before it is read, a pass stores the transform of the
      message and nothing else, and the engine takes the message's blocks. */
  lemma PassIsTransform(e: Engine, from: nat, to: nat, n: nat, run: seq<State>)
    requires Pass(e, from, to, n, run) && (run[0].m.one ==> run[0].m.src == run[0].m.dest)
    requires SafeOverlap(e.size, run[0].m.one, from, to, n)
    ensures var s, t, msg := run[0], Last(run), run[0].m.src[from..from + n];
            Fulfils(e, s.iv, msg, s.m.dest, to, t.m.dest, t.iv) && t.took == Blocks(e.size, msg)
  {
    var s, t, msg := run[0], Last(run), run[0].m.src[from..from + n];
    MidwayStart(e, s.iv, s.m.src, from, s.m.dest, to, n);
    RoundsOnTheWay(e, s.iv, msg, from, s.m.dest, to, run, |run| - 1);
    MidwayEnd(e, s.iv, msg, t.iv, t.m.src, from, s.m.dest, t.m.dest, to);
    assert msg[..n] == msg;
  }

  // ---- and otherwise it is not

  /** Every pass within one memory stores the transform of the message, for every engine of
      this block size, every initial value and every contents. */
  ghost predicate PassesInPlace(size: nat, from: nat, to: nat, n: nat) {
    forall e: Engine, run: seq<State> {:trigger Pass(e, from, to, n, run)}
      | e.size == size && Pass(e, from, to, n, run) && run[0].m.one && run[0].m.src == run[0].m.dest ::
      to + n <= |Last(run).m.dest|
      && Last(run).m.dest[to..to + n] == Transform(e, run[0].iv, run[0].m.src[from..from + n])
  }

  /** An engine that gives every block back. */
  ghost predicate Echoes(e: Engine) {
    && Sized(e)
    && (forall v: Bytes, b: Bytes {:trigger e.out(v, b)} | |v| == |b| == e.size :: e.out(v, b) == b)
    && (forall v: Bytes, b: Bytes {:trigger e.next(v, b)} | |v| == |b| == e.size :: e.next(v, b) == v)
  }

  function Identity(size: nat): Engine {
    Engine(size, (v: Bytes, b: Bytes) => b, (v: Bytes, b: Bytes) => v)
  }

  lemma IdentityEchoes(size: nat)
    requires size > 0
    ensures Echoes(Identity(size))
  {
  }

  lemma {:induction false} EchoTransform(e: Engine, iv: Bytes, src: Bytes)
    requires Echoes(e) && |iv| == e.size
    ensures Transform(e, iv, src) == src
    decreases |src|
  {
    if |src| >= e.size {
      EchoTransform(e, iv, src[e.size..]);
      assert src[..e.size] + src[e.size..] == src;
    } else if src != [] {
      TransformPart(e, iv, src);
    }
  }

  /** A round that reads zeros and overwrites all that is not zero. */
  lemma EchoRound(e: Engine, from: nat, to: nat, n: nat, s: State, t: State, z: Bytes)
    requires Echoes(e) && Round(e, from, to, n, s, t)
    requires s.m == Memory(true, s.m.dest, s.m.dest) && z == Zeros(|s.m.dest|)
    requires var k := Chunk(e.size, n - s.pos);
             && s.m.src[from + s.pos..from + s.pos + k] == Zeros(k)
             && forall j | 0 <= j < |s.m.dest| && !(to + s.pos <= j < to + s.pos + k) :: s.m.dest[j] == 0
    ensures t.m == Memory(true, z, z)
  {
    var k, b := Chunk(e.size, n - s.pos), Zeros(e.size);
    assert BlockAt(e, s.m, from + s.pos, k) == b;
    assert e.out(s.iv, b) == b;
    PutFacts(s.m, to + s.pos, b[..k]);
    assert s.m.Put(to + s.pos, b[..k]).dest == z;
  }

  lemma ZerosSlice(z: Bytes, from: nat, k: nat)
    requires z == Zeros(|z|) && from + k <= |z|
    ensures z[from..from + k] == Zeros(k)
  {
  }

  lemma {:induction false} StaysZero(e: Engine, from: nat, to: nat, n: nat, run: seq<State>, z: Bytes, i: nat)
    requires Echoes(e) && Rounds(e, from, to, n, run) && 1 <= i < |run|
    requires z == Zeros(|z|) && run[1].m == Memory(true, z, z)
    ensures run[i].m == Memory(true, z, z)
  {
    if i > 1 {
      StaysZero(e, from, to, n, run, z, i - 1);
      var s := run[i - 1];
      assert Round(e, from, to, n, run[i - 1], run[i - 1 + 1]);
      ZerosSlice(z, from + s.pos, Chunk(e.size, n - s.pos));
      EchoRound(e, from, to, n, s, run[i], z);
    }
  }

  /** Zero bytes but for one at `at`. */
  function MarkedAt(len: nat, at: nat): (mem: Bytes)
    ensures |mem| == len
  {
    seq(len, i => if i == at then 1 else 0)
  }

  /** Where the first block overwrites a byte that is still to be read. */
  function LostAt(size: nat, from: nat, to: nat): nat {
    if to < from + size then from + size else to
  }

  lemma MarkLost(e: Engine, from: nat, to: nat, n: nat, run: seq<State>, mem: Bytes)
    requires Echoes(e) && !SafeOverlap(e.size, true, from, to, n) && Pass(e, from, to, n, run)
    requires mem == MarkedAt(to + n, LostAt(e.size, from, to)) && run[0].m == Memory(true, mem, mem)
    ensures Last(run).m.dest == Zeros(to + n)
  {
    var z := Zeros(to + n);
    assert Round(e, from, to, n, run[0], run[0 + 1]);
    assert mem[from..from + e.size] == Zeros(e.size);
    EchoRound(e, from, to, n, run[0], run[1], z);
    StaysZero(e, from, to, n, run, z, |run| - 1);
  }

  /** So that byte is lost. */
  lemma UnsafeFails(e: Engine, from: nat, to: nat, n: nat)
    requires Echoes(e) && !SafeOverlap(e.size, true, from, to, n)
    ensures !PassesInPlace(e.size, from, to, n)
  {
    var at, iv, z := LostAt(e.size, from, to), Zeros(e.size), Zeros(to + n);
    var mem := MarkedAt(to + n, at);
    var msg := mem[from..from + n];
    var run := PassExists(e, from, to, n, Start(Memory(true, mem, mem), iv));
    MarkLost(e, from, to, n, run, mem);
    EchoTransform(e, iv, msg);
    assert msg[at - from] == 1 && z[to..to + n][at - from] == 0;
  }

  /** Within one memory a pass is the transform exactly when the overlap is safe. */
  lemma PassesInPlaceExactly(size: nat, from: nat, to: nat, n: nat)
    requires size > 0
    ensures PassesInPlace(size, from, to, n) <==> SafeOverlap(size, true, from, to, n)
  {
    if SafeOverlap(size, true, from, to, n) {
      forall e: Engine, run: seq<State>
        | e.size == size && Pass(e, from, to, n, run) && run[0].m.one && run[0].m.src == run[0].m.dest
        ensures to + n <= |Last(run).m.dest|
                && Last(run).m.dest[to..to + n] == Transform(e, run[0].iv, run[0].m.src[from..from + n])
      {
        PassIsTransform(e, from, to, n, run);
      }
    } else {
      IdentityEchoes(size);
      UnsafeFails(Identity(size), from, to, n);
    }
  }
}
