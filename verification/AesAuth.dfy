/** The AES driver functions that authenticate: AESDataMAC and AESDataProcessAE of
    driverlib/aes.c. */
module AesAuth {
  import opened Arithmetic
  import opened BlockEngine
  import opened CryptoEngine
  import opened InPlace
  import opened Wrappers
  import opened AesDriver
  import opened AesMacFeeding

  // ---- AESDataMAC

  /** Once settled, the engine has taken the blocks `fed` of a message and nothing else of its
      state has changed from `base`, except how much is left. */
  ghost predicate Taken(s: Setup, c: Core, base: Core, fed: seq<Bytes>, left: nat) {
    Settled(s, c) == base.(dataLeft := left, absorbed := base.absorbed.(fed := fed))
  }

  /** One write of `AESDataMAC`. */
  method FeedBlock(dev: Device, src: array<bv8>, off: nat, length: nat, ghost base: Core, ghost fed: seq<Bytes>,
                   ghost left: nat)
    requires AesDevice(dev) && dev.setup.kind == Mac && Quiet(base) && Taken(dev.setup, dev.core, base, fed, left)
    requires 1 <= length <= 16 && off + length <= src.Length
    modifies dev`core, dev`latency
    ensures AesDevice(dev)
    ensures Taken(dev.setup, dev.core, base, fed + [Pad(AES_BLOCK, src[off..off + length])], Less(left, 16))
  {
    AESDataWrite(dev, src, off, length);
  }

  /** `AESDataMAC` returns the tag of the blocks that `MacFed` says it feeds. */
  method AESDataMAC(dev: Device, src: array<bv8>, from: nat, ui32Length: nat, tag: array<bv8>, to: nat)
    returns (ok: bool)
    requires AesDevice(dev) && dev.setup.kind == Mac && dev.setup.saveContext && Quiet(dev.core)
    requires ui32Length < U32 && from + Reach(ui32Length) <= src.Length && to + AES_BLOCK <= tag.Length
    modifies dev`core, dev`latency, tag
    ensures ok && AesDevice(dev) && Quiet(dev.core)
    ensures dev.core.absorbed ==
            Absorbed(old(dev.core.absorbed.authLength), ui32Length, [], MacFed(old(src[from..]), ui32Length))
    ensures GoodLength(ui32Length) ==> dev.core.absorbed.fed == MacMeant(old(src[from..]), ui32Length)
    ensures dev.core == old(dev.core).(dataLeft := 0, absorbed := dev.core.absorbed)
    ensures tag[..][to..to + AES_BLOCK] == dev.setup.tagOf(dev.core.absorbed)
    ensures SameOutside(old(tag[..]), tag[..], to, to + AES_BLOCK)
  {
    AESDataLengthSet(dev, ui32Length);
    ghost var base, mem := dev.core, src[from..];
    var ui32BlkCount := ui32Length / 16;
    Tail(ui32Length);
    FeedWhole(dev, src, from, ui32Length, base, mem, ui32BlkCount);
    var ui32Count := ui32BlkCount;
    var ui32ByteCount := ui32Length % 16;
    if ui32ByteCount != 0 {
      var off := ui32Count * ui32BlkCount % U32;
      assert src[from + off..from + off + ui32ByteCount] == mem[off..off + ui32ByteCount];
      FeedBlock(dev, src, from + off, ui32ByteCount, base, Blocks(16, mem[..16 * ui32BlkCount]), ui32ByteCount);
    }
    if GoodLength(ui32Length) {
      FedIsMeant(mem, ui32Length);
    }
    dev.WaitTag();
    AESTagRead(dev, tag, to);
    ok := true;
  }

  /** The loop of `AESDataMAC` over the whole blocks. */
  method FeedWhole(dev: Device, src: array<bv8>, from: nat, n: nat, ghost base: Core, ghost mem: Bytes,
                   ui32BlkCount: nat)
    requires AesDevice(dev) && dev.setup.kind == Mac && Quiet(base) && Taken(dev.setup, dev.core, base, [], n)
    requires from <= src.Length && mem == src[from..] && 16 * ui32BlkCount <= n <= |mem|
    modifies dev`core, dev`latency
    ensures AesDevice(dev)
    ensures Taken(dev.setup, dev.core, base, Blocks(16, mem[..16 * ui32BlkCount]), n - 16 * ui32BlkCount)
  {
    var ui32Count := 0;
    while ui32Count < ui32BlkCount
      invariant 0 <= ui32Count <= ui32BlkCount && AesDevice(dev)
      invariant Taken(dev.setup, dev.core, base, Blocks(16, mem[..16 * ui32Count]), n - 16 * ui32Count)
    {
      var off := 16 * ui32Count;
      FeedBlock(dev, src, from + off, 16, base, Blocks(16, mem[..off]), n - off);
      assert src[from + off..from + off + 16] == mem[off..off + 16];
      assert off % 16 == 0;
      BlocksNext(16, mem, off, 16);
      ui32Count := ui32Count + 1;
    }
  }

  // ---- AESDataProcessAE

  /** The 32-bit loop counter after `k` rounds. */
  function Counter(k: nat): nat {
    if k == 0 then 0 else (Counter(k - 1) + 16) % U32
  }

  /** The loop guard fails after some number of rounds. */
  ghost predicate LoopEnds(n: nat) {
    exists k: nat :: Counter(k) >= n
  }

  lemma {:induction false} CounterBelow(k: nat)
    ensures Counter(k) <= U32 - 16 && Counter(k) % 16 == 0
  {
    if k > 0 {
      CounterBelow(k - 1);
    }
  }

  lemma {:induction false} CounterAt(k: nat)
    requires 16 * k < U32
    ensures Counter(k) == 16 * k
  {
    if k > 0 {
      CounterAt(k - 1);
    }
  }

  /** The loops of `AESDataProcessAE` end exactly for lengths up to 2^32 - 16. */
  lemma LoopEndsExactly(n: nat)
    ensures LoopEnds(n) <==> n <= U32 - 16
  {
    if n <= U32 - 16 {
      var k := (n + 15) / 16;
      CounterAt(k);
      assert Counter(k) >= n;
    }
    forall k: nat | Counter(k) >= n
      ensures n <= U32 - 16
    {
      CounterBelow(k);
    }
  }

  /** A length rounded up to whole blocks. */
  function RoundUp(n: nat): (r: nat)
    ensures n <= r < n + 16 && r % 16 == 0
  {
    (n + 15) / 16 * 16
  }

  lemma LastRound(n: nat, count: nat)
    requires n <= count <= RoundUp(n) && count % 16 == 0
    ensures count == RoundUp(n) && Less(n, count) == 0
  {
  }

  /** One round of either loop. */
  lemma LoopRound(n: nat, count: nat)
    requires count < n <= U32 - 16 && count % 16 == 0 && count <= RoundUp(n)
    ensures (count + 16) % U32 == count + 16 <= RoundUp(n) && (count + 16) % 16 == 0
    ensures Less(Less(n, count), 16) == Less(n, count + 16) && Less(n, count) > 0
    ensures count < RoundUp(n) && Chunk(16, RoundUp(n) - count) == 16
  {
  }

  /** `AESDataProcessAE`: the engine takes the additional data's blocks and then the message's,
      each once and in order, and for each of the message's blocks one output block is stored,
      in the rounds of one pass; then its tag is stored, over whatever is there. */
  method AESDataProcessAE(dev: Device, src: array<bv8>, from: nat, dest: array<bv8>, to: nat, ui32Length: nat,
                          authSrc: array<bv8>, authFrom: nat, ui32AuthLength: nat, tag: array<bv8>, tagTo: nat)
    returns (ok: bool, ghost run: seq<State>)
    requires AesDevice(dev) && dev.setup.kind == Combined && dev.setup.saveContext && Quiet(dev.core)
    requires ui32Length <= U32 - 16 && ui32AuthLength <= U32 - 16
    requires from + RoundUp(ui32Length) <= src.Length && to + RoundUp(ui32Length) <= dest.Length
    requires authFrom + RoundUp(ui32AuthLength) <= authSrc.Length && tagTo + AES_BLOCK <= tag.Length
    modifies dev`core, dev`latency, dest, tag
    ensures ok && AesDevice(dev) && Quiet(dev.core)
    ensures Pass(dev.setup.engine, from, to, RoundUp(ui32Length), run)
    ensures run[0] == Start(old(MemoryOf(src, dest)), old(dev.core.iv)) && Last(run).iv == dev.core.iv
    ensures dev.core.absorbed ==
            Absorbed(ui32AuthLength, ui32Length,
                     Blocks(16, old(authSrc[..][authFrom..authFrom + RoundUp(ui32AuthLength)])), Last(run).took)
    ensures SafeOverlap(AES_BLOCK, src == dest, from, to, RoundUp(ui32Length)) ==>
              var msg := old(src[..][from..from + RoundUp(ui32Length)]);
              && Fulfils(dev.setup.engine, old(dev.core.iv), msg, old(dest[..]), to, Last(run).m.dest, dev.core.iv)
              && Last(run).took == Blocks(16, msg)
    ensures tag[..][tagTo..tagTo + AES_BLOCK] == dev.setup.tagOf(dev.core.absorbed)
    ensures SameOutside(if tag == dest then Last(run).m.dest else old(tag[..]), tag[..], tagTo, tagTo + AES_BLOCK)
    ensures tag != dest ==> dest[..] == Last(run).m.dest
  {
    ghost var start, e, n := Start(MemoryOf(src, dest), dev.core.iv), dev.setup.engine, RoundUp(ui32Length);
    ghost var msg, was, iv0 := src[..][from..from + n], dest[..], dev.core.iv;
    AESDataLengthSet(dev, ui32Length);
    AESAuthDataLengthSet(dev, ui32AuthLength);
    FeedAuthData(dev, authSrc, authFrom, ui32AuthLength, dev.core);
    run := ProcessData(dev, src, from, dest, to, ui32Length, start, Settled(dev.setup, dev.core));
    if SafeOverlap(AES_BLOCK, src == dest, from, to, n) {
      PassIsTransform(e, from, to, n, run);
      assert Fulfils(e, iv0, msg, was, to, Last(run).m.dest, Last(run).iv) && Last(run).took == Blocks(16, msg);
    }
    dev.WaitTag();
    AESTagRead(dev, tag, tagTo);
    ok := true;
  }

  /** Once settled, the engine has taken the blocks `aad`. */
  ghost predicate AuthTaken(s: Setup, c: Core, base: Core, aad: seq<Bytes>, left: nat) {
    Settled(s, c) == base.(authLeft := left, absorbed := base.absorbed.(aad := aad))
  }

  /** One write of that loop. */
  method FeedAuthBlock(dev: Device, src: array<bv8>, off: nat, ghost base: Core, ghost aad: seq<Bytes>, ghost left: nat)
    requires AesDevice(dev) && dev.setup.kind == Combined && Quiet(base)
    requires left > 0 && AuthTaken(dev.setup, dev.core, base, aad, left) && off + 16 <= src.Length
    modifies dev`core, dev`latency
    ensures AesDevice(dev)
    ensures AuthTaken(dev.setup, dev.core, base, aad + [Pad(AES_BLOCK, src[off..off + 16])], Less(left, 16))
  {
    AESDataWrite(dev, src, off, 16);
  }

  /** The first loop of `AESDataProcessAE`. */
  method FeedAuthData(dev: Device, src: array<bv8>, from: nat, n: nat, ghost base: Core)
    requires AesDevice(dev) && dev.setup.kind == Combined && dev.core == base && Quiet(base)
    requires base.authLeft == n && base.absorbed.aad == [] && n <= U32 - 16 && from + RoundUp(n) <= src.Length
    modifies dev`core, dev`latency
    ensures AesDevice(dev)
    ensures AuthTaken(dev.setup, dev.core, base, Blocks(16, src[..][from..from + RoundUp(n)]), 0)
  {
    ghost var aad := src[..][from..from + RoundUp(n)];
    var ui32Count := 0;
    while ui32Count < n
      invariant ui32Count % 16 == 0 && ui32Count <= RoundUp(n) && AesDevice(dev)
      invariant AuthTaken(dev.setup, dev.core, base, Blocks(16, aad[..ui32Count]), Less(n, ui32Count))
    {
      LoopRound(n, ui32Count);
      assert src[from + ui32Count..from + ui32Count + 16] == aad[ui32Count..ui32Count + 16];
      FeedAuthBlock(dev, src, from + ui32Count, base, Blocks(16, aad[..ui32Count]), Less(n, ui32Count));
      BlocksNext(16, aad, ui32Count, 16);
      ui32Count := (ui32Count + 16) % U32;
    }
    LastRound(n, ui32Count);
    assert aad[..ui32Count] == aad;
  }

  /** Once settled, the engine has taken the blocks `fed` and given back as many. */
  ghost predicate Handed(s: Setup, c: Core, base: Core, fed: seq<Bytes>, left: nat) {
    && Fits(s, Settled(s, c))
    && Settled(s, c) == base.(iv := Settled(s, c).iv, dataLeft := left, absorbed := base.absorbed.(fed := fed))
  }

  lemma HandedNext(s: Setup, c: Core, base: Core, fed: seq<Bytes>, left: nat, b: Bytes)
    requires s.kind == Combined && Quiet(base) && base.authLeft == 0 && Handed(s, c, base, fed, left)
    requires |b| == s.engine.size
    ensures Handed(s, AfterBlock(s, c, b), base, fed + [b], Less(left, s.engine.size))
  {
  }

  /** One round of the second loop. */
  method NextDataBlock(dev: Device, src: array<bv8>, from: nat, dest: array<bv8>, to: nat, n: nat, pos: nat,
                       ghost run: seq<State>, ghost base: Core, ghost left: nat) returns (ghost run': seq<State>)
    requires AesDevice(dev) && dev.setup.kind == Combined && Quiet(base) && base.authLeft == 0
    requires Rounds(dev.setup.engine, from, to, n, run) && At(dev.setup, dev.core, MemoryOf(src, dest), Last(run))
    requires Last(run).pos == pos < n && Chunk(16, n - pos) == 16
    requires Handed(dev.setup, dev.core, base, Last(run).took, left)
    modifies dev`core, dev`latency, dest
    ensures AesDevice(dev) && Rounds(dev.setup.engine, from, to, n, run') && run'[0] == run[0]
    ensures At(dev.setup, dev.core, MemoryOf(src, dest), Last(run')) && Last(run').pos == pos + 16
    ensures Handed(dev.setup, dev.core, base, Last(run').took, Less(left, 16))
  {
    ghost var c := dev.core;
    ghost var b;
    run', b := NextBlock(dev, src, from, dest, to, n, pos, 16, run);
    HandedNext(dev.setup, c, base, Last(run).took, left, b);
  }

  /** The second loop of `AESDataProcessAE`. */
  method ProcessData(dev: Device, src: array<bv8>, from: nat, dest: array<bv8>, to: nat, n: nat,
                     ghost start: State, ghost base: Core) returns (ghost run: seq<State>)
    requires AesDevice(dev) && dev.setup.kind == Combined && base == Settled(dev.setup, dev.core)
    requires Quiet(base) && base.authLeft == 0 && base.dataLeft == n && base.absorbed.fed == []
    requires n <= U32 - 16 && Good(dev.setup.engine, from, to, RoundUp(n), start)
    requires At(dev.setup, dev.core, MemoryOf(src, dest), start) && start.pos == 0 && start.took == []
    modifies dev`core, dev`latency, dest
    ensures AesDevice(dev) && Pass(dev.setup.engine, from, to, RoundUp(n), run) && run[0] == start
    ensures At(dev.setup, dev.core, MemoryOf(src, dest), Last(run))
    ensures Handed(dev.setup, dev.core, base, Last(run).took, 0)
  {
    run := [start];
    var ui32Count := 0;
    while ui32Count < n
      invariant ui32Count % 16 == 0 && ui32Count <= RoundUp(n) && AesDevice(dev)
      invariant Rounds(dev.setup.engine, from, to, RoundUp(n), run) && run[0] == start && Last(run).pos == ui32Count
      invariant At(dev.setup, dev.core, MemoryOf(src, dest), Last(run))
      invariant Handed(dev.setup, dev.core, base, Last(run).took, Less(n, ui32Count))
    {
      LoopRound(n, ui32Count);
      run := NextDataBlock(dev, src, from, dest, to, RoundUp(n), ui32Count, run, base, Less(n, ui32Count));
      ui32Count := (ui32Count + 16) % U32;
    }
    LastRound(n, ui32Count);
  }
}
