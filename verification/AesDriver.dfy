/** The AES driver functions of driverlib/aes.c on the block engine. */
module AesDriver {
  import opened Arithmetic
  import opened BlockEngine
  import opened CryptoEngine
  import opened InPlace
  import opened Wrappers

  const AES_BLOCK: nat := 16

  ghost predicate AesDevice(dev: Device)
    reads dev
  {
    && dev.Valid() && dev.setup.engine.size == AES_BLOCK
    && forall a: Absorbed {:trigger dev.setup.tagOf(a)} :: |dev.setup.tagOf(a)| == AES_BLOCK
  }

  // ---- the register-level functions

  method AESIVSet(dev: Device, iv: Bytes)
    requires AesDevice(dev) && |iv| == AES_BLOCK
    modifies dev`core
    ensures AesDevice(dev) && dev.core == old(dev.core).(iv := iv)
  {
    dev.core := dev.core.(iv := iv);
  }

  /** A new configuration keeps the engine's save-context flag. */
  method AESConfigSet(dev: Device, config: Setup)
    requires AesDevice(dev) && config.engine.size == AES_BLOCK && Sized(config.engine)
    requires forall a: Absorbed {:trigger config.tagOf(a)} :: |config.tagOf(a)| == AES_BLOCK
    modifies dev`setup
    ensures AesDevice(dev) && dev.setup == config.(saveContext := config.saveContext || old(dev.setup.saveContext))
  {
    dev.setup := if dev.setup.saveContext then config.(saveContext := true) else config;
  }

  /** Writing the length, in two 32-bit halves, starts a new context. */
  method AESDataLengthSet(dev: Device, ui64Length: nat)
    requires AesDevice(dev) && ui64Length < U32 * U32
    modifies dev`core
    ensures AesDevice(dev) && dev.core == old(dev.core).(
              dataLeft := ui64Length, absorbed := Absorbed(old(dev.core.absorbed.authLength), ui64Length, [], []))
  {
    var lsw, msw := ui64Length % U32, ui64Length / U32;
    dev.core := dev.core.(dataLeft := msw * U32 + lsw,
                          absorbed := Absorbed(dev.core.absorbed.authLength, msw * U32 + lsw, [], []));
  }

  method AESAuthDataLengthSet(dev: Device, ui32Length: nat)
    requires AesDevice(dev) && ui32Length < U32
    modifies dev`core
    ensures AesDevice(dev) && dev.core == old(dev.core).(
              authLeft := ui32Length, absorbed := old(dev.core.absorbed).(authLength := ui32Length))
  {
    dev.core := dev.core.(authLeft := ui32Length, absorbed := dev.core.absorbed.(authLength := ui32Length));
  }

  /** A length outside 1 to 16 is ignored; otherwise the bytes go in as one zero-padded block
      as soon as the input buffer is free. */
  method AESDataWrite(dev: Device, src: array<bv8>, off: nat, ui8Length: nat)
    requires AesDevice(dev) && Settled(dev.setup, dev.core).input == None
    requires 1 <= ui8Length <= 16 ==> off + ui8Length <= src.Length
    modifies dev`core, dev`latency
    ensures AesDevice(dev)
    ensures dev.core == if 1 <= ui8Length <= 16
                        then Settled(dev.setup, old(dev.core)).(
                               input := Some(Pad(AES_BLOCK, src[off..off + ui8Length])))
                        else old(dev.core)
  {
    if ui8Length == 0 || ui8Length > 16 {
      return;
    }
    dev.WaitInput();
    var block := CopyIn(src, off, ui8Length, AES_BLOCK);
    dev.PutBlock(block[..]);
  }

  /** A length outside 1 to 16 is ignored; otherwise the first bytes of the next output block
      are stored. */
  method AESDataRead(dev: Device, dest: array<bv8>, off: nat, ui8Length: nat)
    requires AesDevice(dev)
    requires 1 <= ui8Length <= 16 ==> off + ui8Length <= dest.Length && Settled(dev.setup, dev.core).output != None
    modifies dev`core, dev`latency, dest
    ensures AesDevice(dev)
    ensures 1 <= ui8Length <= 16 ==>
              && dev.core == Settled(dev.setup, old(dev.core)).(output := None)
              && |Settled(dev.setup, old(dev.core)).output.value| == AES_BLOCK
              && dest[off..off + ui8Length] == Settled(dev.setup, old(dev.core)).output.value[..ui8Length]
              && forall j | 0 <= j < dest.Length && !(off <= j < off + ui8Length) :: dest[j] == old(dest[j])
    ensures !(1 <= ui8Length <= 16) ==> dev.core == old(dev.core) && dest[..] == old(dest[..])
  {
    if ui8Length == 0 || ui8Length > 16 {
      return;
    }
    dev.WaitOutput();
    var b := dev.TakeBlock();
    CopyOut(b, dest, off, ui8Length);
  }

  /** The tag of what has been absorbed. */
  method AESTagRead(dev: Device, tag: array<bv8>, off: nat)
    requires AesDevice(dev) && TagReady(dev.setup, dev.core) && off + AES_BLOCK <= tag.Length
    modifies tag
    ensures tag[off..off + AES_BLOCK] == dev.setup.tagOf(dev.core.absorbed)
    ensures SameOutside(old(tag[..]), tag[..], off, off + AES_BLOCK)
  {
    CopyOut(dev.setup.tagOf(dev.core.absorbed), tag, off, AES_BLOCK);
  }

  // ---- processing

  /** A write and a read of up to one block. */
  method WriteAndRead(dev: Device, src: array<bv8>, from: nat, dest: array<bv8>, to: nat, length: nat)
    requires AesDevice(dev) && GivesBack(dev.setup, dev.core) && Fits(dev.setup, Settled(dev.setup, dev.core))
    requires 1 <= length <= 16 && from + length <= src.Length && to + length <= dest.Length
    modifies dev`core, dev`latency, dest
    ensures AesDevice(dev) && Quiet(dev.core)
    ensures var b, iv := Pad(AES_BLOCK, old(src[from..from + length])), Settled(dev.setup, old(dev.core)).iv;
            && dev.core == AfterBlock(dev.setup, old(dev.core), b)
            && dev.core.iv == dev.setup.engine.next(iv, b)
            && |dev.setup.engine.out(iv, b)| == AES_BLOCK
            && dest[to..to + length] == dev.setup.engine.out(iv, b)[..length]
    ensures forall j | 0 <= j < dest.Length && !(to <= j < to + length) :: dest[j] == old(dest[j])
  {
    AESDataWrite(dev, src, from, length);
    AESDataRead(dev, dest, to, length);
  }

  /** The same as a round of a pass. */
  method ProcessBlock(dev: Device, src: array<bv8>, from: nat, dest: array<bv8>, to: nat, length: nat)
    requires AesDevice(dev) && GivesBack(dev.setup, dev.core) && Fits(dev.setup, Settled(dev.setup, dev.core))
    requires 1 <= length <= 16 && from + length <= src.Length && to + length <= dest.Length
    modifies dev`core, dev`latency, dest
    ensures AesDevice(dev) && Quiet(dev.core)
    ensures var m, iv := old(MemoryOf(src, dest)), Settled(dev.setup, old(dev.core)).iv;
            && dev.core == AfterBlock(dev.setup, old(dev.core), BlockAt(dev.setup.engine, m, from, length))
            && dev.core.iv == dev.setup.engine.next(iv, BlockAt(dev.setup.engine, m, from, length))
            && MemoryOf(src, dest) == AfterRound(dev.setup.engine, iv, m, from, to, length)
  {
    ghost var e, m, iv := dev.setup.engine, MemoryOf(src, dest), Settled(dev.setup, dev.core).iv;
    assert src[from..from + length] == m.src[from..from + length];
    WriteAndRead(dev, src, from, dest, to, length);
    RoundStored(e, iv, m, MemoryOf(src, dest), from, to, length, e.out(iv, BlockAt(e, m, from, length)));
  }

  /** The state of the device and the arrays is that of a pass between two blocks. */
  ghost predicate At(s: Setup, c: Core, m: Memory, t: State) {
    Fits(s, Settled(s, c)) && GivesBack(s, c) && t.m == m && t.iv == Settled(s, c).iv
  }

  /** One round of the loops of `AESDataProcess` and `AESDataProcessAE`. */
  method NextBlock(dev: Device, src: array<bv8>, from: nat, dest: array<bv8>, to: nat, n: nat, pos: nat, length: nat,
                   ghost run: seq<State>) returns (ghost run': seq<State>, ghost b: Bytes)
    requires AesDevice(dev) && Rounds(dev.setup.engine, from, to, n, run)
    requires At(dev.setup, dev.core, MemoryOf(src, dest), Last(run))
    requires Last(run).pos == pos < n && length == Chunk(AES_BLOCK, n - pos)
    modifies dev`core, dev`latency, dest
    ensures AesDevice(dev) && Quiet(dev.core) && Rounds(dev.setup.engine, from, to, n, run') && run'[0] == run[0]
    ensures At(dev.setup, dev.core, MemoryOf(src, dest), Last(run')) && Last(run').pos == pos + length
    ensures |b| == AES_BLOCK && Last(run').took == Last(run).took + [b]
    ensures dev.core == AfterBlock(dev.setup, old(dev.core), b)
  {
    RoundsGood(dev.setup.engine, from, to, n, run);
    ghost var s := Last(run);
    b := BlockAt(dev.setup.engine, s.m, from + pos, length);
    ProcessBlock(dev, src, from + pos, dest, to + pos, length);
    ghost var t := State(MemoryOf(src, dest), dev.core.iv, pos + length, s.took + [b]);
    RoundsExtend(dev.setup.engine, from, to, n, run, t);
    run' := run + [t];
  }

  /** The loop of `AESDataProcess` over the whole blocks. */
  method WholeBlocks(dev: Device, src: array<bv8>, from: nat, dest: array<bv8>, to: nat, n: nat, ui32BlkCount: nat,
                     ghost start: State) returns (ghost run: seq<State>)
    requires AesDevice(dev) && dev.setup.kind == Basic && Good(dev.setup.engine, from, to, n, start)
    requires At(dev.setup, dev.core, MemoryOf(src, dest), start) && start.pos == 0 && start.took == []
    requires 16 * ui32BlkCount <= n
    modifies dev`core, dev`latency, dest
    ensures AesDevice(dev) && Rounds(dev.setup.engine, from, to, n, run) && run[0] == start
    ensures At(dev.setup, dev.core, MemoryOf(src, dest), Last(run)) && Last(run).pos == 16 * ui32BlkCount
  {
    run := [start];
    var ui32Count := 0;
    while ui32Count < ui32BlkCount
      invariant 0 <= ui32Count <= ui32BlkCount
      invariant AesDevice(dev) && Rounds(dev.setup.engine, from, to, n, run) && run[0] == start
      invariant At(dev.setup, dev.core, MemoryOf(src, dest), Last(run)) && Last(run).pos == 16 * ui32Count
    {
      ghost var b;
      run, b := NextBlock(dev, src, from, dest, to, n, 16 * ui32Count, 16, run);
      ui32Count := ui32Count + 1;
    }
  }

  /** `AESDataProcess`: the arrays go through the rounds of one pass. So, as long as nothing is
      overwritten before it is read, the destination receives the configured mode's transform
      of the source, of any length below 2^32, no byte outside it changes, and the engine is
      left with the mode's chaining value. */
  method AESDataProcess(dev: Device, src: array<bv8>, from: nat, dest: array<bv8>, to: nat, ui32Length: nat)
    returns (ok: bool, ghost run: seq<State>)
    requires AesDevice(dev) && dev.setup.kind == Basic && Quiet(dev.core)
    requires ui32Length < U32 && from + ui32Length <= src.Length && to + ui32Length <= dest.Length
    modifies dev`core, dev`latency, dest
    ensures ok && AesDevice(dev) && Quiet(dev.core)
    ensures Pass(dev.setup.engine, from, to, ui32Length, run)
    ensures run[0] == Start(old(MemoryOf(src, dest)), old(dev.core.iv))
    ensures Last(run).m == MemoryOf(src, dest) && Last(run).iv == dev.core.iv
    ensures SafeOverlap(AES_BLOCK, src == dest, from, to, ui32Length) ==>
              Fulfils(dev.setup.engine, old(dev.core.iv), old(src[..][from..from + ui32Length]),
                      old(dest[..]), to, dest[..], dev.core.iv)
  {
    ghost var start := Start(MemoryOf(src, dest), dev.core.iv);
    AESDataLengthSet(dev, ui32Length);
    var ui32BlkCount := ui32Length / 16;
    run := WholeBlocks(dev, src, from, dest, to, ui32Length, ui32BlkCount, start);
    var ui32ByteCount := ui32Length % 16;
    if ui32ByteCount != 0 {
      ghost var b;
      run, b := NextBlock(dev, src, from, dest, to, ui32Length, 16 * ui32BlkCount, ui32ByteCount, run);
    }
    if SafeOverlap(AES_BLOCK, src == dest, from, to, ui32Length) {
      PassIsTransform(dev.setup.engine, from, to, ui32Length, run);
    }
    ok := true;
  }
}
