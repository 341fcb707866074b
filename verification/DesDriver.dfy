/** The DES driver functions of driverlib/des.c on the block engine. */
module DesDriver {
  import opened Arithmetic
  import opened BlockEngine
  import opened CryptoEngine
  import opened InPlace
  import opened Wrappers

  const DES_BLOCK: nat := 8

  ghost predicate DesDevice(dev: Device)
    reads dev
  {
    dev.Valid() && dev.setup.engine.size == DES_BLOCK
  }

  /** What a status read may see: the engine as it was, or after its next step. */
  ghost predicate Seen(s: Setup, was: Core, seen: Core) {
    seen == was || seen == Settled(s, was)
  }

  /** With a length of 1 to 8, and if the status read sees the input buffer free, the bytes go
      in as one zero-padded block; otherwise the result is false and nothing is written. */
  method DESDataWriteNonBlocking(dev: Device, src: array<bv8>, off: nat, ui8Length: nat)
    returns (ok: bool, ghost seen: Core)
    requires DesDevice(dev) && (1 <= ui8Length <= 8 ==> off + ui8Length <= src.Length)
    modifies dev`core, dev`latency
    ensures DesDevice(dev) && Seen(dev.setup, old(dev.core), seen)
    ensures ok <==> 1 <= ui8Length <= 8 && seen.input == None
    ensures dev.core == if ok then seen.(input := Some(Pad(DES_BLOCK, src[off..off + ui8Length]))) else seen
  {
    seen := dev.core;
    if ui8Length == 0 || ui8Length > 8 {
      return false, seen;
    }
    SettledFits(dev.setup, dev.core);
    var inputReady, outputReady, contextReady := dev.ReadCtrl();
    seen := dev.core;
    if !inputReady {
      return false, seen;
    }
    var block := CopyIn(src, off, ui8Length, DES_BLOCK);
    dev.PutBlock(block[..]);
    ok := true;
  }

  /** With a length of 1 to 8, and if the status read sees an output block, its first bytes are
      stored; otherwise the result is false and nothing is stored. */
  method DESDataReadNonBlocking(dev: Device, dest: array<bv8>, off: nat, ui8Length: nat)
    returns (ok: bool, ghost seen: Core)
    requires DesDevice(dev) && (1 <= ui8Length <= 8 ==> off + ui8Length <= dest.Length)
    modifies dev`core, dev`latency, dest
    ensures DesDevice(dev) && Seen(dev.setup, old(dev.core), seen)
    ensures ok <==> 1 <= ui8Length <= 8 && seen.output != None
    ensures dev.core == if ok then seen.(output := None) else seen
    ensures ok ==> |seen.output.value| == DES_BLOCK && dest[off..off + ui8Length] == seen.output.value[..ui8Length]
    ensures forall j | 0 <= j < dest.Length && !(ok && off <= j < off + ui8Length) :: dest[j] == old(dest[j])
  {
    seen := dev.core;
    if ui8Length == 0 || ui8Length > 8 {
      return false, seen;
    }
    SettledFits(dev.setup, dev.core);
    var inputReady, outputReady, contextReady := dev.ReadCtrl();
    seen := dev.core;
    if !outputReady {
      return false, seen;
    }
    var b := dev.TakeBlock();
    CopyOut(b, dest, off, ui8Length);
    ok := true;
  }

  method DESDataWrite(dev: Device, src: array<bv8>, off: nat, ui8Length: nat)
    requires DesDevice(dev) && Settled(dev.setup, dev.core).input == None
    requires 1 <= ui8Length <= 8 ==> off + ui8Length <= src.Length
    modifies dev`core, dev`latency
    ensures DesDevice(dev)
    ensures dev.core == if 1 <= ui8Length <= 8
                        then Settled(dev.setup, old(dev.core)).(
                               input := Some(Pad(DES_BLOCK, src[off..off + ui8Length])))
                        else old(dev.core)
  {
    if ui8Length == 0 || ui8Length > 8 {
      return;
    }
    dev.WaitInput();
    var block := CopyIn(src, off, ui8Length, DES_BLOCK);
    dev.PutBlock(block[..]);
  }

  method DESDataRead(dev: Device, dest: array<bv8>, off: nat, ui8Length: nat)
    requires DesDevice(dev)
    requires 1 <= ui8Length <= 8 ==> off + ui8Length <= dest.Length && Settled(dev.setup, dev.core).output != None
    modifies dev`core, dev`latency, dest
    ensures DesDevice(dev)
    ensures 1 <= ui8Length <= 8 ==>
              && dev.core == Settled(dev.setup, old(dev.core)).(output := None)
              && |Settled(dev.setup, old(dev.core)).output.value| == DES_BLOCK
              && dest[off..off + ui8Length] == Settled(dev.setup, old(dev.core)).output.value[..ui8Length]
              && forall j | 0 <= j < dest.Length && !(off <= j < off + ui8Length) :: dest[j] == old(dest[j])
    ensures !(1 <= ui8Length <= 8) ==> dev.core == old(dev.core) && dest[..] == old(dest[..])
  {
    if ui8Length == 0 || ui8Length > 8 {
      return;
    }
    dev.WaitOutput();
    var b := dev.TakeBlock();
    CopyOut(b, dest, off, ui8Length);
  }

  // ---- processing

  /** A poll, a non-blocking write, a poll and a non-blocking read, as in `DESDataProcess`,
      which drops both results. */
  method PollBlock(dev: Device, src: array<bv8>, from: nat, dest: array<bv8>, to: nat, length: nat)
    returns (ghost written: bool, ghost read: bool)
    requires DesDevice(dev) && dev.setup.kind == Basic && Quiet(dev.core)
    requires 1 <= length <= 8 && from + length <= src.Length && to + length <= dest.Length
    modifies dev`core, dev`latency, dest
    ensures written && read && DesDevice(dev) && Quiet(dev.core)
    ensures var b, iv := Pad(DES_BLOCK, old(src[from..from + length])), old(dev.core.iv);
            && dev.core == AfterBlock(dev.setup, old(dev.core), b)
            && dev.core.iv == dev.setup.engine.next(iv, b)
            && |dev.setup.engine.out(iv, b)| == DES_BLOCK
            && dest[to..to + length] == dev.setup.engine.out(iv, b)[..length]
    ensures forall j | 0 <= j < dest.Length && !(to <= j < to + length) :: dest[j] == old(dest[j])
  {
    ghost var seen;
    dev.WaitInput();
    var ok;
    ok, seen := DESDataWriteNonBlocking(dev, src, from, length);
    written := ok;
    dev.WaitOutput();
    ok, seen := DESDataReadNonBlocking(dev, dest, to, length);
    read := ok;
  }

  /** The same with the blocking read and write. */
  method BlockingBlock(dev: Device, src: array<bv8>, from: nat, dest: array<bv8>, to: nat, length: nat)
    requires DesDevice(dev) && dev.setup.kind == Basic && Quiet(dev.core)
    requires 1 <= length <= 8 && from + length <= src.Length && to + length <= dest.Length
    modifies dev`core, dev`latency, dest
    ensures DesDevice(dev) && Quiet(dev.core)
    ensures var b, iv := Pad(DES_BLOCK, old(src[from..from + length])), old(dev.core.iv);
            && dev.core == AfterBlock(dev.setup, old(dev.core), b)
            && dev.core.iv == dev.setup.engine.next(iv, b)
            && |dev.setup.engine.out(iv, b)| == DES_BLOCK
            && dest[to..to + length] == dev.setup.engine.out(iv, b)[..length]
    ensures forall j | 0 <= j < dest.Length && !(to <= j < to + length) :: dest[j] == old(dest[j])
  {
    DESDataWrite(dev, src, from, length);
    DESDataRead(dev, dest, to, length);
  }

  /** Either of them. */
  method WriteAndRead(dev: Device, src: array<bv8>, from: nat, dest: array<bv8>, to: nat, length: nat, polled: bool)
    returns (ghost lossless: bool)
    requires DesDevice(dev) && dev.setup.kind == Basic && Quiet(dev.core)
    requires 1 <= length <= 8 && from + length <= src.Length && to + length <= dest.Length
    modifies dev`core, dev`latency, dest
    ensures lossless && DesDevice(dev) && Quiet(dev.core)
    ensures var b, iv := Pad(DES_BLOCK, old(src[from..from + length])), old(dev.core.iv);
            && dev.core == AfterBlock(dev.setup, old(dev.core), b)
            && dev.core.iv == dev.setup.engine.next(iv, b)
            && |dev.setup.engine.out(iv, b)| == DES_BLOCK
            && dest[to..to + length] == dev.setup.engine.out(iv, b)[..length]
    ensures forall j | 0 <= j < dest.Length && !(to <= j < to + length) :: dest[j] == old(dest[j])
  {
    lossless := true;
    if polled {
      ghost var written, read := PollBlock(dev, src, from, dest, to, length);
      lossless := written && read;
    } else {
      BlockingBlock(dev, src, from, dest, to, length);
    }
  }

  /** The same as a round of a pass. */
  method ProcessBlock(dev: Device, src: array<bv8>, from: nat, dest: array<bv8>, to: nat, length: nat, polled: bool)
    returns (ghost lossless: bool)
    requires DesDevice(dev) && dev.setup.kind == Basic && Quiet(dev.core)
    requires 1 <= length <= 8 && from + length <= src.Length && to + length <= dest.Length
    modifies dev`core, dev`latency, dest
    ensures lossless && DesDevice(dev) && Quiet(dev.core)
    ensures var m, iv := old(MemoryOf(src, dest)), old(dev.core.iv);
            && dev.core.iv == dev.setup.engine.next(iv, BlockAt(dev.setup.engine, m, from, length))
            && MemoryOf(src, dest) == AfterRound(dev.setup.engine, iv, m, from, to, length)
  {
    ghost var e, m, iv := dev.setup.engine, MemoryOf(src, dest), dev.core.iv;
    assert src[from..from + length] == m.src[from..from + length];
    lossless := WriteAndRead(dev, src, from, dest, to, length, polled);
    RoundStored(e, iv, m, MemoryOf(src, dest), from, to, length, e.out(iv, BlockAt(e, m, from, length)));
  }

  /** The state of the device and the arrays is that of a pass between two blocks. */
  ghost predicate At(c: Core, m: Memory, t: State) {
    Quiet(c) && t.m == m && t.iv == c.iv
  }

  /** One round of the loop of `DESDataProcess`; `polled` chooses between its own calls and
      the blocking ones. */
  method NextBlock(dev: Device, src: array<bv8>, from: nat, dest: array<bv8>, to: nat, n: nat, pos: nat, length: nat,
                   polled: bool, ghost run: seq<State>) returns (ghost lossless: bool, ghost run': seq<State>)
    requires DesDevice(dev) && dev.setup.kind == Basic && Rounds(dev.setup.engine, from, to, n, run)
    requires At(dev.core, MemoryOf(src, dest), Last(run))
    requires Last(run).pos == pos < n && length == Chunk(DES_BLOCK, n - pos)
    modifies dev`core, dev`latency, dest
    ensures lossless && DesDevice(dev) && Rounds(dev.setup.engine, from, to, n, run') && run'[0] == run[0]
    ensures At(dev.core, MemoryOf(src, dest), Last(run')) && Last(run').pos == pos + length
  {
    RoundsGood(dev.setup.engine, from, to, n, run);
    ghost var s := Last(run);
    ghost var b := BlockAt(dev.setup.engine, s.m, from + pos, length);
    lossless := ProcessBlock(dev, src, from + pos, dest, to + pos, length, polled);
    ghost var t := State(MemoryOf(src, dest), dev.core.iv, pos + length, s.took + [b]);
    RoundsExtend(dev.setup.engine, from, to, n, run, t);
    run' := run + [t];
  }

  /** The loop of `DESDataProcess` over the whole blocks. */
  method WholeBlocks(dev: Device, src: array<bv8>, from: nat, dest: array<bv8>, to: nat, n: nat, ui32BlkCount: nat,
                     polled: bool, ghost start: State) returns (ghost lossless: bool, ghost run: seq<State>)
    requires DesDevice(dev) && dev.setup.kind == Basic && Good(dev.setup.engine, from, to, n, start)
    requires At(dev.core, MemoryOf(src, dest), start) && start.pos == 0 && start.took == [] && 8 * ui32BlkCount <= n
    modifies dev`core, dev`latency, dest
    ensures lossless && DesDevice(dev) && Rounds(dev.setup.engine, from, to, n, run) && run[0] == start
    ensures At(dev.core, MemoryOf(src, dest), Last(run)) && Last(run).pos == 8 * ui32BlkCount
  {
    lossless, run := true, [start];
    var ui32Count := 0;
    while ui32Count < ui32BlkCount
      invariant 0 <= ui32Count <= ui32BlkCount && lossless && DesDevice(dev)
      invariant Rounds(dev.setup.engine, from, to, n, run) && run[0] == start
      invariant At(dev.core, MemoryOf(src, dest), Last(run)) && Last(run).pos == 8 * ui32Count
    {
      ghost var kept;
      kept, run := NextBlock(dev, src, from, dest, to, n, 8 * ui32Count, 8, polled, run);
      lossless := lossless && kept;
      ui32Count := ui32Count + 1;
    }
  }

  /** `DESDataProcess`: no result dropped on the way is ever false, and the arrays go through the
      rounds of one pass; so, as long as nothing is overwritten before it is read, the
      destination receives the configured mode's transform of the source, of any length. */
  method DESDataProcess(dev: Device, src: array<bv8>, from: nat, dest: array<bv8>, to: nat, ui32Length: nat)
    returns (ok: bool, ghost lossless: bool, ghost run: seq<State>)
    requires DesDevice(dev) && dev.setup.kind == Basic && Quiet(dev.core)
    requires ui32Length < U32 && from + ui32Length <= src.Length && to + ui32Length <= dest.Length
    modifies dev`core, dev`latency, dest
    ensures ok && lossless && DesDevice(dev) && Quiet(dev.core)
    ensures Pass(dev.setup.engine, from, to, ui32Length, run)
    ensures run[0] == Start(old(MemoryOf(src, dest)), old(dev.core.iv))
    ensures Last(run).m == MemoryOf(src, dest) && Last(run).iv == dev.core.iv
    ensures SafeOverlap(DES_BLOCK, src == dest, from, to, ui32Length) ==>
              Fulfils(dev.setup.engine, old(dev.core.iv), old(src[..][from..from + ui32Length]),
                      old(dest[..]), to, dest[..], dev.core.iv)
  {
    ok, lossless, run := Process(dev, src, from, dest, to, ui32Length, true);
  }

  /** Its body, and, when `polled` is false, the version built from the blocking read and
      write: one contract holds for both. */
  method Process(dev: Device, src: array<bv8>, from: nat, dest: array<bv8>, to: nat, ui32Length: nat, polled: bool)
    returns (ok: bool, ghost lossless: bool, ghost run: seq<State>)
    requires DesDevice(dev) && dev.setup.kind == Basic && Quiet(dev.core)
    requires ui32Length < U32 && from + ui32Length <= src.Length && to + ui32Length <= dest.Length
    modifies dev`core, dev`latency, dest
    ensures ok && lossless && DesDevice(dev) && Quiet(dev.core)
    ensures Pass(dev.setup.engine, from, to, ui32Length, run)
    ensures run[0] == Start(old(MemoryOf(src, dest)), old(dev.core.iv))
    ensures Last(run).m == MemoryOf(src, dest) && Last(run).iv == dev.core.iv
    ensures SafeOverlap(DES_BLOCK, src == dest, from, to, ui32Length) ==>
              Fulfils(dev.setup.engine, old(dev.core.iv), old(src[..][from..from + ui32Length]),
                      old(dest[..]), to, dest[..], dev.core.iv)
  {
    ghost var start := Start(MemoryOf(src, dest), dev.core.iv);
    dev.core := dev.core.(dataLeft := ui32Length);
    var ui32BlkCount := ui32Length / 8;
    lossless, run := WholeBlocks(dev, src, from, dest, to, ui32Length, ui32BlkCount, polled, start);
    var ui32ByteCount := ui32Length % 8;
    if ui32ByteCount != 0 {
      ghost var kept;
      kept, run := NextBlock(dev, src, from, dest, to, ui32Length, 8 * ui32BlkCount, ui32ByteCount, polled, run);
      lossless := lossless && kept;
    }
    if SafeOverlap(DES_BLOCK, src == dest, from, to, ui32Length) {
      PassIsTransform(dev.setup.engine, from, to, ui32Length, run);
    }
    ok := true;
  }
}
