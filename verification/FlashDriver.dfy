/** The flash controller's registers and the driver functions that use them
    (driverlib/flash.c). */
module FlashDriver {
  import opened Arithmetic
  import opened FlashArray
  import opened FlashBits

  /** What the controller is busy with. */
  datatype Operation = Idle | WriteWord | WriteBuffer | EraseOne

  /** A command as issued, with the address register at that moment. */
  datatype Command = Command(op: Operation, fma: nat)

  /** The controller. `fwb` are the 32 write buffer registers and `fwbval` their valid
      bits, `operation` the command in progress and `latency` how many more polls will
      still see it in progress; `volt`, `prog` and `erase` are the raw status bits for a fault
      of the supply voltage, of programming and of erasing, any of which may occur whenever
      an operation completes, and then leaves any contents. */
  class FlashController {
    var cells: Flash
    var fma: nat
    var fmd: Word
    var fwb: seq<Word>
    var fwbval: seq<bool>
    var operation: Operation
    var latency: nat
    var volt: bool
    var prog: bool
    var erase: bool
    ghost var commands: seq<Command>

    ghost predicate Valid()
      reads this
    {
      |fwb| == |fwbval| == BUFFER_WORDS && fma < U32
    }

    /** Nothing in progress and no buffer register waiting to be written. */
    ghost predicate Ready()
      reads this
    {
      Valid() && operation.Idle? && fwbval == Range(0, 0)
    }

    /** No fault of this kind of operation is on record. */
    predicate Sound(erasing: bool)
      reads this
    {
      !volt && if erasing then !erase else !prog
    }

    /** The flash once the operation in progress has completed without a fault. */
    ghost function Settled(): Flash
      requires Valid()
      reads this
    {
      match operation
      case Idle => cells
      case WriteWord => ProgramWord(cells, fma / 4, fmd)
      case WriteBuffer => Commit(cells, fma / 4, fwb, fwbval, 0)
      case EraseOne => ErasePage(cells, fma / 4 / ERASE_WORDS)
    }

    constructor (size: nat)
      ensures Ready() && cells.mem == map[] && cells.size == size && commands == []
    {
      cells := Flash(size, map[], {}, false, false, []);
      volt, prog, erase := false, false, false;
      fma, fmd, latency := 0, 0, 0;
      fwb, fwbval := seq(BUFFER_WORDS, _ => 0), Range(0, 0);
      operation := Idle;
      commands := [];
    }

    /** Writes one of the 32 buffer registers, which marks it valid. */
    method WriteFwb(i: nat, w: Word)
      requires Valid() && i < BUFFER_WORDS
      modifies this`fwb, this`fwbval
      ensures fwb == old(fwb)[i := w] && fwbval == old(fwbval)[i := true]
    {
      fwb, fwbval := fwb[i := w], fwbval[i := true];
    }

    /** Writes the key and a command bit to FMC or FMC2; the hardware takes any time. */
    method Start(op: Operation)
      requires Valid() && operation.Idle? && !op.Idle?
      modifies this`operation, this`latency, this`commands
      ensures operation == op && commands == old(commands) + [Command(op, fma)]
    {
      operation := op;
      latency := *;
      commands := commands + [Command(op, fma)];
    }

    /** Reads the command bit back: still set, or the operation has just completed. */
    method Poll() returns (busy: bool)
      requires Valid()
      modifies this`cells, this`operation, this`latency, this`fwbval, this`volt, this`prog, this`erase
      ensures Valid() && FaultsOf(old(operation), old(volt), old(prog), old(erase))
      ensures Sound(old(operation) == EraseOne) ==> Settled() == old(Settled())
      ensures busy ==> operation == old(operation) && latency < old(latency) && fwbval == old(fwbval)
      ensures !busy ==> operation.Idle?
      ensures !busy ==> fwbval == if old(operation) == WriteBuffer then Range(0, 0) else old(fwbval)
    {
      if operation.Idle? {
        return false;
      }
      if latency > 0 {
        latency := latency - 1;
        return true;
      }
      match operation {
        case WriteWord => cells := ProgramWord(cells, fma / 4, fmd);
        case WriteBuffer =>
          cells := Commit(cells, fma / 4, fwb, fwbval, 0);
          fwbval := Range(0, 0);
        case EraseOne => cells := ErasePage(cells, fma / 4 / ERASE_WORDS);
        case Idle =>
      }
      Complete();
      busy := false;
    }

    /** Faults are only added, and only those of the operation. */
    ghost predicate FaultsOf(op: Operation, volt0: bool, prog0: bool, erase0: bool)
      reads this
    {
      && (volt0 ==> volt) && (prog0 ==> prog) && (erase0 ==> erase)
      && (prog == prog0 || op != EraseOne) && (erase == erase0 || op == EraseOne)
    }

    /** The operation ends, with a fault or without. */
    method Complete()
      requires Valid()
      modifies this`cells, this`operation, this`volt, this`prog, this`erase
      ensures Valid() && operation.Idle? && FaultsOf(old(operation), old(volt), old(prog), old(erase))
      ensures Sound(old(operation) == EraseOne) ==> cells == old(cells)
    {
      var supply: bool, verify: bool := *, *;
      if supply || verify {
        volt := volt || supply;
        if operation == EraseOne {
          erase := erase || verify;
        } else {
          prog := prog || verify;
        }
        var contents: map<nat, Word> := *;
        cells := cells.(mem := contents);
      }
      operation := Idle;
    }

    method WaitUntilDone()
      requires Valid()
      modifies this`cells, this`operation, this`latency, this`fwbval, this`volt, this`prog, this`erase
      ensures Valid() && operation.Idle? && FaultsOf(old(operation), old(volt), old(prog), old(erase))
      ensures Sound(old(operation) == EraseOne) ==> cells == old(Settled())
      ensures fwbval == if old(operation) == WriteBuffer then Range(0, 0) else old(fwbval)
    {
      var busy := Poll();
      while busy
        invariant Valid() && FaultsOf(old(operation), old(volt), old(prog), old(erase))
        invariant Sound(old(operation) == EraseOne) ==> Settled() == old(Settled())
        invariant busy ==> operation == old(operation) && fwbval == old(fwbval)
        invariant !busy ==> operation.Idle?
        invariant !busy ==> fwbval == if old(operation) == WriteBuffer then Range(0, 0) else old(fwbval)
        decreases busy, latency
      {
        busy := Poll();
      }
    }
  }

  /** The buffer holds the data words `from` up to `to`, from register `lo` on, and
      only those registers are valid. */
  ghost predicate Filled(fwb: seq<Word>, fwbval: seq<bool>, lo: nat, data: seq<Word>, from: nat, to: nat)
    requires from <= to <= |data|
  {
    && |fwb| == BUFFER_WORDS && lo + (to - from) <= BUFFER_WORDS
    && fwbval == Range(lo, lo + (to - from))
    && fwb[lo..lo + (to - from)] == data[from..to]
  }

  lemma FilledGrows(fwb: seq<Word>, fwbval: seq<bool>, lo: nat, data: seq<Word>, from: nat, to: nat)
    requires from <= to < |data| && Filled(fwb, fwbval, lo, data, from, to)
    requires lo + (to - from) < BUFFER_WORDS
    ensures var i := lo + (to - from);
            Filled(fwb[i := data[to]], fwbval[i := true], lo, data, from, to + 1)
  {
    var i := lo + (to - from);
    assert fwb[i := data[to]][lo..i + 1] == fwb[lo..i] + [data[to]];
    assert data[from..to + 1] == data[from..to] + [data[to]];
    assert fwbval[i := true] == Range(lo, i + 1);
  }

  /** Where a word-aligned address lies: its block and its register in that block. */
  lemma PlaceInBlock(address: nat)
    requires address < U32 && address % 4 == 0
    ensures var base, lo := address - address % BLOCK, Register(address);
            base % BLOCK == 0 && base + BLOCK <= U32 && address == AddressAfter(base, lo)
  {
    var q, r := address / BLOCK, address % BLOCK;
    assert address == BLOCK * q + r;
    assert r == 4 * (r / 4);
    assert BLOCK * q % BLOCK == 0;
    AddressInBlock(BLOCK * q, r / 4);
  }

  /** One round of the outer loop that both buffered drivers share, up to the command: the
      block's address goes to FMA and words go to the buffer registers of that block, from
      register `lo` on, until the data or the block ends. */
  method LoadBlock(c: FlashController, data: seq<Word>, p0: nat, address0: nat, count0: nat)
    returns (p: nat, address: nat, count: nat, ghost lo: nat)
    requires c.Ready()
    requires address0 < U32 && address0 % 4 == 0
    requires 0 < count0 == 4 * (|data| - p0)
    modifies c`fma, c`fwb, c`fwbval
    ensures c.Valid() && c.fma % BLOCK == 0 && c.fma + BLOCK <= U32
    ensures lo < BUFFER_WORDS && address0 == AddressAfter(c.fma, lo) && c.fma == address0 - address0 % BLOCK
    ensures p0 < p <= |data| && count == 4 * (|data| - p)
    ensures Filled(c.fwb, c.fwbval, lo, data, p0, p)
    ensures address == AddressAfter(c.fma, lo + (p - p0))
    ensures count == 0 || lo + (p - p0) == BUFFER_WORDS
  {
    PlaceInBlock(address0);
    ghost var base := address0 - address0 % BLOCK;
    c.fma := address0 - address0 % BLOCK;
    p, address, count, lo := p0, address0, count0, Register(address0);
    assert Range(0, 0) == Range(lo, lo);
    AddressInBlock(base, lo);
    while (Register(address) != 0 || c.fwbval == Range(0, 0)) && count != 0
      invariant c.fma == base
      invariant p0 <= p <= |data| && count == 4 * (|data| - p)
      invariant Filled(c.fwb, c.fwbval, lo, data, p0, p)
      invariant address == AddressAfter(base, lo + (p - p0))
      invariant Register(address) == if lo + (p - p0) == BUFFER_WORDS then 0 else lo + (p - p0)
      invariant p == p0 || c.fwbval != Range(0, 0)
      decreases count
    {
      ghost var i := lo + (p - p0);
      AddressInBlock(base, i + 1);
      FilledGrows(c.fwb, c.fwbval, lo, data, p0, p);
      c.WriteFwb(Register(address), data[p]);
      assert c.fwbval[i] && !Range(0, 0)[i];
      p, address, count := p + 1, Next(address), count - 4;
    }
  }

  /** One block of the fast form is a stretch of the simple form: committing what
      `LoadBlock` left behind programs data words `p0` up to `p` at their own addresses. */
  lemma CommitStretch(f: Flash, fwb: seq<Word>, fwbval: seq<bool>, data: seq<Word>, a: nat, p0: nat, p: nat, base: nat,
                      lo: nat)
    requires p0 < p <= |data| && base % BLOCK == 0 && base + BLOCK <= U32
    requires Filled(fwb, fwbval, lo, data, p0, p)
    requires AddressAfter(a, p0) == AddressAfter(base, lo)
    ensures Commit(ProgramWords(f, a, data[..p0]), base / 4, fwb, fwbval, 0) == ProgramWords(f, a, data[..p])
    ensures AddressAfter(a, p) == AddressAfter(base, lo + (p - p0))
  {
    CommitIsProgramWords(ProgramWords(f, a, data[..p0]), base, fwb, lo, lo + (p - p0));
    assert data[..p] == data[..p0] + data[p0..p];
    ProgramWordsAppend(f, a, data[..p0], data[p0..p]);
    AddressAfterAdds(a, p0, p - p0);
    AddressAfterAdds(base, lo, p - p0);
  }

  lemma OneMoreWord(f: Flash, a: nat, data: seq<Word>, p: nat)
    requires p < |data|
    ensures ProgramWords(f, a, data[..p + 1]) ==
            ProgramWord(ProgramWords(f, a, data[..p]), AddressAfter(a, p) / 4, data[p])
  {
    ProgramWordsLast(f, a, data[..p + 1]);
    assert data[..p + 1][..p] == data[..p];
  }

  /** What programming from a clear status leads to, bit by bit. */
  lemma Outcome(f: Flash, a: nat, data: seq<Word>)
    requires a < U32 && a % 4 == 0 && |data| <= SPACE
    ensures var g := ProgramWords(f.ClearStatus(), a, data);
            BitsAfter(f, a, data, g) && ReturnCode(g) == if Programmable(f, a, data) then 0 else -1
  {
    var g := ProgramWords(f.ClearStatus(), a, data);
    ProgramBits(f.ClearStatus(), a, data);
    ReturnsZeroExactly(f.ClearStatus(), a, data);
    StatusIgnored(f, a, data, g);
  }

  /** One round of the word-at-a-time loop: a word is written and the command waited for. */
  method ProgramOne(c: FlashController, address: nat, d: Word)
    requires c.Ready() && address < U32
    modifies c
    ensures c.Ready()
    ensures c.Sound(false) ==> old(c.Sound(false)) && c.cells == ProgramWord(old(c.cells), address / 4, d)
  {
    c.fma := address;
    c.fmd := d;
    c.Start(WriteWord);
    c.WaitUntilDone();
  }

  /** The word-at-a-time form of `FlashProgram` (the branch without a write buffer). */
  method FlashProgramWordwise(c: FlashController, data: seq<Word>, ulAddress: nat, ulCount: nat) returns (r: int)
    requires c.Ready()
    requires ulAddress < U32 && ulAddress % 4 == 0 && ulCount < U32 && ulCount == 4 * |data|
    modifies c
    ensures c.Ready()
    ensures c.Sound(false) ==> c.cells == ProgramWords(old(c.cells).ClearStatus(), ulAddress, data)
    ensures c.Sound(false) ==> BitsAfter(old(c.cells), ulAddress, data, c.cells)
    ensures r == if c.Sound(false) && Programmable(old(c.cells), ulAddress, data) then 0 else -1
  {
    c.cells, c.volt, c.prog := c.cells.ClearStatus(), false, false;
    ghost var f := c.cells;
    var p, address, count := 0, ulAddress, ulCount;
    while count != 0
      invariant c.Ready()
      invariant p <= |data| && count == 4 * (|data| - p)
      invariant address == AddressAfter(ulAddress, p)
      invariant c.Sound(false) ==> c.cells == ProgramWords(f, ulAddress, data[..p])
      decreases count
    {
      AddressWraps(ulAddress, p);
      OneMoreWord(f, ulAddress, data, p);
      ProgramOne(c, address, data[p]);
      p, address, count := p + 1, Next(address), count - 4;
    }
    assert data[..p] == data;
    Outcome(old(c.cells), ulAddress, data);
    r := if c.volt || c.prog then -1 else ReturnCode(c.cells);
  }

  /** The buffered form of `FlashProgram`, the one the driver is built with. */
  method FlashProgram(c: FlashController, data: seq<Word>, ulAddress: nat, ulCount: nat) returns (r: int)
    requires c.Ready()
    requires ulAddress < U32 && ulAddress % 4 == 0 && ulCount < U32 && ulCount == 4 * |data|
    modifies c
    ensures c.Ready()
    ensures c.Sound(false) ==> c.cells == ProgramWords(old(c.cells).ClearStatus(), ulAddress, data)
    ensures c.Sound(false) ==> BitsAfter(old(c.cells), ulAddress, data, c.cells)
    ensures r == if c.Sound(false) && Programmable(old(c.cells), ulAddress, data) then 0 else -1
  {
    c.cells, c.volt, c.prog := c.cells.ClearStatus(), false, false;
    ghost var f := c.cells;
    var p, address, count := 0, ulAddress, ulCount;
    while count != 0
      invariant c.Ready()
      invariant p <= |data| && count == 4 * (|data| - p)
      invariant address == AddressAfter(ulAddress, p)
      invariant c.Sound(false) ==> c.cells == ProgramWords(f, ulAddress, data[..p])
      decreases count
    {
      ghost var p0, lo := p, 0;
      AddressWraps(ulAddress, p);
      p, address, count, lo := LoadBlock(c, data, p, address, count);
      CommitStretch(f, c.fwb, c.fwbval, data, ulAddress, p0, p, c.fma, lo);
      c.Start(WriteBuffer);
      c.WaitUntilDone();
    }
    assert data[..p] == data;
    Outcome(old(c.cells), ulAddress, data);
    r := if c.volt || c.prog then -1 else ReturnCode(c.cells);
  }

  /** The guard of the non-blocking driver, in 32-bit arithmetic: do the first and the last
      byte of the range lie in different 128-byte blocks? */
  predicate Straddles(ulAddress: nat, ulCount: nat) {
    var last := (ulAddress + (ulCount - 1) % U32) % U32;
    last - last % BLOCK != ulAddress - ulAddress % BLOCK
  }

  /** Exactly which requests the guard lets through. An empty request passes unless its
      address starts a block, a non-empty one when it fits its block - or when its count
      is so large that the last address wraps round into the first block again. */
  lemma StraddlesExactly(ulAddress: nat, ulCount: nat)
    requires ulAddress < U32 && ulCount < U32
    ensures !Straddles(ulAddress, ulCount) <==>
            if ulCount == 0 then ulAddress % BLOCK != 0
            else ulAddress % BLOCK + ulCount <= BLOCK || U32 < ulAddress % BLOCK + ulCount
  {
    var base, off := ulAddress - ulAddress % BLOCK, ulAddress % BLOCK;
    assert base == BLOCK * (ulAddress / BLOCK);
    if ulCount == 0 {
      assert (ulCount - 1) % U32 == U32 - 1;
      var last := (ulAddress + (U32 - 1)) % U32;
      assert last == if ulAddress == 0 then U32 - 1 else ulAddress - 1;
      if off > 0 {
        SameBlock(last, ulAddress / BLOCK, off - 1);
      }
    } else {
      var sum := ulAddress + ulCount - 1;
      var last := sum % U32;
      assert last == if sum < U32 then sum else sum - U32;
      if off + ulCount <= BLOCK {
        SameBlock(last, ulAddress / BLOCK, off + ulCount - 1);
      } else if U32 < off + ulCount {
        SameBlock(last, ulAddress / BLOCK, off + ulCount - 1 - U32);
      }
    }
  }

  lemma SameBlock(a: nat, q: nat, r: nat)
    requires a == BLOCK * q + r && r < BLOCK
    ensures a - a % BLOCK == BLOCK * q
  {
  }

  /** When the range lies in one block, the first round of the outer loop ends the data and
      its command programs all of it. */
  lemma OneBlockTakesAll(f: Flash, fwb: seq<Word>, fwbval: seq<bool>, data: seq<Word>, a: nat, base: nat, lo: nat,
                         p: nat, goal: Flash)
    requires base % BLOCK == 0 && base + BLOCK <= U32 && 0 < p <= |data| && goal == ProgramWords(f, a, data)
    requires Filled(fwb, fwbval, lo, data, 0, p)
    requires a == AddressAfter(base, lo) && lo < BUFFER_WORDS && Register(a) + |data| <= BUFFER_WORDS
    requires p == |data| || lo + p == BUFFER_WORDS
    ensures p == |data|
    ensures Commit(f, base / 4, fwb, fwbval, 0) == goal
  {
    AddressInBlock(base, lo);
    assert data[..0] == [] && data[..p] == data;
    CommitStretch(f, fwb, fwbval, data, a, 0, p, base, lo);
  }

  /** The guard as the driver evaluates it. */
  method CheckStraddle(ulAddress: nat, ulCount: nat) returns (straddles: bool)
    requires ulAddress < U32 && ulAddress % 4 == 0 && ulCount % 4 == 0 && ulCount < U32
    requires ulAddress % BLOCK + ulCount <= U32
    ensures !straddles <==>
            if ulCount == 0 then Register(ulAddress) != 0 else Register(ulAddress) + ulCount / 4 <= BUFFER_WORDS
  {
    assert ulAddress % BLOCK == 4 * Register(ulAddress);
    StraddlesExactly(ulAddress, ulCount);
    straddles := Straddles(ulAddress, ulCount);
  }

  /** The first round of the outer loop for a range in one block: all its words are loaded... */
  method LoadAll(c: FlashController, data: seq<Word>, ulAddress: nat, ulCount: nat, ghost goal: Flash)
    returns (p: nat, address: nat, count: nat)
    requires c.Ready() && ulAddress < U32 && ulAddress % 4 == 0 && 0 < ulCount == 4 * |data|
    requires Register(ulAddress) + |data| <= BUFFER_WORDS && goal == ProgramWords(c.cells, ulAddress, data)
    modifies c`fma, c`fwb, c`fwbval
    ensures c.Valid() && p == |data| && count == 0 && c.fma == ulAddress - ulAddress % BLOCK
    ensures Commit(c.cells, c.fma / 4, c.fwb, c.fwbval, 0) == goal
  {
    ghost var lo;
    p, address, count, lo := LoadBlock(c, data, 0, ulAddress, ulCount);
    OneBlockTakesAll(c.cells, c.fwb, c.fwbval, data, ulAddress, c.fma, lo, p, goal);
  }

  /** ... and the command is issued. */
  method IssueBlock(c: FlashController, data: seq<Word>, ulAddress: nat, ulCount: nat, ghost goal: Flash)
    returns (p: nat, address: nat, count: nat)
    requires c.Ready() && ulAddress < U32 && ulAddress % 4 == 0 && 0 < ulCount == 4 * |data|
    requires Register(ulAddress) + |data| <= BUFFER_WORDS && goal == ProgramWords(c.cells, ulAddress, data)
    modifies c`fma, c`fwb, c`fwbval, c`operation, c`latency, c`commands
    ensures c.Valid() && p == |data| && count == 0 && c.Settled() == goal
    ensures c.commands == old(c.commands) + [Command(WriteBuffer, ulAddress - ulAddress % BLOCK)]
  {
    p, address, count := LoadAll(c, data, ulAddress, ulCount, goal);
    c.Start(WriteBuffer);
  }

  /** `FlashProgramNonBlocking`. A range is accepted exactly when it lies in one block, unless
      it is so long that it wraps round into its first block; then one buffer command is issued
      and the flash will settle in the state the blocking driver produces. A rejected or an
      empty request issues nothing. */
  method FlashProgramNonBlocking(c: FlashController, data: seq<Word>, ulAddress: nat, ulCount: nat) returns (r: int)
    requires c.Ready()
    requires ulAddress < U32 && ulAddress % 4 == 0 && ulCount < U32 && ulCount == 4 * |data|
    requires ulAddress % BLOCK + ulCount <= U32
    modifies c
    ensures c.Valid() && c.Sound(false)
    ensures r == 0 || r == -1
    ensures r == 0 <==>
            if ulCount == 0 then Register(ulAddress) != 0 else Register(ulAddress) + |data| <= BUFFER_WORDS
    ensures r == -1 || ulCount == 0 ==>
              c.Ready() && c.cells == old(c.cells).ClearStatus() && c.commands == old(c.commands)
    ensures r == 0 && ulCount > 0 ==>
              c.commands == old(c.commands) + [Command(WriteBuffer, ulAddress - ulAddress % BLOCK)]
    ensures r == 0 ==> c.Settled() == ProgramWords(old(c.cells).ClearStatus(), ulAddress, data)
  {
    c.cells, c.volt, c.prog := c.cells.ClearStatus(), false, false;
    ghost var f, goal := c.cells, ProgramWords(c.cells, ulAddress, data);
    var straddles := CheckStraddle(ulAddress, ulCount);
    if straddles {
      return -1;
    }
    var p, address, count := 0, ulAddress, ulCount;
    while count != 0
      invariant c.cells == f && c.Sound(false) && (count == 0 || (p == 0 && count == ulCount && address == ulAddress))
      invariant count != 0 || ulCount == 0 ==> c.Ready() && c.commands == old(c.commands)
      invariant count == 0 ==> c.Valid() && c.Settled() == ProgramWords(f, ulAddress, data)
      invariant count == 0 && ulCount > 0 ==>
                  c.commands == old(c.commands) + [Command(WriteBuffer, ulAddress - ulAddress % BLOCK)]
      decreases count
    {
      p, address, count := IssueBlock(c, data, address, count, goal);
    }
    r := 0;
  }

  /** `FlashErase`: the page is erased unless it is protected or outside the array, and the
      return value says which, or that there was a fault. The invalid-data status bit is not
      one of those the function clears or tests. */
  method FlashErase(c: FlashController, ulAddress: nat) returns (r: int)
    requires c.Ready()
    requires ulAddress < U32 && ulAddress % 0x400 == 0
    modifies c
    ensures c.Ready()
    ensures c.Sound(true) ==> c.cells == ErasePage(old(c.cells).(aris := false), ulAddress / 0x400)
    ensures c.Sound(true) ==> PageErased(old(c.cells), ulAddress / 0x400, c.cells)
    ensures r == if c.Sound(true) && Writable(old(c.cells), ulAddress / 4) then 0 else -1
  {
    EraseOnePage(c.cells, ulAddress);
    c.cells, c.volt, c.erase := c.cells.(aris := false), false, false;
    c.fma := ulAddress;
    c.Start(EraseOne);
    c.WaitUntilDone();
    r := if c.cells.aris || c.volt || c.erase then -1 else 0;
  }
}
