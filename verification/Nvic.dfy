/** The interrupt controller's registers, the effect of each driver call on them
    (driverlib/interrupt.c), and the table of interrupts they stand for. */
module Nvic {
  const NUM_INTERRUPTS: nat := 195
  const NUM_BANKS: nat := 6
  const NUM_PRI: nat := 53

  const FAULT_NMI: nat := 2
  const FAULT_MPU: nat := 4
  const FAULT_BUS: nat := 5
  const FAULT_USAGE: nat := 6
  const FAULT_SVCALL: nat := 11
  const FAULT_DEBUG: nat := 12
  const FAULT_PENDSV: nat := 14
  const FAULT_SYSTICK: nat := 15

  // ---- words

  /** Byte `i` of a word, from the low end. */
  function Byte(w: nat, i: nat): nat {
    if i == 0 then w % 256 else Byte(w / 256, i - 1)
  }

  /** The word with byte `i` replaced by `b`. */
  function WithByte(w: nat, i: nat, b: nat): nat {
    if i == 0 then w - w % 256 + b else w % 256 + 256 * WithByte(w / 256, i - 1, b)
  }

  function Weight(i: nat): nat {
    if i == 0 then 1 else 256 * Weight(i - 1)
  }

  lemma ShiftProduct(d: int, y: nat)
    ensures d * (256 * y) == 256 * (d * y)
  {
  }

  /** The driver's own expression for it: masking byte `i` out and or-ing `b` in. */
  lemma {:induction false} WithByteIsMask(w: nat, i: nat, b: nat)
    ensures WithByte(w, i, b) == w + (b - Byte(w, i)) * Weight(i)
  {
    if i > 0 {
      WithByteIsMask(w / 256, i - 1, b);
      ShiftProduct(b - Byte(w, i), Weight(i - 1));
      assert w == w % 256 + 256 * (w / 256);
    }
  }

  /** Replacing a byte replaces that byte and no other. */
  lemma {:induction false} WithByteBytes(w: nat, i: nat, b: nat, j: nat)
    requires b < 256
    ensures Byte(WithByte(w, i, b), j) == if i == j then b else Byte(w, j)
  {
    var v := WithByte(w, i, b);
    if i == 0 {
      assert v % 256 == b && v / 256 == w / 256;
    } else {
      assert v % 256 == w % 256 && v / 256 == WithByte(w / 256, i - 1, b);
      if j > 0 {
        WithByteBytes(w / 256, i - 1, b, j - 1);
      }
    }
  }

  /** Bytes and their weights in numbers. */
  lemma ByteIs(w: nat)
    ensures Byte(w, 0) == w % 256 && Weight(0) == 1
    ensures Byte(w, 1) == w / 256 % 256 && Weight(1) == 256
    ensures Byte(w, 2) == w / 65536 % 256 && Weight(2) == 65536
    ensures Byte(w, 3) == w / 16777216 % 256 && Weight(3) == 16777216
  {
    assert w / 256 / 256 == w / 65536 && w / 65536 / 256 == w / 16777216;
    assert Byte(w, 2) == Byte(w / 256, 1) == Byte(w / 256 / 256, 0);
    assert Byte(w, 3) == Byte(w / 256, 2) == Byte(w / 65536, 1) == Byte(w / 65536 / 256, 0);
    assert Weight(2) == 256 * Weight(1) && Weight(3) == 256 * Weight(2);
  }

  // ---- registers

  /** The bank register and the bit of a peripheral interrupt. */
  function Bank(n: nat): (k: nat)
    requires 16 <= n < NUM_INTERRUPTS
    ensures k < NUM_BANKS
  {
    (n - 16) / 32
  }

  function Bit(n: nat): (b: nat)
    requires 16 <= n
    ensures b < 32
  {
    (n - 16) % 32
  }

  /** The priority register and the byte of an interrupt. */
  function PriReg(n: nat): (k: nat)
    requires n < NUM_INTERRUPTS
    ensures k < NUM_PRI
  {
    n / 4
  }

  function PriByte(n: nat): (i: nat)
    ensures i < 4
  {
    n % 4
  }

  /** `en` and `pend` are the enable and pending banks as the sets of their 1 bits, `pri` the
      priority registers as the driver's table numbers them, `faults` the enabled fault
      handlers in SYS_HND_CTRL, `tick` the SysTick interrupt enable, and the last three the
      pending bits that INT_CTRL shows. */
  datatype Regs = Regs(en: seq<set<nat>>, pend: seq<set<nat>>, pri: seq<nat>, faults: set<nat>, tick: bool,
                       nmi: bool, pendSv: bool, pendSt: bool)

  /** The exceptions below 16 that have a programmable priority. */
  predicate HasPriority(n: nat) {
    n >= 16 || n in {FAULT_MPU, FAULT_BUS, FAULT_USAGE, FAULT_SVCALL, FAULT_DEBUG, FAULT_PENDSV, FAULT_SYSTICK}
  }

  /** What the hardware keeps of a priority byte: its top three bits, or nothing. */
  function Kept(n: nat, b: nat): nat {
    if HasPriority(n) then b - b % 32 else 0
  }

  /** What the hardware keeps of the low `count` bytes of a word, byte 0 of which belongs
      to interrupt `n`. */
  function KeptWord(n: nat, w: nat, count: nat): nat
    decreases count
  {
    if count == 0 then 0 else Kept(n, w % 256) + 256 * KeptWord(n + 1, w / 256, count - 1)
  }

  /** What priority register `r` holds after the word `w` is written to it. */
  function Latch(r: nat, w: nat): nat {
    KeptWord(4 * r, w, 4)
  }

  predicate Shape(r: Regs) {
    |r.en| == |r.pend| == NUM_BANKS && |r.pri| == NUM_PRI
  }

  /** Priority register `k` can hold the word `w`. */
  predicate Stored(k: nat, w: nat) {
    Latch(k, w) == w
  }

  ghost predicate Valid(r: Regs) {
    Shape(r) && forall k: nat | k < NUM_PRI :: Stored(k, r.pri[k])
  }

  datatype Call = Enable(n: nat) | Disable(n: nat) | PendSet(n: nat) | PendClear(n: nat) | PrioritySet(n: nat, p: nat)

  /** A write to INT_CTRL. Asking to set and to clear the same pending bit at once has an
      outcome the architecture does not fix: `u`. */
  function WriteIntCtrl(r: Regs, nmi: bool, svSet: bool, svClear: bool, stSet: bool, stClear: bool, u: bool): Regs {
    r.(nmi := r.nmi || nmi,
       pendSv := if svSet && svClear then u else if svSet then true else if svClear then false else r.pendSv,
       pendSt := if stSet && stClear then u else if stSet then true else if stClear then false else r.pendSt)
  }

  /** The write-one registers act on the addressed bit only; INT_CTRL is read, changed and
      written back as a whole. */
  function Effect(r: Regs, call: Call, u: bool): (e: Regs)
    requires Shape(r)
    requires call.n < NUM_INTERRUPTS && (call.PrioritySet? ==> call.n >= 4)
    ensures Shape(e)
  {
    match call
    case Enable(n) =>
      if n == FAULT_MPU || n == FAULT_BUS || n == FAULT_USAGE then r.(faults := r.faults + {n})
      else if n == FAULT_SYSTICK then r.(tick := true)
      else if n >= 16 then r.(en := r.en[Bank(n) := r.en[Bank(n)] + {Bit(n)}])
      else r
    case Disable(n) =>
      if n == FAULT_MPU || n == FAULT_BUS || n == FAULT_USAGE then r.(faults := r.faults - {n})
      else if n == FAULT_SYSTICK then r.(tick := false)
      else if n >= 16 then r.(en := r.en[Bank(n) := r.en[Bank(n)] - {Bit(n)}])
      else r
    case PendSet(n) =>
      if n == FAULT_NMI then WriteIntCtrl(r, true, r.pendSv, false, r.pendSt, false, u)
      else if n == FAULT_PENDSV then WriteIntCtrl(r, r.nmi, true, false, r.pendSt, false, u)
      else if n == FAULT_SYSTICK then WriteIntCtrl(r, r.nmi, r.pendSv, false, true, false, u)
      else if n >= 16 then r.(pend := r.pend[Bank(n) := r.pend[Bank(n)] + {Bit(n)}])
      else r
    case PendClear(n) =>
      if n == FAULT_PENDSV then WriteIntCtrl(r, r.nmi, r.pendSv, true, r.pendSt, false, u)
      else if n == FAULT_SYSTICK then WriteIntCtrl(r, r.nmi, r.pendSv, false, r.pendSt, true, u)
      else if n >= 16 then r.(pend := r.pend[Bank(n) := r.pend[Bank(n)] - {Bit(n)}])
      else r
    case PrioritySet(n, p) =>
      r.(pri := r.pri[PriReg(n) := Latch(PriReg(n), WithByte(r.pri[PriReg(n)], PriByte(n), p))])
  }

  // ---- the table the registers stand for

  datatype Irq = Irq(enabled: bool, pending: bool, priority: nat)

  function Record(r: Regs, n: nat): Irq
    requires Shape(r) && n < NUM_INTERRUPTS
  {
    Irq(if n >= 16 then Bit(n) in r.en[Bank(n)] else if n == FAULT_SYSTICK then r.tick else n in r.faults,
        if n >= 16 then Bit(n) in r.pend[Bank(n)]
        else if n == FAULT_NMI then r.nmi
        else if n == FAULT_PENDSV then r.pendSv
        else n == FAULT_SYSTICK && r.pendSt,
        Byte(r.pri[PriReg(n)], PriByte(n)))
  }

  /** What each call promises: a change of one field of one record. */
  predicate CanEnable(n: nat) {
    n >= 16 || n in {FAULT_MPU, FAULT_BUS, FAULT_USAGE, FAULT_SYSTICK}
  }

  predicate CanPend(n: nat) {
    n >= 16 || n in {FAULT_NMI, FAULT_PENDSV, FAULT_SYSTICK}
  }

  predicate CanUnpend(n: nat) {
    n >= 16 || n in {FAULT_PENDSV, FAULT_SYSTICK}
  }

  function Promise(call: Call, i: Irq): Irq {
    match call
    case Enable(n) => if CanEnable(n) then i.(enabled := true) else i
    case Disable(n) => if CanEnable(n) then i.(enabled := false) else i
    case PendSet(n) => if CanPend(n) then i.(pending := true) else i
    case PendClear(n) => if CanUnpend(n) then i.(pending := false) else i
    case PrioritySet(n, p) => i.(priority := Kept(n, p))
  }

  predicate ValidCall(call: Call) {
    call.n < NUM_INTERRUPTS && (call.PrioritySet? ==> call.n >= 4 && call.p < 256)
  }

  /** The call asks INT_CTRL to clear a pending bit that reads back as set. */
  predicate Conflicts(r: Regs, call: Call) {
    call.PendClear? && ((call.n == FAULT_PENDSV && r.pendSv) || (call.n == FAULT_SYSTICK && r.pendSt))
  }

  // ---- one call

  lemma KeptTwice(n: nat, b: nat)
    requires b < 256
    ensures Kept(n, b) < 256 && Kept(n, Kept(n, b)) == Kept(n, b)
  {
    assert (b - b % 32) % 32 == 0;
  }

  /** The three implemented bits keep each of the eight priority levels, whatever the low bits of
      the byte are; an exception with a fixed priority keeps none. */
  lemma LevelKept(n: nat, level: nat, low: nat)
    requires level < 8 && low < 32
    ensures Kept(n, 32 * level + low) == if n >= 16 || n in {4, 5, 6, 11, 12, 14, 15} then 32 * level else 0
  {
    assert (32 * level + low) % 32 == low;
  }

  lemma ByteJoin(b: nat, x: nat)
    requires b < 256
    ensures (b + 256 * x) % 256 == b && (b + 256 * x) / 256 == x
  {
  }

  lemma ByteSplit(v: nat, b: nat, x: nat, i: nat)
    requires b < 256 && v == b + 256 * x
    ensures Byte(v, i) == if i == 0 then b else Byte(x, i - 1)
  {
    ByteJoin(b, x);
  }

  lemma {:induction false} KeptWordBytes(n: nat, w: nat, count: nat, i: nat)
    requires i < count
    ensures Byte(KeptWord(n, w, count), i) == Kept(n + i, Byte(w, i))
    decreases count
  {
    KeptTwice(n, w % 256);
    ByteSplit(KeptWord(n, w, count), Kept(n, w % 256), KeptWord(n + 1, w / 256, count - 1), i);
    ByteSplit(w, w % 256, w / 256, i);
    if i > 0 {
      KeptWordBytes(n + 1, w / 256, count - 1, i - 1);
    }
  }

  lemma {:induction false} KeptWordTwice(n: nat, w: nat, count: nat)
    ensures KeptWord(n, KeptWord(n, w, count), count) == KeptWord(n, w, count)
    decreases count
  {
    if count > 0 {
      KeptTwice(n, w % 256);
      KeptWordTwice(n + 1, w / 256, count - 1);
    }
  }

  lemma PriorityRegister(k: nat, v: nat, i: nat, p: nat, j: nat)
    requires Stored(k, v) && i < 4 && j < 4 && p < 256
    ensures Byte(Latch(k, WithByte(v, i, p)), j) == if i == j then Kept(4 * k + i, p) else Byte(v, j)
  {
    KeptWordBytes(4 * k, WithByte(v, i, p), 4, j);
    WithByteBytes(v, i, p, j);
    KeptWordBytes(4 * k, v, 4, j);
  }

  lemma EffectValid(r: Regs, call: Call, u: bool)
    requires Valid(r) && ValidCall(call)
    ensures Valid(Effect(r, call, u))
  {
    if call.PrioritySet? {
      var k := PriReg(call.n);
      var w := WithByte(r.pri[k], PriByte(call.n), call.p);
      KeptWordTwice(4 * k, w, 4);
    }
  }

  /** Interrupts count up from 16 through the bits of the banks, so two of them share a bank and
      a bit only if they are the same. */
  lemma BankAndBit(m: nat, n: nat)
    requires 16 <= m < NUM_INTERRUPTS && 16 <= n < NUM_INTERRUPTS
    ensures m == 16 + 32 * Bank(m) + Bit(m)
    ensures Bank(m) == Bank(n) && Bit(m) == Bit(n) <==> m == n
  {
    assert n == 16 + 32 * Bank(n) + Bit(n);
  }

  lemma RegAndByte(m: nat, n: nat)
    requires m < NUM_INTERRUPTS && n < NUM_INTERRUPTS
    ensures PriReg(m) == PriReg(n) && PriByte(m) == PriByte(n) <==> m == n
    ensures m == 4 * PriReg(m) + PriByte(m)
  {
  }

  /** What a call must leave behind for interrupt `n`. */
  ghost predicate KeepsPromise(r: Regs, call: Call, e: Regs, n: nat)
    requires Shape(r) && Shape(e) && ValidCall(call) && n < NUM_INTERRUPTS
  {
    Record(e, n) == if n == call.n then Promise(call, Record(r, n)) else Record(r, n)
  }

  lemma PriorityKeepsPromise(r: Regs, m: nat, p: nat, u: bool, n: nat)
    requires Valid(r) && ValidCall(PrioritySet(m, p)) && n < NUM_INTERRUPTS
    ensures KeepsPromise(r, PrioritySet(m, p), Effect(r, PrioritySet(m, p), u), n)
  {
    RegAndByte(m, n);
    assert Stored(PriReg(m), r.pri[PriReg(m)]);
    PriorityRegister(PriReg(m), r.pri[PriReg(m)], PriByte(m), p, PriByte(n));
  }

  lemma EnableKeepsPromise(r: Regs, call: Call, u: bool, n: nat)
    requires Shape(r) && ValidCall(call) && n < NUM_INTERRUPTS && (call.Enable? || call.Disable?)
    ensures KeepsPromise(r, call, Effect(r, call, u), n)
  {
    if n >= 16 && call.n >= 16 {
      BankAndBit(n, call.n);
    }
  }

  lemma PendKeepsPromise(r: Regs, call: Call, u: bool, n: nat)
    requires Shape(r) && ValidCall(call) && n < NUM_INTERRUPTS && (call.PendSet? || call.PendClear?)
    requires !Conflicts(r, call)
    ensures KeepsPromise(r, call, Effect(r, call, u), n)
  {
    if n >= 16 && call.n >= 16 {
      BankAndBit(n, call.n);
    }
  }

  /** Every call changes its own interrupt's record as promised and no other interrupt's -
      unless it has to clear a pending bit that INT_CTRL shows as set. */
  lemma CallKeepsPromise(r: Regs, call: Call, u: bool, n: nat)
    requires Valid(r) && ValidCall(call) && n < NUM_INTERRUPTS && !Conflicts(r, call)
    ensures KeepsPromise(r, call, Effect(r, call, u), n)
  {
    match call
    case Enable(_) => EnableKeepsPromise(r, call, u, n);
    case Disable(_) => EnableKeepsPromise(r, call, u, n);
    case PendSet(_) => PendKeepsPromise(r, call, u, n);
    case PendClear(_) => PendKeepsPromise(r, call, u, n);
    case PrioritySet(m, p) => PriorityKeepsPromise(r, m, p, u, n);
  }

  /** So each of the eight levels that is set reads back, for every interrupt with a programmable
      priority. */
  lemma LevelReadsBack(r: Regs, n: nat, level: nat, u: bool)
    requires Valid(r) && 4 <= n < NUM_INTERRUPTS && level < 8
    requires n >= 16 || n in {4, 5, 6, 11, 12, 14, 15}
    ensures Record(Effect(r, PrioritySet(n, 32 * level), u), n).priority == 32 * level
  {
    CallKeepsPromise(r, PrioritySet(n, 32 * level), u, n);
    LevelKept(n, level, 0);
  }

  /** Whatever the hardware does in that case, the call keeps its promise exactly when there
      is no such conflict: a pending PendSV or SysTick is the one thing that the clear call
      cannot be relied on to clear. */
  lemma PromiseKeptExactly(r: Regs, call: Call)
    requires Valid(r) && ValidCall(call)
    ensures (forall u: bool, n: nat | n < NUM_INTERRUPTS :: KeepsPromise(r, call, Effect(r, call, u), n)) <==>
            !Conflicts(r, call)
  {
    if !Conflicts(r, call) {
      forall u: bool, n: nat | n < NUM_INTERRUPTS
        ensures KeepsPromise(r, call, Effect(r, call, u), n)
      {
        CallKeepsPromise(r, call, u, n);
      }
    } else {
      ConflictBreaksPromise(r, call);
    }
  }

  lemma ConflictBreaksPromise(r: Regs, call: Call)
    requires Shape(r) && ValidCall(call) && Conflicts(r, call)
    ensures !KeepsPromise(r, call, Effect(r, call, true), call.n)
  {
  }

  // ---- runs of calls

  /** The simple table: one record per interrupt. */
  function Update(t: map<nat, Irq>, call: Call): map<nat, Irq> {
    if call.n in t then t[call.n := Promise(call, t[call.n])] else t
  }

  function Table(r: Regs): map<nat, Irq>
    requires Shape(r)
  {
    map n: nat | n < NUM_INTERRUPTS :: Record(r, n)
  }

  function RunTable(t: map<nat, Irq>, calls: seq<Call>): map<nat, Irq>
    decreases |calls|
  {
    if calls == [] then t else RunTable(Update(t, calls[0]), calls[1..])
  }

  ghost predicate ValidCalls(calls: seq<Call>) {
    forall k | 0 <= k < |calls| :: ValidCall(calls[k])
  }

  /** A run of calls on the registers; each call may meet a different outcome `us[k]`. */
  function Run(r: Regs, calls: seq<Call>, us: seq<bool>): Regs
    requires Valid(r) && ValidCalls(calls) && |us| == |calls|
    decreases |calls|
  {
    if calls == [] then r
    else
      EffectValid(r, calls[0], us[0]);
      Run(Effect(r, calls[0], us[0]), calls[1..], us[1..])
  }

  /** No call of the run has to clear a pending bit that INT_CTRL shows as set when it is made. */
  ghost predicate NoConflicts(r: Regs, calls: seq<Call>, us: seq<bool>)
    requires Valid(r) && ValidCalls(calls) && |us| == |calls|
    decreases |calls|
  {
    calls == [] ||
    (&& !Conflicts(r, calls[0])
     && (EffectValid(r, calls[0], us[0]);
         NoConflicts(Effect(r, calls[0], us[0]), calls[1..], us[1..])))
  }

  lemma EffectTable(r: Regs, call: Call, u: bool)
    requires Valid(r) && ValidCall(call) && !Conflicts(r, call)
    ensures Table(Effect(r, call, u)) == Update(Table(r), call)
  {
    forall n: nat | n < NUM_INTERRUPTS
      ensures KeepsPromise(r, call, Effect(r, call, u), n)
    {
      CallKeepsPromise(r, call, u, n);
    }
    SameTables(r, call, Effect(r, call, u));
  }

  lemma SameTables(r: Regs, call: Call, e: Regs)
    requires Shape(r) && Shape(e) && ValidCall(call)
    requires forall n: nat | n < NUM_INTERRUPTS :: KeepsPromise(r, call, e, n)
    ensures Table(e) == Update(Table(r), call)
  {
    var t := Update(Table(r), call);
    assert Table(e).Keys == t.Keys;
    forall n | n in t
      ensures Table(e)[n] == t[n]
    {
      assert KeepsPromise(r, call, e, n);
    }
  }

  lemma {:induction false} RunValid(r: Regs, calls: seq<Call>, us: seq<bool>)
    requires Valid(r) && ValidCalls(calls) && |us| == |calls|
    ensures Valid(Run(r, calls, us))
    decreases |calls|
  {
    if calls != [] {
      EffectValid(r, calls[0], us[0]);
      RunValid(Effect(r, calls[0], us[0]), calls[1..], us[1..]);
    }
  }

  /** After any run of calls without a conflict the packed registers decode to the simple table
      that the same calls produce. */
  lemma {:induction false} RunRefinesTable(r: Regs, calls: seq<Call>, us: seq<bool>)
    requires Valid(r) && ValidCalls(calls) && |us| == |calls| && NoConflicts(r, calls, us)
    ensures Valid(Run(r, calls, us)) && Table(Run(r, calls, us)) == RunTable(Table(r), calls)
    decreases |calls|
  {
    RunValid(r, calls, us);
    if calls != [] {
      EffectValid(r, calls[0], us[0]);
      EffectTable(r, calls[0], us[0]);
      RunRefinesTable(Effect(r, calls[0], us[0]), calls[1..], us[1..]);
    }
  }

  /** Calls on peripheral interrupts never conflict. */
  lemma {:induction false} PeripheralsNeverConflict(r: Regs, calls: seq<Call>, us: seq<bool>)
    requires Valid(r) && ValidCalls(calls) && |us| == |calls|
    requires forall k | 0 <= k < |calls| :: calls[k].n >= 16
    ensures NoConflicts(r, calls, us)
    decreases |calls|
  {
    if calls != [] {
      EffectValid(r, calls[0], us[0]);
      PeripheralsNeverConflict(Effect(r, calls[0], us[0]), calls[1..], us[1..]);
    }
  }
}
