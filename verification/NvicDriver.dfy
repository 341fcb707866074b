/** The functions of driverlib/interrupt.c on the controller's registers. */
module NvicDriver {
  import opened Nvic

  /** Banks of 32 bits with the 1 bit number `i`, counted through all of them, added. */
  function OneAdded(banks: seq<set<nat>>, i: nat): seq<set<nat>>
    requires i / 32 < |banks|
  {
    banks[i / 32 := banks[i / 32] + {i % 32}]
  }

  function OneRemoved(banks: seq<set<nat>>, i: nat): seq<set<nat>>
    requires i / 32 < |banks|
  {
    banks[i / 32 := banks[i / 32] - {i % 32}]
  }

  /** The word `v` is `w` with byte `i` replaced by `b`. */
  ghost predicate ByteReplaced(w: nat, v: nat, i: nat, b: nat) {
    forall j: nat | j < 4 :: Byte(v, j) == if i == j then b else Byte(w, j)
  }

  class Controller {
    var regs: Regs

    constructor ()
      ensures Valid(regs)
    {
      regs := Regs(seq(NUM_BANKS, _ => {}), seq(NUM_BANKS, _ => {}), seq(NUM_PRI, _ => 0), {},
                   false, false, false, false);
      new;
      forall k: nat | k < NUM_PRI ensures Stored(k, regs.pri[k]) {
        ZeroStored(4 * k, 4);
      }
    }

    // ---- register writes

    /** The set-enable and clear-enable banks act on the bits written as 1. */
    method WriteEn(k: nat, ones: set<nat>)
      requires Shape(regs) && k < NUM_BANKS
      modifies this
      ensures regs == old(regs).(en := old(regs).en[k := old(regs).en[k] + ones])
    {
      regs := regs.(en := regs.en[k := regs.en[k] + ones]);
    }

    method WriteDis(k: nat, ones: set<nat>)
      requires Shape(regs) && k < NUM_BANKS
      modifies this
      ensures regs == old(regs).(en := old(regs).en[k := old(regs).en[k] - ones])
    {
      regs := regs.(en := regs.en[k := regs.en[k] - ones]);
    }

    method WritePend(k: nat, ones: set<nat>)
      requires Shape(regs) && k < NUM_BANKS
      modifies this
      ensures regs == old(regs).(pend := old(regs).pend[k := old(regs).pend[k] + ones])
    {
      regs := regs.(pend := regs.pend[k := regs.pend[k] + ones]);
    }

    method WriteUnpend(k: nat, ones: set<nat>)
      requires Shape(regs) && k < NUM_BANKS
      modifies this
      ensures regs == old(regs).(pend := old(regs).pend[k := old(regs).pend[k] - ones])
    {
      regs := regs.(pend := regs.pend[k := regs.pend[k] - ones]);
    }

    /** INT_CTRL; `outcome` is what the hardware made of a set and a clear of one bit. */
    method WriteIntCtrlReg(nmi: bool, svSet: bool, svClear: bool, stSet: bool, stClear: bool)
      returns (ghost outcome: bool)
      modifies this
      ensures regs == WriteIntCtrl(old(regs), nmi, svSet, svClear, stSet, stClear, outcome)
    {
      var u: bool := *;
      outcome := u;
      regs := WriteIntCtrl(regs, nmi, svSet, svClear, stSet, stClear, u);
    }

    // ---- the driver

    method IntPrioritySet(ulInterrupt: nat, ucPriority: nat)
      requires Valid(regs) && 4 <= ulInterrupt < NUM_INTERRUPTS && ucPriority < 256
      modifies this
      ensures Valid(regs) && regs == Effect(old(regs), PrioritySet(ulInterrupt, ucPriority), false)
      ensures regs == old(regs).(pri := old(regs).pri[ulInterrupt / 4 := regs.pri[ulInterrupt / 4]])
      ensures ByteReplaced(old(regs).pri[ulInterrupt / 4], regs.pri[ulInterrupt / 4], ulInterrupt % 4,
                if ulInterrupt >= 16 || ulInterrupt in {4, 5, 6, 11, 12, 14, 15} then ucPriority / 32 * 32 else 0)
    {
      EffectValid(regs, PrioritySet(ulInterrupt, ucPriority), false);
      PriorityByteReplaced(regs, ulInterrupt, ucPriority);
      var k, i := PriReg(ulInterrupt), PriByte(ulInterrupt);
      var ulTemp: int := regs.pri[k];
      WithByteIsMask(ulTemp, i, ucPriority);
      ulTemp := ulTemp + (ucPriority - Byte(ulTemp, i)) * Weight(i);
      regs := regs.(pri := regs.pri[k := Latch(k, ulTemp)]);
    }

    /** Reads back the top three bits of the last priority set. */
    method IntPriorityGet(ulInterrupt: nat) returns (priority: nat)
      requires Valid(regs) && 4 <= ulInterrupt < NUM_INTERRUPTS
      ensures priority == Record(regs, ulInterrupt).priority
      ensures var w, i := regs.pri[ulInterrupt / 4], ulInterrupt % 4;
              priority == w / (if i == 0 then 1 else if i == 1 then 256 else if i == 2 then 65536 else 16777216) % 256
    {
      ByteIs(regs.pri[ulInterrupt / 4]);
      priority := Byte(regs.pri[PriReg(ulInterrupt)], PriByte(ulInterrupt));
    }

    method IntEnable(ulInterrupt: nat)
      requires Valid(regs) && ulInterrupt < NUM_INTERRUPTS
      modifies this
      ensures Valid(regs) && regs == Effect(old(regs), Enable(ulInterrupt), false)
      ensures regs == if ulInterrupt >= 16 then old(regs).(en := OneAdded(old(regs).en, ulInterrupt - 16))
                      else if ulInterrupt == 15 then old(regs).(tick := true)
                      else if ulInterrupt in {4, 5, 6} then old(regs).(faults := old(regs).faults + {ulInterrupt})
                      else old(regs)
    {
      EffectValid(regs, Enable(ulInterrupt), false);
      if ulInterrupt == FAULT_MPU || ulInterrupt == FAULT_BUS || ulInterrupt == FAULT_USAGE {
        regs := regs.(faults := regs.faults + {ulInterrupt});
      } else if ulInterrupt == FAULT_SYSTICK {
        regs := regs.(tick := true);
      } else if ulInterrupt >= 16 {
        WriteEn(Bank(ulInterrupt), {Bit(ulInterrupt)});
      }
    }

    method IntDisable(ulInterrupt: nat)
      requires Valid(regs) && ulInterrupt < NUM_INTERRUPTS
      modifies this
      ensures Valid(regs) && regs == Effect(old(regs), Disable(ulInterrupt), false)
      ensures regs == if ulInterrupt >= 16 then old(regs).(en := OneRemoved(old(regs).en, ulInterrupt - 16))
                      else if ulInterrupt == 15 then old(regs).(tick := false)
                      else if ulInterrupt in {4, 5, 6} then old(regs).(faults := old(regs).faults - {ulInterrupt})
                      else old(regs)
    {
      EffectValid(regs, Disable(ulInterrupt), false);
      if ulInterrupt == FAULT_MPU || ulInterrupt == FAULT_BUS || ulInterrupt == FAULT_USAGE {
        regs := regs.(faults := regs.faults - {ulInterrupt});
      } else if ulInterrupt == FAULT_SYSTICK {
        regs := regs.(tick := false);
      } else if ulInterrupt >= 16 {
        WriteDis(Bank(ulInterrupt), {Bit(ulInterrupt)});
      }
    }

    method IntPendSet(ulInterrupt: nat) returns (ghost outcome: bool)
      requires Valid(regs) && ulInterrupt < NUM_INTERRUPTS
      modifies this
      ensures Valid(regs) && regs == Effect(old(regs), PendSet(ulInterrupt), outcome)
      ensures regs == if ulInterrupt >= 16 then old(regs).(pend := OneAdded(old(regs).pend, ulInterrupt - 16))
                      else if ulInterrupt == 2 then old(regs).(nmi := true)
                      else if ulInterrupt == 14 then old(regs).(pendSv := true)
                      else if ulInterrupt == 15 then old(regs).(pendSt := true)
                      else old(regs)
    {
      outcome := false;
      if ulInterrupt == FAULT_NMI {
        outcome := WriteIntCtrlReg(true, regs.pendSv, false, regs.pendSt, false);
      } else if ulInterrupt == FAULT_PENDSV {
        outcome := WriteIntCtrlReg(regs.nmi, true, false, regs.pendSt, false);
      } else if ulInterrupt == FAULT_SYSTICK {
        outcome := WriteIntCtrlReg(regs.nmi, regs.pendSv, false, true, false);
      } else if ulInterrupt >= 16 {
        WritePend(Bank(ulInterrupt), {Bit(ulInterrupt)});
      }
    }

    method IntPendClear(ulInterrupt: nat) returns (ghost outcome: bool)
      requires Valid(regs) && ulInterrupt < NUM_INTERRUPTS
      modifies this
      ensures Valid(regs) && regs == Effect(old(regs), PendClear(ulInterrupt), outcome)
      ensures regs == if ulInterrupt >= 16 then old(regs).(pend := OneRemoved(old(regs).pend, ulInterrupt - 16))
                      else if ulInterrupt == 14 then old(regs).(pendSv := old(regs).pendSv && outcome)
                      else if ulInterrupt == 15 then old(regs).(pendSt := old(regs).pendSt && outcome)
                      else old(regs)
    {
      outcome := false;
      if ulInterrupt == FAULT_PENDSV {
        outcome := WriteIntCtrlReg(regs.nmi, regs.pendSv, true, regs.pendSt, false);
      } else if ulInterrupt == FAULT_SYSTICK {
        outcome := WriteIntCtrlReg(regs.nmi, regs.pendSv, false, regs.pendSt, true);
      } else if ulInterrupt >= 16 {
        WriteUnpend(Bank(ulInterrupt), {Bit(ulInterrupt)});
      }
    }
  }

  lemma PriorityByteReplaced(r: Regs, n: nat, p: nat)
    requires Valid(r) && n < NUM_INTERRUPTS && p < 256
    ensures ByteReplaced(r.pri[n / 4], Latch(n / 4, WithByte(r.pri[n / 4], n % 4, p)), n % 4,
              if n >= 16 || n in {4, 5, 6, 11, 12, 14, 15} then p / 32 * 32 else 0)
  {
    LevelKept(n, p / 32, p % 32);
    assert Stored(n / 4, r.pri[n / 4]);
    forall j: nat | j < 4
      ensures Byte(Latch(n / 4, WithByte(r.pri[n / 4], n % 4, p)), j) ==
              if n % 4 == j then Kept(n, p) else Byte(r.pri[n / 4], j)
    {
      PriorityRegister(n / 4, r.pri[n / 4], n % 4, p, j);
    }
  }

  lemma {:induction false} ZeroStored(n: nat, count: nat)
    ensures KeptWord(n, 0, count) == 0
    decreases count
  {
    if count > 0 {
      ZeroStored(n + 1, count - 1);
    }
  }
}
