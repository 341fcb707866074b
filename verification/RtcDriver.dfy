/** The clock functions of driverlib/prcm.c over the always-on registers. Every access is
    followed by a delay during which the counter goes on for any number of ticks. */
module RtcDriver {
  import opened Arithmetic
  import opened RtcClock

  datatype Address = TimerRead | TimerMsw | TimerLsw | SecsReg | IrqLsw | IrqMsw | WakeLsw | WakeMsw

  /** The hibernate block: its registers, the running counter as an absolute tick number,
      and the copy of the counter made by the last latch command. */
  class Hib {
    var regs: Regs
    var now: nat
    var latched: nat
    ghost var latchTick: nat

    ghost predicate Valid()
      reads this
    {
      regs.Valid() && latched == Counter(latchTick) && latchTick <= now
    }

    constructor ()
      ensures Valid() && !regs.Used()
    {
      regs := Regs(0, 0, 0, 0, 0, 0);
      now, latched, latchTick := 0, 0, 0;
    }

    function Value(a: Address): nat
      reads this
    {
      match a
      case TimerRead => 0
      case TimerMsw => latched / U32
      case TimerLsw => latched % U32
      case SecsReg => regs.reg3
      case IrqLsw => regs.irqLsw
      case IrqMsw => regs.irqMsw
      case WakeLsw => regs.wakeLsw
      case WakeMsw => regs.wakeMsw
    }

    method UtilsDelay()
      modifies this`now
      ensures old(now) <= now
    {
      var ticks: nat :| 0 <= ticks;
      now := now + ticks;
    }

    method PRCMHIBRegRead(a: Address) returns (ulValue: nat)
      requires Valid()
      modifies this`now
      ensures Valid() && old(now) <= now && ulValue == old(Value(a))
    {
      ulValue := Value(a);
      UtilsDelay();
    }

    /** The upper match words implement sixteen bits; writing 1 to the read register latches
        the counter at that very tick. */
    method PRCMHIBRegWrite(a: Address, ulValue: nat)
      requires Valid() && ulValue < U32
      modifies this
      ensures Valid() && old(now) <= now
      ensures regs == match a
                      case SecsReg => old(regs).(reg3 := ulValue)
                      case IrqLsw => old(regs).(irqLsw := ulValue)
                      case IrqMsw => old(regs).(irqMsw := ulValue % U16)
                      case WakeLsw => old(regs).(wakeLsw := ulValue)
                      case WakeMsw => old(regs).(wakeMsw := ulValue % U16)
                      case _ => old(regs)
      ensures if a == TimerRead && ulValue == 1 then latchTick == old(now) else latchTick == old(latchTick)
    {
      match a {
        case TimerRead =>
          if ulValue == 1 {
            latched := Counter(now);
            latchTick := now;
          }
        case SecsReg => regs := regs.(reg3 := ulValue);
        case IrqLsw => regs := regs.(irqLsw := ulValue);
        case IrqMsw => regs := regs.(irqMsw := ulValue % U16);
        case WakeLsw => regs := regs.(wakeLsw := ulValue);
        case WakeMsw => regs := regs.(wakeMsw := ulValue % U16);
        case _ =>
      }
      UtilsDelay();
    }

    // ---- the shared 16-bit register

    method RTCUseSet()
      requires Valid()
      modifies this`regs, this`now
      ensures Valid() && old(now) <= now && regs == Effect(old(regs), InUseSet, 0)
    {
      var v := regs.Shared();
      var usRegValue := if v / USE % 2 == 1 then v else v + USE;
      UtilsDelay();
      regs := regs.WithShared(usRegValue);
      assert usRegValue < U16;
    }

    method IsRTCUsed() returns (used: bool)
      requires Valid()
      modifies this`now
      ensures Valid() && old(now) <= now && used == regs.Used()
    {
      var usRegValue := regs.Shared();
      UtilsDelay();
      used := usRegValue / USE % 2 == 1;
    }

    method RTCU16MSecRegRead() returns (usMsec: nat)
      requires Valid()
      modifies this`now
      ensures Valid() && old(now) <= now && usMsec == regs.Shared() % 1024
    {
      var usRegValue := regs.Shared();
      UtilsDelay();
      usMsec := usRegValue % 1024;
    }

    method RTCU16MSecRegWrite(u16Msec: nat)
      requires Valid() && u16Msec < 1024
      modifies this`regs, this`now
      ensures Valid() && old(now) <= now
      ensures var v := old(regs).Shared(); regs == old(regs).WithShared(v - v % 1024 + u16Msec)
    {
      var usRegValue := regs.Shared();
      UtilsDelay();
      regs := regs.WithShared(usRegValue - usRegValue % 1024 + u16Msec);
    }

    // ---- the counter

    /** The two halves are read from the latch, so they belong to one tick, however long the
        delays between the accesses are. */
    method PRCMSlowClkCtrGet() returns (ullRTCVal: nat)
      requires Valid()
      modifies this
      ensures Valid() && regs == old(regs)
      ensures old(now) <= latchTick <= now && ullRTCVal == Counter(latchTick) == latchTick % 0x1_0000_0000_0000
    {
      PRCMHIBRegWrite(TimerRead, 1);
      var msw := PRCMHIBRegRead(TimerMsw);
      var lsw := PRCMHIBRegRead(TimerLsw);
      ullRTCVal := msw * U32 + lsw;
    }

    method PRCMSlowClkCtrMatchSet(ullValue: nat)
      requires Valid() && ullValue < U64
      modifies this
      ensures Valid() && old(now) <= now && latchTick == old(latchTick)
      ensures regs == old(regs).WithIrqMatch(ullValue)
      ensures regs == old(regs).(irqLsw := regs.irqLsw, irqMsw := regs.irqMsw)
      ensures regs.irqMsw * 0x1_0000_0000 + regs.irqLsw == ullValue % 0x1_0000_0000_0000
    {
      PRCMHIBRegWrite(IrqLsw, ullValue % U32);
      PRCMHIBRegWrite(IrqMsw, ullValue / U32);
    }

    method PRCMSlowClkCtrMatchGet() returns (ullValue: nat)
      requires Valid()
      modifies this`now
      ensures Valid() && old(now) <= now && ullValue == regs.IrqMatch() == regs.irqMsw * 0x1_0000_0000 + regs.irqLsw
    {
      var msw := PRCMHIBRegRead(IrqMsw);
      var lsw := PRCMHIBRegRead(IrqLsw);
      ullValue := msw * U32 + lsw;
    }

    method PRCMHibernateIntervalSet(ullTicks: nat)
      requires Valid() && ullTicks < U64
      modifies this
      ensures Valid() && old(now) <= latchTick <= now
      ensures regs == Effect(old(regs), IntervalSet(ullTicks), latchTick)
    {
      PRCMHIBRegWrite(TimerRead, 1);
      var msw := PRCMHIBRegRead(TimerMsw);
      var lsw := PRCMHIBRegRead(TimerLsw);
      var ullRTCVal := msw * U32 + lsw;
      ullRTCVal := (ullRTCVal + ullTicks) % U64;
      PRCMHIBRegWrite(WakeLsw, ullRTCVal % U32);
      PRCMHIBRegWrite(WakeMsw, ullRTCVal / U32);
    }

    // ---- the calendar

    method PRCMRTCInUseSet()
      requires Valid()
      modifies this`regs, this`now
      ensures Valid() && regs == Effect(old(regs), InUseSet, 0)
    {
      RTCUseSet();
    }

    method PRCMRTCInUseGet() returns (used: bool)
      requires Valid()
      modifies this`now
      ensures Valid() && used == regs.Used()
    {
      used := IsRTCUsed();
    }

    method PRCMRTCSet(ulSecs: nat, usMsec: nat)
      requires Valid() && ulSecs < U32 && usMsec < U16
      modifies this
      ensures Valid() && regs == Effect(old(regs), Set(ulSecs, usMsec), latchTick)
      ensures regs.Used() ==> old(now) <= latchTick <= now
    {
      var used := IsRTCUsed();
      if used {
        var counter := PRCMSlowClkCtrGet();
        var ullMsec := (MakeMsec(ulSecs, usMsec) - counter / 32) % U64;
        PRCMHIBRegWrite(SecsReg, SecsOf(ullMsec));
        RTCU16MSecRegWrite(MsecOf(ullMsec));
      }
    }

    method PRCMRTCGet() returns (ulSecs: nat, usMsec: nat)
      requires Valid()
      modifies this
      ensures Valid() && regs == old(regs) && ulSecs < U32 && usMsec < 1024
      ensures regs.Used() ==>
                old(now) <= latchTick <= now && ulSecs * 1024 + usMsec == regs.Reading(Counter(latchTick))
      ensures !regs.Used() ==> ulSecs == 0 && usMsec == 0
    {
      var ullMsec := 0;
      var used := IsRTCUsed();
      if used {
        var secs := PRCMHIBRegRead(SecsReg);
        var msec := RTCU16MSecRegRead();
        ullMsec := MakeMsec(secs, msec);
        var counter := PRCMSlowClkCtrGet();
        ReferenceFits(regs, counter / 32);
        ullMsec := (ullMsec + counter / 32) % U64;
      }
      SplitJoin(ullMsec);
      ulSecs, usMsec := SecsOf(ullMsec), MsecOf(ullMsec);
    }

    method PRCMRTCMatchSet(ulSecs: nat, usMsec: nat)
      requires Valid() && ulSecs < U32 && usMsec < U16
      modifies this
      ensures Valid() && regs == Effect(old(regs), MatchSet(ulSecs, usMsec), 0)
    {
      var used := IsRTCUsed();
      if used {
        var ullMsec := MakeMsec(ulSecs, usMsec);
        var secs := PRCMHIBRegRead(SecsReg);
        var msec := RTCU16MSecRegRead();
        ullMsec := (ullMsec - MakeMsec(secs, msec)) % U64;
        PRCMSlowClkCtrMatchSet(ullMsec % U42 * 32);
      }
    }

    method PRCMRTCMatchGet() returns (ulSecs: nat, usMsec: nat)
      requires Valid()
      modifies this
      ensures Valid() && regs == old(regs) && ulSecs < U32 && usMsec < 1024
      ensures regs.Used() ==> ulSecs * 1024 + usMsec == regs.Reading(regs.IrqMatch())
      ensures !regs.Used() ==> ulSecs == 0 && usMsec == 0
    {
      var ullMsec := 0;
      var used := IsRTCUsed();
      if used {
        var v := PRCMSlowClkCtrMatchGet();
        ullMsec := v / 32;
        var secs := PRCMHIBRegRead(SecsReg);
        var msec := RTCU16MSecRegRead();
        ReferenceFits(regs, v / 32);
        ullMsec := (ullMsec + MakeMsec(secs, msec)) % U64;
      }
      SplitJoin(ullMsec);
      ulSecs, usMsec := SecsOf(ullMsec), MsecOf(ullMsec);
    }
  }
}
