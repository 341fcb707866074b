/** What the calendar clock of driverlib/prcm.c guarantees over whole runs of calls. */
module RtcGuarantees {
  import opened Arithmetic
  import opened RtcClock

  // ---- one call

  /** Storing a fraction leaves the use bit and the reserved bits of the shared register. */
  lemma FractionStored(r: Regs, msec: nat)
    requires r.Valid() && msec < 1024
    ensures var v := r.Shared();
            var w := r.WithShared(v - v % 1024 + msec);
            && w.Valid() && w.Shared() == v - v % 1024 + msec && w.Shared() % 1024 == msec
            && w.Shared() / 1024 == v / 1024 && w.Used() == r.Used() && w.reg2 % U16 == r.reg2 % U16
  {
    var v := r.Shared();
    var q := v / 1024;
    Residue((v - v % 1024 + msec) * U16 + r.reg2 % U16, U16, v - v % 1024 + msec, r.reg2 % U16);
    Residue(v - v % 1024 + msec, 1024, q, msec);
    assert v / USE == q / 32 && (v - v % 1024 + msec) / USE == q / 32;
  }

  /** PRCMRTCSet stores the wanted time minus the counter, modulo 2^42. */
  lemma SetStoresReference(r: Regs, secs: nat, msec: nat, tick: nat)
    requires r.Valid() && r.Used()
    ensures AfterSet(r, secs, msec, tick).Reference() == (MakeMsec(secs, msec) - Counter(tick) / 32) % U42
  {
    var d := MakeMsec(secs, msec) - Counter(tick) / 32;
    FractionStored(r, MsecOf(d % U64));
    SplitJoin(d % U64);
    var k := d / U64;
    Congruent(d, d % U64, k * 0x40_0000);
  }

  /** A time set at tick `t1` and read at tick `t2` has moved on by the whole 1/1024 s
      periods between them, modulo 2^42, whatever the counter and the reference wrapped. */
  lemma SetThenGet(r: Regs, secs: nat, msec: nat, t1: nat, t2: nat)
    requires r.Valid() && r.Used()
    ensures AfterSet(r, secs, msec, t1).Reading(Counter(t2)) == (secs * 1024 + msec % 1024 + t2 / 32 - t1 / 32) % U42
  {
    SetStoresReference(r, secs, msec, t1);
    Elapsed(MakeMsec(secs, msec), t1, t2);
  }

  lemma Elapsed(a: nat, t1: nat, t2: nat)
    ensures ((a - Counter(t1) / 32) % U42 + Counter(t2) / 32) % U42 == (a + t2 / 32 - t1 / 32) % U42
  {
    var b, c := Counter(t1) / 32, Counter(t2) / 32;
    CounterShift(t1);
    CounterShift(t2);
    var k1: int :| t1 / 32 == b + k1 * U42;
    var k2: int :| t2 / 32 == c + k2 * U42;
    var q, y := (a - b) / U42, (a - b) % U42;
    assert a - b == q * U42 + y;
    Congruent(a + t2 / 32 - t1 / 32, y + c, q + k2 - k1);
  }

  /** Every call keeps the register formats, the hardware's half of HIB_REG2 and the
      reserved bits, never clears the use bit, and does nothing as a clock or alarm call
      while the use bit is clear; only PRCMRTCSet moves the reference. */
  ghost predicate Frames(r: Regs, call: Call, e: Regs) {
    && e.Valid()
    && e.reg2 % U16 == r.reg2 % U16
    && e.Shared() / 1024 % 32 == r.Shared() / 1024 % 32
    && (r.Used() ==> e.Used())
    && (e.Used() ==> r.Used() || call.InUseSet?)
    && (!call.Set? ==> e.Reference() == r.Reference())
    && (!r.Used() && (call.Set? || call.MatchSet?) ==> e == r)
  }

  lemma EffectFrames(r: Regs, call: Call, tick: nat)
    requires r.Valid()
    ensures Frames(r, call, Effect(r, call, tick))
  {
    match call
    case InUseSet =>
      if !r.Used() {
        UseBitSet(r);
      }
    case Set(secs, msec) =>
      var x := (MakeMsec(secs, msec) - Counter(tick) / 32) % U64;
      SplitJoin(x);
      FractionStored(r, MsecOf(x));
    case _ =>
  }

  lemma UseBitSet(r: Regs)
    requires r.Valid() && !r.Used()
    ensures var w := r.WithShared(r.Shared() + USE);
            && w.Valid() && w.Used() && w.reg2 % U16 == r.reg2 % U16
            && w.Shared() % 1024 == r.Shared() % 1024 && w.Shared() / 1024 % 32 == r.Shared() / 1024 % 32
  {
    var v := r.Shared();
    assert v < USE;
    Residue((v + USE) * U16 + r.reg2 % U16, U16, v + USE, r.reg2 % U16);
    Residue(v + USE, 1024, v / 1024 + 32, v % 1024);
  }

  // ---- runs

  /** A step of a run: a call and the tick at which it latches the counter. */
  datatype Step = Step(call: Call, tick: nat)

  function Run(r: Regs, steps: seq<Step>): Regs
    decreases |steps|
  {
    if steps == [] then r else Run(Effect(r, steps[0].call, steps[0].tick), steps[1..])
  }

  /** Over any run the hardware's bits and the reserved bits survive and the use bit, once
      set, stays set. */
  lemma {:induction false} RunFrames(r: Regs, steps: seq<Step>)
    requires r.Valid()
    ensures var e := Run(r, steps);
            && e.Valid() && e.reg2 % U16 == r.reg2 % U16
            && e.Shared() / 1024 % 32 == r.Shared() / 1024 % 32
            && (e.Used() <==> r.Used() || exists k :: 0 <= k < |steps| && steps[k].call.InUseSet?)
    decreases |steps|
  {
    if steps != [] {
      EffectFrames(r, steps[0].call, steps[0].tick);
      RunFrames(Effect(r, steps[0].call, steps[0].tick), steps[1..]);
      assert steps == [steps[0]] + steps[1..];
      InUseSetUses(r, steps[0].tick);
    }
  }

  lemma InUseSetUses(r: Regs, tick: nat)
    requires r.Valid()
    ensures Effect(r, InUseSet, tick).Used()
  {
    if !r.Used() {
      UseBitSet(r);
    }
  }

  lemma {:induction false} ReferenceKept(r: Regs, steps: seq<Step>)
    requires r.Valid()
    requires forall k | 0 <= k < |steps| :: !steps[k].call.Set?
    ensures Run(r, steps).Reference() == r.Reference()
    decreases |steps|
  {
    if steps != [] {
      EffectFrames(r, steps[0].call, steps[0].tick);
      ReferenceKept(Effect(r, steps[0].call, steps[0].tick), steps[1..]);
    }
  }

  lemma {:induction false} RunSplit(r: Regs, a: seq<Step>, b: seq<Step>)
    ensures Run(r, a + b) == Run(Run(r, a), b)
    decreases |a|
  {
    if a == [] {
      assert a + b == b;
    } else {
      assert (a + b)[1..] == a[1..] + b;
      RunSplit(Effect(r, a[0].call, a[0].tick), a[1..], b);
    }
  }

  /** The clock over any run: after any calls with the use bit set, then PRCMRTCSet at tick
      `t1`, then any calls other than PRCMRTCSet, a reading latched at tick `t2` is the time
      set plus the time passed. */
  lemma ClockOverRun(r: Regs, before: seq<Step>, secs: nat, msec: nat, t1: nat, after: seq<Step>, t2: nat)
    requires r.Valid() && Run(r, before).Used()
    requires forall k | 0 <= k < |after| :: !after[k].call.Set?
    ensures Run(r, before + [Step(Set(secs, msec), t1)] + after).Reading(Counter(t2)) ==
            (secs * 1024 + msec % 1024 + t2 / 32 - t1 / 32) % U42
  {
    RunValid(r, before);
    ReferenceOverRun(r, before, Step(Set(secs, msec), t1), after);
    SetThenGet(Run(r, before), secs, msec, t1, t2);
    var e := Run(r, before + [Step(Set(secs, msec), t1)] + after);
    SameReading(e, AfterSet(Run(r, before), secs, msec, t1), Counter(t2));
  }

  lemma SameReading(d: Regs, e: Regs, c: nat)
    requires d.Reference() == e.Reference()
    ensures d.Reading(c) == e.Reading(c)
  {
  }

  lemma RunValid(r: Regs, steps: seq<Step>)
    requires r.Valid()
    ensures Run(r, steps).Valid()
  {
    RunFrames(r, steps);
  }

  lemma EffectValid(r: Regs, step: Step)
    requires r.Valid()
    ensures Effect(r, step.call, step.tick).Valid()
  {
    EffectFrames(r, step.call, step.tick);
  }

  lemma ReferenceOverRun(r: Regs, before: seq<Step>, step: Step, after: seq<Step>)
    requires r.Valid()
    requires forall k | 0 <= k < |after| :: !after[k].call.Set?
    ensures Run(r, before + [step] + after).Reference() == Effect(Run(r, before), step.call, step.tick).Reference()
  {
    RunValid(r, before);
    OneThenMore(r, before, step, after);
    EffectValid(Run(r, before), step);
    ReferenceKept(Effect(Run(r, before), step.call, step.tick), after);
  }

  lemma OneThenMore(r: Regs, before: seq<Step>, step: Step, after: seq<Step>)
    ensures Run(r, before + [step] + after) == Run(Effect(Run(r, before), step.call, step.tick), after)
  {
    RunSplit(r, before + [step], after);
    RunSplit(r, before, [step]);
    var r1 := Run(r, before);
    assert Run(r1, [step]) == Run(Effect(r1, step.call, step.tick), []);
  }

  // ---- the alarm

  /** The match registers hold a whole 47-bit value, so nothing of the alarm is cut off. */
  lemma MatchStored(r: Regs, secs: nat, msec: nat)
    requires r.Valid() && r.Used() && secs < U32
    ensures r.Reference() < U42 && MakeMsec(secs, msec) < U42
    ensures var e := AfterMatchSet(r, secs, msec);
            e.IrqMatch() == Ahead(MakeMsec(secs, msec), r.Reference()) * 32 && e.Reference() == r.Reference()
  {
    AheadIs(MakeMsec(secs, msec), r.Reference());
    SplitWords(r, Ahead(MakeMsec(secs, msec), r.Reference()) * 32);
  }

  lemma SplitWords(r: Regs, v: nat)
    requires v < CTR
    ensures r.WithIrqMatch(v).IrqMatch() == v
  {
    assert v / U32 < U16;
  }

  /** The alarm is exact: the match value is a counter value at which the clock shows the
      time asked for, and no smaller counter value is. */
  lemma AlarmIsLeast(r: Regs, secs: nat, msec: nat)
    requires r.Valid() && r.Used() && secs < U32
    ensures var e := AfterMatchSet(r, secs, msec);
            && e.Reading(e.IrqMatch()) == secs * 1024 + msec % 1024
            && forall c: nat | c < e.IrqMatch() :: e.Reading(c) != secs * 1024 + msec % 1024
  {
    MatchStored(r, secs, msec);
    LeastReading(AfterMatchSet(r, secs, msec), MakeMsec(secs, msec));
  }

  lemma LeastReading(e: Regs, a: nat)
    requires a < U42 && e.Reference() < U42 && e.IrqMatch() == Ahead(a, e.Reference()) * 32
    ensures e.Reading(e.IrqMatch()) == a && MatchReading(e) == a
    ensures forall c: nat | c < e.IrqMatch() :: e.Reading(c) != a
  {
    LeastShift(a, e.Reference());
  }

  lemma LeastShift(a: nat, ref: nat)
    requires a < U42 && ref < U42
    ensures (ref + Ahead(a, ref) * 32 / 32) % U42 == a
    ensures forall c: nat | c < Ahead(a, ref) * 32 :: (ref + c / 32) % U42 != a
  {
    ShowsWhen(a, ref, Ahead(a, ref));
    forall c: nat | c < Ahead(a, ref) * 32
      ensures (ref + c / 32) % U42 != a
    {
      ShowsWhen(a, ref, c / 32);
    }
  }

  /** PRCMRTCMatchGet: the match value plus the reference, split. */
  function MatchReading(r: Regs): nat {
    (r.Reference() + r.IrqMatch() / 32) % U42
  }

  /** While the reference is unchanged, PRCMRTCMatchGet returns the alarm that was set:
      after any calls other than the ones that set the time or the alarm. */
  lemma MatchRoundTrip(r: Regs, secs: nat, msec: nat, tick: nat, after: seq<Step>)
    requires r.Valid() && r.Used() && secs < U32
    requires forall k | 0 <= k < |after| :: !after[k].call.Set? && !after[k].call.MatchSet?
    ensures MatchReading(Run(r, [Step(MatchSet(secs, msec), tick)] + after)) == secs * 1024 + msec % 1024
  {
    var e, step := AfterMatchSet(r, secs, msec), Step(MatchSet(secs, msec), tick);
    assert [] + [step] + after == [step] + after;
    ReferenceOverRun(r, [], step, after);
    OneThenMore(r, [], step, after);
    MatchKept(e, after);
    MatchStored(r, secs, msec);
    SameMatchReading(Run(r, [step] + after), e);
    LeastReading(e, MakeMsec(secs, msec));
  }

  lemma SameMatchReading(d: Regs, e: Regs)
    requires d.Reference() == e.Reference() && d.IrqMatch() == e.IrqMatch()
    ensures MatchReading(d) == MatchReading(e)
  {
  }

  lemma {:induction false} MatchKept(r: Regs, steps: seq<Step>)
    requires forall k | 0 <= k < |steps| :: !steps[k].call.MatchSet?
    ensures Run(r, steps).IrqMatch() == r.IrqMatch()
    decreases |steps|
  {
    if steps != [] {
      MatchKept(Effect(r, steps[0].call, steps[0].tick), steps[1..]);
    }
  }

  /** The hardware raises the alarm at the first tick from `now` on at which the counter
      equals the match value. */
  ghost predicate FirstAlarm(r: Regs, now: nat, tick: nat) {
    && now <= tick && Counter(tick) == r.IrqMatch()
    && forall t: nat | now <= t < tick :: Counter(t) != r.IrqMatch()
  }

  /** The first tick from `now` on at which the clock begins to show `msec`. */
  ghost predicate FirstBegin(r: Regs, now: nat, msec: nat, tick: nat) {
    && now <= tick && Begins(r, msec, tick)
    && forall t: nat | now <= t < tick :: !Begins(r, msec, t)
  }

  ghost predicate Begins(r: Regs, msec: nat, tick: nat) {
    tick % 32 == 0 && r.Reading(Counter(tick)) == msec
  }

  /** The clock begins to show the alarm time at the ticks congruent to the match value
      modulo the calendar's period. */
  lemma BeginsWhen(r: Regs, secs: nat, msec: nat, tick: nat)
    requires r.Valid() && r.Used() && secs < U32
    ensures var e := AfterMatchSet(r, secs, msec);
            Begins(e, MakeMsec(secs, msec), tick) <==> Hits(tick, DAY, e.IrqMatch())
  {
    MatchStored(r, secs, msec);
    var a, ref := MakeMsec(secs, msec), r.Reference();
    ReadingByTick(ref, tick);
    ShowsWhen(a, ref, tick / 32);
    DayParts(tick, Ahead(a, ref));
  }

  /** The alarm goes off at the moment the clock next begins to show the alarm time exactly
      when the counter, at that moment of the call, is not in the calendar period after the
      match value: the counter's period is two calendar periods long. */
  lemma AlarmOnTimeExactly(r: Regs, secs: nat, msec: nat, now: nat, alarm: nat, begin: nat)
    requires r.Valid() && r.Used() && secs < U32
    requires var e := AfterMatchSet(r, secs, msec);
             FirstAlarm(e, now, alarm) && FirstBegin(e, now, MakeMsec(secs, msec), begin)
    ensures var m := AfterMatchSet(r, secs, msec).IrqMatch();
            alarm == begin <==> Counter(now) <= m || m + DAY < Counter(now)
  {
    var e := AfterMatchSet(r, secs, msec);
    MatchStored(r, secs, msec);
    forall t: nat | now <= t <= begin
      ensures Begins(e, MakeMsec(secs, msec), t) <==> Hits(t, DAY, e.IrqMatch())
    {
      BeginsWhen(r, secs, msec, t);
    }
    forall t: nat | now <= t < alarm
      ensures !Hits(t, CTR, e.IrqMatch())
    {
      assert Counter(t) != e.IrqMatch();
    }
    FirstHit(now, DAY, e.IrqMatch(), begin);
    FirstHit(now, CTR, e.IrqMatch(), alarm);
    HalfPeriod(now);
  }

  /** Both moments come, whenever the alarm is set. */
  lemma AlarmComes(r: Regs, secs: nat, msec: nat, now: nat) returns (alarm: nat, begin: nat)
    requires r.Valid() && r.Used() && secs < U32
    ensures var e := AfterMatchSet(r, secs, msec);
            FirstAlarm(e, now, alarm) && FirstBegin(e, now, MakeMsec(secs, msec), begin)
  {
    var e := AfterMatchSet(r, secs, msec);
    var m := e.IrqMatch();
    MatchStored(r, secs, msec);
    alarm, begin := NextHit(now, CTR, m), NextHit(now, DAY, m);
    NextHitIs(now, CTR, m);
    NextHitIs(now, DAY, m);
    forall t: nat | now <= t < alarm
      ensures Counter(t) != m
    {
      assert !Hits(t, CTR, m);
    }
    forall t: nat | now <= t <= begin
      ensures Begins(e, MakeMsec(secs, msec), t) <==> Hits(t, DAY, m)
    {
      BeginsWhen(r, secs, msec, t);
    }
  }

  /** The counter's period is two of the calendar's. */
  lemma HalfPeriod(now: nat)
    ensures now % CTR == now % DAY || now % CTR == now % DAY + DAY
  {
    var c := now % CTR;
    var q := now / CTR;
    assert now == q * CTR + c;
    if c < DAY {
      Residue(now, DAY, 2 * q, c);
    } else {
      Residue(now, DAY, 2 * q + 1, c - DAY);
    }
  }

  // ---- the hibernate wake-up

  /** The wake-up match is the counter value the interval's number of ticks after the latch,
      although it is written as a 64-bit sum into two registers of 48 bits together. */
  lemma IntervalWakes(r: Regs, ticks: nat, tick: nat)
    requires ticks < U64
    ensures var e := Effect(r, IntervalSet(ticks), tick);
            e.wakeMsw * 0x1_0000_0000 + e.wakeLsw == Counter(tick + ticks) == (tick + ticks) % 0x1_0000_0000_0000
  {
    var c, q := Counter(tick), tick / CTR;
    assert tick == q * CTR + c;
    var v := (c + ticks) % U64;
    var p := (c + ticks) / U64;
    assert c + ticks == p * U64 + v;
    var h, l := v / U32, v % U32;
    var t, u := h / U16, h % U16;
    assert v == t * CTR + (u * U32 + l);
    Residue(tick + ticks, CTR, q + p * U16 + t, u * U32 + l);
  }

  // ---- retention registers

  /** PRCMOCRRegisterWrite: index 0 is HIB_REG2, index 1 is HIB_REG3. */
  function AfterOcrWrite(r: Regs, index: nat, value: nat): Regs
    requires index < 2
  {
    if index == 0 then r.(reg2 := value) else r.(reg3 := value)
  }

  /** Writing a retention register keeps a running clock exactly when, in the first, it keeps the
      use bit and the ten fraction bits - although only the second one is documented as taken by
      the clock - and in the second, when it changes nothing. */
  lemma OcrWriteKeepsClockExactly(r: Regs, index: nat, value: nat)
    requires r.Valid() && r.Used() && index < 2 && value < U32
    ensures var e := AfterOcrWrite(r, index, value);
            (e.Used() && forall c: nat :: e.Reading(c) == r.Reading(c)) <==>
            if index == 0 then value / U16 / USE == 1 && value / U16 % 1024 == r.Shared() % 1024 else value == r.reg3
  {
    var e := AfterOcrWrite(r, index, value);
    assert value / U16 < U16;
    assert index == 0 ==> (value / U16 / USE == 1 <==> e.Used());
    SmallResidue(e.Reference());
    SmallResidue(r.Reference());
    assert e.Reading(0) == e.Reference() && r.Reading(0) == r.Reference();
    assert index == 0 ==> (e.Reference() == r.Reference() <==> value / U16 % 1024 == r.Shared() % 1024);
  }

  lemma SmallResidue(x: nat)
    requires x < U42
    ensures x % U42 == x
  {
  }
}
