/** The arithmetic of the calendar clock that driverlib/prcm.c builds from a free-running
    counter and a stored reference, and the effect of each call on the registers.

    Time is counted in absolute ticks of the 32.768 kHz clock; the hardware counter shows
    the tick number modulo 2^48 (its upper word register has 16 implemented bits). */
module RtcClock {
  import opened Arithmetic

  const U16: nat := 0x1_0000
  const U42: nat := 0x400_0000_0000
  const U64: nat := 0x1_0000_0000_0000_0000
  const CTR: nat := 0x1_0000_0000_0000  // period of the counter
  const DAY: nat := 0x8000_0000_0000    // period of the calendar in ticks: 2^42 << 5
  const USE: nat := 0x8000              // the use bit in the upper half of HIB_REG2

  /** RTC_U64MSEC_MK: the two operands of its `|` share no bits. */
  function MakeMsec(secs: nat, msec: nat): nat {
    secs * 1024 + msec % 1024
  }

  /** RTC_SECS_IN_U64MSEC, which keeps 32 bits. */
  function SecsOf(u64Msec: nat): nat {
    u64Msec / 1024 % U32
  }

  /** RTC_MSEC_IN_U64MSEC. */
  function MsecOf(u64Msec: nat): nat {
    u64Msec % 1024
  }

  /** What the counter shows at an absolute tick. */
  function Counter(tick: nat): nat {
    tick % CTR
  }

  // ---- the registers

  /** `reg2` and `reg3` are the retention registers HIB_REG2 and HIB_REG3; the others hold
      the interrupt and wake-up match values in two words. */
  datatype Regs = Regs(reg2: nat, reg3: nat, irqLsw: nat, irqMsw: nat, wakeLsw: nat, wakeMsw: nat) {
    ghost predicate Valid() {
      reg2 < U32 && reg3 < U32 && irqLsw < U32 && irqMsw < U16 && wakeLsw < U32 && wakeMsw < U16
    }

    /** The 16-bit register that shares a word with the hardware's own bits. */
    function Shared(): nat {
      reg2 / U16
    }

    function WithShared(v: nat): Regs {
      this.(reg2 := v * U16 + reg2 % U16)
    }

    predicate Used() {
      Shared() / USE % 2 == 1
    }

    /** The stored reference, in 1/1024 s. */
    function Reference(): nat {
      MakeMsec(reg3, Shared() % 1024)
    }

    /** The reading of the calendar clock when the counter shows `c`. */
    function Reading(c: nat): nat {
      (Reference() + c / 32) % U42
    }

    function IrqMatch(): nat {
      irqMsw * U32 + irqLsw
    }

    function WakeMatch(): nat {
      wakeMsw * U32 + wakeLsw
    }

    /** PRCMSlowClkCtrMatchSet on the implemented bits. */
    function WithIrqMatch(v: nat): Regs {
      this.(irqLsw := v % U32, irqMsw := v / U32 % U16)
    }
  }

  datatype Call =
    | InUseSet
    | Set(secs: nat, msec: nat)
    | Get
    | MatchSet(secs: nat, msec: nat)
    | MatchGet
    | CounterGet
    | IntervalSet(ticks: nat)

  /** PRCMRTCSet with the counter latched at `tick`. */
  function AfterSet(r: Regs, secs: nat, msec: nat, tick: nat): Regs {
    if !r.Used() then r
    else
      var u64Msec := (MakeMsec(secs, msec) - Counter(tick) / 32) % U64;
      var v := r.Shared();
      r.(reg3 := SecsOf(u64Msec)).WithShared(v - v % 1024 + MsecOf(u64Msec))
  }

  /** PRCMRTCMatchSet. */
  function AfterMatchSet(r: Regs, secs: nat, msec: nat): Regs {
    if !r.Used() then r
    else r.WithIrqMatch((MakeMsec(secs, msec) - r.Reference()) % U64 % U42 * 32)
  }

  /** What one call, latching the counter at `tick` if it does, does to the registers. */
  function Effect(r: Regs, call: Call, tick: nat): Regs {
    match call
    case InUseSet => if r.Used() then r else r.WithShared(r.Shared() + USE)
    case Set(secs, msec) => AfterSet(r, secs, msec, tick)
    case MatchSet(secs, msec) => AfterMatchSet(r, secs, msec)
    case IntervalSet(ticks) =>
      var v := (Counter(tick) + ticks) % U64;
      r.(wakeLsw := v % U32, wakeMsw := v / U32 % U16)
    case _ => r
  }

  // ---- arithmetic

  lemma Congruent(x: int, y: int, k: int)
    requires x == y + k * U42
    ensures x % U42 == y % U42
  {
    Residue(x, U42, y / U42 + k, y % U42);
  }

  /** Splitting a 64-bit time into seconds and fraction keeps its low 42 bits. */
  lemma SplitJoin(x: nat)
    ensures MakeMsec(SecsOf(x), MsecOf(x)) == x % U42
    ensures SecsOf(x) < U32 && MsecOf(x) < 1024
  {
    var q, s := x / 1024, x / 1024 / U32;
    assert x == q * 1024 + x % 1024 && q == s * U32 + q % U32;
    Residue(x, U42, s, q % U32 * 1024 + x % 1024);
  }

  /** Where the clock lives: seconds in HIB_REG3, the fraction in bits 25 to 16 and the use bit in
      bit 31 of HIB_REG2, the match values in a 16-bit and a 32-bit word each. */
  lemma RegisterLayout(r: Regs, c: nat)
    requires r.Valid()
    ensures r.Used() <==> r.reg2 / 0x8000_0000 == 1
    ensures r.Reading(c) == (r.reg3 * 1024 + r.reg2 / 0x1_0000 % 1024 + c / 32) % 0x400_0000_0000
    ensures r.IrqMatch() == r.irqMsw * 0x1_0000_0000 + r.irqLsw
    ensures r.WakeMatch() == r.wakeMsw * 0x1_0000_0000 + r.wakeLsw
  {
    assert r.Shared() / USE == r.reg2 / 0x8000_0000;
  }

  /** Adding a shifted counter value to a reference does not overflow 64 bits. */
  lemma ReferenceFits(r: Regs, c: nat)
    requires r.Valid() && c < CTR
    ensures r.Reference() < U42 && (r.Reference() + c) % U64 == r.Reference() + c
  {
    assert r.reg3 * 1024 + r.Shared() % 1024 % 1024 < U42;
  }

  /** The shifted counter advances with the shifted tick number, modulo 2^42. */
  lemma CounterShift(tick: nat)
    ensures exists k: int :: tick / 32 == Counter(tick) / 32 + k * U42
  {
    var q, c := tick / CTR, tick % CTR;
    assert tick == q * CTR + c && c == c / 32 * 32 + c % 32;
    Residue(tick, 32, q * 0x800_0000_0000 + c / 32, c % 32);
    assert tick / 32 == c / 32 + (2 * q) * U42;
  }

  /** How far the clock must move on from `ref` to show `a`. */
  function Ahead(a: nat, ref: nat): nat
    requires a < U42 && ref < U42
  {
    if ref <= a then a - ref else a - ref + U42
  }

  lemma AheadIs(a: nat, ref: nat)
    requires a < U42 && ref < U42
    ensures (a - ref) % U42 == Ahead(a, ref)
    ensures (a - ref) % U64 % U42 == Ahead(a, ref)
  {
    Residue(a - ref, U42, if ref <= a then 0 else -1, Ahead(a, ref));
    var k := (a - ref) / U64;
    Congruent(a - ref, (a - ref) % U64, k * 0x40_0000);
  }

  /** A clock at `ref` shows `a` exactly after moves congruent to that distance. */
  lemma ShowsWhen(a: nat, ref: nat, x: nat)
    requires a < U42 && ref < U42
    ensures (ref + x) % U42 == a <==> x % U42 == Ahead(a, ref)
  {
    var k, y := x / U42, x % U42;
    assert x == k * U42 + y;
    if ref + y < U42 {
      Residue(ref + x, U42, k, ref + y);
    } else {
      Residue(ref + x, U42, k + 1, ref + y - U42);
    }
  }

  lemma ReadingByTick(ref: nat, tick: nat)
    ensures (ref + Counter(tick) / 32) % U42 == (ref + tick / 32) % U42
  {
    CounterShift(tick);
    var k: int :| tick / 32 == Counter(tick) / 32 + k * U42;
    Congruent(ref + tick / 32, ref + Counter(tick) / 32, k);
  }

  /** Tick numbers modulo the calendar's period, in two parts. */
  lemma DayParts(tick: nat, d: nat)
    requires d < U42
    ensures tick % DAY == d * 32 <==> tick % 32 == 0 && tick / 32 % U42 == d
  {
    var x, y := tick / 32, tick % 32;
    var k, z := x / U42, x % U42;
    assert tick == k * DAY + (z * 32 + y);
    Residue(tick, DAY, k, z * 32 + y);
  }

  // ---- first ticks

  predicate Hits(tick: nat, period: nat, m: nat)
    requires period > 0
  {
    tick % period == m
  }

  lemma HitAt(q: nat, period: nat, m: nat)
    requires m < period
    ensures Hits(q * period + m, period, m)
  {
    Residue(q * period + m, period, q, m);
  }

  lemma HitsApart(x: nat, y: nat, period: nat, m: nat)
    requires m < period && Hits(x, period, m) && Hits(y, period, m) && x < y
    ensures x + period <= y
  {
    var d := y / period - x / period;
    assert y - x == d * period;
    MulBound(d, period);
  }

  /** The first tick from `now` on that is congruent to `m`. */
  function NextHit(now: nat, period: nat, m: nat): nat
    requires m < period
  {
    now - now % period + m + (if now % period <= m then 0 else period)
  }

  lemma NextHitIs(now: nat, period: nat, m: nat)
    requires m < period
    ensures now <= NextHit(now, period, m) && Hits(NextHit(now, period, m), period, m)
    ensures forall t: nat | now <= t < NextHit(now, period, m) :: !Hits(t, period, m)
  {
    var q := now / period;
    var first := NextHit(now, period, m);
    assert q * period == now - now % period && (q + 1) * period == q * period + period;
    HitAt(q, period, m);
    HitAt(q + 1, period, m);
    forall t: nat | now <= t < first && Hits(t, period, m)
      ensures false
    {
      HitsApart(t, first, period, m);
      BelowPeriod(t, q, period, m);
    }
  }

  /** No tick in the part of a period before its residue hits it. */
  lemma BelowPeriod(t: nat, q: nat, period: nat, m: nat)
    requires m < period && Hits(t, period, m) && q * period <= t
    ensures q * period + m <= t
  {
    HitAt(q, period, m);
    if t < q * period + m {
      HitsApart(t, q * period + m, period, m);
    }
  }

  lemma FirstHit(now: nat, period: nat, m: nat, first: nat)
    requires m < period && now <= first && Hits(first, period, m)
    requires forall t: nat | now <= t < first :: !Hits(t, period, m)
    ensures first == NextHit(now, period, m)
  {
    NextHitIs(now, period, m);
  }
}
