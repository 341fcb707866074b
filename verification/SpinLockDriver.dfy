/** The functions of driverlib/hwspinlock.c on the shared register, with the network processor
    running between any two accesses. */
module SpinLockDriver {
  import opened SpinLockRegister
  import opened SpinLockWord
  import opened P = SpinLockProtocol
  import opened M = SpinLockMachine
  import opened Wrappers

  /** The lock identifiers the driver can be given: the table has one register, and bits 23
      to 16 hold the position of a field. (The acquire functions take bits 27 to 16, but a
      shift looks at the low byte of its amount only.) */
  predicate ValidLock(ui32LockID: bv32) {
    ui32LockID & 0xF == 0 && (ui32LockID >> 16) & 0xFF < 32 && (ui32LockID >> 16) & 1 == 0
  }

  function BitPos(ui32LockID: bv32): Pos
    requires ValidLock(ui32LockID)
  {
    ((ui32LockID >> 16) & 0xFF) as bv6
  }

  /** HWSPINLOCK_SSPI, the lock the device defines, is field 0. */
  lemma SharedSpiLock()
    ensures ValidLock(0x0200_0000) && BitPos(0x0200_0000) == 0
  {
  }

  /** The position of a field is the number in bits 23 to 16 of the identifier. */
  lemma BitPosIs(ui32LockID: bv32, p: Pos)
    requires ValidLock(ui32LockID)
    ensures BitPos(ui32LockID) == p <==> ui32LockID & 0x00FF_0000 == (p as bv32) << 16
  {
  }

  type Mach = M.Machine<bv32, Pos>

  /** What the other processor may have done to a field: it neither takes a field from Apps
      nor gives one to it. */
  predicate NwpMay(before: Option<Owner>, after: Option<Owner>) {
    after != None && (before == Some(Apps) <==> after == Some(Apps))
  }

  ghost predicate OnlyNwp(before: bv32, after: bv32) {
    forall q: Pos :: NwpMay(View(before, q), View(after, q))
  }

  /** Every field but `p` is as the other processor left it. */
  ghost predicate OthersOnlyNwp(before: bv32, after: bv32, p: Pos) {
    forall q: Pos | q != p :: NwpMay(View(before, q), View(after, q))
  }

  // ---- steps, without the bits

  ghost predicate IsDeviceRun(run: seq<Mach>) {
    M.IsMachineRun(Semaphores(), run)
  }

  lemma DeviceExtend(run: seq<Mach>, n: Mach)
    requires IsDeviceRun(run) && M.Step(Semaphores(), M.LastOf(run), n)
    ensures IsDeviceRun(run + [n]) && M.LastOf(run + [n]) == n
  {
    M.Extend(Semaphores(), run, n);
  }

  lemma DeviceFacts(run: seq<Mach>, p: Pos)
    requires IsDeviceRun(run)
    ensures var m := M.LastOf(run);
            && View(m.reg, p) != None && (AppsBit(m.reg, p) <==> View(m.reg, p) == Some(Apps))
            && (View(m.reg, p) == Some(Nwp) ==> p in m.nwpHolds || (m.nwp != Away && m.nwp.p == p))
            && (p in m.appsHolds ==> View(m.reg, p) == Some(Apps))
  {
    SemaphoreLaws();
    var w, m := Semaphores(), M.LastOf(run);
    assert w.view(m.reg, p) == View(m.reg, p) && w.appsBit(m.reg, p) == AppsBit(m.reg, p);
    M.LastFacts(w, run, p);
  }

  lemma DeviceOtherKeeps(run: seq<Mach>, n: Mach, p: Pos)
    requires IsDeviceRun(run) && M.OtherStep(Semaphores(), M.LastOf(run), n)
    ensures n.apps == M.LastOf(run).apps && n.appsHolds == M.LastOf(run).appsHolds
    ensures NwpMay(View(M.LastOf(run).reg, p), View(n.reg, p))
  {
    SemaphoreLaws();
    var w, m := Semaphores(), M.LastOf(run);
    assert w.view(m.reg, p) == View(m.reg, p) && w.view(n.reg, p) == View(n.reg, p);
    M.OtherStepKeeps(w, run, n, p);
  }

  /** The next access of the Apps call when it is a claim, a test or a clear. */
  lemma ClaimAccess(m: Mach, p: Pos, q: Pos)
    requires (m.apps.AcquireWrite? || m.apps.TryWrite?) && m.apps.p == p
    ensures View(M.Access(Semaphores(), m).reg, q) ==
            if p == q && View(m.reg, q) == Some(Free) then Some(Apps) else View(m.reg, q)
  {
    AppsClaimView(m.reg, p, q);
    assert M.Access(Semaphores(), m).reg == Semaphores().appsClaim(m.reg, p) == Write(m.reg, AppsClaim(p));
  }

  lemma ClearAccess(m: Mach, p: Pos, q: Pos)
    requires m.apps == ReleaseClear(p)
    ensures View(M.Access(Semaphores(), m).reg, q) == if p == q then Some(Free) else View(m.reg, q)
  {
    ClearView(m.reg, p, q);
    assert M.Access(Semaphores(), m).reg == Semaphores().clear(m.reg, p) == Write(m.reg, Clear(p));
  }

  predicate Tests(pc: AppsPc<Pos>) {
    pc.AcquirePoll? || pc.TryPoll? || pc.TryTest? || pc.ReleaseTest?
  }

  /** Where a call goes on after its test read the bit as `isSet`. */
  function AfterTest(m: Mach, isSet: bool): Mach
    requires Tests(m.apps)
  {
    match m.apps
    case AcquirePoll(p) =>
      if isSet then m.(apps := Idle, appsHolds := m.appsHolds + {p}) else m.(apps := AcquireWrite(p))
    case TryPoll(p, retry) => m.(apps := if !isSet && retry != 0 then TryWrite(p, retry) else TryTest(p))
    case TryTest(p) => if isSet then m.(apps := Idle, appsHolds := m.appsHolds + {p}) else m.(apps := Idle)
    case ReleaseTest(p) => m.(apps := if isSet then ReleaseClear(p) else Idle)
  }

  lemma TestAccess(m: Mach)
    requires Tests(m.apps)
    ensures M.Access(Semaphores(), m) == AfterTest(m, AppsBit(m.reg, m.apps.p))
  {
    assert Semaphores().appsBit(m.reg, m.apps.p) == AppsBit(m.reg, m.apps.p);
  }

  /** The register with both processors at it: the machine of `SpinLockMachine` on the device's
      word, and the run that has led to its present state. */
  class SharedRegister {
    var state: Mach
    ghost var run: seq<Mach>
    /** How many more times the other processor may run and still hold or take a lock that
        Apps is after: the fairness that `HwSpinLockAcquire` relies on. */
    var patience: nat

    ghost predicate Valid()
      reads this
    {
      IsDeviceRun(run) && M.LastOf(run) == state
    }

    constructor ()
      ensures Valid() && state.apps == Idle
    {
      var m: Mach := M.Machine(0, Idle, Away, {}, {});
      state, run, patience := m, [m], 0;
    }

    method Take(n: Mach)
      requires Valid() && M.Step(Semaphores(), state, n)
      modifies this`state, this`run
      ensures Valid() && state == n && run == old(run) + [n]
    {
      DeviceExtend(run, n);
      state, run := n, run + [n];
    }

    // ---- the other processor

    /** One step: it decides to claim a lock or to give one up, or makes its next access. */
    method NwpStep(n: Mach)
      requires Valid() && M.OtherStep(Semaphores(), state, n)
      modifies this`state, this`run
      ensures Valid() && state == n && old(run) <= run
      ensures state.apps == old(state.apps) && state.appsHolds == old(state.appsHolds)
      ensures OnlyNwp(old(state.reg), state.reg)
    {
      forall q: Pos
        ensures NwpMay(View(state.reg, q), View(n.reg, q)) && n.apps == state.apps && n.appsHolds == state.appsHolds
      {
        DeviceOtherKeeps(run, n, q);
      }
      assert NwpMay(View(state.reg, 0), View(n.reg, 0));
      Take(n);
    }

    method NwpAccess()
      requires Valid()
      modifies this`state, this`run
      ensures Valid() && state == M.OtherAccess(Semaphores(), old(state)) && old(run) <= run
      ensures state.apps == old(state.apps) && state.appsHolds == old(state.appsHolds)
      ensures OnlyNwp(old(state.reg), state.reg)
    {
      NwpStep(M.OtherAccess(Semaphores(), state));
    }

    method NwpDecide(p: Pos, claim: bool)
      requires Valid() && state.nwp == Away && (claim || p in state.nwpHolds)
      modifies this`state, this`run
      ensures Valid() && old(run) <= run
      ensures state == if claim then old(state).(nwp := ClaimWrite(p))
                       else old(state).(nwp := Giving(p), nwpHolds := old(state).nwpHolds - {p})
      ensures state.apps == old(state.apps) && state.appsHolds == old(state.appsHolds)
      ensures OnlyNwp(old(state.reg), state.reg)
    {
      var n := if claim then state.(nwp := ClaimWrite(p))
               else state.(nwp := Giving(p), nwpHolds := state.nwpHolds - {p});
      assert M.Decides(state, n, p);
      NwpStep(n);
    }

    method NwpSteps()
      requires Valid()
      modifies this`state, this`run
      ensures Valid() && old(run) <= run
      ensures state.apps == old(state.apps) && state.appsHolds == old(state.appsHolds)
      ensures OnlyNwp(old(state.reg), state.reg)
    {
      NothingDone(run);
      var steps: nat :| 0 <= steps;
      while steps > 0
        invariant Valid() && old(run) <= run
        invariant state.apps == old(state.apps) && state.appsHolds == old(state.appsHolds)
        invariant OnlyNwp(old(state.reg), state.reg)
      {
        var p: Pos :| p & 1 == 0;
        var claim: bool := *;
        if state.nwp != Away {
          NwpAccess();
        } else if claim || p in state.nwpHolds {
          NwpDecide(p, claim);
        }
        steps := steps - 1;
      }
    }

    /** The other processor finishes what it is doing and gives up lock `p` if it has it. */
    method NwpLetsGo(p: Pos)
      requires Valid()
      modifies this`state, this`run
      ensures Valid() && old(run) <= run && View(state.reg, p) != Some(Nwp)
      ensures state.apps == old(state.apps) && state.appsHolds == old(state.appsHolds)
      ensures OnlyNwp(old(state.reg), state.reg)
    {
      NothingDone(run);
      while state.nwp != Away
        invariant Valid() && old(run) <= run
        invariant state.apps == old(state.apps) && state.appsHolds == old(state.appsHolds)
        invariant OnlyNwp(old(state.reg), state.reg)
        decreases if state.nwp == Away then 0 else if state.nwp.ClaimWrite? then 2 else 1
      {
        NwpAccess();
      }
      if p in state.nwpHolds {
        NwpDecide(p, false);
        NwpAccess();
      }
      DeviceFacts(run, p);
    }

    /** The other processor runs for any number of steps. */
    method NwpRuns(p: Pos)
      requires Valid()
      modifies this
      ensures Valid() && old(run) <= run
      ensures state.apps == old(state.apps) && state.appsHolds == old(state.appsHolds)
      ensures OnlyNwp(old(state.reg), state.reg)
      ensures if old(patience) > 0 then patience == old(patience) - 1
              else patience == 0 && View(state.reg, p) != Some(Nwp)
    {
      NwpSteps();
      if patience == 0 {
        NwpLetsGo(p);
      } else {
        patience := patience - 1;
      }
    }

    // ---- the steps of the Apps driver

    /** A call begins: `pc` is its first access. */
    method Begin(pc: AppsPc<Pos>)
      requires Valid() && state.apps == Idle
      requires pc.AcquireWrite? || (pc.TryWrite? && pc.retry > 0) || pc.ReleaseTest?
      modifies this`state, this`run
      ensures Valid() && old(run) <= run && state.reg == old(state.reg) && state.apps == pc
      ensures state.appsHolds == old(state.appsHolds) - if pc.ReleaseTest? then {pc.p} else {}
    {
      var n := if pc.ReleaseTest? then state.(apps := pc, appsHolds := state.appsHolds - {pc.p})
               else state.(apps := pc);
      if pc.TryWrite? {
        assert FirstTry(pc.retry) == pc.retry;
      }
      assert M.Calls(state, n, pc.p);
      Take(n);
    }

    /** The claim write. */
    method WriteClaim(p: Pos)
      requires Valid() && (state.apps.AcquireWrite? || state.apps.TryWrite?) && state.apps.p == p
      modifies this`state, this`run
      ensures Valid() && old(run) <= run && state == M.Access(Semaphores(), old(state))
      ensures forall q: Pos :: View(state.reg, q) ==
                if p == q && View(old(state.reg), q) == Some(Free) then Some(Apps) else View(old(state.reg), q)
    {
      forall q: Pos
        ensures View(M.Access(Semaphores(), state).reg, q) ==
                if p == q && View(state.reg, q) == Some(Free) then Some(Apps) else View(state.reg, q)
      {
        ClaimAccess(state, p, q);
      }
      Take(M.Access(Semaphores(), state));
    }

    /** The release write. */
    method WriteClear(p: Pos)
      requires Valid() && state.apps == ReleaseClear(p)
      modifies this`state, this`run
      ensures Valid() && old(run) <= run && state == M.Access(Semaphores(), old(state))
      ensures forall q: Pos :: View(state.reg, q) == if p == q then Some(Free) else View(old(state.reg), q)
    {
      forall q: Pos
        ensures View(M.Access(Semaphores(), state).reg, q) == if p == q then Some(Free) else View(state.reg, q)
      {
        ClearAccess(state, p, q);
      }
      Take(M.Access(Semaphores(), state));
    }

    /** Reads the register and tests the bit. */
    method ReadBit(p: Pos) returns (isSet: bool)
      requires Valid() && Tests(state.apps) && state.apps.p == p
      modifies this`state, this`run
      ensures Valid() && old(run) <= run && state == AfterTest(old(state), isSet)
      ensures state.reg == old(state.reg) && (isSet <==> View(state.reg, p) == Some(Apps))
    {
      DeviceFacts(run, p);
      TestAccess(state);
      isSet := AppsBit(state.reg, p);
      Take(M.Access(Semaphores(), state));
    }
  }

  /** No step, no change. */
  lemma NothingDone(run: seq<Mach>)
    requires IsDeviceRun(run)
    ensures OnlyNwp(M.LastOf(run).reg, M.LastOf(run).reg)
  {
    forall q: Pos
      ensures View(M.LastOf(run).reg, q) != None
    {
      DeviceFacts(run, q);
    }
  }

  /** The body of both acquire loops: a claim write and a test, with the other processor running
      before each. When the test fails the other processor has used up some of its patience. */
  method ClaimAndTest(s: SharedRegister, p: Pos) returns (isSet: bool)
    requires s.Valid() && (s.state.apps.AcquireWrite? || s.state.apps.TryWrite?) && s.state.apps.p == p
    modifies s
    ensures s.Valid() && old(s.run) <= s.run && OthersOnlyNwp(old(s.state.reg), s.state.reg, p)
    ensures s.state.apps == AfterClaim(old(s.state.apps), isSet)
    ensures s.state.appsHolds == old(s.state.appsHolds) + if isSet && old(s.state.apps).AcquireWrite? then {p} else {}
    ensures isSet <==> View(s.state.reg, p) == Some(Apps)
    ensures View(old(s.state.reg), p) == Some(Apps) ==> isSet
    ensures !isSet ==> s.patience < old(s.patience)
  {
    s.NwpRuns(p);
    s.WriteClaim(p);
    s.NwpRuns(p);
    isSet := s.ReadBit(p);
  }

  /** Where a call goes on after a claim and a test. */
  function AfterClaim(pc: AppsPc<Pos>, isSet: bool): AppsPc<Pos> {
    match pc
    case AcquireWrite(p) => if isSet then Idle else AcquireWrite(p)
    case TryWrite(p, retry) => if !isSet && retry > 1 then TryWrite(p, retry - 1) else TryTest(p)
    case _ => pc
  }

  /** Returns only when Apps holds the lock; changes no other lock's field. */
  method HwSpinLockAcquire(s: SharedRegister, ui32LockID: bv32)
    requires ValidLock(ui32LockID) && s.Valid() && s.state.apps == Idle
    modifies s
    ensures s.Valid() && s.state.apps == Idle && old(s.run) <= s.run
    ensures View(s.state.reg, BitPos(ui32LockID)) == Some(Apps)
    ensures s.state.appsHolds == old(s.state.appsHolds) + {BitPos(ui32LockID)}
    ensures OthersOnlyNwp(old(s.state.reg), s.state.reg, BitPos(ui32LockID))
  {
    var p := BitPos(ui32LockID);
    NothingDone(s.run);
    s.Begin(AcquireWrite(p));
    var owned := false;
    while !owned
      invariant s.Valid() && old(s.run) <= s.run && OthersOnlyNwp(old(s.state.reg), s.state.reg, p)
      invariant s.state.apps == if owned then Idle else AcquireWrite(p)
      invariant owned ==> View(s.state.reg, p) == Some(Apps)
      invariant s.state.appsHolds == old(s.state.appsHolds) + if owned then {p} else {}
      decreases !owned, s.patience
    {
      owned := ClaimAndTest(s, p);
    }
  }

  /** Makes at least one and at most max(1, retries) claim writes; returns 0 exactly when Apps
      owns the lock on return, which it then holds, and -1 otherwise; changes no other lock's
      field. */
  method HwSpinLockTryAcquire(s: SharedRegister, ui32LockID: bv32, ui32Retry: nat) returns (r: int, ghost claims: nat)
    requires ValidLock(ui32LockID) && s.Valid() && s.state.apps == Idle
    modifies s
    ensures s.Valid() && s.state.apps == Idle && old(s.run) <= s.run
    ensures r == if View(s.state.reg, BitPos(ui32LockID)) == Some(Apps) then 0 else -1
    ensures s.state.appsHolds == old(s.state.appsHolds) + if r == 0 then {BitPos(ui32LockID)} else {}
    ensures View(old(s.state.reg), BitPos(ui32LockID)) == Some(Apps) ==> r == 0 && claims == 1
    ensures 1 <= claims <= if ui32Retry == 0 then 1 else ui32Retry
    ensures r == -1 ==> claims == if ui32Retry == 0 then 1 else ui32Retry
    ensures OthersOnlyNwp(old(s.state.reg), s.state.reg, BitPos(ui32LockID))
  {
    var p := BitPos(ui32LockID);
    var retry: nat := if ui32Retry == 0 then 1 else ui32Retry;
    ghost var limit := retry;
    NothingDone(s.run);
    s.Begin(TryWrite(p, retry));
    claims := 0;
    var again := true;
    while again
      invariant s.Valid() && old(s.run) <= s.run && OthersOnlyNwp(old(s.state.reg), s.state.reg, p)
      invariant s.state.apps == if again then TryWrite(p, retry) else TryTest(p)
      invariant s.state.appsHolds == old(s.state.appsHolds)
      invariant claims + retry == limit && if again then retry > 0 else claims > 0
      invariant View(old(s.state.reg), p) == Some(Apps) ==>
                  View(s.state.reg, p) == Some(Apps) && claims == if again then 0 else 1
      invariant !again ==> View(s.state.reg, p) == Some(Apps) || retry == 0
      decreases again, retry
    {
      var isSet := ClaimAndTest(s, p);
      claims, retry := claims + 1, retry - 1;
      again := !isSet && retry != 0;
    }
    s.NwpRuns(p);
    var isSet := s.ReadBit(p);
    r := if isSet then 0 else -1;
  }

  /** Frees the lock when Apps owns it and leaves the register alone otherwise. */
  method HwSpinLockRelease(s: SharedRegister, ui32LockID: bv32)
    requires ValidLock(ui32LockID) && s.Valid() && s.state.apps == Idle
    modifies s
    ensures s.Valid() && s.state.apps == Idle && old(s.run) <= s.run
    ensures s.state.appsHolds == old(s.state.appsHolds) - {BitPos(ui32LockID)}
    ensures if View(old(s.state.reg), BitPos(ui32LockID)) == Some(Apps)
            then View(s.state.reg, BitPos(ui32LockID)) == Some(Free)
            else OnlyNwp(old(s.state.reg), s.state.reg)
    ensures OthersOnlyNwp(old(s.state.reg), s.state.reg, BitPos(ui32LockID))
  {
    var p := BitPos(ui32LockID);
    NothingDone(s.run);
    s.Begin(ReleaseTest(p));
    s.NwpRuns(p);
    var isSet := s.ReadBit(p);
    if isSet {
      s.NwpRuns(p);
      s.WriteClear(p);
    }
  }

  /** The current-status half of HwSpinLockTest. */
  method HwSpinLockTestCurrent(s: SharedRegister, ui32LockID: bv32) returns (owner: bv32)
    requires ValidLock(ui32LockID) && s.Valid()
    ensures View(s.state.reg, BitPos(ui32LockID)) == Decode(owner)
    ensures owner in {FREE, APPS, NWP}
  {
    owner := Field(s.state.reg, BitPos(ui32LockID));
    DeviceFacts(s.run, BitPos(ui32LockID));
  }
}
