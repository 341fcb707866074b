/** The protocol on a shared register word. The word is abstract here: a type `R` with the
    accesses the processors make and the laws those accesses obey; `SpinLockWord` supplies
    the 32-bit register of the device. */
module SpinLockMachine {
  import opened P = SpinLockProtocol
  import opened Wrappers

  /** The accesses: the word after each processor's claim write, the word after a clear
      write, the bit test of the Apps driver, and the owner a field shows (None for the
      combination that means nothing). */
  datatype Word<!R, !L> = Word(zero: R, appsClaim: (R, L) -> R, nwpClaim: (R, L) -> R, clear: (R, L) -> R,
                               appsBit: (R, L) -> bool, view: (R, L) -> Option<Owner>)

  ghost predicate Laws<R(!new), L(!new)>(w: Word<R, L>) {
    && (forall r: R, p: L, q: L :: w.view(w.appsClaim(r, p), q) ==
          if p == q && w.view(r, q) == Some(Free) then Some(Apps) else w.view(r, q))
    && (forall r: R, p: L, q: L :: w.view(w.nwpClaim(r, p), q) ==
          if p == q && w.view(r, q) == Some(Free) then Some(Nwp) else w.view(r, q))
    && (forall r: R, p: L, q: L :: w.view(w.clear(r, p), q) == if p == q then Some(Free) else w.view(r, q))
    && (forall r: R, p: L :: w.view(r, p) != None ==> (w.appsBit(r, p) <==> w.view(r, p) == Some(Apps)))
    && (forall p: L :: w.view(w.zero, p) == Some(Free))
  }

  datatype Machine<R, L> = Machine(reg: R, apps: AppsPc<L>, nwp: NwpPc<L>, appsHolds: set<L>, nwpHolds: set<L>)

  ghost predicate Start<R, L>(w: Word<R, L>, m: Machine<R, L>) {
    m == Machine(w.zero, Idle, Away, {}, {})
  }

  ghost predicate Calls<R, L>(m: Machine<R, L>, n: Machine<R, L>, p: L) {
    m.apps == Idle &&
    (|| n == m.(apps := AcquireWrite(p))
     || (exists retry: nat {:trigger FirstTry(retry)} :: n == m.(apps := TryWrite(p, FirstTry(retry))))
     || n == m.(apps := ReleaseTest(p), appsHolds := m.appsHolds - {p}))
  }

  function Access<R, L>(w: Word<R, L>, m: Machine<R, L>): Machine<R, L> {
    match m.apps
    case Idle => m
    case AcquireWrite(p) => m.(reg := w.appsClaim(m.reg, p), apps := AcquirePoll(p))
    case AcquirePoll(p) =>
      if w.appsBit(m.reg, p) then m.(apps := Idle, appsHolds := m.appsHolds + {p}) else m.(apps := AcquireWrite(p))
    case TryWrite(p, retry) =>
      m.(reg := w.appsClaim(m.reg, p), apps := TryPoll(p, if retry == 0 then 0 else retry - 1))
    case TryPoll(p, retry) =>
      m.(apps := if !w.appsBit(m.reg, p) && retry != 0 then TryWrite(p, retry) else TryTest(p))
    case TryTest(p) =>
      if w.appsBit(m.reg, p) then m.(apps := Idle, appsHolds := m.appsHolds + {p}) else m.(apps := Idle)
    case ReleaseTest(p) => m.(apps := if w.appsBit(m.reg, p) then ReleaseClear(p) else Idle)
    case ReleaseClear(p) => m.(reg := w.clear(m.reg, p), apps := Idle)
  }

  ghost predicate Decides<R, L>(m: Machine<R, L>, n: Machine<R, L>, p: L) {
    m.nwp == Away &&
    (|| n == m.(nwp := ClaimWrite(p))
     || (p in m.nwpHolds && n == m.(nwp := Giving(p), nwpHolds := m.nwpHolds - {p})))
  }

  function OtherAccess<R, L>(w: Word<R, L>, m: Machine<R, L>): Machine<R, L> {
    match m.nwp
    case Away => m
    case ClaimWrite(p) => m.(reg := w.nwpClaim(m.reg, p), nwp := ClaimPoll(p))
    case ClaimPoll(p) =>
      m.(nwp := Away, nwpHolds := if w.view(m.reg, p) == Some(Nwp) then m.nwpHolds + {p} else m.nwpHolds)
    case Giving(p) => m.(reg := w.clear(m.reg, p), nwp := Away)
  }

  ghost predicate Step<R, L(!new)>(w: Word<R, L>, m: Machine<R, L>, n: Machine<R, L>) {
    || n == Access(w, m) || (exists p: L :: Calls(m, n, p))
    || n == OtherAccess(w, m) || (exists p: L :: Decides(m, n, p))
  }

  // ---- simulation

  /** The register shows the protocol's owners and everything else is equal. */
  ghost predicate Sim<R, L(!new)>(w: Word<R, L>, m: Machine<R, L>, s: State<L>) {
    && (forall p: L :: w.view(m.reg, p) == Some(s.OwnerOf(p)))
    && m.apps == s.apps && m.nwp == s.nwp && m.appsHolds == s.appsHolds && m.nwpHolds == s.nwpHolds
  }

  lemma AccessSim<R(!new), L(!new)>(w: Word<R, L>, m: Machine<R, L>, s: State<L>)
    requires Laws(w) && Sim(w, m, s)
    ensures Sim(w, Access(w, m), AppsAccess(s))
  {
    if m.apps != Idle {
      assert w.view(m.reg, m.apps.p) == Some(s.OwnerOf(m.apps.p));
    }
  }

  lemma OtherAccessSim<R(!new), L(!new)>(w: Word<R, L>, m: Machine<R, L>, s: State<L>)
    requires Laws(w) && Sim(w, m, s)
    ensures Sim(w, OtherAccess(w, m), NwpAccess(s))
  {
    if m.nwp != Away {
      assert w.view(m.reg, m.nwp.p) == Some(s.OwnerOf(m.nwp.p));
    }
  }

  /** Every step of the machine is a step of the protocol. */
  lemma StepSim<R(!new), L(!new)>(w: Word<R, L>, m: Machine<R, L>, s: State<L>, n: Machine<R, L>) returns (t: State<L>)
    requires Laws(w) && Sim(w, m, s) && Step(w, m, n)
    ensures Next(s, t) && Sim(w, n, t)
  {
    if n == Access(w, m) {
      t := AppsAccess(s);
      AccessSim(w, m, s);
    } else if n == OtherAccess(w, m) {
      t := NwpAccess(s);
      OtherAccessSim(w, m, s);
    } else {
      t := s.(apps := n.apps, nwp := n.nwp, appsHolds := n.appsHolds, nwpHolds := n.nwpHolds);
      if p: L :| Calls(m, n, p) {
        assert AppsCalls(s, t, p);
      } else {
        var p: L :| Decides(m, n, p);
        assert NwpDecides(s, t, p);
      }
    }
  }

  ghost predicate IsMachineRun<R(!new), L(!new)>(w: Word<R, L>, run: seq<Machine<R, L>>) {
    |run| > 0 && Start(w, run[0]) && forall i :: 0 <= i < |run| - 1 ==> Step(w, run[i], run[i + 1])
  }

  /** Every run of the machine has a run of the protocol beside it. */
  lemma {:induction false} RunSim<R(!new), L(!new)>(w: Word<R, L>, run: seq<Machine<R, L>>) returns (abs: seq<State<L>>)
    requires Laws(w) && IsMachineRun(w, run)
    ensures IsRun(abs) && |abs| == |run|
    ensures forall i :: 0 <= i < |run| ==> Sim(w, run[i], abs[i])
    decreases |run|
  {
    if |run| == 1 {
      abs := [State(map[], Idle, Away, {}, {})];
    } else {
      var n := |run| - 1;
      RunPrefix(w, run);
      var pre := RunSim(w, run[..n]);
      assert Sim(w, run[..n][n - 1], pre[n - 1]);
      var t := StepSim(w, run[n - 1], pre[n - 1], run[n]);
      RunExtends(pre, t);
      abs := pre + [t];
    }
  }

  lemma RunPrefix<R(!new), L(!new)>(w: Word<R, L>, run: seq<Machine<R, L>>)
    requires IsMachineRun(w, run) && |run| > 1
    ensures IsMachineRun(w, run[..|run| - 1]) && Step(w, run[|run| - 2], run[|run| - 1])
  {
    assert Step(w, run[|run| - 2], run[|run| - 2 + 1]);
  }

  lemma RunExtends<L(!new)>(run: seq<State<L>>, t: State<L>)
    requires IsRun(run) && Next(run[|run| - 1], t)
    ensures IsRun(run + [t])
  {
  }

  /** Mutual exclusion on the word: in every reachable state of every interleaving no field
      shows the meaningless combination, no lock is held by both processors and a held lock's
      field names its holder; and between Apps calls a field names Apps only if Apps holds
      the lock. */
  lemma WordMutualExclusion<R(!new), L(!new)>(w: Word<R, L>, run: seq<Machine<R, L>>, i: nat, p: L)
    requires Laws(w) && IsMachineRun(w, run) && i < |run|
    ensures w.view(run[i].reg, p) != None
    ensures !(p in run[i].appsHolds && p in run[i].nwpHolds)
    ensures p in run[i].appsHolds ==> w.view(run[i].reg, p) == Some(Apps)
    ensures p in run[i].nwpHolds ==> w.view(run[i].reg, p) == Some(Nwp)
    ensures run[i].apps == Idle && w.view(run[i].reg, p) == Some(Apps) ==> p in run[i].appsHolds
  {
    var abs := RunSim(w, run);
    assert Sim(w, run[i], abs[i]);
    MutualExclusion(abs, i, p);
    if run[i].apps == Idle {
      NoLeftovers(abs, i, p);
    }
  }

  /** A lock an acquire has returned stays with Apps until its own release begins. */
  lemma WordHeldUntilRelease<R(!new), L(!new)>(w: Word<R, L>, run: seq<Machine<R, L>>, i: nat, j: nat, p: L)
    requires Laws(w) && IsMachineRun(w, run) && i <= j < |run| && p in run[i].appsHolds
    requires forall k | i < k <= j :: run[k].apps != ReleaseTest(p)
    ensures p in run[j].appsHolds && w.view(run[j].reg, p) == Some(Apps)
  {
    var abs := RunSim(w, run);
    forall k | i <= k <= j
      ensures abs[k].apps == run[k].apps && abs[k].appsHolds == run[k].appsHolds
    {
      assert Sim(w, run[k], abs[k]);
    }
    HeldUntilRelease(abs, i, j, p);
    assert Sim(w, run[j], abs[j]);
  }

  // ---- the last state of a run

  function LastOf<R, L>(run: seq<Machine<R, L>>): Machine<R, L>
    requires |run| > 0
  {
    run[|run| - 1]
  }

  lemma Extend<R(!new), L(!new)>(w: Word<R, L>, run: seq<Machine<R, L>>, n: Machine<R, L>)
    requires IsMachineRun(w, run) && Step(w, LastOf(run), n)
    ensures IsMachineRun(w, run + [n]) && LastOf(run + [n]) == n
  {
  }

  /** What the last state of a run says about a lock. */
  lemma LastFacts<R(!new), L(!new)>(w: Word<R, L>, run: seq<Machine<R, L>>, p: L)
    requires Laws(w) && IsMachineRun(w, run)
    ensures var m := LastOf(run);
            && w.view(m.reg, p) != None && (w.appsBit(m.reg, p) <==> w.view(m.reg, p) == Some(Apps))
            && (w.view(m.reg, p) == Some(Nwp) ==> p in m.nwpHolds || (m.nwp != Away && m.nwp.p == p))
            && (p in m.appsHolds ==> w.view(m.reg, p) == Some(Apps))
  {
    var abs := RunSim(w, run);
    var i := |run| - 1;
    assert Sim(w, run[i], abs[i]);
    assert w.view(run[i].reg, p) == Some(abs[i].OwnerOf(p));
    RunInv(abs, i);
    assert LockInv(abs[i], p);
  }

  ghost predicate OtherStep<R, L(!new)>(w: Word<R, L>, m: Machine<R, L>, n: Machine<R, L>) {
    n == OtherAccess(w, m) || exists p: L :: Decides(m, n, p)
  }

  /** A step of the other processor leaves the Apps call alone and neither takes a lock from
      Apps nor gives one to it. */
  lemma OtherStepKeeps<R(!new), L(!new)>(w: Word<R, L>, run: seq<Machine<R, L>>, n: Machine<R, L>, p: L)
    requires Laws(w) && IsMachineRun(w, run) && OtherStep(w, LastOf(run), n)
    ensures var m := LastOf(run);
            && n.apps == m.apps && n.appsHolds == m.appsHolds && w.view(n.reg, p) != None
            && (w.view(n.reg, p) == Some(Apps) <==> w.view(m.reg, p) == Some(Apps))
  {
    LastFacts(w, run, p);
    var m := LastOf(run);
    if n == OtherAccess(w, m) && m.nwp != Away {
      LastFacts(w, run, m.nwp.p);
      GivingIsOwn(w, run);
    }
  }

  /** A lock that is about to be freed by the other processor is its own. */
  lemma GivingIsOwn<R(!new), L(!new)>(w: Word<R, L>, run: seq<Machine<R, L>>)
    requires Laws(w) && IsMachineRun(w, run)
    ensures var m := LastOf(run); m.nwp.Giving? ==> w.view(m.reg, m.nwp.p) == Some(Nwp)
  {
    var i := |run| - 1;
    if run[i].nwp.Giving? {
      var abs := RunSim(w, run);
      assert Sim(w, run[i], abs[i]);
      assert w.view(run[i].reg, run[i].nwp.p) == Some(abs[i].OwnerOf(run[i].nwp.p));
      RunInv(abs, i);
      assert LockInv(abs[i], run[i].nwp.p);
    }
  }
}

/** The device's register satisfies the laws, so its runs have the properties above. */
module SpinLockWord {
  import opened SpinLockRegister
  import P = SpinLockProtocol
  import M = SpinLockMachine
  import opened Wrappers

  /** The owner that two bits name. */
  function Decode(f: bv32): Option<P.Owner> {
    if f == FREE then Some(P.Free)
    else if f == APPS then Some(P.Apps)
    else if f == NWP then Some(P.Nwp)
    else None
  }

  function View(r: bv32, p: Pos): Option<P.Owner> {
    Decode(Field(r, p))
  }

  /** The owner in terms of the field's two bits of the word. */
  lemma ViewBits(r: bv32, p: Pos)
    ensures View(r, p) == Some(P.Free) <==> r & (1 << p) == 0 && r & (2 << p) == 0
    ensures View(r, p) == Some(P.Apps) <==> r & (1 << p) != 0 && r & (2 << p) == 0
    ensures View(r, p) == Some(P.Nwp) <==> r & (1 << p) == 0 && r & (2 << p) != 0
  {
    FieldBits(r, p);
  }

  lemma DecodeClaim(f: bv32, g: bv32, own: bool)
    ensures f == (if own && g == FREE then APPS else g) ==>
            Decode(f) == if own && Decode(g) == Some(P.Free) then Some(P.Apps) else Decode(g)
    ensures f == (if own && g == FREE then NWP else g) ==>
            Decode(f) == if own && Decode(g) == Some(P.Free) then Some(P.Nwp) else Decode(g)
  {
  }

  function Semaphores(): M.Word<bv32, Pos> {
    M.Word(0,
           (r: bv32, p: Pos) => Write(r, AppsClaim(p)),
           (r: bv32, p: Pos) => Write(r, NwpClaim(p)),
           (r: bv32, p: Pos) => Write(r, Clear(p)),
           (r: bv32, p: Pos) => AppsBit(r, p),
           (r: bv32, p: Pos) => View(r, p))
  }

  lemma AppsClaimView(r: bv32, p: Pos, q: Pos)
    ensures View(Write(r, AppsClaim(p)), q) ==
            if p == q && View(r, q) == Some(P.Free) then Some(P.Apps) else View(r, q)
  {
    var f, g := Field(Write(r, AppsClaim(p)), q), Field(r, q);
    AppsClaimWrites(r, p, q);
    DecodeClaim(f, g, p == q);
  }

  lemma NwpClaimView(r: bv32, p: Pos, q: Pos)
    ensures View(Write(r, NwpClaim(p)), q) ==
            if p == q && View(r, q) == Some(P.Free) then Some(P.Nwp) else View(r, q)
  {
    var f, g := Field(Write(r, NwpClaim(p)), q), Field(r, q);
    NwpClaimWrites(r, p, q);
    DecodeClaim(f, g, p == q);
  }

  lemma ClearView(r: bv32, p: Pos, q: Pos)
    ensures View(Write(r, Clear(p)), q) == if p == q then Some(P.Free) else View(r, q)
  {
    ClearWrites(r, p, q);
  }

  lemma BitView(r: bv32, p: Pos)
    ensures View(r, p) != None ==> (AppsBit(r, p) <==> View(r, p) == Some(P.Apps))
  {
    if Field(r, p) != 3 {
      BitMeansApps(r, p);
    }
  }

  lemma SemaphoreLaws()
    ensures M.Laws(Semaphores())
  {
    var w := Semaphores();
    forall r: bv32, p: Pos, q: Pos
      ensures w.view(w.appsClaim(r, p), q) ==
              if p == q && w.view(r, q) == Some(P.Free) then Some(P.Apps) else w.view(r, q)
    {
      AppsClaimView(r, p, q);
    }
    forall r: bv32, p: Pos, q: Pos
      ensures w.view(w.nwpClaim(r, p), q) ==
              if p == q && w.view(r, q) == Some(P.Free) then Some(P.Nwp) else w.view(r, q)
    {
      NwpClaimView(r, p, q);
    }
    forall r: bv32, p: Pos, q: Pos
      ensures w.view(w.clear(r, p), q) == if p == q then Some(P.Free) else w.view(r, q)
    {
      ClearView(r, p, q);
    }
    forall r: bv32, p: Pos
      ensures w.view(r, p) != None ==> (w.appsBit(r, p) <==> w.view(r, p) == Some(P.Apps))
    {
      BitView(r, p);
    }
  }

  /** So in every reachable state of every interleaving on the device's register no field is
      11, no lock is held by both processors, and a held lock's field names its holder. */
  lemma DeviceMutualExclusion(run: seq<M.Machine<bv32, Pos>>, i: nat, p: Pos)
    requires M.IsMachineRun(Semaphores(), run) && i < |run|
    ensures Field(run[i].reg, p) != 3
    ensures !(p in run[i].appsHolds && p in run[i].nwpHolds)
    ensures p in run[i].appsHolds ==> Field(run[i].reg, p) == APPS
    ensures p in run[i].nwpHolds ==> Field(run[i].reg, p) == NWP
  {
    SemaphoreLaws();
    M.WordMutualExclusion(Semaphores(), run, i, p);
    assert Semaphores().view(run[i].reg, p) == View(run[i].reg, p);
  }

  /** And a lock that an acquire has returned stays with Apps until its own release begins. */
  lemma DeviceHeldUntilRelease(run: seq<M.Machine<bv32, Pos>>, i: nat, j: nat, p: Pos)
    requires M.IsMachineRun(Semaphores(), run) && i <= j < |run| && p in run[i].appsHolds
    requires forall k | i < k <= j :: run[k].apps != P.ReleaseTest(p)
    ensures p in run[j].appsHolds && Field(run[j].reg, p) == APPS
  {
    SemaphoreLaws();
    M.WordHeldUntilRelease(Semaphores(), run, i, j, p);
    assert Semaphores().view(run[j].reg, p) == View(run[j].reg, p);
  }
}
