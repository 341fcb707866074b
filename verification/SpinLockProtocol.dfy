/** The lock as a protocol between two processors, over locks of any kind `L`: every
    interleaving of the steps of the Apps driver (driverlib/hwspinlock.c) with those of the
    network processor. */
module SpinLockProtocol {
  datatype Owner = Free | Apps | Nwp

  /** Where the Apps driver is: between calls, or before its next access to the register. */
  datatype AppsPc<L> =
    | Idle
    | AcquireWrite(p: L) | AcquirePoll(p: L)
    | TryWrite(p: L, retry: nat) | TryPoll(p: L, retry: nat) | TryTest(p: L)
    | ReleaseTest(p: L) | ReleaseClear(p: L)

  /** The network processor claims by the same write-and-read-back and clears only what it
      has claimed. */
  datatype NwpPc<L> = Away | ClaimWrite(p: L) | ClaimPoll(p: L) | Giving(p: L)

  /** `taken` are the owned locks, `appsHolds` those of which an acquire has returned success
      and no release has begun since; `nwpHolds` likewise for the other processor. */
  datatype State<L> = State(taken: map<L, Owner>, apps: AppsPc<L>, nwp: NwpPc<L>, appsHolds: set<L>, nwpHolds: set<L>)
  {
    function OwnerOf(p: L): Owner {
      if p in taken then taken[p] else Free
    }
  }

  /** A claim takes a free lock; a clear frees the lock, whoever owns it. */
  function Claim<L>(s: State<L>, p: L, who: Owner): State<L> {
    if s.OwnerOf(p) == Free then s.(taken := s.taken[p := who]) else s
  }

  function Release<L>(s: State<L>, p: L): State<L> {
    s.(taken := s.taken[p := Free])
  }

  ghost predicate Init<L>(s: State<L>) {
    s == State(map[], Idle, Away, {}, {})
  }

  function FirstTry(retry: nat): nat {
    if retry == 0 then 1 else retry
  }

  /** A call begins. A release gives the lock up at once; zero retries count as one. */
  ghost predicate AppsCalls<L>(s: State<L>, t: State<L>, p: L) {
    s.apps == Idle &&
    (|| t == s.(apps := AcquireWrite(p))
     || (exists retry: nat {:trigger FirstTry(retry)} :: t == s.(apps := TryWrite(p, FirstTry(retry))))
     || t == s.(apps := ReleaseTest(p), appsHolds := s.appsHolds - {p}))
  }

  /** The next access of the Apps call in progress. */
  function AppsAccess<L>(s: State<L>): State<L> {
    match s.apps
    case Idle => s
    case AcquireWrite(p) => Claim(s, p, Apps).(apps := AcquirePoll(p))
    case AcquirePoll(p) =>
      if s.OwnerOf(p) == Apps then s.(apps := Idle, appsHolds := s.appsHolds + {p})
      else s.(apps := AcquireWrite(p))
    case TryWrite(p, retry) => Claim(s, p, Apps).(apps := TryPoll(p, if retry == 0 then 0 else retry - 1))
    case TryPoll(p, retry) =>
      s.(apps := if s.OwnerOf(p) != Apps && retry != 0 then TryWrite(p, retry) else TryTest(p))
    case TryTest(p) =>
      if s.OwnerOf(p) == Apps then s.(apps := Idle, appsHolds := s.appsHolds + {p}) else s.(apps := Idle)
    case ReleaseTest(p) => s.(apps := if s.OwnerOf(p) == Apps then ReleaseClear(p) else Idle)
    case ReleaseClear(p) => Release(s, p).(apps := Idle)
  }

  ghost predicate NwpDecides<L>(s: State<L>, t: State<L>, p: L) {
    s.nwp == Away &&
    (|| t == s.(nwp := ClaimWrite(p))
     || (p in s.nwpHolds && t == s.(nwp := Giving(p), nwpHolds := s.nwpHolds - {p})))
  }

  function NwpAccess<L>(s: State<L>): State<L> {
    match s.nwp
    case Away => s
    case ClaimWrite(p) => Claim(s, p, Nwp).(nwp := ClaimPoll(p))
    case ClaimPoll(p) => s.(nwp := Away, nwpHolds := if s.OwnerOf(p) == Nwp then s.nwpHolds + {p} else s.nwpHolds)
    case Giving(p) => Release(s, p).(nwp := Away)
  }

  ghost predicate AppsNext<L(!new)>(s: State<L>, t: State<L>) {
    t == AppsAccess(s) || exists p: L :: AppsCalls(s, t, p)
  }

  ghost predicate NwpNext<L(!new)>(s: State<L>, t: State<L>) {
    t == NwpAccess(s) || exists p: L :: NwpDecides(s, t, p)
  }

  ghost predicate Next<L(!new)>(s: State<L>, t: State<L>) {
    AppsNext(s, t) || NwpNext(s, t)
  }

  // ---- the invariant

  /** The Apps call in progress is about lock `p`. */
  predicate BusyWith<L(==)>(pc: AppsPc<L>, p: L) {
    pc != Idle && pc.p == p
  }

  ghost predicate LockInv<L>(s: State<L>, p: L) {
    && (p in s.appsHolds ==> s.OwnerOf(p) == Apps)
    && (p in s.nwpHolds ==> s.OwnerOf(p) == Nwp)
    && (s.apps == ReleaseClear(p) ==> s.OwnerOf(p) == Apps && p !in s.appsHolds)
    && (s.nwp == Giving(p) ==> s.OwnerOf(p) == Nwp && p !in s.nwpHolds)
    && (s.apps == ReleaseTest(p) ==> p !in s.appsHolds)
    && (s.OwnerOf(p) == Apps ==> p in s.appsHolds || BusyWith(s.apps, p))
    && (s.OwnerOf(p) == Nwp ==> p in s.nwpHolds || (s.nwp != Away && s.nwp.p == p))
  }

  ghost predicate Inv<L(!new)>(s: State<L>) {
    forall p: L :: LockInv(s, p)
  }

  lemma AppsKeepsInv<L(!new)>(s: State<L>, t: State<L>)
    requires Inv(s) && AppsNext(s, t)
    ensures Inv(t)
  {
    forall p: L
      ensures LockInv(t, p)
    {
      assert LockInv(s, p);
    }
  }

  lemma NwpKeepsInv<L(!new)>(s: State<L>, t: State<L>)
    requires Inv(s) && NwpNext(s, t)
    ensures Inv(t)
  {
    forall p: L
      ensures LockInv(t, p)
    {
      assert LockInv(s, p);
    }
  }

  // ---- runs

  ghost predicate IsRun<L(!new)>(run: seq<State<L>>) {
    |run| > 0 && Init(run[0]) && forall i :: 0 <= i < |run| - 1 ==> Next(run[i], run[i + 1])
  }

  lemma {:induction false} RunInv<L(!new)>(run: seq<State<L>>, i: nat)
    requires IsRun(run) && i < |run|
    ensures Inv(run[i])
  {
    if i > 0 {
      RunInv(run, i - 1);
      assert Next(run[i - 1], run[i - 1 + 1]);
      if AppsNext(run[i - 1], run[i]) {
        AppsKeepsInv(run[i - 1], run[i]);
      } else {
        NwpKeepsInv(run[i - 1], run[i]);
      }
    }
  }

  /** Mutual exclusion in every reachable state: no lock is held by both processors, and a
      held lock names its holder. */
  lemma MutualExclusion<L(!new)>(run: seq<State<L>>, i: nat, p: L)
    requires IsRun(run) && i < |run|
    ensures !(p in run[i].appsHolds && p in run[i].nwpHolds)
    ensures p in run[i].appsHolds ==> run[i].OwnerOf(p) == Apps
    ensures p in run[i].nwpHolds ==> run[i].OwnerOf(p) == Nwp
  {
    RunInv(run, i);
    assert LockInv(run[i], p);
  }

  /** Between Apps calls a lock names Apps exactly when Apps holds it: a failed try-acquire
      has left nothing behind and a release has left nothing held. */
  lemma NoLeftovers<L(!new)>(run: seq<State<L>>, i: nat, p: L)
    requires IsRun(run) && i < |run| && run[i].apps == Idle
    ensures run[i].OwnerOf(p) == Apps <==> p in run[i].appsHolds
  {
    RunInv(run, i);
    assert LockInv(run[i], p);
  }

  /** Once an acquire has returned, Apps owns the lock until its own release begins, through
      any steps of either processor. */
  lemma {:induction false} HeldUntilRelease<L(!new)>(run: seq<State<L>>, i: nat, j: nat, p: L)
    requires IsRun(run) && i <= j < |run| && p in run[i].appsHolds
    requires forall k | i < k <= j :: run[k].apps != ReleaseTest(p)
    ensures p in run[j].appsHolds && run[j].OwnerOf(p) == Apps
    decreases j
  {
    RunInv(run, j);
    assert LockInv(run[j], p);
    if i < j {
      HeldUntilRelease(run, i, j - 1, p);
      assert Next(run[j - 1], run[j - 1 + 1]);
    }
  }

  /** No access of an Apps call changes the owner of any lock but its own. */
  lemma AppsTouchesOwnLock<L(!new)>(s: State<L>, t: State<L>, p: L)
    requires AppsNext(s, t) && !BusyWith(s.apps, p)
    ensures t.OwnerOf(p) == s.OwnerOf(p)
  {
  }

  /** The network processor never takes or frees a lock that Apps owns. */
  lemma NwpRespectsApps<L(!new)>(s: State<L>, t: State<L>, p: L)
    requires Inv(s) && NwpNext(s, t)
    ensures s.OwnerOf(p) == Apps <==> t.OwnerOf(p) == Apps
  {
    assert LockInv(s, p);
  }

  /** A claim on a free lock cannot lose: whatever the network processor does between the
      claim and the poll, the poll makes Apps the holder. */
  lemma {:induction false} ClaimOnFreeWins<L(!new)>(run: seq<State<L>>, i: nat, j: nat, p: L)
    requires IsRun(run) && i < j < |run|
    requires run[i].apps == AcquireWrite(p) && run[i].OwnerOf(p) == Free && run[i + 1] == AppsAccess(run[i])
    requires forall k | i + 1 <= k < j :: NwpNext(run[k], run[k + 1])
    ensures run[j].OwnerOf(p) == Apps && run[j].apps == AcquirePoll(p)
    ensures p in AppsAccess(run[j]).appsHolds
    decreases j
  {
    if j > i + 1 {
      ClaimOnFreeWins(run, i, j - 1, p);
      RunInv(run, j - 1);
      assert NwpNext(run[j - 1], run[j - 1 + 1]);
      NwpRespectsApps(run[j - 1], run[j], p);
    }
  }
}
