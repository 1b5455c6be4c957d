/** LockQueue: a thread that acquires and releases all locks on behalf of others. */
module LockQueues {
  // Where the thread that made a request stands. It owns the monitor of its request
  // from the construction until it waits, and again when the wait has returned.
  datatype Phase = Submitted | Waiting | Woken | Returned

  datatype Kind = Acquire(wait: bool) | Release(of: nat)

  // holds: an acquired lock that has not been given back; releasing: its release is under way.
  datatype Req = Req(kind: Kind, target: nat, phase: Phase, answers: nat, locked: bool, holds: bool, releasing: bool)

  // The thread that owns a target: the queue thread on behalf of a request, or another one.
  datatype Owner = Queue(r: nat) | Other

  // Where the queue thread continues after an answer.
  datatype Back = ToReleases | ToGrants(left: nat)

  // The queue thread: in wait(); in the loop over releases; in the loop over the
  // requests left of this pass; about to lock the monitor of request r; owning it; stopped.
  datatype Pc =
    | Idle
    | Releasing
    | Granting(left: nat)
    | Answering(r: nat, back: Back)
    | Notifying(r: nat, back: Back)
    | Stopped

  datatype State = State(
    reqs: map<nat, Req>, pendingLock: seq<nat>, pendingRelease: seq<nat>,
    owner: map<nat, Owner>, pc: Pc, go: bool, next: nat)

  datatype Step =
    | SubmitAcquire(target: nat, wait: bool) | SubmitRelease(of: nat)
    | Wait(r: nat) | Return(r: nat)
    | Wake | TakeRelease | EndReleases | TryFirst | EndPass | LockMonitor | Notify
    | Shutdown | Exit
    | External(target: nat)

  // The queue monitor is free only while the queue thread waits or has stopped.
  predicate MonitorFree(s: State) {
    s.pc.Idle? || s.pc.Stopped?
  }

  // The holder of a lock may submit its release once.
  predicate MayRelease(s: State, of: nat) {
    of in s.reqs && s.reqs[of].holds && !s.reqs[of].releasing && s.reqs[of].phase.Returned?
  }

  // A requester starts to wait, or comes back from waiting.
  predicate MayPass(s: State, r: nat, p: Phase) {
    r in s.reqs && ((s.reqs[r].phase.Submitted? && p.Waiting?) || (s.reqs[r].phase.Woken? && p.Returned?))
  }

  predicate Unlocking(s: State) {
    s.pc.Releasing? && s.pendingRelease != [] && s.pendingRelease[0] in s.reqs
  }

  // The queue thread is about to try its next request; left are to follow in this pass.
  predicate Trying(s: State, left: nat) {
    s.pc == Granting(left + 1) && s.pendingLock != [] && s.pendingLock[0] in s.reqs
  }

  predicate Enabled(s: State, step: Step, external: set<nat>) {
    match step
    case SubmitAcquire(t, w) => MonitorFree(s)
    case SubmitRelease(of) => MonitorFree(s) && MayRelease(s, of)
    case Wait(r) => r in s.reqs && s.reqs[r].phase.Submitted?
    case Return(r) => r in s.reqs && s.reqs[r].phase.Woken? && !(s.pc.Notifying? && s.pc.r == r)
    case Wake => s.pc.Idle? && (s.go || s.pendingLock != [] || s.pendingRelease != [])
    case TakeRelease => Unlocking(s)
    case EndReleases => s.pc.Releasing? && s.pendingRelease == []
    case TryFirst => s.pc.Granting? && s.pc.left > 0 && s.pendingLock != [] && s.pendingLock[0] in s.reqs
    case EndPass => s.pc.Granting? && s.pc.left == 0
    case LockMonitor => s.pc.Answering? && s.pc.r in s.reqs && s.reqs[s.pc.r].phase.Waiting?
    case Notify => s.pc.Notifying? && s.pc.r in s.reqs
    case Shutdown => true
    case Exit => s.pc.Idle? && !s.go && s.pendingLock == [] && s.pendingRelease == []
    case External(t) => t in external && (t in s.owner ==> s.owner[t].Other?)
  }

  function Resume(b: Back): Pc {
    match b
    case ToReleases => Releasing
    case ToGrants(left) => Granting(left)
  }

  function Acquiring(s: State, t: nat, w: bool): State {
    s.(reqs := s.reqs[s.next := Req(Acquire(w), t, Submitted, 0, false, false, false)],
       pendingLock := s.pendingLock + [s.next], next := s.next + 1)
  }

  function ReleasingOf(s: State, of: nat): State
    requires of in s.reqs
  {
    var q := Req(Release(of), s.reqs[of].target, Submitted, 0, false, false, false);
    s.(reqs := s.reqs[of := s.reqs[of].(releasing := true)][s.next := q],
       pendingRelease := s.pendingRelease + [s.next], next := s.next + 1)
  }

  function InPhase(s: State, r: nat, p: Phase): State
    requires r in s.reqs
  {
    s.(reqs := s.reqs[r := s.reqs[r].(phase := p)])
  }

  // The queue thread unlocks the target of the first pending release.
  function Unlocked(s: State): State
    requires s.pendingRelease != [] && s.pendingRelease[0] in s.reqs
  {
    var r := s.pendingRelease[0];
    var q := s.reqs[r];
    s.(pendingRelease := s.pendingRelease[1..], owner := s.owner - {q.target}, pc := Answering(r, ToReleases),
       reqs :=
         if q.kind.Release? && q.kind.of in s.reqs then
           s.reqs[q.kind.of := s.reqs[q.kind.of].(holds := false)]
         else s.reqs)
  }

  // The queue thread locks the target of the first pending request ...
  function Granted(s: State, left: nat): State
    requires s.pendingLock != [] && s.pendingLock[0] in s.reqs
  {
    var r := s.pendingLock[0];
    s.(reqs := s.reqs[r := s.reqs[r].(locked := true, holds := true)], pendingLock := s.pendingLock[1..],
       owner := s.owner[s.reqs[r].target := Queue(r)], pc := Answering(r, ToGrants(left)))
  }

  // ... or tells the requester that it is locked ...
  function Refused(s: State, left: nat): State
    requires s.pendingLock != []
  {
    s.(pendingLock := s.pendingLock[1..], pc := Answering(s.pendingLock[0], ToGrants(left)))
  }

  // ... or keeps the request for the next pass.
  function PutBack(s: State, left: nat): State
    requires s.pendingLock != []
  {
    s.(pendingLock := s.pendingLock[1..] + [s.pendingLock[0]], pc := Granting(left))
  }

  // notify wakes the owner of the request only if it is waiting.
  function Notified(s: State, r: nat, back: Back): State
    requires r in s.reqs
  {
    var q := s.reqs[r];
    s.(reqs := s.reqs[r := q.(answers := q.answers + 1, phase := if q.phase.Waiting? then Woken else q.phase)],
       pc := Resume(back))
  }

  function Do(s: State, step: Step, external: set<nat>): State
    requires Enabled(s, step, external)
  {
    match step
    case SubmitAcquire(t, w) => Acquiring(s, t, w)
    case SubmitRelease(of) => ReleasingOf(s, of)
    case Wait(r) => InPhase(s, r, Waiting)
    case Return(r) => InPhase(s, r, Returned)
    case Wake => s.(pc := Releasing)
    case TakeRelease => Unlocked(s)
    case EndReleases => s.(pc := Granting(|s.pendingLock|))
    case TryFirst =>
      var q, left := s.reqs[s.pendingLock[0]], s.pc.left - 1;
      if q.target !in s.owner then Granted(s, left)
      else if q.kind.Acquire? && !q.kind.wait then Refused(s, left)
      else PutBack(s, left)
    case EndPass => s.(pc := Idle)
    case LockMonitor => s.(pc := Notifying(s.pc.r, s.pc.back))
    case Notify => Notified(s, s.pc.r, s.pc.back)
    case Shutdown => s.(go := false)
    case Exit => s.(pc := Stopped)
    case External(t) => s.(owner := if t in s.owner then s.owner - {t} else s.owner[t := Other])
  }

  // The queue before its first request.
  predicate Init(s: State) {
    && s.reqs == map[] && s.pendingLock == [] == s.pendingRelease && s.owner == map[]
    && s.pc == Idle && s.go && s.next == 0
  }

  ghost predicate Run(s: State, steps: seq<Step>, external: set<nat>, t: State)
    decreases steps
  {
    if steps == [] then s == t
    else Enabled(s, steps[0], external) && Run(Do(s, steps[0], external), steps[1..], external, t)
  }

  /* The invariant. */

  predicate InHand(s: State, r: nat) {
    (s.pc.Answering? || s.pc.Notifying?) && s.pc.r == r
  }

  // How many requests of pendingLock this pass has not tried yet.
  function Left(s: State): int {
    match s.pc
    case Granting(left) => left
    case Answering(_, ToGrants(left)) => left
    case Notifying(_, ToGrants(left)) => left
    case _ => |s.pendingLock|
  }

  predicate InGrants(s: State) {
    s.pc.Granting? || ((s.pc.Answering? || s.pc.Notifying?) && s.pc.back.ToGrants?)
  }

  ghost predicate NoRepeats(q: seq<nat>) {
    forall i, j :: 0 <= i < j < |q| ==> q[i] != q[j]
  }

  predicate Open(q: Req) {
    q.phase.Submitted? || q.phase.Waiting?
  }

  // Every request in a list or in the hand of the queue thread is open.
  ghost predicate Listed(s: State) {
    && NoRepeats(s.pendingLock) && NoRepeats(s.pendingRelease)
    && (forall r :: r in s.reqs ==> r < s.next)
    && (forall r :: r in s.pendingLock ==>
      r in s.reqs && s.reqs[r].kind.Acquire? && Open(s.reqs[r]) && !s.reqs[r].holds && !InHand(s, r))
    && (forall r :: r in s.pendingRelease ==>
      r in s.reqs && s.reqs[r].kind.Release? && Open(s.reqs[r]) && !InHand(s, r))
    && (s.pc.Answering? || s.pc.Notifying? ==> s.pc.r in s.reqs && Open(s.reqs[s.pc.r]))
    && (s.pc.Notifying? ==> s.reqs[s.pc.r].phase.Waiting?)
  }

  // Every open request is in a list or in the hand of the queue thread and has not been
  // answered; all others have been answered once.
  ghost predicate Counted(s: State) {
    && (forall r :: r in s.reqs && Open(s.reqs[r]) ==> r in s.pendingLock || r in s.pendingRelease || InHand(s, r))
    && (forall r :: r in s.reqs ==> s.reqs[r].answers == if Open(s.reqs[r]) then 0 else 1)
  }

  // The owner table tells which request holds which lock.
  ghost predicate Owned(s: State, external: set<nat>) {
    && (forall r :: r in s.reqs && s.reqs[r].holds ==>
      s.reqs[r].target in s.owner && s.owner[s.reqs[r].target] == Queue(r))
    && (forall t :: t in s.owner && s.owner[t].Queue? ==>
      s.owner[t].r in s.reqs && s.reqs[s.owner[t].r].holds && s.reqs[s.owner[t].r].target == t)
    && (forall t :: t in s.owner && s.owner[t].Other? ==> t in external)
  }

  // A held lock is given back only by a release that its holder has submitted, once.
  ghost predicate Releasable(s: State) {
    && (forall r :: r in s.pendingRelease && r in s.reqs ==> Releases(s, s.reqs[r]))
    && (forall q, r :: q in s.pendingRelease && r in s.pendingRelease && q in s.reqs && r in s.reqs && q != r ==>
      s.reqs[q].kind != s.reqs[r].kind)
  }

  predicate Releases(s: State, q: Req) {
    && q.kind.Release? && q.kind.of in s.reqs
    && s.reqs[q.kind.of].holds && s.reqs[q.kind.of].releasing && s.reqs[q.kind.of].target == q.target
  }

  // pendingLock in the order of arrival: behind the requests not tried in this pass
  // stand, in the same order, those put back because their targets are locked.
  ghost predicate Ordered(s: State, external: set<nat>) {
    Arrived(s.pendingLock, Left(s)) && Blocked(s, external)
  }

  ghost predicate Arrived(q: seq<nat>, left: int) {
    && 0 <= left <= |q|
    && (forall i, j :: 0 <= i < j < left ==> q[i] < q[j])
    && (forall i, j :: left <= i < j < |q| ==> q[i] < q[j])
    && (forall i, j :: 0 <= i < left <= j < |q| ==> q[j] < q[i])
  }

  // No release is pending while locks are granted, and what has been put back waits
  // for a target that is locked.
  ghost predicate Blocked(s: State, external: set<nat>) {
    && (InGrants(s) ==> s.pendingRelease == [])
    && (forall k ::
          && Left(s) <= k < |s.pendingLock| && s.pendingLock[k] in s.reqs
          && s.reqs[s.pendingLock[k]].target !in external
          ==> s.reqs[s.pendingLock[k]].target in s.owner)
  }

  ghost predicate Inv(s: State, external: set<nat>) {
    Listed(s) && Counted(s) && Owned(s, external) && Releasable(s) && Ordered(s, external)
  }

  lemma {:induction false} NoRepeatsAppend(q: seq<nat>, x: nat)
    requires NoRepeats(q) && x !in q
    ensures NoRepeats(q + [x])
  {
    forall i | 0 <= i < |q| ensures q[i] != x {
      assert q[i] in q;
    }
  }

  lemma {:induction false} AcquiringAccounts(s: State, t: nat, w: bool)
    requires Listed(s) && Counted(s) && MonitorFree(s)
    ensures Listed(Acquiring(s, t, w)) && Counted(Acquiring(s, t, w))
  {
    NoRepeatsAppend(s.pendingLock, s.next);
  }

  lemma {:induction false} AcquiringLocks(s: State, t: nat, w: bool, external: set<nat>)
    requires Listed(s) && Owned(s, external) && Releasable(s) && MonitorFree(s)
    ensures Owned(Acquiring(s, t, w), external) && Releasable(Acquiring(s, t, w))
  {
  }

  lemma {:induction false} AcquiringOrder(s: State, t: nat, w: bool, external: set<nat>)
    requires Listed(s) && Ordered(s, external) && MonitorFree(s)
    ensures Ordered(Acquiring(s, t, w), external)
  {
    forall i | 0 <= i < |s.pendingLock| ensures s.pendingLock[i] < s.next {
      assert s.pendingLock[i] in s.pendingLock;
    }
  }

  lemma {:induction false} ReleasingOfAccounts(s: State, of: nat)
    requires Listed(s) && Counted(s) && MonitorFree(s) && MayRelease(s, of)
    ensures Listed(ReleasingOf(s, of)) && Counted(ReleasingOf(s, of))
  {
    NoRepeatsAppend(s.pendingRelease, s.next);
  }

  lemma {:induction false} ReleasingOfOwners(s: State, of: nat, external: set<nat>)
    requires Listed(s) && Owned(s, external) && MayRelease(s, of)
    ensures Owned(ReleasingOf(s, of), external)
  {
  }

  lemma {:induction false} ReleasingOfReleases(s: State, of: nat)
    requires Listed(s) && Releasable(s) && MayRelease(s, of)
    ensures Releasable(ReleasingOf(s, of))
  {
    var s' := ReleasingOf(s, of);
    forall r | r in s.pendingRelease
      ensures r in s'.reqs && Releases(s', s'.reqs[r]) && s'.reqs[r].kind == s.reqs[r].kind
      ensures s.reqs[r].kind != Release(of)
    {
      ReleasedBefore(s, of, r);
    }
    hide Listed;
    forall r | r in s'.pendingRelease ensures r in s'.reqs && Releases(s', s'.reqs[r]) {
      assert r in s.pendingRelease || r == s.next;
    }
  }

  // A release submitted before is one of another lock, which stays held.
  lemma {:induction false} ReleasedBefore(s: State, of: nat, r: nat)
    requires Listed(s) && Releasable(s) && MayRelease(s, of) && r in s.pendingRelease
    ensures var s' := ReleasingOf(s, of);
      && r in s.reqs && r in s'.reqs && Releases(s', s'.reqs[r])
      && s'.reqs[r].kind == s.reqs[r].kind && s.reqs[r].kind != Release(of)
  {
    assert Releases(s, s.reqs[r]);
  }

  lemma {:induction false} ReleasingOfOrder(s: State, of: nat, external: set<nat>)
    requires Listed(s) && Ordered(s, external) && MonitorFree(s) && MayRelease(s, of)
    ensures Ordered(ReleasingOf(s, of), external)
  {
  }

  lemma {:induction false} InPhaseAccounts(s: State, r: nat, p: Phase)
    requires Listed(s) && Counted(s) && MayPass(s, r, p)
    ensures Listed(InPhase(s, r, p)) && Counted(InPhase(s, r, p))
  {
  }

  lemma {:induction false} InPhaseLocks(s: State, r: nat, p: Phase, external: set<nat>)
    requires Listed(s) && Owned(s, external) && Releasable(s) && MayPass(s, r, p)
    ensures Owned(InPhase(s, r, p), external) && Releasable(InPhase(s, r, p))
  {
  }

  lemma {:induction false} InPhaseOrder(s: State, r: nat, p: Phase, external: set<nat>)
    requires Listed(s) && Ordered(s, external) && MayPass(s, r, p)
    ensures Ordered(InPhase(s, r, p), external)
  {
  }

  lemma {:induction false} UnlockedAccounts(s: State)
    requires Listed(s) && Counted(s) && Unlocking(s)
    ensures Listed(Unlocked(s)) && Counted(Unlocked(s))
  {
  }

  lemma {:induction false} UnlockedLocks(s: State, external: set<nat>)
    requires Listed(s) && Owned(s, external) && Releasable(s) && Unlocking(s)
    ensures Owned(Unlocked(s), external) && Releasable(Unlocked(s))
  {
    hide Owned;
    UnlockedOwned(s, external);
  }

  lemma {:induction false} UnlockedOwned(s: State, external: set<nat>)
    requires Listed(s) && Owned(s, external) && Releasable(s) && Unlocking(s)
    ensures Owned(Unlocked(s), external)
  {
    assert Releases(s, s.reqs[s.pendingRelease[0]]);
    hide Releasable;
  }

  lemma {:induction false} UnlockedOrder(s: State, external: set<nat>)
    requires Listed(s) && Ordered(s, external) && Unlocking(s)
    ensures Ordered(Unlocked(s), external)
  {
  }

  lemma {:induction false} GrantedAccounts(s: State, left: nat)
    requires Listed(s) && Counted(s) && Trying(s, left) && s.reqs[s.pendingLock[0]].target !in s.owner
    ensures Listed(Granted(s, left)) && Counted(Granted(s, left))
  {
  }

  lemma {:induction false} GrantedLocks(s: State, left: nat, external: set<nat>)
    requires Listed(s) && Owned(s, external) && Releasable(s) && Trying(s, left)
    requires s.reqs[s.pendingLock[0]].target !in s.owner
    ensures Owned(Granted(s, left), external) && Releasable(Granted(s, left))
  {
  }

  lemma {:induction false} GrantedOrder(s: State, left: nat, external: set<nat>)
    requires Listed(s) && Ordered(s, external) && Trying(s, left) && s.reqs[s.pendingLock[0]].target !in s.owner
    ensures Ordered(Granted(s, left), external)
  {
    hide Blocked;
    assert Arrived(Granted(s, left).pendingLock, left);
    GrantedBlocked(s, left, external);
  }

  lemma {:induction false} GrantedBlocked(s: State, left: nat, external: set<nat>)
    requires Blocked(s, external) && Trying(s, left) && left < |s.pendingLock|
    ensures Blocked(Granted(s, left), external)
  {
  }

  lemma {:induction false} RefusedAccounts(s: State, left: nat)
    requires Listed(s) && Counted(s) && Trying(s, left)
    ensures Listed(Refused(s, left)) && Counted(Refused(s, left))
  {
  }

  lemma {:induction false} RefusedLocks(s: State, left: nat, external: set<nat>)
    requires Listed(s) && Owned(s, external) && Releasable(s) && Trying(s, left)
    ensures Owned(Refused(s, left), external) && Releasable(Refused(s, left))
  {
  }

  lemma {:induction false} RefusedOrder(s: State, left: nat, external: set<nat>)
    requires Listed(s) && Ordered(s, external) && Trying(s, left)
    ensures Ordered(Refused(s, left), external)
  {
    hide Blocked;
    assert Arrived(Refused(s, left).pendingLock, left);
    RefusedBlocked(s, left, external);
  }

  lemma {:induction false} RefusedBlocked(s: State, left: nat, external: set<nat>)
    requires Blocked(s, external) && Trying(s, left) && left < |s.pendingLock|
    ensures Blocked(Refused(s, left), external)
  {
  }

  lemma {:induction false} PutBackAccounts(s: State, left: nat)
    requires Listed(s) && Counted(s) && Trying(s, left) && s.reqs[s.pendingLock[0]].target in s.owner
    ensures Listed(PutBack(s, left)) && Counted(PutBack(s, left))
  {
  }

  lemma {:induction false} PutBackLocks(s: State, left: nat, external: set<nat>)
    requires Listed(s) && Owned(s, external) && Releasable(s) && Trying(s, left)
    requires s.reqs[s.pendingLock[0]].target in s.owner
    ensures Owned(PutBack(s, left), external) && Releasable(PutBack(s, left))
  {
  }

  lemma {:induction false} PutBackOrder(s: State, left: nat, external: set<nat>)
    requires Listed(s) && Ordered(s, external) && Trying(s, left) && s.reqs[s.pendingLock[0]].target in s.owner
    ensures Ordered(PutBack(s, left), external)
  {
    hide Blocked;
    assert Arrived(PutBack(s, left).pendingLock, left);
    PutBackBlocked(s, left, external);
  }

  lemma {:induction false} PutBackBlocked(s: State, left: nat, external: set<nat>)
    requires Blocked(s, external) && Trying(s, left) && left < |s.pendingLock|
    requires s.reqs[s.pendingLock[0]].target in s.owner
    ensures Blocked(PutBack(s, left), external)
  {
  }

  lemma {:induction false} NotifiedAccounts(s: State, r: nat, back: Back)
    requires Listed(s) && Counted(s) && s.pc == Notifying(r, back) && r in s.reqs
    ensures Listed(Notified(s, r, back)) && Counted(Notified(s, r, back))
  {
  }

  lemma {:induction false} NotifiedLocks(s: State, r: nat, back: Back, external: set<nat>)
    requires Listed(s) && Owned(s, external) && Releasable(s) && s.pc == Notifying(r, back) && r in s.reqs
    ensures Owned(Notified(s, r, back), external) && Releasable(Notified(s, r, back))
  {
  }

  lemma {:induction false} NotifiedOrder(s: State, r: nat, back: Back, external: set<nat>)
    requires Listed(s) && Ordered(s, external) && s.pc == Notifying(r, back) && r in s.reqs
    ensures Ordered(Notified(s, r, back), external)
  {
  }
  predicate Quiet(step: Step) {
    || step.Wake? || step.EndReleases? || step.EndPass? || step.LockMonitor?
    || step.Shutdown? || step.Exit? || step.External?
  }

  lemma {:induction false} QuietAccounts(s: State, step: Step, external: set<nat>)
    requires Listed(s) && Counted(s) && Enabled(s, step, external) && Quiet(step)
    ensures Listed(Do(s, step, external)) && Counted(Do(s, step, external))
  {
  }

  lemma {:induction false} QuietLocks(s: State, step: Step, external: set<nat>)
    requires Listed(s) && Owned(s, external) && Releasable(s) && Enabled(s, step, external) && Quiet(step)
    ensures Owned(Do(s, step, external), external) && Releasable(Do(s, step, external))
  {
  }

  lemma {:induction false} QuietOrder(s: State, step: Step, external: set<nat>)
    requires Listed(s) && Ordered(s, external) && Enabled(s, step, external) && Quiet(step)
    ensures Ordered(Do(s, step, external), external)
  {
    hide Blocked;
    assert Arrived(Do(s, step, external).pendingLock, Left(Do(s, step, external)));
    QuietBlocked(s, step, external);
  }

  lemma {:induction false} QuietBlocked(s: State, step: Step, external: set<nat>)
    requires Blocked(s, external) && Enabled(s, step, external) && Quiet(step)
    ensures Blocked(Do(s, step, external), external)
  {
  }

  // Every step of every thread keeps the invariant.
  lemma {:induction false} StepKeeps(s: State, step: Step, external: set<nat>)
    requires Inv(s, external) && Enabled(s, step, external)
    ensures Inv(Do(s, step, external), external)
  {
    hide Listed, Counted, Owned, Releasable, Ordered;
    match step
    case SubmitAcquire(t, w) =>
      AcquiringAccounts(s, t, w);
      AcquiringLocks(s, t, w, external);
      AcquiringOrder(s, t, w, external);
    case SubmitRelease(of) =>
      ReleasingOfAccounts(s, of);
      ReleasingOfOwners(s, of, external);
      ReleasingOfReleases(s, of);
      ReleasingOfOrder(s, of, external);
    case Wait(r) =>
      InPhaseAccounts(s, r, Waiting);
      InPhaseLocks(s, r, Waiting, external);
      InPhaseOrder(s, r, Waiting, external);
    case Return(r) =>
      InPhaseAccounts(s, r, Returned);
      InPhaseLocks(s, r, Returned, external);
      InPhaseOrder(s, r, Returned, external);
    case TakeRelease =>
      UnlockedAccounts(s);
      UnlockedLocks(s, external);
      UnlockedOrder(s, external);
    case TryFirst =>
      TryFirstKeeps(s, s.pc.left - 1, external);
    case Notify =>
      NotifiedAccounts(s, s.pc.r, s.pc.back);
      NotifiedLocks(s, s.pc.r, s.pc.back, external);
      NotifiedOrder(s, s.pc.r, s.pc.back, external);
    case _ =>
      QuietAccounts(s, step, external);
      QuietLocks(s, step, external);
      QuietOrder(s, step, external);
  }

  lemma {:induction false} TryFirstKeeps(s: State, left: nat, external: set<nat>)
    requires Inv(s, external) && Enabled(s, TryFirst, external) && s.pc == Granting(left + 1)
    ensures Inv(Do(s, TryFirst, external), external)
  {
    hide Listed, Counted, Owned, Releasable, Ordered;
    var q := s.reqs[s.pendingLock[0]];
    if q.target !in s.owner {
      GrantedAccounts(s, left);
      GrantedLocks(s, left, external);
      GrantedOrder(s, left, external);
    } else if q.kind.Acquire? && !q.kind.wait {
      RefusedAccounts(s, left);
      RefusedLocks(s, left, external);
      RefusedOrder(s, left, external);
    } else {
      PutBackAccounts(s, left);
      PutBackLocks(s, left, external);
      PutBackOrder(s, left, external);
    }
  }

  lemma {:induction false} RunKeeps(s: State, steps: seq<Step>, external: set<nat>, t: State)
    requires Inv(s, external) && Run(s, steps, external, t)
    ensures Inv(t, external)
    decreases steps
  {
    hide Inv, Do, Enabled;
    if steps != [] {
      StepKeeps(s, steps[0], external);
      RunKeeps(Do(s, steps[0], external), steps[1..], external, t);
    }
  }

  /* What holds in every reachable state. */

  ghost predicate Reachable(s: State, external: set<nat>) {
    exists i, steps :: Init(i) && Run(i, steps, external, s)
  }

  lemma {:induction false} ReachableInv(s: State, external: set<nat>)
    requires Reachable(s, external)
    ensures Inv(s, external)
  {
    var i, steps :| Init(i) && Run(i, steps, external, s);
    RunKeeps(i, steps, external, s);
  }

  // A request is either open, unanswered and in exactly one place, or answered once.
  lemma {:induction false} AnsweredOnce(s: State, external: set<nat>, r: nat)
    requires Reachable(s, external) && r in s.reqs
    ensures s.reqs[r].answers <= 1
    ensures s.reqs[r].answers == 0 <==> r in s.pendingLock || r in s.pendingRelease || InHand(s, r)
    ensures r in s.pendingLock ==> r !in s.pendingRelease && !InHand(s, r)
    ensures r in s.pendingRelease ==> !InHand(s, r)
  {
    ReachableInv(s, external);
  }

  // The queue thread never notifies a requester that is not waiting yet: the
  // notification wakes it.
  lemma {:induction false} NoLostWakeup(s: State, external: set<nat>)
    requires Reachable(s, external) && Enabled(s, Notify, external)
    ensures s.reqs[s.pc.r].phase.Waiting? && Do(s, Notify, external).reqs[s.pc.r].phase.Woken?
  {
    ReachableInv(s, external);
  }

  // In a pass no lock is granted while a release is pending.
  lemma {:induction false} ReleasesFirst(s: State, external: set<nat>)
    requires Reachable(s, external) && Enabled(s, TryFirst, external)
    ensures s.pendingRelease == []
  {
    ReachableInv(s, external);
  }

  // A target that only the queue locks is granted in the order of arrival.
  lemma {:induction false} FirstComeFirstServed(s: State, external: set<nat>, r: nat)
    requires Reachable(s, external) && Enabled(s, TryFirst, external)
    requires var q := s.reqs[s.pendingLock[0]]; q.target !in s.owner && q.target !in external
    requires r in s.pendingLock && r in s.reqs && s.reqs[r].target == s.reqs[s.pendingLock[0]].target
    ensures s.pendingLock[0] <= r
  {
    ReachableInv(s, external);
    var k :| 0 <= k < |s.pendingLock| && s.pendingLock[k] == r;
  }

  // The next request of this pass is about to be granted target t, for which r waits as well.
  ghost predicate Contended(s: State, external: set<nat>, t: nat, r: nat) {
    && Reachable(s, external) && Enabled(s, TryFirst, external)
    && s.reqs[s.pendingLock[0]].target == t && t !in s.owner
    && r in s.pendingLock && r in s.reqs && s.reqs[r].target == t
  }

  // A target is granted in the order of arrival in all reachable states exactly if only the
  // queue locks it.
  lemma {:induction false} InOrderExactlyIfInternal(external: set<nat>, t: nat)
    ensures (forall s, r :: Contended(s, external, t, r) ==> s.pendingLock[0] <= r) <==> t !in external
  {
    hide Reachable, Do;
    if t in external {
      var s := OvertakenOutside(external, t);
      assert Contended(s, external, t, 0) && s.pendingLock[0] == 1;
    } else {
      forall s, r | Contended(s, external, t, r) ensures s.pendingLock[0] <= r {
        FirstComeFirstServed(s, external, r);
      }
    }
  }

  // On a target that others lock as well a later request can overtake: another thread
  // unlocks it between the attempts for the two.
  lemma {:induction false} OvertakenOutside(external: set<nat>, t: nat) returns (s: State)
    requires t in external
    ensures Reachable(s, external) && Enabled(s, TryFirst, external)
    ensures s.pendingLock == [1, 0] && 0 in s.reqs && 1 in s.reqs && s.reqs[0].target == s.reqs[1].target == t
    ensures t !in s.owner
  {
    hide Reachable;
    var s5 := TwoWaiting(external, t);
    ReachableStep(s5, TryFirst, external);
    var s6 := PutBack(s5, 1);
    ReachableStep(s6, External(t), external);
    s := s6.(owner := s6.owner - {t});
  }

  // Two requests for a target that another thread owns, at the beginning of a pass.
  lemma {:induction false} TwoWaiting(external: set<nat>, t: nat) returns (s: State)
    requires t in external
    ensures Reachable(s, external) && s.pc == Granting(2) && s.pendingLock == [0, 1] && s.owner == map[t := Other]
    ensures 0 in s.reqs && 1 in s.reqs && s.reqs[0].target == s.reqs[1].target == t && s.reqs[0].kind == Acquire(true)
  {
    hide Reachable;
    var s0 := State(map[], [], [], map[], Idle, true, 0);
    ReachableStart(s0, external);
    ReachableStep(s0, External(t), external);
    var s1 := s0.(owner := map[t := Other]);
    ReachableStep(s1, SubmitAcquire(t, true), external);
    var s2 := Acquiring(s1, t, true);
    ReachableStep(s2, SubmitAcquire(t, true), external);
    var s3 := Acquiring(s2, t, true);
    ReachableStep(s3, Wake, external);
    ReachableStep(s3.(pc := Releasing), EndReleases, external);
    s := s3.(pc := Granting(2));
  }

  lemma {:induction false} ReachableStart(s: State, external: set<nat>)
    requires Init(s)
    ensures Reachable(s, external)
  {
    RunNil(s, external);
  }

  lemma {:induction false} ReachableStep(s: State, step: Step, external: set<nat>)
    requires Reachable(s, external) && Enabled(s, step, external)
    ensures Reachable(Do(s, step, external), external)
  {
    hide Do, Enabled;
    var i, steps :| Init(i) && Run(i, steps, external, s);
    RunSnoc(i, steps, external, s, step);
  }

  lemma {:induction false} RunNil(s: State, external: set<nat>)
    ensures Run(s, [], external, s)
  {
  }

  lemma {:induction false} RunSnoc(s: State, steps: seq<Step>, external: set<nat>, t: State, step: Step)
    requires Run(s, steps, external, t) && Enabled(t, step, external)
    ensures Run(s, steps + [step], external, Do(t, step, external))
    decreases steps
  {
    hide Do, Enabled;
    if steps != [] {
      RunSnoc(Do(s, steps[0], external), steps[1..], external, t, step);
      assert (steps + [step])[1..] == steps[1..] + [step];
    }
  }

  // A lock has one holder, and only the release of its holder takes it away.
  lemma {:induction false} OneHolder(s: State, external: set<nat>, q: nat, r: nat)
    requires Reachable(s, external) && q in s.reqs && r in s.reqs
    requires s.reqs[q].holds && s.reqs[r].holds && s.reqs[q].target == s.reqs[r].target
    ensures q == r
  {
    ReachableInv(s, external);
  }

  lemma {:induction false} KeptUntilReleased(s: State, external: set<nat>, step: Step, r: nat)
    requires Reachable(s, external) && Enabled(s, step, external) && r in s.reqs && s.reqs[r].holds
    requires r !in Do(s, step, external).reqs || !Do(s, step, external).reqs[r].holds
    ensures step.TakeRelease? && s.reqs[s.pendingRelease[0]].kind == Release(r)
  {
    ReachableInv(s, external);
  }

  // While a request is open, the queue thread or the requester can take a step.
  lemma {:induction false} NeverStuck(s: State, external: set<nat>, r: nat) returns (step: Step)
    requires Reachable(s, external) && r in s.reqs && Open(s.reqs[r]) && !s.pc.Stopped?
    ensures Enabled(s, step, external) && !step.SubmitAcquire? && !step.SubmitRelease? && !step.Shutdown?
    ensures !step.External?
  {
    ReachableInv(s, external);
    match s.pc
    case Idle => step := Wake;
    case Releasing => step := if s.pendingRelease == [] then EndReleases else TakeRelease;
    case Granting(left) => step := if left == 0 then EndPass else TryFirst;
    case Answering(q, _) => step := if s.reqs[q].phase.Submitted? then Wait(q) else LockMonitor;
    case Notifying(_, _) => step := Notify;
  }

  // The queue thread stops only when nothing is left to answer.
  lemma {:induction false} StopsEmpty(s: State, external: set<nat>, r: nat)
    requires Reachable(s, external) && Enabled(s, Exit, external) && r in s.reqs
    ensures !Open(s.reqs[r]) && s.reqs[r].answers == 1
  {
    ReachableInv(s, external);
  }

  /* How long the queue thread takes. */

  predicate OwnStep(step: Step) {
    step.Wake? || step.TakeRelease? || step.EndReleases? || step.TryFirst? || step.EndPass? || step.LockMonitor?
    || step.Notify? || step.Exit?
  }

  // How many of the steps are the queue thread's own.
  function OwnSteps(steps: seq<Step>): nat {
    if steps == [] then 0 else (if OwnStep(steps[0]) then 1 else 0) + OwnSteps(steps[1..])
  }

  // What is left of a pass: three steps for every release and every request not tried yet.
  function Rank(s: State): nat {
    match s.pc
    case Idle => 0
    case Stopped => 0
    case Releasing => AfterAnswer(s, ToReleases)
    case Granting(left) => AfterAnswer(s, ToGrants(left))
    case Answering(_, back) => 2 + AfterAnswer(s, back)
    case Notifying(_, back) => 1 + AfterAnswer(s, back)
  }

  function AfterAnswer(s: State, back: Back): nat {
    match back
    case ToReleases => 3 * |s.pendingRelease| + 3 * |s.pendingLock| + 2
    case ToGrants(left) => 3 * left + 1
  }

  // Every step of a pass brings its end closer, and no other thread puts it off.
  lemma {:induction false} StepRanks(s: State, step: Step, external: set<nat>)
    requires Enabled(s, step, external) && !step.Wake? && !step.Exit?
    ensures if OwnStep(step) then Rank(Do(s, step, external)) < Rank(s) else Rank(Do(s, step, external)) == Rank(s)
  {
  }

  lemma {:induction false} WakeRank(s: State, external: set<nat>)
    requires Enabled(s, Wake, external)
    ensures Rank(Do(s, Wake, external)) == 3 * |s.pendingRelease| + 3 * |s.pendingLock| + 2
  {
  }

  // A run without the beginning of another pass has no more steps of the queue thread than
  // the rank tells; when they have been taken, the pass has ended.
  lemma {:induction false} PassEnds(s: State, steps: seq<Step>, external: set<nat>, t: State)
    requires Run(s, steps, external, t) && forall k :: 0 <= k < |steps| ==> !steps[k].Wake? && !steps[k].Exit?
    ensures OwnSteps(steps) + Rank(t) <= Rank(s)
    ensures !s.pc.Stopped? ==> !t.pc.Stopped? && (OwnSteps(steps) == Rank(s) ==> t.pc.Idle?)
    decreases steps
  {
    hide Do, Enabled, Rank, OwnStep;
    RankZero(t);
    if steps != [] {
      StepRanks(s, steps[0], external);
      StaysRunning(s, steps[0], external);
      assert forall k :: 0 <= k < |steps[1..]| ==> steps[1..][k] == steps[k + 1];
      PassEnds(Do(s, steps[0], external), steps[1..], external, t);
    }
  }

  lemma {:induction false} RankZero(s: State)
    ensures Rank(s) == 0 <==> MonitorFree(s)
  {
  }

  lemma {:induction false} StaysRunning(s: State, step: Step, external: set<nat>)
    requires Enabled(s, step, external) && !step.Exit?
    ensures !s.pc.Stopped? ==> !Do(s, step, external).pc.Stopped?
  {
  }

  // Where r stands in q; |q| if it does not.
  function Position(q: seq<nat>, r: nat): (k: nat)
    ensures k <= |q| && (k < |q| ==> q[k] == r) && (k < |q| <==> r in q)
  {
    if q == [] then 0 else if q[0] == r then 0 else 1 + Position(q[1..], r)
  }

  // How many of its own steps the queue thread needs to answer the release r.
  function Distance(s: State, r: nat): nat {
    var behind := 3 * Position(s.pendingRelease, r) + 3;
    match s.pc
    case Answering(q, _) => 2 + if q == r then 0 else behind
    case Notifying(q, _) => 1 + if q == r then 0 else behind
    case Releasing => behind
    case _ => 1 + behind
  }

  // Release r has been submitted and not been answered yet.
  ghost predicate Awaited(s: State, r: nat) {
    r in s.reqs && s.reqs[r].kind.Release? && Open(s.reqs[r])
  }

  lemma {:induction false} PositionAppend(q: seq<nat>, x: nat, r: nat)
    ensures r in q ==> Position(q + [x], r) == Position(q, r)
  {
    if q != [] && q[0] != r {
      PositionAppend(q[1..], x, r);
      assert (q + [x])[1..] == q[1..] + [x];
    }
  }

  // Such a release is in the hand of the queue thread, or in the list while nothing is granted.
  lemma {:induction false} AwaitedWhere(s: State, external: set<nat>, r: nat)
    requires Inv(s, external) && Awaited(s, r)
    ensures s.reqs[r].answers == 0 && r < s.next
    ensures InHand(s, r) || (r in s.pendingRelease && !InGrants(s))
    ensures s.pc.Notifying? && s.pc.r == r ==> s.reqs[r].phase.Waiting?
  {
  }

  lemma {:induction false} OthersAlike(s: State, step: Step, external: set<nat>, r: nat)
    requires Inv(s, external) && Enabled(s, step, external) && Awaited(s, r) && !OwnStep(step)
    ensures Awaited(Do(s, step, external), r) && Distance(Do(s, step, external), r) == Distance(s, r)
  {
    AwaitedWhere(s, external, r);
    hide Inv, Position;
    if step.SubmitRelease? {
      PositionAppend(s.pendingRelease, s.next, r);
    }
  }

  lemma {:induction false} OwnNearer(s: State, step: Step, external: set<nat>, r: nat)
    requires Inv(s, external) && Enabled(s, step, external) && Awaited(s, r) && OwnStep(step)
    ensures var s' := Do(s, step, external);
      r in s'.reqs && if Awaited(s', r) then Distance(s', r) < Distance(s, r) else s'.reqs[r].answers == 1
  {
    AwaitedWhere(s, external, r);
    hide Inv;
    if step.TakeRelease? {
      TakenNearer(s, r);
    }
  }

  lemma {:induction false} TakenNearer(s: State, r: nat)
    requires Unlocking(s) && Awaited(s, r)
    ensures Awaited(Unlocked(s), r)
    ensures r in s.pendingRelease ==> Distance(Unlocked(s), r) < Distance(s, r)
  {
  }

  lemma {:induction false} AnsweredStays(s: State, step: Step, external: set<nat>, r: nat)
    requires Inv(s, external) && Enabled(s, step, external) && r in s.reqs && !Open(s.reqs[r])
    ensures r in Do(s, step, external).reqs && !Open(Do(s, step, external).reqs[r])
  {
  }

  lemma {:induction false} AnsweredThen(s: State, steps: seq<Step>, external: set<nat>, t: State, r: nat)
    requires Inv(s, external) && Run(s, steps, external, t) && r in s.reqs && !Open(s.reqs[r])
    ensures r in t.reqs && t.reqs[r].answers == 1
    decreases steps
  {
    if steps != [] {
      hide Inv, Do, Enabled, Open;
      StepKeeps(s, steps[0], external);
      AnsweredStays(s, steps[0], external, r);
      AnsweredThen(Do(s, steps[0], external), steps[1..], external, t, r);
    }
  }

  // Within that many of its own steps, whatever the other threads do in between, the queue
  // thread answers a release.
  lemma {:induction false} ReleaseAnswered(s: State, steps: seq<Step>, external: set<nat>, t: State, r: nat)
    requires Inv(s, external) && Awaited(s, r) && Run(s, steps, external, t) && OwnSteps(steps) >= Distance(s, r)
    ensures r in t.reqs && t.reqs[r].answers == 1
    decreases steps
  {
    hide Inv, Do, Enabled, Distance, Awaited, OwnStep;
    DistancePositive(s, r);
    if steps != [] {
      var s' := Do(s, steps[0], external);
      StepKeeps(s, steps[0], external);
      if OwnStep(steps[0]) {
        OwnNearer(s, steps[0], external, r);
      } else {
        OthersAlike(s, steps[0], external, r);
      }
      if Awaited(s', r) {
        ReleaseAnswered(s', steps[1..], external, t, r);
      } else {
        AnsweredNow(s', external, r);
        AnsweredThen(s', steps[1..], external, t, r);
      }
    }
  }

  lemma {:induction false} DistancePositive(s: State, r: nat)
    ensures 0 < Distance(s, r) <= 3 * |s.pendingRelease| + 5
  {
  }

  lemma {:induction false} AnsweredNow(s: State, external: set<nat>, r: nat)
    requires Inv(s, external) && r in s.reqs && s.reqs[r].answers == 1
    ensures !Open(s.reqs[r])
  {
  }

  // In a reachable state a pending release waits for no more than three steps of the queue
  // thread for each release in the list, and five.
  lemma {:induction false} ReleaseBounded(s: State, steps: seq<Step>, external: set<nat>, t: State, r: nat)
    requires Reachable(s, external) && Awaited(s, r) && Run(s, steps, external, t)
    requires OwnSteps(steps) >= 3 * |s.pendingRelease| + 5
    ensures r in t.reqs && t.reqs[r].answers == 1
  {
    hide Inv, Do, Enabled, Distance, Awaited, OwnStep, Reachable, Run;
    ReachableInv(s, external);
    DistancePositive(s, r);
    ReleaseAnswered(s, steps, external, t, r);
  }
}
