/** LockQueue: what its requests are answered, and when. */
module LockAnswers {
  import opened LockQueues

  /* What the answers say. */

  // Requests that have been granted are marked as locked, and only these; a release that has
  // left its list has given the lock back.
  ghost predicate Marked(s: State) {
    && (forall r :: r in s.reqs && (s.reqs[r].kind.Release? || r in s.pendingLock) ==> !s.reqs[r].locked)
    && (forall r :: r in s.reqs && s.reqs[r].kind == Acquire(true) && r !in s.pendingLock ==> s.reqs[r].locked)
    && (forall r :: r in s.reqs && s.reqs[r].kind.Release? ==> GivesBack(s, r))
  }

  ghost predicate GivesBack(s: State, r: nat)
    requires r in s.reqs && s.reqs[r].kind.Release?
  {
    var of := s.reqs[r].kind.of;
    of in s.reqs && s.reqs[of].phase.Returned? && (r !in s.pendingRelease ==> !s.reqs[of].holds)
  }

  // Whoever has been put back in this pass is willing to wait.
  ghost predicate Patient(s: State) {
    forall k :: Left(s) <= k < |s.pendingLock| && s.pendingLock[k] in s.reqs ==>
      s.reqs[s.pendingLock[k]].kind == Acquire(true)
  }

  lemma {:induction false} MarkedSubmit(s: State, step: Step, external: set<nat>)
    requires Listed(s) && Marked(s) && Enabled(s, step, external) && (step.SubmitAcquire? || step.SubmitRelease?)
    ensures Marked(Do(s, step, external))
  {
  }

  lemma {:induction false} MarkedTake(s: State, external: set<nat>)
    requires Listed(s) && Releasable(s) && Marked(s) && Enabled(s, TakeRelease, external)
    ensures Marked(Do(s, TakeRelease, external))
  {
    assert Releases(s, s.reqs[s.pendingRelease[0]]);
  }

  lemma {:induction false} FirstOnce(q: seq<nat>)
    requires NoRepeats(q) && q != []
    ensures forall r :: r in q[1..] <==> r in q && r != q[0]
    ensures forall r :: r in q[1..] + [q[0]] <==> r in q
  {
    assert q == [q[0]] + q[1..];
  }

  lemma {:induction false} MarkedGranted(s: State, left: nat)
    requires Listed(s) && Marked(s) && Trying(s, left)
    ensures Marked(Granted(s, left))
  {
    hide NoRepeats;
    FirstOnce(s.pendingLock);
    var s' := Granted(s, left);
    assert forall x :: x in s.reqs && s.reqs[x].kind.Release? ==> GivesBack(s, x);
    forall x | x in s'.reqs && s'.reqs[x].kind.Release? ensures GivesBack(s', x) {
      assert GivesBack(s, x) && s.pendingLock[0] in s.pendingLock;
    }
  }

  lemma {:induction false} MarkedRefused(s: State, left: nat)
    requires Listed(s) && Marked(s) && Trying(s, left) && s.reqs[s.pendingLock[0]].kind != Acquire(true)
    ensures Marked(Refused(s, left))
  {
    hide NoRepeats;
    FirstOnce(s.pendingLock);
    assert forall x :: x in s.reqs && s.reqs[x].kind.Release? ==> GivesBack(s, x);
  }

  lemma {:induction false} MarkedPutBack(s: State, left: nat)
    requires Listed(s) && Marked(s) && Trying(s, left)
    ensures Marked(PutBack(s, left))
  {
    hide NoRepeats;
    FirstOnce(s.pendingLock);
    assert forall x :: x in s.reqs && s.reqs[x].kind.Release? ==> GivesBack(s, x);
  }

  lemma {:induction false} MarkedTry(s: State, external: set<nat>)
    requires Listed(s) && Marked(s) && Enabled(s, TryFirst, external)
    ensures Marked(Do(s, TryFirst, external))
  {
    hide Listed, Marked, Granted, Refused, PutBack;
    var q, left := s.reqs[s.pendingLock[0]], s.pc.left - 1;
    if q.target !in s.owner {
      MarkedGranted(s, left);
    } else if q.kind.Acquire? && !q.kind.wait {
      MarkedRefused(s, left);
    } else {
      MarkedPutBack(s, left);
    }
  }

  // A requester that waits, is woken or comes back.
  lemma {:induction false} MarkedPhase(s: State, s': State, r: nat, q: Req)
    requires Marked(s) && r in s.reqs && s'.reqs == s.reqs[r := q]
    requires s'.pendingLock == s.pendingLock && s'.pendingRelease == s.pendingRelease
    requires q.kind == s.reqs[r].kind && q.locked == s.reqs[r].locked && q.holds == s.reqs[r].holds
    requires s.reqs[r].phase.Returned? ==> q.phase.Returned?
    ensures Marked(s')
  {
    assert forall x :: x in s'.reqs && s'.reqs[x].kind.Release? ==> GivesBack(s, x);
  }

  lemma {:induction false} MarkedQuiet(s: State, s': State)
    requires Marked(s) && s'.reqs == s.reqs
    requires s'.pendingLock == s.pendingLock && s'.pendingRelease == s.pendingRelease
    ensures Marked(s')
  {
    assert forall x :: x in s'.reqs && s'.reqs[x].kind.Release? ==> GivesBack(s, x);
  }

  lemma {:induction false} MarkedRest(s: State, step: Step, external: set<nat>)
    requires Marked(s) && Enabled(s, step, external)
    requires !step.SubmitAcquire? && !step.SubmitRelease? && !step.TakeRelease? && !step.TryFirst?
    ensures Marked(Do(s, step, external))
  {
    hide Marked;
    var s' := Do(s, step, external);
    match step
    case Wait(r) => MarkedPhase(s, s', r, s'.reqs[r]);
    case Return(r) => MarkedPhase(s, s', r, s'.reqs[r]);
    case Notify => MarkedPhase(s, s', s.pc.r, s'.reqs[s.pc.r]);
    case _ => MarkedQuiet(s, s');
  }

  lemma {:induction false} MarkedStep(s: State, step: Step, external: set<nat>)
    requires Inv(s, external) && Marked(s) && Enabled(s, step, external)
    ensures Marked(Do(s, step, external))
  {
    hide Listed, Counted, Owned, Releasable, Ordered, Do, Enabled, Marked;
    match step
    case SubmitAcquire(_, _) => MarkedSubmit(s, step, external);
    case SubmitRelease(_) => MarkedSubmit(s, step, external);
    case TakeRelease => MarkedTake(s, external);
    case TryFirst => MarkedTry(s, external);
    case _ => MarkedRest(s, step, external);
  }

  lemma {:induction false} PatientTry(s: State, external: set<nat>)
    requires Listed(s) && Arrived(s.pendingLock, Left(s)) && Patient(s) && Enabled(s, TryFirst, external)
    ensures Patient(Do(s, TryFirst, external))
  {
    hide Arrived;
    assert s.pendingLock[0] in s.pendingLock;
  }

  lemma {:induction false} PatientRest(s: State, step: Step, external: set<nat>)
    requires Listed(s) && Patient(s) && Enabled(s, step, external) && !step.TryFirst?
    ensures Patient(Do(s, step, external))
  {
    forall k | 0 <= k < |s.pendingLock| ensures s.pendingLock[k] in s.reqs && s.pendingLock[k] < s.next {
      assert s.pendingLock[k] in s.pendingLock;
    }
  }

  lemma {:induction false} PatientStep(s: State, step: Step, external: set<nat>)
    requires Inv(s, external) && Patient(s) && Enabled(s, step, external)
    ensures Patient(Do(s, step, external))
  {
    hide Listed, Counted, Owned, Releasable, Blocked, Arrived, Do, Enabled, Patient;
    if step.TryFirst? {
      PatientTry(s, external);
    } else {
      PatientRest(s, step, external);
    }
  }

  lemma {:induction false} RunMarked(s: State, steps: seq<Step>, external: set<nat>, t: State)
    requires Inv(s, external) && Marked(s) && Patient(s) && Run(s, steps, external, t)
    ensures Inv(t, external) && Marked(t) && Patient(t)
    decreases steps
  {
    hide Inv, Do, Enabled, Marked, Patient;
    if steps != [] {
      StepKeeps(s, steps[0], external);
      MarkedStep(s, steps[0], external);
      PatientStep(s, steps[0], external);
      RunMarked(Do(s, steps[0], external), steps[1..], external, t);
    }
  }

  lemma {:induction false} ReachableMarked(s: State, external: set<nat>)
    requires Reachable(s, external)
    ensures Inv(s, external) && Marked(s) && Patient(s)
  {
    var i, steps :| Init(i) && Run(i, steps, external, s);
    assert Inv(i, external) && Marked(i) && Patient(i);
    hide Inv, Marked, Patient;
    RunMarked(i, steps, external, s);
  }

  // The step gives the target of request r to the queue on behalf of r.
  ghost predicate Takes(s: State, step: Step, external: set<nat>, r: nat)
    requires Enabled(s, step, external)
  {
    && r in s.reqs && (s.reqs[r].target in s.owner ==> s.owner[s.reqs[r].target] != Queue(r))
    && var s' := Do(s, step, external); s.reqs[r].target in s'.owner && s'.owner[s.reqs[r].target] == Queue(r)
  }

  // Some step of the run does.
  ghost predicate GrantedIn(s: State, steps: seq<Step>, external: set<nat>, r: nat)
    decreases steps
  {
    && steps != [] && Enabled(s, steps[0], external)
    && (Takes(s, steps[0], external, r) || GrantedIn(Do(s, steps[0], external), steps[1..], external, r))
  }

  lemma {:induction false} LockedStep(s: State, step: Step, external: set<nat>, r: nat)
    requires Listed(s) && Owned(s, external) && Enabled(s, step, external)
    ensures var s' := Do(s, step, external);
      && (r in s.reqs ==> r in s'.reqs)
      && (r in s'.reqs && s'.reqs[r].locked <==> (r in s.reqs && s.reqs[r].locked) || Takes(s, step, external, r))
  {
    hide Do, Takes, Listed, Owned;
    if step.TryFirst? {
      LockedTry(s, external, r);
    } else {
      LockedRest(s, step, external, r);
    }
  }

  lemma {:induction false} LockedTry(s: State, external: set<nat>, r: nat)
    requires Listed(s) && Owned(s, external) && Enabled(s, TryFirst, external)
    ensures var s' := Do(s, TryFirst, external);
      && (r in s.reqs ==> r in s'.reqs)
      && (r in s'.reqs && s'.reqs[r].locked <==> (r in s.reqs && s.reqs[r].locked) || Takes(s, TryFirst, external, r))
  {
  }

  lemma {:induction false} LockedRest(s: State, step: Step, external: set<nat>, r: nat)
    requires Listed(s) && Enabled(s, step, external) && !step.TryFirst?
    ensures var s' := Do(s, step, external);
      && (r in s.reqs ==> r in s'.reqs) && !Takes(s, step, external, r)
      && (r in s'.reqs && s'.reqs[r].locked <==> r in s.reqs && s.reqs[r].locked)
  {
  }

  lemma {:induction false} LockedInRun(s: State, steps: seq<Step>, external: set<nat>, t: State, r: nat)
    requires Inv(s, external) && Run(s, steps, external, t)
    ensures r in t.reqs && t.reqs[r].locked <==>
      (r in s.reqs && s.reqs[r].locked) || GrantedIn(s, steps, external, r)
    decreases steps
  {
    if steps != [] {
      hide Listed, Counted, Owned, Releasable, Ordered, Do, Enabled, Takes;
      StepKeeps(s, steps[0], external);
      LockedStep(s, steps[0], external, r);
      LockedInRun(Do(s, steps[0], external), steps[1..], external, t, r);
    }
  }

  // The requester is told LOCKED exactly if its target has been locked for it.
  lemma {:induction false} LockedExactlyIfGranted(i: State, steps: seq<Step>, external: set<nat>, s: State, r: nat)
    requires Init(i) && Run(i, steps, external, s) && r in s.reqs
    ensures s.reqs[r].locked <==> GrantedIn(i, steps, external, r)
  {
    assert Inv(i, external);
    hide Inv, Run, GrantedIn;
    LockedInRun(i, steps, external, s, r);
  }

  // A requester that is willing to wait comes back with its lock; one that is not may come
  // back without; and whoever has released a lock does not hold it any more.
  lemma {:induction false} AnswerMeans(s: State, external: set<nat>, r: nat)
    requires Reachable(s, external) && r in s.reqs && s.reqs[r].answers > 0
    ensures s.reqs[r].kind == Acquire(true) ==> s.reqs[r].locked
    ensures s.reqs[r].kind.Release? ==>
      !s.reqs[r].locked && s.reqs[r].kind.of in s.reqs && !s.reqs[s.reqs[r].kind.of].holds
  {
    ReachableMarked(s, external);
    AnsweredOnce(s, external, r);
  }

  // One attempt: a free target is locked; otherwise a requester that does not wait is
  // answered, and one that does goes to the end of the list.
  lemma {:induction false} Attempt(s: State, external: set<nat>)
    requires Reachable(s, external) && Enabled(s, TryFirst, external)
    ensures var (r, s') := (s.pendingLock[0], Do(s, TryFirst, external));
      var q := s.reqs[r];
      && q.kind.Acquire? && r in s'.reqs
      && if q.target !in s.owner then
           && s'.owner == s.owner[q.target := Queue(r)] && s'.reqs[r].locked && s'.reqs[r].holds
           && InHand(s', r) && r !in s'.pendingLock
         else
           && s'.owner == s.owner && s'.reqs == s.reqs
           && if q.kind.wait then !InHand(s', r) && s'.pendingLock == s.pendingLock[1..] + [r]
              else InHand(s', r) && r !in s'.pendingLock
  {
    ReachableInv(s, external);
    assert s.pendingLock[0] in s.pendingLock;
  }

  // One release: the target is free again.
  lemma {:induction false} GivenBack(s: State, external: set<nat>)
    requires Reachable(s, external) && Enabled(s, TakeRelease, external)
    ensures var (r, s') := (s.pendingRelease[0], Do(s, TakeRelease, external));
      var q := s.reqs[r];
      && q.kind.Release? && q.target in s.owner && s.owner[q.target] == Queue(q.kind.of)
      && s'.owner == s.owner - {q.target} && q.kind.of in s'.reqs && !s'.reqs[q.kind.of].holds && InHand(s', r)
  {
    ReachableInv(s, external);
    assert Releases(s, s.reqs[s.pendingRelease[0]]);
  }

  // After the shutdown the waiting queue thread may stop exactly if every request has been
  // answered.
  lemma {:induction false} StopsExactly(s: State, external: set<nat>)
    requires Reachable(s, external) && s.pc.Idle? && !s.go
    ensures Enabled(s, Exit, external) <==> forall r :: r in s.reqs ==> s.reqs[r].answers == 1
  {
    ReachableInv(s, external);
    if s.pendingLock != [] {
      assert s.pendingLock[0] in s.pendingLock;
    }
    if s.pendingRelease != [] {
      assert s.pendingRelease[0] in s.pendingRelease;
    }
  }

  /* How long a request waits for its attempt. */

  // The requests that hold a lock.
  function Holders(s: State): set<nat> {
    set r | r in s.reqs && s.reqs[r].holds
  }

  // How many of its own steps the queue thread needs up to the next attempt for a request
  // at position p of its list: every release and every attempt takes three.
  function Due(s: State, p: nat): nat {
    match s.pc
    case Stopped => 1
    case Idle => 3 * |Holders(s)| + 3 * p + 3
    case Releasing => DueAfter(s, p, ToReleases)
    case Granting(left) => DueAfter(s, p, ToGrants(left))
    case Answering(_, back) => 2 + DueAfter(s, p, back)
    case Notifying(_, back) => 1 + DueAfter(s, p, back)
  }

  function DueAfter(s: State, p: nat, back: Back): nat {
    match back
    case ToReleases => 3 * |Holders(s)| + 3 * p + 2
    case ToGrants(left) => if p < left then 3 * p + 1 else 3 * left + 3 * |Holders(s)| + 3 * p + 4
  }

  lemma {:induction false} DueBound(s: State, p: nat)
    requires p < |s.pendingLock| && Left(s) <= |s.pendingLock|
    ensures 0 < Due(s, p) <= 3 * |Holders(s)| + 6 * |s.pendingLock| + 3
    ensures !InGrants(s) || p < Left(s) ==> Due(s, p) <= 3 * |Holders(s)| + 3 * |s.pendingLock| + 1
  {
  }

  lemma {:induction false} OneLess(a: set<nat>, b: set<nat>, r: nat)
    requires b == a - {r} && r in a
    ensures |b| == |a| - 1
  {
  }

  lemma {:induction false} OneMore(a: set<nat>, b: set<nat>, r: nat)
    requires b == a + {r}
    ensures |b| <= |a| + 1
  {
  }

  // The position of a request that is not tried in this step.
  lemma {:induction false} PositionNext(s: State, step: Step, external: set<nat>, r: nat)
    requires Listed(s) && Enabled(s, step, external) && r in s.pendingLock
    requires !(step.TryFirst? && s.pendingLock[0] == r)
    ensures var s' := Do(s, step, external);
      && r in s'.pendingLock
      && Position(s'.pendingLock, r) == Position(s.pendingLock, r) - if step.TryFirst? then 1 else 0
  {
    var q := s.pendingLock;
    match step
    case SubmitAcquire(_, _) => PositionAppend(q, s.next, r);
    case TryFirst =>
      assert q == [q[0]] + q[1..];
      PositionAppend(q[1..], q[0], r);
    case _ =>
  }

  lemma {:induction false} SameHolders(s: State, s': State)
    requires forall r :: (r in s'.reqs && s'.reqs[r].holds) == (r in s.reqs && s.reqs[r].holds)
    ensures Holders(s') == Holders(s)
  {
  }

  lemma {:induction false} HoldersTaken(s: State, external: set<nat>)
    requires Releasable(s) && Enabled(s, TakeRelease, external)
    ensures |Holders(Do(s, TakeRelease, external))| == |Holders(s)| - 1
  {
    var q := s.reqs[s.pendingRelease[0]];
    assert Releases(s, q);
    OneLess(Holders(s), Holders(Do(s, TakeRelease, external)), q.kind.of);
  }

  lemma {:induction false} HoldersTried(s: State, external: set<nat>)
    requires Enabled(s, TryFirst, external)
    ensures |Holders(Do(s, TryFirst, external))| <= |Holders(s)| + 1
  {
    var r, q := s.pendingLock[0], s.reqs[s.pendingLock[0]];
    if q.target !in s.owner {
      var s' := Granted(s, s.pc.left - 1);
      assert Holders(s') == Holders(s) + {r};
      OneMore(Holders(s), Holders(s'), r);
    } else {
      SameHolders(s, Do(s, TryFirst, external));
    }
  }

  lemma {:induction false} HoldersKept(s: State, step: Step, external: set<nat>)
    requires Listed(s) && Enabled(s, step, external) && !step.TakeRelease? && !step.TryFirst?
    ensures Holders(Do(s, step, external)) == Holders(s)
  {
    hide Holders;
    SameHolders(s, Do(s, step, external));
  }

  lemma {:induction false} OwnTries(step: Step)
    ensures step.TryFirst? || step.TakeRelease? ==> OwnStep(step)
  {
  }

  // Whatever the other threads do, a request is tried after that many own steps.
  lemma {:induction false} DueStep(s: State, step: Step, external: set<nat>, r: nat)
    requires Inv(s, external) && Enabled(s, step, external) && r in s.pendingLock
    requires !(step.TryFirst? && s.pendingLock[0] == r)
    ensures var s' := Do(s, step, external);
      && r in s'.pendingLock
      && if OwnStep(step) then Due(s', Position(s'.pendingLock, r)) < Due(s, Position(s.pendingLock, r))
         else Due(s', Position(s'.pendingLock, r)) == Due(s, Position(s.pendingLock, r))
  {
    hide Listed, Counted, Owned, Releasable, Blocked, Holders, Position, Due, Do, Enabled, OwnStep;
    OwnTries(step);
    PositionNext(s, step, external, r);
    if step.TryFirst? {
      HoldersTried(s, external);
      DueTried(s, external, Position(s.pendingLock, r));
    } else if step.TakeRelease? {
      HoldersTaken(s, external);
      DueTaken(s, external, Position(s.pendingLock, r));
    } else {
      HoldersKept(s, step, external);
      if OwnStep(step) {
        DueNearer(s, step, external, Position(s.pendingLock, r));
      } else {
        OthersLeavePc(s, step, external);
        DueAlike(s, Do(s, step, external), Position(s.pendingLock, r));
      }
    }
  }

  lemma {:induction false} DueTried(s: State, external: set<nat>, p: nat)
    requires Enabled(s, TryFirst, external) && 0 < p
    requires |Holders(Do(s, TryFirst, external))| <= |Holders(s)| + 1
    ensures Due(Do(s, TryFirst, external), p - 1) < Due(s, p)
  {
    hide Holders;
  }

  lemma {:induction false} DueTaken(s: State, external: set<nat>, p: nat)
    requires Enabled(s, TakeRelease, external)
    requires |Holders(Do(s, TakeRelease, external))| == |Holders(s)| - 1
    ensures Due(Do(s, TakeRelease, external), p) < Due(s, p)
  {
    hide Holders;
  }

  lemma {:induction false} DueNearer(s: State, step: Step, external: set<nat>, p: nat)
    requires Enabled(s, step, external) && OwnStep(step) && !step.TakeRelease? && !step.TryFirst?
    requires Holders(Do(s, step, external)) == Holders(s) && p < |s.pendingLock|
    ensures Due(Do(s, step, external), p) < Due(s, p)
  {
    hide Holders;
  }

  lemma {:induction false} OthersLeavePc(s: State, step: Step, external: set<nat>)
    requires Enabled(s, step, external) && !OwnStep(step)
    ensures Do(s, step, external).pc == s.pc
  {
  }

  lemma {:induction false} DueAlike(s: State, s': State, p: nat)
    requires s'.pc == s.pc && Holders(s') == Holders(s)
    ensures Due(s', p) == Due(s, p)
  {
    hide Holders;
  }

  // Request r is tried somewhere in the run.
  ghost predicate TriedIn(s: State, steps: seq<Step>, external: set<nat>, r: nat)
    decreases steps
  {
    && steps != [] && Enabled(s, steps[0], external)
    && ((steps[0].TryFirst? && s.pendingLock[0] == r) || TriedIn(Do(s, steps[0], external), steps[1..], external, r))
  }

  lemma {:induction false} TriedInTime(s: State, steps: seq<Step>, external: set<nat>, t: State, r: nat)
    requires Inv(s, external) && Run(s, steps, external, t) && r in s.pendingLock
    requires OwnSteps(steps) >= Due(s, Position(s.pendingLock, r))
    ensures TriedIn(s, steps, external, r)
    decreases steps
  {
    hide Listed, Counted, Owned, Releasable, Blocked, Do, Enabled, Due, Position, OwnStep;
    DueBound(s, Position(s.pendingLock, r));
    if steps != [] && !(steps[0].TryFirst? && s.pendingLock[0] == r) {
      StepKeeps(s, steps[0], external);
      DueStep(s, steps[0], external, r);
      TriedInTime(Do(s, steps[0], external), steps[1..], external, t, r);
    }
  }

  // Every request of the list is tried within three own steps for each lock held and six
  // for each request of the list.
  lemma {:induction false} TriedBounded(s: State, steps: seq<Step>, external: set<nat>, t: State, r: nat)
    requires Reachable(s, external) && Run(s, steps, external, t) && r in s.pendingLock
    requires OwnSteps(steps) >= 3 * |Holders(s)| + 6 * |s.pendingLock| + 3
    ensures TriedIn(s, steps, external, r)
  {
    hide Run, TriedIn, Due;
    ReachableInv(s, external);
    DueBound(s, Position(s.pendingLock, r));
    TriedInTime(s, steps, external, t, r);
  }

  /* Requests that are not willing to wait. */

  ghost predicate Impatient(s: State, r: nat) {
    r in s.reqs && s.reqs[r].kind == Acquire(false) && Open(s.reqs[r])
  }

  // How many own steps the queue thread needs to answer such a request.
  function Delay(s: State, r: nat): nat {
    if InHand(s, r) then if s.pc.Answering? then 2 else 1
    else Due(s, Position(s.pendingLock, r)) + 2
  }

  // It is in the hand of the queue thread, or has not been tried yet.
  lemma {:induction false} ImpatientWhere(s: State, external: set<nat>, r: nat)
    requires Inv(s, external) && Patient(s) && Impatient(s, r)
    ensures s.reqs[r].answers == 0
    ensures InHand(s, r) != (r in s.pendingLock)
    ensures r in s.pendingLock && InGrants(s) ==> Position(s.pendingLock, r) < Left(s)
    ensures s.pc.Notifying? && s.pc.r == r ==> s.reqs[r].phase.Waiting?
  {
  }

  lemma {:induction false} ImpatientStep(s: State, step: Step, external: set<nat>, r: nat)
    requires Inv(s, external) && Patient(s) && Enabled(s, step, external) && Impatient(s, r)
    ensures var s' := Do(s, step, external);
      && r in s'.reqs
      && if !Impatient(s', r) then s'.reqs[r].answers == 1
         else if OwnStep(step) then Delay(s', r) < Delay(s, r)
         else Delay(s', r) == Delay(s, r)
  {
    ImpatientWhere(s, external, r);
    if r in s.pendingLock {
      if step.TryFirst? && s.pendingLock[0] == r {
        ImpatientTried(s, external, r);
      } else {
        DueStep(s, step, external, r);
        StillImpatient(s, step, external, r);
      }
    } else {
      ImpatientInHand(s, step, external, r);
    }
  }

  lemma {:induction false} ImpatientTried(s: State, external: set<nat>, r: nat)
    requires Listed(s) && Enabled(s, TryFirst, external) && Impatient(s, r) && s.pendingLock[0] == r
    ensures var s' := Do(s, TryFirst, external); Impatient(s', r) && s'.pc.Answering? && s'.pc.r == r
  {
  }

  lemma {:induction false} StillImpatient(s: State, step: Step, external: set<nat>, r: nat)
    requires Listed(s) && Enabled(s, step, external) && Impatient(s, r) && r in s.pendingLock
    requires !(step.TryFirst? && s.pendingLock[0] == r)
    ensures var s' := Do(s, step, external); Impatient(s', r) && !InHand(s', r)
  {
  }

  lemma {:induction false} ImpatientInHand(s: State, step: Step, external: set<nat>, r: nat)
    requires Listed(s) && Enabled(s, step, external) && Impatient(s, r) && InHand(s, r) && s.reqs[r].answers == 0
    ensures var s' := Do(s, step, external);
      && r in s'.reqs
      && if !Impatient(s', r) then s'.reqs[r].answers == 1
         else InHand(s', r) && (if OwnStep(step) then Delay(s', r) < Delay(s, r) else Delay(s', r) == Delay(s, r))
  {
  }

  lemma {:induction false} AnsweredInTime(s: State, steps: seq<Step>, external: set<nat>, t: State, r: nat)
    requires Inv(s, external) && Patient(s) && Impatient(s, r) && Run(s, steps, external, t)
    requires OwnSteps(steps) >= Delay(s, r)
    ensures r in t.reqs && t.reqs[r].answers == 1
    decreases steps
  {
    hide Inv, Patient, Do, Enabled, Delay, OwnStep, Impatient;
    DelayPositive(s, external, r);
    if steps != [] {
      var s' := Do(s, steps[0], external);
      StepKeeps(s, steps[0], external);
      PatientStep(s, steps[0], external);
      ImpatientStep(s, steps[0], external, r);
      if Impatient(s', r) {
        AnsweredInTime(s', steps[1..], external, t, r);
      } else {
        AnsweredNow(s', external, r);
        AnsweredThen(s', steps[1..], external, t, r);
      }
    }
  }

  lemma {:induction false} DelayPositive(s: State, external: set<nat>, r: nat)
    requires Inv(s, external) && Patient(s) && Impatient(s, r)
    ensures 0 < Delay(s, r) <= 3 * |Holders(s)| + 3 * |s.pendingLock| + 3
  {
    ImpatientWhere(s, external, r);
    if r in s.pendingLock {
      DueBound(s, Position(s.pendingLock, r));
    }
  }

  // A request that is not willing to wait is answered in the first pass that tries it:
  // within three own steps for each lock held and each request of the list, and three.
  lemma {:induction false} ImpatientBounded(s: State, steps: seq<Step>, external: set<nat>, t: State, r: nat)
    requires Reachable(s, external) && Impatient(s, r) && Run(s, steps, external, t)
    requires OwnSteps(steps) >= 3 * |Holders(s)| + 3 * |s.pendingLock| + 3
    ensures r in t.reqs && t.reqs[r].answers == 1
  {
    hide Inv, Patient, Marked, Impatient, Run, Delay, Reachable;
    ReachableMarked(s, external);
    DelayPositive(s, external, r);
    AnsweredInTime(s, steps, external, t, r);
  }
}
