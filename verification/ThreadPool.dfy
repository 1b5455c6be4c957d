/** QueuedThreadPool: handing tasks to task managers while the pool monitor is dropped. */
module ThreadPools {
  import opened Options

  // A thread that calls execute, or (thread 0) the pool's own thread, with the task in
  // its hand: calling; looking at manager i under the monitor; setting the task of
  // manager i without it; asking for it again, with the outcome; about to give it up.
  datatype Thread =
    | Outside | Calling(t: nat) | Looking(t: nat, i: nat)
    | Setting(t: nat, i: nat) | Relocking(t: nat, i: nat, ok: bool) | Leaving

  // A task manager. Its thread owns the manager's monitor while it runs a task.
  datatype Manager = Manager(task: Option<nat>, running: bool)

  datatype State = State(
    queue: seq<nat>, threads: seq<Thread>, monitor: Option<nat>, managers: seq<Manager>,
    started: multiset<nat>, finished: multiset<nat>, next: nat)

  datatype Step =
    | Execute(a: nat) | Enter(a: nat) | Wake | Look(a: nat)
    | SetTask(a: nat) | Relock(a: nat) | Leave(a: nat) | Start(i: nat) | Finish(i: nat)

  predicate Enabled(s: State, step: Step) {
    match step
    case Execute(a) => 0 < a < |s.threads| && s.threads[a].Outside?
    case Enter(a) => a < |s.threads| && s.threads[a].Calling? && s.monitor.None?
    case Wake => s.threads != [] && s.threads[0].Outside? && s.monitor.None? && s.queue != []
    case Look(a) => a < |s.threads| && s.threads[a].Looking? && s.monitor == Some(a)
    case SetTask(a) =>
      a < |s.threads| && s.threads[a].Setting? && s.threads[a].i < |s.managers| && !s.managers[s.threads[a].i].running
    case Relock(a) => a < |s.threads| && s.threads[a].Relocking? && s.monitor.None?
    case Leave(a) => a < |s.threads| && s.threads[a].Leaving? && s.monitor == Some(a)
    case Start(i) => i < |s.managers| && s.managers[i].task.Some? && !s.managers[i].running
    case Finish(i) => i < |s.managers| && s.managers[i].task.Some? && s.managers[i].running
  }

  // Thread a goes to x, and the monitor is m.
  function Go(s: State, a: nat, x: Thread, m: Option<nat>): State
    requires a < |s.threads|
  {
    s.(threads := s.threads[a := x], monitor := m)
  }

  // execute: under the monitor, a task is assigned if the queue is empty and queued otherwise.
  function Entered(s: State, a: nat): State
    requires a < |s.threads| && s.threads[a].Calling?
  {
    var t := s.threads[a].t;
    if s.queue == [] then Go(s, a, Looking(t, 0), Some(a)) else Go(s, a, Outside, None).(queue := s.queue + [t])
  }

  // run: the pool's thread takes the first task of the queue.
  function Taken(s: State): State
    requires s.threads != [] && s.queue != []
  {
    Go(s, 0, Looking(s.queue[0], 0), Some(0)).(queue := s.queue[1..])
  }

  // assign: the monitor is dropped at an idle manager; the task is queued if there is none.
  function Looked(s: State, a: nat): State
    requires a < |s.threads| && s.threads[a].Looking?
  {
    var (t, i) := (s.threads[a].t, s.threads[a].i);
    if i >= |s.managers| then Go(s, a, Leaving, Some(a)).(queue := s.queue + [t])
    else if s.managers[i].task.None? then Go(s, a, Setting(t, i), None)
    else Go(s, a, Looking(t, i + 1), Some(a))
  }

  // set_task: fails if another thread has been faster.
  function TaskSet(s: State, a: nat): State
    requires a < |s.threads| && s.threads[a].Setting? && s.threads[a].i < |s.managers|
  {
    var (t, i) := (s.threads[a].t, s.threads[a].i);
    if s.managers[i].task.None?
    then Go(s, a, Relocking(t, i, true), s.monitor).(managers := s.managers[i := Manager(Some(t), false)])
    else Go(s, a, Relocking(t, i, false), s.monitor)
  }

  function Relocked(s: State, a: nat): State
    requires a < |s.threads| && s.threads[a].Relocking?
  {
    Go(s, a, if s.threads[a].ok then Leaving else Looking(s.threads[a].t, s.threads[a].i + 1), Some(a))
  }

  function Do(s: State, step: Step): State
    requires Enabled(s, step)
  {
    match step
    case Execute(a) => Go(s, a, Calling(s.next), s.monitor).(next := s.next + 1)
    case Enter(a) => Entered(s, a)
    case Wake => Taken(s)
    case Look(a) => Looked(s, a)
    case SetTask(a) => TaskSet(s, a)
    case Relock(a) => Relocked(s, a)
    case Leave(a) => Go(s, a, Outside, None)
    case Start(i) =>
      s.(managers := s.managers[i := s.managers[i].(running := true)],
         started := s.started + multiset{s.managers[i].task.value})
    case Finish(i) =>
      s.(managers := s.managers[i := Manager(None, false)], finished := s.finished + multiset{s.managers[i].task.value})
  }

  predicate Init(s: State) {
    && s.queue == [] && s.monitor.None? && s.started == s.finished == multiset{} && s.next == 0
    && (forall a :: 0 <= a < |s.threads| ==> s.threads[a].Outside?)
    && (forall i :: 0 <= i < |s.managers| ==> s.managers[i] == Manager(None, false))
  }

  ghost predicate Run(s: State, steps: seq<Step>, t: State)
    decreases steps
  {
    if steps == [] then s == t else Enabled(s, steps[0]) && Run(Do(s, steps[0]), steps[1..], t)
  }

  /* Where the tasks are. */

  function One(b: bool): nat {
    if b then 1 else 0
  }

  predicate InHand(x: Thread, t: nat) {
    match x
    case Calling(u) => u == t
    case Looking(u, _) => u == t
    case Setting(u, _) => u == t
    case Relocking(u, _, ok) => u == t && !ok
    case _ => false
  }

  // How often task t is in the hand of a thread, has been given to a manager, and is running.
  function InHands(threads: seq<Thread>, t: nat): nat {
    if threads == [] then 0 else One(InHand(threads[0], t)) + InHands(threads[1..], t)
  }

  function InManagers(ms: seq<Manager>, t: nat): nat {
    if ms == [] then 0 else One(ms[0].task == Some(t)) + InManagers(ms[1..], t)
  }

  function Running(ms: seq<Manager>, t: nat): nat {
    if ms == [] then 0 else One(ms[0] == Manager(Some(t), true)) + Running(ms[1..], t)
  }

  // The number of places where task t is: queue, hands, managers, finished.
  function Places(s: State, t: nat): nat {
    multiset(s.queue)[t] + InHands(s.threads, t) + InManagers(s.managers, t) + s.finished[t]
  }

  predicate Inside(x: Thread) {
    x.Looking? || x.Leaving?
  }

  // The thread inside the monitor owns it.
  ghost predicate Guarded(s: State) {
    && (forall a :: 0 <= a < |s.threads| ==> (Inside(s.threads[a]) <==> s.monitor == Some(a)))
    && (s.monitor.Some? ==> s.monitor.value < |s.threads|)
    && (forall a :: 0 <= a < |s.threads| && s.threads[a].Setting? ==> s.threads[a].i < |s.managers|)
    && (forall i :: 0 <= i < |s.managers| && s.managers[i].running ==> s.managers[i].task.Some?)
    && (s.threads != [] ==> !s.threads[0].Calling?)
  }

  // Every submitted task is in exactly one place.
  ghost predicate Conserved(s: State) {
    forall t: nat :: Places(s, t) == One(t < s.next)
  }

  // Exactly the running and the finished tasks have been started.
  ghost predicate StartsCounted(s: State) {
    forall t: nat :: s.started[t] == s.finished[t] + Running(s.managers, t)
  }

  ghost predicate Inv(s: State) {
    Guarded(s) && Conserved(s) && StartsCounted(s)
  }

  lemma {:induction false} HandsUpdate(threads: seq<Thread>, a: nat, x: Thread, t: nat)
    requires a < |threads|
    ensures InHands(threads[a := x], t) == InHands(threads, t) - One(InHand(threads[a], t)) + One(InHand(x, t))
  {
    if a == 0 {
      assert threads[a := x][1..] == threads[1..];
    } else {
      HandsUpdate(threads[1..], a - 1, x, t);
      assert threads[a := x][1..] == threads[1..][a - 1 := x];
    }
  }

  lemma {:induction false} ManagersUpdate(ms: seq<Manager>, i: nat, m: Manager, t: nat)
    requires i < |ms|
    ensures InManagers(ms[i := m], t) == InManagers(ms, t) - One(ms[i].task == Some(t)) + One(m.task == Some(t))
    ensures Running(ms[i := m], t) ==
      Running(ms, t) - One(ms[i] == Manager(Some(t), true)) + One(m == Manager(Some(t), true))
  {
    if i == 0 {
      assert ms[i := m][1..] == ms[1..];
    } else {
      ManagersUpdate(ms[1..], i - 1, m, t);
      assert ms[i := m][1..] == ms[1..][i - 1 := m];
    }
  }

  lemma {:induction false} QueueEnds(q: seq<nat>, x: nat, t: nat)
    ensures multiset(q + [x])[t] == multiset(q)[t] + One(x == t)
    ensures q != [] ==> multiset(q)[t] == multiset(q[1..])[t] + One(q[0] == t)
  {
    if q != [] {
      assert q == [q[0]] + q[1..];
    }
  }

  lemma {:induction false} GoPlaces(s: State, a: nat, x: Thread, m: Option<nat>, t: nat)
    requires a < |s.threads|
    ensures Places(Go(s, a, x, m), t) == Places(s, t) - One(InHand(s.threads[a], t)) + One(InHand(x, t))
  {
    hide InHands, InHand;
    HandsUpdate(s.threads, a, x, t);
  }

  lemma {:induction false} EnteredPlaces(s: State, a: nat, t: nat)
    requires a < |s.threads| && s.threads[a].Calling?
    ensures Places(Entered(s, a), t) == Places(s, t)
  {
    hide InHands;
    QueueEnds(s.queue, s.threads[a].t, t);
    HandsUpdate(s.threads, a, Entered(s, a).threads[a], t);
  }

  lemma {:induction false} TakenPlaces(s: State, t: nat)
    requires s.threads != [] && s.queue != [] && s.threads[0].Outside?
    ensures Places(Taken(s), t) == Places(s, t)
  {
    hide InHands;
    QueueEnds(s.queue, 0, t);
    HandsUpdate(s.threads, 0, Taken(s).threads[0], t);
  }

  lemma {:induction false} LookedPlaces(s: State, a: nat, t: nat)
    requires a < |s.threads| && s.threads[a].Looking?
    ensures Places(Looked(s, a), t) == Places(s, t)
  {
    hide InHands;
    QueueEnds(s.queue, s.threads[a].t, t);
    HandsUpdate(s.threads, a, Looked(s, a).threads[a], t);
  }

  lemma {:induction false} TaskSetPlaces(s: State, a: nat, t: nat)
    requires a < |s.threads| && s.threads[a].Setting? && s.threads[a].i < |s.managers|
    requires !s.managers[s.threads[a].i].running
    ensures Places(TaskSet(s, a), t) == Places(s, t) && Running(TaskSet(s, a).managers, t) == Running(s.managers, t)
  {
    hide InHands, InManagers, Running;
    HandsUpdate(s.threads, a, TaskSet(s, a).threads[a], t);
    ManagersUpdate(s.managers, s.threads[a].i, TaskSet(s, a).managers[s.threads[a].i], t);
  }

  lemma {:induction false} ManagerPlaces(s: State, step: Step, t: nat)
    requires Guarded(s) && Enabled(s, step) && (step.Start? || step.Finish?)
    ensures Places(Do(s, step), t) == Places(s, t)
    ensures Do(s, step).started[t] - Do(s, step).finished[t] - Running(Do(s, step).managers, t)
      == s.started[t] - s.finished[t] - Running(s.managers, t)
  {
    hide InHands, InManagers, Running;
    ManagersUpdate(s.managers, step.i, Do(s, step).managers[step.i], t);
  }

  // No step loses or doubles a task.
  lemma {:induction false} StepPlaces(s: State, step: Step, t: nat)
    requires Guarded(s) && Enabled(s, step)
    ensures Places(Do(s, step), t) == Places(s, t) + One(step.Execute? && t == s.next)
    ensures Do(s, step).started[t] - Do(s, step).finished[t] - Running(Do(s, step).managers, t)
      == s.started[t] - s.finished[t] - Running(s.managers, t)
  {
    hide Places, Running;
    match step
    case Execute(a) =>
      GoPlaces(s, a, Calling(s.next), s.monitor, t);
      PlacesOf(Do(s, step), Go(s, a, Calling(s.next), s.monitor), t);
    case Enter(a) => EnteredPlaces(s, a, t);
    case Wake => TakenPlaces(s, t);
    case Look(a) => LookedPlaces(s, a, t);
    case SetTask(a) => TaskSetPlaces(s, a, t);
    case Relock(a) => GoPlaces(s, a, Relocked(s, a).threads[a], Some(a), t);
    case Leave(a) => GoPlaces(s, a, Outside, None, t);
    case _ => ManagerPlaces(s, step, t);
  }

  lemma {:induction false} PlacesOf(s: State, s': State, t: nat)
    requires s.queue == s'.queue && s.threads == s'.threads && s.managers == s'.managers && s.finished == s'.finished
    ensures Places(s, t) == Places(s', t)
  {
  }

  // Thread a goes to x and leaves the monitor alone, takes it or gives it up.
  ghost predicate MayGo(s: State, a: nat, x: Thread, m: Option<nat>) {
    && (Inside(x) <==> m == Some(a)) && (m == s.monitor || m.None? || s.monitor.None?)
    && (m.None? ==> s.monitor.None? || s.monitor == Some(a)) && (m.Some? && m != Some(a) ==> m == s.monitor)
    && (x.Setting? ==> x.i < |s.managers|) && (a == 0 ==> !x.Calling?)
  }

  lemma {:induction false} GoGuarded(s: State, a: nat, x: Thread, m: Option<nat>)
    requires Guarded(s) && a < |s.threads| && MayGo(s, a, x, m)
    ensures Guarded(Go(s, a, x, m))
  {
  }

  lemma {:induction false} ManagersGuarded(s: State, i: nat, m: Manager)
    requires Guarded(s) && i < |s.managers| && (m.running ==> m.task.Some?)
    ensures Guarded(s.(managers := s.managers[i := m]))
  {
  }

  lemma {:induction false} GuardedOf(s: State, s': State)
    requires Guarded(s) && s.threads == s'.threads && s.monitor == s'.monitor && s.managers == s'.managers
    ensures Guarded(s')
  {
  }

  // The part of a thread's step that concerns the threads and the monitor.
  lemma {:induction false} ThreadGuarded(s: State, a: nat, x: Thread, m: Option<nat>, s': State)
    requires Guarded(s) && a < |s.threads| && MayGo(s, a, x, m)
    requires s'.threads == s.threads[a := x] && s'.monitor == m && s'.managers == s.managers
    ensures Guarded(s')
  {
    hide Guarded, MayGo;
    GoGuarded(s, a, x, m);
    GuardedOf(Go(s, a, x, m), s');
  }

  lemma {:induction false} GuardedThread(s: State, a: nat)
    requires Guarded(s) && a < |s.threads|
    ensures Inside(s.threads[a]) <==> s.monitor == Some(a)
    ensures s.threads[a].Setting? ==> s.threads[a].i < |s.managers|
    ensures s.threads[0].Calling? ==> a != 0
  {
  }

  lemma {:induction false} GuardedManager(s: State, i: nat)
    requires Guarded(s) && i < |s.managers|
    ensures s.managers[i].running ==> s.managers[i].task.Some?
  {
  }

  lemma {:induction false} StepGuarded(s: State, step: Step)
    requires Guarded(s) && Enabled(s, step)
    ensures Guarded(Do(s, step))
  {
    hide Guarded;
    if step.Start? || step.Finish? {
      GuardedManager(s, step.i);
    } else {
      GuardedThread(s, if step.Wake? then 0 else step.a);
    }
    var s' := Do(s, step);
    match step
    case Execute(a) => ThreadGuarded(s, a, Calling(s.next), s.monitor, s');
    case Enter(a) => ThreadGuarded(s, a, s'.threads[a], s'.monitor, s');
    case Wake => ThreadGuarded(s, 0, s'.threads[0], Some(0), s');
    case Look(a) => ThreadGuarded(s, a, s'.threads[a], s'.monitor, s');
    case SetTask(a) =>
      var i := s.threads[a].i;
      GoGuarded(s, a, s'.threads[a], s.monitor);
      ManagersGuarded(Go(s, a, s'.threads[a], s.monitor), i, s'.managers[i]);
      GuardedOf(Go(s, a, s'.threads[a], s.monitor).(managers := s.managers[i := s'.managers[i]]), s');
    case Relock(a) => ThreadGuarded(s, a, s'.threads[a], Some(a), s');
    case Leave(a) => ThreadGuarded(s, a, Outside, None, s');
    case Start(i) =>
      ManagersGuarded(s, i, s'.managers[i]);
      GuardedOf(s.(managers := s'.managers), s');
    case Finish(i) =>
      ManagersGuarded(s, i, Manager(None, false));
      GuardedOf(s.(managers := s'.managers), s');
  }

  lemma {:induction false} StepKeeps(s: State, step: Step)
    requires Inv(s) && Enabled(s, step)
    ensures Inv(Do(s, step))
  {
    hide Places, Guarded, Running;
    StepGuarded(s, step);
    forall t: nat ensures Places(Do(s, step), t) == One(t < Do(s, step).next)
      && Do(s, step).started[t] == Do(s, step).finished[t] + Running(Do(s, step).managers, t)
    {
      StepPlaces(s, step, t);
    }
  }

  lemma {:induction false} RunKeeps(s: State, steps: seq<Step>, t: State)
    requires Inv(s) && Run(s, steps, t)
    ensures Inv(t)
    decreases steps
  {
    hide Inv, Do, Enabled;
    if steps != [] {
      StepKeeps(s, steps[0]);
      RunKeeps(Do(s, steps[0]), steps[1..], t);
    }
  }

  lemma {:induction false} InitInv(s: State)
    requires Init(s)
    ensures Inv(s)
  {
    forall t: nat ensures InHands(s.threads, t) == InManagers(s.managers, t) == Running(s.managers, t) == 0 {
      NothingHeld(s.threads, s.managers, t);
    }
  }

  lemma {:induction false} NothingHeld(threads: seq<Thread>, ms: seq<Manager>, t: nat)
    requires forall a :: 0 <= a < |threads| ==> threads[a].Outside?
    requires forall i :: 0 <= i < |ms| ==> ms[i] == Manager(None, false)
    ensures InHands(threads, t) == InManagers(ms, t) == Running(ms, t) == 0
    decreases |threads| + |ms|
  {
    if threads != [] {
      NothingHeld(threads[1..], ms, t);
    } else if ms != [] {
      NothingHeld(threads, ms[1..], t);
    }
  }

  /* What holds in every reachable state. */

  ghost predicate Reachable(s: State) {
    exists i, steps :: Init(i) && Run(i, steps, s)
  }

  lemma {:induction false} ReachableInv(s: State)
    requires Reachable(s)
    ensures Inv(s)
  {
    hide Inv, Init;
    var i, steps :| Init(i) && Run(i, steps, s);
    InitInv(i);
    RunKeeps(i, steps, s);
  }

  // Across all interleavings a submitted task is in one place and starts at most once;
  // it has finished exactly if it is in no queue, hand or manager.
  lemma {:induction false} OnePlaceOneRun(s: State, t: nat)
    requires Reachable(s)
    ensures Places(s, t) == One(t < s.next) && s.started[t] <= 1
    ensures t < s.next ==>
      (s.finished[t] == 1 <==> t !in s.queue && InHands(s.threads, t) == 0 && InManagers(s.managers, t) == 0)
  {
    ReachableInv(s);
    RunningGiven(s.managers, t);
  }

  lemma {:induction false} RunningGiven(ms: seq<Manager>, t: nat)
    ensures Running(ms, t) <= InManagers(ms, t)
  {
    if ms != [] {
      RunningGiven(ms[1..], t);
    }
  }

  // The pool monitor has one owner at a time.
  lemma {:induction false} MonitorExclusive(s: State, a: nat, b: nat)
    requires Reachable(s) && a < |s.threads| && b < |s.threads| && Inside(s.threads[a]) && Inside(s.threads[b])
    ensures a == b
  {
    ReachableInv(s);
  }

  // As long as a submitted task has not finished, some thread can take a step.
  lemma {:induction false} NeverStuck(s: State, t: nat) returns (step: Step)
    requires Reachable(s) && t < s.next && s.finished[t] == 0 && s.threads != []
    ensures Enabled(s, step) && !step.Execute?
  {
    ReachableInv(s);
    assert Places(s, t) == 1;
    if s.monitor.Some? {
      var a := s.monitor.value;
      assert Inside(s.threads[a]);
      return if s.threads[a].Looking? then Look(a) else Leave(a);
    }
    if InManagers(s.managers, t) > 0 {
      var i := Holder(s.managers, t);
      return if s.managers[i].running then Finish(i) else Start(i);
    }
    if InHands(s.threads, t) > 0 {
      var a := Bearer(s.threads, t);
      step := ThreadStep(s, a);
      return;
    }
    if s.threads[0].Outside? {
      return Wake;
    }
    step := ThreadStep(s, 0);
  }

  // A thread that is busy outside of the monitor, or the manager it waits for, can go on.
  lemma {:induction false} ThreadStep(s: State, a: nat) returns (step: Step)
    requires Guarded(s) && a < |s.threads| && !s.threads[a].Outside? && s.monitor.None?
    ensures Enabled(s, step) && !step.Execute?
  {
    match s.threads[a]
    case Calling(_) => step := Enter(a);
    case Setting(_, i) => step := if s.managers[i].running then Finish(i) else SetTask(a);
    case _ => step := Relock(a);
  }

  lemma {:induction false} Holder(ms: seq<Manager>, t: nat) returns (i: nat)
    requires InManagers(ms, t) > 0
    ensures i < |ms| && ms[i].task == Some(t)
  {
    if ms[0].task == Some(t) {
      return 0;
    }
    i := Holder(ms[1..], t);
    i := i + 1;
  }

  lemma {:induction false} Bearer(threads: seq<Thread>, t: nat) returns (a: nat)
    requires InHands(threads, t) > 0
    ensures a < |threads| && InHand(threads[a], t)
  {
    if InHand(threads[0], t) {
      return 0;
    }
    a := Bearer(threads[1..], t);
    a := a + 1;
  }

  /* A task that has been given to a manager. */

  // The steps of the thread of manager i.
  predicate OwnStep(step: Step, i: nat) {
    step == Start(i) || step == Finish(i)
  }

  function OwnSteps(steps: seq<Step>, i: nat): nat {
    if steps == [] then 0 else (if OwnStep(steps[0], i) then 1 else 0) + OwnSteps(steps[1..], i)
  }

  predicate Given(s: State, i: nat, t: nat) {
    i < |s.managers| && s.managers[i].task == Some(t)
  }

  // The manager's thread starts the task and then finishes it.
  function Rank(s: State, i: nat): nat
    requires i < |s.managers|
  {
    if s.managers[i].running then 1 else 2
  }

  // The manager's thread can always take its next step, each brings the end of the task
  // closer, and no other thread interferes.
  lemma {:induction false} StepRanks(s: State, step: Step, i: nat, t: nat)
    requires Enabled(s, step) && Given(s, i, t)
    ensures Enabled(s, if s.managers[i].running then Finish(i) else Start(i))
    ensures var s' := Do(s, step);
      if !OwnStep(step, i) then Given(s', i, t) && Rank(s', i) == Rank(s, i)
      else if s.managers[i].running then s'.finished[t] == s.finished[t] + 1
      else Given(s', i, t) && Rank(s', i) < Rank(s, i)
  {
  }

  lemma {:induction false} FinishedStays(s: State, step: Step, t: nat)
    requires Enabled(s, step)
    ensures Do(s, step).finished[t] >= s.finished[t]
  {
  }

  lemma {:induction false} FinishedThen(s: State, steps: seq<Step>, s': State, t: nat)
    requires Run(s, steps, s')
    ensures s'.finished[t] >= s.finished[t]
    decreases steps
  {
    if steps != [] {
      hide Do, Enabled;
      FinishedStays(s, steps[0], t);
      FinishedThen(Do(s, steps[0]), steps[1..], s', t);
    }
  }

  lemma {:induction false} GivenFinishes(s: State, steps: seq<Step>, s': State, i: nat, t: nat)
    requires Given(s, i, t) && Run(s, steps, s') && OwnSteps(steps, i) >= Rank(s, i)
    ensures s'.finished[t] > s.finished[t]
    decreases steps
  {
    hide Do, Enabled, OwnStep;
    if steps != [] {
      StepRanks(s, steps[0], i, t);
      FinishedStays(s, steps[0], t);
      if OwnStep(steps[0], i) && s.managers[i].running {
        FinishedThen(Do(s, steps[0]), steps[1..], s', t);
      } else {
        GivenFinishes(Do(s, steps[0]), steps[1..], s', i, t);
      }
    }
  }

  // In every interleaving a task in a manager is finished, once, by two steps of the
  // manager's thread.
  lemma {:induction false} FinishedByTwo(s: State, steps: seq<Step>, s': State, i: nat, t: nat)
    requires Reachable(s) && Given(s, i, t) && Run(s, steps, s') && OwnSteps(steps, i) >= 2
    ensures s'.finished[t] == 1
  {
    hide Do, Enabled, OwnStep, Run, Reachable, Inv, Given;
    assert Rank(s, i) <= 2 by {
      RankBound(s, i, t);
    }
    GivenFinishes(s, steps, s', i, t);
    ReachableInv(s);
    RunKeeps(s, steps, s');
    FinishedOnce(s', t);
  }

  lemma {:induction false} RankBound(s: State, i: nat, t: nat)
    requires Given(s, i, t)
    ensures i < |s.managers| && 1 <= Rank(s, i) <= 2
  {
  }

  lemma {:induction false} FinishedOnce(s: State, t: nat)
    requires Inv(s)
    ensures s.finished[t] <= 1
  {
    assert Places(s, t) <= 1;
  }
}
