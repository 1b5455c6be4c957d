/** QueuedThreadPool: how a task comes to a task manager, and when it is queued. */
module Handovers {
  import opened Options
  import opened ThreadPools

  /* The steps of assign. */

  // Under the monitor a thread goes to an idle manager to set its task there; it passes a
  // busy one, and queues the task behind the last.
  lemma {:induction false} Looks(s: State, a: nat)
    requires Enabled(s, Look(a))
    ensures var (t, i, s') := (s.threads[a].t, s.threads[a].i, Do(s, Look(a)));
      && s'.managers == s.managers && |s'.threads| == |s.threads|
      && s'.queue == (if i < |s.managers| then s.queue else s.queue + [t])
      && s'.threads[a] ==
        (if i >= |s.managers| then Leaving
         else if s.managers[i].task == None then Setting(t, i)
         else Looking(t, i + 1))
  {
  }

  // Without the monitor the task is given to the manager unless that has been given another.
  lemma {:induction false} Sets(s: State, a: nat)
    requires Enabled(s, SetTask(a))
    ensures var (t, i, s') := (s.threads[a].t, s.threads[a].i, Do(s, SetTask(a)));
      && s'.queue == s.queue && |s'.threads| == |s.threads|
      && if s.managers[i].task == None then Given(s', i, t) && s'.threads[a] == Relocking(t, i, true)
         else s'.managers == s.managers && s'.threads[a] == Relocking(t, i, false)
  {
  }

  // execute looks for a manager only if no task is queued; else the task goes behind them.
  lemma {:induction false} Enters(s: State, a: nat)
    requires Enabled(s, Enter(a))
    ensures var (t, s') := (s.threads[a].t, Do(s, Enter(a)));
      if s.queue == [] then s'.queue == [] && s'.threads[a] == Looking(t, 0)
      else s'.queue == s.queue + [t] && s'.threads[a] == Outside
  {
  }

  // The queue is first in, first out: only the pool's thread takes from it, and what is
  // added comes from the hand of the thread that takes the step.
  lemma {:induction false} QueueStep(s: State, step: Step)
    requires Enabled(s, step)
    ensures var s' := Do(s, step);
      if step.Wake? then
        s.queue != [] && s'.queue == s.queue[1..] && s'.threads[0] == Looking(s.queue[0], 0)
      else s'.queue == s.queue || ((step.Enter? || step.Look?) && s'.queue == s.queue + [s.threads[step.a].t])
  {
  }

  /* A task is queued only if no manager could be had. */

  // At some point of the run thread a, with task t in its hand, has found manager i with a
  // task: when it looked, or when it wanted to set its own.
  ghost predicate FoundBusy(s: State, steps: seq<Step>, a: nat, t: nat, i: nat)
    decreases steps
  {
    && steps != [] && Enabled(s, steps[0])
    && (BusyAt(s, steps[0], a, t, i) || FoundBusy(Do(s, steps[0]), steps[1..], a, t, i))
  }

  predicate BusyAt(s: State, step: Step, a: nat, t: nat, i: nat) {
    && a < |s.threads| && i < |s.managers| && s.managers[i].task.Some?
    && ((step == Look(a) && s.threads[a] == Looking(t, i)) || (step == SetTask(a) && s.threads[a] == Setting(t, i)))
  }

  // Thread a has the task t in its hand and has not passed manager i.
  predicate Before(x: Thread, t: nat, i: nat) {
    match x
    case Looking(u, j) => u == t && j <= i
    case Setting(u, j) => u == t && j <= i
    case Relocking(u, j, ok) => u == t && !ok && j < i
    case _ => false
  }

  // A thread gets past a manager by finding it busy or by giving the task away.
  lemma {:induction false} PassStep(s: State, step: Step, a: nat, t: nat, i: nat)
    requires Enabled(s, step) && a < |s.threads| && i < |s.managers| && Before(s.threads[a], t, i)
    ensures var s' := Do(s, step);
      && a < |s'.threads| && i < |s'.managers|
      && (Before(s'.threads[a], t, i) || BusyAt(s, step, a, t, i)
          || (step == SetTask(a) && Given(s', s.threads[a].i, t)
              && s'.threads[a] == Relocking(t, s.threads[a].i, true)))
  {
  }

  // A thread that has got a task to look for a manager, and later queues it, has found
  // every manager busy in between.
  lemma {:induction false} QueuedIfAllBusy(s: State, steps: seq<Step>, s': State, a: nat, t: nat, i: nat)
    requires Run(s, steps, s') && a < |s.threads| && i < |s.managers| && Before(s.threads[a], t, i)
    requires a < |s'.threads| && s'.threads[a].Looking? && s'.threads[a].t == t && s'.threads[a].i > i
    requires forall k :: 0 <= k < |steps| ==> steps[k] != Leave(a)
    ensures FoundBusy(s, steps, a, t, i)
    decreases steps
  {
    hide Do, Enabled, Before;
    if steps == [] {
      NotBefore(s.threads[a], t, i);
    } else {
      PassStep(s, steps[0], a, t, i);
      assert forall k :: 0 <= k < |steps[1..]| ==> steps[1..][k] == steps[k + 1];
      var u := Do(s, steps[0]);
      if Before(u.threads[a], t, i) {
        QueuedIfAllBusy(u, steps[1..], s', a, t, i);
      } else if !BusyAt(s, steps[0], a, t, i) {
        DoneStays(u, steps[1..], s', a);
      }
    }
  }

  lemma {:induction false} NotBefore(x: Thread, t: nat, i: nat)
    requires Before(x, t, i)
    ensures !(x.Looking? && x.i > i)
  {
  }

  // A thread that has given its task away does not look for a manager until it has left.
  lemma {:induction false} DoneStays(s: State, steps: seq<Step>, s': State, a: nat)
    requires Run(s, steps, s') && a < |s.threads| && Done(s.threads[a])
    requires forall k :: 0 <= k < |steps| ==> steps[k] != Leave(a)
    ensures a < |s'.threads| && Done(s'.threads[a])
    decreases steps
  {
    if steps != [] {
      assert forall k :: 0 <= k < |steps[1..]| ==> steps[1..][k] == steps[k + 1];
      DoneStep(s, steps[0], a);
      hide Do, Enabled, Done;
      DoneStays(Do(s, steps[0]), steps[1..], s', a);
    }
  }

  predicate Done(x: Thread) {
    x.Leaving? || (x.Relocking? && x.ok)
  }

  lemma {:induction false} DoneStep(s: State, step: Step, a: nat)
    requires Enabled(s, step) && a < |s.threads| && Done(s.threads[a]) && step != Leave(a)
    ensures a < |Do(s, step).threads| && Done(Do(s, step).threads[a])
  {
  }

  /* A task in hand comes to an idle manager. */

  predicate OwnStep(step: Step, a: nat) {
    || step == Execute(a) || step == Enter(a) || step == Look(a) || step == SetTask(a) || step == Relock(a)
    || step == Leave(a) || (step == Wake && a == 0)
  }

  function OwnSteps(steps: seq<Step>, a: nat): nat {
    if steps == [] then 0 else (if OwnStep(steps[0], a) then 1 else 0) + OwnSteps(steps[1..], a)
  }

  // Thread a is about to execute t or looks for a manager for it, and manager i, which is
  // idle, is still to come.
  predicate Bears(s: State, a: nat, t: nat, i: nat) {
    && a < |s.threads| && i < |s.managers| && s.managers[i].task.None?
    && (s.threads[a] == Calling(t) || Before(s.threads[a], t, i))
  }

  // How many of its own steps the thread needs: three for each manager.
  function Ahead(x: Thread, i: nat): int {
    match x
    case Calling(_) => 3 * i + 3
    case Looking(_, j) => 3 * (i - j) + 2
    case Setting(_, j) => 3 * (i - j) + 1
    case Relocking(_, j, _) => 3 * (i - j)
    case _ => 0
  }

  // Task t is with a manager or has been finished.
  ghost predicate Placed(s: State, t: nat) {
    (exists i :: Given(s, i, t)) || s.finished[t] > 0
  }

  // No other thread gives manager i a task, and no task is queued when thread a enters.
  predicate Spares(s: State, step: Step, a: nat, i: nat) {
    && (step.SetTask? && step.a != a && step.a < |s.threads| && s.threads[step.a].Setting? ==> s.threads[step.a].i != i)
    && (step == Enter(a) ==> s.queue == [])
  }

  // That is so until t has found its place.
  ghost predicate Undisturbed(s: State, steps: seq<Step>, a: nat, t: nat, i: nat)
    decreases steps
  {
    || steps == [] || Placed(s, t)
    || (Enabled(s, steps[0]) && Spares(s, steps[0], a, i) && Undisturbed(Do(s, steps[0]), steps[1..], a, t, i))
  }

  lemma {:induction false} BearsStep(s: State, step: Step, a: nat, t: nat, i: nat)
    requires Enabled(s, step) && Bears(s, a, t, i) && Spares(s, step, a, i)
    ensures var s' := Do(s, step);
      a < |s'.threads| &&
      if !Bears(s', a, t, i) then Placed(s', t)
      else if OwnStep(step, a) then Ahead(s'.threads[a], i) < Ahead(s.threads[a], i)
      else Ahead(s'.threads[a], i) == Ahead(s.threads[a], i)
  {
    if step == SetTask(a) && s.managers[s.threads[a].i].task.None? {
      assert Given(Do(s, step), s.threads[a].i, t);
    }
  }

  lemma {:induction false} PlacedStep(s: State, step: Step, t: nat)
    requires Enabled(s, step) && Placed(s, t)
    ensures Placed(Do(s, step), t)
  {
    hide Do, Enabled, Given;
    FinishedStays(s, step, t);
    if exists i :: Given(s, i, t) {
      var i :| Given(s, i, t);
      StepRanks(s, step, i, t);
    }
  }

  lemma {:induction false} PlacedThen(s: State, steps: seq<Step>, s': State, t: nat)
    requires Run(s, steps, s') && Placed(s, t)
    ensures Placed(s', t)
    decreases steps
  {
    hide Do, Enabled, Placed;
    if steps != [] {
      PlacedStep(s, steps[0], t);
      PlacedThen(Do(s, steps[0]), steps[1..], s', t);
    }
  }

  lemma {:induction false} AheadPositive(s: State, a: nat, t: nat, i: nat)
    requires Bears(s, a, t, i)
    ensures 0 < Ahead(s.threads[a], i) <= 3 * i + 3
  {
  }

  // As long as no other thread gives that manager a task, the task in hand is with a
  // manager, this one or one before, after that many own steps of the thread.
  lemma {:induction false} HandedOver(s: State, steps: seq<Step>, s': State, a: nat, t: nat, i: nat)
    requires Bears(s, a, t, i) && Run(s, steps, s') && Undisturbed(s, steps, a, t, i)
    requires OwnSteps(steps, a) >= Ahead(s.threads[a], i)
    ensures Placed(s', t)
    decreases steps
  {
    hide Do, Enabled, Bears, Ahead, Spares, OwnStep, Placed;
    AheadPositive(s, a, t, i);
    if Placed(s, t) {
      PlacedThen(s, steps, s', t);
    } else if steps != [] {
      var u := Do(s, steps[0]);
      BearsStep(s, steps[0], a, t, i);
      if Bears(u, a, t, i) {
        HandedOver(u, steps[1..], s', a, t, i);
      } else {
        PlacedThen(u, steps[1..], s', t);
      }
    }
  }

  // No thread but a is looking for a manager.
  ghost predicate Alone(s: State, a: nat) {
    && (forall b :: 0 <= b < |s.threads| && b != a ==>
          s.threads[b].Outside? || s.threads[b].Calling? || s.threads[b].Leaving?)
    && (a < |s.threads| && s.threads[a].Calling? ==> s.queue == [])
  }

  // No other thread begins to.
  ghost predicate Unrivalled(steps: seq<Step>, a: nat) {
    forall k :: 0 <= k < |steps| ==> (steps[k].Enter? ==> steps[k].a == a) && (steps[k].Wake? ==> a == 0)
  }

  lemma {:induction false} AloneStep(s: State, step: Step, a: nat, t: nat, i: nat)
    requires Enabled(s, step) && Bears(s, a, t, i) && Alone(s, a)
    requires (step.Enter? ==> step.a == a) && (step.Wake? ==> a == 0)
    ensures Spares(s, step, a, i) && (Bears(Do(s, step), a, t, i) ==> Alone(Do(s, step), a))
  {
  }

  lemma {:induction false} AloneUndisturbed(s: State, steps: seq<Step>, s': State, a: nat, t: nat, i: nat)
    requires Bears(s, a, t, i) && Run(s, steps, s') && Alone(s, a) && Unrivalled(steps, a)
    ensures Undisturbed(s, steps, a, t, i)
    decreases steps
  {
    hide Do, Enabled, Bears, Alone, Spares, Placed;
    if steps != [] {
      AloneStep(s, steps[0], a, t, i);
      BearsStep(s, steps[0], a, t, i);
      assert forall k :: 0 <= k < |steps[1..]| ==> steps[1..][k] == steps[k + 1];
      var u := Do(s, steps[0]);
      if Bears(u, a, t, i) {
        AloneUndisturbed(u, steps[1..], s', a, t, i);
      }
    }
  }

  // With an idle manager i and no other thread in assign, a task in hand is with a manager,
  // or finished already, after three own steps for each manager up to i.
  lemma {:induction false} HandedOverAlone(s: State, steps: seq<Step>, s': State, a: nat, t: nat, i: nat)
    requires Bears(s, a, t, i) && Run(s, steps, s') && Alone(s, a) && Unrivalled(steps, a)
    requires OwnSteps(steps, a) >= 3 * i + 3
    ensures Placed(s', t)
  {
    hide Bears, Run, Alone, Unrivalled, Placed, Undisturbed, Ahead;
    AheadPositive(s, a, t, i);
    AloneUndisturbed(s, steps, s', a, t, i);
    HandedOver(s, steps, s', a, t, i);
  }
}
