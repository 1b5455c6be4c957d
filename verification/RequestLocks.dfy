/** The locks that a SET request holds on entries and on the listeners of tables. */
module RequestLocks {
  import opened Oids
  import opened Options

  // An entry object, known by its key; tables have listeners, other entries have none.
  type Entry = Oid

  type Slots = seq<Option<Entry>>

  type Listeners = Entry -> seq<Entry>

  // The slots need entry e: it is locked itself or listens to a locked table.
  predicate Covered(ls: Listeners, slots: Slots, e: Entry) {
    exists k :: 0 <= k < |slots| && SlotCovers(ls, slots[k], e)
  }

  predicate SlotCovers(ls: Listeners, slot: Option<Entry>, e: Entry) {
    slot.Some? && (slot.value == e || e in ls(slot.value))
  }

  // No table listens to itself or twice to another.
  ghost predicate Proper(ls: Listeners) {
    forall e :: e !in ls(e) && forall i, j :: 0 <= i < j < |ls(e)| ==> ls(e)[i] != ls(e)[j]
  }

  function One(b: bool): nat {
    if b then 1 else 0
  }

  // How often locking e with the given slots acquires x.
  function Gains(ls: Listeners, slots: Slots, e: Entry, x: Entry): nat {
    if Covered(ls, slots, e) then 0 else One(x == e) + One(x in ls(e) && !Covered(ls, slots, x))
  }

  // How often giving up e, when rest are the remaining slots, releases x.
  function Loses(ls: Listeners, rest: Slots, e: Entry, x: Entry): nat {
    if Some(e) in rest then 0 else One(x == e) + One(x in ls(e) && !Covered(ls, rest, x))
  }

  class Locks {
    const size: nat
    const listeners: Listeners
    var slots: Slots
    // All acquisitions and releases of entry mutexes so far.
    var acquired: multiset<Entry>
    var released: multiset<Entry>

    constructor (size: nat, listeners: Listeners)
      ensures slots == [] && acquired == released == multiset{} && this.size == size && this.listeners == listeners
    {
      this.size, this.listeners := size, listeners;
      slots, acquired, released := [], multiset{}, multiset{};
    }

    ghost function Now(): Snapshot
      reads this
    {
      Snapshot(slots, acquired, released)
    }

    // The first slot that needs e, or -1.
    method LockIndex(e: Entry) returns (i: int)
      ensures -1 <= i < |slots| && (i < 0 <==> !Covered(listeners, slots, e))
      ensures i >= 0 ==> SlotCovers(listeners, slots[i], e)
    {
      i := 0;
      while i < |slots|
        invariant 0 <= i <= |slots| && forall k :: 0 <= k < i ==> !SlotCovers(listeners, slots[k], e)
      {
        if slots[i].Some? {
          if slots[i].value == e || e in listeners(slots[i].value) {
            return i;
          }
        }
        i := i + 1;
      }
      i := -1;
    }

    method SetLocked(i: int, e: Entry)
      requires Proper(listeners)
      modifies this
      ensures released == old(released)
      ensures !(0 <= i < size) ==> slots == old(slots) && acquired == old(acquired)
      ensures 0 <= i < size ==> slots == Extended(old(slots), i)[i := Some(e)]
      ensures 0 <= i < size ==> forall x :: acquired[x] == old(acquired)[x] + Gains(listeners, old(slots), e, x)
    {
      if i < 0 || i >= size {
        return;
      }
      while i >= |slots|
        invariant acquired == old(acquired) && released == old(released)
        invariant Extended(slots, i) == Extended(old(slots), i)
        invariant forall x :: Covered(listeners, slots, x) == Covered(listeners, old(slots), x)
        decreases i - |slots|
      {
        CoveredByNone(listeners, slots);
        slots := slots + [None];
      }
      var at := LockIndex(e);
      if at < 0 {
        acquired := acquired + multiset{e};
        AcquireListeners(e);
      }
      slots := slots[i := Some(e)];
    }

    method AcquireListeners(e: Entry)
      requires Proper(listeners)
      modifies this`acquired
      ensures forall x :: acquired[x] == old(acquired)[x] + One(x in listeners(e) && !Covered(listeners, slots, x))
    {
      var ts := listeners(e);
      for k := 0 to |ts|
        invariant forall x :: acquired[x] == old(acquired)[x] + One(x in ts[..k] && !Covered(listeners, slots, x))
      {
        var at := LockIndex(ts[k]);
        if at < 0 {
          acquired := acquired + multiset{ts[k]};
        }
        assert ts[..k + 1] == ts[..k] + [ts[k]] && ts[k] !in ts[..k];
      }
      assert ts[..|ts|] == ts;
    }

    method SetUnlocked(i: int)
      requires Proper(listeners)
      modifies this
      ensures acquired == old(acquired)
      ensures !(0 <= i < size) || i >= |old(slots)| || old(slots)[i].None? ==>
        slots == old(slots) && released == old(released)
      ensures 0 <= i < size && i < |old(slots)| && old(slots)[i].Some? ==>
        && slots == old(slots)[i := None]
        && forall x :: released[x] == old(released)[x] + Loses(listeners, slots, old(slots)[i].value, x)
    {
      if i < 0 || i >= size || i >= |slots| {
        return;
      }
      var slot := slots[i];
      if slot.Some? {
        slots := slots[i := None];
        if slot !in slots {
          ReleaseListeners(slot.value);
          released := released + multiset{slot.value};
        }
      }
    }

    method ReleaseListeners(e: Entry)
      requires Proper(listeners)
      modifies this`released
      ensures forall x :: released[x] == old(released)[x] + One(x in listeners(e) && !Covered(listeners, slots, x))
    {
      var ts := listeners(e);
      for k := 0 to |ts|
        invariant forall x :: released[x] == old(released)[x] + One(x in ts[..k] && !Covered(listeners, slots, x))
      {
        var at := LockIndex(ts[k]);
        if at < 0 {
          released := released + multiset{ts[k]};
        }
        assert ts[..k + 1] == ts[..k] + [ts[k]] && ts[k] !in ts[..k];
      }
      assert ts[..|ts|] == ts;
    }
  }

  // The slots made long enough for index i.
  function Extended(slots: Slots, i: int): (r: Slots)
    ensures |r| == if i < |slots| then |slots| else i + 1
    ensures forall k :: 0 <= k < |r| ==> r[k] == if k < |slots| then slots[k] else None
  {
    if i < |slots| then slots else slots + seq(i + 1 - |slots|, k => None)
  }

  lemma {:induction false} CoveredByNone(ls: Listeners, slots: Slots)
    ensures forall x :: Covered(ls, slots + [None], x) == Covered(ls, slots, x)
  {
    var t := slots + [None];
    forall x ensures Covered(ls, t, x) == Covered(ls, slots, x) {
      if Covered(ls, slots, x) {
        var k :| 0 <= k < |slots| && SlotCovers(ls, slots[k], x);
        assert SlotCovers(ls, t[k], x);
      }
    }
  }

  /* Balance. */

  // Every entry that the slots need is held exactly once, and nothing else is.
  ghost predicate Balanced(ls: Listeners, slots: Slots, acquired: multiset<Entry>, released: multiset<Entry>) {
    forall x :: acquired[x] == released[x] + One(Covered(ls, slots, x))
  }

  lemma {:induction false} CoveredAfterLock(ls: Listeners, slots: Slots, i: nat, e: Entry, x: Entry)
    requires i >= |slots| || slots[i].None?
    ensures Covered(ls, Extended(slots, i)[i := Some(e)], x) <==> Covered(ls, slots, x) || x == e || x in ls(e)
  {
    var t := Extended(slots, i)[i := Some(e)];
    if Covered(ls, slots, x) {
      var k :| 0 <= k < |slots| && SlotCovers(ls, slots[k], x);
      assert SlotCovers(ls, t[k], x);
    }
    if x == e || x in ls(e) {
      assert SlotCovers(ls, t[i], x);
    }
    if Covered(ls, t, x) {
      var k :| 0 <= k < |t| && SlotCovers(ls, t[k], x);
      assert k != i ==> k < |slots| && SlotCovers(ls, slots[k], x);
    }
  }

  lemma {:induction false} CoveredAfterUnlock(ls: Listeners, slots: Slots, i: nat, x: Entry)
    requires i < |slots| && slots[i].Some?
    ensures Covered(ls, slots, x) <==>
      Covered(ls, slots[i := None], x) || x == slots[i].value || x in ls(slots[i].value)
  {
    CoveredAfterLock(ls, slots[i := None], i, slots[i].value, x);
    assert slots[i := None][i := slots[i]] == slots;
  }

  // Locking e keeps the balance exactly if e is not covered yet or brings no new listener.
  lemma {:induction false} LockBalance(ls: Listeners, slots: Slots, i: nat, e: Entry,
      acq: multiset<Entry>, acq': multiset<Entry>, rel: multiset<Entry>)
    requires Proper(ls) && Balanced(ls, slots, acq, rel) && (i >= |slots| || slots[i].None?)
    requires forall x :: acq'[x] == acq[x] + Gains(ls, slots, e, x)
    ensures Balanced(ls, Extended(slots, i)[i := Some(e)], acq', rel)
      <==> (Covered(ls, slots, e) ==> forall x :: x in ls(e) ==> Covered(ls, slots, x))
  {
    hide Covered, Extended;
    var t := Extended(slots, i)[i := Some(e)];
    forall x ensures acq'[x] == rel[x] + One(Covered(ls, t, x))
      <==> (Covered(ls, slots, e) && x in ls(e) ==> Covered(ls, slots, x))
    {
      CoveredAfterLock(ls, slots, i, e, x);
      assert acq[x] == rel[x] + One(Covered(ls, slots, x));
    }
  }

  // Giving up slot i keeps the balance exactly if its entry is locked by another slot
  // as well or is not needed as a listener of another locked table.
  lemma {:induction false} UnlockBalance(ls: Listeners, slots: Slots, i: nat,
      acq: multiset<Entry>, rel: multiset<Entry>, rel': multiset<Entry>)
    requires Proper(ls) && Balanced(ls, slots, acq, rel) && i < |slots| && slots[i].Some?
    requires forall x :: rel'[x] == rel[x] + Loses(ls, slots[i := None], slots[i].value, x)
    ensures Balanced(ls, slots[i := None], acq, rel')
      <==> (Covered(ls, slots[i := None], slots[i].value) ==> slots[i] in slots[i := None])
  {
    var e, rest := slots[i].value, slots[i := None];
    if slots[i] in rest {
      var k :| 0 <= k < |rest| && rest[k] == slots[i];
      forall x | x == e || x in ls(e) ensures Covered(ls, rest, x) {
        assert SlotCovers(ls, rest[k], x);
      }
    }
    forall x ensures acq[x] == rel'[x] + One(Covered(ls, rest, x))
      <==> (x == e && Covered(ls, rest, x) ==> slots[i] in rest)
    {
      CoveredAfterUnlock(ls, slots, i, x);
      assert acq[x] == rel[x] + One(Covered(ls, slots, x));
    }
  }

  /* Runs. */

  datatype Op = Lock(i: nat, e: Entry) | Unlock(i: nat)

  datatype Snapshot = Snapshot(slots: Slots, acquired: multiset<Entry>, released: multiset<Entry>)

  // What set_locked and set_unlocked do.
  ghost predicate Step(ls: Listeners, size: nat, s: Snapshot, op: Op, t: Snapshot) {
    && t.slots == SlotsNext(size, s.slots, op)
    && match op
       case Lock(i, e) =>
         && t.released == s.released
         && forall x :: t.acquired[x] == s.acquired[x] + if i < size then Gains(ls, s.slots, e, x) else 0
       case Unlock(i) =>
         && t.acquired == s.acquired
         && forall x :: t.released[x] == s.released[x] + Released(ls, size, s, i, x)
  }

  ghost function Released(ls: Listeners, size: nat, s: Snapshot, i: nat, x: Entry): nat {
    if i < size && i < |s.slots| && s.slots[i].Some? then Loses(ls, s.slots[i := None], s.slots[i].value, x) else 0
  }

  function SlotsNext(size: nat, slots: Slots, op: Op): Slots {
    match op
    case Lock(i, e) => if i < size then Extended(slots, i)[i := Some(e)] else slots
    case Unlock(i) => if i < size && i < |slots| then slots[i := None] else slots
  }

  // The slots after the first n operations of a request.
  function SlotsAfter(size: nat, ops: seq<Op>, n: nat): Slots
    requires n <= |ops|
  {
    if n == 0 then [] else SlotsNext(size, SlotsAfter(size, ops, n - 1), ops[n - 1])
  }

  ghost predicate Run(ls: Listeners, size: nat, ops: seq<Op>, states: seq<Snapshot>) {
    && |states| == |ops| + 1 && states[0] == Snapshot([], multiset{}, multiset{})
    && forall n :: 0 <= n < |ops| ==> Step(ls, size, states[n], ops[n], states[n + 1])
  }

  // No locked entry is a listener of another locked entry.
  ghost predicate Separate(ls: Listeners, ops: seq<Op>) {
    forall m, n :: 0 <= m < |ops| && 0 <= n < |ops| && ops[m].Lock? && ops[n].Lock? ==> ops[m].e !in ls(ops[n].e)
  }

  // An index is locked only while its slot is empty.
  ghost predicate Orderly(size: nat, ops: seq<Op>) {
    forall n :: 0 <= n < |ops| && ops[n].Lock? ==>
      var slots := SlotsAfter(size, ops, n); ops[n].i >= |slots| || slots[ops[n].i].None?
  }

  lemma {:induction false} NothingCovered(ls: Listeners, slots: Slots)
    requires forall k :: 0 <= k < |slots| ==> slots[k].None?
    ensures forall x :: !Covered(ls, slots, x)
  {
  }

  // Every filled slot has been filled by one of the operations.
  lemma {:induction false} SlotOrigin(size: nat, ops: seq<Op>, n: nat, k: nat) returns (m: nat)
    requires n <= |ops| && k < |SlotsAfter(size, ops, n)| && SlotsAfter(size, ops, n)[k].Some?
    ensures k < size && m < n && ops[m] == Lock(k, SlotsAfter(size, ops, n)[k].value)
    ensures forall q :: m < q < n ==> ops[q] != Unlock(k)
  {
    var before, op := SlotsAfter(size, ops, n - 1), ops[n - 1];
    if op.Lock? && op.i == k && k < size {
      m := n - 1;
    } else {
      m := SlotOrigin(size, ops, n - 1, k);
    }
  }

  lemma {:induction false} SeparateLocks(ls: Listeners, size: nat, ops: seq<Op>, n: nat, l: nat)
    requires Separate(ls, ops) && n <= |ops| && l < |ops| && ops[l].Lock?
    requires Covered(ls, SlotsAfter(size, ops, n), ops[l].e)
    ensures Some(ops[l].e) in SlotsAfter(size, ops, n)
    ensures forall x :: x in ls(ops[l].e) ==> Covered(ls, SlotsAfter(size, ops, n), x)
  {
    var e, slots := ops[l].e, SlotsAfter(size, ops, n);
    var k :| 0 <= k < |slots| && SlotCovers(ls, slots[k], e);
    var m := SlotOrigin(size, ops, n, k);
    forall x | x in ls(e) ensures Covered(ls, slots, x) {
      assert SlotCovers(ls, slots[k], x);
    }
  }

  lemma {:induction false} RunSlots(ls: Listeners, size: nat, ops: seq<Op>, states: seq<Snapshot>, n: nat)
    requires Run(ls, size, ops, states) && n <= |ops|
    ensures states[n].slots == SlotsAfter(size, ops, n)
  {
    if n > 0 {
      RunSlots(ls, size, ops, states, n - 1);
      assert Step(ls, size, states[n - 1], ops[n - 1], states[n]);
    }
  }

  // The operation keeps the balance: locking a covered entry brings no new listener, and an
  // entry is not given up by its last slot while it listens to a locked table.
  ghost predicate Sparing(ls: Listeners, size: nat, slots: Slots, op: Op) {
    match op
    case Lock(i, e) => i < size && Covered(ls, slots, e) ==> forall x :: x in ls(e) ==> Covered(ls, slots, x)
    case Unlock(i) => i < size && i < |slots| && slots[i].Some? && Covered(ls, slots[i := None], slots[i].value) ==>
      slots[i] in slots[i := None]
  }

  lemma {:induction false} StepBalanced(ls: Listeners, size: nat, s: Snapshot, op: Op, t: Snapshot)
    requires Proper(ls) && Step(ls, size, s, op, t) && Balanced(ls, s.slots, s.acquired, s.released)
    requires op.Lock? ==> op.i >= |s.slots| || s.slots[op.i].None?
    ensures Balanced(ls, t.slots, t.acquired, t.released) <==> Sparing(ls, size, s.slots, op)
  {
    hide Covered, Gains, Loses, Extended, Proper, Balanced;
    match op
    case Lock(i, e) =>
      if i < size {
        LockBalance(ls, s.slots, i, e, s.acquired, t.acquired, s.released);
      } else {
        SameBalance(ls, s, t);
      }
    case Unlock(i) =>
      if i < size && i < |s.slots| && s.slots[i].Some? {
        UnlockBalance(ls, s.slots, i, s.acquired, s.released, t.released);
      } else {
        assert t.slots == s.slots;
        SameBalance(ls, s, t);
      }
  }

  lemma {:induction false} SameBalance(ls: Listeners, s: Snapshot, t: Snapshot)
    requires t.slots == s.slots && forall x :: t.acquired[x] == s.acquired[x] && t.released[x] == s.released[x]
    ensures Balanced(ls, s.slots, s.acquired, s.released) <==> Balanced(ls, t.slots, t.acquired, t.released)
  {
    hide Covered;
  }

  lemma {:induction false} RunKeeps(ls: Listeners, size: nat, ops: seq<Op>, states: seq<Snapshot>, n: nat)
    requires Run(ls, size, ops, states) && Proper(ls) && Orderly(size, ops) && n < |ops|
    requires Balanced(ls, states[n].slots, states[n].acquired, states[n].released)
    ensures Balanced(ls, states[n + 1].slots, states[n + 1].acquired, states[n + 1].released)
      <==> Sparing(ls, size, SlotsAfter(size, ops, n), ops[n])
  {
    hide Balanced, Sparing, Step, SlotsAfter, Proper;
    RunSlots(ls, size, ops, states, n);
    assert Step(ls, size, states[n], ops[n], states[n + 1]);
    StepBalanced(ls, size, states[n], ops[n], states[n + 1]);
  }

  ghost predicate AllSparing(ls: Listeners, size: nat, ops: seq<Op>) {
    forall n :: 0 <= n < |ops| ==> Sparing(ls, size, SlotsAfter(size, ops, n), ops[n])
  }

  // After every operation exactly the needed mutexes are held, each once, if and only if
  // every operation spares the balance; that depends on the list of calls alone.
  lemma {:induction false} BalancedExactly(ls: Listeners, size: nat, ops: seq<Op>, states: seq<Snapshot>)
    requires Run(ls, size, ops, states) && Proper(ls) && Orderly(size, ops)
    ensures (forall n :: 0 <= n < |states| ==> Balanced(ls, states[n].slots, states[n].acquired, states[n].released))
      <==> AllSparing(ls, size, ops)
  {
    hide Balanced, Sparing, SlotsAfter, Proper, Step;
    if forall n :: 0 <= n < |states| ==> Balanced(ls, states[n].slots, states[n].acquired, states[n].released) {
      forall n | 0 <= n < |ops| ensures Sparing(ls, size, SlotsAfter(size, ops, n), ops[n]) {
        assert Balanced(ls, states[n + 1].slots, states[n + 1].acquired, states[n + 1].released);
        RunKeeps(ls, size, ops, states, n);
      }
    }
    if AllSparing(ls, size, ops) {
      forall n | 0 <= n < |states| ensures Balanced(ls, states[n].slots, states[n].acquired, states[n].released) {
        BalancedUpTo(ls, size, ops, states, n);
      }
    }
  }

  lemma {:induction false} BalancedUpTo(ls: Listeners, size: nat, ops: seq<Op>, states: seq<Snapshot>, n: nat)
    requires Run(ls, size, ops, states) && Proper(ls) && Orderly(size, ops) && AllSparing(ls, size, ops) && n <= |ops|
    ensures Balanced(ls, states[n].slots, states[n].acquired, states[n].released)
  {
    hide Sparing, SlotsAfter, Proper, Step;
    if n == 0 {
      NothingCovered(ls, []);
    } else {
      hide Balanced;
      BalancedUpTo(ls, size, ops, states, n - 1);
      assert Sparing(ls, size, SlotsAfter(size, ops, n - 1), ops[n - 1]);
      RunKeeps(ls, size, ops, states, n - 1);
    }
  }

  lemma {:induction false} SeparateSparing(ls: Listeners, size: nat, ops: seq<Op>)
    requires Separate(ls, ops)
    ensures AllSparing(ls, size, ops)
  {
    hide Covered, Separate, SlotsAfter, Extended;
    forall n | 0 <= n < |ops| ensures Sparing(ls, size, SlotsAfter(size, ops, n), ops[n]) {
      var slots := SlotsAfter(size, ops, n);
      match ops[n]
      case Lock(i, e) =>
        if Covered(ls, slots, e) {
          SeparateLocks(ls, size, ops, n, n);
        }
      case Unlock(i) =>
        if i < size && i < |slots| && slots[i].Some? {
          var m := SlotOrigin(size, ops, n, i);
          NextSlots(size, ops, n);
          if Covered(ls, slots[i := None], ops[m].e) {
            SeparateLocks(ls, size, ops, n + 1, m);
          }
        }
    }
  }

  lemma {:induction false} NextSlots(size: nat, ops: seq<Op>, n: nat)
    requires n < |ops|
    ensures SlotsAfter(size, ops, n + 1) == SlotsNext(size, SlotsAfter(size, ops, n), ops[n])
  {
  }

  // In every order of locking and unlocking, exactly the needed mutexes are held, each
  // once, after every operation.
  lemma {:induction false} RunBalanced(ls: Listeners, size: nat, ops: seq<Op>, states: seq<Snapshot>, n: nat)
    requires Run(ls, size, ops, states) && Proper(ls) && Separate(ls, ops) && Orderly(size, ops) && n <= |ops|
    ensures Balanced(ls, states[n].slots, states[n].acquired, states[n].released)
  {
    hide Run, Proper, Separate, Orderly, AllSparing, Balanced;
    SeparateSparing(ls, size, ops);
    BalancedUpTo(ls, size, ops, states, n);
  }

  // The operations of one request: locks of distinct indices, then unlocks of all of
  // them, in any order and with gaps.
  ghost predicate LocksThenUnlocks(size: nat, ins: seq<Op>, outs: seq<Op>) {
    && (forall n :: 0 <= n < |ins| ==> ins[n].Lock? && ins[n].i < size)
    && (forall m, n :: 0 <= m < n < |ins| ==> ins[m].i != ins[n].i)
    && (forall n :: 0 <= n < |outs| ==> outs[n].Unlock?)
    && (forall n :: 0 <= n < |ins| ==> Unlock(ins[n].i) in outs)
  }

  // The entry x is locked or listens to a locked table.
  ghost predicate Involved(ls: Listeners, ins: seq<Op>, x: Entry) {
    exists n :: 0 <= n < |ins| && ins[n].Lock? && (x == ins[n].e || x in ls(ins[n].e))
  }

  lemma {:induction false} DistinctOrderly(size: nat, ins: seq<Op>, outs: seq<Op>)
    requires LocksThenUnlocks(size, ins, outs)
    ensures Orderly(size, ins + outs)
  {
    hide SlotsAfter;
    var ops := ins + outs;
    forall n | 0 <= n < |ops| && ops[n].Lock?
      ensures ops[n].i >= |SlotsAfter(size, ops, n)| || SlotsAfter(size, ops, n)[ops[n].i].None?
    {
      if ops[n].i < |SlotsAfter(size, ops, n)| && SlotsAfter(size, ops, n)[ops[n].i].Some? {
        var m := SlotOrigin(size, ops, n, ops[n].i);
        assert false;
      }
    }
  }

  // When all indices have been locked, and not before, a listed entry keeps its slot.
  lemma {:induction false} KeepsSlot(size: nat, ins: seq<Op>, outs: seq<Op>, m: nat, n: nat)
    requires LocksThenUnlocks(size, ins, outs) && m < n <= |ins|
    ensures var slots := SlotsAfter(size, ins + outs, n); ins[m].i < |slots| && slots[ins[m].i] == Some(ins[m].e)
  {
    if n > m + 1 {
      KeepsSlot(size, ins, outs, m, n - 1);
    }
  }

  lemma {:induction false} AllLocked(ls: Listeners, size: nat, ins: seq<Op>, outs: seq<Op>, x: Entry)
    requires LocksThenUnlocks(size, ins, outs)
    ensures Covered(ls, SlotsAfter(size, ins + outs, |ins|), x) <==> Involved(ls, ins, x)
  {
    hide SlotsAfter;
    var ops := ins + outs;
    var slots := SlotsAfter(size, ops, |ins|);
    if Covered(ls, slots, x) {
      var k :| 0 <= k < |slots| && SlotCovers(ls, slots[k], x);
      var m := SlotOrigin(size, ops, |ins|, k);
      assert ins[m].Lock? && ins[m].e == slots[k].value;
    }
    if Involved(ls, ins, x) {
      var m :| 0 <= m < |ins| && ins[m].Lock? && (x == ins[m].e || x in ls(ins[m].e));
      KeepsSlot(size, ins, outs, m, |ins|);
      assert SlotCovers(ls, slots[ins[m].i], x);
    }
  }

  lemma {:induction false} AllUnlocked(size: nat, ins: seq<Op>, outs: seq<Op>)
    requires LocksThenUnlocks(size, ins, outs)
    ensures var slots := SlotsAfter(size, ins + outs, |ins + outs|); forall k :: 0 <= k < |slots| ==> slots[k].None?
  {
    hide SlotsAfter;
    var ops := ins + outs;
    var slots := SlotsAfter(size, ops, |ops|);
    forall m | 0 <= m < |ins| ensures exists q :: |ins| <= q < |ops| && ops[q] == Unlock(ins[m].i) {
      var q :| 0 <= q < |outs| && outs[q] == Unlock(ins[m].i);
      assert ops[|ins| + q] == outs[q];
    }
    forall k | 0 <= k < |slots| ensures slots[k].None? {
      if slots[k].Some? {
        var m := SlotOrigin(size, ops, |ops|, k);
        assert false;
      }
    }
  }

  // Locking acquires only and unlocking releases only.
  lemma {:induction false} TwoPhases(ls: Listeners, size: nat, ins: seq<Op>, outs: seq<Op>, states: seq<Snapshot>,
      n: nat)
    requires Run(ls, size, ins + outs, states) && LocksThenUnlocks(size, ins, outs) && n <= |ins + outs|
    ensures n <= |ins| ==> states[n].released == multiset{}
    ensures n >= |ins| ==> states[n].acquired == states[|ins|].acquired
  {
    if n > 0 {
      TwoPhases(ls, size, ins, outs, states, n - 1);
      assert Step(ls, size, states[n - 1], (ins + outs)[n - 1], states[n]);
    }
  }

  // Over a whole request every entry and every listener is acquired once and released
  // once, and in between exactly those that the slots need are held.
  lemma {:induction false} RequestBalanced(ls: Listeners, size: nat, ins: seq<Op>, outs: seq<Op>, states: seq<Snapshot>)
    requires Run(ls, size, ins + outs, states) && LocksThenUnlocks(size, ins, outs)
    requires Proper(ls) && Separate(ls, ins)
    ensures forall n :: 0 <= n < |states| ==> Balanced(ls, states[n].slots, states[n].acquired, states[n].released)
    ensures forall x :: states[|ins|].acquired[x] == One(Involved(ls, ins, x))
    ensures var last := states[|states| - 1];
      forall x :: last.acquired[x] == last.released[x] == One(Involved(ls, ins, x))
  {
    var ops := ins + outs;
    assert |states| == |ops| + 1;
    hide Covered, Step, Involved, SlotsAfter, Run;
    assert Separate(ls, ops);
    DistinctOrderly(size, ins, outs);
    forall n | 0 <= n < |states| ensures Balanced(ls, states[n].slots, states[n].acquired, states[n].released) {
      RunBalanced(ls, size, ops, states, n);
    }
    RunSlots(ls, size, ops, states, |ins|);
    RunSlots(ls, size, ops, states, |ops|);
    TwoPhases(ls, size, ins, outs, states, |ins|);
    TwoPhases(ls, size, ins, outs, states, |ops|);
    AllUnlocked(size, ins, outs);
    NothingCovered(ls, states[|ops|].slots);
    forall x ensures states[|ins|].acquired[x] == One(Involved(ls, ins, x)) {
      AllLocked(ls, size, ins, outs, x);
    }
  }

  // Calls set_locked and set_unlocked in turn; states are those between the calls.
  method Perform(locks: Locks, ops: seq<Op>) returns (ghost states: seq<Snapshot>)
    requires locks.Now() == Snapshot([], multiset{}, multiset{}) && Proper(locks.listeners)
    modifies locks
    ensures Run(locks.listeners, locks.size, ops, states) && locks.Now() == states[|ops|]
  {
    hide Covered, Gains, Loses, Proper, Extended;
    states := [locks.Now()];
    for k := 0 to |ops|
      invariant |states| == k + 1 && states[0] == Snapshot([], multiset{}, multiset{}) && states[k] == locks.Now()
      invariant forall n :: 0 <= n < k ==> Step(locks.listeners, locks.size, states[n], ops[n], states[n + 1])
    {
      match ops[k] {
        case Lock(i, e) => locks.SetLocked(i, e);
        case Unlock(i) => locks.SetUnlocked(i);
      }
      assert Step(locks.listeners, locks.size, states[k], ops[k], locks.Now());
      states := states + [locks.Now()];
    }
  }

  // The locks of one request.
  method LockAll(locks: Locks, ins: seq<Op>, outs: seq<Op>) returns (ghost states: seq<Snapshot>)
    requires locks.Now() == Snapshot([], multiset{}, multiset{}) && LocksThenUnlocks(locks.size, ins, outs)
    requires Proper(locks.listeners) && Separate(locks.listeners, ins)
    modifies locks
    ensures Run(locks.listeners, locks.size, ins + outs, states) && locks.Now() == states[|ins| + |outs|]
    ensures forall n :: 0 <= n < |states| ==>
      Balanced(locks.listeners, states[n].slots, states[n].acquired, states[n].released)
    ensures forall x :: locks.acquired[x] == locks.released[x] == One(Involved(locks.listeners, ins, x))
  {
    hide Covered, Proper, Separate, LocksThenUnlocks, Involved, Balanced;
    states := Perform(locks, ins + outs);
    RequestBalanced(locks.listeners, locks.size, ins, outs, states);
  }

  /* A listener locked before its table. */

  const TABLE: Entry := [1]
  const LISTENER: Entry := [2]

  function OneListener(): Listeners {
    e => if e == TABLE then [LISTENER] else []
  }

  function ListenerFirst(): seq<Op> {
    [Lock(0, LISTENER), Lock(1, TABLE), Unlock(0), Unlock(1)]
  }

  lemma {:induction false} ListenerAndTable(states: seq<Snapshot>)
    requires Run(OneListener(), 2, ListenerFirst(), states)
    ensures states[2].slots == [Some(LISTENER), Some(TABLE)]
    ensures states[2].acquired[LISTENER] == 1 && states[2].released[LISTENER] == 0
  {
    var ls, ops := OneListener(), ListenerFirst();
    assert Step(ls, 2, states[0], ops[0], states[1]);
    assert states[1].slots == [Some(LISTENER)] && !Covered(ls, [], LISTENER);
    assert Step(ls, 2, states[1], ops[1], states[2]);
    assert SlotCovers(ls, states[1].slots[0], LISTENER);
  }

  // Unlocking in the order of the indices releases the listener while its table is still
  // locked, and a second time with the table.
  lemma {:induction false} ReleasedTwice(states: seq<Snapshot>)
    requires Run(OneListener(), 2, ListenerFirst(), states)
    ensures Covered(OneListener(), states[3].slots, LISTENER)
    ensures states[3].acquired[LISTENER] == states[3].released[LISTENER] == 1
    ensures states[4].acquired[LISTENER] == 1 && states[4].released[LISTENER] == 2
  {
    var ls, ops := OneListener(), ListenerFirst();
    ListenerAndTable(states);
    assert Step(ls, 2, states[2], ops[2], states[3]);
    assert states[3].slots == [None, Some(TABLE)];
    assert SlotCovers(ls, states[3].slots[1], LISTENER);
    assert Step(ls, 2, states[3], ops[3], states[4]);
    assert states[4].slots == [None, None];
    NothingCovered(ls, states[4].slots);
  }

  method ReleaseTwice() returns (locks: Locks)
    ensures locks.listeners == OneListener()
    ensures locks.acquired[LISTENER] == 1 && locks.released[LISTENER] == 2
  {
    locks := new Locks(2, OneListener());
    ghost var states := Perform(locks, ListenerFirst());
    ReleasedTwice(states);
  }
}
