/** SET requests on scalars: prepare, commit, undo and cleanup. */
module SetProtocol {
  import opened Oids
  import opened Options
  import opened RequestLocks

  type Value = int

  datatype Bind = Bind(oid: Oid, value: Value)

  datatype Status = Success | NoCreation | NoAccess | Rejected(error: int) | CommitFail

  // A scalar object with its value and the copy saved for a later undo.
  class Leaf {
    var value: Value
    var undo: Option<Value>

    constructor (v: Value)
      ensures value == v && undo == None
    {
      value, undo := v, None;
    }

    // MibLeaf::set. ok is the outcome of set_value.
    method Set(v: Value, ok: bool)
      modifies this
      ensures undo == Some(old(value)) && value == if ok then v else old(value)
    {
      undo := Some(value);
      if ok {
        value := v;
      }
    }

    method Unset()
      modifies this
      ensures undo == None && value == if old(undo).Some? then old(undo).value else old(value)
    {
      if undo.Some? {
        value := undo.value;
        undo := None;
      }
    }

    method Cleanup()
      modifies this
      ensures undo == None && value == old(value)
    {
      if undo.Some? {
        undo := None;
      }
    }
  }

  type Store = map<Oid, Value>

  function OidsOf(binds: seq<Bind>): (os: seq<Oid>)
    ensures |os| == |binds| && forall i :: 0 <= i < |binds| ==> os[i] == binds[i].oid
  {
    seq(|binds|, i requires 0 <= i < |binds| => binds[i].oid)
  }

  ghost predicate Known(s: Store, binds: seq<Bind>) {
    forall i :: 0 <= i < |binds| ==> binds[i].oid in s
  }

  // The store after the assignments binds, one after the other.
  ghost function Apply(s: Store, binds: seq<Bind>): Store {
    if binds == [] then s
    else Apply(s, binds[..|binds| - 1])[binds[|binds| - 1].oid := binds[|binds| - 1].value]
  }

  // The undo copies saved by these assignments.
  ghost function Copies(s: Store, binds: seq<Bind>): (c: Store)
    requires Known(s, binds)
    ensures forall o :: o in c <==> exists i :: 0 <= i < |binds| && binds[i].oid == o
  {
    if binds == [] then map[]
    else
      var before := Apply(s, binds[..|binds| - 1]);
      ApplyKeys(s, binds[..|binds| - 1]);
      Copies(s, binds[..|binds| - 1])[binds[|binds| - 1].oid := before[binds[|binds| - 1].oid]]
  }

  lemma {:induction false} ApplyKeys(s: Store, binds: seq<Bind>)
    requires Known(s, binds)
    ensures Apply(s, binds).Keys == s.Keys
  {
    if binds != [] {
      ApplyKeys(s, binds[..|binds| - 1]);
    }
  }

  // The store after every saved copy has been written back.
  function Restored(s: Store, copies: Store): Store {
    map o | o in s :: if o in copies then copies[o] else s[o]
  }

  function Part(c: Store, os: seq<Oid>): Store {
    map o | o in c && o in os :: c[o]
  }

  function Rest(c: Store, os: seq<Oid>): Store {
    map o | o in c && o !in os :: c[o]
  }

  ghost predicate Within(c: Store, os: seq<Oid>) {
    forall o :: o in c ==> o in os
  }

  lemma {:induction false} NothingUnset(s: Store, c: Store)
    ensures Restored(s, Part(c, [])) == s && Rest(c, []) == c
  {
  }

  lemma {:induction false} UnsetStep(s: Store, c: Store, os: seq<Oid>, o: Oid)
    ensures var (t, r) := (Restored(s, Part(c, os)), Rest(c, os));
      && t.Keys == s.Keys && Rest(c, os + [o]) == r - {o}
      && (o in s ==> Restored(s, Part(c, os + [o])) == if o in r then t[o := r[o]] else t)
  {
  }

  lemma {:induction false} AllUnset(s: Store, c: Store, os: seq<Oid>)
    requires Within(c, os)
    ensures Restored(s, Part(c, os)) == Restored(s, c) && Rest(c, os) == map[]
  {
  }

  class Mib {
    const leaves: map<Oid, Leaf>

    constructor (leaves: map<Oid, Leaf>)
      ensures this.leaves == leaves
    {
      this.leaves := leaves;
    }

    ghost predicate Valid() {
      forall o, p :: o in leaves && p in leaves && o != p ==> leaves[o] != leaves[p]
    }

    ghost function Vals(): Store
      reads leaves.Values
    {
      map o | o in leaves :: leaves[o].value
    }

    ghost function Undos(): Store
      reads leaves.Values
    {
      map o | o in leaves && leaves[o].undo.Some? :: leaves[o].undo.value
    }

    lemma ValsKeys()
      ensures Vals().Keys == leaves.Keys
    {
    }

    method SetLeaf(o: Oid, v: Value, ok: bool)
      requires Valid() && o in leaves
      modifies leaves.Values
      ensures Vals() == (if ok then old(Vals())[o := v] else old(Vals()))
      ensures Undos() == old(Undos())[o := old(Vals())[o]]
    {
      leaves[o].Set(v, ok);
    }

    method UnsetLeaf(o: Oid)
      requires Valid() && o in leaves
      modifies leaves.Values
      ensures Vals() == (if o in old(Undos()) then old(Vals())[o := old(Undos())[o]] else old(Vals()))
      ensures Undos() == old(Undos()) - {o}
    {
      leaves[o].Unset();
    }

    method CleanupLeaf(o: Oid)
      requires Valid() && o in leaves
      modifies leaves.Values
      ensures Vals() == old(Vals()) && Undos() == old(Undos()) - {o}
    {
      leaves[o].Cleanup();
    }

    // A sub-request can be committed: the object exists, is in the view and accepts the value.
    predicate Ready(b: Bind, view: Oid -> bool, check: Bind -> int) {
      b.oid in leaves && view(b.oid) && check(b) == 0
    }

    // Looks up, locks and checks the objects in turn; stops at the first failure.
    method Prepare(binds: seq<Bind>, view: Oid -> bool, check: Bind -> int, locks: Locks)
      returns (status: Status, at: nat)
      requires Fresh(locks, |binds|)
      modifies locks
      ensures at <= |binds| && forall i :: 0 <= i < at ==> Ready(binds[i], view, check)
      ensures status == Success <==> at == |binds|
      ensures at < |binds| ==> status == (if binds[at].oid !in leaves then NoCreation
        else if !view(binds[at].oid) then NoAccess else Rejected(check(binds[at]))) && !Ready(binds[at], view, check)
      ensures at <= |locks.slots| <= |binds| && Holding(locks, binds, 0, |locks.slots|)
      ensures forall i :: 0 <= i < |locks.slots| ==> binds[i].oid in leaves
    {
      hide Balanced, Covered;
      at := 0;
      NothingHeld(locks.listeners);
      while at < |binds|
        invariant at <= |binds| && forall i :: 0 <= i < at ==> Ready(binds[i], view, check)
        invariant Holding(locks, binds, 0, at)
      {
        var b := binds[at];
        if b.oid !in leaves {
          return NoCreation, at;
        }
        if !view(b.oid) {
          return NoAccess, at;
        }
        LockNext(binds, at, locks);
        if check(b) != 0 {
          return Rejected(check(b)), at;
        }
        at := at + 1;
      }
      status := Success;
    }

    // Stops at the first object that cannot store its value.
    method Commit(binds: seq<Bind>, setOk: nat -> bool) returns (status: Status, at: nat)
      requires Valid() && Undos() == map[] && Known(Vals(), binds)
      modifies leaves.Values
      ensures at <= |binds| && (forall i :: 0 <= i < at ==> setOk(i)) && (at < |binds| ==> !setOk(at))
      ensures status == if at == |binds| then Success else CommitFail
      ensures Vals() == Apply(old(Vals()), binds[..at])
      ensures Undos() == Copies(old(Vals()), binds[..if at < |binds| then at + 1 else at])
    {
      hide Apply, Copies;
      ghost var s := Vals();
      StartOfRun(s, binds);
      at := 0;
      while at < |binds|
        invariant at <= |binds| && (forall i :: 0 <= i < at ==> setOk(i))
        invariant Vals() == Apply(s, binds[..at]) && Undos() == Copies(s, binds[..at])
      {
        RunStep(s, binds, at);
        SetLeaf(binds[at].oid, binds[at].value, setOk(at));
        if !setOk(at) {
          return CommitFail, at;
        }
        at := at + 1;
      }
      status := Success;
    }

    // Writes back every copy and gives up the locks.
    method Undo(binds: seq<Bind>, locks: Locks)
      requires Valid() && (forall i :: 0 <= i < |binds| ==> binds[i].oid in leaves)
      requires Within(Undos(), OidsOf(binds)) && Holding(locks, binds, 0, |binds|)
      modifies locks, leaves.Values
      ensures Vals() == Restored(old(Vals()), old(Undos())) && Undos() == map[]
      ensures Holding(locks, binds, |binds|, |binds|)
    {
      hide Holding, Within, Restored, Part, Rest, Mib.Vals, Mib.Undos;
      ghost var s, c := Vals(), Undos();
      ValsKeys();
      NothingUnset(s, c);
      for i := 0 to |binds|
        invariant UndoneTo(binds, i, s, c) && Holding(locks, binds, i, |binds|)
      {
        UndoOne(binds, i, locks, s, c);
      }
      AllUnset(s, c, OidsOf(binds));
      assert binds[..|binds|] == binds;
    }

    // The copies of the first i sub-requests have been written back.
    ghost predicate UndoneTo(binds: seq<Bind>, i: nat, s: Store, c: Store)
      requires i <= |binds|
      reads leaves.Values
    {
      Vals() == Restored(s, Part(c, OidsOf(binds[..i]))) && Undos() == Rest(c, OidsOf(binds[..i]))
    }

    method UndoOne(binds: seq<Bind>, i: nat, locks: Locks, ghost s: Store, ghost c: Store)
      requires Valid() && i < |binds| && binds[i].oid in leaves && s.Keys == leaves.Keys
      requires UndoneTo(binds, i, s, c) && Holding(locks, binds, i, |binds|)
      modifies locks, leaves.Values
      ensures UndoneTo(binds, i + 1, s, c) && Holding(locks, binds, i + 1, |binds|)
    {
      hide Holding, Within, Restored, Part, Rest, Mib.Vals, Mib.Undos;
      PrefixOids(binds, i);
      UnsetStep(s, c, OidsOf(binds[..i]), binds[i].oid);
      UnsetLeaf(binds[i].oid);
      UnlockOne(binds, i, |binds|, locks);
    }

    // Drops the copies of the locked objects and gives up their locks, up to the
    // first sub-request that is not locked.
    method CleanupAll(binds: seq<Bind>, locks: Locks)
      requires Valid() && |locks.slots| <= |binds| && Holding(locks, binds, 0, |locks.slots|)
      requires Within(Undos(), OidsOf(binds[..|locks.slots|]))
      requires forall i :: 0 <= i < |locks.slots| ==> binds[i].oid in leaves
      modifies locks, leaves.Values
      ensures Vals() == old(Vals()) && Undos() == map[]
      ensures |locks.slots| == old(|locks.slots|) && Holding(locks, binds, |locks.slots|, |locks.slots|)
    {
      hide Balanced, Covered, Restored, Part, Rest, Within, Mib.Vals, Mib.Undos;
      ghost var c := Undos();
      var n := |locks.slots|;
      NothingUnset(c, c);
      for i := 0 to |binds|
        invariant i <= n == |locks.slots| && Vals() == old(Vals())
        invariant Undos() == Rest(c, OidsOf(binds[..i]))
        invariant Holding(locks, binds, i, n)
      {
        if i >= |locks.slots| {
          AllUnset(c, c, OidsOf(binds[..n]));
          return;
        }
        PrefixOids(binds, i);
        UnsetStep(c, c, OidsOf(binds[..i]), binds[i].oid);
        CleanupLeaf(binds[i].oid);
        UnlockOne(binds, i, n, locks);
      }
      AllUnset(c, c, OidsOf(binds[..n]));
    }

    // The outcome of a request: which sub-request failed, and in which phase.
    ghost predicate Outcome(binds: seq<Bind>, view: Oid -> bool, check: Bind -> int, setOk: nat -> bool,
        status: Status, at: nat)
    {
      && at <= |binds| && (status == Success <==> at == |binds|)
      && (forall i :: 0 <= i < at ==> Ready(binds[i], view, check))
      && match status
         case Success => forall i :: 0 <= i < |binds| ==> Ready(binds[i], view, check) && setOk(i)
         case CommitFail =>
           !setOk(at) && forall i :: 0 <= i < |binds| ==> Ready(binds[i], view, check) && (i < at ==> setOk(i))
         case NoCreation => binds[at].oid !in leaves
         case NoAccess => binds[at].oid in leaves && !view(binds[at].oid)
         case Rejected(e) => binds[at].oid in leaves && view(binds[at].oid) && e == check(binds[at]) != 0
    }

    // The answer to a request: success if and only if every object exists, is in the view,
    // accepts its value and can store it; else the error of the first sub-request that the
    // prepare phase refuses; else a failed commit.
    ghost predicate Answered(binds: seq<Bind>, view: Oid -> bool, check: Bind -> int, setOk: nat -> bool,
        status: Status)
    {
      && (status == Success <==> forall i :: 0 <= i < |binds| ==>
            binds[i].oid in leaves && view(binds[i].oid) && check(binds[i]) == 0 && setOk(i))
      && (status == CommitFail <==>
            && (forall i :: 0 <= i < |binds| ==>
                  binds[i].oid in leaves && view(binds[i].oid) && check(binds[i]) == 0)
            && exists i :: 0 <= i < |binds| && !setOk(i))
      && forall k :: 0 <= k < |binds| ==>
        (forall i :: 0 <= i < k ==> binds[i].oid in leaves && view(binds[i].oid) && check(binds[i]) == 0) ==>
          && (binds[k].oid !in leaves ==> status == NoCreation)
          && (binds[k].oid in leaves && !view(binds[k].oid) ==> status == NoAccess)
          && (binds[k].oid in leaves && view(binds[k].oid) && check(binds[k]) != 0 ==>
                status == Rejected(check(binds[k])))
    }

    // The store that a request leaves behind.
    ghost function After(s: Store, binds: seq<Bind>, status: Status, at: nat): Store
      requires Known(s, binds) || (status != Success && status != CommitFail)
      requires at <= |binds|
    {
      match status
      case Success => Apply(s, binds)
      case CommitFail => AfterFailure(s, binds, at)
      case _ => s
    }

    // process_set_request.
    method ProcessSet(binds: seq<Bind>, view: Oid -> bool, check: Bind -> int, setOk: nat -> bool, locks: Locks)
      returns (status: Status, ghost at: nat)
      requires Valid() && Undos() == map[] && Fresh(locks, |binds|)
      modifies locks, leaves.Values
      ensures Outcome(binds, view, check, setOk, status, at)
      ensures Answered(binds, view, check, setOk, status)
      ensures status == Success || status == CommitFail ==> Known(old(Vals()), binds)
      ensures Vals() == After(old(Vals()), binds, status, at)
      ensures Undos() == map[] && locks.acquired == locks.released
    {
      hide Balanced, Covered, Apply, Copies, AfterFailure, Restored, Answered, Holding;
      status, at := Prepare(binds, view, check, locks);
      if status == Success {
        assert binds[..|binds|] == binds;
        status, at := CommitOrUndo(binds, setOk, locks);
        OutcomeAnswers(binds, view, check, setOk, status, at);
        return;
      }
      OutcomeAnswers(binds, view, check, setOk, status, at);
      CleanupAll(binds, locks);
      AllReleased(binds, locks, |locks.slots|);
    }

    // The phases after a successful prepare.
    method CommitOrUndo(binds: seq<Bind>, setOk: nat -> bool, locks: Locks) returns (status: Status, at: nat)
      requires Valid() && Undos() == map[] && Holding(locks, binds, 0, |binds|)
      requires forall i :: 0 <= i < |binds| ==> binds[i].oid in leaves
      modifies locks, leaves.Values
      ensures at <= |binds| && (forall i :: 0 <= i < at ==> setOk(i)) && (at < |binds| ==> !setOk(at))
      ensures status == (if at == |binds| then Success else CommitFail) && Known(old(Vals()), binds)
      ensures Vals() == After(old(Vals()), binds, status, at)
      ensures Undos() == map[] && locks.acquired == locks.released
    {
      hide Balanced, Covered, Apply, Copies, Restored, Within;
      ghost var s := Vals();
      status, at := Commit(binds, setOk);
      CopiesKeys(s, binds, if at < |binds| then at + 1 else at);
      assert binds[..|binds|] == binds;
      if status != Success {
        Undo(binds, locks);
        AllReleased(binds, locks, |binds|);
        return;
      }
      assert |locks.slots| == |binds|;
      CleanupAll(binds, locks);
      AllReleased(binds, locks, |binds|);
    }

    // A run of requests, each of which names an object at most once: every request
    // either assigns all its values at once or changes nothing.
    method ServeAll(requests: seq<SetRequest>, view: Oid -> bool, check: Bind -> int) returns (statuses: seq<Status>)
      requires Valid() && Undos() == map[]
      requires forall k :: 0 <= k < |requests| ==> DistinctObjects(requests[k].binds)
      modifies leaves.Values
      ensures |statuses| == |requests| && Vals() == AtomicRun(old(Vals()), requests, statuses)
      ensures forall k :: 0 <= k < |requests| ==>
        (statuses[k] == Success <==> forall i :: 0 <= i < |requests[k].binds| ==>
          var b := requests[k].binds[i];
          b.oid in leaves && view(b.oid) && check(b) == 0 && requests[k].setOk(i))
      ensures forall k :: 0 <= k < |requests| ==>
        Answered(requests[k].binds, view, check, requests[k].setOk, statuses[k])
      ensures Undos() == map[]
    {
      hide Assigned, AfterFailure, Apply, DistinctObjects, Answered, After;
      statuses := [];
      ghost var s := Vals();
      for k := 0 to |requests|
        invariant |statuses| == k && Vals() == AtomicRun(s, requests[..k], statuses) && Undos() == map[]
        invariant forall j :: 0 <= j < k ==>
          Answered(requests[j].binds, view, check, requests[j].setOk, statuses[j])
      {
        var binds := requests[k].binds;
        var locks := new Locks(|binds|, e => []);
        ghost var before := Vals();
        var status;
        ghost var at;
        status, at := ProcessSet(binds, view, check, requests[k].setOk, locks);
        OneRequest(before, binds, status, at);
        assert Answered(requests[k].binds, view, check, requests[k].setOk, status);
        assert requests[..k + 1][..k] == requests[..k] && (statuses + [status])[..k] == statuses;
        statuses := statuses + [status];
      }
      assert requests[..|requests|] == requests;
      forall k | 0 <= k < |requests|
        ensures statuses[k] == Success <==> forall i :: 0 <= i < |requests[k].binds| ==>
          var b := requests[k].binds[i];
          b.oid in leaves && view(b.oid) && check(b) == 0 && requests[k].setOk(i)
      {
        SuccessExactly(requests[k].binds, view, check, requests[k].setOk, statuses[k]);
      }
    }

    lemma SuccessExactly(binds: seq<Bind>, view: Oid -> bool, check: Bind -> int, setOk: nat -> bool, status: Status)
      requires Answered(binds, view, check, setOk, status)
      ensures status == Success <==> forall i :: 0 <= i < |binds| ==>
        binds[i].oid in leaves && view(binds[i].oid) && check(binds[i]) == 0 && setOk(i)
    {
    }

    // The outcome of the phases is the answer.
    lemma OutcomeAnswers(binds: seq<Bind>, view: Oid -> bool, check: Bind -> int, setOk: nat -> bool, status: Status,
        at: nat)
      requires Outcome(binds, view, check, setOk, status, at)
      ensures Answered(binds, view, check, setOk, status)
    {
      if at < |binds| && status != CommitFail {
        assert !Ready(binds[at], view, check);
      }
      forall k | 0 <= k < |binds| && (forall i :: 0 <= i < k ==> Ready(binds[i], view, check))
        ensures binds[k].oid !in leaves ==> status == NoCreation
        ensures binds[k].oid in leaves && !view(binds[k].oid) ==> status == NoAccess
        ensures binds[k].oid in leaves && view(binds[k].oid) && check(binds[k]) != 0 ==>
          status == Rejected(check(binds[k]))
      {
        if status == Success || status == CommitFail {
          assert Ready(binds[k], view, check);
        }
      }
    }

    lemma OneRequest(s: Store, binds: seq<Bind>, status: Status, at: nat)
      requires DistinctObjects(binds) && at <= |binds| && (status == Success <==> at == |binds|)
      requires status == Success || status == CommitFail ==> Known(s, binds)
      ensures After(s, binds, status, at) == if status == Success then Assigned(s, binds) else s
    {
      hide AfterFailure;
      if status == Success {
        ApplyDistinct(s, binds);
      } else if status == CommitFail {
        DistinctHarmless(s, binds);
      }
    }
  }

  datatype SetRequest = SetRequest(binds: seq<Bind>, setOk: nat -> bool)

  ghost predicate DistinctObjects(binds: seq<Bind>) {
    forall i, j :: 0 <= i < j < |binds| ==> binds[i].oid != binds[j].oid
  }

  // The assignments as a map.
  ghost function Values(binds: seq<Bind>): Store
    requires DistinctObjects(binds)
  {
    map i | 0 <= i < |binds| :: binds[i].oid := binds[i].value
  }

  // One simultaneous assignment of all values.
  ghost function Assigned(s: Store, binds: seq<Bind>): Store
    requires DistinctObjects(binds)
  {
    s + Values(binds)
  }

  // The run in which a successful request is one assignment and a failed one none.
  ghost function AtomicRun(s: Store, requests: seq<SetRequest>, statuses: seq<Status>): Store
    requires |statuses| == |requests|
    requires forall k :: 0 <= k < |requests| ==> DistinctObjects(requests[k].binds)
  {
    if requests == [] then s
    else
      var n := |requests| - 1;
      var before := AtomicRun(s, requests[..n], statuses[..n]);
      if statuses[n] == Success then Assigned(before, requests[n].binds) else before
  }

  lemma {:induction false} ValuesAt(binds: seq<Bind>, i: nat)
    requires DistinctObjects(binds) && i < |binds|
    ensures binds[i].oid in Values(binds) && Values(binds)[binds[i].oid] == binds[i].value
  {
  }

  lemma {:induction false} ValuesStep(binds: seq<Bind>, n: nat)
    requires DistinctObjects(binds) && |binds| == n + 1
    ensures Values(binds) == Values(binds[..n])[binds[n].oid := binds[n].value]
  {
    var a, b := Values(binds[..n])[binds[n].oid := binds[n].value], Values(binds);
    ValuesAt(binds, n);
    forall o | o in b ensures o in a && a[o] == b[o] {
      var i :| 0 <= i < |binds| && binds[i].oid == o;
      ValuesAt(binds, i);
      if i < n {
        assert binds[..n][i] == binds[i];
        ValuesAt(binds[..n], i);
      }
    }
    forall o | o in a && o != binds[n].oid ensures o in b {
      var i :| 0 <= i < n && binds[..n][i].oid == o;
      ValuesAt(binds, i);
    }
  }

  lemma {:induction false} UpdateOfSum(s: Store, m: Store, o: Oid, v: Value)
    ensures s + m[o := v] == (s + m)[o := v]
  {
  }

  lemma {:induction false} ApplyDistinct(s: Store, binds: seq<Bind>)
    requires DistinctObjects(binds)
    ensures Apply(s, binds) == Assigned(s, binds)
  {
    hide Values;
    if binds == [] {
      assert Values(binds) == map[] by {
        NoValues(binds);
      }
      assert s + map[] == s;
    } else {
      var n := |binds| - 1;
      ApplyDistinct(s, binds[..n]);
      ValuesStep(binds, n);
      UpdateOfSum(s, Values(binds[..n]), binds[n].oid, binds[n].value);
    }
  }

  lemma {:induction false} NoValues(binds: seq<Bind>)
    requires binds == []
    ensures Values(binds) == map[]
  {
  }

  // The store after the commit of binds[at] has failed: what was set is set back.
  ghost function AfterFailure(s: Store, binds: seq<Bind>, at: nat): Store
    requires Known(s, binds) && at <= |binds|
  {
    Restored(Apply(s, binds[..at]), Copies(s, binds[..if at < |binds| then at + 1 else at]))
  }

  lemma {:induction false} CopiesKeys(s: Store, binds: seq<Bind>, n: nat)
    requires Known(s, binds) && n <= |binds|
    ensures Within(Copies(s, binds[..n]), OidsOf(binds[..n])) && Within(Copies(s, binds[..n]), OidsOf(binds))
  {
    forall o | o in Copies(s, binds[..n]) ensures o in OidsOf(binds[..n]) && o in OidsOf(binds) {
      var i :| 0 <= i < n && binds[..n][i].oid == o;
      assert OidsOf(binds[..n])[i] == o && OidsOf(binds)[i] == o;
    }
  }

  lemma {:induction false} AllReleased(binds: seq<Bind>, locks: Locks, n: nat)
    requires Holding(locks, binds, n, n)
    ensures locks.acquired == locks.released
  {
    NothingCovered(locks.listeners, locks.slots);
  }

  // Locks of a new request for n objects without listeners.
  ghost predicate Fresh(locks: Locks, n: nat)
    reads locks
  {
    && locks.slots == [] && locks.acquired == locks.released == multiset{} && locks.size == n
    && forall e :: locks.listeners(e) == []
  }

  // The slots of the objects es when the first lo have been given up.
  function Held(es: seq<Oid>, lo: nat): (slots: Slots)
    ensures |slots| == |es|
    ensures forall k :: 0 <= k < |es| ==> slots[k] == if k < lo then None else Some(es[k])
  {
    seq(|es|, k requires 0 <= k < |es| => if k < lo then None else Some(es[k]))
  }

  // The objects of sub-requests lo to hi are locked, exactly once each.
  ghost predicate Holding(locks: Locks, binds: seq<Bind>, lo: nat, hi: nat)
    reads locks
  {
    && lo <= hi <= |binds| == locks.size && locks.slots == Held(OidsOf(binds[..hi]), lo)
    && (forall e :: locks.listeners(e) == [])
    && Balanced(locks.listeners, locks.slots, locks.acquired, locks.released)
  }

  lemma {:induction false} NothingHeld(ls: Listeners)
    ensures Balanced(ls, [], multiset{}, multiset{})
  {
  }

  method LockNext(binds: seq<Bind>, i: nat, locks: Locks)
    requires i < |binds| && Holding(locks, binds, 0, i)
    modifies locks
    ensures Holding(locks, binds, 0, i + 1)
  {
    hide Extended;
    ghost var slots, acq := locks.slots, locks.acquired;
    var e := binds[i].oid;
    locks.SetLocked(i, e);
    assert Extended(slots, i)[i := Some(e)] == Held(OidsOf(binds[..i + 1]), 0);
    LockBalance(locks.listeners, slots, i, e, acq, locks.acquired, locks.released);
  }

  method UnlockOne(binds: seq<Bind>, i: nat, hi: nat, locks: Locks)
    requires i < hi && Holding(locks, binds, i, hi)
    modifies locks
    ensures Holding(locks, binds, i + 1, hi)
  {
    ghost var slots, rel := locks.slots, locks.released;
    var e := binds[i].oid;
    locks.SetUnlocked(i);
    assert slots[i := None] == Held(OidsOf(binds[..hi]), i + 1);
    UnlockBalance(locks.listeners, slots, i, locks.acquired, rel, locks.released);
  }

  lemma {:induction false} PrefixOids(binds: seq<Bind>, i: nat)
    requires i < |binds|
    ensures OidsOf(binds[..i + 1]) == OidsOf(binds[..i]) + [binds[i].oid]
  {
  }

  lemma {:induction false} StartOfRun(s: Store, binds: seq<Bind>)
    ensures Apply(s, binds[..0]) == s && Copies(s, binds[..0]) == map[]
  {
  }

  lemma {:induction false} RunStep(s: Store, binds: seq<Bind>, i: nat)
    requires i < |binds| && Known(s, binds)
    ensures Apply(s, binds[..i]).Keys == s.Keys
    ensures Apply(s, binds[..i + 1]) == Apply(s, binds[..i])[binds[i].oid := binds[i].value]
    ensures Copies(s, binds[..i + 1]) == Copies(s, binds[..i])[binds[i].oid := Apply(s, binds[..i])[binds[i].oid]]
  {
    ApplyKeys(s, binds[..i]);
    assert binds[..i + 1][..i] == binds[..i];
  }

  /* Atomicity. */

  // A write that is followed by another write to the same object does not change it.
  ghost predicate Harmless(s: Store, binds: seq<Bind>)
    requires Known(s, binds)
  {
    forall i, j :: 0 <= i < j < |binds| && binds[i].oid == binds[j].oid ==> binds[i].value == s[binds[i].oid]
  }

  // Whichever commit fails, the store is as before the request.
  ghost predicate AllOrNothing(s: Store, binds: seq<Bind>)
    requires Known(s, binds)
  {
    forall at :: 0 <= at < |binds| ==> AfterFailure(s, binds, at) == s
  }

  lemma {:induction false} DistinctHarmless(s: Store, binds: seq<Bind>)
    requires Known(s, binds) && DistinctObjects(binds)
    ensures AllOrNothing(s, binds)
  {
    AtomicExactlyWhenHarmless(s, binds);
  }

  // The request is atomic exactly if no object is changed by one sub-request and
  // written again by a later one.
  lemma {:induction false} AtomicExactlyWhenHarmless(s: Store, binds: seq<Bind>)
    requires Known(s, binds)
    ensures AllOrNothing(s, binds) <==> Harmless(s, binds)
  {
    hide AfterFailure, Apply;
    if Harmless(s, binds) {
      forall at | 0 <= at < |binds| ensures AfterFailure(s, binds, at) == s {
        HarmlessFailure(s, binds, at);
      }
    }
    if AllOrNothing(s, binds) {
      forall i, j | 0 <= i < j < |binds| && binds[i].oid == binds[j].oid ensures binds[i].value == s[binds[i].oid] {
        var at := i + 1;
        while binds[at].oid != binds[i].oid
          decreases j - at
          invariant i < at <= j && forall k :: i < k < at ==> binds[k].oid != binds[i].oid
        {
          at := at + 1;
        }
        FailureKeepsWrite(s, binds, i, at);
      }
    }
  }

  // The value of an object that has not been written since binds[i].
  lemma {:induction false} LastWrite(s: Store, binds: seq<Bind>, i: nat, n: nat)
    requires Known(s, binds) && i < n <= |binds| && forall k :: i < k < n ==> binds[k].oid != binds[i].oid
    ensures binds[i].oid in Apply(s, binds[..n]) && Apply(s, binds[..n])[binds[i].oid] == binds[i].value
  {
    RunStep(s, binds, n - 1);
    if n > i + 1 {
      LastWrite(s, binds, i, n - 1);
    }
  }

  lemma {:induction false} FailureKeepsWrite(s: Store, binds: seq<Bind>, i: nat, at: nat)
    requires Known(s, binds) && i < at < |binds| && binds[at].oid == binds[i].oid
    requires forall k :: i < k < at ==> binds[k].oid != binds[i].oid
    ensures binds[i].oid in AfterFailure(s, binds, at) && AfterFailure(s, binds, at)[binds[i].oid] == binds[i].value
  {
    hide Apply, Copies;
    RunStep(s, binds, at);
    LastWrite(s, binds, i, at);
  }

  // Before another write to o every write to o has left its value as it was.
  lemma {:induction false} HarmlessPrefix(s: Store, binds: seq<Bind>, n: nat, j: nat)
    requires Known(s, binds) && Harmless(s, binds) && n <= j < |binds|
    ensures binds[j].oid in Apply(s, binds[..n]) && Apply(s, binds[..n])[binds[j].oid] == s[binds[j].oid]
  {
    if n > 0 {
      RunStep(s, binds, n - 1);
      HarmlessPrefix(s, binds, n - 1, j);
    }
  }

  lemma {:induction false} HarmlessCopies(s: Store, binds: seq<Bind>, n: nat, o: Oid)
    requires Known(s, binds) && Harmless(s, binds) && n <= |binds| && o in Copies(s, binds[..n])
    ensures o in s && Copies(s, binds[..n])[o] == s[o]
  {
    hide Apply, Copies, Harmless;
    if n > 0 {
      RunStep(s, binds, n - 1);
      HarmlessPrefix(s, binds, n - 1, n - 1);
      if o != binds[n - 1].oid {
        HarmlessCopies(s, binds, n - 1, o);
      }
    } else {
      StartOfRun(s, binds);
    }
  }

  lemma {:induction false} Untouched(s: Store, binds: seq<Bind>, n: nat, o: Oid)
    requires Known(s, binds) && n <= |binds| && o in s && o !in Copies(s, binds[..n])
    ensures o in Apply(s, binds[..n]) && Apply(s, binds[..n])[o] == s[o]
  {
    hide Apply, Copies;
    if n > 0 {
      RunStep(s, binds, n - 1);
      Untouched(s, binds, n - 1, o);
    } else {
      StartOfRun(s, binds);
    }
  }

  lemma {:induction false} HarmlessFailure(s: Store, binds: seq<Bind>, at: nat)
    requires Known(s, binds) && Harmless(s, binds) && at < |binds|
    ensures AfterFailure(s, binds, at) == s
  {
    hide Apply, Copies, Harmless;
    RunStep(s, binds, at);
    ApplyKeys(s, binds[..at]);
    var c := Copies(s, binds[..at + 1]);
    forall o | o in s ensures AfterFailure(s, binds, at)[o] == s[o] {
      if o in c {
        HarmlessCopies(s, binds, at + 1, o);
      } else {
        Untouched(s, binds, at, o);
      }
    }
  }
}
