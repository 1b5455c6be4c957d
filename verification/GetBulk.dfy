/** GETBULK: repetition rows as iterated GETNEXT. */
module GetBulks {
  import opened Oids
  import opened Options
  import opened SortedKeys
  import opened GetNexts

  datatype Value = Unspecified | Data(v: int) | EndOfView

  datatype VarBind = VarBind(oid: Oid, value: Value)

  // What is searched: the registered entries, the view of the requester and the values.
  datatype Agent = Agent(ctx: Context, view: View, read: Oid -> int)

  // vb is what GETNEXT of o returns.
  ghost predicate Follows(a: Agent, o: Oid, vb: VarBind) {
    match vb.value
    case Unspecified => false
    case Data(v) => IsAnswer(a.ctx, a.view, o, Some(vb.oid)) && v == a.read(vb.oid)
    case EndOfView => IsAnswer(a.ctx, a.view, o, None) && vb.oid == o
  }

  // The bindings of a request with the requested identifiers and the row length.
  datatype Rows = Rows(original: seq<Oid>, rep: int, vbs: seq<VarBind>, done: seq<bool>)
  {
    ghost predicate Valid() {
      |done| == |vbs| && |original| <= |vbs| && (|vbs| > |original| ==> 0 < rep <= |original|)
    }

    // The identifier that the search for binding i starts from: the one requested,
    // or that of the binding one row before.
    function Base(i: nat): Oid
      requires Valid() && i < |vbs|
    {
      if i < |original| then original[i] else vbs[i - rep].oid
    }

    // The first n bindings are answered.
    ghost predicate Answered(a: Agent, n: int) {
      Valid() && n <= |vbs| && forall i :: 0 <= i < n ==> done[i] && Follows(a, Base(i), vbs[i])
    }

    // The bindings from n on wait for their answers.
    ghost predicate Waiting(n: nat) {
      Valid() && forall i :: n <= i < |vbs| ==> !done[i] && vbs[i].oid == Base(i)
    }

    // All bindings from lo to hi report the end of the view.
    ghost predicate AllEnded(lo: nat, hi: int) {
      hi <= |vbs| && forall i :: lo <= i < hi ==> vbs[i].value.EndOfView?
    }

    function Set(i: nat, vb: VarBind): Rows
      requires Valid() && i < |vbs|
    {
      Rows(original, rep, vbs[i := vb], done[i := true])
    }
  }

  lemma {:induction false} AnswerStep(a: Agent, s: Rows, i: nat, vb: VarBind)
    requires s.Answered(a, i) && s.Waiting(i) && i < |s.vbs| && Follows(a, s.Base(i), vb)
    requires i >= |s.original| ==> |s.vbs| <= i + s.rep
    requires i < |s.original| ==> |s.vbs| == |s.original|
    ensures s.Set(i, vb).Answered(a, i + 1) && s.Set(i, vb).Waiting(i + 1)
  {
    hide Follows;
  }

  lemma {:induction false} PendingBindings(a: Agent, s: Rows, i: nat)
    requires s.Answered(a, i) && s.Waiting(i)
    ensures Pending(s.done) == 0 <==> i == |s.vbs|
  {
    hide Follows;
    PendingNone(s.done);
    assert i < |s.vbs| ==> !s.done[i];
    assert i == |s.vbs| ==> forall k :: 0 <= k < i ==> s.done[k];
  }

  lemma {:induction false} WaitingHere(s: Rows, i: nat)
    requires s.Waiting(i) && i < |s.vbs|
    ensures !s.done[i] && s.vbs[i].oid == s.Base(i)
  {
  }

  lemma {:induction false} NoneEnded(s: Rows, b: nat)
    requires b <= |s.vbs|
    ensures s.AllEnded(b, b)
  {
  }

  lemma {:induction false} EndedStep(s: Rows, t: Rows, b: nat, i: nat)
    requires b <= i < |s.vbs| && |t.vbs| == |s.vbs| && t.vbs == s.vbs[i := t.vbs[i]]
    ensures t.AllEnded(b, i + 1) == (s.AllEnded(b, i) && t.vbs[i].value.EndOfView?)
  {
    assert forall k :: 0 <= k < |s.vbs| && k != i ==> t.vbs[k] == s.vbs[k];
    if t.AllEnded(b, i + 1) {
      assert forall k :: b <= k < i ==> s.vbs[k] == t.vbs[k];
    }
  }

  // The number of sub-requests that are not done yet.
  function Pending(done: seq<bool>): nat {
    if done == [] then 0 else (if done[0] then 0 else 1) + Pending(done[1..])
  }

  lemma {:induction false} PendingSet(done: seq<bool>, i: nat)
    requires i < |done|
    ensures Pending(done[i := true]) == Pending(done) - (if done[i] then 0 else 1)
  {
    if i > 0 {
      PendingSet(done[1..], i - 1);
      assert done[i := true][1..] == done[1..][i - 1 := true];
    }
  }

  lemma {:induction false} PendingAppend(a: seq<bool>, b: seq<bool>)
    ensures Pending(a + b) == Pending(a) + Pending(b)
  {
    if a == [] {
      assert a + b == b;
    } else {
      PendingAppend(a[1..], b);
      assert (a + b)[1..] == a[1..] + b;
    }
  }

  lemma {:induction false} PendingNone(done: seq<bool>)
    ensures Pending(done) == 0 <==> forall i :: 0 <= i < |done| ==> done[i]
    ensures Pending(done) <= |done|
  {
    if done != [] {
      PendingNone(done[1..]);
      assert forall i :: 1 <= i < |done| ==> done[i] == done[1..][i - 1];
    }
  }

  lemma {:induction false} PendingFresh(n: nat)
    ensures Pending(seq(n, i => false)) == n
  {
    if n > 0 {
      PendingFresh(n - 1);
      assert seq(n, i => false)[1..] == seq(n - 1, i => false);
    }
  }

  lemma {:induction false} Multiple(r: nat, d: int)
    requires r > 0
    ensures d >= 1 ==> r * d >= r
    ensures d <= -1 ==> r * d + r <= 0
  {
  }

  lemma {:induction false} RowCount(r: nat, k: nat)
    requires r > 0
    ensures (r * k) / r == k && (r * k) % r == 0
  {
    var q, m := (r * k) / r, (r * k) % r;
    assert r * (k - q) == m;
    Multiple(r, k - q);
  }

  lemma {:induction false} RowStart(row: int, r: nat)
    requires 1 <= row
    ensures r <= row * r
  {
    assert row * r == (row - 1) * r + r;
  }

  lemma {:induction false} RowDivision(x: nat, r: nat, m: nat)
    requires r > 0
    ensures x < r ==> x / r == 0
    ensures x / r > m ==> m * r + r <= x
  {
    var q := x / r;
    assert x >= q * r;
    if q > m {
      Multiple(r, q - m);
      assert q * r == m * r + (q - m) * r;
    }
  }

  lemma {:induction false} LastRow(r: nat, k: nat)
    ensures (k - 1) * r == r * k - r && k * r == r * k
  {
  }

  class Request {
    const original: seq<Oid>
    const nonRep: nat
    const maxRep: nat
    const repeater: int
    // The encoded length of a list of bindings and the longest response allowed.
    const length: seq<VarBind> -> nat
    const limit: nat
    var vbs: seq<VarBind>
    var done: seq<bool>
    var outstanding: int

    ghost function State(): Rows
      reads this
    {
      Rows(original, repeater, vbs, done)
    }

    ghost predicate Valid()
      reads this
    {
      State().Valid() && repeater == |original| - nonRep
    }

    // init_from_pdu: negative counts read as zero, and without repetitions the
    // repeating variables are dropped.
    constructor (oids: seq<Oid>, n: int, m: int, length: seq<VarBind> -> nat, limit: nat)
      ensures Valid() && nonRep == (if n < 0 then 0 else n) && maxRep == (if m < 0 then 0 else m)
      ensures original == if maxRep == 0 && |oids| > nonRep then oids[..nonRep] else oids
      ensures |vbs| == |original|
      ensures forall i :: 0 <= i < |vbs| ==> vbs[i] == VarBind(original[i], Unspecified) && !done[i]
      ensures outstanding == |vbs| && this.length == length && this.limit == limit
    {
      var nr := if n < 0 then 0 else n;
      var mr := if m < 0 then 0 else m;
      var os := if mr == 0 && |oids| > nr then oids[..nr] else oids;
      nonRep, maxRep, original := nr, mr, os;
      repeater := |os| - nr;
      vbs := seq(|os|, i requires 0 <= i < |os| => VarBind(os[i], Unspecified));
      done := seq(|os|, i => false);
      outstanding := |os|;
      this.length, this.limit := length, limit;
    }

    // Stores the answer of sub-request i; a binding with an exception gets back
    // the identifier of the request.
    method Finish(i: nat, vb: VarBind)
      requires Valid() && i < |vbs|
      modifies this
      ensures Valid() && done == old(done)[i := true]
      ensures outstanding == old(outstanding) - (if old(done)[i] then 0 else 1)
      ensures vbs ==
        old(vbs)[i := if vb.value.EndOfView? && i < |original| then VarBind(original[i], EndOfView) else vb]
    {
      if !done[i] {
        outstanding := outstanding - 1;
      }
      var x := vb;
      if vb.value.EndOfView? && (i < nonRep || i < |original|) {
        if i < |original| {
          x := VarBind(original[i], EndOfView);
        }
      }
      done := done[i := true];
      vbs := vbs[i := x];
    }

    // Keeps the first count bindings.
    method TrimRequest(count: int)
      requires Valid() && |original| <= count
      modifies this`vbs, this`done
      ensures Valid()
      ensures vbs == if count < |old(vbs)| then old(vbs)[..count] else old(vbs)
      ensures done == if count < |old(vbs)| then old(done)[..count] else old(done)
    {
      if count < |vbs| {
        vbs, done := vbs[..count], done[..count];
      }
    }

    // Whether another copy of the last row of v would make the response too long.
    predicate TooLong(v: seq<VarBind>) {
      0 <= repeater <= |v| && (length(v) >= limit || length(v + v[|v| - repeater..]) > limit)
    }

    predicate Full()
      reads this`vbs
    {
      TooLong(vbs)
    }

    // The response v may get another row: it is shorter than the limit, and with a copy of
    // its last row it is not longer.
    ghost predicate Room(v: seq<VarBind>) {
      0 < repeater <= |v| && length(v) < limit && length(v + v[|v| - repeater..]) <= limit
    }

    // The bindings followed by another copy of those from start to end.
    method Copied(start: int, end: int) returns (more: seq<VarBind>)
      requires 0 <= start <= end <= |vbs|
      ensures more == vbs + vbs[start..end]
    {
      more := vbs;
      for i := start to end
        invariant more == vbs + vbs[start..i]
      {
        more := more + [vbs[i]];
      }
    }

    // Appends a copy of the last of the k rows.
    method AddRepRow(ghost k: nat) returns (ok: bool)
      requires Valid() && 0 < repeater && 0 < k && |vbs| == nonRep + repeater * k
      modifies this
      ensures Valid() && repeater <= |old(vbs)| && ok == !old(Full())
      ensures ok <==> length(old(vbs)) < limit && length(old(vbs) + old(vbs)[|old(vbs)| - repeater..]) <= limit
      ensures vbs == if ok then old(vbs) + old(vbs)[|old(vbs)| - repeater..] else old(vbs)
      ensures done == if ok then old(done) + seq(repeater, i => false) else old(done)
      ensures outstanding == old(outstanding) + (if ok then repeater else 0)
    {
      var rows := (|vbs| - nonRep) / repeater;
      RowCount(repeater, k);
      if rows == 0 || length(vbs) >= limit {
        return false;
      }
      LastRow(repeater, k);
      var more := Copied((rows - 1) * repeater + nonRep, rows * repeater + nonRep);
      assert vbs[|vbs| - repeater..] == vbs[|vbs| - repeater..|vbs|];
      if length(more) > limit {
        return false;
      }
      vbs := more;
      outstanding := outstanding + repeater;
      done := done + seq(repeater, i => false);
      return true;
    }

    // GETNEXT for binding i.
    method Answer(a: Agent, i: nat) returns (ended: bool)
      requires Valid() && Registered(a.ctx) && State().Answered(a, i) && State().Waiting(i) && i < |vbs|
      requires if i < |original| then |vbs| == |original| else |vbs| <= i + repeater
      modifies this
      ensures Valid() && |vbs| == |old(vbs)| && State().Answered(a, i + 1) && State().Waiting(i + 1)
      ensures vbs == old(vbs)[i := vbs[i]] && ended == vbs[i].value.EndOfView?
      ensures outstanding - Pending(done) == old(outstanding - Pending(done))
    {
      hide Registered, IsAnswer, Pending, Rows.Answered, Rows.Waiting;
      var r := GetNext(a.ctx, a.view, vbs[i].oid);
      PendingSet(done, i);
      ghost var s := State();
      WaitingHere(s, i);
      if r.None? {
        Finish(i, VarBind(vbs[i].oid, EndOfView));
      } else {
        Finish(i, VarBind(r.value, Data(a.read(r.value))));
      }
      ended := r.None?;
      AnswerStep(a, s, i, vbs[i]);
      assert State() == s.Set(i, vbs[i]);
    }

    // The loop over the columns of the last row, which starts at b. A column whose
    // search ends is passed with `continue`: the end of the loop body, which adds the
    // next row, is reached only if the last column has data.
    method Columns(a: Agent, b: nat, last: bool) returns (allEnded: bool, reachedEnd: bool, finished: bool)
      requires Valid() && Registered(a.ctx) && 0 < repeater && nonRep <= b && |vbs| == b + repeater
      requires b >= |original| || b + repeater == |original|
      requires State().Answered(a, b) && State().Waiting(b)
      requires outstanding == Pending(done) + (if last then 0 else 1)
      modifies this
      ensures Valid() && |vbs| == |old(vbs)| && State().Answered(a, |vbs|)
      ensures outstanding == (if last then 0 else 1) && Pending(done) == 0
      ensures finished == (last && !reachedEnd) && reachedEnd == !vbs[|vbs| - 1].value.EndOfView?
      ensures allEnded == State().AllEnded(b, |vbs|) && vbs[..b] == old(vbs)[..b]
    {
      hide Registered, Pending, Rows.Answered, Rows.Waiting, Rows.AllEnded;
      NoneEnded(State(), b);
      var id := b;
      allEnded, reachedEnd := true, false;
      while id < |vbs|
        invariant b <= id <= |vbs| && |vbs| == |old(vbs)| && Valid() && State().Answered(a, id) && State().Waiting(id)
        invariant outstanding == Pending(done) + (if last then 0 else 1)
        invariant last && b < id == |vbs| ==> reachedEnd
        invariant vbs[..b] == old(vbs)[..b]
        invariant allEnded == State().AllEnded(b, id) && (id > b ==> reachedEnd == !vbs[id - 1].value.EndOfView?)
      {
        ghost var s := State();
        var ended := Answer(a, id);
        EndedStep(s, State(), b, id);
        allEnded := allEnded && ended;
        reachedEnd := !ended;
        PendingBindings(a, State(), id + 1);
        id := id + 1;
        if ended && outstanding <= 0 {
          return allEnded, false, true;
        }
      }
      PendingBindings(a, State(), id);
      finished := false;
    }

    // init_rep_row finds the row only if it is already part of the request.
    predicate RowExists(row: int)
      requires Valid()
      reads this
    {
      1 <= row && nonRep + row * repeater + repeater <= |vbs|
    }

    // Row j, which starts at b, waits for its answers; or there is no such row, and
    // everything is answered.
    ghost predicate RowReady(a: Agent, b: int)
      reads this
    {
      && Valid() && outstanding == Pending(done) + 1
      && ((0 < repeater && nonRep <= b && |vbs| == b + repeater && (b >= |original| || |vbs| == |original|)
           && State().Answered(a, b) && State().Waiting(b))
          || (|vbs| <= b && State().Answered(a, |vbs|) && Pending(done) == 0))
    }

    // The bindings up to n are final: all of them are answered and none is pending.
    ghost predicate Complete(a: Agent, n: int)
      reads this
    {
      Valid() && |vbs| == n && State().Answered(a, n) && Pending(done) == 0
    }

    // The end of the loop body: the last column of row j has data, and the next row is added.
    method NextRow(a: Agent, j: nat, maxrep: int, b: int) returns (stop: bool)
      requires Complete(a, b + repeater) && 0 < repeater && b == nonRep + repeater * j && nonRep <= b && j < maxrep
      requires outstanding == if j + 1 == maxrep then 0 else 1
      modifies this
      ensures if !stop && j + 1 < maxrep then RowReady(a, b + repeater) && |vbs| == b + 2 * repeater
        else Complete(a, b + repeater) && outstanding == 0 && vbs == old(vbs)
      ensures |vbs| >= b + repeater && vbs[..b + repeater] == old(vbs)
      ensures stop ==> Full()
      ensures |vbs| > b + repeater ==> Room(old(vbs))
    {
      hide Pending, Rows.Answered, Rows.Waiting, Full;
      stop := false;
      assert (j + 1) * repeater == repeater * j + repeater && nonRep + repeater * (j + 1) == b + repeater;
      if !RowExists(j + 1) && j + 1 < maxrep {
        ghost var s := State();
        var ok := AddRepRow(j + 1);
        if !ok {
          outstanding := outstanding - 1;
          return true;
        }
        RowAppended(a, s);
        PendingAppend(s.done, seq(repeater, i => false));
        PendingFresh(repeater);
      }
    }

    // One pass of the loop over repetitions, for row j at b.
    method Repetition(a: Agent, j: nat, maxrep: int, b: int) returns (stop: bool)
      requires Registered(a.ctx) && j < maxrep && b == nonRep + repeater * j && RowReady(a, b)
      modifies this
      ensures !stop && j + 1 < maxrep ==> b < old(|vbs|) && RowReady(a, b + repeater)
      ensures !stop && j + 1 < maxrep && |vbs| <= b + repeater ==> |vbs| == b + repeater && EndsLast()
      ensures stop || j + 1 == maxrep ==>
        Complete(a, if old(|vbs|) <= b then old(|vbs|) else b + repeater) && outstanding == 0
      ensures old(|vbs|) <= b ==> stop && vbs == old(vbs)
      ensures stop && old(|vbs|) > b ==> EndsLast() || Full()
      ensures old(|vbs|) > b ==> nonRep <= b <= |vbs| && vbs[..b] == old(vbs)[..b]
      ensures old(|vbs|) > b && |vbs| != b + repeater ==>
        && 0 < b + repeater < |vbs| == b + 2 * repeater
        && !vbs[b + repeater - 1].value.EndOfView? && Room(vbs[..b + repeater])
    {
      hide Registered, Pending, Rows.Answered, Rows.Waiting, Rows.AllEnded, Full;
      var last := j == maxrep - 1;
      if last {
        outstanding := outstanding - 1;
      }
      var allEnded, reachedEnd, finished := true, false, false;
      if b < |vbs| {
        allEnded, reachedEnd, finished := Columns(a, b, last);
      }
      if finished {
        return true;
      }
      if reachedEnd {
        stop := NextRow(a, j, maxrep, b);
        return stop;
      }
      if allEnded {
        outstanding := 0;
        TrimRequest(|vbs| + 1);
        return true;
      }
      return false;
    }

    ghost predicate EndsLast()
      reads this
    {
      vbs != [] && vbs[|vbs| - 1].value.EndOfView?
    }

    // A request as it has been received.
    ghost predicate Received()
      reads this
    {
      && Valid() && |vbs| == |original| == outstanding && State().Waiting(0)
      && (forall i :: 0 <= i < |vbs| ==> vbs[i].value.Unspecified?)
      && (maxRep == 0 ==> repeater <= 0)
    }

    // The loop over the non-repeaters; it gives up at the first one without a successor.
    method NonRepeaters(a: Agent) returns (ended: bool, id: nat)
      requires Registered(a.ctx) && Received()
      modifies this
      ensures Valid() && |vbs| == |old(vbs)| && State().Answered(a, id) && State().Waiting(id)
      ensures outstanding - Pending(done) == 1
      ensures id <= nonRep
      ensures if ended then 0 < id <= |vbs| && vbs[id - 1].value.EndOfView? else id == |vbs| || id == nonRep <= |vbs|
      ensures forall i :: 0 <= i < id && (ended ==> i < id - 1) ==> vbs[i].value.Data?
      ensures forall i :: id <= i < |vbs| ==> vbs[i].value.Unspecified?
    {
      hide Registered, Rows.Answered, Rows.Waiting, Pending;
      AllWaiting(a, State());
      outstanding := outstanding + 1;
      id := 0;
      while id < |vbs| && id < nonRep
        invariant Valid() && |vbs| == |old(vbs)| && id <= |vbs| && id <= nonRep
        invariant State().Answered(a, id) && State().Waiting(id) && outstanding - Pending(done) == 1
        invariant forall i :: 0 <= i < id ==> vbs[i].value.Data?
        invariant forall i :: id <= i < |vbs| ==> vbs[i].value.Unspecified?
      {
        ended := Answer(a, id);
        HasValue(a, State(), id);
        id := id + 1;
        if ended {
          return;
        }
      }
      return false, id;
    }

    // The number of repetitions that the agent is willing to make.
    function Repetitions(cap: int): nat {
      if cap > 0 && maxRep > cap then cap else maxRep
    }

    // The non-repeaters all have a successor.
    ghost predicate FirstHaveData()
      reads this
    {
      forall i :: 0 <= i < nonRep && i < |vbs| ==> vbs[i].value.Data?
    }

    // The number of bindings up to the end of row j - 1.
    function RowEnd(j: nat): int {
      nonRep + repeater * j
    }

    // Behind the first n bindings, which end a row, another row was added.
    ghost predicate Continued(v: seq<VarBind>, n: int) {
      0 < n <= |v| && !v[n - 1].value.EndOfView? && Room(v[..n])
    }

    // All rows but the first were added to responses with room for them.
    ghost predicate Grown(v: seq<VarBind>) {
      forall j: nat :: 1 <= j && 0 < repeater && RowEnd(j) < |v| ==> Continued(v, RowEnd(j))
    }

    lemma RowEnds(i: nat, j: nat)
      requires 0 < repeater
      ensures i < j ==> RowEnd(i) + repeater <= RowEnd(j)
      ensures RowEnd(j + 1) == RowEnd(j) + repeater
    {
      Multiple(repeater, j - i);
      assert repeater * (j - i) == repeater * j - repeater * i;
    }

    lemma NoRows(v: seq<VarBind>)
      requires repeater <= 0
      ensures Grown(v)
    {
    }

    lemma GrownStart(v: seq<VarBind>)
      requires 0 < repeater ==> |v| == nonRep + repeater
      ensures Grown(v)
    {
      forall j: nat | 1 <= j && 0 < repeater ensures RowEnd(j) >= |v| {
        RowEnds(0, j);
      }
    }

    // Pass j changes no row before row j and may add the next one.
    lemma GrownStep(v: seq<VarBind>, w: seq<VarBind>, j: nat)
      requires Grown(v) && 0 < repeater && RowEnd(j) < |v|
      requires RowEnd(j) <= |w| && w[..RowEnd(j)] == v[..RowEnd(j)]
      requires |w| != RowEnd(j) + repeater ==> |w| == RowEnd(j) + 2 * repeater && Continued(w, RowEnd(j) + repeater)
      ensures Grown(w)
    {
      hide Room, RowEnd;
      RowEnds(j, j);
      RowEnds(j + 1, j + 1);
      forall i: nat | 1 <= i && RowEnd(i) < |w| ensures Continued(w, RowEnd(i)) {
        RowEnds(i, j);
        RowEnds(j + 1, i);
        RowEnds(j + 2, i);
        if i <= j {
          assert Continued(v, RowEnd(i));
          assert w[..RowEnd(i)] == w[..RowEnd(j)][..RowEnd(i)] == v[..RowEnd(i)];
          assert w[RowEnd(i) - 1] == w[..RowEnd(i)][RowEnd(i) - 1];
        }
      }
    }

    // What the repetition rows made so far look like before pass j.
    ghost predicate Progress(a: Agent, j: nat)
      reads this
    {
      && RowReady(a, nonRep + repeater * j) && FirstHaveData() && |original| <= |vbs| && Grown(vbs)
      && if repeater <= 0 then j == 0 && |vbs| == |original|
         else |vbs| == nonRep + repeater * (j + 1) || (j > 0 && |vbs| == nonRep + repeater * j && EndsLast())
    }

    // The finished response with its repetition rows.
    ghost predicate Response(a: Agent, rows: nat, cap: int)
      reads this
    {
      && Complete(a, |vbs|) && outstanding == 0 && FirstHaveData() && Grown(vbs)
      && if repeater <= 0 then rows == 0 && |vbs| == |original|
         else
           && |vbs| == nonRep + repeater * rows
           && 1 <= rows <= Repetitions(cap)
           && (rows == Repetitions(cap) || EndsLast() || Full())
    }

    // process_get_bulk_request: the bindings before `answered` have their answers,
    // and after giving up the later ones are as requested.
    method ProcessGetBulk(a: Agent, cap: int) returns (gaveUp: bool, answered: nat, ghost rows: nat)
      requires Registered(a.ctx) && Received()
      modifies this
      ensures Valid() && State().Answered(a, answered) && State().Waiting(answered)
      ensures gaveUp ==> 0 < answered <= nonRep && |vbs| == |original| && vbs[answered - 1].value.EndOfView?
      ensures gaveUp ==> forall i :: answered <= i < |vbs| ==> vbs[i].value.Unspecified?
      ensures !gaveUp ==> answered == |vbs| && Response(a, rows, cap)
    {
      hide Registered, Rows.Answered, Rows.Waiting, Pending, Full, RowReady, Complete, Grown;
      var maxrep: int := maxRep;
      if cap > 0 && maxrep > cap {
        maxrep := cap;
      }
      rows := 0;
      gaveUp, answered := NonRepeaters(a);
      if gaveUp {
        return;
      }
      if maxrep == 0 {
        outstanding := outstanding - 1;
        NoRepetitions(a, answered);
        GrownStart(vbs);
        return;
      }
      FirstRow(a, answered);
      GrownStart(vbs);
      var j := 0;
      while j < maxrep
        invariant 0 <= j < maxrep && Progress(a, j)
      {
        var stop;
        stop, rows := Pass(a, j, maxrep, cap);
        if stop || j + 1 == maxrep {
          answered := |vbs|;
          Completed(a);
          return;
        }
        j := j + 1;
      }
    }

    // A pass of the loop in terms of the whole response.
    method Pass(a: Agent, j: nat, maxrep: int, ghost cap: int) returns (stop: bool, ghost rows: nat)
      requires Registered(a.ctx) && Progress(a, j) && j < maxrep == Repetitions(cap)
      modifies this
      ensures if stop || j + 1 == maxrep then Response(a, rows, cap) else Progress(a, j + 1)
    {
      hide Registered, Rows.Answered, Rows.Waiting, Pending, Full, Room, Grown;
      var b := nonRep + repeater * j;
      assert nonRep + repeater * (j + 1) == b + repeater;
      ghost var size := |vbs|;
      ghost var was := vbs;
      rows := if repeater <= 0 then 0 else if size > b then j + 1 else j;
      stop := Repetition(a, j, maxrep, b);
      if size > b {
        SameFront(was, vbs, b);
        if repeater > 0 {
          GrownStep(was, vbs, j);
        } else {
          NoRows(vbs);
        }
      }
    }

    lemma SameFront(v: seq<VarBind>, w: seq<VarBind>, b: int)
      requires nonRep <= b <= |v| && b <= |w| && w[..b] == v[..b]
      ensures forall i :: 0 <= i < nonRep ==> w[i] == v[i]
    {
      assert forall i :: 0 <= i < nonRep ==> w[i] == w[..b][i];
    }

    // Where TrimBulkResponse may cut: behind the repeater-th end of view.
    ghost predicate Cut(before: seq<VarBind>, n: nat)
      reads this
    {
      && n <= |before| && vbs == before[..n]
      && ((n == |before| && (nonRep <= n && 0 < repeater ==> Ends(before[nonRep..n]) < repeater))
          || (nonRep < n && before[n - 1].value.EndOfView? && Ends(before[nonRep..n]) == repeater)
          || (0 < repeater && n == nonRep + maxRep * repeater && n + repeater < |before|))
    }

    // A response of at most N + M * R bindings loses some of them exactly if all its
    // columns' worth of ends of view lie before the last binding.
    lemma CutExactly(before: seq<VarBind>, n: nat)
      requires Cut(before, n) && 0 < repeater && nonRep < |before| <= nonRep + maxRep * repeater
      ensures n < |before| <==> Ends(before[nonRep..|before| - 1]) >= repeater
      ensures n < |before| ==> nonRep < n && before[n - 1].value.EndOfView? && Ends(before[nonRep..n]) == repeater
    {
      hide Ends;
      if n == |before| {
        EndsStep(before, nonRep, n - 1);
      } else {
        EndsMonotone(before, nonRep, n, |before| - 1);
      }
    }

    // The ends of view among the repeating variables carry the identifiers their searches
    // started from.
    ghost predicate EndsPlaced()
      requires Valid()
      reads this
    {
      forall i :: nonRep <= i < |vbs| && vbs[i].value.EndOfView? ==> vbs[i].oid == State().Base(i)
    }

    // trim_bulk_response: identifiers of ended columns are already right, so the
    // response is only shortened.
    method TrimBulkResponse()
      requires Valid() && EndsPlaced() && (maxRep == 0 ==> repeater <= 0)
      modifies this`vbs, this`done
      ensures Valid() && Cut(old(vbs), |vbs|) && |original| <= |vbs| && done == old(done)[..|vbs|]
    {
      hide Ends;
      var end := 0;
      var i := nonRep;
      EndsNone(vbs, i);
      while i < |vbs|
        invariant Valid() && vbs == old(vbs) && done == old(done)
        invariant nonRep <= i && (i <= |vbs| || |vbs| < nonRep == i)
        invariant i <= |vbs| ==> end == Ends(vbs[nonRep..i])
        invariant end < repeater || (end == 0 && repeater <= 0)
      {
        var j := RowOf(i);
        if j > maxRep {
          RowStart(maxRep, repeater);
          CutAt(nonRep + maxRep * repeater);
          return;
        }
        EndsStep(vbs, nonRep, i);
        if vbs[i].value.EndOfView? {
          end := end + 1;
          RestoreOid(i, j);
        }
        if end >= repeater {
          EndsBound(vbs[nonRep..i + 1]);
          CutAt(i + 1);
          return;
        }
        i := i + 1;
      }
    }

    method RowOf(i: nat) returns (j: nat)
      requires 0 < repeater && nonRep <= i
      ensures i < nonRep + repeater ==> j == 0
      ensures j > maxRep ==> nonRep + maxRep * repeater + repeater <= i
    {
      j := (i - nonRep) / repeater;
      RowDivision(i - nonRep, repeater, maxRep);
    }

    // Gives the binding of an ended column the identifier its search started from.
    method RestoreOid(i: nat, j: nat)
      requires Valid() && i < |vbs| && vbs[i] == VarBind(State().Base(i), EndOfView)
      requires i < |original| ==> j == 0
      modifies this`vbs
      ensures vbs == old(vbs)
    {
      if j == 0 && i < |original| {
        vbs := vbs[i := VarBind(original[i], EndOfView)];
      } else {
        vbs := vbs[i := VarBind(vbs[i - repeater].oid, EndOfView)];
      }
    }

    method CutAt(n: nat)
      requires Valid() && |original| <= n <= |vbs|
      modifies this`vbs, this`done
      ensures Valid() && |vbs| == n && vbs == old(vbs)[..n] && done == old(done)[..n]
    {
      TrimRequest(n);
      assert n < |old(vbs)| || (old(vbs)[..n] == old(vbs) && old(done)[..n] == old(done));
    }

    // The finished response before it is trimmed.
    ghost predicate Finished(a: Agent, full: Rows, rows: nat, cap: int) {
      && full.original == original && full.rep == repeater && full.Answered(a, |full.vbs|) && Grown(full.vbs)
      && if repeater <= 0 then rows == 0 && |full.vbs| == |original|
         else
           && |full.vbs| == nonRep + repeater * rows && 1 <= rows <= Repetitions(cap)
           && (rows == Repetitions(cap) || full.vbs[|full.vbs| - 1].value.EndOfView? || TooLong(full.vbs))
    }

    // What is left of it: everything, or the part up to the R-th end of view, if that lies
    // before the last binding.
    ghost predicate Trimmed(full: Rows)
      reads this
    {
      && |original| <= |vbs| <= |full.vbs| && vbs == full.vbs[..|vbs|]
      && if repeater <= 0 then |vbs| == |full.vbs|
         else
           && nonRep < |vbs| && (|vbs| < |full.vbs| <==> Ends(full.vbs[nonRep..|full.vbs| - 1]) >= repeater)
           && (|vbs| < |full.vbs| ==> vbs[|vbs| - 1].value.EndOfView? && Ends(vbs[nonRep..]) == repeater)
    }

    // Some non-repeater has no successor.
    ghost predicate Hopeless(a: Agent) {
      exists i :: 0 <= i < nonRep && i < |original| && IsAnswer(a.ctx, a.view, original[i], None)
    }

    // Why the response v has the given number of rows. There are no more because that is all
    // that may be made, the last column has ended, or the response has reached the limit or
    // would exceed it with a copy of its last row; none of this was so when a row was added.
    ghost predicate RowsExplained(v: seq<VarBind>, rows: nat, cap: int) {
      && |v| == RowEnd(rows) && 1 <= rows <= maxRep && (cap > 0 ==> rows <= cap)
      && (|| rows == maxRep || (cap > 0 && rows == cap)
          || (0 < repeater <= |v|
              && (|| v[|v| - 1].value.EndOfView? || length(v) >= limit
                  || length(v + v[|v| - repeater..]) > limit)))
      && forall j: nat :: 1 <= j && 0 < repeater <= RowEnd(j) < |v| ==>
        && !v[RowEnd(j) - 1].value.EndOfView? && length(v[..RowEnd(j)]) < limit
        && length(v[..RowEnd(j)] + v[RowEnd(j) - repeater..RowEnd(j)]) <= limit
    }

    // A whole GETBULK request. Giving up at the first non-repeater without a successor
    // leaves the later bindings unanswered. Otherwise each binding of the full response
    // answers its predecessor, and the response is trimmed.
    method Serve(a: Agent, cap: int) returns (gaveUp: bool, answered: nat, ghost full: Rows, ghost rows: nat)
      requires Registered(a.ctx) && Received()
      modifies this
      ensures Valid() && (gaveUp <==> Hopeless(a))
      ensures gaveUp ==> 0 < answered <= nonRep && answered <= |vbs| == |original| && vbs[answered - 1].value.EndOfView?
      ensures gaveUp ==> State().Answered(a, answered) && State().Waiting(answered)
      ensures !gaveUp ==> State().Answered(a, |vbs|) && outstanding == 0
      ensures !gaveUp ==> Finished(a, full, rows, cap) && Trimmed(full)
      ensures !gaveUp && repeater > 0 ==> |vbs| <= nonRep + maxRep * repeater
      ensures !gaveUp && repeater > 0 ==> RowsExplained(full.vbs, rows, cap)
    {
      hide Registered, Rows.Answered, Rows.Waiting, Pending, TooLong, Ends, EndsPlaced, Trimmed, Finished, Grown;
      hide RowsExplained;
      gaveUp, answered, rows := ProcessGetBulk(a, cap);
      full := State();
      Places(a, answered, gaveUp);
      if gaveUp {
        GaveUp(a, answered);
        TrimBulkResponse();
        NothingTrimmed(full.vbs);
        assert State() == full;
      } else {
        NotGivenUp(a);
        Unfinished(a, rows, cap);
        if repeater > 0 {
          FinishedRows(a, full, rows, cap);
        }
        TrimFull(a, full, rows, cap);
      }
    }

    // trim_bulk_response for a finished response.
    method TrimFull(a: Agent, ghost full: Rows, ghost rows: nat, ghost cap: int)
      requires Valid() && EndsPlaced() && full == State() && Finished(a, full, rows, cap)
      requires maxRep == 0 ==> repeater <= 0
      modifies this`vbs, this`done
      ensures Valid() && State().Answered(a, |vbs|) && Trimmed(full)
      ensures repeater > 0 ==> |vbs| <= nonRep + maxRep * repeater
    {
      hide Rows.Answered, TooLong, Ends, EndsPlaced;
      TrimBulkResponse();
      AnsweredPrefix(a, full, |vbs|);
      if repeater > 0 {
        RowLimit(rows, maxRep, repeater);
        OneRow(rows);
        CutExactly(full.vbs, |vbs|);
      }
    }

    lemma Unfinished(a: Agent, rows: nat, cap: int)
      requires Response(a, rows, cap)
      ensures Finished(a, State(), rows, cap)
    {
      hide Rows.Answered, Follows, TooLong, Pending, Repetitions;
    }

    // The least limit under which row j could be added to response v: more than the length
    // up to that row, and no less than that with a copy of the row before.
    function Measured(v: seq<VarBind>, j: nat): nat
      requires 0 <= repeater <= RowEnd(j) <= |v|
    {
      var short := length(v[..RowEnd(j)]) + 1;
      var copied := length(v[..RowEnd(j)] + v[RowEnd(j) - repeater..RowEnd(j)]);
      if short < copied then copied else short
    }

    // All rows of v but the first could be added under the given limit.
    ghost predicate Admitted(v: seq<VarBind>, max: nat)
      requires 0 < repeater
    {
      forall j: nat :: 1 <= j && RowEnd(j) < |v| ==> repeater <= RowEnd(j) && Measured(v, j) <= max
    }

    lemma GrownAdmitted(v: seq<VarBind>)
      requires Grown(v) && 0 < repeater
      ensures Admitted(v, limit)
    {
      forall j: nat | 1 <= j && RowEnd(j) < |v| ensures repeater <= RowEnd(j) && Measured(v, j) <= limit {
        assert Continued(v, RowEnd(j));
        assert v[..RowEnd(j)][RowEnd(j) - repeater..] == v[RowEnd(j) - repeater..RowEnd(j)];
      }
    }

    // The answers of the last row may be longer than the copies that were measured. The
    // response fits under every limit that admits its rows exactly if one of the lengths
    // measured on the way was no less than its own.
    lemma FitsExactly(v: seq<VarBind>)
      requires 0 < repeater
      ensures (forall max: nat :: Admitted(v, max) ==> length(v) <= max) <==>
        || length(v) == 0
        || exists j: nat :: 1 <= j && repeater <= RowEnd(j) < |v| && length(v) <= Measured(v, j)
    {
      if forall max: nat :: Admitted(v, max) ==> length(v) <= max {
        if length(v) > 0 {
          assert !Admitted(v, length(v) - 1);
          var j: nat :| 1 <= j && RowEnd(j) < |v| && !(repeater <= RowEnd(j) && Measured(v, j) <= length(v) - 1);
          RowEnds(0, j);
        }
      }
    }

    lemma FinishedRows(a: Agent, full: Rows, rows: nat, cap: int)
      requires Finished(a, full, rows, cap) && 0 < repeater
      ensures RowsExplained(full.vbs, rows, cap)
    {
      hide Rows.Answered;
      var v := full.vbs;
      RowEnds(0, rows);
      forall j: nat | 1 <= j && repeater <= RowEnd(j) < |v|
        ensures !v[RowEnd(j) - 1].value.EndOfView? && length(v[..RowEnd(j)]) < limit
        ensures length(v[..RowEnd(j)] + v[RowEnd(j) - repeater..RowEnd(j)]) <= limit
      {
        assert Continued(v, RowEnd(j));
        assert v[..RowEnd(j)][RowEnd(j) - repeater..] == v[RowEnd(j) - repeater..RowEnd(j)];
      }
    }

    lemma OneRow(rows: nat)
      requires 0 < repeater && 1 <= rows
      ensures repeater * rows >= repeater
    {
      Multiple(repeater, rows);
    }

    lemma Places(a: Agent, answered: nat, gaveUp: bool)
      requires Valid() && State().Answered(a, answered)
      requires if gaveUp then forall i :: answered <= i < |vbs| ==> vbs[i].value.Unspecified? else answered == |vbs|
      ensures EndsPlaced() && answered <= |vbs|
    {
      forall i | nonRep <= i < |vbs| && vbs[i].value.EndOfView? ensures vbs[i].oid == State().Base(i) {
        assert Follows(a, State().Base(i), vbs[i]);
      }
    }

    lemma GaveUp(a: Agent, answered: nat)
      requires Valid() && State().Answered(a, answered) && 0 < answered <= nonRep && |vbs| == |original|
      requires vbs[answered - 1].value.EndOfView?
      ensures Hopeless(a)
    {
      var i := answered - 1;
      assert Follows(a, State().Base(i), vbs[i]);
    }

    lemma NotGivenUp(a: Agent)
      requires Valid() && State().Answered(a, |vbs|) && FirstHaveData()
      ensures !Hopeless(a)
    {
      forall i | 0 <= i < nonRep && i < |original| ensures !IsAnswer(a.ctx, a.view, original[i], None) {
        assert Follows(a, State().Base(i), vbs[i]);
        if IsAnswer(a.ctx, a.view, original[i], None) {
          AnswerUnique(a.ctx, a.view, original[i], None, Some(vbs[i].oid));
        }
      }
    }

    // A request that was given up is not shortened.
    lemma NothingTrimmed(before: seq<VarBind>)
      requires Valid() && |before| == |original| && Cut(before, |vbs|)
      requires forall i :: nonRep <= i < |before| ==> !before[i].value.EndOfView?
      ensures vbs == before
    {
      if nonRep < |vbs| {
        assert !before[|vbs| - 1].value.EndOfView?;
      }
    }

    lemma NoRepetitions(a: Agent, n: nat)
      requires Valid() && |vbs| == |original| && State().Answered(a, n) && State().Waiting(n)
      requires n == |vbs| || n == nonRep
      requires maxRep == 0 && repeater <= 0
      requires outstanding == Pending(done)
      ensures n == |vbs| && Complete(a, n) && outstanding == 0
    {
      PendingBindings(a, State(), n);
    }

    lemma FirstRow(a: Agent, n: nat)
      requires Valid() && |vbs| == |original| && State().Answered(a, n) && State().Waiting(n) && n <= nonRep
      requires n == |vbs| || n == nonRep <= |vbs|
      requires outstanding == Pending(done) + 1
      ensures RowReady(a, nonRep)
    {
      PendingBindings(a, State(), n);
    }

    // How many bindings are left when the last row has been taken away k times.
    function Left(k: nat): (n: nat)
      reads this
      ensures n <= |vbs|
    {
      if repeater <= 0 then |vbs| else if repeater * k <= |vbs| then |vbs| - repeater * k else 0
    }

    lemma LeftNext(k: nat)
      ensures Left(0) == |vbs| && vbs[..Left(0)] == vbs
      ensures Left(k + 1) == if repeater <= 0 then |vbs| else if repeater <= Left(k) then Left(k) - repeater else 0
    {
      assert repeater * (k + 1) == repeater * k + repeater;
    }

    // RequestList::answer: a response that is too long loses rows from its end until it fits
    // or no repetition is left. If it is still too long, tooBig is answered instead.
    method Truncated() returns (sent: seq<VarBind>, tooBig: bool, ghost k: nat)
      requires Valid()
      ensures if tooBig then sent == [] else sent == vbs[..Left(k)] && length(sent) <= limit
      ensures length(vbs) <= limit ==> !tooBig && sent == vbs
      ensures forall i :: 0 <= i < k ==> length(vbs[..Left(i)]) > limit && (0 < i ==> Left(i) > nonRep)
      ensures tooBig ==> 0 < k && Left(k) <= nonRep && length(vbs[..Left(k)]) > limit
    {
      hide Left;
      sent, tooBig, k := vbs, false, 0;
      LeftNext(0);
      if length(sent) > limit {
        sent := Trim(sent);
        k := 1;
        while |sent| > nonRep && length(sent) > limit
          invariant 0 < k && sent == vbs[..Left(k)]
          invariant forall i :: 0 <= i < k ==> length(vbs[..Left(i)]) > limit && (0 < i ==> Left(i) > nonRep)
          decreases |sent|
        {
          LeftNext(k);
          sent := Trim(sent);
          k := k + 1;
        }
        if length(sent) > limit {
          sent, tooBig := [], true;
        }
      }
    }

    // Pdu::trim for one row.
    method Trim(v: seq<VarBind>) returns (w: seq<VarBind>)
      ensures w == v[..if repeater <= 0 then |v| else if repeater <= |v| then |v| - repeater else 0]
    {
      w := if repeater <= 0 then v else if repeater <= |v| then v[..|v| - repeater] else [];
    }

    lemma Completed(a: Agent)
      requires Complete(a, |vbs|)
      ensures State().Answered(a, |vbs|) && State().Waiting(|vbs|)
    {
    }
  }

  // How many bindings report the end of the view.
  function Ends(vbs: seq<VarBind>): nat {
    if vbs == [] then 0 else Ends(vbs[..|vbs| - 1]) + (if vbs[|vbs| - 1].value.EndOfView? then 1 else 0)
  }

  lemma {:induction false} EndsBound(vbs: seq<VarBind>)
    ensures Ends(vbs) <= |vbs|
  {
    if vbs != [] {
      EndsBound(vbs[..|vbs| - 1]);
    }
  }

  lemma {:induction false} EndsNone(vbs: seq<VarBind>, i: nat)
    ensures i <= |vbs| ==> Ends(vbs[i..i]) == 0
  {
  }

  lemma {:induction false} EndsStep(vbs: seq<VarBind>, lo: nat, i: nat)
    requires lo <= i < |vbs|
    ensures Ends(vbs[lo..i + 1]) == Ends(vbs[lo..i]) + (if vbs[i].value.EndOfView? then 1 else 0)
  {
    var t := vbs[lo..i + 1];
    assert t[..|t| - 1] == vbs[lo..i];
  }

  lemma {:induction false} EndsMonotone(vbs: seq<VarBind>, lo: nat, i: nat, j: nat)
    requires lo <= i <= j <= |vbs|
    ensures Ends(vbs[lo..i]) <= Ends(vbs[lo..j])
  {
    if i < j {
      EndsMonotone(vbs, lo, i, j - 1);
      EndsStep(vbs, lo, j - 1);
    }
  }

  lemma {:induction false} AnsweredPrefix(a: Agent, s: Rows, n: nat)
    requires s.Answered(a, |s.vbs|) && |s.original| <= n
    ensures n <= |s.vbs| ==> Rows(s.original, s.rep, s.vbs[..n], s.done[..n]).Answered(a, n)
  {
    hide Follows;
    if n <= |s.vbs| {
      var t := Rows(s.original, s.rep, s.vbs[..n], s.done[..n]);
      forall i | 0 <= i < n ensures t.done[i] && Follows(a, t.Base(i), t.vbs[i]) {
        assert s.done[i] && Follows(a, s.Base(i), s.vbs[i]) && t.Base(i) == s.Base(i);
      }
    }
  }

  lemma {:induction false} RowLimit(rows: nat, m: nat, r: nat)
    requires rows <= m
    ensures r * rows <= m * r
  {
    assert m * r == rows * r + (m - rows) * r;
  }

  /* The columns of a response. */

  lemma {:induction false} AnswerUnique(ctx: Context, view: View, oid: Oid, r: Option<Oid>, s: Option<Oid>)
    requires IsAnswer(ctx, view, oid, r) && IsAnswer(ctx, view, oid, s)
    ensures r == s
  {
    hide Less, Answerable;
    if r.Some? && s.Some? {
      if r.value != s.value {
        LessAsymmetric(r.value, s.value);
      }
    } else if r.Some? {
      LessAsymmetricOrEqual(oid, r.value);
    } else if s.Some? {
      LessAsymmetricOrEqual(oid, s.value);
    }
  }

  // What GETNEXT answers.
  ghost function Next(a: Agent, o: Oid): Option<Oid> {
    if r :| IsAnswer(a.ctx, a.view, o, r) then r else None
  }

  // k-fold GETNEXT from o; it stays where the view ends.
  ghost function Iterate(a: Agent, o: Oid, k: nat): Oid {
    if k == 0 then o
    else var p := Iterate(a, o, k - 1);
         match Next(a, p)
         case None => p
         case Some(x) => x
  }

  lemma {:induction false} FollowsNext(a: Agent, o: Oid, vb: VarBind)
    requires Follows(a, o, vb)
    ensures Next(a, o) == if vb.value.EndOfView? then None else Some(vb.oid)
    ensures vb.value.EndOfView? ==> vb.oid == o
  {
    hide IsAnswer;
    var r :| IsAnswer(a.ctx, a.view, o, r) && r == Next(a, o);
    AnswerUnique(a.ctx, a.view, o, r, if vb.value.EndOfView? then None else Some(vb.oid));
  }

  // Row j holds the (j + 1)-fold GETNEXT of the requested identifiers, and the end of
  // the view exactly in the columns whose (j + 1)-th step has no successor.
  lemma {:induction false} RowsIterateGetNext(a: Agent, s: Rows, n: nat, c: nat, j: nat)
    requires s.Answered(a, |s.vbs|) && |s.original| == n + s.rep && n + s.rep * j + c < |s.vbs| && c < s.rep
    ensures s.vbs[n + s.rep * j + c].oid == Iterate(a, s.original[n + c], j + 1)
    ensures s.vbs[n + s.rep * j + c].value.EndOfView? <==> Next(a, Iterate(a, s.original[n + c], j)) == None
  {
    hide Follows, Next, IsAnswer;
    if j > 0 {
      RowBefore(s.rep, j);
      RowsIterateGetNext(a, s, n, c, j - 1);
    }
    BindingIterates(a, s, n + s.rep * j + c, s.original[n + c], j);
  }

  // A binding that answers the k-fold GETNEXT holds the next one.
  lemma BindingIterates(a: Agent, s: Rows, i: nat, o: Oid, k: nat)
    requires s.Answered(a, |s.vbs|) && i < |s.vbs| && s.Base(i) == Iterate(a, o, k)
    ensures s.vbs[i].oid == Iterate(a, o, k + 1)
    ensures s.vbs[i].value.EndOfView? <==> Next(a, Iterate(a, o, k)) == None
  {
    hide Follows, Next, IsAnswer;
    assert Follows(a, s.Base(i), s.vbs[i]);
    FollowsNext(a, s.Base(i), s.vbs[i]);
  }

  lemma RowBefore(rep: nat, j: nat)
    requires 0 < j
    ensures rep * j == rep * (j - 1) + rep && 0 <= rep * (j - 1)
  {
  }

  lemma {:induction false} AllWaiting(a: Agent, s: Rows)
    requires s.Valid() && s.Waiting(0)
    ensures s.Answered(a, 0) && Pending(s.done) == |s.vbs|
  {
    PendingAll(s.done);
  }

  lemma {:induction false} PendingAll(done: seq<bool>)
    requires forall i :: 0 <= i < |done| ==> !done[i]
    ensures Pending(done) == |done|
  {
    if done != [] {
      PendingAll(done[1..]);
    }
  }

  lemma {:induction false} HasValue(a: Agent, s: Rows, i: nat)
    requires s.Answered(a, i + 1)
    ensures s.vbs[i].value.Data? || s.vbs[i].value.EndOfView?
  {
    assert Follows(a, s.Base(i), s.vbs[i]);
  }

  lemma {:induction false} RowAppended(a: Agent, s: Rows)
    requires 0 < s.rep <= |s.original| <= |s.vbs| && s.Answered(a, |s.vbs|)
    ensures var t := Rows(s.original, s.rep, s.vbs + s.vbs[|s.vbs| - s.rep..], s.done + seq(s.rep, i => false));
      t.Answered(a, |s.vbs|) && t.Waiting(|s.vbs|)
  {
    hide Follows;
    var t := Rows(s.original, s.rep, s.vbs + s.vbs[|s.vbs| - s.rep..], s.done + seq(s.rep, i => false));
    forall i | 0 <= i < |s.vbs| ensures t.done[i] && Follows(a, t.Base(i), t.vbs[i]) {
      assert s.done[i] && t.vbs[i] == s.vbs[i] && t.Base(i) == s.Base(i);
    }
    forall i | |s.vbs| <= i < |t.vbs| ensures !t.done[i] && t.vbs[i].oid == t.Base(i) {
      assert t.vbs[i] == s.vbs[i - s.rep];
    }
  }

  /* Two requests to an agent with two scalars. */

  function TwoScalars(): Agent {
    Agent([LeafEntry([1, 0]), LeafEntry([2, 0])], o => true, o => 0)
  }

  lemma {:induction false} TwoScalarInstances(i: int, x: Oid, oid: Oid)
    ensures var a := TwoScalars();
      Answerable(a.ctx, a.view, oid, i, x) <==> (i == 0 && x == [1, 0]) || (i == 1 && x == [2, 0])
  {
  }

  lemma {:induction false} TwoScalarOrder()
    ensures Less([], [1, 0]) && Less([1, 0], [2, 0]) && !Less([2, 0], [1, 0])
  {
    LessAsymmetric([1, 0], [2, 0]);
  }

  lemma {:induction false} TwoScalarAnswers()
    ensures var a := TwoScalars();
      && Registered(a.ctx) && IsAnswer(a.ctx, a.view, [], Some([1, 0]))
      && IsAnswer(a.ctx, a.view, [1, 0], Some([2, 0])) && IsAnswer(a.ctx, a.view, [2, 0], None)
  {
    var a := TwoScalars();
    TwoScalarOrder();
    assert Registered(a.ctx);
    hide Less, Answerable;
    forall i, x, oid
      ensures Answerable(a.ctx, a.view, oid, i, x) <==> (i == 0 && x == [1, 0]) || (i == 1 && x == [2, 0])
    {
      TwoScalarInstances(i, x, oid);
    }
    LessIrreflexive([1, 0]);
    assert Answerable(a.ctx, a.view, [], 0, [1, 0]) && Answerable(a.ctx, a.view, [1, 0], 1, [2, 0]);
  }

  // The answers that such an agent gives.
  lemma {:induction false} TwoScalarFollows(o: Oid, vb: VarBind)
    requires Follows(TwoScalars(), o, vb)
    ensures o == [] ==> vb == VarBind([1, 0], Data(0))
    ensures o == [1, 0] ==> vb == VarBind([2, 0], Data(0))
    ensures o == [2, 0] ==> vb == VarBind([2, 0], EndOfView)
  {
    hide IsAnswer;
    var a := TwoScalars();
    TwoScalarAnswers();
    var r := if vb.value.EndOfView? then None else Some(vb.oid);
    if o == [] {
      AnswerUnique(a.ctx, a.view, o, r, Some([1, 0]));
    } else if o == [1, 0] {
      AnswerUnique(a.ctx, a.view, o, r, Some([2, 0]));
    } else if o == [2, 0] {
      AnswerUnique(a.ctx, a.view, o, r, None);
    }
  }

  // Two repetitions of two columns, the first of which has ended already.
  lemma {:induction false} TwoColumns(s: Rows, rows: nat)
    requires s.original == [[2, 0], []] && s.rep == 2 && s.Answered(TwoScalars(), |s.vbs|) && |s.vbs| == 2 * rows
    requires 1 <= rows <= 2
    ensures s.vbs[0] == VarBind([2, 0], EndOfView) && s.vbs[1] == VarBind([1, 0], Data(0))
    ensures rows == 2 ==> s.vbs[2] == VarBind([2, 0], EndOfView) && s.vbs[3] == VarBind([2, 0], Data(0))
    ensures rows == 2 ==> Ends(s.vbs[0..3]) == 2 && Ends(s.vbs[0..1]) == 1
  {
    hide Follows;
    forall i | 0 <= i < |s.vbs| ensures Follows(TwoScalars(), s.Base(i), s.vbs[i]) {
    }
    TwoScalarFollows(s.Base(0), s.vbs[0]);
    TwoScalarFollows(s.Base(1), s.vbs[1]);
    if rows == 2 {
      TwoScalarFollows(s.Base(2), s.vbs[2]);
      TwoScalarFollows(s.Base(3), s.vbs[3]);
      EndsNone(s.vbs, 0);
      EndsStep(s.vbs, 0, 0);
      EndsStep(s.vbs, 0, 1);
      EndsStep(s.vbs, 0, 2);
    }
  }

  // The trim cuts such a response of N + M * R bindings inside its second row: the last
  // binding, which has data, is lost.
  method CutInsideRow() returns (r: Request, ghost full: Rows)
    ensures r.original == [[2, 0], []] && r.nonRep == 0 && r.maxRep == 2
    ensures full.original == r.original && full.rep == 2 && full.Answered(TwoScalars(), 4)
    ensures |full.vbs| == 4 && full.vbs[3] == VarBind([2, 0], Data(0)) && r.vbs == full.vbs[..3]
  {
    hide Registered, IsAnswer, Follows, Ends;
    TwoScalarAnswers();
    r := new Request([[2, 0], []], 0, 2, v => 0, 1);
    var gaveUp, answered;
    ghost var rows;
    gaveUp, answered, full, rows := r.Serve(TwoScalars(), 0);
    TwoColumns(full, rows);
    assert r.vbs[0..] == full.vbs[0..|r.vbs|];
  }

  // One binding is short, the next one long.
  function UnevenLength(v: seq<VarBind>): nat {
    if exists i :: 0 <= i < |v| && v[i].oid == [2, 0] then 100 else |v|
  }

  const SHORT := VarBind([1, 0], Data(0))
  const LONG := VarBind([2, 0], Data(0))

  lemma {:induction false} UnevenLengths()
    ensures UnevenLength([SHORT]) == 1 && UnevenLength([SHORT] + [SHORT]) == 2 && UnevenLength([SHORT, LONG]) == 100
  {
    assert [SHORT, LONG][1].oid == [2, 0];
  }

  // A request for the whole view by one repeater.
  lemma {:induction false} OneColumn(s: Rows)
    requires s.original == [[]] && s.rep == 1 && s.Answered(TwoScalars(), |s.vbs|) && 1 <= |s.vbs| <= 2
    ensures s.vbs == [SHORT] || s.vbs == [SHORT, LONG]
    ensures Ends(s.vbs[0..|s.vbs| - 1]) == 0
  {
    hide Follows;
    assert Follows(TwoScalars(), s.Base(0), s.vbs[0]);
    TwoScalarFollows(s.Base(0), s.vbs[0]);
    EndsNone(s.vbs, 0);
    if |s.vbs| == 2 {
      assert Follows(TwoScalars(), s.Base(1), s.vbs[1]);
      TwoScalarFollows(s.Base(1), s.vbs[1]);
      EndsStep(s.vbs, 0, 0);
    }
  }

  // Its response has two rows under the limit of ten.
  lemma {:induction false} TwoRows(r: Request, v: seq<VarBind>, rows: nat)
    requires r.length == UnevenLength && r.limit == 10 && (v == [SHORT] || v == [SHORT, LONG])
    requires r.RowsExplained(v, rows, 0) && r.nonRep == 0 && r.maxRep == 2 && r.repeater == 1
    ensures v == [SHORT, LONG] && r.length(v) > r.limit
  {
    hide UnevenLength;
    UnevenLengths();
  }

  lemma {:induction false} FewRows(r: Request, v: seq<VarBind>, rows: nat)
    requires r.RowsExplained(v, rows, 0) && r.nonRep == 0 && r.maxRep == 2 && r.repeater == 1
    ensures 1 <= |v| == rows <= 2
  {
  }

  // A row with a longer answer than the row before: the response exceeds the limit.
  method LongerThanLimit() returns (r: Request)
    ensures r.nonRep == 0 && r.maxRep == 2 && r.original == [[]]
    ensures r.vbs == [VarBind([1, 0], Data(0)), VarBind([2, 0], Data(0))] && r.length(r.vbs) > r.limit
  {
    hide Registered, IsAnswer, Follows, Ends, UnevenLength, Rows.Answered, Request.Hopeless, Request.Grown;
    hide Request.RowsExplained;
    TwoScalarAnswers();
    r := new Request([[]], 0, 2, UnevenLength, 10);
    var gaveUp, answered;
    ghost var full, rows;
    gaveUp, answered, full, rows := r.Serve(TwoScalars(), 0);
    FewRows(r, full.vbs, rows);
    OneColumn(full);
    TwoRows(r, full.vbs, rows);
    assert r.vbs == full.vbs[..|r.vbs|];
  }

  // A request whose first non-repeater has no successor is answered without its second,
  // which has one.
  method GivenUpEarly() returns (r: Request, gaveUp: bool)
    ensures r.original == [[2, 0], []] && r.nonRep == 2
    ensures IsAnswer(TwoScalars().ctx, TwoScalars().view, [], Some([1, 0]))
    ensures gaveUp && |r.vbs| == |r.done| == 2 && r.vbs[0] == VarBind([2, 0], EndOfView) && !r.done[1]
    ensures r.vbs[1].oid == []
  {
    hide Registered, IsAnswer, Follows, Ends;
    var a := TwoScalars();
    TwoScalarAnswers();
    r := new Request([[2, 0], []], 2, 0, v => 0, 1);
    ghost var full, rows;
    var answered;
    gaveUp, answered, full, rows := r.Serve(a, 0);
    assert r.original[0] == [2, 0];
    forall i | 0 <= i < answered ensures Follows(a, r.State().Base(i), r.vbs[i]) {
    }
    TwoScalarFollows(r.State().Base(0), r.vbs[0]);
    if answered == 2 {
      TwoScalarFollows(r.State().Base(1), r.vbs[1]);
    }
  }
}
