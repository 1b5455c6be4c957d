/** Conceptual rows under SET requests: the RowStatus state machine of a table. */
module RowStatuses {
  import opened Oids
  import opened Options

  const ROW_EMPTY := 0
  const ROW_ACTIVE := 1
  const ROW_NOT_IN_SERVICE := 2
  const ROW_NOT_READY := 3
  const ROW_CREATE_AND_GO := 4
  const ROW_CREATE_AND_WAIT := 5
  const ROW_DESTROY := 6

  datatype Access = NoAccess | ReadOnly | ReadWrite | ReadCreate

  // A columnar object: its maximum access, whether it has a default, whether it may not
  // be set while the row is active, and the value that a new row clones.
  datatype Column = Column(access: Access, hasDefault: bool, locked: bool, initial: int)

  // The columns of a table besides its row status; valid: Vbx::valid, ok: MibLeaf::value_ok.
  datatype Shape = Shape(cols: seq<Column>, valid: (nat, int) -> bool, ok: (nat, int) -> bool, indexOk: Oid -> bool)

  // A columnar instance; given: its validity flag.
  datatype Leaf = Leaf(value: int, given: bool)

  datatype Row = Row(status: int, cells: seq<Leaf>)

  datatype Target = Status(v: int) | Cell(col: nat, value: int)

  // One sub-request for the row with the given index.
  datatype Sub = Sub(index: Oid, target: Target)

  predicate Writable(c: Column) {
    c.access.ReadWrite? || c.access.ReadCreate?
  }

  predicate Required(c: Column) {
    c.access.ReadCreate? && !c.hasDefault
  }

  // Column c does not keep the row from service.
  predicate LeafOk(sh: Shape, c: nat, v: int)
    requires c < |sh.cols|
  {
    (Writable(sh.cols[c]) && sh.valid(c, v) ==> sh.ok(c, v)) && (Required(sh.cols[c]) ==> sh.valid(c, v))
  }

  // MibTable::ready looks at the values only, not at the validity flags.
  predicate Ready(sh: Shape, cells: seq<Leaf>) {
    |cells| == |sh.cols| && forall c :: 0 <= c < |cells| ==> LeafOk(sh, c, cells[c].value)
  }

  // A clone of the generator row keeps all values; required columns lose the validity flag.
  function NewCells(sh: Shape): (cells: seq<Leaf>)
    ensures |cells| == |sh.cols|
  {
    seq(|sh.cols|, c requires 0 <= c < |sh.cols| => Leaf(sh.cols[c].initial, sh.cols[c].hasDefault))
  }

  // The cells after all assignments of the request to row r.
  function Overlay(cells: seq<Leaf>, subs: seq<Sub>, r: Oid): (o: seq<Leaf>)
    ensures |o| == |cells|
  {
    if subs == [] then cells
    else
      var s := subs[|subs| - 1];
      var o := Overlay(cells, subs[..|subs| - 1], r);
      if s.index == r && s.target.Cell? && s.target.col < |o| then o[s.target.col := Leaf(s.target.value, true)] else o
  }

  // The value that snmpRowStatus::set stores.
  function Stored(v: int): int {
    if v == ROW_CREATE_AND_GO then ROW_ACTIVE
    else if v == ROW_CREATE_AND_WAIT then ROW_NOT_READY
    else v
  }

  predicate StatusValueOk(v: int) {
    v == ROW_CREATE_AND_GO || v == ROW_CREATE_AND_WAIT || v == ROW_DESTROY || v == ROW_ACTIVE || v == ROW_NOT_IN_SERVICE
  }

  predicate TransitionOk(cur: int, v: int) {
    if cur == ROW_EMPTY then v == ROW_CREATE_AND_GO || v == ROW_CREATE_AND_WAIT || v == ROW_DESTROY
    else if cur == ROW_NOT_READY then v == ROW_DESTROY || v == ROW_ACTIVE || v == ROW_NOT_IN_SERVICE
    else if cur == ROW_ACTIVE then v == ROW_ACTIVE || v == ROW_NOT_IN_SERVICE || v == ROW_DESTROY
    else if cur == ROW_NOT_IN_SERVICE then v == ROW_NOT_IN_SERVICE || v == ROW_ACTIVE || v == ROW_DESTROY
    else v == ROW_DESTROY
  }

  // check_state_change, given the row as it will be after the request.
  predicate StateChangeOk(sh: Shape, cur: int, v: int, after: seq<Leaf>) {
    if (cur == ROW_NOT_IN_SERVICE || cur == ROW_NOT_READY) && (v == ROW_ACTIVE || v == ROW_NOT_IN_SERVICE)
    then Ready(sh, after)
    else TransitionOk(cur, v)
  }

  // The first and the last sub-request for the status of row r; -1 if there is none.
  function FirstStatus(subs: seq<Sub>, r: Oid): (i: int)
    ensures -1 <= i < |subs| && (i >= 0 ==> subs[i].index == r && subs[i].target.Status?)
    ensures forall k :: 0 <= k < (if i < 0 then |subs| else i) ==> !(subs[k].index == r && subs[k].target.Status?)
  {
    if subs == [] then -1
    else if subs[0].index == r && subs[0].target.Status? then 0
    else var i := FirstStatus(subs[1..], r);
         assert forall k :: 1 <= k < |subs| ==> subs[k] == subs[1..][k - 1];
         if i < 0 then -1 else i + 1
  }

  function LastStatus(subs: seq<Sub>, r: Oid): (i: int)
    ensures -1 <= i < |subs| && (i >= 0 ==> subs[i].index == r && subs[i].target.Status?)
    ensures forall k :: i < k < |subs| ==> !(subs[k].index == r && subs[k].target.Status?)
  {
    if subs == [] then -1
    else
      var n := |subs| - 1;
      if subs[n].index == r && subs[n].target.Status? then n else LastStatus(subs[..n], r)
  }

  // A request that names the status of every row at most once.
  ghost predicate OneStatus(subs: seq<Sub>) {
    forall i, j :: 0 <= i < j < |subs| && subs[i].index == subs[j].index ==>
      !(subs[i].target.Status? && subs[j].target.Status?)
  }

  ghost predicate OneStatusOf(subs: seq<Sub>, r: Oid) {
    forall i, j :: 0 <= i < j < |subs| && subs[i].index == subs[j].index == r ==>
      !(subs[i].target.Status? && subs[j].target.Status?)
  }

  // One of the first n sub-requests is for row r.
  ghost predicate Seen(subs: seq<Sub>, n: int, r: Oid) {
    exists k :: 0 <= k < n && k < |subs| && subs[k].index == r
  }

  // could_ever_be_managed
  predicate Creatable(sh: Shape, s: Sub) {
    sh.indexOk(s.index) && (s.target.Cell? ==> s.target.col < |sh.cols| && sh.cols[s.target.col].access.ReadCreate?)
  }

  predicate CellOk(sh: Shape, s: Sub) {
    s.target.Cell? ==>
      && s.target.col < |sh.cols| && Writable(sh.cols[s.target.col])
      && sh.ok(s.target.col, s.target.value)
  }

  // What prepare accepts for a row that exists ...
  ghost predicate OldRowOk(sh: Shape, row: Row, subs: seq<Sub>, k: nat)
    requires k < |subs|
  {
    match subs[k].target
    case Cell(_, _) => CellOk(sh, subs[k]) && !(sh.cols[subs[k].target.col].locked && row.status == ROW_ACTIVE)
    case Status(v) =>
      && StatusValueOk(v) && TransitionOk(row.status, v)
      && StateChangeOk(sh, row.status, v, Overlay(row.cells, subs, subs[k].index))
  }

  // ... and for one that does not: createAndGo has to name all required columns.
  ghost predicate NewRowOk(sh: Shape, subs: seq<Sub>, r: Oid) {
    var f, cells := FirstStatus(subs, r), Overlay(NewCells(sh), subs, r);
    && f >= 0
    && (|| subs[f].target.v == ROW_CREATE_AND_GO
        || subs[f].target.v == ROW_CREATE_AND_WAIT
        || subs[f].target.v == ROW_DESTROY)
    && (forall k :: 0 <= k < |subs| && subs[k].index == r ==>
      CellOk(sh, subs[k]) && (subs[k].target.Status? ==> StatusValueOk(subs[k].target.v)))
    && (subs[f].target.v == ROW_CREATE_AND_GO ==> AllGiven(sh, cells) && Ready(sh, cells))
  }

  // All required columns have been given a value.
  predicate AllGiven(sh: Shape, cells: seq<Leaf>) {
    forall c :: 0 <= c < |cells| && c < |sh.cols| && Required(sh.cols[c]) ==> cells[c].given
  }

  ghost predicate Destroys(subs: seq<Sub>, r: Oid) {
    var f := FirstStatus(subs, r);
    f >= 0 && subs[f].target.v == ROW_DESTROY
  }

  // An earlier sub-request destroys the row of sub-request k, which was not active.
  ghost predicate Dropped(rows: map<Oid, Row>, subs: seq<Sub>, k: nat)
    requires k < |subs|
  {
    var r := subs[k].index;
    && r in rows && (rows[r].status == ROW_NOT_IN_SERVICE || rows[r].status == ROW_NOT_READY)
    && exists j :: 0 <= j < k && subs[j] == Sub(r, Status(ROW_DESTROY))
  }

  // The prepare phase passes sub-request k; a new row is checked as a whole when its
  // first sub-request is.
  ghost predicate Passes(sh: Shape, rows: map<Oid, Row>, subs: seq<Sub>, votes: nat -> bool, k: nat)
    requires k < |subs|
  {
    var r := subs[k].index;
    if r in rows then OldRowOk(sh, rows[r], subs, k) && (subs[k].target.Status? ==> votes(k)) && !Dropped(rows, subs, k)
    else Seen(subs, k, r) || (Creatable(sh, subs[k]) && NewRowOk(sh, subs, r) && votes(k))
  }

  ghost predicate Accepted(sh: Shape, rows: map<Oid, Row>, subs: seq<Sub>, votes: nat -> bool) {
    forall k :: 0 <= k < |subs| ==> Passes(sh, rows, subs, votes, k)
  }

  // Destroying a row that does not exist is done already.
  ghost predicate Ignored(rows: map<Oid, Row>, subs: seq<Sub>, r: Oid) {
    r !in rows && Destroys(subs, r)
  }

  // The commit of sub-request k does not fail: its value is valid, and it is not a status of
  // a new row that is neither named first nor last, which would be left without a lock.
  ghost predicate Commits(sh: Shape, rows: map<Oid, Row>, subs: seq<Sub>, k: nat)
    requires k < |subs|
  {
    var r := subs[k].index;
    Ignored(rows, subs, r) ||
      match subs[k].target
      case Cell(c, v) => sh.valid(c, v)
      case Status(v) => r in rows || !Seen(subs, k, r) || k == LastStatus(subs, r)
  }

  ghost predicate AllCommit(sh: Shape, rows: map<Oid, Row>, subs: seq<Sub>) {
    forall k :: 0 <= k < |subs| ==> Commits(sh, rows, subs, k)
  }

  // Neither phase fails for a sub-request for row r.
  ghost predicate RowDone(sh: Shape, rows: map<Oid, Row>, subs: seq<Sub>, votes: nat -> bool, r: Oid) {
    forall k :: 0 <= k < |subs| && subs[k].index == r ==> Passes(sh, rows, subs, votes, k) && Commits(sh, rows, subs, k)
  }

  // A request is done exactly if it is for each row.
  lemma {:induction false} DoneByRow(sh: Shape, rows: map<Oid, Row>, subs: seq<Sub>, votes: nat -> bool)
    ensures Accepted(sh, rows, subs, votes) && AllCommit(sh, rows, subs) <==>
      forall r :: RowDone(sh, rows, subs, votes, r)
  {
    hide Passes, Commits;
    if forall r :: RowDone(sh, rows, subs, votes, r) {
      forall k | 0 <= k < |subs| ensures Passes(sh, rows, subs, votes, k) && Commits(sh, rows, subs, k) {
        assert RowDone(sh, rows, subs, votes, subs[k].index);
      }
    }
  }

  datatype Outcome = Refused | CommitFailed | Done

  class Table {
    const shape: Shape
    var rows: map<Oid, Row>
    var deleteRows: set<Oid>

    constructor (shape: Shape)
      ensures this.shape == shape && rows == map[] && deleteRows == {}
    {
      this.shape := shape;
      rows, deleteRows := map[], {};
    }

    // Applies the assignments of the request to the cells of row r.
    method Collect(cells: seq<Leaf>, subs: seq<Sub>, r: Oid) returns (o: seq<Leaf>)
      ensures o == Overlay(cells, subs, r)
    {
      o := cells;
      for i := 0 to |subs|
        invariant o == Overlay(cells, subs[..i], r)
      {
        assert subs[..i + 1][..i] == subs[..i];
        var s := subs[i];
        if s.index == r && s.target.Cell? && s.target.col < |o| {
          o := o[s.target.col := Leaf(s.target.value, true)];
        }
      }
      assert subs[..|subs|] == subs;
    }

    // prepare_set_request for an object of an existing row.
    method PrepareOld(subs: seq<Sub>, k: nat, vote: bool) returns (ok: bool)
      requires k < |subs| && subs[k].index in rows
      modifies this`deleteRows
      ensures var r := subs[k].index;
        && ok == (r !in old(deleteRows) && OldRowOk(shape, rows[r], subs, k) && (subs[k].target.Status? ==> vote))
        && (ok ==> deleteRows == old(deleteRows) + if subs[k].target == Status(ROW_DESTROY)
              && (rows[r].status == ROW_NOT_IN_SERVICE || rows[r].status == ROW_NOT_READY) then {r} else {})
    {
      var r, t := subs[k].index, subs[k].target;
      var row := rows[r];
      if r in deleteRows {
        return false;
      }
      match t
      case Cell(c, v) =>
        ok := CellOk(shape, subs[k]) && !(shape.cols[c].locked && row.status == ROW_ACTIVE);
      case Status(v) =>
        if !StatusValueOk(v) || !TransitionOk(row.status, v) {
          return false;
        }
        var after := Collect(row.cells, subs, r);
        ok := StateChangeOk(shape, row.status, v, after);
        if ok && v == ROW_DESTROY && (row.status == ROW_NOT_IN_SERVICE || row.status == ROW_NOT_READY) {
          deleteRows := deleteRows + {r};
        }
        ok := ok && vote;
    }

    // check_creation for row r: marks the sub-requests of the row as ready, except k
    // through which all of them are committed; destroying nothing is done already.
    method PrepareNew(subs: seq<Sub>, k: nat, vote: bool, ready: seq<bool>, done: seq<bool>)
      returns (ok: bool, ready': seq<bool>, done': seq<bool>)
      requires k < |subs| == |ready| == |done|
      ensures |ready'| == |done'| == |subs|
      ensures ok == (Creatable(shape, subs[k]) && NewRowOk(shape, subs, subs[k].index) && vote)
      ensures ok ==> forall i :: 0 <= i < |subs| ==>
        && ready'[i] == (i != k && (ready[i] || subs[i].index == subs[k].index))
        && done'[i] == (done[i] || (subs[i].index == subs[k].index && Destroys(subs, subs[k].index)))
    {
      ready', done' := ready, done;
      var r, t := subs[k].index, subs[k].target;
      if !Creatable(shape, subs[k]) {
        return false, ready', done';
      }
      var f := FirstStatus(subs, r);
      if f < 0 {
        return false, ready', done';
      }
      var v := subs[f].target.v;
      if v != ROW_CREATE_AND_GO && v != ROW_CREATE_AND_WAIT && v != ROW_DESTROY {
        return false, ready', done';
      }
      for i := 0 to |subs|
        invariant |ready'| == |done'| == |subs|
        invariant forall j :: 0 <= j < i && subs[j].index == r ==>
          CellOk(shape, subs[j]) && (subs[j].target.Status? ==> StatusValueOk(subs[j].target.v))
        invariant forall j :: 0 <= j < |subs| ==>
          && ready'[j] == (ready[j] || (j < i && subs[j].index == r))
          && done'[j] == (done[j] || (j < i && subs[j].index == r && v == ROW_DESTROY))
      {
        if subs[i].index == r {
          if !CellOk(shape, subs[i]) || (subs[i].target.Status? && !StatusValueOk(subs[i].target.v)) {
            return false, ready', done';
          }
          ready' := ready'[i := true];
          if v == ROW_DESTROY {
            done' := done'[i := true];
          }
        }
      }
      if v == ROW_CREATE_AND_GO {
        var cells := Collect(NewCells(shape), subs, r);
        if !AllGiven(shape, cells) || !Ready(shape, cells) {
          return false, ready', done';
        }
      }
      ready' := ready'[k := false];
      ok := vote;
    }

    // The first i sub-requests have passed the prepare phase.
    ghost predicate Checked(subs: seq<Sub>, votes: nat -> bool, ready: seq<bool>, done: seq<bool>, i: nat)
      reads this
    {
      && |ready| == |done| == |subs|
      && (forall r :: r in deleteRows <==> DropsBefore(rows, subs, i, r))
      && (forall k :: i <= k < |subs| ==> ready[k] == (subs[k].index !in rows && Seen(subs, i, subs[k].index)))
      && (forall k :: 0 <= k < |subs| ==>
        done[k] == (Ignored(rows, subs, subs[k].index) && Seen(subs, i, subs[k].index)))
    }

    // prepare_set_request for sub-request i, unless it is ready.
    method PrepareOne(subs: seq<Sub>, votes: nat -> bool, ready: seq<bool>, done: seq<bool>, i: nat)
      returns (ok: bool, ready': seq<bool>, done': seq<bool>)
      requires i < |subs| && Checked(subs, votes, ready, done, i)
      modifies this`deleteRows
      ensures ok == Passes(shape, rows, subs, votes, i)
      ensures ok ==> Checked(subs, votes, ready', done', i + 1)
    {
      hide OldRowOk, NewRowOk, Destroys, DropsBefore;
      SeenNext(subs, i);
      DropsNext(rows, subs, i);
      ok, ready', done' := true, ready, done;
      if !ready[i] {
        if subs[i].index in rows {
          ok := PrepareOld(subs, i, votes(i));
        } else {
          ok, ready', done' := PrepareNew(subs, i, votes(i), ready, done);
        }
      }
    }

    // The prepare phase for all sub-requests. votes are the verdicts of the registered voters;
    // locked: the sub-requests that have locked the table.
    method Prepare(subs: seq<Sub>, votes: nat -> bool) returns (ok: bool, done: seq<bool>, locked: seq<bool>)
      requires deleteRows == {}
      modifies this`deleteRows
      ensures ok == Accepted(shape, rows, subs, votes)
      ensures ok ==> |done| == |locked| == |subs| && forall k :: 0 <= k < |subs| ==>
        && done[k] == Ignored(rows, subs, subs[k].index)
        && locked[k] == (subs[k].index in rows || !Seen(subs, k, subs[k].index))
    {
      hide Passes, Ignored, DropsBefore;
      NothingDropped(rows, subs);
      var ready := seq(|subs|, k => false);
      done := seq(|subs|, k => false);
      locked := seq(|subs|, k => false);
      for i := 0 to |subs|
        invariant Checked(subs, votes, ready, done, i) && |locked| == |subs|
        invariant forall k :: 0 <= k < i ==> Passes(shape, rows, subs, votes, k)
        invariant forall k :: 0 <= k < |subs| ==>
          locked[k] == (k < i && (subs[k].index in rows || !Seen(subs, k, subs[k].index)))
      {
        locked := locked[i := !ready[i]];
        ok, ready, done := PrepareOne(subs, votes, ready, done, i);
        if !ok {
          return;
        }
      }
      ok := true;
    }

    // The loop of set_value that creates a row from all sub-requests for it.
    method AddRow(subs: seq<Sub>, r: Oid, done: seq<bool>) returns (ok: bool, done': seq<bool>)
      requires |done| == |subs|
      modifies this`rows
      ensures ok == forall k :: 0 <= k < |subs| && subs[k].index == r && subs[k].target.Cell? ==>
        shape.valid(subs[k].target.col, subs[k].target.value)
      ensures |done'| == |subs|
      ensures ok ==> rows == old(rows)[r := Created(shape, subs, r)]
      ensures ok ==> forall k :: 0 <= k < |subs| ==>
        done'[k] == (done[k] || (subs[k].index == r && (subs[k].target.Cell? || k == LastStatus(subs, r))))
    {
      var row := Row(ROW_EMPTY, NewCells(shape));
      done' := done;
      var statusReq := -1;
      for i := 0 to |subs|
        invariant row == Row(ROW_EMPTY, Overlay(NewCells(shape), subs[..i], r)) && statusReq == LastStatus(subs[..i], r)
        invariant forall k :: 0 <= k < i && subs[k].index == r && subs[k].target.Cell? ==>
          shape.valid(subs[k].target.col, subs[k].target.value)
        invariant |done'| == |subs| && forall k :: 0 <= k < |subs| ==>
          done'[k] == (done[k] || (k < i && subs[k].index == r && subs[k].target.Cell?))
      {
        assert subs[..i + 1][..i] == subs[..i];
        if subs[i].index == r {
          match subs[i].target
          case Status(v) =>
            statusReq := i;
          case Cell(c, v) =>
            if !shape.valid(c, v) {
              return false, done';
            }
            if c < |row.cells| {
              row := row.(cells := row.cells[c := Leaf(v, true)]);
            }
            done' := done'[i := true];
        }
      }
      assert subs[..|subs|] == subs;
      if statusReq >= 0 {
        row := row.(status := Stored(subs[statusReq].target.v));
        done' := done'[statusReq := true];
      }
      rows := rows[r := Upgraded(shape, row)];
      ok := true;
    }

    // set_value for sub-request i of an existing row.
    method SetValue(subs: seq<Sub>, i: nat) returns (ok: bool)
      requires i < |subs| && subs[i].index in rows
      modifies this`rows
      ensures ok == (subs[i].target.Cell? ==> shape.valid(subs[i].target.col, subs[i].target.value))
      ensures ok ==> Look(rows, subs[i].index) == Changed(shape, old(rows[subs[i].index]), subs[i].target)
      ensures forall r :: r != subs[i].index ==> Look(rows, r) == Look(old(rows), r)
    {
      var r := subs[i].index;
      var row := rows[r];
      ok := true;
      match subs[i].target
      case Status(v) =>
        if v == ROW_DESTROY {
          rows := rows - {r};
          return;
        }
        row := row.(status := Stored(v));
        rows := rows[r := Upgraded(shape, row)];
      case Cell(c, v) =>
        if !shape.valid(c, v) {
          return false;
        }
        if c < |row.cells| {
          row := row.(cells := row.cells[c := Leaf(v, true)]);
        }
        rows := rows[r := Upgraded(shape, row)];
    }

    // The first i sub-requests have been committed to the rows before.
    ghost predicate Progress(before: map<Oid, Row>, subs: seq<Sub>, done: seq<bool>, i: nat)
      requires i <= |subs|
      reads this
    {
      && (forall r :: Look(rows, r) == Committed(shape, Start(before, subs, r), subs, r, i).row)
      && |done| == |subs|
      && forall k :: 0 <= k < |subs| ==>
        && done[k]
          == Finished(Committed(shape, Start(before, subs, subs[k].index), subs, subs[k].index, i),
                      subs, subs[k].index, k)
        && (done[k] ==> Commits(shape, before, subs, k))
    }

    // The commit of sub-request i, through the lock of its table.
    method CommitOne(subs: seq<Sub>, i: nat, done: seq<bool>, locked: bool, ghost before: map<Oid, Row>)
      returns (ok: bool, done': seq<bool>)
      requires i < |subs| && Progress(before, subs, done, i)
      requires forall k :: 0 <= k < i ==> Commits(shape, before, subs, k)
      requires locked == (subs[i].index in before || !Seen(subs, i, subs[i].index))
      modifies this`rows
      ensures ok ==> Progress(before, subs, done', i + 1) && Commits(shape, before, subs, i)
      ensures !ok ==> !AllCommit(shape, before, subs)
    {
      hide Destroys, Created, Upgraded, Committed, Ignored, Changed;
      var r := subs[i].index;
      CommittedNext(shape, before, subs, i);
      if r !in before {
        NewRowLocked(shape, before, subs, r, i);
      }
      ok, done' := true, done;
      if !done[i] {
        if !locked {
          assert !Commits(shape, before, subs, i);
          return false, done';
        }
        if r in rows {
          ok := SetValue(subs, i);
        } else {
          ok, done' := AddRow(subs, r, done);
        }
        if !ok {
          OverStays(shape, Start(before, subs, r), subs, r, i);
          ghost var k :| 0 <= k < |subs| && subs[k].index == r && subs[k].target.Cell?
            && !shape.valid(subs[k].target.col, subs[k].target.value);
          assert !Commits(shape, before, subs, k);
        }
      }
    }

    // The commit phase.
    method Commit(subs: seq<Sub>, ready: seq<bool>, locked: seq<bool>) returns (ok: bool)
      requires |ready| == |locked| == |subs|
      requires forall k :: 0 <= k < |subs| ==>
        && ready[k] == Ignored(rows, subs, subs[k].index)
        && locked[k] == (subs[k].index in rows || !Seen(subs, k, subs[k].index))
      modifies this`rows
      ensures ok == AllCommit(shape, old(rows), subs)
      ensures ok ==> forall r :: Look(rows, r) == After(shape, old(rows), subs, r)
    {
      ghost var before := rows;
      var done := ready;
      NothingCommitted(shape, rows, subs);
      hide Committed, Ignored, Destroys, FirstStatus, LastStatus, Seen;
      assert Progress(before, subs, done, 0);
      for i := 0 to |subs|
        invariant Progress(before, subs, done, i) && forall k :: 0 <= k < i ==> Commits(shape, before, subs, k)
      {
        ok, done := CommitOne(subs, i, done, locked[i], before);
        if !ok {
          return;
        }
      }
      ok := true;
    }

    // A SET request for rows of the table.
    method ProcessSet(subs: seq<Sub>, votes: nat -> bool) returns (outcome: Outcome)
      requires AllSound(shape, rows) && deleteRows == {}
      modifies this
      ensures outcome == if !Accepted(shape, old(rows), subs, votes) then Refused
        else if !AllCommit(shape, old(rows), subs) then CommitFailed
        else Done
      ensures outcome.Done? <==> forall r :: RowDone(shape, old(rows), subs, votes, r)
      ensures deleteRows == {}
      ensures outcome.Refused? ==> rows == old(rows)
      ensures outcome.Done? ==> rows == Served(shape, old(rows), subs)
      ensures outcome.Done? ==> (AllSound(shape, rows) <==> forall r :: Safe(shape, old(rows), subs, r))
      ensures outcome.Done? ==> forall r :: r in old(rows) && r in rows && InUse(old(rows)[r]) ==>
        rows[r].status != ROW_NOT_READY
    {
      ghost var before := rows;
      DoneByRow(shape, rows, subs, votes);
      var ok, ready, locked := Prepare(subs, votes);
      if !ok {
        outcome := Refused;
      } else {
        ok := Commit(subs, ready, locked);
        outcome := if ok then Done else CommitFailed;
        if ok {
          ServedIs(shape, before, subs, rows);
          ServedSound(shape, before, subs, votes);
        }
      }
      deleteRows := {};
    }
  }

  /* The commit phase, row by row. */

  function Look(rows: map<Oid, Row>, r: Oid): Option<Row> {
    if r in rows then Some(rows[r]) else None
  }

  // A row that waits for values is taken to notInService as soon as it is complete.
  function Upgraded(sh: Shape, row: Row): Row {
    if row.status == ROW_NOT_READY && Ready(sh, row.cells) then row.(status := ROW_NOT_IN_SERVICE) else row
  }

  // The row that all sub-requests for r together create.
  function Created(sh: Shape, subs: seq<Sub>, r: Oid): Row {
    var s := LastStatus(subs, r);
    Upgraded(sh, Row(if s < 0 then ROW_EMPTY else Stored(subs[s].target.v), Overlay(NewCells(sh), subs, r)))
  }

  // What one sub-request makes of a row.
  function Changed(sh: Shape, row: Row, t: Target): Option<Row> {
    match t
    case Status(v) => if v == ROW_DESTROY then None else Some(Upgraded(sh, row.(status := Stored(v))))
    case Cell(c, v) =>
      Some(Upgraded(sh, if c < |row.cells| then row.(cells := row.cells[c := Leaf(v, true)]) else row))
  }

  // A row during the commit phase. made: this request has created it, and with it all
  // assignments and the last status are done; over: all sub-requests for it are.
  datatype RowState = RowState(row: Option<Row>, made: bool, over: bool)

  ghost predicate Finished(st: RowState, subs: seq<Sub>, r: Oid, i: nat)
    requires i < |subs|
  {
    st.over || (st.made && (subs[i].target.Cell? || i == LastStatus(subs, r)))
  }

  ghost function CommitRow(sh: Shape, st: RowState, subs: seq<Sub>, r: Oid, i: nat): RowState
    requires i < |subs|
  {
    if subs[i].index != r || Finished(st, subs, r, i) then st
    else match st.row
      case None => RowState(Some(Created(sh, subs, r)), true, false)
      case Some(row) => st.(row := Changed(sh, row, subs[i].target))
  }

  // Row r after the first n commits.
  ghost function Committed(sh: Shape, st: RowState, subs: seq<Sub>, r: Oid, n: nat): RowState
    requires n <= |subs|
  {
    if n == 0 then st else CommitRow(sh, Committed(sh, st, subs, r, n - 1), subs, r, n - 1)
  }

  // Where the commit phase starts for row r.
  ghost function Start(rows: map<Oid, Row>, subs: seq<Sub>, r: Oid): RowState {
    RowState(Look(rows, r), false, Ignored(rows, subs, r))
  }

  // Row r after the request.
  ghost function After(sh: Shape, rows: map<Oid, Row>, subs: seq<Sub>, r: Oid): Option<Row> {
    Committed(sh, Start(rows, subs, r), subs, r, |subs|).row
  }

  // The table after the request.
  ghost function Served(sh: Shape, rows: map<Oid, Row>, subs: seq<Sub>): map<Oid, Row> {
    map r | r in rows.Keys + (set k | 0 <= k < |subs| :: subs[k].index) && After(sh, rows, subs, r).Some? ::
      After(sh, rows, subs, r).value
  }

  lemma {:induction false} NothingCommitted(sh: Shape, rows: map<Oid, Row>, subs: seq<Sub>)
    ensures forall r :: Committed(sh, Start(rows, subs, r), subs, r, 0) == Start(rows, subs, r)
  {
  }

  lemma {:induction false} CommittedNext(sh: Shape, rows: map<Oid, Row>, subs: seq<Sub>, n: nat)
    requires n < |subs|
    ensures forall r ::
      Committed(sh, Start(rows, subs, r), subs, r, n + 1) ==
        CommitRow(sh, Committed(sh, Start(rows, subs, r), subs, r, n), subs, r, n)
  {
  }

  lemma {:induction false} OverStays(sh: Shape, st: RowState, subs: seq<Sub>, r: Oid, n: nat)
    requires n <= |subs|
    ensures Committed(sh, st, subs, r, n).over == st.over
  {
    hide Created, Changed;
    if n > 0 {
      OverStays(sh, st, subs, r, n - 1);
    }
  }

  // A row without sub-requests stays as it is.
  lemma {:induction false} Untouched(sh: Shape, st: RowState, subs: seq<Sub>, r: Oid, n: nat)
    requires n <= |subs| && !Seen(subs, n, r)
    ensures Committed(sh, st, subs, r, n) == st
  {
    if n > 0 {
      SeenNext(subs, n - 1);
      Untouched(sh, st, subs, r, n - 1);
    }
  }

  lemma {:induction false} LookServed(sh: Shape, rows: map<Oid, Row>, subs: seq<Sub>, r: Oid)
    ensures Look(Served(sh, rows, subs), r) == After(sh, rows, subs, r)
  {
    hide Committed;
    if r !in rows && !Seen(subs, |subs|, r) {
      Untouched(sh, Start(rows, subs, r), subs, r, |subs|);
    }
  }

  lemma {:induction false} ServedIs(sh: Shape, rows: map<Oid, Row>, subs: seq<Sub>, rows': map<Oid, Row>)
    requires forall r :: Look(rows', r) == After(sh, rows, subs, r)
    ensures rows' == Served(sh, rows, subs)
  {
    hide After;
    forall r ensures Look(rows', r) == Look(Served(sh, rows, subs), r) {
      LookServed(sh, rows, subs, r);
    }
    forall r ensures r in rows' <==> r in Served(sh, rows, subs) {
      assert Look(rows', r) == Look(Served(sh, rows, subs), r);
    }
    forall r | r in rows' ensures rows'[r] == Served(sh, rows, subs)[r] {
      assert Look(rows', r) == Look(Served(sh, rows, subs), r);
    }
  }

  lemma {:induction false} SeenNext(subs: seq<Sub>, n: nat)
    requires n < |subs|
    ensures forall r :: Seen(subs, n + 1, r) <==> Seen(subs, n, r) || r == subs[n].index
  {
    forall r | Seen(subs, n, r) || r == subs[n].index ensures Seen(subs, n + 1, r) {
      if r != subs[n].index {
        var k :| 0 <= k < n && subs[k].index == r;
      }
    }
  }

  // One of the first n sub-requests destroys row r, which was not active.
  ghost predicate DropsBefore(rows: map<Oid, Row>, subs: seq<Sub>, n: int, r: Oid) {
    && r in rows && (rows[r].status == ROW_NOT_IN_SERVICE || rows[r].status == ROW_NOT_READY)
    && exists j :: 0 <= j < n && j < |subs| && subs[j] == Sub(r, Status(ROW_DESTROY))
  }

  lemma {:induction false} NothingDropped(rows: map<Oid, Row>, subs: seq<Sub>)
    ensures forall r :: !DropsBefore(rows, subs, 0, r)
  {
  }

  lemma {:induction false} DropsNext(rows: map<Oid, Row>, subs: seq<Sub>, n: nat)
    requires n < |subs|
    ensures Dropped(rows, subs, n) <==> DropsBefore(rows, subs, n, subs[n].index)
    ensures forall r :: DropsBefore(rows, subs, n + 1, r) <==>
      DropsBefore(rows, subs, n, r) || (subs[n] == Sub(r, Status(ROW_DESTROY)) && r in rows
        && (rows[r].status == ROW_NOT_IN_SERVICE || rows[r].status == ROW_NOT_READY))
  {
    forall r | DropsBefore(rows, subs, n, r) ensures DropsBefore(rows, subs, n + 1, r) {
      var j :| 0 <= j < n && subs[j] == Sub(r, Status(ROW_DESTROY));
    }
    forall r | r in rows && subs[n] == Sub(r, Status(ROW_DESTROY))
      ensures exists j :: 0 <= j < n + 1 && subs[j] == Sub(r, Status(ROW_DESTROY))
    {
    }
  }

  // A row that did not exist has been created as soon as a sub-request for it was
  // committed, and then exists to the end.
  lemma {:induction false} NewRowLocked(sh: Shape, rows: map<Oid, Row>, subs: seq<Sub>, r: Oid, n: nat)
    requires n <= |subs| && r !in rows
    requires forall k :: 0 <= k < n && subs[k].index == r ==> Commits(sh, rows, subs, k)
    ensures Committed(sh, Start(rows, subs, r), subs, r, n)
      == if Ignored(rows, subs, r) then RowState(None, false, true)
         else if Seen(subs, n, r) then RowState(Some(Created(sh, subs, r)), true, false)
         else RowState(None, false, false)
  {
    hide FirstStatus, Created, Destroys, LastStatus, Changed;
    if n > 0 {
      NewRowLocked(sh, rows, subs, r, n - 1);
      SeenNext(subs, n - 1);
    }
  }


  /* What a request does to a row. */

  predicate Serving(status: int) {
    status == ROW_ACTIVE || status == ROW_NOT_IN_SERVICE
  }

  predicate InUse(row: Row) {
    Serving(row.status)
  }

  // The status of a row tells exactly whether the row is complete. A row that was
  // destroyed while it was active can come back with the status destroy.
  ghost predicate Sound(sh: Shape, row: Row) {
    && |row.cells| == |sh.cols|
    && (InUse(row) || row.status == ROW_NOT_READY || row.status == ROW_DESTROY)
    && (InUse(row) ==> Ready(sh, row.cells))
    && (row.status == ROW_NOT_READY ==> !Ready(sh, row.cells))
  }

  ghost predicate AllSound(sh: Shape, rows: map<Oid, Row>) {
    forall r :: r in rows ==> Sound(sh, rows[r])
  }

  // The status of an existing row during the commit phase as the statuses alone tell it:
  // the last one stored. made: the row was destroyed and created again.
  datatype Track = Track(status: Option<int>, made: bool)

  function Tracked(cur: int, subs: seq<Sub>, r: Oid, n: nat): Track
    requires n <= |subs|
  {
    if n == 0 then Track(Some(cur), false)
    else
      var t, i, last := Tracked(cur, subs, r, n - 1), n - 1, LastStatus(subs, r);
      if subs[i].index != r || (t.made && (subs[i].target.Cell? || i == last)) then t
      else if t.status.None? then Track(Some(if last < 0 then ROW_EMPTY else Stored(subs[last].target.v)), true)
      else match subs[i].target
        case Cell(_, _) => t
        case Status(v) => t.(status := if v == ROW_DESTROY then None else Some(Stored(v)))
  }

  // The request names row r so that the result is sound: if it creates the row, or creates
  // it again after destroying it, and the last stored status puts the row in use, then the
  // assignments have to complete a new row.
  ghost predicate Safe(sh: Shape, rows: map<Oid, Row>, subs: seq<Sub>, r: Oid) {
    var last, complete := LastStatus(subs, r), Ready(sh, Overlay(NewCells(sh), subs, r));
    if r in rows then
      var t := Tracked(rows[r].status, subs, r, |subs|);
      t.made && t.status.Some? && Serving(t.status.value) ==> complete
    else
      last >= 0 && !Destroys(subs, r) && Serving(Stored(subs[last].target.v)) ==> complete
  }

  lemma {:induction false} OverlayNext(cells: seq<Leaf>, subs: seq<Sub>, r: Oid, n: nat)
    requires n < |subs|
    ensures var (o, s) := (Overlay(cells, subs[..n], r), subs[n]);
      Overlay(cells, subs[..n + 1], r)
        == if s.index == r && s.target.Cell? && s.target.col < |o| then
             o[s.target.col := Leaf(s.target.value, true)]
           else o
  {
    assert subs[..n + 1][..n] == subs[..n];
  }

  lemma {:induction false} NoOverlay(cells: seq<Leaf>, subs: seq<Sub>, r: Oid)
    requires subs == []
    ensures Overlay(cells, subs, r) == cells
  {
  }

  // Acceptable values keep a complete row complete.
  lemma {:induction false} ReadyOverlay(sh: Shape, cells: seq<Leaf>, subs: seq<Sub>, r: Oid, n: nat)
    requires n <= |subs| && Ready(sh, Overlay(cells, subs[..n], r))
    requires forall k :: 0 <= k < |subs| && subs[k].index == r && subs[k].target.Cell? ==>
      CellOk(sh, subs[k]) && sh.valid(subs[k].target.col, subs[k].target.value)
    ensures Ready(sh, Overlay(cells, subs, r))
    decreases |subs| - n
  {
    if n < |subs| {
      OverlayNext(cells, subs, r, n);
      ReadyOverlay(sh, cells, subs, r, n + 1);
    } else {
      assert subs[..n] == subs;
    }
  }

  // The statuses that prepare accepts for an existing row.
  lemma {:induction false} OldStatus(sh: Shape, rows: map<Oid, Row>, subs: seq<Sub>, votes: nat -> bool, k: nat)
    requires k < |subs| && subs[k].index in rows && subs[k].target.Status?
    requires RowDone(sh, rows, subs, votes, subs[k].index) && Sound(sh, rows[subs[k].index])
    ensures Serving(subs[k].target.v) || subs[k].target.v == ROW_DESTROY
    ensures Serving(subs[k].target.v) ==> rows[subs[k].index].status != ROW_DESTROY
    ensures Serving(subs[k].target.v) && rows[subs[k].index].status != ROW_ACTIVE ==>
      Ready(sh, Overlay(rows[subs[k].index].cells, subs, subs[k].index))
  {
    hide Overlay, Ready, Dropped;
    assert Passes(sh, rows, subs, votes, k);
  }

  // An existing row during the commit phase.
  ghost predicate Follows(sh: Shape, row: Row, st: RowState, t: Track, subs: seq<Sub>, r: Oid, n: nat)
    requires n <= |subs|
  {
    && st.made == t.made && !st.over && st.row.Some? == t.status.Some?
    && (t.status.None? ==> LastStatus(subs, r) >= 0)
    && (t.status.Some? ==>
      var cells := if t.made then Overlay(NewCells(sh), subs, r) else Overlay(row.cells, subs[..n], r);
      && (t.made ==> t.status.value != ROW_NOT_READY)
      && (Serving(t.status.value) || t.status.value == ROW_DESTROY || t.status.value == row.status)
      && st.row.value == Upgraded(sh, Row(t.status.value, cells)))
  }

  ghost predicate KeepsReady(sh: Shape, c: nat, v: int) {
    c < |sh.cols| && forall cells :: Ready(sh, cells) ==> Ready(sh, cells[c := Leaf(v, true)])
  }

  // An accepted value does not make a complete row incomplete.
  lemma {:induction false} OldValue(sh: Shape, rows: map<Oid, Row>, subs: seq<Sub>, votes: nat -> bool, k: nat)
    requires k < |subs| && subs[k].index in rows && subs[k].target.Cell?
    requires RowDone(sh, rows, subs, votes, subs[k].index)
    ensures CellOk(sh, subs[k]) && sh.valid(subs[k].target.col, subs[k].target.value)
    ensures KeepsReady(sh, subs[k].target.col, subs[k].target.value)
  {
    assert Passes(sh, rows, subs, votes, k);
    assert Commits(sh, rows, subs, k);
  }

  lemma {:induction false} FollowsNext(sh: Shape, row: Row, st: RowState, subs: seq<Sub>, r: Oid, i: nat)
    requires i < |subs| && Follows(sh, row, st, Tracked(row.status, subs, r, i), subs, r, i)
    requires forall k :: 0 <= k < |subs| && subs[k].index == r && subs[k].target.Status? ==>
      Serving(subs[k].target.v) || subs[k].target.v == ROW_DESTROY
    requires subs[i].index == r && subs[i].target.Cell? ==> KeepsReady(sh, subs[i].target.col, subs[i].target.value)
    ensures Follows(sh, row, CommitRow(sh, st, subs, r, i), Tracked(row.status, subs, r, i + 1), subs, r, i + 1)
  {
    hide Overlay, Ready, NewCells;
    OverlayNext(row.cells, subs, r, i);
  }

  lemma {:induction false} OldRowFollows(sh: Shape, rows: map<Oid, Row>, subs: seq<Sub>, votes: nat -> bool, r: Oid,
      n: nat)
    requires r in rows && Sound(sh, rows[r]) && RowDone(sh, rows, subs, votes, r) && n <= |subs|
    ensures Follows(sh, rows[r], Committed(sh, Start(rows, subs, r), subs, r, n),
                    Tracked(rows[r].status, subs, r, n), subs, r, n)
  {
    hide Overlay, Ready, RowDone, Destroys, FirstStatus, LastStatus;
    if n == 0 {
      NoOverlay(rows[r].cells, subs[..0], r);
    } else {
      hide Follows, Tracked, CommitRow;
      OldRowFollows(sh, rows, subs, votes, r, n - 1);
      forall k | 0 <= k < |subs| && subs[k].index == r && subs[k].target.Status?
        ensures Serving(subs[k].target.v) || subs[k].target.v == ROW_DESTROY
      {
        OldStatus(sh, rows, subs, votes, k);
      }
      if subs[n - 1].index == r && subs[n - 1].target.Cell? {
        OldValue(sh, rows, subs, votes, n - 1);
      }
      FollowsNext(sh, rows[r], Committed(sh, Start(rows, subs, r), subs, r, n - 1), subs, r, n - 1);
    }
  }

  // An existing row that has not been created again has its old status or one of the request.
  lemma {:induction false} TrackOrigin(cur: int, subs: seq<Sub>, r: Oid, n: nat)
    requires n <= |subs|
    ensures var t := Tracked(cur, subs, r, n); !t.made && t.status.Some? ==>
      || t.status.value == cur
      || exists k ::
          && 0 <= k < n && subs[k].index == r && subs[k].target.Status?
          && t.status.value == Stored(subs[k].target.v)
  {
    if n > 0 {
      TrackOrigin(cur, subs, r, n - 1);
    }
  }

  lemma {:induction false} OldRowSound(sh: Shape, rows: map<Oid, Row>, subs: seq<Sub>, votes: nat -> bool, r: Oid)
    requires r in rows && Sound(sh, rows[r]) && RowDone(sh, rows, subs, votes, r)
    ensures var a := After(sh, rows, subs, r);
      && ((a.Some? ==> Sound(sh, a.value)) <==> Safe(sh, rows, subs, r))
      && (a.Some? ==>
        a.value.cells == Overlay(NewCells(sh), subs, r) || a.value.cells == Overlay(rows[r].cells, subs, r))
      && (a.Some? && InUse(rows[r]) ==> a.value.status != ROW_NOT_READY)
  {
    hide Overlay, Ready, Destroys, CellOk, Committed, Tracked;
    var row, t := rows[r], Tracked(rows[r].status, subs, r, |subs|);
    OldRowFollows(sh, rows, subs, votes, r, |subs|);
    assert subs[..|subs|] == subs;
    if t.status.Some? && !t.made {
      TrackOrigin(row.status, subs, r, |subs|);
      if InUse(row) {
        NoOverlay(row.cells, subs[..0], r);
        forall k | 0 <= k < |subs| && subs[k].index == r && subs[k].target.Cell?
          ensures CellOk(sh, subs[k]) && sh.valid(subs[k].target.col, subs[k].target.value)
        {
          OldValue(sh, rows, subs, votes, k);
        }
        ReadyOverlay(sh, row.cells, subs, r, 0);
      }
      if t.status.value != row.status {
        var k :|
          && 0 <= k < |subs| && subs[k].index == r && subs[k].target.Status?
          && t.status.value == Stored(subs[k].target.v);
        OldStatus(sh, rows, subs, votes, k);
      }
    }
  }

  lemma {:induction false} FirstSeen(subs: seq<Sub>, n: nat, r: Oid) returns (k: nat)
    requires Seen(subs, n, r)
    ensures k < n && k < |subs| && subs[k].index == r && !Seen(subs, k, r)
  {
    k := 0;
    while subs[k].index != r
      invariant k < n && k < |subs| && !Seen(subs, k, r)
      decreases n - k
    {
      SeenNext(subs, k);
      k := k + 1;
    }
  }

  // A row that did not exist is sound after the request exactly if the request is safe for it.
  lemma {:induction false} NewRowSound(sh: Shape, rows: map<Oid, Row>, subs: seq<Sub>, votes: nat -> bool, r: Oid)
    requires r !in rows && RowDone(sh, rows, subs, votes, r)
    ensures var a, last := After(sh, rows, subs, r), LastStatus(subs, r);
      && (a.None? <==> last < 0 || Destroys(subs, r))
      && ((a.Some? ==> Sound(sh, a.value)) <==> Safe(sh, rows, subs, r))
      && (a.Some? ==> a.value.cells == Overlay(NewCells(sh), subs, r) && sh.indexOk(r) && NewRowOk(sh, subs, r))
      && (a.Some? ==> a.value == Upgraded(sh, Row(Stored(subs[last].target.v), a.value.cells)))
  {
    hide Overlay, Ready, Destroys, CellOk, Committed;
    NewRowLocked(sh, rows, subs, r, |subs|);
    var last := LastStatus(subs, r);
    if Seen(subs, |subs|, r) {
      var k := FirstSeen(subs, |subs|, r);
      assert Passes(sh, rows, subs, votes, k);
    } else {
      assert last < 0;
    }
  }

  lemma {:induction false} ServedSound(sh: Shape, rows: map<Oid, Row>, subs: seq<Sub>, votes: nat -> bool)
    requires AllSound(sh, rows) && Accepted(sh, rows, subs, votes) && AllCommit(sh, rows, subs)
    ensures AllSound(sh, Served(sh, rows, subs)) <==> forall r :: Safe(sh, rows, subs, r)
    ensures forall r :: r in rows && InUse(rows[r]) && r in Served(sh, rows, subs) ==>
      Served(sh, rows, subs)[r].status != ROW_NOT_READY
  {
    hide Sound, Safe, After, Accepted, AllCommit, Served, RowDone;
    DoneByRow(sh, rows, subs, votes);
    var rows' := Served(sh, rows, subs);
    forall r ensures (r in rows' ==> Sound(sh, rows'[r])) <==> Safe(sh, rows, subs, r)
      ensures r in rows && InUse(rows[r]) && r in rows' ==> rows'[r].status != ROW_NOT_READY
    {
      LookServed(sh, rows, subs, r);
      assert Look(rows', r) == After(sh, rows, subs, r);
      if r in rows {
        OldRowSound(sh, rows, subs, votes, r);
      } else {
        NewRowSound(sh, rows, subs, votes, r);
      }
    }
  }

  /* Requests that name each status at most once. */

  // A sub-request for row r between positions f and n.
  ghost predicate Later(subs: seq<Sub>, r: Oid, f: int, n: int) {
    exists k :: 0 <= k && f < k < n && k < |subs| && subs[k].index == r
  }

  // The step of row r: created, changed, promoted when complete, or destroyed. A destroyed
  // row comes back, with the status destroy, exactly if a later sub-request names it; prepare
  // accepts that only if it was active or has come back in this way before.
  ghost predicate RowStep(sh: Shape, before: Option<Row>, after: Option<Row>, subs: seq<Sub>, r: Oid) {
    var f, blank := FirstStatus(subs, r), Overlay(NewCells(sh), subs, r);
    match before
    case None =>
      if f < 0 || subs[f].target.v == ROW_DESTROY then after == None
      else if subs[f].target.v == ROW_CREATE_AND_GO then after == Some(Row(ROW_ACTIVE, blank))
      else after == Some(Row(if Ready(sh, blank) then ROW_NOT_IN_SERVICE else ROW_NOT_READY, blank))
    case Some(row) =>
      var cells, later := Overlay(row.cells, subs, r), Later(subs, r, f, |subs|);
      if f < 0 then
        var status := if row.status == ROW_NOT_READY && Ready(sh, cells) then ROW_NOT_IN_SERVICE else row.status;
        after == Some(Row(status, cells))
      else if subs[f].target.v == ROW_DESTROY then
        && after == (if later then Some(Row(ROW_DESTROY, blank)) else None)
        && (later ==> row.status == ROW_ACTIVE || row.status == ROW_DESTROY)
      else after == Some(Row(subs[f].target.v, cells))
  }

  lemma {:induction false} OnlyStatus(subs: seq<Sub>, r: Oid)
    requires OneStatusOf(subs, r)
    ensures LastStatus(subs, r) == FirstStatus(subs, r)
  {
    var f, l := FirstStatus(subs, r), LastStatus(subs, r);
    assert !(0 <= f < l);
  }

  lemma {:induction false} OneTrack(cur: int, subs: seq<Sub>, r: Oid, n: nat)
    requires OneStatusOf(subs, r) && n <= |subs|
    ensures var f := FirstStatus(subs, r);
      Tracked(cur, subs, r, n) ==
        if f < 0 || n <= f then Track(Some(cur), false)
        else if subs[f].target.v != ROW_DESTROY then Track(Some(Stored(subs[f].target.v)), false)
        else if Later(subs, r, f, n) then Track(Some(ROW_DESTROY), true)
        else Track(None, false)
  {
    hide OneStatusOf, FirstStatus;
    if n > 0 {
      OneTrack(cur, subs, r, n - 1);
      OnlyStatus(subs, r);
      var f := FirstStatus(subs, r);
      if f >= 0 && f < n - 1 && subs[n - 1].index == r {
        assert Later(subs, r, f, n);
      }
      if Later(subs, r, f, n - 1) {
        var k :| 0 <= k && f < k < n - 1 && k < |subs| && subs[k].index == r;
        assert Later(subs, r, f, n);
      }
    }
  }

  // Such a request is safe for every row and takes it through its step.
  lemma {:induction false} OneStep(sh: Shape, rows: map<Oid, Row>, subs: seq<Sub>, votes: nat -> bool, r: Oid)
    requires OneStatus(subs) && AllSound(sh, rows) && Accepted(sh, rows, subs, votes) && AllCommit(sh, rows, subs)
    ensures Safe(sh, rows, subs, r)
    ensures RowStep(sh, Look(rows, r), After(sh, rows, subs, r), subs, r)
  {
    hide Accepted, AllCommit, RowDone, Safe, RowStep, After, Sound;
    DoneByRow(sh, rows, subs, votes);
    OneStepOf(sh, rows, subs, votes, r);
  }

  // It is enough that the request names the status of this row once.
  lemma {:induction false} OneStepOf(sh: Shape, rows: map<Oid, Row>, subs: seq<Sub>, votes: nat -> bool, r: Oid)
    requires OneStatusOf(subs, r) && RowDone(sh, rows, subs, votes, r) && (r in rows ==> Sound(sh, rows[r]))
    ensures Safe(sh, rows, subs, r)
    ensures RowStep(sh, Look(rows, r), After(sh, rows, subs, r), subs, r)
  {
    hide OneStatusOf, Overlay, Ready, Committed, LastStatus, FirstStatus, Tracked;
    OnlyStatus(subs, r);
    var f := FirstStatus(subs, r);
    if r in rows {
      OneTrack(rows[r].status, subs, r, |subs|);
      OldRowFollows(sh, rows, subs, votes, r, |subs|);
      assert subs[..|subs|] == subs;
      if f >= 0 {
        OldStatus(sh, rows, subs, votes, f);
        if Later(subs, r, f, |subs|) {
          var k :| 0 <= k && f < k < |subs| && subs[k].index == r;
          assert Passes(sh, rows, subs, votes, k) && subs[f] == Sub(r, Status(subs[f].target.v));
        }
      }
    } else {
      NewRowSound(sh, rows, subs, votes, r);
      if f >= 0 {
        var k := FirstSeen(subs, |subs|, r);
        assert Passes(sh, rows, subs, votes, k);
      }
    }
  }

  /* Two statuses for one row. */

  // Only the first status of a new row is checked against the values, the last is stored,
  // and an incomplete row becomes active.
  lemma {:induction false} TwoStatuses(sh: Shape, r: Oid)
    requires sh.indexOk(r) && !Ready(sh, NewCells(sh))
    ensures var subs := [Sub(r, Status(ROW_CREATE_AND_WAIT)), Sub(r, Status(ROW_ACTIVE))];
      && Accepted(sh, map[], subs, k => true) && AllCommit(sh, map[], subs) && !Safe(sh, map[], subs, r)
      && After(sh, map[], subs, r) == Some(Row(ROW_ACTIVE, NewCells(sh)))
  {
    hide Ready, NewCells;
    var subs := [Sub(r, Status(ROW_CREATE_AND_WAIT)), Sub(r, Status(ROW_ACTIVE))];
    StatusOnly(NewCells(sh), subs, r);
    assert FirstStatus(subs, r) == 0 && LastStatus(subs, r) == 1 && NewRowOk(sh, subs, r);
    assert Accepted(sh, map[], subs, k => true);
    NewRowSound(sh, map[], subs, k => true, r);
  }

  // An active row that is destroyed and named active again in the same request is active
  // with the values of a new row.
  lemma {:induction false} Revived(sh: Shape, row: Row, r: Oid)
    requires Sound(sh, row) && row.status == ROW_ACTIVE && !Ready(sh, NewCells(sh))
    ensures var (rows, subs) := (map[r := row], [Sub(r, Status(ROW_DESTROY)), Sub(r, Status(ROW_ACTIVE))]);
      && Accepted(sh, rows, subs, k => true) && AllCommit(sh, rows, subs) && !Safe(sh, rows, subs, r)
      && After(sh, rows, subs, r) == Some(Row(ROW_ACTIVE, NewCells(sh)))
  {
    hide Ready, NewCells;
    var rows, subs := map[r := row], [Sub(r, Status(ROW_DESTROY)), Sub(r, Status(ROW_ACTIVE))];
    StatusOnly(NewCells(sh), subs, r);
    StatusOnly(row.cells, subs, r);
    assert LastStatus(subs, r) == 1;
    assert Accepted(sh, rows, subs, k => true);
    OldRowFollows(sh, rows, subs, k => true, r, 2);
    assert Tracked(ROW_ACTIVE, subs, r, 1) == Track(None, false);
    assert Tracked(ROW_ACTIVE, subs, r, 2) == Track(Some(ROW_ACTIVE), true);
  }

  lemma {:induction false} StatusOnly(cells: seq<Leaf>, subs: seq<Sub>, r: Oid)
    requires forall k :: 0 <= k < |subs| ==> subs[k].target.Status?
    ensures Overlay(cells, subs, r) == cells
  {
    if subs != [] {
      StatusOnly(cells, subs[..|subs| - 1], r);
    }
  }

  /* Runs: which tables never take a row into service before its required columns are set. */

  datatype Request = Request(subs: seq<Sub>, votes: nat -> bool)

  // Requests that are accepted, committed and safe, one after the other; refused ones
  // change nothing.
  ghost predicate Run(sh: Shape, rows: map<Oid, Row>, reqs: seq<Request>, rows': map<Oid, Row>)
    decreases |reqs|
  {
    if reqs == [] then rows == rows'
    else
      && Accepted(sh, rows, reqs[0].subs, reqs[0].votes) && AllCommit(sh, rows, reqs[0].subs)
      && (forall r :: Safe(sh, rows, reqs[0].subs, r))
      && Run(sh, Served(sh, rows, reqs[0].subs), reqs[1..], rows')
  }

  // A value that a request can give to column c.
  predicate Settable(sh: Shape, c: nat, v: int) {
    c < |sh.cols| && Writable(sh.cols[c]) && sh.valid(c, v) && sh.ok(c, v)
  }

  // What is true of the cells of a row however it has come about.
  ghost predicate Grown(sh: Shape, cells: seq<Leaf>) {
    |cells| == |sh.cols| && forall c :: 0 <= c < |cells| ==>
      && (cells[c].value == sh.cols[c].initial || Settable(sh, c, cells[c].value))
      && (!cells[c].given ==> cells[c].value == sh.cols[c].initial)
  }

  ghost predicate AllGrown(sh: Shape, rows: map<Oid, Row>) {
    forall r :: r in rows ==> sh.indexOk(r) && Grown(sh, rows[r].cells)
  }

  lemma {:induction false} OverlayGrown(sh: Shape, cells: seq<Leaf>, subs: seq<Sub>, r: Oid)
    requires Grown(sh, cells)
    requires forall k :: 0 <= k < |subs| && subs[k].index == r && subs[k].target.Cell? ==>
      Settable(sh, subs[k].target.col, subs[k].target.value)
    ensures Grown(sh, Overlay(cells, subs, r))
  {
    if subs != [] {
      OverlayGrown(sh, cells, subs[..|subs| - 1], r);
    }
  }

  // Accepted and committed values of a row that results are values that can be given.
  lemma {:induction false} GivenValues(sh: Shape, rows: map<Oid, Row>, subs: seq<Sub>, votes: nat -> bool, r: Oid)
    requires RowDone(sh, rows, subs, votes, r)
    requires r in rows || (NewRowOk(sh, subs, r) && !Destroys(subs, r))
    ensures forall k :: 0 <= k < |subs| && subs[k].index == r && subs[k].target.Cell? ==>
      Settable(sh, subs[k].target.col, subs[k].target.value)
  {
    forall k | 0 <= k < |subs| && subs[k].index == r && subs[k].target.Cell?
      ensures Settable(sh, subs[k].target.col, subs[k].target.value)
    {
      assert Commits(sh, rows, subs, k) && Passes(sh, rows, subs, votes, k);
    }
  }

  lemma {:induction false} ServedGrown(sh: Shape, rows: map<Oid, Row>, subs: seq<Sub>, votes: nat -> bool)
    requires AllSound(sh, rows) && AllGrown(sh, rows) && Accepted(sh, rows, subs, votes) && AllCommit(sh, rows, subs)
    ensures AllGrown(sh, Served(sh, rows, subs))
  {
    hide Sound, Safe, After, Accepted, AllCommit, Served, NewRowOk, Grown, Overlay, Destroys, RowDone;
    DoneByRow(sh, rows, subs, votes);
    var rows' := Served(sh, rows, subs);
    forall r | r in rows' ensures sh.indexOk(r) && Grown(sh, rows'[r].cells) {
      LookServed(sh, rows, subs, r);
      assert Look(rows', r) == After(sh, rows, subs, r);
      if r in rows {
        OldRowSound(sh, rows, subs, votes, r);
        GivenValues(sh, rows, subs, votes, r);
        OverlayGrown(sh, rows[r].cells, subs, r);
      } else {
        NewRowSound(sh, rows, subs, votes, r);
        GivenValues(sh, rows, subs, votes, r);
      }
      NewGrown(sh);
      OverlayGrown(sh, NewCells(sh), subs, r);
    }
  }

  lemma {:induction false} NewGrown(sh: Shape)
    ensures Grown(sh, NewCells(sh))
  {
  }

  lemma {:induction false} RunKeeps(sh: Shape, rows: map<Oid, Row>, reqs: seq<Request>, rows': map<Oid, Row>)
    requires AllSound(sh, rows) && AllGrown(sh, rows) && Run(sh, rows, reqs, rows')
    ensures AllSound(sh, rows') && AllGrown(sh, rows')
    decreases |reqs|
  {
    hide Sound, Safe, Accepted, AllCommit, Served, Grown;
    if reqs != [] {
      var q := reqs[0];
      ServedSound(sh, rows, q.subs, q.votes);
      ServedGrown(sh, rows, q.subs, q.votes);
      RunKeeps(sh, Served(sh, rows, q.subs), reqs[1..], rows');
    }
  }

  // Some row can be created, the clone of some required column is as good as a value, and
  // every other column is acceptable or can be made so.
  ghost predicate Careless(sh: Shape) {
    && (exists r :: sh.indexOk(r))
    && (exists c: nat :: Clone(sh, c))
    && forall c :: 0 <= c < |sh.cols| ==> Fixable(sh, c)
  }

  ghost predicate Clone(sh: Shape, c: nat) {
    c < |sh.cols| && Required(sh.cols[c]) && LeafOk(sh, c, sh.cols[c].initial)
  }

  ghost predicate Fixable(sh: Shape, c: nat)
    requires c < |sh.cols|
  {
    LeafOk(sh, c, sh.cols[c].initial) || exists v :: Settable(sh, c, v)
  }

  ghost predicate Complete(sh: Shape, rows: map<Oid, Row>) {
    forall r :: r in rows && InUse(rows[r]) ==> AllGiven(sh, rows[r].cells)
  }

  // A row in use without a required value gives away such a table.
  lemma {:induction false} MissingValue(sh: Shape, rows: map<Oid, Row>, r: Oid)
    requires AllSound(sh, rows) && AllGrown(sh, rows) && r in rows && InUse(rows[r]) && !AllGiven(sh, rows[r].cells)
    ensures Careless(sh)
  {
    var cells := rows[r].cells;
    var c :| 0 <= c < |cells| && Required(sh.cols[c]) && !cells[c].given;
    assert Clone(sh, c);
    forall d | 0 <= d < |sh.cols| ensures Fixable(sh, d) {
      assert LeafOk(sh, d, cells[d].value);
    }
  }

  // The assignments to the first n columns whose initial values are not acceptable.
  ghost function Fixes(sh: Shape, r: Oid, n: nat): (subs: seq<Sub>)
    requires n <= |sh.cols| && forall c :: 0 <= c < |sh.cols| ==> Fixable(sh, c)
    ensures forall k :: 0 <= k < |subs| ==>
      subs[k].index == r && subs[k].target.Cell? && Settable(sh, subs[k].target.col, subs[k].target.value)
  {
    if n == 0 then []
    else
      var c := n - 1;
      if LeafOk(sh, c, sh.cols[c].initial) then Fixes(sh, r, c)
      else
        assert Fixable(sh, c);
        var v :| Settable(sh, c, v);
        Fixes(sh, r, c) + [Sub(r, Cell(c, v))]
  }

  lemma {:induction false} FixesComplete(sh: Shape, r: Oid, n: nat)
    requires n <= |sh.cols| && forall c :: 0 <= c < |sh.cols| ==> Fixable(sh, c)
    ensures var o := Overlay(NewCells(sh), Fixes(sh, r, n), r); forall c :: 0 <= c < |sh.cols| ==>
      && (c >= n || LeafOk(sh, c, sh.cols[c].initial) ==> o[c] == NewCells(sh)[c])
      && (c < n ==> LeafOk(sh, c, o[c].value))
  {
    hide Overlay, LeafOk;
    if n == 0 {
      NoOverlay(NewCells(sh), [], r);
    } else {
      FixesComplete(sh, r, n - 1);
      if !LeafOk(sh, n - 1, sh.cols[n - 1].initial) {
        var subs := Fixes(sh, r, n);
        var m := |subs| - 1;
        assert subs[..m] == Fixes(sh, r, n - 1) && subs[..m + 1] == subs;
        OverlayNext(NewCells(sh), subs, r, m);
        SettableOk(sh, n - 1, subs[m].target.value);
      }
    }
  }

  lemma {:induction false} SettableOk(sh: Shape, c: nat, v: int)
    requires Settable(sh, c, v)
    ensures LeafOk(sh, c, v)
  {
  }

  lemma {:induction false} ServedOne(sh: Shape, rows: map<Oid, Row>, subs: seq<Sub>, r: Oid)
    requires rows.Keys <= {r} && (forall k :: 0 <= k < |subs| ==> subs[k].index == r) && After(sh, rows, subs, r).Some?
    ensures Served(sh, rows, subs) == map[r := After(sh, rows, subs, r).value]
  {
    hide Committed;
    forall q | q != r ensures q !in Served(sh, rows, subs) {
      LookServed(sh, rows, subs, q);
      Untouched(sh, Start(rows, subs, q), subs, q, |subs|);
    }
    LookServed(sh, rows, subs, r);
  }

  lemma {:induction false} WaitingRow(sh: Shape, r: Oid, votes: nat -> bool)
    requires sh.indexOk(r) && forall k :: votes(k)
    ensures var subs := [Sub(r, Status(ROW_CREATE_AND_WAIT))];
      && OneStatus(subs) && Accepted(sh, map[], subs, votes) && AllCommit(sh, map[], subs)
      && Served(sh, map[], subs)
        == map[r := Row(if Ready(sh, NewCells(sh)) then ROW_NOT_IN_SERVICE else ROW_NOT_READY, NewCells(sh))]
  {
    hide Ready, NewCells;
    var subs := [Sub(r, Status(ROW_CREATE_AND_WAIT))];
    StatusOnly(NewCells(sh), subs, r);
    assert FirstStatus(subs, r) == 0 && NewRowOk(sh, subs, r) && OneStatus(subs);
    assert Accepted(sh, map[], subs, votes);
    OneStep(sh, map[], subs, votes, r);
    ServedOne(sh, map[], subs, r);
  }

  // Values for columns of a row that is not active are accepted and committed.
  lemma {:induction false} ValuesAccepted(sh: Shape, rows: map<Oid, Row>, subs: seq<Sub>, votes: nat -> bool)
    requires forall k :: 0 <= k < |subs| ==>
      && subs[k].index in rows && rows[subs[k].index].status != ROW_ACTIVE && subs[k].target.Cell?
      && Settable(sh, subs[k].target.col, subs[k].target.value)
    ensures OneStatus(subs) && Accepted(sh, rows, subs, votes) && AllCommit(sh, rows, subs)
  {
    hide Ready, Overlay;
  }

  lemma {:induction false} FixedRow(sh: Shape, r: Oid, row: Row, subs: seq<Sub>, votes: nat -> bool)
    requires Sound(sh, row) && (row.status == ROW_NOT_IN_SERVICE || row.status == ROW_NOT_READY)
    requires forall k :: 0 <= k < |subs| ==>
      subs[k].index == r && subs[k].target.Cell? && Settable(sh, subs[k].target.col, subs[k].target.value)
    requires Ready(sh, Overlay(row.cells, subs, r))
    ensures var rows := map[r := row];
      && OneStatus(subs) && Accepted(sh, rows, subs, votes) && AllCommit(sh, rows, subs)
      && Served(sh, rows, subs) == map[r := Row(ROW_NOT_IN_SERVICE, Overlay(row.cells, subs, r))]
  {
    var rows := map[r := row];
    ValuesAccepted(sh, rows, subs, votes);
    hide Ready, Overlay, FirstStatus, OneStatus, Accepted, AllCommit, Served, After, Settable, Safe;
    OneStep(sh, rows, subs, votes, r);
    assert FirstStatus(subs, r) < 0;
    ServedOne(sh, rows, subs, r);
  }

  lemma {:induction false} ActiveRow(sh: Shape, r: Oid, cells: seq<Leaf>, votes: nat -> bool)
    requires Ready(sh, cells) && forall k :: votes(k)
    ensures var (rows, subs) := (map[r := Row(ROW_NOT_IN_SERVICE, cells)], [Sub(r, Status(ROW_ACTIVE))]);
      && OneStatus(subs) && Accepted(sh, rows, subs, votes) && AllCommit(sh, rows, subs)
      && Served(sh, rows, subs) == map[r := Row(ROW_ACTIVE, cells)]
  {
    var rows, subs := map[r := Row(ROW_NOT_IN_SERVICE, cells)], [Sub(r, Status(ROW_ACTIVE))];
    StatusOnly(cells, subs, r);
    assert FirstStatus(subs, r) == 0 && OneStatus(subs) && Accepted(sh, rows, subs, votes);
    OneStep(sh, rows, subs, votes, r);
    ServedOne(sh, rows, subs, r);
  }

  // createAndWait, values for the other columns, active: the row is in service although
  // required column c was never set.
  lemma {:induction false} NeverSet(sh: Shape, r: Oid, c: nat, votes: nat -> bool)
    returns (reqs: seq<Request>, row: Row)
    requires (forall k :: votes(k)) && sh.indexOk(r) && Clone(sh, c)
    requires forall d :: 0 <= d < |sh.cols| ==> Fixable(sh, d)
    ensures Run(sh, map[], reqs, map[r := row]) && row.status == ROW_ACTIVE && |row.cells| == |sh.cols|
    ensures !row.cells[c].given
  {
    hide Accepted, AllCommit, Served, Safe, Overlay, Fixes, OneStatus, Fixable;
    var subs0, subs1 := [Sub(r, Status(ROW_CREATE_AND_WAIT))], Fixes(sh, r, |sh.cols|);
    var subs2 := [Sub(r, Status(ROW_ACTIVE))];
    WaitingRow(sh, r, votes);
    var rows1 := Served(sh, map[], subs0);
    FixesComplete(sh, r, |sh.cols|);
    FixedRow(sh, r, rows1[r], subs1, votes);
    var rows2 := Served(sh, rows1, subs1);
    ActiveRow(sh, r, rows2[r].cells, votes);
    var rows3 := Served(sh, rows2, subs2);
    AllSafe(sh, map[], subs0, votes);
    AllSafe(sh, rows1, subs1, votes);
    AllSafe(sh, rows2, subs2, votes);
    reqs, row := [Request(subs0, votes), Request(subs1, votes), Request(subs2, votes)], rows3[r];
    assert Run(sh, rows3, [], rows3);
    assert reqs[2..] == [reqs[2]] && reqs[2..][1..] == [];
    assert Run(sh, rows2, reqs[2..], rows3);
    assert reqs[1..][1..] == reqs[2..];
    assert Run(sh, rows1, reqs[1..], rows3);
  }

  lemma {:induction false} AllSafe(sh: Shape, rows: map<Oid, Row>, subs: seq<Sub>, votes: nat -> bool)
    requires OneStatus(subs) && AllSound(sh, rows) && Accepted(sh, rows, subs, votes) && AllCommit(sh, rows, subs)
    ensures forall r :: Safe(sh, rows, subs, r)
  {
    hide OneStatus, AllSound, Accepted, AllCommit, Safe;
    forall r ensures Safe(sh, rows, subs, r) {
      OneStep(sh, rows, subs, votes, r);
    }
  }

  // In every run all rows in use have been given all required values, exactly unless a
  // clone is as good as a value and the rest of a row can be made acceptable.
  lemma {:induction false} RequiredGiven(sh: Shape)
    ensures (forall reqs, rows :: Run(sh, map[], reqs, rows) ==> Complete(sh, rows)) <==> !Careless(sh)
  {
    hide Run, Fixable;
    forall reqs: seq<Request>, rows: map<Oid, Row> | Run(sh, map[], reqs, rows) && !Careless(sh)
      ensures Complete(sh, rows)
    {
      RunKeeps(sh, map[], reqs, rows);
      forall r | r in rows && InUse(rows[r]) ensures AllGiven(sh, rows[r].cells) {
        if !AllGiven(sh, rows[r].cells) {
          MissingValue(sh, rows, r);
        }
      }
    }
    if Careless(sh) {
      var r :| sh.indexOk(r);
      var c: nat :| Clone(sh, c);
      var reqs, row := NeverSet(sh, r, c, k => true);
      assert Required(sh.cols[c]) && !AllGiven(sh, row.cells);
      var rows := map[r := row];
      assert Run(sh, map[], reqs, rows) && rows[r] == row && !Complete(sh, rows);
    }
  }
}
