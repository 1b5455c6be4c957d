/** The state table of RowStatus for requests with one status for a row. */
module RowTables {
  import opened Oids
  import opened Options
  import opened RowStatuses

  // Sub-request s is the only one for the status of row r.
  ghost predicate OnlyFor(subs: seq<Sub>, r: Oid, s: nat) {
    && s < |subs| && subs[s].index == r && subs[s].target.Status?
    && forall k :: 0 <= k < |subs| && k != s && subs[k].index == r ==> subs[k].target.Cell?
  }

  ghost predicate Assigns(subs: seq<Sub>, k: int, r: Oid, c: nat) {
    0 <= k < |subs| && subs[k].index == r && subs[k].target.Cell? && subs[k].target.col == c
  }

  // x is what the request leaves in column c of row r: the last value assigned, else the old one.
  ghost predicate Final(old_: Leaf, subs: seq<Sub>, r: Oid, c: nat, x: Leaf) {
    || (x == old_ && forall k :: !Assigns(subs, k, r, c))
    || exists k :: Assigns(subs, k, r, c) && x == Leaf(subs[k].target.value, true)
                   && forall j :: k < j ==> !Assigns(subs, j, r, c)
  }

  // The values of all columns allow the row to be in use: what can be written and has a
  // value has an acceptable one, and what is required has a value.
  ghost predicate Whole(sh: Shape, cells: seq<Leaf>) {
    |cells| == |sh.cols| && forall c :: 0 <= c < |cells| ==>
      var (col, v) := (sh.cols[c], cells[c].value);
      && ((col.access == ReadWrite || col.access == ReadCreate) && sh.valid(c, v) ==> sh.ok(c, v))
      && (col.access == ReadCreate && !col.hasDefault ==> sh.valid(c, v))
  }

  // The values assigned to row r can be stored, and the voters agree. A value of a new row
  // that is not created in the end need not be valid.
  ghost predicate Agreeable(sh: Shape, rows: map<Oid, Row>, subs: seq<Sub>, votes: nat -> bool, r: Oid, s: nat)
    requires OnlyFor(subs, r, s)
  {
    && (forall k, c: nat, v :: 0 <= k < |subs| && subs[k] == Sub(r, Cell(c, v)) ==>
          && c < |sh.cols| && (sh.cols[c].access == ReadWrite || sh.cols[c].access == ReadCreate) && sh.ok(c, v)
          && (r in rows || subs[s].target.v != ROW_DESTROY ==> sh.valid(c, v))
          && (r in rows ==> !(sh.cols[c].locked && rows[r].status == ROW_ACTIVE)))
    && (r in rows ==> votes(s))
    && (r !in rows ==> sh.indexOk(r) && exists k :: Foremost(sh, subs, votes, r, k))
  }

  // Sub-request k is the first one for row r; it names the status or a column that can be
  // created, and is voted for.
  ghost predicate Foremost(sh: Shape, subs: seq<Sub>, votes: nat -> bool, r: Oid, k: nat) {
    && k < |subs| && subs[k].index == r && votes(k) && (forall j :: 0 <= j < k ==> subs[j].index != r)
    && (subs[k].target.Cell? ==> subs[k].target.col < |sh.cols| && sh.cols[subs[k].target.col].access == ReadCreate)
  }

  // The table of section 2 of RFC 2579, with what the code makes of destroy when it is
  // followed by other sub-requests for the row, and of a row that has come back in this way.
  ghost predicate TableSays(sh: Shape, before: Option<Row>, subs: seq<Sub>, r: Oid, s: nat, cells: seq<Leaf>,
      blank: seq<Leaf>, done: bool, after: Option<Row>)
    requires OnlyFor(subs, r, s)
  {
    var v, later := subs[s].target.v, exists k :: s < k < |subs| && subs[k].index == r;
    match before
    case None =>
      if v == ROW_CREATE_AND_GO then
        && (done <==> Whole(sh, cells) && forall c :: 0 <= c < |sh.cols| ==>
              sh.cols[c].access == ReadCreate && !sh.cols[c].hasDefault ==> exists k :: Assigns(subs, k, r, c))
        && (done ==> after == Some(Row(ROW_ACTIVE, cells)))
      else if v == ROW_CREATE_AND_WAIT then
        done && after == Some(Row(if Whole(sh, cells) then ROW_NOT_IN_SERVICE else ROW_NOT_READY, cells))
      else if v == ROW_DESTROY then
        done && after == None
      else
        !done
    case Some(row) =>
      if v == ROW_ACTIVE || v == ROW_NOT_IN_SERVICE then
        && (done <==>
              || row.status == ROW_ACTIVE || row.status == ROW_NOT_IN_SERVICE
              || (row.status == ROW_NOT_READY && Whole(sh, cells)))
        && (done ==> after == Some(Row(v, cells)))
      else if v == ROW_DESTROY then
        && (done <==> row.status == ROW_ACTIVE || row.status == ROW_DESTROY || !later)
        && (done ==> after == if later then Some(Row(ROW_DESTROY, blank)) else None)
      else
        !done
  }

  lemma {:induction false} OverlayFinal(cells: seq<Leaf>, subs: seq<Sub>, r: Oid, c: nat)
    requires c < |cells|
    ensures Final(cells[c], subs, r, c, Overlay(cells, subs, r)[c])
  {
    if subs != [] {
      var n := |subs| - 1;
      OverlayFinal(cells, subs[..n], r, c);
      if Assigns(subs, n, r, c) {
        assert forall j :: n < j ==> !Assigns(subs, j, r, c);
      } else {
        assert forall k :: Assigns(subs, k, r, c) <==> Assigns(subs[..n], k, r, c);
      }
    }
  }

  lemma {:induction false} WholeReady(sh: Shape, cells: seq<Leaf>)
    ensures Whole(sh, cells) <==> Ready(sh, cells)
  {
  }

  lemma {:induction false} OnlyStatusIs(subs: seq<Sub>, r: Oid, s: nat)
    requires OnlyFor(subs, r, s)
    ensures FirstStatus(subs, r) == s == LastStatus(subs, r) && OneStatusOf(subs, r)
  {
  }

  // A new row has all required values exactly if the request assigns them.
  lemma {:induction false} GivenAssigned(sh: Shape, subs: seq<Sub>, r: Oid)
    ensures var cells := Overlay(NewCells(sh), subs, r);
      AllGiven(sh, cells) <==> forall c :: 0 <= c < |sh.cols| ==>
        sh.cols[c].access == ReadCreate && !sh.cols[c].hasDefault ==> exists k :: Assigns(subs, k, r, c)
  {
    var cells := Overlay(NewCells(sh), subs, r);
    forall c | 0 <= c < |sh.cols| && !sh.cols[c].hasDefault
      ensures cells[c].given <==> exists k :: Assigns(subs, k, r, c)
    {
      hide Overlay;
      OverlayFinal(NewCells(sh), subs, r, c);
    }
  }

  // What prepare accepts for a row that does not exist.
  lemma {:induction false} NewRowTable(sh: Shape, subs: seq<Sub>, r: Oid, s: nat)
    requires OnlyFor(subs, r, s)
    ensures var v, cells := subs[s].target.v, Overlay(NewCells(sh), subs, r);
      NewRowOk(sh, subs, r) <==>
        && (forall k :: 0 <= k < |subs| && subs[k].index == r ==> CellOk(sh, subs[k]))
        && (v == ROW_CREATE_AND_WAIT || v == ROW_DESTROY ||
            (v == ROW_CREATE_AND_GO && AllGiven(sh, cells) && Ready(sh, cells)))
  {
    hide Overlay, Ready, AllGiven, CellOk, FirstStatus;
    OnlyStatusIs(subs, r, s);
  }

  lemma {:induction false} NewRowChecked(sh: Shape, rows: map<Oid, Row>, subs: seq<Sub>, votes: nat -> bool, k: nat)
    requires k < |subs| && subs[k].index !in rows && !Seen(subs, k, subs[k].index)
    requires Passes(sh, rows, subs, votes, k)
    ensures NewRowOk(sh, subs, subs[k].index) && sh.indexOk(subs[k].index)
    ensures Foremost(sh, subs, votes, subs[k].index, k)
  {
    hide NewRowOk;
    FirstOfRow(sh, subs, votes, subs[k].index, k);
  }

  lemma {:induction false} NewValueValid(sh: Shape, rows: map<Oid, Row>, subs: seq<Sub>, k: nat, s: nat)
    requires k < |subs| && subs[k].index !in rows && subs[k].target.Cell? && OnlyFor(subs, subs[k].index, s)
    requires Commits(sh, rows, subs, k) && subs[s].target.v != ROW_DESTROY
    ensures sh.valid(subs[k].target.col, subs[k].target.value)
  {
    hide LastStatus, FirstStatus;
    OnlyStatusIs(subs, subs[k].index, s);
  }

  lemma {:induction false} DoneNewRow(sh: Shape, rows: map<Oid, Row>, subs: seq<Sub>, votes: nat -> bool, r: Oid,
      s: nat)
    requires r !in rows && OnlyFor(subs, r, s) && RowDone(sh, rows, subs, votes, r)
    ensures NewRowOk(sh, subs, r) && Agreeable(sh, rows, subs, votes, r, s)
  {
    hide NewRowOk, Passes, Commits, Foremost;
    NewRowTable(sh, subs, r, s);
    assert Seen(subs, |subs|, r);
    var k0 := FirstSeen(subs, |subs|, r);
    hide Seen;
    NewRowChecked(sh, rows, subs, votes, k0);
    forall k | 0 <= k < |subs| && subs[k].index == r && subs[k].target.Cell? && subs[s].target.v != ROW_DESTROY
      ensures sh.valid(subs[k].target.col, subs[k].target.value)
    {
      NewValueValid(sh, rows, subs, k, s);
    }
  }

  lemma {:induction false} FirstOfRow(sh: Shape, subs: seq<Sub>, votes: nat -> bool, r: Oid, k: nat)
    requires k < |subs| && subs[k].index == r && !Seen(subs, k, r)
    ensures Foremost(sh, subs, votes, r, k) <==>
      && votes(k)
      && (subs[k].target.Cell? ==> subs[k].target.col < |sh.cols| && sh.cols[subs[k].target.col].access == ReadCreate)
    ensures forall j: nat :: Foremost(sh, subs, votes, r, j) ==> j == k
  {
  }

  lemma {:induction false} NewRowPasses(sh: Shape, rows: map<Oid, Row>, subs: seq<Sub>, votes: nat -> bool, r: Oid,
      s: nat)
    requires r !in rows && OnlyFor(subs, r, s)
    requires NewRowOk(sh, subs, r) && Agreeable(sh, rows, subs, votes, r, s)
    ensures RowDone(sh, rows, subs, votes, r)
  {
    hide NewRowOk, LastStatus, FirstStatus;
    OnlyStatusIs(subs, r, s);
    assert Seen(subs, |subs|, r);
    var k0 := FirstSeen(subs, |subs|, r);
    FirstOfRow(sh, subs, votes, r, k0);
  }

  // A new row is created or not as the table says.
  lemma {:induction false} NewRowDone(sh: Shape, rows: map<Oid, Row>, subs: seq<Sub>, votes: nat -> bool, r: Oid,
      s: nat)
    requires r !in rows && OnlyFor(subs, r, s)
    ensures RowDone(sh, rows, subs, votes, r) <==> NewRowOk(sh, subs, r) && Agreeable(sh, rows, subs, votes, r, s)
  {
    hide NewRowOk, RowDone, Agreeable;
    if RowDone(sh, rows, subs, votes, r) {
      DoneNewRow(sh, rows, subs, votes, r, s);
    }
    if NewRowOk(sh, subs, r) && Agreeable(sh, rows, subs, votes, r, s) {
      NewRowPasses(sh, rows, subs, votes, r, s);
    }
  }

  // cells are what the request leaves of a row that had the cells before.
  ghost predicate AllFinal(before: seq<Leaf>, subs: seq<Sub>, r: Oid, cells: seq<Leaf>) {
    |cells| == |before| && forall c :: 0 <= c < |cells| ==> Final(before[c], subs, r, c, cells[c])
  }

  lemma {:induction false} OverlayAllFinal(before: seq<Leaf>, subs: seq<Sub>, r: Oid)
    ensures AllFinal(before, subs, r, Overlay(before, subs, r))
  {
    hide Overlay, Final;
    forall c | 0 <= c < |before| ensures Final(before[c], subs, r, c, Overlay(before, subs, r)[c]) {
      OverlayFinal(before, subs, r, c);
    }
  }

  // A clone of the generator row: the initial values, of which only those with a default
  // count as given.
  function Clones(sh: Shape): seq<Leaf> {
    seq(|sh.cols|, c requires 0 <= c < |sh.cols| => Leaf(sh.cols[c].initial, sh.cols[c].hasDefault))
  }

  lemma {:induction false} OneRowDone(sh: Shape, rows: map<Oid, Row>, subs: seq<Sub>, votes: nat -> bool, r: Oid)
    requires forall k :: 0 <= k < |subs| ==> subs[k].index == r
    ensures (forall q :: RowDone(sh, rows, subs, votes, q)) <==> RowDone(sh, rows, subs, votes, r)
  {
    hide Passes, Commits;
  }

  lemma {:induction false} AgreeableCells(sh: Shape, rows: map<Oid, Row>, subs: seq<Sub>, votes: nat -> bool, r: Oid,
      s: nat)
    requires OnlyFor(subs, r, s) && Agreeable(sh, rows, subs, votes, r, s)
    ensures forall k :: 0 <= k < |subs| && subs[k].index == r ==> CellOk(sh, subs[k])
  {
    forall k | 0 <= k < |subs| && subs[k].index == r && subs[k].target.Cell? ensures CellOk(sh, subs[k]) {
      assert subs[k] == Sub(r, Cell(subs[k].target.col, subs[k].target.value));
    }
  }

  // What becomes of a new row.
  lemma {:induction false} NewRowResult(sh: Shape, rows: map<Oid, Row>, subs: seq<Sub>, votes: nat -> bool, r: Oid,
      s: nat)
    requires r !in rows && OnlyFor(subs, r, s) && RowDone(sh, rows, subs, votes, r)
    ensures var (v, cells) := (subs[s].target.v, Overlay(NewCells(sh), subs, r));
      After(sh, rows, subs, r) ==
        if v == ROW_DESTROY then None
        else if v == ROW_CREATE_AND_GO then Some(Row(ROW_ACTIVE, cells))
        else Some(Row(if Ready(sh, cells) then ROW_NOT_IN_SERVICE else ROW_NOT_READY, cells))
  {
    hide Overlay, Ready, After, FirstStatus, LastStatus, RowDone, OneStatusOf, OnlyFor;
    OnlyStatusIs(subs, r, s);
    OneStepOf(sh, rows, subs, votes, r);
    assert s < |subs| && subs[s].target.Status? by {
      StatusAt(subs, r, s);
    }
  }

  lemma {:induction false} StatusAt(subs: seq<Sub>, r: Oid, s: nat)
    requires OnlyFor(subs, r, s)
    ensures s < |subs| && subs[s].target.Status?
  {
  }

  lemma {:induction false} NewTable(sh: Shape, rows: map<Oid, Row>, subs: seq<Sub>, votes: nat -> bool, r: Oid, s: nat)
    requires r !in rows && OnlyFor(subs, r, s)
    ensures var cells := Overlay(NewCells(sh), subs, r);
      && (RowDone(sh, rows, subs, votes, r) ==> Agreeable(sh, rows, subs, votes, r, s))
      && (Agreeable(sh, rows, subs, votes, r, s) ==>
        TableSays(sh, None, subs, r, s, cells, cells, RowDone(sh, rows, subs, votes, r), After(sh, rows, subs, r)))
  {
    hide Overlay, Ready, Whole, AllGiven, CellOk, FirstStatus, RowDone, NewRowOk, Agreeable, After;
    NewRowDone(sh, rows, subs, votes, r, s);
    NewRowTable(sh, subs, r, s);
    GivenAssigned(sh, subs, r);
    WholeReady(sh, Overlay(NewCells(sh), subs, r));
    if Agreeable(sh, rows, subs, votes, r, s) {
      AgreeableCells(sh, rows, subs, votes, r, s);
    }
    if RowDone(sh, rows, subs, votes, r) {
      NewRowResult(sh, rows, subs, votes, r, s);
    }
  }

  // What prepare accepts for a row that exists, and what commit then does not refuse.
  lemma {:induction false} OldRowDone(sh: Shape, rows: map<Oid, Row>, subs: seq<Sub>, votes: nat -> bool, r: Oid,
      s: nat)
    requires r in rows && OnlyFor(subs, r, s)
    ensures var (v, row, later) := (subs[s].target.v, rows[r], exists k :: s < k < |subs| && subs[k].index == r);
      RowDone(sh, rows, subs, votes, r) <==>
        && Agreeable(sh, rows, subs, votes, r, s)
        && StatusValueOk(v) && TransitionOk(row.status, v)
        && StateChangeOk(sh, row.status, v, Overlay(row.cells, subs, r))
        && (v == ROW_DESTROY && (row.status == ROW_NOT_IN_SERVICE || row.status == ROW_NOT_READY) ==> !later)
  {
    hide Overlay, Ready, TransitionOk, StatusValueOk, LastStatus, Destroys;
    var v, row := subs[s].target.v, rows[r];
    if RowDone(sh, rows, subs, votes, r) {
      assert Passes(sh, rows, subs, votes, s);
      forall k | 0 <= k < |subs| && subs[k].index == r && subs[k].target.Cell?
        ensures Passes(sh, rows, subs, votes, k) && Commits(sh, rows, subs, k)
      {
      }
      forall k | s < k < |subs| && subs[k].index == r ensures !Dropped(rows, subs, k) {
        assert Passes(sh, rows, subs, votes, k);
      }
    }
    if Agreeable(sh, rows, subs, votes, r, s) {
      AgreeableCells(sh, rows, subs, votes, r, s);
      forall k | 0 <= k < |subs| && subs[k].index == r && subs[k].target.Cell?
        ensures sh.valid(subs[k].target.col, subs[k].target.value)
        ensures !(sh.cols[subs[k].target.col].locked && row.status == ROW_ACTIVE)
      {
        assert subs[k] == Sub(r, Cell(subs[k].target.col, subs[k].target.value));
      }
    }
  }

  // The values of a request that is agreeable keep a complete row complete.
  lemma {:induction false} StaysReady(sh: Shape, rows: map<Oid, Row>, subs: seq<Sub>, votes: nat -> bool, r: Oid,
      s: nat)
    requires r in rows && OnlyFor(subs, r, s) && Agreeable(sh, rows, subs, votes, r, s) && Ready(sh, rows[r].cells)
    ensures Ready(sh, Overlay(rows[r].cells, subs, r))
  {
    hide Overlay, Ready;
    AgreeableCells(sh, rows, subs, votes, r, s);
    forall k | 0 <= k < |subs| && subs[k].index == r && subs[k].target.Cell?
      ensures CellOk(sh, subs[k]) && sh.valid(subs[k].target.col, subs[k].target.value)
    {
      assert subs[k] == Sub(r, Cell(subs[k].target.col, subs[k].target.value));
    }
    NoOverlay(rows[r].cells, subs[..0], r);
    ReadyOverlay(sh, rows[r].cells, subs, r, 0);
  }

  lemma {:induction false} OldRowResult(sh: Shape, rows: map<Oid, Row>, subs: seq<Sub>, votes: nat -> bool, r: Oid,
      s: nat)
    requires r in rows && Sound(sh, rows[r]) && OnlyFor(subs, r, s) && RowDone(sh, rows, subs, votes, r)
    ensures var (v, later) := (subs[s].target.v, exists k :: s < k < |subs| && subs[k].index == r);
      After(sh, rows, subs, r) ==
        if v != ROW_DESTROY then Some(Row(v, Overlay(rows[r].cells, subs, r)))
        else if later then Some(Row(ROW_DESTROY, Overlay(NewCells(sh), subs, r)))
        else None
  {
    hide Overlay, Ready, After, FirstStatus, LastStatus, RowDone, OneStatusOf, Sound;
    OnlyStatusIs(subs, r, s);
    OneStepOf(sh, rows, subs, votes, r);
    assert Later(subs, r, s, |subs|) <==> exists k :: s < k < |subs| && subs[k].index == r;
  }

  lemma {:induction false} OldTable(sh: Shape, rows: map<Oid, Row>, subs: seq<Sub>, votes: nat -> bool, r: Oid, s: nat)
    requires r in rows && Sound(sh, rows[r]) && OnlyFor(subs, r, s)
    ensures RowDone(sh, rows, subs, votes, r) ==> Agreeable(sh, rows, subs, votes, r, s)
    ensures Agreeable(sh, rows, subs, votes, r, s) ==>
      TableSays(sh, Some(rows[r]), subs, r, s, Overlay(rows[r].cells, subs, r), Overlay(NewCells(sh), subs, r),
                RowDone(sh, rows, subs, votes, r), After(sh, rows, subs, r))
  {
    hide Overlay, Ready, Whole, RowDone, Agreeable, After, OnlyFor;
    OldRowDone(sh, rows, subs, votes, r, s);
    WholeReady(sh, Overlay(rows[r].cells, subs, r));
    if Agreeable(sh, rows, subs, votes, r, s) && InUse(rows[r]) {
      StaysReady(sh, rows, subs, votes, r, s);
    }
    if RowDone(sh, rows, subs, votes, r) {
      OldRowResult(sh, rows, subs, votes, r, s);
    }
  }

  // A request that names the status of row r once: neither phase fails for the row exactly
  // if its values can be stored, the voters agree and the table allows it, and then the row
  // is what the table says.
  lemma {:induction false} StatusTable(sh: Shape, rows: map<Oid, Row>, subs: seq<Sub>, votes: nat -> bool, r: Oid,
      s: nat)
    returns (cells: seq<Leaf>, blank: seq<Leaf>)
    requires AllSound(sh, rows) && OnlyFor(subs, r, s)
    ensures AllFinal(Clones(sh), subs, r, blank)
    ensures AllFinal(if r in rows then rows[r].cells else Clones(sh), subs, r, cells)
    ensures RowDone(sh, rows, subs, votes, r) ==> Agreeable(sh, rows, subs, votes, r, s)
    ensures Agreeable(sh, rows, subs, votes, r, s) ==>
      TableSays(sh, Look(rows, r), subs, r, s, cells, blank, RowDone(sh, rows, subs, votes, r),
                After(sh, rows, subs, r))
    ensures ROW_ACTIVE == 1 && ROW_NOT_IN_SERVICE == 2 && ROW_NOT_READY == 3
    ensures ROW_CREATE_AND_GO == 4 && ROW_CREATE_AND_WAIT == 5 && ROW_DESTROY == 6
  {
    hide Overlay, Ready, RowDone, Agreeable, After, TableSays, AllFinal, NewCells, Clones;
    ClonesAreNew(sh);
    OverlayAllFinal(NewCells(sh), subs, r);
    blank := Overlay(NewCells(sh), subs, r);
    if r in rows {
      cells := Overlay(rows[r].cells, subs, r);
      OverlayAllFinal(rows[r].cells, subs, r);
      OldTable(sh, rows, subs, votes, r, s);
    } else {
      cells := blank;
      NewTable(sh, rows, subs, votes, r, s);
    }
  }

  lemma {:induction false} ClonesAreNew(sh: Shape)
    ensures NewCells(sh) == Clones(sh)
  {
  }

  // A request that assigns values to row r without naming its status: a row is not created,
  // and an existing one takes the values, with which a notReady row may become notInService.
  lemma {:induction false} ValuesOnly(sh: Shape, rows: map<Oid, Row>, subs: seq<Sub>, votes: nat -> bool, r: Oid)
    returns (cells: seq<Leaf>)
    requires AllSound(sh, rows) && exists k :: 0 <= k < |subs| && subs[k].index == r
    requires forall k :: 0 <= k < |subs| && subs[k].index == r ==> subs[k].target.Cell?
    ensures r !in rows ==> !RowDone(sh, rows, subs, votes, r)
    ensures r in rows ==> AllFinal(rows[r].cells, subs, r, cells)
    ensures r in rows ==>
      (RowDone(sh, rows, subs, votes, r) <==>
        forall k, c: nat, v :: 0 <= k < |subs| && subs[k] == Sub(r, Cell(c, v)) ==>
          && c < |sh.cols| && (sh.cols[c].access == ReadWrite || sh.cols[c].access == ReadCreate)
          && sh.ok(c, v) && sh.valid(c, v) && !(sh.cols[c].locked && rows[r].status == ROW_ACTIVE))
    ensures r in rows && RowDone(sh, rows, subs, votes, r) ==>
      After(sh, rows, subs, r) == Some(Row(
        if rows[r].status == ROW_NOT_READY && Whole(sh, cells) then ROW_NOT_IN_SERVICE else rows[r].status, cells))
  {
    hide Overlay, Ready, After, Final, Whole;
    cells := [];
    if r in rows {
      cells := Overlay(rows[r].cells, subs, r);
      OverlayAllFinal(rows[r].cells, subs, r);
      WholeReady(sh, cells);
      if RowDone(sh, rows, subs, votes, r) {
        OneStepOf(sh, rows, subs, votes, r);
        forall k | 0 <= k < |subs| && subs[k].index == r
          ensures Passes(sh, rows, subs, votes, k) && Commits(sh, rows, subs, k)
        {
        }
      }
      if forall k, c: nat, v :: 0 <= k < |subs| && subs[k] == Sub(r, Cell(c, v)) ==>
        && c < |sh.cols| && (sh.cols[c].access == ReadWrite || sh.cols[c].access == ReadCreate)
        && sh.ok(c, v) && sh.valid(c, v) && !(sh.cols[c].locked && rows[r].status == ROW_ACTIVE) {
        forall k | 0 <= k < |subs| && subs[k].index == r
          ensures Passes(sh, rows, subs, votes, k) && Commits(sh, rows, subs, k)
        {
          assert subs[k] == Sub(r, Cell(subs[k].target.col, subs[k].target.value));
        }
      }
    } else {
      var k := FirstSeen(subs, |subs|, r);
      assert !Passes(sh, rows, subs, votes, k);
    }
  }

  // The table does not speak of the row after a request that is not done.
  lemma {:induction false} NotDone(sh: Shape, before: Option<Row>, subs: seq<Sub>, r: Oid, s: nat, cells: seq<Leaf>,
      blank: seq<Leaf>, x: Option<Row>, y: Option<Row>)
    requires OnlyFor(subs, r, s) && TableSays(sh, before, subs, r, s, cells, blank, false, x)
    ensures TableSays(sh, before, subs, r, s, cells, blank, false, y)
  {
    hide Whole;
  }

  // A request with one status, all for one row: its outcome and the row that results.
  method ServeRow(t: Table, subs: seq<Sub>, votes: nat -> bool, r: Oid, s: nat)
    returns (outcome: Outcome, ghost cells: seq<Leaf>, ghost blank: seq<Leaf>)
    requires AllSound(t.shape, t.rows) && t.deleteRows == {}
    requires OnlyFor(subs, r, s) && forall k :: 0 <= k < |subs| ==> subs[k].index == r
    modifies t
    ensures AllFinal(Clones(t.shape), subs, r, blank)
    ensures AllFinal(if r in old(t.rows) then old(t.rows)[r].cells else Clones(t.shape), subs, r, cells)
    ensures outcome.Done? ==> Agreeable(t.shape, old(t.rows), subs, votes, r, s)
    ensures Agreeable(t.shape, old(t.rows), subs, votes, r, s) ==>
      TableSays(t.shape, Look(old(t.rows), r), subs, r, s, cells, blank, outcome.Done?, Look(t.rows, r))
  {
    hide RowDone, Agreeable, After, TableSays, AllFinal, Clones, Served, AllSound, Safe;
    cells, blank := StatusTable(t.shape, t.rows, subs, votes, r, s);
    ghost var before := t.rows;
    outcome := t.ProcessSet(subs, votes);
    OneRowDone(t.shape, before, subs, votes, r);
    if outcome.Done? {
      LookServed(t.shape, before, subs, r);
    } else if Agreeable(t.shape, before, subs, votes, r, s) {
      NotDone(t.shape, Look(before, r), subs, r, s, cells, blank, After(t.shape, before, subs, r), Look(t.rows, r));
    }
  }
}
