/** MibTable: the search for the next instance in a conceptual table. */
module MibTables {
  import opened Oids
  import opened Options
  import opened SortedKeys

  // What the search reads of a leaf object: whether it may be accessed at all
  // and whether it currently has a value.
  datatype Cell = Cell(accessible: bool, valid: bool)

  datatype Row = Row(index: Oid, cells: seq<Cell>)

  // A table entry object with its columnar objects and its rows.
  datatype Table = Table(oid: Oid, cols: seq<nat>, rows: seq<Row>)

  function Indexes(rows: seq<Row>): (ks: seq<Oid>)
    ensures |ks| == |rows| && forall i :: 0 <= i < |rows| ==> ks[i] == rows[i].index
  {
    seq(|rows|, i requires 0 <= i < |rows| => rows[i].index)
  }

  // Columns and rows ascend and every row has one leaf for each column.
  ghost predicate Rectangular(t: Table) {
    && t.oid != [] && t.cols != []
    && (forall i, j :: 0 <= i < j < |t.cols| ==> t.cols[i] < t.cols[j])
    && Ascending(Indexes(t.rows))
    && forall r :: 0 <= r < |t.rows| ==> |t.rows[r].cells| == |t.cols|
  }

  predicate HasCell(t: Table, c: int, r: int) {
    0 <= c < |t.cols| && 0 <= r < |t.rows|
  }

  // The instance identifier of the leaf in column c of row r.
  function CellOid(t: Table, c: int, r: int): Oid
    requires HasCell(t, c, r)
  {
    t.oid + [t.cols[c]] + t.rows[r].index
  }

  predicate Live(t: Table, c: int, r: int) {
    && HasCell(t, c, r) && c < |t.rows[r].cells|
    && t.rows[r].cells[c].accessible && t.rows[r].cells[c].valid
  }

  // The upper bound of the table's scope.
  function MaxKey(t: Table): Oid
    requires t.oid != []
  {
    NextPeer(t.oid)
  }

  // A position in the table, or the lack of one.
  type Place = Option<(int, int)>

  // p holds the least leaf above o.
  ghost predicate LeastCell(t: Table, o: Oid, p: Place) {
    match p
    case None => forall c, r :: HasCell(t, c, r) ==> LessEq(CellOid(t, c, r), o)
    case Some(q) =>
      && HasCell(t, q.0, q.1) && Less(o, CellOid(t, q.0, q.1))
      && forall c, r :: HasCell(t, c, r) && Less(o, CellOid(t, c, r)) ==>
        LessEq(CellOid(t, q.0, q.1), CellOid(t, c, r))
  }

  // x is the identifier of the least accessible leaf with a value above o, or
  // empty if there is none.
  ghost predicate LeastLive(t: Table, o: Oid, x: Oid) {
    if x == [] then
      forall c, r :: Live(t, c, r) ==> LessEq(CellOid(t, c, r), o)
    else
      && Less(o, x)
      && (exists c, r :: Live(t, c, r) && CellOid(t, c, r) == x)
      && forall c, r :: Live(t, c, r) && Less(o, CellOid(t, c, r)) ==> LessEq(x, CellOid(t, c, r))
  }

  // Instances are ordered by column, then by row.
  lemma {:induction false} ColumnMajor(t: Table, c: int, r: int, d: int, s: int)
    requires Rectangular(t) && HasCell(t, c, r) && HasCell(t, d, s)
    ensures Less(CellOid(t, c, r), CellOid(t, d, s)) <==> c < d || (c == d && r < s)
  {
    hide Less;
    var a, b := [t.cols[c]] + t.rows[r].index, [t.cols[d]] + t.rows[s].index;
    assert CellOid(t, c, r) == t.oid + a && CellOid(t, d, s) == t.oid + b;
    LessPrefix(t.oid, a, b);
    HeadOrder(t.cols[c], t.rows[r].index, t.cols[d], t.rows[s].index);
    var ks := Indexes(t.rows);
    LessIrreflexive(ks[r]);
    if r < s {
      assert Less(ks[r], ks[s]);
    } else if s < r {
      LessAsymmetric(ks[s], ks[r]);
    }
  }

  lemma {:induction false} HeadOrder(x: nat, a: Oid, y: nat, b: Oid)
    ensures Less([x] + a, [y] + b) <==> x < y || (x == y && Less(a, b))
  {
    assert ([x] + a)[1..] == a && ([y] + b)[1..] == b;
  }

  // An identifier between two instances of one column carries the column's prefix.
  lemma {:induction false} BetweenPrefix(p: Oid, a: Oid, b: Oid, o: Oid)
    requires LessEq(p + a, o) && LessEq(o, p + b)
    ensures o == p + CutLeft(o, |p|)
  {
    if p != [] {
      assert (p + a)[1..] == p[1..] + a && (p + b)[1..] == p[1..] + b;
      assert o != [] && o[0] == p[0];
      assert p + a == [p[0]] + (p[1..] + a) && p + b == [p[0]] + (p[1..] + b) && o == [o[0]] + o[1..];
      BetweenPrefix(p[1..], a, b, o[1..]);
    }
  }

  // Inside one column the order is that of the row indexes.
  lemma {:induction false} InColumn(t: Table, c: int, r: int, o: Oid)
    requires HasCell(t, c, r) && o == t.oid + [t.cols[c]] + CutLeft(o, |t.oid| + 1)
    ensures Less(o, CellOid(t, c, r)) <==> Less(CutLeft(o, |t.oid| + 1), t.rows[r].index)
    ensures LessEq(CellOid(t, c, r), o) <==> LessEq(t.rows[r].index, CutLeft(o, |t.oid| + 1))
  {
    hide Less;
    var p, k := t.oid + [t.cols[c]], CutLeft(o, |t.oid| + 1);
    LessPrefix(p, k, t.rows[r].index);
    LessPrefix(p, t.rows[r].index, k);
    if p + k == p + t.rows[r].index {
      assert k == (p + k)[|p|..] && t.rows[r].index == (p + t.rows[r].index)[|p|..];
    }
  }

  // All leaves left of column c and those of column c above row r are at most o.
  ghost predicate Passed(t: Table, o: Oid, c: int, r: int) {
    forall d, s :: HasCell(t, d, s) && (d < c || (d == c && s < r)) ==> LessEq(CellOid(t, d, s), o)
  }

  lemma {:induction false} PassCell(t: Table, o: Oid, c: int, r: int)
    requires Rectangular(t) && HasCell(t, c, r) && LessEq(CellOid(t, c, r), o)
    ensures Passed(t, o, c, r + 1)
  {
    hide Less;
    forall d, s | HasCell(t, d, s) && (d < c || (d == c && s < r + 1)) ensures LessEq(CellOid(t, d, s), o) {
      if d != c || s != r {
        ColumnMajor(t, d, s, c, r);
        if CellOid(t, c, r) != o {
          LessTransitive(CellOid(t, d, s), CellOid(t, c, r), o);
        }
      }
    }
  }

  lemma {:induction false} FoundCell(t: Table, o: Oid, c: int, r: int)
    requires Rectangular(t) && HasCell(t, c, r) && Passed(t, o, c, r) && Less(o, CellOid(t, c, r))
    ensures LeastCell(t, o, Some((c, r)))
  {
    hide Less;
    forall d, s | HasCell(t, d, s) && Less(o, CellOid(t, d, s)) ensures LessEq(CellOid(t, c, r), CellOid(t, d, s)) {
      if d < c || (d == c && s < r) {
        LessAsymmetricOrEqual(o, CellOid(t, d, s));
      } else if d != c || s != r {
        ColumnMajor(t, c, r, d, s);
      }
    }
  }

  // The row at which the scan of column c starts.
  method StartRow(t: Table, o: Oid, c: int) returns (r: int)
    requires Rectangular(t) && t.rows != [] && 0 <= c < |t.cols|
    requires Passed(t, o, c, 0) && Less(o, CellOid(t, c, |t.rows| - 1))
    ensures 0 <= r < |t.rows| && Passed(t, o, c, r)
  {
    hide Less, Floor;
    var ind := CutLeft(o, |t.oid| + 1);
    r := 0;
    if |ind| > 0 && Less(CellOid(t, c, 0), o) {
      var ks := Indexes(t.rows);
      var f := Floor(ks, ind);
      FloorIsGreatest(ks, ind);
      if f >= 0 {
        r := f;
        var p := t.oid + [t.cols[c]];
        BetweenPrefix(p, t.rows[0].index, t.rows[|t.rows| - 1].index, o);
        InColumn(t, c, f, o);
        assert LessEq(ks[f], ind);
        PassCell(t, o, c, f);
        assert forall d, s :: HasCell(t, d, s) && (d < c || (d == c && s < f)) ==> d < c || (d == c && s < f + 1);
      }
    }
  }

  method FindNext(t: Table, o: Oid) returns (p: Place)
    requires Rectangular(t)
    ensures LeastCell(t, o, p)
  {
    hide Less;
    if t.rows == [] {
      return None;
    }
    if Less(o, CellOid(t, 0, 0)) {
      FoundCell(t, o, 0, 0);
      return Some((0, 0));
    }
    var last := |t.rows| - 1;
    var col := 0;
    while col < |t.cols| && !Less(o, CellOid(t, col, last))
      invariant 0 <= col <= |t.cols| && Passed(t, o, col, 0)
    {
      LessTotal(o, CellOid(t, col, last));
      PassCell(t, o, col, last);
      col := col + 1;
    }
    if col == |t.cols| {
      return None;
    }
    var row := StartRow(t, o, col);
    while row < |t.rows|
      invariant 0 <= row <= |t.rows| && Passed(t, o, col, row)
    {
      if Less(o, CellOid(t, col, row)) {
        FoundCell(t, o, col, row);
        return Some((col, row));
      }
      LessTotal(o, CellOid(t, col, row));
      PassCell(t, o, col, row);
      row := row + 1;
    }
    LessAsymmetricOrEqual(o, CellOid(t, col, last));
    assert false;
  }

  method FindSucc(t: Table, o: Oid) returns (x: Oid)
    requires Rectangular(t)
    ensures LeastLive(t, o, x)
    ensures x != [] ==> exists c, r ::
      && 0 <= c < |t.cols| && 0 <= r < |t.rows| && t.rows[r].cells[c] == Cell(true, true)
      && x == t.oid + [t.cols[c]] + t.rows[r].index
    ensures x != [] ==> Less(o, x)
    ensures forall c, r :: 0 <= c < |t.cols| && 0 <= r < |t.rows| && t.rows[r].cells[c] == Cell(true, true) ==>
      var y := t.oid + [t.cols[c]] + t.rows[r].index;
      LessEq(y, o) || (x != [] && LessEq(x, y))
  {
    hide Less;
    var p := FindNext(t, o);
    forall c, r | HasCell(t, c, r) && Less(o, CellOid(t, c, r)) ensures p.Some? {
      LessAsymmetricOrEqual(o, CellOid(t, c, r));
    }
    while p.Some? && !Live(t, p.value.0, p.value.1)
      invariant p.Some? ==> HasCell(t, p.value.0, p.value.1) && Less(o, CellOid(t, p.value.0, p.value.1))
      invariant forall c, r :: Live(t, c, r) && Less(o, CellOid(t, c, r)) ==>
        p.Some? && LessEq(CellOid(t, p.value.0, p.value.1), CellOid(t, c, r))
      decreases p.Some?, if p.Some? then |t.cols| - p.value.0 else 0, if p.Some? then |t.rows| - p.value.1 else 0
    {
      var (c, r) := p.value;
      p := FindNext(t, CellOid(t, c, r));
      SkipCell(t, o, c, r, p);
    }
    if p.None? {
      forall c, r | Live(t, c, r) ensures LessEq(CellOid(t, c, r), o) {
        LessTotal(o, CellOid(t, c, r));
      }
      LiveCells(t, o, []);
      return [];
    }
    x := CellOid(t, p.value.0, p.value.1);
    LiveCells(t, o, x);
  }

  // No accessible leaf with a value lies between o and its successor.
  lemma {:induction false} LiveCells(t: Table, o: Oid, x: Oid)
    requires Rectangular(t) && LeastLive(t, o, x)
    ensures forall c, r :: 0 <= c < |t.cols| && 0 <= r < |t.rows| && t.rows[r].cells[c] == Cell(true, true) ==>
      var y := t.oid + [t.cols[c]] + t.rows[r].index;
      LessEq(y, o) || (x != [] && LessEq(x, y))
  {
    hide Less;
    forall c, r | 0 <= c < |t.cols| && 0 <= r < |t.rows| && t.rows[r].cells[c] == Cell(true, true)
      ensures LessEq(CellOid(t, c, r), o) || (x != [] && LessEq(x, CellOid(t, c, r)))
    {
      assert Live(t, c, r);
      LessTotal(o, CellOid(t, c, r));
    }
  }

  // Going on from a leaf that may not be shown.
  lemma {:induction false} SkipCell(t: Table, o: Oid, c: int, r: int, p: Place)
    requires Rectangular(t) && HasCell(t, c, r) && !Live(t, c, r) && Less(o, CellOid(t, c, r))
    requires LeastCell(t, CellOid(t, c, r), p)
    requires forall d, s :: Live(t, d, s) && Less(o, CellOid(t, d, s)) ==> LessEq(CellOid(t, c, r), CellOid(t, d, s))
    ensures p.Some? ==>
      && HasCell(t, p.value.0, p.value.1) && Less(o, CellOid(t, p.value.0, p.value.1))
      && (c < p.value.0 || (c == p.value.0 && r < p.value.1))
    ensures forall d, s :: Live(t, d, s) && Less(o, CellOid(t, d, s)) ==>
      p.Some? && LessEq(CellOid(t, p.value.0, p.value.1), CellOid(t, d, s))
  {
    hide Less;
    if p.Some? {
      LessTransitive(o, CellOid(t, c, r), CellOid(t, p.value.0, p.value.1));
      ColumnMajor(t, c, r, p.value.0, p.value.1);
    }
    forall d, s | Live(t, d, s) && Less(o, CellOid(t, d, s))
      ensures Less(CellOid(t, c, r), CellOid(t, d, s))
      ensures p.Some? && LessEq(CellOid(t, p.value.0, p.value.1), CellOid(t, d, s))
    {
      ColumnMajor(t, c, r, d, s);
      ColumnMajor(t, d, s, c, r);
      LessAsymmetricOrEqual(CellOid(t, c, r), CellOid(t, d, s));
    }
  }
}
