/** VacmAccessTable: which access row decides about a request. */
module VacmAccess {
  import opened Oids
  import opened Options
  import opened SortedKeys

  const EXACT := 1
  const PREFIX := 2
  const ANY_MODEL := 0

  // An access row. Its index is made of the group, the context prefix, the security
  // model and the security level.
  datatype AccessRow = AccessRow(
    group: Oid, prefix: Oid, model: nat, level: nat, active: bool, match_: int,
    read: string, write: string, notify: string)

  datatype ViewType = Read | Write | Notify

  function ViewOf(row: AccessRow, t: ViewType): string {
    match t
    case Read => row.read
    case Write => row.write
    case Notify => row.notify
  }

  // Oidx::from_string: the characters behind their number.
  function FromString(s: Oid): Oid {
    [|s|] + s
  }

  function Index(row: AccessRow): Oid {
    FromString(row.group) + (FromString(row.prefix) + [row.model, row.level])
  }

  function Indexes(rows: seq<AccessRow>): (ks: seq<Oid>)
    ensures |ks| == |rows| && forall i :: 0 <= i < |rows| ==> ks[i] == Index(rows[i])
  {
    seq(|rows|, i requires 0 <= i < |rows| => Index(rows[i]))
  }

  // The request of a principal in group.
  datatype Request = Request(group: Oid, context: Oid, model: nat, level: nat)

  // The row may decide about the request.
  predicate Candidate(q: Request, row: AccessRow) {
    && row.active && row.group == q.group
    && (row.model == q.model || row.model == ANY_MODEL) && row.level <= q.level
    && ((row.match_ == EXACT && row.prefix == q.context) || (row.match_ == PREFIX && row.prefix <= q.context))
  }

  // a is preferred to b: the security model of the request before any model, then an exact
  // context, then the longer context prefix, then the higher security level.
  predicate Preferred(q: Request, a: AccessRow, b: AccessRow) {
    var (ma, mb) := (a.model == q.model, b.model == q.model);
    var (ea, eb) := (a.match_ == EXACT, b.match_ == EXACT);
    if ma != mb then ma
    else if ea != eb then ea
    else if |a.prefix| != |b.prefix| then |a.prefix| > |b.prefix|
    else a.level > b.level
  }

  /* Reading the parts of an index. */

  function CutRight(o: Oid, n: nat): Oid {
    o[..if n <= |o| then |o| - n else 0]
  }

  lemma {:induction false} IndexParts(row: AccessRow)
    ensures var i := Index(row);
      && |i| >= 4 && i[0] == |row.group| && i[0] + 1 < |i|
      && CutLeft(CutRight(i, i[i[0] + 1] + 3), 1) == row.group
      && CutRight(CutLeft(i, i[0] + 2), 2) == row.prefix
      && i[|i| - 2] == row.model && i[|i| - 1] == row.level
  {
    var i, g, p := Index(row), |row.group|, |row.prefix|;
    assert i == [g] + row.group + [p] + row.prefix + [row.model, row.level];
    assert i[g + 1] == p && |i| == g + p + 4;
    assert i[..g + 1] == [g] + row.group;
    assert i[g + 2..] == row.prefix + [row.model, row.level];
  }

  // Rows with different contents have different indexes.
  lemma {:induction false} SameIndex(a: AccessRow, b: AccessRow)
    requires Index(a) == Index(b)
    ensures a.group == b.group && a.prefix == b.prefix && a.model == b.model && a.level == b.level
  {
    IndexParts(a);
    IndexParts(b);
  }

  // Every row of a group lies behind the index that is made of the group alone.
  lemma {:induction false} GroupAhead(row: AccessRow)
    ensures Less(FromString(row.group), Index(row))
  {
    LessExtension(FromString(row.group), FromString(row.prefix) + [row.model, row.level]);
  }

  /* The selection. */

  // Two candidates are never equally good.
  lemma {:induction false} PreferredTotal(q: Request, a: AccessRow, b: AccessRow)
    requires Candidate(q, a) && Candidate(q, b)
    ensures Preferred(q, a, b) || Preferred(q, b, a) || Index(a) == Index(b)
    ensures !(Preferred(q, a, b) && Preferred(q, b, a))
  {
    if !Preferred(q, a, b) && !Preferred(q, b, a) {
      assert a.prefix == q.context[..|a.prefix|] && b.prefix == q.context[..|b.prefix|];
    }
  }

  lemma {:induction false} PreferredTransitive(q: Request, a: AccessRow, b: AccessRow, c: AccessRow)
    requires Preferred(q, a, b) && Preferred(q, b, c)
    ensures Preferred(q, a, c)
  {
  }

  // Row k is the best of the candidates among rows lo to hi.
  ghost predicate Best(q: Request, rows: seq<AccessRow>, lo: int, hi: int, k: int) {
    && lo <= k < hi && 0 <= k < |rows| && Candidate(q, rows[k])
    && forall j :: lo <= j < hi && 0 <= j < |rows| && j != k && Candidate(q, rows[j]) ==> Preferred(q, rows[k], rows[j])
  }

  ghost predicate NoCandidate(q: Request, rows: seq<AccessRow>, lo: int, hi: int) {
    forall j :: lo <= j < hi && 0 <= j < |rows| ==> !Candidate(q, rows[j])
  }

  // What the scan has found so far.
  datatype Found = Found(row: int, model: bool, exact: bool, prefixLength: nat, level: nat)

  ghost predicate Describes(f: Found, q: Request, rows: seq<AccessRow>) {
    && 0 <= f.row < |rows|
    && f.model == (rows[f.row].model == q.model) && f.exact == (rows[f.row].match_ == EXACT)
    && f.prefixLength == |rows[f.row].prefix| && f.level == rows[f.row].level
  }

  // The nested comparisons by which a later candidate replaces the one found.
  method Replaces(q: Request, f: Found, model: nat, match_: int, prefix: Oid, level: nat) returns (replace: bool)
    ensures forall rows: seq<AccessRow>, row: AccessRow ::
      && Describes(f, q, rows)
      && row.model == model && row.match_ == match_ && row.prefix == prefix && row.level == level
      ==> replace == Preferred(q, row, rows[f.row])
  {
    replace := false;
    if !f.model && model == q.model {
      replace := true;
    } else if !f.model || model == q.model {
      if !f.exact && match_ == EXACT {
        replace := true;
      } else if !f.exact || match_ == EXACT {
        if f.prefixLength < |prefix| {
          replace := true;
        } else if f.prefixLength == |prefix| {
          if f.level < level {
            replace := true;
          }
        }
      }
    }
  }

  // The conditions of the scan for one row, read from its index.
  method Matches(q: Request, row: AccessRow) returns (ok: bool)
    ensures ok == Candidate(q, row)
  {
    var ind := Index(row);
    IndexParts(row);
    if !row.active {
      return false;
    }
    if ind[0] != |q.group| {
      return false;
    }
    if CutLeft(CutRight(ind, ind[ind[0] + 1] + 3), 1) != q.group {
      return false;
    }
    if !((ind[|ind| - 2] == q.model || ind[|ind| - 2] == ANY_MODEL) && ind[|ind| - 1] <= q.level) {
      return false;
    }
    var pref := CutRight(CutLeft(ind, ind[0] + 2), 2);
    ok := (row.match_ == EXACT && pref == q.context)
      || (row.match_ == PREFIX && |pref| <= |q.context| && q.context[..|pref|] == pref);
  }

  // The first row of the scan: nothing that could match lies before it.
  method ScanStart(q: Request, rows: seq<AccessRow>) returns (start: nat)
    requires Ascending(Indexes(rows))
    ensures start <= |rows| && NoCandidate(q, rows, 0, start)
  {
    hide Less, Floor, Index, FromString;
    var ks := Indexes(rows);
    var f := Floor(ks, FromString(q.group));
    FloorIsGreatest(ks, FromString(q.group));
    start := if f >= 0 then f else 0;
    forall j | 0 <= j < start ensures !Candidate(q, rows[j]) {
      assert LessEq(ks[j], FromString(q.group));
      GroupAhead(rows[j]);
      if rows[j].group == q.group {
        LessAsymmetricOrEqual(FromString(q.group), ks[j]);
      }
    }
  }

  // The scan of getViewName: the best candidate of the whole table, or -1.
  method Scan(q: Request, rows: seq<AccessRow>) returns (k: int)
    requires Ascending(Indexes(rows))
    ensures if k < 0 then NoCandidate(q, rows, 0, |rows|) else Best(q, rows, 0, |rows|, k)
  {
    hide Less, Candidate, Preferred, Index;
    var i := ScanStart(q, rows);
    var found := Found(0, false, false, 0, 0);
    k := -1;
    while i < |rows|
      invariant 0 <= i <= |rows|
      invariant if k < 0 then NoCandidate(q, rows, 0, i)
                else k == found.row && Describes(found, q, rows) && Best(q, rows, 0, i, k)
    {
      var ok := Matches(q, rows[i]);
      if ok {
        var ind := Index(rows[i]);
        IndexParts(rows[i]);
        var model, level, pref := ind[|ind| - 2], ind[|ind| - 1], CutRight(CutLeft(ind, ind[0] + 2), 2);
        var replace := true;
        if k >= 0 {
          replace := Replaces(q, found, model, rows[i].match_, pref, level);
          BestStep(q, rows, i, k, replace);
        }
        if replace {
          found := Found(i, model == q.model, rows[i].match_ == EXACT, |pref|, level);
          k := i;
        }
      }
      i := i + 1;
    }
  }

  // getViewName: no row is active, of the group, for the security model or any (0), for the
  // security level and for the context, exactly (1) or by prefix (2); or the view of the
  // best such row, in the order of section 4 of RFC 3415.
  method GetViewName(q: Request, rows: seq<AccessRow>, viewType: ViewType) returns (k: int, viewName: Option<string>)
    requires Ascending(Indexes(rows))
    ensures if k < 0 then NoCandidate(q, rows, 0, |rows|) && viewName == None else Best(q, rows, 0, |rows|, k)
    ensures forall row :: row in rows && k < 0 ==>
      !(&& row.active && row.group == q.group && (row.model == q.model || row.model == 0) && row.level <= q.level
        && ((row.match_ == 1 && row.prefix == q.context) || (row.match_ == 2 && row.prefix <= q.context)))
    ensures k >= 0 ==> var best := rows[k];
      && best.active && best.group == q.group && (best.model == q.model || best.model == 0) && best.level <= q.level
      && ((best.match_ == 1 && best.prefix == q.context) || (best.match_ == 2 && best.prefix <= q.context))
    ensures k >= 0 ==> forall j :: 0 <= j < |rows| && j != k ==> var (best, row) := (rows[k], rows[j]);
      (&& row.active && row.group == q.group && (row.model == q.model || row.model == 0) && row.level <= q.level
       && ((row.match_ == 1 && row.prefix == q.context) || (row.match_ == 2 && row.prefix <= q.context))) ==>
        if (best.model == q.model) != (row.model == q.model) then best.model == q.model
        else if (best.match_ == 1) != (row.match_ == 1) then best.match_ == 1
        else if |best.prefix| != |row.prefix| then |best.prefix| > |row.prefix|
        else best.level > row.level
    ensures k >= 0 ==> viewName == Some(
      match viewType case Read => rows[k].read case Write => rows[k].write case Notify => rows[k].notify)
  {
    k := Scan(q, rows);
    viewName := if k < 0 then None else Some(ViewOf(rows[k], viewType));
    forall row | row in rows && k < 0 ensures !Candidate(q, row) {
      var j :| 0 <= j < |rows| && rows[j] == row;
    }
  }

  lemma {:induction false} BestStep(q: Request, rows: seq<AccessRow>, i: int, k: int, replace: bool)
    requires Ascending(Indexes(rows)) && 0 <= i < |rows| && Best(q, rows, 0, i, k) && Candidate(q, rows[i])
    requires replace == Preferred(q, rows[i], rows[k])
    ensures Best(q, rows, 0, i + 1, if replace then i else k)
  {
    hide Less, Candidate, Preferred, Index;
    var ks := Indexes(rows);
    LessIrreflexive(ks[k]);
    PreferredTotal(q, rows[i], rows[k]);
    assert Less(ks[k], ks[i]);
    if replace {
      forall j | 0 <= j < i && j != k && Candidate(q, rows[j]) ensures Preferred(q, rows[i], rows[j]) {
        PreferredTransitive(q, rows[i], rows[k], rows[j]);
      }
    }
  }

  // No other row can be the best one.
  lemma {:induction false} BestUnique(q: Request, rows: seq<AccessRow>, j: int, k: int)
    requires Best(q, rows, 0, |rows|, j) && Best(q, rows, 0, |rows|, k)
    ensures j == k
  {
    if j != k {
      PreferredTotal(q, rows[j], rows[k]);
    }
  }
}
