/** nlmLogEntry: logging notifications and keeping the log within its limits. */
module NotificationLogs {
  import opened Oids
  import opened SortedKeys

  // A logged notification: the index of its log, its number there, and the time of logging.
  datatype LogRow = LogRow(log: Oid, number: nat, time: nat)

  function Index(r: LogRow): Oid {
    r.log + [r.number]
  }

  function Indexes(rows: seq<LogRow>): (ks: seq<Oid>)
    ensures |ks| == |rows| && forall i :: 0 <= i < |rows| ==> ks[i] == Index(rows[i])
  {
    seq(|rows|, i requires 0 <= i < |rows| => Index(rows[i]))
  }

  // A configured log; accepts: it is enabled and the notification passes its filter.
  datatype ConfigLog = ConfigLog(log: Oid, limit: nat, accepts: bool)

  const HUNDREDTHS_IN_A_MINUTE := 6000

  // The index of a log is its name behind the length of the name.
  predicate LogIndex(k: Oid) {
    k != [] && |k| == k[0] + 1
  }

  /* The order of rows of different logs. */

  lemma {:induction false} LogsInOrder(k: Oid, m: nat, l: Oid, n: nat)
    requires |k| == |l| || (k != [] && l != [] && k[0] != l[0])
    ensures Less(k + [m], l + [n]) <==> Less(k, l) || (k == l && m < n)
  {
    if k != [] && l != [] {
      assert (k + [m])[1..] == k[1..] + [m] && (l + [n])[1..] == l[1..] + [n];
      if k[0] == l[0] {
        LogsInOrder(k[1..], m, l[1..], n);
        assert k == [k[0]] + k[1..] && l == [l[0]] + l[1..];
      }
    } else {
      assert k == l == [];
      assert (k + [m])[1..] == [] == (l + [n])[1..];
    }
  }

  lemma {:induction false} RowsInOrder(a: LogRow, b: LogRow)
    requires LogIndex(a.log) && LogIndex(b.log)
    ensures Less(Index(a), Index(b)) <==> Less(a.log, b.log) || (a.log == b.log && a.number < b.number)
  {
    LogsInOrder(a.log, a.number, b.log, b.number);
  }

  /* Rows in the order of logging. */

  // The list without the first occurrence of r.
  function Without(rows: seq<LogRow>, r: LogRow): seq<LogRow> {
    if rows == [] then [] else if rows[0] == r then rows[1..] else [rows[0]] + Without(rows[1..], r)
  }

  // The list without its n oldest rows of the given log.
  function DropOldest(rows: seq<LogRow>, log: Oid, n: nat): seq<LogRow> {
    if rows == [] || n == 0 then rows
    else if rows[0].log == log then DropOldest(rows[1..], log, n - 1)
    else [rows[0]] + DropOldest(rows[1..], log, n)
  }

  function Count(rows: seq<LogRow>, log: Oid): nat {
    if rows == [] then 0 else (if rows[0].log == log then 1 else 0) + Count(rows[1..], log)
  }

  // No row twice, times in ascending order, numbers of each log in ascending order.
  ghost predicate Chronological(rows: seq<LogRow>) {
    forall i, j :: 0 <= i < j < |rows| ==> Earlier(rows[i], rows[j])
  }

  ghost predicate Earlier(x: LogRow, y: LogRow) {
    x.time <= y.time && (x.log == y.log ==> x.number < y.number)
  }

  // The table rows in index order and the same rows in the order of logging, each of a
  // known log with a number that has been given out.
  ghost predicate Consistent(content: seq<LogRow>, entries: seq<LogRow>, logIndexes: map<Oid, nat>) {
    && Ascending(Indexes(content)) && Chronological(entries)
    && (forall r :: r in content <==> r in entries) && |content| == |entries|
    && (forall r :: r in entries ==> LogIndex(r.log) && r.log in logIndexes && r.number <= logIndexes[r.log])
    && (forall k :: k in logIndexes ==> LogIndex(k))
  }

  class Log {
    const globalLimit: nat
    // In minutes; zero for no limit.
    const ageOut: nat
    // The rows in index order, and in the order of their creation.
    var content: seq<LogRow>
    var entries: seq<LogRow>
    // The number of the last row of each log.
    var logIndexes: map<Oid, nat>
    // The global statistics.
    var logged: nat
    var bumped: nat

    ghost predicate Valid()
      reads this
    {
      Consistent(content, entries, logIndexes) && logged == bumped + |content|
    }

    // An empty log with the index of the default log, whose name is empty.
    constructor (globalLimit: nat, ageOut: nat)
      ensures Valid() && entries == [] && logIndexes == map[[0] := 0] && logged == bumped == 0
      ensures this.globalLimit == globalLimit && this.ageOut == ageOut
    {
      this.globalLimit, this.ageOut := globalLimit, ageOut;
      content, entries, logIndexes, logged, bumped := [], [], map[[0] := 0], 0, 0;
    }

    // row_added for a new log configuration.
    method AddLog(log: Oid)
      requires Valid() && LogIndex(log) && log !in logIndexes
      modifies this`logIndexes
      ensures Valid() && logIndexes == old(logIndexes)[log := 0]
    {
      logIndexes := logIndexes[log := 0];
    }

    // remove_row for the row at position i of the table.
    method RemoveRow(i: nat)
      requires Valid() && i < |content|
      modifies this`content, this`entries, this`bumped
      ensures Valid() && content == old(content[..i] + content[i + 1..])
      ensures entries == Without(old(entries), old(content[i])) && bumped == old(bumped) + 1
    {
      var r := content[i];
      WithoutFacts(entries, r);
      RemovalAscends(content, i);
      content := content[..i] + content[i + 1..];
      entries := Without(entries, r);
      bumped := bumped + 1;
    }

    // remove_row for the oldest row.
    method RemoveFirst()
      requires Valid() && entries != []
      modifies this`content, this`entries, this`bumped
      ensures Valid() && entries == old(entries)[1..] && bumped == old(bumped) + 1
    {
      hide Less, Below, Chronological, Without;
      var i := Below(Indexes(content), Index(entries[0]));
      FindRow(content, entries[0]);
      WithoutFirst(entries);
      RemoveRow(i);
    }

    // The global limit: the oldest rows go first.
    method EvictGlobal()
      requires Valid()
      modifies this`content, this`entries, this`bumped
      ensures Valid()
      ensures entries == Youngest(old(entries), globalLimit)
    {
      hide Chronological;
      if globalLimit > 0 {
        var v := |content| - globalLimit;
        if v > 0 {
          var i := 0;
          while i < v && entries != []
            invariant Valid() && 0 <= i <= v <= |old(entries)| && entries == old(entries)[i..]
          {
            RemoveFirst();
            i := i + 1;
          }
        }
      }
    }

    // The age limit: rows go until the first that is young enough.
    method EvictOld(uptime: nat)
      requires Valid()
      modifies this`content, this`entries, this`bumped
      ensures Valid() && entries == Recent(old(entries), ageOut, uptime)
    {
      hide Chronological;
      if ageOut > 0 {
        while entries != []
          invariant Valid() && Recent(entries, ageOut, uptime) == Recent(old(entries), ageOut, uptime)
          decreases |entries|
        {
          if !(uptime - entries[0].time > ageOut * HUNDREDTHS_IN_A_MINUTE) {
            break;
          }
          RemoveFirst();
        }
      }
    }

    // Where the scan for the rows of a log starts: nothing of the log lies before.
    method ScanStart(log: Oid) returns (start: nat)
      requires Valid()
      ensures start <= |content| && NoneOf(content[..start], log)
    {
      hide Less, Floor;
      var ks := Indexes(content);
      var f := Floor(ks, log);
      FloorIsGreatest(ks, log);
      start := if f >= 0 then f else 0;
      forall j | 0 <= j < start ensures content[j].log != log {
        assert LessEq(ks[j], log);
        LessExtension(content[j].log, [content[j].number]);
        if content[j].log == log {
          LessAsymmetricOrEqual(log, ks[j]);
        }
      }
    }

    // The number of rows of a log, by a scan up to the first row of a greater log.
    method CountRows(log: Oid) returns (n: nat)
      requires Valid()
      ensures n == Count(content, log)
    {
      hide Less, Index, Chronological, LogIndex;
      var i := ScanStart(log);
      n := 0;
      CountNone(content[..i], log);
      while i < |content|
        invariant 0 <= i <= |content| && n == Count(content[..i], log)
      {
        var index := LogOf(content[i]);
        if Less(log, index) {
          NoneBehind(content, i, log);
          break;
        }
        assert content[..i + 1] == content[..i] + [content[i]];
        CountAppend(content[..i], [content[i]], log);
        if index == log {
          n := n + 1;
        }
        i := i + 1;
      }
      assert content == content[..i] + content[i..];
      CountAppend(content[..i], content[i..], log);
      CountNone(content[i..], log);
    }

    // The limit of one log: its oldest rows go.
    method EvictLog(c: ConfigLog)
      requires Valid()
      modifies this`content, this`entries, this`bumped
      ensures Valid() && |content| <= old(|content|)
      ensures entries == DropOldest(old(entries), c.log, Excess(c, Count(old(entries), c.log)))
    {
      hide Valid, DropOldest, Count;
      DropNone(entries, c.log);
      SameCount(c.log);
      if c.limit == 0 {
        return;
      }
      var n := CountRows(c.log);
      if n > c.limit {
        EvictRows(c.log, n - c.limit);
      }
    }

    lemma SameCount(log: Oid)
      requires Valid()
      ensures Count(content, log) == Count(entries, log)
    {
      hide Less;
      CountSame(content, entries, log);
    }

    // Removes the n oldest rows of a log.
    method EvictRows(log: Oid, n: nat)
      requires Valid() && n <= Count(content, log)
      modifies this`content, this`entries, this`bumped
      ensures Valid() && |content| <= old(|content|) && entries == DropOldest(old(entries), log, n)
      ensures forall l :: Count(content, l) == Count(old(content), l) - (if l == log then n else 0)
    {
      hide Less, Valid, DropOldest, Count, NoneOf;
      var i := ScanStart(log);
      var left := n;
      DropNone(entries, log);
      while left > 0 && i < |content|
        invariant Valid() && 0 <= i <= |content| <= old(|content|) && NoneOf(content[..i], log) && 0 <= left <= n
        invariant entries == DropOldest(old(entries), log, n - left)
        invariant forall l :: Count(content, l) == Count(old(content), l) - (if l == log then n - left else 0)
        decreases |content| - i
      {
        var index := LogOf(content[i]);
        if Less(log, index) {
          break;
        }
        if index != log {
          NoneStep(content, i, log);
          i := i + 1;
        } else {
          ghost var before := content;
          RemoveOldest(i);
          assert content[..i] == before[..i];
          DropNext(old(entries), log, n - left);
          left := left - 1;
        }
      }
      AllFound(i, log);
      assert Count(content, log) == Count(old(content), log) - (n - left);
    }

    // Where the scan for a log ends, all rows of the log have been seen.
    lemma AllFound(i: nat, log: Oid)
      requires Valid() && i <= |content| && NoneOf(content[..i], log)
      ensures i == |content| || Less(log, content[i].log) ==> Count(content, log) == 0
    {
      hide Less, Index, Chronological, LogIndex;
      if i == |content| || Less(log, content[i].log) {
        if i < |content| {
          NoneBehind(content, i, log);
        } else {
          assert content[i..] == [];
        }
        NoneJoin(content, i, log);
      }
    }

    // Removes the row at i, the first of its log in index order, hence its oldest.
    method RemoveOldest(i: nat)
      requires Valid() && i < |content| && NoneOf(content[..i], content[i].log)
      modifies this`content, this`entries, this`bumped
      ensures Valid() && content == old(content[..i] + content[i + 1..])
      ensures entries == DropOldest(old(entries), old(content[i].log), 1)
      ensures forall l :: Count(content, l) == Count(old(content), l) - (if l == old(content[i].log) then 1 else 0)
    {
      hide Less, Index, Chronological, LogIndex, DropOldest, Without, Count;
      OldestFirst(content, entries, i);
      forall l {
        CountRemove(content, i, l);
      }
      RemoveRow(i);
    }

    // add_row for a new notification of a log.
    method AddRow(log: Oid, uptime: nat)
      requires Valid() && log in logIndexes && forall r :: r in entries ==> r.time <= uptime
      modifies this`content, this`entries, this`logIndexes, this`logged
      ensures Valid() && logIndexes == old(logIndexes)[log := old(logIndexes)[log] + 1]
      ensures entries == old(entries) + [LogRow(log, logIndexes[log], uptime)] && logged == old(logged) + 1
    {
      hide Less, Below, LogIndex, Index, Consistent;
      RowAdded(content, entries, logIndexes, log, uptime);
      logIndexes := logIndexes[log := logIndexes[log] + 1];
      var r := LogRow(log, logIndexes[log], uptime);
      var i := Below(Indexes(content), Index(r));
      content := content[..i] + [r] + content[i..];
      entries := entries + [r];
      logged := logged + 1;
    }

    // The rows for the first i logs have been added.
    ghost predicate Logged(configs: seq<ConfigLog>, i: nat, before: map<Oid, nat>, was: seq<LogRow>, uptime: nat)
      requires i <= |configs|
      reads this
    {
      && (forall r :: r in entries ==> r.time <= uptime) && logIndexes.Keys == before.Keys
      && entries + NewRows(configs[i..], logIndexes, uptime) == was + NewRows(configs, before, uptime)
      && forall k :: k in before ==>
        logIndexes[k] + Count(NewRows(configs[i..], logIndexes, uptime), k)
          == before[k] + Count(NewRows(configs, before, uptime), k)
    }

    method LogOne(configs: seq<ConfigLog>, i: nat, ghost before: map<Oid, nat>, ghost was: seq<LogRow>, uptime: nat)
      requires Valid() && i < |configs| && Logged(configs, i, before, was, uptime)
      modifies this
      ensures Valid() && Logged(configs, i + 1, before, was, uptime)
    {
      hide Valid, NewRows, Count;
      var c := configs[i];
      NewRowsStep(configs, i, logIndexes, uptime);
      if c.accepts && c.log in logIndexes {
        ghost var rows, r := entries, LogRow(c.log, logIndexes[c.log] + 1, uptime);
        AddRow(c.log, uptime);
        RowMoved(rows, r, NewRows(configs[i + 1..], logIndexes, uptime), uptime);
      }
    }

    // One row for every log that accepts the notification.
    method LogRows(configs: seq<ConfigLog>, uptime: nat)
      requires Valid() && forall r :: r in entries ==> r.time <= uptime
      modifies this
      ensures Valid() && entries == old(entries) + NewRows(configs, old(logIndexes), uptime)
      ensures Numbered(old(logIndexes), logIndexes, NewRows(configs, old(logIndexes), uptime))
    {
      hide Valid, NewRows, Count;
      NoNewRows(logIndexes, uptime);
      ghost var before := logIndexes;
      assert configs[0..] == configs;
      for i := 0 to |configs|
        invariant Valid() && Logged(configs, i, before, old(entries), uptime)
      {
        LogOne(configs, i, before, old(entries), uptime);
      }
      assert configs[|configs|..] == [];
      NoNewRows(logIndexes, uptime);
    }

    // add_notification: the agent's own notifications are not logged.
    method AddNotification(configs: seq<ConfigLog>, own: bool, uptime: nat)
      requires Valid() && forall r :: r in entries ==> r.time <= uptime
      modifies this
      ensures Valid()
      ensures own ==> entries == old(entries) && logIndexes == old(logIndexes)
      ensures !own ==>
        entries == Limited(old(entries) + NewRows(configs, old(logIndexes), uptime), this, configs, uptime)
      ensures !own ==> Numbered(old(logIndexes), logIndexes, NewRows(configs, old(logIndexes), uptime))
      ensures !own ==> var all := old(entries) + NewRows(configs, old(logIndexes), uptime);
        && (forall r :: r in entries ==> r in all)
        && forall i :: 0 <= i < |all| ==>
          (all[i] in entries <==>
            && (globalLimit > 0 ==> |all| - i <= globalLimit)
            && (ageOut > 0 ==> uptime - all[i].time <= ageOut * 6000)
            && forall c :: c in configs && c.log == all[i].log && c.limit > 0 ==>
                 |set x | x in all && x.log == all[i].log && all[i].number <= x.number| <= c.limit)
    {
      hide Chronological, Limited, NewRows, Numbered;
      if own {
        return;
      }
      LogRows(configs, uptime);
      ghost var all := entries;
      CheckLimits(configs, uptime);
      KeptOf(all, configs, uptime);
    }

    // KeptExactly for all rows.
    lemma KeptOf(all: seq<LogRow>, configs: seq<ConfigLog>, uptime: nat)
      requires Chronological(all)
      ensures var kept := Limited(all, this, configs, uptime);
        && (forall r :: r in kept ==> r in all)
        && forall i :: 0 <= i < |all| ==>
          (all[i] in kept <==>
            && (globalLimit > 0 ==> |all| - i <= globalLimit)
            && (ageOut > 0 ==> uptime - all[i].time <= ageOut * 6000)
            && forall c :: c in configs && c.log == all[i].log && c.limit > 0 ==>
                 |set x | x in all && x.log == all[i].log && all[i].number <= x.number| <= c.limit)
    {
      hide Limited, Chronological;
      WithinLimits(all, this, configs, uptime);
      forall i | 0 <= i < |all| {
        KeptExactly(all, this, configs, uptime, i);
      }
    }

    method CheckLimits(configs: seq<ConfigLog>, uptime: nat)
      requires Valid()
      modifies this`content, this`entries, this`bumped
      ensures Valid() && entries == Limited(old(entries), this, configs, uptime)
    {
      hide Valid, Youngest, Recent, DropOldest, Count;
      EvictGlobal();
      EvictOld(uptime);
      ghost var recent := entries;
      for i := 0 to |configs|
        invariant Valid() && entries == PerLog(recent, configs[..i])
      {
        assert configs[..i + 1][..i] == configs[..i];
        EvictLog(configs[i]);
      }
      assert configs[..|configs|] == configs;
    }
  }

  /* The limits as functions on the rows in the order of logging. */

  function Youngest(rows: seq<LogRow>, limit: nat): seq<LogRow> {
    if limit > 0 && |rows| > limit then rows[|rows| - limit..] else rows
  }

  function Recent(rows: seq<LogRow>, ageOut: nat, uptime: nat): seq<LogRow> {
    if ageOut > 0 && rows != [] && uptime - rows[0].time > ageOut * HUNDREDTHS_IN_A_MINUTE
    then Recent(rows[1..], ageOut, uptime)
    else rows
  }

  function PerLog(rows: seq<LogRow>, configs: seq<ConfigLog>): seq<LogRow> {
    if configs == [] then rows
    else
      var c := configs[|configs| - 1];
      var before := PerLog(rows, configs[..|configs| - 1]);
      DropOldest(before, c.log, Excess(c, Count(before, c.log)))
  }

  function Limited(rows: seq<LogRow>, log: Log, configs: seq<ConfigLog>, uptime: nat): seq<LogRow> {
    PerLog(Recent(Youngest(rows, log.globalLimit), log.ageOut, uptime), configs)
  }

  // Every log has given out as many numbers as it has got rows.
  ghost predicate Numbered(before: map<Oid, nat>, after: map<Oid, nat>, added: seq<LogRow>) {
    after.Keys == before.Keys && forall k :: k in before ==> after[k] == before[k] + Count(added, k)
  }

  // The rows that a notification adds.
  function NewRows(configs: seq<ConfigLog>, last: map<Oid, nat>, uptime: nat): seq<LogRow> {
    if configs == [] then []
    else
      var c := configs[0];
      if c.accepts && c.log in last
      then [LogRow(c.log, last[c.log] + 1, uptime)] + NewRows(configs[1..], last[c.log := last[c.log] + 1], uptime)
      else NewRows(configs[1..], last, uptime)
  }

  lemma {:induction false} NoNewRows(last: map<Oid, nat>, uptime: nat)
    ensures NewRows([], last, uptime) == [] && forall k :: Count([], k) == 0
  {
  }

  lemma {:induction false} NewRowsStep(configs: seq<ConfigLog>, i: nat, last: map<Oid, nat>, uptime: nat)
    requires i < |configs|
    ensures NewRows(configs[i..], last, uptime)
      == if configs[i].accepts && configs[i].log in last
         then [LogRow(configs[i].log, last[configs[i].log] + 1, uptime)]
           + NewRows(configs[i + 1..], last[configs[i].log := last[configs[i].log] + 1], uptime)
         else NewRows(configs[i + 1..], last, uptime)
    ensures var c := configs[i];
      if c.accepts && c.log in last then
        forall k :: Count(NewRows(configs[i..], last, uptime), k)
          == Count(NewRows(configs[i + 1..], last[c.log := last[c.log] + 1], uptime), k) + (if k == c.log then 1 else 0)
      else NewRows(configs[i..], last, uptime) == NewRows(configs[i + 1..], last, uptime)
  {
    assert configs[i..][1..] == configs[i + 1..];
  }

  lemma {:induction false} CountWithout(rows: seq<LogRow>, r: LogRow, log: Oid)
    requires r in rows
    ensures Count(Without(rows, r), log) == Count(rows, log) - (if r.log == log then 1 else 0)
  {
    if rows[0] != r {
      CountWithout(rows[1..], r, log);
    }
  }

  lemma {:induction false} HasMember(rows: seq<LogRow>)
    ensures rows == [] || exists r :: r in rows
  {
    if rows != [] {
      assert rows[0] in rows;
    }
  }

  lemma {:induction false} CountSame(content: seq<LogRow>, entries: seq<LogRow>, log: Oid)
    requires Ascending(Indexes(content)) && Chronological(entries) && forall r :: r in content <==> r in entries
    ensures Count(content, log) == Count(entries, log)
  {
    hide Less;
    if content == [] {
      HasMember(entries);
    } else {
      var r := content[0];
      WithoutFacts(entries, r);
      CountWithout(entries, r, log);
      RemovalAscends(content, 0);
      assert content[..0] + content[1..] == content[1..];
      CountSame(content[1..], Without(entries, r), log);
    }
  }

  lemma {:induction false} InsertionAscends(rows: seq<LogRow>, r: LogRow)
    requires Ascending(Indexes(rows)) && forall x :: x in rows ==> Index(x) != Index(r)
    ensures var i := Below(Indexes(rows), Index(r));
      && Ascending(Indexes(rows[..i] + [r] + rows[i..]))
      && forall x :: x in rows[..i] + [r] + rows[i..] <==> x in rows || x == r
  {
    hide Less, Below, Index;
    var ks := Indexes(rows);
    var i := Below(ks, Index(r));
    BelowSplits(ks, Index(r));
    var t := rows[..i] + [r] + rows[i..];
    forall j | i <= j < |rows| ensures Less(Index(r), ks[j]) {
      assert rows[j] in rows;
    }
    KeysAscend(ks, Index(r), i);
    assert Indexes(t) == ks[..i] + [Index(r)] + ks[i..];
    assert rows == rows[..i] + rows[i..];
  }

  lemma {:induction false} KeysAscend(ks: seq<Oid>, k: Oid, i: nat)
    requires Ascending(ks) && i <= |ks|
    requires (forall j :: 0 <= j < i ==> Less(ks[j], k)) && forall j :: i <= j < |ks| ==> Less(k, ks[j])
    ensures Ascending(ks[..i] + [k] + ks[i..])
  {
    hide Less;
  }

  // The index determines the log and the number.
  lemma {:induction false} SameIndex(a: LogRow, b: LogRow)
    requires Index(a) == Index(b)
    ensures a.log == b.log && a.number == b.number
  {
    assert a.log == LogOf(a) && b.log == LogOf(b);
    assert Index(a)[|a.log|] == a.number && Index(b)[|b.log|] == b.number;
  }

  lemma {:induction false} RowAdded(content: seq<LogRow>, entries: seq<LogRow>, logIndexes: map<Oid, nat>, log: Oid,
      uptime: nat)
    requires Consistent(content, entries, logIndexes) && log in logIndexes
    requires forall x :: x in entries ==> x.time <= uptime
    ensures var r := LogRow(log, logIndexes[log] + 1, uptime);
      var i := Below(Indexes(content), Index(r));
      && i <= |content|
      && Consistent(content[..i] + [r] + content[i..], entries + [r], logIndexes[log := logIndexes[log] + 1])
  {
    hide Less, Below, LogIndex, Index, Ascending;
    var r := LogRow(log, logIndexes[log] + 1, uptime);
    forall x | x in content ensures Index(x) != Index(r) {
      if Index(x) == Index(r) {
        SameIndex(x, r);
      }
    }
    BelowSplits(Indexes(content), Index(r));
    InsertionAscends(content, r);
    InsertedChronological(entries, r);
    assert forall x :: x in entries + [r] <==> x in entries || x == r;
  }

  lemma {:induction false} InsertedChronological(rows: seq<LogRow>, r: LogRow)
    requires Chronological(rows)
    requires forall x :: x in rows ==> x.time <= r.time && (x.log == r.log ==> x.number < r.number)
    ensures Chronological(rows + [r])
  {
    forall j | 0 <= j < |rows| ensures rows[j].time <= r.time && (rows[j].log == r.log ==> rows[j].number < r.number) {
      assert rows[j] in rows;
    }
  }

  function Excess(c: ConfigLog, n: nat): nat {
    if c.limit > 0 && n > c.limit then n - c.limit else 0
  }

  lemma {:induction false} NoneStep(rows: seq<LogRow>, i: nat, log: Oid)
    requires i < |rows| && NoneOf(rows[..i], log) && rows[i].log != log
    ensures NoneOf(rows[..i + 1], log)
  {
    assert rows[..i + 1] == rows[..i] + [rows[i]];
  }

  lemma {:induction false} NoneJoin(rows: seq<LogRow>, i: nat, log: Oid)
    requires i <= |rows|
    ensures NoneOf(rows[..i], log) && NoneOf(rows[i..], log) ==> Count(rows, log) == 0
  {
    assert rows == rows[..i] + rows[i..];
    CountNone(rows, log);
  }

  function LogOf(r: LogRow): (k: Oid)
    ensures k == r.log
  {
    Index(r)[..|Index(r)| - 1]
  }

  ghost predicate NoneOf(rows: seq<LogRow>, log: Oid) {
    forall r :: r in rows ==> r.log != log
  }

  lemma {:induction false} CountNone(rows: seq<LogRow>, log: Oid)
    ensures NoneOf(rows, log) <==> Count(rows, log) == 0
  {
    if rows != [] {
      CountNone(rows[1..], log);
      assert rows == [rows[0]] + rows[1..];
    }
  }

  lemma {:induction false} CountAppend(a: seq<LogRow>, b: seq<LogRow>, log: Oid)
    ensures Count(a + b, log) == Count(a, log) + Count(b, log)
  {
    if a == [] {
      assert a + b == b;
    } else {
      CountAppend(a[1..], b, log);
      assert (a + b)[1..] == a[1..] + b;
    }
  }

  lemma {:induction false} CountRemove(rows: seq<LogRow>, i: nat, log: Oid)
    requires i < |rows|
    ensures Count(rows[..i] + rows[i + 1..], log) == Count(rows, log) - (if rows[i].log == log then 1 else 0)
  {
    assert rows == rows[..i] + ([rows[i]] + rows[i + 1..]);
    CountAppend(rows[..i], [rows[i]] + rows[i + 1..], log);
    CountAppend([rows[i]], rows[i + 1..], log);
    CountAppend(rows[..i], rows[i + 1..], log);
  }

  // Behind a row of a greater log there is no row of the log.
  lemma {:induction false} NoneBehind(rows: seq<LogRow>, i: nat, log: Oid)
    requires Ascending(Indexes(rows)) && i < |rows| && Less(log, rows[i].log)
    requires forall r :: r in rows ==> LogIndex(r.log)
    ensures NoneOf(rows[i..], log)
  {
    hide Less, LogIndex;
    forall j | i <= j < |rows| ensures rows[j].log != log {
      LessIrreflexive(log);
      if i < j {
        assert Less(Indexes(rows)[i], Indexes(rows)[j]);
        RowsInOrder(rows[i], rows[j]);
        if Less(rows[i].log, rows[j].log) {
          LessTransitive(log, rows[i].log, rows[j].log);
        }
      }
    }
  }

  lemma {:induction false} DropNone(rows: seq<LogRow>, log: Oid)
    ensures DropOldest(rows, log, 0) == rows
  {
  }

  lemma {:induction false} DropNext(rows: seq<LogRow>, log: Oid, n: nat)
    ensures DropOldest(DropOldest(rows, log, n), log, 1) == DropOldest(rows, log, n + 1)
  {
    if rows != [] && n > 0 {
      if rows[0].log == log {
        DropNext(rows[1..], log, n - 1);
      } else {
        DropNext(rows[1..], log, n);
      }
    }
  }

  // The first row of a log in index order is the log's oldest row.
  lemma {:induction false} OldestFirst(content: seq<LogRow>, entries: seq<LogRow>, i: nat)
    requires Ascending(Indexes(content)) && Chronological(entries) && i < |content|
    requires forall r :: r in content <==> r in entries
    requires forall r :: r in content ==> LogIndex(r.log)
    requires NoneOf(content[..i], content[i].log)
    ensures Without(entries, content[i]) == DropOldest(entries, content[i].log, 1)
  {
    hide Less, LogIndex, Without, DropOldest, Chronological;
    var v := content[i];
    forall j | 0 <= j < i ensures content[j].log != v.log {
      assert content[j] in content[..i];
    }
    forall r | r in entries && r.log == v.log ensures v.number <= r.number {
      var j :| 0 <= j < |content| && content[j] == r;
      if i < j {
        assert Less(Indexes(content)[i], Indexes(content)[j]);
        RowsInOrder(v, r);
        LessIrreflexive(v.log);
      }
    }
    FirstOfLog(entries, v);
  }

  lemma {:induction false} FirstOfLog(rows: seq<LogRow>, v: LogRow)
    requires Chronological(rows) && v in rows && forall r :: r in rows && r.log == v.log ==> v.number <= r.number
    ensures Without(rows, v) == DropOldest(rows, v.log, 1)
  {
    if rows[0].log == v.log {
      assert rows[0] == v;
      DropNone(rows[1..], v.log);
    } else {
      assert rows == [rows[0]] + rows[1..];
      FirstOfLog(rows[1..], v);
    }
  }

  lemma {:induction false} WithoutFirst(rows: seq<LogRow>)
    requires rows != []
    ensures Without(rows, rows[0]) == rows[1..]
  {
  }

  lemma {:induction false} FindRow(rows: seq<LogRow>, r: LogRow)
    requires Ascending(Indexes(rows)) && r in rows
    ensures var i := Below(Indexes(rows), Index(r)); i < |rows| && rows[i] == r
  {
    var ks := Indexes(rows);
    var j :| 0 <= j < |rows| && rows[j] == r;
    BelowUnique(ks, Index(r), j);
  }

  lemma {:induction false} ChronologicalFork(x: LogRow, l: seq<LogRow>)
    ensures Chronological([x] + l) <==> Chronological(l) && forall y :: y in l ==> Earlier(x, y)
  {
    hide Earlier;
    var t := [x] + l;
    if Chronological(t) {
      forall i, j | 0 <= i < j < |l| ensures Earlier(l[i], l[j]) {
        assert t[i + 1] == l[i] && t[j + 1] == l[j];
      }
      forall y | y in l ensures Earlier(x, y) {
        var j :| 0 <= j < |l| && l[j] == y;
        assert t[0] == x && t[j + 1] == y;
      }
    }
    if Chronological(l) && forall y :: y in l ==> Earlier(x, y) {
      forall i, j | 0 <= i < j < |t| ensures Earlier(t[i], t[j]) {
        assert t[j] == l[j - 1] && (i > 0 ==> t[i] == l[i - 1]);
      }
    }
  }

  lemma {:induction false} WithoutFacts(rows: seq<LogRow>, r: LogRow)
    requires Chronological(rows) && r in rows
    ensures Chronological(Without(rows, r)) && |Without(rows, r)| == |rows| - 1
    ensures forall x :: x in Without(rows, r) <==> x in rows && x != r
  {
    hide Chronological;
    assert rows == [rows[0]] + rows[1..];
    ChronologicalFork(rows[0], rows[1..]);
    if rows[0] != r {
      WithoutFacts(rows[1..], r);
      ChronologicalFork(rows[0], Without(rows[1..], r));
    }
  }

  lemma {:induction false} RemovalAscends(rows: seq<LogRow>, i: nat)
    requires Ascending(Indexes(rows)) && i < |rows|
    ensures Ascending(Indexes(rows[..i] + rows[i + 1..]))
    ensures forall x :: x in rows[..i] + rows[i + 1..] <==> x in rows && x != rows[i]
  {
    hide Less;
    var ks := Indexes(rows);
    var rest := rows[..i] + rows[i + 1..];
    assert forall j :: 0 <= j < |rest| ==> Indexes(rest)[j] == ks[if j < i then j else j + 1];
    forall x | x in rows && x != rows[i] ensures x in rest {
      var j :| 0 <= j < |rows| && rows[j] == x;
      assert rest[if j < i then j else j - 1] == x;
    }
    forall j | 0 <= j < |rows| && j != i ensures rows[j] != rows[i] {
      LessIrreflexive(ks[i]);
      assert j < i ==> Less(ks[j], ks[i]);
      assert i < j ==> Less(ks[i], ks[j]);
    }
    assert forall j :: 0 <= j < |rest| ==> rest[j] == rows[if j < i then j else j + 1];
  }

  /* What the limits guarantee. */

  lemma {:induction false} CountDropped(rows: seq<LogRow>, log: Oid, n: nat, l: Oid)
    requires n <= Count(rows, log)
    ensures Count(DropOldest(rows, log, n), l) == Count(rows, l) - (if l == log then n else 0)
    ensures forall r :: r in DropOldest(rows, log, n) ==> r in rows
  {
    if rows != [] && n > 0 {
      assert rows == [rows[0]] + rows[1..];
      if rows[0].log == log {
        CountDropped(rows[1..], log, n - 1, l);
      } else {
        CountDropped(rows[1..], log, n, l);
      }
    }
  }

  lemma {:induction false} DroppedLength(rows: seq<LogRow>, log: Oid, n: nat)
    ensures |DropOldest(rows, log, n)| <= |rows|
  {
    if rows != [] && n > 0 {
      if rows[0].log == log {
        DroppedLength(rows[1..], log, n - 1);
      } else {
        DroppedLength(rows[1..], log, n);
      }
    }
  }

  // The limits of all logs hold together, and they only remove rows.
  lemma {:induction false} PerLogLimits(rows: seq<LogRow>, configs: seq<ConfigLog>)
    ensures |PerLog(rows, configs)| <= |rows| && forall r :: r in PerLog(rows, configs) ==> r in rows
    ensures forall c :: c in configs && c.limit > 0 ==> Count(PerLog(rows, configs), c.log) <= c.limit
    ensures forall l :: Count(PerLog(rows, configs), l) <= Count(rows, l)
  {
    hide DropOldest, Count;
    if configs != [] {
      var n := |configs| - 1;
      PerLogLimits(rows, configs[..n]);
      assert configs == configs[..n] + [configs[n]];
      var before, c := PerLog(rows, configs[..n]), configs[n];
      DroppedLength(before, c.log, Excess(c, Count(before, c.log)));
      forall l {
        CountDropped(before, c.log, Excess(c, Count(before, c.log)), l);
      }
      CountDropped(before, c.log, Excess(c, Count(before, c.log)), c.log);
    }
  }

  lemma {:induction false} RecentRows(rows: seq<LogRow>, ageOut: nat, uptime: nat)
    requires Chronological(rows)
    ensures var kept := Recent(rows, ageOut, uptime);
      && |kept| <= |rows| && kept == rows[|rows| - |kept|..] && (ageOut == 0 ==> kept == rows)
      && (ageOut > 0 ==> forall r :: r in kept ==> uptime - r.time <= ageOut * HUNDREDTHS_IN_A_MINUTE)
      && forall i :: 0 <= i < |rows| - |kept| ==> uptime - rows[i].time > ageOut * HUNDREDTHS_IN_A_MINUTE
  {
    if ageOut > 0 && rows != [] && uptime - rows[0].time > ageOut * HUNDREDTHS_IN_A_MINUTE {
      RecentRows(rows[1..], ageOut, uptime);
    } else {
      forall r | r in rows && ageOut > 0 ensures uptime - r.time <= ageOut * HUNDREDTHS_IN_A_MINUTE {
        var j :| 0 <= j < |rows| && rows[j] == r;
        assert rows[0].time <= rows[j].time;
      }
    }
  }

  // After the limits have been checked, the log as a whole, the age of its rows and every
  // configured log are within their limits.
  lemma {:induction false} WithinLimits(rows: seq<LogRow>, log: Log, configs: seq<ConfigLog>, uptime: nat)
    requires Chronological(rows)
    ensures var kept := Limited(rows, log, configs, uptime);
      && (log.globalLimit > 0 ==> |kept| <= log.globalLimit)
      && (log.ageOut > 0 ==> forall r :: r in kept ==> uptime - r.time <= log.ageOut * HUNDREDTHS_IN_A_MINUTE)
      && (forall c :: c in configs && c.limit > 0 ==> Count(kept, c.log) <= c.limit)
      && forall r :: r in kept ==> r in rows
  {
    hide Recent, PerLog, Count;
    var young := Youngest(rows, log.globalLimit);
    RecentRows(young, log.ageOut, uptime);
    PerLogLimits(Recent(young, log.ageOut, uptime), configs);
  }

  // A log within all limits loses nothing.
  lemma {:induction false} NothingLost(rows: seq<LogRow>, log: Log, configs: seq<ConfigLog>, uptime: nat)
    requires log.globalLimit > 0 ==> |rows| <= log.globalLimit
    requires log.ageOut > 0 ==> forall r :: r in rows ==> uptime - r.time <= log.ageOut * HUNDREDTHS_IN_A_MINUTE
    requires forall c :: c in configs && c.limit > 0 ==> Count(rows, c.log) <= c.limit
    ensures Limited(rows, log, configs, uptime) == rows
  {
    assert Recent(rows, log.ageOut, uptime) == rows;
    PerLogIdle(rows, configs);
  }

  lemma {:induction false} PerLogIdle(rows: seq<LogRow>, configs: seq<ConfigLog>)
    requires forall c :: c in configs && c.limit > 0 ==> Count(rows, c.log) <= c.limit
    ensures PerLog(rows, configs) == rows
  {
    if configs != [] {
      var n := |configs| - 1;
      assert configs == configs[..n] + [configs[n]];
      PerLogIdle(rows, configs[..n]);
      DropNone(rows, configs[n].log);
    }
  }

  /* Exactly which rows stay. */

  function OfLog(rows: seq<LogRow>, log: Oid): set<LogRow> {
    set x | x in rows && x.log == log
  }

  // The rows of the log of r from r on.
  function Newer(rows: seq<LogRow>, r: LogRow): set<LogRow> {
    set x | x in rows && x.log == r.log && r.number <= x.number
  }

  lemma {:induction false} OldestRow(rows: seq<LogRow>)
    requires Chronological(rows) && rows != []
    ensures rows == [rows[0]] + rows[1..] && Chronological(rows[1..]) && rows[0] !in rows[1..]
    ensures forall y :: y in rows[1..] && y.log == rows[0].log ==> rows[0].number < y.number
  {
    hide Chronological;
    assert rows == [rows[0]] + rows[1..];
    ChronologicalFork(rows[0], rows[1..]);
  }

  lemma {:induction false} CountIsSize(rows: seq<LogRow>, log: Oid)
    requires Chronological(rows)
    ensures |OfLog(rows, log)| == Count(rows, log)
  {
    hide Chronological;
    if rows != [] {
      OldestRow(rows);
      CountIsSize(rows[1..], log);
      assert OfLog(rows, log) == OfLog(rows[1..], log) + if rows[0].log == log then {rows[0]} else {};
    }
  }

  lemma {:induction false} NewerCount(rows: seq<LogRow>, r: LogRow)
    requires Chronological(rows)
    ensures |Newer(rows, r)| <= Count(rows, r.log)
    ensures (forall y :: y in rows && y.log == r.log ==> r.number <= y.number) ==>
      |Newer(rows, r)| == Count(rows, r.log)
  {
    CountIsSize(rows, r.log);
    Subset(Newer(rows, r), OfLog(rows, r.log));
    if forall y :: y in rows && y.log == r.log ==> r.number <= y.number {
      assert Newer(rows, r) == OfLog(rows, r.log);
    }
  }

  lemma {:induction false} Subset(a: set<LogRow>, b: set<LogRow>)
    requires a <= b
    ensures |a| <= |b|
  {
    assert b == a + (b - a);
  }

  // An older row does not matter.
  lemma {:induction false} NewerBehind(x: LogRow, rows: seq<LogRow>, r: LogRow)
    requires x.log == r.log ==> x.number < r.number
    ensures Newer([x] + rows, r) == Newer(rows, r)
  {
  }

  lemma {:induction false} SameNewer(a: seq<LogRow>, b: seq<LogRow>, r: LogRow)
    requires forall y: LogRow :: y.log == r.log ==> (y in a <==> y in b)
    ensures Newer(a, r) == Newer(b, r)
  {
  }

  // The n oldest rows of a log are those with too many rows of the log from them on.
  lemma {:induction false} DropKeeps(rows: seq<LogRow>, log: Oid, n: nat, r: LogRow)
    requires Chronological(rows) && n <= Count(rows, log) && r in rows
    ensures r in DropOldest(rows, log, n) <==> r.log != log || |Newer(rows, r)| <= Count(rows, log) - n
    ensures r in DropOldest(rows, log, n) ==> Newer(DropOldest(rows, log, n), r) == Newer(rows, r)
  {
    hide Chronological, Newer;
    NewerCount(rows, r);
    if n > 0 {
      var x, rest := rows[0], rows[1..];
      OldestRow(rows);
      if x.log == log {
        CountDropped(rest, log, n - 1, log);
        if r in rest {
          NewerBehind(x, rest, r);
          DropKeeps(rest, log, n - 1, r);
        }
      } else {
        forall y | y in rest {
          DropKeeps(rest, log, n, y);
        }
        CountDropped(rest, log, n, log);
        var kept := DropOldest(rest, log, n);
        if r in rest {
          NewerBehind(x, rest, r);
          NewerBehind(x, kept, r);
        } else {
          SameNewer(rows, [x] + kept, r);
        }
      }
    }
  }

  lemma {:induction false} DropChronological(rows: seq<LogRow>, log: Oid, n: nat)
    requires Chronological(rows)
    ensures Chronological(DropOldest(rows, log, n)) && forall r :: r in DropOldest(rows, log, n) ==> r in rows
  {
    hide Chronological;
    if rows != [] && n > 0 {
      OldestRow(rows);
      ChronologicalFork(rows[0], rows[1..]);
      if rows[0].log == log {
        DropChronological(rows[1..], log, n - 1);
      } else {
        DropChronological(rows[1..], log, n);
        ChronologicalFork(rows[0], DropOldest(rows[1..], log, n));
      }
    }
  }

  // A row stays under the limits of the logs exactly if no configured limit of its log is
  // less than the number of rows from it on.
  lemma {:induction false} PerLogKeeps(rows: seq<LogRow>, configs: seq<ConfigLog>, r: LogRow)
    requires Chronological(rows) && r in rows
    ensures Chronological(PerLog(rows, configs))
    ensures r in PerLog(rows, configs) <==>
      forall c :: c in configs && c.log == r.log && c.limit > 0 ==> |Newer(rows, r)| <= c.limit
    ensures r in PerLog(rows, configs) ==> Newer(PerLog(rows, configs), r) == Newer(rows, r)
  {
    hide Chronological, Newer, DropOldest;
    if configs != [] {
      var n := |configs| - 1;
      var c, before := configs[n], PerLog(rows, configs[..n]);
      assert configs == configs[..n] + [c];
      PerLogKeeps(rows, configs[..n], r);
      var m := Excess(c, Count(before, c.log));
      DropChronological(before, c.log, m);
      if r in before {
        DropKeeps(before, c.log, m, r);
        NewerCount(before, r);
      }
    }
  }

  lemma {:induction false} NewerSuffix(rows: seq<LogRow>, k: nat, i: nat)
    requires Chronological(rows) && k <= i < |rows|
    ensures Newer(rows[k..], rows[i]) == Newer(rows, rows[i]) && Chronological(rows[k..])
  {
    var r := rows[i];
    forall y | y in Newer(rows, r) ensures y in rows[k..] {
      var j :| 0 <= j < |rows| && rows[j] == y;
      assert rows[k..][j - k] == y;
    }
  }

  lemma {:induction false} InSuffix(rows: seq<LogRow>, k: nat, i: nat)
    requires Chronological(rows) && k <= |rows| && i < |rows|
    ensures rows[i] in rows[k..] <==> k <= i
  {
    if k <= i {
      assert rows[k..][i - k] == rows[i];
    }
  }

  lemma {:induction false} YoungestKeeps(rows: seq<LogRow>, limit: nat, i: nat)
    requires Chronological(rows) && i < |rows|
    ensures Chronological(Youngest(rows, limit)) && (forall r :: r in Youngest(rows, limit) ==> r in rows)
    ensures rows[i] in Youngest(rows, limit) <==> (limit > 0 ==> |rows| - i <= limit)
    ensures rows[i] in Youngest(rows, limit) ==> Newer(Youngest(rows, limit), rows[i]) == Newer(rows, rows[i])
  {
    hide Newer, Chronological;
    var k := |rows| - |Youngest(rows, limit)|;
    InSuffix(rows, k, i);
    NewerSuffix(rows, k, |rows| - 1);
    if k <= i {
      NewerSuffix(rows, k, i);
    }
  }

  lemma {:induction false} RecentKeeps(rows: seq<LogRow>, ageOut: nat, uptime: nat, i: nat)
    requires Chronological(rows) && i < |rows|
    ensures var recent := Recent(rows, ageOut, uptime);
      && Chronological(recent) && (forall r :: r in recent ==> r in rows)
      && (rows[i] in recent <==> (ageOut > 0 ==> uptime - rows[i].time <= ageOut * HUNDREDTHS_IN_A_MINUTE))
      && (rows[i] in recent ==> Newer(recent, rows[i]) == Newer(rows, rows[i]))
  {
    hide Newer, Recent;
    RecentRows(rows, ageOut, uptime);
    var k := |rows| - |Recent(rows, ageOut, uptime)|;
    InSuffix(rows, k, i);
    if k <= i {
      NewerSuffix(rows, k, i);
    }
  }

  // Which rows the limits keep: those that are among the youngest of the whole log, young
  // enough, and among the youngest of their own log.
  lemma {:induction false} KeptExactly(rows: seq<LogRow>, log: Log, configs: seq<ConfigLog>, uptime: nat, i: nat)
    requires Chronological(rows) && i < |rows|
    ensures rows[i] in Limited(rows, log, configs, uptime) <==>
      && (log.globalLimit > 0 ==> |rows| - i <= log.globalLimit)
      && (log.ageOut > 0 ==> uptime - rows[i].time <= log.ageOut * 6000)
      && forall c :: c in configs && c.log == rows[i].log && c.limit > 0 ==>
           |set x | x in rows && x.log == rows[i].log && rows[i].number <= x.number| <= c.limit
  {
    hide Newer, PerLog, Recent, Youngest, Chronological;
    var r, young := rows[i], Youngest(rows, log.globalLimit);
    var recent := Recent(young, log.ageOut, uptime);
    YoungestKeeps(rows, log.globalLimit, i);
    NewerIs(rows, r);
    PerLogLimits(recent, configs);
    if r in young {
      var j :| 0 <= j < |young| && young[j] == r;
      RecentKeeps(young, log.ageOut, uptime, j);
      if r in recent {
        PerLogKeeps(recent, configs, r);
      }
    } else {
      RecentWithin(young, log.ageOut, uptime);
    }
  }

  lemma {:induction false} RecentWithin(rows: seq<LogRow>, ageOut: nat, uptime: nat)
    ensures forall r :: r in Recent(rows, ageOut, uptime) ==> r in rows
  {
    if rows != [] {
      RecentWithin(rows[1..], ageOut, uptime);
    }
  }

  lemma {:induction false} NewerIs(rows: seq<LogRow>, r: LogRow)
    ensures Newer(rows, r) == set x | x in rows && x.log == r.log && r.number <= x.number
  {
  }

  lemma {:induction false} RowMoved(rows: seq<LogRow>, r: LogRow, more: seq<LogRow>, uptime: nat)
    ensures (rows + [r]) + more == rows + ([r] + more)
    ensures r.time <= uptime && (forall x :: x in rows ==> x.time <= uptime) ==>
      forall x :: x in rows + [r] ==> x.time <= uptime
  {
  }

  ghost predicate DistinctLogs(configs: seq<ConfigLog>) {
    forall i, j :: 0 <= i < j < |configs| ==> configs[i].log != configs[j].log
  }

  ghost predicate Added(configs: seq<ConfigLog>, last: map<Oid, nat>, uptime: nat, r: LogRow) {
    exists c :: c in configs && c.accepts && c.log in last && r == LogRow(c.log, last[c.log] + 1, uptime)
  }

  lemma {:induction false} AddedFirst(configs: seq<ConfigLog>, last: map<Oid, nat>, after: map<Oid, nat>, uptime: nat,
      r: LogRow)
    requires DistinctLogs(configs) && configs != [] && after.Keys == last.Keys
    requires forall k :: k in last && k != configs[0].log ==> after[k] == last[k]
    ensures Added(configs, last, uptime, r) <==>
      || (configs[0].accepts && configs[0].log in last && r == LogRow(configs[0].log, last[configs[0].log] + 1, uptime))
      || Added(configs[1..], after, uptime, r)
    ensures DistinctLogs(configs[1..])
  {
    var rest := configs[1..];
    assert configs == [configs[0]] + rest;
    forall d | d in rest ensures d.log != configs[0].log {
      var j :| 0 <= j < |rest| && rest[j] == d;
      assert configs[0].log != configs[j + 1].log;
    }
  }

  // The rows that a notification adds: one for every log that accepts it, with the number
  // behind the last of its log.
  lemma {:induction false} NewRowsExactly(configs: seq<ConfigLog>, last: map<Oid, nat>, uptime: nat, r: LogRow)
    requires DistinctLogs(configs)
    ensures r in NewRows(configs, last, uptime) <==> exists c ::
      c in configs && c.accepts && c.log in last && r == LogRow(c.log, last[c.log] + 1, uptime)
  {
    assert Added(configs, last, uptime, r) <==> exists c ::
      c in configs && c.accepts && c.log in last && r == LogRow(c.log, last[c.log] + 1, uptime);
    NewIfAdded(configs, last, uptime, r);
  }

  lemma {:induction false} NewIfAdded(configs: seq<ConfigLog>, last: map<Oid, nat>, uptime: nat, r: LogRow)
    requires DistinctLogs(configs)
    ensures r in NewRows(configs, last, uptime) <==> Added(configs, last, uptime, r)
  {
    if configs != [] {
      hide Added, DistinctLogs;
      var c := configs[0];
      var after := if c.accepts && c.log in last then last[c.log := last[c.log] + 1] else last;
      AddedFirst(configs, last, after, uptime, r);
      NewIfAdded(configs[1..], after, uptime, r);
    }
  }
}
