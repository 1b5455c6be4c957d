/** The search of GETNEXT through a context: which instance answers a request. */
module GetNexts {
  import opened Oids
  import opened Options
  import opened SortedKeys
  import opened MibTables

  // What a context registers: scalar instances and tables.
  datatype Entry = LeafEntry(oid: Oid) | TableEntry(table: Table)

  type Context = seq<Entry>

  type View = Oid -> bool

  function Key(e: Entry): Oid {
    match e
    case LeafEntry(k) => k
    case TableEntry(t) => t.oid
  }

  // max_key(): the bound that the search continues from when an entry is exhausted.
  function Bound(e: Entry): Oid
    requires Key(e) != []
  {
    match e
    case LeafEntry(k) => k
    case TableEntry(t) => MaxKey(t)
  }

  function Keys(ctx: Context): (ks: seq<Oid>)
    ensures |ks| == |ctx| && forall i :: 0 <= i < |ctx| ==> ks[i] == Key(ctx[i])
  {
    seq(|ctx|, i requires 0 <= i < |ctx| => Key(ctx[i]))
  }

  predicate Empty(e: Entry) {
    e.TableEntry? && e.table.rows == []
  }

  // Entries with well-formed tables, in key order, whose scopes do not overlap.
  ghost predicate Registered(ctx: Context) {
    && (forall i :: 0 <= i < |ctx| ==> Key(ctx[i]) != [])
    && (forall i :: 0 <= i < |ctx| && ctx[i].TableEntry? ==> Rectangular(ctx[i].table))
    && (forall i, j :: 0 <= i < j < |ctx| ==> Less(Key(ctx[i]), Key(ctx[j])))
    && (forall i, j :: 0 <= i < j < |ctx| ==> LessEq(Bound(ctx[i]), Key(ctx[j])))
  }

  ghost predicate InScope(e: Entry, oid: Oid)
    requires Key(e) != []
  {
    if e.LeafEntry? then oid == e.oid else LessEq(e.table.oid, oid) && Less(oid, MaxKey(e.table))
  }

  // x names a value that entry i can return.
  ghost predicate Instance(ctx: Context, i: int, x: Oid) {
    && 0 <= i < |ctx|
    && match ctx[i]
       case LeafEntry(k) => x == k
       case TableEntry(t) => exists c, r :: Live(t, c, r) && CellOid(t, c, r) == x
  }

  /* What an answer has to be. */

  // r is the least in-view instance above oid, or None if there is none.
  ghost predicate IsSuccessor(ctx: Context, view: View, oid: Oid, r: Option<Oid>) {
    match r
    case None => forall i, x :: Instance(ctx, i, x) && view(x) ==> LessEq(x, oid)
    case Some(y) =>
      && Less(oid, y) && view(y) && (exists i :: Instance(ctx, i, y))
      && forall i, x :: Instance(ctx, i, x) && view(x) && Less(oid, x) ==> LessEq(y, x)
  }

  lemma {:induction false} SuccessorUnique(ctx: Context, view: View, oid: Oid, r: Option<Oid>, s: Option<Oid>)
    requires IsSuccessor(ctx, view, oid, r) && IsSuccessor(ctx, view, oid, s)
    ensures r == s
  {
    hide Less, Instance;
    if r.Some? && s.Some? {
      if r.value != s.value {
        LessAsymmetric(r.value, s.value);
      }
    } else if r.Some? {
      LessAsymmetricOrEqual(oid, r.value);
    } else if s.Some? {
      LessAsymmetricOrEqual(oid, s.value);
    }
  }

  /* What the code answers, for any registration. */

  // Entry i starts exactly where the scope of the table before it ends.
  predicate Abuts(ctx: Context, i: int) {
    && 0 < i < |ctx| && ctx[i - 1].TableEntry? && ctx[i - 1].table.oid != []
    && Key(ctx[i]) == MaxKey(ctx[i - 1].table)
  }

  ghost predicate LiveAbove(t: Table, oid: Oid) {
    exists c, r :: Live(t, c, r) && Less(oid, CellOid(t, c, r))
  }

  // The search from oid, as long as it finds nothing in the view, examines table i.
  ghost predicate Reached(ctx: Context, oid: Oid, i: int)
    decreases i
  {
    && 0 <= i < |ctx| && ctx[i].TableEntry? && ctx[i].table.rows != []
    && (LiveAbove(ctx[i].table, oid)
        || (Less(oid, Key(ctx[i])) && !(Abuts(ctx, i) && Reached(ctx, oid, i - 1))))
  }

  // The search jumps over entry i: it continues behind the bound of the table before it.
  ghost predicate Skipped(ctx: Context, oid: Oid, i: int) {
    Abuts(ctx, i) && ctx[i].LeafEntry? && Reached(ctx, oid, i - 1)
  }

  ghost predicate Answerable(ctx: Context, view: View, oid: Oid, i: int, x: Oid) {
    Instance(ctx, i, x) && view(x) && !Skipped(ctx, oid, i)
  }

  // r is the least in-view instance above oid that is not skipped.
  ghost predicate IsAnswer(ctx: Context, view: View, oid: Oid, r: Option<Oid>) {
    match r
    case None => forall i, x :: Answerable(ctx, view, oid, i, x) ==> LessEq(x, oid)
    case Some(y) =>
      && Less(oid, y) && view(y) && (exists i :: Answerable(ctx, view, oid, i, y))
      && forall i, x :: Answerable(ctx, view, oid, i, x) && Less(oid, x) ==> LessEq(y, x)
  }

  /* Entries and their scopes. */

  lemma {:induction false} CellScope(t: Table, c: int, r: int)
    requires t.oid != [] && HasCell(t, c, r)
    ensures Less(t.oid, CellOid(t, c, r)) && Less(CellOid(t, c, r), MaxKey(t))
  {
    hide Less;
    var o := CellOid(t, c, r);
    LessExtension(t.oid, [t.cols[c]] + t.rows[r].index);
    assert o == t.oid + ([t.cols[c]] + t.rows[r].index);
    assert RootOf(t.oid, o);
    SubtreeIsInterval(t.oid, o);
  }

  lemma {:induction false} InstanceScope(ctx: Context, i: int, x: Oid)
    requires Registered(ctx) && Instance(ctx, i, x)
    ensures LessEq(Key(ctx[i]), x) && LessEq(x, Bound(ctx[i]))
    ensures ctx[i].TableEntry? ==> Less(Key(ctx[i]), x) && Less(x, Bound(ctx[i]))
  {
    hide Less;
    if ctx[i].TableEntry? {
      var c, r :| Live(ctx[i].table, c, r) && CellOid(ctx[i].table, c, r) == x;
      CellScope(ctx[i].table, c, r);
    }
  }

  // Every instance of the entries before n, except those of skip, is at most oid.
  ghost predicate Behind(ctx: Context, oid: Oid, n: int) {
    forall j, x :: 0 <= j < n && Instance(ctx, j, x) ==> LessEq(x, oid)
  }

  lemma {:induction false} LessEqTransitive(a: Oid, b: Oid, c: Oid)
    requires LessEq(a, b) && LessEq(b, c)
    ensures LessEq(a, c) && (Less(a, b) || Less(b, c) ==> Less(a, c))
  {
    hide Less;
    if Less(a, b) && Less(b, c) {
      LessTransitive(a, b, c);
    }
  }

  // Entries before one whose key is at most oid lie behind oid.
  lemma {:induction false} BehindKey(ctx: Context, oid: Oid, n: int)
    requires Registered(ctx) && 0 <= n < |ctx| && LessEq(Key(ctx[n]), oid)
    ensures Behind(ctx, oid, n)
  {
    hide Less, Instance;
    forall j, x | 0 <= j < n && Instance(ctx, j, x) ensures LessEq(x, oid) {
      InstanceScope(ctx, j, x);
      LessEqTransitive(x, Bound(ctx[j]), Key(ctx[n]));
      LessEqTransitive(x, Key(ctx[n]), oid);
    }
  }

  // An entry that starts at or before oid but does not have it in scope lies behind it.
  lemma {:induction false} BehindScope(ctx: Context, oid: Oid, n: int)
    requires Registered(ctx) && 0 <= n < |ctx| && LessEq(Key(ctx[n]), oid) && !InScope(ctx[n], oid)
    ensures Behind(ctx, oid, n + 1) && LessEq(Bound(ctx[n]), oid)
  {
    hide Less, Instance;
    BehindKey(ctx, oid, n);
    LessTotal(oid, Bound(ctx[n]));
    forall x | Instance(ctx, n, x) ensures LessEq(x, oid) {
      InstanceScope(ctx, n, x);
      LessEqTransitive(x, Bound(ctx[n]), oid);
    }
  }

  lemma {:induction false} KeysAscend(ctx: Context)
    requires Registered(ctx)
    ensures Ascending(Keys(ctx))
  {
    hide Less;
  }

  // find_lower: the last entry whose key is at most oid.
  lemma {:induction false} FloorEntry(ctx: Context, oid: Oid)
    requires Registered(ctx)
    ensures var i := Floor(Keys(ctx), oid);
      && -1 <= i < |ctx|
      && (i >= 0 ==> LessEq(Key(ctx[i]), oid) && Key(ctx[i]) != [])
      && forall j :: i < j < |ctx| ==> !LessEq(Key(ctx[j]), oid)
    ensures oid == [] ==> forall j :: 0 <= j < |ctx| ==> !LessEq(Key(ctx[j]), oid)
  {
    hide Floor;
    KeysAscend(ctx);
    FloorIsGreatest(Keys(ctx), oid);
    assert forall j :: 0 <= j < |ctx| ==> Keys(ctx)[j] == Key(ctx[j]);
  }

  datatype Status = Success | NoSuchObject | NoSuchInstance

  // Whether entry i is responsible for oid, where i is the position found by find_lower.
  method FindManagingObject(ctx: Context, oid: Oid) returns (err: Status, i: int)
    requires Registered(ctx)
    ensures i == Floor(Keys(ctx), oid) && -1 <= i < |ctx| && (i >= 0 ==> Key(ctx[i]) != [])
    ensures err == (if i >= 0 && InScope(ctx[i], oid) then Success
      else if i >= 0 && ctx[i].LeafEntry? && RootOf(Key(ctx[i])[..|Key(ctx[i])| - 1], oid) then NoSuchInstance
      else NoSuchObject)
    ensures err != Success ==> forall j :: 0 <= j < |ctx| ==> !InScope(ctx[j], oid)
  {
    hide Less, Floor, RootOf, Registered, NextPeer;
    FloorEntry(ctx, oid);
    i := Floor(Keys(ctx), oid);
    if |oid| == 0 || i < 0 {
      NoScope(ctx, oid, if |oid| == 0 then -1 else i);
      return NoSuchObject, i;
    }
    if Key(ctx[i]) == oid {
      ScopeOfKey(ctx, i);
      return Success, i;
    }
    if ctx[i].TableEntry?
      && (RootOf(Key(ctx[i]), oid) || (LessEq(Key(ctx[i]), oid) && Less(oid, Bound(ctx[i]))))
    {
      SubtreeIsInterval(Key(ctx[i]), oid);
      return Success, i;
    }
    NoScope(ctx, oid, i);
    if ctx[i].LeafEntry? && RootOf(Key(ctx[i])[..|Key(ctx[i])| - 1], oid) {
      return NoSuchInstance, i;
    }
    return NoSuchObject, i;
  }

  lemma {:induction false} ScopeOfKey(ctx: Context, i: int)
    requires Registered(ctx) && 0 <= i < |ctx|
    ensures InScope(ctx[i], Key(ctx[i]))
  {
    hide Less;
    if ctx[i].TableEntry? {
      SubtreeIsInterval(Key(ctx[i]), Key(ctx[i]));
    }
  }

  // If the last entry at or below oid does not manage it, no entry does.
  lemma {:induction false} NoScope(ctx: Context, oid: Oid, i: int)
    requires Registered(ctx) && -1 <= i < |ctx|
    requires i >= 0 ==> LessEq(Key(ctx[i]), oid) && !InScope(ctx[i], oid)
    requires forall j :: i < j < |ctx| ==> !LessEq(Key(ctx[j]), oid)
    ensures forall j :: 0 <= j < |ctx| ==> !InScope(ctx[j], oid)
  {
    hide Less;
    forall j | 0 <= j < |ctx| && j != i ensures !InScope(ctx[j], oid) {
      if j < i {
        LessEqTransitive(Bound(ctx[j]), Key(ctx[i]), oid);
        if Less(oid, Bound(ctx[j])) {
          LessAsymmetricOrEqual(oid, Bound(ctx[j]));
        }
        if Key(ctx[j]) == oid {
          LessAsymmetricOrEqual(Key(ctx[j]), Key(ctx[i]));
        }
      }
    }
  }

  /* Finding the entry to look at next. */

  // The loops over find_next(key) that pass empty tables.
  method FirstNonEmpty(ctx: Context, start: nat) returns (i: int)
    requires start <= |ctx|
    ensures start <= i <= |ctx| && (i < |ctx| ==> !Empty(ctx[i]))
    ensures forall j :: start <= j < i ==> Empty(ctx[j])
  {
    i := start;
    while i < |ctx| && Empty(ctx[i])
      invariant start <= i <= |ctx| && forall j :: start <= j < i ==> Empty(ctx[j])
    {
      i := i + 1;
    }
  }

  lemma {:induction false} BehindEmpty(ctx: Context, oid: Oid, n: int, m: int)
    requires 0 <= n <= m <= |ctx| && Behind(ctx, oid, n) && forall j :: n <= j < m ==> Empty(ctx[j])
    ensures Behind(ctx, oid, m)
  {
    forall j, x | n <= j < m ensures !Instance(ctx, j, x) {
      assert Empty(ctx[j]);
    }
  }

  // What FindNext has passed when it stops at entry i.
  ghost predicate PassedUpTo(ctx: Context, oid: Oid, i: int) {
    && Behind(ctx, oid, i)
    && forall j :: 0 <= j < i && j < |ctx| && Less(oid, Key(ctx[j])) ==> Empty(ctx[j])
  }

  lemma {:induction false} PassedFrom(ctx: Context, oid: Oid, n: int, m: int)
    requires Registered(ctx) && 0 <= n <= m <= |ctx|
    requires Behind(ctx, oid, n) && (n > 0 ==> LessEq(Key(ctx[n - 1]), oid))
    requires forall j :: n <= j < m ==> Empty(ctx[j])
    ensures PassedUpTo(ctx, oid, m)
  {
    hide Less, Instance;
    BehindEmpty(ctx, oid, n, m);
    forall j | 0 <= j < n && Less(oid, Key(ctx[j])) ensures false {
      LessEqTransitive(Key(ctx[j]), Key(ctx[n - 1]), oid);
      LessAsymmetricOrEqual(oid, Key(ctx[j]));
    }
  }

  // The entry managing oid: everything before it is behind oid.
  lemma {:induction false} ManagedKey(ctx: Context, oid: Oid, i: int)
    requires Registered(ctx) && 0 <= i < |ctx| && InScope(ctx[i], oid)
    ensures LessEq(Key(ctx[i]), oid) && PassedUpTo(ctx, oid, i)
    ensures forall j :: i < j < |ctx| ==> Less(oid, Key(ctx[j]))
  {
    hide Less, Instance;
    BehindKey(ctx, oid, i);
    if i > 0 {
      LessEqTransitive(Key(ctx[i - 1]), Key(ctx[i]), oid);
      BehindKey(ctx, oid, i - 1);
    }
    PassedFrom(ctx, oid, i, i);
    forall j | i < j < |ctx| ensures Less(oid, Key(ctx[j])) {
      if ctx[i].TableEntry? {
        LessEqTransitive(oid, Bound(ctx[i]), Key(ctx[j]));
      }
    }
  }

  lemma {:induction false} NotLiveAbove(ctx: Context, oid: Oid, i: int)
    requires Registered(ctx) && 0 <= i < |ctx| && InScope(ctx[i], oid)
    requires ctx[i].TableEntry? ==> LeastLive(ctx[i].table, oid, [])
    ensures Behind(ctx, oid, i + 1)
  {
    hide Less;
    ManagedKey(ctx, oid, i);
  }

  // find_upper: the first entry whose key is at least oid, if no entry manages oid.
  lemma {:induction false} UpperEntry(ctx: Context, oid: Oid, n: int)
    requires Registered(ctx) && n == Below(Keys(ctx), oid)
    requires forall j :: 0 <= j < |ctx| ==> !InScope(ctx[j], oid)
    ensures 0 <= n <= |ctx| && (n > 0 ==> LessEq(Key(ctx[n - 1]), oid)) && Behind(ctx, oid, n)
    ensures forall j :: n <= j < |ctx| ==> Less(oid, Key(ctx[j]))
  {
    hide Less, Instance;
    KeysAscend(ctx);
    BelowSplits(Keys(ctx), oid);
    if n > 0 {
      assert Less(Keys(ctx)[n - 1], oid);
      BehindScope(ctx, oid, n - 1);
    }
    forall j | n <= j < |ctx| ensures Less(oid, Key(ctx[j])) {
      assert LessEq(oid, Keys(ctx)[j]);
      ScopeOfKey(ctx, j);
    }
  }

  // ok: entry i is the next to look at, with its next instance if that is known already.
  method FindNext(ctx: Context, oid: Oid) returns (ok: bool, i: int, nextOid: Oid)
    requires Registered(ctx)
    ensures !ok ==> Behind(ctx, oid, |ctx|)
    ensures ok ==> 0 <= i < |ctx| && !Empty(ctx[i]) && PassedUpTo(ctx, oid, i)
    ensures ok && nextOid == [] ==> Less(oid, Key(ctx[i]))
    ensures ok && nextOid != [] ==> ctx[i].TableEntry? && LeastLive(ctx[i].table, oid, nextOid)
  {
    hide Less, Registered, Below, Behind, LeastLive, InScope, PassedUpTo;
    nextOid := [];
    var err, m := FindManagingObject(ctx, oid);
    if err != Success {
      var n := Below(Keys(ctx), oid);
      UpperEntry(ctx, oid, n);
      i := FirstNonEmpty(ctx, n);
      PassedFrom(ctx, oid, n, i);
      BehindPassed(ctx, oid, i);
      return i < |ctx|, i, [];
    }
    ManagedKey(ctx, oid, m);
    if ctx[m].TableEntry? {
      TableRectangular(ctx, m);
      nextOid := FindSucc(ctx[m].table, oid);
      if nextOid != [] {
        NotEmpty(ctx[m].table, oid, nextOid);
        return true, m, nextOid;
      }
    }
    NotLiveAbove(ctx, oid, m);
    i := FirstNonEmpty(ctx, m + 1);
    PassedFrom(ctx, oid, m + 1, i);
    BehindPassed(ctx, oid, i);
    return i < |ctx|, i, [];
  }

  lemma {:induction false} BehindPassed(ctx: Context, oid: Oid, i: int)
    requires PassedUpTo(ctx, oid, i)
    ensures Behind(ctx, oid, i)
  {
  }

  lemma {:induction false} TableRectangular(ctx: Context, i: int)
    requires Registered(ctx) && 0 <= i < |ctx| && ctx[i].TableEntry?
    ensures Rectangular(ctx[i].table)
  {
  }

  lemma {:induction false} NotEmpty(t: Table, oid: Oid, x: Oid)
    requires LeastLive(t, oid, x) && x != []
    ensures t.rows != [] && LiveAbove(t, oid)
  {
  }

  /* Stepping over entries that show nothing in the view. */

  // The instances of entry i that may be shown lie at most at oid.
  ghost predicate Exhausted(ctx: Context, view: View, oid: Oid, i: int) {
    forall y :: Instance(ctx, i, y) && view(y) ==> !Less(oid, y)
  }

  ghost predicate LeastVisible(ctx: Context, view: View, oid: Oid, i: int, x: Oid) {
    && Less(oid, x) && Instance(ctx, i, x) && view(x)
    && forall y :: Instance(ctx, i, y) && view(y) && Less(oid, y) ==> LessEq(x, y)
  }

  // next_access_control for a table: the first leaf in the view, starting at x.
  method NextInTable(t: Table, view: View, oid: Oid, start: Oid) returns (x: Oid)
    requires Rectangular(t) && LeastLive(t, oid, start)
    ensures x == [] ==> forall c, r :: Live(t, c, r) && view(CellOid(t, c, r)) ==> !Less(oid, CellOid(t, c, r))
    ensures x != [] ==> Less(oid, x) && view(x) && exists c, r :: Live(t, c, r) && CellOid(t, c, r) == x
    ensures x != [] ==> forall c, r :: Live(t, c, r) && view(CellOid(t, c, r)) && Less(oid, CellOid(t, c, r)) ==>
      LessEq(x, CellOid(t, c, r))
  {
    hide Less, LeastLive, Rectangular;
    x := start;
    ghost var c, r := LiveAt(t, oid, x);
    while x != [] && !view(x)
      invariant x != [] ==> Live(t, c, r) && CellOid(t, c, r) == x && Less(oid, x)
      invariant forall d, s :: Live(t, d, s) && view(CellOid(t, d, s)) && Less(oid, CellOid(t, d, s)) ==>
        x != [] && LessEq(x, CellOid(t, d, s))
      decreases x != [], |t.cols| - c, |t.rows| - r
    {
      var o := x;
      ghost var c0, r0 := c, r;
      x := FindSucc(t, o);
      c, r := LiveAt(t, o, x);
      if x != [] {
        ColumnMajor(t, c0, r0, c, r);
        LessTransitive(oid, o, x);
      }
      forall d, s | Live(t, d, s) && view(CellOid(t, d, s)) && Less(oid, CellOid(t, d, s))
        ensures x != [] && LessEq(x, CellOid(t, d, s))
      {
        LiveAbovePoint(t, o, x, d, s);
      }
    }
  }

  lemma {:induction false} LiveAt(t: Table, oid: Oid, x: Oid) returns (c: int, r: int)
    requires LeastLive(t, oid, x)
    ensures x != [] ==> Live(t, c, r) && CellOid(t, c, r) == x && Less(oid, x)
    ensures forall d, s :: Live(t, d, s) && Less(oid, CellOid(t, d, s)) ==> x != [] && LessEq(x, CellOid(t, d, s))
  {
    hide Less;
    c, r := 0, 0;
    if x != [] {
      c, r :| Live(t, c, r) && CellOid(t, c, r) == x;
    } else {
      forall d, s | Live(t, d, s) ensures !Less(oid, CellOid(t, d, s)) {
        if Less(oid, CellOid(t, d, s)) {
          LessAsymmetricOrEqual(oid, CellOid(t, d, s));
        }
      }
    }
  }

  lemma {:induction false} LiveAbovePoint(t: Table, o: Oid, x: Oid, d: int, s: int)
    requires LeastLive(t, o, x) && Live(t, d, s) && LessEq(o, CellOid(t, d, s)) && CellOid(t, d, s) != o
    ensures x != [] && LessEq(x, CellOid(t, d, s))
  {
    hide Less;
    LessAsymmetricOrEqual(o, CellOid(t, d, s));
  }

  // allowed: x is the next instance of entry i to show; otherwise the bound of the entry.
  method NextAccessControl(ctx: Context, view: View, i: int, oid: Oid, nextOid: Oid) returns (allowed: bool, x: Oid)
    requires Registered(ctx) && 0 <= i < |ctx|
    requires nextOid == [] ==> Less(oid, Key(ctx[i]))
    requires nextOid != [] ==> ctx[i].TableEntry? && LeastLive(ctx[i].table, oid, nextOid)
    ensures allowed ==> LeastVisible(ctx, view, oid, i, x)
    ensures !allowed ==> x == Bound(ctx[i]) && Exhausted(ctx, view, oid, i)
  {
    hide Less, Registered, LeastLive, Rectangular, NextPeer;
    KeyNonempty(ctx, i);
    match ctx[i]
    case LeafEntry(key) =>
      x := key;
      allowed := view(x);
    case TableEntry(t) =>
      TableRectangular(ctx, i);
      var start := nextOid;
      if nextOid == [] {
        start := FindSucc(t, oid);
      }
      x := NextInTable(t, view, oid, start);
      allowed := x != [];
      if !allowed {
        x := MaxKey(t);
      }
  }

  lemma {:induction false} KeyNonempty(ctx: Context, i: int)
    requires Registered(ctx) && 0 <= i < |ctx|
    ensures Key(ctx[i]) != []
  {
  }

  // Where a search for the successor of oid can stand.
  ghost predicate Waypoint(ctx: Context, oid: Oid, tmp: Oid) {
    || tmp == oid
    || exists k ::
        && 0 <= k < |ctx| && Key(ctx[k]) != [] && tmp == Bound(ctx[k])
        && (ctx[k].TableEntry? ==> Reached(ctx, oid, k))
  }

  // A bound inside the scope of entry i is its very beginning, and belongs to the table before it.
  lemma {:induction false} BoundBeforeKey(ctx: Context, k: int, i: int)
    requires Registered(ctx) && 0 <= i < |ctx| && 0 <= k < |ctx|
    requires LessEq(Key(ctx[i]), Bound(ctx[k])) && Less(Bound(ctx[k]), Bound(ctx[i]))
    ensures k == i - 1 && ctx[k].TableEntry? && Bound(ctx[k]) == Key(ctx[i])
  {
    hide Less, NextPeer, Rectangular;
    LessIrreflexive(Bound(ctx[i]));
    KeyUpToBound(ctx, k);
    KeyUpToBound(ctx, i);
    if k > i {
      LessEqTransitive(Bound(ctx[i]), Key(ctx[k]), Bound(ctx[k]));
      LessAsymmetricOrEqual(Bound(ctx[k]), Bound(ctx[i]));
    } else if k < i {
      LessEqAntisymmetric(Key(ctx[i]), Bound(ctx[k]));
      LessIrreflexive(Key(ctx[i]));
      if k < i - 1 {
        LessEqTransitive(Bound(ctx[k]), Key(ctx[i - 1]), Key(ctx[i]));
      }
    }
  }

  lemma {:induction false} LessEqAntisymmetric(a: Oid, b: Oid)
    requires LessEq(a, b) && LessEq(b, a)
    ensures a == b
  {
    hide Less;
    if a != b {
      LessAsymmetric(a, b);
    }
  }

  lemma {:induction false} KeyUpToBound(ctx: Context, i: int)
    requires Registered(ctx) && 0 <= i < |ctx|
    ensures LessEq(Key(ctx[i]), Bound(ctx[i]))
    ensures ctx[i].TableEntry? ==> Less(Key(ctx[i]), Bound(ctx[i]))
  {
    hide Less;
    if ctx[i].TableEntry? {
      var p := Key(ctx[i]);
      SubtreeIsInterval(p, p);
    }
  }

  // The search does not come to the front of entry i after it has been in the table before it.
  lemma {:induction false} NotReached(ctx: Context, oid: Oid, tmp: Oid, i: int)
    requires Registered(ctx) && 0 <= i < |ctx| && LessEq(oid, tmp) && Waypoint(ctx, oid, tmp)
    requires PassedUpTo(ctx, tmp, i) && Less(tmp, Key(ctx[i]))
    ensures !(Abuts(ctx, i) && Reached(ctx, oid, i - 1))
  {
    hide Less, Registered, NextPeer, Rectangular;
    if Abuts(ctx, i) && Reached(ctx, oid, i - 1) {
      var h := i - 1;
      KeyNonempty(ctx, h);
      LessTotal(tmp, Key(ctx[h]));
      assert LessEq(Key(ctx[h]), tmp) && Less(tmp, Bound(ctx[h]));
      if LiveAbove(ctx[h].table, oid) {
        var c, r :| Live(ctx[h].table, c, r) && Less(oid, CellOid(ctx[h].table, c, r));
        var x := CellOid(ctx[h].table, c, r);
        assert Instance(ctx, h, x);
        InstanceScope(ctx, h, x);
        LessAsymmetricOrEqual(oid, x);
        LessEqTransitive(Key(ctx[h]), x, tmp);
        LessIrreflexive(tmp);
        FromBound(ctx, oid, tmp, h);
      } else {
        LessAsymmetricOrEqual(oid, Key(ctx[h]));
        FromBound(ctx, oid, tmp, h);
      }
    }
  }

  // A waypoint inside the scope of entry h is the request itself or the key of h.
  lemma {:induction false} FromBound(ctx: Context, oid: Oid, tmp: Oid, h: int)
    requires Registered(ctx) && 0 <= h < |ctx| && Waypoint(ctx, oid, tmp)
    requires LessEq(Key(ctx[h]), tmp) && Less(tmp, Bound(ctx[h]))
    ensures tmp == oid || (tmp == Key(ctx[h]) && Abuts(ctx, h) && Reached(ctx, oid, h - 1))
  {
    hide Less, Registered, NextPeer, Rectangular, Reached;
    if tmp != oid {
      var k :|
        && 0 <= k < |ctx| && Key(ctx[k]) != [] && tmp == Bound(ctx[k])
        && (ctx[k].TableEntry? ==> Reached(ctx, oid, k));
      BoundBeforeKey(ctx, k, h);
    }
  }

  /* The search. */

  // Nothing that can answer lies above oid and up to tmp.
  ghost predicate NoneUpTo(ctx: Context, view: View, oid: Oid, tmp: Oid) {
    forall j, x :: Answerable(ctx, view, oid, j, x) && Less(oid, x) ==> Less(tmp, x)
  }

  // The loop of GETNEXT.
  method GetNext(ctx: Context, view: View, oid: Oid) returns (r: Option<Oid>)
    requires Registered(ctx)
    ensures IsAnswer(ctx, view, oid, r)
  {
    hide Less, Registered, Answerable, Waypoint, NoneUpTo, PassedUpTo, Behind, LeastLive, LeastVisible, Exhausted;
    hide IsAnswer;
    var tmp := oid;
    ghost var lo := 0;
    FirstWaypoint(ctx, view, oid);
    while true
      invariant 0 <= lo <= |ctx| && LessEq(oid, tmp) && Waypoint(ctx, oid, tmp) && NoneUpTo(ctx, view, oid, tmp)
      invariant BoundsUpTo(ctx, lo, tmp)
      decreases |ctx| - lo
    {
      var ok, i, nextOid := FindNext(ctx, tmp);
      if !ok {
        EndOfView(ctx, view, oid, tmp);
        return None;
      }
      var allowed, x := NextAccessControl(ctx, view, i, tmp, nextOid);
      if allowed {
        Answered(ctx, view, oid, tmp, i, nextOid, x);
        return Some(x);
      }
      StepOver(ctx, view, oid, tmp, i, nextOid, lo);
      tmp := x;
      lo := i + 1;
    }
  }

  ghost predicate BoundsUpTo(ctx: Context, n: int, tmp: Oid) {
    forall j :: 0 <= j < n && j < |ctx| ==> Key(ctx[j]) != [] && LessEq(Bound(ctx[j]), tmp)
  }

  lemma {:induction false} FirstWaypoint(ctx: Context, view: View, oid: Oid)
    ensures Waypoint(ctx, oid, oid) && NoneUpTo(ctx, view, oid, oid) && BoundsUpTo(ctx, 0, oid)
  {
  }

  lemma {:induction false} EndOfView(ctx: Context, view: View, oid: Oid, tmp: Oid)
    requires Behind(ctx, tmp, |ctx|) && NoneUpTo(ctx, view, oid, tmp)
    ensures IsAnswer(ctx, view, oid, None)
  {
    hide Less, Instance;
    forall i, x | Answerable(ctx, view, oid, i, x) ensures LessEq(x, oid) {
      LessTotal(oid, x);
      if Less(oid, x) {
        InstanceRange(ctx, i, x);
        LessAsymmetricOrEqual(tmp, x);
      }
    }
  }

  lemma {:induction false} InstanceRange(ctx: Context, i: int, x: Oid)
    ensures Instance(ctx, i, x) ==> 0 <= i < |ctx|
  {
  }

  lemma {:induction false} Answered(ctx: Context, view: View, oid: Oid, tmp: Oid, i: int, nextOid: Oid, x: Oid)
    requires Registered(ctx) && 0 <= i < |ctx| && LessEq(oid, tmp) && Waypoint(ctx, oid, tmp)
    requires NoneUpTo(ctx, view, oid, tmp)
    requires PassedUpTo(ctx, tmp, i) && (nextOid == [] ==> Less(tmp, Key(ctx[i])))
    requires nextOid != [] ==> ctx[i].TableEntry?
    requires LeastVisible(ctx, view, tmp, i, x)
    ensures IsAnswer(ctx, view, oid, Some(x))
  {
    hide Less, Registered, Instance, Waypoint, Reached;
    LessEqTransitive(oid, tmp, x);
    if nextOid == [] {
      NotReached(ctx, oid, tmp, i);
    }
    assert Answerable(ctx, view, oid, i, x);
    forall j, y | Answerable(ctx, view, oid, j, y) && Less(oid, y) ensures LessEq(x, y) {
      InstanceRange(ctx, j, y);
      assert Less(tmp, y);
      if j < i {
        LessAsymmetricOrEqual(tmp, y);
      } else if j > i {
        LaterInstance(ctx, i, x, j, y);
      }
    }
  }

  lemma {:induction false} LaterInstance(ctx: Context, i: int, x: Oid, j: int, y: Oid)
    requires Registered(ctx) && Instance(ctx, i, x) && Instance(ctx, j, y) && i < j
    ensures LessEq(Bound(ctx[i]), y) && LessEq(x, y)
  {
    hide Less;
    InstanceScope(ctx, i, x);
    InstanceScope(ctx, j, y);
    LessEqTransitive(Bound(ctx[i]), Key(ctx[j]), y);
    LessEqTransitive(x, Bound(ctx[i]), y);
  }

  // Entry i showed nothing: the search goes on from its bound.
  lemma {:induction false} StepOver(ctx: Context, view: View, oid: Oid, tmp: Oid, i: int, nextOid: Oid, lo: int)
    requires Registered(ctx) && 0 <= i < |ctx| && LessEq(oid, tmp) && Waypoint(ctx, oid, tmp)
    requires NoneUpTo(ctx, view, oid, tmp)
    requires PassedUpTo(ctx, tmp, i) && !Empty(ctx[i]) && (nextOid == [] ==> Less(tmp, Key(ctx[i])))
    requires nextOid != [] ==> ctx[i].TableEntry? && LeastLive(ctx[i].table, tmp, nextOid)
    requires Exhausted(ctx, view, tmp, i) && BoundsUpTo(ctx, lo, tmp) && 0 <= lo <= |ctx|
    ensures Key(ctx[i]) != [] && LessEq(oid, Bound(ctx[i])) && lo <= i
    ensures Waypoint(ctx, oid, Bound(ctx[i])) && NoneUpTo(ctx, view, oid, Bound(ctx[i]))
    ensures BoundsUpTo(ctx, i + 1, Bound(ctx[i]))
  {
    hide Less, Registered, Instance, Waypoint, Reached, PassedUpTo, LeastLive, NextPeer;
    BelowBound(ctx, tmp, i, nextOid);
    LessEqTransitive(oid, tmp, Bound(ctx[i]));
    if lo > i {
      LessAsymmetricOrEqual(tmp, Bound(ctx[i]));
    }
    if ctx[i].TableEntry? {
      TableReached(ctx, oid, tmp, i, nextOid);
    }
    BoundWaypoint(ctx, oid, i);
    BoundsSoFar(ctx, i);
    BehindPassed(ctx, tmp, i);
    forall j, y | Answerable(ctx, view, oid, j, y) && Less(oid, y) ensures Less(Bound(ctx[i]), y) {
      InstanceRange(ctx, j, y);
      if j < i {
        LessAsymmetricOrEqual(tmp, y);
      } else if j > i {
        BeyondBound(ctx, oid, i, j, y);
      }
    }
  }

  lemma {:induction false} BoundWaypoint(ctx: Context, oid: Oid, i: int)
    requires 0 <= i < |ctx| && Key(ctx[i]) != [] && (ctx[i].TableEntry? ==> Reached(ctx, oid, i))
    ensures Waypoint(ctx, oid, Bound(ctx[i]))
  {
  }

  lemma {:induction false} BoundsSoFar(ctx: Context, i: int)
    requires Registered(ctx) && 0 <= i < |ctx|
    ensures BoundsUpTo(ctx, i + 1, Bound(ctx[i]))
  {
    hide Less, NextPeer;
    KeyUpToBound(ctx, i);
    forall j | 0 <= j < i ensures LessEq(Bound(ctx[j]), Bound(ctx[i])) {
      LessEqTransitive(Bound(ctx[j]), Key(ctx[i]), Bound(ctx[i]));
    }
  }

  lemma {:induction false} BelowBound(ctx: Context, tmp: Oid, i: int, nextOid: Oid)
    requires Registered(ctx) && 0 <= i < |ctx| && (nextOid == [] ==> Less(tmp, Key(ctx[i])))
    requires nextOid != [] ==> ctx[i].TableEntry? && LeastLive(ctx[i].table, tmp, nextOid)
    ensures Key(ctx[i]) != [] && Less(tmp, Bound(ctx[i]))
  {
    hide Less, NextPeer;
    KeyUpToBound(ctx, i);
    if nextOid == [] {
      LessEqTransitive(tmp, Key(ctx[i]), Bound(ctx[i]));
    } else {
      assert Instance(ctx, i, nextOid);
      InstanceScope(ctx, i, nextOid);
      LessEqTransitive(tmp, nextOid, Bound(ctx[i]));
    }
  }

  lemma {:induction false} TableReached(ctx: Context, oid: Oid, tmp: Oid, i: int, nextOid: Oid)
    requires Registered(ctx) && 0 <= i < |ctx| && LessEq(oid, tmp) && Waypoint(ctx, oid, tmp)
    requires PassedUpTo(ctx, tmp, i) && ctx[i].TableEntry? && !Empty(ctx[i])
    requires nextOid == [] ==> Less(tmp, Key(ctx[i]))
    requires nextOid != [] ==> LeastLive(ctx[i].table, tmp, nextOid)
    ensures Reached(ctx, oid, i)
  {
    hide Less, Registered, Waypoint, PassedUpTo, NextPeer;
    if nextOid == [] {
      NotReached(ctx, oid, tmp, i);
      LessEqTransitive(oid, tmp, Key(ctx[i]));
    } else {
      LessEqTransitive(oid, tmp, nextOid);
    }
  }

  // Behind a reached entry i only what starts exactly at its bound could be missed.
  lemma {:induction false} BeyondBound(ctx: Context, oid: Oid, i: int, j: int, y: Oid)
    requires Registered(ctx) && 0 <= i < j && Instance(ctx, j, y) && !Skipped(ctx, oid, j)
    requires ctx[i].TableEntry? ==> Reached(ctx, oid, i)
    ensures Key(ctx[i]) != [] && Less(Bound(ctx[i]), y)
  {
    hide Less, NextPeer, Rectangular, Reached;
    InstanceScope(ctx, j, y);
    LessEqTransitive(Bound(ctx[i]), Key(ctx[j]), y);
    if ctx[j].LeafEntry? && Bound(ctx[i]) == y && ctx[i].TableEntry? {
      if i < j - 1 {
        LessEqTransitive(Bound(ctx[i]), Key(ctx[j - 1]), Key(ctx[j]));
        LessIrreflexive(y);
      }
    }
  }

  /* When the search is right. */

  // A scalar is registered exactly at the upper bound of a table that has rows.
  ghost predicate ScalarAtBound(ctx: Context, i: int) {
    Abuts(ctx, i) && ctx[i].LeafEntry? && ctx[i - 1].table.rows != []
  }

  ghost predicate AlwaysRight(ctx: Context) {
    forall view: View, oid, r :: IsAnswer(ctx, view, oid, r) ==> IsSuccessor(ctx, view, oid, r)
  }

  // GETNEXT gives the least in-view instance above every requested identifier, in
  // every view, exactly if no scalar sits at the bound of a table that has rows.
  lemma {:induction false} ExactlyWhenRight(ctx: Context)
    requires Registered(ctx)
    ensures AlwaysRight(ctx) <==> forall i :: !ScalarAtBound(ctx, i)
  {
    hide Less, Instance, Registered, IsAnswer, IsSuccessor;
    if forall i :: !ScalarAtBound(ctx, i) {
      forall view: View, oid, r | IsAnswer(ctx, view, oid, r) ensures IsSuccessor(ctx, view, oid, r) {
        AnswerIsSuccessor(ctx, view, oid, r);
      }
    } else {
      var i :| ScalarAtBound(ctx, i);
      var view, oid := MissedScalar(ctx, i);
    }
  }

  lemma {:induction false} AnswerIsSuccessor(ctx: Context, view: View, oid: Oid, r: Option<Oid>)
    requires (forall i :: !ScalarAtBound(ctx, i)) && IsAnswer(ctx, view, oid, r)
    ensures IsSuccessor(ctx, view, oid, r)
  {
    hide Less, Instance;
    forall i, x | Instance(ctx, i, x) && view(x) ensures Answerable(ctx, view, oid, i, x) {
      assert !ScalarAtBound(ctx, i);
    }
    if r.Some? {
      var i :| Answerable(ctx, view, oid, i, r.value);
      assert Instance(ctx, i, r.value);
    }
  }

  // Agents that register scalars with the instance suffix 0 are safe.
  lemma {:induction false} InstanceSuffix(ctx: Context)
    requires Registered(ctx)
    requires forall i :: 0 <= i < |ctx| && ctx[i].LeafEntry? ==> ctx[i].oid[|ctx[i].oid| - 1] == 0
    ensures AlwaysRight(ctx)
  {
    hide Less, AlwaysRight, Instance;
    forall i | 0 < i < |ctx| && ctx[i - 1].TableEntry? ensures !ScalarAtBound(ctx, i) {
      KeyNonempty(ctx, i - 1);
      var b := MaxKey(ctx[i - 1].table);
      assert b[|b| - 1] > 0;
    }
    ExactlyWhenRight(ctx);
  }

  // A view of nothing but that scalar, and a request from which the search is
  // answered with the end of the view although the scalar lies ahead.
  lemma {:induction false} MissedScalar(ctx: Context, i: int) returns (view: View, oid: Oid)
    requires Registered(ctx) && ScalarAtBound(ctx, i)
    ensures IsAnswer(ctx, view, oid, None) && !IsSuccessor(ctx, view, oid, None)
  {
    hide Less, Registered;
    var key := ctx[i].oid;
    view := x => x == key;
    oid := ReachingRequest(ctx, i - 1);
    forall j, x | Answerable(ctx, view, oid, j, x) ensures false {
      OwnEntry(ctx, i, j, key);
    }
    assert Instance(ctx, i, key) && view(key) && Less(oid, key) && !LessEq(key, oid) by {
      BoundAboveKey(ctx, i - 1, oid);
      LessAsymmetricOrEqual(oid, key);
    }
  }

  lemma {:induction false} BoundAboveKey(ctx: Context, h: int, oid: Oid)
    requires Registered(ctx) && 0 <= h < |ctx| && ctx[h].TableEntry? && LessEq(oid, Key(ctx[h]))
    ensures Less(oid, MaxKey(ctx[h].table))
  {
    hide Less, NextPeer;
    KeyUpToBound(ctx, h);
    LessEqTransitive(oid, Key(ctx[h]), Bound(ctx[h]));
  }

  lemma {:induction false} OwnEntry(ctx: Context, i: int, j: int, x: Oid)
    requires Registered(ctx) && 0 <= i < |ctx| && ctx[i].LeafEntry? && ctx[i].oid == x && Instance(ctx, j, x)
    ensures j == i
  {
    hide Less;
    LessIrreflexive(x);
    InstanceScope(ctx, j, x);
    if j < i {
      KeyUpToBound(ctx, j);
      LessEqTransitive(x, Bound(ctx[j]), Key(ctx[i]));
    } else if j > i {
      LessEqTransitive(Key(ctx[i]), Key(ctx[j]), x);
    }
  }

  // A request at or before table h whose search examines that table.
  lemma {:induction false} ReachingRequest(ctx: Context, h: int) returns (oid: Oid)
    requires Registered(ctx) && 0 <= h < |ctx| && ctx[h].TableEntry? && ctx[h].table.rows != []
    ensures Reached(ctx, oid, h) && LessEq(oid, Key(ctx[h]))
  {
    hide Less, NextPeer;
    if Abuts(ctx, h) && ctx[h - 1].table.rows != [] {
      var t := ctx[h - 1].table;
      TableRectangular(ctx, h - 1);
      var c, r := |t.cols| - 1, |t.rows| - 1;
      oid := CellOid(t, c, r);
      CellScope(t, c, r);
      LessAsymmetric(t.oid, oid);
      forall d, s | Live(t, d, s) ensures !Less(oid, CellOid(t, d, s)) {
        ColumnMajor(t, c, r, d, s);
      }
      assert !Reached(ctx, oid, h - 1);
    } else {
      oid := [];
      EmptyFirst(Key(ctx[h]));
    }
  }

  lemma {:induction false} EmptyFirst(o: Oid)
    requires o != []
    ensures Less([], o)
  {
  }

  // Such registrations exist: a table with one row, and a scalar right behind its scope.
  function TableAndScalar(): Context {
    [TableEntry(Table([1, 1], [1], [Row([1], [Cell(true, true)])])), LeafEntry([1, 2])]
  }

  lemma {:induction false} CollidingRegistration() returns (ctx: Context)
    ensures ctx == TableAndScalar()
    ensures Registered(ctx) && ScalarAtBound(ctx, 1) && !AlwaysRight(ctx)
  {
    hide AlwaysRight;
    ctx := TableAndScalar();
    assert MaxKey(ctx[0].table) == [1, 2];
    assert [1, 1][1..] == [1] && [1, 2][1..] == [2];
    assert Registered(ctx) && ScalarAtBound(ctx, 1);
    ExactlyWhenRight(ctx);
  }
}
