/** Walks: which instances repeated GETNEXT shows. */
module Walks {
  import opened Oids
  import opened Options
  import opened SortedKeys
  import opened MibTables
  import opened GetNexts

  ghost function Visible(ctx: Context, view: View): set<Oid> {
    (set i | 0 <= i < |ctx| && ctx[i].LeafEntry? && view(ctx[i].oid) :: ctx[i].oid)
    + (set i, c, r |
        && 0 <= i < |ctx| && ctx[i].TableEntry?
        && 0 <= c < |ctx[i].table.cols| && 0 <= r < |ctx[i].table.rows|
        && Live(ctx[i].table, c, r) && view(CellOid(ctx[i].table, c, r)) :: CellOid(ctx[i].table, c, r))
  }

  lemma {:induction false} VisibleInstance(ctx: Context, view: View, x: Oid)
    ensures x in Visible(ctx, view) <==> view(x) && exists i :: Instance(ctx, i, x)
  {
    if view(x) && exists i :: Instance(ctx, i, x) {
      var i :| Instance(ctx, i, x);
      if ctx[i].TableEntry? {
        var c, r :| Live(ctx[i].table, c, r) && CellOid(ctx[i].table, c, r) == x;
        assert x in set c, r | 0 <= c < |ctx[i].table.cols| && 0 <= r < |ctx[i].table.rows|
            && Live(ctx[i].table, c, r) && view(CellOid(ctx[i].table, c, r)) :: CellOid(ctx[i].table, c, r);
      }
    }
    if x in Visible(ctx, view) {
      if i :| 0 <= i < |ctx| && ctx[i].LeafEntry? && view(ctx[i].oid) && x == ctx[i].oid {
        assert Instance(ctx, i, x);
      } else {
        var i, c, r :|
          && 0 <= i < |ctx| && ctx[i].TableEntry?
          && 0 <= c < |ctx[i].table.cols| && 0 <= r < |ctx[i].table.rows|
          && Live(ctx[i].table, c, r) && view(CellOid(ctx[i].table, c, r)) && x == CellOid(ctx[i].table, c, r);
        assert Instance(ctx, i, x);
      }
    }
  }

  /* What a walk misses. */

  // The search that leaves table i for good has been among its rows: a live leaf lies
  // behind all visible ones, or nothing of the table is visible and the search did not
  // jump over its beginning as well.
  ghost predicate Leaves(ctx: Context, view: View, i: int)
    decreases i
  {
    && 0 <= i < |ctx| && ctx[i].TableEntry? && ctx[i].table.rows != []
    && (|| HiddenTail(ctx[i].table, view)
        || (NothingVisible(ctx[i].table, view) && !(Abuts(ctx, i) && Leaves(ctx, view, i - 1))))
  }

  ghost predicate HiddenTail(t: Table, view: View) {
    exists c, r :: Live(t, c, r) &&
      forall d, s :: Live(t, d, s) && view(CellOid(t, d, s)) ==> Less(CellOid(t, d, s), CellOid(t, c, r))
  }

  ghost predicate NothingVisible(t: Table, view: View) {
    forall c, r :: Live(t, c, r) ==> !view(CellOid(t, c, r))
  }

  // The scalar x sits at the bound of a table that the walk leaves in this way.
  ghost predicate Missed(ctx: Context, view: View, i: int) {
    Abuts(ctx, i) && ctx[i].LeafEntry? && Leaves(ctx, view, i - 1)
  }

  // The walk shows the visible instance x.
  ghost predicate IsShown(ctx: Context, view: View, x: Oid) {
    view(x) && (exists i :: Instance(ctx, i, x)) && !exists i :: Missed(ctx, view, i) && ctx[i].oid == x
  }

  ghost function Shown(ctx: Context, view: View): set<Oid> {
    set x | x in Visible(ctx, view) && IsShown(ctx, view, x)
  }

  lemma {:induction false} ShownIs(ctx: Context, view: View)
    ensures forall x :: x in Shown(ctx, view) <==> IsShown(ctx, view, x)
  {
    hide Visible, Instance, Missed;
    forall x | IsShown(ctx, view, x) ensures x in Visible(ctx, view) {
      VisibleInstance(ctx, view, x);
    }
  }

  // No instance that the walk shows lies strictly between oid and bound.
  ghost predicate NothingShown(ctx: Context, view: View, oid: Oid, bound: Oid) {
    forall x :: IsShown(ctx, view, x) && Less(oid, x) ==> !Less(x, bound)
  }

  // A leaf of a table is shown if it is visible.
  lemma {:induction false} CellShown(ctx: Context, view: View, i: int, c: int, r: int)
    requires Registered(ctx) && 0 <= i < |ctx| && ctx[i].TableEntry? && Live(ctx[i].table, c, r)
    requires view(CellOid(ctx[i].table, c, r))
    ensures IsShown(ctx, view, CellOid(ctx[i].table, c, r))
  {
    hide Less, Leaves;
    var x := CellOid(ctx[i].table, c, r);
    assert Instance(ctx, i, x);
    forall k | Missed(ctx, view, k) && ctx[k].oid == x ensures false {
      OwnEntry(ctx, k, i, x);
    }
  }

  lemma {:induction false} ShownInstance(ctx: Context, view: View, x: Oid) returns (i: int)
    requires IsShown(ctx, view, x)
    ensures Instance(ctx, i, x) && view(x)
  {
    hide Instance;
    i :| Instance(ctx, i, x);
  }

  // An instance in the scope of table i is one of its leaves.
  lemma {:induction false} InstanceOfTable(ctx: Context, i: int, j: int, x: Oid)
    requires Registered(ctx) && 0 <= i < |ctx| && ctx[i].TableEntry? && Instance(ctx, j, x)
    requires LessEq(Key(ctx[i]), x) && Less(x, Bound(ctx[i]))
    ensures j == i && Less(Key(ctx[i]), x)
  {
    hide Less, Rectangular, NextPeer;
    InstanceScope(ctx, j, x);
    if j < i {
      LessEqTransitive(x, Bound(ctx[j]), Key(ctx[i]));
      LessEqAntisymmetric(x, Key(ctx[i]));
      LessEqAntisymmetric(Bound(ctx[j]), x);
      LessIrreflexive(x);
    } else if j > i {
      LessEqTransitive(Bound(ctx[i]), Key(ctx[j]), x);
      LessAsymmetricOrEqual(x, Bound(ctx[i]));
    }
  }

  // From the last shown instance below the bound of table i, the search examines the table
  // exactly if the walk leaves it from among its rows.
  lemma {:induction false} ReachedInWalk(ctx: Context, view: View, oid: Oid, i: int)
    requires Registered(ctx) && 0 <= i < |ctx| && ctx[i].TableEntry? && (oid == [] || IsShown(ctx, view, oid))
    requires Less(oid, Bound(ctx[i])) && NothingShown(ctx, view, oid, Bound(ctx[i]))
    ensures Reached(ctx, oid, i) <==> Leaves(ctx, view, i)
    decreases i
  {
    hide Less, IsShown, Reached, Leaves, Rectangular, NextPeer;
    KeyNonempty(ctx, i);
    LessTotal(oid, Key(ctx[i]));
    if Less(oid, Key(ctx[i])) {
      if Abuts(ctx, i) {
        KeyUpToBound(ctx, i);
        forall x | IsShown(ctx, view, x) && Less(oid, x) ensures !Less(x, Key(ctx[i])) {
          if Less(x, Key(ctx[i])) {
            LessEqTransitive(x, Key(ctx[i]), Bound(ctx[i]));
          }
        }
        ReachedInWalk(ctx, view, oid, i - 1);
      }
      BeforeTable(ctx, view, oid, i);
    } else {
      if oid == [] {
        EmptyFirst(Key(ctx[i]));
      }
      var j := ShownInstance(ctx, view, oid);
      InstanceOfTable(ctx, i, j, oid);
      InsideTable(ctx, view, oid, i);
    }
  }

  lemma {:induction false} VisibleNotAhead(ctx: Context, view: View, oid: Oid, i: int, c: int, r: int)
    requires Registered(ctx) && 0 <= i < |ctx| && ctx[i].TableEntry? && Live(ctx[i].table, c, r)
    requires NothingShown(ctx, view, oid, Bound(ctx[i])) && view(CellOid(ctx[i].table, c, r))
    ensures !Less(oid, CellOid(ctx[i].table, c, r))
  {
    hide Less, IsShown, Rectangular, NextPeer;
    KeyNonempty(ctx, i);
    CellScope(ctx[i].table, c, r);
    CellShown(ctx, view, i, c, r);
  }

  lemma {:induction false} BeforeTable(ctx: Context, view: View, oid: Oid, i: int)
    requires Registered(ctx) && 0 <= i < |ctx| && ctx[i].TableEntry?
    requires Less(oid, Key(ctx[i])) && NothingShown(ctx, view, oid, Bound(ctx[i]))
    requires Abuts(ctx, i) ==> (Reached(ctx, oid, i - 1) <==> Leaves(ctx, view, i - 1))
    ensures Reached(ctx, oid, i) <==> Leaves(ctx, view, i)
  {
    hide Less, NothingShown, Registered, Rectangular, NextPeer;
    var t := ctx[i].table;
    KeyNonempty(ctx, i);
    forall c, r | Live(t, c, r) ensures !view(CellOid(t, c, r)) && Less(oid, CellOid(t, c, r)) {
      CellScope(t, c, r);
      LessTransitive(oid, t.oid, CellOid(t, c, r));
      if view(CellOid(t, c, r)) {
        VisibleNotAhead(ctx, view, oid, i, c, r);
      }
    }
    assert LiveAbove(t, oid) <==> HiddenTail(t, view) by {
      HiddenTailLive(t, view);
    }
  }

  lemma {:induction false} HiddenTailLive(t: Table, view: View)
    requires NothingVisible(t, view)
    ensures HiddenTail(t, view) <==> exists c, r :: Live(t, c, r)
  {
    hide Less;
  }

  lemma {:induction false} InsideTable(ctx: Context, view: View, oid: Oid, i: int)
    requires Registered(ctx) && 0 <= i < |ctx| && ctx[i].TableEntry? && view(oid)
    requires Instance(ctx, i, oid) && Less(Key(ctx[i]), oid) && NothingShown(ctx, view, oid, Bound(ctx[i]))
    ensures Reached(ctx, oid, i) <==> Leaves(ctx, view, i)
  {
    hide Less, NothingShown, Registered, Rectangular, NextPeer;
    var t := ctx[i].table;
    var c0, r0 :| Live(t, c0, r0) && CellOid(t, c0, r0) == oid;
    LessAsymmetric(t.oid, oid);
    if LiveAbove(t, oid) {
      var c, r :| Live(t, c, r) && Less(oid, CellOid(t, c, r));
      forall d, s | Live(t, d, s) && view(CellOid(t, d, s)) ensures Less(CellOid(t, d, s), CellOid(t, c, r)) {
        VisibleNotAhead(ctx, view, oid, i, d, s);
        LessTotal(oid, CellOid(t, d, s));
        LessEqTransitive(CellOid(t, d, s), oid, CellOid(t, c, r));
      }
      assert HiddenTail(t, view);
    }
  }

  // A scalar ahead is jumped over exactly if the walk misses it.
  lemma {:induction false} SkippedInWalk(ctx: Context, view: View, oid: Oid, i: int)
    requires Registered(ctx) && 0 <= i < |ctx| && (oid == [] || IsShown(ctx, view, oid))
    requires Less(oid, Key(ctx[i])) && NothingShown(ctx, view, oid, Key(ctx[i]))
    ensures Skipped(ctx, oid, i) <==> Missed(ctx, view, i)
  {
    hide Less, IsShown, Reached, Leaves, Registered, NextPeer;
    if Abuts(ctx, i) {
      ReachedInWalk(ctx, view, oid, i - 1);
    }
  }

  lemma {:induction false} LeastOf(s: set<Oid>) returns (m: Oid)
    requires s != {}
    ensures m in s && forall x :: x in s ==> LessEq(m, x)
  {
    hide Less;
    var x :| x in s;
    m := x;
    if s - {x} == {} {
      assert s == {x};
    } else {
      var k := LeastOf(s - {x});
      LessTotal(x, k);
      m := if Less(k, x) then k else x;
      forall y | y in s ensures LessEq(m, y) {
        if y != x {
          assert y in s - {x};
          LessEqTransitive(m, k, y);
        }
      }
    }
  }

  // r is the least element of s above oid, None if there is none.
  ghost predicate NextIn(s: set<Oid>, oid: Oid, r: Option<Oid>) {
    match r
    case None => forall x :: x in s ==> LessEq(x, oid)
    case Some(y) => y in s && Less(oid, y) && forall x :: x in s && Less(oid, x) ==> LessEq(y, x)
  }

  // A visible instance is shown unless it is a scalar that the walk misses.
  lemma {:induction false} ShownExactly(ctx: Context, view: View, i: int, y: Oid)
    requires Registered(ctx) && Instance(ctx, i, y) && view(y)
    ensures IsShown(ctx, view, y) <==> !Missed(ctx, view, i)
  {
    hide Less, Leaves, Registered, NextPeer;
    forall k | Missed(ctx, view, k) && ctx[k].oid == y ensures k == i {
      OwnEntry(ctx, k, i, y);
    }
  }

  lemma {:induction false} LeafKey(ctx: Context, i: int, y: Oid)
    requires Instance(ctx, i, y) && ctx[i].LeafEntry?
    ensures Key(ctx[i]) == y
  {
  }

  lemma {:induction false} ScalarsOnly(ctx: Context, view: View, oid: Oid, i: int)
    ensures Skipped(ctx, oid, i) || Missed(ctx, view, i) ==> 0 <= i < |ctx| && ctx[i].LeafEntry?
  {
  }

  // In a walk, GETNEXT gives the next instance that the walk shows: an answer that is not
  // shown would have been skipped, and the least one that is shown is not.
  lemma {:induction false} NextShown(ctx: Context, view: View, oid: Oid, r: Option<Oid>)
    requires Registered(ctx) && IsAnswer(ctx, view, oid, r) && (oid == [] || IsShown(ctx, view, oid))
    ensures NextIn(Shown(ctx, view), oid, r)
  {
    hide Less, Registered, Shown, Visible, Instance, Skipped, IsShown, Missed, Key;
    ShownIs(ctx, view);
    var above := set x | x in Shown(ctx, view) && Less(oid, x);
    var y := [];
    if above == {} {
      forall x | x in Shown(ctx, view) ensures LessEq(x, oid) {
        LessTotal(x, oid);
        assert x !in above;
      }
    } else {
      y := LeastOf(above);
      var i := ShownInstance(ctx, view, y);
      InstanceRange(ctx, i, y);
      LessAsymmetricOrEqual(oid, y);
      forall x | IsShown(ctx, view, x) && Less(oid, x) ensures !Less(x, y) {
        assert x in above;
        if Less(x, y) {
          LessAsymmetricOrEqual(x, y);
        }
      }
      ShownExactly(ctx, view, i, y);
      ScalarsOnly(ctx, view, oid, i);
      if ctx[i].LeafEntry? {
        LeafKey(ctx, i, y);
        SkippedInWalk(ctx, view, oid, i);
      }
      assert Answerable(ctx, view, oid, i, y);
    }
    if r.Some? && (above == {} || r.value != y) {
      var j :| Answerable(ctx, view, oid, j, r.value);
      InstanceRange(ctx, j, r.value);
      forall x | IsShown(ctx, view, x) && Less(oid, x) ensures !Less(x, r.value) {
        assert x in above;
        if Less(x, r.value) {
          LessEqTransitive(y, x, r.value);
          LessAsymmetricOrEqual(y, r.value);
        }
      }
      ShownExactly(ctx, view, j, r.value);
      ScalarsOnly(ctx, view, oid, j);
      if ctx[j].LeafEntry? {
        LeafKey(ctx, j, r.value);
        SkippedInWalk(ctx, view, oid, j);
      }
      assert r.value in above;
      LessEqAntisymmetric(y, r.value);
    }
  }

  /* The walk. */

  // Repeated GETNEXT from the empty identifier shows every visible instance that is not
  // missed once, in order.
  method Walk(ctx: Context, view: View) returns (walk: seq<Oid>)
    requires Registered(ctx)
    ensures Ascending(walk)
    ensures forall x :: x in walk <==> x in Shown(ctx, view)
  {
    hide Less, Registered, Shown, IsAnswer, Instance, IsShown;
    ShownIs(ctx, view);
    walk := [];
    var oid := [];
    var r := GetNext(ctx, view, oid);
    NextShown(ctx, view, oid, r);
    WalkStart(ctx, view);
    while r.Some?
      invariant Ascending(walk) && NextIn(Shown(ctx, view), oid, r)
      invariant forall x :: x in walk <==> x in Shown(ctx, view) && LessEq(x, oid)
      decreases Ahead(Shown(ctx, view), oid)
    {
      WalkStep(Shown(ctx, view), walk, oid, r.value);
      oid := r.value;
      walk := walk + [oid];
      r := GetNext(ctx, view, oid);
      NextShown(ctx, view, oid, r);
    }
  }

  lemma {:induction false} WalkStart(ctx: Context, view: View)
    requires Registered(ctx)
    ensures forall x :: x in Shown(ctx, view) ==> !LessEq(x, [])
  {
    hide Less, Shown, IsShown;
    ShownIs(ctx, view);
    forall x | x in Shown(ctx, view) ensures !LessEq(x, []) {
      var i := ShownInstance(ctx, view, x);
      InstanceScope(ctx, i, x);
      EmptyFirst(Key(ctx[i]));
      LessEqTransitive([], Key(ctx[i]), x);
      LessAsymmetricOrEqual([], x);
    }
  }

  ghost function Ahead(s: set<Oid>, oid: Oid): set<Oid> {
    set x | x in s && Less(oid, x)
  }

  lemma {:induction false} WalkStep(s: set<Oid>, walk: seq<Oid>, oid: Oid, x: Oid)
    requires Ascending(walk) && NextIn(s, oid, Some(x))
    requires forall y :: y in walk <==> y in s && LessEq(y, oid)
    ensures Ascending(walk + [x])
    ensures forall y :: y in walk + [x] <==> y in s && LessEq(y, x)
    ensures Ahead(s, x) < Ahead(s, oid)
  {
    hide Less;
    LessIrreflexive(x);
    forall i | 0 <= i < |walk| ensures Less(walk[i], x) {
      assert walk[i] in walk;
      LessEqTransitive(walk[i], oid, x);
    }
    forall y | y in s ensures LessEq(y, x) <==> LessEq(y, oid) || y == x {
      LessTotal(y, oid);
      if LessEq(y, oid) {
        LessEqTransitive(y, oid, x);
      } else if LessEq(y, x) {
        LessEqAntisymmetric(x, y);
      }
    }
    forall y | y in Ahead(s, x) ensures y in Ahead(s, oid) {
      LessTransitive(oid, x, y);
    }
    assert x in Ahead(s, oid) && x !in Ahead(s, x);
  }

  // A walk shows everything visible exactly if it misses no visible scalar, as is the
  // case where no scalar sits at the bound of a table that has rows.
  lemma {:induction false} CompleteWalk(ctx: Context, view: View)
    requires Registered(ctx)
    ensures Shown(ctx, view) == Visible(ctx, view) <==> forall i :: Missed(ctx, view, i) ==> !view(ctx[i].oid)
    ensures (forall i :: !ScalarAtBound(ctx, i)) ==> Shown(ctx, view) == Visible(ctx, view)
  {
    hide Less, Registered, Visible, Instance;
    forall i | Missed(ctx, view, i)
      ensures ScalarAtBound(ctx, i) && (view(ctx[i].oid) ==> ctx[i].oid in Visible(ctx, view))
    {
      if view(ctx[i].oid) {
        assert Instance(ctx, i, ctx[i].oid) by {
          LeafInstance(ctx, i);
        }
        VisibleInstance(ctx, view, ctx[i].oid);
      }
    }
    forall x | x in Visible(ctx, view) ensures view(x) && exists i :: Instance(ctx, i, x) {
      VisibleInstance(ctx, view, x);
    }
    forall i | Missed(ctx, view, i) && view(ctx[i].oid) ensures Shown(ctx, view) != Visible(ctx, view) {
      assert ctx[i].oid !in Shown(ctx, view);
    }
  }

  lemma {:induction false} LeafInstance(ctx: Context, i: int)
    requires 0 <= i < |ctx| && ctx[i].LeafEntry?
    ensures Instance(ctx, i, ctx[i].oid)
  {
  }

  // A table that has one live leaf, which is not visible.
  lemma {:induction false} OneHidden(t: Table, view: View)
    requires |t.cols| == |t.rows| == 1 && Live(t, 0, 0) && !view(CellOid(t, 0, 0))
    ensures HiddenTail(t, view)
  {
    hide Less;
  }

  lemma {:induction false} LeavesFirst(ctx: Context, view: View)
    requires |ctx| > 0 && ctx[0].TableEntry? && ctx[0].table.rows != [] && HiddenTail(ctx[0].table, view)
    ensures Leaves(ctx, view, 0)
  {
    hide HiddenTail;
  }

  lemma {:induction false} OneRowLeft(view: View)
    requires !view([1, 1, 1, 1])
    ensures Missed(TableAndScalar(), view, 1)
  {
    hide Less, Leaves, HiddenTail;
    var t := TableAndScalar()[0].table;
    assert CellOid(t, 0, 0) == [1, 1, 1, 1];
    OneHidden(t, view);
    LeavesFirst(TableAndScalar(), view);
    assert MaxKey(t) == [1, 2];
  }

  // A view of nothing but the scalar behind a table with one row: the walk shows nothing.
  lemma {:induction false} NothingButMissed() returns (ctx: Context, view: View)
    ensures ctx == TableAndScalar() && Registered(ctx) && Missed(ctx, view, 1)
    ensures [1, 2] in Visible(ctx, view) && Shown(ctx, view) == {}
  {
    hide Less, Visible, Missed, Registered, TableAndScalar;
    ctx := CollidingRegistration();
    view := x => x == [1, 2];
    OneRowLeft(view);
    assert Instance(ctx, 1, [1, 2]) by {
      ScalarInstance();
    }
    VisibleInstance(ctx, view, [1, 2]);
    ShownExactly(ctx, view, 1, [1, 2]);
    forall x | x in Shown(ctx, view) ensures false {
      VisibleInstance(ctx, view, x);
    }
  }

  lemma {:induction false} ScalarInstance()
    ensures Instance(TableAndScalar(), 1, [1, 2])
  {
  }
}
