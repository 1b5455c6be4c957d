/** VacmViewTreeFamilyTable: which identifiers a view contains. */
module VacmViews {
  import opened Oids
  import opened SortedKeys

  const INCLUDED := 1

  datatype Verdict = NoSuchView | NotInView | AccessAllowed

  // A family of subtrees; its index is made of the view name and the subtree.
  datatype Family = Family(view: Oid, subtree: Oid, mask: seq<bv8>, type_: int)

  function Index(view: Oid, subtree: Oid): Oid {
    [|view|] + view + ([|subtree|] + subtree)
  }

  // bit: whether sub-identifier nr has to agree; masks are extended by ones.
  function Bit(nr: nat, mask: seq<bv8>): bool {
    if |mask| <= nr / 8 then true else (mask[nr / 8] & ((1 as bv8) << (7 - nr % 8))) > 0
  }

  // The bits of an octet, the first one being the most significant.
  const BITS: seq<bv8> := [0x80, 0x40, 0x20, 0x10, 0x08, 0x04, 0x02, 0x01]

  lemma {:induction false} BitMeans(nr: nat, mask: seq<bv8>)
    ensures Bit(nr, mask) <==> |mask| <= nr / 8 || mask[nr / 8] & BITS[nr % 8] != 0
  {
    var k := nr % 8;
    assert (1 as bv8) << (7 - k) == BITS[k] by {
      assert k == 0 || k == 1 || k == 2 || k == 3 || k == 4 || k == 5 || k == 6 || k == 7;
    }
  }

  // oid belongs to the family.
  predicate Matches(f: Family, oid: Oid) {
    |f.subtree| <= |oid| && forall i :: 0 <= i < |f.subtree| ==> f.subtree[i] == oid[i] || !Bit(i, f.mask)
  }

  // The same with the octets of the mask written out: where the identifiers differ, the mask
  // has a zero.
  predicate Contains(f: Family, oid: Oid) {
    && |f.subtree| <= |oid|
    && forall i :: 0 <= i < |f.subtree| ==>
      f.subtree[i] == oid[i] || (i / 8 < |f.mask| && f.mask[i / 8] & BITS[i % 8] == 0)
  }

  lemma {:induction false} ContainsMatches(f: Family, oid: Oid)
    ensures Contains(f, oid) <==> Matches(f, oid)
  {
    hide Bit;
    forall i: nat {
      BitMeans(i, f.mask);
    }
  }

  lemma {:induction false} IndexParts(view: Oid, subtree: Oid)
    ensures var i := Index(view, subtree);
      i[0] == |view| && CutLeft(i, i[0] + 1) == [|subtree|] + subtree && i[1..|view| + 1] == view
  {
    var i := Index(view, subtree);
    assert i[|view| + 1..] == [|subtree|] + subtree;
    assert i[1..|view| + 1] == view;
  }

  lemma {:induction false} IndexInjective(v: Oid, s: Oid, w: Oid, t: Oid)
    requires Index(v, s) == Index(w, t)
    ensures v == w && s == t
  {
    IndexParts(v, s);
    IndexParts(w, t);
    assert ([|s|] + s)[1..] == s && ([|t|] + t)[1..] == t;
  }

  // The rows of one view, by their indexes, in the order in which they have been added.
  datatype ViewNameIndex = ViewNameIndex(name: Oid, views: seq<Oid>)

  ghost predicate Distinct(q: seq<Oid>) {
    forall i, j :: 0 <= i < j < |q| ==> q[i] != q[j]
  }

  // Rows under their own indexes, and an index that lists exactly the rows of the
  // table, grouped by view name.
  ghost predicate Grouped(rows: map<Oid, Family>, index: seq<ViewNameIndex>) {
    Sound(rows, index) && Complete(rows, index)
  }

  ghost predicate Sound(rows: map<Oid, Family>, index: seq<ViewNameIndex>) {
    && (forall k :: k in rows ==> k == Index(rows[k].view, rows[k].subtree))
    && (forall i, j :: 0 <= i < j < |index| ==> index[i].name != index[j].name)
    && (forall i :: 0 <= i < |index| ==> index[i].views != [] && Distinct(index[i].views))
    && (forall i, k :: 0 <= i < |index| && k in index[i].views ==> k in rows && rows[k].view == index[i].name)
  }

  ghost predicate Complete(rows: map<Oid, Family>, index: seq<ViewNameIndex>) {
    forall k :: k in rows ==> exists i :: 0 <= i < |index| && index[i].name == rows[k].view && k in index[i].views
  }

  // The rows that the index lists for a view.
  function ViewList(index: seq<ViewNameIndex>, name: Oid): seq<Oid> {
    if index == [] then [] else if index[0].name == name then index[0].views else ViewList(index[1..], name)
  }

  predicate Has(index: seq<ViewNameIndex>, name: Oid) {
    exists i :: 0 <= i < |index| && index[i].name == name
  }

  lemma {:induction false} ViewListConcat(a: seq<ViewNameIndex>, b: seq<ViewNameIndex>, name: Oid)
    ensures ViewList(a + b, name) == if Has(a, name) then ViewList(a, name) else ViewList(b, name)
  {
    if a == [] {
      assert a + b == b;
    } else {
      ViewListConcat(a[1..], b, name);
      assert (a + b)[1..] == a[1..] + b;
      assert a == [a[0]] + a[1..];
      assert Has(a, name) <==> a[0].name == name || Has(a[1..], name);
    }
  }

  lemma {:induction false} ViewListNone(index: seq<ViewNameIndex>, name: Oid)
    requires !Has(index, name)
    ensures ViewList(index, name) == []
  {
    if index != [] {
      assert forall j :: 0 <= j < |index[1..]| ==> index[1..][j] == index[j + 1];
      ViewListNone(index[1..], name);
    }
  }

  lemma {:induction false} ViewListFirst(e: ViewNameIndex, b: seq<ViewNameIndex>, name: Oid)
    ensures ViewList([e] + b, name) == if name == e.name then e.views else ViewList(b, name)
  {
    assert ([e] + b)[1..] == b;
  }

  lemma {:induction false} OthersNamed(index: seq<ViewNameIndex>, i: nat)
    requires i < |index| && forall j, k :: 0 <= j < k < |index| ==> index[j].name != index[k].name
    ensures !Has(index[..i], index[i].name) && !Has(index[..i] + index[i + 1..], index[i].name)
  {
    var others := index[..i] + index[i + 1..];
    forall j | 0 <= j < |others| ensures others[j].name != index[i].name {
      assert others[j] == index[if j < i then j else j + 1];
    }
  }

  // The list of a view in terms of the position of its entry.
  lemma {:induction false} ViewListSplit(index: seq<ViewNameIndex>, i: nat, name: Oid)
    requires i < |index| && forall j, k :: 0 <= j < k < |index| ==> index[j].name != index[k].name
    ensures ViewList(index, name) ==
      if name == index[i].name then index[i].views else ViewList(index[..i] + index[i + 1..], name)
    ensures ViewList(index[..i] + index[i + 1..], index[i].name) == []
  {
    hide ViewList, Has;
    var a, e, b := index[..i], index[i], index[i + 1..];
    assert index == a + ([e] + b);
    OthersNamed(index, i);
    ViewListConcat(a, [e] + b, name);
    ViewListFirst(e, b, name);
    ViewListConcat(a, b, name);
    ViewListNone(a + b, e.name);
  }

  // Replacing the entry at i.
  lemma {:induction false} ViewListReplace(index: seq<ViewNameIndex>, i: nat, views: seq<Oid>, name: Oid)
    requires i < |index| && forall j, k :: 0 <= j < k < |index| ==> index[j].name != index[k].name
    ensures ViewList(index[i := ViewNameIndex(index[i].name, views)], name)
      == if name == index[i].name then views else ViewList(index, name)
  {
    var index' := index[i := ViewNameIndex(index[i].name, views)];
    ViewListSplit(index, i, name);
    ViewListSplit(index', i, name);
    assert index'[..i] + index'[i + 1..] == index[..i] + index[i + 1..];
  }

  // Row k of the list is the longest match, the last one among equally long ones.
  ghost predicate LastLongest(rows: map<Oid, Family>, list: seq<Oid>, oid: Oid, k: int) {
    && 0 <= k < |list| && list[k] in rows && Matches(rows[list[k]], oid)
    && forall j :: 0 <= j < |list| && list[j] in rows && Matches(rows[list[j]], oid) ==>
      || |rows[list[j]].subtree| < |rows[list[k]].subtree|
      || (|rows[list[j]].subtree| == |rows[list[k]].subtree| && j <= k)
  }

  ghost predicate NoMatch(rows: map<Oid, Family>, list: seq<Oid>, oid: Oid) {
    forall j :: 0 <= j < |list| && list[j] in rows ==> !Matches(rows[list[j]], oid)
  }

  class Table {
    var rows: map<Oid, Family>
    var viewNameIndex: seq<ViewNameIndex>

    ghost predicate Valid()
      reads this
    {
      Grouped(rows, viewNameIndex)
    }

    constructor ()
      ensures Valid() && rows == map[]
    {
      rows, viewNameIndex := map[], [];
    }

    method ViewsOf(name: Oid) returns (i: int)
      ensures -1 <= i < |viewNameIndex| && (i >= 0 ==> viewNameIndex[i].name == name)
      ensures i < 0 ==> forall j :: 0 <= j < |viewNameIndex| ==> viewNameIndex[j].name != name
    {
      i := 0;
      while i < |viewNameIndex|
        invariant 0 <= i <= |viewNameIndex| && forall j :: 0 <= j < i ==> viewNameIndex[j].name != name
      {
        if viewNameIndex[i].name == name {
          return;
        }
        i := i + 1;
      }
      i := -1;
    }

    method AddNewRow(view: Oid, subtree: Oid, mask: seq<bv8>, type_: int) returns (added: bool)
      requires Valid()
      modifies this
      ensures Valid() && added == (Index(view, subtree) !in old(rows))
      ensures rows == if added then old(rows)[Index(view, subtree) := Family(view, subtree, mask, type_)] else old(rows)
      ensures forall name ::
        ViewList(viewNameIndex, name) ==
          ViewList(old(viewNameIndex), name) + (if added && name == view then [Index(view, subtree)] else [])
    {
      hide Index;
      var key := Index(view, subtree);
      if key in rows {
        return false;
      }
      var i := ViewsOf(view);
      ghost var before := viewNameIndex;
      ghost var table := rows;
      rows := rows[key := Family(view, subtree, mask, type_)];
      // row_activated
      if i >= 0 {
        viewNameIndex := viewNameIndex[i := ViewNameIndex(view, viewNameIndex[i].views + [key])];
        GroupedAppend(table, before, key, rows[key], i);
        ListsReplaced(table, before, i, before[i].views + [key]);
      } else {
        viewNameIndex := viewNameIndex + [ViewNameIndex(view, [key])];
        GroupedNew(table, before, key, rows[key]);
        ListsExtended(before, ViewNameIndex(view, [key]));
      }
      return true;
    }

    method DeleteRow(view: Oid, subtree: Oid)
      requires Valid()
      modifies this
      ensures Valid() && rows == old(rows) - {Index(view, subtree)}
      ensures forall name ::
        ViewList(viewNameIndex, name) == Removed(ViewList(old(viewNameIndex), name), Index(view, subtree))
    {
      hide Index, Grouped, Removed;
      var key := Index(view, subtree);
      NotInOtherLists(rows, viewNameIndex, key);
      if key !in rows {
        return;
      }
      ghost var before := viewNameIndex;
      ghost var table := rows;
      // row_deactivated
      var i := ViewsOf(rows[key].view);
      ghost var at := GroupOf(rows, viewNameIndex, key);
      if i >= 0 {
        var views := Removed(viewNameIndex[i].views, key);
        ListsReplaced(table, before, i, views);
        if views == [] {
          viewNameIndex := viewNameIndex[..i] + viewNameIndex[i + 1..];
          GroupedDrop(table, before, key, i);
          ListsDropped(table, before, i);
        } else {
          viewNameIndex := viewNameIndex[i := ViewNameIndex(viewNameIndex[i].name, views)];
          GroupedShrink(table, before, key, i);
        }
      }
      rows := rows - {key};
    }
  }

  lemma {:induction false} ListsReplaced(rows: map<Oid, Family>, index: seq<ViewNameIndex>, i: nat, views: seq<Oid>)
    requires Grouped(rows, index) && i < |index|
    ensures ViewList(index, index[i].name) == index[i].views
    ensures var t := index[i := ViewNameIndex(index[i].name, views)];
      forall name :: ViewList(t, name) == (if name == index[i].name then views else ViewList(index, name))
  {
    ListAt(rows, index, i);
    var t := index[i := ViewNameIndex(index[i].name, views)];
    forall name ensures ViewList(t, name) == (if name == index[i].name then views else ViewList(index, name)) {
      ViewListReplace(index, i, views, name);
    }
  }

  lemma {:induction false} ListsDropped(rows: map<Oid, Family>, index: seq<ViewNameIndex>, i: nat)
    requires Grouped(rows, index) && i < |index|
    ensures var t := index[..i] + index[i + 1..];
      forall name :: ViewList(t, name) == (if name == index[i].name then [] else ViewList(index, name))
  {
    var t := index[..i] + index[i + 1..];
    forall name ensures ViewList(t, name) == (if name == index[i].name then [] else ViewList(index, name)) {
      ViewListSplit(index, i, name);
    }
  }

  lemma {:induction false} ListsExtended(index: seq<ViewNameIndex>, e: ViewNameIndex)
    requires !Has(index, e.name)
    ensures forall name ::
      ViewList(index + [e], name) == ViewList(index, name) + (if name == e.name then e.views else [])
  {
    forall name
      ensures ViewList(index + [e], name) == ViewList(index, name) + (if name == e.name then e.views else [])
    {
      ViewListConcat(index, [e], name);
      if !Has(index, name) {
        ViewListNone(index, name);
      }
    }
  }

  lemma {:induction false} NotInOtherLists(rows: map<Oid, Family>, index: seq<ViewNameIndex>, key: Oid)
    requires Grouped(rows, index)
    ensures forall name :: key !in rows || rows[key].view != name ==>
      Removed(ViewList(index, name), key) == ViewList(index, name)
  {
    forall name
      ensures key !in rows || rows[key].view != name ==> Removed(ViewList(index, name), key) == ViewList(index, name)
    {
      NotInList(rows, index, name, key);
    }
  }

  // A row is listed for no other view than its own.
  lemma {:induction false} NotInList(rows: map<Oid, Family>, index: seq<ViewNameIndex>, name: Oid, key: Oid)
    requires Grouped(rows, index)
    ensures key !in rows || rows[key].view != name ==> Removed(ViewList(index, name), key) == ViewList(index, name)
  {
    if i :| 0 <= i < |index| && index[i].name == name {
      ViewListSplit(index, i, name);
    } else {
      ViewListNone(index, name);
    }
    if key !in rows || rows[key].view != name {
      RemovedNone(ViewList(index, name), key);
    }
  }

  lemma {:induction false} RemovedNone(q: seq<Oid>, key: Oid)
    requires key !in q
    ensures Removed(q, key) == q
  {
    if q != [] {
      RemovedNone(q[1..], key);
    }
  }

  // The list without the first occurrence of key.
  function Removed(q: seq<Oid>, key: Oid): seq<Oid> {
    if q == [] then [] else if q[0] == key then q[1..] else [q[0]] + Removed(q[1..], key)
  }

  lemma {:induction false} RemovedFacts(q: seq<Oid>, key: Oid)
    requires Distinct(q)
    ensures Distinct(Removed(q, key))
    ensures forall k :: k in Removed(q, key) <==> k in q && k != key
  {
    if q != [] {
      RemovedFacts(q[1..], key);
      assert q == [q[0]] + q[1..];
      assert q[0] !in q[1..];
    }
  }

  // Where the index lists row k.
  lemma {:induction false} GroupOf(rows: map<Oid, Family>, index: seq<ViewNameIndex>, k: Oid) returns (i: int)
    requires Grouped(rows, index) && k in rows
    ensures 0 <= i < |index| && index[i].name == rows[k].view && k in index[i].views
    ensures forall j :: 0 <= j < |index| && index[j].name == rows[k].view ==> j == i
  {
    i :| 0 <= i < |index| && index[i].name == rows[k].view && k in index[i].views;
  }

  lemma {:induction false} GroupedAppend(rows: map<Oid, Family>, index: seq<ViewNameIndex>, key: Oid, f: Family, i: nat)
    requires Grouped(rows, index) && key !in rows && key == Index(f.view, f.subtree) && i < |index|
    requires index[i].name == f.view
    ensures Grouped(rows[key := f], index[i := ViewNameIndex(f.view, index[i].views + [key])])
  {
    var views := index[i].views + [key];
    var index' := index[i := ViewNameIndex(f.view, views)];
    forall a, b | 0 <= a < b < |views| ensures views[a] != views[b] {
      assert views[a] in index[i].views;
    }
    var rows' := rows[key := f];
    forall k | k in rows'
      ensures exists j :: 0 <= j < |index'| && index'[j].name == rows'[k].view && k in index'[j].views
    {
      if k == key {
        assert k in index'[i].views;
      } else {
        var j := GroupOf(rows, index, k);
        assert k in index'[j].views;
      }
    }
  }

  lemma {:induction false} GroupedNew(rows: map<Oid, Family>, index: seq<ViewNameIndex>, key: Oid, f: Family)
    requires Grouped(rows, index) && key !in rows && key == Index(f.view, f.subtree)
    requires forall j :: 0 <= j < |index| ==> index[j].name != f.view
    ensures Grouped(rows[key := f], index + [ViewNameIndex(f.view, [key])])
  {
    var index' := index + [ViewNameIndex(f.view, [key])];
    var rows' := rows[key := f];
    forall k | k in rows'
      ensures exists j :: 0 <= j < |index'| && index'[j].name == rows'[k].view && k in index'[j].views
    {
      if k == key {
        assert k in index'[|index|].views;
      } else {
        var j := GroupOf(rows, index, k);
        assert k in index'[j].views;
      }
    }
  }

  lemma {:induction false} GroupedShrink(rows: map<Oid, Family>, index: seq<ViewNameIndex>, key: Oid, i: nat)
    requires Grouped(rows, index) && key in rows && i < |index| && index[i].name == rows[key].view
    requires Removed(index[i].views, key) != []
    ensures Grouped(rows - {key}, index[i := ViewNameIndex(index[i].name, Removed(index[i].views, key))])
  {
    RemovedFacts(index[i].views, key);
    var index' := index[i := ViewNameIndex(index[i].name, Removed(index[i].views, key))];
    forall k | k in rows - {key}
      ensures exists j :: 0 <= j < |index'| && index'[j].name == (rows - {key})[k].view && k in index'[j].views
    {
      var j := GroupOf(rows, index, k);
      assert k in index'[j].views;
    }
  }

  lemma {:induction false} GroupedDrop(rows: map<Oid, Family>, index: seq<ViewNameIndex>, key: Oid, i: nat)
    requires Grouped(rows, index) && key in rows && i < |index| && index[i].name == rows[key].view
    requires Removed(index[i].views, key) == []
    ensures Grouped(rows - {key}, index[..i] + index[i + 1..])
  {
    hide Index, Removed;
    RemovedFacts(index[i].views, key);
    SoundDrop(rows, index, key, i);
    var index' := index[..i] + index[i + 1..];
    forall k | k in rows - {key}
      ensures exists j :: 0 <= j < |index'| && index'[j].name == (rows - {key})[k].view && k in index'[j].views
    {
      var j := GroupOf(rows, index, k);
      assert j != i;
      assert k in index'[if j < i then j else j - 1].views;
    }
  }

  lemma {:induction false} SoundDrop(rows: map<Oid, Family>, index: seq<ViewNameIndex>, key: Oid, i: nat)
    requires Sound(rows, index) && i < |index| && key in rows && index[i].name == rows[key].view
    ensures Sound(rows - {key}, index[..i] + index[i + 1..])
  {
    hide Index, Distinct;
    var index' := index[..i] + index[i + 1..];
    assert forall j :: 0 <= j < |index'| ==> index'[j] == index[if j < i then j else j + 1];
    assert forall j :: 0 <= j < |index'| ==> index'[j].name != rows[key].view;
  }

  /* The decision. */

  // Whether the mask lets oid into the subtree ind.
  method InFamily(ind: Oid, mask: seq<bv8>, oid: Oid) returns (ok: bool)
    requires |ind| <= |oid|
    ensures ok <==> forall i :: 0 <= i < |ind| ==> ind[i] == oid[i] || !Bit(i, mask)
    ensures ok <==> forall i :: 0 <= i < |ind| ==>
      ind[i] == oid[i] || (i / 8 < |mask| && mask[i / 8] & BITS[i % 8] == 0)
  {
    hide Bit;
    forall i: nat {
      BitMeans(i, mask);
    }
    for i := 0 to |ind|
      invariant forall k :: 0 <= k < i ==> ind[k] == oid[k] || !Bit(k, mask)
    {
      if ind[i] != oid[i] && Bit(i, mask) {
        return false;
      }
    }
    ok := true;
  }

  // isInMibView: the verdict is that of the longest matching family of the view; of
  // equally long ones the one added last decides.
  method IsInMibView(t: Table, viewName: Oid, oid: Oid) returns (r: Verdict)
    requires t.Valid()
    ensures var list := ViewList(t.viewNameIndex, viewName);
      && (forall k :: k in list <==> k in t.rows && t.rows[k].view == viewName)
      && (r == NoSuchView <==> list == [])
      && (r == AccessAllowed <==> exists k :: LastLongest(t.rows, list, oid, k) && t.rows[list[k]].type_ == INCLUDED)
    ensures var list := ViewList(t.viewNameIndex, viewName);
      r == AccessAllowed <==> exists k ::
        && 0 <= k < |list| && list[k] in t.rows
        && t.rows[list[k]].type_ == 1 && Contains(t.rows[list[k]], oid)
        && forall j :: 0 <= j < |list| && list[j] in t.rows && Contains(t.rows[list[j]], oid) ==>
             var (f, g) := (t.rows[list[j]], t.rows[list[k]]);
             |f.subtree| < |g.subtree| || (|f.subtree| == |g.subtree| && j <= k)
  {
    hide Index, Grouped, Matches, Contains;
    forall f {
      ContainsMatches(f, oid);
    }
    var i := t.ViewsOf(viewName);
    NotListed(t.rows, t.viewNameIndex, viewName);
    if i < 0 {
      ViewListNone(t.viewNameIndex, viewName);
      return NoSuchView;
    }
    ListAt(t.rows, t.viewNameIndex, i);
    var views := t.viewNameIndex[i].views;
    ListOfView(t.rows, t.viewNameIndex, i);
    var found, row := Longest(t, views, oid);
    if found {
      assert forall k :: LastLongest(t.rows, views, oid, k) ==> k == row;
    }
    r := if found && t.rows[views[row]].type_ == INCLUDED then AccessAllowed else NotInView;
  }

  // The scan over the rows of a view.
  method Longest(t: Table, views: seq<Oid>, oid: Oid) returns (found: bool, foundRow: nat)
    requires forall k :: k in views ==> k in t.rows && k == Index(t.rows[k].view, t.rows[k].subtree)
    ensures if found then LastLongest(t.rows, views, oid, foundRow) else NoMatch(t.rows, views, oid)
  {
    hide Index, LastLongest, NoMatch;
    NoneTried(t.rows, views, oid);
    found, foundRow := false, 0;
    var foundLen := 0;
    for c := 0 to |views|
      invariant found ==> foundRow < c && views[foundRow] in t.rows && LastLongest(t.rows, views[..c], oid, foundRow)
      invariant found ==> foundLen == |t.rows[views[foundRow]].subtree|
      invariant !found ==> NoMatch(t.rows, views[..c], oid)
    {
      assert views[c] in views;
      var ok, length := TestRow(views[c], t.rows[views[c]], oid);
      NextFamily(t.rows, views, oid, c, if found then foundRow else -1, ok);
      if ok && (!found || foundLen <= length) {
        found, foundLen, foundRow := true, length, c;
      }
    }
    assert views[..|views|] == views;
  }

  // One row of the scan: the subtree is read from the row's index.
  method TestRow(key: Oid, row: Family, oid: Oid) returns (ok: bool, length: nat)
    requires key == Index(row.view, row.subtree)
    ensures ok == Matches(row, oid) && length == |row.subtree|
  {
    hide Bit;
    IndexParts(row.view, row.subtree);
    var ind := CutLeft(key, key[0] + 1);
    length := ind[0];
    if ind[0] > |oid| {
      return false, length;
    }
    ind := CutLeft(ind, 1);
    ok := InFamily(ind, row.mask, oid);
  }

  lemma {:induction false} ListAt(rows: map<Oid, Family>, index: seq<ViewNameIndex>, i: nat)
    requires Grouped(rows, index) && i < |index|
    ensures ViewList(index, index[i].name) == index[i].views
  {
    ViewListSplit(index, i, index[i].name);
  }

  lemma {:induction false} NoneTried(rows: map<Oid, Family>, list: seq<Oid>, oid: Oid)
    ensures NoMatch(rows, list[..0], oid)
  {
  }

  lemma {:induction false} NotListed(rows: map<Oid, Family>, index: seq<ViewNameIndex>, name: Oid)
    requires Grouped(rows, index)
    ensures (forall j :: 0 <= j < |index| ==> index[j].name != name) ==> forall k :: k in rows ==> rows[k].view != name
  {
    forall k | k in rows ensures exists j :: 0 <= j < |index| && index[j].name == rows[k].view {
      var j := GroupOf(rows, index, k);
    }
  }

  lemma {:induction false} ListOfView(rows: map<Oid, Family>, index: seq<ViewNameIndex>, i: nat)
    requires Grouped(rows, index) && i < |index|
    ensures index[i].views != [] && forall k :: k in index[i].views <==> k in rows && rows[k].view == index[i].name
    ensures forall k :: k in rows ==> k == Index(rows[k].view, rows[k].subtree)
  {
    forall k | k in rows && rows[k].view == index[i].name ensures k in index[i].views {
      var j := GroupOf(rows, index, k);
    }
  }

  lemma {:induction false} NextFamily(rows: map<Oid, Family>, list: seq<Oid>, oid: Oid, c: nat, at: int, ok: bool)
    requires c < |list| && list[c] in rows && ok == Matches(rows[list[c]], oid)
    requires if at < 0 then NoMatch(rows, list[..c], oid) else LastLongest(rows, list[..c], oid, at)
    ensures !ok && at < 0 ==> NoMatch(rows, list[..c + 1], oid)
    ensures !ok && at >= 0 ==> LastLongest(rows, list[..c + 1], oid, at)
    ensures ok && at < 0 ==> LastLongest(rows, list[..c + 1], oid, c)
    ensures ok && at >= 0 ==>
      LastLongest(rows, list[..c + 1], oid, if |rows[list[at]].subtree| <= |rows[list[c]].subtree| then c else at)
  {
    hide Matches;
    assert forall j :: 0 <= j < c ==> list[..c + 1][j] == list[..c][j] == list[j];
    assert list[..c + 1][c] == list[c];
  }

  // The choice of section 4 of RFC 3415: the longest match, of equally long ones the
  // one with the greatest subtree.
  ghost predicate GreatestLongest(rows: map<Oid, Family>, list: seq<Oid>, oid: Oid, k: int) {
    && 0 <= k < |list| && list[k] in rows && Matches(rows[list[k]], oid)
    && forall j :: 0 <= j < |list| && list[j] in rows && Matches(rows[list[j]], oid) ==>
      || |rows[list[j]].subtree| < |rows[list[k]].subtree|
      || (|rows[list[j]].subtree| == |rows[list[k]].subtree| && LessEq(rows[list[j]].subtree, rows[list[k]].subtree))
  }

  // What is left of a view's list, and of the table, after rows have been deleted.
  function Left(list: seq<Oid>, keys: seq<Oid>): seq<Oid>
    decreases |keys|
  {
    if keys == [] then list else Left(Removed(list, keys[0]), keys[1..])
  }

  function Rest(rows: map<Oid, Family>, keys: seq<Oid>): map<Oid, Family> {
    if keys == [] then rows else Rest(rows - {keys[0]}, keys[1..])
  }

  // Two equally long families share an identifier: where their sub-identifiers differ, one
  // of the masks does not care.
  ghost predicate Overlap(f: Family, g: Family) {
    |f.subtree| == |g.subtree| && forall i :: 0 <= i < |f.subtree| ==>
      f.subtree[i] == g.subtree[i] || !Bit(i, f.mask) || !Bit(i, g.mask)
  }

  lemma {:induction false} OverlapIsShared(f: Family, g: Family)
    requires |f.subtree| == |g.subtree|
    ensures Overlap(f, g) <==> exists oid :: Matches(f, oid) && Matches(g, oid)
  {
    hide Bit;
    if Overlap(f, g) {
      var oid := seq(|f.subtree|,
        i requires 0 <= i < |f.subtree| => if Bit(i, f.mask) then f.subtree[i] else g.subtree[i]);
      assert Matches(f, oid) && Matches(g, oid);
    }
  }

  // The families of the list overlap only in ascending order of their subtrees.
  ghost predicate OverlapsAscend(rows: map<Oid, Family>, list: seq<Oid>)
    requires forall k :: k in list ==> k in rows
  {
    forall i, j :: 0 <= i < j < |list| && Overlap(rows[list[i]], rows[list[j]]) ==>
      !Less(rows[list[j]].subtree, rows[list[i]].subtree)
  }

  // Whatever is deleted, for every identifier the code chooses the family of the standard.
  ghost predicate StandardChoice(rows: map<Oid, Family>, list: seq<Oid>) {
    forall keys, oid, k :: LastLongest(Rest(rows, keys), Left(list, keys), oid, k) ==>
      GreatestLongest(Rest(rows, keys), Left(list, keys), oid, k)
  }

  ghost predicate Before(q: seq<Oid>, x: Oid, y: Oid) {
    exists i, j :: 0 <= i < j < |q| && q[i] == x && q[j] == y
  }

  lemma {:induction false} RemovedOrder(q: seq<Oid>, key: Oid, i: nat, j: nat)
    requires i < j < |Removed(q, key)|
    ensures Before(q, Removed(q, key)[i], Removed(q, key)[j])
  {
    var r := Removed(q, key);
    if q[0] == key {
      assert q[i + 1] == r[i] && q[j + 1] == r[j];
    } else if i > 0 {
      RemovedOrder(q[1..], key, i - 1, j - 1);
      var a, b :| 0 <= a < b < |q[1..]| && q[1..][a] == r[i] && q[1..][b] == r[j];
      assert q[a + 1] == r[i] && q[b + 1] == r[j];
    } else {
      var a := RemovedFrom(q[1..], key, j - 1);
      assert q[0] == r[0] && q[a + 1] == r[j];
    }
  }

  lemma {:induction false} RemovedFrom(q: seq<Oid>, key: Oid, j: nat) returns (a: nat)
    requires j < |Removed(q, key)|
    ensures a < |q| && q[a] == Removed(q, key)[j]
  {
    if q[0] == key {
      a := j + 1;
    } else if j == 0 {
      a := 0;
    } else {
      a := RemovedFrom(q[1..], key, j - 1);
      a := a + 1;
    }
  }

  lemma {:induction false} LeftNext(rows: map<Oid, Family>, list: seq<Oid>, keys: seq<Oid>)
    requires keys != []
    ensures Left(list, keys) == Left(Removed(list, keys[0]), keys[1..])
    ensures Rest(rows, keys) == Rest(rows - {keys[0]}, keys[1..])
  {
  }

  // Deletions leave the remaining rows alone ...
  lemma {:induction false} LeftRows(rows: map<Oid, Family>, list: seq<Oid>, keys: seq<Oid>)
    requires Distinct(list) && forall k :: k in list ==> k in rows
    ensures forall k :: k in Left(list, keys) ==> k in Rest(rows, keys) && k in rows && Rest(rows, keys)[k] == rows[k]
    decreases |keys|
  {
    if keys != [] {
      hide Left, Rest, Removed, Distinct;
      LeftNext(rows, list, keys);
      RemovedFacts(list, keys[0]);
      LeftRows(rows - {keys[0]}, Removed(list, keys[0]), keys[1..]);
    }
  }

  // ... and in their order.
  lemma {:induction false} LeftOrder(list: seq<Oid>, keys: seq<Oid>, i: nat, j: nat)
    requires i < j < |Left(list, keys)|
    ensures Before(list, Left(list, keys)[i], Left(list, keys)[j])
    decreases |keys|
  {
    if keys != [] {
      hide Left, Removed, Before;
      LeftNext(map[], list, keys);
      LeftOrder(Removed(list, keys[0]), keys[1..], i, j);
      BeforeRemoved(list, keys[0], Left(list, keys)[i], Left(list, keys)[j]);
    }
  }

  lemma {:induction false} BeforeRemoved(q: seq<Oid>, key: Oid, x: Oid, y: Oid)
    requires Before(Removed(q, key), x, y)
    ensures Before(q, x, y)
  {
    var i, j :| 0 <= i < j < |Removed(q, key)| && Removed(q, key)[i] == x && Removed(q, key)[j] == y;
    RemovedOrder(q, key, i, j);
  }

  lemma {:induction false} LeftTwice(list: seq<Oid>, a: seq<Oid>, b: seq<Oid>)
    ensures Left(list, a + b) == Left(Left(list, a), b)
    decreases |a|
  {
    if a == [] {
      assert a + b == b;
    } else {
      assert (a + b)[1..] == a[1..] + b;
      LeftTwice(Removed(list, a[0]), a[1..], b);
    }
  }

  // Deleting the front of a list.
  lemma {:induction false} LeftFront(a: seq<Oid>, b: seq<Oid>)
    ensures Left(a + b, a) == b
  {
    if a == [] {
      assert a + b == b;
    } else {
      assert (a + b)[1..] == a[1..] + b;
      LeftFront(a[1..], b);
    }
  }

  lemma {:induction false} LeftKeepsHead(x: Oid, q: seq<Oid>, keys: seq<Oid>)
    requires x !in keys
    ensures Left([x] + q, keys) == [x] + Left(q, keys)
    decreases |keys|
  {
    if keys != [] {
      assert ([x] + q)[1..] == q;
      LeftKeepsHead(x, Removed(q, keys[0]), keys[1..]);
    }
  }

  // Any two rows of a list can be all that is left of it.
  lemma {:induction false} LeftPair(list: seq<Oid>, i: nat, j: nat) returns (keys: seq<Oid>)
    requires Distinct(list) && i < j < |list|
    ensures Left(list, keys) == [list[i], list[j]]
  {
    var a, x, b, y, c := list[..i], list[i], list[i + 1..j], list[j], list[j + 1..];
    assert list == a + ([x] + (b + ([y] + c)));
    keys := a + (b + c);
    LeftTwice(list, a, b + c);
    LeftFront(a, [x] + (b + ([y] + c)));
    LeftTwice([x] + (b + ([y] + c)), b, c);
    LeftKeepsHead(x, b + ([y] + c), b);
    LeftFront(b, [y] + c);
    LeftKeepsHead(x, [y] + c, c);
    LeftKeepsHead(y, c, c);
    assert c + [] == c;
    LeftFront(c, []);
  }

  // The choice is that of the standard, whatever is deleted and for all identifiers,
  // exactly if no family overlaps an equally long one that was added before it and has a
  // greater subtree.
  lemma {:induction false} StandardExactlyWhenAscending(rows: map<Oid, Family>, list: seq<Oid>)
    requires Distinct(list) && forall k :: k in list ==> k in rows
    ensures StandardChoice(rows, list) <==> OverlapsAscend(rows, list)
  {
    hide Less, Matches, Overlap, Left, Rest, Distinct, LastLongest, GreatestLongest;
    if OverlapsAscend(rows, list) {
      forall keys, oid, k | LastLongest(Rest(rows, keys), Left(list, keys), oid, k)
        ensures GreatestLongest(Rest(rows, keys), Left(list, keys), oid, k)
      {
        AscendingChoice(rows, list, keys, oid, k);
      }
    } else {
      var i, j :| 0 <= i < j < |list| && Overlap(rows[list[i]], rows[list[j]])
        && Less(rows[list[j]].subtree, rows[list[i]].subtree);
      var keys, oid := WrongChoice(rows, list, i, j);
    }
  }

  lemma {:induction false} AscendingChoice(rows: map<Oid, Family>, list: seq<Oid>, keys: seq<Oid>, oid: Oid, k: int)
    requires Distinct(list) && (forall x :: x in list ==> x in rows) && OverlapsAscend(rows, list)
    requires LastLongest(Rest(rows, keys), Left(list, keys), oid, k)
    ensures GreatestLongest(Rest(rows, keys), Left(list, keys), oid, k)
  {
    hide Less, Matches, Overlap, Left, Rest, Distinct;
    LeftRows(rows, list, keys);
    var rest, left := Rest(rows, keys), Left(list, keys);
    assert forall j :: 0 <= j < |left| ==> left[j] in left;
    forall j | 0 <= j < k && Matches(rest[left[j]], oid) && |rest[left[j]].subtree| == |rest[left[k]].subtree|
      ensures LessEq(rest[left[j]].subtree, rest[left[k]].subtree)
    {
      var (f, g) := (rest[left[j]], rest[left[k]]);
      OverlapIsShared(f, g);
      LeftOrder(list, keys, j, k);
      var a, b :| 0 <= a < b < |list| && list[a] == left[j] && list[b] == left[k];
      LessTotal(f.subtree, g.subtree);
    }
  }

  lemma {:induction false} WrongChoice(rows: map<Oid, Family>, list: seq<Oid>, i: nat, j: nat)
    returns (keys: seq<Oid>, oid: Oid)
    requires Distinct(list) && (forall k :: k in list ==> k in rows) && i < j < |list|
    requires Overlap(rows[list[i]], rows[list[j]]) && Less(rows[list[j]].subtree, rows[list[i]].subtree)
    ensures LastLongest(Rest(rows, keys), Left(list, keys), oid, 1)
    ensures !GreatestLongest(Rest(rows, keys), Left(list, keys), oid, 1)
  {
    hide Less, Matches, Left, Rest;
    var (f, g) := (rows[list[i]], rows[list[j]]);
    OverlapIsShared(f, g);
    oid :| Matches(f, oid) && Matches(g, oid);
    keys := LeftPair(list, i, j);
    LeftRows(rows, list, keys);
    var left := Left(list, keys);
    assert left[0] == list[i] && left[1] == list[j] && left[0] in left && left[1] in left;
    LessAsymmetricOrEqual(g.subtree, f.subtree);
  }

  // Such families exist, and their verdicts can differ.
  lemma {:induction false} OverlappingFamilies() returns (f: Family, g: Family, oid: Oid)
    ensures Index(f.view, f.subtree) != Index(g.view, g.subtree) && f.view == g.view
    ensures Matches(f, oid) && Matches(g, oid) && |f.subtree| == |g.subtree| && Less(f.subtree, g.subtree)
    ensures (f.type_ == INCLUDED) != (g.type_ == INCLUDED)
  {
    var mask: seq<bv8> := [0x80];
    f, g, oid := Family([7], [1, 2], mask, 1), Family([7], [1, 3], mask, 2), [1, 4];
    assert f.subtree[1..] == [2] && g.subtree[1..] == [3];
    assert Index(f.view, f.subtree) != Index(g.view, g.subtree) by {
      if Index(f.view, f.subtree) == Index(g.view, g.subtree) {
        IndexInjective(f.view, f.subtree, g.view, g.subtree);
      }
    }
    assert !Bit(1, mask);
  }
}
