/** OidList and OidListCursor: nearest-key queries, positions and deletion while iterating. */
module OidLists {
  import opened Oids
  import opened SortedKeys
  import opened SortedItems
  import opened AvlShape
  import opened AvlSteps
  import opened AvlMaps

  // The value at position i, the null pointer if there is none.
  ghost function ValAt(l: seq<Item<EntryPtr>>, i: int): EntryPtr {
    if 0 <= i < |l| then l[i].val else 0
  }

  // The position of x, or -1 if it is missing.
  function PositionOf(ks: seq<Oid>, x: Oid): int {
    var f := Floor(ks, x);
    if 0 <= f < |ks| && ks[f] == x then f else -1
  }

  lemma {:induction false} PositionIs(ks: seq<Oid>, x: Oid, i: int)
    requires Ascending(ks) && if x in ks then 0 <= i < |ks| && ks[i] == x else i == -1
    ensures PositionOf(ks, x) == i
  {
    hide Less, Floor;
    FloorIsGreatest(ks, x);
    if i >= 0 {
      assert forall j :: i < j < |ks| ==> Less(x, ks[j]);
      if i < Floor(ks, x) {
        LessAsymmetricOrEqual(x, ks[Floor(ks, x)]);
      }
    }
  }

  // What the look-ups find, in terms of the item at position i: the last one with a key up
  // to x, the first one from x on, the one of x and its neighbours.
  lemma {:induction false} Found(l: seq<Item<EntryPtr>>, x: Oid, i: nat)
    requires Ordered(l) && i < |l|
    ensures LessEq(l[i].key, x) && (i + 1 < |l| ==> Less(x, l[i + 1].key)) ==>
      ValAt(l, Floor(KeysOf(l), x)) == l[i].val
    ensures LessEq(x, l[i].key) && (i > 0 ==> Less(l[i - 1].key, x)) ==>
      ValAt(l, Below(KeysOf(l), x)) == l[i].val
    ensures l[i].key == x ==>
      && ValAt(l, PositionOf(KeysOf(l), x)) == l[i].val
      && ValAt(l, PositionOf(KeysOf(l), x) + 1) == (if i + 1 < |l| then l[i + 1].val else 0)
      && ValAt(l, PositionOf(KeysOf(l), x) - 1) == (if i > 0 then l[i - 1].val else 0)
  {
    hide Less, Floor, PositionOf;
    var ks := KeysOf(l);
    if LessEq(l[i].key, x) && (i + 1 < |l| ==> Less(x, l[i + 1].key)) {
      FloorAt(ks, x, i);
    }
    if LessEq(x, l[i].key) && (i > 0 ==> Less(l[i - 1].key, x)) {
      BelowUnique(ks, x, i);
    }
    if l[i].key == x {
      PositionIs(ks, x, i);
    }
  }

  lemma {:induction false} FloorAt(ks: seq<Oid>, x: Oid, i: nat)
    requires Ascending(ks) && i < |ks| && LessEq(ks[i], x) && (i + 1 < |ks| ==> Less(x, ks[i + 1]))
    ensures Floor(ks, x) == i
  {
    hide Less;
    if ks[i] == x {
      BelowUnique(ks, x, i);
    } else {
      BelowUnique(ks, x, i + 1);
      LessIrreflexive(x);
    }
  }

  // And when they find nothing.
  lemma {:induction false} NothingFound(l: seq<Item<EntryPtr>>, x: Oid)
    requires Ordered(l)
    ensures (forall i :: 0 <= i < |l| ==> Less(x, l[i].key)) ==> ValAt(l, Floor(KeysOf(l), x)) == 0
    ensures (forall i :: 0 <= i < |l| ==> Less(l[i].key, x)) ==> ValAt(l, Below(KeysOf(l), x)) == 0
    ensures (forall i :: 0 <= i < |l| ==> l[i].key != x) ==>
      ValAt(l, PositionOf(KeysOf(l), x)) == 0 && ValAt(l, PositionOf(KeysOf(l), x) - 1) == 0
  {
    hide Less, PositionOf;
    var ks := KeysOf(l);
    if l != [] && forall i :: 0 <= i < |l| ==> Less(x, l[i].key) {
      BelowUnique(ks, x, 0);
      LessIrreflexive(x);
    }
    if forall i :: 0 <= i < |l| ==> Less(l[i].key, x) {
      BelowUnique(ks, x, |ks|);
    }
    if forall i :: 0 <= i < |l| ==> l[i].key != x {
      PositionIs(ks, x, -1);
    }
  }

  // A cursor at another key still denotes that key exactly if its node is not the freed one.
  lemma {:induction false} CursorSurvives(t: Tree, t': Tree, key: Oid, i: nat, freed: Node?, j: nat)
    requires Distinct(t) && Removed(Elems(t), Elems(t'), key, i, freed) && freed != null && j < |Elems(t)| && j != i
    ensures var j' := if j < i then j else j - 1;
      && j' < |Elems(t')|
      && Elems(t')[j'].key == Elems(t)[j].key && Elems(t')[j'].val == Elems(t)[j].val
      && (Elems(t')[j'].node == Elems(t)[j].node <==> freed != Elems(t)[j].node)
  {
    hide Distinct, Elems;
    forall a: nat, b: nat | a < b < |Elems(t)| ensures Elems(t)[a].node != Elems(t)[b].node {
      ElemDistinct(t, a, b);
    }
  }

  lemma {:induction false} FloorRange(l: seq<Item<EntryPtr>>, x: Oid)
    requires Ordered(l)
    ensures -1 <= Floor(KeysOf(l), x) < |l|
  {
    FloorIsGreatest(KeysOf(l), x);
  }

  // How the key at position i compares with x tells on which side of Floor i is.
  lemma {:induction false} FloorCompare(l: seq<Item<EntryPtr>>, x: Oid, i: nat)
    requires Ordered(l) && i < |l|
    ensures -1 <= Floor(KeysOf(l), x) < |l|
    ensures i <= Floor(KeysOf(l), x) <==> !Less(x, l[i].key)
    ensures Less(l[i].key, x) ==> i <= Floor(KeysOf(l), x)
    ensures !Less(l[i].key, x) && !Less(x, l[i].key) ==> l[i].key == x
    ensures !Less(l[i].key, x) ==> i >= Floor(KeysOf(l), x)
  {
    FloorIsGreatest(KeysOf(l), x);
    hide Less, Floor;
    var ks, f := KeysOf(l), Floor(KeysOf(l), x);
    LessTotal(x, l[i].key);
    LessIrreflexive(x);
    if Less(x, l[i].key) {
      LessAsymmetric(x, l[i].key);
    } else if Less(l[i].key, x) {
      LessAsymmetric(l[i].key, x);
    }
    if i < f && ks[f] != x {
      LessTransitive(ks[i], ks[f], x);
    }
  }

  // Near in terms of the number of smaller keys.
  lemma {:induction false} BelowRange(l: seq<Item<EntryPtr>>, x: Oid, i: nat)
    requires Ordered(l) && Near(KeysOf(l), i, x)
    ensures var b := Below(KeysOf(l), x); b - 1 <= i <= b
  {
  }

  // How the key at position i compares with x tells on which side of Below i is.
  lemma {:induction false} BelowCompare(l: seq<Item<EntryPtr>>, x: Oid, i: nat)
    requires Ordered(l) && i < |l|
    ensures var b := Below(KeysOf(l), x); (i < b <==> Less(l[i].key, x)) && (Less(x, l[i].key) ==> i >= b)
  {
    BelowSplits(KeysOf(l), x);
    hide Less, Below;
    if Less(l[i].key, x) {
      LessAsymmetric(l[i].key, x);
    }
    if Less(x, l[i].key) {
      LessAsymmetric(x, l[i].key);
    }
    LessIrreflexive(x);
  }

  // The removed key stood at position i; the entry after it, node and all, moves to i.
  lemma {:induction false} RemovedPosition(s: seq<Entry>, s': seq<Entry>, key: Oid, i: nat, k: nat, freed: Node?)
    requires Sorted(s) && i < |s| && s[i].key == key && Removed(s, s', key, k, freed)
    ensures k == i && freed != null && |s'| == |s| - 1
    ensures Items(s') == Items(s)[..i] + Items(s)[i + 1..]
    ensures i + 1 < |s| ==> s'[i] == s[i + 1]
  {
    hide Less;
    if k < i {
      LessIrreflexive(key);
    } else if i < k < |s| {
      LessIrreflexive(key);
    }
  }

  class OidList {
    const content: AvlMap

    ghost predicate Valid()
      reads content, Nodes(content.tree)
    {
      content.Valid() && content.def == 0
    }

    ghost function Contents(): seq<Item<EntryPtr>>
      reads content
    {
      content.Contents()
    }

    ghost function Ks(): seq<Oid>
      reads content
    {
      KeysOf(Contents())
    }

    constructor ()
      ensures Valid() && Contents() == [] && fresh(content)
    {
      content := new AvlMap(0);
    }

    // Node n stands at position i of the list l.
    ghost predicate On(n: Node?, i: int, l: seq<Item<EntryPtr>>)
      reads content, Nodes(content.tree)
    {
      content.Valid() && content.Points(n, i) && Contents() == l && Ordered(l)
    }

    method SeekInexact(x: Oid, ghost l: seq<Item<EntryPtr>>) returns (n: Node?, ghost i: int)
      requires Valid() && Contents() == l
      ensures Valid() && On(n, i, l) && -1 <= i < |l| && (n != null <==> i >= 0) && (n != null ==> n.item == l[i].key)
      ensures if n == null then l == [] else Near(KeysOf(l), i, x) && Closest(KeysOf(l), n.item, x)
    {
      SortedItemsOrdered(Elems(content.tree));
      n, i := content.SeekInexact(x);
    }

    method First(ghost l: seq<Item<EntryPtr>>) returns (n: Node?)
      requires Valid() && Contents() == l
      ensures Valid() && On(n, 0, l) && (n != null <==> l != [])
      ensures n != null ==> n.item == l[0].key && n.cont == l[0].val
    {
      SortedItemsOrdered(Elems(content.tree));
      n := content.Leftmost();
    }

    method Step(n: Node, ghost i: nat, ghost l: seq<Item<EntryPtr>>) returns (s: Node?)
      requires Valid() && On(n, i, l) && i < |l|
      ensures Valid() && On(s, i + 1, l) && (s != null <==> i + 1 < |l|)
      ensures s != null ==> s.item == l[i + 1].key && s.cont == l[i + 1].val
    {
      s := content.Next(n, i);
    }

    method Back(n: Node, ghost i: nat, ghost l: seq<Item<EntryPtr>>) returns (p: Node?)
      requires Valid() && On(n, i, l) && i < |l|
      ensures Valid() && On(p, i - 1, l) && (p != null <==> i > 0)
      ensures p != null ==> p.item == l[i - 1].key && p.cont == l[i - 1].val
    {
      p := content.Prev(n, i);
    }

    method Value(n: Node, ghost i: nat, ghost l: seq<Item<EntryPtr>>) returns (v: EntryPtr)
      requires On(n, i, l) && i < |l|
      ensures v == l[i].val
    {
      v := n.cont;
    }

    method IsLast(n: Node, ghost i: nat, ghost l: seq<Item<EntryPtr>>) returns (b: bool)
      requires Valid() && On(n, i, l) && i < |l|
      ensures Valid() && On(n, i, l) && (b <==> i == |l| - 1)
    {
      assert allocated(Nodes(content.tree));
      var last := content.Rightmost();
      content.CursorInjective(n, i, last, |l| - 1);
      b := n == last;
    }

    method IsFirst(n: Node, ghost i: nat, ghost l: seq<Item<EntryPtr>>) returns (b: bool)
      requires Valid() && On(n, i, l) && i < |l|
      ensures Valid() && On(n, i, l) && (b <==> i == 0)
    {
      assert allocated(Nodes(content.tree));
      var first := content.Leftmost();
      content.CursorInjective(n, i, first, 0);
      b := n == first;
    }

    // The value stored under the greatest key that is at most x.
    method FindLower(x: Oid) returns (r: EntryPtr)
      requires Valid()
      ensures r == ValAt(Contents(), Floor(Ks(), x))
    {
      hide Less, Floor, On, Valid;
      ghost var l := Contents();
      ghost var f := Floor(KeysOf(l), x);
      ghost var i;
      var n;
      n, i := SeekInexact(x, l);
      FloorRange(l, x);
      if n == null {
        return 0;
      }
      var last := IsLast(n, i, l);
      FloorCompare(l, x, i);
      while !last && Less(n.item, x)
        invariant Valid() && On(n, i, l) && n != null && 0 <= i < |l| && n.item == l[i].key
        invariant f <= i <= f + 1 && (last <==> i == |l| - 1)
        decreases |l| - i
      {
        FloorCompare(l, x, i);
        n := Step(n, i, l);
        i := i + 1;
        FloorCompare(l, x, i);
        last := IsLast(n, i, l);
      }
      FloorCompare(l, x, i);
      while n != null && Less(x, n.item)
        invariant Valid() && On(n, i, l) && f <= i <= f + 1 && i < |l| && (n != null <==> i >= 0)
        invariant n != null ==> n.item == l[i].key
        decreases i + 1
      {
        FloorCompare(l, x, i);
        n := Back(n, i, l);
        i := i - 1;
      }
      if n != null {
        FloorCompare(l, x, i);
        r := Value(n, i, l);
        return r;
      }
      return 0;
    }

    // The value stored under the least key that is at least x.
    method FindUpper(x: Oid) returns (r: EntryPtr)
      requires Valid()
      ensures r == ValAt(Contents(), Below(Ks(), x))
    {
      hide Less, Floor, Below, On, Valid;
      ghost var l := Contents();
      ghost var b := Below(KeysOf(l), x);
      ghost var i;
      var n;
      n, i := SeekInexact(x, l);
      if n == null {
        return 0;
      }
      BelowRange(l, x, i);
      BelowCompare(l, x, i);
      var first := IsFirst(n, i, l);
      while !first && Less(x, n.item)
        invariant Valid() && On(n, i, l) && n != null && 0 <= i < |l| && n.item == l[i].key
        invariant b - 1 <= i <= b && (first <==> i == 0)
        decreases i
      {
        BelowCompare(l, x, i);
        n := Back(n, i, l);
        i := i - 1;
        BelowCompare(l, x, i);
        first := IsFirst(n, i, l);
      }
      BelowCompare(l, x, i);
      while n != null && Less(n.item, x)
        invariant Valid() && On(n, i, l) && b - 1 <= i <= b && 0 <= i <= |l| && (n != null <==> i < |l|)
        invariant n != null ==> n.item == l[i].key
        decreases |l| - i
      {
        BelowCompare(l, x, i);
        n := Step(n, i, l);
        i := i + 1;
      }
      if n != null {
        BelowCompare(l, x, i);
        r := Value(n, i, l);
        return r;
      }
      return 0;
    }

    method Find(x: Oid) returns (r: EntryPtr)
      requires Valid()
      ensures r == ValAt(Contents(), PositionOf(Ks(), x))
    {
      assert allocated(Nodes(content.tree));
      var n;
      ghost var i;
      n, i := content.Seek(x);
      SortedItemsOrdered(Elems(content.tree));
      PositionIs(Ks(), x, i);
      r := if n == null then 0 else n.cont;
    }

    // The value after the one of x; null if x is missing or the last key.
    method FindNext(x: Oid) returns (r: EntryPtr)
      requires Valid()
      ensures r == if x in Ks() then ValAt(Contents(), PositionOf(Ks(), x) + 1) else 0
    {
      assert allocated(Nodes(content.tree));
      var n;
      ghost var i;
      n, i := content.Seek(x);
      SortedItemsOrdered(Elems(content.tree));
      PositionIs(Ks(), x, i);
      if n == null {
        return 0;
      }
      n := content.Next(n, i);
      r := if n == null then 0 else n.cont;
    }

    method FindPrev(x: Oid) returns (r: EntryPtr)
      requires Valid()
      ensures r == ValAt(Contents(), PositionOf(Ks(), x) - 1)
    {
      assert allocated(Nodes(content.tree));
      var n;
      ghost var i;
      n, i := content.Seek(x);
      SortedItemsOrdered(Elems(content.tree));
      PositionIs(Ks(), x, i);
      if n == null {
        return 0;
      }
      n := content.Prev(n, i);
      r := if n == null then 0 else n.cont;
    }

    method GetNth(k: nat) returns (r: EntryPtr)
      requires Valid()
      ensures r == ValAt(Contents(), k)
    {
      assert allocated(Nodes(content.tree));
      var n := content.Leftmost();
      var i := 0;
      while i < k && n != null
        invariant content.Valid() && 0 <= i <= |Contents()| && i <= k && content.Points(n, i)
        decreases |Contents()| - i
      {
        n := content.Next(n, i);
        i := i + 1;
      }
      r := if n == null then 0 else n.cont;
    }

    // The position of x, or -1.
    method Index(x: Oid) returns (k: int)
      requires Valid()
      ensures if x in Ks() then 0 <= k < |Ks()| && Ks()[k] == x else k == -1
    {
      assert allocated(Nodes(content.tree));
      var n;
      ghost var i;
      n, i := content.Seek(x);
      ghost var at := i;
      k := -1;
      while n != null
        invariant content.Valid() && -1 <= i < |Contents()| && content.Points(n, i) && k == at - i - 1
        decreases i + 1
      {
        n := content.Prev(n, i);
        i := i - 1;
        k := k + 1;
      }
    }

    method Add(x: Oid, item: EntryPtr)
      requires Valid()
      modifies content, Nodes(content.tree)
      ensures Valid() && Contents() == Put(old(Contents()), x, item)
      ensures fresh(Nodes(content.tree) - old(Nodes(content.tree)))
    {
      var n := content.Store(x, item);
    }

    method Remove(x: Oid)
      requires Valid()
      modifies content, Nodes(content.tree)
      ensures Valid() && Contents() == Drop(old(Contents()), x)
      ensures Nodes(content.tree) <= old(Nodes(content.tree))
    {
      ghost var freed, i, steps := content.Remove(x);
    }

    /* Deleting while iterating. */

    // Moves the cursor n to the next entry, then removes the entry it stood at: the
    // cursor stands at the same entry as before the removal.
    method AdvanceRemove(n: Node, ghost i: nat, ghost l: seq<Item<EntryPtr>>) returns (s: Node?)
      requires Valid() && On(n, i, l) && i < |l|
      modifies content, Nodes(content.tree)
      ensures Valid() && On(s, i, l[..i] + l[i + 1..])
      ensures s != null <==> i + 1 < |l|
      ensures s != null ==> s == old(content.Cursor(i + 1)) && s.item == l[i + 1].key && s.cont == l[i + 1].val
      ensures Nodes(content.tree) <= old(Nodes(content.tree))
    {
      assert allocated(Nodes(content.tree));
      ghost var e := Elems(content.tree);
      s := content.Next(n, i);
      ghost var key := n.item;
      ghost var freed, k, steps := content.Remove(n.item);
      RemovedPosition(e, Elems(content.tree), key, i, k, freed);
      SortedItemsOrdered(Elems(content.tree));
      content.CursorPoints(i);
    }

    // Visits every entry once, in key order, and leaves the list empty.
    method ClearAll() returns (ghost visited: seq<Item<EntryPtr>>)
      requires Valid()
      modifies content, Nodes(content.tree)
      ensures Valid() && Contents() == [] && visited == old(Contents())
    {
      hide On, Valid;
      var n := First(Contents());
      visited := [];
      ghost var l := Contents();
      while n != null
        invariant Valid() && On(n, 0, l) && visited + l == old(Contents()) && (n != null <==> l != [])
        invariant Nodes(content.tree) <= old(Nodes(content.tree))
        decreases |l|
      {
        NextVisited(visited, l);
        visited := visited + [l[0]];
        n := AdvanceRemove(n, 0, l);
        l := l[..0] + l[1..];
      }
      NextVisited(visited, l);
      EmptyList();
    }

    lemma NextVisited(visited: seq<Item<EntryPtr>>, l: seq<Item<EntryPtr>>)
      ensures if l == [] then visited + l == visited else visited + [l[0]] + (l[..0] + l[1..]) == visited + l
    {
    }

    method EmptyList()
      requires Valid()
      modifies content
      ensures Valid() && Contents() == []
    {
      content.Clear();
    }

    // MibTable::remove_obsolete_rows: keeps exactly the rows whose key is confirmed.
    method RemoveObsolete(confirmed: seq<Oid>)
      requires Valid() && Ascending(confirmed)
      modifies content, Nodes(content.tree)
      ensures Valid() && Contents() == Kept(old(Contents()), confirmed)
    {
      hide On, Less, Kept, Valid;
      ghost var done, rest := [], Contents();
      assert done + rest == rest;
      assert done + Kept(rest, confirmed) == Kept(rest, confirmed);
      var n := First(done + rest);
      while n != null
        invariant Valid() && On(n, |done|, done + rest) && (n != null <==> rest != [])
        invariant n != null ==> n.item == rest[0].key
        invariant done + Kept(rest, confirmed) == Kept(old(Contents()), confirmed)
        invariant Nodes(content.tree) <= old(Nodes(content.tree))
        decreases |rest|
      {
        KeptStep(done, rest, confirmed);
        n, done := ObsoleteStep(n, done, rest, confirmed);
        rest := rest[1..];
      }
      KeptStep(done, [], confirmed);
      OnContents(n, |done|, done + rest);
    }

    // One round of RemoveObsolete at the entry rest[0].
    method ObsoleteStep(n: Node, ghost done: seq<Item<EntryPtr>>, ghost rest: seq<Item<EntryPtr>>, confirmed: seq<Oid>)
      returns (s: Node?, ghost done': seq<Item<EntryPtr>>)
      requires Valid() && rest != [] && On(n, |done|, done + rest) && n.item == rest[0].key && Ascending(confirmed)
      modifies content, Nodes(content.tree)
      ensures Valid() && done' == (if rest[0].key in confirmed then done + [rest[0]] else done)
      ensures On(s, |done'|, done' + rest[1..]) && (s != null <==> rest[1..] != [])
      ensures s != null ==> s.item == rest[1].key
      ensures Nodes(content.tree) <= old(Nodes(content.tree))
    {
      hide On, Less;
      ghost var l := done + rest;
      done' := done;
      assert allocated(Nodes(content.tree));
      var keep := Confirmed(n.item, confirmed);
      if !keep {
        s := AdvanceRemove(n, |done|, l);
        assert l[..|done|] + l[|done| + 1..] == done + rest[1..];
      } else {
        s := Step(n, |done|, l);
        assert (done + [rest[0]]) + rest[1..] == l;
        done' := done + [rest[0]];
      }
    }

    lemma OnContents(n: Node?, i: int, l: seq<Item<EntryPtr>>)
      requires On(n, i, l)
      ensures Contents() == l
    {
    }
  }

  // Whether key is in the ascending list, by the scan of remove_obsolete_rows.
  method Confirmed(key: Oid, confirmed: seq<Oid>) returns (b: bool)
    requires Ascending(confirmed)
    ensures b <==> key in confirmed
  {
    var c := 0;
    hide Less;
    while c < |confirmed| && Less(confirmed[c], key)
      invariant 0 <= c <= |confirmed| && forall j :: 0 <= j < c ==> Less(confirmed[j], key)
    {
      c := c + 1;
    }
    b := !(c == |confirmed| || Less(key, confirmed[c]));
    LessIrreflexive(key);
    if c < |confirmed| {
      LessTotal(key, confirmed[c]);
      forall j | c < j < |confirmed| && Less(key, confirmed[c]) ensures Less(key, confirmed[j]) {
        LessTransitive(key, confirmed[c], confirmed[j]);
      }
    }
  }

  ghost function Kept(l: seq<Item<EntryPtr>>, confirmed: seq<Oid>): seq<Item<EntryPtr>> {
    if l == [] then [] else (if l[0].key in confirmed then [l[0]] else []) + Kept(l[1..], confirmed)
  }

  // Exactly the confirmed items, in their order.
  lemma {:induction false} KeptConfirmed(l: seq<Item<EntryPtr>>, confirmed: seq<Oid>)
    requires Ordered(l)
    ensures Ordered(Kept(l, confirmed))
    ensures forall e :: e in Kept(l, confirmed) <==> e in l && e.key in confirmed
  {
    hide Ordered;
    if l == [] {
      assert Ordered(l);
    } else {
      assert l == [l[0]] + l[1..];
      OrderedTail(l);
      KeptConfirmed(l[1..], confirmed);
      var rest := Kept(l[1..], confirmed);
      forall j | 0 <= j < |rest| ensures Less(l[0].key, rest[j].key) {
        assert rest[j] in l[1..];
        var k :| 0 <= k < |l[1..]| && l[1..][k] == rest[j];
        assert l[k + 1] == rest[j];
      }
      OrderedCons(l[0], rest);
      assert Kept(l, confirmed) == if l[0].key in confirmed then [l[0]] + rest else rest;
    }
  }

  lemma KeptStep(done: seq<Item<EntryPtr>>, rest: seq<Item<EntryPtr>>, confirmed: seq<Oid>)
    ensures rest == [] ==> done + Kept(rest, confirmed) == done == done + rest
    ensures rest != [] ==>
      done + Kept(rest, confirmed) ==
      (if rest[0].key in confirmed then done + [rest[0]] else done) + Kept(rest[1..], confirmed)
  {
  }

  class OidListCursor {
    const list: OidList
    var cursor: Node?
    ghost var pos: int

    ghost predicate Valid()
      reads this, list, list.content, Nodes(list.content.tree)
    {
      list.Valid() && list.On(cursor, pos, list.Contents())
    }

    constructor (l: OidList)
      requires l.Valid()
      ensures Valid() && list == l && pos == 0
    {
      list := l;
      var n := l.First(l.Contents());
      cursor, pos := n, 0;
    }

    // The value at the cursor, null beyond the end.
    method Get() returns (r: EntryPtr)
      requires Valid()
      ensures r == ValAt(list.Contents(), pos)
    {
      r := if cursor == null then 0 else cursor.cont;
    }

    method Next() returns (ok: bool)
      requires Valid()
      modifies this
      ensures Valid() && ok == (0 <= old(pos) && old(pos) + 1 < |list.Contents()|)
      ensures pos == if 0 <= old(pos) < |list.Contents()| then old(pos) + 1 else old(pos)
    {
      ok := false;
      if cursor != null {
        cursor := list.Step(cursor, pos, list.Contents());
        pos := pos + 1;
        ok := cursor != null;
      }
    }

    // Stands at the greatest key that is at most x; stays where it is if there is none.
    method Lookup(x: Oid) returns (ok: bool)
      requires Valid()
      modifies this
      ensures Valid() && ok == (Floor(list.Ks(), x) >= 0)
      ensures pos == if ok then Floor(list.Ks(), x) else old(pos)
      ensures !ok ==> cursor == old(cursor)
    {
      hide Less, Floor, OidList.On, OidList.Valid;
      assert allocated(Nodes(list.content.tree));
      ghost var l, i := list.Contents(), 0;
      ghost var f := Floor(KeysOf(l), x);
      var n;
      n, i := list.SeekInexact(x, l);
      FloorRange(l, x);
      while n != null && Less(x, n.item)
        invariant list.Valid() && list.On(n, i, l) && f <= i <= f + 1 && i < |l| && (n != null <==> i >= 0)
        invariant list.Contents() == l
        invariant cursor == old(cursor) && pos == old(pos) && list.On(cursor, pos, l)
        invariant n != null ==> n.item == l[i].key
        decreases i + 1
      {
        FloorCompare(l, x, i);
        n := list.Back(n, i, l);
        i := i - 1;
      }
      ok := n != null;
      if ok {
        FloorCompare(l, x, i);
        cursor, pos := n, i;
      }
    }
  }
}
