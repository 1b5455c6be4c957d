/** OidxPtrEntryPtrAVLMap: the ordered map over heap nodes. */
module AvlMaps {
  import opened Oids
  import opened SortedKeys
  import opened SortedItems
  import opened AvlHeight
  import opened AvlShape
  import opened AvlSteps

  ghost function Items(s: seq<Entry>): (items: seq<Item<EntryPtr>>)
    ensures |items| == |s| && forall i :: 0 <= i < |s| ==> items[i] == Item(s[i].key, s[i].val)
  {
    seq(|s|, i requires 0 <= i < |s| => Item(s[i].key, s[i].val))
  }

  lemma SortedItemsOrdered(s: seq<Entry>)
    requires Sorted(s)
    ensures Ordered(Items(s))
  {
    hide Less;
  }

  // The subtree whose root holds entry i, with its in-order neighbours.
  lemma {:induction false} Locate(t: Tree, lo: Node?, hi: Node?, i: nat) returns (s: Tree, lo': Node?, hi': Node?)
    requires Rep(t, lo, hi) && i < |Elems(t)|
    ensures s.Fork? && Rep(s, lo', hi') && s.e == Elems(t)[i]
    ensures (if s.right.Leaf? then hi' else First(s.right)) == (if i + 1 < |Elems(t)| then Elems(t)[i + 1].node else hi)
    ensures (if s.left.Leaf? then lo' else Last(s.left).node) == (if i > 0 then Elems(t)[i - 1].node else lo)
  {
    hide Rep, Elems, First, Last;
    ElemsNonempty(t);
    var l, e, r := t.left, t.e, t.right;
    ElemsFork(l, e, r);
    RepFork(l, e, r, lo, hi);
    ElemsNonempty(l);
    ElemsNonempty(r);
    var n := |Elems(l)|;
    if i < n {
      s, lo', hi' := Locate(l, lo, e.node, i);
    } else if i > n {
      s, lo', hi' := Locate(r, e.node, hi, i - n - 1);
    } else {
      s, lo', hi' := t, lo, hi;
      if l.Fork? {
        LastElem(l);
      }
      if r.Fork? {
        FirstElem(r);
      }
    }
  }

  // The tree after the value of node n has been set to v.
  ghost function SetVal(t: Tree, n: Node, v: EntryPtr): (t': Tree)
    ensures Nodes(t') == Nodes(t) && Height(t') == Height(t) && t'.Leaf? == t.Leaf?
    ensures t.Fork? ==> t'.e.node == t.e.node
    ensures |Elems(t')| == |Elems(t)|
    ensures forall j :: 0 <= j < |Elems(t)| ==>
      Elems(t')[j] == (if Elems(t)[j].node == n then Entry(n, Elems(t)[j].key, v) else Elems(t)[j])
  {
    match t
    case Leaf => Leaf
    case Fork(l, e, r) => Fork(SetVal(l, n, v), if e.node == n then Entry(n, e.key, v) else e, SetVal(r, n, v))
  }

  lemma {:induction false} SetValShape(t: Tree, n: Node, v: EntryPtr)
    ensures Avl(t) ==> Avl(SetVal(t, n, v))
    ensures Distinct(t) ==> Distinct(SetVal(t, n, v))
  {
    if t.Fork? {
      SetValShape(t.left, n, v);
      SetValShape(t.right, n, v);
    }
  }

  // Rep without the value of node n.
  ghost predicate RepBut(t: Tree, lo: Node?, hi: Node?, n: Node)
    reads Nodes(t)`lt, Nodes(t)`rt, Nodes(t)`lthread, Nodes(t)`rthread, Nodes(t)`item, Nodes(t)`bf
    reads (Nodes(t) - {n})`cont
  {
    t.Fork? ==>
      && t.e.node.item == t.e.key && (t.e.node != n ==> t.e.node.cont == t.e.val)
      && t.e.node.lthread == t.left.Leaf? && t.e.node.lt == Top(t.left, lo)
      && t.e.node.rthread == t.right.Leaf? && t.e.node.rt == Top(t.right, hi)
      && t.e.node.bf == Code(Height(t.left), Height(t.right))
      && RepBut(t.left, lo, t.e.node, n) && RepBut(t.right, t.e.node, hi, n)
  }

  lemma {:induction false} RepButIntro(t: Tree, lo: Node?, hi: Node?, n: Node)
    requires Rep(t, lo, hi)
    ensures RepBut(t, lo, hi, n)
  {
    if t.Fork? {
      RepButIntro(t.left, lo, t.e.node, n);
      RepButIntro(t.right, t.e.node, hi, n);
    }
  }

  lemma {:induction false} RepButSet(t: Tree, lo: Node?, hi: Node?, n: Node, v: EntryPtr)
    requires RepBut(t, lo, hi, n) && n.cont == v
    ensures Rep(SetVal(t, n, v), lo, hi)
  {
    if t.Fork? {
      RepButSet(t.left, lo, t.e.node, n, v);
      RepButSet(t.right, t.e.node, hi, n, v);
    }
  }

  lemma {:induction false} AddedItems(s: seq<Entry>, s': seq<Entry>, key: Oid, def: EntryPtr, i: nat, added: bool,
      found: Node)
    requires Sorted(s) && Added(s, s', key, def, i, added, found)
    ensures Sorted(s') && |s'| == |s| + (if added then 1 else 0)
    ensures i < |s'| && s'[i].key == key && s'[i].node == found
    ensures added ==> s'[i].val == def && Items(s') == Put(Items(s), key, def)
  {
    hide Less;
    SortedItemsOrdered(s);
    if added {
      PutNew(Items(s), key, def, i);
    }
  }

  // Setting the value at position i.
  lemma {:induction false} AssignedItems(s: seq<Entry>, s': seq<Entry>, key: Oid, def: EntryPtr, v: EntryPtr, i: nat,
      added: bool, found: Node, s'': seq<Entry>)
    requires Sorted(s) && Added(s, s', key, def, i, added, found)
    requires i < |s'| && s'' == s'[i := Entry(found, key, v)]
    ensures Sorted(s'') && Items(s'') == Put(Items(s), key, v)
  {
    hide Less;
    SortedItemsOrdered(s);
    if added {
      PutNew(Items(s), key, v, i);
    } else {
      PutOld(Items(s), key, v, i);
    }
  }

  // What unlinking leaves, node by node, is one item less.
  lemma {:induction false} DeletedItems(s: seq<Entry>, s': seq<Entry>, i: nat, freed: Node)
    requires Deleted(s, s', i, freed)
    ensures i < |s| && |s'| == |s| - 1 && Items(s') == Items(s)[..i] + Items(s)[i + 1..]
    ensures forall j :: 0 <= j < |s'| ==> s'[j].key == s[if j < i then j else j + 1].key
  {
  }

  lemma {:induction false} RemovedItems(s: seq<Entry>, s': seq<Entry>, key: Oid, i: nat, freed: Node?)
    requires Sorted(s) && Removed(s, s', key, i, freed)
    ensures Sorted(s') && |s'| == |s| - (if freed == null then 0 else 1)
    ensures Items(s') == Drop(Items(s), key)
  {
    hide Less, Deleted, Ordered, Drop;
    SortedItemsOrdered(s);
    if freed == null {
      DropNone(Items(s), key);
    } else {
      DeletedItems(s, s', i, freed);
      DropAt(Items(s), key, i);
    }
  }

  lemma {:induction false} SetValElems(t: Tree, i: nat, v: EntryPtr)
    requires Distinct(t) && i < |Elems(t)| && Sorted(Elems(t))
    ensures var e := Elems(t)[i]; Elems(SetVal(t, e.node, v)) == Elems(t)[i := Entry(e.node, e.key, v)]
    ensures Sorted(Elems(SetVal(t, Elems(t)[i].node, v)))
  {
    hide Less, Elems, Distinct;
    var s := Elems(t);
    forall j | 0 <= j < |s| && j != i ensures s[j].node != s[i].node {
      if i < j {
        ElemDistinct(t, i, j);
      } else {
        ElemDistinct(t, j, i);
      }
    }
  }

  // Insertion and deletion take logarithmically many steps.
  lemma {:induction false} FewPathSteps(t: Tree, key: Oid)
    requires Avl(t)
    ensures Pow2(AddPath(t, key) / 2) <= |Elems(t)| + 1 && Pow2(DelPath(t, key) / 2) <= |Elems(t)| + 1
    ensures t.Leaf? ==> AddPath(t, key) == DelPath(t, key) == 0
  {
    hide Pow2, Elems, Avl;
    PathsWithinHeight(t, key);
    FewSteps(t, AddPath(t, key));
    FewSteps(t, DelPath(t, key));
  }

  // No two entries share a node.
  lemma {:induction false} ElemDistinct(t: Tree, i: nat, j: nat)
    requires Distinct(t) && i < j < |Elems(t)|
    ensures Elems(t)[i].node != Elems(t)[j].node
  {
    var n := |Elems(t.left)|;
    if j < n {
      ElemDistinct(t.left, i, j);
    } else if i > n {
      ElemDistinct(t.right, i - n - 1, j - n - 1);
    } else {
      if i < n {
        ElemIn(t.left, i);
      }
      if j > n {
        ElemIn(t.right, j - n - 1);
      }
    }
  }

  // The thread bits of the heap say which nodes lack a child.
  lemma {:induction false} ThreadBits(t: Tree, lo: Node?, hi: Node?, n: Node)
    requires Rep(t, lo, hi) && Distinct(t) && n in Nodes(t)
    ensures Threaded(t, n) <==> n.lthread || n.rthread
  {
    if t.e.node != n {
      if n in Nodes(t.left) {
        ThreadBits(t.left, lo, t.e.node, n);
        if Threaded(t.right, n) {
          ThreadedIn(t.right, n);
        }
      } else {
        ThreadBits(t.right, t.e.node, hi, n);
        if Threaded(t.left, n) {
          ThreadedIn(t.left, n);
        }
      }
    }
  }

  // Entry i is the one unlinked itself exactly if its node has a thread bit set.
  ghost predicate UnlinksOwn(t: Tree, i: nat)
    reads Nodes(t)
  {
    i < |Elems(t)| && Elems(t)[i].node in Nodes(t) && (Elems(t)[i].node.lthread || Elems(t)[i].node.rthread)
  }

  lemma UnlinksOwnThreaded(t: Tree)
    requires Good(t, null, null)
    ensures forall i: nat :: i < |Elems(t)| ==> (UnlinksOwn(t, i) <==> Threaded(t, Elems(t)[i].node))
  {
    forall i: nat | i < |Elems(t)| ensures UnlinksOwn(t, i) <==> Threaded(t, Elems(t)[i].node) {
      ElemIn(t, i);
      ThreadBits(t, null, null, Elems(t)[i].node);
    }
  }

  /* Search paths. */

  // Position i of the ascending keys ks holds x or is next to where x belongs.
  ghost predicate Near(ks: seq<Oid>, i: nat, x: Oid) {
    && i < |ks|
    && (i != Floor(ks, x) ==> i == Floor(ks, x) + 1 && x !in ks)
  }

  // part is the stretch of s from off on, and key belongs inside or at its borders.
  ghost predicate Focus(s: seq<Entry>, part: seq<Entry>, off: nat, key: Oid) {
    && off + |part| <= |s| && s[off..off + |part|] == part
    && (forall j :: 0 <= j < off ==> Less(s[j].key, key))
    && (forall j :: off + |part| <= j < |s| ==> Less(key, s[j].key))
  }

  lemma {:induction false} FocusRoot(s: seq<Entry>, l: seq<Entry>, e: Entry, r: seq<Entry>, off: nat, key: Oid)
    requires Sorted(s) && Focus(s, l + [e] + r, off, key)
    ensures off + |l| < |s| && s[off + |l|] == e
    ensures Less(key, e.key) ==> Focus(s, l, off, key)
    ensures Less(e.key, key) ==> Focus(s, r, off + |l| + 1, key)
  {
    hide Less;
    var part, i := l + [e] + r, off + |l|;
    assert forall j :: 0 <= j < |part| ==> s[off + j] == part[j];
    assert s[i] == part[|l|];
    assert l == part[..|l|] && r == part[|l| + 1..];
    if Less(key, e.key) {
      forall j | i < j < |s| ensures Less(key, s[j].key) {
        LessTransitive(key, e.key, s[j].key);
      }
    }
    if Less(e.key, key) {
      forall j | 0 <= j < i ensures Less(s[j].key, key) {
        LessTransitive(s[j].key, e.key, key);
      }
    }
  }

  lemma {:induction false} FocusEnd(s: seq<Entry>, l: seq<Entry>, e: Entry, r: seq<Entry>, off: nat, key: Oid)
    requires Sorted(s) && Focus(s, l + [e] + r, off, key)
    requires key == e.key || (Less(key, e.key) && l == []) || (Less(e.key, key) && r == [])
    ensures off + |l| < |s| && Near(KeysOf(Items(s)), off + |l|, key)
  {
    hide Less;
    FocusRoot(s, l, e, r, off, key);
    SortedItemsOrdered(s);
    var ks, i := KeysOf(Items(s)), off + |l|;
    assert forall j :: 0 <= j < |s| ==> ks[j] == s[j].key;
    if key == e.key {
      assert i > 0 ==> Less(ks[i - 1], ks[i]);
      BelowUnique(ks, key, i);
    } else {
      var n := if Less(key, e.key) then i else i + 1;
      BelowUnique(ks, key, n);
      forall j | 0 <= j < |ks| ensures ks[j] != key {
        LessIrreflexive(key);
      }
    }
  }

  lemma {:induction false} NearMiss(ks: seq<Oid>, i: nat, x: Oid)
    requires Ascending(ks) && Near(ks, i, x) && ks[i] != x
    ensures x !in ks
  {
    hide Less, Floor;
    FloorIsGreatest(ks, x);
    forall j | 0 <= j < |ks| ensures ks[j] != x {
      if ks[j] == x && j < i {
        LessAsymmetric(ks[j], ks[i]);
      }
    }
  }

  // k is x or a neighbour of x among the keys ks.
  ghost predicate Closest(ks: seq<Oid>, k: Oid, x: Oid) {
    && k in ks && (x in ks ==> k == x)
    && forall j :: 0 <= j < |ks| ==> !(Less(k, ks[j]) && Less(ks[j], x)) && !(Less(x, ks[j]) && Less(ks[j], k))
  }

  lemma {:induction false} NearClosest(ks: seq<Oid>, i: nat, x: Oid)
    requires Ascending(ks) && Near(ks, i, x)
    ensures Closest(ks, ks[i], x)
  {
    hide Less, Floor;
    FloorIsGreatest(ks, x);
    if ks[i] != x {
      NearMiss(ks, i, x);
    }
    forall j | 0 <= j < |ks|
      ensures !(Less(ks[i], ks[j]) && Less(ks[j], x)) && !(Less(x, ks[j]) && Less(ks[j], ks[i]))
    {
      LessIrreflexive(ks[j]);
      if j < i {
        LessAsymmetric(ks[j], ks[i]);
      } else if i < j {
        LessAsymmetric(ks[i], ks[j]);
      }
      if Less(x, ks[j]) {
        LessAsymmetricOrEqual(x, ks[j]);
      }
    }
  }

  // The search for key has reached node t, the root of S, whose entries are those of s from off on.
  ghost predicate OnPath(t: Node?, S: Tree, lo: Node?, hi: Node?, s: seq<Entry>, off: nat, key: Oid)
    reads Nodes(S)
  {
    S.Fork? && t == S.e.node && Rep(S, lo, hi) && Focus(s, Elems(S), off, key)
  }

  lemma {:induction false} PathStep(t: Node, S: Tree, lo: Node?, hi: Node?, s: seq<Entry>, off: nat, key: Oid)
    requires OnPath(t, S, lo, hi, s, off, key) && Sorted(s)
    ensures var i, l, r := off + |Elems(S.left)|, S.left, S.right;
      && i < |s| && s[i].node == t && s[i].key == t.item && Height(S) > 0
      && (if key == t.item || (if Less(key, t.item) then t.lthread else t.rthread) then
            Near(KeysOf(Items(s)), i, key)
          else if Less(key, t.item) then
            OnPath(t.lt, l, lo, t, s, off, key) && Height(l) < Height(S)
          else
            OnPath(t.rt, r, t, hi, s, i + 1, key) && Height(r) < Height(S))
  {
    hide Less, Height, Rep, Elems, Focus, Near, Sorted, Items, KeysOf;
    var l, e, r := S.left, S.e, S.right;
    RepFork(l, e, r, lo, hi);
    HeightFork(l, e, r);
    ElemsFork(l, e, r);
    FocusRoot(s, Elems(l), e, Elems(r), off, key);
    LessTotal(key, e.key);
    LessIrreflexive(key);
    ElemsNonempty(l);
    ElemsNonempty(r);
    if key == e.key || (Less(key, e.key) && l.Leaf?) || (Less(e.key, key) && r.Leaf?) {
      FocusEnd(s, Elems(l), e, Elems(r), off, key);
    }
  }

  method FollowPath(start: Node, key: Oid, ghost T: Tree, ghost s: seq<Entry>)
    returns (t: Node, hit: bool, ghost i: nat, ghost steps: nat)
    requires OnPath(start, T, null, null, s, 0, key) && Sorted(s)
    ensures i < |s| && s[i].node == t && steps < Height(T)
    ensures s[i].key == t.item && (hit <==> t.item == key)
    ensures Near(KeysOf(Items(s)), i, key)
  {
    t, hit, i, steps := start, false, 0, 0;
    ghost var S, lo, hi, off: nat := T, null, null, 0;
    hide *;
    while true
      invariant OnPath(t, S, lo, hi, s, off, key) && steps + Height(S) <= Height(T)
      decreases S
    {
      PathStep(t, S, lo, hi, s, off, key);
      i := off + |Elems(S.left)|;
      if key == t.item {
        hit := true;
        return;
      } else if Less(key, t.item) {
        if t.lthread {
          return;
        }
        hi, S := t, S.left;
        t := t.lt;
      } else {
        if t.rthread {
          return;
        }
        off, lo, S := i + 1, t, S.right;
        t := t.rt;
      }
      steps := steps + 1;
    }
  }

  class AvlMap {
    var root: Node?
    var count: int
    const def: EntryPtr
    ghost var tree: Tree

    ghost predicate Valid()
      reads this, Nodes(tree)
    {
      root == Top(tree, null) && Good(tree, null, null) && Sorted(Elems(tree)) && count == |Elems(tree)|
    }

    ghost function Contents(): seq<Item<EntryPtr>>
      reads this
    {
      Items(Elems(tree))
    }

    constructor (def: EntryPtr)
      ensures Valid() && Contents() == [] && this.def == def && Nodes(tree) == {}
    {
      this.def := def;
      root, count, tree := null, 0, Leaf;
    }

    // operator[]: the node of key, added with the default value if it was missing.
    method At(key: Oid) returns (n: Node, ghost i: nat, ghost added: bool, ghost steps: nat)
      requires Valid()
      modifies this, Nodes(tree)
      ensures Valid() && Added(old(Elems(tree)), Elems(tree), key, def, i, added, n)
      ensures if added then fresh(n) && Nodes(tree) == old(Nodes(tree)) + {n} else tree == old(tree)
      ensures Contents() == if added then Put(old(Contents()), key, def) else old(Contents())
      ensures steps == AddPath(old(tree), key) && Pow2(steps / 2) <= |old(Contents())| + 1
    {
      hide Rep, Height, Avl, Distinct, Sorted, Less, Put, Pow2, AddPath, DelPath, Code;
      if root == null {
        n := new Node(key, def);
        i, added, steps := 0, true, 0;
        FewPathSteps(tree, key);
        n.rthread := true;
        n.lthread := true;
        count := count + 1;
        root := n;
        tree := Fork(Leaf, Entry(n, key, def), Leaf);
        LeafFacts(tree, null, null);
        AddedItems([], Elems(tree), key, def, i, added, n);
      } else {
        var t, grown, add;
        ghost var T;
        t, grown, add, n, T, i, steps := Add(root, key, def, tree, null, null);
        AddedItems(Elems(tree), Elems(T), key, def, i, add, n);
        FewPathSteps(tree, key);
        added := add;
        if add {
          count := count + 1;
        }
        root := t;
        tree := T;
      }
    }

    // An assignment through the reference that operator[] returns.
    method Store(key: Oid, v: EntryPtr) returns (n: Node)
      requires Valid()
      modifies this, Nodes(tree)
      ensures Valid() && Contents() == Put(old(Contents()), key, v)
      ensures n in Nodes(tree) && Nodes(tree) == old(Nodes(tree)) + {n}
      ensures n in old(Nodes(tree)) || fresh(n)
    {
      ghost var s := Elems(tree);
      ghost var i, added, steps;
      n, i, added, steps := At(key);
      ghost var s' := Elems(tree);
      AddedItems(s, s', key, def, i, added, n);
      ElemIn(tree, i);
      Assign(n, i, v);
      AssignedItems(s, s', key, def, v, i, added, n, Elems(tree));
    }

    // contents(i) = v
    method Assign(n: Node, ghost i: nat, v: EntryPtr)
      requires Valid() && i < |Elems(tree)| && Elems(tree)[i].node == n && n in Nodes(tree)
      modifies this`tree, n`cont
      ensures Valid() && Nodes(tree) == old(Nodes(tree))
      ensures Elems(tree) == old(Elems(tree))[i := Entry(n, old(Elems(tree))[i].key, v)]
    {
      hide Rep, RepBut, Height, Avl, Distinct, Sorted, Elems, Less;
      RepButIntro(tree, null, null, n);
      n.cont := v;
      RepButSet(tree, null, null, n, v);
      SetValShape(tree, n, v);
      SetValElems(tree, i, v);
      tree := SetVal(tree, n, v);
    }

    method Remove(key: Oid) returns (ghost freed: Node?, ghost i: nat, ghost steps: nat)
      requires Valid()
      modifies this, Nodes(tree)
      ensures Valid() && Removed(old(Elems(tree)), Elems(tree), key, i, freed)
      ensures Contents() == Drop(old(Contents()), key)
      ensures Nodes(tree) == old(Nodes(tree)) - {freed}
      ensures freed != null ==>
        i < |old(Elems(tree))| && (freed == old(Elems(tree))[i].node <==> old(UnlinksOwn(tree, i)))
      ensures steps == DelPath(old(tree), key) && Pow2(steps / 2) <= |old(Contents())| + 1
    {
      hide Rep, Height, Avl, Distinct, Sorted, Less, Drop, Pow2, AddPath, DelPath, Code, UnlinksOwn, Threaded;
      if root == null {
        DropNone(Contents(), key);
        FewPathSteps(tree, key);
        return null, 0, 0;
      }
      UnlinksOwnThreaded(tree);
      var t, shrunk, found;
      ghost var T;
      t, shrunk, found, T, i, steps := Del(root, root, key, tree, null, null, AtRoot);
      RemovedItems(Elems(tree), Elems(T), key, i, found);
      FewPathSteps(tree, key);
      freed := found;
      root := t;
      tree := T;
      if found != null {
        count := count - 1;
        if count == 0 {
          root := null;
        }
      }
    }

    /* Traversal. A cursor is a node of the map, or null beyond the ends; ghost i is its position. */

    ghost function Cursor(i: int): Node?
      reads this
    {
      if 0 <= i < |Elems(tree)| then Elems(tree)[i].node else null
    }

    // Cursor n stands at position i: key(i) and contents(i) are those of the item there.
    ghost predicate Points(n: Node?, i: int)
      reads this, Nodes(tree)
    {
      && -1 <= i <= |Contents()| && n == Cursor(i)
      && (if 0 <= i < |Contents()| then
            n != null && n in Nodes(tree) && n.item == Contents()[i].key && n.cont == Contents()[i].val
          else n == null)
    }

    lemma CursorPoints(i: int)
      requires Valid() && -1 <= i <= |Contents()|
      ensures Points(Cursor(i), i)
    {
      if 0 <= i < |Contents()| {
        var S, lo, hi := Locate(tree, null, null, i);
        ElemIn(tree, i);
      }
    }

    lemma CursorInjective(n: Node?, i: int, m: Node?, j: int)
      requires Valid() && Points(n, i) && Points(m, j)
      ensures 0 <= i < |Contents()| ==> (n == m <==> i == j)
    {
      if 0 <= i < j < |Contents()| {
        ElemDistinct(tree, i, j);
      } else if 0 <= j < i < |Contents()| {
        ElemDistinct(tree, j, i);
      }
    }

    method Leftmost() returns (t: Node?)
      requires Valid()
      ensures Valid() && Points(t, 0)
    {
      t := root;
      CursorPoints(0);
      if t != null {
        ghost var S, h := tree, null;
        FirstElem(tree);
        while t.lt != null
          invariant t != null && S.Fork? && Rep(S, null, h) && t == S.e.node && First(S) == First(tree)
          decreases S
        {
          h := t;
          t := t.lt;
          S := S.left;
        }
      }
    }

    method Rightmost() returns (t: Node?)
      requires Valid()
      ensures Valid() && Points(t, |Contents()| - 1)
    {
      t := root;
      CursorPoints(|Contents()| - 1);
      if t != null {
        ghost var S, h := tree, null;
        LastElem(tree);
        while t.rt != null
          invariant t != null && S.Fork? && Rep(S, h, null) && t == S.e.node && Last(S) == Last(tree)
          decreases S
        {
          h := t;
          t := t.rt;
          S := S.right;
        }
      }
    }

    method Next(n: Node, ghost i: nat) returns (s: Node?)
      requires Valid() && i < |Contents()| && Points(n, i)
      ensures Valid() && Points(s, i + 1)
    {
      assert allocated(Nodes(tree));
      ghost var S, lo, hi := Locate(tree, null, null, i);
      CursorPoints(i + 1);
      s := Succ(n, S, lo, hi);
    }

    method Prev(n: Node, ghost i: nat) returns (p: Node?)
      requires Valid() && i < |Contents()| && Points(n, i)
      ensures Valid() && Points(p, i - 1)
    {
      assert allocated(Nodes(tree));
      ghost var S, lo, hi := Locate(tree, null, null, i);
      CursorPoints(i - 1);
      p := Pred(n, S, lo, hi);
    }

    // One search path, of logarithmic length: ends at key or next to where key would be.
    method Descend(key: Oid) returns (t: Node, hit: bool, ghost i: nat, ghost steps: nat)
      requires Valid() && root != null
      ensures i < |Elems(tree)| && t == Cursor(i)
      ensures steps < Height(tree) && Pow2((steps + 1) / 2) <= |Contents()| + 1
      ensures hit <==> t.item == key
      ensures Near(KeysOf(Contents()), i, key) && Closest(KeysOf(Contents()), t.item, key)
    {
      assert OnPath(root, tree, null, null, Elems(tree), 0, key);
      t, hit, i, steps := FollowPath(root, key, tree, Elems(tree));
      FewSteps(tree, steps + 1);
      SortedItemsOrdered(Elems(tree));
      NearClosest(KeysOf(Contents()), i, key);
    }

    // The node of key, or null.
    method Seek(key: Oid) returns (n: Node?, ghost i: int)
      requires Valid()
      ensures Valid() && Points(n, i) && i < |Contents()|
      ensures if n == null then key !in KeysOf(Contents()) else n.item == key
    {
      assert allocated(Nodes(tree));
      n, i := null, -1;
      if root != null {
        var t, hit;
        ghost var j, steps;
        t, hit, j, steps := Descend(key);
        CursorPoints(j);
        if hit {
          n, i := t, j;
        } else {
          SortedItemsOrdered(Elems(tree));
          NearMiss(KeysOf(Contents()), j, key);
        }
      }
    }

    // The node of key or of a neighbour; null only if the map is empty.
    method SeekInexact(key: Oid) returns (n: Node?, ghost i: int)
      requires Valid()
      ensures Valid() && Points(n, i) && i < |Contents()|
      ensures if n == null then Contents() == [] else Near(KeysOf(Contents()), i, key)
      ensures n != null ==> Closest(KeysOf(Contents()), n.item, key)
    {
      assert allocated(Nodes(tree));
      n, i := null, -1;
      if root != null {
        var hit;
        ghost var steps;
        n, hit, i, steps := Descend(key);
        CursorPoints(i);
      } else {
        ElemsNonempty(tree);
      }
    }

    method Clear()
      requires Valid()
      modifies this
      ensures Valid() && Contents() == [] && Nodes(tree) == {}
    {
      count := 0;
      root := null;
      tree := Leaf;
    }

    // The run-time self check: never fails on a valid map.
    method OK() returns (v: bool)
      requires Valid()
      ensures v
    {
      v := true;
      if root == null {
        v := count == 0;
      } else {
        assert allocated(Nodes(tree));
        SortedItemsOrdered(Elems(tree));
        ElemsNonempty(tree);
        var n := 1;
        var trail := Leftmost();
        var t := Next(trail, 0);
        while t != null
          invariant Valid() && 1 <= n <= |Contents()| && Points(t, n) && Points(trail, n - 1) && trail != null && v
          decreases |Contents()| - n
        {
          n := n + 1;
          v := v && Less(trail.item, t.item);
          trail := t;
          t := Next(t, n - 1);
        }
        v := v && n == count;
      }
    }
  }
}
