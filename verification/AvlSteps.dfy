/** The recursive steps of insertion and deletion in the threaded AVL tree. */
module AvlSteps {
  import opened Oids
  import opened AvlShape
  import opened AvlRebalance

  ghost predicate Sorted(s: seq<Entry>) {
    forall i, j :: 0 <= i < j < |s| ==> Less(s[i].key, s[j].key)
  }

  // key belongs before position i.
  ghost predicate Splits(s: seq<Entry>, i: nat, key: Oid) {
    && i <= |s|
    && (forall j :: 0 <= j < i ==> Less(s[j].key, key))
    && (forall j :: i <= j < |s| ==> Less(key, s[j].key))
  }

  ghost function InsertAt(s: seq<Entry>, i: nat, e: Entry): seq<Entry>
    requires i <= |s|
  {
    s[..i] + [e] + s[i..]
  }

  lemma {:induction false} SortedParts(l: seq<Entry>, e: Entry, r: seq<Entry>)
    requires Sorted(l + [e] + r)
    ensures Sorted(l) && Sorted(r)
    ensures forall j :: 0 <= j < |l| ==> Less(l[j].key, e.key)
    ensures forall j :: 0 <= j < |r| ==> Less(e.key, r[j].key)
  {
    hide Less;
    var s := l + [e] + r;
    forall i, j | 0 <= i < j < |l| ensures Less(l[i].key, l[j].key) {
      assert s[i] == l[i] && s[j] == l[j];
    }
    forall i, j | 0 <= i < j < |r| ensures Less(r[i].key, r[j].key) {
      assert s[|l| + 1 + i] == r[i] && s[|l| + 1 + j] == r[j];
    }
    assert s[|l|] == e;
    forall j | 0 <= j < |l| ensures Less(l[j].key, e.key) {
      assert s[j] == l[j];
    }
    forall j | 0 <= j < |r| ensures Less(e.key, r[j].key) {
      assert s[|l| + 1 + j] == r[j];
    }
  }

  lemma {:induction false} InsertLeft(l: seq<Entry>, e: Entry, r: seq<Entry>, i: nat, n: Entry)
    requires Sorted(l + [e] + r) && Less(n.key, e.key) && Splits(l, i, n.key)
    ensures Splits(l + [e] + r, i, n.key)
    ensures InsertAt(l, i, n) + [e] + r == InsertAt(l + [e] + r, i, n)
  {
    hide Less;
    SortedParts(l, e, r);
    var s := l + [e] + r;
    forall j | i <= j < |s| ensures Less(n.key, s[j].key) {
      if j > |l| {
        LessTransitive(n.key, e.key, s[j].key);
      }
    }
  }

  lemma {:induction false} InsertRight(l: seq<Entry>, e: Entry, r: seq<Entry>, i: nat, n: Entry)
    requires Sorted(l + [e] + r) && Less(e.key, n.key) && Splits(r, i, n.key)
    ensures Splits(l + [e] + r, |l| + 1 + i, n.key)
    ensures l + [e] + InsertAt(r, i, n) == InsertAt(l + [e] + r, |l| + 1 + i, n)
  {
    hide Less;
    SortedParts(l, e, r);
    var s := l + [e] + r;
    forall j | 0 <= j < |l| + 1 + i ensures Less(s[j].key, n.key) {
      if j < |l| {
        LessTransitive(s[j].key, e.key, n.key);
      }
    }
  }

  // One unfolding of everything.
  lemma {:induction false} TreeFork(l: Tree, e: Entry, r: Tree, lo: Node?, hi: Node?)
    ensures Good(Fork(l, e, r), lo, hi) <==>
      && Open(e.node, l, e, r, lo, hi) && e.node.bf == Code(Height(l), Height(r))
      && -1 <= Height(l) - Height(r) <= 1
    ensures Nodes(Fork(l, e, r)) == Nodes(l) + {e.node} + Nodes(r)
    ensures Elems(Fork(l, e, r)) == Elems(l) + [e] + Elems(r)
    ensures Height(Fork(l, e, r)) == 1 + Max(Height(l), Height(r))
  {
    hide Nodes, Elems, Distinct, Rep, Height, Avl;
    RepFork(l, e, r, lo, hi);
    NodesFork(l, e, r);
    DistinctFork(l, e, r);
    AvlFork(l, e, r);
    HeightFork(l, e, r);
    ElemsFork(l, e, r);
  }

  // A tree of one entry.
  lemma {:induction false} LeafFacts(t: Tree, lo: Node?, hi: Node?)
    requires t.Fork? && t.left == Leaf && t.right == Leaf
    ensures Nodes(t) == {t.e.node} && Elems(t) == [t.e] && Height(t) == 1 && Avl(t) && Distinct(t)
    ensures Nodes(Leaf) == {} && Elems(Leaf) == [] && Height(Leaf) == 0
    ensures Rep(t, lo, hi) <==> Wired(t, lo, hi) && t.e.node.bf == Balanced
    ensures forall k :: Splits([], 0, k)
  {
  }

  // A new leaf below t on the left; its threads are t's old left thread and t.
  method AttachLeft(t: Node, key: Oid, def: EntryPtr) returns (n: Node)
    modifies t
    ensures fresh(n) && n.item == key && n.cont == def && n.bf == Balanced
    ensures n.lthread && n.rthread && n.lt == old(t.lt) && n.rt == t
    ensures t.lt == n && !t.lthread && unchanged(t`rt, t`rthread, t`item, t`cont, t`bf)
  {
    n := new Node(key, def);
    n.lthread := true;
    n.rthread := true;
    n.lt := t.lt;
    n.rt := t;
    t.lt := n;
    t.lthread := false;
  }

  method AttachRight(t: Node, key: Oid, def: EntryPtr) returns (n: Node)
    modifies t
    ensures fresh(n) && n.item == key && n.cont == def && n.bf == Balanced
    ensures n.lthread && n.rthread && n.lt == t && n.rt == old(t.rt)
    ensures t.rt == n && !t.rthread && unchanged(t`lt, t`lthread, t`item, t`cont, t`bf)
  {
    n := new Node(key, def);
    t.rthread := false;
    n.lthread := true;
    n.rthread := true;
    n.lt := t;
    n.rt := t.rt;
    t.rt := n;
  }

  // The key was found at position i and nothing changed, or it was inserted there.
  ghost predicate Added(s: seq<Entry>, s': seq<Entry>, key: Oid, def: EntryPtr, i: nat, added: bool, found: Node) {
    if added then
      Splits(s, i, key) && s' == InsertAt(s, i, Entry(found, key, def))
    else
      i < |s| && s[i].key == key && s[i].node == found && s' == s
  }

  lemma {:induction false} AddedLeft(l: seq<Entry>, e: Entry, r: seq<Entry>, l': seq<Entry>,
      key: Oid, def: EntryPtr, i: nat, added: bool, found: Node)
    requires Sorted(l + [e] + r) && Less(key, e.key) && Added(l, l', key, def, i, added, found)
    ensures Added(l + [e] + r, l' + [e] + r, key, def, i, added, found)
  {
    hide Less;
    if added {
      InsertLeft(l, e, r, i, Entry(found, key, def));
    } else {
      assert (l + [e] + r)[i] == l[i];
    }
  }

  lemma {:induction false} AddedRight(l: seq<Entry>, e: Entry, r: seq<Entry>, r': seq<Entry>,
      key: Oid, def: EntryPtr, i: nat, added: bool, found: Node)
    requires Sorted(l + [e] + r) && Less(e.key, key) && Added(r, r', key, def, i, added, found)
    ensures Added(l + [e] + r, l + [e] + r', key, def, |l| + 1 + i, added, found)
  {
    hide Less;
    if added {
      InsertRight(l, e, r, i, Entry(found, key, def));
    } else {
      assert (l + [e] + r)[|l| + 1 + i] == r[i];
    }
  }

  // The end of an insertion step at t after its left subtree has become l; s: l has gained a level.
  method RiseLeft(t: Node, s: bool, ghost l: Tree, ghost e: Entry, ghost r: Tree, ghost lo: Node?, ghost hi: Node?)
    returns (t': Node, grown: bool, ghost T': Tree)
    requires Open(t, l, e, r, lo, hi) && l.Fork?
    requires var h := Height(l) - (if s then 1 else 0); t.bf == Code(h, Height(r)) && -1 <= h - Height(r) <= 1
    requires s && Height(l) >= 2 ==> Height(l.left) != Height(l.right)
    modifies {t} + Nodes(l)
    ensures Good(T', lo, hi) && SameContents(T', Fork(l, e, r)) && T'.Fork? && t' == T'.e.node
    ensures Height(T') == 1 + Max(Height(l) - (if s then 1 else 0), Height(r)) + (if grown then 1 else 0)
    ensures grown ==> Height(T'.left) != Height(T'.right)
    ensures !s ==> t' == t && !grown && T' == Fork(l, e, r)
  {
    hide Nodes, Elems, Distinct, Rep, Height, Avl;
    if !s {
      TreeFork(l, e, r, lo, hi);
      return t, false, Fork(l, e, r);
    }
    t', grown, T' := GrowLeft(t, l, e, r, lo, hi);
  }

  // The end of an insertion step at t after its right subtree has become r; s: r has gained a level.
  method RiseRight(t: Node, s: bool, ghost l: Tree, ghost e: Entry, ghost r: Tree, ghost lo: Node?, ghost hi: Node?)
    returns (t': Node, grown: bool, ghost T': Tree)
    requires Open(t, l, e, r, lo, hi) && r.Fork?
    requires var h := Height(r) - (if s then 1 else 0); t.bf == Code(Height(l), h) && -1 <= Height(l) - h <= 1
    requires s && Height(r) >= 2 ==> Height(r.left) != Height(r.right)
    modifies {t} + Nodes(r)
    ensures Good(T', lo, hi) && SameContents(T', Fork(l, e, r)) && T'.Fork? && t' == T'.e.node
    ensures Height(T') == 1 + Max(Height(l), Height(r) - (if s then 1 else 0)) + (if grown then 1 else 0)
    ensures grown ==> Height(T'.left) != Height(T'.right)
    ensures !s ==> t' == t && !grown && T' == Fork(l, e, r)
  {
    hide Nodes, Elems, Distinct, Rep, Height, Avl;
    if !s {
      TreeFork(l, e, r, lo, hi);
      return t, false, Fork(l, e, r);
    }
    t', grown, T' := GrowRight(t, l, e, r, lo, hi);
  }

  /* Paths. */

  // The nodes on which a search for key calls itself.
  ghost function AddPath(t: Tree, key: Oid): nat {
    if t.Leaf? then 0
    else if key == t.e.key then 1
    else 1 + if Less(key, t.e.key) then AddPath(t.left, key) else AddPath(t.right, key)
  }

  // Those on the way to the last entry.
  ghost function Spine(t: Tree): nat {
    if t.Leaf? then 0 else 1 + Spine(t.right)
  }

  // Those of a deletion: below a key with two children it goes on to the entry before it.
  ghost function DelPath(t: Tree, key: Oid): nat {
    if t.Leaf? then 0
    else if key == t.e.key then 1 + if t.left.Fork? && t.right.Fork? then Spine(t.left) else 0
    else 1 + if Less(key, t.e.key) then DelPath(t.left, key) else DelPath(t.right, key)
  }

  lemma {:induction false} PathLeft(t: Tree, key: Oid)
    requires t.Fork? && Less(key, t.e.key)
    ensures AddPath(t, key) == 1 + AddPath(t.left, key) && DelPath(t, key) == 1 + DelPath(t.left, key)
    ensures DelPath(Leaf, key) == 0
  {
    LessIrreflexive(key);
  }

  lemma {:induction false} PathRight(t: Tree, key: Oid)
    requires t.Fork? && Less(t.e.key, key)
    ensures AddPath(t, key) == 1 + AddPath(t.right, key) && DelPath(t, key) == 1 + DelPath(t.right, key)
    ensures DelPath(Leaf, key) == 0
  {
    LessIrreflexive(key);
    LessAsymmetric(t.e.key, key);
  }

  lemma {:induction false} SpineNext(t: Tree)
    requires t.Fork?
    ensures Spine(t) == 1 + Spine(t.right) && Spine(Leaf) == 0
  {
  }

  // No descent visits more nodes than the tree is high.
  lemma {:induction false} PathsWithinHeight(t: Tree, key: Oid)
    ensures AddPath(t, key) <= Height(t) && Spine(t) <= Height(t) && DelPath(t, key) <= Height(t)
  {
    if t.Fork? {
      PathsWithinHeight(t.left, key);
      PathsWithinHeight(t.right, key);
    }
  }

  method Add(t: Node, key: Oid, def: EntryPtr, ghost T: Tree, ghost lo: Node?, ghost hi: Node?)
    returns (t': Node, grown: bool, added: bool, found: Node, ghost T': Tree, ghost i: nat, ghost steps: nat)
    requires Good(T, lo, hi) && T.Fork? && t == T.e.node && Sorted(Elems(T))
    modifies Nodes(T)
    ensures Good(T', lo, hi) && T'.Fork? && t' == T'.e.node
    ensures Height(T') == Height(T) + (if grown then 1 else 0)
    ensures grown ==> Height(T'.left) != Height(T'.right)
    ensures Added(Elems(T), Elems(T'), key, def, i, added, found)
    ensures if added then fresh(found) && Nodes(T') == Nodes(T) + {found} else T' == T && !grown
    ensures steps == AddPath(T, key)
    decreases T, 2
  {
    if key == t.item {
      t', grown, added, found, T', i, steps := t, false, false, t, T, |Elems(T.left)|, 1;
    } else if Less(key, t.item) {
      t', grown, added, found, T', i, steps := AddLeft(t, key, def, T, lo, hi);
    } else {
      LessTotal(key, t.item);
      t', grown, added, found, T', i, steps := AddRight(t, key, def, T, lo, hi);
    }
  }

  // The part of AddLeft below t: attach a leaf or descend.
  method GraftLeft(t: Node, key: Oid, def: EntryPtr, ghost l: Tree, ghost e: Entry, ghost r: Tree, ghost lo: Node?,
      ghost hi: Node?)
    returns (grown: bool, added: bool, found: Node, ghost l': Tree, ghost i: nat, ghost steps: nat)
    requires Open(t, l, e, r, lo, hi) && Sorted(Elems(l))
    modifies {t} + Nodes(l)
    ensures Open(t, l', e, r, lo, hi) && l'.Fork? && unchanged(t`bf)
    ensures Height(l') == Height(l) + (if grown then 1 else 0)
    ensures grown && Height(l') >= 2 ==> Height(l'.left) != Height(l'.right)
    ensures Added(Elems(l), Elems(l'), key, def, i, added, found)
    ensures if added then fresh(found) && Nodes(l') == Nodes(l) + {found} else l' == l && !grown
    ensures steps == AddPath(l, key)
    decreases l, 3
  {
    hide Nodes, Elems, Distinct, Rep, Height, Avl, Sorted, Splits, DelPath;
    DistinctFork(l, e, r);
    assert allocated(Nodes(r)) && allocated(Nodes(l));
    if t.lthread {
      found := AttachLeft(t, key, def);
      added, grown, i, steps := true, true, 0, 0;
      l' := Fork(Leaf, Entry(found, key, def), Leaf);
      LeafFacts(l', lo, t);
      assert l == Leaf;
    } else {
      var tl;
      tl, grown, added, found, l', i, steps := Add(t.lt, key, def, l, lo, t);
      t.lt := tl;
    }
    DistinctFork(l', e, r);
  }

  lemma {:induction false} LeftAdded(l: Tree, e: Entry, r: Tree, l': Tree,
      key: Oid, def: EntryPtr, i: nat, added: bool, found: Node)
    requires Sorted(Elems(l) + [e] + Elems(r)) && Less(key, e.key)
    requires Added(Elems(l), Elems(l'), key, def, i, added, found)
    requires if added then Nodes(l') == Nodes(l) + {found} else l' == l
    ensures Added(Elems(Fork(l, e, r)), Elems(Fork(l', e, r)), key, def, i, added, found)
    ensures if added then Nodes(Fork(l', e, r)) == Nodes(Fork(l, e, r)) + {found} else l' == l
  {
    hide Nodes, Elems, Less, Sorted, Added;
    ElemsFork(l, e, r);
    ElemsFork(l', e, r);
    NodesFork(l, e, r);
    NodesFork(l', e, r);
    AddedLeft(Elems(l), e, Elems(r), Elems(l'), key, def, i, added, found);
  }

  lemma {:induction false} RightAdded(l: Tree, e: Entry, r: Tree, r': Tree,
      key: Oid, def: EntryPtr, i: nat, added: bool, found: Node)
    requires Sorted(Elems(l) + [e] + Elems(r)) && Less(e.key, key)
    requires Added(Elems(r), Elems(r'), key, def, i, added, found)
    requires if added then Nodes(r') == Nodes(r) + {found} else r' == r
    ensures Added(Elems(Fork(l, e, r)), Elems(Fork(l, e, r')), key, def, |Elems(l)| + 1 + i, added, found)
    ensures if added then Nodes(Fork(l, e, r')) == Nodes(Fork(l, e, r)) + {found} else r' == r
  {
    hide Nodes, Elems, Less, Sorted, Added;
    ElemsFork(l, e, r);
    ElemsFork(l, e, r');
    NodesFork(l, e, r);
    NodesFork(l, e, r');
    AddedRight(Elems(l), e, Elems(r), Elems(r'), key, def, i, added, found);
  }

  method AddLeft(t: Node, key: Oid, def: EntryPtr, ghost T: Tree, ghost lo: Node?, ghost hi: Node?)
    returns (t': Node, grown: bool, added: bool, found: Node, ghost T': Tree, ghost i: nat, ghost steps: nat)
    requires Good(T, lo, hi) && T.Fork? && t == T.e.node && Sorted(Elems(T)) && Less(key, t.item)
    modifies Nodes(T)
    ensures Good(T', lo, hi) && T'.Fork? && t' == T'.e.node
    ensures Height(T') == Height(T) + (if grown then 1 else 0)
    ensures grown ==> Height(T'.left) != Height(T'.right)
    ensures Added(Elems(T), Elems(T'), key, def, i, added, found)
    ensures if added then fresh(found) && Nodes(T') == Nodes(T) + {found} else T' == T && !grown
    ensures steps == AddPath(T, key)
    decreases T, 1
  {
    ghost var l, e, r := T.left, T.e, T.right;
    ghost var l';
    hide Nodes, Elems, Distinct, Rep, Height, Avl, Less, Sorted, Splits, Added, AddPath, DelPath, Code;
    TreeFork(l, e, r, lo, hi);
    PathLeft(T, key);
    SortedParts(Elems(l), e, Elems(r));
    grown, added, found, l', i, steps := GraftLeft(t, key, def, l, e, r, lo, hi);
    steps := steps + 1;
    LeftAdded(l, e, r, l', key, def, i, added, found);
    t', grown, T' := RiseLeft(t, grown, l', e, r, lo, hi);
  }

  method GraftRight(t: Node, key: Oid, def: EntryPtr, ghost l: Tree, ghost e: Entry, ghost r: Tree, ghost lo: Node?,
      ghost hi: Node?)
    returns (grown: bool, added: bool, found: Node, ghost r': Tree, ghost i: nat, ghost steps: nat)
    requires Open(t, l, e, r, lo, hi) && Sorted(Elems(r))
    modifies {t} + Nodes(r)
    ensures Open(t, l, e, r', lo, hi) && r'.Fork? && unchanged(t`bf)
    ensures Height(r') == Height(r) + (if grown then 1 else 0)
    ensures grown && Height(r') >= 2 ==> Height(r'.left) != Height(r'.right)
    ensures Added(Elems(r), Elems(r'), key, def, i, added, found)
    ensures if added then fresh(found) && Nodes(r') == Nodes(r) + {found} else r' == r && !grown
    ensures steps == AddPath(r, key)
    decreases r, 3
  {
    hide Nodes, Elems, Distinct, Rep, Height, Avl, Sorted, Splits, DelPath;
    DistinctFork(l, e, r);
    assert allocated(Nodes(l)) && allocated(Nodes(r));
    if t.rthread {
      found := AttachRight(t, key, def);
      added, grown, i, steps := true, true, 0, 0;
      r' := Fork(Leaf, Entry(found, key, def), Leaf);
      LeafFacts(r', t, hi);
      assert r == Leaf;
    } else {
      var tr;
      tr, grown, added, found, r', i, steps := Add(t.rt, key, def, r, t, hi);
      t.rt := tr;
    }
    DistinctFork(l, e, r');
  }

  method AddRight(t: Node, key: Oid, def: EntryPtr, ghost T: Tree, ghost lo: Node?, ghost hi: Node?)
    returns (t': Node, grown: bool, added: bool, found: Node, ghost T': Tree, ghost i: nat, ghost steps: nat)
    requires Good(T, lo, hi) && T.Fork? && t == T.e.node && Sorted(Elems(T)) && Less(t.item, key)
    modifies Nodes(T)
    ensures Good(T', lo, hi) && T'.Fork? && t' == T'.e.node
    ensures Height(T') == Height(T) + (if grown then 1 else 0)
    ensures grown ==> Height(T'.left) != Height(T'.right)
    ensures Added(Elems(T), Elems(T'), key, def, i, added, found)
    ensures if added then fresh(found) && Nodes(T') == Nodes(T) + {found} else T' == T && !grown
    ensures steps == AddPath(T, key)
    decreases T, 1
  {
    ghost var l, e, r := T.left, T.e, T.right;
    hide Nodes, Elems, Distinct, Rep, Height, Avl, Less, Sorted, Splits, Added, AddPath, DelPath, Code;
    TreeFork(l, e, r, lo, hi);
    PathRight(T, key);
    SortedParts(Elems(l), e, Elems(r));
    t', grown, added, found, T', i, steps := AddBelowRight(t, key, def, l, e, r, lo, hi);
  }

  // AddRight below t.
  method AddBelowRight(t: Node, key: Oid, def: EntryPtr,
      ghost l: Tree, ghost e: Entry, ghost r: Tree, ghost lo: Node?, ghost hi: Node?)
    returns (t': Node, grown: bool, added: bool, found: Node, ghost T': Tree, ghost i: nat, ghost steps: nat)
    requires Open(t, l, e, r, lo, hi) && t.bf == Code(Height(l), Height(r)) && -1 <= Height(l) - Height(r) <= 1
    requires Sorted(Elems(l) + [e] + Elems(r)) && Sorted(Elems(r)) && Less(e.key, key)
    modifies {t} + Nodes(r)
    ensures Good(T', lo, hi) && T'.Fork? && t' == T'.e.node
    ensures Height(T') == 1 + Max(Height(l), Height(r)) + (if grown then 1 else 0)
    ensures grown ==> Height(T'.left) != Height(T'.right)
    ensures Added(Elems(Fork(l, e, r)), Elems(T'), key, def, i, added, found)
    ensures if added then fresh(found) && Nodes(T') == Nodes(Fork(l, e, r)) + {found} else T' == Fork(l, e, r) && !grown
    ensures steps == 1 + AddPath(r, key)
    decreases r, 4
  {
    ghost var r', j;
    hide Nodes, Elems, Distinct, Rep, Height, Avl, Less, Sorted, Splits, Added, AddPath, Code, Good, Open;
    grown, added, found, r', j, steps := GraftRight(t, key, def, l, e, r, lo, hi);
    steps := steps + 1;
    i := |Elems(l)| + 1 + j;
    RightAdded(l, e, r, r', key, def, j, added, found);
    t', grown, T' := RiseRight(t, grown, l, e, r', lo, hi);
  }

  /* Traversal below a node. */

  ghost function First(t: Tree): Node
    requires t.Fork?
  {
    if t.left.Fork? then First(t.left) else t.e.node
  }

  ghost function Last(t: Tree): Entry
    requires t.Fork?
  {
    if t.right.Fork? then Last(t.right) else t.e
  }

  lemma {:induction false} ElemsNonempty(t: Tree)
    ensures t.Fork? <==> |Elems(t)| > 0
  {
  }

  lemma {:induction false} FirstElem(t: Tree)
    requires t.Fork?
    ensures |Elems(t)| > 0 && Elems(t)[0].node == First(t)
  {
    if t.left.Fork? {
      FirstElem(t.left);
    }
  }

  lemma {:induction false} LastElem(t: Tree)
    requires t.Fork?
    ensures |Elems(t)| > 0 && Elems(t)[|Elems(t)| - 1] == Last(t)
  {
    if t.right.Fork? {
      LastElem(t.right);
    }
  }

  // The in-order successor of t, the root of T.
  method Succ(t: Node, ghost T: Tree, ghost lo: Node?, ghost hi: Node?) returns (s: Node?)
    requires Rep(T, lo, hi) && T.Fork? && t == T.e.node
    ensures if T.right.Leaf? then s == hi else s == First(T.right)
  {
    hide Rep, Height;
    RepFork(T.left, T.e, T.right, lo, hi);
    s := t.rt;
    if !t.rthread {
      ghost var R, h := T.right, hi;
      while !s.lthread
        invariant s != null && R.Fork? && Rep(R, t, h) && s == R.e.node && First(R) == First(T.right)
        decreases R
      {
        RepFork(R.left, R.e, R.right, t, h);
        R, h := R.left, s;
        s := s.lt;
      }
      RepFork(R.left, R.e, R.right, t, h);
    }
  }

  // The in-order predecessor of t, the root of T.
  method Pred(t: Node, ghost T: Tree, ghost lo: Node?, ghost hi: Node?) returns (p: Node?)
    requires Rep(T, lo, hi) && T.Fork? && t == T.e.node
    ensures T.left.Leaf? ==> p == lo
    ensures T.left.Fork? ==> p == Last(T.left).node && p.item == Last(T.left).key && p.cont == Last(T.left).val
    ensures T.left.Fork? ==> p.rthread && p.rt == t
  {
    hide Rep, Height;
    RepFork(T.left, T.e, T.right, lo, hi);
    p := t.lt;
    if !t.lthread {
      ghost var L, h := T.left, lo;
      while !p.rthread
        invariant p != null && L.Fork? && Rep(L, h, t) && p == L.e.node && Last(L) == Last(T.left)
        decreases L
      {
        RepFork(L.left, L.e, L.right, h, t);
        L, h := L.right, p;
        p := p.rt;
      }
      RepFork(L.left, L.e, L.right, h, t);
    }
  }

  // Which link of par refers to the subtree at hand; AtRoot if it is the root itself.
  datatype Side = AtRoot | AtLeft | AtRight

  ghost predicate LinkedFrom(side: Side, par: Node, t: Node, T: Tree, lo: Node?, hi: Node?)
    reads par
  {
    match side
    case AtRoot => par == t && lo == null && hi == null
    case AtLeft => par !in Nodes(T) && par == hi && par.lt == t
    case AtRight => par !in Nodes(T) && par == lo && par.rt == t && par.lt != t
  }

  // par after the subtree at its side has become T': an empty subtree leaves a thread.
  twostate predicate Relinked(side: Side, par: Node, new t': Node?, new T': Tree, lo: Node?, hi: Node?)
    reads par
  {
    && (T'.Fork? ==> t' == T'.e.node)
    && match side
       case AtRoot => true
       case AtLeft =>
         && unchanged(par`rt, par`rthread, par`item, par`cont, par`bf)
         && (if T'.Leaf? then par.lthread && par.lt == lo == t' else unchanged(par))
       case AtRight =>
         && unchanged(par`lt, par`lthread, par`item, par`cont, par`bf)
         && (if T'.Leaf? then par.rthread && par.rt == hi == t' else unchanged(par))
  }

  // Removes t, which has at most one child.
  method Unlink(par: Node, t: Node, ghost T: Tree, ghost lo: Node?, ghost hi: Node?, ghost side: Side)
    returns (t': Node?, ghost T': Tree)
    requires Good(T, lo, hi) && T.Fork? && t == T.e.node && (T.left.Leaf? || T.right.Leaf?)
    requires lo !in Nodes(T) && hi !in Nodes(T) && LinkedFrom(side, par, t, T, lo, hi)
    modifies {par} + Nodes(T)
    ensures Good(T', lo, hi) && T' == (if T.left.Leaf? then T.right else T.left)
    ensures Relinked(side, par, t', T', lo, hi)
  {
    OneChild(T);
    if t.lthread && t.rthread {
      if t == par.lt {
        par.lthread := true;
        par.lt := t.lt;
        t' := par.lt;
      } else {
        par.rthread := true;
        par.rt := t.rt;
        t' := par.rt;
      }
      T' := Leaf;
    } else if t.lthread {
      var s := Succ(t, T, lo, hi);
      if s != null && s.lthread {
        s.lt := t.lt;
      }
      t' := t.rt;
      T' := T.right;
    } else {
      var p := Pred(t, T, lo, hi);
      if p != null && p.rthread {
        p.rt := t.rt;
      }
      t' := t.lt;
      T' := T.left;
    }
  }

  // An AVL tree whose root lacks a child has at most one other node.
  lemma {:induction false} OneChild(t: Tree)
    requires Avl(t) && t.Fork?
    ensures t.left.Leaf? && t.right.Fork? ==> t.right.left.Leaf? && t.right.right.Leaf?
    ensures t.right.Leaf? && t.left.Fork? ==> t.left.left.Leaf? && t.left.right.Leaf?
  {
  }

  ghost predicate Outside(T: Tree, lo: Node?, hi: Node?) {
    lo !in Nodes(T) && hi !in Nodes(T)
  }

  // The end of a deletion step at t after its right subtree has become r; s: r has lost a level.
  method SettleRight(t: Node, s: bool, ghost l: Tree, ghost e: Entry, ghost r: Tree, ghost lo: Node?, ghost hi: Node?)
    returns (t': Node, shrunk: bool, ghost T': Tree)
    requires Open(t, l, e, r, lo, hi)
    requires var h := Height(r) + (if s then 1 else 0); t.bf == Code(Height(l), h) && -1 <= Height(l) - h <= 1
    modifies {t} + Nodes(l)
    ensures Good(T', lo, hi) && SameContents(T', Fork(l, e, r)) && T'.Fork? && t' == T'.e.node
    ensures Height(T') == 1 + Max(Height(l), Height(r) + (if s then 1 else 0)) - (if shrunk then 1 else 0)
    ensures !s ==> t' == t && !shrunk && T' == Fork(l, e, r)
  {
    hide Nodes, Elems, Distinct, Rep, Height, Avl;
    if !s {
      TreeFork(l, e, r, lo, hi);
      return t, false, Fork(l, e, r);
    }
    t', shrunk, T' := ShrinkRight(t, l, e, r, lo, hi);
  }

  method SettleLeft(t: Node, s: bool, ghost l: Tree, ghost e: Entry, ghost r: Tree, ghost lo: Node?, ghost hi: Node?)
    returns (t': Node, shrunk: bool, ghost T': Tree)
    requires Open(t, l, e, r, lo, hi)
    requires var h := Height(l) + (if s then 1 else 0); t.bf == Code(h, Height(r)) && -1 <= h - Height(r) <= 1
    modifies {t} + Nodes(r)
    ensures Good(T', lo, hi) && SameContents(T', Fork(l, e, r)) && T'.Fork? && t' == T'.e.node
    ensures Height(T') == 1 + Max(Height(l) + (if s then 1 else 0), Height(r)) - (if shrunk then 1 else 0)
    ensures !s ==> t' == t && !shrunk && T' == Fork(l, e, r)
  {
    hide Nodes, Elems, Distinct, Rep, Height, Avl;
    if !s {
      TreeFork(l, e, r, lo, hi);
      return t, false, Fork(l, e, r);
    }
    t', shrunk, T' := ShrinkLeft(t, l, e, r, lo, hi);
  }

  lemma {:induction false} OpenIntro(t: Node, l: Tree, e: Entry, r: Tree, lo: Node?, hi: Node?)
    requires t == e.node && t.item == e.key && t.cont == e.val
    requires t.lthread == l.Leaf? && t.lt == Top(l, lo) && t.rthread == r.Leaf? && t.rt == Top(r, hi)
    requires Good(l, lo, t) && Good(r, t, hi) && t !in Nodes(l) && t !in Nodes(r) && Nodes(l) !! Nodes(r)
    ensures Open(t, l, e, r, lo, hi)
  {
    hide Nodes, Rep, Avl;
    DistinctFork(l, e, r);
  }

  lemma {:induction false} TopIn(t: Tree)
    ensures t.Fork? ==> t.e.node in Nodes(t)
  {
  }

  lemma {:induction false} LastNode(t: Tree)
    requires t.Fork?
    ensures Last(t).node in Nodes(t)
  {
    if t.right.Fork? {
      LastNode(t.right);
    }
  }

  lemma LastHere(t: Tree)
    requires t.Fork? && t.right.Leaf?
    ensures Last(t) == t.e
  {
  }

  lemma {:induction false} LastSplit(l: Tree, e: Entry, r: Tree, r': Tree)
    requires r.Fork? && Distinct(Fork(l, e, r))
    requires Elems(r) == Elems(r') + [Last(r)] && Nodes(r') == Nodes(r) - {Last(r).node}
    ensures Last(Fork(l, e, r)) == Last(r)
    ensures Elems(Fork(l, e, r)) == Elems(Fork(l, e, r')) + [Last(r)]
    ensures Nodes(Fork(l, e, r')) == Nodes(Fork(l, e, r)) - {Last(r).node}
  {
    hide Nodes, Elems, Distinct;
    DistinctFork(l, e, r);
    ElemsFork(l, e, r);
    ElemsFork(l, e, r');
    NodesFork(l, e, r);
    NodesFork(l, e, r');
    LastNode(r);
  }

  // DelLast below the right link of t.
  method PruneLast(t: Node, ghost l: Tree, ghost e: Entry, ghost r: Tree, ghost lo: Node?, ghost hi: Node?)
    returns (shrunk: bool, found: Node, ghost r': Tree, ghost steps: nat)
    requires Open(t, l, e, r, lo, hi) && r.Fork? && hi !in Nodes(r) && lo !in Nodes(r)
    modifies {t} + Nodes(r)
    ensures Open(t, l, e, r', lo, hi) && unchanged(t`bf)
    ensures Height(r') == Height(r) - (if shrunk then 1 else 0)
    ensures Elems(r) == Elems(r') + [Last(r)] && found == Last(r).node
    ensures Nodes(r') == Nodes(r) - {found} && steps == Spine(r)
    decreases r, 1
  {
    hide Nodes, Elems, Distinct, Rep, Height, Avl, Last, Spine;
    DistinctFork(l, e, r);
    assert allocated(Nodes(l));
    var tr;
    TopIn(l);
    TopIn(r);
    tr, shrunk, found, r', steps := DelLast(t, t.rt, r, t, hi, AtRight);
    t.rt := tr;
    OpenIntro(t, l, e, r', lo, hi);
  }

  // DelLast if t has a right child.
  method DelBelowLast(t: Node, ghost l: Tree, ghost e: Entry, ghost r: Tree, ghost lo: Node?, ghost hi: Node?)
    returns (t': Node, shrunk: bool, found: Node, ghost T': Tree, ghost steps: nat)
    requires Open(t, l, e, r, lo, hi) && t.bf == Code(Height(l), Height(r)) && -1 <= Height(l) - Height(r) <= 1
    requires r.Fork? && hi !in Nodes(r) && lo !in Nodes(r)
    modifies {t} + Nodes(l) + Nodes(r)
    ensures Good(T', lo, hi) && T'.Fork? && t' == T'.e.node
    ensures Height(T') == 1 + Max(Height(l), Height(r)) - (if shrunk then 1 else 0)
    ensures var T := Fork(l, e, r);
      Elems(T) == Elems(T') + [Last(T)] && found == Last(T).node && Nodes(T') == Nodes(T) - {found}
    ensures steps == 1 + Spine(r)
    decreases r, 2
  {
    hide Nodes, Elems, Distinct, Rep, Height, Avl, Last, Spine, Code;
    OpenDistinct(t, l, e, r, lo, hi);
    hide Open, Good;
    ghost var r';
    shrunk, found, r', steps := PruneLast(t, l, e, r, lo, hi);
    steps := steps + 1;
    LastSplit(l, e, r, r');
    t', shrunk, T' := SettleRight(t, shrunk, l, e, r', lo, hi);
  }

  lemma {:induction false} OpenDistinct(t: Node, l: Tree, e: Entry, r: Tree, lo: Node?, hi: Node?)
    requires Open(t, l, e, r, lo, hi)
    ensures Distinct(Fork(l, e, r)) && t == e.node
  {
  }

  // Removes the last entry of T: the descent after the deleted key has been replaced.
  method DelLast(par: Node, t: Node, ghost T: Tree, ghost lo: Node?, ghost hi: Node?, ghost side: Side)
    returns (t': Node?, shrunk: bool, found: Node, ghost T': Tree, ghost steps: nat)
    requires Good(T, lo, hi) && T.Fork? && t == T.e.node && Outside(T, lo, hi) && LinkedFrom(side, par, t, T, lo, hi)
    modifies {par} + Nodes(T)
    ensures Good(T', lo, hi) && Relinked(side, par, t', T', lo, hi)
    ensures Height(T') == Height(T) - (if shrunk then 1 else 0)
    ensures Elems(T) == Elems(T') + [Last(T)] && found == Last(T).node
    ensures Nodes(T') == Nodes(T) - {found} && steps == Spine(T)
    decreases T, 0
  {
    ghost var l, e, r := T.left, T.e, T.right;
    hide Nodes, Elems, Distinct, Rep, Height, Avl, Last, Spine;
    TreeFork(l, e, r, lo, hi);
    SpineNext(T);
    if t.rthread {
      LeafFacts(Fork(Leaf, e, Leaf), lo, hi);
      LastHere(T);
      t', T' := Unlink(par, t, T, lo, hi, side);
      shrunk, found, steps := true, t, 1;
    } else {
      t', shrunk, found, T', steps := DelBelowLast(t, l, e, r, lo, hi);
    }
  }

  // The key at position i is gone; its node is freed, or it has taken over the
  // entry before it and that entry's node is freed.
  ghost predicate Deleted(s: seq<Entry>, s': seq<Entry>, i: nat, freed: Node) {
    && i < |s|
    && (|| (freed == s[i].node && s' == s[..i] + s[i + 1..])
        || (i > 0 && freed == s[i - 1].node
            && s' == s[..i - 1] + [Entry(s[i].node, s[i - 1].key, s[i - 1].val)] + s[i + 1..]))
  }

  lemma {:induction false} DeletedLeft(l: seq<Entry>, l': seq<Entry>, e: Entry, r: seq<Entry>, i: nat, freed: Node)
    requires Deleted(l, l', i, freed)
    ensures Deleted(l + [e] + r, l' + [e] + r, i, freed)
  {
    var s := l + [e] + r;
    assert s[i] == l[i] && (i > 0 ==> s[i - 1] == l[i - 1]);
    assert s[..i] == l[..i] && s[i + 1..] == l[i + 1..] + [e] + r;
    assert i > 0 ==> s[..i - 1] == l[..i - 1];
  }

  lemma {:induction false} DeletedRight(l: seq<Entry>, e: Entry, r: seq<Entry>, r': seq<Entry>, i: nat, freed: Node)
    requires Deleted(r, r', i, freed)
    ensures Deleted(l + [e] + r, l + [e] + r', |l| + 1 + i, freed)
  {
    var s, k := l + [e] + r, |l| + 1 + i;
    assert s[k] == r[i] && (i > 0 ==> s[k - 1] == r[i - 1]);
    assert s[..k] == l + [e] + r[..i] && s[k + 1..] == r[i + 1..];
    assert i > 0 ==> s[..k - 1] == l + [e] + r[..i - 1];
  }

  // What Del leaves when key is in s, at position i, and when it is not.
  ghost predicate Removed(s: seq<Entry>, s': seq<Entry>, key: Oid, i: nat, freed: Node?) {
    if freed == null then
      s' == s && forall j :: 0 <= j < |s| ==> s[j].key != key
    else
      Deleted(s, s', i, freed) && s[i].key == key
  }

  lemma {:induction false} RemovedLeft(l: seq<Entry>, l': seq<Entry>, e: Entry, r: seq<Entry>, key: Oid, i: nat,
      freed: Node?)
    requires Sorted(l + [e] + r) && Less(key, e.key) && Removed(l, l', key, i, freed)
    ensures Removed(l + [e] + r, l' + [e] + r, key, i, freed)
  {
    hide Less, Deleted;
    SortedParts(l, e, r);
    var s := l + [e] + r;
    if freed == null {
      forall j | 0 <= j < |s| ensures s[j].key != key {
        LessIrreflexive(key);
        if j > |l| {
          LessTransitive(key, e.key, s[j].key);
        }
      }
    } else {
      DeletedLeft(l, l', e, r, i, freed);
      DeletedIndex(l, l', i, freed);
      assert s[i] == l[i];
    }
  }

  lemma DeletedIndex(s: seq<Entry>, s': seq<Entry>, i: nat, freed: Node)
    requires Deleted(s, s', i, freed)
    ensures i < |s|
  {
  }

  lemma {:induction false} RemovedRight(l: seq<Entry>, e: Entry, r: seq<Entry>, r': seq<Entry>, key: Oid, i: nat,
      freed: Node?)
    requires Sorted(l + [e] + r) && Less(e.key, key) && Removed(r, r', key, i, freed)
    ensures Removed(l + [e] + r, l + [e] + r', key, |l| + 1 + i, freed)
  {
    hide Less, Deleted;
    SortedParts(l, e, r);
    var s := l + [e] + r;
    if freed == null {
      forall j | 0 <= j < |s| ensures s[j].key != key {
        LessIrreflexive(key);
        if j < |l| {
          LessTransitive(s[j].key, e.key, key);
        }
      }
    } else {
      DeletedRight(l, e, r, r', i, freed);
      DeletedIndex(r, r', i, freed);
      assert s[|l| + 1 + i] == r[i];
    }
  }

  // DelLast below the left link of t.
  method PruneLeftLast(t: Node, ghost l: Tree, ghost e: Entry, ghost r: Tree, ghost lo: Node?, ghost hi: Node?)
    returns (shrunk: bool, found: Node, ghost l': Tree, ghost steps: nat)
    requires Open(t, l, e, r, lo, hi) && l.Fork? && lo !in Nodes(l)
    modifies {t} + Nodes(l)
    ensures Open(t, l', e, r, lo, hi) && unchanged(t`bf)
    ensures Height(l') == Height(l) - (if shrunk then 1 else 0)
    ensures Elems(l) == Elems(l') + [Last(l)] && found == Last(l).node
    ensures Nodes(l') == Nodes(l) - {found} && steps == Spine(l)
  {
    hide Nodes, Elems, Distinct, Rep, Height, Avl, Last, Spine;
    DistinctFork(l, e, r);
    assert allocated(Nodes(r));
    var tl;
    tl, shrunk, found, l', steps := DelLast(t, t.lt, l, lo, t, AtLeft);
    t.lt := tl;
    OpenIntro(t, l', e, r, lo, hi);
  }

  // Other contents for t.
  method SetEntry(t: Node, key: Oid, val: EntryPtr,
      ghost l: Tree, ghost e: Entry, ghost r: Tree, ghost lo: Node?, ghost hi: Node?)
    requires Open(t, l, e, r, lo, hi)
    modifies t`item, t`cont
    ensures Open(t, l, Entry(t, key, val), r, lo, hi)
  {
    hide Nodes, Distinct, Rep, Avl;
    DistinctFork(l, e, r);
    assert allocated(Nodes(l)) && allocated(Nodes(r));
    t.item := key;
    t.cont := val;
    OpenIntro(t, l, Entry(t, key, val), r, lo, hi);
  }

  // t takes over the entry before its own.
  method Replace(t: Node, ghost T: Tree, ghost lo: Node?, ghost hi: Node?) returns (ghost e': Entry)
    requires Good(T, lo, hi) && T.Fork? && t == T.e.node && T.left.Fork?
    modifies t
    ensures e' == Entry(t, Last(T.left).key, Last(T.left).val)
    ensures Open(t, T.left, e', T.right, lo, hi) && unchanged(t`bf)
  {
    ghost var l, r := T.left, T.right;
    hide Nodes, Elems, Distinct, Rep, Height, Avl, Last, Code;
    TreeFork(l, T.e, r, lo, hi);
    assert allocated(Nodes(l)) && allocated(Nodes(r));
    var p := Pred(t, T, lo, hi);
    e' := Entry(t, Last(l).key, Last(l).val);
    SetEntry(t, p.item, p.cont, l, T.e, r, lo, hi);
  }

  lemma {:induction false} DeletedInner(l: Tree, e: Entry, r: Tree, l': Tree)
    requires l.Fork? && Distinct(Fork(l, e, r))
    requires Elems(l) == Elems(l') + [Last(l)] && Nodes(l') == Nodes(l) - {Last(l).node}
    ensures var t, t' := Fork(l, e, r), Fork(l', Entry(e.node, Last(l).key, Last(l).val), r);
      && Deleted(Elems(t), Elems(t'), |Elems(l)|, Last(l).node)
      && Nodes(t') == Nodes(t) - {Last(l).node} && Last(l).node in Nodes(t)
  {
    hide Nodes, Elems, Distinct, Last;
    var e', n := Entry(e.node, Last(l).key, Last(l).val), |Elems(l)|;
    DistinctFork(l, e, r);
    ElemsFork(l, e, r);
    ElemsFork(l', e', r);
    NodesFork(l, e, r);
    NodesFork(l', e', r);
    LastNode(l);
    var s := Elems(Fork(l, e, r));
    assert s[n] == e && s[n - 1] == Last(l) && s[..n - 1] == Elems(l') && s[n + 1..] == Elems(r);
  }

  // Deletes the key of t, which has two children: the entry before it moves into t.
  method DelInner(t: Node, ghost T: Tree, ghost lo: Node?, ghost hi: Node?)
    returns (t': Node, shrunk: bool, found: Node, ghost T': Tree, ghost steps: nat)
    requires Good(T, lo, hi) && T.Fork? && t == T.e.node && T.left.Fork? && T.right.Fork? && Outside(T, lo, hi)
    modifies Nodes(T)
    ensures Good(T', lo, hi) && T'.Fork? && t' == T'.e.node
    ensures Height(T') == Height(T) - (if shrunk then 1 else 0)
    ensures Deleted(Elems(T), Elems(T'), |Elems(T.left)|, found)
    ensures Nodes(T') == Nodes(T) - {found} && found in Nodes(T) && found != t
    ensures steps == 1 + Spine(T.left)
  {
    ghost var l, e, r := T.left, T.e, T.right;
    hide Nodes, Elems, Distinct, Rep, Height, Avl, Last, Deleted, Spine;
    TreeFork(l, e, r, lo, hi);
    hide Good, Open, Code;
    ghost var e' := Replace(t, T, lo, hi);
    ghost var l';
    shrunk, found, l', steps := PruneLeftLast(t, l, e', r, lo, hi);
    steps := steps + 1;
    HeightFork(l', e', r);
    DeletedInner(l, e, r, l');
    t', shrunk, T' := SettleLeft(t, shrunk, l', e', r, lo, hi);
  }

  lemma {:induction false} AbsentFromLeaf(key: Oid)
    ensures Elems(Leaf) == [] && Removed([], [], key, 0, null)
  {
  }

  lemma {:induction false} WithoutLeft(l: Tree, e: Entry, r: Tree, l': Tree, freed: Node?)
    requires Distinct(Fork(l, e, r))
    requires if freed == null then l' == l else freed in Nodes(l) && Nodes(l') == Nodes(l) - {freed}
    ensures freed != null ==> Nodes(Fork(l', e, r)) == Nodes(Fork(l, e, r)) - {freed}
    ensures freed != null ==> freed in Nodes(Fork(l, e, r))
    ensures Elems(Fork(l', e, r)) == Elems(l') + [e] + Elems(r)
    ensures Height(Fork(l', e, r)) == 1 + Max(Height(l'), Height(r))
  {
  }

  lemma {:induction false} WithoutRight(l: Tree, e: Entry, r: Tree, r': Tree, freed: Node?)
    requires Distinct(Fork(l, e, r))
    requires if freed == null then r' == r else freed in Nodes(r) && Nodes(r') == Nodes(r) - {freed}
    ensures freed != null ==> Nodes(Fork(l, e, r')) == Nodes(Fork(l, e, r)) - {freed}
    ensures freed != null ==> freed in Nodes(Fork(l, e, r))
    ensures Elems(Fork(l, e, r')) == Elems(l) + [e] + Elems(r')
    ensures Height(Fork(l, e, r')) == 1 + Max(Height(l), Height(r'))
  {
  }

  // Node n of t lacks a child, that is, has a thread.
  ghost predicate Threaded(t: Tree, n: Node) {
    t.Fork? && if t.e.node == n then t.left.Leaf? || t.right.Leaf? else Threaded(t.left, n) || Threaded(t.right, n)
  }

  // The node of the removed key is the one that is freed exactly if it has a thread.
  ghost predicate FreedRule(t: Tree, i: nat, freed: Node?) {
    freed != null ==> i < |Elems(t)| && (freed == Elems(t)[i].node <==> Threaded(t, Elems(t)[i].node))
  }

  lemma {:induction false} NothingFreed(t: Tree, i: nat)
    ensures FreedRule(t, i, null)
  {
  }

  lemma {:induction false} ThreadedIn(t: Tree, n: Node)
    requires Threaded(t, n)
    ensures n in Nodes(t)
  {
    if t.e.node != n {
      if Threaded(t.left, n) {
        ThreadedIn(t.left, n);
      } else {
        ThreadedIn(t.right, n);
      }
    }
  }

  lemma {:induction false} ElemIn(t: Tree, i: nat)
    requires i < |Elems(t)|
    ensures Elems(t)[i].node in Nodes(t)
  {
    var n := |Elems(t.left)|;
    if i < n {
      ElemIn(t.left, i);
    } else if i > n {
      ElemIn(t.right, i - n - 1);
    }
  }

  lemma {:induction false} FreedHere(t: Tree, freed: Node)
    requires t.Fork? && Distinct(t) && freed in Nodes(t)
    requires freed == t.e.node <==> t.left.Leaf? || t.right.Leaf?
    ensures FreedRule(t, |Elems(t.left)|, freed)
  {
    hide Distinct, Nodes;
    assert Elems(t)[|Elems(t.left)|] == t.e;
  }

  lemma {:induction false} FreedLeft(l: Tree, e: Entry, r: Tree, i: nat, freed: Node?)
    requires Distinct(Fork(l, e, r)) && FreedRule(l, i, freed)
    ensures FreedRule(Fork(l, e, r), i, freed)
  {
    if freed != null {
      ElemIn(l, i);
      var n := Elems(l)[i].node;
      assert Elems(Fork(l, e, r))[i] == Elems(l)[i];
      if Threaded(r, n) {
        ThreadedIn(r, n);
      }
    }
  }

  lemma {:induction false} FreedRight(l: Tree, e: Entry, r: Tree, i: nat, freed: Node?)
    requires Distinct(Fork(l, e, r)) && FreedRule(r, i, freed)
    ensures FreedRule(Fork(l, e, r), |Elems(l)| + 1 + i, freed)
  {
    if freed != null {
      ElemIn(r, i);
      var n := Elems(r)[i].node;
      assert Elems(Fork(l, e, r))[|Elems(l)| + 1 + i] == Elems(r)[i];
      if Threaded(l, n) {
        ThreadedIn(l, n);
      }
    }
  }

  // Del below the left link of t.
  method PruneLeft(t: Node, key: Oid, ghost l: Tree, ghost e: Entry, ghost r: Tree, ghost lo: Node?, ghost hi: Node?)
    returns (shrunk: bool, found: Node?, ghost l': Tree, ghost i: nat, ghost steps: nat)
    requires Open(t, l, e, r, lo, hi) && l.Fork? && lo !in Nodes(l) && Sorted(Elems(l))
    modifies {t} + Nodes(l)
    ensures Open(t, l', e, r, lo, hi) && unchanged(t`bf)
    ensures Height(l') == Height(l) - (if shrunk then 1 else 0)
    ensures Removed(Elems(l), Elems(l'), key, i, found)
    ensures if found == null then l' == l && !shrunk else found in Nodes(l) && Nodes(l') == Nodes(l) - {found}
    ensures FreedRule(l, i, found) && steps == DelPath(l, key)
    decreases l, 5
  {
    hide Nodes, Elems, Distinct, Rep, Height, Avl, Sorted, Removed, FreedRule, AddPath, DelPath, Spine;
    DistinctFork(l, e, r);
    assert allocated(Nodes(r));
    var tl;
    tl, shrunk, found, l', i, steps := Del(t, t.lt, key, l, lo, t, AtLeft);
    t.lt := tl;
    OpenIntro(t, l', e, r, lo, hi);
  }

  // Del below the right link of t.
  method PruneRight(t: Node, key: Oid, ghost l: Tree, ghost e: Entry, ghost r: Tree, ghost lo: Node?, ghost hi: Node?)
    returns (shrunk: bool, found: Node?, ghost r': Tree, ghost i: nat, ghost steps: nat)
    requires Open(t, l, e, r, lo, hi) && r.Fork? && hi !in Nodes(r) && lo !in Nodes(r) && Sorted(Elems(r))
    modifies {t} + Nodes(r)
    ensures Open(t, l, e, r', lo, hi) && unchanged(t`bf)
    ensures Height(r') == Height(r) - (if shrunk then 1 else 0)
    ensures Removed(Elems(r), Elems(r'), key, i, found)
    ensures if found == null then r' == r && !shrunk else found in Nodes(r) && Nodes(r') == Nodes(r) - {found}
    ensures FreedRule(r, i, found) && steps == DelPath(r, key)
    decreases r, 5
  {
    hide Nodes, Elems, Distinct, Rep, Height, Avl, Sorted, Removed, FreedRule, AddPath, DelPath, Spine;
    DistinctFork(l, e, r);
    assert allocated(Nodes(l));
    TopIn(l);
    TopIn(r);
    var tr;
    tr, shrunk, found, r', i, steps := Del(t, t.rt, key, r, t, hi, AtRight);
    t.rt := tr;
    OpenIntro(t, l, e, r', lo, hi);
  }

  // Deletes the key of t itself.
  method DelHere(par: Node, t: Node, ghost T: Tree, ghost lo: Node?, ghost hi: Node?, ghost side: Side)
    returns (t': Node?, shrunk: bool, found: Node, ghost T': Tree, ghost steps: nat)
    requires Good(T, lo, hi) && T.Fork? && t == T.e.node && Outside(T, lo, hi) && LinkedFrom(side, par, t, T, lo, hi)
    modifies {par} + Nodes(T)
    ensures Good(T', lo, hi) && Relinked(side, par, t', T', lo, hi)
    ensures Height(T') == Height(T) - (if shrunk then 1 else 0)
    ensures Deleted(Elems(T), Elems(T'), |Elems(T.left)|, found) && FreedRule(T, |Elems(T.left)|, found)
    ensures found in Nodes(T) && Nodes(T') == Nodes(T) - {found} && steps == DelPath(T, T.e.key)
  {
    hide FreedRule;
    if t.lthread || t.rthread {
      t', T' := Unlink(par, t, T, lo, hi, side);
      shrunk, found, steps := true, t, 1;
      DeletedHere(T, T');
    } else {
      t', shrunk, found, T', steps := DelInner(t, T, lo, hi);
    }
    FreedHere(T, found);
  }

  lemma {:induction false} DeletedHere(t: Tree, t': Tree)
    requires t.Fork? && (t.left.Leaf? || t.right.Leaf?) && Distinct(t)
    requires t' == (if t.left.Leaf? then t.right else t.left)
    ensures Deleted(Elems(t), Elems(t'), |Elems(t.left)|, t.e.node)
    ensures t.e.node in Nodes(t) && Nodes(t') == Nodes(t) - {t.e.node}
    ensures Avl(t) ==> Height(t') == Height(t) - 1
  {
  }

  method DelLeft(t: Node, key: Oid, ghost T: Tree, ghost lo: Node?, ghost hi: Node?)
    returns (t': Node, shrunk: bool, found: Node?, ghost T': Tree, ghost i: nat, ghost steps: nat)
    requires Good(T, lo, hi) && T.Fork? && t == T.e.node && Outside(T, lo, hi)
    requires Sorted(Elems(T)) && Less(key, t.item)
    modifies Nodes(T)
    ensures Good(T', lo, hi) && T'.Fork? && t' == T'.e.node
    ensures Height(T') == Height(T) - (if shrunk then 1 else 0)
    ensures Removed(Elems(T), Elems(T'), key, i, found)
    ensures if found == null then T' == T && !shrunk else found in Nodes(T) && Nodes(T') == Nodes(T) - {found}
    ensures FreedRule(T, i, found) && (found == null ==> t' == t) && steps == DelPath(T, key)
    decreases T, 3
  {
    ghost var l, e, r := T.left, T.e, T.right;
    hide Nodes, Elems, Distinct, Rep, Height, Avl, Sorted, Removed, FreedRule, Less, AddPath, DelPath, Spine;
    TreeFork(l, e, r, lo, hi);
    PathLeft(T, key);
    SortedParts(Elems(l), e, Elems(r));
    if t.lthread {
      AbsentFromLeaf(key);
      RemovedLeft(Elems(l), Elems(l), e, Elems(r), key, 0, null);
      NothingFreed(T, 0);
      return t, false, null, T, 0, 1;
    }
    ghost var l';
    shrunk, found, l', i, steps := PruneLeft(t, key, l, e, r, lo, hi);
    steps := steps + 1;
    RemovedLeft(Elems(l), Elems(l'), e, Elems(r), key, i, found);
    FreedLeft(l, e, r, i, found);
    WithoutLeft(l, e, r, l', found);
    hide Open, Good, Code;
    t', shrunk, T' := SettleLeft(t, shrunk, l', e, r, lo, hi);
  }

  method DelRight(t: Node, key: Oid, ghost T: Tree, ghost lo: Node?, ghost hi: Node?)
    returns (t': Node, shrunk: bool, found: Node?, ghost T': Tree, ghost i: nat, ghost steps: nat)
    requires Good(T, lo, hi) && T.Fork? && t == T.e.node && Outside(T, lo, hi)
    requires Sorted(Elems(T)) && Less(t.item, key)
    modifies Nodes(T)
    ensures Good(T', lo, hi) && T'.Fork? && t' == T'.e.node
    ensures Height(T') == Height(T) - (if shrunk then 1 else 0)
    ensures Removed(Elems(T), Elems(T'), key, i, found)
    ensures if found == null then T' == T && !shrunk else found in Nodes(T) && Nodes(T') == Nodes(T) - {found}
    ensures FreedRule(T, i, found) && (found == null ==> t' == t) && steps == DelPath(T, key)
    decreases T, 3
  {
    ghost var l, e, r := T.left, T.e, T.right;
    hide Nodes, Elems, Distinct, Rep, Height, Avl, Sorted, Removed, FreedRule, Less, AddPath, DelPath, Spine;
    TreeFork(l, e, r, lo, hi);
    PathRight(T, key);
    SortedParts(Elems(l), e, Elems(r));
    if t.rthread {
      AbsentFromLeaf(key);
      RemovedRight(Elems(l), e, Elems(r), Elems(r), key, 0, null);
      NothingFreed(T, |Elems(l)| + 1);
      return t, false, null, T, |Elems(l)| + 1, 1;
    }
    t', shrunk, found, T', i, steps := DelBelowRight(t, key, l, e, r, lo, hi);
  }

  // DelRight if t has a right child.
  method DelBelowRight(t: Node, key: Oid, ghost l: Tree, ghost e: Entry, ghost r: Tree, ghost lo: Node?,
      ghost hi: Node?)
    returns (t': Node, shrunk: bool, found: Node?, ghost T': Tree, ghost i: nat, ghost steps: nat)
    requires Open(t, l, e, r, lo, hi) && t.bf == Code(Height(l), Height(r)) && -1 <= Height(l) - Height(r) <= 1
    requires r.Fork? && hi !in Nodes(r) && lo !in Nodes(r)
    requires Sorted(Elems(l) + [e] + Elems(r)) && Sorted(Elems(r)) && Less(e.key, key)
    modifies {t} + Nodes(l) + Nodes(r)
    ensures Good(T', lo, hi) && T'.Fork? && t' == T'.e.node
    ensures Height(T') == 1 + Max(Height(l), Height(r)) - (if shrunk then 1 else 0)
    ensures Removed(Elems(l) + [e] + Elems(r), Elems(T'), key, i, found) && FreedRule(Fork(l, e, r), i, found)
    ensures found == null ==> T' == Fork(l, e, r) && !shrunk && t' == t
    ensures found != null ==> found in Nodes(Fork(l, e, r)) && Nodes(T') == Nodes(Fork(l, e, r)) - {found}
    ensures steps == 1 + DelPath(r, key)
    decreases r, 6
  {
    hide Nodes, Elems, Distinct, Rep, Height, Avl, Sorted, Removed, FreedRule, Less, AddPath, DelPath, Spine;
    ghost var r', j;
    shrunk, found, r', j, steps := PruneRight(t, key, l, e, r, lo, hi);
    steps := steps + 1;
    i := |Elems(l)| + 1 + j;
    RightRemoved(l, e, r, r', key, j, found);
    hide Open, Good, Code;
    t', shrunk, T' := SettleRight(t, shrunk, l, e, r', lo, hi);
  }

  lemma {:induction false} RightRemoved(l: Tree, e: Entry, r: Tree, r': Tree, key: Oid, j: nat, found: Node?)
    requires Distinct(Fork(l, e, r)) && Removed(Elems(r), Elems(r'), key, j, found) && FreedRule(r, j, found)
    requires Sorted(Elems(l) + [e] + Elems(r)) && Less(e.key, key)
    requires if found == null then r' == r else found in Nodes(r) && Nodes(r') == Nodes(r) - {found}
    ensures Elems(Fork(l, e, r)) == Elems(l) + [e] + Elems(r)
    ensures Removed(Elems(Fork(l, e, r)), Elems(Fork(l, e, r')), key, |Elems(l)| + 1 + j, found)
    ensures FreedRule(Fork(l, e, r), |Elems(l)| + 1 + j, found)
    ensures found != null ==> found in Nodes(Fork(l, e, r)) && Nodes(Fork(l, e, r')) == Nodes(Fork(l, e, r)) - {found}
    ensures Elems(Fork(l, e, r')) == Elems(l) + [e] + Elems(r')
    ensures Height(Fork(l, e, r')) == 1 + Max(Height(l), Height(r'))
  {
    hide Nodes, Elems, Distinct, Height, Sorted, Removed, FreedRule, Less;
    ElemsFork(l, e, r);
    RemovedRight(Elems(l), e, Elems(r), Elems(r'), key, j, found);
    FreedRight(l, e, r, j, found);
    WithoutRight(l, e, r, r', found);
  }

  method Del(par: Node, t: Node, key: Oid, ghost T: Tree, ghost lo: Node?, ghost hi: Node?, ghost side: Side)
    returns (t': Node?, shrunk: bool, found: Node?, ghost T': Tree, ghost i: nat, ghost steps: nat)
    requires Good(T, lo, hi) && T.Fork? && t == T.e.node && Outside(T, lo, hi) && LinkedFrom(side, par, t, T, lo, hi)
    requires Sorted(Elems(T))
    modifies {par} + Nodes(T)
    ensures Good(T', lo, hi) && Relinked(side, par, t', T', lo, hi)
    ensures Height(T') == Height(T) - (if shrunk then 1 else 0)
    ensures Removed(Elems(T), Elems(T'), key, i, found)
    ensures if found == null then T' == T && !shrunk else found in Nodes(T) && Nodes(T') == Nodes(T) - {found}
    ensures FreedRule(T, i, found) && steps == DelPath(T, key)
    decreases T, 4
  {
    ghost var l, e, r := T.left, T.e, T.right;
    hide Nodes, Elems, Distinct, Rep, Height, Avl, Sorted, Deleted, FreedRule, Less;
    TreeFork(l, e, r, lo, hi);
    if key == t.item {
      t', shrunk, found, T', steps := DelHere(par, t, T, lo, hi, side);
      i := |Elems(l)|;
      assert Elems(T)[i] == e;
    } else {
      LessTotal(key, t.item);
      if Less(key, t.item) {
        t', shrunk, found, T', i, steps := DelLeft(t, key, T, lo, hi);
      } else {
        t', shrunk, found, T', i, steps := DelRight(t, key, T, lo, hi);
      }
    }
  }
}
