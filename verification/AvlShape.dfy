/** The nodes of the threaded AVL tree and the abstract trees they stand for. */
module AvlShape {
  import opened Oids

  // An address of a stored object; 0 is the null pointer.
  type EntryPtr = nat

  datatype Balance = Balanced | LeftHeavy | RightHeavy

  class Node {
    var lt: Node?
    var rt: Node?
    var item: Oid
    var cont: EntryPtr
    var bf: Balance
    var lthread: bool
    var rthread: bool

    constructor (key: Oid, val: EntryPtr)
      ensures lt == null && rt == null && item == key && cont == val
      ensures bf == Balanced && !lthread && !rthread
    {
      lt, rt, item, cont := null, null, key, val;
      bf, lthread, rthread := Balanced, false, false;
    }
  }

  // What one node stores.
  datatype Entry = Entry(node: Node, key: Oid, val: EntryPtr)

  datatype Tree = Leaf | Fork(left: Tree, e: Entry, right: Tree)

  ghost function Nodes(t: Tree): set<Node> {
    match t
    case Leaf => {}
    case Fork(l, e, r) => Nodes(l) + {e.node} + Nodes(r)
  }

  // The entries in key order.
  ghost function Elems(t: Tree): seq<Entry> {
    match t
    case Leaf => []
    case Fork(l, e, r) => Elems(l) + [e] + Elems(r)
  }

  ghost function Height(t: Tree): nat {
    match t
    case Leaf => 0
    case Fork(l, _, r) => 1 + Max(Height(l), Height(r))
  }

  function Max(a: nat, b: nat): nat {
    if a > b then a else b
  }

  ghost predicate Avl(t: Tree) {
    t.Fork? ==> Avl(t.left) && Avl(t.right) && -1 <= Height(t.left) - Height(t.right) <= 1
  }

  ghost predicate Distinct(t: Tree) {
    t.Fork? ==>
      && Distinct(t.left) && Distinct(t.right)
      && t.e.node !in Nodes(t.left) && t.e.node !in Nodes(t.right)
      && Nodes(t.left) !! Nodes(t.right)
  }

  // The balance code of a node over subtrees of heights l and r.
  function Code(l: int, r: int): Balance {
    if l > r then LeftHeavy else if l < r then RightHeavy else Balanced
  }

  ghost function Top(t: Tree, d: Node?): Node? {
    if t.Leaf? then d else t.e.node
  }

  // Key, value, links and thread bits of the root of t: a set thread bit
  // means that the link is the in-order neighbour lo or hi.
  ghost predicate Wired(t: Tree, lo: Node?, hi: Node?)
    requires t.Fork?
    reads t.e.node
  {
    && t.e.node.item == t.e.key && t.e.node.cont == t.e.val
    && t.e.node.lthread == t.left.Leaf? && t.e.node.lt == Top(t.left, lo)
    && t.e.node.rthread == t.right.Leaf? && t.e.node.rt == Top(t.right, hi)
  }

  // The heap represents the tree t between its in-order neighbours lo and hi.
  ghost predicate Rep(t: Tree, lo: Node?, hi: Node?)
    reads Nodes(t)
  {
    t.Fork? ==>
      && Wired(t, lo, hi)
      && t.e.node.bf == Code(Height(t.left), Height(t.right))
      && Rep(t.left, lo, t.e.node) && Rep(t.right, t.e.node, hi)
  }

  // A represented AVL tree whose nodes are all different.
  ghost predicate Good(t: Tree, lo: Node?, hi: Node?)
    reads Nodes(t)
  {
    Rep(t, lo, hi) && Distinct(t) && Avl(t)
  }

  // The node t over the sound subtrees l and r, whatever its balance code.
  ghost predicate Open(t: Node, l: Tree, e: Entry, r: Tree, lo: Node?, hi: Node?)
    reads {t} + {e.node} + Nodes(l) + Nodes(r)
  {
    && t == e.node && Wired(Fork(l, e, r), lo, hi) && Distinct(Fork(l, e, r))
    && Rep(l, lo, t) && Rep(r, t, hi) && Avl(l) && Avl(r)
  }

  ghost predicate SameContents(s: Tree, t: Tree) {
    Elems(s) == Elems(t) && Nodes(s) == Nodes(t)
  }

  /* One unfolding of each recursive definition. */

  lemma {:induction false} RepFork(l: Tree, e: Entry, r: Tree, lo: Node?, hi: Node?)
    ensures Rep(Fork(l, e, r), lo, hi) <==>
      && Wired(Fork(l, e, r), lo, hi)
      && e.node.bf == Code(Height(l), Height(r))
      && Rep(l, lo, e.node) && Rep(r, e.node, hi)
  {
  }

  lemma {:induction false} NodesFork(l: Tree, e: Entry, r: Tree)
    ensures Nodes(Fork(l, e, r)) == Nodes(l) + {e.node} + Nodes(r)
  {
  }

  lemma {:induction false} ElemsFork(l: Tree, e: Entry, r: Tree)
    ensures Elems(Fork(l, e, r)) == Elems(l) + [e] + Elems(r)
  {
  }

  lemma {:induction false} DistinctFork(l: Tree, e: Entry, r: Tree)
    ensures Distinct(Fork(l, e, r)) <==>
      && Distinct(l) && Distinct(r)
      && e.node !in Nodes(l) && e.node !in Nodes(r) && Nodes(l) !! Nodes(r)
  {
  }

  lemma {:induction false} HeightFork(l: Tree, e: Entry, r: Tree)
    ensures Height(Fork(l, e, r)) == 1 + Max(Height(l), Height(r))
  {
  }

  lemma {:induction false} AvlFork(l: Tree, e: Entry, r: Tree)
    ensures Avl(Fork(l, e, r)) <==> Avl(l) && Avl(r) && -1 <= Height(l) - Height(r) <= 1
  {
  }

  /* Rotations keep the entries, their order and the nodes. */

  // Two nodes x and y outside of three trees.
  ghost predicate Apart(a: Tree, x: Entry, b: Tree, y: Entry, c: Tree) {
    && x.node != y.node
    && x.node !in Nodes(a) && x.node !in Nodes(b) && x.node !in Nodes(c)
    && y.node !in Nodes(a) && y.node !in Nodes(b) && y.node !in Nodes(c)
  }

  ghost predicate Apart3(a: Tree, x: Entry, b: Tree, m: Entry, c: Tree, y: Entry, d: Tree) {
    && Apart(a, x, b, m, c) && Apart(b, m, c, y, d) && Apart(a, x, c, y, d)
    && m.node !in Nodes(d) && y.node !in Nodes(a)
  }

  lemma {:induction false} RotationElems(a: Tree, x: Entry, b: Tree, y: Entry, c: Tree)
    ensures Elems(Fork(Fork(a, x, b), y, c)) == Elems(Fork(a, x, Fork(b, y, c)))
  {
    ElemsFork(a, x, b);
    ElemsFork(b, y, c);
  }

  lemma {:induction false} RotationNodes(a: Tree, x: Entry, b: Tree, y: Entry, c: Tree)
    ensures Nodes(Fork(Fork(a, x, b), y, c)) == Nodes(Fork(a, x, Fork(b, y, c)))
    ensures Distinct(Fork(Fork(a, x, b), y, c)) <==>
      && Distinct(a) && Distinct(b) && Distinct(c) && Apart(a, x, b, y, c)
      && Nodes(a) !! Nodes(b) && Nodes(a) !! Nodes(c) && Nodes(b) !! Nodes(c)
    ensures Distinct(Fork(a, x, Fork(b, y, c))) <==>
      && Distinct(a) && Distinct(b) && Distinct(c) && Apart(a, x, b, y, c)
      && Nodes(a) !! Nodes(b) && Nodes(a) !! Nodes(c) && Nodes(b) !! Nodes(c)
  {
    NodesFork(a, x, b);
    NodesFork(b, y, c);
  }

  lemma {:induction false} DoubleRotationSame(a: Tree, x: Entry, b: Tree, m: Entry, c: Tree, y: Entry, d: Tree)
    ensures var s := Fork(Fork(a, x, b), m, Fork(c, y, d));
      && SameContents(s, Fork(Fork(a, x, Fork(b, m, c)), y, d))
      && SameContents(s, Fork(a, x, Fork(Fork(b, m, c), y, d)))
      && (Distinct(s) <==> Distinct(Fork(Fork(a, x, Fork(b, m, c)), y, d)))
      && (Distinct(s) <==> Distinct(Fork(a, x, Fork(Fork(b, m, c), y, d))))
      && (Distinct(s) ==> Apart3(a, x, b, m, c, y, d))
  {
    RotationElems(a, x, b, m, c);
    RotationElems(b, m, c, y, d);
    RotationNodes(a, x, b, m, c);
    RotationNodes(b, m, c, y, d);
    RotationElems(Fork(a, x, b), m, c, y, d);
    RotationElems(a, x, b, m, Fork(c, y, d));
    RotationNodes(Fork(a, x, b), m, c, y, d);
    RotationNodes(a, x, b, m, Fork(c, y, d));
  }

  /* Heights after a rotation. */

  lemma {:induction false} LiftRightHeights(a: Tree, x: Entry, b: Tree, y: Entry, c: Tree)
    requires Avl(Fork(a, x, b)) && Avl(c) && Height(Fork(a, x, b)) == Height(c) + 2 && Height(a) >= Height(b)
    ensures Avl(Fork(a, x, Fork(b, y, c))) && Height(Fork(a, x, Fork(b, y, c))) == 2 + Height(b)
    ensures Height(Fork(b, y, c)) == 1 + Height(b) && Height(a) == 1 + Height(c)
  {
    HeightFork(b, y, c);
    HeightFork(a, x, Fork(b, y, c));
  }

  lemma {:induction false} LiftLeftHeights(a: Tree, x: Entry, b: Tree, y: Entry, c: Tree)
    requires Avl(Fork(b, y, c)) && Avl(a) && Height(Fork(b, y, c)) == Height(a) + 2 && Height(c) >= Height(b)
    ensures Avl(Fork(Fork(a, x, b), y, c)) && Height(Fork(Fork(a, x, b), y, c)) == 2 + Height(b)
    ensures Height(Fork(a, x, b)) == 1 + Height(b) && Height(c) == 1 + Height(a)
  {
    HeightFork(a, x, b);
    HeightFork(Fork(a, x, b), y, c);
  }

  lemma {:induction false} TwistHeights(a: Tree, x: Entry, b: Tree, m: Entry, c: Tree, y: Entry, d: Tree)
    requires Avl(Fork(b, m, c)) && Avl(a) && Avl(d)
    requires Height(a) == Height(d) && Height(a) + 1 == Height(Fork(b, m, c))
    ensures -1 <= Height(b) - Height(c) <= 1 && Height(a) == Max(Height(b), Height(c))
    ensures var s := Fork(Fork(a, x, b), m, Fork(c, y, d)); Avl(s) && Height(s) == 2 + Height(a)
  {
    HeightFork(a, x, b);
    HeightFork(c, y, d);
    HeightFork(Fork(a, x, b), m, Fork(c, y, d));
  }
}
