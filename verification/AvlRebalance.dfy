/** In-place rotations and the rebalancing steps of insertion and deletion. */
module AvlRebalance {
  import opened AvlShape

  // l, the left child of t, becomes the root above t.
  method PivotRight(t: Node, l: Node)
    requires t != l
    modifies t, l
    ensures t.lt == (if old(l.rthread) then l else old(l.rt)) && t.lthread == old(l.rthread)
    ensures l.rt == t && !l.rthread
    ensures unchanged(t`rt, t`rthread, t`item, t`cont, t`bf)
    ensures unchanged(l`lt, l`lthread, l`item, l`cont, l`bf)
  {
    if l.rthread {
      t.lt := l;
    } else {
      t.lt := l.rt;
    }
    t.lthread := l.rthread;
    l.rt := t;
    l.rthread := false;
  }

  // r, the right child of t, becomes the root above t.
  method PivotLeft(t: Node, r: Node)
    requires t != r
    modifies t, r
    ensures t.rt == (if old(r.lthread) then r else old(r.lt)) && t.rthread == old(r.lthread)
    ensures r.lt == t && !r.lthread
    ensures unchanged(t`lt, t`lthread, t`item, t`cont, t`bf)
    ensures unchanged(r`rt, r`rthread, r`item, r`cont, r`bf)
  {
    if r.lthread {
      t.rt := r;
    } else {
      t.rt := r.lt;
    }
    t.rthread := r.lthread;
    r.lt := t;
    r.lthread := false;
  }

  // Balance codes after a double rotation with new root m over x and y.
  method SetDoubleCodes(x: Node, m: Node, y: Node)
    requires x != m && m != y && x != y
    modifies x`bf, m`bf, y`bf
    ensures y.bf == (if old(m.bf) == LeftHeavy then RightHeavy else Balanced)
    ensures x.bf == (if old(m.bf) == RightHeavy then LeftHeavy else Balanced)
    ensures m.bf == Balanced
  {
    if m.bf == LeftHeavy {
      y.bf := RightHeavy;
    } else {
      y.bf := Balanced;
    }
    if m.bf == RightHeavy {
      x.bf := LeftHeavy;
    } else {
      x.bf := Balanced;
    }
    m.bf := Balanced;
  }

  // The three nodes of a double rotation: m takes the root, x to its left and y to its right.
  twostate predicate Doubled(x: Node, m: Node, y: Node)
    reads x, m, y
  {
    && unchanged(x`lt, x`lthread, x`item, x`cont) && unchanged(m`item, m`cont)
    && unchanged(y`rt, y`rthread, y`item, y`cont)
    && x.rthread == old(m.lthread) && x.rt == (if old(m.lthread) then m else old(m.lt))
    && y.lthread == old(m.rthread) && y.lt == (if old(m.rthread) then m else old(m.rt))
    && m.lt == x && m.rt == y && !m.lthread && !m.rthread
    && y.bf == (if old(m.bf) == LeftHeavy then RightHeavy else Balanced)
    && x.bf == (if old(m.bf) == RightHeavy then LeftHeavy else Balanced)
    && m.bf == Balanced
  }

  method PivotLeftRight(t: Node, l: Node, r: Node)
    requires t != l && l != r && t != r
    modifies t, l, r
    ensures Doubled(l, r, t)
  {
    PivotLeft(l, r);
    PivotRight(t, r);
    SetDoubleCodes(l, r, t);
  }

  method PivotRightLeft(t: Node, r: Node, l: Node)
    requires t != l && l != r && t != r
    modifies t, l, r
    ensures Doubled(t, l, r)
  {
    PivotRight(r, l);
    PivotLeft(t, l);
    SetDoubleCodes(t, l, r);
  }

  /* Rotations as steps between represented trees. */

  method SingleRight(t: Node, l: Node, bt: Balance, bl: Balance,
    ghost a: Tree, ghost x: Entry, ghost b: Tree, ghost y: Entry, ghost c: Tree, ghost lo: Node?, ghost hi: Node?)
    requires t == y.node && l == x.node && Apart(a, x, b, y, c)
    requires Wired(Fork(Fork(a, x, b), y, c), lo, hi) && Wired(Fork(a, x, b), lo, t)
    requires Rep(a, lo, l) && Rep(b, l, t) && Rep(c, t, hi)
    requires bt == Code(Height(b), Height(c)) && bl == Code(Height(a), Height(Fork(b, y, c)))
    modifies t, l
    ensures Rep(Fork(a, x, Fork(b, y, c)), lo, hi)
  {
    hide Rep, Nodes, Height, Code;
    assert allocated(Nodes(a)) && allocated(Nodes(b)) && allocated(Nodes(c));
    PivotRight(t, l);
    t.bf, l.bf := bt, bl;
    RepFork(b, y, c, l, hi);
    RepFork(a, x, Fork(b, y, c), lo, hi);
  }

  method SingleLeft(t: Node, r: Node, bt: Balance, br: Balance,
    ghost a: Tree, ghost x: Entry, ghost b: Tree, ghost y: Entry, ghost c: Tree, ghost lo: Node?, ghost hi: Node?)
    requires t == x.node && r == y.node && Apart(a, x, b, y, c)
    requires Wired(Fork(a, x, Fork(b, y, c)), lo, hi) && Wired(Fork(b, y, c), t, hi)
    requires Rep(a, lo, t) && Rep(b, t, r) && Rep(c, r, hi)
    requires bt == Code(Height(a), Height(b)) && br == Code(Height(Fork(a, x, b)), Height(c))
    modifies t, r
    ensures Rep(Fork(Fork(a, x, b), y, c), lo, hi)
  {
    hide Rep, Nodes, Height, Code;
    assert allocated(Nodes(a)) && allocated(Nodes(b)) && allocated(Nodes(c));
    PivotLeft(t, r);
    t.bf, r.bf := bt, br;
    RepFork(a, x, b, lo, r);
    RepFork(Fork(a, x, b), y, c, lo, hi);
  }

  method DoubleRight(t: Node, l: Node, r: Node,
    ghost a: Tree, ghost x: Entry, ghost b: Tree, ghost m: Entry, ghost c: Tree, ghost y: Entry, ghost d: Tree,
    ghost lo: Node?, ghost hi: Node?)
    requires t == y.node && l == x.node && r == m.node && Apart3(a, x, b, m, c, y, d)
    requires Wired(Fork(Fork(a, x, Fork(b, m, c)), y, d), lo, hi)
    requires Wired(Fork(a, x, Fork(b, m, c)), lo, t) && Wired(Fork(b, m, c), l, t)
    requires Rep(a, lo, l) && Rep(b, l, r) && Rep(c, r, t) && Rep(d, t, hi)
    requires Height(a) == Height(d) && Height(a) == Max(Height(b), Height(c)) && -1 <= Height(b) - Height(c) <= 1
    requires r.bf == Code(Height(b), Height(c))
    modifies t, l, r
    ensures Rep(Fork(Fork(a, x, b), m, Fork(c, y, d)), lo, hi)
  {
    hide Rep, Nodes, Height;
    assert allocated(Nodes(a)) && allocated(Nodes(b)) && allocated(Nodes(c)) && allocated(Nodes(d));
    HeightFork(a, x, b);
    HeightFork(c, y, d);
    PivotLeftRight(t, l, r);
    RepFork(a, x, b, lo, r);
    RepFork(c, y, d, r, hi);
    RepFork(Fork(a, x, b), m, Fork(c, y, d), lo, hi);
  }

  method DoubleLeft(t: Node, r: Node, l: Node,
    ghost a: Tree, ghost x: Entry, ghost b: Tree, ghost m: Entry, ghost c: Tree, ghost y: Entry, ghost d: Tree,
    ghost lo: Node?, ghost hi: Node?)
    requires t == x.node && r == y.node && l == m.node && Apart3(a, x, b, m, c, y, d)
    requires Wired(Fork(a, x, Fork(Fork(b, m, c), y, d)), lo, hi)
    requires Wired(Fork(Fork(b, m, c), y, d), t, hi) && Wired(Fork(b, m, c), t, r)
    requires Rep(a, lo, t) && Rep(b, t, l) && Rep(c, l, r) && Rep(d, r, hi)
    requires Height(a) == Height(d) && Height(a) == Max(Height(b), Height(c)) && -1 <= Height(b) - Height(c) <= 1
    requires l.bf == Code(Height(b), Height(c))
    modifies t, r, l
    ensures Rep(Fork(Fork(a, x, b), m, Fork(c, y, d)), lo, hi)
  {
    hide Rep, Nodes, Height;
    assert allocated(Nodes(a)) && allocated(Nodes(b)) && allocated(Nodes(c)) && allocated(Nodes(d));
    HeightFork(a, x, b);
    HeightFork(c, y, d);
    PivotRightLeft(t, r, l);
    RepFork(a, x, b, lo, l);
    RepFork(c, y, d, l, hi);
    RepFork(Fork(a, x, b), m, Fork(c, y, d), lo, hi);
  }

  /* The four ways to repair a node that is two levels too deep on one side. */

  // Too deep on the left, and the left child does not lean right.
  method LiftLeft(t: Node, bt: Balance, bl: Balance, ghost L: Tree, ghost e: Entry, ghost R: Tree, ghost lo: Node?,
      ghost hi: Node?)
    returns (l: Node, ghost T': Tree)
    requires Open(t, L, e, R, lo, hi) && Height(L) == Height(R) + 2 && Height(L.left) >= Height(L.right)
    requires bt == Code(Height(L.right), Height(R)) && bl == Code(Height(R), Height(L.right))
    modifies {t} + Nodes(L)
    ensures Good(T', lo, hi) && SameContents(T', Fork(L, e, R)) && T'.Fork? && l == T'.e.node
    ensures Height(T') == 2 + Height(L.right) && T'.right == Fork(L.right, e, R) && T'.left == L.left
  {
    l := t.lt;
    ghost var a, x, b := L.left, L.e, L.right;
    hide Nodes, Elems, Distinct, Rep, Height, Avl;
    RotationElems(a, x, b, e, R);
    RotationNodes(a, x, b, e, R);
    T' := Fork(a, x, Fork(b, e, R));
    LiftRightHeights(a, x, b, e, R);
    RepFork(a, x, b, lo, t);
    NodesFork(a, x, b);
    SingleRight(t, l, bt, bl, a, x, b, e, R, lo, hi);
  }

  // Too deep on the right, and the right child does not lean left.
  method LiftRight(t: Node, bt: Balance, br: Balance, ghost L: Tree, ghost e: Entry, ghost R: Tree, ghost lo: Node?,
      ghost hi: Node?)
    returns (r: Node, ghost T': Tree)
    requires Open(t, L, e, R, lo, hi) && Height(R) == Height(L) + 2 && Height(R.right) >= Height(R.left)
    requires bt == Code(Height(L), Height(R.left)) && br == Code(Height(R.left), Height(L))
    modifies {t} + Nodes(R)
    ensures Good(T', lo, hi) && SameContents(T', Fork(L, e, R)) && T'.Fork? && r == T'.e.node
    ensures Height(T') == 2 + Height(R.left) && T'.left == Fork(L, e, R.left) && T'.right == R.right
  {
    r := t.rt;
    ghost var b, y, c := R.left, R.e, R.right;
    hide Nodes, Elems, Distinct, Rep, Height, Avl;
    RotationElems(L, e, b, y, c);
    RotationNodes(L, e, b, y, c);
    T' := Fork(Fork(L, e, b), y, c);
    LiftLeftHeights(L, e, b, y, c);
    RepFork(b, y, c, t, hi);
    NodesFork(b, y, c);
    SingleLeft(t, r, bt, br, L, e, b, y, c, lo, hi);
  }

  // Too deep on the left, and the left child leans right.
  method TwistLeft(t: Node, ghost L: Tree, ghost e: Entry, ghost R: Tree, ghost lo: Node?, ghost hi: Node?)
    returns (r: Node, ghost T': Tree)
    requires Open(t, L, e, R, lo, hi) && Height(L) == Height(R) + 2 && Height(L.left) < Height(L.right)
    modifies {t} + Nodes(L)
    ensures Good(T', lo, hi) && SameContents(T', Fork(L, e, R)) && T'.Fork? && r == T'.e.node
    ensures Height(T') == Height(L)
  {
    ghost var a, x, M := L.left, L.e, L.right;
    ghost var b, m, c := M.left, M.e, M.right;
    assert Height(a) == Height(R) && Height(a) + 1 == Height(M) && Avl(M);
    hide Nodes, Elems, Distinct, Rep, Height, Avl;
    NodesFork(a, x, M);
    NodesFork(b, m, c);
    DoubleRotationSame(a, x, b, m, c, e, R);
    T' := Fork(Fork(a, x, b), m, Fork(c, e, R));
    TwistHeights(a, x, b, m, c, e, R);
    RepFork(a, x, M, lo, t);
    RepFork(b, m, c, x.node, t);
    var l := t.lt;
    r := l.rt;
    DoubleRight(t, l, r, a, x, b, m, c, e, R, lo, hi);
  }

  // Too deep on the right, and the right child leans left.
  method TwistRight(t: Node, ghost L: Tree, ghost e: Entry, ghost R: Tree, ghost lo: Node?, ghost hi: Node?)
    returns (l: Node, ghost T': Tree)
    requires Open(t, L, e, R, lo, hi) && Height(R) == Height(L) + 2 && Height(R.right) < Height(R.left)
    modifies {t} + Nodes(R)
    ensures Good(T', lo, hi) && SameContents(T', Fork(L, e, R)) && T'.Fork? && l == T'.e.node
    ensures Height(T') == Height(R)
  {
    ghost var M, y, d := R.left, R.e, R.right;
    ghost var b, m, c := M.left, M.e, M.right;
    assert Height(d) == Height(L) && Height(d) + 1 == Height(M) && Avl(M);
    hide Nodes, Elems, Distinct, Rep, Height, Avl;
    NodesFork(M, y, d);
    NodesFork(b, m, c);
    DoubleRotationSame(L, e, b, m, c, y, d);
    T' := Fork(Fork(L, e, b), m, Fork(c, y, d));
    TwistHeights(L, e, b, m, c, y, d);
    RepFork(M, y, d, t, hi);
    RepFork(b, m, c, t, y.node);
    var r := t.rt;
    l := r.lt;
    DoubleLeft(t, r, l, L, e, b, m, c, y, d, lo, hi);
  }

  /* After a subtree of t has changed its height by one, the code of t being the old one. */

  method GrowLeft(t: Node, ghost L: Tree, ghost e: Entry, ghost R: Tree, ghost lo: Node?, ghost hi: Node?)
    returns (t': Node, grown: bool, ghost T': Tree)
    requires Open(t, L, e, R, lo, hi) && L.Fork? && -1 <= Height(L) - 1 - Height(R) <= 1
    requires t.bf == Code(Height(L) - 1, Height(R))
    requires Height(L) >= 2 ==> Height(L.left) != Height(L.right)
    modifies {t} + Nodes(L)
    ensures Good(T', lo, hi) && SameContents(T', Fork(L, e, R)) && T'.Fork? && t' == T'.e.node
    ensures Height(T') == 1 + Max(Height(L) - 1, Height(R)) + (if grown then 1 else 0)
    ensures grown ==> Height(T'.left) != Height(T'.right)
  {
    assert L.e.node.bf == Code(Height(L.left), Height(L.right)) && L.e.node == t.lt;
    assert Height(L) >= 2 ==> Height(L) == 1 + Max(Height(L.left), Height(L.right));
    assert Height(L) == Height(R) + 2 ==> Height(L.left) > Height(L.right) ==> Height(L.right) == Height(R);
    hide Nodes, Elems, Distinct, Rep, Height, Avl;
    t', grown, T' := t, true, Fork(L, e, R);
    HeightFork(L, e, R);
    match t.bf {
      case RightHeavy =>
        SetRootCode(t, Balanced, L, e, R, lo, hi);
        grown := false;
      case Balanced =>
        SetRootCode(t, LeftHeavy, L, e, R, lo, hi);
      case LeftHeavy =>
        var l := t.lt;
        if l.bf == LeftHeavy {
          t', T' := LiftLeft(t, Balanced, Balanced, L, e, R, lo, hi);
        } else {
          t', T' := TwistLeft(t, L, e, R, lo, hi);
        }
        grown := false;
    }
  }

  method GrowRight(t: Node, ghost L: Tree, ghost e: Entry, ghost R: Tree, ghost lo: Node?, ghost hi: Node?)
    returns (t': Node, grown: bool, ghost T': Tree)
    requires Open(t, L, e, R, lo, hi) && R.Fork? && -1 <= Height(L) - (Height(R) - 1) <= 1
    requires t.bf == Code(Height(L), Height(R) - 1)
    requires Height(R) >= 2 ==> Height(R.left) != Height(R.right)
    modifies {t} + Nodes(R)
    ensures Good(T', lo, hi) && SameContents(T', Fork(L, e, R)) && T'.Fork? && t' == T'.e.node
    ensures Height(T') == 1 + Max(Height(L), Height(R) - 1) + (if grown then 1 else 0)
    ensures grown ==> Height(T'.left) != Height(T'.right)
  {
    assert R.e.node.bf == Code(Height(R.left), Height(R.right)) && R.e.node == t.rt;
    assert Height(R) >= 2 ==> Height(R) == 1 + Max(Height(R.left), Height(R.right));
    assert Height(R) == Height(L) + 2 ==> Height(R.right) > Height(R.left) ==> Height(R.left) == Height(L);
    hide Nodes, Elems, Distinct, Rep, Height, Avl;
    t', grown, T' := t, true, Fork(L, e, R);
    HeightFork(L, e, R);
    match t.bf {
      case LeftHeavy =>
        SetRootCode(t, Balanced, L, e, R, lo, hi);
        grown := false;
      case Balanced =>
        SetRootCode(t, RightHeavy, L, e, R, lo, hi);
      case RightHeavy =>
        var r := t.rt;
        if r.bf == RightHeavy {
          t', T' := LiftRight(t, Balanced, Balanced, L, e, R, lo, hi);
        } else {
          t', T' := TwistRight(t, L, e, R, lo, hi);
        }
        grown := false;
    }
  }

  method ShrinkLeft(t: Node, ghost L: Tree, ghost e: Entry, ghost R: Tree, ghost lo: Node?, ghost hi: Node?)
    returns (t': Node, shrunk: bool, ghost T': Tree)
    requires Open(t, L, e, R, lo, hi) && -1 <= Height(L) + 1 - Height(R) <= 1
    requires t.bf == Code(Height(L) + 1, Height(R))
    modifies {t} + Nodes(R)
    ensures Good(T', lo, hi) && SameContents(T', Fork(L, e, R)) && T'.Fork? && t' == T'.e.node
    ensures Height(T') == 1 + Max(Height(L) + 1, Height(R)) - (if shrunk then 1 else 0)
  {
    assert R.Fork? ==> R.e.node.bf == Code(Height(R.left), Height(R.right)) && R.e.node == t.rt;
    assert Height(R) == Height(L) + 2 ==>
      R.Fork? && Height(R) == 1 + Max(Height(R.left), Height(R.right)) && -1 <= Height(R.left) - Height(R.right) <= 1;
    hide Nodes, Elems, Distinct, Rep, Height, Avl;
    t', shrunk, T' := t, true, Fork(L, e, R);
    HeightFork(L, e, R);
    match t.bf {
      case LeftHeavy =>
        SetRootCode(t, Balanced, L, e, R, lo, hi);
      case Balanced =>
        SetRootCode(t, RightHeavy, L, e, R, lo, hi);
        shrunk := false;
      case RightHeavy =>
        var r := t.rt;
        match r.bf {
          case Balanced =>
            t', T' := LiftRight(t, RightHeavy, LeftHeavy, L, e, R, lo, hi);
            shrunk := false;
          case RightHeavy =>
            t', T' := LiftRight(t, Balanced, Balanced, L, e, R, lo, hi);
          case LeftHeavy =>
            t', T' := TwistRight(t, L, e, R, lo, hi);
        }
    }
  }

  method ShrinkRight(t: Node, ghost L: Tree, ghost e: Entry, ghost R: Tree, ghost lo: Node?, ghost hi: Node?)
    returns (t': Node, shrunk: bool, ghost T': Tree)
    requires Open(t, L, e, R, lo, hi) && -1 <= Height(L) - (Height(R) + 1) <= 1
    requires t.bf == Code(Height(L), Height(R) + 1)
    modifies {t} + Nodes(L)
    ensures Good(T', lo, hi) && SameContents(T', Fork(L, e, R)) && T'.Fork? && t' == T'.e.node
    ensures Height(T') == 1 + Max(Height(L), Height(R) + 1) - (if shrunk then 1 else 0)
  {
    assert L.Fork? ==> L.e.node.bf == Code(Height(L.left), Height(L.right)) && L.e.node == t.lt;
    assert Height(L) == Height(R) + 2 ==>
      L.Fork? && Height(L) == 1 + Max(Height(L.left), Height(L.right)) && -1 <= Height(L.left) - Height(L.right) <= 1;
    hide Nodes, Elems, Distinct, Rep, Height, Avl;
    t', shrunk, T' := t, true, Fork(L, e, R);
    HeightFork(L, e, R);
    match t.bf {
      case RightHeavy =>
        SetRootCode(t, Balanced, L, e, R, lo, hi);
      case Balanced =>
        SetRootCode(t, LeftHeavy, L, e, R, lo, hi);
        shrunk := false;
      case LeftHeavy =>
        var l := t.lt;
        match l.bf {
          case Balanced =>
            t', T' := LiftLeft(t, LeftHeavy, RightHeavy, L, e, R, lo, hi);
            shrunk := false;
          case LeftHeavy =>
            t', T' := LiftLeft(t, Balanced, Balanced, L, e, R, lo, hi);
          case RightHeavy =>
            t', T' := TwistLeft(t, L, e, R, lo, hi);
        }
    }
  }

  // t needs no rotation, only its code.
  method SetRootCode(t: Node, b: Balance, ghost L: Tree, ghost e: Entry, ghost R: Tree, ghost lo: Node?,
      ghost hi: Node?)
    requires Open(t, L, e, R, lo, hi) && -1 <= Height(L) - Height(R) <= 1 && b == Code(Height(L), Height(R))
    modifies t
    ensures Good(Fork(L, e, R), lo, hi)
  {
    hide Rep, Height, Nodes, Distinct;
    DistinctFork(L, e, R);
    assert allocated(Nodes(L)) && allocated(Nodes(R));
    t.bf := b;
    RepFork(L, e, R, lo, hi);
  }
}
