/** How few keys a tree of a given height can hold. */
module AvlHeight {
  import opened AvlShape

  function Fib(n: nat): nat {
    if n < 2 then n else Fib(n - 1) + Fib(n - 2)
  }

  function Pow2(n: nat): nat {
    if n == 0 then 1 else 2 * Pow2(n - 1)
  }

  lemma {:induction false} FibStep(n: nat)
    ensures Fib(n + 2) == Fib(n + 1) + Fib(n) && Fib(2) == 1
  {
  }

  lemma {:induction false} FibMonotone(m: nat, n: nat)
    requires m <= n
    ensures Fib(m) <= Fib(n)
  {
    if m < n {
      FibMonotone(m, n - 1);
    }
  }

  lemma {:induction false} FibGrows(n: nat)
    ensures Pow2(n / 2) <= Fib(n + 2)
  {
    if n >= 2 {
      FibGrows(n - 2);
      FibMonotone(n, n + 1);
      assert n / 2 == (n - 2) / 2 + 1;
    }
  }

  lemma {:induction false} HeightBound(t: Tree)
    requires Avl(t)
    ensures |Elems(t)| >= Fib(Height(t) + 2) - 1
  {
    hide Fib, Nodes;
    FibStep(Height(t));
    if t.Fork? {
      HeightBound(t.left);
      HeightBound(t.right);
      FibMonotone(Height(t), Height(t.left) + 2);
      FibMonotone(Height(t), Height(t.right) + 2);
    }
  }

  // A descent visits at most twice as many nodes as the number of keys has binary digits.
  lemma {:induction false} LogarithmicHeight(t: Tree)
    requires Avl(t)
    ensures Pow2(Height(t) / 2) <= |Elems(t)| + 1
  {
    HeightBound(t);
    FibGrows(Height(t));
  }

  lemma {:induction false} Pow2Monotone(m: nat, n: nat)
    requires m <= n
    ensures Pow2(m) <= Pow2(n)
  {
    if m < n {
      Pow2Monotone(m, n - 1);
    }
  }

  lemma {:induction false} FewSteps(t: Tree, steps: nat)
    requires Avl(t) && steps <= Height(t)
    ensures Pow2(steps / 2) <= |Elems(t)| + 1
  {
    LogarithmicHeight(t);
    Pow2Monotone(steps / 2, Height(t) / 2);
  }

  // The sparsest tree of height h: the bound cannot be improved.
  ghost function Sparsest(h: nat, e: Entry): Tree {
    if h == 0 then Leaf
    else if h == 1 then Fork(Leaf, e, Leaf)
    else Fork(Sparsest(h - 1, e), e, Sparsest(h - 2, e))
  }

  lemma {:induction false} SparsestFork(h: nat, e: Entry)
    requires h >= 2 && Height(Sparsest(h - 1, e)) == h - 1 && Height(Sparsest(h - 2, e)) == h - 2
    ensures Height(Sparsest(h, e)) == h
    ensures Avl(Sparsest(h - 1, e)) && Avl(Sparsest(h - 2, e)) ==> Avl(Sparsest(h, e))
    ensures |Elems(Sparsest(h, e))| == |Elems(Sparsest(h - 1, e))| + 1 + |Elems(Sparsest(h - 2, e))|
  {
    hide Nodes;
    assert Sparsest(h, e) == Fork(Sparsest(h - 1, e), e, Sparsest(h - 2, e));
  }

  lemma {:induction false} HeightBoundIsTight(h: nat, e: Entry)
    ensures Avl(Sparsest(h, e)) && Height(Sparsest(h, e)) == h
    ensures |Elems(Sparsest(h, e))| == Fib(h + 2) - 1
  {
    if h >= 2 {
      hide Fib, Nodes, Elems, Height, Avl, Sparsest;
      FibStep(h);
      HeightBoundIsTight(h - 1, e);
      HeightBoundIsTight(h - 2, e);
      SparsestFork(h, e);
    }
  }
}
