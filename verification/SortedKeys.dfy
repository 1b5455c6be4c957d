/** Sorted sequences of keys: the specification that every user of the ordered store relies on. */
module SortedKeys {
  import opened Oids

  ghost predicate Ascending(ks: seq<Oid>) {
    forall i, j :: 0 <= i < j < |ks| ==> Less(ks[i], ks[j])
  }

  // The number of keys below x, given that the keys ascend.
  function Below(ks: seq<Oid>, x: Oid): (n: nat)
    ensures n <= |ks|
  {
    if ks == [] || !Less(ks[0], x) then 0 else 1 + Below(ks[1..], x)
  }

  // The position of the greatest key that is at most x, or -1.
  function Floor(ks: seq<Oid>, x: Oid): int {
    var n := Below(ks, x);
    if n < |ks| && ks[n] == x then n else n - 1
  }

  lemma {:induction false} BelowSplits(ks: seq<Oid>, x: Oid)
    requires Ascending(ks)
    ensures var n := Below(ks, x);
      && (forall j :: 0 <= j < n ==> Less(ks[j], x))
      && (forall j :: n <= j < |ks| ==> LessEq(x, ks[j]))
  {
    if ks == [] {
    } else if !Less(ks[0], x) {
      LessTotal(ks[0], x);
      forall j | 0 <= j < |ks| ensures LessEq(x, ks[j]) {
        if j > 0 && x != ks[0] {
          LessTransitive(x, ks[0], ks[j]);
        }
      }
    } else {
      BelowSplits(ks[1..], x);
      var n := Below(ks[1..], x);
      forall j | 0 <= j < |ks| ensures if j < n + 1 then Less(ks[j], x) else LessEq(x, ks[j]) {
        if j > 0 {
          assert ks[j] == ks[1..][j - 1];
        }
      }
    }
  }

  // Below and Floor are the only positions with their defining property.
  lemma {:induction false} BelowUnique(ks: seq<Oid>, x: Oid, n: nat)
    requires Ascending(ks) && n <= |ks|
    requires n > 0 ==> Less(ks[n - 1], x)
    requires n < |ks| ==> LessEq(x, ks[n])
    ensures n == Below(ks, x)
  {
    BelowSplits(ks, x);
    var m := Below(ks, x);
    if n < m {
      LessAsymmetricOrEqual(ks[n], x);
    } else if m < n {
      LessAsymmetricOrEqual(ks[n - 1], x);
    }
  }

  lemma {:induction false} LessAsymmetricOrEqual(a: Oid, b: Oid)
    requires Less(a, b)
    ensures !LessEq(b, a)
  {
    LessAsymmetric(a, b);
  }

  lemma {:induction false} FloorIsGreatest(ks: seq<Oid>, x: Oid)
    requires Ascending(ks)
    ensures -1 <= Floor(ks, x) < |ks|
    ensures forall j :: 0 <= j < |ks| ==> (j <= Floor(ks, x) <==> LessEq(ks[j], x))
  {
    BelowSplits(ks, x);
    var n := Below(ks, x);
    forall j | 0 <= j < |ks| ensures j <= Floor(ks, x) <==> LessEq(ks[j], x) {
      if j < n {
      } else if ks[j] == x {
        if j > n {
          LessAsymmetricOrEqual(ks[n], ks[j]);
        }
      } else {
        LessAsymmetricOrEqual(x, ks[j]);
        if n < |ks| && ks[n] == x && j == n {
          assert false;
        }
      }
    }
  }
}
