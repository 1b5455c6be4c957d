/** Object identifiers as sequences of sub-identifiers, with the lexicographic
    order that every ordered container of the agent uses. */
module Oids {
  type Oid = seq<nat>

  predicate Less(a: Oid, b: Oid) {
    b != [] && (a == [] || a[0] < b[0] || (a[0] == b[0] && Less(a[1..], b[1..])))
  }

  predicate LessEq(a: Oid, b: Oid) {
    a == b || Less(a, b)
  }

  lemma {:induction false} LessIrreflexive(a: Oid)
    ensures !Less(a, a)
  {
    if a != [] {
      LessIrreflexive(a[1..]);
    }
  }

  lemma {:induction false} LessTransitive(a: Oid, b: Oid, c: Oid)
    requires Less(a, b) && Less(b, c)
    ensures Less(a, c)
  {
    if a != [] && a[0] == b[0] == c[0] {
      LessTransitive(a[1..], b[1..], c[1..]);
    }
  }

  lemma {:induction false} LessTotal(a: Oid, b: Oid)
    ensures Less(a, b) || a == b || Less(b, a)
  {
    if a != [] && b != [] && a[0] == b[0] {
      LessTotal(a[1..], b[1..]);
      assert a == [a[0]] + a[1..] && b == [b[0]] + b[1..];
    }
  }

  lemma LessAsymmetric(a: Oid, b: Oid)
    requires Less(a, b)
    ensures !Less(b, a) && a != b
  {
    LessIrreflexive(a);
    if Less(b, a) {
      LessTransitive(a, b, a);
    }
  }

  // A copy without the n leftmost sub-identifiers; empty if there are fewer.
  function CutLeft(o: Oid, n: nat): Oid {
    if n <= |o| then o[n..] else []
  }

  // o is strictly below the root p.
  predicate RootOf(p: Oid, o: Oid) {
    |p| < |o| && o[..|p|] == p
  }

  // The next peer of a non-empty identifier: its last sub-identifier plus one.
  function NextPeer(p: Oid): Oid
    requires p != []
  {
    p[..|p| - 1] + [p[|p| - 1] + 1]
  }

  lemma {:induction false} LessPrefix(p: Oid, a: Oid, b: Oid)
    ensures Less(p + a, p + b) <==> Less(a, b)
  {
    if p == [] {
      assert p + a == a && p + b == b;
    } else {
      LessPrefix(p[1..], a, b);
      assert (p + a)[1..] == p[1..] + a && (p + b)[1..] == p[1..] + b;
    }
  }

  // An identifier is smaller than its extensions.
  lemma {:induction false} LessExtension(p: Oid, a: Oid)
    requires a != []
    ensures Less(p, p + a)
  {
    assert p == p + [];
    LessPrefix(p, [], a);
  }

  // The subtree of p, with p itself, is the interval from p up to its next peer.
  lemma {:induction false} SubtreeIsInterval(p: Oid, o: Oid)
    requires p != []
    ensures p == o || RootOf(p, o) <==> LessEq(p, o) && Less(o, NextPeer(p))
  {
    if |p| == 1 {
      assert p == [p[0]] && NextPeer(p) == [p[0] + 1];
      if o != [] {
        assert o == [o[0]] + o[1..] && o[..1] == [o[0]];
        assert p[1..] == [] && NextPeer(p)[1..] == [];
        assert Less(o, NextPeer(p)) <==> o[0] <= p[0];
        assert o[1..] == [] ==> o == [o[0]];
        assert Less(p[1..], o[1..]) <==> o[1..] != [];
        assert p == o || RootOf(p, o) <==> o[0] == p[0];
      }
    } else if o != [] && o[0] == p[0] {
      var q := p[1..];
      SubtreeIsInterval(q, o[1..]);
      assert NextPeer(p)[1..] == NextPeer(q) && NextPeer(p)[0] == p[0];
      assert p == [p[0]] + q && o == [o[0]] + o[1..];
      assert RootOf(p, o) <==> RootOf(q, o[1..]) by {
        if |p| <= |o| {
          assert o[..|p|] == [o[0]] + o[1..][..|q|];
        }
      }
    } else if o != [] {
      assert NextPeer(p)[0] == p[0];
      if |p| <= |o| {
        assert o[..|p|][0] == o[0];
      }
    }
  }
}
