/** The abstract ordered map: a list of items with ascending keys. */
module SortedItems {
  import opened Oids
  import opened SortedKeys

  datatype Item<V> = Item(key: Oid, val: V)

  function KeysOf<V>(l: seq<Item<V>>): (ks: seq<Oid>)
    ensures |ks| == |l| && forall i :: 0 <= i < |l| ==> ks[i] == l[i].key
  {
    seq(|l|, i requires 0 <= i < |l| => l[i].key)
  }

  ghost predicate Ordered<V>(l: seq<Item<V>>) {
    Ascending(KeysOf(l))
  }

  // Replaces the value of key, or inserts it in order.
  function Put<V>(l: seq<Item<V>>, key: Oid, v: V): seq<Item<V>> {
    if l == [] then [Item(key, v)]
    else if l[0].key == key then [Item(key, v)] + l[1..]
    else if Less(key, l[0].key) then [Item(key, v)] + l
    else [l[0]] + Put(l[1..], key, v)
  }

  // Removes key if it is there.
  function Drop<V>(l: seq<Item<V>>, key: Oid): seq<Item<V>> {
    if l == [] then []
    else if l[0].key == key then l[1..]
    else [l[0]] + Drop(l[1..], key)
  }

  function AsMap<V>(l: seq<Item<V>>): map<Oid, V> {
    if l == [] then map[] else AsMap(l[1..])[l[0].key := l[0].val]
  }

  lemma {:induction false} OrderedTail<V>(l: seq<Item<V>>)
    requires Ordered(l) && l != []
    ensures Ordered(l[1..]) && forall j :: 1 <= j < |l| ==> Less(l[0].key, l[j].key)
  {
    var ks, ls := KeysOf(l), KeysOf(l[1..]);
    assert forall j :: 0 <= j < |ls| ==> ls[j] == ks[j + 1];
    forall j | 1 <= j < |l| ensures Less(l[0].key, l[j].key) {
      assert Less(ks[0], ks[j]);
    }
  }

  lemma {:induction false} OrderedCons<V>(x: Item<V>, l: seq<Item<V>>)
    requires Ordered(l) && forall j :: 0 <= j < |l| ==> Less(x.key, l[j].key)
    ensures Ordered([x] + l)
  {
    var ks := KeysOf([x] + l);
    forall i, j | 0 <= i < j < |ks| ensures Less(ks[i], ks[j]) {
      if i > 0 {
        assert ks[i] == KeysOf(l)[i - 1] && ks[j] == KeysOf(l)[j - 1];
      } else {
        assert ks[j] == l[j - 1].key;
      }
    }
  }

  lemma {:induction false} AsMapKeys<V>(l: seq<Item<V>>, k: Oid)
    ensures k in AsMap(l) <==> exists i :: 0 <= i < |l| && l[i].key == k
  {
    if l != [] {
      AsMapKeys(l[1..], k);
      if k in AsMap(l[1..]) {
        var i :| 0 <= i < |l[1..]| && l[1..][i].key == k;
        assert l[i + 1].key == k;
      }
      if exists i :: 1 <= i < |l| && l[i].key == k {
        var i :| 1 <= i < |l| && l[i].key == k;
        assert l[1..][i - 1].key == k;
      }
    }
  }

  // In an ordered list the map holds exactly the listed pairs.
  lemma {:induction false} AsMapAt<V>(l: seq<Item<V>>, i: nat)
    requires Ordered(l) && i < |l|
    ensures l[i].key in AsMap(l) && AsMap(l)[l[i].key] == l[i].val
  {
    OrderedTail(l);
    if i > 0 {
      AsMapAt(l[1..], i - 1);
      LessIrreflexive(l[0].key);
    }
  }

  lemma {:induction false} PutNext<V>(l: seq<Item<V>>, key: Oid, v: V)
    requires l != [] && l[0].key != key && !Less(key, l[0].key)
    ensures Put(l, key, v) == [l[0]] + Put(l[1..], key, v) && Put(l, key, v)[1..] == Put(l[1..], key, v)
  {
  }

  lemma {:induction false} DropNext<V>(l: seq<Item<V>>, key: Oid)
    requires l != [] && l[0].key != key
    ensures Drop(l, key) == [l[0]] + Drop(l[1..], key) && Drop(l, key)[1..] == Drop(l[1..], key)
  {
  }

  lemma {:induction false} AsMapCons<V>(x: Item<V>, l: seq<Item<V>>)
    ensures AsMap([x] + l) == AsMap(l)[x.key := x.val]
  {
    assert ([x] + l)[1..] == l;
  }

  // The items of a list after Put and Drop are old ones, or the new one.
  lemma {:induction false} PutItems<V>(l: seq<Item<V>>, key: Oid, v: V)
    ensures forall x :: x in Put(l, key, v) ==> x == Item(key, v) || x in l
  {
    hide Less;
    if l != [] && l[0].key != key && !Less(key, l[0].key) {
      PutItems(l[1..], key, v);
    }
  }

  lemma {:induction false} DropItems<V>(l: seq<Item<V>>, key: Oid)
    ensures forall x :: x in Drop(l, key) ==> x in l
  {
    if l != [] && l[0].key != key {
      DropItems(l[1..], key);
    }
  }

  // x stands before all items of l.
  ghost predicate Before<V>(x: Oid, l: seq<Item<V>>) {
    forall y :: y in l ==> Less(x, y.key)
  }

  lemma {:induction false} OrderedFork<V>(x: Item<V>, l: seq<Item<V>>)
    ensures Ordered([x] + l) <==> Ordered(l) && Before(x.key, l)
  {
    hide Less, KeysOf;
    if Ordered([x] + l) {
      OrderedTail([x] + l);
      assert ([x] + l)[1..] == l;
      forall y | y in l ensures Less(x.key, y.key) {
        var j :| 0 <= j < |l| && l[j] == y;
        assert ([x] + l)[j + 1] == y;
      }
    }
    if Ordered(l) && Before(x.key, l) {
      OrderedCons(x, l);
    }
  }

  lemma {:induction false} PutOrdered<V>(l: seq<Item<V>>, key: Oid, v: V)
    requires Ordered(l)
    ensures Ordered(Put(l, key, v))
  {
    hide Less, KeysOf, Ordered;
    if l == [] {
      OneOrdered(Item(key, v));
    } else {
      assert l == [l[0]] + l[1..];
      OrderedFork(l[0], l[1..]);
      if l[0].key == key {
        OrderedFork(Item(key, v), l[1..]);
      } else if Less(key, l[0].key) {
        forall y | y in l ensures Less(key, y.key) {
          if y != l[0] {
            LessTransitive(key, l[0].key, y.key);
          }
        }
        OrderedFork(Item(key, v), l);
      } else {
        LessTotal(key, l[0].key);
        PutOrdered(l[1..], key, v);
        PutItems(l[1..], key, v);
        PutNext(l, key, v);
        OrderedFork(l[0], Put(l[1..], key, v));
      }
    }
  }

  lemma {:induction false} OneOrdered<V>(x: Item<V>)
    ensures Ordered([x])
  {
  }

  lemma {:induction false} PutMap<V>(l: seq<Item<V>>, key: Oid, v: V)
    ensures AsMap(Put(l, key, v)) == AsMap(l)[key := v]
  {
    hide Less, AsMap;
    AsMapNil<V>();
    if l == [] {
      AsMapCons(Item(key, v), []);
      assert [Item(key, v)] + [] == [Item(key, v)];
    } else {
      assert l == [l[0]] + l[1..];
      AsMapCons(l[0], l[1..]);
      if l[0].key == key {
        AsMapCons(Item(key, v), l[1..]);
      } else if Less(key, l[0].key) {
        AsMapCons(Item(key, v), l);
      } else {
        PutMap(l[1..], key, v);
        PutNext(l, key, v);
        AsMapCons(l[0], Put(l[1..], key, v));
      }
    }
  }

  lemma {:induction false} AsMapNil<V>()
    ensures AsMap<V>([]) == map[]
  {
  }

  lemma {:induction false} DropOrdered<V>(l: seq<Item<V>>, key: Oid)
    requires Ordered(l)
    ensures Ordered(Drop(l, key))
  {
    hide Less, KeysOf, Ordered;
    if l != [] {
      assert l == [l[0]] + l[1..];
      OrderedFork(l[0], l[1..]);
      if l[0].key != key {
        DropOrdered(l[1..], key);
        DropItems(l[1..], key);
        DropNext(l, key);
        OrderedFork(l[0], Drop(l[1..], key));
      }
    }
  }

  lemma {:induction false} DropMap<V>(l: seq<Item<V>>, key: Oid)
    requires Ordered(l)
    ensures AsMap(Drop(l, key)) == AsMap(l) - {key}
  {
    hide Less, KeysOf, Ordered, AsMap;
    AsMapNil<V>();
    if l != [] {
      assert l == [l[0]] + l[1..];
      AsMapCons(l[0], l[1..]);
      OrderedFork(l[0], l[1..]);
      if l[0].key == key {
        AsMapKeys(l[1..], key);
        LessIrreflexive(key);
        assert forall i :: 0 <= i < |l[1..]| ==> l[1..][i] in l[1..];
      } else {
        DropMap(l[1..], key);
        DropNext(l, key);
        AsMapCons(l[0], Drop(l[1..], key));
      }
    }
  }

  lemma {:induction false} PutIsUpdate<V>(l: seq<Item<V>>, key: Oid, v: V)
    requires Ordered(l)
    ensures Ordered(Put(l, key, v)) && AsMap(Put(l, key, v)) == AsMap(l)[key := v]
    ensures forall x :: x in Put(l, key, v) ==> x == Item(key, v) || x in l
  {
    PutItems(l, key, v);
    PutOrdered(l, key, v);
    PutMap(l, key, v);
  }

  lemma {:induction false} DropIsRemove<V>(l: seq<Item<V>>, key: Oid)
    requires Ordered(l)
    ensures Ordered(Drop(l, key)) && AsMap(Drop(l, key)) == AsMap(l) - {key}
    ensures forall x :: x in Drop(l, key) ==> x in l
  {
    DropItems(l, key);
    DropOrdered(l, key);
    DropMap(l, key);
  }

  /* The same effects by position. */

  lemma {:induction false} PutNew<V>(l: seq<Item<V>>, key: Oid, v: V, i: nat)
    requires i <= |l|
    requires forall j :: 0 <= j < i ==> Less(l[j].key, key)
    requires forall j :: i <= j < |l| ==> Less(key, l[j].key)
    ensures Put(l, key, v) == l[..i] + [Item(key, v)] + l[i..]
  {
    if l != [] {
      LessIrreflexive(key);
      if i > 0 {
        LessAsymmetric(l[0].key, key);
        PutNew(l[1..], key, v, i - 1);
        assert l[..i] == [l[0]] + l[1..][..i - 1];
      }
    }
  }

  lemma {:induction false} PutOld<V>(l: seq<Item<V>>, key: Oid, v: V, i: nat)
    requires Ordered(l) && i < |l| && l[i].key == key
    ensures Put(l, key, v) == l[i := Item(key, v)]
  {
    hide Less, KeysOf, Ordered;
    OrderedTail(l);
    if i > 0 {
      LessAsymmetric(l[0].key, key);
      LessIrreflexive(key);
      PutNext(l, key, v);
      PutOld(l[1..], key, v, i - 1);
    }
  }

  lemma {:induction false} DropAt<V>(l: seq<Item<V>>, key: Oid, i: nat)
    requires Ordered(l) && i < |l| && l[i].key == key
    ensures Drop(l, key) == l[..i] + l[i + 1..]
  {
    OrderedTail(l);
    if i > 0 {
      LessAsymmetric(l[0].key, key);
      DropAt(l[1..], key, i - 1);
      assert l[..i] == [l[0]] + l[1..][..i - 1];
    }
  }

  lemma {:induction false} DropNone<V>(l: seq<Item<V>>, key: Oid)
    requires forall j :: 0 <= j < |l| ==> l[j].key != key
    ensures Drop(l, key) == l
  {
    if l != [] {
      DropNone(l[1..], key);
    }
  }
}
