/**
 * The sort `list.sort(key=...)` performs for both merge scripts, once the keys are computed:
 * stable and ascending by an integer key. It is defined here as the insertion of each item
 * in list order, and shown to be ascending, a permutation and stable, and to be the only
 * ascending arrangement when no two items share a key.
 */
module StableSort {
  /** An item with the key computed for it. */
  datatype Keyed<T> = Keyed(key: nat, item: T)

  /** The items of keyed entries, in order. */
  function Items<T>(ks: seq<Keyed<T>>): (r: seq<T>)
    ensures |r| == |ks| && forall i :: 0 <= i < |ks| ==> r[i] == ks[i].item
  {
    seq(|ks|, i requires 0 <= i < |ks| => ks[i].item)
  }

  lemma ItemsAppend<T>(a: seq<Keyed<T>>, b: seq<Keyed<T>>)
    ensures Items(a + b) == Items(a) + Items(b)
  {
  }

  /** Keys never decrease along `ks`. */
  ghost predicate Ascending<T>(ks: seq<Keyed<T>>)
  {
    forall i, j :: 0 <= i < j < |ks| ==> ks[i].key <= ks[j].key
  }

  /** `x` placed after every entry of `t` whose key is at most its own. */
  function Insert<T>(x: Keyed<T>, t: seq<Keyed<T>>): (r: seq<Keyed<T>>)
    ensures |r| == |t| + 1 && x in r
  {
    if t == [] then [x]
    else if x.key < t[0].key then [x] + t
    else [t[0]] + Insert(x, t[1..])
  }

  /** The sort: each entry inserted in list order, so that entries with equal keys keep
      their order. */
  function SortByKey<T>(ks: seq<Keyed<T>>): (r: seq<Keyed<T>>)
    ensures |r| == |ks|
  {
    if ks == [] then [] else Insert(ks[|ks| - 1], SortByKey(ks[..|ks| - 1]))
  }

  lemma {:induction false} InsertPermutes<T>(x: Keyed<T>, t: seq<Keyed<T>>)
    ensures multiset(Insert(x, t)) == multiset(t) + multiset{x}
  {
    if t == [] {
    } else if x.key < t[0].key {
      assert multiset([x] + t) == multiset{x} + multiset(t);
    } else {
      InsertPermutes(x, t[1..]);
      assert multiset(t) == multiset{t[0]} + multiset(t[1..]) by {
        assert t == [t[0]] + t[1..];
      }
      assert multiset([t[0]] + Insert(x, t[1..])) == multiset{t[0]} + multiset(Insert(x, t[1..]));
    }
  }

  /** The sort keeps every entry, as often as it occurs. */
  lemma {:induction false} SortByKeyPermutes<T>(ks: seq<Keyed<T>>)
    ensures multiset(SortByKey(ks)) == multiset(ks)
  {
    if ks != [] {
      var init, last := ks[..|ks| - 1], ks[|ks| - 1];
      SortByKeyPermutes(init);
      InsertPermutes(last, SortByKey(init));
      assert multiset(ks) == multiset(init) + multiset{last} by {
        assert ks == init + [last];
      }
    }
  }

  lemma {:induction false} InsertItems<T>(x: Keyed<T>, t: seq<Keyed<T>>)
    ensures multiset(Items(Insert(x, t))) == multiset(Items(t)) + multiset{x.item}
  {
    if t == [] {
    } else if x.key < t[0].key {
      ItemsAppend([x], t);
    } else {
      InsertItems(x, t[1..]);
      ItemsAppend([t[0]], Insert(x, t[1..]));
      ItemsAppend([t[0]], t[1..]);
      assert [t[0]] + t[1..] == t;
    }
  }

  /** The sort keeps every item, as often as it occurs. */
  lemma {:induction false} SortByKeyItems<T>(ks: seq<Keyed<T>>)
    ensures multiset(Items(SortByKey(ks))) == multiset(Items(ks))
  {
    if ks != [] {
      var init, last := ks[..|ks| - 1], ks[|ks| - 1];
      SortByKeyItems(init);
      InsertItems(last, SortByKey(init));
      ItemsAppend(init, [last]);
      assert init + [last] == ks;
    }
  }

  lemma HeadIsLeast<T>(t: seq<Keyed<T>>)
    requires Ascending(t) && t != []
    ensures forall e :: e in t ==> t[0].key <= e.key
  {
  }

  lemma ConsAscending<T>(h: Keyed<T>, r: seq<Keyed<T>>)
    requires Ascending(r) && forall e :: e in r ==> h.key <= e.key
    ensures Ascending([h] + r)
  {
    var s := [h] + r;
    forall i, j | 0 <= i < j < |s| ensures s[i].key <= s[j].key {
      assert s[j] == r[j - 1];
      if i > 0 { assert s[i] == r[i - 1]; }
    }
  }

  lemma {:induction false} InsertAscending<T>(x: Keyed<T>, t: seq<Keyed<T>>)
    requires Ascending(t)
    ensures Ascending(Insert(x, t))
  {
    if t != [] && t[0].key <= x.key {
      var rest := Insert(x, t[1..]);
      InsertAscending(x, t[1..]);
      HeadIsLeast(t);
      InsertPermutes(x, t[1..]);
      forall e | e in rest ensures t[0].key <= e.key {
        assert e in multiset(rest);
        assert e == x || e in multiset(t[1..]);
      }
      ConsAscending(t[0], rest);
    }
  }

  /** The sort leaves the keys ascending. */
  lemma {:induction false} SortByKeyAscending<T>(ks: seq<Keyed<T>>)
    ensures Ascending(SortByKey(ks))
  {
    if ks != [] {
      SortByKeyAscending(ks[..|ks| - 1]);
      InsertAscending(ks[|ks| - 1], SortByKey(ks[..|ks| - 1]));
    }
  }

  /** Three entries whose keys are in the order middle, first, last are sorted to middle,
      first, last. */
  lemma SortThree<T>(a: Keyed<T>, b: Keyed<T>, c: Keyed<T>)
    requires b.key < a.key < c.key
    ensures SortByKey([a, b, c]) == [b, a, c]
  {
    assert [a, b, c][..2] == [a, b];
    assert [a, b][..1] == [a];
    assert [a][..0] == [];
    assert SortByKey([a]) == [a];
    assert SortByKey([a, b]) == [b, a];
    assert [b, a][1..] == [a];
    assert Insert(c, [a]) == [a, c];
  }

  /** The entries of `ks` whose key is `k`, in order. */
  function WithKey<T>(ks: seq<Keyed<T>>, k: nat): (r: seq<Keyed<T>>)
    ensures |r| <= |ks|
  {
    if ks == [] then []
    else if ks[0].key == k then [ks[0]] + WithKey(ks[1..], k)
    else WithKey(ks[1..], k)
  }

  lemma {:induction false} WithKeyAppend<T>(a: seq<Keyed<T>>, b: seq<Keyed<T>>, k: nat)
    ensures WithKey(a + b, k) == WithKey(a, k) + WithKey(b, k)
  {
    if a == [] {
      assert a + b == b;
    } else {
      assert (a + b)[0] == a[0];
      assert (a + b)[1..] == a[1..] + b;
      WithKeyAppend(a[1..], b, k);
    }
  }

  lemma {:induction false} WithKeyAbsent<T>(ks: seq<Keyed<T>>, k: nat)
    requires forall i :: 0 <= i < |ks| ==> ks[i].key != k
    ensures WithKey(ks, k) == []
  {
    if ks != [] {
      WithKeyAbsent(ks[1..], k);
    }
  }

  lemma {:induction false} InsertStable<T>(x: Keyed<T>, t: seq<Keyed<T>>, k: nat)
    requires Ascending(t)
    ensures WithKey(Insert(x, t), k) == WithKey(t, k) + (if x.key == k then [x] else [])
  {
    if t == [] {
    } else if x.key < t[0].key {
      assert ([x] + t)[1..] == t;
      if x.key == k {
        WithKeyAbsent(t, k);
      }
    } else {
      var rest := Insert(x, t[1..]);
      InsertStable(x, t[1..], k);
      assert ([t[0]] + rest)[1..] == rest;
    }
  }

  /** The sort is stable: the entries that share a key keep their relative order. */
  lemma {:induction false} SortByKeyStable<T>(ks: seq<Keyed<T>>, k: nat)
    ensures WithKey(SortByKey(ks), k) == WithKey(ks, k)
  {
    if ks != [] {
      var init, last := ks[..|ks| - 1], ks[|ks| - 1];
      SortSnocStable(ks, k);
      SortByKeyStable(init, k);
      WithKeySnoc(init, last, k);
      assert init + [last] == ks;
    }
  }

  lemma SortSnocStable<T>(ks: seq<Keyed<T>>, k: nat)
    requires ks != []
    ensures WithKey(SortByKey(ks), k) == WithKey(SortByKey(ks[..|ks| - 1]), k) +
      (if ks[|ks| - 1].key == k then [ks[|ks| - 1]] else [])
  {
    SortByKeyAscending(ks[..|ks| - 1]);
    InsertStable(ks[|ks| - 1], SortByKey(ks[..|ks| - 1]), k);
  }

  lemma WithKeySnoc<T>(init: seq<Keyed<T>>, last: Keyed<T>, k: nat)
    ensures WithKey(init + [last], k) == WithKey(init, k) + (if last.key == k then [last] else [])
  {
    WithKeyAppend(init, [last], k);
  }

  /** No two different entries share a key. */
  ghost predicate UniqueKeys<T>(ks: seq<Keyed<T>>)
  {
    forall x, y :: x in ks && y in ks && x.key == y.key ==> x == y
  }

  /** Two ascending arrangements of one collection with unique keys start alike. */
  lemma HeadsAgree<T>(a: seq<Keyed<T>>, b: seq<Keyed<T>>)
    requires Ascending(a) && Ascending(b)
    requires multiset(a) == multiset(b) && UniqueKeys(a) && a != []
    ensures b != [] && a[0] == b[0]
  {
    assert |b| == |multiset(b)| == |multiset(a)| == |a|;
    assert a[0] in multiset(b) && b[0] in multiset(a);
    var j :| 0 <= j < |b| && b[j] == a[0];
    var i :| 0 <= i < |a| && a[i] == b[0];
    assert b[0].key <= b[j].key;
    assert a[0].key <= a[i].key;
  }

  lemma TailsPermute<T>(a: seq<Keyed<T>>, b: seq<Keyed<T>>)
    requires multiset(a) == multiset(b) && a != [] && b != [] && a[0] == b[0]
    ensures multiset(a[1..]) == multiset(b[1..])
  {
    assert a == [a[0]] + a[1..] && b == [b[0]] + b[1..];
    assert multiset(a) == multiset{a[0]} + multiset(a[1..]);
    assert multiset(b) == multiset{a[0]} + multiset(b[1..]);
    forall e ensures multiset(a[1..])[e] == multiset(b[1..])[e] {
      assert multiset(a)[e] == multiset{a[0]}[e] + multiset(a[1..])[e];
      assert multiset(b)[e] == multiset{a[0]}[e] + multiset(b[1..])[e];
    }
  }

  lemma TailKeepsOrder<T>(a: seq<Keyed<T>>)
    requires Ascending(a) && a != []
    ensures Ascending(a[1..])
    ensures UniqueKeys(a) ==> UniqueKeys(a[1..])
  {
    assert forall e :: e in a[1..] ==> e in a;
  }

  /** With one entry per key there is only one ascending arrangement of a collection. */
  lemma {:induction false} AscendingUnique<T>(a: seq<Keyed<T>>, b: seq<Keyed<T>>)
    requires Ascending(a) && Ascending(b)
    requires multiset(a) == multiset(b) && UniqueKeys(a)
    ensures a == b
  {
    if a == [] {
      assert |b| == |multiset(b)| == 0;
    } else {
      assert b != [] && a[0] == b[0] && multiset(a[1..]) == multiset(b[1..]) by {
        HeadsAgree(a, b);
        TailsPermute(a, b);
      }
      assert Ascending(a[1..]) && Ascending(b[1..]) && UniqueKeys(a[1..]) by {
        TailKeepsOrder(a);
        TailKeepsOrder(b);
      }
      AscendingUnique(a[1..], b[1..]);
      assert a == [a[0]] + a[1..] && b == [b[0]] + b[1..];
    }
  }
}
