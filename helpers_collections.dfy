/**
 * The array helpers of src/utils/helpers.js. `groupBy` folds the items into
 * an accumulator object keyed by each item's key, pushing each item onto its
 * group in place; `sortBy` sorts a copy of the items by a numeric key,
 * ascending unless the direction is "desc". The property lookup `item[key]`
 * is a key function here.
 */
module HelpersCollections {

  /** The items of `items` whose key is `k`, in their original order. */
  function Group<T, K(==)>(items: seq<T>, key: T -> K, k: K): (g: seq<T>)
    ensures |g| <= |items|
  {
    if items == [] then []
    else
      var last := items[|items| - 1];
      Group(items[..|items| - 1], key, k) + (if key(last) == k then [last] else [])
  }

  /** The keys that occur among `items`. */
  ghost function KeysOf<T, K>(items: seq<T>, key: T -> K): set<K> {
    set i | 0 <= i < |items| :: key(items[i])
  }

  /**
   * `groupBy(array, key)`: one group per key that occurs, holding exactly
   * the items with that key in their original order.
   */
  method GroupBy<T, K(==)>(items: seq<T>, key: T -> K) returns (groups: map<K, seq<T>>)
    ensures groups.Keys == KeysOf(items, key)
    ensures forall k :: k in groups ==> groups[k] == Group(items, key, k)
  {
    groups := map[];
    var n := 0;
    while n < |items|
      invariant 0 <= n <= |items|
      invariant groups.Keys == KeysOf(items[..n], key)
      invariant forall k :: k in groups ==> groups[k] == Group(items[..n], key, k)
    {
      var item := items[n];
      var k := key(item);
      if k !in groups {
        GroupMissingKey(items[..n], key, k);
      }
      var group := if k in groups then groups[k] else [];
      groups := groups[k := group + [item]];
      assert items[..n + 1] == items[..n] + [item];
      KeysOfSnoc(items[..n], item, key);
      assert items[..n + 1][..n] == items[..n];
      n := n + 1;
    }
    assert items[..n] == items;
  }

  lemma KeysOfSnoc<T, K>(items: seq<T>, x: T, key: T -> K)
    ensures KeysOf(items + [x], key) == KeysOf(items, key) + {key(x)}
  {
    var s := items + [x];
    assert key(s[|items|]) == key(x);
    forall i | 0 <= i < |items| ensures key(items[i]) in KeysOf(s, key) {
      assert s[i] == items[i];
    }
  }

  lemma GroupMissingKey<T, K>(items: seq<T>, key: T -> K, k: K)
    requires k !in KeysOf(items, key)
    ensures Group(items, key, k) == []
  {
    if items != [] {
      var front := items[..|items| - 1];
      assert KeysOf(front, key) <= KeysOf(items, key) by {
        forall i | 0 <= i < |front| ensures key(front[i]) in KeysOf(items, key) {
          assert front[i] == items[i];
        }
      }
      GroupMissingKey(front, key, k);
    }
  }

  /** An item is in the group for `k` exactly when it is one of the items and has key `k`. */
  lemma {:induction false} GroupMembers<T, K>(items: seq<T>, key: T -> K, k: K, x: T)
    ensures x in Group(items, key, k) <==> x in items && key(x) == k
  {
    if items != [] {
      var front := items[..|items| - 1];
      GroupMembers(front, key, k, x);
      assert items == front + [items[|items| - 1]];
    }
  }

  /** Grouping the items of `a + b` keeps the order: the `a` members come first. */
  lemma {:induction false} GroupAppend<T, K>(a: seq<T>, b: seq<T>, key: T -> K, k: K)
    ensures Group(a + b, key, k) == Group(a, key, k) + Group(b, key, k)
  {
    if b == [] {
      assert a + b == a;
    } else {
      var b' := b[..|b| - 1];
      GroupAppend(a, b', key, k);
      assert (a + b)[..|a + b| - 1] == a + b';
    }
  }

  /** The total size of the groups named by `ks`. */
  function GroupSizes<T, K(==)>(items: seq<T>, key: T -> K, ks: seq<K>): nat {
    if ks == [] then 0 else |Group(items, key, ks[0])| + GroupSizes(items, key, ks[1..])
  }

  predicate Distinct<K(==)>(ks: seq<K>) {
    forall i, j :: 0 <= i < j < |ks| ==> ks[i] != ks[j]
  }

  /** One more item adds one to the total when its key is among `ks`, once. */
  lemma {:induction false} GroupSizesStep<T, K>(items: seq<T>, x: T, key: T -> K, ks: seq<K>)
    requires Distinct(ks)
    ensures GroupSizes(items + [x], key, ks) == GroupSizes(items, key, ks) + (if key(x) in ks then 1 else 0)
  {
    if ks != [] {
      assert Distinct(ks[1..]) by {
        forall i, j | 0 <= i < j < |ks[1..]| ensures ks[1..][i] != ks[1..][j] {
          assert ks[1..][i] == ks[i + 1] && ks[1..][j] == ks[j + 1];
        }
      }
      GroupSizesStep(items, x, key, ks[1..]);
      assert (items + [x])[..|items + [x]| - 1] == items;
      if key(x) == ks[0] {
        assert key(x) !in ks[1..] by {
          forall i | 0 <= i < |ks[1..]| ensures ks[1..][i] != ks[0] {
            assert ks[1..][i] == ks[i + 1];
          }
        }
      }
      assert key(x) in ks <==> key(x) == ks[0] || key(x) in ks[1..] by {
        assert ks == [ks[0]] + ks[1..];
      }
    }
  }

  /**
   * The groups of distinct keys covering every key hold all the items
   * between them: their sizes add up to the number of items.
   */
  lemma {:induction false} GroupSizesSum<T, K>(items: seq<T>, key: T -> K, ks: seq<K>)
    requires Distinct(ks)
    requires forall i :: 0 <= i < |items| ==> key(items[i]) in ks
    ensures GroupSizes(items, key, ks) == |items|
  {
    if items == [] {
      EmptyGroupSizes(key, ks);
    } else {
      var front := items[..|items| - 1];
      var x := items[|items| - 1];
      assert forall i :: 0 <= i < |front| ==> front[i] == items[i];
      GroupSizesSum(front, key, ks);
      assert front + [x] == items;
      GroupSizesStep(front, x, key, ks);
    }
  }

  lemma {:induction false} EmptyGroupSizes<T, K>(key: T -> K, ks: seq<K>)
    ensures GroupSizes([], key, ks) == 0
  {
    if ks != [] {
      EmptyGroupSizes(key, ks[1..]);
    }
  }

  /** Whether a key `a` may stand before a key `b` in the given direction. */
  predicate InOrder(a: int, b: int, descending: bool) {
    if descending then a >= b else a <= b
  }

  predicate Ordered<T>(s: seq<T>, key: T -> int, descending: bool) {
    forall i, j :: 0 <= i < j < |s| ==> InOrder(key(s[i]), key(s[j]), descending)
  }

  /** Puts `x` into `s` before the first element it may precede. */
  function Insert<T(==)>(x: T, s: seq<T>, key: T -> int, descending: bool): (r: seq<T>)
    ensures multiset(r) == multiset(s) + multiset{x}
    ensures |r| == |s| + 1
  {
    if s == [] then [x]
    else if InOrder(key(x), key(s[0]), descending) then [x] + s
    else
      assert s == [s[0]] + s[1..];
      [s[0]] + Insert(x, s[1..], key, descending)
  }

  /** Inserting into an ordered sequence keeps it ordered. */
  lemma {:induction false} InsertOrdered<T>(x: T, s: seq<T>, key: T -> int, descending: bool)
    requires Ordered(s, key, descending)
    ensures Ordered(Insert(x, s, key, descending), key, descending)
  {
    if s != [] && !InOrder(key(x), key(s[0]), descending) {
      var tail := s[1..];
      var rest := Insert(x, tail, key, descending);
      InsertOrdered(x, tail, key, descending);
      forall i | 0 <= i < |rest|
        ensures InOrder(key(s[0]), key(rest[i]), descending)
      {
        assert rest[i] in multiset(rest);
        if rest[i] != x {
          assert rest[i] in multiset(tail);
          var j :| 0 <= j < |tail| && tail[j] == rest[i];
          assert tail[j] == s[j + 1];
        }
      }
      var r := [s[0]] + rest;
      forall i, j | 0 <= i < j < |r|
        ensures InOrder(key(r[i]), key(r[j]), descending)
      {
        if i > 0 {
          assert r[i] == rest[i - 1] && r[j] == rest[j - 1];
        } else {
          assert r[j] == rest[j - 1];
        }
      }
    }
  }

  /**
   * `sortBy(array, key, direction)`: a copy of the items, a permutation of
   * them, ordered by key; descending for "desc" and ascending for any other
   * direction. The input is a value and stays as it was.
   */
  function SortBy<T(==)>(items: seq<T>, key: T -> int, direction: string := "asc"): (r: seq<T>)
    ensures multiset(r) == multiset(items)
    ensures |r| == |items|
    ensures Ordered(r, key, direction == "desc")
  {
    if items == [] then []
    else
      var front := items[..|items| - 1];
      var sorted := SortBy(front, key, direction);
      assert items == front + [items[|items| - 1]];
      InsertOrdered(items[|items| - 1], sorted, key, direction == "desc");
      Insert(items[|items| - 1], sorted, key, direction == "desc")
  }
}
