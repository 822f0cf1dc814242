/**
 * Enumerable#group_by: a hash from each key to the items with that key, in
 * their original order, whose keys are listed in the order they first occur.
 */
module Grouping {
  import opened RubyText

  /** The key of every item, in order. */
  function Keys<T, K>(items: seq<T>, key: T -> K): seq<K>
  {
    seq(|items|, i requires 0 <= i < |items| => key(items[i]))
  }

  /** group_by's value for key k: the items with that key, in their original order. */
  function Group<T(==), K(==)>(items: seq<T>, key: T -> K, k: K): (group: seq<T>)
    ensures forall x :: x in group ==> x in items && key(x) == k
    ensures group != [] <==> k in Keys(items, key)
  {
    if items == [] then []
    else
      var init, last := items[..|items| - 1], items[|items| - 1];
      assert Keys(items, key) == Keys(init, key) + [key(last)];
      Group(init, key, k) + (if key(last) == k then [last] else [])
  }

  /** Appending an item appends its key to the keys, and to the distinct keys when it is new. */
  lemma KeysSnoc<T, K(!new)>(items: seq<T>, key: T -> K, x: T)
    ensures Keys(items + [x], key) == Keys(items, key) + [key(x)]
    ensures Uniq(Keys(items + [x], key)) ==
      if key(x) in Keys(items, key) then Uniq(Keys(items, key)) else Uniq(Keys(items, key)) + [key(x)]
  {
    assert Keys(items + [x], key) == Keys(items, key) + [key(x)];
    assert (Keys(items, key) + [key(x)])[..|items|] == Keys(items, key);
  }

  /** Appending an item extends its own group and leaves every other group as it was. */
  lemma GroupSnoc<T, K>(items: seq<T>, key: T -> K, x: T, k: K)
    ensures Group(items + [x], key, k) == Group(items, key, k) + (if key(x) == k then [x] else [])
  {
    assert (items + [x])[..|items|] == items;
  }

  /** keys and groups are what grouping items by key yields. */
  ghost predicate Grouped<T, K(!new)>(items: seq<T>, key: T -> K, keys: seq<K>, groups: map<K, seq<T>>)
  {
    && keys == Uniq(Keys(items, key))
    && (forall k :: k in groups <==> k in keys)
    && (forall k :: k in groups ==> groups[k] == Group(items, key, k))
  }

  /** Grouping one more item whose key is already known extends that key's group. */
  lemma GroupedSnocKnown<T, K(!new)>(items: seq<T>, key: T -> K, x: T, keys: seq<K>, groups: map<K, seq<T>>)
    requires Grouped(items, key, keys, groups)
    requires key(x) in groups
    ensures Grouped(items + [x], key, keys, groups[key(x) := groups[key(x)] + [x]])
  {
    var k, xs := key(x), items + [x];
    var g := groups[k := groups[k] + [x]];
    assert keys == Uniq(Keys(xs, key)) by {
      assert k in Keys(items, key);
      KeysSnoc(items, key, x);
    }
    forall j | j in g
      ensures g[j] == Group(xs, key, j)
    {
      GroupSnoc(items, key, x, j);
    }
  }

  /** Grouping one more item with a new key opens a group for it at the end of the keys. */
  lemma GroupedSnocNew<T, K(!new)>(items: seq<T>, key: T -> K, x: T, keys: seq<K>, groups: map<K, seq<T>>)
    requires Grouped(items, key, keys, groups)
    requires key(x) !in groups
    ensures Grouped(items + [x], key, keys + [key(x)], groups[key(x) := [x]])
  {
    var k, xs := key(x), items + [x];
    var g := groups[k := [x]];
    assert keys + [k] == Uniq(Keys(xs, key)) by {
      assert k !in Keys(items, key);
      KeysSnoc(items, key, x);
    }
    forall j | j in g
      ensures g[j] == Group(xs, key, j)
    {
      GroupSnoc(items, key, x, j);
      if j == k {
        assert Group(items, key, k) == [];
      }
    }
  }

  /** group_by: a hash from each key to its group, its keys listed in the order they first occur. */
  method GroupBy<T(==), K(==, !new)>(items: seq<T>, key: T -> K) returns (keys: seq<K>, groups: map<K, seq<T>>)
    ensures Grouped(items, key, keys, groups)
  {
    keys, groups := [], map[];
    for i := 0 to |items|
      invariant Grouped(items[..i], key, keys, groups)
    {
      var k := key(items[i]);
      TakeOneMore(items, i);
      if k in groups {
        GroupedSnocKnown(items[..i], key, items[i], keys, groups);
        groups := groups[k := groups[k] + [items[i]]];
      } else {
        GroupedSnocNew(items[..i], key, items[i], keys, groups);
        keys := keys + [k];
        groups := groups[k := [items[i]]];
      }
    }
    assert items[..|items|] == items;
  }

  /** The head of a group is the item where its key first occurs. */
  lemma {:induction false} GroupHeadIsFirstOccurrence<T, K>(items: seq<T>, key: T -> K, k: K)
    requires k in Keys(items, key)
    ensures Group(items, key, k)[0] == items[IndexOf(Keys(items, key), k)]
  {
    var init, last := items[..|items| - 1], items[|items| - 1];
    assert Keys(items, key) == Keys(init, key) + [key(last)];
    if k in Keys(init, key) {
      GroupHeadIsFirstOccurrence(init, key, k);
      IndexOfSnoc(Keys(init, key), key(last), k);
    } else {
      assert IndexOf(Keys(items, key), k) == |init| by {
        assert Keys(items, key)[..|init|] == Keys(init, key);
      }
    }
  }
}
