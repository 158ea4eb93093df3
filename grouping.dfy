/** The grouping loop the commands share: walk the rows once, keep a
    `HashMap` from key to the index of its group, and push each row onto
    its group, opening a new group the first time a key is seen. */
module Grouping {

  datatype Group<K, T> = Group(key: K, members: seq<T>)

  /** The distinct keys of `items`, in the order each is first seen. */
  function FirstSeenKeys<T, K(==)>(items: seq<T>, key: T -> K): seq<K> {
    if items == [] then []
    else
      var ks := FirstSeenKeys(items[..|items| - 1], key);
      var k := key(items[|items| - 1]);
      if k in ks then ks else ks + [k]
  }

  /** The items whose key is `k`, in their original order. */
  function Matching<T, K(==)>(items: seq<T>, key: T -> K, k: K): seq<T> {
    if items == [] then []
    else
      var m := Matching(items[..|items| - 1], key, k);
      if key(items[|items| - 1]) == k then m + [items[|items| - 1]] else m
  }

  /** One group per distinct key, in first-seen order, holding that key's items. */
  function GroupsOf<T, K(==)>(items: seq<T>, key: T -> K): seq<Group<K, T>> {
    var ks := FirstSeenKeys(items, key);
    seq(|ks|, g requires 0 <= g < |ks| => Group(ks[g], Matching(items, key, ks[g])))
  }

  predicate Distinct<K(==)>(ks: seq<K>) {
    forall i, j :: 0 <= i < j < |ks| ==> ks[i] != ks[j]
  }

  /** No key opens two groups. */
  lemma {:induction false} FirstSeenKeysDistinct<T, K>(items: seq<T>, key: T -> K)
    ensures Distinct(FirstSeenKeys(items, key))
  {
    if items != [] {
      FirstSeenKeysDistinct(items[..|items| - 1], key);
    }
  }

  /** A key opens a group exactly when some item carries it. */
  lemma {:induction false} FirstSeenKeysComplete<T, K>(items: seq<T>, key: T -> K, k: K)
    ensures k in FirstSeenKeys(items, key) <==> exists i :: 0 <= i < |items| && key(items[i]) == k
  {
    if items != [] {
      var p := items[..|items| - 1];
      FirstSeenKeysComplete(p, key, k);
      if exists i :: 0 <= i < |items| && key(items[i]) == k {
        var i :| 0 <= i < |items| && key(items[i]) == k;
        if i < |p| {
          assert key(p[i]) == k;
        }
      }
      if exists i :: 0 <= i < |p| && key(p[i]) == k {
        var i :| 0 <= i < |p| && key(p[i]) == k;
        assert key(items[i]) == k;
      }
    }
  }

  /** A group holds every item with its key and nothing else. */
  lemma {:induction false} MatchingMembers<T, K>(items: seq<T>, key: T -> K, k: K, x: T)
    ensures x in Matching(items, key, k) <==> x in items && key(x) == k
  {
    if items != [] {
      var p := items[..|items| - 1];
      MatchingMembers(p, key, k, x);
      assert items == p + [items[|items| - 1]];
    }
  }

  /** A key has a group exactly when at least one item carries it. */
  lemma {:induction false} MatchingCount<T, K>(items: seq<T>, key: T -> K, k: K)
    ensures |Matching(items, key, k)| <= |items|
    ensures k in FirstSeenKeys(items, key) <==> Matching(items, key, k) != []
  {
    if items != [] {
      MatchingCount(items[..|items| - 1], key, k);
    }
  }

  /** Every item lands in exactly one group: the one of its key, which exists
      and which no other group shares. */
  lemma ItemInOneGroup<T, K>(items: seq<T>, key: T -> K, i: nat)
    requires i < |items|
    ensures var gs := GroupsOf(items, key);
      && (exists g :: 0 <= g < |gs| && gs[g].key == key(items[i]))
      && (forall g :: 0 <= g < |gs| ==> (items[i] in gs[g].members <==> gs[g].key == key(items[i])))
      && (forall g, h :: 0 <= g < h < |gs| ==> gs[g].key != gs[h].key)
  {
    var gs := GroupsOf(items, key);
    var ks := FirstSeenKeys(items, key);
    FirstSeenKeysComplete(items, key, key(items[i]));
    var g :| 0 <= g < |ks| && ks[g] == key(items[i]);
    assert gs[g].key == key(items[i]);
    forall h | 0 <= h < |gs| ensures items[i] in gs[h].members <==> gs[h].key == key(items[i]) {
      MatchingMembers(items, key, ks[h], items[i]);
    }
    FirstSeenKeysDistinct(items, key);
  }

  lemma GroupsSnocExisting<T, K>(items: seq<T>, key: T -> K, x: T, g: nat)
    requires g < |GroupsOf(items, key)| && GroupsOf(items, key)[g].key == key(x)
    ensures var gs := GroupsOf(items, key);
      GroupsOf(items + [x], key) == gs[g := Group(key(x), gs[g].members + [x])]
  {
    var items' := items + [x];
    assert items'[..|items'| - 1] == items;
    var ks := FirstSeenKeys(items, key);
    assert FirstSeenKeys(items', key) == ks;
    FirstSeenKeysDistinct(items, key);
  }

  lemma GroupsSnocNew<T, K>(items: seq<T>, key: T -> K, x: T)
    requires key(x) !in FirstSeenKeys(items, key)
    ensures GroupsOf(items + [x], key) == GroupsOf(items, key) + [Group(key(x), [x])]
  {
    var items' := items + [x];
    assert items'[..|items'| - 1] == items;
    var ks := FirstSeenKeys(items, key);
    assert FirstSeenKeys(items', key) == ks + [key(x)];
    MatchingCount(items, key, key(x));
  }

  lemma KeyNotIndexed<K>(index: map<K, nat>, ks: seq<K>, k: K)
    requires forall k :: k in index <==> k in ks
    requires k !in index
    ensures k !in ks
  {
  }

  /** The loop: a map from key to group index decides, for each item, whether
      it joins an open group or opens a new one at the end. */
  method GroupFirstSeen<T, K(==)>(items: seq<T>, key: T -> K) returns (groups: seq<Group<K, T>>)
    ensures groups == GroupsOf(items, key)
  {
    groups := [];
    var index: map<K, nat> := map[];
    var i := 0;
    while i < |items|
      invariant 0 <= i <= |items|
      invariant groups == GroupsOf(items[..i], key)
      invariant forall k :: k in index <==> k in FirstSeenKeys(items[..i], key)
      invariant forall k :: k in index ==> index[k] < |groups| && groups[index[k]].key == k
    {
      var x := items[i];
      var k := key(x);
      assert items[..i + 1] == items[..i] + [x];
      if k in index {
        var g := index[k];
        GroupsSnocExisting(items[..i], key, x, g);
        groups := groups[g := Group(k, groups[g].members + [x])];
      } else {
        KeyNotIndexed(index, FirstSeenKeys(items[..i], key), k);
        GroupsSnocNew(items[..i], key, x);
        index := index[k := |groups|];
        groups := groups + [Group(k, [x])];
      }
      i := i + 1;
    }
    assert items[..|items|] == items;
  }
}
