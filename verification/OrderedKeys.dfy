/**
 * The key order of an insertion-ordered dictionary, as a sequence beside the map that holds the values. A key
 * that is set for the first time goes to the end, a key that is set again keeps its place, and a key that is
 * removed and set again, or moved, goes to the end. Also what is left of a queue that is drained at the front,
 * and of an order when some of its keys are taken away.
 */
module OrderedKeys {

  /** `order` lists each of `keys` once. */
  ghost predicate Lists<K>(order: seq<K>, keys: set<K>) {
    if order == [] then keys == {}
    else order[0] in keys && Lists(order[1..], keys - {order[0]})
  }

  /** Dropping a key; appending it again afterwards moves it to the end. */
  function Without<K(==)>(order: seq<K>, key: K): seq<K> {
    if order == [] then []
    else if order[0] == key then order[1..]
    else [order[0]] + Without(order[1..], key)
  }

  lemma {:induction false} ListsMembers<K>(order: seq<K>, keys: set<K>)
    requires Lists(order, keys)
    ensures forall key :: key in order <==> key in keys
    ensures |order| == |keys|
  {
    if order != [] {
      ListsMembers(order[1..], keys - {order[0]});
      assert order == [order[0]] + order[1..];
    }
  }

  lemma FewerKeys<K>(some: set<K>, all: set<K>)
    requires some <= all
    ensures |some| <= |all|
  {
    assert all == some + (all - some);
  }

  lemma {:induction false} ListsAppend<K>(order: seq<K>, keys: set<K>, key: K)
    requires Lists(order, keys) && key !in keys
    ensures Lists(order + [key], keys + {key})
  {
    if order != [] {
      ListsAppend(order[1..], keys - {order[0]}, key);
      assert (order + [key])[1..] == order[1..] + [key];
      assert keys - {order[0]} + {key} == keys + {key} - {order[0]};
    } else {
      assert (keys + {key}) - {key} == {};
    }
  }

  lemma {:induction false} ListsWithout<K>(order: seq<K>, keys: set<K>, key: K)
    requires Lists(order, keys) && key in keys
    ensures Lists(Without(order, key), keys - {key})
  {
    if order[0] != key {
      ListsWithout(order[1..], keys - {order[0]}, key);
      assert keys - {order[0]} - {key} == keys - {key} - {order[0]};
      assert ([order[0]] + Without(order[1..], key))[1..] == Without(order[1..], key);
    }
  }

  lemma {:induction false} WithoutMembers<K>(order: seq<K>, keys: set<K>, key: K)
    requires Lists(order, keys)
    ensures forall k :: k in Without(order, key) <==> k in order && k != key
    ensures key !in keys ==> Without(order, key) == order
  {
    ListsMembers(order, keys);
    if key in keys {
      ListsWithout(order, keys, key);
      ListsMembers(Without(order, key), keys - {key});
    } else {
      WithoutAbsent(order, key);
    }
  }

  lemma {:induction false} WithoutAbsent<K>(order: seq<K>, key: K)
    requires key !in order
    ensures Without(order, key) == order
  {
    if order != [] {
      WithoutAbsent(order[1..], key);
    }
  }

  lemma {:induction false} WithoutLast<K>(order: seq<K>, key: K)
    requires key !in order
    ensures Without(order + [key], key) == order
  {
    if order != [] {
      assert (order + [key])[1..] == order[1..] + [key];
      WithoutLast(order[1..], key);
    } else {
      assert [key][1..] == [];
    }
  }

  lemma {:induction false} ListsDistinct<K>(order: seq<K>, keys: set<K>)
    requires Lists(order, keys)
    ensures forall i, j :: 0 <= i < j < |order| ==> order[i] != order[j]
  {
    if order != [] {
      ListsMembers(order[1..], keys - {order[0]});
      ListsDistinct(order[1..], keys - {order[0]});
    }
  }

  /** The keys of `order` that are among `keys`, in order. */
  function Kept<K(==, !new)>(order: seq<K>, keys: set<K>): (r: seq<K>)
    ensures forall key :: key in r <==> key in order && key in keys
    decreases |order|
  {
    if order == [] then []
    else if order[0] in keys then [order[0]] + Kept(order[1..], keys)
    else Kept(order[1..], keys)
  }

  lemma {:induction false} KeptWithout<K(!new)>(order: seq<K>, all: set<K>, keys: set<K>, key: K)
    requires Lists(order, all) && key in keys
    ensures Kept(order, keys - {key}) == Without(Kept(order, keys), key)
    decreases |order|
  {
    if order != [] {
      ListsMembers(order[1..], all - {order[0]});
      if order[0] == key {
        KeptElsewhere(order[1..], keys, key);
      } else {
        KeptWithout(order[1..], all - {order[0]}, keys, key);
        assert ([order[0]] + Kept(order[1..], keys))[1..] == Kept(order[1..], keys);
      }
    }
  }

  lemma {:induction false} KeptElsewhere<K(!new)>(order: seq<K>, keys: set<K>, key: K)
    requires key !in order
    ensures Kept(order, keys - {key}) == Kept(order, keys)
    decreases |order|
  {
    if order != [] {
      assert order[0] in order;
      KeptElsewhere(order[1..], keys, key);
    }
  }

  /** Taking keys away in two steps is taking them away at once. */
  lemma {:induction false} KeptTwice<K(!new)>(order: seq<K>, keys: set<K>, fewer: set<K>)
    requires fewer <= keys
    ensures Kept(Kept(order, keys), fewer) == Kept(order, fewer)
    decreases |order|
  {
    if order != [] {
      KeptTwice(order[1..], keys, fewer);
      if order[0] in keys {
        assert ([order[0]] + Kept(order[1..], keys))[1..] == Kept(order[1..], keys);
      }
    }
  }

  lemma {:induction false} KeptAll<K(!new)>(order: seq<K>, keys: set<K>)
    requires forall key :: key in order ==> key in keys
    ensures Kept(order, keys) == order
    decreases |order|
  {
    if order != [] {
      assert order[0] in order;
      KeptAll(order[1..], keys);
    }
  }

  /** `part` is what is left of `whole` after dropping some of its front. */
  predicate Back<T(==)>(part: seq<T>, whole: seq<T>)
    decreases |whole|
  {
    part == whole || (whole != [] && Back(part, whole[1..]))
  }

  lemma {:induction false} BackTail<T>(part: seq<T>, whole: seq<T>)
    requires Back(part, whole) && part != []
    ensures Back(part[1..], whole)
    decreases |whole|
  {
    if part == whole {
      assert Back(whole[1..], whole[1..]);
    } else {
      BackTail(part, whole[1..]);
    }
  }
}
