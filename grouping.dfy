/**
 * Grouping items by a string key, as each page does with a `Map` or a
 * plain object: walk the items once, open a group the first time a key is
 * seen, and push the item onto its key's group. The groups are specified
 * by two functions of the input: the keys in first-seen order, and each
 * key's items in input order.
 */
module Grouping {

  /** The distinct keys of `items`, in the order each is first seen. */
  function KeysInOrder<T>(items: seq<T>, key: T -> string): seq<string>
    decreases |items|
  {
    if items == [] then []
    else
      var ks := KeysInOrder(items[..|items| - 1], key);
      var k := key(items[|items| - 1]);
      if k in ks then ks else ks + [k]
  }

  /** The items whose key is `k`, in input order. */
  function Members<T>(items: seq<T>, key: T -> string, k: string): seq<T>
    decreases |items|
  {
    if items == [] then []
    else
      var m := Members(items[..|items| - 1], key, k);
      if key(items[|items| - 1]) == k then m + [items[|items| - 1]] else m
  }

  /** The grouping loop: `keys` is the insertion order of the map `groups`. */
  method GroupBy<T>(items: seq<T>, key: T -> string) returns (keys: seq<string>, groups: map<string, seq<T>>)
    ensures keys == KeysInOrder(items, key)
    ensures forall k :: k in groups <==> k in keys
    ensures forall k :: k in groups ==> groups[k] == Members(items, key, k)
  {
    keys, groups := [], map[];
    for i := 0 to |items|
      invariant keys == KeysInOrder(items[..i], key)
      invariant forall k :: k in groups <==> k in keys
      invariant forall k :: k in groups ==> groups[k] == Members(items[..i], key, k)
    {
      var x := items[i];
      var k := key(x);
      assert items[..i + 1][..i] == items[..i];
      assert items[..i + 1][i] == x;
      if k !in groups {
        MembersOfListed(items[..i], key, k);
        keys := keys + [k];
        groups := groups[k := []];
      }
      groups := groups[k := groups[k] + [x]];
    }
    assert items[..|items|] == items;
  }

  /** No string occurs twice. */
  predicate Distinct(ks: seq<string>) {
    forall i, j :: 0 <= i < j < |ks| ==> ks[i] != ks[j]
  }

  /** Every key is seen once. */
  lemma {:induction false} KeysDistinct<T>(items: seq<T>, key: T -> string)
    ensures Distinct(KeysInOrder(items, key))
    decreases |items|
  {
    if items != [] {
      var init := items[..|items| - 1];
      KeysDistinct(init, key);
      var ks := KeysInOrder(init, key);
      var k := key(items[|items| - 1]);
      if k !in ks {
        var r := ks + [k];
        forall i, j | 0 <= i < j < |r| ensures r[i] != r[j] {
          assert r[i] == ks[i] && ks[i] in ks;
          if j < |ks| { assert r[j] == ks[j]; } else { assert r[j] == k; }
        }
      }
    }
  }

  /** A key has a non-empty group exactly when it is listed. */
  lemma {:induction false} MembersOfListed<T>(items: seq<T>, key: T -> string, k: string)
    ensures Members(items, key, k) != [] <==> k in KeysInOrder(items, key)
    decreases |items|
  {
    if items != [] {
      MembersOfListed(items[..|items| - 1], key, k);
    }
  }

  /** A key is listed exactly when some item has it. */
  lemma {:induction false} KeysComplete<T>(items: seq<T>, key: T -> string, k: string)
    ensures k in KeysInOrder(items, key) <==> exists j :: 0 <= j < |items| && key(items[j]) == k
    decreases |items|
  {
    if items != [] {
      var init := items[..|items| - 1];
      KeysComplete(init, key, k);
      if exists j :: 0 <= j < |init| && key(init[j]) == k {
        var j :| 0 <= j < |init| && key(init[j]) == k;
        assert items[j] == init[j];
      }
      if exists j :: 0 <= j < |items| && key(items[j]) == k {
        var j :| 0 <= j < |items| && key(items[j]) == k;
        if j < |init| { assert init[j] == items[j]; }
      }
    }
  }

  /** A group holds only items with its key. */
  lemma {:induction false} MembersHaveKey<T>(items: seq<T>, key: T -> string, k: string)
    ensures forall x :: x in Members(items, key, k) ==> key(x) == k
    decreases |items|
  {
    if items != [] {
      MembersHaveKey(items[..|items| - 1], key, k);
    }
  }

  /** Every item is in the group of its key. */
  lemma {:induction false} ItemInGroup<T>(items: seq<T>, key: T -> string, j: int)
    requires 0 <= j < |items|
    ensures items[j] in Members(items, key, key(items[j]))
    decreases |items|
  {
    var init := items[..|items| - 1];
    if j < |init| {
      assert init[j] == items[j];
      ItemInGroup(init, key, j);
    }
  }

  /** Items of an earlier part come before items of a later part. */
  lemma {:induction false} MembersConcat<T>(a: seq<T>, b: seq<T>, key: T -> string, k: string)
    ensures Members(a + b, key, k) == Members(a, key, k) + Members(b, key, k)
    decreases |b|
  {
    if b == [] {
      assert a + b == a;
    } else {
      var b0 := b[..|b| - 1];
      assert (a + b)[..|a + b| - 1] == a + b0;
      assert (a + b)[|a + b| - 1] == b[|b| - 1];
      MembersConcat(a, b0, key, k);
    }
  }

  /** The first item of a group is the first item with that key. */
  lemma FirstMember<T>(items: seq<T>, key: T -> string, j: int)
    requires 0 <= j < |items|
    requires forall i :: 0 <= i < j ==> key(items[i]) != key(items[j])
    ensures var m := Members(items, key, key(items[j])); |m| >= 1 && m[0] == items[j]
  {
    var k := key(items[j]);
    NoMembers(items[..j], key, k);
    assert items == items[..j] + ([items[j]] + items[j + 1..]);
    MembersConcat(items[..j], [items[j]] + items[j + 1..], key, k);
    MembersConcat([items[j]], items[j + 1..], key, k);
    assert Members([items[j]], key, k) == [items[j]] by {
      assert [items[j]][..0] == [];
    }
  }

  lemma {:induction false} NoMembers<T>(items: seq<T>, key: T -> string, k: string)
    requires forall i :: 0 <= i < |items| ==> key(items[i]) != k
    ensures Members(items, key, k) == []
    decreases |items|
  {
    if items != [] {
      NoMembers(items[..|items| - 1], key, k);
    }
  }

  /** The total size of the groups of `ks`. */
  function GroupSizes<T>(ks: seq<string>, items: seq<T>, key: T -> string): nat {
    if ks == [] then 0 else |Members(items, key, ks[0])| + GroupSizes(ks[1..], items, key)
  }

  lemma {:induction false} GroupSizesStep<T>(ks: seq<string>, items: seq<T>, x: T, key: T -> string)
    requires Distinct(ks)
    ensures GroupSizes(ks, items + [x], key) == GroupSizes(ks, items, key) + (if key(x) in ks then 1 else 0)
    decreases |ks|
  {
    if ks != [] {
      assert (items + [x])[..|items + [x]| - 1] == items;
      assert key(x) in ks <==> key(x) == ks[0] || key(x) in ks[1..] by {
        assert ks == [ks[0]] + ks[1..];
      }
      if key(x) == ks[0] {
        assert key(x) !in ks[1..] by {
          forall i | 0 <= i < |ks[1..]| ensures ks[1..][i] != key(x) {
            assert ks[1..][i] == ks[i + 1];
          }
        }
      }
      GroupSizesStep(ks[1..], items, x, key);
    }
  }

  lemma GroupSizesAppend<T>(ks: seq<string>, k: string, items: seq<T>, key: T -> string)
    ensures GroupSizes(ks + [k], items, key) == GroupSizes(ks, items, key) + |Members(items, key, k)|
    decreases |ks|
  {
    if ks != [] {
      assert (ks + [k])[1..] == ks[1..] + [k];
      GroupSizesAppend(ks[1..], k, items, key);
    }
  }

  /** The groups partition the items: their sizes add up to the number of items. */
  lemma {:induction false} GroupsPartition<T>(items: seq<T>, key: T -> string)
    ensures GroupSizes(KeysInOrder(items, key), items, key) == |items|
    decreases |items|
  {
    if items != [] {
      var init := items[..|items| - 1];
      var x := items[|items| - 1];
      var ks := KeysInOrder(init, key);
      assert items == init + [x];
      GroupsPartition(init, key);
      KeysDistinct(init, key);
      GroupSizesStep(ks, init, x, key);
      if key(x) !in ks {
        GroupSizesAppend(ks, key(x), items, key);
        NoMembers(init, key, key(x)) by {
          forall i | 0 <= i < |init| ensures key(init[i]) != key(x) {
            assert init[i] in init;
            KeysComplete(init, key, key(x));
          }
        }
        assert Members(items, key, key(x)) == [x];
      }
    }
  }
}
