/**
 The ordered range read that every scan of the control plane relies on. A range
 is ascending with an exclusive lower bound, and one read returns a prefix of
 it: never empty when the range is not, but possibly shorter than the limit.
 */
module KvStore {
  import opened KeyOrder

  datatype Item<+V> = Item(key: string, value: V)

  /** The items under one key prefix, in key order; keys are given without the prefix. */
  ghost predicate Sorted<V>(items: seq<Item<V>>) {
    forall i, j :: 0 <= i < j < |items| ==> Less(items[i].key, items[j].key)
  }

  /** The range (lower, end of the prefix]. */
  function After<V>(items: seq<Item<V>>, lower: string): seq<Item<V>> {
    if items == [] then []
    else if Less(lower, items[0].key) then items
    else After(items[1..], lower)
  }

  lemma {:induction false} AfterIsSuffix<V>(items: seq<Item<V>>, lower: string)
    ensures |After(items, lower)| <= |items|
    ensures After(items, lower) == items[|items| - |After(items, lower)|..]
  {
    if items != [] && !Less(lower, items[0].key) {
      AfterIsSuffix(items[1..], lower);
      assert items[1..][|items| - 1 - |After(items, lower)|..] == items[|items| - |After(items, lower)|..];
    }
  }

  /** One read. How short the page is, is not under the reader's control. */
  method ReadRange<V>(items: seq<Item<V>>, lower: string, limit: nat) returns (page: seq<Item<V>>)
    requires limit > 0
    ensures |page| <= limit && |page| <= |After(items, lower)|
    ensures page == After(items, lower)[..|page|]
    ensures page == [] <==> After(items, lower) == []
  {
    var range := After(items, lower);
    if range == [] {
      return [];
    }
    var n: nat :| 1 <= n <= |range| && n <= limit;
    return range[..n];
  }

  /** Reading on from the last key of what was already read leaves exactly the remainder. */
  lemma {:induction false} AfterLastKey<V>(items: seq<Item<V>>, read: nat)
    requires Sorted(items) && 0 < read <= |items|
    ensures After(items, items[read - 1].key) == items[read..]
  {
    LessIrreflexive(items[read - 1].key);
    if read == 1 {
      if |items| > 1 {
        assert After(items, items[0].key) == After(items[1..], items[0].key);
      }
    } else {
      LessAsymmetric(items[0].key, items[read - 1].key);
      assert items[1..][read - 2] == items[read - 1];
      AfterLastKey(items[1..], read - 1);
      assert items[1..][read - 1..] == items[read..];
    }
  }

  /** The same when the scan itself started behind some key. */
  lemma AfterWithin<V>(items: seq<Item<V>>, lower: string, read: nat)
    requires Sorted(items) && 0 < read <= |After(items, lower)|
    ensures After(items, After(items, lower)[read - 1].key) == After(items, lower)[read..]
    ensures Sorted(After(items, lower))
  {
    var rest := After(items, lower);
    AfterIsSuffix(items, lower);
    var skipped := |items| - |rest|;
    assert forall i :: 0 <= i < |rest| ==> rest[i] == items[skipped + i];
    assert rest[read - 1] == items[skipped + read - 1];
    AfterLastKey(items, skipped + read);
  }

  /** The items of a range are exactly the ones whose key sorts after the bound. */
  lemma {:induction false} AfterMembers<V>(items: seq<Item<V>>, lower: string, item: Item<V>)
    requires Sorted(items)
    ensures item in After(items, lower) <==> item in items && Less(lower, item.key)
  {
    if items != [] {
      assert items == [items[0]] + items[1..];
      if Less(lower, items[0].key) {
        if item in items && item != items[0] {
          LessTransitive(lower, items[0].key, item.key);
        }
      } else {
        AfterMembers(items[1..], lower, item);
      }
    }
  }

  /** Writing a row: the store keeps its rows in key order, one per key. */
  function Put<V>(items: seq<Item<V>>, item: Item<V>): seq<Item<V>> {
    if items == [] || Less(item.key, items[0].key) then [item] + items
    else if item.key == items[0].key then [item] + items[1..]
    else [items[0]] + Put(items[1..], item)
  }

  lemma {:induction false} PutAtEnd<V>(items: seq<Item<V>>, item: Item<V>)
    requires forall i :: 0 <= i < |items| ==> Less(items[i].key, item.key)
    ensures Put(items, item) == items + [item]
  {
    if items != [] {
      LessAsymmetric(items[0].key, item.key);
      PutAtEnd(items[1..], item);
    }
  }
}
