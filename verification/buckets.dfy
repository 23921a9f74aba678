/**
  Insertion-ordered grouping, the pattern every conflict counter and graph builder of the
  engine uses: walk the items in order, append each one to the bucket of its key, creating the
  bucket on first sight (a JavaScript object / Map or a Python dict of lists). Buckets appear in
  first-appearance order of their keys and each bucket keeps the items' original order.
 */
module Buckets {
  import opened Seqs

  datatype Bucket<K, V> = Bucket(key: K, items: seq<V>)

  /** Appends `v` to the first bucket with key `k`, or opens a new bucket `[v]` at the end. */
  function Insert<K(==), V>(b: seq<Bucket<K, V>>, k: K, v: V): seq<Bucket<K, V>>
  {
    if |b| == 0 then [Bucket(k, [v])]
    else if b[0].key == k then [Bucket(k, b[0].items + [v])] + b[1..]
    else [b[0]] + Insert(b[1..], k, v)
  }

  /** Groups `vals` by the key at the same position of `keys`. */
  function GroupBy<K(==), V>(keys: seq<K>, vals: seq<V>): seq<Bucket<K, V>>
    requires |keys| == |vals|
  {
    if |keys| == 0 then []
    else
      var n := |keys| - 1;
      Insert(GroupBy(keys[..n], vals[..n]), keys[n], vals[n])
  }

  /** The items of the first bucket with key `k` (empty when there is none). */
  function ItemsAt<K(==), V>(b: seq<Bucket<K, V>>, k: K): seq<V>
  {
    if |b| == 0 then []
    else if b[0].key == k then b[0].items
    else ItemsAt(b[1..], k)
  }

  /** The values whose key is `k`, in their original order. */
  function Select<K(==), V>(keys: seq<K>, vals: seq<V>, k: K): seq<V>
    requires |keys| == |vals|
  {
    if |keys| == 0 then []
    else
      var n := |keys| - 1;
      Select(keys[..n], vals[..n], k) + (if keys[n] == k then [vals[n]] else [])
  }

  function KeysOf<K, V>(b: seq<Bucket<K, V>>): seq<K>
  {
    seq(|b|, i requires 0 <= i < |b| => b[i].key)
  }

  /** Distinct keys make every bucket the first one of its key. */
  lemma {:induction false} ItemsAtOwnKey<K, V>(b: seq<Bucket<K, V>>, i: nat)
    requires i < |b| && NoDups(KeysOf(b))
    ensures ItemsAt(b, b[i].key) == b[i].items
  {
    if i > 0 {
      assert KeysOf(b)[0] != KeysOf(b)[i];
      assert KeysOf(b[1..]) == KeysOf(b)[1..];
      NoDupsTail(KeysOf(b));
      ItemsAtOwnKey(b[1..], i - 1);
    }
  }

  lemma {:induction false} ItemsAtInsert<K, V>(b: seq<Bucket<K, V>>, k: K, v: V, k': K)
    ensures ItemsAt(Insert(b, k, v), k') == ItemsAt(b, k') + (if k == k' then [v] else [])
  {
    if |b| > 0 && b[0].key != k {
      ItemsAtInsert(b[1..], k, v, k');
      assert Insert(b, k, v)[1..] == Insert(b[1..], k, v);
    }
  }

  lemma {:induction false} KeysOfInsert<K, V>(b: seq<Bucket<K, V>>, k: K, v: V)
    ensures KeysOf(Insert(b, k, v)) == if k in KeysOf(b) then KeysOf(b) else KeysOf(b) + [k]
  {
    if |b| > 0 {
      if b[0].key != k {
        KeysOfInsert(b[1..], k, v);
        assert KeysOf(b) == [b[0].key] + KeysOf(b[1..]);
        assert KeysOf(Insert(b, k, v)) == [b[0].key] + KeysOf(Insert(b[1..], k, v));
      } else {
        assert KeysOf(b)[0] == k;
      }
    }
  }

  /**
    Each bucket of `GroupBy` holds exactly the values of its key, in original order, and the
    buckets' keys are the distinct keys in first-appearance order.
   */
  lemma GroupByItems<K, V>(keys: seq<K>, vals: seq<V>, k: K)
    requires |keys| == |vals|
    ensures ItemsAt(GroupBy(keys, vals), k) == Select(keys, vals, k)
    ensures KeysOf(GroupBy(keys, vals)) == Distinct(keys)
  {
    GroupBySelect(keys, vals, k);
    GroupByKeys(keys, vals);
  }

  lemma {:induction false} GroupBySelect<K, V>(keys: seq<K>, vals: seq<V>, k: K)
    requires |keys| == |vals|
    ensures ItemsAt(GroupBy(keys, vals), k) == Select(keys, vals, k)
  {
    if |keys| > 0 {
      var n := |keys| - 1;
      GroupBySelect(keys[..n], vals[..n], k);
      ItemsAtInsert(GroupBy(keys[..n], vals[..n]), keys[n], vals[n], k);
    }
  }

  lemma {:induction false} GroupByKeys<K, V>(keys: seq<K>, vals: seq<V>)
    requires |keys| == |vals|
    ensures KeysOf(GroupBy(keys, vals)) == Distinct(keys)
  {
    if |keys| > 0 {
      var n := |keys| - 1;
      GroupByKeys(keys[..n], vals[..n]);
      KeysOfInsert(GroupBy(keys[..n], vals[..n]), keys[n], vals[n]);
    }
  }

  /** Every grouped item is one of the input values. */
  lemma {:induction false} GroupByItemsFromVals<K, V>(keys: seq<K>, vals: seq<V>)
    requires |keys| == |vals|
    ensures forall i, v :: 0 <= i < |GroupBy(keys, vals)| && v in GroupBy(keys, vals)[i].items ==> v in vals
  {
    if |keys| > 0 {
      var n := |keys| - 1;
      var b := GroupBy(keys[..n], vals[..n]);
      GroupByItemsFromVals(keys[..n], vals[..n]);
      InsertItemsFrom(b, keys[n], vals[n]);
      forall i, v | 0 <= i < |GroupBy(keys, vals)| && v in GroupBy(keys, vals)[i].items
        ensures v in vals
      {
        if v != vals[n] {
          var j :| 0 <= j < |b| && v in b[j].items;
          assert v in vals[..n];
        }
      }
    }
  }

  lemma {:induction false} InsertItemsFrom<K, V>(b: seq<Bucket<K, V>>, k: K, v: V)
    ensures forall i, w :: 0 <= i < |Insert(b, k, v)| && w in Insert(b, k, v)[i].items ==>
      w == v || exists j :: 0 <= j < |b| && w in b[j].items
  {
    if |b| > 0 && b[0].key != k {
      InsertItemsFrom(b[1..], k, v);
      forall i, w | 0 <= i < |Insert(b, k, v)| && w in Insert(b, k, v)[i].items
        ensures w == v || exists j :: 0 <= j < |b| && w in b[j].items
      {
        if i > 0 {
          assert Insert(b, k, v)[i] == Insert(b[1..], k, v)[i - 1];
          if w != v {
            var j :| 0 <= j < |b[1..]| && w in b[1..][j].items;
            assert w in b[j + 1].items;
          }
        }
      }
    }
  }

  /** Sum of `Pairs(|items|)` over all buckets: the number of unordered item pairs sharing a bucket. */
  function Pairs(n: nat): nat
  {
    n * (n - 1) / 2
  }

  function PairTotal<K, V>(b: seq<Bucket<K, V>>): nat
  {
    if |b| == 0 then 0 else Pairs(|b[0].items|) + PairTotal(b[1..])
  }

  lemma PairsStep(n: nat)
    ensures Pairs(n + 1) == Pairs(n) + n
  {
    assert (n + 1) * n == n * (n - 1) + 2 * n;
  }

  lemma {:induction false} PairTotalInsert<K, V>(b: seq<Bucket<K, V>>, k: K, v: V)
    ensures PairTotal(Insert(b, k, v)) == PairTotal(b) + |ItemsAt(b, k)|
  {
    if |b| == 0 {
    } else if b[0].key == k {
      PairsStep(|b[0].items|);
      assert Insert(b, k, v)[1..] == b[1..];
    } else {
      PairTotalInsert(b[1..], k, v);
      assert Insert(b, k, v)[1..] == Insert(b[1..], k, v);
    }
  }

  /** Number of index pairs i < j whose keys are equal. */
  function SameKeyPairs<K(==)>(keys: seq<K>): nat
  {
    if |keys| == 0 then 0
    else
      var n := |keys| - 1;
      SameKeyPairs(keys[..n]) + Count(keys[..n], keys[n])
  }

  lemma {:induction false} SelectLength<K, V>(keys: seq<K>, vals: seq<V>, k: K)
    requires |keys| == |vals|
    ensures |Select(keys, vals, k)| == Count(keys, k)
  {
    if |keys| > 0 {
      SelectLength(keys[..|keys| - 1], vals[..|keys| - 1], k);
    }
  }

  /** Summing k(k-1)/2 over the buckets counts exactly the pairs of same-key positions. */
  lemma {:induction false} PairTotalIsSameKeyPairs<K, V>(keys: seq<K>, vals: seq<V>)
    requires |keys| == |vals|
    ensures PairTotal(GroupBy(keys, vals)) == SameKeyPairs(keys)
  {
    if |keys| > 0 {
      var n := |keys| - 1;
      PairTotalIsSameKeyPairs(keys[..n], vals[..n]);
      PairTotalInsert(GroupBy(keys[..n], vals[..n]), keys[n], vals[n]);
      GroupByItems(keys[..n], vals[..n], keys[n]);
      SelectLength(keys[..n], vals[..n], keys[n]);
    }
  }
}
