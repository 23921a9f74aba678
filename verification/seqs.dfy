/**
  Generic facts about sequences used by every counting rule of the timetabling engine:
  the number of repeated values in a sequence, duplicate-freedom, sorting and
  first-appearance de-duplication.
 */
module Seqs {

  datatype Option<T> = None | Some(value: T)

  /** The set of values occurring in `s`. */
  function Elems<T>(s: seq<T>): set<T>
  {
    set x | x in s
  }

  /** A non-empty sequence holds its head. */
  lemma HeadIn<T>(s: seq<T>)
    ensures |s| > 0 ==> s[0] in s
  {
  }

  /** No value occurs twice in `s`. */
  predicate NoDups<T(==)>(s: seq<T>)
  {
    forall i, j :: 0 <= i < j < |s| ==> s[i] != s[j]
  }

  /** Dropping the head keeps a list duplicate-free, and the head is not repeated later. */
  lemma NoDupsTail<T>(s: seq<T>)
    requires NoDups(s) && |s| > 0
    ensures NoDups(s[1..]) && s[0] !in s[1..]
  {
    var t := s[1..];
    forall i, j | 0 <= i < j < |t| ensures t[i] != t[j] {
      assert s[i + 1] != s[j + 1];
    }
  }

  /** Number of positions of `s` whose value already occurred at an earlier position. */
  function Repeats<T(==)>(s: seq<T>): nat
  {
    if |s| == 0 then 0
    else Repeats(s[..|s| - 1]) + (if s[|s| - 1] in s[..|s| - 1] then 1 else 0)
  }

  lemma RepeatsSnoc<T>(s: seq<T>, x: T)
    ensures Repeats(s + [x]) == Repeats(s) + (if x in s then 1 else 0)
  {
    assert (s + [x])[..|s|] == s;
  }

  lemma ElemsSnoc<T>(s: seq<T>, x: T)
    ensures Elems(s + [x]) == Elems(s) + {x}
  {
  }

  /** Counting repeats is the same as "length minus number of distinct values". */
  lemma {:induction false} RepeatsIsLengthMinusDistinct<T>(s: seq<T>)
    ensures |Elems(s)| <= |s|
    ensures Repeats(s) == |s| - |Elems(s)|
  {
    if |s| > 0 {
      var p := s[..|s| - 1];
      var x := s[|s| - 1];
      RepeatsIsLengthMinusDistinct(p);
      assert s == p + [x];
      RepeatsSnoc(p, x);
      ElemsSnoc(p, x);
      if x in p {
        assert Elems(s) == Elems(p);
      } else {
        assert x !in Elems(p);
        assert |Elems(p) + {x}| == |Elems(p)| + 1;
      }
    }
  }

  /** A sequence has no repeats exactly when it has no duplicates. */
  lemma {:induction false} RepeatsZeroIffNoDups<T>(s: seq<T>)
    ensures Repeats(s) == 0 <==> NoDups(s)
  {
    if |s| > 0 {
      var p := s[..|s| - 1];
      var x := s[|s| - 1];
      RepeatsZeroIffNoDups(p);
      if Repeats(s) == 0 {
        assert x !in p;
        forall i, j | 0 <= i < j < |s| ensures s[i] != s[j] {
          if j == |s| - 1 {
            assert s[i] == p[i];
          } else {
            assert s[i] == p[i] && s[j] == p[j];
          }
        }
      } else {
        if Repeats(p) > 0 {
          var i, j :| 0 <= i < j < |p| && p[i] == p[j];
          assert s[i] == s[j];
        } else {
          assert x in p;
          var i :| 0 <= i < |p| && p[i] == x;
          assert s[i] == s[|s| - 1];
        }
      }
    }
  }

  lemma NoDupsCardinality<T>(s: seq<T>)
    requires NoDups(s)
    ensures |Elems(s)| == |s|
  {
    RepeatsZeroIffNoDups(s);
    RepeatsIsLengthMinusDistinct(s);
  }

  /** Removing one element never increases the number of repeats. */
  lemma RepeatsRemoveOne<T>(a: seq<T>, x: T, b: seq<T>)
    ensures Repeats(a + b) <= Repeats(a + [x] + b)
  {
    RepeatsIsLengthMinusDistinct(a + b);
    RepeatsIsLengthMinusDistinct(a + [x] + b);
    assert Elems(a + [x] + b) == Elems(a + b) + {x};
    assert |Elems(a + b) + {x}| <= |Elems(a + b)| + 1;
  }

  /** Repeats only depend on which values are equal, so an injective renaming preserves them. */
  lemma {:induction false} RepeatsInjectiveMap<T, U>(s: seq<T>, t: seq<U>, f: T -> U)
    requires |t| == |s|
    requires forall i :: 0 <= i < |s| ==> t[i] == f(s[i])
    requires forall x, y :: x in s && y in s && f(x) == f(y) ==> x == y
    ensures Repeats(t) == Repeats(s)
  {
    if |s| > 0 {
      var n := |s| - 1;
      RepeatsInjectiveMap(s[..n], t[..n], f);
      if s[n] in s[..n] {
        var i :| 0 <= i < n && s[i] == s[n];
        assert t[..n][i] == t[n];
      }
      if t[n] in t[..n] {
        var i :| 0 <= i < n && t[..n][i] == t[n];
        assert f(s[i]) == f(s[n]);
      }
    }
  }

  /**
    Walking `xs` from the front with a growing set of values already seen (initially `seen`),
    the number of steps whose value was already seen.
   */
  function SeenCount<T(==)>(xs: seq<T>, seen: set<T>): nat
  {
    if |xs| == 0 then 0
    else (if xs[0] in seen then 1 else 0) + SeenCount(xs[1..], seen + {xs[0]})
  }

  /** Scanning with a seen-set counts the repeats the scanned values add after a prefix `p0`. */
  lemma {:induction false} SeenCountRepeats<T>(p0: seq<T>, xs: seq<T>)
    ensures SeenCount(xs, Elems(p0)) + Repeats(p0) == Repeats(p0 + xs)
    decreases |xs|
  {
    if |xs| == 0 {
      assert p0 + xs == p0;
    } else {
      var x := xs[0];
      ElemsSnoc(p0, x);
      RepeatsSnoc(p0, x);
      SeenCountRepeats(p0 + [x], xs[1..]);
      assert p0 + xs == (p0 + [x]) + xs[1..];
    }
  }

  /** Number of positions of `s` holding `x`. */
  function Count<T(==)>(s: seq<T>, x: T): nat
  {
    if |s| == 0 then 0
    else Count(s[..|s| - 1], x) + (if s[|s| - 1] == x then 1 else 0)
  }

  lemma {:induction false} CountConcat<T>(a: seq<T>, b: seq<T>, x: T)
    ensures Count(a + b, x) == Count(a, x) + Count(b, x)
  {
    if |b| > 0 {
      var n := |b| - 1;
      assert (a + b)[..|a + b| - 1] == a + b[..n];
      CountConcat(a, b[..n], x);
    } else {
      assert a + b == a;
    }
  }

  /** The values of `s` in first-appearance order, each once (the order of a JavaScript `Set`). */
  function Distinct<T(==)>(s: seq<T>): (r: seq<T>)
    ensures NoDups(r)
    ensures Elems(r) == Elems(s)
  {
    if |s| == 0 then []
    else
      var p := Distinct(s[..|s| - 1]);
      var x := s[|s| - 1];
      assert s == s[..|s| - 1] + [x];
      ElemsSnoc(s[..|s| - 1], x);
      ElemsSnoc(p, x);
      if x in p then p else p + [x]
  }

  /** De-duplication never lengthens a sequence. */
  lemma {:induction false} DistinctLength<T>(s: seq<T>)
    ensures |Distinct(s)| <= |s|
  {
    if |s| > 0 {
      DistinctLength(s[..|s| - 1]);
    }
  }

  // ---------------------------------------------------------------- sorting

  predicate Sorted(s: seq<int>)
  {
    forall i, j :: 0 <= i < j < |s| ==> s[i] <= s[j]
  }

  function InsertSorted(x: int, s: seq<int>): (r: seq<int>)
    requires Sorted(s)
    ensures Sorted(r)
    ensures multiset(r) == multiset(s) + multiset{x}
  {
    if |s| == 0 then [x]
    else if x <= s[0] then [x] + s
    else
      var rest := InsertSorted(x, s[1..]);
      assert s == [s[0]] + s[1..];
      InsertedAbove(x, s, rest);
      ConsSorted(s[0], rest);
      [s[0]] + rest
  }

  /** Inserting a value above the head into the tail leaves every element above the head. */
  lemma InsertedAbove(x: int, s: seq<int>, rest: seq<int>)
    requires Sorted(s) && |s| > 0 && s[0] < x
    requires multiset(rest) == multiset(s[1..]) + multiset{x}
    ensures forall i :: 0 <= i < |rest| ==> s[0] <= rest[i]
  {
    forall i | 0 <= i < |rest| ensures s[0] <= rest[i] {
      assert rest[i] in multiset(rest);
      if rest[i] != x {
        assert rest[i] in multiset(s[1..]);
        var j :| 0 <= j < |s[1..]| && s[1..][j] == rest[i];
        assert s[0] <= s[j + 1];
      }
    }
  }

  lemma ConsSorted(h: int, rest: seq<int>)
    requires Sorted(rest) && forall i :: 0 <= i < |rest| ==> h <= rest[i]
    ensures Sorted([h] + rest)
  {
    var r := [h] + rest;
    forall i, j | 0 <= i < j < |r| ensures r[i] <= r[j] {
      assert r[j] == rest[j - 1];
      if i > 0 {
        assert r[i] == rest[i - 1];
      }
    }
  }

  /** Ascending numeric sort (JavaScript's `sort((a, b) => a - b)` on integers). */
  function Sort(s: seq<int>): (r: seq<int>)
    ensures Sorted(r)
    ensures multiset(r) == multiset(s)
  {
    if |s| == 0 then []
    else
      assert s == [s[0]] + s[1..];
      InsertSorted(s[0], Sort(s[1..]))
  }

  /** The keys of a sequence of (key, value) pairs, in order. */
  function Firsts<K, V>(s: seq<(K, V)>): (r: seq<K>)
    ensures |r| == |s|
  {
    seq(|s|, i requires 0 <= i < |s| => s[i].0)
  }

  /** In a list without repeated keys, a key picks out a single pair. */
  lemma KeyedUnique<K, V>(s: seq<(K, V)>, x: (K, V), y: (K, V))
    requires NoDups(Firsts(s)) && x in s && y in s && x.0 == y.0
    ensures x == y
  {
    var i :| 0 <= i < |s| && s[i] == x;
    var j :| 0 <= j < |s| && s[j] == y;
    assert Firsts(s)[i] == Firsts(s)[j];
  }

  lemma FirstsCons<K, V>(x: (K, V), s: seq<(K, V)>)
    ensures Firsts([x] + s) == [x.0] + Firsts(s)
  {
  }

  lemma FirstsAppend<K, V>(a: seq<(K, V)>, b: seq<(K, V)>)
    ensures Firsts(a + b) == Firsts(a) + Firsts(b)
  {
  }

  /** A sequence is duplicate-free exactly when no value occurs in it more than once. */
  lemma {:induction false} NoDupsMultiset<T>(s: seq<T>)
    ensures NoDups(s) <==> forall v :: multiset(s)[v] <= 1
  {
    if |s| > 0 {
      var n := |s| - 1;
      var p, x := s[..n], s[n];
      assert s == p + [x];
      NoDupsMultiset(p);
      if NoDups(s) {
        assert x !in p;
        assert NoDups(p) by {
          forall i, j | 0 <= i < j < n ensures p[i] != p[j] {
            assert s[i] == p[i] && s[j] == p[j];
          }
        }
      } else {
        var i, j :| 0 <= i < j < |s| && s[i] == s[j];
        if j < n {
          assert p[i] == p[j];
          assert !NoDups(p);
          var v :| multiset(p)[v] > 1;
          assert multiset(s)[v] >= multiset(p)[v];
        } else {
          assert s[i] in p;
          assert multiset(s)[x] == multiset(p)[x] + 1;
        }
      }
    }
  }

  /** The keys of a sequence of (key, value) pairs are in ascending order. */
  predicate KeysSorted<V>(s: seq<(int, V)>)
  {
    forall i, j :: 0 <= i < j < |s| ==> s[i].0 <= s[j].0
  }

  /** Prepending a key no larger than the head keeps a sorted list sorted. */
  lemma ConsKeysSorted<V>(x: (int, V), s: seq<(int, V)>)
    requires KeysSorted(s) && (|s| == 0 || x.0 <= s[0].0)
    ensures KeysSorted([x] + s)
  {
    var r := [x] + s;
    forall i, j | 0 <= i < j < |r| ensures r[i].0 <= r[j].0 {
      if i > 0 {
        assert r[i] == s[i - 1] && r[j] == s[j - 1];
      } else if j > 1 {
        assert s[0].0 <= s[j - 1].0;
      }
    }
  }

  /** A lower bound on every key carries over to any rearrangement with one more element. */
  lemma KeysAbove<V>(rest: seq<(int, V)>, s: seq<(int, V)>, x: (int, V), b: int)
    requires multiset(rest) == multiset(s) + multiset{x}
    requires x.0 >= b && forall i :: 0 <= i < |s| ==> s[i].0 >= b
    ensures forall i :: 0 <= i < |rest| ==> rest[i].0 >= b
  {
    forall i | 0 <= i < |rest| ensures rest[i].0 >= b {
      assert rest[i] in multiset(rest);
      if rest[i] != x {
        assert rest[i] in multiset(s);
        var k :| 0 <= k < |s| && s[k] == rest[i];
      }
    }
  }

  /** Inserts `x` before the first element whose key is not smaller, so that equal keys keep their order. */
  function InsertByKey<V(==)>(x: (int, V), s: seq<(int, V)>): (r: seq<(int, V)>)
    requires KeysSorted(s)
    ensures KeysSorted(r)
    ensures multiset(r) == multiset(s) + multiset{x}
  {
    if |s| == 0 then [x]
    else if x.0 <= s[0].0 then
      ConsKeysSorted(x, s);
      [x] + s
    else
      assert KeysSorted(s[1..]);
      var rest := InsertByKey(x, s[1..]);
      assert s == [s[0]] + s[1..];
      KeysAbove(rest, s[1..], x, s[0].0);
      ConsKeysSorted(s[0], rest);
      [s[0]] + rest
  }

  lemma {:induction false} InsertByKeyFirsts<V>(x: (int, V), s: seq<(int, V)>)
    requires KeysSorted(s)
    ensures multiset(Firsts(InsertByKey(x, s))) == multiset(Firsts(s)) + multiset{x.0}
  {
    if |s| == 0 {
    } else if x.0 <= s[0].0 {
      FirstsCons(x, s);
    } else {
      assert KeysSorted(s[1..]);
      InsertByKeyFirsts(x, s[1..]);
      assert s == [s[0]] + s[1..];
      FirstsCons(s[0], s[1..]);
      FirstsCons(s[0], InsertByKey(x, s[1..]));
    }
  }

  /** Stable ascending sort of (key, value) pairs by key. */
  function SortByKey<V(==)>(s: seq<(int, V)>): (r: seq<(int, V)>)
    ensures KeysSorted(r)
    ensures multiset(r) == multiset(s)
  {
    if |s| == 0 then []
    else
      assert s == [s[0]] + s[1..];
      InsertByKey(s[0], SortByKey(s[1..]))
  }

  /** Sorting by key permutes the keys too. */
  lemma {:induction false} SortByKeyFirsts<V>(s: seq<(int, V)>)
    ensures multiset(Firsts(SortByKey(s))) == multiset(Firsts(s))
  {
    if |s| > 0 {
      var t := SortByKey(s[1..]);
      assert SortByKey(s) == InsertByKey(s[0], t);
      SortByKeyFirsts(s[1..]);
      InsertByKeyFirsts(s[0], t);
      FirstsCons(s[0], s[1..]);
      assert [s[0]] + s[1..] == s;
      assert multiset(Firsts(s)) == multiset{s[0].0} + multiset(Firsts(s[1..]));
    }
  }

  /** Keys ascending and, among equal keys, values ascending. */
  predicate LexSorted(s: seq<(int, nat)>)
  {
    forall i, j :: 0 <= i < j < |s| ==> s[i].0 < s[j].0 || (s[i].0 == s[j].0 && s[i].1 < s[j].1)
  }

  /** The values of the pairs strictly increase along the list. */
  predicate ValuesAscending(s: seq<(int, nat)>)
  {
    forall i, j :: 0 <= i < j < |s| ==> s[i].1 < s[j].1
  }

  /** Putting in front a pair that precedes every pair of a lexicographically sorted list. */
  lemma LexCons(x: (int, nat), s: seq<(int, nat)>)
    requires LexSorted(s) && forall i :: 0 <= i < |s| ==> x.0 < s[i].0 || (x.0 == s[i].0 && x.1 < s[i].1)
    ensures LexSorted([x] + s)
  {
    var r := [x] + s;
    forall i, j | 0 <= i < j < |r| ensures r[i].0 < r[j].0 || (r[i].0 == r[j].0 && r[i].1 < r[j].1) {
      assert r[j] == s[j - 1];
      if i > 0 {
        assert r[i] == s[i - 1];
      }
    }
  }

  lemma {:induction false} InsertByKeyLex(x: (int, nat), s: seq<(int, nat)>)
    requires KeysSorted(s) && LexSorted(s) && forall i :: 0 <= i < |s| ==> x.1 < s[i].1
    ensures LexSorted(InsertByKey(x, s))
  {
    if |s| == 0 {
    } else if x.0 <= s[0].0 {
      assert forall i :: 0 <= i < |s| ==> s[0].0 <= s[i].0;
      LexCons(x, s);
    } else {
      var t := s[1..];
      assert KeysSorted(t) && LexSorted(t);
      InsertByKeyLex(x, t);
      var rest := InsertByKey(x, t);
      forall i | 0 <= i < |rest| ensures s[0].0 < rest[i].0 || (s[0].0 == rest[i].0 && s[0].1 < rest[i].1) {
        assert rest[i] in multiset(rest);
        if rest[i] != x {
          assert rest[i] in multiset(t);
          var k :| 0 <= k < |t| && t[k] == rest[i];
          assert s[k + 1] == rest[i];
        }
      }
      LexCons(s[0], rest);
    }
  }

  /** When the values ascend, the sort orders equal keys by value: it is stable. */
  lemma {:induction false} SortByKeyLex(s: seq<(int, nat)>)
    requires ValuesAscending(s)
    ensures LexSorted(SortByKey(s))
  {
    if |s| > 0 {
      var t := SortByKey(s[1..]);
      assert ValuesAscending(s[1..]);
      SortByKeyLex(s[1..]);
      forall i | 0 <= i < |t| ensures s[0].1 < t[i].1 {
        assert t[i] in multiset(t);
        var k :| 0 <= k < |s[1..]| && s[1..][k] == t[i];
        assert s[k + 1] == t[i];
      }
      InsertByKeyLex(s[0], t);
    }
  }

  /** A sequence already sorted by key is left as it is: the sort is stable. */
  lemma {:induction false} SortByKeySorted<V>(s: seq<(int, V)>)
    requires KeysSorted(s)
    ensures SortByKey(s) == s
  {
    if |s| > 0 {
      assert KeysSorted(s[1..]);
      SortByKeySorted(s[1..]);
      assert [s[0]] + s[1..] == s;
    }
  }

  // ---------------------------------------------------------------- sums

  function Sum(s: seq<nat>): nat
  {
    if |s| == 0 then 0 else s[0] + Sum(s[1..])
  }

  /** The integers lo, lo+1, ..., hi-1. */
  function Range(lo: int, hi: int): (r: seq<int>)
    ensures |r| == if lo <= hi then hi - lo else 0
    ensures forall i :: 0 <= i < |r| ==> r[i] == lo + i
    decreases hi - lo
  {
    if lo >= hi then [] else [lo] + Range(lo + 1, hi)
  }
}
