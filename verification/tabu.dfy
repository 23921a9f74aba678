/**
  The tabu list of the web client's repair loop (web/app.js): a plain array that receives the key
  of every accepted move and, once it holds more than `tamanoTabu` keys, drops the oldest one.
 */
module Tabu {
  import opened Seqs

  /** `tamanoTabu`. */
  const Capacity: nat := 30

  /** `listaTabu.push(key); if (listaTabu.length > tamanoTabu) listaTabu.shift();` */
  function Push<T>(l: seq<T>, key: T): (r: seq<T>)
    ensures |l| <= Capacity ==> |r| <= Capacity
    ensures |r| > 0 && r[|r| - 1] == key
    ensures |l| < Capacity ==> r == l + [key]
    ensures |l| == Capacity ==> r == l[1..] + [key]
    ensures forall x :: x in r ==> x == key || x in l
  {
    var s := l + [key];
    if |s| > Capacity then s[1..] else s
  }

  /** A key that was not in the list leaves it free of duplicates. */
  lemma PushNoDups<T>(l: seq<T>, key: T)
    requires NoDups(l) && key !in l
    ensures NoDups(Push(l, key))
  {
    var s := l + [key];
    assert forall i, j :: 0 <= i < j < |s| ==> s[i] != s[j] by {
      forall i, j | 0 <= i < j < |s| ensures s[i] != s[j] {
        if j == |l| {
          assert s[i] == l[i];
        }
      }
    }
  }

  /** The list after pushing `keys` in order onto `l`. */
  function PushAll<T>(l: seq<T>, keys: seq<T>): seq<T>
  {
    if |keys| == 0 then l else Push(PushAll(l, keys[..|keys| - 1]), keys[|keys| - 1])
  }

  /** Starting empty, the list is always the last (at most 30) keys pushed, oldest first. */
  lemma {:induction false} PushAllWindow<T>(keys: seq<T>)
    ensures PushAll([], keys) == keys[|keys| - Min(|keys|, Capacity)..]
  {
    if |keys| > 0 {
      var n := |keys| - 1;
      PushAllWindow(keys[..n]);
      var w := keys[..n][n - Min(n, Capacity)..];
      assert w == keys[n - Min(n, Capacity)..n];
      if n < Capacity {
        assert w + [keys[n]] == keys[n + 1 - Min(n + 1, Capacity)..];
      } else {
        assert w[1..] + [keys[n]] == keys[n + 1 - Min(n + 1, Capacity)..];
      }
    }
  }

  function Min(a: nat, b: nat): nat
  {
    if a <= b then a else b
  }
}
