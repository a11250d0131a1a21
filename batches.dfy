/** The dispatcher's grouping of emitted keys into the slices it sends on
    the dispatch channel: a slice goes out as soon as it holds n_keys keys,
    and whatever has accumulated, possibly nothing, goes out when the walk
    is over. */
module Batching {
  import opened Bytes

  /** The slices sent for the keys E, in order. A count of n <= 0 is never
      reached by the counter, which starts at 1 after the first append, so
      then everything goes out in the final slice. */
  function Batches<T>(keys: seq<T>, n: int): (out: seq<seq<T>>)
    ensures |out| >= 1
    decreases |keys|
  {
    if n <= 0 || |keys| < n then [keys] else [keys[..n]] + Batches(keys[n..], n)
  }

  /** The concatenation of a sequence of slices. */
  function Flatten<T>(parts: seq<seq<T>>): (all: seq<T>)
  {
    if |parts| == 0 then [] else parts[0] + Flatten(parts[1..])
  }

  /** The slices hand every key to the workers exactly once, in order. */
  lemma {:induction false} FlattenBatches<T>(keys: seq<T>, n: int)
    ensures Flatten(Batches(keys, n)) == keys
    decreases |keys|
  {
    if n <= 0 || |keys| < n {
      assert Batches(keys, n)[1..] == [];
    } else {
      var out := Batches(keys, n);
      assert out[0] == keys[..n] && out[1..] == Batches(keys[n..], n);
      FlattenBatches(keys[n..], n);
      assert keys == keys[..n] + keys[n..];
    }
  }

  /** Every slice but the last is full; the last holds fewer than n keys. */
  lemma {:induction false} BatchesShape<T>(keys: seq<T>, n: int)
    requires n > 0
    ensures forall k :: 0 <= k < |Batches(keys, n)| - 1 ==> |Batches(keys, n)[k]| == n
    ensures |Batches(keys, n)[|Batches(keys, n)| - 1]| < n
    ensures |Batches(keys, n)| == |keys| / n + 1
    decreases |keys|
  {
    if |keys| >= n {
      var rest := Batches(keys[n..], n);
      BatchesShape(keys[n..], n);
      assert Batches(keys, n) == [keys[..n]] + rest;
      assert |keys[n..]| / n + 1 == |keys| / n by {
        DivSucc(|keys[n..]|, n);
      }
    }
  }

  lemma DivSucc(a: nat, n: int)
    requires n > 0
    ensures (a + n) / n == a / n + 1
  {
    var q, r := a / n, a % n;
    assert a + n == (q + 1) * n + r;
    ModUnique(a + n, n, q + 1, r);
  }

  /** Appending one key to the keys already grouped: it joins the open last
      slice, and when that slice becomes full it is sent and a new empty one
      is opened. This is the step the dispatcher takes per key. */
  lemma {:induction false} BatchesSnoc<T>(keys: seq<T>, x: T, n: int, sent: seq<seq<T>>, open: seq<T>)
    requires Batches(keys, n) == sent + [open]
    ensures n > 0 && |open| + 1 == n ==> Batches(keys + [x], n) == sent + [open + [x]] + [[]]
    ensures !(n > 0 && |open| + 1 == n) ==> Batches(keys + [x], n) == sent + [open + [x]]
    decreases |keys|
  {
    var keys' := keys + [x];
    if n <= 0 || |keys| < n {
      assert |sent + [open]| == 1;
      assert sent == [] && open == (sent + [open])[0];
      if n > 0 && |keys'| == n {
        assert keys'[..n] == keys' && keys'[n..] == [];
      }
    } else {
      var rest := Batches(keys[n..], n);
      assert sent + [open] == [keys[..n]] + rest;
      assert |sent| >= 1;
      assert sent[0] == (sent + [open])[0] == keys[..n];
      assert rest == (sent + [open])[1..] == sent[1..] + [open];
      BatchesSnoc(keys[n..], x, n, sent[1..], open);
      assert keys'[..n] == keys[..n] && keys'[n..] == keys[n..] + [x];
      assert sent == [sent[0]] + sent[1..];
    }
  }
}
