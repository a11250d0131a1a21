/** The order in which the dispatcher emits raw keys: when every free
    minimum lies at or below its maximum, each raw key comes strictly after
    the one before it byte by byte, so no key is emitted twice. */
module KeyOrder {
  import opened Bytes
  import opened KeyValue
  import opened Odometer

  /** Every key has a larger number than all the keys before it. */
  predicate ValueAscending(keys: seq<seq<Byte>>)
  {
    forall i, j :: 0 <= i < j < |keys| ==> Value(keys[i]) < Value(keys[j])
  }

  /** Every key comes after all the keys before it byte by byte. */
  ghost predicate StrictlyAscending(keys: seq<seq<Byte>>)
  {
    forall i, j :: 0 <= i < j < |keys| ==> LexLess(keys[i], keys[j])
  }

  /** Two ascending runs separated by a bound make one ascending run. */
  lemma AscendingConcat(a: seq<seq<Byte>>, b: seq<seq<Byte>>, m: int)
    requires ValueAscending(a) && ValueAscending(b)
    requires forall i :: 0 <= i < |a| ==> Value(a[i]) < m
    requires forall j :: 0 <= j < |b| ==> m <= Value(b[j])
    ensures ValueAscending(a + b)
  {
    forall i, j | 0 <= i < j < |a + b| ensures Value((a + b)[i]) < Value((a + b)[j]) {
      if j < |a| {
        assert (a + b)[i] == a[i] && (a + b)[j] == a[j];
      } else if i < |a| {
        assert (a + b)[i] == a[i] && (a + b)[j] == b[j - |a|];
      } else {
        assert (a + b)[i] == b[i - |a|] && (a + b)[j] == b[j - |a|];
      }
    }
  }

  /** Two runs whose keys all lie at or above a bound make one such run. */
  lemma ConcatAbove(a: seq<seq<Byte>>, b: seq<seq<Byte>>, m: int)
    requires forall i :: 0 <= i < |a| ==> m <= Value(a[i])
    requires forall j :: 0 <= j < |b| ==> m <= Value(b[j])
    ensures forall k :: 0 <= k < |a + b| ==> m <= Value((a + b)[k])
  {
    forall k | 0 <= k < |a + b| ensures m <= Value((a + b)[k]) {
      if k >= |a| {
        assert (a + b)[k] == b[k - |a|];
      }
    }
  }

  /** cur_key with position R at its minimum: the first key of a sweep. */
  function Base(ks: Keyspace, c: seq<Byte>): (b: seq<Byte>)
    requires WellFormed(ks) && |c| == Size(ks)
    ensures |b| == |c|
  {
    c[Rightmost(ks) := ks.lo[Rightmost(ks)]]
  }

  /** Key k of a sweep that runs: cur_key with min[R] + k at position R. */
  lemma SweepKey(ks: Keyspace, c: seq<Byte>, k: nat)
    requires WellFormed(ks) && |c| == Size(ks) && k < |SweepKeys(ks, c)|
    ensures c[Rightmost(ks)] < ks.hi[Rightmost(ks)]
    ensures ks.lo[Rightmost(ks)] + k <= Top(ks, Rightmost(ks))
    ensures SweepKeys(ks, c)[k] == c[Rightmost(ks) := ks.lo[Rightmost(ks)] + k]
    ensures SweepEnd(ks, c) == c[Rightmost(ks) := Top(ks, Rightmost(ks))]
  {
  }

  /** A sweep emits ascending keys. */
  lemma SweepAscending(ks: Keyspace, c: seq<Byte>)
    requires WellFormed(ks) && |c| == Size(ks)
    ensures ValueAscending(SweepKeys(ks, c))
  {
    var r := Rightmost(ks);
    var keys := SweepKeys(ks, c);
    forall i, j | 0 <= i < j < |keys| ensures Value(keys[i]) < Value(keys[j]) {
      SweepKey(ks, c, i);
      SweepKey(ks, c, j);
      var vi: Byte, vj: Byte := ks.lo[r] + i, ks.lo[r] + j;
      assert keys[i] == c[r := vi] && keys[j] == c[r := vj];
      ValueUpdate(c, r, vi, vj);
    }
  }

  /** Every key of a sweep lies between its first key and the key the sweep
      leaves behind. */
  lemma SweepBounds(ks: Keyspace, c: seq<Byte>)
    requires WellFormed(ks) && |c| == Size(ks)
    ensures forall k :: 0 <= k < |SweepKeys(ks, c)| ==>
      Value(Base(ks, c)) <= Value(SweepKeys(ks, c)[k]) <= Value(SweepEnd(ks, c))
  {
    var r := Rightmost(ks);
    var keys := SweepKeys(ks, c);
    forall k | 0 <= k < |keys|
      ensures Value(Base(ks, c)) <= Value(keys[k]) <= Value(SweepEnd(ks, c))
    {
      SweepKey(ks, c, k);
      var v: Byte := ks.lo[r] + k;
      var key, base, end := c[r := v], c[r := ks.lo[r]], c[r := Top(ks, r)];
      assert keys[k] == key && Base(ks, c) == base && SweepEnd(ks, c) == end;
      ValueUpdate(c, r, ks.lo[r], v);
      ValueUpdate(c, r, v, Top(ks, r));
      assert Value(base) <= Value(key) <= Value(end);
    }
  }

  /** Every key of a run from c on lies at or above c's first sweep key. */
  lemma {:induction false} RunAbove(ks: Keyspace, c: seq<Byte>)
    requires WellFormed(ks) && FreeOrdered(ks) && InBounds(ks, c)
    ensures forall k :: 0 <= k < |Run(ks, c)| ==> Value(Base(ks, c)) <= Value(Run(ks, c)[k])
    decreases Pow256(Size(ks)) - Value(c)
  {
    var next := Round(ks, c);
    var sweep := SweepKeys(ks, c);
    SweepBounds(ks, c);
    RunStep(ks, c);
    if !Finished(ks, next) {
      RoundProgress(ks, c);
      RunAbove(ks, next);
      RoundAbove(ks, c);
      ConcatAbove(sweep, Run(ks, next), Value(Base(ks, c)));
    }
  }

  /** When a round carries, the next round starts at a key above everything
      the current round emitted, and above the current key's base. */
  lemma RoundAbove(ks: Keyspace, c: seq<Byte>)
    requires WellFormed(ks) && FreeOrdered(ks) && InBounds(ks, c)
    requires !Finished(ks, Round(ks, c))
    ensures Base(ks, Round(ks, c)) == Round(ks, c)
    ensures Value(SweepEnd(ks, c)) < Value(Round(ks, c))
    ensures Value(Base(ks, c)) <= Value(c)
  {
    RoundProgress(ks, c);
    var r := Rightmost(ks);
    var x := SweepEnd(ks, c);
    var next := Round(ks, c);
    CarryRaises(ks, x);
    assert next[r] == ks.lo[r];
    assert ks.flag[r] == 0;
    ValueUpdate(c, r, ks.lo[r], c[r]);
    assert c[r := c[r]] == c;
  }

  /** The raw keys of a run come in strictly increasing numeric order. */
  lemma {:induction false} RunAscending(ks: Keyspace, c: seq<Byte>)
    requires WellFormed(ks) && FreeOrdered(ks) && InBounds(ks, c)
    ensures ValueAscending(Run(ks, c))
    decreases Pow256(Size(ks)) - Value(c)
  {
    var next := Round(ks, c);
    var sweep := SweepKeys(ks, c);
    SweepAscending(ks, c);
    SweepBounds(ks, c);
    RunStep(ks, c);
    if !Finished(ks, next) {
      RoundProgress(ks, c);
      RoundAbove(ks, c);
      RunAscending(ks, next);
      RunAbove(ks, next);
      AscendingConcat(sweep, Run(ks, next), Value(next));
    }
  }

  /** The dispatcher's raw keys come in strictly increasing byte-by-byte
      order, and so no raw key is emitted twice. */
  lemma EnumerateAscending(ks: Keyspace)
    requires WellFormed(ks) && FreeOrdered(ks)
    ensures StrictlyAscending(Enumerate(ks))
    ensures forall i, j :: 0 <= i < j < |Enumerate(ks)| ==> Enumerate(ks)[i] != Enumerate(ks)[j]
  {
    var keys := Enumerate(ks);
    InitialInBounds(ks);
    RunAscending(ks, InitialKey(ks));
    forall i, j | 0 <= i < j < |keys| ensures LexLess(keys[i], keys[j]) {
      ValueLessIsLexLess(keys[i], keys[j]);
    }
  }
}
