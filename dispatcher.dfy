/** The dispatcher goroutine of rc4-bruteforcer.go, step by step on the
    cur_key buffer, proved against the functions of module Odometer. The
    dispatch channel is modelled by the sequence of slices sent on it. */
module Dispatcher {
  import opened Bytes
  import opened KeyValue
  import opened Odometer
  import opened Batching

  /** The number of keys per slice (the global n_keys). */
  const NKeys: int := 65536

  lemma EmitsConcat(ks: Keyspace, a: seq<seq<Byte>>, b: seq<seq<Byte>>)
    requires WellFormed(ks)
    requires forall k :: 0 <= k < |a| ==> |a[k]| == Size(ks)
    requires forall k :: 0 <= k < |b| ==> |b[k]| == Size(ks)
    ensures Emits(ks, a + b) == Emits(ks, a) + Emits(ks, b)
  {
  }

  /** The keys emitted before a round followed by the rest of the walk
      from it are the whole walk: after a round that does not finish, the
      same holds one round on; after the finishing round, the keys emitted
      are the whole walk. */
  lemma WalkStep(ks: Keyspace, done: seq<seq<Byte>>, c: seq<Byte>)
    requires WellFormed(ks) && FreeOrdered(ks) && InBounds(ks, c)
    requires forall k :: 0 <= k < |done| ==> |done[k]| == Size(ks)
    requires done + Run(ks, c) == Enumerate(ks)
    ensures InBounds(ks, Round(ks, c))
    ensures forall k :: 0 <= k < |done + SweepKeys(ks, c)| ==> |(done + SweepKeys(ks, c))[k]| == Size(ks)
    ensures Emits(ks, done + SweepKeys(ks, c)) == Emits(ks, done) + Emits(ks, SweepKeys(ks, c))
    ensures Finished(ks, Round(ks, c)) ==> done + SweepKeys(ks, c) == Enumerate(ks)
    ensures !Finished(ks, Round(ks, c)) ==> (done + SweepKeys(ks, c)) + Run(ks, Round(ks, c)) == Enumerate(ks)
    ensures !Finished(ks, Round(ks, c)) ==> Value(c) < Value(Round(ks, c))
  {
    var sweep, rest := SweepKeys(ks, c), Run(ks, c);
    RunStep(ks, c);
    RoundProgress(ks, c);
    EmitsConcat(ks, done, sweep);
    if Finished(ks, Round(ks, c)) {
      assert rest == sweep;
    } else {
      var next := Round(ks, c);
      assert rest == sweep + Run(ks, next);
      AppendAssoc(done, sweep, Run(ks, next));
    }
  }

  /** The first loop: known bytes where the flag is 1, minima elsewhere. */
  method InitKey(ks: Keyspace, cur: array<Byte>)
    requires WellFormed(ks) && cur.Length == Size(ks)
    modifies cur
    ensures cur[..] == InitialKey(ks)
  {
    for i := 0 to cur.Length
      invariant forall k :: 0 <= k < i ==> cur[k] == InitialKey(ks)[k]
    {
      if ks.flag[i] == 1 {
        cur[i] := ks.known[i];
      } else {
        cur[i] := ks.lo[i];
      }
    }
  }

  /** The forward scan for rightmostidx. */
  method FindRightmost(ks: Keyspace) returns (r: nat)
    requires WellFormed(ks)
    ensures r == Rightmost(ks)
  {
    r := 0;
    for i := 0 to Size(ks)
      invariant r == RightmostUpTo(ks.flag, i)
    {
      if ks.flag[i] == 0 {
        r := i;
      }
    }
  }

  /** The backward scan for leftmostidx. */
  method FindLeftmost(ks: Keyspace) returns (l: nat)
    requires WellFormed(ks)
    ensures l == Leftmost(ks)
  {
    l := 0;
    var i := Size(ks) - 1;
    while i >= 0
      invariant -1 <= i < Size(ks)
      invariant l == LeftmostFrom(ks.flag, i + 1)
    {
      if ks.flag[i] == 0 {
        l := i;
      }
      i := i - 1;
    }
  }

  /** The copy loop: a fresh key, each byte of cur_key plus its offset in
      uint8 arithmetic. */
  method CopyKey(ks: Keyspace, cur: array<Byte>) returns (key: Key)
    requires WellFormed(ks) && cur.Length == Size(ks)
    ensures key == Emit(ks, cur[..])
  {
    var tmp := new Byte[cur.Length];
    for j := 0 to cur.Length
      invariant forall k :: 0 <= k < j ==> tmp[k] == Emit(ks, cur[..])[k]
    {
      tmp[j] := Wrap(cur[j] as int + ks.offset[j]);
    }
    key := tmp[..];
  }

  /** The inner loop over position R,
      `for i = min[R]; cur_key[R] < max[R]; i++`: each emitted key joins
      the open slice, which goes out when it holds nKeys keys. Given that
      the slices so far are those of the emitted keys E, the slices after
      the loop are those of E followed by the keys of this sweep. */
  method SweepAndSend(ks: Keyspace, cur: array<Byte>, r: nat, nKeys: int,
                      sent0: seq<seq<Key>>, open0: seq<Key>, keyidx0: int,
                      ghost emitted: seq<Key>)
    returns (sent: seq<seq<Key>>, open: seq<Key>, keyidx: int)
    requires WellFormed(ks) && cur.Length == Size(ks) && r == Rightmost(ks)
    requires Batches(emitted, nKeys) == sent0 + [open0] && keyidx0 == |open0|
    modifies cur
    ensures cur[..] == SweepEnd(ks, old(cur[..]))
    ensures Batches(emitted + Emits(ks, SweepKeys(ks, old(cur[..]))), nKeys) == sent + [open]
    ensures keyidx == |open|
  {
    ghost var c0 := cur[..];
    ghost var done := emitted;
    ghost var sweep: seq<seq<Byte>> := [];
    sent, open, keyidx := sent0, open0, keyidx0;
    var lo := ks.lo[r];
    var i: int := lo;
    while cur[r] < ks.hi[r]
      invariant lo <= i <= 256
      invariant i == lo ==> cur[..] == c0
      invariant i > lo ==> c0[r] < ks.hi[r] && i - 1 <= Top(ks, r) && cur[..] == c0[r := i - 1]
      invariant |sweep| == i - lo && forall k :: 0 <= k < |sweep| ==> sweep[k] == c0[r := lo + k]
      invariant done == emitted + Emits(ks, sweep)
      invariant Batches(done, nKeys) == sent + [open] && keyidx == |open|
      decreases 256 - i
    {
      cur[r] := i;
      assert cur[..] == c0[r := i];
      var key := CopyKey(ks, cur);
      BatchesSnoc(done, key, nKeys, sent, open);
      EmitsConcat(ks, sweep, [cur[..]]);
      sweep := sweep + [cur[..]];
      done := done + [key];
      open := open + [key];
      keyidx := keyidx + 1;
      if keyidx == nKeys {
        sent := sent + [open];
        keyidx := 0;
        open := [];
      }
      i := i + 1;
    }
    assert sweep == SweepKeys(ks, c0);
  }

  /** The carry loop `for i = R-1; i >= L; i--`: the first position below
      its maximum goes up by one and every position after it up to R is
      reset to its minimum. */
  method CarryInPlace(ks: Keyspace, cur: array<Byte>, r: nat, l: nat)
    requires WellFormed(ks) && cur.Length == Size(ks) && r == Rightmost(ks) && l == Leftmost(ks)
    modifies cur
    ensures cur[..] == Carry(ks, old(cur[..]))
  {
    ghost var c0 := cur[..];
    var i: int := r - 1;
    while i >= l
      invariant -1 <= i < r
      invariant cur[..] == c0
      invariant CarryFrom(ks, c0, i) == CarryPos(ks, c0)
    {
      if cur[i] < ks.hi[i] {
        cur[i] := cur[i] + 1;
        if i < cur.Length {
          for j := i + 1 to r + 1
            invariant forall k :: 0 <= k < cur.Length ==>
              cur[k] == if k == i then c0[i] + 1 else if i < k < j then ks.lo[k] else c0[k]
          {
            cur[j] := ks.lo[j];
          }
        }
        assert cur[..] == Carry(ks, c0);
        return;
      }
      i := i - 1;
    }
  }

  /** The finished test: no free position below its maximum. */
  method CheckFinished(ks: Keyspace, cur: array<Byte>) returns (finished: bool)
    requires WellFormed(ks) && cur.Length == Size(ks)
    ensures finished == Finished(ks, cur[..])
  {
    finished := true;
    for i := 0 to cur.Length
      invariant finished == forall k :: 0 <= k < i && ks.flag[k] == 0 ==> cur[k] == ks.hi[k]
    {
      if ks.flag[i] == 0 && cur[i] != ks.hi[i] {
        finished := false;
      }
    }
  }

  /** One pass of the outer loop: the sweep with its sends, the carry and
      the finished test. */
  method RoundAndSend(ks: Keyspace, cur: array<Byte>, r: nat, l: nat, nKeys: int,
                      sent0: seq<seq<Key>>, open0: seq<Key>, keyidx0: int,
                      ghost emitted: seq<Key>)
    returns (sent: seq<seq<Key>>, open: seq<Key>, keyidx: int, finished: bool)
    requires WellFormed(ks) && cur.Length == Size(ks) && r == Rightmost(ks) && l == Leftmost(ks)
    requires Batches(emitted, nKeys) == sent0 + [open0] && keyidx0 == |open0|
    modifies cur
    ensures cur[..] == Round(ks, old(cur[..]))
    ensures finished == Finished(ks, cur[..])
    ensures Batches(emitted + Emits(ks, SweepKeys(ks, old(cur[..]))), nKeys) == sent + [open]
    ensures keyidx == |open|
  {
    sent, open, keyidx := SweepAndSend(ks, cur, r, nKeys, sent0, open0, keyidx0, emitted);
    CarryInPlace(ks, cur, r, l);
    finished := CheckFinished(ks, cur);
  }

  /** The outer loop of the dispatcher, from a key c at which the rest of
      the walk Run(c) is still to come after the keys already emitted. */
  method DispatchFrom(ks: Keyspace, cur: array<Byte>, r: nat, l: nat, nKeys: int,
                      sent0: seq<seq<Key>>, open0: seq<Key>, keyidx0: int,
                      ghost done0: seq<seq<Byte>>)
    returns (sent: seq<seq<Key>>)
    requires WellFormed(ks) && FreeOrdered(ks) && cur.Length == Size(ks)
    requires r == Rightmost(ks) && l == Leftmost(ks) && InBounds(ks, cur[..])
    requires forall k :: 0 <= k < |done0| ==> |done0[k]| == Size(ks)
    requires done0 + Run(ks, cur[..]) == Enumerate(ks)
    requires Batches(Emits(ks, done0), nKeys) == sent0 + [open0] && keyidx0 == |open0|
    modifies cur
    ensures sent == Batches(Emits(ks, Enumerate(ks)), nKeys)
  {
    var open, keyidx := open0, keyidx0;
    sent := sent0;
    ghost var done := done0;
    while true
      invariant InBounds(ks, cur[..])
      invariant forall k :: 0 <= k < |done| ==> |done[k]| == Size(ks)
      invariant done + Run(ks, cur[..]) == Enumerate(ks)
      invariant Batches(Emits(ks, done), nKeys) == sent + [open] && keyidx == |open|
      decreases Pow256(Size(ks)) - Value(cur[..])
    {
      ghost var c := cur[..];
      var finished;
      sent, open, keyidx, finished := RoundAndSend(ks, cur, r, l, nKeys, sent, open, keyidx, Emits(ks, done));
      WalkStep(ks, done, c);
      done := done + SweepKeys(ks, c);
      if finished {
        sent := sent + [open];
        return;
      }
    }
  }

  /** The walk starts at the initial key with nothing emitted. */
  lemma WalkStart(ks: Keyspace)
    requires WellFormed(ks) && FreeOrdered(ks)
    ensures InBounds(ks, InitialKey(ks))
    ensures [] + Run(ks, InitialKey(ks)) == Enumerate(ks)
  {
    InitialInBounds(ks);
    assert [] + Run(ks, InitialKey(ks)) == Run(ks, InitialKey(ks));
  }

  /** The dispatcher: the slices it sends are the emitted keys, in the
      order of the walk, grouped nKeys at a time, the final (possibly empty)
      slice sent before the channel is closed. */
  method Dispatch(ks: Keyspace, nKeys: int) returns (sent: seq<seq<Key>>)
    requires WellFormed(ks) && FreeOrdered(ks)
    ensures sent == Batches(Emits(ks, Enumerate(ks)), nKeys)
  {
    var cur := new Byte[Size(ks)];
    InitKey(ks, cur);
    var r := FindRightmost(ks);
    var l := FindLeftmost(ks);
    WalkStart(ks);
    assert Emits(ks, []) == [];
    sent := DispatchFrom(ks, cur, r, l, nKeys, [], [], 0, []);
  }

  /** The dispatcher configured as the program ships it. */
  method DispatchDefault(ks: Keyspace) returns (sent: seq<seq<Key>>)
    requires WellFormed(ks) && FreeOrdered(ks)
    ensures sent == Batches(Emits(ks, Enumerate(ks)), NKeys)
  {
    sent := Dispatch(ks, NKeys);
  }
}
