/** The key-space walk of the dispatcher in rc4-bruteforcer.go, as pure
    functions over the current raw key `cur_key`. A key space is the
    five-row table of the program: known byte, known flag, offset, minimum
    and maximum per key position. The rightmost free position R is the fast
    digit; the carry moves leftward, down to the leftmost free position L.
    The functions follow the guards exactly as the Go code writes them; the
    methods in module Dispatcher are proved against them. */
module Odometer {
  import opened Bytes
  import opened KeyValue

  datatype Keyspace = Keyspace(known: seq<Byte>, flag: seq<Byte>, offset: seq<Byte>,
                               lo: seq<Byte>, hi: seq<Byte>)

  /** The number of key positions (the length of the first row). */
  function Size(ks: Keyspace): nat
  {
    |ks.known|
  }

  /** All five rows have the same, non-zero length: the Go code indexes every
      row up to len(keyspace[0]) and reads cur_key[R] even when no position
      is free. */
  predicate WellFormed(ks: Keyspace)
  {
    |ks.known| >= 1 && |ks.flag| == |ks.known| && |ks.offset| == |ks.known|
    && |ks.lo| == |ks.known| && |ks.hi| == |ks.known|
  }

  /** Every free position has its minimum at or below its maximum. */
  predicate FreeOrdered(ks: Keyspace)
    requires WellFormed(ks)
  {
    forall i :: 0 <= i < Size(ks) && ks.flag[i] == 0 ==> ks.lo[i] <= ks.hi[i]
  }

  /** Every free position of c lies between its minimum and its maximum. */
  predicate InBounds(ks: Keyspace, c: seq<Byte>)
    requires WellFormed(ks)
  {
    |c| == Size(ks)
    && forall i :: 0 <= i < Size(ks) && ks.flag[i] == 0 ==> ks.lo[i] <= c[i] <= ks.hi[i]
  }

  /** The key the dispatcher starts from: the known byte where the flag is
      1, the minimum everywhere else. */
  function InitialKey(ks: Keyspace): (c: seq<Byte>)
    requires WellFormed(ks)
    ensures |c| == Size(ks)
  {
    seq(Size(ks), i requires 0 <= i < Size(ks) => if ks.flag[i] == 1 then ks.known[i] else ks.lo[i])
  }

  /** The index the forward scan `if flag[i] == 0 { rightmostidx = i }` holds
      after looking at positions 0..n-1: the last free one, 0 if none. */
  function RightmostUpTo(flag: seq<Byte>, n: nat): (r: nat)
    requires n <= |flag|
    ensures r == 0 || r < n
    ensures forall i :: r < i < n ==> flag[i] != 0
    ensures (exists i :: 0 <= i < n && flag[i] == 0) ==> r < n && flag[r] == 0
    ensures (forall i :: 0 <= i < n ==> flag[i] != 0) ==> r == 0
  {
    if n == 0 then 0 else if flag[n - 1] == 0 then n - 1 else RightmostUpTo(flag, n - 1)
  }

  /** The index the backward scan `if flag[i] == 0 { leftmostidx = i }`
      holds after looking at positions |flag|-1 down to n: the first free
      one at or after n, 0 if none. */
  function LeftmostFrom(flag: seq<Byte>, n: nat): (l: nat)
    requires n <= |flag|
    ensures l == 0 || n <= l < |flag|
    ensures forall i :: n <= i < l ==> flag[i] != 0
    ensures (exists i :: n <= i < |flag| && flag[i] == 0) ==> n <= l < |flag| && flag[l] == 0
    ensures (forall i :: n <= i < |flag| ==> flag[i] != 0) ==> l == 0
    decreases |flag| - n
  {
    if n == |flag| then 0 else if flag[n] == 0 then n else LeftmostFrom(flag, n + 1)
  }

  /** R, the rightmost free position (0 when none is free). */
  function Rightmost(ks: Keyspace): (r: nat)
    requires WellFormed(ks)
    ensures r < Size(ks)
  {
    RightmostUpTo(ks.flag, Size(ks))
  }

  /** L, the leftmost free position (0 when none is free). */
  function Leftmost(ks: Keyspace): (l: nat)
    requires WellFormed(ks)
    ensures l < Size(ks)
  {
    LeftmostFrom(ks.flag, 0)
  }

  /** Every free position lies between L and R. */
  lemma FreeBetween(ks: Keyspace, i: nat)
    requires WellFormed(ks) && i < Size(ks) && ks.flag[i] == 0
    ensures Leftmost(ks) <= i <= Rightmost(ks)
    ensures ks.flag[Leftmost(ks)] == 0 && ks.flag[Rightmost(ks)] == 0
  {
  }

  /** The last raw value the sweep loop writes into position r when it runs:
      the maximum, or the minimum alone when the minimum lies above the
      maximum. */
  function Top(ks: Keyspace, r: nat): (t: Byte)
    requires WellFormed(ks) && r < Size(ks)
    ensures ks.lo[r] <= t && ks.hi[r] <= t
  {
    if ks.lo[r] <= ks.hi[r] then ks.hi[r] else ks.lo[r]
  }

  /** The raw keys of one pass of the inner loop
      `for i = min[R]; cur_key[R] < max[R]; i++ { cur_key[R] = uint8(i); ... }`.
      The test reads cur_key[R] before the assignment, so the pass emits
      nothing when cur_key[R] >= max[R] on entry, and otherwise
      min[R], min[R]+1, ..., Top at position R. */
  function SweepKeys(ks: Keyspace, c: seq<Byte>): (keys: seq<seq<Byte>>)
    requires WellFormed(ks) && |c| == Size(ks)
    ensures forall k :: 0 <= k < |keys| ==> |keys[k]| == |c|
  {
    var r := Rightmost(ks);
    if c[r] < ks.hi[r] then
      seq(Top(ks, r) - ks.lo[r] + 1, k requires 0 <= k < Top(ks, r) - ks.lo[r] + 1 => c[r := ks.lo[r] + k])
    else []
  }

  /** cur_key after the inner loop. */
  function SweepEnd(ks: Keyspace, c: seq<Byte>): (c': seq<Byte>)
    requires WellFormed(ks) && |c| == Size(ks)
    ensures |c'| == |c|
  {
    var r := Rightmost(ks);
    if c[r] < ks.hi[r] then c[r := Top(ks, r)] else c
  }

  /** The position the carry loop `for i = R-1; i >= L; i--` stops at, having
      scanned i down to L: the first with cur_key[i] < max[i]. Known
      positions between L and R are scanned like free ones. */
  function CarryFrom(ks: Keyspace, c: seq<Byte>, i: int): (p: Option<nat>)
    requires WellFormed(ks) && |c| == Size(ks) && -1 <= i < Size(ks)
    ensures p.Some? ==> Leftmost(ks) <= p.value <= i && c[p.value] < ks.hi[p.value]
    ensures p.Some? ==> forall k :: p.value < k <= i ==> c[k] >= ks.hi[k]
    ensures p.None? ==> forall k :: Leftmost(ks) <= k <= i ==> c[k] >= ks.hi[k]
    decreases i + 1
  {
    if i < Leftmost(ks) then None
    else if c[i] < ks.hi[i] then Some(i)
    else CarryFrom(ks, c, i - 1)
  }

  /** The digit the carry step increments, if any. */
  function CarryPos(ks: Keyspace, c: seq<Byte>): (p: Option<nat>)
    requires WellFormed(ks) && |c| == Size(ks)
    ensures p.Some? ==> p.value < Rightmost(ks)
  {
    CarryFrom(ks, c, Rightmost(ks) - 1)
  }

  /** cur_key after the carry step: the chosen digit goes up by one and every
      position after it up to R, known or not, is reset to its minimum. */
  function Carry(ks: Keyspace, c: seq<Byte>): (c': seq<Byte>)
    requires WellFormed(ks) && |c| == Size(ks)
    ensures |c'| == |c|
  {
    match CarryPos(ks, c)
    case None => c
    case Some(p) =>
      seq(|c|, k requires 0 <= k < |c| =>
        if k == p then c[p] + 1 else if p < k <= Rightmost(ks) then ks.lo[k] else c[k])
  }

  /** The test that ends the walk: every free position holds its maximum. */
  predicate Finished(ks: Keyspace, c: seq<Byte>)
    requires WellFormed(ks) && |c| == Size(ks)
  {
    forall i :: 0 <= i < Size(ks) && ks.flag[i] == 0 ==> c[i] == ks.hi[i]
  }

  /** One round of the outer loop: the inner loop, then the carry step. */
  function Round(ks: Keyspace, c: seq<Byte>): (c': seq<Byte>)
    requires WellFormed(ks) && |c| == Size(ks)
    ensures |c'| == |c|
  {
    Carry(ks, SweepEnd(ks, c))
  }

  /** The inner loop keeps free positions within their bounds, does not
      lower cur_key, and leaves position R at or above its maximum. */
  lemma SweepProgress(ks: Keyspace, c: seq<Byte>)
    requires WellFormed(ks) && FreeOrdered(ks) && InBounds(ks, c)
    ensures InBounds(ks, SweepEnd(ks, c))
    ensures Value(c) <= Value(SweepEnd(ks, c))
    ensures SweepEnd(ks, c)[Rightmost(ks)] >= ks.hi[Rightmost(ks)]
  {
    var r := Rightmost(ks);
    var x := SweepEnd(ks, c);
    if c[r] < ks.hi[r] {
      assert c[..r] == x[..r] && c[r + 1..] == x[r + 1..];
      ValueLeAt(c, x, r);
    }
    forall i | 0 <= i < Size(ks) && ks.flag[i] == 0
      ensures ks.lo[i] <= x[i] <= ks.hi[i]
    {
      if i == r && c[r] < ks.hi[r] {
        assert x[i] == ks.hi[i];
      }
    }
  }

  /** The carry step keeps free positions within their bounds. */
  lemma CarryInBounds(ks: Keyspace, x: seq<Byte>)
    requires WellFormed(ks) && FreeOrdered(ks) && InBounds(ks, x)
    ensures InBounds(ks, Carry(ks, x))
  {
  }

  /** When the carry step finds a digit it moves cur_key strictly up. */
  lemma CarryRaises(ks: Keyspace, x: seq<Byte>)
    requires WellFormed(ks) && |x| == Size(ks) && CarryPos(ks, x).Some?
    ensures Value(x) < Value(Carry(ks, x))
  {
    var p := CarryPos(ks, x).value;
    var next := Carry(ks, x);
    assert |next| == |x| && p < |x|;
    assert next[p] == x[p] + 1;
    assert x[..p] == next[..p] by {
      forall k | 0 <= k < p ensures next[k] == x[k] {
      }
    }
    ValueLessAt(x, next, p);
  }

  /** When the carry step finds no digit after a sweep, every free position
      is at its maximum. */
  lemma NoCarryFinished(ks: Keyspace, x: seq<Byte>)
    requires WellFormed(ks) && InBounds(ks, x) && CarryPos(ks, x).None?
    requires x[Rightmost(ks)] >= ks.hi[Rightmost(ks)]
    ensures Finished(ks, Carry(ks, x))
  {
    forall i | 0 <= i < Size(ks) && ks.flag[i] == 0
      ensures x[i] == ks.hi[i]
    {
      FreeBetween(ks, i);
    }
  }

  /** A round keeps free positions within their bounds and, unless the walk
      is over, moves cur_key strictly up as a base-256 number. */
  lemma RoundProgress(ks: Keyspace, c: seq<Byte>)
    requires WellFormed(ks) && FreeOrdered(ks) && InBounds(ks, c)
    ensures InBounds(ks, Round(ks, c))
    ensures !Finished(ks, Round(ks, c)) ==> Value(c) < Value(Round(ks, c))
    ensures !Finished(ks, Round(ks, c)) ==> CarryPos(ks, SweepEnd(ks, c)).Some?
  {
    var x := SweepEnd(ks, c);
    SweepProgress(ks, c);
    CarryInBounds(ks, x);
    if CarryPos(ks, x).Some? {
      CarryRaises(ks, x);
    } else {
      NoCarryFinished(ks, x);
    }
  }

  /** The raw keys the dispatcher emits from cur_key c on, up to the round
      whose carry leaves every free position at its maximum. */
  function Run(ks: Keyspace, c: seq<Byte>): (keys: seq<seq<Byte>>)
    requires WellFormed(ks) && FreeOrdered(ks) && InBounds(ks, c)
    ensures forall k :: 0 <= k < |keys| ==> |keys[k]| == Size(ks)
    decreases Pow256(Size(ks)) - Value(c)
  {
    var next := Round(ks, c);
    SweepKeys(ks, c) + if Finished(ks, next) then [] else (RoundProgress(ks, c); Run(ks, next))
  }

  /** Unfolding a run by one round. */
  lemma RunStep(ks: Keyspace, c: seq<Byte>)
    requires WellFormed(ks) && FreeOrdered(ks) && InBounds(ks, c)
    ensures InBounds(ks, Round(ks, c))
    ensures Finished(ks, Round(ks, c)) ==> Run(ks, c) == SweepKeys(ks, c)
    ensures !Finished(ks, Round(ks, c)) ==> Run(ks, c) == SweepKeys(ks, c) + Run(ks, Round(ks, c))
  {
    RoundProgress(ks, c);
    if Finished(ks, Round(ks, c)) {
      assert Run(ks, c) == SweepKeys(ks, c) + [];
    }
  }

  /** The initial key respects the bounds of every free position. */
  lemma InitialInBounds(ks: Keyspace)
    requires WellFormed(ks) && FreeOrdered(ks)
    ensures InBounds(ks, InitialKey(ks))
  {
  }

  /** Every raw key the dispatcher emits, in order. */
  function Enumerate(ks: Keyspace): (keys: seq<seq<Byte>>)
    requires WellFormed(ks) && FreeOrdered(ks)
    ensures forall k :: 0 <= k < |keys| ==> |keys[k]| == Size(ks)
  {
    InitialInBounds(ks);
    Run(ks, InitialKey(ks))
  }

  /** The emitted copy of a raw key: each byte plus its offset, wrapping as
      uint8 addition does; known positions get their offset too. */
  function Emit(ks: Keyspace, c: seq<Byte>): (key: Key)
    requires WellFormed(ks) && |c| == Size(ks)
    ensures |key| == Size(ks)
  {
    seq(Size(ks), j requires 0 <= j < Size(ks) => Wrap(c[j] as int + ks.offset[j]))
  }

  function Emits(ks: Keyspace, keys: seq<seq<Byte>>): (out: seq<Key>)
    requires WellFormed(ks) && forall k :: 0 <= k < |keys| ==> |keys[k]| == Size(ks)
    ensures |out| == |keys|
  {
    seq(|keys|, k requires 0 <= k < |keys| => Emit(ks, keys[k]))
  }

  /** cur_key after n rounds of the outer loop, whether or not the walk
      would have stopped before. */
  function StateAfter(ks: Keyspace, n: nat): (c: seq<Byte>)
    requires WellFormed(ks)
    ensures |c| == Size(ks)
  {
    if n == 0 then InitialKey(ks) else Round(ks, StateAfter(ks, n - 1))
  }

  /** No check rejects a free position whose minimum exceeds its maximum:
      that position never reaches its maximum, so the finished test fails
      after every round and the dispatcher loops forever. */
  lemma {:induction false} NeverFinishes(ks: Keyspace, i: nat, n: nat)
    requires WellFormed(ks) && i < Size(ks) && ks.flag[i] == 0 && ks.lo[i] > ks.hi[i]
    ensures StateAfter(ks, n)[i] > ks.hi[i]
    ensures !Finished(ks, StateAfter(ks, n))
  {
    var c := StateAfter(ks, n);
    if n == 0 {
      assert c[i] == ks.lo[i];
    } else {
      var prev := StateAfter(ks, n - 1);
      NeverFinishes(ks, i, n - 1);
      RoundKeepsAbove(ks, prev, i);
      assert c == Round(ks, prev);
    }
    assert c[i] != ks.hi[i];
  }

  /** A position above its maximum stays above it through a round: the
      sweep does not touch it and the carry can only reset it to its
      minimum. */
  lemma RoundKeepsAbove(ks: Keyspace, c: seq<Byte>, i: nat)
    requires WellFormed(ks) && |c| == Size(ks) && i < Size(ks)
    requires c[i] > ks.hi[i] && ks.lo[i] > ks.hi[i]
    ensures Round(ks, c)[i] > ks.hi[i]
  {
    var x := SweepEnd(ks, c);
    assert x[i] == c[i];
    var next := Carry(ks, x);
    match CarryPos(ks, x) {
      case None =>
        assert next == x;
      case Some(p) =>
        assert p != i;
        assert next[i] == if p < i <= Rightmost(ks) then ks.lo[i] else x[i];
    }
  }
}
