/** Which raw keys the dispatcher emits: under the conditions of
    Counting.Countable the walk emits exactly the keys of the key space,
    those whose free positions lie within their bounds and whose other
    positions hold the bytes the dispatcher starts them with. */
module Coverage {
  import opened Bytes
  import opened KeyValue
  import opened Odometer
  import opened Counting

  /** c is a key of the key space: every free position lies between its
      minimum and its maximum, a known position (flag 1) holds the known
      byte, and any other position holds its minimum, as cur_key does
      before the walk starts. */
  predicate InSpace(ks: Keyspace, c: seq<Byte>)
    requires WellFormed(ks)
  {
    InBounds(ks, c)
    && (forall i :: 0 <= i < Size(ks) && ks.flag[i] == 1 ==> c[i] == ks.known[i])
    && (forall i :: 0 <= i < Size(ks) && ks.flag[i] != 0 && ks.flag[i] != 1 ==> c[i] == ks.lo[i])
  }

  /** Two keys of the key space agree at every position that is not free. */
  lemma FixedAgree(ks: Keyspace, x: seq<Byte>, y: seq<Byte>, i: nat)
    requires WellFormed(ks) && InSpace(ks, x) && InSpace(ks, y)
    requires i < Size(ks) && ks.flag[i] != 0
    ensures x[i] == y[i]
  {
    if ks.flag[i] == 1 {
      assert x[i] == ks.known[i];
    } else {
      assert x[i] == ks.lo[i];
    }
  }

  lemma InitialInSpace(ks: Keyspace)
    requires WellFormed(ks) && Countable(ks)
    ensures InSpace(ks, InitialKey(ks))
  {
    InitialInBounds(ks);
  }

  /** A round changes free positions only: the sweep writes position R and
      the carry writes positions from L to R, all free under Countable. */
  lemma RoundInSpace(ks: Keyspace, c: seq<Byte>)
    requires WellFormed(ks) && Countable(ks) && InSpace(ks, c)
    ensures InSpace(ks, Round(ks, c))
  {
    var r := Rightmost(ks);
    var x := SweepEnd(ks, c);
    var next := Round(ks, c);
    RoundProgress(ks, c);
    CountableFree(ks, r);
    forall i | 0 <= i < Size(ks) && ks.flag[i] != 0
      ensures next[i] == c[i]
    {
      assert x[i] == c[i];
      if CarryPos(ks, x).Some? {
        var p := CarryPos(ks, x).value;
        if p <= i <= r {
          CountableFree(ks, i);
        }
      }
    }
  }

  /** Every key of one sweep from a key of the key space is in the key
      space. */
  lemma SweepInSpace(ks: Keyspace, c: seq<Byte>)
    requires WellFormed(ks) && Countable(ks) && InSpace(ks, c)
    ensures forall k :: 0 <= k < |SweepKeys(ks, c)| ==> InSpace(ks, SweepKeys(ks, c)[k])
  {
    var r := Rightmost(ks);
    CountableFree(ks, r);
  }

  /** Every key a run emits from a key of the key space is in the key
      space. */
  lemma {:induction false} RunInSpace(ks: Keyspace, c: seq<Byte>)
    requires WellFormed(ks) && Countable(ks) && InSpace(ks, c)
    ensures forall k :: 0 <= k < |Run(ks, c)| ==> InSpace(ks, Run(ks, c)[k])
    decreases Pow256(Size(ks)) - Value(c)
  {
    var next := Round(ks, c);
    RunStep(ks, c);
    RoundProgress(ks, c);
    SweepInSpace(ks, c);
    if !Finished(ks, next) {
      RoundInSpace(ks, c);
      RunInSpace(ks, next);
      var sweep := SweepKeys(ks, c);
      forall k | 0 <= k < |Run(ks, c)| ensures InSpace(ks, Run(ks, c)[k]) {
        if k >= |sweep| {
          assert Run(ks, c)[k] == Run(ks, next)[k - |sweep|];
        }
      }
    }
  }

  /** Keys of the key space with the same digits L..m-1 agree at those
      positions: each digit lies below its radix, so the mixed-radix number
      determines it. */
  lemma {:induction false} DigitsInjective(ks: Keyspace, x: seq<Byte>, y: seq<Byte>, m: nat)
    requires WellFormed(ks) && Countable(ks) && InBounds(ks, x) && InBounds(ks, y)
    requires Leftmost(ks) <= m <= Rightmost(ks) + 1
    requires Digits(ks, x, m) == Digits(ks, y, m)
    ensures forall k :: Leftmost(ks) <= k < m ==> x[k] == y[k]
  {
    if m > Leftmost(ks) {
      var w := Radix(ks, m - 1);
      CountableFree(ks, m - 1);
      var dx, dy := x[m - 1] as int - ks.lo[m - 1], y[m - 1] as int - ks.lo[m - 1];
      var v := Digits(ks, x, m);
      ModUnique(v, w, Digits(ks, x, m - 1), dx);
      ModUnique(v, w, Digits(ks, y, m - 1), dy);
      DigitsInjective(ks, x, y, m - 1);
    }
  }

  /** A key of the key space is the sweep key of a round start with the same
      digits L..R-1. */
  lemma InSweep(ks: Keyspace, c: seq<Byte>, x: seq<Byte>)
    requires WellFormed(ks) && Countable(ks) && InSpace(ks, c) && InSpace(ks, x)
    requires c[Rightmost(ks)] == ks.lo[Rightmost(ks)]
    requires Digits(ks, x, Rightmost(ks)) == Digits(ks, c, Rightmost(ks))
    ensures x in SweepKeys(ks, c)
  {
    var r := Rightmost(ks);
    CountableFree(ks, r);
    DigitsInjective(ks, x, c, r);
    forall i | 0 <= i < Size(ks) && i != r ensures x[i] == c[i] {
      if ks.flag[i] != 0 {
        FixedAgree(ks, x, c, i);
      } else {
        FreeBetween(ks, i);
      }
    }
    var k := x[r] - ks.lo[r];
    assert SweepKeys(ks, c)[k] == c[r := ks.lo[r] + k];
    assert c[r := ks.lo[r] + k] == x;
  }

  /** A run from a round start emits every key of the key space whose digits
      L..R-1 are at least the start's. */
  lemma {:induction false} RunCovers(ks: Keyspace, c: seq<Byte>, x: seq<Byte>)
    requires WellFormed(ks) && Countable(ks) && InSpace(ks, c) && InSpace(ks, x)
    requires c[Rightmost(ks)] == ks.lo[Rightmost(ks)]
    requires Digits(ks, x, Rightmost(ks)) >= Digits(ks, c, Rightmost(ks))
    ensures x in Run(ks, c)
    decreases Pow256(Size(ks)) - Value(c)
  {
    var r := Rightmost(ks);
    var next := Round(ks, c);
    RunStep(ks, c);
    if Digits(ks, x, r) == Digits(ks, c, r) {
      InSweep(ks, c, x);
    } else if CarryPos(ks, SweepEnd(ks, c)).Some? {
      CarryCounts(ks, c);
      CarryResets(ks, c);
      RoundProgress(ks, c);
      RoundInSpace(ks, c);
      RunCovers(ks, next, x);
    } else {
      NoCarryCounts(ks, c);
      DigitsBound(ks, x, r);
      assert false;
    }
  }

  /** The raw keys of the walk are exactly the keys of the key space. */
  lemma EnumerateExactly(ks: Keyspace, x: seq<Byte>)
    requires WellFormed(ks) && Countable(ks)
    ensures x in Enumerate(ks) <==> InSpace(ks, x)
  {
    InitialInSpace(ks);
    InitialDigits(ks);
    RunInSpace(ks, InitialKey(ks));
    if InSpace(ks, x) {
      DigitsBound(ks, x, Rightmost(ks));
      RunCovers(ks, InitialKey(ks), x);
    }
  }

  /** The keys the dispatcher sends are exactly the emitted copies of the
      keys of the key space. */
  lemma EmittedExactly(ks: Keyspace, key: Key)
    requires WellFormed(ks) && Countable(ks)
    ensures key in Emits(ks, Enumerate(ks)) <==> exists c :: InSpace(ks, c) && key == Emit(ks, c)
  {
    var keys := Enumerate(ks);
    if key in Emits(ks, keys) {
      var k :| 0 <= k < |keys| && Emits(ks, keys)[k] == key;
      EnumerateExactly(ks, keys[k]);
    }
    if exists c :: InSpace(ks, c) && key == Emit(ks, c) {
      var c :| InSpace(ks, c) && key == Emit(ks, c);
      EnumerateExactly(ks, c);
      var k :| 0 <= k < |keys| && keys[k] == c;
      assert Emits(ks, keys)[k] == key;
    }
  }
}
