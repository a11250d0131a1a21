/** How many raw keys the dispatcher emits. Read as a mixed-radix counter,
    positions L..R-1 are the digits of the rounds and position R the digit
    each sweep runs through. When every position from L to R is free, every
    free minimum lies at or below its maximum and min[R] < max[R], the
    dispatcher emits exactly the product that `--estimate` prints. */
module Counting {
  import opened Bytes
  import opened KeyValue
  import opened Odometer

  /** The key-space size of the `--estimate` branch of main, over positions
      0..n-1: a factor `int(max[i]-min[i]) + 1` per free position, where the
      subtraction is uint8 arithmetic and so wraps. */
  function EstimateUpTo(ks: Keyspace, n: nat): (nk: nat)
    requires WellFormed(ks) && n <= Size(ks)
    ensures nk >= 1
  {
    if n == 0 then 1
    else EstimateUpTo(ks, n - 1) * (if ks.flag[n - 1] == 0 then Wrap(ks.hi[n - 1] as int - ks.lo[n - 1]) + 1 else 1)
  }

  /** The key-space size over all positions. */
  function KeyCount(ks: Keyspace): (nk: nat)
    requires WellFormed(ks)
    ensures nk >= 1
  {
    EstimateUpTo(ks, Size(ks))
  }

  /** The conditions under which the dispatcher emits the estimated count:
      R is free and at least two values wide, every free minimum lies at or
      below its maximum, and no known position lies strictly between L and
      R. */
  predicate Countable(ks: Keyspace)
    requires WellFormed(ks)
  {
    var l, r := Leftmost(ks), Rightmost(ks);
    FreeOrdered(ks) && ks.flag[r] == 0 && ks.lo[r] < ks.hi[r]
    && forall i :: l < i < r ==> ks.flag[i] == 0
  }

  /** The number of values a position runs through. */
  function Radix(ks: Keyspace, i: nat): int
    requires WellFormed(ks) && i < Size(ks)
  {
    ks.hi[i] as int - ks.lo[i] + 1
  }

  /** The digits of positions L..m-1 of c read as one mixed-radix number. */
  function Digits(ks: Keyspace, c: seq<Byte>, m: nat): int
    requires WellFormed(ks) && |c| == Size(ks) && Leftmost(ks) <= m <= Size(ks)
  {
    if m == Leftmost(ks) then 0
    else Digits(ks, c, m - 1) * Radix(ks, m - 1) + (c[m - 1] as int - ks.lo[m - 1])
  }

  /** The number of values positions L..m-1 run through together. */
  function Total(ks: Keyspace, m: nat): int
    requires WellFormed(ks) && Leftmost(ks) <= m <= Size(ks)
  {
    if m == Leftmost(ks) then 1 else Total(ks, m - 1) * Radix(ks, m - 1)
  }

  /** n sweeps of w keys each. */
  function Sweeps(w: nat, n: int): nat
    decreases n
  {
    if n <= 0 then 0 else w + Sweeps(w, n - 1)
  }

  /** The arithmetic of one round: a sweep of w keys before n more. */
  lemma CountStep(all: int, first: int, rest: int, w: nat, n: int, m: int)
    requires all == first + rest && first == w && rest == Sweeps(w, n) && n >= 0 && m == n + 1
    ensures all == Sweeps(w, m)
  {
  }

  lemma {:induction false} SweepsIsProduct(w: nat, n: nat)
    ensures Sweeps(w, n) == w * n
  {
    if n > 0 {
      SweepsIsProduct(w, n - 1);
      MulSucc(n - 1, w);
    }
  }

  lemma {:induction false} DigitsSame(ks: Keyspace, c: seq<Byte>, c': seq<Byte>, m: nat)
    requires WellFormed(ks) && |c| == Size(ks) && |c'| == Size(ks) && Leftmost(ks) <= m <= Size(ks)
    requires forall k :: Leftmost(ks) <= k < m ==> c[k] == c'[k]
    ensures Digits(ks, c, m) == Digits(ks, c', m)
  {
    if m > Leftmost(ks) {
      DigitsSame(ks, c, c', m - 1);
    }
  }

  /** All digits at their minimum read as 0. */
  lemma {:induction false} DigitsMin(ks: Keyspace, c: seq<Byte>, m: nat)
    requires WellFormed(ks) && |c| == Size(ks) && Leftmost(ks) <= m <= Size(ks)
    requires forall k :: Leftmost(ks) <= k < m ==> c[k] == ks.lo[k]
    ensures Digits(ks, c, m) == 0
  {
    if m > Leftmost(ks) {
      DigitsMin(ks, c, m - 1);
    }
  }

  /** All digits at their maximum read as the largest number, Total - 1. */
  lemma {:induction false} DigitsMax(ks: Keyspace, c: seq<Byte>, m: nat)
    requires WellFormed(ks) && |c| == Size(ks) && Leftmost(ks) <= m <= Size(ks)
    requires forall k :: Leftmost(ks) <= k < m ==> c[k] == ks.hi[k]
    ensures Digits(ks, c, m) == Total(ks, m) - 1
  {
    if m > Leftmost(ks) {
      DigitsMax(ks, c, m - 1);
      MulSucc(Digits(ks, c, m - 1), Radix(ks, m - 1));
    }
  }

  lemma BoundStep(d: int, t: int, r: int, x: int)
    requires 0 <= d <= t - 1 && 0 <= x <= r - 1
    ensures 0 <= d * r + x <= t * r - 1
  {
    assert d * r <= (t - 1) * r;
  }

  /** The digits of a key within its bounds read as a number below Total. */
  lemma {:induction false} DigitsBound(ks: Keyspace, c: seq<Byte>, m: nat)
    requires WellFormed(ks) && Countable(ks) && InBounds(ks, c) && Leftmost(ks) <= m <= Rightmost(ks) + 1
    ensures 0 <= Digits(ks, c, m) < Total(ks, m)
  {
    if m > Leftmost(ks) {
      DigitsBound(ks, c, m - 1);
      CountableFree(ks, m - 1);
      BoundStep(Digits(ks, c, m - 1), Total(ks, m - 1), Radix(ks, m - 1), c[m - 1] as int - ks.lo[m - 1]);
    }
  }

  /** Adding one at digit p and resetting the maximal digits after it to
      their minimum adds one to the number: the carry of a counter. */
  lemma {:induction false} DigitsIncrement(ks: Keyspace, x: seq<Byte>, next: seq<Byte>, p: nat, m: nat)
    requires WellFormed(ks) && |x| == Size(ks) && |next| == Size(ks)
    requires Leftmost(ks) <= p < m <= Size(ks)
    requires forall k :: Leftmost(ks) <= k < p ==> next[k] == x[k]
    requires next[p] == x[p] as int + 1
    requires forall k :: p < k < m ==> x[k] == ks.hi[k] && next[k] == ks.lo[k]
    ensures Digits(ks, next, m) == Digits(ks, x, m) + 1
  {
    if m == p + 1 {
      DigitsSame(ks, x, next, p);
    } else {
      DigitsIncrement(ks, x, next, p, m - 1);
      MulSucc(Digits(ks, x, m - 1), Radix(ks, m - 1));
    }
  }

  /** Under Countable, every position from L to R is free. */
  lemma CountableFree(ks: Keyspace, k: nat)
    requires WellFormed(ks) && Countable(ks) && Leftmost(ks) <= k <= Rightmost(ks)
    ensures ks.flag[k] == 0 && ks.lo[k] <= ks.hi[k]
  {
    FreeBetween(ks, Rightmost(ks));
  }

  /** The carry step of a round counts the digits L..R-1 up by one. */
  lemma CarryCounts(ks: Keyspace, c: seq<Byte>)
    requires WellFormed(ks) && Countable(ks) && InBounds(ks, c)
    requires CarryPos(ks, SweepEnd(ks, c)).Some?
    ensures Digits(ks, Round(ks, c), Rightmost(ks)) == Digits(ks, c, Rightmost(ks)) + 1
  {
    var r := Rightmost(ks);
    var x := SweepEnd(ks, c);
    var next := Round(ks, c);
    var p := CarryPos(ks, x).value;
    forall k | p < k < r ensures x[k] == ks.hi[k] && next[k] == ks.lo[k] {
      CountableFree(ks, k);
    }
    DigitsIncrement(ks, x, next, p, r);
    DigitsSame(ks, c, x, r);
  }

  /** A round that finds no digit to carry started with every digit L..R-1
      at its maximum. */
  lemma NoCarryCounts(ks: Keyspace, c: seq<Byte>)
    requires WellFormed(ks) && Countable(ks) && InBounds(ks, c)
    requires CarryPos(ks, SweepEnd(ks, c)).None?
    ensures Digits(ks, c, Rightmost(ks)) == Total(ks, Rightmost(ks)) - 1
  {
    var r := Rightmost(ks);
    var x := SweepEnd(ks, c);
    forall k | Leftmost(ks) <= k < r ensures c[k] == ks.hi[k] {
      CountableFree(ks, k);
      assert x[k] == c[k];
    }
    DigitsMax(ks, c, r);
  }

  /** The length of a run, one round unfolded. */
  lemma RunLength(ks: Keyspace, c: seq<Byte>)
    requires WellFormed(ks) && FreeOrdered(ks) && InBounds(ks, c)
    ensures InBounds(ks, Round(ks, c))
    ensures Finished(ks, Round(ks, c)) ==> |Run(ks, c)| == |SweepKeys(ks, c)|
    ensures !Finished(ks, Round(ks, c)) ==> |Run(ks, c)| == |SweepKeys(ks, c)| + |Run(ks, Round(ks, c))|
  {
    RunStep(ks, c);
  }

  /** A sweep from the minimum of R emits Radix(R) keys. */
  lemma SweepLength(ks: Keyspace, c: seq<Byte>)
    requires WellFormed(ks) && Countable(ks) && |c| == Size(ks)
    requires c[Rightmost(ks)] == ks.lo[Rightmost(ks)]
    ensures |SweepKeys(ks, c)| == Radix(ks, Rightmost(ks))
  {
  }

  /** The number of passes of the outer loop from cur_key c on, the last
      one included. */
  function Rounds(ks: Keyspace, c: seq<Byte>): (n: nat)
    requires WellFormed(ks) && FreeOrdered(ks) && InBounds(ks, c)
    ensures n >= 1
    decreases Pow256(Size(ks)) - Value(c)
  {
    var next := Round(ks, c);
    if Finished(ks, next) then 1 else (RoundProgress(ks, c); 1 + Rounds(ks, next))
  }

  /** A round that carries resets position R to its minimum and does not
      finish the walk, R being free and below its maximum there. */
  lemma CarryResets(ks: Keyspace, c: seq<Byte>)
    requires WellFormed(ks) && Countable(ks) && InBounds(ks, c)
    requires CarryPos(ks, SweepEnd(ks, c)).Some?
    ensures Round(ks, c)[Rightmost(ks)] == ks.lo[Rightmost(ks)]
    ensures !Finished(ks, Round(ks, c))
  {
  }

  /** From a round start every pass emits one full sweep of Radix(R) keys. */
  lemma {:induction false} RunSweeps(ks: Keyspace, c: seq<Byte>)
    requires WellFormed(ks) && Countable(ks) && InBounds(ks, c)
    requires c[Rightmost(ks)] == ks.lo[Rightmost(ks)]
    ensures |Run(ks, c)| == Sweeps(Radix(ks, Rightmost(ks)), Rounds(ks, c))
    decreases Pow256(Size(ks)) - Value(c)
  {
    var w := Radix(ks, Rightmost(ks));
    var next := Round(ks, c);
    RunLength(ks, c);
    SweepLength(ks, c);
    RoundProgress(ks, c);
    if Finished(ks, next) {
      CountStep(|Run(ks, c)|, w, 0, w, 0, Rounds(ks, c));
    } else {
      CarryResets(ks, c);
      RunSweeps(ks, next);
      CountStep(|Run(ks, c)|, w, |Run(ks, next)|, w, Rounds(ks, next), Rounds(ks, c));
    }
  }

  /** The passes still to come are the counts of the digits L..R-1 still to
      come, the current one included. */
  lemma {:induction false} RoundsCount(ks: Keyspace, c: seq<Byte>)
    requires WellFormed(ks) && Countable(ks) && InBounds(ks, c)
    ensures Rounds(ks, c) == Total(ks, Rightmost(ks)) - Digits(ks, c, Rightmost(ks))
    decreases Pow256(Size(ks)) - Value(c)
  {
    var next := Round(ks, c);
    RoundProgress(ks, c);
    if CarryPos(ks, SweepEnd(ks, c)).Some? {
      CarryResets(ks, c);
      CarryCounts(ks, c);
      RoundsCount(ks, next);
    } else {
      NoCarryCounts(ks, c);
      SweepProgress(ks, c);
      NoCarryFinished(ks, SweepEnd(ks, c));
    }
  }

  /** The estimate, as a product over positions, is 1 before L, the product
      of Radix over L..m-1 from L to R + 1, and unchanged after R. */
  lemma {:induction false} EstimateIsTotal(ks: Keyspace, m: nat)
    requires WellFormed(ks) && Countable(ks) && m <= Size(ks)
    ensures m <= Leftmost(ks) ==> EstimateUpTo(ks, m) == 1
    ensures Leftmost(ks) <= m <= Rightmost(ks) + 1 ==> EstimateUpTo(ks, m) == Total(ks, m)
    ensures Rightmost(ks) + 1 <= m ==> EstimateUpTo(ks, m) == Total(ks, Rightmost(ks) + 1)
  {
    if m > 0 {
      EstimateIsTotal(ks, m - 1);
      var i := m - 1;
      if Leftmost(ks) <= i <= Rightmost(ks) {
        CountableFree(ks, i);
      }
    }
  }

  /** Under Countable the dispatcher emits exactly as many raw keys as the
      `--estimate` product says. */
  lemma EnumerateCount(ks: Keyspace)
    requires WellFormed(ks) && Countable(ks)
    ensures |Enumerate(ks)| == KeyCount(ks)
  {
    var r := Rightmost(ks);
    EnumerateSweeps(ks);
    KeyCountIsProduct(ks);
    ProductCount(|Enumerate(ks)|, KeyCount(ks), Radix(ks, r), Total(ks, r));
  }

  /** The initial key is a round start whose digits read 0. */
  lemma InitialDigits(ks: Keyspace)
    requires WellFormed(ks) && Countable(ks)
    ensures InBounds(ks, InitialKey(ks))
    ensures InitialKey(ks)[Rightmost(ks)] == ks.lo[Rightmost(ks)]
    ensures Digits(ks, InitialKey(ks), Rightmost(ks)) == 0
    ensures Radix(ks, Rightmost(ks)) >= 1 && Total(ks, Rightmost(ks)) >= 1
  {
    var r := Rightmost(ks);
    var c := InitialKey(ks);
    InitialInBounds(ks);
    CountableFree(ks, r);
    DigitsBound(ks, c, r);
    forall k | Leftmost(ks) <= k < r ensures c[k] == ks.lo[k] {
      CountableFree(ks, k);
    }
    DigitsMin(ks, c, r);
  }

  /** The walk from the initial key is Total(R) passes of Radix(R) keys. */
  lemma EnumerateSweeps(ks: Keyspace)
    requires WellFormed(ks) && Countable(ks)
    ensures Radix(ks, Rightmost(ks)) >= 1 && Total(ks, Rightmost(ks)) >= 1
    ensures |Enumerate(ks)| == Sweeps(Radix(ks, Rightmost(ks)), Total(ks, Rightmost(ks)))
  {
    var c, r := InitialKey(ks), Rightmost(ks);
    InitialDigits(ks);
    RunSweeps(ks, c);
    RoundsCount(ks, c);
    var n, w, t := Rounds(ks, c), Radix(ks, r), Total(ks, r);
    assert n == t;
    assert |Enumerate(ks)| == |Run(ks, c)| == Sweeps(w, n);
  }

  /** The estimate is Total(R) times Radix(R). */
  lemma KeyCountIsProduct(ks: Keyspace)
    requires WellFormed(ks) && Countable(ks)
    ensures KeyCount(ks) == Total(ks, Rightmost(ks)) * Radix(ks, Rightmost(ks))
  {
    EstimateIsTotal(ks, Size(ks));
  }

  lemma ProductCount(len: int, k: int, w: int, t: int)
    requires w >= 1 && t >= 1 && len == Sweeps(w, t) && k == t * w
    ensures len == k
  {
    SweepsIsProduct(w, t);
  }
}
