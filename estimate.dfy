/** The `--estimate` branch of main: the key-space size as the product,
    over free positions, of `int(max[i]-min[i]) + 1`, computed in Go's
    64-bit int, and the key space the program ships with. */
module Estimate {
  import opened Bytes
  import opened KeyValue
  import opened Odometer
  import opened Counting

  const Half: int := 0x8000_0000_0000_0000
  const Modulus: int := 0x1_0000_0000_0000_0000

  /** A mathematical integer as Go's 64-bit two's-complement int holds it. */
  function Wrap64(x: int): (w: int)
    ensures -Half <= w < Half
    ensures -Half <= x < Half ==> w == x
  {
    if -Half <= x < Half then
      ModUnique(x + Half, Modulus, 0, x + Half);
      (x + Half) % Modulus - Half
    else
      (x + Half) % Modulus - Half
  }

  /** Wrap64 forgets exactly the multiples of 2^64. */
  lemma WrapShift(x: int, t: int)
    ensures Wrap64(x + t * Modulus) == Wrap64(x)
  {
    var y := x + Half;
    ModUnique(y + t * Modulus, Modulus, y / Modulus + t, y % Modulus);
  }

  /** Multiplying after a wrap-around wraps to the same int as multiplying
      first: the running product may overflow at any step. */
  lemma WrapMul(a: int, b: int)
    ensures Wrap64(Wrap64(a) * b) == Wrap64(a * b)
  {
    var y := a + Half;
    var q := y / Modulus;
    assert Wrap64(a) == a - q * Modulus;
    assert Wrap64(a) * b == a * b + (-q * b) * Modulus;
    WrapShift(a * b, -q * b);
  }

  /** The loop of the `--estimate` branch. The factor of a free position is
      the uint8 difference widened to int, plus one; the running product is
      an int and wraps at 64 bits. */
  method EstimateKeys(ks: Keyspace) returns (nk: int)
    requires WellFormed(ks)
    ensures nk == Wrap64(KeyCount(ks))
    ensures KeyCount(ks) < Half ==> nk == KeyCount(ks)
  {
    nk := 1;
    for i := 0 to |ks.flag|
      invariant nk == Wrap64(EstimateUpTo(ks, i))
    {
      if ks.flag[i] == 0 {
        var f := Wrap(ks.hi[i] as int - ks.lo[i]) + 1;
        WrapMul(EstimateUpTo(ks, i), f);
        nk := Wrap64(nk * f);
      }
    }
  }

  /** The key space of the shipped program: "b00!" followed by seven
      unknown bytes. */
  const Shipped: Keyspace := Keyspace(
    [0x62, 0x30, 0x30, 0x21, 0, 0, 0, 0, 0, 0, 0],
    [1, 1, 1, 1, 0, 0, 0, 0, 0, 0, 0],
    [0, 0, 0, 0, 0x35, 0x29, 0x40, 0x73, 0x5d, 0x3f, 0x6b],
    [0, 0, 0, 0, 1, 1, 0, 5, 0, 0, 0],
    [0, 0, 0, 0, 12, 31, 23, 12, 4, 2, 147])

  /** In the shipped key space positions 4..10 are free, so L is 4 and R
      is 10, and every one of them spans at least two values. */
  lemma ShippedCountable()
    ensures WellFormed(Shipped)
    ensures Leftmost(Shipped) == 4 && Rightmost(Shipped) == 10
    ensures Countable(Shipped)
  {
    var ks := Shipped;
    assert ks.flag[4] == 0 && ks.flag[10] == 0;
    assert Rightmost(ks) == 10;
    assert Leftmost(ks) == 4;
  }

  /** The estimate the shipped program prints: 12*31*24*8*5*3*148. */
  lemma ShippedKeyCount()
    ensures WellFormed(Shipped) && KeyCount(Shipped) == 158561280
  {
    var ks := Shipped;
    assert EstimateUpTo(ks, 4) == 1;
    assert EstimateUpTo(ks, 5) == 12;
    assert EstimateUpTo(ks, 6) == 372;
    assert EstimateUpTo(ks, 7) == 8928;
    assert EstimateUpTo(ks, 8) == 71424;
    assert EstimateUpTo(ks, 9) == 357120;
    assert EstimateUpTo(ks, 10) == 1071360;
  }

  /** For the shipped key space the estimate prints 158561280 keys, the
      64-bit product does not overflow, and the dispatcher emits exactly
      that many keys. */
  lemma ShippedCount()
    ensures WellFormed(Shipped) && Countable(Shipped)
    ensures KeyCount(Shipped) == 158561280 && KeyCount(Shipped) < Half
    ensures |Enumerate(Shipped)| == 158561280
  {
    ShippedCountable();
    ShippedKeyCount();
    EnumerateCount(Shipped);
  }
}
