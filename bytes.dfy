/** Byte values, the few byte operations shared by the three programs, and
    a sequence map. */
module Bytes {

  /** An unsigned 8-bit value (Go's uint8, C's unsigned char), kept as an int
      so that table indices and sums need no conversion; every wrap-around in
      the programs is written out as `% 256`. */
  type Byte = b: int | 0 <= b < 256

  /** Truncation to a byte: the wrap-around of uint8 arithmetic and the
      effect of `& 0xff` on a non-negative value. */
  function Wrap(x: int): Byte
  {
    x % 256
  }

  /** A key the RC4 schedule can use: it reads key[0] whatever the length,
      so an empty key would index out of range. */
  type Key = k: seq<Byte> | |k| > 0 witness [0]

  datatype Option<T> = None | Some(value: T)

  function Pow2(k: nat): nat
  {
    if k == 0 then 1 else 2 * Pow2(k - 1)
  }

  /** Exclusive or of the low k bits of a and b, one bit at a time from the
      least significant end. */
  function XorLow(a: nat, b: nat, k: nat): (r: nat)
    ensures r < Pow2(k)
  {
    if k == 0 then 0
    else (if a % 2 == b % 2 then 0 else 1) + 2 * XorLow(a / 2, b / 2, k - 1)
  }

  /** Bitwise exclusive or of two bytes (Go's and C's `^` on bytes). */
  function Xor(a: Byte, b: Byte): Byte
  {
    assert Pow2(8) == 256;
    XorLow(a, b, 8)
  }

  lemma {:induction false} XorLowInvolution(a: nat, b: nat, k: nat)
    requires a < Pow2(k)
    ensures XorLow(XorLow(a, b, k), b, k) == a
  {
    if k > 0 {
      XorLowInvolution(a / 2, b / 2, k - 1);
      assert XorLow(a, b, k) / 2 == XorLow(a / 2, b / 2, k - 1);
    }
  }

  /** Xor-ing twice with the same byte gives back the original byte, which
      makes the stream cipher its own inverse. */
  lemma XorInvolution(a: Byte, b: Byte)
    ensures Xor(Xor(a, b), b) == a
  {
    assert Pow2(8) == 256;
    XorLowInvolution(a, b, 8);
  }

  lemma {:induction false} XorLowCommutes(a: nat, b: nat, k: nat)
    ensures XorLow(a, b, k) == XorLow(b, a, k)
  {
    if k > 0 {
      XorLowCommutes(a / 2, b / 2, k - 1);
    }
  }

  lemma XorCommutes(a: Byte, b: Byte)
    ensures Xor(a, b) == Xor(b, a)
  {
    XorLowCommutes(a, b, 8);
  }

  lemma MulAtLeast(d: int, k: int)
    requires d >= 1 && k > 0
    ensures d * k >= k
  {
    assert d * k == (d - 1) * k + k;
  }

  /** Division and remainder are determined by any decomposition
      x == q * k + r with 0 <= r < k. */
  lemma ModUnique(x: int, k: int, q: int, r: int)
    requires k > 0 && 0 <= r < k && x == q * k + r
    ensures x % k == r && x / k == q
  {
    var q0, r0 := x / k, x % k;
    var d := q0 - q;
    assert d * k == r - r0 by {
      assert d * k == q0 * k - q * k;
    }
    if d >= 1 {
      MulAtLeast(d, k);
    } else if d <= -1 {
      MulAtLeast(-d, k);
    }
  }

  lemma MulSucc(a: int, r: int)
    ensures (a + 1) * r == a * r + r
  {
  }

  lemma AppendAssoc<T>(a: seq<T>, b: seq<T>, c: seq<T>)
    ensures (a + b) + c == a + (b + c)
  {
  }

  /** f applied to every element of s, in order. */
  function Map<A, B>(f: A -> B, s: seq<A>): (r: seq<B>)
    ensures |r| == |s|
  {
    seq(|s|, i requires 0 <= i < |s| => f(s[i]))
  }

  lemma MapConcat<A, B>(f: A -> B, a: seq<A>, b: seq<A>)
    ensures Map(f, a + b) == Map(f, a) + Map(f, b)
  {
  }

  lemma MapSnoc<A, B>(f: A -> B, a: seq<A>, x: A)
    ensures Map(f, a + [x]) == Map(f, a) + [f(x)]
  {
  }

  /** The ASCII bytes of "Key:", the known plaintext prefix that all three
      programs search for. */
  const KeyPattern: seq<Byte> := [0x4b, 0x65, 0x79, 0x3a]
}
