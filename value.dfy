/** Keys read as big-endian base-256 numbers. Comparing two keys of the same
    length byte by byte from the left agrees with comparing these numbers;
    the odometer's termination and ordering proofs rest on that. */
module KeyValue {
  import opened Bytes

  function Pow256(n: nat): (p: nat)
    ensures p >= 1
  {
    if n == 0 then 1 else 256 * Pow256(n - 1)
  }

  /** The key as a number, key[0] the most significant byte. */
  function Value(s: seq<Byte>): (v: nat)
    ensures v < Pow256(|s|)
  {
    if |s| == 0 then 0 else Value(s[..|s| - 1]) * 256 + s[|s| - 1]
  }

  /** a comes before b in the byte-by-byte order: they agree up to some
      position p, where a holds the smaller byte. */
  ghost predicate LexLess(a: seq<Byte>, b: seq<Byte>)
  {
    |a| == |b| && exists p :: 0 <= p < |a| && a[..p] == b[..p] && a[p] < b[p]
  }

  lemma Regroup(x: int, w: int, y: int, c: int)
    ensures (x * w + y) * 256 + c == x * (256 * w) + (y * 256 + c)
  {
  }

  /** The number of a concatenation. */
  lemma {:induction false} ValueAppend(a: seq<Byte>, b: seq<Byte>)
    ensures Value(a + b) == Value(a) * Pow256(|b|) + Value(b)
  {
    if |b| == 0 {
      assert a + b == a;
    } else {
      var n := |b| - 1;
      var b' := b[..n];
      assert (a + b)[..|a + b| - 1] == a + b';
      ValueAppend(a, b');
      assert Value(a + b) == Value(a + b') * 256 + b[n];
      assert Value(b) == Value(b') * 256 + b[n];
      assert Pow256(|b|) == 256 * Pow256(|b'|);
      Regroup(Value(a), Pow256(|b'|), Value(b'), b[n]);
    }
  }

  /** Keys that agree up to p and differ upward at p compare the same way as
      numbers, whatever follows p. */
  lemma {:induction false} ValueLessAt(a: seq<Byte>, b: seq<Byte>, p: nat)
    requires |a| == |b| && p < |a|
    requires a[..p] == b[..p] && a[p] < b[p]
    ensures Value(a) < Value(b)
  {
    var n := |a| - 1;
    var a', b' := a[..n], b[..n];
    if p == n {
      assert a' == b';
    } else {
      assert a'[..p] == a[..p] && b'[..p] == b[..p];
      ValueLessAt(a', b', p);
    }
  }

  /** Raising one byte and leaving the others does not lower the number. */
  lemma {:induction false} ValueLeAt(a: seq<Byte>, b: seq<Byte>, p: nat)
    requires |a| == |b| && p < |a|
    requires a[..p] == b[..p] && a[p] <= b[p] && a[p + 1..] == b[p + 1..]
    ensures Value(a) <= Value(b)
  {
    var n := |a| - 1;
    var a', b' := a[..n], b[..n];
    if p == n {
      assert a' == b';
    } else {
      assert a'[..p] == a[..p] && b'[..p] == b[..p];
      assert a'[p + 1..] == a[p + 1..n] && b'[p + 1..] == b[p + 1..n];
      assert a[n] == a[p + 1..][n - p - 1];
      ValueLeAt(a', b', p);
    }
  }

  /** Raising one byte of a key, the others unchanged, raises its number. */
  lemma ValueUpdate(c: seq<Byte>, r: nat, v: Byte, w: Byte)
    requires r < |c| && v <= w
    ensures Value(c[r := v]) <= Value(c[r := w])
    ensures v < w ==> Value(c[r := v]) < Value(c[r := w])
  {
    var a, b := c[r := v], c[r := w];
    assert a[..r] == c[..r] == b[..r];
    assert a[r + 1..] == c[r + 1..] == b[r + 1..];
    ValueLeAt(a, b, r);
    if v < w {
      ValueLessAt(a, b, r);
    }
  }

  /** Equal numbers of equal length come from equal keys. */
  lemma {:induction false} ValueInjective(a: seq<Byte>, b: seq<Byte>)
    requires |a| == |b| && Value(a) == Value(b)
    ensures a == b
  {
    if |a| > 0 {
      var n := |a| - 1;
      ModUnique(Value(a), 256, Value(a[..n]), a[n]);
      ModUnique(Value(b), 256, Value(b[..n]), b[n]);
      ValueInjective(a[..n], b[..n]);
      assert a == a[..n] + [a[n]];
      assert b == b[..n] + [b[n]];
    }
  }

  /** The converse direction: a smaller number of the same length belongs to
      a key that comes first byte by byte. */
  lemma {:induction false} ValueLessIsLexLess(a: seq<Byte>, b: seq<Byte>)
    requires |a| == |b| && Value(a) < Value(b)
    ensures LexLess(a, b)
  {
    var n := |a| - 1;
    var a', b' := a[..n], b[..n];
    if Value(a') < Value(b') {
      ValueLessIsLexLess(a', b');
      var p :| 0 <= p < |a'| && a'[..p] == b'[..p] && a'[p] < b'[p];
      assert a[..p] == a'[..p] && b[..p] == b'[..p];
    } else {
      assert Value(a') == Value(b');
      ValueInjective(a', b');
      assert a[..n] == b[..n] && a[n] < b[n];
    }
  }

  /** Keys that come first byte by byte have the smaller number. */
  lemma LexLessIsValueLess(a: seq<Byte>, b: seq<Byte>)
    requires LexLess(a, b)
    ensures Value(a) < Value(b)
  {
    var p :| 0 <= p < |a| && a[..p] == b[..p] && a[p] < b[p];
    ValueLessAt(a, b, p);
  }
}
