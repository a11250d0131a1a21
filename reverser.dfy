/** The goroutine of reverser.go, for one month: six nested loops write key
    bytes 5..10 in place, and for every key the reused stab and dec
    buffers go through the same RC4 routine as the worker of
    rc4-bruteforcer.go. The decrypt channel is modelled by the sequence of
    buffers sent on it. */
module Reverser {
  import opened Bytes
  import opened Rc4
  import opened Nested
  import opened Worker

  /** The ciphertext the program searches (35 bytes, the last one 0). */
  const Enc: seq<Byte> := [
    0xa6, 0xcb, 0x8d, 0xc9, 0x70, 0x96, 0xd1, 0x71, 0x6f,
    0x97, 0x66, 0xa7, 0x9d, 0xa6, 0x24, 0x61, 0xd6, 0xea,
    0x5e, 0x82, 0xeb, 0xdb, 0x1e, 0x22, 0xa5, 0x4f, 0xf6,
    0x02, 0x86, 0x97, 0x1c, 0x6c, 0x01, 0xb8, 0x00]

  /** The known first four key bytes, "b00!". */
  const Known: seq<Byte> := [0x62, 0x30, 0x30, 0x21]

  /** The loops of the goroutine, outermost first:
      `for day = 1; day < 31`, `hour = 0; hour < 24`, `vhigh = 5; vhigh < 12`,
      `vlow = 0; vlow < 4`, `debug = 0; debug < 2`, `lang = 0; lang < 147`,
      with the offsets of key[5]..key[10]. */
  const GoLevels: seq<Level> := [
    Level(1, 31, 0x29), Level(0, 24, 0x40), Level(5, 12, 0x73),
    Level(0, 4, 0x5d), Level(0, 2, 0x3f), Level(0, 147, 0x6b)]

  /** key[0..4] of a goroutine: the known bytes and 0x35 + month, in
      uint8 arithmetic. */
  function MonthHead(month: int): (head: seq<Byte>)
    ensures |head| == 5 && head[..4] == Known && head[4] == Wrap(0x35 + month)
  {
    Known + [Wrap(0x35 + month)]
  }

  /** The keys one goroutine tries, in order. */
  function GoKeys(month: int): (keys: seq<Key>)
  {
    Candidates(MonthHead(month), GoLevels, Tuples(GoLevels))
  }

  /** The test of the goroutine: the first four bytes of dec are 'K', 'e',
      'y', ':'. */
  method KeyPrefix(dec: array<Byte>) returns (found: bool)
    requires dec.Length >= 4
    ensures found == Matches(dec[..], KeyPattern)
  {
    found := dec[0] == 'K' as int && dec[1] == 'e' as int && dec[2] == 'y' as int && dec[3] == ':' as int;
    assert found <==> dec[..4] == KeyPattern;
  }

  /** The output pass over a buffer whose last byte is 0 leaves the
      worker's buffer for the key. */
  lemma ReusedBuffer(key: Key, enc: Ciphertext, d0: seq<Byte>, dec: seq<Byte>)
    requires |enc| >= 1 && |d0| == |enc| && d0[|enc| - 1] == 0
    requires dec == Overlay(d0, PrgaSteps(Schedule(key), OutputSteps(|enc|)).stream, enc)
    ensures dec == Decrypt(key, enc) && dec[|enc| - 1] == 0
  {
    OverlayLastZero(d0, key, enc);
  }

  /** The body of the innermost loop: the table reset and key schedule, the
      output loop into the reused dec, and the test. The last byte of dec is
      never written, so it still holds the 0 that make() put there and dec
      is the worker's buffer for the key. */
  method TryKey(key: array<Byte>, stab: array<Byte>, dec: array<Byte>, enc: Ciphertext)
    returns (found: seq<seq<Byte>>)
    requires key.Length == 11 && stab.Length == 256 && dec.Length == |enc| && |enc| >= 4
    requires key != stab && key != dec && stab != dec && dec[|enc| - 1] == 0
    modifies stab, dec
    ensures dec[|enc| - 1] == 0
    ensures found == Hits([key[..]], enc, KeyPattern)
  {
    ghost var d0 := dec[..];
    ghost var k: Key := key[..];
    ScheduleInPlace(stab, key[..]);
    OutputInPlace(stab, enc, dec);
    ReusedBuffer(k, enc, d0, dec[..]);
    var hit := KeyPrefix(dec);
    HitsOne(k, enc, KeyPattern, dec[..]);
    if hit {
      found := [dec[..]];
    } else {
      found := [];
    }
  }

  /** After one more pass of a loop, the buffers sent are those of the
      passes so far followed by those of the loops inside it with the
      loop's key byte fixed. */
  lemma NestStep(head: seq<Byte>, levels: seq<Level>, inner: seq<Level>, v: int, b: Byte, enc: Ciphertext,
                 found: seq<seq<Byte>>, f: seq<seq<Byte>>)
    requires |head| > 0 && |levels| > 0 && v >= levels[0].start
    requires inner == levels[1..] && b == Wrap(levels[0].base + v)
    requires found == Hits(Candidates(head, levels, Span(levels, v)), enc, KeyPattern)
    requires f == Hits(Candidates(head + [b], inner, Tuples(inner)), enc, KeyPattern)
    ensures found + f == Hits(Candidates(head, levels, Span(levels, v + 1)), enc, KeyPattern)
  {
    SpanCandidates(head, levels, v);
    HitsConcat(Candidates(head, levels, Span(levels, v)), Candidates(head + [b], inner, Tuples(inner)), enc, KeyPattern);
  }

  /** Before the first pass of a loop nothing has been sent. */
  lemma NestStart(head: seq<Byte>, levels: seq<Level>, enc: Ciphertext)
    requires |head| > 0 && |levels| > 0
    ensures Hits(Candidates(head, levels, Span(levels, levels[0].start)), enc, KeyPattern) == []
  {
    assert Span(levels, levels[0].start) == [];
    assert Candidates(head, levels, []) == [];
  }

  /** The loops at depth d and inside it (`for day` is depth 0, `for lang`
      depth 5, the key test depth 6): the buffers sent are the worker's
      hits over the keys these loops run through, in order. */
  method Nest(key: array<Byte>, stab: array<Byte>, dec: array<Byte>, enc: Ciphertext,
              nest: seq<Level>, d: nat, ghost head: seq<Byte>)
    returns (found: seq<seq<Byte>>)
    requires key.Length == 11 && stab.Length == 256 && dec.Length == |enc| && |enc| >= 4
    requires key != stab && key != dec && stab != dec && dec[|enc| - 1] == 0
    requires |nest| == 6 && d <= 6 && |head| == 5 + d && key[..5 + d] == head
    modifies key, stab, dec
    ensures key[..5 + d] == head && dec[|enc| - 1] == 0
    ensures found == Hits(Candidates(head, nest[d..], Tuples(nest[d..])), enc, KeyPattern)
    decreases 6 - d, 3
  {
    if d == 6 {
      assert key[..] == head;
      assert KeyOf(head, [], []) == head;
      assert Candidates(head, [], [[]]) == [head];
      found := TryKey(key, stab, dec, enc);
    } else {
      found := Loop(key, stab, dec, enc, nest, d, head);
    }
  }

  /** The loop at depth d, `for v = start; v < limit; v++`. */
  method Loop(key: array<Byte>, stab: array<Byte>, dec: array<Byte>, enc: Ciphertext,
              nest: seq<Level>, d: nat, ghost head: seq<Byte>)
    returns (found: seq<seq<Byte>>)
    requires key.Length == 11 && stab.Length == 256 && dec.Length == |enc| && |enc| >= 4
    requires key != stab && key != dec && stab != dec && dec[|enc| - 1] == 0
    requires |nest| == 6 && d < 6 && |head| == 5 + d && key[..5 + d] == head
    modifies key, stab, dec
    ensures key[..5 + d] == head && dec[|enc| - 1] == 0
    ensures found == Hits(Candidates(head, nest[d..], Span(nest[d..], nest[d].limit)), enc, KeyPattern)
    decreases 6 - d, 2
  {
    found := [];
    var v := nest[d].start;
    NestStart(head, nest[d..], enc);
    while v < nest[d].limit
      invariant v == nest[d].start || nest[d].start < v <= nest[d].limit
      invariant key[..5 + d] == head && dec[|enc| - 1] == 0
      invariant found == Hits(Candidates(head, nest[d..], Span(nest[d..], v)), enc, KeyPattern)
    {
      found := Step(key, stab, dec, enc, nest, d, v, head, found);
      v := v + 1;
    }
  }

  /** One pass of the loop at depth d with the loop at v: the buffers of
      this pass are sent after those of the passes before it. */
  method Step(key: array<Byte>, stab: array<Byte>, dec: array<Byte>, enc: Ciphertext,
              nest: seq<Level>, d: nat, v: int, ghost head: seq<Byte>, found0: seq<seq<Byte>>)
    returns (found: seq<seq<Byte>>)
    requires key.Length == 11 && stab.Length == 256 && dec.Length == |enc| && |enc| >= 4
    requires key != stab && key != dec && stab != dec && dec[|enc| - 1] == 0
    requires |nest| == 6 && d < 6 && |head| == 5 + d && key[..5 + d] == head
    requires nest[d].start <= v
    requires found0 == Hits(Candidates(head, nest[d..], Span(nest[d..], v)), enc, KeyPattern)
    modifies key, stab, dec
    ensures key[..5 + d] == head && dec[|enc| - 1] == 0
    ensures found == Hits(Candidates(head, nest[d..], Span(nest[d..], v + 1)), enc, KeyPattern)
    decreases 6 - d, 1
  {
    var b := Wrap(nest[d].base + v);
    var f := Pass(key, stab, dec, enc, nest, d, b, head);
    assert nest[d..][0] == nest[d] && nest[d..][1..] == nest[d + 1..];
    NestStep(head, nest[d..], nest[d + 1..], v, b, enc, found0, f);
    found := found0 + f;
  }

  /** One pass of the loop at depth d: its key byte is written, then the
      loops inside it run. */
  method Pass(key: array<Byte>, stab: array<Byte>, dec: array<Byte>, enc: Ciphertext,
              nest: seq<Level>, d: nat, b: Byte, ghost head: seq<Byte>)
    returns (found: seq<seq<Byte>>)
    requires key.Length == 11 && stab.Length == 256 && dec.Length == |enc| && |enc| >= 4
    requires key != stab && key != dec && stab != dec && dec[|enc| - 1] == 0
    requires |nest| == 6 && d < 6 && |head| == 5 + d && key[..5 + d] == head
    modifies key, stab, dec
    ensures key[..5 + d] == head && dec[|enc| - 1] == 0
    ensures found == Hits(Candidates(head + [b], nest[d + 1..], Tuples(nest[d + 1..])), enc, KeyPattern)
    decreases 6 - d, 0
  {
    key[5 + d] := b;
    assert key[..5 + d + 1] == head + [b];
    found := Nest(key, stab, dec, enc, nest, d + 1, head + [b]);
    assert key[..5 + d] == (head + [b])[..5 + d];
  }

  /** One goroutine: fresh stab and dec (zeroed by make), the key "b00!"
      followed by zeros, key[4] = 0x35 + month, then the loop nest. */
  method Goroutine(month: Byte, enc: Ciphertext) returns (found: seq<seq<Byte>>)
    requires |enc| >= 4
    ensures found == Hits(GoKeys(month), enc, KeyPattern)
  {
    var stab := new Byte[256];
    var dec := new Byte[|enc|](_ => 0);
    var key := new Byte[11](_ => 0);
    key[0], key[1], key[2], key[3] := 0x62, 0x30, 0x30, 0x21;
    key[4] := Wrap(0x35 + month);
    assert key[..5] == MonthHead(month);
    found := Nest(key, stab, dec, enc, GoLevels, 0, key[..5]);
    assert GoLevels[0..] == GoLevels;
  }

  /** Every buffer sent for a loop nest comes from a pass of the nest. */
  lemma HitFromPass(head: seq<Byte>, nest: seq<Level>, enc: Ciphertext, d: seq<Byte>)
    requires |head| > 0
    requires d in Hits(Candidates(head, nest, Tuples(nest)), enc, KeyPattern)
    ensures exists t :: InBox(nest, t) && Matches(Decrypt(KeyOf(head, nest, t), enc), KeyPattern)
                        && d == Decrypt(KeyOf(head, nest, t), enc)
  {
    var ts := Tuples(nest);
    var keys := Candidates(head, nest, ts);
    HitsExactly(keys, enc, KeyPattern, d);
    var k :| 0 <= k < |keys| && Matches(Decrypt(keys[k], enc), KeyPattern) && d == Decrypt(keys[k], enc);
    var t := ts[k];
    TuplesMember(nest, t);
    CandidateAt(head, nest, ts, k);
    assert InBox(nest, t) && keys[k] == KeyOf(head, nest, t);
  }

  /** Every pass of a loop nest whose buffer starts with "Key:" sends it. */
  lemma PassHits(head: seq<Byte>, nest: seq<Level>, enc: Ciphertext, t: seq<int>)
    requires |head| > 0 && InBox(nest, t)
    requires Matches(Decrypt(KeyOf(head, nest, t), enc), KeyPattern)
    ensures Decrypt(KeyOf(head, nest, t), enc) in Hits(Candidates(head, nest, Tuples(nest)), enc, KeyPattern)
  {
    var ts := Tuples(nest);
    var keys := Candidates(head, nest, ts);
    TuplesMember(nest, t);
    var k :| 0 <= k < |ts| && ts[k] == t;
    CandidateAt(head, nest, ts, k);
    var d := Decrypt(KeyOf(head, nest, t), enc);
    assert keys[k] == KeyOf(head, nest, t);
    HitsExactly(keys, enc, KeyPattern, d);
  }

  /** A buffer is sent for a loop nest exactly when it is the worker's
      buffer, starting with "Key:", of a key whose loop values all lie in
      the loop ranges. */
  lemma NestFinds(head: seq<Byte>, nest: seq<Level>, enc: Ciphertext, d: seq<Byte>)
    requires |head| > 0
    ensures d in Hits(Candidates(head, nest, Tuples(nest)), enc, KeyPattern) <==>
      exists t :: InBox(nest, t) && Matches(Decrypt(KeyOf(head, nest, t), enc), KeyPattern)
                  && d == Decrypt(KeyOf(head, nest, t), enc)
  {
    if d in Hits(Candidates(head, nest, Tuples(nest)), enc, KeyPattern) {
      HitFromPass(head, nest, enc, d);
    }
    if exists t :: InBox(nest, t) && Matches(Decrypt(KeyOf(head, nest, t), enc), KeyPattern)
                  && d == Decrypt(KeyOf(head, nest, t), enc) {
      var t :| InBox(nest, t) && Matches(Decrypt(KeyOf(head, nest, t), enc), KeyPattern)
               && d == Decrypt(KeyOf(head, nest, t), enc);
      PassHits(head, nest, enc, t);
    }
  }

  /** A buffer is sent for a month exactly when it is the worker's buffer,
      starting with "Key:", of a key whose loop values all lie in the loop
      ranges of the goroutine. */
  lemma GoroutineFinds(month: int, enc: Ciphertext, d: seq<Byte>)
    ensures d in Hits(GoKeys(month), enc, KeyPattern) <==>
      exists t :: InBox(GoLevels, t) && Matches(Decrypt(KeyOf(MonthHead(month), GoLevels, t), enc), KeyPattern)
                  && d == Decrypt(KeyOf(MonthHead(month), GoLevels, t), enc)
  {
    NestFinds(MonthHead(month), GoLevels, enc, d);
  }

  /** One goroutine tries 30*24*7*4*2*147 keys, each once and in ascending
      order of (day, hour, vhigh, vlow, debug, lang). */
  lemma GoroutineCount()
    ensures |Tuples(GoLevels)| == 5927040
    ensures Ascending(Tuples(GoLevels))
  {
    var l0, l1, l2, l3, l4, l5 := GoLevels[0], GoLevels[1], GoLevels[2], GoLevels[3], GoLevels[4], GoLevels[5];
    assert Width(l0) == 30 && Width(l1) == 24 && Width(l2) == 7;
    assert Width(l3) == 4 && Width(l4) == 2 && Width(l5) == 147;
    var p5 := [l5];
    ProductCons(l5, []);
    var p4 := [l4] + p5;
    ProductCons(l4, p5);
    var p3 := [l3] + p4;
    ProductCons(l3, p4);
    var p2 := [l2] + p3;
    ProductCons(l2, p3);
    var p1 := [l1] + p2;
    ProductCons(l1, p2);
    var p0 := [l0] + p1;
    ProductCons(l0, p1);
    assert p0 == GoLevels;
    TuplesCount(GoLevels);
    TuplesAscending(GoLevels);
  }

  /** The buffers the goroutine of a month sends. */
  function MonthHits(enc: Ciphertext): int -> seq<seq<Byte>>
  {
    month => Hits(GoKeys(month), enc, KeyPattern)
  }

  /** The buffers of months 1..m-1, in month order, each month's as sends
      gives them. */
  function MonthsHits(sends: int -> seq<seq<Byte>>, m: nat): seq<seq<Byte>>
  {
    if m <= 1 then [] else MonthsHits(sends, m - 1) + sends(m - 1)
  }

  /** A buffer is among those of months 1..m-1 exactly when one of those
      months sends it. */
  lemma {:induction false} MonthsExactly(sends: int -> seq<seq<Byte>>, m: nat, d: seq<Byte>)
    ensures d in MonthsHits(sends, m) <==> exists month :: 1 <= month < m && d in sends(month)
  {
    if m > 1 {
      MonthsExactly(sends, m - 1, d);
      if d in sends(m - 1) {
        assert 1 <= m - 1 < m;
      }
    }
  }

  /** The month loop `for month = 1; month < 12`, each goroutine run to its
      end before the next one starts and reading the month it was started
      for. */
  method Months(enc: Ciphertext) returns (found: seq<seq<Byte>>)
    requires |enc| >= 4
    ensures found == MonthsHits(MonthHits(enc), 12)
  {
    found := [];
    var month: Byte := 1;
    while month < 12
      invariant 1 <= month <= 12
      invariant found == MonthsHits(MonthHits(enc), month)
    {
      var f := Goroutine(month, enc);
      assert f == MonthHits(enc)(month);
      found := found + f;
      month := month + 1;
    }
  }
}
