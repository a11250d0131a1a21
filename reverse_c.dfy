/** The thread body decrypt() of reverse.c, for one month: six nested
    loops with inclusive bounds, and for every key the bytes key[4..10]
    written, the table built and scheduled, 33 output steps into the stack
    buffer dec, dec[34] set to NUL, and a strncmp against "Key:". The
    buffer is never cleared, so dec[33] keeps whatever the stack held; it
    is a parameter of the model. The printed lines are modelled by the
    sequence of reports. */
module ReverseC {
  import opened Bytes
  import opened Rc4
  import opened Nested
  import opened Worker
  import opened Reverser

  /** The loops of decrypt(), outermost first, from the macros
      DAY_START..DAY_END = 1..31, HOUR 0..23, MAJOR_VERSION 5..11,
      MINOR_VERSION 0..3, DEBUG 0..1, LANGUAGE 0..147. Each loop tests
      `v <= END`, so its first value past the loop is END + 1. */
  const CLevels: seq<Level> := [
    Level(1, 31 + 1, 0x29), Level(0, 23 + 1, 0x40), Level(5, 11 + 1, 0x73),
    Level(0, 3 + 1, 0x5d), Level(0, 1 + 1, 0x3f), Level(0, 147 + 1, 0x6b)]

  /** The string literal "Key:" with its terminating NUL. */
  const KeyLiteral: seq<Byte> := [0x4b, 0x65, 0x79, 0x3a, 0]

  /** The C library strncmp: compare at most n characters as unsigned
      char, stop at the first difference (its sign is the result) or at a
      NUL both strings share. */
  function Strncmp(s1: seq<Byte>, s2: seq<Byte>, n: nat): (r: int)
    requires n <= |s1| && n <= |s2|
    ensures n == 0 ==> r == 0
  {
    if n == 0 then 0
    else if s1[0] != s2[0] then s1[0] - s2[0]
    else if s1[0] == 0 then 0
    else Strncmp(s1[1..], s2[1..], n - 1)
  }

  /** Against a string with no NUL among its first n characters, strncmp
      reports equality exactly when the first n characters agree. */
  lemma {:induction false} StrncmpEqual(s1: seq<Byte>, s2: seq<Byte>, n: nat)
    requires n <= |s1| && n <= |s2|
    requires forall k :: 0 <= k < n ==> s2[k] != 0
    ensures Strncmp(s1, s2, n) == 0 <==> s1[..n] == s2[..n]
  {
    if n > 0 && s1[0] == s2[0] {
      assert forall k :: 0 <= k < n - 1 ==> s2[1..][k] == s2[k + 1];
      StrncmpEqual(s1[1..], s2[1..], n - 1);
      assert s1[..n] == [s1[0]] + s1[1..][..n - 1];
      assert s2[..n] == [s2[0]] + s2[1..][..n - 1];
    } else if n > 0 {
      assert s1[..n][0] != s2[..n][0];
    }
  }

  /** The test `!strncmp(dec, "Key:", 4)` holds exactly when dec starts
      with the bytes of "Key:". */
  lemma KeyTest(dec: seq<Byte>)
    requires |dec| >= 4
    ensures Strncmp(dec, KeyLiteral, 4) == 0 <==> Matches(dec, KeyPattern)
  {
    StrncmpEqual(dec, KeyLiteral, 4);
    assert KeyLiteral[..4] == KeyPattern;
  }

  /** The contents of the 35-byte dec buffer. */
  type Buffer = s: seq<Byte> | |s| == 35 witness Zeros(35)

  /** The buffer decrypt() tests for a key: 33 decrypted bytes, the byte the
      stack left at dec[33], and the NUL at dec[34]. */
  function CPlain(key: Key, enc: seq<Byte>, junk: Byte): Buffer
    requires |enc| == 35
  {
    Crypt(key, enc, 33) + [junk, 0]
  }

  /** What one key leaves in dec: the 33 output steps overwrite dec[0..32],
      dec[33] keeps its byte and dec[34] becomes NUL. */
  lemma CBufferAfter(buf: seq<Byte>, key: Key, enc: seq<Byte>)
    requires |buf| == 35 && |enc| == 35
    ensures Overlay(buf, Keystream(key, 33), enc)[34 := 0] == CPlain(key, enc, buf[33])
  {
    var a, b := Overlay(buf, Keystream(key, 33), enc)[34 := 0], CPlain(key, enc, buf[33]);
    forall k | 0 <= k < 35 ensures a[k] == b[k] {
      if k < 33 {
        assert b[k] == Crypt(key, enc, 33)[k];
      }
    }
  }

  /** One printed match: the buffer (printed with %s), the month and the
      six loop values day, hour, vhigh, vlow, debug, lang. */
  datatype Report = Report(plain: seq<Byte>, month: int, values: seq<int>)

  /** The buffer tested for the pass with loop values t. */
  function PlainFn(month: int, nest: seq<Level>, enc: seq<Byte>, junk: Byte): seq<int> -> Buffer
    requires |enc| == 35
  {
    t => CPlain(KeyFn(MonthHead(month), nest)(t), enc, junk)
  }

  /** The reports printed for the passes ts, in order. */
  function Reports(month: int, nest: seq<Level>, enc: seq<Byte>, junk: Byte, ts: seq<seq<int>>): (rs: seq<Report>)
    requires |enc| == 35
    ensures |rs| <= |ts|
  {
    if |ts| == 0 then []
    else
      var t := ts[|ts| - 1];
      var p := PlainFn(month, nest, enc, junk)(t);
      Reports(month, nest, enc, junk, ts[..|ts| - 1])
        + (if Strncmp(p, KeyLiteral, 4) == 0 then [Report(p, month, t)] else [])
  }

  lemma {:induction false} ReportsConcat(month: int, nest: seq<Level>, enc: seq<Byte>, junk: Byte,
                                         a: seq<seq<int>>, b: seq<seq<int>>)
    requires |enc| == 35
    ensures Reports(month, nest, enc, junk, a + b)
         == Reports(month, nest, enc, junk, a) + Reports(month, nest, enc, junk, b)
    decreases |b|
  {
    if |b| > 0 {
      var n := |b| - 1;
      assert (a + b)[..|a + b| - 1] == a + b[..n];
      assert (a + b)[|a + b| - 1] == b[n];
      ReportsConcat(month, nest, enc, junk, a, b[..n]);
    } else {
      assert a + b == a;
    }
  }

  /** The loop values of the outer loops followed by those of the inner ones. */
  function PrefixFn(vals: seq<int>): seq<int> -> seq<int>
  {
    t => vals + t
  }

  /** The full loop values of the passes ts of the inner loops, with the
      outer loops at vals. */
  function Prefixed(vals: seq<int>, ts: seq<seq<int>>): (r: seq<seq<int>>)
    ensures |r| == |ts|
  {
    Map(PrefixFn(vals), ts)
  }

  /** Fixing one more outer value moves it into the prefix. */
  lemma PrefixedCons(vals: seq<int>, v: int, ts: seq<seq<int>>)
    ensures Prefixed(vals, Cons(v, ts)) == Prefixed(vals + [v], ts)
  {
    var a, b := Prefixed(vals, Cons(v, ts)), Prefixed(vals + [v], ts);
    forall i | 0 <= i < |ts| ensures a[i] == b[i] {
      assert Cons(v, ts)[i] == [v] + ts[i];
      AppendAssoc(vals, [v], ts[i]);
    }
  }

  /** One more pass of the loop at depth d, at value v. */
  lemma PrefixedStep(vals: seq<int>, levels: seq<Level>, v: int)
    requires |levels| > 0 && v >= levels[0].start
    ensures Prefixed(vals, Span(levels, v + 1))
         == Prefixed(vals, Span(levels, v)) + Prefixed(vals + [v], Tuples(levels[1..]))
  {
    var rest := Tuples(levels[1..]);
    assert Span(levels, v + 1) == Span(levels, v) + Cons(v, rest);
    MapConcat(PrefixFn(vals), Span(levels, v), Cons(v, rest));
    PrefixedCons(vals, v, rest);
  }

  lemma PrefixedEmpty(ts: seq<seq<int>>)
    ensures Prefixed([], ts) == ts
  {
    var a := Prefixed([], ts);
    forall i | 0 <= i < |ts| ensures a[i] == ts[i] {
      assert [] + ts[i] == ts[i];
    }
  }

  /** The reports of one pass: its report when the test holds, else none. */
  lemma ReportsOne(month: int, nest: seq<Level>, enc: seq<Byte>, junk: Byte, t: seq<int>)
    requires |enc| == 35
    ensures Reports(month, nest, enc, junk, [t])
         == (var p := PlainFn(month, nest, enc, junk)(t);
             if Strncmp(p, KeyLiteral, 4) == 0 then [Report(p, month, t)] else [])
  {
    assert [t][..0] == [];
  }

  /** The table build and key schedule of decrypt(): xtab[i] = i, then 256
      rounds with the key index j reset to 0 once it reaches 11. */
  method ScheduleC(xtab: array<Byte>, key: seq<Byte>)
    requires xtab.Length == 256 && |key| == 11
    modifies xtab
    ensures xtab[..] == Schedule(key)
  {
    var i := 0;
    while i < 256
      invariant 0 <= i <= 256
      invariant forall k :: 0 <= k < i ==> xtab[k] == k
    {
      xtab[i] := i;
      i := i + 1;
    }
    assert xtab[..] == Identity();
    TransformC(xtab, key);
  }

  /** The "Transform table" loop of decrypt(), from the identity table. */
  method TransformC(xtab: array<Byte>, key: seq<Byte>)
    requires xtab.Length == 256 && |key| == 11 && xtab[..] == Identity()
    modifies xtab
    ensures xtab[..] == Schedule(key)
  {
    var j := 0;
    var byte2: Byte := 0;
    ghost var st := KsaSteps(key, 0);
    var i := 0;
    while i < 256
      invariant 0 <= i <= 256
      invariant j == i % |key|
      invariant st == KsaSteps(key, i)
      invariant xtab[..] == st.table && byte2 == st.j
    {
      byte2 := KsaStep(xtab, i, byte2, key[j], key, st);
      KsaNext(key, i);
      st := Ksa(xtab[..], byte2);
      NextKeyIndex(i, |key|);
      j := j + 1;
      if j >= 11 {
        j := 0;
      }
      i := i + 1;
    }
  }

  /** The decrypt loop of decrypt(): `for (i = 1; i < 34; i++)`, 33 output
      steps writing dec[0..32]. */
  method OutputC(xtab: array<Byte>, enc: seq<Byte>, dec: array<Byte>)
    requires xtab.Length == 256 && dec.Length == 35 && |enc| == 35 && xtab != dec
    modifies xtab, dec
    ensures xtab[..] == PrgaSteps(old(xtab[..]), 33).table
    ensures dec[..] == Overlay(old(dec[..]), PrgaSteps(old(xtab[..]), 33).stream, enc)
  {
    ghost var t0 := xtab[..];
    ghost var d0 := dec[..];
    ghost var st := PrgaSteps(t0, 0);
    var j: Byte := 0;
    var i := 1;
    while i < 34
      invariant 1 <= i <= 34
      invariant st == PrgaSteps(t0, i - 1)
      invariant xtab[..] == st.table && j == st.j
      invariant dec[..] == Overlay(d0, st.stream, enc)
    {
      var out;
      j, out := OutputStep(xtab, dec, enc, i, j, st);
      PrgaNext(t0, i - 1);
      OverlayNext(d0, st.stream, out, enc);
      st := Prga(xtab[..], j, st.stream + [out]);
      i := i + 1;
    }
  }

  /** The seven key assignments of the innermost loop: key[4] from the
      month, key[5..10] from the loop values and their offsets. */
  method SetKey(key: array<Byte>, nest: seq<Level>, month: int, vals: seq<int>)
    requires key.Length == 11 && key[..4] == Known && |nest| == 6 && |vals| == 6
    modifies key
    ensures key[..] == KeyOf(MonthHead(month), nest, vals)
  {
    key[4] := Wrap(0x35 + month);
    key[5] := Wrap(nest[0].base + vals[0]);
    key[6] := Wrap(nest[1].base + vals[1]);
    key[7] := Wrap(nest[2].base + vals[2]);
    key[8] := Wrap(nest[3].base + vals[3]);
    key[9] := Wrap(nest[4].base + vals[4]);
    key[10] := Wrap(nest[5].base + vals[5]);
    ghost var k := KeyOf(MonthHead(month), nest, vals);
    forall i | 0 <= i < 11 ensures key[i] == k[i] {
      if i < 4 {
        assert key[..4][i] == key[i] && k[..5][i] == k[i];
      } else if i > 4 {
        assert k[5 + (i - 5)] == Wrap(nest[i - 5].base + vals[i - 5]);
      }
    }
  }

  /** The test of decrypt() on the buffer: a report when it starts with "Key:". */
  method Test(dec: array<Byte>, month: int, vals: seq<int>) returns (reports: seq<Report>)
    requires dec.Length == 35
    ensures reports == if Matches(dec[..], KeyPattern) then [Report(dec[..], month, vals)] else []
  {
    KeyTest(dec[..]);
    if Strncmp(dec[..], KeyLiteral, 4) == 0 {
      reports := [Report(dec[..], month, vals)];
    } else {
      reports := [];
    }
  }

  /** The RC4 part of the innermost loop for the key in key: the table
      build and schedule, the decrypt loop, and `dec[34] = '\0'`. */
  method RunC(key: array<Byte>, xtab: array<Byte>, dec: array<Byte>, enc: seq<Byte>)
    requires key.Length == 11 && xtab.Length == 256 && dec.Length == 35 && |enc| == 35
    requires key != xtab && key != dec && xtab != dec
    modifies xtab, dec
    ensures dec[..] == CPlain(key[..], enc, old(dec[33]))
  {
    ghost var k: Key := key[..];
    ghost var d0 := dec[..];
    ScheduleC(xtab, key[..]);
    OutputC(xtab, enc, dec);
    ghost var d1 := dec[..];
    assert d1 == Overlay(d0, Keystream(k, 33), enc);
    dec[34] := 0;
    assert dec[..] == d1[34 := 0];
    CBufferAfter(d0, k, enc);
  }

  /** The buffer of a pass of the nest is that of its key. */
  lemma PlainFnIs(month: int, nest: seq<Level>, enc: seq<Byte>, junk: Byte, t: seq<int>)
    requires |enc| == 35 && |t| == |nest|
    ensures PlainFn(month, nest, enc, junk)(t) == CPlain(KeyOf(MonthHead(month), nest, t), enc, junk)
  {
    KeyFnIs(MonthHead(month), nest, t);
  }

  /** The body of the innermost loop: the key bytes, the RC4 pass into dec,
      and the test. */
  method TryKeyC(key: array<Byte>, xtab: array<Byte>, dec: array<Byte>, enc: seq<Byte>,
                 nest: seq<Level>, month: int, vals: seq<int>)
    returns (reports: seq<Report>)
    requires key.Length == 11 && xtab.Length == 256 && dec.Length == 35 && |enc| == 35
    requires key != xtab && key != dec && xtab != dec
    requires key[..4] == Known && |nest| == 6 && |vals| == 6
    modifies key, xtab, dec
    ensures key[..4] == Known && dec[33] == old(dec[33])
    ensures reports == Reports(month, nest, enc, old(dec[33]), [vals])
  {
    ghost var junk := dec[33];
    SetKey(key, nest, month, vals);
    RunC(key, xtab, dec, enc);
    PlainFnIs(month, nest, enc, junk, vals);
    ReportsOne(month, nest, enc, junk, vals);
    reports := Test(dec, month, vals);
    KeyTest(dec[..]);
    assert key[..4] == MonthHead(month)[..4];
  }

  /** The loops at depth d and inside it, with the outer loops at vals:
      the reports are those of the passes these loops run, in order. */
  method CNest(key: array<Byte>, xtab: array<Byte>, dec: array<Byte>, enc: seq<Byte>,
               nest: seq<Level>, d: nat, month: int, vals: seq<int>)
    returns (reports: seq<Report>)
    requires key.Length == 11 && xtab.Length == 256 && dec.Length == 35 && |enc| == 35
    requires key != xtab && key != dec && xtab != dec
    requires key[..4] == Known && |nest| == 6 && d <= 6 && |vals| == d
    modifies key, xtab, dec
    ensures key[..4] == Known && dec[33] == old(dec[33])
    ensures reports == Reports(month, nest, enc, old(dec[33]), Prefixed(vals, Tuples(nest[d..])))
    decreases 6 - d, 2
  {
    if d == 6 {
      assert Prefixed(vals, Tuples(nest[d..])) == [vals] by {
        assert Tuples(nest[d..]) == [[]];
        assert vals + [] == vals;
      }
      reports := TryKeyC(key, xtab, dec, enc, nest, month, vals);
    } else {
      reports := CLoop(key, xtab, dec, enc, nest, d, month, vals);
    }
  }

  /** The loop at depth d, `for (v = START; v <= END; v++)`. */
  method CLoop(key: array<Byte>, xtab: array<Byte>, dec: array<Byte>, enc: seq<Byte>,
               nest: seq<Level>, d: nat, month: int, vals: seq<int>)
    returns (reports: seq<Report>)
    requires key.Length == 11 && xtab.Length == 256 && dec.Length == 35 && |enc| == 35
    requires key != xtab && key != dec && xtab != dec
    requires key[..4] == Known && |nest| == 6 && d < 6 && |vals| == d
    modifies key, xtab, dec
    ensures key[..4] == Known && dec[33] == old(dec[33])
    ensures reports == Reports(month, nest, enc, old(dec[33]), Prefixed(vals, Span(nest[d..], nest[d].limit)))
    decreases 6 - d, 1
  {
    ghost var junk := dec[33];
    reports := [];
    var v := nest[d].start;
    assert Span(nest[d..], v) == [];
    assert Prefixed(vals, []) == [];
    while v <= nest[d].limit - 1
      invariant v == nest[d].start || nest[d].start < v <= nest[d].limit
      invariant key[..4] == Known && dec[33] == junk
      invariant reports == Reports(month, nest, enc, junk, Prefixed(vals, Span(nest[d..], v)))
    {
      reports := CStep(key, xtab, dec, enc, nest, d, month, vals, v, reports);
      v := v + 1;
    }
  }

  /** One pass of the loop at depth d, at value v: the loops inside it run
      with v added to the loop values. */
  method CStep(key: array<Byte>, xtab: array<Byte>, dec: array<Byte>, enc: seq<Byte>,
               nest: seq<Level>, d: nat, month: int, vals: seq<int>, v: int, reports0: seq<Report>)
    returns (reports: seq<Report>)
    requires key.Length == 11 && xtab.Length == 256 && dec.Length == 35 && |enc| == 35
    requires key != xtab && key != dec && xtab != dec
    requires key[..4] == Known && |nest| == 6 && d < 6 && |vals| == d
    requires nest[d].start <= v
    requires reports0 == Reports(month, nest, enc, dec[33], Prefixed(vals, Span(nest[d..], v)))
    modifies key, xtab, dec
    ensures key[..4] == Known && dec[33] == old(dec[33])
    ensures reports == Reports(month, nest, enc, old(dec[33]), Prefixed(vals, Span(nest[d..], v + 1)))
    decreases 6 - d, 0
  {
    ghost var junk := dec[33];
    var r := CNest(key, xtab, dec, enc, nest, d + 1, month, vals + [v]);
    assert nest[d..][0] == nest[d] && nest[d..][1..] == nest[d + 1..];
    PrefixedStep(vals, nest[d..], v);
    ReportsConcat(month, nest, enc, junk, Prefixed(vals, Span(nest[d..], v)), Prefixed(vals + [v], Tuples(nest[d + 1..])));
    reports := reports0 + r;
  }

  /** The reports of the thread for a month, when the stack left junk at
      dec[33]. */
  function ThreadReports(month: int, enc: seq<Byte>, junk: Byte): seq<Report>
    requires |enc| == 35
  {
    Reports(month, CLevels, enc, junk, Tuples(CLevels))
  }

  /** decrypt() for one thread: the key "b00!" followed by zeros, xtab and
      dec uninitialised (dec0 stands for what the stack holds), then the
      loop nest. */
  method DecryptThread(month: int, enc: seq<Byte>, dec0: seq<Byte>) returns (reports: seq<Report>)
    requires |enc| == 35 && |dec0| == 35
    ensures reports == ThreadReports(month, enc, dec0[33])
  {
    var dec := new Byte[35](i requires 0 <= i < 35 => dec0[i]);
    var xtab := new Byte[256];
    var key := new Byte[11](_ => 0);
    key[0], key[1], key[2], key[3] := 0x62, 0x30, 0x30, 0x21;
    assert key[..4] == Known;
    reports := Loops(key, xtab, dec, enc, month);
  }

  /** The six loops of decrypt() over the key, table and buffer. */
  method Loops(key: array<Byte>, xtab: array<Byte>, dec: array<Byte>, enc: seq<Byte>, month: int)
    returns (reports: seq<Report>)
    requires key.Length == 11 && xtab.Length == 256 && dec.Length == 35 && |enc| == 35
    requires key != xtab && key != dec && xtab != dec && key[..4] == Known
    modifies key, xtab, dec
    ensures reports == ThreadReports(month, enc, old(dec[33]))
  {
    ghost var junk := dec[33];
    reports := CNest(key, xtab, dec, enc, CLevels, 0, month, []);
    WholeNest(month, CLevels, enc, junk);
  }

  /** The nest from depth 0 with no outer values runs all its passes. */
  lemma WholeNest(month: int, nest: seq<Level>, enc: seq<Byte>, junk: Byte)
    requires |enc| == 35
    ensures Reports(month, nest, enc, junk, Prefixed([], Tuples(nest[0..])))
         == Reports(month, nest, enc, junk, Tuples(nest))
  {
    assert nest[0..] == nest;
    PrefixedEmpty(Tuples(nest));
  }

  /** Pass k of ts prints report r. */
  ghost predicate ReportedAt(month: int, nest: seq<Level>, enc: seq<Byte>, junk: Byte,
                             ts: seq<seq<int>>, k: int, r: Report)
    requires |enc| == 35
  {
    0 <= k < |ts| &&
    var p := PlainFn(month, nest, enc, junk)(ts[k]);
    Strncmp(p, KeyLiteral, 4) == 0 && r == Report(p, month, ts[k])
  }

  /** A report is printed for the passes ts exactly when one of them prints it. */
  lemma {:induction false} ReportsExactly(month: int, nest: seq<Level>, enc: seq<Byte>, junk: Byte,
                                          ts: seq<seq<int>>, r: Report)
    requires |enc| == 35
    ensures r in Reports(month, nest, enc, junk, ts) <==>
      exists k :: ReportedAt(month, nest, enc, junk, ts, k, r)
    decreases |ts|
  {
    if |ts| > 0 {
      var n := |ts| - 1;
      var init := ts[..n];
      var p := PlainFn(month, nest, enc, junk)(ts[n]);
      var last := if Strncmp(p, KeyLiteral, 4) == 0 then [Report(p, month, ts[n])] else [];
      assert Reports(month, nest, enc, junk, ts) == Reports(month, nest, enc, junk, init) + last;
      ReportsExactly(month, nest, enc, junk, init, r);
      if r in Reports(month, nest, enc, junk, init) {
        var k :| ReportedAt(month, nest, enc, junk, init, k, r);
        assert init[k] == ts[k];
        assert ReportedAt(month, nest, enc, junk, ts, k, r);
      } else if r in last {
        assert ReportedAt(month, nest, enc, junk, ts, n, r);
      }
      if exists k :: ReportedAt(month, nest, enc, junk, ts, k, r) {
        var k :| ReportedAt(month, nest, enc, junk, ts, k, r);
        if k < n {
          assert init[k] == ts[k];
          assert ReportedAt(month, nest, enc, junk, init, k, r);
        } else {
          assert r in last;
        }
      }
    }
  }

  /** The report a pass with loop values t prints when its buffer starts
      with "Key:". */
  function ReportOf(month: int, nest: seq<Level>, enc: seq<Byte>, junk: Byte, t: seq<int>): (r: Report)
    requires |enc| == 35 && |t| == |nest|
    ensures r.month == month && r.values == t && |r.plain| == 35
  {
    Report(CPlain(KeyOf(MonthHead(month), nest, t), enc, junk), month, t)
  }

  /** Every report of a loop nest comes from a pass inside its ranges whose
      buffer starts with "Key:". */
  lemma ReportFromPass(month: int, nest: seq<Level>, enc: seq<Byte>, junk: Byte, r: Report)
    requires |enc| == 35
    requires r in Reports(month, nest, enc, junk, Tuples(nest))
    ensures exists t :: InBox(nest, t) && r == ReportOf(month, nest, enc, junk, t) && Matches(r.plain, KeyPattern)
  {
    var ts := Tuples(nest);
    ReportsExactly(month, nest, enc, junk, ts, r);
    var k :| ReportedAt(month, nest, enc, junk, ts, k, r);
    var t := ts[k];
    TuplesMember(nest, t);
    PlainFnIs(month, nest, enc, junk, t);
    KeyTest(r.plain);
    assert InBox(nest, t) && r == ReportOf(month, nest, enc, junk, t);
  }

  /** Every pass inside the ranges whose buffer starts with "Key:" prints
      its report. */
  lemma PassReported(month: int, nest: seq<Level>, enc: seq<Byte>, junk: Byte, t: seq<int>)
    requires |enc| == 35 && InBox(nest, t)
    requires Matches(ReportOf(month, nest, enc, junk, t).plain, KeyPattern)
    ensures ReportOf(month, nest, enc, junk, t) in Reports(month, nest, enc, junk, Tuples(nest))
  {
    var ts := Tuples(nest);
    var r := ReportOf(month, nest, enc, junk, t);
    TuplesMember(nest, t);
    var k :| 0 <= k < |ts| && ts[k] == t;
    PlainFnIs(month, nest, enc, junk, t);
    KeyTest(r.plain);
    assert ReportedAt(month, nest, enc, junk, ts, k, r);
    ReportsExactly(month, nest, enc, junk, ts, r);
  }

  /** A loop nest prints a report exactly for its passes inside the ranges
      whose buffer starts with "Key:". */
  lemma NestReports(month: int, nest: seq<Level>, enc: seq<Byte>, junk: Byte, r: Report)
    requires |enc| == 35
    ensures r in Reports(month, nest, enc, junk, Tuples(nest)) <==>
      exists t :: InBox(nest, t) && r == ReportOf(month, nest, enc, junk, t) && Matches(r.plain, KeyPattern)
  {
    if r in Reports(month, nest, enc, junk, Tuples(nest)) {
      ReportFromPass(month, nest, enc, junk, r);
    }
    if exists t :: InBox(nest, t) && r == ReportOf(month, nest, enc, junk, t) && Matches(r.plain, KeyPattern) {
      var t :| InBox(nest, t) && r == ReportOf(month, nest, enc, junk, t) && Matches(r.plain, KeyPattern);
      PassReported(month, nest, enc, junk, t);
    }
  }

  /** A thread prints a report exactly for the passes inside the loop
      ranges of decrypt() whose buffer starts with "Key:", each with its
      month and loop values. */
  lemma ThreadFinds(month: int, enc: seq<Byte>, junk: Byte, r: Report)
    requires |enc| == 35
    ensures r in ThreadReports(month, enc, junk) <==>
      exists t :: InBox(CLevels, t) && r == ReportOf(month, CLevels, enc, junk, t) && Matches(r.plain, KeyPattern)
  {
    NestReports(month, CLevels, enc, junk, r);
  }

  /** One thread runs 31*24*7*4*2*148 passes, each once, in ascending
      order of (day, hour, vhigh, vlow, debug, lang). */
  lemma ThreadCount()
    ensures |Tuples(CLevels)| == 6166272
    ensures Ascending(Tuples(CLevels))
  {
    var l0, l1, l2, l3, l4, l5 := CLevels[0], CLevels[1], CLevels[2], CLevels[3], CLevels[4], CLevels[5];
    assert Width(l0) == 31 && Width(l1) == 24 && Width(l2) == 7;
    assert Width(l3) == 4 && Width(l4) == 2 && Width(l5) == 148;
    var p5 := [l5];
    ProductCons(l5, []);
    var p4 := [l4] + p5;
    ProductCons(l4, p5);
    var p3 := [l3] + p4;
    ProductCons(l3, p4);
    var p2 := [l2] + p3;
    ProductCons(l2, p3);
    var p1 := [l1] + p2;
    ProductCons(l1, p2);
    var p0 := [l0] + p1;
    ProductCons(l0, p1);
    assert p0 == CLevels;
    TuplesCount(CLevels);
    TuplesAscending(CLevels);
  }

  /** Every pass of a reverser.go goroutine is a pass of decrypt(), which
      also runs day 31 and lang 147 (its loops test `<=`, the Go loops `<`). */
  lemma GoPassesInC()
    ensures forall t :: InBox(GoLevels, t) ==> InBox(CLevels, t)
    ensures InBox(CLevels, [31, 0, 5, 0, 0, 0]) && !InBox(GoLevels, [31, 0, 5, 0, 0, 0])
    ensures InBox(CLevels, [1, 0, 5, 0, 0, 147]) && !InBox(GoLevels, [1, 0, 5, 0, 0, 147])
  {
    forall t | InBox(GoLevels, t) ensures InBox(CLevels, t) {
      forall k | 0 <= k < 6 ensures CLevels[k].start <= t[k] < CLevels[k].limit {
        assert GoLevels[k].start == CLevels[k].start && GoLevels[k].limit <= CLevels[k].limit;
      }
    }
    var a, b := [31, 0, 5, 0, 0, 0], [1, 0, 5, 0, 0, 147];
    assert a[0] == 31 == GoLevels[0].limit && b[5] == 147 == GoLevels[5].limit;
    forall k | 0 <= k < 6 ensures CLevels[k].start <= a[k] < CLevels[k].limit && CLevels[k].start <= b[k] < CLevels[k].limit {
    }
  }

  /** For the same key, the C buffer and the Go buffer agree on their first
      33 bytes, and so start with "Key:" together; they differ only at
      dec[33] (the stack byte in C, the 34th decrypted byte in Go). */
  lemma SameBuffers(key: Key, enc: seq<Byte>, junk: Byte)
    requires |enc| == 35
    ensures CPlain(key, enc, junk)[..33] == Decrypt(key, enc)[..33]
    ensures Matches(CPlain(key, enc, junk), KeyPattern) <==> Matches(Decrypt(key, enc), KeyPattern)
  {
    var c, g := CPlain(key, enc, junk), Decrypt(key, enc);
    DecryptIsCrypt(key, enc);
    CryptPrefix(key, enc, 33, 34);
    assert c[..33] == Crypt(key, enc, 33);
    assert g[..33] == Crypt(key, enc, 34)[..33];
    assert c[..4] == c[..33][..4] && g[..4] == g[..33][..4];
  }

  /** Every buffer a reverser.go goroutine sends for a month is printed by
      the decrypt() thread of that month, with the same first 33 bytes and
      the loop values of its key. */
  lemma GoHitsReported(month: int, enc: seq<Byte>, junk: Byte, d: seq<Byte>)
    requires |enc| == 35
    requires d in Hits(GoKeys(month), enc, KeyPattern)
    ensures exists t :: InBox(GoLevels, t) && d == Decrypt(KeyOf(MonthHead(month), GoLevels, t), enc)
                        && ReportOf(month, CLevels, enc, junk, t) in ThreadReports(month, enc, junk)
                        && ReportOf(month, CLevels, enc, junk, t).plain[..33] == d[..33]
  {
    GoroutineFinds(month, enc, d);
    var t :| InBox(GoLevels, t) && Matches(Decrypt(KeyOf(MonthHead(month), GoLevels, t), enc), KeyPattern)
             && d == Decrypt(KeyOf(MonthHead(month), GoLevels, t), enc);
    GoPassesInC();
    var key := KeyOf(MonthHead(month), CLevels, t);
    SameLoopBytes(MonthHead(month), t);
    SameBuffers(key, enc, junk);
    PassReported(month, CLevels, enc, junk, t);
  }

  /** The two nests give the same offsets, so the same loop values make the
      same key. */
  lemma SameLoopBytes(head: Key, t: seq<int>)
    requires |t| == 6
    ensures KeyOf(head, GoLevels, t) == KeyOf(head, CLevels, t)
  {
    var a, b := KeyOf(head, GoLevels, t), KeyOf(head, CLevels, t);
    forall i | 0 <= i < |a| ensures a[i] == b[i] {
      if i < |head| {
        assert a[..|head|][i] == b[..|head|][i];
      } else {
        assert GoLevels[i - |head|].base == CLevels[i - |head|].base;
        assert a[|head| + (i - |head|)] == b[|head| + (i - |head|)];
      }
    }
  }

  /** The month of each thread main() starts: `dcargs[i].month =
      MONTH_START + i` for i below N_THREADS = MONTH_END - MONTH_START + 1. */
  method ThreadMonths() returns (months: seq<int>)
    ensures |months| == 12
    ensures forall m :: m in months <==> 1 <= m <= 12
  {
    months := [];
    var i := 0;
    while i < 12 - 1 + 1
      invariant 0 <= i <= 12 && |months| == i
      invariant forall k :: 0 <= k < i ==> months[k] == 1 + k
    {
      months := months + [1 + i];
      i := i + 1;
    }
    forall m ensures m in months <==> 1 <= m <= 12 {
      if 1 <= m <= 12 {
        assert months[m - 1] == m;
      }
    }
  }
}
