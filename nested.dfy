/** The fixed loop nests of reverser.go and reverse.c: one counting loop
    per unknown key byte, the outermost first and the innermost varying
    fastest, each loop value plus a fixed offset giving one key byte. */
module Nested {
  import opened Bytes

  /** One loop of the nest: its first value, the first value it no longer
      runs (the loop test is `v < limit`), and the offset that turns the
      value into a key byte. */
  datatype Level = Level(start: int, limit: int, base: Byte)

  /** The tuples v with v[0] == x, for each tuple in ts. */
  function Cons(x: int, ts: seq<seq<int>>): (r: seq<seq<int>>)
    ensures |r| == |ts|
  {
    seq(|ts|, i requires 0 <= i < |ts| => [x] + ts[i])
  }

  /** The loop values the nest runs through, one tuple per innermost pass,
      in the order the passes happen. */
  function Tuples(levels: seq<Level>): (ts: seq<seq<int>>)
    ensures forall i :: 0 <= i < |ts| ==> |ts[i]| == |levels|
    decreases |levels|, 1, 0
  {
    if |levels| == 0 then [[]] else Span(levels, levels[0].limit)
  }

  /** The passes of the nest while the outermost loop runs from its start
      up to e - 1. */
  function Span(levels: seq<Level>, e: int): (ts: seq<seq<int>>)
    requires |levels| > 0
    ensures forall i :: 0 <= i < |ts| ==> |ts[i]| == |levels|
    decreases |levels|, 0, e - levels[0].start
  {
    if e <= levels[0].start then []
    else Span(levels, e - 1) + Cons(e - 1, Tuples(levels[1..]))
  }

  /** Every loop value of t lies in the range its loop runs through. */
  ghost predicate InBox(levels: seq<Level>, t: seq<int>)
  {
    |t| == |levels| && forall k :: 0 <= k < |t| ==> levels[k].start <= t[k] < levels[k].limit
  }

  /** The number of passes of one loop. */
  function Width(l: Level): nat
  {
    if l.limit <= l.start then 0 else l.limit - l.start
  }

  /** The number of innermost passes of the nest. */
  function Product(levels: seq<Level>): nat
  {
    if |levels| == 0 then 1 else Width(levels[0]) * Product(levels[1..])
  }

  lemma MemberCons(x: int, ts: seq<seq<int>>, t: seq<int>)
    ensures t in Cons(x, ts) <==> |t| > 0 && t[0] == x && t[1..] in ts
  {
    if |t| > 0 && t[0] == x && t[1..] in ts {
      var i :| 0 <= i < |ts| && ts[i] == t[1..];
      assert Cons(x, ts)[i] == t;
    }
  }

  /** The nest runs through exactly the tuples inside its ranges. */
  lemma {:induction false} TuplesMember(levels: seq<Level>, t: seq<int>)
    ensures t in Tuples(levels) <==> InBox(levels, t)
    decreases |levels|, 1, 0
  {
    if |levels| == 0 {
      assert InBox(levels, t) <==> t == [];
    } else {
      SpanMember(levels, levels[0].limit, t);
    }
  }

  /** The passes up to outer value e - 1 are the tuples inside the ranges
      whose outer value is below e. */
  lemma {:induction false} SpanMember(levels: seq<Level>, e: int, t: seq<int>)
    requires |levels| > 0 && e <= levels[0].limit
    ensures t in Span(levels, e) <==> InBox(levels, t) && t[0] < e
    decreases |levels|, 0, e - levels[0].start
  {
    var rest := levels[1..];
    if e > levels[0].start {
      SpanMember(levels, e - 1, t);
      MemberCons(e - 1, Tuples(rest), t);
      if |t| > 0 {
        TuplesMember(rest, t[1..]);
        assert InBox(levels, t) <==> levels[0].start <= t[0] < levels[0].limit && InBox(rest, t[1..]) by {
          if |t| == |levels| {
            forall k | 0 < k < |t| ensures t[k] == t[1..][k - 1] && levels[k] == rest[k - 1] {
            }
          }
        }
      }
    }
  }

  lemma ProductCons(l: Level, rest: seq<Level>)
    ensures Product([l] + rest) == Width(l) * Product(rest)
  {
    assert ([l] + rest)[1..] == rest;
  }

  lemma {:induction false} SpanCount(levels: seq<Level>, e: int)
    requires |levels| > 0
    ensures |Span(levels, e)| == (if e <= levels[0].start then 0 else e - levels[0].start) * Product(levels[1..])
    decreases |levels|, 0, e - levels[0].start
  {
    if e > levels[0].start {
      SpanCount(levels, e - 1);
      TuplesCount(levels[1..]);
      MulSucc(e - 1 - levels[0].start, Product(levels[1..]));
    }
  }

  /** The number of innermost passes is the product of the loop widths. */
  lemma {:induction false} TuplesCount(levels: seq<Level>)
    ensures |Tuples(levels)| == Product(levels)
    decreases |levels|, 1, 0
  {
    if |levels| > 0 {
      SpanCount(levels, levels[0].limit);
    }
  }

  /** a comes before b: equal up to some position, smaller there. */
  ghost predicate Before(a: seq<int>, b: seq<int>)
  {
    exists p :: 0 <= p < |a| && p < |b| && a[..p] == b[..p] && a[p] < b[p]
  }

  /** Every tuple comes before every later one, so none repeats. */
  ghost predicate Ascending(ts: seq<seq<int>>)
  {
    forall i, j :: 0 <= i < j < |ts| ==> Before(ts[i], ts[j])
  }

  lemma ConsBefore(x: int, a: seq<int>, b: seq<int>)
    requires Before(a, b)
    ensures Before([x] + a, [x] + b)
  {
    var p :| 0 <= p < |a| && p < |b| && a[..p] == b[..p] && a[p] < b[p];
    assert ([x] + a)[..p + 1] == [x] + a[..p];
    assert ([x] + b)[..p + 1] == [x] + b[..p];
  }

  lemma ConsAscending(x: int, ts: seq<seq<int>>)
    requires Ascending(ts)
    ensures Ascending(Cons(x, ts))
  {
    var c := Cons(x, ts);
    forall i, j | 0 <= i < j < |c| ensures Before(c[i], c[j]) {
      ConsBefore(x, ts[i], ts[j]);
    }
  }

  /** The nest passes its tuples in strictly ascending order, innermost
      loop fastest: no tuple is tried twice. */
  lemma {:induction false} TuplesAscending(levels: seq<Level>)
    ensures Ascending(Tuples(levels))
    decreases |levels|, 1, 0
  {
    if |levels| > 0 {
      SpanAscending(levels, levels[0].limit);
    }
  }

  lemma {:induction false} SpanAscending(levels: seq<Level>, e: int)
    requires |levels| > 0
    ensures Ascending(Span(levels, e))
    ensures forall i :: 0 <= i < |Span(levels, e)| ==> Span(levels, e)[i][0] < e
    decreases |levels|, 0, e - levels[0].start
  {
    if e > levels[0].start {
      var a, b := Span(levels, e - 1), Cons(e - 1, Tuples(levels[1..]));
      SpanAscending(levels, e - 1);
      TuplesAscending(levels[1..]);
      ConsAscending(e - 1, Tuples(levels[1..]));
      var s := a + b;
      forall i, j | 0 <= i < j < |s| ensures Before(s[i], s[j]) {
        if j < |a| {
          assert s[i] == a[i] && s[j] == a[j];
        } else if i >= |a| {
          assert s[i] == b[i - |a|] && s[j] == b[j - |a|];
        } else {
          assert s[i][0] < e - 1 && s[j][0] == e - 1;
          assert s[i][..0] == s[j][..0];
        }
      }
    }
  }

  /** The key for one pass: the fixed leading bytes, then each loop value
      plus its offset, truncated to a byte. */
  function KeyOf(head: seq<Byte>, levels: seq<Level>, t: seq<int>): (key: seq<Byte>)
    requires |t| == |levels|
    ensures |key| == |head| + |levels|
    ensures key[..|head|] == head
    ensures forall k :: 0 <= k < |levels| ==> key[|head| + k] == Wrap(levels[k].base + t[k])
  {
    head + LoopBytes(levels, t)
  }

  /** The key of each pass of the nest. A tuple of the wrong length is
      never passed; it is mapped to the leading bytes alone. */
  function KeyFn(head: Key, levels: seq<Level>): seq<int> -> Key
  {
    t => if |t| == |levels| then KeyOf(head, levels, t) else head
  }

  lemma KeyFnIs(head: Key, levels: seq<Level>, t: seq<int>)
    requires |t| == |levels|
    ensures KeyFn(head, levels)(t) == KeyOf(head, levels, t)
  {
  }

  /** The keys of the passes ts, in order. */
  function Candidates(head: Key, levels: seq<Level>, ts: seq<seq<int>>): (keys: seq<Key>)
    ensures |keys| == |ts|
  {
    Map(KeyFn(head, levels), ts)
  }

  lemma CandidateAt(head: Key, levels: seq<Level>, ts: seq<seq<int>>, k: nat)
    requires k < |ts| && |ts[k]| == |levels|
    ensures Candidates(head, levels, ts)[k] == KeyOf(head, levels, ts[k])
  {
  }

  /** The loop bytes of a key, without its leading bytes. */
  function LoopBytes(levels: seq<Level>, t: seq<int>): (bytes: seq<Byte>)
    requires |t| == |levels|
    ensures |bytes| == |levels|
  {
    seq(|levels|, k requires 0 <= k < |levels| => Wrap(levels[k].base + t[k]))
  }

  lemma LoopBytesCons(levels: seq<Level>, x: int, t: seq<int>)
    requires |levels| > 0 && |t| == |levels| - 1
    ensures LoopBytes(levels, [x] + t) == [Wrap(levels[0].base + x)] + LoopBytes(levels[1..], t)
  {
    var a, b := LoopBytes(levels, [x] + t), [Wrap(levels[0].base + x)] + LoopBytes(levels[1..], t);
    forall k | 0 < k < |levels| ensures a[k] == b[k] {
      assert ([x] + t)[k] == t[k - 1];
    }
  }

  /** One key with its outer loop value fixed: the key bytes are the same
      when that value's byte is moved to the leading bytes. */
  lemma KeyOfCons(head: seq<Byte>, levels: seq<Level>, x: int, t: seq<int>)
    requires |levels| > 0 && |t| == |levels| - 1
    ensures KeyOf(head, levels, [x] + t) == KeyOf(head + [Wrap(levels[0].base + x)], levels[1..], t)
  {
    assert KeyOf(head, levels, [x] + t) == head + LoopBytes(levels, [x] + t);
    assert KeyOf(head + [Wrap(levels[0].base + x)], levels[1..], t)
        == (head + [Wrap(levels[0].base + x)]) + LoopBytes(levels[1..], t);
    LoopBytesCons(levels, x, t);
    AppendAssoc(head, [Wrap(levels[0].base + x)], LoopBytes(levels[1..], t));
  }

  /** Fixing the outer loop value x turns its loop into one more fixed
      leading byte. */
  lemma CandidatesCons(head: Key, levels: seq<Level>, x: int, ts: seq<seq<int>>)
    requires |levels| > 0
    requires forall i :: 0 <= i < |ts| ==> |ts[i]| == |levels| - 1
    ensures Candidates(head, levels, Cons(x, ts))
         == Candidates(head + [Wrap(levels[0].base + x)], levels[1..], ts)
  {
    var a := Candidates(head, levels, Cons(x, ts));
    var b := Candidates(head + [Wrap(levels[0].base + x)], levels[1..], ts);
    forall i | 0 <= i < |ts| ensures a[i] == b[i] {
      assert Cons(x, ts)[i] == [x] + ts[i];
      KeyOfCons(head, levels, x, ts[i]);
    }
  }

  lemma CandidatesConcat(head: Key, levels: seq<Level>, a: seq<seq<int>>, b: seq<seq<int>>)
    ensures Candidates(head, levels, a + b) == Candidates(head, levels, a) + Candidates(head, levels, b)
  {
    MapConcat(KeyFn(head, levels), a, b);
  }

  /** One more pass of the outer loop, at value v: its keys follow those of
      the passes before it, and they are the keys of the inner loops with
      the byte of v fixed. */
  lemma SpanCandidates(head: Key, levels: seq<Level>, v: int)
    requires |levels| > 0 && v >= levels[0].start
    ensures Candidates(head, levels, Span(levels, v + 1))
         == Candidates(head, levels, Span(levels, v))
          + Candidates(head + [Wrap(levels[0].base + v)], levels[1..], Tuples(levels[1..]))
  {
    var rest := Tuples(levels[1..]);
    assert Span(levels, v + 1) == Span(levels, v) + Cons(v, rest);
    CandidatesConcat(head, levels, Span(levels, v), Cons(v, rest));
    CandidatesCons(head, levels, v, rest);
  }
}
