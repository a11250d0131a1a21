/** The worker goroutine of rc4-bruteforcer.go: every key of every non-empty
    slice received is run through RC4 against the ciphertext, and the
    decrypted buffer goes out on the decrypt channel when it starts with
    the known plaintext. Channels are modelled by the sequence of slices
    received and the sequence of buffers sent. */
module Worker {
  import opened Bytes
  import opened Rc4
  import opened Odometer
  import opened Batching
  import opened Dispatcher

  /** The buffer starts with the pattern, byte for byte. */
  predicate Matches(dec: seq<Byte>, pattern: seq<Byte>)
  {
    |pattern| <= |dec| && dec[..|pattern|] == pattern
  }

  /** A ciphertext the output loop can run over: `stab[i]` for i up to
      len(enc)-1 stays inside the 256-byte table. */
  type Ciphertext = s: seq<Byte> | |s| <= 256

  /** The worker's buffer for a key, as a function of the key. */
  function PlainOf(enc: Ciphertext): Key -> seq<Byte>
  {
    key => Decrypt(key, enc)
  }

  /** The buffer the worker computes for each key, in order. */
  function Plains(keys: seq<Key>, enc: Ciphertext): (bufs: seq<seq<Byte>>)
    ensures |bufs| == |keys|
  {
    Map(PlainOf(enc), keys)
  }

  /** The buffers that start with the pattern, in order. */
  function Select(bufs: seq<seq<Byte>>, pattern: seq<Byte>): (sel: seq<seq<Byte>>)
    ensures |sel| <= |bufs|
  {
    if |bufs| == 0 then []
    else
      var last := bufs[|bufs| - 1];
      Select(bufs[..|bufs| - 1], pattern) + (if Matches(last, pattern) then [last] else [])
  }

  /** The buffers sent for the keys, in order: the decryption of every key
      whose buffer starts with the pattern. */
  function Hits(keys: seq<Key>, enc: Ciphertext, pattern: seq<Byte>): (found: seq<seq<Byte>>)
    ensures |found| <= |keys|
  {
    Select(Plains(keys, enc), pattern)
  }

  /** One more key tested: its buffer is sent when it matches. */
  lemma HitsSnoc(keys: seq<Key>, key: Key, enc: Ciphertext, pattern: seq<Byte>, dec: seq<Byte>)
    requires dec == Decrypt(key, enc)
    ensures Hits(keys + [key], enc, pattern) == Hits(keys, enc, pattern) + (if Matches(dec, pattern) then [dec] else [])
  {
    MapSnoc(PlainOf(enc), keys, key);
    var bufs := Plains(keys + [key], enc);
    assert bufs[..|keys|] == Plains(keys, enc);
  }

  /** The buffer of a single key is sent when it matches. */
  lemma HitsOne(key: Key, enc: Ciphertext, pattern: seq<Byte>, dec: seq<Byte>)
    requires dec == Decrypt(key, enc)
    ensures Hits([key], enc, pattern) == if Matches(dec, pattern) then [dec] else []
  {
    HitsSnoc([], key, enc, pattern, dec);
    assert [] + [key] == [key];
  }

  /** The comparison loop: found stays true unless some byte of the pattern
      differs from the buffer. */
  method MatchPattern(dec: seq<Byte>, pattern: seq<Byte>) returns (found: bool)
    requires |pattern| <= |dec|
    ensures found == Matches(dec, pattern)
  {
    found := true;
    for i := 0 to |pattern|
      invariant found == (dec[..i] == pattern[..i])
    {
      assert dec[..i + 1] == dec[..i] + [dec[i]] && pattern[..i + 1] == pattern[..i] + [pattern[i]];
      if dec[i] != pattern[i] {
        found := false;
      }
    }
    assert pattern[..|pattern|] == pattern;
  }

  /** The work on one key: a fresh table and buffer, the decryption, the
      test. */
  method TestKey(key: Key, enc: Ciphertext, pattern: seq<Byte>) returns (found: bool, dec: seq<Byte>)
    requires |pattern| <= |enc|
    ensures dec == Decrypt(key, enc)
    ensures found == Matches(dec, pattern)
  {
    dec := DecryptFresh(key, enc);
    found := MatchPattern(dec, pattern);
  }

  /** The worker over the slices it receives until the channel closes. An
      empty slice only makes it sleep before the next receive. */
  method Work(batches: seq<seq<Key>>, enc: Ciphertext, pattern: seq<Byte>) returns (sent: seq<seq<Byte>>)
    requires |pattern| <= |enc|
    ensures sent == Hits(Flatten(batches), enc, pattern)
  {
    sent := [];
    ghost var seen: seq<Key> := [];
    for b := 0 to |batches|
      invariant seen == Flatten(batches[..b])
      invariant sent == Hits(seen, enc, pattern)
    {
      var keys := batches[b];
      FlattenSnoc(batches[..b], keys);
      PrefixSnoc(batches, b);
      if |keys| > 0 {
        for k := 0 to |keys|
          invariant seen + keys[k..] == Flatten(batches[..b + 1])
          invariant sent == Hits(seen, enc, pattern)
        {
          var found, dec := TestKey(keys[k], enc, pattern);
          SliceCons(keys, k);
          AppendAssoc(seen, [keys[k]], keys[k + 1..]);
          HitsSnoc(seen, keys[k], enc, pattern, dec);
          seen := seen + [keys[k]];
          if found {
            sent := sent + [dec];
          }
        }
        assert keys[|keys|..] == [];
      }
      assert seen == Flatten(batches[..b + 1]);
    }
    assert batches[..|batches|] == batches;
  }

  lemma PrefixSnoc<T>(s: seq<T>, b: nat)
    requires b < |s|
    ensures s[..b + 1] == s[..b] + [s[b]]
  {
  }

  lemma {:induction false} FlattenSnoc<T>(parts: seq<seq<T>>, last: seq<T>)
    ensures Flatten(parts + [last]) == Flatten(parts) + last
  {
    if |parts| == 0 {
      assert Flatten([last]) == last + Flatten([]);
    } else {
      assert (parts + [last])[1..] == parts[1..] + [last];
      FlattenSnoc(parts[1..], last);
    }
  }

  lemma {:induction false} SelectConcat(a: seq<seq<Byte>>, b: seq<seq<Byte>>, pattern: seq<Byte>)
    ensures Select(a + b, pattern) == Select(a, pattern) + Select(b, pattern)
    decreases |b|
  {
    if |b| == 0 {
      assert a + b == a;
    } else {
      var n := |b| - 1;
      assert (a + b)[..|a + b| - 1] == a + b[..n];
      SelectConcat(a, b[..n], pattern);
    }
  }

  lemma SliceCons<T>(s: seq<T>, k: nat)
    requires k < |s|
    ensures s[k..] == [s[k]] + s[k + 1..]
  {
  }

  /** The buffers found for keys split between two workers are those found
      for all the keys: the order of the work does not change what is
      found, only the order in which it is reported. */
  lemma HitsConcat(a: seq<Key>, b: seq<Key>, enc: Ciphertext, pattern: seq<Byte>)
    ensures Hits(a + b, enc, pattern) == Hits(a, enc, pattern) + Hits(b, enc, pattern)
  {
    MapConcat(PlainOf(enc), a, b);
    SelectConcat(Plains(a, enc), Plains(b, enc), pattern);
  }

  lemma {:induction false} SelectExactly(bufs: seq<seq<Byte>>, pattern: seq<Byte>, d: seq<Byte>)
    ensures d in Select(bufs, pattern) <==> exists k :: 0 <= k < |bufs| && Matches(bufs[k], pattern) && d == bufs[k]
  {
    if |bufs| > 0 {
      var n := |bufs| - 1;
      SelectExactly(bufs[..n], pattern, d);
      if exists k :: 0 <= k < |bufs| && Matches(bufs[k], pattern) && d == bufs[k] {
        var k :| 0 <= k < |bufs| && Matches(bufs[k], pattern) && d == bufs[k];
        if k < n {
          assert bufs[..n][k] == bufs[k];
        }
      }
    }
  }

  /** A buffer is reported exactly when it is the decryption of one of the
      keys and starts with the pattern. */
  lemma HitsExactly(keys: seq<Key>, enc: Ciphertext, pattern: seq<Byte>, d: seq<Byte>)
    ensures d in Hits(keys, enc, pattern) <==>
      exists k :: 0 <= k < |keys| && Matches(Decrypt(keys[k], enc), pattern) && d == Decrypt(keys[k], enc)
  {
    var bufs := Plains(keys, enc);
    SelectExactly(bufs, pattern, d);
    assert forall k :: 0 <= k < |keys| ==> bufs[k] == Decrypt(keys[k], enc);
  }

  /** For a pattern shorter than the ciphertext, the buffer of a key starts
      with the pattern exactly when RC4 under that key turns the first
      bytes of the ciphertext into the pattern. */
  lemma MatchesIsCrypt(key: seq<Byte>, enc: seq<Byte>, pattern: seq<Byte>)
    requires |key| > 0 && |pattern| < |enc| <= 256
    ensures Matches(Decrypt(key, enc), pattern) <==> Crypt(key, enc, |pattern|) == pattern
  {
    DecryptIsCrypt(key, enc);
    CryptPrefix(key, enc, |pattern|, |enc| - 1);
    assert Decrypt(key, enc)[..|pattern|] == Crypt(key, enc, |enc| - 1)[..|pattern|];
  }

  /** The right key is recognised: when the ciphertext is the RC4
      encryption under key of a plaintext that starts with the pattern, the
      buffer of that key starts with the pattern and holds the plaintext
      (but for the last byte, which the loop never writes). */
  lemma RightKeyMatches(key: seq<Byte>, plain: seq<Byte>, enc: seq<Byte>, pattern: seq<Byte>)
    requires |key| > 0 && |pattern| < |enc| <= 256 && |plain| == |enc|
    requires Matches(plain, pattern)
    requires enc[..|enc| - 1] == Crypt(key, plain, |enc| - 1)
    ensures Decrypt(key, enc)[..|enc| - 1] == plain[..|enc| - 1]
    ensures Matches(Decrypt(key, enc), pattern)
  {
    var n := |enc| - 1;
    DecryptIsCrypt(key, enc);
    CryptRoundTrip(key, plain, n);
    assert Crypt(key, enc, n) == Crypt(key, enc[..n], n) by {
      CryptSameInput(key, enc, enc[..n], n);
    }
    assert Decrypt(key, enc)[..n] == Crypt(key, enc, n);
    assert Decrypt(key, enc)[..|pattern|] == plain[..n][..|pattern|];
  }

  /** RC4 of n bytes reads only the first n bytes of its input. */
  lemma CryptSameInput(key: seq<Byte>, a: seq<Byte>, b: seq<Byte>, n: nat)
    requires |key| > 0 && n <= 255 && n <= |a| && n <= |b| && a[..n] == b[..n]
    ensures Crypt(key, a, n) == Crypt(key, b, n)
  {
    forall k | 0 <= k < n ensures a[k] == b[k] {
      assert a[..n][k] == b[..n][k];
    }
  }

  /** The whole search, dispatcher then workers: the buffers reported are
      those of the emitted keys of the walk that start with the pattern. */
  method Search(ks: Keyspace, nKeys: int, enc: Ciphertext, pattern: seq<Byte>) returns (found: seq<seq<Byte>>)
    requires WellFormed(ks) && FreeOrdered(ks) && |pattern| <= |enc|
    ensures found == Hits(Emits(ks, Enumerate(ks)), enc, pattern)
  {
    var sent := Dispatch(ks, nKeys);
    FlattenBatches(Emits(ks, Enumerate(ks)), nKeys);
    found := Work(sent, enc, pattern);
  }

}
