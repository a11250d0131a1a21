/** The RC4 routine that every candidate key goes through: an identity
    substitution table, the key-scheduling pass, and the output pass whose
    bytes are xor-ed into the ciphertext. The pure functions are the
    specification; ScheduleInPlace and OutputInPlace are the Go loops
    (rc4-bruteforcer.go and reverser.go carry the same code), which work in
    place on a 256-entry table, and KsaStep and OutputStep are the loop
    bodies the C loops of reverse.c share with them. */
module Rc4 {
  import opened Bytes

  /** The table as the programs initialise it: entry v holds v. */
  function Identity(): (s: seq<Byte>)
    ensures |s| == 256 && forall v :: 0 <= v < 256 ==> s[v] == v
  {
    seq(256, v requires 0 <= v < 256 => v)
  }

  /** A table is a permutation of the byte values 0..255. */
  ghost predicate IsPermutation(s: seq<Byte>)
  {
    multiset(s) == multiset(Identity())
  }

  /** `s[a], s[b] = s[b], s[a]`, written as the programs do: first
      s[a] := s[b], then s[b] := the old s[a] (also right when a == b). */
  function Swap(s: seq<Byte>, a: int, b: int): (t: seq<Byte>)
    requires 0 <= a < |s| && 0 <= b < |s|
    ensures |t| == |s| && multiset(t) == multiset(s)
    ensures t[a] == s[b] && t[b] == s[a]
  {
    s[a := s[b]][b := s[a]]
  }

  /** State of the key schedule: the table and the running index byte2. */
  datatype Ksa = Ksa(table: seq<Byte>, j: Byte)

  /** The running index of a key-schedule round: table[i] plus the previous
      index plus the key byte, wrapping at 256 (`& 0xff` on uint8). */
  function KsaIndex(byte1: Byte, j: Byte, keyByte: Byte): (byte2: Byte)
    ensures byte2 == (byte1 + j + keyByte) % 256
  {
    Wrap(byte1 + j + keyByte)
  }

  /** Round i of the key schedule: add table[i] and the key byte at
      i mod keylen to the running index, then swap table[i] with the entry
      that index names. */
  function KsaRound(key: seq<Byte>, st: Ksa, i: nat): (next: Ksa)
    requires |key| > 0 && |st.table| == 256 && i < 256
    ensures |next.table| == 256 && multiset(next.table) == multiset(st.table)
  {
    var byte2 := KsaIndex(st.table[i], st.j, key[i % |key|]);
    Ksa(Swap(st.table, i, byte2), byte2)
  }

  /** The key schedule after its first n rounds, starting from the identity
      table; every table it passes through is a permutation. */
  function KsaSteps(key: seq<Byte>, n: nat): (st: Ksa)
    requires |key| > 0 && n <= 256
    ensures |st.table| == 256 && IsPermutation(st.table)
  {
    if n == 0 then Ksa(Identity(), 0) else KsaRound(key, KsaSteps(key, n - 1), n - 1)
  }

  /** A round that computes the index byte2 swaps table[i] and table[byte2]. */
  lemma KsaRoundIs(key: seq<Byte>, st: Ksa, i: nat, byte2: Byte)
    requires |key| > 0 && |st.table| == 256 && i < 256
    requires byte2 == KsaIndex(st.table[i], st.j, key[i % |key|])
    ensures KsaRound(key, st, i) == Ksa(Swap(st.table, i, byte2), byte2)
  {
  }

  /** Round i + 1 of the schedule is round i followed by KsaRound. */
  lemma KsaNext(key: seq<Byte>, i: nat)
    requires |key| > 0 && i < 256
    ensures KsaSteps(key, i + 1) == KsaRound(key, KsaSteps(key, i), i)
  {
    assert KsaSteps(key, i + 1) == KsaRound(key, KsaSteps(key, (i + 1) - 1), (i + 1) - 1);
  }

  /** The table after the whole 256-round key schedule. */
  function Schedule(key: seq<Byte>): (table: seq<Byte>)
    requires |key| > 0
    ensures |table| == 256 && IsPermutation(table)
  {
    KsaSteps(key, 256).table
  }

  /** State of the output pass: the table, the index j and the keystream so far. */
  datatype Prga = Prga(table: seq<Byte>, j: Byte, stream: seq<Byte>)

  /** Output step i: add table[i] to j (wrapping at 256), swap table[i] and
      table[j], and yield the entry at the sum of the two swapped values,
      mod 256. */
  function PrgaRound(st: Prga, i: nat): (next: Prga)
    requires |st.table| == 256 && i < 256
    ensures |next.table| == 256 && multiset(next.table) == multiset(st.table)
    ensures |next.stream| == |st.stream| + 1 && next.stream[..|st.stream|] == st.stream
  {
    var byte1: int := st.table[i];
    var j := Wrap(st.j + byte1);
    var byte2 := st.table[j];
    var t := Swap(st.table, i, j);
    Prga(t, j, st.stream + [t[Wrap(byte1 + byte2)]])
  }

  /** The output pass after steps i = 1..n (the index i starts at 1 and never
      wraps, so at most 255 steps fit). */
  function PrgaSteps(table0: seq<Byte>, n: nat): (st: Prga)
    requires |table0| == 256 && n <= 255
    ensures |st.table| == 256 && |st.stream| == n
    ensures multiset(st.table) == multiset(table0)
  {
    if n == 0 then Prga(table0, 0, []) else PrgaRound(PrgaSteps(table0, n - 1), n)
  }

  /** An output step, given the values it reads and the byte it yields. */
  lemma PrgaRoundIs(st: Prga, i: nat, byte1: Byte, j: Byte, byte2: Byte, out: Byte)
    requires |st.table| == 256 && i < 256
    requires byte1 == st.table[i] && j == Wrap(st.j + byte1) && byte2 == st.table[j]
    requires out == Swap(st.table, i, j)[Wrap(byte1 + byte2)]
    ensures PrgaRound(st, i) == Prga(Swap(st.table, i, j), j, st.stream + [out])
  {
  }

  /** Step n + 1 of the output pass is step n followed by PrgaRound. */
  lemma PrgaNext(table0: seq<Byte>, n: nat)
    requires |table0| == 256 && n < 255
    ensures PrgaSteps(table0, n + 1) == PrgaRound(PrgaSteps(table0, n), n + 1)
  {
    assert PrgaSteps(table0, n + 1) == PrgaRound(PrgaSteps(table0, (n + 1) - 1), n + 1);
  }

  /** The first n RC4 keystream bytes for a key (no bytes are discarded). */
  function Keystream(key: seq<Byte>, n: nat): (ks: seq<Byte>)
    requires |key| > 0 && n <= 255
    ensures |ks| == n
  {
    PrgaSteps(Schedule(key), n).stream
  }

  /** The first n bytes of data xor-ed with the keystream. */
  function Crypt(key: seq<Byte>, data: seq<Byte>, n: nat): (out: seq<Byte>)
    requires |key| > 0 && n <= 255 && n <= |data|
    ensures |out| == n
  {
    var ks := Keystream(key, n);
    seq(n, k requires 0 <= k < n => Xor(ks[k], data[k]))
  }

  /** buf with its first |ks| bytes replaced by the keystream bytes ks
      xor-ed into the ciphertext: what the output loop leaves in a buffer. */
  function Overlay(buf: seq<Byte>, ks: seq<Byte>, enc: seq<Byte>): (out: seq<Byte>)
    requires |ks| <= |buf| <= |enc|
    ensures |out| == |buf|
  {
    seq(|buf|, k requires 0 <= k < |buf| => if k < |ks| then Xor(ks[k], enc[k]) else buf[k])
  }

  /** Number of output steps the loop `for i = 1; i < bound; i++` runs. */
  function OutputSteps(bound: nat): nat
  {
    if bound == 0 then 0 else bound - 1
  }

  /** n zero bytes, the contents of a fresh Go slice. */
  function Zeros(n: nat): (z: seq<Byte>)
    ensures |z| == n && forall k :: 0 <= k < n ==> z[k] == 0
  {
    seq(n, _ => 0)
  }

  /** The buffer the Go programs leave for a ciphertext: dec starts as
      len(enc) zero bytes and the output loop overwrites all but the last. */
  function Decrypt(key: seq<Byte>, enc: seq<Byte>): (dec: seq<Byte>)
    requires |key| > 0 && |enc| <= 256
    ensures |dec| == |enc|
  {
    Overlay(Zeros(|enc|), Keystream(key, OutputSteps(|enc|)), enc)
  }

  /** A permutation table holds every byte value. */
  lemma PermutationHoldsEveryByte(s: seq<Byte>)
    requires IsPermutation(s)
    ensures |s| == 256
    ensures forall v: Byte :: v in s
  {
    calc {
      |s|;
      |multiset(s)|;
      |multiset(Identity())|;
      |Identity()|;
    }
    forall v: Byte ensures v in s {
      assert Identity()[v] == v;
      assert v in multiset(Identity());
    }
  }

  /** A longer run of the output pass extends a shorter one. */
  lemma {:induction false} PrgaPrefix(table0: seq<Byte>, m: nat, n: nat)
    requires |table0| == 256 && m <= n <= 255
    ensures PrgaSteps(table0, n).stream[..m] == PrgaSteps(table0, m).stream
  {
    if m < n {
      PrgaPrefix(table0, m, n - 1);
      assert PrgaSteps(table0, n).stream[..n - 1] == PrgaSteps(table0, n - 1).stream;
    }
  }

  /** Decrypting fewer bytes gives a prefix of decrypting more: a byte's value
      does not depend on how many bytes come after it. */
  lemma CryptPrefix(key: seq<Byte>, data: seq<Byte>, m: nat, n: nat)
    requires |key| > 0 && m <= n <= 255 && n <= |data|
    ensures Crypt(key, data, n)[..m] == Crypt(key, data, m)
  {
    PrgaPrefix(Schedule(key), m, n);
    assert Keystream(key, n)[..m] == Keystream(key, m);
    forall k | 0 <= k < m ensures Keystream(key, n)[k] == Keystream(key, m)[k] {
      assert Keystream(key, n)[..m][k] == Keystream(key, n)[k];
    }
  }

  /** The cipher is its own inverse on the bytes it transforms. */
  lemma CryptRoundTrip(key: seq<Byte>, data: seq<Byte>, n: nat)
    requires |key| > 0 && n <= 255 && n <= |data|
    ensures Crypt(key, Crypt(key, data, n), n) == data[..n]
  {
    var ks := Keystream(key, n);
    forall k | 0 <= k < n ensures Crypt(key, Crypt(key, data, n), n)[k] == data[k] {
      XorInvolution(data[k], ks[k]);
      XorCommutes(data[k], ks[k]);
      XorCommutes(Xor(ks[k], data[k]), ks[k]);
    }
  }

  /** The Go key-index counter (incremented, reset to 0 past keylen-1) stays
      equal to i mod keylen. */
  lemma NextKeyIndex(i: nat, keyLen: nat)
    requires keyLen > 0
    ensures (i + 1) % keyLen == if i % keyLen == keyLen - 1 then 0 else i % keyLen + 1
  {
    var q, r := i / keyLen, i % keyLen;
    if r == keyLen - 1 {
      ModUnique(i + 1, keyLen, q + 1, 0);
    } else {
      ModUnique(i + 1, keyLen, q, r + 1);
    }
  }

  /** One round of the key-schedule loop, the same in all three programs:
      byte1 = stab[i], byte2 = (byte1 + byte2 + key byte) & 0xff, then
      stab[i] = stab[byte2] and stab[byte2] = byte1. */
  method KsaStep(stab: array<Byte>, i: nat, byte2: Byte, keyByte: Byte, ghost key: seq<Byte>, ghost st: Ksa)
    returns (byte2': Byte)
    requires stab.Length == 256 && i < 256 && |key| > 0
    requires stab[..] == st.table && byte2 == st.j && keyByte == key[i % |key|]
    modifies stab
    ensures KsaRound(key, st, i) == Ksa(stab[..], byte2')
  {
    var byte1: int := stab[i];
    assert byte1 == st.table[i];
    byte2' := KsaIndex(byte1, byte2, keyByte);
    stab[i] := stab[byte2'];
    stab[byte2'] := byte1;
    assert stab[..] == Swap(st.table, i, byte2');
    KsaRoundIs(key, st, i, byte2');
  }

  /** The table initialisation and key schedule of the Go programs
      (rc4-bruteforcer.go, reverser.go): fill stab with the identity, then run
      the 256 rounds with a key index j that wraps to 0 after keylen-1. */
  method ScheduleInPlace(stab: array<Byte>, key: seq<Byte>)
    requires stab.Length == 256 && |key| > 0
    modifies stab
    ensures stab[..] == Schedule(key)
  {
    var i := 0;
    while i < 256
      invariant 0 <= i <= 256
      invariant forall k :: 0 <= k < i ==> stab[k] == k
    {
      stab[i] := i;
      i := i + 1;
    }
    assert stab[..] == Identity();

    var j := 0;
    var byte2: Byte := 0;
    ghost var st := KsaSteps(key, 0);
    i := 0;
    while i < 256
      invariant 0 <= i <= 256
      invariant j == i % |key|
      invariant st == KsaSteps(key, i)
      invariant stab[..] == st.table && byte2 == st.j
    {
      byte2 := KsaStep(stab, i, byte2, key[j], key, st);
      KsaNext(key, i);
      st := Ksa(stab[..], byte2);
      NextKeyIndex(i, |key|);
      j := j + 1;
      if j > |key| - 1 {
        j := 0;
      }
      i := i + 1;
    }
  }

  /** One pass of the output loop, the same in all three programs:
      byte1 = stab[i], j = (j + byte1) & 0xFF, byte2 = stab[j], the swap, and
      dec[i-1] = stab[(byte1 + byte2) & 0xFF] ^ enc[i-1]. The output byte is
      returned as well, for the proof. */
  method OutputStep(stab: array<Byte>, dec: array<Byte>, enc: seq<Byte>, i: nat, j: Byte, ghost st: Prga)
    returns (j': Byte, out: Byte)
    requires stab.Length == 256 && 0 < i < 256 && i <= dec.Length && stab != dec && i <= |enc|
    requires stab[..] == st.table && j == st.j
    modifies stab, dec
    ensures PrgaRound(st, i) == Prga(stab[..], j', st.stream + [out])
    ensures dec[..] == old(dec[..])[i - 1 := Xor(out, enc[i - 1])]
  {
    var byte1: int := stab[i];
    j' := Wrap(j + byte1);
    var byte2: int := stab[j'];
    assert byte1 == st.table[i] && byte2 == st.table[j'];
    stab[i] := byte2;
    stab[j'] := byte1;
    ghost var table := Swap(st.table, i, j');
    assert stab[..] == table;
    out := stab[Wrap(byte1 + byte2)];
    assert out == table[Wrap(byte1 + byte2)];
    PrgaRoundIs(st, i, byte1, j', byte2, out);
    dec[i - 1] := Xor(out, enc[i - 1]);
    assert stab[..] == table;
  }

  /** Writing one more output byte extends the overlay by one position. */
  lemma OverlayNext(buf: seq<Byte>, ks: seq<Byte>, out: Byte, enc: seq<Byte>)
    requires |ks| < |buf| <= |enc|
    ensures Overlay(buf, ks + [out], enc) == Overlay(buf, ks, enc)[|ks| := Xor(out, enc[|ks|])]
  {
  }

  /** The output loop of the Go programs: `for i = 1; i < len(enc); i++`,
      one output step per pass. The last byte of dec is not written. */
  method OutputInPlace(stab: array<Byte>, enc: seq<Byte>, dec: array<Byte>)
    requires stab.Length == 256 && dec.Length == |enc| && |enc| <= 256
    requires stab != dec
    modifies stab, dec
    ensures stab[..] == PrgaSteps(old(stab[..]), OutputSteps(|enc|)).table
    ensures dec[..] == Overlay(old(dec[..]), PrgaSteps(old(stab[..]), OutputSteps(|enc|)).stream, enc)
  {
    ghost var t0 := stab[..];
    ghost var d0 := dec[..];
    ghost var st := PrgaSteps(t0, 0);
    ghost var n := 0;
    var j: Byte := 0;
    var i := 1;
    while i < |enc|
      invariant 1 <= i <= if |enc| == 0 then 1 else |enc|
      invariant i == n + 1 && st == PrgaSteps(t0, n)
      invariant stab[..] == st.table && j == st.j
      invariant dec[..] == Overlay(d0, st.stream, enc)
    {
      var out;
      j, out := OutputStep(stab, dec, enc, i, j, st);
      PrgaNext(t0, n);
      OverlayNext(d0, st.stream, out, enc);
      st := Prga(stab[..], j, st.stream + [out]);
      i := i + 1;
      n := n + 1;
    }
    assert n == OutputSteps(|enc|);
  }

  /** The per-candidate routine of the worker in rc4-bruteforcer.go: a
      fresh 256-byte stab and a fresh zeroed dec of len(enc) bytes, the key
      schedule, then the output loop. */
  method DecryptFresh(key: seq<Byte>, enc: seq<Byte>) returns (plain: seq<Byte>)
    requires |key| > 0 && |enc| <= 256
    ensures plain == Decrypt(key, enc)
  {
    var stab := new Byte[256];
    var dec := new Byte[|enc|](_ => 0);
    ScheduleInPlace(stab, key);
    OutputInPlace(stab, enc, dec);
    plain := dec[..];
  }

  /** A reused buffer whose last byte is 0 ends up as the Go buffer: the
      output pass overwrites every other byte. */
  lemma OverlayLastZero(buf: seq<Byte>, key: seq<Byte>, enc: seq<Byte>)
    requires |key| > 0 && 0 < |enc| <= 256 && |buf| == |enc| && buf[|enc| - 1] == 0
    ensures Overlay(buf, Keystream(key, OutputSteps(|enc|)), enc) == Decrypt(key, enc)
  {
    var ks := Keystream(key, OutputSteps(|enc|));
    var a, b := Overlay(buf, ks, enc), Decrypt(key, enc);
    forall k | 0 <= k < |enc| ensures a[k] == b[k] {
      if k == |enc| - 1 {
        assert a[k] == buf[k] && b[k] == Zeros(|enc|)[k];
      }
    }
  }

  /** For a non-empty ciphertext the Go buffer is the first len(enc)-1 bytes
      decrypted followed by the zero byte the loop never writes. */
  lemma DecryptIsCrypt(key: seq<Byte>, enc: seq<Byte>)
    requires |key| > 0 && 0 < |enc| <= 256
    ensures Decrypt(key, enc) == Crypt(key, enc, |enc| - 1) + [0]
  {
  }
}
