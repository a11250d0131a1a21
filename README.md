# rc4-bruteforcer in Dafny

rc4-bruteforcer recovers an 11-byte RC4 key by brute force. It decrypts a
fixed ciphertext under every candidate key of a constrained key space and
keeps the candidates whose plaintext starts with the known prefix `Key:`.
The repository holds three versions of the search, and this project models
the core of each:

- **rc4-bruteforcer.go.** A generic key-space enumerator and a pool of
  workers.
  - The key space is a five-row table: known byte, known flag, offset,
    minimum and maximum per key position.
  - The dispatcher walks that table like an odometer. The rightmost free
    position R is the fast digit, and the carry moves left down to the
    leftmost free position L. Each raw key plus its offsets is emitted,
    and the dispatcher sends the emitted keys in slices of `n_keys`
    (65536).
  - A worker runs the RC4 key schedule and 34 output steps for every key
    it receives, and sends the buffer when it starts with the pattern.
  - `--estimate` prints the product of the ranges of the free positions.
- **reverser.go.** Eleven goroutines, one per month 1..11. Each runs six
  nested loops (day, hour, major version, minor version, debug flag,
  language) that write key bytes 5..10, and runs the same RC4 routine on
  reused buffers.
- **reverse.c.** The same search for months 1..12, one pthread per month.
  Its loops have inclusive bounds. Each key gets 33 output steps into an
  uninitialised stack buffer; `dec[34]` is set to NUL, and the buffer is
  tested with `strncmp`.

The model is in modules:

- **Bytes:** bytes as `0..255` with explicit `% 256` wrap-around, and XOR
  defined bit by bit.
- **Rc4:** the cipher as pure functions, plus the in-place loops of the
  three programs, proved against those functions.
- **Odometer:** the dispatcher's walk as pure functions of `cur_key`.
- **Dispatcher:** the dispatcher's loops on an array, proved against
  Odometer.
- **Batching:** splitting the emitted keys into slices.
- **Counting**, **KeyOrder**, **KeyValue** and **Coverage:** the number,
  order, uniqueness and identity of the emitted keys.
- **Estimate:** `--estimate`, including Go's 64-bit `int` wrap-around.
- **Worker:** the worker and the whole search.
- **Nested:** the fixed loop nests.
- **Reverser:** reverser.go.
- **ReverseC:** reverse.c, and how its thread relates to a reverser.go
  goroutine.

Channels are modelled as the sequence of values sent on them, and printed
lines as a sequence of reports.

Where the intended behaviour and the code disagree, the model follows the
code:

- **No free position.** R is then 0, a known position, and the sweep runs
  over position 0 whenever the known byte lies below that position's
  maximum. Otherwise nothing is emitted. The model does not produce the
  single key one would expect.
- **Minimum above maximum** on a free position. Nothing rejects it, and
  the dispatcher never finishes (`Odometer.NeverFinishes`).
- **Minimum equal to maximum at R.** The inner loop tests `cur_key[R] <
  max[R]` before it writes, so no key at all is emitted.
- **A known position strictly between L and R.** The carry scans it like a
  free one and resets it to its minimum.
- **The plain product.** Each of the four cases above can make the
  product printed by `--estimate` differ from the number of emitted keys.
  The model proves that the two agree under the conditions of
  `Counting.Countable`, which exclude all four cases. Those conditions are
  sufficient, not necessary: some key spaces outside them still emit the
  estimated count. The shipped key space meets them.
- **The three programs search different keys.** reverser.go runs months
  1..11, days 1..30 and languages 0..146. reverse.c runs months 1..12,
  days 1..31 and languages 0..147. The C thread tests a buffer whose
  byte 33 is stack garbage; the Go programs decrypt that byte.

## Model

| member | source | states |
|---|---|---|
| Bytes.XorInvolution | rc4-bruteforcer/rc4-bruteforcer.go:156 | xor-ing a byte twice with the same byte gives it back, which makes the cipher its own inverse |
| Bytes.XorCommutes | rc4-bruteforcer/rc4-bruteforcer.go:156 | the byte xor is commutative |
| Rc4.Identity | rc4-bruteforcer/rc4-bruteforcer.go:127-129 | the initial table holds v at every index v |
| Rc4.Swap | rc4-bruteforcer/rc4-bruteforcer.go:137-138 | the two-assignment exchange swaps the two entries and keeps the table's multiset of values, also when both indices are equal |
| Rc4.KsaRound | rc4-bruteforcer/rc4-bruteforcer.go:134-138 | one key-schedule round keeps the table a rearrangement of the one before |
| Rc4.KsaSteps | rc4-bruteforcer/rc4-bruteforcer.go:131-145 | every table the key schedule passes through is a permutation of 0..255 |
| Rc4.Schedule | rc4-bruteforcer/rc4-bruteforcer.go:131-145 | the scheduled table is a permutation of 0..255 |
| Rc4.PrgaRound | rc4-bruteforcer/rc4-bruteforcer.go:149-156 | one output step keeps the table's values and appends exactly one keystream byte |
| Rc4.PrgaSteps | rc4-bruteforcer/rc4-bruteforcer.go:147-157 | n output steps yield n keystream bytes and keep the table a rearrangement of the scheduled one |
| Rc4.PermutationHoldsEveryByte | rc4-bruteforcer/rc4-bruteforcer.go:131-145 | a permutation table has 256 entries and contains every byte value |
| Rc4.PrgaPrefix | rc4-bruteforcer/rc4-bruteforcer.go:148-157 | the keystream of fewer steps is a prefix of the keystream of more steps |
| Rc4.CryptPrefix | rc4-bruteforcer/rc4-bruteforcer.go:148-157 | a decrypted byte does not depend on how many bytes are decrypted after it |
| Rc4.CryptRoundTrip | rc4-bruteforcer/rc4-bruteforcer.go:156 | decrypting the decryption under the same key gives back the input bytes |
| Rc4.NextKeyIndex | rc4-bruteforcer/rc4-bruteforcer.go:141-144 | the key index that is incremented and reset past keylen-1 is i mod keylen |
| Rc4.KsaStep | rc4-bruteforcer/rc4-bruteforcer.go:134-138 | the in-place round body leaves table and running index as the round function gives them |
| Rc4.ScheduleInPlace | rc4-bruteforcer/rc4-bruteforcer.go:126-145 | the identity fill and the 256 in-place rounds leave the scheduled table of the key |
| Rc4.OutputStep | rc4-bruteforcer/rc4-bruteforcer.go:149-156 | the in-place output body updates table and index as the output function does and writes dec[i-1] = keystream byte xor enc[i-1], nothing else |
| Rc4.OutputInPlace | rc4-bruteforcer/rc4-bruteforcer.go:147-157 | the output loop runs len(enc)-1 steps, leaving the table after those steps and their keystream xor-ed into every byte of dec but the last |
| Rc4.DecryptFresh | rc4-bruteforcer/rc4-bruteforcer.go:119-157 | a fresh table and zeroed buffer end as the Go buffer for the key: the decrypted bytes with a final 0 |
| Rc4.OverlayLastZero | rc4-bruteforcer/reverser.go:111-121 | a reused buffer whose last byte is 0 ends up as a fresh one would: every other byte is overwritten |
| Rc4.DecryptIsCrypt | rc4-bruteforcer/rc4-bruteforcer.go:123 | the Go buffer is the first len(enc)-1 bytes decrypted followed by the 0 the loop never writes |
| Odometer.RightmostUpTo | rc4-bruteforcer/rc4-bruteforcer.go:194-198 | after scanning positions 0..n-1 the index is the last free one, or 0 when none is free |
| Odometer.LeftmostFrom | rc4-bruteforcer/rc4-bruteforcer.go:200-204 | after scanning down to n the index is the first free one at or after n, or 0 when none is free |
| Odometer.FreeBetween | rc4-bruteforcer/rc4-bruteforcer.go:194-204 | every free position lies between L and R, and both of them are free when any position is |
| Odometer.CarryFrom | rc4-bruteforcer/rc4-bruteforcer.go:241-242 | the carry picks the first position scanning down to L that lies below its maximum; every position it passes is at or above its maximum, and with no pick all of L..R-1 are |
| Odometer.CarryPos | rc4-bruteforcer/rc4-bruteforcer.go:241 | the carried digit lies left of R |
| Odometer.SweepProgress | rc4-bruteforcer/rc4-bruteforcer.go:222-239 | the inner loop keeps free positions in bounds, does not lower cur_key, and leaves R at or above its maximum |
| Odometer.CarryInBounds | rc4-bruteforcer/rc4-bruteforcer.go:241-251 | the carry keeps every free position within its bounds |
| Odometer.CarryRaises | rc4-bruteforcer/rc4-bruteforcer.go:241-251 | a carry that finds a digit moves cur_key strictly up as a base-256 number |
| Odometer.NoCarryFinished | rc4-bruteforcer/rc4-bruteforcer.go:241-263 | when no digit can be carried after a sweep, every free position is at its maximum and the finished test holds |
| Odometer.RoundProgress | rc4-bruteforcer/rc4-bruteforcer.go:221-264 | a round keeps cur_key in bounds and, unless the walk ends, carried and strictly larger, which makes the walk terminate |
| Odometer.RunStep | rc4-bruteforcer/rc4-bruteforcer.go:221-264 | the walk from a key is its sweep followed by the walk from the next round's key, unless that round finishes |
| Odometer.InitialInBounds | rc4-bruteforcer/rc4-bruteforcer.go:182-188 | the start key respects the bounds of every free position |
| Odometer.NeverFinishes | rc4-bruteforcer/rc4-bruteforcer.go:221-264 | with a free minimum above its maximum that position never reaches its maximum, so the finished test fails after every round |
| Odometer.RoundKeepsAbove | rc4-bruteforcer/rc4-bruteforcer.go:241-251 | a position above its maximum stays above it through a round |
| Dispatcher.InitKey | rc4-bruteforcer/rc4-bruteforcer.go:182-188 | cur_key holds the known byte where the flag is 1 and the minimum elsewhere |
| Dispatcher.FindRightmost | rc4-bruteforcer/rc4-bruteforcer.go:194-198 | the forward scan yields R |
| Dispatcher.FindLeftmost | rc4-bruteforcer/rc4-bruteforcer.go:200-204 | the backward scan yields L |
| Dispatcher.CopyKey | rc4-bruteforcer/rc4-bruteforcer.go:226-231 | the copy is a fresh key of each cur_key byte plus its offset, wrapping as uint8 |
| Dispatcher.SweepAndSend | rc4-bruteforcer/rc4-bruteforcer.go:222-239 | after the inner loop, the slices sent and the open slice are the batches of the keys emitted before plus this sweep's keys, and cur_key is the sweep's end |
| Dispatcher.CarryInPlace | rc4-bruteforcer/rc4-bruteforcer.go:241-251 | the in-place carry leaves the carried key |
| Dispatcher.CheckFinished | rc4-bruteforcer/rc4-bruteforcer.go:253-258 | the flag is true exactly when every free position holds its maximum |
| Dispatcher.RoundAndSend | rc4-bruteforcer/rc4-bruteforcer.go:222-258 | one outer pass leaves the next round's key, the finished test on it, and batches extended by the sweep |
| Dispatcher.WalkStep | rc4-bruteforcer/rc4-bruteforcer.go:221-264 | the keys emitted so far followed by the rest of the walk stay the whole walk after each round, and the finishing round completes it |
| Dispatcher.WalkStart | rc4-bruteforcer/rc4-bruteforcer.go:182-188 | the walk from the start key is the whole walk |
| Dispatcher.DispatchFrom | rc4-bruteforcer/rc4-bruteforcer.go:221-264 | the outer loop sends the batches of all emitted keys, the final partial slice last |
| Dispatcher.Dispatch | rc4-bruteforcer/rc4-bruteforcer.go:172-265 | the slices sent are the emitted keys of the whole walk, in order, grouped nKeys at a time, with the final (possibly empty) slice at the end |
| Dispatcher.DispatchDefault | rc4-bruteforcer/rc4-bruteforcer.go:53 | the same with the program's slice size of 65536 |
| Batching.FlattenBatches | rc4-bruteforcer/rc4-bruteforcer.go:231-238 | the slices together hand every emitted key on exactly once and in order |
| Batching.BatchesShape | rc4-bruteforcer/rc4-bruteforcer.go:234-238 | every slice but the last is full, the last holds fewer than n keys, and there are len/n + 1 slices |
| Batching.BatchesSnoc | rc4-bruteforcer/rc4-bruteforcer.go:231-238 | appending a key joins the open slice, and a slice that becomes full is sent and a new empty one opened |
| KeyOrder.SweepKey | rc4-bruteforcer/rc4-bruteforcer.go:222-223 | key k of a sweep is cur_key with min[R]+k at R, and the sweep ends with R at its top value |
| KeyOrder.SweepAscending | rc4-bruteforcer/rc4-bruteforcer.go:222-239 | a sweep emits strictly increasing keys |
| KeyOrder.SweepBounds | rc4-bruteforcer/rc4-bruteforcer.go:222-239 | every key of a sweep lies between its first key and the key the sweep leaves |
| KeyOrder.RoundAbove | rc4-bruteforcer/rc4-bruteforcer.go:241-251 | after a carry the next round starts above every key this round emitted |
| KeyOrder.RunAbove | rc4-bruteforcer/rc4-bruteforcer.go:221-264 | no later key of the walk lies below the first key of the current sweep |
| KeyOrder.RunAscending | rc4-bruteforcer/rc4-bruteforcer.go:221-264 | the raw keys of a walk strictly increase as numbers |
| KeyOrder.EnumerateAscending | rc4-bruteforcer/rc4-bruteforcer.go:172-265 | the dispatcher's raw keys strictly increase byte by byte, so none is emitted twice |
| Counting.SweepLength | rc4-bruteforcer/rc4-bruteforcer.go:222-239 | a sweep from the minimum of R emits max[R]-min[R]+1 keys |
| Counting.DigitsIncrement | rc4-bruteforcer/rc4-bruteforcer.go:242-248 | raising one digit and resetting the maximal ones after it adds one to the mixed-radix number of L..R-1 |
| Counting.CarryCounts | rc4-bruteforcer/rc4-bruteforcer.go:241-251 | a round that carries counts the digits L..R-1 up by one |
| Counting.NoCarryCounts | rc4-bruteforcer/rc4-bruteforcer.go:241-263 | a round with nothing to carry started at the largest number |
| Counting.CarryResets | rc4-bruteforcer/rc4-bruteforcer.go:245-247 | a carry resets R to its minimum and does not finish the walk |
| Counting.RunSweeps | rc4-bruteforcer/rc4-bruteforcer.go:221-264 | from a round start every pass emits one full sweep |
| Counting.RoundsCount | rc4-bruteforcer/rc4-bruteforcer.go:221-264 | the passes still to come are the counter values still to come |
| Counting.InitialDigits | rc4-bruteforcer/rc4-bruteforcer.go:182-188 | the start key is a round start whose digits read 0 |
| Counting.EnumerateSweeps | rc4-bruteforcer/rc4-bruteforcer.go:221-264 | the walk is Total(R) passes of max[R]-min[R]+1 keys |
| Counting.EstimateIsTotal | rc4-bruteforcer/rc4-bruteforcer.go:273-278 | the estimate product is 1 before L, the mixed-radix total from L to R, and unchanged after R |
| Counting.KeyCountIsProduct | rc4-bruteforcer/rc4-bruteforcer.go:273-278 | the estimate is the number of passes times the width of a sweep |
| Counting.EnumerateCount | rc4-bruteforcer/rc4-bruteforcer.go:273-278 | under Countable the dispatcher emits exactly as many keys as `--estimate` computes |
| Coverage.InitialInSpace | rc4-bruteforcer/rc4-bruteforcer.go:182-188 | the start key is a key of the key space |
| Coverage.RoundInSpace | rc4-bruteforcer/rc4-bruteforcer.go:221-251 | under Countable a round writes only free positions and keeps them within their bounds, so cur_key stays a key of the key space |
| Coverage.SweepInSpace | rc4-bruteforcer/rc4-bruteforcer.go:222-239 | under Countable every key of a sweep is a key of the key space |
| Coverage.RunInSpace | rc4-bruteforcer/rc4-bruteforcer.go:221-264 | every key a run emits from a key of the key space is one too |
| Coverage.DigitsInjective | rc4-bruteforcer/rc4-bruteforcer.go:241-251 | within their bounds, the digits L..m-1 are determined by the mixed-radix number they form |
| Coverage.InSweep | rc4-bruteforcer/rc4-bruteforcer.go:222-239 | a key of the key space is in the sweep of the round start that has its digits L..R-1 |
| Coverage.RunCovers | rc4-bruteforcer/rc4-bruteforcer.go:221-264 | a run from a round start emits every key of the key space whose digits L..R-1 are at least the start's |
| Coverage.EnumerateExactly | rc4-bruteforcer/rc4-bruteforcer.go:172-265 | under Countable a raw key is emitted if and only if it is in the key space: free positions within their bounds, known positions at the known byte, any other position at its minimum |
| Coverage.EmittedExactly | rc4-bruteforcer/rc4-bruteforcer.go:172-265 | under Countable a key is sent if and only if it is the emitted copy (offsets added) of a key of the key space |
| Estimate.Wrap64 | rc4-bruteforcer/rc4-bruteforcer.go:273-276 | a mathematical integer held in Go's 64-bit int: in range, and unchanged when it fits |
| Estimate.WrapMul | rc4-bruteforcer/rc4-bruteforcer.go:276 | wrapping before a multiplication wraps to the same int as wrapping after it |
| Estimate.EstimateKeys | rc4-bruteforcer/rc4-bruteforcer.go:273-278 | the loop computes the product of `int(max-min)+1` over free positions (uint8 subtraction) wrapped to 64 bits, and the exact product when it fits |
| Estimate.ShippedCountable | rc4-bruteforcer/rc4-bruteforcer.go:86-91 | in the shipped key space L is 4 and R is 10, and it meets Countable |
| Estimate.ShippedKeyCount | rc4-bruteforcer/rc4-bruteforcer.go:86-91 | the shipped key space holds 12*31*24*8*5*3*148 = 158561280 keys |
| Estimate.ShippedCount | rc4-bruteforcer/rc4-bruteforcer.go:86-91 | for the shipped key space the estimate does not overflow and equals the number of keys the dispatcher emits |
| Worker.HitsSnoc | rc4-bruteforcer/rc4-bruteforcer.go:159-167 | one more key tested adds its buffer to those sent exactly when it matches |
| Worker.HitsOne | rc4-bruteforcer/rc4-bruteforcer.go:159-167 | a single key sends its buffer exactly when it matches |
| Worker.MatchPattern | rc4-bruteforcer/rc4-bruteforcer.go:159-164 | the comparison loop's flag is true exactly when the buffer starts with the pattern |
| Worker.TestKey | rc4-bruteforcer/rc4-bruteforcer.go:118-164 | one key yields the Go buffer for it and the pattern test on that buffer |
| Worker.Work | rc4-bruteforcer/rc4-bruteforcer.go:105-169 | over all slices received the worker sends the matching buffers of the keys in order; empty slices add nothing |
| Worker.SelectExactly | rc4-bruteforcer/rc4-bruteforcer.go:159-167 | a buffer is selected exactly when it is one of the buffers and starts with the pattern |
| Worker.HitsConcat | rc4-bruteforcer/rc4-bruteforcer.go:118-167 | splitting the keys between workers does not change what is found, only its order |
| Worker.HitsExactly | rc4-bruteforcer/rc4-bruteforcer.go:118-167 | a buffer is sent exactly when it is the decryption of one of the keys and starts with the pattern |
| Worker.MatchesIsCrypt | rc4-bruteforcer/rc4-bruteforcer.go:147-164 | a buffer matches exactly when the key decrypts the first ciphertext bytes to the pattern |
| Worker.RightKeyMatches | rc4-bruteforcer/rc4-bruteforcer.go:147-167 | the key that encrypted a plaintext starting with the pattern is recognised, and its buffer holds that plaintext but for the last byte |
| Worker.CryptSameInput | rc4-bruteforcer/rc4-bruteforcer.go:156 | decrypting n bytes reads only the first n bytes of the input |
| Worker.Search | rc4-bruteforcer/rc4-bruteforcer.go:306-312 | dispatcher then workers report exactly the matching buffers of the emitted keys of the walk, in walk order |
| Nested.TuplesMember | rc4-bruteforcer/reverser.go:74-85 | the loop nest passes exactly through the value tuples inside the loop ranges |
| Nested.SpanMember | rc4-bruteforcer/reverser.go:74-85 | the passes with the outer loop below e are the tuples in range whose outer value is below e |
| Nested.TuplesCount | rc4-bruteforcer/reverser.go:74-85 | the number of innermost passes is the product of the loop widths |
| Nested.SpanCount | rc4-bruteforcer/reverser.go:74-85 | the passes with the outer loop below e number its runs so far times the inner product |
| Nested.TuplesAscending | rc4-bruteforcer/reverser.go:74-85 | the passes come in strictly ascending order, innermost fastest, so no tuple repeats |
| Nested.SpanAscending | rc4-bruteforcer/reverser.go:74-85 | the passes with the outer loop below e are ascending and all have outer value below e |
| Nested.KeyOf | rc4-bruteforcer/reverser.go:75-85 | a pass's key has the fixed leading bytes followed by each loop value plus its offset, mod 256 |
| Nested.KeyOfCons | rc4-bruteforcer/reverser.go:74-75 | fixing the outer loop value moves its byte into the fixed leading bytes |
| Nested.CandidatesCons | rc4-bruteforcer/reverser.go:74-75 | fixing the outer loop value gives the keys of the inner loops with that byte fixed |
| Nested.CandidatesConcat | rc4-bruteforcer/reverser.go:74-85 | the keys of consecutive passes are the keys of each part in order |
| Nested.SpanCandidates | rc4-bruteforcer/reverser.go:74-85 | one more outer pass adds the keys of the inner loops with its byte fixed after those before |
| Reverser.MonthHead | rc4-bruteforcer/reverser.go:64-68 | key bytes 0..4 are "b00!" and 0x35 + month in uint8 arithmetic |
| Reverser.KeyPrefix | rc4-bruteforcer/reverser.go:123 | the four comparisons hold exactly when the buffer starts with "Key:" |
| Reverser.ReusedBuffer | rc4-bruteforcer/reverser.go:111-121 | the output pass over the reused dec leaves the fresh worker buffer and keeps its last byte 0 |
| Reverser.TryKey | rc4-bruteforcer/reverser.go:86-125 | the innermost body sends the worker's buffer for the key exactly when it starts with "Key:" |
| Reverser.NestStep | rc4-bruteforcer/reverser.go:74-85 | after one more pass of a loop the buffers sent are those so far followed by those of its inner loops |
| Reverser.Nest | rc4-bruteforcer/reverser.go:74-126 | the loops from depth d on send the worker's hits over their keys, in order, keeping the outer key bytes |
| Reverser.Loop | rc4-bruteforcer/reverser.go:74-85 | the loop at depth d sends the hits of all its passes |
| Reverser.Step | rc4-bruteforcer/reverser.go:74-85 | one more pass of the loop at depth d sends its hits after those of the passes before |
| Reverser.Pass | rc4-bruteforcer/reverser.go:75-85 | writing the loop's key byte and running the inner loops sends the hits of the keys with that byte |
| Reverser.Goroutine | rc4-bruteforcer/reverser.go:60-132 | a goroutine sends the worker's matching buffers of the month's keys, in loop order |
| Reverser.HitFromPass | rc4-bruteforcer/reverser.go:74-125 | every buffer sent comes from a pass inside the ranges that matches |
| Reverser.PassHits | rc4-bruteforcer/reverser.go:74-125 | every matching pass inside the ranges sends its buffer |
| Reverser.NestFinds | rc4-bruteforcer/reverser.go:74-125 | a buffer is sent exactly when it is the matching buffer of a pass inside the ranges |
| Reverser.GoroutineFinds | rc4-bruteforcer/reverser.go:74-125 | for one month a buffer is sent exactly when it matches for a key of the goroutine's loop ranges |
| Reverser.GoroutineCount | rc4-bruteforcer/reverser.go:74-85 | a goroutine tries 30*24*7*4*2*147 = 5927040 keys, each once, in ascending loop order |
| Reverser.MonthsExactly | rc4-bruteforcer/reverser.go:59-60 | a buffer is among those of months 1..m-1 exactly when one of those months sends it |
| Reverser.Months | rc4-bruteforcer/reverser.go:59-133 | the buffers sent are those of the goroutines of months 1..11, month by month |
| ReverseC.StrncmpEqual | rc4-bruteforcer/reverse.c:128 | against a string with no NUL in its first n bytes, strncmp reports equality exactly when the first n bytes agree |
| ReverseC.KeyTest | rc4-bruteforcer/reverse.c:128 | `!strncmp(dec, "Key:", 4)` holds exactly when dec starts with "Key:" |
| ReverseC.CBufferAfter | rc4-bruteforcer/reverse.c:110-126 | one key leaves 33 decrypted bytes, the untouched dec[33] and the NUL at dec[34] |
| ReverseC.ReportsConcat | rc4-bruteforcer/reverse.c:73-136 | the reports of consecutive passes are those of each part in order |
| ReverseC.ScheduleC | rc4-bruteforcer/reverse.c:87-107 | the table build and transform leave the scheduled table of the 11-byte key |
| ReverseC.TransformC | rc4-bruteforcer/reverse.c:91-107 | the transform loop with `j >= 11` reset runs the 256 key-schedule rounds, the same schedule as in the Go programs |
| ReverseC.OutputC | rc4-bruteforcer/reverse.c:109-125 | the decrypt loop runs 33 output steps and writes their keystream xor enc into dec[0..32] only |
| ReverseC.SetKey | rc4-bruteforcer/reverse.c:79-85 | the seven assignments make the key of the month and the loop values |
| ReverseC.Test | rc4-bruteforcer/reverse.c:128-132 | a report with the buffer, month and loop values exactly when the buffer starts with the bytes of "Key:" (strncmp over four bytes is that prefix test) |
| ReverseC.RunC | rc4-bruteforcer/reverse.c:87-126 | the buffer ends as the C buffer of the key with the old dec[33] |
| ReverseC.TryKeyC | rc4-bruteforcer/reverse.c:79-135 | the innermost body prints the report of this pass exactly when it matches, and keeps dec[33] |
| ReverseC.CNest | rc4-bruteforcer/reverse.c:73-136 | the loops from depth d print the reports of their passes, in order |
| ReverseC.CLoop | rc4-bruteforcer/reverse.c:73-78 | the inclusive loop at depth d prints the reports of its passes |
| ReverseC.CStep | rc4-bruteforcer/reverse.c:73-78 | one more pass prints its reports after those of the passes before |
| ReverseC.Loops | rc4-bruteforcer/reverse.c:73-136 | the six loops print the thread's reports for the byte the stack left at dec[33] |
| ReverseC.DecryptThread | rc4-bruteforcer/reverse.c:43-138 | decrypt() for a month prints exactly the thread's reports |
| ReverseC.ReportsExactly | rc4-bruteforcer/reverse.c:128-132 | a report is printed for some passes exactly when one of them prints it |
| ReverseC.ReportOf | rc4-bruteforcer/reverse.c:129-132 | a pass's report carries its month, its loop values and the 35-byte buffer |
| ReverseC.ReportFromPass | rc4-bruteforcer/reverse.c:73-132 | every report comes from a pass inside the loop ranges whose buffer starts with "Key:" |
| ReverseC.PassReported | rc4-bruteforcer/reverse.c:73-132 | every pass inside the loop ranges whose buffer starts with "Key:" prints its report |
| ReverseC.NestReports | rc4-bruteforcer/reverse.c:73-132 | a loop nest prints a report exactly for its matching passes inside the ranges |
| ReverseC.ThreadFinds | rc4-bruteforcer/reverse.c:71-136 | a thread prints a report exactly for the matching passes inside the ranges of decrypt() |
| ReverseC.ThreadCount | rc4-bruteforcer/reverse.c:12-23 | a thread runs 31*24*7*4*2*148 = 6166272 passes, each once, in ascending order |
| ReverseC.GoPassesInC | rc4-bruteforcer/reverse.c:73-78 | every pass of a reverser.go goroutine is a pass of decrypt(), which also runs day 31 and language 147 |
| ReverseC.SameBuffers | rc4-bruteforcer/reverse.c:110-126 | for the same key the C and Go buffers agree on their first 33 bytes and match "Key:" together |
| ReverseC.SameLoopBytes | rc4-bruteforcer/reverse.c:79-85 | the same loop values give the same key in both programs |
| ReverseC.GoHitsReported | rc4-bruteforcer/reverse.c:73-132 | every buffer a reverser.go goroutine sends is printed by the decrypt() thread of that month with the same first 33 bytes |
| ReverseC.ThreadMonths | rc4-bruteforcer/reverse.c:149-150 | main starts one thread for each month 1..12 |

## Left out

- Concurrency is not modelled. This covers goroutines, channels and their blocking hand-off, `sync.WaitGroup`, `time.Sleep` in the worker, and pthreads with `pthread_join`.
  - The dispatcher's slices are modelled as one sequence. Any split of the keys between workers finds the same buffers (`Worker.HitsConcat`).
  - The order in which parallel workers or threads report is not modelled.
- Worker.Work: models one worker receiving every slice, not a pool.
- Reverser.Months: runs the goroutines one after another, each with the month it was started for. In reverser.go each goroutine reads the shared loop variable `month` when it runs, which is a data race; a goroutine may see a later month, or 12. The model does not capture that race.
- reverser.go's main loop prints the first buffer it receives and exits (lines 135-138). The Go main of rc4-bruteforcer.go prints the first found key and exits. reverse.c with `-exit` ends the process at its first report. The model gives every match and leaves out the early exit, the printing and its formatting (`fmt`, `printf` with `%s`).
- The timing branch of `--estimate` is left out: its floating-point time estimate, its calibration key space (line 283) and `os.Exit`. Command-line parsing, `DBG` output and `libproc` are also left out.
- The key space must have five rows of one shared, non-empty length (`Odometer.WellFormed`). This is stricter than the Go code, which has no check. The Go code reads every row only up to the length of the first row. A row shorter than the first, or an empty first row, makes an index go out of range and panic. A longer row is accepted, and its extra entries are ignored.
- The dispatcher also requires every free minimum to lie at or below its maximum (`Odometer.FreeOrdered`), because the walk's termination measure needs it. Without that the Go loop never ends, which is proved separately (`Odometer.NeverFinishes`).
- A ciphertext longer than 256 bytes, which would make `stab[i]` panic in Go, is excluded by the type `Worker.Ciphertext`.
- ReverseC.DecryptThread: the uninitialised stack contents of `dec` are a parameter `dec0`, and only `dec0[33]` survives into the buffer. `xtab` starts with whatever the allocation held, and is overwritten before it is read.
- ReverseC.Strncmp: modelled for strings holding at least n bytes. That is all decrypt() uses, since dec has 35 bytes and the literal 5.
- The RC4 known-answer vectors of RFC 6229 are not restated: evaluating 256 schedule rounds inside the verifier is too costly. The RC4 model follows the loops of the three programs line by line instead.
- Go's `string(dec)` conversion and C's `%s` printing of a buffer that may contain NUL bytes are modelled as the raw byte sequence.
