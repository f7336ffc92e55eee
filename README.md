# Deterministic reservations and integer radix sort, in Dafny

This project models two headers of the pbbs parallel library and proves
properties about the models.

- `speculative_for.h` contains the deterministic-reservations driver.
  - A `reservation` is a cell that keeps the smallest index claiming it, through `write_min`.
  - `speculative_for` runs the index range `[s, e)` in rounds. In a round, every slot first asks the step to `reserve`. Then every slot that reserved asks it to `commit`. The slots that reserved but did not commit are packed and retried first in the next round.
  - The round size halves when many slots failed and doubles when few did.
  - The driver gives up after `maxTries + 1` rounds.
- `integer_sort.h` contains the integer radix sorts.
  - `seq_radix_sort_` is a sequential LSD sort. It makes one stable counting-sort pass per 8-bit digit and ping-pongs between two buffers.
  - `seq_radix_sort` picks the starting buffer by the parity of the pass count.
  - `integer_sort_r` is an MSD sort. It counting-sorts on the top 8 bits, then sorts every bucket on the remaining bits.
  - `integer_sort_` derives the key width from the key range when the caller passes 0. It lowers the keys by their minimum when the range is narrow. The width it derives for unlowered keys can be too small (see Findings); the model's `integer_sort_` and the two entry points use the corrected width.
  - `integer_sort_inplace` and `integer_sort` are the entry points.

The modules:

- `RadixSpec` (`radix_spec.dfy`) is the value-level specification. It defines:
  - `Buckets(s, key, n)`, the result of a stable counting sort into n buckets;
  - `RadixSorted(s, g, bits)`, a stable sort on the low `bits` bits of the key `g`;
  - the LSD identity `LsdPass` and the MSD identity `MsdBuckets`.
- `KeyRange` (`key_range.dfy`) covers `log2_up` on 64-bit `size_t`, the min/max reduction of the keys, and the key plan of `integer_sort_`.
- `IntegerSort` (`integer_sort.dfy`) holds the sorts as methods over arrays. A slice `[lo, hi)` of an array stands for a `slice` of a sequence.
  - Each sort method states what its range holds afterwards, as `RadixSorted` or `IsStableSortOf` of the old input. The copy and counting-sort helpers state a copy, `Buckets` or `SortedBuckets`, which `LsdPass` and `MsdBuckets` tie to `RadixSorted`.
  - Every method also states that nothing outside the range changes.
- `Reservations` (`reservation.dfy`) holds:
  - the `reservation` struct, as a class over a 32-bit `intT` field;
  - `reserveLoc` on an array cell;
  - the fact that a round of claims leaves the smallest claimant in the cell, in any order.
- `SpeculativeFor` (`speculative_for.dfy`) holds:
  - the round loop as a value function `Run`, with its invariant and its soundness lemmas;
  - the driver `SpeculativeForRun`, a method with the loop and the two phase loops over the `I` and `keep` arrays. It is proved equal to `Run`.

The step `S` is given by its answers. `reserve(round, i)` and `commit(round, i)` are what the step's `reserve` and `commit` return for index i in a given round. Within one round each index occupies exactly one slot, so every deterministic step's answers over a run form such a pair of functions.

These collaborators of the core are modelled by their contracts:

- the counting sort: `CountSort`, a stable bucket sort that also returns the bucket offsets;
- `pbbs::pack`: `SpeculativeFor.Pack`;
- `log2_up`: `KeyRange.Log2Up`;
- the `minmaxm` reduction: `KeyRange.MinKey` and `KeyRange.MaxKey`.

Three things in the code differ from what its comments suggest:

- `seq_radix_sort_` uses the input as a ping-pong buffer when it is not in place. So `integer_sort`, which passes its input `In` down as that buffer, overwrites `In` when the input is shorter than 2^15 and has more than 8 key bits. The comment at integer_sort.h:64 says the wrapper avoids modifying `In`, but that holds only for the direct call. This is why `IntegerSort.IntegerSortCopy` declares `modifies a`.
- When `In` is also the temporary buffer `Tmp` (the branch integer_sort.h:70 labels "not inplace"), the parity choice in `seq_radix_sort` makes the final copy always happen. The result is then in both `Out` and `Tmp`, so `integer_sort_r`'s in-place contract holds.
- The size-adaptation tests `float(numberKeep)/float(size) > .2` and `< .1` are exact for round sizes up to 2^24.
  - The first holds exactly when `5 * numberKeep >= size`. The float one fifth is above the double `.2`, so the boundary case counts as "many failed".
  - The second holds exactly when `10 * numberKeep < size`.
  - The model uses these integer tests.

## Model

| member | source | states |
|---|---|---|
| Reservations.WriteMin | speculative_for.h:32 | the cell after a write-min is at most both its old value and the claim, and is one of them |
| Reservations.ClaimAllIsMin | speculative_for.h:32 | after a run of claims the cell holds the minimum of its old value and all the claims |
| Reservations.ClaimAllOrderFree | speculative_for.h:42-43 | claims in any order (the same multiset of claims) leave the same value in the cell |
| Reservations.ClaimedWinner | speculative_for.h:31-33 | a fresh cell claimed by a round holds a value at most every claim, and is reserved once any claim is below max_int |
| Reservations.Reservation.constructor | speculative_for.h:31 | a new reservation holds max_int and is not reserved |
| Reservations.Reservation.Reserve | speculative_for.h:32 | reserve(i) is a write-min of i into the cell, so it never raises the cell |
| Reservations.Reservation.Reserved | speculative_for.h:33 | the cell is reserved exactly when some index below max_int holds it |
| Reservations.Reservation.Reset | speculative_for.h:34 | reset leaves the cell at max_int, unreserved |
| Reservations.Reservation.CheckReset | speculative_for.h:36-39 | answers whether i held the cell; when it did the cell is released, otherwise it is unchanged |
| Reservations.ReserveLoc | speculative_for.h:42-43 | write-min into cell k of an array, every other cell unchanged |
| SpeculativeFor.TruncDiv | speculative_for.h:49 | C++ `long` division: the magnitude is the floor of the magnitudes' quotient and the sign is that of n*d |
| SpeculativeFor.MaxRoundSize | speculative_for.h:49 | for positive granularity the maximum round size is at least 1 and granularity times it covers e - s |
| SpeculativeFor.EffectiveMaxTries | speculative_for.h:48 | a non-negative maxTries is kept; a negative one becomes at least 100 |
| SpeculativeFor.SlotsSplit | speculative_for.h:77 | a round's slots are the held indices followed by the fresh indices numberDone + numberKeep .. numberDone + size - 1 |
| SpeculativeFor.SlotsAscending | speculative_for.h:77 | with ascending held indices below numberDone + numberKeep, the slots are strictly ascending |
| SpeculativeFor.Kept | speculative_for.h:83-92 | a slot is carried over exactly when its reservation succeeded and its commit failed |
| SpeculativeFor.PackSplit | speculative_for.h:96 | the packed kept slots and the packed resolved slots together are the round's slots, as multisets and by length |
| SpeculativeFor.PackMembers | speculative_for.h:96 | an index is in the pack exactly when some flagged slot holds it |
| SpeculativeFor.PackAscending | speculative_for.h:96 | packing strictly ascending slots keeps them strictly ascending |
| SpeculativeFor.NextRoundSize | speculative_for.h:101-105 | when many slots failed the size halves but stays at least the failed count and maxRoundSize / 64 + 1, and never grows; when few failed it doubles, capped at maxRoundSize; otherwise it is unchanged |
| SpeculativeFor.RoundSizeBounds | speculative_for.h:101-105 | the next round size stays at most maxRoundSize, at least 1, at least the number of carried slots, and never below maxRoundSize / 64 + 1 |
| SpeculativeFor.Run | speculative_for.h:63-107 | the loop completes only with every index done, and aborts only with indices left after round maxTries + 1 |
| SpeculativeFor.StartInv | speculative_for.h:58-62 | the loop's invariant holds before the first round |
| SpeculativeFor.RoundPreservesInv | speculative_for.h:63-106 | a round keeps the invariant: held indices ascending and not yet done, held plus resolved indices exactly the indices started, round size between maxRoundSize / 64 + 1 and maxRoundSize; numberDone never decreases, totalProcessed grows by the round size |
| SpeculativeFor.RunSound | speculative_for.h:63-67 | a completed run ends with every index done and the invariant true, after at most maxTries + 1 rounds; an aborted run stopped with indices left after round maxTries + 1 |
| SpeculativeFor.RunResolvesAll | speculative_for.h:45-109 | when the driver returns, every index of [s, e) was resolved exactly once, nothing is held, totalProcessed is at least e - s, and at most maxTries + 1 rounds ran |
| SpeculativeFor.EmptyRangeRunsNoRound | speculative_for.h:59-64 | an empty range completes without a round |
| SpeculativeFor.ReservePhase | speculative_for.h:76-84 | fills slot i with the held index i or numberDone + i, and keep[i] with the step's reserve answer for that slot |
| SpeculativeFor.CommitPhase | speculative_for.h:87-93 | for every slot that reserved, keep becomes the negated commit answer; other slots keep false |
| SpeculativeFor.RoundPhases | speculative_for.h:75-93 | a round's two phases leave the slots and the keep flags that the value model's round uses |
| SpeculativeFor.SpeculativeForRun | speculative_for.h:45-109 | the driver returns what the value model Run returns; an empty range returns 0; a finished run attempted at least e - s slots and resolved every index of [s, e) exactly once |
| RadixSpec.BucketsSorted | integer_sort.h:51-52 | a counting sort orders its output by the bucket key |
| RadixSpec.BucketsPermutation | integer_sort.h:51-52 | a counting sort of keys below the bucket count is a permutation of its input |
| RadixSpec.BucketsStable | integer_sort.h:51-52 | a counting sort keeps the input order of each key's elements |
| RadixSpec.OffsetsBucket | integer_sort.h:163-170 | the counting sort's offsets delimit exactly bucket i of its output |
| RadixSpec.LsdPass | integer_sort.h:45-57 | a stable pass on the next digit of a sequence sorted on the low bits sorts it on both |
| RadixSpec.MsdBuckets | integer_sort.h:154-174 | sorting every top-digit bucket on the low bits sorts on all bits |
| RadixSpec.RadixSortedIsStableSort | integer_sort.h:206-212 | sorting by the key lowered by m on w bits, when every lowered key fits in w bits, is a stable sort by the original key |
| RadixSpec.RadixSortedPermutation | integer_sort.h:38-62 | a radix sort on any number of bits is a permutation of its input |
| IntegerSort.CountSort | integer_sort.h:51-52 | the counting sort writes the stable bucket order of its input into the destination range and returns the bucket offsets |
| IntegerSort.Passes | integer_sort.h:45-57 | the number of passes is the ceiling of bits / 8 |
| IntegerSort.PassesStep | integer_sort.h:46-54 | a pass on min(8, bits) bits leaves one pass fewer |
| IntegerSort.RadixPass | integer_sort.h:46-56 | one counting-sort pass on the next w bits turns a range sorted on the low off bits into one sorted on off + w bits, nothing else in the destination changes |
| IntegerSort.CopySegment | integer_sort.h:58-61 | the destination range becomes a copy of the source range and nothing else changes |
| IntegerSort.RadixPasses | integer_sort.h:45-57 | the loop makes exactly ceil(bits / 8) passes, they sort the range on all bits, and the result ends in the second buffer exactly when the pass count is odd |
| IntegerSort.SeqRadixSortCore | integer_sort.h:38-62 | an empty range changes nothing; otherwise the result is in In when inplace and in Out when not |
| IntegerSort.OddStartParity | integer_sort.h:68 | the wrapper's `((key_bits-1)/radix) & 1` test, with size_t wrap-around, says the pass count is even |
| IntegerSort.SeqRadixSort | integer_sort.h:66-82 | when In is the temporary buffer, the sorted range lands in both Out and Tmp; otherwise as seq_radix_sort_ |
| IntegerSort.IntegerSortR | integer_sort.h:129-175 | the range of Tmp (inplace) or Out is the input sorted on keyBits bits, and nothing else changes |
| IntegerSort.SortOneDigit | integer_sort.h:143-151 | with at most 8 key bits, one counting sort (copied back when inplace) sorts the range |
| IntegerSort.SortTopDigit | integer_sort.h:154-174 | the top-digit counting sort followed by the per-bucket sorts sorts the range |
| IntegerSort.BucketByTop | integer_sort.h:156-163 | the first count sort buckets the range by the top 8 key bits and returns the bucket offsets |
| IntegerSort.SortBuckets | integer_sort.h:165-174 | every top-digit bucket sorted on the low bits, in bucket order |
| IntegerSort.SortBucketsFrom | integer_sort.h:165-172 | with buckets 0 .. i-1 already sorted, sorting the rest leaves all buckets sorted on the low bits in bucket order |
| IntegerSort.LoweredAt | integer_sort.h:207 | the lowered key `g(a) - min_val` in size_t arithmetic is the plain difference for every key at least min_val |
| IntegerSort.SortBucket | integer_sort.h:166-172 | sorting one bucket extends the sorted prefix by that bucket sorted on the low bits |
| IntegerSort.TopDigitDone | integer_sort.h:154-174 | all buckets sorted on the low bits is the sort on all key bits |
| IntegerSort.PlannedKeysFit | integer_sort.h:205-210 | under the corrected plan every key, lowered when the plan says so, fits the planned width |
| IntegerSort.SortDerivedKeys | integer_sort.h:197-210 | with key width 0, the min/max reduction and the corrected plan (width log2_up(max+1) for unlowered keys) yield a stable sort of the input by its key |
| IntegerSort.IntegerSortCore | integer_sort.h:186-213 | In == Out aborts with nothing changed; otherwise the result is the radix sort on keyBits bits, or for key width 0 a stable sort by key under the corrected plan |
| IntegerSort.IntegerSortInplace | integer_sort.h:215-221 | the array ends sorted on keyBits bits, or for keyBits 0 stably by key under the corrected plan |
| IntegerSort.IntegerSortCopy | integer_sort.h:223-231 | returns a new array of the same length holding the input sorted on keyBits bits, or for keyBits 0 stably by key under the corrected plan |
| KeyRange.Log2Up | integer_sort.h:205 | log2_up(i) is the least b with i <= 2^b; log2_up(0) wraps to 64 |
| KeyRange.BitLengthUnique | integer_sort.h:205 | the bit length is the only b with 2^(b-1) <= k < 2^b |
| KeyRange.MinMaxBounds | integer_sort.h:197-204 | the min/max reduction bounds every key from below and above and both values are keys of a non-empty input |
| KeyRange.PlanAsWritten | integer_sort.h:205-210 | the as-written plan lowers by min exactly when min > max / 4, with a width of at most 64 bits |
| KeyRange.PlanAsWrittenMissesKey | integer_sort.h:205 | for keys 1 and 256 the as-written plan has 8 bits and no lowering, so 256 does not fit |
| KeyRange.AsWrittenSortUnsorted | integer_sort.h:205-212 | with the as-written plan the sort of [1, 256] is out of key order |
| KeyRange.Plan | integer_sort.h:205-210 | the corrected plan lowers by min exactly when min > max / 4, with a width of at most 64 bits |
| KeyRange.PlanCoversKeys | integer_sort.h:205-210 | under the corrected plan every key in [min, max] is at least the offset and, lowered, fits the width |

## Left out

- Parallelism is not modelled. Every `parallel_for` is a sequential loop, or recursion over the buckets for integer_sort.h:165-174. The atomic `write_min` is a plain minimum. The claim that the outcome of a round of reservations does not depend on the order of the claims is `Reservations.ClaimAllOrderFree`.
- The step's own state is not modelled. `hasState` copies the step once per slot (speculative_for.h:54-56, 75-93), but the step is given by its answers, so the copies change nothing in the model.
- `SpeculativeForRun`: the abort after too many rounds (speculative_for.h:64-67) prints and aborts the process. The model returns `TooManyIterations` instead.
- `SpeculativeForRun`: requires a maximum round size of at least 0. A negative `(e-s)/granularity+1` would be converted to `size_t` by the sequence constructor, which is not part of this model.
- `SpeculativeForRun`: requires granularity other than 0. Division by zero is undefined in C++.
- `SpeculativeForRun`: indices and counters are unbounded integers. The model does not narrow a `long` index to the 32-bit `intT` of `I` and `Ihold`, and it does not let `long` arithmetic overflow.
- `SpeculativeFor.ManyFailed`: the float tests are modelled exactly only for round sizes up to 2^24. Above that, the float conversions round.
- `SpeculativeFor.Pack`, `IntegerSort.CountSort`, `KeyRange.Log2Up` and `KeyRange.MinKey`/`MaxKey`: these stand for `pbbs::pack`, the count sort, `log2_up` and `minmaxm`, whose sources are not part of this model. They are given by definitions that meet their contracts. The count sort's own parallel blocking is not modelled.
- `Reservations.Reservation.Check`: `check(i)` (speculative_for.h:35) is a predicate with no contract beyond its definition.
- `IntegerSort`: key widths are only required to fit a `size_t`. For a width above 64 the digit shifts of integer_sort.h:45-57 and 154-159 shift a 64-bit value by 64 or more, which is undefined in C++. The model gives them their mathematical meaning (the digit is 0) instead of excluding them.
- `IntegerSort` is stated for an arbitrary element type `T` and a key function into naturals. The `is_nested` flag, which only controls parallel granularity, is not modelled. Neither is `integer_sort_2`.
- IntegerSort.SortDerivedKeys: the key-width-0 path uses the corrected width `log2_up(max_val + 1)` for unlowered keys, not the `log2_up(max_val - min_val + 1)` of integer_sort.h:205 (see Findings), so it does not reproduce the unsorted output of the code as written.
- IntegerSort.IntegerSortCore: with key width 0 it follows the corrected plan, as SortDerivedKeys does. The abort when In and Out are one buffer (integer_sort.h:193-196) prints and aborts the process; the model returns `SameBuffer` with nothing changed.
- IntegerSort.IntegerSortInplace: with key width 0 it follows the corrected plan, as SortDerivedKeys does.
- IntegerSort.IntegerSortCopy: with key width 0 it follows the corrected plan, as SortDerivedKeys does.
- Sequential equivalence is not stated. Deterministic reservations promise that a speculative run ends in the same state, with the same committed indices, as running reserve and commit on each index in strict index order, whatever the granularity. With the step given by its answers per (round, index), the model has no step state to compare, so this cannot be stated. What is proved is the bookkeeping: every index is resolved exactly once and the failed ones are retried in index order. `Reservations.ClaimAllOrderFree` covers only the order independence of the claims on one cell.
- `IntegerSort.IntegerSortInplace` and `IntegerSort.IntegerSortCopy`: the uninitialised scratch buffers are modelled as arrays filled with the default value of `T`.

## Findings

| source | as written | input that shows it | evidently intended | confidence | as-written member | corrected member |
|---|---|---|---|---|---|---|
| integer_sort.h:205-210 | with key_bits == 0 the width is `log2_up(max_val - min_val + 1)`, but the keys are lowered by `min_val` only when `min_val > max_val / 4`; otherwise the unlowered keys can need more bits than the width | keys {1, 256}: min 1 <= 256 / 4, width log2_up(256) = 8, but 256 needs 9 bits, so its digit is 0 and the output is [256, 1] | without lowering the width covers the largest key, `log2_up(max_val + 1)` | not executed | KeyRange.AsWrittenSortUnsorted | KeyRange.PlanCoversKeys, IntegerSort.SortDerivedKeys |
