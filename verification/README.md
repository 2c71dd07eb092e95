# Timing-attack decision layer, modelled in Dafny

This project models the decision logic of a timing attack that recovers a
20-byte signature from a verification oracle whose running time leaks how
many leading bytes are correct (`cz.cvut.keyczar.homework.Attack`). The
attack guesses one position at a time. For every position it times the
oracle on each of the 256 candidate bytes over 50 rounds, in a fresh
shuffled order per round. It takes the median time of each candidate,
commits the slowest candidate, and records the mean of the 256 medians as
the position average. From the fourth position on, it compares the latest
increase of the position average with half of a trailing baseline. If the
increase falls short, it steps back and re-measures the previous position.
At the last position it repeats until the oracle accepts the signature,
which is always sent with a fixed 5-byte preamble in front.

What measures time or calls the oracle is a parameter of the model:

- the oracle's verdict is a function `oracle: seq<int> -> bool` on the 25-byte composed buffer;
- the oracle's running time is a function of the pass, the position, the round and the candidate;
- each round's candidate order is a parameter required to be a permutation of the 256 byte values.

Java bytes are `int`s in -128..127 (`JavaArith.IsByte`). Java's truncating
`/` is `JavaArith.Div`; Dafny's own `/` rounds toward minus infinity for a positive divisor.
`Math.round(x / (double) k)` is `JavaArith.RoundHalfUp`, the exact quotient
rounded half up.

Modules, leaf first: `JavaArith` (integer semantics), `Candidates` (slot/value
mapping and the candidate table), `Preamble` (`addPrefix`), `Sorting`
(`Arrays.sort` and counting), `Median` (`getMedian`), `Trend`
(`getAverageDeltaInInterval` and the rollback test), `Measurement` (the
duration-table fill of `findByte`), `Aggregation` (medians, position average
and candidate choice), `Engine` (`findByte`, the cursor step and `main`'s loop).

Where the code and its documentation disagree, the model follows the code:

- The comments on `byteIndexToValue` and `byteValueToIndex` speak of byte values -127 to 126. The code maps slots 0..255 onto the full range -128..127 (`Candidates.SlotValueBijection`).
- For an odd count `getMedian` returns `n/2 + 1`, not the middle element (see Findings). Every array it receives has 50 entries, so only the even branch runs.
- When the baseline window holds no qualifying pair, the rollback test is not suppressed. The program computes `Math.round(0 / 0.0)`, which is 0, so the test becomes "the position average went down" (`Trend.EmptyWindowRollback`).
- The baseline loop stops at the first later entry that is not positive (negative as well as zero), or at the last position.
- The rollback test does not ask whether the position averages are still growing. Deltas that keep increasing while still negative can fire it: for averages 100, 90, 82, 76 the baseline at position 3 is -10, half of it truncates to -5, and the latest delta -6 is below that (`Trend.RollbackOnGrowingNegativeDeltas`). `Trend.NoRollbackWhileGrowing` therefore needs the latest delta to be non-negative.
- A rejected signature at the last position is never reported as a failure: the loop repeats that position with no bound.

## Model

| member | source | states |
|---|---|---|
| JavaArith.Div | src/cz/cvut/keyczar/homework/Attack.java:69 | Java's integer division truncates toward zero: the remainder lies in [0, b) for a non-negative dividend and in (-b, 0] for a negative one |
| JavaArith.ToByte | src/cz/cvut/keyczar/homework/Attack.java:225 | the `(byte)` cast yields a byte congruent to its argument modulo 256, and leaves a value already in byte range unchanged |
| JavaArith.RoundHalfUp | src/cz/cvut/keyczar/homework/Attack.java:134 | `Math.round` of an exact quotient is the integer r with r - 1/2 <= num/den < r + 1/2 |
| Candidates.IndexToValue | src/cz/cvut/keyczar/homework/Attack.java:224-226 | the value of a slot is always a byte, congruent to slot - 128 modulo 256 |
| Candidates.ValueToIndex | src/cz/cvut/keyczar/homework/Attack.java:234-236 | a value is a byte exactly when its slot lies in 0..255 |
| Candidates.SlotValueBijection | src/cz/cvut/keyczar/homework/Attack.java:218-236 | the two maps undo each other on 0..255 and -128..127, distinct slots give distinct values, and slot 0 and slot 255 hold -128 and 127 |
| Candidates.PossibleInputs | src/cz/cvut/keyczar/homework/Attack.java:54-58 | the candidate table has 256 entries, slot i maps back to i, entries are pairwise distinct, and every byte value appears |
| Preamble.AddPrefix | src/cz/cvut/keyczar/homework/Attack.java:211-216 | the composed buffer has 25 bytes, the first 5 are the preamble, and byte 5 + i is signature byte i |
| Preamble.AddPrefixFaithful | src/cz/cvut/keyczar/homework/Attack.java:211-216 | two signatures compose to the same buffer exactly when their first 20 bytes agree, and a byte signature composes to a byte buffer |
| Sorting.Sort | src/cz/cvut/keyczar/homework/Attack.java:100 | the sorted array is ascending and a permutation of its input |
| Sorting.SortedPermutationUnique | src/cz/cvut/keyczar/homework/Attack.java:100 | an ascending permutation is unique, so any ascending sort gives the same array as Sort |
| Median.GetMedian | src/cz/cvut/keyczar/homework/Attack.java:99-112 | the array is left as a sorted permutation of itself; for an even count the result is the truncated mean of the two middle elements and lies between them; for an odd count it is n/2 + 1 whatever the contents |
| Median.Median | src/cz/cvut/keyczar/homework/Attack.java:93-112 | the intended median: at least half of the inputs lie at or below it and at least half at or above it |
| Median.GetMedianAgreesOnEvenCounts | src/cz/cvut/keyczar/homework/Attack.java:103-106 | for an even count the median as written equals the intended median |
| Median.GetMedianOddDefect | src/cz/cvut/keyczar/homework/Attack.java:107-109 | on [10, 20, 30] the median as written is 2, which no input lies at or below, while the intended median is 20 |
| Trend.RunLength | src/cz/cvut/keyczar/homework/Attack.java:124-132 | the number of pairs the baseline loop counts is the length of the maximal run from start that stays below end and the last position and meets only positive entries |
| Trend.AverageDeltaInInterval | src/cz/cvut/keyczar/homework/Attack.java:120-135 | the accumulated deltas telescope to values[start + k] - values[start]; the result is `Trend.Baseline`, the mean of the counted deltas rounded half up, or 0 when nothing is counted |
| Trend.BaselineAtMost | src/cz/cvut/keyczar/homework/Attack.java:120-135 | when at least one pair is counted, the baseline never exceeds a bound every delta of its window respects |
| Trend.BaselineAtLeast | src/cz/cvut/keyczar/homework/Attack.java:120-135 | when at least one pair is counted, the baseline is never below a bound every delta of its window respects |
| Trend.EmptyWindowRollback | src/cz/cvut/keyczar/homework/Attack.java:66-71 | with no qualifying pair in the window the baseline is 0 and a rollback fires exactly when the position average went down |
| Trend.NoRollbackWhileGrowing | src/cz/cvut/keyczar/homework/Attack.java:66-71 | a non-negative latest delta that is at least every window delta never fires a rollback |
| Trend.RollbackOnDrop | src/cz/cvut/keyczar/homework/Attack.java:66-71 | a drop after a window that never went down always fires a rollback |
| Trend.RollbackOnGrowingNegativeDeltas | src/cz/cvut/keyczar/homework/Attack.java:66-71 | on averages 100, 90, 82, 76 the deltas strictly grow yet stay negative, the baseline is -10, and the rollback fires at position 3 |
| Measurement.MeasureDurations | src/cz/cvut/keyczar/homework/Attack.java:162-180 | whatever the per-round permutations, every cell of the duration table ends up holding the time measured for its own candidate in its own round |
| Aggregation.MediansAsWritten | src/cz/cvut/keyczar/homework/Attack.java:184 | on rows of NumberOfTries (even) durations, the median as written is the intended median for every slot |
| Aggregation.ScanSlots | src/cz/cvut/keyczar/homework/Attack.java:183-194 | after the loop the total is the sum of all 256 medians and the running maximum and choice are those the first-greatest-median rule prescribes |
| Aggregation.Aggregate | src/cz/cvut/keyczar/homework/Attack.java:183-197 | the position average is the rounded mean of the 256 medians, and the choice is the value of the first slot with the greatest median, or 0 when no median exceeds Integer.MIN_VALUE |
| Aggregation.RoundedMeanWithin | src/cz/cvut/keyczar/homework/Attack.java:186-196 | the rounded mean of the medians lies within any range holding all of them |
| Aggregation.ScanStep | src/cz/cvut/keyczar/homework/Attack.java:188-191 | a strictly greater median takes over the running maximum and the choice; an equal or smaller one changes nothing |
| Engine.Initial | src/cz/cvut/keyczar/homework/Attack.java:49-52 | before the first position every signature byte is Byte.MIN_VALUE and every average and counter is zero |
| Engine.FindByte | src/cz/cvut/keyczar/homework/Attack.java:152-198 | only position byteIndex changes: its byte is the selected candidate, its average the rounded mean of medians, its try counter one higher |
| Engine.NextCursor | src/cz/cvut/keyczar/homework/Attack.java:60-77 | positions 0..2 advance; a rollback (`Trend.RollbackFires`: from position 3 on, the latest delta is below half the truncated baseline of the window from i - 4 to i - 2, both clamped at 0) moves to i - 1, never below 2; a rejection at the last position repeats it; the end is reached exactly from the last position without rollback and with acceptance |
| Engine.Pass | src/cz/cvut/keyczar/homework/Attack.java:60-77 | one pass commits position i exactly as `findByte` does (selected candidate, rounded mean, one more try, nothing else changes) and moves the cursor to NextCursor of the oracle's verdict on the committed signature: up by at most one, past the last position only with a signature the oracle accepts |
| Engine.Attack | src/cz/cvut/keyczar/homework/Attack.java:40-91 | the loop ends only with a signature the oracle accepts, after at least one pass per position, and otherwise runs out of passes; every position below the cursor has been measured at least once |

## Left out

- Constructing the verifier, loading keys and the `verify` call itself (lines 42, 75, 89, 176, 207) are a foreign library: the verdict is the `oracle` parameter.
- `System.nanoTime` and the measured durations (lines 175-179) are physical measurements: they are the `timing` parameter.
- `warmUp` (lines 201-209) only issues discarded oracle calls on random signatures and does not touch the working signature.
- `Collections.shuffle` (line 166) is randomness: each round's order is a parameter required to be a permutation of the byte values.
- Console output (lines 79-86, 89-90, 193) and `System.setProperty` (line 45) are I/O only.
- The transient writes of each candidate into the signature during measurement (line 170) are not kept: the committed choice overwrites them at line 197.
- Measurement.MeasureDurations: the time of an oracle call depends on the round and the candidate but not on the call's place within the round's order.
- Trend.AverageDeltaInInterval: the division and `Math.round` of a `double` are computed exactly; precision loss for very large `long` sums is not modelled.
- Aggregation.Aggregate: the `long` total of the medians and the division by `256d` are exact; `long` overflow and `double` rounding are not modelled.
- Median.GetMedian: requires at least one value, since Java throws an index exception on an empty array and the model has no exceptions; `values[i1] + values[i2]` is an unbounded sum; the Java `long` addition would wrap beyond 2^63, which nanosecond durations do not reach.
- Preamble.AddPrefix: requires at least 20 signature bytes; `System.arraycopy` would throw on a shorter array, and every caller passes exactly 20.
- Engine.Attack: the loop is observed for at most `maxPasses` passes, since the program has no retry budget and need not terminate; termination is not claimed.

## Findings

| source | as written | input that shows it | evidently intended | confidence | as-written member | corrected member |
|---|---|---|---|---|---|---|
| src/cz/cvut/keyczar/homework/Attack.java:107-109 | for an odd number of values the median is `(values.length / 2) + 1`, an index-like number independent of the values | [10, 20, 30] gives 2 | the middle element of the sorted array, 20 | high; not executed (unreachable while NUMBER_OF_TRIES is even) | Median.GetMedian, shown by Median.GetMedianOddDefect | Median.Median |
