# Benchmark.js (TypeScript port): a Dafny model of its core

This project models the core of a TypeScript port of Benchmark.js and proves
properties of that model:

- **The Mann-Whitney comparator** (`getScore`, `getU`, `getZ`, `uTable`) and
  `Benchmark.compare`. This is the test that decides whether one benchmark's
  sample is faster, slower or not distinguishable from another's.
- **The `EventEmitter` base class** (`on`, `off`, `emit`, `listeners`). It is
  a class whose one field, the registry of listener lists, its methods
  update in place.
- **The run-state bookkeeping of the `Benchmark` class:**
  - the `abort`/`reset` pair, kept from endless recursion by the `calledBy`
    flags;
  - the start of `run`, `clone`, and `enqueue`;
  - `update`, which keeps a clone and its original in step;
  - the part of `cycle` that counts cycles and adapts the per-cycle count to
    `minTime`.
- **The text and collection helpers:** `formatNumber`, `Benchmark.join`,
  `Benchmark.filter`, `toString`, and the option merge of `run` and `clone`.

Modules:

- `Types` (types.dfy): the event vocabulary and the `Event` record.
- `Text` (text.dfy): `split`/`join` on strings and their round trip.
- `Util` (util.dfy): src/util.ts.
- `Emitter` (emitter.dfy): src/eventEmitter.ts.
- `Statics` (statics.dfy): the pure parts of src/benchmark.ts, namely `compare`, `filter`, `join`, `toString`, the option merge and the count rule of `cycle`.
- `Bench` (benchmark.dfy): the `Benchmark` class and its state-changing members.

### Design choices

- **Scores are doubled.** `getScore` adds 1 for each smaller element and 0.5
  for a tie. The model counts 2 and 1, so scores and U values are natural
  numbers. `ScoreIsDoubled` and `UIsDoubled` relate them to the
  fractional values of the source.
- **The z-test is integer arithmetic.** `|z| > 1.96` is squared and scaled:
  `ZTest` states the source's test over the reals, `ZSignificant` states it
  over integers, and `ZSignificantExact` proves the two equal.
- **JavaScript numbers that can overflow are `Extended` values**
  (`Finite(v)` or `Infinity`): `hz` and `count`. `minTime` is an
  `Option<real>`: no reachable line assigns it, so it stays `undefined`
  (`None`); the only assignment, in the uncalled `_clock`, would set the
  default 0.
- **Events from a benchmark go to a ghost log `emitted`.** What the listeners
  do with each event is a parameter of the method: whether they cancel it,
  or set its `aborted` flag.
- **Each call `emit` makes is described by a `Reaction`:** the value the
  listener returns, and what it writes itself to the event's `aborted` and
  `cancelled` flags, which it can do because it receives the event object.
  `Emit` takes the reaction of the call at each position of the snapshot,
  so a listener registered twice, or one that looks at the event, may act
  differently on each call; its own registry edits are keyed the same way.
- **`clocked` is a parameter.** It is the time a cycle measured.
- **`support` is given to the constructor.** The source reads it but never
  assigns it, so as written it is `undefined`: `this.support.timeout` at
  src/benchmark.ts:418 then throws a `TypeError` in every `abort()` of a
  running benchmark that gets past the cancel test. It throws after `abort`
  is emitted and before `aborted`/`running` are set, and a `reset()` of a
  running benchmark then leaves `calledBy.reset` set. `Abort` and `Reset`
  model the code with a support object supplied.

### Behaviour of the code worth knowing

- **`getScore`.** It counts the elements of the other sample that are
  *smaller* than `x`, with 0.5 for a tie (src/util.ts:50). So `compare`
  returns 1 for the sample whose values are smaller (a shorter time per
  cycle).
- **Two samples of five values, one wholly below the other.** They are
  distinguishable: `uTable[5][2]` is 2 and `u` is 0, so `compare` returns 1
  one way and -1 the other (`Statics.CompareFiveAgainstFive`).
- **Antisymmetry of `compare`.** It holds for two non-empty samples
  (`Statics.CompareAntisymmetric`). It does not hold when one sample is
  empty and the other has at most 30 values: then both directions give 1.
  With more than 30 values in the other sample both directions give 0
  (`Statics.CompareEmpty`).
- **`reset`.** It only aborts a running benchmark. The rest of its body is
  not written, so no statistics are reinitialised.

## Model

| member | source | states |
|---|---|---|
| Types.NewEvent | src/event.ts:30 | the event an `Event` constructor is evidently meant to build: the given type, neither flag set, no result |
| Types.EventAsWritten | src/event.ts:30 | the constructor as written drops its argument: the event has no type and neither flag set |
| Text.Split | src/util.ts:28 | splitting on a character gives at least one piece, and no piece contains that character |
| Text.Join | src/benchmark.ts:155 | joining no parts gives the empty text, and joining one part gives that part |
| Text.JoinLength | src/benchmark.ts:155 | the joined text is as long as its parts plus one separator between each pair of neighbours |
| Text.SplitJoin | src/benchmark.ts:155 | splitting on `c` recovers the parts joined with `c` when no part contains `c` |
| Text.JoinSplit | src/util.ts:28-29 | joining the pieces of a split with the same character restores the text |
| Util.U | src/util.ts:56-64 | `getU`, the doubled sum of scores; its meaning is pinned by `UIsDoubled`, `USum`, `UZero` and `UBound` |
| Util.ZTest | src/util.ts:66-68 | `abs(getZ(u, n1, n2)) > 1.96` over the reals, squared; `ZSignificantExact` equates it with `ZSignificant` |
| Util.ZSignificant | src/util.ts:66-68 | the same test in integers, as `compare` uses it (src/benchmark.ts:386-388); pinned by `ZSignificantExact`, `ZCentre` and `Statics.ZExtreme` |
| Util.Points | src/util.ts:50 | one comparison scores at most 2 points (doubled), and 0 exactly when the other value is larger |
| Util.Score | src/util.ts:46-54 | a value scores at most twice the size of the other sample |
| Util.ScoreIsDoubled | src/util.ts:46-54 | the doubled score is exactly twice the score with 1 per smaller value and 0.5 per tie |
| Util.UIsDoubled | src/util.ts:56-64 | the doubled U is exactly twice the sum of the fractional scores |
| Util.ScoreZero | src/util.ts:46-54 | a value scores 0 if and only if every value of the other sample is larger |
| Util.UZero | src/util.ts:56-64 | U is 0 if and only if every value of the first sample is below every value of the second |
| Util.UBound | src/util.ts:56-64 | U is at most the product of the sample sizes (doubled) |
| Util.ScoreAgainst | src/util.ts:46-54 | the score of `x` against a sample plus the sample's points against `x` is the sample size (doubled) |
| Util.USum | src/util.ts:56-64 | U of a against b plus U of b against a is the product of the sizes (doubled), the identity u1 + u2 = n1·n2 |
| Util.ZSignificantExact | src/util.ts:66-68 | the integer test decides exactly `abs(getZ(u, n1, n2)) > 1.96` |
| Util.ZCentre | src/util.ts:66-68 | U at the centre n1·n2/2 of its distribution is never significant |
| Util.UTableRows | src/util.ts:74-102 | every row n in 5..30 holds n − 2 non-decreasing critical values, each below the centre of its U distribution |
| Util.Critical | src/benchmark.ts:391 | the critical value is 0 when the larger sample has fewer than 5 values or the smaller fewer than 3, and otherwise lies below the centre |
| Util.Divisor | src/util.ts:105-111 | a divisor exists exactly for cycles 1 to 5, and cycle 5's divisor is 0 |
| Util.DivisorsDecrease | src/util.ts:105-111 | the divisors strictly decrease from cycle 1 to cycle 5 |
| Util.Group | src/util.ts:29 | the replacement of `/(?=(?:\d{3})+$)(?!\b)/g` by `,`, position by position; pinned by `GroupDigits` and `ThousandsShape` |
| Util.FormatNumber | src/util.ts:27-30 | `formatNumber`: the grouped integer part and a non-empty fraction; pinned by `FormatNumberStrip`, `Statics.FormatNumberExample` and `Statics.ToStringInfinite` |
| Util.FormatNumberStrip | src/util.ts:27-30 | removing the commas from the formatted text gives back the integer part, plus the fraction when it is non-empty |
| Util.GroupDigits | src/util.ts:29 | on a string of digits, the regular-expression replacement inserts a comma before every group of three digits from the right |
| Util.ThousandsShape | src/util.ts:29 | a formatted digit string has a leading group of 1 to 3 digits, then groups of exactly 3, and (n + 2) / 3 groups in all |
| Emitter.IndexOf | src/eventEmitter.ts:20 | `indexOf` is −1 exactly when the listener is absent; otherwise it is the first position holding it |
| Emitter.RemoveFirst | src/eventEmitter.ts:19-23 | `splice(indexOf(l), 1)` behind its `-1` guard; pinned by `RemoveFirstSpec` and `RemoveFirstMultiset` |
| Emitter.RemoveFirstSpec | src/eventEmitter.ts:19-23 | removing a listener deletes its first occurrence and nothing else, and an absent listener leaves the list unchanged |
| Emitter.RemoveFirstMultiset | src/eventEmitter.ts:19-23 | removing a listener takes exactly one copy of it out of the list's multiset |
| Emitter.OffEach | src/eventEmitter.ts:16-28 | `off` keeps the set of registered event types |
| Emitter.OffEachAt | src/eventEmitter.ts:16-28 | after `off(types, l)` each list has lost as many first copies of `l` as its type occurs in `types` |
| Emitter.Prepare | src/eventEmitter.ts:31-34 | the emitted event targets the emitter and has no result; a named event is fresh with that type and neither flag set; a given event keeps its type, both flags and its time stamp |
| Emitter.Dispatch | src/eventEmitter.ts:40-46 | the `forEach` over the snapshot, each listener in order; pinned by `DispatchCancelled`, `DispatchResult`, `DispatchIgnoresAborted` and `DispatchKeeps` |
| Emitter.DispatchCancelled | src/eventEmitter.ts:40-46 | the event ends cancelled if and only if the last listener that wrote the flag or returned exactly `false` left it set, or no listener did either and it was already set |
| Emitter.DispatchCancelledByReturn | src/eventEmitter.ts:40-46 | when no listener writes the flag itself, the event ends cancelled if and only if it was already cancelled or some listener returned exactly `false` |
| Emitter.DispatchResult | src/eventEmitter.ts:40-46 | the event's result is the last listener's return value, or unchanged when no listener runs |
| Emitter.DispatchIgnoresAborted | src/eventEmitter.ts:45 | whatever `aborted` holds, every listener still runs with the same effect and only that flag can differ, because `forEach` ignores the callback's return value |
| Emitter.DispatchKeeps | src/eventEmitter.ts:40-46 | dispatch changes neither the event's type, its targets nor its time stamp |
| Emitter.EventEmitter.constructor | src/eventEmitter.ts:6 | a new emitter has no registered event type |
| Emitter.EventEmitter.Listeners | src/eventEmitter.ts:51-53 | the list registered for a type, or the empty list for an unregistered type |
| Emitter.EventEmitter.On | src/eventEmitter.ts:8-14 | each registered list gains one copy of the listener per occurrence of its type, at the end; the registered types stay the same |
| Emitter.EventEmitter.OffListener | src/eventEmitter.ts:16-23 | each list loses the first copies of the listener, as many as its type occurs; the registered types stay the same |
| Emitter.EventEmitter.OffAll | src/eventEmitter.ts:16-28 | `off` without a listener empties the list of every named type, registering it if absent, and leaves the others alone |
| Emitter.EventEmitter.Emit | src/eventEmitter.ts:30-49 | the listeners registered before the call run in order on the prepared event, each call reacting as given for its position, and the last one's result is returned; a named emit builds its event with the corrected constructor `Types.NewEvent` (as written it reaches no listener, see Findings) |
| Emitter.EmitCallsListeners | src/eventEmitter.ts:38-40 | a named event reaches exactly the listeners that `listeners` reports for its type |
| Emitter.UntypedEventReachesNoListener | src/eventEmitter.ts:31-39 | an event built by the constructor as written reaches no listener, while a typed event reaches the registered one |
| Statics.CompareSamples | src/benchmark.ts:374-392 | 1 only when the first sample's U is the smaller or equal one, and −1 only when it is strictly larger |
| Statics.Compare | src/benchmark.ts:369-393 | a benchmark compared with itself gives 0; 1 only for distinct benchmarks whose U is the smaller or equal one, −1 only for distinct benchmarks whose U is strictly larger |
| Statics.ZSymmetric | src/util.ts:66-68 | the z-test does not depend on the order of the sample sizes |
| Statics.CompareSwap | src/benchmark.ts:382-392 | when the two U values differ, swapping the samples negates the outcome |
| Statics.CompareTie | src/benchmark.ts:382-392 | when the two U values are equal, swapping the samples leaves the outcome as it is |
| Statics.CompareAntisymmetric | src/benchmark.ts:369-393 | for two non-empty samples, `b.compare(a) == -a.compare(b)` |
| Statics.CompareEmpty | src/benchmark.ts:386-392 | against an empty sample both directions give 1 when the other has at most 30 values, and 0 when it has more |
| Statics.ZExtreme | src/benchmark.ts:386-388 | with more than 30 values in all and at least two on each side, a U of 0 is significant |
| Statics.CompareAllBelow | src/benchmark.ts:382-392 | when every value of one sample lies below every value of the other, the first compares as 1 and the second as −1 (in the table range, or with two or more values on each side) |
| Statics.CompareFiveAgainstFive | src/benchmark.ts:386-392 | five values of 1 against five values of 2 give 1 and, swapped, −1 |
| Statics.Keep | src/benchmark.ts:183 | `_.filter` with a predicate keeps only members of the input that satisfy it, and no more of them than there are |
| Statics.KeepAppend | src/benchmark.ts:183 | filtering a concatenation filters each part |
| Statics.KeepMembers | src/benchmark.ts:183 | a benchmark is in the result if and only if it is in the input and satisfies the predicate |
| Statics.KeepOrder | src/benchmark.ts:183 | filtering keeps any order relation that held between the input's elements |
| Statics.KeepHead | src/benchmark.ts:179-181 | when the first element passes, it stays first |
| Statics.Insert | src/benchmark.ts:173-177 | inserting into the sorted list adds exactly the inserted benchmark |
| Statics.InsertSorted | src/benchmark.ts:173-177 | inserting into a list sorted by mean plus margin of error keeps it sorted |
| Statics.SortBy | src/benchmark.ts:173-177 | the sort returns a permutation of its input, ordered by mean plus margin of error (ascending for fastest, descending for slowest); equal keys keep their input order, one of the orders the engine may choose |
| Statics.HeadTiesMembers | src/benchmark.ts:171-181 | under every order the engine may give equal keys (any sorted permutation of the successful benchmarks), `'fastest'`/`'slowest'` return only successful members of the input |
| Statics.HeadTiesSortedTies | src/benchmark.ts:173-181 | under every sorted order, the result is sorted and every element compares as indistinguishable (0) from the first |
| Statics.HeadTiesComplete | src/benchmark.ts:179-181 | under every order the engine may choose, a successful benchmark of the input is in the result if and only if `compare` cannot tell it from the first |
| Statics.HeadTiesHead | src/benchmark.ts:173-177 | under every order the engine may choose, when some benchmark is successful the result is non-empty and its first element is at least as fast (or slow) as every successful benchmark |
| Statics.HeadTiesHeadKey | src/benchmark.ts:173-177 | two orders the engine may choose give heads with the same mean plus margin of error; only which tied benchmark heads the result is the engine's choice |
| Statics.Extreme | src/benchmark.ts:171-181 | `'fastest'`/`'slowest'`: the successful benchmarks, sorted, that tie with the first (`HeadTies`), under the model's order for equal keys; pinned by `ExtremeMembers`, `ExtremeSortedTies`, `ExtremeComplete` and `ExtremeHead`, and for every order the engine may choose by the `HeadTies` lemmas |
| Statics.Filter | src/benchmark.ts:164-184 | `filter` as evidently intended, the corrected half of the first finding; pinned by `FilterSuccessful` and the `Extreme` lemmas |
| Statics.FilterAsWritten | src/benchmark.ts:164-184 | `filter` as written, every alias handed to `_.filter` as a string; pinned by `AliasesAsWrittenAreEmpty` and `FilterAsWrittenDiffers` |
| Statics.AliasesAsWrittenAreEmpty | src/benchmark.ts:164-184 | as written, `'successful'`, `'fastest'` and `'slowest'` always yield the empty list |
| Statics.FilterAsWrittenDiffers | src/benchmark.ts:164-184 | with one successful benchmark, the written and the corrected `'successful'` and `'fastest'` results differ |
| Statics.FilterSuccessful | src/benchmark.ts:166-170 | `'successful'` keeps exactly the benchmarks that have cycled, have a finite `hz` and no error |
| Statics.ExtremeMembers | src/benchmark.ts:171-181 | `'fastest'`/`'slowest'` return only successful members of the input |
| Statics.ExtremeSortedTies | src/benchmark.ts:173-181 | the result is in sorted order, and every element compares as indistinguishable (0) from the first |
| Statics.ExtremeComplete | src/benchmark.ts:179-181 | a successful benchmark of the input is in the result if and only if `compare` cannot tell it from the first, so every tie is kept |
| Statics.ExtremeHead | src/benchmark.ts:173-177 | when some benchmark is successful the result is non-empty, and its first element is at least as fast (or slow) as every successful benchmark |
| Statics.Pairs | src/benchmark.ts:152 | each entry becomes key, separator, value |
| Statics.Join | src/benchmark.ts:146-156 | an empty array or an object without entries joins to the empty text |
| Statics.JoinItemsSplit | src/benchmark.ts:146-156 | splitting the joined array on the separator recovers its items |
| Statics.JoinEntriesSplit | src/benchmark.ts:146-156 | splitting the joined object on the pair separator recovers its key-value pairs |
| Statics.DigitChar | src/benchmark.ts:344 | a digit below ten becomes a digit character |
| Statics.DecimalString | src/benchmark.ts:344 | `String(size)` is a non-empty string of digits |
| Statics.DecimalRoundTrip | src/benchmark.ts:344 | reading the decimal text of a count gives the count back |
| Statics.Throughput | src/benchmark.ts:337-347 | the text after the title of a benchmark without an error; pinned by `ThroughputPlural` and `ThroughputExample` |
| Statics.ToString | src/benchmark.ts:320-350 | `toString()`; pinned by `ToStringShape`, `ToStringInfinite` and `ToStringExample` |
| Statics.ThroughputPlural | src/benchmark.ts:337-347 | the line ends in "runs sampled)" if and only if the sample size is not 1, and in "(1 run sampled)" when it is |
| Statics.ToStringShape | src/benchmark.ts:320-350 | the text starts with the name (or id); without an error it is plural as above; with an error ": " follows the name |
| Statics.ToStringInfinite | src/benchmark.ts:337-347 | an infinite `hz` prints as "Infinity", which `formatNumber` leaves without commas |
| Statics.FormatNumberExample | src/util.ts:27-30 | "1234" formats as "1,234" |
| Statics.ThroughputExample | src/benchmark.ts:337-347 | 1,234 ops/sec with ±2.34% over 7 runs prints as the documented line |
| Statics.ToStringExample | src/benchmark.ts:320-350 | a benchmark named "sort" with hz 1234, rme 2.34 and seven runs prints "sort x 1,234 ops/sec ±2.34% (7 runs sampled)" |
| Statics.Merge | src/benchmark.ts:290 | the merged options hold every key of both; the overriding options win, and the others keep their old values |
| Statics.MergeIdempotent | src/benchmark.ts:290 | merging the same overrides twice changes nothing more |
| Statics.Ceil | src/benchmark.ts:538 | `Math.ceil(x)` is the least integer not below `x` |
| Statics.CountStep | src/benchmark.ts:525-542 | the recorded period times the count is the clocked time |
| Statics.CountStepRunning | src/benchmark.ts:530-540 | the clone keeps running if and only if `minTime` is set and the clocked time is positive and below it |
| Statics.CountStepHz | src/benchmark.ts:527-528 | `hz` is infinite exactly for a zero clock, and otherwise is the reciprocal of the period |
| Statics.CountStepGrowth | src/benchmark.ts:532-540 | a clone that keeps running gets a strictly larger count, the least one whose run time reaches `minTime` |
| Statics.CountStepZeroClock | src/benchmark.ts:532-540 | a zero clock stops the run: with a positive `minTime` the count becomes infinite, otherwise it stays |
| Statics.CountStepStops | src/benchmark.ts:530 | once the clocked time reaches `minTime` (or it is unset) the count is kept |
| Statics.CountStepAsWritten | src/benchmark.ts:525-540 | the count rule as written, also for a count of 0: from a count of at least 1 the period is the clocked time over the count |
| Statics.ZeroCountStalls | src/benchmark.ts:525-540 | from a count of 0 the period is infinite, `hz` is 0 and the count stays 0; the clone would keep running only for a `minTime` above the clock, which no reachable line sets |
| Statics.CountStepAsWrittenFromOne | src/benchmark.ts:525-540 | from a count of at least 1 the rule as written and `CountStep` agree on period, `hz`, count and running state |
| Bench.Benchmark.constructor | src/benchmark.ts:191-286 | a new benchmark has the given name, options and id, the field defaults of the class and an empty registry |
| Bench.Benchmark.Abort | src/benchmark.ts:408-429 | a running benchmark emits `abort`; unless that is cancelled outside a reset, the nested reset is skipped, the timer cleared and, outside a reset, the benchmark stopped as aborted (the predicate `Aborts`); nothing else changes |
| Bench.Benchmark.Reset | src/benchmark.ts:352-362 | a running benchmark entered from outside `abort` emits one `abort` and stays running and unaborted; the `reset` flag is cleared again |
| Bench.ResetRunning | src/benchmark.ts:352-362 | a reset of a running benchmark with no flags set emits exactly one `abort` and leaves both flags cleared |
| Bench.Benchmark.Run | src/benchmark.ts:288-318 | the options are merged, the benchmark runs with the count restarted from `initCount`, `start` is emitted, and a clone cycles while an original computes; no other field changes |
| Bench.Benchmark.Clone | src/benchmark.ts:400-402 | the clone is a fresh benchmark with the merged options, no name, listeners or original, and every other field at the class's default (`initCount` 0 among them) |
| Bench.Benchmark.Enqueue | src/benchmark.ts:431-443 | the queue gains one fresh clone at the end, whose original is this benchmark, whose four events each list `update` alone, and whose counts are the defaults (`initCount` and count 0) |
| Bench.EnqueuedCloneStartsAtZero | src/benchmark.ts:296-310 | a clone from `enqueue`, then run with `start` not cancelled, goes on to cycle itself from a count of 0 |
| Bench.Benchmark.Update | src/benchmark.ts:453-471 | `start` restores the clone's count, `error` copies the error to the original, `abort` aborts the original as `abort()` does and makes it emit `cycle`; a stopped, aborted clone empties its `abort` list; every other field of the clone and of the original stays as it was |
| Bench.Benchmark.BeginCycle | src/benchmark.ts:507-523 | a live cycle is counted and raises the original's cycle count to at least it; an error is emitted and, unless that is cancelled, the clone aborts as `abort()` does, otherwise its run state stays; nothing else of the clone or the original changes |
| Bench.Benchmark.AdaptCount | src/benchmark.ts:525-542 | the clone and its original record exactly the period, `hz`, `initCount`, count and running state of the count rule; the original's count, cycles, error and run state stay |
| Bench.Benchmark.EndCycle | src/benchmark.ts:545-549 | `cycle` is emitted, and an aborted cycle event aborts the clone as `abort()` does; otherwise its run state stays |
| Bench.Benchmark.Cycle | src/benchmark.ts:502-549 | a live cycle is counted; without an error or abort the clone ends in the state the count rule gives; the original's count, error and run state never change |

## Left out

- `getMean`, `isStringable` and `cloneDeep` in src/util.ts: no core member reads them.
- Code generation and timing: `compile`, `clock`, `getRes`, `invoke`, `compute`'s call to `invoke`, `evalute`, `delay` and `runScript`. They build and time source text on the host, so the model takes the clocked time of a cycle as a parameter.
- The end of `cycle` (src/benchmark.ts:551-569). It schedules the next cycle or emits `complete`, which is host scheduling. Likewise `Run` only reports whether `run` would go on to cycle or compute (a `Deferred` never arises, since `defer` is never set).
- `toFixed` and all floating-point rounding: `toString` takes `toFixed` as a parameter. Real arithmetic stands in for IEEE doubles, so values right at the 1.96 boundary of the z-test may round differently in the source.
- Bench.Benchmark.AdaptCount: requires a count of at least 1, the corrected start of the count-0 finding below; `Statics.CountStepAsWritten` models the count of 0 the source starts from.
- Bench.Benchmark.Cycle: same requirement as `AdaptCount`. Its contract states the clone's end state only for the cycle with no error and no abort; `BeginCycle` and `EndCycle` state the other paths.
- Statics.CountStepAsWritten: a zero clock with a zero count is excluded. The period is then `0 / 0`, a `NaN`, which the model has no value for.
- Statics.SortBy: the source's comparator (src/benchmark.ts:173-177) answers −1 both ways for equal `mean + moe`, so the JavaScript engine decides the order of equal keys; `SortBy` keeps input order. Which of the tied benchmarks heads `Extreme`, and so which others `compare` ties with it, is that choice. The `HeadTies` lemmas state the result for every order the engine may produce.
- The undefined `support` of the source (see above): `Abort` and `Reset` take a support object, so the `TypeError` thrown at src/benchmark.ts:418 and the `calledBy.reset` it leaves set are not modelled.
- `NaN`: a z-test with an empty sample and more than 30 values in all divides by zero. The source then compares `NaN`, so the result is 0, which `CompareEmpty` states. No other `NaN` is modelled.
- Listeners' effects during a benchmark's own emissions. `Abort`, `Run`, `Update` and the cycle members take each emitted event's outcome (cancelled, aborted) as a parameter. They log the event in the ghost sequence `emitted` rather than running the registry; `Emitter.EventEmitter.Emit` is the model of running it.
- Bench.Benchmark.Update: the original's `emit('cycle')` is logged only. Its listeners are not run.
- `clearTimeout` (src/benchmark.ts:419) is a host call; the model only drops `timerId`.
- The unique id from `uuid()` is a parameter of the constructor and of `Clone`. The `'<Test #id>'` title is unreachable, because the id is always a string.
- The constructor overloads that take a test function: `fn`, `setup` and `teardown` are not part of the model.
- `Benchmark.Suite` (src/suite.ts) and the lodash wrappers around it.
- `enqueue` receives the queue as a value and returns the extended queue, where the source pushes onto the caller's array.
- The `Event` field `message`, which `cycle` sets to the clone's error (src/benchmark.ts:517), is not tracked: no modelled member reads it. `timeStamp` is tracked, but no source line sets it, so it keeps the value the event was built with.
- A thrown `TypeError`, such as a missing registry entry in `on`/`off` or a `null` original in `update`, is a precondition here rather than a modelled failure.

## Findings

| source | as written | input that shows it | evidently intended | confidence | as-written member | corrected member |
|---|---|---|---|---|---|---|
| src/benchmark.ts:164-184 | for `'successful'` the callback `cb` is built but `_.filter(array, callback)` is passed the string; lodash reads it as a property name, which no benchmark has, so `'successful'`, `'fastest'` and `'slowest'` all return `[]` | `filter([b], 'successful')` where `b` has cycled with a finite `hz` and no error: returns `[]` | pass `cb`, keeping the successful benchmarks | high; not executed | Statics.FilterAsWritten (shown by Statics.AliasesAsWrittenAreEmpty and Statics.FilterAsWrittenDiffers) | Statics.Filter (Statics.FilterSuccessful, Statics.ExtremeHead) |
| src/event.ts:30 | the constructor body is empty, so `new Event('start')` has no `type`; `emit` looks up `event.type` and runs no listener for any event a benchmark creates this way | one listener registered for `abort`, then `abort()` on a running benchmark: the listener never runs | store the type (and clear the flags) | high; not executed | Types.EventAsWritten (shown by Emitter.UntypedEventReachesNoListener) | Types.NewEvent |
| src/benchmark.ts:203 | the field `initCount` defaults to 0 and is never read from the options (whose `initCount` is 1, line 27), so `run` (line 299) starts every clone at a count of 0; `cycle` then divides the clocked time by 0, records an infinite period and an `hz` of 0, and the count stays 0: the clone's `minTime` is unset (`clocked < undefined` is false), so it stops after one cycle with `hz` 0, and even a `minTime` above the clock, which no reachable line sets, would only add `Math.ceil(x / Infinity)`, which is 0 | a clone from `enqueue`, run, that clocks 0.01 s: `hz` is recorded as 0 and the count stays 0 | start from the option `initCount` (1), from which a cycle records a finite `hz` and, below `minTime`, grows the count to the least one reaching it | high; not executed | Statics.CountStepAsWritten (shown by Bench.EnqueuedCloneStartsAtZero and Statics.ZeroCountStalls) | Statics.CountStep (Statics.CountStepHz, Statics.CountStepGrowth, Statics.CountStepAsWrittenFromOne) |
