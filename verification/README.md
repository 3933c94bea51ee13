# fp-async-generator-streams, the stream core in Dafny

This project models the core of `src/stream.ts`. There, a `Stream<A>` is a
function that starts a fresh async generator. Operators wrap one generator
in another with a `for await` loop and a little loop state. Terminal
operations fold a stream into a task. In the model, one run of a stream is
the finite sequence of elements its generator yields, one pull per element.
Each operator is a recursive function over that sequence. Its parameters
are the source loop's state: a counter, an index, a flag or a buffer.

The modules:

- `Wrappers`: `Option` and integer helpers.
- `Consume`: `execute` (the terminal fold), and `toArray`, `length`, `last`
  and `isEmpty`, which are built on it.
- `Broadcast`: `broadcast`. One live run of the source is shared by two
  sides. A pull of one side yields that side's buffer and the new element,
  and stages the element for the other side. A second run of a side fails
  with "Broadcasted stream already consumed".
- `Chunking`: `chunksOf` and `chop`.
- `Generators`: `fromRec`, `fromRange`, `unfold` and `makeBy`. Some
  generators never stop, so each loop runs for at most `fuel` iterations.
  The result records whether the loop ended by itself.
- `Operators`: the operators below.
  - `take`, `drop`, `head`
  - `takeWhile`, `dropWhileIndex`, `dropWhile`
  - `init`, `uniq`
  - `insertAt`, `modifyAt`, `rotate`
  - `zipWith`, `chainWithIndex`, `filterMapWithIndex`
  - `getSemigroup().concat`
- `Pipelines`: compositions that the library's tests run. It also shows
  that a fuel bound does not change what a pipeline returns.

Most operators are modelled once, as a recursive function whose
parameters are the loop's state. A few loops are also written as methods
with loop invariants:

- `Execute`, `FromRec`, `Unfold` and `ChunksOf`: the method's contract
  equates it with a recursive reference definition;
- `MakeBy`: the contract states the length and every element directly.

`Broadcast.Drain` is a loop of the model, not of the source. It pulls one
side of a broadcast until that side returns.

## Model

| member | source | states |
|---|---|---|
| Consume.Execute | src/stream.ts:91-101 | the accumulator the loop returns is the left fold of the combiner over every element, in order, from the seed |
| Consume.FoldAppend | src/stream.ts:91-101 | folding a concatenation continues from the first part's accumulator, so each element is combined exactly once, in order |
| Consume.ToArray | src/stream.ts:125 | collecting with the append combiner gives exactly the stream's elements, in order |
| Consume.Length | src/stream.ts:149 | counting from zero gives the number of elements |
| Consume.Last | src/stream.ts:206-210 | none for an empty stream, otherwise some of the final element |
| Consume.IsEmpty | src/stream.ts:2387 | true exactly when the stream yields no element |
| Consume.KeepLast | test/fromRec.ts:20-25 | folding with "keep the latest element" returns the last element, or the seed when there is none |
| Broadcast.Start | src/stream.ts:574-580 | a fresh session satisfies the session invariant: neither side started, both buffers empty, nothing delivered |
| Broadcast.Open | src/stream.ts:584-588 | running a side that was already run fails with the already-consumed error and changes nothing; a first run marks the side consumed |
| Broadcast.Advance | src/stream.ts:590-598 | while the source has an element left, a pull advances the shared cursor by one, yields the side's buffer followed by that element, and appends the element to the other side's buffer |
| Broadcast.Finish | src/stream.ts:590-600 | once the source is done, a pull yields what is left in the side's buffer and the side returns; the other side is untouched |
| Broadcast.Pull | src/stream.ts:590-620 | a pull yields the side's buffer and then the new element; it stages that element in the other side's buffer, advances the shared cursor by at most one, and makes the side return exactly when the source is done; the other side's output is unchanged |
| Broadcast.Run | src/stream.ts:574-624 | every interleaving of pulls keeps the session invariant: each side's output plus its buffer is the source up to the cursor |
| Broadcast.InterleavingFidelity | src/stream.ts:574-624 | under every interleaving each side has yielded a prefix of the source, and a side that has returned has yielded the whole source |
| Broadcast.Step | src/stream.ts:590-601 | one pull of a side that has not returned extends its output by the batch and brings it closer to returning |
| Broadcast.Drain | src/stream.ts:590-601 | pulling one side until it returns yields exactly the part of the source that side had not yielded, and leaves the other side's output alone |
| Broadcast.CollectBoth | test/broadcast.ts:7-23 | collecting the left side and then the right side of one broadcast gives the full source on both sides |
| Broadcast.LockStep | src/stream.ts:590-620 | when the two sides are pulled alternately, a buffer never holds more than one element |
| Broadcast.PendingIsLag | src/stream.ts:590-620 | a side's buffer is exactly the part of the source between what that side has yielded and the shared cursor |
| Chunking.ChunksOf | src/stream.ts:974-991 | for a positive size the result is the reference chunking; for a size of zero or less, the first element flushes an empty chunk and every element becomes a chunk of its own; an empty source gives no chunks |
| Chunking.ChunksIsChunking | src/stream.ts:945-947 | the chunks concatenate back to the source; each has between 1 and n elements, and all but the last have exactly n |
| Chunking.ChunkingUnique | src/stream.test.ts:205-231 | any list of full chunks followed by one non-empty partial chunk is what chunking its concatenation gives |
| Chunking.ChunksAppend | src/stream.ts:946-952 | chunking distributes over concatenation when the size divides the length of the first part |
| Chunking.ChunksExamples | src/stream.test.ts:189-202 | the chunking examples give [[1, 2], [3, 4], [5]], [[0, 1, 2], [3, 4]] and [[0, 1, 2]], and an empty source gives [] |
| Chunking.ChopRest | src/stream.ts:1150-1165 | the loop ends at once, with nothing yielded, on an empty remainder; otherwise it yields the step's value first |
| Chunking.ShrinkingChopEnds | src/stream.ts:1150-1165 | a step that shrinks the remainder makes the loop end by itself, with at most one value per element |
| Chunking.Chop | src/stream.ts:1143-1166 | the step is applied once before the loop, even to an empty input, so at least one value is yielded and the first is the step's |
| Chunking.ChopChunks | src/stream.ts:1143-1166 | chopping with the split-off-one-chunk step is chunking, except that an empty input yields one empty chunk |
| Chunking.ChopRestChunks | src/stream.ts:1150-1165 | the chop loop with the chunk step is the reference chunking of the remainder |
| Generators.FromRec | src/stream.ts:1725-1739 | the do-while loop yields what the reference recurrence yields and ends exactly when it does |
| Generators.RecRunStep | src/stream.ts:1730-1738 | one iteration of the do-while loop moves the cursor's value to the output and ends the loop exactly when the new cursor is absent |
| Generators.RecRunIterates | src/stream.ts:1725-1739 | from a present seed the stream is the seed followed by each further application of the step while it is present; when the loop ends, the next application is absent |
| Generators.RecRunExtends | src/stream.ts:1725-1739 | more iterations only extend the output, and a loop that ended is unchanged by more iterations |
| Generators.AbsentSeed | src/stream.ts:1730-1738 | with an absent seed the body still runs once: nothing is yielded and the stream continues from the step applied to none |
| Generators.FromRange | src/stream.ts:1814-1823 | consecutive integers from start; every element after the seed is below end; the stream ends by itself only when end is given and the next integer would reach it, and otherwise runs for all its iterations |
| Generators.RangeBelowEnd | src/stream.ts:1814-1823 | when start is below end, the range yields start up to end minus one and then ends |
| Generators.EmptyRangeYieldsStart | src/stream.ts:1814-1823 | the seed is yielded unconditionally, so a range whose start is not below its end yields [start] |
| Generators.RangeUnbounded | src/stream.ts:1814-1823 | with the default end the range never ends, and n iterations yield the next n integers |
| Generators.Unfold | src/stream.ts:1330-1343 | the loop yields what the reference unfolding yields and ends exactly when the step first returns none |
| Generators.RecIsUnfold | src/stream.ts:1725-1739 | a recurrence from a present seed yields what unfold over the cursor yields |
| Generators.CountDownExample | test/unfold.ts:8-18 | unfolding from 5 with "twice the state, count down" gives [10, 8, 6, 4, 2] and ends |
| Generators.MakeBy | src/stream.ts:1378-1384 | max(0, n) elements, the i-th being f(i) |
| Operators.Take | src/stream.ts:707-721 | the first n elements; all of them when there are fewer; none when n is not positive |
| Operators.TakePulls | src/stream.ts:707-721 | the count is checked only after a pull, so take pulls one element more than it lets through, unless the source ends first |
| Operators.Drop | src/stream.ts:799-812 | everything after the first n elements; the whole source when n is not positive |
| Operators.TakeDrop | src/stream.ts:799-812 | take(n) followed by drop(n) gives back the source, for every integer n |
| Operators.Head | src/stream.ts:234 | last of take(1): none for an empty stream, otherwise the first element |
| Operators.TakeWhile | src/stream.ts:744-755 | a prefix of the source whose elements all satisfy the predicate, cut at the first element that fails it |
| Operators.DropWhileIndexFrom | src/stream.ts:846-860 | once the flag is on every remaining element is yielded; before that, the loop drops exactly the longest prefix whose elements satisfy the predicate with their index |
| Operators.DropWhileIndex | src/stream.ts:842-861 | a suffix of the source; every dropped element satisfies the predicate with its index, and the first kept element fails it |
| Operators.DropWhile | src/stream.ts:885-887 | a suffix of the source; every dropped element satisfies the predicate, and the first kept element fails it |
| Operators.TakeWhileDropWhile | src/stream.ts:885-887 | what takeWhile keeps followed by what dropWhile keeps is the source |
| Operators.DropWhileIndexExample | test/dropWhileIndex.ts:8-14 | dropping while "not c, or index below 3" from "cbace" leaves "ce" |
| Operators.Init | src/stream.ts:651-663 | every element but the last; nothing for an empty source |
| Operators.InitLast | src/stream.ts:651-663 | init followed by last gives back a non-empty source |
| Operators.Uniq | src/stream.ts:521-538 | a subsequence of the source; no kept element equals a later kept one; every source element was kept or equals a kept one |
| Operators.UniqFrom | src/stream.ts:524-536 | what the loop yields from a given seen list is a subsequence of the rest of the source |
| Operators.UniqFromSeparated | src/stream.ts:524-536 | no kept element equals a later kept element or any element already seen |
| Operators.UniqFromCovers | src/stream.ts:524-536 | every element of the source was kept, or equals an element that was kept, by this call or before it |
| Operators.UniqDistinct | src/stream.ts:521-538 | under plain equality the result holds each distinct source element exactly once, and nothing else |
| Operators.UniqFromSnoc | src/stream.ts:527-535 | one more source element is appended to the output exactly when no element seen or kept so far equals it |
| Operators.UniqSnoc | src/stream.ts:501-538 | uniq keeps the first occurrence: uniq of xs followed by a appends a to uniq of xs exactly when no kept element equals it |
| Operators.UniqStep | src/stream.ts:527-535 | the element at index k is kept exactly when no element kept from the indexes before k equals it; with uniq of [] being [], this fixes the whole result |
| Operators.UniqExample | test/uniq.ts:8-13 | uniq of [1, 2, 1] is [1, 2] |
| Operators.InsertAt | src/stream.ts:1446-1459 | as written, the element is inserted at index i for 1 <= i <= length, and the source is unchanged for every other index |
| Operators.InsertAtExamples | test/insertAt.ts:8-20 | inserting 5 at 2 and at 4 into [1, 2, 3, 4] gives [1, 2, 5, 3, 4] and [1, 2, 3, 4, 5] |
| Operators.InsertAtZeroIgnored | src/stream.ts:1446-1459 | inserting at index 0 leaves the source unchanged, although index 0 is in bounds |
| Operators.InsertAtChecked | src/stream.ts:1420-1422 | as documented, the element is inserted at every index from 0 to the length, and the source is unchanged only for an out-of-bounds index |
| Operators.InsertAtAgreesAwayFromZero | src/stream.ts:1446-1459 | the code as written and the documented behaviour agree at every index except 0 |
| Operators.ModifyAt | src/stream.ts:1488-1497 | f is applied to the element at index i; the source is unchanged when i is out of bounds |
| Operators.Rotate | src/stream.ts:1680-1698 | the first n elements are held back and yielded after the rest |
| Operators.RotateIsDropThenTake | src/stream.ts:1680-1698 | rotate(n) is drop(n) followed by take(n), a permutation of the source; rotate(2) of [1, 2, 3, 4, 5] is [3, 4, 5, 1, 2] |
| Operators.ZipWith | src/stream.ts:1547-1561 | the shorter length; the i-th element is f of the two i-th elements |
| Operators.ChainWithIndex | src/stream.ts:1083-1095 | the concatenation, in order, of the streams f(i, a) for each element a at index i |
| Operators.ChainWithIndexExample | test/chainWithIndex.ts:8-13 | each of a, b, c twice, tagged with its index |
| Operators.FilterMapWithIndex | src/stream.ts:2172-2186 | the present values of f(i, a), in order, at most one per element |
| Operators.FilterMapIsChain | src/stream.ts:2172-2186 | filterMapWithIndex is chainWithIndex with f read as a stream of at most one element |
| Operators.FilterMapWithIndexExample | test/filterMapWithIndex.ts:8-15 | the upper-cased elements at odd indexes of [a, no, neither, b] are [NO, B] |
| Operators.Concat | src/stream.ts:2554-2560 | everything the first stream yields, then everything the second yields |
| Operators.ConcatMonoid | src/stream.ts:2584-2587 | concat is associative, and the empty stream is its identity on both sides |
| Pipelines.TakeOfUnbounded | src/stream.ts:707-721 | take(n) of the unbounded range gives the first n integers and pulls n + 1 of them, so a source allowed n + 1 pulls behaves like the infinite one |
| Pipelines.LazyTakeExample | test/stream.ts:23-44 | counting up from some(0), then take(5), gives [0, 1, 2, 3, 4] |
| Pipelines.TakeExamples | test/take.ts:10-44 | take of 2, 7, 0 and -1 from the range 1 to 5 gives [1, 2], [1..5], [] and [] |
| Pipelines.TakePrefix | test/take.ts:46-82 | a prefix of length n followed by anything is cut back to that prefix by take(n) |
| Pipelines.LastOfRange | test/fromRec.ts:18-26 | folding the range 0 to n with "keep the latest" from -1 gives n - 1; for n of 0 or less it gives 0, because the seed is always yielded |
| Pipelines.RangeChunksTake | src/stream.test.ts:180-187 | chunks of 5 of the unbounded range, then take(2), give [0..4] and [5..9] |
| Pipelines.RangeTakeChunks | src/stream.test.ts:198-202 | take(3) of the unbounded range, chunked by 3, is one full chunk |
| Pipelines.FromRangeExample | test/fromRange.ts:7-13 | the range 0 to 5, collected, is [0, 1, 2, 3, 4] |

## Left out

- The async machinery is not modelled: promises, tasks and `for await`. A
  stream is the sequence one run yields, and a pull is one element of it.
  Running the same stream twice is taken to give the same sequence again.
  That holds only for a restartable source without effects. It does not
  hold for a broadcast side, which fails on its second run; for the
  remainders `chop` hands to its step, which resume one live iterator;
  or for `fromTask` and `fromIO`.
- Broadcast.Pull: the batch one pull yields is taken as one step. The
  other side cannot run in the middle of a `yield*`. So after every pull
  the pulling side's buffer is empty, and the return test "done and buffer
  empty" reduces to "done".
- Broadcast.Open: the already-consumed check runs when a side's generator
  is first pulled, not when it is created. The model folds that check into
  `Open`.
- Broadcast.Pull: `undefined` elements are not modelled. The source drops
  them from the batch and from the other side's buffer. The element type
  here is generic and has no `undefined` value.
- Generators.RecRun: `fromRec` and `unfold` may never end, so the model
  runs them for at most `fuel` iterations. The same holds for
  Generators.UnfoldRun and Chunking.ChopRest. A result whose loop did not
  end by itself says nothing about later elements.
  - Generators.RecRunExtends shows that more fuel only extends the output.
  - Pipelines.TakeOfUnbounded shows that `take` needs only n + 1 pulls.
- Chunking.Chop: the step in the source works on streams. It gets the
  remainder with its first element pulled and prepended again. Here the
  step works on the sequence of remaining elements. From the second step
  on, that stream is single-pass: it resumes one live iterator, and a
  step that stops reading early closes it. So Chunking.Chop and
  Chunking.ChopRest model only steps that read their input once and do
  not stop early. The broadcast-based step of the `chop` documentation
  example and `splitAt` are such steps, and Chunking.ChopChunks relies
  on that. A step that reads the head with `take(1)` and then drops one
  element is not such a step: in the source it closes the iterator
  after the first pulls, while the model applies it to the whole
  remainder.
- Generators.MakeBy: `Math.floor` of a non-integer count is not modelled.
  The count is an integer. Likewise, non-integer counts and indexes for
  `take`, `drop`, `chunksOf`, `insertAt`, `modifyAt` and `rotate` are
  not modelled. These are floating-point comparisons in the source.
- Generators.FromRange: `start` and `end` are numbers in the source, and
  the model takes integers. A non-integer start counts up in steps of one
  from there, so `fromRange(0.5, 2)` yields 0.5 and 1.5. That is not
  modelled. Numbers are also doubles: from 2^53 on, `r + 1` rounds back
  to `r`, so the range stops increasing, and with an end above it the
  stream never ends (`fromRange(2 ** 53, 2 ** 53 + 2)` repeats 2^53). The
  model's integers are exact, so Generators.FromRange,
  Generators.RangeBelowEnd and Generators.RangeUnbounded hold only below
  2^53. Likewise the counters of `take`, `drop`, `insertAt`, `modifyAt`,
  `rotate`, `chainWithIndex`, `filterMapWithIndex` and `dropWhileIndex`
  are exact only up to 2^53 elements.
- Operators.ZipWith: the pull order is not modelled. The source pulls both
  sources before it checks whether either is done, so it pulls one element
  of the longer source that is never used.
- Operators.Rotate: the documentation example says `rotate(2)` of
  [1, 2, 3, 4, 5] is [4, 5, 1, 2, 3]. The code holds the first n elements
  back, which gives [3, 4, 5, 1, 2]. The model follows the code.
- The typeclass instances are not modelled: Functor, Monad, Filterable
  and the rest. Only `getSemigroup` and `getMonoid`, as `Concat` and its
  identity, are modelled.
- Operators built by composition from modelled ones are not modelled:
  `spanLeft`, `splitAt`, `unzip`, `separate` and the find and partition
  families.
- `fromTask` and `fromIO` are not modelled. They run effects that the
  model cannot see.

## Findings

| source | as written | input that shows it | evidently intended | confidence | as-written member | corrected member |
|---|---|---|---|---|---|---|
| src/stream.ts:1446-1459 | the counter is incremented before it is compared with `i`, so the element is inserted only after the element that makes the count reach `i`, and index 0 is never reached | `insertAt(0, 9)` of [1, 2] yields [1, 2] | the documentation says only an out-of-bounds index leaves the stream unchanged, so index 0 should give [9, 1, 2] | not executed | Operators.InsertAtZeroIgnored | Operators.InsertAtChecked |
