# Rings, bucket brigades, hooks and alignment of the Apache headers

The headers under `Apache24/include` declare most of the Apache and APR interface without
bodies. A few of them do contain algorithms, written as macros. This project models those
macros and proves what they promise.

* **Rings** (`apr_ring.h`). Intrusive doubly linked rings with a sentinel that shares the two
  pointers of the head. `Links` holds the link fields of a set of elements as a value and
  gives every macro as its stores, in the macro's order. `Rings` has the same macros as
  methods that update `next` and `prev` fields in place, each tied to its function in
  `Links`. `RingLaws` says what a well-formed ring is (one cycle on which `next` and `prev`
  are inverse) and what the macros make of it; `RingUndo` is about cuts and putting
  back, `UndoOrders` about undoing any number of removals in any order, `RingTails` about
  cutting and rejoining, `RingMoves` about iterating while moving elements to another ring,
  `RingRuns` about all runs of single-element and segment operations over any number of rings,
  cycles without head and loose segments, `RingSteps` about which operations a run may make and
  exactly what each leaves, `RingJoins` about when joining two heads is safe, and `RingCheck` about the debugging walk over links that may be arbitrary.
* **Bucket brigades** (`apr_buckets.h`). `Buckets` defines the observable stream of a brigade
  (bytes interleaved with metadata) and what partitioning and sweeping do to it.
  `SharedBuckets` is the state machine of make, split, copy and destroy of reference-counted
  data. `Brigades` has the brigade macros, bucket deletion, clearing, cutting and sweeping as
  methods on rings in memory, with a log of the destroy and free calls.
  `Clearing` runs that log on the state machine and says which data it releases.
* **Hooks** (`apr_hooks.h`, `apr_optional_hooks.h`). `Hooks` has registration and the four
  runners as methods, and the laws of the runs. A hook function is any state transformer.
* **Alignment** (`apr_general.h`). `Align` relates the bit mask of `APR_ALIGN` to arithmetic
  rounding, for words of any width and for a size and a boundary of different widths.

In memory, a head is an element too: the address arithmetic of `APR_RING_SENTINEL` makes
`FIRST(hp)` and `NEXT(sentinel)` one and the same cell. Macro arguments are passed by value,
except in `CONCAT` and `PREPEND`, where the header itself passes `FIRST(h2)` and `LAST(h2)`
into a macro that repeats them; there they are read again at every place. A removed or freed
element has its links overwritten with arbitrary pointers, so a proof cannot rest on them.

Where the header's comments and its code disagree, the code is followed:

* The warnings on `APR_RING_SPLICE_BEFORE` and `APR_RING_SPLICE_AFTER` say that they do not
  work at the ends of a ring or on an empty ring. The code does, when `lep` is the sentinel
  or the first or last element (`RingLaws.SpliceBeforeAt`, `RingLaws.SpliceAfterAt`), and
  `SPLICE_HEAD` and `SPLICE_TAIL` rely on it.
* `APR_RING_CONCAT` and `APR_RING_PREPEND` promise to empty `h2` and to extend `h1`. For any two
  heads of a well-formed state, every element stays on the ring of some head if and only if the
  heads differ or the ring is empty (`RingJoins.JoinKeepsElementsIff`). With `h1` and `h2` the
  same non-empty ring the elements are left on a cycle that no head is on
  (`RingLaws.JoinOntoItselfLosesElements`); with two rings that share nothing the promise is
  kept in full (`RingLaws.ConcatJoins`, `RingLaws.PrependJoins`).
* `APR_ALIGN` is rounding up exactly as long as the sum inside it does not overflow, and for all
  sizes exactly if the boundary is a power of two. If the boundary is narrower than the size, its
  zero-extended mask clears the high bits, and rounding up ends where the sum leaves the width of
  the boundary (`Align.MixedIsLeastMultipleIff`).

The dangling pointers that a removal leaves behind are enough to undo it, if the order is right.
Of two removed elements say that they met if nothing was left between them on the list when the
later of the two was removed. Any number of removals, undone in any order, restore every field if
and only if of any two that met the one removed later is put back first
(`UndoOrders.UndoRestoresIff`). So undoing last to first always works, undoing first to last works
if and only if no two of the elements were neighbours, and if no two were neighbours every order
works.

Two contracts leave a choice open, and the model keeps it open. A split at the very end of a
bucket may succeed or be refused with `APR_EINVAL`. A partition at an offset where buckets
without bytes stand may point at any of them.

## Model

| member | source | states |
|---|---|---|
| RingLaws.SpliceAfterAt | Apache24/include/apr_ring.h:245-250 | splicing any linked segment after any position of any ring, sentinel included, inserts it there in the sequence |
| RingLaws.SpliceBeforeAt | Apache24/include/apr_ring.h:228-233 | the same before any position; before the sentinel is at the tail |
| RingLaws.SpliceBeforeStores | Apache24/include/apr_ring.h:228-233 | the net effect of the four stores on every field, for any aliasing of the arguments |
| RingLaws.SpliceAfterStores | Apache24/include/apr_ring.h:245-250 | likewise |
| RingLaws.SpliceBeforeIsSpliceAfter | Apache24/include/apr_ring.h:228-250 | splicing before lep leaves the same heap as splicing after the old PREV(lep) |
| RingLaws.SelfLinkMakesEmptyRing | Apache24/include/apr_ring.h:192-195 | INIT gives an empty ring, and no cycle without that head changes |
| RingLaws.UnspliceCuts | Apache24/include/apr_ring.h:357-369 | UNSPLICE removes exactly that segment from the sequence; the segment stays linked and its ends keep pointing at the gap |
| RingLaws.UnspliceStays | Apache24/include/apr_ring.h:357-369 | UNSPLICE of a part of a ring writes no field outside that ring |
| RingLaws.UnspliceIsNoOpIff | Apache24/include/apr_ring.h:364-369 | UNSPLICE changes nothing exactly if the outer neighbours bypass the segment already, as with a singleton |
| RingLaws.UnspliceTwice | Apache24/include/apr_ring.h:364-369 | on any graph, UNSPLICE of the same segment twice in a row is UNSPLICE once |
| RingLaws.StaleUnspliceTakesGap | Apache24/include/apr_ring.h:357-369 | a segment is taken out of a ring, another is spliced into the gap, and UNSPLICE of the first again takes out the second, whole and still linked |
| RingLaws.UnspliceByNeighbours | Apache24/include/apr_ring.h:364-369 | on any graph, UNSPLICE does the same for any two segments with the same outer neighbours |
| RingLaws.RemoveOne | Apache24/include/apr_ring.h:377-378 | REMOVE deletes one position and touches no field outside the ring |
| RingLaws.ConcatIsSpliceByValue | Apache24/include/apr_ring.h:332-355 | the repeated reads of FIRST(h2) and LAST(h2) keep their values through all stores |
| RingLaws.ConcatJoins | Apache24/include/apr_ring.h:325-339 | h1 becomes s1+s2 and h2 empty, in all four cases, and nothing else changes |
| RingLaws.PrependJoins | Apache24/include/apr_ring.h:341-355 | h1 becomes s2+s1 and h2 empty, in all four cases, and nothing else changes |
| RingLaws.JoinOntoItselfLosesElements | Apache24/include/apr_ring.h:332-355 | CONCAT or PREPEND of a non-empty ring onto itself empties the head and leaves the elements on a cycle without it |
| RingJoins.JoinKeepsElementsIff | Apache24/include/apr_ring.h:325-355 | in every well-formed state, CONCAT keeps each element on the ring of some head exactly if the two heads differ or the ring is empty, and so does PREPEND |
| RingLaws.CycleIsUnique | Apache24/include/apr_ring.h:43-44 | the ring an element is on is determined by the links alone, without knowing the head |
| RingLaws.RingDeterminesFields | Apache24/include/apr_ring.h:97-143 | the sequence of a ring determines every link field in it |
| RingUndo.PutBackUndoesTakeOut | Apache24/include/apr_ring.h:228-233 | SPLICE_BEFORE at the dangling next pointer undoes UNSPLICE in every field, exactly if the segment's neighbours pointed back at it |
| RingUndo.StackRestores | Apache24/include/apr_ring.h:357-378 | any stack of such cuts, on any graph, is undone in reverse order |
| RingUndo.UnspliceStackRestoresRing | Apache24/include/apr_ring.h:364-378 | any list of cuts out of a ring, adjacent ones and the emptying of the ring included, leaves the ring of the rest, and undoing it restores the whole graph |
| RingUndo.FitsIff | Apache24/include/apr_ring.h:364-369 | such a list is any in which each cut lies within what the cuts before it leave |
| RingUndo.FirstToLastRestoresIff | Apache24/include/apr_ring.h:357-378 | two different segments whose neighbours point back at them, on any graph, taken out and put back in that same order, restore every field exactly if neither stood next to the other |
| RingUndo.SpansFirstToLastRestoreIff | Apache24/include/apr_ring.h:364-378 | for any two disjoint spans of a ring, in either order, that is exactly if neither ends where the other begins |
| RingUndo.RemovalsFirstToLastRestoreIff | Apache24/include/apr_ring.h:373-378 | for two removals at positions i and j, it is exactly if i and j are not adjacent |
| RingUndo.FirstToLastDoesNotRestore | Apache24/include/apr_ring.h:373 | the failing case: two adjacent removals, made in either order and undone in that order, never restore the graph |
| UndoOrders.UndoRestoresIff | Apache24/include/apr_ring.h:364-378 | any number of removals, undone in any order, restore every field of the graph exactly if of any two elements that met the one removed later goes back first |
| UndoOrders.ChosenIff | Apache24/include/apr_ring.h:373-378 | where the removals are of any part of the elements of a ring, each once |
| UndoOrders.FirstToLastUndoesIff | Apache24/include/apr_ring.h:364-378 | any number of removals undone in the order they were made restore the graph exactly if no two of the elements were neighbours |
| UndoOrders.SeparateUndoInAnyOrder | Apache24/include/apr_ring.h:364-378 | if no two of the removed elements were neighbours, undoing in every order restores the graph |
| UndoOrders.LastToFirstRestores | Apache24/include/apr_ring.h:364-378 | undoing the latest removal first always restores the graph |
| UndoOrders.TakeEachBridges | Apache24/include/apr_ring.h:364-378 | after any removals the links of the ring skip exactly what is out, and each removed element still points at what followed it when it was removed |
| UndoOrders.UndoRestoresIffAllFitBack | Apache24/include/apr_ring.h:228-233 | from there, putting back restores the graph exactly if each element finds its place between its neighbours of that moment |
| RingTails.CutTailSplits | Apache24/include/apr_ring.h:364-369 | moving e..last onto an empty ring splits the sequence at e |
| RingTails.ConcatUndoesCutTail | Apache24/include/apr_ring.h:332-339 | CONCAT of the two halves restores every field of the graph before the cut |
| RingRuns.StepKeeps | Apache24/include/apr_ring.h:192-378 | each operation on elements, segments or whole rings, used as its macro asks, keeps all rings, cycles without head and loose segments well formed and pairwise disjoint and does to the sequences what its name says |
| RingRuns.RunKeeps | Apache24/include/apr_ring.h:192-378 | so does every run of such operations over any number of rings, cycles without head and loose segments |
| RingSteps.StartIsWellFormed | Apache24/include/apr_ring.h:187-195 | before the first ring is made, the state is well formed |
| RingSteps.RunOneMore | Apache24/include/apr_ring.h:192-378 | a run goes on with any operation allowed in the state it has reached, and the fields go on with the stores of that operation |
| RingSteps.RunOfNothing | Apache24/include/apr_ring.h:192-378 | a run of no operations changes nothing |
| RingSteps.InitStep | Apache24/include/apr_ring.h:192-195 | INIT is allowed exactly for a loose element, which becomes a head, and for a head; the list is then empty, and the elements it had stay linked as a loose segment |
| RingSteps.ElemInitStep | Apache24/include/apr_ring.h:212-215 | ELEM_INIT is allowed exactly for a loose element and for one that a cycle without head is entered under; what was behind it stays linked |
| RingSteps.InsertStep | Apache24/include/apr_ring.h:228-250 | any part of a loose segment can be spliced before or after anything on a ring, and what stood before and after that part stays linked |
| RingSteps.InsertSingleStep | Apache24/include/apr_ring.h:261-274 | so can any single element that is on no ring and in no loose segment |
| RingSteps.TakeSegStep | Apache24/include/apr_ring.h:364-369 | any segment of any ring can be taken out; the list loses just that segment, which joins the loose ones |
| RingSteps.TakeWholeStep | Apache24/include/apr_ring.h:364-369 | a whole cycle without head can be taken, and that changes nothing |
| RingSteps.TakeInsideStep | Apache24/include/apr_ring.h:364-369 | the inside of a loose segment can be taken out, and what stood around it closes up |
| RingSteps.JoinAllowedIff | Apache24/include/apr_ring.h:325-355 | a run may CONCAT or PREPEND two heads exactly if the macro keeps each element on the ring of some head |
| RingSteps.JoinStep | Apache24/include/apr_ring.h:325-355 | any two different heads may be joined; one list goes behind or before the other, and the rest of the state is as before |
| RingSteps.EnterUnderStep | Apache24/include/apr_ring.h:43-44 | a cycle without head may be seen from any of its elements |
| RingSteps.EnterAsSegmentStep | Apache24/include/apr_ring.h:43-44 | a cycle without head may be seen as a segment |
| RingSteps.OthersStayLinked | Apache24/include/apr_ring.h:192-378 | a loose segment that shares nothing with the arguments of an operation stays spliceable |
| RingSteps.StrangersStay | Apache24/include/apr_ring.h:192-378 | an element on no ring and in no loose segment keeps its fields unless it is an argument |
| RingRuns.TakenSegCanGoBack | Apache24/include/apr_ring.h:357-378 | a segment taken out of a ring, of a cycle without head or out of the middle of a loose segment may be spliced back at anything that is on a ring |
| RingRuns.TakeWholeKeeps | Apache24/include/apr_ring.h:364-378 | UNSPLICE of a whole cycle without head, a singleton for one, changes no field |
| RingRuns.WholeCanBeSplicedIn | Apache24/include/apr_ring.h:43-44 | a cycle without head, a singleton for one, may be spliced as a whole into any other ring |
| RingRuns.HeadlessCanLoseAny | Apache24/include/apr_ring.h:43-44 | any element of a longer cycle may be removed without knowing a head |
| RingRuns.HeadAndTailSteps | Apache24/include/apr_ring.h:311-323 | in a well-formed state INSERT_HEAD and INSERT_TAIL put the element first or last on the list of that ring, and change no other list |
| RingRuns.BesideSteps | Apache24/include/apr_ring.h:261-274 | INSERT_BEFORE, INSERT_AFTER and REMOVE at an element put or delete exactly at its position, found without naming the ring |
| RingRuns.OnePlace | Apache24/include/apr_ring.h:61-63 | in a well-formed state each element is on one ring, at one position |
| RingRuns.StepAccounts | Apache24/include/apr_ring.h:192-378 | an operation links only what it inserts and unlinks only what it takes out: a segment, the elements of a ring initialised anew, or a cycle given up as a segment |
| RingRuns.RunConserves | Apache24/include/apr_ring.h:192-378 | over any run, an element is linked at the end as often as at the start, plus insertions, less removals |
| RingSteps.LinkedIff | Apache24/include/apr_ring.h:192-378 | where linked means on the list of some ring, or in a cycle without head |
| Rings.Elem.constructor | Apache24/include/apr_ring.h:212-215 | a new element is a singleton |
| Rings.Init | Apache24/include/apr_ring.h:192-215 | in memory: both fields point to the element, all others are as before |
| Rings.SpliceBefore | Apache24/include/apr_ring.h:228-233 | in memory: the four stores put ep1..epN between the old PREV(lep) and lep, and no other field changes; a segment goes in before lep at whichever position of whichever ring lep has, at the tail if lep is the sentinel |
| Rings.SpliceAfter | Apache24/include/apr_ring.h:245-250 | in memory: the mirror image, after lep |
| RingLaws.InsertedMeans | Apache24/include/apr_ring.h:228-250 | what the two contracts above say of a ring: the list that has the segment in it |
| Rings.InsertBefore | Apache24/include/apr_ring.h:261-262 | in memory: the splice of a single element before lep, with the ring it gives |
| Rings.InsertAfter | Apache24/include/apr_ring.h:273-274 | in memory: the splice of a single element after lep, with the ring it gives |
| Rings.SpliceHead | Apache24/include/apr_ring.h:286-288 | in memory: the splice after the sentinel, with the ring it gives |
| Rings.SpliceTail | Apache24/include/apr_ring.h:299-301 | in memory: the splice before the sentinel, with the ring it gives |
| Rings.InsertHead | Apache24/include/apr_ring.h:311-312 | in memory: the ring s becomes [nep]+s |
| Rings.InsertTail | Apache24/include/apr_ring.h:322-323 | in memory: the ring s becomes s+[nep] |
| Rings.Unsplice | Apache24/include/apr_ring.h:364-369 | in memory: the two outer neighbours bypass the segment, and no other field changes; whichever ring it was on is left with the rest, and the segment stays linked |
| RingLaws.TakenOutMeans | Apache24/include/apr_ring.h:364-369 | what that contract says of a ring: the list without the segment, which stays linked |
| Rings.Remove | Apache24/include/apr_ring.h:377-378 | in memory: UNSPLICE of a single element, with the ring it leaves |
| Rings.Concat | Apache24/include/apr_ring.h:332-339 | in memory: every field becomes what the macro's stores make of it, arguments re-read; two rings that share nothing become s+t and an empty one |
| Rings.Prepend | Apache24/include/apr_ring.h:348-355 | in memory: likewise, with t+s |
| RingLaws.JoinedMeans | Apache24/include/apr_ring.h:325-355 | what the two contracts above say of two rings: the joined list, and an empty one |
| Rings.Foreach | Apache24/include/apr_ring.h:387-390 | FOREACH visits the elements of the ring once each, in order, and ends |
| Rings.ForeachSafe | Apache24/include/apr_ring.h:400-403 | with a body that removes any of the elements and has their memory overwritten, the loop visits every original element once, in order, and leaves the ring of the kept elements |
| Rings.KeptExactly | Apache24/include/apr_ring.h:392-403 | the elements left by such a loop are exactly those the body kept |
| Rings.DroppedExactly | Apache24/include/apr_ring.h:392-403 | and the others are exactly those it did not keep |
| RingMoves.ForeachMove | Apache24/include/apr_ring.h:392-403 | with a body that removes elements and inserts them at the tail of a second ring, the loop leaves the kept ones on the first ring and appends the others to the second, in order, and touches nothing else |
| RingCheck.CheckElemConsistency | Apache24/include/apr_ring.h:448-456 | on any finite closed graph the walk ends within as many steps as there are elements, and passes exactly if its start is on a well-formed cycle, which it has then walked; otherwise it stops at the first inconsistent element along the links, all elements before it having passed both asserts |
| RingCheck.WalkIsFresh | Apache24/include/apr_ring.h:451-455 | the first element met again can only be the start |
| RingCheck.FailureMeansNoCycle | Apache24/include/apr_ring.h:452-453 | where an assertion fails there is no well-formed cycle through the start |
| RingCheck.RingPassesFromAnywhere | Apache24/include/apr_ring.h:444-456 | every well-formed ring passes, from whichever of its elements |
| Brigades.CheckConsistency | Apache24/include/apr_buckets.h:289-295 | on any links, the debugging check passes exactly if the brigade is on a well-formed cycle |
| Brigades.BrigadePasses | Apache24/include/apr_buckets.h:289-295 | so it never aborts on a well-formed brigade |
| Brigades.InsertFirst | Apache24/include/apr_buckets.h:358-362 | the bucket comes first, and the check that follows passes |
| Brigades.InsertLast | Apache24/include/apr_buckets.h:369-373 | the bucket comes last, and the check that follows passes |
| Brigades.ConcatBrigades | Apache24/include/apr_buckets.h:375-383 | a becomes s+t, b empty, nothing else changes, and the check passes |
| Brigades.PrependBrigades | Apache24/include/apr_buckets.h:385-393 | a becomes t+s, b empty, nothing else changes, and the check passes |
| Brigades.BucketDestroy | Apache24/include/apr_buckets.h:999-1002 | destroy is called on the data, then free on the bucket, whose fields are then unknown |
| Brigades.BucketDelete | Apache24/include/apr_buckets.h:1003-1018 | the bucket is unspliced from wherever it is, and destroy and free are called once each, in that order; a bucket on no brigade changes no other bucket |
| Brigades.Cleanup | Apache24/include/apr_buckets.h:670-681 | deleting the first bucket until the brigade is empty ends, destroys and frees every bucket in brigade order, and touches no other element |
| Brigades.TeardownInOrder | Apache24/include/apr_buckets.h:999-1018 | in that sequence of calls the i-th bucket comes i-th, its destroy before its free |
| Brigades.TeardownFreesOnce | Apache24/include/apr_buckets.h:670-681 | in that sequence of calls each bucket is freed exactly once, and no other bucket at all |
| Brigades.SplitTail | Apache24/include/apr_buckets.h:683-700 | a is cleared, the buckets from e to the last one move to a, the others stay on b, and nothing else changes |
| Brigades.SplitEx | Apache24/include/apr_buckets.h:683-714 | the same with a NULL a, for which a new brigade is made that holds the moved buckets |
| Brigades.SweepBrigade | Apache24/include/apr_ring.h:392-403 | an iteration that deletes any of the buckets leaves the ring of the kept ones, destroys and frees the deleted ones in order, and touches nothing else |
| Brigades.KeptStreamIff | Apache24/include/apr_buckets.h:443-448 | after such an iteration the stream is as before exactly if every deleted bucket was empty and no metadata |
| Brigades.KeptIsSweep | Apache24/include/apr_ring.h:392-403 | what the iteration leaves in memory is what the sweep of the bucket values leaves |
| Buckets.SweepIsUnobservableIff | Apache24/include/apr_buckets.h:141-150 | deleting any set of buckets leaves the stream unchanged exactly if all of them are empty and no metadata |
| Buckets.SplitKeepsContent | Apache24/include/apr_buckets.h:194-203 | the two parts of a split bucket together say what the bucket said |
| Buckets.PartsAreWindows | Apache24/include/apr_buckets.h:194-203 | both parts keep the type of the bucket, select from its data, and tile what it selected |
| Buckets.ContentAt | Apache24/include/apr_buckets.h:226-239 | a bucket says the bytes of its data from start on, byte by byte |
| Buckets.StreamSays | Apache24/include/apr_buckets.h:141-150 | the stream of a brigade holds exactly its bytes in order and its metadata in order |
| Buckets.MarkStandsBetween | Apache24/include/apr_buckets.h:141-150 | and a metadata bucket stands in the stream where it stands among the buckets |
| Buckets.PartitionExists | Apache24/include/apr_buckets.h:716-730 | the contract of partition can be met without an error code for every brigade and offset |
| Buckets.PartitionMeansIt | Apache24/include/apr_buckets.h:716-730 | partitioning keeps bytes, metadata and their order and adds at most one bucket; unless an error code is returned it succeeds exactly if the brigade is long enough, and puts exactly point bytes before after_point; if the brigade is too short, after_point is the sentinel, with the whole stream before it |
| Buckets.PartitionCutsOnlyThere | Apache24/include/apr_buckets.h:716-730 | a successful partition splits a bucket exactly if there was no boundary at the offset, and makes no other boundary |
| Buckets.PartitionLeavesWindows | Apache24/include/apr_buckets.h:716-730 | every bucket afterwards is a window of a bucket before, with the same type and data |
| Buckets.BoundaryMayBeAnswered | Apache24/include/apr_buckets.h:722-724 | where there is a boundary at the offset, each bucket that begins there may be answered, and an error code may be answered at any time |
| Buckets.CutsSurvive | Apache24/include/apr_buckets.h:717-719 | any number of partitions in any order, failed ones among them, keep the stream and every earlier bucket boundary, and each success leaves its boundary |
| Buckets.OneMoreRequest | Apache24/include/apr_buckets.h:717-719 | each partition is made of what the ones before it left |
| Buckets.RangesAreWholeBuckets | Apache24/include/apr_buckets.h:718-719 | after partitioning at the ends of ranges that may overlap, each range is a run of whole buckets with exactly its bytes, whatever failed in between |
| SharedBuckets.StepKeepsInv | Apache24/include/apr_buckets.h:1268-1320 | each call keeps every refcount equal to the number of live buckets on the resource, and every window inside its resource |
| SharedBuckets.MakeMeans | Apache24/include/apr_buckets.h:1268-1283 | a made bucket is of the given type and says the given window of its data, and the count starts at one |
| SharedBuckets.CopyMeans | Apache24/include/apr_buckets.h:1310-1320 | a copy is of the same type, refers to the same data and says the same, and the original is as it was |
| SharedBuckets.MakeAnswers | Apache24/include/apr_buckets.h:1268-1283 | making may succeed or run out of memory, and nothing else |
| SharedBuckets.SplitAnswers | Apache24/include/apr_buckets.h:1296-1308 | a split may succeed at every point up to the end, is refused with APR_EINVAL only at the end or beyond, and may run out of memory |
| SharedBuckets.CopyAnswers | Apache24/include/apr_buckets.h:1310-1320 | copying may succeed or run out of memory, and nothing else |
| SharedBuckets.DestroyAnswers | Apache24/include/apr_buckets.h:1286-1294 | destroying answers TRUE exactly if no other live bucket refers to the data, and FALSE exactly otherwise |
| SharedBuckets.StepIsSettled | Apache24/include/apr_buckets.h:1268-1320 | the result of a call settles the state after it, and a call that fails changes nothing |
| SharedBuckets.OthersStay | Apache24/include/apr_buckets.h:1268-1320 | no call changes another bucket |
| SharedBuckets.ResourcesAreMade | Apache24/include/apr_buckets.h:1268-1283 | in a run from the start the resources are exactly those that were made |
| SharedBuckets.WindowsStayInsideMade | Apache24/include/apr_buckets.h:1268-1320 | over any run, no bucket selects from outside the window that its resource was made with |
| SharedBuckets.RunKeepsInv | Apache24/include/apr_buckets.h:513-534 | so does every run |
| SharedBuckets.RunOneMore | Apache24/include/apr_buckets.h:513-534 | a run goes on with any call that may be made in the state it has reached |
| SharedBuckets.LiveDataIsCounted | Apache24/include/apr_buckets.h:999-1002 | a resource that a live bucket refers to has a positive count, at most the number of live buckets |
| SharedBuckets.AbandonedIffReleased | Apache24/include/apr_buckets.h:1286-1294 | destroy reports TRUE exactly when it takes the last bucket of a resource away |
| SharedBuckets.ReleasedOnce | Apache24/include/apr_buckets.h:1286-1294 | over any run, a resource is released at most once, and has been released exactly if all its buckets are gone |
| SharedBuckets.ReleasedWhenAbandoned | Apache24/include/apr_buckets.h:219-222 | from any state, a run releases a resource exactly if its last bucket goes away in that run |
| SharedBuckets.ClearingReleases | Apache24/include/apr_buckets.h:994-995 | destroying the buckets of a brigade releases exactly the resources that no other bucket refers to, once each |
| SharedBuckets.NothingLeaks | Apache24/include/apr_buckets.h:994-995 | once all buckets are destroyed, every resource has been released exactly once |
| SharedBuckets.SplitTilesWindow | Apache24/include/apr_buckets.h:1296-1308 | a successful split shares the resource, and the two windows read as the two parts of the old one |
| Clearing.RecordsStart | Apache24/include/apr_buckets.h:1268-1320 | before the first bucket is made, the account of buckets in memory is right |
| Clearing.RecordsMore | Apache24/include/apr_buckets.h:1268-1320 | the account of buckets in memory goes on with every bucket made or copied |
| Clearing.RecordsFewer | Apache24/include/apr_buckets.h:1286-1294 | and with every bucket destroyed |
| Clearing.TeardownIsRun | Apache24/include/apr_buckets.h:1268-1294 | the destroy calls made for the buckets of a brigade, in order, bring the refcounts and the releases that the state machine gives |
| Clearing.TeardownReleases | Apache24/include/apr_buckets.h:1268-1294 | they release exactly the data that some of these buckets refer to and no other bucket in memory does, each once |
| Clearing.KnownIff | Apache24/include/apr_buckets.h:670-681 | where the buckets torn down are any part of those in memory, each once |
| Clearing.CleanupShared | Apache24/include/apr_buckets.h:670-681 | clearing a brigade in memory makes calls that release just that |
| Clearing.SweepShared | Apache24/include/apr_buckets.h:1003-1018 | deleting buckets during an iteration makes calls that release the data used by the deleted buckets only |
| Hooks.HookPoint.Hook | Apache24/include/apr_hooks.h:143-161 | a registration appends one link; the array is made, and announced to the sorter, the first time only |
| Hooks.RunVoid | Apache24/include/apr_hooks.h:179-202 | the runner calls every registered link once, in order, and its effect is the fold of their functions |
| Hooks.RegisterAndRun | Apache24/include/apr_hooks.h:143-202 | after any sequence of registrations a run calls the earlier links and then the new ones, each once and in order, and its effect is the fold of exactly those functions |
| Hooks.RegisteredLastRunsLast | Apache24/include/apr_hooks.h:143-202 | a function registered later runs once, on the state all earlier ones leave |
| Hooks.ExternalRunAll | Apache24/include/apr_hooks.h:222-250 | the loop that resets rv and breaks computes RunAll: value, state and number of calls |
| Hooks.OptionalRunAll | Apache24/include/apr_optional_hooks.h:90-110 | the loop that returns early computes the same RunAll, also with nothing registered |
| Hooks.ExternalRunFirst | Apache24/include/apr_hooks.h:267-295 | the loop computes RunFirst |
| Hooks.RunAllCallsPrefix | Apache24/include/apr_hooks.h:207-250 | exactly the functions up to the first one that stops the run are called, and its value is returned, or ok if there is none |
| Hooks.RunAllStopsIff | Apache24/include/apr_hooks.h:207-250 | the result is neither ok nor decline exactly if some function, asked in turn, answers so |
| Hooks.RunAllNeverDeclines | Apache24/include/apr_hooks.h:204-206 | RUN_ALL never answers decline, unless decline and ok are one value |
| Hooks.RunAllConcat | Apache24/include/apr_hooks.h:222-250 | running A then B: B is asked only if A ended without an early exit |
| Hooks.RunFirstConcat | Apache24/include/apr_hooks.h:267-295 | the same for RUN_FIRST |
| Hooks.RunFirstIsRunAll | Apache24/include/apr_hooks.h:267-295 | RUN_FIRST is RUN_ALL with one value for ok and decline |
| Hooks.RunFirstCallsPrefix | Apache24/include/apr_hooks.h:253-295 | exactly the functions up to the first that does not decline are called |
| Align.AlignIsLeastMultipleIff | Apache24/include/apr_general.h:135-137 | for every width and power of two, the mask form is the least multiple not below size exactly if the sum does not overflow |
| Align.AlignsForAllSizesIff | Apache24/include/apr_general.h:135 | the macro is right for all sizes that do not overflow exactly if the boundary is a power of two |
| Align.AlignBits | Apache24/include/apr_general.h:135-137 | for every boundary, a power of two or not, and any two widths: which bits the result has |
| Align.BitsSettle | Apache24/include/apr_general.h:135-137 | and its bits settle its value |
| Align.MixedIsLeastMultipleIff | Apache24/include/apr_general.h:135-137 | for a size and a boundary of any two unsigned widths, the mask form is the least multiple not below size exactly if the sum fits the width of the boundary |
| Align.MixedMaskDropsRemainder | Apache24/include/apr_general.h:135-137 | the value for any two widths, on overflow too |
| Align.AlignValue | Apache24/include/apr_general.h:136-137 | the value in both cases; on overflow it is zero |
| Align.AlignIsTightAndMonotone | Apache24/include/apr_general.h:136-137 | the result overshoots by less than the boundary and keeps the order of sizes |
| Align.AlignFixesMultiples | Apache24/include/apr_general.h:136-137 | exactly the multiples of the boundary are left as they are |
| Align.AlignIsIdempotent | Apache24/include/apr_general.h:136-137 | aligning a result again changes nothing |
| Align.DefaultAlignsToEight | Apache24/include/apr_general.h:139-140 | the default alignment is rounding up to a multiple of eight exactly without overflow, and zero on overflow |

## Left out

- SharedBuckets.Step: is a relation on values, taken from the documented contracts; the bodies of the shared make, split, copy and destroy functions are not part of the repository, so there is no update in place to model. The `int` width of the refcount is not modelled; LiveDataIsCounted bounds the count by the number of live buckets.
- Buckets.Partition: is the documented contract as a relation, for offsets that are not negative; the body is not part of the repository. The documentation does not say what an error code leaves behind; it is read as nothing split.
- Brigades.SplitTail: realises a documented contract with the ring macros; the body of apr_brigade_split_ex is not part of the repository. The pool and bucket allocator of a new brigade are not modelled.
- Brigades.Cleanup: deletes from the front as the documentation of reading loops describes; the body of apr_brigade_cleanup is not part of the repository.
- Rings.ForeachSafe: the body of the loop decides by a function of the element and removes at most the current element; so does that of RingMoves.ForeachMove.
- Rings.Elem: the payload of an element is constant, because no ring macro writes it; changes of start and length by a split are modelled on values in SharedBuckets.
- Hooks.HookPoint.Hook: the growable array is a field of sequence type; allocation from the pool, the debugging display and the probe macros are left out.
- Align.AprAlignMixed: both operands are unsigned and at least as wide as an `int`; the promotion of narrower types and the sign extension of a negative boundary are not modelled. A positive signed boundary, such as the 8 of the default, behaves as one of the width of the size.
- APR_RING_CHECK_ELEM and APR_RING_CHECK_ONE: the printing variants of the walk; the conditions they look at are those of the consistency check.
- Pointer arithmetic of the sentinel, `volatile`, and C's aliasing rules.
- RingRuns.Allowed: a segment that is spliced in is on no ring, as the descriptions of the macros ask; what a splice of a segment that is still on a ring leaves is not described. A loose segment may lose a part from its middle, but not its ends, whose outer neighbours are unknown.
- UndoOrders.UndoRestoresIff: is about single elements; longer segments are undone last to first in RingUndo.UnspliceStackRestoresRing, and two of them first to last in RingUndo.SpansFirstToLastRestoreIff.
- Clearing.Records: all buckets in memory are of types that share their data by a refcount; the destroy functions of other types release nothing shared.
- Reading buckets, setaside, buckets of unknown length, and the file, pipe, socket and mmap types: input and output, and buckets that change type when read.
- Sorting of hooks, and registration while a runner is at work: the sorting algorithm is not part of the repository.
- Functions that the headers only declare (pools, allocators, tables, strings, digests and others), the PHP files, and the remaining headers.
