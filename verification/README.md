# Verification of the TP query server

`tpquery` keeps the trigger primitive sets (TPSets) of the recent past in an interval
map and answers queries for a window of time. This project models its hard parts and
proves what they promise. `dafny verify dfyconfig.toml` checks all of it.

**The interval map.** The queue of the server is an interval map from ticks to sets of
TPSets: a sorted tree of disjoint segments that is split, combined and re-joined in
place. `Intervals` has the discrete intervals with their four kinds of bounds, `Segments`
the lists of segments, the form a map keeps (`Form`), and what a list stands for
(`Holds`: which value is held at which tick). For every operation there is a function
that says which list it leaves (`Added`, `Subtracted`, `Inserted`, `Erased`,
`ErasedEqual`, `SetAdded`, `Joined`) and a lemma that this list is well-formed again and
means the pointwise operation. `IntervalMaps.IntervalMap` is the container: its methods
walk and change the list of nodes as the iterator algorithms do, with the hooks in which
the joining map and the splitting map differ, and are proved to leave exactly the list of
the function. `Canonical` shows that the joined form is unique, from which it follows that
the order of additions does not matter, that `join` after splitting additions is the
joining map, and that clustering the atoms of a map gives the map back.

**Inclusion.** `SubsetComparers` has the two-iterator automaton that compares two
containers, with its jumps; its two result bits are exactly the two pointwise inclusions.

**The query service.** `QueryService` is the server as a machine over its steps, with its
history: ingest a batch (slurp, release what is due, purge), take or refuse a query. `QueueRuns`,
`PendingRuns` and `PayloadRuns` prove what holds after every run, whatever arrives in
whatever order. `Servers.Server` has the handlers, which change the queue, the pending map
and the one message of all clients in place; each is proved to take the step of the
machine and to send the replies that the history calls for.

**The wire codec.** `Protocol` has the grammar of the protocol and what writing and
reading by it means; `WireFormat` says the same octet by octet and field by field for each
kind of message, without the grammar; `Codecs.Codec` has the codec object, with its needle over the frame,
its separate switches for the frame size, the bytes and the reading, and the countdown of
frames.

## What was found on the way

- The order of the tree, `exclusive_less`, is announced as a strict weak ordering
  (`src/icl/detail/exclusive_less_than.hpp:20`). It is a strict partial order, but not
  being ordered either way is not transitive (`KeyOrder.EquivalenceIsNotTransitive`). It is
  strict weak on the disjoint keys of a container (`KeyOrder.WeakOnDisjointKeys`), and on
  non-empty keys in general if and only if in every run of overlapping keys the latest
  begin is no later than the earliest end (`KeyOrder.WeakExactlyWhen`).
- A late TPSet can move the begin of the queue back over ticks that were purged before.
  A query there counts as inside the queue and is answered with 200, although a TPSet
  that was accepted and overlaps the window is missing
  (`PayloadRuns.SuccessMayLackMessages`). Which messages an answer lists is
  `PayloadRuns.AnswerOverRun`; it is complete if and only if no purge has reached the last
  tick that such a TPSet shares with the window (`PayloadRuns.AnswerIsCompleteExactlyWhen`,
  and `PayloadRuns.DelayedIsCompleteExactlyWhen` for held queries). It always is when the
  window does not begin before the end of the queue less the low mark
  (`PayloadRuns.RecentAnswerIsComplete`), and for a held query when the window is no longer
  than the low mark (`PayloadRuns.DelayedAnswerIsComplete`).
- All clients share one message (`src/tpq_server_engine.inc:413`), into which every frame
  of every client is received (`src/tpq_server_engine.inc:1116`), and a delayed answer
  reads its window from it. A query of any client therefore moves the windows of all
  pending answers, and they stay as they were asked for if and only if they all are the
  window of that query (`Servers.Server.Query`). Two queries that wait for different windows
  are never both answered for their own (`Servers.NeverBothIntact`);
  `Servers.OtherClientMovesWindow` has a run of two clients in which one gets, with 200, the
  answer to the window of the other. A held reply lists what is live in the window of the
  last query of the run, whoever asked it (`Servers.HeldReplyOverRun`).
- `tpq_codec_recv` documents -2 for malformed messages, but a frame that ends too early is
  given up with return code 0. The code is as documented exactly when the frame is not too
  short (`Protocol.CodeIsAsDocumented`), and every truncation of a message goes unnoticed
  (`Protocol.TruncationGoesUnnoticed`). The frames behind a truncated result, or behind a
  message of another kind, stay in the socket, where the next call takes them for a message
  (`Protocol.StaysInStepExactlyWhen`).
- A delayed answer has always status 200 (`src/tpq_server.cpp:328`), where the
  documentation has 206 for windows that are not inside the queue (`README.org:177-182`);
  that happens (`PayloadRuns.DelayedMayBePartial`), and the status is as documented if and
  only if the queue still reaches back to the begin of the window
  (`Servers.ReleaseStatusExactlyWhen`).
- The mask test at `src/tpq_server.cpp:454` reads `(! want_detmask) & detmask`, so it rejects
  only queries with mask 0, and those only when bit 0 of the server's mask is set
  (`QueryService.BogusExactlyWhen`). It rejects what the documentation has rejected
  (`README.org:189-191`) exactly for the masks of `QueryService.MaskTestAsDocumented`.
- Answers are not filtered by the mask that was asked for, which `README.org:184-187`
  describes (`PayloadRuns.AnswersAreNotFiltered`); they are as documented if and only if
  everything live in the window matches it (`PayloadRuns.FilteredExactlyWhen`).

The model follows the code in all of these.

## Assumptions

TPSets have `tstart >= 0` and an end below 2^63; interval bounds are mathematical integers
otherwise. `1 <= lwm <= hwm < 2^63`, and the marks and the detector mask are fixed. A
TPSet message is known by an identity, as the server compares the addresses of the
messages it keeps. A client stays connected while it waits. Which actions an event runs is
taken from `src/tpq_server.xml`, as `src/tpq_server_engine.inc` carries them out. Iterators of the tree are positions in the list of nodes,
and a batch is the list of messages that one call of the ingest handler receives.

## Model

| member | source | states |
|---|---|---|
| IntervalBounds.MasksAreFlags | src/icl/interval_bounds.hpp:41-45 | the bit masks are the two closedness flags, and the reversals move the complement of one flag to the other side |
| Intervals.TicksByBounds | src/icl/concept/interval.hpp:660-671 | which ticks the four kinds of bounds give, and when two right-open intervals meet, in numbers |
| Intervals.IntersectionIsPointwise | src/icl/concept/interval.hpp:1269-1281 | `&` is intersection of the sets of ticks for all sixteen combinations of bounds, and keeps right-open intervals right-open |
| Intervals.LeftSubtractIsPointwise | src/icl/concept/interval.hpp:1167-1176 | left_subtract keeps exactly the ticks above all of the minuend, for all combinations of bounds |
| Intervals.RightSubtractIsPointwise | src/icl/concept/interval.hpp:1219-1228 | right_subtract keeps exactly the ticks below all of the minuend |
| Intervals.HullIsLeast | src/icl/concept/interval.hpp:1106-1121 | hull contains both operands and lies in every interval that does; of touching or overlapping intervals it is the union |
| Intervals.ComparisonsArePointwise | src/icl/concept/interval.hpp:696-704 | exclusive_less, touching, containment, equality and emptiness say what they should about the sets of ticks |
| KeyOrder.OrderIsStrict | src/icl/detail/exclusive_less_than.hpp:18-25 | the order of keys is irreflexive and transitive on non-empty intervals, and two keys are equivalent under it exactly when they share a tick |
| KeyOrder.EquivalenceIsNotTransitive | src/icl/detail/exclusive_less_than.hpp:20-24 | unlike its comment says it is no strict weak order on all keys: three intervals for which equivalence is not transitive |
| KeyOrder.WeakOnDisjointKeys | src/icl/detail/exclusive_less_than.hpp:20-24 | it is a strict weak order on keys any two of which are disjoint or have the same ticks |
| KeyOrder.WeakExactlyWhen | src/icl/detail/exclusive_less_than.hpp:20-24 | on sorted non-empty keys it is one if and only if a single pass finds no key that begins within a run of overlapping keys but behind the end of one of them |
| Segments.EqualRangeIsOverlap | src/icl/interval_base_map.hpp:442-465 | on a well-formed map and a non-empty probe, lower_bound to upper_bound is exactly the contiguous block of segments that overlap the probe |
| Segments.CommonTicks | src/icl/detail/set_algo.hpp:27-60 | only the keys in the common range of two containers can share a tick, and without a common range none does |
| Addition.AddedCorrect | src/icl/interval_base_map.hpp:935-971 | adding (I, v) to a well-formed map leaves a well-formed one, canonical if it joins, which holds m(x) and on I also v, for empty I and v too |
| Addition.SplitFrontCorrect | src/icl/interval_base_map.hpp:814-838 | splitting the first overlapped segment at the begin of the addend changes no meaning |
| Addition.AddLoopCorrect | src/icl/interval_base_map.hpp:863-877 | the loop over all overlapped segments but the last fills the gaps and combines, and what is left of the addend begins behind it |
| Addition.AddToLastCorrect | src/icl/interval_base_map.hpp:879-930 | the last overlapped segment is combined whether the addend sticks out, ends with it, or ends inside it |
| Subtraction.SubtractedCorrect | src/icl/interval_base_map.hpp:1063-1089 | subtracting (I, v) leaves m(x) minus v on I and m(x) elsewhere, drops ticks whose set became empty, and is canonical again |
| Subtraction.SubtractEndCorrect | src/icl/interval_base_map.hpp:1044-1058 | the last overlapped segment is split where the subtrahend ends, and its parts are re-joined when their values did not change |
| Insertion.InsertedCorrect | src/icl/interval_base_map.hpp:1134-1160 | inserting (I, v) gives v to the undefined ticks of I, changes no defined one, and keeps the form |
| Insertion.InsertTurned | src/icl/interval_base_map.hpp:1094-1132 | a turn of the loop that meets a segment again after an insertion that found nothing to join makes no difference, and cannot happen twice |
| Erasure.ErasedCorrect | src/icl/interval_base_map.hpp:1277-1323 | erasing an interval restricts the map to the ticks outside it in every residual case, and keeps the form |
| Erasure.ErasedCount | src/icl/interval_base_map.hpp:1277-1323 | erasing an interval adds at most one segment, erasing a prefix adds none |
| Erasure.ErasedEqualCorrect | src/icl/interval_base_map.hpp:1193-1272 | erasing a segment keeps the form and takes the interval out of exactly those segments whose value equals the given one |
| Erasure.ErasedEqualMeans | src/icl/interval_base_map.hpp:1215-1272 | so a tick of the interval becomes undefined if and only if the map held exactly the given values there |
| Canonical.Unique | src/icl/interval_map.hpp:154-234 | the joined form is unique: two canonical maps with the same meaning are the same list of segments, keys compared by ticks, and equal outright if right-open |
| Canonical.AddedAllCorrect | src/icl/concept/interval_associator.hpp:316-326 | adding a list of segments leaves the union of their meanings |
| Canonical.AdditionOrderIrrelevant | src/icl/interval_base_map.hpp:935-971 | the same segments added in any order give the same map |
| Canonical.SegmentBound | src/icl/interval_base_map.hpp:814-971 | n >= 1 non-empty additions to an empty map leave at most 2n - 1 segments |
| Canonical.TickCountIsDefined | src/icl/concept/interval_associator.hpp:115-131 | the cardinality of a map is the number of ticks at which it is defined |
| Morphisms.JoinedCorrect | src/icl/concept/interval_associator_base.hpp:105-143 | join gives the canonical form of a splitting map and keeps its meaning |
| Morphisms.SplitThenJoin | src/icl/split_interval_map.hpp:135-182 | join of the splitting map that a list of additions builds is the joining map that they build |
| Morphisms.ClusterOfAtoms | src/icl/detail/interval_morphism.hpp:23-49 | clustering the atoms of a canonical map gives an equal map back, though from closed singletons |
| Morphisms.AtomsMean | src/icl/detail/interval_morphism.hpp:23-33 | atomizing keeps the meaning |
| Morphisms.AtomsAscend | src/icl/detail/interval_morphism.hpp:23-33 | the atoms are single ticks, ascending, each once |
| Containment.BlockTestIsExact | src/icl/concept/interval_map.hpp:50-73 | the test of the first value, the hull and joinability decides whether the map is defined with exactly that value throughout the interval |
| Containment.FindIsExact | src/icl/concept/interval_associator_base.hpp:25-34 | lookup of a tick finds the segment that covers it, if and only if there is one |
| IntervalSets.SetAddedCorrect | src/icl/interval_base_set.hpp:497-515 | adding an interval to an interval set covers its ticks besides the old ones and keeps the joined form |
| Flipping.FlipStep | src/icl/interval_base_map.hpp:763-793 | what each turn of the flip loop keeps, although it adds to the container that it walks |
| Flipping.FlipFinish | src/icl/interval_base_map.hpp:795-805 | the rest added, the common ticks erased and the differences added come to the symmetric difference |
| IntervalMaps.IntervalMap.TryInsert | src/icl/interval_base_map.hpp:952-953 | insertion into the tree succeeds exactly when no node overlaps the key, and otherwise finds one that does |
| IntervalMaps.IntervalMap.JoinNeighbours | src/icl/detail/interval_set_algo.hpp:305-311 | merges a node with its left and then its right neighbour where they touch and are equal |
| IntervalMaps.IntervalMap.HandleInserted | src/icl/interval_map.hpp:154-157 | the hook for an insertion, joining or not |
| IntervalMaps.IntervalMap.HandleInsertedAfter | src/icl/interval_map.hpp:159-164 | the hook for a lead gap looks only at the node before it, and is harmless on the first node |
| IntervalMaps.IntervalMap.HandleLeftCombined | src/icl/interval_map.hpp:166-173 | drops a node left without values, joins it to the left otherwise |
| IntervalMaps.IntervalMap.HandleCombined | src/icl/interval_map.hpp:175-182 | drops a node left without values, joins it to both sides otherwise |
| IntervalMaps.IntervalMap.HandlePrecededCombined | src/icl/interval_map.hpp:184-194 | the same, and which iterator the caller goes on with |
| IntervalMaps.IntervalMap.HandleSucceededCombined | src/icl/interval_map.hpp:196-210 | a shortened node and its rest, dropped or joined |
| IntervalMaps.IntervalMap.HandleReinserted | src/icl/interval_map.hpp:212-216 | a split-off rest joins its right neighbour |
| IntervalMaps.IntervalMap.GapInsertAt | src/icl/interval_map.hpp:218-233 | the end gap behind a combined node, with or without that node |
| IntervalMaps.IntervalMap.Add | src/icl/interval_base_map.hpp:935-971 | `map += (I, v)` in place leaves exactly `Added`, hence the pointwise union |
| IntervalMaps.IntervalMap.AddHinted | src/icl/interval_base_map.hpp:973-1008 | addition with a hint gives the same map for every hint |
| IntervalMaps.IntervalMap.AddMain | src/icl/interval_base_map.hpp:863-877 | the loop of the addition in place |
| IntervalMaps.IntervalMap.AddRear | src/icl/interval_base_map.hpp:879-930 | the end of the addition in place |
| IntervalMaps.IntervalMap.Subtract | src/icl/interval_base_map.hpp:1063-1089 | `map -= (I, v)` in place leaves exactly `Subtracted`, hence the pointwise difference |
| IntervalMaps.IntervalMap.Insert | src/icl/interval_base_map.hpp:1134-1160 | insertion in place leaves exactly `Inserted`; the loop terminates though it can meet a node twice |
| IntervalMaps.IntervalMap.InsertGaps | src/icl/interval_base_map.hpp:1094-1132 | the loop of the insertion |
| IntervalMaps.IntervalMap.InsertHinted | src/icl/interval_base_map.hpp:1162-1188 | insertion with a hint gives the same map for every hint |
| IntervalMaps.IntervalMap.Erase | src/icl/interval_base_map.hpp:1277-1323 | erasing an interval in place leaves exactly `Erased` |
| IntervalMaps.IntervalMap.EraseSegment | src/icl/interval_base_map.hpp:1215-1272 | erasing a segment in place leaves exactly `ErasedEqual` |
| IntervalMaps.IntervalMap.SetAt | src/icl/concept/interval_map.hpp:283-289 | erase then insert assigns: exactly v on I, the old values elsewhere |
| IntervalMaps.IntervalMap.AddIntersection | src/icl/concept/interval_map.hpp:380-406 | adds to another map what this one holds inside the interval |
| IntervalMaps.IntervalMap.IntersectedWith | src/icl/concept/interval_associator.hpp:769-777 | `map & interval` is the restriction to the interval, well-formed again |
| IntervalMaps.IntervalMap.Select | src/icl/interval_base_map.hpp:294-299 | the values held at a tick, none where undefined |
| IntervalMaps.IntervalMap.ContainsSegment | src/icl/concept/interval_map.hpp:50-73 | true if and only if the map is defined with exactly that value throughout the interval |
| IntervalMaps.IntervalMap.IsJoinable | src/icl/detail/interval_map_algo.hpp:31-54 | true if and only if the nodes form one run of touching nodes of equal value |
| IntervalMaps.IntervalMap.Cardinality | src/icl/concept/interval_associator.hpp:115-131 | the sum over the nodes |
| IntervalMaps.IntervalMap.Join | src/icl/concept/interval_associator_base.hpp:105-143 | join in place leaves exactly `Joined`: the canonical form of the same meaning |
| IntervalMaps.IntervalMap.JoinRun | src/icl/concept/interval_associator_base.hpp:119-137 | a run of joinable nodes becomes its last node with the hull as key |
| IntervalMaps.IntervalMap.AddAll | src/icl/concept/interval_associator.hpp:316-326 | `map += container` adds the meaning of the container |
| IntervalMaps.IntervalMap.EraseSet | src/icl/concept/interval_associator.hpp:619-638 | erasing an interval set, joining or splitting, restricts the map to the ticks outside it |
| IntervalMaps.IntervalMap.Flip | src/icl/interval_base_map.hpp:740-806 | flipping by (I, v) leaves the symmetric difference on I, well-formed again, in the joining and in the splitting map |
| IntervalMaps.IntervalMap.FlipTwice | src/icl/interval_base_map.hpp:740-806 | flipping twice by the same segment restores the meaning, a joining map up to key equality, and a right-open one outright |
| IntervalMaps.CommonRange | src/icl/detail/set_algo.hpp:27-60 | there is a common range unless one container ends before the other begins, and its two positions |
| IntervalMaps.AddToSet | src/icl/interval_base_set.hpp:497-515 | adding to an interval set in place leaves exactly `SetAdded` |
| IntervalMaps.JoinUnder | src/icl/detail/interval_set_algo.hpp:339-361 | the addend swallows the keys it overlaps |
| IntervalMaps.Atomize | src/icl/detail/interval_morphism.hpp:23-33 | the single ticks of a map in order |
| IntervalMaps.Cluster | src/icl/detail/interval_morphism.hpp:36-49 | adding up single ticks |
| SubsetComparers.SubsetComparer.Proceed | src/icl/detail/interval_subset_comparer.hpp:134-156 | stepping past the segment that ends first keeps the bits exact up to where both have been compared |
| SubsetComparers.SubsetComparer.StepBoth | src/icl/detail/interval_subset_comparer.hpp:159-242 | a step in the first state, jumps included, keeps the bits exact and makes progress |
| SubsetComparers.SubsetComparer.StepLeft | src/icl/detail/interval_subset_comparer.hpp:244-276 | a step in the second state, which knows the left segment before |
| SubsetComparers.SubsetComparer.StepRight | src/icl/detail/interval_subset_comparer.hpp:279-310 | a step in the third state |
| SubsetComparers.SubsetCompare | src/icl/detail/interval_subset_comparer.hpp:328-357 | the walk terminates, and its two bits are exactly "left is included in right" and "right is included in left", pointwise, for sets and for maps with values |
| SubsetComparers.InclusionByTicks | src/icl/detail/interval_subset_comparer.hpp:328-357 | inclusion of keys is inclusion of the covered ticks, and inclusion with values is inclusion of what is held at every tick |
| SubsetComparers.IsElementEqual | src/icl/detail/interval_set_algo.hpp:35-44 | true if and only if both containers mean the same |
| SubsetComparers.MutualInclusion | src/icl/detail/interval_set_algo.hpp:35-44 | inclusion both ways is having the same meaning |
| QueryService.AcceptsSharedBit | src/tpq_server.cpp:269 | a message is let in if and only if not all bits of its detector id lie outside the mask |
| QueryService.WindowInNumbers | src/tpq_server.cpp:417-420 | the ends of the window are the sums sent, modulo 2^64 and taken as signed: as they were sent if the window ends below 2^63 |
| QueueRuns.VerdictOverTicks | src/tpq_server.cpp:460-521 | over the ticks of the queue: late is a query that ends before all of them, delayed one that ends behind all of them by more than the next tick, partly late one of the others that begins before all of them, satisfied the rest; and what an empty queue answers |
| QueryService.BogusExactlyWhen | src/tpq_server.cpp:454-458 | a query is rejected if and only if its mask is empty and the server's mask has its lowest bit |
| QueryService.MaskTestAsDocumented | README.org:189-191 | the mask test rejects what the documentation has rejected exactly for masks that the server covers, and for the empty one if the server's mask has its lowest bit |
| QueryService.MaskTestWitnesses | src/tpq_server.cpp:454-458 | a mask that is not covered and yet not rejected, and one that is rejected |
| QueueRuns.PurgeArithmetic | src/tpq_server.cpp:338-343 | the mixed signed and unsigned arithmetic of the purge does what it looks like, and on an empty queue takes the branch and purges nothing |
| QueueRuns.PurgedOk | src/tpq_server.cpp:338-345 | a purge removes exactly the ticks below its new begin, never lowers the end of the queue, and leaves at most the high mark |
| QueueRuns.SlurpedOk | src/tpq_server.cpp:264-275 | a batch adds exactly its messages with a bit of the mask, on the ticks from start up to start plus span, and keeps the queue in order |
| QueueRuns.QueueInvAlways | src/tpq_server.cpp:264-345 | after every run the queue holds exactly the accepted messages on their intervals less the ranges purged since |
| QueueRuns.RecentWindow | src/tpq_server.cpp:264-345 | recent-window completeness: at every tick from the end of the queue less the low mark on, the queue holds exactly the messages ever accepted whose interval contains the tick, in whatever order they came |
| QueueRuns.LogIsWhatCame | src/tpq_server.cpp:264-275 | accepted are exactly the messages that came in some batch with a bit of the mask |
| QueueRuns.DepthBounded | src/tpq_server.cpp:338-345 | after every run the queue spans at most the high mark |
| QueueRuns.EndNeverFalls | src/tpq_server.cpp:264-345 | the end of the queue never moves back over a run |
| PendingRuns.PutPendingByEnd | src/tpq_server.cpp:520 | holding a query appends it to those that end at the same tick and moves no other |
| PendingRuns.PendingInvAlways | src/tpq_server.cpp:302-345 | after every run every pending key lies behind the end of the queue, and each held query is pending or released but not both |
| PendingRuns.HeldIsReleasedOrPending | src/tpq_server.cpp:311-336 | conservation: the queries held with an end that the queue has reached are released, as often as they were held and first come first served; the others are pending, and nothing else is |
| PendingRuns.BatchReleasesDue | src/tpq_server.cpp:311-336 | a batch releases exactly the pending queries whose end it brings the queue to, ascending by end, from the queue before its purge |
| PayloadRuns.AnswerOverRun | src/tpq_server.cpp:414-443 | an answer lists each message ever ingested exactly once if its interval less the ranges purged since meets the window, and not at all otherwise |
| PayloadRuns.RecentAnswerIsComplete | src/tpq_server.cpp:414-443 | an answer for a window within the low mark of the end of the queue lists every accepted message that meets it |
| PayloadRuns.LiveInExactlyWhen | src/tpq_server.cpp:338-345 | a message is live in a window if and only if its interval meets the window and no purge since it came reached the last tick that they share |
| PayloadRuns.AnswerIsCompleteExactlyWhen | src/tpq_server.cpp:414-443 | over every run an answer lists every accepted message that meets its window if and only if all of these survived to their last shared tick |
| PayloadRuns.SuccessMayLackMessages | src/tpq_server.cpp:495-509 | a run after which a query is judged satisfied although an accepted message that meets its window was purged |
| PayloadRuns.FilteredExactlyWhen | README.org:184-187 | an answer is filtered by mask as documented if and only if every message live in the window matches the mask |
| PayloadRuns.AnswersAreNotFiltered | src/tpq_server.cpp:414-443 | a satisfied query whose answer has a message that does not match its mask |
| PayloadRuns.DelayedMayBePartial | src/tpq_server.cpp:317-333 | a run in which a held query is released although its window is not inside the queue, which the documentation would have as 206 |
| PayloadRuns.ReleaseHasStep | src/tpq_server.cpp:302-336 | every release of a run comes from a batch before which the query was pending, and from the queue as that batch made it |
| PayloadRuns.DelayedAnswer | src/tpq_server.cpp:317-333 | a delayed answer lists each message exactly once or not at all, by its interval less the ranges purged before that batch, whatever window it is made for |
| PayloadRuns.DelayedIsCompleteExactlyWhen | src/tpq_server.cpp:317-333 | a delayed answer is complete for its window if and only if the messages of the window survived up to the batch that released it |
| PayloadRuns.DelayedAnswerIsComplete | src/tpq_server.cpp:317-333 | a delayed answer for no more than the low mark is complete however long it waited |
| Servers.SortByStart | src/tpq_server.cpp:409-427 | a permutation in non-decreasing start time |
| Servers.AllValues | src/tpq_server.cpp:422-425 | the union of the values of all segments |
| Servers.Server.SetPayload | src/tpq_server.cpp:414-443 | the payload set is the list of the messages that the queue holds from tstart up to tstart plus tspan of the shared message, without repeats, in start order; past 2^63 in the window after the conversions |
| Servers.Server.Slurp | src/tpq_server.cpp:264-275 | the queue then holds what it held and the messages of the batch with a bit of the mask, each on its ticks |
| Servers.Server.ReleaseDue | src/tpq_server.cpp:311-336 | answers all queries of the entries that are due, in order, with status 200 and the payload for the window of the shared message, and forgets these entries |
| Servers.Server.Purge | src/tpq_server.cpp:338-345 | the queue after the purge |
| Servers.Server.HandleIngest | src/tpq_server.cpp:252-385 | one batch takes the machine one step, the replies sent are those that the step calls for, made for the window of the last query, and that window stays |
| Servers.Server.HandleQuery | src/tpq_server.cpp:449-523 | the verdict on the query in the message, which `VerdictOverTicks` reads over the ticks of the queue, what is held for it, and the status of its branch |
| Servers.Server.Query | src/tpq_server_engine.inc:593-673 | a query takes the machine one step; over the ticks of the queue it gets one reply, 404, 206 or 200 with what the queue holds from tstart up to tstart plus tspan, or 500 by its mask, or waits as the last of those for its end; the pending windows, of all clients, are intact afterwards if and only if they all are the window of this query |
| Servers.Server.Refuse | src/tpq_server_engine.inc:569-591 | a query of a client that has not said HELLO gets a 500 error, and moves the window of the shared message all the same |
| Servers.NeverBothIntact | src/tpq_server_engine.inc:413 | two queries that wait for different windows, of whatever clients, are never both intact |
| Servers.PayloadIsRightExactlyWhen | src/tpq_server.cpp:415-419 | whatever the queue holds, a held reply has the payload for the window that was asked for, if and only if that is the window of the message, or both are empty |
| Servers.OtherClientMovesWindow | src/tpq_server_engine.inc:1116 | a run of two clients in which the reply to one, with status 200, lacks a message that fills its whole window, because the other asked for another window |
| Servers.HeldReplyOverRun | src/tpq_server.cpp:317-333 | a held reply lists exactly what is live in the window of the last query of the run, whoever asked it |
| Servers.HeldStatusExactlyWhen | README.org:177-182 | a held reply has the documented status if and only if the window asked for is inside the queue |
| Servers.ReleaseStatusExactlyWhen | README.org:177-182 | over every run the reply to a released query has the documented status if and only if its queue still reached back to the begin of the window |
| Servers.HeldReplyIsComplete | src/tpq_server.cpp:317-333 | if the last query of the run asked for the same window, and that is no longer than the low mark, the reply to a held query lists exactly the accepted messages that meet it |
| Protocol.RoundTrip | src/tpq_codec.cpp:625-722 | for each of the nine kinds reading what was written restores the fields of the kind, leaves the others alone, gives the payload frames in order, and leaves what came after in the socket |
| Protocol.SentIsReceived | src/tpq_codec.cpp:625-818 | receiving from a stream restores the message that was sent and takes exactly its frames out of the socket, also behind a routing id |
| Protocol.StreamIsReceived | src/tpq_codec.cpp:625-818 | a whole stream of messages is restored one by one, in order, by as many calls |
| Protocol.StaysInStepExactlyWhen | src/tpq_codec.cpp:625-722 | a call takes a whole message out of the socket if and only if its first frame stands alone or is that of a result with all its fields |
| Protocol.FieldsSurvive | src/tpq_codec.bnf:18-68 | reading fields of the grammar back consumes exactly the bytes written |
| Protocol.CopiedOrKept | src/tpq_codec.cpp:664-710 | which fields a received message sets: those of its kind and no others |
| Protocol.FlaggedIsOneMessage | src/tpq_codec.cpp:803-816 | frames that all but the last announce another one are received as one message |
| Protocol.CodeIsAsDocumented | src/tpq_codec.cpp:620-722 | the return code is 0 for a message and -2 for a malformed one if and only if the frame is not too short |
| Protocol.TruncationGoesUnnoticed | src/tpq_codec.cpp:105-174 | every proper prefix of the first frame of a message is received with return code 0, and takes no payload |
| WireFormat.FrameOpens | src/tpq_codec.bnf:11-12 | every frame opens with octets AA and A0 and the number of its kind |
| WireFormat.HelloFrame | src/tpq_codec.bnf:11-13 | the octets of HELLO |
| WireFormat.CoverageFrame | src/tpq_codec.bnf:17-18 | the octets of COVERAGE |
| WireFormat.QueryFrame | src/tpq_codec.bnf:22-27 | in the 35 octets of QUERY seqno, tstart, tspan, detmask and timeout stand at octets 3, 7, 15, 23 and 31, most significant first |
| WireFormat.ResultFrame | src/tpq_codec.bnf:31-34 | the octets of RESULT |
| WireFormat.ErrorFrame | src/tpq_codec.bnf:54-56 | the octets of ERROR |
| WireFormat.SentFrames | src/tpq_codec.cpp:792-816 | a result is followed by its payload frame by frame, or by one empty frame if it has none; other kinds have one frame |
| WireFormat.ReceivedFields | src/tpq_codec.cpp:664-710 | which fields each kind sets at the receiver, to the values of the sender, with all others kept |
| WireFormat.ReceivedPayload | src/tpq_codec.cpp:684-690 | the receiver of a result has its payload in order, also an empty one; other kinds leave the payload alone |
| WireFormat.ReadInOctets | src/tpq_codec.cpp:653-722 | what any complete frame sets, from the octets of each field, whoever wrote it |
| WireFormat.WellFormedInOctets | src/tpq_codec.bnf:11-68 | which frames follow the grammar, by signature, kind and length |
| WireFormat.CodeInOctets | src/tpq_codec.cpp:653-722 | -2 for a wrong signature or an unknown kind if the frame reaches that far, 0 otherwise |
| WireFormat.NothingReceived | src/tpq_codec.cpp:633-647 | an empty socket, or a routing id without a message, gives -1 |
| Codecs.Codec.PutNumber8 | src/tpq_codec.cpp:92-102 | eight bytes in network order |
| Codecs.Codec.GetNumber8 | src/tpq_codec.cpp:139-153 | the number in the next eight bytes, or nothing read when fewer are left |
| Codecs.Codec.PutCString | src/tpq_codec.cpp:156-161 | count and text of a C string |
| Codecs.Codec.GetCString | src/tpq_codec.cpp:164-174 | the text up to its first zero; the buffer holds it with its terminator whatever the count |
| Codecs.Codec.FrameSize | src/tpq_codec.cpp:738-762 | the size worked out by the first switch is the length of the frame that the grammar gives |
| Codecs.Codec.PutHead | src/tpq_codec.cpp:763-800 | writing by the second switch fills the frame exactly, with the bytes that the grammar gives |
| Codecs.Codec.Send | src/tpq_codec.cpp:729-818 | what goes out carries the members of the object, each at its octets, and its payload frame by frame; every frame but the last has MORE, and a missing payload is one empty frame |
| Codecs.Codec.Parse | src/tpq_codec.cpp:653-722 | reading any bytes does what `Parsed` says, partial reads included, and never reads beyond the ceiling |
| Codecs.Codec.RecvFrames | src/tpq_codec.cpp:685-689 | receiving what is left of a message takes the frames up to the first that announces no other |
| Codecs.Codec.Recv | src/tpq_codec.cpp:625-722 | receiving from a socket with any frames in it does what `Received` says, and leaves what it says in the socket; a complete frame sets its fields from their octets |

## Left out

- Sockets, timers, actors and the decoding of TPSets: I/O; their effect on the handlers is in the parameters.
- The engines (`src/tpq_server_engine.inc`, `src/tpq_client_engine.inc`) beyond the one shared message and what they do with a query in the start and the connected state.
- The client (`src/tpq_client.cpp`) and the two programs: thin callbacks and configuration.
- Changing the detector mask or the marks while the server runs (`src/tpq_server.cpp:217-233`): they are fixed at construction.
- Overflow of 64-bit interval bounds: bounds are mathematical integers; the conversions of the server's own arithmetic are modelled.
- `first_seen`, the drop counter, verbose output and timing: debugging only.
- Total maps, `partial_add_intersection` with a segment, `element_comparer`, subtraction from interval sets, and the hinted `_add` of interval sets: not used by the server.
- Static bounds, continuous intervals, and the gregorian, ptime and rational adapters: template dispatch that the server does not use.
- The export of messages to configuration files, `tpq_codec_dup`, getters, setters and printing of the codec.
- Servers.SortByStart: the order of messages with equal start times, which `std::sort` leaves open, is not part of the contract.
- Servers.Server.Query: a client that terminates while it waits is not modelled; the pending map keeps its address.
- IntervalMaps.IntervalMap.Flip: an empty interval is excluded on a map that is not empty, because there the tree would compare an empty key, which the source asserts it does not (`src/icl/concept/interval.hpp:592-596`).
