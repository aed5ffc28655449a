# Verified models of the FPGA management layer and its XML/XPath engine

Two families of code are modelled and proved correct in Dafny.

**The management layer** (`cpp/`, `il/ocl_ds.h`). An OpenCL command queue hands commands, strictly in
order, to a dispatcher; an NDRange is cut into work-group ranges over islands by an exhaustive search
for the distribution that finishes soonest (or, under slicing, quantum by quantum), and each island
retires its ranges on timer ticks.

| file | models |
|---|---|
| `AlgoSimple.dfy` | the recursive search over one shared vector, its enumeration and its optimality |
| `NDRanges.dfy`, `Scheduling.dfy` | carving, island queues, timers, the ring of idle schedulers, completion |
| `CommandQueue.dfy` | the command protocol as a state machine over atomic steps, and the queue object with its callback interleaved with other threads |
| `EndToEnd.dfy` | the queue and the scheduling layer together, from the push of a command to its completion |
| `Slicing.dfy`, `SlicedRuns.dfy` | the choice of a scheduler, the slices cut in turns, and what becomes of them over a run |
| `CircArray.dfy` | the ring buffer against plain sequences |

**The XML/XPath engine** (`aux-src/pugixml/pugixml.cc`).

| file | models |
|---|---|
| `XmlTree.dfy`, `XmlAxes.dfy`, `DocumentOrder.dfy` | trees, document order, the axis traversals, the comparator |
| `Sorting.dfy`, `NodeSets.dfy` | the three-way quicksort, sorting node sets and dropping duplicates |
| `CStrings.dfy`, `Translate.dfy`, `XPathOptimizer.dfy` | translate() in place and by table, and the whole query optimizer |
| `XPathLaws.dfy`, `XPathNormalForm.dfy` | laws of paths, axes, tests and positions that evaluation does not say itself; the queries that optimizing ends in |
| `XPathModes.dfy`, `XPathEvaluation.dfy` | what evaluation for all, any or the first node promises, and the mutually recursive evaluators with all early exits |
| `XmlText.dfy`, `XmlReading.dfy`, `XmlPrinter.dfy`, `XmlRoundTrip.dfy`, `XmlParser.dfy`, `XmlDocuments.dfy` | what a document text means, the printer, the in-place parser against that meaning, and their round trip |
| `XmlWritings.dfy`, `XmlWrittenDocuments.dfy`, `XmlPrintedForm.dfy` | every way to write a text and a document, whoever wrote it: the parser reads them all, the printer uses one of them |
| `Numerals.dfy`, `Integers.dfy`, `Transcoding.dfy`, `Utf8Validity.dfy`, `PageAllocator.dfy` | integer parsing and printing, UTF transcoding, what of UTF-8 is well-formed or survives it, page memory |

`Basics.dfy` holds what both families share.

Code that works in place is a class or a method over arrays, proved against functions; protocols are
state machines, and what holds is stated for every reachable state. Values that the source gets from
the clock, the cost tracker, the resource check or the event loop are parameters.

## What the proofs found

- `document_order_comparator` (pugixml.cc:8021-8029) reports an attribute as coming before itself, so
  it is not irreflexive. `DocumentOrderComparator` states when; `DocumentOrderSorts` shows that exactly
  the sets without a repeated attribute are sorted all the same, and `SideIsShorterIff` when the sort
  makes progress.
- `xpath_get_order` reports a set as unsorted when the comparator's answers for neighbours differ. For
  sets without duplicates that is when they are in neither order (`MixedIff`); with duplicates a set
  may be in order and yet be reported unsorted (`OrderedYetMixed`).
- An object of `CircArray` assigned to itself loses its elements: they are freed before they are
  copied (circ_array.hpp:130-147, `Assign`).
- Printing and parsing is the identity exactly on the documents that `FaithfulAll` describes: a tab
  in an attribute value, a CR in text, blank text and adjacent texts do not survive. A reference to
  character 0 cuts a value short.
- A push to a full command ring, or a submission to a full island queue, is dropped without notice
  (cmd_q.cc:99, scheduler_emu.cc:51). A dropped command never completes, and an NDRange completes if
  and only if each island given work had room when it was routed (`CompleteIffRetired`). Commands
  behind one that does not complete wait for ever; `AtRest` says exactly when that happens. EMPTY
  commands, which clFinish waits for, are never completed (`QuietMeansDone`).
- `CircArray::operator[]` and `pop_at` test `index > _size - 1` on unsigned numbers
  (circ_array.hpp:173, 314): an empty buffer is never out of bounds.
- A reconfiguration cost above the quantum makes the time left wrap around (algo_slicing.cc:69-70).
  `FitsIffReconfFits` gives the exact condition. A count of 2^31 or more then turns the signed maximum
  negative, so that this scheduler and all before it are forgotten (`AllConsideredIff`).
- Under slicing the count of ranges in the wild can reach zero between two slices. The NDRange is then
  deleted and reported complete while it stands in the ring with work-groups left, and its next turn
  touches freed memory. `SlicedRuns.Runtime.Tick` says exactly when; with a single scheduler it happens
  to every NDRange that one slice does not cover.
- The assert at pugixml.cc:731 fails if and only if the very first allocation of a document is a large
  one (`AssertFailsIff`); freeing does not bring that state back.
- The UTF-8 decoder takes every sequence with the right lead and continuation bytes.
  `NextIsStandardIff` says which of them are the standard form of a character, `WrittenBackIff` which
  inputs the writer gives back: surrogates, characters above U+10FFFF and overlong forms of four
  bytes are, overlong forms of two or three bytes are not.
- The assert that closes `route_ndrange` (algo_simple.cc:227) holds if and only if some island is
  suitable (`RouteNdrange`); without one nothing is carved and the NDRange never completes.

## Assumptions

Costs are not negative and do not overflow, an NDRange has at least one work-group, scheduler ids
are distinct (and, for slicing, indices of the schedulers), rings have at least one place. Callbacks
of the event loop do not overlap. What the XPath evaluator is given - conversions, functions that
see of an argument only what they ask for, listings of node sets, variables - is spelt out in
`EngineOk`, and `EngineExists` shows that it can be had for every document and every set of
variables. The carved range is [start, end): the constructor argument named `size_x` receives an end
coordinate (ndrange.cc:156).

## Model

| member | source | states |
|---|---|---|
| `AlgoSimple.EnumeratesExactlyOnce` | cpp/algo_simple.cc:103-135 | the leaves of the search are exactly the distributions of the work-groups over the suitable islands, each once, in strictly decreasing lexicographic order, C(n+k-1, k-1) of them |
| `AlgoSimple.StaleEntriesAreOverwritten` | cpp/algo_simple.cc:127-134 | what an earlier branch left in the shared vector from an island on has no influence on the leaves reached from there |
| `AlgoSimple.LeavesCount` | cpp/algo_simple.cc:108-134 | the number of leaves under any partial assignment, the case of no suitable island left included |
| `AlgoSimple.RecordedIsBest` | cpp/algo_simple.cc:24-51 | after all leaves the recorded vector is a distribution of all work-groups whose makespan no other distribution beats, and the lexicographically greatest of those that equal it |
| `AlgoSimple.RecordLeaf` | cpp/algo_simple.cc:47-51 | recording a leaf keeps the first of the cheapest leaves seen so far |
| `AlgoSimple.Makespan` | cpp/algo_simple.cc:33-45 | the time the last island given work is done: a bound on every such island's cost that one of them attains, or 0 |
| `AlgoSimple.AlgoSimple.CalculateTotal` | cpp/algo_simple.cc:24-51 | the loop computes the makespan of the shared vector and records the vector when it is the first or strictly better; that this is the time at which the ranges cut from it are done is Scheduling.SharesDoneSoonest |
| `AlgoSimple.AlgoSimple.RecursiveFunction` | cpp/algo_simple.cc:103-135 | the mutating recursion hands exactly the specified leaves, in order, to CalculateTotal; it keeps the entries before its island, and the marks of unsuitable islands |
| `AlgoSimple.AlgoSimple.FindDistribution` | cpp/algo_simple.cc:141-199 | the costs asked of the tracker are exactly those of the suitable islands, and from them the search ends with the optimal distribution, ties going to the lexicographically greatest; with no suitable island the result stays all marks |
| `AlgoSimple.OptimalIsUnique` | cpp/algo_simple.cc:24-51 | no two distributions are both optimal with ties so decided: what is chosen is a function of size, suitable islands and costs |
| `AlgoSimple.LeavesExist` | cpp/algo_simple.cc:120-134 | there is a distribution if and only if an island is suitable or nothing is to be placed |
| `NDRanges.NDRange.CarveWgs` | cpp/ndrange.cc:136-156 | a carved range starts where the last one ended and is as long as asked, or takes all that is left; one more range is in the wild |
| `NDRanges.NDRange.DecrementWgrsCounter` | cpp/ndrange.cc:188-206 | the event completes, and the object is destroyed, exactly when the counter reaches zero |
| `NDRanges.Event.SetAsComplete` | il/ocl_ds.h:266-275 | the event is complete and its callback has run once more |
| `Scheduling.Layer.RouteNdrange` | cpp/algo_simple.cc:199-227 | the NDRange is cut into consecutive ranges, each work-group in exactly one, each range queued on its island or dropped where the queue was full, which is recorded; the ranges, each behind what remains on its island and priced as it is queued, are done by the minimum found, and no other plan for the suitable islands is done sooner; all is carved, so that the closing assert holds, if and only if some island is suitable; the invariant of the layer is kept either way |
| `Scheduling.SharesDoneSoonest` | cpp/algo_simple.cc:28-51 | stated over ranges and their prices alone: the shares of the distribution found are done at the minimum recorded, every other plan for the same work is done no sooner, and among those done as soon the first islands are given most |
| `Scheduling.SharesTile` | cpp/algo_simple.cc:213-225 | each work-group is in exactly one of the shares |
| `Scheduling.QueuedInOrder` | cpp/scheduler_emu.cc:45-88 | over any run of submissions a queue holds, in order, the first ranges of what was there and what was submitted, as many as there is room for |
| `Scheduling.Layer.SubmitShares` | cpp/algo_simple.cc:213-225 | the carving loop: islands given work get their share, in island order, and no other queue changes; exactly one range is dropped for each island given work whose queue was full |
| `Scheduling.Layer.CarveAndSubmit` | cpp/algo_simple.cc:215-224 | one range more is in the wild, and one more is dropped exactly when the queue was full |
| `Scheduling.DropsNothing` | cpp/scheduler_emu.cc:51-51 | no range of an NDRange is dropped if and only if each island given work had room when it was routed |
| `Scheduling.WillFinishIff` | cpp/algo_simple.cc:199-227 | whether an NDRange will finish is decided before it is routed, by its size, the suitable islands, their costs and the queues: an island is suitable, and in the one optimal distribution each island given work has room |
| `Scheduling.Layer.OnTimer` | cpp/scheduler_emu.cc:91-120 | retiring the first range of a queue keeps the invariant: every NDRange's counter equals its queued ranges and those dropped when it was routed, it is destroyed with its event complete exactly when there are none; the backlog shrinks by one |
| `Scheduling.Layer.constructor` | cpp/centrum.cc:45-52 | all schedulers start idle, registered once each, with the invariant established |
| `Scheduling.Layer.NoDanglingRange` | cpp/ndrange.cc:188-206 | no queued range refers to a destroyed NDRange or one whose event is complete |
| `Scheduling.Layer.CompleteIffRetired` | cpp/ndrange.cc:188-206 | in every state between callbacks an event is complete, after exactly one completion, if and only if no range of its NDRange is queued and each island given work had room when it was routed |
| `Scheduling.Layer.QuietMeansComplete` | cpp/scheduler_emu.cc:91-120 | when the backlog is empty no timer runs and exactly those NDRanges are complete whose shares all found room |
| `Scheduling.TickKeepsIdle` | cpp/scheduler_emu.cc:99-119 | timer active iff queue non-empty iff id not idle survives a tick, and there is room in the ring for the id that is added |
| `Scheduling.SubmitKeepsIdle` | cpp/scheduler_emu.cc:45-88 | the same survives a submission, whether the queue has room or not |
| `Scheduling.SubmitCounts` | cpp/scheduler_emu.cc:51-51 | a submission adds one to what the range's NDRange has in flight if there was room, and nothing to any other |
| `Scheduling.InFlightPositive` | cpp/ndrange.cc:154-154 | the count of in-flight ranges is positive exactly when some queue holds one |
| `Scheduling.MissingIdHasRoom` | cpp/free_sched_mgr.cc:21-21 | distinct idle ids of which one is missing leave room for it: the assert that the ring is not full never fires |
| `Scheduling.Scheduler.SubmitWgr` | cpp/scheduler_emu.cc:45-88 | the range joins the queue unless it is full; the timer runs; the id is no longer idle, all other ids are as before |
| `Scheduling.Scheduler.OnTimer` | cpp/scheduler_emu.cc:91-120 | the first range leaves the queue and is counted down; the id becomes idle exactly when the queue is now empty |
| `Scheduling.FreeSchedulersManager.AddFreeScheduler` | cpp/free_sched_mgr.cc:19-28 | the id joins the ring behind the others and the timer runs |
| `Scheduling.FreeSchedulersManager.RemoveFreeScheduler` | cpp/free_sched_mgr.cc:30-45 | the id is gone, all others stay in their order, ids stay distinct; the timer stops with the last one |
| `CommandQueueProtocol.RunKeepsInvariant` | cpp/cmd_q.cc:7-62 | every interleaving of pushes, releases, callback steps and completions keeps conservation, order, registration, reference counts and wake-ups |
| `CommandQueueProtocol.DispatchedInOrderAfterCompletion` | cpp/cmd_q.cc:34-49 | in every reachable state the accepted commands are the dispatched ones, then the one in hand, then the queued ones, in order; a command is dispatched only when the events of all before it are complete |
| `CommandQueueProtocol.WakeupNeverLost` | cpp/cmd_q.cc:34-54 | while commands wait and the last event is unset or complete a callback is running or due; while it is incomplete and can complete, completing it will wake the queue |
| `CommandQueueProtocol.RunsAreBounded` | cpp/cmd_q.cc:7-62 | once clients stop pushing, at most Rank(s) further steps can happen |
| `CommandQueueProtocol.QuietMeansDone` | cpp/cmd_q.cc:7-62 | at rest the ring is empty and every accepted command is complete if and only if the last dispatched command is of a kind that completes, and its NDRange, if it is one, is not stuck for want of an island or of room |
| `CommandQueueProtocol.TouchedEventsAreAlive` | il/ocl_ds.h:266-298 | in every reachable state each event that the next step touches still has a reference, and no event completes before its callback is registered |
| `CommandQueueProtocol.StepKeepsCounts` | il/ocl_ds.h:41-55 | the counter of each event equals its references from the command object, the queue, the living NDRange and the client that pushed it, and reaches zero exactly when there are none |
| `CommandQueueProtocol.DroppedForever` | cpp/cmd_q.cc:99-99 | a push is accepted exactly when the ring has room; a dropped command is never dispatched and never completes, in any later run |
| `CommandQueueProtocol.CompletedCanComplete` | cpp/dispatcher.cc:160-241 | only reads, writes and routable NDRanges ever run, complete or get stuck |
| `CommandQueue.CommandQueue.Create` | il/ocl_api.cc:473-478 | the command exists with its event, to which the client holds a reference of its own unless it is an NDRange |
| `CommandQueue.CommandQueue.PushBack` | cpp/cmd_q.cc:90-104 | the push step of the protocol: the command joins the ring if there is room, and the callback is due in any case |
| `CommandQueue.CommandQueue.PopFront` | cpp/cmd_q.cc:106-118 | the method is the pop step of the protocol; an empty ring gives no command |
| `CommandQueue.CommandQueue.SetLastEvent` | cpp/cmd_q.cc:180-198 | the method is the protocol's step: the old event's reference is dropped, the new one's taken, the callback registered |
| `CommandQueue.CommandQueue.HandleACmd` | cpp/dispatcher.cc:192-241 | the method is the dispatch step: which commands complete at once, which run, which get stuck, which do nothing |
| `CommandQueue.CommandQueue.NdrangeFinished` | cpp/ndrange.cc:195-205 | the completion of a running NDRange's event is the completion step |
| `CommandQueue.CommandQueue.OnNewCmdCb` | cpp/cmd_q.cc:7-62 | the whole callback, with other threads pushing and releasing between any two steps, takes exactly the steps of the protocol from its entry to its return; it dispatches the first command waiting if there was one and the last event was complete or unset, and nothing if that was incomplete; when it returns with commands waiting behind a completed event it is due again |
| `CommandQueue.CallbackServesOne` | cpp/cmd_q.cc:7-62 | over any run of one callback, whatever other threads do in between: nothing is dispatched if the last event is incomplete, the first waiting command if there is one, else nothing or one pushed meanwhile; a read or write dispatched is then complete, a routable NDRange running or stuck |
| `EndToEnd.Runtime.DispatchNdrange` | cpp/dispatcher.cc:160-241 | the dispatch of a routable NDRANGE command is the protocol's step and the routing in one, and whether the command will finish is decided by the inputs as they were before: an island is suitable and each island that the optimal distribution gives work has room |
| `EndToEnd.Runtime.Tick` | cpp/scheduler_emu.cc:91-120 | a tick between two callbacks is a step of the protocol exactly when it retires the last range of an NDRange: the event of its command completes; otherwise only the backlog shrinks |
| `EndToEnd.Runtime.Step` | cpp/cmd_q.cc:7-62 | every other step leaves queue and layer in agreement about which NDRANGE commands run, are complete or are stuck, and lowers the bound on the steps left unless it is a push |
| `EndToEnd.Runtime.NotAtRest` | cpp/scheduler_emu.cc:91-120 | while a range is queued or a callback due there is a next step |
| `EndToEnd.Runtime.AtRest` | cpp/cmd_q.cc:7-62 | at rest every accepted command is complete if and only if the last dispatched one is a read, a write, or an NDRANGE command for which there was an island, and room on each island given work, when it was dispatched |
| `EndToEnd.ServedIff` | cpp/dispatcher.cc:160-190 | a dispatched routable command is not stuck if and only if its NDRange was routed with room for every share |
| `Slicing.SelectBestScheduler` | cpp/algo_slicing.cc:27-109 | of the free schedulers behind the last one whose count of work-groups wraps around in the signed maximum: -1 iff none is a candidate; otherwise the first one that no candidate beats in work-groups fitting the quantum, then in total cost |
| `Slicing.AllConsideredIff` | cpp/algo_slicing.cc:86-89 | all free schedulers are considered if and only if no candidate's count reaches 2^31 |
| `Slicing.BestOfAllIff` | cpp/algo_slicing.cc:86-101 | the choice made among those considered is the best of all free schedulers, the first such one, if and only if the count of no free scheduler wraps around |
| `Slicing.NobodyAtAllIff` | cpp/algo_slicing.cc:86-101 | when none is chosen there is no candidate among all free schedulers if and only if the count of no free scheduler wraps around |
| `Slicing.OnlyCandidateHidden` | cpp/algo_slicing.cc:86-101 | for one: the only candidate, with a wrapped count, is reported as none |
| `Slicing.FitsIffReconfFits` | cpp/algo_slicing.cc:69-76 | what is counted as fitting does fit the quantum if and only if the reconfiguration cost is not above it; then one more work-group would not fit |
| `Slicing.NobodyIffNoneFits` | cpp/algo_slicing.cc:69-101 | with no reconfiguration above the quantum nobody is found if and only if no free scheduler can do even one work-group in that time |
| `Slicing.ChosenDoesMost` | cpp/algo_slicing.cc:86-101 | in terms of time: the one chosen can do as many work-groups in the quantum as any free scheduler, at the least cost, and is the first in the ring that does |
| `Slicing.AlgoSlicing.TurnInTime` | cpp/algo_slicing.cc:128-149 | an idle scheduler is chosen exactly if one can do a work-group within the quantum, or within the quantum times the threshold; the larger limit counts only when nobody can do one within the smaller, and the slice is the most any idle scheduler can do within the limit that counts |
| `Slicing.ReconfAboveQuantum` | cpp/algo_slicing.cc:69-70 | a reconfiguration cost above the quantum wraps around: a concrete case |
| `Slicing.SmallQuantumFits` | cpp/algo_slicing.cc:69-70 | with every reconfiguration cost within a quantum below 2^31 all free schedulers are considered |
| `Slicing.ConsecutiveCovers` | cpp/algo_slicing.cc:152-166 | consecutive ranges are disjoint and cover exactly the work-groups before their end |
| `Slicing.AlgoSlicing.OnFreeSchedulers` | cpp/algo_slicing.cc:113-167 | one callback gives the front NDRange its slice on the best free scheduler and puts it at the back, or drops it from the ring exactly when its ranges cover all of it; re-queueing never overflows |
| `SlicedRuns.Runtime.Tick` | cpp/ndrange.cc:188-206 | over any run of arrivals, turns and ticks: retiring a slice deletes an NDRange that is still in the ring, its event complete with work-groups left, if and only if no other slice of it is out and it is not all carved; with a single scheduler that is every NDRange not covered by one slice |
| `SlicedRuns.Runtime.OnFreeSchedulers` | cpp/algo_slicing.cc:113-167 | a turn keeps every counter equal to the slices that are out, gives one slice or none, to an idle scheduler, and loses no NDRange |
| `SlicedRuns.Runtime.DoneOrLost` | cpp/ndrange.cc:195-205 | a deleted NDRange has no slice out, and is lost if and only if some of its work-groups are not carved |
| `SlicedRuns.Runtime.QuietMeansDone` | cpp/algo_slicing.cc:152-166 | when the ring is empty and nothing is queued each NDRange accepted was carved completely, in consecutive slices, and is finished |
| `Slicing.AlgoSlicing.RouteNdrange` | cpp/algo_slicing.cc:10-22 | an NDRange is refused exactly when the ring is full, and otherwise put at the front |
| `Slicing.AlgoSlicing.CutSlice` | cpp/algo_slicing.cc:152-156 | the slice is queued alone on the scheduler that was free; its cost is computed from the end coordinate |
| `CircArray.OverwritingKeepsTheLast` | cpp/circ_array.hpp:183-203 | a run of overwriting push_backs leaves the last capacity elements of all that was there and all that was pushed |
| `CircArray.RefusingKeepsTheFirst` | cpp/circ_array.hpp:184-191 | a run of refusing push_backs leaves the first capacity elements of all that was there and all that was pushed: nothing accepted is lost |
| `CircArray.OverwritingFrontKeepsTheFirst` | cpp/circ_array.hpp:263-291 | a run of overwriting push_fronts leaves the first capacity of the elements pushed, in reverse, followed by those that were there |
| `CircArray.RefusingFrontKeepsTheLast` | cpp/circ_array.hpp:263-291 | a run of refusing push_fronts puts in front of what was there as many of the first elements pushed as there was room for |
| `CircArray.ViewWrite` | cpp/circ_array.hpp:179-202 | writing at a place changes that element only, or appends |
| `CircArray.ViewPrepend` | cpp/circ_array.hpp:279-288 | stepping the start back, around the end of the array, prepends |
| `CircArray.CircArray.PushBack` | cpp/circ_array.hpp:183-203 | appends, drops the first element first when full and overwriting, or refuses and leaves the contents as they are |
| `CircArray.CircArray.PushFront` | cpp/circ_array.hpp:263-291 | prepends, drops the last element first when full and overwriting, or refuses and leaves the contents as they are |
| `CircArray.CircArray.PopFront` | cpp/circ_array.hpp:293-306 | removes and returns the first element, or reports an empty buffer |
| `CircArray.CircArray.PopBack` | cpp/circ_array.hpp:206-218 | removes and returns the last element, or reports an empty buffer |
| `CircArray.CircArray.Get` | cpp/circ_array.hpp:167-180 | the element at the index; out of bounds exactly when the buffer is not empty and the index is past the end, so that an empty buffer yields a stale value |
| `CircArray.CircArray.PopAt` | cpp/circ_array.hpp:308-340 | removes exactly the element at the index and keeps the order of the others |
| `CircArray.CircArray.ResizeByTwo` | cpp/circ_array.hpp:149-165 | doubles the capacity and keeps the contents |
| `CircArray.CircArray.Assign` | cpp/circ_array.hpp:123-147 | copying from another object gives a separate buffer with the same contents; an object assigned to itself keeps its size and capacity, but not its elements |
| `XmlTree.PreorderIsDocumentOrder` | aux-src/pugixml/pugixml.cc:9816-9846 | the recursive pre-order list holds every node of the document once, in document order |
| `XmlAxes.StepFill` | aux-src/pugixml/pugixml.cc:9792-9983 | each traversal of the tree delivers exactly the nodes of its axis that pass the test, in document order or reverse document order, or just the first of them; the attribute axis and attributes as context are in XPathEvaluation.StepFill |
| `XmlAxes.FillFollowing` | aux-src/pugixml/pugixml.cc:9866-9901 | the same for the following axis |
| `XmlAxes.FillPreceding` | aux-src/pugixml/pugixml.cc:9903-9943 | the same for the preceding axis, which leaves out ancestors met on the way |
| `XmlAxes.FillFollowingOfAttribute` | aux-src/pugixml/pugixml.cc:10020-10045 | the same for the following axis of an attribute |
| `XmlAxes.NodeIsAncestor` | aux-src/pugixml/pugixml.cc:7964-7969 | climbing from the node meets the other exactly when that is an ancestor or itself |
| `XmlAxes.AxesPartitionTheDocument` | aux-src/pugixml/pugixml.cc:9792-9983 | ancestor, descendant, following, preceding and self of any node hold together every node of the document exactly once |
| `XmlAxes.FollowingOfAttributeSplits` | aux-src/pugixml/pugixml.cc:10020-10045 | from an attribute, following is all below its element and then all that follows the element |
| `XmlAxes.SelectionSpec` | aux-src/pugixml/pugixml.cc:9717-9790 | a node is selected exactly if it is in the document, on the axis and passes the test; in axis order, once |
| `XPathLaws.InverseAxis` | aux-src/pugixml/pugixml.cc:9792-9983 | a node is on an axis of another exactly when that is on the inverse axis of it |
| `XPathLaws.CountsAwayFromContext` | aux-src/pugixml/pugixml.cc:9792-9983 | every axis lists its nodes in the order in which they lie away from the node it starts from |
| `XPathLaws.ChildrenInOrder` | aux-src/pugixml/pugixml.cc:9816-9846 | the child axis holds one node for each child, in their order |
| `XPathLaws.SiblingsInOrder` | aux-src/pugixml/pugixml.cc:9801-9864 | the preceding siblings reversed, the node, and the following siblings are the children of its parent |
| `XPathLaws.AttributeAxesPartition` | aux-src/pugixml/pugixml.cc:9985-10064 | from an attribute its ancestors, what follows and what precedes are together every node of the document exactly once |
| `XPathLaws.AttributeIsLeaf` | aux-src/pugixml/pugixml.cc:9985-10064 | the parent of an attribute is its element; it has neither children nor attributes nor siblings |
| `XPathLaws.AttributesOfElement` | aux-src/pugixml/pugixml.cc:9985-10064 | the attribute axis leads to exactly the attributes of the element that declare no namespace |
| `XPathLaws.KindsAreToldApart` | aux-src/pugixml/pugixml.cc:9717-9790 | each node passes node() and the test for its kind by section 2.3 of XPath 1.0, and no test for another kind |
| `XPathLaws.NamesAreBelowKinds` | aux-src/pugixml/pugixml.cc:9717-9790 | names and targets are below their kinds, one each; a namespace test is passed by the names with that prefix |
| `XPathLaws.AttributeTests` | aux-src/pugixml/pugixml.cc:8520-8525 | an attribute is one for XPath unless its name is xmlns, alone or before a colon; tests find the others as they find elements of that name |
| `XmlAxes.RemainingDrops` | aux-src/pugixml/pugixml.cc:9866-9901 | the walk through the document comes to an end: fewer nodes lie ahead after each step |
| `DocumentOrder.XBeforeIsPosition` | aux-src/pugixml/pugixml.cc:8002-8053 | before means an earlier position in the list of each element, its attributes and its children; positions are unique |
| `DocumentOrder.NodeIsBeforeSibling` | aux-src/pugixml/pugixml.cc:7897-7919 | the two-sided sibling walk decides the order of siblings, whichever side runs out first |
| `DocumentOrder.NodeIsBefore` | aux-src/pugixml/pugixml.cc:7921-7962 | the climb to a common parent, from unequal depths too, decides document order of distinct nodes |
| `DocumentOrder.DocumentOrderComparator` | aux-src/pugixml/pugixml.cc:8012-8053 | the comparison is that of positions in the document, except that an attribute comes before itself |
| `Sorting.Sort` | aux-src/pugixml/pugixml.cc:7438-7466 | a sorted rearrangement; recursion is on the smaller side only and each nested call spends one of a budget of the binary logarithm of the length, which bounds the depth; it terminates |
| `Sorting.Partition3` | aux-src/pugixml/pugixml.cc:7411-7436 | for any comparator the range becomes below, equal, other, also when the swap-back cursors cross |
| `Sorting.SwapBack` | aux-src/pugixml/pugixml.cc:7428-7432 | moving the equal elements to the middle completes the split |
| `Sorting.SwapBackStep` | aux-src/pugixml/pugixml.cc:7431-7432 | one swap keeps the picture, before the cursors meet and after |
| `Sorting.InsertionSort` | aux-src/pugixml/pugixml.cc:7380-7401 | a sorted rearrangement |
| `Sorting.Median3` | aux-src/pugixml/pugixml.cc:7402-7409 | one of the three positions, with one of the others at or below it and one at or above, and not one that all elements come before |
| `Sorting.SideIsShorterIff` | aux-src/pugixml/pugixml.cc:7450-7461 | the remaining side is shorter exactly when the comparator leaves some element at or above the pivot |
| `Sorting.SplitSorts` | aux-src/pugixml/pugixml.cc:7447-7461 | splitting the part left to sort leaves two parts with everything across them in order |
| `NodeSets.DocumentOrderSorts` | aux-src/pugixml/pugixml.cc:8734-8734 | document order as the comparator answers it orders distinct nodes, and is fit for sorting a set if and only if no attribute is in it twice, although it is not irreflexive |
| `NodeSets.XPathSort` | aux-src/pugixml/pugixml.cc:8724-8745 | the set ends up in document order, or reversed when asked for, whatever order it was in and even if it holds a node, though no attribute, twice |
| `NodeSets.InOrderIsDocumentOrder` | aux-src/pugixml/pugixml.cc:8724-8745 | in order by those answers if and only if positions in the document do not decrease, or do not increase |
| `NodeSets.GetOrder` | aux-src/pugixml/pugixml.cc:8708-8722 | the order reported is one the set is in; unsorted is reported exactly when some neighbours stand one way and others the other way, by the comparator's answers |
| `NodeSets.MixedIff` | aux-src/pugixml/pugixml.cc:8708-8722 | for sets without duplicates that is exactly when the set is in neither order |
| `NodeSets.OrderedYetMixed` | aux-src/pugixml/pugixml.cc:8708-8722 | for one with a duplicate: it is in order and yet reported unsorted |
| `NodeSets.Unique` | aux-src/pugixml/pugixml.cc:7357-7378 | in place, each element that repeats its predecessor is dropped, and nothing else |
| `NodeSets.CompressedOnce` | aux-src/pugixml/pugixml.cc:7357-7378 | when equal elements stand together, what remains holds each element once |
| `NodeSets.RemoveDuplicates` | aux-src/pugixml/pugixml.cc:8852-8858 | the set holds each of its nodes exactly once |
| `XPathOptimizer.OptimizeSound` | aux-src/pugixml/pugixml.cc:10855-10927 | optimizing a query changes the value of no expression in any context of any document |
| `XPathNormalForm.OptimizeNormal` | aux-src/pugixml/pugixml.cc:10855-10958 | after optimizing none of the rewrites applies any more, anywhere in the query, and every predicate is in the class that its form deserves |
| `XPathEvaluation.Evaluate` | aux-src/pugixml/pugixml.cc:12532-12647 | the optimized query, evaluated with all early exits, in its predicates and arguments too, has the value of the query as it was written, in every context of every document |
| `XPathLaws.AbsoluteIgnoresContext` | aux-src/pugixml/pugixml.cc:10817-10828 | an absolute path has the same value from every two contexts that have a node |
| `XPathLaws.RootIsOnTop` | aux-src/pugixml/pugixml.cc:10817-10828 | / is the one node that every node and attribute of the document has on its ancestor-or-self axis |
| `XPathLaws.StepOverUnion` | aux-src/pugixml/pugixml.cc:10732-10748 | a step from a union is the union of the steps |
| `XPathLaws.OrSelfIsUnion` | aux-src/pugixml/pugixml.cc:9792-10064 | descendant-or-self and ancestor-or-self are the unions of self with descendant and with ancestor, from any nodes and attributes |
| `XPathLaws.LastInDocument` | aux-src/pugixml/pugixml.cc:9573-9623 | [last()] leaves the last node in document order |
| `XPathLaws.NearestFirst` | aux-src/pugixml/pugixml.cc:9573-9651 | positions in a step count along its axis: the first preceding sibling is the one next to the node, the first ancestor its parent |
| `XPathLaws.OneFalseValue` | aux-src/pugixml/pugixml.cc:10173-10308 | of each type there is one false value |
| `XPathEvaluation.EvalNodeSet` | aux-src/pugixml/pugixml.cc:10728-10852 | evaluated for all nodes, for any or for the first, with predicates evaluated in the same way in turn, a node set is collected without repetitions and in the order it claims, and holds all the nodes of its value, or one if there is one, or the first in the document |
| `XPathEvaluation.EvaluateNode` | aux-src/pugixml/pugixml.cc:12649-12671 | the node that the optimized query delivers with all early exits is the first, in the document, of those the query selects as it was written |
| `XPathEvaluation.EvalBoolean` | aux-src/pugixml/pugixml.cc:10173-10308 | the truth of the value, though of a node set only any one node is looked for |
| `XPathEvaluation.EvalNumber` | aux-src/pugixml/pugixml.cc:10310-10445 | the number of the value, though of a node set only the first node is looked for |
| `XPathEvaluation.EvalString` | aux-src/pugixml/pugixml.cc:10488-10726 | the string of the value, though of a node set only the first node is looked for |
| `XPathEvaluation.EvalEqual` | aux-src/pugixml/pugixml.cc:9409-9495 | the comparison by static types, each side converted as its type asks, is equality as section 3.4 of XPath 1.0 defines it on the values |
| `XPathEvaluation.EqualLaws` | aux-src/pugixml/pugixml.cc:9409-9495 | equality is symmetric; a boolean is compared with the truth of the other side; a node set equals what the text of one of its nodes equals |
| `XPathEvaluation.ApplyGeneralOnce` | aux-src/pugixml/pugixml.cc:9573-9623 | each node kept is one whose predicate, evaluated with its position among all of them, holds; in order, or only the first of these |
| `XPathEvaluation.StepFill` | aux-src/pugixml/pugixml.cc:9985-10075 | from a node or an attribute, along any axis: all the step selects in axis order, or the first of it; attributes are taken in their order |
| `XPathEvaluation.OptimizeReady` | aux-src/pugixml/pugixml.cc:10855-10958 | whatever class the optimizer gives a predicate, at any depth, its promise holds: the early exits rely on nothing else |
| `XPathEvaluation.ValueValid` | aux-src/pugixml/pugixml.cc:10728-10852 | every node of every node set is a node or an attribute of the document |
| `XPathEvaluation.StepDo` | aux-src/pugixml/pugixml.cc:10077-10121 | the loop over the nodes a step starts from keeps these promises: lists from several nodes are cut short one by one, a set stays in order until a second node adds to it, and the child, attribute and self axes never repeat a node |
| `XPathEvaluation.ApplyPredicatesOnce` | aux-src/pugixml/pugixml.cc:9577-9675 | predicates are applied in turn and only the last may stop at the first node it accepts |
| `XPathModes.FilterSame` | aux-src/pugixml/pugixml.cc:10750-10762 | a filter selects the same nodes whatever was cut short in front of it, sorted or not |
| `XPathModes.FirstDecides` | aux-src/pugixml/pugixml.cc:10752-10755 | for the filter [1] the first node in the document is enough |
| `XPathModes.OwnedBy` | aux-src/pugixml/pugixml.cc:10115-10119 | the child, attribute and self axes lead to a node from one node only |
| `XPathModes.StepInOrder` | aux-src/pugixml/pugixml.cc:9985-10075 | what an axis delivers for one node or attribute is in document order, or reverse document order for a reverse axis |
| `XPathModes.FirstNode` | aux-src/pugixml/pugixml.cc:8746-8765 | the first node of a list is found from the order it claims |
| `XPathOptimizer.DoubleSlashAgrees` | aux-src/pugixml/pugixml.cc:10892-10906 | the // rewrite selects the same node set in every tree, for every test and set of context nodes, given position-invariant predicates |
| `XPathOptimizer.PosInvSound` | aux-src/pugixml/pugixml.cc:10929-10958 | what is classified position-invariant does not depend on position or size |
| `XPathOptimizer.ConstantAgrees` | aux-src/pugixml/pugixml.cc:9625-9651 | selecting by a constant number is the general rule for numeric predicates |
| `XPathOptimizer.StepAgrees` | aux-src/pugixml/pugixml.cc:10085-10088 | stopping a step at its first node is safe when its only predicate is [1] |
| `XPathOptimizer.StripPositionAgrees` | aux-src/pugixml/pugixml.cc:10869-10876 | [position() = n] holds where [n] does |
| `XPathOptimizer.CompareAttributeAgrees` | aux-src/pugixml/pugixml.cc:10920-10926 | the attribute shortcut decides @name = value as the comparison of node sets does |
| `XPathOptimizer.TableAgrees` | aux-src/pugixml/pugixml.cc:10908-10918 | the table form of translate() computes the same string |
| `Translate.TranslateInPlace` | aux-src/pugixml/pugixml.cc:8436-8456 | the in-place loop yields the translated string and its write cursor never passes the read cursor |
| `Translate.TranslatesInOrder` | aux-src/pugixml/pugixml.cc:8436-8456 | distinct characters of the second argument become those of the third in order, and those without a counterpart are dropped |
| `Translate.OthersStay` | aux-src/pugixml/pugixml.cc:8436-8456 | characters that the second argument does not hold stay as they are |
| `Translate.RepetitionIgnored` | aux-src/pugixml/pugixml.cc:8436-8456 | a character that stands in the second argument again changes nothing: its first place counts |
| `Translate.TranslateTableGenerate` | aux-src/pugixml/pugixml.cc:8458-8488 | a table is made exactly when all characters of the second argument, and those of the third as far as the second reaches, are below 128; it encodes the translation, 128 meaning skip |
| `Translate.TranslateTable` | aux-src/pugixml/pugixml.cc:8490-8518 | the branch-free loop yields what the table says, in place |
| `Translate.TableTranslates` | aux-src/pugixml/pugixml.cc:8436-8518 | a generated table and the direct translation give the same string |
| `XmlDocuments.PrintAndParse` | aux-src/pugixml/pugixml.cc:3242-3478 | parsing what the printer wrote delivers the canonical form of the document, which is the document itself exactly when it has no blank or adjacent texts, no CR in text and no tab in an attribute value |
| `XmlDocuments.PrintAndParseInPlace` | aux-src/pugixml/pugixml.cc:3515-3525 | the same in the printer's own buffer, whose last character is set aside |
| `XmlDocuments.ParseWritten` | aux-src/pugixml/pugixml.cc:3242-3478 | whoever wrote a document, in whatever way: the parse succeeds, and its positions read, in the buffer, as the document that is meant |
| `XmlWrittenDocuments.WrittenDocumentReads` | aux-src/pugixml/pugixml.cc:3242-3478 | a text with any white space inside its tags, values in either kind of quotes, empty elements short or in full and every character written in any admissible way means the document |
| `XmlWrittenDocuments.ItemReads` | aux-src/pugixml/pugixml.cc:3258-3474 | the same for one element or run of text at any depth, whatever follows it |
| `XmlWrittenDocuments.AttributesRead` | aux-src/pugixml/pugixml.cc:3271-3345 | attributes written in any of these ways are read in order |
| `XmlWrittenDocuments.WrongEndTag` | aux-src/pugixml/pugixml.cc:3368-3401 | an end tag of another name, or with nothing to close, fails at its name |
| `XmlWrittenDocuments.NoSpaceBefore` | aux-src/pugixml/pugixml.cc:3309-3320 | an attribute that follows a value without white space fails |
| `XmlPrintedForm.DocumentPrinted` | aux-src/pugixml/pugixml.cc:4224-4315 | the printer writes a document in exactly one of these ways: one blank before each attribute and no other white space, quotation marks, empty elements short, a character as it is unless it must not be |
| `XmlRoundTrip.PrintedDocumentReadsBack` | aux-src/pugixml/pugixml.cc:4224-4315 | the text a document is printed as means its canonical form; it comes back unchanged if and only if it is faithful |
| `XmlRoundTrip.PrintedDocumentReadsBackInPlace` | aux-src/pugixml/pugixml.cc:3515-3525 | the same when the last character has given way to the terminator |
| `XmlRoundTrip.CanonAllIdentity` | aux-src/pugixml/pugixml.cc:3418-3474 | a document is its own canonical form if and only if it is faithful |
| `XmlRoundTrip.ReadElement` | aux-src/pugixml/pugixml.cc:3258-3401 | a printed element followed by anything reads as its canonical form, at any depth |
| `XmlRoundTrip.ReadAttributes` | aux-src/pugixml/pugixml.cc:3271-3345 | printed attributes read back in order, tabs turned into spaces |
| `XmlRoundTrip.ReadText` | aux-src/pugixml/pugixml.cc:3418-3474 | a printed run of texts reads as one text with line ends normalised, or as nothing when blank |
| `XmlText.CharDataReadsBack` | aux-src/pugixml/pugixml.cc:3906-3945 | escaped character data decodes to the text with line ends normalised, at the position where it ends |
| `XmlText.AttributeValueReadsBack` | aux-src/pugixml/pugixml.cc:3906-3945 | an escaped attribute value decodes to the value with tabs as spaces, up to its closing quote |
| `XmlText.EscapedHoldsNoMarkup` | aux-src/pugixml/pugixml.cc:3906-3945 | printed text holds neither < nor >, in values no quotation mark and no line end either, and no control character but white space |
| `XmlText.StartSymbols` | aux-src/pugixml/pugixml.cc:1828-1880 | the characters a name may begin with, written out |
| `XmlText.OtherSymbols` | aux-src/pugixml/pugixml.cc:1828-1880 | the other characters of names, and white space, written out |
| `XmlWritings.WritingReads` | aux-src/pugixml/pugixml.cc:2657-2816 | every way to write a text by sections 2.4, 4.1 and 4.6 of XML 1.0 - characters as they are, the five predefined entities, decimal and hexadecimal references of any number of digits in either case - is read as that text, between tags or in either kind of quotes, with raw line ends or white space normalised |
| `XmlWritings.ReferenceRead` | aux-src/pugixml/pugixml.cc:2446-2584 | each of the five entities and every decimal or hexadecimal reference is read as what it stands for, whatever follows |
| `XmlWritings.BareAmpersand` | aux-src/pugixml/pugixml.cc:2446-2584 | an ampersand that begins no complete reference stands for itself |
| `XmlPrinter.NodeOutput` | aux-src/pugixml/pugixml.cc:4224-4315 | the pointer-walking loop writes exactly the recursive print of the tree |
| `XmlPrinter.TextOutputEscaped` | aux-src/pugixml/pugixml.cc:3906-3945 | the run-copying loop writes the escaped text |
| `XmlPrinter.NodeOutputAttributes` | aux-src/pugixml/pugixml.cc:4063-4088 | each attribute is written, quoted and escaped, in order |
| `XmlPrinter.NodeOutputStart` | aux-src/pugixml/pugixml.cc:4090-4150 | the start tag, and whether children and an end tag follow |
| `XmlParser.XmlParser.ParseTree` | aux-src/pugixml/pugixml.cc:3242-3478 | parsing in place: the positions collected read, in the overwritten buffer, as the tree that the original text means, or the error and its position are those of the original text |
| `XmlParser.Gap.Push` | aux-src/pugixml/pugixml.cc:2415-2430 | collapsing the previous gap keeps the decoded text before the read position |
| `XmlParser.Gap.Flush` | aux-src/pugixml/pugixml.cc:2432-2443 | after the last collapse the decoded text stands at the front |
| `XmlParser.StrconvEscape` | aux-src/pugixml/pugixml.cc:2446-2584 | each reference is decoded in place, or left as it is when malformed, as the specification of references says |
| `XmlParser.StrconvPcdata` | aux-src/pugixml/pugixml.cc:2657-2706 | in place: the decoded character data, cut at a NUL, terminated, and where reading goes on |
| `XmlParser.StrconvAttribute` | aux-src/pugixml/pugixml.cc:2782-2816 | in place: the decoded value, or failure exactly when there is no closing quote |
| `XmlParser.XmlParser.ParseStartTag` | aux-src/pugixml/pugixml.cc:3258-3367 | the start tag is consumed as the specification says, its name and attributes held in the buffer |
| `XmlParser.XmlParser.ParseEndTag` | aux-src/pugixml/pugixml.cc:3368-3401 | the end tag closes the innermost element exactly when the names agree |
| `Integers.StringToInteger` | aux-src/pugixml/pugixml.cc:4477-4557 | for every string the result is the number it denotes, decimal or hexadecimal, clamped to the range of the type, despite accumulation modulo 2^32 or 2^64 |
| `Integers.OverflowIsExact` | aux-src/pugixml/pugixml.cc:4513-4543 | number of digits, first digit and highest bit find an overflow if and only if the number does not fit |
| `Integers.LeadDecides` | aux-src/pugixml/pugixml.cc:4539-4543 | with as many digits as the largest number has, the first digit and the highest bit of the wrapped value decide |
| `Integers.Accumulate` | aux-src/pugixml/pugixml.cc:4491-4544 | the loop yields the number wrapped, and the exact verdict on overflow |
| `Integers.WrittenMeaning` | aux-src/pugixml/pugixml.cc:4477-4530 | any number of blanks, a sign or none, 0x in either case before hexadecimal digits, the digits in either case with any number of zeros in front, and anything behind that does not go on: it means the value of the digits |
| `Integers.HexadecimalMeaning` | aux-src/pugixml/pugixml.cc:4499-4507 | a number printed in base 16, in either letter case, means that number |
| `Integers.CaseMakesNoDifference` | aux-src/pugixml/pugixml.cc:4499-4507 | letter case makes no difference to what a string means |
| `Integers.NoNumber` | aux-src/pugixml/pugixml.cc:4477-4530 | a string that does not begin like a number means 0 |
| `Integers.ClampIsNearest` | aux-src/pugixml/pugixml.cc:4546-4557 | the result is in the range of the type, and no number of the type is nearer |
| `Integers.IntegerToString` | aux-src/pugixml/pugixml.cc:4608-4626 | the buffer ends with the decimal text of the integer, sign included, and is never overrun |
| `Integers.PrintedMeaning` | aux-src/pugixml/pugixml.cc:4608-4626 | the printed form of an integer denotes that integer |
| `Integers.PrintedReadsBack` | aux-src/pugixml/pugixml.cc:4477-4626 | parsing the printed form of a representable integer gives it back |
| `Transcoding.CountIsLength` | aux-src/pugixml/pugixml.cc:1448-1555 | whatever a decoder reports, malformed input included, the counting pass gives the length the writing pass emits |
| `Transcoding.Utf8Process` | aux-src/pugixml/pugixml.cc:1619-1684 | with the aligned four-byte fast path the decoder reports what the byte-wise loop does, wherever the data starts |
| `Transcoding.Utf16Process` | aux-src/pugixml/pugixml.cc:1686-1736 | the decoder's loop reports what the recursive definition says, in either byte order |
| `Transcoding.Utf8RoundTrip` | aux-src/pugixml/pugixml.cc:1461-1684 | decoding the UTF-8 encoding of any scalar values gives them back (section 3 of RFC 3629) |
| `Transcoding.Utf16RoundTrip` | aux-src/pugixml/pugixml.cc:1529-1736 | decoding the UTF-16 encoding of any scalar values gives them back (sections 2.1 and 2.2 of RFC 2781) |
| `Transcoding.Utf8FormIsStandard` | aux-src/pugixml/pugixml.cc:1461-1507 | the UTF-8 writer emits the shortest form with the lead and continuation bytes of RFC 3629 |
| `Transcoding.Utf8FormValue` | aux-src/pugixml/pugixml.cc:1461-1507 | the bytes written stand for the character, by the table in section 3 of RFC 3629 |
| `Transcoding.Utf16FormIsStandard` | aux-src/pugixml/pugixml.cc:1529-1555 | the units written stand for the character: itself, or from U+10000 on the pair of surrogates of section 2.1 of RFC 2781 |
| `Transcoding.StraySurrogatesAreSkipped` | aux-src/pugixml/pugixml.cc:1686-1736 | unit by unit, in either byte order: surrogates that do not stand in a pair are skipped, and nothing else is |
| `Transcoding.Latin1Reports` | aux-src/pugixml/pugixml.cc:1768-1790 | a Latin-1 text is read as the characters of the same numbers |
| `Transcoding.ConversionsAreExact` | aux-src/pugixml/pugixml.cc:2174-2197 | converting any text between UTF-16 and UTF-8 gives its encoding |
| `Utf8Validity.NextIsStandardIff` | aux-src/pugixml/pugixml.cc:1619-1684 | the sequence decoded at the start of any data is the standard form of the character reported for it if and only if the grammar of section 4 of RFC 3629 admits it: a condition on its first two bytes |
| `Utf8Validity.WellFormedIff` | aux-src/pugixml/pugixml.cc:1619-1684 | an input is well-formed, by that grammar, if and only if it encodes some sequence of scalar values, and then the decoder reports exactly those |
| `Utf8Validity.WrittenBackIff` | aux-src/pugixml/pugixml.cc:1461-1684 | decoding and writing again never makes an input longer, and gives it back if and only if every sequence is accepted and none is an overlong form of two or three bytes |
| `Utf8Validity.WellFormedIffWrittenBack` | aux-src/pugixml/pugixml.cc:1461-1684 | an input is well-formed if and only if it is given back and all characters reported are scalar values of their size class |
| `Utf8Validity.NextByBytes` | aux-src/pugixml/pugixml.cc:1628-1680 | which sequence is taken is decided by the lead byte and the continuation bytes alone |
| `Utf8Validity.ReportedValue` | aux-src/pugixml/pugixml.cc:1628-1680 | what is reported for a sequence that is taken, standard or not, is the number that its bytes stand for |
| `Utf8Validity.OverlongIsAccepted` | aux-src/pugixml/pugixml.cc:1653-1669 | two instances: an overlong form that is decoded and written back shorter, and a surrogate that is decoded and written back as it was |
| `Transcoding.ConvertUtf16` | aux-src/pugixml/pugixml.cc:2174-2197 | the two-pass conversion fills a buffer of exactly the counted length, terminator included |
| `Transcoding.ConvertLatin1` | aux-src/pugixml/pugixml.cc:2199-2243 | copying the 7-bit prefix and converting the rest, into a buffer of the counted length and a terminator, is converting all; the input itself is handed back exactly when it is all prefix and may be changed |
| `Transcoding.GetMutableBuffer` | aux-src/pugixml/pugixml.cc:2040-2065 | the buffer itself when it may be changed, else a copy with a terminator |
| `PageAllocator.XmlAllocator.AllocateMemory` | aux-src/pugixml/pugixml.cc:541-553 | a new live block that overlaps no other, behind what was handed out of the last page if it fits there, else at the start of a new page; every other block is as it was; the list stays well linked; the count of allocations goes up by one |
| `PageAllocator.XmlAllocator.AssertFailsIff` | aux-src/pugixml/pugixml.cc:729-731 | in every valid state the last page has none before it if and only if it is the only one, and the assert fails for exactly the large blocks allocated first of all |
| `PageAllocator.XmlAllocator.AllocateMemoryOob` | aux-src/pugixml/pugixml.cc:707-743 | a small block starts a new last page, a large one gets a page of its own in front of the last |
| `PageAllocator.XmlAllocator.DeallocateMemory` | aux-src/pugixml/pugixml.cc:593-635 | exactly the block is freed; a page other than the last is released exactly with its last live block; the last one starts afresh |
| `PageAllocator.XmlAllocator.BlocksNeverOverlap` | aux-src/pugixml/pugixml.cc:541-553 | in every reachable state two live blocks of a page are disjoint and within what has been handed out |
| `PageAllocator.XmlAllocator.EveryByteAccounted` | aux-src/pugixml/pugixml.cc:593-635 | in every reachable state busy is freed plus live on each page, and every page but the last holds a live block |
| `PageAllocator.XmlAllocator.HeaderFits` | aux-src/pugixml/pugixml.cc:637-688 | a string's 16-bit header gives back the start of its page and the size of its block, large strings included |
| `PageAllocator.XmlAllocator.AllocateString` | aux-src/pugixml/pugixml.cc:637-669 | the block is large enough and its header fits |
| `PageAllocator.XmlAllocator.DeallocateString` | aux-src/pugixml/pugixml.cc:671-688 | from the header alone exactly the string's block is freed |
| `PageAllocator.PageFrees` | aux-src/pugixml/pugixml.cc:600-602 | freed reaches busy exactly with the last live block |

## Left out

- Slicing.AlgoSlicing.OnFreeSchedulers: the NDRange at the front, when there is an idle scheduler to offer it, must not have been deleted: the source reads it. `SlicedRuns.Runtime.Tick` says exactly when an NDRange in the ring is.
- CommandQueueProtocol.QuietMeansDone: EMPTY commands, and NDRANGE commands without kernel or program, are never completed by the source; the statement says so instead of excluding them. Whether an NDRange will finish is a parameter there; EndToEnd ties it to the layer.
- Scheduling.Layer.RouteNdrange: the clock, the tracker and the resource check are parameters, floating-point times are not modelled.
- CommandQueue.CommandQueue.HandleACmd: the error codes of reads and writes, and the memory they copy, are left out.
- CircArray.CircArray.Assign: capacity 0 is excluded, as for all operations of the ring.
- XmlParser.XmlParser.ParseTree: the nodes the parser links are kept as a tree of buffer positions, not as allocated objects; comments, CDATA sections, processing instructions and document types end the parse with a status of their own; only the default options are modelled.
- XmlPrinter.NodeOutput: raw format only, for documents, elements and text; the buffered writer is the string written so far.
- XPathOptimizer.OptimizeSound: the syntax tree is rewritten as a value, not in place; operators the optimizer does not look into are arbitrary functions of their arguments; numbers are reals.
- XPathEvaluation.EvalNodeSet: functions that the optimizer does not look into are arbitrary, seen through the conversions that they ask of their arguments; the lists of variables are required to be in the order they claim, without repetitions, and of nodes of the document; sorting and dropping duplicates are functions here, with the promises proved of `XPathSort` and `RemoveDuplicates`.
- NodeSets.XPathSort: sets that hold an attribute twice are excluded: the comparator does not order them, and the sort may then make no progress (`SideIsShorterIff`). No set that is evaluated holds a node twice (`EvalNodeSet`).
- XmlAxes.StepFill: the attribute axis is in XPathEvaluation.StepFill; the tree is an immutable value with pointers as paths.
- DocumentOrder.DocumentOrderComparator: the shortcut through buffer addresses, and nodes of different documents, are left out.
- Integers.StringToInteger: 32-bit and 64-bit types only; a 16-bit type would pass the static assertion but is never used.
- Transcoding.Utf8Process: what a writer has written is a sequence that grows, not memory behind a pointer; wide-character output is left out.
- PageAllocator.XmlAllocator.AllocateMemory: allocation failures and the compact mode are left out; memory is what pages and offsets denote.
- XmlPrinter.NodeOutputStart: an empty value is taken for an absent one; the source closes an element with an empty value that is present by an end tag.
- Unrolled scanning loops are modelled as the plain loops they unroll.
- Command queues that have been released: a queue can then be deleted with commands or an event still in flight (cpp/cmd_q.cc:52-59, 161-169).
- 16-bit and 32-bit wrap-around of counters, sizes and costs in the management layer, except where a lemma is about it.
- libev, threads and mutexes themselves: a callback, a push under the mutex and a completion are atomic steps, a wake-up is a pending flag.
- Kernel and driver code, bitstreams, configuration, logging, remote memory, `TheBuffer`, `get_3d_from_1d`, and the XPath lexer, parser, number formatting and floating-point functions.
