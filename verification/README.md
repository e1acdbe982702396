# Verification model of forstio

A Dafny model of the hard core of forstio, with proofs of the properties its design relies on.
`dafny verify dfyconfig.toml` checks all of it. Three components build on each other, and two
smaller loops stand beside them.

**The event queue** (`Schedule.dfy`, `QueueSteps.dfy`, `EventLoops.dfy`). An intrusive doubly
linked list of events in which every event knows the slot that points at it, and three slots
of the loop move: the tail, the next cursor and the later cursor. `EventLoops` has the pointer
structure with its in-place stores; a slot (`Event **`) is the loop's head or some event's
next field. It refines the queue value of `Schedule`: a sequence of distinct events and two
positions in it. About that value the turn law and the firing order over whole runs are
proved, and in `QueueSteps` what each step changes and what a cancel comes to;
`EventLoop.Turn` establishes these laws on the pointers and `EventLoop.Replay` carries whole
runs over to them.

**The conveyor** (`Conveyor.dfy`, `Wakeups.dfy`, `Faults.dfy`, `Recovery.dfy`, `Drain.dfy`,
`Blocking.dfy`, `Delivery.dfy`, `ChainRuns.dfy`, `ChainSteps.dfy`, `ConveyorNodes.dfy`). A
feeder and its adapt node, any number of bounded buffers behind it, converters on every link,
and possibly a sink. Nodes hand elements on only by waking each other through the event queue.
`Conveyor` states each operation on the chain as a value. `Wakeups` proves that no wake-up is
lost, `Faults` when a turn pulls from nothing, `Recovery` which lost wake-ups are made up for,
`Drain` how many turns the chain needs to empty itself, `Blocking` when it never does or never
rests, `Delivery` that a chain is a first-in-first-out queue that converts on the way, and
`ChainRuns` all of this for whole runs of building, feeding, turning and taking in any order.
`ChainSteps` spells out what each such step changes. `ConveyorNodes` has the node objects that
push, pop and arm their events on an `EventLoop`; each of their methods refines the operation
of the chain, and `Drive` carries whole runs over to objects and pointers.

**The ProtoKel codec** (`RingBuffers.dfy`, `Wire.dfy`, `WireLaws.dfy`, `WireLayout.dfy`,
`WireErrors.dfy`, `ProtoKel.dfy`, `MessageQueues.dfy`). A ring of bytes that wraps around and
a transactional view on it refine a bounded byte queue. `Wire` has schemas, messages and the
wire format as functions, `WireLaws` the laws: decoding accepts exactly what encoding produces
and never changes its mind when more bytes arrive. `WireLayout` gives the bytes of every kind
of message in figures, `WireErrors` says which bytes are rejected for good and which only wait
for more. `ProtoKel` is the imperative codec on view and ring, proved against these functions.
`MessageQueues` shows that a ring between an encoder and a decoder is a queue of messages.

**The merge node** (`Merges.dfy`): the round-robin scan is fair. **Partial transfers**
(`Transfers.dfy`): a write or read in several steps moves every byte once and reports once.
`Examples.dfy` has small runs with the values they come to.

## Where the code keeps less than one may expect

The model follows the code. Each case has its exact condition and a concrete input at
which it happens.

- `Event::disarm` does not repair the later cursor. `EventLoops.Event.Disarm` states when
  the queue survives, `EventLoops.DisarmBreaksLoop` is a run that breaks it, and
  `EventLoops.DisarmLosesEvent` shows what is lost. The same holds for the destruction of an
  armed event, which disarms it.
- `take` tells nobody that space became free. `Wakeups.TakeKeepsWakefulIff` states when a
  buffer further up sleeps on although it could hand an element on, `Blocking.DrainsIff`
  when that is never made up for, and `ChainRuns.StrandedForEver` what becomes of a full
  buffer then, at an input in `Witnesses.TakeLosesElement`.
- `take` does not disarm a node it empties. If such a node then gets a parent that pulls,
  and nothing is on its way to it, its pending event pulls an element that is not there:
  `Faults.AddBufferFaultsIff` and `Faults.AddSinkFaultsIff`, at an input in
  `Witnesses.TakeLeavesStaleTail`.
- A buffer of capacity zero blocks everything behind it (`Blocking.DrainsIff`), and if more
  elements wait than the buffers before it hold, the adapt node arms itself for ever, so
  that every `turnLoop` runs to its limit (`Blocking.IdleIff`, at an input in
  `Witnesses.ZeroBufferSpins`).
- `RingBuffer::writeAdvance(0)` on a full ring drops its content:
  `RingBuffers.RingBuffer.WriteAdvance`, at an input in `Witnesses.AdvanceByNothing`.
- `RingBuffer::writeSegmentLength` at the very end of the free space reports a run that is
  not free: `RingBuffers.RingBuffer.WriteSegmentIsExactIff`, at an input in
  `Witnesses.SegmentPastTheEnd`.
- A message over the limit at the front of a ring is never skipped, and nothing behind it
  comes out any more: `MessageQueues.OverLimitBlocks`, at an input in
  `Witnesses.OverLimitStays`.

## Model

| member | source | states |
|---|---|---|
| `Schedule.ArmInserts` | source/forstio/async.cpp:65-135 | An arm operation puts an event that is not pending exactly at its cursor, moves no other event and steps the cursors on as armNext, armLater and armLast do; taking the event out again restores the queue |
| `Schedule.PopDrops` | source/forstio/async.cpp:194-217 | A turn takes out the front event alone, the others keeping their order; the next cursor returns to the front and the later cursor stays between the same events |
| `Schedule.DisarmRemoves` | source/forstio/async.cpp:137-155 | Disarming takes out exactly this event and keeps the order of all others |
| `Schedule.TurnLaw` | source/forstio/async.cpp:65-222 | What a turn leaves, for every interleaving of arm requests: next-armed events in order, then what stood before the later cursor, then later-armed events in order, then last-armed events newest first, then what stood behind; repeated requests and requests for pending events have no effect |
| `Schedule.DistinctRequestsAreEffective` | source/forstio/async.cpp:65-135 | Requests for distinct events that are not pending all take effect |
| `Schedule.RequestsArm` | source/forstio/async.cpp:65-222 | A firing event that cancels nothing leaves the queue of the turn law |
| `Schedule.RunIsDisciplined` | source/forstio/async.cpp:65-222 | In every run of arming, firing and cancelling, the later cursor separates last-armed events from all others, later-armed events stand in arming order, last-armed ones in reverse order |
| `Schedule.LaterEventsFireInArmingOrder` | source/forstio/async.cpp:98-116 | Over a whole run, of two later-armed events the one armed first fires first |
| `Schedule.LastEventFiresAloneAndNewestFirst` | source/forstio/async.cpp:118-135 | When a last-armed event is about to fire, everything else pending is last-armed too and older |
| `QueueSteps.CancelTakesOut` | source/forstio/async.cpp:137-155 | A cancel takes out its event and leaves both cursors between the same events, unless the later cursor stands right behind the event, when it is not made |
| `QueueSteps.RequestPutsIn` | source/forstio/async.cpp:65-135 | An arm request puts its event at the next or the later cursor and moves the cursors as that operation does; a pending event stays |
| `QueueSteps.AdvanceActs` | source/forstio/async.cpp:65-222 | In a run, firing records the front event with how and when it was armed, an effective arm request is recorded, and a cancel records nothing |
| `QueueSteps.RunIsStepwise` | source/forstio/async.cpp:65-222 | A run goes through one state per step, from an empty queue: no step of it is passed over |
| `QueueSteps.Unnamed` | source/forstio/async.cpp:65-222 | An event that nothing in a turn arms or cancels is pending after it exactly if it was before |
| `QueueSteps.LastNamingDecides` | source/forstio/async.cpp:65-222 | Otherwise the last step that names the event decides: it is pending exactly if that is an arm request, or a cancel with the later cursor right behind the event |
| `QueueSteps.DisarmCommutes` | source/forstio/async.cpp:65-155 | Taking an event out commutes with every later request or cancel of another event, and the later cursor never comes to stand right behind it |
| `QueueSteps.CancelCommutes` | source/forstio/async.cpp:65-222 | A turn with a cancel that no later step undoes leaves the queue of the turn without that cancel, with only the cancelled event taken out |
| `QueueSteps.CancelLeavesOut` | source/forstio/async.cpp:65-222 | So the cancelled event is not pending after the turn, all others stand as they would without the cancel, and both cursors are between the same events |
| `QueueSteps.TurnIsStepwise` | source/forstio/async.cpp:65-222 | A turn goes through one queue per request or cancel, each differing from the last by exactly what that step puts in or takes out |
| `EventLoops.Event.constructor` | source/forstio/async.cpp:61 | A new event belongs to its loop, is not armed and leaves the queue as it is |
| `EventLoops.Event.Store` | source/forstio/async.cpp:70-75 | The stores of an arm operation make the slot point at the event, the event at what the slot pointed at, and touch nothing else |
| `EventLoops.Event.LinkAt` | source/forstio/async.cpp:70-75 | At a slot of the list these stores insert the event at the position of the slot, keeping every prev/next pair consistent |
| `EventLoops.Event.ArmNext` | source/forstio/async.cpp:65-96 | The pointer structure after armNext spells out the queue with the event inserted at the next cursor, tail and both cursors on the right slots; nothing changes if it was armed |
| `EventLoops.Event.ArmLater` | source/forstio/async.cpp:98-116 | The pointers after armLater spell out the queue with the event inserted at the later cursor, which moves behind it; nothing changes if it was armed |
| `EventLoops.Event.ArmLast` | source/forstio/async.cpp:118-135 | The pointers after armLast spell out the queue with the event inserted at the later cursor, which stays in front of it; nothing changes if it was armed |
| `EventLoops.Event.ArmLaterStranded` | source/forstio/async.cpp:98-116 | armLater on a loop whose later cursor is on the slot of a removed event links the event in behind the removed one and leaves the head as it is |
| `EventLoops.Event.TakeOut` | source/forstio/async.cpp:139-153 | The stores of disarm remove exactly this event; the loop stays consistent unless the later cursor was the slot of the removed event |
| `EventLoops.Event.Disarm` | source/forstio/async.cpp:137-155 | The event leaves the list; exactly when an armed event has the later cursor right behind it, the cursor stays on its slot and the pointers represent no queue at all, otherwise they represent the queue without this event |
| `EventLoops.EventLoop.constructor` | source/forstio/async.h:350-355 | A new loop represents the empty queue |
| `EventLoops.EventLoop.Unlink` | source/forstio/async.cpp:147-153 | Unlinking an event at any position leaves a consistent list without it |
| `EventLoops.EventLoop.PopFront` | source/forstio/async.cpp:194-217 | The part of turn before fire: the front event leaves, unarmed, and tail and cursors fall back to the head where they must |
| `EventLoops.EventLoop.Act` | source/forstio/async.cpp:65-155 | Whatever a firing event arms or cancels, the pointers represent the queue after it |
| `EventLoops.EventLoop.Turn` | source/forstio/async.cpp:194-222 | A whole turn, whatever its event arms and cancels: the pointers represent the queue after it; if the event only arms, that is the queue of the turn law; an event cancelled last is not pending, and everything else stands as it would without that cancel |
| `EventLoops.EventLoop.Step` | source/forstio/async.cpp:65-222 | Firing, arming or cancelling on the pointers is the step of a run, a fired event being the one the run fires |
| `EventLoops.EventLoop.Replay` | source/forstio/async.cpp:65-222 | Whole runs of a loop, cancels during firing included: the pointers always represent the queue of the run and events fire in its order, so the laws about runs hold for them |
| `EventLoops.DisarmBreaksLoop` | source/forstio/async.cpp:98-155 | A concrete run that breaks a loop: arm one event later, then disarm it |
| `EventLoops.DisarmLosesEvent` | source/forstio/async.cpp:98-222 | What that costs: the next event armed later counts as armed, but no number of turns fires it |
| `Wakeups.TurnKeepsSafe` | source/forstio/async.tmpl.h:171-240 | After every turn, all pending events will be able to fire: they have an element, nothing can pull from them, or their child is queued before them and will bring one |
| `Wakeups.TurnAppends` | source/forstio/async.cpp:98-116 | What a turn arms joins the queue behind all events pending before |
| `Wakeups.TurnKeepsWakeful` | source/forstio/async.tmpl.h:171-240 | No turn loses a wake-up: every node with an element its parent can take is armed afterwards |
| `Wakeups.FireAdaptEffect` | source/forstio/async.tmpl.h:551-559 | Firing the adapt node hands on at most one element and arms exactly its parent, if that got an element, and itself, if elements are left |
| `Wakeups.OfferEffect` | source/forstio/async.tmpl.h:185-190 | A buffer hands on at most one element and arms exactly its parent, if that got an element, and itself, if it could hand on again |
| `Wakeups.FireBufferEffect` | source/forstio/async.tmpl.h:171-195 | Firing a buffer arms, besides that, its child exactly if the buffer was full and the child can hand on now |
| `Wakeups.ChildEffect` | source/forstio/async.tmpl.h:212-228 | A parent pulls one element exactly if it has space, and is armed then |
| `Wakeups.TurnArms` | source/forstio/async.tmpl.h:171-240 | Exactly which nodes are armed after a turn |
| `Wakeups.TurnHops` | source/forstio/async.tmpl.h:171-228 | A turn moves exactly one element one node down if the parent has space, and otherwise changes the event queue only |
| `Wakeups.FeedKeepsSafe` | source/forstio/async.tmpl.h:508-516 | Feeding keeps events safe to fire and loses no wake-up |
| `Wakeups.ThenKeepsSafe` | source/forstio/async.tmpl.h:52-60 | Adding a converter keeps events safe to fire and loses no wake-up |
| `Wakeups.AddBufferKeepsSafeIff` | source/forstio/async.tmpl.h:62-72 | Adding a buffer keeps that if and only if the buffer has capacity zero or the last node is not armed and empty with nothing on its way to it; then it also loses no wake-up |
| `Wakeups.AddSinkKeepsSafeIff` | source/forstio/async.tmpl.h:99-111 | Adding a sink keeps it if and only if the last node is not armed and empty with nothing on its way to it; then it also loses no wake-up |
| `Wakeups.TakeKeepsWakefulIff` | source/forstio/async.tmpl.h:139-152 | Every take is safe; it keeps all nodes awake if and only if it does not free space in a full buffer whose non-empty child buffer is not armed |
| `Faults.DoomedFaults` | source/forstio/async.tmpl.h:171-223 | An armed and empty node whose parent has space, with nothing on its way to it, is pulled from after as many turns as events stand before it |
| `Faults.AddBufferFaultsIff` | source/forstio/async.tmpl.h:62-72 | After adding a buffer, turns come to an event that pulls an element that is not there if and only if the buffer has a capacity and the last node was armed and empty with nothing on its way to it; then it is the turn of that node |
| `Faults.AddSinkFaultsIff` | source/forstio/async.tmpl.h:99-111 | After adding a sink, turns come to such an event if and only if the last node was armed and empty with nothing on its way to it |
| `Recovery.UpstreamTurn` | source/forstio/async.tmpl.h:171-228 | A turn changes the number of elements upstream of a node only by handing one to that node |
| `Recovery.TurnKeepsRecovering` | source/forstio/async.tmpl.h:171-240 | If all sleeping nodes are buffers with space and elements upstream, that stays so over every turn |
| `Recovery.TurnKeepsDormant` | source/forstio/async.tmpl.h:171-240 | A sleeping node that is full, or has nothing upstream, sleeps on over every turn and keeps its elements |
| `Drain.HopTurn` | source/forstio/async.tmpl.h:185-190 | A turn that hands an element on brings all elements together one hop closer to the sink |
| `Drain.WastedTurn` | source/forstio/async.tmpl.h:551-559 | A turn that hands nothing on moves no element and keeps the order of the other pending events; only the adapt node returns to the end of the queue |
| `Drain.DownstreamCanHop` | source/forstio/async.tmpl.h:171-240 | From any waiting element, following full buffers downstream ends at a node that can hand on |
| `Drain.PendingHop` | source/forstio/async.tmpl.h:171-240 | While any element waits, some pending event will hand one on, also when wake-ups were lost that will be made up for |
| `Drain.TurnsKeepSafe` | source/forstio/async.cpp:183-222 | If all pending events will be able to fire, no number of turns comes to one that pulls from nothing |
| `Drain.IdleIsDrained` | source/forstio/async.tmpl.h:171-240 | An idle loop on a chain with a sink has no element left anywhere, unless a node sleeps for good |
| `Drain.DrainBound` | source/forstio/async.cpp:183-222 | With k buffers and a sink, and no node asleep for good, everything has reached the sink and nothing is pending after k+1 turns for each hop the elements still have to make, and k+1 more if some event is armed for nothing |
| `Drain.BuffersWithRoomAreFresh` | source/forstio/async.tmpl.h:171-240 | If all buffers have a capacity, no event is armed for nothing and no element is blocked, so that the bound is k+1 times the remaining hops |
| `Drain.TurnKeepsFresh` | source/forstio/async.tmpl.h:171-240 | No turn leaves a node armed for nothing that was not so before |
| `Drain.OneTurnLoopDrains` | source/forstio/async.cpp:183-192 | One turnLoop, 65536 turns, delivers everything if that bound is at most 65536 |
| `Blocking.BlockedTurn` | source/forstio/async.tmpl.h:204-213 | No turn moves an element past a buffer of capacity zero |
| `Blocking.DrainsIff` | source/forstio/async.tmpl.h:171-240 | A safe chain with a sink delivers everything some day if and only if no element waits upstream of a buffer of capacity zero and every sleeping node is a buffer with space and elements upstream |
| `Blocking.Settles` | source/forstio/async.cpp:183-222 | Every chain with a sink and no node asleep for good comes to a state in which nothing is pending, or only an adapt node that cannot hand on |
| `Blocking.OverfullTurn` | source/forstio/async.tmpl.h:171-240 | No turn changes whether more elements wait upstream of the first buffer of capacity zero than fit there |
| `Blocking.IdleIff` | source/forstio/async.cpp:183-222 | If no node is asleep for good, the loop goes idle some day if and only if no more elements wait upstream of the first buffer of capacity zero than fit in the buffers before it; right behind the adapt node, if and only if that is not armed with elements |
| `Delivery.HopConserves` | source/forstio/async.tmpl.h:197-228 | A hop between two nodes changes nothing in the sequence of outputs still to come, conversions included |
| `Delivery.ExitIsFront` | source/forstio/async.tmpl.h:197-202 | What leaves the last node is the first of all outputs still to come |
| `Delivery.TurnKeepsTotal` | source/forstio/async.tmpl.h:171-228 | No turn loses, doubles or reorders anything: delivered plus outputs still to come stays the same sequence |
| `Delivery.TakeTakesFront` | source/forstio/async.tmpl.h:139-152 | take returns the first of all outputs still to come |
| `Delivery.FeedAppends` | source/forstio/async.tmpl.h:508-516 | Feeding appends one output: the fed element through all converters, a recoverable error through their error functions |
| `Delivery.ThenConverts` | source/forstio/async.tmpl.h:52-60 | A new converter applies to exactly the outputs that have not left the chain |
| `Delivery.AddBufferKeepsTotal` | source/forstio/async.tmpl.h:62-72 | A new buffer changes no output |
| `Delivery.AddSinkKeepsTotal` | source/forstio/async.tmpl.h:99-111 | A new sink changes no output |
| `ChainRuns.Run` | source/forstio/async.tmpl.h:171-240 | In every run of building, feeding, turning and taking, no buffer ever exceeds its capacity and no node is pending twice |
| `ChainRuns.AdvanceKeepsSafeIff` | source/forstio/async.tmpl.h:52-240 | A step lets a pending event pull an element that is not there if and only if it gives a pulling parent to a last node that is armed and empty with nothing on its way to it |
| `ChainRuns.AdvanceKeepsWakefulIff` | source/forstio/async.tmpl.h:139-240 | Besides such a step, a step of a run loses a wake-up if and only if it is a take that frees space in a full buffer with a sleeping child |
| `ChainRuns.RunKeepsWakeful` | source/forstio/async.tmpl.h:171-240 | A run is free of such steps if and only if no wake-up is lost at any point of it |
| `ChainRuns.TakeStrands` | source/forstio/async.tmpl.h:139-152 | A take that loses the wake-up of a full buffer leaves it full, asleep and below a buffer with space |
| `ChainRuns.TurnKeepsStranded` | source/forstio/async.tmpl.h:171-240 | No turn wakes such a buffer or changes what it holds |
| `ChainRuns.StrandedForEver` | source/forstio/async.tmpl.h:52-240 | Whatever is built, fed, turned or taken afterwards, such a buffer never hands on an element again |
| `ChainRuns.DeliverIsThrough` | source/forstio/async.h:637-663 | What becomes of an element is what the list of all converters ahead makes of it |
| `ChainRuns.AdvanceDelivers` | source/forstio/async.tmpl.h:52-240 | What each kind of step does to the sequence of delivered and still coming outputs |
| `ChainRuns.RunDelivers` | source/forstio/async.tmpl.h:171-228 | Conservation and first in, first out over every run: delivered plus still coming is the ideal output of what was fed |
| `ChainRuns.FixedChainDelivers` | source/forstio/async.tmpl.h:197-228 | Once the converters are in place, every run maps the fed sequence through all of them, in order |
| `ChainRuns.EveryRunIsDeliveredIff` | source/forstio/async.cpp:183-222 | End to end, for every run that ends in a safe chain with a sink: its turns deliver exactly the ideal output some day if and only if no element waits upstream of a buffer of capacity zero and every sleeping node will be woken |
| `ChainRuns.EveryRunIsDelivered` | source/forstio/async.cpp:183-222 | And then within the bound, leaving the loop idle |
| `ChainSteps.TurnJoins` | source/forstio/async.tmpl.h:171-240 | The exact queue after a turn: the other events in order, then, unless pending already, the parent that got an element, the node itself if it can go on, and the child of a buffer that was full |
| `ChainSteps.FeedingEffect` | source/forstio/async.tmpl.h:508-516 | A fed element becomes the last of the adapt node, whose event takes the place at the next cursor unless it is pending; nothing else changes |
| `ChainSteps.ConvertingEffect` | source/forstio/async.tmpl.h:52-60 | A converter is put behind all converters of the chain, also if nothing is in flight |
| `ChainSteps.BufferingEffect` | source/forstio/async.tmpl.h:62-72 | An added buffer is empty, with the capacity asked for and no converters; the node before it is woken exactly if it has an element and the capacity is not zero |
| `ChainSteps.SinkingEffect` | source/forstio/async.tmpl.h:99-111 | A sink closes the chain, which keeps its elements, and wakes the last node exactly if that has an element |
| `ChainSteps.TakingEffect` | source/forstio/async.tmpl.h:139-152 | take removes the front element of the last node alone and touches no event |
| `ChainSteps.RunIsStepwise` | source/forstio/async.tmpl.h:52-240 | A run goes through one chain per step: no step of it is passed over |
| `ChainSteps.RunStartsNew` | source/forstio/async.tmpl.h:154-168 | It starts from an empty adapt node with nothing behind it and nothing pending |
| `Conveyor.ThroughIsStepwise` | source/forstio/async.h:646-656 | What a link makes of an element is reached in one step per converter: func of a value, error_func of the code of an error |
| `ConveyorNodes.StorageNode.GetResult` | source/forstio/async.h:637-663 | Pulls the front element through the stacked converters, innermost first, step by step: each applies its func to a value and its error_func to the code of an error |
| `ConveyorNodes.Pipeline.constructor` | source/forstio/async.tmpl.h:154-168 | A feeder and its adapt node form the empty chain |
| `ConveyorNodes.Pipeline.ArmLater` | source/forstio/async.cpp:98-116 | armLater of the event of a node, on the pointers of the loop, wakes that node of the chain |
| `ConveyorNodes.Pipeline.Pass` | source/forstio/async.tmpl.h:212-223 | The front element of one node object, converted, becomes the last of the next: one hop of the chain |
| `ConveyorNodes.Pipeline.Leave` | source/forstio/async.h:705-720 | The front element of the last node object leaves the chain, converted |
| `ConveyorNodes.Pipeline.NotifyParent` | source/forstio/async.tmpl.h:212-228 | childHasFired on the objects pulls one element if the buffer has space, or into the sink, exactly as in the chain whose laws are proved |
| `ConveyorNodes.Pipeline.ParentHasFired` | source/forstio/async.tmpl.h:230-240 | parentHasFired on the objects wakes a buffer exactly as in the chain |
| `ConveyorNodes.Pipeline.FireAdapt` | source/forstio/async.tmpl.h:551-559 | fire on the adapt node object refines its firing in the chain, re-arming included |
| `ConveyorNodes.Pipeline.FireBuffer` | source/forstio/async.tmpl.h:171-195 | fire on a buffer object refines its firing in the chain; whether it was full is decided before it hands on |
| `ConveyorNodes.Pipeline.PopFront` | source/forstio/async.cpp:194-217 | The event that leaves the pointers of the loop is that of the front node of the chain |
| `ConveyorNodes.Pipeline.Turn` | source/forstio/async.cpp:194-222 | A turn of the loop, from its pointers to the node objects and back, is a turn of the chain; true exactly if an event was pending |
| `ConveyorNodes.Pipeline.TurnLoop` | source/forstio/async.cpp:183-192 | turnLoop leaves the chain as 65536 turns do, an idle loop staying as it is |
| `ConveyorNodes.Pipeline.Feed` | source/forstio/async.tmpl.h:508-516 | feed and fail on the objects refine feeding the chain |
| `ConveyorNodes.Pipeline.Then` | source/forstio/async.tmpl.h:52-60 | then on the objects refines adding a converter |
| `ConveyorNodes.Pipeline.SetParent` | source/forstio/async.cpp:29-44 | setParent wakes the last node object exactly if it holds an element and the parent has space |
| `ConveyorNodes.Pipeline.NewBuffer` | source/forstio/async.h:562-584 | A new buffer object has an event of its own on the loop, which stays as it is |
| `ConveyorNodes.Pipeline.Append` | source/forstio/async.tmpl.h:62-72 | A new buffer object behind the last one extends the chain |
| `ConveyorNodes.Pipeline.AddBuffer` | source/forstio/async.tmpl.h:62-72 | buffer on the objects refines adding a buffer to the chain |
| `ConveyorNodes.Pipeline.AddSink` | source/forstio/async.tmpl.h:99-111 | sink on the objects refines adding a sink to the chain |
| `ConveyorNodes.Pipeline.Take` | source/forstio/async.tmpl.h:139-152 | take returns the converted front element, or a recoverable error and no change if the last node is empty, every converter above the node applied in turn, func to values and error_func to errors |
| `ConveyorNodes.Pipeline.CanTurn` | source/forstio/async.tmpl.h:185-219 | On the objects: whether the front event pulls no element that is not there |
| `ConveyorNodes.Pipeline.Step` | source/forstio/async.tmpl.h:52-240 | Any step of a run on node objects; only a turn that would pull from nothing is not taken |
| `ConveyorNodes.Drive` | source/forstio/async.tmpl.h:52-240 | Any whole run on node objects and the pointers of their loop ends in the chain that the run describes, so the laws about runs hold for them |
| `RingBuffers.RingBuffer.constructor` | source/forstio/buffer.cpp:198-200 | A new ring is an empty byte queue, all of its size free |
| `RingBuffers.RingBuffer.LengthsAddUp` | source/forstio/buffer.cpp:209-284 | Readable plus free bytes is always the size, at every rotation, full and empty told apart |
| `RingBuffers.RingBuffer.Read` | source/forstio/buffer.cpp:262-267 | Indexed reading sees the readable bytes in order, across the wrap |
| `RingBuffers.RingBuffer.Write` | source/forstio/buffer.cpp:316-321 | Indexed writing sets one byte of the free space and no readable byte |
| `RingBuffers.RingBuffer.ReadAdvance` | source/forstio/buffer.cpp:251-260 | Drops bytes from the front of the queue; they become the last of the free space |
| `RingBuffers.RingBuffer.WriteAdvance` | source/forstio/buffer.cpp:306-314 | Appends the first free bytes to the queue if and only if it is not an advance by nothing on a full ring, which drops all content |
| `RingBuffers.RingBuffer.ReadSegmentIsExact` | source/forstio/buffer.cpp:220-249 | readSegmentLength is the smaller of the way to the end of the vector and the remaining readable bytes, for every legal offset |
| `RingBuffers.RingBuffer.WriteSegmentIsExactIff` | source/forstio/buffer.cpp:286-304 | writeSegmentLength is the smaller of the way to the end of the vector and the remaining free bytes if and only if the offset is below the free length or the ring is full |
| `RingBuffers.RingBuffer.WriteRequireLength` | source/forstio/buffer.cpp:347-353 | Succeeds exactly if the bytes fit the free space of the ring |
| `RingBuffers.RingBuffer.CopyIn` | source/forstio/buffer.cpp:28-29 | A copy into one segment changes exactly that stretch of the free space |
| `RingBuffers.RingBuffer.CopyOut` | source/forstio/buffer.cpp:51-52 | A copy out of one segment yields that stretch of the readable bytes |
| `RingBuffers.RingBuffer.PushSegment` | source/forstio/buffer.cpp:28-32 | One round of the copy loop appends a non-empty piece of the bytes and takes as much from the free space |
| `RingBuffers.RingBuffer.Push` | source/forstio/buffer.cpp:21-35 | Multi-byte push appends all bytes across the wrap, or fails for lack of space and changes nothing |
| `RingBuffers.RingBuffer.Pop` | source/forstio/buffer.cpp:47-61 | Multi-byte pop takes the bytes from the front across the wrap, or fails and changes nothing |
| `RingBuffers.BufferView.constructor` | source/forstio/buffer.cpp:83-84 | A view starts where its ring is |
| `RingBuffers.BufferView.SegmentsAreExact` | source/forstio/buffer.cpp:99-157 | Segment lengths through a view end where the vector or the share of the view ends |
| `RingBuffers.BufferView.WriteRequireLength` | source/forstio/buffer.cpp:186-188 | Fails exactly if more is asked for than the view has left |
| `RingBuffers.BufferView.Read` | source/forstio/buffer.cpp:120-126 | Reads the bytes behind what the view has read |
| `RingBuffers.BufferView.ReadAdvance` | source/forstio/buffer.cpp:109-118 | Moves the read offset only |
| `RingBuffers.BufferView.Write` | source/forstio/buffer.cpp:170-176 | Writes behind what the view has written; the readable bytes of the ring stay |
| `RingBuffers.BufferView.WriteAdvance` | source/forstio/buffer.cpp:159-168 | Moves the write offset only |
| `RingBuffers.BufferView.Push` | source/forstio/buffer.cpp:21-35 | Push through a view appends to what the view has written, the ring showing nothing of it, or fails |
| `RingBuffers.BufferView.Pop` | source/forstio/buffer.cpp:47-61 | Pop through a view yields the next bytes, the ring keeping them, or fails |
| `Wire.NumberOfLittle` | source/forstio/stream_endian.h:111-148 | Decoding the little-endian bytes of a number that fits gives it back |
| `Wire.LittleOfNumber` | source/forstio/stream_endian.h:111-148 | Encoding a decoded number gives back the bytes: every byte sequence is some number, and only one |
| `Wire.LittleAt` | source/forstio/stream_endian.h:139-141 | Byte i of the little-endian form is the low byte of the number shifted right by 8*i |
| `Wire.OrDisjoint` | source/forstio/stream_endian.h:120-122 | Or-ing in a number shifted behind all bits of another one adds it |
| `Wire.OrIsBitwise` | source/forstio/stream_endian.h:120-122 | Each bit of an or is set exactly if it is set in one of the numbers |
| `Wire.OrAppends` | source/forstio/stream_endian.h:120-122 | One round of the decoding loop: or-ing in a byte shifted left by 8*i on the number of the first i bytes gives the number of i+1 bytes |
| `Wire.FromRaw` | source/forstio/stream_endian.h:86-87 | Every bit pattern is a value in range whose bit pattern it is |
| `Wire.FromToRaw` | source/forstio/stream_endian.h:97-98 | Taking the bits of a value and reading them back gives the value, two's complement included |
| `Wire.SizeIsExact` | source/forstio/proto_kel.h:55-313 | size counts exactly the bytes encode writes, for every schema at every nesting |
| `WireLaws.ParseIsSound` | source/forstio/proto_kel.h:318-506 | What decode accepts is well typed, and its encoding is exactly the consumed bytes |
| `WireLaws.ParseIsComplete` | source/forstio/proto_kel.h:318-506 | Every encoding is decoded to its message whatever follows, consuming exactly the encoding |
| `WireLaws.ParseIff` | source/forstio/proto_kel.h:318-506 | Canonicity: decode yields a message if and only if the bytes start with its encoding |
| `WireLaws.ParseIsStable` | source/forstio/proto_kel.h:318-506 | A success or a critical error does not change when more bytes are appended |
| `WireLaws.PacketIsSound` | source/forstio/proto_kel.h:543-583 | An accepted packet is the packet of its message, within the limit |
| `WireLaws.PacketIsComplete` | source/forstio/proto_kel.h:543-583 | The packet of a message within the limit is accepted whatever follows it |
| `WireLaws.PacketIff` | source/forstio/proto_kel.h:543-583 | decode succeeds with m if and only if the bytes start with the 8-byte size and the encoding of m and the size is within the limit; it then consumes exactly those bytes |
| `WireLaws.PacketIsStable` | source/forstio/proto_kel.h:543-583 | A success or critical error of the codec is final when more bytes arrive |
| `WireLaws.PartialPacketIsShort` | source/forstio/proto_kel.h:543-583 | On every strict prefix of a packet within the limit, decode asks for more |
| `WireLaws.PacketIsUnique` | source/forstio/proto_kel.h:508-583 | The same bytes cannot start with packets of two messages |
| `WireLayout.WidthsInBytes` | source/forstio/stream_endian.h:18-149 | Numbers take 1, 2, 4 or 8 bytes |
| `WireLayout.RangesInFigures` | source/forstio/stream_endian.h:18-149 | The values of each width in figures: two complement ranges for signed integers, all bit patterns for the others |
| `WireLayout.NumberLayout` | source/forstio/stream_endian.h:27-146 | The bytes of a number of each width are its value modulo 2 to the 8, 16, 32 or 64, low byte first |
| `WireLayout.TextLayout` | source/forstio/proto_kel.h:74-95 | A string is eight bytes that hold its length, then its bytes |
| `WireLayout.MembersLayout` | source/forstio/proto_kel.h:112-128 | Member k of a tuple or struct stands right behind the members before it |
| `WireLayout.TupleLayout` | source/forstio/proto_kel.h:102-181 | Tuples and structs put nothing before, between or behind their members |
| `WireLayout.UnionLayout` | source/forstio/proto_kel.h:221-242 | A union is four bytes that hold the index of the alternative, then the alternative |
| `WireLayout.ArrayLayout` | source/forstio/proto_kel.h:275-297 | An array is eight bytes that hold the number of elements, then the elements |
| `WireLayout.ListLayout` | source/forstio/proto_kel.h:275-297 | Element k stands right behind the elements before it |
| `WireLayout.PacketLayout` | source/forstio/proto_kel.h:508-541 | A packet is eight bytes that hold the length of the message, then the message |
| `WireLayout.PrimitivePacket` | test/proto_kel.cpp:26-44 | A number of four bytes has the 12 bytes the test expects |
| `WireLayout.StructPacket` | test/proto_kel.cpp:67-92 | A struct of a number and two strings has the 40 bytes the test expects |
| `WireLayout.TuplePacket` | test/proto_kel.cpp:46-65 | A tuple of two numbers has the 14 bytes the test expects |
| `WireLayout.FirstAlternativePacket` | test/proto_kel.cpp:94-112 | A union that holds a number has the 16 bytes the test expects |
| `WireLayout.SecondAlternativePacket` | test/proto_kel.cpp:113-130 | A union that holds a string has the 23 bytes the test expects |
| `WireLayout.ArrayPacket` | source/forstio/proto_kel.h:264-297 | An array of two numbers, byte for byte |
| `WireLayout.SignedPacket` | source/forstio/stream_endian.h:53-68 | A negative number, byte for byte |
| `WireErrors.RejectsIff` | source/forstio/proto_kel.h:318-506 | A parse ends in a critical error if and only if some union in the bytes, behind nothing but well-formed encodings, names an alternative it does not have |
| `WireErrors.WaitsIff` | source/forstio/proto_kel.h:318-506 | It asks for more bytes if and only if they are not rejected and no encoding stands in front of them |
| `WireErrors.RejectsPacketIff` | source/forstio/proto_kel.h:543-583 | A packet is rejected as critical if and only if its announced length is over the limit, its message is rejected, or a whole message has another length than announced |
| `WireErrors.PacketWaitsIff` | source/forstio/proto_kel.h:543-583 | decode asks for more bytes if and only if no packet within the limit stands in front and the bytes are not rejected |
| `ProtoKel.EncodeWide` | source/forstio/stream_endian.h:130-145 | The shift loop writes the little-endian bytes through the view, or fails exactly if they do not fit |
| `ProtoKel.EncodeNumber` | source/forstio/stream_endian.h:20-145 | For all widths, one byte included: writes the little-endian bytes through the view, or fails exactly if they do not fit |
| `ProtoKel.DecodeWide` | source/forstio/stream_endian.h:113-128 | The shift loop reads the number of the next bytes and consumes them, or fails exactly if there are too few, consuming none |
| `ProtoKel.DecodeNumber` | source/forstio/stream_endian.h:22-128 | For all widths, one byte included: reads the number of the next bytes, or fails exactly if there are too few |
| `ProtoKel.SizeOf` | source/forstio/proto_kel.h:55-313 | The size computed in 64 bits is the size of the message modulo 2 to the 64 |
| `ProtoKel.SizeOfMembers` | source/forstio/proto_kel.h:131-149 | The size of tuple and struct members computed in 64 bits is their size, wrapped around |
| `ProtoKel.SizeOfItems` | source/forstio/proto_kel.h:302-312 | The accumulating loop over array elements computes their size, wrapped around |
| `ProtoKel.EncodeText` | source/forstio/proto_kel.h:74-94 | Writes the length and the bytes of a string, or fails exactly if both together do not fit |
| `ProtoKel.EncodeMessage` | source/forstio/proto_kel.h:55-297 | Appends the encoding to what the view has written and fails exactly if it does not fit; the readable bytes of the ring never change |
| `ProtoKel.EncodeFields` | source/forstio/proto_kel.h:104-129 | Appends the encodings of all members in order, or fails exactly if they do not all fit |
| `ProtoKel.EncodeItems` | source/forstio/proto_kel.h:288-297 | The element loop appends the encodings of all elements in order, or fails exactly if they do not all fit |
| `ProtoKel.Default` | source/forstio/message_container.h:208-223 | A newly constructed message container is well typed |
| `ProtoKel.DefaultIsZeros` | source/forstio/message_container.h:208-223 | It encodes as zero bytes only |
| `ProtoKel.Select` | source/forstio/message_container.h:100-106 | get<i> on a union yields a message of alternative i, whatever alternative was held |
| `ProtoKel.SelectKeepsOrClears` | source/forstio/message_container.h:100-106 | get<i> on the alternative that is held changes nothing; on another one it starts with a new container |
| `ProtoKel.Resize` | source/forstio/message_container.h:129 | resize gives exactly n well-typed elements, whatever the array held |
| `ProtoKel.ResizeAt` | source/forstio/message_container.h:129 | resize keeps the elements in front and puts new containers behind them |
| `ProtoKel.DecodeText` | source/forstio/proto_kel.h:335-364 | Reads a string as the specification parses it, with the same kind of error |
| `ProtoKel.DecodeMessage` | source/forstio/proto_kel.h:318-506 | Reads one message, whatever the builder held before: same message, same bytes consumed, same kind of error as the specification |
| `ProtoKel.DecodePrimitive` | source/forstio/proto_kel.h:320-331 | Reads a number of any width, with the outcome of the specification |
| `ProtoKel.DecodeUnion` | source/forstio/proto_kel.h:463-477 | Reads the alternative the bytes name, whatever alternative the builder held; four bytes that hold an unknown index are a critical error |
| `ProtoKel.DecodeArray` | source/forstio/proto_kel.h:482-505 | Reads as many elements as the bytes announce, whatever length the builder had |
| `ProtoKel.DecodeFields` | source/forstio/proto_kel.h:369-395 | Reads all members in order, whatever the builder held, with the outcome of the specification |
| `ProtoKel.DecodeItems` | source/forstio/proto_kel.h:494-504 | The element loop reads as many elements as the array has, whatever they held, with the outcome of the specification |
| `ProtoKel.ResumeStep` | source/forstio/proto_kel.h:496-503 | One round of the element loop: parsing the rest with one more element done gives the same list |
| `ProtoKel.WritePacket` | source/forstio/proto_kel.h:524-537 | Header and message go through the view one after the other, or it fails exactly if both do not fit; the readable bytes of the ring do not change |
| `ProtoKel.EncodePacket` | source/forstio/proto_kel.h:508-541 | All or nothing for every message: fails exactly if size + 8 exceeds the free space, the readable bytes unchanged; the free bytes unchanged too, unless the 64-bit sum wraps around to fit, when the header is left in them; otherwise exactly one packet is appended |
| `ProtoKel.ReadPacket` | source/forstio/proto_kel.h:549-579 | Through the view, header, limit, message and size check have the outcome of the specification of a packet |
| `ProtoKel.DecodePacket` | source/forstio/proto_kel.h:543-583 | Takes exactly one packet off the front with its message, or leaves the ring unchanged; the error is critical if and only if the length is over the limit, a union names an alternative it does not have, or the message has another length than announced |
| `MessageQueues.RoundTrip` | source/forstio/proto_kel.h:508-583 | decode after encode gives the same message at every rotation of the ring and for every state of the builder, and empties the ring |
| `MessageQueues.FrontPacket` | source/forstio/proto_kel.h:543-583 | On waiting packets decode finds the first message, or rejects it as critical exactly if it is over the limit |
| `MessageQueues.PutKeepsQueue` | source/forstio/proto_kel.h:508-541 | encode accepts a message exactly if its packet fits and keeps the readable bytes the packets of the waiting messages |
| `MessageQueues.GetKeepsQueue` | source/forstio/proto_kel.h:543-583 | decode returns the oldest waiting message if it is within the limit, and otherwise changes nothing |
| `MessageQueues.RunIsStepwise` | source/forstio/proto_kel.h:508-583 | A run of calls goes through one state per call, from an empty ring: no call of it is passed over |
| `MessageQueues.RunIsQueue` | source/forstio/proto_kel.h:508-583 | Over any interleaving of encode and decode, the readable bytes are the packets of the accepted messages not yet returned, and messages come out complete and in order |
| `MessageQueues.OverLimitBlocks` | source/forstio/proto_kel.h:558-565 | Once a message over the limit is in front, no call ever returns a message again |
| `MessageQueues.Exchange` | source/forstio/proto_kel.h:508-583 | Any interleaving of calls on a real ring from any rotation does what the run describes |
| `MessageQueues.Receive` | source/forstio/io_peer.tmpl.h:31-45 | The read loop of a streaming peer receives exactly the messages decode yields until it fails, and leaves the rest of the bytes |
| `MessageQueues.StreamIsReceived` | source/forstio/io_peer.tmpl.h:31-45 | A stream of packets that breaks off inside one is received as all complete messages in order, the broken packet staying in the ring |
| `MessageQueues.StreamEnds` | source/forstio/io_peer.tmpl.h:31-45 | Whatever follows a stream of packets: all messages before it are received in order and it stays in the ring, if no packet stands in front of it |
| `MessageQueues.RejectedStreamIsReceived` | source/forstio/io_peer.tmpl.h:31-45 | Rejected bytes behind a stream of packets: all messages before them are received in order, they stay in the ring and the error is critical |
| `Merges.Scan` | source/forstio/async.tmpl.h:316-331 | The scan stops at the first filled slot of its range |
| `Merges.PickIsNearest` | source/forstio/async.tmpl.h:313-331 | The emptied slot is the filled slot nearest to the cursor in round-robin order |
| `Merges.FilledSlotIsServed` | source/forstio/async.tmpl.h:305-334 | Fairness: a filled slot is emptied within as many calls as there are slots, with its own value, however the others are refilled in between |
| `Merges.CursorComesNearer` | source/forstio/async.tmpl.h:313-331 | A call that serves another slot brings the cursor nearer to a filled one and leaves it filled |
| `Merges.RoundsBegin` | source/forstio/async.tmpl.h:305-334 | Between two calls children fill empty slots and no others; a call empties one slot and puts the cursor behind it |
| `Merges.CountEmptied` | source/forstio/async.tmpl.h:350-360 | Emptying a filled slot lowers queued() by one |
| `Merges.MergeNode.Queued` | source/forstio/async.tmpl.h:350-360 | The loop counts the filled slots |
| `Merges.MergeNode.GetResult` | source/forstio/async.tmpl.h:305-334 | While anything is queued, each call returns a real element, removes exactly that one and moves the cursor behind it; only otherwise an error |
| `Transfers.WritesAreProper` | source/forstio/io_helpers.cpp:47-83 | Over any answers of the stream, the bytes sent are a prefix of the data, and the full length is reported once at the end, or one failure |
| `Transfers.EnoughAnswersFinish` | source/forstio/io_helpers.cpp:47-66 | A stream that keeps taking bytes gets all of the data |
| `Transfers.WriteTaskAndStepHelper.constructor` | source/forstio/io_helpers.h:42-48 | A new write task has its whole buffer to send |
| `Transfers.WriteTaskAndStepHelper.WriteOnce` | source/forstio/io_helpers.cpp:51-81 | One round of the loop does to task and stream what one answer does to the write |
| `Transfers.WriteTaskAndStepHelper.WriteStep` | source/forstio/io_helpers.cpp:47-83 | Each call continues the write where the last one left it; it stops when it is finished or the stream blocks, and asks the stream nothing after that |
| `Transfers.ReadsAreProper` | source/forstio/io_helpers.cpp:8-45 | Over any arrivals, what is still needed plus what is there is the request; at the end the true length, between min and max, is reported once, or one failure |
| `Transfers.EnoughArrivalsFinish` | source/forstio/io_helpers.cpp:8-36 | A stream that keeps handing over bytes finishes the read with a length within the request |
| `Transfers.ReadKeepsBytes` | source/forstio/io_helpers.cpp:8-45 | The bytes got are all bytes handed over, in order |
| `Transfers.StoredPrefix` | source/forstio/io_helpers.cpp:12-36 | The memory holds the bytes got as a contiguous prefix after every arrival |
| `Transfers.ReadTaskAndStepHelper.constructor` | source/forstio/io_helpers.h:23-30 | A new read task has nothing yet |
| `Transfers.ReadTaskAndStepHelper.ReadOnce` | source/forstio/io_helpers.cpp:10-43 | One round of the loop does to task and memory what one arrival does to the read |
| `Transfers.ReadTaskAndStepHelper.ReadStep` | source/forstio/io_helpers.cpp:8-45 | Each call continues the read where the last one left it; it stops when it is finished or the stream blocks, and asks the stream nothing after that |
| `Examples.ConvertValueAndError` | source/forstio/async.h:637-663 | A run with one converter: a value is taken as its func makes it, an error as its error_func makes it |
| `Examples.CancelWhileFiring` | source/forstio/async.cpp:137-222 | A run in which the first of three events cancels the second, so that only the third is pending |
| `Examples.UnknownAlternative` | source/forstio/proto_kel.h:463-477 | A packet that names an alternative its union does not have is a critical error |
| `Witnesses.TakeLosesElement` | source/forstio/async.tmpl.h:139-202 | A run of two buffers of capacity one and three elements after which a take loses a wake-up, and the element of the first buffer never leaves it in any continuation |
| `Witnesses.TakeLeavesStaleTail` | source/forstio/async.tmpl.h:139-223 | Feeding and taking without a turn in between leaves the adapt node armed and empty; with a buffer added behind it, the next turn pulls an element that is not there |
| `Witnesses.ArmedTailIsRefilled` | source/forstio/async.tmpl.h:139-223 | A chain whose armed and empty last node may be extended, because its child is queued before it |
| `Witnesses.LostWakeupIsMadeUp` | source/forstio/async.tmpl.h:139-223 | A chain on which a take loses a wake-up that the next element makes up for |
| `Witnesses.ZeroBufferSpins` | source/forstio/async.tmpl.h:551-559 | A run with a buffer of capacity zero and a sink after which the loop never goes idle and nothing is ever delivered |
| `Witnesses.FullRing` | source/forstio/buffer.cpp:198-200 | A full ring that holds one byte |
| `Witnesses.AdvanceByNothing` | source/forstio/buffer.cpp:306-314 | After an advance by nothing it holds nothing |
| `Witnesses.SegmentPastTheEnd` | source/forstio/buffer.cpp:286-304 | An empty ring of two bytes that reports two free bytes behind its free space |
| `Witnesses.OverLimitStays` | source/forstio/proto_kel.h:558-565 | A message of one byte under a limit of zero after which no call ever returns a message |

## Left out

- Critical errors in a conveyor: an element is a value or a recoverable error. The teardown after a critical error destroys nodes that may be armed, which `disarm` does not survive. Exceptions thrown by converters become critical errors in the source and are left out with them.
- Converters are pure functions and never fail critically; a converter that feeds a conveyor or arms an event while it runs is not modelled.
- ImmediateConveyorNode, OneTimeConveyorNode, AttachConveyorNode, `limit`, `poll` and ConveyorSinks: not modelled; attaching data changes no element.
- One chain per loop: other events on the same loop would only interleave further turns.
- ConveyorNodes.Pipeline.PopFront: finds the node of the event that left the loop by a search, in place of the virtual call of `fire`. The parent and child pointers of a node are its neighbours in the list of nodes, and the sink, which stores nothing, is a flag.
- ConveyorNodes.Pipeline.Take: the error of a conveyor without any storage node is not modelled, because a chain here always has its adapt node.
- ChainRuns.Advance: a turn that would pull an element that is not there is not taken, as it leads to a critical error or to no defined result; when there is one is in `ChainRuns.AdvanceKeepsSafeIff` and `Faults.AddBufferFaultsIff`.
- Schedule.Act: cancelling an event with the later cursor right behind it is skipped in turns and runs; what it breaks is in `EventLoops.Event.Disarm`.
- EventLoops.Event.ArmNext: the loop's own fields are stored before the links of the list, in the source after them; the stores do not depend on each other. The check that the current thread runs this loop is left out, for all arm operations.
- RingBuffers.RingBuffer.ReadAdvance: asked for more than there is, the source asserts; the model requires what is asserted, for all advances and indexed accesses of ring and view.
- ProtoKel.EncodePacket: the 64-bit sum of size and header wraps around as in the source, but no message of that size fits a memory of 64 bits.
- ProtoKel.EncodeText: the sums of a string's length with its header and with the offset of the view are not wrapped around; string and ring lie in the same 64-bit memory.
- RingBuffers.RingBuffer.constructor: requires a size below 2^63, as no vector of bytes is longer.
- ProtoKel.DecodeMessage: the builder is a message value that goes in and the changed message comes out; the containers are not objects updated in place, so aliasing between builders is not captured. What a builder holds after a failed decode is only known to be well typed.
- ProtoKel.Resize: a length that no memory can hold is not an error in the model, as if memory were unbounded.
- Wire.Parse: also covers schemas the source does not compile, such as arrays directly inside arrays and floating-point numbers of one or two bytes. Floating-point values are their bit patterns. Members are addressed by index; the lookup by name happens at compile time.
- Merges.FilledSlotIsServed: the number of appendages is fixed; attaching during a run, the wake-ups of the merge node and the children's conveyors are left out.
- Transfers.OnAnswer: a stream takes or hands over at least one byte and at most what is asked for, blocks, or breaks; a feeder for the result is present. An answer that is neither value nor error counts as a break.
- MessageQueues.Receive: only the decode loop of the streaming peer; what it does with its stream is left out.
- Single-byte push and pop, ArrayBuffer, ChainArrayBuffer, `toString`, `toHex`, logging, error messages, waiting on the clock, the drivers and TLS: easy, unfinished or outside calls.
