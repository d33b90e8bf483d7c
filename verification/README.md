# A verified model of Goby's acoustic, satellite and messaging cores

Goby is a C++ middleware for autonomous marine vehicles. This project models the parts of it that
decide something (who may transmit when, what a modem session does, how a message is framed, found
and delivered) and proves what those parts promise, for every input and every run. `dafny verify
dfyconfig.toml` checks all of it.

Sockets, serial lines, timers and clocks are not modelled as such. A clock reading is a parameter of
the step that takes it, so every theorem holds for any clock, also one that jumps. What comes from a
modem, a server or a caller is an arbitrary input event. What goes out is a result or a log.

**Time division (`TdmaGrid`, `MacManager`, `MacNetwork`).** Every vehicle runs its own scheduler over
a list of slots. `MacManager` is one scheduler, both as a state function per step and as the class
that updates its fields; `MacNetwork` is its runs, and several schedulers that share nothing but the
slot list and the reference time. The invariant says that the timer is pending exactly when the node
is started with a non-empty list, and that it is then set to a boundary of the grid
reference + k * cycle + (lengths of the slots before the current one). From it follows exactly
when two nodes never transmit in overlapping intervals, for every plan (`CollisionFreeIff`): when the
slots they own stay disjoint modulo the period by which their grids can be apart. That period is the
cycle for a fixed reference, and the greatest common divisor of cycle and day for the start-of-day
reference, where every node counts from the day on which it was last synchronised. If the reference
is fixed or the cycle divides the day, all nodes share one grid, and then collisions come only from
slots of positive length that are marked `always_initiate` (`CollisionFreeOnOneGridIff`); otherwise
nodes can collide without any (`SevenSecondsCollide`). Times are whole microseconds.

**The Iridium statechart (`Iridium`, `IridiumRun`, `IridiumSafety`, `IridiumSbd`, `IridiumAt`,
`IridiumTheorems`, `IridiumWire`, `IridiumDelivery`, `IridiumReassembly`, `IridiumSession`,
`IridiumIncoming`, `IridiumFsm`).** `Iridium` gives each reaction as a function from a machine to a
machine and the events it posts. `IridiumRun` processes one event: react, queue what was posted, go
on until nothing is left, which always ends because what a reaction posts weighs less than what it
reacted to. Which of two orthogonal regions sees an event first is an arbitrary function of the
position in the queue. A run is any sequence of driver inputs: any line from the modem, any request
of the driver, any taking from or adding to the shared buffers. The safety theorems are proved
through an invariant over the machine and the events still waiting, kept by every single reaction.
`IridiumWire` says what the modem gets: the serial buffer and the packets waiting for a call are
what a plain replay of their traffic leaves, AT lines, SBD blocks and packets appear in that traffic
as the logs say, and packets go out in the order in which they were buffered. `IridiumDelivery` says
the same of messages on their way to the driver. `IridiumSession` proves whole dialogues with a
modem that answers, from a machine at rest to a machine at rest, with any number of polls before,
between and after the answers as long as no retry limit is hit: rules for one line and for a
sequence of lines, and on top of them a session, a mailbox check, a call and a dial that always
fails. `IridiumIncoming` does this for what the modem starts: rings, ring alerts, errors, lost
carriers, echoes. `IridiumFsm` is the same machine as an object with mutable fields, each method
proved to have the effect of the corresponding function. The `history` of a machine (writes, SBD
actions, deliveries, dials per visit, buffer traffic), the numbers of AT sentences and the flag for
a requested hang-up exist in the model only, so that the theorems can speak about them.

**Codecs.** `BaseConvert` is the conversion between number bases that keeps leading zeros;
`NetChecksum` the Internet checksum (section 1 of RFC 1071, section 3.1 of RFC 791) on a wrapping
32-bit accumulator; `DirectIp` the reader and the writer of DirectIP messages; `ZeroMqPacket`,
`MoosNode` and `ProtobufNode` the packets of the publish/subscribe layer and who receives them;
`KeyValue` the `key=value,key={a,b}` lookup.

**Application services.** `MoosApp` is the bookkeeping of subscriptions and buffered publications
across connects and disconnects, `SyncTimer` the self-correcting periodic timers, `WordWrap` the
wrapping of descriptions in generated configuration files.

`Basics`, `Text`, `Arithmetic` and `Bits` hold what several modules need: optional values and bytes,
string operations, arithmetic facts, and machine words as bits.

Where a natural property does not hold of the code, the model keeps the code and the project proves
the exact condition: `NextCycleTimeIsNext`, `CollisionFreeIff`, `OneGridAcrossMidnightIff`,
`ReassembledIff`, `DeliveredBetweenPollsIff`, `TakenInOrderIff`, `WalkVisitsAllIff`, `RoundTripIff` (both),
`AccumulatorSufficesIff`, `SplitUndoesSendIff`, `SubscriptionIsExactIff`, `RunStaysInOrderIff`,
`UnchangedIff`, `IdempotentIff`, `WithinLimitIff`. Three of these concern code that does something
else than its names suggest:

- Lines of a wrapped description reach 68 characters (`LimitIsExceeded`) although `MAX_CHAR_PER_LINE`
  is 66, because the comment sign is not counted; `WithinLimitIff` says which descriptions keep to 66.
- A DirectIP confirmation element is read and then skipped once more by its length, because its `case`
  falls through, and a header is stepped over by 28 bytes whatever its length field says; by
  `WalkVisitsAllIff` these are the only elements with a right length on which the walk goes wrong.
- A poll while a short-burst-data message is being read throws the collected bytes away, so a message
  must arrive within one pass of the driver (`DeliveredBetweenPollsIff`).

## Model

| member | source | states |
|---|---|---|
| `TdmaGrid.BoundariesInOrder` | src/acomms/amac/mac_manager.cpp:205-220 | in any grid, a slot ends no later than every later slot begins, within a cycle and across cycles |
| `TdmaGrid.DistinctSlotsDisjoint` | src/acomms/amac/mac_manager.cpp:205-220 | two occurrences of different slots of one list never overlap, in whatever cycles they fall |
| `TdmaGrid.DistinctSlotsModulo` | src/acomms/amac/mac_manager.cpp:205-220 | different slots of one list stay disjoint when one is moved by any number of cycles |
| `TdmaGrid.ModuloMeansDisjoint` | src/acomms/amac/mac_manager.cpp:205-263 | intervals that are disjoint modulo a period are disjoint after any number of periods |
| `TdmaGrid.OverlapSomewhere` | src/acomms/amac/mac_manager.cpp:205-263 | otherwise some number of periods makes them overlap |
| `TdmaGrid.SameGrid` | src/acomms/amac/mac_manager.cpp:222-263 | references that differ by whole cycles define the same grid |
| `TdmaGrid.NextBoundary` | src/acomms/amac/mac_manager.cpp:205-220 | the next slot in cyclic order begins exactly where a slot ends, also around the end of the list |
| `TdmaGrid.FirstNotBefore` | src/acomms/amac/mac_manager.cpp:286-300 | the start-in-middle walk ends even with slots of length zero, at a valid slot that is neither before now nor before its start |
| `TdmaGrid.FirstNotBeforeIsEarliest` | src/acomms/amac/mac_manager.cpp:286-300 | the walk stays on the grid, and every boundary it passed over lies before now |
| `MacManager.MacManager.constructor` | src/acomms/amac/mac_manager.cpp:43-51 | a new scheduler is not started, has no pending timer and satisfies the invariant |
| `MacManager.MacManager.CycleDuration` | src/acomms/amac/mac_manager.cpp:309-316 | the loop computes the sum of all slot lengths |
| `MacManager.MacManager.ComputeNextCycleTime` | src/acomms/amac/mac_manager.cpp:222-263 | refines the start of the next cycle after the reference, of which `NextCycleTimeIsNext` says what it is |
| `MacManager.MacManager.IncrementSlot` | src/acomms/amac/mac_manager.cpp:205-220 | moves to the cyclic successor and to the end of the slot just left, changing nothing else |
| `MacManager.MacManager.UpdateCycle` | src/acomms/amac/mac_manager.cpp:265-307 | the rescheduling loop ends and refines the state function for which alignment and earliest slot are proved |
| `MacManager.MacManager.RestartCycle` | src/acomms/amac/mac_manager.cpp:97-117 | leaves a started node exactly as it is, otherwise starts it from the clock |
| `MacManager.MacManager.StartupWith` | src/acomms/amac/mac_manager.cpp:65-95 | takes over the configured slots, numbered, and starts, but only for the two scheduling types |
| `MacManager.MacManager.ShutdownCycle` | src/acomms/amac/mac_manager.cpp:119-128 | cancels the timer and returns to the first slot |
| `MacManager.MacManager.TimerFired` | src/acomms/amac/mac_manager.cpp:130-203 | a slot is announced iff the clock is within two seconds of its start; what is initiated is what is announced or nothing: for a polling node exactly the slots of a vehicle, for a decentralized node exactly its own and the unconditional ones, without a scheduling type always, and then the node stays where it is |
| `MacManager.NextCycleTimeIsNext` | src/acomms/amac/mac_manager.cpp:222-263 | the result is a cycle boundary after now, and at most one cycle ahead iff the reference is |
| `MacManager.FarReferenceDelays` | src/acomms/amac/mac_manager.cpp:222-263 | a reference three microseconds ahead of a cycle of two is such a case: the next cycle is more than one cycle away |
| `MacManager.UpdateAligns` | src/acomms/amac/mac_manager.cpp:265-307 | rescheduling a non-empty list leaves the node on the grid with the matching slot, whatever the two clock readings |
| `MacManager.UpdateWaitsForCycle` | src/acomms/amac/mac_manager.cpp:265-307 | without starting in the middle the first slot runs at the next cycle boundary, at most one cycle ahead if the reference is |
| `MacManager.ReferenceIsReference` | src/acomms/amac/mac_manager.cpp:222-263 | the reference is the configured one, or the last midnight not after now |
| `MacManager.ShutdownForgets` | src/acomms/amac/mac_manager.cpp:97-128 | after a shutdown, a restart depends on configuration, slots and clock only, not on where the node was |
| `MacManager.UpdatePicksEarliestSlot` | src/acomms/amac/mac_manager.cpp:265-307 | starting in the middle picks the earliest boundary of the whole grid that is not before the second clock reading |
| `MacNetwork.StepKeepsInvariant` | src/acomms/amac/mac_manager.cpp:65-220 | startup, restart, shutdown, timer and list edits all keep the grid invariant |
| `MacNetwork.EveryRunStaysOnGrid` | src/acomms/amac/mac_manager.cpp:65-316 | after any run the timer is pending iff the node is started with a non-empty list, and then set to a grid boundary |
| `MacNetwork.SlotsFollowWithoutGap` | src/acomms/amac/mac_manager.cpp:130-220 | firing on time announces the slots in cyclic order, each at the end of the one before |
| `MacNetwork.PollingSends` | src/acomms/amac/mac_manager.cpp:130-203 | in every run a polling node sends in exactly the announced slots of a vehicle, in order and at their times; its own id plays no part |
| `MacNetwork.DecentralizedSends` | src/acomms/amac/mac_manager.cpp:130-203 | in every run a decentralized node sends in exactly the announced slots that are its own or unconditional |
| `MacNetwork.PollingInTurn` | src/acomms/amac/mac_manager.cpp:130-220 | firing on time, a polling node polls all vehicles of its list in cyclic order |
| `MacNetwork.AlignedToOneGrid` | src/acomms/amac/mac_manager.cpp:222-263 | under a shared reference, or a cycle that divides the day, all nodes' boundaries lie on one grid |
| `MacNetwork.AlignedToPeriod` | src/acomms/amac/mac_manager.cpp:222-263 | under every plan, all nodes' boundaries lie on the places of the slots moved by whole periods |
| `MacNetwork.NodeRunKeepsState` | src/acomms/amac/mac_manager.cpp:65-220 | a node following a plan keeps its identity, the plan's slots and its alignment over any run |
| `MacNetwork.SentIsLawful` | src/acomms/amac/mac_manager.cpp:130-203 | under every plan, everything initiated in a run is a slot the node owns, at its place moved by whole periods |
| `MacNetwork.SendsAreLawful` | src/acomms/amac/mac_manager.cpp:130-203 | the same for everything a node can ever send from power-up |
| `MacNetwork.SentNamesItsSlot` | src/acomms/amac/mac_manager.cpp:65-95 | every transmission carries the index of the configured slot it belongs to, which the node owns |
| `MacNetwork.NodesNeverCollide` | src/acomms/amac/mac_manager.cpp:130-307 | two nodes whose slots keep apart never initiate overlapping transmissions, however started, restarted or re-synchronised |
| `MacNetwork.Reaches` | src/acomms/amac/mac_manager.cpp:130-220 | a node running on time comes to every later slot of the grid and transmits in it if it owns it |
| `MacNetwork.SendsEverySlot` | src/acomms/amac/mac_manager.cpp:65-307 | started at its reference, on any day, a node sends in each slot it owns of every cycle from the next one on |
| `MacNetwork.OverlapHappens` | src/acomms/amac/mac_manager.cpp:65-307 | slots that do not keep apart collide in some pair of runs, on days and in cycles given by Bezout's identity |
| `MacNetwork.SharedSlotCollides` | src/acomms/amac/mac_manager.cpp:145-199 | under every plan, an unconditional slot of positive length makes any two nodes collide in some run |
| `MacNetwork.CollisionFreeIff` | src/acomms/amac/mac_manager.cpp:130-307 | for every plan, two nodes never collide iff the slots they own are disjoint modulo the period of the plan |
| `MacNetwork.CollisionFreeOnOneGridIff` | src/acomms/amac/mac_manager.cpp:130-307 | if the reference is fixed or the cycle divides the day, different nodes never collide iff no slot of positive length is unconditional |
| `MacNetwork.SevenSecondsCollide` | src/acomms/amac/mac_manager.cpp:222-263 | two slots of 3.5 seconds under the start-of-day reference: neither is shared, the cycle does not divide the day, and the nodes collide |
| `MacNetwork.OneGridAcrossMidnightIff` | src/acomms/amac/mac_manager.cpp:222-263 | nodes that reference the start of their day share one grid iff the cycle divides the day |
| `IridiumRun.PostedIsLighter` | src/acomms/modemdriver/iridium_driver_fsm.cpp:46-395 | the events a reaction posts weigh less than the event it reacted to, so processing any event ends |
| `IridiumSafety.DispatchPostsInOrder` | src/acomms/modemdriver/iridium_driver_fsm.cpp:46-395 | only a line or a connection posts an opening event, only a closing event a closing one, never both together |
| `IridiumSafety.PostingKeepsQueueShape` | src/acomms/modemdriver/iridium_driver_fsm.cpp:46-395 | opening and closing events never wait in the queue together |
| `IridiumSafety.CommandHasEffect` | src/acomms/modemdriver/iridium_driver_fsm.h:246-410 | the Command state never touches the call, goes online exactly on the online event and enters Dial only off a call |
| `IridiumSafety.DispatchKeepsCall` | src/acomms/modemdriver/iridium_driver_fsm.h:239-473 | each reaction, in either region order, keeps the relation of mode, call and waiting events |
| `IridiumSafety.DispatchKeepsDials` | src/acomms/modemdriver/iridium_driver_fsm.cpp:288-319 | each reaction keeps the bound on dial commands per visit to Dial |
| `IridiumSbd.DispatchKeepsSbd` | src/acomms/modemdriver/iridium_driver_fsm.h:475-723 | each reaction keeps the stored data equal to the framed payload of the current session and the log faithful |
| `IridiumSbd.FaithfulSteps` | src/acomms/modemdriver/iridium_driver_fsm.h:548-572 | in a faithful log, the digits of each announced length denote the length of the payload of the session then current, and each block is its frame |
| `IridiumSbd.BusySessionIgnoresBegin` | src/acomms/modemdriver/iridium_driver_fsm.h:523-592 | a begin request that does not find the SBD region at rest leaves the whole machine unchanged |
| `IridiumSbd.Checksum` | src/acomms/modemdriver/iridium_driver_fsm.h:47-53 | the accumulating loop gives the byte sum modulo 2^32 |
| `IridiumSbd.Frame` | src/acomms/modemdriver/iridium_driver_fsm.h:490-502 | the stored block is the framed payload although the sum was cut to 32 bits; an empty payload stays empty |
| `IridiumSbd.FramedIsPayloadAndSum` | src/acomms/modemdriver/iridium_driver_fsm.h:490-502 | a frame is the payload followed by its byte sum modulo 65536, high byte first |
| `IridiumSbd.ReplyMeans` | src/acomms/modemdriver/iridium_driver_fsm.h:647-712 | an answer printed from numbers reports a waiting message iff there are six of them, the first at most four and the third one |
| `IridiumAt.PushAtKeeps` | src/acomms/modemdriver/iridium_driver_fsm.h:272-275 | queueing keeps the AT invariants, also when a full buffer drops its front |
| `IridiumAt.InsertKeeps` | src/acomms/modemdriver/iridium_driver_fsm.cpp:57-67 | inserting the echo-off command behind the front keeps the AT invariants, also in a full buffer |
| `IridiumAt.WriteKeepsLog` | src/acomms/modemdriver/iridium_driver_fsm.cpp:168-216 | a write after the timeout keeps retries bounded and writes of one sentence more than its timeout apart |
| `IridiumAt.TxKeeps` | src/acomms/modemdriver/iridium_driver_fsm.cpp:168-216 | the transmit reaction keeps the AT invariants and posts a reset when the retries are used up |
| `IridiumAt.AckKeeps` | src/acomms/modemdriver/iridium_driver_fsm.cpp:230-286 | every kind of answer keeps the AT invariants |
| `IridiumAt.DispatchKeepsAt` | src/acomms/modemdriver/iridium_driver_fsm.cpp:46-286 | every reaction keeps: only the front was written, counters agree with the log, retries run out only with a reset waiting |
| `IridiumAt.TimeoutOfCommands` | src/acomms/modemdriver/iridium_driver_fsm.cpp:168-190 | the seconds waited for an answer to each command of the driver |
| `IridiumTheorems.SendKeepsPace` | src/acomms/modemdriver/iridium_driver_fsm.cpp:362-389 | waiting for the last packet's share of the rate covers all bytes sent before the next |
| `IridiumTheorems.OnCallTxKeepsPace` | src/acomms/modemdriver/iridium_driver_fsm.cpp:362-389 | sending on a call keeps the pace for any clock reading, with any data waiting |
| `IridiumTheorems.DispatchKeepsPace` | src/acomms/modemdriver/iridium_driver_common.h:42-79 | no reaction breaks the pace |
| `IridiumTheorems.DispatchKeepsInvariant` | src/acomms/modemdriver/iridium_driver_fsm.h:239-723 | one reaction keeps all invariants together, with the events still waiting |
| `IridiumTheorems.DrainKeepsInvariant` | src/acomms/modemdriver/iridium_driver_fsm.h:239-723 | processing an event to the end keeps them, in any order of regions |
| `IridiumTheorems.ApplyKeepsInvariant` | src/acomms/modemdriver/iridium_driver.cpp:148-374 | so does everything else the driver does to the machine |
| `IridiumTheorems.RunKeepsInvariant` | src/acomms/modemdriver/iridium_driver.cpp:148-374 | so does every run |
| `IridiumTheorems.InitialInvariant` | src/acomms/modemdriver/iridium_driver_fsm.h:306-324 | they hold of the machine as initiated, whatever configuration commands it queues |
| `IridiumTheorems.CallSafety` | src/acomms/modemdriver/iridium_driver_fsm.h:239-473 | in every run: online implies on a call, dialling implies off a call, a call outside Online was asked to hang up, at most max(1, dial_attempts) dials per visit |
| `IridiumTheorems.SbdIntegrity` | src/acomms/modemdriver/iridium_driver_fsm.h:475-723 | in every run: nothing stored when at rest or receiving, otherwise the current session's frame; the number in every announced length and every written block are those of the payload of the session then current |
| `IridiumTheorems.StopAndWait` | src/acomms/modemdriver/iridium_driver_fsm.cpp:168-286 | in every run: only the front sentence was ever written, no sentence more than three times, successive writes more than its timeout apart |
| `IridiumTheorems.CallsArePaced` | src/acomms/modemdriver/iridium_driver_fsm.cpp:362-389 | in every run: rate * (last send - call start) covers all bytes but the last packet's |
| `IridiumTheorems.RetriesExceededResets` | src/acomms/modemdriver/iridium_driver_fsm.cpp:168-216 | when the last retry times out, the machine ends freshly configuring, off any call, with the old queue discarded |
| `IridiumTheorems.UnansweredStartsOver` | src/acomms/modemdriver/iridium_driver_fsm.cpp:168-216 | a front sentence written t times and not answered is written 3 - t times more, and the next overdue poll discards the queue and configures from scratch |
| `IridiumTheorems.GivesUpAtTheFourth` | src/acomms/modemdriver/iridium_driver_fsm.cpp:168-216 | in every run, a queue whose front was written t times and is not answered is given up at overdue poll 4 - t, so at the latest at the fourth |
| `IridiumWire.AtLineIsFramed` | src/acomms/modemdriver/iridium_driver_fsm.cpp:196-211 | the escape goes to the modem bare, every other command between AT and a carriage return |
| `IridiumWire.PushedIsNewest` | src/acomms/modemdriver/iridium_driver_fsm.h:188-237 | pushing into a full circular buffer keeps the newest elements, or the foremost ones when pushed in front |
| `IridiumWire.SentInOrder` | src/acomms/modemdriver/iridium_driver_fsm.cpp:40-44 | in any traffic in which packets are sent from the front, packets sent and then packets waiting are those buffered, in order, less one per push into a full buffer |
| `IridiumWire.TxKeepsWire` | src/acomms/modemdriver/iridium_driver_fsm.cpp:168-216 | an AT write keeps serial buffer, traffic and log of writes in step |
| `IridiumWire.BlockKeepsWire` | src/acomms/modemdriver/iridium_driver_fsm.h:548-580 | writing a block pushes it exactly once, in step with the session log |
| `IridiumWire.PacketKeepsWire` | src/acomms/modemdriver/iridium_driver_fsm.cpp:362-389 | sending on a call takes the packet from the front of those waiting |
| `IridiumWire.DispatchTraffic` | src/acomms/modemdriver/iridium_driver_fsm.h:239-723 | a reaction puts at most one line into the serial buffer, takes nothing off and buffers no packet |
| `IridiumWire.DispatchKeepsWire` | src/acomms/modemdriver/iridium_driver_fsm.h:239-723 | every reaction keeps: buffers are the replay of their traffic, AT lines match the writes, block lines match the session log, the latest deliveries are held |
| `IridiumWire.RunKeepsWire` | src/acomms/modemdriver/iridium_driver.cpp:148-374 | so does every run |
| `IridiumWire.CommandsReachModem` | src/acomms/modemdriver/iridium_driver_fsm.cpp:196-211 | in every run the AT lines put into the serial buffer are the logged writes in order, each in its form for the modem, and the buffer is the replay of its traffic |
| `IridiumWire.BlocksReachModem` | src/acomms/modemdriver/iridium_driver_fsm.h:548-580 | in every run the blocks put into the serial buffer are those of the session log, each once and in order, and each is the payload of a session that was begun followed by its byte sum |
| `IridiumWire.PacketsInOrder` | src/acomms/modemdriver/iridium_driver_fsm.cpp:362-389 | in every run packets sent on calls, then packets waiting, are those the driver asked to send, in order, less one per push into a full buffer |
| `IridiumWire.LatestAreHeld` | src/acomms/modemdriver/iridium_driver.cpp:283-287 | in every run the messages held for the driver are the latest delivered |
| `IridiumWire.PollSendsCommand` | src/acomms/modemdriver/iridium_driver_fsm.cpp:168-216 | a poll that finds the front command due puts it in its form for the modem behind what waits, at the cost of the oldest line of a full buffer |
| `IridiumWire.PollSendsPacket` | src/acomms/modemdriver/iridium_driver_fsm.cpp:362-389 | a poll on a call moves exactly the oldest packet to the end of the serial buffer if the time of the last one at the target rate is over, and otherwise changes nothing |
| `IridiumWire.PacketIsBuffered` | src/acomms/modemdriver/iridium_driver_fsm.cpp:40-44 | a packet to be sent waits behind the others, of which the newest five are kept |
| `IridiumWire.LineOnCall` | src/acomms/modemdriver/iridium_driver_fsm.cpp:321-360 | a line on a call is a greeting without effect, a good-bye that is noted, a packet delivered once and held, or ignored |
| `IridiumWire.ByeGoesFirst` | src/acomms/modemdriver/iridium_driver_fsm.cpp:391-395 | a good-bye of our own goes in front of everything that waits, and nothing else changes but that it was sent |
| `IridiumDelivery.DrainGrows` | src/acomms/modemdriver/iridium_driver_fsm.cpp:122-166 | processing an event only adds messages, and as many more wait as there is room for |
| `IridiumDelivery.RunTakes` | src/acomms/modemdriver/iridium_driver.cpp:283-287 | from any machine within the invariant, what no longer waits is what the driver took iff every delivery found room, and otherwise more |
| `IridiumDelivery.TakenInOrderIff` | src/acomms/modemdriver/iridium_driver.cpp:283-287 | in every run messages taken, then messages waiting, are exactly those delivered, in order, iff every delivery found room |
| `IridiumReassembly.PieceIsKept` | src/acomms/modemdriver/iridium_driver_fsm.cpp:122-166 | a line that does not complete the message changes nothing but the receive buffer |
| `IridiumReassembly.LastPieceDelivers` | src/acomms/modemdriver/iridium_driver_fsm.cpp:122-166 | the completing line delivers the payload and replaces the read command by a plain one |
| `IridiumReassembly.PollEmptiesBuffer` | src/acomms/modemdriver/iridium_driver_fsm.cpp:191-192 | a poll while reading throws the collected bytes away and is otherwise silent |
| `IridiumReassembly.CollectsMessage` | src/acomms/modemdriver/iridium_driver_fsm.cpp:122-166 | from any partial buffer, any cutting of the rest into lines delivers exactly the payload, at the line that completes it; polls come only while nothing is collected |
| `IridiumReassembly.CollectsAfterNewline` | src/acomms/modemdriver/iridium_driver_fsm.cpp:122-166 | the same after a left-over newline |
| `IridiumReassembly.Reassembles` | src/acomms/modemdriver/iridium_driver_fsm.cpp:46-166 | with or without a left-over newline, however cut and with polls before the first byte, exactly one delivery of exactly the payload, as soon as it is complete |
| `IridiumReassembly.NewlineLengthFails` | src/acomms/modemdriver/iridium_driver_fsm.cpp:122-166 | no machine that waits for data delivers a message sent as one line whose high length byte is a newline |
| `IridiumReassembly.ReassembledIff` | src/acomms/modemdriver/iridium_driver_fsm.cpp:46-166 | on every machine that waits for data, a message arrives however it is cut iff its high length byte is not a newline |
| `IridiumReassembly.LatePollLoses` | src/acomms/modemdriver/iridium_driver_fsm.cpp:168-192 | a poll with less than the message still to come loses it, whatever the remaining bytes look like |
| `IridiumReassembly.DeliveredBetweenPollsIff` | src/acomms/modemdriver/iridium_driver_fsm.cpp:122-192 | a message sent alone, with polls anywhere between its lines, is delivered at its last line iff no poll falls behind its first byte |
| `IridiumSession.PollIsInvisible` | src/acomms/modemdriver/iridium_driver_fsm.cpp:168-216 | a poll that does not exceed the retries changes no state, no queued command and no session |
| `IridiumSession.LeadsOn` | src/acomms/modemdriver/iridium_driver_fsm.cpp:46-216 | what one line does composes with what the following lines do, whatever polls there are in between |
| `IridiumSession.OkPops` | src/acomms/modemdriver/iridium_driver_fsm.cpp:230-286 | OK takes exactly the front command off, unless it was a dial or a hang-up |
| `IridiumSession.ZeroAnnounces` | src/acomms/modemdriver/iridium_driver_fsm.cpp:230-245 | zero to the clearing command announces the length of the payload behind it |
| `IridiumSession.ReadyWrites` | src/acomms/modemdriver/iridium_driver_fsm.h:548-580 | READY writes the stored block once, into the log and to the end of the serial buffer |
| `IridiumSession.ReadySendsBlock` | src/acomms/modemdriver/iridium_driver_fsm.h:548-580 | READY puts the payload of the session and its byte sum at the end of the serial buffer and keeps what was there, up to the oldest line of a full buffer |
| `IridiumSession.ZeroTransmits` | src/acomms/modemdriver/iridium_driver_fsm.h:576-592 | zero with nothing queued ends the write and queues the transmission, as an answer to a ring alert if it is one |
| `IridiumSession.ReplyEnds` | src/acomms/modemdriver/iridium_driver_fsm.h:647-712 | the answer to a transmission drops the data and goes on to read iff it reports success and a waiting message |
| `IridiumSession.OkConfigures` | src/acomms/modemdriver/iridium_driver_fsm.cpp:230-286 | while configuring off a call, OK takes any command off, also one that elsewhere means a lost carrier; the last one makes the machine ready |
| `IridiumSession.ConfigurationEnds` | src/acomms/modemdriver/iridium_driver_fsm.h:306-324 | from power-up, answering all configuration commands with OK leads to rest, ready and off a call, where the dialogues below start |
| `IridiumSession.SessionRuns` | src/acomms/modemdriver/iridium_driver_fsm.h:475-723 | a session whose commands are answered ends at rest or reading, having sent exactly one length and one block, both of its payload |
| `IridiumSession.SessionSendsBlock` | src/acomms/modemdriver/iridium_driver_fsm.h:475-723 | over a whole session exactly one block goes to the modem, behind all earlier ones: the payload and its byte sum |
| `IridiumSession.MailboxCheckRuns` | src/acomms/modemdriver/iridium_driver_fsm.h:548-592 | a session without payload ends likewise and sends neither |
| `IridiumSession.SessionDelivers` | src/acomms/modemdriver/iridium_driver_fsm.cpp:122-166 | a message announced at the end of a session is then delivered once and whole, however it is cut into lines, with polls before its first byte |
| `IridiumSession.FailuresLead` | src/acomms/modemdriver/iridium_driver_fsm.cpp:288-319 | from any attempt on, each failure leads to the next attempt until the last |
| `IridiumSession.DialGivesUp` | src/acomms/modemdriver/iridium_driver_fsm.cpp:288-319 | a dial whose every attempt is refused, or answered by a mere OK, is tried exactly max(1, dial_attempts) times, and then the machine is as before |
| `IridiumSession.DialConnects` | src/acomms/modemdriver/iridium_driver_fsm.h:386-458 | a dial that is answered ends online, on a call that starts at that moment, with the greeting first in the serial buffer |
| `IridiumSession.HangupEndsCall` | src/acomms/modemdriver/iridium_driver_fsm.h:354-367 | a hang-up whose two commands are answered ends the call and leaves the machine ready and at rest |
| `IridiumIncoming.RingConnects` | src/acomms/modemdriver/iridium_driver_fsm.h:400-410 | a ring at rest is answered; when the modem connects, the machine is online on a new call, greeting first |
| `IridiumIncoming.RingIsIgnored` | src/acomms/modemdriver/iridium_driver_fsm.h:326-352 | a ring that does not find the machine ready changes nothing, unless it is read as part of a message |
| `IridiumIncoming.AlertRuns` | src/acomms/modemdriver/iridium_driver_fsm.cpp:116-119 | a ring alert at rest starts a mailbox check that is transmitted as the answer to an alert and runs to its end |
| `IridiumIncoming.ErrorReconfigures` | src/acomms/modemdriver/iridium_driver_fsm.cpp:100-103 | an error, unless read as part of a message, ends any call and makes the machine configure from scratch |
| `IridiumIncoming.CarrierLossEndsCall` | src/acomms/modemdriver/iridium_driver_fsm.h:369-384 | a carrier lost on a call ends it; once the modem has answered for the reason, the machine is ready and at rest |
| `IridiumIncoming.EchoIsTurnedOff` | src/acomms/modemdriver/iridium_driver_fsm.cpp:57-67 | an echo of the front command queues the echo-off command right behind it |
| `IridiumIncoming.CodesAreIgnored` | src/acomms/modemdriver/iridium_driver_fsm.cpp:104-107 | the codes of a failed write, unless read as part of a message, change nothing |
| `IridiumFsm.IridiumDriverFsm.constructor` | src/acomms/modemdriver/iridium_driver_fsm.h:188-324 | the object starts as the initial machine, within both invariants |
| `IridiumFsm.IridiumDriverFsm.Send` | src/acomms/modemdriver/iridium_driver_fsm.h:188-237 | puts a line at the end of the serial buffer in place, dropping the oldest of a full one |
| `IridiumFsm.IridiumDriverFsm.SendFirst` | src/acomms/modemdriver/iridium_driver_fsm.h:188-237 | puts a line at its front, dropping the last of a full one |
| `IridiumFsm.IridiumDriverFsm.BufferDataOut` | src/acomms/modemdriver/iridium_driver_fsm.cpp:40-44 | keeps a packet for a call in place, dropping the oldest of a full buffer, and keeps the invariant of the buffers |
| `IridiumFsm.IridiumDriverFsm.PushAtCommand` | src/acomms/modemdriver/iridium_driver_fsm.h:272-275 | queues in place, dropping the oldest sentence of a full buffer |
| `IridiumFsm.IridiumDriverFsm.NewCommand` | src/acomms/modemdriver/iridium_driver_fsm.h:246-263 | a new Command state forgets queue, receive buffer and SBD data |
| `IridiumFsm.IridiumDriverFsm.Configuring` | src/acomms/modemdriver/iridium_driver_fsm.h:306-324 | the loop queues an empty command and all configured ones in order |
| `IridiumFsm.IridiumDriverFsm.Collect` | src/acomms/modemdriver/iridium_driver_fsm.cpp:122-140 | the receive buffer grows by the line, without a newline that would be its first byte |
| `IridiumFsm.IridiumDriverFsm.HandleSbd` | src/acomms/modemdriver/iridium_driver_fsm.cpp:122-166 | refines the reassembly step of `IridiumReassembly` |
| `IridiumFsm.IridiumDriverFsm.ReactRx` | src/acomms/modemdriver/iridium_driver_fsm.cpp:46-120 | refines the reaction to a line: SBD data, an echo, or the events the line stands for |
| `IridiumFsm.IridiumDriverFsm.ReactTx` | src/acomms/modemdriver/iridium_driver_fsm.cpp:168-216 | refines the stop-and-wait step of `IridiumAt`, of which `PollSendsCommand` says what it sends |
| `IridiumFsm.IridiumDriverFsm.ReactAck` | src/acomms/modemdriver/iridium_driver_fsm.cpp:230-286 | refines the reaction to an answer |
| `IridiumFsm.IridiumDriverFsm.DialOnce` | src/acomms/modemdriver/iridium_driver_fsm.cpp:312-319 | queues one dial command and counts the attempt |
| `IridiumFsm.IridiumDriverFsm.SetDataAndClear` | src/acomms/modemdriver/iridium_driver_fsm.h:475-546 | stores the framed payload and starts the session with empty buffers |
| `IridiumFsm.IridiumDriverFsm.Write` | src/acomms/modemdriver/iridium_driver_fsm.h:548-567 | announces the payload length, or skips the write of a mailbox check |
| `IridiumFsm.IridiumDriverFsm.ReactSbd` | src/acomms/modemdriver/iridium_driver_fsm.h:475-723 | refines the SBD region, of which `ReadySendsBlock` says what it sends |
| `IridiumFsm.IridiumDriverFsm.ReactMain` | src/acomms/modemdriver/iridium_driver_fsm.h:246-410 | refines the main region of Command |
| `IridiumFsm.IridiumDriverFsm.ReactOnline` | src/acomms/modemdriver/iridium_driver_fsm.h:412-427 | refines Online: passing lines to the call, hanging up, being disconnected |
| `IridiumFsm.IridiumDriverFsm.ReactNoCarrier` | src/acomms/modemdriver/iridium_driver_fsm.cpp:288-310 | refines the loss of carrier for either order of regions |
| `IridiumFsm.IridiumDriverFsm.ReactOnCallRx` | src/acomms/modemdriver/iridium_driver_fsm.cpp:321-360 | refines the reaction to a line on a call, of which `LineOnCall` says what it is |
| `IridiumFsm.IridiumDriverFsm.ReactOnCallTx` | src/acomms/modemdriver/iridium_driver_fsm.cpp:362-389 | refines the paced sending step, of which `PollSendsPacket` says what it sends |
| `IridiumFsm.IridiumDriverFsm.ReactCall` | src/acomms/modemdriver/iridium_driver_fsm.h:429-473 | refines the call region and the reset of the whole machine |
| `IridiumFsm.IridiumDriverFsm.React` | src/acomms/modemdriver/iridium_driver_fsm.h:239-723 | one event on the object is one dispatch of the statechart |
| `IridiumFsm.IridiumDriverFsm.ReactToAll` | src/acomms/modemdriver/iridium_driver.cpp:262-281 | the event loop ends and has processed everything that was posted, in order |
| `IridiumFsm.IridiumDriverFsm.ProcessEvent` | src/acomms/modemdriver/iridium_driver.cpp:262-281 | processing an event on the object is one step of a run and keeps the whole invariant and that of the buffers |
| `BaseConvert.ReadNumber` | src/util/base_convert.h:42-53 | the first loop reads the number the digits denote and counts the zeros at the significant end |
| `BaseConvert.Convert` | src/util/base_convert.h:31-66 | the loops produce the conversion of which the lemmas below speak |
| `BaseConvert.DigitsDenote` | src/util/base_convert.h:56-60 | the remainders written denote the number |
| `BaseConvert.ZerosFound` | src/util/base_convert.h:62-63 | the zeros put back are exactly the zeros a reader counts |
| `BaseConvert.ConvertedDenotesTheSame` | src/util/base_convert.h:31-66 | the result denotes the same number in valid digits of the new base with as many leading zeros |
| `BaseConvert.ValidIsCanonical` | src/util/base_convert.h:31-66 | a valid digit string is determined by its number and its leading zeros |
| `BaseConvert.RoundTripIff` | src/util/base_convert.h:31-66 | converting there and back returns the string iff its digits are valid in its base |
| `BaseConvert.ConvertedLength` | src/util/base_convert.h:31-66 | without its zeros the result has at most m digits whenever a^n <= b^m |
| `NetChecksum.NetChecksum` | src/acomms/ip_codecs.cpp:41-60 | the two loops on a wrapping accumulator give the complement of the folded word sum |
| `NetChecksum.FoldCarries` | src/acomms/ip_codecs.cpp:57-57 | the fold loop ends in sixteen bits |
| `NetChecksum.FoldKeepsResidue` | src/acomms/ip_codecs.cpp:57-57 | folding keeps the sum modulo 65535 and gives zero only for zero |
| `NetChecksum.FoldedComplement` | src/acomms/ip_codecs.cpp:57-59 | the complement cancels the sum; the fold is 65535 iff the sum is a positive multiple of it |
| `NetChecksum.VerifiesIff` | src/acomms/ip_codecs.cpp:41-60 | data checks to zero iff its words add up to a positive multiple of 65535 |
| `NetChecksum.AccumulatorSufficesIff` | src/acomms/ip_codecs.cpp:43-51 | the 32-bit sum of no data of this length overflows iff the length is at most 131074 bytes |
| `NetChecksum.PlacingAdds` | src/acomms/ip_codecs.cpp:47-55 | writing a value into a zeroed field at an even offset adds it to the sum |
| `NetChecksum.ChecksummedDataVerifies` | src/acomms/ip_codecs.cpp:41-60 | data with its checksum in the zeroed field checks to zero |
| `NetChecksum.SumOfPermutation` | src/acomms/ip_codecs.cpp:47-51 | the sum is the same for every order of the words |
| `NetChecksum.OrderDoesNotMatter` | src/acomms/ip_codecs.cpp:41-60 | data with the same words in any order has the same checksum |
| `NetChecksum.OddIsPadded` | src/acomms/ip_codecs.cpp:53-55 | a last single byte counts as if a zero byte followed it |
| `DirectIp.Walk` | src/acomms/modemdriver/iridium_shore_sbd.h:76-123 | the recursion over elements ends and visits only elements that lie in the buffer |
| `DirectIp.WalkAdvances` | src/acomms/modemdriver/iridium_shore_sbd.h:76-123 | on any bytes, each element moves the walk on by at least three, and it stops only at or beyond the end of the message |
| `DirectIp.SbdMessageReader.ReadByte` | src/acomms/modemdriver/iridium_shore_sbd.h:125-125 | reads the next byte, failing iff the buffer is used up |
| `DirectIp.SbdMessageReader.ReadUint` | src/acomms/modemdriver/iridium_shore_sbd.h:127-152 | the loop assembles the big-endian number of that many bytes, failing iff they are not all there |
| `DirectIp.SbdMessageReader.ReadChars` | src/acomms/modemdriver/iridium_shore_sbd.h:154-160 | takes exactly that many bytes |
| `DirectIp.SbdMessageReader.TakeHeader` | src/acomms/modemdriver/iridium_shore_sbd.h:86-99 | a header takes 28 bytes whatever its length field says, each field from its place |
| `DirectIp.SbdMessageReader.TakeConfirmation` | src/acomms/modemdriver/iridium_shore_sbd.h:108-114 | a confirmation takes 25 bytes, its status with sign |
| `DirectIp.HeaderRoundTrip` | src/acomms/modemdriver/iridium_shore_sbd.h:86-99 | every field of a printed header is read back; the signed session status becomes a 32-bit unsigned number |
| `DirectIp.ConfirmationRoundTrip` | src/acomms/modemdriver/iridium_shore_sbd.h:108-114 | every field of a printed confirmation is read back, its status with sign |
| `DirectIp.SbdMessageReader.TakeElement` | src/acomms/modemdriver/iridium_shore_sbd.h:81-119 | an element is taken and stepped over, and only its own kind of field changes |
| `DirectIp.SbdMessageReader.HandleElements` | src/acomms/modemdriver/iridium_shore_sbd.h:76-123 | the recursion is the walk, holding the fields of the last element of each kind |
| `DirectIp.SbdMessageReader.ReadMessage` | src/acomms/modemdriver/iridium_shore_sbd.h:59-123 | a buffered message is read successfully iff the walk stays in the buffer, and then holds what the walk collects; for every message of well-formed elements that is its last header and payload, with the position at its end |
| `DirectIp.WalkPasses` | src/acomms/modemdriver/iridium_shore_sbd.h:76-123 | the walk goes through any laid-out well-formed elements to what lies behind them |
| `DirectIp.WalkVisitsAll` | src/acomms/modemdriver/iridium_shore_sbd.h:76-123 | over any well-formed sequence it visits every element once and stops exactly at the end |
| `DirectIp.VisitedAreWellFormed` | src/acomms/modemdriver/iridium_shore_sbd.h:76-123 | a walk that visits each of some honest elements and ends where they end has met no confirmation and no header of another length than 28 |
| `DirectIp.WalkVisitsAllIff` | src/acomms/modemdriver/iridium_shore_sbd.h:76-123 | over any elements whose length fields are right, the walk visits exactly them and ends at their end iff none is a confirmation and all headers have 28 bytes |
| `DirectIp.CollectsLast` | src/acomms/modemdriver/iridium_shore_sbd.h:84-119 | visiting laid-out elements keeps what folding them one by one keeps, from any fields held before |
| `DirectIp.KeptAllIsLast` | src/acomms/modemdriver/iridium_shore_sbd.h:84-119 | what is kept is the content of the last header and of the last payload, absent iff there is none, and no confirmation |
| `DirectIp.MessageIsRead` | src/acomms/modemdriver/iridium_shore_sbd.h:59-123 | a buffered message of well-formed elements is read to its exact end and leaves its last header and its last payload |
| `DirectIp.ConfirmationOvershoots` | src/acomms/modemdriver/iridium_shore_sbd.h:108-118 | a closing confirmation of any length carries the reader 25 bytes past the end of the message |
| `DirectIp.ShortHeaderOvershoots` | src/acomms/modemdriver/iridium_shore_sbd.h:86-99 | a closing header shorter than 28 bytes carries the reader past the end by what it lacks |
| `DirectIp.MtWriter.constructor` | src/acomms/modemdriver/iridium_shore_driver.cpp:471-471 | the client id counter starts at zero |
| `DirectIp.MtWriter.CreateDataMessage` | src/acomms/modemdriver/iridium_shore_driver.cpp:454-556 | the message is pre-header, header and payload with lengths cut to sixteen bits, holding version, old client id, identifier, flags and payload at their places, and the client id counts up modulo 2^32 |
| `DirectIp.MtWriter.FillHeader` | src/acomms/modemdriver/iridium_shore_driver.cpp:489-529 | filling the buffer field by field at a moving position gives each field at its place; an identifier longer than 15 characters is overwritten by the flags |
| `DirectIp.MtWriter.PutBytes` | src/acomms/modemdriver/iridium_shore_driver.cpp:501-529 | writes exactly the given bytes at the position and leaves the rest of the buffer alone |
| `DirectIp.MtMessageLayout` | src/acomms/modemdriver/iridium_shore_driver.cpp:531-555 | size of a written message and place of all its kinds and lengths |
| `DirectIp.MtMessageCarries` | src/acomms/modemdriver/iridium_shore_driver.cpp:489-555 | version, client id, identifier, flags and payload stand in the written bytes at fixed places |
| `DirectIp.ReaderAcceptsWriter` | src/acomms/modemdriver/iridium_shore_driver.cpp:454-556 | over a written message with at most 65508 payload bytes the reader's walk visits exactly two elements and stops exactly at the end |
| `DirectIp.MtRoundTrip` | src/acomms/modemdriver/iridium_shore_driver.cpp:454-556 | walking a written message and reading its two elements gives back client id, identifier, flags and payload |
| `ZeroMqPacket.ShiftInIsXor` | src/common/zeromq_packet.h:67-71 | on the bits of a word and a byte, the shift and the exclusive or with the sign-extended byte give the number of the model's arithmetic step |
| `ZeroMqPacket.MakeHeaderBytes` | src/common/zeromq_packet.h:33-46 | the loop writes the four bytes of the scheme, high byte first, then identifier and NUL |
| `ZeroMqPacket.DecodePacket` | src/common/zeromq_packet.h:57-87 | the loop and the splits refine the decoder of the lemmas below |
| `ZeroMqPacket.HeaderAcceptedIff` | src/common/zeromq_packet.h:66-80 | despite the sign extension exactly the headers 0,0,0,k with k <= 6 are accepted, as scheme k |
| `ZeroMqPacket.DecodeOfEncode` | src/common/zeromq_packet.h:49-87 | what decoding makes of any encoded packet: everything up to the first NUL is the identifier |
| `ZeroMqPacket.RoundTripIff` | src/common/zeromq_packet.h:49-87 | decoding undoes encoding iff the identifier has no NUL |
| `ZeroMqPacket.AcceptedIsEncoded` | src/common/zeromq_packet.h:57-87 | everything accepted is the encoding of what is returned |
| `ZeroMqPacket.FilterIsExact` | src/common/zeromq_service.cpp:218-227 | a filter is a prefix of a packet iff the schemes agree and the subscribed identifier is a prefix of the packet's |
| `MoosNode.FilterMatches` | src/moos/moos_node.cpp:61-93 | exactly the keys that a full name, a starred name or an empty name lets through, slashes or not |
| `MoosNode.SubscriptionIsExactIff` | src/moos/moos_node.cpp:61-93 | a subscription lets through what its name stands for, and nothing else, iff no slash makes it overreach |
| `MoosNode.SlashFreeIsExact` | src/moos/moos_node.cpp:61-93 | without slashes it never overreaches |
| `MoosNode.SlashedKeyLeaks` | src/moos/moos_node.cpp:61-93 | a key with a slash is delivered to the subscriber of the part before it |
| `MoosNode.PacketReachesSubscriber` | src/moos/moos_node.cpp:61-93 | from sender to subscriber: delivered iff the name stands for the key or overreaches to it |
| `MoosNode.MoosNode.constructor` | src/moos/moos_node.cpp:34-39 | nothing is cached at first |
| `MoosNode.MoosNode.Inbox` | src/moos/moos_node.cpp:41-59 | a MOOS message becomes the newest value of its key; other schemes change nothing |
| `MoosNode.MoosNode.Newest` | src/moos/moos_node.cpp:115-121 | returns the newest value, making an empty entry for an unknown key |
| `MoosNode.MoosNode.NewestSubstr` | src/moos/moos_node.cpp:123-153 | returns the newest values of exactly the cached keys the name stands for, each once, in the order of the keys |
| `MoosNode.MoosNode.StartingWith` | src/moos/moos_node.cpp:144-152 | the loop visits the cache in the order of its keys and returns the values of exactly those with the prefix |
| `ProtobufNode.SplitUndoesSendIff` | src/pb/protobuf_node.cpp:31-66 | the receiver splits an identifier back into group and type iff the group has no slash |
| `ProtobufNode.SlashSeparates` | src/pb/protobuf_node.cpp:60-73 | a prefix through the first slash determines the group |
| `ProtobufNode.AddressIsExact` | src/pb/protobuf_node.cpp:49-73 | a subscription matches exactly its own group, and its own type if it names one |
| `ProtobufNode.Posted` | src/pb/protobuf_node.cpp:82-97 | the handlers posted to are exactly those registered for the type with this group or with none |
| `ProtobufNode.StaticProtobufNode.constructor` | src/pb/protobuf_node.cpp:82-97 | no handler is registered at first |
| `ProtobufNode.StaticProtobufNode.Subscribe` | src/pb/protobuf_node.h:173-206 | adds one handler and its filter on the socket, so that every handler's filter stays set |
| `ProtobufNode.StaticProtobufNode.Inbox` | src/pb/protobuf_node.cpp:82-97 | the loop posts to each of those handlers once |
| `ProtobufNode.OwnFilterIsExact` | src/pb/protobuf_node.cpp:49-80 | a handler's own filter lets through exactly the packets of its group and type |
| `ProtobufNode.StaticProtobufNode.SubscriberIsPosted` | src/pb/protobuf_node.cpp:31-97 | from sender to handler: the packet of a message of a handler's group and type reaches the node, is decoded with its body, is split back and is posted to the handler |
| `KeyValue.FirstMatch` | src/moos/moos_string.h:69-81 | the loop over numbered matches ends at the first one that stands at the beginning or behind a comma, or finds that there is none |
| `KeyValue.ValFromString` | src/moos/moos_string.h:57-121 | found iff the lookup succeeds, with its value; otherwise the output is empty |
| `KeyValue.MatchesDoNotOverlap` | src/moos/moos_string.h:77-79 | matches of a key without equals sign cannot overlap, so none is skipped |
| `KeyValue.SearchIsLeast` | src/moos/moos_string.h:72-81 | the search returns the least counting match |
| `KeyValue.SearchIs` | src/moos/moos_string.h:72-81 | it is characterised by that, also when there is none |
| `KeyValue.MatchInEntry` | src/moos/moos_string.h:66-73 | inside a printed entry only its whole key at its beginning counts, never a suffix of a key |
| `KeyValue.ExtractEntry` | src/moos/moos_string.h:87-116 | the value cut out is the scalar, or the items of the array, of the entry the text starts with |
| `KeyValue.FirstInPrint` | src/moos/moos_string.h:57-121 | in a printed list the first counting match is at the first entry with the key |
| `KeyValue.LookupUndoesPrint` | src/moos/moos_string.h:57-121 | on any printed list of clean entries the lookup returns the first value of the key, ignoring case, and nothing iff there is none |
| `MoosApp.StepKeepsInvariant` | src/moos/goby_moos_app.h:418-572 | every callback keeps: existing and then pending subscriptions are the requests in order, registered exactly while live, messages posted or buffered |
| `MoosApp.RunKeepsInvariant` | src/moos/goby_moos_app.h:418-572 | so does every sequence of callbacks |
| `MoosApp.EveryRunConserves` | src/moos/goby_moos_app.h:119-125 | in every run from the start: while live the requests are registered in the present session, each once and in order, otherwise all are pending in order; each message is posted once or still buffered |
| `MoosApp.PublishKeepsOrderIff` | src/moos/goby_moos_app.h:119-125 | publishing one message keeps the order iff no different message is waiting in the buffer of a live application |
| `MoosApp.StepKeepsOrderIff` | src/moos/goby_moos_app.h:418-466 | a callback keeps the order iff what it publishes while live could as well stand behind the buffer |
| `MoosApp.RunStaysInOrderIff` | src/moos/goby_moos_app.h:119-125 | messages are in order at every point of a run iff no step of it is disturbed in that way |
| `MoosApp.BufferedMessageIsOvertaken` | src/moos/goby_moos_app.h:119-125 | publish, connect, start, publish: the second message is posted before the first |
| `MoosApp.MoosApplication.constructor` | src/moos/goby_moos_app.h:87-104 | not connected, not started, nothing requested, within the invariant |
| `MoosApp.MoosApplication.Register` | src/moos/goby_moos_app.h:519-572 | the loops register everything pending in order, if live, and leave nothing pending |
| `MoosApp.MoosApplication.SubscribeTo` | src/moos/goby_moos_app.h:480-495 | a request is kept exactly once and registered at once if live |
| `MoosApp.MoosApplication.SubscribeToWild` | src/moos/goby_moos_app.h:497-517 | the same for wildcard requests |
| `MoosApp.MoosApplication.PublishMessage` | src/moos/goby_moos_app.h:119-125 | a message is posted if live and buffered otherwise |
| `MoosApp.MoosApplication.OnConnectToServer` | src/moos/goby_moos_app.h:433-466 | connecting registers what is pending, then publishes the initial values |
| `MoosApp.MoosApplication.OnDisconnectFromServer` | src/moos/goby_moos_app.h:418-431 | everything registered becomes pending again |
| `MoosApp.MoosApplication.OnStartUp` | src/moos/goby_moos_app.h:468-478 | starting registers what is pending |
| `MoosApp.MoosApplication.FlushBuffer` | src/moos/goby_moos_app.h:337-345 | the loop posts the whole buffer in order if live, and nothing otherwise |
| `SyncTimer.IterateTimers` | src/moos/goby_moos_app.h:349-371 | every timer is looked at once, and exactly the due ones fire, in order |
| `SyncTimer.RegisteredWithinPeriod` | src/moos/goby_moos_app.h:176-186 | a new timer fires first after now and within one period |
| `SyncTimer.RegisteredAtMultiple` | src/moos/goby_moos_app.h:176-186 | a new timer fires first at the first multiple of its period after now |
| `SyncTimer.NextIsNear` | src/moos/goby_moos_app.h:356-369 | after a look, whatever the clock did, the next firing is between now and two periods on |
| `SyncTimer.FiringsAreSpaced` | src/moos/goby_moos_app.h:356-369 | with a clock that never goes back, the due time moves on by at least a period per firing |
| `SyncTimer.FiringsBounded` | src/moos/goby_moos_app.h:349-371 | firings by a time T are none before the first due time and at most one more than the periods since |
| `SyncTimer.RegisteredTimerIsBounded` | src/moos/goby_moos_app.h:176-186 | the bound holds for every timer from its registration on |
| `SyncTimer.NoFiringIsLost` | src/moos/goby_moos_app.h:356-369 | looked at at least once per period, a timer stays on its grid and fires for every period |
| `WordWrap.CutLine` | src/common/configuration_reader.cpp:617-633 | cuts at a newline, else behind the last delimiter that fits, else at the width |
| `WordWrap.WordWrap` | src/common/configuration_reader.cpp:610-641 | the loop ends for every width of at least one and refines the wrapping of the lemmas below |
| `WordWrap.WrappedFits` | src/common/configuration_reader.cpp:610-641 | every output line has at most width characters |
| `WordWrap.WrappedOnlyInserts` | src/common/configuration_reader.cpp:610-641 | the output is the input with newlines inserted: no character lost or moved, every newline still a line break |
| `WordWrap.WrappedKeepsText` | src/common/configuration_reader.cpp:610-641 | without newlines input and output are the same text |
| `WordWrap.UnchangedIff` | src/common/configuration_reader.cpp:615-635 | a text is left alone iff, wherever more than a width is left, its line ends before the width is reached |
| `WordWrap.IdempotentIff` | src/common/configuration_reader.cpp:610-641 | wrapping twice is the same as wrapping once iff no line is cut at the full width |
| `WordWrap.NotIdempotent` | src/common/configuration_reader.cpp:615-635 | a word longer than the width is such an input |
| `WordWrap.Indent` | src/common/configuration_reader.cpp:656-656 | the loop follows every newline by the prefix |
| `WordWrap.IndentedLines` | src/common/configuration_reader.cpp:654-656 | the first line stays, every other line is the prefix and the old line |
| `WordWrap.WrapDescription` | src/common/configuration_reader.cpp:643-657 | wraps to a width of at least 20 and aligns, moving a narrow comment to a line of its own; it fails iff the comment is then shorter than two characters |
| `WordWrap.DescriptionFits` | src/common/configuration_reader.cpp:643-657 | no line of a description is longer than 68 characters, whatever the indentation |
| `WordWrap.LimitIsExceeded` | src/common/configuration_reader.cpp:643-657 | for every indentation some description has a line of exactly 68 |
| `WordWrap.CutsFitIff` | src/common/configuration_reader.cpp:610-641 | the lines of a wrapped text, with characters dropped in front, keep to a limit iff the cuts of the text do |
| `WordWrap.WithinLimitIff` | src/common/configuration_reader.cpp:643-657 | a description keeps to MAX_CHAR_PER_LINE iff every cut that gets a comment sign leaves two characters free |

## Left out

- Sockets, asio timers, serial ports and DTR, ZeroMQ polling, files and logging: plumbing, represented by inputs and results.
- Rounding: slot lengths and times are whole microseconds, timers and pacing use real numbers; floating-point rounding and the 32-bit total seconds of the source are not modelled.
- ComputeNextCycleTime: clock readings for which the cycle count does not fit the 32-bit unsigned number it is converted to are excluded, because the conversion is then undefined.
- StartupWith: not modelled on a scheduler that is already started, because the source then keeps an iterator into the list it has cleared.
- A timer handler already queued when the timer is cancelled: the model treats cancelling as immediate.
- Slot editing other than replacing the list and calling update, and the contents of slots that do not decide who transmits when.
- Packing and unpacking of call packets (`serialize_rudics_packet`, `parse_rudics_packet`, DCCL headers): whether a line decodes is an arbitrary part of the event, and a delivery is the raw payload.
- DeliveredBetweenPollsIff: for a message sent alone; with more text behind it in its last line, `Reassembles` gives the delivering half.
- HandleSbd: an empty line given to a read with nothing buffered, and a payload that does not parse, throw in the source and end the machine; the first is excluded by a precondition and the second is taken to parse.
- ReactOnCallTx: the target rate is the configured one and positive; the source freezes it at the value of the first call.
- ConfigurationEnds: for fewer than 100 configured commands, none of them a read of SBD data, which would take the answers for data.
- EchoIsTurnedOff: for a queue that is not full; `InsertKeeps` covers a full one, which loses its front command.
- MtRoundTrip: for at most 65508 payload bytes, the longest whose lengths fit sixteen bits; `MtMessageCarries` holds for every payload.
- SessionRuns: that the modem answers is a hypothesis; when it does not, `StopAndWait` and `GivesUpAtTheFourth` say what happens.
- The value of the ring-alert flag before the first session, which the source leaves uninitialised.
- ReadMessage: starts from a complete message in the buffer; reading it in parts is not modelled. Reading through an iterator past the end is treated as running out of range.
- CreateDataMessage: an identifier shorter than 15 characters makes the source write beyond its buffer and is excluded.
- SubscriberIsPosted: for names without slash and NUL, made of bytes. A handler with an empty group also gets whatever other subscriptions of its node let through, which `Posted` states.
- Posted: the handlers are in the order of registration; the source's hash table leaves the order open.
- Register: a failed registration is kept as if it had succeeded, as in the source, and is therefore not retried; reconnecting without a disconnect callback registers nothing again. Variables registered by derived classes are not modelled.
- Registered: 32-bit overflow of the time in seconds is not modelled, and the clock is not negative.
- WordWrap: width zero, with which the source does not end, is excluded; its only caller never uses it.
- The dynamic protobuf node, mail handlers and wildcard matching of MOOS applications, MOOS technique serializers: they rest on reflection or foreign libraries.
- The queue and route managers, the Benthos statechart, the Bluefin, uField, PB and ABC drivers, the Iridium shore driver's connections: bulk of the same shapes, or callbacks into code elsewhere.
- The liaison web interface, geodesy, sound speed, time and string casts, hex and small integer codecs: formulas and finite tables.
