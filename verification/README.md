# Waldo for Unreal Engine 5: a verified model

This project models four parts of the repository in Dafny and proves what they promise.

- **The insertion-ordered Robin Hood hash table** (`Bits`, `LoadFactor`, `BucketRing`, `AssocList`, `OrderedHash`). A
  dense sequence of values and an open-addressed ring of buckets that must agree with it. `BucketRing` is the theory of
  the ring as a value: the probe-distance invariant and one lemma for each thing that happens to it. Agreement is one
  equation over the multiset of buckets, so every permutation of the ring keeps it. `OrderedHash` is the class with its
  fields and loops; every operation is proved to refine one on an association list (`AssocList`). Tables without buckets
  and full rings are included. The hash function is arbitrary.
- **The Waldo serial protocol host** (`Framing`, `ByteStream`, `HostProtocol`, `HostStateMachine`, `Delivery`,
  `FrameHistory`, `WaldoComponent`, `Session`). `Framing` holds a whole-stream parser that knows nothing of buffers, and
  shows that the byte-at-a-time framer refines it. `HostProtocol` proves properties of all runs of connections, commands,
  failing sends and timeouts; the classes keep their run in ghost fields and stay consistent with it. `Delivery` reads
  off a history what listeners are owed, and the component's invariant is that it has delivered exactly that; `FrameHistory` says by
  positions in the history alone what that is. `Session` follows one short session byte by byte. The environment decides
  how many bytes have arrived at each look, how much of a write succeeds, and how the clock advances. The host's
  broadcasts are kept in a log, which the component handles in order after the tick that made them.
- **The CTPL thread pool** (`ThreadPool`, `ThreadPoolRuns`, `ThreadPoolOrder`). A state machine over the atomic steps of pushers,
  workers and the stopping thread, with the queue's own lock inside each queue step and the pool's mutex and condition
  variable explicit. The pool may grow while it runs. Besides safety it is shown that a running pool to which nothing is added
  comes to rest with every task run, and that a stop ends: it never hangs and takes boundedly many steps.
- **The UTF-8 and UTF-16 codecs and converters** (`Utf`, `Utf8Forms`, `Transcoding`, `Converters`), with 32-bit
  arithmetic and its wrap-around. The readers and loops take the checked or the unchecked callback, and the precondition
  of the unchecked one is that a unit is left. The encodings follow section 3 of RFC 3629, section 2 of RFC 2279 for five
  and six units, and sections 2.1 and 2.2 of RFC 2781.

`Basics` holds what they share. `dafny verify dfyconfig.toml` checks the whole project.

Where the code and its comments disagree, the model follows the code. The comment on `thread_pool::stop` says that with
`isWait` all functions in the queue are run. A task that is in the queue when `stop(true)` is called may be discarded
(`QueuedTaskDiscarded`, `EmptyPoolDiscards`); `StopRunsQueued` says exactly when it is not. The debug assertion of
`rehash_impl` can fail when an insertion grows the table (`GrowthAssertionFails`); `GrowthAssertionExact` says exactly
from which tables insertions make it fail.

## Model

| member | source | states |
|---|---|---|
| `Bits.RoundUpToPowerOfTwo` | Plugins/Developer/RiderLink/Source/RD/thirdparty/ordered-map/include/tsl/ordered_hash.h:1381-1396 | the smearing loop returns the least power of two not below its argument up to 2^63, and the wrapped sum 0 above |
| `Bits.PowerOfTwoTest` | Plugins/Developer/RiderLink/Source/RD/thirdparty/ordered-map/include/tsl/ordered_hash.h:1398-1400 | the bit test accepts exactly the powers of two |
| `Bits.AndMask` | Plugins/Developer/RiderLink/Source/RD/thirdparty/ordered-map/include/tsl/ordered_hash.h:1355-1357 | masking with bucket_count - 1 is reduction modulo a power-of-two bucket count |
| `Bits.MaskTruncated` | Plugins/Developer/RiderLink/Source/RD/thirdparty/ordered-map/include/tsl/ordered_hash.h:174-176 | masking the truncated hash agrees with masking the full hash, for every hash, if and only if there are at most 2^32 buckets |
| `BucketRing.Chain` | Plugins/Developer/RiderLink/Source/RD/thirdparty/ordered-map/include/tsl/ordered_hash.h:1051-1075 | between an entry and its ideal bucket there is no hole, and the resident d steps along is at least d steps from home: a probe for a stored key never stops early |
| `BucketRing.HoleBound` | Plugins/Developer/RiderLink/Source/RD/thirdparty/ordered-map/include/tsl/ordered_hash.h:1335-1346 | no entry has been displaced across an empty bucket |
| `BucketRing.CarrySwap` | Plugins/Developer/RiderLink/Source/RD/thirdparty/ordered-map/include/tsl/ordered_hash.h:1307-1319 | displacing a richer resident keeps the probe-distance invariant and the entries, and leaves the resident in flight with the right distance, nearer to the hole |
| `BucketRing.CarryAdvance` | Plugins/Developer/RiderLink/Source/RD/thirdparty/ordered-map/include/tsl/ordered_hash.h:1307-1319 | passing a poorer or equal resident keeps an insertion in flight consistent |
| `BucketRing.CarryPlace` | Plugins/Developer/RiderLink/Source/RD/thirdparty/ordered-map/include/tsl/ordered_hash.h:1331-1332 | placing the entry in flight into the first empty bucket restores the whole ring invariant |
| `BucketRing.HoleOpen` | Plugins/Developer/RiderLink/Source/RD/thirdparty/ordered-map/include/tsl/ordered_hash.h:1169-1171 | emptying a bucket leaves the invariant broken at most at its successor, by at most one step |
| `BucketRing.HoleShift` | Plugins/Developer/RiderLink/Source/RD/thirdparty/ordered-map/include/tsl/ordered_hash.h:1148-1153 | one backward shift moves the gap on, keeps all entries and brings the total distance from home down, also across wrap-around and in a full ring |
| `BucketRing.HoleClose` | Plugins/Developer/RiderLink/Source/RD/thirdparty/ordered-map/include/tsl/ordered_hash.h:1148-1153 | a gap followed by an empty bucket or an entry at home satisfies the whole invariant again |
| `BucketRing.IdealModulo` | Plugins/Developer/RiderLink/Source/RD/thirdparty/ordered-map/include/tsl/ordered_hash.h:1355-1357 | a key's ideal bucket is its hash modulo the bucket count |
| `BucketRing.Locate` | Plugins/Developer/RiderLink/Source/RD/thirdparty/ordered-map/include/tsl/ordered_hash.h:1144-1155 | every position of the value sequence has exactly one bucket, holding the truncated hash of its key |
| `BucketRing.RenumberTarget` | Plugins/Developer/RiderLink/Source/RD/thirdparty/ordered-map/include/tsl/ordered_hash.h:1178-1193 | during renumbering exactly one bucket carries the index that is looked for, although the doomed bucket still carries the erased one |
| `BucketRing.RenumberStep` | Plugins/Developer/RiderLink/Source/RD/thirdparty/ordered-map/include/tsl/ordered_hash.h:1178-1193 | renumbering one value keeps the state of a renumbering in progress |
| `BucketRing.RenumberDone` | Plugins/Developer/RiderLink/Source/RD/thirdparty/ordered-map/include/tsl/ordered_hash.h:1165-1171 | after the last renumbering, emptying the doomed bucket makes ring and values agree |
| `BucketRing.AgreeExchange` | Plugins/Developer/RiderLink/Source/RD/thirdparty/ordered-map/include/tsl/ordered_hash.h:994-1002 | swapping two values and the indices in their two buckets keeps agreement and ring invariant |
| `BucketRing.RebuildStep` | Plugins/Developer/RiderLink/Source/RD/thirdparty/ordered-map/include/tsl/ordered_hash.h:1104-1128 | re-inserting one old bucket leaves a ring that holds exactly the entries of the old buckets passed so far |
| `OrderedHashTable.ProbeLook` | Plugins/Developer/RiderLink/Source/RD/thirdparty/ordered-map/include/tsl/ordered_hash.h:1058-1075 | the three exits of the probe are sound: an empty bucket or a richer resident rules the key out, a resident with another key lets the probe go on |
| `AssocList.RemoveLookup` | Plugins/Developer/RiderLink/Source/RD/thirdparty/ordered-map/include/tsl/ordered_hash.h:707-715 | erasing in order and erasing by swapping lose exactly the erased key and no other key's value |
| `AssocList.PutLookup` | Plugins/Developer/RiderLink/Source/RD/thirdparty/ordered-map/include/tsl/ordered_hash.h:582-590 | insert_or_assign gives its key the new value, keeps every other key's value and every old key's position |
| `OrderedHashTable.OrderedHash.constructor` | Plugins/Developer/RiderLink/Source/RD/thirdparty/ordered-map/include/tsl/ordered_hash.h:374-399 | a new table is empty and consistent, with the least power of two of buckets not below the request, or none for 0 |
| `OrderedHashTable.MakeTable` | Plugins/Developer/RiderLink/Source/RD/thirdparty/ordered-map/include/tsl/ordered_hash.h:374-399 | constructs an empty consistent table of the size asked for and with the load factor asked for, or the nearer bound of [0.1, 0.95], or none exactly when more buckets are asked for than allowed |
| `OrderedHashTable.OrderedHash.FindKey` | Plugins/Developer/RiderLink/Source/RD/thirdparty/ordered-map/include/tsl/ordered_hash.h:1058-1075 | terminates and finds the bucket of a key exactly when the value sequence holds the key |
| `OrderedHashTable.OrderedHash.Find` | Plugins/Developer/RiderLink/Source/RD/thirdparty/ordered-map/include/tsl/ordered_hash.h:790-794 | agrees with linear search of the value sequence for every key |
| `OrderedHashTable.OrderedHash.ValueAt` | Plugins/Developer/RiderLink/Source/RD/thirdparty/ordered-map/include/tsl/ordered_hash.h:752-761 | the mapped value, or the out-of-range case exactly for absent keys |
| `OrderedHashTable.OrderedHash.ProbeForInsert` | Plugins/Developer/RiderLink/Source/RD/thirdparty/ordered-map/include/tsl/ordered_hash.h:1211-1227 | finds the key's bucket; without one the key is absent, and the place where the probe stops is one where a displacement may start |
| `OrderedHashTable.OrderedHash.InsertIndex` | Plugins/Developer/RiderLink/Source/RD/thirdparty/ordered-map/include/tsl/ordered_hash.h:1304-1333 | ends at an empty bucket with exactly one entry added; asks for growth exactly when the load factor is at least 0.15 and some entry, not counting one put down at the start, has come more than 128 steps from home |
| `OrderedHashTable.OrderedHash.Insert` | Plugins/Developer/RiderLink/Source/RD/thirdparty/ordered-map/include/tsl/ordered_hash.h:1211-1246 | appends if the key is absent, else returns its position and changes nothing; fails exactly at the size limits; the ring doubles exactly when growth was asked for or the threshold reached; size stays below bucket count |
| `OrderedHashTable.OrderedHash.InsertOrAssign` | Plugins/Developer/RiderLink/Source/RD/thirdparty/ordered-map/include/tsl/ordered_hash.h:582-590 | refines Put on the association list; says whether and where the key was inserted or found; fails exactly when insertion does |
| `OrderedHashTable.OrderedHash.BackwardShift` | Plugins/Developer/RiderLink/Source/RD/thirdparty/ordered-map/include/tsl/ordered_hash.h:1140-1154 | restores the ring invariant without losing or duplicating a bucket |
| `OrderedHashTable.OrderedHash.ScanForIndex` | Plugins/Developer/RiderLink/Source/RD/thirdparty/ordered-map/include/tsl/ordered_hash.h:1186-1189 | the scan from the ideal bucket meets no empty bucket and ends at the only bucket with the old index |
| `OrderedHashTable.OrderedHash.ShiftIndexesDown` | Plugins/Developer/RiderLink/Source/RD/thirdparty/ordered-map/include/tsl/ordered_hash.h:1178-1193 | renumbers the buckets of all values from the erased position on |
| `OrderedHashTable.OrderedHash.EraseValueFromBucket` | Plugins/Developer/RiderLink/Source/RD/thirdparty/ordered-map/include/tsl/ordered_hash.h:1156-1172 | refines deleting one position from the list, with the whole invariant restored |
| `OrderedHashTable.OrderedHash.Erase` | Plugins/Developer/RiderLink/Source/RD/thirdparty/ordered-map/include/tsl/ordered_hash.h:1195-1206 | erases the key's value in order, or nothing, and says which |
| `OrderedHashTable.OrderedHash.EraseAt` | Plugins/Developer/RiderLink/Source/RD/thirdparty/ordered-map/include/tsl/ordered_hash.h:644-659 | erases a position in order |
| `OrderedHashTable.OrderedHash.UnorderedErase` | Plugins/Developer/RiderLink/Source/RD/thirdparty/ordered-map/include/tsl/ordered_hash.h:982-1007 | overwrites the erased position with the last value and drops the last, or does nothing for an absent key |
| `OrderedHashTable.OrderedHash.Clear` | Plugins/Developer/RiderLink/Source/RD/thirdparty/ordered-map/include/tsl/ordered_hash.h:538-545 | an empty consistent table, with no growth pending |
| `OrderedHashTable.OrderedHash.SetMaxLoadFactor` | Plugins/Developer/RiderLink/Source/RD/thirdparty/ordered-map/include/tsl/ordered_hash.h:857-860 | keeps a factor within [0.1, 0.95], takes the nearer bound for any other, and has the threshold that belongs to it |
| `OrderedHashTable.OrderedHash.RehashImpl` | Plugins/Developer/RiderLink/Source/RD/thirdparty/ordered-map/include/tsl/ordered_hash.h:1077-1129 | values untouched, the whole invariant rebuilt, least power of two not below the request; fails exactly above the bucket limit |
| `OrderedHashTable.OrderedHash.Reinsert` | Plugins/Developer/RiderLink/Source/RD/thirdparty/ordered-map/include/tsl/ordered_hash.h:1104-1128 | rebuilds agreement and ring invariant from the stored truncated hashes alone |
| `OrderedHashTable.OrderedHash.Rehash` | Plugins/Developer/RiderLink/Source/RD/thirdparty/ordered-map/include/tsl/ordered_hash.h:862-865 | the ring gets the least power of two that fits the request and leaves the values within the threshold; fails exactly above the bucket limit |
| `OrderedHashTable.OrderedHash.Reserve` | Plugins/Developer/RiderLink/Source/RD/thirdparty/ordered-map/include/tsl/ordered_hash.h:867-872 | the requested count and the present values are within the threshold, so the reserved values fit without growth; fails exactly when either needs more buckets than the limit |
| `OrderedHashTable.OrderedHash.GrowOnHighLoad` | Plugins/Developer/RiderLink/Source/RD/thirdparty/ordered-map/include/tsl/ordered_hash.h:1369-1379 | doubles exactly when asked to or when the threshold is reached, else the size is below the threshold and the threshold below the bucket count |
| `LoadFactor.LoadedExact` | Plugins/Developer/RiderLink/Source/RD/thirdparty/ordered-map/include/tsl/ordered_hash.h:842-848 | the condition on the load factor under which a long displacement asks for growth, without division |
| `LoadFactor.GrowthAssertionExact` | Plugins/Developer/RiderLink/Source/RD/thirdparty/ordered-map/include/tsl/ordered_hash.h:1077-1078 | in every run of two or more insertions of new keys, whatever growth displacements ask for, the debug assertion of rehash_impl holds at all growths if and only if the values fit the grown ring at the load factor and, in an empty table, the first value will fit the ring after that |
| `LoadFactor.GrowthAssertionFails` | Plugins/Developer/RiderLink/Source/RD/thirdparty/ordered-map/include/tsl/ordered_hash.h:1077-1078 | the assertion fails, at growths that the threshold alone forces: at the second insertion into a table made with one bucket and load factor 0.1, and at the next one for 12 values in 16 buckets whose load factor is lowered to 0.1 |
| `Framing.FirstGuard` | Plugins/Waldo/Source/Waldo/Private/Command/WaldoCommandByteStream.cpp:107-134 | the first place where the guard starts |
| `Framing.StreamingRefinesBatch` | Plugins/Waldo/Source/Waldo/Private/Command/WaldoCommandByteStream.cpp:28-52 | for every split of a byte stream into batches and every waiting buffer, the framer yields exactly the commands of a whole-stream parser and keeps exactly what it leaves over |
| `Framing.FeedRefinesParse` | Plugins/Waldo/Source/Waldo/Private/Command/WaldoCommandByteStream.cpp:107-156 | one byte either completes exactly the command that heads the stream or leaves the same stream to be parsed |
| `Framing.CompleteAtOnce` | Plugins/Waldo/Source/Waldo/Private/Command/WaldoCommandByteStream.cpp:136-156 | a buffer that becomes a whole command holds nothing beyond it: the size check never fails |
| `Framing.MismatchLeavesAtMostOneByte` | Plugins/Waldo/Source/Waldo/Private/Command/WaldoCommandByteStream.cpp:107-134 | a mismatch leaves an empty buffer or a single first guard byte |
| `Framing.ParseGarbage` | Plugins/Waldo/Source/Waldo/Private/Command/WaldoCommandByteStream.cpp:107-134 | guard-free bytes before a guard are skipped, since the guard has no proper border |
| `Framing.NoisyRoundTrip` | Plugins/Waldo/Source/Waldo/Private/Command/WaldoCommandByteStream.cpp:55-97 | sent commands with guard-free noise before and between them are parsed back exactly, whatever their payloads contain |
| `ByteStream.WaldoCommandByteStream.Receive` | Plugins/Waldo/Source/Waldo/Private/Command/WaldoCommandByteStream.cpp:28-52 | a command returned heads the whole-stream parse and at least one byte was read for it; without one all that arrived was read and the parse is unchanged |
| `ByteStream.WaldoCommandByteStream.SkipToGuard` | Plugins/Waldo/Source/Waldo/Private/Command/WaldoCommandByteStream.cpp:107-134 | drops bytes up to the first place that agrees with the guard |
| `ByteStream.WaldoCommandByteStream.IsReadyToParseCommand` | Plugins/Waldo/Source/Waldo/Private/Command/WaldoCommandByteStream.cpp:136-156 | whether the buffer is a whole command |
| `ByteStream.WaldoCommandByteStream.ParseCommandAndConsumeBuffer` | Plugins/Waldo/Source/Waldo/Private/Command/WaldoCommandByteStream.cpp:158-173 | takes the command out and empties the buffer |
| `ByteStream.WaldoCommandByteStream.Send` | Plugins/Waldo/Source/Waldo/Private/Command/WaldoCommandByteStream.cpp:55-97 | true exactly when the port took the whole encoding; a prefix of it was written otherwise |
| `ByteStream.SerialPort.Write` | Plugins/Serial/Source/Serial/Public/SerialPort.h:73-93 | a write may fail or take only part of the data |
| `HostStateMachine.WaldoCommandDecoder.DecodeRegisterInput` | Plugins/Waldo/Source/Waldo/Private/Command/WaldoCommandDecoder.cpp:9-29 | the fields of a registration, or nothing for another command |
| `HostStateMachine.WaldoCommandDecoder.DecodeMessage` | Plugins/Waldo/Source/Waldo/Private/Command/WaldoCommandDecoder.cpp:44-59 | the message character by character, or nothing for another command |
| `HostStateMachine.WaldoCommandEncoder.EncodeMessage` | Plugins/Waldo/Source/Waldo/Private/Command/WaldoCommandEncoder.cpp:16-28 | the characters cut to their low eight bits |
| `HostStateMachine.MessageRoundTrip` | Plugins/Waldo/Source/Waldo/Private/Command/WaldoCommandEncoder.cpp:16-28 | a message survives encoding and decoding if and only if all its characters fit in a byte |
| `HostProtocol.RunFollowsProtocol` | Plugins/Waldo/Source/Waldo/Private/State/WaldoHostStateMachine.cpp:71-200 | in every run: values and frame ends only inside a frame that was neither ended, reset nor disconnected since its start; registrations and frame starts only after a reset on this connection, outside frames; the state is in or between frames exactly when the broadcasts say so |
| `HostProtocol.CommandsTakeEffect` | Plugins/Waldo/Source/Waldo/Private/State/WaldoHostStateMachine.cpp:71-200 | in every run, from the broadcasts before it alone, what each command broadcasts and acknowledges: a value in a frame its id and value bytes; a registration between frames id, pin, kind and name; a frame start between frames; a message anywhere; an acknowledged reset anywhere and frame end in a frame; and nothing else |
| `HostProtocol.SilencesAndConnections` | Plugins/Waldo/Source/Waldo/Private/State/WaldoHostStateMachine.cpp:12-46 | in every run a connection broadcasts only that, and a timeout comes only after too long a silence, broadcasts nothing and sends at most a reset request |
| `HostProtocol.AcksMatchBroadcasts` | Plugins/Waldo/Source/Waldo/Private/State/WaldoHostStateMachine.cpp:71-200 | in every run the successful acknowledgements match resets and frame ends one for one, in order |
| `HostProtocol.SilenceMeasured` | Plugins/Waldo/Source/Waldo/Private/State/WaldoHostStateMachine.cpp:12-69 | in every run the silence is measured from the last connection, command or reset request that was sent |
| `HostStateMachine.FailsExact` | Plugins/Waldo/Source/Waldo/Private/State/WaldoHostStateMachine.cpp:22-69 | in every run exactly the reset requests, resets and frame ends in a frame whose send failed end the connection |
| `HostProtocol.TimeoutsAreSpaced` | Plugins/Waldo/Source/Waldo/Private/State/WaldoHostStateMachine.cpp:22-69 | k >= 1 reset requests since a connection take more than k times the maximum silence |
| `HostStateMachine.WaldoHostStateMachine.Reset` | Plugins/Waldo/Source/Waldo/Private/State/WaldoHostStateMachine.cpp:12-20 | awaits a reset on the new port; bytes left in the framer stay there; the connection starts intact |
| `HostStateMachine.WaldoHostStateMachine.Process` | Plugins/Waldo/Source/Waldo/Private/State/WaldoHostStateMachine.cpp:71-200 | one command leads to exactly the state, broadcast and outcome of the protocol, and takes effect only if its acknowledgement was written in full; without one nothing is written |
| `HostStateMachine.WaldoHostStateMachine.CheckSilence` | Plugins/Waldo/Source/Waldo/Private/State/WaldoHostStateMachine.cpp:29-46 | asks for a reset exactly after a silence longer than the maximum, dropping the partial command and keeping the protocol state |
| `HostStateMachine.WaldoHostStateMachine.Tick` | Plugins/Waldo/Source/Waldo/Private/State/WaldoHostStateMachine.cpp:22-69 | terminates; its steps are a legal continuation of the run; the commands handled head the parse of the stream, what is left gives the rest of it, and a timeout loses exactly the waiting part of one command; fails exactly when a needed send failed; otherwise it has read all that arrived, written exactly the commands it records as sent, and kept the connection intact |
| `HostStateMachine.DeviceReceives` | Plugins/Waldo/Source/Waldo/Private/Command/WaldoCommandByteStream.cpp:55-97 | the device parses what the host has sent back into exactly the commands sent, in order |
| `HostStateMachine.WaldoHostStateMachine.DeviceSees` | Plugins/Waldo/Source/Waldo/Private/State/WaldoHostStateMachine.cpp:71-200 | over an intact connection the device parses exactly the commands sent since it began, and the acknowledgements among them match the resets and frame ends broadcast since, in order |
| `Delivery.JoinExact` | Plugins/Waldo/Source/Waldo/Private/Components/WaldoComponent.cpp:190-213 | the calls of a frame are, in order and with multiplicity, one for every match of a registered input, a value with its id and a living binding of its name, in whatever case, sorted by input, value and binding |
| `Delivery.SameLabelExact` | Plugins/Waldo/Source/Waldo/Private/Components/WaldoComponent.cpp:200-204 | labels are the same exactly when they differ at most in the case of the letters A to Z |
| `FrameHistory.RegisteredExact` | Plugins/Waldo/Source/Waldo/Private/Components/WaldoComponent.cpp:158-172 | the inputs a frame end sees are, in order, exactly those registered with no reset after them |
| `FrameHistory.ReceivedExact` | Plugins/Waldo/Source/Waldo/Private/Components/WaldoComponent.cpp:174-184 | the values it sees are, in order, exactly those received with no frame start after them |
| `FrameHistory.BoundExact` | Plugins/Waldo/Source/Waldo/Private/Components/WaldoComponent.cpp:76-94 | the bindings it sees are, in order, exactly those not unbound, in any spelling, after they were made |
| `FrameHistory.DestroyedExact` | Plugins/Waldo/Source/Waldo/Private/Components/WaldoComponent.cpp:204-208 | the delegates it leaves out are exactly those destroyed at some time before |
| `FrameHistory.FrameCallsExact` | Plugins/Waldo/Source/Waldo/Private/Components/WaldoComponent.cpp:186-213 | the calls of a frame end are, in order and with multiplicity, one for every registration, value and binding of the history that still stand and belong together |
| `FrameHistory.EveryDelivery` | Plugins/Waldo/Source/Waldo/Private/Components/WaldoComponent.cpp:107-218 | everything delivered over any history falls, in order, into one piece for each action, and each piece is exactly what the action owes after those before it |
| `Delivery.CollectedInFrame` | Plugins/Waldo/Source/Waldo/Private/Components/WaldoComponent.cpp:158-184 | inside a frame, what was collected is what came since the frame started, also after aborted frames and reconnects |
| `WaldoComponent.WaldoComponent.Connect` | Plugins/Waldo/Source/Waldo/Private/Components/WaldoComponent.cpp:12-45 | connects unless connected or the port does not open |
| `WaldoComponent.WaldoComponent.Disconnect` | Plugins/Waldo/Source/Waldo/Private/Components/WaldoComponent.cpp:54-74 | disconnects if connected |
| `WaldoComponent.WaldoComponent.UnbindDelegateForInput` | Plugins/Waldo/Source/Waldo/Private/Components/WaldoComponent.cpp:84-94 | removes every binding of this delegate to the label, in whatever case, and leaves the connection as it was |
| `Delivery.UnbindSilences` | Plugins/Waldo/Source/Waldo/Private/Components/WaldoComponent.cpp:84-94 | after unbinding, the delegate is called for no spelling of the label, and the calls for every other label are as before |
| `WaldoComponent.RemoveBindings` | Plugins/Waldo/Source/Waldo/Private/Components/WaldoComponent.cpp:84-94 | the backwards removal loop keeps exactly the bindings with another label or delegate, in order |
| `WaldoComponent.WaldoComponent.HandleFrameEnd` | Plugins/Waldo/Source/Waldo/Private/Components/WaldoComponent.cpp:186-218 | the calls at a frame end, between its two broadcasts, are in order one for every registration with no reset after it, value with no frame start after it and standing binding that belong together |
| `WaldoComponent.WaldoComponent.DeliverFrame` | Plugins/Waldo/Source/Waldo/Private/Components/WaldoComponent.cpp:186-218 | the nested loops perform the calls of the join, in order, between the two frame broadcasts |
| `WaldoComponent.WaldoComponent.Explained` | Plugins/Waldo/Source/Waldo/Private/Components/WaldoComponent.cpp:107-218 | at any time all that the component has delivered is, piece by piece, what each action of its history owed |
| `WaldoComponent.WaldoComponent.TickComponent` | Plugins/Waldo/Source/Waldo/Private/Components/WaldoComponent.cpp:107-126 | a tick adds to the history exactly the host's new broadcasts in order, and a disconnection exactly when a send failed; everything ever delivered is what the history says; of the stream a timeout loses exactly the waiting part of one command; the connection stays intact |
| `Session.SessionParsed` | Plugins/Waldo/Source/Waldo/Private/Command/WaldoCommandByteStream.cpp:28-52 | the literal bytes of a short session parse to its five commands |
| `Session.SessionBroadcasts` | Plugins/Waldo/Source/Waldo/Private/State/WaldoHostStateMachine.cpp:71-200 | those commands are a run of the host with exactly the expected broadcasts and acknowledgement bytes |
| `Session.SessionDelivered` | Plugins/Waldo/Source/Waldo/Private/Components/WaldoComponent.cpp:158-218 | those broadcasts deliver exactly one call, with the value, to a delegate bound to the label in another case |
| `ThreadPoolRuns.TasksConserved` | Plugins/Developer/RiderLink/Source/RD/thirdparty/CTPL/include/ctpl_stl.h:45-68 | in every interleaving, with any stop, each pushed task is in exactly one place: queued, held by one worker, run or discarded |
| `ThreadPoolOrder.FirstInFirstTaken` | Plugins/Developer/RiderLink/Source/RD/thirdparty/CTPL/include/ctpl_stl.h:45-62 | in every interleaving, with any workers and any stop, the queue is the last tasks pushed, in order, and the tasks in hand, run or discarded are exactly all the earlier ones |
| `ThreadPoolOrder.OneWorkerInTurn` | Plugins/Developer/RiderLink/Source/RD/thirdparty/CTPL/include/ctpl_stl.h:209-234 | with one worker and no stop(false), in every interleaving what has run is a prefix of what was pushed, followed by the task in hand, the discarded ones and the queue |
| `ThreadPoolOrder.OneWorkerInOrder` | Plugins/Developer/RiderLink/Source/RD/thirdparty/CTPL/include/ctpl_stl.h:136-157 | with one worker and any stop, tasks run in the order of their pushes |
| `ThreadPoolRuns.NoWakeupLost` | Plugins/Developer/RiderLink/Source/RD/thirdparty/CTPL/include/ctpl_stl.h:209-234 | in every interleaving, with any stop: while a worker sleeps or is about to, there is for every queued task an idle worker about to look or a pusher about to notify, so no task waits behind a busy worker |
| `ThreadPool.NoStall` | Plugins/Developer/RiderLink/Source/RD/thirdparty/CTPL/include/ctpl_stl.h:209-234 | while tasks are queued and a worker is left, a step other than a spurious wakeup, a new push, worker or stop is enabled |
| `ThreadPoolRuns.PoolComesToRest` | Plugins/Developer/RiderLink/Source/RD/thirdparty/CTPL/include/ctpl_stl.h:209-234 | from every reachable running pool, in every interleaving, all steps of workers and pushers but spurious wakeups are bounded by the queue, the workers and the pushes under way, plus fixed costs for each new push, spurious wakeup and new worker |
| `ThreadPoolRuns.RestMeansDone` | Plugins/Developer/RiderLink/Source/RD/thirdparty/CTPL/include/ctpl_stl.h:209-234 | in a running pool with a worker where none of these steps is enabled, every push has returned and every pushed task has run exactly once |
| `ThreadPoolRuns.DrainComplete` | Plugins/Developer/RiderLink/Source/RD/thirdparty/CTPL/include/ctpl_stl.h:142-170 | after stop(true) has joined the workers, a task that was sure when it began (among them every task whose push had returned) has run exactly once if and only if the pool has a worker |
| `ThreadPoolRuns.StopRunsQueued` | Plugins/Developer/RiderLink/Source/RD/thirdparty/CTPL/include/ctpl_stl.h:136-170 | exactly when every way in which stop(true) can end has run a task that is in the queue when it is called: there is a worker, and not just one that has this moment found the queue empty while the push has yet to take the mutex; so two workers are enough, and so is one if the push has returned |
| `ThreadPoolRuns.TwoWorkersSuffice` | Plugins/Developer/RiderLink/Source/RD/thirdparty/CTPL/include/ctpl_stl.h:136-170 | with two workers stop(true) always runs what is in the queue when it is called |
| `ThreadPoolRuns.QueuedTaskDiscarded` | Plugins/Developer/RiderLink/Source/RD/thirdparty/CTPL/include/ctpl_stl.h:136-170 | a reachable pool with one worker and one queued task that stop(true) can discard |
| `ThreadPool.StopNeverHangs` | Plugins/Developer/RiderLink/Source/RD/thirdparty/CTPL/include/ctpl_stl.h:142-170 | until a stop has finished, a step of those at work is enabled |
| `ThreadPoolRuns.StopTakesBoundedSteps` | Plugins/Developer/RiderLink/Source/RD/thirdparty/CTPL/include/ctpl_stl.h:142-198 | from the moment a stop has woken the workers, in every interleaving workers and stopper take at most 6 steps per task queued or pushed later, 10 per worker and 3 more |
| `ThreadPoolOrder.StopAccounts` | Plugins/Developer/RiderLink/Source/RD/thirdparty/CTPL/include/ctpl_stl.h:139-170 | in every interleaving of a stop of either kind, when it has ended every task pushed before it has either run exactly once or been discarded exactly once, and stop(false) has taken all of these out of the queue before it wakes the workers |
| `ThreadPoolOrder.StopNowRunsFew` | Plugins/Developer/RiderLink/Source/RD/thirdparty/CTPL/include/ctpl_stl.h:139-148 | once stop(false) has set the flags, in every interleaving each worker runs at most one more task, whatever is queued or pushed |
| `ThreadPoolRuns.EmptyPoolDiscards` | Plugins/Developer/RiderLink/Source/RD/thirdparty/CTPL/include/ctpl_stl.h:161-169 | a reachable pool without workers whose one task, its push returned, stop(true) discards |
| `ThreadPoolRuns.LateTaskDiscarded` | Plugins/Developer/RiderLink/Source/RD/thirdparty/CTPL/include/ctpl_stl.h:139-157 | a task pushed during stop(true) can be discarded although a worker was there |
| `ThreadPool.InvNext` | Plugins/Developer/RiderLink/Source/RD/thirdparty/CTPL/include/ctpl_stl.h:142-234 | every atomic step of pushers, workers, stopper and growing keeps mutual exclusion, conservation, no lost wakeup, the drain invariant, and that no woken worker goes back to sleep during a stop |
| `Utf.ReadWritten` | Plugins/Developer/RiderLink/Source/RD/thirdparty/utf-cpp/include/ww898/cp_utf8.hpp:70-155 | reading back a written code point, whatever follows it, for all code points below 2^31 in UTF-8 and all scalar values in UTF-16 |
| `Utf.WriteRead16` | Plugins/Developer/RiderLink/Source/RD/thirdparty/utf-cpp/include/ww898/cp_utf16.hpp:70-106 | what was read from UTF-16 is written back as it was |
| `Utf8Forms.WriteRead8` | Plugins/Developer/RiderLink/Source/RD/thirdparty/utf-cpp/include/ww898/cp_utf8.hpp:70-155 | a code point read from UTF-8 can be written, and takes the units it was read from, or fewer exactly if its form was overlong |
| `Utf.ReadBits16` | Plugins/Developer/RiderLink/Source/RD/thirdparty/utf-cpp/include/ww898/cp_utf16.hpp:70-85 | a unit outside the surrogates is its own code point; a pair gives 0x10000 plus the low ten bits of each unit |
| `Utf.WriteBits16` | Plugins/Developer/RiderLink/Source/RD/thirdparty/utf-cpp/include/ww898/cp_utf16.hpp:87-106 | a code point up to 0xFFFF is written as itself, a larger one as the upper and the lower ten bits above 0x10000 in a high and a low surrogate |
| `Utf.ReadErrors8` | Plugins/Developer/RiderLink/Source/RD/thirdparty/utf-cpp/include/ww898/cp_utf8.hpp:70-115 | exactly which ranges fail to be read with which error |
| `Utf.ReadErrors16` | Plugins/Developer/RiderLink/Source/RD/thirdparty/utf-cpp/include/ww898/cp_utf16.hpp:70-85 | exactly which ranges fail to be read with which error |
| `Utf.WriteErrors` | Plugins/Developer/RiderLink/Source/RD/thirdparty/utf-cpp/include/ww898/cp_utf16.hpp:87-106 | exactly which code points fail to be written with which error |
| `Utf8Forms.LeadingOnes` | Plugins/Developer/RiderLink/Source/RD/thirdparty/utf-cpp/include/ww898/cp_utf8.hpp:47-67 | the announced size is the number of leading ones of the first unit, up to six, or one |
| `Utf8Forms.ReadBits8` | Plugins/Developer/RiderLink/Source/RD/thirdparty/utf-cpp/include/ww898/cp_utf8.hpp:70-115 | what is read is the low bits of the first unit followed by six bits of each other unit |
| `Utf.WriteTyped` | Plugins/Developer/RiderLink/Source/RD/thirdparty/utf-cpp/include/ww898/cp_utf16.hpp:87-106 | what is written fits the character type |
| `Transcoding.DecodeEncoded` | Plugins/Developer/RiderLink/Source/RD/thirdparty/utf-cpp/include/ww898/cp_utf8.hpp:70-155 | decoding inverts encoding for every sequence of supported code points, in both encodings |
| `Transcoding.DecodeExact` | Plugins/Developer/RiderLink/Source/RD/thirdparty/utf-cpp/include/ww898/utf_converters.hpp:115-129 | decoding reads each code point where the one before it ended, up to the end or the first place where nothing can be read, with the error found there |
| `Transcoding.EncodeDecoded16` | Plugins/Developer/RiderLink/Source/RD/thirdparty/utf-cpp/include/ww898/cp_utf16.hpp:70-106 | encoding inverts decoding for every valid UTF-16 range |
| `Transcoding.EncodeDecoded8` | Plugins/Developer/RiderLink/Source/RD/thirdparty/utf-cpp/include/ww898/cp_utf8.hpp:70-155 | re-encoding decoded UTF-8 decodes to the same code points and is never longer |
| `Transcoding.EncodeDecodedExact8` | Plugins/Developer/RiderLink/Source/RD/thirdparty/utf-cpp/include/ww898/cp_utf8.hpp:70-155 | re-encoding a valid UTF-8 range gives it back if and only if none of its sequences is overlong, which the first two units of each show |
| `Transcoding.OverlongAccepted` | Plugins/Developer/RiderLink/Source/RD/thirdparty/utf-cpp/include/ww898/cp_utf8.hpp:78-82 | an overlong form is decoded and not given back by re-encoding |
| `Transcoding.ConvertPreserves` | Plugins/Developer/RiderLink/Source/RD/thirdparty/utf-cpp/include/ww898/utf_converters.hpp:115-129 | what a conversion has written decodes to a prefix of the source's code points, and to all of them when it does not fail |
| `Transcoding.ConvertStops` | Plugins/Developer/RiderLink/Source/RD/thirdparty/utf-cpp/include/ww898/utf_converters.hpp:115-129 | every conversion stops exactly behind what it has written: at the end of the range, at the error that ends decoding, or at a code point the target cannot write |
| `Transcoding.ConvertSucceeds` | Plugins/Developer/RiderLink/Source/RD/thirdparty/utf-cpp/include/ww898/utf_converters.hpp:115-129 | a conversion succeeds exactly when the source is valid and the target can write all its code points |
| `Transcoding.ConvertBack` | Plugins/Developer/RiderLink/Source/RD/thirdparty/utf-cpp/include/ww898/utf_converters.hpp:115-129 | what is converted is text of the other encoding, and converted back gives the same code points: the same units for UTF-16, no more units for UTF-8 |
| `Transcoding.SizeCounts` | Plugins/Developer/RiderLink/Source/RD/thirdparty/utf-cpp/include/ww898/utf_sizes.hpp:96-114 | on every valid range the size is the number of its code points |
| `Transcoding.ValidExact` | Plugins/Developer/RiderLink/Source/RD/thirdparty/utf-cpp/include/ww898/utf_sizes.hpp:96-114 | a range is valid if and only if it has a size and in every sequence the right units follow the first |
| `Transcoding.SizeIsLenient` | Plugins/Developer/RiderLink/Source/RD/thirdparty/utf-cpp/include/ww898/utf_sizes.hpp:96-114 | a malformed range that has a size |
| `Converters.Cursor.ReadUtf8` | Plugins/Developer/RiderLink/Source/RD/thirdparty/utf-cpp/include/ww898/cp_utf8.hpp:70-115 | the step-by-step reader computes the codec, with the checked and the unchecked callback, and never passes the end |
| `Converters.Cursor.ReadUtf16` | Plugins/Developer/RiderLink/Source/RD/thirdparty/utf-cpp/include/ww898/cp_utf16.hpp:70-85 | the step-by-step reader computes the codec, with the checked and the unchecked callback, and never passes the end |
| `Converters.ConvertNormal` | Plugins/Developer/RiderLink/Source/RD/thirdparty/utf-cpp/include/ww898/utf_converters.hpp:109-130 | the checked loop computes the conversion: output, error and the output before it |
| `Converters.ConvertRandomAccess` | Plugins/Developer/RiderLink/Source/RD/thirdparty/utf-cpp/include/ww898/utf_converters.hpp:132-159 | the loop with the unchecked fast part never reads past the end and gives the same output and error as the checked loop |
| `Converters.AdvanceForward` | Plugins/Developer/RiderLink/Source/RD/thirdparty/utf-cpp/include/ww898/utf_sizes.hpp:70-81 | stepping one unit at a time succeeds exactly when enough units are left |
| `Converters.CountCodePoints` | Plugins/Developer/RiderLink/Source/RD/thirdparty/utf-cpp/include/ww898/utf_sizes.hpp:96-114 | both iterator strategies compute the size |

## Left out

- Hash table: `insert_at_position` and range erase; copy, move, swap, iterators, hints, range insertion, transparent lookups and the map and set wrappers.
- Hash table: rounding of the `float` load factor (exact reals here), the size limit of the value container itself, and the vector's own limit on buckets, which is a parameter of the table, a power of two up to 2^32.
- Hash table: the `KeyEqual` functor. Keys are compared with `==`; a key stands for its class under an equivalence that hashes alike.
- HostStateMachine.WaldoCommandDecoder.DecodeRegisterInput: requires the payload to have the bytes that the original indexes without a check; the same holds for input values.
- HostStateMachine.WaldoHostStateMachine.Tick: requires that of the commands that will reach the decoder in the state they meet, for the same reason; commands that the state ignores may have any payload.
- WaldoComponent.WaldoComponent.TickComponent: requires what `Tick` requires.
- ByteStream.WaldoCommandByteStream.Send: requires a payload of at most 249 or at least 256 bytes, because the sizes between overflow the original's fixed write buffer.
- Waldo: labels are compared as `FString` does, ignoring the case of the letters A to Z only; the engine's rules for characters beyond ASCII and for zero characters inside a string are left out.
- Waldo: a failing read after bytes were reported available; the engine's treatment of a zero character appended to a string; delegates that re-enter the component; rounding of the clock; logging, reflection, blueprint bindings, device enumeration and the platform serial ports.
- Thread pool: futures and packaged tasks, tasks that throw or never end, shrinking with `resize` and the detached threads it leaves, a client's own `pop` and `clear_queue`, concurrent or repeated calls of `stop`, the `nWaiting` counter, and scheduling fairness.
- UTF: the null-terminated forms, UTF-32, the `wchar_t` selectors and the plain copy between equal encodings. Units are values, not iterators over memory.
- RiderLink modules, generated serializers, sockets, logging and the other vendored headers, which would add plumbing only.
