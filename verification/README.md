# The message path, the sessions and the pools of miku_server

A Dafny model of the hard parts of a chat-server backend, with proofs about them:

- the **slot ring** that carries messages between threads, 0x1000 bytes to a slot, long messages chained over several slots, and its byte-granular sibling;
- the **packet formats** and the loops that cut packets out of what a socket delivers, composed with the ring into the path from a room server's stream to the client a packet is for;
- the **sessions** of the gate server: fresh keys, recycled slots, replies addressed by key;
- two protocols with accounting: login packets **parked** until their room is known, and the **MySQL connection pool**.

The objects are classes over arrays, sequences and maps, method by method as in the source. Each method is tied to a function on values (`Abs() == Offer(…)`, `Abs() == Turn(…)`), and the properties are lemmas about those functions over all runs.

| file | what it holds |
|---|---|
| `Bytes.dfy`, `Options.dfy` | bytes, the four-byte integers on the wire, sequence facts; a value or NULL |
| `Framing.dfy` | both packet formats, `Parse`, `Serialize`, `Drain` |
| `Packs.dfy` | the packet object, the envelope |
| `SlotRing.dfy`, `CircleList.dfy` | the slot ring as a queue; the object |
| `Stream.dfy`, `Jams.dfy`, `RoomServerProcessor.dfy` | the path of a stream as a state machine; for which sizes its reader never gets stuck; the reader thread |
| `CircleBuff.dfy` | the byte ring |
| `Receivers.dfy`, `GateBounds.dfy` | the receive buffers of gate and center server; for which sizes the gate server's works |
| `Forwarding.dfy`, `LoginPath.dfy`, `CenterPath.dfy` | from a client's stream to what a room server receives; by way of the parked logins; to what the center server's reader takes |
| `ResourceManager.dfy`, `Session.dfy`, `RoundRobin.dfy`, `ServerListenner.dfy` | the slot pool; sessions as a state machine; how clients are dealt out to workers; the user list and the listener |
| `Parking.dfy`, `ClientProcessor.dfy` | parked login packets as a state machine; the object |
| `MysqlConnPool.dfy` | the connection pool |

## Where the code does not do what it is for

The model follows the code. Each deviation has the exact condition under which the code is right.

- **Long messages in the slot ring** (common/circle_list.cpp:95, 101, 107). Every fragment is copied from the start of the message, so byte i becomes byte i mod 0x1000 (`SlotRing.Stored`). All messages of a length are kept intact if and only if it is at most 0x1000 (`StoredIntactIff`, `KeptAllIntactIff`), and a packet that arrives as one chunk is delivered intact if and only if it is no longer than that (`SingleChunkIntactIff`). So how the same bytes are split does not matter while every chunk fits a slot (`SplitDoesNotMatter`), and matters beyond that for every length (`SplitMatters`). Lengths, slots, order and grouping are right for every message. AddBuffer also answers false after queueing a long message (common/circle_list.cpp:138, `ReplyTruthfulIff`). `AddBufferAdvancing` is the repair, one source offset and one return value; the theorems about rings and streams are stated for both through the parameter `Copying`.
- **A damaged length field jams the reader.** The copy above can put a byte of the message's start into a length field, and then the room server's reader waits for bytes that never fit its buffer, and refuses the next chunk for good (`JammedForGood`). In terms of the bytes as sent, no run with packets of at most `longest` and chunks of at most `bound` bytes jams if and only if a packet less a byte and a chunk fit below 0x4000 bytes and, as written, a chunk fits one slot (`NeverJamsIff`). The connector reads up to 0x2000 bytes at a time (common/connector.cpp:166); one chunk of 0x1001 bytes is enough.
- **Replies and disconnects.** A reader looks a key up under the list's lock, and reads the slot's descriptor and writes to it later, without a lock (gate_server/rs_processor.cpp:107-110). A disconnect closes the descriptor before it takes the slot off the list (common/server_listenner.cpp:323-324). Look, read, write, close and release are separate steps here, with any steps of other threads in between. The reply reaches the connection its key was issued to, and no other, if and only if the slot's descriptor is open at the look and not closed before the write (`ReplyReachesOwnerIff`). Otherwise it can reach another client, in two ways: the slot was given to the next client by then (`StaleReply`), or the kernel gave the closed descriptor to the next client while the key was still listed (`ReusedDescriptor`). The lookup itself never confuses two keys (`KeyNeverRebinds`).
- **Round robin.** Keys are dealt out evenly (`KeysBalanced`, `EveryoneOnce`), but an accept that finds no free slot uses up a key without a client (common/server_listenner.cpp:278-280). Clients are dealt out evenly while no key is wasted (`ClientsBalanced`); otherwise the difference between any two workers grows without bound, whatever the size of the pool (`Skewed`).
- **Reading the byte ring whole** (common/circle_buff.cpp:131, 143). A full ring copies nothing and a wrapped one loses its first part: `GetBuffRightIff`, `WrongRead`. A partial read of a full ring can run past the buffer (common/circle_buff.cpp:101): `OutsideOnlyWhenFull`, `OutsideIsReachable`. AddBuff is right as written. `GetBuffRepaired` is the repair; `RunFifo` is stated for both through the parameter `Reading`.
- **The gate server's shift** (gate_server/user_info_list.cpp:84) moves 0x1000 - len bytes whatever is buffered. Over whole runs from a new connection every stream of packets of at most `longest` bytes, read at most `read` bytes at a time, is cut right if and only if a packet less a byte and a read fit 0x1000 bytes, or `longest` is 0xFF6 or 0xFF7 and `read` at most 12: there the bytes not moved are zeros where zeros belong (`GateRightIff`).
- **The center server's queueing** (center_server/client_info_list.cpp:77) copies from the last read instead of the receive buffer: of the packets that its loop can cut off, those that start where the last read starts are queued right, and no others (`CenterQueuesRightIff`). Queueing from the receive buffer is the repair: over every run what the reader took and what is queued are then exactly the packets of the stream (`RepairDelivers`); what the reader takes parses to them (`TakenParses`).
- **The center server's reader** takes only messages of less than 0x2000 bytes (center_server/rs_processor.cpp:108), while the receive buffer lets packets through up to about 0x3000. As written and repaired alike the reader can always empty a client's ring if and only if packets are shorter than 0x2000 bytes (`EmptiesAlwaysIff`); a longer one blocks that client for good (`BlockedForGood`).
- **An empty packet at the end of a stream** is held back, because 18 buffered bytes are not looked at: `DeliveredInFullIff`.
- **Parked packets** share the slot ring's copy, so the sender's key at the end of a message survives for every client packet of a size and every key if and only if the packet is at most 0xFFC bytes (`ParkedIntactIff`); for every longer one there is a key that is damaged (`KeyDamaged`). Packets of up to 0x1000 are parked.
- **Releasing a connection not on loan** breaks the pool's count, and nothing else does: `ReleaseAccountsIff`.

A length field above 2^31-19 makes `ByteSize()` overflow a signed int. The parse has a third outcome for it, `Overflow`; methods that would go on from there require it not to happen, and nothing is said about what follows. Over whole runs within the sizes of `NeverJams` (with chunks that the ring keeps intact), `NothingDiscarded`, `GateBounds.RunRight` and `WorkerNeverStuck` it never does.

## Model

| member | source | states |
|---|---|---|
| Framing.SerializedIff | packet/gs_rs_packet.pb.cpp:109-125 | a serialized packet is the one string of its length that has the head at 0, the three little-endian integers at 3, 7 and 11, the data at 15 and the tail behind it |
| Framing.ParsedIff | packet/cyt_packet.pb.cpp:86-108 | a parse yields a packet if and only if its fields lie at those places and its length field, at 7 for a client packet and at 11 for an envelope, is the length of its data |
| Framing.RefusedIff | packet/cyt_packet.pb.cpp:88-101 | bytes are refused if and only if they are too few for a packet or for the length announced, or that is negative |
| Framing.ParseSerialized | packet/gs_rs_packet.pb.cpp:85-125 | a serialized packet, followed by anything, parses back to every one of its fields |
| Framing.SerializeParsed | packet/cyt_packet.pb.cpp:86-131 | a parsed packet is well formed and serializes to exactly the bytes it was cut from |
| Framing.ParseStable | packet/gs_rs_packet.pb.cpp:92-106 | a decision other than refusal stands when more bytes arrive |
| Framing.IncompleteRefused | packet/cyt_packet.pb.cpp:88-101 | a packet of which any bytes are missing is refused |
| Framing.UniqueFraming | packet/gs_rs_packet.pb.cpp:109-130 | two lists of packets with the same bytes are the same list |
| Framing.DrainSplit | gate_server/rs_processor.cpp:93-105 | chunk independence: for all byte strings, draining at each arrival delivers and leaves what draining the whole does |
| Framing.DrainConserves | gate_server/rs_processor.cpp:93-105 | packets and rest, serialized, are exactly the bytes drained |
| Framing.DrainIdempotent | gate_server/rs_processor.cpp:95-102 | what is left over delivers nothing by itself |
| Framing.DrainOfPackets | gate_server/rs_processor.cpp:95-105 | a list of packets on the wire is delivered as that list, but for an empty packet at the end |
| Framing.DeliveredInFullIff | gate_server/rs_processor.cpp:95-96 | everything is delivered if and only if the last packet carries data |
| Framing.ResidueBound | gate_server/rs_processor.cpp:95-105 | on any prefix of a stream of bounded packets, less than one packet is held back and a prefix of the packets delivered |
| Packs.Pack.ParseFromArray | packet/gs_rs_packet.pb.cpp:85-107 | after a parse the fields are what lies at their places in the array; a refused parse has overwritten head and integers only |
| Packs.Pack.SerializeToArray | packet/cyt_packet.pb.cpp:110-126 | each field is at its place in the array and nothing behind the packet changes, or nothing at all if the length is short |
| Packs.Wrap | gate_server/user_info_list.cpp:100-108 | the send buffer holds head 123, key, gate key 0, length, data and tail 456, each at its place |
| Packs.EnvelopeTransparent | gate_server/user_info_list.cpp:78-111 | unwrapping yields the key, gate key 0, both ends and the client's bytes, which parse to the client's packet |
| Forwarding.RoomReceives | gate_server/user_info_list.cpp:86-115 | what is written to a room's socket, from any number of connections, drains to one envelope for each packet routed there, in order, with nothing left over |
| Forwarding.StreamReachesRooms | gate_server/user_info_list.cpp:53-118 | over every run of a connection within the sizes of `GateRightIff`: the packets routed are those of the stream, and each room gets its own, one envelope each, with the user's key and bytes that parse to the packet |
| Forwarding.AllDone | gate_server/user_info_list.cpp:86-115 | for packets of any number of connections: those of known rooms are forwarded, in order; logins to unknown rooms are parked, in order, with their bytes, room and key, each right after a query for its room; nothing else is done |
| Forwarding.RunDone | gate_server/user_info_list.cpp:53-118 | the same over every run of a connection, whatever it sends and whichever rooms are known when |
| LoginPath.LoginReachesRoom | gate_server/cl_processor.cpp:62-148 | over every run of connections and of the parking they feed: what is sent on is one of the logins cut off, to the room it names, and if packet and key fit a slot with its sender's key and bytes that parse to it |
| LoginPath.NoLoginLost | gate_server/cl_processor.cpp:62-148 | if the ring never overflows, each login cut off is in exactly one place and none is lost |
| SlotRing.FragmentCount | common/circle_list.cpp:80-85 | a message takes as many slots as AddBuffer's arithmetic says |
| SlotRing.FragmentAt | common/circle_list.cpp:90-109 | slot i holds the i-th 0x1000 bytes and has a child unless it is the last |
| SlotRing.OfferedIff | common/circle_list.cpp:71-139 | a message is queued, last, if and only if its length over 0x1000, rounded up, slots are free, and takes that many; byte i of what is queued is byte i % 0x1000 as written, byte i if the copy advances |
| SlotRing.DecodeAll | common/circle_list.cpp:155-186 | the slots of a queue decode to that queue and no other |
| SlotRing.StoredIntactIff | common/circle_list.cpp:90-109 | messages of a length are all stored intact if and only if they fit one slot |
| SlotRing.StoredIdempotent | gate_server/cl_processor.cpp:120 | queueing again what was read does no further damage |
| SlotRing.KeptAllIntactIff | common/circle_list.cpp:71-139 | lists of messages of given lengths are kept intact if and only if each fits one slot or the copy advances |
| SlotRing.ReplyTruthfulIff | common/circle_list.cpp:138 | the reply says what happened if and only if no long message found room |
| SlotRing.Fifo | common/circle_list.cpp:71-192 | over every run: messages read, then messages queued, are the messages accepted, as the ring stores them, in order |
| SlotRing.RunFits | common/circle_list.cpp:86-89 | over every run the slots in use stay within the ring |
| SlotRing.EmptiedIff | common/circle_list.cpp:166-167 | as many reads as messages empty the ring if and only if all are shorter than the limit |
| SlotRing.BlockedStays | common/circle_list.cpp:166-167 | refused reads leave the ring unchanged, however many |
| CircleLists.CircleList.constructor | common/circle_list.cpp:23-38 | an empty ring of the given size; none for a size of 0 or less |
| CircleLists.CircleList.InitBuffer | common/circle_list.cpp:54-69 | an empty ring of the given size |
| CircleLists.CircleList.ReleaseBuffer | common/circle_list.cpp:194-201 | the queue becomes empty, the capacity stays |
| CircleLists.CircleList.PutParts | common/circle_list.cpp:90-116 | the loop appends the fragments of the stored message, across the wrap |
| CircleLists.CircleList.AddBuffer | common/circle_list.cpp:71-139 | the queue gains the stored message if there is room and is unchanged if not; the reply |
| CircleLists.CircleList.AddBufferAdvancing | common/circle_list.cpp:71-139 | the repaired form: appends the message itself, and says so |
| CircleLists.CircleList.MeasureHead | common/circle_list.cpp:152-168 | the first pass stops at the end of the first message and announces its length and slots |
| CircleLists.CircleList.CopyHead | common/circle_list.cpp:170-186 | the second pass visits the same slots, copies the message and leaves the other slots alone |
| CircleLists.CircleList.GetBuffer | common/circle_list.cpp:141-192 | removes and returns exactly the head of the queue, or changes nothing |
| Stream.TurnKeeps | gate_server/rs_processor.cpp:84-105 | one turn of the reader keeps the bytes accounted for and the reader where the stream says |
| Stream.RunConserves | gate_server/rs_processor.cpp:81-116 | over every run: bytes accepted, as stored, are bytes delivered, buffered and queued, in order |
| Stream.StreamFidelity | gate_server/rs_processor.cpp:81-116 | delivered packets are a prefix of the packets of the stream as stored, all of them once the ring is empty |
| Stream.SplitDoesNotMatter | gate_server/rs_processor.cpp:81-116 | two runs that accepted the same bytes, as sent, deliver the same and keep the same, however split and interleaved, if every chunk fits a slot or the copy advances |
| Stream.SplitMatters | common/circle_list.cpp:90-109 | as written, for every length over a slot that one read can have: a packet that arrives in two chunks and not in one |
| Stream.SentIsDecoded | common/circle_list.cpp:118-132 | with chunks of at most one slot, or the advancing copy, the stream decoded is the stream sent |
| Stream.NeverJams | gate_server/rs_processor.cpp:84-105 | over every run, in terms of the bytes as sent, with chunks the ring keeps intact and a packet less a byte and a chunk below 0x4000: less than one packet stays buffered, the packets delivered are the first of the stream, no chunk is refused and no length field is out of range |
| Jams.NeverJamsIff | gate_server/rs_processor.cpp:84-105 | for which longest packet and longest chunk no run ever jams, whatever is sent: if and only if they are below the buffer and, as written, a chunk fits one slot |
| Jams.JammedForGood | gate_server/rs_processor.cpp:84-88 | a chunk once refused is refused for ever, whatever arrives: nothing more is delivered |
| Stream.CatchUp | gate_server/rs_processor.cpp:81-116 | after every such run as many turns as chunks waiting empty the ring and deliver every packet that is complete in the bytes sent |
| Stream.EverythingArrives | gate_server/rs_connector.cpp:28-44 | whole packets sent in chunks the ring keeps intact are exactly the packets delivered |
| Stream.SingleChunkIntactIff | common/connector.cpp:166-180 | a packet arriving as one chunk is delivered intact if and only if it fits one slot or the copy advances |
| RoomServerProcessors.RoomServerProcessor.CutPackets | gate_server/rs_processor.cpp:93-116 | the inner loop leaves the drain's rest, delivers its packets and writes their replies, whatever the list holds at each look and the slots at each read of a descriptor |
| RoomServerProcessors.RoomServerProcessor.Turn | gate_server/rs_processor.cpp:81-117 | one turn of the thread is one turn of the stream machine, with the replies of the packets it delivered |
| RoomServerProcessors.ReplyReachesOwnerIff | gate_server/rs_processor.cpp:107-115 | a packet is answered if and only if its key finds a slot; the answer reaches the connection the key was issued to and no other if and only if the descriptor is open at the look and not closed before the write |
| RoomServerProcessors.RepliesReachOwners | gate_server/rs_processor.cpp:107-115 | while that holds for every packet of a turn, the replies are exactly one for each packet whose connection is served, on the descriptor it was accepted with, in order |
| CircleBuffs.AddAppends | common/circle_buff.cpp:51-90 | AddBuff appends all of its bytes or none, in every state |
| CircleBuffs.GetRemoves | common/circle_buff.cpp:92-150 | GetBuff takes the prefix of length min(asked, stored) off the ring |
| CircleBuffs.RunRefines | common/circle_buff.cpp:51-160 | over every run the two pointers and the count stand for one bounded byte queue |
| CircleBuffs.RunFifo | common/circle_buff.cpp:51-150 | over every run without a reset: bytes handed out, then bytes held, are the bytes held and accepted, in order; with the repaired read always, as written while every read is in a state that copies right |
| CircleBuffs.RepairIsRight | common/circle_buff.cpp:92-150 | the repaired read hands over the oldest bytes and takes them off, in every state |
| CircleBuffs.GetBuffRightIff | common/circle_buff.cpp:128-148 | the bytes copied are the oldest ones, for all contents, if and only if the state is one of those listed |
| CircleBuffs.WrongCopyIs | common/circle_buff.cpp:128-148 | what is handed over in the other states, byte by byte |
| CircleBuffs.WrappedRing | common/circle_buff.cpp:51-126 | a run that leaves the ring wrapped |
| CircleBuffs.WrongRead | common/circle_buff.cpp:138-147 | reading that ring whole returns bytes that are not its contents |
| CircleBuffs.OutsideOnlyWhenFull | common/circle_buff.cpp:101-106 | a partial read leaves the buffer if and only if the ring is full, unwrapped and the read passes its end |
| CircleBuffs.OutsideIsReachable | common/circle_buff.cpp:101-106 | a run that comes to such a read |
| CircleBuffs.CircleBuff.AddBuff | common/circle_buff.cpp:51-90 | the object does what `Add` says; contents and reply |
| CircleBuffs.CircleBuff.GetBuff | common/circle_buff.cpp:92-150 | the object does what `Get` and `Copied` say; right bytes when the state allows |
| CircleBuffs.CircleBuff.GetBuffRepaired | common/circle_buff.cpp:92-150 | the repaired form: the oldest bytes, whatever the state |
| CircleBuffs.CircleBuff.ResetBuff | common/circle_buff.cpp:152-160 | the ring becomes empty |
| Receivers.NothingDiscarded | center_server/client_info_list.cpp:52-87 | while a packet less a byte and a read fit the buffer: over every run the reset branch never runs, no byte is lost and no length field is out of range |
| Receivers.NothingDiscardedIff | center_server/client_info_list.cpp:53-62 | for which longest packet and longest read no run of a new connection discards anything: if and only if, for the size of the buffer |
| Receivers.StartsOver | center_server/client_info_list.cpp:57-62 | after a read that does not fit, over every further run, the reader goes on as a new one given that read alone |
| Receivers.GateStartsOver | gate_server/user_info_list.cpp:58-67 | the same for the gate server's reader |
| Receivers.ShiftedAt | gate_server/user_info_list.cpp:83-84 | which byte stands where after the gate server's shift |
| GateBounds.GateRightIff | gate_server/user_info_list.cpp:53-118 | for which longest packet and longest read every stream from a new connection is cut as it should be: if and only if, for the sizes of the buffers |
| GateBounds.RunRight | gate_server/user_info_list.cpp:53-118 | within those bounds, over every run: the stream's packets are delivered, nothing is discarded and no read meets a packet that has no meaning |
| Receivers.CutAtIsDelivered | center_server/client_info_list.cpp:66-81 | the packet that the loop cuts off at a position is the next one delivered after those whose bytes come before it |
| Receivers.CenterQueuesRightIff | center_server/client_info_list.cpp:75-79 | for any place and size at which the loop can cut a packet: it is queued right, whatever the bytes, if and only if it starts where the last read starts |
| Receivers.QueuedBytes | center_server/client_info_list.cpp:51-77 | byte i of what is queued is byte i % 0x1000 of the last read, and 0 beyond it |
| CenterPath.RunFifo | center_server/client_info_list.cpp:66-87 | as written and repaired, over every run of reads and turns: the messages taken, then queued, are those offered for the packets cut off, one each, as the ring stores them, in order |
| CenterPath.AsWritten | center_server/client_info_list.cpp:75-79 | the offers of that machine, with the last read as the source, are those that `ClientInfoEx.DealWithData` makes |
| CenterPath.RepairDelivers | center_server/client_info_list.cpp:66-87 | repaired, over every run: taken and queued are exactly the packets of the stream that are complete, one message each, in order, if the ring keeps them intact |
| CenterPath.TakenParses | center_server/rs_processor.cpp:106-117 | repaired: message i that the reader takes parses to packet i of the stream |
| CenterPath.EmptiesAlwaysIff | center_server/rs_processor.cpp:108 | as written and repaired: the reader can empty the ring after every run if and only if packets are shorter than 0x2000 bytes |
| CenterPath.BlockedForGood | center_server/rs_processor.cpp:106-112 | a longer message at the head stays there over every run, and nothing is taken |
| Receivers.UserInfoEx.DealWithData | gate_server/user_info_list.cpp:53-118 | one read is one step of the gate reader; each packet is forwarded, parked or dropped by its room and type |
| Receivers.ClientInfoEx.DealWithData | center_server/client_info_list.cpp:48-88 | one read is one step of the reader; one message is offered to the ring for each packet |
| Pools.NeverHeldTwice | common/resource_manager.h:65-94 | for every sequence of gets and puts, double and foreign puts included, the block stays partitioned and no slot is held twice |
| Pools.FirstBackFirstOut | common/resource_manager.h:65-94 | over every run slots go out in the order in which they came back, after those free before |
| ResourceManagers.UserResourceManager.Init | common/resource_manager.h:45-63 | every slot of the new block is free, in order |
| ResourceManagers.UserResourceManager.Get | common/resource_manager.h:65-79 | the first free slot goes out, or none |
| ResourceManagers.UserResourceManager.Put | common/resource_manager.h:81-94 | a slot in use comes back last in line; anything else is refused |
| Session.AcceptAgrees | common/server_listenner.cpp:274-297 | an accept keeps list, pool and slots in agreement; AddUserInfo never refuses its key, and the slot starts with an empty receive buffer |
| Session.AcceptUsesKeyIff | common/server_listenner.cpp:261-278 | an accept changes nothing if and only if ioctl failed or the descriptor is not positive; every other one uses up a key |
| Session.ErrorReadAgrees | common/server_listenner.cpp:308-325 | each half of a disconnect, and the whole, keeps them in agreement |
| Session.ReleasedStaysReleased | common/server_listenner.cpp:308-325 | a second error event on a released slot changes nothing |
| Session.StepValid | common/server_listenner.cpp:255-325 | every step keeps the registry in agreement with which connection each slot serves, and the descriptors of served connections distinct |
| Session.RunMirrors | common/server_listenner.cpp:294-322 | over every run the listener's own map has exactly the sessions of the list that are not being closed |
| Session.KeysIssued | common/server_listenner.cpp:274-278 | over every run the key counter grows by one for each usable accept and for nothing else |
| Session.BufferIsItsOwn | gate_server/user_info_list.cpp:43-68 | over every run in which a connection stays open its slot's buffer holds what its own last read left, whatever the others do |
| Session.LookupFindsOwner | gate_server/user_info_list.cpp:153-159 | a key finds a slot that is not being closed if and only if that slot serves the connection accepted under the key |
| Session.KeyNeverRebinds | gate_server/user_info_list.cpp:140-182 | over every run a key issued finds what it found until its slot is released, and nothing from then on |
| Session.ServesUntilClosed | common/server_listenner.cpp:308-325 | over every run a slot serves the connection of a key already issued if and only if it did and its descriptor was not closed since |
| Session.ReplyReachesOwnerIff | gate_server/rs_processor.cpp:107-115 | look, any run, read of the descriptor, any run, write: the write reaches the connection of the key, and no other, if and only if the descriptor was open at the look and not closed since; otherwise that connection is gone |
| Session.LateReply | gate_server/rs_processor.cpp:107-115 | at any time after a key was issued a reply looked up and written at once finds nobody, and nobody is served, or reaches the key's connection, whose descriptor and address the slot holds, and no other, unless its slot is being closed |
| Session.StaleReply | gate_server/rs_processor.cpp:107-110 | in any state where a key finds an open slot and none is free: a run after which the descriptor read from that slot is the next client's |
| Session.ReusedDescriptor | common/server_listenner.cpp:320-325 | in any state where a key finds an open slot and another is free: a run after which the key still finds the slot, whose closed descriptor is the next client's |
| RoundRobin.LoadIs | common/server_listenner.cpp:278-282 | how many of the first n keys each worker has |
| RoundRobin.KeysBalanced | common/server_listenner.cpp:278-282 | no worker has been given over one key more than another |
| RoundRobin.ClientsAndWaste | common/server_listenner.cpp:278-297 | over every run each key for a worker either brings it a client or is wasted for want of a slot |
| RoundRobin.ClientsBalanced | common/server_listenner.cpp:278-297 | while no key is wasted, no worker has been given over one client more than another |
| RoundRobin.Skewed | common/server_listenner.cpp:278-297 | otherwise the difference is unbounded: for every pool of at least one slot and any two workers, runs that give the one n clients more than the other, for every n that the key counter allows |
| RoundRobin.EveryoneOnce | common/server_listenner.cpp:282 | any run of as many keys as workers gives each worker exactly one |
| UserInfoLists.UserInfoList.AddUserInfo | gate_server/user_info_list.cpp:167-182 | registers the slot under a key not yet in the list, or changes nothing |
| UserInfoLists.UserInfoList.ReleaseUserInfo | gate_server/user_info_list.cpp:140-151 | the slot's key leaves the list, its fields are cleared and it goes back to the pool |
| ServerListenners.ServerListenner.AcceptAction | common/server_listenner.cpp:255-299 | one accept is one `Accept` step, and the key goes to the worker whose turn it is |
| ServerListenners.ServerListenner.ErrorRead | common/server_listenner.cpp:308-317 | one error event is one `ErrorRead`, closing the socket of the slot released, and nothing on a slot released before |
| ServerListenners.ServerListenner.Disconnect | common/server_listenner.cpp:322-323 | one `CloseSock` step |
| ServerListenners.ServerListenner.Release | common/server_listenner.cpp:324 | one `ReleaseSlot` step |
| Parking.RunAccounts | gate_server/cl_processor.cpp:62-149 | in every run each stored packet is in exactly one of queue, hand, forwarded, discarded or lost |
| Parking.RunFaithful | gate_server/cl_processor.cpp:62-149 | every message queued, held or sent is one pass through the ring of its original, however often it rotated |
| Parking.ParkedIntactIff | gate_server/cl_processor.cpp:62-75 | bytes and key of every client packet of a size are recovered, for every key, if and only if packet and key fit one slot |
| Parking.KeyDamaged | gate_server/cl_processor.cpp:62-75 | for every longer client packet there is a key that comes back as another |
| Parking.ForwardedAsParked | gate_server/cl_processor.cpp:101-148 | what is sent on carries the bytes and key of the packet stored |
| Parking.SentToOwnRoom | gate_server/cl_processor.cpp:104-123 | what is sent on goes to the room its bytes name |
| Parking.ForwardedIff | gate_server/cl_processor.cpp:123-148 | over every run: recorded as sent on is exactly what was written with success while let through, with the room, socket, key and bytes of that moment |
| Parking.DiscardedIff | gate_server/cl_processor.cpp:104-148 | over every run: discarded is exactly what was let through and had no room or failed to be written, or did not parse when taken |
| Parking.LostIff | gate_server/cl_processor.cpp:67-120 | over every run: lost is exactly what was too long, or found too few slots when it came or came back |
| Parking.OriginalIs | gate_server/cl_processor.cpp:62-75 | packet i of a run is the i-th handed over: its bytes, then the four of its key |
| Parking.PendingIs | gate_server/cl_processor.cpp:62-81 | the list holds exactly the rooms other than 0 asked for and not resolved |
| Parking.LetThroughIff | gate_server/cl_processor.cpp:112-122 | a packet is let through if and only if its room is 0 or is not being asked for |
| Parking.NothingLost | gate_server/cl_processor.cpp:72-120 | nothing is lost while the queue and the packet in hand stay within the ring |
| Parking.RunReadable | gate_server/cl_processor.cpp:96-122 | over every run in which client packets are parked, every message queued or held still parses |
| Parking.WorkerNeverStuck | gate_server/cl_processor.cpp:96-148 | with client packets of at most 0x1000 bytes the worker's preconditions hold in every run: the next message parses and its envelope fits the buffer |
| ClientProcessors.ClientProcessor.AddOneUndealPack | gate_server/cl_processor.cpp:62-75 | one `Park` step |
| ClientProcessors.ClientProcessor.DeleteRoom | gate_server/cl_processor.cpp:77-81 | one `DeleteRoom` step |
| ClientProcessors.ClientProcessor.TakePack | gate_server/cl_processor.cpp:96-110 | one `Take` step |
| ClientProcessors.ClientProcessor.CheckRoom | gate_server/cl_processor.cpp:111-117 | one `Check` step |
| ClientProcessors.ClientProcessor.Requeue | gate_server/cl_processor.cpp:118-122 | one `Requeue` step |
| ClientProcessors.ClientProcessor.Finish | gate_server/cl_processor.cpp:123-148 | one `Finish` step; the log of successful writes is, write by write, what is recorded as sent on: that socket, and an envelope with that key and those bytes |
| MysqlConnPools.RunAccounts | common/mysql_conn_pool.cpp:108-152 | in every run of honest callers the count is idle plus lent and stays within the bound, whatever the driver does |
| MysqlConnPools.ReleaseAccountsIff | common/mysql_conn_pool.cpp:143-152 | a release keeps the count right if and only if the connection was on loan or is NULL |
| MysqlConnPools.MysqlConnPool.InitConnection | common/mysql_conn_pool.cpp:31-46 | the idle connections are exactly those the driver made, in order, and counted |
| MysqlConnPools.FirstBackFirstOut | common/mysql_conn_pool.cpp:108-152 | over every run idle connections are taken off in the order in which they came back, the open ones to be lent |
| MysqlConnPools.NullIff | common/mysql_conn_pool.cpp:108-141 | NULL comes back if and only if the driver was needed and made nothing, or nothing is idle at the bound |
| MysqlConnPools.MysqlConnPool.GetConnection | common/mysql_conn_pool.cpp:108-141 | an open idle connection at the front goes out and the count stays; a closed one is dropped for what the driver makes, a failure costing a place; with none idle one is made below the bound |
| MysqlConnPools.MysqlConnPool.ReleaseConnection | common/mysql_conn_pool.cpp:143-152 | one `Release` step |

## Left out

- Sockets, libevent callbacks, pipes, sleeps, connecting and reconnecting: incoming data are arbitrary chunks, a write() is one whole entry of a log (a partial one is only reported by the source), results of calls are inputs.
- Mutexes: each locked method is one atomic step. What the code does between them is separate steps: looking a key up, reading the slot's descriptor and writing; closing a descriptor and releasing the slot; each locked section of the worker of the parked packets. Reading or writing a single field is one step.
- Descriptors: the kernel is taken to give a new connection a descriptor that no open connection has; the sockets of room servers and files are not counted among them.
- AcceptAction is one step, though it fills the slot in before it enters it in the list, and enables events before that (common/server_listenner.cpp:283-295).
- Slots of the ring and user objects are elements of one array, updated in place; a pointer is an index. The registry side and the receiving side of a user object are two types, and the pointers list_start_, list_end_, data_start_ and data_end_ of the slot ring, which nothing reads, are dropped.
- More than 2^31-1 accepts: the key counter is a 32-bit integer that must not pass its maximum.
- Lookups with operator[] that leave a null or 0 behind count as absent.
- ReadAction, which installs the same callbacks again, and the growth of the worker index past the integer range.
- Room lookup is a map given to each step; the director-server command that resolves a room is the event DeleteRoom.
- Generated protobuf code, command classes, CommandChain, RoomManager, ChatRoom, logging, configuration, SQL, destructors and ReleaseBuff.
- CircleLists.CircleList.GetBuffer: the caller's length is left alone on refusal in the source; the model returns 0 then, which means nothing.
- ClientProcessors.ClientProcessor.Finish: requires that the envelope fit its 0x2000-byte buffer, since the source does not look.
- Receivers.UserInfoEx.DealWithData: requires packets to fit the 0x1000-byte scratch buffer, since the source does not look.
- Packs.Pack.SerializeToArray: requires ends of at least three bytes and an array with room for what is written, since the source does not look.
- CircleLists.CircleList.AddBuffer: requires a message of more than 0x1000 bytes or a block of at least one slot: on a block of none the source writes a short message outside it.
- GateBounds.GateRightIff: for packets of more than 18 and at most 0x1000 bytes; a longer one overruns the 0x1000-byte scratch buffer.
