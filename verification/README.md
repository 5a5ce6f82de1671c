# Sensor gateway core, modelled in Dafny

The gateway reads binary sensor frames from TCP clients and republishes the readings to an
MQTT broker. It runs on an edge-triggered epoll reactor. A hierarchical timing wheel drives
the broker link's heartbeat, and a fixed-block memory pool serves small allocations. This
project models the sequential core of that program as pure functions over immutable data,
and proves what the code promises about it.

| file | module | models |
|---|---|---|
| `common.dfy` | `Common` | bytes, fixed-width integers, network-order 16-bit fields (`ntohs`), `Option` |
| `packet.dfy` | `Packet` | the packed 8-byte `SensorRawPacket`, its checksum, the 10-byte wire frame |
| `broker.dfy` | `Broker` | what the gateway hands to the broker client: publishes and interest requests |
| `protocol.dfy` | `Protocol` | `Protocol::frameParse`: resynchronisation, checksum, publish loop |
| `framing.dfy` | `Framing` | the length-prefixed codecs `processMessages` (echo) and `mqttProcessMessages` (discard) |
| `connection.dfy` | `Connection` | `ConnectionHandler::handleRead` (flood guard), `handleWrite` (send drain) |
| `epoll.dfy` | `Epoll` | event masks and the kernel interest table as `epoll_ctl` changes it |
| `reactor.dfy` | `Reactor` | `register_`, `remove`, `update`, dispatch in `loop` / `mqttLoop`, `mqttRegister`, the heartbeat |
| `timewheel.dfy` | `TimeWheel` | the five-level timing wheel: add, cancel, re-add, cascade, level-1 expiry, clear |
| `memorypool.dfy` | `MemoryPool` | the fixed-block pool: construction, page expansion, LIFO free list, ownership test |

Operating-system calls are replaced by inputs, and nothing in the model performs I/O:
- `recv` and `send` results are a script: the chunks or counts delivered, then how the loop ended.
- The clock `get_monotonic_ms` is an explicit `now`. `reAddTimer` reads the clock again; the
  model uses the `now` of the tick that calls it.
- A page returned by `new char[]` and an address returned by `malloc` are parameters.
- What a handler does to the reactor while it is dispatched is a function parameter, so dispatch
  is proved for every handler.
- Pointers become numbers: timer nodes are ids handed out by the wheel, broker handlers are
  numbered links, and memory addresses are naturals.
- The broker client's answers are a constant record: document built, publish succeeded, output
  queued, and the client's socket.

## Model

| member | source | states |
|---|---|---|
| Common.BE16RoundTrip | memorypool_for_cJSON/protocol.cpp:21-23 | reading two bytes in network order and writing the value back gives the same two bytes |
| Common.BE16Injective | memorypool_for_cJSON/protocol.cpp:21-23 | two different byte pairs never read as the same 16-bit length or field |
| Packet.Encode | memorypool_for_cJSON/packet.h:5-13 | a payload is exactly 8 bytes: deviceId at byte 0, rawTemp at 1-2 and rawHumi at 3-4 big-endian, statusCode at 5, checksum at 6-7 big-endian |
| Packet.Decode | memorypool_for_cJSON/protocol.cpp:36-41 | the fields read through the packed struct, with `ntohs` on the 16-bit ones, are the payload those 8 bytes encode |
| Packet.DecodeEncode | memorypool_for_cJSON/packet.h:5-13 | decoding the bytes of any payload gives that payload back |
| Packet.Seal | memorypool_for_cJSON/protocol.cpp:42 | a payload whose checksum field is the 16-bit wrap-around sum of id, temperature, humidity and status passes the parser's check, other fields as given |
| Packet.ChecksumCatchesOneFieldError | memorypool_for_cJSON/protocol.cpp:42-49 | the checksum `(uint16_t)(id + t + h + s)` rejects any payload that differs from a valid one in exactly one of the four summed fields |
| Packet.EncodeFrame | memorypool_for_cJSON/protocol.cpp:19-26 | a wire frame is 10 bytes whose big-endian length field is 8, the only length the parser accepts |
| Packet.ExampleFrame | memorypool_for_cJSON/protocol.cpp:36-42 | device 3, 25.50 degrees, 60.00 percent, status 0 has checksum 8553 and wire bytes 00 08 03 09 F6 17 70 00 21 69 |
| Protocol.ReadingOfWireFrame | memorypool_for_cJSON/protocol.cpp:36-58 | the payload read back from the wire frame of a sealed packet passes the checksum, and its reading is the sensor's device id, raw temperature and raw humidity with gateway id 1 (the document divides the raw values by 100) |
| Protocol.PublishReading | memorypool_for_cJSON/protocol.cpp:53-81 | a valid frame publishes once to "sensor/data" when its document can be built; IN/OUT interest on the broker socket is requested exactly when the publish succeeded, the client wants to write and the socket is not -1 |
| Protocol.FrameParse | memorypool_for_cJSON/protocol.cpp:11-86 | the parser leaves a suffix of its input shorter than 10 bytes, leaves fewer than 10 bytes untouched, publishes at most one reading per 10 bytes consumed, and emits only sensor publishes and broker-socket interest requests |
| Protocol.FullFrameAlwaysBuffered | memorypool_for_cJSON/protocol.cpp:19-33 | once the length reads 8 with 10 bytes buffered, the whole frame is present, so the wait-for-more return is never taken |
| Protocol.ParseSlidesOneByte | memorypool_for_cJSON/protocol.cpp:21-31 | a length field other than 8 drops exactly the first byte and parsing restarts there |
| Protocol.ParseDropsCorruptFrame | memorypool_for_cJSON/protocol.cpp:36-49 | a frame whose checksum disagrees is dropped whole (10 bytes) and publishes nothing |
| Protocol.ParsePublishesValidFrame | memorypool_for_cJSON/protocol.cpp:53-84 | a valid frame yields exactly its publish step, and parsing continues 10 bytes later |
| Protocol.ParseEncodedFrames | memorypool_for_cJSON/protocol.cpp:16-85 | round trip: sealed frames followed by an incomplete tail publish one reading per frame, in order, and leave the tail |
| Protocol.StrayByteIsSkipped | memorypool_for_cJSON/protocol.cpp:21-31 | resynchronisation: a stray byte in front of a healthy stream costs nothing, and every frame is still decoded |
| Protocol.ExampleFrameIsPublished | memorypool_for_cJSON/protocol.cpp:36-84 | the example frame is consumed whole and published once as device 3, 2550, 6000, gateway 1 |
| Framing.Echo | memorypool_for_cJSON/reactor.cpp:163-188 | the echo loop keeps a suffix of its input and only appends to the send buffer, stops at the first incomplete frame, and closes only on a complete frame of length 0 or above 1024 |
| Framing.EchoStep | memorypool_for_cJSON/reactor.cpp:183-187 | an accepted frame appends its payload to the send buffer and removes exactly length + 2 bytes |
| Framing.EchoRoundTrip | memorypool_for_cJSON/reactor.cpp:165-188 | frames of 1 to 1024 bytes followed by a tail with no complete frame are echoed payload by payload, in order, and the tail stays buffered |
| Framing.EchoRejects | memorypool_for_cJSON/reactor.cpp:176-181 | a complete frame declaring length 0 or above 1024 closes the connection with the buffers as they were |
| Framing.EchoClosesOnBadLength | memorypool_for_cJSON/reactor.cpp:165-188 | frames before a bad length are echoed, then the connection closes and nothing of the bad frame is echoed |
| Framing.EchoWaitsBeforeLengthCheck | memorypool_for_cJSON/reactor.cpp:167-181 | an oversized length whose payload has not all arrived is not acted on: the codec waits and keeps every byte |
| Framing.Discard | memorypool_for_cJSON/reactor.cpp:192-228 | the discard loop keeps a suffix with no complete frame, publishes at most once per frame consumed, and publishes nothing without a broker client |
| Framing.DiscardStep | memorypool_for_cJSON/reactor.cpp:205-224 | a complete frame at the front, whatever its length, is removed with one notice |
| Framing.DiscardRoundTrip | memorypool_for_cJSON/reactor.cpp:194-227 | any framed stream followed by an incomplete tail is dropped frame by frame with one notice each, and the tail is kept |
| Connection.HandleRead | memorypool_for_cJSON/connectionhandler.cpp:11-35 | the connection is closed unparsed exactly when a chunk arrives while more than 10240 bytes are buffered, or else when the read ended in shutdown or a hard error; otherwise the chunks are appended in order and run through the discard codec |
| Connection.ReadKeepsBound | memorypool_for_cJSON/connectionhandler.cpp:15-24 | starting within it, a read that keeps the connection leaves at most 10240 + 63 = 10303 unparsed bytes |
| Connection.HandleWrite | memorypool_for_cJSON/connectionhandler.cpp:37-74 | what was sent is a prefix of the send buffer as long as the kernel accepted; an emptied buffer asks for IN, a full kernel keeps IN/OUT, anything else closes |
| Connection.ProcessMessages | memorypool_for_cJSON/reactor.cpp:163-190 | the echo path closes exactly when the codec rejects a length; otherwise what is sent plus what is left is the echoed send buffer |
| Connection.EchoedOnTheWire | memorypool_for_cJSON/reactor.cpp:163-190 | when the kernel accepts everything queued, the pending output and then every payload of frames of 1 to 1024 bytes go out in order, the send buffer ends empty with IN interest, and the incomplete tail stays buffered |
| Reactor.Init | memorypool_for_cJSON/reactor.cpp:5-13 | a new reactor holds only the listening socket, with an accept handler and edge-triggered input interest, and satisfies the reactor invariant |
| Reactor.Register | memorypool_for_cJSON/reactor.cpp:50-57 | registering installs an empty connection handler (even when ADD fails) and adds `mode` with EPOLLET to the interest table when the descriptor is new |
| Reactor.Remove | memorypool_for_cJSON/reactor.cpp:60-64 | removing erases the descriptor from both tables and changes no other entry |
| Reactor.Update | memorypool_for_cJSON/reactor.cpp:66-75 | updating replaces the mask with `mode` and EPOLLET, and leaves an unregistered descriptor alone |
| Reactor.RegisterValid | memorypool_for_cJSON/reactor.cpp:50-57 | registering keeps both tables over the same descriptors, all edge-triggered |
| Reactor.RemoveValid | memorypool_for_cJSON/reactor.cpp:60-64 | removing keeps the reactor invariant |
| Reactor.UpdateValid | memorypool_for_cJSON/reactor.cpp:66-75 | updating keeps the reactor invariant, EPOLLET included |
| Reactor.RemoveIdempotent | memorypool_for_cJSON/reactor.cpp:60-64 | removing twice is removing once, and removing an absent descriptor changes nothing |
| Reactor.DispatchOne | memorypool_for_cJSON/reactor.cpp:23-45 | an event for a descriptor without a handler is skipped; calls run read, write, close in that order; read runs exactly on IN/PRI/RDHUP; write only on OUT; a registered descriptor reporting ERR/HUP ends without a handler |
| Reactor.ReadRemovalEndsDispatch | memorypool_for_cJSON/reactor.cpp:30-38 | a handler that removes itself while reading is neither asked to write nor closed again |
| Reactor.DispatchSteps | memorypool_for_cJSON/reactor.cpp:35-44 | write runs exactly when OUT fired and the handler survived reading; close runs exactly when ERR/HUP fired and it survived both, and then removes it |
| Reactor.DispatchBatch | memorypool_for_cJSON/reactor.cpp:22-45 | every call of a batch is for a descriptor the batch reported |
| Reactor.IdleBatchRemovesErrored | memorypool_for_cJSON/reactor.cpp:40-44 | with handlers that do nothing, a batch removes exactly the registered descriptors reporting ERR/HUP and keeps every other handler |
| Reactor.BatchValid | memorypool_for_cJSON/reactor.cpp:20-47 | handlers that keep the reactor invariant keep it across any batch |
| Reactor.ApplyRead | memorypool_for_cJSON/connectionhandler.cpp:18-34 | a flooded or dropped connection leaves both tables; a surviving one keeps its new buffers |
| Reactor.ApplyWrite | memorypool_for_cJSON/connectionhandler.cpp:55-73 | after a flush the interest is IN with EPOLLET when the buffer emptied, IN/OUT with EPOLLET while the kernel is full, and the connection is removed otherwise |
| Reactor.ApplyReadValid | memorypool_for_cJSON/connectionhandler.cpp:18-34 | a read keeps the reactor invariant |
| Reactor.ApplyWriteValid | memorypool_for_cJSON/connectionhandler.cpp:55-73 | a flush keeps the reactor invariant |
| Reactor.MqttRegister | memorypool_for_cJSON/reactor.cpp:230-256 | a failed ADD changes nothing; otherwise the descriptor maps to the given link or a new one, with `mode` and EPOLLET, and the link's timer is a fresh heartbeat node |
| Reactor.MqttRegisterRetiresOldTimer | memorypool_for_cJSON/reactor.cpp:247-252 | re-registering an existing link leaves its previous heartbeat node inactive for good |
| Reactor.MqttRegisterValid | memorypool_for_cJSON/reactor.cpp:230-256 | registering the broker link keeps the reactor invariant |
| Reactor.MqttRegisterKnownArgs | memorypool_for_cJSON/reactor.cpp:242-252 | after registering, every heartbeat node in the wheel still names a known link, the old one cancelled and the new one armed for the link registered |
| Reactor.ArmHeartbeat | memorypool_for_cJSON/reactor.cpp:81-82 | arming takes the wheel's next node number, records it as the link's timer and leaves the descriptor tables and other links alone |
| Reactor.Heartbeat | memorypool_for_cJSON/reactor.cpp:77-83 | the heartbeat records a new timer for its link and leaves the descriptor tables alone |
| Reactor.HeartbeatLandsInLevel3 | memorypool_for_cJSON/reactor.cpp:77-83 | a 60000 ms heartbeat is a live node at the head of the level-3 bucket chosen by its expiry |
| Reactor.HeartbeatValid | memorypool_for_cJSON/reactor.cpp:77-83 | re-arming the heartbeat keeps the reactor invariant |
| Reactor.RunCallbacksRearms | memorypool_for_cJSON/reactor.cpp:77-83 | after the fired callbacks run, every link whose heartbeat fired has a newer live heartbeat node in level 3 as its timer, every other link's timer is unchanged, and the wheel only gained nodes |
| Reactor.RunCallbacksValid | memorypool_for_cJSON/reactor.cpp:77-83 | running heartbeats of known links keeps the reactor invariant and adds no link |
| Reactor.MqttLoopPass | memorypool_for_cJSON/reactor.cpp:367-397 | a pass of the broker loop dispatches the batch, moves the wheel's time to `now` when the clock advanced, fires only active nodes that are due, and leaves every link whose heartbeat fired with a fresh heartbeat in level 3 |
| Reactor.MqttLoopPassValid | memorypool_for_cJSON/reactor.cpp:367-397 | with handlers that keep the reactor invariant, a whole pass keeps it, heartbeats and their links included |
| TimeWheel.InitWheel | memorypool_for_cJSON/timewheel.c:9-13 | a new wheel has 256 + 4 x 64 empty buckets and its time is `now` |
| TimeWheel.Level | memorypool_for_cJSON/timewheel.c:311-341 | a delay goes to the lowest level whose span (2^8, 2^14, 2^20, 2^26, 2^32) exceeds it, and is rejected exactly when above 2^32 - 1 |
| TimeWheel.Index | memorypool_for_cJSON/timewheel.c:313-334 | every bucket index is within its level's size; level 1 uses the expiry's low 8 bits |
| TimeWheel.Delay | memorypool_for_cJSON/timewheel.c:29-31 | the remaining delay is `expire - now` in 64-bit unsigned arithmetic, wrapping when the expiry is past |
| TimeWheel.Insert | memorypool_for_cJSON/timewheel.c:15-19 | a node is pushed at the head of its bucket and no other bucket changes |
| TimeWheel.AddNewTimer | memorypool_for_cJSON/timewheel.c:287-344 | delay 0 runs the callback now and creates nothing; a delay above 2^32 - 1 creates nothing; otherwise an active node expiring at `now + delay` heads the bucket its level and expiry select, and nothing else changes |
| TimeWheel.AddNewTimerGrows | memorypool_for_cJSON/timewheel.c:287-344 | adding a timer keeps every node already in the wheel in its bucket |
| TimeWheel.CancelIn | memorypool_for_cJSON/timewheel.c:371-375 | cancelling deactivates exactly the node with that id and keeps every node in place |
| TimeWheel.Cancel | memorypool_for_cJSON/timewheel.c:371-375 | cancelling touches only the `active` flag; cancelling no node changes nothing |
| TimeWheel.CancelAbsentIsNoOp | memorypool_for_cJSON/timewheel.c:371-375 | cancelling an id that no node in the wheel carries changes nothing |
| TimeWheel.ClearTimeWheel | memorypool_for_cJSON/timewheel.c:358-369 | clearing empties every bucket of every level |
| TimeWheel.ReAdd | memorypool_for_cJSON/timewheel.c:21-65 | an inactive node, or one whose remaining delay exceeds the maximum, is dropped; an active one heads the bucket chosen by its remaining delay and expiry |
| TimeWheel.VisitOrder | memorypool_for_cJSON/timewheel.c:106-160 | a level visits every bucket after a full round; otherwise it visits each bucket after `begin` up to `end`, wrapping past the last, once each |
| TimeWheel.ReAddKeeps | memorypool_for_cJSON/timewheel.c:21-65 | re-adding only adds to the wheel, and an active node whose remaining delay is at most 2^32 - 1 is in the wheel afterwards |
| TimeWheel.ReAddAllKeeps | memorypool_for_cJSON/timewheel.c:110-117 | re-adding a detached list keeps every node already in the wheel and places every active node of the list whose remaining delay is in range |
| TimeWheel.CascadeKeeps | memorypool_for_cJSON/timewheel.c:106-160 | detaching and re-adding the visited buckets of a level keeps level 1 intact and loses no active node whose remaining delay is in range |
| TimeWheel.CascadeLevelKeepsLive | memorypool_for_cJSON/timewheel.c:68-164 | `cascadeLevel` keeps level 1 intact and every active node whose remaining delay is at most 2^32 - 1 stays in the wheel |
| TimeWheel.CascadeUpperKeeps | memorypool_for_cJSON/timewheel.c:269-279 | the cascades of levels 5, 4, 3 and 2 together keep level 1 intact and every pending node in the wheel |
| TimeWheel.SplitDue | memorypool_for_cJSON/timewheel.c:176-191 | a level-1 bucket pass unlinks exactly the nodes with `expire <= now` and keeps the others |
| TimeWheel.Active | memorypool_for_cJSON/timewheel.c:182-183 | of the unlinked nodes, exactly the active ones run their callback |
| TimeWheel.ExecBuckets | memorypool_for_cJSON/timewheel.c:196-258 | every node that fires is active and due |
| TimeWheel.ExecBucketsLevel1 | memorypool_for_cJSON/timewheel.c:196-258 | a visited bucket keeps exactly its nodes that are not yet due; unvisited buckets and the upper levels are untouched |
| TimeWheel.ExecFiresEveryDueNode | memorypool_for_cJSON/timewheel.c:172-258 | every active due node of a visited bucket fires |
| TimeWheel.ExecBucketsKeepsPending | memorypool_for_cJSON/timewheel.c:196-258 | the level-1 pass keeps every node that is not yet due |
| TimeWheel.ExecL1 | memorypool_for_cJSON/timewheel.c:167-261 | level-1 expiry fires only active, due nodes and keeps the wheel's shape, time and numbering |
| TimeWheel.ExpireTimer | memorypool_for_cJSON/timewheel.c:263-285 | expiry is a no-op unless the clock passed the wheel's time; then the time becomes `now` and only active, due nodes fire |
| TimeWheel.ExpireTimerFiresDueNodes | memorypool_for_cJSON/timewheel.c:263-285 | an active node with `expire <= now` in a level-1 bucket that the clock swept past fires |
| TimeWheel.ExpireTimerKeepsPendingNodes | memorypool_for_cJSON/timewheel.c:263-285 | an active node expiring after `now`, within 2^32 - 1 ms of it, is neither fired nor lost by the tick |
| TimeWheel.Level5CascadesEverything | memorypool_for_cJSON/timewheel.c:74-119 | level 5's round, 2^32, wraps to 0 in 32-bit arithmetic, so every tick re-adds every level-5 bucket; the lower rounds are their true spans |
| TimeWheel.OverdueNodeIsDropped | memorypool_for_cJSON/timewheel.c:29-63 | a node whose expiry has already passed gets a wrapped delay above the maximum and is dropped without firing |
| TimeWheel.ReAddMatchesAdd | memorypool_for_cJSON/timewheel.c:34-58 | re-adding a node at its creation time puts it where insertion put it: both use the same level rule |
| TimeWheel.CancelIdempotent | memorypool_for_cJSON/timewheel.c:373-374 | cancelling twice is cancelling once |
| TimeWheel.ExpireTimerEvery | memorypool_for_cJSON/timewheel.c:263-285 | expiry never invents a node: a property of every node in the wheel holds afterwards and of every node that fires |
| TimeWheel.CancelKills | memorypool_for_cJSON/timewheel.c:371-375 | after cancelling, no node with that id is live anywhere in the wheel |
| TimeWheel.CancelledNeverFires | memorypool_for_cJSON/timewheel.c:24-28 | a cancelled timer never fires, whatever ticks, additions and cancellations follow |
| TimeWheel.ClearedWheelFiresNothing | memorypool_for_cJSON/timewheel.c:358-369 | after clearing, the next expiry fires nothing |
| MemoryPool.RoundUp | memorypool_for_cJSON/memorypool.cpp:11 | the aligned size is the least multiple of the alignment that is not below the requested size |
| MemoryPool.NewPool | memorypool_for_cJSON/memorypool.cpp:5-19 | the block size is the larger of the link size and the request rounded up to the alignment; the page size is raised to one block when smaller; the pool starts empty |
| MemoryPool.Blocks | memorypool_for_cJSON/memorypool.cpp:34-45 | blocks pushed at offsets `i * blockSize` in ascending order come off the list highest first |
| MemoryPool.BlocksDoNotOverlap | memorypool_for_cJSON/memorypool.cpp:34-38 | the blocks cut from one page are at least one block apart |
| MemoryPool.BlockInPage | memorypool_for_cJSON/memorypool.cpp:34-38 | every block cut from a page lies in its usable part on a block boundary, so the ownership test accepts it |
| MemoryPool.Expand | memorypool_for_cJSON/memorypool.cpp:29-46 | expansion adds one page and pushes its `pageSize / blockSize` blocks in front of the free list, keeping every free block owned by a page |
| MemoryPool.ExpandNeverEmpty | memorypool_for_cJSON/memorypool.cpp:54-58 | a page always yields a block, so the null return after expanding is never taken |
| MemoryPool.Allocate | memorypool_for_cJSON/memorypool.cpp:48-70 | a request of at most one block pops the list head, expanding first only when the list is empty, and the block belongs to a page; a larger one comes from `malloc` with the pool unchanged |
| MemoryPool.FindPage | memorypool_for_cJSON/memorypool.cpp:78-91 | the loop over the pages finds a match exactly when some page holds the address in its usable part on a block boundary |
| MemoryPool.Deallocate | memorypool_for_cJSON/memorypool.cpp:72-93 | null is ignored; an owned block is pushed back onto the list; any other address goes to `free` with the pool unchanged |
| MemoryPool.DeallocateValid | memorypool_for_cJSON/memorypool.cpp:72-93 | deallocation keeps every free block owned by a page |
| MemoryPool.DeallocateThenAllocate | memorypool_for_cJSON/memorypool.cpp:78-87 | a block handed back is the next block handed out, and the pool is as before |
| MemoryPool.AllocateThenDeallocate | memorypool_for_cJSON/memorypool.cpp:60-62 | handing back the block just allocated puts it back on top and, when no page was added, restores the pool |
| MemoryPool.CyclesAddAtMostOnePage | memorypool_for_cJSON/memorypool.cpp:50-62 | repeated small allocate/free cycles add a page only when the first finds the list empty, and never again |
| MemoryPool.FreshPoolCyclesUseOnePage | memorypool_for_cJSON/memorypool.cpp:52-54 | from a fresh pool, any number of small allocate/free cycles uses one page at most |

## Left out

- Reactor.MqttLoopPass: `expireTimer` runs callbacks in the middle of the level-1 pass. The model
  collects the fired nodes and runs them after the pass. For the only callback the program arms,
  the heartbeat, this is the same: its 60000 ms timer goes to level 3, never to a level-1 bucket
  still to be visited, and its expiry comes from the clock, not from the wheel's time.
- MemoryPool.NewPool: requires a power-of-two alignment. The rounding `(bS + aS - 1) & ~(aS - 1)`
  is modelled as rounding up to a multiple, which is what the mask computes for powers of two.
  Other alignments are not modelled, and neither is `size_t` overflow of `bS + aS - 1`.
- TimeWheel.ExpireTimer: the firing guarantee (`ExpireTimerFiresDueNodes`) covers nodes already in
  level 1. A node of levels 2 to 5 fires only when it reaches level 1 before its expiry passes;
  one still in an upper level once it is overdue is dropped (`OverdueNodeIsDropped`), as the code
  does.
- TimeWheel.Cancel: a node id that no longer names a node is cancelled as a no-op
  (`CancelAbsentIsNoOp`). In the code, a heartbeat node dropped as overdue by `reAddTimer` is
  freed while its link's `timer` still points at it. The next `mqttRegister` for that link
  (`reactor.cpp:249`) or the handler's destructor (`mqtthandler.cpp:105`) then writes the
  `active` flag of freed memory, and the link's heartbeat is never re-armed. The model keeps the
  lost heartbeat but not the write to freed memory.
- Protocol.FrameParse: the broker client's answers (document built, publish succeeded, output
  queued, socket) are one record for the whole call. In the code each frame's
  `cJSON_CreateObject` and `mosquitto_publish` can fail or succeed independently, so a run where
  one frame's publish fails and the next succeeds is not modelled.
- Epoll.CtlAdd: fails only for a descriptor already registered. Other `epoll_ctl` errors, such as
  `EBADF` for the `-1` that `mosquitto_socket` returns without a connection, are not modelled.
- TimeWheel.OverdueNodeIsDropped: stated for nodes overdue by at most 2^64 - 2^32 ms, which
  covers any real clock. A node overdue by more would wrap back into range.
- The socket and epoll system calls themselves (`epoll_wait`, `accept`, `close`, `fcntl`) are
  I/O. `recv` and `send` results are scripts, and `epoll_ctl` is the table model in `Epoll`.
  The accept handler, `set_nonblocking` and the `main.cpp` bootstrap are left out.
- The `MqttHandler` read, write and misc pumps (`mqtthandler.cpp`, `reactor.cpp:260-361`) are
  wrappers over libmosquitto, whose code is not part of this model. So are the handler's
  destructor and the `handleMisc` call in the heartbeat. A publish is recorded as an effect,
  and the client's answers are inputs.
- Building the cJSON document, `t / 100.0` and `h / 100.0` (floating point) and `std::to_string`
  are left out. A reading keeps its raw values, and a notice payload keeps the descriptor number.
- `malloc` failure in `addNewTimer` and `new[]` throwing in `expand` are not modelled.
  The model's allocators always succeed.
- The copy of `ConnectionHandler::handleRead` in `reactor.cpp:99-122` (no flood guard, echo
  codec) is not modelled. The model follows the flood-guarded version in `connectionhandler.cpp`.
  The copies of the dispatch loop in `IReactor.cpp` and `mqtthandler.cpp` are left out too.
- The mutex, the atomic counters and the unused `startAddr`, `endAddr` and `usablePageSize`
  fields of `memorypool.h` are left out. So are `myMalloc`, `myFree` and `globalMemoryPool`,
  which have no definition to model.
- Bit slices `(x >> s) & mask` are modelled as `(x / 2^s) % 2^bits`. `MAX_EVENTS` is a constant
  with no effect in the model, since a batch is any sequence of events.
- Logging through `cout`, `cerr`, `perror` and `printf` is left out.
