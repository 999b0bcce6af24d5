# ccraft: a verified model

ccraft is a C++ code base for a Raft node: a slab memory pool, a non-blocking TCP message layer with its own
connection handshake, an RPC client on top, and the containers and hash functions they use. This project models
the parts of it that decide something hard, as the code is written, and proves what they keep. `dafny verify
dfyconfig.toml` checks all of it.

What is modelled, by module:

- **The memory pool** (`Options`, `Arith`, `Rounding`, `Slabs`, `Pool`, `PoolConfig`, `MemPool`, `PageSets`,
  `BulkPool`, `BulkLimits`). The 32-bit rounding arithmetic; one slot with its pages, free lists and counter; all
  slots over one address space, with every run of gets and puts; the pool object with its recycled handles; the
  bulk level with its two indexes and its page sets. What the system's allocator answers is a parameter: failure,
  or any range that overlaps nothing held.
- **Messages on a connection** (`Wire`, `Buffers`, `Receivers`, `Senders`, `Framing`, `MsgIds`). Buffers with
  closed-interval cursors, the four-state receive loop and the send loop over a byte stream whose reads and writes
  may be as short as they like, and both put together.
- **Connections** (`Manager`, `Handshake`, `EventLoop`). The manager's three maps and the one map they stand for;
  the handshake as a transition system over nodes, connections and their message histories, with one manager per
  node; the worker loop with its queues, the manager's references and the reference counts that decide when a
  handler is destroyed.
- **Containers and hashing** (`SkipList`, `HashKeys`, `Murmur32`, `Murmur128`). The skip list as linked nodes
  updated in place; MurmurHash3 as a fold of permutations, on bit vectors, with the length of a key given as the
  32-bit number the code is called with.
- **RPC, timer and log** (`RpcIndex`, `Timers`, `RfLog`).

Where the code does not do what its comments or callers expect, the model follows the code, and a lemma or
contract states exactly when the expectation is met:

- rounding a size within one step of 2^32 gives 0 (`Rounding.RoundupLeast`);
- a size above the last multiple of the footstep below its threshold looks up a slot that is not there, and a
  page too small for one object is taken an object from (`Rounding.TableCovers`, `PoolConfig.KeyForFits`,
  `PoolConfig.ShapeOk`, the `defined` result of `MemPool.MemPool.Get`); a size that rounds past 2^32 ends in a
  division by zero (`BulkPool.BulkPool.Get`);
- a bulk slot of exactly 1 MiB is expanded by one object per page but trimmed as if by four, so it never gives a
  page back (`BulkLimits.LimitExact`, `BulkLimits.LimitSlotOverstays`);
- a bulk expansion overwrites the slot's page set, so the put of an older object above 1 MiB may look up an entry
  that is gone (`PageSets.RecordDefined`, `BulkLimits.NewerFirst`, the `defined` result of
  `BulkPool.BulkPool.Put`);
- the byte order utilities called little-endian write the most significant byte first (`Buffers.WriteUInt`);
- a read that would block right after a header loses the payload buffer taken for it
  (`Receivers.Receiver.ReadPayload`), and a short read inside a handshake leaves the receiver without one
  (`Receivers.Receiver.RecvNested`);
- a header that announces no payload is accepted and ends in the pool's assertion; no sender produces one
  (`Framing.HeadersGood`);
- the end of an old connection takes a newer one to the same peer off the manager when both were dialled, or when
  another peer has come from the old one's real endpoint (`Manager.FinishTakesOnlyItself`, `Manager.LateFinish`,
  `Manager.SharedFinish`), and then releases the old one (`EventLoop.EndTracks`, `EventLoop.LateEnd`,
  `EventLoop.SharedEnd`);
- the manager's maps disagree after a removal when a handler of another peer has the same real endpoint, and that
  handler then stays registered (`Manager.RunAgrees`, `Manager.Stranded`); the third map keeps an entry for every
  handler that the end of its connection takes off (`Manager.UniqueWorkerManager.RemoveFinished`);
- a connection can be found before it has its worker (`EventLoop.HarmBeforeWorker`, `EventLoop.EarlyPost`), and
  is read once more after it was queued for destruction (`EventLoop.DestroyLeaves`, `EventLoop.LateWake`);
- an end whose handshake fails after it registered leaves a deleted handler registered
  (`Handshake.FailedOnFile`, `EventLoop.DiscardRegistered`), a node cannot connect to itself
  (`Handshake.OneDial`), and two nodes that dial each other may both give up (`Handshake.CrossedDials`);
- reading the reference counter keeps only its lowest bit in memory (`EventLoop.CounterTracks`,
  `EventLoop.ThirdReference`, `EventLoop.QueuedInTurn`), and two releases that overlap both queue the handler
  (`EventLoop.QueuedPerRead`);
- a skip-list node drawn higher than the current level is linked first at that level, in front of smaller ones
  (`SkipList.SkipList.Insert`, `SkipList.OutOfOrder`, `SkipList.HeadFill`), and the array of previous nodes has no
  cell for the last level (`SkipList.SkipList.FindPrevious`);
- all timeouts of RPC calls act on the first call ever made (`RpcIndex.RpcClient.OnTimeout`, `RpcIndex.Run`), and
  a broken connection that the peer dialled completes none of its calls (`RpcIndex.RpcClient.OnBroken`);
- the comparison of timer ids is no order (`Timers.TableOrder`), so a table may not find what it holds
  (`Timers.SearchExact`, `Timers.BuiltExact`, `Timers.CancelMissed`), and a subscription is also refused for an
  equal callback at a later time (`Timers.Timer.SubscribeEventAt`);
- the log's writer puts only the first two fields of a portion where they belong (`RfLog.OnlyTwoPlaced`), counts
  no header for a new file (`RfLog.NewFileExact`) and writes old entries again (`RfLog.ResyncExact`), and the
  reader's offsets are not those of the layout (`RfLog.ReaderExact`, `RfLog.ReaderWalks`).

## Model

| member | source | states |
|---|---|---|
| `Rounding.RoundupLeast` | src/ccsys/mem-pool.h:183-193 | The 32-bit shift-and-mask rounding gives the least multiple of 2^e not below its input if and only if that multiple is below 2^32; above that it wraps to 0; where it fits the waste is below one step. |
| `Rounding.RoundupValue` | src/ccsys/mem-pool.h:183-193 | The rounding in closed form: its input if that is a multiple, otherwise the next multiple modulo 2^32. |
| `Rounding.TableCovers` | src/ccsys/mem-pool.h:195-197 | For every threshold below 2^32: every size up to it rounds to a slot of the table 1..threshold/2^e if and only if the threshold is a multiple of the footstep. |
| `Rounding.SlotReached` | src/ccsys/mem-pool.h:183-197 | Up to any threshold below 2^32, a size rounds to a slot of the table if and only if it is not above the last multiple of the footstep; then the objects are the rounded size and less than one footstep is wasted. |
| `Rounding.ExpandPageHolds` | src/ccsys/mem-pool.h:199-207 | An expanded page is a whole number of system pages, holds at least the wanted number of objects, and is less than one page larger than needed. |
| `PoolConfig.KeyForFits` | src/ccsys/mem-pool.cc:148-171 | For any 32-bit thresholds, a request for the tiny, small and big levels finds a slot the constructor created if and only if its size is not above the last multiple of the footstep below its threshold; then the objects are large enough and waste less than one footstep. |
| `PoolConfig.SlotShapes` | src/ccsys/mem-pool.cc:54-90 | The slots the constructor creates whose pages hold an object. |
| `PoolConfig.ShapeOk` | src/ccsys/mem-pool.h:199-207 | A page of the tiny slot holds an object if and only if such an object is no larger than a page; one of another slot is the fewest system pages that hold 32 objects, where 32 objects and a page do not exceed 2^32 bytes. |
| `PoolConfig.DefaultServes` | src/ccsys/mem-pool.cc:47-52 | With the default constants exactly the sizes from 1 to 131072 are served, each by a slot that exists and whose pages hold an object: tiny up to 16 bytes, small in steps of 32 up to 4096, big in whole pages, with 512, 256 and 128 objects resident. |
| `Slabs.SplitMemPage` | src/ccsys/mem-pool.cc:383-391 | The loop cuts a page into its objects, in order, as many as fit. |
| `Slabs.GetInv` | src/ccsys/mem-pool.cc:416-445 | A get hands out an object that was not live; every owned page stays exactly its free list and its live objects, without duplicates, and the counter the total length of the free lists. |
| `Slabs.PutInv` | src/ccsys/mem-pool.cc:264-278 | A put keeps the same, keeps the slot within its limit unless no page is entirely free, and gives back only a page none of whose objects is live. |
| `Slabs.FullMeansNoneLive` | src/ccsys/mem-pool.cc:267-276 | A free list as long as its page has objects means that none of them is live. |
| `Slabs.ReleaseResident` | src/ccsys/mem-pool.cc:265-277 | Giving one page back brings the counter below resident limit plus one page, or no other page was entirely free. |
| `Slabs.InsidePage` | src/ccsys/mem-pool.cc:383-391 | Every object lies inside its page. |
| `Slabs.ApartInPage` | src/ccsys/mem-pool.cc:383-391 | Two objects of a page do not overlap. |
| `Pool.GetKeeps` | src/ccsys/mem-pool.cc:124-191 | Every get over all slots keeps the invariant of the whole pool: pages disjoint, each owned by one slot, each slot partitioned and counted; the object was not live. |
| `Pool.PutKeeps` | src/ccsys/mem-pool.cc:254-335 | So does every put, and a page given back was held and holds no live object. |
| `Pool.LiveApart` | src/ccsys/mem-pool.cc:124-191 | No two live objects overlap, of whatever slots. |
| `Pool.RunSafe` | src/ccsys/mem-pool.cc:124-335 | In every state of every run of gets and puts, every live object lies inside a page the pool holds and no two overlap. |
| `Pool.RunReleases` | src/ccsys/mem-pool.cc:264-334 | In every run a page is given back only while it is held and none of its objects is live. |
| `Pool.RunCounts` | src/ccsys/mem-pool.cc:131-190 | In every state of every run the counter of a slot with pages is the total length of its free lists, and reaches limit plus one page only when no page is entirely free. |
| `Pool.TrimGivesBack` | src/ccsys/mem-pool.cc:264-334 | After the push of an object a page is given back if and only if the objects free are at least the resident limit and a page of them, and some page has all its objects free; then such a page is. |
| `MemPool.SlotRoundTrip` | src/ccsys/mem-pool.cc:254-335 | Type and size of a handle name the slot it came from, and the objects per page recomputed on a put are those the page was cut into. |
| `MemPool.SlotGet` | src/ccsys/mem-pool.cc:176-191 | The get of a slot: nothing if there is no free object and no page to be had, otherwise refill if empty and take the first object of a page. |
| `MemPool.SlotPut` | src/ccsys/mem-pool.cc:285-306 | The put of a slot: push and, over the limit, give back the first entirely free page found, if any. |
| `MemPool.MemPool.constructor` | src/ccsys/mem-pool.cc:54-90 | For any 32-bit thresholds a new pool has its slots, no pages and no handles, whatever the uninitialised tiny counter held. |
| `MemPool.MemPool.GetMemObject` | src/ccsys/mem-pool.cc:393-407 | Reuses the first free handle or makes one; free handles stay distinct and the one returned is not among them. |
| `MemPool.MemPool.Get` | src/ccsys/mem-pool.cc:124-191 | Get of the three levels, for any thresholds: defined if and only if the size is not above the last multiple of its footstep and a page of its slot holds an object or no page is to be had; then null changes no handle, and anything else is a handle nobody held, whose size is the tiny threshold, or the least multiple of 32, or of the page size, not below what was asked, by a step of the slot the size names; the pool stays valid. |
| `MemPool.MemPool.Put` | src/ccsys/mem-pool.cc:236-335 | Put of a null handle changes nothing; otherwise the object goes back to its slot, the handle becomes free, the pool stays valid; and a page is given back if and only if the objects free in the slot are then at least those of a page more than the configured limit of the level of the object, tiny, small or big, and some page is entirely free. |
| `MemPool.HeldApart` | src/ccsys/mem-pool.cc:124-245 | The memory behind two handles held at the same time does not overlap. |
| `BulkPool.FindSuitable` | src/ccsys/mem-pool.cc:447-543 | The lookup returns the exact slot if it has free objects, otherwise one in (need, 2 need], and fails only when no slot in [need, 2 need] has any. |
| `BulkPool.SlotsRounded` | src/ccsys/mem-pool.cc:192-203 | The bulk slots of the model are exactly those some size rounds to. |
| `BulkPool.TakeEntry` | src/ccsys/mem-pool.cc:452-471 | Taking an object keeps both indexes on the same slots, and a slot left without free objects leaves both. |
| `BulkPool.ExpandEntry` | src/ccsys/mem-pool.cc:206-217 | A new page enters both indexes with its objects and count, and its first object is taken. |
| `BulkPool.PushEntry` | src/ccsys/mem-pool.cc:350-358 | A put of a slot outside the indexes enters it in both, with one object and a count of one. |
| `BulkPool.TrimEntry` | src/ccsys/mem-pool.cc:359-377 | Over the limit a page with as many free objects as it was cut into leaves; a slot whose count becomes zero leaves both indexes. |
| `BulkPool.EmptyByCount` | src/ccsys/mem-pool.cc:370-373 | After a put the count is zero exactly when nothing of the slot is free. |
| `BulkPool.BulkPool.Get` | src/ccsys/mem-pool.cc:192-227 | Bulk get, for every size: defined if and only if the size does not round past 2^32 or no memory is to be had; an object of the exact slot or of one in the window if there is any, otherwise of a new page of the exact slot; both indexes keep holding exactly the slots with free objects, and the page sets what their history records. |
| `BulkPool.BulkPool.Put` | src/ccsys/mem-pool.cc:336-379 | Bulk put: above 1 MiB the page of the object is given back at once; otherwise the object is kept, and a page is given back if and only if the objects free are then at least four more than may stay resident and some page has four of them free; above the limit the page set it looks up is there if and only if the newest object allocated for the slot is still out. |
| `BulkLimits.RunBounded` | src/ccsys/mem-pool.cc:336-379 | In every run a slot that trims or drops stays within its limit. |
| `BulkLimits.LimitExact` | src/ccsys/mem-pool.cc:336-379 | For every page size, every resident limit and every bulk slot: the slot stays within its limit in every run if and only if its objects are not of exactly 1 MiB. |
| `BulkLimits.LimitSlotOverstays` | src/ccsys/mem-pool.cc:339-361 | In every table with a slot of exactly 1 MiB there is a run after which all its pages are entirely free and stay although the counter is over the limit, because its pages are expanded by one object and trimmed as if by four. |
| `PageSets.RecordDefined` | src/ccsys/mem-pool.cc:206-206 | After any history of expansions and drops of a slot, its page set exists if and only if the newest object allocated for it is still out, because every expansion overwrites the set. |
| `BulkLimits.NewerFirst` | src/ccsys/mem-pool.cc:339-348 | On the bulk pool itself: two objects of one slot above the limit, the newer put first, and the put of the older one finds no page set. |
| `Wire.ValueOfBytes` | src/common/codec-utils.cc:10-85 | Writing a number in the byte order of the utilities and reading it gives it back, when it fits the width. |
| `Wire.BytesOfValue` | src/common/codec-utils.cc:10-85 | Reading bytes and writing the number gives the bytes back. |
| `Wire.HeaderDecoded` | src/net/rcv-message.cc:14-49 | A header that is accepted is the encoding of the id and length it decodes to. |
| `Wire.HeaderParts` | src/net/snd-message.cc:67-86 | The header written for an id and a length is accepted and decodes to them. |
| `Wire.HeaderLayout` | src/net/snd-message.cc:67-86 | The header byte by byte: de ad be ef, the id, the length most significant byte first; it is accepted if and only if the length is at most 64 MiB. |
| `Wire.FrameUnique` | src/net/snd-message.cc:43-65 | Two byte streams that begin with frames and agree begin with the same message. |
| `Wire.StreamPrefix` | src/net/snd-message.cc:43-65 | If the frames of some messages begin the frames of others, the messages are the first of the others. |
| `Wire.ParseStream` | src/net/net-protocol-stacks/nonblocking/socket/network-api/posix/tcp/net-stack-worker.cc:31-97 | Cutting the frames of messages, followed by an incomplete frame, gives these messages and leaves the rest. |
| `Wire.ParseBack` | src/net/net-protocol-stacks/nonblocking/socket/network-api/posix/tcp/net-stack-worker.cc:31-97 | Encoding what was cut from any bytes, followed by what was left, gives the bytes back. |
| `Buffers.WriteUInt` | src/common/codec-utils.cc:10-42 | Writes the number most significant byte first, and nothing else. |
| `Buffers.ReadUInt` | src/common/codec-utils.cc:44-85 | Reads the number whose first byte weighs most. |
| `Buffers.Buffer.MoveHeadBack` | src/common/buffer.h:59-66 | Drops bytes from the front of the content; moving by nothing, or past the end, leaves no content. |
| `Buffers.Buffer.MoveTailBack` | src/common/buffer.h:72-79 | The content grows by exactly the bytes behind it; the first time, it becomes what lies from the cursor up to the new end, or nothing if the cursor is behind that. |
| `Buffers.Buffer.AvailableLength` | src/common/buffer.h:89-98 | The length of the content. |
| `Buffers.Buffer.UnusedSize` | src/common/buffer.h:100-110 | What fits behind the content, nothing without content; content from the start and the rest fill the buffer. |
| `Buffers.Buffer.BZero` | src/common/buffer.h:48-53 | No content, all memory zero. |
| `Receivers.Fill` | src/net/net-protocol-stacks/nonblocking/socket/network-api/posix/tcp/net-stack-worker.cc:83-91 | A read behind the content of a buffer becomes content, from the front of the buffer on. |
| `Receivers.Receiver.DecodeMsgHeader` | src/net/rcv-message.cc:14-49 | Accepts exactly the good headers and returns what they say. |
| `Receivers.Receiver.ParseHeader` | src/net/net-protocol-stacks/nonblocking/socket/network-api/posix/tcp/net-stack-worker.cc:31-44 | A complete header starts the payload or is refused; an incomplete one waits for more. |
| `Receivers.Receiver.CheckPayload` | src/net/net-protocol-stacks/nonblocking/socket/network-api/posix/tcp/net-stack-worker.cc:62-81 | A complete payload is delivered with the id of its header, an incomplete one waits; the loop pauses if and only if it waits or was to stop after one message. |
| `Receivers.Receiver.ReadHeader` | src/net/net-protocol-stacks/nonblocking/socket/network-api/posix/tcp/net-stack-worker.cc:46-60 | One read of the header states: bytes move from the stream to the message under way, none is lost; what is returned is what the socket answered. |
| `Receivers.Receiver.ReadPayload` | src/net/net-protocol-stacks/nonblocking/socket/network-api/posix/tcp/net-stack-worker.cc:179-197 | One read of the payload states: the same, for a payload; a payload buffer is lost exactly when one was taken before and not read into. |
| `Receivers.Receiver.Recv` | src/net/net-protocol-stacks/nonblocking/socket/network-api/posix/tcp/net-stack-worker.cc:155-202 | The receive loop, through reads of any size, agrees with cutting up all bytes consumed so far: what is delivered and what is kept; it gives up exactly on the headers that are refused. All reads but the last got bytes; it reports a closed connection if and only if the last found the end, a broken one if and only if that failed other than by having to wait, and pauses otherwise, with at most one message where it is to stop after one. |
| `Receivers.Receiver.RecvNested` | src/net/net-protocol-stacks/nonblocking/socket/network-api/posix/tcp/net-stack-worker.cc:75-77 | The receive a handshake step makes inside a delivery, after which the delivery sets the payload buffer to null: the receiver is left to read into none if and only if the bytes kept are more than a header, that is, the receive stopped inside a payload. |
| `Senders.EncodeHeader` | src/net/snd-message.cc:67-86 | The header in front of the buffer, the cursor behind it. |
| `Senders.Encode` | src/net/snd-message.cc:43-65 | The frame of the message as content, or the exception exactly for an empty or oversized payload. |
| `Senders.Sender.InsertMessage` | src/common/blocking-queue.h:72-81 | Refused exactly when a bounded queue is full, otherwise last in the queue. |
| `Senders.Sender.Send` | src/net/net-protocol-stacks/nonblocking/socket/network-api/posix/tcp/net-stack-worker.cc:204-247 | The send loop, through writes of any size: bytes go out frame after frame in queue order, it is idle only with everything written, and it throws exactly on a message that cannot be encoded. All writes but the last took bytes; it reports a closed connection, a failure or having to wait if and only if that is what the last write came to, and drops the message under way on the first two. |
| `Framing.DeliveredInOrder` | src/net/net-protocol-stacks/nonblocking/socket/network-api/posix/tcp/net-stack-worker.cc:155-247 | Whatever has been read, written and queued, what is delivered is a prefix of the messages queued that can be encoded, with their ids and payloads. |
| `Framing.DeliveredAll` | src/net/net-protocol-stacks/nonblocking/socket/network-api/posix/tcp/net-stack-worker.cc:155-247 | With nothing queued, under way or on the wire, it is all of them. |
| `Framing.HeadersGood` | src/net/net-protocol-stacks/nonblocking/socket/network-api/posix/tcp/net-stack-worker.cc:31-44 | In bytes from the sender every header is good and announces a payload. |
| `Framing.Connection.Send` | src/net/net-protocol-stacks/nonblocking/socket/network-api/posix/tcp/net-stack-worker.cc:204-247 | On a connection: what a send reports is what the socket answered, and the sending end is finished if and only if that was the end or a failure. |
| `Framing.Connection.Recv` | src/net/net-protocol-stacks/nonblocking/socket/network-api/posix/tcp/net-stack-worker.cc:155-202 | And the same of a receive and the receiving end. |
| `Framing.NeverRefused` | src/net/net-protocol-stacks/nonblocking/socket/network-api/posix/tcp/net-stack-worker.cc:155-202 | So the receiver never gives the stream of a sender up. |
| `Framing.Connection.Safe` | src/net/net-protocol-stacks/nonblocking/socket/network-api/posix/tcp/net-stack-worker.cc:155-247 | Both in every state of a connection. |
| `Framing.Run` | src/net/net-protocol-stacks/nonblocking/socket/network-api/posix/tcp/net-stack-worker.cc:155-247 | Both after every sequence of queueing, sending and receiving, with every pattern of short reads, short writes and would-block results. |
| `MsgIds.IdsDistinct` | src/net/snd-message.cc:89-117 | No id is 0, and two calls get the same id if and only if a multiple of 2^64 - 2 calls lie between them. |
| `MsgIds.NthValue` | src/net/snd-message.cc:89-117 | The n-th id in closed form, across the wrap-around. |
| `Manager.UniqueWorkerManager.PutWorkerEventHandler` | src/net/net-protocol-stacks/msg-worker-managers/unique-worker-manager.cc:37-53 | The first connection per logical peer wins; the maps are those of the step, and stay in agreement if they were, for handlers with any endpoints; all three maps afterwards. |
| `Manager.UniqueWorkerManager.RemoveFinished` | src/net/net-protocol-stacks/msg-worker-managers/unique-worker-manager.cc:55-69 | A finished connection takes off whatever is registered for its logical endpoint if and only if its real endpoint is known; maps that agree still do, and it took off what has both its endpoints, if and only if no handler registered for another peer has the same real endpoint. The third map keeps an entry for a handler that is gone if and only if one was taken off. |
| `Manager.UniqueWorkerManager.RemoveWorkerEventHandler` | src/net/net-protocol-stacks/msg-worker-managers/unique-worker-manager.cc:71-84 | Takes off what is registered for a logical peer, in the third map too; maps that agree still do if and only if no handler registered for another peer has the same real endpoint. |
| `Manager.StepAgrees` | src/net/net-protocol-stacks/msg-worker-managers/unique-worker-manager.cc:37-84 | Maps that agree still do after an operation if and only if what it takes off shares its real endpoint with no other peer; then the operation did what it does to one map. |
| `Manager.RunAgrees` | src/net/net-protocol-stacks/msg-worker-managers/unique-worker-manager.cc:37-84 | Over any run the maps agree throughout if and only if every operation is fair in that sense to what the one map then has; then they hold what the one map holds. |
| `Manager.RunAll` | src/net/net-protocol-stacks/msg-worker-managers/unique-worker-manager.cc:37-84 | On the class: after any sequence of operations the maps are those of the operations; where a real endpoint is always that of the same logical one they agree and hold what the one map holds. |
| `Manager.StaysRegistered` | src/net/net-protocol-stacks/msg-worker-managers/unique-worker-manager.cc:37-84 | On the maps as they are, over any further run: a registered handler stays registered if and only if neither a disconnect from its peer comes nor the end of a connection to the same peer whose real endpoint is then known. |
| `Manager.StaysWhereFair` | src/net/net-protocol-stacks/msg-worker-managers/unique-worker-manager.cc:37-84 | Over a fair run: if and only if neither a disconnect from its peer nor the end of a connection with the same two endpoints comes. |
| `Manager.FinishTakesOnlyItself` | src/net/net-protocol-stacks/nonblocking/nb-socket-service.cc:164-181 | On the maps as they are: the end of a connection takes no other off if and only if, with another registered for its logical endpoint, its real one is not known; while the maps agree, if and only if no registered handler at all then has its real endpoint. |
| `Manager.FinishTakesItself` | src/net/net-protocol-stacks/nonblocking/nb-socket-service.cc:164-181 | The end of a registered connection takes it off if and only if its real endpoint is known, which it is while the maps agree. |
| `Manager.LateFinish` | src/net/net-protocol-stacks/nonblocking/nb-socket-service.cc:88-148 | It does happen to initiators: dialled, disconnected, dialled again, the late end of the first connection takes the second off. |
| `Manager.SharedFinish` | src/net/net-protocol-stacks/msg-worker-managers/unique-worker-manager.cc:55-69 | And to a connection with another real endpoint, once the real endpoint of the one that ends is used by another peer, although the maps agreed. |
| `Manager.Stranded` | src/net/net-protocol-stacks/msg-worker-managers/unique-worker-manager.cc:55-69 | Of two connections with one real endpoint the end of the first leaves the second registered for good after its own end. |
| `Handshake.NextInv` | src/net/net-protocol-stacks/nonblocking/socket/network-api/posix/tcp/net-stack-worker.cc:253-382 | Every step of either end, in the handshake or with messages of the application, keeps what each end has sent, received and may send next; the verdict of an acceptor is OK if and only if the connection was registered there. |
| `Handshake.RunConns` | src/net/net-protocol-stacks/nonblocking/socket/network-api/posix/tcp/net-stack-worker.cc:253-382 | In every run, with any number of nodes dialling each other, every connection has it. |
| `Handshake.InitiatorLast` | src/net/net-protocol-stacks/nonblocking/socket/network-api/posix/tcp/net-stack-worker.cc:293-307 | An initiator becomes Connected only after the acceptor had registered the same connection and sent its second OK. |
| `Handshake.ConnectedEnrolled` | src/net/net-protocol-stacks/nonblocking/socket/network-api/posix/tcp/net-stack-worker.cc:344-368 | An end that is or was Connected has had the connection registered at the acceptor. |
| `Handshake.ExpectedMessages` | src/net/net-protocol-stacks/nonblocking/socket/network-api/posix/tcp/net-stack-worker.cc:308-379 | The branches for a corrupt request, a refused request and an unexpected state are never entered; an end in its handshake never gets a message of the application, a Connected one never gets one of the handshake. |
| `Handshake.Verdict` | src/net/net-protocol-stacks/nonblocking/socket/network-api/posix/tcp/net-stack-worker.cc:344-368 | In every run the last step of an acceptor that can send sends exactly one verdict, its second message: OK if its node had no handler for the peer, otherwise an error; and the connection is registered if and only if it had none. |
| `Handshake.FailsExactly` | src/net/net-protocol-stacks/nonblocking/socket/network-api/posix/tcp/net-stack-worker.cc:253-382 | A step of the handshake fails its end if and only if it got another message than it waits for, cannot send its own, finds a handler for the peer, or cannot set its socket. |
| `Handshake.OneAtATime` | src/net/net-protocol-stacks/nonblocking/socket/network-api/posix/tcp/net-stack-worker.cc:253-382 | A step takes at most the next message and sends at most one behind all others; a request is answered with OK, anything else in its place with an error. |
| `Handshake.StatesForward` | src/net/net-protocol-stacks/nonblocking/socket/network-api/posix/tcp/net-stack-worker.cc:253-382 | A step moves at most one end, to a later state: a Connected end never fails, and what has failed or was closed stays so. |
| `Handshake.CanBeOver` | src/net/net-protocol-stacks/nonblocking/socket/network-api/posix/tcp/net-stack-worker.cc:253-382 | No connection is stuck: from every state at most one step of each end ends it at both. |
| `Handshake.DataArrives` | src/net/net-protocol-stacks/nonblocking/socket/network-api/posix/tcp/net-stack-worker.cc:155-247 | What a Connected end sends arrives at a Connected peer that has taken all before it. |
| `Handshake.RunReg` | src/net/net-protocol-stacks/msg-worker-managers/unique-worker-manager.cc:37-53 | In every run a registered handler is that of an end of a connection of that node, under its peer. |
| `Handshake.RegistryStep` | src/net/net-protocol-stacks/msg-worker-managers/unique-worker-manager.cc:37-84 | What every step does to the registry of every node, endpoint by endpoint. |
| `Handshake.FiledAreUp` | src/net/net-protocol-stacks/nonblocking/socket/network-api/posix/tcp/net-stack-worker.cc:344-368 | In every run a registered connection has been registered at its acceptor; where no last message and no socket setting fails, every registered handler is that of a Connected end. |
| `Handshake.ManagersAgree` | src/net/net-protocol-stacks/msg-worker-managers/unique-worker-manager.cc:37-84 | In every run what is asked of the manager of a node has consistent endpoints and addresses, so that its three maps agree and hold exactly the registry the handshake is modelled with. |
| `Handshake.FailedOnFile` | src/net/net-protocol-stacks/nonblocking/socket/network-api/posix/tcp/server-event-handler.cc:92-102 | An acceptor leaves a deleted handler registered if and only if it could register and then the last message or the socket setting failed; an initiator if and only if it got the OK, could register and its socket setting failed. |
| `Handshake.OneAtBothEnds` | src/net/net-protocol-stacks/msg-worker-managers/unique-worker-manager.cc:37-53 | A remark on registries: two connections between the same two nodes are never registered at both ends. |
| `Handshake.OneDial` | src/net/net-protocol-stacks/nonblocking/socket/network-api/posix/tcp/net-stack-worker.cc:253-368 | A single dial ends with both ends Connected if and only if a node does not dial itself. |
| `Handshake.RefusedDial` | src/net/net-protocol-stacks/nonblocking/socket/network-api/posix/tcp/net-stack-worker.cc:344-368 | A dial to a node that has a handler for the one that dials ends with an error received and both ends failed, and changes neither another connection nor a registry. |
| `Handshake.SecondDial` | src/net/net-protocol-stacks/nonblocking/socket/network-api/posix/tcp/net-stack-worker.cc:253-368 | Of two dials of one node to another, one after the other, the first stays up and registered at both ends and the second is refused. |
| `Handshake.CrossedDials` | src/net/net-protocol-stacks/nonblocking/socket/network-api/posix/tcp/net-stack-worker.cc:293-307 | Two nodes have dialled each other and both wait for the last messages: over every interleaving of these, neither connection comes up at both ends if and only if both nodes answer as acceptors before either hears the answer to its own dial. |
| `Handshake.CrossedReached` | src/net/net-protocol-stacks/nonblocking/socket/network-api/posix/tcp/net-stack-worker.cc:253-368 | From the start, two dials lead any two different nodes to that point. |
| `EventLoop.Harmless` | src/net/net-protocol-stacks/nonblocking/socket/network-api/posix/event-manager.cc:108-147 | Under the invariant no careful step touches a destroyed handler, destroys one twice or one still held, or queues work for one without a worker. |
| `EventLoop.Keeps` | src/net/net-protocol-stacks/nonblocking/socket/network-api/posix/event-manager.cc:108-147 | Every careful step of senders, handshakes, disconnects, ends of connections and the worker loop keeps the invariant, with the manager's maps as they are and the waking of the worker a step of its own. |
| `EventLoop.StartInv` | src/net/net-protocol-stacks/nonblocking/socket/event-drivers/event-worker.h:33-86 | A new worker, with its three queues empty, has the invariant. |
| `EventLoop.RunsSafe` | src/net/net-protocol-stacks/nonblocking/socket/network-api/posix/event-manager.cc:108-147 | In every careful run, whatever the interleaving and whatever endpoints are shared, no step does harm, and a handler without references is at every moment in exactly one of the delete queue, the hands of the worker, or destroyed. |
| `EventLoop.StepConserves` | src/net/net-protocol-stacks/nonblocking/socket/network-api/posix/event-manager.cc:108-147 | No step drops or repeats anything of the queues of work, of events and of handlers to be added. |
| `EventLoop.RunsConserve` | src/net/net-protocol-stacks/nonblocking/socket/network-api/posix/event-manager.cc:108-147 | In every run, careful or not: the handlers work was queued for are, in order, those it was processed for and those still queued; the same for the events waited for and for the handlers to be added; and the manager holds what was asked of it. |
| `EventLoop.RunsSenders` | src/net/net-protocol-stacks/nonblocking/nb-socket-service.cc:59-86 | In every run the senders of a handler are those that found it less those that gave it up. |
| `EventLoop.RunsWatch` | src/net/net-protocol-stacks/nonblocking/socket/network-api/posix/event-manager.cc:108-147 | In every run every handler to be added is still queued, watched, or was taken for destruction; and nothing else is watched. |
| `EventLoop.LastGiven` | src/net/net-protocol-stacks/nonblocking/socket/network-api/abstract-file-event-handler.h:44-52 | The last reference to a handler with a worker queues it for destruction and has the worker woken; no other does. |
| `EventLoop.CounterTracks` | src/net/net-protocol-stacks/nonblocking/socket/network-api/abstract-file-event-handler.h:44-52 | After a release the counter in memory tells the references if and only if at most two were held, because reading it keeps only its lowest bit; read without the mask, always. |
| `EventLoop.EndTracks` | src/net/net-protocol-stacks/nonblocking/nb-socket-service.cc:164-181 | After the end of a connection all counters tell their references if and only if, with another connection registered for its peer, its real endpoint was not known: otherwise another was taken off and this one released. |
| `EventLoop.DestroyLeaves` | src/net/net-protocol-stacks/nonblocking/socket/network-api/abstract-file-event-handler.h:44-52 | Destroying what was drained leaves a thread to wake the worker through a destroyed handler if and only if some handler drained is still to be woken for. |
| `EventLoop.HarmBeforeWorker` | src/net/net-protocol-stacks/nonblocking/socket/network-api/net-stack-msg-worker.cc:47-53 | Queueing work does harm if and only if the handler has no worker yet; deleting it after its handshake if and only if it is registered or held. |
| `EventLoop.ThirdReference` | src/ccsys/gcc-buildin.h:17-17 | With three references a run after which the worker destroys a handler still held. |
| `EventLoop.AddPending` | src/net/net-protocol-stacks/nonblocking/socket/network-api/posix/event-manager.cc:141-145 | With its add-event still queued a handler is watched after it was destroyed. |
| `EventLoop.EarlyPost` | src/net/net-protocol-stacks/nonblocking/socket/network-api/net-stack-msg-worker.cc:47-53 | From the start, a sender finds a registered handler that has no worker yet. |
| `EventLoop.DiscardRegistered` | src/net/net-protocol-stacks/nonblocking/nb-socket-service.cc:132-135 | From the start, a handshake that fails after registering deletes a handler that can still be found. |
| `EventLoop.LateEnd` | src/net/net-protocol-stacks/nonblocking/nb-socket-service.cc:164-181 | From the start, dialled, disconnected and dialled again, the late end of the first connection lets the worker destroy it while a sender holds it. |
| `EventLoop.SharedEnd` | src/net/net-protocol-stacks/nonblocking/nb-socket-service.cc:164-181 | From the start, the same where the first connection came from an endpoint that another peer has come from since. |
| `EventLoop.LateWake` | src/net/net-protocol-stacks/nonblocking/socket/network-api/abstract-file-event-handler.h:44-52 | From the start, a thread that queued a handler for destruction reads it to wake the worker after the worker destroyed it. |
| `EventLoop.QueuedPerRead` | src/net/net-protocol-stacks/nonblocking/socket/network-api/abstract-file-event-handler.h:44-52 | When up to two references are given up in any interleaving of decrements and reads, the handler is queued as often as there are reads after the last decrement. |
| `EventLoop.QueuedInTurn` | src/net/net-protocol-stacks/nonblocking/socket/network-api/abstract-file-event-handler.h:44-52 | References given up one after the other queue the handler once if and only if there were one, two or three; every second of more does. |
| `EventLoop.OverlappingReleases` | src/net/net-protocol-stacks/nonblocking/socket/network-api/abstract-file-event-handler.h:44-52 | Two overlapping releases queue the handler twice, two in sequence once. |
| `SkipList.SkipList.FindNode` | src/common/skip-list.h:230-245 | Finds the element with the key exactly when there is one. |
| `SkipList.SkipList.FindPrevious` | src/common/skip-list.h:217-228 | At every level in use, the last node before the key; the write past the array of previous nodes happens if and only if the last level is in use. |
| `SkipList.Walk` | src/common/skip-list.h:222-224 | Along one level to the position that divides smaller keys from the others. |
| `SkipList.LinkIn` | src/common/skip-list.h:112-115 | The insert loop links the new node in at each of its levels and changes no other link. |
| `SkipList.SpliceLinked` | src/common/skip-list.h:112-115 | A level stays sorted and linked when the node goes in where its key belongs. |
| `SkipList.SkipList.Insert` | src/common/skip-list.h:90-116 | Adds the element or replaces the equal one, all levels staying sorted sublists, if the new node is no higher than the current level, or nothing at that level is smaller, or the key is there; otherwise the list is out of order at that level. It writes past its array if and only if the last level is in use or a new node reaches it. |
| `SkipList.OutOfOrder` | src/common/skip-list.h:103-105 | And then there is no way to see it as a list: the condition is exact. |
| `SkipList.Misplaced` | src/common/skip-list.h:103-105 | Two elements are enough. |
| `SkipList.HeadFill` | src/common/skip-list.h:101-109 | With the head filled in from the level above the current one the new node would belong where it goes, whatever its level; filled in from the current one, as written, if and only if that level has no smaller key. |
| `SkipList.SkipList.InsertAbove` | src/common/skip-list.h:90-116 | Insert with the head filled in from the level above: for every level drawn the list stays a list, with the element in it once. |
| `SkipList.LinkPast` | src/common/skip-list.h:127-133 | The erase loop links past the node at each of its levels and changes no other link. |
| `SkipList.SkipList.Erase` | src/common/skip-list.h:118-144 | Takes the element with the key out of every level and reports whether there was one; all else stays, and the level becomes the highest one not empty. It writes past its array if and only if the last level is in use. |
| `SkipList.SkipList.LowerLevel` | src/common/skip-list.h:137-141 | Ends with the highest level in use, or the lowest. |
| `SkipList.SkipList.constructor` | src/common/skip-list.h:195-200 | An empty list; fewer than 32 levels asked for are four. |
| `Murmur32.FmixInverse` | src/common/hash-algorithms.cc:45-54 | fmix32 is a permutation of the words, with its inverse written out. |
| `Murmur32.StepInverse` | src/common/hash-algorithms.cc:90-98 | The step of a block is a permutation of the states for each block and of the blocks for each state. |
| `Murmur32.MurmurHash3` | src/common/hash-algorithms.cc:71-124 | The loop over negative block indices is a fold over the blocks in the order of the key, then the tail, the length and the final mix. |
| `Murmur32.HashInjective` | src/common/hash-algorithms.cc:71-124 | Keys of one length that differ in one block only, or in the tail only, have different hashes. |
| `Murmur32.ShortKeys` | src/common/hash-algorithms.cc:71-124 | Keys of one length of at most four bytes do not collide. |
| `Murmur32.FourByteKeys` | src/common/hash-algorithms.cc:71-124 | On keys of four bytes the hash is a permutation of the words. |
| `Murmur32.LengthCounts` | src/common/hash-algorithms.cc:118-122 | Of two keys with the same blocks and tails that are the same but for zeros at the end, the hashes are equal if and only if the keys are. |
| `Murmur32.ZeroAppended` | src/common/hash-algorithms.cc:103-122 | A zero byte more gives another hash, wherever it does not complete a block. |
| `Murmur32.EmptyKey` | src/common/hash-algorithms.cc:71-124 | The hash of the empty key is the final mix of the seed. |
| `Murmur32.EmptyAnswers` | src/common/hash-algorithms.cc:71-124 | The published hashes of the empty key for three seeds. |
| `Murmur32.HelloAnswer` | src/common/hash-algorithms.cc:71-124 | The published hash of a greeting of 13 bytes, three blocks and a tail. |
| `Murmur128.FmixInverse` | src/common/hash-algorithms.cc:58-67 | fmix64 is a permutation of the words, with its inverse written out. |
| `Murmur128.StepInverse` | src/common/hash-algorithms.cc:254-263 | The step of a block is a permutation of the states for each block and of the blocks for each state. |
| `Murmur128.FinalInverse` | src/common/hash-algorithms.cc:299-308 | The finalisation is a permutation of the states for each length. |
| `Murmur128.MurmurHash3` | src/common/hash-algorithms.cc:234-312 | The loop is the fold of the steps over the blocks, with tail and finalisation. |
| `Murmur128.HashInjective` | src/common/hash-algorithms.cc:234-312 | Keys of one length that differ in one block of 16 bytes only, or in the tail only, have different hashes. |
| `Murmur128.SixteenByteKeys` | src/common/hash-algorithms.cc:234-312 | On keys of 16 bytes the hash is a permutation of the 128-bit values. |
| `Murmur128.LengthCounts` | src/common/hash-algorithms.cc:296-308 | Of two keys with the same blocks and tails that are the same but for zeros at the end, the hashes are equal if and only if the keys are. |
| `Murmur128.ZeroAppended` | src/common/hash-algorithms.cc:268-308 | A zero byte more gives another hash, wherever it does not complete a block. |
| `Murmur128.FoxAnswer` | src/common/hash-algorithms.cc:234-312 | The published hash of a sentence of 43 bytes, two blocks and a tail. |
| `RpcIndex.RpcClient.Register` | src/rpc/abstract-rpc-sync-client.cc:118-129 | The call waits under its id and in the set of its peer; both indexes stay in agreement if and only if no call waits under the id; the callback of the first call serves all. |
| `RpcIndex.AddIndexed` | src/rpc/abstract-rpc-sync-client.cc:118-129 | Entering a call keeps the indexes if and only if no other waits under its id. |
| `RpcIndex.RpcClient.Complete` | src/rpc/abstract-rpc-sync-client.cc:64-70 | The call leaves both indexes, and an emptied set of a peer goes; it has its one outcome. |
| `RpcIndex.RpcClient.OnMessage` | src/rpc/abstract-rpc-sync-client.cc:51-84 | A response completes the call it is for if that waits, and nothing otherwise. |
| `RpcIndex.RpcClient.OnBroken` | src/rpc/abstract-rpc-sync-client.cc:85-111 | A broken connection completes the calls under its real endpoint: all calls of its logical peer are completed if and only if the two endpoints are equal or none waits, and no others if and only if they are equal or none is completed. |
| `RpcIndex.RpcClient.OnTimeout` | src/rpc/abstract-rpc-sync-client.cc:131-154 | Whichever timer fires, the call that waits under the id of the first call ever made is completed, if there is one, and no other. |
| `RpcIndex.Run` | src/rpc/abstract-rpc-sync-client.cc:51-154 | In every run with distinct ids every call made waits or has completed with exactly one outcome, that of what came first for it after it was made: its answer, a break of a connection with its endpoint, or, for the first call ever made alone, any timeout. |
| `Timers.TimeTotals` | src/ccsys/cctime.h:36-71 | On normal times comparison and addition are those of the nanoseconds. |
| `Timers.EveryInstant` | src/ccsys/cctime.h:36-71 | Every number of nanoseconds is that of a normal time. |
| `Timers.TableOrder` | src/ccsys/timer.h:35-37 | The comparison of event ids is an order on a set of them if and only if no two have time and callback opposite; then it is by time and callback. |
| `Timers.TableOrderFails` | src/ccsys/timer.h:35-37 | In general two ids are each below the other. |
| `Timers.TwoBuilt` | src/ccsys/timer.h:35-37 | Any two ids with time and callback opposite: inserted one after the other, the first is lost to a search that looks at the second. |
| `Timers.SearchExact` | src/ccsys/timer.h:35-37 | In a table of distinct ids searched with that comparison, every search finds its id, whichever way it goes, if and only if of every two ids the first is below the second and not the other way round. |
| `Timers.InsertOrdered` | src/ccsys/timer.cc:57-62 | Inserting where a search ends keeps such a table ordered as long as no two ids have time and callback opposite. |
| `Timers.BuiltExact` | src/ccsys/timer.cc:40-63 | Of the tables built by insertions, whichever ways the searches went, exactly those are searched without fail in which no two ids have time and callback opposite. |
| `Timers.Timer.SubscribeEventAt` | src/ccsys/timer.cc:40-63 | Adds one event in order of time, and its id to the table where a search ends; refused exactly when some event has the same time and one from there on the same callback, which covers every equal id; every event subscribed is pending, fired or cancelled, once. |
| `Timers.Timer.UnsubscribeEvent` | src/ccsys/timer.cc:73-87 | Cancels the event if the search of the table finds its id, whichever way that goes; as long as no two ids seen have time and callback opposite, that is exactly when it is pending, and events and table stay in bijection. |
| `Timers.CancelMissed` | src/ccsys/timer.cc:73-87 | On the timer: for any two ids that have, the one subscribed first is pending and yet not found when it is to be cancelled. |
| `Timers.Timer.UnsubscribeAllEvent` | src/ccsys/timer.cc:89-93 | No event and no id is left. |
| `Timers.Timer.Process` | src/ccsys/timer.cc:99-109 | With the clock read again for every event: fires in order of time, each at a reading not before its time, until none is left or a reading is before the earliest; none fires twice, and as long as the ids seen are coherent each leaves the table too. |
| `RfLog.RecoverAll` | src/server/rflog/realtime-disk-rflogger.h:22-26 | In the documented layout recovery returns the entries written, in order. |
| `RfLog.FileLayout` | src/server/rflog/realtime-disk-rflogger.h:15-26 | The file byte by byte: the letters rflg, and then for an entry its length, its content and where its segment starts. |
| `RfLog.RecoverExact` | src/server/rflog/realtime-disk-rflogger.h:22-26 | Recovery returns entries if and only if the file is the one of those entries, and finds every other corrupt. |
| `RfLog.RecoverWritten` | src/server/rflog/realtime-disk-rflogger.h:22-26 | Appended in any number of portions, each at the size the file then has, the entries come back, all and in order. |
| `RfLog.Portions` | src/server/rflog/realtime-disk-rflogger.h:22-26 | A portion goes behind what is there, each segment with its own start. |
| `RfLog.SyncCursor` | src/server/rflog/realtime-disk-rflogger.cc:88-116 | Where the loop of Sync writes each field. |
| `RfLog.OnlyTwoPlaced` | src/server/rflog/realtime-disk-rflogger.cc:102-116 | Of a portion a field is written where it belongs if and only if it is the first or the second. |
| `RfLog.LastFieldLost` | src/server/rflog/realtime-disk-rflogger.cc:88-122 | The start of the last segment of a portion is always written at least partly behind the bytes that reach the file. |
| `RfLog.ReaderExact` | src/server/rflog/realtime-disk-rflogger.cc:174-193 | The offsets of the reader as written return the entries of a file of the documented layout if and only if there are none. |
| `RfLog.ReaderWalks` | src/server/rflog/realtime-disk-rflogger.cc:174-193 | What the reader as written does go through to the last byte: segments whose length counts its own field; for a content it takes the bytes from the start of the segment up to the place in the file that the length names. |
| `RfLog.ReaderEnd` | src/server/rflog/realtime-disk-rflogger.cc:174-193 | A rest of a file of at most four bytes is read outside of, unless it is a length of zero. |
| `RfLog.NewFileExact` | src/server/rflog/realtime-disk-rflogger.cc:126-151 | With the header of a new file not counted in its size, what is appended is recovered if and only if nothing is. |
| `RfLog.ResyncExact` | src/server/rflog/realtime-disk-rflogger.cc:88-122 | With the sync index never advanced by a sync, the portions carry the entries appended if and only if none were appended before the last portion. |
| `RfLog.ResyncRecovered` | src/server/rflog/realtime-disk-rflogger.cc:88-122 | With the sync index never advanced each portion carries all entries so far, and all of them are read back. |

## Left out

- Raft consensus, server bootstrap and the internal messenger: their handlers return constants or are empty.
- MurmurHash3_x86_128: four words stepped like the two of the modelled one.
- `segmented-vector.h`: unused.
- Liveness: condition variables, wake-ups, and whether a peer ever answers.
- Locks are taken as atomic sections; a put of the pool, which locks its slot and then the handle list, is one step.
- Logging, configuration, thread pool, spin and read-write locks, debug dumps.
- The pool's slots of all three levels are one table by level and index, and the bulk level is an object of its own; that pages of the two never overlap is the allocator's.
- Counters of the pool are unbounded integers: their wrap-around at 2^32 free objects is not modelled.
- MemPool.MemPool.Get: for sizes up to the bulk threshold; larger ones are those of BulkPool.BulkPool.Get.
- BulkPool.BulkPool.Get: what happens after the division by zero is not modelled, only reported; nor what happens after MemPool.MemPool.Get used a missing slot or object.
- BulkPool.BulkPool.Put: where the page set is missing the code uses an invalid iterator; the model only reports it.
- Senders.Sender.Send: not called again after a failed write, since the connection is then finished; messages that other threads queue during a call count as queued before or after it.
- Receivers.Receiver.Recv: not called again after a refused header; the buffers' free list is not modelled.
- The queue's Clear on disconnect, and the blocking Push and Pop.
- Handshake and EventLoop are transition systems over values: that the code updates its objects in place, and what a thread sees between two steps of another, is modelled by the steps only.
- Handshake.RunConns: reads that return part of a handshake message, for which see Receivers.Receiver.RecvNested. The endpoint a connection comes from is never used again there; that it may be is in Manager and EventLoop. An application sends there on Connected ends only: between registration and the last handshake message a handler has no worker, and queueing work for it is the subject of EventLoop.HarmBeforeWorker.
- EventLoop.RunsSafe: Release is one step there; that its two atomic operations may interleave is the subject of EventLoop.QueuedPerRead. A connection's references are those of the manager and of senders. There is one worker; the code has several, each with its own queues and handlers, that share the manager.
- Manager.UniqueWorkerManager.PutWorkerEventHandler: handlers registered at the same time have different addresses; reference counting on lookup is in EventLoop.
- SkipList.SkipList.FindPrevious: the write past the array is reported and the node kept in a cell of its own; what that write overwrites is not modelled.
- Skip-list clear, which skips every second node, and the iterator.
- Timers.Timer.SubscribeEventAt: the table is a sequence with searches of any shape, not the standard map's tree, whose insertion compares the other way round; the two differ only for ids with time and callback opposite.
- Timers.Timer.UnsubscribeEvent: a table entry whose event is gone leads to no other event, even if one with its id was subscribed since.
- RpcIndex.Run: for calls whose ids differ, as MsgIds.IdsDistinct has it for ids in use at the same time.
