# A verified model of the RPC framework's core

The Dafny files here model the parts of the framework whose correctness is an argument over whole
runs: the weighted round-robin scheduler, the connection buffer and the framing on top of it, the
thread pool, consistent hashing and least-connection balancing, the client's blocking reads, and the
two text and wire codecs. `dafny verify dfyconfig.toml` checks all of it.

Code that changes state is modelled by classes and loops; every such method is proved against a
function of its inputs and of the old state, and the theorems are about those functions.

| part | files | main results |
|---|---|---|
| weighted round robin | `SmoothSchedule`, `WeightedRoundRobin`, `WeightedRuns`, `Sums` | exact shares in every window of W calls and return to zero, each iff all weights are positive, the greatest raised weight picked on any list, period W, deviation below one total, no int overflow, the state under changing lists |
| buffer, framing, server, client | `Bytes`, `Buffer`, `Frames`, `TcpConnection`, `FrameCodec`, `TcpClient` | an array with two indices refines a byte queue, reassembly of messages under any chunking, conservation of bytes, a capacity that never reaches the limit, exact reads |
| thread pool | `ThreadPool` | conservation of tasks in every interleaving, the drain guarantee with its exact boundary, a stopped pool neither deadlocks nor runs on, whatever late submitters do |
| hash ring | `Fnv`, `HashRing`, `ConsistentHash` | removal of an instance moves exactly its own keys, collisions included; when the ring is rebuilt and which keys keep their instance over a run; hashes of near keys differ |
| least connection | `LeastConnection` | counts are exact and no instance exceeds ceil(K / n) |
| registry codec | `InstanceCodec`, `Decimal`, `ServiceInstance` | the round trip holds iff the text is free of the separators |
| messages | `Wire`, `Utf8`, `RpcProto`, `RpcProtocolHelper` | the wire merge law, text that is valid iff it encodes code points, round trips with their exact conditions, size equals length |

## What the code does differently from what is said about it

- The weighted balancer clamps each weight to at least 1 but sums the weights as they are
  (src/load_balancer/weighted_round_robin_load_balancer.cpp:40-41). "Precise traffic shares"
  (src/load_balancer/README.md:35) hold for positive weights only: `ExactSharesIff` says so for every list
  with a positive total, `ZeroWeightIsServed` is a list that fails, and `ComesBackIffPositive` shows that
  with any other weight the stored weights never return to zero.
- "The same key always goes to the same instance" (src/load_balancer/README.md:53) and "a new node
  takes over a part of the keys" (src/load_balancer/README.md:93) do not describe the lazy rebuild: a
  call whose owner is not healthy goes to the first healthy instance and rebuilds the ring
  (`ConsistentHash.MissedCall`). `AllHitIff` and `KeyKeepsOwner` say exactly when the keys of a run stay
  where they are, and that an instance that joins gets nothing until some call misses; `SameKeyMoves`
  is a run after which a key has moved.
- Minimal disruption holds for two rings built from two lists (`MinimalDisruption`); which of the two
  a call sees depends on that rebuild; `FailureMovesOnlyItsKeys` puts the two together.
- An accepted task may never run: `submit` reads `stop_` outside the lock
  (include/thread_pool.h:71-86). `AcceptedTaskCanBeStranded` is a run in which this happens, and
  `Drain` says for every task whether it runs.
- A message of no bytes is encoded as no bytes, not as an empty frame, so it is never delivered;
  `Frames.RoundTripIff` gives the sizes that come back.
- `decodeFrame` discards whatever is buffered behind a bad length, so on malformed streams the result
  depends on the chunking; `ChunkingMattersIff` says exactly when two chunks differ from one, and
  `ChunkingMatters` is a stream on which they do. `FrameCodec` keeps the bytes, and its result never
  depends on the chunking.
- The request with every field at its default is sent as no bytes, which the receiver refuses
  (`RequestComesBackIff`). The error text of a successful response is not sent (`ResponseArrives`).
- `shrink` moves the readable bytes to index 8 before it makes room. After a `prepend` into a full
  block they do not fit there; `ShrinkNeedsRoom` builds such a buffer, and `Shrink` requires the room.
- The top-level README describes a `recv` of at most 4096 bytes into the connection (README.md:215);
  the code reads with `readv` (src/utils/buffer.cpp:10-37), and the code is what is modelled.

## Model

| member | source | states |
|---|---|---|
| SmoothSchedule.Drift | src/load_balancer/weighted_round_robin_load_balancer.cpp:35-56 | from reset, any weights: the stored weights sum to t times the gap between clamped and raw total, and every call picks some instance |
| SmoothSchedule.Floor | src/load_balancer/weighted_round_robin_load_balancer.cpp:44-55 | no stored weight ever falls below 1 - W |
| SmoothSchedule.Accounting | src/load_balancer/weighted_round_robin_load_balancer.cpp:38-56 | a stored weight is t times the instance's weight less W times the number of its picks |
| SmoothSchedule.EveryCallPicksOnce | src/load_balancer/weighted_round_robin_load_balancer.cpp:47-61 | the picks of all instances after t calls add up to t |
| SmoothSchedule.Deviation | src/load_balancer/weighted_round_robin_load_balancer.cpp:38-55 | -(n-1)(W-1) <= W * picks - t * w <= W - 1 after every prefix of t calls |
| SmoothSchedule.Exactness | src/load_balancer/weighted_round_robin_load_balancer.cpp:27-64 | W calls pick instance i exactly w_i times and bring every stored weight back to zero |
| SmoothSchedule.Periodic | src/load_balancer/weighted_round_robin_load_balancer.cpp:35-64 | state and pick repeat with period W |
| SmoothSchedule.WindowExact | src/load_balancer/weighted_round_robin_load_balancer.cpp:35-64 | every window of W calls, aligned or not, picks instance i exactly w_i times |
| SmoothSchedule.ReturnsIffPositive | src/load_balancer/weighted_round_robin_load_balancer.cpp:40-41 | the state ever returns to zero if and only if every weight is positive |
| SmoothSchedule.ExactIffPositive | src/load_balancer/weighted_round_robin_load_balancer.cpp:35-56 | with W > 0, every window of W calls picks every instance exactly w_i times if and only if every weight is positive |
| SmoothSchedule.ZeroIsPicked | src/load_balancer/weighted_round_robin_load_balancer.cpp:40-55 | on weights 0 and 5 the first window already picks the weight 0 once |
| SmoothSchedule.NoOverflow | src/load_balancer/weighted_round_robin_load_balancer.cpp:38-55 | with n * W an int32, every intermediate weight and partial total is an int32 |
| WeightedRoundRobin.WeightedRoundRobinLoadBalancer.Select | src/load_balancer/weighted_round_robin_load_balancer.cpp:10-65 | result, both errors and the new map are those of the specification function |
| WeightedRoundRobin.WeightedRoundRobinLoadBalancer.InitWeights | src/load_balancer/weighted_round_robin_load_balancer.cpp:27-33 | healthy instances not seen before get weight 0, no other entry changes |
| WeightedRoundRobin.WeightedRoundRobinLoadBalancer.Accumulate | src/load_balancer/weighted_round_robin_load_balancer.cpp:35-52 | raises every weight, totals the raw weights and keeps the first greatest weight above zero |
| WeightedRoundRobin.WeightedRoundRobinLoadBalancer.Reset | src/load_balancer/weighted_round_robin_load_balancer.cpp:68-72 | forgets every stored weight |
| WeightedRoundRobin.SelectIsStep | src/load_balancer/weighted_round_robin_load_balancer.cpp:10-65 | for distinct ids a call is one scheduler step on the healthy slots, leaves all other stored weights alone, and returns the pick or else the first healthy instance |
| WeightedRuns.RunIsSchedule | src/load_balancer/weighted_round_robin_load_balancer.cpp:10-65 | the map and the results of a whole run are the state and picks of the scheduler; the fallback is never taken on a fixed list |
| WeightedRuns.ExactShares | src/load_balancer/weighted_round_robin_load_balancer.cpp:27-64 | in every window of W calls each instance is returned exactly as often as its weight says |
| WeightedRuns.ExactSharesIff | src/load_balancer/weighted_round_robin_load_balancer.cpp:27-64 | on a schedulable list with W > 0, every window of W calls returns every instance as its weight says if and only if all weights are positive |
| WeightedRuns.ZeroWeightIsServed | src/load_balancer/weighted_round_robin_load_balancer.cpp:40-55 | of the first five calls on an instance of weight 0 and one of weight 5, one goes to the weight 0 |
| WeightedRuns.RunIsPeriodic | src/load_balancer/weighted_round_robin_load_balancer.cpp:35-64 | results and stored weights of the balancer repeat with period W |
| WeightedRuns.ComesBackIffPositive | src/load_balancer/weighted_round_robin_load_balancer.cpp:40-41 | the balancer's map returns to all zeros if and only if every weight is positive |
| WeightedRuns.SharesStayClose | src/load_balancer/weighted_round_robin_load_balancer.cpp:38-55 | what an instance was served stays within the deviation bound, and the map holds exactly the difference |
| WeightedRuns.WeightsFitInt | src/load_balancer/weighted_round_robin_load_balancer.cpp:44-55 | what the map holds and what a call raises it to are int32 values when n * W is one |
| WeightedRuns.OneCall | src/load_balancer/weighted_round_robin_load_balancer.cpp:10-64 | any list, any weights, any stored weights: the two errors and exactly when; the sum of all stored weights grows by the clamped total, less the raw total unless the call falls back; none falls below 1 - W by it; the result is healthy and from the list |
| WeightedRuns.AnyHistory | src/load_balancer/weighted_round_robin_load_balancer.cpp:27-64 | over lists whose members and weights change from call to call every stored weight stays at or above 1 - (greatest total seen), and all of them sum to what the calls gained |
| WeightedRuns.PositiveHistory | src/load_balancer/weighted_round_robin_load_balancer.cpp:27-64 | with positive weights the stored weights sum to exactly the totals of the calls that fell back |
| WeightedRuns.FallsBackIff | src/load_balancer/weighted_round_robin_load_balancer.cpp:48-64 | a call falls back if and only if no healthy instance's weight rises above zero |
| WeightedRuns.FirstPickAloneFallsBackIff | src/load_balancer/weighted_round_robin_load_balancer.cpp:53-64 | offered alone after it was the first pick, an instance is reached by the fallback if and only if it holds at most half of the total weight |
| WeightedRuns.PicksGreatest | src/load_balancer/weighted_round_robin_load_balancer.cpp:10-65 | one call on any list, ids repeated or not: it returns an instance with the greatest raised weight and takes the raw total back from that alone, or, exactly if no raised weight is above zero, the first healthy instance |
| ServiceInstances.SameIdIff | include/registry.h:40-42 | two ids are equal if and only if host and port are, even if a host holds colons |
| ServiceInstances.DistinctIdsIff | include/registry.h:40-42 | a list has distinct ids if and only if no two instances share host and port |
| ServiceInstances.FilterHealthy | src/load_balancer/weighted_round_robin_load_balancer.cpp:14-20 | the healthy instances in their order |
| ServiceInstances.HealthySound | src/load_balancer/weighted_round_robin_load_balancer.cpp:14-20 | what the filter keeps is healthy and from the list |
| ServiceInstances.HealthyComplete | src/load_balancer/weighted_round_robin_load_balancer.cpp:14-20 | the filter keeps every healthy instance |
| ServiceInstances.NoneHealthyIff | src/load_balancer/weighted_round_robin_load_balancer.cpp:21-23 | nothing is left by the filter if and only if no instance is healthy |
| ServiceInstances.FirstWithIdIsFirst | src/load_balancer/weighted_round_robin_load_balancer.cpp:58-62 | the instance found by its id is the first with that id |
| Bytes.FromBigEndianOfBigEndian | include/buffer.h:156-162 | an integer written in network order reads back modulo its width |
| Bytes.BigEndianOfFromBigEndian | include/buffer.h:123-132 | bytes read as an integer and written again are the same bytes |
| Bytes.BigEndianByte | include/buffer.h:156-162 | byte k of an integer in network order is its digit in base 256, most significant first |
| Bytes.IntReadsBack | include/buffer.h:122-162 | an appended integer is read back and what follows it is left, whatever that is |
| Buffers.Buffer.constructor | include/buffer.h:27-31 | an empty queue with 8 bytes of prepend space |
| Buffers.Buffer.Retrieve | include/buffer.h:70-76 | drops that many bytes off the front, or all there are |
| Buffers.Buffer.RetrieveAll | include/buffer.h:79-82 | leaves the empty queue |
| Buffers.Buffer.RetrieveAsVector | include/buffer.h:85-92 | returns the front and keeps the rest; together they are what was there |
| Buffers.Buffer.PeekInt | include/buffer.h:123-132 | the big-endian value of the front, or the error when too little is there |
| Buffers.Buffer.ReadInt | include/buffer.h:134-139 | the same and removes it; on the error nothing changes |
| Buffers.Buffer.Append | include/buffer.h:142-146 | puts the data behind the queue, or throws and changes nothing; says exactly when it throws and when the array grows |
| Buffers.Buffer.AppendInt | include/buffer.h:157-162 | puts the big-endian bytes behind the queue, or throws and changes nothing; says exactly when |
| Buffers.Buffer.Prepend | include/buffer.h:165-171 | puts the data in front of the queue, or throws for want of prepend space |
| Buffers.Buffer.Shrink | include/buffer.h:181-192 | keeps the queue and leaves exactly the reserve behind it |
| Buffers.ShrinkNeedsRoom | include/buffer.h:181-185 | a buffer whose readable bytes do not fit behind the prepend space, so that shrink has no room |
| Buffers.Buffer.EnsureWritableBytes | include/buffer.h:195-199 | at least that much space or the size error; the queue is untouched |
| Buffers.Buffer.MakeSpace | include/buffer.h:231-247 | both branches keep the queue; growth to exactly writer + len, the limit of 64 MiB, or a move to the front |
| Buffers.Buffer.ReadFromFd | src/utils/buffer.cpp:10-37 | the n bytes the system gave go behind the queue, across both blocks, of which the side block counts as soon as the free space is below 64 KiB; says exactly when the append of the spill throws, which leaves only the first block's part; how much the array can grow |
| Buffers.Buffer.Spill | src/utils/buffer.cpp:31-35 | the branch that fills the block and appends the rest: contents, capacity and exact throw condition |
| Frames.NextOfEncoded | src/codec/frame_codec.cpp:9-59 | an encoded message comes off the front of any stream it begins |
| Frames.DrainSplit | src/codec/message_handler.cpp:20-31 | draining in two pieces is draining at once, and stops at the same bad header |
| Frames.RestIsFinal | src/codec/message_handler.cpp:22-31 | what a drain leaves yields nothing more, and why |
| Frames.RestIsShort | src/transport/tcp_connection.cpp:145-157 | the undecoded tail is at most 10 MiB + 3 bytes |
| Frames.DrainEncoded | src/codec/frame_codec.cpp:9-59 | encoded messages come off in order, whatever follows them |
| Frames.DrainPrefix | src/transport/tcp_connection.cpp:134-166 | any beginning of a stream of messages drains to the messages it holds in full and a proper part of the next |
| Frames.DrainGivesBack | src/transport/tcp_connection.cpp:134-166 | on any bytes: the frames taken, encoded again, and the rest are the bytes that came in |
| Frames.FramesSized | src/transport/tcp_connection.cpp:145-151 | every frame taken has an accepted length |
| Frames.RoundTripIff | src/codec/frame_codec.cpp:9-28 | a message of any size comes back if and only if it is not empty and its size is accepted |
| Frames.FramedIff | src/transport/tcp_connection.cpp:145-166 | a header with any body, the empty one too, comes out whole if and only if its length is accepted |
| TcpConnections.TcpConnection.DecodeFrame | src/transport/tcp_connection.cpp:134-166 | one frame off the front, or wait, or clear the buffer on a bad length |
| TcpConnections.TcpConnection.DrainInput | src/transport/tcp_server.cpp:250-256 | terminates; the callbacks are exactly the frames of the drain, and what stays is its rest |
| TcpConnections.TcpConnection.Close | src/transport/tcp_connection.cpp:62-71 | the connection is disconnected, nothing else changes |
| TcpConnections.TcpConnection.HandleClientRead | src/transport/tcp_server.cpp:240-267 | one read and its drain: callbacks, what the buffer keeps; it closes if and only if the event is an end of stream or an error that is not "try again"; tail and capacity stay bounded (below 11 MiB), so the 64 MiB error is never reached |
| TcpConnections.ReadTakes | src/utils/buffer.cpp:13-35 | whatever the free space, a read brings nothing only if the system gives nothing, brings all it gives up to 64 KiB, and beyond that as much as free space and side block hold |
| TcpConnections.TcpConnection.HandleEvents | src/transport/tcp_server.cpp:147-170 | every sequence of read events: each event up to the first end or error is read, none after it, and the connection closes there and only there; callbacks and buffer are those of the chunks read; the bound holds throughout |
| TcpConnections.ServeIsDrain | src/transport/tcp_server.cpp:240-256 | without a bad header, any chunking delivers what draining the whole stream delivers |
| TcpConnections.NothingLost | src/transport/tcp_server.cpp:240-256 | encode of what was delivered, and the buffer behind it, are the bytes received |
| TcpConnections.Reassembly | src/transport/tcp_server.cpp:240-256 | messages of 1 byte to 10 MiB, any chunking: after every read exactly the complete messages have been delivered, in order, and nothing is lost |
| TcpConnections.WholeStreamIff | src/transport/tcp_server.cpp:240-256 | once all bytes are in, all messages are delivered and the buffer is empty if and only if every message has 1 byte to 10 MiB |
| TcpConnections.ServerTakesIff | src/transport/tcp_connection.cpp:145-166 | the server delivers a frame if and only if its body has 1 to 10485760 bytes |
| TcpConnections.ChunkingMattersIff | src/transport/tcp_connection.cpp:145-151 | on any bytes, two chunks give the result of one if and only if the first has no bad header where a frame should begin or the second begins with one |
| TcpConnections.ChunkingMatters | src/transport/tcp_connection.cpp:145-151 | a zero length and then a good frame: delivered in two reads, lost in one |
| FrameCodecs.FrameCodec.EncodeFrame | src/codec/frame_codec.cpp:9-28 | the frame format: length in network order, then the message; nothing for an empty one |
| FrameCodecs.FrameCodec.Decode | src/codec/frame_codec.cpp:31-59 | one frame off the front, or false with buffer and message untouched |
| FrameCodecs.MessageHandler.HandleData | src/codec/message_handler.cpp:13-33 | terminates; delivers the frames of buffer and data together and keeps the rest |
| FrameCodecs.ChunkingNeverMatters | src/codec/message_handler.cpp:13-33 | any chunking of any byte stream, malformed ones included, delivers what one call would |
| FrameCodecs.CodecTakesIff | src/codec/frame_codec.cpp:31-59 | the codec delivers a frame if and only if its body has at most 104857600 bytes; an empty body is delivered |
| FrameCodecs.DecodersAgree | src/codec/frame_codec.cpp:31-59 | the codec delivers at least what the server's decoder does, and the same unless that meets a bad length |
| FrameCodecs.HandlerAndServerAgree | src/codec/message_handler.cpp:13-33 | on messages of 1 byte to 10 MiB, each in its own chunking, handler and server deliver the same |
| TcpClients.TcpClient.ReadExactly | src/transport/tcp_client.cpp:361-406 | terminates for every script with finitely many interrupts; consumes exactly what its recv calls bring and makes none too many; succeeds if and only if that is all of it, and then no call was an end, an error or the last of 5001 would-blocks in a row; a failure is the first such call |
| TcpClients.TcpClient.Receive | src/transport/tcp_client.cpp:189-233 | success returns the message at the current place and stands behind it; a failure is a bad length, or broke off in the header or in the body: for each its cause, what the vector holds, how far the stream was read and the state, which after a timeout is still connected |
| TcpClients.TcpClient.ReceiveEach | src/transport/tcp_client.cpp:189-233 | k calls of receive on a stream of k encoded messages return these messages in order and stand behind them, or the first few of them and a call that broke off |
| TcpClients.TcpClient.HandleWrite | src/transport/tcp_client.cpp:322-347 | sends exactly what its send calls take and makes none too many; succeeds if and only if that is all of the data; a failure disconnects, and its last call, and no earlier one, found the peer gone or an error |
| TcpClients.TakeAtEncoded | src/transport/tcp_client.cpp:189-233 | at the start of an encoded message of 1 byte to 10 MiB, that message is what is received |
| TcpClients.TakeAtFramed | src/transport/tcp_client.cpp:196-215 | where a frame with any body lies, the body is received if and only if it has 1 byte to 10 MiB |
| TcpClients.ReceivesInOrder | src/transport/tcp_client.cpp:189-233 | the messages that lie one behind the other on the stream, as receive takes them, are the ones encoded, and the place behind them |
| ThreadPools.Threads | src/utils/thread_pool.cpp:6-18 | the pool has the workers asked for, else one a core, else one |
| ThreadPools.WorkersStay | src/utils/thread_pool.cpp:16-18 | in every interleaving the pool keeps the workers it was started with |
| ThreadPools.InvHolds | src/utils/thread_pool.cpp:58-109 | the pool's invariant (queue order, where each task is, active count, bookkeeping of stop) after every interleaving |
| ThreadPools.Conservation | include/thread_pool.h:70-93 | in every interleaving an enqueued task is in exactly one place once: queued, held by one worker, or run |
| ThreadPools.Drain | src/utils/thread_pool.cpp:58-109 | once all workers have exited, a task has run, exactly once, if and only if it was enqueued before the last exit; all enqueued before stop_ was set were |
| ThreadPools.EnqueuedBeforeStopHasRun | src/utils/thread_pool.cpp:58-109 | whatever comes before and after the step that sets stop_: once all workers have exited, each task enqueued before that step has run exactly once |
| ThreadPools.StopReturnsWhenDrained | src/utils/thread_pool.cpp:68-77 | when stop() returns, every task enqueued before stop_ was set has run exactly once |
| ThreadPools.LastExitIsAtExit | src/utils/thread_pool.cpp:95-97 | the boundary of the drain guarantee is the number of tasks enqueued when the last worker exits |
| ThreadPools.LateTasksAreBounded | include/thread_pool.h:70-89 | what is enqueued after stop_ was set comes from submitters that had passed the check before |
| ThreadPools.AcceptedTaskCanBeStranded | include/thread_pool.h:70-89 | a run in which an accepted task never runs |
| ThreadPools.WaitReturnsIff | src/utils/thread_pool.cpp:29-34 | waitForAllTasks may return if and only if every enqueued task has run and no worker is busy |
| ThreadPools.WorkerStepsShrinkWork | src/utils/thread_pool.cpp:87-109 | every step of a worker lowers the work left |
| ThreadPools.StoppedPoolMoves | src/utils/thread_pool.cpp:58-109 | after stop no reachable state is stuck while a worker is left |
| ThreadPools.WorkerStepsAreBounded | src/utils/thread_pool.cpp:58-109 | in every interleaving the workers take at most as many steps as there is work, with four for each submitter that has passed or passes the check |
| ThreadPools.StoppedPoolEnds | src/utils/thread_pool.cpp:58-109 | after stop, in every interleaving, late submitters included, the number of worker steps is bounded by the state at the start |
| ThreadPools.ThreadPool.SubmitChecked | include/thread_pool.h:71-73 | the unlocked check: throws if and only if stop_ is set |
| ThreadPools.ThreadPool.SubmitQueued | include/thread_pool.h:83-86 | the task goes to the end of the queue, whatever stop_ is by now |
| ThreadPools.ThreadPool.WorkerTake | src/utils/thread_pool.cpp:90-102 | the oldest task, or the worker ends when stopped with nothing queued |
| ThreadPools.ThreadPool.WorkerRuns | src/utils/thread_pool.cpp:104-105 | the task held has run, no shared field changes |
| ThreadPools.ThreadPool.WorkerDone | src/utils/thread_pool.cpp:106-107 | the active count falls back to the busy workers |
| ThreadPools.ThreadPool.AllTasksDone | src/utils/thread_pool.cpp:29-34 | the awaited predicate is true if and only if every enqueued task has run and no worker is busy |
| ThreadPools.ThreadPool.StopChecked | src/utils/thread_pool.cpp:58-61 | false if and only if some caller has set stop_ |
| ThreadPools.ThreadPool.StopLocked | src/utils/thread_pool.cpp:63-66 | stop_ is set; tasks stay queued |
| Fnv.ComputeHash | src/load_balancer/consistent_hash_load_balancer.cpp:11-18 | the hash of the key, byte by byte |
| Fnv.HashOfA | src/load_balancer/consistent_hash_load_balancer.cpp:11-18 | the published FNV-1a value of "a" |
| Fnv.WidenIsSigned | src/load_balancer/consistent_hash_load_balancer.cpp:14 | a char enters the hash as its signed value modulo 2^32 |
| Fnv.MixInjective | src/load_balancer/consistent_hash_load_balancer.cpp:14-15 | one step is one to one in the state and in the byte |
| Fnv.TailInjective | src/load_balancer/consistent_hash_load_balancer.cpp:11-18 | equal tails keep different states apart |
| Fnv.OneByteApart | src/load_balancer/consistent_hash_load_balancer.cpp:11-18 | two keys that differ in exactly one byte never hash alike |
| Fnv.OnePositionApart | src/load_balancer/consistent_hash_load_balancer.cpp:11-18 | the same for two keys of equal length, said by position |
| Fnv.OneDigitApart | src/load_balancer/consistent_hash_load_balancer.cpp:28-32 | virtual nodes of one instance whose indices differ in one digit never collide |
| Fnv.SameDecadeApart | src/load_balancer/consistent_hash_load_balancer.cpp:28-32 | the ten virtual nodes of one decade never collide |
| Fnv.VirtualKeyInjective | src/load_balancer/consistent_hash_load_balancer.cpp:28-32 | no two virtual nodes of any instances have the same key, so only hashes can collide |
| HashRings.OwnerIsNearest | src/load_balancer/consistent_hash_load_balancer.cpp:73-80 | the owner's place is at the least clockwise distance modulo 2^32 from the key's hash |
| HashRings.WriteWithout | src/load_balancer/consistent_hash_load_balancer.cpp:21-35 | under last-writer-wins, taking an id's nodes away changes no place it does not own |
| HashRings.NodesWithout | src/load_balancer/consistent_hash_load_balancer.cpp:21-35 | a list without an id writes exactly the other ids' nodes, in the same order |
| HashRings.OnlyItsOwnKeysMove | src/load_balancer/consistent_hash_load_balancer.cpp:73-80 | for any nodes and collisions, a hash changes owner if and only if the id taken away owned it |
| HashRings.MinimalDisruption | src/load_balancer/consistent_hash_load_balancer.cpp:21-35 | the same for the rebuilt ring of a list with and without an id, for any hash function; read backwards, adding an id moves keys only to it |
| HashRings.BuildHolds | src/load_balancer/consistent_hash_load_balancer.cpp:21-35 | every owner is a healthy instance of the list; the ring is empty only with no healthy instance or no virtual nodes |
| HashRings.RingIff | src/load_balancer/consistent_hash_load_balancer.cpp:21-35 | the ring outright: its places are those of the keys id#0, ..., id#(n-1) of every healthy instance, and a place belongs to the instance that was the last to write there |
| HashRings.LastWriterWins | src/load_balancer/consistent_hash_load_balancer.cpp:32 | a place belongs to an id if and only if the last node written there is that id's |
| ConsistentHash.ConsistentHashLoadBalancer.RebuildHashRing | src/load_balancer/consistent_hash_load_balancer.cpp:21-35 | the ring becomes the ring of that list |
| ConsistentHash.ConsistentHashLoadBalancer.SelectByKey | src/load_balancer/consistent_hash_load_balancer.cpp:43-92 | result, errors, ring and last key are those of the specification function |
| ConsistentHash.ConsistentHashLoadBalancer.Select | src/load_balancer/consistent_hash_load_balancer.cpp:39-41 | selects by the last key |
| ConsistentHash.ConsistentHashLoadBalancer.Reset | src/load_balancer/consistent_hash_load_balancer.cpp:93-97 | forgets ring and last key |
| ConsistentHash.OneCall | src/load_balancer/consistent_hash_load_balancer.cpp:43-92 | the result is healthy now; it is the key's owner if and only if the owner is healthy, and otherwise the ring is rebuilt |
| ConsistentHash.ErrorsIff | src/load_balancer/consistent_hash_load_balancer.cpp:43-58 | the two errors and exactly when; a call that throws changes nothing |
| ConsistentHash.FirstCall | src/load_balancer/consistent_hash_load_balancer.cpp:60-87 | on an empty ring a call builds the ring of its healthy instances and returns the key's owner on that ring |
| ConsistentHash.MissedCall | src/load_balancer/consistent_hash_load_balancer.cpp:89-91 | a miss returns the first healthy instance and leaves the ring of the healthy ones |
| ConsistentHash.NoNodesCall | src/load_balancer/consistent_hash_load_balancer.cpp:66-69 | without virtual nodes a call returns the first healthy instance and stores no key |
| ConsistentHash.NoKeyIsDefault | src/load_balancer/consistent_hash_load_balancer.cpp:71 | no key is the key "default" |
| ConsistentHash.SelectRepeatsKey | src/load_balancer/consistent_hash_load_balancer.cpp:39-73 | after a call with a key, calls without one go where that key goes |
| ConsistentHash.RingIsAlwaysBuilt | src/load_balancer/consistent_hash_load_balancer.cpp:39-97 | over every call sequence the ring is empty or the ring of the healthy list of some earlier call |
| ConsistentHash.NoFurtherRebuild | src/load_balancer/consistent_hash_load_balancer.cpp:58-92 | while all instances of the ring stay healthy and nobody resets, no call rebuilds it |
| ConsistentHash.HitIff | src/load_balancer/consistent_hash_load_balancer.cpp:70-91 | on a ring, a call returns the owner of its key and leaves the ring alone if and only if the owner is healthy |
| ConsistentHash.AllHitIff | src/load_balancer/consistent_hash_load_balancer.cpp:39-92 | every call of a run finds its owner if and only if the owner, on the ring at the start, of each call's key is healthy at that call; then the ring is never rebuilt |
| ConsistentHash.KeyKeepsOwner | src/load_balancer/consistent_hash_load_balancer.cpp:58-92 | after such a run a call goes to the owner its key had at the start if and only if that is healthy now; the owner is one of the instances the ring was built from, so a later one gets nothing |
| ConsistentHash.SameKeyMoves | src/load_balancer/consistent_hash_load_balancer.cpp:82-91 | the same list and key give another instance after one call that missed, although the first one is healthy |
| ConsistentHash.FailureMovesOnlyItsKeys | src/load_balancer/consistent_hash_load_balancer.cpp:21-91 | when one instance fails, the first call that looks it up rebuilds the ring, and exactly the keys of that instance change their owner |
| LeastConnection.LeastConnectionLoadBalancer.Select | src/load_balancer/least_connection_load_balancer.cpp:10-47 | the first healthy instance with the least count, and counts of 0 for new ones |
| LeastConnection.SelectsLeast | src/load_balancer/least_connection_load_balancer.cpp:10-47 | the two errors and exactly when; else the result is healthy, no healthy instance has a lower count, and those before it have greater ones; no count changes |
| LeastConnection.LeastConnectionLoadBalancer.UpdateStats | src/load_balancer/least_connection_load_balancer.cpp:50-65 | one up at a start, one down at an end but never below zero, no other count changes |
| LeastConnection.LeastConnectionLoadBalancer.Reset | src/load_balancer/least_connection_load_balancer.cpp:68-71 | forgets every count |
| LeastConnection.LeastIsBelowShare | src/load_balancer/least_connection_load_balancer.cpp:31-47 | the least of n counts that sum to less than K is below ceil(K / n) |
| LeastConnection.PeakBound | src/load_balancer/least_connection_load_balancer.cpp:10-65 | with at most K connections open at any time, each started to what a call returned, in any order of starts and ends, counts are starts less ends and none ever exceeds ceil(K / n) |
| InstanceCodec.SerializeInstance | src/registry/zookeeper_registry.cpp:354-370 | six lines, then one line per metadata entry in the order of the walk |
| InstanceCodec.SerializeMetadata | src/registry/zookeeper_registry.cpp:364-367 | the metadata lines in the order of the walk |
| InstanceCodec.TextOfOne | src/registry/zookeeper_registry.cpp:354-370 | the text of one instance, byte for byte |
| InstanceCodec.DeserializeInstance | src/registry/zookeeper_registry.cpp:373-398 | what any text parses to: missing lines keep the defaults, bad numbers throw |
| InstanceCodec.ReadMetadata | src/registry/zookeeper_registry.cpp:387-395 | split at the first '=', lines without one are skipped, later keys overwrite |
| InstanceCodec.LinesOfUnlines | src/registry/zookeeper_registry.cpp:373-395 | joined lines are read back as the same lines, empty ones included |
| InstanceCodec.CutAtFirst | src/registry/zookeeper_registry.cpp:388-393 | the split at the first '=' undoes the join when the key has none |
| InstanceCodec.CleanComesBack | src/registry/zookeeper_registry.cpp:354-398 | with no newline in the text and no '=' in a key the instance comes back, for every walk of the metadata |
| InstanceCodec.ReadIsClean | src/registry/zookeeper_registry.cpp:373-398 | whatever is read has no newline and no '=' in a key |
| InstanceCodec.RefusedIff | src/registry/zookeeper_registry.cpp:379-384 | a text is refused if and only if its third, fourth or sixth line is there and begins with no numeral in range |
| InstanceCodec.ReadAs | src/registry/zookeeper_registry.cpp:373-398 | what an accepted text is read as: each field by its line, the default where the line is missing, the port cut to 16 bits, and the metadata |
| InstanceCodec.LastLineCounts | src/registry/zookeeper_registry.cpp:387-395 | the metadata has a key and value if and only if the last entry with that key has that value |
| InstanceCodec.LastLineWithoutNewline | src/registry/zookeeper_registry.cpp:387 | a last line without its newline is read too |
| InstanceCodec.RoundTripIffClean | src/registry/zookeeper_registry.cpp:354-398 | the round trip holds if and only if the instance is free of the separators |
| Decimal.StoiToString | src/registry/zookeeper_registry.cpp:358-382 | stoi reads back every int that to_string prints |
| Decimal.StoullToString | src/registry/zookeeper_registry.cpp:360-384 | stoull reads back every 64-bit count that to_string prints |
| Decimal.StoiAcceptsIff | src/registry/zookeeper_registry.cpp:381-382 | stoi accepts exactly white space, a sign or none, and digits of an int, whatever follows |
| Decimal.StoullAcceptsIff | src/registry/zookeeper_registry.cpp:384 | stoull accepts exactly the same with a magnitude of 64 bits, a minus sign included |
| Decimal.NumeralsAreRead | src/registry/zookeeper_registry.cpp:381-384 | a numeral is read as its value, by stoull modulo 2^64, or is out of range |
| Decimal.OthersAreNot | src/registry/zookeeper_registry.cpp:381-384 | anything else is an invalid argument |
| Wire.VarintReadsBack | proto/rpc_protocol.pb.cc:368-463 | a base 128 varint reads back with what follows it |
| Wire.VarintLength | proto/rpc_protocol.pb.cc:557-613 | the size computed for a varint is its length |
| Wire.Uint64ReadsBack | proto/rpc_protocol.pb.cc:378-384 | every uint64 survives |
| Wire.Int32ReadsBack | proto/rpc_protocol.pb.cc:428-434 | every int32 survives, a negative one through ten bytes |
| Wire.DelimitedReadsBack | proto/rpc_protocol.pb.cc:386-426 | length-delimited bytes read back with what follows them |
| Wire.VarintOf150 | proto/rpc_protocol.pb.cc:368-463 | the Encoding specification's example, 150 is 0x96 0x01 |
| Wire.NegativeTakesTen | proto/rpc_protocol.pb.cc:428-434 | a negative int32 takes ten bytes |
| Wire.VarintCut | proto/rpc_protocol.pb.cc:378-384 | a varint that is cut off is refused |
| Wire.DelimitedCut | proto/rpc_protocol.pb.cc:386-426 | delimited bytes that are cut off are refused |
| Wire.TenAreTheMost | proto/rpc_protocol.pb.cc:378-434 | ten bytes without a last one are refused |
| Wire.FiveAreTheMostInATag | proto/rpc_protocol.pb.cc:372-374 | five bytes of a tag without a last one are refused |
| Utf8.ValidIff | proto/rpc_protocol.pb.cc:386-416 | bytes are accepted as text if and only if they encode some sequence of Unicode scalar values (RFC 3629) |
| RpcProto.RpcRequestProto.InternalParse | proto/rpc_protocol.pb.cc:368-463 | the verdict on any bytes, and the message when it is good |
| RpcProto.RpcRequestProto.InternalSerialize | proto/rpc_protocol.pb.cc:465-555 | the fields that are set, in field order |
| RpcProto.RpcRequestProto.ByteSizeLong | proto/rpc_protocol.pb.cc:557-613 | equals the length of what is serialized |
| RpcProto.RpcRequestProto.MergeFrom | proto/rpc_protocol.pb.cc:622-650 | what the other message has set, otherwise what was there |
| RpcProto.RequestParsesBack | proto/rpc_protocol.pb.cc:368-555 | a serialized message in front of any bytes is merged and the parse goes on behind it, or fails if and only if a string is not UTF-8 |
| RpcProto.RequestMergeLaw | proto/rpc_protocol.pb.cc:368-650 | parsing two serialized messages in a row gives their merge |
| RpcProto.RequestRoundTripIff | proto/rpc_protocol.pb.cc:368-555 | parse undoes serialize if and only if every string is UTF-8 |
| RpcProto.RequestOnTheWire | proto/rpc_protocol.pb.cc:465-555 | the bytes of one request |
| RpcProto.CutRequestFieldIsRefused | proto/rpc_protocol.pb.cc:368-463 | a field that is cut off inside is refused, whatever was read before |
| RpcProto.OtherRequestTags | proto/rpc_protocol.pb.cc:436-462 | tag 0 and the end of a group are refused, every other tag of no modelled field leaves the model |
| RpcProto.RpcResponseProto.InternalParse | proto/rpc_protocol.pb.cc:828-911 | the verdict on any bytes, and the message when it is good |
| RpcProto.RpcResponseProto.InternalSerialize | proto/rpc_protocol.pb.cc:913-989 | the fields that are set, in field order |
| RpcProto.RpcResponseProto.ByteSizeLong | proto/rpc_protocol.pb.cc:991-1038 | equals the length of what is serialized |
| RpcProto.RpcResponseProto.MergeFrom | proto/rpc_protocol.pb.cc:1047-1072 | what the other message has set, otherwise what was there |
| RpcProto.ResponseParsesBack | proto/rpc_protocol.pb.cc:828-989 | the response's counterpart of RequestParsesBack |
| RpcProto.ResponseMergeLaw | proto/rpc_protocol.pb.cc:828-1072 | parsing two serialized responses in a row gives their merge |
| RpcProto.ResponseRoundTripIff | proto/rpc_protocol.pb.cc:828-989 | parse undoes serialize if and only if the error text is UTF-8 |
| RpcProto.ResponseOnTheWire | proto/rpc_protocol.pb.cc:913-989 | the bytes of a failed and of a successful response |
| RpcProto.CutResponseFieldIsRefused | proto/rpc_protocol.pb.cc:828-911 | a field that is cut off inside is refused, whatever was read before |
| RpcProto.OtherResponseTags | proto/rpc_protocol.pb.cc:880-911 | tag 0 and the end of a group are refused, every other tag of no modelled field leaves the model |
| RpcProtocolHelper.CreateRequestProto | src/utils/rpc_protocol_helper.cpp:71-81 | the record's four fields, everything else at its default |
| RpcProtocolHelper.FromRequestProto | src/utils/rpc_protocol_helper.cpp:84-95 | the four fields of the message |
| RpcProtocolHelper.CreateResponseProto | src/utils/rpc_protocol_helper.cpp:98-114 | a failure carries code 8 and its text, a success code 0 and no text |
| RpcProtocolHelper.FromResponseProto | src/utils/rpc_protocol_helper.cpp:117-129 | four fields of the message; the code is dropped |
| RpcProtocolHelper.SerializeRequest | src/utils/rpc_protocol_helper.cpp:9-21 | the serialized message, or the error when it is longer than an int |
| RpcProtocolHelper.ParseRequestData | src/utils/rpc_protocol_helper.cpp:24-37 | the request in the bytes, the error on empty data, the error on malformed data |
| RpcProtocolHelper.SerializeResponse | src/utils/rpc_protocol_helper.cpp:40-52 | the serialized message, or the error when it is longer than an int |
| RpcProtocolHelper.ParseResponseData | src/utils/rpc_protocol_helper.cpp:55-68 | the response in the bytes, the error on empty data, the error on malformed data |
| RpcProtocolHelper.ValidateRequestData | src/utils/rpc_protocol_helper.cpp:132-149 | true if and only if the bytes parse to a request that names a service and a method |
| RpcProtocolHelper.ValidateResponseData | src/utils/rpc_protocol_helper.cpp:151-163 | true if and only if the bytes parse to a response |
| RpcProtocolHelper.RequestComesBackIff | src/utils/rpc_protocol_helper.cpp:9-95 | a request sent comes back if and only if its names are UTF-8 and it is not the default request |
| RpcProtocolHelper.RequestRefusals | src/utils/rpc_protocol_helper.cpp:24-37 | which of the two errors any other request gets |
| RpcProtocolHelper.ResponseArrives | src/utils/rpc_protocol_helper.cpp:40-129 | what the receiver sees of any response |
| RpcProtocolHelper.ResponseComesBackIff | src/utils/rpc_protocol_helper.cpp:40-129 | a response comes back if and only if its text is UTF-8 and empty on a success |

## Left out

- Sockets, epoll, accept, connect and close: `readv`, `recv` and `send` are parameters that say what
  the system did; edge-trigger readiness, hang-up events and logging are not part of this model.
- ZooKeeper sessions, watchers and nodes: calls into a library.
- WeightedRoundRobin.WeightedRoundRobinLoadBalancer.Select: weights are unbounded integers, so
  overflow of an int is not modelled; `NoOverflow` and `WeightsFitInt` show when it cannot occur.
- Buffers.Buffer.Shrink: requires room for the readable bytes behind the prepend space, because
  without it the source's move writes past the block.
- Buffers.Buffer.PeekInt: gives the unsigned value; the reinterpretation as a signed type of the same
  width is not modelled. Overflow of `size_t` in the sizes is not modelled either.
- `Buffer::swap`, `findCRLF`, `retrieveAsString`, `shrink_to_fit` and the detection of the host's byte order.
- TcpClients.TcpClient.ReadExactly: a script has finitely many interrupts, and for the send loop
  finitely many full sockets, because the source loops on both without a count.
- `TcpConnectionImpl::send` (src/transport/tcp_connection.cpp:28-58): the same loop as the client's
  `handleWrite`.
- Exceptions that a message callback or a task throws.
- Liveness of `waitForAllTasks` and of submission: workers do not notify after a task, and
  `notify_one` may wake a waiter of `waitForAllTasks` instead of a worker. Only what holds when a
  predicate is seen true is stated. Two threads that join the same workers in `stop` are not modelled.
- `submitVoid`, whose queueing is that of `submit`.
- The balancers' mutexes: each call is one atomic step. Keys and texts are sequences of bytes.
- LeastConnection.PeakBound: a start follows its select at once; a start that comes after another
  select is not part of the run it bounds.
- HashRings.FirstFrom: the order of places is that of numbers; the balanced tree behind the source's map is not modelled.
- RpcProto.RpcRequestProto.InternalParse: metadata entries and unknown fields end the modelled parse
  with a verdict of their own, because the protobuf library handles them; the fields of a message
  whose parse failed are not stated.
- RpcProto.RpcRequestProto.InternalSerialize: a message of the model has no metadata and no unknown fields to write.
- RpcProto.RpcRequestProto.ByteSizeLong: a message of the model has no metadata and no unknown fields to count.
- RpcProto.RpcRequestProto.MergeFrom: a message of the model has no metadata and no unknown fields to merge.
- RpcProto.RpcResponseProto.InternalParse: leaves out the same as the request's.
- RpcProto.RpcResponseProto.InternalSerialize: leaves out the same as the request's.
- RpcProto.RpcResponseProto.ByteSizeLong: leaves out the same as the request's.
- RpcProto.RpcResponseProto.MergeFrom: leaves out the same as the request's.
- RpcProtocolHelper.ParseRequestData: bytes with metadata or unknown fields, and data longer than an
  int, whose size the source narrows, give a result of their own that says no more.
- RpcProtocolHelper.ParseResponseData: the same as for requests.
- RpcProtocolHelper.ValidateRequestData: the same as for ParseRequestData.
- RpcProtocolHelper.ValidateResponseData: the same as for ParseRequestData.
- Wire.ReadDelimited: takes a length of up to ten varint bytes and of any size. The protobuf library,
  which is not part of this model, may stop at five bytes and a little below the greatest int; then
  `RequestComesBackIff` and its like could differ within a few bytes of 2 GiB.
- The plain round-robin balancer, the factories and managers, the serializers, the calculator, the
  RPC client and server: easy members, or code that rests on protobuf reflection.
