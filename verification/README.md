# embr verification

A Dafny 4.11 model of embr's data path: who owns which memory while a kernel, a QUIC stack or a
peer still refers to it, and how a transfer reaches the disk through partial transfers, reordering
and process crashes. `dafny verify dfyconfig.toml` checks everything.

## What is modelled

| file | component | form |
|---|---|---|
| `Egress.dfy` | the SEND_ZC slot pool, against a kernel that submits partially, refuses sends and completes in any order | class `ZcEgress` and a kernel state |
| `EgressWait.dfy` | when the wait inside `reserve` never ends | the moves between its check and its wait |
| `Quic.dfy` | blocks retained until acknowledged, the two landing places of received bytes, the close that calls back into the pump | class `QuicTransport` |
| `UdpWire.dfy`, `UdpSend.dfy`, `UdpReceive.dfy` | fragment format, the double-buffered sender, the receiver's pool of fragment buffers with batched submission | classes `UdpSender`, `UdpReceiver` |
| `UdpLockstep.dfy`, `UdpTransfer.dfy` | sender, reordering channel, receiver and acknowledgements as one protocol; the sender's and the receiver's code joined by it | state machine over all runs |
| `Exchange.dfy` | push and pull as two processes over FIFO byte streams | state machine over all runs |
| `Pull.dfy`, `PartialFile.dfy`, `Chunks.dfy` | the pull session on a disk that a process crash may freeze at any step, the `.embr.partial` record, chunk arithmetic and bitmap | classes `Disk`, `ChunkManager` and their methods |
| `Protocol.dfy`, `Transport.dfy` | big-endian fields, bounds-checked reading, FILE_META, framing, exact I/O | classes `Writer`, `Reader`, `Channel` |
| `Tcp.dfy` | sendfile, and splice through a pipe that is kept between chunks | class `TcpTransport` |
| `HashPool.dfy` | workers sharing a 32-bit counter, every interleaving | state machine and class `ParallelHash` |
| `Buffers.dfy` | the move-only `Buffer` and programs over it | class `Buffer` and a value model it refines |
| `Bytes.dfy`, `Files.dfy`, `Wrappers.dfy` | shared definitions | functions |

Where an object changes its fields in the source, a class changes them here, and its methods are
proved against functions or predicates on values; lemmas about those say what holds over every
run. Where a call asks the outside, a history records what was answered; the contracts say in those
terms what a call has done, in which order, and that it fails only when something went wrong. The environment (kernel, ngtcp2, network, scheduler, crash, clock) chooses arbitrarily, within
the assumptions below.

## Assumptions

- SEND_ZC completions follow the rule at src/transport/quic_egress.hpp:10 as io_uring defines it:
  one send completion per submitted entry, then exactly one notification if it carried F_MORE, none
  otherwise.
- ngtcp2 accepts any prefix of what it is offered, acknowledges only accepted bytes, in gap-free
  deltas, and delivers the peer's bytes in order (section 2.2 of RFC 9000). A packet goes out
  without any stream byte only finitely often before something else is waited for.
- `io_uring_submit` in the UDP code takes every prepared entry. A READ or WRITE that completes
  without an error has moved everything: src/transport/udp_transport.cpp ignores short counts.
- The UDP receiver never compares a fragment's chunk number with the chunk it is receiving
  (src/transport/udp_transport.cpp:115-124). The channel may reorder; a copy must arrive before its
  chunk is finished, and nothing may be lost. With such a channel the output is the source
  (`UdpTransfer.Transfer`). When other datagrams reach a chunk's loop, it comes out right in every
  order of delivery exactly when each of them that the loop takes tells the truth about its length
  and carries the chunk's bytes for its number (`UdpLockstep.ChunkRightIff`).
- Resuming relies on one FILE_META per output path, on nobody else changing the output file, and on
  process crashes rather than power loss.
- Push and pull are connected by unbounded channels: pull sends all requests before it reads data
  (src/core/pull.cpp:76-79).
- SHA-256 (FIPS 180-4) is an arbitrary function `H`. Nothing assumes that it does not collide: where
  equal bytes are wanted, the condition names the pairs of byte strings concerned
  (`Exchange.FinishedIsSourceIff`).
- Loops that the environment can keep going, by signals, `EAGAIN`, datagrams or wake-ups, are
  bounded by an arbitrary number of such events (`signals`, `script`, `stalls`, `arrivals`, `arriving`, `budget`,
  `life`).

## Where the code differs from its documentation, or a property has a limit

- Once an error is latched, src/transport/quic_egress.hpp:30-31 promises `nullptr`. `reserve()` keeps
  that exactly when no slot is reserved and none is free (src/transport/quic_egress.cpp:63-71); then
  it returns at once, without touching the ring. Otherwise it hands out a slot
  (`Egress.ZcEgress.Reserve`). In `EgressWait.LatchedYetFree` it does so after a failed send, and the
  commit that follows fails and leaves the slot reserved.
- The wait inside `reserve()` can go on for ever exactly when the flush at
  src/transport/quic_egress.cpp:66 left entries in the submission queue, which one transient submit
  failure is enough for (`EgressWait.ReserveWaitIff`). `reap(true)` then flushes again at line 126. If
  that flush submits everything and its own reap takes every completion, line 127 waits with nothing
  in flight and with free slots: a lost wake-up (`EgressWait.LostWakeupIff`). The wait goes on without
  a free slot exactly when not one slot in flight had been submitted (`EgressWait.StuckIff`).
- A partial record is accepted only when the output is `chunk_count * CHUNK_SIZE` bytes long
  (src/core/partial_file.cpp:44-49), while the output is created with `file_size` bytes. A transfer
  whose last chunk is short is therefore never resumed: `PartialFile.ResumesIffFullChunks`.
- A fresh start does not delete an old record (src/core/pull.cpp:55-70). If it crashes before
  chunk data arrives, the next session is safe exactly when each chunk the record marks verifies in
  an all-zero file, or the size is never resumed (`Pull.StaleRecordHarmlessIff`, with the run in
  `Pull.ResumeFromStale`); with any content of the first chunk received but not yet saved, the record
  must not mark that chunk either (`Pull.BeforeFirstSaveIff`). The fallback at src/core/pull.cpp:51-54 empties the output
  without allocating it; until its first save that is unsafe exactly for a transfer of one full chunk
  that the record marks (`Pull.FallbackSafeIff`). For any other transfer the whole session is safe
  wherever it stops (`Pull.FallbackSession`). But if it is cut off, what it leaves is a record beside
  an output too short for it, and the fresh start that follows is safe exactly as above
  (`Pull.Sessions`, with a run in `Pull.FallbackThenStale`). The record names its transfer by the first chunk's
  hash and the chunk count only: `Pull.SharedRecord`.
- The bitmap size `(chunk_count + 7) / 8` is computed in 32 bits: `PartialFile.BitmapFitsIff`. Every
  FILE_META that `recv_msg` lets through is far below that: `Protocol.ReceivedCountIsSmall`.
- The 32-bit chunk count of `precompute_meta` covers the file exactly up to 0xFFFFFFFF chunks:
  `Chunks.ChunksTile`.
- The work counter of `hash_compute_parallel` hands out no chunk twice exactly when
  `chunk_count + num_workers <= 2^32` (`HashPool.ClaimedOnceIffFits`). A chunk claimed twice is hashed
  twice to the same value, so a normal return is right in any case, if the two writes of its entry
  are taken as one step each.
- After a `recv_file` that failed between pipe and file, and after no other, the TCP transport has
  bytes left in its pipe, and the next chunk starts with them: `Tcp.RightIffPipeWasEmpty`, with a run
  in `Tcp.LeftoverRun`.
- `send_chunk` reuses message slots safely exactly when a chunk has at most 256 fragments:
  `UdpSend.SlotsSufficeIff`. With the present 1 MiB chunks there are at most 17; a 16 MiB chunk
  would have 259.
- A failed QUIC send leaves a block that ends past what ngtcp2 accepted of it. It stays retained until
  later sends have carried the stream to its end and that is acknowledged: the queue is empty exactly
  when the acknowledgements have reached the largest end of any block ever retained
  (`Quic.QuicTransport.EmptyIffFurthestAcked`, with a case in `Quic.FailedBlockFreed`). Without a failed
  send it is empty once all that was sent is acknowledged (`Quic.QuicTransport.AllAckedIsEmpty`).

## Model

| member | source | states |
|---|---|---|
| Egress.PostKeeps | src/transport/quic_egress.hpp:10-11 | any completion the kernel may post keeps every slot's table entry, pending completions and wire history consistent, and never adds completions still to come |
| Egress.PostSettles | src/transport/quic_egress.hpp:10-11 | a completion never puts a commit on the wire twice or with other bytes |
| Egress.SubmitKeeps | src/transport/quic_egress.cpp:114-119 | a partial submission moves an entry into the kernel and changes nothing else |
| Egress.EnqueueKeeps | src/transport/quic_egress.cpp:96-108 | committing a slot that nobody owns keeps the pool consistent; the new commit is accounted for |
| Egress.ReapKeeps | src/transport/quic_egress.cpp:132-164 | taking the oldest completion keeps the pool consistent; a final one finds an owned slot that the kernel no longer touches; completions outstanding drop by one |
| Egress.WriteKeeps | src/transport/quic_egress.cpp:63-71 | assembling a datagram in a slot that is not in flight disturbs nothing the kernel may read |
| Egress.EmptyIsQuiet | src/transport/quic_egress.cpp:138-161 | a slot without an owner is never read by the kernel |
| Egress.AllQuiet | src/transport/quic_egress.cpp:167-176 | with nothing in flight the kernel reads no slot, and without counted failures every commit is on the wire exactly once |
| Egress.DropKeepsFree | src/transport/quic_egress.cpp:58-60 | releasing an owner keeps free, reserved and in-flight slots a partition without duplicates |
| Egress.TakeKeepsFree | src/transport/quic_egress.cpp:69-70 | taking the last free slot keeps that partition |
| Egress.HoldKeepsFree | src/transport/quic_egress.cpp:105-107 | so does turning the reserved slot into one in flight |
| Egress.ZcEgress.Open | src/transport/quic_egress.cpp:26-47 | construction fails exactly for an empty pool or a ring that cannot be created |
| Egress.ZcEgress.constructor | src/transport/quic_egress.cpp:26-47 | all slots free, handed out from slot 0 upwards |
| Egress.ZcEgress.KernelReadsCommitted | src/transport/quic_egress.cpp:58-110 | a slot the kernel may still read is owned by the table, neither free nor reserved, and holds exactly the committed bytes |
| Egress.ZcEgress.ScoreSent | src/transport/quic_egress.cpp:143-157 | the whole accounting of a send completion: refused, fallback, error and latch, a failed copy included; what the copy puts on the wire |
| Egress.ZcEgress.ReapOne | src/transport/quic_egress.cpp:132-162 | the whole effect of one completion on table, free list, kernel, wire, statistics, latch and unsupported flag; a final one leaves its slot unread |
| Egress.ZcEgress.Reap | src/transport/quic_egress.cpp:123-165 | takes every completion there is, a blocking one after its wait and, before that, a flush of whatever was queued; waits only with no slot free; terminates on completions outstanding; a wait that cannot end means the kernel owes nothing, and if the queue was empty before it, that nothing was in flight |
| Egress.ZcEgress.Flush | src/transport/quic_egress.cpp:112-121 | submits until the queue is empty or a submit fails, then takes every completion; entries stay behind exactly after a failed submit; error, flag and statistics are what the history of results makes them; slots, reserved slot and commit history are kept |
| Egress.AccountMeans | src/transport/quic_egress.cpp:117-162 | the statistics count the completions, refusals and losses there were; `error()` is the errno of the first failure, EINTR and EAGAIN of a submit and a transient failure of a copy not being one; `unsupported()` from the first EINVAL or EOPNOTSUPP on |
| Egress.ZcEgress.Reserve | src/transport/quic_egress.cpp:62-72 | a slot handed out is never one the kernel may read; which slot; `nullptr` only with an error latched, nothing free and every slot in flight; with an error latched on entry it returns at once, with `nullptr` exactly when nothing is reserved or free; it waits for ever only after a flush that left entries unsubmitted and a second one that submitted some, with or without a free slot in hand |
| Egress.ZcEgress.Commit | src/transport/quic_egress.cpp:74-110 | result for every case; a commit records the slot's first n bytes, owner and queue entry; anything else changes nothing; the EAGAIN branch cannot be reached |
| Egress.ZcEgress.QueueHasRoom | src/transport/quic_egress.cpp:33-93 | the submission queue never holds more entries than slots, and fewer while one is reserved |
| Egress.ZcEgress.CompletionsFit | src/transport/quic_egress.cpp:31-33 | at most two completions per slot are ever unreaped |
| Egress.ZcEgress.InflightCounts | src/transport/quic_egress.hpp:41-43 | `inflight()` counts the owned slots, and equals sends minus slots retired |
| Egress.ZcEgress.AllStuck | src/transport/quic_egress.cpp:64-68 | a wait that never returns means every slot in flight is still in the submission queue |
| Egress.ZcEgress.Drain | src/transport/quic_egress.cpp:167-176 | true exactly when no slot is in flight; then nothing is readable and a clean history is on the wire exactly once; false only past the deadline; it flushes first and after every timed wait, waits only for slots in flight, and leaves no completion untaken and nothing queued but after a failed submit |
| Egress.ZcEgress.Destroy | src/transport/quic_egress.cpp:49-56 | the slab is freed only when the kernel can read none of it; otherwise a second has passed and it is leaked |
| Egress.ZcEgress.Run | src/transport/quic_egress.cpp:49-176 | any sequence of calls, commits of any length included, and then the destructor: what each successful commit named is on the wire at most once and unchanged, exactly once after a quiet run without failures |
| EgressWait.ReserveWaitIff | src/transport/quic_egress.cpp:64-68 | with no slot free or reserved after the flush, the wait can go on for ever exactly when that flush left entries in the queue |
| EgressWait.LostWakeupIff | src/transport/quic_egress.cpp:123-130 | it can do so with a slot free by then exactly in the same case |
| EgressWait.StuckIff | src/transport/quic_egress.cpp:123-130 | it can do so with no slot free exactly when not one slot in flight has been submitted |
| EgressWait.LatchedYetFree | src/transport/quic_egress.cpp:62-83 | a run: a failed send's error is latched, `reserve` still hands out a slot, `commit` rejects it, and the next `reserve` hands it out again |
| EgressWait.EmptyQueueReturns | src/transport/quic_egress.cpp:126-127 | with an empty queue the wait returns, whatever the kernel does |
| Quic.RetransmitReadsSame | src/transport/quic_transport.cpp:80-96 | every accepted byte not yet acknowledged is read from a block still held, and reads as it was accepted |
| Quic.PopKeeps | src/transport/quic_transport.cpp:600-603 | popping a block whose end is acknowledged keeps every other byte ngtcp2 may read again |
| Quic.PushKeeps | src/transport/quic_transport.cpp:91-93 | so does retaining a new block at the stream's end |
| Quic.AcceptKeeps | src/transport/quic_transport.cpp:307-311 | and so does the acceptance of any prefix of the last block |
| Quic.LastStays | src/transport/quic_transport.cpp:274-323 | the block being written cannot be freed by acknowledgements that arrive during the write |
| Quic.LandKeeps | src/transport/quic_transport.cpp:497-501 | landing bytes extends the filled part of the mapping and writes nothing outside it |
| Quic.Receive | src/transport/quic_transport.cpp:495-504 | one delivery: bytes are queued only when the mapping is full, and consumed bytes followed by the queue stay what was delivered |
| Quic.QuicTransport.OnAcked | src/transport/quic_transport.cpp:590-605 | frees every block whose end is acknowledged, and no other |
| Quic.QuicTransport.OnRecvStreamData | src/transport/quic_transport.cpp:489-514 | delivers in order into the mapping or the queue; the FIN is remembered; the credit is given back at once |
| Quic.QuicTransport.DrainPackets | src/transport/quic_transport.cpp:246-272 | no packet once the connection is closed, at most ten otherwise; each packet written goes to the socket; it stops when there is nothing more, at an error, or when the socket is blocked, and reports exactly the errors |
| Quic.QuicTransport.PumpOnce | src/transport/quic_transport.cpp:380-461 | the whole sequence of a pump: one wait, the datagram if there is one, the timer, packets out; any error ends it, an error from ngtcp2 also closes the connection and reports it, a draining peer or the idle timeout closes it silently; nothing on a closed one; depth of re-entry at most two; frees and delivers only what it may |
| Quic.QuicTransport.CloseConnection | src/transport/quic_transport.cpp:325-377 | closed afterwards; at most one attempt to write a CONNECTION_CLOSE, none when closed or closing already, and at most one packet per attempt; an error close never pumps (section 10.2 of RFC 9000); a graceful one first waits for the retained blocks, and writes while some are left only right after its deadline or when something went wrong |
| Quic.QuicTransport.WriteStep | src/transport/quic_transport.cpp:277-319 | one round of the write loop: ngtcp2 accepts the next bytes of the block, which stays retained until it is all accepted; a packet goes to the socket; one pump when either is blocked; an error closes the connection |
| Quic.QuicTransport.WriteStream | src/transport/quic_transport.cpp:274-323 | on success the whole block has entered the stream once, in order, whatever the pump did in between; otherwise a prefix; it fails exactly when something went wrong |
| Quic.QuicTransport.Retain | src/transport/quic_transport.cpp:90-95 | between sends the retained blocks tile the stream up to its end, unless a send failed |
| Quic.QuicTransport.Send | src/transport/quic_transport.cpp:80-96 | the stream grows by exactly the buffer, or the send failed and by a prefix; throws exactly on an open connection without a stream; nothing happens then or when closed; otherwise it fails exactly when something went wrong |
| Quic.QuicTransport.SendFile | src/transport/quic_transport.cpp:166-194 | the same for a range of the file, which must be mapped first |
| Quic.QuicTransport.SendFin | src/transport/quic_transport.cpp:117-163 | the FIN is written once, in a packet handed to the socket, on an open connection with a stream; a second call writes nothing; -1 exactly without a stream, on a closed connection whose FIN was not sent, or when something went wrong |
| Quic.QuicTransport.FinStep | src/transport/quic_transport.cpp:121-161 | one round of its loop: a packet goes to the socket, with or without the FIN; one pump when ngtcp2 is blocked; an error closes the connection |
| Quic.QuicTransport.Recv | src/transport/quic_transport.cpp:98-115 | returns the next bytes of the stream, as many as are queued and fit; waits only with nothing queued, no FIN and an open connection; an empty result only with nothing queued, 0 for a FIN and -1 only if the connection was closed or something went wrong |
| Quic.QuicTransport.RecvFile | src/transport/quic_transport.cpp:196-236 | on success the next len bytes of the stream are in the range; nothing outside it is ever written; it fails only after a FIN, on a closed connection or when something went wrong, and does not wait for what is queued already; the mapping is given up on every way out |
| Quic.QuicTransport.Destroy | src/transport/quic_transport.cpp:62-63 | closed as by a graceful close, or left alone if closed already |
| Quic.QuicTransport.AllAckedIsEmpty | src/transport/quic_transport.cpp:588-605 | in a connection whose sends have not failed, nothing is retained once all is acknowledged |
| Quic.QuicTransport.EmptyIffFurthestAcked | src/transport/quic_transport.cpp:588-605 | in any state, failed sends included, nothing is retained exactly when the largest end of any block ever retained is acknowledged |
| Quic.FailedBlockFreed | src/transport/quic_transport.cpp:307-314 | a failed send of which one byte was accepted: its block outlives the acknowledgement of that byte and is freed with the next send's |
| Quic.QuicTransport.Run | src/transport/quic_transport.cpp:62-236 | any calls in any order, then the destructor: the stream is exactly what was sent unless a send failed, and what was taken followed by the queue is what was delivered |
| UdpWire.HdrRoundTrip | src/transport/udp_transport.cpp:58-91 | the header written is the header read |
| UdpWire.HdrBytes | src/transport/udp_transport.cpp:58-91 | the header byte by byte: chunk, fragment, length, each with the high-order byte first |
| UdpWire.FragsTile | src/transport/udp_transport.cpp:232-241 | fragments are not empty, fit the 16-bit length, tile the chunk; at most 17 for a 1 MiB chunk |
| UdpSend.UdpSender.SubmitRead | src/transport/udp_transport.cpp:177-199 | needs the previous READ finished and consumed and no send in flight: at most one READ is outstanding |
| UdpSend.UdpSender.WaitRead | src/transport/udp_transport.cpp:201-229 | takes the stash or the ring's completion; the unexpected-tag branch is not reachable |
| UdpSend.UdpSender.Reap | src/transport/udp_transport.cpp:303-321 | one completion in any order: a READ goes to the stash once, a send leaves what is still to come unchanged |
| UdpSend.UdpSender.MakeRoom | src/transport/udp_transport.cpp:260-283 | afterwards a slot is free; nothing happens while one is |
| UdpSend.UdpSender.Drain | src/transport/udp_transport.cpp:301-322 | every send in flight completes; the wire gains exactly what was to come |
| UdpSend.UdpSender.SendChunk | src/transport/udp_transport.cpp:231-323 | what goes on the wire is the chunk's fragments, each exactly once, while there are no more than 256; the buffer is untouched, the READ only moves to the stash |
| UdpSend.UdpSender.SendOne | src/transport/udp_transport.cpp:338-372 | buffer n&1 holds chunk n as read when it is sent, and buffer (n+1)&1 holds chunk n+1 afterwards; the READ of chunk n+1 is submitted before any of chunk n goes out; at most one control message is taken, after all of chunk n has gone out; success exactly if that is acknowledgement n and no completion reported an error |
| UdpSend.UdpSender.TakeAck | src/transport/udp_transport.cpp:353-364 | the next control message, when one comes, must be this chunk's number |
| UdpSend.UdpSender.SendFile | src/transport/udp_transport.cpp:327-373 | on success, chunk by chunk, exactly the fragments of what was read, which is the range as far as the file goes; nothing goes out before the ready byte, nothing of chunk n+1 before acknowledgement n, and nothing after anything else was taken; it fails only at a missing or wrong message or an error of a completion; never an unexpected tag |
| UdpSend.SlotsSufficeIff | src/transport/udp_transport.cpp:245-299 | a message slot in flight is never overwritten, in any order of completions, exactly when there are at most 256 fragments |
| UdpReceive.TallySum | src/transport/udp_transport.cpp:393-475 | the counts of the five kinds of operation add up to the pool, so the two counters of the source cover every buffer |
| UdpReceive.UdpReceiver.Prepare | src/transport/udp_transport.cpp:376-390 | an operation is prepared only for a buffer that is in no other, and fails exactly when the ring is full |
| UdpReceive.WaitMakesProgress | src/transport/udp_transport.cpp:418-468 | at every wait the two counters cover the pool, something is submitted, unsubmitted operations are of one kind, only submitted writes remain once the last fragment is in, and every buffer is receiving at a chunk boundary; for every pool size |
| UdpReceive.ReclaimKeeps | src/transport/udp_transport.cpp:446-466 | a completed write or a duplicate keeps all that |
| UdpReceive.WriteKeeps | src/transport/udp_transport.cpp:439-445 | so does a new fragment with its two flush conditions |
| UdpReceive.QueueHasRoom | src/transport/udp_transport.cpp:129-132 | preparing one more operation never finds the ring full |
| UdpReceive.SetOne | src/transport/udp_transport.cpp:152-153 | the remaining counter is the number of unset bits |
| UdpReceive.UdpReceiver.ProcessFragment | src/transport/udp_transport.cpp:105-155 | throws exactly for a short datagram or a fragment number out of range; a duplicate changes nothing; a new fragment sets its bit and prepares its write |
| UdpReceive.UdpReceiver.OnRecv | src/transport/udp_transport.cpp:433-453 | a RECV completion keeps the pool and the contents in order |
| UdpReceive.UdpReceiver.OnWrite | src/transport/udp_transport.cpp:455-467 | a WRITE completion too |
| UdpReceive.UdpReceiver.RecvChunk | src/transport/udp_transport.cpp:405-468 | every fragment received and written, every buffer receiving again; each fragment's place holds the first payload taken with its number and nothing else was written, if the datagrams' lengths are true; it throws exactly at a failed write or at a datagram that is short or out of range; it starves only while a fragment is missing and nothing more arrives |
| UdpReceive.UdpReceiver.PostAll | src/transport/udp_transport.cpp:394-398 | every buffer is posted in one submission, exactly when the ring has room for the pool |
| UdpReceive.UdpReceiver.RecvFile | src/transport/udp_transport.cpp:393-477 | with genuine datagrams in each loop the output range is the source; however it ends, the chunks acknowledged are the first ones, each once, in order, each only after all its fragments were taken and, being genuine, are on disk; the ready byte goes out once, when every buffer is receiving; it throws only at a full ring, a control message that cannot be sent, or a completion that ends a loop |
| UdpReceive.ContentLands | src/transport/udp_transport.cpp:455-460 | a completed write puts its fragment in place and loses no other, in any order of completions |
| UdpReceive.ContentComplete | src/transport/udp_transport.cpp:422-468 | all fragments received and none in flight means each place holds the first payload taken for it |
| UdpReceive.FirstsMore | src/transport/udp_transport.cpp:117-153 | a datagram changes what will be on disk exactly when it is the first with a number in range |
| UdpReceive.RangeIsChunkIff | src/transport/udp_transport.cpp:422-468 | the range holds the chunk exactly when those first payloads, being of the right lengths, are the chunk's fragments |
| UdpReceive.ChunkTaken | src/transport/udp_transport.cpp:405-468 | datagrams of the chunk put it in its range, and nothing outside is written even when the loop ends early |
| UdpReceive.FragmentIsGenuine | src/transport/udp_transport.cpp:237-243 | what the sender sends for a chunk is genuine for it |
| UdpLockstep.DeliverOk | src/transport/udp_transport.cpp:115-124 | every datagram that arrives in chunk k's loop was sent for chunk k, so the receiver never throws |
| UdpLockstep.TakeAckOk | src/transport/udp_transport.cpp:354-364 | the acknowledgement that arrives is the one expected |
| UdpLockstep.ThrowsWhen | src/transport/udp_transport.cpp:117-120 | in any state a side throws at nothing but another acknowledgement than expected (src/transport/udp_transport.cpp:360-364) or a fragment number out of range, and nothing follows; an acknowledgement is taken only after the whole chunk was sent |
| UdpLockstep.StepOk | src/transport/udp_transport.cpp:338-372 | every step keeps sender, channel and receiver in lock-step, copies that arrive in time included |
| UdpLockstep.ExactlyOnceIsPrompt | src/transport/udp_transport.cpp:338-372 | a channel that neither loses nor copies is empty whenever a chunk is finished |
| UdpLockstep.NeverStuck | src/transport/udp_transport.cpp:327-475 | until the last acknowledgement is in, some step is possible |
| UdpLockstep.StepsEnd | src/transport/udp_transport.cpp:327-475 | every step but a copy lowers a measure, so runs end |
| UdpLockstep.FinishedRun | src/transport/udp_transport.cpp:405-475 | at the end every chunk's loop took all its fragments and nothing else |
| UdpLockstep.LockstepIsGenuine | src/transport/udp_transport.cpp:327-475 | in every such run what each loop takes is genuine, which makes the output the source |
| UdpLockstep.LateCopySpoils | src/transport/udp_transport.cpp:115-124 | a run in which a late copy of a fragment of chunk 0 is taken for chunk 1 |
| UdpLockstep.ChunkRightIff | src/transport/udp_transport.cpp:105-155 | whatever the order of delivery, a loop that finishes leaves the chunk's fragments in their places exactly when every datagram in the channel that the loop would take tells the truth about its length and carries the chunk's bytes for its number |
| UdpTransfer.FromBatch | src/transport/udp_transport.cpp:237-243 | a datagram of a chunk's batch is the fragment of that chunk that its header names |
| UdpTransfer.CarriedIsGenuine | src/transport/udp_transport.cpp:105-155 | what the receiver takes of a sender's batches, in any prompt run, is genuine for the chunk it is receiving |
| UdpTransfer.Transfer | src/transport/udp_transport.cpp:327-477 | `send_file` and `recv_file` that both return, over a channel that behaved as in any prompt run: the output range is the source range, nothing outside it changed, and each chunk was acknowledged once, in order |
| Exchange.PushedFileIsConfig | src/core/push.cpp:38-76 | every file whose FILE_META fits a message, with the hashes precompute_meta gives it, meets the conditions of the results below, whatever was transferred before |
| Exchange.PullTakesOnly | src/core/pull.cpp:26-31 | whatever arrives, pull throws exactly at an impossible frame, at anything but its FILE_META, and then at anything but the header of the chunk that is due (src/core/pull.cpp:83-94) |
| Exchange.PushTakesOnly | src/core/push.cpp:82-121 | push throws exactly at an impossible frame, at anything but a HANDSHAKE, and then at anything but COMPLETE and a request for a chunk there is; each request is answered with that chunk's header |
| Exchange.InitOk | src/core/push.cpp:78-84 | at the start each process will write exactly what the other will read |
| Exchange.NextOk | src/core/push.cpp:98-121 | every step of either process keeps the streams in sync and the output right, and leaves strictly less to do |
| Exchange.NeverThrows | src/core/pull.cpp:81-94 | in no run does either side throw; what push streams j-th is the j-th needed chunk; push ends after exactly the needed chunks |
| Exchange.NoDeadlock | src/core/pull.cpp:72-135 | while either side is unfinished some step changes the state |
| Exchange.FinishedRun | src/core/pull.cpp:81-135 | both streams are empty, every chunk is marked, and the output is the source exactly if the resumed chunks were the source's |
| Exchange.FinishedIsSourceIff | src/core/pull.cpp:41-135 | the same in terms of the digest, a corollary: from resumed chunks that verify, the output of a finished run is the source exactly when none of them is a different byte string with the source chunk's digest |
| Exchange.FreshIsSource | src/core/pull.cpp:55-135 | a fresh transfer's output is the source, whatever the digest |
| Pull.DiskOkIsResumeSafe | src/core/pull.cpp:41-43 | what every step keeps implies that an accepted record is truthful |
| Pull.WriteKeeps | src/core/pull.cpp:96-101 | receiving bytes of a chunk not marked done spoils no marked chunk |
| Pull.Save | src/core/pull.cpp:121 | a save, torn at any byte or whole, never makes an untruthful record acceptable |
| Pull.CheckChunk | src/core/pull.cpp:103-120 | a chunk is marked exactly when its bytes hash to its entry |
| Pull.OpenOutput | src/core/pull.cpp:37-70 | a resumed output keeps its bytes; a fresh one is emptied and then allocated as zeros, one that cannot be reopened only emptied, both with nothing marked; what each leaves when cut off; the record is never touched |
| Pull.FetchChunk | src/core/pull.cpp:96-121 | one turn of the loop, cut off anywhere, keeps the disk resumable and the chunks done before untouched; header, bytes and verification in that order, and no result but for the first of them that went wrong or the death of the process |
| Pull.RunPull | src/core/pull.cpp:41-135 | a finished transfer is wholly verified and leaves no record; an unfinished one leaves a record of what is left; chunks recorded before keep their bytes and are not requested again; every needed chunk is asked for and taken in order, and the session ends otherwise only at the first thing that goes wrong |
| Pull.Sessions | src/core/pull.cpp:41-135 | over any number of sessions, each crashing anywhere, those that fall back included, an accepted record names only chunks whose bytes verify, up to a fallback that is cut off and leaves a record that is not accepted; the fresh start that must follow is then safe exactly when the marked chunks verify as zeros |
| Pull.GrowKeeps | src/core/pull.cpp:96-101 | bytes received into an output that is still growing spoil no chunk that has landed |
| Pull.GrownIsSafe | src/core/pull.cpp:51-121 | wherever a session in a growing output stops, an accepted record is truthful |
| Pull.GrowChunk | src/core/pull.cpp:96-121 | one chunk of such a session, cut off anywhere, keeps that; afterwards the output ends with the chunk, which is marked exactly if it verifies, and the record is exactly what is marked |
| Pull.FallbackSession | src/core/pull.cpp:48-135 | the whole session after the fallback: it asks for every chunk and takes them in order; safe wherever it stops, and one that tries every chunk ends as `Pull.RunPull` does |
| Pull.FallbackThenStale | src/core/pull.cpp:41-121 | a run: a fallback saves a right first chunk and is cut off, the fresh start after it is cut off, and the third session takes a chunk of zeros for done |
| Pull.SharedRecord | src/core/pull.cpp:41-43 | a record of one transfer is truthful for another with the same name exactly when their hashes agree on the recorded chunks |
| Pull.StartKeeps | src/core/pull.cpp:55-70 | a fresh start cut off after any system call keeps the disk resumable |
| Pull.StaleRecordHarmlessIff | src/core/pull.cpp:55-70 | a fresh start beside a complete record, crashing anywhere, leaves a safe disk exactly when each chunk the record marks verifies in an all-zero file or the size is never resumed |
| Pull.BeforeFirstSaveIff | src/core/pull.cpp:96-121 | with any bytes of the first chunk received too, exactly when the record also does not mark that chunk |
| Pull.FallbackSafeIff | src/core/pull.cpp:51-54 | after the fallback, until its first save, safe exactly unless the transfer is one full chunk that the record marks |
| Pull.ResumeFromStale | src/core/pull.cpp:41-70 | a run: a fresh start crashes after allocating, and the next session takes a marked chunk for done although its zeros do not verify |
| PartialFile.BitmapFitsIff | src/core/partial_file.cpp:51-53 | the bitmap has a bit for every chunk exactly up to 2^32-8 chunks |
| PartialFile.SetBitExact | src/core/partial_file.cpp:86-88 | setting a bit sets that bit and no other |
| PartialFile.HasBitMeans | src/core/partial_file.cpp:57 | the bit tested is the k-th binary digit from below |
| PartialFile.Pack | src/core/partial_file.cpp:82-89 | the packed bitmap has bit i of the record set exactly when chunk i is done, and zero padding |
| PartialFile.LoadRecord | src/core/partial_file.cpp:30-68 | accepts a record exactly when it begins with the transfer's hash, holds the whole bitmap and stands beside an output of the right size; then gives bit i%8 of byte i/8 for chunk i |
| PartialFile.LoadExact | src/core/partial_file.cpp:36-62 | exactly which bytes are accepted for a transfer, and the bitmap they give |
| PartialFile.OtherTransferRejected | src/core/partial_file.cpp:38-42 | a record that does not begin with the transfer's hash is never accepted |
| PartialFile.LoadGivesSaved | src/core/partial_file.cpp:51-62 | what was saved is what is loaded, whenever it is accepted |
| PartialFile.PrefixRejected | src/core/partial_file.cpp:36-54 | every strict prefix of a saved record is rejected |
| PartialFile.ResumesIffFullChunks | src/core/partial_file.cpp:44-49 | a saved record is accepted beside its own output exactly when the file size is a multiple of the chunk size |
| Chunks.ChunksTile | src/core/push.cpp:42-43 | the chunks tile the file exactly while the 32-bit count does not wrap; all but the last are full |
| Chunks.NeededIsUnset | src/core/chunk_manager.cpp:32-40 | the needed chunks are the strictly increasing list of exactly the unset indices |
| Chunks.ChunkManager.MarkDone | src/core/chunk_manager.cpp:11-16 | sets one bit, or throws exactly for an index out of range |
| Chunks.ChunkManager.MarkTodo | src/core/chunk_manager.cpp:18-23 | clears one bit, or throws exactly for an index out of range |
| Chunks.ChunkManager.NeededChunks | src/core/chunk_manager.cpp:32-40 | the loop computes that list |
| Chunks.ChunkManager.AllDone | src/core/chunk_manager.cpp:42-47 | true exactly when nothing is needed |
| Protocol.U64RoundTrip | src/core/protocol.cpp:16-20 | a 64-bit field reads back as written |
| Protocol.U32RoundTrip | src/core/protocol.cpp:10-14 | so does a 32-bit field |
| Protocol.U32Bytes | src/core/protocol.cpp:10-14 | its high-order byte comes first |
| Protocol.MakeFileMeta | src/core/protocol.cpp:122-145 | throws exactly for a wrong number of hashes; otherwise the payload is the encoding, filled to its last byte |
| Protocol.ParseFileMeta | src/core/protocol.cpp:182-197 | parses to what the payload means, or throws; nothing is read past its end |
| Protocol.DecodeMetaExact | src/core/protocol.cpp:122-197 | a payload parses to m exactly when it starts with m's encoding |
| Protocol.DecodeIsPrefix | src/core/protocol.cpp:182-197 | whatever parses is well formed and its encoding is a prefix of the payload |
| Protocol.ReceivedCountIsSmall | src/core/protocol.cpp:109-112 | a FILE_META that passes the 64 MiB limit has fewer than 2^21 chunks |
| Protocol.MetaFitsIff | src/core/protocol.cpp:132-134 | which FILE_METAs fit in one message |
| Protocol.Reader.GetStr | src/core/protocol.cpp:57-63 | the string, or an exception exactly when it would reach past the payload |
| Protocol.DecodeStrExact | src/core/protocol.cpp:22-26 | a length-prefixed string parses to s exactly when it was so written |
| Protocol.HandshakeAndBack | src/core/protocol.cpp:158-208 | a handshake parses back to its token, cut to its 32-bit length: to the token itself exactly below 2^32 bytes |
| Protocol.IndexAndBack | src/core/protocol.cpp:166-222 | an index message parses back to its index under its own type and under no other |
| Protocol.ParseIndex | src/core/protocol.cpp:210-222 | an index parses back, and throws exactly for a wrong type or a short payload |
| Protocol.RecvMsg | src/core/protocol.cpp:88-120 | takes exactly one frame; rejects a header exactly when no sendable message has it, after taking just the header; an exception of the transport exactly when a call failed or found the connection closed |
| Protocol.SendMsg | src/core/protocol.cpp:77-86 | the frame, or an exception after a proper prefix of it, exactly when a call failed or found the connection closed |
| Protocol.FrameBytes | src/core/protocol.cpp:77-84 | the frame byte by byte: version 2, type, length with the high-order byte first, payload |
| Protocol.FramesUnique | src/core/protocol.cpp:77-120 | a stream of frames can be read as one list of messages only |
| Protocol.SendThenReceive | src/core/protocol.cpp:77-120 | any list of messages comes back identical, with the stream left at the boundary, over any partial transfers, unless a call fails or finds the connection closed |
| Protocol.FrontOfFrame | src/core/protocol.cpp:88-120 | bytes that begin a frame are read as that frame as soon as they are all there, and not before |
| Protocol.FrontOfBadIff | src/core/protocol.cpp:92-112 | what has arrived is rejected exactly when its header is that of no message that can be sent |
| Transport.SendExact | src/transport/transport.hpp:45-59 | all bytes in order, or a part and an exception, exactly when a call failed or found the connection closed; EAGAIN is retried |
| Transport.RecvExact | src/transport/transport.hpp:61-75 | exactly the next bytes, and the rest of the buffer untouched; an exception exactly when a call failed or found the connection closed; EAGAIN is retried |
| Tcp.TcpTransport.SendFile | src/transport/tcp_transport.cpp:33-51 | emits exactly the file range once, or a proper prefix of it and throws, exactly when a call failed or moved nothing; an interrupted call is tried again |
| Tcp.TcpTransport.DrainPipe | src/transport/tcp_transport.cpp:87-103 | moves the front of the pipe to the file in order; fails exactly when a call failed or moved nothing |
| Tcp.TcpTransport.RecvFile | src/transport/tcp_transport.cpp:55-107 | the next bytes of pipe and socket, in order, land in the range and nowhere else, all of them exactly on a normal return, and what is left still makes up the stream; the pipe is as full as before unless pipe to file failed, and then fuller; computed as `Tcp.Receive` says for any answers of the kernel; it throws exactly without a pipe or when a call failed or moved nothing |
| Tcp.TcpTransport.RecvChunks | src/transport/tcp_transport.cpp:53-107 | chunk after chunk over the reused pipe, each gets exactly its own bytes |
| Tcp.ReceiveTakes | src/transport/tcp_transport.cpp:72-106 | those properties, for every list of answers |
| Tcp.PipeEmptyIff | src/transport/tcp_transport.cpp:87-101 | after any sequence of calls the pipe is empty exactly when none failed in pipe to file |
| Tcp.RightIffPipeWasEmpty | src/transport/tcp_transport.cpp:54-106 | the next chunk is received right, whatever is at the socket and however the kernel answers, exactly when no earlier call failed in pipe to file |
| Tcp.LeftoverRun | src/transport/tcp_transport.cpp:87-101 | a run in which a failed call leaves two bytes and the next one returns normally with them |
| Files.PutPut | src/transport/tcp_transport.cpp:88-103 | adjacent positioned writes amount to one |
| HashPool.StepOk | src/core/hash.cpp:167-187 | while the counter has not wrapped, claims are 0, 1, 2 and so on, and every claimed chunk is hashed or held by exactly one worker, whatever the interleaving |
| HashPool.NormalReturn | src/core/hash.cpp:199-203 | when the counter cannot wrap and no worker threw, each chunk was claimed exactly once and the result is the serial hash list |
| HashPool.SerialReturn | src/core/hash.cpp:199-203 | when no worker threw the result is the serial hash list, the counter wrapping or not |
| HashPool.StepsLower | src/core/hash.cpp:169-173 | every step of a worker lowers a measure, the counter wrapping or not: workers terminate |
| HashPool.ClaimedOnceIffFits | src/core/hash.cpp:171-173 | no chunk is claimed twice in any run exactly when chunks and workers together are at most 2^32 |
| HashPool.ParallelHash.RunToEnd | src/core/hash.cpp:189-203 | under any scheduler the pool stops; it returns normally exactly when no worker threw, and then with the serial list, and with each chunk claimed once if the counter cannot wrap; otherwise with the exception of the first worker that threw |
| HashPool.HashComputeParallel | src/core/hash.cpp:140-204 | the hash of every chunk of the file, or an exception, exactly when the file cannot be mapped, as an empty one never can, or a worker threw; as many workers as the machine has threads, at least one, and no more than chunks |
| Buffers.Buffer.Move | src/core/protocol.hpp:88-92 | the new buffer is what the source was; the source is empty |
| Buffers.Buffer.MoveAssign | src/core/protocol.hpp:94-103 | self-assignment changes nothing; otherwise what was held is released once, a callback with its own pointer, and the source is empty |
| Buffers.Buffer.Destroy | src/core/protocol.hpp:79-81 | runs the callback with the pointer it came with, or frees the heap block, or neither |
| Buffers.StepOk | src/core/protocol.hpp:63-108 | in any program heap and callback ownership never meet in one value, each owner has one holder or was given back once |
| Buffers.GivenBackWhen | src/core/protocol.hpp:79-103 | an owner is given back by exactly the operation that destroys or overwrites its holder |
| Buffers.OwnersAccounted | src/core/protocol.hpp:69-81 | every owner ever made is held or was given back |
| Buffers.ExactlyOnce | src/core/protocol.hpp:63-108 | in a program that ends with no variable left every owner was given back exactly once and nothing else was |
| Buffers.RunWithItsPointer | src/core/protocol.hpp:63-108 | in any program every callback is run with the pointer given at its construction, wherever its owner was moved in between |
| Buffers.Execute | src/core/protocol.hpp:63-108 | a program executed on the class releases exactly what the value model says, in the same order and with the same pointers |

## Left out

- TLS, wolfSSL, ngtcp2 internals, handshake, connection ids, certificates: foreign code; ngtcp2 is an environment.
- Socket setup, `select` and `recvmsg` error handling, environment variables, logging, statistics printing.
- mmap page alignment, registered-buffer setup and the memlock fallback; a mapping is its file range.
- The switch of a QUIC connection from the slot pool to plain `sendmsg` (`begin_packet`, `flush_packets`); `SendPacket` covers every outcome of either.
- SHA-256 itself, the hash cache file, tracker, token store, CLI, latency bench: no hard property.
- `make_user_data`, `get_tag` and `get_index`: a completion carries its tag and index as fields.
- A signal that ends a wait which would otherwise go on for ever, in the results about `reserve`'s wait.
- Egress.ZcEgress.Write: stands for ngtcp2 assembling a packet in the reserved slot, which the source does through the pointer.
- Pull.RunPull: starts after FILE_META has been parsed and assumes what `precompute_meta` produces: at least one hash (without one the source reads past an empty vector) and a size that the chunks tile; its output can be reopened, and `Pull.FallbackSession` is the session that cannot.
- Pull.SaveRecord: an open or write that fails without a crash leaves what a crash there would leave; the exception is not told apart from it.
- Pull.Sessions: takes no fallback in a one-chunk transfer whose record marks the chunk, which is the unsafe case of `Pull.FallbackSafeIff`.
- Exchange.FinishedRun: the two processes talk to each other and neither crashes; crashes are in `Pull.Sessions`, a peer that breaks the protocol is not modelled.
- UdpReceive.UdpReceiver.RecvFile: one call per transport, as its only user makes (tests/test_udp.cpp); the RECVs it leaves posted would meet a second call's.
- UdpSend.UdpSender.SendFile: for a range that reaches past the end of the file it does not say which stale buffer bytes are sent for the missing ones.
- PartialFile.Pack: requires at most 2^32-8 chunks, because past that the source writes outside its vector; `PartialFile.BitmapFitsIff` says why that is exact.
- PartialFile.LoadRecord: the same, for reading.
- UdpReceive.UdpReceiver.WaitCqe: a write past the last buffer without registered buffers counts as refused; what follows that memory is not modelled.
- Quic.QuicTransport.DrainPackets: does not say what is in the packets.
