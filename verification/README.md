# tserver in Dafny

A model of the connection server `tconnd`, of the client library, the message bus and the containers
underneath it, of the stop schedule of `start-stop-daemon` and of the rolling log appender, with proofs of what
they are for.

| file | models |
|---|---|
| `Basics`, `Framing` | byte strings; the length-prefixed stream, the framer of `tconnd` and what it refuses |
| `Sip`, `SipLayout`, `Tconnapi` | the protocol between `tconnd` and the server at byte level; the client library's encoder and packet cutter |
| `TbusSpec`, `Tbus`, `Tbusapi` | the shared-memory ring of `tbus.c` under interleavings of producer and consumer; sending and partial consumption |
| `TconndState` | the whole connection engine as a state machine over values, one function per C function |
| `TconndOwnership`, `TconndSteps` | the global invariant: pools, lists, deadlines, queued output; kept by every call |
| `TconndOutput`, `TconndFates`, `TconndDownward` | batched output; who survives a message, exactly; from the server's answers to the clients |
| `TconndStream`, `TconndReceive`, `TconndDelivery`, `TconndTime`, `TconndStarvation` | the stream of each client; what a turn does, from the answer of recv; what a refusal loses; how long things last; running out of package buffers |
| `TconndLoop`, `TconndService`, `TconndWitness` | the main loop with the saved next pointer of `tconnd_epool_proc`; what the service promises over every run of it; concrete runs where it fails |
| `TconndFairness` | a pass over the readable list serves everybody |
| `TconndCallbacks`, `TconndBus` | what the application is told about each connection; from the main loop over the bus to the callbacks of the client library |
| `TlibcList`, `MempoolSpec`, `Mempool` | the intrusive list on heap nodes; the memory pool and its handles on those lists |
| `TconndLinks`, `TconndEngine`, `TconndPass` | the engine as a class over arrays, linked lists and linked pools, one method per C function, each proved to do what its function does; the loops that delete the node they stand on |
| `TlibcHashSpec`, `TlibcHash` | the hash table on heap nodes against an insertion-ordered multimap |
| `StopSchedule`, `StopText`, `StopPolling` | the retry schedule: parser, goto executor, writing a schedule down and reading it back, and the polling loop with its time arithmetic |
| `RollingFile` | the ring of log files as a retention structure |

How the parts fit. `TconndEngine.Engine.View` is the abstract state. The engine keeps its records in arrays, and its
three global lists, the local writable list and both pools are linked nodes (`TlibcList`, `Mempool`, `TconndLinks`);
`View` is defined only while all those links are sound. Every method's contract equates the new view with the
value-level function of the same name, and the theorems are about those functions, in which a list is the sequence of
its sockets. The loops that delete while they walk are followed link by link: the flush loop reads `iter->next` after the
socket may be gone, the timer loops and `tconnd_epool_proc` save it before.
`TconndLoop` puts the calls together: an event of the main loop is a pass over the readable list, with the saved next
pointer and the listener anywhere in between, or one of the other calls. A run is sparing (`SparesNext`) if no pass
deletes the socket saved as next and goes on to serve it.

`TbusSpec` and `Tbus` prove that the bus is a FIFO, which is how the engine uses it. System calls are parameters:
what `recv`, `accept`, `writev` and `epoll_ctl` answer, how much bus space is left, how far the timer advanced,
what the clock says, what `do_stop` found. A step of a run takes any of them, and the theorems hold for all.

Four source files are not UTF-8 text: `tbus/source/tbus.c`, `tutils/include/sip.h`, `tconnd/source/tconnd_listen.c`
and `tconnd/source/tconnd_epoll.c`. They are modelled like the others; the rows below that rest on them cite the
declaration or the caller, and name the lines of the body in the last column.

Behaviour worth knowing:

- A frame whose body has exactly `package_size` bytes is refused when a `recv` stops one byte short of it, and
  accepted otherwise. `Framing.RefusedExactly` and `TconndStream.RefusalIsExact` give the condition,
  `Framing.BodyOfPackageSizeDependsOnTheCut` an instance.
- Both refusals (tconnd/source/tconnd_socket.c:394-400 and 407-413) return before line 433 publishes anything, so the
  complete frames in front of the refused one are lost. `TconndService.RefusalLosesExactly` says exactly which,
  `TconndWitness.RefusalLosesFrame` gives a run for either refusal, and `TconndService.EndToEnd` says that nothing else is
  ever lost: not on a live connection, and not on a stream whose bodies stay below `package_size`.
- `tconnd_epool_proc` saves the next readable socket before it serves the current one, and may delete that next socket to
  free a package buffer. Then it serves the deleted one: `recv` fails on the closed descriptor, a close marker with an
  invalid serial number goes out, and the slot is freed a second time. `TconndLoop.PassKeepsInvExactly` and
  `TconndLoop.LoopKeepsInvExactly` say that the global invariant holds if and only if no pass does this, and that the pool
  is broken for good otherwise; `TconndWitness.EvictionBreaksPool` is a run from the start that gets there. What holds over
  every other run carries `SparesNext` as its hypothesis.
- A malformed bus message abandons the rest of its batch, which is consumed all the same
  (`TconndOutput.MalformedAbandonsRest`).
- The check against `SIP_BROADCAST_NUM` in `process_input_tbus` can never fire: the count is a `uint16_t`.
- `tconnd_socket_flush` closes a socket on a partial `writev`, so output is a prefix for a deleted socket only.
- `tlibc_hash_init` takes a size of 0, but inserting and finding then divide by it.

## Model

| member | source | states |
|---|---|---|
| Framing.SplitStream | tconnd/source/tconnd_socket.c:377-403 | reading a client's stream of frames, with an incomplete tail behind it, gives back the bodies in order and that tail |
| Framing.LowByteFirst | tconnd/source/tconnd_socket.c:377-403 | the byte order of the length: a body of 258 bytes is framed by the bytes 2 and 1 |
| Framing.SplitLossless | tconnd/source/tconnd_socket.c:377-403 | reading loses nothing: the frames of the bodies and the tail are the stream again |
| Framing.SplitAppend | tconnd/source/tconnd_socket.c:365-403 | reading is independent of the cut: the frames before a cut, then those of the tail with the next chunk, are the frames of the whole |
| Framing.CutMeetsSplit | tconnd/source/tconnd_socket.c:377-403 | the frame scan refuses exactly the streams with an oversized header, and otherwise cuts between complete frames and incomplete tail |
| Framing.CutSeparates | tconnd/source/tconnd_socket.c:377-433 | what is published is whole frames, what is cached is an incomplete frame, together they are what was received |
| Framing.RefusedExactly | tconnd/source/tconnd_socket.c:394-413 | a receive is refused if and only if a header announces more than package_size, or the tail is one byte short of a frame with package_size bytes |
| Framing.AcceptableNeverRefused | tconnd/source/tconnd_socket.c:394-413 | bodies below package_size are never refused, wherever the stream is cut |
| Framing.BodyOfPackageSizeDependsOnTheCut | tconnd/source/tconnd_socket.c:407-413 | a frame of exactly package_size bytes accepted in one cut and refused in another |
| Framing.ScanFrames | tconnd/source/tconnd_socket.c:375-413 | the pointer loop finds the cut of the scan, or refuses exactly the refused buffers |
| MempoolSpec.InitPartitions | tutils/include/tlibc_mempool.h:47-64 | a new pool has every slot on the unused list and none with a valid serial number |
| MempoolSpec.AllocPartitions | tutils/include/tlibc_mempool.h:68-77 | alloc moves one slot that was not used; the lists go on partitioning the slots |
| MempoolSpec.FreePartitions | tutils/include/tlibc_mempool.h:79-86 | free moves exactly that slot back; the lists go on partitioning the slots |
| MempoolSpec.FreeThenAlloc | tutils/include/tlibc_mempool.h:68-86 | the slot freed last is the next one handed out |
| MempoolSpec.HandleSafety | tutils/include/tlibc_mempool.h:41-86 | over every run of permitted operations a handle passes id_test and ptr_test if and only if the allocation that issued it is still live, and no serial number is issued twice |
| MempoolSpec.StaleHandleFails | tconnd/source/tconnd_tbus.c:134-146 | the handle of an earlier occupant of a slot does not pass for a later one |
| MempoolSpec.Ptr2IdInverts | tutils/include/tlibc_mempool.h:42-45 | a pointer anywhere into a slot leads back to that slot's id |
| Mempool.Pool.constructor | tutils/include/tlibc_mempool.h:47-64 | tlibc_mempool_init on linked nodes yields the value-level pool, slots in order |
| Mempool.Pool.Alloc | tutils/include/tlibc_mempool.h:68-77 | on linked nodes, with counters: exactly the value-level alloc |
| Mempool.Pool.Free | tutils/include/tlibc_mempool.h:79-86 | on linked nodes, with counters: exactly the value-level free |
| Mempool.Pool.Test | tconnd/source/tconnd_tbus.c:134-146 | the two handle tests |
| TlibcList.Link.AddTail | tutils/include/tlibc_list.h:35-38 | the node becomes the last of the ring, other members stay in order |
| TlibcList.Link.Add | tutils/include/tlibc_list.h:30-33 | the node becomes the first of the ring |
| TlibcList.Link.DelFrom | tutils/include/tlibc_list.h:40-49 | the ring loses exactly that node, and the node's own links stay as they were |
| TlibcList.Link.DelAgain | tutils/include/tlibc_list.h:46-49 | deleting a node again right away changes no link anywhere |
| TlibcList.Link.DelTwice | tconnd/source/tconnd_socket.c:221-234 | a node unlinked by a failed accept and again by the destructor leaves the old ring minus that node |
| TlibcList.RingWithout | tutils/include/tlibc_list.h:40-49 | a ring whose node k is bypassed is the ring of the remaining nodes |
| TlibcHashSpec.LookupInBucket | tutils/source/tlibc_hash.c:61-95 | searching only the key's bucket finds what searching the whole table would, whatever collides |
| TlibcHashSpec.LookupIsEarliest | tutils/source/tlibc_hash.c:79-95 | a lookup is the earliest-inserted live element with the key, or nothing if and only if there is none |
| TlibcHashSpec.WithoutMembers | tutils/source/tlibc_hash.c:97-111 | removal keeps exactly the other elements |
| TlibcHashSpec.WithoutAt | tutils/source/tlibc_hash.c:97-111 | the other elements stay in order |
| TlibcHash.HashKey | tutils/source/tlibc_hash.c:29-39 | the loop computes the base-31 digits of the key in 32-bit arithmetic |
| TlibcHashSpec.HashIsNumber | tutils/source/tlibc_hash.c:29-39 | the hash is the key read as a number in base 31, modulo 2^32 |
| TlibcHash.Table.constructor | tutils/source/tlibc_hash.c:10-27 | an empty table of any size whose index is exact |
| TlibcHash.Table.Insert | tutils/source/tlibc_hash.c:41-59 | the element goes to the end of the multimap; the index of used buckets stays exact, whatever stale links the bucket had |
| TlibcHash.Table.Find | tutils/source/tlibc_hash.c:79-95 | the counted loop stays in its bucket and returns the multimap's lookup |
| TlibcHash.Table.Remove | tutils/source/tlibc_hash.c:97-111 | the multimap loses exactly that element; a bucket that becomes empty leaves the index |
| TlibcHash.Table.Clear | tutils/source/tlibc_hash.c:113-125 | walking only the used buckets empties the whole table and leaves it valid for reuse |
| Sip.RspRoundTrip | tconnapi/source/tconnapi.c:15-45 | every non-zero encoding passes both length checks of process_input_tbus and decodes to the same command, cids and body; a send with data has a non-empty body |
| Sip.EncodeFailsExactly | tconnapi/source/tconnapi.c:20-35 | the encoder gives up if and only if the head does not fit, or the body is empty or does not fit |
| Sip.EncodeInto | tconnapi/source/tconnapi.c:15-45 | the in-place encoder, head first and size patched last, writes the specified message |
| Sip.ReqRoundTrip | tconnapi/source/tconnapi.c:88-98 | what tconnd puts on the bus passes the client's checks and reads back the same |
| Tconnapi.CutPackets | tconnapi/source/tconnapi.c:117-145 | the pointer loop reports exactly the complete frames of the payload, in order |
| Tconnapi.OnRecv | tconnapi/source/tconnapi.c:85-153 | the callbacks made for a message, malformed ones included |
| SipLayout.RspMalformedExactly | tconnd/source/tconnd_tbus.c:104-118 | the messages refused are exactly those shorter than the head they announce, and sends shorter than head and body, on the bytes |
| SipLayout.RspFields | tconnd/source/tconnd_tbus.c:104-124 | the offsets, widths and byte order of command, handles and body |
| SipLayout.ReqFields | tconnapi/source/tconnapi.c:88-100 | the same for the messages to the server, and which of them are ignored |
| Tconnapi.HeardIsSplit | tconnapi/source/tconnapi.c:85-153 | what the application hears of a connection over a whole bus is the frames of its joined data |
| TbusSpec.PeekFindsRecords | tbus/include/tbus.h:54 | peek finds the records that lie in a part, up to its limit, in order, and never returns NULL on them (body: tbus/source/tbus.c:114-158) |
| TbusSpec.ReadsSeen | tbus/include/tbus.h:54 | tbus_read_begin with a stale tail finds the oldest messages pending at that look, and only places where head may go (body: tbus/source/tbus.c:160-208) |
| TbusSpec.JunkIsSkipped | tbus/include/tbus.h:54 | behind records in order, an unknown command or a body past the limit makes the read give up everything up to tail (body: tbus/source/tbus.c:114-208) |
| TbusSpec.LaidAppend | tbus/include/tbus.h:50-51 | a record written at tail extends the pending messages by one (body: tbus/source/tbus.c:92-112) |
| TbusSpec.LaidWraps | tbus/include/tbus.h:50-51 | going back to offset 0 behind a gap keeps the pending messages (body: tbus/source/tbus.c:49-66) |
| TbusSpec.LaidAdvances | tbus/include/tbus.h:44-55 | moving head to the place of the k-th message leaves exactly the messages from the k-th on (body: tbus/source/tbus.c:210-213) |
| Tbus.Bus.Reserve | tbus/include/tbus.h:50 | one pass of tbus_send_begin with a stale head: the space granted never meets unread messages; full, or back to 0, exactly as the code decides (body: tbus/source/tbus.c:39-89) |
| Tbus.Bus.SendBegin | tbus/include/tbus.h:50 | both passes: the space granted and where tail goes, exactly, from the two offsets; an empty bus of two packets or more always has room for a whole packet (body: tbus/source/tbus.c:39-89) |
| Tbus.Bus.SendEnd | tbus/include/tbus.h:51 | the message becomes the last pending one and tail goes behind it or round to 0; length 0 changes nothing (body: tbus/source/tbus.c:92-112) |
| Tbus.Bus.PeekPart | tbus/include/tbus.h:54 | the loop, on any memory content, returns what peek is specified to (body: tbus/source/tbus.c:114-158) |
| Tbus.Bus.ReadBegin | tbus/include/tbus.h:54 | both parts of the ring, and the fallback to tail on a broken record (body: tbus/source/tbus.c:160-208) |
| Tbus.Bus.ReadEnd | tbus/include/tbus.h:55 | exactly the messages in front of the new head are taken (body: tbus/source/tbus.c:210-213) |
| Tbusapi.OnRecviov | tbusapi/source/tbusapi.c:9-24 | offers messages in order until one is refused, and returns its position |
| Tbusapi.Process | tbusapi/source/tbusapi.c:36-71 | the accepted messages are the oldest visible ones, the refused one and those behind it stay; WOULD_BLOCK exactly when nothing was accepted and head stayed or a message was refused first |
| Tbusapi.VisibleExactly | tbusapi/source/tbusapi.c:36-46 | a turn sees everything pending at its look, up to 65535 messages |
| Tbusapi.RefusedComesNext | tbusapi/source/tbusapi.c:54-60 | a refused message is the first one offered the next time |
| Tbusapi.Send | tbusapi/source/tbusapi.c:73-90 | a message is sent, and is then the last pending one, if and only if it is not empty and fits the space that head and tail leave |
| Tbusapi.Interleave | tbusapi/source/tbusapi.c:36-71 | exactly once, in order: over any interleaving with stale looks, the accepted messages are a prefix of the sent ones and the rest is on the bus |
| TconndOwnership.DropPackageKeepsCore | tconnd/source/tconnd_socket.c:92-97 | giving a package buffer back keeps buffers and holders in bijection |
| TconndOwnership.DeleteKeepsCore | tconnd/source/tconnd_socket.c:67-123 | deleting any live socket, in any status, keeps pools and lists consistent; no buffer is freed twice |
| TconndOwnership.EstablishKeepsCore | tconnd/source/tconnd_socket.c:210-244 | accepting moves a socket off the pending list and keeps the invariant |
| TconndOwnership.UnlinkedTwice | tconnd/source/tconnd_socket.c:221-234 | a failed accept deletes the socket with the same effect as deleting it at once |
| TconndOwnership.CachePackageKeepsCore | tconnd/source/tconnd_socket.c:405-423 | caching a tail gives one more holder one more buffer, at the end of a sorted list |
| TconndOwnership.AdmitKeepsCore | tconnd/source/tconnd_socket.c:45-65 | a new connection goes to the end of the sorted pending list (caller: tconnd/source/tconnd_listen.c:246-251) |
| TconndOwnership.ListenKeepsInv | tconnd/source/tconnd_socket.c:45-65 | tconnd_listen keeps the global invariant on every branch (caller: tconnd/source/tconnd_listen.c:181-273) |
| TconndSteps.SendKeeps | tconnd/source/tconnd_socket.c:180-208 | queueing keeps iov_num within 128 and iov_total_size the sum of the lengths, within SSIZE_MAX |
| TconndSteps.DeliverKeeps | tconnd/source/tconnd_tbus.c:125-165 | one delivery keeps the invariant in the middle of process_input_tbus: the local list holds exactly the writable sockets, each once |
| TconndSteps.FlushAllKeeps | tconnd/source/tconnd_tbus.c:169-179 | after the flush loop no live socket has queued output or is marked writable |
| TconndSteps.ProcessInputKeepsInv | tconnd/source/tconnd_tbus.c:65-184 | the whole call keeps the global invariant; when tbus_read_end runs nothing points into the bus |
| TconndSteps.RecvKeepsInv | tconnd/source/tconnd_socket.c:277-439 | tconnd_socket_recv keeps the global invariant; its alloc never meets an empty pool |
| TconndSteps.ExpireIsFullScan | tconnd/source/tconnd_timer.c:109-130 | the loop that stops at the first unexpired entry deletes exactly the sockets a full scan would |
| TconndSteps.TimerIsExact | tconnd/source/tconnd_timer.c:104-131 | after the timer exactly the overdue pending sockets and overdue holders are gone, all others unchanged |
| TconndSteps.ServeKeepsInv | tconnd/source/tconnd.c:71-83 | receiving on a live socket and reacting to any result (delete, evict a holder, stop reading) keeps the global invariant (driver: tconnd/source/tconnd_epoll.c:110-171) |
| TconndLoop.PassKeepsInvExactly | tconnd/source/tconnd.c:71-83 | a pass over the readable list keeps the global invariant if and only if at no turn the eviction deletes the socket saved as next while there is bus space to serve it (driver: tconnd/source/tconnd_epoll.c:110-171) |
| TconndLoop.LoopKeepsInvExactly | tconnd/source/tconnd.c:71-104 | after a run of the main loop from the start the global invariant holds if and only if no pass did that; otherwise a slot is on the pool's lists twice, whatever came later (driver: tconnd/source/tconnd_epoll.c:110-171) |
| TconndLoop.SparingWalk | tconnd/source/tconnd.c:71-83 | a pass that strikes nobody is a sequence of calls on live sockets, each permitted when its turn comes (driver: tconnd/source/tconnd_epoll.c:110-171) |
| TconndWitness.EvictionBreaksPool | tconnd/source/tconnd_socket.c:92-102 | a run from the start after which the pool's lists no longer partition the slots (driver: tconnd/source/tconnd_epoll.c:110-171) |
| TconndOutput.FlushWrites | tconnd/source/tconnd_socket.c:125-178 | a flush that succeeds writes everything queued, one that fails a prefix of it, and nothing to others |
| TconndOutput.PushPromises | tconnd/source/tconnd_socket.c:246-275 | each command adds to what is written or queued for its socket exactly the body of a send, a close on the way leaves a prefix, and nobody else is written to |
| TconndOutput.BatchedOutput | tconnd/source/tconnd_tbus.c:93-179 | over one call and all writev results, a survivor was written exactly the sends addressed to it in bus order, a deleted socket a prefix, a dead handle nothing |
| TconndOutput.MalformedAbandonsRest | tconnd/source/tconnd_tbus.c:104-118 | a batch with a malformed message asks for exactly what the messages before it ask for |
| TconndOutput.CloseWritesFirst | tconnd/source/tconnd_socket.c:255-268 | a close to an established socket whose write succeeds comes after everything sent before it, and nothing after it is written |
| TconndDownward.AnswersReachClients | tconnd/source/tconnd_tbus.c:93-179 | from the application's answers, encoded by tconnapi and broadcast to any handles: a survivor is written each body once for every time it is named, in order, a deleted connection a prefix |
| TconndDownward.OneAnswerExactly | tconnd/source/tconnd_tbus.c:65-184 | one answer to one connection leaves it alive if and only if it accepts a waiting connection that epoll takes, or sends something to an established one that is written in one go |
| TconndFates.DeliverExactly | tconnd/source/tconnd_socket.c:180-275 | a connection survives a message if and only if the send is neither empty nor too long and is queued at once or after a complete flush, or the accept finds it waiting and epoll takes it |
| TconndFates.FlushOneExactly | tconnd/source/tconnd_socket.c:125-178 | a connection survives the flush if and only if it is established and everything queued is written |
| TconndFates.AdmitsExactly | tconnd/source/tconnd_socket.c:45-65 | a connection is admitted if and only if there is bus space, a slot, a serial number, and accept gave one; a failed accept changes nothing (caller: tconnd/source/tconnd_listen.c:181-273) |
| TconndFates.ListenAnswers | tconnd/source/tconnd.c:71-83 | what tconnd_listen answers in which case, and so whether the pass goes on (body: tconnd/source/tconnd_listen.c:181-273) |
| TconndFates.AdmitsNew | tconnd/source/tconnd_socket.c:27-65 | tconnd_socket_new fails exactly on an empty or exhausted pool, and what it makes is what is admitted |
| TconndFates.BatchSpares | tconnd/source/tconnd_tbus.c:93-179 | a connection that no message of the batch names is left as it was |
| TconndService.EndToEnd | tconnd/source/tconnd_socket.c:277-439 | over every sparing run and for every connection, live or gone: the complete frames received are the packets the application heard followed by the frames lost in a refusal; nothing is lost while the connection lives or when all bodies stay below package_size; what is left of a live stream is what is cached |
| TconndService.RefusalLosesExactly | tconnd/source/tconnd_socket.c:377-433 | after a receive with data, everything complete has been heard if and only if it was not refused or no complete frame was held; a refusal loses exactly the complete frames held |
| TconndDelivery.RunAccounts | tconnd/source/tconnd_socket.c:365-435 | the same account through every step: frames received are frames published and frames lost |
| TconndWitness.RefusalLosesFrame | tconnd/source/tconnd_socket.c:394-413 | a run from the start for either refusal in which a complete frame is received and never heard |
| TconndBus.OverTheBus | tbusapi/source/tbusapi.c:36-71 | the complete frames of a connection are the packets heard from the messages accepted so far, then those still on the bus, then those lost in a refusal |
| TconndBus.ServeApplication | tconnapi/source/tconnapi.c:155-158 | tconnapi_process over every interleaving with a tconnd that sends what its loop published: the callbacks made account for every frame |
| TconndService.ProtocolOrder | tconnd/source/tconnd_socket.c:353-363 | over every sparing run the messages about a connection are a connect, then data of non-zero size, then at most one close marker |
| TconndCallbacks.CallbacksExactly | tconnapi/source/tconnapi.c:85-153 | over every sparing run, the callbacks about a handle, of all three kinds: none if it was never accepted; otherwise one connect, a packet for every complete frame that was not lost in a refusal, in order, and one close if and only if a receive of that connection got zero bytes or failed |
| TconndCallbacks.OnRecvExactly | tconnapi/source/tconnapi.c:85-153 | what any message, malformed or unknown ones included, is reported as, from its bytes |
| TconndStream.RefusalIsExact | tconnd/source/tconnd_socket.c:377-413 | a receive with data ends the connection if and only if the bytes held are refused by the framer |
| TconndStream.AcceptableStreamsFlow | tconnd/source/tconnd_socket.c:377-413 | in reachable states a stream with bodies below package_size is never refused |
| TconndReceive.RetriesExactly | tconnd/source/tconnd_socket.c:315-351 | the three retries, each if and only if its condition on bus space, free buffers and the answer of recv holds; they leave the state as it was |
| TconndReceive.EagainPauses | tconnd/source/tconnd_socket.c:341-351 | EAGAIN takes the socket off the readable list, in place, and changes nothing else: nothing is published, every connection lives on (driver: tconnd/source/tconnd_epoll.c:110-171) |
| TconndReceive.TurnEndsExactly | tconnd/source/tconnd_socket.c:336-413 | a turn that asks recv ends its connection if and only if the peer has closed, recv failed, or the bytes held announce more than package_size or leave a tail of package_size + 1; a close marker goes out exactly in the first two cases |
| TconndReceive.Goes | tconnd/source/tconnd_socket.c:365-435 | otherwise the complete frames of what is held go out in one message, and the tail is kept with a deadline package_ticks_limit ahead |
| TconndReceive.TurnPublishes | tconnd/source/tconnd_socket.c:353-435 | any turn publishes at most one message: the close marker exactly when the connection hangs up, or data that is not empty |
| TconndReceive.TurnSparesOthers | tconnd/source/tconnd_socket.c:277-439 | no other connection is changed by it, nor the bytes it holds |
| TconndTime.TailWaitsExactly | tconnd/source/tconnd_timer.c:121-130 | over any run in which nothing more comes, a tail is held unchanged, and the timer ends its connection if and only if package_ticks_limit ticks have gone by |
| TconndTime.AcceptWaitsExactly | tconnd/source/tconnd_timer.c:109-120 | a connection the server has not accepted yet is ended by the timer if and only if accept_ticks_limit ticks have gone by since it came |
| TconndTime.StaysReadable | tconnd/source/tconnd.c:71-83 | no wake-up is lost: once reported, a socket is on the readable list as long as it lives and no receive on it met EAGAIN (driver: tconnd/source/tconnd_epoll.c:110-171) |
| TconndTime.NotifyAppends | tconnd/source/tconnd.c:71-83 | a report of epoll puts the socket at the end of the readable list and does nothing else (body: tconnd/source/tconnd_epoll.c:60-108) |
| TconndFairness.PassServesAll | tconnd/source/tconnd.c:71-83 | a pass with bus space at every turn gives each socket on the readable list its receive, or deleted it before its turn to free a buffer (driver: tconnd/source/tconnd_epoll.c:110-171) |
| TconndService.LoopKeepsStream | tconnd/source/tconnd.c:71-104 | over every sparing run of the main loop, bytes received on a live connection are bytes published and the cached incomplete tail |
| TconndStream.EmitServes | tconnd/source/tconnd_socket.c:365-435 | taking in the cached bytes, caching the tail and publishing the frames splits exactly what was held, reuses buffers, and touches no other connection's cached bytes |
| TconndStream.ListenJoins | tconnd/source/tconnd_socket.c:27-65 | a new connection gets a handle never issued before, with nothing cached under it, and no other live connection changes (caller: tconnd/source/tconnd_listen.c:181-273) |
| TconndStarvation.BoundedStarvation | tconnd/source/tconnd_timer.c:121-130 | if the pool stays empty until package_ticks_limit ticks from now, the next timer call frees every buffer |
| TconndStarvation.WaitingFreesBuffers | tconnd/source/tconnd_timer.c:121-130 | an empty pool needs nothing but package_ticks_limit ticks and a timer call to have buffers again |
| TconndStarvation.StarvedStepDueBy | tconnd/source/tconnd_socket.c:329-334 | while the pool is empty no step arms or refreshes a deadline |
| TconndStarvation.EvictionMakesRoom | tconnd/source/tconnd_socket.c:329-334 | a receive that finds the pool empty frees a buffer at once, from the holder with the earliest deadline (driver: tconnd/source/tconnd_epoll.c:151-165) |
| TconndStarvation.NextStaysLiveExactly | tconnd/source/tconnd_socket.c:92-102 | the saved next socket is still live after serving the current one if and only if no eviction hit it (driver: tconnd/source/tconnd_epoll.c:110-171) |
| TconndEngine.Engine.Create | tconnd/source/tconnd_mempool.c:15-77 | both pools on their linked lists, arrays and lists represent the start state, which has the global invariant |
| TconndEngine.Engine.DeleteSocket | tconnd/source/tconnd_socket.c:67-123 | on the links: by status, the nodes leave the pending, package and readable lists, buffer and slot go back on the linked pools, and all other lists stay sound; a pending node that a failed accept has already unlinked is unlinked again and changes no ring |
| TconndEngine.Engine.QueueBody | tconnd/source/tconnd_socket.c:180-208 | flush when full, then queue the body; the assertion on the number of queued entries always holds |
| TconndEngine.Engine.ProcessInputTbus | tconnd/source/tconnd_tbus.c:65-184 | the nested loops over the linked local list and the flush loop do what the batch's deliveries in bus order do, and keep the global invariant |
| TconndEngine.Engine.FlushWritable | tconnd/source/tconnd_tbus.c:169-179 | the loop that follows iter->next of a socket it may just have deleted, destructor and both pools included, visits each listed socket once, in order |
| TconndEngine.Engine.ReceiveFrom | tconnd/source/tconnd_socket.c:277-439 | tconnd_socket_recv with its scan loop is the specified receive, with every early return |
| TconndEngine.Engine.ExpireList | tconnd/source/tconnd_timer.c:109-130 | on the links, with the saved next pointer: the loop deletes a prefix of the list, destructor and both pools included, stops at the first socket not yet due, and ends |
| TconndEngine.Engine.ProcessTimer | tconnd/source/tconnd_timer.c:104-131 | after both loops on the links exactly the overdue sockets are gone |
| TconndEngine.Engine.OnTick | tconnd/source/tconnd_timer.c:23-44 | the clock advances by everything read from the timer |
| TconndEngine.Engine.AcceptConnection | tconnd/source/tconnd_socket.c:45-65 | checks in order, then a pending socket and a connect message (caller: tconnd/source/tconnd_listen.c:181-273) |
| TconndEngine.Engine.ServeReadable | tconnd/source/tconnd.c:71-83 | one turn of the receive loop on the links; the socket may be dead when there is no bus space (driver: tconnd/source/tconnd_epoll.c:110-171) |
| TconndPass.ReceivePass | tconnd/source/tconnd.c:71-83 | the loop over the linked readable list with its saved next pointer is the walk of TconndLoop, whichever nodes its turns delete, for every pass that strikes nobody (driver: tconnd/source/tconnd_epoll.c:110-171) |
| StopSchedule.CollectMeans | tools/start-stop-daemon/source/start-stop-daemon.c:760-790 | a list of items is accepted if and only if it has a meaning (at most one forever, not last), and the result is that meaning |
| StopSchedule.ParsedIsWellFormed | tools/start-stop-daemon/source/start-stop-daemon.c:733-792 | every accepted string gives schedule_length items, no forever, and at most one goto, last, to an earlier item that is no goto |
| StopSchedule.ParseSchedule | tools/start-stop-daemon/source/start-stop-daemon.c:733-792 | the loops over the string fill the array with the specified schedule, or end in badusage exactly when there is none |
| StopSchedule.NextItem | tools/start-stop-daemon/source/start-stop-daemon.c:762-772 | cutting at slashes with strchr yields the pieces between slashes one by one |
| StopText.ItemReadsBack | tools/start-stop-daemon/source/start-stop-daemon.c:712-730 | every timeout, forever, and signal, written as a number or by name with or without a hyphen, fits the item buffer and parses to itself |
| StopText.ScheduleReadsBack | tools/start-stop-daemon/source/start-stop-daemon.c:733-792 | every list of two or more items, however its signals are spelled, is accepted if and only if it has a meaning, and parses to that meaning |
| StopText.ParseExactly | tools/start-stop-daemon/source/start-stop-daemon.c:733-792 | for every string: accepted if and only if it is a single timeout or pieces between slashes that stand for items with a meaning, and then as that schedule |
| StopText.NamesInASchedule | tools/start-stop-daemon/source/start-stop-daemon.c:733-792 | TERM/5/KILL/5 is signal 15, wait, signal 9, wait |
| StopText.PieceExactly | tools/start-stop-daemon/source/start-stop-daemon.c:712-730 | a piece is read as an item if and only if it stands for it; what is neither a number, a listed name nor forever is refused |
| StopText.NumberExactly | tools/start-stop-daemon/source/start-stop-daemon.c:543-561 | parse_unsigned accepts exactly blanks, a sign and digits up to INT_MAX, with their value |
| StopText.NamedExactly | tools/start-stop-daemon/source/start-stop-daemon.c:575-588 | the table of signals is the naming of signal(7) |
| StopText.NamesDiffer | tools/start-stop-daemon/source/start-stop-daemon.c:575-588 | no two signals have the same name |
| StopText.TimeoutReadsBack | tools/start-stop-daemon/source/start-stop-daemon.c:747-758 | a single timeout parses to signal, wait, kill, wait |
| StopSchedule.ForeverRepeats | tools/start-stop-daemon/source/start-stop-daemon.c:773-789 | the items behind forever are visited over and over, those before it once |
| StopSchedule.PlaceStep | tools/start-stop-daemon/source/start-stop-daemon.c:1803-1812 | one step of the loop, a goto included, is one step along the unrolled schedule |
| StopSchedule.Execute | tools/start-stop-daemon/source/start-stop-daemon.c:1803-1835 | the executor visits a prefix of the unrolled schedule, stays in bounds, never meets the default case, and returns the specified code |
| StopSchedule.RunIsDetermined | tools/start-stop-daemon/source/start-stop-daemon.c:1803-1835 | the description of a run allows one list of visited items and one exit code |
| StopSchedule.RefusedToDieExactly | tools/start-stop-daemon/source/start-stop-daemon.c:1830-1835 | the result is 2 if and only if the schedule has no goto and every item was visited in vain |
| StopSchedule.ExitCodesExactly | tools/start-stop-daemon/source/start-stop-daemon.c:1753-1830 | 0 if and only if nobody was left at some item and an earlier item had sent a signal; the code for nothing done if and only if none had |
| StopSchedule.Stop | tools/start-stop-daemon/source/start-stop-daemon.c:1766-1835 | from the option string to the exit code: usage errors, one signal without a schedule or in test mode, and otherwise a run of the parsed schedule |
| StopPolling.TmulIsExact | tools/start-stop-daemon/source/start-stop-daemon.c:292-299 | tmul multiplies the total in microseconds exactly and leaves less than a second in tv_usec |
| StopPolling.SubIsExact | tools/start-stop-daemon/source/start-stop-daemon.c:1733-1734 | timersub is exact and normalised, for negative differences too |
| StopPolling.LessIsExact | tools/start-stop-daemon/source/start-stop-daemon.c:1718-1741 | timercmp orders normalised times by their microseconds |
| StopPolling.Interval | tools/start-stop-daemon/source/start-stop-daemon.c:1733-1745 | the pause computed on timeval structs is the specified one in microseconds |
| StopPolling.DoStopTimeout | tools/start-stop-daemon/source/start-stop-daemon.c:1707-1751 | for every clock, the loop polls, pauses and answers as specified |
| StopPolling.PausesAreBounded | tools/start-stop-daemon/source/start-stop-daemon.c:1730-1747 | every pause lies between 20 ms and the larger of 20 ms and the time remaining, even if the clock steps back |
| StopPolling.DutyCycle | tools/start-stop-daemon/source/start-stop-daemon.c:1730-1745 | the i-th pause is min(10, i + 2) times the poll's duration, as far as time remains and up to 20 ms: polling takes at most one part in that plus one of each full round |
| StopPolling.BusyAtMostAThird | tools/start-stop-daemon/source/start-stop-daemon.c:1730-1747 | with a clock that advances by each pause, polling takes at most a third of the time up to the last pause |
| StopPolling.PollingIsBounded | tools/start-stop-daemon/source/start-stop-daemon.c:1707-1751 | with a clock that advances by each pause, at most 50 * timeout + 1 polls, and the loop ends |
| StopPolling.TrueExactlyWhenGone | tools/start-stop-daemon/source/start-stop-daemon.c:1718-1741 | on the clock values: true if and only if a poll begun in time found no process, false if and only if a round began late or still found one when time was up |
| RollingFile.SlotsDiffer | tlog/source/appender/tlog_appender_rolling_file.c:49-55 | files rotated less than a round apart have different backup names |
| RollingFile.RotateKeepsRing | tlog/source/appender/tlog_appender_rolling_file.c:44-56 | a rotation overwrites only the backup that was written one round ago |
| RollingFile.ReadAll | tlog/source/appender/tlog_appender_rolling_file.c:49-55 | the backups read in ring order are the last rotated files, oldest first |
| RollingFile.Appender.Rotate | tlog/source/appender/tlog_appender_rolling_file.c:42-56 | close, rename to the index, advance the index round the ring |
| RollingFile.Appender.Log | tlog/source/appender/tlog_appender_rolling_file.c:25-76 | the message is appended to everything logged; a rotation exactly when it does not fit |
| RollingFile.RetainsSuffix | tlog/source/appender/tlog_appender_rolling_file.c:25-76 | what is on disk is a suffix of everything logged, byte for byte, and all of it if and only if there were at most max_backup_index + 1 rotations |
| RollingFile.FilesAreSmall | tlog/source/appender/tlog_appender_rolling_file.c:42-75 | every file on disk has at most max_file_size + 1 bytes or holds a single message |
| RollingFile.RetainsHalf | tlog/source/appender/tlog_appender_rolling_file.c:42-56 | once messages are gone, what is on disk is at least half of max_backup_index + 1 full files |
| RollingFile.LogAll | tlog/source/appender/tlog_appender_rolling_file.c:25-76 | logging any messages into an empty directory leaves the text of all but the first few, always including the last, and at least half the capacity once any are gone |

## Left out

- The big-endian build (`TSF4G_BIGENDIAN`), which swaps frame headers in place.
- EINTR: the retry loops around `recv`, `writev` and `accept` are folded into one answer, the first that is not EINTR; an interrupted `epoll_wait` is no step at all.
- The wrap of the 64-bit tick counter and of `size_t` sums of file and message sizes.
- Memory ordering: the bus is modelled with atomic, sequentially consistent loads and stores of the two offsets.
- Padding bytes of the SIP structs: they hold whatever the caller gives (`Filler`).
- The passes of `TconndPass` are over client sockets; the listener is a turn of `TconndLoop.Walk` at any place, and its node is not on the linked readable list. Passes that strike the saved next socket are followed on values only, since their links are undefined afterwards.
- `TLIBC_CONTAINER_OF`: a list node carries the index of its record instead of being found by pointer arithmetic.
- The destruction of the listening socket at shutdown, and its own readable flag: it takes its turn in a pass whenever the pass has it.
- Errors of `close`, `ioctl` and logging, and the descriptors themselves.
- The encoder and the callbacks of applications are parameters: the bytes produced, the number of messages accepted.
- `RollingFile` starts in an empty directory with file operations that succeed and names that are not truncated; after a restart the code begins with index 0 again, and its ring order no longer tells the age of the backups.
- `do_stop` and process lookup: only whether a process was found; `select` may be cut short, so its length is not relied on.
- `StopSchedule` folds the summary output away, and `long` out of range is out of range for `int` too.
- `tsocketapi`, `tapp`, option and XML parsing, `tbusmgr`, `tlogd`, the timing wheel and the other appenders: plumbing and I/O with easier properties.
- A walk over the readable list may end after any turn, which is more than the code does; `recv` on the closed descriptor of a deleted socket fails (`TconndLoop.Possible`), so a descriptor number reused in between is not modelled.
- TconndStream.AcceptableStreamsFlow: assumes bus space and a package buffer, without which the receive is retried and changes nothing.
