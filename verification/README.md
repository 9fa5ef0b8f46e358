# Packet engine: models and proofs

The repository is a user-space packet engine on AF_XDP: it takes frames from the network
card, reassembles TCP streams and IPv4 fragments, looks at TLS ClientHello messages, limits
packet rates and sends answers in recycled frames. This project models the parts of it that
are hard to get right and proves what they keep over every input and every run.

| files | part |
|---|---|
| `Words`, `CyclicBitmap` | 64-bit words and the 65536-bit receive bitmap, word by word |
| `TcpSeq`, `TcpSession`, `TcpStreamSession` | sequence arithmetic; one TCP session as a function of its state, and as the object that refines it |
| `TcpOutcome` | what one packet does and what is reported for it, in flags, stream offsets and buffered bytes |
| `TcpStream`, `TcpCount`, `TcpBuffered` | what a session hands over in a whole run; the out-of-order counter; contradictory segments |
| `TcpExact`, `TcpComplete` | where the stream property ends; when everything accepted is accounted for and handed over |
| `HashTable`, `HashMap`, `Expiry`, `TcpEngine`, `TcpTraffic` | the open-addressing map, the session table with expiry built on it, and the packets of many connections |
| `Mpmc` | the ticket queue as an interleaved step system |
| `Umem`, `FallbackRing`, `RxWorker` | who owns which packet frame, and the worker's loops over the rings |
| `Fragments`, `FragmentPieces`, `ReassemblySession`, `UdpEngine`, `UdpTraffic` | IPv4 fragment reassembly (section 3.2 of RFC 791), which fragments are taken and what each changes, its object, its session table, and the fragments of a datagram through it |
| `Checksum` | the Internet checksum (RFC 1071, section 3.1 of RFC 791) |
| `RateLimiter`, `TokenRuns`, `WindowRuns` | the two packet limiters and their bounds over runs |
| `ClientHello` | the ClientHello parser (section 4.1.2 of RFC 8446, section 3 of RFC 6066) |
| `Runs`, `Common` | induction over runs and traces; fixed-width integers |

Code that updates state step by step is modelled as classes and methods with loops, proved
equal to a value-level function (`SessionStep`, `AddFragment`, `Umem.Next`, `BucketStep`,
`Parse`, ...). The theorems about runs are about those functions. What the functions
themselves decide is stated once more in terms of their inputs, with the numbers written
out: `TcpOutcome` for the packet path, `ExpiredExactly` for the timeouts, `RefusedExactly`
and `FragmentEffect` for fragments, `Moves` and `MovesCompleted` for the frames, `KindExact`
and `ParseExact` for the parser, `GrantsExactly` and `SinceResetExactly` for the limiters.

Six expected properties are false of the code. Each has a counterexample that is a run from
a new session or from first sight, and the exact condition under which the code does have
the property:

- The bytes handed over are a prefix of the stream, in every run over every stream of a given
  length, exactly when the stream has at most 65536 bytes (`StreamExact`, whatever the segment
  size). Past one window a stale bitmap position can be handed over again: after a wrap of the
  16-bit counter (`WrappedCounter`), or, from 65538 bytes on, after a segment that stops short
  of a buffered byte (`StaleBytes`). Longer streams do come out right in runs whose in-order
  packets pass over no filled position (`LongStream`), so in particular when no byte is sent
  twice (`DisjointStream`), or when each gap filler reaches the next buffered run
  (`ReachingStream`). For the counter's bound on the buffered runs the last condition is also
  necessary when the counter is tight (`ReachIsNeeded`).
- The bytes handed over and the bitmap account for exactly the accepted bytes, in every state
  of a run, exactly when no in-order packet that meets a zero counter passes over a filled
  position (`AccountExact`). If it also never ends right before one, the bytes handed over are
  the longest prefix covered by accepted segments (`DeliversAll`); otherwise a received byte
  can stay behind (`LeftBehind`).
- A session can be closed although all its segments agree (`HonestSessionCloses`), because
  the comparison also looks at bytes that were never received. `HonestConflict` says exactly
  when: the segment overlaps a filled position, and one of its first 1500 bytes differs from a
  left-over byte at an unfilled position.
- Buffered bytes survive arbitrary packets of at most n bytes exactly when n is at most 1500
  (`KeepsExactly`), since no more are compared.
- The token bucket keeps its rate on all runs exactly when the clock is not 0 at first sight
  or nothing is allowed, because 0 also means "not set up" (`TokenBoundExact`).
- The window limiter keeps two limits per window on all runs exactly under the condition of
  `WindowBoundExact`: it fails if the clock reads 0 at first sight, or if the window in
  nanoseconds wraps 64 bits and three wrapped windows fit before the clock ends.

Three more counterexamples mark the limits of other theorems: the ticket queue lets two
threads into one slot when 2^31 laps of writes are pending (`CrowdCollides`), fragments that
are not cut from one datagram can complete a session whose first bytes never arrived
(`BeyondTheEnd`), and the host name of a message can be taken from behind its extension
(`NameOutside`; `NameInside` says exactly when it is not).

Where comments and code differ, the model follows the code: `is_range_set` means "some bit
is set", the byte comparison covers at most 1500 bytes and includes bytes that were never
received, and `find` gives up after 64 probes while insertion and removal probe the whole
table.

## Model

| member | source | states |
|---|---|---|
| `Words.RangeMaskBit` | src/main/transport/tcp_assembler.h:464-465 | the mask `((1 << n) - 1) << offset`, with all ones for n = 64, has exactly the bits offset .. offset + n |
| `Words.CountTrailingZeros` | src/main/transport/tcp_assembler.h:504-539 | returns the position of the lowest set bit |
| `CyclicBitmap.SetRange` | src/main/transport/tcp_assembler.h:454-469 | for every start and count the filled positions become their union with the cyclic range, nothing else changes |
| `CyclicBitmap.ClearRange` | src/main/transport/tcp_assembler.h:471-483 | exactly the positions of the cyclic range are removed |
| `CyclicBitmap.IsRangeSet` | src/main/transport/tcp_assembler.h:485-501 | true exactly when some position of the range is filled; false without a bitmap |
| `CyclicBitmap.CountContinuous` | src/main/transport/tcp_assembler.h:504-539 | the result is the length of the maximal filled run from the start, capped by the bound |
| `CyclicBitmap.OnesFrom` | src/main/transport/tcp_assembler.h:504-539 | trailing zeros of the shifted complement give the run of ones inside one word |
| `TcpSeq.WindowTest` | src/main/transport/tcp_assembler.h:742-744 | the wrapping test passes exactly when the segment ends 0 to 65536 bytes ahead of the next expected byte |
| `TcpSeq.Classification` | src/main/transport/tcp_assembler.h:748-760 | a passing segment is exactly one of old, overlapping or ahead, and the wrapped comparisons agree with the stream offsets (section 3.4 of RFC 9293) |
| `TcpSeq.Nearest` | src/main/transport/tcp_assembler.h:736-744 | every pair of 32-bit numbers has offsets for which the test is that statement, so the two lemmas cover all inputs |
| `TcpSeq.TrimIsShorter` | src/main/transport/tcp_assembler.h:755-760 | trimming removes a positive part shorter than the segment and leaves a non-empty range in the window |
| `TcpSeq.AheadIsInside` | src/main/transport/tcp_assembler.h:764-770 | an untrimmed segment starts at or after the next expected byte and lies inside the window |
| `TcpSession.DataPlaced` | src/main/transport/tcp_assembler.h:735-760 | every data segment is dropped unchanged, acknowledged unchanged, or placed as a non-empty suffix inside the window |
| `TcpSession.RunIsRun` | src/main/transport/tcp_assembler.h:810-826 | the number of drained bytes is the maximal run of buffered positions |
| `TcpStreamSessions.ReadRing` | src/main/transport/tcp_assembler.h:441-451 | the two copies around the end of the ring read the cyclic range |
| `TcpStreamSessions.WriteRing` | src/main/transport/tcp_assembler.h:426-438 | exactly the cyclic range is overwritten, in order |
| `TcpStreamSessions.TcpStreamSession.InitBuffers` | src/main/transport/tcp_assembler.h:328-347 | buffers are allocated once, empty; without memory the session is unchanged |
| `TcpStreamSessions.TcpStreamSession.FindsConflict` | src/main/transport/tcp_assembler.h:773-785 | decides the conflict test of the specification: some bit set and different bytes among the first 1500 |
| `TcpStreamSessions.TcpStreamSession.DrainRun` | src/main/transport/tcp_assembler.h:808-826 | the object drains as the specification does: bytes, bitmap, sequence number and counter |
| `TcpStreamSessions.TcpStreamSession.PlaceSegment` | src/main/transport/tcp_assembler.h:762-828 | fast path, buffering and gap filling leave the object in the specified state with the specified verdict |
| `TcpStreamSessions.TcpStreamSession.ReceiveSegment` | src/main/transport/tcp_assembler.h:735-830 | the whole data path of the object equals the specification |
| `TcpStreamSessions.TcpStreamSession.ReceivePacket` | src/main/transport/tcp_assembler.h:697-846 | a packet takes the object to the state of `SessionStep`, with its report and whether the session is removed |
| `TcpOutcome.DataOutcome` | src/main/transport/tcp_assembler.h:735-830 | which segments are ignored, acknowledged again, contradict the buffer, hand over bytes or wait, as an if-and-only-if on offsets and buffered bytes, with the new sequence number and counter |
| `TcpOutcome.HalfOpen` | src/main/transport/tcp_assembler.h:682-728 | a new session expects the number after the SYN, has nothing buffered, and lets no data in before an ACK |
| `TcpOutcome.ReportOutcome` | src/main/transport/tcp_assembler.h:697-846 | for every session and packet: data is announced exactly when bytes are handed over, and they start with the new bytes of the segment; an acknowledgement is asked for exactly when a data segment ends at the expected offset; SYN is reported unless RST is set; closed is reported exactly for RST, a contradiction or a FIN that counts |
| `TcpOutcome.RemovalOutcome` | src/main/transport/tcp_assembler.h:697-842 | the session is removed exactly by RST, by a segment that contradicts a buffered byte, or by a FIN with nothing handed over; a packet that does not count leaves it as it was |
| `TcpOutcome.SessionOutcome` | src/main/transport/tcp_assembler.h:718-842 | otherwise the expected offset moves by the bytes handed over, and one further for FIN, which leaves the session closing; any other packet that counts leaves it established, and the counter of waiting segments moves as the outcome says |
| `TcpStream.DrainExtends` | src/main/transport/tcp_assembler.h:808-826 | what a drain hands over is the next piece of the stream, also when bits of older laps are still set in a stream of one window |
| `TcpStream.DataExtends` | src/main/transport/tcp_assembler.h:735-830 | a segment cut from the stream hands over nothing or the stream from the expected byte on, and a session that it does not close stays in step |
| `TcpStream.ConflictIsLeftOver` | src/main/transport/tcp_assembler.h:773-785 | a segment of the stream meets a conflict exactly when it overlaps a filled position and one of its first 1500 bytes differs from a left-over byte |
| `TcpStream.HonestConflict` | src/main/transport/tcp_assembler.h:742-805 | of all segments of the stream, exactly those close the session: placed beside the fast path, overlapping, and different from a left-over byte |
| `TcpStream.StepFollows` | src/main/transport/tcp_assembler.h:613-846 | every packet, with any flags, keeps the session in step with the stream |
| `TcpStream.ShortStream` | src/main/transport/tcp_assembler.h:735-828 | for streams of at most 65536 bytes and every order, repetition and overlap of segments, the bytes handed over are the prefix of the stream that ends at `rcv_nxt` |
| `TcpStream.LongStream` | src/main/transport/tcp_assembler.h:735-828 | the same for any length along runs whose in-order packets pass over no filled position; past 2^32 - 65536 bytes no segment may be so old that its sequence number is taken for a later one |
| `TcpCount.CountedIsHonest` | src/main/transport/tcp_assembler.h:764-768 | a counter that bounds the buffered runs is zero only for an empty bitmap |
| `TcpCount.StoredRuns` | src/main/transport/tcp_assembler.h:786-788 | storing a range adds at most one maximal run |
| `TcpCount.DrainedRuns` | src/main/transport/tcp_assembler.h:808-826 | a drain that reaches a buffered run removes at least one run |
| `TcpCount.CountRun` | src/main/transport/tcp_assembler.h:764-828 | in every run whose gap fillers reach the next buffered run and whose 16-bit counter has room, the counter bounds the buffered runs in every state |
| `TcpCount.ReachingStream` | src/main/transport/tcp_assembler.h:735-828 | in every such run a stream of any length comes out as its prefix, with the same freshness of segments past 2^32 - 65536 bytes |
| `TcpCount.ReachIsNeeded` | src/main/transport/tcp_assembler.h:823-825 | with a tight counter, a gap filler keeps the counter a bound on the buffered runs exactly when it reaches the next one |
| `TcpBuffered.StepKeeps` | src/main/transport/tcp_assembler.h:770-828 | one packet of at most 1500 arbitrary bytes leaves every buffered byte, or hands it over, or removes the session |
| `TcpBuffered.ByteFate` | src/main/transport/tcp_assembler.h:770-828 | over every run of such packets a buffered byte keeps its value until it is handed over or the session is removed |
| `TcpBuffered.StoreChanges` | src/main/transport/tcp_assembler.h:773-788 | a store that was not refused changes a filled byte exactly when a different byte falls on it at index 1500 or later |
| `TcpBuffered.LongSegmentOverwrites` | src/main/transport/tcp_assembler.h:774-777 | from a new session, a one-byte packet and then a 1501-byte packet that overwrites the buffered byte |
| `TcpBuffered.KeepsExactly` | src/main/transport/tcp_assembler.h:770-828 | packets of at most n bytes keep or hand over every filled byte of every session they lead to, exactly when n is at most 1500 |
| `TcpExact.WrappedCounter` | src/main/transport/tcp_assembler.h:764-828 | for every length over 65536 a stream and a run of one-byte segments that hands over a wrong byte |
| `TcpExact.StaleBytes` | src/main/transport/tcp_assembler.h:764-828 | for every length over 65537 such a run in which no two segments start at the same offset and there are too few to wrap the counter, for every greatest segment size from 2 bytes on |
| `TcpExact.StreamExact` | src/main/transport/tcp_assembler.h:735-828 | all runs over all streams of a length hand over a prefix exactly when the length is at most 65536, for every greatest segment size |
| `TcpExact.HonestSessionCloses` | src/main/transport/tcp_assembler.h:773-785 | two segments of one stream, without FIN or RST, that close their session |
| `TcpComplete.DrainExact` | src/main/transport/tcp_assembler.h:793-826 | filling the gap and draining keep the bitmap exactly the accepted bytes beyond the new expected one, around the ring, and leave that one missing |
| `TcpComplete.FastExact` | src/main/transport/tcp_assembler.h:764-768 | the fast path keeps that account exactly when it passes over no filled position (strictly: does not end at one either) |
| `TcpComplete.AccountExact` | src/main/transport/tcp_assembler.h:735-828 | in every run of honest segments, the account is right in every state exactly when every packet that the fast path takes passes over no filled position; the same for the strict account, where the next expected byte is missing |
| `TcpComplete.DeliversAll` | src/main/transport/tcp_assembler.h:735-828 | in runs of such packets, whatever the counter and the gap fillers, the bytes handed over are exactly the longest prefix covered by the accepted segments |
| `TcpComplete.DisjointStream` | src/main/transport/tcp_assembler.h:735-828 | segments that do not overlap come out as a prefix of their stream in any order, for streams of up to 2^32 - 65536 bytes |
| `TcpComplete.LeftBehind` | src/main/transport/tcp_assembler.h:764-768 | three one-byte segments of a three-byte stream, all accepted, of which one is never handed over |
| `HashTable.NotFound` | aethon/single_thread_hasmap.h:159-183 | a probe that meets an empty cell or has seen all cells proves the key absent |
| `HashTable.InsertKeeps` | aethon/single_thread_hasmap.h:120-149 | writing a new key at the first empty cell keeps keys distinct, paths without holes and agreement with the map |
| `HashTable.CanShiftIsOnPath` | aethon/single_thread_hasmap.h:225-230 | the wrap-around test of the shift holds exactly when the hole is on the key's probe path |
| `HashTable.MoveIntoHole` | aethon/single_thread_hasmap.h:231-237 | a move keeps the shift invariant and lowers the total displacement |
| `HashTable.CloseHole` | aethon/single_thread_hasmap.h:214-240 | when the scan stops, every probe path is whole again with the hole left empty |
| `HashMap.SingleThreadHashMap.Probe` | aethon/single_thread_hasmap.h:120-183 | all passed cells hold other keys; the cell returned is empty or holds the key |
| `HashMap.SingleThreadHashMap.Emplace` | aethon/single_thread_hasmap.h:120-149 | the map gets the binding unless the table is full of other keys; true exactly for a new key with room |
| `HashMap.SingleThreadHashMap.Find` | aethon/single_thread_hasmap.h:159-183 | returns the mapped value exactly for keys fewer than 64 cells from home, and nothing for all others |
| `HashMap.SingleThreadHashMap.ShiftBack` | aethon/single_thread_hasmap.h:214-240 | ends on every table, full ones included, by total displacement and then distance; the table agrees with the map without the key |
| `HashMap.SingleThreadHashMap.Erase` | aethon/single_thread_hasmap.h:193-248 | removes exactly the key and keeps distinct keys and whole probe paths |
| `TcpEngine.TcpAssemblerEngine.PurgeExpired` | src/main/transport/tcp_assembler.h:577-596 | a pass over the shifting table keeps every session last seen at most 3 s (half-open) or 30 s (otherwise) ago under its key, deletes only older ones, each once, and makes progress if there is any |
| `TcpEngine.TcpAssemblerEngine.CleanUp` | src/main/transport/tcp_assembler.h:632-635 | the purge happens when more than a second has passed; only expired sessions go and are freed, and every other one stays |
| `TcpEngine.TcpAssemblerEngine.ExpiredExactly` | src/main/transport/tcp_assembler.h:585-588 | a session is expired exactly when more than 3 s (half-open) or 30 s (otherwise) have passed since its last packet, and what that means when the clock reads earlier than the last packet |
| `TcpEngine.TcpAssemblerEngine.OpenSession` | src/main/transport/tcp_assembler.h:664-694 | a SYN opens a new session, last seen now, if table and memory have room; every session of the table stays there or is freed exactly when no unreachable session of the same key is replaced |
| `TcpEngine.TcpAssemblerEngine.Receive` | src/main/transport/tcp_assembler.h:697-846 | one session takes its step and is last seen now; no other session and no buffer of another session changes |
| `TcpEngine.TcpAssemblerEngine.HandlePacket` | src/main/transport/tcp_assembler.h:650-846 | refused, dispatched by the 64-probe search, opened or ignored, with the new table, the freed sessions and the last-seen time in each case; sessions of other keys are untouched |
| `TcpTraffic.KeysDoNotMix` | src/main/transport/tcp_assembler.h:650-846 | through any packets and purges of other keys, what is reported for a key is what a session of its own reports for the key's packets |
| `TcpTraffic.ConnectionStream` | src/main/transport/tcp_assembler.h:650-846 | so every connection of at most 65536 bytes gets a prefix of its stream, whatever the others send |
| `TcpEngine.TcpAssemblerEngine.CloseSession` | src/main/transport/tcp_assembler.h:598-609 | removes and frees the session if the search finds it, and changes nothing otherwise |
| `Expiry.NoneExpired` | src/main/transport/tcp_assembler.h:577-596 | a pass that met no expired key in any cell leaves none in the table |
| `Mpmc.TicketWidth` | aethon/mpmc_queue.h:39-53 | 64-bit tickets give the slots and 32-bit turns of unbounded tickets for every power-of-two capacity of 32 bits |
| `Mpmc.Exclusive` | aethon/mpmc_queue.h:39-53 | two operations past their turn test are never in the same slot |
| `Mpmc.ManyPending` | aethon/mpmc_queue.h:39-53 | tickets of a slot that were drawn and whose turns have not passed are all under way, one thread each |
| `Mpmc.StalledSlot` | aethon/mpmc_queue.h:39-100 | in a queue of two slots or more, a ticket d laps ahead of its slot means 2d - 1 operations under way |
| `Mpmc.TurnTestIsExact` | aethon/mpmc_queue.h:39-53 | with at most 2^32 - 2 operations under way (2^31 for one slot, which the constructor refuses) the 32-bit turn comparison is the unbounded one |
| `Mpmc.StepInv` | aethon/mpmc_queue.h:39-100 | every step of every thread keeps the invariant that ties tickets, turns, contents and history together |
| `Mpmc.QueueSafety` | aethon/mpmc_queue.h:39-100 | in every state of every interleaving with at most so many operations under way, at most one thread is inside a slot, and every finished read has the value written under its ticket |
| `Mpmc.ReadOnce` | aethon/mpmc_queue.h:82-100 | in every such state a finishing read is the first of its ticket and gets the value of the writer with that ticket |
| `Mpmc.Progress` | aethon/mpmc_queue.h:82-100 | in every such state, if some pending read's write ticket has been issued, some pending operation can take its next step |
| `Mpmc.BlockedWriter` | aethon/mpmc_queue.h:39-53 | in every such state a writer waits only while the read one lap earlier on its slot is unfinished |
| `Mpmc.CrowdCollides` | aethon/mpmc_queue.h:39-53 | an interleaving from the empty queue, with 2^31 laps of writes pending, that ends with two writers in the same slot |
| `Umem.CompletionNeverFails` | src/main/afxdp_control.cpp:77-114 | the fill ring has room for every completed receive frame |
| `Umem.FallbackNeverFails` | src/main/afxdp_control.cpp:360-368 | the fallback ring has room for every received packet, and the fill ring for the whole fallback ring |
| `Umem.StepInv` | src/main/afxdp_control.cpp:161-390 | every step of worker and kernel keeps each frame in exactly one place, receive frames out of the pool and pool frames out of the fill ring |
| `Umem.StartInv` | src/af_xdp_header.h:399-414 | the initial fill ring and pool split the frames of the default configuration |
| `Umem.Conservation` | src/main/afxdp_control.cpp:161-390 | so in every state of every run, and no frame is lost |
| `Umem.Moves` | src/main/afxdp_control.cpp:161-390 | for every step but a completion, which address leaves which list and enters which other one, and that nothing else moves |
| `Umem.MovesCompleted` | src/main/afxdp_control.cpp:77-114 | each completed address goes to the pool if it is 4194304 or more and to the fill ring otherwise, none is lost, and nothing else moves |
| `FallbackRings.FallbackRing.Push` | src/af_xdp_header.h:82-109 | appends if the ring is not full and refuses otherwise |
| `FallbackRings.FallbackRing.Advance` | src/af_xdp_header.h:82-109 | drops the oldest addresses |
| `RxWorkers.RxWorker.FreeCompletionRing` | src/main/afxdp_control.cpp:77-114 | pool frames go to the pool, receive frames all go to the fill ring, in order, as one step of the system; the other rings stay |
| `RxWorkers.RxWorker.FinishPacket` | src/main/afxdp_control.cpp:313-368 | an answered packet's address goes to the end of the TX ring if that has fewer than 2048 entries, any other to the end of the fallback ring; it leaves the batch, and no other list changes |
| `RxWorkers.RxWorker.FlushFallback` | src/main/afxdp_control.cpp:378-390 | the whole fallback ring is moved to the fill ring in order |
| `RxWorkers.RxWorker.SendSegmented` | src/main/transport/tcp_pipeline.h:51-99 | sends as many frames as there are segments of 1460 bytes, frames in the pool and slots on the TX ring, the last frames of the pool first; a frame that finds no slot is still in the pool; success and the next sequence number follow from the number of frames |
| `RxWorkers.SendAllFrames` | src/main/transport/tcp_pipeline.h:51-99 | the recursion over segments in closed form: which frames move, how many, and how many bytes they carry |
| `Fragments.BlocksKeep` | src/main/transport/udp_assembler.h:184-206 | copying the blocks of a fragment keeps every written block right and counts each byte once |
| `Fragments.CompleteIsCovered` | src/main/transport/udp_assembler.h:103-105 | complete exactly when every byte is covered, and then the buffer is the datagram |
| `Fragments.Reassembly` | src/main/transport/udp_assembler.h:154-209 | for any order, repetition and aligned overlap of fragments cut from one datagram of 8 bytes or more: all are taken exactly when there are at most 64, and then the session is complete exactly when every byte is covered, with the datagram in the buffer |
| `Fragments.TooMany` | src/main/transport/udp_assembler.h:167-170 | more than 64 fragments of a datagram are refused |
| `Fragments.BeyondTheEnd` | src/main/transport/udp_assembler.h:205-205 | two fragments, not of one datagram, that complete a session without its first bytes |
| `Fragments.CompleteWithin` | src/main/transport/udp_assembler.h:103-105 | for accepted fragments of any origin, none of which ends past the expected length, every byte of a complete session is a byte that some fragment has at that offset |
| `FragmentPieces.RefusedExactly` | src/main/transport/udp_assembler.h:129-170 | a fragment is refused exactly for being empty, a misaligned offset, a misaligned length before the end, less than a UDP header at offset 0, an end past 65535 or being the 65th |
| `FragmentPieces.TakenExactly` | src/main/transport/udp_assembler.h:129-170 | the fragments that can be taken are exactly those that can be cut from some datagram of 8 to 65535 bytes |
| `FragmentPieces.FragmentEffect` | src/main/transport/udp_assembler.h:154-209 | a taken fragment byte by byte: the first copy of a block stays, every other byte is written at its offset and counted once, and the count, the written blocks and the expected length are updated |
| `FragmentPieces.PiecesComplete` | src/main/transport/udp_assembler.h:154-209 | a datagram of 8 to 65535 bytes cut every m bytes, m a multiple of 8, comes out of its pieces in any order and with repetitions, as long as at most 64 fragments arrive |
| `FragmentPieces.AnyOrder` | src/main/transport/udp_assembler.h:154-209 | each piece once, in any order, completes the session with the datagram whenever there are at most 64 pieces |
| `ReassemblySessions.ReassemblySession.Add` | src/main/transport/udp_assembler.h:129-209 | the object, with its word bitmap, takes or refuses a fragment as `AddFragment` does, and a known total always leaves room for the UDP header |
| `ReassemblySessions.ReassemblySession.IsBlockWritten` | src/main/transport/udp_assembler.h:107-116 | the masked word is non-zero exactly when the block is written |
| `ReassemblySessions.ReassemblySession.MarkBlockWritten` | src/main/transport/udp_assembler.h:118-124 | adds exactly one block |
| `ReassemblySessions.ReassemblySession.Result` | src/main/transport/udp_assembler.h:302-316 | a result exactly when complete; ports re-encode to the first four bytes; the payload is what follows the 8-byte header, and its length never underflows |
| `UdpEngine.UdpAssemblerEngine.PurgeExpired` | src/main/transport/udp_assembler.h:248-262 | a pass over the shifting table keeps every session opened at most 10 s ago under its key, deletes only older ones, each once, and makes progress if there is any |
| `UdpEngine.UdpAssemblerEngine.ExpiredExactly` | src/main/transport/udp_assembler.h:249-255 | a session is expired exactly when more than 10 s have passed since it was opened, and what that means when the clock reads earlier |
| `UdpEngine.UdpAssemblerEngine.CleanUp` | src/main/transport/udp_assembler.h:277-280 | the purge happens when more than a second has passed since the last one; only expired sessions go |
| `UdpEngine.UdpAssemblerEngine.AddTo` | src/main/transport/udp_assembler.h:302-316 | one session takes the fragment; no other session and no buffer of another session changes |
| `UdpEngine.UdpAssemblerEngine.Settle` | src/main/transport/udp_assembler.h:302-318 | a session that refuses the fragment or is complete leaves the table once; otherwise it stays with the fragment added |
| `UdpEngine.UdpAssemblerEngine.HandleFragment` | src/main/transport/udp_assembler.h:282-319 | the fragment goes to the session that the 64-probe search finds or to an empty new one, created now, or is dropped without room, with the new table and the sessions gone in each case; no part of another key's session can change |
| `UdpTraffic.HandedOver` | src/main/transport/udp_assembler.h:282-319 | for any order, repetition and aligned overlap of at most 64 fragments of one datagram, nothing is handed over and the session stays while a byte is missing; the fragment with the last missing byte hands over the ports and the payload, and the session is gone |
| `Checksum.WordCongruent` | src/main/transport/ip_address.h:71-94 | a little-endian 32-bit load is 256 times the big-endian 16-bit words modulo 65535 |
| `Checksum.FourFoldsMod` | src/main/transport/ip_address.h:96-100 | four folds leave a 16-bit number of the same residue, zero only for zero |
| `Checksum.IsValidIpv4Checksum` | src/main/transport/ip_address.h:63-103 | accepts a header of 5 to 15 words exactly when the RFC 1071 big-endian one's-complement sum is 0xFFFF |
| `Checksum.ComputeChecksum` | src/main/net/packet_injector.h:26-45 | the complement of the RFC 1071 sum for packets up to 131074 bytes, and of the sum modulo 2^32 for all |
| `Checksum.WrappedSum` | src/main/net/packet_injector.h:27-34 | the 32-bit sum gives the right checksum exactly when the true sum fits in 32 bits |
| `Checksum.FillChecksum` | src/main/net/packet_injector.h:129-130 | every header filled in by the builder passes the receiver's validity condition, and only the check field changes |
| `RateLimiter.Limiter.TokenBucket` | src/main/ebpf/xdp_kern_prog.c:110-153 | the state and verdict of `BucketStep`, in wrapping 64-bit arithmetic; the other limiter's state stays; the 8th drop lists the address |
| `RateLimiter.Limiter.SlidingWindow` | src/main/ebpf/xdp_kern_prog.c:155-193 | the state and verdict of `WindowStep`; the other limiter's state stays; the 8th drop lists the address |
| `TokenRuns.Paid` | src/main/ebpf/xdp_kern_prog.c:129-151 | admitted packets and tokens left never exceed the burst and the tokens earned since first sight, even when the products wrap |
| `TokenRuns.TokenBound` | src/main/ebpf/xdp_kern_prog.c:110-153 | at most burst + floor((t - t0) * 50000 / 10^9) packets are admitted up to time t, in every run with a monotone clock |
| `TokenRuns.TokenBoundExact` | src/main/ebpf/xdp_kern_prog.c:123-128 | the bound holds on all runs from t0 exactly when t0 > 0 or the burst is 0 |
| `TokenRuns.TokenAccount` | src/main/ebpf/xdp_kern_prog.c:136-151 | every packet is either admitted or counted as dropped |
| `TokenRuns.GrantsExactly` | src/main/ebpf/xdp_kern_prog.c:129-151 | a packet is admitted exactly when the tokens left and those earned since the last refill, up to the burst, are at least one; it takes one, and a part of a token stays earned |
| `TokenRuns.SteadySender` | src/main/ebpf/xdp_kern_prog.c:110-153 | a sender whose packets are at least 20 microseconds apart (and less than about 4 days, where the product wraps) loses none |
| `WindowRuns.BetweenResets` | src/main/ebpf/xdp_kern_prog.c:170-191 | at most `limit` packets are admitted between consecutive resets |
| `WindowRuns.SinceResetExactly` | src/main/ebpf/xdp_kern_prog.c:170-191 | since a reset exactly the first `limit` packets are admitted, and each of the others is counted as a drop |
| `WindowRuns.WindowCount` | src/main/ebpf/xdp_kern_prog.c:155-193 | at most 2 * limit packets are admitted in any half-open interval as long as the computed window |
| `WindowRuns.WindowBoundExact` | src/main/ebpf/xdp_kern_prog.c:170-177 | at most 2 * limit packets in every interval of `window` seconds on all runs from t0, exactly under a condition on t0, limit and window |
| `ClientHello.FindName` | src/main/tls/tls_parser.h:176-209 | the extension loop ends on all bytes and computes `Scan` |
| `ClientHello.ParseClientHello` | src/main/tls/tls_parser.h:113-213 | every read and the returned name stay within the given bytes, whatever they are, and the result is that of `Parse` |
| `ClientHello.KindExact` | src/main/tls/tls_parser.h:115-144 | on all bytes: TLS exactly for records of type 0x16 and 0x17, a ClientHello exactly for a whole handshake record of version 0x0300 to 0x0304 with message type 1, and no name for anything else |
| `ClientHello.ScanExact` | src/main/tls/tls_parser.h:176-209 | on all bytes, a name is returned exactly when it is the host name of the first server_name extension reached over whole extensions |
| `ClientHello.ParseExact` | src/main/tls/tls_parser.h:113-213 | on all bytes, the parser returns exactly the host name of the first server_name extension of a ClientHello, where the message and its extensions are described by bytes and lengths |
| `ClientHello.NameInside` | src/main/tls/tls_parser.h:198-204 | the name that the parser returns lies inside its own extension exactly when its length leaves room for the 5 bytes before it, which the parser does not compare |
| `ClientHello.NameOutside` | src/main/tls/tls_parser.h:198-204 | a whole message, with any fields, whose returned name lies entirely behind its extension |
| `ClientHello.RoundTrip` | src/main/tls/tls_parser.h:113-213 | for every well-formed ClientHello, followed by any bytes, the parser returns the host name of its server_name extension, or an empty name without one |

## Left out

- AF_XDP, BPF map and socket setup, CPU pinning, statistics and signal handling: calls into foreign code.
- OpenSSL contexts, the TLS engine, Hyperscan scanning, the backend protocol and DPI verdicts: the model only keeps whether a packet's frame was answered or recycled, as an arbitrary choice.
- `LockFreeHashMap`, the SPSC queue, `SmallVector`, `Function`, rule parsing and `DomainBlocklist`.
- Sleeping in `blockingWrite` and `blockingRead`, memory orderings and prefetch hints: the queue is modelled with spinning operations under sequential consistency.
- `release_completed` of the UDP engine: a completed session only leaves the table here.
- `clear` of both engines, and TCP option parsing on SYN packets.
- Time, memory and the hash function are parameters: the clock reading of a packet, whether an allocation succeeds, and an arbitrary function from keys to numbers; the masked hash is the remainder by the capacity, which is a power of two in the source.
- The empty-key sentinel of the hash map: a cell is empty or holds an entry, so the one key that equals the sentinel is not a key of the model.
- TcpEngine.TcpAssemblerEngine.CleanUp: a packet is treated by `CleanUp` and then by `HandlePacket`; the two are not put together in one method.
- ReassemblySessions.ReassemblySession.Add: `has_last_fragment` and `total_expected_len`, which are set together, are one optional field, and what a refused fragment leaves behind is not stated, since the session is deleted.
- UdpEngine.UdpAssemblerEngine.HandleFragment: a session that the search does not reach is replaced by a new one when its key arrives again; the TCP engine's contract says exactly when that happens, this one only that the new session takes its place.
- TcpEngine.TcpAssemblerEngine.PurgeExpired: does not promise that one pass removes every expired session, since an expired entry may be shifted into a cell already visited.
- UdpEngine.UdpAssemblerEngine.PurgeExpired: the same.
- Mpmc.CrowdCollides: the collision has more operations under way than the bound of `QueueSafety` by a factor of about half the capacity; the least number is not determined.
- UdpEngine.UdpAssemblerEngine.CleanUp: like that of the TCP engine, it is not put together with `HandleFragment` in one method.
- UdpTraffic.HandedOver: stated of session values, with the contract of `HandleFragment` as a step on them.
- TcpTraffic.KeysDoNotMix: stated of session values, with the engine's contract as a step on them; the object is tied to it by the contract of `HandlePacket`, not by a method of its own.
- Umem.Conservation: the kernel is an environment that moves frames from the fill ring to the RX ring and from the TX ring to the completion ring, for the default configuration.
- ClientHello.RoundTrip: messages always carry an extension block, as section 4.1.2 of RFC 8446 requires.
- TokenRuns.GrantsExactly: for times and tokens at which neither the product nor the sum wraps 64 bits.
- TokenRuns.TokenAccount: for fewer than 2^64 packets and a positive burst, since the drop counter has 64 bits.
- The rate limiters are modelled for one address on one CPU, with map updates that succeed.
