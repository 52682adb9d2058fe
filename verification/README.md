# Proofs about the firmware's queues, handshakes, parsers and tables

This project models the self-contained algorithms of the firmware in Dafny and proves what they keep
over whole runs and over all inputs. `dafny verify dfyconfig.toml` checks all of it.

| Component | Files |
|---|---|
| Ring queue of variable-length blocks (`data_queue.c`) | `data_queue.dfy` the ring as a value; `data_queue_object.dfy` the object updated in place; `data_queue_runs.dfy` writer, reader and waker interleaved |
| Pause, resume and exit handshake of a peer connection (`esp_webrtc.c`) | `peer_connection.dfy` |
| WebSocket framing, masking and reassembly (`web_socket.cc`) | `web_socket.dfy` framing and the client's own calls; `web_socket_server.dfy` what a server sends; `web_socket_object.dfy` the object |
| HTTP/1.1 responses with chunked coding (`http_client.cc`) | `http_response.dfy` parser and chunk writer; `http_segments.dfy` the parser as a machine that reads bytes and segment ends; `http_chunks.dfy` chunk streams; `http_words.dfy` the words looked for and what they settle; `http_head.dfy` whole responses; `http_client_object.dfy` the object |
| The body queue between TCP receiver and reader (`http_client.cc`, `http_client.h`) | `body_queue.dfy`; `body_queue_runs.dfy` receiver, reader and Close interleaved; `body_queue_wakeups.dfy` who wakes the receiver, over all runs and all fair schedules |
| Allocation history written by four slices (`media_lib_mem_his.c`) | `mem_history.dfy` records; `mem_history_runs.dfy` logger and saving thread interleaved; `mem_history_drops.dfy` which records are dropped; `mem_history_object.dfy` the object |
| Allocation table (`media_lib_mem_trace.c`) | `mem_trace.dfy` the table and the heap; `mem_trace_race.dfy` other threads between a realloc's two halves; `mem_trace_object.dfy` the object |
| Board configuration (`cfg_parse.c`) | `cfg_fill.dfy` what fill_cfg refuses; `cfg_parse.dfy` printing and parsing; `cfg_ends.dfy` how the parse ends, by the characters of its text; `cfg_parse_loops.dfy` the loops |
| YUV420 to RGB565 by table (`color_convert.c`) | `color_convert.dfy`, `color_convert_object.dfy` |
| Resampling plan and its two work buffers (`audio_resample.c`) | `audio_resample.dfy`, `audio_resample_object.dfy` |
| Ownership of pool buffers (`av_render.c`) | `pool_ownership.dfy` |
| Bytes, 32-bit words over bytes, concatenation; what several components share | `bytes.dfy`, `common.dfy` |

Each component that works by updating its fields is modelled twice: as functions on values, about
which the properties are proved, and as a class or as loops with the source's own fields and
branches, whose methods are proved to compute those functions. Each concurrent component is also a
step system in which a step is one critical section or one access to shared state, and the theorems
quantify over every run of it.

## Where the code does less than it is meant to

These properties fail for some inputs. The code is modelled as it is, and the exact condition is proved.

- `data_queue_consume_all` traps exactly when a single block fills the whole buffer (`DataQueueObject.Queue.ConsumeAll`).
- `data_queue_get_available` promises every request that it covers except the empty one (`DataQueue.AvailableIsPromise`).
- `data_queue_peek_unlock` tells nobody that it has released the queue, so `data_queue_wakeup` can be left asleep; without peeks it cannot (`DataQueueRuns.WakeupLostOnlyByPeek`).
- `pc_start` does not check that its thread was created; `pc_close` then waits for ever, and only then (`PeerConnection.CloseFinishes`). A failed event group leaves a peer that is not running (`PeerConnection.FieldsAgree`).
- A WebSocket segment boundary is visible exactly when it follows a refused handshake response that has another response block behind it (`WebSocket.FeedSplits`).
- `Send` repeats opcode 2 on later fragments and `OnTcpData` drops those, so a fragmented binary message is never delivered whole (`WebSocket.FragmentedDelivery`).
- The CRLF behind a chunk is skipped only if it arrives with the chunk's last byte; otherwise the next size reads as zero and the rest of the body is lost without an error (`HttpHead.ChunkedResponse`).
- A response that announces a body of no bytes, or no length at all, never reaches COMPLETE and never sets `eof_`, however it is cut, until the connection is lost (`HttpHead.CountedResponse`).
- `Read` with no room in its buffer throws the whole body queue away (`BodyQueue.TakenServes`, `BodyQueueRuns.EveryRun`) and wakes nobody; `Close` clears `connected_` and notifies outside the lock, so its notification can be lost too. The receiver can be left asleep exactly if one of these may happen (`BodyQueueWakeUps.WakeUpsLostOnlyBy`). A segment of 8192 bytes or more is never admitted while connected (`BodyQueueRuns.OversizeWaits`).
- The history's saving thread tests the number of full slices and then the request to stop; if slices are filled between the two, they never reach the file (`MemHistoryRuns.FileDecodes`). A cache of one to three bytes makes slices of none; if the allocator answers a request for no bytes with a pointer, so that the start succeeds, `his_write` spins for ever (`MemHistoryRuns.NoSliceNoEnd`).
- The allocation table and the heap differ by exactly the blocks allocated while the table was full and those whose realloc failed, until they are given back (`MemTrace.TableIsHeap`): a failing realloc removes the record of a block that lives on (`MemTrace.FailedReallocLoses`). `_realloc` asks the allocator before it takes the mutex. Whatever other threads do in between, the table is right afterwards exactly if nobody holds the address that was given back, or its holder is recorded and the old record is still there, in front of the new one or of the same size (`MemTraceRace.RaceExactly`). So harm comes of a table without room for the new record (`MemTraceRace.HandedOn`) and of a block in front of the old record whose place the new one takes (`MemTraceRace.HandedOnAndFreed`), among others.
- A codec's port from 128 to 255 counts as negative and is accepted (`CfgFill.CodecLineAccepted`).
- A configuration line of type "Board" ends the parse (`CfgParse.ParseOfPrint`). A first line that is not closed is parsed for ever exactly if fill_cfg does not know its type; of the eight known types it is refused for the third time at the latest (`CfgEnds.HangsExactly`, `CfgEnds.KnownEnds`). A word with no brace behind it sends the parser beyond its memory, and an unclosed line behind a longer one is skipped beyond the end if fill_cfg accepts both; all five ways to end are exact by the characters of the text (`CfgEnds.EndsExactly`), with texts of each kind (`CfgEnds.UnclosedHangs`, `CfgEnds.MissingBraceFaults`, `CfgEnds.UnclosedOverruns`).
- The colour conversion does not check for even sizes. Its loops stay within both buffers exactly if the width is even, and the height too unless the width is two, or there are no pixels (`ColorConvertObject.Converter.Yuv420ToRgb565`); three by three reads beyond its source (`ColorConvert.ThreeByThree`). `init_table` fills the low bits of u from the luma; because of that the error of the green is at most 11, not 12 (`ColorConvert.GreenCoupling`), and black comes out with a trace of blue (`ColorConvert.TableColours`).
- A pool that is registered after its stream was added loses every buffer that is queued (`PoolOwnership.FreedExactlyOnce`).

## Model

| member | source | states |
|---|---|---|
| DataQueue.HaveDataMeansNonempty | components/media_lib_sal/port/data_queue.c:92-103 | both of the queue's tests for data, by positions and by `filled`, say whether a block is queued, and the read position recomputed from `filled`, `wp` and `fill_end` is `rp` |
| DataQueue.ConsumedIsTail | components/media_lib_sal/port/data_queue.c:373-389 | the oldest block lies at `rp`, and consuming it leaves all the others, in order, in a valid ring |
| DataQueue.WrappedKeepsBlocks | components/media_lib_sal/port/data_queue.c:234-244 | making room by wrapping, or by rewinding an empty ring, changes no queued block |
| DataQueue.FillKeepsBlocks | components/media_lib_sal/port/data_queue.c:225-259 | bytes stored into a reserved region are invisible until committed |
| DataQueue.FreeRegionIsDisjoint | components/media_lib_sal/port/data_queue.c:184-200 | the region that the available size speaks of touches no queued block |
| DataQueue.CommittedIsAppend | components/media_lib_sal/port/data_queue.c:286-300 | a commit no larger than what is available stays in the buffer and appends exactly the bytes behind the size word as the newest block |
| DataQueue.ConsumedKeepsReservation | components/media_lib_sal/port/data_queue.c:384-389 | a read moves no write position and never shrinks the room behind it, also when it resets `fill_end` and `rp` |
| DataQueue.DrainedIsSuffix | components/media_lib_sal/port/data_queue.c:138-162 | k reads leave the queue without its k oldest blocks |
| DataQueue.EmptyServesAll | components/media_lib_sal/port/data_queue.c:236-250 | an empty queue serves every request that fits the buffer at all |
| DataQueue.ServedWithinQueuedBlocks | components/media_lib_sal/port/data_queue.c:234-255 | every request that fits the buffer is served after at most the blocks queued now are consumed |
| DataQueue.AvailableIsPromise | components/media_lib_sal/port/data_queue.c:202-223 | a request of n bytes covered by the queried size is served without waiting in every valid ring, exactly if n is positive |
| DataQueue.AvailableExactly | components/media_lib_sal/port/data_queue.c:184-200 | a region of n > 0 bytes behind the write position lies in the buffer and meets no queued block, offset by offset, exactly if n is at most the available size: it is bounded from below as well as from above |
| DataQueue.GrantsExactly | components/media_lib_sal/port/data_queue.c:234-255 | a pass of `get_buffer` grants a request exactly if there are enough offsets in one piece that no queued block takes up, from the write position on or, before a wrap, from the start of the buffer; and it grants the first of these |
| DataQueue.GetAvailableExactly | components/media_lib_sal/port/data_queue.c:202-223 | the queried size is the greatest payload for which there is such room from the write position on, or in the whole buffer if the queue is empty |
| DataQueueObject.Queue.AvailableSize | components/media_lib_sal/port/data_queue.c:188-200 | the size of the room behind the write position: exactly the regions up to that size are in the buffer and free of queued blocks |
| DataQueueObject.Queue.GetBuffer | components/media_lib_sal/port/data_queue.c:225-259 | refuses exactly a request that cannot fit or a queue shut down; grants exactly if enough free bytes lie in one piece at the write position or, before a wrap, at the start, at the first such place; waits otherwise; and the fields after it are those of the wrapped ring with one user more |
| DataQueueObject.Queue.SendBuffer | components/media_lib_sal/port/data_queue.c:272-309 | commits, cancels or fails, with the whole new state and the bits that are set |
| DataQueueObject.Queue.ReadLock | components/media_lib_sal/port/data_queue.c:325-359 | yields the place of exactly the oldest block's bytes, or waits if there is none |
| DataQueueObject.Queue.PeekUnlock | components/media_lib_sal/port/data_queue.c:361-371 | gives up the lock, changes nothing else and sets no bit |
| DataQueueObject.Queue.ReadUnlock | components/media_lib_sal/port/data_queue.c:373-398 | consumes one block and signals it, or does nothing on an empty ring |
| DataQueueObject.Queue.ConsumeAll | components/media_lib_sal/port/data_queue.c:138-162 | empties the queue, and traps exactly if a block fills the whole buffer |
| DataQueueObject.Queue.Query | components/media_lib_sal/port/data_queue.c:400-425 | the number of queued blocks and the sum of their payloads |
| DataQueueObject.Queue.GetAvailableSize | components/media_lib_sal/port/data_queue.c:202-223 | the greatest payload for which there is free room from the write position on, or in the whole buffer if the queue is empty |
| DataQueueRuns.ReachableInv | components/media_lib_sal/port/data_queue.c:225-426 | the invariant of ring, bits and three users in every reachable state |
| DataQueueRuns.Fifo | components/media_lib_sal/port/data_queue.c:325-398 | in every reachable state what was consumed is what was committed first, the rest is what the buffer holds, and a locked reader sees the next payload in line |
| DataQueueRuns.ReservationHolds | components/media_lib_sal/port/data_queue.c:225-300 | whatever reads happen in between, a reservation stays clear of unread data and a commit up to its size succeeds |
| DataQueueRuns.TestDecides | components/media_lib_sal/port/data_queue.c:225-259 | in every reachable state the test of a request reserves exactly if there is such room in one piece, at its first place, and goes to sleep exactly otherwise; either way what is queued stays |
| DataQueueRuns.NoLostWakeup | components/media_lib_sal/port/data_queue.c:54-82 | a sleeper with its bit clear has missed nothing since its last test and still has reason to sleep; writer and reader never sleep together |
| DataQueueRuns.EventualService | components/media_lib_sal/port/data_queue.c:225-259 | in every run a waiting request outlasts at most the blocks queued at its start, and its test behind them succeeds unless the queue is shut down |
| DataQueueRuns.StrandedForever | components/media_lib_sal/port/data_queue.c:84-90 | a waker that has lost its signal is never woken again |
| DataQueueRuns.WakeupLostOnlyByPeek | components/media_lib_sal/port/data_queue.c:123-136 | `data_queue_wakeup` can be stranded exactly if read locks may be given up by a peek |
| PeerConnection.ReachableInv | components/esp_webrtc/src/esp_webrtc.c:289-304 | the invariant of flags, event bits and both program counters in every reachable state |
| PeerConnection.PauseExcludesMainLoop | components/esp_webrtc/src/esp_webrtc.c:713-735 | from the BYE handler's wait on PAUSED to the next clearing of `pause`, pc_task is in its wait and can take no step |
| PeerConnection.HeldTaskDoesNothing | components/esp_webrtc/src/esp_webrtc.c:289-304 | any run within such a stretch has the same outcome with all steps of pc_task left out |
| PeerConnection.NoStaleBits | components/esp_webrtc/src/esp_webrtc.c:55-58 | PAUSED is clear at the start of a pause cycle, a RESUME then set is on its way out, and EXIT is clear until pc_task ends, though waits and clears are separate steps |
| PeerConnection.NothingDangles | components/esp_webrtc/src/esp_webrtc.c:515-537 | the main loop only runs on an open peer and no event bit is used without a group |
| PeerConnection.FieldsAgree | components/esp_webrtc/src/esp_webrtc.c:573-617 | between operations `running` and `wait_event` agree, `pc` agrees with them exactly unless a start lost its event group, and a pause needs a peer |
| PeerConnection.TickProgress | components/esp_webrtc/src/esp_webrtc.c:515-537 | a measure never grows and shrinks whenever the side that is not blocked is scheduled |
| PeerConnection.OperationsFinish | components/esp_webrtc/src/esp_webrtc.c:802-844 | every controller operation ends under every fair schedule if its task exists; what it leaves behind is said by OperationLeaves |
| PeerConnection.OperationLeaves | components/esp_webrtc/src/esp_webrtc.c:712-844 | from any call to the next rest of the controller, in every run: a BYE on a running peer ends paused exactly without automatic reconnection, an enable with signalling ends unpaused, stop and disable end with peer, group, `running`, pause and task all gone, and every field not named stays as it was or is what the start made it |
| PeerConnection.ByeWaits | components/esp_webrtc/src/esp_webrtc.c:716-724 | in every run a BYE that finds the peer running and unpaused goes on only once pc_task has left the main loop and set PAUSED, and disconnects the peer while pc_task sits in its wait |
| PeerConnection.MainLoopServed | components/esp_webrtc/src/esp_webrtc.c:289-304 | between operations a peer that runs and is not paused gets `esp_peer_main_loop` again and again, for ever, under every fair schedule |
| PeerConnection.PauseEnds | components/esp_webrtc/src/esp_webrtc.c:725-733 | a BYE with automatic reconnection and an enable with signalling bring pc_task, paused or not, back into the main loop under every fair schedule |
| PeerConnection.CloseFinishes | components/esp_webrtc/src/esp_webrtc.c:515-537 | `pc_close`, begun in any reachable state, ends under every fair schedule exactly if pc_task was created |
| WebSocket.MaskedTwice | components/esp-ml307/src/web_socket.cc:239-243 | masking with the same key twice gives the payload back |
| WebSocket.MaskedBits | components/esp-ml307/src/web_socket.cc:239-243 | masking turns over each bit of the payload exactly where the key byte of its position has a one |
| WebSocket.ParseFramePrefix | components/esp-ml307/src/web_socket.cc:319-358 | a complete frame is decoded the same whatever follows it |
| WebSocket.ParseEncoded | components/esp-ml307/src/web_socket.cc:204-243 | a frame that Send builds is decoded to its flag, opcode and payload and to its exact size, in both length forms |
| WebSocket.FeedSplits | components/esp-ml307/src/web_socket.cc:286-406 | feeding a then b leaves the state and events of feeding a + b, from any state, exactly unless a completes a refused response and another block is complete behind it |
| WebSocket.SegmentationIndependence | components/esp-ml307/src/web_socket.cc:286-406 | behind an accepted handshake any segmentation has the outcome of one single segment |
| WebSocket.RoundTrip | components/esp-ml307/src/web_socket.cc:313-406 | text in any fragments, whole binary messages and control frames, with any masks, are delivered exactly once, in order, with bytes and kind, leaving nothing in the buffer |
| WebSocket.RoundTripInPieces | components/esp-ml307/src/web_socket.cc:286-406 | the same when the stream is cut into segments anywhere |
| WebSocket.FragmentedDelivery | components/esp-ml307/src/web_socket.cc:214-221 | a message sent in fragments arrives whole exactly if it is text or has one fragment |
| WebSocketServer.ParseLaidFrame | components/esp-ml307/src/web_socket.cc:319-358 | a frame in any of the three forms of the length, masked or not, is decoded to its flag, opcode and payload and to its exact size, whatever follows |
| WebSocketServer.ClientFrame | components/esp-ml307/src/web_socket.cc:204-243 | what the client sends has the mask bit, its key, and the shortest form of the length that fits |
| WebSocketServer.StreamHandled | components/esp-ml307/src/web_socket.cc:313-406 | any stream of frames in any segments is handled frame by frame, each once and in order |
| WebSocketServer.MessagesDelivered | components/esp-ml307/src/web_socket.cc:313-406 | any messages of a server, text or binary, in any fragments with opcode 0 on the later ones, with any control frames between them, in any forms of the length and any segments: each is delivered whole, once, in order and with its kind; each ping of up to 125 bytes is answered with its payload; and the connection counts as closed exactly if there was a close frame |
| WebSocketServer.HelloDelivered | components/esp-ml307/src/web_socket.cc:313-382 | the bytes 81 05 and "Hello" deliver the text "Hello" |
| WebSocketServer.AnswersArePongs | components/esp-ml307/src/web_socket.cc:389-391 | the bytes written for the pings of a history, whatever masks are drawn, decode to final frames of opcode 10, one for each, in order and with its payload |
| WebSocketServer.Spelled | components/esp-ml307/src/web_socket.cc:292-297 | what the handshake looks for is "HTTP/1.1 101" and an empty line |
| WebSocketServer.OpeningAccepted | components/esp-ml307/src/web_socket.cc:286-311 | a response with "HTTP/1.1 101" somewhere in front of its blank line is accepted, and all messages behind it are delivered, from the first byte on and in any segments |
| WebSocketServer.OpeningRejected | components/esp-ml307/src/web_socket.cc:297-306 | any other response is rejected, once, in any segments |
| WebSocketObject.Socket.Send | components/esp-ml307/src/web_socket.cc:204-251 | writes the frame of the call, keeps the continuation flag, and refuses payloads over the limit |
| WebSocketObject.Socket.SendControlFrame | components/esp-ml307/src/web_socket.cc:410-441 | writes the control frame, and refuses payloads over 125 bytes |
| WebSocketObject.Socket.DecodeFrame | components/esp-ml307/src/web_socket.cc:319-367 | finds a frame exactly if one is complete, with its payload, unmasked if it was masked, and its size; ParseLaidFrame says which bytes are which frame |
| WebSocketObject.Socket.OnTcpData | components/esp-ml307/src/web_socket.cc:286-406 | leaves the fields and events that FeedSplits, MessagesDelivered and OpeningAccepted speak of, and puts on the wire exactly the answers to the pings among them, in order, each masked frame complete |
| HttpResponse.ChunkSizeRoundTrip | components/esp-ml307/src/http_client.cc:506-528 | a size written in hexadecimal is read back by the C library's rules |
| HttpWords.WordsSpelled | components/esp-ml307/src/http_client.cc:324-345 | the header names and the values looked for are "connection", "keep-alive", "close", "transfer-encoding", "chunked" and "content-length" |
| HttpWords.HeadersEndMeans | components/esp-ml307/src/http_client.cc:323-357 | the blank line sets `headers_received_`; keep-alive becomes true if the value of Connection has "keep-alive" at some offset in any letter case, false if it has only "close", and stays otherwise; coding is chunked exactly if the value of Transfer-Encoding has "chunked" at some offset |
| HttpWords.ReceivedExactly | components/esp-ml307/src/http_client.cc:297-441 | whatever arrives in whatever segments, the headers count as received exactly behind their blank line |
| HttpSegments.ProcessIsFold | components/esp-ml307/src/http_client.cc:297-441 | the parser's loop over a buffer equals a byte-by-byte machine that is told where the segment ends, in every state and without a refused line |
| HttpChunks.CutInvisible | components/esp-ml307/src/http_client.cc:258-276 | a segment boundary that the machine does not notice has no effect at all |
| HttpChunks.FeedAllIsRead | components/esp-ml307/src/http_client.cc:258-276 | feeding any segments is the machine's run over their bytes and boundaries |
| HttpChunks.ChunksAreClean | components/esp-ml307/src/http_client.cc:367-426 | behind the headers no input whatever raises the error event |
| HttpChunks.ChunkedRoundTrip | components/esp-ml307/src/http_client.cc:297-441 | whatever is written in chunks and however it is cut, COMPLETE is reached, and the body is what was written exactly if no cut falls in front of or inside the CRLF of a chunk that is not the last |
| HttpHead.CleanProcess | components/esp-ml307/src/http_client.cc:297-365 | the parser raises no error unless the byte machine meets a line it refuses |
| HttpHead.ErrorExactly | components/esp-ml307/src/http_client.cc:297-365 | and it raises one exactly then |
| HttpHead.UnnoticedCut | components/esp-ml307/src/http_client.cc:258-276 | the same, asking only that the machine refuses no line of the whole |
| HttpHead.CutInvisibleExactly | components/esp-ml307/src/http_client.cc:258-276 | behind any bytes a segment may end without effect, whatever follows that is not refused, exactly if the machine does not notice; otherwise some bytes behind it tell |
| HttpHead.StatusRead | components/esp-ml307/src/http_client.cc:443-467 | a status line with a code from 100 to 999 and any reason gives that code |
| HttpHead.StatusExactly | components/esp-ml307/src/http_client.cc:443-467 | any word, a decimal code and any reason: accepted exactly if the code is from 100 to 999, and read as that code |
| HttpHead.StatusMissing | components/esp-ml307/src/http_client.cc:448-452 | a status line of one word is refused |
| HttpHead.HeaderRead | components/esp-ml307/src/http_client.cc:469-492 | a proper header line gives its lower-case name and its value |
| HttpHead.HeaderTrimmed | components/esp-ml307/src/http_client.cc:469-492 | any blanks around the name and the value, and line ends behind the value, make no difference |
| HttpHead.HeaderRefused | components/esp-ml307/src/http_client.cc:470-474 | a header line is refused exactly if it has no colon |
| HttpHead.StoredValues | components/esp-ml307/src/http_client.cc:484-489 | of the headers looked for, written in any letter case, the last one counts |
| HttpHead.ChunkSizeRead | components/esp-ml307/src/http_client.cc:506-528 | a chunk size in hexadecimal digits of either case, with blanks and an extension behind it, is read back; one too large counts as the largest 32-bit number |
| HttpHead.ChunkSizePrefixed | components/esp-ml307/src/http_client.cc:506-528 | so is one with "0x" or "0X" in front |
| HttpHead.CountRead | components/esp-ml307/src/http_client.cc:344-352 | a decimal length, signed or not, by the C library's rules: too large is the largest, negative wraps around |
| HttpHead.CountRefused | components/esp-ml307/src/http_client.cc:344-352 | a length with anything but digits behind it is none |
| HttpHead.LengthSettled | components/esp-ml307/src/http_client.cc:341-353 | what the blank line makes of Content-Length: its decimal number, 0 for anything else, and nothing without the header |
| HttpHead.HeadRead | components/esp-ml307/src/http_client.cc:297-365 | a head that selects chunked coding or announces a length, by the last header of each name, is read to its code, its header map, keep-alive by the last Connection header, headers received, and the right phase, with no cut in it having any effect |
| HttpHead.CountedResponse | components/esp-ml307/src/http_client.cc:433-440 | a response of announced length, or as much of it as has come, in any segments: code, headers and keep-alive are those sent, the headers count as received, no byte is lost, no error is raised, COMPLETE is reached exactly if the announced length has come and is not 0, and losing the connection is an error exactly if the body is short |
| HttpHead.ChunkedResponse | components/esp-ml307/src/http_client.cc:297-441 | a whole chunked response in any segments: code, headers and keep-alive are those sent, the headers count as received, COMPLETE is reached without error, losing the connection is then no error, and the body is whole exactly unless a cut separates the CRLF of a chunk that is not the last |
| HttpHead.HeadCutShort | components/esp-ml307/src/http_client.cc:278-292 | as long as the blank line has not come, in any segments, the headers do not count as received and losing the connection is no error |
| HttpHead.ChunkedCutShort | components/esp-ml307/src/http_client.cc:278-292 | a chunked response without its last bytes, unless an earlier cut separated the CRLF of a chunk that is not the last: losing the connection is an error |
| HttpClientObject.Client.ResetRequestState | components/esp-ml307/src/http_client.cc:782-812 | every parsing field is as for a new request and the queue is empty, keep-alive and connection kept |
| HttpClientObject.Client.HasCompleteLine | components/esp-ml307/src/http_client.cc:547-549 | whether a line end has arrived |
| HttpClientObject.Client.GetNextLine | components/esp-ml307/src/http_client.cc:530-545 | splits the buffer at its first line end, drops a CR in front of it, and loses no other byte |
| HttpClientObject.Client.OnCompleteLine | components/esp-ml307/src/http_client.cc:300-426 | the line phases do to all fields what the line means, and accept or refuse it accordingly |
| HttpClientObject.Client.OnChunkData | components/esp-ml307/src/http_client.cc:390-411 | chunk data goes to the body and the queue, up to the chunk's end and no further |
| HttpClientObject.Client.ProcessReceivedData | components/esp-ml307/src/http_client.cc:297-441 | the object's loop computes the parser function, and the queue grows by exactly the new body bytes |
| HttpClientObject.Client.OnTcpData | components/esp-ml307/src/http_client.cc:273-275 | the same for an admitted segment |
| HttpClientObject.Client.OnTcpDisconnected | components/esp-ml307/src/http_client.cc:278-295 | a body cut short is an error, anything else a regular end; CountedResponse, HeadCutShort and ChunkedCutShort say which bodies are |
| HttpClientObject.Client.Read | components/esp-ml307/src/http_client.cc:556-596 | returns the next unread bytes, as many as there is room for and the oldest chunk has left, and loses none then; otherwise the codes, the wait, and the loss without room |
| HttpClientObject.Client.ReadAfterWait | components/esp-ml307/src/http_client.cc:597-633 | the same behind the wait |
| HttpClientObject.Client.Write | components/esp-ml307/src/http_client.cc:635-665 | sends one chunk of the stream that the round trip speaks of, or the bytes as they are |
| BodyQueue.TakenServes | components/esp-ml307/include/http_client.h:51-75 | a read serves a prefix of the unread bytes: as many as asked for and as the oldest chunk has left, nothing is lost exactly if there is room or no data, and nothing is returned only then |
| BodyQueue.WholeChunksCount | components/esp-ml307/src/http_client.cc:264-269 | the size that the receiver waits on counts every chunk whole, however much of it has been read |
| BodyQueueRuns.SegmentAddsLess | components/esp-ml307/src/http_client.cc:258-276 | a segment adds at most its own size to the body, whatever was left in the parser's buffer |
| BodyQueueRuns.EveryRun | components/esp-ml307/src/http_client.cc:258-276 | in every interleaving bytes read, then queued, then pending are all the body received, exactly if no read without room met data; and while connected without an error the queue stays below 8192 bytes |
| BodyQueueRuns.EndToEnd | components/esp-ml307/src/http_client.cc:556-633 | a chunked response received through any segments and interleaving and read to the end is what was written, under the exact condition on the cuts |
| BodyQueueRuns.OversizeWaits | components/esp-ml307/src/http_client.cc:262-271 | a segment of the limit or more is not admitted in any run that stays connected |
| BodyQueueRuns.AdmittedInTheEnd | components/esp-ml307/src/http_client.cc:262-271 | a smaller one is admitted by reading at most what is queued, in a bounded number of steps |
| BodyQueueRuns.TestAdmits | components/esp-ml307/src/http_client.cc:262-271 | a test admits a segment exactly if it and the whole chunks in the queue stay below 8192 bytes, or `connected_` has been cleared, and falls asleep otherwise |
| BodyQueueRuns.ClosedNeverSleeps | components/esp-ml307/src/http_client.cc:243-271 | once `connected_` is cleared, a receiver that is awake never falls asleep again in any run |
| BodyQueueRuns.NoLostWakeUp | components/esp-ml307/src/http_client.cc:243-256 | a receiver asleep though it could be admitted was robbed of its wake-up by one of two named events, or is about to get it |
| BodyQueueRuns.CloseStrands | components/esp-ml307/src/http_client.cc:243-256 | a run in which Close comes between test and sleep and leaves the receiver asleep |
| BodyQueueRuns.ReadWithoutRoomStrands | components/esp-ml307/src/http_client.cc:570-586 | a read without room empties the queue and leaves the receiver asleep |
| BodyQueueRuns.StrandedForGood | components/esp-ml307/src/http_client.cc:258-271 | after either only a spurious wake-up or a later Close wakes it |
| BodyQueueWakeUps.WakeUpsLostOnlyBy | components/esp-ml307/src/http_client.cc:243-276 | over all runs from the first byte of a response: no wake-up is lost exactly if neither reads without room nor Close are allowed |
| BodyQueueWakeUps.ReadStrands | components/esp-ml307/src/http_client.cc:570-586 | a run from the start in which a segment is queued, a second one waits, and a read without room leaves it asleep |
| BodyQueueWakeUps.FairlyAdmitted | components/esp-ml307/src/http_client.cc:262-271 | a segment below the limit is admitted under every schedule in which the reader reads while there is data and the receiver tests while it is awake, whether further segments come or not: a receiver that sleeps is woken |
| MemHistory.DecodeOfEncode | components/media_lib_sal/mem_trace/media_lib_mem_his.c:46-59 | any sequence of '+' and '-' records decodes to itself, whatever the uninitialised bytes hold |
| MemHistory.DecodeOnlyWhole | components/media_lib_sal/mem_trace/media_lib_mem_his.c:46-59 | no file of another length decodes to the same records |
| MemHistory.RecordLayout | components/media_lib_sal/mem_trace/media_lib_mem_his.c:46-59 | where each field of either record lies, byte by byte |
| MemHistoryRuns.StoredAppends | components/media_lib_sal/mem_trace/media_lib_mem_his.c:104-120 | storing into a slice, also when it fills up, appends to the queued slices in ring order and the partial slice |
| MemHistoryRuns.FillLeavesHead | components/media_lib_sal/mem_trace/media_lib_mem_his.c:96-145 | the logger never touches the slice that is read outside the mutex |
| MemHistoryRuns.StepKeepsInv | components/media_lib_sal/mem_trace/media_lib_mem_his.c:81-170 | every step of either side keeps the invariant |
| MemHistoryRuns.NothingLost | components/media_lib_sal/mem_trace/media_lib_mem_his.c:96-170 | in every interleaving the file, the queued slices and the partial slice are all bytes stored, those with the bytes still to store are all records admitted, and the slice being read is not the one being written |
| MemHistoryRuns.FileDecodes | components/media_lib_sal/mem_trace/media_lib_mem_his.c:124-170 | when the thread has gone and nothing was logged behind the request to stop, the file decodes to exactly the admitted records, unless the request came between the thread's two tests with slices queued, and then it does not |
| MemHistoryRuns.RecordLost | components/media_lib_sal/mem_trace/media_lib_mem_his.c:128-150 | there is a run in which that happens and an admitted record is lost |
| MemHistoryRuns.WriteAdvances | components/media_lib_sal/mem_trace/media_lib_mem_his.c:96-122 | what `his_write` waits for never grows and shrinks with the next step of the side it waits for |
| MemHistoryRuns.LoggingEnds | components/media_lib_sal/mem_trace/media_lib_mem_his.c:81-122 | under every fair schedule of logger and saving thread, while nobody asks to stop and whether further records come or not, logging a record ends, with every admitted record stored whole; DroppedExactly says which are admitted |
| MemHistoryDrops.DroppedExactly | components/media_lib_sal/mem_trace/media_lib_mem_his.c:81-94 | in every run each record logged is tried up to the first test that finds room and at most five times; it is dropped exactly if five tests each found four slices queued and no room in the current one; all others, in order, are admitted |
| MemHistoryDrops.AllLoggedIsSaved | components/media_lib_sal/mem_trace/media_lib_mem_his.c:237-260 | so in every run in which no test finds four slices queued everything logged is admitted, and when the thread has gone the file decodes to exactly that, under the condition of FileDecodes |
| MemHistoryDrops.RunsAhead | components/media_lib_sal/mem_trace/media_lib_mem_his.c:96-103 | in every run `his_write` waits exactly once the bytes stored and not yet given back by the thread fill four slices |
| MemHistoryRuns.NoSliceNoEnd | components/media_lib_sal/mem_trace/media_lib_mem_his.c:211-225 | with slices of no bytes `his_write` never ends and stores nothing in any run |
| MemHistoryObject.History.StoreLocked | components/media_lib_sal/mem_trace/media_lib_mem_his.c:103-121 | the locked part of `his_write` in place in the one cache: the state that StoredAppends speaks of |
| MemHistoryObject.History.SaveOne | components/media_lib_sal/mem_trace/media_lib_mem_his.c:128-146 | the oldest slice moves to the file and everything logged stays the same |
| MemHistoryObject.History.HisWrite | components/media_lib_sal/mem_trace/media_lib_mem_his.c:96-122 | appends its buffer to everything logged, over as many slices as it takes |
| MemHistoryObject.History.Sync | components/media_lib_sal/mem_trace/media_lib_mem_his.c:148-170 | the file ends as everything logged |
| MemTrace.RemoveItem | components/media_lib_sal/mem_trace/media_lib_mem_trace.c:260-270 | swapping with the tail removes exactly one address from the map and its size from the total |
| MemTrace.StepAgrees | components/media_lib_sal/mem_trace/media_lib_mem_trace.c:272-307 | every operation does to the table what it says to a map from addresses to sizes, and keeps usage = recorded + missed, never negative and never over the peak |
| MemTrace.RunKeepsInv | components/media_lib_sal/mem_trace/media_lib_mem_trace.c:177-307 | the same over whole runs |
| MemTrace.UsageExactly | components/media_lib_sal/mem_trace/media_lib_mem_trace.c:228-293 | in every run the usage is the sizes recorded and the bytes of all allocations that found the table full, and the overflow flag says whether the last allocation did |
| MemTrace.TableIsHeap | components/media_lib_sal/mem_trace/media_lib_mem_trace.c:309-360 | in every run the table is the live blocks without the lost ones, a set grown by an allocation at a full table and by a failing realloc and shrunk by giving back; hence the table is the heap exactly if none is lost |
| MemTrace.WorldStep | components/media_lib_sal/mem_trace/media_lib_mem_trace.c:272-307 | the same for one operation |
| MemTrace.FailedReallocLoses | components/media_lib_sal/mem_trace/media_lib_mem_trace.c:348-360 | a recorded block whose realloc fails is still held and no longer recorded |
| MemTrace.FullTableLoses | components/media_lib_sal/mem_trace/media_lib_mem_trace.c:228-236 | so is a block allocated while the table is full |
| MemTrace.UndisturbedIsHeap | components/media_lib_sal/mem_trace/media_lib_mem_trace.c:309-360 | in a run with room for every allocation and no failing realloc the table is the heap and no byte is missed |
| MemTrace.RaceHeals | components/media_lib_sal/mem_trace/media_lib_mem_trace.c:348-360 | if the address that a realloc gave back is recorded by another thread and the realloc goes on next, the table is as in the right order exactly if the new record found room |
| MemTraceRace.StepKeepsInv | components/media_lib_sal/mem_trace/media_lib_mem_trace.c:228-307 | between the allocator's answer and the mutex every step of other threads keeps all records but the old one right |
| MemTraceRace.RaceExactly | components/media_lib_sal/mem_trace/media_lib_mem_trace.c:348-360 | over every run of other threads in between, the exact condition under which the table is right behind the realloc and the given-back address is recorded if somebody holds it |
| MemTraceRace.HandedOn | components/media_lib_sal/mem_trace/media_lib_mem_trace.c:348-360 | of the run that hands the address on at once: no harm exactly if the new record finds room and there is an old one in front |
| MemTraceRace.HandedOnAndFreed | components/media_lib_sal/mem_trace/media_lib_mem_trace.c:260-270 | of the run that then frees another block: no harm exactly if that block's record was behind the old one, or there was none, or the sizes are the same |
| MemTraceRace.HandedOnBehind | components/media_lib_sal/mem_trace/media_lib_mem_trace.c:260-270 | if a further block is recorded before that, no harm comes of it |
| MemTrace.PeakIsHighest | components/media_lib_sal/mem_trace/media_lib_mem_trace.c:177-184 | the recorded peak is the running maximum of the usage |
| MemTraceObject.Tracer.GetTraceItem | components/media_lib_sal/mem_trace/media_lib_mem_trace.c:212-226 | the first item with the address, or none |
| MemTraceObject.Tracer.RemoveTraceItem | components/media_lib_sal/mem_trace/media_lib_mem_trace.c:260-270 | the array without the item, its tail in the gap, also when the item is the tail |
| MemTraceObject.Tracer.AddTrace | components/media_lib_sal/mem_trace/media_lib_mem_trace.c:272-293 | the state that StepAgrees speaks of, with a full table and with none |
| MemTraceObject.Tracer.RemoveTrace | components/media_lib_sal/mem_trace/media_lib_mem_trace.c:295-307 | the same for a removal |
| MemTraceObject.Tracer.Realloc | components/media_lib_sal/mem_trace/media_lib_mem_trace.c:348-360 | the same for a reallocation in its four cases |
| CfgParse.BoardOnly | components/codec_board/cfg_parse.c:29-41 | of all words in front of a colon only "Board" is taken for a section head |
| CfgParse.BodyOfAttrs | components/codec_board/cfg_parse.c:147-181 | printed attributes are read back in their order, up to the closing brace |
| CfgParse.ParsePrinted | components/codec_board/cfg_parse.c:114-183 | a printed line is read back with its exact size, behind the end of another line or not |
| CfgParse.ParseOfPrint | components/codec_board/cfg_parse.c:87-99 | parsing printed lines gives the lines up to the first "Board", or through the first one that fill_cfg refuses; all of them, with the regular end, exactly if there is neither |
| CfgParse.PrintedLooksSo | components/codec_board/cfg_parse.c:87-99 | two printed lines, character by character |
| CfgParse.PrintingIsStable | components/codec_board/cfg_parse.c:551-570 | what parse_cfg prints of any text whatever parses to what it has parsed, up to a "Board", and is refused if the text was |
| CfgParse.SameIsWord | components/codec_board/cfg_parse.c:29-41 | str_same with a word compares the whole word at the pointer |
| CfgFill.FillCounts | components/codec_board/cfg_parse.c:512-549 | an accepted line of a known type takes up one of a bounded number of places; any other line is accepted and takes none |
| CfgFill.ThirdRefused | components/codec_board/cfg_parse.c:185-205 | a line of a known type is refused for the third time at the latest, whatever was filled before |
| CfgFill.AcceptedTimes | components/codec_board/cfg_parse.c:185-205 | a line of a known type is accepted exactly as often as there are places left for it: two buses of each kind, two codecs, one of everything else |
| CfgFill.CodecLineAccepted | components/codec_board/cfg_parse.c:390-426 | a codec line is accepted exactly if there is room for one more, each decimal port is one already filled as an int8_t tells it, which takes 128 to 255 for negative, and each codec is one of the five known |
| CfgEnds.SectionIs | components/codec_board/cfg_parse.c:114-183 | what parse_section finds by the characters of the text alone: the first word outside comments, the section head, the first '{' behind it in the memory and the first '}' within the size |
| CfgEnds.BodyCloses | components/codec_board/cfg_parse.c:147-181 | a line is closed by the first '}' within its bounds, whatever else its braces hold |
| CfgEnds.LineText | components/codec_board/cfg_parse.c:147-181 | a line's type is the first word outside comments and its attributes are the words within its braces, in pairs |
| CfgEnds.EndsExactly | components/codec_board/cfg_parse.c:551-570 | each of the five ends of parse_cfg, a refused line included, exactly by what the text holds where its passes begin and what has been filled by then |
| CfgEnds.ClosedEnds | components/codec_board/cfg_parse.c:551-570 | if every line that a pass comes to is closed, a missing brace counting as not closed, parse_cfg comes to an end: the regular one exactly if none of these lines is refused |
| CfgEnds.HangsExactly | components/codec_board/cfg_parse.c:551-570 | it parses its first line for ever exactly if the first word outside comments is no section head and none of the eight known types, a '{' follows, and no '}' comes between that and the end |
| CfgEnds.KnownEnds | components/codec_board/cfg_parse.c:551-570 | an unclosed first line of a known type ends in a refusal after three passes at most |
| CfgEnds.UnclosedHangs | components/codec_board/cfg_parse.c:551-570 | any type but "Board" with an open brace and no closing one: it hangs exactly if the type is unknown, and is refused otherwise |
| CfgEnds.MissingBraceFaults | components/codec_board/cfg_parse.c:145-148 | any word with no '{' behind it sends the search beyond the memory |
| CfgEnds.UnclosedOverruns | components/codec_board/cfg_parse.c:551-570 | an unclosed line behind a longer one is skipped beyond the end exactly if both are accepted, and one of them is refused otherwise |
| CfgParseLoops.StrLen | components/codec_board/cfg_parse.c:77-85 | the length of the word at a pointer |
| CfgParseLoops.StrSameAt | components/codec_board/cfg_parse.c:29-41 | equality up to the end of a word, reading no byte beyond the terminator |
| CfgParseLoops.PrintCfgLine | components/codec_board/cfg_parse.c:87-99 | the printed line |
| CfgParseLoops.ParseSectionAt | components/codec_board/cfg_parse.c:114-183 | the loops over pointers find the section that ParsePrinted speaks of, and set `*consume` only for a closed line |
| CfgParseLoops.CodecSection.FillCodec | components/codec_board/cfg_parse.c:390-426 | the attribute loop of a codec: refused exactly for a full section or an attribute that names a missing port or an unknown codec, and counted otherwise |
| CfgParseLoops.CodecSection.FillCfg | components/codec_board/cfg_parse.c:512-549 | the counters of the section behind a line, unchanged by a refused one |
| CfgParseLoops.ParseCfgAt | components/codec_board/cfg_parse.c:551-570 | the loop finds the lines and the end that the theorems speak of, filling the section, and prints exactly those lines, a refused one included |
| ColorConvert.PackedFields | components/av_render/src/color_convert.c:40-40 | the three fields of a pixel are the leading bits of the three colours |
| ColorConvert.BigIsSwapped | components/av_render/src/color_convert.c:63-84 | the big-endian table is the byte swap of the other, and back |
| ColorConvert.GreenCoupling | components/av_render/src/color_convert.c:66-75 | the joint error of luma and u in the green, smaller than the two separate ones because they share low bits |
| ColorConvert.TableError | components/av_render/src/color_convert.c:34-40 | for all bytes the table's red, green and blue are within 15, 11 and 18 of the formula's |
| ColorConvert.FormulaNear | components/av_render/src/color_convert.c:34-39 | for all bytes the formula is within 0.8 of the conversion of ITU-R BT.601 in real numbers, limited to 0 to 255 |
| ColorConvert.ExactColours | components/av_render/src/color_convert.c:34-39 | black, white and pure red come out as such by the formula |
| ColorConvert.TableColours | components/av_render/src/color_convert.c:61-104 | the table's white is white, and its black has a trace of blue |
| ColorConvert.EntryStandsFor | components/av_render/src/color_convert.c:66-71 | an entry stands for bytes with its index in the leading bits; the low bits of luma and v repeat those of their own index, those of u the luma's |
| ColorConvert.RedIsTight | components/av_render/src/color_convert.c:37-37 | the bound for red is reached |
| ColorConvert.GreenIsTight | components/av_render/src/color_convert.c:38-38 | the bound for green is reached |
| ColorConvert.BlueIsTight | components/av_render/src/color_convert.c:39-39 | the bound for blue is reached |
| ColorConvert.IndexBijective | components/av_render/src/color_convert.c:66-68 | every index of the table belongs to exactly one triple |
| ColorConvert.InFrame | components/av_render/src/color_convert.c:151-180 | all three planes are read within the frame |
| ColorConvert.PlanesRead | components/av_render/src/color_convert.c:151-180 | in a frame made of luma, U and V planes in that order each pixel takes its own luma and the U and V of its block of four |
| ColorConvert.LastVWithin | components/av_render/src/color_convert.c:151-180 | the last V that the loops read, for any size, lies within the source exactly for the sizes that fit |
| ColorConvert.ThreeByThree | components/av_render/src/color_convert.c:151-180 | a size for which it does not |
| ColorConvertObject.Converter.InitTable | components/av_render/src/color_convert.c:61-104 | the nested loops fill every entry of the table, in either byte order |
| ColorConvertObject.Converter.Yuv420ToRgb565 | components/av_render/src/color_convert.c:151-180 | for any size: the loops, stopped in front of the first access beyond a buffer, come to their end exactly if the width is even and the height even or the width two, or there are no pixels; then every pixel is the table entry for its own luma and its block's chroma, and nothing behind the frame is written |
| ColorConvertObject.Converter.DoneMeans | components/av_render/src/color_convert.c:151-180 | the same in rows and columns: output i * width + j |
| ColorConvertObject.Converter.Convert | components/av_render/src/color_convert.c:182-216 | for any size: converts, refuses a wrong size or format without writing, goes beyond a buffer exactly for the sizes that do not fit, or traps on a wrong source format |
| AudioResample.PlanIsNeeded | components/av_render/src/audio_resample.c:59-83 | at most three operations, each once and exactly where the formats differ |
| AudioResample.PlanArrives | components/av_render/src/audio_resample.c:59-83 | the plan ends in the output format |
| AudioResample.PlanOrdered | components/av_render/src/audio_resample.c:59-83 | narrowing comes in front of the rate conversion, channels before bits, and widening behind it, bits before channels |
| AudioResample.PlanBack | components/av_render/src/audio_resample.c:59-83 | the plan for the way back is the plan reversed |
| AudioResample.RateIsCheapest | components/av_render/src/audio_resample.c:59-83 | the rate conversion runs on the smaller number of channels and of bits |
| AudioResample.NoCheaperOrder | components/av_render/src/audio_resample.c:59-83 | no other sequence of operations lets it run on less |
| AudioResample.NeedSuffices | components/av_render/src/audio_resample.c:111-126 | the size asked for holds what each converter makes, and is exact, for the rate conversion if it makes as much as it may |
| AudioResampleObject.Resampler.Open | components/av_render/src/audio_resample.c:128-191 | succeeds exactly if all planned converters open, each with the formats that a write will have around it |
| AudioResampleObject.Resampler.AllocWorkBuf | components/av_render/src/audio_resample.c:85-102 | a free buffer of at least the size, the other one untouched; fails only if both are used or memory is refused |
| AudioResampleObject.Resampler.Write | components/av_render/src/audio_resample.c:193-241 | delivers the composition of the planned conversions; two buffers always suffice, source and destination differ, both are free again, and only refused memory makes it fail |
| PoolOwnership.StepKeepsInv | components/av_render/src/av_render.c:388-411 | every step keeps each submitted buffer in exactly one place: freed, queued, in hand or abandoned |
| PoolOwnership.FreedExactlyOnce | components/av_render/src/av_render.c:1546-1595 | in every run so; and behind the thread's end each was freed exactly once, exactly unless one was queued by value under a pool or behind the thread's end |
| PoolOwnership.ThreadExits | components/av_render/src/av_render.c:828-882 | once on its way out the thread is gone some time in every endless run in which it goes on, whatever a submitter does |
| PoolOwnership.ExitAdvances | components/av_render/src/av_render.c:828-882 | on its way out each step of the thread brings its end closer, and no step of a submitter puts it off |
| PoolOwnership.ExitGoesOn | components/av_render/src/av_render.c:828-838 | and it always has a step to take |
| PoolOwnership.PacketsInOrder | components/av_render/src/av_render.c:1577-1583 | in every run each packet that is submitted while a thread is there and not on its way out, and that the queue takes, is dealt with by the thread once and in order, or still queued |
| PoolOwnership.EosStops | components/av_render/src/av_render.c:404-411 | behind the packet that ends a stream the thread pauses: in every run it takes no step and what is queued stays queued until it is resumed, flushed or closed; configured to quit, it is on its way out instead and is never back |
| PoolOwnership.OthersGoOn | components/av_render/src/av_render.c:867-873 | behind any other packet it takes the next one at once, unless it was paused |
| PoolOwnership.FlushedEos | components/av_render/src/av_render.c:828-838 | a flush pauses the thread at the end of a stream exactly if it reads the packets, which it does with a pool |
| PoolOwnership.PauseHolds | components/av_render/src/av_render.c:858-866 | from a pause to the next resume, flush or close the thread takes no step in any run, and what is queued stays queued |
| PoolOwnership.ResumeGoesOn | components/av_render/src/av_render.c:862-868 | resumed, it takes the oldest packet to decode it |
| PoolOwnership.FlushEmpties | components/av_render/src/av_render.c:828-856 | a flush decodes nothing in any run, ends only with an empty queue, and brings the thread back to its messages |
| PoolOwnership.CloseExits | components/av_render/src/av_render.c:848-882 | from a close on the thread is on its way out in every run and never back at its messages |

## Left out

- FreeRTOS, UART, I2S, LCD, NVS, mbedTLS, libsrtp, modem commands, codecs and esp_ae: foreign code, met only as steps or as functions with the contract their caller relies on.
- Logging, console, GPIO, OTA, Wi-Fi and 4G bring-up, MQTT signalling, the hex and base64 codecs: they would add only easy members.
- Data queue: one writer, one reader and one waker; commits no larger than the reservation; no `consume_all` while a read lock is held. Allocation failures in `data_queue_init` are not modelled.
- Peer connection: `esp_peer_main_loop` is one opaque step, the controller's calls run one at a time, and the SEND_QUIT handshake of the media sender is not modelled.
- WebSocket: 64-bit lengths are natural numbers, so the overflow of header plus length is not modelled; reserved bits are ignored as the code does; callbacks are taken to be installed, TCP takes what it is given, and random masks are parameters.
- HTTP: connection setup, requests, timeouts and what follows a refused line; `total_body_received_` and the chunk counters are natural numbers; bytes beyond a counted body stay in the buffer as in the code and nothing is said about them. The header map keeps only values, not the original spelling of names.
- HttpChunks.CutInvisible: speaks of runs without the error event, because the parser does not consume what follows a refused line while the byte machine does, and is one direction; HttpHead.UnnoticedCut asks for one such run only, and HttpHead.CutInvisibleExactly is the exact condition over all that may follow.
- HttpHead.HeaderRead: names and values are taken to be without blanks or line ends around them; HttpHead.HeaderTrimmed has the others.
- HttpHead.CountedResponse: bytes beyond an announced length are not covered.
- HttpHead.ChunkedCutShort: a connection lost behind a cut that has separated such a CRLF may pass for a regular end, because the parser may have reached COMPLETE; when it does is not stated.
- DataQueueRuns.TestDecides: the reservation of the one writer is no queued block, so it speaks of tests by a writer that holds none.
- BodyQueueRuns.EveryRun: covers one request on one connection, so nothing reconnects during a run; ReadAll is not modelled.
- BodyQueueRuns.AdmittedInTheEnd: gives one schedule, with a bound on its steps; BodyQueueWakeUps.FairlyAdmitted covers all fair ones without a bound.
- BodyQueueRuns.NoLostWakeUp: says of one run what may have robbed the receiver; BodyQueueWakeUps.WakeUpsLostOnlyBy gives the exact condition over sets of runs.
- BodyQueueRuns.ReadWithoutRoomStrands: is one step from any state; BodyQueueWakeUps.ReadStrands is the run from the start.
- Memory history: one logger at a time, as the tracer's mutex ensures; a stop before the saving thread has started, and failing writes to the file, are not modelled.
- MemHistoryRuns.FileDecodes: speaks of runs in which nothing is logged behind the request to stop; records logged later may be lost.
- Memory trace: usage by module, stack frames, the trap on size 860, and 32-bit wrap-around of the totals are not modelled.
- MemTrace.TableIsHeap: takes the allocator's answer and the table's update as one step; MemTraceRace has what comes between them.
- MemTraceRace.RaceExactly: one realloc at a time is in between its halves; the operations of the other threads are whole.
- MemTrace.RaceHeals: is the run of one step; MemTraceRace.RaceExactly has every run.
- MemHistoryObject.History.HisWrite: a whole turn of the saving thread stands where the source sleeps; MemHistoryRuns has every interleaving.
- Board configuration: of filling the section only what decides a refusal is modelled, the counters and the attributes of codecs; pins and other fields, numbers beyond the range of int, failing allocations, and the search for a section by name are not. A parse that would run on for ever or beyond its memory ends in an outcome that says so.
- Colour conversion: the ESP32-P4 path calls an assembly routine that is not part of this model, and the destination is an array of 16-bit pixels. Products of width and height are taken not to overflow.
- Resampler: the contents that converters produce are arbitrary functions of their input; sizes are natural numbers.
- Pool ownership: one decoder thread and one submitter, one stream, on the audio side; the video thread frees by the same copy of the pool flag but decides by `pool_free` itself how to read a packet, which is not modelled; restarting a stream on the same queue and the wake-up packets of `send_msg_to_thread` are not modelled. Flush completion bits and A/V synchronisation are left out because they depend on overwritten bits and on time.
- The UDP connection cache of `main/ml307_udp_socket.cc`: it would add only a size bound.
