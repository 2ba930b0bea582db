# cnproc-rs in Dafny

This is a model of `PidMonitor`, the Rust library type that subscribes to the
Linux process-events connector and hands out fork, exec, exit and coredump
notifications as `PidEvent` values. The model follows `src/lib.rs` and covers:

- the netlink alignment helpers;
- the wire layout of `nlmsghdr`, `cn_msg` and `proc_event`;
- `parse_msg`;
- the frame walk inside `get_events`;
- the receive loop of `get_events` and `recv`;
- the subscription request of `listen`;
- `from_id`.

The model is split into five modules:

- `Wire` (wire.dfy): unsigned and signed 32-bit fields in host (little-endian) byte order, read at any offset of a byte sequence. Struct contents are written as runs of words.
- `Netlink` (netlink.dfy): `nlmsg_align`, `nlmsg_hdrlen`, `nlmsg_length` and the netlink header.
- `ProcConnector` (proc_connector.dfy): the connector envelope, `proc_event`, `PidEvent` and `parse_msg` (`ParseMsg`). It also has an encoder that lays out a process-event message as the kernel's connector does, for any sequence number, cpu and timestamp. The encoder makes round trips possible.
- `FrameWalk` (frame_walk.dfy): two forms of the frame walk.
  - `Frames`/`Events` is the walk the code evidently intends: the NLMSG_OK / NLMSG_NEXT discipline of `linux/netlink.h`.
  - `SourceIteration`/`SourceRun` is the loop as written. It is used to exhibit the findings below.
- `Monitor` (monitor.dfy): the `Socket` class and the `PidMonitor` class.
  - `PidMonitor` has the fields `id`, `sock` and `queue`, and the methods `FromId`, `Listen`, `WalkFrames`, `GetEvents` and `Recv`.
  - The functional specifications `GetEventsSpec` and `Poll` sit beside the class, with the lemmas about them.

The kernel is modelled by the `Socket` object. When a Socket is made, it fixes:

- whether `bind`, `setsockopt` and `writev` succeed;
- the sequence `incoming` of deliveries that successive `recv` calls would return: a datagram's bytes, or an error.

`Socket` records what the library did to it: the address it was bound to, whether NETLINK_NO_ENOBUFS was set, the datagrams sent, and whether it was closed. When `incoming` is exhausted, a real `recv` would block. The model then ends `get_events` with the outcome `Blocked`, and `Recv` returns None.

The receive buffer is a `Vec<u32>` of min(page size, 8192) words, so it holds 4 * min(page size, 8192) bytes, and `recv` is given all of them (`BufferBytes`). The page size is a parameter of `GetEvents` and `Recv`, not a call to `sysconf`.

Three behaviours of the code shape the model:

- `get_events` receives again for as long as the queue stays empty (line 165). A single `recv` can therefore consume several deliveries.
- When `bind` fails, `from_id` returns before a `PidMonitor` exists, so the descriptor is never closed (lines 89-98). This is listed under Findings.
- When `listen` fails, the new monitor is dropped, and dropping it closes the descriptor (lines 104 and 279-283).

The `PidMonitor` class runs the corrected walk (`Events`). The as-written loop is modelled separately, in `FrameWalk.SourceIteration`. The two agree on any datagram in which every frame the loop reaches is a data frame holding a whole 76-byte message, whatever its namespace and discriminant (`SourceRunPlain`). That covers a single connector message of the kernel's layout, such as the kernel's acknowledgement of the listen request, with discriminant 0 and cn_msg.ack 1 (`ConnectorMsgAgrees`), and any run of process-event messages (`SourceRunOfDataFrames`). They can part ways only where the loop reaches a control frame or a frame declaring fewer than 76 bytes.

## Model

| member | source | states |
|---|---|---|
| `Netlink.NlmsgAlign` | src/lib.rs:13-15 | the result is a multiple of four, at least len and less than len + 4 |
| `Netlink.NlmsgAlignUsize` | src/lib.rs:13-15 | the source's `(len + 3) & !3` on a 64-bit usize: the rounding up to four below the top three values, 0 above, as a release build wraps (a debug build panics on the overflow; no u32-derived length reaches it) |
| `Netlink.NlmsgAlignIdempotent` | src/lib.rs:13-15 | aligning an aligned length changes nothing |
| `Netlink.NlmsgAlignLeast` | src/lib.rs:13-15 | the aligned length is the least multiple of four not below len |
| `Netlink.NlmsgHdrlen` | src/lib.rs:17-20 | the header length is 16 bytes and already aligned |
| `Netlink.NlmsgLength` | src/lib.rs:22-25 | the length is the payload plus one header, and padding it equals padding the payload plus a header |
| `Netlink.NlMsgHdrRoundTrip` | src/lib.rs:125-131 | a netlink header written in front of any payload reads back field for field |
| `Wire.AsU32` | src/lib.rs:29-55 | the pid/tgid fields travel as the two's-complement pattern of the i32: reading the pattern as signed gives the value back |
| `Wire.AsU32AsI32` | src/lib.rs:29-55 | reading a word as signed and writing it back gives the same word |
| `ProcConnector.DecodeProcEvent` | src/lib.rs:226-276 | the match on proc_ev.what over the copied proc_event: None exactly for an unknown discriminant, otherwise a variant whose discriminant is `what` (fields: `DecodeProcEventCases`) |
| `ProcConnector.ParseMsg` | src/lib.rs:219-277 | parse_msg: an event only for a message of the process-event namespace, and the event's discriminant is the message's `what` word (the full characterisation is `ParseMsgCases`) |
| `ProcConnector.DecodeProcEventCases` | src/lib.rs:226-276 | the match on `what` gives None exactly for an unknown discriminant, otherwise the variant it names, with each field taken from the matching union word |
| `ProcConnector.ParseMsgCases` | src/lib.rs:219-277 | parse_msg is None exactly when cn_msg.id is not (CN_IDX_PROC, CN_VAL_PROC) or `what` is unknown; otherwise the variant's discriminant is `what` and each field is the matching word of the union |
| `ProcConnector.ParseMsgRoundTrip` | src/lib.rs:219-277 | decoding the 76-byte process-event message for any event gives that event back, whatever the sequence number, cn_msg.ack, cpu and timestamp |
| `ProcConnector.ParseMsgForeign` | src/lib.rs:220-223 | a message with either namespace word different from 1 decodes to None |
| `ProcConnector.ParseMsgUnknownWhat` | src/lib.rs:275 | a process-event message whose `what` is none of fork, exec, exit and coredump decodes to None |
| `ProcConnector.ParseMsgShift` | src/lib.rs:220-225 | parse_msg reads only from the header on: bytes before the header do not change its result |
| `ProcConnector.ParseMsgPrefix` | src/lib.rs:220-225 | parse_msg reads at most 76 bytes from the header: bytes after them do not change its result |
| `ProcConnector.EncodedMsg` | src/lib.rs:220-225 | the cn_msg id words and the proc_event copy of an encoded message read back as the words encoded |
| `FrameWalk.FrameEvent` | src/lib.rs:185-193 | a frame yields an event only when it is not NLMSG_NOOP/NLMSG_ERROR and holds a whole process-event message |
| `FrameWalk.Events` | src/lib.rs:174-201 | the events of the intended walk from off; every event needs a whole 76-byte frame of its own, so k events need 76 * k bytes (the order is `EventsAreFrameEvents`) |
| `FrameWalk.Frames` | src/lib.rs:176-201 | the walk visits only frames that pass NLMSG_OK, starting at the cursor, each next one exactly NLMSG_ALIGN(msg_len) after the previous, and stops at the first offset that fails or past the end |
| `FrameWalk.EventsAreFrameEvents` | src/lib.rs:174-201 | the events of a pass are the decodings of exactly the frames `Frames` lists, in wire order |
| `FrameWalk.EventsStep` | src/lib.rs:194-200 | a step of the walk pushes the frame's event ahead of those of the frames after it |
| `FrameWalk.FrameShift` | src/lib.rs:176-193 | a frame reads the same wherever it sits in the datagram |
| `FrameWalk.HeaderShift` | src/lib.rs:181-185 | msg_len and msg_type do not depend on bytes before the header |
| `FrameWalk.HeaderPrefix` | src/lib.rs:181-185 | msg_len and msg_type do not depend on bytes after the header |
| `FrameWalk.FrameAtFront` | src/lib.rs:176-196 | a whole padded frame in front of any bytes passes NLMSG_OK, decodes as on its own, and the walk steps just past it |
| `FrameWalk.FrameAt` | src/lib.rs:176-196 | the same for a frame at any offset inside the datagram |
| `FrameWalk.ProcMsgIsFrame` | src/lib.rs:176-193 | the process-event message for an event, under any stamp, is one whole NLMSG_DONE frame of 76 bytes that decodes to that event |
| `FrameWalk.DataFrameAt` | src/lib.rs:176-200 | at a data frame both the intended walk and one pass of the source's loop decode it and move 76 bytes on |
| `FrameWalk.EventsOfDataFrames` | src/lib.rs:174-201 | the walk over back-to-back data frames yields their events in order |
| `FrameWalk.ProcMsgsAreDataFrames` | src/lib.rs:174-201 | process-event messages for a list of events, each under its own stamp, back to back, are one data frame per event |
| `FrameWalk.EventsOfProcMsgs` | src/lib.rs:174-201 | walking a datagram of process-event messages for evs, each under its own stamp, yields exactly evs, in order |
| `FrameWalk.ForeignFrameSkipped` | src/lib.rs:220-223 | any frame whose cn_msg id is not (CN_IDX_PROC, CN_VAL_PROC), of any length and layout, yields nothing, and the walk goes on at the next frame (or ends where the padded frame runs past the received bytes) |
| `FrameWalk.ForeignMsgSkipped` | src/lib.rs:220-223 | a 76-byte message of the process-event layout for another namespace, in front of any bytes, yields nothing, and the walk continues right behind it |
| `FrameWalk.UnknownWhatSkipped` | src/lib.rs:275 | any frame that passes NLMSG_OK and holds a whole message whose discriminant is none of fork, exec, exit and coredump yields nothing, whatever its namespace and header fields, and the walk goes on at the next frame (or ends where the padded frame runs past the received bytes) |
| `FrameWalk.UnknownWhatMsgSkipped` | src/lib.rs:275 | the 76-byte process-event message of the kernel's layout with an unknown discriminant, in front of any bytes, yields nothing, and the walk continues right behind it |
| `FrameWalk.ControlFrameSkipped` | src/lib.rs:187 | corrected: any NLMSG_NOOP or NLMSG_ERROR frame that passes NLMSG_OK, whatever its payload (an NLMSG_ERROR frame carries a struct nlmsgerr), yields nothing, and the walk goes on at the next frame (or ends where the padded frame runs past the received bytes) |
| `FrameWalk.ControlHeaderSkipped` | src/lib.rs:187 | corrected: a bare 16-byte NLMSG_NOOP or NLMSG_ERROR header in front of any bytes yields nothing, and the walk moves right past it |
| `FrameWalk.SourceIteration` | src/lib.rs:176-200 | one pass of the loop as written: when it goes on, the cursor and the remaining length still add up to the bytes received |
| `FrameWalk.SourceRun` | src/lib.rs:176-201 | at most fuel passes of the loop as written; each pass pushes at most one event, so a finished run has at most fuel events |
| `FrameWalk.ControlFrameSpins` | src/lib.rs:187 | as written: on a control frame the loop is still running after any number of passes |
| `FrameWalk.ZeroLengthFrameSpins` | src/lib.rs:178-184 | as written: a data frame declaring length 0 is decoded again at the same place, and the loop never ends |
| `FrameWalk.ShortFrameOverreads` | src/lib.rs:220-225 | as written: a datagram holding only a data header with msg_len at most 16 makes parse_msg read past the received bytes, while the intended walk yields nothing |
| `FrameWalk.SourceIterationAgrees` | src/lib.rs:176-200 | on a data frame holding a whole message, a pass of the loop as written does what one step of the intended walk does |
| `FrameWalk.SourceIterationShift` | src/lib.rs:176-200 | a pass of the loop as written over a frame is the same wherever the frame sits |
| `FrameWalk.SourceRunPlain` | src/lib.rs:176-201 | where every frame the loop reaches is a non-control frame holding a whole message, the loop as written ends and yields exactly the intended walk's events |
| `FrameWalk.SourceRunPlainLast` | src/lib.rs:178-200 | the last pass of such a run, where NLMSG_OK fails or the padded frame runs past the end, yields what the intended walk yields there |
| `FrameWalk.SourceRunPlainStep` | src/lib.rs:186-200 | a pass over such a frame followed by the rest of the run yields the frame's event ahead of the rest, as the intended walk does |
| `FrameWalk.ConnectorMsgAgrees` | src/lib.rs:174-201 | on a datagram of one connector message of any namespace and discriminant, the kernel's acknowledgement of the listen request (discriminant 0, cn_msg.ack 1) among them, whatever the sequence number, ack, cpu and timestamp, the loop as written ends and agrees with the intended walk |
| `FrameWalk.SourceRunOfDataFrames` | src/lib.rs:174-201 | on back-to-back data frames the loop as written ends and yields exactly their events |
| `Monitor.CopyPrefix` | src/lib.rs:166 | what fits of the datagram is copied to the front of the buffer and the rest of the buffer is unchanged |
| `Monitor.BufferBytes` | src/lib.rs:159-166 | the receive size is a whole number of words, at most 4 * 8192 bytes |
| `Monitor.Socket.constructor` | src/lib.rs:75-83 | a new socket is unbound, with no option set, nothing sent and not closed |
| `Monitor.Socket.Bind` | src/lib.rs:84-98 | bind succeeds as the kernel decides and on success records the address; nothing else changes |
| `Monitor.Socket.SetNoEnobufs` | src/lib.rs:110-122 | setsockopt succeeds as the kernel decides and on success sets NETLINK_NO_ENOBUFS; nothing else changes |
| `Monitor.Socket.Writev` | src/lib.rs:150-154 | writev succeeds as the kernel decides and on success sends the iovec parts as one datagram; nothing else changes |
| `Monitor.Socket.Receive` | src/lib.rs:166-169 | recv takes the next delivery: an error, or a datagram copied to the front of the buffer and cut to its length; with no delivery left it blocks |
| `Monitor.Socket.Close` | src/lib.rs:279-283 | close marks the socket closed and changes nothing else |
| `Monitor.GetEventsSpec` | src/lib.rs:165-202 | get_events over the deliveries: it never consumes more deliveries than there are, and ends with Err or Blocked only on an empty queue (what it appends is `GetEventsAppends`, when it stops is `GetEventsRetries`) |
| `Monitor.Poll` | src/lib.rs:207-216 | recv over the queue and deliveries: it consumes at most the deliveries there are, and returns None only when nothing is left queued (the order is `PollLosesNothing`) |
| `Monitor.PassEventsSplit` | src/lib.rs:165-202 | the events of several receive passes are those of the first followed by those of the rest |
| `Monitor.GetEventsAppends` | src/lib.rs:165-202 | get_events consumes a prefix of the deliveries and appends what those passes decode, in wire order, behind the queue |
| `Monitor.GetEventsRetries` | src/lib.rs:165-202 | from an empty queue, get_events receives again exactly after datagrams that decode to nothing; it stops with Err on an error, with Ok on a zero-length receive or a datagram that yields an event, and with Blocked on having consumed all; Err and Blocked leave the queue empty |
| `Monitor.PollQueued` | src/lib.rs:213-215 | with events queued, recv returns the head, keeps the rest in order and makes no receive |
| `Monitor.PollLosesNothing` | src/lib.rs:207-216 | from an empty queue, the event recv returns followed by what it leaves queued is exactly what its receives decoded, in wire order |
| `Monitor.PollError` | src/lib.rs:209-211 | a receive error makes recv return None with an empty queue |
| `Monitor.PollZeroLength` | src/lib.rs:170-172 | a zero-length receive makes recv return None with an empty queue |
| `Monitor.PollKernelBatch` | src/lib.rs:207-216 | a datagram of process-event messages for evs, each under its own stamp, that fits the buffer makes recv return the first event and queue the others in order, after one receive |
| `Monitor.ListenIov` | src/lib.rs:123-149 | the three iovec parts of listen, of sizeof(nlmsghdr) = 16, sizeof(cn_msg) = 20 and sizeof(proc_cn_mcast_op) = 4 bytes |
| `Monitor.ListenRequest` | src/lib.rs:123-149 | the request listen sends, NLMSG_LENGTH(24) = 40 bytes long (its fields are `ListenRequestWellFormed`) |
| `Monitor.ListenIovIsRequest` | src/lib.rs:123-150 | the three iovec parts sent together are the single 40-byte request |
| `Monitor.ListenRequestWellFormed` | src/lib.rs:123-149 | the request is one whole netlink frame of NLMSG_LENGTH(24) = 40 bytes, type NLMSG_DONE, port id = id, cn_msg id (1, 1), cn_msg len 4, and payload PROC_CN_MCAST_LISTEN = 1 |
| `Monitor.PidMonitor.constructor` | src/lib.rs:99-103 | a new monitor has the given id and socket and an empty queue |
| `Monitor.PidMonitor.FromId` | src/lib.rs:74-106 | binds to (id, CN_IDX_PROC), then listens; a failed bind returns an error with the socket left as it was; a failed listen returns an error with the socket closed; success returns a fresh monitor with an empty queue, the socket bound and subscribed |
| `Monitor.PidMonitor.FromIdReleasing` | src/lib.rs:74-106 | corrected from_id: the same steps, but a failed bind closes the descriptor too, so every failure returns None with the socket closed, and success returns a fresh monitor exactly when bind, setsockopt and writev all succeed |
| `Monitor.PidMonitor.Listen` | src/lib.rs:109-155 | sets NETLINK_NO_ENOBUFS and only then sends the 40-byte subscription request; it succeeds exactly when both calls do |
| `Monitor.PidMonitor.WalkFrames` | src/lib.rs:174-201 | after the walk the queue is the old queue followed by the events of the received bytes, in wire order |
| `Monitor.PidMonitor.WalkFrame` | src/lib.rs:176-200 | one pass of the walk: what is queued plus what remains to walk is unchanged, and the walk either ends or moves forward |
| `Monitor.PidMonitor.GetEvents` | src/lib.rs:158-204 | the outcome, the new queue and the remaining deliveries are those of GetEventsSpec, and the socket is otherwise unchanged |
| `Monitor.PidMonitor.PopFront` | src/lib.rs:210 | the queue's head is removed and returned, or None on an empty queue |
| `Monitor.PidMonitor.Recv` | src/lib.rs:207-216 | the returned event, the new queue and the remaining deliveries are those of Poll, and the socket is otherwise unchanged |
| `Monitor.WalkNext` | src/lib.rs:194-200 | queueing a frame's event and stepping to the next frame keeps queued-plus-remaining unchanged |
| `Monitor.WalkStops` | src/lib.rs:177-184 | where NLMSG_OK fails nothing remains to walk |
| `Monitor.WalkLast` | src/lib.rs:197-199 | once the last frame's event is queued, nothing remains to walk |

## Left out

- Socket creation (`libc::socket`, lines 75-83), `bind`, `setsockopt`, `writev`, `recv` and `close` are foreign calls. The `Socket` class stands in for them, and its outcomes are fixed when it is made. A failed `socket` call is not checked by the source either: it shows up as a failed `bind`.
- `PidMonitor::new` (lines 68-70) reads the process id. It is `FromId` given that id.
- `sysconf(_SC_PAGE_SIZE)` (line 159) is the `pageSize` parameter.
- `Drop` (lines 279-283) appears only where `from_id` drops a monitor whose `listen` failed (`Socket.Close`). Dropping a monitor the caller owns lies outside the library's code paths modelled here.
- Blocking: an exhausted `incoming` stands for a receive that would block forever. The model returns `Blocked` there instead of not returning.
- A datagram cut to the buffer size is modelled as its front part. Nothing tells the library that it was cut, and the model does not either.
- The `errno` carried by an `Err` (`Error::last_os_error`) is not modelled. Only the fact that an error occurred is.
- Process-event kinds other than fork, exec, exit and coredump (uid, gid, sid, ptrace, comm, none) are modelled only through `what`. Their payloads are never read.
- `cpu` and `timestamp_ns` are read by `read_unaligned` but never used. The model reads them as words and ignores them.
- `src/binding.rs` is not part of this model: its layout constants are written out in `ProcConnector` and `Netlink`.
- The example program `examples/proc_watch.rs` is not part of this model.
- Monitor.PidMonitor.WalkFrames: runs the intended walk, not the loop as written; the loop as written is `FrameWalk.SourceIteration`, see Findings.
- Monitor.PidMonitor.WalkFrame: the loop body of `WalkFrames`, one pass of the intended walk: a control frame advances, a declared length below a header stops the walk, and a frame under 76 bytes is not decoded; the pass as written is `FrameWalk.SourceIteration`.
- FrameWalk.ControlFrameSpins: the endless loop is stated through a fuel bound, as a run that is `Unfinished` for every fuel.
- FrameWalk.ZeroLengthFrameSpins: the endless loop is stated the same way, through a fuel bound.
- Unaligned and aliased pointer access (`*const nlmsghdr` into the buffer) is modelled as offset reads on the received bytes.

## Findings

| source | as written | input that shows it | evidently intended | confidence | as-written member | corrected member |
|---|---|---|---|---|---|---|
| src/lib.rs:187 | `continue` on NLMSG_ERROR or NLMSG_NOOP moves neither the header pointer nor the remaining length, so the loop runs forever | a datagram holding one 16-byte header with nlmsg_len 16 and nlmsg_type NLMSG_NOOP (1) | skip the control frame and go on at NLMSG_NEXT | not executed | `FrameWalk.ControlFrameSpins` | `FrameWalk.ControlFrameSkipped` |
| src/lib.rs:178-184 | NLMSG_OK is missing the `nlmsg_len >= NLMSG_HDRLEN` test; a frame declaring length 0 is aligned to 0, so the loop parses the same frame forever | a 76-byte datagram whose header says nlmsg_len 0, nlmsg_type NLMSG_DONE (3) | stop the walk at a frame whose declared length is shorter than a header | not executed | `FrameWalk.ZeroLengthFrameSpins` | `FrameWalk.Frames` |
| src/lib.rs:89-98 | a failed bind returns the error before a `PidMonitor` owns the descriptor, so nothing closes it | any `from_id` call whose bind fails, for example without the privilege to join the process-event group | close the descriptor on every failure, as the failed-listen path does through Drop | not executed | `Monitor.PidMonitor.FromId` | `Monitor.PidMonitor.FromIdReleasing` |
| src/lib.rs:220-225 | parse_msg reads cn_msg.id and the whole 40-byte proc_event whatever the frame's declared length, past the received bytes on a short frame | a 16-byte datagram holding one header with nlmsg_len 16 and nlmsg_type NLMSG_DONE | decode only frames whose declared length covers a whole process-event message (76 bytes) | not executed | `FrameWalk.ShortFrameOverreads` | `FrameWalk.FrameEvent` |
