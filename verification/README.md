# superman worker core, modelled in Dafny

This project models the core of a Gearman worker: the packet codecs it speaks
with the job server, and the small sequential state machines built on them.

- **Two codec generations.** Both use the same 12-byte header: the big-endian
  magic `\0REQ` (0x00524551) or `\0RES` (0x00524553), a big-endian type and a
  big-endian body length.
  - The newer codec (`src/protocols/gearman.rs`) treats NUL-delimited fields
    as C strings. The encoder appends each terminator and the decoder drops it.
    A field that holds a 0 byte cannot be encoded.
  - The older codec (`src/packet.rs`) keeps each field's terminator: it reads
    up to and including the first 0 byte, and it writes fields verbatim.
  - Both decoders are total functions over `seq<byte>`. They return a parsed
    packet with the unread rest, or an error: `Incomplete` ("not enough data")
    or `Malformed` (any other parse error).
- **The read loops** of the newer reader (`src/state/reader.rs`) and the older
  one (`src/worker/reader.rs`). Each read appends its bytes to a buffer. The
  parse loop then decodes packets until the buffer is empty or a decode fails,
  keeping the unread rest. It forwards every job assignment. A Noop asks for
  work (GrabJobUniq) only while the load is below the concurrency. Anything
  else is ignored.
  - The loop is one generic definition over a decoder function. It is
    instantiated with each codec, whose laws (nothing lost, nothing invented,
    more input never changes an earlier verdict) are proved.
- **The assignee** (`src/state/assignee.rs`):
  - the function-name check;
  - the load accounting (increment on accept, decrement when an order ends);
  - PreSleep while the load is below the concurrency.
- **The writer** (`src/state/writer.rs`): in-order forwarding, CantDo written
  exactly once, and `Request::send`.
- **Orders** (`src/state/order.rs`):
  - construction, argv and working directory;
  - the mapping from the executor's outcome to a WorkException or to nothing.
- **The older stub assignee** (`src/worker/assignee.rs`), which answers every
  job with a fixed WorkComplete.

Files, by module:

- `bytes.dfy`, `utf8.dfy`: bytes, 32-bit words, NUL trimming, decimal text,
  UTF-8 validity.
- `messages.dfy`, `layout.dfy`, `wire.dfy`:
  - the packet datatypes;
  - the body layout of each type;
  - the header and the field readers.
- `gearman_codec.dfy`, `legacy_codec.dfy`: the two codecs.
- `codecs.dfy`: the two codecs as read-loop decoders, with their laws.
- `framing.dfy`, `read_loop.dfy`: the parse loop and the read loop.
- `state_reader.dfy`, `worker_reader.dfy`: the two reader tasks.
- `assignee.dfy`, `writer.dfy`, `order.dfy`, `stub_assignee.dfy`: the other
  tasks.

Things the model takes as inputs, because they are I/O, time or concurrency:

- the bytes and size of each read;
- read errors;
- the exit signal, as an event for the reader and, for the writer, a flag on
  each request taken;
- the load the reader sees with each read;
- the outcome of each order's process;
- the order in which deliveries and completions reach the assignee.

## Model

| member | source | states |
|---|---|---|
| GearmanCodec.RoundTrip | src/protocols/gearman.rs:5-51 | A packet built by `Packet::request`/`response` whose fields hold no 0 byte decodes from its encoding followed by any bytes `t` to itself, with exactly `t` left unread. |
| GearmanCodec.DecodeEncode | src/protocols/gearman.rs:87-159 | Whatever the decoder accepts is the encoding of the packet it returns followed by the unread rest; the decoded fields hold no 0 byte. |
| GearmanCodec.DecodeExtends | src/protocols/gearman.rs:199-226 | Appending bytes after a decodable prefix changes only the rest, and a malformed prefix stays malformed: the decoder never looks past its packet. |
| GearmanCodec.Decode | src/protocols/gearman.rs:5-26 | A decoded packet keeps a type equal to its payload's id and a 32-bit length; it used at least the 12 header bytes; fewer than 4 bytes are incomplete. |
| GearmanCodec.RequestPacket | src/protocols/gearman.rs:28-39 | `Packet::request` gives request magic and the request's own type number, and a length equal to the number of bytes after the header; the packet is well-formed whenever that length fits 32 bits. |
| GearmanCodec.ResponsePacket | src/protocols/gearman.rs:41-51 | `Packet::response` gives response magic and the response's own type number, and a length equal to the number of bytes after the header; the packet is well-formed whenever that length fits 32 bits. |
| GearmanCodec.NoopEncoding | src/protocols/gearman.rs:270-290 | A Noop encodes to exactly `\0RES`, type 6, length 0. |
| GearmanCodec.NoJobEncoding | src/protocols/gearman.rs:292-315 | A NoJob encodes to exactly `\0RES`, type 10, length 0. |
| GearmanCodec.JobAssignUniqLayout | src/protocols/gearman.rs:207-225 | The job-assignment body is handle, 0, name, 0, unique, 0, workload, and its length is the fields' total plus 3. |
| Layout.ShapeOfPayload | src/protocols/gearman.rs:87-175 | The type number `id()` gives every variant is the tag the decoder dispatches on, and the decoder rebuilds that variant from its own fields. |
| Messages.IdsDistinct | src/protocols/gearman.rs:161-175 | Request and response type numbers never collide. |
| Wire.HeaderRoundTrip | src/protocols/gearman.rs:78-85 | The header's three big-endian words read back as written, whatever follows. |
| LegacyCodec.RequestPacket | src/packet.rs:28-39 | The older `Packet::request` gives request magic, the request's type number and a length equal to the bytes after the header; with terminated fields and a 32-bit length it is well-formed. |
| LegacyCodec.ResponsePacket | src/packet.rs:41-52 | The same for the older `Packet::response`. |
| LegacyCodec.RoundTrip | src/packet.rs:4-53 | A packet whose delimited fields each end in their only 0 byte, with the derived type and length, decodes from its encoding followed by `t` to itself with `t` left. |
| LegacyCodec.DecodeIsCurrent | src/packet.rs:146-163 | On every input the older decoder reads the same packets as the newer one and consumes the same bytes, except that it keeps each field's terminator; both fail on the same inputs with the same error. |
| LegacyCodec.DecodeEncode | src/packet.rs:87-120 | Whatever the older decoder accepts re-encodes to exactly the bytes it was read from, and every field it read ends in a 0 byte. |
| LegacyCodec.DecodeExtends | src/packet.rs:4-25 | More input never changes a decoded packet or a malformed verdict of the older decoder. |
| LegacyCodec.BodyKeepNul | src/packet.rs:155-161 | The older body of a payload whose fields carry their terminators is the newer body of the bare payload. |
| LegacyCodec.NoopEncoding | src/packet.rs:195-215 | A Noop encodes to exactly `\0RES`, type 6, length 0. |
| LegacyCodec.NoJobEncoding | src/packet.rs:217-240 | A NoJob encodes to exactly `\0RES`, type 10, length 0. |
| LegacyCodec.JobAssignUniqLayout | src/packet.rs:153-163 | The job-assignment body is the three fields verbatim and then the workload, and its length is their total. |
| Codecs.CurrentLaws | src/protocols/gearman.rs:5-26 | The newer decoder always consumes bytes, never depends on bytes past its packet, reads exactly the encoding of what it returns, and reads back every well-formed packet. |
| Codecs.LegacyLaws | src/packet.rs:4-25 | The same four laws for the older decoder and its total encoder. |
| Codecs.GarbageMalformed | src/protocols/gearman.rs:78-85 | Four zero bytes are malformed for both codecs, whatever follows them. |
| Framing.SplitConsumes | src/state/reader.rs:42-52 | The parse loop neither loses nor invents bytes: the buffer is the encodings of the packets it parsed, followed by what it left. |
| Framing.SplitAppend | src/state/reader.rs:39-52 | Chunking does not matter: parsing `a + b` is parsing `a`, then parsing what `a` left followed by `b`. |
| Framing.SplitEncoded | src/state/reader.rs:42-52 | A stream of well-formed packets followed by an incomplete tail parses into exactly those packets and leaves the tail. |
| Framing.PrefixIncomplete | src/state/reader.rs:75-87 | A non-empty proper prefix of a well-formed packet is reported incomplete, never malformed. |
| Framing.MalformedStalls | src/state/reader.rs:75-97 | Once the buffer starts with a malformed packet, no packet is parsed, whatever bytes are appended. |
| Framing.JobsFaithful | src/state/reader.rs:54-56 | A response is forwarded exactly when it is a job assignment carried by one of the packets. |
| Framing.AsksCount | src/state/reader.rs:57-71 | Each Noop asks for work exactly once when the load is below the concurrency, and never otherwise; no other packet asks. |
| Framing.Parse | src/state/reader.rs:42-73 | The parse loop leaves the unparsed rest, forwards the jobs of the parsed packets in order, and asks once per Noop when the load allows. |
| Framing.ReceiveAllStream | src/state/reader.rs:26-52 | However the stream is cut into reads, the reader keeps what parsing the whole stream leaves and forwards the jobs of all its packets, in order. |
| Framing.Delivers | src/worker/reader.rs:23-45 | A fresh reader fed well-formed packets in any chunks keeps no bytes and has forwarded exactly their job assignments. |
| Framing.ReceiveAllBusy | src/worker/reader.rs:46-55 | While the load is at or above the concurrency, no request for work is sent. |
| Framing.ReceiveAllIdle | src/worker/reader.rs:46-55 | While the load stays below the concurrency, one GrabJobUniq is sent per Noop of the stream. |
| Framing.GarbageStalls | src/state/reader.rs:75-97 | As written, a first read that starts with a malformed packet means no job is ever forwarded again. |
| Framing.RecoverAllDelivers | src/state/reader.rs:79-83 | A reader that throws the buffer away after a malformed packet, as the log line says, delivers the jobs of the well-formed packets that follow. |
| Framing.GarbageRecovers | src/state/reader.rs:79-83 | That corrected reader forwards the jobs of every well-formed packet read after the malformed one. |
| ReadLoop.Step | src/state/reader.rs:31-37 | One wait never drops a forwarded job or request, and only a read keeps the task running. |
| ReadLoop.RunReads | src/state/reader.rs:27-37 | A running task ends with the reader of the reads before the first read error or exit signal, returned with that error or normally, and still runs if neither came. |
| ReadLoop.EndOfStreamIdles | src/worker/reader.rs:27-28 | A read of zero bytes, which is how the connection reports its end, leaves the reader exactly as it was. |
| ReadLoop.RecoverRunReads | src/state/reader.rs:79-83 | The corrected task ends with the corrected reader of the reads before the first error or exit signal. |
| ReadLoop.DeliversRun | src/state/reader.rs:27-56 | A fresh task fed well-formed packets forwards exactly their jobs and keeps no bytes. |
| StateReader.Delivers | src/state/reader.rs:25-73 | The newer reader task, fed well-formed packets in any chunks, forwards exactly their job assignments, in order, and keeps no bytes. |
| StateReader.Ends | src/state/reader.rs:31-37 | The exit signal ends the task normally and a read error ends it with the error; the reader is what the reads before them left. |
| StateReader.Asks | src/state/reader.rs:57-63 | A never-busy task asks once per Noop of the stream; an always-busy one never asks. |
| StateReader.Stalls | src/state/reader.rs:75-97 | As written: four zero bytes in the first read stop all later job forwarding. |
| StateReader.Recovers | src/state/reader.rs:79-83 | Corrected: after the four zero bytes, the jobs of the well-formed packets that follow are forwarded. |
| WorkerReader.Delivers | src/worker/reader.rs:22-60 | The older reader task, fed well-formed older-codec packets in any chunks, forwards exactly their job assignments and keeps no bytes. |
| WorkerReader.Ends | src/worker/reader.rs:27 | Only a read error ends the task, never normally; the reader is what the earlier reads left. |
| WorkerReader.Asks | src/worker/reader.rs:46-55 | A never-busy task asks once per Noop; an always-busy one never asks. |
| WorkerReader.Stalls | src/worker/reader.rs:62-76 | As written: four zero bytes in the first read stop all later job forwarding. |
| WorkerReader.Recovers | src/worker/reader.rs:67 | Corrected: after the four zero bytes, the jobs of the well-formed packets that follow are forwarded. |
| Assignee.AcceptsPadded | src/state/assignee.rs:27-44 | A job is accepted exactly when its name is valid UTF-8 and is the worker's name followed by zero or more 0 bytes; a worker name ending in 0 accepts nothing. |
| Assignee.DeliverEffect | src/state/assignee.rs:20-55 | A rejected job or any other response changes nothing. An accepted job raises the load by one, starts one running order carrying the job, and sends PreSleep exactly when the new load is below the concurrency. |
| Assignee.FinishEffect | src/state/assignee.rs:58-66 | The end of a running order sends its report and drops the load by one, then sends PreSleep exactly when the new load is below the concurrency. |
| Assignee.Step | src/state/assignee.rs:19-70 | Every event keeps the load equal to the number of orders still running. |
| Assignee.RunBalances | src/state/assignee.rs:47-59 | From a fresh start the load is always the number of running orders, and it is zero again once every started order has finished. |
| Writer.Send | src/state/writer.rs:58-74 | `Request::send` produces bytes exactly when no delimited field holds a 0 byte. |
| Writer.SendReadsBack | src/state/writer.rs:58-74 | The bytes sent for a request are read back by the server as that request's packet, whatever follows. |
| Writer.SendAllSplits | src/state/writer.rs:28-39 | The requests sent one after another split, at the server, into exactly their packets in order, with nothing left over. |
| Writer.Shape | src/state/writer.rs:26-50 | The writer writes the requests it takes in order up to the first it cannot encode. It writes CantDo once: before the first request taken after the exit signal, or last. |
| Writer.CantDoOnce | src/state/writer.rs:26-50 | When every request can be encoded, the writer does not die and writes all of them in order with exactly one CantDo inserted at the first request taken after the exit signal, or at the end. |
| Orders.Parent | src/state/order.rs:76 | `Path::parent` exists exactly when the path has a component, and appending the last component to it gives the path back. |
| Orders.WorkingDirOfExecutor | src/state/order.rs:74-76 | The executor runs in its own directory; only a path with no parent runs in `/tmp`. |
| Orders.ArgvReadsBack | src/state/order.rs:80-82 | The arguments are the worker's name, the job's unique id, and a decimal text from which the workload's exact size reads back. |
| Orders.MakeOrder | src/state/order.rs:36-57 | An order carries the worker's name and executor, the 120 s timeout, and the job's handle, unique id and workload. |
| Orders.ReportCases | src/state/order.rs:121-157 | A successful exit or an I/O failure sends nothing. An unsuccessful exit or a timeout sends exactly one WorkException for the order's job. |
| Orders.ReportTexts | src/state/order.rs:134-156 | The timeout report reads `...duration=120s"}`. The exit status text sits between a fixed 41-byte prefix and the closing quote and brace. An exit report never equals a timeout report. |
| StubAssignee.OnePerJob | src/worker/assignee.rs:12-42 | Exactly one WorkComplete per job assignment, in order, each for that assignment's handle with `{"error":null,"data":null}`; other responses send nothing. |
| StubAssignee.RepliesAppend | src/worker/assignee.rs:12 | The replies to a longer stream extend the replies to its beginning. |
| StubAssignee.ReplyOnWire | src/worker/assignee.rs:33-39 | The handle the older codec read keeps its 0 byte, and the reply carries it back: on the wire it is exactly the WorkComplete the newer codec writes for the bare handle. |
| Bytes.TrimNulPadded | src/state/assignee.rs:29 | Stripping trailing 0 bytes from a name padded with 0 bytes gives the name back, when the name does not itself end in 0. |
| Bytes.DecimalRoundTrip | src/state/order.rs:82 | The decimal text of a number parses back to that number. |

## Left out

- Sockets, channels and task spawning. The bytes and size of each read are
  inputs, and a failed read is an event. A failed channel send, which ends a
  task with an error, is not modelled.
- Which of two ready futures `select` picks in the newer reader. The order of
  events is the input.
- Atomics. The load each reader sees is an input of each read. The assignee
  updates its load one event at a time. Order completions arrive as events in
  the same sequence as deliveries. The wrap-around of the `usize` add and
  subtract on `current_load` is not modelled, because the load never
  approaches it.
- The worker reader's concurrency is read from an atomic on every Noop. Here
  it is one fixed number for the task.
- Logging, `dbg!` output and hex log prefixes.
- A read of zero bytes (end of stream). Both readers then loop without
  progress, because the source never checks for it. `ReadLoop.EndOfStreamIdles`
  states this; the endless spinning itself is not modelled.
- deku internals. Deku reads the fields from all remaining input, not only
  from the `length` bytes; the model does the same.
- GearmanCodec.FieldsThenData, LegacyCodec.FieldsThenData: a header length
  shorter than the delimited fields makes the trailing field's count
  expression (`datalen - (1 + handle.len())` and the like) underflow in
  `usize`. The source then does not report a parse error. A debug build
  panics and the reader task dies. A release build wraps to a huge count.
  The model reports the packet as malformed instead, and its reader task
  keeps running without forwarding anything more. Either way no later job is
  forwarded, but the model does not show the task ending.
- Deku's `bytes = 4` on a `usize` keeps its low 32 bits, so the encoder
  writes `length % 2^32`. The lemmas about encoded packets cover only bodies
  below 2^32 bytes (`Writer.Fits`, `GearmanCodec.WellFormed`,
  `LegacyCodec.WellFormed`).
- Process work in `src/state/order.rs`: spawning, pipes, writing stdin, the
  real timeout and the stdout reader, which only logs lines. An order's
  outcome is the input `Succeeded | ExitedWith(status) | TimedOut | Broken`.
  The exit status's `Debug` text is a byte string the platform supplies.
- `complete` in `src/state/order.rs` is defined but never called; the model
  defines it too and nothing uses it.
- The handshake (SetClientId, CanDo, PreSleep), connection setup,
  `src/main.rs`, `src/protocols/order.rs`, the exit-signal primitive, and
  `src/worker/writer.rs`, which only forwards.
- Assignee.Step: a completion event for an order that is not running changes
  nothing. Such an event cannot come from the source, where each spawned order
  ends exactly once.
- Writer.Shape: a request with a 0 byte in a delimited field cannot be
  encoded. There `CString::new(..).unwrap()` in the packet writer panics, and
  the panic ends the writer task. Here the writer is halted instead: it writes
  nothing more, not even the closing CantDo.
- The assignee calls `order(handle, unique, workload, req_s).run()`, but
  `src/state/order.rs` declares `order` with three arguments and `run` with
  the sender. The model follows `src/state/order.rs`.
- `src/state/order.rs` builds requests of `crate::packet`, while the writer
  sends `crate::protocols::gearman` requests. The model uses one `Request`
  datatype for both.

## Findings

| source | as written | input that shows it | evidently intended | confidence | as-written member | corrected member |
|---|---|---|---|---|---|---|
| src/state/reader.rs:75-97 | On a parse error other than "not enough data" the buffer is kept and the task goes back to reading. The buffer still starts with the bad bytes, so every later parse fails the same way. | A first read of the four bytes `0 0 0 0` (not a magic word), followed by any well-formed job assignments | Throw the buffer away, as the warning "bad packet, throwing away N bytes" says, so later packets are parsed | medium; not executed | StateReader.Stalls | StateReader.Recovers |
| src/worker/reader.rs:62-76 | The same parse-error branch in the older reader keeps the buffer. | A first read of the four bytes `0 0 0 0`, followed by any well-formed job assignments | Throw the buffer away, as the warning says | medium; not executed | WorkerReader.Stalls | WorkerReader.Recovers |
