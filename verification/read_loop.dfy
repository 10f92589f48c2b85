/** The `'recv` loop of the reader tasks around the parse loop: wait for
    bytes (or, in the newer worker, for the exit signal), append them to
    the buffer and parse. A read error ends the task with that error; the
    exit signal ends it normally. Which of two ready futures `select`
    picks is not modelled: the order of the events is the input. */
module ReadLoop {
  import opened Messages
  import opened Wire
  import opened Framing

  /** What ends one wait of the reader: bytes (with the load the parse
      loop then sees), a read error, or the exit signal. */
  datatype Event = Read(chunk: Chunk) | ReadFailed | ExitFired

  /** A task still looping, one that returned `Ok(())` after the exit
      signal, or one that returned the read error. */
  datatype Status = Running | Exited | Errored

  datatype Task = Task(reader: Reader, status: Status)

  /** One wait of the `'recv` loop; a task that has returned ignores the
      events that would have followed. */
  function Step(dec: Decoder, concurrency: nat, t: Task, e: Event): (t': Task)
    requires Shrinks(dec)
    ensures t.reader.jobs <= t'.reader.jobs && t.reader.asks <= t'.reader.asks
    ensures t'.status == Running ==> t.status == Running && e.Read?
  {
    if t.status != Running then t
    else
      match e
      case Read(c) => Task(Receive(dec, concurrency, t.reader, c), Running)
      case ReadFailed => Task(t.reader, Errored)
      case ExitFired => Task(t.reader, Exited)
  }

  function Run(dec: Decoder, concurrency: nat, t: Task, es: seq<Event>): (t': Task)
    requires Shrinks(dec)
    ensures t.reader.jobs <= t'.reader.jobs && t.reader.asks <= t'.reader.asks
    decreases |es|
  {
    if |es| == 0 then t else Run(dec, concurrency, Step(dec, concurrency, t, es[0]), es[1..])
  }

  /** The reads before the first event that ends the task. */
  function ReadsBefore(es: seq<Event>): (cs: seq<Chunk>)
    ensures |cs| <= |es|
  {
    if |es| == 0 || !es[0].Read? then [] else [es[0].chunk] + ReadsBefore(es[1..])
  }

  /** How a task that sees `es` ends up: the first non-read event decides. */
  function Outcome(es: seq<Event>): Status {
    if |es| == 0 then Running
    else
      match es[0]
      case Read(_) => Outcome(es[1..])
      case ReadFailed => Errored
      case ExitFired => Exited
  }

  /** A task that has returned stays as it was. */
  lemma {:induction false} RunStopped(dec: Decoder, concurrency: nat, t: Task, es: seq<Event>)
    requires Shrinks(dec) && t.status != Running
    ensures Run(dec, concurrency, t, es) == t
    decreases |es|
  {
    if |es| > 0 {
      RunStopped(dec, concurrency, t, es[1..]);
    }
  }

  /** A running task ends with the reader of the reads before the first
      error or exit signal, returned with that error or normally, and still
      runs if neither came. */
  lemma {:induction false} RunReads(dec: Decoder, concurrency: nat, r: Reader, es: seq<Event>)
    requires Shrinks(dec)
    ensures Run(dec, concurrency, Task(r, Running), es)
      == Task(ReceiveAll(dec, concurrency, r, ReadsBefore(es)), Outcome(es))
    decreases |es|
  {
    if |es| > 0 {
      match es[0]
      case Read(c) =>
        RunReads(dec, concurrency, Receive(dec, concurrency, r, c), es[1..]);
        assert ReadsBefore(es)[1..] == ReadsBefore(es[1..]);
      case ReadFailed =>
        RunStopped(dec, concurrency, Task(r, Errored), es[1..]);
      case ExitFired =>
        RunStopped(dec, concurrency, Task(r, Exited), es[1..]);
    }
  }

  /** A read of no bytes, which is how the connection reports its end,
      changes nothing: the loop goes on waiting without progress. */
  lemma EndOfStreamIdles(dec: Decoder, concurrency: nat, r: Reader, load: nat)
    requires Shrinks(dec) && Settled(dec, r.buffer)
    ensures Receive(dec, concurrency, r, Chunk([], load)) == r
  {
    Empties(r.buffer);
    StaysLeft(dec, r.buffer);
    Empties(r.jobs);
    Empties(r.asks);
  }

  // ------------------------------------------------------------ corrected

  /** The corrected wait: as `Step`, with the buffer thrown away after a
      malformed packet. */
  function RecoverStep(dec: Decoder, concurrency: nat, t: Task, e: Event): (t': Task)
    requires Shrinks(dec)
    ensures t.reader.jobs <= t'.reader.jobs && t.reader.asks <= t'.reader.asks
  {
    if t.status != Running then t
    else
      match e
      case Read(c) => Task(Recover(dec, concurrency, t.reader, c), Running)
      case ReadFailed => Task(t.reader, Errored)
      case ExitFired => Task(t.reader, Exited)
  }

  function RecoverRun(dec: Decoder, concurrency: nat, t: Task, es: seq<Event>): (t': Task)
    requires Shrinks(dec)
    ensures t.reader.jobs <= t'.reader.jobs && t.reader.asks <= t'.reader.asks
    decreases |es|
  {
    if |es| == 0 then t else RecoverRun(dec, concurrency, RecoverStep(dec, concurrency, t, es[0]), es[1..])
  }

  lemma {:induction false} RecoverRunStopped(dec: Decoder, concurrency: nat, t: Task, es: seq<Event>)
    requires Shrinks(dec) && t.status != Running
    ensures RecoverRun(dec, concurrency, t, es) == t
    decreases |es|
  {
    if |es| > 0 {
      RecoverRunStopped(dec, concurrency, t, es[1..]);
    }
  }

  /** The corrected task ends as the corrected reader of the reads before
      the first error or exit signal. */
  lemma {:induction false} RecoverRunReads(dec: Decoder, concurrency: nat, r: Reader, es: seq<Event>)
    requires Shrinks(dec)
    ensures RecoverRun(dec, concurrency, Task(r, Running), es)
      == Task(RecoverAll(dec, concurrency, r, ReadsBefore(es)), Outcome(es))
    decreases |es|
  {
    if |es| > 0 {
      match es[0]
      case Read(c) =>
        RecoverRunReads(dec, concurrency, Recover(dec, concurrency, r, c), es[1..]);
        assert ReadsBefore(es)[1..] == ReadsBefore(es[1..]);
      case ReadFailed =>
        RecoverRunStopped(dec, concurrency, Task(r, Errored), es[1..]);
      case ExitFired =>
        RecoverRunStopped(dec, concurrency, Task(r, Exited), es[1..]);
    }
  }

  /** As written, a first read that starts with a malformed packet ends
      all forwarding of jobs, whatever comes after. */
  lemma GarbageStallsRun(dec: Decoder, concurrency: nat, js: seq<Response>, qs: seq<Request>, g: Chunk, es: seq<Event>)
    requires Shrinks(dec) && Prefixed(dec)
    requires dec(g.bytes) == Failed(Malformed)
    ensures Run(dec, concurrency, Task(Reader([], js, qs), Running), [Read(g)] + es).reader.jobs == js
  {
    var es' := [Read(g)] + es;
    RunReads(dec, concurrency, Reader([], js, qs), es');
    assert es'[1..] == es;
    assert ReadsBefore(es') == [g] + ReadsBefore(es);
    GarbageStalls(dec, concurrency, js, qs, g, ReadsBefore(es));
  }

  /** Corrected, the packets read after the malformed one are delivered. */
  lemma GarbageRecoversRun(dec: Decoder, enc: Encoder, ok: Packet -> bool, concurrency: nat, js: seq<Response>, qs: seq<Request>, g: Chunk, es: seq<Event>, ps: seq<Packet>)
    requires Shrinks(dec) && Prefixed(dec) && ReadsBack(dec, enc, ok)
    requires forall p <- ps :: ok(p)
    requires dec(g.bytes) == Failed(Malformed)
    requires Stream(ReadsBefore(es)) == EncodeAll(enc, ps)
    ensures RecoverRun(dec, concurrency, Task(Reader([], js, qs), Running), [Read(g)] + es).reader.jobs == js + Jobs(ps)
  {
    var es' := [Read(g)] + es;
    RecoverRunReads(dec, concurrency, Reader([], js, qs), es');
    assert es'[1..] == es;
    assert ReadsBefore(es') == [g] + ReadsBefore(es);
    GarbageRecovers(dec, enc, ok, concurrency, js, qs, g, ReadsBefore(es), ps);
  }

  /** A fresh task fed the encodings of packets the decoder reads back, in
      any chunks, forwards exactly their jobs by the time it stops or the
      events run out. */
  lemma DeliversRun(dec: Decoder, enc: Encoder, ok: Packet -> bool, concurrency: nat, es: seq<Event>, ps: seq<Packet>)
    requires Shrinks(dec) && Prefixed(dec) && ReadsBack(dec, enc, ok)
    requires forall p <- ps :: ok(p)
    requires Stream(ReadsBefore(es)) == EncodeAll(enc, ps)
    ensures Run(dec, concurrency, Task(Fresh, Running), es).reader.buffer == []
    ensures Run(dec, concurrency, Task(Fresh, Running), es).reader.jobs == Jobs(ps)
  {
    RunReads(dec, concurrency, Fresh, es);
    Delivers(dec, enc, ok, concurrency, ReadsBefore(es), ps);
  }
}
