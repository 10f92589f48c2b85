/** The reader task of the older worker (src/worker/reader.rs): the read
    loop over the older codec, which keeps each field's terminator. It has
    no exit signal: only a read error ends it. */
module WorkerReader {
  import opened Bytes
  import opened Messages
  import opened Wire
  import opened Framing
  import opened ReadLoop
  import opened Codecs
  import LegacyCodec

  /** What this reader waits for: there is no exit signal. */
  type WorkerEvent = e: Event | !e.ExitFired? witness ReadFailed

  /** The reader task as written. */
  function Task(concurrency: nat, r: Reader, es: seq<WorkerEvent>): (t: ReadLoop.Task)
    ensures r.jobs <= t.reader.jobs && r.asks <= t.reader.asks
  {
    LegacyLaws();
    Run(Legacy, concurrency, ReadLoop.Task(r, Running), es)
  }

  /** A fresh task that reads well-formed packets in any chunks forwards
      every job assignment among them, in order, and nothing else, and
      keeps no bytes, whether it ends on an error or not at all. */
  lemma Delivers(concurrency: nat, es: seq<WorkerEvent>, ps: seq<Packet>)
    requires forall p <- ps :: LegacyCodec.WellFormed(p)
    requires Stream(ReadsBefore(es)) == EncodeAll(LegacyCodec.Encode, ps)
    ensures Task(concurrency, Fresh, es).reader.buffer == []
    ensures Task(concurrency, Fresh, es).reader.jobs == Jobs(ps)
  {
    LegacyLaws();
    DeliversRun(Legacy, LegacyCodec.Encode, LegacyCodec.WellFormed, concurrency, es, ps);
  }

  /** A read error ends the task with the error, and nothing else ends
      it; the reader keeps what the reads before the error left. */
  lemma Ends(concurrency: nat, r: Reader, es: seq<WorkerEvent>)
    ensures Task(concurrency, r, es).status == Outcome(es)
    ensures Task(concurrency, r, es).status != Exited
    ensures Task(concurrency, r, es).reader == ReceiveAll(Legacy, concurrency, r, ReadsBefore(es))
  {
    LegacyLaws();
    RunReads(Legacy, concurrency, r, es);
    NeverExits(es);
  }

  lemma {:induction false} NeverExits(es: seq<WorkerEvent>)
    ensures Outcome(es) != Exited
  {
    if |es| > 0 {
      NeverExits(es[1..]);
    }
  }

  /** A Noop asks for work exactly when the load read with it is below
      the concurrency: a fresh task that is never busy asks once per Noop
      of the stream, and one that is always busy never asks. */
  lemma Asks(concurrency: nat, es: seq<WorkerEvent>)
    ensures (forall c <- ReadsBefore(es) :: c.load < concurrency) ==>
      Task(concurrency, Fresh, es).reader.asks == Grabs(Noops(Split(Legacy, Stream(ReadsBefore(es))).packets))
    ensures (forall c <- ReadsBefore(es) :: c.load >= concurrency) ==> Task(concurrency, Fresh, es).reader.asks == []
  {
    LegacyLaws();
    RunReads(Legacy, concurrency, Fresh, es);
    Empties(Stream(ReadsBefore(es)));
    if forall c <- ReadsBefore(es) :: c.load < concurrency {
      ReceiveAllIdle(Legacy, concurrency, Fresh, ReadsBefore(es));
    }
    if forall c <- ReadsBefore(es) :: c.load >= concurrency {
      ReceiveAllBusy(Legacy, concurrency, Fresh, ReadsBefore(es));
    }
  }

  /** As written: once the first read brings four zero bytes, no job
      assignment is forwarded again, whatever the server sends next. */
  lemma Stalls(concurrency: nat, js: seq<Response>, qs: seq<Request>, load: nat, es: seq<WorkerEvent>)
    ensures Task(concurrency, Reader([], js, qs), [Read(Chunk(Garbage, load))] + es).reader.jobs == js
  {
    LegacyLaws();
    GarbageMalformed([]);
    Empties(Garbage);
    GarbageStallsRun(Legacy, concurrency, js, qs, Chunk(Garbage, load), es);
  }

  /** The reader task with the buffer thrown away after a malformed
      packet, as the log line says. */
  function RecoveringTask(concurrency: nat, r: Reader, es: seq<WorkerEvent>): (t: ReadLoop.Task)
    ensures r.jobs <= t.reader.jobs && r.asks <= t.reader.asks
  {
    LegacyLaws();
    RecoverRun(Legacy, concurrency, ReadLoop.Task(r, Running), es)
  }

  /** Corrected: after the four zero bytes, the well-formed packets read
      next have their jobs forwarded. */
  lemma Recovers(concurrency: nat, js: seq<Response>, qs: seq<Request>, load: nat, es: seq<WorkerEvent>, ps: seq<Packet>)
    requires forall p <- ps :: LegacyCodec.WellFormed(p)
    requires Stream(ReadsBefore(es)) == EncodeAll(LegacyCodec.Encode, ps)
    ensures RecoveringTask(concurrency, Reader([], js, qs), [Read(Chunk(Garbage, load))] + es).reader.jobs == js + Jobs(ps)
  {
    LegacyLaws();
    GarbageMalformed([]);
    Empties(Garbage);
    GarbageRecoversRun(Legacy, LegacyCodec.Encode, LegacyCodec.WellFormed, concurrency, js, qs, Chunk(Garbage, load), es, ps);
  }
}
