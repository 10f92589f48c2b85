/** The reader task of the newer worker (src/state/reader.rs): the read
    loop over the newer codec, which strips each field's terminator, with
    the exit signal able to end the wait. */
module StateReader {
  import opened Bytes
  import opened Messages
  import opened Wire
  import opened Framing
  import opened ReadLoop
  import opened Codecs
  import GearmanCodec

  /** The reader task as written. */
  function Task(concurrency: nat, r: Reader, es: seq<Event>): (t: ReadLoop.Task)
    ensures r.jobs <= t.reader.jobs && r.asks <= t.reader.asks
  {
    CurrentLaws();
    Run(Current, concurrency, ReadLoop.Task(r, Running), es)
  }

  /** A fresh task that reads well-formed packets in any chunks forwards
      every job assignment among them, in order, and nothing else, and
      keeps no bytes, whether it ends on an error, on the exit signal or
      not at all. */
  lemma Delivers(concurrency: nat, es: seq<Event>, ps: seq<Packet>)
    requires forall p <- ps :: GearmanCodec.WellFormed(p)
    requires Stream(ReadsBefore(es)) == EncodeAll(Occupied, ps)
    ensures Task(concurrency, Fresh, es).reader.buffer == []
    ensures Task(concurrency, Fresh, es).reader.jobs == Jobs(ps)
  {
    CurrentLaws();
    DeliversRun(Current, Occupied, GearmanCodec.WellFormed, concurrency, es, ps);
  }

  /** The exit signal ends the task normally and a read error with the
      error; the reader keeps what the reads before them left. */
  lemma Ends(concurrency: nat, r: Reader, es: seq<Event>)
    ensures Task(concurrency, r, es).status == Outcome(es)
    ensures Task(concurrency, r, es).reader == ReceiveAll(Current, concurrency, r, ReadsBefore(es))
  {
    CurrentLaws();
    RunReads(Current, concurrency, r, es);
  }

  /** A Noop asks for work exactly when the load read with it is below
      the concurrency: a fresh task that is never busy asks once per Noop
      of the stream, and one that is always busy never asks. */
  lemma Asks(concurrency: nat, es: seq<Event>)
    ensures (forall c <- ReadsBefore(es) :: c.load < concurrency) ==>
      Task(concurrency, Fresh, es).reader.asks == Grabs(Noops(Split(Current, Stream(ReadsBefore(es))).packets))
    ensures (forall c <- ReadsBefore(es) :: c.load >= concurrency) ==> Task(concurrency, Fresh, es).reader.asks == []
  {
    CurrentLaws();
    RunReads(Current, concurrency, Fresh, es);
    Empties(Stream(ReadsBefore(es)));
    if forall c <- ReadsBefore(es) :: c.load < concurrency {
      ReceiveAllIdle(Current, concurrency, Fresh, ReadsBefore(es));
    }
    if forall c <- ReadsBefore(es) :: c.load >= concurrency {
      ReceiveAllBusy(Current, concurrency, Fresh, ReadsBefore(es));
    }
  }

  /** As written: once the first read brings four zero bytes, no job
      assignment is forwarded again, whatever the server sends next. */
  lemma Stalls(concurrency: nat, js: seq<Response>, qs: seq<Request>, load: nat, es: seq<Event>)
    ensures Task(concurrency, Reader([], js, qs), [Read(Chunk(Garbage, load))] + es).reader.jobs == js
  {
    CurrentLaws();
    GarbageMalformed([]);
    Empties(Garbage);
    GarbageStallsRun(Current, concurrency, js, qs, Chunk(Garbage, load), es);
  }

  /** The reader task with the buffer thrown away after a malformed
      packet, as the log line says. */
  function RecoveringTask(concurrency: nat, r: Reader, es: seq<Event>): (t: ReadLoop.Task)
    ensures r.jobs <= t.reader.jobs && r.asks <= t.reader.asks
  {
    CurrentLaws();
    RecoverRun(Current, concurrency, ReadLoop.Task(r, Running), es)
  }

  /** Corrected: after the four zero bytes, the well-formed packets read
      next have their jobs forwarded. */
  lemma Recovers(concurrency: nat, js: seq<Response>, qs: seq<Request>, load: nat, es: seq<Event>, ps: seq<Packet>)
    requires forall p <- ps :: GearmanCodec.WellFormed(p)
    requires Stream(ReadsBefore(es)) == EncodeAll(Occupied, ps)
    ensures RecoveringTask(concurrency, Reader([], js, qs), [Read(Chunk(Garbage, load))] + es).reader.jobs == js + Jobs(ps)
  {
    CurrentLaws();
    GarbageMalformed([]);
    Empties(Garbage);
    GarbageRecoversRun(Current, Occupied, GearmanCodec.WellFormed, concurrency, js, qs, Chunk(Garbage, load), es, ps);
  }
}
