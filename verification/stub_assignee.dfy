/** The assignee of the older worker (src/worker/assignee.rs): a stub that
    does no work and reports every job it is given as complete with an
    empty result. */
module StubAssignee {
  import opened Bytes
  import opened Messages
  import opened Wire
  import Layout
  import GearmanCodec
  import LegacyCodec

  /** `{"error":null,"data":null}`. */
  const NullResult: seq<byte> := Ascii("{\"error\":null,\"data\":null}")

  /** What one response from the reader makes the stub send. */
  function Reply(r: Response): seq<Request> {
    match r
    case JobAssignUniq(h, _, _, _) => [WorkComplete(h, NullResult)]
    case _ => []
  }

  /** The loop over the responses, in the order they arrive. */
  function Replies(rs: seq<Response>): seq<Request> {
    if |rs| == 0 then [] else Reply(rs[0]) + Replies(rs[1..])
  }

  /** The job assignments among the responses, in order. */
  function Assignments(rs: seq<Response>): (js: seq<Response>)
    ensures forall j <- js :: j.JobAssignUniq?
  {
    if |rs| == 0 then []
    else if rs[0].JobAssignUniq? then [rs[0]] + Assignments(rs[1..])
    else Assignments(rs[1..])
  }

  /** Exactly one WorkComplete per job assignment, in the order of the
      assignments, each for that assignment's handle and carrying the fixed
      empty result; other responses send nothing. */
  lemma {:induction false} OnePerJob(rs: seq<Response>)
    ensures |Replies(rs)| == |Assignments(rs)|
    ensures forall i :: 0 <= i < |Replies(rs)| ==>
      Replies(rs)[i] == WorkComplete(Assignments(rs)[i].handle, NullResult)
  {
    if |rs| > 0 {
      OnePerJob(rs[1..]);
      if rs[0].JobAssignUniq? {
        var h := rs[0].handle;
        assert Replies(rs) == [WorkComplete(h, NullResult)] + Replies(rs[1..]);
        assert Assignments(rs) == [rs[0]] + Assignments(rs[1..]);
      } else {
        assert Replies(rs) == [] + Replies(rs[1..]);
        assert [] + Replies(rs[1..]) == Replies(rs[1..]);
      }
    }
  }

  /** Replies to a longer stream extend the replies to its beginning. */
  lemma {:induction false} RepliesAppend(a: seq<Response>, b: seq<Response>)
    ensures Replies(a + b) == Replies(a) + Replies(b)
  {
    if |a| == 0 {
      assert a + b == b;
    } else {
      assert (a + b)[1..] == a[1..] + b;
      RepliesAppend(a[1..], b);
      assert Reply(a[0]) + (Replies(a[1..]) + Replies(b)) == (Reply(a[0]) + Replies(a[1..])) + Replies(b);
    }
  }

  /** The older codec keeps each field's terminator, so the handle of a
      job it read still ends in its 0 byte, and the reply written with the
      same codec carries it back: on the wire it is exactly the WorkComplete
      the newer codec writes for the bare handle. */
  lemma ReplyOnWire(h: seq<byte>, n: seq<byte>, u: seq<byte>, w: seq<byte>)
    requires NulFree(h)
    ensures LegacyCodec.Encode(LegacyCodec.RequestPacket(Reply(JobAssignUniq(h + [0], n, u, w))[0]))
         == GearmanCodec.Encode(GearmanCodec.RequestPacket(WorkComplete(h, NullResult)))
  {
    var q := Req(WorkComplete(h, NullResult));
    assert Layout.Fields(q) == [h];
    assert Terminate([h]) == [h + [0]];
    assert LegacyCodec.KeepNul(q) == Req(WorkComplete(h + [0], NullResult));
    LegacyCodec.BodyKeepNul(q);
  }
}
