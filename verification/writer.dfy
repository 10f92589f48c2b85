/** The writer task of the newer worker (src/state/writer.rs): it writes
    every request it takes from the queue, in order, and tells the server
    once that this worker no longer handles its function (CantDo) — just
    before the first request it takes after the exit signal has fired, or
    last, when the queue closes. The exit signal is an input: whether it
    had fired when each request was taken. */
module Writer {
  import opened Bytes
  import opened Messages
  import opened Wire
  import opened Framing
  import opened Codecs
  import GearmanCodec

  // --------------------------------------------------------- Request::send

  /** `Request::send`: the bytes of the request's packet. There are none
      when a delimited field holds a zero byte: the encoder panics there. */
  function Send(r: Request): (b: Option<seq<byte>>)
    ensures b.Some? <==> GearmanCodec.Encodable(Req(r))
  {
    if GearmanCodec.Encodable(Req(r)) then Some(GearmanCodec.Encode(GearmanCodec.RequestPacket(r))) else None
  }

  /** A request's packet is well-formed when it can be sent and its body
      fits the 32-bit length word. */
  predicate Fits(r: Request) {
    GearmanCodec.Encodable(Req(r)) && |GearmanCodec.Body(Req(r))| < U32_LIMIT
  }

  /** What is sent is what the server reads: the request's packet, and
      nothing of what follows it. */
  lemma SendReadsBack(r: Request, t: seq<byte>)
    requires Fits(r)
    ensures Current(Send(r).value + t) == Parsed(GearmanCodec.RequestPacket(r), t)
  {
    GearmanCodec.RoundTrip(GearmanCodec.RequestPacket(r), t);
  }

  /** The bytes of several requests sent one after another. */
  function SendAll(rs: seq<Request>): seq<byte>
    requires forall r <- rs :: GearmanCodec.Encodable(Req(r))
  {
    if |rs| == 0 then [] else Send(rs[0]).value + SendAll(rs[1..])
  }

  /** The packets of several requests. */
  function Packets(rs: seq<Request>): (ps: seq<Packet>)
    requires forall r <- rs :: GearmanCodec.Encodable(Req(r))
    ensures |ps| == |rs|
  {
    if |rs| == 0 then [] else [GearmanCodec.RequestPacket(rs[0])] + Packets(rs[1..])
  }

  lemma {:induction false} SendAllEncodes(rs: seq<Request>)
    requires forall r <- rs :: GearmanCodec.Encodable(Req(r)) && Fits(r)
    ensures SendAll(rs) == EncodeAll(Occupied, Packets(rs))
    ensures forall p <- Packets(rs) :: GearmanCodec.WellFormed(p)
  {
    if |rs| > 0 {
      assert rs[0] in rs;
      assert forall r <- rs[1..] :: r in rs;
      SendAllEncodes(rs[1..]);
      var p := GearmanCodec.RequestPacket(rs[0]);
      assert ([p] + Packets(rs[1..]))[1..] == Packets(rs[1..]);
    }
  }

  /** A stream of sent requests splits, at the server, into exactly their
      packets, with nothing left over. */
  lemma SendAllSplits(rs: seq<Request>)
    requires forall r <- rs :: GearmanCodec.Encodable(Req(r)) && Fits(r)
    ensures Split(Current, SendAll(rs)) == Frames(Packets(rs), [])
  {
    CurrentLaws();
    SendAllEncodes(rs);
    Empties(SendAll(rs));
    SplitEncoded(Current, Occupied, GearmanCodec.WellFormed, Packets(rs), []);
  }

  // ------------------------------------------------------------- the task

  /** A request taken from the queue, and whether the exit signal had
      fired when it was taken. */
  datatype Taken = Taken(request: Request, burnt: bool)

  /** Whether CantDo has been written, the requests written so far, and
      whether the task has died on a request it could not encode. */
  datatype Writer = Writer(sentCant: bool, written: seq<Request>, halted: bool)

  const Start := Writer(false, [], false)

  /** One request taken from the queue. */
  function Take(name: seq<byte>, w: Writer, t: Taken): Writer {
    if w.halted then w
    else
      var w1 := if !w.sentCant && t.burnt then Writer(true, w.written + [CantDo(name)], false) else w;
      if GearmanCodec.Encodable(Req(t.request)) then Writer(w1.sentCant, w1.written + [t.request], false)
      else Writer(w1.sentCant, w1.written, true)
  }

  function Drain(name: seq<byte>, w: Writer, ts: seq<Taken>): Writer
    decreases |ts|
  {
    if |ts| == 0 then w else Drain(name, Take(name, w, ts[0]), ts[1..])
  }

  /** The queue has closed: CantDo, unless it was written already. */
  function Close(name: seq<byte>, w: Writer): Writer {
    if w.halted || w.sentCant then w else Writer(true, w.written + [CantDo(name)], false)
  }

  /** The writer task over a queue that eventually closes. */
  function Run(name: seq<byte>, ts: seq<Taken>): Writer {
    Close(name, Drain(name, Start, ts))
  }

  // ------------------------------------------------------- its reference

  /** The position of the first request taken after the exit signal. */
  function FirstBurnt(ts: seq<Taken>): (k: nat)
    ensures k <= |ts|
  {
    if |ts| == 0 || ts[0].burnt then 0 else 1 + FirstBurnt(ts[1..])
  }

  /** The requests before the first one that cannot be encoded. */
  function Good(ts: seq<Taken>): (q: seq<Request>)
    ensures |q| <= |ts|
  {
    if |ts| == 0 || !GearmanCodec.Encodable(Req(ts[0].request)) then []
    else [ts[0].request] + Good(ts[1..])
  }

  /** `q` with CantDo inserted at position `k`. */
  function Insert(q: seq<Request>, k: nat, name: seq<byte>): seq<Request>
    requires k <= |q|
  {
    q[..k] + [CantDo(name)] + q[k..]
  }

  lemma DrainHalted(name: seq<byte>, w: Writer, ts: seq<Taken>)
    requires w.halted
    ensures Drain(name, w, ts) == w
    decreases |ts|
  {
    if |ts| > 0 {
      DrainHalted(name, w, ts[1..]);
    }
  }

  /** Cutting one request off the front of `Insert`. */
  lemma InsertCons(r: Request, q: seq<Request>, k: nat, name: seq<byte>)
    requires k <= |q|
    ensures [r] + Insert(q, k, name) == Insert([r] + q, k + 1, name)
  {
    assert ([r] + q)[..k + 1] == [r] + q[..k];
    assert ([r] + q)[k + 1..] == q[k..];
  }

  /** While the task runs, the requests it writes are those it takes up to
      the first it cannot encode, with CantDo inserted before the first one
      taken after the exit signal, if that comes first. */
  lemma {:induction false} DrainShape(name: seq<byte>, w: Writer, ts: seq<Taken>)
    requires !w.halted
    ensures var k, q := FirstBurnt(ts), Good(ts);
      var burnt := k < |ts| && k <= |q|;
      && Drain(name, w, ts).halted == (|q| < |ts|)
      && Drain(name, w, ts).sentCant == (w.sentCant || burnt)
      && Drain(name, w, ts).written == w.written + (if !w.sentCant && burnt then Insert(q, k, name) else q)
    decreases |ts|
  {
    if |ts| == 0 {
      Empties(w.written);
    } else {
      var t := ts[0];
      var w1 := Take(name, w, t);
      if !GearmanCodec.Encodable(Req(t.request)) {
        DrainHalted(name, w1, ts[1..]);
        if !w.sentCant && t.burnt {
          assert Insert([], 0, name) == [CantDo(name)];
        } else {
          Empties(w.written);
        }
      } else {
        var rest, r := ts[1..], t.request;
        var q', k' := Good(rest), FirstBurnt(rest);
        DrainShape(name, w1, rest);
        assert Drain(name, w, ts) == Drain(name, w1, rest);
        assert Good(ts) == [r] + q';
        if !w.sentCant && t.burnt {
          FirstCantDo(w.written, name, r, q', Drain(name, w, ts).written);
        } else if !w.sentCant {
          assert FirstBurnt(ts) == k' + 1;
          LaterCantDo(w.written, name, r, q', k', k' < |rest| && k' <= |q'|, Drain(name, w, ts).written);
        } else {
          Assoc(w.written, [r], q');
        }
      }
    }
  }

  /** For `DrainShape`: CantDo goes just before the first request. */
  lemma FirstCantDo(ws: seq<Request>, name: seq<byte>, r: Request, q: seq<Request>, d: seq<Request>)
    requires d == ws + [CantDo(name)] + [r] + q
    ensures d == ws + Insert([r] + q, 0, name)
  {
    assert Insert([r] + q, 0, name) == [CantDo(name)] + ([r] + q);
  }

  /** For `DrainShape`: CantDo goes after the first request, or nowhere. */
  lemma LaterCantDo(ws: seq<Request>, name: seq<byte>, r: Request, q: seq<Request>, k: nat, burnt: bool, d: seq<Request>)
    requires burnt ==> k <= |q|
    requires d == ws + [r] + (if burnt then Insert(q, k, name) else q)
    ensures d == ws + (if burnt then Insert([r] + q, k + 1, name) else [r] + q)
  {
    if burnt {
      InsertCons(r, q, k, name);
    }
  }

  /** The writer over a queue that closes: it writes the requests it takes
      in order, up to the first it cannot encode, where it dies; CantDo is
      written once, just before the first request taken after the exit
      signal, or last if no such request came; a task that dies first never
      writes it. */
  lemma Shape(name: seq<byte>, ts: seq<Taken>)
    ensures var k, q := FirstBurnt(ts), Good(ts);
      && Run(name, ts).halted == (|q| < |ts|)
      && Run(name, ts).written == (if k <= |q| then Insert(q, k, name) else q)
  {
    DrainShape(name, Start, ts);
    var k, q := FirstBurnt(ts), Good(ts);
    Empties(q);
    if k <= |q| {
      Empties(Insert(q, k, name));
      if k == |ts| {
        assert Insert(q, k, name) == q + [CantDo(name)] by {
          assert q[..k] == q && q[k..] == [];
        }
      }
    }
  }

  /** A queue of requests that can all be encoded is written whole, in
      order, with exactly one CantDo among them. */
  lemma CantDoOnce(name: seq<byte>, ts: seq<Taken>)
    requires forall t <- ts :: GearmanCodec.Encodable(Req(t.request))
    ensures !Run(name, ts).halted
    ensures Run(name, ts).written == Insert(Requests(ts), FirstBurnt(ts), name)
  {
    Shape(name, ts);
    AllGood(ts);
  }

  function Requests(ts: seq<Taken>): (rs: seq<Request>)
    ensures |rs| == |ts|
  {
    if |ts| == 0 then [] else [ts[0].request] + Requests(ts[1..])
  }

  lemma {:induction false} AllGood(ts: seq<Taken>)
    requires forall t <- ts :: GearmanCodec.Encodable(Req(t.request))
    ensures Good(ts) == Requests(ts)
  {
    if |ts| > 0 {
      assert ts[0] in ts;
      assert forall t <- ts[1..] :: t in ts;
      AllGood(ts[1..]);
    }
  }
}
