/** The framing and dispatch loop both readers run over the bytes of the
    connection: append what was read to a buffer, decode packets from its
    front while it is non-empty, keep the unread rest, and hand each packet
    to the task that wants it. The two readers differ only in the codec
    generation and in where the current load comes from. */
module Framing {
  import opened Bytes
  import opened Messages
  import opened Wire

  /** A packet decoder: the newer or the older codec's `Decode`. */
  type Decoder = seq<byte> -> Decoded<Packet>

  /** The bytes a packet occupies on the wire. */
  type Encoder = Packet -> seq<byte>

  /** A decoded packet uses up at least one byte. */
  ghost predicate Shrinks(dec: Decoder) {
    forall s :: dec(s).Parsed? ==> |dec(s).rest| < |s|
  }

  /** The decoder never looks past the packet it returns, and a malformed
      front stays malformed. */
  ghost predicate Prefixed(dec: Decoder) {
    forall s, t :: Extends(dec(s), dec(s + t), t)
  }

  /** What the decoder reads is the encoding of what it returns. */
  ghost predicate Reencodes(dec: Decoder, enc: Encoder) {
    forall s :: dec(s).Parsed? ==> s == enc(dec(s).value) + dec(s).rest
  }

  /** Packets satisfying `ok` are read back from their encoding, whatever
      follows. */
  ghost predicate ReadsBack(dec: Decoder, enc: Encoder, ok: Packet -> bool) {
    forall p, t :: ok(p) ==> dec(enc(p) + t) == Parsed(p, t)
  }

  /** A stream of packets written one after another. */
  function EncodeAll(enc: Encoder, ps: seq<Packet>): (b: seq<byte>)
    ensures |ps| == 0 ==> b == []
  {
    if |ps| == 0 then [] else enc(ps[0]) + EncodeAll(enc, ps[1..])
  }

  // ------------------------------------------------------------- splitting

  /** The packets at the front of a buffer and the bytes left behind. */
  datatype Frames = Frames(packets: seq<Packet>, left: seq<byte>)

  /** What the parse loop does with a buffer, as a reference: decode from
      the front until the buffer is empty or a decode fails, incomplete or
      malformed. The rest stays in the buffer either way. */
  function Split(dec: Decoder, buf: seq<byte>): (f: Frames)
    requires Shrinks(dec)
    ensures |f.left| <= |buf|
    ensures f.left == [] || dec(f.left).Failed?
    decreases |buf|
  {
    if |buf| == 0 then Frames([], buf)
    else
      match dec(buf)
      case Failed(_) => Frames([], buf)
      case Parsed(p, rest) =>
        var f := Split(dec, rest);
        Frames([p] + f.packets, f.left)
  }

  /** Nothing is lost or invented: the buffer is exactly the encodings of
      the packets split off it, followed by what is left. */
  lemma {:induction false} SplitConsumes(dec: Decoder, enc: Encoder, buf: seq<byte>)
    requires Shrinks(dec) && Reencodes(dec, enc)
    ensures buf == EncodeAll(enc, Split(dec, buf).packets) + Split(dec, buf).left
    decreases |buf|
  {
    if |buf| > 0 && dec(buf).Parsed? {
      var p, rest := dec(buf).value, dec(buf).rest;
      SplitConsumes(dec, enc, rest);
      var ps := Split(dec, rest).packets;
      assert Split(dec, buf).packets == [p] + ps;
      assert ([p] + ps)[1..] == ps;
      assert EncodeAll(enc, [p] + ps) == enc(p) + EncodeAll(enc, ps);
    }
  }

  /** Chunking does not matter: splitting `a + b` is splitting `a`, then
      splitting what `a` left behind with `b` appended. So a reader that
      receives a stream in any pieces sees the packets the whole stream
      holds. */
  lemma {:induction false} SplitAppend(dec: Decoder, a: seq<byte>, b: seq<byte>)
    requires Shrinks(dec) && Prefixed(dec)
    ensures Split(dec, a + b).packets == Split(dec, a).packets + Split(dec, Split(dec, a).left + b).packets
    ensures Split(dec, a + b).left == Split(dec, Split(dec, a).left + b).left
    decreases |a|
  {
    if |a| == 0 {
      Empties(b);
    } else {
      assert Extends(dec(a), dec(a + b), b);
      if dec(a).Parsed? {
        var p, rest := dec(a).value, dec(a).rest;
        SplitAppend(dec, rest, b);
        SplitParsed(dec, a);
        SplitParsed(dec, a + b);
        Assoc([p], Split(dec, rest).packets, Split(dec, Split(dec, rest).left + b).packets);
      }
    }
  }

  /** A buffer that starts with a packet splits into that packet and the
      split of the rest. */
  lemma SplitParsed(dec: Decoder, buf: seq<byte>)
    requires Shrinks(dec) && |buf| > 0 && dec(buf).Parsed?
    ensures Split(dec, buf) == Frames([dec(buf).value] + Split(dec, dec(buf).rest).packets, Split(dec, dec(buf).rest).left)
  {
  }

  /** A non-empty proper prefix of a packet the decoder reads back is
      reported as incomplete, never as malformed and never as a packet. */
  lemma PrefixIncomplete(dec: Decoder, enc: Encoder, ok: Packet -> bool, p: Packet, pre: seq<byte>, tail: seq<byte>)
    requires Prefixed(dec) && ReadsBack(dec, enc, ok)
    requires ok(p) && enc(p) == pre + tail && |tail| > 0
    ensures dec(pre) == Failed(Incomplete)
  {
    assert enc(p) + [] == pre + tail;
    assert dec(pre + tail) == Parsed(p, []);
    assert Extends(dec(pre), dec(pre + tail), tail);
    match dec(pre)
    case Parsed(_, _) =>
    case Failed(e) =>
      assert e != Malformed;
  }

  /** A stream of packets the decoder reads back, followed by an incomplete
      one, splits into exactly those packets, and the incomplete one waits
      in the buffer. */
  lemma {:induction false} SplitEncoded(dec: Decoder, enc: Encoder, ok: Packet -> bool, ps: seq<Packet>, partial: seq<byte>)
    requires Shrinks(dec) && ReadsBack(dec, enc, ok)
    requires forall p <- ps :: ok(p)
    requires partial == [] || dec(partial) == Failed(Incomplete)
    ensures Split(dec, EncodeAll(enc, ps) + partial) == Frames(ps, partial)
  {
    if |ps| == 0 {
      assert EncodeAll(enc, ps) + partial == partial;
    } else {
      var q := ps[0];
      assert ok(q);
      SplitEncoded(dec, enc, ok, ps[1..], partial);
      var tail := EncodeAll(enc, ps[1..]) + partial;
      assert dec(enc(q) + tail) == Parsed(q, tail);
      Assoc(enc(q), EncodeAll(enc, ps[1..]), partial);
      assert [q] + ps[1..] == ps;
    }
  }

  /** Once the front of the buffer is malformed, nothing read afterwards
      produces another packet: the buffer only grows. */
  lemma MalformedStalls(dec: Decoder, buf: seq<byte>, b: seq<byte>)
    requires Shrinks(dec) && Prefixed(dec)
    requires dec(buf) == Failed(Malformed)
    ensures Split(dec, buf + b) == Frames([], buf + b)
  {
    assert Extends(dec(buf), dec(buf + b), b);
  }

  // ------------------------------------------------------------- dispatch

  /** A job assignment goes to the assignee, unchanged. */
  function JobOf(p: Packet): seq<Response> {
    if p.payload.Res? && p.payload.response.JobAssignUniq? then [p.payload.response] else []
  }

  /** A Noop becomes a request for work when there is spare capacity. */
  function AskOf(p: Packet, load: nat, concurrency: nat): seq<Request> {
    if p.payload == Res(Noop) && load < concurrency then [GrabJobUniq] else []
  }

  /** The jobs a sequence of packets forwards, in stream order. */
  function Jobs(ps: seq<Packet>): seq<Response> {
    if |ps| == 0 then [] else JobOf(ps[0]) + Jobs(ps[1..])
  }

  /** The requests a sequence of packets sends to the writer. */
  function Asks(ps: seq<Packet>, load: nat, concurrency: nat): seq<Request> {
    if |ps| == 0 then [] else AskOf(ps[0], load, concurrency) + Asks(ps[1..], load, concurrency)
  }

  /** The number of Noops among the packets. */
  function Noops(ps: seq<Packet>): (n: nat)
    ensures n <= |ps|
  {
    if |ps| == 0 then 0 else (if ps[0].payload == Res(Noop) then 1 else 0) + Noops(ps[1..])
  }

  lemma {:induction false} JobsAppend(a: seq<Packet>, b: seq<Packet>)
    ensures Jobs(a + b) == Jobs(a) + Jobs(b)
  {
    if |a| == 0 {
      assert a + b == b;
    } else {
      assert (a + b)[1..] == a[1..] + b;
      JobsAppend(a[1..], b);
    }
  }

  lemma {:induction false} AsksAppend(a: seq<Packet>, b: seq<Packet>, load: nat, concurrency: nat)
    ensures Asks(a + b, load, concurrency) == Asks(a, load, concurrency) + Asks(b, load, concurrency)
  {
    if |a| == 0 {
      assert a + b == b;
    } else {
      assert (a + b)[1..] == a[1..] + b;
      AsksAppend(a[1..], b, load, concurrency);
    }
  }

  /** Forwarded are exactly the job assignments among the packets: every
      forwarded response is one of them, and every one of them is
      forwarded. */
  lemma {:induction false} JobsFaithful(ps: seq<Packet>, j: Response)
    ensures j in Jobs(ps) <==> j.JobAssignUniq? && exists i :: 0 <= i < |ps| && ps[i].payload == Res(j)
  {
    if |ps| > 0 {
      JobsFaithful(ps[1..], j);
      if j.JobAssignUniq? && ps[0].payload != Res(j) {
        if exists i :: 0 <= i < |ps| && ps[i].payload == Res(j) {
          var i :| 0 <= i < |ps| && ps[i].payload == Res(j);
          assert ps[1..][i - 1] == ps[i];
        }
      }
      if j.JobAssignUniq? && (exists i :: 0 <= i < |ps[1..]| && ps[1..][i].payload == Res(j)) {
        var i :| 0 <= i < |ps[1..]| && ps[1..][i].payload == Res(j);
        assert ps[i + 1] == ps[1..][i];
      }
    }
  }

  /** Every Noop asks for work exactly once when the load is below the
      concurrency, and none does otherwise; nothing else asks. */
  lemma {:induction false} AsksCount(ps: seq<Packet>, load: nat, concurrency: nat)
    ensures Asks(ps, load, concurrency) == Grabs(if load < concurrency then Noops(ps) else 0)
  {
    if |ps| > 0 {
      AsksCount(ps[1..], load, concurrency);
    }
  }

  // ------------------------------------------------------------- the loop

  /** One turn of the parse loop, for `Parse`. */
  lemma SplitStep(dec: Decoder, buf: seq<byte>, load: nat, concurrency: nat)
    requires Shrinks(dec) && |buf| > 0 && dec(buf).Parsed?
    ensures Split(dec, buf).left == Split(dec, dec(buf).rest).left
    ensures Jobs(Split(dec, buf).packets) == JobOf(dec(buf).value) + Jobs(Split(dec, dec(buf).rest).packets)
    ensures Asks(Split(dec, buf).packets, load, concurrency)
      == AskOf(dec(buf).value, load, concurrency) + Asks(Split(dec, dec(buf).rest).packets, load, concurrency)
  {
    var ps := Split(dec, dec(buf).rest).packets;
    assert Split(dec, buf).packets == [dec(buf).value] + ps;
    assert ([dec(buf).value] + ps)[1..] == ps;
  }

  /** The `'parse` loop of both readers, on a buffer that has just had the
      read bytes appended: the buffer becomes the remainder after every
      decoded packet, each job assignment is forwarded, each Noop asks for
      work if `load < concurrency`, other packets are ignored, and the
      first decode error ends the loop with the buffer as it stands. */
  method Parse(dec: Decoder, buf: seq<byte>, load: nat, concurrency: nat)
    returns (left: seq<byte>, jobs: seq<Response>, asks: seq<Request>)
    requires Shrinks(dec)
    ensures left == Split(dec, buf).left
    ensures jobs == Jobs(Split(dec, buf).packets)
    ensures asks == Asks(Split(dec, buf).packets, load, concurrency)
  {
    left, jobs, asks := buf, [], [];
    while |left| > 0
      invariant Split(dec, left).left == Split(dec, buf).left
      invariant jobs + Jobs(Split(dec, left).packets) == Jobs(Split(dec, buf).packets)
      invariant asks + Asks(Split(dec, left).packets, load, concurrency) == Asks(Split(dec, buf).packets, load, concurrency)
      decreases |left|
    {
      var r := dec(left);
      if r.Failed? {
        break;
      }
      var pkt, rest := r.value, r.rest;
      SplitStep(dec, left, load, concurrency);
      var later, laterAsks := Jobs(Split(dec, rest).packets), Asks(Split(dec, rest).packets, load, concurrency);
      left := rest;
      if pkt.payload.Res? && pkt.payload.response.JobAssignUniq? {
        Assoc(jobs, [pkt.payload.response], later);
        jobs := jobs + [pkt.payload.response];
        Empties(laterAsks);
      } else if pkt.payload == Res(Noop) {
        Empties(later);
        if load < concurrency {
          Assoc(asks, [GrabJobUniq], laterAsks);
          asks := asks + [GrabJobUniq];
        } else {
          Empties(laterAsks);
        }
      } else {
        Empties(later);
        Empties(laterAsks);
      }
    }
    Empties(jobs);
    Empties(asks);
  }

  // ---------------------------------------------------- reads in sequence

  /** What a reader keeps between reads, and what it has sent so far: the
      jobs forwarded to the assignee and the requests sent to the writer. */
  datatype Reader = Reader(buffer: seq<byte>, jobs: seq<Response>, asks: seq<Request>)

  /** One successful read: the bytes that arrived and the load the reader
      compares with its concurrency while handling them. */
  datatype Chunk = Chunk(bytes: seq<byte>, load: nat)

  /** What the parse loop can leave in the buffer: nothing, or bytes that
      do not decode. */
  ghost predicate Settled(dec: Decoder, buf: seq<byte>) {
    buf == [] || dec(buf).Failed?
  }

  /** A reader that has read nothing and sent nothing. */
  const Fresh := Reader([], [], [])

  /** All the bytes of a sequence of reads, in order. */
  function Stream(cs: seq<Chunk>): seq<byte> {
    if |cs| == 0 then [] else cs[0].bytes + Stream(cs[1..])
  }

  /** One read as the source handles it: append, then the parse loop. The
      outputs only grow and the buffer keeps at most what it had plus what
      was read. */
  function Receive(dec: Decoder, concurrency: nat, r: Reader, c: Chunk): (r': Reader)
    requires Shrinks(dec)
    ensures r.jobs <= r'.jobs && r.asks <= r'.asks
    ensures |r'.buffer| <= |r.buffer| + |c.bytes| && Settled(dec, r'.buffer)
  {
    var f := Split(dec, r.buffer + c.bytes);
    Reader(f.left, r.jobs + Jobs(f.packets), r.asks + Asks(f.packets, c.load, concurrency))
  }

  function ReceiveAll(dec: Decoder, concurrency: nat, r: Reader, cs: seq<Chunk>): (r': Reader)
    requires Shrinks(dec)
    ensures r.jobs <= r'.jobs && r.asks <= r'.asks
    decreases |cs|
  {
    if |cs| == 0 then r else ReceiveAll(dec, concurrency, Receive(dec, concurrency, r, cs[0]), cs[1..])
  }

  /** However the stream is cut into reads, the reader ends with the
      buffer and the jobs of splitting the whole stream at once. */
  lemma {:induction false} ReceiveAllStream(dec: Decoder, concurrency: nat, r: Reader, cs: seq<Chunk>)
    requires Shrinks(dec) && Prefixed(dec) && Settled(dec, r.buffer)
    ensures ReceiveAll(dec, concurrency, r, cs).buffer == Split(dec, r.buffer + Stream(cs)).left
    ensures ReceiveAll(dec, concurrency, r, cs).jobs == r.jobs + Jobs(Split(dec, r.buffer + Stream(cs)).packets)
    decreases |cs|
  {
    if |cs| == 0 {
      assert r.buffer + Stream(cs) == r.buffer;
      StaysLeft(dec, r.buffer);
    } else {
      var c, rest := cs[0], cs[1..];
      var x, y := r.buffer + c.bytes, Stream(rest);
      var r1 := Receive(dec, concurrency, r, c);
      ReceiveAllCons(dec, concurrency, r, cs);
      ReceiveAllStream(dec, concurrency, r1, rest);
      StreamCons(r.buffer, cs);
      SplitAppend(dec, x, y);
      var f := Split(dec, x);
      JobsJoin(r.jobs, r1.jobs, ReceiveAll(dec, concurrency, r1, rest).jobs, f.packets, Split(dec, f.left + y).packets);
    }
  }

  lemma ReceiveAllCons(dec: Decoder, concurrency: nat, r: Reader, cs: seq<Chunk>)
    requires Shrinks(dec) && |cs| > 0
    ensures ReceiveAll(dec, concurrency, r, cs) == ReceiveAll(dec, concurrency, Receive(dec, concurrency, r, cs[0]), cs[1..])
  {
  }

  /** Jobs forwarded for `a`, then for `b`, are the jobs of `a + b`. */
  lemma JobsJoin(js0: seq<Response>, js1: seq<Response>, js2: seq<Response>, a: seq<Packet>, b: seq<Packet>)
    requires js1 == js0 + Jobs(a) && js2 == js1 + Jobs(b)
    ensures js2 == js0 + Jobs(a + b)
  {
    JobsAppend(a, b);
    Assoc(js0, Jobs(a), Jobs(b));
  }

  lemma Empties<T>(s: seq<T>)
    ensures [] + s == s && s + [] == s
  {
  }

  lemma Assoc<T>(a: seq<T>, b: seq<T>, c: seq<T>)
    ensures (a + b) + c == a + (b + c)
  {
  }

  /** The buffer and the bytes of the first read come first. */
  lemma StreamCons(buf: seq<byte>, cs: seq<Chunk>)
    requires |cs| > 0
    ensures buf + Stream(cs) == (buf + cs[0].bytes) + Stream(cs[1..])
  {
  }

  /** A buffer a read has left behind splits into nothing more. */
  lemma StaysLeft(dec: Decoder, buf: seq<byte>)
    requires Shrinks(dec) && Settled(dec, buf)
    ensures Split(dec, buf) == Frames([], buf)
  {
  }

  /** A fresh reader fed a stream of packets the decoder reads back, in
      any chunks, forwards exactly their jobs and ends with an empty
      buffer. */
  lemma Delivers(dec: Decoder, enc: Encoder, ok: Packet -> bool, concurrency: nat, cs: seq<Chunk>, ps: seq<Packet>)
    requires Shrinks(dec) && Prefixed(dec) && ReadsBack(dec, enc, ok)
    requires forall p <- ps :: ok(p)
    requires Stream(cs) == EncodeAll(enc, ps)
    ensures ReceiveAll(dec, concurrency, Fresh, cs).buffer == []
    ensures ReceiveAll(dec, concurrency, Fresh, cs).jobs == Jobs(ps)
  {
    ReceiveAllStream(dec, concurrency, Fresh, cs);
    Empties(Stream(cs));
    SplitEncoded(dec, enc, ok, ps, []);
  }

  /** While the load is at the concurrency or above, no Noop asks for
      work. */
  lemma {:induction false} ReceiveAllBusy(dec: Decoder, concurrency: nat, r: Reader, cs: seq<Chunk>)
    requires Shrinks(dec)
    requires forall c <- cs :: c.load >= concurrency
    ensures ReceiveAll(dec, concurrency, r, cs).asks == r.asks
    decreases |cs|
  {
    if |cs| > 0 {
      var c := cs[0];
      var f := Split(dec, r.buffer + c.bytes);
      AsksCount(f.packets, c.load, concurrency);
      assert Receive(dec, concurrency, r, c).asks == r.asks + [];
      assert forall c' <- cs[1..] :: c' in cs;
      ReceiveAllBusy(dec, concurrency, Receive(dec, concurrency, r, c), cs[1..]);
    }
  }

  /** While the load stays below the concurrency, every Noop of the stream
      asks for work exactly once. */
  lemma {:induction false} ReceiveAllIdle(dec: Decoder, concurrency: nat, r: Reader, cs: seq<Chunk>)
    requires Shrinks(dec) && Prefixed(dec) && Settled(dec, r.buffer)
    requires forall c <- cs :: c.load < concurrency
    ensures ReceiveAll(dec, concurrency, r, cs).asks == r.asks + Grabs(Noops(Split(dec, r.buffer + Stream(cs)).packets))
    decreases |cs|
  {
    if |cs| == 0 {
      assert r.buffer + Stream(cs) == r.buffer;
      StaysLeft(dec, r.buffer);
    } else {
      var c, rest := cs[0], cs[1..];
      var x, y := r.buffer + c.bytes, Stream(rest);
      var r1 := Receive(dec, concurrency, r, c);
      ReceiveAllCons(dec, concurrency, r, cs);
      assert forall c' <- rest :: c' in cs;
      ReceiveAllIdle(dec, concurrency, r1, rest);
      StreamCons(r.buffer, cs);
      SplitAppend(dec, x, y);
      assert c.load < concurrency by {
        assert c in cs;
      }
      var f := Split(dec, x);
      AsksCount(f.packets, c.load, concurrency);
      GrabsJoin(r.asks, r1.asks, ReceiveAll(dec, concurrency, r1, rest).asks, f.packets, Split(dec, f.left + y).packets);
    }
  }

  /** Requests for the Noops of `a`, then of `b`, are those of `a + b`. */
  lemma GrabsJoin(qs0: seq<Request>, qs1: seq<Request>, qs2: seq<Request>, a: seq<Packet>, b: seq<Packet>)
    requires qs1 == qs0 + Grabs(Noops(a)) && qs2 == qs1 + Grabs(Noops(b))
    ensures qs2 == qs0 + Grabs(Noops(a + b))
  {
    NoopsAppend(a, b);
    GrabsAppend(Noops(a), Noops(b));
    Assoc(qs0, Grabs(Noops(a)), Grabs(Noops(b)));
  }

  /** `n` requests for work. */
  function Grabs(n: nat): (g: seq<Request>)
    ensures |g| == n
  {
    seq(n, _ => GrabJobUniq)
  }

  lemma GrabsAppend(m: nat, n: nat)
    ensures Grabs(m) + Grabs(n) == Grabs(m + n)
  {
  }

  lemma {:induction false} NoopsAppend(a: seq<Packet>, b: seq<Packet>)
    ensures Noops(a + b) == Noops(a) + Noops(b)
  {
    if |a| == 0 {
      assert a + b == b;
    } else {
      assert (a + b)[1..] == a[1..] + b;
      NoopsAppend(a[1..], b);
    }
  }

  // ------------------------------------------- the buffer after a bad packet

  /** As written: a read whose bytes start with a malformed packet leaves
      them in the buffer, and nothing read afterwards is ever forwarded. */
  lemma GarbageStalls(dec: Decoder, concurrency: nat, js: seq<Response>, qs: seq<Request>, g: Chunk, cs: seq<Chunk>)
    requires Shrinks(dec) && Prefixed(dec)
    requires dec(g.bytes) == Failed(Malformed)
    ensures ReceiveAll(dec, concurrency, Reader([], js, qs), [g] + cs).jobs == js
  {
    ReceiveAllStream(dec, concurrency, Reader([], js, qs), [g] + cs);
    assert Stream([g] + cs) == g.bytes + Stream(cs) by {
      assert ([g] + cs)[1..] == cs;
    }
    assert [] + Stream([g] + cs) == g.bytes + Stream(cs);
    MalformedStalls(dec, g.bytes, Stream(cs));
  }

  /** Corrected: a read that ends on a malformed packet throws the buffer
      away, as the log line announcing it says. */
  function Recover(dec: Decoder, concurrency: nat, r: Reader, c: Chunk): (r': Reader)
    requires Shrinks(dec)
    ensures r.jobs <= r'.jobs && r.asks <= r'.asks
    ensures r'.buffer == [] || dec(r'.buffer) == Failed(Incomplete)
  {
    var f := Split(dec, r.buffer + c.bytes);
    var left := if f.left != [] && dec(f.left) == Failed(Malformed) then [] else f.left;
    assert left != [] ==> dec(left).Failed? && dec(left).error != Malformed;
    Reader(left, r.jobs + Jobs(f.packets), r.asks + Asks(f.packets, c.load, concurrency))
  }

  function RecoverAll(dec: Decoder, concurrency: nat, r: Reader, cs: seq<Chunk>): (r': Reader)
    requires Shrinks(dec)
    ensures r.jobs <= r'.jobs && r.asks <= r'.asks
    decreases |cs|
  {
    if |cs| == 0 then r else RecoverAll(dec, concurrency, Recover(dec, concurrency, r, cs[0]), cs[1..])
  }

  /** Splitting a prefix of a stream of packets the decoder reads back
      gives the first `k` packets and leaves an incomplete packet, which
      with the rest of the stream is the encoding of the remaining
      packets. */
  lemma {:induction false} PrefixSplit(dec: Decoder, enc: Encoder, ok: Packet -> bool, ps: seq<Packet>, x: seq<byte>, y: seq<byte>)
    returns (k: nat)
    requires Shrinks(dec) && Prefixed(dec) && ReadsBack(dec, enc, ok)
    requires forall p <- ps :: ok(p)
    requires x + y == EncodeAll(enc, ps)
    ensures k <= |ps| && Split(dec, x).packets == ps[..k]
    ensures Split(dec, x).left + y == EncodeAll(enc, ps[k..])
    ensures Split(dec, x).left == [] || dec(Split(dec, x).left) == Failed(Incomplete)
    decreases |ps|
  {
    if |x| == 0 {
      k := 0;
      Empties(y);
      assert ps[0..] == ps;
    } else {
      var p, e, z := ps[0], enc(ps[0]), EncodeAll(enc, ps[1..]);
      assert ok(p);
      assert x + y == e + z;
      if |x| < |e| {
        k := 0;
        CutShort(x, y, e, z);
        PrefixIncomplete(dec, enc, ok, p, x, e[|x|..]);
        assert ps[0..] == ps;
      } else {
        var x' := x[|e|..];
        CutLong(x, y, e, z);
        assert dec(e + x') == Parsed(p, x');
        assert forall q <- ps[1..] :: q in ps;
        var k' := PrefixSplit(dec, enc, ok, ps[1..], x', y);
        k := k' + 1;
        assert Split(dec, x).packets == [p] + ps[1..][..k'];
        ConsSlices(ps, k');
      }
    }
  }

  lemma CutShort(x: seq<byte>, y: seq<byte>, e: seq<byte>, z: seq<byte>)
    requires x + y == e + z && |x| < |e|
    ensures e == x + e[|x|..]
  {
    assert x == (x + y)[..|x|];
  }

  lemma CutLong(x: seq<byte>, y: seq<byte>, e: seq<byte>, z: seq<byte>)
    requires x + y == e + z && |x| >= |e|
    ensures x == e + x[|e|..] && x[|e|..] + y == z
  {
    assert x[..|e|] == (x + y)[..|e|];
    assert x == x[..|e|] + x[|e|..];
  }

  lemma ConsSlices<T>(ps: seq<T>, k: nat)
    requires k < |ps|
    ensures [ps[0]] + ps[1..][..k] == ps[..k + 1] && ps[1..][k..] == ps[k + 1..]
  {
  }

  /** The corrected reader, holding at most an incomplete packet and then
      fed a stream of packets the decoder reads back in any chunks,
      forwards exactly their jobs and ends with an empty buffer. */
  lemma {:induction false} RecoverAllDelivers(dec: Decoder, enc: Encoder, ok: Packet -> bool, concurrency: nat, r: Reader, cs: seq<Chunk>, ps: seq<Packet>)
    requires Shrinks(dec) && Prefixed(dec) && ReadsBack(dec, enc, ok)
    requires forall p <- ps :: ok(p)
    requires Settled(dec, r.buffer)
    requires r.buffer + Stream(cs) == EncodeAll(enc, ps)
    ensures RecoverAll(dec, concurrency, r, cs).buffer == []
    ensures RecoverAll(dec, concurrency, r, cs).jobs == r.jobs + Jobs(ps)
    decreases |cs|
  {
    if |cs| == 0 {
      assert r.buffer == EncodeAll(enc, ps) by {
        assert r.buffer + Stream(cs) == r.buffer;
      }
      if |ps| > 0 {
        assert false;
      }
    } else {
      var c, rest := cs[0], cs[1..];
      StreamCons(r.buffer, cs);
      var k := PrefixSplit(dec, enc, ok, ps, r.buffer + c.bytes, Stream(rest));
      RecoverKeeps(dec, concurrency, r, c);
      var r1 := Recover(dec, concurrency, r, c);
      assert forall p <- ps[k..] :: p in ps;
      RecoverAllDelivers(dec, enc, ok, concurrency, r1, rest, ps[k..]);
      RecoverAllCons(dec, concurrency, r, cs);
      JoinJobs(r.jobs, r1.jobs, RecoverAll(dec, concurrency, r1, rest).jobs, ps, k);
    }
  }

  lemma RecoverAllCons(dec: Decoder, concurrency: nat, r: Reader, cs: seq<Chunk>)
    requires Shrinks(dec) && |cs| > 0
    ensures RecoverAll(dec, concurrency, r, cs) == RecoverAll(dec, concurrency, Recover(dec, concurrency, r, cs[0]), cs[1..])
  {
  }

  /** The jobs of the first `k` packets, then those of the others, are the
      jobs of all of them. */
  lemma JoinJobs(js0: seq<Response>, js1: seq<Response>, js2: seq<Response>, ps: seq<Packet>, k: nat)
    requires k <= |ps|
    requires js1 == js0 + Jobs(ps[..k]) && js2 == js1 + Jobs(ps[k..])
    ensures js2 == js0 + Jobs(ps)
  {
    assert ps[..k] + ps[k..] == ps;
    JobsAppend(ps[..k], ps[k..]);
    Assoc(js0, Jobs(ps[..k]), Jobs(ps[k..]));
  }

  /** A read that does not end on a malformed packet is handled by the
      corrected reader exactly as by the one as written. */
  lemma RecoverKeeps(dec: Decoder, concurrency: nat, r: Reader, c: Chunk)
    requires Shrinks(dec)
    requires var left := Split(dec, r.buffer + c.bytes).left; left == [] || dec(left) == Failed(Incomplete)
    ensures Recover(dec, concurrency, r, c) == Receive(dec, concurrency, r, c)
  {
  }

  /** Corrected: after a read that starts with a malformed packet, a
      stream of packets the decoder reads back is delivered again. */
  lemma GarbageRecovers(dec: Decoder, enc: Encoder, ok: Packet -> bool, concurrency: nat, js: seq<Response>, qs: seq<Request>, g: Chunk, cs: seq<Chunk>, ps: seq<Packet>)
    requires Shrinks(dec) && Prefixed(dec) && ReadsBack(dec, enc, ok)
    requires forall p <- ps :: ok(p)
    requires dec(g.bytes) == Failed(Malformed)
    requires Stream(cs) == EncodeAll(enc, ps)
    ensures RecoverAll(dec, concurrency, Reader([], js, qs), [g] + cs).jobs == js + Jobs(ps)
  {
    var r1 := Recover(dec, concurrency, Reader([], js, qs), g);
    assert [] + g.bytes == g.bytes;
    assert r1 == Reader([], js, qs);
    assert ([g] + cs)[1..] == cs;
    RecoverAllDelivers(dec, enc, ok, concurrency, r1, cs, ps);
  }
}
