/** The current packet codec (src/protocols/gearman.rs). NUL-delimited
    fields are C strings: the value holds no 0 byte, the encoder appends the
    terminator and the decoder drops it. */
module GearmanCodec {
  import opened Bytes
  import opened Messages
  import opened Wire
  import opened Layout

  // ---------------------------------------------------------------- encoding

  /** Every NUL-delimited field can become a `CString`; for any other value
      the source's `CString::new(..).unwrap()` panics while encoding. */
  predicate Encodable(p: Payload) {
    AllNulFree(Fields(p))
  }

  /** The body deku writes: each delimited field followed by its
      terminator, then the trailing field verbatim. */
  function Body(p: Payload): seq<byte> {
    Joined(Fields(p)) + Trailing(p)
  }

  /** `Packet::request`: deku's `update` derives magic, type and length from
      the payload (the length is what `Request::bytes` measures). */
  function RequestPacket(r: Request): (p: Packet)
    requires Encodable(Req(r))
    ensures p.payload == Req(r)
    ensures p.Magic() == RequestMagic && p.kind == r.Id()
    ensures |Encode(p)| == 12 + p.length
    ensures |Body(Req(r))| < U32_LIMIT ==> WellFormed(p)
  {
    Packet(r.Id(), |Body(Req(r))|, Req(r))
  }

  /** `Packet::response`. */
  function ResponsePacket(r: Response): (p: Packet)
    requires Encodable(Res(r))
    ensures p.payload == Res(r)
    ensures p.Magic() == ResponseMagic && p.kind == r.Id()
    ensures |Encode(p)| == 12 + p.length
    ensures |Body(Res(r))| < U32_LIMIT ==> WellFormed(p)
  {
    Packet(r.Id(), |Body(Res(r))|, Res(r))
  }

  /** `to_bytes` of a packet: its stored header words, then the body. */
  function Encode(p: Packet): (b: seq<byte>)
    requires Encodable(p.payload)
    ensures |b| == 12 + |Body(p.payload)|
  {
    EncodeHeader(p.Magic(), p.kind, p.length) + Body(p.payload)
  }

  /** What `Packet::request`/`Packet::response` produce, with a length the
      four header bytes can carry. */
  predicate WellFormed(p: Packet) {
    && Encodable(p.payload)
    && p.kind == p.Id()
    && p.length == |Body(p.payload)|
    && p.length < U32_LIMIT
  }

  // ---------------------------------------------------------------- decoding

  /** The `k` C-string fields, then `datalen - (k + their lengths)` raw
      bytes. When the fields already overrun `datalen` the `usize`
      subtraction underflows; that is reported as malformed. */
  function FieldsThenData(k: nat, datalen: nat, s: seq<byte>): (r: Decoded<Parts>)
    ensures Leaves(s, r)
    ensures r.Parsed? ==> |r.value.fields| == k
    ensures r.Parsed? ==> |Joined(r.value.fields)| + |r.value.data| == datalen
  {
    match CStrs(k, s)
    case Failed(e) => Failed(e)
    case Parsed(fs, s1) =>
      if datalen < |Joined(fs)| then Failed(Malformed)
      else
        match Raw(datalen - |Joined(fs)|, s1)
        case Failed(e) => Failed(e)
        case Parsed(d, s2) =>
          Parsed(Parts(fs, d), s2)
  }

  /** The request or response body the header's magic and type select:
      nothing for the bodiless types, fields and trailing data for the
      others, an error for a type number no variant has. */
  function DecodeBody(h: Header, s: seq<byte>): (r: Decoded<Payload>)
    ensures Leaves(s, r)
    ensures r.Parsed? ==> r.value.Magic() == h.magic && r.value.Id() == h.kind
    ensures ShapeOf(h.magic, h.kind) == Unknown ==> r == Failed(Malformed)
  {
    match ShapeOf(h.magic, h.kind)
    case Unknown => Failed(Malformed)
    case Bodiless => Parsed(BuildBodiless(h.magic, h.kind), s)
    case Delimited(k) =>
      match FieldsThenData(k, h.length, s)
      case Failed(e) => Failed(e)
      case Parsed(parts, rest) => Parsed(Build(h.magic, h.kind, parts.fields, parts.data), rest)
  }

  /** `Packet::from_bytes`: the header, then the body it announces. A
      decoded packet keeps the header's type and length and names the
      payload its magic and type select. */
  function Decode(s: seq<byte>): (r: Decoded<Packet>)
    ensures Leaves(s, r)
    ensures r.Parsed? ==> r.value.kind == r.value.Id() && r.value.length < U32_LIMIT
    ensures r.Parsed? ==> |r.rest| + 12 <= |s|
    ensures |s| < 4 ==> r == Failed(Incomplete)
  {
    match DecodeHeader(s)
    case Failed(e) => Failed(e)
    case Parsed(h, body) =>
      match DecodeBody(h, body)
      case Failed(e) => Failed(e)
      case Parsed(q, rest) =>
        Parsed(Packet(h.kind, h.length, q), rest)
  }

  // ---------------------------------------------------------- round trips

  lemma FieldsThenDataParsed(k: nat, datalen: nat, s: seq<byte>, fs: seq<seq<byte>>, s1: seq<byte>, d: seq<byte>, s2: seq<byte>)
    requires CStrs(k, s) == Parsed(fs, s1) && |Joined(fs)| <= datalen
    requires Raw(datalen - |Joined(fs)|, s1) == Parsed(d, s2)
    ensures FieldsThenData(k, datalen, s) == Parsed(Parts(fs, d), s2)
  {
  }

  /** Fields and trailing data read back as written, whatever follows. */
  lemma FieldsThenDataRoundTrip(fs: seq<seq<byte>>, d: seq<byte>, t: seq<byte>, s: seq<byte>)
    requires AllNulFree(fs) && s == Joined(fs) + (d + t)
    ensures FieldsThenData(|fs|, |Joined(fs)| + |d|, s) == Parsed(Parts(fs, d), t)
  {
    CStrsRoundTrip(fs, d + t);
    assert Raw(|d|, d + t) == Parsed(d, t) by {
      assert (d + t)[..|d|] == d && (d + t)[|d|..] == t;
    }
    FieldsThenDataParsed(|fs|, |Joined(fs)| + |d|, s, fs, d + t, d, t);
  }

  /** A body reads back as the payload it was written from. */
  lemma BodyRoundTrip(q: Payload, t: seq<byte>)
    requires Encodable(q) && |Body(q)| < U32_LIMIT
    ensures DecodeBody(Header(q.Magic(), q.Id(), |Body(q)|), Body(q) + t) == Parsed(q, t)
  {
    ShapeOfPayload(q);
    if ShapeOf(q.Magic(), q.Id()).Delimited? {
      FieldsThenDataRoundTrip(Fields(q), Trailing(q), t, Body(q) + t);
    }
  }

  /** Decoding an encoded packet gives the packet back and leaves exactly
      the bytes that followed it. */
  lemma RoundTrip(p: Packet, t: seq<byte>)
    requires WellFormed(p)
    ensures Decode(Encode(p) + t) == Parsed(p, t)
  {
    var q := p.payload;
    var body := Body(q);
    var header := EncodeHeader(p.Magic(), p.kind, p.length);
    assert Encode(p) + t == header + (body + t);
    assert DecodeHeader(header + (body + t)) == Parsed(Header(p.Magic(), p.kind, p.length), body + t) by {
      HeaderRoundTrip(p.Magic(), p.kind, p.length, body + t);
    }
    assert DecodeBody(Header(p.Magic(), p.kind, p.length), body + t) == Parsed(q, t) by {
      BodyRoundTrip(q, t);
    }
  }

  /** What `FieldsThenData` reads is exactly its fields, none holding a
      0 byte, joined as C strings and then its trailing data. */
  lemma FieldsThenDataSplit(k: nat, datalen: nat, s: seq<byte>)
    requires FieldsThenData(k, datalen, s).Parsed?
    ensures AllNulFree(FieldsThenData(k, datalen, s).value.fields)
    ensures s == Joined(FieldsThenData(k, datalen, s).value.fields)
               + FieldsThenData(k, datalen, s).value.data + FieldsThenData(k, datalen, s).rest
  {
    var r := FieldsThenData(k, datalen, s);
    var fs, s1 := CStrs(k, s).value, CStrs(k, s).rest;
    CStrsSplit(k, s);
    var n := datalen - |Joined(fs)|;
    assert r.value.fields == fs && r.value.data == s1[..n] && r.rest == s1[n..];
    Resplit(s, Joined(fs), s1, n);
  }

  lemma Resplit(s: seq<byte>, j: seq<byte>, s1: seq<byte>, n: nat)
    requires s == j + s1 && n <= |s1|
    ensures s == j + s1[..n] + s1[n..]
  {
    assert s1 == s1[..n] + s1[n..];
  }

  /** What `DecodeBody` reads is exactly the body of the payload it
      returns, and that payload can be encoded again. */
  lemma BodySplit(h: Header, s: seq<byte>)
    requires DecodeBody(h, s).Parsed?
    ensures Encodable(DecodeBody(h, s).value)
    ensures s == Body(DecodeBody(h, s).value) + DecodeBody(h, s).rest
  {
    if ShapeOf(h.magic, h.kind).Delimited? {
      FieldsThenDataSplit(ShapeOf(h.magic, h.kind).count, h.length, s);
    }
  }

  /** The other direction: whatever `Decode` accepts is the encoding of
      the packet it returns, followed by the unread rest. For the bodiless
      types this holds because their body is empty whatever length the
      header claims. */
  lemma DecodeEncode(s: seq<byte>)
    requires Decode(s).Parsed?
    ensures Encodable(Decode(s).value.payload)
    ensures s == Encode(Decode(s).value) + Decode(s).rest
  {
    var h, body := DecodeHeader(s).value, DecodeHeader(s).rest;
    var p, rest := Decode(s).value, Decode(s).rest;
    assert p == Packet(h.kind, h.length, DecodeBody(h, body).value);
    assert rest == DecodeBody(h, body).rest;
    BodySplit(h, body);
    HeaderBytes(s);
    Glue(s, EncodeHeader(p.Magic(), p.kind, p.length), body, Body(p.payload), rest);
  }

  lemma Glue(s: seq<byte>, header: seq<byte>, body: seq<byte>, b: seq<byte>, rest: seq<byte>)
    requires |s| >= 12 && s[..12] == header && s[12..] == body && body == b + rest
    ensures s == header + b + rest
  {
    assert s == s[..12] + s[12..];
  }

  // ------------------------------------------------------- more input

  lemma FieldsThenDataExtends(k: nat, datalen: nat, s: seq<byte>, t: seq<byte>)
    ensures Extends(FieldsThenData(k, datalen, s), FieldsThenData(k, datalen, s + t), t)
  {
    CStrsExtends(k, s, t);
    if CStrs(k, s).Parsed? {
      var fs, s1 := CStrs(k, s).value, CStrs(k, s).rest;
      if datalen >= |Joined(fs)| {
        RawExtends(datalen - |Joined(fs)|, s1, t);
      }
    }
  }

  /** Bytes arriving after a decodable prefix change nothing but the rest,
      and a malformed prefix stays malformed: the decoder never needs to
      look past the packet it returns. */
  lemma {:induction false} DecodeExtends(s: seq<byte>, t: seq<byte>)
    ensures Extends(Decode(s), Decode(s + t), t)
  {
    HeaderExtends(s, t);
    if DecodeHeader(s).Parsed? {
      var h, body := DecodeHeader(s).value, DecodeHeader(s).rest;
      if ShapeOf(h.magic, h.kind).Delimited? {
        FieldsThenDataExtends(ShapeOf(h.magic, h.kind).count, h.length, body, t);
      }
    }
  }

  // ------------------------------------------------------- fixed layouts

  /** A Noop is its bare header: `\0RES`, type 6, length 0. */
  lemma NoopEncoding()
    ensures Encode(ResponsePacket(Noop)) == [0, 0x52, 0x45, 0x53, 0, 0, 0, 6, 0, 0, 0, 0]
  {
  }

  /** A NoJob is its bare header: `\0RES`, type 10, length 0. */
  lemma NoJobEncoding()
    ensures Encode(ResponsePacket(NoJob)) == [0, 0x52, 0x45, 0x53, 0, 0, 0, 10, 0, 0, 0, 0]
  {
  }

  /** A job assignment's body is its three delimited fields and the
      workload, and the header announces their total size. */
  lemma JobAssignUniqLayout(h: seq<byte>, n: seq<byte>, u: seq<byte>, w: seq<byte>)
    requires NulFree(h) && NulFree(n) && NulFree(u)
    ensures Body(Res(JobAssignUniq(h, n, u, w))) == h + [0] + n + [0] + u + [0] + w
    ensures ResponsePacket(JobAssignUniq(h, n, u, w)).length == |h| + |n| + |u| + |w| + 3
  {
    assert [h, n, u][1..] == [n, u] && [n, u][1..] == [u] && [u][1..] == [];
    assert Joined([u]) == u + [0];
    assert Joined([n, u]) == n + [0] + (u + [0]);
    assert Joined([h, n, u]) == h + [0] + (n + [0] + (u + [0]));
    assert Fields(Res(JobAssignUniq(h, n, u, w))) == [h, n, u];
  }
}
