/** The older packet codec (src/packet.rs). Its NUL-delimited fields keep
    their terminator: the decoder reads up to and including the first 0
    byte and the encoder writes the field verbatim, so a caller that wants
    a well-formed packet supplies the trailing 0 itself. */
module LegacyCodec {
  import opened Bytes
  import opened Messages
  import opened Wire
  import opened Layout
  import GearmanCodec

  // ---------------------------------------------------------------- encoding

  /** The body deku writes: every field verbatim, one after another. */
  function Body(p: Payload): seq<byte> {
    Concat(Fields(p)) + Trailing(p)
  }

  /** `Packet::request`: type and length derived from the payload. */
  function RequestPacket(r: Request): (p: Packet)
    ensures p.payload == Req(r)
    ensures p.Magic() == RequestMagic && p.kind == r.Id()
    ensures |Encode(p)| == 12 + p.length
    ensures AllTerminated(Fields(Req(r))) && |Body(Req(r))| < U32_LIMIT ==> WellFormed(p)
  {
    Packet(r.Id(), |Body(Req(r))|, Req(r))
  }

  /** `Packet::response`. */
  function ResponsePacket(r: Response): (p: Packet)
    ensures p.payload == Res(r)
    ensures p.Magic() == ResponseMagic && p.kind == r.Id()
    ensures |Encode(p)| == 12 + p.length
    ensures AllTerminated(Fields(Res(r))) && |Body(Res(r))| < U32_LIMIT ==> WellFormed(p)
  {
    Packet(r.Id(), |Body(Res(r))|, Res(r))
  }

  /** `to_bytes`: the header words, then the body. Unlike the newer codec
      this never fails: any field value is written as it is. */
  function Encode(p: Packet): (b: seq<byte>)
    ensures |b| == 12 + |Body(p.payload)|
  {
    EncodeHeader(p.Magic(), p.kind, p.length) + Body(p.payload)
  }

  /** A packet the decoder gives back unchanged: every delimited field ends
      in its only 0 byte, and the header words are the derived ones. */
  predicate WellFormed(p: Packet) {
    && AllTerminated(Fields(p.payload))
    && p.kind == p.Id()
    && p.length == |Body(p.payload)|
    && p.length < U32_LIMIT
  }

  // ---------------------------------------------------------------- decoding

  /** The `k` terminator-inclusive fields, then `datalen` minus their
      lengths raw bytes; an underflowing subtraction is malformed. */
  function FieldsThenData(k: nat, datalen: nat, s: seq<byte>): (r: Decoded<Parts>)
    ensures Leaves(s, r)
    ensures r.Parsed? ==> |r.value.fields| == k
    ensures r.Parsed? ==> |Concat(r.value.fields)| + |r.value.data| == datalen
  {
    match UntilNuls(k, s)
    case Failed(e) => Failed(e)
    case Parsed(fs, s1) =>
      if datalen < |Concat(fs)| then Failed(Malformed)
      else
        match Raw(datalen - |Concat(fs)|, s1)
        case Failed(e) => Failed(e)
        case Parsed(d, s2) => Parsed(Parts(fs, d), s2)
  }

  function DecodeBody(h: Header, s: seq<byte>): (r: Decoded<Payload>)
    ensures Leaves(s, r)
    ensures r.Parsed? ==> r.value.Magic() == h.magic && r.value.Id() == h.kind
    ensures ShapeOf(h.magic, h.kind) == Unknown ==> r == Failed(Malformed)
  {
    match ShapeOf(h.magic, h.kind)
    case Unknown => Failed(Malformed)
    case Bodiless => Parsed(BuildBodiless(h.magic, h.kind), s)
    case Delimited(k) =>
      match FieldsThenData(k, h.length, s)
      case Failed(e) => Failed(e)
      case Parsed(parts, rest) => Parsed(Build(h.magic, h.kind, parts.fields, parts.data), rest)
  }

  /** `Packet::from_bytes`. */
  function Decode(s: seq<byte>): (r: Decoded<Packet>)
    ensures Leaves(s, r)
    ensures r.Parsed? ==> r.value.kind == r.value.Id() && r.value.length < U32_LIMIT
    ensures r.Parsed? ==> |r.rest| + 12 <= |s|
    ensures |s| < 4 ==> r == Failed(Incomplete)
  {
    match DecodeHeader(s)
    case Failed(e) => Failed(e)
    case Parsed(h, body) =>
      match DecodeBody(h, body)
      case Failed(e) => Failed(e)
      case Parsed(q, rest) => Parsed(Packet(h.kind, h.length, q), rest)
  }

  // ------------------------------------------- relation to the newer codec

  /** A payload with a terminator appended to each delimited field. */
  function KeepNul(q: Payload): (q': Payload)
    ensures q'.Magic() == q.Magic() && q'.Id() == q.Id()
    ensures Fields(q') == Terminate(Fields(q)) && Trailing(q') == Trailing(q)
  {
    WithFields(q, Terminate(Fields(q)))
  }

  /** A newer-codec result seen through the older codec's convention. */
  function KeepNulIn(r: Decoded<Packet>): Decoded<Packet> {
    match r
    case Parsed(p, rest) => Parsed(Packet(p.kind, p.length, KeepNul(p.payload)), rest)
    case Failed(e) => Failed(e)
  }

  lemma FieldsThenDataIsCurrent(k: nat, datalen: nat, s: seq<byte>)
    ensures GearmanCodec.FieldsThenData(k, datalen, s).Failed? ==>
      FieldsThenData(k, datalen, s) == GearmanCodec.FieldsThenData(k, datalen, s)
    ensures GearmanCodec.FieldsThenData(k, datalen, s).Parsed? ==>
      var r := GearmanCodec.FieldsThenData(k, datalen, s);
      FieldsThenData(k, datalen, s) == Parsed(Parts(Terminate(r.value.fields), r.value.data), r.rest)
  {
    UntilNulsIsCStrs(k, s);
    if CStrs(k, s).Parsed? {
      ConcatTerminate(CStrs(k, s).value);
    }
  }

  lemma DecodeBodyIsCurrent(h: Header, s: seq<byte>)
    ensures GearmanCodec.DecodeBody(h, s).Failed? ==> DecodeBody(h, s) == GearmanCodec.DecodeBody(h, s)
    ensures GearmanCodec.DecodeBody(h, s).Parsed? ==>
      DecodeBody(h, s) == Parsed(KeepNul(GearmanCodec.DecodeBody(h, s).value), GearmanCodec.DecodeBody(h, s).rest)
  {
    match ShapeOf(h.magic, h.kind)
    case Unknown =>
    case Bodiless =>
    case Delimited(k) =>
      FieldsThenDataIsCurrent(k, h.length, s);
      var r := GearmanCodec.FieldsThenData(k, h.length, s);
      if r.Parsed? {
        WithFieldsBuild(h.magic, h.kind, r.value.fields, r.value.data, Terminate(r.value.fields));
      }
  }

  /** The two generations read the same packets from the same bytes and
      consume the same bytes; the older one keeps each field's terminator,
      and both fail on exactly the same inputs with the same error. */
  lemma DecodeIsCurrent(s: seq<byte>)
    ensures Decode(s) == KeepNulIn(GearmanCodec.Decode(s))
  {
    if DecodeHeader(s).Parsed? {
      DecodeBodyIsCurrent(DecodeHeader(s).value, DecodeHeader(s).rest);
    }
  }

  /** The older body of a payload whose fields carry their terminators is
      the newer body of the bare payload. */
  lemma BodyKeepNul(q: Payload)
    ensures Body(KeepNul(q)) == GearmanCodec.Body(q)
  {
    ConcatTerminate(Fields(q));
  }

  // ---------------------------------------------------------- round trips

  /** Decoding an encoded well-formed packet gives it back and leaves
      exactly the bytes that followed it. */
  lemma RoundTrip(p: Packet, t: seq<byte>)
    requires WellFormed(p)
    ensures Decode(Encode(p) + t) == Parsed(p, t)
  {
    var fs := Unterminate(Fields(p.payload));
    var q := WithFields(p.payload, fs);
    var p' := Packet(p.kind, p.length, q);
    assert KeepNul(q) == p.payload by {
      WithFieldsRestore(p.payload, fs);
    }
    BodyKeepNul(q);
    assert GearmanCodec.WellFormed(p');
    assert GearmanCodec.Encode(p') == Encode(p);
    GearmanCodec.RoundTrip(p', t);
    DecodeIsCurrent(Encode(p) + t);
  }

  /** Whatever the older decoder accepts is well-formed apart from the
      header length of a bodiless packet, and is re-encoded as exactly the
      bytes it was read from. */
  lemma DecodeEncode(s: seq<byte>)
    requires Decode(s).Parsed?
    ensures AllTerminated(Fields(Decode(s).value.payload))
    ensures s == Encode(Decode(s).value) + Decode(s).rest
  {
    DecodeIsCurrent(s);
    GearmanCodec.DecodeEncode(s);
    var q := GearmanCodec.Decode(s).value.payload;
    TerminateAllTerminated(Fields(q));
    BodyKeepNul(q);
  }

  /** More input never changes a decoded packet or a malformed verdict. */
  lemma DecodeExtends(s: seq<byte>, t: seq<byte>)
    ensures Extends(Decode(s), Decode(s + t), t)
  {
    DecodeIsCurrent(s);
    DecodeIsCurrent(s + t);
    GearmanCodec.DecodeExtends(s, t);
  }

  // ------------------------------------------------------- fixed layouts

  /** A Noop is its bare header: `\0RES`, type 6, length 0. */
  lemma NoopEncoding()
    ensures Encode(ResponsePacket(Noop)) == [0, 0x52, 0x45, 0x53, 0, 0, 0, 6, 0, 0, 0, 0]
  {
  }

  /** A NoJob is its bare header: `\0RES`, type 10, length 0. */
  lemma NoJobEncoding()
    ensures Encode(ResponsePacket(NoJob)) == [0, 0x52, 0x45, 0x53, 0, 0, 0, 10, 0, 0, 0, 0]
  {
  }

  /** A job assignment's body is its three delimited fields and the
      workload, and the header announces their total size. */
  lemma JobAssignUniqLayout(h: seq<byte>, n: seq<byte>, u: seq<byte>, w: seq<byte>)
    ensures Body(Res(JobAssignUniq(h, n, u, w))) == h + n + u + w
    ensures ResponsePacket(JobAssignUniq(h, n, u, w)).length == |h| + |n| + |u| + |w|
  {
    assert [h, n, u][1..] == [n, u] && [n, u][1..] == [u] && [u][1..] == [];
    assert Concat([u]) == u;
    assert Concat([n, u]) == n + (u);
    assert Concat([h, n, u]) == h + (n + (u));
    assert Fields(Res(JobAssignUniq(h, n, u, w))) == [h, n, u];
  }
}
