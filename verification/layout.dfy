/** The body layout of every packet type both codecs implement. A body is
    either absent (deku reads nothing after the header) or a number of
    NUL-delimited fields followed by one trailing raw field whose size is
    whatever the header's length leaves over. */
module Layout {
  import opened Bytes
  import opened Messages

  datatype Shape =
    | Unknown              // no variant has this type number: a parse error
    | Bodiless             // nothing after the header is read
    | Delimited(count: nat) // `count` NUL-delimited fields, then the trailing field

  /** The shape the deku attributes give each (magic, type number) pair. */
  function ShapeOf(magic: Magic, kind: u32): Shape {
    match magic
    case RequestMagic =>
      if kind in {4, 30} then Bodiless
      else if kind in {22, 1, 2, 14} then Delimited(0)
      else if kind in {13, 25, 28} then Delimited(1)
      else if kind == 12 then Delimited(2)
      else Unknown
    case ResponseMagic =>
      if kind in {6, 10} then Bodiless
      else if kind == 31 then Delimited(3)
      else Unknown
  }

  /** The NUL-delimited fields of a payload, in wire order. */
  function Fields(p: Payload): seq<seq<byte>> {
    match p
    case Req(WorkStatus(h, n, _)) => [h, n]
    case Req(WorkComplete(h, _)) => [h]
    case Req(WorkException(h, _)) => [h]
    case Req(WorkData(h, _)) => [h]
    case Res(JobAssignUniq(h, n, u, _)) => [h, n, u]
    case _ => []
  }

  /** The trailing raw field of a payload. */
  function Trailing(p: Payload): seq<byte> {
    match p
    case Req(SetClientId(id)) => id
    case Req(CanDo(n)) => n
    case Req(CantDo(n)) => n
    case Req(WorkStatus(_, _, d)) => d
    case Req(WorkComplete(_, d)) => d
    case Req(WorkFail(h)) => h
    case Req(WorkException(_, d)) => d
    case Req(WorkData(_, d)) => d
    case Res(JobAssignUniq(_, _, _, w)) => w
    case _ => []
  }

  /** The payload a bodiless header denotes. */
  function BuildBodiless(magic: Magic, kind: u32): (p: Payload)
    requires ShapeOf(magic, kind) == Bodiless
    ensures p.Magic() == magic && p.Id() == kind
    ensures Fields(p) == [] && Trailing(p) == []
  {
    match magic
    case RequestMagic => if kind == 4 then Req(PreSleep) else Req(GrabJobUniq)
    case ResponseMagic => if kind == 6 then Res(Noop) else Res(NoJob)
  }

  /** The payload a header with delimited fields denotes, given the fields
      and the trailing field read after it. */
  function Build(magic: Magic, kind: u32, fs: seq<seq<byte>>, d: seq<byte>): (p: Payload)
    requires ShapeOf(magic, kind).Delimited? && |fs| == ShapeOf(magic, kind).count
    ensures p.Magic() == magic && p.Id() == kind
    ensures Fields(p) == fs && Trailing(p) == d
  {
    match magic
    case RequestMagic =>
      if kind == 22 then Req(SetClientId(d))
      else if kind == 1 then Req(CanDo(d))
      else if kind == 2 then Req(CantDo(d))
      else if kind == 14 then Req(WorkFail(d))
      else if kind == 13 then Req(WorkComplete(fs[0], d))
      else if kind == 25 then Req(WorkException(fs[0], d))
      else if kind == 28 then Req(WorkData(fs[0], d))
      else Req(WorkStatus(fs[0], fs[1], d))
    case ResponseMagic =>
      Res(JobAssignUniq(fs[0], fs[1], fs[2], d))
  }

  /** Every payload has the shape its type number announces and is rebuilt
      from its own fields: the type numbers `Id` reports are the ones the
      decoders dispatch on. */
  lemma ShapeOfPayload(p: Payload)
    ensures ShapeOf(p.Magic(), p.Id()) != Unknown
    ensures ShapeOf(p.Magic(), p.Id()) == Bodiless ==> BuildBodiless(p.Magic(), p.Id()) == p
    ensures ShapeOf(p.Magic(), p.Id()).Delimited? ==>
      |Fields(p)| == ShapeOf(p.Magic(), p.Id()).count &&
      Build(p.Magic(), p.Id(), Fields(p), Trailing(p)) == p
  {
  }

  /** The payload with its delimited fields replaced, type and trailing
      field unchanged. */
  function WithFields(p: Payload, fs: seq<seq<byte>>): (q: Payload)
    requires |fs| == |Fields(p)|
    ensures q.Magic() == p.Magic() && q.Id() == p.Id()
    ensures Fields(q) == fs && Trailing(q) == Trailing(p)
  {
    ShapeOfPayload(p);
    if ShapeOf(p.Magic(), p.Id()).Delimited? then Build(p.Magic(), p.Id(), fs, Trailing(p)) else p
  }

  /** Putting a payload's own fields back undoes any replacement. */
  lemma WithFieldsRestore(p: Payload, fs: seq<seq<byte>>)
    requires |fs| == |Fields(p)|
    ensures WithFields(WithFields(p, fs), Fields(p)) == p
  {
    ShapeOfPayload(p);
  }

  /** Replacing the fields of a freshly built payload builds it with the
      new fields. */
  lemma WithFieldsBuild(magic: Magic, kind: u32, fs: seq<seq<byte>>, d: seq<byte>, gs: seq<seq<byte>>)
    requires ShapeOf(magic, kind).Delimited? && |fs| == ShapeOf(magic, kind).count && |gs| == |fs|
    ensures WithFields(Build(magic, kind, fs, d), gs) == Build(magic, kind, gs, d)
  {
  }
}
