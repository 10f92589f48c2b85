/** The Gearman packets this worker sends and receives, shared by both codec
    generations. Each field is the raw byte vector of the Rust struct; which
    generation's convention the NUL-delimited fields follow (terminator
    stripped or kept) is a property of the codec, not of the message. */
module Messages {
  import opened Bytes

  /** Packets a worker sends (magic `\0REQ`). */
  datatype Request =
    | SetClientId(id: seq<byte>)
    | CanDo(name: seq<byte>)
    | CantDo(name: seq<byte>)
    | PreSleep
    | GrabJobUniq
    | WorkStatus(handle: seq<byte>, numerator: seq<byte>, denominator: seq<byte>)
    | WorkComplete(handle: seq<byte>, data: seq<byte>)
    | WorkFail(handle: seq<byte>)
    | WorkException(handle: seq<byte>, data: seq<byte>)
    | WorkData(handle: seq<byte>, data: seq<byte>)
  {
    /** The packet type number of the Gearman binary protocol. */
    function Id(): u32 {
      match this
      case SetClientId(_) => 22
      case CanDo(_) => 1
      case CantDo(_) => 2
      case PreSleep => 4
      case GrabJobUniq => 30
      case WorkStatus(_, _, _) => 12
      case WorkComplete(_, _) => 13
      case WorkFail(_) => 14
      case WorkException(_, _) => 25
      case WorkData(_, _) => 28
    }

    /** The protocol's name for the packet type, used in log lines. */
    function Name(): string {
      match this
      case SetClientId(_) => "SET_CLIENT_ID"
      case CanDo(_) => "CAN_DO"
      case CantDo(_) => "CANT_DO"
      case PreSleep => "PRE_SLEEP"
      case GrabJobUniq => "GRAB_JOB_UNIQ"
      case WorkStatus(_, _, _) => "WORK_STATUS"
      case WorkComplete(_, _) => "WORK_COMPLETE"
      case WorkFail(_) => "WORK_FAIL"
      case WorkException(_, _) => "WORK_EXCEPTION"
      case WorkData(_, _) => "WORK_DATA"
    }
  }

  /** Packets a worker receives (magic `\0RES`). */
  datatype Response =
    | Noop
    | NoJob
    | JobAssignUniq(handle: seq<byte>, name: seq<byte>, unique: seq<byte>, workload: seq<byte>)
  {
    function Id(): u32 {
      match this
      case Noop => 6
      case NoJob => 10
      case JobAssignUniq(_, _, _, _) => 31
    }

    function Name(): string {
      match this
      case Noop => "NOOP"
      case NoJob => "NO_JOB"
      case JobAssignUniq(_, _, _, _) => "JOB_ASSIGN_UNIQ"
    }
  }

  /** The two magic words of the packet header. */
  datatype Magic = RequestMagic | ResponseMagic {
    /** `\0REQ` and `\0RES` read as big-endian 32-bit numbers. */
    function Value(): u32 {
      match this
      case RequestMagic => 0x0052_4551
      case ResponseMagic => 0x0052_4553
    }
  }

  /** Exactly one of a request or a response: the Rust struct's pair of
      options with its "either request or response" rule built in. */
  datatype Payload = Req(request: Request) | Res(response: Response) {
    function Magic(): Magic {
      if Req? then RequestMagic else ResponseMagic
    }

    function Id(): u32 {
      if Req? then request.Id() else response.Id()
    }

    function Name(): string {
      if Req? then request.Name() else response.Name()
    }
  }

  /** A packet as it stands in the header: type and length are stored, not
      recomputed, so a decoded packet keeps whatever the wire said. */
  datatype Packet = Packet(kind: u32, length: nat, payload: Payload) {
    function Magic(): Magic { payload.Magic() }
    function Id(): u32 { payload.Id() }
    function Name(): string { payload.Name() }
  }

  /** Request and response type numbers never collide, so the number
      alone tells which side sent a packet. */
  lemma IdsDistinct(a: Payload, b: Payload)
    ensures a.Id() == b.Id() ==> a.Magic() == b.Magic()
  {
  }
}
