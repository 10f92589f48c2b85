/** An order: one job handed to the executor program (src/state/order.rs).
    The process itself is not modelled; what it did is an input, and the
    model states what the order sends back to the server for it. */
module Orders {
  import opened Bytes
  import opened Messages

  /** A filesystem path: absolute or relative, and its components. */
  datatype Path = Path(absolute: bool, components: seq<seq<byte>>)

  /** Rust's `Path::parent`: the path without its last component; none
      for a root or an empty path. A relative path of one component has
      the empty path as its parent. */
  function Parent(p: Path): (r: Option<Path>)
    ensures r.Some? <==> |p.components| > 0
    ensures r.Some? ==> r.value.absolute == p.absolute && r.value.components + [p.components[|p.components| - 1]] == p.components
  {
    if |p.components| == 0 then None
    else Some(Path(p.absolute, p.components[..|p.components| - 1]))
  }

  /** `/tmp`. */
  const Tmp: Path := Path(true, [Ascii("tmp")])

  /** The part of the worker an order copies. */
  datatype Worker = Worker(name: seq<byte>, executor: Path, concurrency: nat)

  /** The timeout every order gets, in seconds. */
  const TimeoutSecs: nat := 120

  datatype Order = Order(
    name: seq<byte>,
    executor: Path,
    timeoutSecs: nat,
    handle: seq<byte>,
    unique: seq<byte>,
    workload: seq<byte>)

  /** `Worker::order`: the worker's name and executor, the fixed timeout,
      and the job's own handle, unique id and workload. */
  function MakeOrder(w: Worker, handle: seq<byte>, unique: seq<byte>, workload: seq<byte>): (o: Order)
    ensures o.name == w.name && o.executor == w.executor
    ensures o.timeoutSecs == 120
    ensures o.handle == handle && o.unique == unique && o.workload == workload
  {
    Order(w.name, w.executor, TimeoutSecs, handle, unique, workload)
  }

  /** The directory the executor runs in: its own directory, or `/tmp`
      when its path has no parent. */
  function WorkingDir(o: Order): Path {
    match Parent(o.executor)
    case Some(d) => d
    case None => Tmp
  }

  /** The executor's arguments: the worker's name, the job's unique id,
      and the workload's size in decimal. */
  function Argv(o: Order): seq<seq<byte>> {
    [o.name, o.unique, Decimal(|o.workload|)]
  }

  /** The executor runs beside itself: appending its file name to the
      working directory gives its path back. Only a path with no parent
      (a root or the empty path) runs in `/tmp`. */
  lemma WorkingDirOfExecutor(o: Order)
    ensures |o.executor.components| > 0 ==>
      WorkingDir(o).absolute == o.executor.absolute &&
      WorkingDir(o).components + [o.executor.components[|o.executor.components| - 1]] == o.executor.components
    ensures |o.executor.components| == 0 ==> WorkingDir(o) == Tmp
  {
  }

  /** The executor can recover the name, the unique id and the exact size
      of the workload from its arguments. */
  lemma ArgvReadsBack(o: Order)
    ensures |Argv(o)| == 3
    ensures Argv(o)[0] == o.name && Argv(o)[1] == o.unique
    ensures ParseDecimal(Argv(o)[2]) == Some(|o.workload|)
  {
    DecimalRoundTrip(|o.workload|);
  }

  /** `exception`: a WorkException for this order's job. */
  function Exception(o: Order, data: seq<byte>): (r: Request)
    ensures r.WorkException? && r.handle == o.handle && r.data == data
  {
    WorkException(o.handle, data)
  }

  /** `complete`: a WorkComplete for this order's job. */
  function Complete(o: Order, data: seq<byte>): (r: Request)
    ensures r.WorkComplete? && r.handle == o.handle && r.data == data
  {
    WorkComplete(o.handle, data)
  }

  /** What became of the executor: it exited successfully, it exited
      otherwise (with the `Debug` text of its exit status, which the
      platform supplies), it outlived the timeout, or spawning it, writing
      its input or waiting for it failed. */
  datatype Outcome = Succeeded | ExitedWith(status: seq<byte>) | TimedOut | Broken

  /** `{:?}` of a whole number of seconds as a `Duration`. */
  function DurationText(secs: nat): seq<byte> {
    Decimal(secs) + Ascii("s")
  }

  /** The fixed parts of the JSON error texts. */
  const ExitedPrefix: seq<byte> := Ascii("{\"error\":\"order process exited with code=")
  const TimedOutPrefix: seq<byte> := Ascii("{\"error\":\"order timed out after duration=")
  const Closing: seq<byte> := Ascii("\"}")

  function ExitedText(status: seq<byte>): seq<byte> {
    ExitedPrefix + status + Closing
  }

  function TimedOutText(secs: nat): seq<byte> {
    TimedOutPrefix + DurationText(secs) + Closing
  }

  /** What the order sends to the writer once the executor is done. An
      I/O failure is logged and sends nothing. */
  function Report(o: Order, outcome: Outcome): seq<Request> {
    match outcome
    case Succeeded => []
    case ExitedWith(s) => [Exception(o, ExitedText(s))]
    case TimedOut => [Exception(o, TimedOutText(o.timeoutSecs))]
    case Broken => []
  }

  /** A successful exit or a failure of the order's own I/O sends nothing;
      an unsuccessful exit and a timeout each send exactly one
      WorkException for the order's job, never a WorkComplete. */
  lemma ReportCases(o: Order, outcome: Outcome)
    ensures |Report(o, outcome)| <= 1
    ensures Report(o, outcome) == [] <==> outcome.Succeeded? || outcome.Broken?
    ensures forall r <- Report(o, outcome) :: r.WorkException? && r.handle == o.handle
  {
  }

  /** The error texts can be told apart and give back what they were made
      from: the exit status text sits between the fixed prefix and the
      closing quote and brace, and an order's timeout reads `120s`. */
  lemma ReportTexts(w: Worker, h: seq<byte>, u: seq<byte>, d: seq<byte>, s: seq<byte>, secs: nat)
    ensures Report(MakeOrder(w, h, u, d), TimedOut) == [WorkException(h, TimedOutPrefix + Ascii("120s") + Closing)]
    ensures |ExitedPrefix| == 41 && ExitedText(s)[..41] == ExitedPrefix
    ensures ExitedText(s)[41..|ExitedText(s)| - 2] == s
    ensures ExitedText(s) != TimedOutText(secs)
  {
    assert Decimal(120) == Decimal(12) + [Digit(0)];
    assert Decimal(12) == Decimal(1) + [Digit(2)];
    assert DurationText(120) == Ascii("120s");
    assert ExitedText(s)[..41] == ExitedPrefix;
    assert ExitedText(s)[41..|ExitedText(s)| - 2] == s;
    assert ExitedText(s)[16] != TimedOutText(secs)[16] by {
      assert ExitedText(s)[16] == ExitedPrefix[16];
      assert TimedOutText(secs)[16] == TimedOutPrefix[16];
    }
  }
}
