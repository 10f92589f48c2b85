/** The assignee task of the newer worker (src/state/assignee.rs): it takes
    the jobs the reader forwards, keeps the load, starts an order for each
    job that is for this worker's function, and asks for more work with
    PreSleep whenever the load is below the concurrency. Orders run
    concurrently; here their completions are events in the same sequence
    as the deliveries, one at a time. */
module Assignee {
  import opened Bytes
  import opened Messages
  import Utf8
  import opened Orders

  /** The function-name check: valid UTF-8, and equal to the worker's name
      once all trailing NUL characters are stripped. */
  predicate Accepts(workerName: seq<byte>, name: seq<byte>) {
    Utf8.Valid(name) && TrimNul(name) == workerName
  }

  /** A job is accepted exactly when its name is valid UTF-8 and is the
      worker's name followed by any number of zero bytes; a worker name
      that itself ends in a zero byte accepts nothing. */
  lemma AcceptsPadded(workerName: seq<byte>, name: seq<byte>)
    ensures workerName == [] || workerName[|workerName| - 1] != 0 ==>
      (Accepts(workerName, name) <==> Utf8.Valid(name) && exists n: nat :: name == workerName + Zeros(n))
    ensures workerName != [] && workerName[|workerName| - 1] == 0 ==> !Accepts(workerName, name)
  {
    if workerName == [] || workerName[|workerName| - 1] != 0 {
      if Accepts(workerName, name) {
        var n := |name| - |workerName|;
        assert name == workerName + Zeros(n);
      }
      if exists n: nat :: name == workerName + Zeros(n) {
        var n: nat :| name == workerName + Zeros(n);
        TrimNulPadded(workerName, n);
      }
    }
  }

  /** The number of orders still running. */
  function Count(live: seq<bool>): (n: nat)
    ensures n <= |live|
  {
    if |live| == 0 then 0 else (if live[0] then 1 else 0) + Count(live[1..])
  }

  /** One running order fewer. */
  lemma {:induction false} CountClear(live: seq<bool>, i: nat)
    requires i < |live| && live[i]
    ensures Count(live[i := false]) + 1 == Count(live)
  {
    if i > 0 {
      CountClear(live[1..], i - 1);
      assert live[i := false][1..] == live[1..][i - 1 := false];
    } else {
      assert live[i := false][1..] == live[1..];
    }
  }

  /** One more running order. */
  lemma {:induction false} CountAppend(live: seq<bool>)
    ensures Count(live + [true]) == Count(live) + 1
  {
    if |live| == 0 {
      assert Count([true]) == 1 + Count([]);
    } else {
      assert (live + [true])[1..] == live[1..] + [true];
      CountAppend(live[1..]);
    }
  }

  /** The assignee's state: the load, the orders started so far and which
      of them still run, and the requests sent to the writer (its own
      PreSleeps and its orders' reports). */
  datatype Assignee = Assignee(load: nat, orders: seq<Order>, live: seq<bool>, sent: seq<Request>)

  const Fresh := Assignee(0, [], [], [])

  /** The load counts exactly the orders still running. */
  predicate Balanced(a: Assignee) {
    |a.live| == |a.orders| && a.load == Count(a.live)
  }

  /** A response from the reader, or the end of the `i`-th order with what
      became of its executor. */
  datatype Event = Deliver(response: Response) | Finish(index: nat, outcome: Outcome)

  /** PreSleep when the load is below the concurrency. */
  function AskIf(load: nat, concurrency: nat): seq<Request> {
    if load < concurrency then [PreSleep] else []
  }

  /** A job for this worker: count it and start its order. */
  function Accept(w: Worker, a: Assignee, h: seq<byte>, u: seq<byte>, d: seq<byte>): (a': Assignee)
    requires Balanced(a)
    ensures Balanced(a')
  {
    CountAppend(a.live);
    Assignee(a.load + 1, a.orders + [MakeOrder(w, h, u, d)], a.live + [true], a.sent + AskIf(a.load + 1, w.concurrency))
  }

  /** The `i`-th order is done: its report, then the load drops. */
  function Retire(w: Worker, a: Assignee, i: nat, outcome: Outcome): (a': Assignee)
    requires Balanced(a) && i < |a.live| && a.live[i]
    ensures Balanced(a')
  {
    CountClear(a.live, i);
    Assignee(a.load - 1, a.orders, a.live[i := false], a.sent + Report(a.orders[i], outcome) + AskIf(a.load - 1, w.concurrency))
  }

  /** One event. An order that is not running cannot finish, so such an
      event changes nothing. */
  function Step(w: Worker, a: Assignee, e: Event): (a': Assignee)
    requires Balanced(a)
    ensures Balanced(a')
  {
    match e
    case Deliver(JobAssignUniq(h, n, u, d)) =>
      if Accepts(w.name, n) then Accept(w, a, h, u, d) else a
    case Deliver(_) => a
    case Finish(i, outcome) =>
      if i < |a.live| && a.live[i] then Retire(w, a, i, outcome) else a
  }

  function Run(w: Worker, a: Assignee, es: seq<Event>): (a': Assignee)
    requires Balanced(a)
    ensures Balanced(a')
    decreases |es|
  {
    if |es| == 0 then a else Run(w, Step(w, a, es[0]), es[1..])
  }

  /** What one delivery does: a job for another function, one whose name
      is not UTF-8, and any other response change nothing; an accepted job
      raises the load by one, starts one order carrying the job, and asks
      for more work exactly when the new load is below the concurrency. */
  lemma DeliverEffect(w: Worker, a: Assignee, r: Response)
    requires Balanced(a)
    ensures !r.JobAssignUniq? || !Accepts(w.name, r.name) ==> Step(w, a, Deliver(r)) == a
    ensures r.JobAssignUniq? && Accepts(w.name, r.name) ==>
      var a' := Step(w, a, Deliver(r));
      && a'.load == a.load + 1
      && a'.orders == a.orders + [MakeOrder(w, r.handle, r.unique, r.workload)]
      && a'.live == a.live + [true]
      && a'.sent == a.sent + (if a.load + 1 < w.concurrency then [PreSleep] else [])
  {
  }

  /** What the end of a running order does: its report is sent, the load
      drops by one, and PreSleep follows exactly when the new load is below
      the concurrency. */
  lemma FinishEffect(w: Worker, a: Assignee, i: nat, outcome: Outcome)
    requires Balanced(a) && i < |a.live| && a.live[i]
    ensures a.load > 0
    ensures Step(w, a, Finish(i, outcome)).load == a.load - 1
    ensures Step(w, a, Finish(i, outcome)).sent
      == a.sent + Report(a.orders[i], outcome) + (if a.load - 1 < w.concurrency then [PreSleep] else [])
  {
    CountClear(a.live, i);
  }

  /** No running order left: the load is back at zero. */
  lemma {:induction false} CountNone(live: seq<bool>)
    requires forall b <- live :: !b
    ensures Count(live) == 0
  {
    if |live| > 0 {
      assert live[0] in live;
      assert forall b <- live[1..] :: b in live;
      CountNone(live[1..]);
    }
  }

  /** Every job started is counted once and uncounted once: from a fresh
      start, once every started order has finished the load is zero
      again, and in between it is the number of orders still running. */
  lemma RunBalances(w: Worker, es: seq<Event>)
    ensures Run(w, Fresh, es).load == Count(Run(w, Fresh, es).live)
    ensures (forall b <- Run(w, Fresh, es).live :: !b) ==> Run(w, Fresh, es).load == 0
  {
    if forall b <- Run(w, Fresh, es).live :: !b {
      CountNone(Run(w, Fresh, es).live);
    }
  }
}
