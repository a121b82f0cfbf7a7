/**
 The Kafka decision sink (internal/sink/kafka.go) as a step system: producers that call Enqueue at any
 time, one consumer that publishes one record after the other, and a deadline for draining at shutdown.
 A run is any interleaving of steps; every publish may succeed or fail.
 */
module KafkaModel {
  import opened Results

  datatype Record = Record(id: string, payload: string)

  /** Where the consumer is in Run and drain. A record it has taken and not yet tried to publish is in flight. */
  datatype Control =
    | Selecting
    | Received(record: Record)
    | Publishing(record: Record)
    | Closing(initial: Option<Record>)
    | Draining(inFlight: Option<Record>)
    | Stopped

  /** attempts are the calls of publish so far, in order, and failures the number of those that failed. */
  datatype State = State(
    queue: seq<Record>,
    closed: bool,
    dropped: nat,
    attempts: seq<Record>,
    failures: nat,
    control: Control,
    cancelled: bool,
    expired: bool)

  /**
   A call of Enqueue meets its own context twice, before the lock and in the select statement; when in the
   select both the context is done and the queue has room, pickDone tells which branch is taken.
   */
  datatype Action =
    | Enqueue(record: Record, doneAtEntry: bool, doneAtSelect: bool, pickDone: bool)
    | Cancel
    | Expire
    | ChooseDone
    | ChooseRecord
    | CheckContext
    | Publish(ok: bool)
    | Close
    | DrainRecord
    | EndDrain

  const Initial: State := State([], false, 0, [], 0, Selecting, false, false)

  predicate Enabled(s: State, a: Action) {
    match a
    case Enqueue(_, _, _, _) => true
    case Cancel => !s.cancelled
    case Expire => s.control.Draining? && !s.expired
    case ChooseDone => s.control.Selecting? && s.cancelled
    case ChooseRecord => s.control.Selecting? && s.queue != []
    case CheckContext => s.control.Received?
    case Publish(_) => s.control.Publishing? || (s.control.Draining? && s.control.inFlight.Some?)
    case Close => s.control.Closing?
    case DrainRecord => s.control == Draining(None) && s.queue != []
    case EndDrain => s.control == Draining(None) && (s.expired || s.queue == [])
  }

  predicate Accepts(capacity: nat, s: State, a: Action) {
    a.Enqueue? && !a.doneAtEntry && !s.closed && |s.queue| < capacity && !(a.doneAtSelect && a.pickDone)
  }

  predicate Drops(capacity: nat, s: State, a: Action) {
    a.Enqueue? && !a.doneAtEntry && !s.closed && |s.queue| >= capacity && !a.doneAtSelect
  }

  predicate Ignores(capacity: nat, s: State, a: Action) {
    a.Enqueue? && (a.doneAtEntry || s.closed || (a.doneAtSelect && (|s.queue| >= capacity || a.pickDone)))
  }

  function AfterPublish(s: State, ok: bool): State
    requires Enabled(s, Publish(ok))
  {
    var s' := s.(failures := s.failures + if ok then 0 else 1);
    if s.control.Publishing? then s'.(attempts := s.attempts + [s.control.record], control := Selecting)
    else s'.(attempts := s.attempts + [s.control.inFlight.value], control := Draining(None))
  }

  function Step(capacity: nat, s: State, a: Action): State
    requires Enabled(s, a)
  {
    match a
    case Enqueue(record, _, _, _) =>
      if Accepts(capacity, s, a) then s.(queue := s.queue + [record])
      else if Drops(capacity, s, a) then s.(dropped := s.dropped + 1)
      else s
    case Cancel => s.(cancelled := true)
    case Expire => s.(expired := true)
    case ChooseDone => s.(control := Closing(None))
    case ChooseRecord => s.(queue := s.queue[1..], control := Received(s.queue[0]))
    case CheckContext =>
      s.(control := if s.cancelled then Closing(Some(s.control.record)) else Publishing(s.control.record))
    case Publish(ok) => AfterPublish(s, ok)
    case Close => s.(closed := true, control := Draining(s.control.initial))
    case DrainRecord => s.(queue := s.queue[1..], control := Draining(Some(s.queue[0])))
    case EndDrain => s.(control := Stopped)
  }

  function InFlight(s: State): seq<Record> {
    match s.control
    case Received(record) => [record]
    case Publishing(record) => [record]
    case Closing(Some(record)) => [record]
    case Draining(Some(record)) => [record]
    case _ => []
  }

  // ----- Runs and what they did -----

  ghost predicate IsRun(capacity: nat, run: seq<Action>)
    decreases |run|, 0
  {
    run == [] || (IsRun(capacity, run[..|run| - 1]) && Enabled(After(capacity, run[..|run| - 1]), run[|run| - 1]))
  }

  ghost function After(capacity: nat, run: seq<Action>): State
    requires IsRun(capacity, run)
    decreases |run|, 1
  {
    if run == [] then Initial else Step(capacity, After(capacity, run[..|run| - 1]), run[|run| - 1])
  }

  /** The records that got into the queue, in order. */
  ghost function Accepted(capacity: nat, run: seq<Action>): seq<Record>
    requires IsRun(capacity, run)
  {
    if run == [] then [] else
      var init, last := run[..|run| - 1], run[|run| - 1];
      Accepted(capacity, init) + if Accepts(capacity, After(capacity, init), last) then [last.record] else []
  }

  ghost function Calls(run: seq<Action>): nat {
    if run == [] then 0 else Calls(run[..|run| - 1]) + if run[|run| - 1].Enqueue? then 1 else 0
  }

  /** Calls of Enqueue that came too late or whose context was done. */
  ghost function Ignored(capacity: nat, run: seq<Action>): nat
    requires IsRun(capacity, run)
  {
    if run == [] then 0 else
      var init, last := run[..|run| - 1], run[|run| - 1];
      Ignored(capacity, init) + if Ignores(capacity, After(capacity, init), last) then 1 else 0
  }

  // ----- The invariant -----

  /** Nothing is lost, duplicated or reordered between the queue and the publisher. */
  ghost predicate InOrder(s: State, accepted: seq<Record>) {
    accepted == s.attempts + InFlight(s) + s.queue
  }

  ghost predicate ControlOk(capacity: nat, s: State) {
    && |s.queue| <= capacity
    && s.failures <= |s.attempts|
    && (s.closed <==> s.control.Draining? || s.control.Stopped?)
    && (s.control.Closing? || s.closed ==> s.cancelled)
    && (s.expired ==> s.closed)
    && (s.control.Stopped? ==> s.queue == [] || s.expired)
  }

  ghost predicate Invariant(capacity: nat, s: State, accepted: seq<Record>) {
    InOrder(s, accepted) && ControlOk(capacity, s)
  }

  lemma TakeHead(done: seq<Record>, queue: seq<Record>)
    requires queue != []
    ensures done + [] + queue == done + [queue[0]] + queue[1..]
  {
  }

  lemma Settle(done: seq<Record>, record: Record, queue: seq<Record>)
    ensures done + [record] + queue == (done + [record]) + [] + queue
  {
  }

  lemma OrderStays(capacity: nat, s: State, a: Action, accepted: seq<Record>)
    requires InOrder(s, accepted) && Enabled(s, a)
    ensures InOrder(Step(capacity, s, a), accepted + if Accepts(capacity, s, a) then [a.record] else [])
  {
    var s' := Step(capacity, s, a);
    if a.Enqueue? {
      assert s.attempts + InFlight(s) + (s.queue + [a.record]) == s.attempts + InFlight(s) + s.queue + [a.record];
    } else {
      assert accepted + [] == accepted;
      if a.ChooseRecord? || a.DrainRecord? {
        TakeHead(s.attempts, s.queue);
      } else if a.Publish? {
        Settle(s.attempts, InFlight(s)[0], s.queue);
      } else {
        assert s'.queue == s.queue && s'.attempts == s.attempts && InFlight(s') == InFlight(s);
      }
    }
  }

  lemma ControlStays(capacity: nat, s: State, a: Action)
    requires ControlOk(capacity, s) && Enabled(s, a)
    ensures ControlOk(capacity, Step(capacity, s, a))
  {
  }

  /** Every run keeps the invariant, whatever the interleaving and whatever fails. */
  lemma {:induction false} InvariantHolds(capacity: nat, run: seq<Action>)
    requires IsRun(capacity, run)
    ensures Invariant(capacity, After(capacity, run), Accepted(capacity, run))
    decreases |run|
  {
    if run != [] {
      var init := run[..|run| - 1];
      InvariantHolds(capacity, init);
      OrderStays(capacity, After(capacity, init), run[|run| - 1], Accepted(capacity, init));
      ControlStays(capacity, After(capacity, init), run[|run| - 1]);
    }
  }

  // ----- What follows for every run -----

  /**
   Records are published in the order in which they were accepted, each tried once: what was accepted is
   what was tried, then the record in flight, then the queue.
   */
  lemma PublishedInOrder(capacity: nat, run: seq<Action>)
    requires IsRun(capacity, run)
    ensures Accepted(capacity, run) ==
            After(capacity, run).attempts + InFlight(After(capacity, run)) + After(capacity, run).queue
    ensures |InFlight(After(capacity, run))| <= 1 && |After(capacity, run).queue| <= capacity
  {
    InvariantHolds(capacity, run);
    hide After, Accepted;
  }

  /** When Run has returned, every accepted record was tried, unless draining ran out of time. */
  lemma DrainedWhenStopped(capacity: nat, run: seq<Action>)
    requires IsRun(capacity, run) && After(capacity, run).control.Stopped?
    ensures Accepted(capacity, run) == After(capacity, run).attempts + After(capacity, run).queue
    ensures !After(capacity, run).expired ==> After(capacity, run).attempts == Accepted(capacity, run)
  {
    InvariantHolds(capacity, run);
    hide After, Accepted, IsRun;
    var s := After(capacity, run);
    assert s.attempts + [] == s.attempts && s.attempts + [] + [] == s.attempts;
  }

  /** Every call of Enqueue is accepted, dropped because the queue is full, or ignored. */
  lemma {:induction false} CallsAreCounted(capacity: nat, run: seq<Action>)
    requires IsRun(capacity, run)
    ensures |Accepted(capacity, run)| + After(capacity, run).dropped + Ignored(capacity, run) == Calls(run)
    decreases |run|
  {
    if run != [] {
      CallsAreCounted(capacity, run[..|run| - 1]);
    }
  }

  ghost function Publishes(run: seq<Action>, ok: bool): nat {
    if run == [] then 0 else Publishes(run[..|run| - 1], ok) + if run[|run| - 1] == Publish(ok) then 1 else 0
  }

  lemma PublishIsCounted(capacity: nat, s: State, a: Action)
    requires Enabled(s, a)
    ensures var s' := Step(capacity, s, a);
            && s'.failures == s.failures + (if a == Publish(false) then 1 else 0)
            && |s'.attempts| == |s.attempts| + if a.Publish? then 1 else 0
  {
  }

  /** Every attempt is one call of publish, and the failures are those that failed. */
  lemma {:induction false} AttemptsAreCounted(capacity: nat, run: seq<Action>)
    requires IsRun(capacity, run)
    ensures After(capacity, run).failures == Publishes(run, false)
    ensures |After(capacity, run).attempts| == Publishes(run, true) + Publishes(run, false)
    decreases |run|
  {
    hide Step, Enabled;
    if run != [] {
      AttemptsAreCounted(capacity, run[..|run| - 1]);
      PublishIsCounted(capacity, After(capacity, run[..|run| - 1]), run[|run| - 1]);
    }
  }

  /** Once closed, nothing more is accepted or dropped; once stopped, nothing changes but the calls ignored. */
  lemma ClosedForGood(capacity: nat, run: seq<Action>, a: Action)
    requires IsRun(capacity, run) && Enabled(After(capacity, run), a) && After(capacity, run).closed
    ensures IsRun(capacity, run + [a]) && After(capacity, run + [a]).closed
    ensures Accepted(capacity, run + [a]) == Accepted(capacity, run)
    ensures After(capacity, run + [a]).dropped == After(capacity, run).dropped
    ensures After(capacity, run).control.Stopped? ==> After(capacity, run + [a]) == After(capacity, run)
  {
    assert (run + [a])[..|run|] == run;
    InvariantHolds(capacity, run);
  }

  // ----- Shutting down -----

  predicate IsConsumerStep(a: Action) {
    !a.Enqueue? && !a.Cancel? && !a.Expire?
  }

  /** How much the consumer still has to do at most once it has closed the sink. */
  function Left(s: State): nat {
    match s.control
    case Draining(inFlight) => 2 * |s.queue| + 1 + if inFlight.Some? then 1 else 0
    case _ => 0
  }

  lemma ComesCloser(capacity: nat, s: State, a: Action)
    requires s.control.Draining? && s.closed && Enabled(s, a)
    ensures if IsConsumerStep(a) then Left(Step(capacity, s, a)) < Left(s) else Left(Step(capacity, s, a)) == Left(s)
  {
  }

  /** Closed but not stopped, the consumer can always go on, and each of its steps brings it closer to the end. */
  lemma ShutdownEnds(capacity: nat, run: seq<Action>)
    requires IsRun(capacity, run) && After(capacity, run).closed && !After(capacity, run).control.Stopped?
    ensures exists a :: IsConsumerStep(a) && Enabled(After(capacity, run), a)
    ensures forall a :: Enabled(After(capacity, run), a) ==>
              var left := Left(Step(capacity, After(capacity, run), a));
              if IsConsumerStep(a) then left < Left(After(capacity, run)) else left == Left(After(capacity, run))
  {
    InvariantHolds(capacity, run);
    hide After, Accepted, Step, Left;
    var s := After(capacity, run);
    var next := if s.control.inFlight.Some? then Publish(true) else if s.queue != [] then DrainRecord else EndDrain;
    assert IsConsumerStep(next) && Enabled(s, next);
    hide Enabled, IsConsumerStep;
    forall a | Enabled(s, a)
      ensures if IsConsumerStep(a) then Left(Step(capacity, s, a)) < Left(s) else Left(Step(capacity, s, a)) == Left(s)
    {
      ComesCloser(capacity, s, a);
    }
  }
}
