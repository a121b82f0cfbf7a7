/**
 The Kafka decision sink in the form of internal/sink/kafka.go. Every method is shown to perform steps of
 the step system in KafkaModel: the ghost field run records them, and the fields are always the state
 after that run. So what is proved there for all runs holds of every object of this class. What a method
 does here without interruption is interleaved there with producers at every step.
 */
module KafkaSink {
  import opened Results
  import opened Logs
  import opened Turns
  import opened KafkaModel

  /** What the select statement of Run finds ready. */
  datatype Ready = DoneReady | RecordReady

  /** What happens around the consumer: producers call, the context is cancelled, the consumer takes a turn. */
  datatype Event =
    | Call(record: Record, doneAtEntry: bool, doneAtSelect: bool, pickDone: bool)
    | CancelContext
    | Turn(ready: Ready, outcomes: nat -> bool, late: nat -> bool, stop: nat -> bool)

  lemma RunGrows(capacity: nat, run: seq<Action>, a: Action)
    requires IsRun(capacity, run) && Enabled(After(capacity, run), a)
    ensures IsRun(capacity, run + [a]) && After(capacity, run + [a]) == Step(capacity, After(capacity, run), a)
  {
  }

  predicate IsChoice(a: Action) {
    a.ChooseDone? || a.ChooseRecord?
  }

  /** A step in one turn of the consumer's loop, after the choice that begins it. */
  predicate InTurn(a: Action) {
    (IsConsumerStep(a) || a.Expire?) && !IsChoice(a)
  }

  /** The step as a call of Enqueue, if it is one. */
  function CallStep(a: Action): seq<Action> {
    if a.Enqueue? then [a] else []
  }

  function CallEvent(event: Event): seq<Action> {
    match event
    case Call(record, doneAtEntry, doneAtSelect, pickDone) =>
      [Action.Enqueue(record, doneAtEntry, doneAtSelect, pickDone)]
    case _ => []
  }

  /** The step as a choice of the select statement, if it is one. */
  function ChoiceStep(a: Action): seq<Action> {
    if IsChoice(a) then [a] else []
  }

  /** What an event is to the loop: a record arrives unless its caller is done. */
  function SignalOf(event: Event): Signal {
    match event
    case Call(_, doneAtEntry, doneAtSelect, pickDone) =>
      if doneAtEntry || (doneAtSelect && pickDone) then Silent else Arrives
    case CancelContext => Cancels
    case Turn(ready, _, _, _) => if ready == DoneReady then DoneTurn else RecordTurn
  }

  function ChoiceOf(signal: Signal): seq<Action> {
    match signal
    case DoneTurn => [ChooseDone]
    case RecordTurn => [ChooseRecord]
    case _ => []
  }

  /** After n receives the drain has stopped for want of records, or as soon as the deadline let it. */
  ghost predicate StopsInTime(late: nat -> bool, stop: nat -> bool, n: int, queue: seq<Record>) {
    && n >= 0
    && (forall i :: 0 < i <= n ==> !(late(i) && stop(i)))
    && (queue != [] ==> late(n + 1) && stop(n + 1))
  }

  lemma NoFailures(outcomes: nat -> bool)
    ensures Failed(outcomes, 0, 0) == Failed(outcomes, 1, 0) == 0
  {
  }

  lemma FailedOnce(outcomes: nat -> bool)
    ensures Failed(outcomes, 0, 1) == if outcomes(0) then 0 else 1
  {
    assert Failed(outcomes, 0, 0) == 0;
  }

  lemma DrainBegins(outcomes: nat -> bool, late: nat -> bool, stop: nat -> bool)
    ensures Failed(outcomes, 1, 0) == 0 && StopsInTime(late, stop, 0, [])
  {
  }

  lemma DrainGoesOn(outcomes: nat -> bool, late: nat -> bool, stop: nat -> bool, i: nat, queue: seq<Record>)
    requires StopsInTime(late, stop, i, [])
    ensures Failed(outcomes, 1, i + 1) == Failed(outcomes, 1, i) + if outcomes(i + 1) then 0 else 1
    ensures StopsInTime(late, stop, if late(i + 1) && stop(i + 1) then i else i + 1,
                        if late(i + 1) && stop(i + 1) then queue else [])
  {
  }

  /** How many of the n outcomes from place from on are failures. */
  ghost function Failed(outcomes: nat -> bool, from: nat, n: nat): nat {
    if n == 0 then 0 else Failed(outcomes, from, n - 1) + if outcomes(from + n - 1) then 0 else 1
  }

  lemma {:induction false} FailedFirst(outcomes: nat -> bool, from: nat, n: nat)
    ensures Failed(outcomes, from, n + 1) == (if outcomes(from) then 0 else 1) + Failed(outcomes, from + 1, n)
    decreases n
  {
    if n > 0 {
      FailedFirst(outcomes, from, n - 1);
    }
  }

  /** The sink is open as long as its loop goes on, and closed when it has returned. */
  lemma ClosedWhenStopped(capacity: nat, run: seq<Action>)
    requires IsRun(capacity, run)
    ensures After(capacity, run).control == Selecting ==> !After(capacity, run).closed
    ensures After(capacity, run).control == Stopped ==> After(capacity, run).closed
  {
    hide After, Accepted, InOrder;
    InvariantHolds(capacity, run);
  }

  function Choice(ready: Ready): Action {
    match ready
    case DoneReady => ChooseDone
    case RecordReady => ChooseRecord
  }

  class Sink {
    const capacity: nat
    var queue: seq<Record>
    var closed: bool
    var dropped: nat
    var attempts: seq<Record>
    var failures: nat
    var cancelled: bool
    ghost var control: Control
    ghost var expired: bool
    ghost var run: seq<Action>

    /** NewKafkaDecisionSink, with its default. */
    constructor (queueSize: int)
      ensures Valid() && run == [] && capacity == if queueSize <= 0 then 10000 else queueSize
      ensures queue == [] && attempts == [] && dropped == failures == 0 && !closed && !cancelled && control == Selecting
    {
      capacity := if queueSize <= 0 then 10000 else queueSize;
      queue, closed, dropped, attempts, failures, cancelled := [], false, 0, [], 0, false;
      control, expired, run := Selecting, false, [];
    }

    ghost function Now(): State
      reads this
    {
      State(queue, closed, dropped, attempts, failures, control, cancelled, expired)
    }

    ghost predicate Valid()
      reads this
    {
      IsRun(capacity, run) && After(capacity, run) == Now()
    }

    method Enqueue(record: Record, doneAtEntry: bool, doneAtSelect: bool, pickDone: bool)
      requires Valid()
      modifies this
      ensures Valid() && run == old(run) + [Action.Enqueue(record, doneAtEntry, doneAtSelect, pickDone)]
      ensures control == old(control) && cancelled == old(cancelled) && attempts == old(attempts)
      ensures queue == if !doneAtEntry && !closed && |old(queue)| < capacity && !(doneAtSelect && pickDone)
                       then old(queue) + [record] else old(queue)
      ensures dropped == old(dropped) +
                if !doneAtEntry && !closed && |old(queue)| >= capacity && !doneAtSelect then 1 else 0
      ensures closed == old(closed) && failures == old(failures) && expired == old(expired)
    {
      ghost var a := Action.Enqueue(record, doneAtEntry, doneAtSelect, pickDone);
      RunGrows(capacity, run, a);
      run := run + [a];
      if doneAtEntry {
        return;
      }
      if closed {
        return;
      }
      var room := |queue| < capacity;
      if doneAtSelect && (!room || pickDone) {
        return;
      } else if room {
        queue := queue + [record];
      } else {
        dropped := dropped + 1;
      }
    }

    /** The context of Run is cancelled. */
    method CancelRun()
      requires Valid() && !cancelled
      modifies this
      ensures Valid() && run == old(run) + [Cancel] && control == old(control) && queue == old(queue)
      ensures cancelled && attempts == old(attempts) && expired == old(expired) && failures == old(failures)
    {
      RunGrows(capacity, run, Cancel);
      run := run + [Cancel];
      cancelled := true;
    }

    method Close()
      requires Valid() && control.Closing?
      modifies this
      ensures Valid() && run == old(run) + [Action.Close] && control == Draining(old(control).initial)
      ensures queue == old(queue) && attempts == old(attempts) && expired == old(expired)
      ensures closed && cancelled == old(cancelled) && failures == old(failures)
    {
      RunGrows(capacity, run, Action.Close);
      run := run + [Action.Close];
      closed := true;
      control := Draining(control.initial);
    }

    /** publish: one attempt, whose failure is only counted. */
    method PublishRecord(record: Record, ok: bool)
      requires Valid()
      requires control == Publishing(record) || control == Draining(Some(record))
      modifies this
      ensures Valid() && run == old(run) + [Publish(ok)]
      ensures attempts == old(attempts) + [record] && queue == old(queue) && expired == old(expired)
      ensures failures == old(failures) + (if ok then 0 else 1) && cancelled == old(cancelled)
      ensures control == if old(control).Publishing? then Selecting else Draining(None)
    {
      RunGrows(capacity, run, Publish(ok));
      run := run + [Publish(ok)];
      attempts := attempts + [record];
      if !ok {
        failures := failures + 1;
      }
      control := if control.Publishing? then Selecting else Draining(None);
    }

    /** Receive the first queued record and publish it. */
    method PublishNext(ok: bool)
      requires Valid() && control == Draining(None) && queue != []
      modifies this
      ensures Valid() && GoesOn(InTurn, old(run), run) && control == Draining(None)
      ensures attempts == old(attempts) + [old(queue)[0]] && queue == old(queue)[1..] && expired == old(expired)
      ensures attempts + queue == old(attempts + queue) && cancelled == old(cancelled)
      ensures failures == old(failures) + if ok then 0 else 1
    {
      hide After, IsRun, GoesOn;
      StandsStill(InTurn, run);
      GoesOneStep(InTurn, run, run, DrainRecord);
      GoesOneStep(InTurn, run, run + [DrainRecord], Publish(ok));
      TakeHead(attempts, queue);
      var record := queue[0];
      RunGrows(capacity, run, DrainRecord);
      run := run + [DrainRecord];
      queue := queue[1..];
      control := Draining(Some(record));
      PublishRecord(record, ok);
    }

    /** The deadline of draining passes. */
    ghost method PassDeadline()
      requires Valid() && control.Draining?
      modifies this`run, this`expired
      ensures Valid() && expired && GoesOn(InTurn, old(run), run)
    {
      if !expired {
        RunGrows(capacity, run, Expire);
        run := run + [Expire];
        expired := true;
      }
    }

    /** One turn of the loop of drain: it returns late, or publishes the next record. */
    method DrainTurn(ok: bool, late: bool, stop: bool) returns (left: bool)
      requires Valid() && control == Draining(None) && queue != []
      modifies this
      ensures Valid() && GoesOn(InTurn, old(run), run) && control == Draining(None)
      ensures left <==> late && stop
      ensures expired <==> old(expired) || late
      ensures attempts == old(attempts) + (if left then [] else [old(queue)[0]])
      ensures queue == if left then old(queue) else old(queue)[1..]
      ensures attempts + queue == old(attempts + queue) && cancelled == old(cancelled)
      ensures failures == old(failures) + if left || ok then 0 else 1
    {
      hide After, IsRun, GoesOn;
      StandsStill(InTurn, run);
      if late {
        PassDeadline();
      }
      left := late && stop;
      if !left {
        ghost var before := run;
        PublishNext(ok);
        GoesFurther(InTurn, old(run), before, run);
      }
    }

    method Return()
      requires Valid() && control == Draining(None) && (expired || queue == [])
      modifies this
      ensures Valid() && run == old(run) + [EndDrain] && control == Stopped
      ensures queue == old(queue) && attempts == old(attempts) && expired == old(expired)
      ensures cancelled == old(cancelled) && failures == old(failures)
    {
      RunGrows(capacity, run, EndDrain);
      run := run + [EndDrain];
      control := Stopped;
    }

    /**
     The loop of drain. Before the i-th receive the deadline has passed if late(i), and then either branch
     of the select statement may be taken: stop(i) is the choice. The i-th publish succeeds if outcomes(i).
     */
    method DrainQueue(outcomes: nat -> bool, late: nat -> bool, stop: nat -> bool)
      requires Valid() && control == Draining(None)
      modifies this
      ensures Valid() && GoesOn(InTurn, old(run), run) && control == Stopped
      ensures attempts + queue == old(attempts + queue) && old(attempts) <= attempts
      ensures failures == old(failures) + Failed(outcomes, 1, |attempts| - |old(attempts)|)
      ensures StopsInTime(late, stop, |old(queue)| - |queue|, queue)
      ensures (queue == [] || expired) && cancelled == old(cancelled)
      ensures expired ==> old(expired) || exists i :: 0 < i <= |old(queue)| && late(i)
    {
      hide After, IsRun, GoesOn, Failed, StopsInTime;
      StandsStill(InTurn, run);
      DrainBegins(outcomes, late, stop);
      var i := 0;
      while queue != []
        invariant Valid() && GoesOn(InTurn, old(run), run) && control == Draining(None)
        invariant attempts + queue == old(attempts + queue) && old(attempts) <= attempts
        invariant i + |queue| == |old(queue)| && cancelled == old(cancelled)
        invariant failures == old(failures) + Failed(outcomes, 1, i) && StopsInTime(late, stop, i, [])
        invariant expired ==> old(expired) || exists j :: 0 < j <= i && late(j)
        decreases |queue|
      {
        DrainGoesOn(outcomes, late, stop, i, queue);
        i := i + 1;
        ghost var before := run;
        var left := DrainTurn(outcomes(i), late(i), stop(i));
        GoesFurther(InTurn, old(run), before, run);
        if left {
          break;
        }
      }
      GoesOneStep(InTurn, old(run), run, EndDrain);
      Return();
    }

    /** drain: publish the record in hand, then the queue, until it is empty or the deadline has passed. */
    method Drain(initial: Option<Record>, outcomes: nat -> bool, late: nat -> bool, stop: nat -> bool)
      requires Valid() && control == Draining(initial)
      modifies this
      ensures Valid() && GoesOn(InTurn, old(run), run) && control == Stopped
      ensures attempts + queue == old(attempts + InFlight(Now()) + queue)
      ensures old(attempts + InFlight(Now())) <= attempts
      ensures failures == old(failures) + Failed(outcomes, if initial.Some? then 0 else 1, |attempts| - |old(attempts)|)
      ensures StopsInTime(late, stop, |old(queue)| - |queue|, queue)
      ensures (queue == [] || expired) && cancelled == old(cancelled)
      ensures expired ==> old(expired) || exists i :: 0 < i <= |old(queue)| && late(i)
    {
      hide After, IsRun, GoesOn, StopsInTime, Failed;
      StandsStill(InTurn, run);
      if initial.Some? {
        GoesOneStep(InTurn, run, run, Publish(outcomes(0)));
        PublishRecord(initial.value, outcomes(0));
      }
      ghost var before := run;
      assert attempts == old(attempts + InFlight(Now()));
      DrainQueue(outcomes, late, stop);
      GoesFurther(InTurn, old(run), before, run);
      if initial.Some? {
        FailedFirst(outcomes, 0, |attempts| - |old(attempts)| - 1);
      }
    }

    /** The way out of Run: close and drain. */
    method Shutdown(initial: Option<Record>, outcomes: nat -> bool, late: nat -> bool, stop: nat -> bool)
      requires Valid() && control == Closing(initial)
      modifies this
      ensures Valid() && GoesOn(InTurn, old(run), run) && control == Stopped
      ensures attempts + queue == old(attempts + InFlight(Now()) + queue)
      ensures old(attempts + InFlight(Now())) <= attempts
      ensures failures == old(failures) + Failed(outcomes, if initial.Some? then 0 else 1, |attempts| - |old(attempts)|)
      ensures StopsInTime(late, stop, |old(queue)| - |queue|, queue)
      ensures (queue == [] || expired) && cancelled == old(cancelled)
      ensures expired ==> old(expired) || exists i :: 0 < i <= |old(queue)| && late(i)
    {
      hide After, IsRun, GoesOn, StopsInTime, Failed;
      StandsStill(InTurn, run);
      GoesOneStep(InTurn, run, run, Action.Close);
      Close();
      Drain(initial, outcomes, late, stop);
      GoesFurther(InTurn, old(run), old(run) + [Action.Close], run);
    }

    /** Receive a record, and look at the context again. */
    method Receive() returns (record: Record)
      requires Valid() && control == Selecting && queue != []
      modifies this
      ensures Valid() && run == old(run) + [ChooseRecord] + [CheckContext]
      ensures record == old(queue)[0] && queue == old(queue)[1..] && attempts == old(attempts)
      ensures cancelled == old(cancelled) && expired == old(expired) && failures == old(failures)
      ensures control == if cancelled then Closing(Some(record)) else Publishing(record)
    {
      hide After, IsRun;
      record := queue[0];
      RunGrows(capacity, run, ChooseRecord);
      run := run + [ChooseRecord];
      queue := queue[1..];
      control := Received(record);
      RunGrows(capacity, run, CheckContext);
      run := run + [CheckContext];
      control := if cancelled then Closing(Some(record)) else Publishing(record);
    }

    /** The record branch of the select statement. */
    method TakeRecord(outcomes: nat -> bool, late: nat -> bool, stop: nat -> bool) returns (stopped: bool)
      requires Valid() && control == Selecting && queue != []
      modifies this
      ensures Valid() && GoesOn(InTurn, old(run) + [ChooseRecord], run)
      ensures control == if stopped then Stopped else Selecting
      ensures stopped <==> old(cancelled)
      ensures attempts + queue == old(attempts + queue) && old(attempts) < attempts && cancelled == old(cancelled)
      ensures if stopped then queue == [] || expired
              else attempts == old(attempts) + [old(queue)[0]] && queue == old(queue)[1..]
      ensures failures == old(failures) + Failed(outcomes, 0, |attempts| - |old(attempts)|)
      ensures expired ==> old(expired) || exists i :: 0 < i <= |old(queue)| && late(i)
    {
      hide After, IsRun, Enabled, GoesOn, Failed, StopsInTime;
      TakeHead(attempts, queue);
      var record := Receive();
      StandsStill(InTurn, old(run) + [ChooseRecord]);
      GoesOneStep(InTurn, old(run) + [ChooseRecord], old(run) + [ChooseRecord], CheckContext);
      ghost var before := run;
      if cancelled {
        Shutdown(Some(record), outcomes, late, stop);
        GoesFurther(InTurn, old(run) + [ChooseRecord], before, run);
        return true;
      }
      GoesOneStep(InTurn, old(run) + [ChooseRecord], run, Publish(outcomes(0)));
      PublishRecord(record, outcomes(0));
      FailedOnce(outcomes);
      return false;
    }

    /** One turn of the loop of Run, in which the select statement picks something that is ready. */
    method TakeTurn(ready: Ready, outcomes: nat -> bool, late: nat -> bool, stop: nat -> bool) returns (stopped: bool)
      requires Valid() && control == Selecting
      requires ready == DoneReady ==> cancelled
      requires ready == RecordReady ==> queue != []
      modifies this
      ensures Valid() && GoesOn(InTurn, old(run) + [Choice(ready)], run)
      ensures control == if stopped then Stopped else Selecting
      ensures stopped <==> old(cancelled)
      ensures attempts + queue == old(attempts + queue) && old(attempts) <= attempts && cancelled == old(cancelled)
      ensures if stopped then queue == [] || expired
              else attempts == old(attempts) + [old(queue)[0]] && queue == old(queue)[1..]
      ensures failures == old(failures) +
                Failed(outcomes, if ready == RecordReady then 0 else 1, |attempts| - |old(attempts)|)
      ensures expired ==> old(expired) || exists i :: 0 < i <= |old(queue)| && late(i)
    {
      hide After, IsRun, GoesOn, Failed, StopsInTime;
      match ready
      case DoneReady =>
        RunGrows(capacity, run, ChooseDone);
        run := run + [ChooseDone];
        control := Closing(None);
        Shutdown(None, outcomes, late, stop);
        return true;
      case RecordReady =>
        stopped := TakeRecord(outcomes, late, stop);
    }

    /**
     One event around the consumer, whose loop has stopped or not: what becomes of the cancellation, of the
     loop, of the choices and calls in the run, and of the number of waiting records.
     */
    method React(event: Event, stopped0: bool) returns (stopped: bool)
      requires Valid() && control == if stopped0 then Stopped else Selecting
      requires stopped0 ==> queue == [] || expired
      modifies this
      ensures Valid() && control == if stopped then Stopped else Selecting
      ensures stopped ==> queue == [] || expired
      ensures cancelled <==> old(cancelled) || event.CancelContext?
      ensures stopped <==>
                stopped0 || (event.Turn? && old(cancelled) && (event.ready == DoneReady || old(queue) != []))
      ensures Collected(CallStep, run) == old(Collected(CallStep, run)) + CallEvent(event)
      ensures Collected(ChoiceStep, run) ==
                if event.Turn? && !stopped0 && (if event.ready == DoneReady then old(cancelled) else old(queue) != [])
                then old(Collected(ChoiceStep, run)) + [Choice(event.ready)] else old(Collected(ChoiceStep, run))
      ensures !stopped ==>
                && (|queue| == if SignalOf(event) == Arrives && |old(queue)| < capacity then |old(queue)| + 1
                               else if event.Turn? && event.ready == RecordReady && old(queue) != []
                               then |old(queue)| - 1 else |old(queue)|)
                && attempts == old(attempts) + if event.Turn? && event.ready == RecordReady && old(queue) != []
                                               then [old(queue)[0]] else []
      ensures old(attempts) <= attempts
      ensures failures == old(failures) +
                if event.Turn? then Failed(event.outcomes, if event.ready == RecordReady then 0 else 1,
                                           |attempts| - |old(attempts)|) else 0
    {
      hide After, IsRun, GoesOn, Collected, Failed;
      if event.Turn? {
        NoFailures(event.outcomes);
      }
      ClosedWhenStopped(capacity, run);
      stopped := stopped0;
      ghost var before := run;
      match event
      case Call(record, doneAtEntry, doneAtSelect, pickDone) =>
        CollectedNext(CallStep, run, Action.Enqueue(record, doneAtEntry, doneAtSelect, pickDone));
        CollectedNext(ChoiceStep, run, Action.Enqueue(record, doneAtEntry, doneAtSelect, pickDone));
        Enqueue(record, doneAtEntry, doneAtSelect, pickDone);
      case CancelContext =>
        if !cancelled {
          CollectedNext(CallStep, run, Cancel);
          CollectedNext(ChoiceStep, run, Cancel);
          CancelRun();
        }
      case Turn(ready, outcomes, late, stop) =>
        if !stopped && (ready == DoneReady ==> cancelled) && (ready == RecordReady ==> queue != []) {
          stopped := TakeTurn(ready, outcomes, late, stop);
          CollectedNext(CallStep, before, Choice(ready));
          CollectedNext(ChoiceStep, before, Choice(ready));
          TurnCollectsNothing(CallStep, InTurn, before + [Choice(ready)], run);
          TurnCollectsNothing(ChoiceStep, InTurn, before + [Choice(ready)], run);
        }
    }

    /**
     Run among its producers: whatever the sequence of events, the sink stays in a state that some run of
     the step system reaches, and that run holds exactly the calls among them and the turns for which
     something was ready when they came. What is ready, and when the loop ends, is said in Turns.
     */
    method Run(events: seq<Event>) returns (stopped: bool)
      requires Valid() && control == Selecting
      modifies this
      ensures Valid() && Collected(CallStep, run) == old(Collected(CallStep, run)) + Collected(CallEvent, events)
      ensures control == if stopped then Stopped else Selecting
      ensures cancelled <==> old(cancelled) || CancelContext in events
      ensures var start, signals := Start(capacity, |old(queue)|, old(cancelled)), SignalsOf(SignalOf, events);
              && (stopped <==> HasEnded(start, signals))
              && Collected(ChoiceStep, run) ==
                   old(Collected(ChoiceStep, run)) + Collected(ChoiceOf, Taken(start, signals))
              && (!stopped ==> |queue| == Waiting(start, signals)
                               && |attempts| == |old(attempts)| + |Taken(start, signals)|)
      ensures stopped ==> queue == [] || expired
    {
      hide After, IsRun, GoesOn, Collected, Waiting, HasEnded, Taken, IsCancelled, SignalsOf;
      ghost var start, signals := Start(capacity, |queue|, cancelled), SignalsOf(SignalOf, events[..0]);
      NoSignalsOf(SignalOf, events);
      NoSignals(start);
      CollectedNothing(CallEvent, events);
      CollectedNothing(ChoiceOf, []);
      stopped := false;
      for i := 0 to |events|
        invariant Valid() && control == if stopped then Stopped else Selecting
        invariant stopped ==> queue == [] || expired
        invariant signals == SignalsOf(SignalOf, events[..i])
        invariant cancelled <==> IsCancelled(start, signals)
        invariant stopped <==> HasEnded(start, signals)
        invariant Collected(CallStep, run) == old(Collected(CallStep, run)) + Collected(CallEvent, events[..i])
        invariant Collected(ChoiceStep, run) ==
                  old(Collected(ChoiceStep, run)) + Collected(ChoiceOf, Taken(start, signals))
        invariant !stopped ==>
                    |queue| == Waiting(start, signals) && |attempts| == |old(attempts)| + |Taken(start, signals)|
      {
        NextSignal(start, signals, SignalOf(events[i]));
        NextSignalOf(SignalOf, events, i);
        CollectedUpTo(CallEvent, events, i);
        CollectedNext(ChoiceOf, Taken(start, signals), SignalOf(events[i]));
        Associates(old(Collected(ChoiceStep, run)), Collected(ChoiceOf, Taken(start, signals)),
                   ChoiceOf(SignalOf(events[i])));
        Associates(old(Collected(CallStep, run)), Collected(CallEvent, events[..i]), CallEvent(events[i]));
        stopped := React(events[i], stopped);
        signals := signals + [SignalOf(events[i])];
      }
      assert events[..|events|] == events;
      CancelledBy(SignalOf, start, events);
    }
  }
}
