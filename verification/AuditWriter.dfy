/**
 The audit writer in the form of internal/store/audit.go. Every method is shown to perform steps of the
 step system in AuditModel: the ghost field run records them, and the fields are always the state after
 that run. So what is proved there for all runs holds of every object of this class. What a method does
 here without interruption is interleaved there with producers at every step.
 */
module AuditWriter {
  import opened Logs
  import opened Turns
  import opened AuditModel

  /** What the select statement of Run finds ready. */
  datatype Ready = DoneReady | RecordReady | TickReady

  /** What happens around the consumer: producers call, the context is cancelled, the consumer takes a turn. */
  datatype Event =
    | Call(record: Record, callerCancelled: bool)
    | CancelContext
    | Turn(ready: Ready, outcomes: nat -> InsertOutcome)

  predicate IsChoice(a: Action) {
    a.ChooseDone? || a.ChooseRecord? || a.ChooseTick?
  }

  /** A step in one turn of the consumer's loop, after the choice that begins it. */
  predicate InTurn(a: Action) {
    IsConsumerStep(a) && !IsChoice(a)
  }

  /** The step as a call of Enqueue, if it is one. */
  function CallStep(a: Action): seq<Action> {
    if a.Enqueue? then [a] else []
  }

  function CallEvent(event: Event): seq<Action> {
    match event
    case Call(record, callerCancelled) => [Action.Enqueue(record, callerCancelled)]
    case _ => []
  }

  /** The step as a choice of the select statement, if it is one. */
  function ChoiceStep(a: Action): seq<Action> {
    if IsChoice(a) then [a] else []
  }

  /** What an event is to the loop: a record arrives unless its caller is done. */
  function SignalOf(event: Event): Signal {
    match event
    case Call(_, callerCancelled) => if callerCancelled then Silent else Arrives
    case CancelContext => Cancels
    case Turn(ready, _) =>
      match ready
      case DoneReady => DoneTurn
      case RecordReady => RecordTurn
      case TickReady => TickTurn
  }

  function ChoiceOf(signal: Signal): seq<Action> {
    match signal
    case DoneTurn => [ChooseDone]
    case RecordTurn => [ChooseRecord]
    case TickTurn => [ChooseTick]
    case _ => []
  }

  /** The writer is open as long as its loop goes on, and closed when it has returned. */
  lemma ClosedWhenStopped(c: Config, run: seq<Action>)
    requires IsRun(c, run)
    ensures After(c, run).control == Selecting ==> !After(c, run).closed
    ensures After(c, run).control.Stopped? ==> After(c, run).closed && After(c, run).queue == []
  {
    hide After, Accepted, Flushed, InOrder, RowsUpTo;
    InvariantHolds(c, run);
  }

  function Choice(ready: Ready): Action {
    match ready
    case DoneReady => ChooseDone
    case RecordReady => ChooseRecord
    case TickReady => ChooseTick
  }

  lemma NoRowsInserted(table: Table)
    ensures InsertRows(table, []) == table
  {
  }

  lemma NextRowInserted(table: Table, records: seq<Record>, i: nat)
    requires i < |records|
    ensures InsertRows(table, records[..i + 1]) == InsertRow(InsertRows(table, records[..i]), records[i])
  {
    assert records[..i + 1][..i] == records[..i];
  }

  /** All inserts of these records succeed. */
  ghost predicate Inserts(records: seq<Record>, outcomes: nat -> InsertOutcome) {
    forall i :: 0 <= i < |records| ==> records[i].insertable && outcomes(i) == Applied
  }

  /**
   The table after inserting these records up to the first failure: the rows of the records before it, and
   that of the failed one if its insert has taken effect all the same.
   */
  ghost predicate IsFlushed(before: Table, records: seq<Record>, outcomes: nat -> InsertOutcome, after: Table) {
    if Inserts(records, outcomes) then after == InsertRows(before, records)
    else exists f :: 0 <= f < |records| && !Succeeds(records, outcomes, f) && Inserts(records[..f], outcomes)
                  && after == InsertRows(before, records[..if TookEffect(records, outcomes, f) then f + 1 else f])
  }

  /**
   What one turn does with batch, table and queue. A tick flushes the batch. A record goes to the batch,
   which is flushed if that fills it. When the context is cancelled, all that is left is flushed once.
   */
  ghost predicate TurnDone(c: Config, before: State, ready: Ready, outcomes: nat -> InsertOutcome, after: State) {
    if ready != TickReady && before.cancelled then
      var rest := before.batch + before.queue;
      && after.control == Stopped(Inserts(rest, outcomes)) && after.queue == [] && after.batch == rest
      && IsFlushed(before.table, rest, outcomes, after.table)
    else if ready == TickReady then
      && after.batch == (if Inserts(before.batch, outcomes) then [] else before.batch)
      && IsFlushed(before.table, before.batch, outcomes, after.table) && after.queue == before.queue
    else
      before.queue != [] &&
      var batch := before.batch + [before.queue[0]];
      && after.queue == before.queue[1..]
      && if |batch| < c.batchSize then after.batch == batch && after.table == before.table
         else after.batch == (if Inserts(batch, outcomes) then [] else batch)
              && IsFlushed(before.table, batch, outcomes, after.table)
  }

  lemma NothingFlushed(table: Table, outcomes: nat -> InsertOutcome)
    ensures Inserts([], outcomes) && IsFlushed(table, [], outcomes, table)
  {
  }

  predicate Succeeds(records: seq<Record>, outcomes: nat -> InsertOutcome, i: nat)
    requires i < |records|
  {
    records[i].insertable && outcomes(i) == Applied
  }

  predicate TookEffect(records: seq<Record>, outcomes: nat -> InsertOutcome, i: nat)
    requires i < |records|
  {
    records[i].insertable && outcomes(i) == FailedAfterApplying
  }

  class Writer {
    const config: Config
    var queue: seq<Record>
    var closed: bool
    var dropped: nat
    var batch: seq<Record>
    var table: Table
    var cancelled: bool
    ghost var control: Control
    ghost var run: seq<Action>

    /** NewAuditWriter, with its defaults. */
    constructor (queueSize: int, batchSize: int)
      ensures Valid() && run == []
      ensures queue == [] && batch == [] && table == map[] && dropped == 0
      ensures !closed && !cancelled && control == Selecting
      ensures config == Config(if queueSize <= 0 then 10000 else queueSize, if batchSize <= 0 then 100 else batchSize)
    {
      config := Config(if queueSize <= 0 then 10000 else queueSize, if batchSize <= 0 then 100 else batchSize);
      queue, closed, dropped, batch, table, cancelled := [], false, 0, [], map[], false;
      control, run := Selecting, [];
    }

    ghost function Now(): State
      reads this
    {
      State(queue, closed, dropped, batch, table, control, cancelled)
    }

    ghost predicate Valid()
      reads this
    {
      IsRun(config, run) && After(config, run) == Now()
    }

    method Enqueue(record: Record, callerCancelled: bool)
      requires Valid()
      modifies this
      ensures Valid() && run == old(run) + [Action.Enqueue(record, callerCancelled)] && control == old(control)
      ensures queue == if !callerCancelled && !closed && |old(queue)| < config.capacity
                       then old(queue) + [record] else old(queue)
      ensures dropped == old(dropped) + if !callerCancelled && !closed && |old(queue)| >= config.capacity then 1 else 0
      ensures batch == old(batch) && table == old(table) && closed == old(closed) && cancelled == old(cancelled)
    {
      ghost var a := Action.Enqueue(record, callerCancelled);
      RunGrows(config, run, a);
      run := run + [a];
      if callerCancelled {
        return;
      }
      if closed {
        return;
      }
      if |queue| < config.capacity {
        queue := queue + [record];
      } else {
        dropped := dropped + 1;
      }
    }

    /** The context of Run is cancelled. */
    method CancelRun()
      requires Valid() && !cancelled
      modifies this
      ensures Valid() && run == old(run) + [Cancel] && control == old(control)
      ensures cancelled && queue == old(queue) && batch == old(batch) && table == old(table)
    {
      RunGrows(config, run, Cancel);
      run := run + [Cancel];
      cancelled := true;
    }

    method Close()
      requires Valid() && control == Closing
      modifies this
      ensures Valid() && run == old(run) + [Action.Close] && control == Draining
      ensures closed && batch == old(batch) && queue == old(queue) && table == old(table)
      ensures cancelled == old(cancelled)
    {
      RunGrows(config, run, Action.Close);
      run := run + [Action.Close];
      closed := true;
      control := Draining;
    }

    /** drainQueued */
    method DrainQueued()
      requires Valid() && control == Draining
      modifies this
      ensures Valid() && GoesOn(InTurn, old(run), run) && control == Flushing(0, true)
      ensures batch == old(batch + queue) && queue == []
      ensures table == old(table) && dropped == old(dropped) && cancelled == old(cancelled)
    {
      hide After, IsRun, GoesOn;
      StandsStill(InTurn, run);
      while queue != []
        invariant Valid() && control == Draining && GoesOn(InTurn, old(run), run)
        invariant batch + queue == old(batch + queue)
        invariant table == old(table) && dropped == old(dropped) && cancelled == old(cancelled)
        decreases |queue|
      {
        RunGrows(config, run, DrainOne);
        GoesOneStep(InTurn, old(run), run, DrainOne);
        run := run + [DrainOne];
        batch, queue := batch + [queue[0]], queue[1..];
      }
      RunGrows(config, run, EndDrain);
      GoesOneStep(InTurn, old(run), run, EndDrain);
      run := run + [EndDrain];
      control := Flushing(0, true);
    }

    /** Marshal and insert the i-th record of the batch; an error ends the flush. */
    method InsertRecord(i: nat, outcome: InsertOutcome) returns (ok: bool)
      requires Valid() && control.Flushing? && control.next == i < |batch|
      modifies this
      ensures Valid() && run == old(run) + [Insert(outcome)]
      ensures Now() == AfterInsert(old(Now()), outcome)
      ensures ok <==> batch[i].insertable && outcome == Applied
    {
      hide After, IsRun, InsertRow;
      RunGrows(config, run, Insert(outcome));
      run := run + [Insert(outcome)];
      var record := batch[i];
      if record.insertable && outcome != Failed {
        table := InsertRow(table, record);
      }
      ok := record.insertable && outcome == Applied;
      control := if ok then Flushing(i + 1, control.final)
                 else if control.final then Stopped(false) else Selecting;
    }

    /**
     flush: insert the records one by one, up to the first failure. The outcome of the i-th insert is
     outcomes(i).
     */
    method Flush(outcomes: nat -> InsertOutcome) returns (ok: bool)
      requires Valid() && control.Flushing? && control.next == 0
      modifies this
      ensures Valid() && GoesOn(InTurn, old(run), run)
      ensures ok <==> Inserts(batch, outcomes)
      ensures IsFlushed(old(table), batch, outcomes, table)
      ensures control == if ok then Flushing(|batch|, old(control).final)
                         else if old(control).final then Stopped(false) else Selecting
      ensures batch == old(batch) && queue == old(queue) && cancelled == old(cancelled) && closed == old(closed)
    {
      hide After, IsRun, InsertRow, InsertRows, GoesOn;
      NoRowsInserted(table);
      assert batch[..0] == [];
      StandsStill(InTurn, run);
      ghost var final := control.final;
      for i := 0 to |batch|
        invariant Valid() && GoesOn(InTurn, old(run), run) && control == Flushing(i, final)
        invariant batch == old(batch) && queue == old(queue) && cancelled == old(cancelled) && closed == old(closed)
        invariant forall j :: 0 <= j < i ==> batch[j].insertable && outcomes(j) == Applied
        invariant table == InsertRows(old(table), batch[..i])
      {
        NextRowInserted(old(table), batch, i);
        GoesOneStep(InTurn, old(run), run, Insert(outcomes(i)));
        ok := InsertRecord(i, outcomes(i));
        if !ok {
          assert !Succeeds(batch, outcomes, i) && Inserts(batch[..i], outcomes);
          return;
        }
      }
      assert batch[..|batch|] == batch;
      return true;
    }

    /** The way out of Run: close, drain, and a final flush whose error is not looked at. */
    method Finish(outcomes: nat -> InsertOutcome)
      requires Valid() && control == Closing
      modifies this
      ensures Valid() && GoesOn(InTurn, old(run), run) && queue == []
      ensures control == Stopped(Inserts(old(batch + queue), outcomes)) && batch == old(batch + queue)
      ensures IsFlushed(old(table), old(batch + queue), outcomes, table) && cancelled == old(cancelled)
    {
      hide After, IsRun, GoesOn, Inserts, InsertRows, IsFlushed;
      StandsStill(InTurn, run);
      GoesOneStep(InTurn, run, run, Action.Close);
      Close();
      DrainQueued();
      GoesFurther(InTurn, old(run), old(run) + [Action.Close], run);
      ghost var drained := run;
      var ok := Flush(outcomes);
      GoesFurther(InTurn, old(run), drained, run);
      if ok {
        RunGrows(config, run, EndFlush);
        GoesOneStep(InTurn, old(run), run, EndFlush);
        run := run + [EndFlush];
        control := Stopped(true);
      }
    }

    /** A flush in the course of Run: only a success empties the batch. */
    method FlushInCourse(outcomes: nat -> InsertOutcome)
      requires Valid() && control == Flushing(0, false)
      modifies this
      ensures Valid() && GoesOn(InTurn, old(run), run) && control == Selecting
      ensures batch == if Inserts(old(batch), outcomes) then [] else old(batch)
      ensures IsFlushed(old(table), old(batch), outcomes, table)
      ensures queue == old(queue) && cancelled == old(cancelled) && closed == old(closed)
    {
      hide After, IsRun, GoesOn, Inserts, InsertRows, IsFlushed;
      var ok := Flush(outcomes);
      if ok {
        RunGrows(config, run, EndFlush);
        GoesOneStep(InTurn, old(run), run, EndFlush);
        run := run + [EndFlush];
        batch := [];
        control := Selecting;
      }
    }

    /** The record branch of the select statement. */
    method TakeRecord(outcomes: nat -> InsertOutcome) returns (stop: bool)
      requires Valid() && control == Selecting && queue != []
      modifies this
      ensures Valid() && GoesOn(InTurn, old(run) + [ChooseRecord], run)
      ensures if stop then control.Stopped? else control == Selecting
      ensures (stop <==> old(cancelled)) && cancelled == old(cancelled)
      ensures TurnDone(config, old(Now()), RecordReady, outcomes, Now())
    {
      hide After, IsRun, GoesOn, Inserts, InsertRows, IsFlushed;
      assert old(batch + queue) == old(batch) + [old(queue)[0]] + old(queue)[1..];
      RunGrows(config, run, ChooseRecord);
      run := run + [ChooseRecord];
      ghost var chosen := run;
      StandsStill(InTurn, run);
      batch, queue := batch + [queue[0]], queue[1..];
      control := Received;
      RunGrows(config, run, CheckContext);
      GoesOneStep(InTurn, run, run, CheckContext);
      run := run + [CheckContext];
      ghost var checked := run;
      if cancelled {
        control := Closing;
        Finish(outcomes);
        GoesFurther(InTurn, chosen, checked, run);
        return true;
      }
      if |batch| >= config.batchSize {
        control := Flushing(0, false);
        FlushInCourse(outcomes);
        GoesFurther(InTurn, chosen, checked, run);
      } else {
        control := Selecting;
      }
      return false;
    }

    /** One turn of the loop of Run, in which the select statement picks something that is ready. */
    method TakeTurn(ready: Ready, outcomes: nat -> InsertOutcome) returns (stop: bool)
      requires Valid() && control == Selecting
      requires ready == DoneReady ==> cancelled
      requires ready == RecordReady ==> queue != []
      modifies this
      ensures Valid() && GoesOn(InTurn, old(run) + [Choice(ready)], run)
      ensures if stop then control.Stopped? else control == Selecting
      ensures (stop <==> ready == DoneReady || (ready == RecordReady && old(cancelled))) && cancelled == old(cancelled)
      ensures TurnDone(config, old(Now()), ready, outcomes, Now())
    {
      hide After, IsRun, GoesOn, Inserts, InsertRows, IsFlushed;
      match ready
      case DoneReady =>
        RunGrows(config, run, ChooseDone);
        run := run + [ChooseDone];
        control := Closing;
        Finish(outcomes);
        return true;
      case RecordReady =>
        stop := TakeRecord(outcomes);
      case TickReady =>
        RunGrows(config, run, ChooseTick);
        run := run + [ChooseTick];
        StandsStill(InTurn, run);
        if |batch| > 0 {
          control := Flushing(0, false);
          FlushInCourse(outcomes);
        } else {
          NothingFlushed(table, outcomes);
        }
        return false;
    }

    /**
     One event around the consumer, whose loop has stopped or not: what becomes of the cancellation, of the
     loop, of the choices and calls in the run, and of the number of waiting records.
     */
    method React(event: Event, stopped0: bool) returns (stopped: bool)
      requires Valid() && if stopped0 then control.Stopped? else control == Selecting
      modifies this
      ensures Valid() && if stopped then control.Stopped? && queue == [] else control == Selecting
      ensures cancelled <==> old(cancelled) || event.CancelContext?
      ensures stopped <==>
                || stopped0
                || (event.Turn? && old(cancelled) && event.ready == DoneReady)
                || (event.Turn? && old(cancelled) && event.ready == RecordReady && old(queue) != [])
      ensures Collected(CallStep, run) == old(Collected(CallStep, run)) + CallEvent(event)
      ensures Collected(ChoiceStep, run) ==
                if event.Turn? && !stopped0 && (event.ready == DoneReady ==> old(cancelled))
                   && (event.ready == RecordReady ==> old(queue) != [])
                then old(Collected(ChoiceStep, run)) + [Choice(event.ready)] else old(Collected(ChoiceStep, run))
      ensures !stopped ==>
                |queue| == if SignalOf(event) == Arrives && |old(queue)| < config.capacity then |old(queue)| + 1
                           else if event.Turn? && event.ready == RecordReady && old(queue) != []
                           then |old(queue)| - 1 else |old(queue)|
      ensures event.Turn? && !stopped0 && (event.ready == DoneReady ==> old(cancelled))
                && (event.ready == RecordReady ==> old(queue) != [])
              ==> TurnDone(config, old(Now()), event.ready, event.outcomes, Now())
      ensures !event.Turn? ==> batch == old(batch) && table == old(table)
    {
      hide After, IsRun, GoesOn, Collected, Inserts, IsFlushed, InsertRows;
      ClosedWhenStopped(config, run);
      stopped := stopped0;
      ghost var before := run;
      match event
      case Call(record, callerCancelled) =>
        CollectedNext(CallStep, run, Action.Enqueue(record, callerCancelled));
        CollectedNext(ChoiceStep, run, Action.Enqueue(record, callerCancelled));
        Enqueue(record, callerCancelled);
      case CancelContext =>
        if !cancelled {
          CollectedNext(CallStep, run, Cancel);
          CollectedNext(ChoiceStep, run, Cancel);
          CancelRun();
        }
      case Turn(ready, outcomes) =>
        if !stopped && (ready == DoneReady ==> cancelled) && (ready == RecordReady ==> queue != []) {
          stopped := TakeTurn(ready, outcomes);
          CollectedNext(CallStep, before, Choice(ready));
          CollectedNext(ChoiceStep, before, Choice(ready));
          TurnCollectsNothing(CallStep, InTurn, before + [Choice(ready)], run);
          TurnCollectsNothing(ChoiceStep, InTurn, before + [Choice(ready)], run);
        }
    }

    /**
     Run among its producers: whatever the sequence of events, the writer stays in a state that some run of
     the step system reaches, and that run holds exactly the calls among them and the turns for which
     something was ready when they came. What is ready, and when the loop ends, is said in Turns.
     */
    method Run(events: seq<Event>) returns (stopped: bool)
      requires Valid() && control == Selecting
      modifies this
      ensures Valid() && Collected(CallStep, run) == old(Collected(CallStep, run)) + Collected(CallEvent, events)
      ensures if stopped then control.Stopped? && queue == [] else control == Selecting
      ensures cancelled <==> old(cancelled) || CancelContext in events
      ensures var start, signals := Start(config.capacity, |old(queue)|, old(cancelled)), SignalsOf(SignalOf, events);
              && (stopped <==> HasEnded(start, signals))
              && Collected(ChoiceStep, run) ==
                   old(Collected(ChoiceStep, run)) + Collected(ChoiceOf, Taken(start, signals))
              && (!stopped ==> |queue| == Waiting(start, signals))
    {
      hide After, IsRun, GoesOn, Collected, Waiting, HasEnded, Taken, IsCancelled, SignalsOf;
      ghost var start, signals := Start(config.capacity, |queue|, cancelled), SignalsOf(SignalOf, events[..0]);
      NoSignalsOf(SignalOf, events);
      NoSignals(start);
      CollectedNothing(CallEvent, events);
      CollectedNothing(ChoiceOf, []);
      stopped := false;
      for i := 0 to |events|
        invariant Valid() && if stopped then control.Stopped? && queue == [] else control == Selecting
        invariant signals == SignalsOf(SignalOf, events[..i])
        invariant cancelled <==> IsCancelled(start, signals)
        invariant stopped <==> HasEnded(start, signals)
        invariant Collected(CallStep, run) == old(Collected(CallStep, run)) + Collected(CallEvent, events[..i])
        invariant Collected(ChoiceStep, run) ==
                  old(Collected(ChoiceStep, run)) + Collected(ChoiceOf, Taken(start, signals))
        invariant !stopped ==> |queue| == Waiting(start, signals)
      {
        NextSignal(start, signals, SignalOf(events[i]));
        NextSignalOf(SignalOf, events, i);
        CollectedUpTo(CallEvent, events, i);
        CollectedNext(ChoiceOf, Taken(start, signals), SignalOf(events[i]));
        Associates(old(Collected(ChoiceStep, run)), Collected(ChoiceOf, Taken(start, signals)),
                   ChoiceOf(SignalOf(events[i])));
        Associates(old(Collected(CallStep, run)), Collected(CallEvent, events[..i]), CallEvent(events[i]));
        stopped := React(events[i], stopped);
        signals := signals + [SignalOf(events[i])];
      }
      assert events[..|events|] == events;
      CancelledBy(SignalOf, start, events);
    }
  }

  function InsertRows(table: Table, records: seq<Record>): Table {
    if records == [] then table
    else InsertRow(InsertRows(table, records[..|records| - 1]), records[|records| - 1])
  }
}
