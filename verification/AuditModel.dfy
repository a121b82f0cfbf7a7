/**
 The audit writer (internal/store/audit.go) as a step system: producers that call Enqueue at any time,
 one consumer, and a table. A run is any interleaving of steps; inserts may fail or fail after taking
 effect, at any time. The theorems relate the state to what the run did.
 */
module AuditModel {
  /**
   A decision record: its id, its other columns, and whether these can be inserted at all. A record that
   cannot be marshalled to JSON is not insertable, nor is one that the table refuses every time, such as
   one with U+0000 in a string of the request, which a jsonb column does not take.
   */
  datatype Record = Record(id: string, columns: string, insertable: bool)

  datatype Config = Config(capacity: nat, batchSize: nat)

  /** Where the consumer is in Run. */
  datatype Control =
    | Selecting
    | Received
    | Flushing(next: nat, final: bool)
    | Closing
    | Draining
    | Stopped(complete: bool)

  type Table = map<string, Record>

  datatype State = State(
    queue: seq<Record>,
    closed: bool,
    dropped: nat,
    batch: seq<Record>,
    table: Table,
    control: Control,
    cancelled: bool)

  datatype InsertOutcome = Applied | Failed | FailedAfterApplying

  datatype Action =
    | Enqueue(record: Record, callerCancelled: bool)
    | Cancel
    | ChooseDone
    | ChooseRecord
    | ChooseTick
    | CheckContext
    | Insert(outcome: InsertOutcome)
    | EndFlush
    | Close
    | DrainOne
    | EndDrain

  const Initial: State := State([], false, 0, [], map[], Selecting, false)

  /** INSERT ... ON CONFLICT (id) DO NOTHING */
  function InsertRow(table: Table, record: Record): Table {
    if record.id in table then table else table[record.id := record]
  }

  predicate Enabled(s: State, a: Action) {
    match a
    case Enqueue(_, _) => true
    case Cancel => !s.cancelled
    case ChooseDone => s.control.Selecting? && s.cancelled
    case ChooseRecord => s.control.Selecting? && s.queue != []
    case ChooseTick => s.control.Selecting?
    case CheckContext => s.control.Received?
    case Insert(_) => s.control.Flushing? && s.control.next < |s.batch|
    case EndFlush => s.control.Flushing? && s.control.next == |s.batch|
    case Close => s.control.Closing?
    case DrainOne => s.control.Draining? && s.queue != []
    case EndDrain => s.control.Draining? && s.queue == []
  }

  predicate Accepts(c: Config, s: State, a: Action) {
    a.Enqueue? && !a.callerCancelled && !s.closed && |s.queue| < c.capacity
  }

  predicate Drops(c: Config, s: State, a: Action) {
    a.Enqueue? && !a.callerCancelled && !s.closed && |s.queue| >= c.capacity
  }

  predicate Ignores(s: State, a: Action) {
    a.Enqueue? && (a.callerCancelled || s.closed)
  }

  function AfterInsert(s: State, outcome: InsertOutcome): State
    requires s.control.Flushing? && s.control.next < |s.batch|
  {
    var record := s.batch[s.control.next];
    var table := if record.insertable && outcome != Failed then InsertRow(s.table, record) else s.table;
    if record.insertable && outcome == Applied then
      s.(table := table, control := Flushing(s.control.next + 1, s.control.final))
    else
      s.(table := table, control := if s.control.final then Stopped(false) else Selecting)
  }

  function Step(c: Config, s: State, a: Action): State
    requires Enabled(s, a)
  {
    match a
    case Enqueue(record, _) =>
      if Accepts(c, s, a) then s.(queue := s.queue + [record])
      else if Drops(c, s, a) then s.(dropped := s.dropped + 1)
      else s
    case Cancel => s.(cancelled := true)
    case ChooseDone => s.(control := Closing)
    case ChooseRecord => s.(queue := s.queue[1..], batch := s.batch + [s.queue[0]], control := Received)
    case ChooseTick => s.(control := if |s.batch| > 0 then Flushing(0, false) else Selecting)
    case CheckContext =>
      s.(control := if s.cancelled then Closing else if |s.batch| >= c.batchSize then Flushing(0, false) else Selecting)
    case Insert(outcome) => AfterInsert(s, outcome)
    case EndFlush =>
      if s.control.final then s.(control := Stopped(true)) else s.(batch := [], control := Selecting)
    case Close => s.(closed := true, control := Draining)
    case DrainOne => s.(queue := s.queue[1..], batch := s.batch + [s.queue[0]])
    case EndDrain => s.(control := Flushing(0, true))
  }

  // ----- Runs and what they did -----

  ghost predicate IsRun(c: Config, run: seq<Action>)
    decreases |run|, 0
  {
    run == [] || (IsRun(c, run[..|run| - 1]) && Enabled(After(c, run[..|run| - 1]), run[|run| - 1]))
  }

  ghost function After(c: Config, run: seq<Action>): State
    requires IsRun(c, run)
    decreases |run|, 1
  {
    if run == [] then Initial else Step(c, After(c, run[..|run| - 1]), run[|run| - 1])
  }

  ghost function AcceptedBy(c: Config, s: State, a: Action): seq<Record> {
    if Accepts(c, s, a) then [a.record] else []
  }

  ghost function FlushedBy(s: State, a: Action): seq<Record> {
    if a.EndFlush? && s.control.Flushing? && !s.control.final then s.batch else []
  }

  /** The records that got into the queue, in order. */
  ghost function Accepted(c: Config, run: seq<Action>): seq<Record>
    requires IsRun(c, run)
  {
    if run == [] then [] else
      var init, last := run[..|run| - 1], run[|run| - 1];
      Accepted(c, init) + AcceptedBy(c, After(c, init), last)
  }

  /** The batches that a periodic flush has written completely, one after the other. */
  ghost function Flushed(c: Config, run: seq<Action>): seq<Record>
    requires IsRun(c, run)
  {
    if run == [] then [] else
      var init, last := run[..|run| - 1], run[|run| - 1];
      Flushed(c, init) + FlushedBy(After(c, init), last)
  }

  ghost function Calls(run: seq<Action>): nat {
    if run == [] then 0 else Calls(run[..|run| - 1]) + if run[|run| - 1].Enqueue? then 1 else 0
  }

  /** Calls of Enqueue that came too late or from a cancelled caller. */
  ghost function Ignored(c: Config, run: seq<Action>): nat
    requires IsRun(c, run)
  {
    if run == [] then 0 else
      var init, last := run[..|run| - 1], run[|run| - 1];
      Ignored(c, init) + if Ignores(After(c, init), last) then 1 else 0
  }

  /** One row per id, the first record with that id. */
  ghost function FirstRows(records: seq<Record>): Table {
    if records == [] then map[] else InsertRow(FirstRows(records[..|records| - 1]), records[|records| - 1])
  }

  /** The row of an id is the first record with that id, and there is none without a record. */
  lemma {:induction false} FirstRowsById(records: seq<Record>, id: string)
    ensures id in FirstRows(records) <==> exists r :: r in records && r.id == id
    ensures forall f :: 0 <= f < |records| && records[f].id == id && (forall j :: 0 <= j < f ==> records[j].id != id)
              ==> id in FirstRows(records) && FirstRows(records)[id] == records[f]
    decreases |records|
  {
    if records != [] {
      var init, last := records[..|records| - 1], records[|records| - 1];
      FirstRowsById(init, id);
      assert records == init + [last];
      forall f | 0 <= f < |records| && records[f].id == id && forall j :: 0 <= j < f ==> records[j].id != id
        ensures FirstRows(records)[id] == records[f]
      {
        if f < |init| {
          assert init[f] == records[f];
        }
      }
    }
  }

  // ----- The invariant -----

  /** Nothing is lost, duplicated or reordered on the way from the queue to a finished flush. */
  ghost predicate InOrder(s: State, accepted: seq<Record>, flushed: seq<Record>) {
    accepted == flushed + s.batch + s.queue
  }

  /** The table holds the rows of the first k accepted records. */
  ghost predicate RowsUpTo(s: State, accepted: seq<Record>, flushed: seq<Record>, k: nat) {
    && |flushed| <= k <= |flushed| + |s.batch| <= |accepted|
    && s.table == FirstRows(accepted[..k])
    && (forall j :: 0 <= j < k ==> accepted[j].insertable)
    && (s.control.Flushing? ==> s.control.next <= |s.batch| && |flushed| + s.control.next <= k)
    && (s.control == Stopped(true) ==> k == |accepted|)
  }

  ghost predicate ControlOk(c: Config, s: State) {
    && |s.queue| <= c.capacity
    && (s.closed <==> s.control.Draining? || s.control.Stopped? || (s.control.Flushing? && s.control.final))
    && (s.control.Stopped? || (s.control.Flushing? && s.control.final) ==> s.queue == [])
    && (s.control.Closing? || s.closed ==> s.cancelled)
  }

  ghost predicate Invariant(c: Config, s: State, accepted: seq<Record>, flushed: seq<Record>) {
    && ControlOk(c, s) && InOrder(s, accepted, flushed)
    && exists k: nat :: RowsUpTo(s, accepted, flushed, k)
  }

  lemma FirstRowsAgain(records: seq<Record>, r: Record)
    requires r in records
    ensures InsertRow(FirstRows(records), r) == FirstRows(records)
  {
    FirstRowsById(records, r.id);
  }

  lemma FirstRowsNext(records: seq<Record>, k: nat)
    requires k < |records|
    ensures FirstRows(records[..k + 1]) == InsertRow(FirstRows(records[..k]), records[k])
  {
    assert records[..k + 1][..k] == records[..k];
  }

  lemma ControlStays(c: Config, s: State, a: Action)
    requires ControlOk(c, s) && Enabled(s, a)
    ensures ControlOk(c, Step(c, s, a))
  {
  }

  lemma OrderStays(c: Config, s: State, a: Action, accepted: seq<Record>, flushed: seq<Record>)
    requires ControlOk(c, s) && InOrder(s, accepted, flushed) && Enabled(s, a)
    ensures InOrder(Step(c, s, a), accepted + AcceptedBy(c, s, a), flushed + FlushedBy(s, a))
  {
  }

  lemma BatchIsAccepted(s: State, accepted: seq<Record>, flushed: seq<Record>, n: nat)
    requires InOrder(s, accepted, flushed) && n < |s.batch|
    ensures |flushed| + n < |accepted| && accepted[|flushed| + n] == s.batch[n]
  {
  }

  /** The insert of a record that has a row already changes nothing; the next one adds the next row. */
  lemma RowsAfterInsert(s: State, outcome: InsertOutcome, accepted: seq<Record>, flushed: seq<Record>, k: nat)
    returns (k': nat)
    requires InOrder(s, accepted, flushed) && RowsUpTo(s, accepted, flushed, k)
    requires s.control.Flushing? && s.control.next < |s.batch|
    ensures RowsUpTo(AfterInsert(s, outcome), accepted, flushed, k')
  {
    hide FirstRows, InsertRow, InOrder;
    var i := |flushed| + s.control.next;
    var record := s.batch[s.control.next];
    BatchIsAccepted(s, accepted, flushed, s.control.next);
    k' := k;
    if record.insertable && outcome != Failed {
      InsertKeepsPrefix(s.table, accepted, k, i);
      if i == k {
        k' := k + 1;
      }
    }
  }

  lemma InsertKeepsPrefix(table: Table, accepted: seq<Record>, k: nat, i: nat)
    requires i <= k <= |accepted| && i < |accepted| && table == FirstRows(accepted[..k])
    ensures InsertRow(table, accepted[i]) == FirstRows(accepted[..if i < k then k else k + 1])
  {
    hide FirstRows;
    if i < k {
      assert accepted[..k][i] == accepted[i];
      FirstRowsAgain(accepted[..k], accepted[i]);
    } else {
      FirstRowsNext(accepted, k);
    }
  }

  lemma RowsStay(c: Config, s: State, a: Action, accepted: seq<Record>, flushed: seq<Record>, k: nat) returns (k': nat)
    requires ControlOk(c, s) && InOrder(s, accepted, flushed) && RowsUpTo(s, accepted, flushed, k) && Enabled(s, a)
    ensures RowsUpTo(Step(c, s, a), accepted + AcceptedBy(c, s, a), flushed + FlushedBy(s, a), k')
  {
    hide FirstRows;
    k' := k;
    assert (accepted + AcceptedBy(c, s, a))[..k] == accepted[..k];
    if a.Insert? {
      k' := RowsAfterInsert(s, a.outcome, accepted, flushed, k);
      assert accepted + AcceptedBy(c, s, a) == accepted && flushed + FlushedBy(s, a) == flushed;
    }
  }

  /** Every run keeps the invariant, whatever the interleaving and whatever fails. */
  lemma {:induction false} InvariantHolds(c: Config, run: seq<Action>)
    requires IsRun(c, run)
    ensures Invariant(c, After(c, run), Accepted(c, run), Flushed(c, run))
    decreases |run|
  {
    if run == [] {
      assert RowsUpTo(Initial, [], [], 0);
    } else {
      var init, a := run[..|run| - 1], run[|run| - 1];
      InvariantHolds(c, init);
      var s, accepted, flushed := After(c, init), Accepted(c, init), Flushed(c, init);
      var k: nat :| RowsUpTo(s, accepted, flushed, k);
      ControlStays(c, s, a);
      OrderStays(c, s, a, accepted, flushed);
      var k' := RowsStay(c, s, a, accepted, flushed, k);
    }
  }

  // ----- What follows for every run -----

  /** First in, first out, and never more in the queue than it can hold. */
  lemma FifoOrder(c: Config, run: seq<Action>)
    requires IsRun(c, run)
    ensures Accepted(c, run) == Flushed(c, run) + After(c, run).batch + After(c, run).queue
    ensures |After(c, run).queue| <= c.capacity
  {
    InvariantHolds(c, run);
    hide After, Accepted, Flushed, FirstRows;
  }

  /**
   At any moment the table holds exactly the first rows of a prefix of what was accepted, and that
   prefix contains all that was flushed: failed and repeated flushes leave no trace.
   */
  lemma TableIsPrefix(c: Config, run: seq<Action>)
    requires IsRun(c, run)
    ensures exists k: nat :: k <= |Accepted(c, run)| && Flushed(c, run) <= Accepted(c, run)[..k]
                        && After(c, run).table == FirstRows(Accepted(c, run)[..k])
  {
    InvariantHolds(c, run);
    hide After, Accepted, Flushed, FirstRows, IsRun, ControlOk, InOrder;
    var s, accepted, flushed := After(c, run), Accepted(c, run), Flushed(c, run);
    var k: nat :| RowsUpTo(s, accepted, flushed, k);
    FlushedIsPrefix(s, accepted, flushed, k);
  }

  lemma FlushedIsPrefix(s: State, accepted: seq<Record>, flushed: seq<Record>, k: nat)
    requires InOrder(s, accepted, flushed) && |flushed| <= k <= |accepted|
    ensures flushed <= accepted[..k]
  {
  }

  /** When the last flush succeeds, every accepted record has its row: the first one with its id. */
  lemma CompleteStop(c: Config, run: seq<Action>)
    requires IsRun(c, run) && After(c, run).control == Stopped(true)
    ensures After(c, run).table == FirstRows(Accepted(c, run))
    ensures forall r :: r in Accepted(c, run) ==> r.id in After(c, run).table && r.insertable
  {
    forall r | r in Accepted(c, run) ensures r.id in FirstRows(Accepted(c, run)) {
      FirstRowsById(Accepted(c, run), r.id);
    }
    InvariantHolds(c, run);
    hide After, Accepted, Flushed, FirstRows;
    var accepted := Accepted(c, run);
    var k: nat :| RowsUpTo(After(c, run), accepted, Flushed(c, run), k);
    assert accepted[..k] == accepted;
  }

  lemma CallIsCounted(c: Config, s: State, a: Action)
    requires Enabled(s, a)
    ensures |AcceptedBy(c, s, a)| + Step(c, s, a).dropped + (if Ignores(s, a) then 1 else 0)
            == s.dropped + if a.Enqueue? then 1 else 0
  {
  }

  /** Every call of Enqueue is accepted, dropped because the queue is full, or ignored. */
  lemma {:induction false} CallsAreCounted(c: Config, run: seq<Action>)
    requires IsRun(c, run)
    ensures |Accepted(c, run)| + After(c, run).dropped + Ignored(c, run) == Calls(run)
    decreases |run|
  {
    hide Step, Enabled, Accepts, Drops, Ignores;
    if run != [] {
      CallsAreCounted(c, run[..|run| - 1]);
      CallIsCounted(c, After(c, run[..|run| - 1]), run[|run| - 1]);
    }
  }

  lemma RunGrows(c: Config, run: seq<Action>, a: Action)
    requires IsRun(c, run) && Enabled(After(c, run), a)
    ensures IsRun(c, run + [a]) && After(c, run + [a]) == Step(c, After(c, run), a)
  {
    hide Step, Enabled;
    assert (run + [a])[..|run|] == run;
  }

  lemma AcceptedGrows(c: Config, run: seq<Action>, a: Action)
    requires IsRun(c, run) && IsRun(c, run + [a])
    ensures Accepted(c, run + [a]) == Accepted(c, run) + AcceptedBy(c, After(c, run), a)
  {
    hide After;
    assert (run + [a])[..|run|] == run;
  }

  /** Once closed, nothing more is accepted or dropped; once stopped, nothing changes at all. */
  lemma ClosedForGood(c: Config, run: seq<Action>, a: Action)
    requires IsRun(c, run) && Enabled(After(c, run), a) && After(c, run).closed
    ensures IsRun(c, run + [a]) && After(c, run + [a]).closed
    ensures Accepted(c, run + [a]) == Accepted(c, run) && After(c, run + [a]).dropped == After(c, run).dropped
    ensures After(c, run).control.Stopped? ==> After(c, run + [a]) == After(c, run) && After(c, run).queue == []
  {
    hide IsRun, After, Accepted, Flushed, FirstRows, InOrder;
    InvariantHolds(c, run);
    RunGrows(c, run, a);
    AcceptedGrows(c, run, a);
  }

  /**
   A record that cannot be inserted stops the table for good: no record accepted after it gets a row,
   unless its id had one before, and no run ends with a complete flush.
   */
  lemma RefusedBlocks(c: Config, run: seq<Action>, j: nat, i: nat)
    requires IsRun(c, run)
    requires j <= i < |Accepted(c, run)| && !Accepted(c, run)[j].insertable
    requires forall m :: 0 <= m < j ==> Accepted(c, run)[m].id != Accepted(c, run)[i].id
    ensures Accepted(c, run)[i].id !in After(c, run).table
    ensures After(c, run).control != Stopped(true)
  {
    hide IsRun, After, Accepted, Flushed, FirstRows, InOrder, ControlOk;
    InvariantHolds(c, run);
    var k: nat :| RowsUpTo(After(c, run), Accepted(c, run), Flushed(c, run), k);
    assert k <= j;
    FirstRowsById(Accepted(c, run)[..k], Accepted(c, run)[i].id);
  }

  // ----- Shutting down -----

  predicate IsConsumerStep(a: Action) {
    !a.Enqueue? && !a.Cancel?
  }

  /** How much the consumer still has to do until it stops, if no record comes and no insert fails. */
  function Left(s: State): nat {
    var batch := |s.batch|;
    match s.control
    case Stopped(_) => 0
    case Flushing(next, final) =>
      (if next <= batch then batch - next + 1 else 0) + if final then 0 else 2 * |s.queue| + 5
    case Draining => 2 * |s.queue| + batch + 2
    case Closing => 2 * |s.queue| + batch + 3
    case Selecting => 2 * |s.queue| + batch + if s.cancelled then 4 else 5
    case Received => 2 * |s.queue| + batch + 7
  }

  lemma CanGoOn(c: Config, s: State)
    requires s.closed && !s.control.Stopped? && ControlOk(c, s)
    requires s.control.Flushing? ==> s.control.next <= |s.batch|
    ensures exists a :: IsConsumerStep(a) && Enabled(s, a)
  {
    var a := if s.control.Draining? then (if s.queue == [] then EndDrain else DrainOne)
             else if s.control.next < |s.batch| then Insert(Applied) else EndFlush;
    assert IsConsumerStep(a) && Enabled(s, a);
  }

  lemma ComesCloser(c: Config, s: State, a: Action)
    requires s.closed && !s.control.Stopped? && ControlOk(c, s) && Enabled(s, a)
    ensures if IsConsumerStep(a) then Left(Step(c, s, a)) < Left(s) else Left(Step(c, s, a)) == Left(s)
  {
  }

  /** Closed but not stopped, the consumer can always go on, and each of its steps brings it closer to the end. */
  lemma ShutdownEnds(c: Config, run: seq<Action>)
    requires IsRun(c, run) && After(c, run).closed && !After(c, run).control.Stopped?
    ensures exists a :: IsConsumerStep(a) && Enabled(After(c, run), a)
    ensures forall a :: Enabled(After(c, run), a) ==>
              var left := Left(Step(c, After(c, run), a));
              if IsConsumerStep(a) then left < Left(After(c, run)) else left == Left(After(c, run))
  {
    InvariantHolds(c, run);
    hide After, Accepted, Flushed, FirstRows, InOrder, ControlOk, Step, Enabled, Left, IsConsumerStep;
    var s := After(c, run);
    CanGoOn(c, s);
    forall a | Enabled(s, a)
      ensures if IsConsumerStep(a) then Left(Step(c, s, a)) < Left(s) else Left(Step(c, s, a)) == Left(s)
    {
      ComesCloser(c, s, a);
    }
  }
}
