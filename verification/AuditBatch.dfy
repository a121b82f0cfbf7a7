/**
 How large the batch of the audit writer gets. While the writer is open, the batch stays within batchSize
 exactly until a record is taken while the failed flush of a full batch is still to be made good. When
 inserts fail, for whatever reason, records pile up without any bound.
 */
module AuditBatch {
  import opened AuditModel

  // ----- Flushes of a full batch that have failed -----

  /** An insert fails during the flush of a full batch. */
  ghost predicate FailsFull(c: Config, s: State, a: Action)
    requires Enabled(s, a)
  {
    && a.Insert? && |s.batch| >= c.batchSize
    && !(s.batch[s.control.next].insertable && a.outcome == Applied)
  }

  /** A flush of a full batch has failed, and none has succeeded since. */
  ghost predicate Pending(c: Config, run: seq<Action>)
    requires IsRun(c, run)
  {
    run != [] &&
    var init, a := run[..|run| - 1], run[|run| - 1];
    FailsFull(c, After(c, init), a) || (Pending(c, init) && !a.EndFlush?)
  }

  /** At some point the consumer has taken a record from the queue all the same. */
  ghost predicate TookWhilePending(c: Config, run: seq<Action>)
    requires IsRun(c, run)
  {
    run != [] &&
    var init, a := run[..|run| - 1], run[|run| - 1];
    TookWhilePending(c, init) || (Pending(c, init) && a.ChooseRecord?)
  }

  // ----- What these say about the batch -----

  ghost predicate PendingFits(c: Config, s: State, pending: bool) {
    && (pending ==> |s.batch| >= c.batchSize)
    && (s.control.Selecting? && |s.batch| >= c.batchSize ==> pending)
  }

  lemma PendingStillFits(c: Config, s: State, a: Action, pending: bool)
    requires c.batchSize > 0 && PendingFits(c, s, pending) && Enabled(s, a)
    ensures PendingFits(c, Step(c, s, a), FailsFull(c, s, a) || (pending && !a.EndFlush?))
  {
  }

  /** Between two turns of the loop the batch is full exactly when a failed flush of a full batch is pending. */
  lemma {:induction false} PendingIsFull(c: Config, run: seq<Action>)
    requires c.batchSize > 0 && IsRun(c, run)
    ensures PendingFits(c, After(c, run), Pending(c, run))
    decreases |run|
  {
    hide Enabled, Step, FailsFull;
    if run == [] {
      NothingPending(c);
    } else {
      PendingIsFull(c, run[..|run| - 1]);
      PendingStillFits(c, After(c, run[..|run| - 1]), run[|run| - 1], Pending(c, run[..|run| - 1]));
    }
  }

  lemma NothingPending(c: Config)
    requires c.batchSize > 0
    ensures PendingFits(c, After(c, []), Pending(c, []))
  {
  }

  ghost predicate BatchFits(c: Config, s: State) {
    |s.batch| + (if s.closed then |s.queue| else 0) <= c.batchSize + (if s.closed then c.capacity else 0)
  }

  lemma BatchStillFits(c: Config, s: State, a: Action, pending: bool)
    requires BatchFits(c, s) && PendingFits(c, s, pending) && ControlOk(c, s) && Enabled(s, a)
    requires !(pending && a.ChooseRecord?)
    ensures BatchFits(c, Step(c, s, a))
  {
  }

  /** As long as no record is taken while a failed flush is pending, the batch and what will be added to it fit. */
  lemma {:induction false} BatchIsBounded(c: Config, run: seq<Action>)
    requires c.batchSize > 0 && IsRun(c, run) && !TookWhilePending(c, run)
    ensures |After(c, run).batch| <= c.batchSize + if After(c, run).closed then c.capacity else 0
    ensures BatchFits(c, After(c, run))
    decreases |run|
  {
    hide Enabled, Step, Accepted, Flushed, ControlOk, Pending, PendingFits, InOrder, FirstRows;
    if run != [] {
      var init := run[..|run| - 1];
      BatchIsBounded(c, init);
      InvariantHolds(c, init);
      PendingIsFull(c, init);
      BatchStillFits(c, After(c, init), run[|run| - 1], Pending(c, init));
    }
  }

  /** The writer is open, and the batch holds more than batchSize records. */
  ghost predicate Overflows(c: Config, run: seq<Action>) {
    IsRun(c, run) && !After(c, run).closed && |After(c, run).batch| > c.batchSize
  }

  lemma TakingOverflows(c: Config, s: State, a: Action)
    requires ControlOk(c, s) && PendingFits(c, s, true) && Enabled(s, a) && a.ChooseRecord?
    ensures !Step(c, s, a).closed && |Step(c, s, a).batch| > c.batchSize
  {
  }

  /**
   Exactly when has the open writer never held more than batchSize records? When the consumer has taken no
   record while a failed flush of a full batch was pending.
   */
  lemma {:induction false} OverflowsExactly(c: Config, run: seq<Action>)
    requires c.batchSize > 0 && IsRun(c, run)
    ensures (exists n :: 0 <= n <= |run| && Overflows(c, run[..n])) <==> TookWhilePending(c, run)
    decreases |run|
  {
    hide Enabled, Step, Accepted, Flushed, ControlOk, Pending, PendingFits, InOrder, FirstRows, BatchFits;
    assert run[..|run|] == run;
    if !TookWhilePending(c, run) {
      BatchIsBounded(c, run);
    }
    if run != [] {
      var init, a := run[..|run| - 1], run[|run| - 1];
      OverflowsExactly(c, init);
      assert forall n :: 0 <= n <= |init| ==> init[..n] == run[..n];
      if Pending(c, init) && a.ChooseRecord? {
        InvariantHolds(c, init);
        PendingIsFull(c, init);
        TakingOverflows(c, After(c, init), a);
        assert Overflows(c, run[..|run|]);
      }
    }
  }

  // ----- No failures, no overflow -----

  /** No insert of this run has failed: every outcome is a success, and every record can be inserted. */
  ghost predicate NoFailures(c: Config, run: seq<Action>)
    requires IsRun(c, run)
  {
    && (forall a :: a in run && a.Insert? ==> a.outcome == Applied)
    && forall r :: r in Accepted(c, run) ==> r.insertable
  }

  lemma NoFailuresBefore(c: Config, run: seq<Action>)
    requires run != [] && IsRun(c, run) && NoFailures(c, run)
    ensures IsRun(c, run[..|run| - 1]) && NoFailures(c, run[..|run| - 1])
    ensures var a := run[|run| - 1]; a.Insert? ==> a.outcome == Applied
  {
    hide Enabled, Step, After;
    assert run[|run| - 1] in run;
  }

  lemma NextIsInsertable(c: Config, run: seq<Action>, a: Action)
    requires IsRun(c, run) && NoFailures(c, run) && a.Insert? && Enabled(After(c, run), a)
    ensures var s := After(c, run); s.batch[s.control.next].insertable
  {
    hide IsRun, After, Accepted, Flushed;
    InvariantHolds(c, run);
    BatchIsAccepted(After(c, run), Accepted(c, run), Flushed(c, run), After(c, run).control.next);
  }

  lemma {:induction false} NoFailuresNoOverflow(c: Config, run: seq<Action>)
    requires IsRun(c, run) && NoFailures(c, run)
    ensures !Pending(c, run) && !TookWhilePending(c, run)
    decreases |run|
  {
    hide Enabled, Step, Accepted, NoFailures;
    if run != [] {
      var init, a := run[..|run| - 1], run[|run| - 1];
      NoFailuresBefore(c, run);
      NoFailuresNoOverflow(c, init);
      if a.Insert? {
        NextIsInsertable(c, init, a);
      }
    }
  }

  // ----- Failures that go on -----

  /** One more record comes in, and a flush of a batch that is full with it gets as far as its first insert. */
  ghost function FailedRound(c: Config, s: State, record: Record, outcome: InsertOutcome): seq<Action> {
    var round := [Enqueue(record, false), ChooseRecord, CheckContext];
    if |s.batch| + 1 >= c.batchSize then round + [Insert(outcome)] else round
  }

  /** Nothing is queued, nobody has cancelled, and the batch holds these records; every insert had this outcome. */
  ghost predicate HasPiledUp(c: Config, run: seq<Action>, records: seq<Record>, outcome: InsertOutcome) {
    && (forall a :: a in run && a.Insert? ==> a.outcome == outcome)
    && IsRun(c, run) && var s := After(c, run);
    s.control == Selecting && s.queue == [] && s.batch == records && !s.closed && !s.cancelled
  }

  lemma GrowsInOneRound(c: Config, run: seq<Action>, records: seq<Record>, record: Record, outcome: InsertOutcome)
    requires c.capacity > 0 && HasPiledUp(c, run, records, outcome)
    requires outcome != Applied || !(records + [record])[0].insertable
    ensures HasPiledUp(c, run + FailedRound(c, After(c, run), record, outcome), records + [record], outcome)
  {
    hide IsRun, After;
    var run1 := run + [Enqueue(record, false)];
    RunGrows(c, run, Enqueue(record, false));
    RunGrows(c, run1, ChooseRecord);
    var run2 := run1 + [ChooseRecord];
    RunGrows(c, run2, CheckContext);
    var run3 := run2 + [CheckContext];
    assert run3 == run + [Enqueue(record, false), ChooseRecord, CheckContext];
    if |records| + 1 >= c.batchSize {
      RunGrows(c, run3, Insert(outcome));
      assert run3 + [Insert(outcome)] == run + FailedRound(c, After(c, run), record, outcome);
    }
  }

  /**
   Whatever records come in, all of them pile up in the batch, whatever batchSize is and however small the
   queue: it takes no more than that the inserts have an outcome other than success, or that they all
   succeed but the first record cannot be inserted.
   */
  lemma {:induction false} BatchIsUnbounded(c: Config, records: seq<Record>, outcome: InsertOutcome)
    returns (run: seq<Action>)
    requires c.capacity > 0
    requires records != [] ==> outcome != Applied || !records[0].insertable
    ensures IsRun(c, run) && After(c, run).batch == records && !After(c, run).closed
    ensures forall a :: a in run && a.Insert? ==> a.outcome == outcome
    ensures HasPiledUp(c, run, records, outcome)
    decreases |records|
  {
    if records == [] {
      run := [];
    } else {
      var init, last := records[..|records| - 1], records[|records| - 1];
      assert records == init + [last];
      run := BatchIsUnbounded(c, init, outcome);
      GrowsInOneRound(c, run, init, last, outcome);
      run := run + FailedRound(c, After(c, run), last, outcome);
    }
  }
}
