/**
 What can still become of accepted records. A run of the audit writer that has not stopped can be
 extended, without further records, to one that ends with a complete flush exactly if every accepted
 record can be inserted; and one accepted record can still get its row exactly if no record before it
 stands in the way.
 */
module AuditCompletion {
  import opened AuditModel

  /** run' goes on from run and no producer calls. */
  ghost predicate Extends(c: Config, run: seq<Action>, run': seq<Action>) {
    && IsRun(c, run) && IsRun(c, run') && run <= run'
    && forall j :: |run| <= j < |run'| ==> !run'[j].Enqueue?
  }

  lemma ExtendsOneStep(c: Config, run: seq<Action>, a: Action, run': seq<Action>)
    requires IsRun(c, run) && Extends(c, run + [a], run') && !a.Enqueue?
    ensures Extends(c, run, run')
  {
    hide IsRun;
    assert run + [a] <= run' && run'[|run|] == a;
    assert run'[..|run|] == (run + [a])[..|run|] == run;
  }

  lemma {:induction false} AcceptedStays(c: Config, run: seq<Action>, run': seq<Action>)
    requires Extends(c, run, run')
    ensures Accepted(c, run') == Accepted(c, run)
    decreases |run'|
  {
    if |run'| > |run| {
      AcceptedStays(c, run, run'[..|run'| - 1]);
      assert AcceptedBy(c, After(c, run'[..|run'| - 1]), run'[|run'| - 1]) == [];
    } else {
      assert run' == run;
    }
  }

  // ----- Going on -----

  /** What the environment and the consumer do to stop soon. */
  function NextStep(s: State): (a: Action)
    ensures !a.Enqueue?
  {
    match s.control
    case Selecting => if s.cancelled then ChooseDone else Cancel
    case Received => CheckContext
    case Flushing(next, _) => if next < |s.batch| then Insert(Applied) else EndFlush
    case Closing => Close
    case Draining => if s.queue == [] then EndDrain else DrainOne
    case Stopped(_) => Cancel
  }

  /** The record to be inserted next, if any, can be. */
  ghost predicate NextIsInsertable(s: State) {
    s.control.Flushing? && s.control.next < |s.batch| ==> s.batch[s.control.next].insertable
  }

  lemma NextStepComesCloser(c: Config, s: State)
    requires !s.control.Stopped? && ControlOk(c, s) && NextIsInsertable(s)
    requires s.control.Flushing? ==> s.control.next <= |s.batch|
    ensures Enabled(s, NextStep(s))
    ensures var s' := Step(c, s, NextStep(s)); Left(s') < Left(s) && s'.control != Stopped(false)
  {
  }

  /** The records accepted first, of which the table has k, include the one to be inserted next. */
  lemma FirstAreInsertable(s: State, accepted: seq<Record>, flushed: seq<Record>, k: nat, m: nat)
    requires InOrder(s, accepted, flushed) && RowsUpTo(s, accepted, flushed, k)
    requires m <= |accepted| && forall j :: 0 <= j < m ==> accepted[j].insertable
    requires k < m || m == |accepted|
    ensures NextIsInsertable(s)
  {
    hide FirstRows;
    if s.control.Flushing? && s.control.next < |s.batch| {
      BatchIsAccepted(s, accepted, flushed, s.control.next);
    }
  }

  /** The table has the rows of at least the first m accepted records. */
  ghost predicate HasRows(c: Config, run: seq<Action>, m: nat)
    requires IsRun(c, run)
  {
    exists k: nat :: m <= k && RowsUpTo(After(c, run), Accepted(c, run), Flushed(c, run), k)
  }

  /** While the first m records can be inserted, the writer can go on until they have been. */
  lemma {:induction false} RunOn(c: Config, run: seq<Action>, m: nat) returns (run': seq<Action>)
    requires IsRun(c, run) && After(c, run).control != Stopped(false)
    requires m <= |Accepted(c, run)| && forall j :: 0 <= j < m ==> Accepted(c, run)[j].insertable
    ensures Extends(c, run, run') && HasRows(c, run', m)
    ensures m == |Accepted(c, run)| ==> After(c, run').control == Stopped(true)
    decreases Left(After(c, run))
  {
    hide IsRun, After, Accepted, Flushed, FirstRows, InOrder, ControlOk, Step, Enabled, Left, NextIsInsertable, Extends;
    var s, accepted := After(c, run), Accepted(c, run);
    InvariantHolds(c, run);
    var k: nat :| RowsUpTo(s, accepted, Flushed(c, run), k);
    if s.control == Stopped(true) || (m <= k && m < |accepted|) {
      ExtendsItself(c, run);
      run' := run;
    } else {
      FirstAreInsertable(s, accepted, Flushed(c, run), k, m);
      NextStepComesCloser(c, s);
      var a := NextStep(s);
      RunGrows(c, run, a);
      AcceptedGrows(c, run, a);
      assert Accepted(c, run + [a]) == accepted;
      run' := RunOn(c, run + [a], m);
      ExtendsOneStep(c, run, a, run');
    }
  }

  lemma ExtendsItself(c: Config, run: seq<Action>)
    requires IsRun(c, run)
    ensures Extends(c, run, run)
  {
  }

  // ----- Exactly when -----

  /** A run that has not stopped can still end with a complete flush, if and only if all it accepted can be inserted. */
  lemma CompletesExactly(c: Config, run: seq<Action>)
    requires IsRun(c, run) && !After(c, run).control.Stopped?
    ensures (exists run' :: Extends(c, run, run') && After(c, run').control == Stopped(true))
            <==> forall r :: r in Accepted(c, run) ==> r.insertable
  {
    hide After, Accepted, IsRun;
    if run' :| Extends(c, run, run') && After(c, run').control == Stopped(true) {
      CompleteStop(c, run');
      AcceptedStays(c, run, run');
    }
    if forall r :: r in Accepted(c, run) ==> r.insertable {
      var run' := RunOn(c, run, |Accepted(c, run)|);
    }
  }

  lemma FirstRowsHas(records: seq<Record>, k: nat, f: nat)
    requires f < |records| && k <= |records|
    requires forall j :: 0 <= j < f ==> records[j].id != records[f].id
    ensures records[f].id in FirstRows(records[..k]) <==> f < k
  {
    FirstRowsById(records[..k], records[f].id);
    if f < k {
      assert records[..k][f] == records[f];
    }
  }

  /**
   The first record with its id, at place f among the accepted ones, can still get its row, if and only if
   it and every record accepted before it can be inserted.
   */
  lemma GetsRowExactly(c: Config, run: seq<Action>, f: nat)
    requires IsRun(c, run) && !After(c, run).control.Stopped? && f < |Accepted(c, run)|
    requires forall j :: 0 <= j < f ==> Accepted(c, run)[j].id != Accepted(c, run)[f].id
    ensures (exists run' :: Extends(c, run, run') && Accepted(c, run)[f].id in After(c, run').table)
            <==> forall j :: 0 <= j <= f ==> Accepted(c, run)[j].insertable
  {
    hide After, Accepted, Flushed, IsRun, FirstRows, InOrder, ControlOk;
    var accepted := Accepted(c, run);
    if run' :| Extends(c, run, run') && accepted[f].id in After(c, run').table {
      AcceptedStays(c, run, run');
      InvariantHolds(c, run');
      var k: nat :| RowsUpTo(After(c, run'), accepted, Flushed(c, run'), k);
      FirstRowsHas(accepted, k, f);
    }
    if forall j :: 0 <= j <= f ==> accepted[j].insertable {
      var run' := RunOn(c, run, f + 1);
      AcceptedStays(c, run, run');
      var k: nat :| f + 1 <= k && RowsUpTo(After(c, run'), accepted, Flushed(c, run'), k);
      FirstRowsHas(accepted, k, f);
      assert Extends(c, run, run') && accepted[f].id in After(c, run').table;
    }
  }

  // ----- A run in which a refused record costs the one behind it -----

  ghost function RefusedRun(bad: Record, good: Record): (run: seq<Action>)
    ensures |run| == 9
  {
    [ Enqueue(bad, false), Enqueue(good, false), Cancel, ChooseDone, Close,
      DrainOne, DrainOne, EndDrain, Insert(Applied) ]
  }

  ghost function RefusedState(bad: Record, good: Record, n: nat): State {
    var queue :=
      if n == 0 then [] else if n == 1 then [bad] else if n <= 5 then [bad, good]
      else if n == 6 then [good] else [];
    var batch := if n <= 5 then [] else if n == 6 then [bad] else [bad, good];
    var control :=
      if n <= 3 then Selecting else if n == 4 then Closing else if n <= 7 then Draining
      else if n == 8 then Flushing(0, true) else Stopped(false);
    State(queue, n >= 5, 0, batch, map[], control, n >= 3)
  }

  lemma RefusedStep(c: Config, bad: Record, good: Record, n: nat)
    requires c.capacity >= 2 && !bad.insertable && n < 9
    ensures var s, a := RefusedState(bad, good, n), RefusedRun(bad, good)[n];
            && Enabled(s, a) && Step(c, s, a) == RefusedState(bad, good, n + 1)
            && AcceptedBy(c, s, a) == if n == 0 then [bad] else if n == 1 then [good] else []
  {
  }

  ghost predicate RefusedSoFar(c: Config, run: seq<Action>, bad: Record, good: Record, n: nat) {
    && IsRun(c, run) && After(c, run) == RefusedState(bad, good, n)
    && Accepted(c, run) == if n == 0 then [] else if n == 1 then [bad] else [bad, good]
  }

  lemma RefusedStart(c: Config, bad: Record, good: Record)
    ensures RefusedSoFar(c, [], bad, good, 0)
  {
  }

  lemma RefusedNext(c: Config, run: seq<Action>, bad: Record, good: Record, n: nat)
    requires c.capacity >= 2 && !bad.insertable && n < 9 && RefusedSoFar(c, run, bad, good, n)
    ensures RefusedSoFar(c, run + [RefusedRun(bad, good)[n]], bad, good, n + 1)
  {
    var s, a := RefusedState(bad, good, n), RefusedRun(bad, good)[n];
    RefusedStep(c, bad, good, n);
    hide IsRun, After, Accepted, RefusedState, RefusedRun, Step, Enabled, AcceptedBy;
    RunGrows(c, run, a);
    AcceptedGrows(c, run, a);
  }

  lemma {:induction false} RefusedPrefix(c: Config, bad: Record, good: Record, n: nat)
    requires c.capacity >= 2 && !bad.insertable && n <= 9
    ensures RefusedSoFar(c, RefusedRun(bad, good)[..n], bad, good, n)
    decreases n
  {
    hide RefusedRun, RefusedSoFar;
    var full := RefusedRun(bad, good);
    if n == 0 {
      RefusedStart(c, bad, good);
      assert full[..0] == [];
    } else {
      RefusedPrefix(c, bad, good, n - 1);
      RefusedNext(c, full[..n - 1], bad, good, n - 1);
      assert full[..n] == full[..n - 1] + [full[n - 1]];
    }
  }

  /**
   One record that the table refuses, and one that it would take: at shutdown the flush stops at the first,
   and the second is lost although no insert failed that could have succeeded.
   */
  lemma RefusedRecordCostsTheNext(c: Config, bad: Record, good: Record)
    requires c.capacity >= 2 && !bad.insertable && good.insertable && bad.id != good.id
    ensures var run := RefusedRun(bad, good);
            && IsRun(c, run) && Accepted(c, run) == [bad, good]
            && After(c, run).control == Stopped(false) && After(c, run).table == map[]
    ensures forall a :: a in RefusedRun(bad, good) && a.Insert? ==> a.outcome == Applied
  {
    RefusedPrefix(c, bad, good, 9);
    hide IsRun, After, Accepted;
    assert RefusedRun(bad, good)[..9] == RefusedRun(bad, good);
  }
}
