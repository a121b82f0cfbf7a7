/**
 Which turns the loop of a sink takes, from the events around it alone: records arrive, the context is
 cancelled, and the select statement offers a turn. A turn for which nothing is ready does not happen.
 */
module Turns {
  datatype Signal = Arrives | Cancels | DoneTurn | RecordTurn | TickTurn | Silent

  /** The records waiting, and whether the context is cancelled, before the first event. */
  datatype Start = Start(capacity: nat, waiting: nat, cancelled: bool)

  ghost predicate IsCancelled(start: Start, signals: seq<Signal>) {
    start.cancelled || Cancels in signals
  }

  /** How many records wait, as long as the loop goes on. */
  ghost function Waiting(start: Start, signals: seq<Signal>): nat {
    if signals == [] then start.waiting else
      var n := Waiting(start, signals[..|signals| - 1]);
      match signals[|signals| - 1]
      case Arrives => if n < start.capacity then n + 1 else n
      case RecordTurn => if n > 0 then n - 1 else 0
      case _ => n
  }

  /** The turn offered last ends the loop: the context is found cancelled. */
  ghost predicate Ends(start: Start, before: seq<Signal>, signal: Signal) {
    IsCancelled(start, before) && (signal == DoneTurn || (signal == RecordTurn && Waiting(start, before) > 0))
  }

  ghost predicate HasEnded(start: Start, signals: seq<Signal>) {
    exists i :: 0 <= i < |signals| && Ends(start, signals[..i], signals[i])
  }

  /** The turn offered after these signals is taken. */
  ghost predicate IsTaken(start: Start, before: seq<Signal>, signal: Signal) {
    !HasEnded(start, before) &&
    match signal
    case DoneTurn => IsCancelled(start, before)
    case RecordTurn => Waiting(start, before) > 0
    case TickTurn => true
    case _ => false
  }

  /** The turns taken, in order. */
  ghost function Taken(start: Start, signals: seq<Signal>): seq<Signal> {
    if signals == [] then [] else
      var before, last := signals[..|signals| - 1], signals[|signals| - 1];
      Taken(start, before) + if IsTaken(start, before, last) then [last] else []
  }

  lemma NoSignals(start: Start)
    ensures Waiting(start, []) == start.waiting && Taken(start, []) == []
    ensures !HasEnded(start, []) && (IsCancelled(start, []) <==> start.cancelled)
  {
  }

  lemma NextSignal(start: Start, before: seq<Signal>, signal: Signal)
    ensures var n := Waiting(start, before);
            Waiting(start, before + [signal]) ==
            if signal == Arrives && n < start.capacity then n + 1
            else if signal == RecordTurn && n > 0 then n - 1 else n
    ensures IsCancelled(start, before + [signal]) <==> IsCancelled(start, before) || signal == Cancels
    ensures HasEnded(start, before + [signal]) <==> HasEnded(start, before) || Ends(start, before, signal)
    ensures Taken(start, before + [signal]) ==
            if IsTaken(start, before, signal) then Taken(start, before) + [signal] else Taken(start, before)
  {
    hide Ends, IsTaken;
    var signals := before + [signal];
    assert signals[..|before|] == before && signals[|before|] == signal;
    assert forall i :: 0 <= i < |before| ==> signals[..i] == before[..i] && signals[i] == before[i];
    if i :| 0 <= i < |before| && Ends(start, before[..i], before[i]) {
      assert Ends(start, signals[..i], signals[i]);
    }
    if Ends(start, before, signal) {
      assert Ends(start, signals[..|before|], signals[|before|]);
    }
  }

  /** The signals that events are to the loop. */
  ghost function SignalsOf<E>(signalOf: E -> Signal, events: seq<E>): (signals: seq<Signal>)
    ensures |signals| == |events| && forall i :: 0 <= i < |events| ==> signals[i] == signalOf(events[i])
  {
    seq(|events|, i requires 0 <= i < |events| => signalOf(events[i]))
  }

  lemma NoSignalsOf<E>(signalOf: E -> Signal, events: seq<E>)
    ensures SignalsOf(signalOf, events[..0]) == []
  {
  }

  lemma NextSignalOf<E>(signalOf: E -> Signal, events: seq<E>, i: nat)
    requires i < |events|
    ensures SignalsOf(signalOf, events[..i + 1]) == SignalsOf(signalOf, events[..i]) + [signalOf(events[i])]
  {
  }

  lemma CancelledBy<E>(signalOf: E -> Signal, start: Start, events: seq<E>)
    ensures IsCancelled(start, SignalsOf(signalOf, events)) <==>
            start.cancelled || exists i :: 0 <= i < |events| && signalOf(events[i]) == Cancels
  {
    if Cancels in SignalsOf(signalOf, events) {
      var i :| 0 <= i < |events| && SignalsOf(signalOf, events)[i] == Cancels;
      assert signalOf(events[i]) == Cancels;
    }
    if i :| 0 <= i < |events| && signalOf(events[i]) == Cancels {
      assert SignalsOf(signalOf, events)[i] == Cancels;
    }
  }

  /** What has ended stays ended, and no turn is taken any more. */
  lemma {:induction false} EndedForGood(start: Start, signals: seq<Signal>, more: seq<Signal>)
    requires HasEnded(start, signals)
    ensures HasEnded(start, signals + more) && Taken(start, signals + more) == Taken(start, signals)
    decreases |more|
  {
    hide Taken, HasEnded, Ends, Waiting;
    if more == [] {
      assert signals + more == signals;
    } else {
      var init, last := more[..|more| - 1], more[|more| - 1];
      EndedForGood(start, signals, init);
      NextSignal(start, signals + init, last);
      assert signals + more == signals + init + [last];
    }
  }

  /**
   The loop ends only when cancelled; then the next done turn ends it, and so does a record turn while a
   record waits.
   */
  lemma EndsWhenCancelled(start: Start, signals: seq<Signal>)
    ensures HasEnded(start, signals) ==> IsCancelled(start, signals)
    ensures IsCancelled(start, signals) ==> HasEnded(start, signals + [DoneTurn])
    ensures IsCancelled(start, signals) && Waiting(start, signals) > 0 ==> HasEnded(start, signals + [RecordTurn])
  {
    if i :| 0 <= i < |signals| && Ends(start, signals[..i], signals[i]) {
      assert IsCancelled(start, signals[..i]);
    }
    NextSignal(start, signals, DoneTurn);
    NextSignal(start, signals, RecordTurn);
  }

  ghost function CountOf(signals: seq<Signal>, signal: Signal): nat {
    if signals == [] then 0
    else CountOf(signals[..|signals| - 1], signal) + if signals[|signals| - 1] == signal then 1 else 0
  }

  lemma CountNothing(signal: Signal)
    ensures CountOf([], signal) == 0
  {
  }

  lemma CountNext(signals: seq<Signal>, last: Signal, signal: Signal)
    ensures CountOf(signals + [last], signal) == CountOf(signals, signal) + if last == signal then 1 else 0
  {
    assert (signals + [last])[..|signals|] == signals;
  }

  /**
   Before the end every record that arrives, if there is room for all, waits or has been taken by a record
   turn, one by each.
   */
  lemma {:induction false} ArrivalsAreTaken(start: Start, signals: seq<Signal>)
    requires !HasEnded(start, signals) && start.waiting + CountOf(signals, Arrives) <= start.capacity
    ensures Waiting(start, signals) + CountOf(Taken(start, signals), RecordTurn) ==
            start.waiting + CountOf(signals, Arrives)
    decreases |signals|
  {
    hide HasEnded, Waiting, Taken, CountOf;
    if signals == [] {
      NoSignals(start);
      CountNothing(Arrives);
      CountNothing(RecordTurn);
    } else {
      var before, last := signals[..|signals| - 1], signals[|signals| - 1];
      assert signals == before + [last];
      NextSignal(start, before, last);
      CountNext(before, last, Arrives);
      ArrivalsAreTaken(start, before);
      CountNext(Taken(start, before), last, RecordTurn);
    }
  }

  /** A record that arrives in an empty queue is taken by the next record turn. */
  lemma ArrivesAndIsTaken(capacity: nat)
    requires capacity > 0
    ensures Taken(Start(capacity, 0, false), [Arrives, RecordTurn]) == [RecordTurn]
  {
    var start := Start(capacity, 0, false);
    NoSignals(start);
    NextSignal(start, [], Arrives);
    NextSignal(start, [Arrives], RecordTurn);
    assert [] + [Arrives] == [Arrives] && [Arrives] + [RecordTurn] == [Arrives, RecordTurn];
    assert !HasEnded(start, [Arrives]);
  }
}
