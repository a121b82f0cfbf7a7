/** Sequences of steps that grow, as the sinks record them: what is appended within one turn, and what is collected. */
module Logs {
  /** run goes on from run0 with steps of one turn. */
  ghost predicate GoesOn<A>(inTurn: A -> bool, run0: seq<A>, run: seq<A>) {
    && run0 <= run
    && forall j :: |run0| <= j < |run| ==> inTurn(run[j])
  }

  lemma StandsStill<A>(inTurn: A -> bool, run: seq<A>)
    ensures GoesOn(inTurn, run, run)
  {
  }

  lemma GoesOneStep<A>(inTurn: A -> bool, run0: seq<A>, run: seq<A>, a: A)
    requires GoesOn(inTurn, run0, run) && inTurn(a)
    ensures GoesOn(inTurn, run0, run + [a])
  {
  }

  lemma GoesFurther<A>(inTurn: A -> bool, run0: seq<A>, run1: seq<A>, run2: seq<A>)
    requires GoesOn(inTurn, run0, run1) && GoesOn(inTurn, run1, run2)
    ensures GoesOn(inTurn, run0, run2)
  {
  }

  /** What f makes of the elements, one after the other. */
  ghost function Collected<X, Y>(f: X -> seq<Y>, xs: seq<X>): seq<Y> {
    if xs == [] then [] else Collected(f, xs[..|xs| - 1]) + f(xs[|xs| - 1])
  }

  lemma CollectedNothing<X, Y>(f: X -> seq<Y>, xs: seq<X>)
    ensures Collected(f, xs[..0]) == []
  {
  }

  lemma CollectedNext<X, Y>(f: X -> seq<Y>, xs: seq<X>, x: X)
    ensures Collected(f, xs + [x]) == Collected(f, xs) + f(x)
  {
    assert (xs + [x])[..|xs|] == xs;
  }

  lemma CollectedUpTo<X, Y>(f: X -> seq<Y>, xs: seq<X>, i: nat)
    requires i < |xs|
    ensures Collected(f, xs[..i + 1]) == Collected(f, xs[..i]) + f(xs[i])
  {
    CollectedNext(f, xs[..i], xs[i]);
    assert xs[..i + 1] == xs[..i] + [xs[i]];
  }

  lemma Associates<X>(xs: seq<X>, ys: seq<X>, zs: seq<X>)
    ensures xs + (ys + zs) == xs + ys + zs
  {
  }

  /** A turn whose steps give nothing adds nothing. */
  lemma {:induction false} TurnCollectsNothing<A, Y>(f: A -> seq<Y>, inTurn: A -> bool, run0: seq<A>, run: seq<A>)
    requires GoesOn(inTurn, run0, run)
    requires forall a :: a in run && inTurn(a) ==> f(a) == []
    ensures Collected(f, run) == Collected(f, run0)
    decreases |run|
  {
    if |run| > |run0| {
      TurnCollectsNothing(f, inTurn, run0, run[..|run| - 1]);
      assert run[|run| - 1] in run;
    } else {
      assert run == run0;
    }
  }
}
