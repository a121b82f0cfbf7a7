/**
 The one-pass evaluation: CombinerRule.EvaluateWithResults (internal/rules/combiner.go) and the loop
 of RuleEngine.Evaluate (internal/engine/engine.go). What a leaf rule finds is left open: it is a
 parameter that gives an outcome for every rule id.
 */
module RuleEngine {
  import opened Results
  import opened RuleFiles
  import opened Decisions

  datatype Outcome = Errored | Unmatched | Matched

  type LeafOutcomes = string -> Outcome

  // ----- Combiners -----

  function SkippedNote(ref: string): string {
    "skipped_dep=" + ref + " status=dependency_error"
  }

  /** strings.Join */
  function Join(parts: seq<string>, separator: string): string {
    if parts == [] then ""
    else if |parts| == 1 then parts[0]
    else parts[0] + separator + Join(parts[1..], separator)
  }

  /** Joining two lists puts the separator between them, unless one is empty. */
  lemma {:induction false} JoinSplits(xs: seq<string>, ys: seq<string>, separator: string)
    ensures Join([], separator) == "" && (|xs| == 1 ==> Join(xs, separator) == xs[0])
    ensures xs != [] && ys != [] ==>
              Join(xs + ys, separator) == Join(xs, separator) + separator + Join(ys, separator)
    decreases |xs|
  {
    if xs != [] && ys != [] {
      assert (xs + ys)[0] == xs[0] && (xs + ys)[1..] == xs[1..] + ys;
      JoinSplits(xs[1..], ys, separator);
    }
  }

  /** The references whose rule failed, in order. */
  function FailedRefs(of: seq<string>, prior: map<string, RuleResult>): seq<string> {
    if of == [] then [] else
      var last := of[|of| - 1];
      FailedRefs(of[..|of| - 1], prior) + if last in prior && prior[last].err.Some? then [last] else []
  }

  /** A note for every reference whose rule failed. */
  function SkippedNotes(of: seq<string>, prior: map<string, RuleResult>): seq<string> {
    if of == [] then [] else
      var last := of[|of| - 1];
      SkippedNotes(of[..|of| - 1], prior) +
      if last in prior && prior[last].err.Some? then [SkippedNote(last)] else []
  }

  /** There is one note for every failed reference, in order, and it names the reference. */
  lemma {:induction false} NotesNameFailed(of: seq<string>, prior: map<string, RuleResult>)
    ensures |SkippedNotes(of, prior)| == |FailedRefs(of, prior)|
    ensures forall i :: 0 <= i < |FailedRefs(of, prior)| ==>
              SkippedNotes(of, prior)[i] == "skipped_dep=" + FailedRefs(of, prior)[i] + " status=dependency_error"
    ensures forall ref :: ref in FailedRefs(of, prior) <==> ref in of && ref in prior && prior[ref].err.Some?
    decreases |of|
  {
    if of != [] {
      var init, last := of[..|of| - 1], of[|of| - 1];
      NotesNameFailed(init, prior);
      assert of == init + [last];
    }
  }

  predicate DependencyMatched(ref: string, prior: map<string, RuleResult>) {
    ref in prior && prior[ref].err.None? && prior[ref].matched
  }

  ghost predicate CombinerMatches(op: Op, of: seq<string>, prior: map<string, RuleResult>) {
    match op
    case All => forall ref :: ref in of ==> DependencyMatched(ref, prior)
    case Any => exists ref :: ref in of && DependencyMatched(ref, prior)
  }

  /** What a combiner makes of the results so far; a reference without a result is an error. */
  ghost function CombinerResult(rule: Rule, prior: map<string, RuleResult>): Result<RuleResult, EvalError>
    requires rule.Combiner?
  {
    var detail := Join(SkippedNotes(rule.of, prior), "; ");
    if exists ref :: ref in rule.of && ref !in prior then Err(DependencyNotEvaluated)
    else if CombinerMatches(rule.op, rule.of, prior) then
      Ok(RuleResult(rule.id, true, rule.action.verdict, Reason(rule.action.code, rule.id, detail), None))
    else Ok(RuleResult(rule.id, false, Allow, Reason("", rule.id, detail), None))
  }

  ghost function CountMatched(of: seq<string>, prior: map<string, RuleResult>): (n: nat)
    ensures n <= |of|
    ensures n == |of| <==> forall ref :: ref in of ==> DependencyMatched(ref, prior)
    ensures n > 0 <==> exists ref :: ref in of && DependencyMatched(ref, prior)
  {
    if of == [] then 0 else
      var init, last := of[..|of| - 1], of[|of| - 1];
      assert of == init + [last];
      CountMatched(init, prior) + if DependencyMatched(last, prior) then 1 else 0
  }

  lemma NoNotes(prior: map<string, RuleResult>, of: seq<string>)
    requires forall ref :: ref in of ==> !(ref in prior && prior[ref].err.Some?)
    ensures SkippedNotes(of, prior) == []
  {
  }

  lemma NextRef(of: seq<string>, prior: map<string, RuleResult>, i: nat)
    requires i < |of|
    ensures CountMatched(of[..i + 1], prior) ==
            CountMatched(of[..i], prior) + if DependencyMatched(of[i], prior) then 1 else 0
    ensures SkippedNotes(of[..i + 1], prior) ==
            SkippedNotes(of[..i], prior) + if of[i] in prior && prior[of[i]].err.Some? then [SkippedNote(of[i])] else []
  {
    assert of[..i + 1][..i] == of[..i];
  }

  /** EvaluateWithResults */
  method EvaluateWithResults(rule: Rule, prior: map<string, RuleResult>) returns (r: Result<RuleResult, EvalError>)
    requires rule.Combiner?
    ensures r == CombinerResult(rule, prior)
  {
    hide Join, SkippedNote, SkippedNotes, CountMatched;
    assert CountMatched(rule.of[..0], prior) == 0;
    assert SkippedNotes(rule.of[..0], prior) == [] by { NoNotes(prior, rule.of[..0]); }
    var matchedCount := 0;
    var skipped: seq<string> := [];
    for i := 0 to |rule.of|
      invariant forall j :: 0 <= j < i ==> rule.of[j] in prior
      invariant matchedCount == CountMatched(rule.of[..i], prior)
      invariant skipped == SkippedNotes(rule.of[..i], prior)
    {
      var ref := rule.of[i];
      NextRef(rule.of, prior, i);
      if ref !in prior {
        return Err(DependencyNotEvaluated);
      }
      if prior[ref].err.Some? {
        skipped := skipped + [SkippedNote(ref)];
        continue;
      }
      if prior[ref].matched {
        matchedCount := matchedCount + 1;
      }
    }
    assert rule.of[..|rule.of|] == rule.of;
    var matched := matchedCount == |rule.of|;
    if rule.op == Any {
      matched := matchedCount > 0;
    }
    var detail := Join(skipped, "; ");
    if !matched {
      return Ok(RuleResult(rule.id, false, Allow, Reason("", rule.id, detail), None));
    }
    return Ok(RuleResult(rule.id, true, rule.action.verdict, Reason(rule.action.code, rule.id, detail), None));
  }

  // ----- One pass over the rules -----

  /** What the three kinds of leaf rule return. */
  function EvaluateLeaf(rule: Rule, outcome: Outcome): Result<RuleResult, EvalError>
    requires rule.Leaf?
  {
    match outcome
    case Errored => Err(LeafFailed)
    case Unmatched => Ok(RuleResult(rule.id, false, Allow, NoReason, None))
    case Matched => Ok(RuleResult(rule.id, true, rule.action.verdict, Reason(rule.action.code, rule.id, ""), None))
  }

  /** An error counts as no match: the engine fails open. */
  function FailOpen(rule: Rule, r: Result<RuleResult, EvalError>): RuleResult {
    match r
    case Ok(result) => result
    case Err(e) => RuleResult(rule.id, false, Allow, NoReason, Some(e))
  }

  ghost function ResultOf(rule: Rule, leaf: LeafOutcomes, prior: map<string, RuleResult>): (r: RuleResult)
    ensures r.ruleId == rule.id
  {
    FailOpen(rule, if rule.Combiner? then CombinerResult(rule, prior) else EvaluateLeaf(rule, leaf(rule.id)))
  }

  /** The results of a pass: every rule sees the results of the rules before it. */
  ghost function Pass(rules: seq<Rule>, leaf: LeafOutcomes): (results: seq<RuleResult>)
    ensures |results| == |rules|
    ensures forall i :: 0 <= i < |rules| ==> results[i].ruleId == rules[i].id
  {
    if rules == [] then [] else
      var init := rules[..|rules| - 1];
      var before := Pass(init, leaf);
      assert forall i :: 0 <= i < |init| ==> init[i] == rules[i];
      before + [ResultOf(rules[|rules| - 1], leaf, ResultsById(before))]
  }

  /** byID of Evaluate. */
  ghost function ResultsById(results: seq<RuleResult>): (m: map<string, RuleResult>)
    ensures forall id {:trigger m[id]} :: id in m ==> m[id] in results && m[id].ruleId == id
    ensures forall r {:trigger r in results} :: r in results ==> r.ruleId in m
  {
    if results == [] then map[] else
      var init, last := results[..|results| - 1], results[|results| - 1];
      assert results == init + [last];
      ResultsById(init)[last.ruleId := last]
  }

  lemma PassNext(rules: seq<Rule>, leaf: LeafOutcomes, i: nat)
    requires i < |rules|
    ensures var before := Pass(rules[..i], leaf);
            Pass(rules[..i + 1], leaf) == before + [ResultOf(rules[i], leaf, ResultsById(before))]
  {
    hide ResultOf, ResultsById;
    assert rules[..i + 1][..i] == rules[..i];
  }

  lemma NoResultsYet(leaf: LeafOutcomes)
    ensures Pass([], leaf) == [] && ResultsById([]) == map[]
  {
  }

  lemma ResultsByIdNext(results: seq<RuleResult>, result: RuleResult)
    ensures ResultsById(results + [result]) == ResultsById(results)[result.ruleId := result]
  {
  }

  class Engine {
    const rules: seq<Rule>

    constructor (rules: seq<Rule>)
      ensures this.rules == rules
    {
      this.rules := rules;
    }

    /** Evaluate, in a context that is not cancelled. */
    method Evaluate(leaf: LeafOutcomes) returns (response: Response)
      ensures IsResponseOf(Pass(rules, leaf), response)
      ensures response.evaluated == seq(|rules|, i requires 0 <= i < |rules| => rules[i].id)
    {
      hide Pass, ResultsById, CombinerResult, EvaluateLeaf, FailOpen;
      var results: seq<RuleResult> := [];
      var byID: map<string, RuleResult> := map[];
      NoResultsYet(leaf);
      assert rules[..0] == [];
      for i := 0 to |rules|
        invariant results == Pass(rules[..i], leaf)
        invariant byID == ResultsById(results)
      {
        var rule := rules[i];
        PassNext(rules, leaf, i);
        var r;
        if rule.Combiner? {
          r := EvaluateWithResults(rule, byID);
        } else {
          r := EvaluateLeaf(rule, leaf(rule.id));
        }
        var result := FailOpen(rule, r);
        assert result == ResultOf(rule, leaf, byID);
        ResultsByIdNext(results, result);
        results := results + [result];
        byID := byID[rule.id := result];
      }
      assert rules[..|rules|] == rules;
      response := Combine(results);
    }
  }
}
