/**
 What a set of rules means, without any order of evaluation: a recursion over references. The
 theorems say that loading and the single pass compute this meaning, that reordering a rule file
 changes no result, and that failures never make a decision more severe.
 */
module RuleMeaning {
  import opened Results
  import opened RuleFiles
  import opened Decisions
  import opened RuleEngine

  type RuleSet = map<string, Rule>

  // ----- The recursive meaning -----

  function Deps(rule: Rule): seq<string> {
    if rule.Combiner? then rule.of else []
  }

  ghost predicate Dangling(g: RuleSet, rule: Rule) {
    exists ref :: ref in Deps(rule) && ref !in g
  }

  /** Every rule ranks above the rules it refers to. */
  ghost predicate Ranked(g: RuleSet, rank: map<string, nat>) {
    && (forall id :: id in g ==> id in rank && g[id].id == id)
    && forall id, ref :: id in g && ref in Deps(g[id]) && ref in g ==> rank[ref] < rank[id]
  }

  ghost predicate Stratified(g: RuleSet) {
    exists rank :: Ranked(g, rank)
  }

  /**
   The outcome of a rule. A combiner that refers to a rule outside the set fails; otherwise it looks
   only at which of its references match, and a failed reference does not match.
   */
  ghost function RankedMeaning(g: RuleSet, rank: map<string, nat>, leaf: LeafOutcomes, id: string): Outcome
    requires Ranked(g, rank) && id in g
    decreases rank[id]
  {
    match g[id]
    case Leaf(_, _) => leaf(id)
    case Combiner(_, op, of, _) =>
      if Dangling(g, g[id]) then Errored
      else if op == All then
        if forall ref | ref in of :: ref in Deps(g[id]) && RankedMeaning(g, rank, leaf, ref) == Matched
        then Matched else Unmatched
      else
        if exists ref | ref in of :: ref in Deps(g[id]) && RankedMeaning(g, rank, leaf, ref) == Matched
        then Matched else Unmatched
  }

  /** The ranks only show that the recursion ends. */
  lemma {:induction false} RanksDoNotMatter(g: RuleSet, rank: map<string, nat>, rank': map<string, nat>,
                                            leaf: LeafOutcomes, id: string)
    requires Ranked(g, rank) && Ranked(g, rank') && id in g
    ensures RankedMeaning(g, rank, leaf, id) == RankedMeaning(g, rank', leaf, id)
    decreases rank[id]
  {
    if g[id].Combiner? && !Dangling(g, g[id]) {
      forall ref | ref in g[id].of
        ensures RankedMeaning(g, rank, leaf, ref) == RankedMeaning(g, rank', leaf, ref)
      {
        assert ref in Deps(g[id]);
        RanksDoNotMatter(g, rank, rank', leaf, ref);
      }
    }
  }

  ghost function Meaning(g: RuleSet, leaf: LeafOutcomes, id: string): Outcome
    requires Stratified(g) && id in g
  {
    var rank :| Ranked(g, rank);
    RankedMeaning(g, rank, leaf, id)
  }

  /** The defining equation of the meaning. */
  lemma MeaningUnfolds(g: RuleSet, leaf: LeafOutcomes, id: string)
    requires Stratified(g) && id in g
    ensures g[id].id == id
    ensures g[id].Leaf? ==> Meaning(g, leaf, id) == leaf(id)
    ensures g[id].Combiner? ==> (Meaning(g, leaf, id) == Errored <==> Dangling(g, g[id]))
    ensures g[id].Combiner? && !Dangling(g, g[id]) ==>
              && (forall ref :: ref in g[id].of ==> ref in g)
              && (Meaning(g, leaf, id) == Matched <==>
                  if g[id].op == All then forall ref :: ref in g[id].of ==> Meaning(g, leaf, ref) == Matched
                  else exists ref :: ref in g[id].of && Meaning(g, leaf, ref) == Matched)
  {
  }

  // ----- The single pass computes the meaning -----

  ghost function RulesById(rules: seq<Rule>): (g: RuleSet)
    ensures forall id {:trigger g[id]} :: id in g ==> g[id].id == id && g[id] in rules
    ensures forall rule {:trigger rule in rules} :: rule in rules ==> rule.id in g
  {
    if rules == [] then map[] else
      var init, last := rules[..|rules| - 1], rules[|rules| - 1];
      assert rules == init + [last];
      RulesById(init)[last.id := last]
  }

  ghost predicate DistinctRules(rules: seq<Rule>) {
    forall i, j :: 0 <= i < j < |rules| ==> rules[i].id != rules[j].id
  }

  /** One of the rules before position i has this id. */
  ghost predicate ComesBefore(rules: seq<Rule>, id: string, i: nat) {
    exists j :: 0 <= j < i && j < |rules| && rules[j].id == id
  }

  /** A list of rules as loading produces it. */
  ghost predicate IsRuleList(rules: seq<Rule>) {
    && DistinctRules(rules)
    && forall i, ref :: 0 <= i < |rules| && ref in Deps(rules[i]) && ref in RulesById(rules) ==>
                          ComesBefore(rules, ref, i)
  }

  lemma RuleAt(rules: seq<Rule>, i: nat)
    requires DistinctRules(rules) && i < |rules|
    ensures rules[i].id in RulesById(rules) && RulesById(rules)[rules[i].id] == rules[i]
  {
  }

  ghost function PositionOf(rules: seq<Rule>, id: string): (i: nat)
    requires id in RulesById(rules)
    ensures i < |rules| && rules[i].id == id
  {
    assert RulesById(rules)[id] in rules;
    var i :| 0 <= i < |rules| && rules[i].id == id;
    i
  }

  /** The positions in the list are ranks, so the rules have a meaning. */
  lemma RuleListIsStratified(rules: seq<Rule>)
    requires IsRuleList(rules)
    ensures Stratified(RulesById(rules))
  {
    hide RulesById;
    var g := RulesById(rules);
    var rank: map<string, nat> := map id | id in g :: PositionOf(rules, id);
    forall id, ref | id in g && ref in Deps(g[id]) && ref in g ensures rank[ref] < rank[id] {
      RuleAt(rules, rank[id]);
      assert ComesBefore(rules, ref, rank[id]);
    }
    assert Ranked(g, rank);
  }

  /** The notes for those references that fail by their meaning. */
  ghost function FailureNotes(g: RuleSet, leaf: LeafOutcomes, of: seq<string>): seq<string>
    requires Stratified(g)
  {
    if of == [] then [] else
      var last := of[|of| - 1];
      FailureNotes(g, leaf, of[..|of| - 1]) +
      if last in g && Meaning(g, leaf, last) == Errored then [SkippedNote(last)] else []
  }

  /** The full result that a rule has to get, given by the meaning of the rules alone. */
  ghost function MeantResult(g: RuleSet, leaf: LeafOutcomes, id: string): RuleResult
    requires Stratified(g) && id in g
  {
    var rule := g[id];
    var detail := if rule.Combiner? then Join(FailureNotes(g, leaf, rule.of), "; ") else "";
    match Meaning(g, leaf, id)
    case Errored =>
      RuleResult(id, false, Allow, NoReason, Some(if rule.Combiner? then DependencyNotEvaluated else LeafFailed))
    case Unmatched =>
      RuleResult(id, false, Allow, if rule.Combiner? then Reason("", id, detail) else NoReason, None)
    case Matched =>
      RuleResult(id, true, rule.action.verdict, Reason(rule.action.code, id, detail), None)
  }

  lemma {:induction false} NotesAgree(g: RuleSet, leaf: LeafOutcomes, of: seq<string>, prior: map<string, RuleResult>)
    requires Stratified(g)
    requires forall ref :: ref in of ==> ref in g && ref in prior && prior[ref] == MeantResult(g, leaf, ref)
    ensures SkippedNotes(of, prior) == FailureNotes(g, leaf, of)
    decreases |of|
  {
    if of != [] {
      NotesAgree(g, leaf, of[..|of| - 1], prior);
      assert of[|of| - 1] in of;
    }
  }

  /** A combiner that sees the meant results of its references gives its own meant result. */
  lemma CombinerAgrees(g: RuleSet, leaf: LeafOutcomes, id: string, prior: map<string, RuleResult>)
    requires Stratified(g) && id in g && g[id].Combiner?
    requires forall ref :: ref in g[id].of ==>
               (ref in prior <==> ref in g) && (ref in prior ==> prior[ref] == MeantResult(g, leaf, ref))
    ensures FailOpen(g[id], CombinerResult(g[id], prior)) == MeantResult(g, leaf, id)
  {
    var rule := g[id];
    MeaningUnfolds(g, leaf, id);
    hide Meaning, Join, SkippedNotes, FailureNotes;
    if Dangling(g, rule) {
      var ref :| ref in Deps(rule) && ref !in g;
      assert ref in rule.of && ref !in prior;
    } else {
      forall ref | ref in rule.of
        ensures ref in g && (DependencyMatched(ref, prior) <==> Meaning(g, leaf, ref) == Matched)
      {
        assert ref in Deps(rule);
      }
      NotesAgree(g, leaf, rule.of, prior);
      assert CombinerMatches(rule.op, rule.of, prior) <==> Meaning(g, leaf, id) == Matched;
    }
  }

  lemma PassSplits(rules: seq<Rule>, leaf: LeafOutcomes)
    requires rules != []
    ensures var before := Pass(rules[..|rules| - 1], leaf);
            Pass(rules, leaf) == before + [ResultOf(rules[|rules| - 1], leaf, ResultsById(before))]
  {
  }

  lemma {:induction false} PassAt(rules: seq<Rule>, leaf: LeafOutcomes, i: nat)
    requires i < |rules|
    ensures Pass(rules, leaf)[i] == ResultOf(rules[i], leaf, ResultsById(Pass(rules[..i], leaf)))
    ensures Pass(rules, leaf)[..i] == Pass(rules[..i], leaf)
    decreases |rules|
  {
    hide Pass, ResultOf, ResultsById;
    PassSplits(rules, leaf);
    var init := rules[..|rules| - 1];
    if i < |init| {
      PassAt(init, leaf, i);
      assert init[..i] == rules[..i];
    }
  }

  /**
   Evaluating a loaded list of rules once, from left to right, gives every rule the result that the
   recursive meaning of the whole set demands.
   */
  lemma {:induction false} PassIsMeaning(rules: seq<Rule>, leaf: LeafOutcomes, i: nat)
    requires IsRuleList(rules) && i < |rules|
    ensures Stratified(RulesById(rules)) && rules[i].id in RulesById(rules)
    ensures Pass(rules, leaf)[i] == MeantResult(RulesById(rules), leaf, rules[i].id)
    decreases i, 1
  {
    hide Pass, ResultsById, RulesById, Meaning, CombinerResult, FailureNotes, Join;
    var g := RulesById(rules);
    RuleListIsStratified(rules);
    RuleAt(rules, i);
    PassAt(rules, leaf, i);
    MeaningUnfolds(g, leaf, rules[i].id);
    var prior := ResultsById(Pass(rules[..i], leaf));
    if rules[i].Combiner? {
      forall ref | ref in rules[i].of
        ensures ref in prior <==> ref in g
        ensures ref in prior ==> prior[ref] == MeantResult(g, leaf, ref)
      {
        PriorIsMeant(rules, leaf, i, ref);
      }
      CombinerAgrees(g, leaf, rules[i].id, prior);
    }
  }

  /** The map of results that the rule at position i sees: those of the rules before it. */
  lemma PriorHolds(rules: seq<Rule>, leaf: LeafOutcomes, i: nat, ref: string)
    requires i < |rules|
    ensures var prior := ResultsById(Pass(rules[..i], leaf));
            && (ref in prior <==> ComesBefore(rules, ref, i))
            && (ref in prior ==> exists k :: 0 <= k < i && rules[k].id == ref && prior[ref] == Pass(rules, leaf)[k])
  {
    hide Pass, ResultsById, ResultOf;
    PassAt(rules, leaf, i);
    var all := Pass(rules, leaf);
    var before := all[..i];
    assert before == Pass(rules[..i], leaf);
    var prior := ResultsById(before);
    if ComesBefore(rules, ref, i) {
      var j :| 0 <= j < i && rules[j].id == ref;
      assert before[j] in before && before[j] == all[j];
    }
    if ref in prior {
      var k :| 0 <= k < i && before[k] == prior[ref];
      assert before[k] == all[k];
    }
  }

  /** What a combiner at position i finds in the map of results. */
  lemma {:induction false} PriorIsMeant(rules: seq<Rule>, leaf: LeafOutcomes, i: nat, ref: string)
    requires IsRuleList(rules) && i < |rules| && ref in Deps(rules[i])
    ensures Stratified(RulesById(rules))
    ensures var prior := ResultsById(Pass(rules[..i], leaf));
            && (ref in prior <==> ref in RulesById(rules))
            && (ref in prior ==> prior[ref] == MeantResult(RulesById(rules), leaf, ref))
    decreases i, 0
  {
    RuleListIsStratified(rules);
    PriorHolds(rules, leaf, i, ref);
    hide Pass, ResultsById, RulesById, MeantResult;
    var prior := ResultsById(Pass(rules[..i], leaf));
    if ref in prior {
      var k :| 0 <= k < i && rules[k].id == ref && prior[ref] == Pass(rules, leaf)[k];
      PassIsMeaning(rules, leaf, k);
    }
  }
}
