/**
 What a decision says about the rule file it was made with, in the words of the file alone: no order, no
 built rules, no pass. The outcomes of a file are the one solution of an equation for every enabled rule,
 and verdict and reasons follow from them.
 */
module FileDecisions {
  import opened Results
  import opened RuleFiles
  import opened RuleOrder
  import opened Loader
  import opened Decisions
  import opened RuleEngine
  import opened RuleMeaning
  import opened Snapshots

  type Outcomes = map<string, Outcome>

  predicate IsOn(raw: RawRule) {
    raw.enabled != Some(false)
  }

  ghost predicate HasMatched(m: Outcomes, id: string) {
    id in m && m[id] == Matched
  }

  /**
   The outcome of one rule, given those of its references. A combiner that refers to a disabled rule fails;
   otherwise "all" asks for every reference to match and "any" for one.
   */
  ghost function OutcomeIn(raw: RawRule, leaf: LeafOutcomes, m: Outcomes): Outcome {
    if !raw.kind.CombinerType? then leaf(raw.id)
    else if exists ref :: ref in raw.of && ref !in m then Errored
    else if raw.op == "all" then
      if forall ref :: ref in raw.of ==> HasMatched(m, ref) then Matched else Unmatched
    else
      if exists ref :: ref in raw.of && HasMatched(m, ref) then Matched else Unmatched
  }

  /** m gives every enabled rule of the file, and no other, the outcome that those of its references demand. */
  ghost predicate AreOutcomes(raws: seq<RawRule>, leaf: LeafOutcomes, m: Outcomes) {
    && (forall id :: id in m ==> exists raw :: raw in raws && IsOn(raw) && raw.id == id)
    && (forall raw :: raw in raws && IsOn(raw) ==> raw.id in m && m[raw.id] == OutcomeIn(raw, leaf, m))
  }

  // ----- The rules built say what the file says -----

  ghost predicate Speaks(raws: seq<RawRule>, g: RuleSet) {
    && (forall id :: id in g ==> exists raw :: raw in raws && IsOn(raw) && raw.id == id && Says(raw, g[id]))
    && (forall raw :: raw in raws && IsOn(raw) ==> raw.id in g && Says(raw, g[raw.id]))
  }

  lemma SnapshotSpeaks(raws: seq<RawRule>, leafBuilds: set<string>, rules: seq<Rule>)
    requires IsSnapshot(raws, leafBuilds, rules)
    ensures IsRuleList(rules) && Speaks(raws, RulesById(rules))
  {
    hide IsSnapshot, RulesById, Build, Says, IsRuleList, IsBuiltRule;
    SnapshotIsRuleList(raws, leafBuilds, rules);
    var g := RulesById(rules);
    forall id | id in g ensures exists raw :: raw in raws && IsOn(raw) && raw.id == id && Says(raw, g[id]) {
      BuiltSays(raws, leafBuilds, g[id]);
    }
    forall raw | raw in raws && IsOn(raw) ensures raw.id in g && Says(raw, g[raw.id]) {
      EnabledIsBuilt(raws, leafBuilds, rules, raw);
    }
  }

  lemma BuiltSays(raws: seq<RawRule>, leafBuilds: set<string>, rule: Rule)
    requires IsBuiltRule(raws, leafBuilds, rule)
    ensures exists raw :: raw in raws && IsOn(raw) && raw.id == rule.id && Says(raw, rule)
  {
    hide Build, Says;
    var raw :| raw in raws && RuleEnabled(raw) && Build(raw, leafBuilds) == Some(rule);
  }

  lemma EnabledIsBuilt(raws: seq<RawRule>, leafBuilds: set<string>, rules: seq<Rule>, raw: RawRule)
    requires IsRuleList(rules) && raw in raws && IsOn(raw) && Build(raw, leafBuilds).Some?
    requires forall rule :: rule in rules <==> IsBuiltRule(raws, leafBuilds, rule)
    ensures raw.id in RulesById(rules) && Says(raw, RulesById(rules)[raw.id])
  {
    hide RulesById, Build, Says, IsRuleList;
    var rule := Build(raw, leafBuilds).value;
    assert IsBuiltRule(raws, leafBuilds, rule);
    RuleOfId(rules, rule);
  }

  lemma RuleOfId(rules: seq<Rule>, rule: Rule)
    requires IsRuleList(rules) && rule in rules
    ensures rule.id in RulesById(rules) && RulesById(rules)[rule.id] == rule
  {
    var i :| 0 <= i < |rules| && rules[i] == rule;
    RuleAt(rules, i);
  }

  // ----- There is one solution -----

  lemma SaysTheSame(raw: RawRule, rule: Rule)
    requires Says(raw, rule)
    ensures raw.id == rule.id && (raw.kind.CombinerType? <==> rule.Combiner?)
    ensures rule.Combiner? ==> raw.of == rule.of == Deps(rule) && (raw.op == "all" <==> rule.op == All)
  {
  }

  lemma SameIds(raws: seq<RawRule>, g: RuleSet, leaf: LeafOutcomes, m: Outcomes, id: string)
    requires Speaks(raws, g) && AreOutcomes(raws, leaf, m)
    ensures id in m <==> id in g
  {
    hide Says, OutcomeIn;
  }

  lemma RawOf(raws: seq<RawRule>, g: RuleSet, leaf: LeafOutcomes, m: Outcomes, id: string) returns (raw: RawRule)
    requires Speaks(raws, g) && AreOutcomes(raws, leaf, m) && id in g
    ensures raw.id == id && Says(raw, g[id]) && id in m && m[id] == OutcomeIn(raw, leaf, m)
  {
    hide Says, OutcomeIn;
    raw :| raw in raws && IsOn(raw) && raw.id == id && Says(raw, g[id]);
  }

  /** The equation of one rule, in terms of the rule that was built for it. */
  lemma EquationOf(raws: seq<RawRule>, g: RuleSet, leaf: LeafOutcomes, m: Outcomes, id: string)
    requires Speaks(raws, g) && AreOutcomes(raws, leaf, m) && id in g
    ensures id in m && (g[id].Leaf? ==> m[id] == leaf(id))
    ensures g[id].Combiner? ==>
              m[id] == if Dangling(g, g[id]) then Errored
                       else if g[id].op == All then
                         if forall ref :: ref in g[id].of ==> HasMatched(m, ref) then Matched else Unmatched
                       else
                         if exists ref :: ref in g[id].of && HasMatched(m, ref) then Matched else Unmatched
  {
    hide HasMatched, Says, Speaks, AreOutcomes;
    forall id ensures id in m <==> id in g {
      SameIds(raws, g, leaf, m, id);
    }
    var raw := RawOf(raws, g, leaf, m, id);
    SaysTheSame(raw, g[id]);
  }

  lemma {:induction false} SolutionIsMeaning(raws: seq<RawRule>, g: RuleSet, rank: map<string, nat>,
                                             leaf: LeafOutcomes, m: Outcomes, id: string)
    requires Ranked(g, rank) && Speaks(raws, g) && AreOutcomes(raws, leaf, m) && id in g
    ensures id in m && m[id] == RankedMeaning(g, rank, leaf, id)
    decreases rank[id]
  {
    hide Speaks, AreOutcomes;
    EquationOf(raws, g, leaf, m, id);
    if g[id].Combiner? && !Dangling(g, g[id]) {
      forall ref | ref in g[id].of
        ensures ref in m && m[ref] == RankedMeaning(g, rank, leaf, ref)
      {
        assert ref in Deps(g[id]);
        SolutionIsMeaning(raws, g, rank, leaf, m, ref);
      }
    }
  }

  lemma OutcomesAreMeanings(raws: seq<RawRule>, leafBuilds: set<string>, rules: seq<Rule>, leaf: LeafOutcomes,
                            m: Outcomes)
    requires IsSnapshot(raws, leafBuilds, rules) && AreOutcomes(raws, leaf, m)
    ensures Stratified(RulesById(rules)) && m.Keys == RulesById(rules).Keys
    ensures forall id :: id in m ==> m[id] == Meaning(RulesById(rules), leaf, id)
  {
    hide IsSnapshot, RulesById, IsRuleList;
    SnapshotSpeaks(raws, leafBuilds, rules);
    RuleListIsStratified(rules);
    var g := RulesById(rules);
    forall id ensures id in m <==> id in g {
      SameIds(raws, g, leaf, m, id);
    }
    forall id | id in m ensures m[id] == Meaning(g, leaf, id) {
      var rank :| Ranked(g, rank) && Meaning(g, leaf, id) == RankedMeaning(g, rank, leaf, id);
      SolutionIsMeaning(raws, g, rank, leaf, m, id);
    }
  }

  /** The equations of a file that loads have exactly one solution, for all outcomes of its leaf rules. */
  lemma OutcomesUnique(raws: seq<RawRule>, leafBuilds: set<string>, rules: seq<Rule>, leaf: LeafOutcomes)
    requires IsSnapshot(raws, leafBuilds, rules)
    ensures exists m :: AreOutcomes(raws, leaf, m)
    ensures forall m, m' :: AreOutcomes(raws, leaf, m) && AreOutcomes(raws, leaf, m') ==> m == m'
  {
    hide IsSnapshot, RulesById, IsRuleList, Meaning, AreOutcomes;
    SnapshotSpeaks(raws, leafBuilds, rules);
    RuleListIsStratified(rules);
    MeaningsAreOutcomes(raws, RulesById(rules), leaf);
    forall m, m' | AreOutcomes(raws, leaf, m) && AreOutcomes(raws, leaf, m') ensures m == m' {
      OutcomesAreMeanings(raws, leafBuilds, rules, leaf, m);
      OutcomesAreMeanings(raws, leafBuilds, rules, leaf, m');
      assert m.Keys == m'.Keys;
    }
  }

  lemma MeaningsAreOutcomes(raws: seq<RawRule>, g: RuleSet, leaf: LeafOutcomes)
    requires Stratified(g) && Speaks(raws, g)
    ensures exists m :: AreOutcomes(raws, leaf, m)
  {
    hide Meaning;
    var m: Outcomes := map id | id in g :: Meaning(g, leaf, id);
    forall id | id in m ensures exists raw :: raw in raws && IsOn(raw) && raw.id == id {
      MeaningUnfolds(g, leaf, id);
      var raw :| raw in raws && IsOn(raw) && Says(raw, g[id]);
    }
    forall raw | raw in raws && IsOn(raw) ensures raw.id in m && m[raw.id] == OutcomeIn(raw, leaf, m) {
      MeaningUnfolds(g, leaf, raw.id);
      if raw.kind.CombinerType? {
        assert Deps(g[raw.id]) == raw.of;
      }
    }
    assert AreOutcomes(raws, leaf, m);
  }

  // ----- Verdict and reasons -----

  /** A note for every reference that failed, in order. */
  function NotesIn(of: seq<string>, m: Outcomes): seq<string> {
    if of == [] then [] else
      var last := of[|of| - 1];
      NotesIn(of[..|of| - 1], m) +
      if last in m && m[last] == Errored then ["skipped_dep=" + last + " status=dependency_error"] else []
  }

  function DetailIn(raw: RawRule, m: Outcomes): string {
    if raw.kind.CombinerType? then Join(NotesIn(raw.of, m), "; ") else ""
  }

  lemma {:induction false} NotesAreMeant(g: RuleSet, leaf: LeafOutcomes, of: seq<string>, m: Outcomes)
    requires Stratified(g) && m.Keys == g.Keys && forall id :: id in m ==> m[id] == Meaning(g, leaf, id)
    ensures FailureNotes(g, leaf, of) == NotesIn(of, m)
    decreases |of|
  {
    if of != [] {
      NotesAreMeant(g, leaf, of[..|of| - 1], m);
    }
  }

  /** The result of a rule in terms of the raw rule that it was built from. */
  ghost predicate IsResultOf(r: RuleResult, raw: RawRule, m: Outcomes) {
    && r.ruleId == raw.id && (r.matched <==> HasMatched(m, raw.id))
    && (r.matched ==>
          && (r.verdict == Flag <==> raw.action.verdict == "flag")
          && (r.verdict == Block <==> raw.action.verdict == "block")
          && r.reason == Reason(raw.action.code, raw.id, DetailIn(raw, m)))
  }

  lemma ResultIsOf(raws: seq<RawRule>, leafBuilds: set<string>, rules: seq<Rule>, leaf: LeafOutcomes, m: Outcomes,
                   raw: RawRule, i: nat)
    requires IsSnapshot(raws, leafBuilds, rules) && AreOutcomes(raws, leaf, m)
    requires i < |rules| && raw in raws && IsOn(raw) && Says(raw, rules[i])
    ensures IsResultOf(Pass(rules, leaf)[i], raw, m)
  {
    hide IsSnapshot, RulesById, IsRuleList, Meaning, Pass, AreOutcomes, FailureNotes, NotesIn, Join;
    SnapshotSpeaks(raws, leafBuilds, rules);
    OutcomesAreMeanings(raws, leafBuilds, rules, leaf, m);
    PassIsMeaning(rules, leaf, i);
    RuleOfId(rules, rules[i]);
    NotesAreMeant(RulesById(rules), leaf, raw.of, m);
  }

  ghost predicate AreResultsOf(results: seq<RuleResult>, raws: seq<RawRule>, m: Outcomes) {
    && (forall r :: r in results ==> exists raw :: raw in raws && IsOn(raw) && IsResultOf(r, raw, m))
    && (forall raw :: raw in raws && IsOn(raw) ==> exists r :: r in results && IsResultOf(r, raw, m))
  }

  /** Every result is that of an enabled rule of the file, and every enabled rule has its result. */
  lemma ResultsAreOfFile(raws: seq<RawRule>, leafBuilds: set<string>, rules: seq<Rule>, leaf: LeafOutcomes, m: Outcomes)
    requires IsSnapshot(raws, leafBuilds, rules) && AreOutcomes(raws, leaf, m)
    ensures AreResultsOf(Pass(rules, leaf), raws, m)
  {
    hide IsSnapshot, Pass, AreOutcomes, IsResultOf;
    forall r | r in Pass(rules, leaf) ensures exists raw :: raw in raws && IsOn(raw) && IsResultOf(r, raw, m) {
      var i :| 0 <= i < |rules| && Pass(rules, leaf)[i] == r;
      ResultHasRaw(raws, leafBuilds, rules, leaf, m, i);
    }
    forall raw | raw in raws && IsOn(raw) ensures exists r :: r in Pass(rules, leaf) && IsResultOf(r, raw, m) {
      RawHasResult(raws, leafBuilds, rules, leaf, m, raw);
    }
  }

  lemma ResultHasRaw(raws: seq<RawRule>, leafBuilds: set<string>, rules: seq<Rule>, leaf: LeafOutcomes, m: Outcomes,
                     i: nat)
    requires IsSnapshot(raws, leafBuilds, rules) && AreOutcomes(raws, leaf, m) && i < |rules|
    ensures exists raw :: raw in raws && IsOn(raw) && IsResultOf(Pass(rules, leaf)[i], raw, m)
  {
    hide IsSnapshot, RulesById, IsRuleList, Pass, AreOutcomes, IsResultOf, Says;
    SnapshotSpeaks(raws, leafBuilds, rules);
    RuleOfId(rules, rules[i]);
    var raw :| raw in raws && IsOn(raw) && Says(raw, RulesById(rules)[rules[i].id]);
    ResultIsOf(raws, leafBuilds, rules, leaf, m, raw, i);
  }

  lemma RawHasResult(raws: seq<RawRule>, leafBuilds: set<string>, rules: seq<Rule>, leaf: LeafOutcomes, m: Outcomes,
                     raw: RawRule)
    requires IsSnapshot(raws, leafBuilds, rules) && AreOutcomes(raws, leaf, m) && raw in raws && IsOn(raw)
    ensures exists r :: r in Pass(rules, leaf) && IsResultOf(r, raw, m)
  {
    hide IsSnapshot, RulesById, IsRuleList, Pass, AreOutcomes, IsResultOf, Says;
    SnapshotSpeaks(raws, leafBuilds, rules);
    var rule := RulesById(rules)[raw.id];
    var i :| 0 <= i < |rules| && rules[i] == rule;
    ResultIsOf(raws, leafBuilds, rules, leaf, m, raw, i);
    assert Pass(rules, leaf)[i] in Pass(rules, leaf);
  }

  /** An enabled rule of the file has matched, and its verdict is v. */
  ghost predicate SomeMatched(raws: seq<RawRule>, m: Outcomes, v: string) {
    exists raw :: raw in raws && IsOn(raw) && HasMatched(m, raw.id) && raw.action.verdict == v
  }

  /** The reason of an enabled rule of the file that has matched. */
  ghost predicate IsReasonOf(raws: seq<RawRule>, m: Outcomes, reason: Reason) {
    exists raw :: raw in raws && IsOn(raw) && HasMatched(m, raw.id) && raw.action.code != ""
             && reason == Reason(raw.action.code, raw.id, DetailIn(raw, m))
  }

  lemma VerdictByFile(results: seq<RuleResult>, raws: seq<RawRule>, m: Outcomes)
    requires AreResultsOf(results, raws, m)
    ensures SomeMatched(raws, m, "block") <==> exists r :: r in results && r.matched && r.verdict == Block
    ensures SomeMatched(raws, m, "flag") <==> exists r :: r in results && r.matched && r.verdict == Flag
  {
    hide DetailIn, HasMatched;
  }

  lemma ReasonByFile(results: seq<RuleResult>, raws: seq<RawRule>, m: Outcomes, reason: Reason)
    requires AreResultsOf(results, raws, m)
    ensures IsReasonOf(raws, m, reason) <==>
            exists r :: r in results && r.matched && r.reason == reason && reason.code != ""
  {
    hide DetailIn, HasMatched;
  }

  /**
   The decision of a file: it blocks exactly if an enabled rule with verdict "block" has matched, it flags
   exactly if none has but one with verdict "flag", and its reasons are those of the rules that have matched.
   */
  lemma DecisionOfFile(raws: seq<RawRule>, leafBuilds: set<string>, rules: seq<Rule>, leaf: LeafOutcomes, m: Outcomes,
                       response: Response)
    requires IsSnapshot(raws, leafBuilds, rules) && AreOutcomes(raws, leaf, m)
    requires IsResponseOf(Pass(rules, leaf), response)
    ensures response.verdict == Block <==> SomeMatched(raws, m, "block")
    ensures response.verdict == Flag <==> SomeMatched(raws, m, "flag") && !SomeMatched(raws, m, "block")
    ensures forall reason :: reason in response.reasons <==> IsReasonOf(raws, m, reason)
  {
    hide IsSnapshot, Pass, AreOutcomes, AreResultsOf, ReasonsOf, SomeMatched, IsReasonOf, IsVerdictOf;
    ResultsAreOfFile(raws, leafBuilds, rules, leaf, m);
    VerdictExactly(Pass(rules, leaf), response);
    VerdictByFile(Pass(rules, leaf), raws, m);
    forall reason ensures reason in response.reasons <==> IsReasonOf(raws, m, reason) {
      ReasonIsOfResult(Pass(rules, leaf), reason);
      ReasonByFile(Pass(rules, leaf), raws, m, reason);
    }
  }
}
