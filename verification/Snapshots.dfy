/**
 Theorems about loaded rule files: what their evaluation depends on and what it does not.
 */
module Snapshots {
  import opened Results
  import opened RuleFiles
  import opened RuleOrder
  import opened Loader
  import opened Decisions
  import opened RuleEngine
  import opened RuleMeaning

  // ----- A snapshot holds the enabled rules, dependencies first -----

  /** Distinct rules, each after those of its references that are in the list. */
  ghost predicate OrderedAmongThemselves(raws: seq<RawRule>) {
    && Distinct(Ids(raws))
    && forall i, ref :: 0 <= i < |raws| && ref in Refs(raws[i]) && ref in Ids(raws) ==> ref in Ids(raws[..i])
  }

  lemma {:induction false} EnabledKeepsOrder(ordered: seq<RawRule>)
    requires DependencyOrdered(ordered) && Distinct(Ids(ordered))
    ensures OrderedAmongThemselves(EnabledOnly(ordered))
    decreases |ordered|
  {
    if ordered != [] {
      var init, last := ordered[..|ordered| - 1], ordered[|ordered| - 1];
      DropLast(ordered);
      EnabledKeepsOrder(init);
      hide DependencyOrdered, EnabledOnly;
      if RuleEnabled(last) {
        AppendKeepsOrder(EnabledOnly(init), last, Ids(init));
      } else {
        assert EnabledOnly(ordered) == EnabledOnly(init);
      }
    }
  }

  lemma DropLast(ordered: seq<RawRule>)
    requires ordered != [] && DependencyOrdered(ordered) && Distinct(Ids(ordered))
    ensures var init, last := ordered[..|ordered| - 1], ordered[|ordered| - 1];
            && DependencyOrdered(init) && Distinct(Ids(init))
            && last.id !in Ids(init) && (forall ref :: ref in Refs(last) ==> ref in Ids(init))
            && (forall raw, ref :: raw in EnabledOnly(init) && ref in Refs(raw) ==> ref in Ids(init))
            && (forall raw :: raw in EnabledOnly(init) ==> raw.id in Ids(init))
            && EnabledOnly(ordered) == EnabledOnly(init) + if RuleEnabled(last) then [last] else []
  {
    var init := ordered[..|ordered| - 1];
    forall i | 0 <= i < |init| ensures init[..i] == ordered[..i] {
    }
    assert Ids(init) == Ids(ordered)[..|init|];
    forall raw | raw in EnabledOnly(init)
      ensures raw.id in Ids(init) && forall ref :: ref in Refs(raw) ==> ref in Ids(init)
    {
      var k :| 0 <= k < |init| && init[k] == raw;
      assert Ids(init)[k] == raw.id;
      forall ref | ref in Refs(raw) ensures ref in Ids(init) {
        assert ref in Ids(ordered[..k]);
        var j :| 0 <= j < k && Ids(ordered[..k])[j] == ref;
        assert Ids(init)[j] == ref;
      }
    }
  }

  lemma AppendKeepsOrder(enabled: seq<RawRule>, last: RawRule, placed: seq<string>)
    requires OrderedAmongThemselves(enabled)
    requires last.id !in placed && forall ref :: ref in Refs(last) ==> ref in placed
    requires forall raw :: raw in enabled ==> raw.id in placed && forall ref :: ref in Refs(raw) ==> ref in placed
    ensures OrderedAmongThemselves(enabled + [last])
  {
    var enabled' := enabled + [last];
    assert Ids(enabled') == Ids(enabled) + [last.id];
    forall id | id in Ids(enabled) ensures id != last.id {
      var k :| 0 <= k < |enabled| && enabled[k].id == id;
      assert enabled[k] in enabled;
    }
    forall i, ref | 0 <= i < |enabled'| && ref in Refs(enabled'[i]) && ref in Ids(enabled')
      ensures ref in Ids(enabled'[..i])
    {
      assert ref in placed && ref in Ids(enabled);
      assert enabled'[..i] == enabled[..i];
    }
  }

  /** The rules of a snapshot, as a set: the enabled rules of the file, built. */
  ghost predicate IsBuiltRule(raws: seq<RawRule>, leafBuilds: set<string>, rule: Rule) {
    exists raw :: raw in raws && RuleEnabled(raw) && Build(raw, leafBuilds) == Some(rule)
  }

  lemma BuildingKeepsOrder(enabled: seq<RawRule>, leafBuilds: set<string>, rules: seq<Rule>)
    requires OrderedAmongThemselves(enabled) && AllBuilt(enabled, leafBuilds, rules)
    ensures IsRuleList(rules)
  {
    hide RulesById, Build, Says, Buildable;
    forall i | 0 <= i < |rules|
      ensures rules[i].id == Ids(enabled)[i] && forall ref :: ref in Deps(rules[i]) ==> ref in Refs(enabled[i])
    {
      assert Build(enabled[i], leafBuilds) == Some(rules[i]);
    }
    forall i, ref | 0 <= i < |rules| && ref in Deps(rules[i]) && ref in RulesById(rules)
      ensures ComesBefore(rules, ref, i)
    {
      assert RulesById(rules)[ref] in rules;
      var k :| 0 <= k < |rules| && rules[k].id == ref;
      assert Ids(enabled)[k] == ref;
      assert ref in Ids(enabled);
      assert ref in Refs(enabled[i]) && ref in Ids(enabled[..i]);
      var j :| 0 <= j < i && Ids(enabled[..i])[j] == ref;
      assert rules[j].id == ref;
    }
  }

  lemma BuiltRulesAre(enabled: seq<RawRule>, leafBuilds: set<string>, rules: seq<Rule>, rule: Rule)
    requires AllBuilt(enabled, leafBuilds, rules)
    ensures rule in rules <==> exists raw :: raw in enabled && Build(raw, leafBuilds) == Some(rule)
  {
  }

  lemma SnapshotIsRuleList(raws: seq<RawRule>, leafBuilds: set<string>, rules: seq<Rule>)
    requires IsSnapshot(raws, leafBuilds, rules)
    ensures IsRuleList(rules)
    ensures forall rule :: rule in rules <==> IsBuiltRule(raws, leafBuilds, rule)
    ensures forall raw :: raw in raws && RuleEnabled(raw) ==> Build(raw, leafBuilds).Some?
  {
    hide ById, UnfoldedOrder, Build, OrderedAmongThemselves, IsRuleList;
    var ordered :| IsLoadOrder(raws, ordered) && BuiltFrom(ordered, leafBuilds, rules);
    var enabled := EnabledOnly(ordered);
    PermutedIds(raws, ordered);
    EnabledKeepsOrder(ordered);
    BuildingKeepsOrder(enabled, leafBuilds, rules);
    forall rule ensures rule in rules <==> IsBuiltRule(raws, leafBuilds, rule) {
      BuiltRulesAre(enabled, leafBuilds, rules, rule);
    }
    forall raw | raw in raws && RuleEnabled(raw) ensures Build(raw, leafBuilds).Some? {
      var i :| 0 <= i < |enabled| && enabled[i] == raw;
      assert Build(enabled[i], leafBuilds) == Some(rules[i]);
    }
  }

  lemma PermutedIds(raws: seq<RawRule>, ordered: seq<RawRule>)
    requires multiset(raws) == multiset(ordered) && Distinct(Ids(raws))
    ensures Distinct(Ids(ordered))
    ensures forall raw :: raw in raws <==> raw in ordered
  {
    assert forall raw :: raw in raws <==> raw in multiset(raws);
    assert forall raw :: raw in ordered <==> raw in multiset(ordered);
    DistinctIdsDistinctRules(raws);
    forall i, j | 0 <= i < j < |ordered| ensures Ids(ordered)[i] != Ids(ordered)[j] {
      if ordered[i].id == ordered[j].id {
        assert ordered[i] in raws && ordered[j] in raws;
        var k :| 0 <= k < |raws| && raws[k] == ordered[i];
        var m :| 0 <= m < |raws| && raws[m] == ordered[j];
        assert Ids(raws)[k] == Ids(raws)[m];
        DistinctCounts(raws, ordered[i]);
        TwiceCounts(ordered, i, j);
        assert false;
      }
    }
  }

  lemma TwiceCounts<T>(s: seq<T>, i: nat, j: nat)
    requires i < j < |s| && s[i] == s[j]
    ensures multiset(s)[s[i]] >= 2
  {
    assert s == s[..j] + [s[j]] + s[j + 1..];
    assert s[i] in s[..j];
    assert s[i] in multiset(s[..j]);
  }

  // ----- The order of the file does not matter -----

  /** Lists with the same rules make the same set. */
  lemma SameRulesSameSet(rules: seq<Rule>, rules': seq<Rule>)
    requires DistinctRules(rules) && DistinctRules(rules')
    requires forall rule :: rule in rules <==> rule in rules'
    ensures RulesById(rules) == RulesById(rules')
  {
  }

  lemma SameRulesSameResults(rules: seq<Rule>, rules': seq<Rule>, leaf: LeafOutcomes, r: RuleResult)
    requires IsRuleList(rules) && IsRuleList(rules')
    requires forall rule :: rule in rules <==> rule in rules'
    ensures r in Pass(rules, leaf) ==> r in Pass(rules', leaf)
  {
    SameRulesSameSet(rules, rules');
    hide Pass, RulesById, MeantResult;
    if r in Pass(rules, leaf) {
      var i :| 0 <= i < |rules| && Pass(rules, leaf)[i] == r;
      PassIsMeaning(rules, leaf, i);
      assert rules[i] in rules';
      var j :| 0 <= j < |rules'| && rules'[j] == rules[i];
      PassIsMeaning(rules', leaf, j);
      assert Pass(rules', leaf)[j] == r;
    }
  }

  /**
   Reordering the rules of a file changes no result of any rule and not the verdict, for all
   outcomes of the leaf rules.
   */
  lemma ReorderingChangesNothing(raws: seq<RawRule>, rules: seq<Rule>, response: Response,
                                 raws': seq<RawRule>, rules': seq<Rule>, response': Response,
                                 leafBuilds: set<string>, leaf: LeafOutcomes)
    requires multiset(raws) == multiset(raws')
    requires IsSnapshot(raws, leafBuilds, rules) && IsSnapshot(raws', leafBuilds, rules')
    requires IsResponseOf(Pass(rules, leaf), response) && IsResponseOf(Pass(rules', leaf), response')
    ensures forall r :: r in Pass(rules, leaf) <==> r in Pass(rules', leaf)
    ensures response.verdict == response'.verdict
  {
    SnapshotIsRuleList(raws, leafBuilds, rules);
    SnapshotIsRuleList(raws', leafBuilds, rules');
    hide IsRuleList, IsSnapshot, Pass;
    forall raw ensures raw in raws <==> raw in raws' {
      assert raw in raws <==> raw in multiset(raws);
      assert raw in raws' <==> raw in multiset(raws');
    }
    forall rule ensures IsBuiltRule(raws, leafBuilds, rule) <==> IsBuiltRule(raws', leafBuilds, rule) {
    }
    forall r ensures r in Pass(rules, leaf) <==> r in Pass(rules', leaf) {
      SameRulesSameResults(rules, rules', leaf, r);
      SameRulesSameResults(rules', rules, leaf, r);
    }
    VerdictOfSameMembers(Pass(rules, leaf), response.verdict, Pass(rules', leaf), response'.verdict);
  }

  lemma SameGraph(raws: seq<RawRule>, raws': seq<RawRule>)
    requires multiset(raws) == multiset(raws') && Distinct(Ids(raws))
    ensures ById(raws) == ById(raws')
  {
    hide ById;
    PermutedIds(raws, raws');
    ByIdOfDistinct(raws);
    ByIdOfDistinct(raws');
    forall id ensures id in ById(raws) <==> id in ById(raws') {
      if id in ById(raws) { assert ById(raws)[id] in raws'; }
      if id in ById(raws') { assert ById(raws')[id] in raws; }
    }
    forall id | id in ById(raws) ensures ById(raws)[id] == ById(raws')[id] {
      assert ById(raws)[id] in raws';
    }
  }

  lemma ReorderedStillLoads(file: RuleFile, rules: seq<RawRule>, leafBuilds: set<string>)
    requires multiset(file.rules) == multiset(rules)
    ensures Loadable(file, leafBuilds) ==> Loadable(file.(rules := rules), leafBuilds)
  {
    hide ById, Build, IsBlank, RefsKnown, HasCycle, Distinct;
    if Loadable(file, leafBuilds) {
      PermutedIds(file.rules, rules);
      SameGraph(file.rules, rules);
    }
  }

  /** Whether a file loads does not depend on the order of its rules. */
  lemma LoadingIgnoresOrder(file: RuleFile, rules: seq<RawRule>, leafBuilds: set<string>)
    requires multiset(file.rules) == multiset(rules)
    ensures Loadable(file, leafBuilds) <==> Loadable(file.(rules := rules), leafBuilds)
  {
    hide Loadable;
    ReorderedStillLoads(file, rules, leafBuilds);
    ReorderedStillLoads(file.(rules := rules), file.rules, leafBuilds);
    assert file.(rules := rules).(rules := file.rules) == file;
  }

  // ----- Which rules are evaluated, and when a combiner fails -----

  /** The response lists the enabled rules of the load order, each once. */
  lemma EvaluatedAreTheEnabled(raws: seq<RawRule>, leafBuilds: set<string>, rules: seq<Rule>,
                               leaf: LeafOutcomes, response: Response)
    requires IsSnapshot(raws, leafBuilds, rules) && IsResponseOf(Pass(rules, leaf), response)
    ensures exists ordered :: IsLoadOrder(raws, ordered) && response.evaluated == Ids(EnabledOnly(ordered))
    ensures Distinct(response.evaluated)
    ensures forall id :: id in response.evaluated <==> exists raw :: raw in raws && RuleEnabled(raw) && raw.id == id
  {
    hide UnfoldedOrder, Build, EnabledOnly, Pass, DependencyOrdered, ById, IsVerdictOf, ReasonsOf;
    var ordered :| IsLoadOrder(raws, ordered) && BuiltFrom(ordered, leafBuilds, rules);
    var enabled := EnabledOnly(ordered);
    PermutedIds(raws, ordered);
    EnabledKeepsOrder(ordered);
    forall i | 0 <= i < |rules| ensures rules[i].id == Ids(enabled)[i] {
      assert Build(enabled[i], leafBuilds) == Some(rules[i]);
    }
    assert response.evaluated == Ids(enabled);
    forall id ensures id in Ids(enabled) <==> exists raw :: raw in raws && RuleEnabled(raw) && raw.id == id {
      IdsOfEnabled(raws, enabled, id);
    }
  }

  lemma IdsOfEnabled(raws: seq<RawRule>, enabled: seq<RawRule>, id: string)
    requires forall raw :: raw in enabled <==> raw in raws && RuleEnabled(raw)
    ensures id in Ids(enabled) <==> exists raw :: raw in raws && RuleEnabled(raw) && raw.id == id
  {
  }

  /**
   A combiner fails for want of a dependency exactly when it refers directly to a disabled rule; the
   order of evaluation never makes it fail.
   */
  lemma FailsOnlyOnDisabled(raws: seq<RawRule>, leafBuilds: set<string>, rules: seq<Rule>, leaf: LeafOutcomes, i: nat)
    requires IsSnapshot(raws, leafBuilds, rules)
    requires i < |rules| && rules[i].Combiner?
    ensures Pass(rules, leaf)[i].err == Some(DependencyNotEvaluated) <==>
            exists raw :: raw in raws && raw.id in rules[i].of && !RuleEnabled(raw)
    ensures Pass(rules, leaf)[i].err in {None, Some(DependencyNotEvaluated)}
  {
    hide Pass, Meaning, RulesById, ById, Build, BuiltFrom, IsLoadOrder, FailureNotes, Join;
    SnapshotIsRuleList(raws, leafBuilds, rules);
    PassIsMeaning(rules, leaf, i);
    var g := RulesById(rules);
    RuleAt(rules, i);
    MeaningUnfolds(g, leaf, rules[i].id);
    hide IsRuleList;
    assert IsBuiltRule(raws, leafBuilds, rules[i]);
    forall ref | ref in rules[i].of
      ensures ref !in g <==> exists raw :: raw in raws && raw.id == ref && !RuleEnabled(raw)
    {
      OutsideIsDisabled(raws, leafBuilds, rules, rules[i], ref);
    }
    assert Dangling(g, rules[i]) <==> exists ref :: ref in rules[i].of && ref !in g by {
      assert Deps(rules[i]) == rules[i].of;
    }
  }

  /** A reference that is not in the snapshot is a disabled rule of the file. */
  lemma OutsideIsDisabled(raws: seq<RawRule>, leafBuilds: set<string>, rules: seq<Rule>, rule: Rule, ref: string)
    requires Distinct(Ids(raws)) && RefsKnown(ById(raws))
    requires forall rule :: rule in rules <==> IsBuiltRule(raws, leafBuilds, rule)
    requires forall raw :: raw in raws && RuleEnabled(raw) ==> Build(raw, leafBuilds).Some?
    requires rule in rules && rule.Combiner? && ref in rule.of
    ensures ref !in RulesById(rules) <==> exists raw :: raw in raws && raw.id == ref && !RuleEnabled(raw)
  {
    hide ById, RulesById, Build;
    ByIdOfDistinct(raws);
    var from :| from in raws && RuleEnabled(from) && Build(from, leafBuilds) == Some(rule);
    assert IsEdge(ById(raws), from.id, ref);
    var raw := ById(raws)[ref];
    if RuleEnabled(raw) {
      var built := Build(raw, leafBuilds).value;
      assert IsBuiltRule(raws, leafBuilds, built);
      assert built in rules;
    }
    if ref in RulesById(rules) {
      var raw' :| raw' in raws && RuleEnabled(raw') && Build(raw', leafBuilds) == Some(RulesById(rules)[ref]);
      assert raw'.id == ref;
    }
  }

  // ----- Failures never make a decision more severe -----

  /** leaf' is leaf with some outcomes turned into failures. */
  ghost predicate FailsMore(leaf': LeafOutcomes, leaf: LeafOutcomes) {
    forall id :: leaf'(id) == leaf(id) || leaf'(id) == Errored
  }

  lemma {:induction false} FewerMatches(g: RuleSet, rank: map<string, nat>, leaf': LeafOutcomes, leaf: LeafOutcomes,
                                        id: string)
    requires Ranked(g, rank) && id in g && FailsMore(leaf', leaf)
    ensures RankedMeaning(g, rank, leaf', id) == Matched ==> RankedMeaning(g, rank, leaf, id) == Matched
    decreases rank[id]
  {
    if g[id].Combiner? && !Dangling(g, g[id]) {
      forall ref | ref in g[id].of
        ensures RankedMeaning(g, rank, leaf', ref) == Matched ==> RankedMeaning(g, rank, leaf, ref) == Matched
      {
        assert ref in Deps(g[id]);
        FewerMatches(g, rank, leaf', leaf, ref);
      }
    }
  }

  lemma MatchedMeaningSurvives(g: RuleSet, leaf': LeafOutcomes, leaf: LeafOutcomes, id: string)
    requires Stratified(g) && id in g && FailsMore(leaf', leaf)
    ensures Meaning(g, leaf', id) == Matched ==> Meaning(g, leaf, id) == Matched
  {
    var rank :| Ranked(g, rank) && Meaning(g, leaf, id) == RankedMeaning(g, rank, leaf, id);
    var rank' :| Ranked(g, rank') && Meaning(g, leaf', id) == RankedMeaning(g, rank', leaf', id);
    RanksDoNotMatter(g, rank, rank', leaf, id);
    FewerMatches(g, rank', leaf', leaf, id);
  }

  /** A rule that matches in spite of the failures gives the same verdict without them. */
  lemma MatchSurvives(rules: seq<Rule>, leaf': LeafOutcomes, leaf: LeafOutcomes, i: nat)
    requires IsRuleList(rules) && i < |rules| && FailsMore(leaf', leaf)
    ensures Pass(rules, leaf')[i].matched ==>
              Pass(rules, leaf)[i].matched && Pass(rules, leaf)[i].verdict == Pass(rules, leaf')[i].verdict
  {
    hide Pass, IsRuleList, RulesById, Meaning, FailureNotes, Join;
    PassIsMeaning(rules, leaf, i);
    PassIsMeaning(rules, leaf', i);
    MatchedMeaningSurvives(RulesById(rules), leaf', leaf, rules[i].id);
  }

  /** Failing open: failures of leaf rules never raise the verdict. */
  lemma FailuresNeverRaiseVerdict(rules: seq<Rule>, leaf': LeafOutcomes, response': Response,
                                  leaf: LeafOutcomes, response: Response)
    requires IsRuleList(rules) && FailsMore(leaf', leaf)
    requires IsResponseOf(Pass(rules, leaf'), response') && IsResponseOf(Pass(rules, leaf), response)
    ensures Severity(response'.verdict) <= Severity(response.verdict)
    ensures response'.verdict == Block ==> response.verdict == Block
    ensures response'.verdict == Flag ==> response.verdict in {Flag, Block}
  {
    hide Pass, IsRuleList;
    if response'.verdict != Allow {
      var r :| r in Pass(rules, leaf') && r.matched && r.verdict == response'.verdict;
      var i :| 0 <= i < |rules| && Pass(rules, leaf')[i] == r;
      MatchSurvives(rules, leaf', leaf, i);
      assert Pass(rules, leaf)[i] in Pass(rules, leaf);
    }
  }

  // ----- Where the notes about failed dependencies end up -----

  /**
   The notes of a combiner with a failed dependency reach the decision exactly when the combiner is
   an "any" with another dependency that matched and without a disabled one. An "all" with a failed
   dependency never matches, so what it noted is in no reason of the decision; and with a disabled
   dependency the combiner fails itself, and gives no reason at all.
   */
  lemma NotesReachDecision(rules: seq<Rule>, leaf: LeafOutcomes, response: Response, i: nat, failed: string)
    requires IsRuleList(rules) && IsResponseOf(Pass(rules, leaf), response)
    requires i < |rules| && rules[i].Combiner? && rules[i].action.code != ""
    requires Stratified(RulesById(rules)) && failed in rules[i].of && failed in RulesById(rules)
    requires Meaning(RulesById(rules), leaf, failed) == Errored
    ensures var notes := Join(FailureNotes(RulesById(rules), leaf, rules[i].of), "; ");
            Reason(rules[i].action.code, rules[i].id, notes) in response.reasons <==>
            && rules[i].op == Any && !Dangling(RulesById(rules), rules[i])
            && exists ref :: ref in rules[i].of && ref in RulesById(rules)
                             && Meaning(RulesById(rules), leaf, ref) == Matched
  {
    hide Pass, IsRuleList, ReasonsOf, RulesById, Meaning, FailureNotes, Join, IsResponseOf, Stratified;
    var g, rule := RulesById(rules), rules[i];
    var notes := Join(FailureNotes(g, leaf, rule.of), "; ");
    RuleIsThere(rules, i);
    MeaningUnfolds(g, leaf, rule.id);
    PassIsMeaning(rules, leaf, i);
    ReasonShown(rules, leaf, response, i, Reason(rule.action.code, rule.id, notes));
  }

  lemma RuleIsThere(rules: seq<Rule>, i: nat)
    requires IsRuleList(rules) && i < |rules|
    ensures rules[i].id in RulesById(rules) && RulesById(rules)[rules[i].id] == rules[i]
  {
    RuleAt(rules, i);
  }

  /** A reason names its rule, and is in the decision exactly when that rule gave it and matched. */
  lemma ReasonShown(rules: seq<Rule>, leaf: LeafOutcomes, response: Response, i: nat, reason: Reason)
    requires IsRuleList(rules) && IsResponseOf(Pass(rules, leaf), response)
    requires i < |rules| && reason.rule == rules[i].id && reason.code != ""
    ensures reason in response.reasons <==> Pass(rules, leaf)[i].matched && Pass(rules, leaf)[i].reason == reason
  {
    hide Pass, IsRuleList, ReasonsOf, IsVerdictOf, EvaluatedOf;
    ReasonIsOfResult(Pass(rules, leaf), reason);
    if r :| r in Pass(rules, leaf) && r.matched && r.reason == reason {
      var j :| 0 <= j < |rules| && Pass(rules, leaf)[j] == r;
      ReasonNamesRule(rules, leaf, j);
      SameIdSamePlace(rules, i, j);
    }
    if Pass(rules, leaf)[i].matched && Pass(rules, leaf)[i].reason == reason {
      assert Pass(rules, leaf)[i] in Pass(rules, leaf);
    }
  }

  lemma ReasonNamesRule(rules: seq<Rule>, leaf: LeafOutcomes, i: nat)
    requires IsRuleList(rules) && i < |rules|
    ensures Pass(rules, leaf)[i].reason.code != "" ==> Pass(rules, leaf)[i].reason.rule == rules[i].id
  {
    hide Pass, IsRuleList, RulesById, Meaning, FailureNotes, Join;
    PassIsMeaning(rules, leaf, i);
  }

  lemma SameIdSamePlace(rules: seq<Rule>, i: nat, j: nat)
    requires IsRuleList(rules) && i < |rules| && j < |rules| && rules[i].id == rules[j].id
    ensures i == j
  {
  }

  /** Rule c combines a and b. */
  function Combined(op: Op, a: RuleAction, b: RuleAction, c: RuleAction): seq<Rule> {
    [Leaf("a", a), Leaf("b", b), Combiner("c", op, ["a", "b"], c)]
  }

  function CombinedResults(op: Op, b: RuleAction, c: RuleAction): seq<RuleResult> {
    var note := SkippedNote("a");
    [ RuleResult("a", false, Allow, NoReason, Some(LeafFailed)),
      RuleResult("b", true, b.verdict, Reason(b.code, "b", ""), None),
      if op == All then RuleResult("c", false, Allow, Reason("", "c", note), None)
      else RuleResult("c", true, c.verdict, Reason(c.code, "c", note), None) ]
  }

  lemma CombinedIsRuleList(op: Op, a: RuleAction, b: RuleAction, c: RuleAction)
    ensures IsRuleList(Combined(op, a, b, c))
  {
    hide RulesById;
    var rules := Combined(op, a, b, c);
    forall i, ref | 0 <= i < |rules| && ref in Deps(rules[i]) ensures ComesBefore(rules, ref, i) {
      assert i == 2;
      assert rules[0].id == "a" && rules[1].id == "b";
    }
  }

  lemma LeafResults(a: RuleAction, b: RuleAction, leaf: LeafOutcomes, prior: map<string, RuleResult>)
    requires leaf("a") == Errored && leaf("b") == Matched
    ensures ResultOf(Leaf("a", a), leaf, prior) == RuleResult("a", false, Allow, NoReason, Some(LeafFailed))
    ensures ResultOf(Leaf("b", b), leaf, prior) == RuleResult("b", true, b.verdict, Reason(b.code, "b", ""), None)
  {
  }

  /** The pass over the first two rules of a list. */
  lemma PassOfTwo(rules: seq<Rule>, leaf: LeafOutcomes)
    requires |rules| >= 2
    ensures var r0 := ResultOf(rules[0], leaf, map[]);
            Pass(rules[..2], leaf) == [r0] + [ResultOf(rules[1], leaf, ResultsById([r0]))]
  {
    hide Pass, ResultsById, ResultOf;
    NoResultsYet(leaf);
    assert rules[..0] == [];
    PassNext(rules, leaf, 0);
    PassNext(rules, leaf, 1);
    assert [] + [ResultOf(rules[0], leaf, map[])] == [ResultOf(rules[0], leaf, map[])];
  }

  lemma TwoById(x: RuleResult, y: RuleResult)
    ensures ResultsById([x] + [y]) == map[x.ruleId := x][y.ruleId := y]
  {
    hide ResultsById;
    assert ResultsById([]) == map[] by { NoResultsYet(_ => Errored); }
    assert [] + [x] == [x];
    ResultsByIdNext([], x);
    ResultsByIdNext([x], y);
  }

  lemma LeavesPass(op: Op, a: RuleAction, b: RuleAction, c: RuleAction, leaf: LeafOutcomes)
    requires leaf("a") == Errored && leaf("b") == Matched
    ensures var rules, results := Combined(op, a, b, c), CombinedResults(op, b, c);
            && Pass(rules[..2], leaf) == [results[0], results[1]]
            && ResultsById([results[0], results[1]]) == map["a" := results[0], "b" := results[1]]
  {
    hide Pass, ResultsById, ResultOf, SkippedNote;
    var rules, results := Combined(op, a, b, c), CombinedResults(op, b, c);
    LeafResults(a, b, leaf, map[]);
    LeafResults(a, b, leaf, ResultsById([results[0]]));
    PassOfTwo(rules, leaf);
    TwoById(results[0], results[1]);
    assert [results[0]] + [results[1]] == [results[0], results[1]];
  }

  lemma CombinedPass(op: Op, a: RuleAction, b: RuleAction, c: RuleAction, leaf: LeafOutcomes)
    requires leaf("a") == Errored && leaf("b") == Matched
    ensures Pass(Combined(op, a, b, c), leaf) == CombinedResults(op, b, c)
  {
    hide Pass, ResultsById, SkippedNote, CombinerResult;
    var rules, results := Combined(op, a, b, c), CombinedResults(op, b, c);
    LeavesPass(op, a, b, c, leaf);
    PassNext(rules, leaf, 2);
    assert rules[..3] == rules;
    CombinedResult(op, c, ResultsById([results[0], results[1]]), results[0], results[1]);
  }

  lemma CombinedResult(op: Op, c: RuleAction, prior: map<string, RuleResult>, a: RuleResult, b: RuleResult)
    requires prior == map["a" := a, "b" := b] && a.err.Some? && b.err.None? && b.matched
    ensures CombinerResult(Combiner("c", op, ["a", "b"], c), prior) ==
            Ok(if op == All then RuleResult("c", false, Allow, Reason("", "c", SkippedNote("a")), None)
               else RuleResult("c", true, c.verdict, Reason(c.code, "c", SkippedNote("a")), None))
  {
    hide SkippedNote;
    var of := ["a", "b"];
    assert of[..1] == ["a"] && of[..1][..0] == [] && of[1] == "b";
    assert SkippedNotes(of[..1], prior) == [SkippedNote("a")];
    assert SkippedNotes(of, prior) == [SkippedNote("a")];
    assert "a" in of && !DependencyMatched("a", prior);
    assert "b" in of && DependencyMatched("b", prior);
  }

  /**
   Rule a fails, rule b matches, and rule c combines them: both kinds of combiner note the failure, but
   with "all" the note is in no reason of the decision, and with "any" it is in one.
   */
  lemma NotesLostAndKept(op: Op, a: RuleAction, b: RuleAction, c: RuleAction, leaf: LeafOutcomes, response: Response)
    requires leaf("a") == Errored && leaf("b") == Matched && c.code != ""
    requires IsResponseOf(Pass(Combined(op, a, b, c), leaf), response)
    ensures IsRuleList(Combined(op, a, b, c))
    ensures Pass(Combined(op, a, b, c), leaf)[2].reason.detail == SkippedNote("a")
    ensures op == All ==> forall reason :: reason in response.reasons ==> reason.detail == "" && reason.rule != "c"
    ensures op == Any ==> Reason(c.code, "c", SkippedNote("a")) in response.reasons
  {
    hide Pass, ReasonsOf, IsVerdictOf, EvaluatedOf, IsRuleList, SkippedNote;
    CombinedIsRuleList(op, a, b, c);
    CombinedPass(op, a, b, c, leaf);
    var results := CombinedResults(op, b, c);
    forall reason ensures reason in response.reasons <==>
                          reason.code != "" && exists r :: r in results && r.matched && r.reason == reason {
      ReasonIsOfResult(results, reason);
    }
    assert results[2] in results;
  }
}
