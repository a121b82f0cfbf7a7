/**
 LoadBytes (internal/rules/loader.go) from the parsed file on: validation, ordering, and building the
 enabled rules. Whether a leaf rule builds depends on files and libraries outside this model; it is
 the parameter leafBuilds, the ids of the leaf rules whose constructors succeed.
 */
module Loader {
  import opened Results
  import opened RuleFiles
  import opened RuleOrder

  datatype LoadError =
    | UnsupportedVersion
    | BadEvalErrorDefault
    | BlankId
    | DuplicateId(id: string)
    | UnknownType(id: string)
    | UnknownRef(combiner: string, ref: string)
    | NotOrdered(cause: OrderError)
    | BuildFailed(id: string)

  /** The white space that strings.TrimSpace removes. */
  predicate IsSpace(c: char) {
    || c in "\t\n\r \U{0B}\U{0C}\U{85}\U{A0}\U{1680}\U{2028}\U{2029}\U{202F}\U{205F}\U{3000}"
    || '\U{2000}' <= c <= '\U{200A}'
  }

  predicate IsBlank(s: string) {
    forall i :: 0 <= i < |s| ==> IsSpace(s[i])
  }

  /** Blank are the empty string and white space; a visible character makes an id. */
  lemma BlankExactly(s: string, t: string)
    ensures IsBlank("") && IsBlank(" ") && IsBlank("\t\r\n")
    ensures IsBlank(s + t) <==> IsBlank(s) && IsBlank(t)
    ensures (exists c :: c in s && '!' <= c <= '~') ==> !IsBlank(s)
  {
    if IsBlank(s + t) {
      forall i | 0 <= i < |s| ensures IsSpace(s[i]) {
        assert (s + t)[i] == s[i];
      }
      forall i | 0 <= i < |t| ensures IsSpace(t[i]) {
        assert (s + t)[|s| + i] == t[i];
      }
    }
  }

  predicate RuleEnabled(raw: RawRule) {
    raw.enabled.None? || raw.enabled.value
  }

  function EnabledOnly(raws: seq<RawRule>): (r: seq<RawRule>)
    ensures forall raw :: raw in r <==> raw in raws && RuleEnabled(raw)
  {
    if raws == [] then [] else
      var last := raws[|raws| - 1];
      assert raws == raws[..|raws| - 1] + [last];
      EnabledOnly(raws[..|raws| - 1]) + if RuleEnabled(last) then [last] else []
  }

  function ParseVerdict(s: string): Option<Verdict> {
    if s == "allow" then Some(Allow)
    else if s == "flag" then Some(Flag)
    else if s == "block" then Some(Block)
    else None
  }

  /** RuleAction.validate */
  function BuildAction(raw: RawAction): Option<RuleAction> {
    var verdict := ParseVerdict(raw.verdict);
    if verdict.None? || raw.code == "" then None else Some(RuleAction(verdict.value, raw.code))
  }

  /** What the constructors demand: a verdict, a code, and a complete combiner or a leaf that can be made. */
  ghost predicate Buildable(raw: RawRule, leafBuilds: set<string>) {
    && raw.action.code != "" && raw.action.verdict in {"allow", "flag", "block"}
    && (raw.kind.CombinerType? ==> raw.op in {"all", "any"} && raw.of != [])
    && (!raw.kind.CombinerType? ==> !raw.kind.OtherType? && raw.id in leafBuilds)
  }

  /** buildRule and NewCombinerRule; leaf rules check their action in the same way. */
  function Build(raw: RawRule, leafBuilds: set<string>): (r: Option<Rule>)
    ensures r.Some? <==> Buildable(raw, leafBuilds)
    ensures r.Some? ==> Says(raw, r.value)
    ensures r.Some? ==> r.value.id == raw.id && (r.value.Combiner? <==> raw.kind.CombinerType?)
    ensures r.Some? && r.value.Combiner? ==> r.value.of == Refs(raw) && r.value.of != []
  {
    var action := BuildAction(raw.action);
    match raw.kind
    case CombinerType =>
      if action.None? || raw.of == [] then None
      else if raw.op == "all" then Some(Combiner(raw.id, All, raw.of, action.value))
      else if raw.op == "any" then Some(Combiner(raw.id, Any, raw.of, action.value))
      else None
    case OtherType(_) => None
    case _ =>
      if action.None? || raw.id !in leafBuilds then None else Some(Leaf(raw.id, action.value))
  }

  // ----- What loading is for -----

  /** rules are the enabled ones among the ordered raw rules, built, in the same order. */
  ghost predicate BuiltFrom(ordered: seq<RawRule>, leafBuilds: set<string>, rules: seq<Rule>) {
    AllBuilt(EnabledOnly(ordered), leafBuilds, rules)
  }

  ghost predicate AllBuilt(enabled: seq<RawRule>, leafBuilds: set<string>, rules: seq<Rule>) {
    |rules| == |enabled| && forall i :: 0 <= i < |rules| ==> Build(enabled[i], leafBuilds) == Some(rules[i])
  }

  ghost predicate IsLoadOrder(raws: seq<RawRule>, ordered: seq<RawRule>) {
    && multiset(ordered) == multiset(raws)
    && DependencyOrdered(ordered)
    && Ids(ordered) == UnfoldedOrder(raws)
  }

  /** rules is a snapshot of the file: its enabled rules, dependencies first. */
  ghost predicate IsSnapshot(raws: seq<RawRule>, leafBuilds: set<string>, rules: seq<Rule>) {
    && Distinct(Ids(raws)) && RefsKnown(ById(raws))
    && exists ordered :: IsLoadOrder(raws, ordered) && BuiltFrom(ordered, leafBuilds, rules)
  }

  ghost predicate Loadable(file: RuleFile, leafBuilds: set<string>) {
    && file.version == 1 && file.onEvalError in {"", "allow"}
    && (forall raw :: raw in file.rules ==> !IsBlank(raw.id) && !raw.kind.OtherType?)
    && Distinct(Ids(file.rules))
    && RefsKnown(ById(file.rules)) && !HasCycle(ById(file.rules))
    && forall raw :: raw in file.rules && raw.enabled != Some(false) ==> Buildable(raw, leafBuilds)
  }

  /** The defect that an error reports is there. */
  ghost predicate HasDefect(file: RuleFile, leafBuilds: set<string>, error: LoadError) {
    match error
    case UnsupportedVersion => file.version != 1
    case BadEvalErrorDefault => file.onEvalError !in {"", "allow"}
    case BlankId => exists raw :: raw in file.rules && IsBlank(raw.id)
    case DuplicateId(id) => exists i, j :: 0 <= i < j < |file.rules| && file.rules[i].id == file.rules[j].id == id
    case UnknownType(id) => exists raw :: raw in file.rules && raw.id == id && raw.kind.OtherType?
    case UnknownRef(combiner, ref) =>
      exists raw :: raw in file.rules && raw.id == combiner && ref in Refs(raw) && ref !in Ids(file.rules)
    case NotOrdered(cause) => cause.CycleDetected? && OnCycle(ById(file.rules), cause.at)
    case BuildFailed(id) =>
      exists raw :: raw in file.rules && raw.id == id && raw.enabled != Some(false) && !Buildable(raw, leafBuilds)
  }

  // ----- The loops -----

  /** First loop of LoadBytes. */
  method CheckIds(raws: seq<RawRule>) returns (r: Result<set<string>, LoadError>)
    ensures r.Ok? ==>
              && (forall id :: id in r.value <==> id in Ids(raws))
              && Distinct(Ids(raws))
              && forall raw :: raw in raws ==> !IsBlank(raw.id) && !raw.kind.OtherType?
    ensures r.Err? ==> r.error.BlankId? || r.error.DuplicateId? || r.error.UnknownType?
    ensures r.Err? ==> forall file: RuleFile, leafBuilds :: file.rules == raws ==> HasDefect(file, leafBuilds, r.error)
  {
    hide IsBlank, ById, Build, HasCycle;
    var ids: set<string> := {};
    for i := 0 to |raws|
      invariant forall id :: id in ids <==> id in Ids(raws[..i])
      invariant Distinct(Ids(raws[..i]))
      invariant forall j :: 0 <= j < i ==> !IsBlank(raws[j].id) && !raws[j].kind.OtherType?
    {
      var raw := raws[i];
      assert raw in raws;
      assert Ids(raws[..i + 1]) == Ids(raws[..i]) + [raw.id];
      if IsBlank(raw.id) {
        return Err(BlankId);
      }
      if raw.id in ids {
        ghost var j :| 0 <= j < i && raws[..i][j].id == raw.id;
        assert raws[j].id == raws[i].id;
        return Err(DuplicateId(raw.id));
      }
      ids := ids + {raw.id};
      if raw.kind.OtherType? {
        return Err(UnknownType(raw.id));
      }
    }
    assert raws[..|raws|] == raws;
    return Ok(ids);
  }

  /** Second loop of LoadBytes. */
  method CheckRefs(raws: seq<RawRule>, ids: set<string>) returns (error: Option<LoadError>)
    requires forall id :: id in ids <==> id in Ids(raws)
    ensures error.None? <==> forall raw, ref :: raw in raws && ref in Refs(raw) ==> ref in Ids(raws)
    ensures error.Some? ==> error.value.UnknownRef?
    ensures error.Some? ==>
              forall file: RuleFile, leafBuilds :: file.rules == raws ==> HasDefect(file, leafBuilds, error.value)
  {
    for i := 0 to |raws|
      invariant forall j, ref :: 0 <= j < i && ref in Refs(raws[j]) ==> ref in Ids(raws)
    {
      if raws[i].kind.CombinerType? {
        for k := 0 to |raws[i].of|
          invariant forall m :: 0 <= m < k ==> raws[i].of[m] in Ids(raws)
        {
          if raws[i].of[k] !in ids {
            assert raws[i] in raws && raws[i].of[k] in Refs(raws[i]);
            return Some(UnknownRef(raws[i].id, raws[i].of[k]));
          }
        }
      }
    }
    return None;
  }

  /** Third loop of LoadBytes. */
  method BuildEnabled(ordered: seq<RawRule>, leafBuilds: set<string>) returns (r: Result<seq<Rule>, LoadError>)
    ensures r.Ok? <==> forall raw :: raw in ordered && RuleEnabled(raw) ==> Build(raw, leafBuilds).Some?
    ensures r.Ok? ==> BuiltFrom(ordered, leafBuilds, r.value)
    ensures r.Err? ==> r.error.BuildFailed? &&
                       exists raw :: raw in ordered && raw.id == r.error.id
                                  && RuleEnabled(raw) && Build(raw, leafBuilds).None?
  {
    var built: seq<Rule> := [];
    for i := 0 to |ordered|
      invariant BuiltFrom(ordered[..i], leafBuilds, built)
      invariant forall j :: 0 <= j < i && RuleEnabled(ordered[j]) ==> Build(ordered[j], leafBuilds).Some?
    {
      assert ordered[..i + 1][..i] == ordered[..i];
      if RuleEnabled(ordered[i]) {
        var rule := Build(ordered[i], leafBuilds);
        if rule.None? {
          assert ordered[i] in ordered;
          return Err(BuildFailed(ordered[i].id));
        }
        built := built + [rule.value];
      }
    }
    assert ordered[..|ordered|] == ordered;
    return Ok(built);
  }

  lemma RefsKnownByList(raws: seq<RawRule>)
    requires Distinct(Ids(raws))
    ensures RefsKnown(ById(raws)) <==> forall raw, ref :: raw in raws && ref in Refs(raw) ==> ref in Ids(raws)
  {
    hide ById;
    ByIdOfDistinct(raws);
    if RefsKnown(ById(raws)) {
      forall raw, ref | raw in raws && ref in Refs(raw) ensures ref in Ids(raws) {
        assert IsEdge(ById(raws), raw.id, ref);
      }
    }
    if forall raw, ref :: raw in raws && ref in Refs(raw) ==> ref in Ids(raws) {
      forall from, to | IsEdge(ById(raws), from, to) ensures to in ById(raws) {
        assert ById(raws)[from] in raws;
      }
    }
  }

  lemma DefectBlocksLoading(file: RuleFile, leafBuilds: set<string>, error: LoadError)
    requires HasDefect(file, leafBuilds, error)
    ensures !Loadable(file, leafBuilds)
  {
    hide ById, IsBlank, Build;
    if error.UnknownRef? && Distinct(Ids(file.rules)) {
      RefsKnownByList(file.rules);
    }
  }

  lemma SameMembers(raws: seq<RawRule>, raws': seq<RawRule>)
    requires multiset(raws) == multiset(raws')
    ensures forall raw :: raw in raws <==> raw in raws'
  {
    forall raw ensures raw in raws <==> raw in raws' {
      assert raw in raws <==> raw in multiset(raws);
      assert raw in raws' <==> raw in multiset(raws');
    }
  }

  /** The rules built are the enabled ones, a rule without the flag being enabled, and each is what the file says. */
  lemma SnapshotSays(raws: seq<RawRule>, ordered: seq<RawRule>, leafBuilds: set<string>, rules: seq<Rule>)
    requires BuiltFrom(ordered, leafBuilds, rules) && forall raw :: raw in raws <==> raw in ordered
    ensures forall rule :: rule in rules ==> exists raw :: raw in raws && raw.enabled != Some(false) && Says(raw, rule)
    ensures forall raw :: raw in raws && raw.enabled != Some(false) ==> exists rule :: rule in rules && Says(raw, rule)
  {
    hide Build, Says, EnabledOnly;
    var enabled := EnabledOnly(ordered);
    forall rule | rule in rules ensures exists raw :: raw in raws && raw.enabled != Some(false) && Says(raw, rule) {
      var i :| 0 <= i < |rules| && rules[i] == rule;
      assert enabled[i] in enabled && Build(enabled[i], leafBuilds) == Some(rule);
    }
    forall raw | raw in raws && raw.enabled != Some(false) ensures exists rule :: rule in rules && Says(raw, rule) {
      assert raw in enabled;
      var i :| 0 <= i < |enabled| && enabled[i] == raw;
      assert rules[i] in rules && Build(enabled[i], leafBuilds) == Some(rules[i]);
    }
  }

  lemma NotBuilt(file: RuleFile, ordered: seq<RawRule>, leafBuilds: set<string>, id: string)
    requires forall raw :: raw in file.rules <==> raw in ordered
    requires exists raw :: raw in ordered && raw.id == id && RuleEnabled(raw) && Build(raw, leafBuilds).None?
    ensures HasDefect(file, leafBuilds, BuildFailed(id)) && !Loadable(file, leafBuilds)
  {
    hide ById, IsBlank, Build, HasCycle, RefsKnown, Distinct;
  }

  /**
   LoadBytes after parsing. A file loads exactly when it has none of the defects; the result is then
   its snapshot, and otherwise the error names a defect that the file has.
   */
  method Load(file: RuleFile, leafBuilds: set<string>) returns (r: Result<seq<Rule>, LoadError>)
    ensures r.Ok? <==> Loadable(file, leafBuilds)
    ensures r.Ok? ==> IsSnapshot(file.rules, leafBuilds, r.value)
    ensures r.Ok? ==> forall rule :: rule in r.value ==>
                        exists raw :: raw in file.rules && raw.enabled != Some(false) && Says(raw, rule)
    ensures r.Ok? ==> forall raw :: raw in file.rules && raw.enabled != Some(false) ==>
                        exists rule :: rule in r.value && Says(raw, rule)
    ensures r.Err? ==> HasDefect(file, leafBuilds, r.error)
  {
    hide ById, UnfoldedOrder, DependencyOrdered, IsBlank, Build, HasCycle, RefsKnown, Refs, EnabledOnly;
    if file.version != 1 {
      return Err(UnsupportedVersion);
    }
    if file.onEvalError != "" && file.onEvalError != "allow" {
      return Err(BadEvalErrorDefault);
    }
    var checked := CheckIds(file.rules);
    if checked.Err? {
      DefectBlocksLoading(file, leafBuilds, checked.error);
      return Err(checked.error);
    }
    RefsKnownByList(file.rules);
    var unknown := CheckRefs(file.rules, checked.value);
    if unknown.Some? {
      DefectBlocksLoading(file, leafBuilds, unknown.value);
      return Err(unknown.value);
    }
    var ordered := OrderRules(file.rules);
    if ordered.Err? {
      return Err(NotOrdered(ordered.error));
    }
    SameMembers(file.rules, ordered.value);
    r := BuildEnabled(ordered.value, leafBuilds);
    if r.Err? {
      NotBuilt(file, ordered.value, leafBuilds, r.error.id);
      return;
    }
    assert IsLoadOrder(file.rules, ordered.value);
    SnapshotSays(file.rules, ordered.value, leafBuilds, r.value);
  }
}
