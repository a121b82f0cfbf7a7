/** A parsed rule file (internal/rules/loader.go, rule.go) and the rules built from it. */
module RuleFiles {
  import opened Results

  datatype Verdict = Allow | Flag | Block

  datatype RuleAction = RuleAction(verdict: Verdict, code: string)

  datatype RuleType = RateLimit | KeywordMatch | Cel | CombinerType | OtherType(name: string)

  /** on_match or on_exceed as it stands in the file. */
  datatype RawAction = RawAction(verdict: string, code: string)

  datatype RawRule = RawRule(
    id: string,
    kind: RuleType,
    enabled: Option<bool>,
    action: RawAction,
    op: string,
    of: seq<string>)

  datatype RuleFile = RuleFile(version: int, onEvalError: string, rules: seq<RawRule>)

  datatype Op = All | Any

  /** The three kinds of leaf rule differ only in how they are evaluated, which is left open. */
  datatype Rule =
    | Leaf(id: string, action: RuleAction)
    | Combiner(id: string, op: Op, of: seq<string>, action: RuleAction)

  /** rule is what raw says: its verdict, code and operator are those that the file spells out. */
  ghost predicate Says(raw: RawRule, rule: Rule) {
    && rule.id == raw.id && rule.action.code == raw.action.code
    && (rule.action.verdict == Allow <==> raw.action.verdict == "allow")
    && (rule.action.verdict == Flag <==> raw.action.verdict == "flag")
    && (rule.action.verdict == Block <==> raw.action.verdict == "block")
    && (rule.Combiner? <==> raw.kind.CombinerType?)
    && (rule.Combiner? ==>
          rule.of == raw.of && (rule.op == All <==> raw.op == "all") && (rule.op == Any <==> raw.op == "any"))
  }

  /** The rules a raw rule refers to; only combiners refer to any. */
  function Refs(raw: RawRule): seq<string> {
    if raw.kind.CombinerType? then raw.of else []
  }

  function Ids(raws: seq<RawRule>): (ids: seq<string>)
    ensures |ids| == |raws| && forall i :: 0 <= i < |raws| ==> ids[i] == raws[i].id
  {
    seq(|raws|, i requires 0 <= i < |raws| => raws[i].id)
  }

  ghost predicate Distinct<T>(s: seq<T>) {
    forall i, j :: 0 <= i < j < |s| ==> s[i] != s[j]
  }
}
