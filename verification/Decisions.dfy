/** Rule results and their combination into a decision (internal/engine/combine.go, types.go). */
module Decisions {
  import opened Results
  import opened RuleFiles

  datatype EvalError = LeafFailed | DependencyNotEvaluated

  datatype Reason = Reason(code: string, rule: string, detail: string)

  const NoReason := Reason("", "", "")

  datatype RuleResult = RuleResult(
    ruleId: string,
    matched: bool,
    verdict: Verdict,
    reason: Reason,
    err: Option<EvalError>)

  /** The part of the response that the results determine. */
  datatype Response = Response(verdict: Verdict, reasons: seq<Reason>, evaluated: seq<string>)

  function Severity(v: Verdict): nat {
    match v
    case Allow => 0
    case Flag => 1
    case Block => 2
  }

  function Worse(v: Verdict, w: Verdict): Verdict {
    if Severity(v) < Severity(w) then w else v
  }

  // ----- What a combination means -----

  /** v is the most severe verdict among the matched results; without any it is Allow. */
  ghost predicate IsVerdictOf(results: seq<RuleResult>, v: Verdict) {
    && (forall r :: r in results && r.matched ==> Severity(r.verdict) <= Severity(v))
    && (v == Allow || exists r :: r in results && r.matched && r.verdict == v)
  }

  /** The reasons of the matched results that have a code, in order. */
  ghost function ReasonsOf(results: seq<RuleResult>): seq<Reason> {
    if results == [] then [] else
      var last := results[|results| - 1];
      ReasonsOf(results[..|results| - 1]) + if last.matched && last.reason.code != "" then [last.reason] else []
  }

  ghost function EvaluatedOf(results: seq<RuleResult>): (ids: seq<string>)
    ensures |ids| == |results| && forall i :: 0 <= i < |ids| ==> ids[i] == results[i].ruleId
  {
    seq(|results|, i requires 0 <= i < |results| => results[i].ruleId)
  }

  ghost predicate IsResponseOf(results: seq<RuleResult>, response: Response) {
    && IsVerdictOf(results, response.verdict)
    && response.reasons == ReasonsOf(results)
    && response.evaluated == EvaluatedOf(results)
  }

  /** There is one combination. */
  lemma ResponseUnique(results: seq<RuleResult>, a: Response, b: Response)
    requires IsResponseOf(results, a) && IsResponseOf(results, b)
    ensures a == b
  {
  }

  /** The verdict of a concatenation is the worse of the two. */
  lemma VerdictOfConcat(xs: seq<RuleResult>, v: Verdict, ys: seq<RuleResult>, w: Verdict)
    requires IsVerdictOf(xs, v) && IsVerdictOf(ys, w)
    ensures IsVerdictOf(xs + ys, Worse(v, w))
  {
  }

  lemma {:induction false} ReasonsOfConcat(xs: seq<RuleResult>, ys: seq<RuleResult>)
    ensures ReasonsOf(xs + ys) == ReasonsOf(xs) + ReasonsOf(ys)
    decreases |ys|
  {
    if ys == [] {
      assert xs + ys == xs;
    } else {
      assert (xs + ys)[..|xs + ys| - 1] == xs + ys[..|ys| - 1];
      ReasonsOfConcat(xs, ys[..|ys| - 1]);
    }
  }

  function Joined(a: Response, b: Response): Response {
    Response(Worse(a.verdict, b.verdict), a.reasons + b.reasons, a.evaluated + b.evaluated)
  }

  /** Combining distributes over concatenation: verdicts by severity, the lists by appending. */
  lemma CombineConcat(xs: seq<RuleResult>, a: Response, ys: seq<RuleResult>, b: Response)
    requires IsResponseOf(xs, a) && IsResponseOf(ys, b)
    ensures IsResponseOf(xs + ys, Joined(a, b))
  {
    hide IsVerdictOf, ReasonsOf, Worse;
    VerdictOfConcat(xs, a.verdict, ys, b.verdict);
    ReasonsOfConcat(xs, ys);
    assert EvaluatedOf(xs + ys) == EvaluatedOf(xs) + EvaluatedOf(ys);
  }

  /** The verdict depends only on which results there are, not on their order or number. */
  lemma VerdictOfSameMembers(xs: seq<RuleResult>, v: Verdict, ys: seq<RuleResult>, w: Verdict)
    requires IsVerdictOf(xs, v) && IsVerdictOf(ys, w)
    requires forall r :: r in xs <==> r in ys
    ensures v == w
  {
  }

  /** In so many words: block beats flag, flag beats allow, and only matched results have a say. */
  lemma VerdictExactly(results: seq<RuleResult>, response: Response)
    requires IsResponseOf(results, response)
    ensures response.verdict == Block <==> exists r :: r in results && r.matched && r.verdict == Block
    ensures response.verdict == Flag <==> && (exists r :: r in results && r.matched && r.verdict == Flag)
                                          && !exists r :: r in results && r.matched && r.verdict == Block
    ensures response.verdict == Allow <==> forall r :: r in results && r.matched ==> r.verdict == Allow
  {
  }

  /** What one result contributes. */
  function Contribution(r: RuleResult): Response {
    if !r.matched then Response(Allow, [], [r.ruleId])
    else Response(r.verdict, if r.reason.code != "" then [r.reason] else [], [r.ruleId])
  }

  lemma CombineOne(r: RuleResult)
    ensures IsResponseOf([r], Contribution(r))
  {
    assert [r][..0] == [];
    if r.matched {
      assert r in [r];
    }
  }

  lemma CombineNext(results: seq<RuleResult>, i: nat, before: Response)
    requires i < |results| && IsResponseOf(results[..i], before)
    ensures IsResponseOf(results[..i + 1], Joined(before, Contribution(results[i])))
  {
    hide IsResponseOf;
    var r := results[i];
    CombineOne(r);
    CombineConcat(results[..i], before, [r], Contribution(r));
    assert results[..i + 1] == results[..i] + [r];
  }

  /** Combine */
  method Combine(results: seq<RuleResult>) returns (response: Response)
    ensures IsResponseOf(results, response)
    ensures response.verdict == Block <==> exists r :: r in results && r.matched && r.verdict == Block
    ensures response.verdict == Flag <==> && (exists r :: r in results && r.matched && r.verdict == Flag)
                                          && !exists r :: r in results && r.matched && r.verdict == Block
  {
    var verdict := Allow;
    var reasons: seq<Reason> := [];
    var evaluated: seq<string> := [];
    assert results[..0] == [] && IsResponseOf([], Response(Allow, [], []));
    hide IsResponseOf;
    for i := 0 to |results|
      invariant IsResponseOf(results[..i], Response(verdict, reasons, evaluated))
    {
      var result := results[i];
      CombineNext(results, i, Response(verdict, reasons, evaluated));
      assert reasons + [] == reasons;
      evaluated := evaluated + [result.ruleId];
      if !result.matched {
        continue;
      }
      if result.reason.code != "" {
        reasons := reasons + [result.reason];
      }
      if result.verdict == Block {
        verdict := Block;
        continue;
      }
      if result.verdict == Flag && verdict != Block {
        verdict := Flag;
      }
    }
    assert results[..|results|] == results;
    VerdictExactly(results, Response(verdict, reasons, evaluated));
    return Response(verdict, reasons, evaluated);
  }

  lemma {:induction false} ReasonIsOfResult(results: seq<RuleResult>, reason: Reason)
    ensures reason in ReasonsOf(results) <==>
            exists r :: r in results && r.matched && r.reason == reason && reason.code != ""
    decreases |results|
  {
    if results != [] {
      var init, last := results[..|results| - 1], results[|results| - 1];
      assert results == init + [last];
      ReasonIsOfResult(init, reason);
      if r :| r in results && r.matched && r.reason == reason && reason.code != "" {
        assert r in init || r == last;
      }
    }
  }
}
