/** The risk stage (backend/app/agents/risk_agent.py): every classified clause is analysed by
    Flan-T5 and turned into a validated `RiskResult`; an analysis that raises falls back to a
    fixed record, a record that does not validate makes the stage raise. */
module RiskAgent {
  import opened Outcomes
  import opened JsonValue
  import opened Schema
  import opened LlmClients
  import opened ResultSeq

  /** The `result` of `analyze_single_clause`: Flan-T5's answer for the clause text and its
      classification, or the fallback record when that call raises. */
  function Analysis(svc: Services, e: ClassifiedEntry): (r: Json)
    ensures AnalyzeRiskT5(svc, e.clause.text, e.clsType).Success? ==>
      r == AnalyzeRiskT5(svc, e.clause.text, e.clsType).value
    ensures AnalyzeRiskT5(svc, e.clause.text, e.clsType).Failure? ==> r == RiskFallback
  {
    match AnalyzeRiskT5(svc, e.clause.text, e.clsType)
    case Success(result) => result
    case Failure(_) => RiskFallback
  }

  /** `RiskResult(clause_id=..., risk=result.get("risk", "Medium"), ...)`: each field is read
      with `get` and its default, then validated. A result that is not a dict has no `get`.
      For a dict, the record validates exactly when every key present holds a value of its
      field's type; each field is then the value stored under its key, or its default when the
      key is missing. */
  function RiskOf(clauseId: string, result: Json): (r: Result<RiskResult>)
    ensures !result.JObj? ==> r == Failure(AttributeError)
    ensures result.JObj? ==> (r.Success? <==>
      && ("risk" !in result.fields || result.fields["risk"].JStr?)
      && ("framework" !in result.fields || result.fields["framework"].JStr?)
      && ("status" !in result.fields || result.fields["status"].JStr?)
      && ("reason" !in result.fields || result.fields["reason"].JStr?)
      && ("score" !in result.fields || result.fields["score"].JNum?))
    ensures result.JObj? && r.Failure? ==> r.error == ValidationError("RiskResult")
    ensures r.Success? ==> r.value.clauseId == clauseId
    ensures r.Success? ==>
      r.value.risk == (if "risk" in result.fields then result.fields["risk"].s else "Medium")
    ensures r.Success? ==>
      r.value.framework == (if "framework" in result.fields then result.fields["framework"].s else "IRDAI")
    ensures r.Success? ==>
      r.value.status == (if "status" in result.fields then result.fields["status"].s else "Partial")
    ensures r.Success? ==>
      r.value.reason == (if "reason" in result.fields then result.fields["reason"].s else "Fallback")
    ensures r.Success? ==>
      r.value.score == (if "score" in result.fields then result.fields["score"].n else 0.5)
  {
    match result
    case JObj(fields) =>
      NewRiskResult(clauseId,
        Get(fields, "risk", JStr("Medium")), Get(fields, "framework", JStr("IRDAI")),
        Get(fields, "status", JStr("Partial")), Get(fields, "reason", JStr("Fallback")),
        Get(fields, "score", JNum(0.5)))
    case _ => Failure(AttributeError)
  }

  /** `analyze_single_clause(clause)` as a step over classified entries. */
  function RiskStep(svc: Services): ClassifiedEntry -> Result<RiskResult>
  {
    (e: ClassifiedEntry) => RiskOf(e.clause.clauseId, Analysis(svc, e))
  }

  /** The record built from the fallback: Medium risk, IRDAI, Partial, "Fallback", 0.5. */
  lemma FallbackRecord(clauseId: string)
    ensures RiskOf(clauseId, RiskFallback) == Success(RiskResult(clauseId, "Medium", "IRDAI", "Partial", "Fallback", 0.5))
  {
    var f := RiskFallback.fields;
    assert f["risk"] == JStr("Medium") && f["framework"] == JStr("IRDAI") && f["status"] == JStr("Partial");
    assert f["reason"] == JStr("Fallback") && f["score"] == JNum(0.5);
  }

  /** A clause whose analysis raises still gets a record: the fallback one, under its own id. */
  lemma AnalysisFailureFallsBack(svc: Services, e: ClassifiedEntry)
    requires AnalyzeRiskT5(svc, e.clause.text, e.clsType).Failure?
    ensures RiskStep(svc)(e) == Success(RiskResult(e.clause.clauseId, "Medium", "IRDAI", "Partial", "Fallback", 0.5))
  {
    FallbackRecord(e.clause.clauseId);
  }

  /** An answer with no keys at all validates to the fallback record: every field takes its
      default. */
  lemma EmptyAnswerDefaults(clauseId: string)
    ensures RiskOf(clauseId, JObj(map[])) == Success(RiskResult(clauseId, "Medium", "IRDAI", "Partial", "Fallback", 0.5))
  {
  }

  /** A record always keeps the clause's id; building one raises only because the answer is
      not a dict or because a field of it does not validate. */
  lemma RiskOfSpec(clauseId: string, result: Json)
    ensures RiskOf(clauseId, result).Success? ==> RiskOf(clauseId, result).value.clauseId == clauseId
    ensures RiskOf(clauseId, result).Failure? ==>
      RiskOf(clauseId, result).error == AttributeError || RiskOf(clauseId, result).error == ValidationError("RiskResult")
    ensures result.JObj? && "score" in result.fields && !result.fields["score"].JNum? ==>
      RiskOf(clauseId, result) == Failure(ValidationError("RiskResult"))
    ensures result.JObj? && "risk" in result.fields && !result.fields["risk"].JStr? ==>
      RiskOf(clauseId, result) == Failure(ValidationError("RiskResult"))
  {
  }

  /** When the stage succeeds, it holds one record per classified clause, in clause order,
      each under the id of its clause. */
  lemma RisksAlign(svc: Services, classified: seq<ClassifiedEntry>)
    requires MapAll(classified, RiskStep(svc)).Success?
    ensures |MapAll(classified, RiskStep(svc)).value| == |classified|
    ensures forall i :: 0 <= i < |classified| ==>
      RiskOf(classified[i].clause.clauseId, Analysis(svc, classified[i])).Success? &&
      MapAll(classified, RiskStep(svc)).value[i] == RiskOf(classified[i].clause.clauseId, Analysis(svc, classified[i])).value
      && MapAll(classified, RiskStep(svc)).value[i].clauseId == classified[i].clause.clauseId
  {
    MapAllSuccess(classified, RiskStep(svc));
    forall i | 0 <= i < |classified|
      ensures MapAll(classified, RiskStep(svc)).value[i].clauseId == classified[i].clause.clauseId
    {
      RiskOfSpec(classified[i].clause.clauseId, Analysis(svc, classified[i]));
    }
  }

  /** The stage raises only when some clause's answer cannot be made into a record, and then
      with the exception of the first such clause. */
  lemma RisksFailure(svc: Services, classified: seq<ClassifiedEntry>)
    ensures MapAll(classified, RiskStep(svc)).Failure? <==>
      exists i :: 0 <= i < |classified| && RiskOf(classified[i].clause.clauseId, Analysis(svc, classified[i])).Failure?
    ensures MapAll(classified, RiskStep(svc)).Failure? ==>
      exists k :: 0 <= k < |classified|
        && RiskOf(classified[k].clause.clauseId, Analysis(svc, classified[k])).Failure?
        && (forall i :: 0 <= i < k ==> RiskStep(svc)(classified[i]).Success?)
        && MapAll(classified, RiskStep(svc)).error == RiskOf(classified[k].clause.clauseId, Analysis(svc, classified[k])).error
  {
    MapAllSuccess(classified, RiskStep(svc));
    MapAllFailure(classified, RiskStep(svc));
  }

  /** `risk_agent(state)`: analyses every classified clause and stores the records in `risks`;
      nothing else in the state changes, and when a record fails to validate the exception
      propagates before anything is stored. */
  method Run(state: ContractState, svc: Services) returns (r: Result<ContractState>)
    modifies state`risks
    ensures MapAll(state.classified, RiskStep(svc)).Success? ==>
      r == Success(state) && state.risks == MapAll(state.classified, RiskStep(svc)).value
    ensures MapAll(state.classified, RiskStep(svc)).Failure? ==>
      r == Failure(MapAll(state.classified, RiskStep(svc)).error) && state.risks == old(state.risks)
  {
    var classified := state.classified;
    var risksList: seq<RiskResult> := [];
    for k := 0 to |classified|
      invariant MapAll(classified[..k], RiskStep(svc)) == Success(risksList)
      invariant state.risks == old(state.risks)
    {
      var riskObj := RiskOf(classified[k].clause.clauseId, Analysis(svc, classified[k]));
      if riskObj.Failure? {
        MapAllSuccess(classified[..k], RiskStep(svc));
        assert forall i :: 0 <= i < k ==> classified[..k][i] == classified[i];
        MapAllFirstFailure(classified, k, RiskStep(svc));
        return Failure(riskObj.error);
      }
      MapAllStep(classified, k, RiskStep(svc));
      risksList := risksList + [riskObj.value];
    }
    assert classified[..|classified|] == classified;
    state.risks := risksList;
    return Success(state);
  }
}
