/** The records the pipeline passes between its stages, their defaults and the validation
    pydantic applies when one is built (backend/app/Schema.py). */
module Schema {
  import opened Outcomes
  import opened JsonValue

  /** One extracted clause: the dict `{clause_id, text, page, section}` the extractor emits.
      `page` and `section` are `None` when the block has no page or no heading precedes it. */
  datatype Clause = Clause(clauseId: string, text: string, page: Option<int>, section: Option<string>)

  /** The dict the classification stage builds: every key of the clause plus `cls_type` and
      `confidence`, which hold whatever values the classifier response carried. */
  datatype ClassifiedEntry = ClassifiedEntry(clause: Clause, clsType: Json, confidence: Json)

  /** The `ClassifiedClause` model: `page`, `section` and `confidence` have defaults. */
  datatype ClassifiedClause = ClassifiedClause(
    clauseId: string, text: string, page: int, section: string, clsType: string, confidence: real)

  /** The `RiskResult` model; all six fields are required. */
  datatype RiskResult = RiskResult(
    clauseId: string, risk: string, framework: string, status: string, reason: string, score: real)

  /** The `AdvisoryResult` model, and the shape of the dict the advisory stage stores. */
  datatype AdvisoryResult = AdvisoryResult(executiveSummary: string, recommendations: seq<string>)

  /** Building a `ClassifiedClause`: the required fields are plain parameters, an omitted
      optional field is `None` and takes its declared default. */
  function NewClassifiedClause(clauseId: string, text: string, clsType: string,
                               page: Option<int>, section: Option<string>, confidence: Option<real>)
    : (c: ClassifiedClause)
    ensures c.clauseId == clauseId && c.text == text && c.clsType == clsType
    ensures page.None? ==> c.page == 1
    ensures page.Some? ==> c.page == page.value
    ensures section.None? ==> c.section == "Unknown"
    ensures section.Some? ==> c.section == section.value
    ensures confidence.None? ==> c.confidence == 0.0
    ensures confidence.Some? ==> c.confidence == confidence.value
  {
    ClassifiedClause(
      clauseId, text,
      match page case Some(p) => p case None => 1,
      match section case Some(s) => s case None => "Unknown",
      clsType,
      match confidence case Some(x) => x case None => 0.0)
  }

  /** Building a `RiskResult` from decoded JSON values: it validates exactly when the five
      string fields hold strings and `score` holds a number. */
  function NewRiskResult(clauseId: string, risk: Json, framework: Json, status: Json,
                         reason: Json, score: Json): (r: Result<RiskResult>)
    ensures r.Success? <==> risk.JStr? && framework.JStr? && status.JStr? && reason.JStr? && score.JNum?
    ensures r.Success? ==> r.value == RiskResult(clauseId, risk.s, framework.s, status.s, reason.s, score.n)
    ensures r.Failure? ==> r.error == ValidationError("RiskResult")
  {
    if risk.JStr? && framework.JStr? && status.JStr? && reason.JStr? && score.JNum? then
      Success(RiskResult(clauseId, risk.s, framework.s, status.s, reason.s, score.n))
    else
      Failure(ValidationError("RiskResult"))
  }

  /** The analysis state threaded through the four stages; each stage writes its own field in
      place. `advisory` is `None` while it is still the empty dict. */
  class ContractState {
    var filePath: string
    var clauses: seq<Clause>
    var classified: seq<ClassifiedEntry>
    var risks: seq<RiskResult>
    var advisory: Option<AdvisoryResult>
    var overallScore: real

    /** A fresh state has only its file path set. */
    constructor (filePath: string)
      ensures this.filePath == filePath
      ensures clauses == [] && classified == [] && risks == []
      ensures advisory == None
      ensures overallScore == 0.0
    {
      this.filePath := filePath;
      clauses := [];
      classified := [];
      risks := [];
      advisory := None;
      overallScore := 0.0;
    }
  }
}
