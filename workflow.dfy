/** The analysis graph (backend/app/workflow.py): four nodes, entered at ingestion and joined
    by three edges into a chain, and a run of the compiled graph over one state. */
module Workflow {
  import opened Outcomes
  import opened Schema
  import opened DoclingParser
  import opened LlmClients
  import opened ResultSeq
  import IngestionAgent
  import ClassificationAgent
  import RiskAgent
  import AdvisoryAgent

  /** The nodes `ingestion_agent`, `classification_agent`, `risk_agent`, `advisory_agent`. */
  datatype Node = IngestionNode | ClassificationNode | RiskNode | AdvisoryNode

  /** `set_entry_point("ingestion_agent")`. */
  const Entry: Node := IngestionNode

  /** The target of a node's outgoing edge; the advisory node has none, so a run ends there. */
  function Next(n: Node): Option<Node>
  {
    match n
    case IngestionNode => Some(ClassificationNode)
    case ClassificationNode => Some(RiskNode)
    case RiskNode => Some(AdvisoryNode)
    case AdvisoryNode => None
  }

  /** How many edges separate a node from the entry. */
  function Depth(n: Node): (d: nat)
    ensures d <= 3
  {
    match n
    case IngestionNode => 0
    case ClassificationNode => 1
    case RiskNode => 2
    case AdvisoryNode => 3
  }

  /** The nodes a run visits from `n` on, following the edges until a node without one. */
  function Visits(n: Node): (vs: seq<Node>)
    ensures |vs| == 4 - Depth(n) && vs[0] == n
    ensures forall i :: 0 <= i < |vs| ==> Depth(vs[i]) == Depth(n) + i
    decreases 3 - Depth(n)
  {
    match Next(n)
    case None => [n]
    case Some(m) => [n] + Visits(m)
  }

  /** A run from the entry visits each of the four nodes exactly once, in the order
      ingestion, classification, risk, advisory. */
  lemma RunOrder()
    ensures Visits(Entry) == [IngestionNode, ClassificationNode, RiskNode, AdvisoryNode]
    ensures forall n: Node :: Visits(Entry)[Depth(n)] == n
    ensures forall i, j :: 0 <= i < j < |Visits(Entry)| ==> Visits(Entry)[i] != Visits(Entry)[j]
  {
    var vs := Visits(Entry);
    assert vs == [Entry] + Visits(ClassificationNode);
    assert Visits(ClassificationNode) == [ClassificationNode] + Visits(RiskNode);
    assert Visits(RiskNode) == [RiskNode] + Visits(AdvisoryNode);
  }

  /** What a complete run leaves in the state. */
  datatype Report = Report(
    clauses: seq<Clause>, classified: seq<ClassifiedEntry>, risks: seq<RiskResult>, advisory: AdvisoryResult)

  /** The four stages one after another on a fresh document; the first exception ends the run. */
  function Analyze(filePath: string, convert: string -> Conversion, split: string -> seq<string>, svc: Services)
    : Result<Report>
  {
    match Extracted(filePath, convert, split)
    case Failure(e) => Failure(e)
    case Success(clauses) =>
      match MapAll(clauses, ClassificationAgent.Classifier(svc))
      case Failure(e) => Failure(e)
      case Success(classified) =>
        match MapAll(classified, RiskAgent.RiskStep(svc))
        case Failure(e) => Failure(e)
        case Success(risks) =>
          match AdvisoryAgent.Advise(svc, risks)
          case Failure(e) => Failure(e)
          case Success(advisory) => Success(Report(clauses, classified, risks, advisory))
  }

  /** A complete run lines the stages up: clause `i` is `C<i+1>`, is the clause of the `i`-th
      classified entry and names the `i`-th risk record, and at most five recommendations are
      kept. */
  lemma AnalyzeAligned(filePath: string, convert: string -> Conversion, split: string -> seq<string>, svc: Services)
    requires Analyze(filePath, convert, split, svc).Success?
    ensures |Analyze(filePath, convert, split, svc).value.classified| == |Analyze(filePath, convert, split, svc).value.clauses|
    ensures |Analyze(filePath, convert, split, svc).value.risks| == |Analyze(filePath, convert, split, svc).value.clauses|
    ensures forall i :: 0 <= i < |Analyze(filePath, convert, split, svc).value.clauses| ==>
      && Analyze(filePath, convert, split, svc).value.clauses[i].clauseId == ClauseId(i + 1)
      && Analyze(filePath, convert, split, svc).value.classified[i].clause == Analyze(filePath, convert, split, svc).value.clauses[i]
      && Analyze(filePath, convert, split, svc).value.risks[i].clauseId == ClauseId(i + 1)
    ensures |Analyze(filePath, convert, split, svc).value.advisory.recommendations| <= 5
  {
    var report := Analyze(filePath, convert, split, svc).value;
    ExtractedClauses(filePath, convert, split);
    ClassificationAgent.ClassifiedAlign(svc, report.clauses);
    RiskAgent.RisksAlign(svc, report.classified);
  }

  /** Where a run ends, stage by stage: a stage that raises on what the stages before it
      produced ends the run with its exception, and four stages that succeed make the report. */
  lemma AnalyzeStages(filePath: string, convert: string -> Conversion, split: string -> seq<string>, svc: Services,
                      clauses: seq<Clause>, classified: seq<ClassifiedEntry>, risks: seq<RiskResult>)
    ensures Extracted(filePath, convert, split).Failure? ==>
      Analyze(filePath, convert, split, svc) == Failure(Extracted(filePath, convert, split).error)
    ensures Extracted(filePath, convert, split) == Success(clauses) ==>
      MapAll(clauses, ClassificationAgent.Classifier(svc)).Failure? ==>
      Analyze(filePath, convert, split, svc) == Failure(MapAll(clauses, ClassificationAgent.Classifier(svc)).error)
    ensures Extracted(filePath, convert, split) == Success(clauses) ==>
      MapAll(clauses, ClassificationAgent.Classifier(svc)) == Success(classified) ==>
      MapAll(classified, RiskAgent.RiskStep(svc)).Failure? ==>
      Analyze(filePath, convert, split, svc) == Failure(MapAll(classified, RiskAgent.RiskStep(svc)).error)
    ensures Extracted(filePath, convert, split) == Success(clauses) ==>
      MapAll(clauses, ClassificationAgent.Classifier(svc)) == Success(classified) ==>
      MapAll(classified, RiskAgent.RiskStep(svc)) == Success(risks) ==>
      AdvisoryAgent.Advise(svc, risks).Failure? ==>
      Analyze(filePath, convert, split, svc) == Failure(AdvisoryAgent.Advise(svc, risks).error)
    ensures Extracted(filePath, convert, split) == Success(clauses) ==>
      MapAll(clauses, ClassificationAgent.Classifier(svc)) == Success(classified) ==>
      MapAll(classified, RiskAgent.RiskStep(svc)) == Success(risks) ==>
      AdvisoryAgent.Advise(svc, risks).Success? ==>
      Analyze(filePath, convert, split, svc) ==
        Success(Report(clauses, classified, risks, AdvisoryAgent.Advise(svc, risks).value))
  {
  }

  /** `compiled_workflow.invoke(state)`: follows the edges from the entry and runs each node it
      reaches on the state the previous one left. A run that succeeds leaves the report of
      `Analyze` in the state; one that raises raises the exception of the first failing stage
      and stores no advisory. */
  method Invoke(state: ContractState, svc: Services, convert: string -> Conversion, split: string -> seq<string>)
    returns (r: Result<ContractState>)
    modifies state`clauses, state`classified, state`risks, state`advisory
    ensures r.Success? <==> Analyze(state.filePath, convert, split, svc).Success?
    ensures r.Success? ==>
      && r == Success(state)
      && state.clauses == Analyze(state.filePath, convert, split, svc).value.clauses
      && state.classified == Analyze(state.filePath, convert, split, svc).value.classified
      && state.risks == Analyze(state.filePath, convert, split, svc).value.risks
      && state.advisory == Some(Analyze(state.filePath, convert, split, svc).value.advisory)
    ensures r.Failure? ==>
      r.error == Analyze(state.filePath, convert, split, svc).error && state.advisory == old(state.advisory)
  {
    var filePath := state.filePath;
    var order := Visits(Entry);
    r := Success(state);
    var i := 0;
    // After `i` nodes, the first `i` stages have each stored what they compute from the
    // fields the stages before them stored.
    while i < |order|
      invariant 0 <= i <= |order| == 4
      invariant r == Success(state)
      invariant i >= 1 ==> Extracted(filePath, convert, split) == Success(state.clauses)
      invariant i >= 2 ==> MapAll(state.clauses, ClassificationAgent.Classifier(svc)) == Success(state.classified)
      invariant i >= 3 ==> MapAll(state.classified, RiskAgent.RiskStep(svc)) == Success(state.risks)
      invariant i == 4 ==>
        AdvisoryAgent.Advise(svc, state.risks).Success? && state.advisory == Some(AdvisoryAgent.Advise(svc, state.risks).value)
      invariant i < 4 ==> state.advisory == old(state.advisory)
    {
      match order[i] {
        case IngestionNode =>
          r := IngestionAgent.Run(state, convert, split);
          if r.Failure? {
            AnalyzeStages(filePath, convert, split, svc, state.clauses, state.classified, state.risks);
            assert Analyze(filePath, convert, split, svc) == Failure(r.error);
            return;
          }
        case ClassificationNode =>
          r := ClassificationAgent.Run(state, svc);
          if r.Failure? {
            AnalyzeStages(filePath, convert, split, svc, state.clauses, state.classified, state.risks);
            assert Analyze(filePath, convert, split, svc) == Failure(r.error);
            return;
          }
        case RiskNode =>
          r := RiskAgent.Run(state, svc);
          if r.Failure? {
            AnalyzeStages(filePath, convert, split, svc, state.clauses, state.classified, state.risks);
            assert Analyze(filePath, convert, split, svc) == Failure(r.error);
            return;
          }
        case AdvisoryNode =>
          r := AdvisoryAgent.Run(state, svc);
          if r.Failure? {
            AnalyzeStages(filePath, convert, split, svc, state.clauses, state.classified, state.risks);
            assert Analyze(filePath, convert, split, svc) == Failure(r.error);
            return;
          }
      }
      i := i + 1;
    }
    AnalyzeStages(filePath, convert, split, svc, state.clauses, state.classified, state.risks);
    assert Analyze(filePath, convert, split, svc) ==
      Success(Report(state.clauses, state.classified, state.risks, state.advisory.value));
  }
}
