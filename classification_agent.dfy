/** The classification stage (backend/app/agents/classification_agent.py): each clause, in
    order, is sent to Legal-BERT and annotated with the label and confidence it answers. */
module ClassificationAgent {
  import opened Outcomes
  import opened JsonValue
  import opened Schema
  import opened LlmClients
  import opened ResultSeq

  /** One loop iteration: `{**c, "cls_type": result["type"], "confidence": result["confidence"]}`
      for the classifier's answer on the clause text. The answer always holds both keys, so
      only the classifier call itself can raise. */
  function ClassifyEntry(svc: Services, c: Clause): (r: Result<ClassifiedEntry>)
    ensures r.Success? <==> ClassifyClauseBert(svc, c.text).Success?
    ensures r.Failure? ==> r.error == ClassifyClauseBert(svc, c.text).error
    ensures r.Success? ==> r.value.clause == c
  {
    match ClassifyClauseBert(svc, c.text)
    case Failure(e) => Failure(e)
    case Success(result) => Success(ClassifiedEntry(c, result.fields["type"], result.fields["confidence"]))
  }

  /** The loop body as a step over clauses. */
  function Classifier(svc: Services): Clause -> Result<ClassifiedEntry>
  {
    c => ClassifyEntry(svc, c)
  }

  /** When the stage succeeds, it holds one entry per clause, in clause order, each keeping its
      clause and carrying the type and confidence the classifier answered for that clause's
      text. */
  lemma ClassifiedAlign(svc: Services, clauses: seq<Clause>)
    requires MapAll(clauses, Classifier(svc)).Success?
    ensures |MapAll(clauses, Classifier(svc)).value| == |clauses|
    ensures forall i :: 0 <= i < |clauses| ==>
      && MapAll(clauses, Classifier(svc)).value[i].clause == clauses[i]
      && ClassifyClauseBert(svc, clauses[i].text).Success?
      && MapAll(clauses, Classifier(svc)).value[i].clsType == ClassifyClauseBert(svc, clauses[i].text).value.fields["type"]
      && MapAll(clauses, Classifier(svc)).value[i].confidence
         == ClassifyClauseBert(svc, clauses[i].text).value.fields["confidence"]
  {
    MapAllSuccess(clauses, Classifier(svc));
  }

  /** The stage raises exactly when the classifier raises on some clause, and then it raises
      what the classifier raised on the first such clause. */
  lemma ClassifiedFailure(svc: Services, clauses: seq<Clause>)
    ensures MapAll(clauses, Classifier(svc)).Failure? <==>
      exists i :: 0 <= i < |clauses| && ClassifyClauseBert(svc, clauses[i].text).Failure?
    ensures MapAll(clauses, Classifier(svc)).Failure? ==>
      exists k :: 0 <= k < |clauses| && ClassifyClauseBert(svc, clauses[k].text).Failure?
        && (forall i :: 0 <= i < k ==> ClassifyClauseBert(svc, clauses[i].text).Success?)
        && MapAll(clauses, Classifier(svc)).error == ClassifyClauseBert(svc, clauses[k].text).error
  {
    MapAllSuccess(clauses, Classifier(svc));
    MapAllFailure(clauses, Classifier(svc));
  }

  /** `classification_agent(state)`: classifies the clauses one after another and stores the
      entries in `classified`; an exception of any call propagates before anything is stored. */
  method Run(state: ContractState, svc: Services) returns (r: Result<ContractState>)
    modifies state`classified
    ensures MapAll(state.clauses, Classifier(svc)).Success? ==>
      r == Success(state) && state.classified == MapAll(state.clauses, Classifier(svc)).value
    ensures MapAll(state.clauses, Classifier(svc)).Failure? ==>
      r == Failure(MapAll(state.clauses, Classifier(svc)).error) && state.classified == old(state.classified)
  {
    var clauses := state.clauses;
    var out: seq<ClassifiedEntry> := [];
    for k := 0 to |clauses|
      invariant MapAll(clauses[..k], Classifier(svc)) == Success(out)
      invariant state.classified == old(state.classified)
    {
      var result := ClassifyEntry(svc, clauses[k]);
      if result.Failure? {
        MapAllSuccess(clauses[..k], Classifier(svc));
        assert forall i :: 0 <= i < k ==> clauses[..k][i] == clauses[i];
        MapAllFirstFailure(clauses, k, Classifier(svc));
        return Failure(result.error);
      }
      MapAllStep(clauses, k, Classifier(svc));
      out := out + [result.value];
    }
    assert clauses[..|clauses|] == clauses;
    state.classified := out;
    return Success(state);
  }
}
