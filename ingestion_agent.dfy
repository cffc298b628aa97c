/** The ingestion stage (backend/app/agents/ingestion_agent.py): the state's clauses become
    the clauses extracted from its file. */
module IngestionAgent {
  import opened Outcomes
  import opened Schema
  import opened DoclingParser

  /** `ingestion_agent(state)`: replaces `clauses` with the clauses of `file_path` and returns
      the same state; when extraction raises, the exception propagates and nothing is written. */
  method Run(state: ContractState, convert: string -> Conversion, split: string -> seq<string>)
    returns (r: Result<ContractState>)
    modifies state`clauses
    ensures Extracted(state.filePath, convert, split).Success? ==>
      r == Success(state) && state.clauses == Extracted(state.filePath, convert, split).value
    ensures Extracted(state.filePath, convert, split).Failure? ==>
      r == Failure(Extracted(state.filePath, convert, split).error) && state.clauses == old(state.clauses)
  {
    var extracted := ExtractClauses(state.filePath, convert, split);
    if extracted.Failure? {
      return Failure(extracted.error);
    }
    state.clauses := extracted.value;
    return Success(state);
  }
}
