# Contract analysis pipeline — a Dafny model

This project models the back end of a contract-compliance analyser. An uploaded contract goes
through four stages, each writing one field of a shared analysis state:

1. **ingestion** converts the document into blocks and segments them into numbered clauses;
2. **classification** labels every clause with Legal-BERT;
3. **risk** asks Flan-T5 for a compliance verdict on every classified clause and validates
   each verdict as a `RiskResult`;
4. **advisory** sends a digest of the risks to Gemini and keeps its answer as the executive
   summary, plus up to five recommendation lines.

The state is `Schema.ContractState`, a class whose fields the stages assign in place. Each
`Run` method may modify only its own field. The stage logic lives in pure functions:

- `DoclingParser.Segment` for clause extraction;
- `ResultSeq.MapAll` for a per-clause loop that stops at the first exception;
- the response rules of `LlmClients`;
- `AdvisoryAgent.Recommendations`.

Each method is proved against these functions. `Workflow.Analyze` composes them for a whole
run, and `Workflow.Invoke` is proved to leave exactly its report in the state.

External facilities are parameters of the model:

- the document converter (`convert`: a path gives blocks or an error);
- `re.split` with the clause-marker pattern (`split`);
- the two HTTP transports and the prompt template of the risk call (`LlmClients.Services`);
- `json.loads` and `json.dumps` (`JsonValue.JsonCodec`).

Python exceptions are values: an `Outcomes.Result` either holds the value or one `Outcomes.Error`.

Files, in dependency order:

- `outcomes.dfy`: Option, Result and the exceptions.
- `text_util.dfy`: `strip`, `splitlines`, `join`, `str(int)`.
- `json_value.dfy`: decoded JSON, truthiness, `get`, `x[k]`, `k in x`.
- `schema.dfy`: the records.
- `docling_parser.dfy`: clause extraction.
- `llm_clients.dfy`: the model clients.
- `result_seq.dfy`: the shared per-clause loop.
- One file per agent.
- `workflow.dfy`: the graph.

## Model

| member | source | states |
|---|---|---|
| Schema.ContractState.constructor | backend/app/Schema.py:4-10 | A fresh state has only `file_path` set: no clauses, classified entries or risks, no advisory, and `overall_score` 0.0. |
| Schema.NewClassifiedClause | backend/app/Schema.py:12-18 | `clause_id`, `text` and `cls_type` are required. An omitted `page` is 1, an omitted `section` is "Unknown", an omitted `confidence` is 0.0. |
| Schema.NewRiskResult | backend/app/Schema.py:20-26 | A record validates exactly when risk, framework, status and reason are strings and score is a number. It then holds those values; otherwise validation raises. |
| TextUtil.StripCharsSpec | backend/app/docling_parser.py:26 | `strip` returns the slice of its input between the removed ends; everything removed is in the character set, and the result neither starts nor ends with one. |
| TextUtil.Strip | backend/app/docling_parser.py:23-35 | `str.strip()` on Python's whitespace set; its meaning is given by `StripCharsSpec` and `StripCharsIdempotent`. |
| TextUtil.StripCharsIdempotent | backend/app/docling_parser.py:34-38 | Stripping a stripped string changes nothing. |
| TextUtil.SplitLinesJoin | backend/app/agents/advisory_agent.py:8-10 | `splitlines` undoes `"\n".join` when no part has a line boundary and the last part is not empty. |
| TextUtil.SplitLines | backend/app/agents/advisory_agent.py:16 | `str.splitlines()`: one line per line boundary, with no empty last line; `SplitLinesJoin` proves it undoes a newline join. |
| TextUtil.NatToStringInjective | backend/app/docling_parser.py:40 | Different counter values render as different decimal strings. |
| JsonValue.Subscript | backend/app/llm_clients.py:37-38 | `x[key]` succeeds exactly on a dict holding the key. A dict without it raises KeyError; any other value raises TypeError. |
| JsonValue.Contains | backend/app/llm_clients.py:68 | `key in x` is key membership for a dict, element membership for a list and substring for a string; any other value raises TypeError. |
| JsonValue.Get | backend/app/agents/risk_agent.py:30-34 | `d.get(key, default)` is the stored value when the key is present and the default when it is not. |
| DoclingParser.ClauseIdInjective | backend/app/docling_parser.py:37-40 | Different counter values give different ids `C{n}`. |
| DoclingParser.PairTextNonEmpty | backend/app/docling_parser.py:36-38 | A pair with a non-empty stripped part has non-empty, stripped text. |
| DoclingParser.PairAt | backend/app/docling_parser.py:33-38 | Pair `i` of a split: its clause text, or None when body and header are both blank. `PairAtSpec` and `PairTextNonEmpty` state what it yields. |
| DoclingParser.Pairs | backend/app/docling_parser.py:33 | One pair per step of `range(0, len(parts), 2)`. `YieldedAllSome`, `MarkerPair` and `MarkerPairing` state which texts the pairs yield. |
| DoclingParser.Emit | backend/app/docling_parser.py:36-44 | The clause records appended for the pairs that yield a text. `EmitSpec` states their ids, texts, page and section. |
| DoclingParser.PairAtSpec | backend/app/docling_parser.py:33-38 | Pair `i` (body `parts[i]`, header `parts[i+1]` or "") yields a clause exactly when its stripped body or header is non-empty. The text is then `f"{header} {body}".strip()` and is clean. |
| DoclingParser.EmitSpec | backend/app/docling_parser.py:36-44 | The clauses of a block are one per yielded text, in order, numbered on from the counter, on the block's page and under the current section. |
| DoclingParser.YieldedBound | backend/app/docling_parser.py:33 | No more texts are yielded than there are pairs. |
| DoclingParser.YieldedFrom | backend/app/docling_parser.py:33-38 | Every yielded text comes from some pair. |
| DoclingParser.YieldedAllSome | backend/app/docling_parser.py:33-38 | When every pair yields, the texts are all of them, in order. |
| DoclingParser.YieldedAllButLast | backend/app/docling_parser.py:33-38 | When all pairs but possibly the last yield, the texts are theirs in order, plus the last one's if it yields. |
| DoclingParser.PairTextMarker | backend/app/docling_parser.py:38 | A marker followed by a space and a stripped text needs no further stripping. |
| DoclingParser.PairTextBodyOnly | backend/app/docling_parser.py:35-38 | With no header, the clause text is the stripped body itself. |
| DoclingParser.MarkerPair | backend/app/docling_parser.py:33-38 | On a split of the expected shape, the body at part `2m` is labelled by the marker after it, at part `2m+1`, and always yields a clause. |
| DoclingParser.TailPair | backend/app/docling_parser.py:33-38 | The last pair, holding the text after the final marker, yields that text unless it is blank. |
| DoclingParser.MarkerPairing | backend/app/docling_parser.py:33-38 | On a split of the expected shape, clause text `j` is marker `2j+1` followed by part `2j`: each marker labels the text before it. The text after the last marker, when not blank, is a clause of its own. |
| DoclingParser.MarkerPairingExample | backend/app/docling_parser.py:33-38 | The split "Preamble", "1.1", "Scope", "1.2", "Exclusions" yields "1.1 Preamble", "1.2 Scope", "Exclusions". |
| DoclingParser.BlockClausesFacts | backend/app/docling_parser.py:22-44 | A block's clauses are numbered from the counter, have clean text, carry the block's page and the current section. A heading or a blank block yields none. |
| DoclingParser.BlockClausesBound | backend/app/docling_parser.py:33 | A text block yields at most `(len(parts)+1)/2` clauses. |
| DoclingParser.Segment | backend/app/docling_parser.py:16-46 | The block loop as a function of the blocks. Its meaning is stated by `SegmentIds`, `SegmentTexts`, `BlockSection`, `SegmentSections`, `SegmentNoSection`, `SegmentPages` and `SegmentPrefix`. |
| DoclingParser.SegmentStep | backend/app/docling_parser.py:20-44 | One more block appends that block's clauses and moves the section cursor only for a heading. |
| DoclingParser.SegmentIds | backend/app/docling_parser.py:17-40 | Clause ids are exactly `C1, C2, …, Cn` in emission order, across all blocks. |
| DoclingParser.SegmentIdsDistinct | backend/app/docling_parser.py:17-40 | No two extracted clauses share an id. |
| DoclingParser.SegmentTexts | backend/app/docling_parser.py:34-38 | Every extracted clause text is non-empty and has no surrounding whitespace. |
| DoclingParser.LatestHeading | backend/app/docling_parser.py:22-23 | The index of a heading block with no heading after it, or -1 when the document has no heading. |
| DoclingParser.CurrentSectionLatest | backend/app/docling_parser.py:18-24 | The section cursor is None before any heading. After one, it is the stripped text of the most recent heading. |
| DoclingParser.SegmentSections | backend/app/docling_parser.py:23-43 | Every clause's section, when set, is the stripped text of a heading block of the document. |
| DoclingParser.SegmentNoSection | backend/app/docling_parser.py:18-43 | A document without headings gives every clause section None. |
| DoclingParser.SegmentPages | backend/app/docling_parser.py:42 | Every clause's page is the page of a non-heading block. |
| DoclingParser.HeadingBlock | backend/app/docling_parser.py:22-24 | A heading block emits no clause and sets the section to its stripped text. |
| DoclingParser.BlankBlock | backend/app/docling_parser.py:26-28 | A block whose stripped text is empty emits nothing and leaves the section unchanged. |
| DoclingParser.SegmentPrefix | backend/app/docling_parser.py:20-44 | The clauses of a prefix of the document are a prefix of its clauses. |
| DoclingParser.BlockSection | backend/app/docling_parser.py:18-43 | The clauses of block `k` sit after those of the blocks before it. Each carries block `k`'s page and the stripped text of the most recent heading before block `k`, or None when no heading precedes it. |
| DoclingParser.AppendPartsClauses | backend/app/docling_parser.py:33-44 | The inner loop appends exactly the clauses `Emit` gives for the block's pairs and leaves the counter at the new clause count. |
| DoclingParser.Extracted | backend/app/docling_parser.py:11-48 | Extraction fails exactly when conversion does, with an error naming the path and the conversion message. Otherwise it gives `Segment` of the blocks. |
| DoclingParser.ExtractedClauses | backend/app/docling_parser.py:37-44 | Extracted clauses are `C1…Cn` in order, each with clean text. |
| DoclingParser.ExtractClauses | backend/app/docling_parser.py:4-48 | The block loop returns exactly `Extracted`: an error naming the file path when conversion fails, otherwise the segmented clauses. |
| LlmClients.CallHf | backend/app/llm_clients.py:16-22 | A status other than 200 raises an error with that status and body. A call succeeds exactly when the transport answers 200 with a JSON body, and returns that body decoded. |
| LlmClients.Greater | backend/app/llm_clients.py:37 | Two scores compare exactly when both are numbers or booleans, by value; otherwise TypeError. |
| LlmClients.MaxByScore | backend/app/llm_clients.py:37 | The chosen index is in range and its score can be looked up. |
| LlmClients.MaxByScoreSpec | backend/app/llm_clients.py:37 | `max` answers exactly when the list is non-empty and its scores can be looked up and compared. An empty list raises ValueError. No entry scores above the chosen one, and every earlier entry scores strictly below it, so ties go to the first. |
| LlmClients.ClassifyFrom | backend/app/llm_clients.py:36-41 | A successful answer is a dict with keys `type` and `confidence`. |
| LlmClients.ClassifyFromBest | backend/app/llm_clients.py:36-38 | For a non-empty list whose first element is a list, `type` and `confidence` are the `label` and `score` of one entry of `data[0]`, and no entry scores higher. An empty `data[0]` raises ValueError. |
| LlmClients.ClassifyFromFallback | backend/app/llm_clients.py:36-41 | Any other response shape yields exactly `{type: "Other", confidence: 0.5}`. |
| LlmClients.ClassifyClauseBert | backend/app/llm_clients.py:27-41 | `{"inputs": clause_text}` is posted to Legal-BERT. An error of the call propagates; a successful call's answer is read by `ClassifyFrom`. A successful result always holds `type` and `confidence`. |
| LlmClients.RiskFrom | backend/app/llm_clients.py:68-81 | A non-list response yields the fallback record Medium/IRDAI/Partial/"Fallback"/0.5. An empty list raises IndexError. Other failures come from `in` or `[]` outside the `try`, as TypeError. |
| LlmClients.RiskFromGenerated | backend/app/llm_clients.py:68-79 | When `data[0]` holds `generated_text`: text that parses is returned unchanged, and text that does not parse, or is not a string, yields the fallback record. |
| LlmClients.RiskFromMissingKey | backend/app/llm_clients.py:68-81 | A first entry without `generated_text` yields the fallback record. |
| LlmClients.AnalyzeRiskT5 | backend/app/llm_clients.py:46-81 | An error of the Flan-T5 call propagates. Otherwise the answer is `RiskFrom` of the decoded response. |
| LlmClients.GeminiText | backend/app/llm_clients.py:100 | The answer is `text` if truthy, else `output` if truthy, else the serialised response. A non-dict response has no `get` and raises AttributeError. |
| LlmClients.GeminiTextShape | backend/app/llm_clients.py:100 | For a dict, the answer is a truthy value of one of its fields or the serialised response. |
| LlmClients.CallGemini | backend/app/llm_clients.py:86-100 | A status other than 200 raises an error with status and body. A body that is not JSON raises JsonDecodeError; a body that is goes through `GeminiText`. |
| ResultSeq.MapAll | backend/app/agents/classification_agent.py:8-12 | A successful run has one result per input. |
| ResultSeq.MapAllSuccess | backend/app/agents/classification_agent.py:8-12 | The run succeeds exactly when every step does, and result `i` is the step's result on input `i`. |
| ResultSeq.MapAllFirstFailure | backend/app/agents/classification_agent.py:10 | When step `k` is the first to raise, the run raises its exception. |
| ResultSeq.MapAllFailure | backend/app/agents/classification_agent.py:10 | A run that raises raises the exception of the first step that raises. |
| ResultSeq.MapAllStep | backend/app/agents/classification_agent.py:9-11 | One more input appends that input's result. |
| IngestionAgent.Run | backend/app/agents/ingestion_agent.py:8-9 | Only `clauses` is written: the extractor's result for `file_path`. The same state is returned. An extraction error propagates and writes nothing. |
| ClassificationAgent.ClassifyEntry | backend/app/agents/classification_agent.py:10-11 | An entry keeps its clause and fails exactly when the classifier call does, with that error. |
| ClassificationAgent.ClassifiedAlign | backend/app/agents/classification_agent.py:9-11 | A successful stage has one entry per clause, in order. Entry `i` keeps clause `i` and carries the classifier's `type` and `confidence` for that clause's text. |
| ClassificationAgent.ClassifiedFailure | backend/app/agents/classification_agent.py:10 | The stage raises exactly when the classifier raises on some clause, with the exception of the first such clause. |
| ClassificationAgent.Run | backend/app/agents/classification_agent.py:8-13 | Only `classified` is written, with the stage's entries. A classifier exception aborts before anything is written. |
| RiskAgent.Analysis | backend/app/agents/risk_agent.py:16-26 | The result is Flan-T5's answer, or the fallback record when the call raises. |
| RiskAgent.RiskOf | backend/app/agents/risk_agent.py:28-35 | A result that is not a dict raises AttributeError. A dict validates exactly when each key present holds a value of its field's type, and otherwise raises a validation error. Each field of the record is then the value under its key, or its default (Medium, IRDAI, Partial, "Fallback", 0.5) when the key is missing, under the clause's id. |
| RiskAgent.FallbackRecord | backend/app/agents/risk_agent.py:20-35 | The fallback record validates as Medium/IRDAI/Partial/"Fallback"/0.5 under the clause's id. |
| RiskAgent.AnalysisFailureFallsBack | backend/app/agents/risk_agent.py:16-35 | A clause whose analysis raises still gets the fallback record under its own id. |
| RiskAgent.EmptyAnswerDefaults | backend/app/agents/risk_agent.py:30-34 | An answer with no keys validates to the fallback record: every field takes its default. |
| RiskAgent.RiskOfSpec | backend/app/agents/risk_agent.py:28-35 | A record keeps the clause's id. Building one fails only with AttributeError or a validation error, and a non-number score or non-string risk fails validation. |
| RiskAgent.RisksAlign | backend/app/agents/risk_agent.py:29-43 | A successful stage has one record per classified clause, in order, each under its clause's id. |
| RiskAgent.RisksFailure | backend/app/agents/risk_agent.py:28-41 | The stage raises exactly when some clause's record cannot be built, with the exception of the first such clause. |
| RiskAgent.Run | backend/app/agents/risk_agent.py:13-44 | Only `risks` is written, so `overall_score` keeps its value. A failing validation propagates before anything is written. |
| AdvisoryAgent.DigestLines | backend/app/agents/advisory_agent.py:8-10 | One line `"{clause_id} - {risk} - {reason}"` per risk, in list order. |
| AdvisoryAgent.DigestLineShape | backend/app/agents/advisory_agent.py:9 | A digest line of single-line fields has no line boundary and is not empty. |
| AdvisoryAgent.DigestSplits | backend/app/agents/advisory_agent.py:8-10 | Read back line by line, the digest gives exactly one line per risk, in order; no risks give no lines. |
| AdvisoryAgent.Kept | backend/app/agents/advisory_agent.py:16 | The list comprehension over the model's lines. `KeptSpec` states which lines it keeps and how it trims them. |
| AdvisoryAgent.KeptSpec | backend/app/agents/advisory_agent.py:16 | At increasing positions, the comprehension keeps every line whose stripped length exceeds 10 and no other, each with `-`, `*` and space stripped from its ends. |
| AdvisoryAgent.Recommendations | backend/app/agents/advisory_agent.py:16-18 | At most 5 recommendations are kept, the first ones in line order, and all when there are 5 or fewer. |
| AdvisoryAgent.RecommendationsTrimmed | backend/app/agents/advisory_agent.py:16 | No recommendation begins or ends with `-`, `*` or space. |
| AdvisoryAgent.AdviseFrom | backend/app/agents/advisory_agent.py:15-18 | The summary is the model text unchanged, stored with its recommendations. A non-string answer has no `splitlines` and raises AttributeError. |
| AdvisoryAgent.Advise | backend/app/agents/advisory_agent.py:8-18 | Gemini is asked about the digest prompt with the default token limit, and its errors propagate. |
| AdvisoryAgent.Run | backend/app/agents/advisory_agent.py:3-19 | Only `advisory` is written. An exception leaves it as it was. |
| Workflow.Next | backend/app/workflow.py:16-18 | The three edges, ingestion to classification to risk to advisory. `Visits` and `RunOrder` state the run order they give. |
| Workflow.Visits | backend/app/workflow.py:15-18 | Following the edges from a node visits one node per depth, ending at the node without an edge. |
| Workflow.RunOrder | backend/app/workflow.py:10-20 | From the entry, a run visits ingestion, classification, risk and advisory, each exactly once and in that order. |
| Workflow.Analyze | backend/app/workflow.py:9-20 | The four stage functions in graph order, stopping at the first exception. `AnalyzeStages` states where a run ends, `AnalyzeAligned` how a complete report lines up, and `Invoke` that a run of the graph computes it. |
| Workflow.AnalyzeStages | backend/app/workflow.py:15-18 | A stage that raises on what the stages before it produced ends the run with its exception. Four successful stages make the report. |
| Workflow.AnalyzeAligned | backend/app/workflow.py:15-20 | After a complete run, clause `i` is `C<i+1>`, is the clause of classified entry `i` and names risk record `i`. At most five recommendations are kept. |
| Workflow.Invoke | backend/app/workflow.py:9-20 | The run follows the edges from the entry and runs each node it reaches on the state the previous node left. It succeeds exactly when `Analyze` does, and then leaves its report in the state. A failing run raises the first failing stage's exception and stores no advisory. |

## Left out

- Document conversion is not modelled: `DocumentConverter().convert` is the `convert` parameter, a document is a list of blocks, `item_type == 'heading'` is `isHeading`, and `page_no`/`page` is `page`.
  - The `try` at backend/app/docling_parser.py:11-48 is modelled only for conversion failures, the one source of exceptions the model has.
- The clause-marker regular expression is not modelled: `re.split(clause_pattern, text)` is the `split` parameter. Only the marker-pairing lemmas assume the shape such a split has (odd length, stripped non-empty markers at the odd positions).
- HTTP is not modelled: the `httpx` clients and their timeouts, the `Authorization` headers, the API keys read from the environment and the Gemini URL. The transports are parameters.
- The compliance prompt wording of `analyze_risk_t5` (backend/app/llm_clients.py:51-63) is the `riskPrompt` parameter, so `str(cls_type)` formatting is not modelled.
- `json.loads` and `json.dumps` are parameters. JSON integers and floats are both reals, with no rounding.
- LlmClients.Greater: Python also orders two strings, or two lists, lexicographically. Here only numbers and booleans compare, and any other pair of scores raises TypeError.
- Schema.NewRiskResult: pydantic's lax coercions are not modelled, for example a numeric string or a boolean accepted as `score`, or an integer turned into a string field. Only a JSON string validates as a string field and only a JSON number as `score`.
- RiskAgent.RiskOf: pydantic's lax coercions are not modelled, for example a numeric string or a boolean accepted as `score`. A string field needs a JSON string and `score` needs a JSON number.
- RiskAgent.Run: the tasks of `asyncio.gather` run one after another in clause order. In the source, `risks_list` is filled in completion order, and the exception raised is the first one to occur in time. The failure `print` is left out.
- `async`/`await` is not modelled; every stage is a sequential method.
- The classification and advisory agents subscript the state (`state["clauses"]`, `state["risks"]`, `state["advisory"] = ...`), but the state is a pydantic model with attributes. The model reads both as field access. LangGraph's own conversion of node results into the graph state is also not modelled.
- The `{**c, ...}` dict merge is modelled as an entry that wraps its clause; keys are not compared one by one.
- `ClassifiedClause` and `AdvisoryResult` are not built by the pipeline. Only their defaults and shape are modelled.
- `advisory`'s empty-dict default is `None`.
- `overall_score` is never recomputed by any stage.
- backend/app/main.py (the FastAPI route, base64 decoding, temporary files) is not part of this model. Neither are backend/app/schemas.py and the Streamlit front ends in backend/frontend/.
