/** The model clients (backend/app/llm_clients.py): the HTTP error rule, the Legal-BERT label
    choice, the Flan-T5 parse-or-fallback rule and the Gemini text choice. The transports and
    the JSON codec are parameters: the model says what is done with their answers. */
module LlmClients {
  import opened Outcomes
  import opened JsonValue

  /** What an HTTP POST answers: the status code and the body text. */
  datatype HttpResponse = HttpResponse(status: int, body: string)

  /** The outside world the clients talk to. `hfPost(url, payload)` and `geminiPost(payload)`
      answer a response or a transport exception; `riskPrompt(clause_text, cls_type)` is the
      compliance prompt `analyze_risk_t5` formats. */
  datatype Services = Services(
    hfPost: (string, Json) -> Result<HttpResponse>,
    geminiPost: Json -> Result<HttpResponse>,
    codec: JsonCodec,
    riskPrompt: (string, Json) -> string)

  const LegalBertUrl: string := "https://api-inference.huggingface.co/models/nlpaueb/legal-bert-base-uncased"
  const FlanT5Url: string := "https://api-inference.huggingface.co/models/google/flan-t5-large"

  /** The default `max_tokens` of `call_gemini`. */
  const DefaultMaxTokens: int := 512

  /** `call_hf(model_url, payload)`: any status other than 200 raises an error carrying the
      status and body; a 200 answer is decoded as JSON. */
  function CallHf(svc: Services, modelUrl: string, payload: Json): (r: Result<Json>)
    ensures svc.hfPost(modelUrl, payload).Failure? ==> r == Failure(svc.hfPost(modelUrl, payload).error)
    ensures svc.hfPost(modelUrl, payload).Success? && svc.hfPost(modelUrl, payload).value.status != 200 ==>
      r == Failure(HfApiError(svc.hfPost(modelUrl, payload).value.status, svc.hfPost(modelUrl, payload).value.body))
    ensures r.Success? <==>
      svc.hfPost(modelUrl, payload).Success? && svc.hfPost(modelUrl, payload).value.status == 200
      && svc.codec.parse(svc.hfPost(modelUrl, payload).value.body).Some?
    ensures r.Success? ==> Some(r.value) == svc.codec.parse(svc.hfPost(modelUrl, payload).value.body)
  {
    match svc.hfPost(modelUrl, payload)
    case Failure(e) => Failure(e)
    case Success(resp) =>
      if resp.status != 200 then Failure(HfApiError(resp.status, resp.body))
      else
        match svc.codec.parse(resp.body)
        case None => Failure(JsonDecodeError)
        case Some(data) => Success(data)
  }

  /** The value Python compares for a JSON number or boolean (`True` is 1); None for the rest. */
  function Numeric(j: Json): Option<real>
  {
    match j
    case JNum(n) => Some(n)
    case JBool(b) => Some(if b then 1.0 else 0.0)
    case _ => None
  }

  /** Python's `a > b` for two scores: numbers and booleans compare by value; any other pair
      raises TypeError. */
  function Greater(a: Json, b: Json): (r: Result<bool>)
    ensures r.Success? <==> Numeric(a).Some? && Numeric(b).Some?
    ensures r.Success? ==> r.value == (Numeric(a).value > Numeric(b).value)
    ensures r.Failure? ==> r.error == TypeError
  {
    match (Numeric(a), Numeric(b))
    case (Some(x), Some(y)) => Success(x > y)
    case _ => Failure(TypeError)
  }

  /** The key `lambda x: x["score"]`. */
  function ScoreOf(x: Json): Result<Json>
  {
    Subscript(x, "score")
  }

  /** `max(items, key=lambda x: x["score"])`, as the index of the entry chosen. The keys are
      taken left to right and each is compared with the best so far, which is replaced only by
      a strictly greater key; the first failing lookup or comparison is raised, and an empty
      list raises ValueError. */
  function MaxByScore(items: seq<Json>): (r: Result<nat>)
    ensures r.Success? ==> r.value < |items| && ScoreOf(items[r.value]).Success?
    decreases |items|
  {
    if items == [] then Failure(ValueError)
    else if |items| == 1 then
      match ScoreOf(items[0])
      case Failure(e) => Failure(e)
      case Success(_) => Success(0)
    else
      match MaxByScore(items[..|items| - 1])
      case Failure(e) => Failure(e)
      case Success(b) =>
        assert items[..|items| - 1][b] == items[b];
        match ScoreOf(items[|items| - 1])
        case Failure(e) => Failure(e)
        case Success(k) =>
          match Greater(k, ScoreOf(items[b]).value)
          case Failure(e) => Failure(e)
          case Success(greater) => Success(if greater then |items| - 1 else b)
  }

  /** Every score of `items` is looked up without error and, when there are two or more
      entries, is a number. */
  predicate Comparable(items: seq<Json>)
  {
    && (forall j :: 0 <= j < |items| ==> ScoreOf(items[j]).Success?)
    && (|items| >= 2 ==> forall j :: 0 <= j < |items| ==> Numeric(ScoreOf(items[j]).value).Some?)
  }

  /** The score of entry `j`, as a number (0 when it is not one). */
  function ScoreValue(items: seq<Json>, j: nat): real
    requires j < |items|
  {
    match ScoreOf(items[j])
    case Success(k) => (match Numeric(k) case Some(x) => x case None => 0.0)
    case Failure(_) => 0.0
  }

  /** `max` answers exactly when the list is non-empty and its scores can be looked up and
      compared; it then picks an entry that no other entry beats, and the first of the tied
      ones. */
  lemma {:induction false} MaxByScoreSpec(items: seq<Json>)
    ensures MaxByScore(items).Success? <==> items != [] && Comparable(items)
    ensures items == [] ==> MaxByScore(items) == Failure(ValueError)
    ensures MaxByScore(items).Success? ==>
      forall j :: 0 <= j < |items| ==> ScoreValue(items, j) <= ScoreValue(items, MaxByScore(items).value)
    ensures MaxByScore(items).Success? ==>
      forall j :: 0 <= j < MaxByScore(items).value ==> ScoreValue(items, j) < ScoreValue(items, MaxByScore(items).value)
    decreases |items|
  {
    if |items| >= 2 {
      var init := items[..|items| - 1];
      MaxByScoreSpec(init);
      assert forall j :: 0 <= j < |init| ==> init[j] == items[j];
      var last := |items| - 1;
      if MaxByScore(init).Success? {
        var b := MaxByScore(init).value;
        assert init[b] == items[b];
        assert forall j :: 0 <= j < |init| ==> ScoreValue(init, j) == ScoreValue(items, j);
      }
      if Comparable(items) {
        assert Comparable(init);
      }
    }
  }

  /** The answer `classify_clause_bert` gives when the response has any other shape. */
  const OtherFallback: Json := JObj(map["type" := JStr("Other"), "confidence" := JNum(0.5)])

  /** The classifier's answer for a decoded response: for a non-empty list whose first element
      is a list, the `label` and `score` of the best-scoring entry of that inner list; the
      fixed `Other`/0.5 answer for any other shape. */
  function ClassifyFrom(data: Json): (r: Result<Json>)
    ensures r.Success? ==> r.value.JObj? && "type" in r.value.fields && "confidence" in r.value.fields
  {
    if data.JArr? && |data.items| > 0 && data.items[0].JArr? then
      var entries := data.items[0].items;
      match MaxByScore(entries)
      case Failure(e) => Failure(e)
      case Success(b) =>
        match Subscript(entries[b], "label")
        case Failure(e) => Failure(e)
        case Success(name) => Success(JObj(map["type" := name, "confidence" := ScoreOf(entries[b]).value]))
    else Success(OtherFallback)
  }

  /** A response shaped as a list of score lists yields the label and score of one entry of
      the first list, and no entry of that list has a higher score; a failure of `max` or of the
      `label` lookup propagates. */
  lemma ClassifyFromBest(data: Json)
    requires data.JArr? && |data.items| > 0 && data.items[0].JArr?
    ensures ClassifyFrom(data).Success? ==>
      exists b :: 0 <= b < |data.items[0].items|
        && Subscript(data.items[0].items[b], "label") == Success(ClassifyFrom(data).value.fields["type"])
        && ScoreOf(data.items[0].items[b]) == Success(ClassifyFrom(data).value.fields["confidence"])
        && forall j :: 0 <= j < |data.items[0].items| ==>
             ScoreValue(data.items[0].items, j) <= ScoreValue(data.items[0].items, b)
    ensures data.items[0].items == [] ==> ClassifyFrom(data) == Failure(ValueError)
  {
    var entries := data.items[0].items;
    MaxByScoreSpec(entries);
    if ClassifyFrom(data).Success? {
      var b := MaxByScore(entries).value;
      assert Subscript(entries[b], "label") == Success(ClassifyFrom(data).value.fields["type"]);
    }
  }

  /** Any response that is not a non-empty list with a list first yields exactly the fixed
      `Other`/0.5 answer. */
  lemma ClassifyFromFallback(data: Json)
    requires !(data.JArr? && |data.items| > 0 && data.items[0].JArr?)
    ensures ClassifyFrom(data) == Success(OtherFallback)
  {
  }

  /** `classify_clause_bert(clause_text)`: posts `{"inputs": clause_text}` to Legal-BERT; a
      failed post raises its error, and an answer is read by `ClassifyFrom`. */
  function ClassifyClauseBert(svc: Services, clauseText: string): (r: Result<Json>)
    ensures r.Success? ==> r.value.JObj? && "type" in r.value.fields && "confidence" in r.value.fields
    ensures CallHf(svc, LegalBertUrl, JObj(map["inputs" := JStr(clauseText)])).Success? ==>
      r == ClassifyFrom(CallHf(svc, LegalBertUrl, JObj(map["inputs" := JStr(clauseText)])).value)
    ensures CallHf(svc, LegalBertUrl, JObj(map["inputs" := JStr(clauseText)])).Failure? ==>
      r == CallHf(svc, LegalBertUrl, JObj(map["inputs" := JStr(clauseText)]))
  {
    match CallHf(svc, LegalBertUrl, JObj(map["inputs" := JStr(clauseText)]))
    case Failure(e) => Failure(e)
    case Success(data) => ClassifyFrom(data)
  }

  /** The record `analyze_risk_t5` and the risk stage fall back to. */
  const RiskFallback: Json := JObj(map[
    "risk" := JStr("Medium"), "framework" := JStr("IRDAI"), "status" := JStr("Partial"),
    "reason" := JStr("Fallback"), "score" := JNum(0.5)])

  /** The risk adapter's answer for a decoded response: a list whose first element has
      `generated_text` yields that text parsed as JSON, or the fallback record when it does not
      parse (the bare `except` also catches a non-string text); a non-list, or a first element
      without the key, yields the fallback. An empty list raises IndexError, and a first
      element that cannot be searched or subscripted raises TypeError: both lie outside the
      `try`. */
  function RiskFrom(data: Json, codec: JsonCodec): (r: Result<Json>)
    ensures !data.JArr? ==> r == Success(RiskFallback)
    ensures data == JArr([]) ==> r == Failure(IndexError)
    ensures r.Failure? ==> r.error == IndexError || r.error == TypeError
  {
    if !data.JArr? then Success(RiskFallback)
    else if data.items == [] then Failure(IndexError)
    else
      var first := data.items[0];
      match Contains(first, "generated_text")
      case Failure(e) => Failure(e)
      case Success(found) =>
        if !found then Success(RiskFallback)
        else
          match Subscript(first, "generated_text")
          case Failure(e) => Failure(e)
          case Success(text) =>
            if text.JStr? && codec.parse(text.s).Some? then Success(codec.parse(text.s).value)
            else Success(RiskFallback)
  }

  /** When the first entry is a dict holding `generated_text`, the parsed text is returned
      unchanged if it parses, and the fallback record otherwise. */
  lemma RiskFromGenerated(data: Json, codec: JsonCodec)
    requires data.JArr? && data.items != [] && data.items[0].JObj?
    requires "generated_text" in data.items[0].fields
    ensures data.items[0].fields["generated_text"].JStr?
            && codec.parse(data.items[0].fields["generated_text"].s).Some? ==>
      RiskFrom(data, codec) == Success(codec.parse(data.items[0].fields["generated_text"].s).value)
    ensures !(data.items[0].fields["generated_text"].JStr?
              && codec.parse(data.items[0].fields["generated_text"].s).Some?) ==>
      RiskFrom(data, codec) == Success(RiskFallback)
  {
  }

  /** A list whose first entry is a dict without `generated_text` yields the fallback record. */
  lemma RiskFromMissingKey(data: Json, codec: JsonCodec)
    requires data.JArr? && data.items != [] && data.items[0].JObj?
    requires "generated_text" !in data.items[0].fields
    ensures RiskFrom(data, codec) == Success(RiskFallback)
  {
  }

  /** The Flan-T5 payload: the prompt and `max_new_tokens` 200. */
  function RiskPayload(prompt: string): Json
  {
    JObj(map["inputs" := JStr(prompt), "parameters" := JObj(map["max_new_tokens" := JNum(200.0)])])
  }

  /** `analyze_risk_t5(clause_text, cls_type)`: posts the compliance prompt to Flan-T5; an
      error of the call itself propagates. */
  function AnalyzeRiskT5(svc: Services, clauseText: string, clsType: Json): (r: Result<Json>)
    ensures CallHf(svc, FlanT5Url, RiskPayload(svc.riskPrompt(clauseText, clsType))).Failure? ==>
      r == CallHf(svc, FlanT5Url, RiskPayload(svc.riskPrompt(clauseText, clsType)))
    ensures CallHf(svc, FlanT5Url, RiskPayload(svc.riskPrompt(clauseText, clsType))).Success? ==>
      r == RiskFrom(CallHf(svc, FlanT5Url, RiskPayload(svc.riskPrompt(clauseText, clsType))).value, svc.codec)
  {
    match CallHf(svc, FlanT5Url, RiskPayload(svc.riskPrompt(clauseText, clsType)))
    case Failure(e) => Failure(e)
    case Success(data) => RiskFrom(data, svc.codec)
  }

  /** The text `call_gemini` returns for a decoded response, `data.get("text") or
      data.get("output") or json.dumps(data)`: the first truthy one of the two fields, else
      the serialised response. A response that is not a dict has no `get`. */
  function GeminiText(data: Json, codec: JsonCodec): (r: Result<Json>)
    ensures !data.JObj? ==> r == Failure(AttributeError)
    ensures data.JObj? && "text" in data.fields && Truthy(data.fields["text"]) ==>
      r == Success(data.fields["text"])
    ensures data.JObj? && !("text" in data.fields && Truthy(data.fields["text"]))
            && "output" in data.fields && Truthy(data.fields["output"]) ==>
      r == Success(data.fields["output"])
    ensures data.JObj? && !("text" in data.fields && Truthy(data.fields["text"]))
            && !("output" in data.fields && Truthy(data.fields["output"])) ==>
      r == Success(JStr(codec.dump(data)))
  {
    match data
    case JObj(fields) =>
      var text := Get(fields, "text", JNull);
      if Truthy(text) then Success(text)
      else
        var output := Get(fields, "output", JNull);
        if Truthy(output) then Success(output) else Success(JStr(codec.dump(data)))
    case _ => Failure(AttributeError)
  }

  /** What `call_gemini` answers is never falsy: a truthy field, or the serialised response. */
  lemma GeminiTextShape(data: Json, codec: JsonCodec)
    requires data.JObj?
    ensures GeminiText(data, codec).Success?
    ensures Truthy(GeminiText(data, codec).value) || GeminiText(data, codec).value == JStr(codec.dump(data))
    ensures GeminiText(data, codec).value == JStr(codec.dump(data))
            || GeminiText(data, codec).value in data.fields.Values
  {
  }

  /** The Gemini payload: the prompt, the token limit and temperature 0.2. */
  function GeminiPayload(prompt: string, maxTokens: int): Json
  {
    JObj(map["prompt" := JStr(prompt), "max_output_tokens" := JNum(maxTokens as real),
             "temperature" := JNum(0.2)])
  }

  /** `call_gemini(prompt, max_tokens)`: a status other than 200 raises an error carrying the
      status and body; otherwise the decoded response's text is chosen by `GeminiText`. */
  function CallGemini(svc: Services, prompt: string, maxTokens: int): (r: Result<Json>)
    ensures svc.geminiPost(GeminiPayload(prompt, maxTokens)).Failure? ==>
      r == Failure(svc.geminiPost(GeminiPayload(prompt, maxTokens)).error)
    ensures svc.geminiPost(GeminiPayload(prompt, maxTokens)).Success?
            && svc.geminiPost(GeminiPayload(prompt, maxTokens)).value.status != 200 ==>
      r == Failure(GeminiApiError(svc.geminiPost(GeminiPayload(prompt, maxTokens)).value.status,
                                  svc.geminiPost(GeminiPayload(prompt, maxTokens)).value.body))
    ensures svc.geminiPost(GeminiPayload(prompt, maxTokens)).Success?
            && svc.geminiPost(GeminiPayload(prompt, maxTokens)).value.status == 200 ==>
      match svc.codec.parse(svc.geminiPost(GeminiPayload(prompt, maxTokens)).value.body)
      case None => r == Failure(JsonDecodeError)
      case Some(data) => r == GeminiText(data, svc.codec)
  {
    match svc.geminiPost(GeminiPayload(prompt, maxTokens))
    case Failure(e) => Failure(e)
    case Success(resp) =>
      if resp.status != 200 then Failure(GeminiApiError(resp.status, resp.body))
      else
        match svc.codec.parse(resp.body)
        case None => Failure(JsonDecodeError)
        case Some(data) => GeminiText(data, svc.codec)
  }
}
