/** The advisory stage (backend/app/agents/advisory_agent.py): the risks are digested into a
    prompt for Gemini, whose answer becomes the executive summary, and the answer's longer lines
    become up to five recommendations. */
module AdvisoryAgent {
  import opened Outcomes
  import opened JsonValue
  import opened TextUtil
  import opened Schema
  import opened LlmClients

  /** `f"{r['clause_id']} - {r['risk']} - {r['reason']}"`. */
  function DigestLine(r: RiskResult): string
  {
    r.clauseId + " - " + r.risk + " - " + r.reason
  }

  /** The digest line of every risk, in order. */
  function DigestLines(risks: seq<RiskResult>): (lines: seq<string>)
    ensures |lines| == |risks|
    ensures forall i :: 0 <= i < |risks| ==> lines[i] == DigestLine(risks[i])
  {
    seq(|risks|, i requires 0 <= i < |risks| => DigestLine(risks[i]))
  }

  /** `risks_text`: the digest lines joined by newlines. */
  function Digest(risks: seq<RiskResult>): string
  {
    Join(DigestLines(risks), "\n")
  }

  /** The three fields a digest line shows hold no line boundary. */
  predicate SingleLine(r: RiskResult)
  {
    NoLineBreak(r.clauseId) && NoLineBreak(r.risk) && NoLineBreak(r.reason)
  }

  /** A digest line of single-line fields is one non-empty line. */
  lemma DigestLineShape(r: RiskResult)
    requires SingleLine(r)
    ensures NoLineBreak(DigestLine(r)) && DigestLine(r) != []
  {
    var line := DigestLine(r);
    var sep := " - ";
    assert line == r.clauseId + sep + r.risk + sep + r.reason;
    forall k | 0 <= k < |line|
      ensures line[k] !in LineBreaks
    {
      var a := |r.clauseId|;
      var b := a + 3 + |r.risk|;
      if k < a {
        assert line[k] == r.clauseId[k];
      } else if k < a + 3 {
        assert line[k] == sep[k - a];
      } else if k < b {
        assert line[k] == r.risk[k - a - 3];
      } else if k < b + 3 {
        assert line[k] == sep[k - b];
      } else {
        assert line[k] == r.reason[k - b - 3];
      }
    }
  }

  /** Reading the digest back line by line gives one line per risk, in order, as long as the
      fields it shows are single lines. */
  lemma DigestSplits(risks: seq<RiskResult>)
    requires forall i :: 0 <= i < |risks| ==> SingleLine(risks[i])
    ensures SplitLines(Digest(risks)) == DigestLines(risks)
  {
    var lines := DigestLines(risks);
    if risks != [] {
      forall i | 0 <= i < |lines|
        ensures NoLineBreak(lines[i]) && lines[i] != []
      {
        DigestLineShape(risks[i]);
      }
      SplitLinesJoin(lines);
    }
  }

  /** The fixed first line of the Gemini prompt. */
  const PromptHead: string := "Generate an executive summary of the following risks with top 3 recommendations:\n"

  /** The prompt: the fixed request followed by the digest. */
  function AdvisoryPrompt(risks: seq<RiskResult>): string
  {
    PromptHead + Digest(risks)
  }

  /** The characters `line.strip("-* ")` removes. */
  const RecTrim: set<char> := {'-', '*', ' '}

  /** The filter of the comprehension: `len(line.strip()) > 10`. */
  predicate Qualifies(line: string)
  {
    |Strip(line)| > 10
  }

  /** What the comprehension makes of a qualifying line. */
  function Cleaned(line: string): string
  {
    StripChars(line, RecTrim)
  }

  /** `[line.strip("-* ") for line in lines if len(line.strip()) > 10]`. */
  function Kept(lines: seq<string>): seq<string>
    decreases |lines|
  {
    if lines == [] then []
    else
      var last := lines[|lines| - 1];
      Kept(lines[..|lines| - 1]) + (if Qualifies(last) then [Cleaned(last)] else [])
  }

  /** The positions of the lines `Kept` keeps, in order. */
  function KeptIndices(lines: seq<string>): seq<nat>
    decreases |lines|
  {
    if lines == [] then []
    else
      KeptIndices(lines[..|lines| - 1]) + (if Qualifies(lines[|lines| - 1]) then [|lines| - 1] else [])
  }

  /** `Kept` is exactly the cleaned qualifying lines in their original order: it keeps, at
      increasing positions, every line that qualifies and no other. */
  lemma {:induction false} KeptSpec(lines: seq<string>)
    ensures |KeptIndices(lines)| == |Kept(lines)|
    ensures forall j :: 0 <= j < |KeptIndices(lines)| ==>
      KeptIndices(lines)[j] < |lines| && Qualifies(lines[KeptIndices(lines)[j]])
      && Kept(lines)[j] == Cleaned(lines[KeptIndices(lines)[j]])
    ensures forall j, j' :: 0 <= j < j' < |KeptIndices(lines)| ==> KeptIndices(lines)[j] < KeptIndices(lines)[j']
    ensures forall i :: 0 <= i < |lines| && Qualifies(lines[i]) ==> i in KeptIndices(lines)
    decreases |lines|
  {
    if lines != [] {
      var init := lines[..|lines| - 1];
      KeptSpec(init);
      assert forall i :: 0 <= i < |init| ==> init[i] == lines[i];
    }
  }

  /** `recs[:5]` of the kept lines of `text`. */
  function Recommendations(text: string): (recs: seq<string>)
    ensures |recs| <= 5
    ensures |Kept(SplitLines(text))| <= 5 ==> recs == Kept(SplitLines(text))
    ensures |Kept(SplitLines(text))| > 5 ==> |recs| == 5
    ensures forall j :: 0 <= j < |recs| ==> recs[j] == Kept(SplitLines(text))[j]
  {
    var all := Kept(SplitLines(text));
    if |all| <= 5 then all else all[..5]
  }

  /** No recommendation begins or ends with a dash, a star or a space. */
  lemma RecommendationsTrimmed(text: string)
    ensures forall j :: 0 <= j < |Recommendations(text)| ==>
      Recommendations(text)[j] == [] ||
      (Recommendations(text)[j][0] !in RecTrim && Recommendations(text)[j][|Recommendations(text)[j]| - 1] !in RecTrim)
  {
    var lines := SplitLines(text);
    KeptSpec(lines);
    forall j | 0 <= j < |Recommendations(text)|
      ensures Recommendations(text)[j] == [] ||
        (Recommendations(text)[j][0] !in RecTrim && Recommendations(text)[j][|Recommendations(text)[j]| - 1] !in RecTrim)
    {
      StripCharsSpec(lines[KeptIndices(lines)[j]], RecTrim);
    }
  }

  /** The stored advisory for Gemini's answer: the answer itself as the summary and its
      recommendations. An answer that is not a string has no `splitlines`. */
  function AdviseFrom(answer: Json): (r: Result<AdvisoryResult>)
    ensures r.Success? <==> answer.JStr?
    ensures r.Failure? ==> r.error == AttributeError
    ensures r.Success? ==> r.value.executiveSummary == answer.s && r.value.recommendations == Recommendations(answer.s)
  {
    match answer
    case JStr(text) => Success(AdvisoryResult(text, Recommendations(text)))
    case _ => Failure(AttributeError)
  }

  /** The advisory for a list of risks: Gemini's answer to the digest prompt, with the default
      token limit; an exception of the call propagates. */
  function Advise(svc: Services, risks: seq<RiskResult>): (r: Result<AdvisoryResult>)
    ensures CallGemini(svc, AdvisoryPrompt(risks), DefaultMaxTokens).Failure? ==>
      r == Failure(CallGemini(svc, AdvisoryPrompt(risks), DefaultMaxTokens).error)
    ensures CallGemini(svc, AdvisoryPrompt(risks), DefaultMaxTokens).Success? ==>
      r == AdviseFrom(CallGemini(svc, AdvisoryPrompt(risks), DefaultMaxTokens).value)
  {
    match CallGemini(svc, AdvisoryPrompt(risks), DefaultMaxTokens)
    case Failure(e) => Failure(e)
    case Success(text) => AdviseFrom(text)
  }

  /** `advisory_agent(state)`: stores the advisory for the state's risks; an exception leaves
      the state as it was. */
  method Run(state: ContractState, svc: Services) returns (r: Result<ContractState>)
    modifies state`advisory
    ensures Advise(svc, state.risks).Success? ==>
      r == Success(state) && state.advisory == Some(Advise(svc, state.risks).value)
    ensures Advise(svc, state.risks).Failure? ==>
      r == Failure(Advise(svc, state.risks).error) && state.advisory == old(state.advisory)
  {
    var advisory := Advise(svc, state.risks);
    if advisory.Failure? {
      return Failure(advisory.error);
    }
    state.advisory := Some(advisory.value);
    return Success(state);
  }
}
