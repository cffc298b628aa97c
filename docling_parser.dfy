/** Clause extraction (backend/app/docling_parser.py): the converted document is a sequence of
    blocks; headings move a section cursor, every other non-blank block is split on legal
    markers and each non-empty (body, marker) pair becomes a clause `C<n>`. */
module DoclingParser {
  import opened Outcomes
  import opened TextUtil
  import opened Schema

  /** A block of the converted document: whether its item type is `heading`, its text (absent
      when `block.text` is None) and its page number, if it has one. */
  datatype Block = Block(isHeading: bool, text: Option<string>, page: Option<int>)

  /** What the external document converter gives for a path: the blocks, or an exception. */
  datatype Conversion = Converted(blocks: seq<Block>) | ConversionFailed(message: string)

  /** `block.text or ""`. */
  function BlockText(b: Block): string
  {
    match b.text
    case Some(t) => t
    case None => ""
  }

  /** The id of the `n`-th clause, `f"C{n}"`. */
  function ClauseId(n: nat): string
  {
    "C" + NatToString(n)
  }

  /** Different counters give different ids. */
  lemma ClauseIdInjective(m: nat, n: nat)
    ensures ClauseId(m) == ClauseId(n) ==> m == n
  {
    if ClauseId(m) == ClauseId(n) {
      assert NatToString(m) == ClauseId(m)[1..];
      assert NatToString(n) == ClauseId(n)[1..];
      NatToStringInjective(m, n);
    }
  }

  /** The text of a (body, header) pair, both already stripped: `f"{header} {body}".strip()`. */
  function PairText(header: string, body: string): string
  {
    Strip(header + " " + body)
  }

  /** A pair with a non-empty part has non-empty, stripped text. */
  lemma PairTextNonEmpty(header: string, body: string)
    requires header == "" || header[0] !in Whitespace
    requires body == "" || body[0] !in Whitespace
    requires header != "" || body != ""
    ensures PairText(header, body) != ""
    ensures Strip(PairText(header, body)) == PairText(header, body)
  {
    var s := header + " " + body;
    StripCharsEmpty(s, Whitespace);
    if header != "" {
      assert s[0] == header[0];
    } else {
      assert s[1] == body[0];
    }
    StripCharsIdempotent(s, Whitespace);
  }

  /** A stripped string is empty or starts with a non-whitespace character. */
  lemma StrippedStart(s: string)
    ensures Strip(s) == "" || Strip(s)[0] !in Whitespace
  {
    StripCharsSpec(s, Whitespace);
  }

  /** The pair made of part `i` (the body) and part `i + 1` (its header, "" past the end): the
      clause text it yields, or None when both stripped parts are empty. */
  function PairAt(parts: seq<string>, i: nat): Option<string>
    requires i < |parts|
  {
    var body := Strip(parts[i]);
    var header := if i + 1 < |parts| then Strip(parts[i + 1]) else "";
    if body != "" || header != "" then Some(PairText(header, body)) else None
  }

  /** A text with something in it and no surrounding whitespace. */
  predicate CleanText(t: string)
  {
    t != "" && Strip(t) == t
  }

  /** A pair yields a clause exactly when its stripped body or stripped header is non-empty, and
      the text it yields is then clean. */
  lemma PairAtSpec(parts: seq<string>, i: nat)
    requires i < |parts|
    ensures PairAt(parts, i).Some? <==> Strip(parts[i]) != "" || (i + 1 < |parts| && Strip(parts[i + 1]) != "")
    ensures PairAt(parts, i).Some? ==> CleanText(PairAt(parts, i).value)
  {
    StrippedStart(parts[i]);
    var header := if i + 1 < |parts| then Strip(parts[i + 1]) else "";
    if i + 1 < |parts| {
      StrippedStart(parts[i + 1]);
    }
    if Strip(parts[i]) != "" || header != "" {
      PairTextNonEmpty(header, Strip(parts[i]));
    }
  }

  /** `for i in range(0, len(parts), 2)`: what each pair yields, in order. */
  function Pairs(parts: seq<string>): seq<Option<string>>
  {
    seq((|parts| + 1) / 2, m requires 0 <= m < (|parts| + 1) / 2 => PairAt(parts, 2 * m))
  }

  /** The texts of the pairs that yield one, in order. */
  function Yielded(ps: seq<Option<string>>): seq<string>
    decreases |ps|
  {
    if ps == [] then []
    else
      var prior := Yielded(ps[..|ps| - 1]);
      match ps[|ps| - 1]
      case Some(t) => prior + [t]
      case None => prior
  }

  /** The yielded texts as clauses on `page` under `section`, numbered from `next` by a counter
      that goes up once per clause. */
  function Emit(ps: seq<Option<string>>, page: Option<int>, section: Option<string>, next: nat): seq<Clause>
    decreases |ps|
  {
    if ps == [] then []
    else
      var prior := Emit(ps[..|ps| - 1], page, section, next);
      match ps[|ps| - 1]
      case Some(t) => prior + [Clause(ClauseId(next + |prior|), t, page, section)]
      case None => prior
  }

  /** Clause `j` of `Emit` is `C<next + j>` and holds the `j`-th yielded text, on the given page
      and section; there is one clause per yielded text. */
  lemma {:induction false} EmitSpec(ps: seq<Option<string>>, page: Option<int>, section: Option<string>, next: nat)
    ensures |Emit(ps, page, section, next)| == |Yielded(ps)|
    ensures forall j :: 0 <= j < |Emit(ps, page, section, next)| ==>
      Emit(ps, page, section, next)[j] == Clause(ClauseId(next + j), Yielded(ps)[j], page, section)
    decreases |ps|
  {
    if ps != [] {
      var init := ps[..|ps| - 1];
      EmitSpec(init, page, section, next);
      var prior := Emit(init, page, section, next);
      var all := Emit(ps, page, section, next);
      forall j | 0 <= j < |all|
        ensures all[j] == Clause(ClauseId(next + j), Yielded(ps)[j], page, section)
      {
        if j < |prior| {
          assert all[j] == prior[j];
          assert Yielded(ps)[j] == Yielded(init)[j];
        }
      }
    }
  }

  /** No more texts are yielded than there are pairs. */
  lemma {:induction false} YieldedBound(ps: seq<Option<string>>)
    ensures |Yielded(ps)| <= |ps|
    decreases |ps|
  {
    if ps != [] {
      YieldedBound(ps[..|ps| - 1]);
    }
  }

  /** Every yielded text is the text of some pair. */
  lemma {:induction false} YieldedFrom(ps: seq<Option<string>>)
    ensures forall j :: 0 <= j < |Yielded(ps)| ==> exists m :: 0 <= m < |ps| && ps[m] == Some(Yielded(ps)[j])
    decreases |ps|
  {
    if ps != [] {
      var init := ps[..|ps| - 1];
      YieldedFrom(init);
      forall j | 0 <= j < |Yielded(ps)|
        ensures exists m :: 0 <= m < |ps| && ps[m] == Some(Yielded(ps)[j])
      {
        if j < |Yielded(init)| {
          assert Yielded(ps)[j] == Yielded(init)[j];
          var m :| 0 <= m < |init| && init[m] == Some(Yielded(init)[j]);
          assert ps[m] == init[m];
        } else {
          assert ps[|ps| - 1] == Some(Yielded(ps)[j]);
        }
      }
      assert forall j :: 0 <= j < |Yielded(ps)| ==> exists m :: 0 <= m < |ps| && ps[m] == Some(Yielded(ps)[j]);
    } else {
      assert Yielded(ps) == [];
    }
  }

  /** When every pair yields a text, the yielded texts are all of them, in order. */
  lemma {:induction false} YieldedAllSome(ps: seq<Option<string>>)
    requires forall m :: 0 <= m < |ps| ==> ps[m].Some?
    ensures |Yielded(ps)| == |ps|
    ensures forall j :: 0 <= j < |ps| ==> Yielded(ps)[j] == ps[j].value
    decreases |ps|
  {
    if ps != [] {
      var init := ps[..|ps| - 1];
      YieldedAllSome(init);
      forall j | 0 <= j < |ps|
        ensures Yielded(ps)[j] == ps[j].value
      {
        if j < |init| {
          assert Yielded(ps)[j] == Yielded(init)[j];
        }
      }
    }
  }

  /** A match of the clause-marker pattern: non-empty, with no surrounding whitespace. */
  predicate IsMarker(p: string)
  {
    p != "" && p[0] !in Whitespace && p[|p| - 1] !in Whitespace
  }

  /** What `re.split` with one capturing group returns: the text pieces at even positions and
      the captured markers at odd positions, so the length is odd. */
  predicate SplitShape(parts: seq<string>)
  {
    |parts| % 2 == 1 && forall k :: 0 <= k < |parts| && k % 2 == 1 ==> IsMarker(parts[k])
  }

  /** A marker followed by the text it was paired with, if any. */
  function MarkerText(marker: string, text: string): string
  {
    if text == "" then marker else marker + " " + text
  }

  /** Joining a marker and a stripped text with a space needs no further stripping. */
  lemma PairTextMarker(marker: string, text: string)
    requires IsMarker(marker) && Strip(text) == text
    ensures PairText(marker, text) == MarkerText(marker, text)
  {
    StripCharsSpec(text, Whitespace);
    var s := marker + " " + text;
    assert s[0] == marker[0];
    assert TrimStart(s, Whitespace) == s;
    if text == "" {
      assert s[..|s| - 1] == marker;
      StripCharsKeeps(marker, Whitespace);
    } else {
      assert s[|s| - 1] == text[|text| - 1];
    }
  }

  /** With no header, a stripped body is its own clause text. */
  lemma PairTextBodyOnly(text: string)
    requires Strip(text) == text
    ensures PairText("", text) == text
  {
    StripCharsSpec(text, Whitespace);
    var s := "" + " " + text;
    assert s[1..] == text;
    StripCharsKeeps(text, Whitespace);
  }

  /** On a split of the expected shape the body at part `2m` is labelled by the marker AFTER it,
      at part `2m + 1`, and the pair always yields a clause. */
  lemma MarkerPair(parts: seq<string>, m: nat)
    requires SplitShape(parts) && 2 * m + 1 < |parts|
    ensures PairAt(parts, 2 * m) == Some(MarkerText(parts[2 * m + 1], Strip(parts[2 * m])))
  {
    assert IsMarker(parts[2 * m + 1]);
    StripCharsKeeps(parts[2 * m + 1], Whitespace);
    StripCharsIdempotent(parts[2 * m], Whitespace);
    PairTextMarker(parts[2 * m + 1], Strip(parts[2 * m]));
  }

  /** The last pair, holding the text after the final marker, yields that text unless blank. */
  lemma TailPair(parts: seq<string>)
    requires |parts| > 0
    ensures Strip(parts[|parts| - 1]) == "" ==> PairAt(parts, |parts| - 1) == None
    ensures Strip(parts[|parts| - 1]) != "" ==> PairAt(parts, |parts| - 1) == Some(Strip(parts[|parts| - 1]))
  {
    StripCharsIdempotent(parts[|parts| - 1], Whitespace);
    PairTextBodyOnly(Strip(parts[|parts| - 1]));
  }

  /** When every pair but possibly the last yields a text, the yielded texts are those of the
      pairs in order, with the last pair's at the end if it yields one. */
  lemma {:induction false} YieldedAllButLast(ps: seq<Option<string>>)
    requires ps != [] && forall m :: 0 <= m < |ps| - 1 ==> ps[m].Some?
    ensures |Yielded(ps)| == |ps| - 1 + (if ps[|ps| - 1].Some? then 1 else 0)
    ensures forall j :: 0 <= j < |ps| - 1 ==> Yielded(ps)[j] == ps[j].value
    ensures ps[|ps| - 1].Some? ==> Yielded(ps)[|ps| - 1] == ps[|ps| - 1].value
  {
    var init := ps[..|ps| - 1];
    YieldedAllSome(init);
    assert Yielded(ps) == Yielded(init) + (if ps[|ps| - 1].Some? then [ps[|ps| - 1].value] else []);
  }

  /** On a split of the expected shape, every marker labels the text BEFORE it, not the text
      after it: text `j` is marker `2j + 1` followed by part `2j`; the text after the last marker,
      when not blank, is a last clause of its own. */
  lemma MarkerPairing(parts: seq<string>)
    requires SplitShape(parts)
    ensures 2 * |Yielded(Pairs(parts))| == |parts| - 1 + (if Strip(parts[|parts| - 1]) == "" then 0 else 2)
    ensures forall j :: 0 <= j && 2 * j + 1 < |parts| ==>
      Yielded(Pairs(parts))[j] == MarkerText(parts[2 * j + 1], Strip(parts[2 * j]))
    ensures Strip(parts[|parts| - 1]) != "" ==>
      Yielded(Pairs(parts))[|Yielded(Pairs(parts))| - 1] == Strip(parts[|parts| - 1])
  {
    var ps := Pairs(parts);
    var n := |ps|;
    assert 2 * (n - 1) == |parts| - 1;
    forall m | 0 <= m < n - 1
      ensures ps[m] == Some(MarkerText(parts[2 * m + 1], Strip(parts[2 * m])))
    {
      MarkerPair(parts, m);
    }
    YieldedAllButLast(ps);
    TailPair(parts);
    assert ps[n - 1] == PairAt(parts, |parts| - 1);
  }

  const ExampleParts: seq<string> := ["Preamble", "1.1", "Scope", "1.2", "Exclusions"]

  lemma ExampleShape()
    ensures SplitShape(ExampleParts)
  {
    forall k | 0 <= k < |ExampleParts| && k % 2 == 1
      ensures IsMarker(ExampleParts[k])
    {
      assert k == 1 || k == 3;
    }
  }

  lemma ExampleStrips()
    ensures Strip(ExampleParts[0]) == "Preamble"
    ensures Strip(ExampleParts[2]) == "Scope"
    ensures Strip(ExampleParts[4]) == "Exclusions"
  {
    StripCharsKeeps(ExampleParts[0], Whitespace);
    StripCharsKeeps(ExampleParts[2], Whitespace);
    StripCharsKeeps(ExampleParts[4], Whitespace);
  }

  lemma ExampleTexts()
    ensures MarkerText("1.1", "Preamble") == "1.1 Preamble"
    ensures MarkerText("1.2", "Scope") == "1.2 Scope"
  {
  }

  /** A worked instance: markers "1.1" and "1.2" each label the text that precedes them. */
  lemma MarkerPairingExample()
    ensures Yielded(Pairs(ExampleParts)) == ["1.1 Preamble", "1.2 Scope", "Exclusions"]
  {
    var parts := ExampleParts;
    ExampleShape();
    ExampleStrips();
    ExampleTexts();
    MarkerPairing(parts);
    var y := Yielded(Pairs(parts));
    assert |y| == 3;
    assert y[0] == "1.1 Preamble" by {
      assert y[0] == MarkerText(parts[1], Strip(parts[0]));
    }
    assert y[1] == "1.2 Scope" by {
      assert y[1] == MarkerText(parts[3], Strip(parts[2]));
    }
    assert y[2] == "Exclusions";
    assert y == [y[0], y[1], y[2]];
  }

  /** The clauses one block contributes, given the section cursor and the next counter value:
      none for a heading or a blank block. */
  function BlockClauses(b: Block, split: string -> seq<string>, section: Option<string>, next: nat)
    : seq<Clause>
  {
    if b.isHeading then []
    else
      var text := Strip(BlockText(b));
      if text == "" then [] else Emit(Pairs(split(text)), b.page, section, next)
  }

  /** The section cursor after `blocks`: the stripped text of the last heading, or None. */
  function CurrentSection(blocks: seq<Block>): Option<string>
    decreases |blocks|
  {
    if blocks == [] then None
    else if blocks[|blocks| - 1].isHeading then Some(Strip(BlockText(blocks[|blocks| - 1])))
    else CurrentSection(blocks[..|blocks| - 1])
  }

  /** The clauses extracted from `blocks`, in document order. `split` stands for
      `re.split(clause_pattern, text)`. */
  function Segment(blocks: seq<Block>, split: string -> seq<string>): seq<Clause>
    decreases |blocks|
  {
    if blocks == [] then []
    else
      var init := blocks[..|blocks| - 1];
      var prior := Segment(init, split);
      prior + BlockClauses(blocks[|blocks| - 1], split, CurrentSection(init), |prior| + 1)
  }

  /** Extending the blocks by one appends that block's clauses and moves the cursor. */
  lemma SegmentStep(blocks: seq<Block>, k: nat, split: string -> seq<string>)
    requires k < |blocks|
    ensures Segment(blocks[..k + 1], split)
         == Segment(blocks[..k], split)
            + BlockClauses(blocks[k], split, CurrentSection(blocks[..k]), |Segment(blocks[..k], split)| + 1)
    ensures CurrentSection(blocks[..k + 1])
         == if blocks[k].isHeading then Some(Strip(BlockText(blocks[k]))) else CurrentSection(blocks[..k])
  {
    assert blocks[..k + 1][..k] == blocks[..k];
  }

  /** The clauses one block contributes are numbered from `next`, have non-empty stripped text,
      and carry the block's page and the given section. */
  lemma BlockClausesFacts(b: Block, split: string -> seq<string>, section: Option<string>, next: nat)
    ensures forall j :: 0 <= j < |BlockClauses(b, split, section, next)| ==>
      BlockClauses(b, split, section, next)[j].clauseId == ClauseId(next + j)
    ensures forall j :: 0 <= j < |BlockClauses(b, split, section, next)| ==>
      CleanText(BlockClauses(b, split, section, next)[j].text)
    ensures forall j :: 0 <= j < |BlockClauses(b, split, section, next)| ==>
      BlockClauses(b, split, section, next)[j].page == b.page
      && BlockClauses(b, split, section, next)[j].section == section
    ensures b.isHeading || Strip(BlockText(b)) == "" ==> BlockClauses(b, split, section, next) == []
  {
    if !b.isHeading && Strip(BlockText(b)) != "" {
      var parts := split(Strip(BlockText(b)));
      var ps := Pairs(parts);
      EmitSpec(ps, b.page, section, next);
      YieldedFrom(ps);
      forall j | 0 <= j < |Yielded(ps)|
        ensures CleanText(Yielded(ps)[j])
      {
        var m :| 0 <= m < |ps| && ps[m] == Some(Yielded(ps)[j]);
        PairAtSpec(parts, 2 * m);
      }
    }
  }

  /** A text block yields at most one clause per pair, that is `(len(parts) + 1) / 2`. */
  lemma BlockClausesBound(b: Block, split: string -> seq<string>, section: Option<string>, next: nat)
    requires !b.isHeading && Strip(BlockText(b)) != ""
    ensures |BlockClauses(b, split, section, next)| <= (|split(Strip(BlockText(b)))| + 1) / 2
  {
    var ps := Pairs(split(Strip(BlockText(b))));
    EmitSpec(ps, b.page, section, next);
    YieldedBound(ps);
  }

  /** Clause ids are exactly `C1, C2, ..., Cn` in emission order, across all blocks. */
  lemma {:induction false} SegmentIds(blocks: seq<Block>, split: string -> seq<string>)
    ensures forall k :: 0 <= k < |Segment(blocks, split)| ==> Segment(blocks, split)[k].clauseId == ClauseId(k + 1)
    decreases |blocks|
  {
    if blocks != [] {
      var init := blocks[..|blocks| - 1];
      var prior := Segment(init, split);
      var added := BlockClauses(blocks[|blocks| - 1], split, CurrentSection(init), |prior| + 1);
      SegmentIds(init, split);
      BlockClausesFacts(blocks[|blocks| - 1], split, CurrentSection(init), |prior| + 1);
      var all := Segment(blocks, split);
      assert all == prior + added;
      forall k | 0 <= k < |all|
        ensures all[k].clauseId == ClauseId(k + 1)
      {
        if k < |prior| { assert all[k] == prior[k]; } else { assert all[k] == added[k - |prior|]; }
      }
    }
  }

  /** No two extracted clauses share an id. */
  lemma SegmentIdsDistinct(blocks: seq<Block>, split: string -> seq<string>)
    ensures forall j, k :: 0 <= j < k < |Segment(blocks, split)| ==>
      Segment(blocks, split)[j].clauseId != Segment(blocks, split)[k].clauseId
  {
    SegmentIds(blocks, split);
    forall j, k | 0 <= j < k < |Segment(blocks, split)|
      ensures Segment(blocks, split)[j].clauseId != Segment(blocks, split)[k].clauseId
    {
      ClauseIdInjective(j + 1, k + 1);
    }
  }

  /** Every extracted clause has non-empty text without surrounding whitespace. */
  lemma {:induction false} SegmentTexts(blocks: seq<Block>, split: string -> seq<string>)
    ensures forall k :: 0 <= k < |Segment(blocks, split)| ==>
      CleanText(Segment(blocks, split)[k].text)
    decreases |blocks|
  {
    if blocks != [] {
      var init := blocks[..|blocks| - 1];
      var prior := Segment(init, split);
      var added := BlockClauses(blocks[|blocks| - 1], split, CurrentSection(init), |prior| + 1);
      SegmentTexts(init, split);
      BlockClausesFacts(blocks[|blocks| - 1], split, CurrentSection(init), |prior| + 1);
      var all := Segment(blocks, split);
      assert all == prior + added;
      forall k | 0 <= k < |all|
        ensures CleanText(all[k].text)
      {
        if k < |prior| { assert all[k] == prior[k]; } else { assert all[k] == added[k - |prior|]; }
      }
    }
  }

  /** Index of the last heading block, or -1 when there is none. */
  function LatestHeading(blocks: seq<Block>): (k: int)
    ensures -1 <= k < |blocks|
    ensures k >= 0 ==> blocks[k].isHeading
    ensures forall j :: k < j < |blocks| ==> !blocks[j].isHeading
    decreases |blocks|
  {
    if blocks == [] then -1
    else if blocks[|blocks| - 1].isHeading then |blocks| - 1
    else LatestHeading(blocks[..|blocks| - 1])
  }

  /** The section cursor is None when no heading has been seen, and otherwise holds the stripped
      text of the most recent heading. */
  lemma {:induction false} CurrentSectionLatest(blocks: seq<Block>)
    ensures LatestHeading(blocks) < 0 ==> CurrentSection(blocks) == None
    ensures LatestHeading(blocks) >= 0 ==>
      CurrentSection(blocks) == Some(Strip(BlockText(blocks[LatestHeading(blocks)])))
    decreases |blocks|
  {
    if blocks != [] && !blocks[|blocks| - 1].isHeading {
      var init := blocks[..|blocks| - 1];
      CurrentSectionLatest(init);
      if LatestHeading(init) >= 0 {
        assert init[LatestHeading(init)] == blocks[LatestHeading(init)];
      }
    }
  }

  /** Each clause's section is the stripped text of some heading block. */
  lemma {:induction false} SegmentSections(blocks: seq<Block>, split: string -> seq<string>)
    ensures forall k :: 0 <= k < |Segment(blocks, split)| && Segment(blocks, split)[k].section.Some? ==>
      exists h :: h in blocks && h.isHeading && Segment(blocks, split)[k].section == Some(Strip(BlockText(h)))
    decreases |blocks|
  {
    if blocks != [] {
      var init := blocks[..|blocks| - 1];
      var prior := Segment(init, split);
      var added := BlockClauses(blocks[|blocks| - 1], split, CurrentSection(init), |prior| + 1);
      SegmentSections(init, split);
      BlockClausesFacts(blocks[|blocks| - 1], split, CurrentSection(init), |prior| + 1);
      CurrentSectionLatest(init);
      var all := Segment(blocks, split);
      assert all == prior + added;
      forall k | 0 <= k < |all| && all[k].section.Some?
        ensures exists h :: h in blocks && h.isHeading && all[k].section == Some(Strip(BlockText(h)))
      {
        if k < |prior| {
          assert all[k] == prior[k];
          var h :| h in init && h.isHeading && prior[k].section == Some(Strip(BlockText(h)));
          assert h in blocks;
        } else {
          assert all[k] == added[k - |prior|];
          var h := init[LatestHeading(init)];
          assert h in blocks;
        }
      }
    }
  }

  /** Before the first heading there is no section: a document without headings gives every
      clause section None. */
  lemma {:induction false} SegmentNoSection(blocks: seq<Block>, split: string -> seq<string>)
    requires LatestHeading(blocks) < 0
    ensures forall k :: 0 <= k < |Segment(blocks, split)| ==> Segment(blocks, split)[k].section.None?
    decreases |blocks|
  {
    if blocks != [] {
      var init := blocks[..|blocks| - 1];
      var prior := Segment(init, split);
      var added := BlockClauses(blocks[|blocks| - 1], split, CurrentSection(init), |prior| + 1);
      assert LatestHeading(init) < 0;
      SegmentNoSection(init, split);
      CurrentSectionLatest(init);
      assert CurrentSection(init) == None;
      BlockClausesFacts(blocks[|blocks| - 1], split, None, |prior| + 1);
      assert forall j :: 0 <= j < |added| ==> added[j].section.None?;
      var all := Segment(blocks, split);
      assert all == prior + added;
      forall k | 0 <= k < |all|
        ensures all[k].section.None?
      {
        if k < |prior| { assert all[k] == prior[k]; } else { assert all[k] == added[k - |prior|]; }
      }
    }
  }

  /** Each clause's page is the page of some non-heading block. */
  lemma {:induction false} SegmentPages(blocks: seq<Block>, split: string -> seq<string>)
    ensures forall k :: 0 <= k < |Segment(blocks, split)| ==>
      exists b :: b in blocks && !b.isHeading && Segment(blocks, split)[k].page == b.page
    decreases |blocks|
  {
    if blocks != [] {
      var init := blocks[..|blocks| - 1];
      var last := blocks[|blocks| - 1];
      var prior := Segment(init, split);
      var added := BlockClauses(last, split, CurrentSection(init), |prior| + 1);
      SegmentPages(init, split);
      BlockClausesFacts(last, split, CurrentSection(init), |prior| + 1);
      var all := Segment(blocks, split);
      assert all == prior + added;
      assert forall b :: b in init ==> b in blocks;
      forall k | 0 <= k < |all|
        ensures exists b :: b in blocks && !b.isHeading && all[k].page == b.page
      {
        if k < |prior| {
          assert all[k] == prior[k];
        } else {
          assert all[k] == added[k - |prior|];
          assert last in blocks && !last.isHeading && all[k].page == last.page;
        }
      }
      assert forall k :: 0 <= k < |all| ==> exists b :: b in blocks && !b.isHeading && all[k].page == b.page;
    } else {
      assert Segment(blocks, split) == [];
    }
  }

  /** A heading block emits no clause and sets the cursor to its stripped text. */
  lemma HeadingBlock(blocks: seq<Block>, h: Block, split: string -> seq<string>)
    requires h.isHeading
    ensures Segment(blocks + [h], split) == Segment(blocks, split)
    ensures CurrentSection(blocks + [h]) == Some(Strip(BlockText(h)))
  {
    assert (blocks + [h])[..|blocks|] == blocks;
  }

  /** A non-heading block whose stripped text is empty emits nothing and leaves the cursor
      where it was. */
  lemma BlankBlock(blocks: seq<Block>, b: Block, split: string -> seq<string>)
    requires !b.isHeading && Strip(BlockText(b)) == ""
    ensures Segment(blocks + [b], split) == Segment(blocks, split)
    ensures CurrentSection(blocks + [b]) == CurrentSection(blocks)
  {
    assert (blocks + [b])[..|blocks|] == blocks;
  }

  /** The clauses of a prefix of the document are a prefix of the document's clauses: later
      blocks never change what earlier blocks produced. */
  lemma {:induction false} SegmentPrefix(blocks: seq<Block>, k: nat, split: string -> seq<string>)
    requires k <= |blocks|
    ensures Segment(blocks[..k], split) <= Segment(blocks, split)
    decreases |blocks| - k
  {
    if k < |blocks| {
      var shorter := Segment(blocks[..k], split);
      var longer := Segment(blocks[..k + 1], split);
      SegmentStep(blocks, k, split);
      assert shorter <= longer;
      SegmentPrefix(blocks, k + 1, split);
      assert longer[..|shorter|] == shorter;
    } else {
      assert blocks[..k] == blocks;
    }
  }

  /** The clauses of block `k` sit at positions `|Segment(blocks[..k])|` up to
      `|Segment(blocks[..k + 1])|` of the document's clauses. Each of them carries block `k`'s
      page and the stripped text of the most recent heading before block `k`, or None when no
      heading precedes it. */
  lemma BlockSection(blocks: seq<Block>, k: nat, split: string -> seq<string>)
    requires k < |blocks|
    ensures forall j :: |Segment(blocks[..k], split)| <= j < |Segment(blocks[..k + 1], split)| ==>
      && j < |Segment(blocks, split)|
      && Segment(blocks, split)[j].page == blocks[k].page
      && Segment(blocks, split)[j].section ==
         (if LatestHeading(blocks[..k]) < 0 then None
          else Some(Strip(BlockText(blocks[..k][LatestHeading(blocks[..k])]))))
  {
    SegmentStep(blocks, k, split);
    SegmentPrefix(blocks, k + 1, split);
    CurrentSectionLatest(blocks[..k]);
    var before := Segment(blocks[..k], split);
    BlockClausesFacts(blocks[k], split, CurrentSection(blocks[..k]), |before| + 1);
  }

  /** Taking one more pair appends that pair's text, if it yields one. */
  lemma YieldedStep(ps: seq<Option<string>>, m: nat)
    requires m < |ps|
    ensures Yielded(ps[..m + 1]) == Yielded(ps[..m]) + (if ps[m].Some? then [ps[m].value] else [])
  {
    assert ps[..m + 1][..m] == ps[..m];
  }

  /** Pair `m` of the split is the one starting at part `2m`. */
  lemma PairsIndex(parts: seq<string>, m: nat)
    requires 2 * m < |parts|
    ensures m < |Pairs(parts)| && Pairs(parts)[m] == PairAt(parts, 2 * m)
  {
  }

  /** `clauses` is `clauses0` followed by one clause per text of `texts`, numbered on from
      `|clauses0| + 1`, on `page` under `section`. */
  predicate Numbered(clauses0: seq<Clause>, clauses: seq<Clause>, texts: seq<string>,
                     page: Option<int>, section: Option<string>)
  {
    && |clauses| == |clauses0| + |texts|
    && (forall j :: 0 <= j < |clauses0| ==> clauses[j] == clauses0[j])
    && (forall j :: |clauses0| <= j < |clauses| ==>
          clauses[j] == Clause(ClauseId(j + 1), texts[j - |clauses0|], page, section))
  }

  /** Appending the clause for one more text, with the next number, keeps the list numbered. */
  lemma NumberedSnoc(clauses0: seq<Clause>, clauses: seq<Clause>, texts: seq<string>, t: string,
                     page: Option<int>, section: Option<string>)
    requires Numbered(clauses0, clauses, texts, page, section)
    ensures Numbered(clauses0, clauses + [Clause(ClauseId(|clauses| + 1), t, page, section)], texts + [t], page, section)
  {
  }

  /** A numbered list is `clauses0` followed by what `Emit` gives for the same pairs. */
  lemma EmitPointwise(clauses0: seq<Clause>, clauses: seq<Clause>, ps: seq<Option<string>>,
                      page: Option<int>, section: Option<string>)
    requires Numbered(clauses0, clauses, Yielded(ps), page, section)
    ensures clauses == clauses0 + Emit(ps, page, section, |clauses0| + 1)
  {
    EmitSpec(ps, page, section, |clauses0| + 1);
    var e := Emit(ps, page, section, |clauses0| + 1);
    forall j | |clauses0| <= j < |clauses|
      ensures clauses[j] == (clauses0 + e)[j]
    {
      assert e[j - |clauses0|] == Clause(ClauseId(|clauses0| + 1 + (j - |clauses0|)), Yielded(ps)[j - |clauses0|], page, section);
    }
  }

  /** The inner loop of `extract_clauses`: walks the split parts two at a time, appending one
      clause per pair that yields text and advancing the counter. */
  method AppendPartsClauses(clauses0: seq<Clause>, cid0: nat, parts: seq<string>,
                            page: Option<int>, section: Option<string>)
    returns (clauses: seq<Clause>, cid: nat)
    requires cid0 == |clauses0|
    ensures clauses == clauses0 + Emit(Pairs(parts), page, section, cid0 + 1)
    ensures cid == |clauses|
  {
    clauses, cid := clauses0, cid0;
    ghost var ps := Pairs(parts);
    ghost var m := 0;
    var i := 0;
    while i < |parts|
      invariant i == 2 * m && m <= |ps|
      invariant Numbered(clauses0, clauses, Yielded(ps[..m]), page, section) && cid == |clauses|
      decreases |parts| - i
    {
      YieldedStep(ps, m);
      PairsIndex(parts, m);
      var yielded := PairAt(parts, i);
      if yielded.Some? {
        NumberedSnoc(clauses0, clauses, Yielded(ps[..m]), yielded.value, page, section);
        cid := cid + 1;
        clauses := clauses + [Clause(ClauseId(cid), yielded.value, page, section)];
      }
      i := i + 2;
      m := m + 1;
    }
    assert ps[..m] == ps;
    EmitPointwise(clauses0, clauses, ps, page, section);
  }

  /** What `extract_clauses(file_path)` produces: the segmented clauses of the converted
      document, or the error naming the path for a file the converter rejects. */
  function Extracted(filePath: string, convert: string -> Conversion, split: string -> seq<string>)
    : (r: Result<seq<Clause>>)
    ensures r.Failure? <==> convert(filePath).ConversionFailed?
    ensures r.Failure? ==> r.error == DocumentError(filePath, convert(filePath).message)
    ensures r.Success? ==> r.value == Segment(convert(filePath).blocks, split)
  {
    match convert(filePath)
    case ConversionFailed(message) => Failure(DocumentError(filePath, message))
    case Converted(blocks) => Success(Segment(blocks, split))
  }

  /** Extracted clauses are numbered `C1`, `C2`, ... in order and carry stripped, non-empty text. */
  lemma ExtractedClauses(filePath: string, convert: string -> Conversion, split: string -> seq<string>)
    requires Extracted(filePath, convert, split).Success?
    ensures forall i :: 0 <= i < |Extracted(filePath, convert, split).value| ==>
      Extracted(filePath, convert, split).value[i].clauseId == ClauseId(i + 1)
      && CleanText(Extracted(filePath, convert, split).value[i].text)
  {
    SegmentIds(convert(filePath).blocks, split);
    SegmentTexts(convert(filePath).blocks, split);
  }

  /** `extract_clauses(file_path)`: converts the document, then walks its blocks with a
      counter and a section cursor. A conversion failure becomes an error naming the path. */
  method ExtractClauses(filePath: string, convert: string -> Conversion, split: string -> seq<string>)
    returns (r: Result<seq<Clause>>)
    ensures r == Extracted(filePath, convert, split)
  {
    var conversion := convert(filePath);
    if conversion.ConversionFailed? {
      return Failure(DocumentError(filePath, conversion.message));
    }
    var blocks := conversion.blocks;
    var clauses: seq<Clause> := [];
    var cid: nat := 0;
    var currentSection: Option<string> := None;
    for k := 0 to |blocks|
      invariant clauses == Segment(blocks[..k], split)
      invariant cid == |clauses|
      invariant currentSection == CurrentSection(blocks[..k])
    {
      var block := blocks[k];
      SegmentStep(blocks, k, split);
      if block.isHeading {
        currentSection := Some(Strip(BlockText(block)));
        continue;
      }
      var text := Strip(BlockText(block));
      if text == "" {
        continue;
      }
      var parts := split(text);
      clauses, cid := AppendPartsClauses(clauses, cid, parts, block.page, currentSection);
    }
    assert blocks[..|blocks|] == blocks;
    return Success(clauses);
  }
}
