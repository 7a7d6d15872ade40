/** The deterministic part of `ProtocolAnalyzer` in backend/analyzer.py: the analysis prompt,
    the parsing of the model's reply into an analysis record, the revision bullet block and
    prompt, and the two entry points with the model call passed in as a parameter.

    The language model is `llm: string -> Option<string>`: the reply text for a prompt, or
    `None` when the call raises. `json.loads` is `decode: string -> Option<Decoded>`: the
    decoded object, or `None` for a `JSONDecodeError`. */
module Analyzer {
  import opened Wrappers
  import opened Strings
  import opened Suggestions

  // ---------------------------------------------------------------------------------------
  // The analysis prompt
  // ---------------------------------------------------------------------------------------

  /** The fixed text of the analysis prompt: what precedes the file line, the instructions
      and JSON template between that line and the protocol text, and the closing request.
      The file line is followed by a blank line, and the prompt's structure is proved for
      every template, so that no proof has to look inside the long constant texts. */
  datatype AnalysisTemplate = AnalysisTemplate(intro: string, instructions: string, outro: string)

  const AnalysisIntro: string :=
    "You are an expert laboratory protocol reviewer. Analyze the following laboratory protocol and identify specific improvements.\n\n"

  /** The instructions and the JSON template, ending just before the protocol text. */
  const AnalysisInstructions: string :=
    "For each issue you find, provide:\n"
    + "1. The category (safety, clarity, completeness, formatting, or best_practices)\n"
    + "2. The priority level (HIGH, MEDIUM, or LOW)\n"
    + "3. The specific location (step number or section)\n"
    + "4. A clear description of the issue\n"
    + "5. A specific, actionable suggestion for improvement\n\n"
    + "Focus on:\n"
    + "- **Safety Issues**: Missing warnings, hazard information, PPE requirements\n"
    + "- **Clarity Issues**: Ambiguous instructions, unclear measurements, vague timing\n"
    + "- **Completeness Issues**: Missing materials, equipment, concentrations, temperatures\n"
    + "- **Formatting Issues**: Poor structure, inconsistent numbering, hard to follow\n"
    + "- **Best Practices**: Industry standards, optimization opportunities, quality controls\n\n"
    + "Return your analysis in this exact JSON format:\n"
    + "{\n"
    + "    \"summary\": \"Brief overview of the protocol and overall assessment\",\n"
    + "    \"overall_score\": \"A score from 1-10\",\n"
    + "    \"total_issues\": \"Total number of issues found\",\n"
    + "    \"suggestions\": [\n"
    + "        {\n"
    + "            \"category\": \"safety|clarity|completeness|formatting|best_practices\",\n"
    + "            \"priority\": \"HIGH|MEDIUM|LOW\",\n"
    + "            \"location\": \"Step 3\" or \"Materials section\" etc,\n"
    + "            \"issue\": \"Clear description of what's wrong\",\n"
    + "            \"suggestion\": \"Specific recommendation to fix it\",\n"
    + "            \"example\": \"Optional: How it should look after the fix\"\n"
    + "        }\n"
    + "    ]\n"
    + "}\n\n"
    + "Protocol to analyze:\n\n"

  const AnalysisOutro: string :=
    "\n\nProvide your analysis in valid JSON format only, with no additional text before or after."

  const AnalysisText: AnalysisTemplate := AnalysisTemplate(AnalysisIntro, AnalysisInstructions, AnalysisOutro)

  const FileTag: string := "Protocol File: "

  /** The line naming the file: present only for a non-empty file name. */
  function FileLine(filename: string): string {
    if filename == "" then "" else FileTag + filename
  }

  /** The prompt built from template `t`: the introduction, the file line, then a blank line,
      the instructions, the protocol text and the closing request. */
  function AnalysisPromptWith(t: AnalysisTemplate, text: string, filename: string): string {
    t.intro + (FileLine(filename) + AfterFileLine(t, text))
  }

  function AfterFileLine(t: AnalysisTemplate, text: string): string {
    "\n\n" + t.instructions + text + t.outro
  }

  /** `_create_analysis_prompt(protocol_text, filename)`. */
  function AnalysisPrompt(text: string, filename: string): string {
    AnalysisPromptWith(AnalysisText, text, filename)
  }

  /** What can be read back out of an analysis prompt. */
  datatype PromptFields = PromptFields(filename: string, text: string)

  /** Reads the file name and the protocol text back out of a prompt built from `t`: the
      file name runs from the file tag to the end of its line, and is empty when the text
      after the introduction does not start with the tag. */
  function ReadAnalysisPrompt(t: AnalysisTemplate, p: string): (r: Option<PromptFields>)
    ensures r.Some? ==> '\n' !in r.value.filename
  {
    if |p| < |t.intro| || p[..|t.intro|] != t.intro then None
    else ReadFileLine(t, p[|t.intro|..])
  }

  /** The file line and what follows it. */
  function ReadFileLine(t: AnalysisTemplate, rest: string): (r: Option<PromptFields>)
    ensures r.Some? ==> '\n' !in r.value.filename
  {
    if |rest| >= |FileTag| && rest[..|FileTag|] == FileTag then
      var named := rest[|FileTag|..];
      match FirstIndexOf(named, '\n')
      case None => None
      case Some(j) =>
        match ReadBody(t, named[j..])
        case None => None
        case Some(text) => Some(PromptFields(named[..j], text))
    else
      match ReadBody(t, rest)
      case None => None
      case Some(text) => Some(PromptFields("", text))
  }

  /** The protocol text between the instructions and the closing request. */
  function ReadBody(t: AnalysisTemplate, after: string): Option<string> {
    var head := "\n\n" + t.instructions;
    if |after| >= |head| + |t.outro| && after[..|head|] == head
       && after[|after| - |t.outro|..] == t.outro
    then Some(after[|head|..|after| - |t.outro|])
    else None
  }

  /** The prompt carries a file line exactly when the file name is non-empty, and the file
      name and the full protocol text can both be read back from it (for a file name on one
      line), whatever the template's fixed text. */
  lemma AnalysisPromptRoundTrip(t: AnalysisTemplate, text: string, filename: string)
    requires '\n' !in filename
    ensures ReadAnalysisPrompt(t, AnalysisPromptWith(t, text, filename))
         == Some(PromptFields(filename, text))
  {
    var tail := AfterFileLine(t, text);
    var rest := FileLine(filename) + tail;
    var p := AnalysisPromptWith(t, text, filename);
    assert p[..|t.intro|] == t.intro;
    assert p[|t.intro|..] == rest;
    assert ReadAnalysisPrompt(t, p) == ReadFileLine(t, rest);
    ReadBodyOfTail(t, text);
    if filename == "" {
      assert rest == tail;
      NoTagBeforeBlankLine(t, tail);
    } else {
      ReadTaggedLine(t, filename, tail, text);
    }
  }

  lemma ReadBodyOfTail(t: AnalysisTemplate, text: string)
    ensures ReadBody(t, AfterFileLine(t, text)) == Some(text)
  {
    var head := "\n\n" + t.instructions;
    var after := head + text + t.outro;
    assert after[..|head|] == head;
    assert after[|after| - |t.outro|..] == t.outro;
    assert after[|head|..|after| - |t.outro|] == text;
  }

  lemma NoTagBeforeBlankLine(t: AnalysisTemplate, tail: string)
    requires |tail| > 0 && tail[0] == '\n'
    ensures ReadFileLine(t, tail) == match ReadBody(t, tail)
      case None => None
      case Some(text) => Some(PromptFields("", text))
  {
    assert |tail| >= |FileTag| ==> tail[..|FileTag|][0] != FileTag[0];
  }

  lemma ReadTaggedLine(t: AnalysisTemplate, filename: string, tail: string, text: string)
    requires filename != "" && '\n' !in filename
    requires |tail| > 0 && tail[0] == '\n'
    requires ReadBody(t, tail) == Some(text)
    ensures ReadFileLine(t, FileLine(filename) + tail) == Some(PromptFields(filename, text))
  {
    var rest := FileTag + filename + tail;
    assert rest == FileTag + (filename + tail);
    assert rest[..|FileTag|] == FileTag;
    var named := rest[|FileTag|..];
    assert named == filename + tail;
    FirstNewlineAfterName(filename, tail);
    assert named[..|filename|] == filename;
    assert named[|filename|..] == tail;
  }

  lemma FirstNewlineAfterName(name: string, tail: string)
    requires '\n' !in name
    requires |tail| > 0 && tail[0] == '\n'
    ensures FirstIndexOf(name + tail, '\n') == Some(|name|)
  {
    assert (name + tail)[|name|] == '\n';
  }

  // ---------------------------------------------------------------------------------------
  // Parsing the reply
  // ---------------------------------------------------------------------------------------

  /** The value of `total_issues`: a count the parser filled in, or whatever the reply
      carried (the prompt asks for it as a string). */
  datatype Issues = Counted(n: nat) | Reported(value: string)

  /** The object `json.loads` produced. Every key is optional; `error` holds when the object
      carries a truthy `error` key. */
  datatype Decoded = Decoded(
    summary: Option<string>,
    overallScore: Option<string>,
    totalIssues: Option<Issues>,
    suggestions: Option<seq<Suggestion>>,
    error: bool,
    message: Option<string>)

  /** What `_parse_analysis_response` returns: the decoded object with its defaults filled in
      and its suggestions sorted, the fixed result for a reply with no object span, or the
      error result for a span that does not decode. */
  datatype Parsed =
    | Structured(
        summary: string,
        overallScore: Option<string>,
        totalIssues: Issues,
        suggestions: seq<Suggestion>,
        errorFlag: bool,
        message: Option<string>)
    | Unexpected(rawResponse: string)
    | Undecodable(rawResponse: string)
  {
    /** The `summary` key, absent from the decode-error result. */
    function Summary(): Option<string> {
      match this
      case Structured(s, _, _, _, _, _) => Some(s)
      case Unexpected(_) => Some(UnexpectedSummary)
      case Undecodable(_) => None
    }

    /** The `total_issues` key, absent from the decode-error result. */
    function Total(): Option<Issues> {
      match this
      case Structured(_, _, t, _, _, _) => Some(t)
      case Unexpected(_) => Some(Counted(0))
      case Undecodable(_) => None
    }

    /** The `suggestions` key, present in every result. */
    function SuggestionList(): seq<Suggestion> {
      if Structured? then suggestions else []
    }

    /** Whether `result.get('error')` is truthy. */
    predicate ErrorFlag() {
      match this
      case Structured(_, _, _, _, e, _) => e
      case Unexpected(_) => false
      case Undecodable(_) => true
    }
  }

  const UnexpectedSummary: string := "Analysis completed but response format was unexpected"
  const DefaultSummary: string := "Analysis completed"

  /** A candidate JSON object in the reply: from `start` up to, not including, `end`. */
  datatype Span = Span(start: nat, end: nat)

  /** Some `{` comes before some `}`. */
  predicate HasObjectSpan(text: string) {
    exists i, j :: 0 <= i < j < |text| && text[i] == '{' && text[j] == '}'
  }

  /** The span from the first `{` to the last `}`, computed with `find`/`rfind` and their
      -1 answers as the parser does. */
  function JsonSpan(text: string): (r: Option<Span>)
    ensures r.Some? <==> HasObjectSpan(text)
    ensures r.Some? ==>
      && r.value.start < r.value.end <= |text|
      && text[r.value.start] == '{' && (forall k :: 0 <= k < r.value.start ==> text[k] != '{')
      && text[r.value.end - 1] == '}' && (forall k :: r.value.end <= k < |text| ==> text[k] != '}')
  {
    var start: int := match FirstIndexOf(text, '{') case None => -1 case Some(i) => i;
    var end: int := (match LastIndexOf(text, '}') case None => -1 case Some(j) => j) + 1;
    SpanExists(text);
    if start != -1 && end > start then Some(Span(start, end)) else None
  }

  /** There is a `{` before a `}` exactly when the first `{` precedes the last `}`. */
  lemma SpanExists(text: string)
    ensures HasObjectSpan(text) <==>
      FirstIndexOf(text, '{').Some? && LastIndexOf(text, '}').Some?
      && FirstIndexOf(text, '{').value < LastIndexOf(text, '}').value
  {
    if HasObjectSpan(text) {
      var i, j :| 0 <= i < j < |text| && text[i] == '{' && text[j] == '}';
      assert text[i] in text;
      assert text[j] in text;
      var f, l := FirstIndexOf(text, '{').value, LastIndexOf(text, '}').value;
      assert f <= i;
      assert l >= j;
    }
  }

  /** The text handed to `json.loads`. */
  function SpanText(text: string): (r: Option<string>)
    ensures r.Some? <==> HasObjectSpan(text)
    ensures r.Some? ==> |r.value| >= 2 && r.value[0] == '{' && r.value[|r.value| - 1] == '}'
  {
    match JsonSpan(text)
    case None => None
    case Some(s) => Some(text[s.start..s.end])
  }

  /** The defaults and the priority sort applied to a decoded object. */
  function Normalize(d: Decoded): (r: Parsed)
    ensures r.Structured?
    ensures d.summary.Some? ==> r.summary == d.summary.value
    ensures d.summary.None? ==> r.summary == DefaultSummary
    ensures d.totalIssues.Some? ==> r.totalIssues == d.totalIssues.value
    ensures d.totalIssues.None? ==> r.totalIssues == Counted(|d.suggestions.GetOr([])|)
    ensures r.overallScore == d.overallScore && r.errorFlag == d.error && r.message == d.message
    ensures StableSort.SortedBy(r.suggestions, Rank)
    ensures multiset(r.suggestions) == multiset(d.suggestions.GetOr([]))
    ensures forall k: nat :: StableSort.OfKey(r.suggestions, Rank, k)
                          == StableSort.OfKey(d.suggestions.GetOr([]), Rank, k)
  {
    var items := d.suggestions.GetOr([]);
    var total := match d.totalIssues case Some(t) => t case None => Counted(|items|);
    Structured(d.summary.GetOr(DefaultSummary), d.overallScore, total, SortSuggestions(items),
               d.error, d.message)
  }

  /** A parsed analysis written back as a decoded object with every key present. */
  function Restore(p: Parsed): Decoded
    requires p.Structured?
  {
    Decoded(Some(p.summary), p.overallScore, Some(p.totalIssues), Some(p.suggestions),
            p.errorFlag, p.message)
  }

  /** Parsing is idempotent: normalizing the written-back result of a normalization gives
      that result again, because defaults only fill absent keys and the sort is stable. */
  lemma NormalizeIdempotent(d: Decoded)
    ensures Normalize(Restore(Normalize(d))) == Normalize(d)
  {
    SortSuggestionsIdempotent(d.suggestions.GetOr([]));
  }

  /** `_parse_analysis_response(response_text)`. */
  function ParseResponse(text: string, decode: string -> Option<Decoded>): (r: Parsed)
    ensures r.Unexpected? <==> !HasObjectSpan(text)
    ensures r.Undecodable? <==> HasObjectSpan(text) && decode(SpanText(text).value).None?
    ensures !r.Structured? ==> r.rawResponse == text
    ensures r.Structured? ==> r == Normalize(decode(SpanText(text).value).value)
  {
    match SpanText(text)
    case None => Unexpected(text)
    case Some(json) =>
      match decode(json)
      case None => Undecodable(text)
      case Some(d) => Normalize(d)
  }

  /** The fixed results: with no object span, a summary, no suggestions, zero issues and no
      error flag; with an undecodable span, the error flag and no suggestions. */
  lemma ParseFallbacks(text: string, decode: string -> Option<Decoded>)
    ensures !HasObjectSpan(text) ==>
      var r := ParseResponse(text, decode);
      r.Summary() == Some(UnexpectedSummary) && r.SuggestionList() == []
      && r.Total() == Some(Counted(0)) && !r.ErrorFlag()
    ensures HasObjectSpan(text) && decode(SpanText(text).value).None? ==>
      var r := ParseResponse(text, decode);
      r.ErrorFlag() && r.SuggestionList() == [] && r.Summary().None?
  {
  }

  // ---------------------------------------------------------------------------------------
  // Analysis entry point
  // ---------------------------------------------------------------------------------------

  /** The `metadata` the analyzer attaches to a parsed reply. The model name and token counts
      are not modelled. */
  datatype AnalysisMetadata = AnalysisMetadata(filename: string, protocolLength: nat)

  /** `analyze_protocol`: a parsed reply with its metadata, or the error result of a failed
      model call. */
  datatype Analysis = Analyzed(parsed: Parsed, metadata: AnalysisMetadata) | CallFailed {
    predicate HasErrorFlag() {
      CallFailed? || parsed.ErrorFlag()
    }
    function SuggestionList(): seq<Suggestion> {
      if CallFailed? then [] else parsed.SuggestionList()
    }
  }

  /** `analyze_protocol` once the model has answered, or failed to (`None`, when the call
      raised): the parsed reply with its metadata, or the error result. */
  function AnalyzeReply(reply: Option<string>, text: string, filename: string,
                        decode: string -> Option<Decoded>): (r: Analysis)
    ensures r.CallFailed? <==> reply.None?
    ensures r.Analyzed? ==>
      && r.parsed == ParseResponse(reply.value, decode)
      && r.metadata == AnalysisMetadata(filename, |text|)
  {
    match reply
    case None => CallFailed
    case Some(response) => Analyzed(ParseResponse(response, decode), AnalysisMetadata(filename, |text|))
  }

  /** `analyze_protocol(protocol_text, filename)`: the model is asked with the analysis
      prompt for this text and name. */
  function AnalyzeProtocol(text: string, filename: string, llm: string -> Option<string>,
                           decode: string -> Option<Decoded>): (r: Analysis)
    ensures r.CallFailed? <==> llm(AnalysisPrompt(text, filename)).None?
    ensures r.Analyzed? ==>
      && r.parsed == ParseResponse(llm(AnalysisPrompt(text, filename)).value, decode)
      && r.metadata.protocolLength == |text| && r.metadata.filename == filename
  {
    AnalyzeReply(llm(AnalysisPrompt(text, filename)), text, filename, decode)
  }

  // ---------------------------------------------------------------------------------------
  // Revision
  // ---------------------------------------------------------------------------------------

  /** One bullet `- {location}: {suggestion}`, or `None` where the dictionary lookup of
      either key raises `KeyError`. */
  function Bullet(s: Suggestion): (r: Option<string>)
    ensures r.Some? <==> s.location.Some? && s.text.Some?
  {
    if s.location.Some? && s.text.Some? then Some("- " + s.location.value + ": " + s.text.value)
    else None
  }

  predicate HasBulletKeys(s: Suggestion) {
    s.location.Some? && s.text.Some?
  }

  /** One bullet per accepted suggestion, in the given order; `None` as soon as one lacks a
      key. */
  function Bullets(xs: seq<Suggestion>): (r: Option<seq<string>>)
    ensures r.Some? <==> forall i :: 0 <= i < |xs| ==> HasBulletKeys(xs[i])
    ensures r.Some? ==> |r.value| == |xs|
    ensures r.Some? ==> forall i :: 0 <= i < |xs| ==> Some(r.value[i]) == Bullet(xs[i])
  {
    if |xs| == 0 then Some([])
    else
      match Bullet(xs[0])
      case None => None
      case Some(b) =>
        match Bullets(xs[1..])
        case None =>
          assert !HasBulletKeys(xs[1..][0]) || exists i :: 0 <= i < |xs[1..]| && !HasBulletKeys(xs[1..][i]);
          None
        case Some(bs) =>
          assert forall i :: 1 <= i < |xs| ==> xs[i] == xs[1..][i - 1];
          Some([b] + bs)
  }

  /** `"\n".join(...)` of the bullets. */
  function BulletBlock(xs: seq<Suggestion>): (r: Option<string>)
    ensures r.Some? <==> Bullets(xs).Some?
  {
    match Bullets(xs)
    case None => None
    case Some(bs) => Some(Join(bs, "\n"))
  }

  lemma BulletOneLine(s: Suggestion)
    requires HasBulletKeys(s) && '\n' !in s.location.value && '\n' !in s.text.value
    ensures '\n' !in Bullet(s).value
  {
  }

  /** For one-line locations and suggestions, the block splits back into exactly one bullet
      per accepted suggestion, in order. */
  lemma BulletBlockLines(xs: seq<Suggestion>)
    requires |xs| >= 1
    requires forall i :: 0 <= i < |xs| ==>
      HasBulletKeys(xs[i]) && '\n' !in xs[i].location.value && '\n' !in xs[i].text.value
    ensures Split(BulletBlock(xs).value, '\n') == Bullets(xs).value
  {
    var bs := Bullets(xs).value;
    forall k | 0 <= k < |bs| ensures '\n' !in bs[k] {
      BulletOneLine(xs[k]);
    }
    SplitJoin(bs, '\n');
  }

  /** The fixed text of the revision prompt around the bullet block and the original. */
  datatype RevisionTemplate = RevisionTemplate(intro: string, middle: string, outro: string)

  const RevisionText: RevisionTemplate := RevisionTemplate(
    "You are a laboratory protocol editor. Please rewrite this protocol incorporating the following improvements:\n\n",
    "\n\nMaintain the original structure and style, but integrate these improvements naturally. Make the protocol clearer and safer while keeping it professional.\n\nOriginal Protocol:\n",
    "\n\nProvide the improved protocol below:")

  function RevisionPromptWith(t: RevisionTemplate, block: string, original: string): string {
    t.intro + block + t.middle + original + t.outro
  }

  /** The revision prompt sent to the model. */
  function RevisionPrompt(block: string, original: string): string {
    RevisionPromptWith(RevisionText, block, original)
  }

  /** Reads the original protocol back out of a revision prompt built from `t` around a known
      bullet block. */
  function ReadRevisionPrompt(t: RevisionTemplate, p: string, block: string): (r: Option<string>)
    ensures r.Some? ==> |r.value| + |t.intro| + |block| + |t.middle| + |t.outro| == |p|
  {
    var head := t.intro + block + t.middle;
    if |p| >= |head| + |t.outro| && p[..|head|] == head && p[|p| - |t.outro|..] == t.outro
    then Some(p[|head|..|p| - |t.outro|])
    else None
  }

  /** The prompt holds the bullet block right after the introduction and the original
      protocol in full, which reads back unchanged. */
  lemma RevisionPromptRoundTrip(t: RevisionTemplate, block: string, original: string)
    ensures var p := RevisionPromptWith(t, block, original);
      |p| >= |t.intro| + |block| && p[|t.intro|..|t.intro| + |block|] == block
    ensures ReadRevisionPrompt(t, RevisionPromptWith(t, block, original), block) == Some(original)
  {
    var p := RevisionPromptWith(t, block, original);
    var head := t.intro + block + t.middle;
    assert p == head + original + t.outro;
    assert p == t.intro + block + (t.middle + original + t.outro);
    assert p[..|head|] == head;
    assert p[|p| - |t.outro|..] == t.outro;
    assert p[|head|..|p| - |t.outro|] == original;
  }

  /** Why a revision cannot be produced: a suggestion without `location` or `suggestion`. */
  datatype RevisionError = MissingKey

  /** `generate_improved_protocol(original_text, accepted_suggestions)`. The original comes
      back unchanged, without consulting the model, when nothing was accepted, and also when
      the model call fails; a missing key is an error the caller sees. */
  function GenerateImprovedProtocol(original: string, accepted: seq<Suggestion>,
                                    llm: string -> Option<string>): (r: Result<string, RevisionError>)
    ensures |accepted| == 0 ==> r == Success(original)
    ensures |accepted| > 0 ==>
      (r.Failure? <==> exists i :: 0 <= i < |accepted| && !HasBulletKeys(accepted[i]))
    ensures |accepted| > 0 && r.Success? ==>
      var p := RevisionPrompt(BulletBlock(accepted).value, original);
      r.value == (if llm(p).Some? then llm(p).value else original)
  {
    if |accepted| == 0 then Success(original)
    else
      match BulletBlock(accepted)
      case None => Failure(MissingKey)
      case Some(block) =>
        match llm(RevisionPrompt(block, original))
        case None => Success(original)
        case Some(reply) => Success(reply)
  }

  /** Without accepted suggestions the result does not depend on the model at all. */
  lemma EmptyAcceptedSkipsModel(original: string, llm1: string -> Option<string>,
                                llm2: string -> Option<string>)
    ensures GenerateImprovedProtocol(original, [], llm1) == GenerateImprovedProtocol(original, [], llm2)
  {
  }
}
