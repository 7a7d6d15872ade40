/** The request handlers of backend/main.py: upload validation, the analysis cache with its
    error gate, and the selection of accepted suggestions for `/api/improve`.

    Time stamps, the stored file and the two libraries are parameters: `stamp` is the
    upload's `%Y%m%d_%H%M%S` time, `saved` says whether writing the upload succeeded, `doc`
    is what the PDF and Word readers make of it, `reply` and `llm` stand for the model's
    answers and `decode` for `json.loads`. */
module Service {
  import opened Wrappers
  import opened Strings
  import opened Suggestions
  import opened TextExtraction
  import opened Analyzer

  const MaxFileSizeMb: nat := 10
  const MaxFileSizeBytes: nat := MaxFileSizeMb * 1024 * 1024
  const AllowedExtensions: set<string> := {".pdf", ".docx", ".doc"}
  const UploadFolder: string := "../uploads"
  const PreviewChars: int := 500

  /** The `HTTPException`s the handlers raise, and the `IndexError` that escapes one. */
  datatype ApiError =
    | InvalidFileType(extension: string)
    | FileTooLarge(size: nat)
    | ProcessingFailed(cause: Option<ExtractError>)
    | AnalysisFailed
    | MissingAnalysisId
    | AnalysisNotFound(id: string)
    | ImproveFailed
    | IndexOutOfRange(index: int)
  {
    /** The HTTP status the client sees; an uncaught exception becomes a 500. */
    function Status(): nat {
      match this
      case InvalidFileType(_) => 400
      case FileTooLarge(_) => 400
      case ProcessingFailed(_) => 500
      case AnalysisFailed => 500
      case MissingAnalysisId => 400
      case AnalysisNotFound(_) => 404
      case ImproveFailed => 500
      case IndexOutOfRange(_) => 500
    }
  }

  // ---------------------------------------------------------------------------------------
  // Upload
  // ---------------------------------------------------------------------------------------

  /** The two checks made before anything is written: the extension, then the size. */
  function Validate(filename: string, size: nat): (r: Option<ApiError>)
    ensures r.None? <==> Extension(filename) in AllowedExtensions && size <= MaxFileSizeBytes
    ensures Extension(filename) !in AllowedExtensions ==> r == Some(InvalidFileType(Extension(filename)))
    ensures Extension(filename) in AllowedExtensions && size > MaxFileSizeBytes ==> r == Some(FileTooLarge(size))
    ensures r.Some? ==> r.value.Status() == 400
  {
    var ext := Extension(filename);
    if ext !in AllowedExtensions then Some(InvalidFileType(ext))
    else if size > MaxFileSizeBytes then Some(FileTooLarge(size))
    else None
  }

  /** The size ceiling is inclusive: exactly ten mebibytes is accepted, one byte more is not. */
  lemma SizeBoundary(filename: string)
    ensures Extension(filename) in AllowedExtensions ==> Validate(filename, 10485760).None?
    ensures Extension(filename) in AllowedExtensions ==>
      Validate(filename, 10485761) == Some(FileTooLarge(10485761))
  {
  }

  /** A concrete upload name: its upper-case suffix is accepted as `.pdf`, at exactly the
      size ceiling and not one byte above it. */
  lemma ValidateExample()
    ensures Extension("protocol.PDF") == ".pdf"
    ensures Validate("protocol.PDF", 10485760).None?
    ensures Validate("protocol.PDF", 10485761) == Some(FileTooLarge(10485761))
  {
    var name := "protocol.PDF";
    LastIndexOfIs(name, '.', 8);
    BaseNameOfName(name);
    assert Suffix(name) == ".PDF";
    var low := Lower(".PDF");
    assert low[0] == '.' && low[1] == 'p' && low[2] == 'd' && low[3] == 'f';
    assert low == ".pdf";
  }

  /** The upload check admits exactly the extensions the extractor dispatches on. */
  lemma AllowedMatchesDispatch(ext: string)
    ensures ext in AllowedExtensions <==> FormatOf(ext).Some?
  {
  }

  /** The name the upload is stored under. */
  function StoredName(stamp: string, filename: string): string {
    stamp + "_" + filename
  }

  /** The path the upload is written to and read back from: the stored name inside the
      upload folder. */
  function StoredPath(stamp: string, filename: string): string {
    UploadFolder + "/" + stamp + "_" + filename
  }

  /** The stored file keeps the extension of the uploaded name whenever it has one. */
  lemma StoredPathExtension(stamp: string, filename: string)
    ensures Suffix(filename) != "" ==> Extension(StoredPath(stamp, filename)) == Extension(filename)
  {
    if Suffix(filename) != "" {
      SuffixAppend(UploadFolder + "/" + stamp + "_", filename);
    }
  }

  /** A name that passed validation is stored under a path the extractor dispatches to the
      same reader. */
  lemma StoredPathFormat(stamp: string, filename: string)
    ensures Extension(filename) in AllowedExtensions ==>
      && FormatOf(Extension(StoredPath(stamp, filename))) == FormatOf(Extension(filename))
      && FormatOf(Extension(filename)).Some?
  {
    if Extension(filename) in AllowedExtensions {
      assert Suffix(filename) != "";
      StoredPathExtension(stamp, filename);
      AllowedMatchesDispatch(Extension(filename));
    }
  }

  /** A validated and extracted upload. */
  datatype Upload = Upload(
    storedName: string,
    originalName: string,
    size: nat,
    text: string,
    metadata: Metadata)

  /** The JSON the upload endpoint returns for a stored and extracted upload. */
  datatype UploadResponse = UploadResponse(
    filename: string,
    originalFilename: string,
    fileSize: nat,
    textLength: nat,
    preview: string,
    metadata: Metadata)

  /** The upload endpoint's answer: the names, the size, the text length and a preview of at
      most 500 characters plus "...". */
  function UploadReply(u: Upload): (r: UploadResponse)
    ensures r.filename == u.storedName && r.originalFilename == u.originalName
    ensures r.fileSize == u.size && r.textLength == |u.text| && r.metadata == u.metadata
    ensures |u.text| <= 500 ==> r.preview == u.text
    ensures |u.text| > 500 ==>
      |r.preview| == 503 && r.preview[..500] == u.text[..500] && r.preview[500..] == "..."
  {
    UploadResponse(u.storedName, u.originalName, u.size, |u.text|, Preview(u.text, PreviewChars), u.metadata)
  }

  /** `upload_protocol`: validate, store, extract. */
  function Ingest(filename: string, size: nat, stamp: string, saved: bool, doc: Document)
    : (r: Result<Upload, ApiError>)
    ensures Validate(filename, size).Some? ==> r == Failure(Validate(filename, size).value)
    ensures Validate(filename, size).None? && !saved ==> r == Failure(ProcessingFailed(None))
    ensures Validate(filename, size).None? && saved ==>
      var x := Extract(StoredPath(stamp, filename), doc);
      && (r.Failure? <==> x.Failure?)
      && (r.Failure? ==> r.error == ProcessingFailed(Some(x.error)))
      && (r.Success? ==> r.value == Upload(StoredName(stamp, filename), filename, size, x.value.text, x.value.metadata))
  {
    match Validate(filename, size)
    case Some(e) => Failure(e)
    case None =>
      if !saved then Failure(ProcessingFailed(None))
      else
        match Extract(StoredPath(stamp, filename), doc)
        case Failure(e) => Failure(ProcessingFailed(Some(e)))
        case Success(x) => Success(Upload(StoredName(stamp, filename), filename, size, x.text, x.metadata))
  }

  /** An upload that passes validation is never rejected by the extractor as an unsupported
      format: the stored name carries the validated extension. */
  lemma ValidatedUploadIsSupported(filename: string, size: nat, stamp: string, saved: bool, doc: Document)
    requires Validate(filename, size).None?
    ensures Ingest(filename, size, stamp, saved, doc).Failure? ==>
      var e := Ingest(filename, size, stamp, saved, doc).error;
      e.ProcessingFailed? && (e.cause.None? || !e.cause.value.UnsupportedFormat?)
  {
    StoredPathFormat(stamp, filename);
  }

  // ---------------------------------------------------------------------------------------
  // Analysis cache
  // ---------------------------------------------------------------------------------------

  /** One cache entry. The entry's time stamp is not modelled. */
  datatype Record = Record(originalText: string, analysis: Analysis, filename: string)

  type Cache = map<string, Record>

  /** The JSON the analyze endpoint returns, with the response defaults applied. */
  datatype AnalyzeResponse = AnalyzeResponse(
    analysisId: string,
    filename: string,
    summary: string,
    overallScore: string,
    totalIssues: Issues,
    suggestions: seq<Suggestion>,
    metadata: Option<AnalysisMetadata>)

  /** A handler's answer together with the cache it leaves behind. */
  datatype Step<T> = Step(response: Result<T, ApiError>, cache: Cache)

  /** The response built from a cached analysis: `result.get(key, default)` for each key. */
  function Respond(id: string, filename: string, a: Analysis): (r: AnalyzeResponse)
    ensures r.analysisId == id && r.filename == filename
    ensures r.suggestions == a.SuggestionList()
    ensures a.Analyzed? && a.parsed.Structured? ==>
      && r.summary == a.parsed.summary
      && r.overallScore == a.parsed.overallScore.GetOr("N/A")
      && r.totalIssues == a.parsed.totalIssues
      && r.metadata == Some(a.metadata)
    ensures a.Analyzed? && a.parsed.Unexpected? ==>
      r.summary == UnexpectedSummary && r.overallScore == "N/A" && r.totalIssues == Counted(0)
  {
    match a
    case CallFailed => AnalyzeResponse(id, filename, "", "N/A", Counted(0), [], None)
    case Analyzed(p, m) =>
      var score := if p.Structured? then p.overallScore.GetOr("N/A") else "N/A";
      AnalyzeResponse(id, filename, p.Summary().GetOr(""), score, p.Total().GetOr(Counted(0)),
                      p.SuggestionList(), Some(m))
  }

  /** The part of `analyze_protocol` after the upload: analyse the extracted text under the
      original name, refuse a result with a truthy `error`, and cache the rest under the
      stored name followed by `idStamp`. `reply` stands for
      `llm(AnalysisPrompt(u.text, u.originalName))`, the model's answer to the analysis prompt
      for that text and original name, `None` when the call raised; with that reply the
      analysis is `AnalyzeProtocol(u.text, u.originalName, llm, decode)`. */
  function AnalyzeUpload(cache: Cache, u: Upload, idStamp: string, reply: Option<string>,
                         decode: string -> Option<Decoded>): (r: Step<AnalyzeResponse>)
    ensures var a := AnalyzeReply(reply, u.text, u.originalName, decode);
      && (r.response.Failure? <==> a.HasErrorFlag())
      && (r.response.Failure? ==> r.response.error == AnalysisFailed && r.cache == cache)
      && (r.response.Success? ==>
            var id := u.storedName + "_" + idStamp;
            && r.response.value == Respond(id, u.originalName, a)
            && id in r.cache && r.cache[id] == Record(u.text, a, u.originalName)
            && r.cache.Keys == cache.Keys + {id}
            && (forall k :: k in cache && k != id ==> r.cache[k] == cache[k]))
  {
    var a := AnalyzeReply(reply, u.text, u.originalName, decode);
    if a.HasErrorFlag() then Step(Failure(AnalysisFailed), cache)
    else
      var id := u.storedName + "_" + idStamp;
      Step(Success(Respond(id, u.originalName, a)), cache[id := Record(u.text, a, u.originalName)])
  }

  /** `analyze_protocol`: an upload error is passed on unchanged and leaves the cache alone.
      As in `AnalyzeUpload`, `reply` stands for `llm(AnalysisPrompt(text, original_name))`
      for the extracted text and original name of the upload. */
  function Analyze(cache: Cache, filename: string, size: nat, stamp: string, idStamp: string,
                   saved: bool, doc: Document, reply: Option<string>,
                   decode: string -> Option<Decoded>): (r: Step<AnalyzeResponse>)
    ensures r.response.Failure? ==> r.cache == cache
    ensures Ingest(filename, size, stamp, saved, doc).Failure? ==>
      r.response == Failure(Ingest(filename, size, stamp, saved, doc).error)
    ensures Ingest(filename, size, stamp, saved, doc).Success? ==>
      r == AnalyzeUpload(cache, Ingest(filename, size, stamp, saved, doc).value, idStamp, reply, decode)
  {
    match Ingest(filename, size, stamp, saved, doc)
    case Failure(e) => Step(Failure(e), cache)
    case Success(u) => AnalyzeUpload(cache, u, idStamp, reply, decode)
  }

  /** A reply without an object span is not an error: it is cached and answered with the
      fixed summary and no suggestions. */
  lemma UnexpectedReplyIsCached(cache: Cache, u: Upload, idStamp: string, reply: Option<string>,
                                decode: string -> Option<Decoded>)
    requires reply.Some? && !HasObjectSpan(reply.value)
    ensures var r := AnalyzeUpload(cache, u, idStamp, reply, decode);
      && r.response.Success?
      && r.response.value.summary == UnexpectedSummary
      && r.response.value.suggestions == []
      && r.response.value.totalIssues == Counted(0)
  {
  }

  // ---------------------------------------------------------------------------------------
  // Improve
  // ---------------------------------------------------------------------------------------

  /** Python's `xs[i]` position for a list of length `n`: negative indices count from the
      end, and anything outside `-n .. n-1` raises `IndexError`. */
  function PyIndex(n: nat, i: int): (r: Option<nat>)
    ensures r.Some? <==> 0 <= i + n && i < n
    ensures r.Some? ==> r.value < n
    ensures r.Some? && i >= 0 ==> r.value == i
    ensures r.Some? && i < 0 ==> r.value + (-i) == n
  {
    if 0 <= i < n then Some(i)
    else if i < 0 && 0 <= i + n then Some(i + n)
    else None
  }

  /** `[all[i] for i in indices if i < len(all)]`, or the first index that raises. */
  function Accepted(all: seq<Suggestion>, indices: seq<int>): (r: Result<seq<Suggestion>, int>)
    ensures r.Failure? <==> exists k :: 0 <= k < |indices| && indices[k] + |all| < 0
    ensures r.Failure? ==> r.error + |all| < 0 && r.error in indices
  {
    if |indices| == 0 then Success([])
    else
      var i := indices[0];
      assert forall k :: 1 <= k < |indices| ==> indices[k] == indices[1..][k - 1];
      if i >= |all| then Accepted(all, indices[1..])
      else
        match PyIndex(|all|, i)
        case None => Failure(i)
        case Some(j) =>
          match Accepted(all, indices[1..])
          case Failure(e) => Failure(e)
          case Success(rest) => Success([all[j]] + rest)
  }

  /** The indices that pass the `i < len(all)` filter, in order. */
  function Below(indices: seq<int>, n: nat): (r: seq<int>)
    ensures |r| <= |indices|
    ensures forall k :: 0 <= k < |r| ==> r[k] < n && r[k] in indices
  {
    if |indices| == 0 then []
    else if indices[0] < n then [indices[0]] + Below(indices[1..], n)
    else Below(indices[1..], n)
  }

  /** The filter keeps a single index exactly when it is below the length. */
  lemma BelowSingle(i: int, n: nat)
    ensures Below([i], n) == if i < n then [i] else []
  {
    assert [i][1..] == [];
  }

  /** The filter works index by index: what survives of `a` comes before what survives of
      `b`, so every index below the length is kept, in order and with repetitions. */
  lemma {:induction false} BelowConcat(a: seq<int>, b: seq<int>, n: nat)
    ensures Below(a + b, n) == Below(a, n) + Below(b, n)
  {
    if |a| > 0 {
      assert (a + b)[0] == a[0];
      assert (a + b)[1..] == a[1..] + b;
      BelowConcat(a[1..], b, n);
    } else {
      assert a + b == b;
    }
  }

  /** The comprehension keeps one suggestion per surviving index, in index order and with
      repetitions, each the element Python's indexing selects. */
  lemma {:induction false} AcceptedContents(all: seq<Suggestion>, indices: seq<int>)
    requires Accepted(all, indices).Success?
    ensures var r := Accepted(all, indices).value;
      var kept := Below(indices, |all|);
      && |r| == |kept|
      && (forall k :: 0 <= k < |r| ==>
            PyIndex(|all|, kept[k]).Some? && r[k] == all[PyIndex(|all|, kept[k]).value])
  {
    if |indices| > 0 {
      var i := indices[0];
      AcceptedContents(all, indices[1..]);
      if i < |all| {
        var rest := Accepted(all, indices[1..]).value;
        var kept := Below(indices, |all|);
        assert kept == [i] + Below(indices[1..], |all|);
        assert Accepted(all, indices).value == [all[PyIndex(|all|, i).value]] + rest;
      }
    }
  }

  /** With indices inside the list, counting negative ones from the end, the selection is
      exactly the indexed elements. */
  lemma {:induction false} AcceptedInRange(all: seq<Suggestion>, indices: seq<int>)
    requires forall k :: 0 <= k < |indices| ==> -|all| <= indices[k] < |all|
    ensures Accepted(all, indices).Success?
    ensures |Accepted(all, indices).value| == |indices|
    ensures forall k :: 0 <= k < |indices| ==>
      PyIndex(|all|, indices[k]).Some? &&
      Accepted(all, indices).value[k] == all[PyIndex(|all|, indices[k]).value]
    ensures forall k :: 0 <= k < |indices| && indices[k] >= 0 ==>
      Accepted(all, indices).value[k] == all[indices[k]]
  {
    if |indices| > 0 {
      assert forall k :: 1 <= k < |indices| ==> indices[k] == indices[1..][k - 1];
      AcceptedInRange(all, indices[1..]);
    }
  }

  /** An index past the end is dropped without effect, wherever it occurs. */
  lemma {:induction false} AcceptedDropsLarge(all: seq<Suggestion>, a: seq<int>, i: int, b: seq<int>)
    requires i >= |all|
    ensures Accepted(all, a + [i] + b) == Accepted(all, a + b)
  {
    if |a| == 0 {
      assert a + [i] + b == [i] + b;
      assert ([i] + b)[1..] == b;
      assert a + b == b;
    } else {
      assert (a + [i] + b)[0] == a[0] && (a + b)[0] == a[0];
      assert (a + [i] + b)[1..] == a[1..] + [i] + b;
      assert (a + b)[1..] == a[1..] + b;
      AcceptedDropsLarge(all, a[1..], i, b);
    }
  }

  /** `[-1]` picks the last suggestion, as Python's wrap-around indexing does. */
  lemma AcceptedLast(all: seq<Suggestion>)
    requires |all| > 0
    ensures Accepted(all, [-1]) == Success([all[|all| - 1]])
  {
    assert [-1][1..] == [];
    assert Accepted(all, []) == Success([]);
    assert PyIndex(|all|, -1) == Some(|all| - 1);
    assert [all[|all| - 1]] + [] == [all[|all| - 1]];
  }

  /** The JSON the improve endpoint returns; `outputFilename` is absent on the short cut. */
  datatype ImproveResponse = ImproveResponse(
    improved: string,
    outputFilename: Option<string>,
    applied: nat)

  /** `generate_improved_protocol` of main.py. It never changes the cache, so it returns only
      its answer. `outStamp` is the `%Y%m%d_%H%M%S` time of the output file. */
  function Improve(cache: Cache, id: Option<string>, indices: Option<seq<int>>,
                   llm: string -> Option<string>, outStamp: string): (r: Result<ImproveResponse, ApiError>)
    ensures (id.None? || id == Some("")) ==> r == Failure(MissingAnalysisId)
    ensures id.Some? && id.value != "" && id.value !in cache ==> r == Failure(AnalysisNotFound(id.value))
    ensures r.Failure? ==> r.error.Status() in {400, 404, 500}
    ensures id.Some? && id.value != "" && id.value in cache ==>
      var rec := cache[id.value];
      match Accepted(rec.analysis.SuggestionList(), indices.GetOr([]))
      case Failure(i) => r == Failure(IndexOutOfRange(i))
      case Success(acc) =>
        && (|acc| == 0 ==> r == Success(ImproveResponse(rec.originalText, None, 0)))
        && (|acc| > 0 ==>
              match GenerateImprovedProtocol(rec.originalText, acc, llm)
              case Failure(_) => r == Failure(ImproveFailed)
              case Success(t) =>
                r == Success(ImproveResponse(t, Some("improved_" + rec.filename + "_" + outStamp + ".txt"), |acc|)))
  {
    if id.None? || id.value == "" then Failure(MissingAnalysisId)
    else if id.value !in cache then Failure(AnalysisNotFound(id.value))
    else
      var rec := cache[id.value];
      match Accepted(rec.analysis.SuggestionList(), indices.GetOr([]))
      case Failure(i) => Failure(IndexOutOfRange(i))
      case Success(acc) =>
        if |acc| == 0 then Success(ImproveResponse(rec.originalText, None, 0))
        else
          match GenerateImprovedProtocol(rec.originalText, acc, llm)
          case Failure(_) => Failure(ImproveFailed)
          case Success(t) =>
            Success(ImproveResponse(t, Some("improved_" + rec.filename + "_" + outStamp + ".txt"), |acc|))
  }

  /** The indices a client picks from an analyze response address the very list improve
      reads, and the text improve revises is the analysed one: after a successful analysis,
      an empty selection returns that text. */
  lemma AnalyzeThenImprove(cache: Cache, u: Upload, idStamp: string, reply: Option<string>,
                           decode: string -> Option<Decoded>, indices: seq<int>,
                           llm: string -> Option<string>, outStamp: string)
    requires AnalyzeUpload(cache, u, idStamp, reply, decode).response.Success?
    ensures var s := AnalyzeUpload(cache, u, idStamp, reply, decode);
      var resp := s.response.value;
      && resp.analysisId in s.cache
      && s.cache[resp.analysisId].analysis.SuggestionList() == resp.suggestions
      && s.cache[resp.analysisId].originalText == u.text
      && (Accepted(resp.suggestions, indices) == Success([]) ==>
            Improve(s.cache, Some(resp.analysisId), Some(indices), llm, outStamp)
              == Success(ImproveResponse(u.text, None, 0)))
  {
    var id := u.storedName + "_" + idStamp;
    assert id != "" by {
      assert |id| >= 1 + |idStamp|;
    }
  }
}
