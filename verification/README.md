# Protocol Improver: a Dafny model of its deterministic pipeline

Protocol Improver is a small web service for laboratory protocols. A user uploads a PDF or
Word file. The service extracts its text and asks a language model for improvement
suggestions, which come back as JSON. The service parses that JSON, sorts the suggestions by
priority and caches the analysis. Later, the user picks suggestions by index, and the service
asks the model to rewrite the protocol with them.

This project models everything in that pipeline that does not depend on the model or on a
library, and proves what it does:

- `Strings` (strings.dfy): the Python string operations the code relies on.
  - Blankness after `strip()`, with Python's white-space set.
  - `find` and `rfind` of one character.
  - `sep.join`, with splitting on a character as its inverse, used to read a joined block
    back.
  - `Path.suffix`, ASCII `lower()`, and `str(n)` for page numbers.
- `StableSort` (stable_sort.dfy): `list.sort(key=...)`, modelled as an insertion sort on a
  natural-number key. It is proved ordered, a permutation of its input, and stable.
- `Suggestions` (suggestions.dfy): the suggestion record and the priority rank.
  - HIGH is 0, MEDIUM 1, LOW 2, and any other value 3.
  - A missing priority ranks as LOW.
- `Analyzer` (analyzer.dfy), after backend/analyzer.py:
  - the analysis prompt, including the optional file line;
  - parsing a reply: the `{`…`}` span, the two fixed fallbacks, the defaults and the sort;
  - the revision bullet block and prompt;
  - the two entry points.
- `TextExtraction` (extraction.dfy), after backend/text_extractor.py:
  - dispatch on the lower-cased suffix;
  - assembling a PDF's text from its pages, and a Word document's text from its paragraphs
    and table cells;
  - the metadata, the no-text failure, and the preview.
- `Service` (service.dfy), after backend/main.py:
  - upload validation, against the limits in backend/config.py;
  - storing and extracting an upload;
  - the analysis cache with its error gate and the response defaults;
  - the selection of accepted suggestions by index for `/api/improve`, including Python's
    negative-index wrap-around and the `IndexError` past `-len`.

Some inputs are parameters instead of being modelled:

- `llm: string -> Option<string>` is the model's reply to a prompt. `None` means the call
  raised.
- `decode: string -> Option<Decoded>` is `json.loads`. `None` means a `JSONDecodeError`.
- A `Document` holds what the PDF and Word readers make of a stored file.
- Time stamps are strings.
- `saved` says whether writing the upload succeeded.

Every error the handlers raise is an `ApiError` carrying the HTTP status the client sees.
Negative indices pass the handler's `i < len(all)` filter. So `-1` selects the last
suggestion, and an index below `-len` raises an `IndexError` outside any `try`, which the
framework answers with status 500. The model keeps this behaviour.

## Model

| member | source | states |
|---|---|---|
| Strings.BlankAll | backend/text_extractor.py:48 | a string is blank after `strip()` exactly when every character is Python white space |
| Strings.BlankConcat | backend/text_extractor.py:57-59 | a concatenation is blank exactly when both halves are |
| Strings.FirstIndexOf | backend/analyzer.py:119 | `find` gives `None` (Python's -1) exactly when the character is absent, else the first position holding it |
| Strings.LastIndexOf | backend/analyzer.py:120 | `rfind` gives `None` exactly when the character is absent, else the position holding it with none after it |
| Strings.LastIndexOfAppend | backend/analyzer.py:120 | searching backwards in `a + b` finds an occurrence in `b` first, shifted by the length of `a` |
| Strings.LastIndexOfAppendMissing | backend/analyzer.py:120 | with no occurrence in `b`, searching `a + b` backwards answers as searching `a` |
| Strings.JoinBlank | backend/text_extractor.py:57-60 | `'\n'.join(parts)` is blank exactly when every part is blank |
| Strings.JoinNoneBlank | backend/text_extractor.py:57-60 | joining non-blank parts gives a blank text only for an empty list |
| Strings.SplitJoin | backend/analyzer.py:176-179 | splitting the joined bullets on `\n` gives back the bullets when none contains a line break |
| Strings.BaseName | backend/main.py:75 | the final path component has no separator |
| Strings.BaseNameEnds | backend/main.py:75 | the final path component ends the path |
| Strings.Suffix | backend/main.py:75 | `Path.suffix` is non-empty exactly when the final component's last dot is neither its first nor its last character, and is then the component from that dot on |
| Strings.NameSuffix | backend/main.py:75 | a name has a suffix exactly when its last dot is neither its first nor its last character; the suffix runs from that dot to the end, a dot followed by dot-free characters |
| Strings.SuffixEnds | backend/main.py:75 | a non-empty suffix ends the final component and is shorter than it |
| Strings.BaseNameAppend | backend/main.py:96 | prefixing a path leaves the final component alone when the rest has a separator, and extends it otherwise |
| Strings.SuffixAppend | backend/main.py:94-96 | any prefix leaves a non-empty suffix unchanged |
| Strings.NameSuffixAppend | backend/main.py:94-96 | any prefix of a final component leaves its non-empty suffix unchanged |
| Strings.Lower | backend/text_extractor.py:21 | `lower()` keeps the length and lower-cases each character |
| Strings.NatToString | backend/text_extractor.py:49 | `str(n)` is non-empty decimal digits with no leading zero |
| Strings.NatToStringRoundTrip | backend/text_extractor.py:49 | reading the digits of `str(n)` back gives `n` |
| Strings.NatToStringInjective | backend/text_extractor.py:49 | distinct page numbers render differently |
| StableSort.InsertMultiset | backend/analyzer.py:136-138 | inserting adds exactly the one element |
| StableSort.InsertOfKey | backend/analyzer.py:136-138 | inserting appends the element to its own key group and touches no other group |
| StableSort.InsertSorted | backend/analyzer.py:136-138 | inserting into an ordered list keeps it ordered |
| StableSort.SortByKeyMultiset | backend/analyzer.py:136-138 | the sort neither adds nor loses an element |
| StableSort.SortByKeySorted | backend/analyzer.py:136-138 | the sort's result is ordered by key |
| StableSort.SortByKeyOfKey | backend/analyzer.py:136-138 | each key group of the result is that group of the input, in input order |
| StableSort.SortByKeyCorrect | backend/analyzer.py:136-138 | the sort is ordered, a permutation and stable |
| StableSort.SortByKeyOfSorted | backend/analyzer.py:136-138 | sorting an already ordered list leaves it unchanged |
| Suggestions.RankTable | backend/analyzer.py:135-137 | HIGH ranks 0, MEDIUM 1, LOW or a missing priority 2, and exactly the other values 3 |
| Suggestions.SortSuggestions | backend/analyzer.py:134-138 | the priority sort is ordered by rank, a permutation, and keeps input order within each rank |
| Suggestions.SortSuggestionsIdempotent | backend/analyzer.py:134-138 | sorting the sorted suggestions again changes nothing |
| Analyzer.AnalysisPromptRoundTrip | backend/analyzer.py:68-112 | the file line is present only for a non-empty name, and both the name and the whole protocol text read back from the prompt |
| Analyzer.JsonSpan | backend/analyzer.py:119-122 | a span exists exactly when some `{` precedes some `}`; it runs from the first `{` to the last `}` inclusive |
| Analyzer.SpanExists | backend/analyzer.py:119-122 | some `{` precedes some `}` exactly when the first `{` precedes the last `}` |
| Analyzer.SpanText | backend/analyzer.py:122-123 | the text handed to the decoder exists exactly when a span does, and starts with `{` and ends with `}` |
| Analyzer.Normalize | backend/analyzer.py:126-138 | defaults fill only absent `summary` and `total_issues` (the latter with the number of suggestions), other keys are kept, and the suggestions are stably sorted |
| Analyzer.NormalizeIdempotent | backend/analyzer.py:126-138 | normalising an already normalised result gives it back |
| Analyzer.ParseResponse | backend/analyzer.py:117-156 | no span gives the fixed result, an undecodable span the error result, both keeping the raw reply; otherwise the normalised decoded object |
| Analyzer.ParseFallbacks | backend/analyzer.py:141-156 | the no-span result has the fixed summary, no suggestions, zero issues and no error flag; the decode-error result has the error flag and no suggestions |
| Analyzer.AnalyzeReply | backend/analyzer.py:45-66 | a failed call gives the error result; a reply gives its parse with the file name and the protocol length |
| Analyzer.AnalyzeProtocol | backend/analyzer.py:29-59 | the model is asked with the analysis prompt for this text and name, and its reply is parsed with that metadata |
| Analyzer.Bullet | backend/analyzer.py:177 | a bullet exists exactly when both `location` and `suggestion` are present |
| Analyzer.Bullets | backend/analyzer.py:176-179 | bullets exist exactly when every suggestion has both keys; then there is one per suggestion, in order |
| Analyzer.BulletBlock | backend/analyzer.py:176-179 | the block exists exactly when every bullet does |
| Analyzer.BulletOneLine | backend/analyzer.py:177 | a bullet built from one-line fields is one line |
| Analyzer.BulletBlockLines | backend/analyzer.py:176-179 | the block splits on `\n` into exactly one bullet per accepted suggestion, in order |
| Analyzer.RevisionPromptRoundTrip | backend/analyzer.py:181-190 | the prompt holds the bullet block after its introduction and the whole original, which reads back unchanged |
| Analyzer.GenerateImprovedProtocol | backend/analyzer.py:158-210 | no accepted suggestion returns the original; a missing key is an error; otherwise the model's reply, or the original when the call fails |
| Analyzer.EmptyAcceptedSkipsModel | backend/analyzer.py:172-173 | with nothing accepted the result does not depend on the model |
| TextExtraction.PageMarkerInjective | backend/text_extractor.py:49 | distinct pages get distinct markers |
| TextExtraction.PageMarkerNotBlank | backend/text_extractor.py:49 | a page marker is never blank |
| TextExtraction.PageMarkerExample | backend/text_extractor.py:49 | the marker of page 3 is `\n--- Page 3 ---\n` |
| TextExtraction.KeptPages | backend/text_extractor.py:46-48 | kept page numbers lie within the document, and none is kept exactly when every page is blank |
| TextExtraction.KeptPagesNonBlank | backend/text_extractor.py:46-48 | every kept page is non-blank |
| TextExtraction.KeptPagesIncreasing | backend/text_extractor.py:46 | kept page numbers strictly increase |
| TextExtraction.KeptPagesComplete | backend/text_extractor.py:46-48 | every non-blank page is kept, under its 1-based number |
| TextExtraction.MarkedPages | backend/text_extractor.py:49-50 | two parts are collected per kept page |
| TextExtraction.MarkedPagesPair | backend/text_extractor.py:49-50 | each kept page's text comes right after its own marker |
| TextExtraction.PdfPartsNotBlank | backend/text_extractor.py:46-50 | no collected PDF part is blank |
| TextExtraction.ThreePageParts | backend/text_extractor.py:46-50 | pages "A", " ", "C" give a marker and text for pages 1 and 3 only |
| TextExtraction.ExtractPdf | backend/text_extractor.py:43-62 | PDF extraction fails exactly when every page is blank; otherwise it gives the joined parts, the total page count, and, exactly when the document information is non-empty, its `/Title` and `/Author` entries or "" for a missing one |
| TextExtraction.NonBlank | backend/text_extractor.py:81-83 | non-blank items are kept unstripped, and the result is empty exactly when every item is blank |
| TextExtraction.NonBlankConcat | backend/text_extractor.py:81-91 | what is kept of the paragraphs comes before what is kept of the cells |
| TextExtraction.NonBlankKeepsAll | backend/text_extractor.py:81-83 | a list with no blank item is kept whole |
| TextExtraction.Cells | backend/text_extractor.py:87-89 | one table contributes its cells row by row |
| TextExtraction.RowCellsSingle | backend/text_extractor.py:88-89 | one row contributes exactly its cells, in order |
| TextExtraction.RowCellsConcat | backend/text_extractor.py:88-89 | rows are read one after another, so a table's cells come row by row |
| TextExtraction.CellsConcat | backend/text_extractor.py:87-89 | tables are read one after another |
| TextExtraction.DocxParts | backend/text_extractor.py:81-91 | no collected Word part is blank, and the non-blank paragraphs come first |
| TextExtraction.DocxTextBlank | backend/text_extractor.py:98-101 | the joined Word text is blank exactly when every paragraph and every cell is |
| TextExtraction.ExtractDocx | backend/text_extractor.py:67-103 | Word extraction fails exactly when all paragraphs and cells are blank; otherwise it gives the non-blank items joined, the non-blank paragraph count, and the title and author or "" |
| TextExtraction.FormatOf | backend/text_extractor.py:23-28 | `.pdf` selects the PDF reader and exactly `.docx` and `.doc` the Word reader |
| TextExtraction.ExtractAs | backend/text_extractor.py:30-106 | a file its library cannot read fails as unreadable for that format; otherwise the PDF or Word assembly decides the result |
| TextExtraction.Extract | backend/text_extractor.py:11-28 | the unsupported-format error occurs exactly for an extension with no reader and names it; otherwise the file is read with its own reader |
| TextExtraction.Prefix | backend/text_extractor.py:122 | `text[:n]` is a prefix of length `n` clipped to the text, counting from the end for a negative `n` |
| TextExtraction.Preview | backend/text_extractor.py:119-122 | a text within the limit is returned as is; a longer one is cut to the limit and gets "...", giving length limit + 3 |
| TextExtraction.PreviewShape | backend/text_extractor.py:119-122 | every preview is the text or a beginning of it followed by "...", a proper beginning for a non-negative limit |
| Service.Validate | backend/main.py:74-91 | an upload passes exactly when its extension is allowed and its size is at most 10 MiB; the extension is checked first; both errors are 400 |
| Service.ValidateExample | backend/main.py:74-91 | the name `protocol.PDF` has extension `.pdf` and is accepted at 10485760 bytes and refused as too large at 10485761 |
| Service.SizeBoundary | backend/main.py:87-91 | 10485760 bytes are accepted and 10485761 are not |
| Service.AllowedMatchesDispatch | backend/config.py:18 | the allowed extensions are exactly those the extractor has a reader for |
| Service.StoredPathExtension | backend/main.py:94-96 | the stored path keeps the uploaded name's extension |
| Service.StoredPathFormat | backend/main.py:94-104 | a validated name is stored under a path dispatched to the same reader |
| Service.UploadReply | backend/main.py:106-117 | the upload response carries the stored and original names, the size, the text length, the metadata and a preview of the first 500 characters plus "..." |
| Service.Ingest | backend/main.py:74-128 | validation errors come first, then a failed write, then the extraction error; a success records the stored name, the original name, the size and the extracted text |
| Service.ValidatedUploadIsSupported | backend/main.py:98-104 | a validated upload never fails as an unsupported format |
| Service.Respond | backend/main.py:180-189 | the response carries the id and name, the cached suggestions, and `summary`, `overall_score` ("N/A") and `total_issues` (0) with their defaults |
| Service.AnalyzeUpload | backend/main.py:157-189 | a result with an error flag is refused with the cache unchanged; otherwise it is cached under the stored name and the stamp, overwriting any entry with that id and keeping all others |
| Service.Analyze | backend/main.py:131-197 | an upload error is passed on with the cache unchanged; a stored upload is analysed and cached |
| Service.UnexpectedReplyIsCached | backend/main.py:162-187 | a reply with no JSON span passes the error gate and is answered with the fixed summary, no suggestions and zero issues |
| Service.PyIndex | backend/main.py:238 | Python indexing succeeds exactly for `-n <= i < n`, wrapping negative indices |
| Service.Accepted | backend/main.py:237-240 | the selection fails exactly when some index is below `-len`, naming such an index |
| Service.Below | backend/main.py:239 | the surviving indices are below the length and come from the request |
| Service.BelowSingle | backend/main.py:239 | a single index survives exactly when it is below the length |
| Service.BelowConcat | backend/main.py:239 | the filter works index by index, so every index below the length survives, in order and with repetitions |
| Service.AcceptedContents | backend/main.py:237-240 | the selection holds one suggestion per surviving index, in order and with repetitions, each the one Python's indexing picks |
| Service.AcceptedInRange | backend/main.py:237-240 | with indices from `-len` to `len - 1` the selection succeeds with exactly the suggestions Python's indexing picks, `all[i]` for a non-negative `i` |
| Service.AcceptedDropsLarge | backend/main.py:239 | an index at or past the end is dropped wherever it occurs |
| Service.AcceptedLast | backend/main.py:237-240 | index -1 selects the last suggestion |
| Service.Improve | backend/main.py:216-277 | a missing or empty id is 400 and an unknown id 404; an empty selection returns the original with 0 applied; otherwise the revision, its output name and the number applied, duplicates counted |
| Service.AnalyzeThenImprove | backend/main.py:169-248 | after an analysis, the cached entry holds the analysed text and the very suggestions returned, so an empty selection returns that text |

## Left out

- The language model call, its model name, temperature, token counts and `quick_check`: the reply is a parameter (`reply` or `llm`), `None` when the call raises.
- The `message` strings built from exceptions: errors are datatype values without text.
- `json.loads`: the decoder is a parameter. JSON values of other shapes than the modelled ones are left out, such as a non-string `priority`, a non-list `suggestions` or a non-list `accepted_indices`. In the code these rank 3 or raise outside the parser.
- pypdf and python-docx: a `Document` gives each reader's pages, paragraphs, tables, information dictionary and core properties, or `None` where the reader raises.
- The FastAPI application: routing, CORS, the health, download and stats endpoints, and the root endpoint.
- The file system: writing the upload (the `saved` flag), deleting it after a failure, and writing the improved protocol to the output folder.
- `datetime.now()`: the upload, analysis-id and output stamps are parameters. The cache entry's own time stamp is not modelled.
- `config.validate` and the environment variables.
- The analyze handler reads the stored file a second time. The model reuses the text of the upload, which the same reader gives for the same file.
- The analyze handler's check of `upload_result['success']` cannot fail, because the upload handler returns only on success. The handler's generic exception branch is not modelled either.
- Strings.Lower: lower-cases ASCII letters only. Python's `lower()` also maps other Unicode letters, which can change the extension an error reports, though not whether it is allowed.
- Strings.BaseName: takes the text after the last `/`. `pathlib` first drops empty and `.` components and handles other platforms' separators, so names such as `report.pdf/` or `report.pdf/.`, which the upload handler accepts and stores, are refused by the model's `Validate`.
- Analyzer.AnalyzeProtocol: the fixed prompt text is not inspected by any proof. The prompt's structure is proved for every template instead (`AnalysisPromptRoundTrip`).
- Service.Improve: does not return the cache, because the improve handler never changes it.
