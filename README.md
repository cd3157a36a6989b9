# Document fingerprints, search, tasks and query advice

This project is a Dafny model of the core of a small collection of Python services:

- **Document service** (`main.py`). It keeps a table of uploaded documents. An
  upload is admitted by extension and size, then dispatched to a loader. The loader
  reports metadata and a fingerprint: a colour histogram for images, a bag of words
  for DOCX and PDF text, and nothing for SVG. A search either matches the query
  against file name and file type (SQL `LIKE '%query%'`), or compares the query's
  fingerprint with the stored fingerprints of the same class. It keeps documents
  whose cosine similarity is above 0.1, sorted best first.
- **Loaders** (`file_handlers.py`).
  - `text_to_vector`: the counts of the 100 most common words.
  - `image_to_vector`: a 768-bin histogram divided by the pixel count.
  - The SVG namespace of the root tag.
  - The error fallback `({'error': ...}, [])` shared by all loaders.
- **Older document service** (`app.py`). It accepts only PDF and Markdown files,
  each stored with a category. Its search needs a query in both modes.
- **Task manager** (`task_manager.py`, `queries.py`). It covers the input checks of
  `add_task`, `update_task` and `delete_task`, run against the `tasks` table.
- **Operation benchmarker** (`db_performance.py`). It covers the advice table of
  `analyze_operation` and the bookkeeping of `run_benchmark_suite`.

## Modules

| module | file | models |
|---|---|---|
| `Wrappers` | `wrappers.dfy` | `Option` and `Result` |
| `Ascii` | `ascii.dfy` | the Python string operations the core uses, on ASCII text (see Left out): `lower`, `upper`, `capitalize`, `strip`, `split`, `endswith`, `in`, `os.path.splitext` and `os.path.join` on POSIX paths, `int()` on text |
| `Ranking` | `ranking.dfy` | Python's stable descending sort (`list.sort(reverse=True)`), used for both `Counter.most_common` and the search results |
| `BagOfWords` | `bag_of_words.dfy` | `Loader.text_to_vector` |
| `Similarity` | `similarity.dfy` | `cosine_similarity` and the 0.1 relevance threshold |
| `FileHandlers` | `file_handlers.dfy` | `Loader.image_to_vector` and the four loaders |
| `DocumentService` | `document_service.dfy` | `main.py`: the class `DocumentManager` with the `documents` table as a field, `handle_upload` and `search_documents` |
| `LegacyDocumentService` | `legacy_document_service.dfy` | `app.py`: its `DocumentManager`, `extract_text`, `handle_upload` and `search_documents` |
| `Queries` | `queries.dfy` | the seven SQL statements, as methods of the class `TasksTable` whose field is the `tasks` table |
| `TaskManager` | `task_manager.dfy` | `add_task`, `update_task`, `delete_task`, `get_all_tasks` and `get_statistics` |
| `DbPerformance` | `db_performance.dfy` | `analyze_operation` and `run_benchmark_suite`, as methods of the class `Benchmarker` whose field is `performance_data` |

### Cosine similarity without square roots

Dafny's reals have no square root. `Similarity.Score` is therefore the *signed
square* of the cosine: `dot * |dot| / (|a|² |b|²)`, which equals `cos * |cos|`.
This map is strictly increasing on [-1, 1]. As a result:

- the threshold `cos > 0.1` is exactly `Score > 0.01`;
- sorting by `Score` gives the same order as sorting by the cosine.

`Similarity.CosineBridge` states the link. For any `r1` and `r2` whose squares are
the two squared norms (that is, the two norms), it proves:

- `Score == SignedSquare(dot / (r1 * r2))`;
- the cosine lies in [-1, 1];
- `cos > 0.1` holds exactly when `Relevant` does.

The `similarity` value a search hit reports is this signed square rather than the
cosine itself.

### Where the code and its description differ

The model follows the code in each case but one. For the query image, the model
keeps both readings. `DocumentService.SearchOutcomeAsWritten` is the search as
`main.py` is written: it refuses every query image. `DocumentService.DocumentManager.Search`
uses the corrected reading: it reads the image's histogram (see Findings).

- The text fingerprint is **not** padded to 100 entries. It has one entry per
  distinct word, up to 100, as `file_handlers.py:33-39` computes it. Two text
  documents are compared only when their fingerprints have the same length
  (`main.py:262-263`). So a text document is found only by a query with as many
  distinct words, capped at 100.
- Metadata search in `main.py` matches the **file type**, not a category
  (`main.py:203-204`).
- `main.py` never imports the imaging library's `Image`, so a query image cannot
  be read. See Findings.

## Model

| member | source | states |
|---|---|---|
| Ascii.StripEmptyIffBlank | file_handlers.py:21 | stripping leaves nothing exactly when the text is all white space; otherwise both ends of the stripped text are not white space |
| Ascii.SplitJoin | task_manager.py:58 | joining the parts of `split('-')` with `-` gives back the original text |
| Ascii.SplitCount | task_manager.py:58 | `split` gives one more part than there are separators |
| Ascii.ParseInt | task_manager.py:61 | apart from CPython's 4300-digit cap (see Left out), `int()` of a text succeeds exactly when the stripped text is a signed digit literal (with single underscores between digits), and then its value is the decimal value of the digits, negated after a minus sign |
| Ascii.Extension | main.py:126 | `splitext`'s extension is non-empty exactly when the last dot follows the last slash and the name before that dot is not all dots; then it is the path from that dot on. It is a `.` followed by no `.` or `/`, and it ends the path |
| Ascii.PathJoin | app.py:238 | `os.path.join`: the result ends with the name; an absolute name replaces the folder; below a plain folder the result lies inside the folder exactly when the name is relative |
| Ascii.DotFileHasNoExtension | app.py:244 | a name made of one leading dot and no other dot has no extension |
| Ascii.ContainsIff | db_performance.py:62-75 | the substring test holds exactly when the substring occurs at some position |
| Ranking.SortDesc | main.py:283 | sorting keeps length and is a permutation of its input |
| Ranking.SortDescRanked | main.py:283 | a stable descending sort of items given in increasing tie order yields key-descending order, equal keys in input order |
| Ranking.RankedUnique | file_handlers.py:33 | two rankings of the same items are equal, so the sort order is fully determined |
| BagOfWords.Tokenize | file_handlers.py:26 | every token is a run of word characters; there is no token exactly when the text has no word character |
| BagOfWords.TokenizeIsPieces | file_handlers.py:26 | the tokens are exactly the non-empty pieces of the text cut at every non-word character, in order, so they are its maximal word runs |
| BagOfWords.TokenizeKeepsWordChars | file_handlers.py:26 | the tokens glued together are the word characters of the text, in order |
| BagOfWords.TokenizeCountsRuns | file_handlers.py:26 | there are as many tokens as positions where a run of word characters starts |
| BagOfWords.Distinct | file_handlers.py:32 | the distinct words, without repetition and with the same members as the text |
| BagOfWords.TallyTotal | file_handlers.py:32 | the `Counter` counts add up to the number of words |
| BagOfWords.MostCommonCounts | file_handlers.py:33 | every kept word occurs in the text, and its count is its true number of occurrences, at least one |
| BagOfWords.MostCommonOrder | file_handlers.py:33 | the kept words are distinct and ordered by count, highest first; equal counts follow first occurrence in the text |
| BagOfWords.MostCommonDominates | file_handlers.py:33 | a word left out of `most_common(n)` occurs no more often than any word kept |
| BagOfWords.MostCommonUnique | file_handlers.py:33 | any ordering of the counter items by count and then first occurrence is the one `most_common` returns |
| BagOfWords.VectorEntries | file_handlers.py:39 | entry `k` of the fingerprint is the count of the `k`-th most common word |
| BagOfWords.TextToVectorEmptyIff | file_handlers.py:18-45 | the fingerprint is empty exactly when the text has no word; blank text always gives the empty fingerprint |
| BagOfWords.TextToVectorShape | file_handlers.py:33-39 | the fingerprint has min(100, number of distinct words) entries, each at least 1, in non-increasing order |
| BagOfWords.TextToVectorTotal | file_handlers.py:33-39 | the entries add up to at most the number of words, and to exactly that when there are at most 100 distinct words |
| BagOfWords.AlphaAlphaBeta | file_handlers.py:18-45 | the text `alpha alpha beta` has the fingerprint `[2, 1]` |
| Similarity.Score | main.py:98-107 | the score is 0 for empty, unequal-length or zero-norm vectors, lies in [-1, 1], and otherwise has the sign of the dot product |
| Similarity.CauchySchwarz | main.py:98-107 | the squared dot product is at most the product of the squared norms |
| Similarity.ScoreSymmetric | main.py:98-107 | the score does not depend on the order of its arguments |
| Similarity.ScoreSelf | main.py:98-107 | a non-zero vector has score 1 with itself |
| Similarity.ScoreNonNegative | app.py:129-138 | vectors with no negative entry (all fingerprints) score between 0 and 1 |
| Similarity.ScoreDisjoint | main.py:98-107 | vectors with no common non-zero position score 0 and are not relevant |
| Similarity.RelevantIff | main.py:271 | relevance holds exactly when the vectors are comparable, the dot product is positive and 100·dot² > ‖a‖²‖b‖², that is cos > 0.1 |
| Similarity.CosineBridge | main.py:98-107 | with the two norms as `r1` and `r2`, the score is the signed square of `dot/(r1·r2)`, that cosine lies in [-1, 1], and it exceeds 0.1 exactly when the pair is relevant |
| Similarity.ExampleOneTwoThree | app.py:129-138 | `[1,2,3]` and `[4,5,6]` score 1024/1078 (cosine ≈ 0.975), between 0 and 1, and are relevant |
| FileHandlers.ImageToVector | file_handlers.py:47-71 | the fingerprint is empty exactly when the histogram does not have 768 bins or the image has no pixel; otherwise it has 768 entries |
| FileHandlers.ImageVectorEntries | file_handlers.py:66 | each entry is non-negative, and times the pixel count gives back the histogram bin |
| FileHandlers.ImageVectorTotal | file_handlers.py:61-66 | an RGB histogram (three counts per pixel) normalises to entries summing to 3 |
| FileHandlers.ImageVectorScaleFree | file_handlers.py:60-66 | scaling every bin and the width by the same factor leaves the fingerprint unchanged |
| FileHandlers.ImageScoreBounded | file_handlers.py:47-71 | any two image fingerprints score between 0 and 1 |
| FileHandlers.SvgNamespace | file_handlers.py:125 | the namespace is `unknown` without `}`; otherwise it is the text between the first character and the first `}` |
| FileHandlers.SvgNamespaceOfQualifiedTag | file_handlers.py:125 | the tag `{ns}local` has namespace `ns` |
| FileHandlers.SvgAttribute | file_handlers.py:123-124 | a missing `width` or `height` attribute reads `unknown` |
| FileHandlers.PdfTitle | file_handlers.py:106 | the title is the information dictionary's `title`, or empty when there is no dictionary or no title |
| FileHandlers.LoadImage | file_handlers.py:73-85 | a decoded image gives its format, size and mode with its histogram fingerprint; a decoding error gives the error metadata and the empty fingerprint |
| FileHandlers.LoadDocx | file_handlers.py:87-99 | DOCX text gives its length and word count with its bag-of-words fingerprint; an error gives the fallback |
| FileHandlers.LoadPdf | file_handlers.py:101-116 | a PDF gives page count and title with the fingerprint of its text; an error gives the fallback |
| FileHandlers.LoadSvg | file_handlers.py:118-130 | an SVG gives width, height and namespace and never a fingerprint; an error gives the error metadata |
| FileHandlers.ErrorFallback | file_handlers.py:83-85 | a loader reports error metadata exactly when its decoder failed, and then the fingerprint is empty |
| FileHandlers.DocxCounts | file_handlers.py:91-95 | the DOCX fingerprint has at most 100 entries, each at least 1, adding up to at most the reported word count |
| DocumentService.LoaderFor | main.py:142-151 | exactly the six accepted extensions have a loader: the image extensions get the image loader, and `.docx`, `.pdf` and `.svg` each get their own loader |
| DocumentService.KindOf | main.py:253-260 | a stored file type is of the image class exactly for `.jpg`/`.jpeg`/`.png` and of the text class exactly for `.docx`/`.pdf`, ignoring case |
| DocumentService.Mode | main.py:182 | the search type defaults to `metadata`; the two known types are recognised exactly |
| DocumentService.QueryImageVector | main.py:229-237 | a readable query image gives its histogram fingerprint; an unreadable one gives the decoder's error |
| DocumentService.QueryImageVectorAsWritten | main.py:231 | as written, reading the query image always fails |
| DocumentService.QueryVector | main.py:220-240 | without a query image the fingerprint is the query text's bag of words; a query image with a non-image extension is refused; an accepted image is refused as written, and in the corrected reading gives its histogram fingerprint or the decoder's error |
| DocumentService.Scan | main.py:250-280 | the row loop keeps, in scan order, exactly the relevant rows of the query's class and length, with their scores |
| DocumentService.DocumentManager.Upload | main.py:109-177 | missing or unnamed file, unknown extension and files above 10 MiB are refused and store nothing; otherwise the extension's loader runs and exactly one row is appended under the next id, carrying whatever the loader reports, and the id counter advances by one |
| DocumentService.DocumentManager.Search | main.py:179-292 | the search answers `SearchOutcome` on the current table, with the query image read as corrected in Findings |
| DocumentService.SearchValidation | main.py:186-192 | the metadata search is refused exactly without a query, the vector search exactly without query and image, and any other type always |
| DocumentService.SearchAnswers | main.py:196-292 | a metadata search with a query returns the metadata matches; a vector search returns ranked hits exactly when its query fingerprint is non-empty, and they are the vector results |
| DocumentService.TextQueryWithoutWords | main.py:240-246 | a text query without a word is refused, and a text query with a word is answered |
| DocumentService.VectorResultsExact | main.py:250-280 | vector search returns exactly the documents of the query's class, with a non-empty fingerprint of the query's length and a similarity above 0.1, each with its score |
| DocumentService.VectorResultsHaveAClass | main.py:259-260 | SVG documents never appear in vector results |
| DocumentService.VectorResultsOrdered | main.py:283 | vector results are ordered by similarity, highest first, with equal similarities in ascending id |
| DocumentService.MetadataSearchResults | main.py:199-216 | a metadata search returns exactly the rows whose file name or file type contains the query, ignoring case, in scan order |
| DocumentService.MetadataExample | main.py:199-216 | the query `Report` finds `Quarterly Report.pdf` and not `invoice.pdf` |
| DocumentService.QueryImageRefusedAsWritten | main.py:229-237 | a readable, non-empty query image is refused as written but ranked by the corrected search |
| LegacyDocumentService.ExtractText | app.py:83-98 | the PDF's text for `.pdf`, the file's contents for `.md`, and empty text for other extensions or on a read error |
| LegacyDocumentService.Admit | app.py:212-278 | an admitted file has a non-empty fingerprint and keeps its name; a refusal is never a success |
| LegacyDocumentService.AbsoluteNameLeavesFolder | app.py:236-238 | a stored file whose name is absolute is stored at that name, outside the upload folder |
| LegacyDocumentService.DocumentManager.Upload | app.py:212-278 | a refused request changes nothing; an admitted one appends exactly one row with the next id, the category, the upload time, the saved path and the fingerprint |
| LegacyDocumentService.UploadRules | app.py:215-275 | each refusal has its exact condition; a file is stored exactly when named, ending in `.pdf`/`.md`, at most 10 MiB and with a non-empty fingerprint; the category defaults to `Uncategorized`; the path is `os.path.join` of the upload folder and the name, inside the folder exactly when the name is relative |
| LegacyDocumentService.StoredTextHasWords | app.py:244-250 | a stored file's text has a word, and its fingerprint has min(100, distinct words) entries |
| LegacyDocumentService.UpperCaseNameRefused | app.py:227 | the name test is case-sensitive: `REPORT.PDF` is refused |
| LegacyDocumentService.BareExtensionFails | app.py:227-250 | a file named `.md` passes the name test but has no extension, so the upload fails with the no-vector message |
| LegacyDocumentService.DocumentManager.Search | app.py:140-210 | the search answers `SearchOutcome` on the current table |
| LegacyDocumentService.SearchCases | app.py:144-206 | an empty query is refused in every mode; metadata returns the matches; vector returns ranked hits exactly when the query has a word; other types are refused |
| LegacyDocumentService.VectorResultsExact | app.py:184-198 | vector search returns exactly the stored documents relevant to the query, each with its score |
| LegacyDocumentService.VectorResultsOrdered | app.py:201 | the results are ordered by similarity, highest first, equal similarities in ascending id |
| LegacyDocumentService.MetadataResultsExact | app.py:156-173 | a metadata search returns exactly the rows whose file name or category contains the query, ignoring case |
| LegacyDocumentService.MetadataExample | test_app.py:73-83 | the query `LOG SHEET` finds the uploaded `LOG SHEET.pdf` |
| Queries.TasksTable.SelectAll | queries.py:1 | the selection is the whole table |
| Queries.TasksTable.SelectPending | queries.py:2 | the selection is exactly the rows with `completed = 0`, in table order |
| Queries.TasksTable.Insert | queries.py:3 | one row is appended with the next id and `completed = 0` |
| Queries.TasksTable.UpdateCompleted | queries.py:4 | the table becomes `SetCompleted` of the old table: only the row with the id changes |
| Queries.TasksTable.Delete | queries.py:5 | the table becomes the old table without the row with the id |
| Queries.TasksTable.CountPending | queries.py:6 | the count is the number of rows with `completed = 0` |
| Queries.TasksTable.CountCompleted | queries.py:7 | the count is the number of rows with `completed = 1` |
| Queries.PendingExact | queries.py:2 | a row is pending exactly when it is in the table with `completed = 0` |
| Queries.CountsPartition | queries.py:6-7 | when every row has `completed` 0 or 1, the two counts add up to the table size |
| Queries.UpdateOnlyTarget | queries.py:4 | the update changes exactly the row with the id, and nothing when no row has it |
| Queries.UpdateKeepsBinary | queries.py:4 | writing 0 or 1 keeps every `completed` value 0 or 1 |
| Queries.WithoutKeepsOrder | queries.py:5 | deletion keeps exactly the rows with another id, in increasing id order |
| Queries.DeleteAbsent | queries.py:5 | deleting an absent id leaves the table unchanged |
| Queries.DeletePresent | queries.py:5 | deleting a present id removes exactly one row |
| TaskManager.StoredPriority | task_manager.py:53-55 | a priority is accepted exactly when its capitalised form is Low, Medium or High, and that form is stored |
| TaskManager.PriorityNormalForm | task_manager.py:53 | capitalising an accepted priority again changes nothing |
| TaskManager.DueDateShape | task_manager.py:57-63 | an accepted due date has 10 characters, with dashes at positions 4 and 7 and nowhere else |
| TaskManager.DigitDatesValid | task_manager.py:57-61 | any `YYYY-MM-DD` of digits is accepted |
| TaskManager.ValidateTask | task_manager.py:49-63 | a task is accepted exactly when the description is not blank, the priority is accepted and the due date is valid; otherwise the first failing check's message |
| TaskManager.ValidTaskAccepted | test_task_manager.py:18 | `("Test Task", "High", "2025-12-31")` is accepted as given |
| TaskManager.BlankDescriptionRefused | test_task_manager.py:76 | an empty description is refused with its message |
| TaskManager.InvalidPriorityRefused | test_task_manager.py:79 | priority `Invalid` is refused with its message |
| TaskManager.SlashDateRefused | test_task_manager.py:82 | the date `2025/12/31` is refused with its message |
| TaskManager.ParseTaskId | task_manager.py:95-100 | an id is accepted exactly when `int()` gives a positive integer (no 4300-digit cap, no 64-bit bound; see Left out); `None` is refused |
| TaskManager.TaskIdRefusals | test_task_manager.py:84-92 | `"abc"` and `-10` are refused and `1` is accepted |
| TaskManager.AddTask | task_manager.py:49-71 | a refused task leaves the table unchanged; an accepted one appends one pending row with the capitalised priority |
| TaskManager.UpdateTask | task_manager.py:93-108 | a refused id changes nothing; a valid id sets `completed` of that row to 1 or 0 |
| TaskManager.DeleteTask | task_manager.py:110-125 | a refused id changes nothing; a valid id removes that row |
| TaskManager.GetAllTasks | task_manager.py:73-82 | every row in table order, or the pending rows in table order (`Queries.PendingExact`: exactly the rows with `completed = 0`) |
| TaskManager.GetStatistics | task_manager.py:127-141 | the figures are the two counts and their total, which is the table size when `completed` is always 0 or 1 |
| TaskManager.RateBounds | task_manager.py:140-141 | the completion rate lies between 0 and 100, and is 100 exactly when nothing is pending |
| DbPerformance.KindNames | db_performance.py:58-78 | each rule fires for exactly its own upper-cased operation name |
| DbPerformance.AdviceRules | db_performance.py:55-81 | the advice for each operation: the CREATE, INSERT, SELECT, UPDATE/DELETE and ALTER suggestions, each under its exact condition, and nothing for other operations |
| DbPerformance.AdviceDistinct | db_performance.py:55-81 | the advice has at most three suggestions, none repeated, and advises batching exactly for UPDATE and DELETE |
| DbPerformance.AdviceIgnoresCase | db_performance.py:57-58 | the advice depends neither on the case of the operation nor on the case of the query |
| DbPerformance.Benchmarker.AnalyzeOperation | db_performance.py:55-81 | the suggestions are the advice for the operation and the query |
| DbPerformance.Benchmarker.RunBenchmarkSuite | db_performance.py:83-92 | one result per operation, in order: a failed run's error with the operation as given, or a successful run's timings under the upper-cased operation with the advice for its operation and query; `performance_data` grows by exactly the successful ones |
| DbPerformance.SuiteReportsEachRun | db_performance.py:17-92 | the suite's results, one per operation in order, are the error report of a failed run or the timing report, upper-cased and with its advice, of a successful one |
| DbPerformance.RecordedExact | db_performance.py:88-90 | the recorded results are exactly the error-free results |
| DbPerformance.SuiteRecordsAnalysedRuns | db_performance.py:83-92 | every result recorded by a suite succeeded and carries the advice of the operation it came from |

## Left out

- I/O of every kind is not modelled:
  - Flask routing and JSON encoding;
  - SQLite connections, schema creation and repair (`init_db`);
  - saving and removing uploaded files (the path an upload is saved at in `main.py:137-139` is not stored, so it is not modelled);
  - logging.
  Each table is a field of its class. The upload time is a parameter.
- The decoders (PIL, docx2txt, PyMuPDF, the XML parser, PyPDF2) are not modelled.
  What each delivers, or the message of the exception it raises, is an input.
  `FileHandlers.LoadPdf` takes the text of all pages already joined, so the page
  loop of `file_handlers.py:109-110` is folded into that input.
- `Image.convert('RGB')` is not modelled. The decoded picture carries the histogram
  of the converted image.
- Python's Unicode string semantics are not modelled. `lower`, `upper`,
  `capitalize`, `strip`, `isspace` and the regular expression `\w` are modelled on
  ASCII. Other characters are word characters only if they are `_`, letters or
  digits in ASCII, and are never case-mapped.
- SQL `LIKE` wildcards (`%` and `_` inside the query) are not modelled. The query
  is matched as a plain case-insensitive substring, and SQLite's `LIKE` case folding
  is ASCII-only too.
- Similarity.Score: the score is the signed square of the cosine, not the cosine
  itself, because Dafny has no square root. Threshold and order agree exactly
  (`Similarity.CosineBridge`). Floating-point rounding is not modelled; the model
  computes on exact reals.
- FileHandlers.ImageToVector: the entries are exact real quotients, not floats.
- TaskManager.StatisticsOf: the completion rate is an exact real quotient times 100, not the float `task_manager.py:141` computes; float rounding is not modelled.
- `main.py:80-96` (`extract_text` of the newer service) is never called, and it
  uses names the module does not import. It is not part of this model.
- The `500 Upload failed` paths of `main.py:169-174` are not modelled. The loaders
  catch their own errors, so only a storage failure reaches them, and storage is
  not modelled. The same holds for the storage failures behind `app.py:269-275`.
  The no-fingerprint failure of `app.py:248-250` is modelled.
- `benchmark_operation` runs statements and takes times. It is not modelled: what a
  run gives (its timings or the database error) is an input of each operation.
  `generate_performance_report` draws a chart and is left out. `close` only closes
  the connection.
- DbPerformance.Suggestion: the suggestions are an enumeration whose `Text()` is
  the exact message. The rules are stated over the enumeration.
- `view_tasks` and `main` in `task_manager.py` only print and read the console.
  They are left out, and so is the completion rate's text formatting.
- Ascii.ParseInt: CPython's default cap on integer conversion is not modelled. `int()` refuses a text of more than 4300 digits with `ValueError`; the model accepts any length, so `TaskManager.UpdateTask` and `TaskManager.DeleteTask` accept such an id where the source refuses it.
- TaskManager.ParseTaskId: SQLite's 64-bit integer bound is not modelled. An id of 2^63 or more passes the positive test, but binding it at `task_manager.py:104` and `task_manager.py:121` raises `OverflowError`, which nothing catches; the model accepts it and changes no row.
- Ascii.Extension, Ascii.PathJoin: paths are POSIX paths (`posixpath`). Only `/` separates; Windows drive letters and backslashes are not modelled.
- TaskManager.ParseTaskId: `int()` on floats and booleans is not modelled. The
  argument is an integer, a text or `None`.
- Queries.TasksTable.UpdateCompleted takes any integer for `completed`.
  `TaskManager.UpdateTask` passes only 1 or 0, as `task_manager.py:104` does.
- The other files of the repository are not part of this model. These are
  `weather_cli.py`, `analyzer.py`, `report.py`, `migrations.py`, `APItest.py`,
  `database.py`, `query_db.py` and `queriesdb.py`.

## Findings

| source | as written | input that shows it | evidently intended | confidence | as-written member | corrected member |
|---|---|---|---|---|---|---|
| main.py:231 | `Image.open(query_image)` is called, but `main.py` never imports `Image`. The `NameError` is caught at `main.py:234-237`, so every vector search with a query image is refused with 400 `Failed to process query image: name 'Image' is not defined` | a vector search with a readable PNG query image of a non-empty picture and a 768-bin histogram | the image is read, and its histogram fingerprint is compared with the stored image fingerprints | high, not executed | DocumentService.QueryImageRefusedAsWritten | DocumentService.QueryImageVector |
