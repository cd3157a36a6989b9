/**
 * The document service of `main.py`: an append-only table of uploaded documents,
 * the upload check that admits a file and dispatches it to a loader by extension,
 * and the search request, answered either by a case-insensitive substring match on
 * file name and type or by ranking the fingerprints of the query's class by
 * similarity. The table is the field `rows` of `DocumentManager`; the request and
 * the uploaded file are values, and what the decoders make of a file is part of
 * the uploaded file.
 */
module DocumentService {
  import opened Wrappers
  import opened Ascii
  import BagOfWords
  import Similarity
  import Ranking
  import opened FileHandlers

  /** The largest accepted upload, 10 MiB. */
  const MaxFileSize: nat := 10 * 1024 * 1024

  /** The extensions whose fingerprint is a colour histogram. */
  const ImageExtensions: set<string> := {".jpg", ".jpeg", ".png"}

  /** The extensions whose fingerprint is a bag of words. */
  const TextExtensions: set<string> := {".docx", ".pdf"}

  /** The extensions an upload may have (compared in lower case). */
  const AcceptedExtensions: set<string> := {".jpg", ".jpeg", ".png", ".docx", ".pdf", ".svg"}

  /** One row of the `documents` table. */
  datatype Document = Document(
    id: nat,
    filename: string,
    filetype: string,
    filesize: nat,
    uploadDate: string,
    metadata: Metadata,
    vector: seq<real>)

  /** What each decoder makes of the saved file: its result, or the message of the
      exception it raises. */
  datatype Decoders = Decoders(
    image: Result<Picture, string>,
    docx: Result<string, string>,
    pdf: Result<PdfDocument, string>,
    svg: Result<SvgRoot, string>)

  /** The `file` part of an upload request: name, size in bytes and content. */
  datatype UploadedFile = UploadedFile(filename: string, size: nat, content: Decoders)

  datatype LoaderKind = ImageLoader | DocxLoader | PdfLoader | SvgLoader

  /** The upload response: the metadata of the stored document, or the reason the
      file was refused. */
  datatype UploadResponse =
    | Uploaded(metadata: Metadata)
    | NoFilePart
    | NoFileSelected
    | TooLarge
    | UnsupportedType
  {
    function Status(): nat {
      if Uploaded? then 200 else 400
    }
  }

  /** The loader table of `handle_upload`: one loader per accepted extension. */
  function LoaderFor(ext: string): (l: Option<LoaderKind>)
    ensures l.Some? <==> ext in AcceptedExtensions
    ensures l == Some(ImageLoader) <==> ext in ImageExtensions
    ensures l == Some(DocxLoader) || l == Some(PdfLoader) <==> ext in TextExtensions
    ensures l == Some(DocxLoader) <==> ext == ".docx"
    ensures l == Some(PdfLoader) <==> ext == ".pdf"
    ensures l == Some(SvgLoader) <==> ext == ".svg"
  {
    if ext == ".jpg" || ext == ".jpeg" || ext == ".png" then Some(ImageLoader)
    else if ext == ".docx" then Some(DocxLoader)
    else if ext == ".pdf" then Some(PdfLoader)
    else if ext == ".svg" then Some(SvgLoader)
    else None
  }

  function RunLoader(kind: LoaderKind, content: Decoders): Loaded {
    match kind
    case ImageLoader => LoadImage(content.image)
    case DocxLoader => LoadDocx(content.docx)
    case PdfLoader => LoadPdf(content.pdf)
    case SvgLoader => LoadSvg(content.svg)
  }

  /** The lower-cased extension an upload is judged and stored by. */
  function FileType(filename: string): string {
    LowerStr(Extension(filename))
  }

  /** The fingerprint classes; documents of different classes are never compared. */
  datatype VectorKind = ImageVector | TextVector

  /** The class of a stored document, by its (lower-cased) file type; SVG and any
      other type have none. */
  function KindOf(filetype: string): (k: Option<VectorKind>)
    ensures k == Some(ImageVector) <==> LowerStr(filetype) in ImageExtensions
    ensures k == Some(TextVector) <==> LowerStr(filetype) in TextExtensions
  {
    var ext := LowerStr(filetype);
    if ext in ImageExtensions then Some(ImageVector)
    else if ext in TextExtensions then Some(TextVector)
    else None
  }

  /** The optional image part of a search request. */
  datatype QueryImage = QueryImage(filename: string, content: Result<Picture, string>)

  /** The search request: the `type` and `query` arguments and the `query_image`
      file, each possibly absent. */
  datatype SearchRequest = SearchRequest(
    searchType: Option<string>,
    query: Option<string>,
    queryImage: Option<QueryImage>)

  /** The `type` argument, `'metadata'` when absent. */
  datatype SearchMode = MetadataSearch | VectorSearch | UnknownSearch

  function Mode(request: SearchRequest): (m: SearchMode)
    ensures m == MetadataSearch <==> request.searchType.GetOr("metadata") == "metadata"
    ensures m == VectorSearch <==> request.searchType.GetOr("metadata") == "vector"
  {
    var searchType := request.searchType.GetOr("metadata");
    if searchType == "metadata" then MetadataSearch
    else if searchType == "vector" then VectorSearch
    else UnknownSearch
  }

  /** The `query` argument, stripped; empty when absent. */
  function QueryText(request: SearchRequest): string {
    Strip(request.query.GetOr(""))
  }

  /** A vector-search result: the document and its similarity score. */
  datatype Hit = Hit(doc: Document, similarity: real)

  /** The search response: the matching documents, or the reason the request was
      refused. */
  datatype SearchResponse =
    | Found(docs: seq<Document>)
    | Ranked(hits: seq<Hit>)
    | MissingMetadataQuery
    | MissingVectorQuery
    | BadQueryImageType
    | QueryImageFailed(message: string)
    | EmptyQueryVector
    | InvalidSearchType
  {
    function Status(): nat {
      if Found? || Ranked? then 200 else 400
    }
  }

  /** A file part counts as given when it has a file name. */
  predicate HasImage(image: Option<QueryImage>) {
    image.Some? && image.value.filename != []
  }

  /** The query image's fingerprint: the histogram of the decoded image, or the
      decoder's error. */
  function QueryImageVector(image: QueryImage): (r: Result<seq<real>, string>)
    ensures r.Failure? <==> image.content.Failure?
    ensures r.Success? ==> var p := image.content.value;
      r.value == ImageToVector(p.histogram, p.width, p.height)
  {
    match image.content
    case Failure(message) => Failure(message)
    case Success(p) => Success(ImageToVector(p.histogram, p.width, p.height))
  }

  /** The query image's fingerprint as `search_documents` computes it: the module
      never imports the imaging library's `Image`, so opening the image raises a
      `NameError` whatever the file holds. */
  function QueryImageVectorAsWritten(image: QueryImage): (r: Result<seq<real>, string>)
    ensures r.Failure?
  {
    Failure("name 'Image' is not defined")
  }

  /** The query fingerprint and its class: from the query image when one is given
      (which must have an image extension), otherwise from the query text. */
  function QueryVector(image: Option<QueryImage>, query: string,
                       asWritten: bool): (r: Result<(seq<real>, VectorKind), SearchResponse>)
    ensures r.Failure? ==> r.error == BadQueryImageType || r.error.QueryImageFailed?
    ensures r.Success? ==> (r.value.1 == ImageVector <==> HasImage(image))
    ensures !HasImage(image) ==> r == Success((Reals(BagOfWords.TextToVector(query)), TextVector))
    ensures r == Failure(BadQueryImageType) <==>
              HasImage(image) && FileType(image.value.filename) !in ImageExtensions
    ensures HasImage(image) && FileType(image.value.filename) in ImageExtensions && asWritten ==>
              r.Failure? && r.error.QueryImageFailed?
    ensures HasImage(image) && FileType(image.value.filename) in ImageExtensions && !asWritten ==>
              var content := image.value.content;
              (r.Success? <==> content.Success?)
              && (content.Failure? ==> r == Failure(QueryImageFailed(content.error)))
              && (content.Success? ==> r.value.0 == ImageToVector(content.value.histogram, content.value.width, content.value.height))
  {
    if HasImage(image) then
      if FileType(image.value.filename) !in ImageExtensions then Failure(BadQueryImageType)
      else
        var r := if asWritten then QueryImageVectorAsWritten(image.value) else QueryImageVector(image.value);
        if r.Failure? then Failure(QueryImageFailed(r.error)) else Success((r.value, ImageVector))
    else
      Success((Reals(BagOfWords.TextToVector(query)), TextVector))
  }

  /** SQL `LIKE '%query%'` on file name or file type. */
  predicate MetadataMatch(d: Document, query: string) {
    ContainsIgnoringCase(d.filename, query) || ContainsIgnoringCase(d.filetype, query)
  }

  /** The rows a metadata search returns, in scan order. */
  function MetadataResults(rows: seq<Document>, query: string): (found: seq<Document>)
    ensures |found| <= |rows|
  {
    if rows == [] then []
    else
      var d := rows[|rows| - 1];
      MetadataResults(rows[..|rows| - 1], query) + if MetadataMatch(d, query) then [d] else []
  }

  /** A stored document that vector search compares with the query: same class, a
      non-empty fingerprint of the same length. */
  predicate Comparable(d: Document, qv: seq<real>, kind: VectorKind) {
    KindOf(d.filetype) == Some(kind) && d.vector != [] && |d.vector| == |qv|
  }

  /** A comparable document whose similarity is above the relevance threshold. */
  predicate Relevant(d: Document, qv: seq<real>, kind: VectorKind) {
    Comparable(d, qv, kind) && Similarity.Relevant(qv, d.vector)
  }

  /** The relevant documents with their scores, in scan order. */
  function Candidates(rows: seq<Document>, qv: seq<real>, kind: VectorKind): (hits: seq<Hit>)
    ensures |hits| <= |rows|
  {
    if rows == [] then []
    else
      var d := rows[|rows| - 1];
      Candidates(rows[..|rows| - 1], qv, kind) +
        if Relevant(d, qv, kind) then [Hit(d, Similarity.Score(qv, d.vector))] else []
  }

  function HitScore(h: Hit): real { h.similarity }
  function HitId(h: Hit): int { h.doc.id }

  /** The vector-search results: the relevant documents, best score first, equal
      scores in scan order. */
  function VectorResults(rows: seq<Document>, qv: seq<real>, kind: VectorKind): seq<Hit> {
    Ranking.SortDesc(Candidates(rows, qv, kind), HitScore)
  }

  /** `search_documents`, reading the query image as written (`asWritten`) or
      with the imaging library. */
  function SearchWith(rows: seq<Document>, request: SearchRequest,
                      asWritten: bool): SearchResponse
  {
    var mode := Mode(request);
    var query := QueryText(request);
    if mode == MetadataSearch && query == [] then MissingMetadataQuery
    else if mode == VectorSearch && query == [] && !HasImage(request.queryImage) then MissingVectorQuery
    else if mode == MetadataSearch then Found(MetadataResults(rows, query))
    else if mode == VectorSearch then
      var q := QueryVector(request.queryImage, query, asWritten);
      if q.Failure? then q.error
      else if q.value.0 == [] then EmptyQueryVector
      else Ranked(VectorResults(rows, q.value.0, q.value.1))
    else InvalidSearchType
  }

  /** The search, with the query image read by the imaging library. */
  function SearchOutcome(rows: seq<Document>, request: SearchRequest): SearchResponse {
    SearchWith(rows, request, false)
  }

  /** The search as written, where reading the query image always fails. */
  function SearchOutcomeAsWritten(rows: seq<Document>, request: SearchRequest): SearchResponse {
    SearchWith(rows, request, true)
  }

  /** The row loop of the vector search: compares the query fingerprint with each
      stored fingerprint of its class and length, and keeps the relevant rows with
      their scores, in scan order. */
  method Scan(rows: seq<Document>, qv: seq<real>, kind: VectorKind) returns (results: seq<Hit>)
    ensures results == Candidates(rows, qv, kind)
  {
    results := [];
    var i := 0;
    while i < |rows|
      invariant 0 <= i <= |rows|
      invariant results == Candidates(rows[..i], qv, kind)
    {
      var row := rows[i];
      assert rows[..i + 1] == rows[..i] + [row];
      var stored := row.vector;
      if KindOf(row.filetype) == Some(kind) && stored != [] && |stored| == |qv| {
        var similarity := Similarity.Score(qv, stored);
        if similarity > 1.0 / 100.0 {
          results := results + [Hit(row, similarity)];
        }
      }
      i := i + 1;
    }
    assert rows[..i] == rows;
  }

  /** Row ids grow strictly in scan order. */
  ghost predicate IdsIncreasing(rows: seq<Document>) {
    forall i, j :: 0 <= i < j < |rows| ==> rows[i].id < rows[j].id
  }

  /** The document table and its id counter. */
  class DocumentManager {
    var rows: seq<Document>
    var nextId: nat

    /** Ids are positive, strictly increasing in scan order and below the counter. */
    ghost predicate Valid()
      reads this
    {
      && nextId >= 1
      && IdsIncreasing(rows)
      && forall i :: 0 <= i < |rows| ==> 1 <= rows[i].id < nextId
    }

    constructor ()
      ensures Valid() && rows == [] && nextId == 1
    {
      rows := [];
      nextId := 1;
    }

    /** `INSERT INTO documents ...`: appends one row with a fresh id. */
    method Insert(filename: string, filetype: string, filesize: nat, uploadDate: string,
                  metadata: Metadata, vector: seq<real>) returns (id: nat)
      requires Valid()
      modifies this
      ensures Valid()
      ensures id == old(nextId) && nextId == id + 1
      ensures rows == old(rows) + [Document(id, filename, filetype, filesize, uploadDate, metadata, vector)]
    {
      id := nextId;
      rows := rows + [Document(id, filename, filetype, filesize, uploadDate, metadata, vector)];
      nextId := nextId + 1;
    }

    /** `handle_upload`: refuses a missing or unnamed file, an extension outside
        the accepted ones and a file above 10 MiB; otherwise runs the loader of the
        extension and stores the file's row, whatever the loader reports. */
    method Upload(file: Option<UploadedFile>, now: string) returns (response: UploadResponse)
      requires Valid()
      modifies this
      ensures Valid()
      ensures file.None? ==> response == NoFilePart
      ensures file.Some? && file.value.filename == [] ==> response == NoFileSelected
      ensures file.Some? && file.value.filename != [] ==>
        var f := file.value;
        var ext := FileType(f.filename);
        && (ext !in AcceptedExtensions ==> response == UnsupportedType)
        && (ext in AcceptedExtensions && f.size > MaxFileSize ==> response == TooLarge)
        && (ext in AcceptedExtensions && f.size <= MaxFileSize ==>
              var loaded := RunLoader(LoaderFor(ext).value, f.content);
              && response == Uploaded(loaded.metadata)
              && rows == old(rows) + [Document(old(nextId), f.filename, ext, f.size, now, loaded.metadata, loaded.vector)])
      ensures !response.Uploaded? ==> rows == old(rows) && nextId == old(nextId)
      ensures response.Uploaded? ==> nextId == old(nextId) + 1
    {
      if file.None? {
        return NoFilePart;
      }
      var f := file.value;
      if f.filename == [] {
        return NoFileSelected;
      }
      var ext := FileType(f.filename);
      if ext !in AcceptedExtensions {
        return UnsupportedType;
      }
      if f.size > MaxFileSize {
        return TooLarge;
      }
      var loaded := RunLoader(LoaderFor(ext).value, f.content);
      var _ := Insert(f.filename, ext, f.size, now, loaded.metadata, loaded.vector);
      response := Uploaded(loaded.metadata);
    }

    /** `search_documents`: validates the request, then either filters the rows by
        name and type or scans them for relevant fingerprints of the query's class
        and sorts the hits by score. */
    method Search(request: SearchRequest) returns (response: SearchResponse)
      ensures response == SearchOutcome(rows, request)
    {
      var mode := Mode(request);
      var query := QueryText(request);
      if mode == MetadataSearch && query == [] {
        return MissingMetadataQuery;
      }
      if mode == VectorSearch && query == [] && !HasImage(request.queryImage) {
        return MissingVectorQuery;
      }
      if mode == MetadataSearch {
        return Found(MetadataResults(rows, query));
      }
      if mode != VectorSearch {
        return InvalidSearchType;
      }
      var qv: seq<real>;
      var kind: VectorKind;
      if HasImage(request.queryImage) {
        var image := request.queryImage.value;
        if FileType(image.filename) !in ImageExtensions {
          return BadQueryImageType;
        }
        var read := QueryImageVector(image);
        if read.Failure? {
          return QueryImageFailed(read.error);
        }
        qv, kind := read.value, ImageVector;
      } else {
        qv, kind := Reals(BagOfWords.TextToVector(query)), TextVector;
      }
      assert QueryVector(request.queryImage, query, false) == Success((qv, kind));
      if qv == [] {
        return EmptyQueryVector;
      }
      var results := Scan(rows, qv, kind);
      response := Ranked(Ranking.SortDesc(results, HitScore));
    }
  }

  // ---------------------------------------------------------------------------
  // Properties of the search

  /** The branches of `SearchOutcome`, one at a time. */
  lemma SearchCases(rows: seq<Document>, request: SearchRequest)
    ensures var mode := Mode(request);
      var query := QueryText(request);
      var r := SearchOutcome(rows, request);
      var q := QueryVector(request.queryImage, query, false);
      && (mode == MetadataSearch && query == [] ==> r == MissingMetadataQuery)
      && (mode == MetadataSearch && query != [] ==> r == Found(MetadataResults(rows, query)))
      && (mode == VectorSearch && query == [] && !HasImage(request.queryImage) ==> r == MissingVectorQuery)
      && (mode == VectorSearch && (query != [] || HasImage(request.queryImage)) ==>
            r == if q.Failure? then q.error
                 else if q.value.0 == [] then EmptyQueryVector
                 else Ranked(VectorResults(rows, q.value.0, q.value.1)))
      && (mode == UnknownSearch ==> r == InvalidSearchType)
  {
  }

  /** The refusals: a metadata search needs a query, a vector search needs a query
      or an image, and any other type is refused. */
  lemma SearchValidation(rows: seq<Document>, request: SearchRequest)
    ensures var mode := Mode(request);
      var query := QueryText(request);
      var r := SearchOutcome(rows, request);
      && (r == MissingMetadataQuery <==> mode == MetadataSearch && query == [])
      && (r == MissingVectorQuery <==> mode == VectorSearch && query == [] && !HasImage(request.queryImage))
      && (r == InvalidSearchType <==> mode == UnknownSearch)
  {
    SearchCases(rows, request);
  }

  /** The answers: a metadata search with a query returns the metadata matches; a
      vector search returns ranked hits exactly when its query fingerprint is not
      empty, and they are the vector results for that fingerprint. */
  lemma SearchAnswers(rows: seq<Document>, request: SearchRequest)
    ensures var mode := Mode(request);
      var query := QueryText(request);
      var r := SearchOutcome(rows, request);
      var q := QueryVector(request.queryImage, query, false);
      && (r.Found? <==> mode == MetadataSearch && query != [])
      && (r.Found? ==> r.docs == MetadataResults(rows, query))
      && (r.Ranked? <==> mode == VectorSearch && (query != [] || HasImage(request.queryImage)) && q.Success? && q.value.0 != [])
      && (r.Ranked? ==> r.hits == VectorResults(rows, q.value.0, q.value.1))
  {
    SearchCases(rows, request);
  }

  /** A vector search by text that yields no word is refused, never answered with
      an empty list; a text that has a word is answered with ranked hits. */
  lemma TextQueryWithoutWords(rows: seq<Document>, request: SearchRequest)
    requires Mode(request) == VectorSearch && !HasImage(request.queryImage)
    requires QueryText(request) != []
    ensures var words := BagOfWords.Words(QueryText(request));
      && (SearchOutcome(rows, request) == EmptyQueryVector <==> words == [])
      && (SearchOutcome(rows, request).Ranked? <==> words != [])
  {
    var query := QueryText(request);
    BagOfWords.TextToVectorEmptyIff(query);
    var q := QueryVector(request.queryImage, query, false);
    assert q == Success((Reals(BagOfWords.TextToVector(query)), TextVector));
    assert SearchOutcome(rows, request) == if q.value.0 == [] then EmptyQueryVector
      else Ranked(VectorResults(rows, q.value.0, q.value.1));
  }

  lemma {:induction false} CandidatesExact(rows: seq<Document>, qv: seq<real>, kind: VectorKind)
    ensures forall h :: h in Candidates(rows, qv, kind) <==>
      h.doc in rows && Relevant(h.doc, qv, kind) && h.similarity == Similarity.Score(qv, h.doc.vector)
  {
    if rows != [] {
      var p := rows[..|rows| - 1];
      CandidatesExact(p, qv, kind);
      assert rows == p + [rows[|rows| - 1]];
    }
  }

  lemma {:induction false} CandidatesInScanOrder(rows: seq<Document>, qv: seq<real>, kind: VectorKind)
    requires IdsIncreasing(rows)
    ensures Ranking.TieIncreasing(Candidates(rows, qv, kind), HitId)
  {
    if rows != [] {
      var p := rows[..|rows| - 1];
      var d := rows[|rows| - 1];
      CandidatesInScanOrder(p, qv, kind);
      CandidatesExact(p, qv, kind);
      var c := Candidates(p, qv, kind);
      forall k | 0 <= k < |c| ensures c[k].doc.id < d.id {
        assert c[k] in c;
        var m :| 0 <= m < |p| && p[m] == c[k].doc;
        assert rows[m] == p[m];
      }
    }
  }

  /** Vector search returns exactly the documents of the query's class with a
      non-empty fingerprint of the query's length and a similarity above the
      threshold, each with its similarity. */
  lemma VectorResultsExact(rows: seq<Document>, qv: seq<real>, kind: VectorKind)
    ensures forall h :: h in VectorResults(rows, qv, kind) <==>
      && h.doc in rows
      && KindOf(h.doc.filetype) == Some(kind)
      && h.doc.vector != [] && |h.doc.vector| == |qv|
      && Similarity.Relevant(qv, h.doc.vector)
      && h.similarity == Similarity.Score(qv, h.doc.vector)
  {
    CandidatesExact(rows, qv, kind);
    var c := Candidates(rows, qv, kind);
    var r := VectorResults(rows, qv, kind);
    assert forall h :: h in r <==> h in multiset(r);
    assert forall h :: h in c <==> h in multiset(c);
  }

  /** SVG documents (and any file type outside the two classes) never appear in
      vector results. */
  lemma VectorResultsHaveAClass(rows: seq<Document>, qv: seq<real>, kind: VectorKind, h: Hit)
    requires h in VectorResults(rows, qv, kind)
    ensures LowerStr(h.doc.filetype) != ".svg"
    ensures LowerStr(h.doc.filetype) in ImageExtensions + TextExtensions
  {
    VectorResultsExact(rows, qv, kind);
  }

  /** Vector results are ordered by similarity, highest first; equal similarities
      keep scan order, that is, ascending id. */
  lemma VectorResultsOrdered(rows: seq<Document>, qv: seq<real>, kind: VectorKind)
    requires IdsIncreasing(rows)
    ensures var r := VectorResults(rows, qv, kind);
      forall i, j :: 0 <= i < j < |r| ==>
        r[i].similarity > r[j].similarity || (r[i].similarity == r[j].similarity && r[i].doc.id < r[j].doc.id)
  {
    CandidatesInScanOrder(rows, qv, kind);
    Ranking.SortDescRanked(Candidates(rows, qv, kind), HitScore, HitId);
  }

  lemma {:induction false} MetadataResultsExact(rows: seq<Document>, query: string)
    ensures forall d :: d in MetadataResults(rows, query) <==> d in rows && MetadataMatch(d, query)
  {
    if rows != [] {
      var p := rows[..|rows| - 1];
      MetadataResultsExact(p, query);
      assert rows == p + [rows[|rows| - 1]];
    }
  }

  lemma {:induction false} MetadataResultsInScanOrder(rows: seq<Document>, query: string)
    requires IdsIncreasing(rows)
    ensures IdsIncreasing(MetadataResults(rows, query))
  {
    if rows != [] {
      var p := rows[..|rows| - 1];
      var d := rows[|rows| - 1];
      MetadataResultsInScanOrder(p, query);
      MetadataResultsExact(p, query);
      var f := MetadataResults(p, query);
      forall k | 0 <= k < |f| ensures f[k].id < d.id {
        assert f[k] in f;
        var m :| 0 <= m < |p| && p[m] == f[k];
        assert rows[m] == p[m];
      }
    }
  }

  /** A metadata search returns exactly the rows whose file name or file type
      contains the query, ignoring case, in scan order. */
  lemma MetadataSearchResults(rows: seq<Document>, request: SearchRequest)
    requires IdsIncreasing(rows)
    requires SearchOutcome(rows, request).Found?
    ensures var query := QueryText(request);
      var found := SearchOutcome(rows, request).docs;
      && (forall d :: d in found <==> d in rows && MetadataMatch(d, query))
      && IdsIncreasing(found)
  {
    var query := QueryText(request);
    SearchAnswers(rows, request);
    MetadataResultsExact(rows, query);
    MetadataResultsInScanOrder(rows, query);
  }

  /** A search by a word of a file name finds that file, and not a file whose
      name and type do not contain it. */
  lemma MetadataExample(report: Document, invoice: Document)
    requires report.filename == "Quarterly Report.pdf" && invoice.filename == "invoice.pdf"
    requires invoice.filetype == ".pdf"
    ensures MetadataResults([report, invoice], "Report") == [report]
  {
    ReportNameMatches(report);
    InvoiceNameMisses(invoice);
    assert [report, invoice][..1] == [report];
  }

  lemma ReportNameMatches(report: Document)
    requires report.filename == "Quarterly Report.pdf"
    ensures MetadataMatch(report, "Report")
  {
    var lr := LowerStr("Report");
    assert lr == "report";
    assert LowerStr(report.filename)[10..16] == lr;
    assert OccursAt(LowerStr(report.filename), lr, 10);
    ContainsIff(LowerStr(report.filename), lr);
  }

  lemma InvoiceNameMisses(invoice: Document)
    requires invoice.filename == "invoice.pdf" && invoice.filetype == ".pdf"
    ensures !MetadataMatch(invoice, "Report")
  {
    var lr := LowerStr("Report");
    assert lr == "report";
    assert LowerStr(invoice.filename) == "invoice.pdf";
    MissingFirstChar(LowerStr(invoice.filename), lr);
    assert |LowerStr(invoice.filetype)| < |lr|;
  }

  /** A query image with a readable 768-bin histogram of a non-empty image gives a
      histogram fingerprint; the code as written refuses it all the same. */
  lemma QueryImageRefusedAsWritten(rows: seq<Document>, request: SearchRequest)
    requires Mode(request) == VectorSearch && HasImage(request.queryImage)
    requires FileType(request.queryImage.value.filename) in ImageExtensions
    requires var c := request.queryImage.value.content;
      c.Success? && |c.value.histogram| == HistogramBins && c.value.width * c.value.height > 0
    ensures SearchOutcomeAsWritten(rows, request).QueryImageFailed?
    ensures SearchOutcome(rows, request).Ranked?
  {
    var query := QueryText(request);
    var p := request.queryImage.value.content.value;
    var v := ImageToVector(p.histogram, p.width, p.height);
    assert v != [];
    var asWritten := QueryVector(request.queryImage, query, true);
    assert asWritten == Failure(QueryImageFailed("name 'Image' is not defined"));
    assert SearchOutcomeAsWritten(rows, request) == asWritten.error;
    assert QueryVector(request.queryImage, query, false) == Success((v, ImageVector));
    SearchAnswers(rows, request);
  }
}
