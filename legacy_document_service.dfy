/**
 * The older document service of `app.py`: PDF and Markdown files only, each
 * stored with a category and a bag-of-words fingerprint of its text. Its search
 * needs a query in both modes, matches file name or category in metadata mode and
 * compares the query's fingerprint with every stored fingerprint, with no class
 * filter, in vector mode. An upload whose text yields no fingerprint is refused
 * and stores nothing.
 */
module LegacyDocumentService {
  import opened Wrappers
  import opened Ascii
  import BagOfWords
  import Similarity
  import Ranking
  import FileHandlers

  /** The largest accepted upload, 10 MiB. */
  const MaxFileSize: nat := 10 * 1024 * 1024

  /** The directory files are saved in. */
  const UploadFolder: string := "uploads"

  /** The category of an upload that names none. */
  const DefaultCategory: string := "Uncategorized"

  /** The message of the exception raised when an upload yields no fingerprint. */
  const NoVectorMessage: string := "Failed to generate content vector for the document"

  /** One row of the `documents` table. */
  datatype Document = Document(
    id: nat,
    filename: string,
    category: string,
    uploadDate: string,
    filePath: string,
    vector: seq<real>)

  /** What reading the saved file gives: the text of the PDF pages and the
      contents of the file as UTF-8 text, or the message of the exception each
      raises. */
  datatype Sources = Sources(pdfText: Result<string, string>, fileText: Result<string, string>)

  /** The `file` part of an upload request. */
  datatype UploadedFile = UploadedFile(filename: string, size: nat, content: Sources)

  /** The upload request: the `file` part and the `category` form field, each
      possibly absent. */
  datatype UploadRequest = UploadRequest(file: Option<UploadedFile>, category: Option<string>)

  datatype UploadResponse =
    | Uploaded
    | NoFilePart
    | NoFileSelected
    | UnsupportedType
    | TooLarge
    | UploadFailed(message: string)
  {
    function Status(): nat {
      if Uploaded? then 200 else if UploadFailed? then 500 else 400
    }
  }

  /** `extract_text`: the PDF's text for `.pdf`, the file's contents for `.md`,
      and the empty text for any other extension or when reading fails. */
  function ExtractText(ext: string, content: Sources): (text: string)
    ensures ext != ".pdf" && ext != ".md" ==> text == []
    ensures ext == ".pdf" ==> text == if content.pdfText.Success? then content.pdfText.value else []
    ensures ext == ".md" ==> text == if content.fileText.Success? then content.fileText.value else []
  {
    if ext == ".pdf" then
      match content.pdfText
      case Success(text) => text
      case Failure(_) => []
    else if ext == ".md" then
      match content.fileText
      case Success(text) => text
      case Failure(_) => []
    else []
  }

  /** The name test of `handle_upload`: the name ends in `.pdf` or `.md`, with
      case. */
  predicate AcceptedName(filename: string) {
    EndsWith(filename, ".pdf") || EndsWith(filename, ".md")
  }

  /** The fingerprint stored for an uploaded file: the bag of words of the text
      extracted by its lower-cased extension. */
  function ContentVector(f: UploadedFile): seq<real> {
    FileHandlers.Reals(BagOfWords.TextToVector(ExtractText(LowerStr(Extension(f.filename)), f.content)))
  }

  /** What `handle_upload` decides: the row to store, or the response refusing
      the request. */
  datatype Admission =
    | Store(filename: string, category: string, filePath: string, vector: seq<real>)
    | Refuse(response: UploadResponse)

  function Admit(request: UploadRequest): (a: Admission)
    ensures a.Store? ==> a.vector != [] && request.file.Some? && a.filename == request.file.value.filename
    ensures a.Refuse? ==> !a.response.Uploaded?
  {
    match request.file
    case None => Refuse(NoFilePart)
    case Some(f) =>
      if f.filename == [] then Refuse(NoFileSelected)
      else if !AcceptedName(f.filename) then Refuse(UnsupportedType)
      else if f.size > MaxFileSize then Refuse(TooLarge)
      else
        var vector := ContentVector(f);
        if vector == [] then Refuse(UploadFailed("Upload failed: " + NoVectorMessage))
        else Store(f.filename, request.category.GetOr(DefaultCategory), PathJoin(UploadFolder, f.filename), vector)
  }

  /** The search request: the `query` and `type` arguments, each possibly absent. */
  datatype SearchRequest = SearchRequest(query: Option<string>, searchType: Option<string>)

  /** A vector-search result: the document and its similarity score. */
  datatype Hit = Hit(doc: Document, similarity: real)

  datatype SearchResponse =
    | Found(docs: seq<Document>)
    | Ranked(hits: seq<Hit>)
    | MissingQuery
    | EmptyQueryVector
    | InvalidSearchType
  {
    function Status(): nat {
      if Found? || Ranked? then 200 else 400
    }
  }

  /** The `query` argument, stripped; empty when absent. */
  function QueryText(request: SearchRequest): string {
    Strip(request.query.GetOr(""))
  }

  /** The `type` argument, `'metadata'` when absent. */
  function SearchType(request: SearchRequest): string {
    request.searchType.GetOr("metadata")
  }

  /** SQL `filename LIKE '%query%' OR category LIKE '%query%'`. */
  predicate MetadataMatch(d: Document, query: string) {
    ContainsIgnoringCase(d.filename, query) || ContainsIgnoringCase(d.category, query)
  }

  /** The rows a metadata search returns, in scan order. */
  function MetadataResults(rows: seq<Document>, query: string): (found: seq<Document>)
    ensures |found| <= |rows|
  {
    if rows == [] then []
    else
      var d := rows[|rows| - 1];
      MetadataResults(rows[..|rows| - 1], query) + if MetadataMatch(d, query) then [d] else []
  }

  /** The rows whose similarity with the query is above the threshold, with their
      scores, in scan order; every row is compared. */
  function Candidates(rows: seq<Document>, qv: seq<real>): (hits: seq<Hit>)
    ensures |hits| <= |rows|
  {
    if rows == [] then []
    else
      var d := rows[|rows| - 1];
      Candidates(rows[..|rows| - 1], qv) +
        if Similarity.Relevant(qv, d.vector) then [Hit(d, Similarity.Score(qv, d.vector))] else []
  }

  function HitScore(h: Hit): real { h.similarity }
  function HitId(h: Hit): int { h.doc.id }

  /** The vector-search results: best score first, equal scores in scan order. */
  function VectorResults(rows: seq<Document>, qv: seq<real>): seq<Hit> {
    Ranking.SortDesc(Candidates(rows, qv), HitScore)
  }

  /** The fingerprint of the query text. */
  function QueryVector(query: string): seq<real> {
    FileHandlers.Reals(BagOfWords.TextToVector(query))
  }

  /** `search_documents`. */
  function SearchOutcome(rows: seq<Document>, request: SearchRequest): SearchResponse {
    var query := QueryText(request);
    var searchType := SearchType(request);
    if query == [] then MissingQuery
    else if searchType == "metadata" then Found(MetadataResults(rows, query))
    else if searchType == "vector" then
      var qv := QueryVector(query);
      if qv == [] then EmptyQueryVector else Ranked(VectorResults(rows, qv))
    else InvalidSearchType
  }

  /** The row loop of the vector search: scores every stored fingerprint against
      the query and keeps the rows above the threshold, in scan order. */
  method Scan(rows: seq<Document>, qv: seq<real>) returns (results: seq<Hit>)
    ensures results == Candidates(rows, qv)
  {
    results := [];
    var i := 0;
    while i < |rows|
      invariant 0 <= i <= |rows|
      invariant results == Candidates(rows[..i], qv)
    {
      var row := rows[i];
      assert rows[..i + 1] == rows[..i] + [row];
      var similarity := Similarity.Score(qv, row.vector);
      if similarity > 1.0 / 100.0 {
        results := results + [Hit(row, similarity)];
      }
      i := i + 1;
    }
    assert rows[..i] == rows;
  }

  /** Row ids grow strictly in scan order. */
  ghost predicate IdsIncreasing(rows: seq<Document>) {
    forall i, j :: 0 <= i < j < |rows| ==> rows[i].id < rows[j].id
  }

  /** The document table and its id counter. */
  class DocumentManager {
    var rows: seq<Document>
    var nextId: nat

    /** Ids are positive, strictly increasing in scan order and below the counter;
        every stored fingerprint is non-empty. */
    ghost predicate Valid()
      reads this
    {
      && nextId >= 1
      && IdsIncreasing(rows)
      && (forall i :: 0 <= i < |rows| ==> 1 <= rows[i].id < nextId)
      && (forall i :: 0 <= i < |rows| ==> rows[i].vector != [])
    }

    constructor ()
      ensures Valid() && rows == [] && nextId == 1
    {
      rows := [];
      nextId := 1;
    }

    /** `INSERT INTO documents ...`: appends one row with a fresh id. */
    method Insert(filename: string, category: string, uploadDate: string, filePath: string, vector: seq<real>)
      requires Valid() && vector != []
      modifies this
      ensures Valid()
      ensures nextId == old(nextId) + 1
      ensures rows == old(rows) + [Document(old(nextId), filename, category, uploadDate, filePath, vector)]
    {
      rows := rows + [Document(nextId, filename, category, uploadDate, filePath, vector)];
      nextId := nextId + 1;
    }

    /** `handle_upload`: stores the admitted file's row with a fresh id, or
        answers with the refusal and leaves the table alone. */
    method Upload(request: UploadRequest, now: string) returns (response: UploadResponse)
      requires Valid()
      modifies this
      ensures Valid()
      ensures var a := Admit(request);
        && (a.Refuse? ==> response == a.response && rows == old(rows) && nextId == old(nextId))
        && (a.Store? ==>
              && response == Uploaded
              && nextId == old(nextId) + 1
              && rows == old(rows) + [Document(old(nextId), a.filename, a.category, now, a.filePath, a.vector)])
    {
      UploadRules(request);
      if request.file.None? {
        return NoFilePart;
      }
      var f := request.file.value;
      var category := request.category.GetOr(DefaultCategory);
      if f.filename == [] {
        return NoFileSelected;
      }
      if EndsWith(f.filename, ".pdf") || EndsWith(f.filename, ".md") {
        if f.size > MaxFileSize {
          return TooLarge;
        }
        var filePath := PathJoin(UploadFolder, f.filename);
        var ext := LowerStr(Extension(f.filename));
        var text := ExtractText(ext, f.content);
        var vector := FileHandlers.Reals(BagOfWords.TextToVector(text));
        assert vector == ContentVector(f);
        if vector == [] {
          return UploadFailed("Upload failed: " + NoVectorMessage);
        }
        Insert(f.filename, category, now, filePath, vector);
        return Uploaded;
      }
      response := UnsupportedType;
    }

    /** `search_documents`: refuses an empty query, then either filters the rows
        by name and category or scores every row against the query's fingerprint
        and sorts the hits by score. */
    method Search(request: SearchRequest) returns (response: SearchResponse)
      ensures response == SearchOutcome(rows, request)
    {
      var query := QueryText(request);
      var searchType := SearchType(request);
      if query == [] {
        return MissingQuery;
      }
      if searchType == "metadata" {
        return Found(MetadataResults(rows, query));
      } else if searchType == "vector" {
        var qv := QueryVector(query);
        if qv == [] {
          return EmptyQueryVector;
        }
        var results := Scan(rows, qv);
        return Ranked(Ranking.SortDesc(results, HitScore));
      }
      response := InvalidSearchType;
    }
  }

  // ---------------------------------------------------------------------------
  // Properties of the upload

  /** The upload rules: a file is stored exactly when it is named, its name ends in
      `.pdf` or `.md`, it is at most 10 MiB and its text yields a fingerprint; each
      refusal has its own condition, and the category defaults to
      `Uncategorized`. */
  lemma UploadRules(request: UploadRequest)
    ensures var a := Admit(request);
      && (a == Refuse(NoFilePart) <==> request.file.None?)
      && (request.file.Some? ==>
            var f := request.file.value;
            && (a == Refuse(NoFileSelected) <==> f.filename == [])
            && (a == Refuse(UnsupportedType) <==> f.filename != [] && !AcceptedName(f.filename))
            && (a == Refuse(TooLarge) <==> f.filename != [] && AcceptedName(f.filename) && f.size > MaxFileSize)
            && (a.Refuse? && a.response.UploadFailed? <==>
                  f.filename != [] && AcceptedName(f.filename) && f.size <= MaxFileSize && ContentVector(f) == [])
            && (a.Store? <==>
                  f.filename != [] && AcceptedName(f.filename) && f.size <= MaxFileSize && ContentVector(f) != [])
            && (a.Store? ==>
                  && a.category == request.category.GetOr(DefaultCategory)
                  && a.filePath == PathJoin(UploadFolder, f.filename)
                  && ("uploads/" <= a.filePath <==> f.filename[0] != '/')))
  {
    assert UploadFolder + "/" == "uploads/";
  }

  /** The stored path is `os.path.join` of the upload folder and the client's file
      name, so an absolute name such as `/tmp/notes.md` is stored, and saved, at
      that name, outside the upload folder. */
  lemma AbsoluteNameLeavesFolder(request: UploadRequest)
    requires request.file.Some? && |request.file.value.filename| > 0
    requires request.file.value.filename[0] == '/'
    requires Admit(request).Store?
    ensures Admit(request).filePath == request.file.value.filename
    ensures !("uploads/" <= Admit(request).filePath)
  {
  }

  /** A stored file's text has at least one word, and its fingerprint is the bag of
      words of that text. */
  lemma {:induction false} StoredTextHasWords(request: UploadRequest)
    requires Admit(request).Store?
    ensures var f := request.file.value;
      var text := ExtractText(LowerStr(Extension(f.filename)), f.content);
      && BagOfWords.Words(text) != []
      && |Admit(request).vector| == BagOfWords.Min(BagOfWords.VocabularySize, |BagOfWords.Distinct(BagOfWords.Words(text))|)
  {
    var f := request.file.value;
    var text := ExtractText(LowerStr(Extension(f.filename)), f.content);
    BagOfWords.TextToVectorEmptyIff(text);
    BagOfWords.TextToVectorShape(text);
  }

  /** The name test is case-sensitive: `REPORT.PDF` is refused. */
  lemma UpperCaseNameRefused(f: UploadedFile, category: Option<string>)
    requires f.filename == "REPORT.PDF"
    ensures Admit(UploadRequest(Some(f), category)) == Refuse(UnsupportedType)
  {
    assert f.filename[|f.filename| - 4..] == ".PDF";
    assert f.filename[|f.filename| - 3..] == "PDF";
  }

  /** A file named just `.md` passes the name test, but `splitext` gives it no
      extension, so no text is read and the upload fails. */
  lemma BareExtensionFails(f: UploadedFile, category: Option<string>)
    requires f.filename == ".md" && f.size <= MaxFileSize
    ensures Admit(UploadRequest(Some(f), category)) == Refuse(UploadFailed("Upload failed: " + NoVectorMessage))
  {
    assert EndsWith(f.filename, ".md");
    assert Extension(f.filename) == [] by {
      DotFileHasNoExtension(f.filename);
    }
    assert LowerStr([]) == [];
    BagOfWords.TextToVectorEmptyIff([]);
  }

  // ---------------------------------------------------------------------------
  // Properties of the search

  /** The branches of `SearchOutcome`: an empty query is refused in every mode,
      before the type is looked at; a vector query without words is refused;
      any type other than `metadata` and `vector` is refused. */
  lemma SearchCases(rows: seq<Document>, request: SearchRequest)
    ensures var query := QueryText(request);
      var t := SearchType(request);
      var r := SearchOutcome(rows, request);
      && (r == MissingQuery <==> query == [])
      && (r.Found? <==> query != [] && t == "metadata")
      && (r.Found? ==> r.docs == MetadataResults(rows, query))
      && (r == EmptyQueryVector <==> query != [] && t == "vector" && BagOfWords.Words(query) == [])
      && (r.Ranked? <==> query != [] && t == "vector" && BagOfWords.Words(query) != [])
      && (r.Ranked? ==> r.hits == VectorResults(rows, QueryVector(query)))
      && (r == InvalidSearchType <==> query != [] && t != "metadata" && t != "vector")
  {
    var query := QueryText(request);
    assert "metadata"[0] != "vector"[0];
    if query != [] && SearchType(request) == "vector" {
      BagOfWords.TextToVectorEmptyIff(query);
      assert QueryVector(query) == [] <==> BagOfWords.Words(query) == [];
    }
  }

  lemma {:induction false} CandidatesExact(rows: seq<Document>, qv: seq<real>)
    ensures forall h :: h in Candidates(rows, qv) <==>
      h.doc in rows && Similarity.Relevant(qv, h.doc.vector) && h.similarity == Similarity.Score(qv, h.doc.vector)
  {
    if rows != [] {
      var p := rows[..|rows| - 1];
      CandidatesExact(p, qv);
      assert rows == p + [rows[|rows| - 1]];
    }
  }

  lemma {:induction false} CandidatesInScanOrder(rows: seq<Document>, qv: seq<real>)
    requires IdsIncreasing(rows)
    ensures Ranking.TieIncreasing(Candidates(rows, qv), HitId)
  {
    if rows != [] {
      var p := rows[..|rows| - 1];
      var d := rows[|rows| - 1];
      CandidatesInScanOrder(p, qv);
      CandidatesExact(p, qv);
      var c := Candidates(p, qv);
      forall k | 0 <= k < |c| ensures c[k].doc.id < d.id {
        assert c[k] in c;
        var m :| 0 <= m < |p| && p[m] == c[k].doc;
        assert rows[m] == p[m];
      }
    }
  }

  /** Vector search returns exactly the rows whose similarity with the query is
      above the threshold, each with its similarity; with no class filter, a row
      is only excluded by its score, and a fingerprint of another length scores 0
      and never appears. */
  lemma VectorResultsExact(rows: seq<Document>, qv: seq<real>)
    ensures forall h :: h in VectorResults(rows, qv) <==>
      h.doc in rows && Similarity.Relevant(qv, h.doc.vector) && h.similarity == Similarity.Score(qv, h.doc.vector)
    ensures forall h :: h in VectorResults(rows, qv) ==> |h.doc.vector| == |qv| && h.similarity > 1.0 / 100.0
  {
    CandidatesExact(rows, qv);
    var c := Candidates(rows, qv);
    var r := VectorResults(rows, qv);
    assert forall h :: h in r <==> h in multiset(r);
    assert forall h :: h in c <==> h in multiset(c);
  }

  /** Vector results are ordered by similarity, highest first; equal similarities
      keep scan order, that is, ascending id. */
  lemma VectorResultsOrdered(rows: seq<Document>, qv: seq<real>)
    requires IdsIncreasing(rows)
    ensures var r := VectorResults(rows, qv);
      forall i, j :: 0 <= i < j < |r| ==>
        r[i].similarity > r[j].similarity || (r[i].similarity == r[j].similarity && r[i].doc.id < r[j].doc.id)
  {
    CandidatesInScanOrder(rows, qv);
    Ranking.SortDescRanked(Candidates(rows, qv), HitScore, HitId);
  }

  /** A metadata search returns exactly the rows whose file name or category
      contains the query, ignoring case. */
  lemma {:induction false} MetadataResultsExact(rows: seq<Document>, query: string)
    ensures forall d :: d in MetadataResults(rows, query) <==> d in rows && MetadataMatch(d, query)
  {
    if rows != [] {
      var p := rows[..|rows| - 1];
      MetadataResultsExact(p, query);
      assert rows == p + [rows[|rows| - 1]];
    }
  }

  /** A query matches its own upper-case file name: `LOG SHEET` finds
      `LOG SHEET.pdf`. */
  lemma MetadataExample(d: Document)
    requires d.filename == "LOG SHEET.pdf"
    ensures MetadataResults([d], "LOG SHEET") == [d]
  {
    var q := LowerStr("LOG SHEET");
    assert LowerStr(d.filename)[..9] == q;
    assert OccursAt(LowerStr(d.filename), q, 0);
    ContainsIff(LowerStr(d.filename), q);
    assert [d][..0] == [];
  }
}
