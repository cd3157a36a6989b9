/**
 * The `Loader` of the document service: the two fingerprints (the bag-of-words
 * text vector lives in `BagOfWords`, the colour histogram here), the metadata each
 * loader reports, and the error fallback shared by all loaders. The decoders
 * themselves (the imaging library, the DOCX and PDF text extractors, the XML
 * parser) are not modelled: what they deliver, or the message of the exception
 * they raise, is the input of each loader.
 */
module FileHandlers {
  import opened Wrappers
  import opened Ascii
  import BagOfWords
  import Similarity

  /** An RGB histogram has 256 bins per channel. */
  const HistogramBins: nat := 768

  /** What the imaging library reports about an opened image: its format, size and
      mode, and the histogram of the image converted to RGB. */
  datatype Picture = Picture(format: string, width: nat, height: nat, mode: string, histogram: seq<nat>)

  /** What the PDF library reports: the page count, the document information
      dictionary (absent for some documents) and the text of all pages, joined. */
  datatype PdfDocument = PdfDocument(pageCount: nat, info: Option<map<string, string>>, text: string)

  /** The root element of a parsed SVG file: its tag in `{namespace}local` form and
      its attributes. */
  datatype SvgRoot = SvgRoot(tag: string, attributes: map<string, string>)

  /** The metadata dictionary a loader returns. */
  datatype Metadata =
    | ImageInfo(format: string, width: nat, height: nat, mode: string)
    | DocxInfo(textLength: nat, wordCount: nat)
    | PdfInfo(pageCount: nat, title: string)
    | SvgInfo(svgWidth: string, svgHeight: string, namespace: string)
    | ErrorInfo(message: string)

  /** The `(metadata, vector)` pair a loader returns. */
  datatype Loaded = Loaded(metadata: Metadata, vector: seq<real>)

  /** A count vector as the list of numbers it is stored as. */
  function Reals(v: seq<nat>): (r: seq<real>)
    ensures |r| == |v|
    ensures forall i :: 0 <= i < |v| ==> r[i] == v[i] as real
  {
    seq(|v|, i requires 0 <= i < |v| => v[i] as real)
  }

  /** Every bin divided by `n`. */
  function Normalize(histogram: seq<nat>, n: real): (v: seq<real>)
    requires n > 0.0
    ensures |v| == |histogram|
  {
    if histogram == [] then [] else [histogram[0] as real / n] + Normalize(histogram[1..], n)
  }

  /** Dividing by a positive `n` and multiplying back gives `x`; a quotient of a
      non-negative number is non-negative. */
  lemma DivideBack(x: real, n: real)
    requires n > 0.0
    ensures (x / n) * n == x
    ensures x >= 0.0 ==> x / n >= 0.0
  {
    Similarity.DivideSign(x, n);
  }

  /** Entry `i` is bin `i` divided by `n`. */
  lemma {:induction false} NormalizeAt(histogram: seq<nat>, n: real, i: nat)
    requires n > 0.0 && i < |histogram|
    ensures Normalize(histogram, n)[i] == histogram[i] as real / n
    decreases i
  {
    if i > 0 {
      NormalizeAt(histogram[1..], n, i - 1);
    }
  }

  /** Each entry times `n` gives back its bin, so no entry is negative. */
  lemma NormalizeEntries(histogram: seq<nat>, n: real)
    requires n > 0.0
    ensures var v := Normalize(histogram, n);
      forall i :: 0 <= i < |v| ==> v[i] >= 0.0 && v[i] * n == histogram[i] as real
  {
    forall i | 0 <= i < |histogram| {
      EntryTimesSize(histogram, n, i);
    }
  }

  lemma EntryTimesSize(histogram: seq<nat>, n: real, i: nat)
    requires n > 0.0 && i < |histogram|
    ensures Normalize(histogram, n)[i] >= 0.0
    ensures Normalize(histogram, n)[i] * n == histogram[i] as real
  {
    NormalizeAt(histogram, n, i);
    DivideBack(histogram[i] as real, n);
  }

  /** `image_to_vector`: a histogram of the wrong length or an image without pixels
      gives `[]`; otherwise every bin is divided by the number of pixels, so that
      entry times pixel count gives back the bin. */
  function ImageToVector(histogram: seq<nat>, width: nat, height: nat): (v: seq<real>)
    ensures v == [] <==> |histogram| != HistogramBins || width * height == 0
    ensures v != [] ==> |v| == HistogramBins
  {
    if |histogram| != HistogramBins then []
    else
      var pixels := width * height;
      if pixels == 0 then [] else Normalize(histogram, pixels as real)
  }

  /** The entries of a non-empty image fingerprint are the bins divided by the
      pixel count, so none is negative. */
  lemma ImageVectorEntries(histogram: seq<nat>, width: nat, height: nat)
    requires |histogram| == HistogramBins && width * height > 0
    ensures var v := ImageToVector(histogram, width, height);
      |v| == HistogramBins &&
      forall i :: 0 <= i < |v| ==> v[i] >= 0.0 && v[i] * (width * height) as real == histogram[i] as real
  {
    var n := (width * height) as real;
    assert ImageToVector(histogram, width, height) == Normalize(histogram, n);
    NormalizeEntries(histogram, n);
  }

  /** The namespace of an element tag: the text between the leading character and
      the first `}`, or `'unknown'` when the tag has no `}`. */
  function SvgNamespace(tag: string): (ns: string)
    ensures '}' !in tag ==> ns == "unknown"
    ensures '}' in tag ==> var i := IndexOf(tag, '}'); ns == if i == 0 then [] else tag[1..i]
  {
    if '}' in tag then
      var first := Split(tag, '}')[0];
      if first == [] then [] else first[1..]
    else
      "unknown"
  }

  /** `root.get(name, 'unknown')` */
  function SvgAttribute(attributes: map<string, string>, name: string): (value: string)
    ensures name in attributes ==> value == attributes[name]
    ensures name !in attributes ==> value == "unknown"
  {
    if name in attributes then attributes[name] else "unknown"
  }

  /** The PDF title: the `title` entry of a non-empty information dictionary, or
      the empty string. */
  function PdfTitle(info: Option<map<string, string>>): (title: string)
    ensures info.Some? && "title" in info.value ==> title == info.value["title"]
    ensures (info.None? || "title" !in info.value) ==> title == ""
  {
    if info.None? || info.value == map[] then ""
    else if "title" in info.value then info.value["title"]
    else ""
  }

  /** `load_image`: the format, size and mode of the image and its histogram
      fingerprint, or the error fallback. */
  function LoadImage(decoded: Result<Picture, string>): (r: Loaded)
    ensures decoded.Failure? ==> r == Loaded(ErrorInfo(decoded.error), [])
    ensures decoded.Success? ==> var p := decoded.value;
      && r.metadata == ImageInfo(p.format, p.width, p.height, p.mode)
      && r.vector == ImageToVector(p.histogram, p.width, p.height)
  {
    match decoded
    case Failure(message) => Loaded(ErrorInfo(message), [])
    case Success(p) =>
      Loaded(ImageInfo(p.format, p.width, p.height, p.mode), ImageToVector(p.histogram, p.width, p.height))
  }

  /** `load_docx`: the text length, the number of words and the text fingerprint,
      or the error fallback. */
  function LoadDocx(decoded: Result<string, string>): (r: Loaded)
    ensures decoded.Failure? ==> r == Loaded(ErrorInfo(decoded.error), [])
    ensures decoded.Success? ==> var text := decoded.value;
      && r.metadata == DocxInfo(|text|, |BagOfWords.Words(text)|)
      && r.vector == Reals(BagOfWords.TextToVector(text))
  {
    match decoded
    case Failure(message) => Loaded(ErrorInfo(message), [])
    case Success(text) =>
      Loaded(DocxInfo(|text|, |BagOfWords.Words(text)|), Reals(BagOfWords.TextToVector(text)))
  }

  /** `load_pdf`: the page count, the title and the fingerprint of the text of all
      pages, or the error fallback. */
  function LoadPdf(decoded: Result<PdfDocument, string>): (r: Loaded)
    ensures decoded.Failure? ==> r == Loaded(ErrorInfo(decoded.error), [])
    ensures decoded.Success? ==> var d := decoded.value;
      && r.metadata == PdfInfo(d.pageCount, PdfTitle(d.info))
      && r.vector == Reals(BagOfWords.TextToVector(d.text))
  {
    match decoded
    case Failure(message) => Loaded(ErrorInfo(message), [])
    case Success(d) =>
      Loaded(PdfInfo(d.pageCount, PdfTitle(d.info)), Reals(BagOfWords.TextToVector(d.text)))
  }

  /** `load_svg`: width, height and namespace of the root element, and never a
      fingerprint; or the error fallback. */
  function LoadSvg(decoded: Result<SvgRoot, string>): (r: Loaded)
    ensures r.vector == []
    ensures decoded.Failure? ==> r.metadata == ErrorInfo(decoded.error)
    ensures decoded.Success? ==> var root := decoded.value;
      r.metadata == SvgInfo(SvgAttribute(root.attributes, "width"), SvgAttribute(root.attributes, "height"),
                            SvgNamespace(root.tag))
  {
    match decoded
    case Failure(message) => Loaded(ErrorInfo(message), [])
    case Success(root) =>
      Loaded(SvgInfo(SvgAttribute(root.attributes, "width"), SvgAttribute(root.attributes, "height"),
                     SvgNamespace(root.tag)), [])
  }

  // ---------------------------------------------------------------------------
  // Properties

  function SumReals(v: seq<real>): real {
    if v == [] then 0.0 else v[0] + SumReals(v[1..])
  }

  function SumNats(h: seq<nat>): nat {
    if h == [] then 0 else h[0] + SumNats(h[1..])
  }

  lemma {:induction false} SumDivided(h: seq<nat>, v: seq<real>, n: real)
    requires |v| == |h|
    requires forall i :: 0 <= i < |v| ==> v[i] * n == h[i] as real
    ensures SumReals(v) * n == SumNats(h) as real
  {
    if v != [] {
      assert forall i :: 0 <= i < |v[1..]| ==> v[1..][i] == v[i + 1] && h[1..][i] == h[i + 1];
      SumDivided(h[1..], v[1..], n);
      Distribute(v[0], SumReals(v[1..]), n);
    }
  }

  lemma Distribute(a: real, b: real, n: real)
    ensures (a + b) * n == a * n + b * n
  {
  }

  /** The histogram is normalised by image size: when each of the three channels
      counts every pixel once, the entries of the fingerprint add up to 3. */
  lemma ImageVectorTotal(histogram: seq<nat>, width: nat, height: nat)
    requires |histogram| == HistogramBins && width * height > 0
    requires SumNats(histogram) == 3 * (width * height)
    ensures SumReals(ImageToVector(histogram, width, height)) == 3.0
  {
    var pixels := width * height;
    var n := pixels as real;
    var v := Normalize(histogram, n);
    assert ImageToVector(histogram, width, height) == v;
    assert SumReals(v) * n == SumNats(histogram) as real by {
      NormalizeEntries(histogram, n);
      SumDivided(histogram, v, n);
    }
    TripleCast(SumNats(histogram), pixels);
    Similarity.CancelPositive(SumReals(v), 3.0, n);
  }

  lemma TripleCast(total: nat, pixels: nat)
    requires total == 3 * pixels
    ensures total as real == 3.0 * (pixels as real)
  {
  }

  /** Every bin multiplied by `k`. */
  function Scaled(histogram: seq<nat>, k: nat): (r: seq<nat>)
    ensures |r| == |histogram|
    ensures forall i :: 0 <= i < |r| ==> r[i] == k * histogram[i]
  {
    seq(|histogram|, i requires 0 <= i < |histogram| => k * histogram[i])
  }

  lemma DivideScaled(x: real, c: real, n: real)
    requires c > 0.0 && n > 0.0
    ensures (c * x) / (c * n) == x / n
  {
    var q := x / n;
    assert q * n == x;
    var m := c * n;
    assert m > 0.0;
    assert c * x == q * m;
  }

  lemma {:induction false} NormalizeScaled(histogram: seq<nat>, k: nat, pixels: nat)
    requires k > 0 && pixels > 0 && k * pixels > 0
    ensures Normalize(Scaled(histogram, k), (k * pixels) as real) == Normalize(histogram, pixels as real)
  {
    if histogram != [] {
      var kr, n, c := k as real, pixels as real, (k * pixels) as real;
      assert c == kr * n;
      var scaled := Scaled(histogram, k);
      var tail := Scaled(histogram[1..], k);
      assert scaled[1..] == tail;
      NormalizeScaled(histogram[1..], k, pixels);
      var x := histogram[0] as real;
      assert scaled[0] as real == kr * x;
      DivideScaled(x, kr, n);
      calc {
        Normalize(scaled, c);
        [scaled[0] as real / c] + Normalize(scaled[1..], c);
        [(kr * x) / (kr * n)] + Normalize(tail, c);
        [x / n] + Normalize(histogram[1..], n);
        Normalize(histogram, n);
      }
    }
  }

  /** The fingerprint does not depend on image size: an image `k` times as wide
      whose every bin holds `k` times as many pixels has the same fingerprint. */
  lemma ImageVectorScaleFree(histogram: seq<nat>, width: nat, height: nat, k: nat)
    requires k > 0
    ensures ImageToVector(Scaled(histogram, k), k * width, height) == ImageToVector(histogram, width, height)
  {
    var pixels := width * height;
    var scaledPixels := (k * width) * height;
    assert scaledPixels == k * pixels;
    if pixels > 0 {
      assert scaledPixels >= pixels;
      assert scaledPixels as real == k as real * pixels as real;
      if |histogram| == HistogramBins {
        NormalizeScaled(histogram, k, pixels);
      }
    }
  }

  /** Two image fingerprints score between 0 and 1. */
  lemma ImageScoreBounded(h1: seq<nat>, w1: nat, t1: nat, h2: seq<nat>, w2: nat, t2: nat)
    ensures 0.0 <= Similarity.Score(ImageToVector(h1, w1, t1), ImageToVector(h2, w2, t2)) <= 1.0
  {
    if ImageToVector(h1, w1, t1) != [] {
      ImageVectorEntries(h1, w1, t1);
    }
    if ImageToVector(h2, w2, t2) != [] {
      ImageVectorEntries(h2, w2, t2);
    }
    Similarity.ScoreNonNegative(ImageToVector(h1, w1, t1), ImageToVector(h2, w2, t2));
  }

  /** The element tag `{ns}local` that the XML parser produces for a namespaced
      root gives back `ns`. */
  lemma SvgNamespaceOfQualifiedTag(ns: string, local: string)
    requires '}' !in ns
    ensures SvgNamespace("{" + ns + "}" + local) == ns
  {
    var tag := "{" + ns + "}" + local;
    assert tag[|ns| + 1] == '}';
    var i := IndexOf(tag, '}');
    assert tag[..|ns| + 1] == "{" + ns;
    assert '}' !in tag[..|ns| + 1];
    assert i == |ns| + 1;
    assert tag[1..i] == ns;
  }

  /** An unqualified tag has no namespace. */
  lemma SvgNamespaceOfPlainTag(tag: string)
    requires '}' !in tag
    ensures SvgNamespace(tag) == "unknown"
  {
  }

  /** Exactly the failed decodes give the error metadata, and the error fallback
      always comes with an empty fingerprint. */
  lemma ErrorFallback(image: Result<Picture, string>, docx: Result<string, string>,
                      pdf: Result<PdfDocument, string>, svg: Result<SvgRoot, string>)
    ensures LoadImage(image).metadata.ErrorInfo? <==> image.Failure?
    ensures LoadDocx(docx).metadata.ErrorInfo? <==> docx.Failure?
    ensures LoadPdf(pdf).metadata.ErrorInfo? <==> pdf.Failure?
    ensures LoadSvg(svg).metadata.ErrorInfo? <==> svg.Failure?
    ensures LoadImage(image).metadata.ErrorInfo? ==> LoadImage(image).vector == []
    ensures LoadDocx(docx).metadata.ErrorInfo? ==> LoadDocx(docx).vector == []
    ensures LoadPdf(pdf).metadata.ErrorInfo? ==> LoadPdf(pdf).vector == []
  {
  }

  /** The DOCX word count bounds the fingerprint: the entries add up to at most the
      number of words, and to exactly that when there are at most 100 distinct words. */
  lemma DocxCounts(text: string)
    ensures var r := LoadDocx(Success(text));
      && |r.vector| <= BagOfWords.VocabularySize
      && (forall i :: 0 <= i < |r.vector| ==> r.vector[i] >= 1.0)
      && SumNats(BagOfWords.TextToVector(text)) <= r.metadata.wordCount
  {
    BagOfWords.TextToVectorShape(text);
    BagOfWords.TextToVectorTotal(text);
    SumsAgree(BagOfWords.TextToVector(text));
  }

  lemma {:induction false} SumsAgree(v: seq<nat>)
    ensures SumNats(v) == BagOfWords.Sum(v)
  {
    if v != [] {
      SumsAgree(v[1..]);
    }
  }
}
