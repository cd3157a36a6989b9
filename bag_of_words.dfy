/**
 * The bag-of-words text fingerprint of `Loader.text_to_vector` (an identical copy
 * is `DocumentManager.text_to_vector` in the older service): lower-case the text,
 * cut it into maximal runs of word characters, count the words, keep the 100 most
 * common ones (most frequent first, equal counts in order of first appearance) and
 * emit their counts. The vector is not padded: it has one entry per kept word.
 */
module BagOfWords {
  import opened Ascii
  import Ranking

  /** How many of the most common words the fingerprint keeps. */
  const VocabularySize: nat := 100

  function Min(a: nat, b: nat): nat { if a <= b then a else b }

  /** The length of the run of word characters that starts `s`. */
  function WordRunLength(s: string): (n: nat)
    ensures n <= |s|
    ensures forall i :: 0 <= i < n ==> IsWordChar(s[i])
    ensures n < |s| ==> !IsWordChar(s[n])
  {
    if s == [] || !IsWordChar(s[0]) then 0 else 1 + WordRunLength(s[1..])
  }

  /** A non-empty string of word characters. */
  predicate IsWord(t: string) {
    |t| > 0 && forall i :: 0 <= i < |t| ==> IsWordChar(t[i])
  }

  /** `re.findall(r'\b\w+\b', s)`: the maximal runs of word characters of `s`, in
      order. There are none exactly when `s` holds no word character. */
  function Tokenize(s: string): (ts: seq<string>)
    ensures forall k :: 0 <= k < |ts| ==> IsWord(ts[k])
    ensures ts == [] <==> forall i :: 0 <= i < |s| ==> !IsWordChar(s[i])
    decreases |s|
  {
    if s == [] then []
    else if !IsWordChar(s[0]) then
      var rest := Tokenize(s[1..]);
      assert forall i :: 1 <= i < |s| ==> s[i] == s[1..][i - 1];
      rest
    else
      var n := WordRunLength(s);
      [s[..n]] + Tokenize(s[n..])
  }

  /** `s` with every non-word character replaced by a space. */
  function Masked(s: string): (m: string)
    ensures |m| == |s|
    ensures forall i :: 0 <= i < |s| ==> (m[i] == ' ' <==> !IsWordChar(s[i]))
    ensures forall i :: 0 <= i < |s| && IsWordChar(s[i]) ==> m[i] == s[i]
  {
    seq(|s|, i requires 0 <= i < |s| => if IsWordChar(s[i]) then s[i] else ' ')
  }

  /** The parts of a split that are not empty, in order. */
  function NonEmpty(parts: seq<string>): (r: seq<string>)
    ensures forall k :: 0 <= k < |r| ==> r[k] != []
    ensures forall t :: t in r <==> t in parts && t != []
  {
    if parts == [] then []
    else (if parts[0] == [] then [] else [parts[0]]) + NonEmpty(parts[1..])
  }

  /** An independent reading of `re.findall(r'\b\w+\b', s)`: cut the text at every
      non-word character and keep the pieces that are not empty
      (`[t for t in re.split(r'\W', s) if t]`). */
  function Pieces(s: string): seq<string> {
    NonEmpty(Split(Masked(s), ' '))
  }

  /** A leading non-word character only cuts off an empty piece. */
  lemma PiecesSkip(s: string)
    requires s != [] && !IsWordChar(s[0])
    ensures Pieces(s) == Pieces(s[1..])
  {
    var m := Masked(s[1..]);
    assert Masked(s) == [] + [' '] + m;
    SplitFirst([], ' ', m);
    assert ([[]] + Split(m, ' '))[1..] == Split(m, ' ');
  }

  /** A text of word characters only is one piece. */
  lemma PiecesWord(s: string)
    requires s != [] && forall i :: 0 <= i < |s| ==> IsWordChar(s[i])
    ensures Pieces(s) == [s]
  {
    assert Masked(s) == s;
    assert ' ' !in s by {
      forall i | 0 <= i < |s| ensures s[i] != ' ' {
        assert IsWordChar(s[i]);
      }
    }
    assert NonEmpty([s]) == [s] + NonEmpty([s][1..]);
  }

  /** A leading run of word characters, ended by a non-word character, is the
      first piece. */
  lemma PiecesRun(s: string, n: nat)
    requires 0 < n < |s| && !IsWordChar(s[n])
    requires forall i :: 0 <= i < n ==> IsWordChar(s[i])
    ensures Pieces(s) == [s[..n]] + Pieces(s[n + 1..])
  {
    var w, m := s[..n], Masked(s[n + 1..]);
    assert Masked(w) == w;
    assert ' ' !in w by {
      forall i | 0 <= i < n ensures w[i] != ' ' {
        assert IsWordChar(s[i]);
      }
    }
    assert Masked(s) == w + [' '] + m;
    SplitFirst(w, ' ', m);
    assert ([w] + Split(m, ' '))[1..] == Split(m, ' ');
  }

  /** The tokens are exactly the non-empty pieces between non-word characters, so
      every token is a maximal run of word characters and every such run is a
      token, in order. */
  lemma {:induction false} TokenizeIsPieces(s: string)
    ensures Tokenize(s) == Pieces(s)
    decreases |s|
  {
    if s == [] {
      assert Masked(s) == [];
      assert Split([], ' ') == [[]];
      assert NonEmpty([[]]) == [] + NonEmpty([[]][1..]);
    } else if !IsWordChar(s[0]) {
      TokenizeIsPieces(s[1..]);
      PiecesSkip(s);
    } else {
      var n := WordRunLength(s);
      if n == |s| {
        assert s[..n] == s && s[n..] == [];
        PiecesWord(s);
      } else {
        TokenizeIsPieces(s[n + 1..]);
        PiecesRun(s, n);
        assert s[n..][1..] == s[n + 1..];
      }
    }
  }

  /** The number of positions `i >= 1` where a run of word characters starts:
      `s[i]` is a word character and `s[i - 1]` is not. */
  function Boundaries(s: string): nat
    decreases |s|
  {
    if |s| < 2 then 0
    else (if !IsWordChar(s[0]) && IsWordChar(s[1]) then 1 else 0) + Boundaries(s[1..])
  }

  /** The number of positions where a run of word characters starts: the first
      position when it holds a word character, and every boundary after it. */
  function RunStarts(s: string): nat {
    (if s != [] && IsWordChar(s[0]) then 1 else 0) + Boundaries(s)
  }

  /** Inside a run of word characters no run starts. */
  lemma {:induction false} BoundariesInRun(s: string, k: nat)
    requires 1 <= k <= |s|
    requires forall i :: 0 <= i < k ==> IsWordChar(s[i])
    ensures Boundaries(s) == Boundaries(s[k - 1..])
    decreases k
  {
    if k > 1 {
      BoundariesInRun(s[1..], k - 1);
      assert s[1..][k - 2..] == s[k - 1..];
    }
  }

  /** There is one token per start of a run of word characters. */
  lemma {:induction false} TokenizeCountsRuns(s: string)
    ensures |Tokenize(s)| == RunStarts(s)
    decreases |s|
  {
    if s != [] {
      if !IsWordChar(s[0]) {
        TokenizeCountsRuns(s[1..]);
      } else {
        var n := WordRunLength(s);
        BoundariesInRun(s, n);
        TokenizeCountsRuns(s[n..]);
        var tail := s[n - 1..];
        if n < |s| {
          assert tail[1..] == s[n..];
        }
      }
    }
  }

  /** The characters of `s` that are word characters, in order. */
  function WordChars(s: string): (w: string)
    ensures |w| <= |s|
    ensures forall i :: 0 <= i < |w| ==> IsWordChar(w[i])
  {
    if s == [] then [] else (if IsWordChar(s[0]) then [s[0]] else []) + WordChars(s[1..])
  }

  /** The tokens glued together, in order. */
  function Concat(ts: seq<string>): string {
    if ts == [] then [] else ts[0] + Concat(ts[1..])
  }

  /** Keeping the word characters of two texts one after the other. */
  lemma {:induction false} WordCharsAppend(a: string, b: string)
    ensures WordChars(a + b) == WordChars(a) + WordChars(b)
    decreases |a|
  {
    if a != [] {
      WordCharsAppend(a[1..], b);
      assert (a + b)[1..] == a[1..] + b;
    } else {
      assert a + b == b;
    }
  }

  /** A text of word characters only keeps all of them. */
  lemma {:induction false} WordCharsOfWord(t: string)
    requires forall i :: 0 <= i < |t| ==> IsWordChar(t[i])
    ensures WordChars(t) == t
    decreases |t|
  {
    if t != [] {
      WordCharsOfWord(t[1..]);
      assert t == [t[0]] + t[1..];
    }
  }

  /** The tokens, glued together, are the word characters of the text in order:
      no word character is dropped or repeated. */
  lemma {:induction false} TokenizeKeepsWordChars(s: string)
    ensures Concat(Tokenize(s)) == WordChars(s)
    decreases |s|
  {
    if s != [] {
      if !IsWordChar(s[0]) {
        TokenizeKeepsWordChars(s[1..]);
      } else {
        var n := WordRunLength(s);
        TokenizeKeepsWordChars(s[n..]);
        assert s == s[..n] + s[n..];
        WordCharsAppend(s[..n], s[n..]);
        WordCharsOfWord(s[..n]);
        assert ([s[..n]] + Tokenize(s[n..]))[1..] == Tokenize(s[n..]);
      }
    }
  }

  /** The words of a text: the tokens of its lower-cased form. */
  function Words(text: string): seq<string> {
    Tokenize(LowerStr(text))
  }

  /** The distinct elements of `ts` in order of first appearance (the key order of
      a `Counter` built from `ts`). */
  function Distinct(ts: seq<string>): (d: seq<string>)
    ensures forall i, j :: 0 <= i < j < |d| ==> d[i] != d[j]
    ensures forall w :: w in d <==> w in ts
  {
    if ts == [] then []
    else
      var p := ts[..|ts| - 1];
      var x := ts[|ts| - 1];
      assert ts == p + [x];
      var d := Distinct(p);
      if x in d then d else d + [x]
  }

  /** One `Counter` item: a word, its number of occurrences, and the position of
      the word among the distinct words in order of first appearance. */
  datatype Entry = Entry(word: string, count: nat, rank: nat)

  /** The counter items for the words of `d`, in the order of `d`. */
  function TallyOf(d: seq<string>, ts: seq<string>): (es: seq<Entry>)
    ensures |es| == |d|
    ensures forall i :: 0 <= i < |d| ==> es[i] == Entry(d[i], multiset(ts)[d[i]], i)
  {
    if d == [] then []
    else TallyOf(d[..|d| - 1], ts) + [Entry(d[|d| - 1], multiset(ts)[d[|d| - 1]], |d| - 1)]
  }

  /** `Counter(ts).items()`, in insertion order. */
  function Tally(ts: seq<string>): seq<Entry> {
    TallyOf(Distinct(ts), ts)
  }

  function CountKey(e: Entry): real { e.count as real }
  function RankTie(e: Entry): int { e.rank }

  /** `Counter(ts).most_common(n)`: the items, most frequent first, equal counts in
      insertion order, cut to at most `n`. */
  function MostCommon(ts: seq<string>, n: nat): (top: seq<Entry>)
    ensures |top| == Min(n, |Distinct(ts)|)
  {
    var ranked := Ranking.SortDesc(Tally(ts), CountKey);
    ranked[..Min(n, |ranked|)]
  }

  /** `text_to_vector(text)`: blank text gives `[]`, otherwise the counts of the
      words of the text. */
  function TextToVector(text: string): seq<nat> {
    if Strip(text) == [] then [] else CountVector(Words(text))
  }

  /** The vector of a list of words: `[]` when there is none, otherwise the counts
      of the most common words, looked up by word. */
  function CountVector(words: seq<string>): seq<nat> {
    if words == [] then []
    else
      var top := MostCommon(words, VocabularySize);
      if top == [] then []
      else seq(|top|, i requires 0 <= i < |top| => multiset(words)[top[i].word])
  }

  function Sum(v: seq<nat>): nat {
    if v == [] then 0 else v[0] + Sum(v[1..])
  }

  function Total(es: seq<Entry>): nat {
    if es == [] then 0 else es[0].count + Total(es[1..])
  }

  // ---------------------------------------------------------------------------
  // Counting

  lemma {:induction false} TotalConcat(a: seq<Entry>, b: seq<Entry>)
    ensures Total(a + b) == Total(a) + Total(b)
  {
    if a == [] {
      assert a + b == b;
    } else {
      assert (a + b)[0] == a[0];
      assert (a + b)[1..] == a[1..] + b;
      TotalConcat(a[1..], b);
    }
  }

  /** One more occurrence of `x` adds, to the counts of the words of `d`, the number
      of times `x` is among them. */
  lemma {:induction false} TallyOfAppend(d: seq<string>, p: seq<string>, x: string)
    ensures Total(TallyOf(d, p + [x])) == Total(TallyOf(d, p)) + multiset(d)[x]
  {
    if d != [] {
      var d' := d[..|d| - 1];
      var w := d[|d| - 1];
      assert d == d' + [w];
      TallyOfAppend(d', p, x);
      TotalConcat(TallyOf(d', p + [x]), [Entry(w, multiset(p + [x])[w], |d| - 1)]);
      TotalConcat(TallyOf(d', p), [Entry(w, multiset(p)[w], |d| - 1)]);
      assert multiset(p + [x]) == multiset(p) + multiset{x};
    }
  }

  lemma OnceInDistinct(d: seq<string>, x: string)
    requires forall i, j :: 0 <= i < j < |d| ==> d[i] != d[j]
    requires x in d
    ensures multiset(d)[x] == 1
  {
    var i := IndexOf(d, x);
    assert d == d[..i] + [x] + d[i + 1..];
    forall k | i + 1 <= k < |d| ensures d[k] != x {
    }
    assert x !in d[i + 1..];
  }

  /** Every token is counted exactly once: the counts of a `Counter` add up to the
      number of tokens. */
  lemma {:induction false} TallyTotal(ts: seq<string>)
    ensures Total(Tally(ts)) == |ts|
  {
    if ts != [] {
      var p := ts[..|ts| - 1];
      var x := ts[|ts| - 1];
      assert ts == p + [x];
      TallyTotal(p);
      var d := Distinct(p);
      TallyOfAppend(d, p, x);
      assert Total(TallyOf(d, ts)) == |p| + multiset(d)[x];
      if x in d {
        assert Distinct(ts) == d;
        OnceInDistinct(d, x);
      } else {
        assert Distinct(ts) == d + [x];
        TallyAppendNew(d, ts, x);
        assert multiset(ts)[x] == 1 by {
          assert x !in p;
          assert multiset(ts) == multiset(p) + multiset{x};
        }
      }
    }
  }

  lemma TallyAppendNew(d: seq<string>, ts: seq<string>, x: string)
    ensures Total(TallyOf(d + [x], ts)) == Total(TallyOf(d, ts)) + multiset(ts)[x]
  {
    assert (d + [x])[..|d|] == d;
    TotalConcat(TallyOf(d, ts), [Entry(x, multiset(ts)[x], |d|)]);
  }

  lemma {:induction false} TotalInsert(x: Entry, s: seq<Entry>)
    ensures Total(Ranking.Insert(x, s, CountKey)) == x.count + Total(s)
  {
    if s != [] && CountKey(s[0]) > CountKey(x) {
      TotalInsert(x, s[1..]);
    }
  }

  lemma {:induction false} TotalSort(s: seq<Entry>)
    ensures Total(Ranking.SortDesc(s, CountKey)) == Total(s)
  {
    if s != [] {
      TotalSort(s[1..]);
      TotalInsert(s[0], Ranking.SortDesc(s[1..], CountKey));
    }
  }

  lemma TotalPrefix(s: seq<Entry>, n: nat)
    requires n <= |s|
    ensures Total(s[..n]) <= Total(s)
  {
    assert s == s[..n] + s[n..];
    TotalConcat(s[..n], s[n..]);
  }

  // ---------------------------------------------------------------------------
  // Order of first appearance

  lemma {:induction false} FirstIndexAppendOld(p: seq<string>, x: string, w: string)
    requires w in p
    ensures IndexOf(p + [x], w) == IndexOf(p, w)
  {
    assert (p + [x])[0] == p[0];
    if p[0] != w {
      assert (p + [x])[1..] == p[1..] + [x];
      FirstIndexAppendOld(p[1..], x, w);
    }
  }

  /** The distinct words are listed in order of their first occurrence. */
  lemma {:induction false} DistinctFirstSeen(ts: seq<string>)
    ensures forall i, j :: 0 <= i < j < |Distinct(ts)| ==>
      IndexOf(ts, Distinct(ts)[i]) < IndexOf(ts, Distinct(ts)[j])
  {
    if ts != [] {
      var p := ts[..|ts| - 1];
      var x := ts[|ts| - 1];
      assert ts == p + [x];
      DistinctFirstSeen(p);
      var d := Distinct(p);
      forall w | w in d ensures IndexOf(ts, w) == IndexOf(p, w) {
        FirstIndexAppendOld(p, x, w);
      }
    }
  }

  // ---------------------------------------------------------------------------
  // The most common words

  /** An item that belongs to the counter of `ts`. */
  ghost predicate CountedIn(ts: seq<string>, e: Entry) {
    && e.rank < |Distinct(ts)|
    && Distinct(ts)[e.rank] == e.word
    && e.count == multiset(ts)[e.word]
    && e.count >= 1
  }

  lemma TallyFacts(ts: seq<string>)
    ensures Ranking.TieIncreasing(Tally(ts), RankTie)
    ensures forall e :: e in multiset(Tally(ts)) ==> CountedIn(ts, e)
  {
    var es := Tally(ts);
    forall e | e in multiset(es) ensures CountedIn(ts, e) {
      var k :| 0 <= k < |es| && es[k] == e;
      assert Distinct(ts)[k] in ts;
    }
  }

  /** The ranking of the counter items: by count, largest first, equal counts in
      order of first appearance; every item kept belongs to the counter. */
  lemma RankedTally(ts: seq<string>)
    ensures Ranking.RankedBy(Ranking.SortDesc(Tally(ts), CountKey), CountKey, RankTie)
    ensures forall e :: e in Ranking.SortDesc(Tally(ts), CountKey) ==> CountedIn(ts, e)
  {
    TallyFacts(ts);
    Ranking.SortDescRanked(Tally(ts), CountKey, RankTie);
    var r := Ranking.SortDesc(Tally(ts), CountKey);
    forall e | e in r ensures CountedIn(ts, e) {
      assert e in multiset(r);
    }
  }

  /** Each item `most_common` keeps carries the true number of occurrences of its
      word, which is at least one. */
  lemma MostCommonCounts(ts: seq<string>, n: nat)
    ensures var top := MostCommon(ts, n);
      forall k :: 0 <= k < |top| ==> top[k].word in ts && top[k].count == multiset(ts)[top[k].word] >= 1
  {
    RankedTally(ts);
    var r := Ranking.SortDesc(Tally(ts), CountKey);
    var top := MostCommon(ts, n);
    forall k | 0 <= k < |top| ensures top[k].word in ts && top[k].count == multiset(ts)[top[k].word] >= 1 {
      assert top[k] == r[k];
      assert r[k] in r;
    }
  }

  /** `most_common` keeps the most frequent words: most frequent first, and equal
      counts in the order in which the words first occur, and no word is kept
      twice. */
  lemma MostCommonOrder(ts: seq<string>, n: nat)
    ensures forall k :: 0 <= k < |MostCommon(ts, n)| ==> MostCommon(ts, n)[k].word in ts
    ensures var top := MostCommon(ts, n);
      forall i, j :: 0 <= i < j < |top| ==>
        top[i].word != top[j].word &&
        (top[i].count > top[j].count ||
         (top[i].count == top[j].count && IndexOf(ts, top[i].word) < IndexOf(ts, top[j].word)))
  {
    MostCommonCounts(ts, n);
    RankedTally(ts);
    DistinctFirstSeen(ts);
    var r := Ranking.SortDesc(Tally(ts), CountKey);
    var top := MostCommon(ts, n);
    forall i, j | 0 <= i < j < |top|
      ensures top[i].word != top[j].word
      ensures top[i].count > top[j].count ||
              (top[i].count == top[j].count && IndexOf(ts, top[i].word) < IndexOf(ts, top[j].word))
    {
      assert top[i] == r[i] && top[j] == r[j];
      assert r[i] in r && r[j] in r;
      assert Ranking.Precedes(r[i], r[j], CountKey, RankTie);
      assert r[i].rank != r[j].rank;
    }
  }

  /** Where the item of a counted word lands in the ranking. */
  lemma RankedPosition(ts: seq<string>, w: string) returns (q: nat)
    requires w in ts
    ensures var r := Ranking.SortDesc(Tally(ts), CountKey);
      q < |r| && r[q].word == w && r[q].count == multiset(ts)[w]
  {
    var es := Tally(ts);
    var r := Ranking.SortDesc(es, CountKey);
    var m := IndexOf(Distinct(ts), w);
    assert es[m] in multiset(r);
    q :| 0 <= q < |r| && r[q] == es[m];
  }

  /** A word left out by `most_common(n)` occurs no more often than any word kept. */
  lemma MostCommonDominates(ts: seq<string>, n: nat, w: string)
    requires w in ts
    requires forall k :: 0 <= k < |MostCommon(ts, n)| ==> MostCommon(ts, n)[k].word != w
    ensures forall k :: 0 <= k < |MostCommon(ts, n)| ==> multiset(ts)[w] <= MostCommon(ts, n)[k].count
  {
    var q := RankedPosition(ts, w);
    var r := Ranking.SortDesc(Tally(ts), CountKey);
    var top := MostCommon(ts, n);
    assert top == r[..|top|];
    assert q >= |top| by {
      forall k | 0 <= k < |top| ensures r[k] != r[q] {
        assert top[k] == r[k];
      }
    }
    RankedTally(ts);
    RankedPrefixDominates(r, q, |top|);
  }

  /** In a ranking, every item before position `m` counts at least as much as the
      item at `q`, for `m <= q`. */
  lemma RankedPrefixDominates(r: seq<Entry>, q: nat, m: nat)
    requires Ranking.RankedBy(r, CountKey, RankTie)
    requires m <= q < |r|
    ensures forall k :: 0 <= k < m ==> r[k].count >= r[q].count
  {
    forall k | 0 <= k < m ensures r[k].count >= r[q].count {
      assert Ranking.Precedes(r[k], r[q], CountKey, RankTie);
    }
  }

  /** Determinism of `most_common`: any ordering of the counter items by count, then
      by first appearance, is the one it returns. */
  lemma MostCommonUnique(ts: seq<string>, s: seq<Entry>)
    requires multiset(s) == multiset(Tally(ts))
    requires forall i, j :: 0 <= i < j < |s| ==>
      s[i].count > s[j].count || (s[i].count == s[j].count && s[i].rank < s[j].rank)
    ensures MostCommon(ts, |s|) == s
  {
    RankedTally(ts);
    var r := Ranking.SortDesc(Tally(ts), CountKey);
    assert Ranking.RankedBy(s, CountKey, RankTie);
    Ranking.RankedUnique(r, s, CountKey, RankTie);
    assert |s| == |r|;
  }

  // ---------------------------------------------------------------------------
  // The fingerprint

  lemma BlankHasNoWords(text: string)
    requires Strip(text) == []
    ensures Words(text) == []
  {
    StripEmptyIffBlank(text);
    var low := LowerStr(text);
    forall i | 0 <= i < |low| ensures !IsWordChar(low[i]) {
      assert IsSpace(text[i]);
    }
  }

  lemma CountVectorEntries(words: seq<string>)
    requires words != []
    ensures var top := MostCommon(words, VocabularySize);
      var v := CountVector(words);
      |v| == |top| > 0 &&
      forall k :: 0 <= k < |v| ==> v[k] == top[k].count
  {
    var top := MostCommon(words, VocabularySize);
    assert |top| > 0 by {
      assert words[0] in Distinct(words);
    }
    var v := CountVector(words);
    assert v == seq(|top|, i requires 0 <= i < |top| => multiset(words)[top[i].word]);
    MostCommonCounts(words, VocabularySize);
  }

  lemma VectorEntries(text: string)
    requires Words(text) != []
    ensures var words := Words(text);
      var top := MostCommon(words, VocabularySize);
      var v := TextToVector(text);
      |v| == |top| > 0 &&
      forall k :: 0 <= k < |v| ==> v[k] == top[k].count
  {
    if Strip(text) == [] {
      BlankHasNoWords(text);
    }
    CountVectorEntries(Words(text));
  }

  /** An empty fingerprint means exactly that the text has no word: blank text, or
      text without a run of word characters. */
  lemma TextToVectorEmptyIff(text: string)
    ensures TextToVector(text) == [] <==> Words(text) == []
    ensures Strip(text) == [] ==> TextToVector(text) == []
  {
    if Strip(text) == [] {
      BlankHasNoWords(text);
    }
    if Words(text) != [] {
      VectorEntries(text);
    }
  }

  lemma CountVectorShape(words: seq<string>)
    ensures var v := CountVector(words);
      && |v| == Min(VocabularySize, |Distinct(words)|)
      && (forall k :: 0 <= k < |v| ==> v[k] >= 1)
      && (forall i, j :: 0 <= i < j < |v| ==> v[i] >= v[j])
  {
    if words != [] {
      CountVectorEntries(words);
      MostCommonCounts(words, VocabularySize);
      MostCommonOrder(words, VocabularySize);
    }
  }

  /** The fingerprint has one entry per distinct word, up to 100 and never padded;
      its entries are positive word counts, largest first. */
  lemma TextToVectorShape(text: string)
    ensures var v := TextToVector(text);
      && |v| == Min(VocabularySize, |Distinct(Words(text))|)
      && (forall k :: 0 <= k < |v| ==> v[k] >= 1)
      && (forall i, j :: 0 <= i < j < |v| ==> v[i] >= v[j])
  {
    if Strip(text) == [] {
      BlankHasNoWords(text);
    }
    CountVectorShape(Words(text));
  }

  lemma {:induction false} SumOfCounts(v: seq<nat>, top: seq<Entry>)
    requires |v| == |top|
    requires forall k :: 0 <= k < |v| ==> v[k] == top[k].count
    ensures Sum(v) == Total(top)
  {
    if v != [] {
      SumOfCounts(v[1..], top[1..]);
    }
  }

  /** The entries add up to at most the number of words, and to exactly that number
      when the text has at most 100 distinct words. */
  lemma TextToVectorTotal(text: string)
    ensures Sum(TextToVector(text)) <= |Words(text)|
    ensures |Distinct(Words(text))| <= VocabularySize ==> Sum(TextToVector(text)) == |Words(text)|
  {
    var words := Words(text);
    if words == [] {
      TextToVectorEmptyIff(text);
    } else {
      VectorEntries(text);
      var v := TextToVector(text);
      var top := MostCommon(words, VocabularySize);
      SumOfCounts(v, top);
      var r := Ranking.SortDesc(Tally(words), CountKey);
      TotalSort(Tally(words));
      TallyTotal(words);
      TotalPrefix(r, |top|);
      assert top == r[..|top|];
      if |Distinct(words)| <= VocabularySize {
        assert r[..|top|] == r;
      }
    }
  }

  /** A word followed by a non-word character (or by nothing) is one whole run. */
  lemma {:induction false} WordRunOfWord(w: string, rest: string)
    requires IsWord(w)
    requires rest == [] || !IsWordChar(rest[0])
    ensures WordRunLength(w + rest) == |w|
  {
    assert (w + rest)[0] == w[0];
    if |w| == 1 {
      assert (w + rest)[1..] == rest;
    } else {
      assert (w + rest)[1..] == w[1..] + rest;
      WordRunOfWord(w[1..], rest);
    }
  }

  /** A word followed by a space is the first token of a text. */
  lemma TokenizeWordSpace(w: string, rest: string)
    requires IsWord(w)
    ensures Tokenize(w + " " + rest) == [w] + Tokenize(rest)
  {
    var s := w + " " + rest;
    assert s == w + (" " + rest);
    WordRunOfWord(w, " " + rest);
    assert s[..|w|] == w;
    assert s[|w|..] == " " + rest;
    assert (" " + rest)[1..] == rest;
  }

  /** A lone word is its own only token. */
  lemma TokenizeWord(w: string)
    requires IsWord(w)
    ensures Tokenize(w) == [w]
  {
    assert w + [] == w;
    WordRunOfWord(w, []);
    assert w[|w|..] == [];
  }

  /** Two words separated by single spaces, the first one twice, are three tokens. */
  lemma TokenizeThree(a: string, b: string)
    requires IsWord(a) && IsWord(b)
    ensures Tokenize(a + " " + a + " " + b) == [a, a, b]
  {
    assert a + " " + a + " " + b == a + " " + (a + " " + b);
    TokenizeWord(b);
    TokenizeWordSpace(a, b);
    TokenizeWordSpace(a, a + " " + b);
  }

  /** A string without upper-case letters is its own lower-case form. */
  lemma LowerKeeps(s: string)
    requires forall i :: 0 <= i < |s| ==> !IsUpper(s[i])
    ensures LowerStr(s) == s
  {
  }

  lemma ExampleWords()
    ensures Words("alpha alpha beta") == ["alpha", "alpha", "beta"]
  {
    assert "alpha alpha beta" == "alpha" + " " + "alpha" + " " + "beta";
    assert IsWord("alpha") && IsWord("beta");
    LowerKeeps("alpha alpha beta");
    TokenizeThree("alpha", "beta");
  }

  lemma ExampleDistinct()
    ensures Distinct(["alpha", "alpha", "beta"]) == ["alpha", "beta"]
  {
    var words := ["alpha", "alpha", "beta"];
    assert words[..2] == ["alpha", "alpha"];
    assert ["alpha", "alpha"][..1] == ["alpha"];
    assert ["alpha"][..0] == [];
  }

  /** Two entries, largest first, each at least 1 and adding up to 3, are 2 and 1. */
  lemma TwoOneSplit(v: seq<nat>)
    requires |v| == 2 && v[0] >= v[1] >= 1 && Sum(v) == 3
    ensures v == [2, 1]
  {
    assert Sum(v) == v[0] + Sum(v[1..]);
    assert Sum(v[1..]) == v[1] + Sum(v[2..]);
  }

  /** Any text whose words are "alpha", "alpha", "beta" has the fingerprint `[2, 1]`. */
  lemma AlphaAlphaBetaWords(text: string)
    requires Words(text) == ["alpha", "alpha", "beta"]
    ensures TextToVector(text) == [2, 1]
  {
    ExampleDistinct();
    TextToVectorShape(text);
    TextToVectorTotal(text);
    TwoOneSplit(TextToVector(text));
  }

  /** The documented example: two occurrences of "alpha" and one of "beta" give
      `[2, 1]`, not a 100-entry vector. */
  lemma AlphaAlphaBeta()
    ensures TextToVector("alpha alpha beta") == [2, 1]
  {
    ExampleWords();
    AlphaAlphaBetaWords("alpha alpha beta");
  }
}
