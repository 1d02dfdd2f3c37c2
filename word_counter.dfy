/**
 * `WordCounter.IdentifyCommonWords`: the most frequent words of a document, most
 * frequent first.
 *
 * One pass over the code units segments the text into words and counts them in a
 * case-insensitive dictionary; the (count, word) pairs are counting-sorted by
 * count with a count array of `totalWords` slots, and the sorted list is
 * reversed, cut to `numWords` items and mapped to its words.
 *
 * `CommonWords` is the reference definition of the whole call, the method is the
 * scanning loop proved to compute it, and the lemmas say what it reports.
 */
module WordCounter {
  import opened Wrappers
  import opened CharClass
  import opened Tokenizer
  import opened FrequencyTable
  import opened Sorting
  import opened Ranking

  /** What a call returns or throws: the reported words; the `ArgumentException`
      for a non-positive item count; or the `IndexOutOfRangeException` that the
      sort's count array raises for a key equal to its length. */
  datatype Outcome = Ok(words: seq<Text>) | InvalidArgument | IndexOutOfRange

  /** The text of a nullable document: `null` reads as empty. */
  function Content(documentText: Option<Text>): Text {
    match documentText
    case None => []
    case Some(d) => d
  }

  /** The dictionary as (count, word) pairs, in enumeration order. */
  function ToPairs(entries: seq<Entry>): (r: seq<WordCountPair>)
    ensures |r| == |entries|
    ensures forall i :: 0 <= i < |r| ==> r[i] == WordCountPair(entries[i].count, entries[i].word)
  {
    seq(|entries|, i requires 0 <= i < |entries| => WordCountPair(entries[i].count, entries[i].word))
  }

  /** The frequency table of a document. */
  function Table(c: Culture, documentText: Option<Text>): seq<Entry> {
    Tally(c, Words(c, Content(documentText)))
  }

  /** The (count, word) pairs handed to the sort for the occurrences `tokens`. */
  function Pairs(c: Culture, tokens: seq<Text>): seq<WordCountPair> {
    ToPairs(Tally(c, tokens))
  }

  /** The outcome of `IdentifyCommonWords(documentText, numWords)`, with the count
      array of the sort sized as in the code: `totalWords` slots. */
  function CommonWords(c: Culture, documentText: Option<Text>, numWords: int): Outcome {
    if numWords <= 0 then InvalidArgument
    else if Content(documentText) == [] then Ok([])
    else
      var tokens := Words(c, Content(documentText));
      var pairs := Pairs(c, tokens);
      if KeysInRange(pairs, |tokens|) then Ok(Rank(Layout(pairs, |tokens|), numWords))
      else IndexOutOfRange
  }

  /** The outcome with the count array sized `totalWords + 1`, so that it has a
      slot for every count from 0 to the number of occurrences. */
  function CommonWordsCorrected(c: Culture, documentText: Option<Text>, numWords: int): Outcome {
    if numWords <= 0 then InvalidArgument
    else if Content(documentText) == [] then Ok([])
    else
      var tokens := Words(c, Content(documentText));
      var pairs := Pairs(c, tokens);
      if KeysInRange(pairs, |tokens| + 1) then Ok(Rank(Layout(pairs, |tokens| + 1), numWords))
      else IndexOutOfRange
  }

  // ---------------------------------------------------------------------------
  // What a correct report is

  /** `ws` lists `numWords` distinct words of the occurrences `tokens` (all of
      them when there are fewer), each as the first spelling seen of it. */
  ghost predicate ReportsDiscoveries(c: Culture, tokens: seq<Text>, numWords: int, ws: seq<Text>) {
    var found := Discoveries(c, tokens);
    && |ws| == (if numWords < |found| then numWords else |found|)
    && (forall i :: 0 <= i < |ws| ==> ws[i] in found)
    && (forall i, j :: 0 <= i < j < |ws| ==> Key(c, ws[i]) != Key(c, ws[j]))
  }

  /** Most frequent first. */
  ghost predicate ByFrequency(c: Culture, tokens: seq<Text>, ws: seq<Text>) {
    forall i, j :: 0 <= i < j < |ws| ==>
      Occurrences(c, tokens, Key(c, ws[i])) >= Occurrences(c, tokens, Key(c, ws[j]))
  }

  /** No word left out is more frequent than a reported one. */
  ghost predicate NoneMoreFrequentLeftOut(c: Culture, tokens: seq<Text>, ws: seq<Text>) {
    var found := Discoveries(c, tokens);
    forall w, i :: w in found && w !in ws && 0 <= i < |ws| ==>
      Occurrences(c, tokens, Key(c, w)) <= Occurrences(c, tokens, Key(c, ws[i]))
  }

  /** Among words of equal frequency, the later a word was first seen the earlier
      it is reported, so a word is reported only behind all those of its
      frequency seen after it. */
  ghost predicate LatestFirstAmongEqual(c: Culture, tokens: seq<Text>, ws: seq<Text>) {
    var found := Discoveries(c, tokens);
    forall i, a, b :: 0 <= i < |ws| && 0 <= a < b < |found| && ws[i] == found[a] &&
      Occurrences(c, tokens, Key(c, found[b])) == Occurrences(c, tokens, Key(c, found[a]))
      ==> found[b] in ws[..i]
  }

  /** `ws` is the report of the `numWords` most frequent words of `tokens`. */
  ghost predicate IsTopWords(c: Culture, tokens: seq<Text>, numWords: int, ws: seq<Text>) {
    && ReportsDiscoveries(c, tokens, numWords, ws)
    && ByFrequency(c, tokens, ws)
    && NoneMoreFrequentLeftOut(c, tokens, ws)
    && LatestFirstAmongEqual(c, tokens, ws)
  }

  // ---------------------------------------------------------------------------
  // The methods

  /** Reports the most frequent words of the document, most frequent first. */
  method IdentifyCommonWords(c: Culture, documentText: Option<Text>, numWords: int) returns (r: Outcome)
    ensures r == CommonWords(c, documentText, numWords)
  {
    if numWords <= 0 {
      return InvalidArgument;
    }
    if documentText.None? || documentText.value == [] {
      return Ok([]);
    }
    var words, totalWords := CountWords(c, documentText.value);
    var counts := ToPairs(words.entries);
    if !KeysInRange(counts, totalWords) {
      // the histogram pass indexes `count[val.Key]` with `val.Key == totalWords`
      return IndexOutOfRange;
    }
    var sorted := CountingSort(counts, totalWords);
    r := Ok(Rank(sorted, numWords));
  }

  /** The scanning loop of `IdentifyCommonWords`: segments `d` into words one code
      unit at a time and counts each word as it is closed. The table ends as the
      tally of the word occurrences and `totalWords` as their number. */
  method CountWords(c: Culture, d: Text) returns (words: WordTable, totalWords: int)
    ensures fresh(words) && words.culture == c
    ensures words.entries == Tally(c, Words(c, d)) && totalWords == |Words(c, d)|
  {
    words := new WordTable(c);
    var wordIdx := 0;
    var insideWord := false;
    totalWords := 0;
    ghost var emitted: seq<Text> := [];
    ScanInit(c, d);

    for i := 0 to |d|
      invariant words.culture == c && words.entries == Tally(c, emitted)
      invariant totalWords == |emitted|
      invariant Scanned(c, d, i, insideWord, wordIdx, emitted)
    {
      var currChar := d[i];
      var isValidStartEndChar := IsValidWordStartOrEndCharacter(c, currChar) && !IsSingleCharacterWord(c, currChar);
      var isValidMiddleChar := IsValidWordMiddleCharacter(c, currChar) && !IsSingleCharacterWord(c, currChar);
      if !insideWord && isValidStartEndChar {
        ScanStart(c, d, i, wordIdx, emitted);
        insideWord := true;
        wordIdx := i;
      } else if insideWord && !isValidMiddleChar {
        var hasValidEndChar := IsValidWordStartOrEndCharacter(c, d[i - 1]);
        var wordLength := if hasValidEndChar then i - wordIdx else i - wordIdx - 1;
        ScanClose(c, d, i, wordIdx, wordLength, emitted);
        var word := d[wordIdx..wordIdx + wordLength];
        insideWord := false;
        Count(words, word, emitted);
        emitted := emitted + [word];
        totalWords := totalWords + 1;
      } else {
        // proof only: the code unit continues the current word, or lies
        // outside a word without starting one
        ScanOther(c, d, i, insideWord, wordIdx, emitted);
      }
      if IsSingleCharacterWord(c, currChar) {
        Count(words, [currChar], emitted);
        emitted := emitted + [[currChar]];
        totalWords := totalWords + 1;
      }
    }

    // the word that runs to the end of the text
    if insideWord {
      var hasValidEndChar := IsValidWordStartOrEndCharacter(c, d[|d| - 1]);
      var wordLength := if hasValidEndChar then |d| - wordIdx else |d| - wordIdx - 1;
      ScanEnd(c, d, wordIdx, wordLength, emitted);
      var word := d[wordIdx..wordIdx + wordLength];
      Count(words, word, emitted);
      emitted := emitted + [word];
      totalWords := totalWords + 1;
    } else {
      ScanDone(c, d, wordIdx, emitted);
    }
  }

  // ---------------------------------------------------------------------------
  // The scanning loop against the segmentation

  /** The loop invariant of the scan after the first `i` code units: the words
      emitted so far followed by the words still to come make up the
      segmentation; inside a word, those still to come start with the word that
      began at `wordIdx`, whose code units so far all continue it. */
  ghost predicate Scanned(c: Culture, d: Text, i: nat, insideWord: bool, wordIdx: int, emitted: seq<Text>)
    requires i <= |d|
  {
    if insideWord then
      && 0 <= wordIdx < i && StartsWord(c, d[wordIdx])
      && (forall m :: wordIdx < m < i ==> ContinuesWord(c, d[m]))
      && Words(c, d) == emitted + Words(c, d[wordIdx..])
    else
      Words(c, d) == emitted + Words(c, d[i..])
  }

  lemma ScanInit(c: Culture, d: Text)
    ensures Scanned(c, d, 0, false, 0, [])
  {
    assert d[0..] == d;
  }

  /** A letter that is not an ideograph, outside a word, starts one. */
  lemma ScanStart(c: Culture, d: Text, i: nat, wordIdx: int, emitted: seq<Text>)
    requires i < |d| && Scanned(c, d, i, false, wordIdx, emitted) && StartsWord(c, d[i])
    ensures Scanned(c, d, i + 1, true, i, emitted)
  {
  }

  /** A code unit that continues the current word, or lies outside a word and
      starts none: an ideograph outside a word is emitted as a word of its own,
      anything else changes nothing. */
  lemma ScanOther(c: Culture, d: Text, i: nat, insideWord: bool, wordIdx: int, emitted: seq<Text>)
    requires i < |d| && Scanned(c, d, i, insideWord, wordIdx, emitted)
    requires insideWord ==> ContinuesWord(c, d[i])
    requires !insideWord ==> !StartsWord(c, d[i])
    ensures IsSingleCharacterWord(c, d[i]) ==> !insideWord && Scanned(c, d, i + 1, false, wordIdx, emitted + [[d[i]]])
    ensures !IsSingleCharacterWord(c, d[i]) ==> Scanned(c, d, i + 1, insideWord, wordIdx, emitted)
  {
    CharClassesPartition(c, d[i]);
    if !insideWord {
      OutsideStep(c, d, i);
    }
  }

  /** A code unit that does not continue the current word closes it: the word,
      less its last code unit when that is not a letter, is emitted, then the
      closing code unit if it is an ideograph. */
  lemma ScanClose(c: Culture, d: Text, i: nat, wordIdx: int, wordLength: int, emitted: seq<Text>)
    requires i < |d| && Scanned(c, d, i, true, wordIdx, emitted) && !ContinuesWord(c, d[i])
    requires wordLength == if IsValidWordStartOrEndCharacter(c, d[i - 1]) then i - wordIdx else i - wordIdx - 1
    ensures 0 <= wordIdx <= wordIdx + wordLength <= |d|
    ensures IsSingleCharacterWord(c, d[i]) ==>
              Scanned(c, d, i + 1, false, wordIdx, emitted + [d[wordIdx..wordIdx + wordLength]] + [[d[i]]])
    ensures !IsSingleCharacterWord(c, d[i]) ==>
              Scanned(c, d, i + 1, false, wordIdx, emitted + [d[wordIdx..wordIdx + wordLength]])
  {
    CloseStep(c, d, wordIdx, i);
    var w := d[wordIdx..wordIdx + wordLength];
    assert w == CloseWord(c, d, wordIdx, i);
    var rest := Words(c, d[i + 1..]);
    if IsSingleCharacterWord(c, d[i]) {
      assert Words(c, d) == emitted + ([w] + [[d[i]]] + rest);
      assert emitted + ([w] + [[d[i]]] + rest) == emitted + [w] + [[d[i]]] + rest;
    } else {
      assert Words(c, d) == emitted + ([w] + [] + rest);
      assert emitted + ([w] + [] + rest) == emitted + [w] + rest;
    }
  }

  /** The word still open at the end of the text is the last one. */
  lemma ScanEnd(c: Culture, d: Text, wordIdx: int, wordLength: int, emitted: seq<Text>)
    requires Scanned(c, d, |d|, true, wordIdx, emitted)
    requires wordLength == if IsValidWordStartOrEndCharacter(c, d[|d| - 1]) then |d| - wordIdx else |d| - wordIdx - 1
    ensures 0 <= wordIdx <= wordIdx + wordLength <= |d|
    ensures Words(c, d) == emitted + [d[wordIdx..wordIdx + wordLength]]
  {
    EndStep(c, d, wordIdx);
    assert d[wordIdx..wordIdx + wordLength] == CloseWord(c, d, wordIdx, |d|);
  }

  /** Outside a word at the end of the text, every word has been emitted. */
  lemma ScanDone(c: Culture, d: Text, wordIdx: int, emitted: seq<Text>)
    requires Scanned(c, d, |d|, false, wordIdx, emitted)
    ensures Words(c, d) == emitted
  {
    assert d[|d|..] == [];
  }

  /** `AddWord` on the table of the occurrences `emitted` gives the table of one
      more occurrence. */
  method Count(words: WordTable, word: Text, ghost emitted: seq<Text>)
    requires words.entries == Tally(words.culture, emitted)
    modifies words
    ensures words.entries == Tally(words.culture, emitted + [word])
  {
    AddWord(words, word);
    assert (emitted + [word])[..|emitted|] == emitted;
  }

  // ---------------------------------------------------------------------------
  // The pairs handed to the sort

  /** The pairs are the discoveries in order, each keyed by its number of
      occurrences, which is positive; no two discoveries share a key, so no two
      pairs are equal. */
  lemma PairsOfTable(c: Culture, tokens: seq<Text>)
    ensures var found := Discoveries(c, tokens);
            var pairs := Pairs(c, tokens);
            && |pairs| == |found|
            && (forall i :: 0 <= i < |pairs| ==>
                  pairs[i] == WordCountPair(Occurrences(c, tokens, Key(c, found[i])), found[i]))
            && (forall i :: 0 <= i < |pairs| ==> pairs[i].key >= 1)
            && (forall i, j :: 0 <= i < j < |found| ==> Key(c, found[i]) != Key(c, found[j]))
            && Distinct(pairs)
  {
    TallyInvariant(c, tokens);
    TallyCounts(c, tokens);
    TallySpellings(c, tokens);
  }

  /** With positive counts, every count fits an array of `Sum + 1` slots, and it
      fits one of `Sum` slots unless the table has exactly one entry, whose count
      is then the whole sum. */
  lemma KeysFit(t: seq<Entry>)
    requires forall j :: 0 <= j < |t| ==> t[j].count >= 1
    ensures KeysInRange(ToPairs(t), Sum(t)) <==> |t| != 1
    ensures KeysInRange(ToPairs(t), Sum(t) + 1)
  {
    forall i | 0 <= i < |t| ensures t[i].count <= Sum(t) {
      SumBound(t, i);
    }
    if |t| == 1 {
      assert t[..0] == [];
    } else {
      forall i | 0 <= i < |t| ensures t[i].count < Sum(t) {
        SumBound(t, i);
      }
    }
  }

  // ---------------------------------------------------------------------------
  // The outcome of a call

  /** `ArgumentException` exactly for a non-positive count; an empty or null
      document reports nothing; and the sort's count array overflows exactly when
      the document has a single distinct word (every occurrence is of the one
      word, whose count then equals the array's length). */
  lemma CommonWordsOutcome(c: Culture, documentText: Option<Text>, numWords: int)
    ensures CommonWords(c, documentText, numWords).InvalidArgument? <==> numWords <= 0
    ensures numWords > 0 && Content(documentText) == [] ==> CommonWords(c, documentText, numWords) == Ok([])
    ensures CommonWords(c, documentText, numWords).IndexOutOfRange? <==>
              numWords > 0 && |Table(c, documentText)| == 1
  {
    var tokens := Words(c, Content(documentText));
    TallyInvariant(c, tokens);
    KeysFit(Tally(c, tokens));
  }

  /** With the count array one slot longer, the call never overflows. */
  lemma CorrectedNeverFails(c: Culture, documentText: Option<Text>, numWords: int)
    ensures CommonWordsCorrected(c, documentText, numWords).InvalidArgument? <==> numWords <= 0
    ensures numWords > 0 ==> CommonWordsCorrected(c, documentText, numWords).Ok?
  {
    var tokens := Words(c, Content(documentText));
    TallyInvariant(c, tokens);
    KeysFit(Tally(c, tokens));
  }

  /** Wherever the code as written reports words, the corrected call reports the
      same words: the extra slot of the count array is an empty block. */
  lemma CorrectedAgrees(c: Culture, documentText: Option<Text>, numWords: int)
    requires CommonWords(c, documentText, numWords).Ok?
    ensures CommonWordsCorrected(c, documentText, numWords) == CommonWords(c, documentText, numWords)
  {
    var d := Content(documentText);
    if numWords > 0 && d != [] {
      var tokens := Words(c, d);
      var pairs := Pairs(c, tokens);
      assert KeysInRange(pairs, |tokens|);
      assert KeysInRange(pairs, |tokens| + 1);
      FilterNone(pairs, |tokens|);
      assert Layout(pairs, |tokens| + 1) == Layout(pairs, |tokens|) + Filter(pairs, |tokens|);
      assert Layout(pairs, |tokens| + 1) == Layout(pairs, |tokens|);
    }
  }

  // ---------------------------------------------------------------------------
  // The report is the most frequent words

  /** The pair behind the `i`-th reported word is the pair of some discovery. */
  lemma RankedAt(c: Culture, tokens: seq<Text>, n: nat, numWords: int, i: nat) returns (a: nat)
    requires numWords > 0 && KeysInRange(Pairs(c, tokens), n)
    requires i < |TopPairs(Layout(Pairs(c, tokens), n), numWords)|
    ensures var found := Discoveries(c, tokens);
            var top := TopPairs(Layout(Pairs(c, tokens), n), numWords);
            && a < |found| && a < |Pairs(c, tokens)|
            && top[i] == Pairs(c, tokens)[a]
            && top[i] == WordCountPair(Occurrences(c, tokens, Key(c, found[a])), found[a])
  {
    var pairs := Pairs(c, tokens);
    var top := TopPairs(Layout(pairs, n), numWords);
    TopPairsShape(pairs, n, numWords);
    PairsOfTable(c, tokens);
    assert top[i] in multiset(top);
    assert top[i] in pairs;
    a :| 0 <= a < |pairs| && pairs[a] == top[i];
  }

  /** The report names distinct discoveries, as many as asked for or all of
      them, most frequent first. */
  lemma RankReports(c: Culture, tokens: seq<Text>, n: nat, numWords: int)
    requires numWords > 0 && KeysInRange(Pairs(c, tokens), n)
    ensures var ws := Rank(Layout(Pairs(c, tokens), n), numWords);
            ReportsDiscoveries(c, tokens, numWords, ws) && ByFrequency(c, tokens, ws)
  {
    var found := Discoveries(c, tokens);
    var pairs := Pairs(c, tokens);
    var top := TopPairs(Layout(pairs, n), numWords);
    var ws := Rank(Layout(pairs, n), numWords);
    PairsOfTable(c, tokens);
    TopPairsShape(pairs, n, numWords);
    TopPairsDistinct(pairs, n, numWords);
    forall i | 0 <= i < |ws| ensures ws[i] in found {
      var a := RankedAt(c, tokens, n, numWords, i);
    }
    forall i, j | 0 <= i < j < |ws|
      ensures Key(c, ws[i]) != Key(c, ws[j])
      ensures Occurrences(c, tokens, Key(c, ws[i])) >= Occurrences(c, tokens, Key(c, ws[j]))
    {
      var a := RankedAt(c, tokens, n, numWords, i);
      var b := RankedAt(c, tokens, n, numWords, j);
      assert top[i] != top[j];
      assert a != b;
    }
  }

  /** No discovery left out of the report is more frequent than a reported one. */
  lemma RankBest(c: Culture, tokens: seq<Text>, n: nat, numWords: int)
    requires numWords > 0 && KeysInRange(Pairs(c, tokens), n)
    ensures NoneMoreFrequentLeftOut(c, tokens, Rank(Layout(Pairs(c, tokens), n), numWords))
  {
    var found := Discoveries(c, tokens);
    var pairs := Pairs(c, tokens);
    var top := TopPairs(Layout(pairs, n), numWords);
    var ws := Rank(Layout(pairs, n), numWords);
    PairsOfTable(c, tokens);
    TopPairsBest(pairs, n, numWords);
    forall w, i | w in found && w !in ws && 0 <= i < |ws|
      ensures Occurrences(c, tokens, Key(c, w)) <= Occurrences(c, tokens, Key(c, ws[i]))
    {
      var x :| 0 <= x < |found| && found[x] == w;
      var p := pairs[x];
      forall y | 0 <= y < |top| ensures top[y] != p {
        assert ws[y] in ws;
      }
      var a := RankedAt(c, tokens, n, numWords, i);
      assert top[i] in top;
    }
  }

  /** Ties are reported latest discovery first. */
  lemma RankTies(c: Culture, tokens: seq<Text>, n: nat, numWords: int)
    requires numWords > 0 && KeysInRange(Pairs(c, tokens), n)
    ensures LatestFirstAmongEqual(c, tokens, Rank(Layout(Pairs(c, tokens), n), numWords))
  {
    var found := Discoveries(c, tokens);
    var pairs := Pairs(c, tokens);
    var top := TopPairs(Layout(pairs, n), numWords);
    var ws := Rank(Layout(pairs, n), numWords);
    PairsOfTable(c, tokens);
    TopPairsLatestFirst(pairs, n, numWords);
    forall i, a, b | 0 <= i < |ws| && 0 <= a < b < |found| && ws[i] == found[a] &&
                     Occurrences(c, tokens, Key(c, found[b])) == Occurrences(c, tokens, Key(c, found[a]))
      ensures found[b] in ws[..i]
    {
      var x := RankedAt(c, tokens, n, numWords, i);
      assert x == a;
      assert pairs[b].key == pairs[a].key;
      assert pairs[b] in top[..i];
      var z :| 0 <= z < i && top[z] == pairs[b];
      assert ws[..i][z] == found[b];
    }
  }

  /** Ranking the sorted pairs of the table reports the most frequent words. */
  lemma RankIsTop(c: Culture, tokens: seq<Text>, n: nat, numWords: int)
    requires numWords > 0 && KeysInRange(Pairs(c, tokens), n)
    ensures IsTopWords(c, tokens, numWords, Rank(Layout(Pairs(c, tokens), n), numWords))
  {
    RankReports(c, tokens, n, numWords);
    RankBest(c, tokens, n, numWords);
    RankTies(c, tokens, n, numWords);
  }

  /** Whenever the call reports words, they are the most frequent words of the
      document. */
  lemma CommonWordsRanked(c: Culture, documentText: Option<Text>, numWords: int)
    ensures var r := CommonWords(c, documentText, numWords);
            r.Ok? ==> IsTopWords(c, Words(c, Content(documentText)), numWords, r.words)
  {
    var d := Content(documentText);
    if numWords > 0 && d != [] {
      var tokens := Words(c, d);
      if KeysInRange(Pairs(c, tokens), |tokens|) {
        RankIsTop(c, tokens, |tokens|, numWords);
      }
    }
  }

  /** The corrected call always reports the most frequent words. */
  lemma CorrectedRanked(c: Culture, documentText: Option<Text>, numWords: int)
    ensures var r := CommonWordsCorrected(c, documentText, numWords);
            r.Ok? ==> IsTopWords(c, Words(c, Content(documentText)), numWords, r.words)
  {
    var d := Content(documentText);
    if numWords > 0 && d != [] {
      var tokens := Words(c, d);
      if KeysInRange(Pairs(c, tokens), |tokens| + 1) {
        RankIsTop(c, tokens, |tokens| + 1, numWords);
      }
    }
  }
}
