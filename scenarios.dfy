/**
 * Concrete runs of the word counter under a culture that knows only the ASCII
 * letters and folds ASCII case.
 */
module Scenarios {
  import opened Wrappers
  import opened CharClass
  import opened Tokenizer
  import opened FrequencyTable
  import opened Sorting
  import opened Ranking
  import opened WordCounter

  /** Lower-cases the ASCII capitals of a string. */
  function AsciiFold(w: Text): (r: Text)
    ensures |r| == |w|
    ensures forall i :: 0 <= i < |w| ==> r[i] == if 0x41 <= w[i] <= 0x5A then w[i] + 0x20 else w[i]
  {
    seq(|w|, i requires 0 <= i < |w| => if 0x41 <= w[i] <= 0x5A then w[i] + 0x20 else w[i])
  }

  /** Letters are A-Z and a-z; comparison ignores ASCII case. */
  const Ascii: Culture := Culture(ch => 0x41 <= ch <= 0x5A || 0x61 <= ch <= 0x7A, AsciiFold)

  /** "hello" */
  const Hello: Text := [0x68, 0x65, 0x6C, 0x6C, 0x6F]

  /** A lone pair of count 1 sorts into a count array of two slots and is reported. */
  lemma LonePair(p: WordCountPair)
    requires p.key == 1
    ensures Layout([p], 2) == [p]
    ensures Rank(Layout([p], 2), 1) == [p.word]
  {
    assert Filter([p], 0) == [] by {
      assert [p][..0] == [];
    }
    assert Filter([p], 1) == [p] by {
      assert [p][..0] == [];
    }
    assert Layout([p], 1) == [] + Filter([p], 0) == [];
    assert Layout([p], 2) == Layout([p], 1) + Filter([p], 1) == [p];
  }

  /** A non-empty document whose only occurrence is `w` makes the count array
      of the sort one slot too short: the word's count is the number of
      occurrences, which is the array's length. With one more slot the word is
      reported. */
  lemma OneOccurrence(c: Culture, d: Text, w: Text)
    requires d != [] && Words(c, d) == [w]
    ensures CommonWords(c, Some(d), 1) == IndexOutOfRange
    ensures CommonWordsCorrected(c, Some(d), 1) == Ok([w])
  {
    var p := WordCountPair(1, w);
    assert Tally(c, [w]) == [Entry(w, 1)] by {
      assert [w][..0] == [];
    }
    assert Pairs(c, Words(c, d)) == [p];
    assert !KeysInRange([p], 1) by {
      assert [p][0].key == 1;
    }
    assert KeysInRange([p], 2);
    LonePair(p);
  }

  /** "hello" with one word asked for: the code as written fails with an index
      out of range, and the corrected array size reports "hello". */
  lemma SingleWordOverflows()
    ensures CommonWords(Ascii, Some(Hello), 1) == IndexOutOfRange
    ensures CommonWordsCorrected(Ascii, Some(Hello), 1) == Ok([Hello])
  {
    WordAlone(Hello);
    OneOccurrence(Ascii, Hello, Hello);
  }

  // ---------------------------------------------------------------------------
  // "this is a basic text is a basic text a basic text text", 6

  const Space: Char16 := 0x20

  /** The words with one space between each two. */
  function Join(ws: seq<Text>): Text
    decreases |ws|
  {
    if |ws| == 0 then [] else if |ws| == 1 then ws[0] else ws[0] + [Space] + Join(ws[1..])
  }

  /** A non-empty word of lower-case ASCII letters. */
  predicate LowerWord(w: Text) {
    |w| >= 1 && forall i :: 0 <= i < |w| ==> 0x61 <= w[i] <= 0x7A
  }

  /** Lower-case words are their own keys. */
  lemma FoldLower(w: Text)
    requires LowerWord(w)
    ensures Key(Ascii, w) == w
  {
  }

  /** A lower-case word on its own is one occurrence of itself. */
  lemma WordAlone(w: Text)
    requires LowerWord(w)
    ensures Words(Ascii, w) == [w]
  {
    assert forall m :: 0 < m < |w| ==> ContinuesWord(Ascii, w[m]);
    EndStep(Ascii, w, 0);
    assert w[0..] == w;
    assert CloseWord(Ascii, w, 0, |w|) == w[0..|w|] == w;
  }

  /** A lower-case word followed by a space is its occurrence, then the rest's. */
  lemma WordThenRest(w: Text, rest: Text)
    requires LowerWord(w)
    ensures Words(Ascii, w + [Space] + rest) == [w] + Words(Ascii, rest)
  {
    var d := w + [Space] + rest;
    LowerPrefix(d, w, rest);
    CloseStep(Ascii, d, 0, |w|);
    assert d[0..] == d && d[0..|w|] == w;
    assert d[|w| + 1..] == rest;
    assert !IsSingleCharacterWord(Ascii, d[|w|]);
  }

  /** The code units of a lower-case word at the front of a spaced text: the
      first starts a word, the others continue it, and the space after ends it. */
  lemma LowerPrefix(d: Text, w: Text, rest: Text)
    requires LowerWord(w) && d == w + [Space] + rest
    ensures StartsWord(Ascii, d[0]) && d[|w|] == Space && !ContinuesWord(Ascii, d[|w|])
    ensures forall m :: 0 < m < |w| ==> ContinuesWord(Ascii, d[m])
    ensures CloseWord(Ascii, d, 0, |w|) == w
  {
    forall m | 0 <= m < |w| ensures d[m] == w[m] {
    }
    assert d[..|w|] == w;
  }

  /** Lower-case words joined by single spaces segment back into those words. */
  lemma {:induction false} JoinWords(ws: seq<Text>)
    requires forall i :: 0 <= i < |ws| ==> LowerWord(ws[i])
    ensures Words(Ascii, Join(ws)) == ws
    decreases |ws|
  {
    if |ws| == 1 {
      WordAlone(ws[0]);
    } else if |ws| > 1 {
      WordThenRest(ws[0], Join(ws[1..]));
      JoinWords(ws[1..]);
      assert ws == [ws[0]] + ws[1..];
    }
  }

  // The counting and ranking of the test document, for any culture and any
  // five words of distinct keys standing in the test's pattern of occurrences.

  /** Five words of pairwise distinct keys. */
  ghost predicate DistinctKeys(c: Culture, n: seq<Text>) {
    |n| == 5 && forall i, j :: 0 <= i < j < 5 ==> Key(c, n[i]) != Key(c, n[j])
  }

  /** The occurrences of the test document, its five distinct words written
      `n[0]` to `n[4]` in the order they first occur. */
  function Pattern(n: seq<Text>): seq<Text>
    requires |n| == 5
  {
    [n[0], n[1], n[2], n[3], n[4], n[1], n[2], n[3], n[4], n[2], n[3], n[4], n[4]]
  }

  /** The table holding the five words with these counts. */
  function Table5(n: seq<Text>, n0: int, n1: int, n2: int, n3: int, n4: int): seq<Entry>
    requires |n| == 5
  {
    [Entry(n[0], n0), Entry(n[1], n1), Entry(n[2], n2), Entry(n[3], n3), Entry(n[4], n4)]
  }

  lemma TallySnoc(c: Culture, ws: seq<Text>, k: nat)
    requires k < |ws|
    ensures Tally(c, ws[..k + 1]) == AddTo(c, Tally(c, ws[..k]), ws[k])
  {
    assert ws[..k + 1][..k] == ws[..k];
  }

  /** The occurrence at position `k` is the first one of the `j`-th word. */
  lemma PatternDiscover(c: Culture, n: seq<Text>, ws: seq<Text>, k: nat, t: seq<Entry>, j: nat)
    requires DistinctKeys(c, n) && k < |ws| && j < 5 && ws[k] == n[j] && |t| == j
    requires forall i :: 0 <= i < j ==> t[i].word == n[i]
    requires Tally(c, ws[..k]) == t
    ensures Tally(c, ws[..k + 1]) == t + [Entry(n[j], 1)]
  {
    TallySnoc(c, ws, k);
    assert forall i :: 0 <= i < |t| ==> Key(c, t[i].word) != Key(c, n[j]);
  }

  /** The occurrence at position `k` is one more of the `j`-th word. */
  lemma PatternBump(c: Culture, n: seq<Text>, ws: seq<Text>, k: nat, t: seq<Entry>, j: nat)
    requires DistinctKeys(c, n) && k < |ws| && j < 5 && ws[k] == n[j]
    requires |t| == 5 && forall i :: 0 <= i < 5 ==> t[i].word == n[i]
    requires Tally(c, ws[..k]) == t
    ensures Tally(c, ws[..k + 1]) == t[j := Entry(n[j], t[j].count + 1)]
  {
    TallySnoc(c, ws, k);
    assert IndexOfKey(c, t, Key(c, n[j])) == Some(j);
  }

  /** The table after the first `k <= 5` occurrences: the first `k` words, once each. */
  function Discovered(n: seq<Text>, k: nat): (t: seq<Entry>)
    requires k <= |n|
    ensures |t| == k && forall i :: 0 <= i < k ==> t[i] == Entry(n[i], 1)
  {
    seq(k, i requires 0 <= i < k => Entry(n[i], 1))
  }

  lemma {:induction false} PatternDiscoveries(c: Culture, n: seq<Text>, k: nat)
    requires DistinctKeys(c, n) && k <= 5
    ensures Tally(c, Pattern(n)[..k]) == Discovered(n, k)
    decreases k
  {
    var ws := Pattern(n);
    if k == 0 {
      assert ws[..0] == [];
    } else {
      PatternDiscoveries(c, n, k - 1);
      var t := Discovered(n, k - 1);
      assert ws[k - 1] == n[k - 1];
      PatternDiscover(c, n, ws, k - 1, t, k - 1);
      assert t + [Entry(n[k - 1], 1)] == Discovered(n, k);
    }
  }

  /** The table after the five discoveries: each word once. */
  lemma PatternAt5(c: Culture, n: seq<Text>)
    requires DistinctKeys(c, n)
    ensures Tally(c, Pattern(n)[..5]) == Table5(n, 1, 1, 1, 1, 1)
  {
    PatternDiscoveries(c, n, 5);
    assert Discovered(n, 5) == Table5(n, 1, 1, 1, 1, 1);
  }

  /** The table after 6 occurrences. */
  lemma PatternAt6(c: Culture, n: seq<Text>)
    requires DistinctKeys(c, n)
    ensures Tally(c, Pattern(n)[..6]) == Table5(n, 1, 2, 1, 1, 1)
  {
    PatternAt5(c, n);
    var t := Table5(n, 1, 1, 1, 1, 1);
    PatternBump(c, n, Pattern(n), 5, t, 1);
    assert t[1 := Entry(n[1], 2)] == Table5(n, 1, 2, 1, 1, 1);
  }

  /** The table after 7 occurrences. */
  lemma PatternAt7(c: Culture, n: seq<Text>)
    requires DistinctKeys(c, n)
    ensures Tally(c, Pattern(n)[..7]) == Table5(n, 1, 2, 2, 1, 1)
  {
    PatternAt6(c, n);
    var t := Table5(n, 1, 2, 1, 1, 1);
    PatternBump(c, n, Pattern(n), 6, t, 2);
    assert t[2 := Entry(n[2], 2)] == Table5(n, 1, 2, 2, 1, 1);
  }

  /** The table after 8 occurrences. */
  lemma PatternAt8(c: Culture, n: seq<Text>)
    requires DistinctKeys(c, n)
    ensures Tally(c, Pattern(n)[..8]) == Table5(n, 1, 2, 2, 2, 1)
  {
    PatternAt7(c, n);
    var t := Table5(n, 1, 2, 2, 1, 1);
    PatternBump(c, n, Pattern(n), 7, t, 3);
    assert t[3 := Entry(n[3], 2)] == Table5(n, 1, 2, 2, 2, 1);
  }

  /** The table after 9 occurrences. */
  lemma PatternAt9(c: Culture, n: seq<Text>)
    requires DistinctKeys(c, n)
    ensures Tally(c, Pattern(n)[..9]) == Table5(n, 1, 2, 2, 2, 2)
  {
    PatternAt8(c, n);
    var t := Table5(n, 1, 2, 2, 2, 1);
    PatternBump(c, n, Pattern(n), 8, t, 4);
    assert t[4 := Entry(n[4], 2)] == Table5(n, 1, 2, 2, 2, 2);
  }

  /** The table after 10 occurrences. */
  lemma PatternAt10(c: Culture, n: seq<Text>)
    requires DistinctKeys(c, n)
    ensures Tally(c, Pattern(n)[..10]) == Table5(n, 1, 2, 3, 2, 2)
  {
    PatternAt9(c, n);
    var t := Table5(n, 1, 2, 2, 2, 2);
    PatternBump(c, n, Pattern(n), 9, t, 2);
    assert t[2 := Entry(n[2], 3)] == Table5(n, 1, 2, 3, 2, 2);
  }

  /** The table after 11 occurrences. */
  lemma PatternAt11(c: Culture, n: seq<Text>)
    requires DistinctKeys(c, n)
    ensures Tally(c, Pattern(n)[..11]) == Table5(n, 1, 2, 3, 3, 2)
  {
    PatternAt10(c, n);
    var t := Table5(n, 1, 2, 3, 2, 2);
    PatternBump(c, n, Pattern(n), 10, t, 3);
    assert t[3 := Entry(n[3], 3)] == Table5(n, 1, 2, 3, 3, 2);
  }

  /** The table after 12 occurrences. */
  lemma PatternAt12(c: Culture, n: seq<Text>)
    requires DistinctKeys(c, n)
    ensures Tally(c, Pattern(n)[..12]) == Table5(n, 1, 2, 3, 3, 3)
  {
    PatternAt11(c, n);
    var t := Table5(n, 1, 2, 3, 3, 2);
    PatternBump(c, n, Pattern(n), 11, t, 4);
    assert t[4 := Entry(n[4], 3)] == Table5(n, 1, 2, 3, 3, 3);
  }

  /** The table after 13 occurrences. */
  lemma PatternAt13(c: Culture, n: seq<Text>)
    requires DistinctKeys(c, n)
    ensures Tally(c, Pattern(n)[..13]) == Table5(n, 1, 2, 3, 3, 4)
  {
    PatternAt12(c, n);
    var t := Table5(n, 1, 2, 3, 3, 3);
    PatternBump(c, n, Pattern(n), 12, t, 4);
    assert t[4 := Entry(n[4], 4)] == Table5(n, 1, 2, 3, 3, 4);
  }

  /** The table of the test's occurrences: each word with its number of
      occurrences, in the order they first occur. */
  lemma PatternTable(c: Culture, n: seq<Text>)
    requires DistinctKeys(c, n)
    ensures Tally(c, Pattern(n)) == Table5(n, 1, 2, 3, 3, 4)
  {
    PatternAt13(c, n);
    assert Pattern(n)[..13] == Pattern(n);
  }

  /** The pairs of one element with key `k`. */
  function Keyed(x: WordCountPair, k: int): seq<WordCountPair> {
    if x.key == k then [x] else []
  }

  lemma FilterFive(a: WordCountPair, b: WordCountPair, c: WordCountPair, d: WordCountPair, e: WordCountPair, k: int)
    ensures Filter([a, b, c, d, e], k) == Keyed(a, k) + Keyed(b, k) + Keyed(c, k) + Keyed(d, k) + Keyed(e, k)
  {
    assert [a, b, c, d, e][..4] == [a, b, c, d];
    assert [a, b, c, d][..3] == [a, b, c];
    assert [a, b, c][..2] == [a, b];
    assert [a, b][..1] == [a];
    assert [a][..0] == [];
    assert Filter([a], k) == Keyed(a, k);
    assert Filter([a, b], k) == Keyed(a, k) + Keyed(b, k);
    assert Filter([a, b, c], k) == Keyed(a, k) + Keyed(b, k) + Keyed(c, k);
    assert Filter([a, b, c, d], k) == Keyed(a, k) + Keyed(b, k) + Keyed(c, k) + Keyed(d, k);
  }

  /** Keys from `m` on that no pair has add nothing to the layout. */
  lemma {:induction false} LayoutSkip(s: seq<WordCountPair>, m: nat, n: nat)
    requires m <= n && forall k :: m <= k < n ==> Filter(s, k) == []
    ensures Layout(s, n) == Layout(s, m)
    decreases n - m
  {
    if m < n {
      LayoutSkip(s, m, n - 1);
      assert Layout(s, n) == Layout(s, n - 1) + [];
    }
  }

  /** The (count, word) pairs of the test's table. */
  function PatternPairs(n: seq<Text>): seq<WordCountPair>
    requires |n| == 5
  {
    [WordCountPair(1, n[0]), WordCountPair(2, n[1]), WordCountPair(3, n[2]), WordCountPair(3, n[3]), WordCountPair(4, n[4])]
  }

  /** The pairs of the test's table; every count fits a count array of 13 slots. */
  lemma TablePairs(n: seq<Text>)
    requires |n| == 5
    ensures ToPairs(Table5(n, 1, 2, 3, 3, 4)) == PatternPairs(n)
    ensures KeysInRange(PatternPairs(n), 13)
  {
  }

  /** The pairs of the test are already in ascending order of count, so the
      counting sort leaves them as they are. */
  lemma PatternLayout(n: seq<Text>)
    requires |n| == 5
    ensures Layout(PatternPairs(n), 13) == PatternPairs(n)
  {
    var s := PatternPairs(n);
    var p0, p1, p2, p3, p4 := s[0], s[1], s[2], s[3], s[4];
    assert s == [p0, p1, p2, p3, p4];
    forall k | 5 <= k < 13 ensures Filter(s, k) == [] {
      FilterNone(s, k);
    }
    LayoutSkip(s, 5, 13);
    FilterFive(p0, p1, p2, p3, p4, 0);
    FilterFive(p0, p1, p2, p3, p4, 1);
    FilterFive(p0, p1, p2, p3, p4, 2);
    FilterFive(p0, p1, p2, p3, p4, 3);
    FilterFive(p0, p1, p2, p3, p4, 4);
    assert Layout(s, 1) == [];
    assert Layout(s, 2) == [p0];
    assert Layout(s, 3) == [p0, p1];
    assert Layout(s, 4) == [p0, p1, p2, p3];
    assert Layout(s, 5) == s;
  }

  /** Reporting up to six of five sorted pairs lists all their words, the last first. */
  lemma RankFive(s: seq<WordCountPair>)
    requires |s| == 5
    ensures Rank(s, 6) == [s[4].word, s[3].word, s[2].word, s[1].word, s[0].word]
  {
    ReverseIndex(s);
    var r := [s[4], s[3], s[2], s[1], s[0]];
    assert Reverse(s) == r;
    assert TopPairs(s, 6) == r;
  }

  /** The sorted, reversed and cut table of the test: the most frequent word
      first, and of the two words seen three times the later one first. */
  lemma PatternRank(n: seq<Text>)
    requires |n| == 5
    ensures Rank(Layout(ToPairs(Table5(n, 1, 2, 3, 3, 4)), 13), 6) == [n[4], n[3], n[2], n[1], n[0]]
  {
    TablePairs(n);
    PatternLayout(n);
    RankFive(PatternPairs(n));
  }

  // The test document itself.

  /** "this", "is", "a", "basic", "text" */
  const This: Text := [0x74, 0x68, 0x69, 0x73]
  const Is: Text := [0x69, 0x73]
  const A: Text := [0x61]
  const Basic: Text := [0x62, 0x61, 0x73, 0x69, 0x63]
  const TextWord: Text := [0x74, 0x65, 0x78, 0x74]

  /** The five distinct words of the test document, in order of first occurrence. */
  const Names: seq<Text> := [This, Is, A, Basic, TextWord]

  /** The five words are lower case, hence their own keys, and pairwise different. */
  lemma NamesDistinct()
    ensures forall i :: 0 <= i < 5 ==> LowerWord(Names[i])
    ensures DistinctKeys(Ascii, Names)
  {
    FoldLower(This);
    FoldLower(Is);
    FoldLower(A);
    FoldLower(Basic);
    FoldLower(TextWord);
    assert This[1] != TextWord[1];
  }

  /** "this is a basic text is a basic text a basic text text" */
  const TestDocument: Text := Join(Pattern(Names))

  /** The six most common words of the test document are its five words, the
      most frequent first and, of "a" and "basic" (three times each), the later
      one first. */
  lemma TestScenario()
    ensures CommonWords(Ascii, Some(TestDocument), 6) == Ok([TextWord, Basic, A, Is, This])
  {
    NamesDistinct();
    var ws := Pattern(Names);
    assert forall i :: 0 <= i < |ws| ==> LowerWord(ws[i]);
    JoinWords(ws);
    assert TestDocument != [] by {
      assert |TestDocument| >= |ws[0]|;
    }
    PatternTable(Ascii, Names);
    PatternRank(Names);
    TablePairs(Names);
  }
}
