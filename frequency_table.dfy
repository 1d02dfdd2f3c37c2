/**
 * The frequency table of the word counter: a dictionary from word to count whose
 * comparer is case-insensitive, so that the first spelling seen of a word is the
 * one kept. It is modelled as its entries in insertion order, which is the order
 * in which such a dictionary enumerates them when nothing is ever removed.
 */
module FrequencyTable {
  import opened Wrappers
  import opened CharClass

  /** One dictionary entry: the stored spelling of a word and its count. */
  datatype Entry = Entry(word: Text, count: int)

  /** The position of the entry whose key is `key`, if there is one (the first,
      although a well-formed table has at most one). */
  function IndexOfKey(c: Culture, entries: seq<Entry>, key: Text): (r: Option<nat>)
    ensures r.Some? ==> r.value < |entries| && Key(c, entries[r.value].word) == key
    ensures r.Some? ==> forall j :: 0 <= j < r.value ==> Key(c, entries[j].word) != key
    ensures r.None? ==> forall j :: 0 <= j < |entries| ==> Key(c, entries[j].word) != key
  {
    if entries == [] then None
    else if Key(c, entries[0].word) == key then Some(0)
    else match IndexOfKey(c, entries[1..], key)
      case None => None
      case Some(k) => Some(k + 1)
  }

  /** `ContainsKey` under the case-insensitive comparer. */
  ghost predicate HasKey(c: Culture, entries: seq<Entry>, key: Text) {
    exists j :: 0 <= j < |entries| && Key(c, entries[j].word) == key
  }

  /** `HasKey` is the lookup of `IndexOfKey` succeeding. */
  lemma HasKeyFound(c: Culture, entries: seq<Entry>, key: Text)
    ensures HasKey(c, entries, key) <==> IndexOfKey(c, entries, key).Some?
  {
    match IndexOfKey(c, entries, key)
    case Some(k) =>
      assert Key(c, entries[k].word) == key;
    case None =>
  }

  /** At most one entry per case-insensitive key. */
  ghost predicate KeysDistinct(c: Culture, entries: seq<Entry>) {
    forall i, j :: 0 <= i < j < |entries| ==> Key(c, entries[i].word) != Key(c, entries[j].word)
  }

  /** The invariant of the table: one entry per key, and every count positive. */
  ghost predicate WellFormed(c: Culture, entries: seq<Entry>) {
    KeysDistinct(c, entries) && forall i :: 0 <= i < |entries| ==> entries[i].count >= 1
  }

  /** The sum of all counts. */
  function Sum(entries: seq<Entry>): int {
    if entries == [] then 0 else Sum(entries[..|entries| - 1]) + entries[|entries| - 1].count
  }

  /** What `AddWord` does to the entries: bump the count of the entry with the
      word's key, or append the word with count 1. */
  function AddTo(c: Culture, entries: seq<Entry>, word: Text): seq<Entry> {
    match IndexOfKey(c, entries, Key(c, word))
    case Some(k) => entries[k := Entry(entries[k].word, entries[k].count + 1)]
    case None => entries + [Entry(word, 1)]
  }

  /** The table after adding the word occurrences `ws` one by one to an empty table. */
  function Tally(c: Culture, ws: seq<Text>): seq<Entry> {
    if ws == [] then [] else AddTo(c, Tally(c, ws[..|ws| - 1]), ws[|ws| - 1])
  }

  /** The number of occurrences in `ws` of words with key `key`. */
  function Occurrences(c: Culture, ws: seq<Text>, key: Text): nat {
    if ws == [] then 0
    else Occurrences(c, ws[..|ws| - 1], key) + (if Key(c, ws[|ws| - 1]) == key then 1 else 0)
  }

  /** The first occurrence of every distinct key, in the order they occur: an
      occurrence is a discovery when no earlier occurrence has its key. */
  function Discoveries(c: Culture, ws: seq<Text>): seq<Text> {
    if ws == [] then []
    else
      var prefix := ws[..|ws| - 1];
      var w := ws[|ws| - 1];
      Discoveries(c, prefix) + (if Occurrences(c, prefix, Key(c, w)) == 0 then [w] else [])
  }

  /** The case-insensitive `Dictionary<string, int>` of the word counter. */
  class WordTable {
    const culture: Culture
    var entries: seq<Entry>

    constructor (culture: Culture)
      ensures this.culture == culture && entries == []
    {
      this.culture := culture;
      entries := [];
    }
  }

  /** Counts one occurrence of `word`: the entries become `AddTo` of the old ones
      (see `AddToSpec`, `AddToSum` and `AddToWellFormed` for what that means). */
  method AddWord(words: WordTable, word: Text)
    modifies words
    ensures words.entries == AddTo(words.culture, old(words.entries), word)
  {
    var c := words.culture;
    match IndexOfKey(c, words.entries, Key(c, word)) {
      case Some(k) =>
        words.entries := words.entries[k := Entry(words.entries[k].word, words.entries[k].count + 1)];
      case None =>
        words.entries := words.entries + [Entry(word, 1)];
    }
  }

  // ---------------------------------------------------------------------------
  // AddWord

  /** The sum after replacing one entry changes by the difference of the counts. */
  lemma {:induction false} SumUpdate(entries: seq<Entry>, k: nat, x: Entry)
    requires k < |entries|
    ensures Sum(entries[k := x]) == Sum(entries) - entries[k].count + x.count
    decreases |entries|
  {
    var n := |entries| - 1;
    var updated := entries[k := x];
    if k == n {
      assert updated[..n] == entries[..n];
    } else {
      assert updated[..n] == entries[..n][k := x];
      SumUpdate(entries[..n], k, x);
    }
  }

  /** Adding a word adds one to the sum of counts. */
  lemma AddToSum(c: Culture, entries: seq<Entry>, word: Text)
    ensures Sum(AddTo(c, entries, word)) == Sum(entries) + 1
  {
    match IndexOfKey(c, entries, Key(c, word))
    case Some(k) =>
      SumUpdate(entries, k, Entry(entries[k].word, entries[k].count + 1));
    case None =>
      var r := entries + [Entry(word, 1)];
      assert r[..|r| - 1] == entries;
  }

  /** The three cases of `AddWord`: the entry with the word's key has its count
      bumped and its spelling kept; without such an entry the word is appended
      with count 1; no other entry changes. */
  lemma AddToSpec(c: Culture, entries: seq<Entry>, word: Text)
    requires KeysDistinct(c, entries)
    ensures var r := AddTo(c, entries, word);
            forall k :: 0 <= k < |entries| && Key(c, entries[k].word) == Key(c, word) ==>
              && |r| == |entries|
              && r[k] == Entry(entries[k].word, entries[k].count + 1)
              && forall j :: 0 <= j < |entries| && j != k ==> r[j] == entries[j]
    ensures !HasKey(c, entries, Key(c, word)) ==> AddTo(c, entries, word) == entries + [Entry(word, 1)]
  {
  }

  /** Adding a word keeps the table well formed. */
  lemma AddToWellFormed(c: Culture, entries: seq<Entry>, word: Text)
    requires WellFormed(c, entries)
    ensures WellFormed(c, AddTo(c, entries, word))
  {
    var r := AddTo(c, entries, word);
    match IndexOfKey(c, entries, Key(c, word))
    case Some(k) =>
      assert forall i :: 0 <= i < |r| ==> r[i].word == entries[i].word;
    case None =>
      assert forall i :: 0 <= i < |entries| ==> r[i] == entries[i];
  }

  /** With positive counts the sum is at least the number of entries. */
  lemma {:induction false} SumAtLeastLength(entries: seq<Entry>)
    requires forall j :: 0 <= j < |entries| ==> entries[j].count >= 1
    ensures Sum(entries) >= |entries|
    decreases |entries|
  {
    if entries != [] {
      SumAtLeastLength(entries[..|entries| - 1]);
    }
  }

  /** With positive counts, any one count plus one for each other entry is at
      most the sum: a count reaches the sum only in a table of one entry. */
  lemma {:induction false} SumBound(entries: seq<Entry>, i: nat)
    requires i < |entries|
    requires forall j :: 0 <= j < |entries| ==> entries[j].count >= 1
    ensures entries[i].count + |entries| - 1 <= Sum(entries)
    decreases |entries|
  {
    var p := entries[..|entries| - 1];
    if i == |entries| - 1 {
      SumAtLeastLength(p);
    } else {
      SumBound(p, i);
    }
  }

  // ---------------------------------------------------------------------------
  // The table built from a sequence of word occurrences.

  /** The table is well formed and its counts add up to the number of occurrences
      (the `totalWords` the scanning loop keeps beside it). */
  lemma {:induction false} TallyInvariant(c: Culture, ws: seq<Text>)
    ensures WellFormed(c, Tally(c, ws))
    ensures Sum(Tally(c, ws)) == |ws|
    decreases |ws|
  {
    if ws != [] {
      var prefix := ws[..|ws| - 1];
      TallyInvariant(c, prefix);
      AddToWellFormed(c, Tally(c, prefix), ws[|ws| - 1]);
      AddToSum(c, Tally(c, prefix), ws[|ws| - 1]);
    }
  }

  /** The table has an entry for a key exactly when the key occurs. */
  lemma {:induction false} TallyKeys(c: Culture, ws: seq<Text>, key: Text)
    ensures HasKey(c, Tally(c, ws), key) <==> Occurrences(c, ws, key) > 0
    decreases |ws|
  {
    if ws != [] {
      var prefix := ws[..|ws| - 1];
      var w := ws[|ws| - 1];
      var t := Tally(c, prefix);
      TallyKeys(c, prefix, key);
      var r := AddTo(c, t, w);
      match IndexOfKey(c, t, Key(c, w))
      case Some(k) =>
        assert forall i :: 0 <= i < |r| ==> r[i].word == t[i].word;
        if Key(c, w) == key {
          assert Key(c, r[k].word) == key;
        }
      case None =>
        assert forall i :: 0 <= i < |t| ==> r[i] == t[i];
        assert Key(c, r[|t|].word) == Key(c, w);
    }
  }

  /** Every count is the number of occurrences of its entry's key. */
  lemma {:induction false} TallyCounts(c: Culture, ws: seq<Text>)
    ensures var t := Tally(c, ws);
            forall i :: 0 <= i < |t| ==> t[i].count == Occurrences(c, ws, Key(c, t[i].word))
    decreases |ws|
  {
    if ws != [] {
      var prefix := ws[..|ws| - 1];
      var w := ws[|ws| - 1];
      var t := Tally(c, prefix);
      TallyCounts(c, prefix);
      var r := AddTo(c, t, w);
      match IndexOfKey(c, t, Key(c, w))
      case Some(k) =>
        TallyInvariant(c, prefix);
      case None =>
        TallyKeys(c, prefix, Key(c, w));
        assert forall i :: 0 <= i < |t| ==> r[i] == t[i];
    }
  }

  /** The stored spellings are the discoveries: the table lists its words in the
      order their keys first occur, each with the spelling of that first
      occurrence. */
  lemma {:induction false} TallySpellings(c: Culture, ws: seq<Text>)
    ensures var t := Tally(c, ws);
            && |t| == |Discoveries(c, ws)|
            && forall i :: 0 <= i < |t| ==> t[i].word == Discoveries(c, ws)[i]
    decreases |ws|
  {
    if ws != [] {
      var prefix := ws[..|ws| - 1];
      var w := ws[|ws| - 1];
      var t := Tally(c, prefix);
      TallySpellings(c, prefix);
      TallyKeys(c, prefix, Key(c, w));
      var r := AddTo(c, t, w);
      match IndexOfKey(c, t, Key(c, w))
      case Some(k) =>
        assert forall i :: 0 <= i < |r| ==> r[i].word == t[i].word;
      case None =>
        assert forall i :: 0 <= i < |t| ==> r[i] == t[i];
    }
  }
}
