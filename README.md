# Word counter

A verified model of `WordCounter.IdentifyCommonWords(documentText, numWords)`.
Given a document, it returns the `numWords` most frequent words, the most
frequent first. The pipeline has four stages:

1. **Scan.** One pass over the UTF-16 code units of the document. It tracks
   `insideWord`, `wordIdx` and `totalWords`, and finds word occurrences:
   - A word starts at a letter that is not a CJK ideograph.
   - It runs through letters, apostrophes and hyphens.
   - It closes at the first other code unit, or at an ideograph.
   - When the code unit before the boundary is not a letter, exactly one
     trailing code unit is dropped.
   - Every ideograph (a letter in U+4E00..U+9FFF) is a word of its own. It comes
     after any word it closes.
2. **Tally.** `AddWord` counts each occurrence in a case-insensitive dictionary.
   The dictionary keeps the first spelling it sees of each word.
3. **Sort.** The dictionary becomes a list of (count, word) pairs. A counting
   sort orders it by count, over an array of `totalWords` slots, in three
   passes: a histogram, prefix sums, and stable placement.
4. **Report.** The sorted list is reversed, cut to `numWords` and projected to
   its words.

Modules:

- `CharClass` (`char_class.dfy`): the code units, the culture, the four
  classifiers, and the `Option` of module `Wrappers`.
  - A code unit is an `int` in `[0, 0x10000)`. A text is a sequence of them.
  - The culture has two parts: the Unicode "is a letter" test, and the case
    folding of `StringComparer.CurrentCultureIgnoreCase`. Both are parameters of
    the model, bundled in the `Culture` datatype.
  - Two spellings are the same dictionary key when their folded forms are equal.
- `Tokenizer` (`tokenizer.dfy`): `Words(c, d)` is the reference definition of the
  word occurrences. It works one word at a time. It comes with lemmas on the
  shape of the words and on the ideographs.
- `FrequencyTable` (`frequency_table.dfy`): the dictionary as the class
  `WordTable`. Its entries are held in insertion order.
  - `AddWord` updates the entries in place.
  - `Tally` is the table after a sequence of occurrences. Lemmas relate it to
    occurrence counts and first spellings.
- `Sorting` (`counting_sort.dfy`): `CountingSort` and its three passes, as
  methods over arrays.
  - They are proved against `Layout(s, n)`, which concatenates the pairs of
    each key `0..n-1` in input order.
  - Lemmas prove that `Layout` is a sorted, stable permutation.
- `Ranking` (`ranking.dfy`): `Reverse`, `Take` and `Select`, with what they keep
  of the sorted order.
- `WordCounter` (`word_counter.dfy`):
  - the method `IdentifyCommonWords`, with its scanning loop in `CountWords`;
  - the functional outcome `CommonWords`: `Ok(words)`, or the exception thrown,
    `InvalidArgument` or `IndexOutOfRange`;
  - the characterisation of a correct report, `IsTopWords`;
  - the corrected pipeline `CommonWordsCorrected` (see Findings).
- `Scenarios` (`scenarios.dfy`): concrete runs (the English-words test and the
  single-word input) under a culture that knows only ASCII letters.

## Model

| member | source | states |
|---|---|---|
| CharClass.IsCharInRange | ClassLibrary2/WordCounter.cs:124-127 | A code unit lies in a range when it is at least the minimum and at most the maximum, both bounds inclusive. This is a definition; `IsSingleCharacterWord` states what the two ranges add up to. |
| CharClass.IsValidWordStartOrEndCharacter | ClassLibrary2/WordCounter.cs:129-134 | A word may start or end at a letter, as decided by the culture's letter test. This is a definition; `CharClassesPartition` relates it to the other classifiers. |
| CharClass.IsValidWordMiddleCharacter | ClassLibrary2/WordCounter.cs:136-140 | A word may continue through a letter, an apostrophe (U+0027) or a hyphen (U+002D). This is a definition; `CharClassesPartition` relates it to the other classifiers. |
| CharClass.StartsWord | ClassLibrary2/WordCounter.cs:62 | `isValidStartEndChar`: a code unit may start a word when it is a letter and not an ideograph. This is a definition; `CharClassesPartition` states how it relates to the other classes. |
| CharClass.ContinuesWord | ClassLibrary2/WordCounter.cs:63 | `isValidMiddleChar`: a code unit continues a word when it is a letter, an apostrophe or a hyphen, and not an ideograph. This is a definition; `CharClassesPartition` states how it relates to the other classes. |
| CharClass.Key | ClassLibrary2/WordCounter.cs:54 | The key of a spelling under `StringComparer.CurrentCultureIgnoreCase`: the culture's case folding. Two spellings are the same dictionary key when their keys are equal, as `ContainsKey` at line 105 compares them. This is a definition. |
| CharClass.IsSingleCharacterWord | ClassLibrary2/WordCounter.cs:115-122 | A code unit is a word of its own exactly when it is a letter in U+4E00..U+9FFF. The Kanji range 0x4E00..0x9FBF is subsumed. |
| CharClass.CharClassesPartition | ClassLibrary2/WordCounter.cs:124-140 | The classifiers split the code units four ways: ideographs, which never start or continue a word; word starters, which also continue words; the apostrophe and the hyphen when not letters, which only continue words; and separators. |
| Tokenizer.Words | ClassLibrary2/WordCounter.cs:59-93 | The reference segmentation, one word at a time. A run word starts at a non-ideograph letter and runs through continuing code units; it is trimmed by `CloseWord`, and a closing ideograph follows it as its own word. An ideograph outside a word is a word; every other code unit separates words. `CountWords` is proved to emit exactly these words, and `WordShape` and `EveryIdeographIsAWord` state their properties. |
| Tokenizer.CloseWord | ClassLibrary2/WordCounter.cs:71-73 | The closed word is the run, less its last code unit when that is not a letter. `CloseWordTrim` states that exactly one code unit is dropped, and only then. |
| Tokenizer.WordEnd | ClassLibrary2/WordCounter.cs:59-69 | The end of a run: every code unit before it continues a word, and the one at it, if any, does not. |
| Tokenizer.WordEndAt | ClassLibrary2/WordCounter.cs:64-69 | A run that starts at `a` and is broken at `i` ends at `i`. |
| Tokenizer.OutsideStep | ClassLibrary2/WordCounter.cs:64-82 | Outside a word, a code unit that starts no word adds only itself as a word, and only when it is an ideograph. |
| Tokenizer.CloseStep | ClassLibrary2/WordCounter.cs:69-82 | A word closed by a code unit inside the text is emitted, then the closing ideograph if it is one, then the words of the rest. |
| Tokenizer.EndStep | ClassLibrary2/WordCounter.cs:85-93 | A word that runs to the end of the text is its last occurrence. |
| Tokenizer.WordShape | ClassLibrary2/WordCounter.cs:59-93 | Every occurrence is either one ideograph, or a non-empty run that starts with a non-ideograph letter and holds only letters, apostrophes and hyphens. |
| Tokenizer.CloseWordIsRun | ClassLibrary2/WordCounter.cs:71-73 | A closed word is a run word of positive length. |
| Tokenizer.CloseWordTrim | ClassLibrary2/WordCounter.cs:71-73 | The word is the whole run when its last code unit is a letter. Otherwise it is the run less exactly one code unit, and still non-empty. |
| Tokenizer.IdeographsAppend | ClassLibrary2/WordCounter.cs:78-82 | The ideographs of a concatenation are those of each part in order. |
| Tokenizer.IdeographWordsAppend | ClassLibrary2/WordCounter.cs:78-82 | The ideograph words of a concatenation are those of each part in order. |
| Tokenizer.NoIdeographsInRun | ClassLibrary2/WordCounter.cs:62-63 | A run of word-continuing code units holds no ideograph. |
| Tokenizer.EveryIdeographIsAWord | ClassLibrary2/WordCounter.cs:78-82 | The ideograph words among the occurrences are exactly the document's ideographs, in document order. |
| FrequencyTable.IndexOfKey | ClassLibrary2/WordCounter.cs:105 | The first position whose stored word has the key, or none when no entry has it. |
| FrequencyTable.HasKeyFound | ClassLibrary2/WordCounter.cs:105 | `ContainsKey` (some entry has the key) holds exactly when the lookup `IndexOfKey` finds an entry. |
| FrequencyTable.Occurrences | ClassLibrary2/WordCounter.cs:59-93 | The number of occurrences of a key among the words: the independent count that `TallyCounts` relates the table's counts to. This is a definition. |
| FrequencyTable.Discoveries | ClassLibrary2/WordCounter.cs:103-113 | The first occurrence of each key, in order of first occurrence: the independent reference for the stored spellings and their order, stated by `TallySpellings`. This is a definition. |
| FrequencyTable.WordTable.constructor | ClassLibrary2/WordCounter.cs:54 | A new dictionary with the given culture is empty. |
| FrequencyTable.AddWord | ClassLibrary2/WordCounter.cs:103-113 | The entries become `AddTo` of the old entries. The lemmas below say what that does. |
| FrequencyTable.AddTo | ClassLibrary2/WordCounter.cs:103-113 | The entries after one `AddWord`: the entry with the word's key has its count bumped, or the word is appended with count 1. `AddToSpec`, `AddToSum` and `AddToWellFormed` state what this keeps. |
| FrequencyTable.Tally | ClassLibrary2/WordCounter.cs:54-93 | The table after adding the occurrences one by one to an empty table, as the scanning loop does. `TallyInvariant`, `TallyKeys`, `TallyCounts` and `TallySpellings` state what it holds. |
| FrequencyTable.AddToSpec | ClassLibrary2/WordCounter.cs:103-113 | The entry with the word's key has its count raised by one and its spelling kept, and every other entry is unchanged. With no such entry, the word is appended with count 1. |
| FrequencyTable.AddToSum | ClassLibrary2/WordCounter.cs:75-76 | Adding a word raises the sum of counts by one, as `totalWords++` does. |
| FrequencyTable.AddToWellFormed | ClassLibrary2/WordCounter.cs:103-113 | Adding a word keeps one entry per key and every count at least 1. |
| FrequencyTable.SumUpdate | ClassLibrary2/WordCounter.cs:107 | Replacing one entry changes the sum by the difference of the counts. |
| FrequencyTable.SumAtLeastLength | ClassLibrary2/WordCounter.cs:111 | With positive counts, the sum is at least the number of entries. |
| FrequencyTable.SumBound | ClassLibrary2/WordCounter.cs:149-153 | One count plus one for each other entry is at most the sum. So a count equals `totalWords` only in a table of one entry. |
| FrequencyTable.TallyInvariant | ClassLibrary2/WordCounter.cs:54-93 | The table built from the occurrences is well formed. Its counts add up to the number of occurrences, which is `totalWords`. |
| FrequencyTable.TallyKeys | ClassLibrary2/WordCounter.cs:105 | The table has an entry for a key exactly when the key occurs. |
| FrequencyTable.TallyCounts | ClassLibrary2/WordCounter.cs:103-113 | Every count is the number of occurrences of its entry's key. |
| FrequencyTable.TallySpellings | ClassLibrary2/WordCounter.cs:111 | The entries list the first occurrence of each key, in order of first occurrence, with that occurrence's spelling. |
| Sorting.Layout | ClassLibrary2/WordCounter.cs:143-175 | The independent reference order of the counting sort: the pairs of key 0, then of key 1, and so on up to `n - 1`, each group in input order. `LayoutPermutation`, `LayoutSorted` and `LayoutStableInRange` state that it is a sorted, stable permutation. |
| Sorting.CountingSort | ClassLibrary2/WordCounter.cs:143-175 | With every key in `[0, totalNumItems)`, the output is `Layout(input, totalNumItems)`. It is a permutation of the input, sorted by key, and stable: the pairs of each key keep their input order. |
| Sorting.CountKeys | ClassLibrary2/WordCounter.cs:148-154 | After the histogram pass, `count[k]` is the number of pairs with key `k`. |
| Sorting.PrefixSum | ClassLibrary2/WordCounter.cs:156-163 | After the prefix-sum pass, `count[k]` is the number of pairs with a key below `k`. The running total is the number of pairs with a key below `count.Length`, which is all of them when every key is in range. |
| Sorting.PlacePairs | ClassLibrary2/WordCounter.cs:165-174 | After the placement pass, each cursor `count[k]` has advanced past the pairs of key `k`. Each block of the output holds those pairs in input order. |
| Sorting.HistogramStep | ClassLibrary2/WordCounter.cs:150-154 | One histogram step keeps the counts equal to the number of pairs of each key seen so far. |
| Sorting.PrefixStep | ClassLibrary2/WordCounter.cs:158-163 | One prefix-sum step stores the start of key `i`. The old count added to it is the start of key `i + 1`. |
| Sorting.PlaceStep | ClassLibrary2/WordCounter.cs:167-173 | One placement step writes inside the array, in the block of the pair's key, and keeps the other blocks. |
| Sorting.FilterAt | ClassLibrary2/WordCounter.cs:170-172 | A pair's position within its key's block is the number of earlier pairs with that key. |
| Sorting.BlockEnd | ClassLibrary2/WordCounter.cs:170-171 | The block of a key in range ends within the output. |
| Sorting.BlockUntouched | ClassLibrary2/WordCounter.cs:171 | A write outside a block's filled part leaves the block as it was. |
| Sorting.CursorOutside | ClassLibrary2/WordCounter.cs:171 | The slot written for one key lies outside the filled part of every other key's block. |
| Sorting.FilterSnoc | ClassLibrary2/WordCounter.cs:150-154 | Extending a prefix by one pair adds that pair to its own key's sub-sequence only. |
| Sorting.FilterAppend | ClassLibrary2/WordCounter.cs:143-175 | The pairs of a key in a concatenation are those of each part. |
| Sorting.FilterPrefixBound | ClassLibrary2/WordCounter.cs:167-173 | A prefix has no more pairs of a key than the whole input. |
| Sorting.FilterKeys | ClassLibrary2/WordCounter.cs:143-175 | The pairs selected for a key come from the input and have that key. |
| Sorting.FilterFilter | ClassLibrary2/WordCounter.cs:143-175 | Selecting key `k` from the pairs of key `j` gives them back when `j == k`, and nothing otherwise. |
| Sorting.LayoutMonotone | ClassLibrary2/WordCounter.cs:156-163 | Blocks of smaller keys end before blocks of larger keys start. |
| Sorting.BelowStep | ClassLibrary2/WordCounter.cs:156-163 | As a multiset, the pairs with key below `k + 1` are those below `k` plus those of key `k`. |
| Sorting.BelowAll | ClassLibrary2/WordCounter.cs:149-153 | With every key in range, every pair lies below the bound. |
| Sorting.LayoutBelow | ClassLibrary2/WordCounter.cs:143-175 | The blocks of the keys below `k` hold, as a multiset, the pairs with a key below `k`. |
| Sorting.LayoutStep | ClassLibrary2/WordCounter.cs:143-175 | Each further key adds its pairs to the layout's multiset. |
| Sorting.LayoutPermutation | ClassLibrary2/WordCounter.cs:143-175 | With keys in range, the layout is a permutation of the input. |
| Sorting.LayoutLength | ClassLibrary2/WordCounter.cs:166 | With keys in range, the layout has as many pairs as the input. |
| Sorting.StartLength | ClassLibrary2/WordCounter.cs:156-163 | The start of key `k` is the length of the layout of the keys below it. |
| Sorting.LayoutSorted | ClassLibrary2/WordCounter.cs:143-175 | The layout is sorted by key, and all its keys lie in `[0, n)`. |
| Sorting.LayoutStable | ClassLibrary2/WordCounter.cs:165-174 | The pairs of each key in range appear in the layout in input order. Keys out of range do not appear. |
| Sorting.LayoutStableInRange | ClassLibrary2/WordCounter.cs:165-174 | With keys in range, every key's pairs keep their input order. |
| Sorting.Finish | ClassLibrary2/WordCounter.cs:165-174 | An output that has every block filled is the layout. It is a sorted, stable permutation of the input. |
| Sorting.Assemble | ClassLibrary2/WordCounter.cs:165-174 | An output that has every block filled is the layout. |
| Sorting.AssemblePrefix | ClassLibrary2/WordCounter.cs:165-174 | When the blocks of the keys below `k` are full, the output up to their end is their layout. |
| Sorting.AssembleBlock | ClassLibrary2/WordCounter.cs:165-174 | Filling the block of key `k` extends the assembled prefix by that key's pairs. |
| Ranking.Reverse | ClassLibrary2/WordCounter.cs:97 | `Reverse` keeps the length. |
| Ranking.Take | ClassLibrary2/WordCounter.cs:98 | `Take(n)` is a prefix of length `n`: all the pairs when there are fewer, none when `n <= 0`. |
| Ranking.SelectWords | ClassLibrary2/WordCounter.cs:99 | `Select(s => s.Word)` keeps the length and maps each pair to its word. |
| Ranking.ReverseIndex | ClassLibrary2/WordCounter.cs:97 | Position `i` of the reversed list is position `|s| - 1 - i` of the list. |
| Ranking.ReverseAppend | ClassLibrary2/WordCounter.cs:97 | Reversing a concatenation reverses the parts and swaps them. |
| Ranking.ReverseMultiset | ClassLibrary2/WordCounter.cs:97 | Reversing is a permutation. |
| Ranking.ReverseDescending | ClassLibrary2/WordCounter.cs:96-97 | A list sorted ascending by count is descending once reversed. |
| Ranking.FilterReverse | ClassLibrary2/WordCounter.cs:96-97 | The pairs of a count in the reversed list are that count's pairs reversed. |
| Ranking.ReversedSort | ClassLibrary2/WordCounter.cs:96-97 | The reversed sort is a permutation of the pairs, descending by count. |
| Ranking.TopPairsShape | ClassLibrary2/WordCounter.cs:96-98 | The reported pairs are `min(numWords, pairs)` many, descending by count, and drawn from the pairs. |
| Ranking.TopPairsBest | ClassLibrary2/WordCounter.cs:96-98 | No left-out pair has a larger count than a reported one. |
| Ranking.TopPairsTies | ClassLibrary2/WordCounter.cs:96-98 | The reported pairs of each count are a prefix of that count's pairs in reverse input order. |
| Ranking.TopPairsDistinct | ClassLibrary2/WordCounter.cs:96-98 | Without repeated pairs, the report repeats no pair. |
| Ranking.FilterDistinct | ClassLibrary2/WordCounter.cs:96-98 | Selecting a key keeps a list free of repetition. |
| Ranking.TopPairsLatestFirst | ClassLibrary2/WordCounter.cs:96-98 | Take two pairs of equal count, the later one in input order. If the earlier one is reported, the later one is reported before it. |
| Ranking.LatestFirstAt | ClassLibrary2/WordCounter.cs:96-98 | The same, for one reported position. |
| Ranking.GroupPositions | ClassLibrary2/WordCounter.cs:96 | Two pairs of equal count keep their order within their count's sub-sequence. |
| Ranking.ReversedEarlier | ClassLibrary2/WordCounter.cs:97-98 | In a prefix of a reversed list, a later element comes before an earlier one. |
| Ranking.PrefixGroup | ClassLibrary2/WordCounter.cs:98 | An element of a key's selection that the prefix already holds lies in the prefix. |
| Ranking.TopPairs | ClassLibrary2/WordCounter.cs:96-98 | `Reverse().Take(numWords)` has `min(numWords, length)` pairs, none for `numWords <= 0`. Position `i` is the `i`-th pair from the end of the sorted list. |
| Ranking.Rank | ClassLibrary2/WordCounter.cs:96-99 | The reported words: `min(numWords, length)` of them, and word `i` is the word of the `i`-th pair from the end of the sorted list. |
| WordCounter.CommonWords | ClassLibrary2/WordCounter.cs:42-101 | The outcome of the call, including the exceptions: `InvalidArgument` for `numWords <= 0`, `Ok([])` for a null or empty document, `IndexOutOfRange` when a count does not index the array of `totalWords` slots, and otherwise the reported words. This is a definition; `CommonWordsOutcome` and `CommonWordsRanked` state its properties, and `IdentifyCommonWords` is proved to compute it. |
| WordCounter.CommonWordsCorrected | ClassLibrary2/WordCounter.cs:149 | The same outcome with a count array of `totalWords + 1` slots. This is a definition; `CorrectedNeverFails`, `CorrectedAgrees` and `CorrectedRanked` state its properties. |
| WordCounter.Content | ClassLibrary2/WordCounter.cs:49-52 | A null document reads as the empty text, so that `String.IsNullOrEmpty` is `Content(d) == []`. This is a definition. |
| WordCounter.IsTopWords | ClassLibrary2/WordCounter.cs:95-99 | The independent definition of a correct report. It lists `min(numWords, distinct words)` first spellings of pairwise different keys, most frequent first. No word left out is more frequent than a reported one. Among equal counts, the later-discovered word comes first. `RankIsTop`, `CommonWordsRanked` and `CorrectedRanked` prove the pipeline meets it. This is a definition. |
| WordCounter.ToPairs | ClassLibrary2/WordCounter.cs:95 | Each dictionary entry becomes one pair, in enumeration order, with the count as key and the stored spelling as word. |
| WordCounter.IdentifyCommonWords | ClassLibrary2/WordCounter.cs:42-101 | The method's outcome is `CommonWords`. That outcome is the `ArgumentException` for `numWords <= 0`, and the empty list for a null or empty document. Otherwise it is the sorted, reversed and cut report, or the `IndexOutOfRangeException` of the sort. |
| WordCounter.CountWords | ClassLibrary2/WordCounter.cs:54-93 | The scanning loop leaves the new dictionary equal to the tally of `Words(d)`, and `totalWords` equal to the number of occurrences. |
| WordCounter.Count | ClassLibrary2/WordCounter.cs:75-76 | Counting one more occurrence makes the table the tally of the longer list of occurrences. |
| WordCounter.ScanInit | ClassLibrary2/WordCounter.cs:55-59 | The loop invariant holds before the first code unit. |
| WordCounter.ScanStart | ClassLibrary2/WordCounter.cs:64-68 | Starting a word at `i` keeps the invariant, with `wordIdx = i`. |
| WordCounter.ScanOther | ClassLibrary2/WordCounter.cs:78-82 | A code unit that neither starts nor closes a word keeps the invariant. An ideograph is emitted as a word. |
| WordCounter.ScanClose | ClassLibrary2/WordCounter.cs:69-82 | Closing a word at `i` emits `Substring(wordIdx, wordLength)`, with one code unit trimmed when `d[i - 1]` is not a letter, and then the ideograph at `i`. The substring is in bounds. |
| WordCounter.ScanEnd | ClassLibrary2/WordCounter.cs:85-93 | A word still open at the end is the last occurrence, trimmed by the same rule. |
| WordCounter.ScanDone | ClassLibrary2/WordCounter.cs:85-86 | With no word open at the end, everything has been emitted. |
| WordCounter.PairsOfTable | ClassLibrary2/WordCounter.cs:95 | The pairs list each key once, in order of first occurrence. Each pair carries the number of occurrences of its key, which is at least 1, and the first spelling. |
| WordCounter.KeysFit | ClassLibrary2/WordCounter.cs:149-153 | Every count indexes an array of `totalWords` slots exactly when the table does not have exactly one entry. One slot more always suffices. |
| WordCounter.CommonWordsOutcome | ClassLibrary2/WordCounter.cs:44-52 | `InvalidArgument` comes exactly when `numWords <= 0`, whatever the document. A null or empty document otherwise gives the empty list. `IndexOutOfRange` comes exactly when `numWords > 0` and the document has one distinct word. |
| WordCounter.CorrectedNeverFails | ClassLibrary2/WordCounter.cs:149 | With `totalNumItems + 1` slots, every positive `numWords` gives a list. |
| WordCounter.CorrectedAgrees | ClassLibrary2/WordCounter.cs:149 | Wherever the code as written succeeds, the corrected pipeline returns the same list. |
| WordCounter.RankedAt | ClassLibrary2/WordCounter.cs:95-98 | Each reported pair is the pair of some first occurrence, with that key's number of occurrences. |
| WordCounter.RankReports | ClassLibrary2/WordCounter.cs:95-99 | The report has `min(numWords, distinct words)` entries. They are first spellings of pairwise different keys, and their counts are non-increasing. |
| WordCounter.RankBest | ClassLibrary2/WordCounter.cs:95-99 | No word left out is more frequent than a reported one. |
| WordCounter.RankTies | ClassLibrary2/WordCounter.cs:95-99 | Among words of equal count, a later-discovered word is reported before an earlier one. |
| WordCounter.RankIsTop | ClassLibrary2/WordCounter.cs:95-99 | The report meets all four parts of `IsTopWords`. |
| WordCounter.CommonWordsRanked | ClassLibrary2/WordCounter.cs:42-101 | Every list the code as written returns is a correct top-words report of the document's occurrences. |
| WordCounter.CorrectedRanked | ClassLibrary2/WordCounter.cs:42-101 | Every list the corrected pipeline returns is a correct top-words report. |
| Scenarios.OneOccurrence | ClassLibrary2/WordCounter.cs:149-153 | Take a non-empty document whose only occurrence is `w`, with `numWords = 1`. The code as written throws `IndexOutOfRange`, and the corrected pipeline returns `[w]`. |
| Scenarios.LonePair | ClassLibrary2/WordCounter.cs:143-175 | A lone pair of count 1 sorts into two slots and is reported. |
| Scenarios.SingleWordOverflows | ClassLibrary2/WordCounter.cs:149-153 | On "hello" with `numWords = 1`, the code as written throws `IndexOutOfRange`, and the corrected pipeline returns `["hello"]`. |
| Scenarios.FoldLower | ClassLibrary2/WordCounter.cs:54 | Under the ASCII culture, a lower-case word is its own key. |
| Scenarios.WordAlone | ClassLibrary2/WordCounter.cs:85-93 | A lower-case word on its own is one occurrence of itself. |
| Scenarios.WordThenRest | ClassLibrary2/WordCounter.cs:69-77 | A lower-case word followed by a space is its occurrence, then the occurrences of the rest. |
| Scenarios.LowerPrefix | ClassLibrary2/WordCounter.cs:62-73 | In a lower-case word followed by a space, the first code unit starts the word, the others continue it, the space closes it, and nothing is trimmed. |
| Scenarios.JoinWords | ClassLibrary2/WordCounter.cs:59-93 | Lower-case ASCII words joined by single spaces segment back into exactly those words. |
| Scenarios.PatternTable | ClassLibrary2/WordCounter.cs:103-113 | Five words of distinct keys, in the test's pattern of 13 occurrences, tally to counts 1, 2, 3, 3, 4 in first-occurrence order. |
| Scenarios.TablePairs | ClassLibrary2/WordCounter.cs:95 | That table's pairs carry those counts, all below 13. |
| Scenarios.PatternLayout | ClassLibrary2/WordCounter.cs:143-175 | Those pairs are already in ascending order of count, so the sort leaves them as they are. |
| Scenarios.RankFive | ClassLibrary2/WordCounter.cs:96-99 | Up to six of five sorted pairs report all five words, the last first. |
| Scenarios.PatternRank | ClassLibrary2/WordCounter.cs:96-99 | The report of the test's table is its words in reverse first-occurrence order. |
| Scenarios.NamesDistinct | ClassLibrary2/WordCounter.cs:188 | "this", "is", "a", "basic" and "text" are lower case and fold to pairwise different keys. |
| Scenarios.TestScenario | ClassLibrary2/WordCounter.cs:186-190 | "this is a basic text is a basic text a basic text text" with 6 gives "text", "basic", "a", "is", "this". |

## Left out

- The Unicode category test (`char.GetUnicodeCategory`) and the comparer
  `StringComparer.CurrentCultureIgnoreCase` depend on tables and the current
  culture, outside the model.
  - Both are the parameters `isLetter` and `foldCase` of `Culture`.
  - Two spellings are equal keys when their folded forms are equal.
  - No other fact about the letter test is assumed. Where the apostrophe or
    the hyphen matters, the lemmas state what happens when it is not a letter.
  - The Japanese test is therefore not reproduced.
- The punctuation test at lines 195-196 is not reproduced as a concrete
  scenario. It needs a culture whose letters include ä, î and ô. The general
  lemmas cover its behaviour: `CloseWordTrim` for the trailing apostrophe of
  "childrens'" and "something'", and `RankTies` for "something" before
  "child's".
- Surrogate pairs are not decoded. Each UTF-16 code unit is classified on its
  own, as `documentText[i]` is in the source.
- `Dictionary` enumeration order is not modelled as a hash table. The entries
  are an insertion-ordered sequence, which is the order the dictionary
  enumerates in when nothing is removed. The tests rely on that order.
- The generic `CountingSort<T>` with `IKeyable` is modelled for the one type it
  is used with, `WordCountPair`.
- `Reverse`, `Take` and `Select` are modelled as eager operations. LINQ defers
  them until the result is enumerated. That does not change the words
  returned, and `CountingSort` itself runs before `IdentifyCommonWords`
  returns.
- Exceptions are outcomes: `InvalidArgument` for the `ArgumentException` and
  `IndexOutOfRange` for the array index error. A null document is `None`.
- 32-bit overflow of `totalWords` and of the counts is not modelled. It needs a
  document of more than 2^31 code units, which a .NET string cannot hold.
- The O(n) running-time claim and the test fixture `WordCounterTests` are not
  modelled. The fixture includes the two tests that download books over the
  network.
- WordCounter.CountWords: the three loop steps and the `AddWord` bookkeeping sit
  in lemmas and in the helper method `Count`. The single loop is kept, but its
  body calls these helpers instead of inlining the proof.
- Sorting.CountingSort: the three passes are the methods `CountKeys`,
  `PrefixSum` and `PlacePairs`, over the same `count` and `output` arrays that
  the source allocates.
- Word trimming follows the code: only one trailing non-letter code unit is
  dropped (lines 71-72 and 88-89), although the comment at line 138 speaks of
  apostrophes and hyphens in the middle of words. So "ab'' x" gives "ab'" and
  "x".

## Findings

| source | as written | input that shows it | evidently intended | confidence | as-written member | corrected member |
|---|---|---|---|---|---|---|
| ClassLibrary2/WordCounter.cs:149 | The count array has `totalNumItems` slots, one per key in `[0, totalWords)`. But a count can equal `totalWords`, and `count[val.Key]` at line 153 then indexes past the end. | "hello" with `numWords = 1`: one word, count 1, array of length 1. More generally, any document with exactly one distinct word. | `new int[totalNumItems + 1]`, so that every count from 0 to `totalWords` has a slot. | not executed | WordCounter.CommonWords, Scenarios.SingleWordOverflows, WordCounter.CommonWordsOutcome | WordCounter.CommonWordsCorrected, WordCounter.CorrectedNeverFails, WordCounter.CorrectedAgrees, WordCounter.CorrectedRanked |
