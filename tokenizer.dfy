/**
 * Word segmentation of the word counter, as a reference definition.
 *
 * `Words(c, d)` is the sequence of word occurrences, in the order the scanning
 * loop of `WordCounter.IdentifyCommonWords` emits them. It is written one word at
 * a time (find the end of the run, trim, emit), where the loop works one code unit
 * at a time; the loop is proved to agree with it.
 */
module Tokenizer {
  import opened CharClass

  /** The first index at or after `j` whose code unit does not continue a word,
      or `|d|` when the run reaches the end of the text. */
  function WordEnd(c: Culture, d: Text, j: nat): (e: nat)
    requires j <= |d|
    ensures j <= e <= |d|
    ensures forall m :: j <= m < e ==> ContinuesWord(c, d[m])
    ensures e < |d| ==> !ContinuesWord(c, d[e])
    decreases |d| - j
  {
    if j == |d| || !ContinuesWord(c, d[j]) then j else WordEnd(c, d, j + 1)
  }

  /** The word occupying `d[a..e]`, less its last code unit when that is not a
      letter (a trailing apostrophe or hyphen). Only ONE code unit is dropped. */
  function CloseWord(c: Culture, d: Text, a: nat, e: nat): Text
    requires a < e <= |d|
  {
    if IsValidWordStartOrEndCharacter(c, d[e - 1]) then d[a..e] else d[a..e - 1]
  }

  /** The word occurrences of `d`, in emission order. A word starts at a letter
      that is not an ideograph and runs through letters, apostrophes and hyphens;
      the code unit that ends it is dropped, unless it is an ideograph, which is
      then emitted as a word of its own right after. An ideograph outside a word
      is a word of its own; every other code unit is a separator. */
  function Words(c: Culture, d: Text): seq<Text>
    decreases |d|
  {
    if d == [] then []
    else if StartsWord(c, d[0]) then
      var e := WordEnd(c, d, 1);
      var w := CloseWord(c, d, 0, e);
      if e == |d| then [w]
      else [w] + (if IsSingleCharacterWord(c, d[e]) then [[d[e]]] else []) + Words(c, d[e + 1..])
    else if IsSingleCharacterWord(c, d[0]) then [[d[0]]] + Words(c, d[1..])
    else Words(c, d[1..])
  }

  /** A single-ideograph word. */
  predicate IsIdeographWord(c: Culture, w: Text) {
    |w| == 1 && IsSingleCharacterWord(c, w[0])
  }

  /** A multi-character-class word: starts with a non-ideograph letter, and every
      code unit is a letter, apostrophe or hyphen that is not an ideograph. */
  predicate IsRunWord(c: Culture, w: Text) {
    |w| >= 1 && StartsWord(c, w[0]) && forall m :: 0 <= m < |w| ==> ContinuesWord(c, w[m])
  }

  /** The ideographs of a text, in order. */
  function Ideographs(c: Culture, d: Text): seq<Char16>
  {
    if d == [] then [] else
      (if IsSingleCharacterWord(c, d[0]) then [d[0]] else []) + Ideographs(c, d[1..])
  }

  /** The ideograph words of a word sequence, as code units, in order. */
  function IdeographWords(c: Culture, ws: seq<Text>): seq<Char16>
  {
    if ws == [] then [] else
      (if IsIdeographWord(c, ws[0]) then [ws[0][0]] else []) + IdeographWords(c, ws[1..])
  }

  // ---------------------------------------------------------------------------
  // Steps of the scanning loop, stated on suffixes of the text.

  /** First index of the run that starts at `a` and is closed at `i`. */
  lemma WordEndAt(c: Culture, d: Text, a: nat, i: nat)
    requires a < |d| && a < i <= |d|
    requires forall m :: a < m < i ==> ContinuesWord(c, d[m])
    requires i < |d| ==> !ContinuesWord(c, d[i])
    ensures WordEnd(c, d[a..], 1) == i - a
  {
    var s := d[a..];
    assert forall m :: 1 <= m < i - a ==> ContinuesWord(c, s[m]) by {
      forall m | 1 <= m < i - a ensures ContinuesWord(c, s[m]) {
        assert s[m] == d[a + m];
      }
    }
    assert i - a < |s| ==> !ContinuesWord(c, s[i - a]);
  }

  /** A code unit outside a word that does not start one: an ideograph becomes
      a word, anything else is skipped. */
  lemma OutsideStep(c: Culture, d: Text, i: nat)
    requires i < |d| && !StartsWord(c, d[i])
    ensures Words(c, d[i..]) ==
              (if IsSingleCharacterWord(c, d[i]) then [[d[i]]] else []) + Words(c, d[i + 1..])
  {
    assert d[i..][1..] == d[i + 1..];
  }

  /** The run that started at `a` is closed by `d[i]`. */
  lemma CloseStep(c: Culture, d: Text, a: nat, i: nat)
    requires a < i < |d|
    requires StartsWord(c, d[a])
    requires forall m :: a < m < i ==> ContinuesWord(c, d[m])
    requires !ContinuesWord(c, d[i])
    ensures Words(c, d[a..]) ==
              [CloseWord(c, d, a, i)]
              + (if IsSingleCharacterWord(c, d[i]) then [[d[i]]] else [])
              + Words(c, d[i + 1..])
  {
    var s := d[a..];
    WordEndAt(c, d, a, i);
    var e := i - a;
    assert s[e] == d[i];
    assert s[e - 1] == d[i - 1];
    assert s[..e] == d[a..i];
    assert s[..e - 1] == d[a..i - 1];
    assert s[e + 1..] == d[i + 1..];
  }

  /** The run that started at `a` reaches the end of the text. */
  lemma EndStep(c: Culture, d: Text, a: nat)
    requires a < |d|
    requires StartsWord(c, d[a])
    requires forall m :: a < m < |d| ==> ContinuesWord(c, d[m])
    ensures Words(c, d[a..]) == [CloseWord(c, d, a, |d|)]
  {
    var s := d[a..];
    WordEndAt(c, d, a, |d|);
    assert s[0] == d[a];
    assert s[|s| - 1] == d[|d| - 1];
    assert s[0..|s|] == d[a..|d|];
    assert s[0..|s| - 1] == d[a..|d| - 1];
  }

  // ---------------------------------------------------------------------------
  // Properties of the segmentation.

  /** Every word is either a single ideograph or a non-empty run that starts with
      a non-ideograph letter and holds only letters, apostrophes and hyphens. */
  lemma {:induction false} WordShape(c: Culture, d: Text)
    ensures forall w :: w in Words(c, d) ==> IsIdeographWord(c, w) || IsRunWord(c, w)
    decreases |d|
  {
    if d == [] {
    } else if StartsWord(c, d[0]) {
      var e := WordEnd(c, d, 1);
      var w := CloseWord(c, d, 0, e);
      CloseWordIsRun(c, d, e);
      if e < |d| {
        var mid: seq<Text> := if IsSingleCharacterWord(c, d[e]) then [[d[e]]] else [];
        assert forall x :: x in mid ==> IsIdeographWord(c, x);
        WordShape(c, d[e + 1..]);
        assert Words(c, d) == [w] + mid + Words(c, d[e + 1..]);
      }
    } else {
      WordShape(c, d[1..]);
      assert Words(c, d) == (if IsSingleCharacterWord(c, d[0]) then [[d[0]]] else []) + Words(c, d[1..]);
    }
  }

  /** The word cut from a run that starts the text is a run word. */
  lemma CloseWordIsRun(c: Culture, d: Text, e: nat)
    requires 0 < e <= |d|
    requires StartsWord(c, d[0])
    requires forall m :: 1 <= m < e ==> ContinuesWord(c, d[m])
    ensures IsRunWord(c, CloseWord(c, d, 0, e))
  {
    var w := CloseWord(c, d, 0, e);
    CharClassesPartition(c, d[0]);
    assert w[0] == d[0];
    forall m | 0 <= m < |w| ensures ContinuesWord(c, w[m]) {
      assert w[m] == d[m];
    }
  }

  /** When the run closed at `e` ends with a code unit that is not a letter,
      exactly that one code unit is dropped; otherwise the whole run is kept. */
  lemma CloseWordTrim(c: Culture, d: Text, a: nat, e: nat)
    requires a < e <= |d|
    requires StartsWord(c, d[a])
    ensures c.isLetter(d[e - 1]) ==> CloseWord(c, d, a, e) == d[a..e]
    ensures !c.isLetter(d[e - 1]) ==> CloseWord(c, d, a, e) == d[a..e - 1] && |CloseWord(c, d, a, e)| >= 1
  {
  }

  lemma {:induction false} IdeographsAppend(c: Culture, a: Text, b: Text)
    ensures Ideographs(c, a + b) == Ideographs(c, a) + Ideographs(c, b)
    decreases |a|
  {
    if a == [] {
      assert a + b == b;
    } else {
      assert (a + b)[1..] == a[1..] + b;
      IdeographsAppend(c, a[1..], b);
    }
  }

  lemma {:induction false} IdeographWordsAppend(c: Culture, a: seq<Text>, b: seq<Text>)
    ensures IdeographWords(c, a + b) == IdeographWords(c, a) + IdeographWords(c, b)
    decreases |a|
  {
    if a == [] {
      assert a + b == b;
    } else {
      assert (a + b)[1..] == a[1..] + b;
      IdeographWordsAppend(c, a[1..], b);
    }
  }

  /** A run of continuing code units holds no ideograph. */
  lemma {:induction false} NoIdeographsInRun(c: Culture, d: Text)
    requires forall m :: 0 <= m < |d| ==> ContinuesWord(c, d[m])
    ensures Ideographs(c, d) == []
    decreases |d|
  {
    if d != [] {
      NoIdeographsInRun(c, d[1..]);
    }
  }

  /** Every ideograph of the text is emitted as a word of its own, in text order,
      and no other word is an ideograph word. */
  lemma {:induction false} EveryIdeographIsAWord(c: Culture, d: Text)
    ensures IdeographWords(c, Words(c, d)) == Ideographs(c, d)
    decreases |d|
  {
    if d == [] {
    } else if StartsWord(c, d[0]) {
      var e := WordEnd(c, d, 1);
      var w := CloseWord(c, d, 0, e);
      assert !IsIdeographWord(c, w) by {
        assert w[0] == d[0];
      }
      assert d == d[..e] + d[e..];
      IdeographsAppend(c, d[..e], d[e..]);
      NoIdeographsInRun(c, d[..e]) by {
        forall m | 0 <= m < e ensures ContinuesWord(c, d[..e][m]) {
          if m == 0 { CharClassesPartition(c, d[0]); }
        }
      }
      if e == |d| {
        assert d[..e] == d;
        assert Words(c, d) == [w];
      } else {
        var tail := Words(c, d[e + 1..]);
        var mid: seq<Text> := if IsSingleCharacterWord(c, d[e]) then [[d[e]]] else [];
        assert Words(c, d) == [w] + mid + tail;
        IdeographWordsAppend(c, [w], mid + tail);
        IdeographWordsAppend(c, mid, tail);
        assert d[e..][1..] == d[e + 1..];
        EveryIdeographIsAWord(c, d[e + 1..]);
      }
    } else {
      EveryIdeographIsAWord(c, d[1..]);
      if IsSingleCharacterWord(c, d[0]) {
        IdeographWordsAppend(c, [[d[0]]], Words(c, d[1..]));
      }
    }
  }
}
