/** A small Option type, used for the nullable document and for dictionary lookups. */
module Wrappers {
  datatype Option<+T> = None | Some(value: T)
}

/**
 * Character classification of the word counter.
 *
 * A .NET `char` is one UTF-16 code unit. Whether a code unit is a letter comes from
 * the runtime's Unicode category table and case-insensitive comparison from the
 * current culture; both are foreign to the model and are supplied as a `Culture`.
 */
module CharClass {
  /** One UTF-16 code unit (a .NET `char`). */
  type Char16 = c: int | 0 <= c < 0x1_0000

  /** A .NET string: a sequence of UTF-16 code units. */
  type Text = seq<Char16>

  const APOSTROPHE: Char16 := 0x27
  const HYPHEN: Char16 := 0x2D

  /** The two facts the model takes from the runtime:
      `isLetter(c)` holds when the Unicode category of `c` is Lu, Ll, Lt or Lo, and
      `foldCase` maps a string to the key under which the current culture's
      case-insensitive comparer considers it equal to others. */
  datatype Culture = Culture(isLetter: Char16 -> bool, foldCase: Text -> Text)

  /** The case-insensitive dictionary key of a word. */
  function Key(c: Culture, w: Text): Text {
    c.foldCase(w)
  }

  predicate IsCharInRange(ch: Char16, min: int, max: int) {
    ch >= min && ch <= max
  }

  /** A letter in the Unicode sense: may start or end a word. */
  predicate IsValidWordStartOrEndCharacter(c: Culture, ch: Char16) {
    c.isLetter(ch)
  }

  /** Letters, apostrophes and hyphens may stand inside a word. */
  predicate IsValidWordMiddleCharacter(c: Culture, ch: Char16) {
    IsValidWordStartOrEndCharacter(c, ch) || ch == APOSTROPHE || ch == HYPHEN
  }

  /** A CJK ideograph that is a letter is a word on its own. The Kanji range
      U+4E00..U+9FBF lies inside the CJK Unified range U+4E00..U+9FFF, so the
      class is exactly the letters of the wider range. */
  function IsSingleCharacterWord(c: Culture, ch: Char16): (r: bool)
    ensures r <==> c.isLetter(ch) && 0x4E00 <= ch <= 0x9FFF
  {
    var isKanji := IsCharInRange(ch, 0x4E00, 0x9FBF);
    var isCjkUnified := IsCharInRange(ch, 0x4E00, 0x9FFF);
    IsValidWordStartOrEndCharacter(c, ch) && (isKanji || isCjkUnified)
  }

  /** `isValidStartEndChar` of the scanning loop: a letter that is not an ideograph. */
  predicate StartsWord(c: Culture, ch: Char16) {
    IsValidWordStartOrEndCharacter(c, ch) && !IsSingleCharacterWord(c, ch)
  }

  /** `isValidMiddleChar` of the scanning loop: a middle character that is not an ideograph. */
  predicate ContinuesWord(c: Culture, ch: Char16) {
    IsValidWordMiddleCharacter(c, ch) && !IsSingleCharacterWord(c, ch)
  }

  /** The classes the scanner sees are nested and disjoint: every code unit is
      either an ideograph, a word-starting letter, a bare apostrophe or hyphen that
      only continues a word, or a separator. */
  lemma CharClassesPartition(c: Culture, ch: Char16)
    ensures StartsWord(c, ch) ==> ContinuesWord(c, ch)
    ensures IsSingleCharacterWord(c, ch) ==> !ContinuesWord(c, ch) && !StartsWord(c, ch)
    ensures ContinuesWord(c, ch) && !StartsWord(c, ch) <==>
              (ch == APOSTROPHE || ch == HYPHEN) && !c.isLetter(ch)
    ensures !ContinuesWord(c, ch) && !IsSingleCharacterWord(c, ch) <==>
              !c.isLetter(ch) && ch != APOSTROPHE && ch != HYPHEN
  {
  }
}
