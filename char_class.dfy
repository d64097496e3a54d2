/**
 * The character classifier of the caret listener: which UTF-16 code units
 * count as Arabic, as English, and as whitespace (skipped by the scan).
 */
module CharClass {

  /** A Kotlin `Char`: one UTF-16 code unit, surrogates included. */
  type Char16 = c: int | 0 <= c < 0x1_0000

  const Space: Char16 := 0x20

  /** The script a detected character belongs to. */
  datatype Script = Arabic | English | Neutral

  /**
   * Kotlin's `Char.isWhitespace` on the JVM: `Character.isWhitespace` or
   * `Character.isSpaceChar`, that is the Unicode categories Zs, Zl and Zp
   * (Unicode 15, the data of the JDK 21 runtime the plugin targets) and the
   * control characters U+0009..U+000D and U+001C..U+001F.
   */
  predicate IsWhitespace(c: Char16) {
    (0x09 <= c <= 0x0D) || (0x1C <= c <= 0x1F) || c == 0x20 || c == 0xA0
    || c == 0x1680 || (0x2000 <= c <= 0x200A) || c == 0x2028 || c == 0x2029
    || c == 0x202F || c == 0x205F || c == 0x3000
  }

  /** `isArabic`: the Arabic block, its Supplement, Extended-A and Presentation Forms A and B. */
  predicate IsArabic(c: Char16) {
    (0x0600 <= c <= 0x06FF) || (0x0750 <= c <= 0x077F) || (0x08A0 <= c <= 0x08FF)
    || (0xFB50 <= c <= 0xFDFF) || (0xFE70 <= c <= 0xFEFF)
  }

  /** `isEnglish`: an ASCII letter. */
  predicate IsEnglish(c: Char16) {
    ('a' as int <= c <= 'z' as int) || ('A' as int <= c <= 'Z' as int)
  }

  /** The listener's test order: Arabic first, then English, otherwise neutral. */
  function Classify(c: Char16): (s: Script)
    ensures s == Arabic <==> IsArabic(c)
    ensures s == English <==> IsEnglish(c)
    ensures s == Neutral <==> !IsArabic(c) && !IsEnglish(c)
  {
    if IsArabic(c) then Arabic else if IsEnglish(c) then English else Neutral
  }

  /** No character is both Arabic and English, so testing English first would classify the same. */
  lemma ArabicEnglishDisjoint(c: Char16)
    ensures !(IsArabic(c) && IsEnglish(c))
    ensures Classify(c) == (if IsEnglish(c) then English else if IsArabic(c) then Arabic else Neutral)
  {
  }

  /** The scan never skips a letter it could classify: Arabic and English characters are not whitespace. */
  lemma ScriptCharsAreNotWhitespace(c: Char16)
    ensures IsArabic(c) ==> !IsWhitespace(c)
    ensures IsEnglish(c) ==> !IsWhitespace(c)
  {
  }
}
