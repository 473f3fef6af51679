/** The "is this already Chinese?" test that decides whether a selection is
    skipped (`isChineseText` in src/content/utils.ts). The source runs three
    regular expressions; each is modelled by a scan whose contract states the
    set of strings the expression accepts. */
module Classifier {
  import JsString

  /** Hiragana U+3040-309F, katakana U+30A0-30FF, half-width katakana U+FF66-FF9F:
      the character class of `hasJapanese`. */
  predicate IsKana(c: char) {
    var n := c as int;
    (0x3040 <= n <= 0x309F) || (0x30A0 <= n <= 0x30FF) || (0xFF66 <= n <= 0xFF9F)
  }

  /** CJK symbols and punctuation U+3000-303F and half/full-width forms
      U+FF00-FFEF: the character class of `chinesePunctuation`. */
  predicate IsCjkPunctuation(c: char) {
    var n := c as int;
    (0x3000 <= n <= 0x303F) || (0xFF00 <= n <= 0xFFEF)
  }

  /** CJK unified ideographs U+4E00-9FFF. */
  predicate IsHan(c: char) {
    0x4E00 <= c as int <= 0x9FFF
  }

  /** The marks listed one by one inside `chineseOnly`'s class; the quotes are
      the ASCII `"` and `'`. */
  const ExtraMarks: string := "，。！？、：；\"\"''（）"

  /** The character class of `chineseOnly`. */
  predicate IsAllowed(c: char) {
    IsHan(c) || IsCjkPunctuation(c) || JsString.IsJsWhitespace(c) || c in ExtraMarks
  }

  /** `hasJapanese.test(text)`: some character is kana. */
  function HasKana(text: string): (r: bool)
    ensures r <==> exists i :: 0 <= i < |text| && IsKana(text[i])
  {
    if text == [] then false
    else if IsKana(text[0]) then true
    else
      assert forall i :: 1 <= i < |text| ==> text[i] == text[1..][i - 1];
      HasKana(text[1..])
  }

  /** `chinesePunctuation.test(text)`: some character is CJK punctuation. */
  function HasCjkPunctuation(text: string): (r: bool)
    ensures r <==> exists i :: 0 <= i < |text| && IsCjkPunctuation(text[i])
  {
    if text == [] then false
    else if IsCjkPunctuation(text[0]) then true
    else
      assert forall i :: 1 <= i < |text| ==> text[i] == text[1..][i - 1];
      HasCjkPunctuation(text[1..])
  }

  /** Every character of `text` is in `chineseOnly`'s class. */
  function AllAllowed(text: string): (r: bool)
    ensures r <==> forall i :: 0 <= i < |text| ==> IsAllowed(text[i])
  {
    if text == [] then true
    else if !IsAllowed(text[0]) then false
    else
      assert forall i :: 1 <= i < |text| ==> text[i] == text[1..][i - 1];
      AllAllowed(text[1..])
  }

  /** `chineseOnly.test(text)`: anchored at both ends and with `+`, so the text
      is non-empty and made only of allowed characters. */
  predicate ChineseOnly(text: string) {
    text != [] && AllAllowed(text)
  }

  /** `isChineseText`: the kana test runs first and answers `false` on its
      own; otherwise both remaining tests must hold. */
  predicate IsChineseText(text: string)
    ensures IsChineseText(text) ==> |text| > 0 && forall i :: 0 <= i < |text| ==> !IsKana(text[i])
  {
    if HasKana(text) then false
    else HasCjkPunctuation(text) && ChineseOnly(text)
  }

  /** The whole classifier as one statement: no kana, at least one CJK or
      full-width punctuation character, and every character allowed. */
  lemma IsChineseTextIff(text: string)
    ensures IsChineseText(text) <==>
      && (forall i :: 0 <= i < |text| ==> !IsKana(text[i]))
      && (exists i :: 0 <= i < |text| && IsCjkPunctuation(text[i]))
      && (forall i :: 0 <= i < |text| ==> IsAllowed(text[i]))
  {
  }

  /** A single kana character anywhere makes the text not Chinese. */
  lemma KanaMeansNotChinese(text: string, i: nat)
    requires i < |text| && IsKana(text[i])
    ensures !IsChineseText(text)
  {
  }

  /** Half-width katakana is both punctuation-block and allowed, yet the kana
      test, which runs first, still rejects it. */
  lemma HalfWidthKatakanaRejected(text: string, i: nat)
    requires i < |text| && 0xFF66 <= text[i] as int <= 0xFF9F
    ensures IsCjkPunctuation(text[i]) && IsAllowed(text[i])
    ensures !IsChineseText(text)
  {
  }

  /** Without a punctuation character the text is not Chinese, even when
      every character is Han. */
  lemma NoPunctuationMeansNotChinese(text: string)
    requires forall i :: 0 <= i < |text| ==> !IsCjkPunctuation(text[i])
    ensures !IsChineseText(text)
  {
  }

  /** A character outside the allowed set (an ASCII letter, say) makes the
      text not Chinese. */
  lemma DisallowedCharMeansNotChinese(text: string, i: nat)
    requires i < |text| && !IsAllowed(text[i])
    ensures !IsChineseText(text)
  {
  }

  /** ASCII letters are outside the allowed set. */
  lemma AsciiLetterNotAllowed(c: char)
    requires 'a' <= c <= 'z' || 'A' <= c <= 'Z'
    ensures !IsAllowed(c)
  {
    assert forall k :: 0 <= k < |ExtraMarks| ==> ExtraMarks[k] != c;
  }

  /** The empty selection is not Chinese. */
  lemma EmptyNotChinese()
    ensures !IsChineseText("")
  {
  }

  /** Han text with a Chinese full stop is classified Chinese. */
  lemma HanWithFullStopIsChinese()
    ensures IsChineseText("你好。")
  {
    var t := "你好。";
    assert IsCjkPunctuation(t[2]);
    assert !IsKana(t[0]) && !IsKana(t[1]) && !IsKana(t[2]);
    assert IsAllowed(t[0]) && IsAllowed(t[1]) && IsAllowed(t[2]);
  }
}
