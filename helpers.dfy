/** Post-processing of a full-paragraph translation and the pop-up width rule
    (src/content/helpers.ts). */
module Helpers {
  import opened Wrappers
  import opened JsString

  /** `calculateWidthFromCharCount`: the pop-up width in pixels for a given
      number of characters, in five bands. */
  function CalculateWidthFromCharCount(charCount: int): (width: int)
    ensures width in {250, 280, 320, 368, 400}
    ensures 250 <= width <= 400
  {
    if charCount <= 100 then 250
    else if charCount <= 200 then 280
    else if charCount <= 300 then 320
    else if charCount <= 400 then 368
    else 400
  }

  /** Longer content never gets a narrower box. */
  lemma WidthMonotone(a: int, b: int)
    requires a <= b
    ensures CalculateWidthFromCharCount(a) <= CalculateWidthFromCharCount(b)
  {
  }

  /** The band edges: up to 100 (negative counts included) gives 250, 101-200
      gives 280, 201-300 gives 320, 301-400 gives 368, beyond that 400. */
  lemma WidthBands(n: int)
    ensures n <= 100 ==> CalculateWidthFromCharCount(n) == 250
    ensures 100 < n <= 200 ==> CalculateWidthFromCharCount(n) == 280
    ensures 200 < n <= 300 ==> CalculateWidthFromCharCount(n) == 320
    ensures 300 < n <= 400 ==> CalculateWidthFromCharCount(n) == 368
    ensures 400 < n ==> CalculateWidthFromCharCount(n) == 400
  {
  }

  /** What the `for await` loop builds: the non-empty chunks, in order. */
  function Accumulated(chunks: seq<string>): string {
    if chunks == [] then ""
    else
      var last := chunks[|chunks| - 1];
      Accumulated(chunks[..|chunks| - 1]) + (if last != "" then last else "")
  }

  /** Plain concatenation of all chunks. */
  function Concat(chunks: seq<string>): string {
    if chunks == [] then "" else chunks[0] + Concat(chunks[1..])
  }

  lemma {:induction false} ConcatSnoc(chunks: seq<string>, c: string)
    ensures Concat(chunks + [c]) == Concat(chunks) + c
  {
    if chunks != [] {
      assert (chunks + [c])[1..] == chunks[1..] + [c];
      ConcatSnoc(chunks[1..], c);
    }
  }

  /** Skipping empty chunks changes nothing: the accumulation is the in-order
      concatenation of every chunk. */
  lemma {:induction false} AccumulatedIsConcat(chunks: seq<string>)
    ensures Accumulated(chunks) == Concat(chunks)
  {
    if chunks != [] {
      var init := chunks[..|chunks| - 1];
      AccumulatedIsConcat(init);
      ConcatSnoc(init, chunks[|chunks| - 1]);
      assert init + [chunks[|chunks| - 1]] == chunks;
    }
  }

  /** `s.split(pat)[0]`: everything before the first occurrence, or all of `s`. */
  function BeforeFirst(s: string, pat: string): (r: string)
    ensures |r| <= |s| && r == s[..|r|]
  {
    match IndexOf(s, pat)
    case Some(i) => s[..i]
    case None => s
  }

  /** Everything after the first occurrence (empty when there is none). */
  function AfterFirst(s: string, pat: string): (r: string)
    ensures |r| <= |s|
  {
    match IndexOf(s, pat)
    case Some(i) => s[i + |pat|..]
    case None => ""
  }

  /** `s.split(pat)[1]` when `s` includes `pat`: the text between the first and
      the second occurrence, or to the end. */
  function SecondPiece(s: string, pat: string): string {
    BeforeFirst(AfterFirst(s, pat), pat)
  }

  /** The part before the first occurrence never contains the pattern. */
  lemma BeforeFirstExcludes(s: string, pat: string)
    requires pat != []
    ensures !Includes(BeforeFirst(s, pat), pat)
  {
    var b := BeforeFirst(s, pat);
    forall j: nat | OccursAt(b, pat, j)
      ensures OccursAt(s, pat, j)
    {
      assert b[j..j + |pat|] == s[j..j + |pat|];
    }
  }

  const HtmlFence := "```html"
  const Fence := "```"

  /** The clean-up after accumulation: trim, then take the body of a
      "```html" block, or else of a "```" block. */
  function CleanResponse(accumulated: string): (r: string)
    ensures |r| <= |accumulated|
  {
    var t := Trim(accumulated);
    if Includes(t, HtmlFence) then Trim(BeforeFirst(SecondPiece(t, HtmlFence), Fence))
    else if Includes(t, Fence) then Trim(BeforeFirst(SecondPiece(t, Fence), Fence))
    else t
  }

  /** Without any fence the result is the trimmed accumulation. */
  lemma CleanWithoutFence(accumulated: string)
    requires !Includes(Trim(accumulated), Fence)
    ensures CleanResponse(accumulated) == Trim(accumulated)
  {
    HtmlFenceHasFence(Trim(accumulated));
  }

  /** A "```html" fence contains a plain one. */
  lemma HtmlFenceHasFence(t: string)
    ensures Includes(t, HtmlFence) ==> Includes(t, Fence)
  {
    if Includes(t, HtmlFence) {
      var i := IndexOf(t, HtmlFence).value;
      assert t[i..i + 3] == t[i..i + 7][..3];
      IncludesIff(t, Fence, i);
    }
  }

  /** With an "```html" fence the result is the trimmed text of a stretch
      that starts right after the first "```html", holds no "```", and stops
      at a "```" or at the end of the text; so the result contains no "```"
      itself. */
  lemma CleanWithHtmlFence(accumulated: string)
    requires Includes(Trim(accumulated), HtmlFence)
    ensures var t := Trim(accumulated);
      var start := IndexOf(t, HtmlFence).value + |HtmlFence|;
      exists end :: && start <= end <= |t| && !Includes(t[start..end], Fence)
                    && (end == |t| || OccursAt(t, Fence, end))
                    && CleanResponse(accumulated) == Trim(t[start..end])
    ensures !Includes(CleanResponse(accumulated), Fence)
  {
    var t := Trim(accumulated);
    var body := BeforeFirst(SecondPiece(t, HtmlFence), Fence);
    CutIsStretch(t);
    BeforeFirstExcludes(SecondPiece(t, HtmlFence), Fence);
    NoFenceAfterCut(SecondPiece(t, HtmlFence));
    assert CleanResponse(accumulated) == Trim(body);
  }

  /** The text cut at the first "```" after the first "```html" is the
      stretch of `t` that starts right after that "```html" and stops at a
      "```" or at the end of `t`. */
  lemma CutIsStretch(t: string)
    requires Includes(t, HtmlFence)
    ensures var start := IndexOf(t, HtmlFence).value + |HtmlFence|;
      var body := BeforeFirst(SecondPiece(t, HtmlFence), Fence);
      && start + |body| <= |t| && t[start..start + |body|] == body
      && (start + |body| == |t| || OccursAt(t, Fence, start + |body|))
  {
    var start := IndexOf(t, HtmlFence).value + |HtmlFence|;
    var after := AfterFirst(t, HtmlFence);
    assert after == t[start..];
    var body := BeforeFirst(SecondPiece(t, HtmlFence), Fence);
    assert body == after[..|body|];
    StretchEnds(after);
    if |body| < |after| {
      OccursInSuffix(t, start, Fence, |body|);
    }
  }

  /** Inside the text after the first "```html", the cut stops at a "```"
      or at the end. */
  lemma StretchEnds(a: string)
    ensures var body := BeforeFirst(BeforeFirst(a, HtmlFence), Fence);
      |body| == |a| || OccursAt(a, Fence, |body|)
  {
    var p := BeforeFirst(a, HtmlFence);
    var body := BeforeFirst(p, Fence);
    CutEnds(p, Fence);
    PieceEnds(a);
    if |body| < |p| {
      assert a[|body|..|body| + 3] == p[|body|..|body| + 3];
    }
  }

  /** An occurrence in a suffix of `t` is an occurrence in `t`. */
  lemma OccursInSuffix(t: string, start: nat, pat: string, i: nat)
    requires start <= |t| && OccursAt(t[start..], pat, i)
    ensures OccursAt(t, pat, start + i)
  {
    assert t[start + i..start + i + |pat|] == t[start..][i..i + |pat|];
  }

  /** The part before the first occurrence of `pat` ends at that occurrence,
      or at the end when there is none. */
  lemma CutEnds(s: string, pat: string)
    ensures var b := BeforeFirst(s, pat);
      |b| == |s| || OccursAt(s, pat, |b|)
  {
  }

  /** The part before the first "```html" ends at a "```" or at the end. */
  lemma PieceEnds(a: string)
    ensures var p := BeforeFirst(a, HtmlFence);
      |p| == |a| || OccursAt(a, Fence, |p|)
  {
    var p := BeforeFirst(a, HtmlFence);
    CutEnds(a, HtmlFence);
    if |p| < |a| {
      var j := |p|;
      assert a[j..j + 3] == a[j..j + 7][..3];
    }
  }

  /** With only a plain "```" fence the result is the trimmed text between the
      first and the second "```" (or to the end), and contains no "```". */
  lemma CleanWithPlainFence(accumulated: string)
    requires !Includes(Trim(accumulated), HtmlFence) && Includes(Trim(accumulated), Fence)
    ensures var t := Trim(accumulated);
      CleanResponse(accumulated) == Trim(BeforeFirst(AfterFirst(t, Fence), Fence))
    ensures !Includes(CleanResponse(accumulated), Fence)
  {
    var s := AfterFirst(Trim(accumulated), Fence);
    BeforeFirstExcludes(s, Fence);
    BeforeFirstNoop(BeforeFirst(s, Fence), Fence);
    NoFenceAfterCut(SecondPiece(Trim(accumulated), Fence));
  }

  /** Cutting at the first fence and trimming leaves no fence. */
  lemma NoFenceAfterCut(s: string)
    ensures !Includes(Trim(BeforeFirst(s, Fence)), Fence)
  {
    var b := BeforeFirst(s, Fence);
    BeforeFirstExcludes(s, Fence);
    var i := TrimIsSlice(b);
    NotIncludedInSlice(b, Fence, i, i + |Trim(b)|);
  }

  /** Cutting a string that lacks the pattern changes nothing. */
  lemma BeforeFirstNoop(s: string, pat: string)
    requires !Includes(s, pat)
    ensures BeforeFirst(s, pat) == s
  {
  }

  /** `getTranslatedHTML` after the request: accumulate the streamed chunks,
      then trim and strip a code fence. */
  method GetTranslatedHtml(stream: seq<string>) returns (translatedHtml: string)
    ensures translatedHtml == CleanResponse(Concat(stream))
  {
    translatedHtml := "";
    var i := 0;
    while i < |stream|
      invariant 0 <= i <= |stream|
      invariant translatedHtml == Accumulated(stream[..i])
    {
      var chunk := stream[i];
      if chunk != "" {
        translatedHtml := translatedHtml + chunk;
      }
      assert stream[..i + 1][..i] == stream[..i];
      i := i + 1;
    }
    assert stream[..i] == stream;
    AccumulatedIsConcat(stream);
    translatedHtml := Trim(translatedHtml);
    if Includes(translatedHtml, HtmlFence) {
      translatedHtml := Trim(BeforeFirst(SecondPiece(translatedHtml, HtmlFence), Fence));
    } else if Includes(translatedHtml, Fence) {
      translatedHtml := Trim(BeforeFirst(SecondPiece(translatedHtml, Fence), Fence));
    }
  }
}
