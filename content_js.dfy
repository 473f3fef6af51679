/** The self-contained content script src/content/content.js: the 1500 ms
    selection timer, the two caches that decide between reusing a translation
    paragraph and replacing it, the streamed translation loop, the highlight
    splice and `escapeRegExp`. Network replies are inputs: the reply that
    names the matching words, the reply with the meaning, and the streamed
    body (`None` when the request or the read fails). */
module LegacyContent {
  import opened Wrappers
  import opened JsString
  import Api
  import Helpers
  import Dom
  import opened SelectionTimer

  /* ---------------------------------------------------------------------
     escapeRegExp
     --------------------------------------------------------------------- */

  /** The characters of the class `[.*+?^${}()|[\]\\]`. */
  const RegExpSpecials: string := ".*+?^${}()|[]\\"

  predicate IsRegExpSpecial(c: char) {
    c in RegExpSpecials
  }

  /** The number of special characters in `s`. */
  function CountSpecials(s: string): (n: nat)
    ensures n <= |s|
  {
    if s == [] then 0 else (if IsRegExpSpecial(s[0]) then 1 else 0) + CountSpecials(s[1..])
  }

  /** `escapeRegExp`: every special character gets a backslash in front of
      it (`'\\$&'`); every other character is copied. */
  function EscapeRegExp(s: string): (r: string)
    ensures |r| == |s| + CountSpecials(s)
  {
    if s == [] then []
    else (if IsRegExpSpecial(s[0]) then ['\\', s[0]] else [s[0]]) + EscapeRegExp(s[1..])
  }

  /** Drops each backslash and keeps the character after it. */
  function Unescape(r: string): string {
    if r == [] then []
    else if r[0] == '\\' && |r| >= 2 then [r[1]] + Unescape(r[2..])
    else [r[0]] + Unescape(r[1..])
  }

  /** Deleting the inserted backslashes gives the input back. */
  lemma {:induction false} UnescapeEscape(s: string)
    ensures Unescape(EscapeRegExp(s)) == s
  {
    if s != [] {
      UnescapeEscape(s[1..]);
      var r := EscapeRegExp(s);
      if IsRegExpSpecial(s[0]) {
        assert r[2..] == EscapeRegExp(s[1..]);
      } else {
        assert s[0] != '\\';
        assert r[1..] == EscapeRegExp(s[1..]);
      }
      assert [s[0]] + s[1..] == s;
    }
  }

  /** Escaping works piece by piece, in order: the escape of a
      concatenation is the concatenation of the escapes. */
  lemma {:induction false} EscapeAppend(a: string, b: string)
    ensures EscapeRegExp(a + b) == EscapeRegExp(a) + EscapeRegExp(b)
  {
    if a == [] {
      assert a + b == b;
    } else {
      var head := if IsRegExpSpecial(a[0]) then ['\\', a[0]] else [a[0]];
      assert (a + b)[0] == a[0] && (a + b)[1..] == a[1..] + b;
      EscapeAppend(a[1..], b);
      calc {
        EscapeRegExp(a + b);
        head + EscapeRegExp(a[1..] + b);
        head + (EscapeRegExp(a[1..]) + EscapeRegExp(b));
        (head + EscapeRegExp(a[1..])) + EscapeRegExp(b);
        EscapeRegExp(a) + EscapeRegExp(b);
      }
    }
  }

  /** A single character is prefixed with a backslash exactly when it is
      special. */
  lemma EscapeChar(c: char)
    ensures EscapeRegExp([c]) == if IsRegExpSpecial(c) then ['\\', c] else [c]
  {
    assert [c][1..] == [];
  }

  /* ---------------------------------------------------------------------
     findAndHighlightTranslation
     --------------------------------------------------------------------- */

  const HighlightOpen := "<span class=\"highlighted\">"
  const HighlightClose := "</span>"

  /** The text around the highlighted words. */
  datatype Splice = Splice(before: string, after: string)

  /** The cut the highlight makes. The pattern is the escaped matched text,
      which matches that text literally, so `match` finds its first
      occurrence; an empty reply highlights nothing. */
  function HighlightSplice(translationText: string, matchedText: string): (r: Option<Splice>)
    ensures r.Some? <==> matchedText != "" && Includes(translationText, matchedText)
    ensures r.Some? ==> r.value.before + matchedText + r.value.after == translationText
    ensures r.Some? ==> forall j :: 0 <= j < |r.value.before| ==> !OccursAt(translationText, matchedText, j)
  {
    if matchedText == "" then None
    else match IndexOf(translationText, matchedText)
      case None => None
      case Some(i) =>
        var t := translationText;
        assert t[..i] + t[i..i + |matchedText|] + t[i + |matchedText|..] == t;
        Some(Splice(t[..i], t[i + |matchedText|..]))
  }

  /** A translation paragraph: its `innerHTML` and its `textContent`. The
      strings the script assigns as content are taken to be plain text, so
      such an assignment sets both to the same value. */
  datatype Paragraph = Paragraph(html: string, text: string)

  function Showing(s: string): Paragraph {
    Paragraph(s, s)
  }

  /** The paragraph after the highlight: the matched words wrapped in a
      highlighted span, or the paragraph as it was when there is no match. */
  function Highlight(p: Paragraph, matchedText: string): (q: Paragraph)
    ensures q.text == p.text
    ensures HighlightSplice(p.text, matchedText).None? ==> q == p
  {
    match HighlightSplice(p.text, matchedText)
    case None => p
    case Some(sp) => Paragraph(sp.before + HighlightOpen + matchedText + HighlightClose + sp.after,
                               sp.before + matchedText + sp.after)
  }

  /** `innerHTML += '<br><br>' + meaningText`. */
  function AppendMeaning(p: Paragraph, meaningText: string): (q: Paragraph)
    ensures |p.html| <= |q.html| && q.html[..|p.html|] == p.html
    ensures |p.text| <= |q.text| && q.text[..|p.text|] == p.text
    ensures q.text[|p.text|..] == meaningText
  {
    Paragraph(p.html + "<br><br>" + meaningText, p.text + meaningText)
  }

  /* ---------------------------------------------------------------------
     The selection timer
     --------------------------------------------------------------------- */

  /** The timer slot after a mouseup: always cleared first, then re-armed
      with the trimmed text unless that is empty. */
  function AfterMouseUp(selectionText: string, now: int): (t: Option<Armed>)
    ensures t.None? <==> Trim(selectionText) == ""
    ensures t.Some? ==> t.value == Armed(Trim(selectionText), now + SelectionDelay)
  {
    if Trim(selectionText) == "" then None else Some(Armed(Trim(selectionText), now + SelectionDelay))
  }

  /** The timer slot after a run of mouseups. */
  function TimerAfter(pending: Option<Armed>, events: seq<MouseUp>): (t: Option<Armed>)
    ensures events != [] ==>
      (t.None? <==> AfterMouseUp(events[|events| - 1].selectionText, events[|events| - 1].time).None?)
    ensures events == [] ==> t == pending
    decreases |events|
  {
    if events == [] then pending
    else
      var first := AfterMouseUp(events[0].selectionText, events[0].time);
      var rest := events[1..];
      assert rest != [] ==> rest[|rest| - 1] == events[|events| - 1];
      TimerAfter(first, rest)
  }

  /** Only the last mouseup of a burst matters: an empty last selection
      cancels whatever was pending, a non-empty one arms a fresh 1500 ms
      timer. */
  lemma {:induction false} LastMouseUpDecides(pending: Option<Armed>, events: seq<MouseUp>)
    requires events != []
    ensures var last := events[|events| - 1];
      TimerAfter(pending, events) == AfterMouseUp(last.selectionText, last.time)
    decreases |events|
  {
    if |events| > 1 {
      LastMouseUpDecides(AfterMouseUp(events[0].selectionText, events[0].time), events[1..]);
    }
  }

  /* ---------------------------------------------------------------------
     The streamed translation
     --------------------------------------------------------------------- */

  /** The running translations: after the k-th delta, the first k deltas
      concatenated. */
  function Prefixes(deltas: seq<string>): (r: seq<string>)
    ensures |r| == |deltas|
  {
    if deltas == [] then [] else Prefixes(deltas[..|deltas| - 1]) + [Helpers.Concat(deltas)]
  }

  lemma PrefixesSnoc(deltas: seq<string>, d: string)
    ensures Prefixes(deltas + [d]) == Prefixes(deltas) + [Helpers.Concat(deltas + [d])]
  {
    assert (deltas + [d])[..|deltas|] == deltas;
  }

  lemma {:induction false} ConcatAppend(a: seq<string>, b: seq<string>)
    ensures Helpers.Concat(a + b) == Helpers.Concat(a) + Helpers.Concat(b)
  {
    if a != [] {
      assert (a + b)[1..] == a[1..] + b;
      ConcatAppend(a[1..], b);
    } else {
      assert a + b == b;
    }
  }

  /** Every text the paragraph shows while streaming is the concatenation
      of the deltas so far, hence a prefix of the final translation, and
      the last one is the final translation. */
  lemma {:induction false} ShownArePrefixes(deltas: seq<string>)
    ensures forall k :: 0 <= k < |deltas| ==> Prefixes(deltas)[k] == Helpers.Concat(deltas[..k + 1])
    ensures forall k :: 0 <= k < |deltas| ==>
      Prefixes(deltas)[k] <= Helpers.Concat(deltas)
    ensures |deltas| > 0 ==> Prefixes(deltas)[|deltas| - 1] == Helpers.Concat(deltas)
  {
    if deltas != [] {
      var init := deltas[..|deltas| - 1];
      ShownArePrefixes(init);
      forall k | 0 <= k < |deltas|
        ensures Prefixes(deltas)[k] == Helpers.Concat(deltas[..k + 1])
        ensures Prefixes(deltas)[k] <= Helpers.Concat(deltas)
      {
        if k < |init| {
          assert init[..k + 1] == deltas[..k + 1];
        } else {
          assert deltas[..k + 1] == deltas;
        }
        assert deltas == deltas[..k + 1] + deltas[k + 1..];
        ConcatAppend(deltas[..k + 1], deltas[k + 1..]);
      }
    }
  }

  /** With non-empty deltas, nothing is shown exactly when the translation
      stays empty. */
  lemma NothingShownIffEmpty(deltas: seq<string>)
    requires forall k :: 0 <= k < |deltas| ==> deltas[k] != ""
    ensures deltas == [] <==> Helpers.Concat(deltas) == ""
  {
  }

  /** The `for` loop over one chunk's deltas: each delta is appended to the
      translation, and the paragraph is set to the text so far. */
  method ShowDeltas(text: string, shown: seq<string>, ghost done: seq<string>, deltas: seq<string>)
    returns (newText: string, newShown: seq<string>)
    requires text == Helpers.Concat(done) && shown == Prefixes(done)
    ensures newText == Helpers.Concat(done + deltas) && newShown == Prefixes(done + deltas)
  {
    newText, newShown := text, shown;
    var j := 0;
    assert done + deltas[..0] == done;
    while j < |deltas|
      invariant 0 <= j <= |deltas|
      invariant newText == Helpers.Concat(done + deltas[..j])
      invariant newShown == Prefixes(done + deltas[..j])
    {
      ghost var sofar := done + deltas[..j];
      assert sofar + [deltas[j]] == done + deltas[..j + 1];
      Helpers.ConcatSnoc(sofar, deltas[j]);
      PrefixesSnoc(sofar, deltas[j]);
      newText := newText + deltas[j];
      newShown := newShown + [newText];
      j := j + 1;
    }
    assert deltas[..j] == deltas;
  }

  /** The `while (true)` read loop of the translation request: the final
      translation is every truthy delta of the body's `data:` lines in
      order, and `shown` is the sequence of texts the paragraph displays. */
  method StreamTranslation(chunks: seq<string>, parse: string -> Option<string>)
    returns (translationText: string, shown: seq<string>)
    ensures translationText == Helpers.Concat(Api.StreamFragments(chunks, parse))
    ensures shown == Prefixes(Api.StreamFragments(chunks, parse))
  {
    translationText, shown := "", [];
    var i := 0;
    while i < |chunks|
      invariant 0 <= i <= |chunks|
      invariant translationText == Helpers.Concat(Api.StreamFragments(chunks[..i], parse))
      invariant shown == Prefixes(Api.StreamFragments(chunks[..i], parse))
    {
      var deltas := Api.EnqueueChunk(chunks[i], parse);
      Api.StreamFragmentsStep(chunks, i, parse);
      translationText, shown := ShowDeltas(translationText, shown, Api.StreamFragments(chunks[..i], parse), deltas);
      i := i + 1;
    }
    assert chunks[..i] == chunks;
  }

  /* ---------------------------------------------------------------------
     The translation caches
     --------------------------------------------------------------------- */

  const TranslatingText := "正在翻译..."
  const FailureText := "翻译失败，请重试"

  /** The record kept per paragraph id (the `TranslationMapValue` shape). */
  datatype TranslationMapValue = TranslationMapValue(originalText: string, translationText: string)

  /** The module-level state the timer callback works on:
      `translatedParagraphs` maps a target node (by its key) to its
      translation paragraph (an index into `paragraphs`), and
      `translationMap` maps a node's `id` attribute to its record. */
  datatype Cache = Cache(translatedParagraphs: map<nat, nat>,
                         translationMap: map<string, TranslationMapValue>,
                         paragraphs: seq<Paragraph>)

  /** Every mapped node has a paragraph. */
  predicate CacheValid(c: Cache) {
    forall k :: k in c.translatedParagraphs ==> c.translatedParagraphs[k] < |c.paragraphs|
  }

  /** The reuse condition: the node already has a paragraph, and the record
      under its id holds a non-empty original text that includes the
      selection. */
  predicate Reuses(c: Cache, node: Dom.Node, selectedText: string)
    ensures Reuses(c, node, selectedText) ==>
      node.id in c.translationMap && |selectedText| <= |c.translationMap[node.id].originalText|
  {
    && node.key in c.translatedParagraphs
    && node.id in c.translationMap
    && c.translationMap[node.id].originalText != ""
    && Includes(c.translationMap[node.id].originalText, selectedText)
  }

  /** What the paragraph shows once the stream has ended: the translation,
      or the placeholder when no delta arrived. */
  function FinalDisplay(translationText: string): string {
    if translationText == "" then TranslatingText else translationText
  }

  /** The reuse path on the caches: the node's paragraph is highlighted
      and gains the meaning. `meaning` is `None` when the meaning reply
      carries no `choices` (an HTTP error reply): reading
      `choices[0].message.content` then throws, and the paragraph keeps only
      the highlight, which was requested before. */
  function Reused(c: Cache, node: Dom.Node, matchedText: string, meaning: Option<string>): (r: Cache)
    requires CacheValid(c) && node.key in c.translatedParagraphs
    ensures CacheValid(r)
    ensures r.translatedParagraphs == c.translatedParagraphs && r.translationMap == c.translationMap
    ensures |r.paragraphs| == |c.paragraphs|
  {
    var p := c.translatedParagraphs[node.key];
    var highlighted := Highlight(c.paragraphs[p], matchedText);
    c.(paragraphs := c.paragraphs[p := if meaning.Some? then AppendMeaning(highlighted, meaning.value) else highlighted])
  }

  /** The replace path on the caches: the node's old paragraph, if any, is
      reset to the placeholder; a new paragraph is appended and takes the
      node's entry; it ends with the translation and a record under the
      node's id, or with the failure text and no record. A target that is
      not an element makes `getComputedStyle` throw right after the reset,
      before any paragraph is created. */
  function Replaced(c: Cache, node: Dom.Node, selectedText: string,
                    body: Option<seq<string>>, parse: string -> Option<string>): (r: Cache)
    requires CacheValid(c)
    ensures CacheValid(r)
    ensures node.nodeType != Dom.ElementNode ==>
      && |r.paragraphs| == |c.paragraphs|
      && r.translatedParagraphs == c.translatedParagraphs
      && r.translationMap == c.translationMap
    ensures node.nodeType == Dom.ElementNode ==>
      && |r.paragraphs| == |c.paragraphs| + 1
      && r.translatedParagraphs == c.translatedParagraphs[node.key := |c.paragraphs|]
      && (body.None? ==> r.translationMap == c.translationMap)
      && (body.Some? ==> node.id in r.translationMap && r.translationMap[node.id].originalText == selectedText)
  {
    var reset := if node.key in c.translatedParagraphs
      then c.paragraphs[c.translatedParagraphs[node.key] := Showing(TranslatingText)]
      else c.paragraphs;
    var index := |reset|;
    if node.nodeType != Dom.ElementNode then c.(paragraphs := reset)
    else match body
    case None =>
      Cache(c.translatedParagraphs[node.key := index], c.translationMap, reset + [Showing(FailureText)])
    case Some(chunks) =>
      var translationText := Helpers.Concat(Api.StreamFragments(chunks, parse));
      Cache(c.translatedParagraphs[node.key := index],
            c.translationMap[node.id := TranslationMapValue(selectedText, translationText)],
            reset + [Showing(FinalDisplay(translationText))])
  }

  /** The effect of the timer callback on the caches, for the captured
      text, the selection's range count and target at fire time, the two
      replies of the reuse path, and the streamed body. */
  function Fired(c: Cache, selectedText: string, rangeCount: nat, target: Option<Dom.Node>,
                 matchedText: string, meaning: Option<string>,
                 body: Option<seq<string>>, parse: string -> Option<string>): (r: Cache)
    requires CacheValid(c)
    ensures |r.paragraphs| >= |c.paragraphs|
    ensures forall k :: k in c.translatedParagraphs ==> k in r.translatedParagraphs
    ensures forall id :: id in c.translationMap ==> id in r.translationMap
  {
    if rangeCount == 0 || target.None? then c
    else if Reuses(c, target.value, selectedText) then Reused(c, target.value, matchedText, meaning)
    else Replaced(c, target.value, selectedText, body, parse)
  }

  /** The callback keeps every mapped node pointing at an existing paragraph. */
  lemma FiredKeepsValid(c: Cache, selectedText: string, rangeCount: nat, target: Option<Dom.Node>,
                        matchedText: string, meaning: Option<string>,
                        body: Option<seq<string>>, parse: string -> Option<string>)
    requires CacheValid(c)
    ensures CacheValid(Fired(c, selectedText, rangeCount, target, matchedText, meaning, body, parse))
  {
  }

  /** With no range left, or no target element, nothing changes. */
  lemma NoSelectionNoChange(c: Cache, selectedText: string, rangeCount: nat, target: Option<Dom.Node>,
                            matchedText: string, meaning: Option<string>,
                            body: Option<seq<string>>, parse: string -> Option<string>)
    requires CacheValid(c) && (rangeCount == 0 || target.None?)
    ensures Fired(c, selectedText, rangeCount, target, matchedText, meaning, body, parse) == c
  {
  }

  /** The reuse path creates no paragraph and leaves both maps alone; the
      reused paragraph keeps its text and gains the meaning after it, or
      only the highlight when the meaning reply is an error. */
  lemma ReuseAddsOnlyMeaning(c: Cache, selectedText: string, node: Dom.Node,
                             matchedText: string, meaning: Option<string>,
                             body: Option<seq<string>>, parse: string -> Option<string>)
    requires CacheValid(c) && Reuses(c, node, selectedText)
    ensures var d := Fired(c, selectedText, 1, Some(node), matchedText, meaning, body, parse);
      var p := c.translatedParagraphs[node.key];
      && d.translatedParagraphs == c.translatedParagraphs
      && d.translationMap == c.translationMap
      && |d.paragraphs| == |c.paragraphs|
      && (meaning.Some? ==> d.paragraphs[p].text == c.paragraphs[p].text + meaning.value)
      && (meaning.None? ==> d.paragraphs[p] == Highlight(c.paragraphs[p], matchedText)
                            && d.paragraphs[p].text == c.paragraphs[p].text)
      && (forall q :: 0 <= q < |c.paragraphs| && q != p ==> d.paragraphs[q] == c.paragraphs[q])
  {
  }

  /** Otherwise an existing paragraph of the node is reset to the
      placeholder. For an element target a new paragraph is then appended
      and takes the node's entry, and the record under the node's id is
      written only when the stream completed; a failure shows the failure
      text instead. Any other target throws after the reset, so it never
      gets a paragraph or a record. */
  lemma ReplaceCreatesParagraph(c: Cache, selectedText: string, rangeCount: nat, node: Dom.Node,
                                matchedText: string, meaning: Option<string>,
                                body: Option<seq<string>>, parse: string -> Option<string>)
    requires CacheValid(c) && rangeCount > 0 && !Reuses(c, node, selectedText)
    ensures var d := Fired(c, selectedText, rangeCount, Some(node), matchedText, meaning, body, parse);
      && |d.paragraphs| >= |c.paragraphs|
      && (node.key in c.translatedParagraphs ==>
            d.paragraphs[c.translatedParagraphs[node.key]] == Showing(TranslatingText))
      && (forall q :: 0 <= q < |c.paragraphs| && (node.key !in c.translatedParagraphs || q != c.translatedParagraphs[node.key])
            ==> d.paragraphs[q] == c.paragraphs[q])
    ensures var d := Fired(c, selectedText, rangeCount, Some(node), matchedText, meaning, body, parse);
      node.nodeType != Dom.ElementNode ==>
        && |d.paragraphs| == |c.paragraphs|
        && d.translatedParagraphs == c.translatedParagraphs
        && d.translationMap == c.translationMap
    ensures var d := Fired(c, selectedText, rangeCount, Some(node), matchedText, meaning, body, parse);
      node.nodeType == Dom.ElementNode ==>
        && |d.paragraphs| == |c.paragraphs| + 1
        && d.translatedParagraphs == c.translatedParagraphs[node.key := |c.paragraphs|]
        && (body.None? ==> d.translationMap == c.translationMap
                           && d.paragraphs[|c.paragraphs|] == Showing(FailureText))
        && (body.Some? ==>
              var translationText := Helpers.Concat(Api.StreamFragments(body.value, parse));
              && d.translationMap == c.translationMap[node.id := TranslationMapValue(selectedText, translationText)]
              && d.paragraphs[|c.paragraphs|] == Showing(FinalDisplay(translationText)))
  {
  }

  /** After a completed translation of a non-empty selection, selecting any
      part of it again in the same node takes the reuse path. */
  lemma ReselectionReuses(c: Cache, first: string, second: string, node: Dom.Node,
                          matchedText: string, meaning: Option<string>,
                          chunks: seq<string>, parse: string -> Option<string>)
    requires CacheValid(c) && !Reuses(c, node, first) && node.nodeType == Dom.ElementNode
    requires first != "" && Includes(first, second)
    ensures var d := Fired(c, first, 1, Some(node), matchedText, meaning, Some(chunks), parse);
      CacheValid(d) && Reuses(d, node, second)
  {
  }

  /** Records are keyed by the `id` attribute, not by the node: a node
      without an id shares the empty-id record with every other such node,
      so a completed translation in one of them overwrites the record the
      other's reuse test reads. */
  lemma SharedIdSharesRecord(c: Cache, selectedText: string, a: Dom.Node, b: Dom.Node,
                             matchedText: string, meaning: Option<string>,
                             chunks: seq<string>, parse: string -> Option<string>)
    requires CacheValid(c) && !Reuses(c, a, selectedText)
    requires a.key != b.key && a.id == b.id && a.nodeType == Dom.ElementNode
    ensures var d := Fired(c, selectedText, 1, Some(a), matchedText, meaning, Some(chunks), parse);
      d.translationMap[b.id].originalText == selectedText
  {
  }

  /** The content script's module-level state. */
  class Translator {
    var selectionTimer: Option<Armed>
    var translatedParagraphs: map<nat, nat>
    var translationMap: map<string, TranslationMapValue>
    var paragraphs: seq<Paragraph>

    function State(): Cache
      reads this
    {
      Cache(translatedParagraphs, translationMap, paragraphs)
    }

    ghost predicate Valid()
      reads this
    {
      CacheValid(State())
    }

    constructor ()
      ensures Valid() && selectionTimer.None? && State() == Cache(map[], map[], [])
    {
      selectionTimer := None;
      translatedParagraphs := map[];
      translationMap := map[];
      paragraphs := [];
    }

    /** `handleSelection` at mouseup: clear the timer, and re-arm it when the
        trimmed selection is non-empty. The caches are untouched. */
    method HandleSelection(selectionText: string, now: int)
      modifies this
      ensures selectionTimer == AfterMouseUp(selectionText, now)
      ensures State() == old(State())
    {
      var selectedText := Trim(selectionText);
      selectionTimer := None;
      if selectedText == "" {
        return;
      }
      selectionTimer := Some(Armed(selectedText, now + SelectionDelay));
    }

    /** `findAndHighlightTranslation` on paragraph `index`, given the reply
        naming the matching words. */
    method FindAndHighlightTranslation(index: nat, matchedText: string)
      requires index < |paragraphs|
      modifies this
      ensures paragraphs == old(paragraphs)[index := Highlight(old(paragraphs)[index], matchedText)]
      ensures selectionTimer == old(selectionTimer)
      ensures translatedParagraphs == old(translatedParagraphs) && translationMap == old(translationMap)
    {
      var translationText := paragraphs[index].text;
      var splice := HighlightSplice(translationText, matchedText);
      if splice.Some? {
        var beforeText := splice.value.before;
        var afterText := splice.value.after;
        paragraphs := paragraphs[index := Paragraph(beforeText + HighlightOpen + matchedText + HighlightClose + afterText,
                                                    beforeText + matchedText + afterText)];
      }
    }

    /** The reuse path: highlight the matched words, then append the
        meaning, unless reading it threw. */
    method ReuseParagraph(node: Dom.Node, matchedText: string, meaning: Option<string>)
      requires Valid() && node.key in translatedParagraphs
      modifies this
      ensures State() == Reused(old(State()), node, matchedText, meaning)
      ensures selectionTimer == old(selectionTimer)
    {
      var existing := translatedParagraphs[node.key];
      FindAndHighlightTranslation(existing, matchedText);
      if meaning.Some? {
        paragraphs := paragraphs[existing := AppendMeaning(paragraphs[existing], meaning.value)];
      }
    }

    /** The replace path: reset the old paragraph, then (for an element
        target; any other throws in `getComputedStyle`) a new paragraph, the
        request, the stream. */
    method ReplaceParagraph(node: Dom.Node, selectedText: string,
                            body: Option<seq<string>>, parse: string -> Option<string>)
      requires Valid()
      modifies this
      ensures State() == Replaced(old(State()), node, selectedText, body, parse)
      ensures selectionTimer == old(selectionTimer)
    {
      ResetParagraph(node);
      if node.nodeType != Dom.ElementNode {
        return;
      }
      var index := StartParagraph(node);
      FinishParagraph(index, node, selectedText, body, parse);
    }

    /** The `else` branch of the reuse test: the node's old paragraph, if
        any, shows the placeholder again. */
    method ResetParagraph(node: Dom.Node)
      requires Valid()
      modifies this
      ensures Valid()
      ensures paragraphs == if node.key in old(translatedParagraphs)
          then old(paragraphs)[old(translatedParagraphs)[node.key] := Showing(TranslatingText)]
          else old(paragraphs)
      ensures selectionTimer == old(selectionTimer) && translationMap == old(translationMap)
      ensures translatedParagraphs == old(translatedParagraphs)
    {
      if node.key in translatedParagraphs {
        var existing := translatedParagraphs[node.key];
        paragraphs := paragraphs[existing := Showing(TranslatingText)];
      }
    }

    /** The replace path up to the request: append a new placeholder
        paragraph that takes the node's entry. */
    method StartParagraph(node: Dom.Node) returns (index: nat)
      modifies this
      ensures index == |old(paragraphs)|
      ensures paragraphs == old(paragraphs) + [Showing(TranslatingText)]
      ensures translatedParagraphs == old(translatedParagraphs)[node.key := index]
      ensures selectionTimer == old(selectionTimer) && translationMap == old(translationMap)
    {
      index := |paragraphs|;
      paragraphs := paragraphs + [Showing(TranslatingText)];
      translatedParagraphs := translatedParagraphs[node.key := index];
    }

    /** The replace path after the request: stream the translation into the
        new paragraph and record it, or show the failure text. */
    method FinishParagraph(index: nat, node: Dom.Node, selectedText: string,
                           body: Option<seq<string>>, parse: string -> Option<string>)
      requires index < |paragraphs| && paragraphs[index] == Showing(TranslatingText)
      modifies this
      ensures body.None? ==> paragraphs == old(paragraphs)[index := Showing(FailureText)]
                             && translationMap == old(translationMap)
      ensures body.Some? ==>
        var translationText := Helpers.Concat(Api.StreamFragments(body.value, parse));
        && paragraphs == old(paragraphs)[index := Showing(FinalDisplay(translationText))]
        && translationMap == old(translationMap)[node.id := TranslationMapValue(selectedText, translationText)]
      ensures selectionTimer == old(selectionTimer) && translatedParagraphs == old(translatedParagraphs)
    {
      if body.None? {
        paragraphs := paragraphs[index := Showing(FailureText)];
        return;
      }
      var translationText, shown := StreamTranslation(body.value, parse);
      ShownArePrefixes(Api.StreamFragments(body.value, parse));
      NothingShownIffEmpty(Api.StreamFragments(body.value, parse));
      if |shown| > 0 {
        paragraphs := paragraphs[index := Showing(shown[|shown| - 1])];
      }
      translationMap := translationMap[node.id := TranslationMapValue(selectedText, translationText)];
    }

    /** The timer callback: consumes the pending selection and updates the
        caches as `Fired` describes. */
    method TimerFires(rangeCount: nat, target: Option<Dom.Node>, matchedText: string, meaning: Option<string>,
                      body: Option<seq<string>>, parse: string -> Option<string>)
      requires Valid() && selectionTimer.Some?
      modifies this
      ensures Valid() && selectionTimer.None?
      ensures State() == Fired(old(State()), old(selectionTimer).value.selectedText, rangeCount, target,
                               matchedText, meaning, body, parse)
    {
      var selectedText := selectionTimer.value.selectedText;
      selectionTimer := None;
      ghost var before := State();
      FiredKeepsValid(before, selectedText, rangeCount, target, matchedText, meaning, body, parse);
      if rangeCount == 0 || target.None? {
        return;
      }
      var node := target.value;
      if node.key in translatedParagraphs {
        var originalText := if node.id in translationMap then translationMap[node.id].originalText else "";
        if originalText != "" && Includes(originalText, selectedText) {
          ReuseParagraph(node, matchedText, meaning);
          return;
        }
      }
      ReplaceParagraph(node, selectedText, body, parse);
    }
  }
}
