# comfy-trans, modelled in Dafny

comfy-trans is a browser extension that translates what the reader selects
on a web page. It asks an OpenAI chat model and streams the answer into the
page. This project models the parts of it whose behaviour can be stated
exactly, and proves what they promise:

- the "is this already Chinese?" classifier that decides whether a selection is skipped;
- the client around the chat-completions endpoint:
  - the empty-key, 401, other-error and OK outcomes of `askAI` and `askAIStream`;
  - the per-chunk `data:` line parser;
- the post-processing of a full-paragraph translation (chunk accumulation, trim, code-fence stripping) and the pop-up width rule;
- the self-contained content script `content.js`:
  - the 1500 ms selection timer;
  - the two caches that decide between reusing a translation paragraph and replacing it;
  - the streamed translation loop;
  - the highlight splice and `escapeRegExp`;
- the selection gate of `content.ts` and its 't' key trigger;
- the DOM helpers of `dom.ts`:
  - the target node and `closest`;
  - the insert-position sibling walk;
  - paragraph insertion and the underline split;
  - the lexical display text;
- the page-context request and the mouseup listener of `initial.ts`;
- the 300 ms rate limit and the voice choice of `speakText`;
- the pop-up's API key save and blacklist update.

Network replies, the page's DOM, the clock and `chrome.storage` are inputs or
explicit state. `fetch` is a function from request to response. A response is
a status, a message content and an optional body of already-decoded chunks.
`JSON.parse(payload).choices[0].delta.content` is an abstract partial function
`parse` (`None` when parsing throws or there is no content). Strings are
sequences of code points. JavaScript's `trim`, `\s`, `indexOf`, `includes`,
`startsWith`, `toLowerCase` (for ASCII letters), `split` on a one-character
separator and `substring` are written out with their ECMAScript semantics in
`JsString`. The multi-character `split(fence)` of `getTranslatedHTML`, of
which only the first two pieces are used, is `Helpers.BeforeFirst` and
`Helpers.AfterFirst`.

Files:
- `jsstring.dfy`: `Wrappers`, `JsString`.
- `utils.dfy`: `Classifier`.
- `helpers.dfy`: `Helpers`.
- `api.dfy`: `Api`.
- `dom.dfy`: `Dom`.
- `timer.dfy`: `SelectionTimer`.
- `content_js.dfy`: `LegacyContent`.
- `content_ts.dfy`: `SelectionFlow`.
- `initial.dfy`: `Initial`.
- `audio.dfy`: `Audio`.
- `popup.dfy`: `Popup`.

Two behaviours of the code are worth knowing:
- `content.js` reuses a paragraph when the recorded original text includes the new selection; equal text counts as included. The stream loop in that file never looks at the HTTP status or the key.
- `getTranslatedHTML` takes `split(fence)[1].split('```')[0]`: the text between the first and the second occurrence of the fence, cut at the next "```". For overlapping backtick runs this is not the text up to the next fence.

## Model

| member | source | states |
|---|---|---|
| Classifier.HasKana | src/content/utils.ts:10 | true exactly when some character is hiragana, katakana or half-width katakana |
| Classifier.HasCjkPunctuation | src/content/utils.ts:4 | true exactly when some character lies in U+3000-303F or U+FF00-FFEF |
| Classifier.AllAllowed | src/content/utils.ts:7 | true exactly when every character is Han U+4E00-9FFF, in a punctuation block, white space or one of the listed marks |
| Classifier.IsChineseText | src/content/utils.ts:2-19 | `isChineseText`: the kana test runs first; text it accepts is non-empty and holds no hiragana, katakana or half-width katakana |
| Classifier.IsChineseTextIff | src/content/utils.ts:13-18 | Chinese exactly when there is no kana, at least one CJK or full-width punctuation character, and every character is allowed |
| Classifier.KanaMeansNotChinese | src/content/utils.ts:10-15 | any kana character makes the text not Chinese |
| Classifier.HalfWidthKatakanaRejected | src/content/utils.ts:7-15 | half-width katakana is punctuation-block and allowed, yet such text is not Chinese because the kana test runs first |
| Classifier.NoPunctuationMeansNotChinese | src/content/utils.ts:18 | without a punctuation-block character the text is not Chinese, even if all of it is Han |
| Classifier.DisallowedCharMeansNotChinese | src/content/utils.ts:7 | one character outside the allowed set makes the text not Chinese |
| Classifier.AsciiLetterNotAllowed | src/content/utils.ts:7 | ASCII letters are outside the allowed set |
| Classifier.EmptyNotChinese | src/content/utils.ts:7 | the empty string is not Chinese (the class is anchored with `+`) |
| Classifier.HanWithFullStopIsChinese | src/content/utils.ts:13-18 | "你好。" is Chinese |
| Helpers.CalculateWidthFromCharCount | src/content/helpers.ts:47-65 | the width is one of 250, 280, 320, 368, 400 and lies in [250, 400] |
| Helpers.WidthMonotone | src/content/helpers.ts:51-61 | a larger count never gives a narrower width |
| Helpers.WidthBands | src/content/helpers.ts:51-61 | ≤100 (negatives included) → 250, 101-200 → 280, 201-300 → 320, 301-400 → 368, >400 → 400 |
| Helpers.AccumulatedIsConcat | src/content/helpers.ts:19-25 | skipping empty chunks while accumulating yields the in-order concatenation of all chunks |
| Helpers.CleanWithoutFence | src/content/helpers.ts:30-38 | with no "```" in the trimmed text, the result is the trimmed text |
| Helpers.CleanResponse | src/content/helpers.ts:30-38 | the clean-up of the accumulated reply: trim, then the body of a "```html" block or else of a "```" block; the result is never longer than the reply |
| Helpers.CleanWithHtmlFence | src/content/helpers.ts:33-34 | with "```html", the result is the trimmed text of a stretch that begins right after the first "```html", holds no "```", and stops at a "```" or at the end of the text; the result holds no "```" either |
| Helpers.CleanWithPlainFence | src/content/helpers.ts:35-36 | with "```" but no "```html", the result is the trimmed text between the first and second "```" (or to the end), and holds no "```" |
| Helpers.GetTranslatedHtml | src/content/helpers.ts:19-39 | the loop plus clean-up returns the cleaned concatenation of the streamed chunks |
| Api.AskAI | src/content/api.ts:148-183 | no request iff the key is empty; an empty key answers "请设置OPENAI API KEY"; the request is non-streaming with the caller's model and prompt; it throws exactly for a non-401, non-OK status |
| Api.AskAIOutcomes | src/content/api.ts:173-182 | 401 answers "OPENAI API KEY格式不正确", another non-OK status throws with that status, OK returns the message content |
| Api.LineFragment | src/content/api.ts:101-114 | a fragment comes only from a `data: ` line whose payload is not `[DONE]`; it is the parsed, non-empty delta of that payload |
| Api.ChunkFragments | src/content/api.ts:96-116 | the fragments of one chunk: at most one per line of the chunk, none of them empty |
| Api.NonBlank | src/content/api.ts:99 | `filter(line => line.trim() !== '')` never yields more lines than it was given |
| Api.NonBlankAppend | src/content/api.ts:99 | the filter of a concatenation is the concatenation of the filtered parts, so the kept lines stay in input order |
| Api.NonBlankOne | src/content/api.ts:99 | a single line is kept exactly when its trimmed text is non-empty |
| Api.NonBlankKeepsLines | src/content/api.ts:99 | every line the filter keeps is one of its input lines and is not blank |
| Api.LinesFragments | src/content/api.ts:101-116 | the fragments of a list of lines: at most one per line, none of them empty |
| Api.StreamFragments | src/content/api.ts:84-123 | the fragments of a whole body, chunk after chunk in arrival order; none of them is empty |
| Api.EnqueueStep | src/content/api.ts:98-116 | handling one more line appends that line's fragment and keeps the loop's running total equal to the fragments of the whole chunk |
| Api.EnqueueChunk | src/content/api.ts:98-116 | the loop enqueues exactly the fragments of the chunk's non-blank lines, in order |
| Api.ReadBody | src/content/api.ts:84-123 | a missing body closes the stream with nothing; otherwise the queue holds the fragments of every chunk, in arrival order |
| Api.AskAIStream | src/content/api.ts:1-123 | empty key → exactly ["请设置OPENAI API KEY"] and no request; 401 → exactly ["OPENAI API KEY格式不正确"]; another non-OK status throws; OK streams the body's fragments; the request asks for streaming |
| Api.DoneDoesNotEndStream | src/content/api.ts:104 | a `data: [DONE]` line is skipped and the lines after it still count |
| Api.BadJsonSkipped | src/content/api.ts:106-114 | an unparsable payload is skipped and the lines after it still count |
| Api.BlankLinesIrrelevant | src/content/api.ts:99 | filtering out blank lines does not change the fragments |
| Api.StreamFragmentsAppend | src/content/api.ts:94-117 | the fragments of a body are those of its chunks, in order |
| Api.DataLineFragment | src/content/api.ts:101-114 | a `data: ` line carrying `[DONE]` yields nothing, and one carrying any other payload that parses to a non-empty delta yields exactly that delta |
| Api.TwoEventStream | src/content/api.ts:94-117 | a body with two `data:` events and `data: [DONE]`, separated by blank lines, yields exactly the two deltas in order |
| Dom.GetTargetNode | src/content/dom.ts:5-12 | a text start container maps to its parent element; any other node is returned unchanged |
| Dom.TargetIsNotText | src/content/dom.ts:5-12 | when the parent of a text node is an element, `getTargetNode` never returns a text node, and it returns an element unless the start container is neither text nor element |
| Dom.Closest | src/content/content.ts:90 | `closest` finds an element of the chain with the tag, or reports that none has it |
| Dom.FindInsertPosition | src/content/dom.ts:16-34 | a non-text start node is its own position; for a text node it is the first following BR if no text node comes before it, else the start node |
| Dom.InsertPositionIsLaterBr | src/content/dom.ts:19-31 | the position is the start node or a later BR with no text node between; if it stays the start node, every later BR is preceded by a text node |
| Dom.ParentNode.InsertBefore | src/content/dom.ts:48 | `insertBefore` puts the node just before the reference child, or at the end for `null` |
| Dom.InsertTranslatedParagraph | src/content/dom.ts:47-49 | the paragraph lands immediately after the insert position |
| Dom.ParentNode.ReplaceChild | src/content/dom.ts:130 | `replaceChild(fragment, child)`: the child is replaced in place by the fragment's nodes, in order, and the other children keep their order |
| Dom.SplitRebuildsText | src/content/dom.ts:112-114 | with 0 ≤ start ≤ end ≤ length, before + selected + after is the text, and selected is the range |
| Dom.SplitReversedOffsets | src/content/dom.ts:112-114 | with end < start, `substring` swaps the offsets, so the pieces repeat the range |
| Dom.SplitForUnderline | src/content/dom.ts:112-114 | the three texts cut from the start container: the first is a prefix of the text, the last a suffix, and none is longer than the text |
| Dom.AddUnderlineToSelection | src/content/dom.ts:107-134 | the span holds the selected text; the text node is replaced by before, span, after in that order; nothing is replaced without a parent |
| Dom.DisplayTextParts | src/content/dom.ts:64 | the display text is the selection followed by "(phonetic)" when the phonetic text is non-empty, and the selection alone otherwise |
| Dom.DisplayText | src/content/dom.ts:64 | `appendLexicalUnit`'s display text: the selection, followed by the phonetic text in parentheses when that is non-empty |
| LegacyContent.EscapeRegExp | src/content/content.js:318-320 | the output is as long as the input plus its special characters |
| LegacyContent.UnescapeEscape | src/content/content.js:318-320 | deleting the inserted backslashes recovers the input |
| LegacyContent.EscapeAppend | src/content/content.js:318-320 | escaping the concatenation of two strings is the concatenation of their escapes, so the replacement works character by character, in order |
| LegacyContent.EscapeChar | src/content/content.js:318-320 | a single character gets a backslash in front exactly when it is one of the special characters, and is copied otherwise |
| LegacyContent.HighlightSplice | src/content/content.js:281-297 | a cut exists iff the reply is non-empty and occurs in the translation; it is at the first occurrence, and before + matched + after is the translation |
| LegacyContent.Highlight | src/content/content.js:290-297 | highlighting keeps the paragraph's text; without a match the paragraph is unchanged |
| LegacyContent.AfterMouseUp | src/content/content.js:57-65 | every mouseup clears the timer; a blank selection leaves none, a non-blank one arms a 1500 ms timer for the trimmed text |
| LegacyContent.LastMouseUpDecides | src/content/content.js:57-65 | after a burst of mouseups only the last one decides the timer, so an empty last selection cancels a pending translation |
| LegacyContent.TimerAfter | src/content/content.js:57-65 | the timer slot after a run of mouseups: after a non-empty run, no timer is pending exactly when the last selection is blank after trimming |
| LegacyContent.ShownArePrefixes | src/content/content.js:205-215 | each text the paragraph shows while streaming is the deltas so far, a prefix of the final translation, and the last one is the final translation |
| LegacyContent.ShowDeltas | src/content/content.js:205-222 | appending a chunk's deltas extends the translation and the shown texts by exactly those deltas |
| LegacyContent.StreamTranslation | src/content/content.js:193-223 | the translation is the concatenation of the truthy deltas of the body's `data:` lines (skipping `[DONE]` and bad JSON), and the paragraph shows each running prefix |
| LegacyContent.Reused | src/content/content.js:102-157 | the reuse path on the caches: both maps and the number of paragraphs stay the same, and every mapped node still has a paragraph; without a meaning (the reply had no `choices` and reading it threw) only the highlight lands |
| LegacyContent.Replaced | src/content/content.js:158-237 | the replace path on the caches: for an element target one paragraph is appended and the node is mapped to it, and the record under the node's id is written with the selection only when the stream completed; any other target throws in `getComputedStyle` and changes no map and adds no paragraph; every mapped node still has a paragraph |
| LegacyContent.Reuses | src/content/content.js:101-109 | reuse needs a record under the node's id whose original text contains the selection, so the selection is never longer than that text |
| LegacyContent.AppendMeaning | src/content/content.js:134 | the existing translation keeps its HTML and text as a prefix; the text gains exactly the meaning |
| LegacyContent.Fired | src/content/content.js:65-239 | the timer callback on the caches: paragraphs are never removed, and no node and no id loses its entry |
| LegacyContent.FiredKeepsValid | src/content/content.js:102-172 | after the callback every node in `translatedParagraphs` still has a paragraph |
| LegacyContent.NoSelectionNoChange | src/content/content.js:67-96 | with range count 0 or no target element the callback changes nothing |
| LegacyContent.ReuseAddsOnlyMeaning | src/content/content.js:102-157 | on the reuse path no paragraph is created and both maps stay; the reused paragraph keeps its text and gains the meaning, or, when reading the meaning threw, is only highlighted |
| LegacyContent.ReplaceCreatesParagraph | src/content/content.js:158-237 | otherwise the old paragraph is reset to "正在翻译..."; for an element target a new paragraph takes the node's entry, the record under the node's id is written only on completion, and a failure shows "翻译失败，请重试"; any other target gets no paragraph and no record |
| LegacyContent.ReselectionReuses | src/content/content.js:109 | after a completed translation of non-empty text in an element, selecting any part of it in the same node takes the reuse path |
| LegacyContent.SharedIdSharesRecord | src/content/content.js:229-232 | records are keyed by the `id` attribute, so a finished translation in one node overwrites the record of every other node with the same id, including the empty id of nodes without one |
| LegacyContent.Translator.HandleSelection | src/content/content.js:50-65 | the mouseup leaves the caches alone and sets the timer as `AfterMouseUp` says |
| LegacyContent.Translator.FindAndHighlightTranslation | src/content/content.js:243-315 | the paragraph becomes its highlighted form; nothing else changes |
| LegacyContent.Translator.ReuseParagraph | src/content/content.js:102-157 | the new state is `Reused` of the old one, and the timer slot is untouched |
| LegacyContent.Translator.ReplaceParagraph | src/content/content.js:158-237 | the new state is `Replaced` of the old one, and the timer slot is untouched |
| LegacyContent.Translator.StartParagraph | src/content/content.js:163-172 | a new placeholder paragraph is appended and mapped from the node |
| LegacyContent.Translator.ResetParagraph | src/content/content.js:158-160 | the node's old paragraph, if any, is reset to the placeholder, and nothing else changes |
| LegacyContent.Translator.FinishParagraph | src/content/content.js:176-237 | on completion the paragraph shows the translation (placeholder if empty) and the record is written; on failure it shows the failure text and the record map is unchanged |
| LegacyContent.Translator.TimerFires | src/content/content.js:65-239 | the callback consumes the pending text and updates the caches as the specification `Fired` describes, keeping them valid |
| SelectionFlow.ProcessSelectionDispatch | src/content/content.ts:58-112 | nothing happens exactly when a guard fails (no range, blank text, Chinese text, no target, or a target that is not an element); otherwise exactly one translation runs, the full one exactly when `isEntireParagraphSelected` holds |
| SelectionFlow.ParagraphTextSource | src/content/content.ts:90-91 | the context is the text of the innermost `<p>` among the target and its ancestors, else the target's own text |
| SelectionFlow.ClosestIsFirst | src/content/content.ts:90 | `closest` returns the first matching element of the chain |
| SelectionFlow.ParagraphText | src/content/content.ts:90-91 | the partial translation's context is the text of the target or of one of its ancestors |
| SelectionFlow.ProcessSelection | src/content/content.ts:58-112 | `processSelection`: it translates only with a range and a non-blank, non-Chinese trimmed text; the full paragraph only when it is entirely selected, and only on an element; the partial path with the trimmed text |
| SelectionFlow.KanaSelectionIsTranslated | src/content/content.ts:72-111 | a selection containing kana is never skipped as Chinese |
| SelectionFlow.KeyTriggerPassesTextGuard | src/content/content.ts:37-47 | only "t"/"T" with a non-blank selection triggers `processSelection` |
| SelectionFlow.LowerIsTOnlyForT | src/content/content.ts:37 | `key.toLowerCase() === 't'` holds exactly for the keys "t" and "T" |
| SelectionFlow.KeyTriggerDispatch | src/content/content.ts:37-47 | after the key trigger, `processSelection` does nothing exactly when there is no range, the trimmed text is Chinese, or the target is missing or not an element |
| SelectionFlow.TriggersOnKey | src/content/content.ts:37-40 | the keydown handler goes on exactly for the keys "t" and "T" with a selection whose trimmed text is non-empty |
| SelectionFlow.TextStartPassesTargetGuard | src/content/content.ts:77-90 | a selection that starts in a text node or an element, with an element parent, is dropped only by the range, text and Chinese guards or a missing parent |
| SelectionFlow.OtherStartIsNotTranslated | src/content/content.ts:77-90 | a selection that starts in a node that is neither text nor element reaches `closest` on it, which throws: nothing is translated |
| Initial.ContextPromptExcerpt | src/content/initial.ts:9-11 | the prompt carries the first 1000 characters of the page, or all of a shorter page |
| Initial.ContextPrompt | src/content/initial.ts:9-11 | the context prompt starts with the fixed prefix and adds at most 1000 characters of the page |
| Initial.InitializePageContext | src/content/initial.ts:7-19 | the page context is empty only when a request was sent and failed with a status other than 401, or the model answered with empty text |
| Initial.PageContextOutcomes | src/content/initial.ts:7-19 | the context is `askAI`'s answer (including its two key notices), and empty when `askAI` throws |
| Initial.ListenStep | src/content/initial.ts:58-71 | a missing or blank selection leaves the pending timer alone; a non-blank one replaces it with a 1500 ms timer for the trimmed text |
| Initial.StepByArming | src/content/initial.ts:60-70 | one mouseup leaves the pending timer alone when its trimmed text is empty and otherwise replaces it with the timer it arms by itself |
| Initial.BlankRunKeepsTimer | src/content/initial.ts:60-63 | a run of blank selections never cancels a pending capture |
| Initial.LastNonBlankDecides | src/content/initial.ts:64-70 | after a burst, the pending timer belongs to the last non-blank mouseup |
| Initial.ListenAfter | src/content/initial.ts:58-71 | the timer slot after a run of mouseups, each one a `ListenStep`; `BlankRunKeepsTimer` and `LastNonBlankDecides` state what it holds |
| Initial.SelectionListener.HandleSelection | src/content/initial.ts:58-71 | the timer slot moves as `ListenStep` says |
| Initial.SelectionListener.TimerFires | src/content/initial.ts:68-69 | `processSelection` receives the text captured when the timer was armed |
| Audio.HasJapanese | src/content/audio.ts:43 | true exactly when some character is kana or Han U+4E00-9FAF |
| Audio.Accepts | src/content/audio.ts:28 | a call goes ahead exactly when at least 300 ms have passed since the last accepted one |
| Audio.ChooseVoice | src/content/audio.ts:45-49 | a non-empty requested voice wins; otherwise ja-JP-NanamiNeural exactly when the text has kana or such Han, else en-US-JennyNeural |
| Audio.LateHanGetsEnglishVoice | src/content/audio.ts:43-47 | Han past U+9FAF alone gets the English voice |
| Audio.AcceptedCallsSpaced | src/content/audio.ts:29-35 | accepted calls are at least 300 ms after the start and after each other, and each is one of the calls made |
| Audio.Speaker.SpeakText | src/content/audio.ts:22-49 | a call within 300 ms of the last accepted one is ignored and leaves `lastSpeakTime`; an accepted one sets it to now and uses the chosen voice |
| Audio.Speaker.SpeakEach | src/content/audio.ts:22-49 | `speakText` called at each of a sequence of times: the calls that go ahead are exactly `AcceptedCalls` of the starting time, and `lastSpeakTime` ends at the last of them |
| Popup.AddIfAbsent | src/popup.js:37-38 | after the add the domain is in the list, and nothing but the domain was added |
| Popup.AddIfAbsentKeepsList | src/popup.js:37-38 | existing entries stay first and in order, at most one entry is added, adding twice equals adding once, and no duplicates arise |
| Popup.SyncStorage.SaveApiKey | src/popup.js:15-16 | the stored key is the trimmed input |
| Popup.SyncStorage.AddDomain | src/popup.js:32-47 | a missing list counts as empty; an absent domain is appended and saved; a present one changes and saves nothing |

## Left out

- HTTP requests and prompts: `fetch` is a parameter. The prompt texts are not modelled, except the context prompt of `initial.ts`. The default model `gpt-4-turbo` of `askAI` and `askAIStream` is not modelled: its only callers here use a reply that is an input (`getTranslatedHTML` receives the streamed chunks; `translatePartialText` is left out). A network failure or a reply that is not JSON (a rejected `fetch` or `response.json()`) is not modelled. The meaning reply of `content.js` is `Some(text)`, or `None` for a JSON reply without `choices`, whose read throws. A streamed body that fails is the single case `None` in `content.js`.
- `TextDecoder`: chunks arrive already decoded. As in the code, a line split across two chunks is never rejoined.
- JavaScript strings are UTF-16; the model uses code points. The classifier and voice classes contain no surrogates, so their answers agree. `substring` offsets on text with astral characters would differ.
- Regular expressions: `escapeRegExp` is modelled exactly. The `RegExp` built from it is taken to match its input literally, at the first occurrence (`HighlightSplice`).
- LegacyContent.Highlight: treats assigned content as plain text, so `textContent` equals the assigned string. Removing the class from earlier highlights is not modelled. `findAndHighlightTranslation` and the meaning request are not awaited in order; the model applies the highlight first.
- `targetNode.id` of a node that is not an element: JavaScript reads `undefined`, the model reads the node's `id` field. Such a node never gets a paragraph, because `getComputedStyle` throws first, so the reuse test stops before that read.
- The reuse path's play button and its language test, the selection's `removeAllRanges`, and the paragraph's computed style and document placement in `content.js`.
- The speech SDK synthesis of `speakText` and of `content.js`: it is a foreign call. Only the gate and the voice choice are modelled.
- `chrome.storage`, `chrome.tabs` and URL parsing: the key, the stored list and the host name are inputs. `getApiKey` becomes the `apiKey` parameter. The pop-up's key load into the input field is not modelled.
- `translateFullParagraph`, `translatePartialText` and `currentVisiblePopup` in `content.ts`: they drive DOM helpers whose code is not part of this model (`isEntireParagraphSelected`, `showPopup`, `findParagraphInsertPosition`, `createTempContainer`, `replaceWithTranslatedNode`, `addUnderlineWithPopup`, `createTranslationDiv`, `handleTranslationUpdate`, `handleExplanationStream`). `isEntireParagraphSelected` is a parameter.
- `toLowerCase` outside ASCII: the key listener's lower-casing is modelled for the ASCII capitals only; Unicode case mapping of other characters is not modelled.
- Popup anchor coordinates in `content.ts` (floating point) and all styling, SVG buttons and style injection.
- Timers and asynchronous interleaving: a timer is an explicit arm step and fire step on one slot, and the clock is a parameter. Races between requests in flight are not modelled.
- Helpers.CalculateWidthFromCharCount: takes an integer count; the source accepts any JavaScript number.
- The build configuration (`webpack.config.js`).
