/** The completion client (src/content/api.ts): the API-key / 401 / non-OK
    decision of `askAI` and `askAIStream`, and the per-chunk `data:` line
    parser that feeds the stream. The HTTP exchange is the parameter `fetch`;
    a streamed body is the sequence of already-decoded chunk strings, and
    `JSON.parse(payload).choices[0].delta.content` is the parameter `parse`
    (`None` when parsing or the property path throws). */
module Api {
  import opened Wrappers
  import opened JsString

  const NoKeyMessage := "请设置OPENAI API KEY"
  const BadKeyMessage := "OPENAI API KEY格式不正确"
  const DataPrefix := "data: "
  const DonePayload := "[DONE]"

  /** The parts of the POST body that matter here. */
  datatype Request = Request(model: string, content: string, stream: bool)

  /** A response: the status, `choices[0].message.content` of a JSON body, and
      the decoded chunks of a streamed body (`None` when there is no body). */
  datatype HttpResponse = HttpResponse(status: int, messageContent: string, body: Option<seq<string>>)

  /** What a call produces: a value, or the thrown `HTTP error! status: …`. */
  datatype Outcome<T> = Returned(value: T) | HttpError(status: int)

  /** A call: the request it sent, if any, and its outcome. */
  datatype Call<T> = Call(sent: Option<Request>, outcome: Outcome<T>)

  /** `response.ok`. */
  predicate IsOk(status: int) {
    200 <= status <= 299
  }

  /** `askAI`: an empty key answers with a sentinel and sends nothing; 401
      answers with the other sentinel; any other non-OK status throws; OK
      returns the message content of a non-streaming request. */
  function AskAI(apiKey: string, prompt: string, model: string, fetch: Request -> HttpResponse): (c: Call<string>)
    ensures c.sent.None? <==> apiKey == ""
    ensures c.sent.Some? ==> c.sent.value == Request(model, prompt, false)
    ensures apiKey == "" ==> c.outcome == Returned(NoKeyMessage)
    ensures c.outcome.HttpError? <==>
      apiKey != "" && fetch(Request(model, prompt, false)).status != 401
      && !IsOk(fetch(Request(model, prompt, false)).status)
  {
    if apiKey == "" then Call(None, Returned(NoKeyMessage))
    else
      var request := Request(model, prompt, false);
      var response := fetch(request);
      if response.status == 401 then Call(Some(request), Returned(BadKeyMessage))
      else if !IsOk(response.status) then Call(Some(request), HttpError(response.status))
      else Call(Some(request), Returned(response.messageContent))
  }

  /** The four rows of `askAI`'s decision table, each with its result. */
  lemma AskAIOutcomes(apiKey: string, prompt: string, model: string, fetch: Request -> HttpResponse)
    ensures var c := AskAI(apiKey, prompt, model, fetch);
      var status := fetch(Request(model, prompt, false)).status;
      && (apiKey != "" && status == 401 ==> c.outcome == Returned(BadKeyMessage))
      && (apiKey != "" && status != 401 && !IsOk(status) ==> c.outcome == HttpError(status))
      && (apiKey != "" && IsOk(status) ==>
            c.outcome == Returned(fetch(Request(model, prompt, false)).messageContent))
  {
  }

  /** One line of a chunk: only `data: ` lines count, the payload is what
      follows the six-character prefix, `[DONE]` is skipped, and an
      unparsable payload or a falsy (here: empty) delta yields nothing. */
  function LineFragment(line: string, parse: string -> Option<string>): (r: Option<string>)
    ensures r.Some? ==> r.value != "" && StartsWith(line, DataPrefix)
    ensures r.Some? ==> line[6..] != DonePayload && parse(line[6..]) == r
  {
    if !StartsWith(line, DataPrefix) then None
    else
      var payload := line[6..];
      if payload == DonePayload then None
      else match parse(payload)
        case Some(content) => if content != "" then Some(content) else None
        case None => None
  }

  /** The fragments of a sequence of lines, in order. */
  function LinesFragments(lines: seq<string>, parse: string -> Option<string>): (r: seq<string>)
    ensures |r| <= |lines|
    ensures forall k :: 0 <= k < |r| ==> r[k] != ""
  {
    if lines == [] then [] else FragmentOf(lines[0], parse) + LinesFragments(lines[1..], parse)
  }

  /** The fragment of one line as a sequence of zero or one element. */
  function FragmentOf(line: string, parse: string -> Option<string>): (r: seq<string>)
    ensures |r| <= 1 && forall k :: 0 <= k < |r| ==> r[k] != ""
  {
    match LineFragment(line, parse)
    case Some(f) => [f]
    case None => []
  }

  /** `.filter(line => line.trim() !== '')`. */
  function NonBlank(lines: seq<string>): (r: seq<string>)
    ensures |r| <= |lines|
  {
    if lines == [] then []
    else if Trim(lines[0]) != "" then [lines[0]] + NonBlank(lines[1..])
    else NonBlank(lines[1..])
  }

  /** `filter` keeps only lines of its input, and none of them blank. */
  lemma {:induction false} NonBlankKeepsLines(lines: seq<string>)
    ensures forall k :: 0 <= k < |NonBlank(lines)| ==>
      NonBlank(lines)[k] in lines && Trim(NonBlank(lines)[k]) != ""
  {
    if lines != [] {
      NonBlankKeepsLines(lines[1..]);
      forall k | 0 <= k < |NonBlank(lines)|
        ensures NonBlank(lines)[k] in lines && Trim(NonBlank(lines)[k]) != ""
      {
        if Trim(lines[0]) != "" && k > 0 {
          assert NonBlank(lines)[k] == NonBlank(lines[1..])[k - 1];
        }
      }
    }
  }

  /** The filter works line by line: filtering a concatenation filters
      each part and keeps them in order; with `NonBlankOne`, it keeps
      exactly the non-blank lines, in order. */
  lemma {:induction false} NonBlankAppend(a: seq<string>, b: seq<string>)
    ensures NonBlank(a + b) == NonBlank(a) + NonBlank(b)
  {
    if a == [] {
      assert a + b == b;
    } else {
      assert (a + b)[0] == a[0];
      assert (a + b)[1..] == a[1..] + b;
      NonBlankAppend(a[1..], b);
    }
  }

  /** A single line is kept exactly when its trimmed text is non-empty. */
  lemma NonBlankOne(line: string)
    ensures NonBlank([line]) == if Trim(line) != "" then [line] else []
  {
    assert [line][1..] == [];
  }

  /** The fragments one decoded chunk contributes. A line split across two
      chunks is not rejoined: each chunk is parsed on its own. */
  function ChunkFragments(chunk: string, parse: string -> Option<string>): (r: seq<string>)
    ensures |r| <= |Split(chunk, '\n')|
    ensures forall k :: 0 <= k < |r| ==> r[k] != ""
  {
    LinesFragments(NonBlank(Split(chunk, '\n')), parse)
  }

  /** The fragments of a whole streamed body, chunk after chunk. */
  function StreamFragments(chunks: seq<string>, parse: string -> Option<string>): (r: seq<string>)
    ensures forall k :: 0 <= k < |r| ==> r[k] != ""
  {
    if chunks == [] then []
    else StreamFragments(chunks[..|chunks| - 1], parse) + ChunkFragments(chunks[|chunks| - 1], parse)
  }

  /** The body reader of `askAIStream`: a `while` loop over `reader.read()`,
      each chunk handled by `EnqueueChunk`. A missing body closes the stream
      at once. */
  method ReadBody(body: Option<seq<string>>, parse: string -> Option<string>) returns (queue: seq<string>)
    ensures body.None? ==> queue == []
    ensures body.Some? ==> queue == StreamFragments(body.value, parse)
  {
    queue := [];
    if body.None? {
      return;
    }
    var chunks := body.value;
    var i := 0;
    while i < |chunks|
      invariant 0 <= i <= |chunks|
      invariant queue == StreamFragments(chunks[..i], parse)
    {
      var fragments := EnqueueChunk(chunks[i], parse);
      StreamFragmentsStep(chunks, i, parse);
      queue := queue + fragments;
      i := i + 1;
    }
    assert chunks[..i] == chunks;
  }

  /** The `for` loop over the non-blank lines of one decoded chunk: every
      truthy delta of a `data:` line other than `[DONE]`, in order. */
  method EnqueueChunk(chunk: string, parse: string -> Option<string>) returns (fragments: seq<string>)
    ensures fragments == ChunkFragments(chunk, parse)
  {
    var lines := NonBlank(Split(chunk, '\n'));
    fragments := [];
    var j := 0;
    while j < |lines|
      invariant 0 <= j <= |lines|
      invariant fragments + LinesFragments(lines[j..], parse) == LinesFragments(lines, parse)
    {
      var line := lines[j];
      LineFragmentCases(line, parse);
      var delta: seq<string> := [];
      if StartsWith(line, DataPrefix) {
        var jsonData := line[6..];
        if jsonData != DonePayload {
          var content := parse(jsonData);
          if content.Some? && content.value != "" {
            delta := [content.value];
          }
        }
      }
      assert delta == FragmentOf(line, parse);
      EnqueueStep(fragments, lines, j, parse);
      fragments := fragments + delta;
      j := j + 1;
    }
    assert lines[j..] == [];
  }

  /** `askAIStream`: an empty key yields exactly the one sentinel fragment
      and sends nothing; 401 yields exactly the other sentinel; any other
      non-OK status throws; OK streams the parsed fragments of the body. */
  method AskAIStream(apiKey: string, input: string, model: string, fetch: Request -> HttpResponse,
                     parse: string -> Option<string>)
    returns (sent: Option<Request>, outcome: Outcome<seq<string>>)
    ensures sent.None? <==> apiKey == ""
    ensures sent.Some? ==> sent.value == Request(model, input, true)
    ensures apiKey == "" ==> outcome == Returned([NoKeyMessage])
    ensures sent.Some? ==>
      var response := fetch(sent.value);
      && (response.status == 401 ==> outcome == Returned([BadKeyMessage]))
      && (response.status != 401 && !IsOk(response.status) ==> outcome == HttpError(response.status))
      && (IsOk(response.status) ==>
            outcome == Returned(if response.body.None? then [] else StreamFragments(response.body.value, parse)))
  {
    if apiKey == "" {
      return None, Returned([NoKeyMessage]);
    }
    var request := Request(model, input, true);
    var response := fetch(request);
    sent := Some(request);
    if response.status == 401 {
      outcome := Returned([BadKeyMessage]);
    } else if !IsOk(response.status) {
      outcome := HttpError(response.status);
    } else {
      var queue := ReadBody(response.body, parse);
      outcome := Returned(queue);
    }
  }

  /** One step of the line loop: the line at `j` contributes its fragment,
      if any, ahead of the remaining lines. */
  lemma LinesFragmentsStep(lines: seq<string>, j: nat, parse: string -> Option<string>)
    requires j < |lines|
    ensures LinesFragments(lines[j..], parse) == FragmentOf(lines[j], parse) + LinesFragments(lines[j + 1..], parse)
  {
    assert lines[j..][1..] == lines[j + 1..];
  }

  /** One turn of the line loop keeps its invariant. */
  lemma EnqueueStep(previous: seq<string>, lines: seq<string>, j: nat, parse: string -> Option<string>)
    requires j < |lines|
    requires previous + LinesFragments(lines[j..], parse) == LinesFragments(lines, parse)
    ensures (previous + FragmentOf(lines[j], parse)) + LinesFragments(lines[j + 1..], parse)
         == LinesFragments(lines, parse)
  {
    LinesFragmentsStep(lines, j, parse);
    AppendAssociative(previous, FragmentOf(lines[j], parse), LinesFragments(lines[j + 1..], parse));
  }

  /** The fragment of a line, case by case, as the loop body computes it. */
  lemma LineFragmentCases(line: string, parse: string -> Option<string>)
    ensures !StartsWith(line, DataPrefix) ==> FragmentOf(line, parse) == []
    ensures StartsWith(line, DataPrefix) && line[6..] == DonePayload ==> FragmentOf(line, parse) == []
    ensures StartsWith(line, DataPrefix) && line[6..] != DonePayload ==>
      var content := parse(line[6..]);
      FragmentOf(line, parse) == if content.Some? && content.value != "" then [content.value] else []
  {
  }

  lemma AppendAssociative(a: seq<string>, b: seq<string>, c: seq<string>)
    ensures a + b + c == a + (b + c)
  {
  }

  /** One step of the chunk loop. */
  lemma StreamFragmentsStep(chunks: seq<string>, i: nat, parse: string -> Option<string>)
    requires i < |chunks|
    ensures StreamFragments(chunks[..i + 1], parse)
         == StreamFragments(chunks[..i], parse) + LinesFragments(NonBlank(Split(chunks[i], '\n')), parse)
  {
    assert chunks[..i + 1][..i] == chunks[..i];
  }

  /** A blank line never starts with `data: `. */
  lemma BlankIsNotData(line: string)
    requires Trim(line) == ""
    ensures !StartsWith(line, DataPrefix)
  {
    TrimEmptyIffBlank(line);
    if |line| >= 6 {
      assert line[..6][0] == line[0];
      assert IsJsWhitespace(line[0]);
    }
  }

  /** Lines concatenate: the fragments of two runs of lines are the fragments
      of the first followed by those of the second. */
  lemma {:induction false} LinesFragmentsAppend(a: seq<string>, b: seq<string>, parse: string -> Option<string>)
    ensures LinesFragments(a + b, parse) == LinesFragments(a, parse) + LinesFragments(b, parse)
  {
    if a == [] {
      assert a + b == b;
    } else {
      assert (a + b)[0] == a[0];
      assert (a + b)[1..] == a[1..] + b;
      LinesFragmentsAppend(a[1..], b, parse);
      AppendAssociative(FragmentOf(a[0], parse), LinesFragments(a[1..], parse), LinesFragments(b, parse));
    }
  }

  /** `[DONE]` is skipped with `continue`, not treated as the end: the lines
      after it still yield their fragments. */
  lemma DoneDoesNotEndStream(before: seq<string>, after: seq<string>, parse: string -> Option<string>)
    ensures LinesFragments(before + [DataPrefix + DonePayload] + after, parse)
         == LinesFragments(before, parse) + LinesFragments(after, parse)
  {
    var done := DataPrefix + DonePayload;
    DataLineFragment(DonePayload, parse);
    assert [done][1..] == [];
    assert LinesFragments([done], parse) == [];
    LinesFragmentsAppend(before, [done], parse);
    assert LinesFragments(before + [done], parse) == LinesFragments(before, parse);
    LinesFragmentsAppend(before + [done], after, parse);
  }

  /** An unparsable payload is skipped without stopping the stream. */
  lemma BadJsonSkipped(before: seq<string>, payload: string, after: seq<string>, parse: string -> Option<string>)
    requires parse(payload).None?
    ensures LinesFragments(before + [DataPrefix + payload] + after, parse)
         == LinesFragments(before, parse) + LinesFragments(after, parse)
  {
    var line := DataPrefix + payload;
    assert line[6..] == payload;
    assert LinesFragments([line], parse) == [];
    LinesFragmentsAppend(before + [line], after, parse);
    LinesFragmentsAppend(before, [line], parse);
  }

  /** Dropping blank lines first changes nothing: a blank line never starts
      with `data: `. */
  lemma {:induction false} BlankLinesIrrelevant(lines: seq<string>, parse: string -> Option<string>)
    ensures LinesFragments(NonBlank(lines), parse) == LinesFragments(lines, parse)
  {
    if lines != [] {
      BlankLinesIrrelevant(lines[1..], parse);
      if Trim(lines[0]) == "" {
        BlankIsNotData(lines[0]);
      }
    }
  }

  /** Chunks concatenate: the body's fragments are those of the chunks, in
      arrival order. */
  lemma {:induction false} StreamFragmentsAppend(a: seq<string>, b: seq<string>, parse: string -> Option<string>)
    ensures StreamFragments(a + b, parse) == StreamFragments(a, parse) + StreamFragments(b, parse)
    decreases |b|
  {
    if b != [] {
      var init := b[..|b| - 1];
      assert (a + b)[..|a + b| - 1] == a + init;
      StreamFragmentsAppend(a, init, parse);
    } else {
      assert a + b == a;
    }
  }

  /** Two `data:` events and a final `data: [DONE]`, each followed by a blank
      line, yield exactly the two deltas, in order, and nothing for `[DONE]`. */
  lemma TwoEventStream(payloadA: string, payloadB: string, a: string, b: string, parse: string -> Option<string>)
    requires '\n' !in payloadA && '\n' !in payloadB
    requires payloadA != DonePayload && payloadB != DonePayload
    requires parse(payloadA) == Some(a) && parse(payloadB) == Some(b) && a != "" && b != ""
    ensures StreamFragments([(DataPrefix + payloadA) + "\n\n" + (DataPrefix + payloadB) + "\n\n"
                             + (DataPrefix + DonePayload) + "\n\n"], parse) == [a, b]
  {
    var la, lb, ld := DataPrefix + payloadA, DataPrefix + payloadB, DataPrefix + DonePayload;
    var chunk := la + "\n\n" + lb + "\n\n" + ld + "\n\n";
    var lines := [la, "", lb, "", ld, "", ""];
    assert '\n' !in DataPrefix && '\n' !in DonePayload;
    assert '\n' !in la && '\n' !in lb && '\n' !in ld;
    SplitSevenLines(la, lb, ld);
    DataLineFragment(payloadA, parse);
    DataLineFragment(payloadB, parse);
    DataLineFragment(DonePayload, parse);
    SevenLines(la, lb, ld, a, b, parse);
    BlankLinesIrrelevant(lines, parse);
    assert ChunkFragments(chunk, parse) == [a, b];
    assert [chunk][..0] == [];
  }

  /** A `data: ` line without a newline in its payload: `[DONE]` gives
      nothing, any other payload what `parse` makes of it, when non-empty. */
  lemma DataLineFragment(payload: string, parse: string -> Option<string>)
    ensures payload == DonePayload ==> FragmentOf(DataPrefix + payload, parse) == []
    ensures payload != DonePayload && parse(payload).Some? && parse(payload).value != "" ==>
      FragmentOf(DataPrefix + payload, parse) == [parse(payload).value]
  {
    var line := DataPrefix + payload;
    assert line[6..] == payload;
    assert line[..6] == DataPrefix;
    assert StartsWith(line, DataPrefix);
  }

  /** Splitting the text of a two-event body at newlines gives its seven
      lines. */
  lemma SplitSevenLines(la: string, lb: string, ld: string)
    requires '\n' !in la && '\n' !in lb && '\n' !in ld
    ensures Split(la + "\n\n" + lb + "\n\n" + ld + "\n\n", '\n') == [la, "", lb, "", ld, "", ""]
  {
    var lines := [la, "", lb, "", ld, "", ""];
    JoinSevenLines(la, lb, ld);
    SplitChain(lines);
  }

  /** The fragments of the seven lines of a two-event body. */
  lemma SevenLines(la: string, lb: string, ld: string, a: string, b: string, parse: string -> Option<string>)
    requires FragmentOf(la, parse) == [a] && FragmentOf(lb, parse) == [b] && FragmentOf(ld, parse) == []
    ensures LinesFragments([la, "", lb, "", ld, "", ""], parse) == [a, b]
  {
    BlankLineAdds(parse);
    var l6: seq<string> := [""];
    LinesFragmentsTail(l6, [], parse);
    LinesFragmentsTail(["", ""], l6, parse);
    LinesFragmentsTail([ld, "", ""], ["", ""], parse);
    LinesFragmentsTail(["", ld, "", ""], [ld, "", ""], parse);
    LinesFragmentsTail([lb, "", ld, "", ""], ["", ld, "", ""], parse);
    LinesFragmentsTail(["", lb, "", ld, "", ""], [lb, "", ld, "", ""], parse);
    LinesFragmentsTail([la, "", lb, "", ld, "", ""], ["", lb, "", ld, "", ""], parse);
  }

  /** An empty line yields no fragment. */
  lemma BlankLineAdds(parse: string -> Option<string>)
    ensures FragmentOf("", parse) == []
  {
    BlankIsNotData("");
  }

  /** The fragments of a line followed by more lines. */
  lemma LinesFragmentsTail(lines: seq<string>, rest: seq<string>, parse: string -> Option<string>)
    requires lines != [] && lines[1..] == rest
    ensures LinesFragments(lines, parse) == FragmentOf(lines[0], parse) + LinesFragments(rest, parse)
  {
  }

  /** The join of the seven lines of a two-event body. */
  lemma JoinSevenLines(x: string, y: string, z: string)
    ensures Join([x, "", y, "", z, "", ""], '\n') == x + "\n\n" + y + "\n\n" + z + "\n\n"
  {
    var l6: seq<string> := [""];
    var l5 := [""] + l6;
    var l4 := [z] + l5;
    var l3 := [""] + l4;
    var l2 := [y] + l3;
    var l1 := [""] + l2;
    JoinCons("", l6, '\n');
    assert Join(l5, '\n') == "\n";
    JoinCons(z, l5, '\n');
    assert Join(l4, '\n') == z + "\n\n";
    JoinCons("", l4, '\n');
    JoinCons(y, l3, '\n');
    assert Join(l2, '\n') == y + "\n\n" + z + "\n\n";
    JoinCons("", l2, '\n');
    JoinCons(x, l1, '\n');
    assert [x, "", y, "", z, "", ""] == [x] + l1;
  }

  /** The join of a piece followed by more pieces. */
  lemma JoinCons(part: string, rest: seq<string>, sep: char)
    requires |rest| >= 1
    ensures Join([part] + rest, sep) == part + [sep] + Join(rest, sep)
  {
    assert ([part] + rest)[1..] == rest;
  }

  /** Joining pieces without separators and splitting again gives the pieces. */
  lemma {:induction false} SplitChain(parts: seq<string>)
    requires |parts| >= 1
    requires forall k :: 0 <= k < |parts| ==> '\n' !in parts[k]
    ensures Split(Join(parts, '\n'), '\n') == parts
  {
    if |parts| == 1 {
      SplitNoSeparator(parts[0], '\n');
    } else {
      SplitChain(parts[1..]);
      SplitAfterPiece(parts[0], '\n', Join(parts[1..], '\n'));
    }
  }
}
