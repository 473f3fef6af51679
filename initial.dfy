/** src/content/initial.ts: the page-context request made at start-up and
    the mouseup listener that arms the 1500 ms selection timer. */
module Initial {
  import opened Wrappers
  import opened JsString
  import opened SelectionTimer
  import Api

  /** At most this many characters of the page's text go into the prompt. */
  const ExcerptLength := 1000
  const ContextModel := "gpt-3.5-turbo"
  const ContextPromptPrefix := "分析这个网页的主题和上下文: "

  /** The prompt for the page's `innerText`. */
  function ContextPrompt(bodyText: string): (prompt: string)
    ensures |ContextPromptPrefix| <= |prompt| <= |ContextPromptPrefix| + ExcerptLength
    ensures prompt[..|ContextPromptPrefix|] == ContextPromptPrefix
  {
    ContextPromptPrefix + Substring(bodyText, 0, ExcerptLength)
  }

  /** `initializePageContext`: `askAI`'s answer, or the empty string when it
      throws. */
  function InitializePageContext(apiKey: string, bodyText: string, fetch: Api.Request -> Api.HttpResponse): (context: string)
    ensures context == "" ==>
      && apiKey != ""
      && var response := fetch(Api.Request(ContextModel, ContextPrompt(bodyText), false));
         || (response.status != 401 && !Api.IsOk(response.status))
         || (Api.IsOk(response.status) && response.messageContent == "")
  {
    match Api.AskAI(apiKey, ContextPrompt(bodyText), ContextModel, fetch).outcome
    case Returned(answer) => answer
    case HttpError(_) => ""
  }

  /** The prompt carries the first 1000 characters of the page, or all of a
      shorter page. */
  lemma ContextPromptExcerpt(bodyText: string)
    ensures var excerpt := ContextPrompt(bodyText)[|ContextPromptPrefix|..];
      && excerpt == bodyText[..if |bodyText| < ExcerptLength then |bodyText| else ExcerptLength]
      && |excerpt| <= ExcerptLength
  {
  }

  /** The page context is the empty-key notice without a key, the bad-key
      notice on 401, empty on any other failing status, and the model's
      answer to the context prompt otherwise. */
  lemma PageContextOutcomes(apiKey: string, bodyText: string, fetch: Api.Request -> Api.HttpResponse)
    ensures apiKey == "" ==> InitializePageContext(apiKey, bodyText, fetch) == Api.NoKeyMessage
    ensures apiKey != "" ==>
      var response := fetch(Api.Request(ContextModel, ContextPrompt(bodyText), false));
      && (response.status == 401 ==> InitializePageContext(apiKey, bodyText, fetch) == Api.BadKeyMessage)
      && (response.status != 401 && !Api.IsOk(response.status) ==> InitializePageContext(apiKey, bodyText, fetch) == "")
      && (Api.IsOk(response.status) ==> InitializePageContext(apiKey, bodyText, fetch) == response.messageContent)
  {
    Api.AskAIOutcomes(apiKey, ContextPrompt(bodyText), ContextModel, fetch);
  }

  /** The timer slot after one mouseup: a missing selection or a blank one
      returns before the timer is touched; otherwise the pending timer is
      replaced by one for the trimmed text. */
  function ListenStep(pending: Option<Armed>, selectionText: Option<string>, now: int): (t: Option<Armed>)
    ensures selectionText.None? || Trim(selectionText.value) == "" ==> t == pending
    ensures selectionText.Some? && Trim(selectionText.value) != "" ==>
      t == Some(Armed(Trim(selectionText.value), now + SelectionDelay))
  {
    match selectionText
    case None => pending
    case Some(text) =>
      var selectedText := Trim(text);
      if selectedText == "" then pending else Some(Armed(selectedText, now + SelectionDelay))
  }

  /** The timer slot after a run of mouseups, oldest first. */
  function ListenAfter(pending: Option<Armed>, events: seq<MouseUp>): Option<Armed> {
    if events == [] then pending
    else
      var last := events[|events| - 1];
      ListenStep(ListenAfter(pending, events[..|events| - 1]), Some(last.selectionText), last.time)
  }

  /** The timer a mouseup arms by itself: none for a blank selection, else
      one for its trimmed text due 1500 ms later. */
  function Arming(event: MouseUp): Option<Armed> {
    ListenStep(None, Some(event.selectionText), event.time)
  }

  /** A blank mouseup leaves the pending timer alone; a non-blank one
      replaces it with its own. */
  lemma StepByArming(pending: Option<Armed>, event: MouseUp)
    ensures Arming(event).None? ==> ListenStep(pending, Some(event.selectionText), event.time) == pending
    ensures Arming(event).Some? ==> ListenStep(pending, Some(event.selectionText), event.time) == Arming(event)
  {
  }

  /** Blank selections never touch the timer: a run of them leaves the
      pending timer as it was. */
  lemma {:induction false} BlankRunKeepsTimer(pending: Option<Armed>, events: seq<MouseUp>)
    requires forall k :: 0 <= k < |events| ==> Arming(events[k]).None?
    ensures ListenAfter(pending, events) == pending
  {
    if events != [] {
      var init := events[..|events| - 1];
      BlankRunKeepsTimer(pending, init);
      StepByArming(pending, events[|events| - 1]);
    }
  }

  /** After a run of mouseups the pending timer is the one the last
      non-blank mouseup armed. */
  lemma {:induction false} LastNonBlankDecides(pending: Option<Armed>, events: seq<MouseUp>, k: nat)
    requires k < |events| && Arming(events[k]).Some?
    requires forall j :: k < j < |events| ==> Arming(events[j]).None?
    ensures ListenAfter(pending, events) == Arming(events[k])
  {
    var last := events[|events| - 1];
    var init := events[..|events| - 1];
    var before := ListenAfter(pending, init);
    assert ListenAfter(pending, events) == ListenStep(before, Some(last.selectionText), last.time);
    StepByArming(before, last);
    if k < |events| - 1 {
      assert Arming(last).None?;
      assert init[k] == events[k];
      forall j | k < j < |init|
        ensures Arming(init[j]).None?
      {
        assert init[j] == events[j];
      }
      LastNonBlankDecides(pending, init, k);
    }
  }

  /** The `listenSelection` state: the one pending timer. */
  class SelectionListener {
    var selectionTimer: Option<Armed>

    constructor ()
      ensures selectionTimer.None?
    {
      selectionTimer := None;
    }

    /** `handleSelection` at mouseup. */
    method HandleSelection(selectionText: Option<string>, now: int)
      modifies this
      ensures selectionTimer == ListenStep(old(selectionTimer), selectionText, now)
    {
      if selectionText.None? {
        return;
      }
      var selectedText := Trim(selectionText.value);
      if selectedText == "" {
        return;
      }
      selectionTimer := Some(Armed(selectedText, now + SelectionDelay));
    }

    /** The timer fires: `processSelection` receives the text captured when
        the timer was armed. */
    method TimerFires() returns (selectedText: string)
      requires selectionTimer.Some?
      modifies this
      ensures selectedText == old(selectionTimer).value.selectedText
      ensures selectionTimer.None?
    {
      selectedText := selectionTimer.value.selectedText;
      selectionTimer := None;
    }
  }
}
