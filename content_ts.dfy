/** The selection gate of src/content/content.ts: the 't' key trigger and
    `processSelection`'s chain of early returns ending in a choice between
    full-paragraph and partial translation. The DOM helper
    `isEntireParagraphSelected`, whose code is not part of this model, is a
    parameter. */
module SelectionFlow {
  import opened Wrappers
  import opened JsString
  import Classifier
  import Dom

  /** What `processSelection` goes on to do. */
  datatype Action =
    | DoNothing
    | TranslateFullParagraph(target: Dom.Node)
    | TranslatePartialText(selectedText: string, fullParagraphText: string)

  /** The current selection as `processSelection` sees it: its range count,
      its text, the start container of its first range, that container's
      parent element, and the ancestors of the target element, innermost
      first. */
  datatype Selection = Selection(rangeCount: nat, text: string, startContainer: Dom.Node,
                                 parentElement: Option<Dom.Node>, ancestors: seq<Dom.Node>)

  /** The text `translatePartialText` gets as context: the text of the
      closest `<p>` around the target (the target included), or of the
      target itself when there is none. */
  function ParagraphText(target: Dom.Node, ancestors: seq<Dom.Node>): (r: string)
    ensures r == target.textContent || exists k :: 0 <= k < |ancestors| && r == ancestors[k].textContent
  {
    Dom.Closest([target] + ancestors, "P").GetOr(target).textContent
  }

  /** `processSelection`. A target that is not an element (a start
      container that is neither text nor element) has no `closest`, so the
      call throws there and nothing is translated. */
  function ProcessSelection(selection: Selection, isEntireParagraphSelected: (Dom.Node, string) -> bool): (a: Action)
    ensures !a.DoNothing? ==> selection.rangeCount > 0 && Trim(selection.text) != ""
    ensures !a.DoNothing? ==> !Classifier.IsChineseText(Trim(selection.text))
    ensures a.TranslateFullParagraph? ==> isEntireParagraphSelected(a.target, Trim(selection.text))
    ensures a.TranslateFullParagraph? ==> a.target.nodeType == Dom.ElementNode
    ensures a.TranslatePartialText? ==> a.selectedText == Trim(selection.text)
  {
    if selection.rangeCount == 0 then DoNothing
    else
      var selectedText := Trim(selection.text);
      if selectedText == "" then DoNothing
      else if Classifier.IsChineseText(selectedText) then DoNothing
      else match Dom.GetTargetNode(selection.startContainer, selection.parentElement)
        case None => DoNothing
        case Some(target) =>
          if target.nodeType != Dom.ElementNode then DoNothing
          else if isEntireParagraphSelected(target, selectedText) then TranslateFullParagraph(target)
          else TranslatePartialText(selectedText, ParagraphText(target, selection.ancestors))
  }

  /** The guards pass exactly when there is a range, the trimmed text is
      non-empty and not Chinese, and the target found is an element. */
  predicate GuardsPass(selection: Selection) {
    && selection.rangeCount > 0
    && Trim(selection.text) != ""
    && !Classifier.IsChineseText(Trim(selection.text))
    && TargetIsElement(selection)
  }

  /** `getTargetNode` finds a target, and it is an element. */
  predicate TargetIsElement(selection: Selection) {
    var target := Dom.GetTargetNode(selection.startContainer, selection.parentElement);
    target.Some? && target.value.nodeType == Dom.ElementNode
  }

  /** Nothing happens exactly when a guard fails; otherwise exactly one of
      the two translations runs, the full one exactly when the whole
      paragraph is selected, on the target element, and the partial one
      with the trimmed text and the paragraph's text. */
  lemma ProcessSelectionDispatch(selection: Selection, isEntireParagraphSelected: (Dom.Node, string) -> bool)
    ensures var a := ProcessSelection(selection, isEntireParagraphSelected);
      && (a.DoNothing? <==> !GuardsPass(selection))
      && (GuardsPass(selection) ==>
            var target := Dom.GetTargetNode(selection.startContainer, selection.parentElement).value;
            var selectedText := Trim(selection.text);
            && (a.TranslateFullParagraph? <==> isEntireParagraphSelected(target, selectedText))
            && (a.TranslateFullParagraph? ==> a.target == target)
            && (a.TranslatePartialText? ==>
                  a.selectedText == selectedText && a.fullParagraphText == ParagraphText(target, selection.ancestors)))
  {
  }

  /** The paragraph context is the text of the innermost `<p>` element among
      the target and its ancestors, or the target's own text when none of
      them is a `<p>`. */
  lemma ParagraphTextSource(target: Dom.Node, ancestors: seq<Dom.Node>)
    ensures var chain := [target] + ancestors;
      var isP := (n: Dom.Node) => n.nodeType == Dom.ElementNode && n.nodeName == "P";
      && ((forall k :: 0 <= k < |chain| ==> !isP(chain[k])) ==> ParagraphText(target, ancestors) == target.textContent)
      && (forall k :: 0 <= k < |chain| && isP(chain[k]) && (forall j :: 0 <= j < k ==> !isP(chain[j])) ==>
            ParagraphText(target, ancestors) == chain[k].textContent)
  {
    var chain := [target] + ancestors;
    forall k | 0 <= k < |chain| && chain[k].nodeType == Dom.ElementNode && chain[k].nodeName == "P"
                 && (forall j :: 0 <= j < k ==> !(chain[j].nodeType == Dom.ElementNode && chain[j].nodeName == "P"))
      ensures ParagraphText(target, ancestors) == chain[k].textContent
    {
      ClosestIsFirst(chain, "P", k);
    }
  }

  /** `closest` returns the first matching element of the chain. */
  lemma {:induction false} ClosestIsFirst(chain: seq<Dom.Node>, name: string, k: nat)
    requires k < |chain| && chain[k].nodeType == Dom.ElementNode && chain[k].nodeName == name
    requires forall j :: 0 <= j < k ==> !(chain[j].nodeType == Dom.ElementNode && chain[j].nodeName == name)
    ensures Dom.Closest(chain, name) == Some(chain[k])
  {
    if k > 0 {
      ClosestIsFirst(chain[1..], name, k - 1);
    }
  }

  /** A selection with kana is never skipped as Chinese: with a range and a
      target element it is always translated one way or the other. */
  lemma KanaSelectionIsTranslated(selection: Selection, isEntireParagraphSelected: (Dom.Node, string) -> bool, i: nat)
    requires selection.rangeCount > 0
    requires i < |Trim(selection.text)| && Classifier.IsKana(Trim(selection.text)[i])
    requires TargetIsElement(selection)
    ensures !ProcessSelection(selection, isEntireParagraphSelected).DoNothing?
  {
    Classifier.KanaMeansNotChinese(Trim(selection.text), i);
    ProcessSelectionDispatch(selection, isEntireParagraphSelected);
  }

  /** In the DOM a parent is always an element, so a selection that starts
      in a text node or an element never fails the element test: it is
      dropped only by the other guards or a missing parent. */
  lemma TextStartPassesTargetGuard(selection: Selection, isEntireParagraphSelected: (Dom.Node, string) -> bool)
    requires selection.startContainer.nodeType != Dom.OtherNode
    requires selection.parentElement.Some? ==> selection.parentElement.value.nodeType == Dom.ElementNode
    ensures ProcessSelection(selection, isEntireParagraphSelected).DoNothing? <==>
      || selection.rangeCount == 0
      || Trim(selection.text) == ""
      || Classifier.IsChineseText(Trim(selection.text))
      || Dom.GetTargetNode(selection.startContainer, selection.parentElement).None?
  {
    Dom.TargetIsNotText(selection.startContainer, selection.parentElement);
    ProcessSelectionDispatch(selection, isEntireParagraphSelected);
  }

  /** A selection that starts in a node that is neither text nor element
      (a comment, the document) reaches `closest` on that node, which
      throws: nothing is translated. */
  lemma OtherStartIsNotTranslated(selection: Selection, isEntireParagraphSelected: (Dom.Node, string) -> bool)
    requires selection.startContainer.nodeType == Dom.OtherNode
    ensures ProcessSelection(selection, isEntireParagraphSelected).DoNothing?
  {
  }

  /** The capturing `keydown` listener: `key.toLowerCase() === 't'`, and a
      selection whose trimmed text is non-empty. */
  predicate TriggersOnKey(key: string, selectionText: Option<string>)
    ensures TriggersOnKey(key, selectionText) <==>
      (key == "t" || key == "T") && selectionText.Some? && Trim(selectionText.value) != ""
  {
    LowerIsTOnlyForT(key);
    ToLowerCase(key) == "t" && selectionText.Some? && Trim(selectionText.value) != ""
  }

  /** Only "t" and "T" lower-case to "t". */
  lemma LowerIsTOnlyForT(key: string)
    ensures ToLowerCase(key) == "t" <==> key == "t" || key == "T"
  {
    if ToLowerCase(key) == "t" {
      assert |key| == 1 && LowerChar(key[0]) == 't';
      assert key == [key[0]];
    }
  }

  /** A key press that triggers `processSelection` is a 't' or 'T' with a
      non-blank selection, so it already passes the text guard; any other
      key, or a missing selection, triggers nothing. */
  lemma KeyTriggerPassesTextGuard(key: string, selection: Selection)
    requires TriggersOnKey(key, Some(selection.text))
    ensures key == "t" || key == "T"
    ensures Trim(selection.text) != ""
    ensures !TriggersOnKey(key, None)
    ensures forall other: string :: other != "t" && other != "T" ==> !TriggersOnKey(other, Some(selection.text))
  {
    LowerIsTOnlyForT(key);
    forall other: string | other != "t" && other != "T"
      ensures !TriggersOnKey(other, Some(selection.text))
    {
      LowerIsTOnlyForT(other);
    }
  }

  /** After the key trigger, `processSelection` does nothing exactly when
      there is no range, the trimmed text is Chinese, or the target found
      is missing or not an element; otherwise it translates. */
  lemma KeyTriggerDispatch(key: string, selection: Selection, isEntireParagraphSelected: (Dom.Node, string) -> bool)
    requires TriggersOnKey(key, Some(selection.text))
    ensures ProcessSelection(selection, isEntireParagraphSelected).DoNothing? <==>
      || selection.rangeCount == 0
      || Classifier.IsChineseText(Trim(selection.text))
      || !TargetIsElement(selection)
  {
    ProcessSelectionDispatch(selection, isEntireParagraphSelected);
  }
}
