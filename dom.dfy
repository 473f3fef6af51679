/** DOM helpers of src/content/dom.ts over an abstract node model: a node is
    a value with an identity `key`, a type, a tag name, an `id` attribute and
    its text content; a parent's children are a sequence that the two
    tree-editing operations change in place. */
module Dom {
  import opened Wrappers
  import opened JsString

  datatype NodeType = ElementNode | TextNode | OtherNode

  datatype Node = Node(key: nat, nodeType: NodeType, nodeName: string, id: string, textContent: string)

  /** `getTargetNode`: a text-node start container is replaced by its parent
      element (which may be missing); any other node is returned as it is. */
  function GetTargetNode(startContainer: Node, parentElement: Option<Node>): (target: Option<Node>)
    ensures startContainer.nodeType != TextNode ==> target == Some(startContainer)
    ensures startContainer.nodeType == TextNode ==> target == parentElement
  {
    if startContainer.nodeType == TextNode then parentElement else Some(startContainer)
  }

  /** When the parent, if any, is an element, the target is never a text
      node, and it is an element unless the start container is a node of
      another kind. */
  lemma TargetIsNotText(startContainer: Node, parentElement: Option<Node>)
    requires parentElement.Some? ==> parentElement.value.nodeType == ElementNode
    ensures var target := GetTargetNode(startContainer, parentElement);
      target.Some? ==> target.value.nodeType != TextNode
    ensures var target := GetTargetNode(startContainer, parentElement);
      target.Some? && startContainer.nodeType != OtherNode ==> target.value.nodeType == ElementNode
  {
  }

  /** `element.closest(name)` over the inclusive ancestor chain (the element
      first, then its ancestors outward): the first element with that tag. */
  function Closest(chain: seq<Node>, name: string): (r: Option<Node>)
    ensures r.Some? ==> r.value in chain && r.value.nodeType == ElementNode && r.value.nodeName == name
    ensures r.None? ==> forall k :: 0 <= k < |chain| ==> !(chain[k].nodeType == ElementNode && chain[k].nodeName == name)
  {
    if chain == [] then None
    else if chain[0].nodeType == ElementNode && chain[0].nodeName == name then Some(chain[0])
    else
      assert forall k :: 1 <= k < |chain| ==> chain[k] == chain[1..][k - 1];
      Closest(chain[1..], name)
  }

  predicate IsBr(n: Node) {
    n.nodeName == "BR"
  }

  /** The first sibling from index `from` on that stops the walk (a BR or a
      text node), or the end of the chain. */
  function NextStop(siblings: seq<Node>, from: nat): (k: nat)
    requires from <= |siblings|
    ensures from <= k <= |siblings|
    ensures k < |siblings| ==> IsBr(siblings[k]) || siblings[k].nodeType == TextNode
    ensures forall m :: from <= m < k ==> !IsBr(siblings[m]) && siblings[m].nodeType != TextNode
    decreases |siblings| - from
  {
    if from == |siblings| then from
    else if IsBr(siblings[from]) || siblings[from].nodeType == TextNode then from
    else NextStop(siblings, from + 1)
  }

  /** `findInsertPosition` over the start node's sibling chain, `siblings[start]`
      being the start node and `siblings[k + 1]` the `nextSibling` of
      `siblings[k]`: a text node's position moves to the first following BR
      when no text node comes before it; anything else stays put. */
  method FindInsertPosition(siblings: seq<Node>, start: nat) returns (position: nat)
    requires start < |siblings|
    ensures start <= position < |siblings|
    ensures siblings[start].nodeType != TextNode ==> position == start
    ensures siblings[start].nodeType == TextNode ==>
      var stop := NextStop(siblings, start + 1);
      position == if stop < |siblings| && IsBr(siblings[stop]) then stop else start
  {
    position := start;
    if siblings[start].nodeType == TextNode {
      var next := start + 1;
      while next < |siblings|
        invariant start + 1 <= next <= |siblings|
        invariant NextStop(siblings, start + 1) == NextStop(siblings, next)
        invariant position == start
      {
        if IsBr(siblings[next]) {
          position := next;
          break;
        }
        if siblings[next].nodeType == TextNode {
          break;
        }
        next := next + 1;
      }
    }
  }

  /** The position is the start node or a later BR sibling with only
      non-text, non-BR nodes in between. */
  lemma InsertPositionIsLaterBr(siblings: seq<Node>, start: nat, position: nat)
    requires start < |siblings| && siblings[start].nodeType == TextNode
    requires var stop := NextStop(siblings, start + 1);
      position == if stop < |siblings| && IsBr(siblings[stop]) then stop else start
    ensures position == start || (position > start && IsBr(siblings[position]))
    ensures forall m :: start < m < position ==> siblings[m].nodeType != TextNode
    ensures position == start ==> forall m :: start < m < |siblings| && IsBr(siblings[m]) ==>
      exists t :: start < t < m && siblings[t].nodeType == TextNode
  {
    var stop := NextStop(siblings, start + 1);
    if position == start {
      forall m | start < m < |siblings| && IsBr(siblings[m])
        ensures exists t :: start < t < m && siblings[t].nodeType == TextNode
      {
        assert stop <= m;
        assert stop < |siblings| && !IsBr(siblings[stop]);
        assert siblings[stop].nodeType == TextNode;
        assert stop != m;
      }
    }
  }

  /** No node appears twice among a parent's children. */
  ghost predicate Distinct(s: seq<Node>) {
    forall i, j :: 0 <= i < j < |s| ==> s[i] != s[j]
  }

  /** The index of a child. */
  function FirstIndex(s: seq<Node>, x: Node): (i: nat)
    requires x in s
    ensures i < |s| && s[i] == x
    ensures forall j :: 0 <= j < i ==> s[j] != x
  {
    if s[0] == x then 0 else 1 + FirstIndex(s[1..], x)
  }

  /** A node whose children are updated in place. */
  class ParentNode {
    var childNodes: seq<Node>

    constructor (children: seq<Node>)
      ensures childNodes == children
    {
      childNodes := children;
    }

    /** `parent.insertBefore(node, reference)`: before the reference child, or
        at the end when the reference is `null`. */
    method InsertBefore(node: Node, reference: Option<Node>)
      requires reference.Some? ==> reference.value in childNodes
      modifies this
      ensures reference.None? ==> childNodes == old(childNodes) + [node]
      ensures reference.Some? ==>
        var i := FirstIndex(old(childNodes), reference.value);
        childNodes == old(childNodes)[..i] + [node] + old(childNodes)[i..]
    {
      if reference.None? {
        childNodes := childNodes + [node];
      } else {
        var i := FirstIndex(childNodes, reference.value);
        childNodes := childNodes[..i] + [node] + childNodes[i..];
      }
    }

    /** `parent.replaceChild(fragment, child)`: the fragment's nodes take the
        child's place, in order. */
    method ReplaceChild(fragment: seq<Node>, child: Node)
      requires child in childNodes
      modifies this
      ensures var i := FirstIndex(old(childNodes), child);
        childNodes == old(childNodes)[..i] + fragment + old(childNodes)[i + 1..]
    {
      var i := FirstIndex(childNodes, child);
      childNodes := childNodes[..i] + fragment + childNodes[i + 1..];
    }
  }

  /** `insertTranslatedParagraph`: `insertBefore(paragraph, position.nextSibling)`,
      which places the paragraph immediately after the insert position
      `parent.childNodes[at]`. */
  method InsertTranslatedParagraph(paragraph: Node, parent: ParentNode, at: nat)
    requires at < |parent.childNodes| && Distinct(parent.childNodes)
    modifies parent
    ensures parent.childNodes == old(parent.childNodes)[..at + 1] + [paragraph] + old(parent.childNodes)[at + 1..]
  {
    var children := parent.childNodes;
    var nextSibling := if at + 1 < |children| then Some(children[at + 1]) else None;
    parent.InsertBefore(paragraph, nextSibling);
    if at + 1 < |children| {
      assert FirstIndex(children, children[at + 1]) == at + 1;
    } else {
      assert children[..at + 1] == children && children[at + 1..] == [];
    }
  }

  /** The three texts `addUnderlineToSelection` cuts a text node into. */
  datatype UnderlineSplit = UnderlineSplit(before: string, selected: string, after: string)

  /** `substring(0, start)`, `substring(start, end)` and `substring(end)` of
      the start container's text. */
  function SplitForUnderline(text: string, startOffset: int, endOffset: int): (r: UnderlineSplit)
    ensures |r.before| <= |text| && r.before == text[..|r.before|]
    ensures |r.after| <= |text| && r.after == text[|text| - |r.after|..]
    ensures |r.selected| <= |text|
  {
    UnderlineSplit(Substring(text, 0, startOffset), Substring(text, startOffset, endOffset), SubstringFrom(text, endOffset))
  }

  /** With ordered offsets inside the text the three pieces rebuild it, and
      the underlined piece is exactly the range. */
  lemma SplitRebuildsText(text: string, startOffset: int, endOffset: int)
    requires 0 <= startOffset <= endOffset <= |text|
    ensures var r := SplitForUnderline(text, startOffset, endOffset);
      r.before + r.selected + r.after == text && r.selected == text[startOffset..endOffset]
  {
    var r := SplitForUnderline(text, startOffset, endOffset);
    assert r.before == text[..startOffset];
    assert text[..startOffset] + text[startOffset..endOffset] + text[endOffset..] == text;
  }

  /** With reversed offsets `substring` swaps them: the underlined piece is
      `text[end..start]` and the pieces repeat it, so they no longer rebuild
      the text. */
  lemma SplitReversedOffsets(text: string, startOffset: int, endOffset: int)
    requires 0 <= endOffset < startOffset <= |text|
    ensures var r := SplitForUnderline(text, startOffset, endOffset);
      r.selected == text[endOffset..startOffset]
      && |r.before + r.selected + r.after| == |text| + 2 * (startOffset - endOffset)
  {
  }

  /** `addUnderlineToSelection`: the text node is replaced by a text node
      with the part before the range, a span with the selected part, and a
      text node with the rest, in that order; nothing is replaced when the
      node has no parent. Returns the span. */
  method AddUnderlineToSelection(textNode: Node, parent: ParentNode?, startOffset: int, endOffset: int,
                                 beforeKey: nat, spanKey: nat, afterKey: nat)
    returns (span: Node)
    requires parent != null ==> textNode in parent.childNodes
    modifies parent
    ensures var r := SplitForUnderline(textNode.textContent, startOffset, endOffset);
      span == Node(spanKey, ElementNode, "SPAN", "", r.selected)
    ensures parent != null ==>
      var r := SplitForUnderline(textNode.textContent, startOffset, endOffset);
      var i := FirstIndex(old(parent.childNodes), textNode);
      parent.childNodes == old(parent.childNodes)[..i]
        + [Node(beforeKey, TextNode, "#text", "", r.before), span, Node(afterKey, TextNode, "#text", "", r.after)]
        + old(parent.childNodes)[i + 1..]
  {
    var text := textNode.textContent;
    var beforeText := Substring(text, 0, startOffset);
    var selectedContent := Substring(text, startOffset, endOffset);
    var afterText := SubstringFrom(text, endOffset);
    span := Node(spanKey, ElementNode, "SPAN", "", selectedContent);
    var fragment := [Node(beforeKey, TextNode, "#text", "", beforeText), span, Node(afterKey, TextNode, "#text", "", afterText)];
    if parent != null {
      parent.ReplaceChild(fragment, textNode);
    }
  }

  /** `appendLexicalUnit`'s display text: the selected text, followed by the
      phonetic text in parentheses when there is one. */
  function DisplayText(selectedText: string, phoneticText: string): string {
    if phoneticText != "" then selectedText + "(" + phoneticText + ")" else selectedText
  }

  /** The display text starts with the selection; it adds exactly the
      parenthesised phonetic text when that is non-empty, and nothing
      otherwise. */
  lemma DisplayTextParts(selectedText: string, phoneticText: string)
    ensures var d := DisplayText(selectedText, phoneticText);
      && d[..|selectedText|] == selectedText
      && (phoneticText == "" <==> d == selectedText)
      && (phoneticText != "" ==> d[|selectedText|..] == "(" + phoneticText + ")")
  {
  }
}
