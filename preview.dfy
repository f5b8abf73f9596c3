/**
 * `renderContent`: the preview pane turns the editor's text into one node per
 * piece of the split. A piece that starts with "```mermaid" becomes a Mermaid
 * diagram node whose source is the piece with its fences removed and trimmed;
 * every other piece becomes a Markdown node holding the piece verbatim. Nodes are
 * keyed by the index of their piece.
 */
module Preview {
  import opened Wrappers
  import opened JsString
  import opened Segmenter

  /** What `renderContent` emits for one piece: a `<MermaidComponent>` with the
      diagram source, or a `<div>` around `<ReactMarkdown>` with the prose. */
  datatype Node =
    | Markdown(key: nat, source: string)
    | Mermaid(key: nat, content: string)

  /** `part.replace('```mermaid', '').replace('```', '').trim()`. */
  function ExtractDiagram(part: string): (content: string)
    ensures Trimmed(content)
  {
    Trim(RemoveFirst(RemoveFirst(part, OPENER), FENCE))
  }

  /** The callback of `parts.map`: the branch is chosen by the piece's prefix
      alone. */
  function RenderPart(index: nat, part: string): (node: Node)
    ensures node.key == index
    ensures node.Mermaid? <==> StartsWith(part, OPENER)
    ensures node.Markdown? ==> node.source == part
    ensures node.Mermaid? ==> node.content == ExtractDiagram(part)
  {
    if StartsWith(part, OPENER) then Mermaid(index, ExtractDiagram(part))
    else Markdown(index, part)
  }

  /** `renderContent(content)`, with the preview's own guard `value &&`: absent
      or empty text renders nothing; otherwise one node per piece, in order. */
  function RenderContent(value: Option<string>): (nodes: Option<seq<Node>>)
    ensures nodes.None? <==> value.None? || value.value == []
    ensures nodes.Some? ==> |nodes.value| == |Split(value.value)|
    ensures nodes.Some? ==> forall i :: 0 <= i < |nodes.value| ==> nodes.value[i].key == i
  {
    if value.None? || value.value == [] then None
    else
      var parts := Split(value.value);
      Some(seq(|parts|, i requires 0 <= i < |parts| => RenderPart(i, parts[i])))
  }

  /** The first `replace` removes the opener a piece starts with. */
  lemma RemoveOpener(part: string)
    requires StartsWith(part, OPENER)
    ensures RemoveFirst(part, OPENER) == part[|OPENER|..]
  {
    assert IsFirstOccurrence(part, OPENER, 0);
  }

  /** After the opener of a block, the first fence is the closing one, and the
      second `replace` removes it. */
  lemma RemoveClosingFence(part: string)
    requires IsBlock(part)
    ensures RemoveFirst(part[|OPENER|..], FENCE) == BlockBody(part)
  {
    var afterOpener := part[|OPENER|..];
    var n := |BlockBody(part)|;
    forall j | 0 <= j < n ensures !OccursAt(afterOpener, FENCE, j) {
      OccursInSlice(part, FENCE, |OPENER|, |part|, j);
    }
    OccursInSlice(part, FENCE, |OPENER|, |part|, n);
    assert IsFirstOccurrence(afterOpener, FENCE, n);
    assert afterOpener[..n] == BlockBody(part);
    assert afterOpener[n + |FENCE|..] == [];
  }

  /** Removing the first "```mermaid" and then the first "```" from a matched
      block leaves exactly the text between them. */
  lemma ExtractFromBlock(part: string)
    requires IsBlock(part)
    ensures ExtractDiagram(part) == Trim(BlockBody(part))
  {
    RemoveOpener(part);
    RemoveClosingFence(part);
  }

  /** When no "```" follows the opener, the second `replace` finds nothing and
      the diagram source is the rest of the piece, trimmed. */
  lemma ExtractFromUnterminated(part: string)
    requires StartsWith(part, OPENER)
    requires forall d :: |OPENER| <= d ==> !OccursAt(part, FENCE, d)
    ensures ExtractDiagram(part) == Trim(part[|OPENER|..])
  {
    var afterOpener := part[|OPENER|..];
    RemoveOpener(part);
    forall j | 0 <= j ensures !OccursAt(afterOpener, FENCE, j) {
      OccursInSlice(part, FENCE, |OPENER|, |part|, j);
    }
  }

  /** The node at index `i` renders the piece at index `i`. */
  lemma RenderedNodeAt(content: string, i: int)
    requires content != [] && 0 <= i < |Split(content)|
    ensures RenderContent(Some(content)).value[i] == RenderPart(i, Split(content)[i])
  {
  }

  /** Every matched block is rendered as a diagram whose source is the trimmed
      text between its fences. */
  lemma RenderedBlocks(content: string)
    requires content != []
    ensures forall i :: 0 <= i < |Split(content)| && i % 2 == 1 ==>
      IsBlock(Split(content)[i])
      && RenderContent(Some(content)).value[i] == Mermaid(i, Trim(BlockBody(Split(content)[i])))
  {
    var parts := Split(content);
    SplitShape(content);
    forall i | 0 <= i < |parts| && i % 2 == 1
      ensures RenderContent(Some(content)).value[i] == Mermaid(i, Trim(BlockBody(parts[i])))
    {
      RenderedNodeAt(content, i);
      ExtractFromBlock(parts[i]);
    }
  }

  /** Every piece of prose before the last is rendered verbatim as Markdown. */
  lemma RenderedProse(content: string)
    requires content != []
    ensures forall i :: 0 <= i < |Split(content)| - 1 && i % 2 == 0 ==>
      RenderContent(Some(content)).value[i] == Markdown(i, Split(content)[i])
  {
    var parts := Split(content);
    SplitProse(content);
    forall i | 0 <= i < |parts| - 1 && i % 2 == 0
      ensures RenderContent(Some(content)).value[i] == Markdown(i, parts[i])
    {
      RenderedNodeAt(content, i);
      assert !OccursAt(parts[i], OPENER, 0);
    }
  }

  /** The last piece is a diagram exactly when it starts with "```mermaid",
      which can only be an opener without a closing fence; its source is then
      the rest of the piece, trimmed. Otherwise it is Markdown, verbatim. */
  lemma RenderedLast(content: string)
    requires content != []
    ensures var last := |Split(content)| - 1;
      var node, part := RenderContent(Some(content)).value[last], Split(content)[last];
      && (node.Mermaid? <==> StartsWith(part, OPENER))
      && (node.Markdown? ==> node == Markdown(last, part))
      && (node.Mermaid? ==> node == Mermaid(last, Trim(part[|OPENER|..])))
  {
    var parts := Split(content);
    var last := |parts| - 1;
    RenderedNodeAt(content, last);
    SplitProse(content);
    assert Last(parts) == parts[last];
    if StartsWith(parts[last], OPENER) {
      assert OccursAt(parts[last], OPENER, 0);
      ExtractFromUnterminated(parts[last]);
    }
  }

  /** Text that the split leaves whole renders as the one node of its only
      piece. */
  lemma SingleNode(s: string)
    requires s != [] && Split(s) == [s]
    ensures RenderContent(Some(s)) == Some([RenderPart(0, s)])
  {
    var nodes := RenderContent(Some(s)).value;
    assert nodes[0] == RenderPart(0, s) by {
      RenderedNodeAt(s, 0);
    }
    assert nodes == [RenderPart(0, s)];
  }

  /** Text that starts with "```mermaid" and has no "```" after that opener
      is one piece, sent to the diagram branch. */
  lemma UnterminatedText(s: string)
    requires StartsWith(s, OPENER)
    requires forall d :: |OPENER| <= d ==> !OccursAt(s, FENCE, d)
    ensures RenderContent(Some(s)) == Some([Mermaid(0, Trim(s[|OPENER|..]))])
  {
    UnterminatedHasNoBlock(s);
    SplitSingle(s);
    SingleNode(s);
    ExtractFromUnterminated(s);
  }

  /** An opener at the very start of the text with no "```" after it is sent
      to the diagram branch: the whole text becomes one diagram node. */
  lemma UnterminatedOpenerAtStart(body: string)
    requires forall d :: !OccursAt(body, FENCE, d)
    ensures RenderContent(Some(OPENER + body)) == Some([Mermaid(0, Trim(body))])
  {
    NoFenceAfterOpener(body);
    UnterminatedText(OPENER + body);
    assert (OPENER + body)[|OPENER|..] == body;
  }

  lemma NoFenceAfterOpener(body: string)
    requires forall d :: !OccursAt(body, FENCE, d)
    ensures StartsWith(OPENER + body, OPENER)
    ensures forall d :: |OPENER| <= d ==> !OccursAt(OPENER + body, FENCE, d)
  {
    var s := OPENER + body;
    assert s[..|OPENER|] == OPENER;
    assert s[|OPENER|..|s|] == body;
    forall d | |OPENER| <= d ensures !OccursAt(s, FENCE, d) {
      OccursInSlice(s, FENCE, |OPENER|, |s|, d - |OPENER|);
    }
  }

  /** Text in which the expression matches nowhere and which does not start
      with "```mermaid" (an unterminated opener preceded by other text, say)
      stays one Markdown node. */
  lemma UnmatchedTextIsProse(content: string)
    requires content != [] && !StartsWith(content, OPENER)
    requires forall c, e :: !BlockAt(content, c, e)
    ensures RenderContent(Some(content)) == Some([Markdown(0, content)])
  {
    SplitSingle(content);
    SingleNode(content);
  }
}
