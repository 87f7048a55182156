/** `renderFormattedText`: a block of text is cut at each line feed, and each
    line becomes a heading, a list item, a small vertical space or a paragraph,
    with the inline formatter applied to what follows the line's marker. */
module FormattedText {
  import opened JsText
  import opened InlineFormat

  /** One rendered block. `Step` is the arrow-led line of the guidance panel. */
  datatype Node =
    | Heading(spans: seq<Span>)
    | ListItem(spans: seq<Span>)
    | Spacer
    | Paragraph(spans: seq<Span>)
    | Step(spans: seq<Span>)

  predicate IsHeadingLine(line: string) {
    StartsWith(line, "## ")
  }

  predicate IsListLine(line: string) {
    StartsWith(line, "- ") || StartsWith(line, "* ")
  }

  /** The block one line becomes. Headings are tested first, then list items,
      then blank lines (`line.trim() === ''`); a paragraph keeps its line untrimmed. */
  function ClassifyLine(line: string): (r: Node)
    ensures !r.Step?
  {
    if IsHeadingLine(line) then Heading(ProcessInline(Substring(line, 3, |line|)))
    else if IsListLine(line) then ListItem(ProcessInline(Substring(line, 2, |line|)))
    else if Trim(line) == [] then Spacer
    else Paragraph(ProcessInline(line))
  }

  /** The whole text: nothing (`null`) for an absent or empty text, otherwise one
      block per line, line feeds only. */
  function RenderFormattedText(text: Option<string>): (r: Option<seq<Node>>)
    ensures r.None? <==> text.None? || text.value == []
    ensures r.Some? ==> |r.value| == Count(text.value, '\n') + 1
  {
    if text.None? || text.value == [] then None
    else
      var lines := Split(text.value, '\n');
      Some(seq(|lines|, i requires 0 <= i < |lines| => ClassifyLine(lines[i])))
  }

  /** The kind of block is decided by the line alone, in a fixed order: a `## `
      marker wins over a list marker, and only a line of white space is a spacer. */
  lemma ClassifyPrecedence(line: string)
    ensures ClassifyLine(line).Heading? <==> IsHeadingLine(line)
    ensures ClassifyLine(line).ListItem? <==> !IsHeadingLine(line) && IsListLine(line)
    ensures ClassifyLine(line).Spacer? <==> AllWhiteSpace(line)
    ensures ClassifyLine(line).Paragraph? <==> !IsHeadingLine(line) && !IsListLine(line) && !AllWhiteSpace(line)
  {
    if IsHeadingLine(line) || IsListLine(line) {
      assert line[..2][0] == line[0];
      assert !IsWhiteSpace(line[0]);
    }
  }

  /** The spans of a heading come from the text after `## `, those of a list item
      from the text after its two-character marker, those of a paragraph from the
      whole line, white space included. */
  lemma ClassifyContent(line: string)
    ensures IsHeadingLine(line) ==> ClassifyLine(line) == Heading(ProcessInline(line[3..]))
    ensures !IsHeadingLine(line) && IsListLine(line) ==> ClassifyLine(line) == ListItem(ProcessInline(line[2..]))
    ensures !IsHeadingLine(line) && !IsListLine(line) && !AllWhiteSpace(line) ==> ClassifyLine(line) == Paragraph(ProcessInline(line))
  {
    if IsHeadingLine(line) {
      assert Substring(line, 3, |line|) == line[3..];
    } else if IsListLine(line) {
      assert Substring(line, 2, |line|) == line[2..];
    } else {
      ClassifyPrecedence(line);
    }
  }

  /** Text without a line feed is one block. In particular an escaped `\n`
      (a backslash and an `n`) does not start a new line here. */
  lemma OneLine(t: string)
    requires t != [] && '\n' !in t
    ensures RenderFormattedText(Some(t)) == Some([ClassifyLine(t)])
  {
    SplitJoin([t], '\n');
    assert Join([t], '\n') == t;
    assert Split(t, '\n') == [t];
    var nodes := RenderFormattedText(Some(t)).value;
    assert |nodes| == 1 && nodes[0] == ClassifyLine(t);
    assert nodes == [ClassifyLine(t)];
  }

  /** Lines joined with line feeds come back one block per line, in order. */
  lemma RenderLines(lines: seq<string>)
    requires |lines| >= 1 && Join(lines, '\n') != []
    requires forall k :: 0 <= k < |lines| ==> '\n' !in lines[k]
    ensures RenderFormattedText(Some(Join(lines, '\n'))).Some?
    ensures var nodes := RenderFormattedText(Some(Join(lines, '\n'))).value;
      |nodes| == |lines| && forall i :: 0 <= i < |lines| ==> nodes[i] == ClassifyLine(lines[i])
  {
    SplitJoin(lines, '\n');
  }

  /** The blocks of a text are the blocks of its lines: line `i` of the text is
      block `i`, and the text is the lines joined back with line feeds. */
  lemma RenderedLines(s: string)
    requires s != []
    ensures RenderFormattedText(Some(s)).Some?
    ensures var nodes := RenderFormattedText(Some(s)).value;
      && Join(Split(s, '\n'), '\n') == s
      && forall i :: 0 <= i < |nodes| ==> nodes[i] == ClassifyLine(Split(s, '\n')[i])
  {
    JoinSplit(s, '\n');
  }
}
