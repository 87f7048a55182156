/** Concrete texts and the blocks the line renderer and the guidance panel make of them. */
module RenderExamples {
  import opened JsText
  import opened InlineFormat
  import opened InlineLaws
  import opened FormattedText
  import opened GuidanceSteps

  lemma HeadingOfPlain(c: string)
    requires c != [] && NoMarkup(c)
    ensures ClassifyLine("## " + c) == Heading([Plain(c)])
  {
    var line := "## " + c;
    assert IsHeadingLine(line) by {
      assert line[..3] == "## ";
    }
    assert line[3..] == c;
    ClassifyContent(line);
    PlainLine(c);
  }

  lemma ItemOfPlain(c: string)
    requires c != [] && NoMarkup(c)
    ensures ClassifyLine("- " + c) == ListItem([Plain(c)])
  {
    var line := "- " + c;
    assert IsListLine(line) by {
      assert line[..2] == "- ";
    }
    assert !IsHeadingLine(line) by {
      assert line[0] != '#';
    }
    assert line[2..] == c;
    ClassifyContent(line);
    PlainLine(c);
  }

  lemma ParagraphOfPlain(line: string)
    requires line != [] && NoMarkup(line)
    requires line[0] != '#' && line[0] != '-' && !IsWhiteSpace(line[0])
    ensures ClassifyLine(line) == Paragraph([Plain(line)])
  {
    assert !IsHeadingLine(line) && !IsListLine(line) by {
      if |line| >= 2 {
        assert line[..2][0] == line[0];
      }
    }
    ClassifyContent(line);
    PlainLine(line);
  }

  lemma FourLines(h: string, item: string, p: string)
    ensures Join(["## " + h, "- " + item, "", p], '\n') == "## " + h + "\n- " + item + "\n\n" + p
  {
    var lines := ["## " + h, "- " + item, "", p];
    assert Join(lines[3..], '\n') == p;
    assert Join(lines[2..], '\n') == "\n" + p;
    assert Join(lines[1..], '\n') == "- " + item + "\n\n" + p;
  }

  lemma FourRendered(h: string, item: string, p: string)
    requires '\n' !in h && '\n' !in item && '\n' !in p
    ensures RenderFormattedText(Some("## " + h + "\n- " + item + "\n\n" + p)).Some?
    ensures var nodes := RenderFormattedText(Some("## " + h + "\n- " + item + "\n\n" + p)).value;
      && |nodes| == 4
      && nodes[0] == ClassifyLine("## " + h) && nodes[1] == ClassifyLine("- " + item)
      && nodes[2] == ClassifyLine("") && nodes[3] == ClassifyLine(p)
  {
    var lines := ["## " + h, "- " + item, "", p];
    FourLines(h, item, p);
    assert '\n' !in lines[0] && '\n' !in lines[1];
    RenderLines(lines);
  }

  /** A heading, a list item, a blank line and a paragraph, in that order. */
  lemma HeadingItemBlankParagraph(h: string, item: string, p: string)
    requires h != [] && NoMarkup(h) && '\n' !in h
    requires item != [] && NoMarkup(item) && '\n' !in item
    requires p != [] && NoMarkup(p) && '\n' !in p
    requires p[0] != '#' && p[0] != '-' && !IsWhiteSpace(p[0])
    ensures RenderFormattedText(Some("## " + h + "\n- " + item + "\n\n" + p)) ==
      Some([Heading([Plain(h)]), ListItem([Plain(item)]), Spacer, Paragraph([Plain(p)])])
  {
    FourRendered(h, item, p);
    HeadingOfPlain(h);
    ItemOfPlain(item);
    ParagraphOfPlain(p);
    assert ClassifyLine("") == Spacer;
    FourNodes(RenderFormattedText(Some("## " + h + "\n- " + item + "\n\n" + p)).value,
      Heading([Plain(h)]), ListItem([Plain(item)]), Spacer, Paragraph([Plain(p)]));
  }

  lemma FourNodes(nodes: seq<Node>, a: Node, b: Node, c: Node, d: Node)
    requires |nodes| == 4 && nodes[0] == a && nodes[1] == b && nodes[2] == c && nodes[3] == d
    ensures nodes == [a, b, c, d]
  {
  }

  lemma FourKindsOfLine()
    ensures RenderFormattedText(Some("## Title\n- item one\n\nplain")) ==
      Some([Heading([Plain("Title")]), ListItem([Plain("item one")]), Spacer, Paragraph([Plain("plain")])])
  {
    assert "## " + "Title" + "\n- " + "item one" + "\n\n" + "plain" == "## Title\n- item one\n\nplain";
    assert NoMarkup("Title") && NoMarkup("item one") && NoMarkup("plain") && !IsWhiteSpace('p');
    HeadingItemBlankParagraph("Title", "item one", "plain");
  }

  lemma {:induction false} ScanPlainRun(x: string, rest: string, cur: string)
    requires '\n' !in x && '\\' !in x
    ensures StepScan(x + rest, cur) == StepScan(rest, cur + x)
    decreases |x|
  {
    if x == [] {
      assert x + rest == rest && cur + x == cur;
    } else {
      assert (x + rest)[0] == x[0] && (x + rest)[1..] == x[1..] + rest;
      ScanPlainRun(x[1..], rest, cur + [x[0]]);
      assert cur + [x[0]] + x[1..] == cur + x;
    }
  }

  lemma TwoRendered(g: string, a: string, b: string)
    requires StepPieces(g) == [a, b]
    ensures RenderGuidance(g) == [GuidanceStep(a), GuidanceStep(b)]
  {
  }

  lemma TwoStepPieces(a: string, b: string, brk: string)
    requires '\n' !in a && '\\' !in a && '\n' !in b && '\\' !in b
    requires brk == "\\n" || brk == "\n"
    ensures StepPieces(a + brk + b) == [a, b]
  {
    assert StepScan(brk + b, a) == [a] + StepScan(b, []) by {
      if brk == "\\n" {
        assert StartsEscaped(brk + b) && (brk + b)[2..] == b;
      } else {
        assert (brk + b)[0] == '\n' && (brk + b)[1..] == b;
      }
    }
    assert StepScan(b, []) == [b] by {
      ScanPlainRun(b, [], []);
      assert b + [] == b && [] + b == b;
    }
    assert a + brk + b == a + (brk + b);
    ScanPlainRun(a, brk + b, []);
    assert [] + a == a;
  }

  /** Two lines of guidance, parted by a line feed or by an escaped `\n`, are two blocks. */
  lemma TwoPieces(a: string, b: string, escaped: bool)
    requires '\n' !in a && '\\' !in a && '\n' !in b && '\\' !in b
    ensures RenderGuidance(a + (if escaped then "\\n" else "\n") + b) == [GuidanceStep(a), GuidanceStep(b)]
  {
    var brk := if escaped then "\\n" else "\n";
    TwoStepPieces(a, b, brk);
    TwoRendered(a + brk + b, a, b);
  }

  /** A plain line of guidance is an arrow step over its text. */
  lemma PlainStep(s: string)
    requires s != [] && NoMarkup(s) && '\n' !in s
    requires !IsWhiteSpace(s[0]) && !IsWhiteSpace(s[|s| - 1]) && s[0] != '-' && s[0] != '#'
    ensures GuidanceStep(s) == Step([Plain(s)])
  {
    assert Trim(s) == s by {
      TrimKeepsTrimmed(s);
    }
    assert !AllWhiteSpace(s) by {
      assert !IsWhiteSpace(s[0]);
    }
    assert !IsMarkerLed(s) by {
      if |s| >= 2 {
        assert s[..2][0] == s[0];
      }
    }
    assert GuidanceStep(s) == Step(ProcessInline(s)) by {
      GuidanceStepCases(s);
    }
    assert ProcessInline(s) == [Plain(s)] by {
      PlainLine(s);
    }
  }

  /** A heading line of guidance is the heading the line renderer makes of it. */
  lemma HeadingStep(h: string)
    requires h != [] && NoMarkup(h) && '\n' !in h && !IsWhiteSpace(h[|h| - 1])
    ensures GuidanceStep("## " + h) == Heading([Plain(h)])
  {
    var line := "## " + h;
    assert line[|line| - 1] == h[|h| - 1];
    TrimKeepsTrimmed(line);
    assert IsMarkerLed(line) by {
      assert line[..3] == "## ";
    }
    assert !AllWhiteSpace(line) by {
      assert !IsWhiteSpace(line[0]);
    }
    assert '\n' !in line by {
      assert forall i :: 3 <= i < |line| ==> line[i] == h[i - 3];
    }
    GuidanceStepCases(line);
    HeadingOfPlain(h);
  }

  /** Two plain lines of guidance are two arrow steps. */
  lemma TwoPlainSteps(a: string, b: string)
    requires a != [] && NoMarkup(a) && '\n' !in a && '\\' !in a
    requires !IsWhiteSpace(a[0]) && !IsWhiteSpace(a[|a| - 1]) && a[0] != '-' && a[0] != '#'
    requires b != [] && NoMarkup(b) && '\n' !in b && '\\' !in b
    requires !IsWhiteSpace(b[0]) && !IsWhiteSpace(b[|b| - 1]) && b[0] != '-' && b[0] != '#'
    ensures RenderGuidance(a + "\n" + b) == [Step([Plain(a)]), Step([Plain(b)])]
  {
    PlainStep(a);
    PlainStep(b);
    TwoPieces(a, b, false);
  }

  lemma TwoSteps()
    ensures RenderGuidance("Step A\nStep B") == [Step([Plain("Step A")]), Step([Plain("Step B")])]
  {
    var a, b := "Step A", "Step B";
    assert a + "\n" + b == "Step A\nStep B";
    assert NoMarkup(a) && NoMarkup(b) && !IsWhiteSpace('S') && !IsWhiteSpace('A') && !IsWhiteSpace('B');
    TwoPlainSteps(a, b);
  }

  /** The escaped `\n` of the guidance also parts lines, and a heading keeps its kind. */
  lemma HeadingThenPlain(h: string, b: string)
    requires h != [] && NoMarkup(h) && '\n' !in h && '\\' !in h && !IsWhiteSpace(h[|h| - 1])
    requires b != [] && NoMarkup(b) && '\n' !in b && '\\' !in b
    requires !IsWhiteSpace(b[0]) && !IsWhiteSpace(b[|b| - 1]) && b[0] != '-' && b[0] != '#'
    ensures RenderGuidance("## " + h + "\\n" + b) == [Heading([Plain(h)]), Step([Plain(b)])]
  {
    var a := "## " + h;
    assert '\n' !in a && '\\' !in a by {
      assert forall i :: 3 <= i < |a| ==> a[i] == h[i - 3];
    }
    HeadingStep(h);
    PlainStep(b);
    TwoPieces(a, b, true);
  }

  lemma HeadingThenStep()
    ensures RenderGuidance("## Heading\\nStep A") == [Heading([Plain("Heading")]), Step([Plain("Step A")])]
  {
    var h, b := "Heading", "Step A";
    assert "## " + h + "\\n" + b == "## Heading\\nStep A";
    assert NoMarkup(h) && NoMarkup(b) && !IsWhiteSpace('g') && !IsWhiteSpace('S') && !IsWhiteSpace('A');
    HeadingThenPlain(h, b);
  }
}
