/** Concrete lines and what the inline formatter makes of them, including the
    quirks of its classification step. */
module InlineExamples {
  import opened JsText
  import opened InlineFormat
  import opened InlineLaws

  /** A target whose first character starts none of the known prefixes has none. */
  lemma NoPrefixAtFirst(url: string)
    requires url != [] && url[0] != '/' && url[0] != '#'
    requires ToLowerAscii(url[0]) !in "mthf"
    ensures !HasKnownPrefix(url)
  {
    assert url[..1][0] == url[0];
  }

  lemma BoldExample()
    ensures ProcessInline("**bold**") == [Bold("bold")]
  {
    var inner := "bold";
    assert "**" + inner + "**" == "**bold**";
    assert '*' !in inner && NoLineTerminator(inner);
    BoldSpan(inner);
  }

  lemma CodeExample()
    ensures ProcessInline("`x=1`") == [Code("x=1")]
  {
    var inner := "x=1";
    assert "`" + inner + "`" == "`x=1`";
    assert '`' !in inner && NoLineTerminator(inner);
    CodeSpan(inner);
  }

  /** A lone `**` matches nothing, yet is classified as bold: `substring(2, 0)`
      swaps its bounds and keeps the whole marker. */
  lemma LoneBoldMarker()
    ensures ProcessInline("**") == [Bold("**")]
  {
    var s := "**";
    assert MatchLen(s[1..]).None?;
    SingleGap(s);
  }

  lemma TripleStar()
    ensures ProcessInline("***") == [Bold("*")]
  {
    var s := "***";
    assert MatchLen(s[1..]).None? && MatchLen(s[2..]).None?;
    SingleGap(s);
  }

  lemma LoneBacktick()
    ensures ProcessInline("`") == [Code("`")]
  {
    SingleGap("`");
  }

  /** Plain text on both sides of a bold span stays plain. */
  lemma BoldInSentence()
    ensures ProcessInline("a **b** c") == [Plain("a "), Bold("b"), Plain(" c")]
  {
    var x, inner, y := "a ", "b", " c";
    assert x + "**" + inner + "**" + y == "a **b** c";
    assert NoMarkup(x) && NoMarkup(y);
    assert '*' !in inner && NoLineTerminator(inner);
    BoldBetween(x, inner, y);
  }

  /** An opening marker that is never closed is left as plain text. */
  lemma UnclosedBold()
    ensures ProcessInline("a **b") == [Plain("a **b")]
  {
    var x, y := "a ", "b";
    assert x + "**" + y == "a **b";
    assert NoMarkup(x) && NoMarkup(y);
    UnterminatedBold(x, y);
  }

  lemma EmptyBold()
    ensures ProcessInline("****") == [Bold("")]
  {
    var inner := "";
    assert "**" + inner + "**" == "****";
    assert '*' !in inner && NoLineTerminator(inner);
    BoldSpan(inner);
  }

  lemma EmptyCode()
    ensures ProcessInline("``") == [Code("")]
  {
    var inner := "";
    assert "`" + inner + "`" == "``";
    assert '`' !in inner && NoLineTerminator(inner);
    CodeSpan(inner);
  }

  /** Bold is tried first, and its content is not formatted again. */
  lemma CodeInsideBold()
    ensures ProcessInline("**`x`**") == [Bold("`x`")]
  {
    var inner := "`x`";
    assert "**" + inner + "**" == "**`x`**";
    assert '*' !in inner && NoLineTerminator(inner);
    BoldSpan(inner);
  }

  /** The words around a link whose target holds a space are lost. */
  lemma SwallowedWords()
    ensures ProcessInline("see [a](b c) now") == [Link("a", "https://b c")]
  {
    var x, text, w, y := "see ", "a", "b c", " now";
    assert x + "[" + text + "](" + w + ")" + y == "see [a](b c) now";
    assert NoMarkup(x) && NoMarkup(y) && NoMarkup(text) && NoMarkup(w);
    assert ']' !in text && ')' !in w && NoLineTerminator(w) && IsWhiteSpace(w[1]);
    assert NormalizeUrl(w) == "https://b c" by {
      NoPrefixAtFirst(w);
    }
    LinkSwallowsText(x, text, w, y, 1);
  }

  /** A bare domain gets `https://` in front of it. */
  lemma BareDomainLink()
    ensures ProcessInline("[ref](example.com)") == [Link("ref", "https://example.com")]
  {
    var text, target := "ref", "example.com";
    assert "[" + text + "](" + target + ")" == "[ref](example.com)";
    assert "https://" + target == "https://example.com";
    assert ']' !in text;
    assert forall i :: 0 <= i < |target| ==> IsTargetChar(target[i]);
    assert !HasKnownPrefix(target) by {
      NoPrefixAtFirst(target);
    }
    LinkToBareHost(text, target);
  }

  /** A site-relative path is kept as it is. */
  lemma RelativeLink()
    ensures ProcessInline("[home](/docs)") == [Link("home", "/docs")]
  {
    var text, target := "home", "/docs";
    assert "[" + text + "](" + target + ")" == "[home](/docs)";
    assert ']' !in text;
    assert forall i :: 0 <= i < |target| ==> IsTargetChar(target[i]);
    assert HasKnownPrefix(target) by {
      assert target[..1] == "/";
    }
    LinkKeepsKnownPrefix(text, target);
  }

  /** The href of `[a](x(y))` stops at the first `)`. */
  lemma ParenthesisedExample()
    ensures ProcessInline("[a](x(y))") == [Link("a", "https://x(y")]
  {
    var text, a, b := "a", "x", "y";
    var url := a + "(" + b;
    assert "[" + text + "](" + a + "(" + b + "))" == "[a](x(y))";
    assert "https://" + url == "https://x(y";
    assert ']' !in text;
    assert IsTargetChar(a[0]) && IsTargetChar(b[0]);
    assert !HasKnownPrefix(url) by {
      NoPrefixAtFirst(url);
    }
    ParenthesisedTarget(text, a, b);
  }
}
