/** What the inline formatter promises about the spans of a line: exact
    coverage, delimiter stripping, unterminated markers left as text, link
    extraction and URL normalisation, and the quirks of the classification. */
module InlineLaws {
  import opened JsText
  import opened InlineFormat

  /** The target as far as the extraction reads it: up to its first `)`. */
  function UpToParen(target: string): (r: string)
    ensures |r| <= |target| && r == target[..|r|]
    ensures ')' !in r
    ensures |r| < |target| ==> target[|r|] == ')'
  {
    match IndexOf(target, 0, ')')
    case Some(i) => target[..i]
    case None => target
  }

  predicate IsMarkupChar(c: char) {
    c == '*' || c == '`' || c == '['
  }

  predicate NoMarkup(s: string) {
    forall i :: 0 <= i < |s| ==> !IsMarkupChar(s[i])
  }

  lemma NoMatchWithoutMarkup(t: string)
    requires t != [] && !IsMarkupChar(t[0])
    ensures MatchLen(t).None?
  {
  }

  /** A text no match starts in is one piece. */
  lemma SingleGap(s: string)
    requires s != []
    requires forall k :: 0 <= k < |s| ==> MatchLen(s[k..]).None?
    ensures Pieces(s) == [Gap(s)]
  {
    assert s[..|s|] == s && s[|s|..] == [];
    assert WellSplit(s, [Gap(s)]);
    PiecesCharacterised(s, [Gap(s)]);
  }

  /** A text the pattern matches whole is one piece. */
  lemma SingleHit(u: string)
    requires MatchLen(u) == Some(|u|)
    ensures Pieces(u) == [Hit(u)]
  {
    assert u[..|u|] == u && u[|u|..] == [];
    assert WellSplit(u, [Hit(u)]);
    PiecesCharacterised(u, [Hit(u)]);
  }

  lemma OnePiece(s: string, p: Piece)
    requires Pieces(s) == [p]
    ensures ProcessInline(s) == [Classify(p.text)]
  {
  }

  /** Concatenating the pieces (before delimiters are stripped) gives back the
      line, and no piece is empty. */
  lemma {:induction false} Coverage(s: string)
    ensures Texts(Pieces(s)) == s
    ensures forall k :: 0 <= k < |Pieces(s)| ==> Pieces(s)[k].text != []
    ensures s == [] <==> ProcessInline(s) == []
  {
  }

  /** A line with no `*`, backtick or `[` is one plain span; an empty line has no span. */
  lemma PlainLine(s: string)
    requires NoMarkup(s)
    ensures ProcessInline(s) == if s == [] then [] else [Plain(s)]
  {
    if s != [] {
      forall k | 0 <= k < |s| ensures MatchLen(s[k..]).None? {
        NoMatchWithoutMarkup(s[k..]);
      }
      SingleGap(s);
      assert s[0] != '*' && s[0] != '`';
    }
  }

  /** A piece that is not wrapped in `**` or backticks and holds no `[` stays plain. */
  lemma ClassifyPlain(s: string)
    requires !(StartsWith(s, "**") && EndsWith(s, "**"))
    requires !(StartsWith(s, "`") && EndsWith(s, "`"))
    requires forall i :: 0 <= i < |s| ==> s[i] != '['
    ensures Classify(s) == Plain(s)
  {
  }

  lemma BoldOpenerNeverCloses(y: string)
    requires NoMarkup(y)
    ensures MatchLen("**" + y).None? && MatchLen("*" + y).None?
  {
    var t := "**" + y;
    assert LazyClose(t, 2, "**").None? by {
      forall i | 2 <= i < |t| ensures t[i] != '*' {
        assert t[i] == y[i - 2];
      }
      StarsNeverClose(t);
    }
    MatchAtStars(t);
    var u := "*" + y;
    assert u[0] == '*';
    assert |u| >= 2 ==> u[1] != '*' by {
      if |u| >= 2 {
        assert u[1] == y[0];
      }
    }
    LoneStar(u);
  }

  /** `**` that is never followed by another `*` is never closed. */
  lemma StarsNeverClose(t: string)
    requires StartsWith(t, "**")
    requires forall i :: 2 <= i < |t| ==> t[i] != '*'
    ensures LazyClose(t, 2, "**").None?
  {
    forall i | 2 <= i < |t| ensures !OccursAt(t, i, "**") {
      if i + 2 <= |t| {
        assert t[i..i + 2][0] == t[i];
      }
    }
  }

  /** A single `*` not followed by another starts no match. */
  lemma LoneStar(u: string)
    requires |u| > 0 && u[0] == '*' && (|u| >= 2 ==> u[1] != '*')
    ensures MatchLen(u).None?
  {
    assert !StartsWith(u, "**") by {
      if |u| >= 2 {
        assert u[..2][1] == u[1];
      }
    }
  }

  lemma CodeOpenerNeverCloses(y: string)
    requires NoMarkup(y)
    ensures MatchLen("`" + y).None?
  {
    var t := "`" + y;
    forall j | 1 <= j < |t| ensures !OccursAt(t, j, "`") {
      assert t[j..j + 1][0] == t[j] == y[j - 1];
    }
    assert t[0] == '`';
    assert BoldLen(t).None?;
    assert LinkLen(t).None?;
    assert LazyClose(t, 1, "`").None?;
  }

  /** No match starts in `x + m + y` when the markup-free `x` and `y` surround a
      marker `m` that cannot start a match there. */
  lemma NoMatchAround(x: string, m: string, y: string)
    requires NoMarkup(x) && NoMarkup(y)
    requires forall j :: 0 <= j < |m| ==> MatchLen(m[j..] + y).None?
    ensures forall k :: 0 <= k < |x + m + y| ==> MatchLen((x + m + y)[k..]).None?
  {
    var s := x + m + y;
    forall k | 0 <= k < |s| ensures MatchLen(s[k..]).None? {
      if k < |x| {
        assert s[k] == x[k];
        NoMatchWithoutMarkup(s[k..]);
      } else if k < |x| + |m| {
        assert s[k..] == m[k - |x|..] + y;
      } else {
        assert s[k] == y[k - |x| - |m|];
        NoMatchWithoutMarkup(s[k..]);
      }
    }
  }

  /** Markup-free text around a marker without `[`, with text on at least one
      side, is neither wrapped in `**` nor in backticks and has no link. */
  lemma ClassifyMarked(x: string, m: string, y: string)
    requires NoMarkup(x) && NoMarkup(y) && (x != [] || y != [])
    requires '[' !in m
    ensures Classify(x + m + y) == Plain(x + m + y)
  {
    var s := x + m + y;
    if x == [] {
      assert s[|s| - 1] == y[|y| - 1];
    } else {
      assert s[0] == x[0];
    }
    forall i | 0 <= i < |s| ensures s[i] != '[' {
      if i < |x| { assert s[i] == x[i]; }
      else if i < |x| + |m| { assert s[i] == m[i - |x|]; }
      else { assert s[i] == y[i - |x| - |m|]; }
    }
    ClassifyPlain(s);
  }

  lemma UnterminatedBoldPieces(x: string, y: string)
    requires NoMarkup(x) && NoMarkup(y)
    ensures Pieces(x + "**" + y) == [Gap(x + "**" + y)]
  {
    BoldOpenerNeverCloses(y);
    assert "**"[1..] + y == "*" + y && "**"[0..] + y == "**" + y;
    NoMatchAround(x, "**", y);
    SingleGap(x + "**" + y);
  }

  /** An opening `**` with no closing one is left as text. */
  lemma UnterminatedBold(x: string, y: string)
    requires NoMarkup(x) && NoMarkup(y)
    requires x != [] || y != []
    ensures ProcessInline(x + "**" + y) == [Plain(x + "**" + y)]
  {
    UnterminatedBoldPieces(x, y);
    OnePiece(x + "**" + y, Gap(x + "**" + y));
    ClassifyMarked(x, "**", y);
  }

  lemma UnterminatedCodePieces(x: string, y: string)
    requires NoMarkup(x) && NoMarkup(y)
    ensures Pieces(x + "`" + y) == [Gap(x + "`" + y)]
  {
    CodeOpenerNeverCloses(y);
    assert "`"[0..] + y == "`" + y;
    NoMatchAround(x, "`", y);
    SingleGap(x + "`" + y);
  }

  /** An opening backtick with no closing one is left as text. */
  lemma UnterminatedCode(x: string, y: string)
    requires NoMarkup(x) && NoMarkup(y)
    requires x != [] || y != []
    ensures ProcessInline(x + "`" + y) == [Plain(x + "`" + y)]
  {
    UnterminatedCodePieces(x, y);
    OnePiece(x + "`" + y, Gap(x + "`" + y));
    ClassifyMarked(x, "`", y);
  }

  /** A text starting with `**` can only match the bold alternative. */
  lemma MatchAtStars(u: string)
    requires StartsWith(u, "**")
    ensures MatchLen(u) == LazyClose(u, 2, "**")
  {
    assert u[0] == u[..2][0] == '*';
  }

  /** A text starting with a backtick can only match the code alternative. */
  lemma MatchAtBacktick(u: string)
    requires |u| > 0 && u[0] == '`'
    ensures MatchLen(u) == LazyClose(u, 1, "`")
  {
    assert !StartsWith(u, "**") by {
      if |u| >= 2 {
        assert u[..2][0] == u[0];
      }
    }
    assert u[..1] == "`";
  }

  lemma BoldMatchesWhole(inner: string)
    requires '*' !in inner && NoLineTerminator(inner)
    ensures MatchLen("**" + inner + "**") == Some(|"**" + inner + "**"|)
  {
    var u := "**" + inner + "**";
    assert LazyClose(u, 2, "**") == Some(|u|) by {
      assert ClosesAt(u, 2, "**", |u|) by {
        assert u[2..|u| - 2] == inner;
        assert u[|u| - 2..|u|] == "**";
      }
      LazyCloseComplete(u, 2, "**", |u|);
      forall i | 2 <= i < |u| - 2 ensures !OccursAt(u, i, "**") {
        assert u[i] == inner[i - 2];
        assert i + 2 <= |u| ==> u[i..i + 2][0] == u[i];
      }
    }
    assert StartsWith(u, "**") by {
      assert u[..2] == "**";
    }
    MatchAtStars(u);
  }

  lemma ClassifyBold(inner: string)
    ensures Classify("**" + inner + "**") == Bold(inner)
  {
    var u := "**" + inner + "**";
    assert u[..2] == "**" && u[|u| - 2..] == "**";
    assert u[2..|u| - 2] == inner;
  }

  /** `**inner**` is one bold span holding `inner` as written: the content is not
      formatted again. */
  lemma BoldSpan(inner: string)
    requires '*' !in inner && NoLineTerminator(inner)
    ensures ProcessInline("**" + inner + "**") == [Bold(inner)]
  {
    var u := "**" + inner + "**";
    assert Pieces(u) == [Hit(u)] by {
      BoldMatchesWhole(inner);
      SingleHit(u);
    }
    OnePiece(u, Hit(u));
    ClassifyBold(inner);
  }

  lemma CodeMatchesWhole(inner: string)
    requires '`' !in inner && NoLineTerminator(inner)
    ensures MatchLen("`" + inner + "`") == Some(|"`" + inner + "`"|)
  {
    var u := "`" + inner + "`";
    assert LazyClose(u, 1, "`") == Some(|u|) by {
      forall i | 1 <= i < |u| - 1 ensures u[i] != '`' && !IsLineTerminator(u[i]) {
        assert u[i] == inner[i - 1];
      }
      LazyCloseAtFirst(u, 1, |u| - 1, '`');
      assert ['`'] == "`";
    }
    MatchAtBacktick(u);
  }

  lemma ClassifyCode(inner: string)
    ensures Classify("`" + inner + "`") == Code(inner)
  {
    var u := "`" + inner + "`";
    assert !StartsWith(u, "**") by {
      assert u[..2][0] == '`';
    }
    assert u[..1] == "`" && u[|u| - 1..] == "`";
    assert u[1..|u| - 1] == inner;
  }

  /** `` `inner` `` is one code span holding `inner` as written. */
  lemma CodeSpan(inner: string)
    requires '`' !in inner && NoLineTerminator(inner)
    ensures ProcessInline("`" + inner + "`") == [Code(inner)]
  {
    var u := "`" + inner + "`";
    assert Pieces(u) == [Hit(u)] by {
      CodeMatchesWhole(inner);
      SingleHit(u);
    }
    OnePiece(u, Hit(u));
    ClassifyCode(inner);
  }

  lemma {:induction false} TargetHasNoWhiteSpace(target: string)
    ensures IsTarget(target) ==> forall i :: 0 <= i < |target| ==> !IsWhiteSpace(target[i])
    decreases |target|
  {
    if !IsTarget(target) {
    } else if IsTargetChar(target[0]) && |target| > 1 && IsTarget(target[1..]) {
      TargetHasNoWhiteSpace(target[1..]);
      assert forall i :: 1 <= i < |target| ==> target[i] == target[1..][i - 1];
    } else if !IsTargetChar(target[0]) || |target| > 1 {
      var g: nat :| 2 <= g <= |target| && IsGroup(target[..g]) && (g == |target| || IsTarget(target[g..]));
      if g < |target| {
        TargetHasNoWhiteSpace(target[g..]);
        assert forall i :: g <= i < |target| ==> target[i] == target[g..][i - g];
      }
      assert forall i :: 0 <= i < g ==> target[i] == target[..g][i];
    }
  }

  /** A one-character closing delimiter reached with no line terminator on the way
      is where the lazy run ends. */
  lemma {:induction false} LazyCloseAtFirst(t: string, j: nat, m: nat, c: char)
    requires j <= m < |t| && t[m] == c
    requires forall i :: j <= i < m ==> t[i] != c && !IsLineTerminator(t[i])
    ensures LazyClose(t, j, [c]) == Some(m + 1)
    decreases m - j
  {
    if j < m {
      assert !OccursAt(t, j, [c]) by { assert t[j..j + 1][0] == t[j]; }
      LazyCloseAtFirst(t, j + 1, m, c);
    } else {
      assert t[j..j + 1] == [c];
    }
  }

  lemma LinkAtReads(u: string, k: nat, m: nat)
    requires |u| > 0 && u[0] == '['
    requires IndexOf(u, 1, ']') == Some(k) && 2 <= k && k + 1 < |u| && u[k + 1] == '('
    requires LazyClose(u, k + 2, ")") == Some(m)
    ensures LinkAt(u) == Some((u[1..k], u[k + 2..m - 1]))
  {
  }

  lemma LabelEnd(text: string, rest: string)
    requires ']' !in text
    ensures IndexOf("[" + text + "]" + rest, 1, ']') == Some(|text| + 1)
  {
    var u := "[" + text + "]" + rest;
    assert u[|text| + 1] == ']';
    assert forall i :: 1 <= i < |text| + 1 ==> u[i] == text[i - 1];
  }

  lemma TargetEnd(pre: string, target: string)
    requires NoLineTerminator(target)
    ensures LazyClose(pre + target + ")", |pre|, ")") == Some(|pre| + |UpToParen(target)| + 1)
    ensures (pre + target + ")")[|pre|..|pre| + |UpToParen(target)|] == UpToParen(target)
  {
    var u := pre + target + ")";
    var r := UpToParen(target);
    var p := |r|;
    forall i | |pre| <= i < |pre| + p ensures u[i] == r[i - |pre|] {
      assert u[i] == target[i - |pre|];
    }
    assert u[|pre| + p] == ')' by {
      if p < |target| {
        assert u[|pre| + p] == target[p];
      }
    }
    assert u[|pre|..|pre| + p] == r;
    LazyCloseAtFirst(u, |pre|, |pre| + p, ')');
    assert [')'] == ")";
  }

  lemma LabelAt(text: string, rest: string)
    requires text != [] && ']' !in text
    ensures var u := "[" + text + "](" + rest;
      && u[0] == '[' && u[|text| + 2] == '('
      && IndexOf(u, 1, ']') == Some(|text| + 1)
      && u[1..|text| + 1] == text
  {
    var u := "[" + text + "](" + rest;
    assert u == "[" + text + "]" + ("(" + rest);
    LabelEnd(text, "(" + rest);
    assert u[1..] == text + "](" + rest;
    assert u[1..|text| + 1] == u[1..][..|text|];
  }

  /** The extraction reads back the label and the target up to its first `)`,
      whatever the target holds besides line terminators. */
  lemma LinkExtract(text: string, target: string)
    requires text != [] && ']' !in text
    requires NoLineTerminator(target)
    ensures LinkAt("[" + text + "](" + target + ")") == Some((text, UpToParen(target)))
  {
    var pre := "[" + text + "](";
    var u := pre + target + ")";
    assert u == "[" + text + "](" + (target + ")");
    LabelAt(text, target + ")");
    TargetEnd(pre, target);
    LinkAtReads(u, |text| + 1, |pre| + |UpToParen(target)| + 1);
  }

  lemma TargetHasNoLineTerminator(target: string)
    requires IsTarget(target)
    ensures NoLineTerminator(target)
  {
    TargetHasNoWhiteSpace(target);
  }

  lemma ClassifyLink(u: string, text: string, url: string)
    requires |u| > 0 && u[0] == '['
    requires LinkAt(u) == Some((text, url))
    ensures Classify(u) == Link(text, NormalizeUrl(url))
  {
    assert !StartsWith(u, "**") && !StartsWith(u, "`");
  }

  /** A text the link alternative matches is read back by the extraction. */
  lemma LinkShapeReads(u: string, k: nat)
    requires LinkShape(u, k)
    ensures LinkAt(u) == Some((u[1..k], UpToParen(u[k + 2..|u| - 1])))
  {
    var text, target := u[1..k], u[k + 2..|u| - 1];
    assert ']' !in text by {
      assert forall i :: 0 <= i < |text| ==> text[i] == u[i + 1];
    }
    assert u == "[" + text + "](" + target + ")";
    TargetHasNoLineTerminator(target);
    LinkExtract(text, target);
  }

  lemma LinkShapeOf(text: string, target: string)
    requires text != [] && ']' !in text
    requires IsTarget(target)
    ensures LinkShape("[" + text + "](" + target + ")", |text| + 1)
  {
    var u := "[" + text + "](" + target + ")";
    var k := |text| + 1;
    assert u[k + 2..|u| - 1] == target;
    assert forall i :: 1 <= i < k ==> u[i] == text[i - 1];
  }

  /** A text starting with `[` can only match the link alternative. */
  lemma MatchAtBracket(u: string)
    requires |u| > 0 && u[0] == '['
    ensures MatchLen(u) == LinkLen(u)
  {
    assert !StartsWith(u, "**") && !StartsWith(u, "`");
  }

  lemma LinkMatchesWhole(text: string, target: string)
    requires text != [] && ']' !in text
    requires IsTarget(target)
    ensures MatchLen("[" + text + "](" + target + ")") == Some(|"[" + text + "](" + target + ")"|)
  {
    var u := "[" + text + "](" + target + ")";
    assert LinkLen(u) == Some(|u|) by {
      LinkShapeOf(text, target);
      LinkLenWhole(u, |text| + 1);
    }
    MatchAtBracket(u);
  }

  /** `[text](target)` with a target the pattern accepts is one link span; its
      href is the target up to its first `)`, normalised. */
  lemma LinkSpan(text: string, target: string)
    requires text != [] && ']' !in text
    requires IsTarget(target)
    ensures ProcessInline("[" + text + "](" + target + ")") == [Link(text, NormalizeUrl(UpToParen(target)))]
  {
    var u := "[" + text + "](" + target + ")";
    LinkMatchesWhole(text, target);
    SingleHit(u);
    OnePiece(u, Hit(u));
    TargetHasNoLineTerminator(target);
    LinkExtract(text, target);
    ClassifyLink(u, text, UpToParen(target));
  }

  /** Every match of the pattern becomes a formatted span, never plain text:
      bold and code with their delimiters stripped, a link read back by the extraction. */
  lemma HitSpan(u: string)
    requires MatchLen(u) == Some(|u|)
    ensures u[0] == '*' || u[0] == '`' || u[0] == '['
    ensures u[0] == '*' ==> Classify(u) == Bold(u[2..|u| - 2])
    ensures u[0] == '`' ==> Classify(u) == Code(u[1..|u| - 1])
    ensures u[0] == '[' ==> exists k: nat :: LinkShape(u, k) && Classify(u) == Link(u[1..k], NormalizeUrl(UpToParen(u[k + 2..|u| - 1])))
  {
    MatchLenShortest(u, |u|);
    assert u[..|u|] == u;
    if u[0] == '[' {
      assert !IsBoldText(u) && !IsCodeText(u);
      var k: nat :| LinkShape(u, k);
      LinkShapeReads(u, k);
      ClassifyLink(u, u[1..k], UpToParen(u[k + 2..|u| - 1]));
    }
  }

  /** A match stays the same match whatever follows it. */
  lemma MatchExtends(m: string, y: string)
    requires MatchLen(m) == Some(|m|)
    ensures MatchLen(m + y) == Some(|m|)
  {
    var t := m + y;
    assert IsPatternText(t[..|m|]) by {
      MatchLenShortest(m, |m|);
      assert t[..|m|] == m && m[..|m|] == m;
    }
    assert MatchLen(t).Some? && MatchLen(t).value <= |m| by {
      MatchLenShortest(t, |m|);
    }
    var n := MatchLen(t).value;
    assert IsPatternText(m[..n]) by {
      MatchLenShortest(t, n);
      assert t[..n] == m[..n];
    }
    MatchLenShortest(m, n);
  }

  /** The text of a match, taken alone, is matched whole. */
  lemma MatchIsWhole(t: string, n: nat)
    requires MatchLen(t) == Some(n)
    ensures MatchLen(t[..n]) == Some(n)
  {
    var u := t[..n];
    assert IsPatternText(u[..n]) by {
      MatchLenShortest(t, n);
      assert u[..n] == u;
    }
    assert MatchLen(u).Some? && MatchLen(u).value <= n by {
      MatchLenShortest(u, n);
    }
    var m := MatchLen(u).value;
    assert IsPatternText(t[..m]) by {
      MatchLenShortest(u, m);
      assert u[..m] == t[..m];
    }
    MatchLenShortest(t, m);
  }

  lemma {:induction false} WellSplitHits(s: string, ps: seq<Piece>)
    requires WellSplit(s, ps)
    ensures forall k :: 0 <= k < |ps| && ps[k].Hit? ==> MatchLen(ps[k].text) == Some(|ps[k].text|)
    decreases |ps|
  {
    if ps != [] {
      var t := ps[0].text;
      WellSplitHits(s[|t|..], ps[1..]);
      if ps[0].Hit? {
        MatchIsWhole(s, |t|);
      }
      assert forall k :: 1 <= k < |ps| ==> ps[k] == ps[1..][k - 1];
    }
  }

  lemma SpanOfPiece(s: string, k: nat)
    requires k < |Pieces(s)|
    ensures ProcessInline(s)[k] == Classify(Pieces(s)[k].text)
  {
  }

  lemma PieceFormatted(s: string, k: nat)
    requires k < |Pieces(s)|
    ensures Pieces(s)[k].Hit? ==> !ProcessInline(s)[k].Plain?
    ensures Pieces(s)[k].Gap? && NoMarkup(Pieces(s)[k].text) ==> ProcessInline(s)[k] == Plain(Pieces(s)[k].text)
  {
    var t := Pieces(s)[k].text;
    SpanOfPiece(s, k);
    if Pieces(s)[k].Hit? {
      assert MatchLen(t) == Some(|t|) by {
        PiecesWellSplit(s);
        WellSplitHits(s, Pieces(s));
      }
      HitSpan(t);
    } else if NoMarkup(t) {
      NoMarkupPlain(t);
    }
  }

  /** Every piece the pattern matched becomes a bold, code or link span, and
      the gaps between matches that hold no marker character stay plain text. */
  lemma HitsFormatted(s: string)
    ensures forall k :: 0 <= k < |Pieces(s)| && Pieces(s)[k].Hit? ==> !ProcessInline(s)[k].Plain?
    ensures forall k :: 0 <= k < |Pieces(s)| && Pieces(s)[k].Gap? && NoMarkup(Pieces(s)[k].text) ==>
      ProcessInline(s)[k] == Plain(Pieces(s)[k].text)
  {
    forall k | 0 <= k < |Pieces(s)| {
      PieceFormatted(s, k);
    }
  }

  /** A text without marker characters is one gap, when it is not empty. */
  lemma GapAlone(y: string)
    requires NoMarkup(y) && y != []
    ensures WellSplit(y, [Gap(y)])
  {
    assert y[..|y|] == y && y[|y|..] == [];
    forall k | 0 <= k < |y| ensures MatchLen(y[k..]).None? {
      NoMatchWithoutMarkup(y[k..]);
    }
  }

  lemma HitThenGap(m: string, y: string)
    requires NoMarkup(y) && y != []
    requires MatchLen(m) == Some(|m|)
    ensures WellSplit(m + y, [Hit(m), Gap(y)])
  {
    GapAlone(y);
    MatchExtends(m, y);
    assert (m + y)[..|m|] == m && (m + y)[|m|..] == y;
    assert [Hit(m), Gap(y)][1..] == [Gap(y)];
  }

  lemma GapThenRest(x: string, r: string, ps: seq<Piece>)
    requires NoMarkup(x) && x != []
    requires ps != [] && ps[0].Hit? && WellSplit(r, ps)
    ensures WellSplit(x + r, [Gap(x)] + ps)
  {
    var s := x + r;
    assert s[..|x|] == x && s[|x|..] == r;
    forall k | 0 <= k < |x| ensures MatchLen(s[k..]).None? {
      assert s[k..][0] == x[k];
      NoMatchWithoutMarkup(s[k..]);
    }
    assert ([Gap(x)] + ps)[1..] == ps;
  }

  lemma NoMarkupPlain(s: string)
    requires NoMarkup(s)
    ensures Classify(s) == Plain(s)
  {
    if |s| >= 2 {
      assert s[..2][0] == s[0];
    }
    if |s| >= 1 {
      assert s[..1][0] == s[0];
    }
    ClassifyPlain(s);
  }

  lemma PiecesBetween(x: string, m: string, y: string)
    requires NoMarkup(x) && NoMarkup(y) && x != [] && y != []
    requires MatchLen(m) == Some(|m|)
    ensures Pieces(x + m + y) == [Gap(x), Hit(m), Gap(y)]
  {
    var ps := [Gap(x), Hit(m), Gap(y)];
    assert WellSplit(x + m + y, ps) by {
      HitThenGap(m, y);
      GapThenRest(x, m + y, [Hit(m), Gap(y)]);
      assert x + m + y == x + (m + y);
      assert [Gap(x)] + [Hit(m), Gap(y)] == ps;
    }
    PiecesCharacterised(x + m + y, ps);
  }

  lemma ThreePieces(s: string, a: Piece, b: Piece, c: Piece)
    requires Pieces(s) == [a, b, c]
    ensures ProcessInline(s) == [Classify(a.text), Classify(b.text), Classify(c.text)]
  {
  }

  /** A match with plain text on both sides: three spans, the middle one formatted. */
  lemma Between(x: string, m: string, y: string)
    requires NoMarkup(x) && NoMarkup(y) && x != [] && y != []
    requires MatchLen(m) == Some(|m|)
    ensures ProcessInline(x + m + y) == [Plain(x), Classify(m), Plain(y)]
  {
    PiecesBetween(x, m, y);
    ThreePieces(x + m + y, Gap(x), Hit(m), Gap(y));
    NoMarkupPlain(x);
    NoMarkupPlain(y);
  }

  /** `x **inner** y`: the bold span sits between two plain spans. */
  lemma BoldBetween(x: string, inner: string, y: string)
    requires NoMarkup(x) && NoMarkup(y) && x != [] && y != []
    requires '*' !in inner && NoLineTerminator(inner)
    ensures ProcessInline(x + "**" + inner + "**" + y) == [Plain(x), Bold(inner), Plain(y)]
  {
    var m := "**" + inner + "**";
    assert MatchLen(m) == Some(|m|) by {
      BoldMatchesWhole(inner);
    }
    assert Classify(m) == Bold(inner) by {
      ClassifyBold(inner);
    }
    Between(x, m, y);
    WrappedIn(x, "**", inner, y);
  }

  lemma WrappedIn(x: string, d: string, inner: string, y: string)
    ensures x + d + inner + d + y == x + (d + inner + d) + y
  {
  }

  /** A run of characters that are neither white space nor parentheses is a link target. */
  lemma {:induction false} PlainTarget(t: string)
    requires t != [] && forall i :: 0 <= i < |t| ==> IsTargetChar(t[i])
    ensures IsTarget(t)
    decreases |t|
  {
    if |t| > 1 {
      PlainTarget(t[1..]);
    }
  }

  /** A link whose target has no scheme, path or fragment prefix gets `https://` in front. */
  lemma LinkToBareHost(text: string, target: string)
    requires text != [] && ']' !in text
    requires target != [] && forall i :: 0 <= i < |target| ==> IsTargetChar(target[i])
    requires !HasKnownPrefix(target)
    ensures ProcessInline("[" + text + "](" + target + ")") == [Link(text, "https://" + target)]
  {
    PlainTarget(target);
    LinkSpan(text, target);
    assert UpToParen(target) == target;
  }

  /** A link whose target starts with `/`, `#` or a known scheme keeps it as it is. */
  lemma LinkKeepsKnownPrefix(text: string, target: string)
    requires text != [] && ']' !in text
    requires target != [] && forall i :: 0 <= i < |target| ==> IsTargetChar(target[i])
    requires HasKnownPrefix(target)
    ensures ProcessInline("[" + text + "](" + target + ")") == [Link(text, target)]
  {
    PlainTarget(target);
    LinkSpan(text, target);
    assert UpToParen(target) == target;
  }

  lemma GroupTarget(b: string)
    requires forall i :: 0 <= i < |b| ==> IsTargetChar(b[i])
    ensures IsTarget("(" + b + ")")
  {
    GroupOfRun(b);
    GroupIsTarget("(" + b + ")");
  }

  lemma GroupOfRun(b: string)
    requires forall i :: 0 <= i < |b| ==> IsTargetChar(b[i])
    ensures IsGroup("(" + b + ")")
  {
    var g := "(" + b + ")";
    forall i | 1 <= i < |g| - 1 ensures IsTargetChar(g[i]) {
      assert g[i] == b[i - 1];
    }
  }

  lemma GroupIsTarget(g: string)
    requires IsGroup(g)
    ensures IsTarget(g)
  {
    assert g[..|g|] == g;
  }

  /** The extraction reads `a(b)` only as far as `a(b`. */
  lemma UpToParenOfGroup(a: string, b: string)
    requires ')' !in a && ')' !in b
    ensures UpToParen(a + "(" + b + ")") == a + "(" + b
  {
    var t := a + "(" + b + ")";
    var r := UpToParen(t);
    assert ')' !in a + "(" + b;
    assert t[|a| + |b| + 1] == ')';
    assert t[..|a| + |b| + 1] == a + "(" + b;
  }

  /** The pattern accepts one level of parentheses in a target, as in `[t](a(b))`,
      but the extraction stops at the first `)`: the href is read from `a(b` alone. */
  lemma ParenthesisedTarget(text: string, a: string, b: string)
    requires text != [] && ']' !in text
    requires a != [] && forall i :: 0 <= i < |a| ==> IsTargetChar(a[i])
    requires forall i :: 0 <= i < |b| ==> IsTargetChar(b[i])
    ensures ProcessInline("[" + text + "](" + a + "(" + b + "))") == [Link(text, NormalizeUrl(a + "(" + b))]
  {
    var target := a + ("(" + b + ")");
    assert IsTarget(target) by {
      GroupTarget(b);
      TargetThenTarget(a, "(" + b + ")");
    }
    assert UpToParen(target) == a + "(" + b by {
      assert target == a + "(" + b + ")";
      UpToParenOfGroup(a, b);
    }
    LinkSpan(text, target);
    NestedLinkText(text, a, b);
  }

  lemma NestedLinkText(text: string, a: string, b: string)
    ensures "[" + text + "](" + (a + ("(" + b + ")")) + ")" == "[" + text + "](" + a + "(" + b + "))"
  {
  }

  lemma {:induction false} TargetThenTarget(a: string, g: string)
    requires a != [] && forall i :: 0 <= i < |a| ==> IsTargetChar(a[i])
    requires IsTarget(g)
    ensures IsTarget(a + g)
    decreases |a|
  {
    assert (a + g)[0] == a[0];
    if |a| == 1 {
      assert (a + g)[1..] == g;
    } else {
      TargetThenTarget(a[1..], g);
      assert (a + g)[1..] == a[1..] + g;
    }
  }

  lemma SpacedTargetNoLink(text: string, w: string, y: string, sp: nat, n: nat, k: nat)
    requires text != [] && ']' !in text
    requires sp < |w| && IsWhiteSpace(w[sp]) && ')' !in w
    requires n <= |"[" + text + "](" + w + ")" + y|
    ensures !LinkShape(("[" + text + "](" + w + ")" + y)[..n], k)
  {
    var t := "[" + text + "](" + w + ")" + y;
    var K := |text| + 1;
    var u := t[..n];
    assert t[K] == ']' && t[K + 1] == '(';
    if k < K {
      if 2 <= k < n {
        assert u[k] == text[k - 1];
      }
    } else if k > K {
      if K < n {
        assert u[K] == ']';
      }
    } else if K + 3 < n && n - 1 < K + 2 + |w| {
      assert u[n - 1] == w[n - 1 - K - 2];
    } else if K + 3 < n {
      var target := u[K + 2..n - 1];
      assert target[sp] == w[sp] by {
        assert K + 2 + sp < n - 1;
        assert t[K + 2 + sp] == w[sp];
        assert target[sp] == t[K + 2 + sp];
      }
      TargetHasNoWhiteSpace(target);
    }
  }

  /** The text before a `[` that opens no link is never matched. */
  lemma SpacedTargetNoMatch(text: string, w: string, y: string, sp: nat)
    requires text != [] && ']' !in text
    requires sp < |w| && IsWhiteSpace(w[sp]) && ')' !in w
    ensures MatchLen("[" + text + "](" + w + ")" + y).None?
  {
    var t := "[" + text + "](" + w + ")" + y;
    forall n | 0 <= n <= |t| ensures !IsPatternText(t[..n]) {
      forall k: nat ensures !LinkShape(t[..n], k) {
        SpacedTargetNoLink(text, w, y, sp, n, k);
      }
      if n > 0 {
        assert t[..n][0] == '[';
      }
    }
    if MatchLen(t).Some? {
      MatchLenShortest(t, MatchLen(t).value);
    }
  }

  /** `match` without the `g` flag finds a link whenever one starts somewhere
      in the piece, and the one it returns is the leftmost. */
  lemma {:induction false} FindLinkLeftmost(part: string, i: nat)
    requires i < |part| && LinkAt(part[i..]).Some?
    ensures exists j :: 0 <= j <= i && FindLink(part) == LinkAt(part[j..]) &&
                        forall j' :: 0 <= j' < j ==> LinkAt(part[j'..]).None?
    decreases i
  {
    assert part[0..] == part;
    if LinkAt(part).Some? {
      assert FindLink(part) == LinkAt(part[0..]);
    } else {
      var rest := part[1..];
      assert rest[i - 1..] == part[i..];
      FindLinkLeftmost(rest, i - 1);
      var j0: nat :| j0 <= i - 1 && FindLink(rest) == LinkAt(rest[j0..]) &&
                     forall j' :: 0 <= j' < j0 ==> LinkAt(rest[j'..]).None?;
      assert rest[j0..] == part[j0 + 1..];
      forall j' | 0 <= j' < j0 + 1 ensures LinkAt(part[j'..]).None? {
        if j' > 0 {
          assert part[j'..] == rest[j' - 1..];
        }
      }
      assert FindLink(part) == LinkAt(part[j0 + 1..]);
    }
  }

  /** What the extraction returns is a link read at some position of the piece. */
  lemma {:induction false} FindLinkSound(part: string)
    ensures FindLink(part).Some? ==>
      exists j :: 0 <= j < |part| && FindLink(part) == LinkAt(part[j..])
    decreases |part|
  {
    if part != [] && FindLink(part).Some? {
      if LinkAt(part).Some? {
        assert part[0..] == part;
      } else {
        FindLinkSound(part[1..]);
        var j: nat :| j < |part[1..]| && FindLink(part[1..]) == LinkAt(part[1..][j..]);
        assert part[1..][j..] == part[j + 1..];
      }
    }
  }

  lemma {:induction false} FindLinkSkip(x: string, r: string)
    requires NoMarkup(x)
    ensures FindLink(x + r) == FindLink(r)
    decreases |x|
  {
    if x != [] {
      assert (x + r)[0] == x[0] && (x + r)[1..] == x[1..] + r;
      FindLinkSkip(x[1..], r);
    } else {
      assert x + r == r;
    }
  }

  /** Past `pre`, a run without `)` or line terminator closes at the `)` after it. */
  lemma CloseAfter(pre: string, w: string, y: string)
    requires ')' !in w && NoLineTerminator(w)
    ensures LazyClose(pre + w + ")" + y, |pre|, ")") == Some(|pre| + |w| + 1)
    ensures (pre + w + ")" + y)[|pre|..|pre| + |w|] == w
  {
    var u := pre + w + ")" + y;
    forall i | |pre| <= i < |pre| + |w| ensures u[i] == w[i - |pre|] {
    }
    assert u[|pre| + |w|] == ')';
    LazyCloseAtFirst(u, |pre|, |pre| + |w|, ')');
    assert [')'] == ")";
  }

  /** The converse of the read-back in `LinkAt`: any text that starts with
      `[` label `](` url `)`, the label non-empty and without `]`, the url without
      `)` or line terminator, is read as that label and url, whatever follows. */
  lemma LinkAtComplete(text: string, w: string, y: string)
    requires text != [] && ']' !in text
    requires ')' !in w && NoLineTerminator(w)
    ensures LinkAt("[" + text + "](" + w + ")" + y) == Some((text, w))
  {
    var pre := "[" + text + "](";
    var u := pre + w + ")" + y;
    assert u == "[" + text + "](" + (w + ")" + y);
    LabelAt(text, w + ")" + y);
    CloseAfter(pre, w, y);
    LinkAtReads(u, |text| + 1, |pre| + |w| + 1);
  }

  lemma MarkupOnlyAtBracket(x: string, text: string, w: string, y: string)
    requires NoMarkup(x) && NoMarkup(text) && NoMarkup(w) && NoMarkup(y)
    ensures forall k :: 0 <= k < |x + "[" + text + "](" + w + ")" + y| && k != |x| ==>
      !IsMarkupChar((x + "[" + text + "](" + w + ")" + y)[k])
  {
    var r := "](" + w + ")" + y;
    assert NoMarkup(r) by {
      assert forall i :: 2 <= i < 2 + |w| ==> r[i] == w[i - 2];
      assert forall i :: 3 + |w| <= i < |r| ==> r[i] == y[i - 3 - |w|];
    }
    var s := x + "[" + text + r;
    assert s == x + "[" + text + "](" + w + ")" + y;
    forall k | 0 <= k < |s| && k != |x| ensures !IsMarkupChar(s[k]) {
      if k < |x| {
        assert s[k] == x[k];
      } else if k < |x| + 1 + |text| {
        assert s[k] == text[k - |x| - 1];
      } else {
        assert s[k] == r[k - |x| - 1 - |text|];
      }
    }
  }

  lemma SpacedTargetPieces(x: string, text: string, w: string, y: string, sp: nat)
    requires NoMarkup(x) && NoMarkup(y)
    requires text != [] && ']' !in text && NoMarkup(text)
    requires sp < |w| && IsWhiteSpace(w[sp]) && ')' !in w && NoMarkup(w)
    ensures Pieces(x + "[" + text + "](" + w + ")" + y) == [Gap(x + "[" + text + "](" + w + ")" + y)]
  {
    var t := "[" + text + "](" + w + ")" + y;
    var s := x + "[" + text + "](" + w + ")" + y;
    assert s == x + t;
    MarkupOnlyAtBracket(x, text, w, y);
    forall k | 0 <= k < |s| ensures MatchLen(s[k..]).None? {
      if k == |x| {
        assert s[k..] == t;
        SpacedTargetNoMatch(text, w, y, sp);
      } else {
        assert s[k..][0] == s[k];
        NoMatchWithoutMarkup(s[k..]);
      }
    }
    SingleGap(s);
  }

  lemma ClassifyFound(s: string, text: string, url: string)
    requires s != [] && s[0] != '*' && s[0] != '`'
    requires FindLink(s) == Some((text, url))
    ensures Classify(s) == Link(text, NormalizeUrl(url))
  {
    assert !StartsWith(s, "**") by {
      if |s| >= 2 {
        assert s[..2][0] == s[0];
      }
    }
    assert !StartsWith(s, "`") by {
      assert s[..1][0] == s[0];
    }
  }

  lemma SpacedTargetClassify(x: string, text: string, w: string, y: string)
    requires NoMarkup(x)
    requires text != [] && ']' !in text
    requires ')' !in w && NoLineTerminator(w)
    ensures Classify(x + "[" + text + "](" + w + ")" + y) == Link(text, NormalizeUrl(w))
  {
    var t := "[" + text + "](" + w + ")" + y;
    var s := x + "[" + text + "](" + w + ")" + y;
    assert s == x + t;
    assert FindLink(s) == Some((text, w)) by {
      FindLinkSkip(x, t);
      LinkAtComplete(text, w, y);
    }
    assert s[0] != '*' && s[0] != '`' by {
      if x != [] {
        assert s[0] == x[0];
      } else {
        assert s[0] == t[0];
      }
    }
    ClassifyFound(s, text, w);
  }

  /** A link whose target holds white space is refused by the pattern, so the line
      is one gap; the classification still finds the link in it, and the whole
      line (the text around the link included) renders as that one link. */
  lemma LinkSwallowsText(x: string, text: string, w: string, y: string, sp: nat)
    requires NoMarkup(x) && NoMarkup(y)
    requires text != [] && ']' !in text && NoMarkup(text)
    requires sp < |w| && IsWhiteSpace(w[sp]) && ')' !in w && NoLineTerminator(w) && NoMarkup(w)
    ensures ProcessInline(x + "[" + text + "](" + w + ")" + y) == [Link(text, NormalizeUrl(w))]
  {
    var s := x + "[" + text + "](" + w + ")" + y;
    SpacedTargetPieces(x, text, w, y, sp);
    OnePiece(s, Gap(s));
    SpacedTargetClassify(x, text, w, y);
  }

  /** The href always carries a known prefix, and normalising it again changes nothing. */
  lemma NormalizeIdempotent(url: string)
    ensures HasKnownPrefix(NormalizeUrl(url))
    ensures NormalizeUrl(NormalizeUrl(url)) == NormalizeUrl(url)
  {
  }
}
