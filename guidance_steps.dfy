/** The guidance panel: the guidance text is cut at each line feed and at each
    escaped `\n` (a backslash followed by `n`), every piece is trimmed, and each
    becomes a spacer, the one block the line renderer makes of a marker-led
    piece, or an arrow-led step of inline spans. */
module GuidanceSteps {
  import opened JsText
  import opened InlineFormat
  import opened FormattedText

  /** Does `rest` start with a backslash and an `n`? */
  predicate StartsEscaped(rest: string) {
    |rest| >= 2 && rest[0] == '\\' && rest[1] == 'n'
  }

  /** `split(/\\n|\n/)`: the loop of `split` with that pattern. At each position
      the escaped form is tried before the line feed; both are dropped. */
  function StepScan(rest: string, cur: string): (r: seq<string>)
    ensures |r| >= 1
    decreases |rest|
  {
    if rest == [] then [cur]
    else if StartsEscaped(rest) then [cur] + StepScan(rest[2..], [])
    else if rest[0] == '\n' then [cur] + StepScan(rest[1..], [])
    else StepScan(rest[1..], cur + [rest[0]])
  }

  function StepPieces(guidance: string): (r: seq<string>)
    ensures |r| >= 1
  {
    StepScan(guidance, [])
  }

  /** The escaped line breaks of `s` turned into real ones, left to right. */
  function Unescape(s: string): (r: string)
    ensures |r| <= |s|
    decreases |s|
  {
    if s == [] then []
    else if StartsEscaped(s) then ['\n'] + Unescape(s[2..])
    else [s[0]] + Unescape(s[1..])
  }

  lemma {:induction false} StepScanIsSplit(rest: string, cur: string)
    requires '\n' !in cur
    ensures StepScan(rest, cur) == SplitScan(Unescape(rest), cur, '\n')
    decreases |rest|
  {
    if rest == [] {
    } else if StartsEscaped(rest) {
      StepScanIsSplit(rest[2..], []);
      assert Unescape(rest)[0] == '\n' && Unescape(rest)[1..] == Unescape(rest[2..]);
    } else if rest[0] == '\n' {
      StepScanIsSplit(rest[1..], []);
      assert Unescape(rest)[0] == '\n' && Unescape(rest)[1..] == Unescape(rest[1..]);
    } else {
      StepScanIsSplit(rest[1..], cur + [rest[0]]);
      assert Unescape(rest)[0] == rest[0] && Unescape(rest)[1..] == Unescape(rest[1..]);
    }
  }

  /** Splitting on either form of line break is the same as turning the escaped
      ones into line feeds and splitting on line feeds: one piece per line of the
      unescaped text, no piece holding a line feed, and the pieces join back to it. */
  lemma StepPiecesAreLines(guidance: string)
    ensures StepPieces(guidance) == Split(Unescape(guidance), '\n')
    ensures |StepPieces(guidance)| == Count(Unescape(guidance), '\n') + 1
    ensures Join(StepPieces(guidance), '\n') == Unescape(guidance)
    ensures forall k :: 0 <= k < |StepPieces(guidance)| ==> '\n' !in StepPieces(guidance)[k]
  {
    StepScanIsSplit(guidance, []);
    JoinSplit(Unescape(guidance), '\n');
  }

  predicate IsMarkerLed(t: string) {
    StartsWith(t, "- ") || StartsWith(t, "* ") || StartsWith(t, "## ")
  }

  /** The block of one piece of the guidance. */
  function GuidanceStep(piece: string): Node {
    var t := Trim(piece);
    if t == [] then Spacer
    else if IsMarkerLed(t) then RenderFormattedText(Some(t)).value[0]
    else Step(ProcessInline(t))
  }

  /** The blocks of the guidance panel, one per piece. */
  function RenderGuidance(guidance: string): (r: seq<Node>)
    ensures |r| == |StepPieces(guidance)|
  {
    var pieces := StepPieces(guidance);
    seq(|pieces|, i requires 0 <= i < |pieces| => GuidanceStep(pieces[i]))
  }

  /** A piece of white space is a spacer; a piece led by a list or heading marker
      (after trimming) is the block the line renderer makes of that single line,
      a heading or a list item; any other piece is a step over its trimmed text. */
  lemma GuidanceStepCases(piece: string)
    requires '\n' !in piece
    ensures GuidanceStep(piece).Spacer? <==> AllWhiteSpace(piece)
    ensures !AllWhiteSpace(piece) && IsMarkerLed(Trim(piece)) ==>
      GuidanceStep(piece) == ClassifyLine(Trim(piece)) &&
      (GuidanceStep(piece).Heading? || GuidanceStep(piece).ListItem?)
    ensures !AllWhiteSpace(piece) && !IsMarkerLed(Trim(piece)) ==>
      GuidanceStep(piece) == Step(ProcessInline(Trim(piece)))
  {
    var t := Trim(piece);
    if t != [] && IsMarkerLed(t) {
      assert '\n' !in t by {
        assert forall i :: 0 <= i < |t| ==> t[i] == piece[|piece| - |TrimStart(piece)| + i];
      }
      OneLine(t);
      ClassifyPrecedence(t);
      assert t[..2][0] == t[0];
      assert !IsWhiteSpace(t[0]);
    }
  }

  /** Block `i` of the panel is the block of line `i` of the unescaped guidance. */
  lemma GuidanceLines(guidance: string, i: nat)
    requires i < |Split(Unescape(guidance), '\n')|
    ensures |RenderGuidance(guidance)| == |Split(Unescape(guidance), '\n')|
    ensures RenderGuidance(guidance)[i] == GuidanceStep(Split(Unescape(guidance), '\n')[i])
  {
    StepPiecesAreLines(guidance);
  }
}
