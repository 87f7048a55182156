# CodeMentor answer formatter, modelled in Dafny

CodeMentor shows a mentor's answer as formatted text. The answer comes back from a language model. Before it is shown, every text field of it passes through a small markdown-subset formatter in `src/components/CodeFixerClientPage.tsx`. This project models that formatter as pure Dafny functions over `string` (a sequence of characters) and proves what it does.

The model covers four parts:

- **The inline formatter** (`processInlineFormatting`). One pattern with three alternatives cuts a line into pieces:
  - bold `**…**` (lazy);
  - inline code `` `…` `` (lazy);
  - a link `[label](target)`.

  Each piece is then classified. Bold and code lose their delimiters. A link gets its label and its href; the href is the target with `https://` put in front unless it already starts with `/`, `#` or a known scheme. Anything else is plain text.
- **The line renderer** (`renderFormattedText`). It cuts the text at each line feed. Each line becomes a heading (`## `), a list item (`- ` or `* `), a small vertical space (a blank line) or a paragraph.
- **The guidance panel.** It cuts the guidance at line feeds and at escaped `\n` (a backslash followed by `n`), and trims each piece. A piece then becomes one of three things:
  - a spacer;
  - the single block the line renderer makes of a marker-led piece;
  - an arrow-led step of inline spans.
- **The result panel.** It decides which field of the answer is shown, through which renderer, in which order, and where the separators fall.

Modules:

- `JsText` (`js_text.dfy`): the JavaScript string built-ins the formatter relies on.
  - `split` with a one-character separator;
  - `trim` and the `\s` class;
  - `startsWith` and `endsWith`;
  - `substring`, with its clamping and argument swap;
  - the line terminators that the regular-expression `.` refuses.
- `InlineFormat` (`inline_format.dfy`): the inline formatter.
  - The pattern is a scanner, `MatchLen`. It is proved to find the shortest prefix in the pattern's language, and that language is stated declaratively (`IsBoldText`, `IsCodeText`, `IsLinkText`).
  - `split` with a capturing group, followed by `filter(Boolean)`, is `Pieces`. `Pieces` is proved to be the one and only leftmost-match split of the line.
  - Each piece is classified by `Classify`.
- `InlineLaws` (`inline_laws.dfy`) and `InlineExamples` (`inline_examples.dfy`): what the inline formatter promises, with its quirks, stated generally and on concrete lines.
- `FormattedText` (`formatted_text.dfy`): the line renderer and the `Node` blocks.
- `GuidanceSteps` (`guidance_steps.dfy`): the guidance panel.
- `AdviceView` (`advice_view.dfy`): the dispatch over the two answer shapes.
- `RenderExamples` (`render_examples.dfy`): concrete texts through the line renderer and the guidance panel.

Quirks of the code that the model keeps as written, each with a lemma:

- The href is read by a second, unanchored pattern whose target stops at the first `)`. So `[a](x(y))`, which the first pattern matches whole, links to `https://x(y`.
- A line such as `see [a](b c) now` is refused by the first pattern because the target holds a space. It stays one plain piece, the second pattern still finds a link inside it, and the whole line renders as that one link: the words around it are lost.
- `substring` swaps bounds given in the wrong order. So a lone `**` becomes a bold span holding `**`, `***` becomes a bold `*`, and a lone backtick becomes a code span holding a backtick.
- The line renderer does not treat an escaped `\n` as a line break; only the guidance panel does.
- A result panel with an explanation and a tip but no guidance shows no separator between them.

Where a property reads the code rather than the surrounding comments, the model follows the code. For example, the comment on the inline pattern says the link target does not swallow trailing parentheses. The extraction step truncates the target at its first `)` anyway.

## Model

| member | source | states |
|---|---|---|
| JsText.Substring | src/components/CodeFixerClientPage.tsx:29-35 | `substring(start, end)` gives the slice between the bounds when they are in order and the slice between them swapped when the start is past the end |
| JsText.Trim | src/components/CodeFixerClientPage.tsx:86 | the trimmed line is empty exactly when the line is all white space; otherwise it is a contiguous slice of the line that begins and ends with a character other than white space |
| JsText.TrimDropsWhiteSpace | src/components/CodeFixerClientPage.tsx:86 | what `trim` drops before and after its result is white space only |
| JsText.TrimOfPadded | src/components/CodeFixerClientPage.tsx:248 | white space, then a run that starts and ends with other characters, then white space, trims to exactly that run |
| JsText.TrimKeepsTrimmed | src/components/CodeFixerClientPage.tsx:248 | a text whose first and last characters are not white space is left unchanged by `trim` |
| JsText.Split | src/components/CodeFixerClientPage.tsx:57 | splitting at a separator gives one piece more than there are separators, and no piece holds the separator |
| JsText.SplitScanSkip | src/components/CodeFixerClientPage.tsx:57 | separator-free text is carried into the current piece unchanged by the splitting loop |
| JsText.JoinSplit | src/components/CodeFixerClientPage.tsx:57 | the pieces of a split, joined back with the separator, give the text |
| JsText.SplitJoin | src/components/CodeFixerClientPage.tsx:57 | lines without the separator, joined and split again, come back unchanged and in order |
| InlineFormat.LazyClose | src/components/CodeFixerClientPage.tsx:23 | the lazy `.*?` of bold and code stops at the first closing delimiter, with no line terminator before it |
| InlineFormat.LazyCloseComplete | src/components/CodeFixerClientPage.tsx:23 | every position where the delimiter could close is at or after the one found, so the match is the shortest |
| InlineFormat.BoldLenShortest | src/components/CodeFixerClientPage.tsx:23 | the bold scanner finds a prefix of bold shape, and whenever some prefix has that shape it finds one no longer |
| InlineFormat.CodeLenShortest | src/components/CodeFixerClientPage.tsx:23 | the same for the inline-code alternative |
| InlineFormat.GroupEndComplete | src/components/CodeFixerClientPage.tsx:23 | a run of target characters closed by `)` is one parenthesised group, ending just after that `)` |
| InlineFormat.ItemsSound | src/components/CodeFixerClientPage.tsx:23 | what the greedy run of target items covers is a link target in the pattern's sense |
| InlineFormat.ItemsComplete | src/components/CodeFixerClientPage.tsx:23 | a link target followed by `)` is exactly what the greedy run of items covers, so the `+` has only one way to be followed by `)` |
| InlineFormat.LinkLenSound | src/components/CodeFixerClientPage.tsx:23 | what the link scanner matches has link shape |
| InlineFormat.LinkLenComplete | src/components/CodeFixerClientPage.tsx:23 | any prefix of link shape is exactly the prefix the link scanner matches |
| InlineFormat.LinkLenExact | src/components/CodeFixerClientPage.tsx:23 | the link scanner's match has link shape, and any prefix of link shape is exactly the one it finds (the link match is unique) |
| InlineFormat.BoldLen | src/components/CodeFixerClientPage.tsx:23 | a bold match is at least four characters and lies within the text; which prefix it is, is stated by `BoldLenShortest` |
| InlineFormat.CodeLen | src/components/CodeFixerClientPage.tsx:23 | an inline-code match is at least two characters and lies within the text; which prefix it is, is stated by `CodeLenShortest` |
| InlineFormat.LinkLen | src/components/CodeFixerClientPage.tsx:23 | a link match is at least six characters and lies within the text; which prefix it is, is stated by `LinkLenExact` |
| InlineFormat.MatchLen | src/components/CodeFixerClientPage.tsx:23 | a match of the whole pattern is at least two characters and lies within the text; that it is the shortest prefix in the pattern's language is stated by `MatchLenShortest` |
| InlineFormat.MatchLenShortest | src/components/CodeFixerClientPage.tsx:23 | trying bold, then code, then link finds a prefix in the pattern's language, and no longer than any prefix in that language |
| InlineFormat.Pieces | src/components/CodeFixerClientPage.tsx:24 | the pieces of a line, before any delimiter is stripped, concatenate to the line, and none is empty |
| InlineFormat.ScanTexts | src/components/CodeFixerClientPage.tsx:24 | the pieces the splitting loop produces concatenate to the pending gap followed by the rest of the line |
| InlineFormat.ScanNoEmpty | src/components/CodeFixerClientPage.tsx:24 | the splitting loop never produces an empty piece, as `filter(Boolean)` demands |
| InlineFormat.ScanWellSplit | src/components/CodeFixerClientPage.tsx:23-24 | when no match starts inside the pending gap, the splitting loop produces the leftmost-match split of what remains |
| InlineFormat.PiecesWellSplit | src/components/CodeFixerClientPage.tsx:23-24 | the pieces of a line are its leftmost-match split |
| InlineFormat.WellSplitUnique | src/components/CodeFixerClientPage.tsx:23-24 | a line has at most one leftmost-match split into gaps and matches |
| InlineFormat.PiecesCharacterised | src/components/CodeFixerClientPage.tsx:23-24 | a sequence of pieces is the leftmost-match split exactly when it equals `Pieces`: no match starts inside a gap, each match is the shortest at its position, and gaps never follow gaps |
| InlineFormat.NormalizeUrl | src/components/CodeFixerClientPage.tsx:41-45 | the href always starts with `/`, `#` or a known scheme (ASCII case ignored); it equals the target exactly when the target already did, and otherwise it is `https://` followed by the target |
| InlineFormat.LinkAt | src/components/CodeFixerClientPage.tsx:37-40 | an extracted label is non-empty and holds no `]`; an extracted url holds no `)` and no line terminator; and the text starts with exactly `[` label `](` url `)` |
| InlineFormat.FindLink | src/components/CodeFixerClientPage.tsx:37 | the unanchored extraction finds nothing in a piece without `[`, and what it finds has a non-empty label without `]` and a url without `)` or line terminator; which link it finds is stated by `FindLinkLeftmost` and `FindLinkSound` |
| InlineFormat.ProcessInline | src/components/CodeFixerClientPage.tsx:20-51 | one span per piece; the empty line, and only it, has no spans |
| InlineLaws.UpToParen | src/components/CodeFixerClientPage.tsx:37 | the part of a target the extraction reads is its prefix up to, and without, its first `)` |
| InlineLaws.Coverage | src/components/CodeFixerClientPage.tsx:23-24 | pieces cover the line exactly with no empty piece, and a line has no spans exactly when it is empty |
| InlineLaws.SingleGap | src/components/CodeFixerClientPage.tsx:23-24 | a non-empty line in which no match starts is one plain piece |
| InlineLaws.SingleHit | src/components/CodeFixerClientPage.tsx:23-24 | a line the pattern matches whole is one matched piece |
| InlineLaws.PlainLine | src/components/CodeFixerClientPage.tsx:23-49 | a line with no `*`, backtick or `[` is one plain span equal to the line, or no span when empty |
| InlineLaws.ClassifyPlain | src/components/CodeFixerClientPage.tsx:29-49 | a piece that is not wrapped in `**` or backticks and holds no `[` stays plain text |
| InlineLaws.NoMarkupPlain | src/components/CodeFixerClientPage.tsx:29-49 | a piece without marker characters is classified as plain text |
| InlineLaws.NoMatchWithoutMarkup | src/components/CodeFixerClientPage.tsx:23 | no match starts at a character other than `*`, backtick or `[` |
| InlineLaws.BoldOpenerNeverCloses | src/components/CodeFixerClientPage.tsx:23 | `**` or `*` followed by marker-free text starts no match |
| InlineLaws.CodeOpenerNeverCloses | src/components/CodeFixerClientPage.tsx:23 | a backtick followed by marker-free text starts no match |
| InlineLaws.UnterminatedBold | src/components/CodeFixerClientPage.tsx:23-49 | on a line longer than the bare marker, with no other markup on it (`x**y` with marker-free `x` and `y`, not both empty), an opening `**` that is never closed produces no span: the line is one plain span; the bare `**` line is the exception shown by `LoneBoldMarker` |
| InlineLaws.UnterminatedCode | src/components/CodeFixerClientPage.tsx:23-49 | the same for an unclosed backtick on a line longer than the bare marker, with no other markup on it; the lone backtick is the exception shown by `LoneBacktick` |
| InlineLaws.BoldMatchesWhole | src/components/CodeFixerClientPage.tsx:23 | `**inner**` with no `*` and no line terminator inside is matched whole |
| InlineLaws.BoldSpan | src/components/CodeFixerClientPage.tsx:29-31 | such a line is one bold span holding exactly the inner text, which is not formatted again |
| InlineLaws.CodeMatchesWhole | src/components/CodeFixerClientPage.tsx:23 | a backtick-wrapped text with no backtick and no line terminator inside is matched whole |
| InlineLaws.CodeSpan | src/components/CodeFixerClientPage.tsx:33-35 | such a line is one code span holding exactly the inner text |
| InlineLaws.TargetHasNoWhiteSpace | src/components/CodeFixerClientPage.tsx:23 | a link target the pattern accepts holds no white space |
| InlineLaws.LazyCloseAtFirst | src/components/CodeFixerClientPage.tsx:37 | the lazy `(.*?)\)` closes at the first `)` when no line terminator comes before it |
| InlineLaws.LinkExtract | src/components/CodeFixerClientPage.tsx:37-40 | from `[label](target)` the extraction reads the label and the target up to its first `)` |
| InlineLaws.LinkSpan | src/components/CodeFixerClientPage.tsx:23-46 | a line that is one link the pattern accepts is one link span with that label and the normalised href |
| InlineLaws.HitSpan | src/components/CodeFixerClientPage.tsx:23-46 | every match becomes a formatted span: bold or code with delimiters stripped, or the link its shape describes |
| InlineLaws.MatchExtends | src/components/CodeFixerClientPage.tsx:23 | a match stays the same match whatever text follows it |
| InlineLaws.MatchIsWhole | src/components/CodeFixerClientPage.tsx:23 | the text of a match, taken alone, is matched whole |
| InlineLaws.WellSplitHits | src/components/CodeFixerClientPage.tsx:23-24 | every matched piece of a leftmost-match split is, alone, matched whole |
| InlineLaws.PieceFormatted | src/components/CodeFixerClientPage.tsx:24-49 | the span of a matched piece is never plain; a plain piece without marker characters stays plain |
| InlineLaws.HitsFormatted | src/components/CodeFixerClientPage.tsx:24-49 | the same for every piece of every line |
| InlineLaws.Between | src/components/CodeFixerClientPage.tsx:23-49 | a match with plain text on both sides gives three spans, the middle one the classified match |
| InlineLaws.BoldBetween | src/components/CodeFixerClientPage.tsx:23-49 | `x **inner** y` gives plain `x`, bold `inner`, plain `y` |
| InlineLaws.PlainTarget | src/components/CodeFixerClientPage.tsx:23 | a run of characters that are neither white space nor parentheses is a link target |
| InlineLaws.TargetThenTarget | src/components/CodeFixerClientPage.tsx:23 | such a run followed by a link target is a link target |
| InlineLaws.LinkToBareHost | src/components/CodeFixerClientPage.tsx:37-46 | a line that is one link, with a non-empty label without `]` and a non-empty target without white space or parentheses, and whose target has no known prefix, links to `https://` followed by its target (`ParenthesisedExample` shows that a target with parentheses is cut at its first `)`) |
| InlineLaws.LinkKeepsKnownPrefix | src/components/CodeFixerClientPage.tsx:37-46 | a line that is one link, with a non-empty label without `]` and a non-empty target without white space or parentheses, and whose target has a known prefix, keeps that target as the href |
| InlineLaws.ParenthesisedTarget | src/components/CodeFixerClientPage.tsx:23-46 | `[t](a(b))` is accepted whole, but its href is read from `a(b` only |
| InlineLaws.LinkShapeOf | src/components/CodeFixerClientPage.tsx:23 | `[label](target)` with a label free of `]` and a pattern target has link shape, its label ending at the first `]` |
| InlineLaws.LinkMatchesWhole | src/components/CodeFixerClientPage.tsx:23 | such a link is matched whole |
| InlineLaws.LinkShapeReads | src/components/CodeFixerClientPage.tsx:37-40 | from a text of link shape the extraction reads the label and the target up to its first `)` |
| InlineLaws.SpacedTargetNoLink | src/components/CodeFixerClientPage.tsx:23 | no prefix of a link whose target holds white space has link shape |
| InlineLaws.SpacedTargetPieces | src/components/CodeFixerClientPage.tsx:23-24 | a line holding such a link among marker-free text is one plain piece |
| InlineLaws.SpacedTargetClassify | src/components/CodeFixerClientPage.tsx:37-46 | that plain piece is still classified as the link the extraction finds in it |
| InlineLaws.SpacedTargetNoMatch | src/components/CodeFixerClientPage.tsx:23 | a link whose target holds white space starts no match |
| InlineLaws.FindLinkLeftmost | src/components/CodeFixerClientPage.tsx:37 | when a link can be read at some position of a piece, the extraction finds one, and it is the one read at the leftmost such position |
| InlineLaws.FindLinkSound | src/components/CodeFixerClientPage.tsx:37 | what the extraction returns is the link read at some position of the piece |
| InlineLaws.FindLinkSkip | src/components/CodeFixerClientPage.tsx:37 | text without `[` before a link does not change what the unanchored extraction finds |
| InlineLaws.LinkAtComplete | src/components/CodeFixerClientPage.tsx:37-40 | any text starting with `[` label `](` url `)`, the label non-empty and without `]`, the url without `)` or line terminator, is read as that label and url whatever follows: with the read-back of `LinkAt`, an if-and-only-if |
| InlineLaws.ClassifyFound | src/components/CodeFixerClientPage.tsx:29-46 | a piece not starting with `*` or a backtick in which the extraction finds a link is that link |
| InlineLaws.LinkSwallowsText | src/components/CodeFixerClientPage.tsx:23-46 | a line made of marker-free text, then a link with a marker-free label without `]` and a target that holds white space but no `)`, no line terminator and no markers, then marker-free text, renders as that one link, and the text around it is lost |
| InlineLaws.NormalizeIdempotent | src/components/CodeFixerClientPage.tsx:43-45 | normalising an href twice changes nothing more |
| InlineExamples.BoldExample | src/components/CodeFixerClientPage.tsx:29-31 | `**bold**` is bold `bold` |
| InlineExamples.CodeExample | src/components/CodeFixerClientPage.tsx:33-35 | `` `x=1` `` is code `x=1` |
| InlineExamples.EmptyBold | src/components/CodeFixerClientPage.tsx:29-31 | `****` is an empty bold span |
| InlineExamples.EmptyCode | src/components/CodeFixerClientPage.tsx:33-35 | two backticks are an empty code span |
| InlineExamples.CodeInsideBold | src/components/CodeFixerClientPage.tsx:23-31 | bold is tried first and its content, here code, is not formatted again |
| InlineExamples.LoneBoldMarker | src/components/CodeFixerClientPage.tsx:29-31 | a lone `**` is a bold span holding `**`, through the swapped `substring` bounds |
| InlineExamples.TripleStar | src/components/CodeFixerClientPage.tsx:29-31 | `***` is a bold span holding `*` |
| InlineExamples.LoneBacktick | src/components/CodeFixerClientPage.tsx:33-35 | a lone backtick is a code span holding a backtick |
| InlineExamples.BoldInSentence | src/components/CodeFixerClientPage.tsx:23-49 | `a **b** c` is plain `a `, bold `b`, plain ` c` |
| InlineExamples.UnclosedBold | src/components/CodeFixerClientPage.tsx:23-49 | `a **b` is one plain span |
| InlineExamples.SwallowedWords | src/components/CodeFixerClientPage.tsx:37-46 | `see [a](b c) now` is the single link `a` to `https://b c` |
| InlineExamples.BareDomainLink | src/components/CodeFixerClientPage.tsx:37-46 | `[ref](example.com)` links to `https://example.com` |
| InlineExamples.RelativeLink | src/components/CodeFixerClientPage.tsx:37-46 | `[home](/docs)` links to `/docs` |
| InlineExamples.ParenthesisedExample | src/components/CodeFixerClientPage.tsx:37-46 | `[a](x(y))` links to `https://x(y` |
| FormattedText.ClassifyLine | src/components/CodeFixerClientPage.tsx:62-93 | a line never becomes an arrow step |
| FormattedText.RenderFormattedText | src/components/CodeFixerClientPage.tsx:55-59 | nothing is rendered exactly for an absent or empty text; otherwise there is one block per line feed plus one |
| FormattedText.ClassifyPrecedence | src/components/CodeFixerClientPage.tsx:62-89 | a line is a heading exactly when it starts with `## `; otherwise a list item exactly when it starts with `- ` or `* `; a spacer exactly when it is all white space; a paragraph otherwise |
| FormattedText.ClassifyContent | src/components/CodeFixerClientPage.tsx:62-93 | a heading's spans come from the line after `## `, a list item's from the line after its marker, and a paragraph's from the whole untrimmed line |
| FormattedText.OneLine | src/components/CodeFixerClientPage.tsx:55-59 | a non-empty text without a line feed is one block, even when it holds an escaped `\n` |
| FormattedText.RenderLines | src/components/CodeFixerClientPage.tsx:57-59 | lines joined by line feeds come back one block per line, in order |
| FormattedText.RenderedLines | src/components/CodeFixerClientPage.tsx:57-59 | block `i` of a text is the block of its line `i`, and the lines join back to the text |
| GuidanceSteps.StepScan | src/components/CodeFixerClientPage.tsx:247 | splitting the guidance always gives at least one piece |
| GuidanceSteps.StepScanIsSplit | src/components/CodeFixerClientPage.tsx:247 | splitting at either form of line break equals turning escaped `\n` into line feeds and splitting at line feeds |
| GuidanceSteps.StepPiecesAreLines | src/components/CodeFixerClientPage.tsx:247 | the guidance pieces are the lines of the unescaped guidance: their number, their order, no line feed inside, and they join back to it |
| GuidanceSteps.RenderGuidance | src/components/CodeFixerClientPage.tsx:247-265 | one block per piece of the guidance |
| GuidanceSteps.GuidanceStepCases | src/components/CodeFixerClientPage.tsx:248-263 | a white-space piece is a spacer; a piece led by `- `, `* ` or `## ` after trimming is the heading or list item the line renderer makes of it; any other piece is a step over its trimmed text |
| GuidanceSteps.GuidanceLines | src/components/CodeFixerClientPage.tsx:247-265 | block `i` of the panel is the block of line `i` of the unescaped guidance |
| AdviceView.MentorshipShowsResponseOnly | src/components/CodeFixerClientPage.tsx:220-226 | a mentorship answer shows its response alone, through the line renderer, and only when the response is non-empty; the other fields are ignored |
| AdviceView.AnalysisIgnoresMentorship | src/components/CodeFixerClientPage.tsx:228-279 | a code analysis never shows the mentorship field |
| AdviceView.AnalysisContents | src/components/CodeFixerClientPage.tsx:228-279 | a code analysis shows explanation, guidance and tip in that order, each only when non-empty: explanation and tip through the line renderer, guidance through the step splitter |
| AdviceView.AllThreeSections | src/components/CodeFixerClientPage.tsx:228-279 | with explanation, guidance and tip all present the panel is explanation, separator, guidance, separator, tip |
| AdviceView.SeparatorAfterExplanation | src/components/CodeFixerClientPage.tsx:240 | a shown explanation comes first, and a separator follows it exactly when the guidance is shown too |
| AdviceView.SeparatorBeforeTip | src/components/CodeFixerClientPage.tsx:269 | a shown tip comes last, and a separator precedes it exactly when the guidance is shown too |
| AdviceView.SeparatorsOnlyBetween | src/components/CodeFixerClientPage.tsx:240-269 | a separator never starts or ends the panel and always stands between two sections with content |
| AdviceView.NoSeparatorWithoutGuidance | src/components/CodeFixerClientPage.tsx:240-269 | explanation and tip without guidance are shown side by side with no separator |
| RenderExamples.HeadingOfPlain | src/components/CodeFixerClientPage.tsx:62-69 | `## ` followed by plain words is a heading of those words |
| RenderExamples.ItemOfPlain | src/components/CodeFixerClientPage.tsx:72-82 | `- ` followed by plain words is a list item of those words |
| RenderExamples.ParagraphOfPlain | src/components/CodeFixerClientPage.tsx:86-93 | a line of plain words without a marker is a paragraph of the whole line |
| RenderExamples.HeadingItemBlankParagraph | src/components/CodeFixerClientPage.tsx:54-95 | a heading line, a list line, a blank line and a plain line give a heading, a list item, a spacer and a paragraph, in that order |
| RenderExamples.FourKindsOfLine | src/components/CodeFixerClientPage.tsx:54-95 | `## Title\n- item one\n\nplain` gives a heading, a list item, a spacer and a paragraph |
| RenderExamples.TwoPieces | src/components/CodeFixerClientPage.tsx:247 | two lines parted by a line feed or by an escaped `\n` are two blocks |
| RenderExamples.PlainStep | src/components/CodeFixerClientPage.tsx:257-263 | a plain line of guidance is an arrow step over its text |
| RenderExamples.HeadingStep | src/components/CodeFixerClientPage.tsx:252-255 | a `## ` line of guidance is the heading the line renderer makes of it |
| RenderExamples.TwoSteps | src/components/CodeFixerClientPage.tsx:247-265 | `Step A` and `Step B` on two lines are two arrow steps |
| RenderExamples.HeadingThenPlain | src/components/CodeFixerClientPage.tsx:247-265 | a heading and a plain line parted by an escaped `\n` are a heading and a step |
| RenderExamples.HeadingThenStep | src/components/CodeFixerClientPage.tsx:247-265 | `## Heading\nStep A`, with an escaped `\n`, gives a heading and then a step |

## Left out

- The React component around the formatter is not modelled. That covers its state hooks, the request lifecycle, toasts, form validation, the loading and welcome alerts, the card title chosen by the answer shape, and all JSX layout and styling. These are interface and asynchronous plumbing, not formatting logic.
- React keys, class names and the constant `target`/`rel` attributes of links are not modelled. They are presentation only.
- The request to the language model and its schema validation are outside the model. The answer is a parameter. The `Advice` record only mirrors the two answer shapes and the four optional text fields of the flow's output schema.
- The model has no general regular-expression engine. It models only the four patterns the component uses, each as a direct scanner: in `src/components/CodeFixerClientPage.tsx`, the inline pattern at :23, proved equal to its language; the link extraction at :37; the case-insensitive scheme test `/^(\/|#|mailto:|tel:|https?:|ftp:)/i` at :43, as `HasKnownPrefix`; and the guidance split `/\\n|\n/` at :247, as `StepScan`.
- Strings are sequences of characters, not UTF-16 code units. Every character the patterns, `trim` and `substring` look at is in the Basic Multilingual Plane, so only text with characters outside it could count positions differently.
- GuidanceStep: the code renders nothing when the line renderer returns `null` for a marker-led piece. That cannot happen for a non-empty piece, so the model takes the first block directly.
- Scan: the splitting loop behind `Pieces` carries no contract of its own. What it yields is stated by `ScanTexts`, `ScanNoEmpty` and `ScanWellSplit` in the table above.
- Classify: the classification of one piece carries no contract of its own. What it gives is stated by `ClassifyPlain`, `NoMarkupPlain`, `HitSpan`, `ClassifyFound` and `LinkSwallowsText` in the table above.
- RenderAdvice: the function carries no contract of its own. What it shows is stated by the `AdviceView` lemmas in the table above.
