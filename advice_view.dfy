/** The result panel: which field of the mentor's answer goes through which
    renderer, in which order, and where the separators fall. */
module AdviceView {
  import opened JsText
  import opened FormattedText
  import opened GuidanceSteps

  /** The two shapes of an answer. */
  datatype ResponseType = CodeAnalysis | GeneralMentorship

  /** The answer as its schema declares it: a shape and four optional texts. */
  datatype Advice = Advice(
    responseType: ResponseType,
    explanation: Option<string>,
    guidance: Option<string>,
    tip: Option<string>,
    mentorshipResponse: Option<string>)

  /** One section of the panel. */
  datatype Panel =
    | Mentorship(nodes: seq<Node>)
    | Explanation(nodes: seq<Node>)
    | Separator
    | Guidance(nodes: seq<Node>)
    | Tip(nodes: seq<Node>)

  /** A field is shown only when it is there and not empty (JavaScript truthiness). */
  predicate Present(field: Option<string>) {
    field.Some? && field.value != []
  }

  function Blocks(field: Option<string>): seq<Node>
    requires Present(field)
  {
    RenderFormattedText(field).value
  }

  function Section(show: bool, p: Panel): seq<Panel> {
    if show then [p] else []
  }

  /** The sections rendered for the current answer, if any. */
  function RenderAdvice(answer: Option<Advice>): seq<Panel> {
    match answer
    case None => []
    case Some(a) =>
      match a.responseType
      case GeneralMentorship =>
        if Present(a.mentorshipResponse) then [Mentorship(Blocks(a.mentorshipResponse))] else []
      case CodeAnalysis =>
        var e, g, t := Present(a.explanation), Present(a.guidance), Present(a.tip);
        (if e then [Explanation(Blocks(a.explanation))] else [])
        + Section(e && g, Separator)
        + (if g then [Guidance(RenderGuidance(a.guidance.value))] else [])
        + Section(g && t, Separator)
        + (if t then [Tip(Blocks(a.tip))] else [])
  }

  /** Separators only ever stand between two sections with content. */
  predicate SeparatorsBetween(ps: seq<Panel>) {
    forall i :: 0 <= i < |ps| && ps[i].Separator? ==>
      0 < i < |ps| - 1 && !ps[i - 1].Separator? && !ps[i + 1].Separator?
  }

  /** The sections without the separators. */
  function Contents(ps: seq<Panel>): (r: seq<Panel>)
    ensures |r| <= |ps|
    ensures forall i :: 0 <= i < |r| ==> !r[i].Separator?
  {
    if ps == [] then []
    else if ps[0].Separator? then Contents(ps[1..])
    else [ps[0]] + Contents(ps[1..])
  }

  /** A mentorship answer shows its response alone, through the line renderer;
      whatever else the answer carries is ignored. */
  lemma MentorshipShowsResponseOnly(a: Advice)
    requires a.responseType == GeneralMentorship
    ensures Present(a.mentorshipResponse) ==>
      RenderAdvice(Some(a)) == [Mentorship(RenderFormattedText(a.mentorshipResponse).value)]
    ensures !Present(a.mentorshipResponse) ==> RenderAdvice(Some(a)) == []
    ensures forall e, g, t :: RenderAdvice(Some(a.(explanation := e, guidance := g, tip := t))) == RenderAdvice(Some(a))
  {
  }

  /** A code analysis never shows the mentorship field. */
  lemma AnalysisIgnoresMentorship(a: Advice, m: Option<string>)
    requires a.responseType == CodeAnalysis
    ensures RenderAdvice(Some(a.(mentorshipResponse := m))) == RenderAdvice(Some(a))
  {
  }

  /** A code analysis shows, in this order, the explanation, the guidance and the
      tip that are present: the first and the last through the line renderer,
      the guidance through the step splitter. */
  lemma AnalysisContents(a: Advice)
    requires a.responseType == CodeAnalysis
    ensures Contents(RenderAdvice(Some(a))) ==
      (if Present(a.explanation) then [Explanation(RenderFormattedText(a.explanation).value)] else [])
      + (if Present(a.guidance) then [Guidance(RenderGuidance(a.guidance.value))] else [])
      + (if Present(a.tip) then [Tip(RenderFormattedText(a.tip).value)] else [])
  {
    var e, g, t := Present(a.explanation), Present(a.guidance), Present(a.tip);
    var pe := if e then [Explanation(Blocks(a.explanation))] else [];
    var pg := if g then [Guidance(RenderGuidance(a.guidance.value))] else [];
    var pt := if t then [Tip(Blocks(a.tip))] else [];
    var s1, s2 := Section(e && g, Separator), Section(g && t, Separator);
    assert RenderAdvice(Some(a)) == pe + s1 + pg + s2 + pt;
    ContentsOfLayout(pe, s1, pg, s2, pt);
  }

  lemma {:induction false} ContentsAppend(a: seq<Panel>, b: seq<Panel>)
    ensures Contents(a + b) == Contents(a) + Contents(b)
    decreases |a|
  {
    if a != [] {
      assert (a + b)[0] == a[0] && (a + b)[1..] == a[1..] + b;
      ContentsAppend(a[1..], b);
    } else {
      assert a + b == b;
    }
  }

  predicate NoSeparator(ps: seq<Panel>) {
    forall i :: 0 <= i < |ps| ==> !ps[i].Separator?
  }

  predicate OnlySeparators(ps: seq<Panel>) {
    forall i :: 0 <= i < |ps| ==> ps[i].Separator?
  }

  lemma {:induction false} ContentsKeeps(ps: seq<Panel>)
    requires NoSeparator(ps)
    ensures Contents(ps) == ps
    decreases |ps|
  {
    if ps != [] {
      ContentsKeeps(ps[1..]);
      assert ps == [ps[0]] + ps[1..];
    }
  }

  lemma {:induction false} ContentsDrops(ps: seq<Panel>)
    requires OnlySeparators(ps)
    ensures Contents(ps) == []
    decreases |ps|
  {
    if ps != [] {
      ContentsDrops(ps[1..]);
    }
  }

  lemma ContentsOfLayout(pe: seq<Panel>, s1: seq<Panel>, pg: seq<Panel>, s2: seq<Panel>, pt: seq<Panel>)
    requires NoSeparator(pe) && NoSeparator(pg) && NoSeparator(pt)
    requires OnlySeparators(s1) && OnlySeparators(s2)
    ensures Contents(pe + s1 + pg + s2 + pt) == pe + pg + pt
  {
    assert Contents(pe + s1) == pe by {
      ContentsAppend(pe, s1);
      ContentsKeeps(pe);
      ContentsDrops(s1);
      assert pe + [] == pe;
    }
    assert Contents(pe + s1 + pg) == pe + pg by {
      ContentsAppend(pe + s1, pg);
      ContentsKeeps(pg);
    }
    assert Contents(pe + s1 + pg + s2) == pe + pg by {
      ContentsAppend(pe + s1 + pg, s2);
      ContentsDrops(s2);
      assert pe + pg + [] == pe + pg;
    }
    ContentsAppend(pe + s1 + pg + s2, pt);
    ContentsKeeps(pt);
  }

  /** In every answer the separators stand between two sections with content. */
  lemma SeparatorsOnlyBetween(answer: Option<Advice>)
    ensures SeparatorsBetween(RenderAdvice(answer))
  {
  }

  /** With all three fields present, a separator stands between the explanation
      and the guidance and another between the guidance and the tip. */
  lemma AllThreeSections(a: Advice)
    requires a.responseType == CodeAnalysis
    requires Present(a.explanation) && Present(a.guidance) && Present(a.tip)
    ensures RenderAdvice(Some(a)) ==
      [Explanation(RenderFormattedText(a.explanation).value), Separator,
       Guidance(RenderGuidance(a.guidance.value)), Separator,
       Tip(RenderFormattedText(a.tip).value)]
  {
  }

  /** A shown explanation comes first, and a separator follows it exactly when
      the guidance is shown too. */
  lemma SeparatorAfterExplanation(a: Advice)
    requires a.responseType == CodeAnalysis && Present(a.explanation)
    ensures var ps := RenderAdvice(Some(a));
      && ps[0] == Explanation(RenderFormattedText(a.explanation).value)
      && ((|ps| > 1 && ps[1] == Separator) <==> Present(a.guidance))
  {
  }

  /** A shown tip comes last, and a separator precedes it exactly when the
      guidance is shown too. */
  lemma SeparatorBeforeTip(a: Advice)
    requires a.responseType == CodeAnalysis && Present(a.tip)
    ensures var ps := RenderAdvice(Some(a));
      && ps[|ps| - 1] == Tip(RenderFormattedText(a.tip).value)
      && ((|ps| > 1 && ps[|ps| - 2] == Separator) <==> Present(a.guidance))
  {
  }

  /** An explanation and a tip without guidance are shown with no separator
      between them. */
  lemma NoSeparatorWithoutGuidance(a: Advice)
    requires a.responseType == CodeAnalysis
    requires Present(a.explanation) && !Present(a.guidance) && Present(a.tip)
    ensures RenderAdvice(Some(a)) ==
      [Explanation(RenderFormattedText(a.explanation).value), Tip(RenderFormattedText(a.tip).value)]
  {
  }
}
