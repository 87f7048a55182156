/** The inline formatter applied to one line of model text: a single left-to-right
    split on the alternation pattern for bold, inline code and links, then a
    classification of every non-empty piece by its delimiters. */
module InlineFormat {
  import opened JsText

  /** What one piece of a line is displayed as. */
  datatype Span = Plain(text: string) | Bold(text: string) | Code(text: string) | Link(text: string, href: string)

  /** A piece of the split: `Gap` is text between matches, `Hit` is a match of the pattern. */
  datatype Piece = Gap(text: string) | Hit(text: string)

  predicate NoLineTerminator(s: string) {
    forall i :: 0 <= i < |s| ==> !IsLineTerminator(s[i])
  }

  // ---------------------------------------------------------------------------
  // The lazy `.*?` followed by a closing delimiter

  /** `t[j..e]` is a run the regular expression `.*?` can take, followed by `close`. */
  predicate ClosesAt(t: string, j: nat, close: string, e: nat) {
    && j + |close| <= e <= |t|
    && OccursAt(t, e - |close|, close)
    && NoLineTerminator(t[j..e - |close|])
  }

  /** Where `.*?` followed by `close`, started at `j`, ends: the first `close`
      reached before a line terminator. */
  function LazyClose(t: string, j: nat, close: string): (r: Option<nat>)
    requires j <= |t| && |close| > 0
    ensures r.Some? ==> ClosesAt(t, j, close, r.value)
    ensures r.Some? ==> forall i :: j <= i < r.value - |close| ==> !OccursAt(t, i, close)
    decreases |t| - j
  {
    if OccursAt(t, j, close) then Some(j + |close|)
    else if j < |t| && !IsLineTerminator(t[j]) then LazyClose(t, j + 1, close)
    else None
  }

  /** Every way for `.*?` and `close` to match ends no earlier than the lazy one,
      so `LazyClose` finds the shortest match and finds one whenever one exists. */
  lemma {:induction false} LazyCloseComplete(t: string, j: nat, close: string, e: nat)
    requires j <= |t| && |close| > 0
    requires ClosesAt(t, j, close, e)
    ensures LazyClose(t, j, close).Some? && LazyClose(t, j, close).value <= e
    decreases |t| - j
  {
    if !OccursAt(t, j, close) {
      assert e > j + |close|;
      assert !IsLineTerminator(t[j..e - |close|][0]);
      assert t[j + 1..e - |close|] == t[j..e - |close|][1..];
      LazyCloseComplete(t, j + 1, close, e);
    }
  }

  // ---------------------------------------------------------------------------
  // The three alternatives of the pattern, each as a language and as a scanner

  /** `\*\*.*?\*\*` matches all of `u`. */
  predicate IsBoldText(u: string) {
    |u| >= 4 && StartsWith(u, "**") && EndsWith(u, "**") && NoLineTerminator(u[2..|u| - 2])
  }

  /** `` `.*?` `` matches all of `u`. */
  predicate IsCodeText(u: string) {
    |u| >= 2 && u[0] == '`' && u[|u| - 1] == '`' && NoLineTerminator(u[1..|u| - 1])
  }

  /** `[^\s\(\)]`: a character the link target may hold outside a group. */
  predicate IsTargetChar(c: char) {
    !IsWhiteSpace(c) && c != '(' && c != ')'
  }

  /** `\([^\s\(\)]*\)`: one parenthesised group of the link target. */
  predicate IsGroup(u: string) {
    |u| >= 2 && u[0] == '(' && u[|u| - 1] == ')' && forall i :: 1 <= i < |u| - 1 ==> IsTargetChar(u[i])
  }

  /** `(?:[^\s\(\)]|\([^\s\(\)]*\))+` matches all of `u`. */
  ghost predicate IsTarget(u: string)
    decreases |u|
  {
    && |u| > 0
    && (|| (IsTargetChar(u[0]) && (|u| == 1 || IsTarget(u[1..])))
        || (exists g :: 2 <= g <= |u| && IsGroup(u[..g]) && (g == |u| || IsTarget(u[g..]))))
  }

  /** `u` reads `[` label `](` target `)`, with the label ending at `u[k]`. */
  ghost predicate LinkShape(u: string, k: nat) {
    && 2 <= k && k + 3 < |u|
    && u[0] == '[' && u[k] == ']' && (forall i :: 1 <= i < k ==> u[i] != ']')
    && u[k + 1] == '(' && u[|u| - 1] == ')'
    && IsTarget(u[k + 2..|u| - 1])
  }

  /** `\[[^\]]+?\]\((?:[^\s\(\)]|\([^\s\(\)]*\))+\)` matches all of `u`. */
  ghost predicate IsLinkText(u: string) {
    exists k :: LinkShape(u, k)
  }

  /** The whole alternation of the inline pattern matches all of `u`. */
  ghost predicate IsPatternText(u: string) {
    IsBoldText(u) || IsCodeText(u) || IsLinkText(u)
  }

  /** Length of the bold match at the start of `t`, if any. */
  function BoldLen(t: string): (r: Option<nat>)
    ensures r.Some? ==> 4 <= r.value <= |t|
  {
    if StartsWith(t, "**") then LazyClose(t, 2, "**") else None
  }

  /** Length of the inline-code match at the start of `t`, if any. */
  function CodeLen(t: string): (r: Option<nat>)
    ensures r.Some? ==> 2 <= r.value <= |t|
  {
    if StartsWith(t, "`") then LazyClose(t, 1, "`") else None
  }

  /** End of a parenthesised group whose `(` is just before `j`: the position
      after the first character that is not a target character, when that is `)`. */
  function GroupEnd(t: string, j: nat): (r: Option<nat>)
    requires j <= |t|
    ensures r.Some? ==> j < r.value <= |t| && t[r.value - 1] == ')'
    ensures r.Some? ==> forall i :: j <= i < r.value - 1 ==> IsTargetChar(t[i])
    decreases |t| - j
  {
    if j < |t| && IsTargetChar(t[j]) then GroupEnd(t, j + 1)
    else if j < |t| && t[j] == ')' then Some(j + 1)
    else None
  }

  /** End of the longest run of target items starting at `j`. */
  function ItemsEnd(t: string, j: nat): (r: nat)
    requires j <= |t|
    ensures j <= r <= |t|
    decreases |t| - j
  {
    if j < |t| && IsTargetChar(t[j]) then ItemsEnd(t, j + 1)
    else if j < |t| && t[j] == '(' && GroupEnd(t, j + 1).Some? then ItemsEnd(t, GroupEnd(t, j + 1).value)
    else j
  }

  /** Length of the link match at the start of `t`, if any. The target is read
      as far as it goes: giving items back never puts a `)` next. */
  function LinkLen(t: string): (r: Option<nat>)
    ensures r.Some? ==> 6 <= r.value <= |t|
  {
    if |t| > 0 && t[0] == '[' then
      match IndexOf(t, 1, ']')
      case None => None
      case Some(k) =>
        if 2 <= k && k + 1 < |t| && t[k + 1] == '(' then
          var e := ItemsEnd(t, k + 2);
          if k + 2 < e < |t| && t[e] == ')' then Some(e + 1) else None
        else None
    else None
  }

  /** Length of the match of the whole pattern at the start of `t`, trying bold,
      then code, then link. */
  function MatchLen(t: string): (r: Option<nat>)
    ensures r.Some? ==> 2 <= r.value <= |t|
  {
    if BoldLen(t).Some? then BoldLen(t)
    else if CodeLen(t).Some? then CodeLen(t)
    else LinkLen(t)
  }

  lemma BoldLenShortest(t: string, n: nat)
    requires n <= |t|
    ensures BoldLen(t).Some? ==> IsBoldText(t[..BoldLen(t).value])
    ensures IsBoldText(t[..n]) ==> BoldLen(t).Some? && BoldLen(t).value <= n
  {
    if BoldLen(t).Some? {
      var e := BoldLen(t).value;
      assert t[..e][2..e - 2] == t[2..e - 2];
      assert t[..e][e - 2..] == t[e - 2..e];
    }
    if IsBoldText(t[..n]) {
      assert t[..n][2..n - 2] == t[2..n - 2];
      assert t[..n][n - 2..] == t[n - 2..n];
      LazyCloseComplete(t, 2, "**", n);
    }
  }

  lemma CodeLenShortest(t: string, n: nat)
    requires n <= |t|
    ensures CodeLen(t).Some? ==> IsCodeText(t[..CodeLen(t).value])
    ensures IsCodeText(t[..n]) ==> CodeLen(t).Some? && CodeLen(t).value <= n
  {
    if CodeLen(t).Some? {
      var e := CodeLen(t).value;
      assert t[..e][1..e - 1] == t[1..e - 1];
    }
    if IsCodeText(t[..n]) {
      assert t[..n][1..n - 1] == t[1..n - 1];
      assert t[n - 1..n] == "`";
      LazyCloseComplete(t, 1, "`", n);
    }
  }

  lemma {:induction false} GroupEndComplete(t: string, j: nat, m: nat)
    requires j <= m < |t| && t[m] == ')'
    requires forall i :: j <= i < m ==> IsTargetChar(t[i])
    ensures GroupEnd(t, j) == Some(m + 1)
    decreases m - j
  {
    if j < m {
      GroupEndComplete(t, j + 1, m);
    }
  }

  /** What the maximal run of items covers is a target. */
  lemma {:induction false} ItemsSound(t: string, j: nat)
    requires j <= |t|
    ensures ItemsEnd(t, j) > j ==> IsTarget(t[j..ItemsEnd(t, j)])
    decreases |t| - j
  {
    var e := ItemsEnd(t, j);
    if j < |t| && IsTargetChar(t[j]) {
      ItemsSound(t, j + 1);
      assert t[j..e][0] == t[j];
      if e > j + 1 {
        assert t[j..e][1..] == t[j + 1..e];
      }
    } else if j < |t| && t[j] == '(' && GroupEnd(t, j + 1).Some? {
      var g := GroupEnd(t, j + 1).value;
      ItemsSound(t, g);
      assert t[j..e][..g - j] == t[j..g];
      assert IsGroup(t[j..g]);
      if e > g {
        assert t[j..e][g - j..] == t[g..e];
      }
    }
  }

  /** A target followed by `)` is exactly what the maximal run of items covers:
      the greedy `+` has only one way to be followed by `)`. */
  lemma {:induction false} ItemsComplete(t: string, j: nat, e: nat)
    requires j < e < |t| && t[e] == ')'
    requires IsTarget(t[j..e])
    ensures ItemsEnd(t, j) == e
    decreases e - j, 1
  {
    var u := t[j..e];
    assert t[j] == u[0];
    if IsTargetChar(t[j]) {
      if e > j + 1 {
        assert u[1..] == t[j + 1..e];
      }
      ItemsCompleteChar(t, j, e);
    } else {
      var g: nat :| 2 <= g <= |u| && IsGroup(u[..g]) && (g == |u| || IsTarget(u[g..]));
      assert u[..g] == t[j..j + g];
      if g < |u| {
        assert u[g..] == t[j + g..e];
      }
      ItemsCompleteGroup(t, j, e, g);
    }
  }

  /** The run steps over a target character and goes on to the `)`. */
  lemma {:induction false} ItemsCompleteChar(t: string, j: nat, e: nat)
    requires j < e < |t| && t[e] == ')' && IsTargetChar(t[j])
    requires e == j + 1 || IsTarget(t[j + 1..e])
    ensures ItemsEnd(t, j) == e
    decreases e - j, 0
  {
    if e > j + 1 {
      ItemsComplete(t, j + 1, e);
    }
  }

  /** The run steps over a whole group and goes on to the `)`. */
  lemma {:induction false} ItemsCompleteGroup(t: string, j: nat, e: nat, g: nat)
    requires j < e < |t| && t[e] == ')' && 2 <= g <= e - j
    requires IsGroup(t[j..j + g])
    requires j + g == e || IsTarget(t[j + g..e])
    ensures ItemsEnd(t, j) == e
    decreases e - j, 0
  {
    GroupInside(t, j, g);
    if j + g < e {
      ItemsComplete(t, j + g, e);
    }
  }

  /** A group at `j` is one `GroupEnd` steps over whole. */
  lemma GroupInside(t: string, j: nat, g: nat)
    requires 2 <= g && j + g <= |t|
    requires IsGroup(t[j..j + g])
    ensures t[j] == '(' && GroupEnd(t, j + 1) == Some(j + g)
  {
    var grp := t[j..j + g];
    forall i | j + 1 <= i < j + g - 1 ensures IsTargetChar(t[i]) {
      assert t[i] == grp[i - j];
    }
    GroupEndComplete(t, j + 1, j + g - 1);
  }

  /** The first `c` from `j` on is found where it is. */
  lemma IndexOfFirst(s: string, j: nat, k: nat, c: char)
    requires j <= k < |s| && s[k] == c
    requires forall i :: j <= i < k ==> s[i] != c
    ensures IndexOf(s, j, c) == Some(k)
  {
  }

  lemma LinkLenSound(t: string)
    ensures LinkLen(t).Some? ==> IsLinkText(t[..LinkLen(t).value])
  {
    if LinkLen(t).Some? {
      var k := IndexOf(t, 1, ']').value;
      var e := ItemsEnd(t, k + 2);
      ItemsSound(t, k + 2);
      var u := t[..e + 1];
      assert u[k + 2..|u| - 1] == t[k + 2..e];
      assert LinkShape(u, k);
    }
  }

  lemma LinkLenComplete(t: string, n: nat, k: nat)
    requires n <= |t| && LinkShape(t[..n], k)
    ensures LinkLen(t) == Some(n)
  {
    var u := t[..n];
    forall i | 1 <= i < k ensures t[i] != ']' {
      assert t[i] == u[i];
    }
    assert t[k] == u[k];
    IndexOfFirst(t, 1, k, ']');
    assert u[k + 2..n - 1] == t[k + 2..n - 1];
    ItemsComplete(t, k + 2, n - 1);
  }

  lemma LinkLenWhole(u: string, k: nat)
    requires LinkShape(u, k)
    ensures LinkLen(u) == Some(|u|)
  {
    assert u[..|u|] == u;
    LinkLenComplete(u, |u|, k);
  }

  lemma LinkLenExact(t: string, n: nat)
    requires n <= |t|
    ensures LinkLen(t).Some? ==> IsLinkText(t[..LinkLen(t).value])
    ensures IsLinkText(t[..n]) ==> LinkLen(t) == Some(n)
  {
    LinkLenSound(t);
    if IsLinkText(t[..n]) {
      var k: nat :| LinkShape(t[..n], k);
      LinkLenComplete(t, n, k);
    }
  }

  /** The match at the start of `t` is the shortest prefix of `t` that the pattern
      matches, and there is one whenever the pattern matches some prefix: the
      alternatives begin with different characters, bold and code are lazy,
      and a link matches at most one prefix. */
  lemma MatchLenShortest(t: string, n: nat)
    requires n <= |t|
    ensures MatchLen(t).Some? ==> IsPatternText(t[..MatchLen(t).value])
    ensures IsPatternText(t[..n]) ==> MatchLen(t).Some? && MatchLen(t).value <= n
  {
    BoldLenShortest(t, n);
    CodeLenShortest(t, n);
    LinkLenExact(t, n);
    if MatchLen(t).Some? {
      var m := MatchLen(t).value;
      BoldLenShortest(t, m);
      CodeLenShortest(t, m);
      LinkLenExact(t, m);
    }
    if IsCodeText(t[..n]) || IsLinkText(t[..n]) {
      assert t[0] == t[..n][0];
      assert t[0] != '*';
    }
    if IsLinkText(t[..n]) {
      assert t[0] != '`';
    }
  }

  // ---------------------------------------------------------------------------
  // The split

  /** The text of the pieces, in order. */
  function Texts(ps: seq<Piece>): string {
    if ps == [] then [] else ps[0].text + Texts(ps[1..])
  }

  lemma TextsCons(p: Piece, ps: seq<Piece>)
    ensures Texts([p] + ps) == p.text + Texts(ps)
  {
    assert ([p] + ps)[1..] == ps;
  }

  /** The loop of `split` with the pattern, followed by `filter(Boolean)`:
      `rest` is the text still to scan, `gap` the unmatched text since the last match. */
  function Scan(rest: string, gap: string): seq<Piece>
    decreases |rest|
  {
    if rest == [] then
      (if gap == [] then [] else [Gap(gap)])
    else
      match MatchLen(rest)
      case Some(n) =>
        var tail := [Hit(rest[..n])] + Scan(rest[n..], []);
        if gap == [] then tail else [Gap(gap)] + tail
      case None =>
        Scan(rest[1..], gap + [rest[0]])
  }

  lemma SplitAt(s: string, n: nat)
    requires n <= |s|
    ensures s[..n] + s[n..] == s
  {
  }

  /** The pieces cover the scanned text exactly. */
  lemma {:induction false} ScanTexts(rest: string, gap: string)
    ensures Texts(Scan(rest, gap)) == gap + rest
    decreases |rest|, 1
  {
    if rest == [] {
      assert gap + rest == gap;
    } else if MatchLen(rest).Some? {
      ScanTextsAtMatch(rest, gap);
    } else {
      ScanTexts(rest[1..], gap + [rest[0]]);
      assert gap + [rest[0]] + rest[1..] == gap + rest;
    }
  }

  lemma {:induction false} ScanTextsAtMatch(rest: string, gap: string)
    requires rest != [] && MatchLen(rest).Some?
    ensures Texts(Scan(rest, gap)) == gap + rest
    decreases |rest|, 0
  {
    var n := MatchLen(rest).value;
    var rec := Scan(rest[n..], []);
    var tail := [Hit(rest[..n])] + rec;
    assert Scan(rest, gap) == if gap == [] then tail else [Gap(gap)] + tail;
    assert Texts(tail) == rest by {
      ScanTexts(rest[n..], []);
      TextsCons(Hit(rest[..n]), rec);
      assert [] + rest[n..] == rest[n..];
      SplitAt(rest, n);
    }
    if gap != [] {
      TextsCons(Gap(gap), tail);
    }
  }

  predicate NoEmptyPiece(ps: seq<Piece>) {
    forall k :: 0 <= k < |ps| ==> ps[k].text != []
  }

  /** No piece of the scan is empty. */
  lemma {:induction false} ScanNoEmpty(rest: string, gap: string)
    ensures NoEmptyPiece(Scan(rest, gap))
    decreases |rest|
  {
    if rest != [] {
      match MatchLen(rest)
      case Some(n) =>
        var rec := Scan(rest[n..], []);
        ScanNoEmpty(rest[n..], []);
        assert rest[..n] != [];
        assert NoEmptyPiece([Hit(rest[..n])] + rec);
      case None =>
        ScanNoEmpty(rest[1..], gap + [rest[0]]);
    }
  }

  /** The pieces of a line: they cover it exactly and none is empty. */
  function Pieces(s: string): (r: seq<Piece>)
    ensures Texts(r) == s
    ensures forall k :: 0 <= k < |r| ==> r[k].text != []
  {
    ScanTexts(s, []);
    ScanNoEmpty(s, []);
    assert [] + s == s;
    Scan(s, [])
  }

  /** The reference for the split: `ps` cuts `s` into non-empty pieces, a `Hit`
      is the match found where it starts, and a `Gap` holds no position where a
      match starts and is followed by a `Hit` or by the end of the line. */
  ghost predicate WellSplit(s: string, ps: seq<Piece>)
    decreases |ps|
  {
    if ps == [] then s == []
    else
      var t := ps[0].text;
      && 0 < |t| <= |s| && s[..|t|] == t
      && (ps[0].Hit? ==> MatchLen(s) == Some(|t|))
      && (ps[0].Gap? ==> (forall k :: 0 <= k < |t| ==> MatchLen(s[k..]).None?) && (|ps| > 1 ==> ps[1].Hit?))
      && WellSplit(s[|t|..], ps[1..])
  }

  lemma {:induction false} ScanWellSplit(rest: string, gap: string)
    requires forall k :: 0 <= k < |gap| ==> MatchLen((gap + rest)[k..]).None?
    ensures WellSplit(gap + rest, Scan(rest, gap))
    decreases |rest|
  {
    var s := gap + rest;
    var r := Scan(rest, gap);
    if rest == [] {
      assert s == gap;
      if gap != [] {
        assert r == [Gap(gap)];
        assert s[|gap|..] == [] && r[1..] == [];
        forall k | 0 <= k < |gap| ensures MatchLen(s[k..]).None? {}
      }
    } else {
      match MatchLen(rest)
      case Some(n) =>
        var tail := [Hit(rest[..n])] + Scan(rest[n..], []);
        assert [] + rest[n..] == rest[n..];
        ScanWellSplit(rest[n..], []);
        assert rest[..n][..] == rest[..n] && rest[n..] == rest[|rest[..n]|..];
        assert WellSplit(rest, tail) by {
          assert tail[1..] == Scan(rest[n..], []);
        }
        if gap != [] {
          assert r == [Gap(gap)] + tail;
          assert r[1..] == tail && r[1].Hit?;
          assert s[|gap|..] == rest && s[..|gap|] == gap;
        } else {
          assert s == rest;
        }
      case None =>
        var gap' := gap + [rest[0]];
        assert gap' + rest[1..] == s;
        forall k | 0 <= k < |gap'| ensures MatchLen((gap' + rest[1..])[k..]).None? {
          if k == |gap| { assert s[k..] == rest; }
        }
        ScanWellSplit(rest[1..], gap');
    }
  }

  /** The split of a line is well formed. */
  lemma PiecesWellSplit(s: string)
    ensures WellSplit(s, Pieces(s))
  {
    assert [] + s == s;
    ScanWellSplit(s, []);
  }

  /** There is only one well-formed split of a line. */
  lemma {:induction false} WellSplitUnique(s: string, a: seq<Piece>, b: seq<Piece>)
    requires WellSplit(s, a) && WellSplit(s, b)
    ensures a == b
    decreases |s|
  {
    if s != [] {
      var ta, tb := a[0].text, b[0].text;
      if MatchLen(s).Some? {
        assert s[0..] == s;
        assert a[0].Hit? && b[0].Hit?;
      } else {
        assert a[0].Gap? && b[0].Gap?;
      }
      assert a[0] == b[0];
      WellSplitUnique(s[|ta|..], a[1..], b[1..]);
      assert a == [a[0]] + a[1..] && b == [b[0]] + b[1..];
    }
  }

  /** `Pieces` is the split the reference describes, and the only one. */
  lemma PiecesCharacterised(s: string, ps: seq<Piece>)
    ensures WellSplit(s, ps) <==> ps == Pieces(s)
  {
    PiecesWellSplit(s);
    if WellSplit(s, ps) {
      WellSplitUnique(s, ps, Pieces(s));
    }
  }

  // ---------------------------------------------------------------------------
  // Classifying a piece

  /** ASCII-only case folding, which is all that the `i` flag does for an ASCII pattern. */
  function ToLowerAscii(c: char): char {
    if 'A' <= c <= 'Z' then (c as int + 32) as char else c
  }

  predicate StartsWithIgnoreCase(s: string, lower: string) {
    |lower| <= |s| && forall i :: 0 <= i < |lower| ==> ToLowerAscii(s[i]) == lower[i]
  }

  /** `/^(\/|#|mailto:|tel:|https?:|ftp:)/i`: the target is kept as written. */
  predicate HasKnownPrefix(url: string) {
    || StartsWith(url, "/") || StartsWith(url, "#")
    || StartsWithIgnoreCase(url, "mailto:") || StartsWithIgnoreCase(url, "tel:")
    || StartsWithIgnoreCase(url, "http:") || StartsWithIgnoreCase(url, "https:")
    || StartsWithIgnoreCase(url, "ftp:")
  }

  /** The href of a link: the target itself when it has a known prefix, otherwise
      the target behind `https://`. */
  function NormalizeUrl(url: string): (r: string)
    ensures HasKnownPrefix(r)
    ensures r == url <==> HasKnownPrefix(url)
    ensures r != url ==> r == "https://" + url
  {
    if HasKnownPrefix(url) then url
    else
      var r := "https://" + url;
      assert StartsWithIgnoreCase(r, "https:");
      r
  }

  /** The run the lazy `(.*?)\)` takes holds no `)` and no line terminator. */
  lemma LazyUrl(t: string, j: nat, m: nat)
    requires j <= |t| && LazyClose(t, j, ")") == Some(m)
    ensures ')' !in t[j..m - 1] && NoLineTerminator(t[j..m - 1])
  {
    var url := t[j..m - 1];
    forall i | 0 <= i < |url| ensures url[i] != ')' {
      assert url[i] == t[j + i] && !OccursAt(t, j + i, ")");
    }
  }

  /** A text read as a link from its `[`, `]`, `(` and `)` starts with exactly
      the label and url between them. */
  lemma LinkReadsBack(t: string, k: nat, m: nat)
    requires 2 <= k && k + 3 <= m <= |t|
    requires t[0] == '[' && t[k] == ']' && t[k + 1] == '(' && t[m - 1] == ')'
    ensures StartsWith(t, "[" + t[1..k] + "](" + t[k + 2..m - 1] + ")")
  {
    assert t[..m] == [t[0]] + t[1..k] + t[k..k + 2] + t[k + 2..m - 1] + [t[m - 1]];
    assert t[k..k + 2] == "](";
  }

  /** `\[([^\]]+?)\]\((.*?)\)` matched at the start of `t`: the label and the
      text up to the first `)`. */
  function LinkAt(t: string): (r: Option<(string, string)>)
    ensures r.Some? ==> r.value.0 != [] && ']' !in r.value.0
    ensures r.Some? ==> ')' !in r.value.1 && NoLineTerminator(r.value.1)
    ensures r.Some? ==> StartsWith(t, "[" + r.value.0 + "](" + r.value.1 + ")")
  {
    if |t| > 0 && t[0] == '[' then
      match IndexOf(t, 1, ']')
      case None => None
      case Some(k) =>
        if 2 <= k && k + 1 < |t| && t[k + 1] == '(' then
          match LazyClose(t, k + 2, ")")
          case None => None
          case Some(m) =>
            var text, url := t[1..k], t[k + 2..m - 1];
            LazyUrl(t, k + 2, m);
            LinkReadsBack(t, k, m);
            Some((text, url))
        else None
    else None
  }

  /** `part.match(...)` without the `g` flag: the extraction at the leftmost
      position where it succeeds, wherever that is in the piece. */
  function FindLink(part: string): (r: Option<(string, string)>)
    ensures r.Some? ==> r.value.0 != [] && ']' !in r.value.0
    ensures r.Some? ==> ')' !in r.value.1 && NoLineTerminator(r.value.1)
    ensures (forall i :: 0 <= i < |part| ==> part[i] != '[') ==> r.None?
    decreases |part|
  {
    if part == [] then None
    else if LinkAt(part).Some? then LinkAt(part)
    else FindLink(part[1..])
  }

  /** The span one piece is displayed as, by the checks in the order they are made. */
  function Classify(part: string): Span {
    if StartsWith(part, "**") && EndsWith(part, "**") then Bold(Substring(part, 2, |part| - 2))
    else if StartsWith(part, "`") && EndsWith(part, "`") then Code(Substring(part, 1, |part| - 1))
    else
      match FindLink(part)
      case Some(link) => Link(link.0, NormalizeUrl(link.1))
      case None => Plain(part)
  }

  /** `processInlineFormatting`: one span per piece of the split, in order. */
  function ProcessInline(s: string): (r: seq<Span>)
    ensures |r| == |Pieces(s)|
    ensures s == [] <==> r == []
  {
    var ps := Pieces(s);
    assert s != [] ==> ps != [];
    seq(|ps|, k requires 0 <= k < |ps| => Classify(ps[k].text))
  }
}
