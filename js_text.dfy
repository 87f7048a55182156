/** The JavaScript string built-ins that the formatter relies on, stated over
    `string` (a sequence of characters): the `\s` class and `String.prototype.trim`,
    the line terminators that the regular-expression `.` refuses, `startsWith`,
    `endsWith`, `substring` with its clamping and argument swap, and
    `split` with a one-character separator. */
module JsText {

  datatype Option<T> = None | Some(value: T)

  /** The characters `.` does not match: LF, CR, LINE SEPARATOR, PARAGRAPH SEPARATOR. */
  predicate IsLineTerminator(c: char) {
    c == '\n' || c == '\r' || c == '\U{2028}' || c == '\U{2029}'
  }

  /** The regular-expression class `\s`, which is also the set of characters
      `trim` removes: the ECMAScript WhiteSpace and LineTerminator productions. */
  predicate IsWhiteSpace(c: char) {
    || IsLineTerminator(c)
    || c == '\t' || c == '\U{B}' || c == '\U{C}' || c == ' '
    || c == '\U{A0}' || c == '\U{1680}' || ('\U{2000}' <= c <= '\U{200A}')
    || c == '\U{202F}' || c == '\U{205F}' || c == '\U{3000}' || c == '\U{FEFF}'
  }

  predicate StartsWith(s: string, prefix: string) {
    |prefix| <= |s| && s[..|prefix|] == prefix
  }

  predicate EndsWith(s: string, suffix: string) {
    |suffix| <= |s| && s[|s| - |suffix|..] == suffix
  }

  /** Does `s` hold `needle` at position `j`? */
  predicate OccursAt(s: string, j: nat, needle: string) {
    j + |needle| <= |s| && s[j..j + |needle|] == needle
  }

  predicate AllWhiteSpace(s: string) {
    forall i :: 0 <= i < |s| ==> IsWhiteSpace(s[i])
  }

  /** `s.indexOf(c, j)`, as an option: the first position at or after `j` holding `c`. */
  function IndexOf(s: string, j: nat, c: char): (r: Option<nat>)
    requires j <= |s|
    ensures r.Some? ==> j <= r.value < |s| && s[r.value] == c
    ensures r.Some? ==> forall i :: j <= i < r.value ==> s[i] != c
    ensures r.None? ==> forall i :: j <= i < |s| ==> s[i] != c
    decreases |s| - j
  {
    if j == |s| then None
    else if s[j] == c then Some(j)
    else IndexOf(s, j + 1, c)
  }

  function Clamp(x: int, len: nat): (r: nat)
    ensures r <= len
    ensures 0 <= x <= len ==> r == x
  {
    if x < 0 then 0 else if x > len then len else x
  }

  /** `s.substring(start, end)`: both bounds are clamped into `[0, |s|]`, and
      the two are swapped when `start` is past `end`. */
  function Substring(s: string, start: int, end: int): (r: string)
    ensures 0 <= start <= end <= |s| ==> r == s[start..end]
    ensures 0 <= end <= start <= |s| ==> r == s[end..start]
  {
    var a, b := Clamp(start, |s|), Clamp(end, |s|);
    if a <= b then s[a..b] else s[b..a]
  }

  /** `trimStart`: drops the leading white space. */
  function TrimStart(s: string): (r: string)
    ensures |r| <= |s| && r == s[|s| - |r|..]
    ensures AllWhiteSpace(s[..|s| - |r|])
    ensures r != [] ==> !IsWhiteSpace(r[0])
  {
    if |s| > 0 && IsWhiteSpace(s[0]) then TrimStart(s[1..]) else s
  }

  /** `trimEnd`: drops the trailing white space. */
  function TrimEnd(s: string): (r: string)
    ensures |r| <= |s| && r == s[..|r|]
    ensures AllWhiteSpace(s[|r|..])
    ensures r != [] ==> !IsWhiteSpace(r[|r| - 1])
  {
    if |s| > 0 && IsWhiteSpace(s[|s| - 1]) then TrimEnd(s[..|s| - 1]) else s
  }

  /** `trim`: the slice of `s` between its leading and its trailing white space. */
  function Trim(s: string): (r: string)
    ensures r == [] <==> AllWhiteSpace(s)
    ensures r != [] ==> !IsWhiteSpace(r[0]) && !IsWhiteSpace(r[|r| - 1])
    ensures |s| - |TrimStart(s)| + |r| <= |s|
    ensures r == s[|s| - |TrimStart(s)|..|s| - |TrimStart(s)| + |r|]
  {
    var t := TrimStart(s);
    var r := TrimEnd(t);
    assert r == [] ==> AllWhiteSpace(s) by {
      if r == [] {
        assert t == [];
        assert s[..|s| - |t|] == s;
      }
    }
    r
  }

  /** What `trim` drops on either side of its result is white space only. */
  lemma TrimDropsWhiteSpace(s: string)
    ensures var a := |s| - |TrimStart(s)|;
      AllWhiteSpace(s[..a]) && AllWhiteSpace(s[a + |Trim(s)|..])
  {
    var t := TrimStart(s);
    var r := Trim(s);
    assert r == TrimEnd(t);
    assert s[|s| - |t| + |r|..] == t[|r|..];
  }

  lemma {:induction false} TrimStartPadded(x: string, rest: string)
    requires AllWhiteSpace(x)
    requires rest == [] || !IsWhiteSpace(rest[0])
    ensures TrimStart(x + rest) == rest
    decreases |x|
  {
    if x == [] {
      assert x + rest == rest;
    } else {
      assert (x + rest)[0] == x[0] && (x + rest)[1..] == x[1..] + rest;
      TrimStartPadded(x[1..], rest);
    }
  }

  lemma {:induction false} TrimEndPadded(rest: string, y: string)
    requires AllWhiteSpace(y)
    requires rest == [] || !IsWhiteSpace(rest[|rest| - 1])
    ensures TrimEnd(rest + y) == rest
    decreases |y|
  {
    if y == [] {
      assert rest + y == rest;
    } else {
      var u := rest + y;
      assert u[|u| - 1] == y[|y| - 1];
      assert u[..|u| - 1] == rest + y[..|y| - 1];
      TrimEndPadded(rest, y[..|y| - 1]);
    }
  }

  /** `trim` removes exactly the white space around the text: a text that is
      white space, then a run that starts and ends with other characters, then
      white space again, trims to that run. */
  lemma TrimOfPadded(x: string, m: string, y: string)
    requires AllWhiteSpace(x) && AllWhiteSpace(y)
    requires m != [] && !IsWhiteSpace(m[0]) && !IsWhiteSpace(m[|m| - 1])
    ensures Trim(x + m + y) == m
  {
    assert (m + y)[0] == m[0];
    assert x + m + y == x + (m + y);
    TrimStartPadded(x, m + y);
    TrimEndPadded(m, y);
  }

  /** A text that begins and ends with a character other than white space is
      left as it is by `trim`. */
  lemma TrimKeepsTrimmed(s: string)
    requires s != [] && !IsWhiteSpace(s[0]) && !IsWhiteSpace(s[|s| - 1])
    ensures Trim(s) == s
  {
    assert TrimStart(s) == s;
    assert TrimEnd(s) == s;
  }

  /** The number of occurrences of `c` in `s`. */
  function Count(s: string, c: char): nat {
    if s == [] then 0 else (if s[0] == c then 1 else 0) + Count(s[1..], c)
  }

  /** The lines joined back with the separator: the inverse of `Split`. */
  function Join(parts: seq<string>, sep: char): string {
    if parts == [] then []
    else if |parts| == 1 then parts[0]
    else parts[0] + [sep] + Join(parts[1..], sep)
  }

  /** The loop of `String.prototype.split` with a one-character separator:
      `rest` is the text still to scan, `cur` the piece collected since the last separator. */
  function SplitScan(rest: string, cur: string, sep: char): (r: seq<string>)
    requires sep !in cur
    ensures |r| == Count(rest, sep) + 1
    ensures forall k :: 0 <= k < |r| ==> sep !in r[k]
    decreases |rest|
  {
    if rest == [] then [cur]
    else if rest[0] == sep then [cur] + SplitScan(rest[1..], [], sep)
    else SplitScan(rest[1..], cur + [rest[0]], sep)
  }

  /** `s.split(sep)` for a one-character string `sep`: one piece more than there
      are separators, and no piece holds the separator. */
  function Split(s: string, sep: char): (r: seq<string>)
    ensures |r| == Count(s, sep) + 1
    ensures forall k :: 0 <= k < |r| ==> sep !in r[k]
  {
    SplitScan(s, [], sep)
  }

  lemma {:induction false} JoinSplitScan(rest: string, cur: string, sep: char)
    requires sep !in cur
    ensures Join(SplitScan(rest, cur, sep), sep) == cur + rest
    decreases |rest|
  {
    if rest == [] {
    } else if rest[0] == sep {
      JoinSplitScan(rest[1..], [], sep);
      assert rest == [sep] + rest[1..];
    } else {
      JoinSplitScan(rest[1..], cur + [rest[0]], sep);
      assert cur + [rest[0]] + rest[1..] == cur + rest;
    }
  }

  /** Joining the pieces of a split with the separator gives back the text. */
  lemma JoinSplit(s: string, sep: char)
    ensures Join(Split(s, sep), sep) == s
  {
    JoinSplitScan(s, [], sep);
  }

  lemma {:induction false} SplitScanSkip(x: string, rest: string, cur: string, sep: char)
    requires sep !in cur && sep !in x
    ensures SplitScan(x + rest, cur, sep) == SplitScan(rest, cur + x, sep)
    decreases |x|
  {
    if x != [] {
      assert (x + rest)[1..] == x[1..] + rest;
      SplitScanSkip(x[1..], rest, cur + [x[0]], sep);
      assert cur + [x[0]] + x[1..] == cur + x;
    } else {
      assert x + rest == rest && cur + x == cur;
    }
  }

  /** Splitting lines that hold no separator, once joined, gives back those lines. */
  lemma {:induction false} SplitJoin(lines: seq<string>, sep: char)
    requires |lines| >= 1
    requires forall k :: 0 <= k < |lines| ==> sep !in lines[k]
    ensures Split(Join(lines, sep), sep) == lines
    decreases |lines|
  {
    if |lines| == 1 {
      SplitScanSkip(lines[0], [], [], sep);
      assert lines[0] + [] == lines[0] && [] + lines[0] == lines[0];
      assert lines == [lines[0]];
    } else {
      var tail := Join(lines[1..], sep);
      SplitScanSkip(lines[0], [sep] + tail, [], sep);
      assert Join(lines, sep) == lines[0] + ([sep] + tail);
      assert [] + lines[0] == lines[0];
      assert ([sep] + tail)[0] == sep && ([sep] + tail)[1..] == tail;
      SplitJoin(lines[1..], sep);
      assert lines == [lines[0]] + lines[1..];
    }
  }
}
