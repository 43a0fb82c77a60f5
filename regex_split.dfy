/**
 * `String.prototype.split` with the two global regular expressions of the
 * template parser, written out as string functions.
 *
 * - Handlebars is `{{\s*([^{}]+?)\s*}}`. Anchored at `q` it matches exactly
 *   when `{{` starts at `q`, the run of characters other than `{` and `}`
 *   that follows is not empty, and that run is followed by `}}`. The lazy
 *   group between the greedy white-space runs captures the run with its
 *   white space trimmed; when the run is white space only, the first `\s*`
 *   backs off by one character and the group captures the last character.
 * - FunctionCall is `\(\s*([^()]*?)\s*\)`. Anchored at `q` it matches exactly
 *   when `(` starts at `q` and the run of characters other than `(` and `)`
 *   that follows is ended by `)`. The group may be empty, so it captures the
 *   run with its white space trimmed, possibly the empty string.
 *
 * Split follows ECMA-262's `RegExp.prototype[@@split]`: it tries a sticky
 * match at each position `q`, and on a match at `q` ending at `e` emits the
 * text since the previous match and the capture, then resumes at `e`. Both
 * patterns consume at least two characters, so no match is empty.
 */
module RegexSplit {

  import opened Wrappers
  import opened JsStrings

  datatype Pattern = Handlebars | FunctionCall

  /** A match ending at `end` whose group spans `s[groupStart..groupEnd]`. */
  datatype Match = Match(end: nat, groupStart: nat, groupEnd: nat)

  /** The characters the pattern's capture class excludes. */
  predicate Stops(p: Pattern, c: char) {
    match p
    case Handlebars => c == '{' || c == '}'
    case FunctionCall => c == '(' || c == ')'
  }

  /** The end of the run of characters from `k` on that the capture class accepts. */
  function RunEnd(p: Pattern, s: string, k: nat): (j: nat)
    requires k <= |s|
    ensures k <= j <= |s| && (j < |s| ==> Stops(p, s[j]))
    ensures forall i :: k <= i < j ==> !Stops(p, s[i])
    decreases |s| - k
  {
    if k == |s| || Stops(p, s[k]) then k else RunEnd(p, s, k + 1)
  }

  /** What `\s*([^{}]+?)\s*` captures of a brace-free run; the pattern only
      matches non-empty runs, whose capture is never empty. */
  function HandlebarsCapture(body: string): (r: string)
    ensures |body| > 0 ==> |r| > 0
  {
    if body == [] then []
    else if AllWhitespace(body) then [body[|body| - 1]]
    else
      TrimEmptyIffWhitespace(body);
      Trim(body)
  }

  /** The sticky match of the pattern at position `q`. */
  function MatchAt(p: Pattern, s: string, q: nat): (m: Option<Match>)
    ensures m.Some? ==> q < m.value.groupStart <= m.value.groupEnd < m.value.end <= |s|
    ensures m.Some? && p == Handlebars ==> m.value.groupStart < m.value.groupEnd
  {
    match p
    case Handlebars =>
      if q + 2 <= |s| && s[q] == '{' && s[q + 1] == '{' then
        var j := RunEnd(p, s, q + 2);
        if q + 2 < j && j + 2 <= |s| && s[j] == '}' && s[j + 1] == '}' then
          Some(Match(j + 2, q + 2, j))
        else None
      else None
    case FunctionCall =>
      if q < |s| && s[q] == '(' then
        var j := RunEnd(p, s, q + 1);
        if j < |s| && s[j] == ')' then Some(Match(j + 1, q + 1, j)) else None
      else None
  }

  /** The literal pieces of `s[last..]` alternating with the runs the matches
      group, scanning for a match from `q` on. */
  function Scan(p: Pattern, s: string, last: nat, q: nat): (r: seq<string>)
    requires last <= q <= |s|
    ensures |r| >= 1
    decreases |s| - q
  {
    if q == |s| then [s[last..]]
    else
      match MatchAt(p, s, q)
      case None => Scan(p, s, last, q + 1)
      case Some(m) => [s[last..q], s[m.groupStart..m.groupEnd]] + Scan(p, s, m.end, m.end)
  }

  /** What the capturing group yields for a grouped run. */
  function Capture(p: Pattern, group: string): (r: string)
    ensures p == Handlebars && |group| > 0 ==> |r| > 0
    ensures p == FunctionCall ==> r == Trim(group)
  {
    match p
    case Handlebars => HandlebarsCapture(group)
    case FunctionCall => Trim(group)
  }

  /** The pieces of a scan with each grouped run replaced by its capture. */
  function Captures(p: Pattern, pieces: seq<string>): (r: seq<string>)
    ensures |r| == |pieces|
    decreases |pieces|
  {
    if |pieces| <= 1 then pieces
    else [pieces[0], Capture(p, pieces[1])] + Captures(p, pieces[2..])
  }

  /** `s.split(regex)`: literal pieces at even indices, captures at odd ones. */
  function Split(p: Pattern, s: string): (r: seq<string>)
    ensures |r| >= 1
  {
    Captures(p, Scan(p, s, 0, 0))
  }

  /** Pieces and runs alternate: `n` matches give `2 * n + 1` pieces. */
  lemma {:induction false} ScanCount(p: Pattern, s: string, last: nat, q: nat) returns (n: nat)
    requires last <= q <= |s|
    ensures |Scan(p, s, last, q)| == 2 * n + 1
    decreases |s| - q
  {
    if q == |s| {
      n := 0;
    } else {
      match MatchAt(p, s, q)
      case None =>
        n := ScanCount(p, s, last, q + 1);
      case Some(m) =>
        var k := ScanCount(p, s, m.end, m.end);
        n := k + 1;
    }
  }

  /** A split never has exactly two pieces. */
  lemma SplitLength(p: Pattern, s: string)
    ensures |Split(p, s)| == 1 || |Split(p, s)| >= 3
  {
    var n := ScanCount(p, s, 0, 0);
  }

  /** Positions without a match are skipped. */
  lemma {:induction false} ScanSkip(p: Pattern, s: string, last: nat, q: nat, q': nat)
    requires last <= q <= q' <= |s|
    requires forall i :: q <= i < q' ==> MatchAt(p, s, i).None?
    ensures Scan(p, s, last, q) == Scan(p, s, last, q')
    decreases q' - q
  {
    if q < q' {
      assert MatchAt(p, s, q).None?;
      ScanSkip(p, s, last, q + 1, q');
    }
  }

  /** Without a match from `q` on, the rest is one piece. */
  lemma ScanWithoutMatch(p: Pattern, s: string, last: nat, q: nat)
    requires last <= q <= |s|
    requires forall i :: q <= i < |s| ==> MatchAt(p, s, i).None?
    ensures Scan(p, s, last, q) == [s[last..]]
  {
    ScanSkip(p, s, last, q, |s|);
  }

  /** Text without `{{` is not split. */
  lemma SplitWithoutBraces(s: string)
    requires !Includes(s, "{{")
    ensures Split(Handlebars, s) == [s]
  {
    forall i | 0 <= i < |s| ensures MatchAt(Handlebars, s, i).None? {
      if i + 2 <= |s| {
        assert !OccursAt(s, "{{", i);
        assert s[i..i + 2] == [s[i], s[i + 1]];
      }
    }
    ScanWithoutMatch(Handlebars, s, 0, 0);
  }

  /** Text without `)` holds no argument group. */
  lemma SplitWithoutCloseParen(s: string)
    requires ')' !in s
    ensures Split(FunctionCall, s) == [s]
  {
    ScanWithoutMatch(FunctionCall, s, 0, 0);
  }

  predicate Free(p: Pattern, s: string) {
    forall i :: 0 <= i < |s| ==> !Stops(p, s[i])
  }

  /** A piece free of the pattern's stop characters holds no match. */
  lemma ScanFree(p: Pattern, s: string, last: nat, a: string)
    requires last + |a| <= |s| && s[last..last + |a|] == a && Free(p, a)
    ensures Scan(p, s, last, last) == Scan(p, s, last, last + |a|)
  {
    forall i | last <= i < last + |a| ensures MatchAt(p, s, i).None? {
      assert s[i] == a[i - last];
    }
    ScanSkip(p, s, last, last, last + |a|);
  }

  /** A match unfolds the scan into the piece before it, its grouped run and the rest. */
  lemma ScanAtMatch(p: Pattern, s: string, last: nat, q: nat, m: Match)
    requires last <= q <= |s| && MatchAt(p, s, q) == Some(m)
    ensures Scan(p, s, last, q) == [s[last..q], s[m.groupStart..m.groupEnd]] + Scan(p, s, m.end, m.end)
  {
    var r := Scan(p, s, last, q);
    assert r[2..] == Scan(p, s, m.end, m.end);
    assert r == [r[0], r[1]] + r[2..];
  }

  /** A slice that spells `x + y` splits into a slice for `x` and one for `y`. */
  lemma SliceSplit(s: string, i: nat, x: string, y: string)
    requires i + |x| + |y| <= |s| && s[i..i + |x| + |y|] == x + y
    ensures s[i..i + |x|] == x && s[i + |x|..i + |x| + |y|] == y
  {
    assert s[i..i + |x|] == s[i..i + |x| + |y|][..|x|];
    assert s[i + |x|..i + |x| + |y|] == s[i..i + |x| + |y|][|x|..];
  }

  /** A suffix that starts with `x` splits into `x` and what follows it. */
  lemma SuffixSplit(s: string, k: nat, x: string, y: string)
    requires k <= |s| && s[k..] == x + y
    ensures k + |x| <= |s| && s[k..k + |x|] == x && s[k + |x|..] == y
  {
    assert s[k..][..|x|] == x;
    assert s[k..][|x|..] == y;
  }

  /** Literal pieces and interpolation bodies that render to a template text:
      an odd number of brace-free pieces, the odd-indexed ones not empty. */
  predicate WellFormedPieces(ts: seq<string>)
    decreases |ts|
  {
    || (|ts| == 1 && Free(Handlebars, ts[0]))
    || (&& |ts| >= 3 && Free(Handlebars, ts[0]) && |ts[1]| > 0 && Free(Handlebars, ts[1])
        && WellFormedPieces(ts[2..]))
  }

  /** The text `ts[0]{{ts[1]}}ts[2]...` (the reference the split is checked against). */
  function Interpolate(ts: seq<string>): string
    requires WellFormedPieces(ts)
    decreases |ts|
  {
    if |ts| == 1 then ts[0] else ts[0] + "{{" + ts[1] + "}}" + Interpolate(ts[2..])
  }

  /** The run from `k` ends at the first stop character from `k` on. */
  lemma RunEndAt(p: Pattern, s: string, k: nat, j: nat)
    requires k <= j < |s| && Stops(p, s[j])
    requires forall i :: k <= i < j ==> !Stops(p, s[i])
    ensures RunEnd(p, s, k) == j
  {
  }

  /** `{{body}}` at `q` with a non-empty brace-free body is a match grouping the body. */
  lemma MatchBraced(s: string, q: nat, body: string)
    requires q + 4 + |body| <= |s| && |body| > 0 && Free(Handlebars, body)
    requires s[q..q + 4 + |body|] == "{{" + body + "}}"
    ensures MatchAt(Handlebars, s, q) == Some(Match(q + 4 + |body|, q + 2, q + 2 + |body|))
    ensures s[q + 2..q + 2 + |body|] == body
  {
    var j := q + 2 + |body|;
    var w := s[q..q + 4 + |body|];
    assert w == "{{" + body + "}}";
    assert s[q] == w[0] == '{' && s[q + 1] == w[1] == '{';
    assert s[j] == w[2 + |body|] == '}' && s[j + 1] == w[3 + |body|] == '}';
    forall i | q + 2 <= i < j ensures !Stops(Handlebars, s[i]) {
      assert s[i] == w[i - q] == body[i - q - 2];
    }
    RunEndAt(Handlebars, s, q + 2, j);
    forall i | 0 <= i < |body| ensures s[q + 2..j][i] == body[i] {
      assert s[q + 2 + i] == w[2 + i];
    }
  }

  /** `a{{b}}` at `last`: the piece, then a match at its end grouping `b`. */
  lemma BracedAt(s: string, last: nat, a: string, b: string)
    requires last + |a| + 4 + |b| <= |s|
    requires s[last..last + |a| + 4 + |b|] == a + ("{{" + b + "}}")
    requires Free(Handlebars, b) && |b| > 0
    ensures s[last..last + |a|] == a
    ensures MatchAt(Handlebars, s, last + |a|)
      == Some(Match(last + |a| + 4 + |b|, last + |a| + 2, last + |a| + 2 + |b|))
    ensures s[last + |a| + 2..last + |a| + 2 + |b|] == b
  {
    var braced := "{{" + b + "}}";
    assert |braced| == 4 + |b|;
    SliceSplit(s, last, a, braced);
    MatchBraced(s, last + |a|, b);
  }

  /** A brace-free piece followed by a match scans as that piece and the group. */
  lemma ScanBraced(s: string, last: nat, a: string, m: Match, b: string)
    requires last + |a| <= |s| && s[last..last + |a|] == a && Free(Handlebars, a)
    requires MatchAt(Handlebars, s, last + |a|) == Some(m) && s[m.groupStart..m.groupEnd] == b
    ensures Scan(Handlebars, s, last, last) == [a, b] + Scan(Handlebars, s, m.end, m.end)
  {
    ScanFree(Handlebars, s, last, a);
    ScanAtMatch(Handlebars, s, last, last + |a|, m);
  }

  /** A brace-free piece followed by `{{body}}`, ending at `e`, scans as that
      piece and the body. */
  lemma ScanBracedText(s: string, last: nat, a: string, b: string, e: nat)
    requires e == last + |a| + 4 + |b| <= |s|
    requires s[last..e] == a + ("{{" + b + "}}")
    requires Free(Handlebars, a) && Free(Handlebars, b) && |b| > 0
    ensures Scan(Handlebars, s, last, last) == [a, b] + Scan(Handlebars, s, e, e)
  {
    var m := Match(e, last + |a| + 2, last + |a| + 2 + |b|);
    assert m.end == e;
    BracedAt(s, last, a, b);
    ScanBraced(s, last, a, m, b);
  }

  /** A brace-free suffix is the last piece of the scan. */
  lemma ScanFreeSuffix(s: string, last: nat, a: string)
    requires last <= |s| && s[last..] == a && Free(Handlebars, a)
    ensures Scan(Handlebars, s, last, last) == [a]
  {
    forall i | last <= i < |s| ensures MatchAt(Handlebars, s, i).None? {
      assert s[i] == a[i - last];
    }
    ScanWithoutMatch(Handlebars, s, last, last);
  }

  lemma {:induction false} ScanInterpolate(s: string, last: nat, ts: seq<string>)
    requires WellFormedPieces(ts) && last <= |s| && s[last..] == Interpolate(ts)
    ensures Scan(Handlebars, s, last, last) == ts
    decreases |ts|
  {
    if |ts| == 1 {
      ScanFreeSuffix(s, last, ts[0]);
    } else {
      var e := InterpolateSplit(s, last, ts);
      ScanInterpolate(s, e, ts[2..]);
      ScanBracedText(s, last, ts[0], ts[1], e);
      HeadsAndRest(ts);
    }
  }

  /** A sequence of two or more is its first two elements and the rest. */
  lemma HeadsAndRest<T>(ts: seq<T>)
    requires |ts| >= 2
    ensures ts == [ts[0], ts[1]] + ts[2..]
  {
  }

  /** A rendered text of three or more pieces starts with `ts[0]{{ts[1]}}`
      and continues with the rendering of the rest. */
  lemma InterpolateSplit(s: string, last: nat, ts: seq<string>) returns (e: nat)
    requires WellFormedPieces(ts) && |ts| != 1 && last <= |s| && s[last..] == Interpolate(ts)
    ensures |ts| >= 3 && WellFormedPieces(ts[2..])
    ensures e == last + |ts[0]| + 4 + |ts[1]| <= |s|
    ensures s[last..e] == ts[0] + ("{{" + ts[1] + "}}")
    ensures s[e..] == Interpolate(ts[2..])
    ensures Free(Handlebars, ts[0]) && Free(Handlebars, ts[1]) && |ts[1]| > 0
  {
    var a, b := ts[0], ts[1];
    assert Interpolate(ts) == (a + ("{{" + b + "}}")) + Interpolate(ts[2..]);
    SuffixSplit(s, last, a + ("{{" + b + "}}"), Interpolate(ts[2..]));
    e := last + |a| + 4 + |b|;
  }

  /** Splitting a rendered template text gives back its literal pieces and
      the captures of its interpolation bodies, in order. */
  lemma SplitInterpolate(ts: seq<string>)
    requires WellFormedPieces(ts)
    ensures Split(Handlebars, Interpolate(ts)) == Captures(Handlebars, ts)
  {
    ScanInterpolate(Interpolate(ts), 0, ts);
  }

  /** `(body)` at `q` with a parenthesis-free body is a match grouping the body. */
  lemma MatchParenthesized(s: string, q: nat, body: string)
    requires q + 2 + |body| <= |s| && Free(FunctionCall, body)
    requires s[q..q + 2 + |body|] == "(" + body + ")"
    ensures MatchAt(FunctionCall, s, q) == Some(Match(q + 2 + |body|, q + 1, q + 1 + |body|))
    ensures s[q + 1..q + 1 + |body|] == body
  {
    var j := q + 1 + |body|;
    var w := s[q..q + 2 + |body|];
    assert w == "(" + body + ")";
    assert s[q] == w[0] == '(' && s[j] == w[1 + |body|] == ')';
    forall i | q + 1 <= i < j ensures !Stops(FunctionCall, s[i]) {
      assert s[i] == w[i - q] == body[i - q - 1];
    }
    RunEndAt(FunctionCall, s, q + 1, j);
    forall i | 0 <= i < |body| ensures s[q + 1..j][i] == body[i] {
      assert s[q + 1 + i] == w[1 + i];
    }
  }

  /** In `name(body)tail` with `name` and `body` free of parentheses, the first
      two pieces of the split are `name` and the trimmed `body`. */
  lemma SplitCallGroup(s: string, name: string, body: string, tail: string)
    requires s == name + ("(" + body + ")") + tail
    requires Free(FunctionCall, name) && Free(FunctionCall, body)
    ensures |Split(FunctionCall, s)| >= 3
    ensures Split(FunctionCall, s)[0] == name && Split(FunctionCall, s)[1] == Trim(body)
  {
    var q := |name|;
    var e := q + 2 + |body|;
    assert s[0..] == s;
    SuffixSplit(s, 0, name + ("(" + body + ")"), tail);
    SliceSplit(s, 0, name, "(" + body + ")");
    ScanFree(FunctionCall, s, 0, name);
    MatchParenthesized(s, q, body);
    ScanAtMatch(FunctionCall, s, 0, q, Match(e, q + 1, q + 1 + |body|));
    var rest := Scan(FunctionCall, s, e, e);
    assert Scan(FunctionCall, s, 0, 0) == [name, body] + rest;
    assert ([name, body] + rest)[2..] == rest;
  }
}
