/**
 * The JavaScript string operations the template parser relies on, written out
 * over `string` (a sequence of characters): `trim`, `startsWith`, `endsWith`,
 * `slice`, `indexOf`, `split` with a string separator, `Array.prototype.join`
 * and the decimal rendering of a non-negative integer in a template literal.
 */
module JsStrings {

  import opened Wrappers

  /** The characters JavaScript's `\s` and `String.prototype.trim` treat as
      white space: WhiteSpace and LineTerminator of ECMA-262. */
  predicate IsWhitespace(c: char) {
    || c == '\t' || c == '\n' || c == '\U{B}' || c == '\U{C}' || c == '\r' || c == ' '
    || c == '\U{A0}' || c == '\U{1680}' || ('\U{2000}' <= c <= '\U{200A}')
    || c == '\U{2028}' || c == '\U{2029}' || c == '\U{202F}' || c == '\U{205F}'
    || c == '\U{3000}' || c == '\U{FEFF}'
  }

  predicate AllWhitespace(s: string) {
    forall i :: 0 <= i < |s| ==> IsWhitespace(s[i])
  }

  /** `s.trimStart()`: the suffix of `s` left after its leading white space. */
  function TrimStart(s: string): (r: string)
    ensures |r| <= |s|
    ensures r == [] || !IsWhitespace(r[0])
  {
    if |s| > 0 && IsWhitespace(s[0]) then TrimStart(s[1..]) else s
  }

  /** What `trimStart` removes is exactly the leading white space. */
  lemma {:induction false} TrimStartSpec(s: string)
    ensures var r := TrimStart(s); r == s[|s| - |r|..] && AllWhitespace(s[..|s| - |r|])
    decreases |s|
  {
    if |s| > 0 && IsWhitespace(s[0]) {
      var r := TrimStart(s[1..]);
      TrimStartSpec(s[1..]);
      assert s[1..][..|s| - 1 - |r|] == s[1..|s| - |r|];
      assert s[1..][|s| - 1 - |r|..] == s[|s| - |r|..];
    }
  }

  /** `s.trimEnd()`: the prefix of `s` left before its trailing white space. */
  function TrimEnd(s: string): (r: string)
    ensures |r| <= |s|
    ensures r == [] || !IsWhitespace(r[|r| - 1])
  {
    if |s| > 0 && IsWhitespace(s[|s| - 1]) then TrimEnd(s[..|s| - 1]) else s
  }

  /** What `trimEnd` removes is exactly the trailing white space. */
  lemma {:induction false} TrimEndSpec(s: string)
    ensures var r := TrimEnd(s); r == s[..|r|] && AllWhitespace(s[|r|..])
    decreases |s|
  {
    if |s| > 0 && IsWhitespace(s[|s| - 1]) {
      var r := TrimEnd(s[..|s| - 1]);
      TrimEndSpec(s[..|s| - 1]);
      assert s[..|s| - 1][|r|..] + [s[|s| - 1]] == s[|r|..];
      assert s[..|s| - 1][..|r|] == s[..|r|];
    }
  }

  /** `s.trim()`. */
  function Trim(s: string): (r: string)
    ensures |r| <= |s|
    ensures r == [] || (!IsWhitespace(r[0]) && !IsWhitespace(r[|r| - 1]))
  {
    var t := TrimStart(s);
    TrimEndSpec(t);
    TrimEnd(t)
  }

  /** `trim` removes exactly the leading and the trailing white space. */
  lemma TrimSpec(s: string)
    ensures var r := Trim(s);
      exists k :: (0 <= k <= |s| - |r| && r == s[k..k + |r|]
                   && AllWhitespace(s[..k]) && AllWhitespace(s[k + |r|..]))
  {
    var t := TrimStart(s);
    var r := TrimEnd(t);
    TrimStartSpec(s);
    TrimEndSpec(t);
    var k := |s| - |t|;
    assert r == s[k..k + |r|];
    assert s[k + |r|..] == t[|r|..];
  }

  /** Leading white space is what `trimStart` removes. */
  lemma {:induction false} TrimStartOfPadded(a: string, t: string)
    requires AllWhitespace(a) && (t == [] || !IsWhitespace(t[0]))
    ensures TrimStart(a + t) == t
    decreases |a|
  {
    if a == [] {
      assert a + t == t;
    } else {
      assert (a + t)[0] == a[0];
      assert (a + t)[1..] == a[1..] + t;
      TrimStartOfPadded(a[1..], t);
    }
  }

  /** Trailing white space is what `trimEnd` removes. */
  lemma {:induction false} TrimEndOfPadded(t: string, b: string)
    requires AllWhitespace(b) && (t == [] || !IsWhitespace(t[|t| - 1]))
    ensures TrimEnd(t + b) == t
    decreases |b|
  {
    if b == [] {
      assert t + b == t;
    } else {
      var s := t + b;
      assert s[|s| - 1] == b[|b| - 1];
      assert s[..|s| - 1] == t + b[..|b| - 1];
      TrimEndOfPadded(t, b[..|b| - 1]);
    }
  }

  /** Trimming white space padding gives back the padded text. */
  lemma TrimOfPadded(a: string, t: string, b: string)
    requires AllWhitespace(a) && AllWhitespace(b)
    requires t == [] || (!IsWhitespace(t[0]) && !IsWhitespace(t[|t| - 1]))
    ensures Trim(a + t + b) == t
  {
    if t == [] {
      assert a + t + b == a + b;
      assert AllWhitespace(a + b);
      TrimOfWhitespace(a + b);
      TrimEmptyIffWhitespace(a + b);
    } else {
      assert a + t + b == a + (t + b);
      TrimStartOfPadded(a, t + b);
      TrimEndOfPadded(t, b);
    }
  }

  /** Trimming a string whose first and last characters are not white space
      leaves it as it is. */
  lemma TrimOfTrimmed(s: string)
    requires s == [] || (!IsWhitespace(s[0]) && !IsWhitespace(s[|s| - 1]))
    ensures Trim(s) == s
  {
  }

  /** A string made of white space only trims to the empty string. */
  lemma {:induction false} TrimOfWhitespace(s: string)
    requires AllWhitespace(s)
    ensures TrimStart(s) == "" && Trim(s) == ""
  {
    if |s| > 0 {
      TrimOfWhitespace(s[1..]);
    }
  }

  /** A string trims to the empty string exactly when it is all white space. */
  lemma TrimEmptyIffWhitespace(s: string)
    ensures Trim(s) == "" <==> AllWhitespace(s)
  {
    if AllWhitespace(s) {
      TrimOfWhitespace(s);
    }
    var t := TrimStart(s);
    TrimStartSpec(s);
    TrimEndSpec(t);
    if Trim(s) == "" {
      assert AllWhitespace(t[0..]);
      assert s == s[..|s| - |t|] + t;
    }
  }

  /** `[f(x) for x of ss]` with `f = s => s.trim()`. */
  function TrimAll(ss: seq<string>): (r: seq<string>)
    ensures |r| == |ss| && forall i :: 0 <= i < |ss| ==> r[i] == Trim(ss[i])
  {
    seq(|ss|, i requires 0 <= i < |ss| => Trim(ss[i]))
  }

  predicate StartsWith(s: string, prefix: string) {
    |prefix| <= |s| && s[..|prefix|] == prefix
  }

  predicate EndsWith(s: string, suffix: string) {
    |suffix| <= |s| && s[|s| - |suffix|..] == suffix
  }

  predicate OccursAt(s: string, sep: string, i: nat) {
    i + |sep| <= |s| && s[i..i + |sep|] == sep
  }

  /** `s.includes(sub)`. */
  predicate Includes(s: string, sub: string) {
    exists i: nat :: i <= |s| && OccursAt(s, sub, i)
  }

  /** JavaScript's resolution of a `slice` index: negative values count from the end. */
  function SliceIndex(len: nat, k: int): (r: nat)
    ensures r <= len
    ensures 0 <= k <= len ==> r == k
    ensures -(len as int) <= k < 0 ==> r == len + k
  {
    if k < 0 then (if len + k < 0 then 0 else len + k)
    else if k > len then len else k
  }

  /** `s.slice(start, end)`. */
  function Slice(s: string, start: int, end: int): (r: string)
    ensures var from, to := SliceIndex(|s|, start), SliceIndex(|s|, end);
            r == if from < to then s[from..to] else ""
  {
    var from, to := SliceIndex(|s|, start), SliceIndex(|s|, end);
    if from < to then s[from..to] else ""
  }

  /** `s.indexOf(sep, from)`: the first occurrence of `sep` at or after `from`. */
  function IndexOfFrom(s: string, sep: string, from: nat): (r: Option<nat>)
    requires |sep| > 0
    ensures r.Some? ==> from <= r.value && OccursAt(s, sep, r.value)
    ensures r.Some? ==> forall j :: from <= j < r.value ==> !OccursAt(s, sep, j)
    ensures r.None? ==> forall j :: from <= j ==> !OccursAt(s, sep, j)
    decreases |s| - from
  {
    if from + |sep| > |s| then None
    else if s[from..from + |sep|] == sep then Some(from)
    else IndexOfFrom(s, sep, from + 1)
  }

  /** `s.split(sep)` for a non-empty string separator: the pieces between the
      occurrences of `sep`, found left to right without overlap. */
  function SplitOn(s: string, sep: string): (r: seq<string>)
    requires |sep| > 0
    ensures |r| >= 1
    decreases |s|
  {
    match IndexOfFrom(s, sep, 0)
    case None => [s]
    case Some(i) => [s[..i]] + SplitOn(s[i + |sep|..], sep)
  }

  /** `ss.join(sep)`. */
  function Join(ss: seq<string>, sep: string): string {
    if |ss| == 0 then ""
    else if |ss| == 1 then ss[0]
    else ss[0] + sep + Join(ss[1..], sep)
  }

  /** Joining the pieces of a split with its separator gives back the string. */
  lemma {:induction false} JoinSplitOn(s: string, sep: string)
    requires |sep| > 0
    ensures Join(SplitOn(s, sep), sep) == s
    decreases |s|
  {
    match IndexOfFrom(s, sep, 0)
    case None =>
    case Some(i) =>
      var rest := s[i + |sep|..];
      var pieces := SplitOn(rest, sep);
      JoinSplitOn(rest, sep);
      assert SplitOn(s, sep) == [s[..i]] + pieces;
      assert ([s[..i]] + pieces)[1..] == pieces;
      assert Join([s[..i]] + pieces, sep) == s[..i] + sep + Join(pieces, sep);
      assert s == s[..i] + sep + rest;
  }

  /** No piece of a split contains the separator. */
  lemma {:induction false} SplitOnPiecesAreFree(s: string, sep: string)
    requires |sep| > 0
    ensures forall k :: 0 <= k < |SplitOn(s, sep)| ==> !Includes(SplitOn(s, sep)[k], sep)
    decreases |s|
  {
    match IndexOfFrom(s, sep, 0)
    case None =>
    case Some(i) =>
      var rest := s[i + |sep|..];
      SplitOnPiecesAreFree(rest, sep);
      forall j: nat | j <= i ensures !OccursAt(s[..i], sep, j) {
        if j + |sep| <= i {
          assert s[..i][j..j + |sep|] == s[j..j + |sep|];
          assert !OccursAt(s, sep, j);
        }
      }
      assert !Includes(s[..i], sep);
      var pieces := SplitOn(s, sep);
      assert pieces == [s[..i]] + SplitOn(rest, sep);
      forall k | 0 <= k < |pieces| ensures !Includes(pieces[k], sep) {
        if k > 0 {
          assert pieces[k] == SplitOn(rest, sep)[k - 1];
        }
      }
  }

  /** A string without the separator splits into itself alone. */
  lemma SplitOnWithout(s: string, sep: string)
    requires |sep| > 0 && !Includes(s, sep)
    ensures SplitOn(s, sep) == [s]
  {
  }

  /** Splitting a join of pieces that do not contain the separator gives back
      the pieces (the other direction of the round trip). */
  lemma {:induction false} SplitOnJoin(ss: seq<string>, sep: string)
    requires |sep| > 0 && |ss| >= 1
    requires forall k :: 0 <= k < |ss| ==> !Includes(ss[k], sep)
    requires forall k :: 0 <= k < |ss| - 1 ==> !Includes(ss[k] + sep[..|sep| - 1], sep)
    ensures SplitOn(Join(ss, sep), sep) == ss
    decreases |ss|
  {
    if |ss| == 1 {
      SplitOnWithout(ss[0], sep);
    } else {
      var a := ss[0];
      var tail := Join(ss[1..], sep);
      var s := Join(ss, sep);
      var w := a + sep[..|sep| - 1];
      assert s == a + sep + tail;
      assert !Includes(a, sep) && !Includes(w, sep);
      assert OccursAt(s, sep, |a|);
      forall j: nat | j < |a| ensures !OccursAt(s, sep, j) {
        if j + |sep| <= |a| {
          assert s[j..j + |sep|] == a[j..j + |sep|];
          assert !OccursAt(a, sep, j);
        } else if j + |sep| <= |s| {
          assert s[j..j + |sep|] == w[j..j + |sep|];
          assert !OccursAt(w, sep, j);
        }
      }
      IndexOfFromFirst(s, sep, 0, |a|);
      assert s[..|a|] == a;
      assert s[|a| + |sep|..] == tail;
      SplitOnJoin(ss[1..], sep);
      assert SplitOn(s, sep) == [a] + SplitOn(tail, sep);
      assert ss == [a] + ss[1..];
    }
  }

  /** Two pieces joined by a separator neither holds split back into the two. */
  lemma SplitOnPair(a: string, b: string, sep: string)
    requires |sep| > 0 && !Includes(a, sep) && !Includes(b, sep) && !Includes(a + sep[..|sep| - 1], sep)
    ensures SplitOn(a + sep + b, sep) == [a, b]
  {
    var ss := [a, b];
    assert ss[1..] == [b];
    assert Join(ss, sep) == a + sep + b;
    SplitOnJoin(ss, sep);
  }

  /** The first occurrence is the one `IndexOfFrom` finds. */
  lemma {:induction false} IndexOfFromFirst(s: string, sep: string, from: nat, i: nat)
    requires |sep| > 0 && from <= i && OccursAt(s, sep, i)
    requires forall j :: from <= j < i ==> !OccursAt(s, sep, j)
    ensures IndexOfFrom(s, sep, from) == Some(i)
    decreases i - from
  {
    if from < i {
      assert !OccursAt(s, sep, from);
      IndexOfFromFirst(s, sep, from + 1, i);
    }
  }

  /** A join of two or more pieces contains the separator. */
  lemma JoinIncludesSeparator(ss: seq<string>, sep: string)
    requires |ss| >= 2
    ensures Includes(Join(ss, sep), sep)
  {
    var s := Join(ss, sep);
    assert s == ss[0] + sep + Join(ss[1..], sep);
    assert OccursAt(s, sep, |ss[0]|);
  }

  /** Every character of a join comes from the separator or from a piece. */
  lemma {:induction false} JoinChars(ss: seq<string>, sep: string)
    ensures forall c :: c in Join(ss, sep) ==> c in sep || exists k :: 0 <= k < |ss| && c in ss[k]
    decreases |ss|
  {
    if |ss| >= 2 {
      JoinChars(ss[1..], sep);
      forall c | c in Join(ss, sep) && c !in sep && c !in ss[0]
        ensures exists k :: 0 <= k < |ss| && c in ss[k]
      {
        assert c in Join(ss[1..], sep);
        var k :| 0 <= k < |ss| - 1 && c in ss[1..][k];
        assert c in ss[k + 1];
      }
    }
  }

  /** A join ends with its last piece. */
  lemma {:induction false} JoinEndsWithLast(ss: seq<string>, sep: string)
    requires |ss| > 0
    ensures EndsWith(Join(ss, sep), ss[|ss| - 1])
    decreases |ss|
  {
    if |ss| >= 2 {
      JoinEndsWithLast(ss[1..], sep);
      var s, t, last := Join(ss, sep), Join(ss[1..], sep), ss[|ss| - 1];
      assert ss[1..][|ss| - 2] == last;
      assert s == ss[0] + sep + t;
      assert s[|s| - |last|..] == t[|t| - |last|..];
    }
  }

  /** A join starts with its first piece and ends with its last one. */
  lemma JoinEdges(ss: seq<string>, sep: string)
    requires |ss| > 0 && ss[0] != [] && ss[|ss| - 1] != []
    ensures var s := Join(ss, sep);
      |s| > 0 && s[0] == ss[0][0] && s[|s| - 1] == ss[|ss| - 1][|ss[|ss| - 1]| - 1]
  {
    var s, last := Join(ss, sep), ss[|ss| - 1];
    JoinEndsWithLast(ss, sep);
    assert s[|s| - 1] == s[|s| - |last|..][|last| - 1];
    if |ss| >= 2 {
      assert s == ss[0] + sep + Join(ss[1..], sep);
    }
  }

  /** A string without a character does not include it. */
  lemma CharNotIncluded(s: string, c: char)
    requires c !in s
    ensures !Includes(s, [c])
  {
    forall i: nat | i <= |s| ensures !OccursAt(s, [c], i) {
      if i + 1 <= |s| {
        assert s[i..i + 1][0] == s[i];
      }
    }
  }

  /** A split into more than one piece found the separator. */
  lemma SplitOnFound(s: string, sep: string)
    requires |sep| > 0 && |SplitOn(s, sep)| > 1
    ensures Includes(s, sep)
  {
    if !Includes(s, sep) {
      SplitOnWithout(s, sep);
    }
  }

  /** What the first piece of a split includes, the whole string includes. */
  lemma SplitOnFirstIncludes(s: string, sep: string, sub: string)
    requires |sep| > 0 && Includes(SplitOn(s, sep)[0], sub)
    ensures Includes(s, sub)
  {
    var a := SplitOn(s, sep)[0];
    var i: nat :| i <= |a| && OccursAt(a, sub, i);
    match IndexOfFrom(s, sep, 0) {
      case None =>
        assert a == s;
      case Some(j) =>
        assert a == s[..j];
        assert s[i..i + |sub|] == a[i..i + |sub|];
    }
    assert OccursAt(s, sub, i);
  }

  /** Trimming only removes characters. */
  lemma TrimChars(s: string)
    ensures forall c :: c in Trim(s) ==> c in s
  {
    var t := TrimStart(s);
    var r := TrimEnd(t);
    TrimStartSpec(s);
    TrimEndSpec(t);
    var k := |s| - |t|;
    assert Trim(s) == r;
    forall c | c in r ensures c in s {
      var j :| 0 <= j < |r| && r[j] == c;
      assert t[j] == c;
      assert s[k + j] == c;
    }
  }

  /** What the trimmed string includes, the string includes. */
  lemma TrimIncludes(s: string, sub: string)
    requires Includes(Trim(s), sub)
    ensures Includes(s, sub)
  {
    var t := TrimStart(s);
    var r := TrimEnd(t);
    TrimStartSpec(s);
    TrimEndSpec(t);
    var k := |s| - |t|;
    assert Trim(s) == r;
    var i: nat :| i <= |r| && OccursAt(r, sub, i);
    forall j | 0 <= j < |sub| ensures s[k + i + j] == sub[j] {
      assert r[i..i + |sub|][j] == sub[j];
      assert t[i + j] == r[i + j];
    }
    assert s[k + i..k + i + |sub|] == sub;
    assert OccursAt(s, sub, k + i);
  }

  function AsciiLowerChar(c: char): char {
    if 'A' <= c <= 'Z' then (c as int + 32) as char else c
  }

  /** `s.toLowerCase()` restricted to ASCII letters. */
  function AsciiLower(s: string): (r: string)
    ensures |r| == |s| && forall i :: 0 <= i < |s| ==> r[i] == AsciiLowerChar(s[i])
  {
    seq(|s|, i requires 0 <= i < |s| => AsciiLowerChar(s[i]))
  }

  function DigitChar(d: nat): char
    requires d < 10
  {
    ('0' as int + d) as char
  }

  predicate IsDigit(c: char) {
    '0' <= c <= '9'
  }

  /** The decimal text of `n`, as `${n}` renders it. */
  function NatToString(n: nat): (r: string)
    ensures |r| > 0 && forall i :: 0 <= i < |r| ==> IsDigit(r[i])
  {
    if n < 10 then [DigitChar(n)] else NatToString(n / 10) + [DigitChar(n % 10)]
  }

  /** The value of a string of decimal digits. */
  function DigitsValue(s: string): nat
    requires forall i :: 0 <= i < |s| ==> IsDigit(s[i])
  {
    if s == [] then 0
    else
      assert IsDigit(s[|s| - 1]);
      10 * DigitsValue(s[..|s| - 1]) + (s[|s| - 1] as int - '0' as int)
  }

  /** Reading back the decimal text of `n` gives `n`. */
  lemma {:induction false} NatToStringRoundTrip(n: nat)
    ensures DigitsValue(NatToString(n)) == n
  {
    if n >= 10 {
      NatToStringRoundTrip(n / 10);
      var s := NatToString(n);
      assert s[..|s| - 1] == NatToString(n / 10);
    }
  }

  /** Different numbers have different decimal texts. */
  lemma NatToStringInjective(a: nat, b: nat)
    requires NatToString(a) == NatToString(b)
    ensures a == b
  {
    NatToStringRoundTrip(a);
    NatToStringRoundTrip(b);
  }

}
