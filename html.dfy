/**
 * The template parser: it turns a markup tree into a forest of template
 * nodes with their view bindings (src/compiler/template-parser/html/html.ts).
 *
 * Everything is plain string work over the attribute keys, attribute values
 * and text contents the markup parser reports. Each exception the parser can
 * throw is an `Err` of the result.
 */
module Html {

  import opened Wrappers
  import opened JsStrings
  import opened RegexSplit
  import opened ViewModel

  // ---------------------------------------------------------------------------
  // Escaping text for a single-quoted string literal

  /** `s.replace(/c/g, rep)`. */
  function ReplaceAll(s: string, c: char, rep: string): (r: string)
    ensures c !in rep ==> c !in r
    ensures c !in s ==> r == s
  {
    if s == [] then [] else (if s[0] == c then rep else [s[0]]) + ReplaceAll(s[1..], c, rep)
  }

  /** The four replacements of `escape`, applied one after the other. */
  function Escape(s: string): string {
    ReplaceAll(ReplaceAll(ReplaceAll(ReplaceAll(s, '\n', "\\n"), '\'', "\\'"), '"', "\\\""), '`', "\\`")
  }

  /** What one character of the input becomes. */
  function EscapeChar(c: char): string {
    if c == '\n' then "\\n"
    else if c == '\'' || c == '"' || c == '`' then ['\\', c]
    else [c]
  }

  function EscapeEach(s: string): string {
    if s == [] then [] else EscapeChar(s[0]) + EscapeEach(s[1..])
  }

  /** Replacing a character distributes over concatenation. */
  lemma {:induction false} ReplaceAllAppend(a: string, b: string, c: char, rep: string)
    ensures ReplaceAll(a + b, c, rep) == ReplaceAll(a, c, rep) + ReplaceAll(b, c, rep)
    decreases |a|
  {
    if a == [] {
      assert a + b == b;
    } else {
      assert (a + b)[0] == a[0];
      assert (a + b)[1..] == a[1..] + b;
      ReplaceAllAppend(a[1..], b, c, rep);
    }
  }

  /** On one character the chained replacements give that character's escape. */
  lemma EscapeOneChar(c: char)
    ensures Escape([c]) == EscapeChar(c)
  {
    var a1 := ReplaceAll([c], '\n', "\\n");
    assert a1 == if c == '\n' then "\\n" else [c];
    var a2 := ReplaceAll(a1, '\'', "\\'");
    var a3 := ReplaceAll(a2, '"', "\\\"");
    var a4 := ReplaceAll(a3, '`', "\\`");
    if c == '\n' {
      assert a4 == "\\n";
    } else {
      assert a2 == if c == '\'' then "\\'" else [c];
      assert a3 == if c == '"' then "\\\"" else a2;
    }
  }

  /** The chained replacements act character by character: no replacement
      introduces a character a later one rewrites. */
  lemma {:induction false} EscapeIsPerCharacter(s: string)
    ensures Escape(s) == EscapeEach(s)
    decreases |s|
  {
    if s != [] {
      var c, t := s[0], s[1..];
      assert s == [c] + t;
      ReplaceAllAppend([c], t, '\n', "\\n");
      var a1 := ReplaceAll([c], '\n', "\\n");
      var t1 := ReplaceAll(t, '\n', "\\n");
      ReplaceAllAppend(a1, t1, '\'', "\\'");
      var a2 := ReplaceAll(a1, '\'', "\\'");
      var t2 := ReplaceAll(t1, '\'', "\\'");
      ReplaceAllAppend(a2, t2, '"', "\\\"");
      var a3 := ReplaceAll(a2, '"', "\\\"");
      var t3 := ReplaceAll(t2, '"', "\\\"");
      ReplaceAllAppend(a3, t3, '`', "\\`");
      EscapeOneChar(c);
      EscapeIsPerCharacter(t);
    }
  }

  /** No escaped text holds a line break, and every quote in it is preceded by a backslash. */
  predicate QuotesEscaped(r: string) {
    && '\n' !in r
    && forall i :: 0 <= i < |r| && (r[i] == '\'' || r[i] == '"' || r[i] == '`') ==> i > 0 && r[i - 1] == '\\'
  }

  lemma {:induction false} EscapeEachEscapesQuotes(s: string)
    ensures QuotesEscaped(EscapeEach(s))
    decreases |s|
  {
    if s != [] {
      var a, t := EscapeChar(s[0]), EscapeEach(s[1..]);
      EscapeEachEscapesQuotes(s[1..]);
      var r := a + t;
      assert EscapeEach(s) == r;
      forall i | 0 <= i < |r| && (r[i] == '\'' || r[i] == '"' || r[i] == '`')
        ensures i > 0 && r[i - 1] == '\\'
      {
        if i >= |a| {
          assert r[i] == t[i - |a|];
          if i > |a| {
            assert r[i - 1] == t[i - |a| - 1];
          }
        }
      }
    }
  }

  /** The text of a text node can be embedded between single quotes. */
  lemma EscapeEscapesQuotes(s: string)
    ensures QuotesEscaped(Escape(s))
  {
    EscapeIsPerCharacter(s);
    EscapeEachEscapesQuotes(s);
  }

  // ---------------------------------------------------------------------------
  // Delimiters

  datatype Delims = Delims(open: string, close: string)

  const InterpolationDelims := Delims("{{", "}}")
  const PropBindingDelims := Delims("[", "]")
  const ExplicitAttrDelims := Delims("[attr.", "]")
  const MethodBindingDelims := Delims("(", ")")

  predicate IsWrappedIn(d: Delims, s: string) {
    StartsWith(s, d.open) && EndsWith(s, d.close)
  }

  /** `s.slice(open.length, -close.length)`. */
  function StripWrapper(d: Delims, s: string): (r: string)
    requires |d.close| > 0
    ensures IsWrappedIn(d, s) && |d.open| + |d.close| <= |s| ==> d.open + r + d.close == s
    ensures |d.open| + |d.close| <= |s| ==> |r| == |s| - |d.open| - |d.close|
  {
    var r := Slice(s, |d.open|, -(|d.close| as int));
    if IsWrappedIn(d, s) && |d.open| + |d.close| <= |s| then
      assert s == s[..|d.open|] + s[|d.open|..|s| - |d.close|] + s[|s| - |d.close|..];
      r
    else r
  }

  predicate BindingDelims(d: Delims) {
    d == PropBindingDelims || d == ExplicitAttrDelims || d == MethodBindingDelims
  }

  /** For the binding delimiters, a wrapped key is long enough to hold both
      delimiters, so stripping and re-wrapping gives the key back. */
  lemma StripThenWrap(d: Delims, s: string)
    requires BindingDelims(d) && IsWrappedIn(d, s)
    ensures d.open + StripWrapper(d, s) + d.close == s
  {
    var i := if |s| - 1 < |d.open| then |s| - 1 else 0;
    assert s[i] == s[..|d.open|][i] == d.open[i];
    assert s[|s| - 1] == s[|s| - |d.close|..][0] == d.close[0];
  }

  /** Wrapping and stripping gives the text back. */
  lemma WrapThenStrip(d: Delims, x: string)
    requires |d.close| > 0
    ensures IsWrappedIn(d, d.open + x + d.close)
    ensures StripWrapper(d, d.open + x + d.close) == x
  {
    var s := d.open + x + d.close;
    assert s[..|d.open|] == d.open;
    assert s[|s| - |d.close|..] == d.close;
    assert s[|d.open|..|s| - |d.close|] == x;
  }

  // ---------------------------------------------------------------------------
  // Classifying attribute keys

  predicate IsPropertyOrInputBinding(key: string) {
    var isNotWrapped := !IsWrappedIn(PropBindingDelims, key) && !IsWrappedIn(MethodBindingDelims, key);
    '-' !in key
    && (isNotWrapped || (IsWrappedIn(PropBindingDelims, key) && !IsWrappedIn(ExplicitAttrDelims, key)))
  }

  predicate IsEventOrOutputBinding(key: string) {
    IsWrappedIn(MethodBindingDelims, key)
  }

  predicate IsExplicitAttributeBinding(key: string) {
    IsWrappedIn(ExplicitAttrDelims, key)
  }

  predicate IsImplicitAttributeBindingViaDash(key: string) {
    !IsExplicitAttributeBinding(key) && '-' in key
  }

  predicate IsAttributeBinding(key: string) {
    IsExplicitAttributeBinding(key) || IsImplicitAttributeBindingViaDash(key)
  }

  /** The input or prop name: the key without `[`...`]` when it is wrapped. */
  function GetInputName(key: string): (r: string)
    requires IsPropertyOrInputBinding(key)
    ensures IsWrappedIn(PropBindingDelims, key) ==> "[" + r + "]" == key
    ensures !IsWrappedIn(PropBindingDelims, key) ==> r == key
  {
    if IsWrappedIn(PropBindingDelims, key) then
      StripThenWrap(PropBindingDelims, key);
      StripWrapper(PropBindingDelims, key)
    else key
  }

  /** The event or output name: the key without `(`...`)`. */
  function GetOutputName(key: string): (r: string)
    requires IsEventOrOutputBinding(key)
    ensures "(" + r + ")" == key
  {
    StripThenWrap(MethodBindingDelims, key);
    StripWrapper(MethodBindingDelims, key)
  }

  /** The attribute name: `[attr.`...`]` stripped from an explicit key; a dash
      key loses `[`...`]` when wrapped in them and is kept otherwise. */
  function GetAttributeName(key: string): (r: string)
    requires IsAttributeBinding(key)
    ensures IsExplicitAttributeBinding(key) ==> "[attr." + r + "]" == key
    ensures !IsExplicitAttributeBinding(key) && IsWrappedIn(PropBindingDelims, key) ==> "[" + r + "]" == key
    ensures !IsExplicitAttributeBinding(key) && !IsWrappedIn(PropBindingDelims, key) ==> r == key
  {
    if IsExplicitAttributeBinding(key) then
      StripThenWrap(ExplicitAttrDelims, key);
      StripWrapper(ExplicitAttrDelims, key)
    else if IsImplicitAttributeBindingViaDash(key) then
      if IsWrappedIn(PropBindingDelims, key) then
        StripThenWrap(PropBindingDelims, key);
        StripWrapper(PropBindingDelims, key)
      else key
    else key
  }

  lemma ExplicitIsPropWrapped(key: string)
    requires IsExplicitAttributeBinding(key)
    ensures IsWrappedIn(PropBindingDelims, key)
  {
    assert key[..1] == key[..6][..1];
  }

  /** No key is both a prop (or input) and an attribute. */
  lemma PropAndAttributeDisjoint(key: string)
    ensures !(IsPropertyOrInputBinding(key) && IsAttributeBinding(key))
  {
    if IsExplicitAttributeBinding(key) {
      ExplicitIsPropWrapped(key);
    }
  }

  /** No key is both a prop (or input) and an event (or output). */
  lemma PropAndEventDisjoint(key: string)
    ensures !(IsPropertyOrInputBinding(key) && IsEventOrOutputBinding(key))
  {
    if |key| > 0 {
      assert key[0] == key[..1][0];
    }
  }

  /** A key that is not explicit and holds a dash is an attribute, whatever
      wraps it. */
  lemma DashKeyIsAttribute(key: string)
    requires !IsExplicitAttributeBinding(key) && '-' in key
    ensures IsAttributeBinding(key) && !IsPropertyOrInputBinding(key)
  {
  }

  /** A key is both an event and an attribute exactly when it is wrapped in
      parentheses and holds a dash. */
  lemma EventAndAttributeOverlap(key: string)
    ensures IsEventOrOutputBinding(key) && IsAttributeBinding(key)
        <==> IsWrappedIn(MethodBindingDelims, key) && '-' in key
  {
    if |key| >= 6 {
      assert key[0] == key[..1][0] == key[..6][0];
    }
  }

  /** Every key falls in at least one class. */
  lemma ClassesCoverEveryKey(key: string)
    ensures IsPropertyOrInputBinding(key) || IsAttributeBinding(key) || IsEventOrOutputBinding(key)
  {
  }

  // ---------------------------------------------------------------------------
  // Tags

  /** `tagName.toLowerCase().startsWith('w:')`. */
  predicate IsDirective(tagName: string) {
    StartsWith(AsciiLower(tagName), "w:")
  }

  /** A directive tag starts with `w:` in either case of the letter. */
  lemma IsDirectiveIff(tagName: string)
    ensures IsDirective(tagName) <==> |tagName| >= 2 && (tagName[0] == 'w' || tagName[0] == 'W') && tagName[1] == ':'
  {
    if |tagName| >= 2 {
      assert AsciiLower(tagName)[..2] == [AsciiLowerChar(tagName[0]), AsciiLowerChar(tagName[1])];
    }
  }

  predicate IsComponent(tagName: string) {
    '-' in tagName
  }

  // ---------------------------------------------------------------------------
  // Literals and property paths

  /** A special value, a string literal or a number; anything else names
      something of the component class. */
  predicate IsLiteral(s: string) {
    || s == "null" || s == "undefined" || s == "true" || s == "false"
    || StartsWith(s, "'") || StartsWith(s, "\"")
    || (|s| > 0 && IsDigit(s[0])) || StartsWith(s, ".")
  }

  /** The literal test only looks at the special words and the first character. */
  lemma IsLiteralIff(s: string)
    ensures IsLiteral(s) <==>
      || s in {"null", "undefined", "true", "false"}
      || (|s| > 0 && (s[0] == '\'' || s[0] == '"' || s[0] == '.' || ('0' <= s[0] <= '9')))
  {
    if |s| > 0 {
      assert s[..1] == [s[0]];
    }
  }

  /** A template literal is not recognised as a literal. */
  lemma BacktickIsNotLiteral(s: string)
    requires |s| > 0 && s[0] == '`'
    ensures !IsLiteral(s)
  {
    IsLiteralIff(s);
  }

  /** A literal is kept verbatim as a constant; any other text is a property access path. */
  function ResolveBinding(s: string): (r: BoundValue)
    ensures r.Constant? || r.PropertyAccess?
    ensures r.Constant? <==> IsLiteral(s)
    ensures r == Constant(s) || r == PropertyAccess(s)
  {
    if IsLiteral(s) then Constant(s) else PropertyAccess(s)
  }

  /** A character `[a-zA-Z.]` accepts. */
  predicate PathChar(c: char) {
    ('a' <= c <= 'z') || ('A' <= c <= 'Z') || c == '.'
  }

  predicate IsPathText(s: string) {
    forall i :: 0 <= i < |s| ==> PathChar(s[i])
  }

  /** `/^!?[a-zA-Z.]*$/.test(s)`, or `/^[a-zA-Z.]*$/.test(s)` when negation is disallowed. */
  predicate IsJustPropertyAccess(s: string, disallowNegation: bool) {
    IsPathText(s) || (!disallowNegation && |s| > 0 && s[0] == '!' && IsPathText(s[1..]))
  }

  /** Text holding a space is never a property path. */
  lemma SpaceIsNotPropertyAccess(s: string, i: nat, disallowNegation: bool)
    requires i < |s| && s[i] == ' '
    ensures !IsJustPropertyAccess(s, disallowNegation)
  {
    if i > 0 {
      assert s[1..][i - 1] == ' ';
    }
  }

  // ---------------------------------------------------------------------------
  // Method invocations of event and output bindings

  const InvalidMethodInvocation := "Invalid method invocation."

  /** A method argument: `#` stands for the emitted value. */
  function ArgumentValue(arg: string): BoundValue {
    if arg == "#" then Placeholder else ResolveBinding(arg)
  }

  function ArgumentValues(args: seq<string>): (r: seq<BoundValue>)
    ensures |r| == |args| && forall i :: 0 <= i < |args| ==> r[i] == ArgumentValue(args[i])
  {
    seq(|args|, i requires 0 <= i < |args| => ArgumentValue(args[i]))
  }

  /** `str.trim().split(FUNCTION_CALL_REGEX).slice(0, -1)`. */
  function CallChunks(str: string): (r: seq<string>)
    ensures |r| == 0 || |r| >= 2
  {
    var chunks := Split(FunctionCall, Trim(str));
    SplitLength(FunctionCall, Trim(str));
    chunks[..|chunks| - 1]
  }

  /** The comma-separated, trimmed pieces of an argument list. */
  function ArgumentPieces(group: string): seq<string> {
    TrimAll(SplitOn(group, ","))
  }

  predicate HasEmptyPiece(pieces: seq<string>) {
    exists i :: 0 <= i < |pieces| && pieces[i] == ""
  }

  /** The method call a handler text denotes: the name before the first
      parenthesised group and the arguments inside it. */
  function MethodCallValue(str: string, position: Position): (r: Result<BoundValue, Error>)
  {
    var chunks := CallChunks(str);
    if |chunks| == 0 then Err(ParseError(position, InvalidMethodInvocation))
    else if Trim(chunks[1]) == "" then Ok(MethodCall(chunks[0], []))
    else
      var pieces := ArgumentPieces(chunks[1]);
      if HasEmptyPiece(pieces) then Err(ParseError(position, InvalidMethodInvocation))
      else Ok(MethodCall(chunks[0], ArgumentValues(pieces)))
  }

  /** The argument loop of `parseMethodCall`: it pushes the pieces in order
      and stops at the first empty one. */
  method CollectArguments(pieces: seq<string>) returns (args: Option<seq<string>>)
    ensures args.Some? <==> !HasEmptyPiece(pieces)
    ensures args.Some? ==> args.value == pieces
  {
    var collected: seq<string> := [];
    for i := 0 to |pieces|
      invariant collected == pieces[..i]
      invariant forall j :: 0 <= j < i ==> pieces[j] != ""
    {
      if pieces[i] == "" {
        return None;
      }
      collected := collected + [pieces[i]];
    }
    assert collected == pieces;
    return Some(collected);
  }

  /** `parseMethodCall`. */
  method ParseMethodCall(str: string, position: Position) returns (r: Result<BoundValue, Error>)
    ensures r == MethodCallValue(str, position)
  {
    var chunks := CallChunks(str);
    if |chunks| == 0 {
      return Err(ParseError(position, InvalidMethodInvocation));
    }
    var name := chunks[0];
    if Trim(chunks[1]) == "" {
      return Ok(MethodCall(name, []));
    }
    var args := CollectArguments(ArgumentPieces(chunks[1]));
    if args.None? {
      return Err(ParseError(position, InvalidMethodInvocation));
    }
    return Ok(MethodCall(name, ArgumentValues(args.value)));
  }

  /** A handler text without a closing parenthesis is not a method call. */
  lemma MethodCallNeedsGroup(str: string, position: Position)
    requires ')' !in str
    ensures MethodCallValue(str, position) == Err(ParseError(position, InvalidMethodInvocation))
  {
    TrimChars(str);
    SplitWithoutCloseParen(Trim(str));
  }

  /** Joining parenthesis-free arguments with commas adds no parenthesis. */
  lemma JoinIsFree(args: seq<string>)
    requires forall k :: 0 <= k < |args| ==> Free(FunctionCall, args[k])
    ensures Free(FunctionCall, Join(args, ","))
  {
    var body := Join(args, ",");
    JoinChars(args, ",");
    forall i | 0 <= i < |body| ensures !Stops(FunctionCall, body[i]) {
      var c := body[i];
      assert c in body;
      if c != ',' {
        var k :| 0 <= k < |args| && c in args[k];
        var j :| 0 <= j < |args[k]| && args[k][j] == c;
        assert !Stops(FunctionCall, args[k][j]);
      }
    }
  }

  /** A call text that starts with its name is already trimmed. */
  lemma CallTextIsTrimmed(name: string, body: string)
    requires name == [] || !IsWhitespace(name[0])
    ensures Trim(name + ("(" + body + ")")) == name + ("(" + body + ")")
  {
    var str := name + ("(" + body + ")");
    assert str[0] == if name == [] then '(' else name[0];
    assert str[|str| - 1] == ')';
    TrimOfTrimmed(str);
  }

  /** Comma-free pieces split back out of their join. */
  lemma SplitOnCommaJoin(args: seq<string>)
    requires |args| > 0 && forall k :: 0 <= k < |args| ==> ',' !in args[k]
    ensures SplitOn(Join(args, ","), ",") == args
  {
    forall k | 0 <= k < |args|
      ensures !Includes(args[k], ",") && !Includes(args[k] + ","[..0], ",")
    {
      CharNotIncluded(args[k], ',');
      assert args[k] + ","[..0] == args[k];
    }
    SplitOnJoin(args, ",");
  }

  /** The call chunks of `name(body)`: the name, then the trimmed body. */
  lemma CallChunksOfCall(name: string, body: string)
    requires Free(FunctionCall, name) && (name == [] || !IsWhitespace(name[0]))
    requires Free(FunctionCall, body)
    ensures var chunks := CallChunks(name + ("(" + body + ")"));
      |chunks| >= 2 && chunks[0] == name && chunks[1] == Trim(body)
  {
    var str := name + ("(" + body + ")");
    CallSplitOfCall(str, name, body);
    CallChunksOfTrimmed(str, name, Trim(body));
  }

  /** The split of the trimmed call text `name(body)`. */
  lemma CallSplitOfCall(str: string, name: string, body: string)
    requires str == name + ("(" + body + ")")
    requires Free(FunctionCall, name) && (name == [] || !IsWhitespace(name[0]))
    requires Free(FunctionCall, body)
    ensures |Split(FunctionCall, Trim(str))| >= 3
    ensures Split(FunctionCall, Trim(str))[0] == name
    ensures Split(FunctionCall, Trim(str))[1] == Trim(body)
  {
    assert str == str + "";
    SplitCallGroup(str, name, body, "");
    CallTextIsTrimmed(name, body);
  }

  /** The chunks of a trimmed handler text are its split less the last piece. */
  lemma CallChunksOfTrimmed(str: string, name: string, group: string)
    requires |Split(FunctionCall, Trim(str))| >= 3
    requires Split(FunctionCall, Trim(str))[0] == name && Split(FunctionCall, Trim(str))[1] == group
    ensures |CallChunks(str)| >= 2 && CallChunks(str)[0] == name && CallChunks(str)[1] == group
  {
    var sp := Split(FunctionCall, Trim(str));
    assert CallChunks(str) == sp[..|sp| - 1];
  }

  /** The call chunks of `str` are `name` and the argument text, which is
      already trimmed and splits on commas into `args`. */
  predicate CallShape(str: string, name: string, args: seq<string>) {
    var chunks, body := CallChunks(str), Join(args, ",");
    && |chunks| >= 2 && chunks[0] == name && chunks[1] == body
    && body != "" && Trim(body) == body && SplitOn(body, ",") == args
  }

  /** The call chunks of `name(a1,...,an)`: the name, then the argument text,
      which splits on commas back into the arguments. */
  lemma CallChunksOfJoin(name: string, args: seq<string>)
    requires Free(FunctionCall, name) && (name == [] || !IsWhitespace(name[0]))
    requires |args| > 0 && args[0] != "" && Trim(args[0]) == args[0]
    requires args[|args| - 1] != "" && Trim(args[|args| - 1]) == args[|args| - 1]
    requires forall k :: 0 <= k < |args| ==> ',' !in args[k] && Free(FunctionCall, args[k])
    ensures CallShape(name + ("(" + Join(args, ",") + ")"), name, args)
  {
    ArgumentText(args);
    SplitOnCommaJoin(args);
    CallChunksOfCall(name, Join(args, ","));
  }

  /** The comma join of trimmed, comma- and parenthesis-free arguments. */
  lemma ArgumentText(args: seq<string>)
    requires |args| > 0 && args[0] != "" && Trim(args[0]) == args[0]
    requires args[|args| - 1] != "" && Trim(args[|args| - 1]) == args[|args| - 1]
    requires forall k :: 0 <= k < |args| ==> Free(FunctionCall, args[k])
    ensures var body := Join(args, ",");
      Free(FunctionCall, body) && body != "" && Trim(body) == body
  {
    var body := Join(args, ",");
    JoinIsFree(args);
    JoinEdges(args, ",");
    TrimOfTrimmed(body);
  }

  /** `name(a1,...,an)` with trimmed, non-empty arguments calls `name` with
      those arguments in order. */
  lemma MethodCallOfArguments(name: string, args: seq<string>, position: Position)
    requires Free(FunctionCall, name) && (name == [] || !IsWhitespace(name[0]))
    requires |args| > 0
    requires forall k :: 0 <= k < |args| ==>
      args[k] != "" && Trim(args[k]) == args[k] && ',' !in args[k] && Free(FunctionCall, args[k])
    ensures MethodCallValue(name + ("(" + Join(args, ",") + ")"), position) == Ok(MethodCall(name, ArgumentValues(args)))
  {
    CallChunksOfJoin(name, args);
    CallOfChunks(name + ("(" + Join(args, ",") + ")"), name, args, position);
  }

  /** A handler text whose chunks are a name and a join of trimmed, non-empty
      arguments calls that name with those arguments. */
  lemma CallOfChunks(str: string, name: string, args: seq<string>, position: Position)
    requires |args| > 0
    requires forall k :: 0 <= k < |args| ==>
      args[k] != "" && Trim(args[k]) == args[k] && ',' !in args[k] && Free(FunctionCall, args[k])
    requires CallShape(str, name, args)
    ensures MethodCallValue(str, position) == Ok(MethodCall(name, ArgumentValues(args)))
  {
    TrimAllOfTrimmed(args);
    MethodCallOfChunks(str, position);
  }

  lemma TrimAllOfTrimmed(ss: seq<string>)
    requires forall k :: 0 <= k < |ss| ==> Trim(ss[k]) == ss[k]
    ensures TrimAll(ss) == ss
  {
  }

  /** A handler text whose argument text has no empty piece is a call. */
  lemma MethodCallOfChunks(str: string, position: Position)
    requires var chunks := CallChunks(str);
      |chunks| >= 2 && Trim(chunks[1]) != "" && !HasEmptyPiece(ArgumentPieces(chunks[1]))
    ensures var chunks := CallChunks(str);
      MethodCallValue(str, position) == Ok(MethodCall(chunks[0], ArgumentValues(ArgumentPieces(chunks[1]))))
  {
  }

  /** An empty argument between two others makes the call invalid. */
  lemma MethodCallWithEmptyArgument(name: string, args: seq<string>, k: nat, position: Position)
    requires Free(FunctionCall, name) && (name == [] || !IsWhitespace(name[0]))
    requires |args| > 0 && args[0] != "" && Trim(args[0]) == args[0]
    requires args[|args| - 1] != "" && Trim(args[|args| - 1]) == args[|args| - 1]
    requires forall j :: 0 <= j < |args| ==> ',' !in args[j] && Free(FunctionCall, args[j])
    requires k < |args| && Trim(args[k]) == ""
    ensures MethodCallValue(name + ("(" + Join(args, ",") + ")"), position) == Err(ParseError(position, InvalidMethodInvocation))
  {
    CallChunksOfJoin(name, args);
    assert TrimAll(args)[k] == "";
  }

  /** `name()`, with only white space between the parentheses, calls `name`
      with no arguments. */
  lemma MethodCallWithoutArguments(name: string, body: string, position: Position)
    requires Free(FunctionCall, name) && (name == [] || !IsWhitespace(name[0]))
    requires Free(FunctionCall, body) && AllWhitespace(body)
    ensures MethodCallValue(name + ("(" + body + ")"), position) == Ok(MethodCall(name, []))
  {
    CallChunksOfCall(name, body);
    TrimEmptyIffWhitespace(body);
  }

  // ---------------------------------------------------------------------------
  // Bindings of an element or component

  /** Which of the five collectors is at work. */
  datatype Role = AttributeRole | ElementPropRole | ElementEventRole | ComponentInputRole | ComponentOutputRole

  /** The attributes a collector takes; it skips all others. */
  predicate Selects(role: Role, key: string) {
    match role
    case AttributeRole => IsAttributeBinding(key)
    case ElementPropRole => IsPropertyOrInputBinding(key)
    case ComponentInputRole => IsPropertyOrInputBinding(key)
    case ElementEventRole => IsEventOrOutputBinding(key)
    case ComponentOutputRole => IsEventOrOutputBinding(key)
  }

  /** The value of an attribute binding: `''` without a value, the raw value for
      a bracketed key, the value between single quotes otherwise. */
  function AttributeValue(a: Attribute): BoundValue {
    match a.value
    case None => Constant("''")
    case Some(v) => if IsWrappedIn(PropBindingDelims, a.key) then Constant(v) else Constant("'" + v + "'")
  }

  /** The value of an element prop: bracketed keys resolve their value, plain
      keys quote it. */
  function PropValue(key: string, v: string): BoundValue {
    if IsWrappedIn(PropBindingDelims, key) then ResolveBinding(v) else Constant("'" + v + "'")
  }

  /** The binding one selected attribute gives, or the error it raises. */
  function BindingOf(role: Role, a: Attribute, position: Position): (r: Result<ViewBinding, Error>)
    requires Selects(role, a.key)
  {
    match role
    case AttributeRole => Ok(AttributeBinding(GetAttributeName(a.key), AttributeValue(a)))
    case ElementPropRole =>
      if a.value.None? then Err(ParseError(position, "A prop bound to an HTML element must have a value."))
      else Ok(HtmlElementPropBinding(GetInputName(a.key), PropValue(a.key, a.value.value)))
    case ElementEventRole =>
      if a.value.None? then Err(ParseError(position, "An event bound to an HTML element must have a value."))
      else
        var m :- MethodCallValue(a.value.value, position);
        Ok(HtmlElementEventBinding(GetOutputName(a.key), m))
    case ComponentInputRole =>
      if a.value.None? then Err(ParseError(position, "An input bound to a Wane component must have a value."))
      else Ok(ComponentInputBinding(GetInputName(a.key), ResolveBinding(a.value.value)))
    case ComponentOutputRole =>
      if a.value.None? then Err(ParseError(position, "An output bound to a Wane component must have a value."))
      else
        var m :- MethodCallValue(a.value.value, position);
        Ok(ComponentOutputBinding(GetOutputName(a.key), m))
  }

  /** The attributes a collector takes, in order. */
  function Selected(role: Role, attrs: seq<Attribute>): (r: seq<Attribute>)
    ensures forall k :: 0 <= k < |r| ==> Selects(role, r[k].key)
    decreases |attrs|
  {
    if attrs == [] then []
    else (if Selects(role, attrs[0].key) then [attrs[0]] else []) + Selected(role, attrs[1..])
  }

  /** The bindings of the selected attributes, in order; the first error stops the collection. */
  function Bindings(role: Role, attrs: seq<Attribute>, position: Position): Result<seq<ViewBinding>, Error>
    decreases |attrs|
  {
    if attrs == [] then Ok([])
    else if !Selects(role, attrs[0].key) then Bindings(role, attrs[1..], position)
    else
      var b :- BindingOf(role, attrs[0], position);
      var rest :- Bindings(role, attrs[1..], position);
      Ok([b] + rest)
  }

  function Prepend(acc: seq<ViewBinding>, r: Result<seq<ViewBinding>, Error>): Result<seq<ViewBinding>, Error> {
    if r.Ok? then Ok(acc + r.value) else r
  }

  lemma PrependNil(r: Result<seq<ViewBinding>, Error>)
    ensures Prepend([], r) == r
  {
    if r.Ok? {
      assert [] + r.value == r.value;
    }
  }

  lemma PrependStep(acc: seq<ViewBinding>, b: ViewBinding, r: Result<seq<ViewBinding>, Error>)
    ensures Prepend(acc, if r.Ok? then Ok([b] + r.value) else r) == Prepend(acc + [b], r)
  {
    if r.Ok? {
      assert acc + ([b] + r.value) == acc + [b] + r.value;
    }
  }

  /** The `for...of` loop shared by the five collectors: skip what the role
      does not take, throw on the first failing attribute, add the rest. */
  method CollectBindings(role: Role, attrs: seq<Attribute>, position: Position)
    returns (r: Result<seq<ViewBinding>, Error>)
    ensures r == Bindings(role, attrs, position)
  {
    var result: seq<ViewBinding> := [];
    assert attrs[0..] == attrs;
    PrependNil(Bindings(role, attrs, position));
    for i := 0 to |attrs|
      invariant Bindings(role, attrs, position) == Prepend(result, Bindings(role, attrs[i..], position))
    {
      assert attrs[i..][0] == attrs[i] && attrs[i..][1..] == attrs[i + 1..];
      var a := attrs[i];
      if !Selects(role, a.key) {
        continue;
      }
      var b := BindingOf(role, a, position);
      if b.Err? {
        return Err(b.error);
      }
      PrependStep(result, b.value, Bindings(role, attrs[i + 1..], position));
      result := result + [b.value];
    }
    assert attrs[|attrs|..] == [];
    assert result + [] == result;
    return Ok(result);
  }

  /** The bindings of attributes that are all selected, in order. */
  function MapBindings(role: Role, sel: seq<Attribute>, position: Position): Result<seq<ViewBinding>, Error>
    requires forall k :: 0 <= k < |sel| ==> Selects(role, sel[k].key)
    decreases |sel|
  {
    if sel == [] then Ok([])
    else
      var b :- BindingOf(role, sel[0], position);
      var rest :- MapBindings(role, sel[1..], position);
      Ok([b] + rest)
  }

  /** Collecting is mapping over the selected attributes. */
  lemma {:induction false} BindingsAreMapOfSelected(role: Role, attrs: seq<Attribute>, position: Position)
    ensures Bindings(role, attrs, position) == MapBindings(role, Selected(role, attrs), position)
    decreases |attrs|
  {
    if attrs != [] {
      var tail := Selected(role, attrs[1..]);
      BindingsAreMapOfSelected(role, attrs[1..], position);
      if Selects(role, attrs[0].key) {
        var sel := [attrs[0]] + tail;
        assert Selected(role, attrs) == sel;
        assert sel[0] == attrs[0] && sel[1..] == tail;
      } else {
        assert Selected(role, attrs) == tail;
      }
    }
  }

  /** The mapping succeeds exactly when every attribute gives a binding, and
      then holds those bindings in order. */
  lemma {:induction false} MapBindingsOk(role: Role, sel: seq<Attribute>, position: Position)
    requires forall k :: 0 <= k < |sel| ==> Selects(role, sel[k].key)
    ensures var r := MapBindings(role, sel, position);
      && (r.Ok? <==> forall k :: 0 <= k < |sel| ==> BindingOf(role, sel[k], position).Ok?)
      && (r.Ok? ==> |r.value| == |sel|
                    && forall k :: 0 <= k < |sel| ==> r.value[k] == BindingOf(role, sel[k], position).value)
    decreases |sel|
  {
    if sel != [] {
      MapBindingsOk(role, sel[1..], position);
      var r := MapBindings(role, sel, position);
      forall k | 1 <= k < |sel| ensures sel[k] == sel[1..][k - 1] { }
      if r.Ok? {
        var rest := MapBindings(role, sel[1..], position);
        assert r.value == [BindingOf(role, sel[0], position).value] + rest.value;
      }
    }
  }

  /** A failing mapping fails with the error of its first failing attribute. */
  lemma {:induction false} MapBindingsErr(role: Role, sel: seq<Attribute>, position: Position)
    requires forall k :: 0 <= k < |sel| ==> Selects(role, sel[k].key)
    requires MapBindings(role, sel, position).Err?
    ensures exists k :: 0 <= k < |sel| && BindingOf(role, sel[k], position) == Err(MapBindings(role, sel, position).error)
                       && forall j :: 0 <= j < k ==> BindingOf(role, sel[j], position).Ok?
    decreases |sel|
  {
    var b := BindingOf(role, sel[0], position);
    if b.Ok? {
      MapBindingsErr(role, sel[1..], position);
      var k :| 0 <= k < |sel| - 1 && BindingOf(role, sel[1..][k], position) == Err(MapBindings(role, sel[1..], position).error)
               && forall j :: 0 <= j < k ==> BindingOf(role, sel[1..][j], position).Ok?;
      assert sel[k + 1] == sel[1..][k];
      forall j | 0 <= j < k + 1 ensures BindingOf(role, sel[j], position).Ok? {
        if j > 0 {
          assert sel[j] == sel[1..][j - 1];
        }
      }
    }
  }

  /** The collection succeeds exactly when every selected attribute gives a
      binding, and then holds those bindings in attribute order; otherwise it
      fails with the error of the first failing selected attribute. */
  lemma BindingsSpec(role: Role, attrs: seq<Attribute>, position: Position)
    ensures var r, sel := Bindings(role, attrs, position), Selected(role, attrs);
      && (r.Ok? <==> forall k :: 0 <= k < |sel| ==> BindingOf(role, sel[k], position).Ok?)
      && (r.Ok? ==> |r.value| == |sel|
                    && forall k :: 0 <= k < |sel| ==> r.value[k] == BindingOf(role, sel[k], position).value)
      && (r.Err? ==> exists k :: 0 <= k < |sel| && BindingOf(role, sel[k], position) == Err(r.error)
                       && forall j :: 0 <= j < k ==> BindingOf(role, sel[j], position).Ok?)
  {
    var sel := Selected(role, attrs);
    BindingsAreMapOfSelected(role, attrs, position);
    MapBindingsOk(role, sel, position);
    if MapBindings(role, sel, position).Err? {
      MapBindingsErr(role, sel, position);
    }
  }

  /** The binding a handler collector makes of a method-call value. */
  function HandlerBinding(role: Role, name: string, m: BoundValue): ViewBinding {
    if role.ElementEventRole? then HtmlElementEventBinding(name, m) else ComponentOutputBinding(name, m)
  }

  /** The two handler collectors fail exactly on a missing value or a handler
      that is not a method call. */
  lemma HandlerBindingsSpec(role: Role, attrs: seq<Attribute>, position: Position)
    requires role.ElementEventRole? || role.ComponentOutputRole?
    ensures var r, sel := Bindings(role, attrs, position), Selected(role, attrs);
      r.Err? <==> (exists k :: 0 <= k < |sel| &&
                     (sel[k].value.None? || MethodCallValue(sel[k].value.value, position).Err?))
    ensures var r, sel := Bindings(role, attrs, position), Selected(role, attrs);
      r.Ok? ==> |r.value| == |sel| && forall k :: 0 <= k < |sel| ==>
        sel[k].value.Some? && MethodCallValue(sel[k].value.value, position).Ok? &&
        r.value[k] == HandlerBinding(role, GetOutputName(sel[k].key), MethodCallValue(sel[k].value.value, position).value)
  {
    BindingsSpec(role, attrs, position);
    var sel := Selected(role, attrs);
    forall k | 0 <= k < |sel|
      ensures BindingOf(role, sel[k], position).Ok? <==>
              sel[k].value.Some? && MethodCallValue(sel[k].value.value, position).Ok?
      ensures sel[k].value.Some? && MethodCallValue(sel[k].value.value, position).Ok? ==>
              BindingOf(role, sel[k], position).value ==
              HandlerBinding(role, GetOutputName(sel[k].key), MethodCallValue(sel[k].value.value, position).value)
    {
      HandlerBindingOf(role, sel[k], position);
    }
  }

  lemma HandlerBindingOf(role: Role, a: Attribute, position: Position)
    requires role.ElementEventRole? || role.ComponentOutputRole?
    requires Selects(role, a.key)
    ensures BindingOf(role, a, position).Ok? <==>
            a.value.Some? && MethodCallValue(a.value.value, position).Ok?
    ensures a.value.Some? && MethodCallValue(a.value.value, position).Ok? ==>
            BindingOf(role, a, position).value ==
            HandlerBinding(role, GetOutputName(a.key), MethodCallValue(a.value.value, position).value)
  {
    if a.value.Some? {
      var m := MethodCallValue(a.value.value, position);
      var b := BindingOf(role, a, position);
      if role.ElementEventRole? {
        assert b == if m.Err? then Err(m.error) else Ok(HtmlElementEventBinding(GetOutputName(a.key), m.value));
      } else {
        assert b == if m.Err? then Err(m.error) else Ok(ComponentOutputBinding(GetOutputName(a.key), m.value));
      }
    }
  }

  // ---------------------------------------------------------------------------
  // The five collectors

  /** `getElementOrComponentAttributes`: one attribute binding per attribute
      key, in order; it never fails. */
  function ElementOrComponentAttributes(attrs: seq<Attribute>, position: Position): (r: seq<ViewBinding>)
    ensures Bindings(AttributeRole, attrs, position) == Ok(r)
  {
    BindingsSpec(AttributeRole, attrs, position);
    Bindings(AttributeRole, attrs, position).value
  }

  lemma ElementOrComponentAttributesSpec(attrs: seq<Attribute>, position: Position)
    ensures var r, sel := ElementOrComponentAttributes(attrs, position), Selected(AttributeRole, attrs);
      |r| == |sel| && forall k :: 0 <= k < |sel| ==>
        r[k] == AttributeBinding(GetAttributeName(sel[k].key), AttributeValue(sel[k]))
  {
    BindingsSpec(AttributeRole, attrs, position);
  }

  /** `getElementProps`. */
  function ElementProps(attrs: seq<Attribute>, position: Position): Result<seq<ViewBinding>, Error> {
    Bindings(ElementPropRole, attrs, position)
  }

  /** `getElementProps` fails exactly when a prop key has no value. */
  lemma ElementPropsSpec(attrs: seq<Attribute>, position: Position)
    ensures var r, sel := ElementProps(attrs, position), Selected(ElementPropRole, attrs);
      && (r.Err? <==> exists k :: 0 <= k < |sel| && sel[k].value.None?)
      && (r.Err? ==> r.error == ParseError(position, "A prop bound to an HTML element must have a value."))
      && (r.Ok? ==> |r.value| == |sel| && forall k :: 0 <= k < |sel| ==>
            r.value[k] == HtmlElementPropBinding(GetInputName(sel[k].key), PropValue(sel[k].key, sel[k].value.value)))
  {
    BindingsSpec(ElementPropRole, attrs, position);
  }

  /** `getComponentInputs`. */
  function ComponentInputs(attrs: seq<Attribute>, position: Position): Result<seq<ViewBinding>, Error> {
    Bindings(ComponentInputRole, attrs, position)
  }

  /** `getComponentInputs` fails exactly when an input key has no value;
      every value is resolved. */
  lemma ComponentInputsSpec(attrs: seq<Attribute>, position: Position)
    ensures var r, sel := ComponentInputs(attrs, position), Selected(ComponentInputRole, attrs);
      && (r.Err? <==> exists k :: 0 <= k < |sel| && sel[k].value.None?)
      && (r.Err? ==> r.error == ParseError(position, "An input bound to a Wane component must have a value."))
      && (r.Ok? ==> |r.value| == |sel| && forall k :: 0 <= k < |sel| ==>
            r.value[k] == ComponentInputBinding(GetInputName(sel[k].key), ResolveBinding(sel[k].value.value)))
  {
    BindingsSpec(ComponentInputRole, attrs, position);
  }

  /** `getElementEvents`. */
  function ElementEvents(attrs: seq<Attribute>, position: Position): Result<seq<ViewBinding>, Error> {
    Bindings(ElementEventRole, attrs, position)
  }

  /** `getElementEvents` fails when an event key has no value or its handler
      is not a method call. */
  lemma ElementEventsSpec(attrs: seq<Attribute>, position: Position)
    ensures var r, sel := ElementEvents(attrs, position), Selected(ElementEventRole, attrs);
      r.Err? <==> (exists k :: 0 <= k < |sel| &&
                     (sel[k].value.None? || MethodCallValue(sel[k].value.value, position).Err?))
    ensures var r, sel := ElementEvents(attrs, position), Selected(ElementEventRole, attrs);
      r.Ok? ==> |r.value| == |sel| && forall k :: 0 <= k < |sel| ==>
        sel[k].value.Some? && MethodCallValue(sel[k].value.value, position).Ok? &&
        r.value[k] == HtmlElementEventBinding(GetOutputName(sel[k].key), MethodCallValue(sel[k].value.value, position).value)
  {
    HandlerBindingsSpec(ElementEventRole, attrs, position);
  }

  /** `getComponentOutputs`. */
  function ComponentOutputs(attrs: seq<Attribute>, position: Position): Result<seq<ViewBinding>, Error> {
    Bindings(ComponentOutputRole, attrs, position)
  }

  /** `getComponentOutputs` fails when an output key has no value or its
      handler is not a method call. */
  lemma ComponentOutputsSpec(attrs: seq<Attribute>, position: Position)
    ensures var r, sel := ComponentOutputs(attrs, position), Selected(ComponentOutputRole, attrs);
      r.Err? <==> (exists k :: 0 <= k < |sel| &&
                     (sel[k].value.None? || MethodCallValue(sel[k].value.value, position).Err?))
    ensures var r, sel := ComponentOutputs(attrs, position), Selected(ComponentOutputRole, attrs);
      r.Ok? ==> |r.value| == |sel| && forall k :: 0 <= k < |sel| ==>
        sel[k].value.Some? && MethodCallValue(sel[k].value.value, position).Ok? &&
        r.value[k] == ComponentOutputBinding(GetOutputName(sel[k].key), MethodCallValue(sel[k].value.value, position).value)
  {
    HandlerBindingsSpec(ComponentOutputRole, attrs, position);
  }

  // ---------------------------------------------------------------------------
  // Text

  /** The node a chunk of a text's split stands for: literal text at even
      positions, an interpolation at odd ones. */
  function ChunkNode(chunk: string, index: nat): TemplateNode {
    if index % 2 == 0 then TextNode(TextBinding(Constant("'" + Escape(chunk) + "'")))
    else InterpolationNode(InterpolationBinding(ResolveBinding(chunk)))
  }

  /** An empty first or last chunk is dropped. */
  predicate Skipped(chunks: seq<string>, i: nat)
    requires i < |chunks|
  {
    (i == 0 || i == |chunks| - 1) && chunks[i] == ""
  }

  /** The nodes of the first `n` chunks. */
  function ChunkNodes(chunks: seq<string>, n: nat): seq<TemplateNode>
    requires n <= |chunks|
  {
    if n == 0 then []
    else ChunkNodes(chunks, n - 1) + (if Skipped(chunks, n - 1) then [] else [ChunkNode(chunks[n - 1], n - 1)])
  }

  /** One more chunk adds its node, unless it is dropped. */
  lemma ChunkNodesNext(chunks: seq<string>, i: nat)
    requires i < |chunks|
    ensures ChunkNodes(chunks, i + 1)
         == ChunkNodes(chunks, i) + (if Skipped(chunks, i) then [] else [ChunkNode(chunks[i], i)])
  {
  }

  /** The template nodes of a text node's content. */
  function TextNodes(content: string): seq<TemplateNode> {
    var chunks := Split(Handlebars, content);
    ChunkNodes(chunks, |chunks|)
  }

  /** `handleText`. */
  method HandleText(content: string) returns (nodes: seq<TemplateNode>)
    ensures nodes == TextNodes(content)
  {
    var chunks := Split(Handlebars, content);
    nodes := [];
    for index := 0 to |chunks|
      invariant nodes == ChunkNodes(chunks, index)
    {
      var chunk := chunks[index];
      ChunkNodesNext(chunks, index);
      if (index == 0 || index == |chunks| - 1) && chunk == "" {
        assert Skipped(chunks, index);
        continue;
      }
      var templateNode := ChunkTemplateNode(chunk, index);
      assert !Skipped(chunks, index);
      nodes := nodes + [templateNode];
    }
  }

  /** The node one kept chunk gives: text at even positions, an
      interpolation at odd ones. */
  method ChunkTemplateNode(chunk: string, index: nat) returns (templateNode: TemplateNode)
    ensures templateNode == ChunkNode(chunk, index)
  {
    if index % 2 == 0 {
      templateNode := TextNode(TextBinding(Constant("'" + Escape(chunk) + "'")));
    } else {
      templateNode := InterpolationNode(InterpolationBinding(ResolveBinding(chunk)));
    }
  }

  /** The node of the first chunk, unless it is dropped. */
  function FirstNode(chunks: seq<string>): seq<TemplateNode>
    requires |chunks| > 0
  {
    if chunks[0] == "" then [] else [ChunkNode(chunks[0], 0)]
  }

  /** The node of the last chunk, unless it is dropped. */
  function LastNode(chunks: seq<string>): seq<TemplateNode>
    requires |chunks| > 0
  {
    if chunks[|chunks| - 1] == "" then [] else [ChunkNode(chunks[|chunks| - 1], |chunks| - 1)]
  }

  /** The nodes of chunks `1` up to but excluding `n`, none of which is dropped. */
  function InnerNodes(chunks: seq<string>, n: nat): seq<TemplateNode>
    requires 1 <= n <= |chunks|
  {
    seq(n - 1, i requires 0 <= i < n - 1 => ChunkNode(chunks[i + 1], i + 1))
  }

  lemma {:induction false} ChunkNodesPrefix(chunks: seq<string>, n: nat)
    requires 1 <= n < |chunks|
    ensures ChunkNodes(chunks, n) == FirstNode(chunks) + InnerNodes(chunks, n)
  {
    if n > 1 {
      ChunkNodesPrefix(chunks, n - 1);
      assert !Skipped(chunks, n - 1);
      InnerNodesStep(chunks, n);
    } else {
      assert InnerNodes(chunks, 1) == [];
    }
  }

  /** One more inner chunk adds its node at the end. */
  lemma InnerNodesStep(chunks: seq<string>, k: nat)
    requires 2 <= k <= |chunks|
    ensures InnerNodes(chunks, k) == InnerNodes(chunks, k - 1) + [ChunkNode(chunks[k - 1], k - 1)]
  {
    var shorter := InnerNodes(chunks, k - 1);
    forall i | 0 <= i < k - 1 ensures InnerNodes(chunks, k)[i] == (shorter + [ChunkNode(chunks[k - 1], k - 1)])[i] {
      if i < k - 2 {
        assert shorter[i] == ChunkNode(chunks[i + 1], i + 1);
      }
    }
  }

  /** Every chunk but an empty first or last one becomes a node, in order. */
  lemma ChunkNodesShape(chunks: seq<string>)
    requires |chunks| >= 2
    ensures ChunkNodes(chunks, |chunks|) == FirstNode(chunks) + InnerNodes(chunks, |chunks| - 1) + LastNode(chunks)
  {
    var n := |chunks| - 1;
    ChunkNodesPrefix(chunks, n);
    var inner := FirstNode(chunks) + InnerNodes(chunks, n);
    assert ChunkNodes(chunks, n) == inner;
    assert (if Skipped(chunks, n) then [] else [ChunkNode(chunks[n], n)]) == LastNode(chunks);
    assert ChunkNodes(chunks, |chunks|) == inner + LastNode(chunks);
  }

  /** A text without `{{` is one literal text node, or none when it is empty. */
  lemma TextWithoutInterpolation(content: string)
    requires !Includes(content, "{{")
    ensures TextNodes(content) == if content == "" then [] else [TextNode(TextBinding(Constant("'" + Escape(content) + "'")))]
  {
    SplitWithoutBraces(content);
    assert ChunkNodes([content], 0) == [];
    assert ChunkNode(content, 0) == TextNode(TextBinding(Constant("'" + Escape(content) + "'")));
  }

  /** `{{ key }}` alone is a single interpolation of the trimmed key: the
      empty text around it is dropped. */
  lemma LoneInterpolation(key: string)
    requires |key| > 0 && Free(Handlebars, key)
    ensures TextNodes("{{" + key + "}}") == [InterpolationNode(InterpolationBinding(ResolveBinding(HandlebarsCapture(key))))]
  {
    var ts := ["", key, ""];
    assert ts[2..] == [""];
    assert WellFormedPieces(ts);
    assert Interpolate(ts) == "{{" + key + "}}";
    SplitInterpolate(ts);
    var chunks := Captures(Handlebars, ts);
    assert chunks == ["", HandlebarsCapture(key), ""];
    ChunkNodesShape(chunks);
  }

  /** The white space inside the braces is not part of the expression. */
  lemma PaddedInterpolation(a: string, key: string, b: string)
    requires AllWhitespace(a) && AllWhitespace(b)
    requires |key| > 0 && !IsWhitespace(key[0]) && !IsWhitespace(key[|key| - 1]) && Free(Handlebars, key)
    ensures TextNodes("{{" + (a + key + b) + "}}") == [InterpolationNode(InterpolationBinding(ResolveBinding(key)))]
  {
    var body := a + key + b;
    forall i | 0 <= i < |body| ensures !Stops(Handlebars, body[i]) {
      if i < |a| {
        assert body[i] == a[i];
      } else if i < |a| + |key| {
        assert body[i] == key[i - |a|];
      } else {
        assert body[i] == b[i - |a| - |key|];
      }
    }
    assert body[|a|] == key[0];
    TrimOfPadded(a, key, b);
    LoneInterpolation(body);
  }

  /** Two adjacent interpolations keep the empty text between them as an
      empty literal; only the empty first and last chunks are dropped. */
  lemma AdjacentInterpolations(x: string, y: string)
    requires |x| > 0 && !IsWhitespace(x[0]) && !IsWhitespace(x[|x| - 1]) && Free(Handlebars, x)
    requires |y| > 0 && !IsWhitespace(y[0]) && !IsWhitespace(y[|y| - 1]) && Free(Handlebars, y)
    ensures TextNodes("{{" + x + "}}" + ("{{" + y + "}}")) == [
      InterpolationNode(InterpolationBinding(ResolveBinding(x))),
      TextNode(TextBinding(Constant("''"))),
      InterpolationNode(InterpolationBinding(ResolveBinding(y)))]
  {
    AdjacentSplit(x, y);
    AdjacentNodes("{{" + x + "}}" + ("{{" + y + "}}"), x, y);
  }

  lemma AdjacentNodes(text: string, x: string, y: string)
    requires Split(Handlebars, text) == ["", x, "", y, ""]
    ensures TextNodes(text) == [
      InterpolationNode(InterpolationBinding(ResolveBinding(x))),
      TextNode(TextBinding(Constant("''"))),
      InterpolationNode(InterpolationBinding(ResolveBinding(y)))]
  {
    var chunks := ["", x, "", y, ""];
    ChunkNodesShape(chunks);
    assert FirstNode(chunks) == [] && LastNode(chunks) == [];
    InnerNodesOfThree(chunks);
    EmptyLiteralNode();
    assert ChunkNode(x, 1) == InterpolationNode(InterpolationBinding(ResolveBinding(x)));
    assert ChunkNode(y, 3) == InterpolationNode(InterpolationBinding(ResolveBinding(y)));
    assert TextNodes(text) == ChunkNodes(chunks, 5);
  }

  lemma InnerNodesOfThree(chunks: seq<string>)
    requires |chunks| == 5
    ensures InnerNodes(chunks, 4) == [ChunkNode(chunks[1], 1), ChunkNode(chunks[2], 2), ChunkNode(chunks[3], 3)]
  {
    var r := InnerNodes(chunks, 4);
    assert |r| == 3;
    assert r[0] == ChunkNode(chunks[1], 1) && r[1] == ChunkNode(chunks[2], 2) && r[2] == ChunkNode(chunks[3], 3);
  }

  /** An empty chunk in a literal position is the empty string literal. */
  lemma EmptyLiteralNode()
    ensures ChunkNode("", 2) == TextNode(TextBinding(Constant("''")))
  {
    assert Escape("") == "";
    assert "'" + "" + "'" == "''";
  }

  lemma AdjacentSplit(x: string, y: string)
    requires |x| > 0 && !IsWhitespace(x[0]) && !IsWhitespace(x[|x| - 1]) && Free(Handlebars, x)
    requires |y| > 0 && !IsWhitespace(y[0]) && !IsWhitespace(y[|y| - 1]) && Free(Handlebars, y)
    ensures Split(Handlebars, "{{" + x + "}}" + ("{{" + y + "}}")) == ["", x, "", y, ""]
  {
    TwoInterpolations(x, y);
    SplitInterpolate(["", x, "", y, ""]);
    CapturesOfTrimmed(x, y);
  }

  /** `{{x}}{{y}}` is the rendering of empty literals around `x` and `y`. */
  lemma TwoInterpolations(x: string, y: string)
    requires |x| > 0 && Free(Handlebars, x) && |y| > 0 && Free(Handlebars, y)
    ensures WellFormedPieces(["", x, "", y, ""])
    ensures Interpolate(["", x, "", y, ""]) == "{{" + x + "}}" + ("{{" + y + "}}")
  {
    var ts := ["", x, "", y, ""];
    assert ts[2..][2..] == [""];
    assert WellFormedPieces(ts[2..][2..]);
    assert WellFormedPieces(ts[2..]);
    assert WellFormedPieces(ts);
    assert Interpolate(ts[2..]) == "{{" + y + "}}";
    assert Interpolate(ts) == "{{" + x + "}}" + ("{{" + y + "}}");
  }

  lemma CapturesOfTrimmed(x: string, y: string)
    requires |x| > 0 && !IsWhitespace(x[0]) && !IsWhitespace(x[|x| - 1]) && Free(Handlebars, x)
    requires |y| > 0 && !IsWhitespace(y[0]) && !IsWhitespace(y[|y| - 1]) && Free(Handlebars, y)
    ensures Captures(Handlebars, ["", x, "", y, ""]) == ["", x, "", y, ""]
  {
    var ts := ["", x, "", y, ""];
    TrimOfTrimmed(x);
    TrimOfTrimmed(y);
    assert ts[2..] == ["", y, ""] && ts[2..][2..] == [""];
    assert Captures(Handlebars, ts[2..][2..]) == [""];
    assert Captures(Handlebars, ts[2..]) == ["", y] + [""];
    assert Captures(Handlebars, ts) == ["", x] + ["", y, ""];
  }

  /** The text `{{a}}{{b}}` gives an empty text node between the two interpolations. */
  lemma AdjacentInterpolationsExample()
    ensures TextNodes("{{a}}{{b}}") == [
      InterpolationNode(InterpolationBinding(PropertyAccess("a"))),
      TextNode(TextBinding(Constant("''"))),
      InterpolationNode(InterpolationBinding(PropertyAccess("b")))]
  {
    IsLiteralIff("a");
    IsLiteralIff("b");
    assert "{{a}}{{b}}" == "{{" + "a" + "}}" + ("{{" + "b" + "}}");
    AdjacentInterpolations("a", "b");
  }

  /** `{{' '}}` interpolates the string literal `' '`. */
  lemma QuotedSpaceInterpolation()
    ensures TextNodes("{{' '}}") == [InterpolationNode(InterpolationBinding(Constant("' '")))]
  {
    assert "{{' '}}" == "{{" + ("" + "' '" + "") + "}}";
    PaddedInterpolation("", "' '", "");
  }

  /** `{{ foo }}` interpolates the property `foo`. */
  lemma TrimmedInterpolation()
    ensures TextNodes("{{ foo }}") == [InterpolationNode(InterpolationBinding(PropertyAccess("foo")))]
  {
    assert !IsLiteral("foo");
    assert "{{ foo }}" == "{{" + (" " + "foo" + " ") + "}}";
    PaddedInterpolation(" ", "foo", " ");
  }

  // ---------------------------------------------------------------------------
  // The w:if directive

  const NoConditionMessage := "Must specify the condition in w:if."
  const ConditionNotPropertyMessage := "The conditional for w:if must be a property name."

  /** An attribute of `<w:if>` as text: its key, or `key = value`. */
  function ConditionText(a: Attribute): string {
    match a.value
    case None => a.key
    case Some(v) => a.key + " = " + v
  }

  function ConditionTexts(attrs: seq<Attribute>): (r: seq<string>)
    ensures |r| == |attrs| && forall i :: 0 <= i < |attrs| ==> r[i] == ConditionText(attrs[i])
  {
    seq(|attrs|, i requires 0 <= i < |attrs| => ConditionText(attrs[i]))
  }

  /** `handleDirectiveIf`: the attributes, joined by spaces, must be an
      optionally negated property path. */
  function DirectiveIf(attrs: seq<Attribute>, position: Position): (r: Result<TemplateNode, Error>)
    ensures |attrs| == 0 ==> r == Err(ParseError(position, NoConditionMessage))
    ensures |attrs| > 0 && r.Err? ==> r == Err(ParseError(position, ConditionNotPropertyMessage))
    ensures r.Ok? ==> r.value.ConditionalViewNode? && r.value.binding.ConditionalViewBinding?
  {
    if |attrs| == 0 then Err(ParseError(position, NoConditionMessage))
    else
      var path := Join(ConditionTexts(attrs), " ");
      if !IsJustPropertyAccess(path, false) then Err(ParseError(position, ConditionNotPropertyMessage))
      else
        var isNegated := StartsWith(path, "!");
        var accessor := if isNegated then path[1..] else path;
        Ok(ConditionalViewNode(ConditionalViewBinding(ResolveBinding(accessor), isNegated)))
  }

  /** A condition is accepted exactly when it is a single bare attribute whose
      key is an optionally negated property path: a second attribute or a
      value brings a space into the joined text. */
  lemma DirectiveIfAccepts(attrs: seq<Attribute>, position: Position)
    ensures DirectiveIf(attrs, position).Ok? <==>
      |attrs| == 1 && attrs[0].value.None? && IsJustPropertyAccess(attrs[0].key, false)
  {
    if |attrs| > 0 {
      var texts := ConditionTexts(attrs);
      var path := Join(texts, " ");
      if |attrs| >= 2 {
        assert path == texts[0] + " " + Join(texts[1..], " ");
        assert path[|texts[0]|] == ' ';
        SpaceIsNotPropertyAccess(path, |texts[0]|, false);
      } else {
        assert path == texts[0];
        if attrs[0].value.Some? {
          assert path == attrs[0].key + " = " + attrs[0].value.value;
          assert path[|attrs[0].key|] == ' ';
          SpaceIsNotPropertyAccess(path, |attrs[0].key|, false);
        }
      }
    }
  }

  /** A leading `!` negates the condition and is not part of the resolved
      path; without it the path is resolved as it stands. */
  lemma DirectiveIfNegation(key: string, position: Position)
    requires IsPathText(key)
    ensures DirectiveIf([Attribute("!" + key, None)], position)
         == Ok(ConditionalViewNode(ConditionalViewBinding(ResolveBinding(key), true)))
    ensures DirectiveIf([Attribute(key, None)], position)
         == Ok(ConditionalViewNode(ConditionalViewBinding(ResolveBinding(key), false)))
  {
    var negated := "!" + key;
    assert ConditionTexts([Attribute(negated, None)]) == [negated];
    assert negated[0] == '!' && negated[1..] == key;
    assert ConditionTexts([Attribute(key, None)]) == [key];
    if |key| > 0 {
      assert PathChar(key[0]);
    }
  }

  /** `<w:if isAnswerVisible>` shows its content when the property is truthy. */
  lemma DirectiveIfExample(position: Position)
    ensures DirectiveIf([Attribute("isAnswerVisible", None)], position)
         == Ok(ConditionalViewNode(ConditionalViewBinding(PropertyAccess("isAnswerVisible"), false)))
  {
    var key := "isAnswerVisible";
    assert forall i :: 0 <= i < |key| ==> PathChar(key[i]);
    IsLiteralIff(key);
    DirectiveIfNegation(key, position);
  }

  // ---------------------------------------------------------------------------
  // The w:for directive

  const BadKeyFormatMessage := "Bad format after \";\" in w:for."
  const KeyNotSimpleMessage := "The key must be simple property access."

  function KeyNotSupportedMessage(left: string): string {
    "Key \"" + left + "\" not supported in w:for."
  }

  /** The exception `resolveBinding` raises when the definition has no `of`
      and so no right-hand side. */
  const MissingIterableMessage := "Cannot read properties of undefined (reading 'startsWith')"

  function Keys(attrs: seq<Attribute>): (r: seq<string>)
    ensures |r| == |attrs| && forall i :: 0 <= i < |attrs| ==> r[i] == attrs[i].key
  {
    seq(|attrs|, i requires 0 <= i < |attrs| => attrs[i].key)
  }

  /** The definition of a loop: the trimmed keys joined by spaces; attribute
      values play no part. */
  function ForDefinition(attrs: seq<Attribute>): string {
    Trim(Join(TrimAll(Keys(attrs)), " "))
  }

  /** The item and index names: `(item, index)` is split on its first comma,
      anything else is the item alone. */
  function Binders(left: string): (r: (string, Option<string>))
    ensures !StartsWith(left, "(") ==> r == (left, None)
  {
    if StartsWith(left, "(") && EndsWith(left, ")") then
      var names := TrimAll(SplitOn(Slice(left, 1, -1), ","));
      (names[0], if |names| >= 2 then Some(names[1]) else None)
    else (left, None)
  }

  /** The key accessor of the clause after the first `;`, if there is one. */
  function KeyClause(parts: seq<string>, position: Position): (r: Result<Option<string>, Error>)
    ensures r == Ok(None) <==> |parts| < 2
    ensures r.Ok? && r.value.Some? ==> IsPathText(r.value.value)
    ensures r.Err? ==> r.error.ParseError? && r.error.position == position
  {
    if |parts| < 2 then Ok(None)
    else
      var sides := TrimAll(SplitOn(parts[1], ":"));
      if |sides| < 2 then Err(ParseError(position, BadKeyFormatMessage))
      else if sides[0] != "key" then Err(ParseError(position, KeyNotSupportedMessage(sides[0])))
      else if !IsJustPropertyAccess(sides[1], true) then Err(ParseError(position, KeyNotSimpleMessage))
      else Ok(Some(sides[1]))
  }

  /** `handleDirectiveFor`: `item of items`, `(item, index) of items`, each
      optionally followed by `; key: path`. */
  function DirectiveFor(attrs: seq<Attribute>, position: Position): (r: Result<TemplateNode, Error>)
    ensures r.Ok? ==> r.value.RepeatingViewNode? && r.value.binding.RepeatingViewBinding?
    ensures var key := KeyClause(LoopParts(ForDefinition(attrs)), position);
      && (key.Err? ==> r == Err(key.error))
      && (r.Ok? ==> r.value.binding.keyAccessorPath == key.value)
  {
    LoopOf(ForDefinition(attrs), position)
  }

  /** The iteration part and the optional key clause, trimmed. */
  function LoopParts(definition: string): seq<string> {
    TrimAll(SplitOn(definition, ";"))
  }

  /** The loop a definition describes. The iteration part is split on the
      substring `of` wherever it occurs. A malformed key clause is reported
      before the iterable is resolved. */
  function LoopOf(definition: string, position: Position): (r: Result<TemplateNode, Error>)
    ensures r.Ok? ==> r.value.RepeatingViewNode? && r.value.binding.RepeatingViewBinding?
    ensures var key := KeyClause(LoopParts(definition), position);
      && (key.Err? ==> r == Err(key.error))
      && (r.Ok? ==> r.value.binding.keyAccessorPath == key.value)
  {
    var parts := LoopParts(definition);
    var sides := TrimAll(SplitOn(parts[0], "of"));
    var binders := Binders(sides[0]);
    var key :- KeyClause(parts, position);
    if |sides| < 2 then Err(RuntimeError(MissingIterableMessage))
    else Ok(RepeatingViewNode(RepeatingViewBinding(ResolveBinding(sides[1]), binders.0, binders.1, key)))
  }

  /** A loop that is accepted has `of` in its definition. */
  lemma DirectiveForNeedsOf(attrs: seq<Attribute>, position: Position)
    requires DirectiveFor(attrs, position).Ok?
    ensures Includes(ForDefinition(attrs), "of")
  {
    LoopNeedsOf(ForDefinition(attrs), position);
  }

  lemma LoopNeedsOf(definition: string, position: Position)
    requires LoopOf(definition, position).Ok?
    ensures Includes(definition, "of")
  {
    var pieces := SplitOn(definition, ";");
    var iteration := Trim(pieces[0]);
    assert |SplitOn(iteration, "of")| >= 2;
    SplitOnFound(iteration, "of");
    TrimIncludes(pieces[0], "of");
    SplitOnFirstIncludes(definition, ";", "of");
  }

  /** A loop without `of` and without a key clause fails when it resolves the
      missing right-hand side. */
  lemma DirectiveForWithoutOf(attrs: seq<Attribute>, position: Position)
    requires !Includes(ForDefinition(attrs), "of") && ';' !in ForDefinition(attrs)
    ensures DirectiveFor(attrs, position) == Err(RuntimeError(MissingIterableMessage))
  {
    var definition := ForDefinition(attrs);
    TrimOfTrimmed(definition);
    LoopWithoutOf(definition, position);
  }

  lemma LoopWithoutOf(definition: string, position: Position)
    requires !Includes(definition, "of") && ';' !in definition && Trim(definition) == definition
    ensures LoopOf(definition, position) == Err(RuntimeError(MissingIterableMessage))
  {
    CharNotIncluded(definition, ';');
    SplitOnWithout(definition, ";");
    assert TrimAll([definition]) == [definition];
    SplitOnWithout(definition, "of");
    assert TrimAll([definition]) == [definition];
  }

  /** A two-character text occurs in a concatenation only inside one part or
      across the seam. */
  lemma NotIncludesPair(s: string, t: string, sub: string)
    requires |sub| == 2 && !Includes(s, sub) && !Includes(t, sub)
    requires s == [] || t == [] || [s[|s| - 1], t[0]] != sub
    ensures !Includes(s + t, sub)
  {
    var u := s + t;
    forall i: nat | i <= |u| ensures !OccursAt(u, sub, i) {
      if i + 2 <= |u| {
        if i + 2 <= |s| {
          assert u[i..i + 2] == s[i..i + 2];
          assert !OccursAt(s, sub, i);
        } else if i >= |s| {
          assert u[i..i + 2] == t[i - |s|..i - |s| + 2];
          assert !OccursAt(t, sub, i - |s|);
        } else {
          assert u[i..i + 2] == [s[|s| - 1], t[0]];
        }
      }
    }
  }

  /** A text of at most two characters includes a two-character text only by being it. */
  lemma ShortHasNoPair(s: string, sub: string)
    requires |sub| == 2 && |s| <= 2 && s != sub
    ensures !Includes(s, sub)
  {
    forall i: nat | i <= |s| ensures !OccursAt(s, sub, i) {
      if i == 0 && |s| == 2 {
        assert s[0..2] == s;
      }
    }
  }

  /** A property path holds no separator of the loop grammar. */
  lemma PathTextHasNoSeparator(s: string)
    requires IsPathText(s)
    ensures ';' !in s && ',' !in s && ':' !in s && ' ' !in s && '(' !in s
    ensures s == [] || (!IsWhitespace(s[0]) && !IsWhitespace(s[|s| - 1]))
  {
    if |s| > 0 {
      assert PathChar(s[0]) && PathChar(s[|s| - 1]);
    }
    forall c | c in s ensures PathChar(c) {
      var i :| 0 <= i < |s| && s[i] == c;
    }
  }

  /** `<binder> of <items>` splits into the binder and the iterable. */
  lemma IterationSides(binder: string, items: string)
    requires |binder| > 0 && !IsWhitespace(binder[0]) && !IsWhitespace(binder[|binder| - 1])
    requires !Includes(binder, "of")
    requires |items| > 0 && IsPathText(items) && !Includes(items, "of")
    ensures TrimAll(SplitOn(binder + " of " + items, "of")) == [binder, items]
  {
    IterationPieces(binder, items);
    PathTextHasNoSeparator(items);
    PaddedPieces(binder, items);
  }

  lemma IterationPieces(binder: string, items: string)
    requires !Includes(binder, "of") && !Includes(items, "of")
    ensures SplitOn(binder + " of " + items, "of") == [binder + " ", " " + items]
  {
    ShortHasNoPair(" ", "of");
    ShortHasNoPair("o", "of");
    NotIncludesPair(binder, " ", "of");
    NotIncludesPair(binder + " ", "o", "of");
    NotIncludesPair(" ", items, "of");
    assert "of"[..1] == "o";
    assert binder + " of " + items == (binder + " ") + "of" + (" " + items);
    SplitOnPair(binder + " ", " " + items, "of");
  }

  lemma PaddedPieces(binder: string, items: string)
    requires |binder| > 0 && !IsWhitespace(binder[0]) && !IsWhitespace(binder[|binder| - 1])
    requires |items| > 0 && !IsWhitespace(items[0]) && !IsWhitespace(items[|items| - 1])
    ensures TrimAll([binder + " ", " " + items]) == [binder, items]
  {
    assert AllWhitespace(" ") && AllWhitespace("");
    TrimOfPadded("", binder, " ");
    assert "" + binder + " " == binder + " ";
    TrimOfPadded(" ", items, "");
    assert " " + items + "" == " " + items;
  }

  /** A loop without a key clause: the binder gives the item and index names,
      the iterable is resolved. */
  lemma LoopOfBinder(binder: string, items: string, position: Position)
    requires |binder| > 0 && !IsWhitespace(binder[0]) && !IsWhitespace(binder[|binder| - 1])
    requires !Includes(binder, "of") && ';' !in binder
    requires |items| > 0 && IsPathText(items) && !Includes(items, "of")
    ensures LoopOf(binder + " of " + items, position)
         == Ok(RepeatingViewNode(RepeatingViewBinding(ResolveBinding(items), Binders(binder).0, Binders(binder).1, None)))
  {
    var definition := binder + " of " + items;
    PathTextHasNoSeparator(items);
    assert ';' !in definition;
    CharNotIncluded(definition, ';');
    SplitOnWithout(definition, ";");
    assert definition[0] == binder[0] && definition[|definition| - 1] == items[|items| - 1];
    TrimOfTrimmed(definition);
    assert TrimAll([definition]) == [definition];
    IterationSides(binder, items);
  }

  /** A loop with a key clause `key: path` keeps the path as its key. */
  lemma LoopOfKeyed(binder: string, items: string, path: string, position: Position)
    requires |binder| > 0 && !IsWhitespace(binder[0]) && !IsWhitespace(binder[|binder| - 1])
    requires !Includes(binder, "of") && ';' !in binder
    requires |items| > 0 && IsPathText(items) && !Includes(items, "of")
    requires |path| > 0 && IsPathText(path)
    ensures LoopOf(binder + " of " + items + "; key: " + path, position)
         == Ok(RepeatingViewNode(RepeatingViewBinding(ResolveBinding(items), Binders(binder).0, Binders(binder).1, Some(path))))
  {
    var iteration := binder + " of " + items;
    var definition := binder + " of " + items + "; key: " + path;
    assert definition == iteration + ";" + (" key: " + path);
    PathTextHasNoSeparator(items);
    assert iteration[0] == binder[0] && iteration[|iteration| - 1] == items[|items| - 1];
    KeyedParts(iteration, path);
    KeyClauseOfKey(LoopParts(definition), path, position);
    IterationSides(binder, items);
    LoopOfSplit(definition, binder, items, Some(path), position);
  }

  /** A loop whose iteration part splits into a binder and an iterable, and
      whose key clause is accepted. */
  lemma LoopOfSplit(definition: string, binder: string, items: string, key: Option<string>, position: Position)
    requires |LoopParts(definition)| >= 1 && TrimAll(SplitOn(LoopParts(definition)[0], "of")) == [binder, items]
    requires KeyClause(LoopParts(definition), position) == Ok(key)
    ensures LoopOf(definition, position) == Ok(RepeatingViewNode(RepeatingViewBinding(ResolveBinding(items), Binders(binder).0, Binders(binder).1, key)))
  {
  }

  /** `key: path` with a plain path is accepted. */
  lemma KeyClauseOfKey(parts: seq<string>, path: string, position: Position)
    requires |parts| >= 2 && parts[1] == "key" + ":" + (" " + path)
    requires |path| > 0 && IsPathText(path)
    ensures KeyClause(parts, position) == Ok(Some(path))
  {
    PathTextHasNoSeparator(path);
    assert ':' !in " " + path;
    KeyClauseOf(parts, "key", " " + path, position);
    assert Trim("key") == "key";
    TrimOfPadded(" ", path, "");
    assert " " + path + "" == " " + path;
  }

  /** The trimmed parts of `iteration; key: path`. */
  lemma KeyedParts(iteration: string, path: string)
    requires |iteration| > 0 && !IsWhitespace(iteration[0]) && !IsWhitespace(iteration[|iteration| - 1])
    requires ';' !in iteration
    requires |path| > 0 && IsPathText(path)
    ensures LoopParts(iteration + ";" + (" key: " + path)) == [iteration, "key" + ":" + (" " + path)]
  {
    var clause := " key: " + path;
    PathTextHasNoSeparator(path);
    assert ';' !in clause;
    CharNotIncluded(iteration, ';');
    CharNotIncluded(clause, ';');
    assert iteration + ";"[..0] == iteration;
    SplitOnPair(iteration, clause, ";");
    TrimOfTrimmed(iteration);
    var kept := "key: " + path;
    assert kept[0] == 'k' && kept[|kept| - 1] == path[|path| - 1];
    TrimOfPadded(" ", kept, "");
    assert " " + kept + "" == clause;
    assert kept == "key" + ":" + (" " + path);
    assert TrimAll([iteration, clause]) == [iteration, kept];
  }

  /** `(item, index)` names both the item and its index. */
  lemma BindersOfPair(item: string, index: string)
    requires |item| > 0 && IsPathText(item) && |index| > 0 && IsPathText(index)
    ensures Binders("(" + item + ", " + index + ")") == (item, Some(index))
  {
    var left := "(" + item + ", " + index + ")";
    assert left[..1] == "(" && left[|left| - 1..] == ")";
    assert Slice(left, 1, -1) == item + "," + (" " + index);
    PathTextHasNoSeparator(item);
    PathTextHasNoSeparator(index);
    CharNotIncluded(item, ',');
    assert ',' !in " " + index;
    CharNotIncluded(" " + index, ',');
    assert item + ","[..0] == item;
    SplitOnPair(item, " " + index, ",");
    TrimOfTrimmed(item);
    TrimOfPadded(" ", index, "");
    assert " " + index + "" == " " + index;
  }

  /** `item of items` iterates over `items` with neither index nor key. */
  lemma LoopOfItems(item: string, items: string, position: Position)
    requires |item| > 0 && IsPathText(item) && !Includes(item, "of")
    requires |items| > 0 && IsPathText(items) && !Includes(items, "of")
    ensures LoopOf(item + " of " + items, position)
         == Ok(RepeatingViewNode(RepeatingViewBinding(ResolveBinding(items), item, None, None)))
  {
    PathTextHasNoSeparator(item);
    assert item[..1][0] == item[0];
    LoopOfBinder(item, items, position);
  }

  /** `(item, index) of items` also names the index. */
  lemma LoopOfPair(item: string, index: string, items: string, position: Position)
    requires |item| > 0 && IsPathText(item) && !Includes(item, "of")
    requires |index| > 0 && IsPathText(index) && !Includes(index, "of")
    requires |items| > 0 && IsPathText(items) && !Includes(items, "of")
    ensures LoopOf("(" + item + ", " + index + ")" + " of " + items, position)
         == Ok(RepeatingViewNode(RepeatingViewBinding(ResolveBinding(items), item, Some(index), None)))
  {
    var binder := "(" + item + ", " + index + ")";
    PathTextHasNoSeparator(item);
    PathTextHasNoSeparator(index);
    BinderHasNoOf(item, index);
    assert ';' !in binder;
    BindersOfPair(item, index);
    LoopOfBinder(binder, items, position);
  }

  lemma BinderHasNoOf(item: string, index: string)
    requires |item| > 0 && IsPathText(item) && !Includes(item, "of")
    requires |index| > 0 && IsPathText(index) && !Includes(index, "of")
    ensures !Includes("(" + item + ", " + index + ")", "of")
  {
    ShortHasNoPair("(", "of");
    ShortHasNoPair(", ", "of");
    ShortHasNoPair(")", "of");
    NotIncludesPair("(", item, "of");
    NotIncludesPair("(" + item, ", ", "of");
    NotIncludesPair("(" + item + ", ", index, "of");
    NotIncludesPair("(" + item + ", " + index, ")", "of");
  }

  /** `<w:for item of items>`: the three bare attributes join into the definition. */
  lemma ForDefinitionOfKeys(item: string, items: string)
    requires |item| > 0 && IsPathText(item) && |items| > 0 && IsPathText(items)
    ensures ForDefinition([Attribute(item, None), Attribute("of", None), Attribute(items, None)]) == item + " of " + items
  {
    var attrs := [Attribute(item, None), Attribute("of", None), Attribute(items, None)];
    PathTextHasNoSeparator(item);
    PathTextHasNoSeparator(items);
    assert Keys(attrs) == [item, "of", items];
    assert !IsWhitespace("of"[0]) && !IsWhitespace("of"[1]);
    OfBetween(item, items);
    JoinOfTrimmedKeys(Keys(attrs), item, "of", items);
  }

  lemma OfBetween(a: string, b: string)
    ensures a + " " + "of" + " " + b == a + " of " + b
  {
    assert a + " " + "of" + " " + b == a + (" " + "of" + " ") + b;
    assert " " + "of" + " " == " of ";
  }

  /** Keys without surrounding white space are joined as they are. */
  lemma JoinOfTrimmedKeys(keys: seq<string>, a: string, b: string, c: string)
    requires keys == [a, b, c]
    requires |a| > 0 && !IsWhitespace(a[0]) && !IsWhitespace(a[|a| - 1])
    requires |b| > 0 && !IsWhitespace(b[0]) && !IsWhitespace(b[|b| - 1])
    requires |c| > 0 && !IsWhitespace(c[0]) && !IsWhitespace(c[|c| - 1])
    ensures Trim(Join(TrimAll(keys), " ")) == a + " " + b + " " + c
  {
    TrimOfTrimmed(a);
    TrimOfTrimmed(b);
    TrimOfTrimmed(c);
    assert TrimAll(keys) == keys;
    assert keys[1..] == [b, c] && keys[1..][1..] == [c];
    var d := a + " " + b + " " + c;
    assert Join(keys[1..], " ") == b + " " + c;
    assert Join(keys, " ") == a + " " + (b + " " + c);
    assert a + " " + (b + " " + c) == d;
    assert d[0] == a[0] && d[|d| - 1] == c[|c| - 1];
    TrimOfTrimmed(d);
  }

  /** `<w:for item of items>` iterates over `items`. */
  lemma DirectiveForItems(item: string, items: string, position: Position)
    requires |item| > 0 && IsPathText(item) && !Includes(item, "of")
    requires |items| > 0 && IsPathText(items) && !Includes(items, "of")
    ensures DirectiveFor([Attribute(item, None), Attribute("of", None), Attribute(items, None)], position)
         == Ok(RepeatingViewNode(RepeatingViewBinding(ResolveBinding(items), item, None, None)))
  {
    ForDefinitionOfKeys(item, items);
    LoopOfItems(item, items, position);
  }

  /** A key clause without a colon is malformed. */
  lemma KeyClauseWithoutColon(parts: seq<string>, position: Position)
    requires |parts| >= 2 && ':' !in parts[1]
    ensures KeyClause(parts, position) == Err(ParseError(position, BadKeyFormatMessage))
  {
    CharNotIncluded(parts[1], ':');
    SplitOnWithout(parts[1], ":");
  }

  /** A key clause `left: right`: only `key` is supported on the left, and
      the right must be a property path without negation. */
  lemma KeyClauseOf(parts: seq<string>, left: string, right: string, position: Position)
    requires |parts| >= 2 && parts[1] == left + ":" + right && ':' !in left && ':' !in right
    ensures KeyClause(parts, position) ==
      if Trim(left) != "key" then Err(ParseError(position, KeyNotSupportedMessage(Trim(left))))
      else if !IsPathText(Trim(right)) then Err(ParseError(position, KeyNotSimpleMessage))
      else Ok(Some(Trim(right)))
  {
    CharNotIncluded(left, ':');
    CharNotIncluded(right, ':');
    assert left + ":"[..0] == left;
    SplitOnPair(left, right, ":");
  }

  // ---------------------------------------------------------------------------
  // Directives, components and elements

  /** `tagName.slice(2).toLowerCase()`. */
  function DirectiveName(tagName: string): (r: string)
    ensures |tagName| >= 2 ==> |r| == |tagName| - 2
  {
    AsciiLower(Slice(tagName, 2, |tagName|))
  }

  function UnsupportedDirectiveMessage(name: string): string {
    "Unsupported directive <w:" + name + ">."
  }

  /** `handleDirective`: `if` and `for` in any case; any other name is an error. */
  function DirectiveNode(tagName: string, attrs: seq<Attribute>, position: Position): (r: Result<TemplateNode, Error>)
    ensures DirectiveName(tagName) == "if" ==> r == DirectiveIf(attrs, position)
    ensures DirectiveName(tagName) == "for" ==> r == DirectiveFor(attrs, position)
    ensures DirectiveName(tagName) !in {"if", "for"} ==> r == Err(RuntimeError(UnsupportedDirectiveMessage(DirectiveName(tagName))))
  {
    var name := DirectiveName(tagName);
    if name == "if" then DirectiveIf(attrs, position)
    else if name == "for" then DirectiveFor(attrs, position)
    else Err(RuntimeError(UnsupportedDirectiveMessage(name)))
  }

  /** The directive name ignores the case of its letters. */
  lemma DirectiveNameIgnoresCase(attrs: seq<Attribute>, position: Position)
    ensures DirectiveNode("W:IF", attrs, position) == DirectiveIf(attrs, position)
    ensures DirectiveNode("w:For", attrs, position) == DirectiveFor(attrs, position)
  {
    assert Slice("W:IF", 2, 4) == "IF";
    assert AsciiLower("IF") == "if";
    assert Slice("w:For", 2, 5) == "For";
    assert AsciiLower("For") == "for";
  }

  /** `handleComponent`: attributes, then inputs, then outputs; the first
      collector that fails decides the error. */
  function ComponentValue(tagName: string, attrs: seq<Attribute>, position: Position): (r: Result<TemplateNode, Error>)
    ensures r.Ok? <==> ComponentInputs(attrs, position).Ok? && ComponentOutputs(attrs, position).Ok?
    ensures r.Ok? ==> r.value == ComponentNode(tagName, ElementOrComponentAttributes(attrs, position),
                                               ComponentInputs(attrs, position).value, ComponentOutputs(attrs, position).value)
    ensures ComponentInputs(attrs, position).Err? ==> r == Err(ComponentInputs(attrs, position).error)
  {
    var attributes := ElementOrComponentAttributes(attrs, position);
    var inputs :- ComponentInputs(attrs, position);
    var outputs :- ComponentOutputs(attrs, position);
    Ok(ComponentNode(tagName, attributes, inputs, outputs))
  }

  /** `handleElement`: attributes, then props, then events. */
  function ElementValue(tagName: string, attrs: seq<Attribute>, position: Position): (r: Result<TemplateNode, Error>)
    ensures r.Ok? <==> ElementProps(attrs, position).Ok? && ElementEvents(attrs, position).Ok?
    ensures r.Ok? ==> r.value == HtmlElementNode(tagName, ElementOrComponentAttributes(attrs, position),
                                                 ElementProps(attrs, position).value, ElementEvents(attrs, position).value)
    ensures ElementProps(attrs, position).Err? ==> r == Err(ElementProps(attrs, position).error)
  {
    var attributes := ElementOrComponentAttributes(attrs, position);
    var props :- ElementProps(attrs, position);
    var events :- ElementEvents(attrs, position);
    Ok(HtmlElementNode(tagName, attributes, props, events))
  }

  /** `handleHtmlElementNode`: a directive first, then a component, then a plain element. */
  function ElementNodeValue(tagName: string, attrs: seq<Attribute>, position: Position): (r: Result<TemplateNode, Error>)
    ensures IsDirective(tagName) ==> r == DirectiveNode(tagName, attrs, position)
    ensures !IsDirective(tagName) && IsComponent(tagName) ==> r == ComponentValue(tagName, attrs, position)
    ensures !IsDirective(tagName) && !IsComponent(tagName) ==> r == ElementValue(tagName, attrs, position)
  {
    if IsDirective(tagName) then DirectiveNode(tagName, attrs, position)
    else if IsComponent(tagName) then ComponentValue(tagName, attrs, position)
    else ElementValue(tagName, attrs, position)
  }

  /** What kind of node a tag gives: a `w:` tag is always a directive, even
      with a dash in it; a dash makes a component; anything else is an element. */
  lemma DispatchKinds(tagName: string, attrs: seq<Attribute>, position: Position)
    ensures var r := ElementNodeValue(tagName, attrs, position);
      r.Ok? ==>
        && (IsDirective(tagName) <==> (r.value.ConditionalViewNode? || r.value.RepeatingViewNode?))
        && (!IsDirective(tagName) && IsComponent(tagName) <==> r.value.ComponentNode?)
        && (!IsDirective(tagName) && !IsComponent(tagName) <==> r.value.HtmlElementNode?)
        && (r.value.ComponentNode? || r.value.HtmlElementNode? ==> r.value.tagName == tagName)
  {
  }

  /** `<w:my-list>` is an unsupported directive, not a component. */
  lemma DirectiveBeforeComponent(attrs: seq<Attribute>, position: Position)
    ensures ElementNodeValue("w:my-list", attrs, position) == Err(RuntimeError("Unsupported directive <w:my-list>."))
  {
    var tag := "w:my-list";
    IsDirectiveIff(tag);
    assert Slice(tag, 2, |tag|) == "my-list";
    assert AsciiLower("my-list") == "my-list";
    assert DirectiveName(tag) == "my-list";
    assert UnsupportedDirectiveMessage("my-list") == "Unsupported directive <w:my-list>.";
  }

  // ---------------------------------------------------------------------------
  // The markup tree

  /** The number of markup nodes in a tree, the measure of the recursion. */
  function Size(node: MarkupNode): nat {
    match node
    case Element(_, _, children, _) => 1 + SizeAll(children)
    case _ => 1
  }

  function SizeAll(nodes: seq<MarkupNode>): nat {
    if nodes == [] then 0 else Size(nodes[0]) + SizeAll(nodes[1..])
  }

  /** Template nodes that have no children of their own. */
  function Leaves(values: seq<TemplateNode>): (r: seq<TreeNode>)
    ensures |r| == |values| && forall i :: 0 <= i < |values| ==> r[i] == TreeNode(values[i], [])
  {
    seq(|values|, i requires 0 <= i < |values| => TreeNode(values[i], []))
  }

  /** `handleNodeRecursively`: a text gives its text and interpolation nodes,
      an element one tree node over its children's results (the children are
      handled first), a comment nothing. */
  function HandleNode(node: MarkupNode): (r: Result<seq<TreeNode>, Error>)
    ensures node.Text? ==> r == Ok(Leaves(TextNodes(node.content)))
    ensures node.Comment? ==> r == Ok([])
    ensures node.Element? && HandleNodes(node.children).Err? ==> r == Err(HandleNodes(node.children).error)
    ensures node.Element? && r.Ok? ==>
      && HandleNodes(node.children).Ok?
      && ElementNodeValue(node.tagName, node.attributes, node.position).Ok?
      && r.value == [TreeNode(ElementNodeValue(node.tagName, node.attributes, node.position).value,
                              HandleNodes(node.children).value)]
    decreases Size(node), 0
  {
    match node
    case Text(content, _) => Ok(Leaves(TextNodes(content)))
    case Element(tagName, attributes, children, position) =>
      var kids :- HandleNodes(children);
      var value :- ElementNodeValue(tagName, attributes, position);
      Ok([TreeNode(value, kids)])
    case Comment(_, _) => Ok([])
  }

  /** The nodes of a list of markup nodes, concatenated in order; the first
      node that fails decides the error. */
  function HandleNodes(nodes: seq<MarkupNode>): (r: Result<seq<TreeNode>, Error>)
    decreases SizeAll(nodes), 1
  {
    if nodes == [] then Ok([])
    else
      var first :- HandleNode(nodes[0]);
      var rest :- HandleNodes(nodes[1..]);
      Ok(first + rest)
  }

  /** The concatenation of the results of each node. */
  function Flatten(results: seq<seq<TreeNode>>): seq<TreeNode> {
    if results == [] then [] else results[0] + Flatten(results[1..])
  }

  predicate AllHandled(nodes: seq<MarkupNode>) {
    forall i :: 0 <= i < |nodes| ==> HandleNode(nodes[i]).Ok?
  }

  /** The results of each node of a list whose nodes all succeed. */
  function HandledEach(nodes: seq<MarkupNode>): (r: seq<seq<TreeNode>>)
    requires AllHandled(nodes)
    ensures |r| == |nodes|
    decreases |nodes|
  {
    if nodes == [] then []
    else
      AllHandledCons(nodes);
      [HandleNode(nodes[0]).value] + HandledEach(nodes[1..])
  }

  /** A list of nodes succeeds exactly when each node does, and then gives
      the concatenation of their results in source order. */
  lemma {:induction false} HandleNodesIsFlatten(nodes: seq<MarkupNode>)
    ensures HandleNodes(nodes).Ok? <==> AllHandled(nodes)
    ensures AllHandled(nodes) ==> HandleNodes(nodes).value == Flatten(HandledEach(nodes))
    decreases |nodes|
  {
    if nodes != [] {
      var tail := nodes[1..];
      HandleNodesIsFlatten(tail);
      AllHandledCons(nodes);
      if AllHandled(nodes) {
        var each := HandledEach(nodes);
        assert each[1..] == HandledEach(tail);
      }
    }
  }

  /** A non-empty list is handled when its head and its tail are. */
  lemma AllHandledCons(nodes: seq<MarkupNode>)
    requires nodes != []
    ensures AllHandled(nodes) <==> HandleNode(nodes[0]).Ok? && AllHandled(nodes[1..])
  {
    var tail := nodes[1..];
    if HandleNode(nodes[0]).Ok? && AllHandled(tail) {
      forall i | 0 <= i < |nodes| ensures HandleNode(nodes[i]).Ok? {
        if i > 0 {
          assert nodes[i] == tail[i - 1];
        }
      }
    }
    if AllHandled(nodes) {
      forall i | 0 <= i < |tail| ensures HandleNode(tail[i]).Ok? {
        assert tail[i] == nodes[i + 1];
      }
    }
  }

  /** The error of a list of nodes is that of its first failing node. */
  lemma {:induction false} HandleNodesFirstError(nodes: seq<MarkupNode>)
    requires HandleNodes(nodes).Err?
    ensures exists i :: 0 <= i < |nodes| && HandleNode(nodes[i]) == Err(HandleNodes(nodes).error)
                        && forall j :: 0 <= j < i ==> HandleNode(nodes[j]).Ok?
    decreases |nodes|
  {
    if HandleNode(nodes[0]).Ok? {
      var tail := nodes[1..];
      HandleNodesFirstError(tail);
      assert HandleNodes(nodes).error == HandleNodes(tail).error;
      var i :| 0 <= i < |tail| && HandleNode(tail[i]) == Err(HandleNodes(tail).error)
               && forall j :: 0 <= j < i ==> HandleNode(tail[j]).Ok?;
      var k := i + 1;
      assert nodes[k] == tail[i];
      forall j | 0 <= j < k ensures HandleNode(nodes[j]).Ok? {
        if j > 0 {
          assert nodes[j] == tail[j - 1];
        }
      }
      assert HandleNode(nodes[k]) == Err(HandleNodes(nodes).error);
    } else {
      assert HandleNode(nodes[0]) == Err(HandleNodes(nodes).error);
    }
  }

  /** Handling two lists one after the other is handling their concatenation. */
  lemma {:induction false} HandleNodesAppend(a: seq<MarkupNode>, b: seq<MarkupNode>)
    ensures HandleNodes(a + b) ==
      match HandleNodes(a)
      case Err(e) => Err(e)
      case Ok(ra) => (match HandleNodes(b) case Err(e) => Err(e) case Ok(rb) => Ok(ra + rb))
    decreases |a|
  {
    if a == [] {
      assert a + b == b;
      if HandleNodes(b).Ok? {
        assert [] + HandleNodes(b).value == HandleNodes(b).value;
      }
    } else {
      assert (a + b)[0] == a[0] && (a + b)[1..] == a[1..] + b;
      HandleNodesAppend(a[1..], b);
      if HandleNode(a[0]).Ok? && HandleNodes(a[1..]).Ok? && HandleNodes(b).Ok? {
        var x, y, z := HandleNode(a[0]).value, HandleNodes(a[1..]).value, HandleNodes(b).value;
        assert x + (y + z) == (x + y) + z;
      }
    }
  }

  /** `parseTemplate` over the roots the markup parser returns. */
  function ParseTemplate(roots: seq<MarkupNode>): (r: Result<seq<TreeNode>, Error>)
    ensures r.Ok? <==> AllHandled(roots)
    ensures r.Ok? ==> r.value == Flatten(HandledEach(roots))
  {
    HandleNodesIsFlatten(roots);
    HandleNodes(roots)
  }

  // ---------------------------------------------------------------------------
  // Reporting a parse error

  /** `ParseError.toString`: the start line and column, then the message.
      The contract says where each part lies. */
  function ParseErrorText(position: Position, message: string): (r: string)
    ensures var line, column := NatToString(position.start.line), NatToString(position.start.column);
      && |r| == 13 + |line| + 1 + |column| + 3 + |message|
      && r[..13] == "Parse Error ("
      && r[13..13 + |line|] == line && r[13 + |line|] == ':'
      && r[13 + |line| + 1..13 + |line| + 1 + |column|] == column
      && r[13 + |line| + 1 + |column|..] == "): " + message
  {
    var line, column := NatToString(position.start.line), NatToString(position.start.column);
    var tail := "): " + message;
    var r := "Parse Error (" + line + ":" + column + tail;
    assert r[..13] == "Parse Error (";
    assert r[13..13 + |line|] == line;
    assert r[13 + |line| + 1..13 + |line| + 1 + |column|] == column;
    assert r[13 + |line| + 1 + |column|..] == tail;
    r
  }

  /** The line and the column can be read back from the text: the line's
      digits end at the first `:`, the column's digits at the `)` that
      precedes the message. */
  lemma ParseErrorTextFields(position: Position, message: string)
    ensures var line, column := NatToString(position.start.line), NatToString(position.start.column);
      var r := ParseErrorText(position, message);
      && DigitsValue(r[13..13 + |line|]) == position.start.line
      && DigitsValue(r[13 + |line| + 1..13 + |line| + 1 + |column|]) == position.start.column
  {
    NatToStringRoundTrip(position.start.line);
    NatToStringRoundTrip(position.start.column);
  }

  /** Two parse errors with the same text have the same line, column and message. */
  lemma ParseErrorTextInjective(p: Position, m: string, q: Position, n: string)
    requires ParseErrorText(p, m) == ParseErrorText(q, n)
    ensures p.start.line == q.start.line && p.start.column == q.start.column && m == n
  {
    FieldsDetermine(ParseErrorText(p, m), NatToString(p.start.line), NatToString(p.start.column), m,
                    NatToString(q.start.line), NatToString(q.start.column), n);
    NatToStringInjective(p.start.line, q.start.line);
    NatToStringInjective(p.start.column, q.start.column);
  }

  /** The text `(line:column): message` at offset 13 fixes its three fields
      when the line and the column are written in digits. */
  lemma FieldsDetermine(r: string, lp: string, cp: string, m: string, lq: string, cq: string, n: string)
    requires forall i :: 0 <= i < |lp| ==> IsDigit(lp[i])
    requires forall i :: 0 <= i < |lq| ==> IsDigit(lq[i])
    requires forall i :: 0 <= i < |cp| ==> IsDigit(cp[i])
    requires forall i :: 0 <= i < |cq| ==> IsDigit(cq[i])
    requires |r| == 13 + |lp| + 1 + |cp| + 3 + |m| == 13 + |lq| + 1 + |cq| + 3 + |n|
    requires r[13..13 + |lp|] == lp && r[13 + |lp|] == ':' && r[13 + |lp| + 1..13 + |lp| + 1 + |cp|] == cp
    requires r[13 + |lp| + 1 + |cp|..] == "): " + m
    requires r[13..13 + |lq|] == lq && r[13 + |lq|] == ':' && r[13 + |lq| + 1..13 + |lq| + 1 + |cq|] == cq
    requires r[13 + |lq| + 1 + |cq|..] == "): " + n
    ensures lp == lq && cp == cq && m == n
  {
    DigitsAt(r, 13, lp);
    DigitsAt(r, 13, lq);
    DigitsEndAt(r, 13, |lp|, |lq|, ':');
    var colon := 13 + |lp| + 1;
    DigitsAt(r, colon, cp);
    DigitsAt(r, colon, cq);
    assert r[colon + |cp|] == ("): " + m)[0];
    assert r[colon + |cq|] == ("): " + n)[0];
    DigitsEndAt(r, colon, |cp|, |cq|, ')');
    assert ("): " + m)[3..] == m && ("): " + n)[3..] == n;
  }

  /** The digits of a decimal text, found at `start` in `r`. */
  lemma DigitsAt(r: string, start: nat, digits: string)
    requires start + |digits| <= |r| && r[start..start + |digits|] == digits
    requires forall i :: 0 <= i < |digits| ==> IsDigit(digits[i])
    ensures forall i :: start <= i < start + |digits| ==> IsDigit(r[i])
  {
    forall i | start <= i < start + |digits| ensures IsDigit(r[i]) {
      assert r[i] == digits[i - start];
    }
  }

  /** A run of digits starting at `start` and followed by a character that is
      not a digit has only one possible length. */
  lemma DigitsEndAt(r: string, start: nat, k: nat, l: nat, stop: char)
    requires !IsDigit(stop)
    requires start + k < |r| && start + l < |r| && r[start + k] == stop && r[start + l] == stop
    requires forall i :: start <= i < start + k ==> IsDigit(r[i])
    requires forall i :: start <= i < start + l ==> IsDigit(r[i])
    ensures k == l
  {
  }
}
