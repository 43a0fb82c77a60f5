# Wane compiler core in Dafny

This project models three parts of the Wane compiler and proves properties of them.

- **Template parser** (`src/compiler/template-parser/html/html.ts`). It turns an already-parsed markup tree into a forest of typed template nodes with their view bindings attached. This covers:
  - the delimiter tests and stripping of `[..]`, `[attr...]` and `(..)`;
  - the binding classifiers;
  - the literal-versus-property resolver;
  - the `{{ }}` text splitter;
  - the method-call parser with its `#` placeholder;
  - the `w:if` and `w:for` mini-grammars;
  - tag dispatch;
  - the recursive walk over the tree.
- **Async-callback rewriter** (`src/compiler/codegen/wrap-async-code.ts`). It normalises the argument of every `.then`/`.catch` call into a block-bodied arrow function. It wraps that arrow so injected statements run after the callback while its result is still returned. It adds one `private __wane__factory: any` constructor parameter to each class in which a callback was expanded.
- **Component view node** (`src/compiler/template-nodes/nodes/component-node.ts`). A container of the attribute, input and output bindings of a component tag, with first-match lookups. It includes the as-written attribute lookup, which ignores the name it is given.

Modules:
- `Wrappers` holds `Option` and `Result`.
- `JsStrings` writes out the JavaScript string operations the code relies on. These are `trim` with the ECMAScript whitespace set, `split` on a substring, `join`, `slice` with negative indices, ASCII `toLowerCase` and number formatting.
- `RegexSplit` writes out `String.prototype.split` with the two global regular expressions `HANDLEBARS_REGEX` and `FUNCTION_CALL_REGEX` as explicit scanners.
- `ViewModel` holds the markup nodes, bound values, view bindings and template nodes.
- `Html`, `ComponentNode` and `WrapAsyncCode` follow the three source files.

Two parts are imperative:
- Where `html.ts` fills a `Set` or an array in a loop, the model has a method with a loop. That method is proved equal to a function, and the recursive walk uses the function.
- The rewriter works on the live syntax tree. It is modelled by:
  - a `CallbackSlot` class, the argument list of one call;
  - a `ClassDeclaration` class whose `members` field its methods reassign.
  Each method is proved against a function on values, and the properties are lemmas about those functions.

A JavaScript `Set` of freshly allocated binding objects never merges two entries and keeps insertion order. So the binding collections are ordered sequences.

Where the documented behaviour and the code differ, the model follows the code:
- `w:for` splits its definition with `split('of')` on the substring `of`, which also occurs inside names such as `offers`.
- A `w:for` without `of` fails inside `resolveBinding` with a `TypeError`, after the key clause has been checked. It is modelled as a runtime error.
- An element's children are handled before the element itself, so an error in a child wins over the element's own error.

## Model

| member | source | states |
|---|---|---|
| JsStrings.Trim | src/compiler/template-parser/html/html.ts:208 | `trim` never lengthens the text, and what it keeps neither starts nor ends with whitespace |
| JsStrings.TrimSpec | src/compiler/template-parser/html/html.ts:208 | `trim` removes exactly the leading and trailing whitespace: the result is a slice of the input, and everything cut off on either side is whitespace |
| JsStrings.JoinSplitOn | src/compiler/template-parser/html/html.ts:218 | joining the pieces of `split` on a non-empty separator with that separator gives the input back |
| JsStrings.SplitOnPiecesAreFree | src/compiler/template-parser/html/html.ts:218 | no piece of `split` holds the separator |
| JsStrings.TrimEmptyIffWhitespace | src/compiler/template-parser/html/html.ts:383 | trimming gives the empty string exactly for all-whitespace text |
| JsStrings.SplitOnJoin | src/compiler/template-parser/html/html.ts:389 | splitting a join of separator-free pieces gives the pieces back |
| JsStrings.AsciiLower | src/compiler/template-parser/html/html.ts:174 | `toLowerCase` keeps the length and lowers exactly the ASCII capitals |
| JsStrings.NatToStringRoundTrip | src/compiler/template-parser/html/html.ts:41 | the decimal text of a line or column number reads back as that number |
| RegexSplit.Split | src/compiler/template-parser/html/html.ts:60-61 | `split` with a global regex with one capture group always has at least one piece |
| RegexSplit.SplitLength | src/compiler/template-parser/html/html.ts:60-61 | the pieces alternate text and capture, so there is one piece or at least three |
| RegexSplit.SplitWithoutBraces | src/compiler/template-parser/html/html.ts:60 | text without `{{` is one piece |
| RegexSplit.SplitWithoutCloseParen | src/compiler/template-parser/html/html.ts:61 | text without `)` is one piece |
| RegexSplit.SplitInterpolate | src/compiler/template-parser/html/html.ts:60 | text laid out as brace-free chunks around `{{ body }}` splits into those chunks and the captured bodies |
| RegexSplit.SplitCallGroup | src/compiler/template-parser/html/html.ts:61 | `name(body)...` splits into the name, the trimmed body, and the rest |
| Html.EscapeIsPerCharacter | src/compiler/template-parser/html/html.ts:46-52 | the four chained replacements act character by character: newline becomes `\n`, and each quote or backtick gets a backslash |
| Html.EscapeEscapesQuotes | src/compiler/template-parser/html/html.ts:46-52 | escaped text has no newline, and every quote and backtick in it follows a backslash |
| Html.StripWrapper | src/compiler/template-parser/html/html.ts:115-119 | for wrapped text, open + stripped + close is the input |
| Html.StripThenWrap | src/compiler/template-parser/html/html.ts:105-119 | a key wrapped in a binding delimiter is its stripped text re-wrapped |
| Html.WrapThenStrip | src/compiler/template-parser/html/html.ts:105-119 | wrapping and then stripping gives the text back |
| Html.GetInputName | src/compiler/template-parser/html/html.ts:132-135 | the name is the key without its `[`..`]`, or the key itself when it is not bracketed |
| Html.GetOutputName | src/compiler/template-parser/html/html.ts:141-144 | `(` + name + `)` is the key |
| Html.GetAttributeName | src/compiler/template-parser/html/html.ts:160-171 | strips `[attr.`..`]` for explicit keys, `[`..`]` for other bracketed keys, and leaves any other key as it is |
| Html.PropAndAttributeDisjoint | src/compiler/template-parser/html/html.ts:125-158 | no key is both a property/input and an attribute binding |
| Html.PropAndEventDisjoint | src/compiler/template-parser/html/html.ts:125-139 | no key is both a property/input and an event/output binding |
| Html.DashKeyIsAttribute | src/compiler/template-parser/html/html.ts:150-158 | a non-explicit key holding `-` is an attribute and not a property, even when bracketed |
| Html.EventAndAttributeOverlap | src/compiler/template-parser/html/html.ts:137-158 | a key is both event and attribute exactly when it is parenthesised and holds `-` |
| Html.ClassesCoverEveryKey | src/compiler/template-parser/html/html.ts:125-158 | every key falls in at least one class |
| Html.IsDirectiveIff | src/compiler/template-parser/html/html.ts:173-175 | a tag is a directive exactly when it starts with `w:` or `W:` |
| Html.IsLiteralIff | src/compiler/template-parser/html/html.ts:274-289 | literal exactly for `null`, `undefined`, `true`, `false`, and text starting with a quote, a double quote, a digit or `.` |
| Html.BacktickIsNotLiteral | src/compiler/template-parser/html/html.ts:274-289 | text starting with a backtick is not a literal |
| Html.ResolveBinding | src/compiler/template-parser/html/html.ts:291-293 | a constant of the same text exactly when it is a literal, otherwise a property access of the same text |
| Html.SpaceIsNotPropertyAccess | src/compiler/template-parser/html/html.ts:63-67 | text holding a space never passes the property-path test |
| Html.ArgumentValues | src/compiler/template-parser/html/html.ts:396-399 | one value per argument, in order: `#` is the placeholder, anything else is resolved |
| Html.CollectArguments | src/compiler/template-parser/html/html.ts:387-394 | the loop keeps all pieces in order, and fails exactly when one of them is empty |
| Html.ParseMethodCall | src/compiler/template-parser/html/html.ts:374-400 | the imperative parse gives exactly the method-call value |
| Html.MethodCallNeedsGroup | src/compiler/template-parser/html/html.ts:377-379 | text without a parenthesised group, the empty text included, is an invalid invocation |
| Html.MethodCallOfArguments | src/compiler/template-parser/html/html.ts:374-400 | `name(a1,...,an)` with non-empty trimmed arguments gives the call of `name` with the arguments' values in order |
| Html.MethodCallWithEmptyArgument | src/compiler/template-parser/html/html.ts:389-392 | an empty argument between commas is an invalid invocation |
| Html.MethodCallWithoutArguments | src/compiler/template-parser/html/html.ts:383-385 | an empty or blank group gives a call with no arguments |
| Html.CollectBindings | src/compiler/template-parser/html/html.ts:295-372 | the collecting loops shared by the five collectors give exactly the selected attributes' bindings or the first error |
| Html.BindingsSpec | src/compiler/template-parser/html/html.ts:295-372 | the collection succeeds exactly when every selected attribute gives a binding; it then holds one binding per selected attribute in order, and otherwise the error of the first failing one |
| Html.HandlerBindingsSpec | src/compiler/template-parser/html/html.ts:330-372 | an event or output collection fails exactly when a handler has no value or is not a method call |
| Html.ElementOrComponentAttributesSpec | src/compiler/template-parser/html/html.ts:295-310 | an attribute binding per attribute key, in order: no value gives `''`, a bracketed key the raw value, any other key the value in single quotes |
| Html.ElementPropsSpec | src/compiler/template-parser/html/html.ts:312-328 | fails with the prop message exactly when a prop has no value; bracketed props resolve their value, others quote it |
| Html.ComponentInputsSpec | src/compiler/template-parser/html/html.ts:346-358 | fails with the input message exactly when an input has no value; values are resolved |
| Html.ElementEventsSpec | src/compiler/template-parser/html/html.ts:330-344 | every event's value is parsed as a method call under the event's name; fails exactly on a missing value or a bad call |
| Html.ComponentOutputsSpec | src/compiler/template-parser/html/html.ts:360-372 | the same for component outputs |
| Html.HandleText | src/compiler/template-parser/html/html.ts:69-94 | the `forEach` loop pushes exactly the chunk nodes |
| Html.ChunkNodesShape | src/compiler/template-parser/html/html.ts:73-79 | only the first and the last chunk can be dropped, and only when empty |
| Html.TextWithoutInterpolation | src/compiler/template-parser/html/html.ts:69-94 | text without `{{` is one quoted, escaped text node, or nothing when empty |
| Html.PaddedInterpolation | src/compiler/template-parser/html/html.ts:60 | the interpolated expression is resolved with its surrounding whitespace cut off |
| Html.AdjacentInterpolations | src/compiler/template-parser/html/html.ts:73-79 | `{{x}}{{y}}` keeps the empty chunk between them as an empty text node |
| Html.AdjacentInterpolationsExample | src/compiler/template-parser/html/html.ts:69-94 | `{{a}}{{b}}` gives interpolation `a`, text `''`, interpolation `b` |
| Html.QuotedSpaceInterpolation | src/compiler/template-parser/html/html.ts:60 | `{{' '}}` interpolates the constant `' '` |
| Html.DirectiveIf | src/compiler/template-parser/html/html.ts:181-204 | no attributes give the missing-condition error; any other failure is the not-a-property error |
| Html.DirectiveIfAccepts | src/compiler/template-parser/html/html.ts:181-197 | succeeds exactly for one value-less attribute whose key passes `^!?[a-zA-Z.]*$`, the empty key included |
| Html.DirectiveIfNegation | src/compiler/template-parser/html/html.ts:198-203 | a leading `!` is cut off and sets the negation; without it the path is resolved unchanged |
| Html.KeyClause | src/compiler/template-parser/html/html.ts:237-248 | no key clause means no key; a key given is a plain property path; every failure is a parse error at the element |
| Html.KeyClauseWithoutColon | src/compiler/template-parser/html/html.ts:238-241 | a key clause without `:` is the bad-format error |
| Html.KeyClauseOf | src/compiler/template-parser/html/html.ts:238-248 | the left side must be `key` (else the key-not-supported error with that side), and the right side must be a plain path (else the key-not-simple error) |
| Html.Binders | src/compiler/template-parser/html/html.ts:227-231 | a binder that does not start with `(` is the item alone |
| Html.BindersOfPair | src/compiler/template-parser/html/html.ts:227-229 | `(item, index)` gives both names |
| Html.LoopNeedsOf | src/compiler/template-parser/html/html.ts:220-225 | a successful loop definition contains `of` |
| Html.LoopWithoutOf | src/compiler/template-parser/html/html.ts:220-250 | a definition with neither `of` nor `;` fails when the missing iterable is resolved |
| Html.LoopOfItems | src/compiler/template-parser/html/html.ts:206-260 | `item of items` repeats over the resolved `items` with `item` and no index or key |
| Html.LoopOfPair | src/compiler/template-parser/html/html.ts:206-260 | `(item, index) of items` also binds the index |
| Html.ForDefinitionOfKeys | src/compiler/template-parser/html/html.ts:208 | the attributes `item`, `of`, `items` give the definition `item of items` |
| Html.LoopOf | src/compiler/template-parser/html/html.ts:206-260 | a success is a repeating node whose key is the key clause's path; a malformed key clause is the error, ahead of a missing `of` |
| Html.LoopOfKeyed | src/compiler/template-parser/html/html.ts:206-260 | `binder of items; key: path` repeats over `items` with the binder's names and the key `path` |
| Html.DirectiveFor | src/compiler/template-parser/html/html.ts:206-260 | a success is a repeating node keyed by the key clause of the joined definition; a malformed key clause is `w:for`'s error |
| Html.DirectiveForNeedsOf | src/compiler/template-parser/html/html.ts:206-260 | a successful `w:for` has `of` in its definition |
| Html.DirectiveForWithoutOf | src/compiler/template-parser/html/html.ts:206-260 | without `of` and `;`, `w:for` fails |
| Html.DirectiveForItems | src/compiler/template-parser/html/html.ts:206-260 | `<w:for item of items>` gives the repeating node over `items` |
| Html.DirectiveNode | src/compiler/template-parser/html/html.ts:262-272 | the lower-cased name after `w:` picks `if` or `for`; any other name is the unsupported-directive error naming it |
| Html.DirectiveNameIgnoresCase | src/compiler/template-parser/html/html.ts:263 | `W:IF` and `w:For` pick the same handlers |
| Html.ComponentValue | src/compiler/template-parser/html/html.ts:402-408 | succeeds exactly when inputs and outputs do, with the tag, attributes, inputs and outputs; an input error comes first |
| Html.ElementValue | src/compiler/template-parser/html/html.ts:410-416 | succeeds exactly when props and events do, with the tag, attributes, props and events; a prop error comes first |
| Html.ElementNodeValue | src/compiler/template-parser/html/html.ts:418-428 | a `w:` tag is handled as a directive; otherwise a tag with a dash as a component; otherwise as a plain element, errors included |
| Html.DispatchKinds | src/compiler/template-parser/html/html.ts:418-428 | a directive wins over a component, and a component over a plain element; an element node keeps its tag |
| Html.DirectiveBeforeComponent | src/compiler/template-parser/html/html.ts:418-428 | `w:my-list` is an unsupported directive, not a component |
| Html.HandleNode | src/compiler/template-parser/html/html.ts:430-443 | text gives one leaf per text node, a comment gives nothing, a child's error is the element's error, and an element gives one tree node over its children's results |
| Html.HandleNodesIsFlatten | src/compiler/template-parser/html/html.ts:434-436 | a node list succeeds exactly when every node does, and gives the concatenation of their results in order |
| Html.HandleNodesFirstError | src/compiler/template-parser/html/html.ts:434-436 | a failing list fails with the error of its first failing node |
| Html.HandleNodesAppend | src/compiler/template-parser/html/html.ts:434-436 | handling a concatenation is handling each part and concatenating |
| Html.ParseTemplate | src/compiler/template-parser/html/html.ts:445-450 | the forest is the concatenation of the roots' results, and it exists exactly when every root is handled |
| Html.ParseErrorText | src/compiler/template-parser/html/html.ts:39-42 | the text is `Parse Error (`, the line in decimal, `:`, the column in decimal, `): ` and the message |
| Html.ParseErrorTextFields | src/compiler/template-parser/html/html.ts:39-42 | the line and the column read back from their digits |
| Html.ParseErrorTextInjective | src/compiler/template-parser/html/html.ts:39-42 | two errors with the same text have the same line, column and message |
| ComponentNode.FirstMatchSpec | src/compiler/template-nodes/nodes/component-node.ts:57-66 | the first match satisfies the predicate and nothing before it does; there is none exactly when nothing satisfies it |
| ComponentNode.FirstOfFilter | src/compiler/template-nodes/nodes/component-node.ts:58-65 | the first element of the filtered set is the first match |
| ComponentNode.SuperParam | src/compiler/template-nodes/nodes/component-node.ts:9-23 | the view bindings are the attributes, then the inputs, then the outputs, and their membership is the union |
| ComponentNode.ComponentValue.constructor | src/compiler/template-nodes/nodes/component-node.ts:29-35 | keeps the tag and the three collections and sets the view bindings to their union |
| ComponentNode.ComponentValue.GetBinding | src/compiler/template-nodes/nodes/component-node.ts:57-66 | the loop gives the first view binding that satisfies the predicate, or none |
| ComponentNode.ComponentValue.GetBindingOrFail | src/compiler/template-nodes/nodes/component-node.ts:68-74 | the same binding when there is one; otherwise the error naming the tag |
| ComponentNode.ComponentValue.GetAttributeBindingByNameOrFailAsWritten | src/compiler/template-nodes/nodes/component-node.ts:76-78 | the first binding that is an attribute with a non-empty name, whatever name was asked for; otherwise the error naming the tag |
| ComponentNode.ComponentValue.GetAttributeBindingByNameOrFail | src/compiler/template-nodes/nodes/component-node.ts:76-78 | succeeds exactly when an attribute has the name, and gives the first such attribute |
| ComponentNode.ComponentValue.GetInputBindingByNameOrFail | src/compiler/template-nodes/nodes/component-node.ts:80-82 | succeeds exactly when an input has the name, and gives the first such input; otherwise the error naming the tag |
| ComponentNode.ComponentValue.GetOutputBindingByNameOrFail | src/compiler/template-nodes/nodes/component-node.ts:84-86 | the same for outputs |
| ComponentNode.InputLookupSkipsOthers | src/compiler/template-nodes/nodes/component-node.ts:80-82 | looking up an input among all bindings is looking it up among the inputs |
| ComponentNode.OutputLookupSkipsOthers | src/compiler/template-nodes/nodes/component-node.ts:84-86 | looking up an output among all bindings is looking it up among the outputs |
| ComponentNode.AttributeLookupStopsAtAttributes | src/compiler/template-nodes/nodes/component-node.ts:76-78 | an attribute lookup never reaches past the attributes |
| ComponentNode.AttributeLookupAsWrittenExample | src/compiler/template-nodes/nodes/component-node.ts:76-78 | on a component with attributes `class` then `id`, the lookup of `id` returns the `class` binding |
| ComponentNode.AttributeLookupIgnoresName | src/compiler/template-nodes/nodes/component-node.ts:76-78 | with `class` before `id`, asking for `id` gives `class` as written and `id` as intended |
| ComponentNode.ComponentValue.PrintDomInit | src/compiler/template-nodes/nodes/component-node.ts:88-92 | one line: `util.__wane__createElement('`, the tag, then `')` |
| ComponentNode.ComponentValue.ToString | src/compiler/template-nodes/nodes/component-node.ts:96-98 | `[Component] <tag>` |
| WrapAsyncCode.ExpandBody | src/compiler/codegen/wrap-async-code.ts:16-45 | the body is always a block afterwards; a block is kept and reports no change; an expression becomes one `return` statement and reports a change; an expression without parentheses `e` becomes `return e` |
| WrapAsyncCode.ExpandArrow | src/compiler/codegen/wrap-async-code.ts:16-45 | the arrow keeps its parameters and gets a block body; it reports a change exactly for an expression body |
| WrapAsyncCode.ExpandArrowIdempotent | src/compiler/codegen/wrap-async-code.ts:21-24 | a second expansion changes nothing and reports false |
| WrapAsyncCode.ExpandParenthesized | src/compiler/codegen/wrap-async-code.ts:26-30 | a parenthesised body loses exactly its outer parentheses |
| WrapAsyncCode.ExpandArrowExamples | src/compiler/codegen/wrap-async-code.ts:16-45 | `() => 42` gives `return 42`, `() => ({ life: 42 })` gives `return { life: 42 }`, and a block is unchanged |
| WrapAsyncCode.ExpandedCallback | src/compiler/codegen/wrap-async-code.ts:51-79 | reports a change exactly for an identifier, a call or an arrow; those become block-bodied arrows, an identifier or call one that forwards its arguments to the original text; anything else is unchanged |
| WrapAsyncCode.ExpandCallbackStable | src/compiler/codegen/wrap-async-code.ts:51-79 | a second expansion leaves the callback as it is, and still reports a change for it |
| WrapAsyncCode.ForwardIdentifierExample | src/compiler/codegen/wrap-async-code.ts:56-68 | `handler` becomes an arrow that returns `handler(...args)` |
| WrapAsyncCode.ForwardCallExample | src/compiler/codegen/wrap-async-code.ts:56-68 | `this.handler.bind(this)` becomes an arrow that returns `this.handler.bind(this)(...args)` |
| WrapAsyncCode.ExpandCallbackExamples | src/compiler/codegen/wrap-async-code.ts:70-77 | a block arrow is unchanged but reported; a function expression is untouched |
| WrapAsyncCode.Injected | src/compiler/codegen/wrap-async-code.ts:81-97 | the wrapper calls the original text with the arguments first, then runs the injected statements, then returns the result |
| WrapAsyncCode.InjectedKeepsCallback | src/compiler/codegen/wrap-async-code.ts:90 | the original text sits verbatim inside the first statement |
| WrapAsyncCode.ProcessSite | src/compiler/codegen/wrap-async-code.ts:136-146 | only `then` and `catch` accesses are rewritten, and their flag is the expansion's: set exactly when the callback is an identifier, a call or an arrow |
| WrapAsyncCode.SitesChangedExpands | src/compiler/codegen/wrap-async-code.ts:135-148 | a method's accesses report a change exactly when one `then` or `catch` callback is an identifier, a call or an arrow |
| WrapAsyncCode.FirstConstructor | src/compiler/codegen/wrap-async-code.ts:108 | the position of the first constructor, or none when no member is one |
| WrapAsyncCode.InjectParameter | src/compiler/codegen/wrap-async-code.ts:99-122 | without a constructor, one with the parameter becomes member 0; otherwise the parameter is appended to the first constructor and nothing else changes |
| WrapAsyncCode.InjectParameterExamples | src/compiler/codegen/wrap-async-code.ts:99-122 | no constructor, an empty one, and `foo: Foo, bar: Bar` kept in order before `private __wane__factory: any` |
| WrapAsyncCode.ProcessClass | src/compiler/codegen/wrap-async-code.ts:124-159 | the flag is whether some expansion reported a change; the factory parameter is injected then and only then |
| WrapAsyncCode.ProcessClassFlag | src/compiler/codegen/wrap-async-code.ts:128-157 | the flag holds exactly when a block method calls `.then` or `.catch` with an identifier, a call or an arrow |
| WrapAsyncCode.ProcessMembersKeepsOthers | src/compiler/codegen/wrap-async-code.ts:128-133 | constructors, properties and methods without a block are not rewritten |
| WrapAsyncCode.ProcessClassConstructors | src/compiler/codegen/wrap-async-code.ts:152-157 | the first constructor gains the factory parameter exactly once when the flag holds, or a new one comes first; all others are kept |
| WrapAsyncCode.FunctionCallbackIsWrappedOnly | src/compiler/codegen/wrap-async-code.ts:145-146 | a function-expression callback is wrapped but asks for no parameter |
| WrapAsyncCode.ClassWithoutPromises | src/compiler/codegen/wrap-async-code.ts:136-141 | a class reaching no `then` or `catch` is unchanged and reports false |
| WrapAsyncCode.MethodNamedThen | src/compiler/codegen/wrap-async-code.ts:136-141 | a method named `then` is not a promise call |
| WrapAsyncCode.CallbackSlot.ExpandArrowFunction | src/compiler/codegen/wrap-async-code.ts:16-45 | rewrites the slot to the expanded arrow and returns its flag |
| WrapAsyncCode.CallbackSlot.ExpandCallback | src/compiler/codegen/wrap-async-code.ts:51-79 | rewrites the slot to the expanded callback and returns its flag |
| WrapAsyncCode.CallbackSlot.InjectCodeInExpandedFunction | src/compiler/codegen/wrap-async-code.ts:81-97 | rewrites the slot to the wrapper |
| WrapAsyncCode.ClassDeclaration.InjectConstructorParam | src/compiler/codegen/wrap-async-code.ts:99-122 | the members become the injected list, with the `scope name: type` text |
| WrapAsyncCode.ClassDeclaration.ProcessClassDeclaration | src/compiler/codegen/wrap-async-code.ts:124-159 | the nested loops leave the processed members and return the flag |
| WrapAsyncCode.ProcessOneSite | src/compiler/codegen/wrap-async-code.ts:136-146 | one pass of the inner loop skips other accesses and expands then wraps a `then` or `catch` callback, as the site rewrite says |
| WrapAsyncCode.ProcessMethodSites | src/compiler/codegen/wrap-async-code.ts:135-148 | the inner loop rewrites every site and collects the flag |
| WrapAsyncCode.ProcessProject | src/compiler/codegen/wrap-async-code.ts:161-173 | every class is processed |

## Left out

- `himalaya.parse` and the `console.error` in `parseTemplate`: the markup tree is an input datatype, and an error is returned instead of thrown and logged.
- The `Unknown HTML node type` error of `handleNodeRecursively`: the markup datatype has only text, element and comment nodes, so it cannot occur.
- The markup node a template node keeps a reference to is not kept.
- The `assert` calls in `getInputName`, `getOutputName` and `getAttributeName` are preconditions.
- `getPropName` is never called.
- `toLowerCase` lowers only ASCII letters, and strings are sequences of characters, not UTF-16 code units.
- Html.LoopWithoutOf: the `TypeError` message of a missing iterable depends on the JavaScript engine. The model uses one fixed message.
- The values of `w:for` attributes are ignored, as in the code.
- `getComponentClassName` calls `pascal` from a foreign library.
- `printDomInit`'s `FactoryAnalyzer` argument is unused.
- `isPureDom` and `domNodesCount` are constants of the class. `domNodesCount` is a public mutable field in the code but is never reassigned.
- The getters return the class's constant fields, which the constructor's contract pins down.
- Bindings are sequences, not sets. The code's `Set`s hold fresh objects, so they never merge entries.
- ts-simple-ast:
  - node kinds and the lookup of argument lists are not modelled;
  - the layout and indentation the code writer produces are replaced by statement lists and a one-line text rendering (`Text`);
  - a class's constructors are looked up among its members, not among nested descendants, and nested `then` calls inside callbacks are independent sites. Where a nested access lies inside a callback that the rewrite has already replaced, the code works on a node that has been forgotten; the model rewrites it as an ordinary site, so its result there is not the code's.
- The rewriter model works on values copied out of each argument slot and written back. Node identity and the forgetting of replaced nodes are not modelled.
- `injectCode` receives the argument-list node. The model passes it only the expanded callback, so the injected statements depend only on that callback.
- `console.assert` on the argument count does not throw. `WellFormed` and `SitesFine` are preconditions requiring every `then`/`catch` access to have one argument.
- The last test of the rewriter's test suite expects a constructor and injected text that the code does not produce, so it is not encoded.

## Findings

| source | as written | input that shows it | evidently intended | confidence | as-written member | corrected member |
|---|---|---|---|---|---|---|
| src/compiler/template-nodes/nodes/component-node.ts:76-78 | the predicate checks that the binding's own name is truthy and never compares it with `name` | bindings `class` then `id`, asking for `id`: the `class` binding is returned | return the first attribute binding whose name equals `name` | not executed | ComponentNode.ComponentValue.GetAttributeBindingByNameOrFailAsWritten | ComponentNode.ComponentValue.GetAttributeBindingByNameOrFail |
