/**
 * The rewriter that makes the callbacks of promises observable
 * (src/compiler/codegen/wrap-async-code.ts). In every method of a class, the
 * single argument of each `.then(...)` and `.catch(...)` call is turned into
 * an arrow function with a block body and then wrapped, so that injected
 * statements run after the original callback while its result is still
 * returned; a class in which some callback was expanded gains one constructor
 * parameter.
 *
 * The syntax tree is modelled at the level of the nodes the rewriter looks at
 * and the text it writes: a callback argument, the members of a class, the
 * parameters of a constructor.
 */
module WrapAsyncCode {

  import opened Wrappers
  import opened JsStrings

  /** The body of an arrow function: a block of statements, or an expression
      (its text, and whether it is a parenthesised expression). */
  datatype Body =
    | Block(statements: seq<string>)
    | Expression(text: string, parenthesized: bool)

  /** The single argument of a `.then` or `.catch` call. */
  datatype Callback =
    | Identifier(text: string)
    | Call(text: string)
    | Arrow(parameters: string, body: Body)
    | FunctionExpr(text: string)
    | Other(text: string)

  /** The source text of a callback, up to layout. */
  function Text(c: Callback): string {
    match c
    case Identifier(t) => t
    case Call(t) => t
    case Arrow(ps, Block(stmts)) => ps + " => { " + Join(stmts, "; ") + " }"
    case Arrow(ps, Expression(e, _)) => ps + " => " + e
    case FunctionExpr(t) => t
    case Other(t) => t
  }

  const RestParameters := "(...args: any[])"
  const ResultName := "__wane__result"

  // ---------------------------------------------------------------------------
  // Expanding arrow functions and callbacks

  /** The body `expandArrowFunction` leaves: a block stays as it is; an
      expression `e` becomes `{ return e }`, with one pair of parentheses
      taken off a parenthesised expression. The flag says whether anything
      was rewritten. */
  function ExpandBody(b: Body): (r: (Body, bool))
    ensures r.0.Block?
    ensures r.1 <==> b.Expression?
    ensures b.Block? ==> r.0 == b
    ensures b.Expression? ==> |r.0.statements| == 1 && StartsWith(r.0.statements[0], "return ")
    ensures b.Expression? && !b.parenthesized ==> r.0 == Block(["return " + b.text])
  {
    match b
    case Block(_) => (b, false)
    case Expression(text, parenthesized) =>
      var value := if parenthesized then Slice(text, 1, -1) else text;
      (Block(["return " + value]), true)
  }

  /** `expandArrowFunction` on the value of an arrow function: its parameters are kept. */
  function ExpandArrow(c: Callback): (r: (Callback, bool))
    requires c.Arrow?
    ensures r.0.Arrow? && r.0.parameters == c.parameters && r.0.body.Block?
    ensures r.1 <==> c.body.Expression?
  {
    var (body, changed) := ExpandBody(c.body);
    (Arrow(c.parameters, body), changed)
  }

  /** Expanding an expanded arrow function changes nothing and reports so. */
  lemma ExpandArrowIdempotent(c: Callback)
    requires c.Arrow?
    ensures ExpandArrow(ExpandArrow(c).0) == (ExpandArrow(c).0, false)
  {
  }

  /** `() => 42` becomes `() => { return 42 }`, and `() => ({ life: 42 })`
      returns the object literal without its parentheses. */
  lemma ExpandArrowExamples()
    ensures ExpandArrow(Arrow("()", Expression("42", false))) == (Arrow("()", Block(["return 42"])), true)
    ensures ExpandArrow(Arrow("()", Expression("({ life: 42 })", true))) == (Arrow("()", Block(["return { life: 42 }"])), true)
    ensures ExpandArrow(Arrow("()", Block(["return 42"]))) == (Arrow("()", Block(["return 42"])), false)
  {
    assert "return " + "42" == "return 42";
    assert "(" + "{ life: 42 }" + ")" == "({ life: 42 })";
    assert "return " + "{ life: 42 }" == "return { life: 42 }";
    ExpandParenthesized("()", "{ life: 42 }");
  }

  /** A parenthesised body loses exactly its outer parentheses. */
  lemma ExpandParenthesized(parameters: string, e: string)
    ensures ExpandArrow(Arrow(parameters, Expression("(" + e + ")", true))) == (Arrow(parameters, Block(["return " + e])), true)
  {
    var text := "(" + e + ")";
    assert Slice(text, 1, -1) == text[1..|text| - 1] == e;
  }

  /** The wrapper an identifier or call expression becomes: it forwards its
      arguments and returns the callback's result. */
  function Forwarder(text: string): Callback {
    Arrow(RestParameters, Block(["return " + text + "(...args)"]))
  }

  /** `expandCallback` on the value of the argument. */
  function ExpandedCallback(c: Callback): (r: (Callback, bool))
    ensures r.1 <==> c.Identifier? || c.Call? || c.Arrow?
    ensures !r.1 ==> r.0 == c
    ensures r.1 ==> r.0.Arrow? && r.0.body.Block?
    ensures (c.Identifier? || c.Call?) ==> r.0 == Forwarder(Text(c))
    ensures c.Arrow? ==> r.0 == ExpandArrow(c).0
  {
    match c
    case Identifier(t) => (Forwarder(t), true)
    case Call(t) => (Forwarder(t), true)
    case Arrow(_, _) => (ExpandArrow(c).0, true)
    case FunctionExpr(_) => (c, false)
    case Other(_) => (c, false)
  }

  /** A second expansion leaves the callback as the first one left it,
      though it still reports a rewrite for an arrow function. */
  lemma ExpandCallbackStable(c: Callback)
    ensures ExpandedCallback(ExpandedCallback(c).0).0 == ExpandedCallback(c).0
    ensures ExpandedCallback(c).1 ==> ExpandedCallback(ExpandedCallback(c).0).1
  {
    if c.Arrow? {
      ExpandArrowIdempotent(c);
    }
  }

  /** An identifier such as `handler` is forwarded with its text kept. */
  lemma ForwardIdentifierExample()
    ensures ExpandedCallback(Identifier("handler")) == (Arrow(RestParameters, Block(["return handler(...args)"])), true)
  {
    var line := "return " + "handler" + "(...args)";
    assert line == "return handler(...args)";
    assert Forwarder("handler") == Arrow(RestParameters, Block([line]));
  }

  /** A call such as `this.handler.bind(this)` is forwarded with its text kept. */
  lemma ForwardCallExample()
    ensures ExpandedCallback(Call("this.handler.bind(this)"))
         == (Arrow(RestParameters, Block(["return this.handler.bind(this)(...args)"])), true)
  {
    var head := "return " + "this.handler.bind(this)";
    assert head == "return this.handler.bind(this)";
    var line := head + "(...args)";
    assert line == "return this.handler.bind(this)(...args)";
    assert Forwarder("this.handler.bind(this)") == Arrow(RestParameters, Block([line]));
  }

  /** A block-bodied arrow is kept but reported; a function expression is untouched. */
  lemma ExpandCallbackExamples()
    ensures ExpandedCallback(Arrow("()", Block(["return 42"]))) == (Arrow("()", Block(["return 42"])), true)
    ensures ExpandedCallback(FunctionExpr("function () { return 42 }")) == (FunctionExpr("function () { return 42 }"), false)
  {
  }

  // ---------------------------------------------------------------------------
  // Injecting statements after a callback

  /** `injectCodeInExpandedFunction`: the original callback is called with
      the arguments, the injected statements follow, and its result is returned. */
  function Injected(c: Callback, injected: seq<string>): (r: Callback)
    ensures r.Arrow? && r.parameters == RestParameters && r.body.Block?
    ensures var stmts := r.body.statements;
      && |stmts| == |injected| + 2
      && stmts[0] == "const " + ResultName + " = (" + Text(c) + ")(...args)"
      && stmts[1..|stmts| - 1] == injected
      && stmts[|stmts| - 1] == "return " + ResultName
  {
    var stmts := ["const " + ResultName + " = (" + Text(c) + ")(...args)"] + injected + ["return " + ResultName];
    assert stmts[1..|stmts| - 1] == injected;
    Arrow(RestParameters, Block(stmts))
  }

  /** The original callback can be read back from the first injected statement. */
  lemma InjectedKeepsCallback(c: Callback, injected: seq<string>)
    ensures var first := Injected(c, injected).body.statements[0];
      var prefix := "const " + ResultName + " = (";
      |first| == |prefix| + |Text(c)| + 10 && first[|prefix|..|prefix| + |Text(c)|] == Text(c)
  {
    var prefix := "const " + ResultName + " = (";
    var first := prefix + Text(c) + ")(...args)";
    assert first[|prefix|..|prefix| + |Text(c)|] == Text(c);
  }

  // ---------------------------------------------------------------------------
  // Classes

  /** A property access inside a method: the accessed name and, when it is
      called with one argument, that argument. */
  datatype Site = Site(name: string, argument: Option<Callback>)

  datatype Member =
    | Constructor(parameters: seq<string>)
    | Method(name: string, hasBlock: bool, sites: seq<Site>)
    | Property(text: string)

  predicate IsPromiseSite(s: Site) {
    s.name == "then" || s.name == "catch"
  }

  /** Every `.then` and `.catch` a block method holds is called with one argument. */
  predicate WellFormed(members: seq<Member>) {
    forall i, j ::
      (0 <= i < |members| && members[i].Method? && members[i].hasBlock
       && 0 <= j < |members[i].sites| && IsPromiseSite(members[i].sites[j]))
      ==> members[i].sites[j].argument.Some?
  }

  /** Whether rewriting a site reports a change: a `then` or `catch` access
      whose callback is an identifier, a call or an arrow function. */
  predicate Expands(s: Site) {
    && IsPromiseSite(s) && s.argument.Some?
    && (s.argument.value.Identifier? || s.argument.value.Call? || s.argument.value.Arrow?)
  }

  /** What one site becomes: a promise callback is expanded and then wrapped
      around the statements `inject` gives for it; other sites are untouched. */
  function ProcessSite(s: Site, inject: Callback -> seq<string>): (r: (Site, bool))
    requires IsPromiseSite(s) ==> s.argument.Some?
    ensures !IsPromiseSite(s) ==> r == (s, false)
    ensures IsPromiseSite(s) ==> r.0.name == s.name && r.1 == ExpandedCallback(s.argument.value).1
    ensures r.1 == Expands(s)
  {
    if !IsPromiseSite(s) then (s, false)
    else
      var (expanded, changed) := ExpandedCallback(s.argument.value);
      (Site(s.name, Some(Injected(expanded, inject(expanded)))), changed)
  }

  predicate SitesFine(sites: seq<Site>) {
    forall j :: 0 <= j < |sites| && IsPromiseSite(sites[j]) ==> sites[j].argument.Some?
  }

  function ProcessSites(sites: seq<Site>, inject: Callback -> seq<string>): (r: seq<Site>)
    requires SitesFine(sites)
    ensures |r| == |sites|
  {
    seq(|sites|, j requires 0 <= j < |sites| && SitesFine(sites) => ProcessSite(sites[j], inject).0)
  }

  /** Whether some site of the list asked for the constructor parameter. */
  predicate SitesChanged(sites: seq<Site>, inject: Callback -> seq<string>)
    requires SitesFine(sites)
  {
    exists j :: 0 <= j < |sites| && ProcessSite(sites[j], inject).1
  }

  /** A method's sites report a change exactly when one of them expands. */
  lemma SitesChangedExpands(sites: seq<Site>, inject: Callback -> seq<string>)
    requires SitesFine(sites)
    ensures SitesChanged(sites, inject) <==> exists j :: 0 <= j < |sites| && Expands(sites[j])
  {
    if SitesChanged(sites, inject) {
      var j :| 0 <= j < |sites| && ProcessSite(sites[j], inject).1;
      assert Expands(sites[j]);
    }
    if exists j :: 0 <= j < |sites| && Expands(sites[j]) {
      var j :| 0 <= j < |sites| && Expands(sites[j]);
      assert ProcessSite(sites[j], inject).1;
    }
  }

  /** What one member becomes: only methods with a block are visited. */
  function ProcessMember(m: Member, inject: Callback -> seq<string>): (r: (Member, bool))
    requires m.Method? && m.hasBlock ==> SitesFine(m.sites)
    ensures !(m.Method? && m.hasBlock) ==> r == (m, false)
  {
    if m.Method? && m.hasBlock then
      (Method(m.name, true, ProcessSites(m.sites, inject)), SitesChanged(m.sites, inject))
    else (m, false)
  }

  lemma WellFormedMember(members: seq<Member>, i: nat)
    requires WellFormed(members) && i < |members|
    ensures members[i].Method? && members[i].hasBlock ==> SitesFine(members[i].sites)
  {
  }

  function ProcessMembers(members: seq<Member>, inject: Callback -> seq<string>): (r: seq<Member>)
    requires WellFormed(members)
    ensures |r| == |members|
  {
    seq(|members|, i requires 0 <= i < |members| && WellFormed(members) => ProcessMember(members[i], inject).0)
  }

  predicate MembersChanged(members: seq<Member>, inject: Callback -> seq<string>)
    requires WellFormed(members)
  {
    exists i :: 0 <= i < |members| && ProcessMember(members[i], inject).1
  }

  /** `${scope ? scope + ' ' : ''}${name}: ${type}`. */
  function ParameterText(scope: Option<string>, name: string, typeName: string): string {
    (if scope.Some? && scope.value != "" then scope.value + " " else "") + name + ": " + typeName
  }

  const FactoryParameter := ParameterText(Some("private"), "__wane__factory", "any")

  /** The position of the first constructor among the members. */
  function FirstConstructor(members: seq<Member>): (r: Option<nat>)
    ensures r.Some? ==> r.value < |members| && members[r.value].Constructor?
                        && forall i :: 0 <= i < r.value ==> !members[i].Constructor?
    ensures r.None? ==> forall i :: 0 <= i < |members| ==> !members[i].Constructor?
  {
    if members == [] then None
    else if members[0].Constructor? then Some(0)
    else
      var r := FirstConstructor(members[1..]);
      if r.Some? then Some(r.value + 1) else None
  }

  /** `injectConstructorParam`: a constructor with the parameter becomes the
      first member when there is none; otherwise the parameter is appended to
      the parameters of the first constructor. */
  function InjectParameter(members: seq<Member>, parameter: string): (r: seq<Member>)
    ensures FirstConstructor(members).None? ==> r == [Constructor([parameter])] + members
    ensures FirstConstructor(members).Some? ==>
      var k := FirstConstructor(members).value;
      && |r| == |members|
      && r[k] == Constructor(members[k].parameters + [parameter])
      && forall i :: 0 <= i < |members| && i != k ==> r[i] == members[i]
  {
    match FirstConstructor(members)
    case None => [Constructor([parameter])] + members
    case Some(k) => members[k := Constructor(members[k].parameters + [parameter])]
  }

  /** The three cases of a constructor: none, one without parameters and
      one with `foo: Foo, bar: Bar`, whose order is kept. */
  lemma InjectParameterExamples()
    ensures FactoryParameter == "private __wane__factory: any"
    ensures InjectParameter([Property("prop1 = 1")], FactoryParameter)
         == [Constructor(["private __wane__factory: any"]), Property("prop1 = 1")]
    ensures InjectParameter([Constructor([])], FactoryParameter) == [Constructor(["private __wane__factory: any"])]
    ensures InjectParameter([Constructor(["foo: Foo", "bar: Bar"])], FactoryParameter)
         == [Constructor(["foo: Foo", "bar: Bar", "private __wane__factory: any"])]
  {
    assert FactoryParameter == "private" + " " + "__wane__factory" + ": " + "any";
    assert FactoryParameter == "private __wane__factory: any";
    var withParameters := ["foo: Foo", "bar: Bar"];
    assert (withParameters + [FactoryParameter])[2] == FactoryParameter;
    var noConstructor := [Property("prop1 = 1")];
    assert noConstructor[1..] == [];
    assert FirstConstructor(noConstructor) == None;
    assert FirstConstructor([Constructor(["foo: Foo", "bar: Bar"])]) == Some(0);
    assert FirstConstructor([Constructor([])]) == Some(0);
    assert [] + [FactoryParameter] == [FactoryParameter];
    assert withParameters + [FactoryParameter] == ["foo: Foo", "bar: Bar", "private __wane__factory: any"];
  }

  /** `processClassDeclaration` on the members: every visited callback is
      rewritten, and the factory parameter is injected once when some
      callback was expanded. */
  function ProcessClass(members: seq<Member>, inject: Callback -> seq<string>): (r: (seq<Member>, bool))
    requires WellFormed(members)
    ensures r.1 <==> MembersChanged(members, inject)
    ensures r.0 == if r.1 then InjectParameter(ProcessMembers(members, inject), FactoryParameter)
                   else ProcessMembers(members, inject)
  {
    var processed := ProcessMembers(members, inject);
    if MembersChanged(members, inject) then (InjectParameter(processed, FactoryParameter), true)
    else (processed, false)
  }

  /** The constructor parameter is asked for exactly when a block method
      calls `.then` or `.catch` with an identifier, a call or an arrow function. */
  lemma ProcessClassFlag(members: seq<Member>, inject: Callback -> seq<string>)
    requires WellFormed(members)
    ensures ProcessClass(members, inject).1 <==>
      exists i, j :: 0 <= i < |members| && members[i].Method? && members[i].hasBlock
        && 0 <= j < |members[i].sites| && Expands(members[i].sites[j])
  {
    if ProcessClass(members, inject).1 {
      var i :| 0 <= i < |members| && ProcessMember(members[i], inject).1;
      var sites := members[i].sites;
      SitesChangedExpands(sites, inject);
      var j :| 0 <= j < |sites| && Expands(sites[j]);
    }
    if exists i, j :: 0 <= i < |members| && members[i].Method? && members[i].hasBlock
        && 0 <= j < |members[i].sites| && Expands(members[i].sites[j])
    {
      var i, j :| 0 <= i < |members| && members[i].Method? && members[i].hasBlock
        && 0 <= j < |members[i].sites| && Expands(members[i].sites[j]);
      SitesChangedExpands(members[i].sites, inject);
      assert ProcessMember(members[i], inject).1;
    }
  }


  /** Processing a class rewrites no constructor and no other member than
      block methods, so the only constructor change is the factory parameter. */
  lemma ProcessMembersKeepsOthers(members: seq<Member>, inject: Callback -> seq<string>)
    requires WellFormed(members)
    ensures forall i :: 0 <= i < |members| && !(members[i].Method? && members[i].hasBlock) ==>
      ProcessMembers(members, inject)[i] == members[i]
    ensures forall i :: 0 <= i < |members| ==>
      (ProcessMembers(members, inject)[i].Constructor? <==> members[i].Constructor?)
    ensures FirstConstructor(ProcessMembers(members, inject)) == FirstConstructor(members)
  {
    var processed := ProcessMembers(members, inject);
    assert forall i :: 0 <= i < |members| ==> (processed[i].Constructor? <==> members[i].Constructor?);
    SameConstructorPositions(members, processed);
  }

  lemma {:induction false} SameConstructorPositions(a: seq<Member>, b: seq<Member>)
    requires |a| == |b| && forall i :: 0 <= i < |a| ==> (a[i].Constructor? <==> b[i].Constructor?)
    requires forall i :: 0 <= i < |a| && a[i].Constructor? ==> a[i] == b[i]
    ensures FirstConstructor(a) == FirstConstructor(b)
    decreases |a|
  {
    if a != [] && !a[0].Constructor? {
      SameConstructorPositions(a[1..], b[1..]);
    }
  }

  /** The constructors a processed class ends with: the first one gains the
      factory parameter, or a new one comes first, exactly when a callback
      was expanded; every other constructor is kept. */
  lemma ProcessClassConstructors(members: seq<Member>, inject: Callback -> seq<string>)
    requires WellFormed(members)
    ensures var (r, flag) := ProcessClass(members, inject);
      match FirstConstructor(members)
      case None =>
        (flag ==> r == [Constructor([FactoryParameter])] + ProcessMembers(members, inject))
        && (!flag ==> FirstConstructor(r).None?)
      case Some(k) =>
        && |r| == |members|
        && r[k] == (if flag then Constructor(members[k].parameters + [FactoryParameter]) else members[k])
        && forall i :: 0 <= i < |members| && i != k && members[i].Constructor? ==> r[i] == members[i]
  {
    ProcessMembersKeepsOthers(members, inject);
  }

  /** A callback written as a function expression is still wrapped, but it
      does not by itself ask for the constructor parameter. */
  lemma FunctionCallbackIsWrappedOnly(name: string, text: string, inject: Callback -> seq<string>)
    ensures var members := [Method(name, true, [Site("then", Some(FunctionExpr(text)))])];
      && WellFormed(members)
      && ProcessClass(members, inject)
         == ([Method(name, true, [Site("then", Some(Injected(FunctionExpr(text), inject(FunctionExpr(text)))))])], false)
  {
    var members := [Method(name, true, [Site("then", Some(FunctionExpr(text)))])];
    var sites := members[0].sites;
    assert !ProcessSite(sites[0], inject).1;
    assert !SitesChanged(sites, inject);
    assert !MembersChanged(members, inject);
    var expanded := ExpandedCallback(FunctionExpr(text)).0;
    assert ProcessSites(sites, inject) == [Site("then", Some(Injected(expanded, inject(expanded))))];
    assert ProcessMembers(members, inject) == [Method(name, true, ProcessSites(sites, inject))];
  }

  /** A class whose block methods reach no `.then` or `.catch` is left as it is. */
  lemma ClassWithoutPromises(members: seq<Member>, inject: Callback -> seq<string>)
    requires forall i, j ::
      (0 <= i < |members| && members[i].Method? && members[i].hasBlock && 0 <= j < |members[i].sites|)
      ==> !IsPromiseSite(members[i].sites[j])
    ensures WellFormed(members)
    ensures ProcessClass(members, inject) == (members, false)
  {
    var processed := ProcessMembers(members, inject);
    forall i | 0 <= i < |members| ensures processed[i] == members[i] {
      var m := members[i];
      if m.Method? && m.hasBlock {
        assert ProcessSites(m.sites, inject) == m.sites;
      }
    }
    assert processed == members;
  }

  /** `export class Foo { p1 = 1; then () { ... } }` has a method named
      `then` but no `.then` call, so it is untouched. */
  lemma MethodNamedThen(inject: Callback -> seq<string>)
    ensures var members := [Property("p1 = 1"), Method("then", true, [Site("p1", None)])];
      WellFormed(members) && ProcessClass(members, inject) == (members, false)
  {
    var members := [Property("p1 = 1"), Method("then", true, [Site("p1", None)])];
    ClassWithoutPromises(members, inject);
  }

  // ---------------------------------------------------------------------------
  // The rewriting itself, on the live tree

  /** The argument list of a `.then` or `.catch` call, holding its one callback. */
  class CallbackSlot {
    var node: Callback

    constructor (node: Callback)
      ensures this.node == node
    {
      this.node := node;
    }

    /** `expandArrowFunction`: rewrites the body of the arrow in place. */
    method ExpandArrowFunction() returns (changed: bool)
      requires node.Arrow?
      modifies this
      ensures (node, changed) == ExpandArrow(old(node))
    {
      if node.body.Block? {
        return false;
      }
      var value := if node.body.parenthesized then Slice(node.body.text, 1, -1) else node.body.text;
      node := Arrow(node.parameters, Block(["return " + value]));
      return true;
    }

    /** `expandCallback`. */
    method ExpandCallback() returns (changed: bool)
      modifies this
      ensures (node, changed) == ExpandedCallback(old(node))
    {
      if node.Call? || node.Identifier? {
        node := Arrow(RestParameters, Block(["return " + Text(node) + "(...args)"]));
        return true;
      }
      if node.Arrow? {
        var _ := ExpandArrowFunction();
        return true;
      }
      return false;
    }

    /** `injectCodeInExpandedFunction`. */
    method InjectCodeInExpandedFunction(injected: seq<string>)
      modifies this
      ensures node == Injected(old(node), injected)
    {
      var stmts := ["const " + ResultName + " = (" + Text(node) + ")(...args)"] + injected + ["return " + ResultName];
      node := Arrow(RestParameters, Block(stmts));
    }
  }

  /** A class declaration whose members the rewriter edits. */
  class ClassDeclaration {
    var members: seq<Member>

    constructor (members: seq<Member>)
      ensures this.members == members
    {
      this.members := members;
    }

    /** `injectConstructorParam`. */
    method InjectConstructorParam(scope: Option<string>, name: string, typeName: string)
      modifies this
      ensures members == InjectParameter(old(members), ParameterText(scope, name, typeName))
    {
      var text := ParameterText(scope, name, typeName);
      var k := FirstConstructor(members);
      if k.None? {
        members := [Constructor([text])] + members;
        return;
      }
      members := members[k.value := Constructor(members[k.value].parameters + [text])];
    }

    /** `processClassDeclaration`: visits the promise callbacks of every block
      method, then injects the factory parameter when one was expanded. */
    method ProcessClassDeclaration(inject: Callback -> seq<string>) returns (injected: bool)
      requires WellFormed(members)
      modifies this
      ensures (members, injected) == ProcessClass(old(members), inject)
    {
      ghost var original := members;
      var needsInjection := false;
      for i := 0 to |members|
        invariant |members| == |original|
        invariant forall k :: 0 <= k < i ==> members[k] == ProcessMember(original[k], inject).0
        invariant forall k :: i <= k < |members| ==> members[k] == original[k]
        invariant needsInjection <==> exists k :: 0 <= k < i && ProcessMember(original[k], inject).1
      {
        WellFormedMember(original, i);
        var m, changed := ProcessOneMember(members[i], inject);
        members := members[i := m];
        needsInjection := changed || needsInjection;
      }
      assert members == ProcessMembers(original, inject);
      if needsInjection {
        InjectConstructorParam(Some("private"), "__wane__factory", "any");
        return true;
      }
      return false;
    }
  }

  /** One step of the outer loop of `processClassDeclaration`: methods
      without a block are skipped. */
  method ProcessOneMember(m: Member, inject: Callback -> seq<string>) returns (r: Member, changed: bool)
    requires m.Method? && m.hasBlock ==> SitesFine(m.sites)
    ensures (r, changed) == ProcessMember(m, inject)
  {
    if !(m.Method? && m.hasBlock) {
      return m, false;
    }
    var sites;
    sites, changed := ProcessMethodSites(m.sites, inject);
    r := Method(m.name, true, sites);
  }

  /** The body of the inner loop of `processClassDeclaration`: a `then` or
      `catch` access has its callback expanded, then the injected code added
      after it; any other access is skipped. */
  method ProcessOneSite(s: Site, inject: Callback -> seq<string>) returns (site: Site, expanded: bool)
    requires IsPromiseSite(s) ==> s.argument.Some?
    ensures (site, expanded) == ProcessSite(s, inject)
  {
    if s.name != "then" && s.name != "catch" {
      return s, false;
    }
    var slot := new CallbackSlot(s.argument.value);
    expanded := slot.ExpandCallback();
    slot.InjectCodeInExpandedFunction(inject(slot.node));
    site := Site(s.name, Some(slot.node));
  }

  /** The inner loop of `processClassDeclaration` over the property accesses of one method. */
  method ProcessMethodSites(sites: seq<Site>, inject: Callback -> seq<string>) returns (r: seq<Site>, changed: bool)
    requires SitesFine(sites)
    ensures r == ProcessSites(sites, inject) && changed == SitesChanged(sites, inject)
  {
    r := sites;
    changed := false;
    for j := 0 to |sites|
      invariant |r| == |sites|
      invariant forall k :: 0 <= k < j ==> r[k] == ProcessSite(sites[k], inject).0
      invariant forall k :: j <= k < |sites| ==> r[k] == sites[k]
      invariant changed <==> exists k :: 0 <= k < j && Expands(sites[k])
    {
      var site, expanded := ProcessOneSite(sites[j], inject);
      changed := expanded || changed;
      r := r[j := site];
    }
    SitesChangedExpands(sites, inject);
  }

  /** `processProject`, over the classes of all source files. */
  method ProcessProject(classes: seq<ClassDeclaration>, inject: Callback -> seq<string>)
    requires forall i, j :: 0 <= i < j < |classes| ==> classes[i] != classes[j]
    requires forall i :: 0 <= i < |classes| ==> WellFormed(classes[i].members)
    modifies set c | c in classes
    ensures forall i :: 0 <= i < |classes| ==> classes[i].members == ProcessClass(old(classes[i].members), inject).0
  {
    for i := 0 to |classes|
      invariant forall k :: 0 <= k < i ==> classes[k].members == ProcessClass(old(classes[k].members), inject).0
      invariant forall k :: i <= k < |classes| ==> classes[k].members == old(classes[k].members)
    {
      var _ := classes[i].ProcessClassDeclaration(inject);
    }
  }
}
