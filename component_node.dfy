/**
 * The template node of a Wane component used inside a template
 * (src/compiler/template-nodes/nodes/component-node.ts): the tag, the three
 * kinds of bindings the parser collected for it, and lookups over all of them.
 */
module ComponentNode {

  import opened Wrappers
  import opened ViewModel

  /** The first binding that satisfies `p`, if any. */
  function FirstMatch(s: seq<ViewBinding>, p: ViewBinding -> bool): Option<ViewBinding> {
    if s == [] then None
    else if p(s[0]) then Some(s[0])
    else FirstMatch(s[1..], p)
  }

  /** The first match satisfies `p` and nothing before it does; there is
      none exactly when no binding satisfies `p`. */
  lemma {:induction false} FirstMatchSpec(s: seq<ViewBinding>, p: ViewBinding -> bool)
    ensures FirstMatch(s, p).None? <==> forall k :: 0 <= k < |s| ==> !p(s[k])
    ensures FirstMatch(s, p).Some? ==>
      exists i :: 0 <= i < |s| && s[i] == FirstMatch(s, p).value && p(s[i]) && forall j :: 0 <= j < i ==> !p(s[j])
    decreases |s|
  {
    if s != [] && !p(s[0]) {
      var t := s[1..];
      FirstMatchSpec(t, p);
      var r := FirstMatch(t, p);
      if r.Some? {
        var i :| 0 <= i < |t| && t[i] == r.value && p(t[i]) && forall j :: 0 <= j < i ==> !p(t[j]);
        assert s[i + 1] == r.value;
        forall j | 0 <= j < i + 1 ensures !p(s[j]) {
          if j > 0 {
            assert s[j] == t[j - 1];
          }
        }
      } else {
        forall k | 0 <= k < |s| ensures !p(s[k]) {
          if k > 0 {
            assert s[k] == t[k - 1];
          }
        }
      }
    }
  }

  /** A binding that satisfies `p` with none before it doing so is the first match. */
  lemma {:induction false} FirstMatchAt(s: seq<ViewBinding>, p: ViewBinding -> bool, n: nat)
    requires n < |s| && p(s[n]) && forall j :: 0 <= j < n ==> !p(s[j])
    ensures FirstMatch(s, p) == Some(s[n])
    decreases n
  {
    if n > 0 {
      assert !p(s[0]);
      assert s[1..][n - 1] == s[n];
      FirstMatchAt(s[1..], p, n - 1);
    }
  }

  /** The bindings that satisfy `p`, in order. */
  function Filter(s: seq<ViewBinding>, p: ViewBinding -> bool): seq<ViewBinding> {
    if s == [] then [] else Filter(s[..|s| - 1], p) + (if p(s[|s| - 1]) then [s[|s| - 1]] else [])
  }

  /** Looking one binding further only matters when nothing matched before it. */
  lemma {:induction false} FirstMatchAppend(s: seq<ViewBinding>, x: ViewBinding, p: ViewBinding -> bool)
    ensures FirstMatch(s + [x], p) == if FirstMatch(s, p).Some? then FirstMatch(s, p) else if p(x) then Some(x) else None
    decreases |s|
  {
    if s == [] {
      assert [] + [x] == [x];
      assert [x][1..] == [];
    } else {
      assert (s + [x])[0] == s[0];
      assert (s + [x])[1..] == s[1..] + [x];
      FirstMatchAppend(s[1..], x, p);
    }
  }

  /** The first match is the head of all matches. */
  lemma {:induction false} FirstOfFilter(s: seq<ViewBinding>, p: ViewBinding -> bool)
    ensures FirstMatch(s, p) == if Filter(s, p) == [] then None else Some(Filter(s, p)[0])
    decreases |s|
  {
    if s != [] {
      var init, x := s[..|s| - 1], s[|s| - 1];
      assert s == init + [x];
      FirstOfFilter(init, p);
      FirstMatchAppend(init, x, p);
      if Filter(init, p) != [] {
        assert Filter(s, p)[0] == Filter(init, p)[0];
      }
    }
  }

  /** `getSuperParam`: the attribute, input and output bindings, in that order. */
  method SuperParam(attributes: seq<ViewBinding>, inputs: seq<ViewBinding>, outputs: seq<ViewBinding>)
    returns (bindings: seq<ViewBinding>)
    ensures bindings == attributes + inputs + outputs
    ensures forall b :: b in bindings <==> b in attributes || b in inputs || b in outputs
  {
    bindings := [];
    for i := 0 to |attributes|
      invariant bindings == attributes[..i]
    {
      bindings := bindings + [attributes[i]];
    }
    assert attributes[..|attributes|] == attributes;
    for i := 0 to |inputs|
      invariant bindings == attributes + inputs[..i]
    {
      bindings := bindings + [inputs[i]];
    }
    assert inputs[..|inputs|] == inputs;
    for i := 0 to |outputs|
      invariant bindings == attributes + inputs + outputs[..i]
    {
      bindings := bindings + [outputs[i]];
    }
    assert outputs[..|outputs|] == outputs;
  }

  predicate AllAttributes(s: seq<ViewBinding>) {
    forall k :: 0 <= k < |s| ==> s[k].AttributeBinding?
  }

  predicate AllInputs(s: seq<ViewBinding>) {
    forall k :: 0 <= k < |s| ==> s[k].ComponentInputBinding?
  }

  predicate AllOutputs(s: seq<ViewBinding>) {
    forall k :: 0 <= k < |s| ==> s[k].ComponentOutputBinding?
  }

  function MissingBindingMessage(tagName: string): string {
    "Cannot find binding for component node \"" + tagName + "\"."
  }

  /** An attribute binding with the given name. */
  function AttributeNamed(name: string): ViewBinding -> bool {
    (b: ViewBinding) => b.AttributeBinding? && b.name == name
  }

  /** An attribute binding whose own name is not empty, whatever name was asked for. */
  function AttributeWithAnyName(name: string): ViewBinding -> bool {
    (b: ViewBinding) => b.AttributeBinding? && b.name != ""
  }

  function InputNamed(name: string): ViewBinding -> bool {
    (b: ViewBinding) => b.ComponentInputBinding? && b.name == name
  }

  function OutputNamed(name: string): ViewBinding -> bool {
    (b: ViewBinding) => b.ComponentOutputBinding? && b.name == name
  }

  /** No attribute or output binding is an input, so the first input with a
      name among all bindings is the first one among the inputs. */
  lemma InputLookupSkipsOthers(attributes: seq<ViewBinding>, inputs: seq<ViewBinding>, outputs: seq<ViewBinding>, name: string)
    requires AllAttributes(attributes) && AllOutputs(outputs)
    ensures FirstMatch(attributes + inputs + outputs, InputNamed(name)) == FirstMatch(inputs, InputNamed(name))
  {
    var p := InputNamed(name);
    var s := attributes + inputs + outputs;
    FirstMatchSpec(s, p);
    FirstMatchSpec(inputs, p);
    if FirstMatch(inputs, p).None? {
      forall k | 0 <= k < |s| ensures !p(s[k]) {
        if |attributes| <= k < |attributes| + |inputs| {
          assert s[k] == inputs[k - |attributes|];
        }
      }
    } else {
      var i :| 0 <= i < |inputs| && inputs[i] == FirstMatch(inputs, p).value && p(inputs[i])
               && forall j :: 0 <= j < i ==> !p(inputs[j]);
      var n := |attributes| + i;
      forall j | 0 <= j < n ensures !p(s[j]) {
        if j < |attributes| {
          assert s[j] == attributes[j];
        } else {
          assert s[j] == inputs[j - |attributes|];
        }
      }
      assert s[n] == inputs[i];
      FirstMatchAt(s, p, n);
    }
  }

  /** No attribute or input binding is an output. */
  lemma OutputLookupSkipsOthers(attributes: seq<ViewBinding>, inputs: seq<ViewBinding>, outputs: seq<ViewBinding>, name: string)
    requires AllAttributes(attributes) && AllInputs(inputs)
    ensures FirstMatch(attributes + inputs + outputs, OutputNamed(name)) == FirstMatch(outputs, OutputNamed(name))
  {
    var p := OutputNamed(name);
    var front := attributes + inputs;
    var s := front + outputs;
    FirstMatchSpec(s, p);
    FirstMatchSpec(outputs, p);
    if FirstMatch(outputs, p).None? {
      forall k | 0 <= k < |s| ensures !p(s[k]) {
        if |front| <= k {
          assert s[k] == outputs[k - |front|];
        }
      }
    } else {
      var i :| 0 <= i < |outputs| && outputs[i] == FirstMatch(outputs, p).value && p(outputs[i])
               && forall j :: 0 <= j < i ==> !p(outputs[j]);
      var n := |front| + i;
      forall j | 0 <= j < n ensures !p(s[j]) {
        if j < |attributes| {
          assert s[j] == attributes[j];
        } else if j < |front| {
          assert s[j] == inputs[j - |attributes|];
        } else {
          assert s[j] == outputs[j - |front|];
        }
      }
      assert s[n] == outputs[i];
      FirstMatchAt(s, p, n);
    }
  }

  /** `TemplateNodeComponentValue`. Its fields are set once by the constructor. */
  class ComponentValue {

    const tagName: string
    const attributeBindings: seq<ViewBinding>
    const inputBindings: seq<ViewBinding>
    const outputBindings: seq<ViewBinding>

    /** The bindings the base class keeps: all three kinds, in order. */
    const viewBindings: seq<ViewBinding>

    const isPureDom: bool := false
    const domNodesCount: nat := 1

    constructor (tagName: string, attributeBindings: seq<ViewBinding>,
                 inputBindings: seq<ViewBinding>, outputBindings: seq<ViewBinding>)
      requires AllAttributes(attributeBindings) && AllInputs(inputBindings) && AllOutputs(outputBindings)
      ensures this.tagName == tagName
      ensures this.attributeBindings == attributeBindings
      ensures this.inputBindings == inputBindings
      ensures this.outputBindings == outputBindings
      ensures viewBindings == attributeBindings + inputBindings + outputBindings
      ensures Valid()
    {
      var bindings := SuperParam(attributeBindings, inputBindings, outputBindings);
      this.tagName := tagName;
      this.attributeBindings := attributeBindings;
      this.inputBindings := inputBindings;
      this.outputBindings := outputBindings;
      viewBindings := bindings;
    }

    /** Each kind holds only bindings of that kind, and together they are all the bindings. */
    predicate Valid() {
      && AllAttributes(attributeBindings) && AllInputs(inputBindings) && AllOutputs(outputBindings)
      && viewBindings == attributeBindings + inputBindings + outputBindings
    }

    function GetTagName(): string {
      tagName
    }

    function GetAttributeBindings(): seq<ViewBinding> {
      attributeBindings
    }

    function GetInputBindings(): seq<ViewBinding> {
      inputBindings
    }

    function GetOutputBindings(): seq<ViewBinding> {
      outputBindings
    }

    /** `getBinding`: gathers every binding that satisfies `p`, then takes the first. */
    method GetBinding(p: ViewBinding -> bool) returns (r: Option<ViewBinding>)
      ensures r == FirstMatch(viewBindings, p)
    {
      var allFound: seq<ViewBinding> := [];
      for i := 0 to |viewBindings|
        invariant allFound == Filter(viewBindings[..i], p)
      {
        assert viewBindings[..i + 1][..i] == viewBindings[..i];
        if p(viewBindings[i]) {
          allFound := allFound + [viewBindings[i]];
        }
      }
      assert viewBindings[..|viewBindings|] == viewBindings;
      FirstOfFilter(viewBindings, p);
      if allFound == [] {
        r := None;
      } else {
        r := Some(allFound[0]);
      }
    }

    /** `getBindingOrFail`: the first match, or an error naming the tag. */
    method GetBindingOrFail(p: ViewBinding -> bool) returns (r: Result<ViewBinding, Error>)
      ensures r.Ok? <==> FirstMatch(viewBindings, p).Some?
      ensures r.Ok? ==> r.value == FirstMatch(viewBindings, p).value && p(r.value) && r.value in viewBindings
      ensures r.Err? ==> r.error == RuntimeError(MissingBindingMessage(tagName))
    {
      var result := GetBinding(p);
      FirstMatchSpec(viewBindings, p);
      if result.None? {
        return Err(RuntimeError(MissingBindingMessage(GetTagName())));
      }
      return Ok(result.value);
    }

    /** `getAttributeBindingByNameOrFail` as the source has it: the name is
        not compared, so the first attribute with any non-empty name is returned. */
    method GetAttributeBindingByNameOrFailAsWritten(name: string) returns (r: Result<ViewBinding, Error>)
      ensures r.Ok? <==> FirstMatch(viewBindings, AttributeWithAnyName(name)).Some?
      ensures r.Ok? ==> Some(r.value) == FirstMatch(viewBindings, AttributeWithAnyName(name))
      ensures r.Ok? ==> r.value.AttributeBinding? && r.value.name != ""
      ensures r.Err? ==> r.error == RuntimeError(MissingBindingMessage(tagName))
    {
      r := GetBindingOrFail(AttributeWithAnyName(name));
    }

    /** `getAttributeBindingByNameOrFail` comparing the name, as the input and
        output lookups do. */
    method GetAttributeBindingByNameOrFail(name: string) returns (r: Result<ViewBinding, Error>)
      requires Valid()
      ensures r.Ok? <==> exists k :: 0 <= k < |attributeBindings| && attributeBindings[k].name == name
      ensures r.Ok? ==> Some(r.value) == FirstMatch(attributeBindings, AttributeNamed(name))
      ensures r.Ok? ==> r.value.AttributeBinding? && r.value.name == name
      ensures r.Err? ==> r.error == RuntimeError(MissingBindingMessage(tagName))
    {
      r := GetBindingOrFail(AttributeNamed(name));
      AttributeLookupStopsAtAttributes(attributeBindings, inputBindings + outputBindings, name);
      assert viewBindings == attributeBindings + (inputBindings + outputBindings);
      FirstMatchSpec(attributeBindings, AttributeNamed(name));
    }

    /** `getInputBindingByNameOrFail`: the first input binding with that name. */
    method GetInputBindingByNameOrFail(name: string) returns (r: Result<ViewBinding, Error>)
      requires Valid()
      ensures r.Ok? <==> exists k :: 0 <= k < |inputBindings| && inputBindings[k].name == name
      ensures r.Ok? ==> Some(r.value) == FirstMatch(inputBindings, InputNamed(name))
      ensures r.Ok? ==> r.value.ComponentInputBinding? && r.value.name == name
      ensures r.Err? ==> r.error == RuntimeError(MissingBindingMessage(tagName))
    {
      r := GetBindingOrFail(InputNamed(name));
      InputLookupSkipsOthers(attributeBindings, inputBindings, outputBindings, name);
      FirstMatchSpec(inputBindings, InputNamed(name));
    }

    /** `getOutputBindingByNameOrFail`: the first output binding with that name. */
    method GetOutputBindingByNameOrFail(name: string) returns (r: Result<ViewBinding, Error>)
      requires Valid()
      ensures r.Ok? <==> exists k :: 0 <= k < |outputBindings| && outputBindings[k].name == name
      ensures r.Ok? ==> Some(r.value) == FirstMatch(outputBindings, OutputNamed(name))
      ensures r.Ok? ==> r.value.ComponentOutputBinding? && r.value.name == name
      ensures r.Err? ==> r.error == RuntimeError(MissingBindingMessage(tagName))
    {
      r := GetBindingOrFail(OutputNamed(name));
      OutputLookupSkipsOthers(attributeBindings, inputBindings, outputBindings, name);
      FirstMatchSpec(outputBindings, OutputNamed(name));
    }

    /** `printDomInit`: one line creating the element of the tag. */
    function PrintDomInit(): (r: seq<string>)
      ensures |r| == 1 && |r[0]| == |tagName| + 30
      ensures r[0][..28] == "util.__wane__createElement('" && r[0][28..28 + |tagName|] == tagName
      ensures r[0][28 + |tagName|..] == "')"
    {
      ["util.__wane__createElement('" + tagName + "')"]
    }

    /** `toString`. */
    function ToString(): (r: string)
      ensures |r| == |tagName| + 14 && r[..13] == "[Component] <" && r[13..|r| - 1] == tagName && r[|r| - 1] == '>'
    {
      "[Component] <" + tagName + ">"
    }
  }

  /** No input or output binding is an attribute, so the attribute lookup
      stops in the attributes. */
  lemma AttributeLookupStopsAtAttributes(attributes: seq<ViewBinding>, others: seq<ViewBinding>, name: string)
    requires forall k :: 0 <= k < |others| ==> !others[k].AttributeBinding?
    ensures FirstMatch(attributes + others, AttributeNamed(name)) == FirstMatch(attributes, AttributeNamed(name))
  {
    var p := AttributeNamed(name);
    var s := attributes + others;
    FirstMatchSpec(s, p);
    FirstMatchSpec(attributes, p);
    if FirstMatch(attributes, p).None? {
      forall k | 0 <= k < |s| ensures !p(s[k]) {
        if k >= |attributes| {
          assert s[k] == others[k - |attributes|];
        }
      }
    } else {
      var i :| 0 <= i < |attributes| && attributes[i] == FirstMatch(attributes, p).value && p(attributes[i])
               && forall j :: 0 <= j < i ==> !p(attributes[j]);
      forall j | 0 <= j < i ensures !p(s[j]) {
        assert s[j] == attributes[j];
      }
      assert s[i] == attributes[i];
      FirstMatchAt(s, p, i);
    }
  }

  /** Asking for `id` can return the `class` attribute: the lookup as written
      ignores the name it is given. */
  lemma AttributeLookupIgnoresName(c: BoundValue, d: BoundValue)
    ensures FirstMatch([AttributeBinding("class", c), AttributeBinding("id", d)], AttributeWithAnyName("id"))
         == Some(AttributeBinding("class", c))
    ensures FirstMatch([AttributeBinding("class", c), AttributeBinding("id", d)], AttributeNamed("id"))
         == Some(AttributeBinding("id", d))
  {
    var s := [AttributeBinding("class", c), AttributeBinding("id", d)];
    assert s[1..] == [AttributeBinding("id", d)];
    assert "class" != "id";
  }

  /** On a component whose attributes are `class` then `id`, asking for `id`
      returns the `class` binding. */
  method AttributeLookupAsWrittenExample(c: BoundValue, d: BoundValue) returns (r: Result<ViewBinding, Error>)
    ensures r == Ok(AttributeBinding("class", c))
  {
    var attributes := [AttributeBinding("class", c), AttributeBinding("id", d)];
    var node := new ComponentValue("my-card", attributes, [], []);
    assert node.viewBindings == attributes;
    AttributeLookupIgnoresName(c, d);
    r := node.GetAttributeBindingByNameOrFailAsWritten("id");
  }
}
