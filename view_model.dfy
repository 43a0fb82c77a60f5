/**
 * The values the template parser reads and produces.
 *
 * The markup tree is what the HTML parser hands over (text, element and
 * comment nodes with their positions). Bound values, view bindings and
 * template nodes are the results the compiler attaches to it; each class of
 * the compiler that only carries data is a datatype here.
 */
module ViewModel {

  import opened Wrappers

  /** A point of the markup source: offset, 1-based line and column. */
  datatype Location = Location(index: nat, line: nat, column: nat)

  datatype Position = Position(start: Location, end: Location)

  /** An attribute as the markup parser reports it; `value` is absent for a bare key. */
  datatype Attribute = Attribute(key: string, value: Option<string>)

  datatype MarkupNode =
    | Text(content: string, position: Position)
    | Element(tagName: string, attributes: seq<Attribute>, children: seq<MarkupNode>, position: Position)
    | Comment(content: string, position: Position)

  /** What a binding reads: source text kept verbatim, a property of the
      component, a method invocation, or the `#` placeholder of an argument. */
  datatype BoundValue =
    | Constant(text: string)
    | PropertyAccess(path: string)
    | MethodCall(name: string, args: seq<BoundValue>)
    | Placeholder

  datatype ViewBinding =
    | AttributeBinding(name: string, value: BoundValue)
    | HtmlElementPropBinding(name: string, value: BoundValue)
    | HtmlElementEventBinding(name: string, value: BoundValue)
    | ComponentInputBinding(name: string, value: BoundValue)
    | ComponentOutputBinding(name: string, value: BoundValue)
    | ConditionalViewBinding(value: BoundValue, isNegated: bool)
    | RepeatingViewBinding(value: BoundValue, iterativeConstantName: string,
                           indexConstantName: Option<string>, keyAccessorPath: Option<string>)
    | InterpolationBinding(value: BoundValue)
    | TextBinding(value: BoundValue)

  datatype TemplateNode =
    | TextNode(binding: ViewBinding)
    | InterpolationNode(binding: ViewBinding)
    | ConditionalViewNode(binding: ViewBinding)
    | RepeatingViewNode(binding: ViewBinding)
    | HtmlElementNode(tagName: string, attributes: seq<ViewBinding>,
                      props: seq<ViewBinding>, events: seq<ViewBinding>)
    | ComponentNode(tagName: string, attributes: seq<ViewBinding>,
                    inputs: seq<ViewBinding>, outputs: seq<ViewBinding>)

  datatype TreeNode = TreeNode(value: TemplateNode, children: seq<TreeNode>)

  /** A parse error at a markup position, or any other exception the parser raises. */
  datatype Error =
    | ParseError(position: Position, message: string)
    | RuntimeError(message: string)
}
