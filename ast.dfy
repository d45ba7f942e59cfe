/** The values the grammar's semantic actions pass around, and the syntax tree
    the parser builds with `ast: true`. */
module Ast {
  import opened Utility
  import opened Values

  /** A JavaScript value as the actions see it: a matched string, `undefined`,
      a result object (`Ok`/`Fail`), or a syntax-tree node object. */
  datatype Js = JStr(s: string) | JUndef | JRes(r: Result<Value>) | JNode(node: Node)

  /** Tree node objects `{type, value}`. `Untyped` is any object or string sitting
      where a node is expected but carrying no `type` field: the partial-function
      failure object, or a whitespace string taken as a formula's body. */
  datatype Node =
    | Number(num: real)
    | Text(text: string)
    | Boolean(b: bool)
    | Reference(name: string)
    | Operator(op: string)
    | Whitespace(ws: string)
    | Partial(name: string)
    | Function(name: string, args: seq<Node>)
    | Expression(items: seq<Node>)
    | Formula(body: Node)
    | Untyped(obj: Js)

  /** The node's `type` field. */
  function TypeName(n: Node): (t: Option<string>)
    ensures t.None? <==> n.Untyped?
  {
    match n
    case Number(_) => Some("number")
    case Text(_) => Some("string")
    case Boolean(_) => Some("boolean")
    case Reference(_) => Some("reference")
    case Operator(_) => Some("operator")
    case Whitespace(_) => Some("whitespace")
    case Partial(_) => Some("partial")
    case Function(_, _) => Some("function")
    case Expression(_) => Some("expression")
    case Formula(_) => Some("formula")
    case Untyped(_) => None
  }

  /** A value used where a node is expected. */
  function AsNode(v: Js): (n: Node)
    ensures v.JNode? ==> n == v.node
    ensures !v.JNode? ==> n == Untyped(v)
  {
    if v.JNode? then v.node else Untyped(v)
  }
}
