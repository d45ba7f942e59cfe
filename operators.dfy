/** The infix operator table `operators` (the same nine entries, with the same
    code, are declared in src/parser/index.js and src/parser/config.js). */
module Operators {
  import opened Utility
  import opened Values

  datatype Op = Plus | Minus | Times | Divide | Greater | GreaterEq | Less | LessEq | Concat

  /** `Object.keys(operators)`, in declaration order. */
  const OperatorsList: seq<string> := ["+", "-", "*", "/", ">", ">=", "<", "<=", "&"]

  const AllOps: seq<Op> := [Plus, Minus, Times, Divide, Greater, GreaterEq, Less, LessEq, Concat]

  function Symbol(op: Op): string
  {
    match op
    case Plus => "+"
    case Minus => "-"
    case Times => "*"
    case Divide => "/"
    case Greater => ">"
    case GreaterEq => ">="
    case Less => "<"
    case LessEq => "<="
    case Concat => "&"
  }

  /** `operators[s]` for the table's own keys. */
  function OpOf(s: string): (r: Option<Op>)
    ensures r.Some? <==> s in OperatorsList
    ensures r.Some? ==> Symbol(r.value) == s
  {
    if s == "+" then Some(Plus)
    else if s == "-" then Some(Minus)
    else if s == "*" then Some(Times)
    else if s == "/" then Some(Divide)
    else if s == ">" then Some(Greater)
    else if s == ">=" then Some(GreaterEq)
    else if s == "<" then Some(Less)
    else if s == "<=" then Some(LessEq)
    else if s == "&" then Some(Concat)
    else None
  }

  /** The table is a bijection between the nine operators and their symbols, in order. */
  lemma SymbolsInOrder()
    ensures forall k :: 0 <= k < |AllOps| ==> Symbol(AllOps[k]) == OperatorsList[k]
    ensures forall op: Op :: OpOf(Symbol(op)) == Some(op)
  {
    forall op: Op ensures OpOf(Symbol(op)) == Some(op) {
      match op
      case Plus =>
      case Minus =>
      case Times =>
      case Divide =>
      case Greater =>
      case GreaterEq =>
      case Less =>
      case LessEq =>
      case Concat =>
    }
  }

  /** The numeric operators, for operands the model converts exactly (not strings). */
  function Arithmetic(op: Op, a: Value, b: Value): (r: Result<Value>)
    requires op in {Minus, Times}
    ensures r.Fail? <==> a.Str? || b.Str?
    ensures a.Num? && b.Num? && op == Minus ==> r == Ok(Num(a.n - b.n))
    ensures a.Num? && b.Num? && op == Times ==> r == Ok(Num(a.n * b.n))
    ensures a == Bool(true) && b.Num? && op == Minus ==> r == Ok(Num(1.0 - b.n))
    ensures !a.Str? && !b.Str? ==>
      var x := if a.Bool? then (if a.b then 1.0 else 0.0) else a.n;
      var y := if b.Bool? then (if b.b then 1.0 else 0.0) else b.n;
      r == Ok(Num(if op == Minus then x - y else x * y))
  {
    if a.Str? || b.Str? then Fail(InvalidOperation)
    else if op == Minus then Ok(Num(ToNumber(a) - ToNumber(b)))
    else
      var x, y := ToNumber(a), ToNumber(b);
      assert a.Num? && b.Num? ==> x * y == a.n * b.n;
      assert x * y == (if a.Bool? then (if a.b then 1.0 else 0.0) else a.n) * (if b.Bool? then (if b.b then 1.0 else 0.0) else b.n);
      Ok(Num(x * y))
  }

  /** `>`, `>=`, `<`, `<=`: string order for two strings, numeric order for numbers and booleans. */
  function Comparison(op: Op, a: Value, b: Value): (r: Result<Value>)
    requires op in {Greater, GreaterEq, Less, LessEq}
    ensures r.Ok? ==> r.value.Bool?
    ensures r.Fail? <==> a.Str? != b.Str?
    ensures a.Num? && b.Num? && op == Greater ==> r == Ok(Bool(a.n > b.n))
    ensures a.Num? && b.Num? && op == GreaterEq ==> r == Ok(Bool(a.n >= b.n))
    ensures a.Num? && b.Num? && op == Less ==> r == Ok(Bool(a.n < b.n))
    ensures a.Num? && b.Num? && op == LessEq ==> r == Ok(Bool(a.n <= b.n))
    ensures a.Str? && b.Str? && op == Less ==> r == Ok(Bool(StringLess(a.s, b.s)))
    ensures a.Str? && b.Str? && op == Greater ==> r == Ok(Bool(StringLess(b.s, a.s)))
    ensures a.Str? && b.Str? && op == LessEq ==> r == Ok(Bool(a.s == b.s || StringLess(a.s, b.s)))
    ensures a.Str? && b.Str? && op == GreaterEq ==> r == Ok(Bool(a.s == b.s || StringLess(b.s, a.s)))
    ensures !a.Str? && !b.Str? ==>
      var x := if a.Bool? then (if a.b then 1.0 else 0.0) else a.n;
      var y := if b.Bool? then (if b.b then 1.0 else 0.0) else b.n;
      r == Ok(Bool(match op
        case Greater => x > y
        case GreaterEq => x >= y
        case Less => x < y
        case LessEq => x <= y))
  {
    if a.Str? && b.Str? then
      var lt, gt := StringLess(a.s, b.s), StringLess(b.s, a.s);
      StringTrichotomy(a.s, b.s);
      Ok(Bool(match op
        case Greater => gt
        case GreaterEq => !lt
        case Less => lt
        case LessEq => !gt))
    else if a.Str? || b.Str? then Fail(InvalidOperation)
    else
      var x, y := ToNumber(a), ToNumber(b);
      Ok(Bool(match op
        case Greater => x > y
        case GreaterEq => x >= y
        case Less => x < y
        case LessEq => x <= y))
  }

  /** `operators[op](a, b)`; a failure object the operator returns is a `Fail`. */
  function Apply(op: Op, a: Value, b: Value): (r: Result<Value>)
    ensures op == Divide && b == Num(0.0) ==> r == Fail("divide by 0")
    ensures op == Divide && a.Num? && b.Num? && b.n != 0.0 ==> r == Ok(Num(a.n / b.n))
    ensures op == Concat ==> r == Ok(Str(ToString(a) + ToString(b)))
    ensures op == Plus ==> r == Ok(JsAdd(a, b))
    ensures r.Fail? ==> r.message in {"divide by 0", InvalidOperation}
  {
    match op
    case Plus => Ok(JsAdd(a, b))
    case Minus => Arithmetic(op, a, b)
    case Times => Arithmetic(op, a, b)
    case Divide =>
      if b == Num(0.0) then Fail("divide by 0")
      else if a.Str? || b.Str? || ToNumber(b) == 0.0 then Fail(InvalidOperation)
      else Ok(Num(ToNumber(a) / ToNumber(b)))
    case Concat => Ok(Str(ToString(a) + ToString(b)))
    case _ => Comparison(op, a, b)
  }

  /** Swapping the operands turns `>` into `<` and `>=` into `<=`. */
  lemma ComparisonConverse(a: Value, b: Value)
    ensures Comparison(Greater, a, b) == Comparison(Less, b, a)
    ensures Comparison(GreaterEq, a, b) == Comparison(LessEq, b, a)
  {
  }

  /** Exactly one of `<`, `>` and equality holds between two strings or two numbers. */
  lemma ComparisonTrichotomy(a: Value, b: Value)
    requires (a.Str? && b.Str?) || (a.Num? && b.Num?)
    ensures Comparison(Less, a, b).Ok? && Comparison(Greater, a, b).Ok?
    ensures a != b <==> Comparison(Less, a, b).value.b || Comparison(Greater, a, b).value.b
    ensures !(Comparison(Less, a, b).value.b && Comparison(Greater, a, b).value.b)
  {
    if a.Str? {
      StringTrichotomy(a.s, b.s);
    }
  }

  /** `*` on two numbers is their product. */
  lemma TimesNumbers(a: real, b: real)
    ensures Apply(Times, Num(a), Num(b)) == Ok(Num(a * b))
  {
    var r := Apply(Times, Num(a), Num(b));
    assert r.Ok? && r.value == Num(a * b);
  }
}
