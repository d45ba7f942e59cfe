/** The function catalog of src/parser/config.js: for each entry its implementation,
    its argument descriptors (a fixed list or a function of the argument's index),
    its description and its argument bounds. The hint resolver and the
    autocomplete filter read this catalog; the evaluator uses the smaller table of
    src/parser/index.js (module `Builtins`). */
module Config {
  import opened Utility
  import opened Values
  import Operators
  import Builtins

  datatype Entry = Add | Multiply | Divide | Increment | Decrement | ToPower | If | Join | Identity

  /** `Object.keys(functions)`, in declaration order. */
  const Keys: seq<string> := ["add", "multiply", "divide", "increment", "decrement", "to_power", "if", "join", ""]

  const Entries: seq<Entry> := [Add, Multiply, Divide, Increment, Decrement, ToPower, If, Join, Identity]

  function Key(e: Entry): string
  {
    match e
    case Add => "add"
    case Multiply => "multiply"
    case Divide => "divide"
    case Increment => "increment"
    case Decrement => "decrement"
    case ToPower => "to_power"
    case If => "if"
    case Join => "join"
    case Identity => ""
  }

  /** The keys list the entries in order, each once. */
  lemma KeysInOrder()
    ensures |Keys| == |Entries|
    ensures forall k :: 0 <= k < |Entries| ==> Key(Entries[k]) == Keys[k]
    ensures forall e: Entry :: Lookup(Key(e)) == Some(e)
    ensures forall j, k :: 0 <= j < k < |Keys| ==> Keys[j] != Keys[k]
  {
    KeysNameEntries();
    forall j, k | 0 <= j < k < |Keys| ensures Keys[j] != Keys[k] {
      assert Lookup(Keys[j]) == Some(Entries[j]) && Lookup(Keys[k]) == Some(Entries[k]);
    }
  }

  lemma KeysNameEntries()
    ensures |Keys| == |Entries|
    ensures forall k :: 0 <= k < |Entries| ==> Key(Entries[k]) == Keys[k] && Lookup(Keys[k]) == Some(Entries[k])
    ensures forall e: Entry :: Lookup(Key(e)) == Some(e)
  {
    forall e: Entry ensures Lookup(Key(e)) == Some(e) {
      LookupKey(e);
    }
    forall k | 0 <= k < |Entries| ensures Key(Entries[k]) == Keys[k] && Lookup(Keys[k]) == Some(Entries[k]) {
      LookupKey(Entries[k]);
    }
  }

  lemma LookupKey(e: Entry)
    ensures Lookup(Key(e)) == Some(e)
  {
    match e
    case Add =>
    case Multiply =>
    case Divide =>
    case Increment =>
    case Decrement =>
    case ToPower =>
    case If =>
    case Join =>
    case Identity =>
  }

  /** `functions[name]`, for the catalog's own keys. */
  function Lookup(name: string): (r: Option<Entry>)
    ensures r.Some? <==> name in Keys
    ensures r.Some? ==> Key(r.value) == name
  {
    if name == "add" then Some(Add)
    else if name == "multiply" then Some(Multiply)
    else if name == "divide" then Some(Divide)
    else if name == "increment" then Some(Increment)
    else if name == "decrement" then Some(Decrement)
    else if name == "to_power" then Some(ToPower)
    else if name == "if" then Some(If)
    else if name == "join" then Some(Join)
    else if name == "" then Some(Identity)
    else None
  }

  /** An argument descriptor `{ name, type? }`. */
  datatype Descriptor = Descriptor(name: string, kind: Option<string>)

  /** The `arguments` field: missing, an array, or a function of the index. */
  datatype Arguments = NoArguments | Listed(descriptors: seq<Descriptor>) | Computed

  function ArgumentsOf(e: Entry): Arguments
  {
    match e
    case Add => Computed
    case Multiply => Computed
    case Divide => Listed([Descriptor("top", Some("number")), Descriptor("bottom", Some("number")),
                           Descriptor("fallback (if dividing by 0)", None)])
    case Increment => Listed([Descriptor("number", None)])
    case Decrement => Listed([Descriptor("number", None)])
    case ToPower => Listed([Descriptor("number", None), Descriptor("exponent", Some("number"))])
    case If => Listed([Descriptor("test", Some("true/false")), Descriptor("value if true", None),
                       Descriptor("value if false", None)])
    case Join => Computed
    case Identity => NoArguments
  }

  /** `fn.arguments(index)` for the entries whose descriptors are computed. */
  function ComputedDescriptor(e: Entry, index: int): (d: Descriptor)
    requires ArgumentsOf(e).Computed?
    ensures e == Join && index == 0 ==> d == Descriptor("separator", Some("text"))
    ensures e == Join && index != 0 ==> d == Descriptor("text", None)
    ensures e != Join ==> d == Descriptor("number", None)
  {
    match e
    case Join => if index == 0 then Descriptor("separator", Some("text")) else Descriptor("text", None)
    case _ => Descriptor("number", None)
  }

  function Description(e: Entry): (r: Option<string>)
    ensures r.None? <==> e == Identity
  {
    match e
    case Add => Some("arguments")
    case Multiply => Some("arguments")
    case Divide => Some("numbers given fallback")
    case Increment => Some("add 1 to argument")
    case Decrement => Some("subtract 1 from argument")
    case ToPower => Some("raise a number to a power")
    case If => Some("condition is true then this else that")
    case Join => Some("text with a chosen separator")
    case Identity => None
  }

  /** `minArgs` and `maxArgs`: only `divide` declares them. */
  function MinArgs(e: Entry): (r: Option<nat>)
    ensures r.Some? <==> e == Divide
    ensures r.Some? ==> r.value == 2
  {
    if e == Divide then Some(2) else None
  }

  function MaxArgs(e: Entry): (r: Option<nat>)
    ensures r.Some? <==> e == Divide
    ensures r.Some? ==> r.value == 3
  {
    if e == Divide then Some(3) else None
  }

  predicate Variadic(e: Entry) { e in {Add, Multiply, Join} }

  /** `fn.length`: parameters before the first rest or defaulted one. */
  function ParamCount(e: Entry): nat
  {
    match e
    case Add => 0
    case Multiply => 0
    case Divide => 2
    case Increment => 1
    case Decrement => 1
    case ToPower => 2
    case If => 3
    case Join => 1
    case Identity => 1
  }

  /** The argument counts the catalog declares for an entry. */
  predicate Accepts(e: Entry, n: nat)
  {
    Variadic(e) || (if MinArgs(e).Some? then MinArgs(e).value <= n <= MaxArgs(e).value else n == ParamCount(e))
  }

  /** `args.reduce((acc, next) => acc + next)` from the running value `acc`. */
  function SumFrom(acc: Value, rest: seq<Value>): Value
    decreases |rest|
  {
    if |rest| == 0 then acc else SumFrom(JsAdd(acc, rest[0]), rest[1..])
  }

  /** `args.reduce((acc, next) => acc * next)` from the running value `acc`. */
  function ProductFrom(acc: Result<Value>, rest: seq<Value>): Result<Value>
    decreases |rest|
  {
    if |rest| == 0 then acc
    else ProductFrom(if acc.Ok? then Operators.Apply(Operators.Times, acc.value, rest[0]) else acc, rest[1..])
  }

  /** Calling `fn` with the given arguments: `None` when it throws (`reduce` of an
      empty array), `Some(Fail(m))` when it returns a failure object. */
  function Apply(e: Entry, args: seq<Value>): (r: Option<Result<Value>>)
    requires Accepts(e, |args|)
    ensures r.None? <==> e in {Add, Multiply} && |args| == 0
    ensures e == If ==> r == Some(Ok(if Truthy(args[0]) then args[1] else args[2]))
    ensures e == Identity ==> r == Some(Ok(args[0]))
    ensures e == Increment ==> r == Some(Ok(JsAdd(args[0], Num(1.0))))
  {
    match e
    case Add => if |args| == 0 then None else Some(Ok(SumFrom(args[0], args[1..])))
    case Multiply => if |args| == 0 then None else Some(ProductFrom(Ok(args[0]), args[1..]))
    case Divide =>
      if args[1] == Num(0.0) then Some(if |args| == 3 then Ok(args[2]) else Fail("divide by 0"))
      else Some(Operators.Apply(Operators.Divide, args[0], args[1]))
    case Increment => Some(Ok(JsAdd(args[0], Num(1.0))))
    case Decrement => Some(Operators.Apply(Operators.Minus, args[0], Num(1.0)))
    case ToPower => Some(Builtins.ToPowerOf(args[0], args[1]))
    case If => Some(Ok(if Truthy(args[0]) then args[1] else args[2]))
    case Join => Some(Builtins.Call(Builtins.Join, args))
    case Identity => Some(Ok(args[0]))
  }

  // ---------------------------------------------------------------------------
  // Properties of the implementations

  function Nums(xs: seq<real>): (r: seq<Value>)
    ensures |r| == |xs| && forall k :: 0 <= k < |xs| ==> r[k] == Num(xs[k])
  {
    if |xs| == 0 then [] else [Num(xs[0])] + Nums(xs[1..])
  }

  function Sum(xs: seq<real>): real
  {
    if |xs| == 0 then 0.0 else xs[0] + Sum(xs[1..])
  }

  lemma {:induction false} SumFromNums(acc: real, xs: seq<real>)
    ensures SumFrom(Num(acc), Nums(xs)) == Num(acc + Sum(xs))
    decreases |xs|
  {
    if |xs| > 0 {
      assert Nums(xs)[1..] == Nums(xs[1..]);
      SumFromNums(acc + xs[0], xs[1..]);
    }
  }

  /** `add` on numbers is their sum. */
  lemma AddNumbers(xs: seq<real>)
    requires |xs| > 0
    ensures Apply(Add, Nums(xs)) == Some(Ok(Num(Sum(xs))))
  {
    ApplyAdd(Nums(xs));
    SumOfNums(xs);
  }

  lemma SumOfNums(xs: seq<real>)
    requires |xs| > 0
    ensures SumFrom(Nums(xs)[0], Nums(xs)[1..]) == Num(Sum(xs))
  {
    var x, vs := xs[0], Nums(xs);
    assert vs[0] == Num(x) && vs[1..] == Nums(xs[1..]);
    SumFromNums(x, xs[1..]);
  }

  lemma ApplyAdd(vs: seq<Value>)
    requires |vs| > 0
    ensures Apply(Add, vs) == Some(Ok(SumFrom(vs[0], vs[1..])))
  {
  }

  /** `multiply` multiplies its arguments from the left. */
  lemma MultiplyNumbers(a: real, b: real, c: real)
    ensures Apply(Multiply, [Num(a)]) == Some(Ok(Num(a)))
    ensures Apply(Multiply, [Num(a), Num(b), Num(c)]) == Some(Ok(Num(a * b * c)))
  {
    var args := [Num(a), Num(b), Num(c)];
    assert args[1..] == [Num(b), Num(c)] && [Num(b), Num(c)][1..] == [Num(c)] && [Num(c)][1..] == [];
    var ab := a * b;
    var abc := ab * c;
    assert abc == a * b * c;
    Operators.TimesNumbers(a, b);
    Operators.TimesNumbers(ab, c);
    assert ProductFrom(Ok(Num(a)), [Num(b), Num(c)]) == ProductFrom(Ok(Num(ab)), [Num(c)]);
    assert ProductFrom(Ok(Num(ab)), [Num(c)]) == ProductFrom(Ok(Num(abc)), []);
  }

  /** With two arguments the catalog's `add` is the evaluator's binary `add`. */
  lemma AddAgreesWithEvaluator(a: Value, b: Value)
    ensures Apply(Add, [a, b]) == Some(Builtins.Call(Builtins.Add, [a, b]))
  {
    assert [a, b][1..] == [b] && [b][1..] == [];
    assert SumFrom(a, [b]) == JsAdd(a, b);
    assert Builtins.Call(Builtins.Add, [a, b]) == Ok(JsAdd(a, b));
  }

  /** `divide`: the fallback (by default `Fail("divide by 0")`) when the bottom is 0,
      otherwise the `/` operator. */
  lemma DivideCases(top: Value, bottom: Value, fallback: Value)
    ensures bottom == Num(0.0) ==> Apply(Divide, [top, bottom]) == Some(Fail("divide by 0"))
    ensures bottom == Num(0.0) ==> Apply(Divide, [top, bottom, fallback]) == Some(Ok(fallback))
    ensures Apply(Divide, [top, bottom]) == Some(Operators.Apply(Operators.Divide, top, bottom))
    ensures top.Num? && bottom.Num? && bottom.n != 0.0 ==>
      Apply(Divide, [top, bottom]) == Some(Ok(Num(top.n / bottom.n)))
      && Apply(Divide, [top, bottom, fallback]) == Some(Ok(Num(top.n / bottom.n)))
  {
  }

  /** `decrement` undoes `increment` on numbers. */
  lemma DecrementUndoesIncrement(x: real)
    ensures Apply(Increment, [Num(x)]) == Some(Ok(Num(x + 1.0)))
    ensures Apply(Decrement, [Apply(Increment, [Num(x)]).value.value]) == Some(Ok(Num(x)))
  {
    var up := Operators.Apply(Operators.Minus, Num(x + 1.0), Num(1.0));
    assert up.Ok? && up.value == Num(x);
  }
}
