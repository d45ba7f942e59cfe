/** The `functions` table that src/parser/index.js evaluates calls against:
    `add` (two arguments), `increment`, `to_power`, `if`, `join` (variadic) and
    `""` (the identity, used for parentheses). */
module Builtins {
  import opened Utility
  import opened Values

  datatype Builtin = Add | Increment | ToPower | If | Join | Group

  /** What `functions[name]` finds: an own entry, a property inherited from
      `Object.prototype` (truthy, but without `fn`), or nothing. */
  datatype Found = Own(f: Builtin) | Inherited | Absent

  function Name(f: Builtin): string
  {
    match f
    case Add => "add"
    case Increment => "increment"
    case ToPower => "to_power"
    case If => "if"
    case Join => "join"
    case Group => ""
  }

  /** Lower-case names a plain object inherits (reachable through `[a-z_]*`). */
  const InheritedNames: set<string> := {"constructor", "__proto__"}

  function Lookup(name: string): (r: Found)
    ensures r.Own? ==> Name(r.f) == name
    ensures r.Absent? <==> (forall f: Builtin :: Name(f) != name) && name !in InheritedNames
  {
    if name == "add" then Own(Add)
    else if name == "increment" then Own(Increment)
    else if name == "to_power" then Own(ToPower)
    else if name == "if" then Own(If)
    else if name == "join" then Own(Join)
    else if name == "" then Own(Group)
    else if name in InheritedNames then Inherited
    else Absent
  }

  /** `variadic: true` */
  predicate Variadic(f: Builtin) { f == Join }

  /** `fn.length`: the number of declared parameters before a rest parameter. */
  function Arity(f: Builtin): nat
  {
    match f
    case Add => 2
    case Increment => 1
    case ToPower => 2
    case If => 3
    case Join => 1
    case Group => 1
  }

  /** `Math.pow(x, y)` for an integer exponent (and a non-zero base when the exponent is negative). */
  function Power(x: real, k: nat): real
  {
    if k == 0 then 1.0 else x * Power(x, k - 1)
  }

  lemma {:induction false} PowerAdd(x: real, j: nat, k: nat)
    ensures Power(x, j + k) == Power(x, j) * Power(x, k)
  {
    if j > 0 {
      PowerAdd(x, j - 1, k);
    }
  }

  function ToPowerOf(n: Value, pow: Value): (r: Result<Value>)
    ensures r.Ok? ==> r.value.Num?
    ensures !n.Str? && pow.Num? && pow.n == 0.0 ==> r == Ok(Num(1.0))
    ensures n.Str? || pow.Str? ==> r == Fail(InvalidOperation)
  {
    if n.Str? || pow.Str? then Fail(InvalidOperation)
    else
      var x, y := ToNumber(n), ToNumber(pow);
      if y != y.Floor as real then Fail(InvalidOperation)
      else if y >= 0.0 then Ok(Num(Power(x, y.Floor as nat)))
      else if x == 0.0 then Fail(InvalidOperation)
      else
        PowerNonZero(x, (-y).Floor as nat);
        Ok(Num(1.0 / Power(x, (-y).Floor as nat)))
  }

  /** An integer exponent `k` raises to `x^k`. */
  lemma ToPowerNatural(x: real, k: nat)
    ensures ToPowerOf(Num(x), Num(k as real)) == Ok(Num(Power(x, k)))
  {
    var y := k as real;
    assert y.Floor == k;
    assert y == y.Floor as real && y >= 0.0;
  }

  /** An exponent `-k` gives `1 / x^k` for a non-zero base, and fails on a zero base
      (JavaScript's `Infinity`, see README). */
  lemma ToPowerNegative(x: real, k: nat)
    requires k > 0
    ensures x != 0.0 ==> Power(x, k) != 0.0 && ToPowerOf(Num(x), Num(-(k as real))) == Ok(Num(1.0 / Power(x, k)))
    ensures x == 0.0 ==> ToPowerOf(Num(x), Num(-(k as real))) == Fail(InvalidOperation)
  {
    NegatedWhole(k);
    if x != 0.0 {
      PowerNonZero(x, k);
    }
  }

  lemma NegatedWhole(k: nat)
    ensures var y := -(k as real); y == y.Floor as real && (-y).Floor == k
  {
    var y := -(k as real);
    assert y.Floor == -(k as int);
  }

  /** `to_power(3, 2)` is 9 and `to_power(2, -2)` is a quarter. */
  lemma {:induction false} ToPowerExamples()
    ensures ToPowerOf(Num(3.0), Num(2.0)) == Ok(Num(9.0))
    ensures ToPowerOf(Num(2.0), Num(-2.0)) == Ok(Num(0.25))
  {
    ToPowerNatural(3.0, 2);
    ToPowerNegative(2.0, 2);
    assert Power(3.0, 2) == 9.0 by {
      assert Power(3.0, 1) == 3.0 * Power(3.0, 0);
    }
    assert Power(2.0, 2) == 4.0 by {
      assert Power(2.0, 1) == 2.0 * Power(2.0, 0);
    }
  }

  lemma {:induction false} PowerNonZero(x: real, k: nat)
    requires x != 0.0
    ensures Power(x, k) != 0.0
  {
    if k > 0 {
      PowerNonZero(x, k - 1);
    }
  }

  /** `func.fn(...values)`, for the argument counts `handleFunction` lets through. */
  function Call(f: Builtin, args: seq<Value>): (r: Result<Value>)
    requires !Variadic(f) ==> |args| == Arity(f)
    ensures f == Increment ==> r == Ok(JsAdd(args[0], Num(1.0)))
    ensures f == Add ==> r == Ok(JsAdd(args[0], args[1]))
    ensures f == If ==> r == Ok(if Truthy(args[0]) then args[1] else args[2])
    ensures f == Group ==> r == Ok(args[0])
    ensures f == Join && |args| > 0 ==> r == Ok(Str(JoinWith(MapToString(args[1..]), ToString(args[0]))))
    ensures f != ToPower ==> r.Ok?
  {
    match f
    case Add => Ok(JsAdd(args[0], args[1]))
    case Increment => Ok(JsAdd(args[0], Num(1.0)))
    case ToPower => ToPowerOf(args[0], args[1])
    case If => Ok(if Truthy(args[0]) then args[1] else args[2])
    case Join =>
      // `(sep, ...rest) => rest.join(sep)`; with no arguments `rest` is empty.
      if |args| == 0 then Ok(Str(""))
      else Ok(Str(JoinWith(MapToString(args[1..]), ToString(args[0]))))
    case Group => Ok(args[0])
  }

  /** `join` puts its first argument between the others, in order. */
  lemma JoinSeparates(sep: string, parts: seq<string>)
    ensures Call(Join, [Str(sep)] + MapStr(parts)) == Ok(Str(JoinWith(parts, sep)))
  {
    var args := [Str(sep)] + MapStr(parts);
    assert MapToString(args[1..]) == parts;
  }

  function MapStr(ss: seq<string>): (r: seq<Value>)
    ensures |r| == |ss| && forall k :: 0 <= k < |ss| ==> r[k] == Str(ss[k])
  {
    if |ss| == 0 then [] else [Str(ss[0])] + MapStr(ss[1..])
  }
}
