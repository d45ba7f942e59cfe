/** The semantic actions of src/parser/index.js: what each grammar rule's `.map`
    callback makes of the values its sub-rules matched, in both modes
    (`ast: true` builds nodes, `ast: false` evaluates). */
module Actions {
  import opened Utility
  import opened Values
  import opened Operators
  import Builtins
  import opened Ast

  /** `makeParser(references, { ast })`: the reference map and the mode. A stored entry
      `{ value: result }` is modelled by its result. */
  datatype Mode = Mode(ast: bool, refs: map<string, Result<Value>>)

  /** The outcome of running a callback: a value, or a thrown exception. */
  datatype Try<+T> = Returns(value: T) | Throws

  /** Reading the `ok` field: `undefined.ok` throws; strings and nodes have no `ok`. */
  function OkField(v: Js): (r: Try<bool>)
    ensures r.Throws? <==> v.JUndef?
    ensures r == Returns(true) <==> v.JRes? && v.r.Ok?
  {
    match v
    case JUndef => Throws
    case JRes(r) => Returns(r.Ok?)
    case _ => Returns(false)
  }

  /** `handleExpression([a, op, b])`: one binary step of an expression. */
  function HandleExpression(a: Js, op: Js, b: Js): (r: Try<Js>)
    // a failed (or non-result) left side is returned before the right side is looked at
    ensures OkField(a) == Returns(false) ==> r == Returns(a)
    ensures a == JUndef ==> r.Throws?
    // then a failed right side
    ensures OkField(a) == Returns(true) && OkField(b) == Returns(false) ==> r == Returns(b)
    ensures OkField(a) == Returns(true) && b == JUndef ==> r.Throws?
    // both succeeded: the operator's own result, failures included
    ensures OkField(a) == Returns(true) && OkField(b) == Returns(true) ==>
      r == Returns(JRes(if op.JStr? && OpOf(op.s).Some?
                        then Apply(OpOf(op.s).value, a.r.value, b.r.value)
                        else Fail(InvalidOperation)))
  {
    match OkField(a)
    case Throws => Throws
    case Returns(aOk) =>
      if !aOk then Returns(a)
      else match OkField(b)
        case Throws => Throws
        case Returns(bOk) =>
          if !bOk then Returns(b)
          else if op.JStr? && OpOf(op.s).Some? then
            Returns(JRes(Apply(OpOf(op.s).value, a.r.value, b.r.value)))
          else
            // `operators[op]` is undefined, so calling it throws inside the `try`
            Returns(JRes(Fail(InvalidOperation)))
  }

  /** `removeEnclosingQuotes`: `str.slice(1, -1)`. */
  function RemoveEnclosingQuotes(str: string): (r: string)
    ensures |str| >= 2 ==> r == str[1..|str| - 1]
    ensures |str| < 2 ==> r == ""
  {
    if |str| < 2 then "" else str[1..|str| - 1]
  }

  lemma QuotesRoundTrip(v: string)
    ensures RemoveEnclosingQuotes("\"" + v + "\"") == v
  {
  }

  /** `handleReference`: look a cell up in the reference map. */
  function HandleReference(mode: Mode, name: string): (r: Js)
    ensures mode.ast ==> r == JNode(Reference(name))
    ensures !mode.ast && name !in mode.refs ==> r == JRes(Fail("missing reference '" + name + "'"))
    ensures !mode.ast && name in mode.refs && mode.refs[name].Fail? ==>
      r == JRes(Fail("error in referenced cell '" + name + "'"))
    ensures !mode.ast && name in mode.refs && mode.refs[name].Ok? ==> r == JRes(mode.refs[name])
  {
    if mode.ast then JNode(Reference(name))
    else if name !in mode.refs then JRes(Fail("missing reference '" + name + "'"))
    else
      var stored := mode.refs[name];
      if stored.Ok? then JRes(Ok(stored.value)) else JRes(Fail("error in referenced cell '" + name + "'"))
  }

  /** `removeNonValues`: drop the punctuation and empty strings (and, when evaluating, a single space). */
  function RemoveNonValues(ast: bool, args: seq<Js>): (r: seq<Js>)
    ensures forall v :: v in r ==> v in args && !Blacklisted(ast, v)
    ensures forall v :: v in args && !Blacklisted(ast, v) ==> v in r
    ensures |args| == 1 ==> r == if Blacklisted(ast, args[0]) then [] else args
    ensures |r| == 0 <==> forall k :: 0 <= k < |args| ==> Blacklisted(ast, args[k])
  {
    if |args| == 0 then []
    else if Blacklisted(ast, args[0]) then RemoveNonValues(ast, args[1..])
    else [args[0]] + RemoveNonValues(ast, args[1..])
  }

  predicate Blacklisted(ast: bool, v: Js)
  {
    v.JStr? && (v.s in ["=", "(", ")", ""] || (!ast && v.s == " "))
  }

  /** `removeNonValues` keeps the order: filtering a concatenation filters each part. */
  lemma {:induction false} RemoveNonValuesAppend(ast: bool, a: seq<Js>, b: seq<Js>)
    ensures RemoveNonValues(ast, a + b) == RemoveNonValues(ast, a) + RemoveNonValues(ast, b)
  {
    if |a| == 0 {
      assert a + b == b;
    } else {
      assert (a + b)[1..] == a[1..] + b;
      RemoveNonValuesAppend(ast, a[1..], b);
    }
  }

  /** What `getFirst` then reads: the first argument that is not blacklisted. */
  lemma {:induction false} RemoveNonValuesFirst(ast: bool, args: seq<Js>, k: nat)
    requires k < |args| && !Blacklisted(ast, args[k])
    requires forall j :: 0 <= j < k ==> Blacklisted(ast, args[j])
    ensures |RemoveNonValues(ast, args)| > 0 && RemoveNonValues(ast, args)[0] == args[k]
  {
    if k > 0 {
      RemoveNonValuesFirst(ast, args[1..], k - 1);
    }
  }

  /** The values a formula's `[eq, optWhitespace, body]` leaves: the white space
      unless it is blacklisted, then the body unless it is. */
  lemma FormulaCandidates(ast: bool, ws: string, v: Js)
    ensures RemoveNonValues(ast, [JStr("="), JStr(ws), v])
      == (if Blacklisted(ast, JStr(ws)) then [] else [JStr(ws)]) + (if Blacklisted(ast, v) then [] else [v])
  {
    var args := [JStr("="), JStr(ws), v];
    assert args[1..] == [JStr(ws)] + [v] && args[1..][1..] == [v];
    RemoveNonValuesAppend(ast, [JStr(ws)], [v]);
  }

  /** `formula`'s callbacks: `removeNonValues(ast)`, `getFirst`, and the formula node
      around the result when building the tree. */
  function FormulaResult(ast: bool, ws: string, v: Js): (r: Js)
    // blacklisted white space leaves the body (when it is a value)
    ensures Blacklisted(ast, JStr(ws)) && !Blacklisted(ast, v) ==>
      r == if ast then JNode(Formula(AsNode(v))) else v
    // any other white space comes first, and takes the body's place
    ensures !Blacklisted(ast, JStr(ws)) ==>
      r == if ast then JNode(Formula(Untyped(JStr(ws)))) else JStr(ws)
    // with nothing left, `getFirst` gives `undefined`
    ensures Blacklisted(ast, JStr(ws)) && Blacklisted(ast, v) ==>
      r == if ast then JNode(Formula(Untyped(JUndef))) else JUndef
  {
    FormulaCandidates(ast, ws, v);
    var first := GetFirst(RemoveNonValues(ast, [JStr("="), JStr(ws), v]));
    var body := if first.Some? then first.value else JUndef;
    if ast then JNode(Formula(AsNode(body))) else body
  }

  /** When evaluating, only a single space is blacklisted: the two spaces after the `=`
      of `=  add(5 , add(2,3))` are the first value left, and so the formula's result. */
  lemma WhitespaceKeptAsWritten(v: Js)
    ensures RemoveNonValues(false, [JStr("="), JStr("  "), v]) == [JStr("  ")] + if Blacklisted(false, v) then [] else [v]
    ensures GetFirst(RemoveNonValues(false, [JStr("="), JStr("  "), v])) == Some(JStr("  "))
  {
    var args := [JStr("="), JStr("  "), v];
    assert args[1..][1..] == [v];
  }

  // ---------------------------------------------------------------------------
  // handleExtendedExpressions

  /** `.filter(v => v !== "")` */
  function DropEmpty(vs: seq<Js>): (r: seq<Js>)
    ensures |r| <= |vs|
    ensures forall k :: 0 <= k < |r| ==> r[k] != JStr("")
    ensures forall v :: v in r <==> v in vs && v != JStr("")
    ensures |vs| == 1 ==> r == if vs[0] == JStr("") then [] else vs
  {
    if |vs| == 0 then []
    else if vs[0] == JStr("") then DropEmpty(vs[1..])
    else [vs[0]] + DropEmpty(vs[1..])
  }

  /** The filter keeps the order: filtering a concatenation filters each part. */
  lemma {:induction false} DropEmptyAppend(a: seq<Js>, b: seq<Js>)
    ensures DropEmpty(a + b) == DropEmpty(a) + DropEmpty(b)
  {
    if |a| == 0 {
      assert a + b == b;
    } else {
      assert (a + b)[1..] == a[1..] + b;
      DropEmptyAppend(a[1..], b);
    }
  }

  /** AST mode: strings become operator nodes when they are operators, whitespace nodes otherwise. */
  function ItemNode(v: Js): (n: Node)
  {
    if v.JStr? then (if v.s in OperatorsList then Operator(v.s) else Whitespace(v.s)) else AsNode(v)
  }

  function ItemNodes(vs: seq<Js>): (r: seq<Node>)
    ensures |r| == |vs|
    ensures forall k :: 0 <= k < |vs| ==> r[k] == ItemNode(vs[k])
  {
    if |vs| == 0 then [] else [ItemNode(vs[0])] + ItemNodes(vs[1..])
  }

  /** Evaluation keeps results and operator strings, and drops whitespace strings. */
  predicate Kept(v: Js) { !v.JStr? || v.s in OperatorsList }

  function KeepOperands(vs: seq<Js>): (r: seq<Js>)
    ensures forall k :: 0 <= k < |r| ==> Kept(r[k])
    ensures forall v :: v in r <==> v in vs && Kept(v)
    ensures |vs| == 1 ==> r == if Kept(vs[0]) then vs else []
  {
    if |vs| == 0 then []
    else if Kept(vs[0]) then [vs[0]] + KeepOperands(vs[1..])
    else KeepOperands(vs[1..])
  }

  /** The operands keep their order: filtering a concatenation filters each part. */
  lemma {:induction false} KeepOperandsAppend(a: seq<Js>, b: seq<Js>)
    ensures KeepOperands(a + b) == KeepOperands(a) + KeepOperands(b)
  {
    if |a| == 0 {
      assert a + b == b;
    } else {
      assert (a + b)[1..] == a[1..] + b;
      KeepOperandsAppend(a[1..], b);
    }
  }

  /** The groups `rest.reduce` builds: `rest[2k]` and `rest[2k+1]` share group `quotient(2k+1, 2) = k`. */
  function Pairs(rest: seq<Js>): (g: seq<seq<Js>>)
    ensures |g| == (|rest| + 1) / 2
    ensures forall k :: 0 <= k < |g| ==> 1 <= |g[k]| <= 2
    ensures forall k :: 0 <= k < |g| ==> g[k][0] == rest[2 * k]
    ensures forall k :: 0 <= k < |g| && 2 * k + 1 < |rest| ==> |g[k]| == 2 && g[k][1] == rest[2 * k + 1]
  {
    if |rest| == 0 then []
    else if |rest| == 1 then [rest]
    else [rest[..2]] + Pairs(rest[2..])
  }

  /** Grouping loses and reorders nothing. */
  lemma {:induction false} PairsFlatten(rest: seq<Js>)
    ensures Flatten(Pairs(rest)) == rest
    decreases |rest|
  {
    if |rest| >= 2 {
      PairsFlatten(rest[2..]);
      FlattenAppend([rest[..2]], Pairs(rest[2..]));
      assert rest == rest[..2] + rest[2..];
    }
  }

  /** `grouped.reduce((current, [op, val]) => handleExpression([current, op, val]), first)` */
  function Reduce(current: Js, groups: seq<seq<Js>>): (r: Try<Js>)
    requires forall k :: 0 <= k < |groups| ==> |groups[k]| > 0
    ensures |groups| == 0 ==> r == Returns(current)
    // a failed running value passes through every later step unchanged
    ensures OkField(current) == Returns(false) ==> r == Returns(current)
    ensures current == JUndef && |groups| > 0 ==> r.Throws?
    decreases |groups|
  {
    if |groups| == 0 then Returns(current)
    else
      var g := groups[0];
      match HandleExpression(current, g[0], if |g| > 1 then g[1] else JUndef)
      case Throws => Throws
      case Returns(next) => Reduce(next, groups[1..])
  }

  /** After an even number of operands, one more opens a new group. */
  lemma {:induction false} PairsSnocEven(xs: seq<Js>, x: Js)
    requires |xs| % 2 == 0
    ensures Pairs(xs + [x]) == Pairs(xs) + [[x]]
    decreases |xs|
  {
    if |xs| == 0 {
      assert xs + [x] == [x];
    } else {
      var ys := xs + [x];
      assert ys[..2] == xs[..2];
      assert ys[2..] == xs[2..] + [x];
      PairsSnocEven(xs[2..], x);
    }
  }

  /** After an odd number of operands, one more completes the last group. */
  lemma {:induction false} PairsSnocOdd(xs: seq<Js>, x: Js)
    requires |xs| % 2 == 1
    ensures |Pairs(xs)| > 0
    ensures Pairs(xs + [x]) == Pairs(xs)[|Pairs(xs)| - 1 := Pairs(xs)[|Pairs(xs)| - 1] + [x]]
    decreases |xs|
  {
    if |xs| == 1 {
      assert Pairs(xs) == [xs];
      assert (xs + [x])[..2] == xs + [x] && (xs + [x])[2..] == [];
    } else {
      var ys := xs + [x];
      assert ys[..2] == xs[..2];
      assert ys[2..] == xs[2..] + [x];
      PairsSnocOdd(xs[2..], x);
      var tail := Pairs(xs[2..]);
      assert Pairs(xs) == [xs[..2]] + tail;
    }
  }

  /** The grouping loop of `handleExtendedExpressions`: operand `index` goes into
      group `quotient(index, 2)`, which is created when it does not exist yet. */
  method GroupOperands(rest: seq<Js>) returns (grouped: seq<seq<Js>>)
    ensures grouped == Pairs(rest)
  {
    grouped := [];
    var index := 0;
    while index < |rest|
      invariant 0 <= index <= |rest|
      invariant grouped == Pairs(rest[..index])
    {
      assert rest[..index + 1] == rest[..index] + [rest[index]];
      GroupStep(rest[..index], rest[index], grouped);
      QuotientOfOdd(index / 2);
      var ind := Quotient(index, 2);
      assert ind == index / 2;
      if ind == |grouped| {
        grouped := grouped + [[]];
      }
      grouped := grouped[ind := grouped[ind] + [rest[index]]];
      index := index + 1;
    }
    assert rest[..index] == rest;
  }

  /** One turn of the grouping loop: operand number `|done|` joins group
      `|done| / 2`, which is opened first when it does not exist. */
  lemma GroupStep(done: seq<Js>, next: Js, grouped: seq<seq<Js>>)
    requires grouped == Pairs(done)
    ensures var ind := |done| / 2;
      var widened := if ind == |grouped| then grouped + [[]] else grouped;
      ind < |widened| && widened[ind := widened[ind] + [next]] == Pairs(done + [next])
  {
    var m := |done| / 2;
    assert |grouped| == (|done| + 1) / 2;
    if |done| % 2 == 0 {
      assert |done| == 2 * m && |grouped| == m;
      PairsSnocEven(done, next);
      OpenGroup(grouped, next);
    } else {
      assert |done| == 2 * m + 1 && |grouped| == m + 1;
      PairsSnocOdd(done, next);
    }
  }

  lemma OpenGroup(g: seq<seq<Js>>, x: Js)
    ensures (g + [[]])[|g| := (g + [[]])[|g|] + [x]] == g + [[x]]
  {
    var w := g + [[]];
    assert w[|g|] + [x] == [x];
    var u := w[|g| := [x]];
    assert |u| == |g| + 1 && u[|g|] == [x];
    assert forall i :: 0 <= i < |g| ==> u[i] == g[i];
    assert u == g + [[x]];
  }

  /** The fold written directly over the operand list: each operator with the
      operand after it, or with `undefined` when the list ends after an operator. */
  function LeftFold(current: Js, rest: seq<Js>): Try<Js>
    decreases |rest|
  {
    if |rest| == 0 then Returns(current)
    else
      match HandleExpression(current, rest[0], if |rest| > 1 then rest[1] else JUndef)
      case Throws => Throws
      case Returns(next) => LeftFold(next, if |rest| > 1 then rest[2..] else [])
  }

  /** Folding over the groups is the direct left fold over the operands. */
  lemma {:induction false} ReduceIsLeftFold(current: Js, rest: seq<Js>)
    ensures Reduce(current, Pairs(rest)) == LeftFold(current, rest)
    decreases |rest|
  {
    if |rest| > 0 {
      var g := Pairs(rest);
      match HandleExpression(current, rest[0], if |rest| > 1 then rest[1] else JUndef)
      case Throws =>
      case Returns(next) =>
        if |rest| > 1 {
          assert g[1..] == Pairs(rest[2..]);
          ReduceIsLeftFold(next, rest[2..]);
        } else {
          assert g[1..] == [] == Pairs([]);
        }
    }
  }

  /** Once the running value is a failure it is the result: later steps return their
      left side before looking at the operator or the right side. */
  lemma {:induction false} FailureAbsorbs(current: Js, rest: seq<Js>)
    requires OkField(current) == Returns(false)
    ensures LeftFold(current, rest) == Returns(current)
    decreases |rest|
  {
    if |rest| > 0 {
      FailureAbsorbs(current, if |rest| > 1 then rest[2..] else []);
    }
  }

  /** There is no operator precedence: `a + b * c` is `(a + b) * c`. */
  lemma NoPrecedence(a: real, b: real, c: real)
    ensures LeftFold(JRes(Ok(Num(a))), [JStr("+"), JRes(Ok(Num(b))), JStr("*"), JRes(Ok(Num(c)))])
         == Returns(JRes(Ok(Num((a + b) * c))))
  {
    var rest := [JStr("+"), JRes(Ok(Num(b))), JStr("*"), JRes(Ok(Num(c)))];
    assert HandleExpression(JRes(Ok(Num(a))), rest[0], rest[1]) == Returns(JRes(Ok(Num(a + b))));
    assert rest[2..] == [JStr("*"), JRes(Ok(Num(c)))];
    assert OpOf("*") == Some(Times);
    var product := Apply(Times, Num(a + b), Num(c));
    assert product.Ok? && product.value == Num((a + b) * c);
    assert HandleExpression(JRes(Ok(Num(a + b))), rest[2], rest[3]) == Returns(JRes(Ok(Num((a + b) * c))));
    assert rest[2..][2..] == [];
    assert LeftFold(JRes(product), []) == Returns(JRes(product));
  }

  function HandleExtendedExpressions(ast: bool, init: seq<seq<Js>>): (r: Try<Js>)
    ensures ast ==> r == Returns(JNode(Expression(ItemNodes(DropEmpty(Flatten(init))))))
    ensures !ast ==>
      var operands := KeepOperands(DropEmpty(Flatten(init)));
      r == if |operands| == 0 then Returns(JUndef) else LeftFold(operands[0], operands[1..])
  {
    var processed := DropEmpty(Flatten(init));
    if ast then Returns(JNode(Expression(ItemNodes(processed))))
    else
      var operands := KeepOperands(processed);
      if |operands| == 0 then Returns(JUndef)
      else if |operands| == 1 then Returns(operands[0])
      else
        ReduceIsLeftFold(operands[0], operands[1..]);
        Reduce(operands[0], Pairs(operands[1..]))
  }

  /** Expression items as the grammar builds them when evaluating: a value that
      evaluation keeps, between white space that it drops. */
  predicate SpacedItems(items: seq<seq<Js>>)
  {
    forall k :: 0 <= k < |items| ==>
      (|items[k]| == 3 && items[k][0].JStr? && !Kept(items[k][0]) && Kept(items[k][1])
       && items[k][2].JStr? && !Kept(items[k][2]))
  }

  /** One item leaves exactly its value. */
  lemma ItemOperand(before: Js, v: Js, after: Js)
    requires before.JStr? && !Kept(before) && Kept(v) && after.JStr? && !Kept(after)
    ensures KeepOperands(DropEmpty([before, v, after])) == [v]
  {
    var t := [before, v, after];
    assert t[1..] == [v, after] && t[1..][1..] == [after];
    assert v != JStr("");
    if before == JStr("") {
      assert DropEmpty(t) == DropEmpty(t[1..]);
    } else {
      assert DropEmpty(t) == [before] + DropEmpty(t[1..]);
    }
  }

  /** When evaluating, the operands of an expression are its items' values, in order. */
  lemma {:induction false} OperandsOfSpacedItems(items: seq<seq<Js>>)
    requires SpacedItems(items)
    ensures KeepOperands(DropEmpty(Flatten(items))) == Middles(items)
    decreases |items|
  {
    if |items| > 0 {
      var front, last := items[..|items| - 1], items[|items| - 1];
      assert items == front + [last];
      assert SpacedItems(front);
      OperandsOfSpacedItems(front);
      SpacedLast(front, last);
    }
  }

  /** The last item adds its value to the operands, as to the middles. */
  lemma SpacedLast(front: seq<seq<Js>>, last: seq<Js>)
    requires forall k :: 0 <= k < |front| ==> |front[k]| == 3
    requires |last| == 3 && last[0].JStr? && !Kept(last[0]) && Kept(last[1]) && last[2].JStr? && !Kept(last[2])
    ensures KeepOperands(DropEmpty(Flatten(front + [last]))) == KeepOperands(DropEmpty(Flatten(front))) + [last[1]]
    ensures Middles(front + [last]) == Middles(front) + [last[1]]
  {
    assert (front + [last])[..|front|] == front;
    FlattenOne(front, last);
    LastOperand(Flatten(front), last);
  }

  lemma LastOperand(done: seq<Js>, last: seq<Js>)
    requires |last| == 3 && last[0].JStr? && !Kept(last[0]) && Kept(last[1]) && last[2].JStr? && !Kept(last[2])
    ensures KeepOperands(DropEmpty(done + last)) == KeepOperands(DropEmpty(done)) + [last[1]]
  {
    DropEmptyAppend(done, last);
    KeepOperandsAppend(DropEmpty(done), DropEmpty(last));
    assert last == [last[0], last[1], last[2]];
    ItemOperand(last[0], last[1], last[2]);
  }

  lemma FlattenOne(front: seq<seq<Js>>, last: seq<Js>)
    ensures Flatten(front + [last]) == Flatten(front) + last
  {
    FlattenAppend(front, [last]);
    assert Flatten([last]) == last + Flatten<Js>([]);
    assert last + [] == last;
  }

  /** One step of the fold: an operator and its right operand. */
  lemma LeftFoldStep(current: Js, op: Js, b: Js, rest: seq<Js>, next: Js)
    requires HandleExpression(current, op, b) == Returns(next)
    ensures LeftFold(current, [op] + ([b] + rest)) == LeftFold(next, rest)
  {
    var ops := [op] + ([b] + rest);
    assert ops[0] == op && ops[1] == b && ops[2..] == rest;
  }

  /** `+`, `-` and `*` on two numbers. */
  lemma NumberStep(a: real, op: string, b: real)
    requires op in ["+", "-", "*"]
    ensures HandleExpression(JRes(Ok(Num(a))), JStr(op), JRes(Ok(Num(b))))
         == Returns(JRes(Ok(Num(if op == "+" then a + b else if op == "-" then a - b else a * b))))
  {
    if op == "*" {
      TimesNumbers(a, b);
    }
  }

  // ---------------------------------------------------------------------------
  // handleFunction

  /** What one value of a `[ws, arg, ws]` triple adds to `args`: in AST mode every
      value but `""`, a string becoming a whitespace node; when evaluating, exactly
      the values that are not strings. */
  function ArgOf(ast: bool, v: Js): (r: seq<Js>)
    ensures ast ==> (r == [] <==> v == JStr(""))
    ensures ast && v.JStr? && v.s != "" ==> r == [JNode(Whitespace(v.s))]
    ensures ast && !v.JStr? ==> r == [JNode(AsNode(v))]
    ensures !ast ==> (r == [] <==> v.JStr?)
    ensures !ast && !v.JStr? ==> r == [v]
  {
    if ast then (if v == JStr("") then [] else if v.JStr? then [JNode(Whitespace(v.s))] else [JNode(AsNode(v))])
    else (if v.JStr? then [] else [v])
  }

  /** One triple's contribution to `args`: the `filter` and `map` of `handleFunction`. */
  function ArgsOf(ast: bool, triple: seq<Js>): (r: seq<Js>)
    ensures ast ==> forall k :: 0 <= k < |r| ==> r[k].JNode?
    ensures !ast ==> forall v :: v in r <==> v in triple && !v.JStr?
    ensures |triple| == 1 ==> r == ArgOf(ast, triple[0])
  {
    if |triple| == 0 then [] else ArgOf(ast, triple[0]) + ArgsOf(ast, triple[1..])
  }

  /** The kept values stay in the order of the triple. */
  lemma {:induction false} ArgsOfAppend(ast: bool, a: seq<Js>, b: seq<Js>)
    ensures ArgsOf(ast, a + b) == ArgsOf(ast, a) + ArgsOf(ast, b)
  {
    if |a| == 0 {
      assert a + b == b;
    } else {
      assert (a + b)[1..] == a[1..] + b;
      ArgsOfAppend(ast, a[1..], b);
    }
  }

  /** A parsed triple `[ws, arg, ws]` gives its white space (when not empty) around the
      argument in AST mode, and the argument alone when evaluating. */
  lemma ArgsOfTriple(ast: bool, before: string, arg: Js, after: string)
    requires !arg.JStr?
    ensures ArgsOf(ast, [JStr(before), arg, JStr(after)])
         == ArgOf(ast, JStr(before)) + [if ast then JNode(AsNode(arg)) else arg] + ArgOf(ast, JStr(after))
    ensures !ast ==> ArgsOf(ast, [JStr(before), arg, JStr(after)]) == [arg]
  {
    var t := [JStr(before), arg, JStr(after)];
    assert t[1..][1..] == [JStr(after)];
  }

  /** `initArgs.reduce((acc, next) => [...acc, ...kept(next)], [])`. */
  function CollectArgs(ast: bool, triples: seq<seq<Js>>): (r: seq<Js>)
    ensures ast ==> forall k :: 0 <= k < |r| ==> r[k].JNode?
    ensures !ast ==> forall k :: 0 <= k < |r| ==> !r[k].JStr?
    ensures |triples| == 1 ==> r == ArgsOf(ast, triples[0])
  {
    if |triples| == 0 then [] else CollectArgs(ast, triples[..|triples| - 1]) + ArgsOf(ast, triples[|triples| - 1])
  }

  /** The arguments of consecutive runs of triples follow each other. */
  lemma {:induction false} CollectArgsAppend(ast: bool, a: seq<seq<Js>>, b: seq<seq<Js>>)
    ensures CollectArgs(ast, a + b) == CollectArgs(ast, a) + CollectArgs(ast, b)
    decreases |b|
  {
    if |b| == 0 {
      assert a + b == a;
    } else {
      var front, last := b[..|b| - 1], b[|b| - 1];
      CollectArgsAppend(ast, a, front);
      SnocSplit(a, b);
      CollectArgsSnoc(ast, a + front, last);
      SnocSplit([], b);
      CollectArgsSnoc(ast, front, last);
      AppendAssoc(CollectArgs(ast, a), CollectArgs(ast, front), ArgsOf(ast, last));
    }
  }

  lemma CollectArgsSnoc(ast: bool, ts: seq<seq<Js>>, t: seq<Js>)
    ensures CollectArgs(ast, ts + [t]) == CollectArgs(ast, ts) + ArgsOf(ast, t)
  {
    var w := ts + [t];
    assert w[..|w| - 1] == ts && w[|w| - 1] == t;
  }

  /** Triples as the grammar builds them: white space around a value that is not a string. */
  predicate ArgShaped(ts: seq<seq<Js>>)
  {
    forall k :: 0 <= k < |ts| ==> |ts[k]| == 3 && ts[k][0].JStr? && !ts[k][1].JStr? && ts[k][2].JStr?
  }

  /** The middle value of each triple: an expression item's value, or a call's argument. */
  function Middles(triples: seq<seq<Js>>): (r: seq<Js>)
    requires forall k :: 0 <= k < |triples| ==> |triples[k]| == 3
    ensures |r| == |triples| && forall k :: 0 <= k < |triples| ==> r[k] == triples[k][1]
  {
    if |triples| == 0 then [] else Middles(triples[..|triples| - 1]) + [triples[|triples| - 1][1]]
  }

  lemma {:induction false} MiddlesCons(t: seq<Js>, ts: seq<seq<Js>>)
    requires |t| == 3 && forall k :: 0 <= k < |ts| ==> |ts[k]| == 3
    ensures Middles([t] + ts) == [t[1]] + Middles(ts)
    decreases |ts|
  {
    var w := [t] + ts;
    if |ts| > 0 {
      var front := ts[..|ts| - 1];
      assert w[..|w| - 1] == [t] + front;
      MiddlesCons(t, front);
    }
  }

  /** One more spaced item in front: its value comes first. */
  lemma SpacedCons(t: seq<Js>, ts: seq<seq<Js>>)
    requires |t| == 3 && SpacedItems([t]) && SpacedItems(ts)
    ensures SpacedItems([t] + ts) && Middles([t] + ts) == [t[1]] + Middles(ts)
  {
    assert [t][0] == t;
    MiddlesCons(t, ts);
  }

  /** When evaluating, the arguments the arity check counts are exactly the triples'
      middle values, one per argument, in order. */
  lemma {:induction false} CollectArgsMiddles(triples: seq<seq<Js>>)
    requires ArgShaped(triples)
    ensures CollectArgs(false, triples) == Middles(triples)
    ensures |CollectArgs(false, triples)| == |triples|
    decreases |triples|
  {
    if |triples| > 0 {
      var t := triples[|triples| - 1];
      CollectArgsMiddles(triples[..|triples| - 1]);
      ArgsOfTriple(false, t[0].s, t[1], t[2].s);
      assert t == [JStr(t[0].s), t[1], JStr(t[2].s)];
    }
  }

  function Nodes(vs: seq<Js>): (r: seq<Node>)
    ensures |r| == |vs| && forall k :: 0 <= k < |vs| ==> r[k] == AsNode(vs[k])
  {
    if |vs| == 0 then [] else [AsNode(vs[0])] + Nodes(vs[1..])
  }

  /** `args.filter(({ ok }) => !ok)[0]`: destructuring `undefined` throws, whichever argument it is. */
  function FirstFailing(args: seq<Js>): (r: Try<Option<Js>>)
    ensures r.Throws? <==> JUndef in args
    ensures r.Returns? && r.value.Some? ==>
      exists k :: 0 <= k < |args| && args[k] == r.value.value && OkField(args[k]) == Returns(false)
        && forall j :: 0 <= j < k ==> OkField(args[j]) == Returns(true)
    ensures r == Returns(None) <==> forall k :: 0 <= k < |args| ==> OkField(args[k]) == Returns(true)
  {
    if |args| == 0 then Returns(None)
    else
      match OkField(args[0])
      case Throws => Throws
      case Returns(ok) =>
        match FirstFailing(args[1..])
        case Throws => Throws
        case Returns(later) =>
          if !ok then
            Returns(Some(args[0]))
          else
            if later.Some? then
              var k :| 0 < k + 1 <= |args[1..]| && args[1..][k] == later.value && OkField(args[1..][k]) == Returns(false)
                && forall j :: 0 <= j < k ==> OkField(args[1..][j]) == Returns(true);
              assert args[k + 1] == later.value;
              Returns(later)
            else Returns(later)
  }

  /** The values of arguments that all succeeded. */
  function ArgValues(args: seq<Js>): (r: seq<Value>)
    requires forall k :: 0 <= k < |args| ==> args[k].JRes? && args[k].r.Ok?
    ensures |r| == |args| && forall k :: 0 <= k < |args| ==> r[k] == args[k].r.value
  {
    if |args| == 0 then [] else [args[0].r.value] + ArgValues(args[1..])
  }

  function HandleFunction(ast: bool, name: string, triples: seq<seq<Js>>): (r: Try<Js>)
    ensures ast ==> r == Returns(JNode(Function(name, Nodes(CollectArgs(ast, triples)))))
  {
    var args := CollectArgs(ast, triples);
    if ast then Returns(JNode(Function(name, Nodes(args))))
    else
      match Builtins.Lookup(name)
      case Absent => Returns(JRes(Fail("unsupported function '" + name + "'")))
      case Inherited => Throws  // `func.fn.length` with `func.fn` undefined
      case Own(f) =>
        if !Builtins.Variadic(f) && Builtins.Arity(f) < |args| then
          Returns(JRes(Fail("too many arguments passed to '" + name + "'")))
        else if !Builtins.Variadic(f) && Builtins.Arity(f) > |args| then
          Returns(JRes(Fail("not enough arguments passed to '" + name + "'")))
        else
          match FirstFailing(args)
          case Throws => Throws
          case Returns(fail) =>
            if fail.Some? then Returns(fail.value)
            else
              assert forall k :: 0 <= k < |args| ==> OkField(args[k]) == Returns(true);
              Returns(JRes(Builtins.Call(f, ArgValues(args))))
  }

  /** When evaluating, `handleFunction` rejects an unknown name and a wrong argument
      count (for a function that is not variadic), then gives the first failing
      argument, and only then calls the function on the argument values. */
  lemma HandleFunctionCases(name: string, triples: seq<seq<Js>>)
    ensures var args, r := CollectArgs(false, triples), HandleFunction(false, name, triples);
      (Builtins.Lookup(name).Absent? ==> r == Returns(JRes(Fail("unsupported function '" + name + "'"))))
      && (Builtins.Lookup(name).Inherited? ==> r.Throws?)
      && (Builtins.Lookup(name).Own? ==> var f := Builtins.Lookup(name).f;
           (!Builtins.Variadic(f) && Builtins.Arity(f) < |args| ==>
              r == Returns(JRes(Fail("too many arguments passed to '" + name + "'"))))
           && (!Builtins.Variadic(f) && Builtins.Arity(f) > |args| ==>
              r == Returns(JRes(Fail("not enough arguments passed to '" + name + "'"))))
           && (Builtins.Variadic(f) || Builtins.Arity(f) == |args| ==>
                (JUndef in args ==> r.Throws?)
                && (forall k :: (0 <= k < |args| && JUndef !in args && OkField(args[k]) == Returns(false)
                                 && (forall j :: 0 <= j < k ==> OkField(args[j]) == Returns(true))) ==> r == Returns(args[k]))
                && ((forall k :: 0 <= k < |args| ==> OkField(args[k]) == Returns(true)) ==>
                      r == Returns(JRes(Builtins.Call(f, ArgValues(args)))))))
  {
    var args := CollectArgs(false, triples);
    var fail := FirstFailing(args);
    if fail.Returns? && fail.value.Some? {
      var i :| 0 <= i < |args| && args[i] == fail.value.value && OkField(args[i]) == Returns(false)
        && forall j :: 0 <= j < i ==> OkField(args[j]) == Returns(true);
    }
  }
}
