/** The grammar of src/parser/index.js (`makeParser`), written out as
    ordered-choice (PEG) functions over the input string. Each rule starts at
    position `i` and either matches, with the value its `.map` callbacks build
    and the position after the match, fails to match, or aborts because a
    callback threw. */
module Grammar {
  import opened Utility
  import opened Values
  import opened Operators
  import opened Ast
  import opened Actions

  datatype Reply<+T> = Match(value: T, next: nat) | NoMatch | Abort

  /** The character classes the rules' regular expressions use. */
  datatype CharClass =
    | Space       // `\s`
    | Lower       // `[a-z_]`
    | Upper       // `[A-Z]`
    | Digit       // `\d`
    | StringBody  // what `.` in `".*?"` may cross before the closing quote

  /** JavaScript's `\s`: the white space and line terminator characters. */
  predicate IsSpace(c: char)
  {
    c in {' ', '\t', '\n', '\r', '\U{000B}', '\U{000C}', '\U{00A0}', '\U{1680}', '\U{2028}', '\U{2029}',
          '\U{202F}', '\U{205F}', '\U{3000}', '\U{FEFF}'}
    || '\U{2000}' <= c <= '\U{200A}'
  }

  /** The characters `.` does not match. */
  predicate IsLineTerminator(c: char) { c in {'\n', '\r', '\U{2028}', '\U{2029}'} }

  predicate InClass(c: char, k: CharClass)
  {
    match k
    case Space => IsSpace(c)
    case Lower => 'a' <= c <= 'z' || c == '_'
    case Upper => 'A' <= c <= 'Z'
    case Digit => IsDigit(c)
    case StringBody => c != '"' && !IsLineTerminator(c)
  }

  /** The end of the longest run of class `k` starting at `i` (a greedy `k*`). */
  function Span(s: string, i: nat, k: CharClass): (j: nat)
    requires i <= |s|
    ensures i <= j <= |s|
    ensures forall p :: i <= p < j ==> InClass(s[p], k)
    ensures j < |s| ==> !InClass(s[j], k)
    decreases |s| - i
  {
    if i < |s| && InClass(s[i], k) then Span(s, i + 1, k) else i
  }

  predicate StartsWith(s: string, i: nat, t: string)
  {
    i + |t| <= |s| && s[i..i + |t|] == t
  }

  /** The first of `options` that the input continues with at `i` (`P.alt(...options.map(P.string))`). */
  function FirstPrefix(s: string, i: nat, options: seq<string>): (r: Option<string>)
    ensures r.Some? ==> r.value in options && StartsWith(s, i, r.value)
    ensures r.Some? ==> exists k :: (0 <= k < |options| && options[k] == r.value
      && forall j :: 0 <= j < k ==> !StartsWith(s, i, options[j]))
    ensures r.None? <==> forall k :: 0 <= k < |options| ==> !StartsWith(s, i, options[k])
  {
    if |options| == 0 then None
    else if StartsWith(s, i, options[0]) then Some(options[0])
    else
      var r := FirstPrefix(s, i, options[1..]);
      if r.Some? then
        var k :| 0 <= k < |options[1..]| && options[1..][k] == r.value
          && forall j :: 0 <= j < k ==> !StartsWith(s, i, options[1..][j]);
        assert options[k + 1] == r.value;
        r
      else r
  }

  /** The value a primitive rule builds: a node, or an `Ok` result. */
  function PrimitiveValue(ast: bool, v: Value): (r: Js)
    ensures ast ==> r.JNode? && TypeName(r.node).Some?
    ensures !ast ==> r == JRes(Ok(v))
  {
    if !ast then JRes(Ok(v))
    else match v
      case Num(n) => JNode(Number(n))
      case Str(t) => JNode(Text(t))
      case Bool(b) => JNode(Boolean(b))
  }

  // ---------------------------------------------------------------------------
  // Rules without sub-rules

  /** The characters an operator symbol starts with. */
  predicate IsOperatorChar(c: char) { c in {'+', '-', '*', '/', '>', '<', '&'} }

  /** `operator`: the first entry of `operatorsList` the input starts with. */
  function OperatorRule(s: string, i: nat): (r: Reply<string>)
    requires i <= |s|
    ensures r.Match? ==> (r.value in OperatorsList && r.next == i + |r.value| <= |s|
      && s[i..r.next] == r.value)
    ensures r.NoMatch? <==> forall k :: 0 <= k < |OperatorsList| ==> !StartsWith(s, i, OperatorsList[k])
    ensures !r.Abort?
    // `>` and `<` are listed before `>=` and `<=`, so a match is always one character
    ensures r == if i < |s| && IsOperatorChar(s[i]) then Match([s[i]], i + 1) else NoMatch
    ensures r.Match? ==> r.value != ">=" && r.value != "<="
  {
    FirstOperator(s, i);
    match FirstPrefix(s, i, OperatorsList)
    case None => NoMatch
    case Some(op) => Match(op, i + |op|)
  }

  /** Which entry of `operatorsList` comes first at `i` depends on `s[i]` alone. */
  lemma FirstOperator(s: string, i: nat)
    requires i <= |s|
    ensures FirstPrefix(s, i, OperatorsList) == if i < |s| && IsOperatorChar(s[i]) then Some([s[i]]) else None
  {
    var l5 := ComparisonsAndConcat();
    var l4 := ["/"] + l5;
    var l3 := ["*"] + l4;
    var l2 := ["-"] + l3;
    assert ["+"] + l2 == OperatorsList;
    FirstPrefixCons(s, i, "+", l2);
    FirstPrefixCons(s, i, "-", l3);
    FirstPrefixCons(s, i, "*", l4);
    FirstPrefixCons(s, i, "/", l5);
    StartsWithChar(s, i, '+');
    StartsWithChar(s, i, '-');
    StartsWithChar(s, i, '*');
    StartsWithChar(s, i, '/');
    FirstComparison(s, i);
  }

  /** The entries of `operatorsList` after `/`. */
  function ComparisonsAndConcat(): seq<string> { [">", ">=", "<", "<=", "&"] }

  lemma FirstComparison(s: string, i: nat)
    requires i <= |s|
    ensures FirstPrefix(s, i, ComparisonsAndConcat())
      == if i < |s| && s[i] in {'>', '<', '&'} then Some([s[i]]) else None
  {
    var l9 := ["&"] + [];
    var l8 := ["<="] + l9;
    var l7 := ["<"] + l8;
    var l6 := [">="] + l7;
    assert [">"] + l6 == ComparisonsAndConcat();
    FirstPrefixCons(s, i, ">", l6);
    FirstPrefixCons(s, i, ">=", l7);
    FirstPrefixCons(s, i, "<", l8);
    FirstPrefixCons(s, i, "<=", l9);
    FirstPrefixCons(s, i, "&", []);
    StartsWithChar(s, i, '>');
    StartsWithChar(s, i, '<');
    StartsWithChar(s, i, '&');
    if StartsWith(s, i, ">=") { FirstChar(s, i, ">="); }
    if StartsWith(s, i, "<=") { FirstChar(s, i, "<="); }
  }

  lemma FirstPrefixCons(s: string, i: nat, o: string, os: seq<string>)
    ensures FirstPrefix(s, i, [o] + os) == if StartsWith(s, i, o) then Some(o) else FirstPrefix(s, i, os)
  {
    assert ([o] + os)[0] == o && ([o] + os)[1..] == os;
  }

  lemma StartsWithChar(s: string, i: nat, c: char)
    ensures StartsWith(s, i, [c]) <==> i < |s| && s[i] == c
  {
    if i < |s| && s[i] == c {
      assert s[i..i + 1] == [c];
    }
  }

  /** On `>=` the operator rule takes `>` and leaves the `=`. */
  lemma OperatorBeforeGreaterEq(s: string, i: nat)
    requires i <= |s| && StartsWith(s, i, ">=")
    ensures OperatorRule(s, i) == Match(">", i + 1)
  {
    FirstChar(s, i, ">=");
  }

  /** On `<=` the operator rule takes `<` and leaves the `=`. */
  lemma OperatorBeforeLessEq(s: string, i: nat)
    requires i <= |s| && StartsWith(s, i, "<=")
    ensures OperatorRule(s, i) == Match("<", i + 1)
  {
    FirstChar(s, i, "<=");
  }

  lemma FirstChar(s: string, i: nat, t: string)
    requires |t| > 0 && StartsWith(s, i, t)
    ensures s[i] == t[0]
  {
    assert s[i..i + |t|][0] == s[i];
  }

  /** `string`: `".*?"`, then `removeEnclosingQuotes`. */
  function StringRule(ast: bool, s: string, i: nat): (r: Reply<Js>)
    requires i <= |s|
    ensures r.Match? ==> (i + 2 <= r.next <= |s| && s[i] == '"' && s[r.next - 1] == '"'
      && r.value == PrimitiveValue(ast, Str(s[i + 1..r.next - 1]))
      && forall p :: i < p < r.next - 1 ==> s[p] != '"' && !IsLineTerminator(s[p]))
    ensures !r.Abort?
  {
    if i < |s| && s[i] == '"' then
      var j := Span(s, i + 1, StringBody);
      if j < |s| && s[j] == '"' then
        QuotesRemoved(s, i, j);
        Match(PrimitiveValue(ast, Str(RemoveEnclosingQuotes(s[i..j + 1]))), j + 1)
      else NoMatch
    else NoMatch
  }

  lemma QuotesRemoved(s: string, i: nat, j: nat)
    requires i < j < |s|
    ensures RemoveEnclosingQuotes(s[i..j + 1]) == s[i + 1..j]
  {
    var q := s[i..j + 1];
    var inner, body := q[1..|q| - 1], s[i + 1..j];
    assert |inner| == |body|;
    forall k | 0 <= k < |inner| ensures inner[k] == body[k] {
      assert inner[k] == q[k + 1] == s[i + k + 1];
    }
    assert inner == body;
  }

  /** `boolean`: `true` or `false`. */
  function BooleanRule(ast: bool, s: string, i: nat): (r: Reply<Js>)
    requires i <= |s|
    ensures r.Match? ==>
      ((r.value == PrimitiveValue(ast, Bool(true)) && StartsWith(s, i, "true") && r.next == i + 4)
       || (r.value == PrimitiveValue(ast, Bool(false)) && StartsWith(s, i, "false") && r.next == i + 5))
    ensures r.NoMatch? <==> !StartsWith(s, i, "true") && !StartsWith(s, i, "false")
    ensures !r.Abort?
  {
    if StartsWith(s, i, "true") then Match(PrimitiveValue(ast, Bool(true)), i + 4)
    else if StartsWith(s, i, "false") then Match(PrimitiveValue(ast, Bool(false)), i + 5)
    else NoMatch
  }

  /** `s[i..next]` spells `-?(\d+)(\.\d+)?`, with the sign (if any) at `i`, the whole
      digits at `d0..d1` and, when `d1 < next`, a point and the fraction digits after it. */
  predicate NumberParts(s: string, i: nat, next: nat, d0: nat, d1: nat)
  {
    i <= d0 < d1 <= next <= |s| && d0 <= i + 1 && (d0 == i + 1 <==> s[i] == '-')
    && AllDigits(s[d0..d1])
    && (d1 == next || (s[d1] == '.' && d1 + 1 < next && AllDigits(s[d1 + 1..next])))
  }

  /** `Number(s[i..next])` for such a text. */
  function PartsValue(s: string, i: nat, next: nat, d0: nat, d1: nat): real
    requires NumberParts(s, i, next, d0, d1)
  {
    LiteralValue(d0 == i + 1, s[d0..d1], if d1 == next then "" else s[d1 + 1..next])
  }

  /** `number`: `-?(\d+)(\.\d+)?`, then `Number`. */
  function NumberRule(ast: bool, s: string, i: nat): (r: Reply<Js>)
    requires i <= |s|
    ensures r.Match? ==> exists d0: nat, d1: nat ::
      NumberParts(s, i, r.next, d0, d1) && r.value == PrimitiveValue(ast, Num(PartsValue(s, i, r.next, d0, d1)))
    // the digit runs are greedy
    ensures r.Match? ==> r.next == |s| || !IsDigit(s[r.next])
    ensures r.NoMatch? <==> !(i < |s| && IsDigit(s[i])) && !(i + 1 < |s| && s[i] == '-' && IsDigit(s[i + 1]))
    ensures !r.Abort?
  {
    var negative := i < |s| && s[i] == '-';
    var d0 := if negative then i + 1 else i;
    var d1 := Span(s, d0, Digit);
    if d1 == d0 then NoMatch
    else
      SpanDigits(s, d0, d1);
      var f := if d1 + 1 < |s| && s[d1] == '.' then Span(s, d1 + 1, Digit) else d1 + 1;
      if f > d1 + 1 then
        SpanDigits(s, d1 + 1, f);
        assert NumberParts(s, i, f, d0, d1);
        Match(PrimitiveValue(ast, Num(PartsValue(s, i, f, d0, d1))), f)
      else
        assert NumberParts(s, i, d1, d0, d1);
        Match(PrimitiveValue(ast, Num(PartsValue(s, i, d1, d0, d1))), d1)
  }

  lemma SpanDigits(s: string, i: nat, j: nat)
    requires i <= j <= |s|
    requires forall p :: i <= p < j ==> InClass(s[p], Digit)
    ensures AllDigits(s[i..j])
  {
    forall k | 0 <= k < j - i ensures IsDigit(s[i..j][k]) {
      assert InClass(s[i + k], Digit);
    }
  }

  /** `primitive`: `P.alt(boolean, string, number)`. */
  function PrimitiveRule(ast: bool, s: string, i: nat): (r: Reply<Js>)
    requires i <= |s|
    ensures r.Match? ==> i < r.next <= |s|
    ensures !r.Abort?
  {
    var b := BooleanRule(ast, s, i);
    if b.Match? then b
    else
      var t := StringRule(ast, s, i);
      if t.Match? then t else NumberRule(ast, s, i)
  }

  /** `reference`: `[A-Z]+\d+`, then `handleReference`. */
  function ReferenceRule(mode: Mode, s: string, i: nat): (r: Reply<Js>)
    requires i <= |s|
    ensures r.Match? ==> i < r.next <= |s| && r.value == HandleReference(mode, s[i..r.next])
    ensures !r.Abort?
  {
    var u := Span(s, i, Upper);
    var d := Span(s, u, Digit);
    if u == i || d == u then NoMatch else Match(HandleReference(mode, s[i..d]), d)
  }

  /** `partialFunction`: `[a-z_]+`; the value is a failure object in both modes. */
  function PartialRule(s: string, i: nat): (r: Reply<Js>)
    requires i <= |s|
    ensures r.Match? ==> i < r.next <= |s| && r.value == JRes(Fail("function without arguments"))
    ensures r.NoMatch? <==> !(i < |s| && InClass(s[i], Lower))
    ensures !r.Abort?
  {
    var l := Span(s, i, Lower);
    if l == i then NoMatch else Match(JRes(Fail("function without arguments")), l)
  }

  // ---------------------------------------------------------------------------
  // The recursive rules. A rule calls another at the same position only if that
  // one has a smaller rank (the second component of `decreases`).

  /** `function`: `[a-z_]*`, `(`, the arguments separated by `,`, `)`, then `handleFunction`. */
  function FunctionRule(mode: Mode, s: string, i: nat): (r: Reply<Js>)
    requires i <= |s|
    ensures r.Match? ==> i + 2 <= r.next <= |s| && s[r.next - 1] == ')'
    decreases |s| - i, 0
  {
    var l := Span(s, i, Lower);
    if l < |s| && s[l] == '(' then
      var args := ArgItems(mode, s, l + 1);
      match args
      case Abort => Abort
      case Match(triples, j) =>
        if j < |s| && s[j] == ')' then
          var call := HandleFunction(mode.ast, s[i..l], triples);
          match call
          case Throws => Abort
          case Returns(v) => Match(v, j + 1)
        else NoMatch
    else NoMatch
  }

  /** A call's name is the run of `[a-z_]` before `(`; its value is what `handleFunction`
      makes of the name and the argument triples; and it fails to match only when there is
      no `(` after the name or no `)` after the arguments. */
  lemma FunctionRuleMatch(mode: Mode, s: string, i: nat)
    requires i <= |s|
    ensures var r := FunctionRule(mode, s, i); r.Match? ==>
      var l := Span(s, i, Lower);
      l < |s| && s[l] == '(' && ArgItems(mode, s, l + 1).Match? && r.next == ArgItems(mode, s, l + 1).next + 1
    ensures var r := FunctionRule(mode, s, i); r.Match? ==>
      var l := Span(s, i, Lower);
      l < |s| && ArgItems(mode, s, l + 1).Match?
      && HandleFunction(mode.ast, s[i..l], ArgItems(mode, s, l + 1).value) == Returns(r.value)
    ensures FunctionRule(mode, s, i).NoMatch? ==>
      var l := Span(s, i, Lower);
      !(l < |s| && s[l] == '(')
      || (ArgItems(mode, s, l + 1).Match? && !(ArgItems(mode, s, l + 1).next < |s| && s[ArgItems(mode, s, l + 1).next] == ')'))
  {
  }

  /** `addOptionalWhitespace(functionArg)`: `[ws, arg, ws]`. */
  function ArgTriple(mode: Mode, s: string, i: nat): (r: Reply<seq<Js>>)
    requires i <= |s|
    ensures r.Match? ==> i <= r.next <= |s| && |r.value| == 3 && r.value[0].JStr? && r.value[2].JStr?
    ensures !r.NoMatch?
    decreases |s| - i, 6
  {
    var w1 := Span(s, i, Space);
    match FunctionArg(mode, s, w1)
    case Abort => Abort
    case Match(v, j) =>
      var w2 := Span(s, j, Space);
      Match([JStr(s[i..w1]), v, JStr(s[j..w2])], w2)
  }

  /** `functionArg`: `P.alt(function, expression, primitive)`. */
  function FunctionArg(mode: Mode, s: string, i: nat): (r: Reply<Js>)
    requires i <= |s|
    ensures r.Match? ==> i <= r.next <= |s|
    ensures !r.NoMatch?
    decreases |s| - i, 5
  {
    match FunctionRule(mode, s, i)
    case Match(v, j) => Match(v, j)
    case Abort => Abort
    case NoMatch =>
      // `expression` always matches, so the `primitive` alternative is never tried
      Expression(mode, s, i)
  }

  /** `sepBy(comma)` of argument triples. */
  function ArgItems(mode: Mode, s: string, i: nat): (r: Reply<seq<seq<Js>>>)
    requires i <= |s|
    ensures r.Match? ==> (i <= r.next <= |s| && |r.value| > 0
      && forall k :: 0 <= k < |r.value| ==> |r.value[k]| == 3 && r.value[k][0].JStr? && r.value[k][2].JStr?)
    ensures !r.NoMatch?
    decreases |s| - i, 8
  {
    match ArgTriple(mode, s, i)
    case Abort => Abort
    case Match(t, j) =>
      match MoreArgs(mode, s, j)
      case Abort => Abort
      case Match(ts, k) => Match([t] + ts, k)
  }

  /** `many(comma.then(triple))`: a comma whose argument fails to match is not consumed. */
  function MoreArgs(mode: Mode, s: string, i: nat): (r: Reply<seq<seq<Js>>>)
    requires i <= |s|
    ensures r.Match? ==> (i <= r.next <= |s|
      && forall k :: 0 <= k < |r.value| ==> |r.value[k]| == 3 && r.value[k][0].JStr? && r.value[k][2].JStr?)
    ensures !r.NoMatch?
    decreases |s| - i, 7
  {
    if i < |s| && s[i] == ',' then
      match ArgTriple(mode, s, i + 1)
      case Abort => Abort
      case Match(t, j) =>
        match MoreArgs(mode, s, j)
        case Abort => Abort
        case Match(ts, k) => Match([t] + ts, k)
    else Match([], i)
  }

  /** One expression item, `addOptionalWhitespace(...)`: `[ws, value, ws]`. */
  function Item(mode: Mode, s: string, i: nat): (r: Reply<seq<Js>>)
    requires i <= |s|
    ensures r.Match? ==> i < r.next <= |s| && |r.value| == 3 && r.value[0].JStr? && r.value[2].JStr?
    // the white space on both sides is taken greedily
    ensures r.Match? ==>
      var w1 := Span(s, i, Space);
      ItemValue(mode, s, w1).Match? && r.value[0] == JStr(s[i..w1]) && r.value[1] == ItemValue(mode, s, w1).value
      && r.next == Span(s, ItemValue(mode, s, w1).next, Space)
    ensures r.NoMatch? <==> ItemValue(mode, s, Span(s, i, Space)).NoMatch?
    decreases |s| - i, 2
  {
    var w1 := Span(s, i, Space);
    match ItemValue(mode, s, w1)
    case Abort => Abort
    case NoMatch => NoMatch
    case Match(v, j) =>
      var w2 := Span(s, j, Space);
      Match([JStr(s[i..w1]), v, JStr(s[j..w2])], w2)
  }

  /** The item itself: `P.alt(function, reference, operator, primitive, partialFunction)`. */
  function ItemValue(mode: Mode, s: string, i: nat): (r: Reply<Js>)
    requires i <= |s|
    ensures r.Match? ==> i < r.next <= |s|
    decreases |s| - i, 1
  {
    match FunctionRule(mode, s, i)
    case Match(v, j) => Match(v, j)
    case Abort => Abort
    case NoMatch =>
      var rf := ReferenceRule(mode, s, i);
      if rf.Match? then rf
      else match OperatorRule(s, i)
        case Match(op, j) => Match(JStr(op), j)
        case NoMatch =>
          var p := PrimitiveRule(mode.ast, s, i);
          if p.Match? then p else PartialRule(s, i)
  }

  /** `item.sepBy(P.string(""))`: as many items as match, possibly none. */
  function Items(mode: Mode, s: string, i: nat): (r: Reply<seq<seq<Js>>>)
    requires i <= |s|
    ensures r.Match? ==> (i <= r.next <= |s|
      && forall k :: 0 <= k < |r.value| ==> |r.value[k]| == 3)
    ensures r.Match? && |r.value| == 0 ==> r.next == i
    ensures !r.NoMatch?
    decreases |s| - i, 3
  {
    match Item(mode, s, i)
    case Abort => Abort
    case NoMatch => Match([], i)
    case Match(t, j) =>
      match Items(mode, s, j)
      case Abort => Abort
      case Match(ts, k) => Match([t] + ts, k)
  }

  /** `expression`: the items, then `handleExtendedExpressions`. It matches the empty text too. */
  function Expression(mode: Mode, s: string, i: nat): (r: Reply<Js>)
    requires i <= |s|
    ensures r.Match? ==> i <= r.next <= |s|
    ensures !r.NoMatch?
    ensures mode.ast && r.Match? ==> r.value.JNode? && r.value.node.Expression?
    // the value is what `handleExtendedExpressions` makes of the items
    ensures r.Match? ==> (Items(mode, s, i).Match? && r.next == Items(mode, s, i).next
      && HandleExtendedExpressions(mode.ast, Items(mode, s, i).value) == Returns(r.value))
    decreases |s| - i, 4
  {
    match Items(mode, s, i)
    case Abort => Abort
    case Match(items, j) =>
      match HandleExtendedExpressions(mode.ast, items)
      case Throws => Abort
      case Returns(v) => Match(v, j)
  }

  /** `formula`: `=`, optional white space, the body; `removeNonValues`, then `getFirst`. */
  function FormulaRule(mode: Mode, s: string, i: nat): (r: Reply<Js>)
    requires i <= |s|
    ensures r.Match? ==> i < r.next <= |s|
    ensures r.NoMatch? <==> !(i < |s| && s[i] == '=')
    ensures mode.ast && r.Match? ==> r.value.JNode? && r.value.node.Formula?
  {
    if i < |s| && s[i] == '=' then
      var w := Span(s, i + 1, Space);
      // `P.alt(expression, function)`: `expression` always matches, so `function` is never tried
      match Expression(mode, s, w)
      case Abort => Abort
      case Match(v, j) => Match(FormulaResult(mode.ast, s[i + 1..w], v), j)
    else NoMatch
  }

  /** What `formula` makes of its body `v`, matched after the white space ending at `w`. */
  lemma FormulaValue(mode: Mode, s: string, i: nat, w: nat, v: Js, j: nat)
    requires i < |s| && s[i] == '=' && w == Span(s, i + 1, Space)
    requires Expression(mode, s, w) == Match(v, j)
    ensures FormulaRule(mode, s, i) == Match(FormulaResult(mode.ast, s[i + 1..w], v), j)
    // when evaluating, the value is the body's unless white space other than one
    // space follows `=`: that white space is kept as a value, and comes first
    ensures !mode.ast && s[i + 1..w] in ["", " "] && !Blacklisted(false, v) ==> FormulaRule(mode, s, i).value == v
    ensures !mode.ast && s[i + 1..w] !in ["", " "] ==> FormulaRule(mode, s, i).value == JStr(s[i + 1..w])
  {
    SpaceBlacklisted(s, i + 1, w, mode.ast);
  }

  /** White space is blacklisted only when empty, or a single space when evaluating. */
  lemma SpaceBlacklisted(s: string, a: nat, b: nat, ast: bool)
    requires a <= b <= |s| && forall p :: a <= p < b ==> InClass(s[p], Space)
    ensures Blacklisted(ast, JStr(s[a..b])) <==> s[a..b] == "" || (!ast && s[a..b] == " ")
  {
    if b > a {
      assert s[a..b][0] == s[a] && InClass(s[a], Space);
      assert s[a..b] !in ["=", "(", ")"];
    }
  }

  /** `formula` as evidently intended (see README, Findings): the white space after `=`
      is not a value, so the formula's value is its body's. */
  function FormulaRuleIntended(mode: Mode, s: string, i: nat): (r: Reply<Js>)
    requires i <= |s|
    ensures r.NoMatch? <==> !(i < |s| && s[i] == '=')
    ensures r.Match? ==>
      var w := Span(s, i + 1, Space);
      Expression(mode, s, w).Match? && r.next == Expression(mode, s, w).next
      && (!Blacklisted(mode.ast, Expression(mode, s, w).value) ==>
            r.value == if mode.ast then JNode(Formula(AsNode(Expression(mode, s, w).value)))
                       else Expression(mode, s, w).value)
  {
    if i < |s| && s[i] == '=' then
      var w := Span(s, i + 1, Space);
      match Expression(mode, s, w)
      case Abort => Abort
      case Match(v, j) => Match(FormulaResult(mode.ast, "", v), j)
    else NoMatch
  }

  /** The corrected rule agrees with the written one whenever the white space after
      `=` is blacklisted anyway: none, or one space when evaluating. */
  lemma FormulaIntendedAgrees(mode: Mode, s: string, i: nat)
    requires i < |s| && s[i] == '='
    requires Blacklisted(mode.ast, JStr(s[i + 1..Span(s, i + 1, Space)]))
    ensures FormulaRuleIntended(mode, s, i) == FormulaRule(mode, s, i)
  {
    var w := Span(s, i + 1, Space);
    match Expression(mode, s, w)
    case Abort =>
    case Match(v, j) =>
      FormulaCandidates(mode.ast, s[i + 1..w], v);
      FormulaCandidates(mode.ast, "", v);
  }

  /** `main`: `P.alt(formula, primitive)`. */
  function MainRule(mode: Mode, s: string): (r: Reply<Js>)
    ensures r.Match? ==> 0 < r.next <= |s|
    ensures 0 < |s| && s[0] == '=' ==> r == FormulaRule(mode, s, 0)
  {
    var f := FormulaRule(mode, s, 0);
    if f.NoMatch? then PrimitiveRule(mode.ast, s, 0) else f
  }

  /** The returned `parse(input)`: the two special inputs, then `tryParse`, which
      demands that `main` match the whole input; anything else is a syntax error. */
  function Parse(mode: Mode, input: string): (r: Js)
    ensures input == "" ==> r == JRes(Ok(Str("")))
    ensures input == "=" ==> r == JRes(Ok(Str("=")))
    ensures input != "" && input != "=" ==>
      match MainRule(mode, input)
      case Match(v, j) => r == if j == |input| then v else JRes(Fail("syntax"))
      case _ => r == JRes(Fail("syntax"))
  {
    if input == "" then JRes(Ok(Str("")))
    else if input == "=" then JRes(Ok(Str("=")))
    else match MainRule(mode, input)
      case Match(v, j) => if j == |input| then v else JRes(Fail("syntax"))
      case _ => JRes(Fail("syntax"))
  }
}
