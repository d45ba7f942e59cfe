/** One step of each grammar rule at a known position, so that a concrete formula
    can be parsed rule by rule. */
module GrammarSteps {
  import opened Utility
  import opened Values
  import opened Operators
  import opened Ast
  import opened Actions
  import opened Grammar

  /** A run of class `k` from `i` to `j`, ended by the input or by another character. */
  lemma {:induction false} SpanRun(s: string, i: nat, j: nat, k: CharClass)
    requires i <= j <= |s|
    requires forall p :: i <= p < j ==> InClass(s[p], k)
    requires j == |s| || !InClass(s[j], k)
    ensures Span(s, i, k) == j
    decreases j - i
  {
    if i < j {
      SpanRun(s, i + 1, j, k);
    }
  }

  /** A character that cannot start a function call makes `function` fail. */
  lemma NotAFunction(mode: Mode, s: string, i: nat)
    requires i < |s| && !InClass(s[i], Lower) && s[i] != '('
    ensures FunctionRule(mode, s, i) == NoMatch
  {
    SpanRun(s, i, i, Lower);
  }

  /** `)`, `,` or the end of the input ends the items of an expression. */
  lemma ItemsEnd(mode: Mode, s: string, i: nat)
    requires i <= |s| && (i == |s| || s[i] == ')' || s[i] == ',')
    ensures Items(mode, s, i) == Match([], i)
  {
    SpanRun(s, i, i, Space);
    if i < |s| {
      NotAFunction(mode, s, i);
      SpanRun(s, i, i, Upper);
      if StartsWith(s, i, "true") { FirstChar(s, i, "true"); }
      if StartsWith(s, i, "false") { FirstChar(s, i, "false"); }
    }
    assert ItemValue(mode, s, i) == NoMatch;
  }

  /** A run of digits not followed by a point is a number. */
  lemma DigitsNumber(ast: bool, s: string, i: nat, j: nat)
    requires i < j <= |s| && forall p :: i <= p < j ==> IsDigit(s[p])
    requires j == |s| || (!IsDigit(s[j]) && s[j] != '.')
    ensures AllDigits(s[i..j])
    ensures PrimitiveRule(ast, s, i) == Match(PrimitiveValue(ast, Num(DigitsValue(s[i..j]) as real)), j)
  {
    SpanRun(s, i, j, Digit);
    SpanDigits(s, i, j);
    if StartsWith(s, i, "true") { FirstChar(s, i, "true"); }
    if StartsWith(s, i, "false") { FirstChar(s, i, "false"); }
    assert NumberRule(ast, s, i) == Match(PrimitiveValue(ast, Num(PartsValue(s, i, j, i, j))), j);
  }

  /** ... and so a number item. */
  lemma DigitsItemValue(mode: Mode, s: string, i: nat, j: nat)
    requires i < j <= |s| && forall p :: i <= p < j ==> IsDigit(s[p])
    requires j == |s| || (!IsDigit(s[j]) && s[j] != '.')
    ensures AllDigits(s[i..j])
    ensures ItemValue(mode, s, i) == Match(PrimitiveValue(mode.ast, Num(DigitsValue(s[i..j]) as real)), j)
  {
    NotAFunction(mode, s, i);
    SpanRun(s, i, i, Upper);
    DigitsNumber(mode.ast, s, i, j);
  }

  /** A run of digits with no white space around it is a tight number item. */
  lemma DigitsItem(mode: Mode, s: string, i: nat, j: nat)
    requires i < j <= |s| && forall p :: i <= p < j ==> IsDigit(s[p])
    requires j == |s| || (!IsDigit(s[j]) && s[j] != '.' && !IsSpace(s[j]))
    ensures AllDigits(s[i..j])
    ensures Item(mode, s, i) == Match([JStr(""), PrimitiveValue(mode.ast, Num(DigitsValue(s[i..j]) as real)), JStr("")], j)
  {
    DigitsItemValue(mode, s, i, j);
    TightItem(mode, s, i, PrimitiveValue(mode.ast, Num(DigitsValue(s[i..j]) as real)), j);
  }

  /** An operator character is an operator item. */
  lemma OperatorItemValue(mode: Mode, s: string, i: nat)
    requires i < |s| && IsOperatorChar(s[i])
    ensures ItemValue(mode, s, i) == Match(JStr([s[i]]), i + 1)
  {
    NotAFunction(mode, s, i);
    SpanRun(s, i, i, Upper);
  }

  /** Capitals followed by digits are a reference item. */
  lemma ReferenceItemValue(mode: Mode, s: string, i: nat, u: nat, d: nat)
    requires i < u < d <= |s|
    requires forall p :: i <= p < u ==> InClass(s[p], Upper)
    requires forall p :: u <= p < d ==> IsDigit(s[p])
    requires d == |s| || !IsDigit(s[d])
    ensures ItemValue(mode, s, i) == Match(HandleReference(mode, s[i..d]), d)
  {
    NotAFunction(mode, s, i);
    SpanRun(s, i, u, Upper);
    SpanRun(s, u, d, Digit);
  }

  /** A function call is a function item. */
  lemma FunctionItemValue(mode: Mode, s: string, i: nat, v: Js, j: nat)
    requires i <= |s| && FunctionRule(mode, s, i) == Match(v, j)
    ensures ItemValue(mode, s, i) == Match(v, j)
  {
  }

  /** An item with the white space around it. */
  lemma ItemAt(mode: Mode, s: string, i: nat, w1: nat, v: Js, j: nat, w2: nat)
    requires i <= w1 <= |s| && w1 == Span(s, i, Space)
    requires ItemValue(mode, s, w1) == Match(v, j) && w2 == Span(s, j, Space)
    ensures Item(mode, s, i) == Match([JStr(s[i..w1]), v, JStr(s[j..w2])], w2)
  {
  }

  /** No white space at `i` nor at `j`. */
  lemma NoSpace(s: string, i: nat, j: nat)
    requires i < |s| && i <= j <= |s| && !IsSpace(s[i]) && (j == |s| || !IsSpace(s[j]))
    ensures Span(s, i, Space) == i && Span(s, j, Space) == j
    ensures s[i..i] == "" && s[j..j] == ""
  {
    SpanRun(s, i, i, Space);
    SpanRun(s, j, j, Space);
  }

  /** An item with no white space around it. */
  lemma TightItem(mode: Mode, s: string, i: nat, v: Js, j: nat)
    requires i < j <= |s| && !IsSpace(s[i]) && (j == |s| || !IsSpace(s[j]))
    requires ItemValue(mode, s, i) == Match(v, j)
    ensures Item(mode, s, i) == Match([JStr(""), v, JStr("")], j)
  {
    NoSpace(s, i, j);
    ItemAt(mode, s, i, i, v, j, j);
  }

  /** No white space at `i`, and exactly one space at `j`. */
  lemma OneSpace(s: string, i: nat, j: nat)
    requires i <= j && j + 1 < |s| && !IsSpace(s[i]) && s[j] == ' ' && !IsSpace(s[j + 1])
    ensures Span(s, i, Space) == i && Span(s, j, Space) == j + 1
    ensures s[i..i] == "" && s[j..j + 1] == " "
  {
    SpanRun(s, i, i, Space);
    SpanRun(s, j, j + 1, Space);
  }

  /** An item with no white space before it and one space after it. */
  lemma SpacedItem(mode: Mode, s: string, i: nat, v: Js, j: nat)
    requires i < j && j + 1 < |s| && !IsSpace(s[i]) && s[j] == ' ' && !IsSpace(s[j + 1])
    requires ItemValue(mode, s, i) == Match(v, j)
    ensures Item(mode, s, i) == Match([JStr(""), v, JStr(" ")], j + 1)
  {
    OneSpace(s, i, j);
    ItemAt(mode, s, i, i, v, j, j + 1);
  }

  lemma ItemsCons(mode: Mode, s: string, i: nat, t: seq<Js>, j: nat, ts: seq<seq<Js>>, k: nat)
    requires i <= |s| && Item(mode, s, i) == Match(t, j) && Items(mode, s, j) == Match(ts, k)
    ensures Items(mode, s, i) == Match([t] + ts, k)
  {
  }

  lemma ExpressionAt(mode: Mode, s: string, i: nat, items: seq<seq<Js>>, j: nat, v: Js)
    requires i <= |s| && Items(mode, s, i) == Match(items, j)
    requires HandleExtendedExpressions(mode.ast, items) == Returns(v)
    ensures Grammar.Expression(mode, s, i) == Match(v, j)
  {
  }

  /** An argument that is not a call is an expression. */
  lemma ArgTripleAt(mode: Mode, s: string, i: nat, w1: nat, v: Js, j: nat, w2: nat)
    requires i <= w1 < |s| && w1 == Span(s, i, Space)
    requires !InClass(s[w1], Lower) && s[w1] != '('
    requires Grammar.Expression(mode, s, w1) == Match(v, j) && w2 == Span(s, j, Space)
    ensures ArgTriple(mode, s, i) == Match([JStr(s[i..w1]), v, JStr(s[j..w2])], w2)
  {
    NotAFunction(mode, s, w1);
  }

  /** An argument with no white space around it. */
  lemma TightArg(mode: Mode, s: string, i: nat, v: Js, j: nat)
    requires i < |s| && i <= j <= |s| && !IsSpace(s[i]) && (j == |s| || !IsSpace(s[j]))
    requires !InClass(s[i], Lower) && s[i] != '('
    requires Grammar.Expression(mode, s, i) == Match(v, j)
    ensures ArgTriple(mode, s, i) == Match([JStr(""), v, JStr("")], j)
  {
    NoSpace(s, i, j);
    ArgTripleAt(mode, s, i, i, v, j, j);
  }

  lemma MoreArgsEnd(mode: Mode, s: string, i: nat)
    requires i <= |s| && !(i < |s| && s[i] == ',')
    ensures MoreArgs(mode, s, i) == Match([], i)
  {
  }

  lemma MoreArgsCons(mode: Mode, s: string, i: nat, t: seq<Js>, j: nat, ts: seq<seq<Js>>, k: nat)
    requires i < |s| && s[i] == ','
    requires ArgTriple(mode, s, i + 1) == Match(t, j) && MoreArgs(mode, s, j) == Match(ts, k)
    ensures MoreArgs(mode, s, i) == Match([t] + ts, k)
  {
  }

  lemma ArgItemsAt(mode: Mode, s: string, i: nat, t: seq<Js>, j: nat, ts: seq<seq<Js>>, k: nat)
    requires i <= |s| && ArgTriple(mode, s, i) == Match(t, j) && MoreArgs(mode, s, j) == Match(ts, k)
    ensures ArgItems(mode, s, i) == Match([t] + ts, k)
  {
  }

  /** A call: the name before `(`, the argument triples, `)`, and `handleFunction`. */
  lemma FunctionAt(mode: Mode, s: string, i: nat, l: nat, triples: seq<seq<Js>>, j: nat, v: Js)
    requires i <= l < |s| && l == Span(s, i, Lower)
    requires s[l] == '(' && ArgItems(mode, s, l + 1) == Match(triples, j)
    requires j < |s| && s[j] == ')' && HandleFunction(mode.ast, s[i..l], triples) == Returns(v)
    ensures FunctionRule(mode, s, i) == Match(v, j + 1)
  {
    FunctionRuleUnfold(mode, s, i, l);
  }

  lemma FunctionRuleUnfold(mode: Mode, s: string, i: nat, l: nat)
    requires i <= l < |s| && l == Span(s, i, Lower) && s[l] == '('
    ensures FunctionRule(mode, s, i) == match ArgItems(mode, s, l + 1)
      case Abort => Abort
      case NoMatch => Abort
      case Match(triples, j) =>
        if j < |s| && s[j] == ')' then
          match HandleFunction(mode.ast, s[i..l], triples)
          case Throws => Abort
          case Returns(v) => Match(v, j + 1)
        else NoMatch
  {
  }

  /** A formula whose body is the whole rest of the input is the parse's result. */
  lemma ParseFormula(mode: Mode, s: string, v: Js)
    requires 1 < |s| && s[0] == '=' && FormulaRule(mode, s, 0) == Match(v, |s|)
    ensures Parse(mode, s) == v
  {
  }
}
