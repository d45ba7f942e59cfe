/** Formulas of src/parser/test_eval.js, parsed rule by rule when evaluating
    against that file's cells. */
module ParseExamples {
  import opened Utility
  import opened Values
  import opened Operators
  import Builtins
  import opened Ast
  import opened Actions
  import opened Grammar
  import opened GrammarSteps

  /** The cells of the test file: A1 holds 5, B3 holds 13, C8 failed. */
  function Cells(): map<string, Result<Value>>
  {
    map["A1" := Ok(Num(5.0)), "B3" := Ok(Num(13.0)), "C8" := Fail("syntax")]
  }

  function Evaluating(): Mode { Mode(false, Cells()) }

  /** `=A1` is the value of cell A1. */
  lemma ParseReference(mode: Mode)
    requires !mode.ast && "A1" in mode.refs && mode.refs["A1"] == Ok(Num(5.0))
    ensures Parse(mode, "=A1") == JRes(Ok(Num(5.0)))
  {
    ReferenceSteps(mode, "=A1");
  }

  lemma ReferenceSteps(mode: Mode, s: string)
    requires !mode.ast && "A1" in mode.refs && mode.refs["A1"] == Ok(Num(5.0))
    requires s == "=A1"
    ensures Parse(mode, s) == JRes(Ok(Num(5.0)))
  {
    var v := JRes(Ok(Num(5.0)));
    ReferenceItem(mode, s);
    ItemsEnd(mode, s, 3);
    ItemsCons(mode, s, 1, Tight(v), 3, [], 3);
    assert [Tight(v)] + [] == [Tight(v)];
    SingleOperand(Tight(v), v);
    ExpressionAt(mode, s, 1, [Tight(v)], 3, v);
    SpanRun(s, 1, 1, Space);
    FormulaValue(mode, s, 0, 1, v, 3);
    ParseFormula(mode, s, v);
  }

  /** `A1` is an item whose value is the cell's. */
  lemma ReferenceItem(mode: Mode, s: string)
    requires !mode.ast && "A1" in mode.refs && mode.refs["A1"] == Ok(Num(5.0))
    requires s == "=A1"
    ensures Item(mode, s, 1) == Match(Tight(JRes(Ok(Num(5.0)))), 3)
  {
    assert s[1..3] == "A1";
    ReferenceItemValue(mode, s, 1, 2, 3);
    TightItem(mode, s, 1, JRes(Ok(Num(5.0))), 3);
  }

  /** A single item whose value is kept is the expression's value. */
  lemma SingleOperand(item: seq<Js>, v: Js)
    requires item == [JStr(""), v, JStr("")] && v.JRes?
    ensures HandleExtendedExpressions(false, [item]) == Returns(v)
  {
    assert SpacedItems([item]);
    OperandsOfSpacedItems([item]);
    assert Middles([item]) == [v];
  }

  function N(n: real): Js { JRes(Ok(Num(n))) }

  /** A digit with no white space around it. */
  lemma DigitItem(mode: Mode, s: string, i: nat)
    requires !mode.ast && i < |s| && IsDigit(s[i])
    requires i + 1 == |s| || (!IsDigit(s[i + 1]) && s[i + 1] != '.' && !IsSpace(s[i + 1]))
    ensures Item(mode, s, i) == Match(Tight(N(DigitValue(s[i]) as real)), i + 1)
  {
    DigitsItem(mode, s, i, i + 1);
    OneDigit(s[i..i + 1]);
  }

  /** Two digits with no white space around them. */
  lemma TwoDigitItem(mode: Mode, s: string, i: nat)
    requires !mode.ast && i + 1 < |s| && IsDigit(s[i]) && IsDigit(s[i + 1])
    requires i + 2 == |s| || (!IsDigit(s[i + 2]) && s[i + 2] != '.' && !IsSpace(s[i + 2]))
    ensures Item(mode, s, i) == Match(Tight(N((10 * DigitValue(s[i]) + DigitValue(s[i + 1])) as real)), i + 2)
  {
    DigitsItem(mode, s, i, i + 2);
    TwoDigits(s[i..i + 2]);
  }

  lemma OneDigit(d: string)
    requires |d| == 1 && AllDigits(d)
    ensures DigitsValue(d) == DigitValue(d[0])
  {
    assert d[..0] == [];
  }

  lemma TwoDigits(d: string)
    requires |d| == 2 && AllDigits(d)
    ensures DigitsValue(d) == 10 * DigitValue(d[0]) + DigitValue(d[1])
  {
    assert d[..1][..0] == [] && d[..1][0] == d[0];
    assert DigitsValue(d[..1]) == DigitValue(d[0]);
  }

  /** A digit followed by one space. */
  lemma SpacedDigitItem(mode: Mode, s: string, i: nat)
    requires !mode.ast && i + 2 < |s| && IsDigit(s[i]) && s[i + 1] == ' ' && !IsSpace(s[i + 2])
    ensures Item(mode, s, i) == Match([JStr(""), N(DigitValue(s[i]) as real), JStr(" ")], i + 2)
  {
    DigitsItemValue(mode, s, i, i + 1);
    OneDigit(s[i..i + 1]);
    SpacedItem(mode, s, i, N(DigitValue(s[i]) as real), i + 1);
  }

  /** An operator character followed by one space. */
  lemma SpacedOperatorItem(mode: Mode, s: string, i: nat)
    requires i + 2 < |s| && IsOperatorChar(s[i]) && s[i + 1] == ' ' && !IsSpace(s[i + 2])
    ensures Item(mode, s, i) == Match([JStr(""), JStr([s[i]]), JStr(" ")], i + 2)
  {
    OperatorItemValue(mode, s, i);
    SpacedItem(mode, s, i, JStr([s[i]]), i + 1);
  }

  /** An operator character with no white space around it. */
  lemma OperatorItem(mode: Mode, s: string, i: nat)
    requires i + 1 < |s| && IsOperatorChar(s[i]) && !IsSpace(s[i + 1])
    ensures Item(mode, s, i) == Match(Tight(JStr([s[i]])), i + 1)
  {
    OperatorItemValue(mode, s, i);
    TightItem(mode, s, i, JStr([s[i]]), i + 1);
  }

  /** `=1+2-3+17-5` is 12: the operators apply from left to right. */
  lemma ParseChained(mode: Mode)
    requires !mode.ast
    ensures Parse(mode, "=1+2-3+17-5") == N(12.0)
  {
    ChainedSteps(mode, "=1+2-3+17-5");
  }

  lemma ChainedSteps(mode: Mode, s: string)
    requires !mode.ast && ChainedText(s)
    ensures Parse(mode, s) == N(12.0)
  {
    ChainedExpression(mode, s);
    SpanRun(s, 1, 1, Space);
    FormulaValue(mode, s, 0, 1, N(12.0), 11);
    ParseFormula(mode, s, N(12.0));
  }

  lemma ChainedExpression(mode: Mode, s: string)
    requires !mode.ast && ChainedText(s)
    ensures Grammar.Expression(mode, s, 1) == Match(N(12.0), 11)
  {
    ChainedItems(mode, s);
    var items := [Tight(N(1.0))] + ([Tight(JStr("+"))] + ([Tight(N(2.0))] + ([Tight(JStr("-"))] + ([Tight(N(3.0))]
      + ([Tight(JStr("+"))] + ([Tight(N(17.0))] + ([Tight(JStr("-"))] + ([Tight(N(5.0))] + []))))))));
    ChainedFold(items);
    ExpressionAt(mode, s, 1, items, 11, N(12.0));
  }

  /** The characters of `=1+2-3+17-5`. */
  predicate ChainedText(s: string)
  {
    |s| == 11 && s[0] == '=' && s[1] == '1' && s[2] == '+' && s[3] == '2' && s[4] == '-'
    && s[5] == '3' && s[6] == '+' && s[7] == '1' && s[8] == '7' && s[9] == '-' && s[10] == '5'
  }

  /** An item with no white space around its value. */
  function Tight(v: Js): seq<Js> { [JStr(""), v, JStr("")] }

  /** The items of `1+2-3+17-5`: each number and each operator, without white space. */
  lemma ChainedItems(mode: Mode, s: string)
    requires !mode.ast && ChainedText(s)
    ensures Items(mode, s, 1) == Match([Tight(N(1.0))] + ([Tight(JStr("+"))] + ([Tight(N(2.0))] + ([Tight(JStr("-"))] + ([Tight(N(3.0))]
      + ([Tight(JStr("+"))] + ([Tight(N(17.0))] + ([Tight(JStr("-"))] + ([Tight(N(5.0))] + [])))))))), 11)
  {
    DigitItem(mode, s, 1);
    ChainedItemsFrom2(mode, s);
    var tail := [Tight(JStr("+"))] + ([Tight(N(2.0))] + ([Tight(JStr("-"))] + ([Tight(N(3.0))] + ([Tight(JStr("+"))]
      + ([Tight(N(17.0))] + ([Tight(JStr("-"))] + ([Tight(N(5.0))] + [])))))));
    ItemsCons(mode, s, 1, Tight(N(1.0)), 2, tail, 11);
  }

  lemma ChainedItemsFrom2(mode: Mode, s: string)
    requires !mode.ast && ChainedText(s)
    ensures Items(mode, s, 2) == Match([Tight(JStr("+"))] + ([Tight(N(2.0))] + ([Tight(JStr("-"))] + ([Tight(N(3.0))]
      + ([Tight(JStr("+"))] + ([Tight(N(17.0))] + ([Tight(JStr("-"))] + ([Tight(N(5.0))] + []))))))), 11)
  {
    OperatorItem(mode, s, 2);
    ChainedItemsFrom3(mode, s);
    var tail := [Tight(N(2.0))] + ([Tight(JStr("-"))] + ([Tight(N(3.0))] + ([Tight(JStr("+"))]
      + ([Tight(N(17.0))] + ([Tight(JStr("-"))] + ([Tight(N(5.0))] + []))))));
    ItemsCons(mode, s, 2, Tight(JStr("+")), 3, tail, 11);
  }

  /** Folding the operands from the left gives 12. */
  lemma ChainedFold(items: seq<seq<Js>>)
    requires items == [Tight(N(1.0))] + ([Tight(JStr("+"))] + ([Tight(N(2.0))] + ([Tight(JStr("-"))] + ([Tight(N(3.0))]
      + ([Tight(JStr("+"))] + ([Tight(N(17.0))] + ([Tight(JStr("-"))] + ([Tight(N(5.0))] + []))))))))
    ensures HandleExtendedExpressions(false, items) == Returns(N(12.0))
  {
    var r4 := [JStr("-")] + ([N(5.0)] + []);
    var r3 := [JStr("+")] + ([N(17.0)] + r4);
    var r2 := [JStr("-")] + ([N(3.0)] + r3);
    var r1 := [JStr("+")] + ([N(2.0)] + r2);
    var same := ChainedOperands();
    ChainedLeftFold();
    FoldOfOperands(items, [N(1.0)] + r1, N(12.0));
  }

  /** 1 + 2 - 3 + 17 - 5, from left to right. */
  lemma ChainedLeftFold()
    ensures LeftFold(N(1.0), [JStr("+")] + ([N(2.0)] + ([JStr("-")] + ([N(3.0)]
      + ([JStr("+")] + ([N(17.0)] + ([JStr("-")] + ([N(5.0)] + [])))))))) == Returns(N(12.0))
  {
    var r4 := [JStr("-")] + ([N(5.0)] + []);
    var r3 := [JStr("+")] + ([N(17.0)] + r4);
    var r2 := [JStr("-")] + ([N(3.0)] + r3);
    NumberStep(1.0, "+", 2.0);
    LeftFoldStep(N(1.0), JStr("+"), N(2.0), r2, N(3.0));
    NumberStep(3.0, "-", 3.0);
    LeftFoldStep(N(3.0), JStr("-"), N(3.0), r3, N(0.0));
    NumberStep(0.0, "+", 17.0);
    LeftFoldStep(N(0.0), JStr("+"), N(17.0), r4, N(17.0));
    NumberStep(17.0, "-", 5.0);
    LeftFoldStep(N(17.0), JStr("-"), N(5.0), [], N(12.0));
  }

  /** The operands are the items' values, in order. */
  lemma ChainedOperands() returns (items: seq<seq<Js>>)
    ensures items == [Tight(N(1.0))] + ([Tight(JStr("+"))] + ([Tight(N(2.0))] + ([Tight(JStr("-"))] + ([Tight(N(3.0))]
      + ([Tight(JStr("+"))] + ([Tight(N(17.0))] + ([Tight(JStr("-"))] + ([Tight(N(5.0))] + []))))))))
    ensures SpacedItems(items)
    ensures Middles(items) == [N(1.0)] + ([JStr("+")] + ([N(2.0)] + ([JStr("-")] + ([N(3.0)]
      + ([JStr("+")] + ([N(17.0)] + ([JStr("-")] + ([N(5.0)] + []))))))))
  {
    var tail := ChainedOperandsFrom3();
    TightCons(JStr("-"), tail);
    tail := [Tight(JStr("-"))] + tail;
    TightCons(N(2.0), tail);
    tail := [Tight(N(2.0))] + tail;
    TightCons(JStr("+"), tail);
    tail := [Tight(JStr("+"))] + tail;
    TightCons(N(1.0), tail);
    items := [Tight(N(1.0))] + tail;
  }

  lemma ChainedOperandsFrom3() returns (items: seq<seq<Js>>)
    ensures items == [Tight(N(3.0))] + ([Tight(JStr("+"))] + ([Tight(N(17.0))] + ([Tight(JStr("-"))] + ([Tight(N(5.0))] + []))))
    ensures SpacedItems(items)
    ensures Middles(items) == [N(3.0)] + ([JStr("+")] + ([N(17.0)] + ([JStr("-")] + ([N(5.0)] + []))))
  {
    assert SpacedItems([]) && Middles([]) == [];
    var tail: seq<seq<Js>> := [];
    TightCons(N(5.0), tail);
    tail := [Tight(N(5.0))] + tail;
    TightCons(JStr("-"), tail);
    tail := [Tight(JStr("-"))] + tail;
    TightCons(N(17.0), tail);
    tail := [Tight(N(17.0))] + tail;
    TightCons(JStr("+"), tail);
    tail := [Tight(JStr("+"))] + tail;
    TightCons(N(3.0), tail);
    items := [Tight(N(3.0))] + tail;
  }

  /** A kept value with no white space around it, in front of spaced items. */
  lemma TightCons(v: Js, ts: seq<seq<Js>>)
    requires Kept(v) && SpacedItems(ts)
    ensures SpacedItems([Tight(v)] + ts) && Middles([Tight(v)] + ts) == [v] + Middles(ts)
  {
    assert !Kept(JStr("")) by {
      assert forall k :: 0 <= k < |OperatorsList| ==> |OperatorsList[k]| > 0;
    }
    SpacedCons(Tight(v), ts);
  }

  lemma ChainedItemsFrom3(mode: Mode, s: string)
    requires !mode.ast && ChainedText(s)
    ensures Items(mode, s, 3) == Match([Tight(N(2.0))] + ([Tight(JStr("-"))] + ([Tight(N(3.0))] + ([Tight(JStr("+"))]
      + ([Tight(N(17.0))] + ([Tight(JStr("-"))] + ([Tight(N(5.0))] + [])))))), 11)
  {
    DigitItem(mode, s, 3);
    ChainedItemsFrom4(mode, s);
    ItemsCons(mode, s, 3, Tight(N(2.0)), 4,
      [Tight(JStr("-"))] + ([Tight(N(3.0))] + ([Tight(JStr("+"))] + ([Tight(N(17.0))] + ([Tight(JStr("-"))] + ([Tight(N(5.0))] + []))))), 11);
  }

  lemma ChainedItemsFrom4(mode: Mode, s: string)
    requires !mode.ast && ChainedText(s)
    ensures Items(mode, s, 4) == Match([Tight(JStr("-"))] + ([Tight(N(3.0))] + ([Tight(JStr("+"))]
      + ([Tight(N(17.0))] + ([Tight(JStr("-"))] + ([Tight(N(5.0))] + []))))), 11)
  {
    OperatorItem(mode, s, 4);
    ChainedItemsFrom5(mode, s);
    ItemsCons(mode, s, 4, Tight(JStr("-")), 5,
      [Tight(N(3.0))] + ([Tight(JStr("+"))] + ([Tight(N(17.0))] + ([Tight(JStr("-"))] + ([Tight(N(5.0))] + [])))), 11);
  }

  lemma ChainedItemsFrom5(mode: Mode, s: string)
    requires !mode.ast && ChainedText(s)
    ensures Items(mode, s, 5)
         == Match([Tight(N(3.0))] + ([Tight(JStr("+"))] + ([Tight(N(17.0))] + ([Tight(JStr("-"))] + ([Tight(N(5.0))] + [])))), 11)
  {
    ItemsEnd(mode, s, 11);
    DigitItem(mode, s, 10);
    ItemsCons(mode, s, 10, Tight(N(5.0)), 11, [], 11);
    var tail := [Tight(N(5.0))] + [];
    OperatorItem(mode, s, 9);
    ItemsCons(mode, s, 9, Tight(JStr("-")), 10, tail, 11);
    tail := [Tight(JStr("-"))] + tail;
    TwoDigitItem(mode, s, 7);
    ItemsCons(mode, s, 7, Tight(N(17.0)), 9, tail, 11);
    tail := [Tight(N(17.0))] + tail;
    OperatorItem(mode, s, 6);
    ItemsCons(mode, s, 6, Tight(JStr("+")), 7, tail, 11);
    tail := [Tight(JStr("+"))] + tail;
    DigitItem(mode, s, 5);
    ItemsCons(mode, s, 5, Tight(N(3.0)), 6, tail, 11);
  }

  // ---------------------------------------------------------------------------
  // Calls

  /** Two numbers and an operator between them. */
  lemma BinaryValue(a: real, op: string, b: real, c: real, items: seq<seq<Js>>)
    requires (op == "+" && c == a + b) || (op == "-" && c == a - b) || (op == "*" && c == a * b)
    requires items == [Tight(N(a))] + ([Tight(JStr(op))] + ([Tight(N(b))] + []))
    ensures HandleExtendedExpressions(false, items) == Returns(N(c))
  {
    var tail := [Tight(N(b))] + [];
    TightCons(N(b), []);
    assert Middles([]) == [];
    TightCons(JStr(op), tail);
    tail := [Tight(JStr(op))] + tail;
    TightCons(N(a), tail);
    var rest := [JStr(op)] + ([N(b)] + []);
    BinaryFold(a, op, b, c);
    FoldOfOperands(items, [N(a)] + rest, N(c));
  }

  /** The fold of `a op b`. */
  lemma BinaryFold(a: real, op: string, b: real, c: real)
    requires (op == "+" && c == a + b) || (op == "-" && c == a - b) || (op == "*" && c == a * b)
    ensures LeftFold(N(a), [JStr(op)] + ([N(b)] + [])) == Returns(N(c))
  {
    NumberStep(a, op, b);
    assert c == if op == "+" then a + b else if op == "-" then a - b else a * b by {
      if op == "-" {
        assert op[0] != "+"[0];
      } else if op == "*" {
        assert op[0] != "+"[0] && op[0] != "-"[0];
      }
    }
    LeftFoldStep(N(a), JStr(op), N(b), [], N(c));
  }

  /** Spaced items whose values fold to `v` evaluate to `v`. */
  lemma FoldOfOperands(items: seq<seq<Js>>, operands: seq<Js>, v: Js)
    requires SpacedItems(items) && Middles(items) == operands && |operands| > 1
    requires LeftFold(operands[0], operands[1..]) == Returns(v)
    ensures HandleExtendedExpressions(false, items) == Returns(v)
  {
    OperandsOfSpacedItems(items);
  }

  /** A single digit as a whole call argument, followed by `,` or `)`. */
  lemma DigitArg(mode: Mode, s: string, i: nat)
    requires !mode.ast && i + 1 < |s| && IsDigit(s[i]) && s[i + 1] in {',', ')'}
    ensures ArgTriple(mode, s, i) == Match(Tight(N(DigitValue(s[i]) as real)), i + 1)
  {
    DigitExpression(mode, s, i);
    TightArg(mode, s, i, N(DigitValue(s[i]) as real), i + 1);
  }

  /** A single digit followed by `,` or `)` is an expression. */
  lemma DigitExpression(mode: Mode, s: string, i: nat)
    requires !mode.ast && i + 1 < |s| && IsDigit(s[i]) && s[i + 1] in {',', ')'}
    ensures Grammar.Expression(mode, s, i) == Match(N(DigitValue(s[i]) as real), i + 1)
  {
    var v := N(DigitValue(s[i]) as real);
    DigitItem(mode, s, i);
    ItemsEnd(mode, s, i + 1);
    ItemsCons(mode, s, i, Tight(v), i + 1, [], i + 1);
    assert [Tight(v)] + [] == [Tight(v)];
    SingleOperand(Tight(v), v);
    ExpressionAt(mode, s, i, [Tight(v)], i + 1, v);
  }

  /** The last of several single-digit arguments: `,d)`. */
  lemma LastDigitArg(mode: Mode, s: string, i: nat) returns (more: seq<seq<Js>>)
    requires !mode.ast && i + 2 < |s| && s[i] == ',' && IsDigit(s[i + 1]) && s[i + 2] == ')'
    ensures more == [Tight(N(DigitValue(s[i + 1]) as real))] + []
    ensures MoreArgs(mode, s, i) == Match(more, i + 2)
  {
    DigitArg(mode, s, i + 1);
    MoreArgsEnd(mode, s, i + 2);
    MoreArgsCons(mode, s, i, Tight(N(DigitValue(s[i + 1]) as real)), i + 2, [], i + 2);
    more := [Tight(N(DigitValue(s[i + 1]) as real))] + [];
  }

  /** Two single-digit arguments: `d,d)`. */
  lemma TwoDigitArgs(mode: Mode, s: string, i: nat) returns (triples: seq<seq<Js>>)
    requires !mode.ast && i + 3 < |s| && IsDigit(s[i]) && s[i + 1] == ',' && IsDigit(s[i + 2]) && s[i + 3] == ')'
    ensures triples == [Tight(N(DigitValue(s[i]) as real))] + ([Tight(N(DigitValue(s[i + 2]) as real))] + [])
    ensures ArgItems(mode, s, i) == Match(triples, i + 3)
  {
    DigitArg(mode, s, i);
    var more := LastDigitArg(mode, s, i + 1);
    ArgItemsAt(mode, s, i, Tight(N(DigitValue(s[i]) as real)), i + 1, more, i + 3);
    triples := [Tight(N(DigitValue(s[i]) as real))] + more;
  }

  /** Parentheses are the function named `""`: their value is the one argument's. */
  lemma GroupValue(v: Js)
    requires v.JRes? && v.r.Ok?
    ensures HandleFunction(false, "", [Tight(v)]) == Returns(v)
  {
    var t := Tight(v);
    assert t == [JStr(""), v, JStr("")];
    ArgsOfTriple(false, "", v, "");
    assert CollectArgs(false, [t]) == [v];
    assert Builtins.Lookup("") == Builtins.Own(Builtins.Group);
    assert FirstFailing([v]) == Returns(None);
    assert ArgValues([v]) == [v.r.value];
  }

  /** `=2*(3+4)` is 14: the parenthesised sum is worked out first. */
  lemma ParseBrackets(mode: Mode)
    requires !mode.ast
    ensures Parse(mode, "=2*(3+4)") == N(14.0)
  {
    BracketsSteps(mode, "=2*(3+4)");
  }

  predicate BracketsText(s: string)
  {
    |s| == 8 && s[0] == '=' && s[1] == '2' && s[2] == '*' && s[3] == '(' && s[4] == '3' && s[5] == '+'
    && s[6] == '4' && s[7] == ')'
  }

  lemma BracketsSteps(mode: Mode, s: string)
    requires !mode.ast && BracketsText(s)
    ensures Parse(mode, s) == N(14.0)
  {
    BracketsExpression(mode, s);
    SpanRun(s, 1, 1, Space);
    FormulaValue(mode, s, 0, 1, N(14.0), 8);
    ParseFormula(mode, s, N(14.0));
  }

  lemma BracketsExpression(mode: Mode, s: string)
    requires !mode.ast && BracketsText(s)
    ensures Grammar.Expression(mode, s, 1) == Match(N(14.0), 8)
  {
    var items := BracketsItems(mode, s);
    ProductFold(items);
    ExpressionAt(mode, s, 1, items, 8, N(14.0));
  }

  lemma ProductFold(items: seq<seq<Js>>)
    requires items == [Tight(N(2.0))] + ([Tight(JStr("*"))] + ([Tight(N(7.0))] + []))
    ensures HandleExtendedExpressions(false, items) == Returns(N(14.0))
  {
    BinaryValue(2.0, "*", 7.0, 14.0, items);
  }

  /** The items of `2*(3+4)`. */
  lemma BracketsItems(mode: Mode, s: string) returns (items: seq<seq<Js>>)
    requires !mode.ast && BracketsText(s)
    ensures items == [Tight(N(2.0))] + ([Tight(JStr("*"))] + ([Tight(N(7.0))] + []))
    ensures Items(mode, s, 1) == Match(items, 8)
  {
    BracketsGroup(mode, s);
    TightItem(mode, s, 3, N(7.0), 8);
    ItemsEnd(mode, s, 8);
    var tail: seq<seq<Js>> := [];
    ItemsCons(mode, s, 3, Tight(N(7.0)), 8, tail, 8);
    tail := [Tight(N(7.0))] + tail;
    OperatorItem(mode, s, 2);
    ItemsCons(mode, s, 2, Tight(JStr("*")), 3, tail, 8);
    tail := [Tight(JStr("*"))] + tail;
    DigitItem(mode, s, 1);
    ItemsCons(mode, s, 1, Tight(N(2.0)), 2, tail, 8);
    items := [Tight(N(2.0))] + tail;
  }

  /** `3+4` inside the brackets is 7. */
  lemma InnerSum(mode: Mode, s: string)
    requires !mode.ast && BracketsText(s)
    ensures Grammar.Expression(mode, s, 4) == Match(N(7.0), 7)
  {
    DigitItem(mode, s, 6);
    ItemsEnd(mode, s, 7);
    var tail: seq<seq<Js>> := [];
    ItemsCons(mode, s, 6, Tight(N(4.0)), 7, tail, 7);
    tail := [Tight(N(4.0))] + tail;
    OperatorItem(mode, s, 5);
    ItemsCons(mode, s, 5, Tight(JStr("+")), 6, tail, 7);
    tail := [Tight(JStr("+"))] + tail;
    DigitItem(mode, s, 4);
    ItemsCons(mode, s, 4, Tight(N(3.0)), 5, tail, 7);
    var items := [Tight(N(3.0))] + tail;
    BinaryValue(3.0, "+", 4.0, 7.0, items);
    ExpressionAt(mode, s, 4, items, 7, N(7.0));
  }

  /** `(3+4)` is an item whose value is 7. */
  lemma BracketsGroup(mode: Mode, s: string)
    requires !mode.ast && BracketsText(s)
    ensures ItemValue(mode, s, 3) == Match(N(7.0), 8)
  {
    SpanRun(s, 3, 3, Lower);
    assert s[3..3] == "";
    GroupValue(N(7.0));
    GroupArgs(mode, s);
    FunctionAt(mode, s, 3, 3, [Tight(N(7.0))], 7, N(7.0));
    FunctionItemValue(mode, s, 3, N(7.0), 8);
  }

  /** The one argument of the brackets. */
  lemma GroupArgs(mode: Mode, s: string)
    requires !mode.ast && BracketsText(s)
    ensures ArgItems(mode, s, 4) == Match([Tight(N(7.0))], 7)
  {
    InnerSum(mode, s);
    TightArg(mode, s, 4, N(7.0), 7);
    MoreArgsEnd(mode, s, 7);
    ArgItemsAt(mode, s, 4, Tight(N(7.0)), 7, [], 7);
    assert [Tight(N(7.0))] + [] == [Tight(N(7.0))];
  }

  // ---------------------------------------------------------------------------
  // Errors of a call

  /** `increment` takes one argument: two are refused before the call. */
  lemma IncrementTooMany(triples: seq<seq<Js>>)
    requires |triples| == 2 && ArgShaped(triples)
    ensures HandleFunction(false, "increment", triples)
         == Returns(JRes(Fail("too many arguments passed to 'increment'")))
  {
    CollectArgsMiddles(triples);
    assert Builtins.Lookup("increment") == Builtins.Own(Builtins.Increment);
    assert "too many arguments passed to '" + "increment" + "'" == "too many arguments passed to 'increment'";
  }

  /** `not_real_fn` is not a built-in function, nor an inherited name. */
  lemma NotRealFunction(triples: seq<seq<Js>>)
    ensures HandleFunction(false, "not_real_fn", triples)
         == Returns(JRes(Fail("unsupported function 'not_real_fn'")))
  {
    var name := "not_real_fn";
    assert name[0] == 'n';
    assert name != "add" && name != "increment" && name != "to_power" && name != "if" && name != "join" by {
      assert "add"[0] != 'n' && "increment"[0] != 'n' && "to_power"[0] != 'n' && "if"[0] != 'n' && "join"[0] != 'n';
    }
    assert name != "" && name != "constructor" && name != "__proto__" by {
      assert "constructor"[0] != 'n' && "__proto__"[0] != 'n';
    }
    assert Builtins.Lookup(name) == Builtins.Absent;
    assert "unsupported function '" + name + "'" == "unsupported function 'not_real_fn'";
  }

  /** A lower-case name written out at `i`. */
  lemma LowerName(s: string, i: nat, l: nat, name: string)
    requires i <= l <= |s| && s[i..l] == name && forall p :: 0 <= p < |name| ==> InClass(name[p], Lower)
    requires l == |s| || !InClass(s[l], Lower)
    ensures Span(s, i, Lower) == l
  {
    assert forall p :: i <= p < l ==> s[p] == name[p - i];
    SpanRun(s, i, l, Lower);
  }

  /** `=increment(2,4)` is refused: too many arguments. */
  lemma ParseIncrement(mode: Mode)
    requires !mode.ast
    ensures Parse(mode, "=increment(2,4)") == JRes(Fail("too many arguments passed to 'increment'"))
  {
    IncrementSteps(mode, "=increment(2,4)");
  }

  predicate IncrementText(s: string)
  {
    |s| == 15 && s[0] == '=' && s[1..10] == "increment" && s[10] == '(' && s[11] == '2' && s[12] == ','
    && s[13] == '4' && s[14] == ')'
  }

  lemma IncrementSteps(mode: Mode, s: string)
    requires !mode.ast && IncrementText(s)
    ensures Parse(mode, s) == JRes(Fail("too many arguments passed to 'increment'"))
  {
    var v := JRes(Fail("too many arguments passed to 'increment'"));
    IncrementCall(mode, s);
    FunctionItemValue(mode, s, 1, v, 15);
    TightItem(mode, s, 1, v, 15);
    ItemsEnd(mode, s, 15);
    ItemsCons(mode, s, 1, Tight(v), 15, [], 15);
    assert [Tight(v)] + [] == [Tight(v)];
    SingleOperand(Tight(v), v);
    ExpressionAt(mode, s, 1, [Tight(v)], 15, v);
    SpanRun(s, 1, 1, Space);
    FormulaValue(mode, s, 0, 1, v, 15);
    ParseFormula(mode, s, v);
  }

  lemma IncrementArgs(mode: Mode, s: string) returns (triples: seq<seq<Js>>)
    requires !mode.ast && IncrementText(s)
    ensures ArgItems(mode, s, 11) == Match(triples, 14) && |triples| == 2 && ArgShaped(triples)
  {
    triples := TwoDigitArgs(mode, s, 11);
  }

  /** The call `increment(2,4)`. */
  lemma IncrementCall(mode: Mode, s: string)
    requires !mode.ast && IncrementText(s)
    ensures FunctionRule(mode, s, 1) == Match(JRes(Fail("too many arguments passed to 'increment'")), 15)
  {
    var triples := IncrementArgs(mode, s);
    IncrementTooMany(triples);
    LowerName(s, 1, 10, "increment");
    FunctionAt(mode, s, 1, 10, triples, 14, JRes(Fail("too many arguments passed to 'increment'")));
  }

  /** `=4 + not_real_fn(3,2)` is refused: the name is not a function. The failure of
      the right-hand side is the value of the sum. */
  lemma ParseUnsupported(mode: Mode)
    requires !mode.ast
    ensures Parse(mode, "=4 + not_real_fn(3,2)") == JRes(Fail("unsupported function 'not_real_fn'"))
  {
    UnsupportedSteps(mode, "=4 + not_real_fn(3,2)");
  }

  predicate UnsupportedText(s: string)
  {
    |s| == 21 && s[0] == '=' && s[1] == '4' && s[2] == ' ' && s[3] == '+' && s[4] == ' '
    && s[5..16] == "not_real_fn" && s[16] == '(' && s[17] == '3' && s[18] == ',' && s[19] == '2' && s[20] == ')'
  }

  lemma UnsupportedSteps(mode: Mode, s: string)
    requires !mode.ast && UnsupportedText(s)
    ensures Parse(mode, s) == JRes(Fail("unsupported function 'not_real_fn'"))
  {
    UnsupportedExpression(mode, s);
    SpanRun(s, 1, 1, Space);
    FormulaValue(mode, s, 0, 1, JRes(Fail("unsupported function 'not_real_fn'")), 21);
    ParseFormula(mode, s, JRes(Fail("unsupported function 'not_real_fn'")));
  }

  lemma UnsupportedExpression(mode: Mode, s: string)
    requires !mode.ast && UnsupportedText(s)
    ensures Grammar.Expression(mode, s, 1) == Match(JRes(Fail("unsupported function 'not_real_fn'")), 21)
  {
    var items := UnsupportedItems(mode, s);
    UnsupportedFold(items);
    ExpressionAt(mode, s, 1, items, 21, JRes(Fail("unsupported function 'not_real_fn'")));
  }

  /** The sum's left side is a number and its right side a failure: the failure. */
  lemma UnsupportedFold(items: seq<seq<Js>>)
    requires items == [[JStr(""), N(4.0), JStr(" ")]]
                      + ([[JStr(""), JStr("+"), JStr(" ")]]
                      + ([Tight(JRes(Fail("unsupported function 'not_real_fn'")))] + []))
    ensures HandleExtendedExpressions(false, items) == Returns(JRes(Fail("unsupported function 'not_real_fn'")))
  {
    var f := JRes(Fail("unsupported function 'not_real_fn'"));
    assert Middles([]) == [];
    var tail := [Tight(f)] + [];
    TightCons(f, []);
    SpacedCons([JStr(""), JStr("+"), JStr(" ")], tail);
    tail := [[JStr(""), JStr("+"), JStr(" ")]] + tail;
    SpacedCons([JStr(""), N(4.0), JStr(" ")], tail);
    var rest := [JStr("+")] + ([f] + []);
    LeftFoldStep(N(4.0), JStr("+"), f, [], f);
    FoldOfOperands(items, [N(4.0)] + rest, f);
  }

  /** The items of `4 + not_real_fn(3,2)`. */
  lemma UnsupportedItems(mode: Mode, s: string) returns (items: seq<seq<Js>>)
    requires !mode.ast && UnsupportedText(s)
    ensures items == [[JStr(""), N(4.0), JStr(" ")]]
                     + ([[JStr(""), JStr("+"), JStr(" ")]]
                     + ([Tight(JRes(Fail("unsupported function 'not_real_fn'")))] + []))
    ensures Items(mode, s, 1) == Match(items, 21)
  {
    SpacedDigitItem(mode, s, 1);
    UnsupportedItemsFrom3(mode, s);
    var tail := [[JStr(""), JStr("+"), JStr(" ")]] + ([Tight(JRes(Fail("unsupported function 'not_real_fn'")))] + []);
    ItemsCons(mode, s, 1, [JStr(""), N(4.0), JStr(" ")], 3, tail, 21);
    items := [[JStr(""), N(4.0), JStr(" ")]] + tail;
  }

  lemma UnsupportedItemsFrom3(mode: Mode, s: string)
    requires !mode.ast && UnsupportedText(s)
    ensures Items(mode, s, 3) == Match([[JStr(""), JStr("+"), JStr(" ")]]
                                       + ([Tight(JRes(Fail("unsupported function 'not_real_fn'")))] + []), 21)
  {
    var f := JRes(Fail("unsupported function 'not_real_fn'"));
    SpacedOperatorItem(mode, s, 3);
    assert [s[3]] == "+";
    UnsupportedCall(mode, s);
    FunctionItemValue(mode, s, 5, f, 21);
    TightItem(mode, s, 5, f, 21);
    ItemsEnd(mode, s, 21);
    ItemsCons(mode, s, 5, Tight(f), 21, [], 21);
    ItemsCons(mode, s, 3, [JStr(""), JStr("+"), JStr(" ")], 5, [Tight(f)] + [], 21);
  }

  /** The call `not_real_fn(3,2)`. */
  lemma UnsupportedCall(mode: Mode, s: string)
    requires !mode.ast && UnsupportedText(s)
    ensures FunctionRule(mode, s, 5) == Match(JRes(Fail("unsupported function 'not_real_fn'")), 21)
  {
    var triples := TwoDigitArgs(mode, s, 17);
    NotRealFunction(triples);
    LowerName(s, 5, 16, "not_real_fn");
    FunctionAt(mode, s, 5, 16, triples, 20, JRes(Fail("unsupported function 'not_real_fn'")));
  }

  /** The formulas above, evaluated against the cells of the test file. */
  lemma EvaluatedInCells()
    ensures Parse(Evaluating(), "=A1") == N(5.0)
    ensures Parse(Evaluating(), "=1+2-3+17-5") == N(12.0)
    ensures Parse(Evaluating(), "=2*(3+4)") == N(14.0)
    ensures Parse(Evaluating(), "=increment(2,4)") == JRes(Fail("too many arguments passed to 'increment'"))
    ensures Parse(Evaluating(), "=4 + not_real_fn(3,2)") == JRes(Fail("unsupported function 'not_real_fn'"))
  {
    var mode := Evaluating();
    assert "A1" in mode.refs && mode.refs["A1"] == Ok(Num(5.0));
    ParseReference(mode);
    ParseChained(mode);
    ParseBrackets(mode);
    ParseIncrement(mode);
    ParseUnsupported(mode);
  }
}
