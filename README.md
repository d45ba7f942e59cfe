# A model of the spreadsheet formula engine

This project models the formula engine of a browser spreadsheet.

- **Parser and evaluator** (`makeParser`). A formula such as `=add(1, A1) * 2` is read by a PEG grammar. In evaluation mode the grammar computes the cell's value as it parses. In AST mode it instead builds a syntax tree of typed nodes: formula, expression, function, reference, operator, number, string, boolean and whitespace. A bare lower-case name (a function without its brackets) gives the failure object `{ok: false, message: "function without arguments"}` in both modes; it is no typed node, so `Regen.Regenerate` renders it as "".
- **Regenerator** (`regen`). It turns such a tree back into formula text, optionally wrapped in `<span class="input-TYPE">` markup for highlighting.
- **Function catalog** (`config.js`). It describes each function for the editor: its arguments, description and implementation.
- **Hints** (`getHints`). For the node holding the caret, it reports which function and which argument the caret is in.
- **Autocomplete** (`autocomplete`). It lists the catalog names that start with what has been typed.
- **Caret locator** (`currentNode`). It finds the text node holding a character position of the editor, and the offset inside it.
- **Utility helpers**: `Ok`, `Fail`, `quotient`, `flatten`, `max`, `min`, `getFirst`.

The parser is one grammar with a mode flag. Replies are `Match(value, next)`, `NoMatch` or `Abort`, where `Abort` is a JavaScript exception thrown inside a semantic action; `parse` turns it into `Fail("syntax")`.
- Alternatives are tried in order and commit to the first that matches, as Parsimmon does.
- JavaScript semantic values are modelled as `Js`: a string, `undefined`, a result object `{ok, value | message}`, or a node.

Numbers are `real`. The catalog used by the evaluator is the small table written in `src/parser/index.js` itself: binary `add`, `increment`, `to_power`, `if`, a variadic `join`, and the unnamed identity. The richer catalog of `src/parser/config.js` is used only by hints and autocomplete.

DOM trees are values of `Dom.Node`: text nodes, and elements with a class and children. A node's identity is its path of child indices from the root.
- `Hints` walks up these paths to the nearest function span.
- `Selection` scans the children with a running character offset. It is written twice: as the recursive `reduce` of the source (`GetNode`), and as a loop (`Locate`).
- `Selection` is proved against a document-order reference: the list of the text nodes, each with where its text starts.

`GrammarSteps` gives one step of each grammar rule at a known position. `ParseExamples` uses these steps to parse and evaluate five formulas of `src/parser/test_eval.js` rule by rule.

The regenerator takes the argument join as a parameter. `Regenerate` is `regen` as written; `RegenerateIntended` uses the join as its comment describes it (see Findings). The formula rule is likewise modelled as written, `FormulaRule`, beside `FormulaRuleIntended`.

The helpers `Ok`, `Fail` and `quotient` appear in three files with the same meaning: `src/utility/index.js`, `src/utility.js` and `src/parser/utility.js`. They are modelled once, in `Utility`.

## Model

| member | source | states |
|---|---|---|
| Utility.Quotient | src/utility/index.js:15 | the result is the floor of top/bottom as a real quotient, for either sign of the divisor |
| Utility.FloorDivision | src/utility.js:15 | for a positive divisor, Euclidean division is floor division |
| Utility.QuotientOfOdd | src/parser/utility.js:15-17 | quotient(2k+1, 2) and quotient(2k, 2) are both k, which pairs consecutive indices |
| Utility.Flatten | src/utility/index.js:19 | the length is the sum of the inner lengths, and the first inner sequence comes first |
| Utility.FlattenAppend | src/utility.js:19 | flattening a concatenation is the concatenation of the flattenings, so order is kept across inner arrays |
| Utility.Max | src/utility/index.js:26 | the result is one of the inputs and bounds both from above |
| Utility.Min | src/utility/index.js:28 | the result is one of the inputs and bounds both from below |
| Utility.GetFirst | src/parser/utility.js:19-21 | present exactly when the array is non-empty; then it is element 0 |
| Values.DigitChar | src/parser/regen_from_ast.js:11 | the character is a decimal digit denoting d |
| Values.IntText | src/parser/regen_from_ast.js:11 | String of a natural number is a non-empty run of digits, with a leading zero only for 0 |
| Values.IntTextRoundTrip | src/parser/index.js:86-87 | reading the printed digits back with Number gives the number again |
| Values.IntegerText | src/parser/regen_from_ast.js:11 | an integer prints as its sign and digits, and the number literal rule reads it back as the same value |
| Values.FractionText | src/parser/regen_from_ast.js:11 | the digits printed after the decimal point are decimal digits, at most as many as the limit |
| Values.FractionDigits | src/parser/regen_from_ast.js:11 | read back, the printed fraction digits are the fraction cut off after that many places, and exactly the fraction when its expansion ends before the limit |
| Values.DigitsValuePrepend | src/parser/index.js:86-87 | a leading digit counts ten to the number of following digits times its value |
| Values.NumberText | src/parser/regen_from_ast.js:11 | String of a number starts with "-" exactly for a negative number and contains "." exactly for a non-integer |
| Values.NumberTextAlphabet | src/parser/regen_from_ast.js:11 | String of a number uses only digits, "-" and "." |
| Values.NonNegativeText | src/parser/regen_from_ast.js:11 | a non-negative number prints without a sign |
| Values.NegativeText | src/parser/regen_from_ast.js:11 | a negative integer prints as "-" and the digits of its magnitude |
| Values.FractionPrinted | src/parser/regen_from_ast.js:11 | a non-negative non-integer prints as its whole digits, ".", and its fraction digits |
| Values.FractionLiteral | src/parser/index.js:85-89 | the number literal rule reads a whole part and printed fraction digits back as the number, to within the last digit, and exactly when fewer digits than the limit were needed |
| Values.NumberTextReadBack | src/parser/regen_from_ast.js:11 | a non-integer number prints as text that the number literal rule reads back as that number, to within the last printed digit |
| Values.NegatedFloor | src/parser/regen_from_ast.js:11 | a number and its negation are integers together |
| Values.ToString | src/parser/regen_from_ast.js:11-15 | String of a string is itself, of a boolean "true" or "false" as it is, and of a number its NumberText |
| Values.Truthy | src/parser/index.js:30 | the falsy values are exactly 0, "" and false |
| Values.JsAdd | src/parser/index.js:7 | concatenation of the string forms when either side is a string, numeric sum when both are numbers |
| Values.StringLessStrict | src/parser/index.js:13 | string `<` is irreflexive and asymmetric |
| Values.StringLessTotal | src/parser/index.js:11-14 | two different strings are ordered one way or the other |
| Values.StringTrichotomy | src/parser/index.js:11-14 | exactly one of a < b, a == b and b < a holds between two strings |
| Values.StringLessTransitive | src/parser/index.js:11-14 | string `<` is transitive |
| Values.JoinWith | src/parser/index.js:33 | join of no parts is empty; join of one part is that part |
| Values.JoinWithConcat | src/parser/index.js:33 | joining a concatenation puts one separator between the joins of the two halves |
| Values.MapToString | src/parser/index.js:33 | each element is converted with String, in place and in order |
| Operators.OpOf | src/parser/index.js:6-17 | defined exactly for the nine keys of `operators`, and inverse to the symbol of each operator |
| Operators.SymbolsInOrder | src/parser/index.js:17 | operatorsList lists the nine operators in declaration order, and looking a symbol up gives its operator back |
| Operators.Comparison | src/parser/index.js:11-14 | fails exactly when one side is a string and the other is not; on numbers and booleans (`true` as 1, `false` as 0) each of `>`, `>=`, `<`, `<=` gives the numeric comparison; on two strings it gives the string order, with equality for `>=` and `<=` |
| Operators.ComparisonConverse | src/parser/index.js:11-14 | swapping the operands turns `>` into `<` and `>=` into `<=` |
| Operators.ComparisonTrichotomy | src/parser/index.js:11-14 | between two strings or two numbers, `<` and `>` never both hold, and one holds exactly when the values differ |
| Operators.Arithmetic | src/parser/index.js:8-9 | `-` and `*` fail exactly when a side is a string; otherwise they are the difference and the product of the operands as numbers, `true` counting as 1 and `false` as 0 on either side |
| Operators.Apply | src/parser/index.js:6-16 | `/` by 0 fails with "divide by 0", `/` on numbers divides, `&` concatenates the string forms, `+` is JavaScript addition |
| Operators.TimesNumbers | src/parser/index.js:9 | `*` on two numbers is their product |
| Builtins.Lookup | src/parser/index.js:19-39 | an own entry has the looked-up name; absent exactly when the name is neither a table key nor an inherited prototype key |
| Builtins.PowerAdd | src/parser/index.js:27 | x^(j+k) = x^j * x^k for the integer powers used by to_power |
| Builtins.ToPowerOf | src/parser/index.js:27 | a successful result is a number, a zero exponent gives 1, and a string base or exponent fails |
| Builtins.ToPowerNatural | src/parser/index.js:27 | an exponent k >= 0 gives x^k |
| Builtins.ToPowerNegative | src/parser/index.js:27 | an exponent -k gives 1/x^k for a non-zero base, and fails on a zero base |
| Builtins.ToPowerExamples | src/parser/test_eval.js:49 | to_power(3, 2) is 9, and to_power(2, -2) is a quarter |
| Builtins.PowerNonZero | src/parser/index.js:27 | a non-zero base to an integer power is non-zero, so negative exponents are defined |
| Builtins.Call | src/parser/index.js:19-39 | increment adds 1, add adds its two arguments, if selects by truthiness, the unnamed entry returns its argument |
| Builtins.JoinSeparates | src/parser/index.js:33 | join puts its first argument between the remaining ones, in order |
| Builtins.MapStr | src/parser/index.js:33 | each string argument as a string value, in order |
| Ast.TypeName | src/parser/regen_from_ast.js:6-7 | a node lacks a `type` exactly when it is not one of the typed node objects |
| Ast.AsNode | src/parser/index.js:193-198 | a node stays itself; any other JavaScript value becomes an untyped object |
| Actions.OkField | src/parser/index.js:128-129 | reading `ok` throws exactly on undefined and is true exactly on an Ok result |
| Actions.HandleExpression | src/parser/index.js:127-137 | a failed left side is returned unchanged, undefined on the left throws, a failed right side is returned, otherwise the operator's result |
| Actions.RemoveEnclosingQuotes | src/parser/index.js:139-141 | drops the first and the last character |
| Actions.QuotesRoundTrip | src/parser/index.js:75-77 | quoting a body and removing the quotes gives the body back |
| Actions.HandleReference | src/parser/index.js:227-239 | AST mode gives a reference node; otherwise a missing reference, a failed referenced cell and a good one give their three results |
| Actions.RemoveNonValues | src/parser/index.js:245-250 | keeps exactly the values that are not blacklisted punctuation (and a single space when evaluating) |
| Actions.RemoveNonValuesAppend | src/parser/index.js:248 | the filter keeps order and multiplicity: filtering a concatenation filters each part |
| Actions.RemoveNonValuesFirst | src/parser/index.js:46-47 | what getFirst reads is the first value that is not blacklisted |
| Actions.FormulaCandidates | src/parser/index.js:45-46 | of a formula's [eq, whitespace, body], the white space remains unless blacklisted, then the body unless blacklisted |
| Actions.FormulaResult | src/parser/index.js:46-48 | the body (or a formula node of it) when the white space is blacklisted; otherwise the white space itself takes the body's place; undefined when nothing remains |
| Actions.WhitespaceKeptAsWritten | src/parser/index.js:45-47 | when evaluating, the two spaces of `=  add(5 , add(2,3))` are kept, and getFirst gives them |
| Actions.DropEmpty | src/parser/index.js:190 | keeps exactly the values other than "" |
| Actions.DropEmptyAppend | src/parser/index.js:190 | dropping "" keeps order and multiplicity: filtering a concatenation filters each part |
| Actions.ItemNodes | src/parser/index.js:193-199 | each value becomes its node: an operator, whitespace, or the node itself |
| Actions.KeepOperands | src/parser/index.js:207-209 | keeps exactly the results and the operator strings |
| Actions.KeepOperandsAppend | src/parser/index.js:207-209 | the operands keep their order: filtering a concatenation filters each part |
| Actions.ItemOperand | src/parser/index.js:190-209 | a [whitespace, value, whitespace] item leaves exactly its value |
| Actions.OperandsOfSpacedItems | src/parser/index.js:190-209 | when evaluating, the operands of an expression are its items' values, in order |
| Actions.SpacedCons | src/parser/index.js:62 | one more item in front puts its value first |
| Actions.MiddlesCons | src/parser/index.js:62 | the values of an item list with one more in front |
| Actions.Pairs | src/parser/index.js:213-218 | groups of one or two, group k starting with rest[2k] |
| Actions.PairsFlatten | src/parser/index.js:213-218 | the groups, flattened, are the operands again: nothing lost or reordered |
| Actions.PairsSnocEven | src/parser/index.js:213-218 | after an even count, the next operand opens a new group |
| Actions.PairsSnocOdd | src/parser/index.js:213-218 | after an odd count, the next operand completes the last group |
| Actions.Reduce | src/parser/index.js:220-223 | no groups give the first operand; a failed running value is the final result; an undefined first operand throws |
| Actions.GroupOperands | src/parser/index.js:213-218 | the grouping loop builds exactly Pairs(rest) |
| Actions.ReduceIsLeftFold | src/parser/index.js:220-223 | reducing over the groups is the plain left fold over operator and operand pairs |
| Actions.FailureAbsorbs | src/parser/index.js:220-223 | once the running value has failed, it is the final result |
| Actions.NoPrecedence | src/parser/index.js:220-223 | a + b * c evaluates as (a + b) * c |
| Actions.LeftFoldStep | src/parser/index.js:220-223 | one step of the fold applies handleExpression to the running value, an operator and its operand |
| Actions.NumberStep | src/parser/index.js:127-137 | a step of `+`, `-` or `*` on two numbers gives their sum, difference or product |
| Actions.HandleExtendedExpressions | src/parser/index.js:188-225 | AST mode gives an expression node of the non-empty items; evaluation gives the first operand alone, or the left fold over the rest |
| Actions.ArgOf | src/parser/index.js:148-152 | in AST mode every value but "", a string becoming a whitespace node; when evaluating, exactly a value that is not a string |
| Actions.ArgsOf | src/parser/index.js:148-152 | AST-mode arguments are all nodes; when evaluating, exactly the non-string values of the triple |
| Actions.ArgsOfAppend | src/parser/index.js:148-152 | the kept values stay in the order of the triple |
| Actions.ArgsOfTriple | src/parser/index.js:148-152 | a parsed triple gives its non-empty white space around the argument in AST mode, and the argument alone when evaluating |
| Actions.CollectArgs | src/parser/index.js:145-155 | all AST-mode arguments are nodes and no evaluation-mode argument is a string; one triple gives its own arguments |
| Actions.CollectArgsAppend | src/parser/index.js:145-155 | the arguments of consecutive runs of triples follow each other, in order |
| Actions.CollectArgsMiddles | src/parser/index.js:145-160 | when evaluating, the arguments the arity check counts are the triples' middle values, one per argument, in order |
| Actions.Middles | src/parser/index.js:95 | the middle value of each triple, in order |
| Actions.Nodes | src/parser/index.js:156 | each argument is used as a node, in order |
| Actions.FirstFailing | src/parser/index.js:169-170 | throws exactly when an argument is undefined; otherwise gives a failing argument when there is one |
| Actions.ArgValues | src/parser/index.js:172 | the values of the argument results, in order |
| Actions.HandleFunction | src/parser/index.js:143-174 | AST mode gives a function node of the name and the collected arguments |
| Actions.HandleFunctionCases | src/parser/index.js:158-172 | when evaluating: an unknown name is "unsupported function", a prototype key throws, a wrong count for a non-variadic function is "too many" or "not enough arguments", an undefined argument throws, otherwise the first failing argument is the result, and with none the function is called on the argument values |
| Grammar.Span | src/parser/index.js:71-72 | the greedy run ends within the input, and every character in it is of the class |
| Grammar.FirstPrefix | src/parser/index.js:67 | the option chosen is the first listed option the input continues with |
| Grammar.PrimitiveValue | src/parser/index.js:78-88 | AST mode gives a typed node; evaluation gives Ok of the value |
| Grammar.OperatorRule | src/parser/index.js:67 | a match consumes exactly an operator symbol of operatorsList, and is never `>=` or `<=` |
| Grammar.FirstOperator | src/parser/index.js:67 | which operator symbol comes first depends on the next character alone, a one-character symbol |
| Grammar.FirstComparison | src/parser/index.js:11-15 | among `>`, `>=`, `<`, `<=`, `&`, the one-character symbol is found first |
| Grammar.OperatorBeforeGreaterEq | src/parser/index.js:67 | on `>=` the operator rule takes `>` and leaves the `=` |
| Grammar.OperatorBeforeLessEq | src/parser/index.js:67 | on `<=` the operator rule takes `<` and leaves the `=` |
| Grammar.StringRule | src/parser/index.js:75-79 | a match runs from a quote to the next closing quote, and its value is the text between |
| Grammar.QuotesRemoved | src/parser/index.js:139-141 | removing the enclosing quotes of a slice gives the text between them |
| Grammar.BooleanRule | src/parser/index.js:80-84 | a match is `true` or `false` and gives that value |
| Grammar.NumberRule | src/parser/index.js:85-89 | a match spells -?digits(.digits)? and gives the number those digits denote |
| Grammar.SpanDigits | src/parser/index.js:86 | a scanned run of digit characters is all digits |
| Grammar.PrimitiveRule | src/parser/index.js:74 | a match consumes input and never throws |
| Grammar.ReferenceRule | src/parser/index.js:107-110 | a match consumes [A-Z]+\d+, and its value is handleReference of that text |
| Grammar.PartialRule | src/parser/index.js:102-105 | matches exactly when a lower-case letter or `_` follows, with the failure object "function without arguments" |
| Grammar.FunctionRule | src/parser/index.js:91-99 | a match ends just after a closing bracket |
| Grammar.FunctionRuleMatch | src/parser/index.js:91-99 | a match's value is handleFunction of the `[a-z_]*` name and the argument triples, and it ends after the `)` that follows them; no match exactly when no `(` follows the name or no `)` follows the arguments |
| Grammar.ArgTriple | src/parser/index.js:95 | an argument with optional whitespace is a [whitespace, value, whitespace] triple, and never a non-match |
| Grammar.FunctionArg | src/parser/index.js:101 | never a non-match, since expression matches the empty text |
| Grammar.ArgItems | src/parser/index.js:95 | at least one argument triple, each of shape [whitespace, value, whitespace] |
| Grammar.MoreArgs | src/parser/index.js:95 | every further argument after a comma is such a triple |
| Grammar.Item | src/parser/index.js:52-61 | an expression item consumes input and is a [whitespace, value, whitespace] triple |
| Grammar.ItemValue | src/parser/index.js:54-60 | a matched item consumes input |
| Grammar.Items | src/parser/index.js:62 | any number of items, possibly none, each a triple |
| Grammar.Expression | src/parser/index.js:51-64 | never a non-match |
| Grammar.FormulaRule | src/parser/index.js:44-49 | does not match exactly when the input does not continue with `=` |
| Grammar.FormulaValue | src/parser/index.js:44-49 | a formula's value is what removeNonValues and getFirst leave of [eq, whitespace, body]; when evaluating, the body's value after no space or one space, and otherwise the white space itself |
| Grammar.SpaceBlacklisted | src/parser/index.js:247 | white space is blacklisted only when empty, or a single space when evaluating |
| Grammar.FormulaRuleIntended | src/parser/index.js:44-49 | the corrected formula: after any white space, the value is the body's (a formula node of it in AST mode) |
| Grammar.FormulaIntendedAgrees | src/parser/index.js:45-47 | the corrected and the written formula agree whenever the white space after `=` is blacklisted anyway |
| Grammar.MainRule | src/parser/index.js:43 | an input starting with `=` is parsed as a formula |
| Grammar.Parse | src/parser/index.js:113-123 | "" and "=" give themselves, a parse of the whole input gives its value, and anything else is Fail("syntax") |
| GrammarSteps.FunctionRuleUnfold | src/parser/index.js:91-99 | at a `(` after the name, the function rule is the arguments, then `)`, then handleFunction |
| GrammarSteps.ArgTripleAt | src/parser/index.js:95-101 | an argument that is not a call is an expression inside its white space |
| GrammarSteps.ItemsEnd | src/parser/index.js:62 | `)`, `,` or the end of the input ends the items of an expression |
| GrammarSteps.DigitsNumber | src/parser/index.js:85-89 | a run of digits not followed by a point is the number those digits denote |
| GrammarSteps.ReferenceItemValue | src/parser/index.js:107-110 | capitals then digits are a reference item |
| GrammarSteps.ParseFormula | src/parser/index.js:113-123 | a formula spanning the whole input is the parse's result |
| ParseExamples.ParseReference | src/parser/test_eval.js:78 | `=A1` is the value of cell A1 |
| ParseExamples.ParseChained | src/parser/test_eval.js:71 | `=1+2-3+17-5` is 12: the operators apply from left to right |
| ParseExamples.ParseBrackets | src/parser/test_eval.js:72 | `=2*(3+4)` is 14: the brackets are a call of the unnamed function, worked out first |
| ParseExamples.GroupValue | src/parser/index.js:36-38 | the unnamed function of one good argument returns it |
| ParseExamples.ParseIncrement | src/parser/test_eval.js:40-42 | `=increment(2,4)` fails with "too many arguments passed to 'increment'" |
| ParseExamples.IncrementTooMany | src/parser/index.js:160-163 | increment with two arguments is refused before the call |
| ParseExamples.ParseUnsupported | src/parser/test_eval.js:61-64 | `=4 + not_real_fn(3,2)` fails with "unsupported function 'not_real_fn'": the failure of the right operand is the sum's value |
| ParseExamples.NotRealFunction | src/parser/index.js:158-159 | `not_real_fn` is neither a built-in nor an inherited name, so the call is "unsupported function" |
| ParseExamples.EvaluatedInCells | src/parser/test_eval.js:4-10 | the five formulas above give those values against the cells of the test file |
| Config.KeysInOrder | src/parser/config.js:16-75 | Object.keys lists the nine entries in declaration order, each once, and each key looks up its entry |
| Config.Lookup | src/parser/config.js:16-75 | defined exactly for the catalog's keys, inverse to Key |
| Config.LookupKey | src/parser/config.js:16-75 | each entry is found under its own key |
| Config.ComputedDescriptor | src/parser/config.js:19-68 | join's argument 0 is the separator (text) and the rest are text; add and multiply take numbers |
| Config.Description | src/parser/config.js:16-75 | every entry but the unnamed one has a description |
| Config.MinArgs | src/parser/config.js:38 | only divide declares minArgs, which is 2 |
| Config.MaxArgs | src/parser/config.js:39 | only divide declares maxArgs, which is 3 |
| Config.Apply | src/parser/config.js:16-75 | throws exactly for add or multiply with no arguments; `if` selects its branch, the unnamed entry returns its argument |
| Config.Nums | src/parser/config.js:18 | numbers as values, in order |
| Config.SumFromNums | src/parser/config.js:18 | reducing with + over numbers is the arithmetic sum |
| Config.SumOfNums | src/parser/config.js:18 | the reduce over numbers from the first is their sum |
| Config.ApplyAdd | src/parser/config.js:17-22 | add of one or more values is the `+` reduce from the first |
| Config.AddNumbers | src/parser/config.js:17-22 | add of one or more numbers is their sum |
| Config.MultiplyNumbers | src/parser/config.js:23-28 | multiply of one number is that number, and of three it is their product |
| Config.AddAgreesWithEvaluator | src/parser/config.js:18 | with two arguments, the catalog's add is the evaluator's binary add |
| Config.DivideCases | src/parser/config.js:29-40 | a zero bottom gives the fallback, whose default is Fail("divide by 0"); otherwise `/` |
| Config.DecrementUndoesIncrement | src/parser/config.js:41-50 | increment adds 1, and decrement of that gives the number back |
| Regen.ReplaceAllAppend | src/parser/regen_from_ast.js:74-81 | replacing every occurrence distributes over concatenation |
| Regen.ReplaceAllAbsent | src/parser/regen_from_ast.js:74-81 | replacing a character that does not occur changes nothing |
| Regen.EscapeOne | src/parser/regen_from_ast.js:74-81 | the five chained replacements escape one character as its entity, or leave it |
| Regen.EscapeHtmlIsPerChar | src/parser/regen_from_ast.js:74-81 | escapeHtml (`EscapeHtml`), five chained replacements, equals escaping each character on its own: `&` is replaced first, so no entity is escaped twice |
| Regen.EscapeEachIsSafe | src/parser/regen_from_ast.js:74-81 | per-character escaping leaves no raw `<`, `>`, `"` or `'` |
| Regen.UnescapeEach | src/parser/regen_from_ast.js:74-81 | decoding the entities undoes per-character escaping |
| Regen.ReplaceAllSingle | src/parser/regen_from_ast.js:76-80 | a global replace on one character replaces it exactly when it is the one searched for |
| Regen.EscapedIsSafe | src/parser/regen_from_ast.js:74-81 | the escaped text contains no raw `<`, `>`, `"` or `'` |
| Regen.UnescapeEscape | src/parser/regen_from_ast.js:74-81 | decoding the five entities recovers the original string: escaping loses nothing |
| Regen.RenderAll | src/parser/regen_from_ast.js:68 | one rendering per child |
| Regen.WhitespaceFlags | src/parser/regen_from_ast.js:56 | marks exactly the whitespace arguments |
| Regen.LastValue | src/parser/regen_from_ast.js:53-63 | the index of the last argument that is not whitespace, if any |
| Regen.CommasJoin | src/parser/regen_from_ast.js:53-63 | without whitespace arguments, the arguments are joined with commas, as both joins do |
| Regen.JoinArgsAgree | src/parser/regen_from_ast.js:53-63 | when the last argument is not whitespace, the corrected join equals the one written |
| Regen.JoinArgsTrailing | src/parser/regen_from_ast.js:53-63 | a trailing whitespace argument is appended whole, with no comma |
| Regen.RenderSucceeds | src/parser/regen_from_ast.js:6-32 | rec (`Render`) succeeds exactly when every node in the tree has a type |
| Regen.RenderAllSucceeds | src/parser/regen_from_ast.js:59 | a list of children renders exactly when all of them do, each to its own rendering |
| Regen.Regenerate | src/parser/regen_from_ast.js:1-3 | regen(ast).reg: the rendering as written of a fully typed tree, and "" otherwise |
| Regen.RegenerateIntended | src/parser/regen_from_ast.js:53-63 | the same with the argument join as intended |
| Regen.PlainRenderHasNoMarkup | src/parser/regen_from_ast.js:22-44 | rec without highlighting adds no markup: no `<` unless a raw text of the tree holds one |
| Regen.PlainRegenerateHasNoMarkup | src/parser/regen_from_ast.js:1-3 | regen with highlight false returns text without `<` for a tree whose texts have none |
| Regen.RegenFunctionWithSpaces | tests/parser/test_regen.js:156-178 | `=add(2, 3)` as the tree [expression 2, whitespace " ", expression 3] regenerates unchanged |
| Regen.RegenTrailingWhitespace | src/parser/regen_from_ast.js:53-64 | the parser's tree of `=f(g(1) )`, whose arguments are the call `g(1)` itself and the whitespace " ", regenerates as `=f(g(1),)` as written, and as `=f(g(1) )` as intended |
| Regen.StringMarkup | src/parser/regen_from_ast.js:42-48 | a highlighted string is its quoted text inside an input-string span |
| Regen.SuffixedCommas | src/parser/regen_from_ast.js:53-62 | with no whitespace argument, the suffixed parts are the comma join followed by one comma |
| Regen.DropLastAppend | src/parser/regen_from_ast.js:63 | slice(0, -1) drops exactly the last character |
| Regen.TrailingAsWritten | src/parser/regen_from_ast.js:53-63 | the written join of [g(1), " "] is "g(1)," |
| Regen.TrailingCorrected | src/parser/regen_from_ast.js:53-63 | the corrected join of [g(1), " "] is "g(1) " |
| Regen.SmallNumberText | src/parser/regen_from_ast.js:11 | a single-digit number prints as that digit |
| Regen.RegenNumber | src/parser/regen_from_ast.js:10-11 | the number 3 regenerates as "3" and the formula =7 as "=7" |
| Regen.EscapePlain | src/parser/regen_from_ast.js:74-81 | text without special characters is unchanged by escaping |
| Regen.RegenPlainString | src/parser/regen_from_ast.js:46-48 | a string node is its quoted text, and is wrapped in an input-string span when highlighting |
| Regen.RegenFormula | src/parser/regen_from_ast.js:21-26 | a formula over an expression is "=" followed by its items' texts |
| Regen.RegenReference | src/parser/regen_from_ast.js:16-20 | =5 + A1 regenerates as "=5 + A1" |
| Regen.AsWrittenTrailing | src/parser/regen_from_ast.js:53-63 | as written, a trailing whitespace argument loses its last character to the slice |
| Regen.TrailingWhitespaceExample | src/parser/regen_from_ast.js:53-64 | for f(g(1) ) the join as written gives "g(1)," and the corrected one "g(1) " |
| Regen.TrailingWhitespaceHighlighted | src/parser/regen_from_ast.js:53-64 | with highlighting, the join as written cuts the ">" off the last span's closing tag |
| Dom.Texts | src/utility/selection.js:4 | each child's textContent, in order |
| Dom.ElementText | src/utility/selection.js:4 | an element's textContent is its children's, one after another |
| Dom.Parent | src/parser/hints.js:11 | parentNode: the path without its last index is an element whose child at that index is the node |
| Dom.Child | src/utility/selection.js:6 | a child's path is its parent's path extended by its index |
| Hints.Names | src/parser/hints.js:26 | the names of an argument list, in order |
| Hints.Signature | src/parser/hints.js:24-29 | "(" + the argument names joined by ", " + ")" for an argument list, and "()" for computed arguments |
| Hints.ArgumentDetails | src/parser/hints.js:44-46 | the n-th listed descriptor when there is one, none past the end, and the computed descriptor otherwise |
| Hints.FunctionHint | src/parser/hints.js:15-56 | every hint names the function span it came from, and with `last` bound nothing throws |
| Hints.FunctionHintCases | src/parser/hints.js:15-56 | the branch taken: no hint for an unknown or empty name; the name hint on the name node; the overview on the final child or a comma; otherwise argument quotient(index, 2); throwing past the name when `last` is missing |
| Hints.FindFunction | src/parser/hints.js:10-60 | with `last` bound the walk returns |
| Hints.FindsNearestFunction | src/parser/hints.js:10-60 | a hint of getHints (`GetHints`, `FindFunction`) comes from a function span above the node, with nothing but plain spans in between |
| Hints.UsesNearestFunction | src/parser/hints.js:59 | any such nearest function span is the one described, for the child on the way to the node |
| Hints.Resolve | src/parser/hints.js:4-8 | with `last` bound getHints returns |
| Hints.NoFunctionNoHint | src/parser/hints.js:13 | without a function span above the node there is no hint |
| Hints.AtTheRoot | src/parser/hints.js:5-13 | the formula input and its direct children get no hint |
| Hints.MissingLastThrows | src/parser/hints.js:37 | with `last` undefined, the walk throws exactly where the overview or argument hint would be given |
| Hints.AsWrittenThrows | src/parser/hints.js:2 | as imported, getHints gives only {} and the name hint, and throws wherever another hint was meant |
| Hints.IncrementExample | src/parser/hints.js:42-56 | the caret in `4` of increment(4) gets argument 0, described as number, with overview increment(number); as written, it throws |
| Hints.IncrementHint | src/parser/hints.js:4-8 | getHints for the caret in `4` of increment(4) is argument 0, number, increment(number) |
| Hints.IncrementArgumentHint | src/parser/hints.js:15-56 | a span named increment whose middle child reads `4` describes that child as argument 0, number |
| Hints.IncrementEntry | src/parser/hints.js:24-46 | the catalog's increment takes one number, with signature "(number)" |
| Hints.IncrementThrows | src/parser/hints.js:37 | with `last` as imported, the same caret throws |
| Autocomplete.Matching | src/parser/autocomplete.js:4-6 | exactly the non-empty keys that start with the name, in key order |
| Autocomplete.Complete | src/parser/autocomplete.js:3-8 | echoes the name, and the options are exactly the non-empty catalog keys with that prefix, in catalog order |
| Autocomplete.OptionsAreEntries | src/parser/autocomplete.js:4-6 | every option is the key of a catalog entry other than the unnamed one |
| Autocomplete.LongerNameFewerOptions | src/parser/autocomplete.js:4-6 | typing more characters only removes options, keeping their order |
| Autocomplete.SubsequenceDrop | src/parser/autocomplete.js:4-6 | an extra key that does not match leaves the options a subsequence |
| Selection.Locate | src/utility/selection.js:5-35 | the loop over the children computes exactly the reduce of getNode |
| Selection.CurrentNode | src/utility/selection.js:1-43 | the node is the first text node, in document order, whose range holds pos. Its path leads to a text node, and the offset is pos minus where that text starts, within the node's text. When no text node holds pos, the offset is pos minus the length of the root's whole text |
| Selection.FirstHolding | src/utility/selection.js:3-4 | a text node whose range, both ends included, holds pos; none exactly when no listed node holds it |
| Selection.FirstHoldingIsFirst | src/utility/selection.js:9 | the node reported is the first one listed to hold pos, so at a shared boundary the earlier node wins |
| Selection.FirstHoldingAppend | src/utility/selection.js:9 | a search over two lists gives the first list's answer when it has one |
| Selection.FlattenWidth | src/utility/selection.js:4 | the text of the later children is as long as their widths added up |
| Selection.ElementWidth | src/utility/selection.js:4 | an element's text is as long as its children's texts together |
| Selection.LeavesWithin | src/utility/selection.js:14-19 | every text node below a node lies inside that node's range |
| Selection.ChildLeavesWithin | src/utility/selection.js:14-19 | every text node below the later children lies inside their joint range |
| Selection.FoldFound | src/utility/selection.js:9 | once found, later siblings change nothing |
| Selection.GetNodeFinds | src/utility/selection.js:5-35 | getNode (`GetNode`) on an element reports exactly the first text node holding pos, with its end as offset and its length; if none, the offset has advanced by the element's text length |
| Selection.FoldFinds | src/utility/selection.js:6-34 | the same over the remaining children, from a not-yet-found accumulator |
| Selection.FoldFindsSkip | src/utility/selection.js:14-19 | a child not holding pos only advances the offset by its text length |
| Selection.NoneHolds | src/utility/selection.js:14-19 | no node within a range that misses pos holds pos |
| Selection.FoldFindsText | src/utility/selection.js:22-28 | a text child holding pos is the result, with the offset at its end and its length |
| Selection.FoldFindsElement | src/utility/selection.js:31 | an element child holding pos is searched from the current offset |
| Selection.LeavesAreTexts | src/utility/selection.js:22 | every listed path leads to a text node of the listed length |
| Selection.ChildLeavesAreTexts | src/utility/selection.js:22 | the same for the text nodes of the later children |
| Selection.NoLeavesNoText | src/utility/selection.js:4 | a node without text nodes below it has no text |
| Selection.NoChildLeavesNoText | src/utility/selection.js:4 | children without text nodes have no text |
| Selection.Covered | src/utility/selection.js:3-4 | a position inside a node's text, both ends included, lies in one of its text nodes when it has one |
| Selection.ChildrenCovered | src/utility/selection.js:3-4 | the same for a run of children |
| Selection.CaretFound | src/utility/selection.js:36-42 | a caret inside the editor's text is always found in a text node when the editor holds one |

## Left out

- Floating point is modelled with exact reals.
  - `0.1 + 0.2`, rounding, `Infinity` and `NaN` are not modelled.
  - `String` of a non-integer prints at most 20 fraction digits and never uses exponent notation.
  - `Math.pow` is modelled only for integer exponents; anything else gives `Fail("invalid operation")`.
- String coercion by `-`, `*`, `/` and mixed comparisons is modelled as `Fail("invalid operation")`.
  - These are the JavaScript conversions `Number("12")` and `"a" < 1`.
  - The model follows `+`, `&`, truthiness and `String` exactly.
- Strings are sequences of characters, not of UTF-16 code units. On text holding a character outside the Basic Multilingual Plane, such as an emoji, these differ from the browser's:
  - string order;
  - the caret offsets from `textContent.length` (src/utility/selection.js:4, lines 15-27);
  - the quotes dropped by `slice(1, -1)` (src/parser/index.js:140);
  - the last character dropped by `.slice(0, -1)` in the regenerator (src/parser/regen_from_ast.js:63);
  - the function name sliced out by the hints.
- `console.log` in `parse` is an output side effect and is not modelled.
- JavaScript exceptions inside the grammar are modelled as `Abort`.
  - One example: a function named `constructor` reaching `Object.prototype`.
  - The model does not carry exception messages. The result is always `Fail("syntax")`, as in the source.
- The module `../utility` that `src/parser/index.js` imports from is not part of this model.
  - The files here that could be that module do not export `getFirst`.
  - The model takes `getFirst` to be the one in `src/parser/utility.js`.
- Builtins.ToPowerOf: does not convert strings to numbers as `Math.pow` does: `=to_power("2", 3)` is 8 in JavaScript and `Fail("invalid operation")` in the model.
- Regen.Regenerate: takes `highlight` as an argument; the default of `true` when `regen` is called without options (src/parser/regen_from_ast.js:1) is left to the caller.
- Config.Apply: requires the argument counts the catalog declares, because the catalog's `fn` is never called with other counts in this code.
- Config.MultiplyNumbers: proved for one and three arguments, not for any count, because the general product is real-valued nonlinear arithmetic.
- Regen.Render: requires that every raw JavaScript value in the tree is a string or a result object: the only non-node values the parser puts there.
- The regenerator and the parser are not proved to round-trip on each other. The lemmas prove concrete regenerations and the join properties only.
- Hints: `functions[name]` is looked up over the catalog's own keys. Inherited keys such as `constructor` are not modelled for hints or autocomplete.
- Hints: the DOM is a value, so node identity, `node === nameNode` and `indexOf`, is identity of paths.
- `fn.overview`: no catalog entry sets it, so the overview is always the computed signature.
- `setCaretInNode`, `getCaret`, `round` and `isObject` are not modelled.
  - `setCaretInNode` and `getCaret` use the browser's Selection and Range APIs.
  - `round` is never called by the core.
  - `isObject` only tells result objects from plain values, and the `Js` datatype already does that.
- Selection.CurrentNode: when no text node holds the position, the returned node (the root or the last element searched) is not stated, only the offset.

## Findings

| source | as written | input that shows it | evidently intended | confidence | as-written member | corrected member |
|---|---|---|---|---|---|---|
| src/parser/regen_from_ast.js:53-63 | a "," is appended after every argument except whitespace, then the last character is sliced off | `=f(g(1) )` in AST mode has the arguments [g(1), whitespace " "], which regenerate as `=f(g(1),)`; with highlighting the slice cuts the `>` off `</span>` (Regen.RegenTrailingWhitespace, Regen.TrailingWhitespaceHighlighted) | only the comma after the last non-whitespace argument is dropped: `=f(g(1) )` | not executed | Regen.Regenerate | Regen.RegenerateIntended |
| src/parser/index.js:45-47 | the white space after `=` is kept unless it is blacklisted, and when evaluating only "" and a single " " are | `=  add(5 , add(2,3))` (src/parser/test_eval.js:69 expects Ok(10)): removeNonValues leaves ["  ", Ok(10)] and getFirst gives the string "  " (Actions.WhitespaceKeptAsWritten, Grammar.FormulaValue) | white space of any length after `=` is not a value, so the formula's value is its body's, Ok(10) | not executed | Grammar.FormulaValue | Grammar.FormulaRuleIntended |
| src/parser/hints.js:2 | `last` is imported from `../utility/index`, which exports no `last`, so it is `undefined` | the caret in the `4` of `=increment(4)`: `last(parent.childNodes)` is a call of `undefined` and throws (Hints.IncrementExample) | `last` returns an array's final element, giving the overview hint on the final child and argument hints elsewhere | not executed | Hints.Resolve | Hints.GetHints |
