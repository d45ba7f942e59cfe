/** The renderer of src/parser/regen_from_ast.js: a syntax tree back to formula
    text, optionally wrapped in `<span class="input-TYPE">` markup for the editor. */
module Regen {
  import opened Utility
  import opened Values
  import opened Ast

  // ---------------------------------------------------------------------------
  // HTML escaping

  /** `s.replace(/c/g, rep)`. */
  function ReplaceAll(s: string, c: char, rep: string): string
  {
    if |s| == 0 then ""
    else (if s[0] == c then rep else [s[0]]) + ReplaceAll(s[1..], c, rep)
  }

  lemma {:induction false} ReplaceAllAppend(a: string, b: string, c: char, rep: string)
    ensures ReplaceAll(a + b, c, rep) == ReplaceAll(a, c, rep) + ReplaceAll(b, c, rep)
  {
    if |a| == 0 {
      assert a + b == b;
    } else {
      assert (a + b)[1..] == a[1..] + b;
      ReplaceAllAppend(a[1..], b, c, rep);
    }
  }

  /** `escapeHtml`: five global replacements, `&` first. */
  function EscapeHtml(s: string): string
  {
    ReplaceAll(ReplaceAll(ReplaceAll(ReplaceAll(ReplaceAll(s, '&', "&amp;"), '<', "&lt;"), '>', "&gt;"), '"', "&quot;"), '\'', "&#039;")
  }

  /** The entity a single character becomes. */
  function EscapeChar(c: char): string
  {
    if c == '&' then "&amp;"
    else if c == '<' then "&lt;"
    else if c == '>' then "&gt;"
    else if c == '"' then "&quot;"
    else if c == '\'' then "&#039;"
    else [c]
  }

  /** Escaping one character at a time, left to right. */
  function EscapeEach(s: string): string
  {
    if |s| == 0 then "" else EscapeChar(s[0]) + EscapeEach(s[1..])
  }

  lemma {:induction false} ReplaceAllAbsent(s: string, c: char, rep: string)
    requires c !in s
    ensures ReplaceAll(s, c, rep) == s
  {
    if |s| > 0 {
      ReplaceAllAbsent(s[1..], c, rep);
    }
  }

  /** `EscapeHtml` on a single character: the later passes leave the entities of
      the earlier ones alone, because no entity contains `<`, `>`, `"` or `'`. */
  lemma EscapeOne(c: char)
    ensures EscapeHtml([c]) == EscapeChar(c)
  {
    var e := EscapeChar(c);
    ReplaceAllSingle(c, '&', "&amp;");
    if c == '&' {
      assert '<' !in e && '>' !in e && '"' !in e && '\'' !in e;
      ReplaceAllAbsent(e, '<', "&lt;");
      ReplaceAllAbsent(e, '>', "&gt;");
      ReplaceAllAbsent(e, '"', "&quot;");
      ReplaceAllAbsent(e, '\'', "&#039;");
    } else {
      ReplaceAllSingle(c, '<', "&lt;");
      if c == '<' {
        assert '>' !in e && '"' !in e && '\'' !in e;
        ReplaceAllAbsent(e, '>', "&gt;");
        ReplaceAllAbsent(e, '"', "&quot;");
        ReplaceAllAbsent(e, '\'', "&#039;");
      } else {
        ReplaceAllSingle(c, '>', "&gt;");
        if c == '>' {
          assert '"' !in e && '\'' !in e;
          ReplaceAllAbsent(e, '"', "&quot;");
          ReplaceAllAbsent(e, '\'', "&#039;");
        } else {
          ReplaceAllSingle(c, '"', "&quot;");
          if c == '"' {
            assert '\'' !in e;
            ReplaceAllAbsent(e, '\'', "&#039;");
          } else {
            ReplaceAllSingle(c, '\'', "&#039;");
          }
        }
      }
    }
  }

  lemma ReplaceAllSingle(c: char, d: char, rep: string)
    ensures ReplaceAll([c], d, rep) == if c == d then rep else [c]
  {
    assert [c][1..] == [];
  }

  /** The five passes together escape each character on its own. */
  lemma {:induction false} EscapeHtmlIsPerChar(s: string)
    ensures EscapeHtml(s) == EscapeEach(s)
  {
    if |s| > 0 {
      var c, t := s[0], s[1..];
      assert s == [c] + t;
      var s1, t1 := ReplaceAll([c], '&', "&amp;"), ReplaceAll(t, '&', "&amp;");
      ReplaceAllAppend([c], t, '&', "&amp;");
      var s2, t2 := ReplaceAll(s1, '<', "&lt;"), ReplaceAll(t1, '<', "&lt;");
      ReplaceAllAppend(s1, t1, '<', "&lt;");
      var s3, t3 := ReplaceAll(s2, '>', "&gt;"), ReplaceAll(t2, '>', "&gt;");
      ReplaceAllAppend(s2, t2, '>', "&gt;");
      var s4, t4 := ReplaceAll(s3, '"', "&quot;"), ReplaceAll(t3, '"', "&quot;");
      ReplaceAllAppend(s3, t3, '"', "&quot;");
      ReplaceAllAppend(s4, t4, '\'', "&#039;");
      EscapeOne(c);
      EscapeHtmlIsPerChar(t);
    }
  }

  /** Escaped text carries none of `<`, `>`, `"`, `'` raw. */
  lemma EscapedIsSafe(s: string)
    ensures '<' !in EscapeHtml(s) && '>' !in EscapeHtml(s)
    ensures '"' !in EscapeHtml(s) && '\'' !in EscapeHtml(s)
  {
    EscapeHtmlIsPerChar(s);
    EscapeEachIsSafe(s);
  }

  lemma {:induction false} EscapeEachIsSafe(s: string)
    ensures forall c :: c in "<>\"'" ==> c !in EscapeEach(s)
  {
    if |s| > 0 {
      EscapeEachIsSafe(s[1..]);
    }
  }

  /** Reading entities back: the inverse of `EscapeEach`. */
  function Unescape(t: string): string
  {
    if |t| == 0 then ""
    else if t[0] != '&' then [t[0]] + Unescape(t[1..])
    else if |t| >= 5 && t[..5] == "&amp;" then "&" + Unescape(t[5..])
    else if |t| >= 4 && t[..4] == "&lt;" then "<" + Unescape(t[4..])
    else if |t| >= 4 && t[..4] == "&gt;" then ">" + Unescape(t[4..])
    else if |t| >= 6 && t[..6] == "&quot;" then "\"" + Unescape(t[6..])
    else if |t| >= 6 && t[..6] == "&#039;" then "'" + Unescape(t[6..])
    else [t[0]] + Unescape(t[1..])
  }

  lemma UnescapeStep(c: char, rest: string)
    ensures Unescape(EscapeChar(c) + rest) == [c] + Unescape(rest)
  {
    var e := EscapeChar(c);
    var t := e + rest;
    assert t[..|e|] == e && t[|e|..] == rest;
    if c == '&' {
      assert t[0] == '&' && t[..5] == "&amp;";
    } else if c == '<' {
      assert t[0] == '&' && t[1] == 'l' && t[..4] == "&lt;";
    } else if c == '>' {
      assert t[0] == '&' && t[1] == 'g' && t[..4] == "&gt;" && t[..4] != "&lt;";
    } else if c == '"' {
      assert t[0] == '&' && t[1] == 'q' && t[..6] == "&quot;" && t[..4] != "&lt;" && t[..4] != "&gt;";
    } else if c == '\'' {
      assert t[0] == '&' && t[1] == '#' && t[..6] == "&#039;" && t[..4] != "&lt;" && t[..4] != "&gt;" && t[..6] != "&quot;";
    } else {
      assert t[0] == c && t[1..] == rest;
    }
  }

  /** Escaping loses nothing: the original text is read back from the entities. */
  lemma {:induction false} UnescapeEscape(s: string)
    ensures Unescape(EscapeHtml(s)) == s
  {
    EscapeHtmlIsPerChar(s);
    UnescapeEach(s);
  }

  lemma {:induction false} UnescapeEach(s: string)
    ensures Unescape(EscapeEach(s)) == s
  {
    if |s| > 0 {
      UnescapeStep(s[0], EscapeEach(s[1..]));
      UnescapeEach(s[1..]);
    }
  }

  // ---------------------------------------------------------------------------
  // Rendering

  /** `markup(type, value)`. */
  function Markup(kind: string, value: string): string
  {
    "<span class=\"input-" + kind + "\">" + value + "</span>"
  }

  /** `handleString`: the escaped text between double quotes. */
  function HandleString(value: string): string
  {
    "\"" + EscapeHtml(value) + "\""
  }

  /** A node's own text, marked up with its type when highlighting. */
  function Wrap(highlight: bool, kind: string, text: string): string
  {
    if highlight then Markup(kind, text) else text
  }

  /** Every value sitting where a node is expected is an object: destructuring
      `undefined` would throw. (`AsNode` never wraps a node in `Untyped`.) */
  predicate Defined(n: Node)
  {
    match n
    case Untyped(v) => v.JStr? || v.JRes?
    case Function(_, args) => forall a | a in args :: Defined(a)
    case Expression(items) => forall a | a in items :: Defined(a)
    case Formula(body) => Defined(body)
    case _ => true
  }

  /** Every node reachable from `n` has a `type`. */
  predicate Typed(n: Node)
  {
    match n
    case Untyped(_) => false
    case Function(_, args) => forall a | a in args :: Typed(a)
    case Expression(items) => forall a | a in items :: Typed(a)
    case Formula(body) => Typed(body)
    case _ => true
  }

  /** How the arguments of a function are joined: as `handleFunction` does it, or
      as it is evidently meant to (see README, Findings). */
  datatype ArgJoin = AsWritten | Intended

  function JoinWithChoice(join: ArgJoin, ws: seq<bool>, parts: seq<string>): string
    requires |ws| == |parts|
  {
    match join
    case AsWritten => JoinArgsAsWritten(ws, parts)
    case Intended => JoinArgs(ws, parts)
  }

  /** `rec(Ok(""), n)` (with the arguments joined as `join` says): `Some` of the
      node's text, or `None` for `Fail()`. */
  function Render(n: Node, highlight: bool, join: ArgJoin): Option<string>
    requires Defined(n)
    decreases n, 1
  {
    match n
    case Number(x) => Some(Wrap(highlight, "number", NumberText(x)))
    case Text(t) => Some(Wrap(highlight, "string", HandleString(t)))
    case Boolean(b) => Some(Wrap(highlight, "boolean", if b then "true" else "false"))
    case Reference(v) => Some(Wrap(highlight, "reference", v))
    case Operator(v) => Some(Wrap(highlight, "operator", v))
    case Whitespace(v) => Some(Wrap(highlight, "whitespace", v))
    case Partial(v) => Some(Wrap(highlight, "partial", v))
    case Formula(body) =>
      var inner := Render(body, highlight, join);
      if inner.None? then None
      else Some(Wrap(highlight, "formula", (if highlight then Markup("eq", "=") else "=") + inner.value))
    case Function(name, args) =>
      var parts := RenderAll(args, highlight, join);
      if parts.None? then None
      else Some(Wrap(highlight, "function", name + "(" + JoinWithChoice(join, WhitespaceFlags(args), parts.value) + ")"))
    case Expression(items) =>
      var parts := RenderAll(items, highlight, join);
      if parts.None? then None else Some(Wrap(highlight, "expression", Flatten(parts.value)))
    case Untyped(_) => None
  }

  /** `values.map(val => rec(Ok(""), val))` followed by the `every(ok)` test. */
  function RenderAll(ns: seq<Node>, highlight: bool, join: ArgJoin): (r: Option<seq<string>>)
    requires forall a | a in ns :: Defined(a)
    ensures r.Some? ==> |r.value| == |ns|
    decreases ns, 0
  {
    if |ns| == 0 then Some([])
    else
      var first, rest := Render(ns[0], highlight, join), RenderAll(ns[1..], highlight, join);
      if first.None? || rest.None? then None else Some([first.value] + rest.value)
  }

  /** `regen(ast, { highlight }).reg`: the text, or `""` when rendering fails. */
  function Regenerate(n: Node, highlight: bool): (r: string)
    requires Defined(n)
    ensures Typed(n) ==> Some(r) == Render(n, highlight, AsWritten)
    ensures !Typed(n) ==> r == ""
  {
    RenderSucceeds(n, highlight, AsWritten);
    var r := Render(n, highlight, AsWritten);
    if r.Some? then r.value else ""
  }

  /** `regen` with the argument join as intended. */
  function RegenerateIntended(n: Node, highlight: bool): (r: string)
    requires Defined(n)
    ensures Typed(n) ==> Some(r) == Render(n, highlight, Intended)
    ensures !Typed(n) ==> r == ""
  {
    RenderSucceeds(n, highlight, Intended);
    var r := Render(n, highlight, Intended);
    if r.Some? then r.value else ""
  }

  /** Which arguments are whitespace nodes (`arg.type === "whitespace"`). */
  function WhitespaceFlags(args: seq<Node>): (ws: seq<bool>)
    ensures |ws| == |args| && forall k :: 0 <= k < |args| ==> (ws[k] <==> args[k].Whitespace?)
  {
    seq(|args|, k requires 0 <= k < |args| => args[k].Whitespace?)
  }

  // ---------------------------------------------------------------------------
  // Joining the arguments of a function

  /** Each rendered argument followed by `,` unless it is whitespace. */
  function Suffixed(ws: seq<bool>, parts: seq<string>): seq<string>
    requires |ws| == |parts|
  {
    seq(|parts|, k requires 0 <= k < |parts| => parts[k] + (if ws[k] then "" else ","))
  }

  /** `str.slice(0, -1)`. */
  function DropLast(s: string): string
  {
    if |s| == 0 then s else s[..|s| - 1]
  }

  /** `handleFunction` as written: the suffixed parts joined, then the final
      character dropped, whatever it is. */
  function JoinArgsAsWritten(ws: seq<bool>, parts: seq<string>): string
    requires |ws| == |parts|
  {
    DropLast(Flatten(Suffixed(ws, parts)))
  }

  /** The position of the last non-whitespace argument. */
  function LastValue(ws: seq<bool>): (r: Option<nat>)
    ensures r.Some? ==> r.value < |ws| && !ws[r.value] && forall k :: r.value < k < |ws| ==> ws[k]
    ensures r.None? ==> forall k :: 0 <= k < |ws| ==> ws[k]
  {
    if |ws| == 0 then None
    else if !ws[|ws| - 1] then Some(|ws| - 1)
    else LastValue(ws[..|ws| - 1])
  }

  /** `handleFunction` as intended: the comma dropped is the one after the last
      non-whitespace argument, and whitespace after it is kept. */
  function JoinArgs(ws: seq<bool>, parts: seq<string>): string
    requires |ws| == |parts|
  {
    match LastValue(ws)
    case None => Flatten(parts)
    case Some(j) => JoinArgsAsWritten(ws[..j + 1], parts[..j + 1]) + Flatten(parts[j + 1..])
  }

  lemma DropLastAppend(s: string, c: char)
    ensures DropLast(s + [c]) == s
  {
  }

  lemma {:induction false} SuffixedCommas(ws: seq<bool>, parts: seq<string>)
    requires |ws| == |parts| > 0
    requires forall k :: 0 <= k < |ws| ==> !ws[k]
    ensures Flatten(Suffixed(ws, parts)) == JoinWith(parts, ",") + ","
  {
    var sfx := Suffixed(ws, parts);
    if |parts| > 1 {
      assert sfx[1..] == Suffixed(ws[1..], parts[1..]);
      SuffixedCommas(ws[1..], parts[1..]);
    } else {
      assert sfx[1..] == [];
    }
  }

  /** Without whitespace arguments, appending `,` to each and dropping the last
      character is `args.join(",")`. */
  lemma CommasJoin(ws: seq<bool>, parts: seq<string>)
    requires |ws| == |parts|
    requires forall k :: 0 <= k < |ws| ==> !ws[k]
    ensures JoinArgsAsWritten(ws, parts) == JoinWith(parts, ",")
    ensures JoinArgs(ws, parts) == JoinWith(parts, ",")
  {
    if |parts| > 0 {
      SuffixedCommas(ws, parts);
      DropLastAppend(JoinWith(parts, ","), ',');
      JoinArgsAgree(ws, parts);
    } else {
      assert JoinArgs(ws, parts) == "";
    }
  }

  /** When the last argument is not whitespace the intended join is the written one. */
  lemma JoinArgsAgree(ws: seq<bool>, parts: seq<string>)
    requires |ws| == |parts| > 0 && !ws[|ws| - 1]
    ensures JoinArgs(ws, parts) == JoinArgsAsWritten(ws, parts)
  {
    assert ws[..|ws|] == ws && parts[..|parts|] == parts && parts[|parts|..] == [];
  }

  /** A trailing whitespace argument is kept verbatim after the others. */
  lemma JoinArgsTrailing(ws: seq<bool>, parts: seq<string>, p: string)
    requires |ws| == |parts|
    ensures JoinArgs(ws + [true], parts + [p]) == JoinArgs(ws, parts) + p
  {
    var ws', parts' := ws + [true], parts + [p];
    assert ws'[..|ws'| - 1] == ws;
    var last := LastValue(ws);
    assert LastValue(ws') == last;
    assert Flatten([p]) == p by { assert [p][1..] == []; }
    if last.None? {
      FlattenAppend(parts, [p]);
      assert JoinArgs(ws', parts') == Flatten(parts');
    } else {
      TrailingAfterLast(ws, parts, p, last.value);
    }
  }

  lemma TrailingAfterLast(ws: seq<bool>, parts: seq<string>, p: string, j: nat)
    requires |ws| == |parts| && j < |ws| && Flatten([p]) == p
    ensures JoinArgsAsWritten((ws + [true])[..j + 1], (parts + [p])[..j + 1]) + Flatten((parts + [p])[j + 1..])
      == JoinArgsAsWritten(ws[..j + 1], parts[..j + 1]) + Flatten(parts[j + 1..]) + p
  {
    var ws', parts' := ws + [true], parts + [p];
    assert ws'[..j + 1] == ws[..j + 1] && parts'[..j + 1] == parts[..j + 1];
    assert parts'[j + 1..] == parts[j + 1..] + [p];
    FlattenAppend(parts[j + 1..], [p]);
  }

  // ---------------------------------------------------------------------------
  // Properties of rendering

  /** Rendering fails exactly when some reachable node has no `type`. */
  lemma {:induction false} RenderSucceeds(n: Node, highlight: bool, join: ArgJoin)
    requires Defined(n)
    ensures Render(n, highlight, join).Some? <==> Typed(n)
    decreases n, 1
  {
    match n
    case Formula(body) => RenderSucceeds(body, highlight, join);
    case Function(_, args) => RenderAllSucceeds(args, highlight, join);
    case Expression(items) => RenderAllSucceeds(items, highlight, join);
    case _ =>
  }

  lemma {:induction false} RenderAllSucceeds(ns: seq<Node>, highlight: bool, join: ArgJoin)
    requires forall a | a in ns :: Defined(a)
    ensures RenderAll(ns, highlight, join).Some? <==> forall a | a in ns :: Typed(a)
    ensures RenderAll(ns, highlight, join).Some? ==>
      forall k :: 0 <= k < |ns| ==> Render(ns[k], highlight, join) == Some(RenderAll(ns, highlight, join).value[k])
    decreases ns, 0
  {
    if |ns| > 0 {
      RenderSucceeds(ns[0], highlight, join);
      RenderAllSucceeds(ns[1..], highlight, join);
      assert forall a | a in ns :: a == ns[0] || a in ns[1..];
      if RenderAll(ns, highlight, join).Some? {
        forall k | 0 < k < |ns| ensures Render(ns[k], highlight, join) == Some(RenderAll(ns, highlight, join).value[k]) {
          assert ns[k] == ns[1..][k - 1];
        }
      }
    }
  }

  /** No raw text in the tree (reference, operator, whitespace, partial or
      function name) holds a `<`; strings are escaped and need no such condition. */
  predicate Unmarked(n: Node)
  {
    match n
    case Reference(v) => '<' !in v
    case Operator(v) => '<' !in v
    case Whitespace(v) => '<' !in v
    case Partial(v) => '<' !in v
    case Function(name, args) => '<' !in name && forall a | a in args :: Unmarked(a)
    case Expression(items) => forall a | a in items :: Unmarked(a)
    case Formula(body) => Unmarked(body)
    case _ => true
  }

  /** Without highlighting, rendering adds no markup: a `<` in the result can only
      come from a raw text of the tree. */
  lemma {:induction false} PlainRenderHasNoMarkup(n: Node, join: ArgJoin)
    requires Defined(n) && Unmarked(n)
    ensures Render(n, false, join).Some? ==> '<' !in Render(n, false, join).value
  {
    match n
    case Number(x) => NumberTextAlphabet(x);
    case Text(t) => EscapedIsSafe(t);
    case Boolean(b) =>
    case Formula(body) => PlainRenderHasNoMarkup(body, join);
    case Function(name, args) =>
      forall k | 0 <= k < |args|
        ensures Render(args[k], false, join).Some? ==> '<' !in Render(args[k], false, join).value
      {
        PlainRenderHasNoMarkup(args[k], join);
      }
      PartsAvoid(args, join);
      var parts := RenderAll(args, false, join);
      if parts.Some? {
        JoinAvoids(join, WhitespaceFlags(args), parts.value, '<');
      }
    case Expression(items) =>
      forall k | 0 <= k < |items|
        ensures Render(items[k], false, join).Some? ==> '<' !in Render(items[k], false, join).value
      {
        PlainRenderHasNoMarkup(items[k], join);
      }
      PartsAvoid(items, join);
      var parts := RenderAll(items, false, join);
      if parts.Some? {
        FlattenAvoids(parts.value, '<');
      }
    case _ =>
  }

  /** `regen(ast, { highlight: false })` returns text free of markup. */
  lemma PlainRegenerateHasNoMarkup(n: Node)
    requires Defined(n) && Unmarked(n)
    ensures '<' !in Regenerate(n, false) && '<' !in RegenerateIntended(n, false)
  {
    PlainRenderHasNoMarkup(n, AsWritten);
    PlainRenderHasNoMarkup(n, Intended);
  }

  lemma PartsAvoid(ns: seq<Node>, join: ArgJoin)
    requires forall a | a in ns :: Defined(a)
    requires forall k :: 0 <= k < |ns| ==>
      Render(ns[k], false, join).Some? ==> '<' !in Render(ns[k], false, join).value
    ensures RenderAll(ns, false, join).Some? ==>
      forall k :: 0 <= k < |ns| ==> '<' !in RenderAll(ns, false, join).value[k]
  {
    RenderAllSucceeds(ns, false, join);
  }

  /** Joining arguments brings in no character but the comma. */
  lemma JoinAvoids(join: ArgJoin, ws: seq<bool>, parts: seq<string>, c: char)
    requires |ws| == |parts| && c != ','
    requires forall k :: 0 <= k < |parts| ==> c !in parts[k]
    ensures c !in JoinWithChoice(join, ws, parts)
  {
    match join
    case AsWritten => AsWrittenAvoids(ws, parts, c);
    case Intended =>
      match LastValue(ws)
      case None => FlattenAvoids(parts, c);
      case Some(j) =>
        AsWrittenAvoids(ws[..j + 1], parts[..j + 1], c);
        FlattenAvoids(parts[j + 1..], c);
  }

  lemma AsWrittenAvoids(ws: seq<bool>, parts: seq<string>, c: char)
    requires |ws| == |parts| && c != ','
    requires forall k :: 0 <= k < |parts| ==> c !in parts[k]
    ensures c !in JoinArgsAsWritten(ws, parts)
  {
    var sfx := Suffixed(ws, parts);
    assert forall k :: 0 <= k < |sfx| ==> c !in sfx[k];
    FlattenAvoids(sfx, c);
    var all := Flatten(sfx);
    assert all == DropLast(all) + all[|DropLast(all)|..];
  }

  lemma SmallNumberText(d: nat)
    requires d < 10
    ensures NumberText(d as real) == [DigitChar(d)]
  {
    assert (d as real).Floor == d;
  }

  /** Text without `&`, `<`, `>`, `"` or `'` is left as it is. */
  lemma {:induction false} EscapePlain(s: string)
    requires '&' !in s && '<' !in s && '>' !in s && '"' !in s && '\'' !in s
    ensures EscapeHtml(s) == s
  {
    EscapeHtmlIsPerChar(s);
    EscapeEachPlain(s);
  }

  lemma {:induction false} EscapeEachPlain(s: string)
    requires '&' !in s && '<' !in s && '>' !in s && '"' !in s && '\'' !in s
    ensures EscapeEach(s) == s
  {
    if |s| > 0 {
      assert s == [s[0]] + s[1..];
      EscapeEachPlain(s[1..]);
    }
  }

  /** Rows of the renderer's test table, without highlighting. */
  lemma RegenNumber()
    ensures Regenerate(Number(3.0), false) == "3"
    ensures Regenerate(Formula(Expression([Number(7.0)])), false) == "=7"
  {
    SmallNumberText(3);
    SmallNumberText(7);
    assert DigitChar(3) == '3' && DigitChar(7) == '7';
    var items := [Number(7.0)];
    RenderAllSucceeds(items, false, AsWritten);
    assert Render(items[0], false, AsWritten) == Some("7");
    var ps := RenderAll(items, false, AsWritten).value;
    assert ps == ["7"];
    assert Flatten(ps) == "7" by { assert ps[1..] == []; }
  }

  /** A string without characters to escape renders between double quotes. */
  lemma RegenPlainString(t: string)
    requires '&' !in t && '<' !in t && '>' !in t && '"' !in t && '\'' !in t
    ensures Regenerate(Text(t), false) == "\"" + t + "\""
    ensures Regenerate(Text(t), true) == "<span class=\"input-string\">\"" + t + "\"</span>"
  {
    EscapePlain(t);
    var q := "\"" + t + "\"";
    assert Render(Text(t), true, AsWritten) == Some(Markup("string", q));
    StringMarkup(t);
  }

  lemma StringMarkup(t: string)
    ensures Markup("string", "\"" + t + "\"") == "<span class=\"input-string\">\"" + t + "\"</span>"
  {
    var open, close := "<span class=\"input-string\">", "</span>";
    assert "<span class=\"input-" + "string" + "\">" == open;
    assert open + ("\"" + t + "\"") + close == open + "\"" + t + ("\"" + close);
    assert "\"" + close == "\"</span>";
  }

  /** Without highlighting a formula over an expression is `=` and its items' texts. */
  lemma RegenFormula(items: seq<Node>, texts: seq<string>)
    requires forall a | a in items :: Defined(a)
    requires RenderAll(items, false, AsWritten) == Some(texts)
    ensures Regenerate(Formula(Expression(items)), false) == "=" + Flatten(texts)
  {
    assert Render(Expression(items), false, AsWritten) == Some(Flatten(texts));
  }

  /** `=5 + A1` (tests/parser/test_regen.js). */
  lemma RegenReference()
    ensures Regenerate(Formula(Expression([Number(5.0), Whitespace(" "), Operator("+"), Whitespace(" "),
                                      Reference("A1")])), false) == "=5 + A1"
  {
    ReferenceItems();
    FlattenReference();
    RegenFormula([Number(5.0), Whitespace(" "), Operator("+"), Whitespace(" "), Reference("A1")],
                 ["5", " ", "+", " ", "A1"]);
  }

  lemma ReferenceItems()
    ensures forall a | a in [Number(5.0), Whitespace(" "), Operator("+"), Whitespace(" "), Reference("A1")] :: Defined(a)
    ensures RenderAll([Number(5.0), Whitespace(" "), Operator("+"), Whitespace(" "), Reference("A1")],
                      false, AsWritten) == Some(["5", " ", "+", " ", "A1"])
  {
    SmallNumberText(5);
    var n0, n1, n2, n3, n4 := Number(5.0), Whitespace(" "), Operator("+"), Whitespace(" "), Reference("A1");
    var s4 := [n4] + [];
    var s3, s2, s1 := [n3] + s4, [n2] + ([n3] + s4), [n1] + ([n2] + ([n3] + s4));
    var p4 := ["A1"] + [];
    var p3, p2, p1 := [" "] + p4, ["+"] + ([" "] + p4), [" "] + (["+"] + ([" "] + p4));
    RenderAllCons(n4, [], false, AsWritten, "A1", []);
    RenderAllCons(n3, s4, false, AsWritten, " ", p4);
    RenderAllCons(n2, s3, false, AsWritten, "+", p3);
    RenderAllCons(n1, s2, false, AsWritten, " ", p2);
    RenderAllCons(n0, s1, false, AsWritten, "5", p1);
    assert [n0] + s1 == [Number(5.0), Whitespace(" "), Operator("+"), Whitespace(" "), Reference("A1")];
    assert ["5"] + p1 == ["5", " ", "+", " ", "A1"];
  }

  lemma FlattenReference()
    ensures "=" + Flatten(["5", " ", "+", " ", "A1"]) == "=5 + A1"
  {
    var p4 := ["A1"] + [];
    var p3, p2, p1 := [" "] + p4, ["+"] + ([" "] + p4), [" "] + (["+"] + ([" "] + p4));
    FlattenCons("A1", []);
    FlattenCons(" ", p4);
    FlattenCons("+", p3);
    FlattenCons(" ", p2);
    FlattenCons("5", p1);
    assert ["5"] + p1 == ["5", " ", "+", " ", "A1"];
  }

  /** A list of children renders as the first child's text before the others'. */
  lemma RenderAllCons(n: Node, ns: seq<Node>, highlight: bool, join: ArgJoin, x: string, xs: seq<string>)
    requires Defined(n) && forall a | a in ns :: Defined(a)
    requires Render(n, highlight, join) == Some(x) && RenderAll(ns, highlight, join) == Some(xs)
    ensures forall a | a in [n] + ns :: Defined(a)
    ensures RenderAll([n] + ns, highlight, join) == Some([x] + xs)
  {
    assert ([n] + ns)[0] == n && ([n] + ns)[1..] == ns;
  }

  lemma FlattenCons(x: string, xs: seq<string>)
    ensures Flatten([x] + xs) == x + Flatten(xs)
  {
    assert ([x] + xs)[0] == x && ([x] + xs)[1..] == xs;
  }

  /** A one-digit number, as the only item of an expression, renders as its digit. */
  lemma ExpressionOfDigit(d: nat, join: ArgJoin)
    requires d < 10
    ensures Defined(Expression([Number(d as real)]))
    ensures Render(Expression([Number(d as real)]), false, join) == Some([DigitChar(d)])
  {
    SmallNumberText(d);
    ExpressionOfOne(Number(d as real), join, [DigitChar(d)]);
  }

  /** An expression with one item renders as that item. */
  lemma ExpressionOfOne(n: Node, join: ArgJoin, x: string)
    requires Defined(n) && Render(n, false, join) == Some(x)
    ensures Defined(Expression([n])) && Render(Expression([n]), false, join) == Some(x)
  {
    RenderAllCons(n, [], false, join, x, []);
    assert [n] + [] == [n] && [x] + [] == [x];
    FlattenCons(x, []);
    assert Flatten<char>([]) == [] && x + [] == x;
  }

  /** Without highlighting a function renders as its name and its joined arguments
      in parentheses. */
  lemma FunctionOf(name: string, args: seq<Node>, join: ArgJoin, parts: seq<string>, text: string)
    requires forall a | a in args :: Defined(a)
    requires RenderAll(args, false, join) == Some(parts)
    requires JoinWithChoice(join, WhitespaceFlags(args), parts) == text
    ensures Defined(Function(name, args))
    ensures Render(Function(name, args), false, join) == Some(name + "(" + text + ")")
  {
  }

  lemma WhitespaceFlagsCons(n: Node, ns: seq<Node>)
    ensures WhitespaceFlags([n] + ns) == [n.Whitespace?] + WhitespaceFlags(ns)
  {
    assert forall k | 0 < k <= |ns| :: ([n] + ns)[k] == ns[k - 1];
  }

  /** Without highlighting a formula renders as `=` and its body's text. */
  lemma FormulaOf(n: Node, join: ArgJoin, x: string)
    requires Defined(n) && Render(n, false, join) == Some(x)
    ensures Defined(Formula(n))
    ensures join == AsWritten ==> Regenerate(Formula(n), false) == "=" + x
    ensures join == Intended ==> RegenerateIntended(Formula(n), false) == "=" + x
  {
  }

  /** `=add(2, 3)` (tests/parser/test_regen.js): the whitespace argument takes no
      comma, so the text comes back unchanged. */
  lemma RegenFunctionWithSpaces()
    ensures Regenerate(Formula(Expression([Function("add", [Expression([Number(2.0)]), Whitespace(" "),
                                                            Expression([Number(3.0)])])])), false)
      == "=add(2, 3)"
  {
    var args := [Expression([Number(2.0)]), Whitespace(" "), Expression([Number(3.0)])];
    AddArguments();
    AddFlags(args);
    AddJoin();
    FunctionOf("add", args, AsWritten, ["2", " ", "3"], "2, 3");
    var x := "add" + "(" + "2, 3" + ")";
    ExpressionOfOne(Function("add", args), AsWritten, x);
    FormulaOf(Expression([Function("add", args)]), AsWritten, x);
    AddText();
  }

  lemma AddText()
    ensures "=" + ("add" + "(" + "2, 3" + ")") == "=add(2, 3)"
  {
  }

  lemma AddFlags(args: seq<Node>)
    requires args == [Expression([Number(2.0)]), Whitespace(" "), Expression([Number(3.0)])]
    ensures WhitespaceFlags(args) == [false, true, false]
  {
    var e3 := Expression([Number(3.0)]);
    WhitespaceFlagsCons(e3, []);
    WhitespaceFlagsCons(Whitespace(" "), [e3]);
    WhitespaceFlagsCons(Expression([Number(2.0)]), [Whitespace(" "), e3]);
    assert [e3] + [] == [e3] && [Whitespace(" ")] + [e3] == [Whitespace(" "), e3];
    assert [Expression([Number(2.0)])] + [Whitespace(" "), e3] == args;
  }

  lemma AddArguments()
    ensures forall a | a in [Expression([Number(2.0)]), Whitespace(" "), Expression([Number(3.0)])] :: Defined(a)
    ensures RenderAll([Expression([Number(2.0)]), Whitespace(" "), Expression([Number(3.0)])], false, AsWritten)
      == Some(["2", " ", "3"])
  {
    var two, three := Expression([Number(2.0)]), Expression([Number(3.0)]);
    ExpressionOfDigit(2, AsWritten);
    ExpressionOfDigit(3, AsWritten);
    assert DigitChar(2) == '2' && DigitChar(3) == '3';
    var s2, p2 := [three] + [], ["3"] + [];
    var s1, p1 := [Whitespace(" ")] + s2, [" "] + p2;
    RenderAllCons(three, [], false, AsWritten, "3", []);
    RenderAllCons(Whitespace(" "), s2, false, AsWritten, " ", p2);
    RenderAllCons(two, s1, false, AsWritten, "2", p1);
    assert [two] + s1 == [two, Whitespace(" "), three];
    assert ["2"] + p1 == ["2", " ", "3"];
  }

  lemma AddJoin()
    ensures JoinWithChoice(AsWritten, [false, true, false], ["2", " ", "3"]) == "2, 3"
  {
    var sfx := Suffixed([false, true, false], ["2", " ", "3"]);
    assert sfx[0] == "2," && sfx[1] == " " && sfx[2] == "3,";
    var q2 := ["3,"] + [];
    var q1 := [" "] + q2;
    FlattenCons("3,", []);
    FlattenCons(" ", q2);
    FlattenCons("2,", q1);
    assert ["2,"] + q1 == sfx;
    assert Flatten(sfx) == "2, 3" + [','];
    DropLastAppend("2, 3", ',');
  }

  /** `=f(g(1) )` as the parser's tree: the as-written renderer gives `=f(g(1),)`,
      the intended one gives the text back. */
  lemma RegenTrailingWhitespace()
    ensures Regenerate(Formula(Expression([Function("f", [Function("g", [Expression([Number(1.0)])]),
                                                          Whitespace(" ")])])), false)
      == "=f(g(1),)"
    ensures RegenerateIntended(Formula(Expression([Function("f", [Function("g", [Expression([Number(1.0)])]),
                                                                  Whitespace(" ")])])), false)
      == "=f(g(1) )"
  {
    var g := Function("g", [Expression([Number(1.0)])]);
    var args := [g, Whitespace(" ")];
    TrailingWhitespaceExample();
    TrailingTree(AsWritten, g, args, "g(1),");
    TrailingTree(Intended, g, args, "g(1) ");
    assert "=" + ("f" + "(" + "g(1)," + ")") == "=f(g(1),)";
    assert "=" + ("f" + "(" + "g(1) " + ")") == "=f(g(1) )";
  }

  /** `g(1)` as an argument: the call itself, since a function argument may be a
      function, an expression or a primitive. */
  lemma InnerFunction(join: ArgJoin)
    ensures Defined(Function("g", [Expression([Number(1.0)])]))
    ensures Render(Function("g", [Expression([Number(1.0)])]), false, join) == Some("g(1)")
  {
    var one := Expression([Number(1.0)]);
    ExpressionOfDigit(1, join);
    assert DigitChar(1) == '1';
    RenderAllCons(one, [], false, join, "1", []);
    assert [one] + [] == [one] && ["1"] + [] == ["1"];
    WhitespaceFlagsCons(one, []);
    CommasJoin([false], ["1"]);
    FunctionOf("g", [one], join, ["1"], "1");
    assert "g" + "(" + "1" + ")" == "g(1)";
  }

  lemma TrailingFlags(g: Node, args: seq<Node>)
    requires !g.Whitespace? && args == [g, Whitespace(" ")]
    ensures WhitespaceFlags(args) == [false, true]
  {
    WhitespaceFlagsCons(Whitespace(" "), []);
    WhitespaceFlagsCons(g, [Whitespace(" ")]);
    assert [Whitespace(" ")] + [] == [Whitespace(" ")] && [g] + [Whitespace(" ")] == args;
  }

  /** The arguments of `f` render as the call and the blank. */
  lemma TrailingArgs(join: ArgJoin, g: Node, args: seq<Node>)
    requires g == Function("g", [Expression([Number(1.0)])]) && args == [g, Whitespace(" ")]
    ensures forall a | a in args :: Defined(a)
    ensures RenderAll(args, false, join) == Some(["g(1)", " "])
  {
    InnerFunction(join);
    RenderAllCons(Whitespace(" "), [], false, join, " ", []);
    assert [Whitespace(" ")] + [] == [Whitespace(" ")] && [" "] + [] == [" "];
    RenderAllCons(g, [Whitespace(" ")], false, join, "g(1)", [" "]);
    assert [g] + [Whitespace(" ")] == args && ["g(1)"] + [" "] == ["g(1)", " "];
  }

  lemma TrailingTree(join: ArgJoin, g: Node, args: seq<Node>, text: string)
    requires g == Function("g", [Expression([Number(1.0)])]) && args == [g, Whitespace(" ")]
    requires JoinWithChoice(join, [false, true], ["g(1)", " "]) == text
    ensures Defined(Formula(Expression([Function("f", args)])))
    ensures join == AsWritten ==> Regenerate(Formula(Expression([Function("f", args)])), false) == "=" + ("f" + "(" + text + ")")
    ensures join == Intended ==> RegenerateIntended(Formula(Expression([Function("f", args)])), false) == "=" + ("f" + "(" + text + ")")
  {
    TrailingArgs(join, g, args);
    TrailingFlags(g, args);
    FunctionOf("f", args, join, ["g(1)", " "], text);
    var x := "f" + "(" + text + ")";
    ExpressionOfOne(Function("f", args), join, x);
    FormulaOf(Expression([Function("f", args)]), join, x);
  }

  // ---------------------------------------------------------------------------
  // A trailing whitespace argument (see README, Findings)

  /** As written, a trailing whitespace argument loses its last character (the
      closing `>` of its markup when highlighting) and the comma before it stays. */
  lemma AsWrittenTrailing(ws: seq<bool>, parts: seq<string>, p: string)
    requires |ws| == |parts| && p != ""
    ensures JoinArgsAsWritten(ws + [true], parts + [p]) == Flatten(Suffixed(ws, parts)) + DropLast(p)
  {
    var sfx := Suffixed(ws + [true], parts + [p]);
    var sfx0 := Suffixed(ws, parts);
    assert |sfx| == |sfx0 + [p]|;
    forall k | 0 <= k < |sfx| ensures sfx[k] == (sfx0 + [p])[k] {
      if k < |parts| {
        assert (ws + [true])[k] == ws[k] && (parts + [p])[k] == parts[k];
      }
    }
    assert sfx == sfx0 + [p];
    FlattenAppend(Suffixed(ws, parts), [p]);
    assert Flatten([p]) == p by { assert [p][1..] == []; }
  }

  /** `=f(g(1) )` parses to a function whose last argument is whitespace: written,
      it regenerates as `f(g(1),)`; intended, as `f(g(1) )`. */
  lemma TrailingWhitespaceExample()
    ensures JoinArgsAsWritten([false, true], ["g(1)", " "]) == "g(1),"
    ensures JoinArgs([false, true], ["g(1)", " "]) == "g(1) "
  {
    TrailingAsWritten();
    TrailingCorrected();
  }

  lemma TrailingAsWritten()
    ensures JoinArgsAsWritten([false, true], ["g(1)", " "]) == "g(1),"
  {
    var ws, parts := [false], ["g(1)"];
    AsWrittenTrailing(ws, parts, " ");
    var one := Suffixed(ws, parts);
    assert one[0] == "g(1)" + "," == "g(1),";
    assert one == ["g(1),"];
    assert Flatten(one) == "g(1)," by { assert one[1..] == []; }
    assert [false] + [true] == [false, true] && ["g(1)"] + [" "] == ["g(1)", " "];
  }

  lemma TrailingCorrected()
    ensures JoinArgs([false, true], ["g(1)", " "]) == "g(1) "
  {
    var ws, parts := [false], ["g(1)"];
    assert [false] + [true] == [false, true] && ["g(1)"] + [" "] == ["g(1)", " "];
    JoinArgsTrailing(ws, parts, " ");
    CommasJoin(ws, parts);
  }

  /** With highlighting, the markup of the trailing whitespace loses its final `>`. */
  lemma TrailingWhitespaceHighlighted(ws: seq<bool>, parts: seq<string>, text: string)
    requires |ws| == |parts|
    ensures JoinArgsAsWritten(ws + [true], parts + [Markup("whitespace", text)]) + ">"
      == Flatten(Suffixed(ws, parts)) + Markup("whitespace", text)
    ensures JoinArgs(ws + [true], parts + [Markup("whitespace", text)])
      == JoinArgs(ws, parts) + Markup("whitespace", text)
  {
    var m := Markup("whitespace", text);
    AsWrittenTrailing(ws, parts, m);
    assert m == DropLast(m) + [m[|m| - 1]];
    JoinArgsTrailing(ws, parts, m);
  }
}
