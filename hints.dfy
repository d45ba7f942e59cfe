/** The hint resolver of src/parser/hints.js: from the node under the caret,
    walk up to the nearest `input-function` span and describe the function, or the
    argument the caret is in, from the catalog. */
module Hints {
  import opened Utility
  import opened Values
  import Config
  import Dom

  const RootClass: string := "input formula-input"
  const FunctionClass: string := "input-function"

  predicate IsRoot(d: Dom.Node) { d.Element? && d.cls == RootClass }

  predicate IsFunction(d: Dom.Node) { d.Element? && d.cls == FunctionClass }

  /** The node at `p`, or one of its ancestors, is the formula input: the walk up
      `parentNode` stops there. */
  predicate UnderRoot(doc: Dom.Node, p: seq<nat>)
    requires Dom.ValidPath(doc, p)
    decreases |p|
  {
    IsRoot(Dom.At(doc, p)) || (|p| > 0 && (Dom.Parent(doc, p); UnderRoot(doc, p[..|p| - 1])))
  }

  /** What `getHints` returns: `{}`, `{fn, overview, functionNode}`,
      `{overview, functionNode}` or `{argument, overview, functionNode}`. The
      function node is given by its path. */
  datatype Hint =
    | NoHint
    | NameHint(name: string, description: string, overview: string, functionNode: seq<nat>)
    | OverviewHint(overview: string, functionNode: seq<nat>)
    | ArgumentHint(number: nat, argument: Option<Config.Descriptor>, overview: string, functionNode: seq<nat>)

  /** The binding `last` that hints.js imports: src/utility/index.js exports no
      such function (`Missing`, calling it throws); `FinalChild` is the intended
      `arr => arr[arr.length - 1]`. */
  datatype LastBinding = Missing | FinalChild

  /** A call that returns, or throws a `TypeError`. */
  datatype Outcome = Returned(hint: Hint) | Threw

  /** The argument names of an array descriptor list. */
  function Names(ds: seq<Config.Descriptor>): (r: seq<string>)
    ensures |r| == |ds| && forall k :: 0 <= k < |ds| ==> r[k] == ds[k].name
  {
    seq(|ds|, k requires 0 <= k < |ds| => ds[k].name)
  }

  /** The part of the overview after the name: the argument names in brackets for
      an array descriptor, `()` otherwise. (No catalog entry sets `overview`.) */
  function Signature(e: Config.Entry): (r: string)
    ensures Config.ArgumentsOf(e).Listed? ==>
      r == "(" + JoinWith(Names(Config.ArgumentsOf(e).descriptors), ", ") + ")"
    ensures !Config.ArgumentsOf(e).Listed? ==> r == "()"
  {
    match Config.ArgumentsOf(e)
    case Listed(ds) => "(" + JoinWith(Names(ds), ", ") + ")"
    case _ => "()"
  }

  /** `fn.arguments[n]` or `fn.arguments(n)`; `None` where the array has no such
      element (spreading `undefined` adds nothing). */
  function ArgumentDetails(e: Config.Entry, n: nat): (r: Option<Config.Descriptor>)
    requires e != Config.Identity
    ensures Config.ArgumentsOf(e).Listed? ==>
      (r.Some? <==> n < |Config.ArgumentsOf(e).descriptors|)
      && (r.Some? ==> r.value == Config.ArgumentsOf(e).descriptors[n])
    ensures Config.ArgumentsOf(e).Computed? ==> r == Some(Config.ComputedDescriptor(e, n))
  {
    match Config.ArgumentsOf(e)
    case Listed(ds) => if n < |ds| then Some(ds[n]) else None
    case Computed => Some(Config.ComputedDescriptor(e, n))
  }

  /** The first child's text without its last character (`text.slice(0, text.length - 1)`). */
  function FunctionName(parent: Dom.Node): string
    requires parent.Element? && |parent.children| > 0
  {
    var text := Dom.TextContent(parent.children[0]);
    if |text| == 0 then "" else text[..|text| - 1]
  }

  /** The function span names a catalog entry other than the unnamed one. */
  predicate Known(parent: Dom.Node)
    requires parent.Element? && |parent.children| > 0
  {
    FunctionName(parent) != "" && Config.Lookup(FunctionName(parent)).Some?
  }

  function EntryOf(parent: Dom.Node): Config.Entry
    requires parent.Element? && |parent.children| > 0 && Known(parent)
  {
    Config.Lookup(FunctionName(parent)).value
  }

  /** The body of the `input-function` branch: `parent` is the function span at
      path `fp`, and the node is its child number `index`. */
  function FunctionHint(parent: Dom.Node, fp: seq<nat>, index: nat, last: LastBinding): (r: Outcome)
    requires parent.Element? && index < |parent.children|
    ensures r.Returned? && r.hint != NoHint ==> r.hint.functionNode == fp
    ensures last == FinalChild ==> r.Returned?
  {
    var name := FunctionName(parent);
    var fn := Config.Lookup(name);
    if fn.None? || name == "" then Returned(NoHint)
    else
      var e := fn.value;
      var overview := name + Signature(e);
      if index == 0 then Returned(NameHint(name, Config.Description(e).value, overview, fp))
      else if last == Missing then Threw
      else if index == |parent.children| - 1 then Returned(OverviewHint(overview, fp))
      else if Dom.TextContent(parent.children[index]) == "," then Returned(OverviewHint(overview, fp))
      else
        var number := Quotient(index, 2);
        Returned(ArgumentHint(number, ArgumentDetails(e, number), overview, fp))
  }

  /** The nodes strictly between the prefix of length `j` and `p` itself are
      neither the formula input nor a function span. */
  predicate Clear(doc: Dom.Node, p: seq<nat>, j: nat)
  {
    forall k: nat | j < k < |p| ::
      Dom.ValidPath(doc, p[..k]) && !IsRoot(Dom.At(doc, p[..k])) && !IsFunction(Dom.At(doc, p[..k]))
  }

  /** `findFunction(node)` for the node at path `p`. */
  function FindFunction(doc: Dom.Node, p: seq<nat>, last: LastBinding): (r: Outcome)
    requires Dom.ValidPath(doc, p) && |p| > 0
    requires (Dom.Parent(doc, p); UnderRoot(doc, p[..|p| - 1]))
    ensures last == FinalChild ==> r.Returned?
    decreases |p|
  {
    Dom.Parent(doc, p);
    var fp := p[..|p| - 1];
    var parent := Dom.At(doc, fp);
    if IsRoot(parent) then Returned(NoHint)
    else if IsFunction(parent) then FunctionHint(parent, fp, p[|p| - 1], last)
    else FindFunction(doc, fp, last)
  }

  /** The hint's function node is the nearest function span above the node with
      nothing in between ending the walk, and it is the child of that span on the
      way to the node that the hint is about. */
  lemma {:induction false} FindsNearestFunction(doc: Dom.Node, p: seq<nat>, last: LastBinding)
    requires Dom.ValidPath(doc, p) && |p| > 0
    requires (Dom.Parent(doc, p); UnderRoot(doc, p[..|p| - 1]))
    ensures var r := FindFunction(doc, p, last);
      r.Returned? && r.hint != NoHint ==>
        var j := |r.hint.functionNode|;
        j < |p| && r.hint.functionNode == p[..j] && Dom.ValidPath(doc, p[..j])
        && IsFunction(Dom.At(doc, p[..j])) && Clear(doc, p, j)
    decreases |p|
  {
    Dom.Parent(doc, p);
    var fp := p[..|p| - 1];
    var parent := Dom.At(doc, fp);
    if !IsRoot(parent) && !IsFunction(parent) {
      FindsNearestFunction(doc, fp, last);
      var r := FindFunction(doc, fp, last);
      if r.Returned? && r.hint != NoHint {
        var j := |r.hint.functionNode|;
        assert fp[..j] == p[..j];
        ClearExtend(doc, p, j);
      }
    }
  }

  /** A plain span just above the node extends the stretch below a function span. */
  lemma ClearExtend(doc: Dom.Node, p: seq<nat>, j: nat)
    requires |p| > 0 && j < |p| - 1 && Clear(doc, p[..|p| - 1], j)
    requires Dom.ValidPath(doc, p[..|p| - 1]) && !IsRoot(Dom.At(doc, p[..|p| - 1])) && !IsFunction(Dom.At(doc, p[..|p| - 1]))
    ensures Clear(doc, p, j)
  {
    var fp := p[..|p| - 1];
    forall k: nat | j < k < |p|
      ensures Dom.ValidPath(doc, p[..k]) && !IsRoot(Dom.At(doc, p[..k])) && !IsFunction(Dom.At(doc, p[..k]))
    {
      if k < |fp| {
        assert fp[..k] == p[..k];
      } else {
        assert p[..k] == fp;
      }
    }
  }

  /** Any function span above the node with nothing in between ending the walk
      is the one `findFunction` describes. */
  lemma {:induction false} UsesNearestFunction(doc: Dom.Node, p: seq<nat>, last: LastBinding, j: nat)
    requires Dom.ValidPath(doc, p) && |p| > 0
    requires (Dom.Parent(doc, p); UnderRoot(doc, p[..|p| - 1]))
    requires j < |p| && Dom.ValidPath(doc, p[..j]) && IsFunction(Dom.At(doc, p[..j])) && Clear(doc, p, j)
    ensures Dom.At(doc, p[..j]).Element? && p[j] < |Dom.At(doc, p[..j]).children|
    ensures FindFunction(doc, p, last) == FunctionHint(Dom.At(doc, p[..j]), p[..j], p[j], last)
    decreases |p|
  {
    Dom.Parent(doc, p);
    var fp := p[..|p| - 1];
    if j < |fp| {
      assert Dom.ValidPath(doc, p[..|fp|]) && !IsRoot(Dom.At(doc, fp)) && !IsFunction(Dom.At(doc, fp));
      assert forall k: nat | k <= |fp| :: fp[..k] == p[..k];
      assert fp[j] == p[j];
      UsesNearestFunction(doc, fp, last, j);
    }
  }

  /** `getHints(node)` with the given binding for `last`. */
  function Resolve(doc: Dom.Node, p: seq<nat>, last: LastBinding): (r: Outcome)
    requires Dom.ValidPath(doc, p) && UnderRoot(doc, p)
    ensures last == FinalChild ==> r.Returned?
  {
    if IsRoot(Dom.At(doc, p)) then Returned(NoHint) else FindFunction(doc, p, last)
  }

  /** `getHints` with `last` the final child. */
  function GetHints(doc: Dom.Node, p: seq<nat>): (h: Hint)
    requires Dom.ValidPath(doc, p) && UnderRoot(doc, p)
  {
    Resolve(doc, p, FinalChild).hint
  }

  /** Which hint the function span gives for its child number `index`. */
  lemma FunctionHintCases(parent: Dom.Node, fp: seq<nat>, index: nat, last: LastBinding)
    requires parent.Element? && index < |parent.children|
    ensures !Known(parent) ==> FunctionHint(parent, fp, index, last) == Returned(NoHint)
    ensures Known(parent) && index == 0 ==>
      FunctionHint(parent, fp, index, last) ==
        Returned(NameHint(FunctionName(parent), Config.Description(EntryOf(parent)).value,
                          FunctionName(parent) + Signature(EntryOf(parent)), fp))
    ensures Known(parent) && index != 0 && last == Missing ==> FunctionHint(parent, fp, index, last) == Threw
    ensures (Known(parent) && index != 0 && last == FinalChild
             && (index == |parent.children| - 1 || Dom.TextContent(parent.children[index]) == ",")) ==>
      FunctionHint(parent, fp, index, last) == Returned(OverviewHint(FunctionName(parent) + Signature(EntryOf(parent)), fp))
    ensures (Known(parent) && index != 0 && last == FinalChild
             && index != |parent.children| - 1 && Dom.TextContent(parent.children[index]) != ",") ==>
      FunctionHint(parent, fp, index, last) == Returned(ArgumentHint(index / 2, ArgumentDetails(EntryOf(parent), index / 2),
                                                                    FunctionName(parent) + Signature(EntryOf(parent)), fp))
  {
  }

  /** Without a function span above the node (before the walk ends) there is no hint. */
  lemma {:induction false} NoFunctionNoHint(doc: Dom.Node, p: seq<nat>, last: LastBinding)
    requires Dom.ValidPath(doc, p) && |p| > 0
    requires (Dom.Parent(doc, p); UnderRoot(doc, p[..|p| - 1]))
    requires forall j: nat | j < |p| :: Dom.ValidPath(doc, p[..j]) && !IsFunction(Dom.At(doc, p[..j]))
    ensures FindFunction(doc, p, last) == Returned(NoHint)
    decreases |p|
  {
    Dom.Parent(doc, p);
    var fp := p[..|p| - 1];
    assert !IsFunction(Dom.At(doc, fp)) by { assert p[..|fp|] == fp; }
    if !IsRoot(Dom.At(doc, fp)) {
      assert forall k: nat | k <= |fp| :: fp[..k] == p[..k];
      NoFunctionNoHint(doc, fp, last);
    }
  }

  /** The formula input itself, and its direct children, get no hint. */
  lemma AtTheRoot(doc: Dom.Node, p: seq<nat>)
    requires Dom.ValidPath(doc, p) && UnderRoot(doc, p)
    ensures IsRoot(Dom.At(doc, p)) ==> GetHints(doc, p) == NoHint
    ensures |p| > 0 ==> (Dom.Parent(doc, p); IsRoot(Dom.At(doc, p[..|p| - 1])) ==> GetHints(doc, p) == NoHint)
  {
  }

  /** With `last` missing, every call that gets past the name child throws: only
      `{}` and the name hint are ever returned. */
  lemma {:induction false} MissingLastThrows(doc: Dom.Node, p: seq<nat>)
    requires Dom.ValidPath(doc, p) && |p| > 0
    requires (Dom.Parent(doc, p); UnderRoot(doc, p[..|p| - 1]))
    ensures var h := FindFunction(doc, p, FinalChild).hint;
      FindFunction(doc, p, Missing) == if h.OverviewHint? || h.ArgumentHint? then Threw else Returned(h)
    decreases |p|
  {
    Dom.Parent(doc, p);
    var fp := p[..|p| - 1];
    var parent := Dom.At(doc, fp);
    if IsFunction(parent) && !IsRoot(parent) {
      FunctionHintCases(parent, fp, p[|p| - 1], Missing);
      FunctionHintCases(parent, fp, p[|p| - 1], FinalChild);
    } else if !IsRoot(parent) {
      MissingLastThrows(doc, fp);
    }
  }

  lemma AsWrittenThrows(doc: Dom.Node, p: seq<nat>)
    requires Dom.ValidPath(doc, p) && UnderRoot(doc, p)
    ensures var h := GetHints(doc, p);
      Resolve(doc, p, Missing) == if h.OverviewHint? || h.ArgumentHint? then Threw else Returned(h)
  {
    if !IsRoot(Dom.At(doc, p)) {
      MissingLastThrows(doc, p);
    }
  }

  /** A formula input holding the function span of `increment(4)`; the text node
      `4` is at path `[0, 1, 0, 0]`. */
  function IncrementDoc(): Dom.Node
  {
    Dom.Element(RootClass, [
      Dom.Element(FunctionClass, [
        Dom.TextNode("increment("),
        Dom.Element("input-expression", [Dom.Element("input-number", [Dom.TextNode("4")])]),
        Dom.TextNode(")")])])
  }

  lemma IncrementDocPaths()
    ensures Dom.ValidPath(IncrementDoc(), [0, 1, 0, 0]) && UnderRoot(IncrementDoc(), [0, 1, 0, 0])
    ensures Dom.ValidPath(IncrementDoc(), [0]) && Dom.At(IncrementDoc(), [0]) == IncrementDoc().children[0]
    ensures Clear(IncrementDoc(), [0, 1, 0, 0], 1) && [0, 1, 0, 0][..1] == [0]
  {
    var doc, p := IncrementDoc(), [0, 1, 0, 0];
    var fnode := doc.children[0];
    var expr := fnode.children[1];
    var num := expr.children[0];
    assert p[1..][1..][1..][1..] == [];
    assert Dom.At(doc, p) == num.children[0];
    assert p[..1] == [0] && p[..2] == [0, 1] && p[..3] == [0, 1, 0];
    assert Dom.At(doc, [0]) == fnode by { assert [0][1..] == []; }
    assert Dom.At(doc, [0, 1]) == expr by { assert [0, 1][1..][1..] == []; }
    assert Dom.At(doc, [0, 1, 0]) == num by { assert [0, 1, 0][1..][1..][1..] == []; }
    assert UnderRoot(doc, [0, 1, 0]) by {
      assert UnderRoot(doc, []);
      assert [0, 1, 0][..2] == [0, 1] && [0, 1][..1] == [0] && [0][..0] == [];
    }
  }

  lemma IncrementDocTexts()
    ensures Dom.TextContent(IncrementDoc().children[0].children[1]) == "4"
    ensures FunctionName(IncrementDoc().children[0]) == "increment"
  {
    var fnode := IncrementDoc().children[0];
    var expr := fnode.children[1];
    var num := expr.children[0];
    Dom.ElementText("input-number", [Dom.TextNode("4")]);
    Dom.ElementText("input-expression", [num]);
    assert Dom.Texts([Dom.TextNode("4")]) == ["4"];
    assert Flatten(["4"]) == "4" by { assert ["4"][1..] == []; }
    assert Dom.TextContent(num) == "4";
    assert Dom.Texts([num]) == ["4"];
    assert Dom.TextContent(fnode.children[0]) == "increment(";
  }

  /** With the caret in `4` of `=increment(4)` the hint is argument 0 of
      `increment(number)`; as written, the call throws instead. */
  lemma IncrementExample()
    ensures Dom.ValidPath(IncrementDoc(), [0, 1, 0, 0]) && UnderRoot(IncrementDoc(), [0, 1, 0, 0])
    ensures GetHints(IncrementDoc(), [0, 1, 0, 0])
      == ArgumentHint(0, Some(Config.Descriptor("number", None)), "increment(number)", [0])
    ensures Resolve(IncrementDoc(), [0, 1, 0, 0], Missing) == Threw
  {
    IncrementDocPaths();
    IncrementHint();
    IncrementThrows();
  }

  lemma IncrementHint()
    requires Dom.ValidPath(IncrementDoc(), [0, 1, 0, 0]) && UnderRoot(IncrementDoc(), [0, 1, 0, 0])
    ensures GetHints(IncrementDoc(), [0, 1, 0, 0])
      == ArgumentHint(0, Some(Config.Descriptor("number", None)), "increment(number)", [0])
  {
    var doc, p := IncrementDoc(), [0, 1, 0, 0];
    IncrementDocPaths();
    UsesNearestFunction(doc, p, FinalChild, 1);
    IncrementSpanHint();
  }

  /** The function span's own answer for its argument child. */
  lemma IncrementSpanHint()
    ensures FunctionHint(IncrementDoc().children[0], [0], 1, FinalChild)
      == Returned(ArgumentHint(0, Some(Config.Descriptor("number", None)), "increment(number)", [0]))
  {
    var fnode := IncrementDoc().children[0];
    IncrementDocTexts();
    IncrementArgumentHint(fnode);
  }

  /** A span named `increment` with three children, the middle one reading `4`. */
  lemma IncrementArgumentHint(fnode: Dom.Node)
    requires fnode.Element? && |fnode.children| == 3 && FunctionName(fnode) == "increment"
    requires Dom.TextContent(fnode.children[1]) == "4"
    ensures FunctionHint(fnode, [0], 1, FinalChild)
      == Returned(ArgumentHint(0, Some(Config.Descriptor("number", None)), "increment(number)", [0]))
  {
    IncrementEntry();
    assert Known(fnode) && EntryOf(fnode) == Config.Increment;
    assert "4" != ",";
    FunctionHintCases(fnode, [0], 1, FinalChild);
  }

  /** The catalog's entry for `increment`: one number. */
  lemma IncrementEntry()
    ensures Config.Lookup("increment") == Some(Config.Increment)
    ensures Signature(Config.Increment) == "(number)"
    ensures ArgumentDetails(Config.Increment, 0) == Some(Config.Descriptor("number", None))
  {
    assert JoinWith(["number"], ", ") == "number";
  }

  lemma IncrementThrows()
    requires Dom.ValidPath(IncrementDoc(), [0, 1, 0, 0]) && UnderRoot(IncrementDoc(), [0, 1, 0, 0])
    ensures Resolve(IncrementDoc(), [0, 1, 0, 0], Missing) == Threw
  {
    var doc, p := IncrementDoc(), [0, 1, 0, 0];
    IncrementDocPaths();
    IncrementDocTexts();
    assert Config.Lookup("increment") == Some(Config.Increment);
    UsesNearestFunction(doc, p, Missing, 1);
    FunctionHintCases(doc.children[0], [0], 1, Missing);
  }
}
