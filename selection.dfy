/** The caret locator `currentNode` of src/utility/selection.js: the text node
    holding a character position of the editor, and the offset inside it. */
module Selection {
  import opened Utility
  import Dom

  /** The accumulator `{ node, current, len, found }` of the `reduce` in
      `getNode`; `node` is a path, `len` is `null` until a text node is found. */
  datatype Acc = Acc(node: seq<nat>, current: int, len: Option<nat>, found: bool)

  /** `nodeContains`: both ends are included. */
  predicate Contains(d: Dom.Node, current: int, pos: int)
  {
    current <= pos <= current + |Dom.TextContent(d)|
  }

  /** `getNode(node, current)` for the node `d` at path `at`. */
  function GetNode(d: Dom.Node, at: seq<nat>, current: int, pos: int): Acc
    decreases d, 1
  {
    match d
    case TextNode(_) => Acc(at, current, None, false)
    case Element(_, cs) => Fold(cs, at, 0, Acc(at, current, None, false), pos)
  }

  /** The `reduce` over the children of the element at `at`, from child `k` on. */
  function Fold(cs: seq<Dom.Node>, at: seq<nat>, k: nat, acc: Acc, pos: int): Acc
    requires k <= |cs|
    decreases cs, 0, |cs| - k
  {
    if k == |cs| then acc
    else Fold(cs, at, k + 1, Step(cs[k], at + [k], acc, pos), pos)
  }

  /** One call of the reducer on the child `next` at path `at`. */
  function Step(next: Dom.Node, at: seq<nat>, acc: Acc, pos: int): Acc
    decreases next, 2
  {
    var len := |Dom.TextContent(next)|;
    if acc.found then acc
    else if !Contains(next, acc.current, pos) then acc.(current := acc.current + len)
    else if next.TextNode? then Acc(at, acc.current + len, Some(len), true)
    else GetNode(next, at, acc.current, pos)
  }

  /** `getNode` as a loop over the children with the accumulator as its state. */
  method Locate(d: Dom.Node, at: seq<nat>, current: int, pos: int) returns (acc: Acc)
    ensures acc == GetNode(d, at, current, pos)
    decreases d
  {
    acc := Acc(at, current, None, false);
    if d.TextNode? {
      return;
    }
    var cs := d.children;
    var k := 0;
    while k < |cs|
      invariant 0 <= k <= |cs|
      invariant Fold(cs, at, k, acc, pos) == GetNode(d, at, current, pos)
    {
      var next := cs[k];
      if !acc.found {
        var len := |Dom.TextContent(next)|;
        if !(acc.current <= pos <= acc.current + len) {
          acc := acc.(current := acc.current + len);
        } else if next.TextNode? {
          acc := acc.(node := at + [k], current := acc.current + len, len := Some(len), found := true);
        } else {
          acc := Locate(next, at + [k], acc.current, pos);
        }
      }
      k := k + 1;
    }
  }

  /** `currentNode(root, pos)`: the node found and `pos - (end - len)`, where a
      missing `len` counts as 0. */
  method CurrentNode(root: Dom.Node, pos: int) returns (node: seq<nat>, offset: int)
    ensures node == GetNode(root, [], 0, pos).node
    ensures offset == pos - (GetNode(root, [], 0, pos).current - LenOrZero(GetNode(root, [], 0, pos).len))
    ensures root.Element? ==> var f := FirstHolding(Leaves(root, [], 0), pos);
      (f.Some? ==> (node == f.value.path && offset == pos - f.value.start
                    && Dom.ValidPath(root, node) && Dom.At(root, node).TextNode? && 0 <= offset <= |Dom.At(root, node).text|))
      && (f.None? ==> offset == pos - |Dom.TextContent(root)|)
  {
    if root.Element? {
      GetNodeFinds(root, [], 0, pos);
      LeavesAreTexts(root, [], root, 0);
    }
    var acc := Locate(root, [], 0, pos);
    var start := acc.current - (if acc.len.Some? then acc.len.value else 0);
    node, offset := acc.node, pos - start;
  }

  function LenOrZero(len: Option<nat>): nat
  {
    if len.Some? then len.value else 0
  }

  // ---------------------------------------------------------------------------
  // The text nodes in document order, as a reference

  /** A text node: its path, the position where its text starts, and its length. */
  datatype Leaf = Leaf(path: seq<nat>, start: int, len: nat)

  /** The text nodes of `d` (at path `at`, its text starting at `start`) in document order. */
  function Leaves(d: Dom.Node, at: seq<nat>, start: int): seq<Leaf>
    decreases d, 1
  {
    match d
    case TextNode(t) => [Leaf(at, start, |t|)]
    case Element(_, cs) => ChildLeaves(cs, at, 0, start)
  }

  function ChildLeaves(cs: seq<Dom.Node>, at: seq<nat>, k: nat, start: int): seq<Leaf>
    requires k <= |cs|
    decreases cs, 0, |cs| - k
  {
    if k == |cs| then []
    else Leaves(cs[k], at + [k], start) + ChildLeaves(cs, at, k + 1, start + |Dom.TextContent(cs[k])|)
  }

  predicate Holds(l: Leaf, pos: int) { l.start <= pos <= l.start + l.len }

  /** The first text node in the list whose range (ends included) holds `pos`. */
  function FirstHolding(ls: seq<Leaf>, pos: int): (r: Option<Leaf>)
    ensures r.Some? ==> r.value in ls && Holds(r.value, pos)
    ensures r.None? <==> forall l | l in ls :: !Holds(l, pos)
  {
    if |ls| == 0 then None
    else if Holds(ls[0], pos) then Some(ls[0])
    else FirstHolding(ls[1..], pos)
  }

  /** The node reported is the first in the list to hold `pos`. */
  lemma {:induction false} FirstHoldingIsFirst(ls: seq<Leaf>, pos: int)
    requires FirstHolding(ls, pos).Some?
    ensures exists i :: 0 <= i < |ls| && ls[i] == FirstHolding(ls, pos).value && forall j :: 0 <= j < i ==> !Holds(ls[j], pos)
  {
    if !Holds(ls[0], pos) {
      FirstHoldingIsFirst(ls[1..], pos);
      var i :| 0 <= i < |ls[1..]| && ls[1..][i] == FirstHolding(ls[1..], pos).value && forall j :: 0 <= j < i ==> !Holds(ls[1..][j], pos);
      assert ls[i + 1] == FirstHolding(ls, pos).value;
      assert forall j :: 0 <= j < i + 1 ==> !Holds(ls[j], pos) by {
        forall j | 0 <= j < i + 1 ensures !Holds(ls[j], pos) {
          if j > 0 { assert ls[j] == ls[1..][j - 1]; }
        }
      }
    } else {
      assert ls[0] == FirstHolding(ls, pos).value;
    }
  }

  lemma {:induction false} FirstHoldingAppend(a: seq<Leaf>, b: seq<Leaf>, pos: int)
    ensures FirstHolding(a + b, pos) == if FirstHolding(a, pos).Some? then FirstHolding(a, pos) else FirstHolding(b, pos)
  {
    if |a| == 0 {
      assert a + b == b;
    } else {
      assert (a + b)[0] == a[0] && (a + b)[1..] == a[1..] + b;
      FirstHoldingAppend(a[1..], b, pos);
    }
  }

  /** The total text length of the children from `k` on. */
  function Width(cs: seq<Dom.Node>, k: nat): nat
    requires k <= |cs|
    decreases |cs| - k
  {
    if k == |cs| then 0 else |Dom.TextContent(cs[k])| + Width(cs, k + 1)
  }

  lemma {:induction false} FlattenWidth(cs: seq<Dom.Node>, k: nat)
    requires k <= |cs|
    ensures |Flatten(Dom.Texts(cs)[k..])| == Width(cs, k)
    decreases |cs| - k
  {
    var ts := Dom.Texts(cs);
    if k < |cs| {
      assert ts[k..][0] == ts[k] && ts[k..][1..] == ts[k + 1..];
      FlattenWidth(cs, k + 1);
    } else {
      assert ts[k..] == [];
    }
  }

  lemma ElementWidth(cls: string, cs: seq<Dom.Node>)
    ensures |Dom.TextContent(Dom.Element(cls, cs))| == Width(cs, 0)
  {
    Dom.ElementText(cls, cs);
    FlattenWidth(cs, 0);
    assert Dom.Texts(cs)[0..] == Dom.Texts(cs);
  }

  /** Every text node below `d` lies inside `d`'s own range. */
  lemma {:induction false} LeavesWithin(d: Dom.Node, at: seq<nat>, start: int)
    ensures forall l | l in Leaves(d, at, start) :: start <= l.start && l.start + l.len <= start + |Dom.TextContent(d)|
    decreases d, 1
  {
    if d.Element? {
      ChildLeavesWithin(d.children, at, 0, start);
      ElementWidth(d.cls, d.children);
    }
  }

  lemma {:induction false} ChildLeavesWithin(cs: seq<Dom.Node>, at: seq<nat>, k: nat, start: int)
    requires k <= |cs|
    ensures forall l | l in ChildLeaves(cs, at, k, start) :: start <= l.start && l.start + l.len <= start + Width(cs, k)
    decreases cs, 0, |cs| - k
  {
    if k < |cs| {
      LeavesWithin(cs[k], at + [k], start);
      ChildLeavesWithin(cs, at, k + 1, start + |Dom.TextContent(cs[k])|);
    }
  }

  /** Once a node is found the remaining children change nothing. */
  lemma {:induction false} FoldFound(cs: seq<Dom.Node>, at: seq<nat>, k: nat, acc: Acc, pos: int)
    requires k <= |cs| && acc.found
    ensures Fold(cs, at, k, acc, pos) == acc
    decreases |cs| - k
  {
    if k < |cs| {
      FoldFound(cs, at, k + 1, acc, pos);
    }
  }

  /** The accumulator `r` reports the text node `f`, or, when there is none,
      ends with its running offset at `end`. */
  predicate Reports(r: Acc, f: Option<Leaf>, end: int)
  {
    (r.found <==> f.Some?)
    && (r.found ==> r.node == f.value.path && r.len == Some(f.value.len) && r.current == f.value.start + f.value.len)
    && (!r.found ==> r.current == end && r.len.None?)
  }

  /** `getNode` on an element finds exactly the first text node below it whose
      range holds `pos`; when there is none, the running offset ends past the
      element's text. */
  lemma {:induction false} GetNodeFinds(d: Dom.Node, at: seq<nat>, current: int, pos: int)
    requires d.Element?
    ensures Reports(GetNode(d, at, current, pos), FirstHolding(Leaves(d, at, current), pos), current + |Dom.TextContent(d)|)
    decreases d, 1
  {
    FoldFinds(d.children, at, 0, Acc(at, current, None, false), pos);
    ElementWidth(d.cls, d.children);
  }

  lemma {:induction false} FoldFinds(cs: seq<Dom.Node>, at: seq<nat>, k: nat, acc: Acc, pos: int)
    requires k <= |cs| && !acc.found && acc.len.None?
    ensures Reports(Fold(cs, at, k, acc, pos), FirstHolding(ChildLeaves(cs, at, k, acc.current), pos), acc.current + Width(cs, k))
    decreases cs, 0, |cs| - k
  {
    if k < |cs| {
      if !Contains(cs[k], acc.current, pos) {
        FoldFindsSkip(cs, at, k, acc, pos);
      } else if cs[k].TextNode? {
        FoldFindsText(cs, at, k, acc, pos);
      } else {
        FoldFindsElement(cs, at, k, acc, pos);
      }
    }
  }

  lemma {:induction false} FoldFindsSkip(cs: seq<Dom.Node>, at: seq<nat>, k: nat, acc: Acc, pos: int)
    requires k < |cs| && !acc.found && acc.len.None? && !Contains(cs[k], acc.current, pos)
    ensures Reports(Fold(cs, at, k, acc, pos), FirstHolding(ChildLeaves(cs, at, k, acc.current), pos), acc.current + Width(cs, k))
    decreases cs, 0, |cs| - k, 0
  {
    var next, len := cs[k], |Dom.TextContent(cs[k])|;
    var mine, rest := Leaves(next, at + [k], acc.current), ChildLeaves(cs, at, k + 1, acc.current + len);
    FirstHoldingAppend(mine, rest, pos);
    LeavesWithin(next, at + [k], acc.current);
    NoneHolds(mine, acc.current, acc.current + len, pos);
    var acc' := Step(next, at + [k], acc, pos);
    assert acc' == acc.(current := acc.current + len);
    assert Fold(cs, at, k, acc, pos) == Fold(cs, at, k + 1, acc', pos);
    assert ChildLeaves(cs, at, k, acc.current) == mine + rest;
    FoldFinds(cs, at, k + 1, acc', pos);
  }

  lemma NoneHolds(ls: seq<Leaf>, lo: int, hi: int, pos: int)
    requires forall l | l in ls :: lo <= l.start && l.start + l.len <= hi
    requires pos < lo || hi < pos
    ensures FirstHolding(ls, pos).None?
  {
  }

  lemma {:induction false} FoldFindsText(cs: seq<Dom.Node>, at: seq<nat>, k: nat, acc: Acc, pos: int)
    requires k < |cs| && !acc.found && acc.len.None? && cs[k].TextNode? && Contains(cs[k], acc.current, pos)
    ensures Reports(Fold(cs, at, k, acc, pos), FirstHolding(ChildLeaves(cs, at, k, acc.current), pos), acc.current + Width(cs, k))
  {
    var next, len := cs[k], |Dom.TextContent(cs[k])|;
    var mine, rest := Leaves(next, at + [k], acc.current), ChildLeaves(cs, at, k + 1, acc.current + len);
    FirstHoldingAppend(mine, rest, pos);
    var acc' := Step(next, at + [k], acc, pos);
    assert acc' == Acc(at + [k], acc.current + len, Some(len), true);
    FoldFound(cs, at, k + 1, acc', pos);
    assert FirstHolding(mine, pos) == Some(Leaf(at + [k], acc.current, len));
  }

  lemma {:induction false} FoldFindsElement(cs: seq<Dom.Node>, at: seq<nat>, k: nat, acc: Acc, pos: int)
    requires k < |cs| && !acc.found && acc.len.None? && cs[k].Element? && Contains(cs[k], acc.current, pos)
    ensures Reports(Fold(cs, at, k, acc, pos), FirstHolding(ChildLeaves(cs, at, k, acc.current), pos), acc.current + Width(cs, k))
    decreases cs, 0, |cs| - k, 0
  {
    var next, len := cs[k], |Dom.TextContent(cs[k])|;
    var mine, rest := Leaves(next, at + [k], acc.current), ChildLeaves(cs, at, k + 1, acc.current + len);
    FirstHoldingAppend(mine, rest, pos);
    var acc' := Step(next, at + [k], acc, pos);
    assert acc' == GetNode(next, at + [k], acc.current, pos);
    assert Fold(cs, at, k, acc, pos) == Fold(cs, at, k + 1, acc', pos);
    assert ChildLeaves(cs, at, k, acc.current) == mine + rest;
    assert Width(cs, k) == len + Width(cs, k + 1);
    GetNodeFinds(next, at + [k], acc.current, pos);
    if acc'.found {
      FoldFound(cs, at, k + 1, acc', pos);
    } else {
      assert acc'.current == acc.current + len;
      FoldFinds(cs, at, k + 1, acc', pos);
    }
  }

  /** Every text node listed is one: its path leads from the root to a text
      node of the listed length. */
  lemma {:induction false} LeavesAreTexts(root: Dom.Node, at: seq<nat>, d: Dom.Node, start: int)
    requires Dom.ValidPath(root, at) && Dom.At(root, at) == d
    ensures forall l | l in Leaves(d, at, start) ::
      Dom.ValidPath(root, l.path) && Dom.At(root, l.path).TextNode? && |Dom.At(root, l.path).text| == l.len
    decreases d, 1
  {
    if d.Element? {
      ChildLeavesAreTexts(root, at, d.children, 0, start);
    }
  }

  lemma {:induction false} ChildLeavesAreTexts(root: Dom.Node, at: seq<nat>, cs: seq<Dom.Node>, k: nat, start: int)
    requires Dom.ValidPath(root, at) && Dom.At(root, at).Element? && Dom.At(root, at).children == cs && k <= |cs|
    ensures forall l | l in ChildLeaves(cs, at, k, start) ::
      Dom.ValidPath(root, l.path) && Dom.At(root, l.path).TextNode? && |Dom.At(root, l.path).text| == l.len
    decreases cs, 0, |cs| - k
  {
    if k < |cs| {
      Dom.Child(root, at, k);
      LeavesAreTexts(root, at + [k], cs[k], start);
      ChildLeavesAreTexts(root, at, cs, k + 1, start + |Dom.TextContent(cs[k])|);
    }
  }

  /** A node without text nodes below it has no text. */
  lemma {:induction false} NoLeavesNoText(d: Dom.Node, at: seq<nat>, start: int)
    requires |Leaves(d, at, start)| == 0
    ensures |Dom.TextContent(d)| == 0
    decreases d, 1
  {
    if d.Element? {
      NoChildLeavesNoText(d.children, at, 0, start);
      ElementWidth(d.cls, d.children);
    }
  }

  lemma {:induction false} NoChildLeavesNoText(cs: seq<Dom.Node>, at: seq<nat>, k: nat, start: int)
    requires k <= |cs| && |ChildLeaves(cs, at, k, start)| == 0
    ensures Width(cs, k) == 0
    decreases cs, 0, |cs| - k
  {
    if k < |cs| {
      NoLeavesNoText(cs[k], at + [k], start);
      NoChildLeavesNoText(cs, at, k + 1, start + |Dom.TextContent(cs[k])|);
    }
  }

  /** Any position inside a node's text, ends included, lies in one of its text
      nodes, as long as it has one. */
  lemma {:induction false} Covered(d: Dom.Node, at: seq<nat>, start: int, pos: int)
    requires |Leaves(d, at, start)| > 0 && start <= pos <= start + |Dom.TextContent(d)|
    ensures FirstHolding(Leaves(d, at, start), pos).Some?
    decreases d, 1
  {
    if d.Element? {
      ElementWidth(d.cls, d.children);
      ChildrenCovered(d.children, at, 0, start, pos);
    }
  }

  lemma {:induction false} ChildrenCovered(cs: seq<Dom.Node>, at: seq<nat>, k: nat, start: int, pos: int)
    requires k <= |cs| && |ChildLeaves(cs, at, k, start)| > 0 && start <= pos <= start + Width(cs, k)
    ensures FirstHolding(ChildLeaves(cs, at, k, start), pos).Some?
    decreases cs, 0, |cs| - k
  {
    assert k < |cs|;
    var len := |Dom.TextContent(cs[k])|;
    var mine, rest := Leaves(cs[k], at + [k], start), ChildLeaves(cs, at, k + 1, start + len);
    assert ChildLeaves(cs, at, k, start) == mine + rest;
    assert Width(cs, k) == len + Width(cs, k + 1);
    FirstHoldingAppend(mine, rest, pos);
    if |mine| > 0 && pos <= start + len {
      Covered(cs[k], at + [k], start, pos);
    } else {
      if |mine| == 0 {
        NoLeavesNoText(cs[k], at + [k], start);
      }
      assert start + len <= pos;
      if |rest| == 0 {
        NoChildLeavesNoText(cs, at, k + 1, start + len);
        assert false;
      } else {
        ChildrenCovered(cs, at, k + 1, start + len, pos);
      }
    }
  }

  /** A caret inside the editor's text is always found, in a text node, when
      the editor holds one. */
  lemma CaretFound(root: Dom.Node, pos: int)
    requires root.Element? && |Leaves(root, [], 0)| > 0 && 0 <= pos <= |Dom.TextContent(root)|
    ensures GetNode(root, [], 0, pos).found
  {
    Covered(root, [], 0, pos);
    GetNodeFinds(root, [], 0, pos);
  }
}
