/** The editor's rendered formula as the browser holds it: text nodes and
    elements with a class, addressed by paths of child indices (a node's
    identity is its path). */
module Dom {
  import opened Utility

  datatype Node = TextNode(text: string) | Element(cls: string, children: seq<Node>)

  /** `node.textContent`: the text of every text node below, in document order. */
  function TextContent(d: Node): string
  {
    match d
    case TextNode(t) => t
    case Element(_, cs) => Flatten(seq(|cs|, k requires 0 <= k < |cs| => TextContent(cs[k])))
  }

  /** The texts of a list of siblings, in order. */
  function Texts(cs: seq<Node>): (r: seq<string>)
    ensures |r| == |cs| && forall k :: 0 <= k < |cs| ==> r[k] == TextContent(cs[k])
  {
    seq(|cs|, k requires 0 <= k < |cs| => TextContent(cs[k]))
  }

  /** An element's text is its children's texts, one after another. */
  lemma ElementText(cls: string, cs: seq<Node>)
    ensures TextContent(Element(cls, cs)) == Flatten(Texts(cs))
  {
  }

  predicate ValidPath(d: Node, p: seq<nat>)
    decreases |p|
  {
    |p| == 0 || (d.Element? && p[0] < |d.children| && ValidPath(d.children[p[0]], p[1..]))
  }

  /** The node a path leads to. */
  function At(d: Node, p: seq<nat>): Node
    requires ValidPath(d, p)
    decreases |p|
  {
    if |p| == 0 then d else At(d.children[p[0]], p[1..])
  }

  /** `node.parentNode`: the path without its last index leads to an element
      whose child at that index is the node. */
  lemma {:induction false} Parent(d: Node, p: seq<nat>)
    requires ValidPath(d, p) && |p| > 0
    ensures ValidPath(d, p[..|p| - 1])
    ensures At(d, p[..|p| - 1]).Element? && p[|p| - 1] < |At(d, p[..|p| - 1]).children|
    ensures At(d, p) == At(d, p[..|p| - 1]).children[p[|p| - 1]]
    decreases |p|
  {
    if |p| > 1 {
      Parent(d.children[p[0]], p[1..]);
      assert p[1..][..|p[1..]| - 1] == p[..|p| - 1][1..];
    }
  }

  /** A child's path extends its parent's. */
  lemma {:induction false} Child(d: Node, p: seq<nat>, k: nat)
    requires ValidPath(d, p) && At(d, p).Element? && k < |At(d, p).children|
    ensures ValidPath(d, p + [k]) && At(d, p + [k]) == At(d, p).children[k]
    decreases |p|
  {
    if |p| > 0 {
      assert (p + [k])[1..] == p[1..] + [k];
      Child(d.children[p[0]], p[1..], k);
    }
  }
}
