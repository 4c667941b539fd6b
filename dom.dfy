/**
 * The part of the browser document the renderer uses: elements with a tag,
 * a `className`, a `textContent` and an ordered list of children, created
 * with `createElement` and linked with `appendChild`. Elements live in an
 * arena; an element is named by its position in the arena.
 */
module Dom {

  datatype Tag = Div | Span

  /** A finished element tree, as a value. */
  datatype Tree = Elem(tag: Tag, className: string, text: string, children: seq<Tree>)

  /** The DOM `textContent` getter: own text followed by the text of every descendant. */
  function TextContent(t: Tree): string
    decreases t, 1
  {
    t.text + TextContentAll(t.children, t)
  }

  function TextContentAll(ts: seq<Tree>, parent: Tree): string
    requires forall i :: 0 <= i < |ts| ==> ts[i] < parent
    decreases parent, 0, |ts|
  {
    if ts == [] then "" else TextContent(ts[0]) + TextContentAll(ts[1..], parent)
  }

  lemma TextContentNoChildren(t: Tree)
    requires t.children == []
    ensures TextContent(t) == t.text
  {
    assert TextContentAll(t.children, t) == "";
  }

  lemma TextContentOneChild(t: Tree)
    requires |t.children| == 1
    ensures TextContent(t) == t.text + TextContent(t.children[0])
  {
    var a := TextContent(t.children[0]);
    assert t.children[1..] == [];
    assert TextContentAll(t.children[1..], t) == "";
    assert TextContentAll(t.children, t) == a + "";
    assert a + "" == a;
  }

  lemma TextContentTwoChildren(t: Tree)
    requires |t.children| == 2
    ensures TextContent(t) == t.text + TextContent(t.children[0]) + TextContent(t.children[1])
  {
    var a, b := TextContent(t.children[0]), TextContent(t.children[1]);
    var rest := t.children[1..];
    assert rest[0] == t.children[1] && rest[1..] == [];
    assert TextContentAll(rest[1..], t) == "";
    assert TextContentAll(rest, t) == b + "";
    assert b + "" == b;
    assert TextContentAll(t.children, t) == a + b;
    assert t.text + (a + b) == t.text + a + b;
  }

  /** One element of the arena; `children` are arena positions. */
  datatype Element = Element(tag: Tag, className: string, text: string, children: seq<nat>)

  /**
   * Every child is created after its parent. The renderer only links such
   * pairs, and it makes the arena a forest that can be read as trees.
   */
  ghost predicate Ordered(nodes: seq<Element>) {
    forall i, k :: 0 <= i < |nodes| && 0 <= k < |nodes[i].children| ==>
      i < nodes[i].children[k] < |nodes|
  }

  /** The element tree rooted at position i. */
  ghost function ToTree(nodes: seq<Element>, i: nat): (t: Tree)
    requires Ordered(nodes) && i < |nodes|
    ensures t.tag == nodes[i].tag && t.className == nodes[i].className && t.text == nodes[i].text
    ensures |t.children| == |nodes[i].children|
    decreases |nodes| - i, 1
  {
    var e := nodes[i];
    Elem(e.tag, e.className, e.text, ToTreeAll(nodes, e.children, i))
  }

  ghost function ToTreeAll(nodes: seq<Element>, ids: seq<nat>, above: nat): (ts: seq<Tree>)
    requires Ordered(nodes)
    requires forall k :: 0 <= k < |ids| ==> above < ids[k] < |nodes|
    ensures |ts| == |ids|
    ensures forall k :: 0 <= k < |ids| ==> ts[k] == ToTree(nodes, ids[k])
    decreases |nodes| - above, 0, |ids|
  {
    if ids == [] then [] else [ToTree(nodes, ids[0])] + ToTreeAll(nodes, ids[1..], above)
  }

  /** The document: the arena of every element created so far. */
  class Document {
    var nodes: seq<Element>

    ghost predicate Valid()
      reads this
    {
      Ordered(nodes)
    }

    constructor ()
      ensures Valid() && nodes == []
    {
      nodes := [];
    }

    /** `document.createElement(tag)`: a new element with no class, text or children. */
    method CreateElement(tag: Tag) returns (id: nat)
      requires Valid()
      modifies this
      ensures Valid()
      ensures id == |old(nodes)|
      ensures nodes == old(nodes) + [Element(tag, "", "", [])]
    {
      id := |nodes|;
      nodes := nodes + [Element(tag, "", "", [])];
    }

    /** `el.className = c`. */
    method SetClassName(id: nat, c: string)
      requires Valid() && id < |nodes|
      modifies this
      ensures Valid()
      ensures nodes == old(nodes)[id := old(nodes)[id].(className := c)]
    {
      nodes := nodes[id := nodes[id].(className := c)];
    }

    /** `el.textContent = t`: the text replaces whatever children the element had. */
    method SetTextContent(id: nat, t: string)
      requires Valid() && id < |nodes|
      modifies this
      ensures Valid()
      ensures nodes == old(nodes)[id := old(nodes)[id].(text := t, children := [])]
    {
      nodes := nodes[id := nodes[id].(text := t, children := [])];
    }

    /** `parent.appendChild(child)` for a child created after the parent. */
    method AppendChild(parent: nat, child: nat)
      requires Valid() && parent < child < |nodes|
      modifies this
      ensures Valid()
      ensures nodes == old(nodes)[parent := old(nodes)[parent].(children := old(nodes)[parent].children + [child])]
    {
      nodes := nodes[parent := nodes[parent].(children := nodes[parent].children + [child])];
    }
  }
}
