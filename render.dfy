/**
 * What `jsonToHtml` builds, stated recursively: the element tree for a
 * value, without any work queue. The traversal in Convert is proved to
 * build exactly this tree.
 */
module Rendering {
  import opened Text
  import opened Json
  import opened Dom

  /** The text of a leaf span: `null`, `true`/`false`, or the value's string form. */
  function LeafText(v: Value): (r: string)
    requires !IsComposite(v)
  {
    match v
    case Bool(b) => if b then "true" else "false"
    case Num(n) => IntToString(n)
    case Str(s) => s
    case _ => "null"
  }

  /** The class of the element made for the value itself (the "topic" element). */
  function TopicClass(v: Value): string {
    "json-" + KindOf(v).Name() + ItemsSuffix(v)
  }

  /** The state word a composite's class carries: whether it has items. */
  function ItemsSuffix(v: Value): string {
    if !IsComposite(v) then "" else " " + (if |Keys(v)| > 0 then "has-items" else "is-empty")
  }

  /** The class given to the element that wraps a value (the root or an item). */
  function WrapClass(v: Value): string {
    "json-item " + ReplaceLeading(TopicClass(v), "json-", "contains-")
  }

  /** The text of the `json-type` descriptor of a composite. */
  function TypeText(v: Value): string {
    var len := |Keys(v)|;
    if len > 0 then KindOf(v).Name() + "[" + NatToString(len) + "]" else "{}"
  }

  /** The key span that opens every item. */
  function KeySpan(key: string): Tree {
    Elem(Span, "json-key", key, [])
  }

  /**
   * The elements appended to a value's wrapper: the leaf span, or the
   * `json-type` descriptor followed by the container with one item per key.
   */
  function Body(v: Value): seq<Tree>
    decreases v, 1
  {
    if IsComposite(v) then
      var keys := Keys(v);
      var kids := Children(v);
      [ Elem(Span, "json-type", TypeText(v), []),
        Elem(Div, TopicClass(v), "", seq(|keys|, i requires 0 <= i < |keys| => Item(keys[i], kids[i]))) ]
    else
      [Elem(Span, TopicClass(v), LeafText(v), [])]
  }

  /** The item element for one key of a composite. */
  function Item(key: string, child: Value): Tree
    decreases child, 2
  {
    Elem(Div, WrapClass(child), "", [KeySpan(key)] + Body(child))
  }

  /** The element `jsonToHtml(v)` returns. */
  function Render(v: Value): Tree {
    Elem(Div, WrapClass(v), "", Body(v))
  }

  /** Relabelling a `json-<kind><suffix>` class as a wrapper class. */
  lemma WrapOfJsonClass(kind: string, suffix: string)
    ensures "json-item " + ReplaceLeading("json-" + kind + suffix, "json-", "contains-") == "json-item contains-" + kind + suffix
  {
    var rest := kind + suffix;
    assert "json-" + kind + suffix == "json-" + rest;
    ReplaceLeadingPrefix("json-", rest, "contains-");
    assert "json-item " + ("contains-" + rest) == "json-item contains-" + kind + suffix;
  }

  /**
   * Wrapper label: a wrapper is labelled `json-item contains-<kind>`,
   * followed for a composite by ` has-items` or ` is-empty`.
   */
  lemma WrapLabel(v: Value)
    ensures WrapClass(v) == "json-item contains-" + KindOf(v).Name() + ItemsSuffix(v)
  {
    WrapOfJsonClass(KindOf(v).Name(), ItemsSuffix(v));
  }

  /**
   * Leaf rendering: the root holds exactly one span classed `json-<kind>`
   * whose text is `null`, `true`/`false`, the decimal form of the number,
   * or the string itself.
   */
  lemma LeafRendering(v: Value)
    requires !IsComposite(v)
    ensures |Render(v).children| == 1
    ensures Render(v).className == "json-item contains-" + KindOf(v).Name()
    ensures Render(v).children[0].tag == Span
    ensures Render(v).children[0].className == "json-" + KindOf(v).Name()
    ensures Render(v).children[0].children == []
    ensures (v.Null? || v.Undefined?) ==> Render(v).children[0].text == "null"
    ensures v.Bool? ==> Render(v).children[0].text == (if v.b then "true" else "false")
    ensures v.Num? ==> Render(v).children[0].text == IntToString(v.n)
    ensures v.Str? ==> Render(v).children[0].text == v.s
  {
    WrapLabel(v);
  }

  /** The container and descriptor of a composite, as Body lays them out. */
  lemma ContainerLayout(v: Value)
    requires IsComposite(v)
    ensures |Body(v)| == 2
    ensures Body(v)[0] == Elem(Span, "json-type", TypeText(v), [])
    ensures Body(v)[1].tag == Div && Body(v)[1].text == "" && Body(v)[1].className == TopicClass(v)
    ensures |Body(v)[1].children| == |Keys(v)|
    ensures forall i :: 0 <= i < |Keys(v)| ==> Body(v)[1].children[i] == Item(Keys(v)[i], Children(v)[i])
  {
  }

  /** A composite's Body, given its items. */
  lemma BodyFromItems(v: Value, items: seq<Tree>)
    requires IsComposite(v) && |items| == |Keys(v)|
    requires forall j :: 0 <= j < |items| ==> items[j] == Item(Keys(v)[j], Children(v)[j])
    ensures Body(v) == [Elem(Span, "json-type", TypeText(v), []), Elem(Div, TopicClass(v), "", items)]
  {
    ContainerLayout(v);
    assert Body(v)[1].children == items;
  }

  lemma StateWordsDiffer(prefix: string, nonempty: bool)
    ensures var cls := prefix + (" " + if nonempty then "has-items" else "is-empty");
      && (cls == prefix + " has-items" <==> nonempty)
      && (cls == prefix + " is-empty" <==> !nonempty)
  {
    assert (prefix + " has-items")[|prefix| + 1] == 'h';
    assert (prefix + " is-empty")[|prefix| + 1] == 'i';
    if nonempty {
      assert prefix + (" " + "has-items") == prefix + " has-items";
    } else {
      assert prefix + (" " + "is-empty") == prefix + " is-empty";
    }
  }

  /** The state word of a composite's class tells whether it has keys. */
  lemma StateWord(v: Value)
    requires IsComposite(v)
    ensures TopicClass(v) == "json-" + KindOf(v).Name() + " has-items" <==> |Keys(v)| > 0
    ensures TopicClass(v) == "json-" + KindOf(v).Name() + " is-empty" <==> |Keys(v)| == 0
  {
    var prefix := "json-" + KindOf(v).Name();
    var nonempty := |Keys(v)| > 0;
    StateWordsDiffer(prefix, nonempty);
    assert TopicClass(v) == prefix + (" " + if nonempty then "has-items" else "is-empty");
  }

  /**
   * Container label: `json-array`/`json-object` followed by ` has-items`
   * exactly when there is at least one key, else ` is-empty`; an empty
   * container has no children.
   */
  lemma ContainerLabel(v: Value)
    requires IsComposite(v)
    ensures Body(v)[1].className == "json-" + KindOf(v).Name() + ItemsSuffix(v)
    ensures v.Arr? ==> |Keys(v)| == |v.elems|
    ensures v.Obj? ==> |Keys(v)| == |v.fields|
    ensures Body(v)[1].className == "json-" + KindOf(v).Name() + " has-items" <==> |Keys(v)| > 0
    ensures Body(v)[1].className == "json-" + KindOf(v).Name() + " is-empty" <==> |Body(v)[1].children| == 0
  {
    ContainerLayout(v);
    StateWord(v);
  }

  /**
   * Descriptor: the first element appended to a composite's wrapper is the
   * `json-type` span, reading `<kind>[<n>]`, or `{}` when there are no keys
   * (for arrays as well as objects).
   */
  lemma Descriptor(v: Value)
    requires IsComposite(v)
    ensures Body(v)[0].className == "json-type" && Body(v)[0].children == []
    ensures |Keys(v)| > 0 ==> Body(v)[0].text == KindOf(v).Name() + "[" + NatToString(|Keys(v)|) + "]"
    ensures |Keys(v)| == 0 ==> Body(v)[0].text == "{}"
    ensures DecimalValue(NatToString(|Keys(v)|)) == |Children(v)|
  {
    NatToStringRoundTrip(|Keys(v)|);
  }

  /**
   * Key order and count: one item per key; array items are keyed by their
   * decimal index, object items by their keys in ascending string order,
   * and each item holds the value found under its key.
   */
  lemma KeyOrder(v: Value)
    requires IsComposite(v)
    ensures |Body(v)[1].children| == |Children(v)|
    ensures v.Arr? ==> forall i :: 0 <= i < |v.elems| ==>
      Body(v)[1].children[i] == Item(NatToString(i), v.elems[i]) && DecimalValue(Keys(v)[i]) == i
    ensures v.Obj? ==> forall i, j :: 0 <= i < j < |Keys(v)| ==> LexLt(Keys(v)[i], Keys(v)[j])
    ensures v.Obj? ==> forall k :: k in v.fields <==> k in Keys(v)
    ensures v.Obj? ==> forall i :: 0 <= i < |Keys(v)| ==>
      Body(v)[1].children[i] == Item(Keys(v)[i], v.fields[Keys(v)[i]])
  {
    if v.Arr? {
      forall i | 0 <= i < |v.elems| ensures DecimalValue(Keys(v)[i]) == i {
        NatToStringRoundTrip(i);
      }
    }
  }

  /** The item order of an object follows any sorted enumeration of its keys. */
  lemma ObjectOrderCanonical(m: map<string, Value>, enumeration: seq<string>)
    requires StrictlySorted(enumeration)
    requires forall k :: k in enumeration <==> k in m
    ensures Keys(Obj(m)) == enumeration
    ensures forall i :: 0 <= i < |enumeration| ==>
      Body(Obj(m))[1].children[i] == Item(enumeration[i], m[enumeration[i]])
  {
    SortedIsCanonical(enumeration, m.Keys);
  }

  /** `{"2": null, "10": null}` lists `10` before `2`. */
  lemma NumericLookingKeys()
    ensures Keys(Obj(map["2" := Null, "10" := Null])) == ["10", "2"]
  {
    var m := map["2" := Null, "10" := Null];
    assert m.Keys == {"2", "10"};
    assert LexLt("10", "2");
    SortedIsCanonical(["10", "2"], m.Keys);
  }

  /**
   * Item layout: an item starts with its key span; a leaf item then holds
   * the leaf span (2 children), a composite item the descriptor and the
   * container (3 children).
   */
  lemma ItemLayout(key: string, child: Value)
    ensures Item(key, child).className == WrapClass(child)
    ensures Item(key, child).children[0] == Elem(Span, "json-key", key, [])
    ensures |Item(key, child).children| == if IsComposite(child) then 3 else 2
    ensures Item(key, child).children[1..] == Body(child)
  {
  }

  lemma KeyAndLeafText(it: Tree, key: string, leaf: Tree)
    requires it.text == "" && it.children == [KeySpan(key), leaf] && leaf.children == []
    ensures TextContent(it) == key + leaf.text
  {
    TextContentTwoChildren(it);
    TextContentNoChildren(KeySpan(key));
    TextContentNoChildren(leaf);
    assert "" + key == key;
  }

  /** The text of a leaf item is the key followed by the leaf's text. */
  lemma LeafItemText(key: string, child: Value)
    requires !IsComposite(child)
    ensures TextContent(Item(key, child)) == key + LeafText(child)
  {
    var it := Item(key, child);
    var leaf := Elem(Span, TopicClass(child), LeafText(child), []);
    assert Body(child) == [leaf];
    assert it.children == [KeySpan(key), leaf];
    KeyAndLeafText(it, key, leaf);
  }

  /** An object with a single key has exactly that key and its value. */
  lemma SingleKeyObject(key: string, x: Value)
    ensures Keys(Obj(map[key := x])) == [key]
    ensures Children(Obj(map[key := x])) == [x]
  {
    var m := map[key := x];
    assert m.Keys == {key};
    assert StrictlySorted([key]);
    SortedIsCanonical([key], m.Keys);
  }

  /** The container of a one-key object reads as the key followed by the leaf text. */
  lemma SingleKeyContainerText(key: string, x: Value)
    requires !IsComposite(x)
    ensures TextContent(Body(Obj(map[key := x]))[1]) == key + LeafText(x)
  {
    var v := Obj(map[key := x]);
    SingleKeyObject(key, x);
    ContainerLayout(v);
    var c := Body(v)[1];
    var it := Item(key, x);
    assert c.children == [it];
    LeafItemText(key, x);
    OnlyChildText(c, it);
  }

  /** The container of `{bool0: false}` reads `bool0false`. */
  lemma SimpleObjectText()
    ensures TextContent(Render(Obj(map["bool0" := Bool(false)])).children[1]) == "bool0false"
  {
    var v := Obj(map["bool0" := Bool(false)]);
    assert Render(v).children == Body(v);
    SingleKeyContainerText("bool0", Bool(false));
    assert LeafText(Bool(false)) == "false";
    KeyThenFalse();
  }

  /** A proof aid: the concatenation of two string literals, stated apart to keep SimpleObjectText cheap. */
  lemma KeyThenFalse()
    ensures "bool0" + "false" == "bool0false"
  {
  }

  lemma OnlyChildText(c: Tree, it: Tree)
    requires c.text == "" && c.children == [it]
    ensures TextContent(c) == TextContent(it)
  {
    TextContentOneChild(c);
    assert "" + TextContent(it) == TextContent(it);
  }

  /** Root shape: one child for a leaf, the descriptor and the container for a composite. */
  lemma RootShape(v: Value)
    ensures Render(v).className == WrapClass(v)
    ensures |Render(v).children| == if IsComposite(v) then 2 else 1
    ensures IsComposite(v) ==> Render(v).children[0].className == "json-type"
    ensures IsComposite(v) ==> Render(v).children[1].className == TopicClass(v)
    ensures !IsComposite(v) ==> Render(v).children[0].className == TopicClass(v)
  {
  }
}
