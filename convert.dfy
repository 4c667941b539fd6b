/**
 * `jsonToHtml`: the breadth-first work-queue traversal that builds the
 * element tree in the document, proved to build exactly Render(json).
 *
 * The loop invariant reads the document together with the queue: every
 * queued pair (value, parent) is work promised to that parent element, and
 * filling each promise in as the recursive renderer would gives, at the
 * root, the final tree (see Plan.Planned).
 */
module Convert {
  import opened Text
  import opened Json
  import opened Dom
  import opened Rendering
  import opened Queue
  import opened Plan
  import opened Layout

  /** The arena after the queued pair (v, p) has been processed. */
  ghost predicate Expanded(base: seq<Element>, nodes: seq<Element>, v: Value, p: nat) {
    && p < |base|
    && nodes == if IsComposite(v) then CompositeArena(base, p, WrapClass(v), TopicClass(v), TypeText(v), Keys(v))
                else LeafArena(base, p, WrapClass(v), TopicClass(v), LeafText(v))
  }

  /** After a step, the elements a composite added plan its Body: the descriptor, then the container. */
  lemma CompositePlanned(base: seq<Element>, nodes: seq<Element>, q: seq<Entry>, v: Value, p: nat)
    requires Ordered(nodes) && IsComposite(v) && p < |base|
    requires q != [] && DistinctParents(q) && forall j :: 0 <= j < |q| ==> q[j].1 < |base|
    requires ContainerBuilt(nodes, |base|, TopicClass(v), TypeText(v), Keys(v))
    ensures PlannedAll(nodes, Step(q, Children(v), |base|), CompositeAdded(|base|), p) == Body(v)
  {
    StepLookupNew(q, Children(v), |base|);
    ExpansionPlanned(nodes, Step(q, Children(v), |base|), |base|, p, v);
  }

  /** The span a leaf adds plans its Body. */
  lemma LeafPlanned(base: seq<Element>, nodes: seq<Element>, q: seq<Entry>, v: Value, p: nat)
    requires Ordered(nodes) && !IsComposite(v)
    requires q != [] && forall j :: 0 <= j < |q| ==> q[j].1 < |base|
    requires ExpandedLeaf(base, nodes, p, WrapClass(v), TopicClass(v), LeafText(v))
    ensures PlannedAll(nodes, Step(q, Children(v), |base|), [|base|], p) == Body(v)
  {
    var n := |base|;
    StepLookupNone(q, Children(v), n, n);
    assert Planned(nodes, Step(q, Children(v), n), n) == Elem(Span, TopicClass(v), LeafText(v), []);
  }

  /** The positions a step appends to the parent p of v: the descriptor and the container, or the leaf span. */
  function Extra(v: Value, n: nat): (r: seq<nat>)
    ensures forall k :: 0 <= k < |r| ==> n <= r[k] <= n + 1
  {
    if IsComposite(v) then CompositeAdded(n) else [n]
  }

  /** A step changes no older element but p. */
  lemma ExpandedSameExcept(base: seq<Element>, nodes: seq<Element>, v: Value, p: nat)
    requires Expanded(base, nodes, v, p)
    ensures SameExcept(base, nodes, p) && |base| < |nodes|
  {
    if IsComposite(v) {
      CompositeArenaFacts(base, p, WrapClass(v), TopicClass(v), TypeText(v), Keys(v));
    } else {
      LeafArenaFacts(base, p, WrapClass(v), TopicClass(v), LeafText(v));
    }
  }

  /** What a step leaves at p: the wrapper class, and the new elements that plan Body(v). */
  lemma ExpandedParent(base: seq<Element>, nodes: seq<Element>, q: seq<Entry>, v: Value, p: nat)
    requires Ordered(nodes)
    requires q != [] && DistinctParents(q) && forall j :: 0 <= j < |q| ==> q[j].1 < |base|
    requires Expanded(base, nodes, v, p)
    ensures SameExcept(base, nodes, p) && |base| < |nodes|
    ensures nodes[p] == base[p].(className := WrapClass(v), children := base[p].children + Extra(v, |base|))
    ensures PlannedAll(nodes, Step(q, Children(v), |base|), Extra(v, |base|), p) == Body(v)
  {
    if IsComposite(v) {
      CompositeArenaFacts(base, p, WrapClass(v), TopicClass(v), TypeText(v), Keys(v));
      CompositePlanned(base, nodes, q, v, p);
    } else {
      LeafArenaFacts(base, p, WrapClass(v), TopicClass(v), LeafText(v));
      LeafPlanned(base, nodes, q, v, p);
    }
  }

  /** One step leaves the planned tree at every older element, the root included, unchanged. */
  lemma StepKeepsPlan(base: seq<Element>, nodes: seq<Element>, q: seq<Entry>, v: Value, p: nat, root: nat)
    requires Ordered(base) && Ordered(nodes)
    requires q != [] && q[0] == (v, p) && DistinctParents(q)
    requires forall j :: 0 <= j < |q| ==> q[j].1 < |base|
    requires Expanded(base, nodes, v, p)
    requires root < |base|
    ensures Planned(nodes, Step(q, Children(v), |base|), root) == Planned(base, q, root)
  {
    LookupFound(q, 0);
    StepLookupOldAll(q, Children(v), |base|, p);
    ExpandedParent(base, nodes, q, v, p);
    StepKeepsPlanAt(base, nodes, q, Step(q, Children(v), |base|), v, p, Extra(v, |base|), root);
  }

  /** One step keeps the queue invariant. */
  lemma StepKeepsQueue(base: seq<Element>, nodes: seq<Element>, q: seq<Entry>, v: Value, p: nat, lo: nat)
    requires q != [] && q[0] == (v, p) && QueueOK(base, q, lo)
    requires Expanded(base, nodes, v, p)
    ensures QueueOK(nodes, Step(q, Children(v), |base|), lo)
  {
    var kids := Children(v);
    if IsComposite(v) {
      CompositeArenaFacts(base, p, WrapClass(v), TopicClass(v), TypeText(v), Keys(v));
      assert forall j :: 0 <= j < |kids| ==> ItemId(|base|, j) < |nodes| && nodes[ItemId(|base|, j)].className == "";
    } else {
      LeafArenaFacts(base, p, WrapClass(v), TopicClass(v), LeafText(v));
    }
    QueueOKAfterStep(base, nodes, q, kids, p, lo);
  }

  /** The values still queued, front first. */
  ghost function Topics(q: seq<Entry>): (r: seq<Value>)
    ensures |r| == |q| && forall j :: 0 <= j < |q| ==> r[j] == q[j].0
  {
    seq(|q|, j requires 0 <= j < |q| => q[j].0)
  }

  /** The total size of the values still queued: it bounds the remaining work. */
  ghost function QueueSize(q: seq<Entry>): nat {
    SizeSum(Topics(q))
  }

  /** Each step removes one value and queues only its children: the work shrinks. */
  lemma QueueShrinks(q: seq<Entry>, v: Value, n: nat)
    requires q != [] && q[0].0 == v
    ensures QueueSize(Step(q, Children(v), n)) < QueueSize(q)
  {
    var kids := Children(v);
    var rest := Topics(q)[1..];
    assert SizeSum(Topics(q)) == Size(v) + SizeSum(rest);
    var after := Topics(Step(q, kids, n));
    assert |after| == |rest + kids|;
    forall j | 0 <= j < |after| ensures after[j] == (rest + kids)[j] {
      if j < |rest| {
        assert after[j] == q[j + 1].0;
      }
    }
    assert after == rest + kids;
    SizeSumAppend(rest, kids);
    SizeSplits(v);
  }

  /** A proof aid: the literal prefixes the code writes, split where TopicClass splits them. */
  lemma ClassText(name: string, word: string)
    requires name == "array" || name == "object"
    ensures "json-" + name + (" " + word) == (if name == "array" then "json-array " else "json-object ") + word
  {
    if name == "array" {
      assert "json-" + name + " " == "json-array ";
    } else {
      assert "json-" + name + " " == "json-object ";
    }
  }

  /** The class the code writes on a composite's container is TopicClass. */
  lemma CompositeClass(v: Value)
    requires IsComposite(v)
    ensures TopicClass(v) == (if v.Arr? then "json-array " else "json-object ") + (if |Keys(v)| > 0 then "has-items" else "is-empty")
  {
    var word := if |Keys(v)| > 0 then "has-items" else "is-empty";
    assert ItemsSuffix(v) == " " + word;
    ClassText(KindOf(v).Name(), word);
  }

  /** The key and the value of the i-th item of a composite, as the code looks them up. */
  lemma ChildAt(v: Value, i: nat)
    requires IsComposite(v) && i < |Keys(v)|
    ensures v.Arr? ==> Keys(v)[i] == NatToString(i) && Children(v)[i] == v.elems[i]
    ensures v.Obj? ==> Keys(v)[i] in v.fields && Children(v)[i] == v.fields[Keys(v)[i]]
  {
  }

  /**
   * The topic element: a `div` classed `json-array`/`json-object` plus the
   * state word for a composite, or a `span` classed `json-<kind>` holding
   * the leaf text. For an object, the sorted keys are returned as well.
   */
  method TopicElement(doc: Document, topic: Value, kind: Kind) returns (topicEl: nat, keys: seq<string>, len: nat)
    requires doc.Valid() && kind == KindOf(topic)
    modifies doc
    ensures doc.Valid()
    ensures topicEl == |old(doc.nodes)|
    ensures IsComposite(topic) ==> doc.nodes == old(doc.nodes) + [Element(Div, TopicClass(topic), "", [])]
    ensures !IsComposite(topic) ==> doc.nodes == old(doc.nodes) + [Element(Span, TopicClass(topic), LeafText(topic), [])]
    ensures topic.Obj? ==> keys == Keys(topic)
    ensures IsComposite(topic) ==> len == |Keys(topic)|
  {
    keys, len := [], 0;
    if kind == ArrayKind {
      len := |topic.elems|;
      topicEl := doc.CreateElement(Div);
      CompositeClass(topic);
      doc.SetClassName(topicEl, "json-array " + (if len > 0 then "has-items" else "is-empty"));
    } else if kind == ObjectKind {
      keys := SortedKeys(topic.fields.Keys);
      len := |keys|;
      topicEl := doc.CreateElement(Div);
      CompositeClass(topic);
      doc.SetClassName(topicEl, "json-object " + (if len > 0 then "has-items" else "is-empty"));
    } else {
      topicEl := doc.CreateElement(Span);
      LeafClass(topic);
      doc.SetClassName(topicEl, "json-" + kind.Name());
      var text := if kind == NullKind then "null"
                  else if kind != BooleanKind then (if topic.Num? then IntToString(topic.n) else topic.s)
                  else if topic.b then "true" else "false";
      assert text == LeafText(topic);
      doc.SetTextContent(topicEl, text);
    }
  }

  lemma LeafClass(v: Value)
    requires !IsComposite(v)
    ensures TopicClass(v) == "json-" + KindOf(v).Name()
  {
    assert ItemsSuffix(v) == "";
    assert "json-" + KindOf(v).Name() + "" == "json-" + KindOf(v).Name();
  }

  /** One loop iteration's elements: an item `div` holding the key `span`, appended to the container. */
  method AppendItem(doc: Document, containerEl: nat, key: string) returns (itemEl: nat)
    requires doc.Valid() && containerEl < |doc.nodes|
    modifies doc
    ensures doc.Valid()
    ensures itemEl == |old(doc.nodes)|
    ensures doc.nodes == old(doc.nodes)[containerEl := old(doc.nodes)[containerEl].(children := old(doc.nodes)[containerEl].children + [itemEl])]
                         + [Element(Div, "", "", [itemEl + 1]), Element(Span, "json-key", key, [])]
  {
    ghost var before := doc.nodes;
    itemEl := doc.CreateElement(Div);
    var keyEl := doc.CreateElement(Span);
    doc.SetClassName(keyEl, "json-key");
    doc.SetTextContent(keyEl, key);
    assert doc.nodes == before + [Element(Div, "", "", []), Element(Span, "json-key", key, [])];
    assert doc.nodes[itemEl] == Element(Div, "", "", []);
    assert [] + [keyEl] == [keyEl];
    doc.AppendChild(itemEl, keyEl);
    assert doc.nodes == before + [Element(Div, "", "", [keyEl]), Element(Span, "json-key", key, [])];
    doc.AppendChild(containerEl, itemEl);
  }

  /** Item i of the item loop, as a step of the expansion. */
  method AppendItemAt(doc: Document, containerEl: nat, key: string, ghost base: seq<Element>, ghost p: nat,
                      ghost cls: string, ghost typeText: string, ghost keys: seq<string>, ghost i: nat)
    returns (itemEl: nat)
    requires doc.Valid() && p < containerEl == |base| && i < |keys| && key == keys[i]
    requires doc.nodes == Building(base, p, cls, typeText, keys, i)
    modifies doc
    ensures doc.Valid()
    ensures itemEl == ItemId(|base|, i)
    ensures doc.nodes == Building(base, p, cls, typeText, keys, i + 1)
  {
    itemEl := AppendItem(doc, containerEl, key);
    BuildingStep(base, p, cls, typeText, keys, i, doc.nodes);
  }

  /**
   * `keyByIndex(i)` and `topic[key]`: the i-th key of a composite (the
   * decimal index of an array, the i-th sorted key of an object) and the
   * value stored under it.
   */
  method ItemAt(topic: Value, kind: Kind, keys: seq<string>, i: nat) returns (key: string, child: Value)
    requires kind == KindOf(topic) && IsComposite(topic) && i < |Keys(topic)|
    requires topic.Obj? ==> keys == Keys(topic)
    ensures key == Keys(topic)[i] && child == Children(topic)[i]
  {
    ChildAt(topic, i);
    key := if kind == ArrayKind then NatToString(i) else keys[i];
    child := if kind == ArrayKind then topic.elems[i] else topic.fields[key];
  }

  /**
   * The item loop: for each key of the composite, in order, an item in the
   * container and, queued for it, the value under that key.
   */
  method AppendItems(doc: Document, topic: Value, kind: Kind, keys: seq<string>, len: nat, topicEl: nat, queue: seq<Entry>,
                     ghost base: seq<Element>, ghost p: nat, ghost cls: string, ghost typeText: string)
    returns (queue': seq<Entry>)
    requires doc.Valid() && kind == KindOf(topic) && IsComposite(topic)
    requires topic.Obj? ==> keys == Keys(topic)
    requires len == |Keys(topic)|
    requires p < topicEl == |base|
    requires doc.nodes == Building(base, p, cls, typeText, Keys(topic), 0)
    modifies doc
    ensures doc.Valid()
    ensures doc.nodes == Building(base, p, cls, typeText, Keys(topic), |Keys(topic)|)
    ensures queue' == queue + NewEntries(Children(topic), |base|, |Children(topic)|)
  {
    ghost var allKeys, kids := Keys(topic), Children(topic);
    queue' := queue;
    var i := 0;
    while i < len
      invariant 0 <= i <= len == |allKeys| == |kids|
      invariant doc.Valid()
      invariant doc.nodes == Building(base, p, cls, typeText, allKeys, i)
      invariant queue' == queue + NewEntries(kids, topicEl, i)
    {
      var key, child := ItemAt(topic, kind, keys, i);
      var itemEl := AppendItemAt(doc, topicEl, key, base, p, cls, typeText, allKeys, i);
      queue' := queue' + [(child, itemEl)];
      NewEntriesStep(queue, kids, topicEl, i);
      i := i + 1;
    }
  }

  /** The `json-type` descriptor span, appended to the parent. */
  method AppendDescriptor(doc: Document, parentEl: nat, text: string) returns (valueEl: nat)
    requires doc.Valid() && parentEl < |doc.nodes|
    modifies doc
    ensures doc.Valid()
    ensures valueEl == |old(doc.nodes)|
    ensures doc.nodes == (old(doc.nodes) + [Element(Span, "json-type", text, [])])[
              parentEl := old(doc.nodes)[parentEl].(children := old(doc.nodes)[parentEl].children + [valueEl])]
  {
    valueEl := doc.CreateElement(Span);
    doc.SetClassName(valueEl, "json-type");
    doc.SetTextContent(valueEl, text);
    doc.AppendChild(parentEl, valueEl);
  }

  /**
   * The composite half of an iteration: the `json-type` descriptor on the
   * parent, then one item per key in the container, each child queued.
   */
  method ExpandComposite(doc: Document, topic: Value, kind: Kind, keys: seq<string>, len: nat,
                         topicEl: nat, parentEl: nat, queue: seq<Entry>, ghost base: seq<Element>)
    returns (queue': seq<Entry>)
    requires doc.Valid() && kind == KindOf(topic) && IsComposite(topic)
    requires topic.Obj? ==> keys == Keys(topic)
    requires len == |Keys(topic)|
    requires parentEl < topicEl == |base|
    requires doc.nodes == base + [Element(Div, TopicClass(topic), "", [])]
    modifies doc
    ensures doc.Valid()
    ensures doc.nodes == Building(base, parentEl, TopicClass(topic), TypeText(topic), Keys(topic), |Keys(topic)|)
    ensures queue' == queue + NewEntries(Children(topic), |base|, |Children(topic)|)
  {
    var text := if len > 0 then kind.Name() + "[" + NatToString(len) + "]" else "{}";
    assert text == TypeText(topic);
    var valueEl := AppendDescriptor(doc, parentEl, text);
    BuildingStart(base, parentEl, TopicClass(topic), TypeText(topic), Keys(topic), doc.nodes);
    queue' := AppendItems(doc, topic, kind, keys, len, topicEl, queue, base, parentEl, TopicClass(topic), TypeText(topic));
  }

  /**
   * One iteration of the queue loop: render `topic` into `parentEl`, and
   * queue each of its children with the item element made for it.
   */
  method RenderTopic(doc: Document, topic: Value, parentEl: nat, queue: seq<Entry>) returns (queue': seq<Entry>)
    requires doc.Valid() && parentEl < |doc.nodes|
    modifies doc
    ensures doc.Valid()
    ensures Expanded(old(doc.nodes), doc.nodes, topic, parentEl)
    ensures queue' == queue + NewEntries(Children(topic), |old(doc.nodes)|, |Children(topic)|)
  {
    ghost var base := doc.nodes;
    var kind := KindOf(topic);
    var topicEl, keys, len := TopicElement(doc, topic, kind);
    queue' := queue;
    if kind == ArrayKind || kind == ObjectKind {
      queue' := ExpandComposite(doc, topic, kind, keys, len, topicEl, parentEl, queue, base);
      assert doc.nodes[topicEl].className == TopicClass(topic);
    }
    doc.SetClassName(parentEl, "json-item " + ReplaceLeading(doc.nodes[topicEl].className, "json-", "contains-"));
    doc.AppendChild(parentEl, topicEl);
    if IsComposite(topic) {
      BuildingFinish(base, parentEl, WrapClass(topic), TopicClass(topic), TypeText(topic), Keys(topic), doc.nodes);
    } else {
      LeafFinish(base, parentEl, WrapClass(topic), TopicClass(topic), LeafText(topic), doc.nodes);
    }
  }

  /**
   * One iteration keeps the loop invariant: the planned tree at the root,
   * the queue invariant and every element older than the call; and the
   * queued work shrinks.
   */
  lemma StepKeepsInvariant(base: seq<Element>, nodes: seq<Element>, q: seq<Entry>, v: Value, p: nat, root: nat, lo: nat)
    requires Ordered(base) && Ordered(nodes)
    requires q != [] && q[0] == (v, p) && QueueOK(base, q, lo)
    requires Expanded(base, nodes, v, p)
    requires lo <= root < |base|
    ensures root < |nodes| && nodes[..lo] == base[..lo]
    ensures Planned(nodes, Step(q, Children(v), |base|), root) == Planned(base, q, root)
    ensures QueueOK(nodes, Step(q, Children(v), |base|), lo)
    ensures QueueSize(Step(q, Children(v), |base|)) < QueueSize(q)
  {
    StepKeepsPlan(base, nodes, q, v, p, root);
    StepKeepsQueue(base, nodes, q, v, p, lo);
    QueueShrinks(q, v, |base|);
    ExpandedSameExcept(base, nodes, v, p);
    SameExceptPrefix(base, nodes, p, lo);
  }

  /**
   * The queue loop of `jsonToHtml`: while the queue is not empty, take the
   * front pair off and render it, queueing its children at the back. When
   * the queue is empty, the tree at the root is the planned one.
   */
  method Drain(doc: Document, queue: seq<Entry>, root: nat, ghost lo: nat, ghost goal: Tree)
    requires doc.Valid() && lo <= root < |doc.nodes|
    requires QueueOK(doc.nodes, queue, lo)
    requires Planned(doc.nodes, queue, root) == goal
    modifies doc
    ensures doc.Valid() && root < |doc.nodes|
    ensures doc.nodes[..lo] == old(doc.nodes)[..lo]
    ensures ToTree(doc.nodes, root) == goal
  {
    var queue := queue;
    while queue != []
      invariant doc.Valid() && root < |doc.nodes|
      invariant doc.nodes[..lo] == old(doc.nodes)[..lo]
      invariant QueueOK(doc.nodes, queue, lo)
      invariant Planned(doc.nodes, queue, root) == goal
      decreases QueueSize(queue)
    {
      ghost var base := doc.nodes;
      ghost var q0 := queue;
      var topic, parentEl := queue[0].0, queue[0].1;
      queue := queue[1..];
      queue := RenderTopic(doc, topic, parentEl, queue);
      assert queue == Step(q0, Children(topic), |base|);
      StepKeepsInvariant(base, doc.nodes, q0, topic, parentEl, root, lo);
    }
    PlannedWithoutQueue(doc.nodes, root);
  }

  /**
   * `jsonToHtml(json)`: a new root element, and a queue that starts with
   * (json, root), is drained from the front and extended at the back.
   * The returned root holds exactly Render(json); no element that existed
   * before is changed.
   */
  method JsonToHtml(doc: Document, json: Value) returns (root: nat)
    requires doc.Valid()
    modifies doc
    ensures doc.Valid()
    ensures |old(doc.nodes)| <= root < |doc.nodes|
    ensures doc.nodes[..|old(doc.nodes)|] == old(doc.nodes)
    ensures ToTree(doc.nodes, root) == Render(json)
  {
    ghost var n0 := |doc.nodes|;
    root := doc.CreateElement(Div);
    var queue: seq<Entry> := [(json, root)];
    assert doc.nodes[..n0] == old(doc.nodes);
    assert Lookup(queue, root) == Some(json);
    assert PlannedAll(doc.nodes, queue, [], root) == [];
    assert Planned(doc.nodes, queue, root) == Render(json);
    Drain(doc, queue, root, n0, Render(json));
  }
}
