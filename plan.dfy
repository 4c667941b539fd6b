/**
 * The "planned" reading of the arena behind the traversal's loop
 * invariant: every element that is still waiting for a queued value is
 * shown as the recursive renderer would finish it.
 */
module Plan {
  import opened Json
  import opened Dom
  import opened Rendering
  import opened Queue

  /** A queued pair: a value still to render, and the element it renders into. */
  type Entry = (Value, nat)

  /** The tree at element i once every queued value has been rendered into its parent. */
  ghost function Planned(nodes: seq<Element>, q: seq<Entry>, i: nat): Tree
    requires Ordered(nodes) && i < |nodes|
    decreases |nodes| - i, 1
  {
    var e := nodes[i];
    var kids := PlannedAll(nodes, q, e.children, i);
    match Lookup(q, i)
    case None => Elem(e.tag, e.className, e.text, kids)
    case Some(v) => Elem(e.tag, WrapClass(v), e.text, kids + Body(v))
  }

  ghost function PlannedAll(nodes: seq<Element>, q: seq<Entry>, ids: seq<nat>, above: nat): (ts: seq<Tree>)
    requires Ordered(nodes)
    requires forall k :: 0 <= k < |ids| ==> above < ids[k] < |nodes|
    ensures |ts| == |ids|
    ensures forall k :: 0 <= k < |ids| ==> ts[k] == Planned(nodes, q, ids[k])
    decreases |nodes| - above, 0, |ids|
  {
    if ids == [] then [] else [Planned(nodes, q, ids[0])] + PlannedAll(nodes, q, ids[1..], above)
  }

  /** With nothing queued, the planned tree is the tree the document holds. */
  lemma {:induction false} PlannedWithoutQueue(nodes: seq<Element>, i: nat)
    requires Ordered(nodes) && i < |nodes|
    ensures Planned(nodes, [], i) == ToTree(nodes, i)
    decreases |nodes| - i
  {
    var ch := nodes[i].children;
    forall k | 0 <= k < |ch| ensures Planned(nodes, [], ch[k]) == ToTree(nodes, ch[k]) {
      PlannedWithoutQueue(nodes, ch[k]);
    }
    assert PlannedAll(nodes, [], ch, i) == ToTreeAll(nodes, ch, i);
  }

  lemma PlannedAllAppend(nodes: seq<Element>, q: seq<Entry>, a: seq<nat>, b: seq<nat>, above: nat)
    requires Ordered(nodes)
    requires forall k :: 0 <= k < |a| ==> above < a[k] < |nodes|
    requires forall k :: 0 <= k < |b| ==> above < b[k] < |nodes|
    ensures PlannedAll(nodes, q, a + b, above) == PlannedAll(nodes, q, a, above) + PlannedAll(nodes, q, b, above)
  {
    var ab := a + b;
    assert forall k :: 0 <= k < |b| ==> ab[|a| + k] == b[k];
  }

  /** The planned trees of the two elements a composite appends. */
  lemma PlannedAdded(nodes: seq<Element>, q: seq<Entry>, n: nat, p: nat)
    requires Ordered(nodes) && p < n && n + 1 < |nodes|
    ensures PlannedAll(nodes, q, CompositeAdded(n), p) == [Planned(nodes, q, n + 1), Planned(nodes, q, n)]
  {
    var ids := CompositeAdded(n);
    assert ids[1..] == [n] && ids[1..][1..] == [];
  }

  /** A queued item element renders as the item of its key and value. */
  lemma ItemPlanned(nodes: seq<Element>, q: seq<Entry>, item: nat, key: nat, k: string, child: Value)
    requires Ordered(nodes) && item < key < |nodes|
    requires nodes[item] == Element(Div, "", "", [key])
    requires nodes[key] == Element(Span, "json-key", k, [])
    requires Lookup(q, item) == Some(child) && Lookup(q, key) == None
    ensures Planned(nodes, q, item) == Item(k, child)
  {
    assert Planned(nodes, q, key) == KeySpan(k);
    assert PlannedAll(nodes, q, [key], item) == [KeySpan(k)];
  }

  /** A finished container whose items are all queued renders as the container of Body. */
  lemma ContainerPlanned(nodes: seq<Element>, q: seq<Entry>, n: nat, cls: string, keys: seq<string>, kids: seq<Value>)
    requires Ordered(nodes) && |keys| == |kids| && n < |nodes|
    requires nodes[n] == Element(Div, cls, "", ItemIds(n, |keys|))
    requires ItemsBuilt(nodes, n, keys, |keys|)
    requires Lookup(q, n) == None
    requires forall j :: 0 <= j < |keys| ==> Lookup(q, ItemId(n, j)) == Some(kids[j])
    requires forall j :: 0 <= j < |keys| ==> Lookup(q, KeyId(n, j)) == None
    ensures Planned(nodes, q, n) == Elem(Div, cls, "", PlannedAll(nodes, q, ItemIds(n, |keys|), n))
    ensures var items := PlannedAll(nodes, q, ItemIds(n, |keys|), n);
      forall j :: 0 <= j < |keys| ==> items[j] == Item(keys[j], kids[j])
  {
    forall j | 0 <= j < |keys| ensures Planned(nodes, q, ItemId(n, j)) == Item(keys[j], kids[j]) {
      ItemPlanned(nodes, q, ItemId(n, j), KeyId(n, j), keys[j], kids[j]);
    }
  }

  /** The elements a composite adds, once its items are queued, plan its Body: the descriptor, then the container. */
  lemma ExpansionPlanned(nodes: seq<Element>, q: seq<Entry>, n: nat, p: nat, v: Value)
    requires Ordered(nodes) && IsComposite(v) && p < n
    requires ContainerBuilt(nodes, n, TopicClass(v), TypeText(v), Keys(v))
    requires Lookup(q, n) == None && Lookup(q, n + 1) == None
    requires forall j :: 0 <= j < |Children(v)| ==> Lookup(q, ItemId(n, j)) == Some(Children(v)[j])
    requires forall j :: 0 <= j < |Children(v)| ==> Lookup(q, KeyId(n, j)) == None
    ensures PlannedAll(nodes, q, CompositeAdded(n), p) == Body(v)
  {
    var keys := Keys(v);
    ContainerPlanned(nodes, q, n, TopicClass(v), keys, Children(v));
    assert Planned(nodes, q, n + 1) == Elem(Span, "json-type", TypeText(v), []);
    PlannedAdded(nodes, q, n, p);
    BodyFromItems(v, PlannedAll(nodes, q, ItemIds(n, |keys|), n));
  }

  /**
   * One step leaves the planned view of every older element unchanged:
   * the front parent p, no longer queued, now holds the elements that
   * plan Body(v), and every other older element is untouched.
   */
  lemma {:induction false} StepKeepsPlanAt(base: seq<Element>, nodes: seq<Element>, q: seq<Entry>, q': seq<Entry>,
                                           v: Value, p: nat, extra: seq<nat>, i: nat)
    requires Ordered(base) && Ordered(nodes)
    requires p < |base| && i < |base| && SameExcept(base, nodes, p)
    requires Lookup(q, p) == Some(v)
    requires forall j :: 0 <= j < |base| ==> Lookup(q', j) == if j == p then None else Lookup(q, j)
    requires nodes[p] == base[p].(className := WrapClass(v), children := base[p].children + extra)
    requires forall k :: 0 <= k < |extra| ==> p < extra[k] < |nodes|
    requires PlannedAll(nodes, q', extra, p) == Body(v)
    ensures Planned(nodes, q', i) == Planned(base, q, i)
    decreases |base| - i
  {
    var ch := base[i].children;
    forall k | 0 <= k < |ch| ensures Planned(nodes, q', ch[k]) == Planned(base, q, ch[k]) {
      StepKeepsPlanAt(base, nodes, q, q', v, p, extra, ch[k]);
    }
    assert PlannedAll(nodes, q', ch, i) == PlannedAll(base, q, ch, i);
    if i == p {
      PlannedAllAppend(nodes, q', ch, extra, p);
    } else {
      assert nodes[i] == base[i];
    }
  }
}
