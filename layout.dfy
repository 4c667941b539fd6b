/**
 * The exact arena one step of the traversal produces, as a function of
 * the arena before it. `base` is the arena before the step, n = |base|
 * the position of the first new element and p the parent being filled.
 */
module Layout {
  import opened Dom
  import opened Queue

  /** The first i item elements and key spans, in creation order. */
  function ItemElems(n: nat, keys: seq<string>, i: nat): (r: seq<Element>)
    requires i <= |keys|
    ensures |r| == 2 * i
    ensures forall j :: 0 <= j < i ==> r[2 * j] == Element(Div, "", "", [KeyId(n, j)])
    ensures forall j :: 0 <= j < i ==> r[2 * j + 1] == Element(Span, "json-key", keys[j], [])
  {
    if i == 0 then []
    else ItemElems(n, keys, i - 1) + [Element(Div, "", "", [KeyId(n, i - 1)]), Element(Span, "json-key", keys[i - 1], [])]
  }

  /**
   * While a composite is expanded: the descriptor is attached to p, and
   * the container at n holds the first i items.
   */
  ghost function Building(base: seq<Element>, p: nat, cls: string, typeText: string, keys: seq<string>, i: nat): seq<Element>
    requires p < |base| && i <= |keys|
  {
    var n := |base|;
    base[p := base[p].(children := base[p].children + [n + 1])]
      + [Element(Div, cls, "", ItemIds(n, i)), Element(Span, "json-type", typeText, [])]
      + ItemElems(n, keys, i)
  }

  /** After a composite: p is labelled `wrap` and holds the descriptor, then the container. */
  ghost function CompositeArena(base: seq<Element>, p: nat, wrap: string, cls: string, typeText: string, keys: seq<string>): seq<Element>
    requires p < |base|
  {
    var n := |base|;
    base[p := base[p].(className := wrap, children := base[p].children + [n + 1, n])]
      + [Element(Div, cls, "", ItemIds(n, |keys|)), Element(Span, "json-type", typeText, [])]
      + ItemElems(n, keys, |keys|)
  }

  /** After a leaf: p is labelled `wrap` and holds the leaf span. */
  ghost function LeafArena(base: seq<Element>, p: nat, wrap: string, cls: string, text: string): seq<Element>
    requires p < |base|
  {
    base[p := base[p].(className := wrap, children := base[p].children + [|base|])] + [Element(Span, cls, text, [])]
  }

  /** Creating the container and the descriptor, and attaching the descriptor, starts the expansion. */
  lemma BuildingStart(base: seq<Element>, p: nat, cls: string, typeText: string, keys: seq<string>, nodes: seq<Element>)
    requires p < |base|
    requires var before := base + [Element(Div, cls, "", [])];
      nodes == (before + [Element(Span, "json-type", typeText, [])])[
                 p := before[p].(children := before[p].children + [|base| + 1])]
    ensures nodes == Building(base, p, cls, typeText, keys, 0)
  {
    var start := Building(base, p, cls, typeText, keys, 0);
    assert ItemIds(|base|, 0) == [];
    assert |nodes| == |start|;
    forall j | 0 <= j < |nodes| ensures nodes[j] == start[j] {
    }
  }

  /** Appending item i to the container advances the expansion by one key. */
  lemma BuildingStep(base: seq<Element>, p: nat, cls: string, typeText: string, keys: seq<string>, i: nat, nodes: seq<Element>)
    requires p < |base| && i < |keys|
    requires var before := Building(base, p, cls, typeText, keys, i);
      var n, m := |base|, |before|;
      nodes == before[n := before[n].(children := before[n].children + [m])]
               + [Element(Div, "", "", [m + 1]), Element(Span, "json-key", keys[i], [])]
    ensures nodes == Building(base, p, cls, typeText, keys, i + 1)
  {
    var n := |base|;
    var before := Building(base, p, cls, typeText, keys, i);
    assert |before| == n + 2 + 2 * i;
    assert ItemIds(n, i + 1) == ItemIds(n, i) + [ItemId(n, i)];
    var after := Building(base, p, cls, typeText, keys, i + 1);
    assert |nodes| == |after|;
    forall j | 0 <= j < |nodes| ensures nodes[j] == after[j] {
      if j >= n + 2 + 2 * i {
        assert ItemElems(n, keys, i + 1)[2 * i] == Element(Div, "", "", [KeyId(n, i)]);
        assert ItemElems(n, keys, i + 1)[2 * i + 1] == Element(Span, "json-key", keys[i], []);
      } else if j >= n + 2 {
        assert ItemElems(n, keys, i + 1)[j - n - 2] == ItemElems(n, keys, i)[j - n - 2];
      }
    }
  }

  /** Labelling p and attaching the finished container completes a composite. */
  lemma BuildingFinish(base: seq<Element>, p: nat, wrap: string, cls: string, typeText: string, keys: seq<string>, nodes: seq<Element>)
    requires p < |base|
    requires var mid := Building(base, p, cls, typeText, keys, |keys|)[p := Building(base, p, cls, typeText, keys, |keys|)[p].(className := wrap)];
      nodes == mid[p := mid[p].(children := mid[p].children + [|base|])]
    ensures nodes == CompositeArena(base, p, wrap, cls, typeText, keys)
  {
    var n := |base|;
    var before := Building(base, p, cls, typeText, keys, |keys|);
    var arena := CompositeArena(base, p, wrap, cls, typeText, keys);
    assert before[p] == base[p].(children := base[p].children + [n + 1]);
    assert base[p].children + [n + 1] + [n] == base[p].children + [n + 1, n];
    assert |nodes| == |arena|;
    forall j | 0 <= j < |nodes| ensures nodes[j] == arena[j] {
      if j != p {
        assert nodes[j] == before[j];
      }
    }
  }

  /** Labelling p and attaching the leaf span completes a leaf. */
  lemma LeafFinish(base: seq<Element>, p: nat, wrap: string, cls: string, text: string, nodes: seq<Element>)
    requires p < |base|
    requires var before := base + [Element(Span, cls, text, [])];
      var mid := before[p := before[p].(className := wrap)];
      nodes == mid[p := mid[p].(children := mid[p].children + [|base|])]
    ensures nodes == LeafArena(base, p, wrap, cls, text)
  {
    var arena := LeafArena(base, p, wrap, cls, text);
    assert |nodes| == |arena|;
    forall j | 0 <= j < |nodes| ensures nodes[j] == arena[j] {
    }
  }

  /** What a completed composite step leaves in the arena, element by element. */
  ghost predicate ExpandedComposite(base: seq<Element>, nodes: seq<Element>, p: nat, wrap: string,
                                    cls: string, typeText: string, keys: seq<string>) {
    var n := |base|;
    && p < n
    && |nodes| == n + 2 + 2 * |keys|
    && SameExcept(base, nodes, p)
    && nodes[p] == base[p].(className := wrap, children := base[p].children + CompositeAdded(n))
    && ContainerBuilt(nodes, n, cls, typeText, keys)
  }

  /** What a completed leaf step leaves in the arena, element by element. */
  ghost predicate ExpandedLeaf(base: seq<Element>, nodes: seq<Element>, p: nat, wrap: string, cls: string, text: string) {
    var n := |base|;
    && p < n
    && |nodes| == n + 1
    && SameExcept(base, nodes, p)
    && nodes[p] == base[p].(className := wrap, children := base[p].children + [n])
    && nodes[n] == Element(Span, cls, text, [])
  }

  lemma CompositeArenaFacts(base: seq<Element>, p: nat, wrap: string, cls: string, typeText: string, keys: seq<string>)
    requires p < |base|
    ensures ExpandedComposite(base, CompositeArena(base, p, wrap, cls, typeText, keys), p, wrap, cls, typeText, keys)
  {
    var n := |base|;
    var nodes := CompositeArena(base, p, wrap, cls, typeText, keys);
    var items := ItemElems(n, keys, |keys|);
    forall j | 0 <= j < |keys|
      ensures nodes[ItemId(n, j)] == Element(Div, "", "", [KeyId(n, j)])
      ensures nodes[KeyId(n, j)] == Element(Span, "json-key", keys[j], [])
    {
      assert nodes[ItemId(n, j)] == items[2 * j];
      assert nodes[KeyId(n, j)] == items[2 * j + 1];
    }
  }

  lemma LeafArenaFacts(base: seq<Element>, p: nat, wrap: string, cls: string, text: string)
    requires p < |base|
    ensures ExpandedLeaf(base, LeafArena(base, p, wrap, cls, text), p, wrap, cls, text)
  {
  }
}
