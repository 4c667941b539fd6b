/**
 * The traversal's work queue: a list of (value, parent element) pairs,
 * taken from the front and extended at the back. The facts here hold for
 * any kind of queued value.
 */
module Queue {
  import opened Dom

  datatype Option<T> = None | Some(value: T)

  /** The value queued for element i, if any: the first pair whose parent is i. */
  function Lookup<T>(q: seq<(T, nat)>, i: nat): (r: Option<T>)
    ensures r.None? <==> forall j :: 0 <= j < |q| ==> q[j].1 != i
  {
    if q == [] then None
    else if q[0].1 == i then Some(q[0].0)
    else
      var r := Lookup(q[1..], i);
      assert forall j :: 1 <= j < |q| ==> q[j] == q[1..][j - 1];
      r
  }

  /** No element is promised two values. */
  predicate DistinctParents<T>(q: seq<(T, nat)>) {
    forall j, k :: 0 <= j < k < |q| ==> q[j].1 != q[k].1
  }

  /**
   * The queue's invariant: its parents are distinct elements created by the
   * traversal (from position lo on), none of which has been labelled yet.
   */
  ghost predicate QueueOK<T>(nodes: seq<Element>, q: seq<(T, nat)>, lo: nat) {
    && (forall j :: 0 <= j < |q| ==> lo <= q[j].1 < |nodes| && nodes[q[j].1].className == "")
    && DistinctParents(q)
  }

  // Positions of the elements created while one composite value is expanded
  // into an arena of n elements: the container at n, the descriptor at
  // n + 1, then an item element and its key element for every key.

  function ItemId(n: nat, j: nat): nat { n + 2 + 2 * j }

  function KeyId(n: nat, j: nat): nat { n + 3 + 2 * j }

  /** What a composite appends to its parent: the descriptor at n + 1, then the container at n. */
  function CompositeAdded(n: nat): (r: seq<nat>)
    ensures forall k :: 0 <= k < |r| ==> n <= r[k] <= n + 1
  {
    [n + 1, n]
  }

  ghost function ItemIds(n: nat, i: nat): (r: seq<nat>)
    ensures |r| == i && forall j :: 0 <= j < i ==> r[j] == ItemId(n, j)
  {
    seq(i, j requires 0 <= j < i => ItemId(n, j))
  }

  /** The pairs queued for the first i children of a value expanded at position n. */
  ghost function NewEntries<T>(kids: seq<T>, n: nat, i: nat): (r: seq<(T, nat)>)
    requires i <= |kids|
    ensures |r| == i && forall j :: 0 <= j < i ==> r[j] == (kids[j], ItemId(n, j))
  {
    seq(i, j requires 0 <= j < i => (kids[j], ItemId(n, j)))
  }

  /** Every element below |base| other than p is as it was. */
  ghost predicate SameExcept(base: seq<Element>, nodes: seq<Element>, p: nat) {
    |base| <= |nodes| && forall j :: 0 <= j < |base| && j != p ==> nodes[j] == base[j]
  }

  /** Elements before the changed one keep the whole prefix. */
  lemma SameExceptPrefix(base: seq<Element>, nodes: seq<Element>, p: nat, lo: nat)
    requires SameExcept(base, nodes, p) && lo <= p && lo <= |base|
    ensures nodes[..lo] == base[..lo]
  {
    assert forall j :: 0 <= j < lo ==> nodes[..lo][j] == base[..lo][j];
  }

  /** The first i items exist: an unlabelled item element holding the span of its key. */
  ghost predicate ItemsBuilt(nodes: seq<Element>, n: nat, keys: seq<string>, i: nat) {
    && i <= |keys|
    && n + 2 + 2 * i <= |nodes|
    && forall j :: 0 <= j < i ==>
        && nodes[ItemId(n, j)] == Element(Div, "", "", [KeyId(n, j)])
        && nodes[KeyId(n, j)] == Element(Span, "json-key", keys[j], [])
  }

  /** A finished container at n with the descriptor at n + 1 and one item per key after them. */
  ghost predicate ContainerBuilt(nodes: seq<Element>, n: nat, cls: string, typeText: string, keys: seq<string>) {
    && n + 1 < |nodes|
    && nodes[n] == Element(Div, cls, "", ItemIds(n, |keys|))
    && nodes[n + 1] == Element(Span, "json-type", typeText, [])
    && ItemsBuilt(nodes, n, keys, |keys|)
  }

  lemma {:induction false} LookupAppend<T>(a: seq<(T, nat)>, b: seq<(T, nat)>, i: nat)
    ensures Lookup(a + b, i) == if Lookup(a, i).Some? then Lookup(a, i) else Lookup(b, i)
  {
    if a == [] {
      assert a + b == b;
    } else {
      assert (a + b)[1..] == a[1..] + b;
      LookupAppend(a[1..], b, i);
    }
  }

  lemma {:induction false} LookupFound<T>(q: seq<(T, nat)>, j: nat)
    requires j < |q| && DistinctParents(q)
    ensures Lookup(q, q[j].1) == Some(q[j].0)
  {
    if j > 0 {
      assert q[1..][j - 1] == q[j];
      LookupFound(q[1..], j - 1);
    }
  }

  /** Queueing child i after the first i extends the queued pairs by one. */
  lemma NewEntriesStep<T>(queue: seq<(T, nat)>, kids: seq<T>, n: nat, i: nat)
    requires i < |kids|
    ensures queue + NewEntries(kids, n, i) + [(kids[i], ItemId(n, i))] == queue + NewEntries(kids, n, i + 1)
  {
    assert NewEntries(kids, n, i + 1) == NewEntries(kids, n, i) + [(kids[i], ItemId(n, i))];
  }

  /**
   * The queue after one step: the front pair is taken off, and each child
   * of the value expanded at position n is queued with its item element.
   */
  ghost function Step<T>(q: seq<(T, nat)>, kids: seq<T>, n: nat): (r: seq<(T, nat)>)
    requires q != []
    ensures |r| == |q| - 1 + |kids|
    ensures forall j :: 0 <= j < |q| - 1 ==> r[j] == q[j + 1]
    ensures forall j :: |q| - 1 <= j < |r| ==> r[j] == (kids[j - (|q| - 1)], ItemId(n, j - (|q| - 1)))
  {
    q[1..] + NewEntries(kids, n, |kids|)
  }

  /** Parents queued before position n stay distinct when the new items are queued. */
  lemma StepDistinct<T>(q: seq<(T, nat)>, kids: seq<T>, n: nat)
    requires q != [] && DistinctParents(q)
    requires forall j :: 0 <= j < |q| ==> q[j].1 < n
    ensures DistinctParents(Step(q, kids, n))
  {
    var r := Step(q, kids, n);
    forall a, b | 0 <= a < b < |r| ensures r[a].1 != r[b].1 {
      if b < |q| - 1 {
        assert r[a] == q[a + 1] && r[b] == q[b + 1];
      } else if a < |q| - 1 {
        assert r[a] == q[a + 1];
        assert r[b].1 == ItemId(n, b - (|q| - 1));
      } else {
        assert r[a].1 == ItemId(n, a - (|q| - 1));
        assert r[b].1 == ItemId(n, b - (|q| - 1));
      }
    }
  }

  /** After a step, an older element is promised what it was before, except p, which is done. */
  lemma StepLookupOld<T>(q: seq<(T, nat)>, kids: seq<T>, n: nat, p: nat, i: nat)
    requires q != [] && q[0].1 == p && DistinctParents(q)
    requires i < n
    ensures Lookup(Step(q, kids, n), i) == if i == p then None else Lookup(q, i)
  {
    var r := Step(q, kids, n);
    assert r == q[1..] + NewEntries(kids, n, |kids|);
    LookupAppend(q[1..], NewEntries(kids, n, |kids|), i);
    assert Lookup(NewEntries(kids, n, |kids|), i) == None;
    if i == p {
      assert forall j :: 0 <= j < |q| - 1 ==> q[1..][j] == q[j + 1];
    }
  }

  /** The lookup facts above, for every older element at once. */
  lemma StepLookupOldAll<T>(q: seq<(T, nat)>, kids: seq<T>, n: nat, p: nat)
    requires q != [] && q[0].1 == p && DistinctParents(q)
    ensures forall j :: 0 <= j < n ==> Lookup(Step(q, kids, n), j) == if j == p then None else Lookup(q, j)
  {
    forall j | 0 <= j < n ensures Lookup(Step(q, kids, n), j) == if j == p then None else Lookup(q, j) {
      StepLookupOld(q, kids, n, p, j);
    }
  }

  /** After a step, the new container, descriptor and key elements are promised nothing. */
  lemma StepLookupNone<T>(q: seq<(T, nat)>, kids: seq<T>, n: nat, i: nat)
    requires q != []
    requires forall j :: 0 <= j < |q| ==> q[j].1 < n
    requires n <= i && (i < n + 2 || (i - n) % 2 == 1)
    ensures Lookup(Step(q, kids, n), i) == None
  {
    var r := Step(q, kids, n);
    forall j | 0 <= j < |r| ensures r[j].1 != i {
      if j < |q| - 1 {
        assert r[j] == q[j + 1];
      } else {
        assert r[j].1 == ItemId(n, j - (|q| - 1));
      }
    }
  }

  /** After a step, the item element made for the j-th child is promised that child. */
  lemma StepLookupItem<T>(q: seq<(T, nat)>, kids: seq<T>, n: nat, j: nat)
    requires q != [] && DistinctParents(q)
    requires forall k :: 0 <= k < |q| ==> q[k].1 < n
    requires j < |kids|
    ensures Lookup(Step(q, kids, n), ItemId(n, j)) == Some(kids[j])
  {
    var r := Step(q, kids, n);
    StepDistinct(q, kids, n);
    assert r[|q| - 1 + j] == (kids[j], ItemId(n, j));
    LookupFound(r, |q| - 1 + j);
  }

  /**
   * What the queue promises the elements made in one step: the item element
   * for the j-th child is promised that child, and the container, the
   * descriptor and every key element are promised nothing.
   */
  lemma StepLookupNew<T>(q: seq<(T, nat)>, kids: seq<T>, n: nat)
    requires q != [] && DistinctParents(q)
    requires forall k :: 0 <= k < |q| ==> q[k].1 < n
    ensures Lookup(Step(q, kids, n), n) == None && Lookup(Step(q, kids, n), n + 1) == None
    ensures forall j :: 0 <= j < |kids| ==> Lookup(Step(q, kids, n), ItemId(n, j)) == Some(kids[j])
    ensures forall j :: 0 <= j < |kids| ==> Lookup(Step(q, kids, n), KeyId(n, j)) == None
  {
    StepLookupNone(q, kids, n, n);
    StepLookupNone(q, kids, n, n + 1);
    forall j | 0 <= j < |kids|
      ensures Lookup(Step(q, kids, n), ItemId(n, j)) == Some(kids[j])
      ensures Lookup(Step(q, kids, n), KeyId(n, j)) == None
    {
      StepLookupItem(q, kids, n, j);
      StepLookupNone(q, kids, n, KeyId(n, j));
    }
  }

  /**
   * The queue invariant survives one step, provided the only older element
   * changed is the front parent and the new item elements are unlabelled.
   */
  lemma QueueOKAfterStep<T>(base: seq<Element>, nodes: seq<Element>, q: seq<(T, nat)>, kids: seq<T>, p: nat, lo: nat)
    requires q != [] && q[0].1 == p && QueueOK(base, q, lo)
    requires SameExcept(base, nodes, p)
    requires forall j :: 0 <= j < |kids| ==> ItemId(|base|, j) < |nodes| && nodes[ItemId(|base|, j)].className == ""
    ensures QueueOK(nodes, Step(q, kids, |base|), lo)
  {
    var n := |base|;
    StepDistinct(q, kids, n);
    var r := Step(q, kids, n);
    forall j | 0 <= j < |r| ensures lo <= r[j].1 < |nodes| && nodes[r[j].1].className == "" {
      if j < |q| - 1 {
        assert r[j] == q[j + 1];
        assert q[j + 1].1 != q[0].1;
      } else {
        assert r[j].1 == ItemId(n, j - (|q| - 1));
      }
    }
  }
}
