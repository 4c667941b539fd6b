# jsonToHtml, modelled and proved in Dafny

`jsonToHtml(json)` (index.js:56-121) turns any JavaScript value into a tree of
`div`/`span` elements that carry class names and text. It never styles or
wires events. It starts with a root `div` and a work queue `[[json, rootEl]]`.
It takes pairs off the front with `shift()` until the queue is empty. Each
pair is handled as follows:

- the value is classified: `null`/`undefined` are the null kind, arrays the
  array kind, everything else its `typeof`;
- for a leaf value it builds a `json-<kind>` span holding the value's text;
- for an array or object it builds a container `div` classed `json-array` or
  `json-object` plus ` has-items`/` is-empty`, and appends a `json-type`
  descriptor span (`array[3]`, `object[2]`, or `{}`) to the parent;
- for each key (decimal indices, or the object's keys in ascending string
  order) it appends an item `div` holding a `json-key` span, and pushes the
  key's value with the item as its parent;
- finally it labels the parent `json-item contains-<...>` and appends the
  topic element to it.

The model has these modules:

- `Text`: the string order of the default `sort()`, the sorted key list,
  decimal text of integers, and the anchored replacement `replace(/^json-/, ...)`.
- `Json`: the value datatype and its classification.
- `Dom`: the document as an arena of elements. `Document` is a class whose
  `nodes` field the DOM operations update in place.
- `Rendering`: a recursive `Render(v)`. It is the specification: what the
  element tree for `v` is, with no queue in it.
- `Queue`, `Plan` and `Layout`: proof scaffolding with no counterpart in
  the source. They hold the work queue's facts, the loop invariant's reading
  of the arena, and the exact arena after each iteration.
- `Convert`: the imperative traversal itself. `JsonToHtml` is a method with
  the outer `while` loop (in `Drain`) and the inner `for` loop over keys (in
  `AppendItems`).

The main theorem is the postcondition of `Convert.JsonToHtml`. For every
finite acyclic value, the loop terminates, and the element tree under the
returned root is exactly `Render(json)`:
`ToTree(doc.nodes, root) == Render(json)`.

So the breadth-first construction order affects only where elements sit in
the arena, never the shape. The loop invariant reads the arena together with
the queue. Every queued pair (value, parent) is work promised to that parent
element. Filling every promise in as `Render` would gives `Render(json)` at
the root (`Plan.Planned`). Termination uses the total size of the queued
values (`Convert.QueueSize`). Each iteration removes one value and queues
only its strict sub-values.

The code is followed where the doc comment disagrees with it:
index.js:16-33 shows the inner element for leaves and empty containers, but
the code returns the wrapping root `div` (index.js:57, 120). An empty
array's descriptor is `{}`, like an empty object's (index.js:99).

The specification functions, and the source each one transcribes:

- `Rendering.Render`: the element `jsonToHtml` returns (index.js:56-121).
- `Rendering.Body`: what one value appends to its wrapper (index.js:87-114).
- `Rendering.Item`: one item of a composite (index.js:100-117).
- `Rendering.LeafText`: a leaf span's text (index.js:90).
- `Rendering.TopicClass`: the class of the topic element (index.js:78, 85, 89).
- `Rendering.ItemsSuffix`: the ` has-items`/` is-empty` word (index.js:78, 85).
- `Rendering.WrapClass`: the label of a wrapper (index.js:116).
- `Rendering.TypeText`: the descriptor's text (index.js:99).
- `Json.Kind.Name`: the type word (index.js:65-70).
- `Text.LexLe`: the comparison of the default `sort()` (index.js:81).
- `Dom.TextContent`: the `textContent` getter the tests read (__tests__/jsonhtmlify.js:95).

## Model

| member | source | states |
|---|---|---|
| Json.KindOf | index.js:65-71 | the kind is null exactly for `null`/`undefined`, array exactly for arrays, and boolean, number, string or object exactly for those values |
| Json.Keys | index.js:74-83 | an array's keys are the decimal indices 0..len-1, an object's keys are its sorted key list, and a leaf has none |
| Json.Children | index.js:112 | `topic[key]` for every key in key order: an array's elements; for an object, the value stored under each key; each one strictly smaller than the value |
| Json.SizeSplits | index.js:112 | a value's size is one more than the sizes of its children together |
| Json.SizeSumAppend | index.js:112 | the total size of a list of values is additive over concatenation |
| Text.LexLeTotal | index.js:81 | any two strings are comparable in the default sort order |
| Text.LexLeTrans | index.js:81 | the default sort order is transitive |
| Text.LexLeAntisym | index.js:81 | strings that are each at most the other are equal |
| Text.TenBeforeTwo | index.js:81 | the order compares characters, not numbers: "10" comes before "2" |
| Text.Least | index.js:81 | the least key of a non-empty key set is in the set and at most every other key |
| Text.SortedKeys | index.js:81 | `Object.keys(topic).sort()`: exactly the object's keys, as many as there are, strictly ascending |
| Text.SortedUnique | index.js:81 | two strictly ascending lists with the same elements are equal |
| Text.SortedIsCanonical | index.js:81 | every strictly ascending enumeration of the key set is the sorted key list, whatever order the keys were enumerated in |
| Text.NatToString | index.js:99-109 | the decimal text of a count or index is non-empty and made of digits |
| Text.NatToStringRoundTrip | index.js:99-109 | the decimal text reads back as the number and has no leading zero |
| Text.NatToStringInjective | index.js:109 | different indices get different key texts |
| Text.IntToString | index.js:90 | `String(n)` of an integer starts with a minus sign exactly when the integer is negative |
| Text.IntToStringRoundTrip | index.js:90 | the digits of `String(n)`, after the sign if there is one, read back as the magnitude |
| Text.NegativeRoundTrip | index.js:90 | after its minus sign, a negative integer's text reads back as the integer's magnitude |
| Text.ReplaceLeading | index.js:116 | `replace(/^json-/, 'contains-')`: the prefix is replaced when the class starts with it, otherwise the class is unchanged |
| Text.ReplaceLeadingPrefix | index.js:116 | a class `json-<rest>` becomes `contains-<rest>` |
| Dom.Document.CreateElement | index.js:57-106 | a new element with empty class, text and children goes at the end of the arena; nothing else changes |
| Dom.Document.SetClassName | index.js:78-116 | only that element's class changes |
| Dom.Document.SetTextContent | index.js:90-109 | that element's text is set and its children are replaced; nothing else changes |
| Dom.Document.AppendChild | index.js:100-117 | the child is added as the last child of the parent; nothing else changes |
| Rendering.LeafRendering | index.js:87-117 | a leaf's root holds one childless span classed `json-<kind>` with text `null`, `true`/`false`, the number's decimal text, or the string; `undefined` renders as null |
| Rendering.WrapOfJsonClass | index.js:116 | relabelling `json-<kind><suffix>` gives `json-item contains-<kind><suffix>` |
| Rendering.WrapLabel | index.js:116 | every wrapper (the root and every item) is classed `json-item contains-<kind>`, plus ` has-items`/` is-empty` for a composite |
| Rendering.ContainerLayout | index.js:94-114 | a composite's wrapper gets the descriptor span, then a container div classed as the topic, with one item per key, in key order |
| Rendering.StateWord | index.js:78-85 | a composite's class ends in ` has-items` exactly when it has a key, and in ` is-empty` exactly when it has none |
| Rendering.ContainerLabel | index.js:76-85 | the container's class is `json-array`/`json-object` plus the state word; the key count is the array length or the number of object keys; ` has-items` exactly when there is a key; ` is-empty` exactly when the container has no children |
| Rendering.Descriptor | index.js:96-100 | the descriptor is a childless `json-type` span reading `<kind>[<n>]` for n > 0 keys and `{}` for none; its number reads back as the child count |
| Rendering.KeyOrder | index.js:75-113 | one item per child; array item i is keyed by the decimal text of i and holds element i; object items follow strictly ascending keys, cover exactly the object's keys, and hold the value under each key |
| Rendering.ObjectOrderCanonical | index.js:81-112 | for any strictly sorted enumeration of an object's keys, the items follow that enumeration |
| Rendering.NumericLookingKeys | index.js:81 | the keys of `{"2": null, "10": null}` come out as `["10", "2"]` |
| Rendering.ItemLayout | index.js:100-117 | an item is classed as the wrapper of its value and starts with the key span; then it holds the leaf span (2 children in all) or the descriptor and the container (3 children) |
| Rendering.LeafItemText | index.js:105-117 | a leaf item's text content is its key followed by the leaf's text |
| Rendering.SingleKeyObject | index.js:81-83 | an object with one key has exactly that key and its value |
| Rendering.SingleKeyContainerText | index.js:103-117 | the container of a one-key object with a leaf value reads as the key followed by the leaf text |
| Rendering.SimpleObjectText | __tests__/jsonhtmlify.js:91-96 | the container of `{bool0: false}` reads `bool0false` |
| Rendering.RootShape | index.js:57-120 | the root is classed as a wrapper; it has 1 child for a leaf, and 2 children (`json-type`, then the container) for a composite |
| Queue.Lookup | index.js:61 | the value queued for an element is absent exactly when no queued pair names that element |
| Queue.Step | index.js:61-112 | after one iteration, the queue is the old queue without its front, followed by one pair per child and item element, in key order |
| Queue.NewEntriesStep | index.js:112 | pushing child i after the first i gives the queue of the first i + 1 |
| Queue.StepDistinct | index.js:105-112 | queued parents stay distinct, because every item element is new |
| Queue.StepLookupOld | index.js:61 | after a step, an older element keeps its queued value, except the front parent, which has none |
| Queue.StepLookupOldAll | index.js:61 | the same, for every older element at once |
| Queue.StepLookupNone | index.js:97-106 | the new container, descriptor and key elements have nothing queued for them |
| Queue.StepLookupItem | index.js:112 | the item element of key j has child j queued for it |
| Queue.StepLookupNew | index.js:97-112 | the lookups for every element one step creates |
| Queue.QueueOKAfterStep | index.js:61-116 | the queue invariant is kept: every queued parent is a distinct element that has not been labelled yet, so each element is labelled once |
| Queue.SameExceptPrefix | index.js:56-121 | if an arena differs from an older one only at element p, and lo <= p, then its elements below lo are the old ones |
| Plan.PlannedWithoutQueue | index.js:60-120 | with nothing left in the queue, the planned tree is the document's tree |
| Plan.PlannedAllAppend | index.js:100-117 | the planned children of appended child lists add up |
| Plan.PlannedAdded | index.js:100-117 | the two elements a composite appends plan as the descriptor, then the container |
| Plan.ItemPlanned | index.js:105-112 | a queued item element plans as the item of its key and value |
| Plan.ContainerPlanned | index.js:103-113 | a finished container whose items are all queued plans as a container with one item per key |
| Plan.ExpansionPlanned | index.js:94-114 | the elements a composite appends to its parent, with the items queued, plan the composite's Body |
| Plan.StepKeepsPlanAt | index.js:61-117 | one iteration keeps the planned tree at every older element |
| Layout.ItemElems | index.js:105-111 | item j is an unlabelled div holding key j's element, which is a `json-key` span with the key's text |
| Layout.BuildingStart | index.js:77-100 | the container and the attached descriptor start the expansion with no items |
| Layout.BuildingStep | index.js:104-111 | one pass of the key loop adds exactly item i and its key span |
| Layout.BuildingFinish | index.js:116-117 | labelling and attaching the finished container completes a composite's arena |
| Layout.LeafFinish | index.js:88-117 | labelling and attaching the leaf span completes a leaf's arena |
| Layout.CompositeArenaFacts | index.js:94-117 | after a composite: only the parent changes among older elements, and the container, descriptor, items and keys sit where the queue expects them |
| Layout.LeafArenaFacts | index.js:87-117 | after a leaf: only the parent changes among older elements, and the leaf span is new |
| Convert.CompositePlanned | index.js:94-114 | after a composite's step, what it appended plans its Body |
| Convert.LeafPlanned | index.js:87-117 | after a leaf's step, the appended span plans its Body |
| Convert.ExpandedSameExcept | index.js:61-117 | an iteration changes no older element but the parent |
| Convert.ExpandedParent | index.js:100-117 | after an iteration, the parent has the wrapper class and children that plan the value's Body |
| Convert.StepKeepsPlan | index.js:61-117 | one iteration leaves the planned tree at the root unchanged |
| Convert.StepKeepsQueue | index.js:61-117 | one iteration keeps the queue invariant |
| Convert.QueueShrinks | index.js:61-112 | one iteration strictly lowers the total size of the queued values, so the loop terminates |
| Convert.StepKeepsInvariant | index.js:60-117 | one iteration keeps the whole loop invariant, and the work left shrinks |
| Convert.CompositeClass | index.js:78-85 | the class the code writes on a container, `json-array ` or `json-object ` followed by `has-items` when there are keys and `is-empty` otherwise, is the topic class |
| Convert.LeafClass | index.js:89 | the class the code writes on a leaf span is `json-<kind>` |
| Convert.ChildAt | index.js:75-112 | key i of an array is the decimal text of i and its child is element i; key i of an object is a key it holds, and its child is the value under it |
| Convert.TopicElement | index.js:73-91 | creates exactly the topic element: the container div with its class, or the leaf span with its class and text; also the sorted keys and the key count |
| Convert.AppendItem | index.js:105-111 | one pass of the key loop: a new item div holding a new `json-key` span, appended to the container |
| Convert.AppendItemAt | index.js:104-111 | the same pass, as one step of the expansion |
| Convert.ItemAt | index.js:75-112 | `keyByIndex(i)` and `topic[key]` are key i and child i |
| Convert.AppendItems | index.js:103-113 | the key loop: afterwards the container holds one item per key in order, and the children are queued in key order with their item elements |
| Convert.AppendDescriptor | index.js:97-100 | a new `json-type` span with the descriptor text, appended to the parent |
| Convert.ExpandComposite | index.js:94-114 | the descriptor, then every item, with every child queued |
| Convert.RenderTopic | index.js:61-117 | one iteration leaves exactly the expected arena for the value and queues its children in key order |
| Convert.Drain | index.js:60-118 | the queue loop terminates, and the tree at the root is then the one planned when the loop starts; elements below the first one the traversal made do not change |
| Convert.JsonToHtml | index.js:56-121 | the returned root is a new element; its tree is exactly `Render(json)`; every element that existed before is unchanged |

## Left out

- The browser document is the `Document` parameter of `JsonToHtml` instead of the global `document`. Only `createElement`, `className`, `textContent` and `appendChild` are modelled.
- Text nodes: setting `textContent` creates a text node. The model keeps that text in the element's `text` field and gives the element no element children. A query like `childNodes.length` on a leaf span (1 text node) is therefore not modelled.
- `appendChild` of a node that is already attached moves it. The code never does this: each child is appended once, to a parent created before it. So `Dom.Document.AppendChild` requires the child to come later in the arena than its parent.
- Numbers are integers. Floats, `NaN`, `Infinity`, `-0` and exponent notation are not modelled.
- `typeof` results other than the ones for the modelled values (`function`, `symbol`, `bigint`) are not modelled. Nor are objects with non-enumerable or symbol keys, array holes, or extra properties on arrays.
- `sort()` compares UTF-16 code units. The model compares Dafny characters in plain lexicographic order.
- Cyclic values: index.js has no visited set, so a cyclic value makes the queue grow forever. The `Value` datatype is inductive and cannot express cycles. The `is-seen`/`has-recursive-items` labels in __tests__/visited.js are not implemented by index.js and are not modelled either.
- Shared references inside a value are expanded again each time they appear. A value tree already shows this behaviour.
- Module wiring (`module.exports`, index.js:123) and the `jsonhtmlify` name the tests import are not modelled.
- Only the element structure is modelled, not the `.json-item` selector queries of the tests. The tests' expectations are stated as lemmas about `Render` (`LeafRendering`, `ContainerLabel`, `Descriptor`, `KeyOrder`, `ItemLayout`, `RootShape`, `SimpleObjectText`).
