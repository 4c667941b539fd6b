/**
 * The values `jsonToHtml` accepts and the way it classifies them.
 * A JavaScript value tree without cycles: `null`, `undefined`, booleans,
 * numbers (modelled as integers), strings, arrays and plain objects.
 */
module Json {
  import opened Text

  datatype Value =
    | Null
    | Undefined
    | Bool(b: bool)
    | Num(n: int)
    | Str(s: string)
    | Arr(elems: seq<Value>)
    | Obj(fields: map<string, Value>)

  /** The type name the renderer works with: `typeof`, refined for null and arrays. */
  datatype Kind = NullKind | BooleanKind | NumberKind | StringKind | ArrayKind | ObjectKind {
    /** The word that appears in class names and in the type descriptor. */
    function Name(): (r: string)
      ensures |r| > 0
    {
      match this
      case NullKind => "null"
      case BooleanKind => "boolean"
      case NumberKind => "number"
      case StringKind => "string"
      case ArrayKind => "array"
      case ObjectKind => "object"
    }
  }

  /**
   * Classification: `null` and `undefined` are the null kind, arrays the
   * array kind, and every other value keeps its `typeof`.
   */
  function KindOf(v: Value): (k: Kind)
    ensures k == NullKind <==> (v.Null? || v.Undefined?)
    ensures k == BooleanKind <==> v.Bool?
    ensures k == NumberKind <==> v.Num?
    ensures k == StringKind <==> v.Str?
    ensures k == ArrayKind <==> v.Arr?
    ensures k == ObjectKind <==> v.Obj?
  {
    match v
    case Null => NullKind
    case Undefined => NullKind
    case Bool(_) => BooleanKind
    case Num(_) => NumberKind
    case Str(_) => StringKind
    case Arr(_) => ArrayKind
    case Obj(_) => ObjectKind
  }

  predicate IsComposite(v: Value) {
    v.Arr? || v.Obj?
  }

  /**
   * The key texts of a composite in the order its items are produced:
   * decimal indices for an array, the sorted own keys for an object, and
   * none for a leaf.
   */
  function Keys(v: Value): (r: seq<string>)
    ensures v.Arr? ==> |r| == |v.elems| && forall i :: 0 <= i < |r| ==> r[i] == NatToString(i)
    ensures v.Obj? ==> r == SortedKeys(v.fields.Keys)
    ensures !IsComposite(v) ==> r == []
  {
    match v
    case Arr(s) => seq(|s|, i requires 0 <= i < |s| => NatToString(i))
    case Obj(m) => SortedKeys(m.Keys)
    case _ => []
  }

  /** `topic[key]` for every key, in key order. */
  function Children(v: Value): (r: seq<Value>)
    ensures |r| == |Keys(v)|
    ensures v.Arr? ==> r == v.elems
    ensures v.Obj? ==> forall i :: 0 <= i < |r| ==> Keys(v)[i] in v.fields && r[i] == v.fields[Keys(v)[i]]
    ensures forall i :: 0 <= i < |r| ==> r[i] < v
  {
    match v
    case Arr(s) => s
    case Obj(m) =>
      var ks := SortedKeys(m.Keys);
      seq(|ks|, i requires 0 <= i < |ks| => m[ks[i]])
    case _ => []
  }

  /** The number of values in the tree of v: a measure that each expansion step lowers. */
  ghost function Size(v: Value): (r: nat)
    ensures r >= 1
    decreases v, 1
  {
    1 + SizeAll(Children(v), v)
  }

  ghost function SizeAll(vs: seq<Value>, parent: Value): nat
    requires forall i :: 0 <= i < |vs| ==> vs[i] < parent
    decreases parent, 0, |vs|
  {
    if vs == [] then 0 else Size(vs[0]) + SizeAll(vs[1..], parent)
  }

  /** The sum of the sizes of some values. */
  ghost function SizeSum(vs: seq<Value>): nat {
    if vs == [] then 0 else Size(vs[0]) + SizeSum(vs[1..])
  }

  lemma {:induction false} SizeAllIsSum(vs: seq<Value>, parent: Value)
    requires forall i :: 0 <= i < |vs| ==> vs[i] < parent
    ensures SizeAll(vs, parent) == SizeSum(vs)
  {
    if vs != [] { SizeAllIsSum(vs[1..], parent); }
  }

  /** A value is worth one more than all its children together. */
  lemma SizeSplits(v: Value)
    ensures Size(v) == 1 + SizeSum(Children(v))
  {
    SizeAllIsSum(Children(v), v);
  }

  lemma {:induction false} SizeSumAppend(a: seq<Value>, b: seq<Value>)
    ensures SizeSum(a + b) == SizeSum(a) + SizeSum(b)
  {
    if a != [] {
      assert (a + b)[1..] == a[1..] + b;
      SizeSumAppend(a[1..], b);
    } else {
      assert a + b == b;
    }
  }
}
