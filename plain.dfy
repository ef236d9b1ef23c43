/**
 * Reference-free values: the data the codec can carry through a round trip
 * without relying on ordinals. A `Plain` value is a tree of scalars, tuples,
 * lists, sets and dicts; `Image` is the tree the encoder emits for it, and
 * `Realizes` says that a value over a heap is a copy of it, with each
 * container a distinct heap object.
 */
module PlainValues {
  import opened Values
  import opened Wire
  import opened Decoder

  datatype Plain =
    | PScalar(p: Prim)
    | PTuple(items: seq<Plain>)
    | PList(items: seq<Plain>)
    | PSet(members: seq<Plain>)
    | PDict(entries: seq<(Prim, Plain)>)

  /** The values a set may hold here: scalars and tuples of them, which hash by value. */
  predicate Flat(x: Plain)
    decreases x
  {
    match x
    case PScalar(_) => true
    case PTuple(xs) => forall j :: 0 <= j < |xs| ==> Flat(xs[j])
    case _ => false
  }

  /**
   * Set members are flat and distinct; dict keys are distinct and are none
   * of the marker keys, so that the decoder reads the dict back as a dict.
   */
  predicate WellFormed(x: Plain)
    decreases x
  {
    match x
    case PScalar(_) => true
    case PTuple(xs) => forall j :: 0 <= j < |xs| ==> WellFormed(xs[j])
    case PList(xs) => forall j :: 0 <= j < |xs| ==> WellFormed(xs[j])
    case PSet(ms) => (forall j :: 0 <= j < |ms| ==> Flat(ms[j])) && NoDup(ms)
    case PDict(es) =>
      DistinctKeys(es) && (forall j :: 0 <= j < |es| ==> es[j].0 !in Markers) &&
      forall j :: 0 <= j < |es| ==> WellFormed(es[j].1)
  }

  /** The children of a container, in order: items, members, or entry values. */
  function Kids(x: Plain): (ks: seq<Plain>) {
    match x
    case PScalar(_) => []
    case PTuple(xs) => xs
    case PList(xs) => xs
    case PSet(ms) => ms
    case PDict(es) => seq(|es|, j requires 0 <= j < |es| => es[j].1)
  }

  lemma KidSmaller(x: Plain, j: nat)
    requires j < |Kids(x)|
    ensures Kids(x)[j] < x
  {
    if x.PDict? {
      assert Kids(x)[j] == x.entries[j].1;
    }
  }

  lemma KidWellFormed(x: Plain, j: nat)
    requires WellFormed(x) && !x.PSet? && j < |Kids(x)|
    ensures WellFormed(Kids(x)[j])
  {
    if x.PDict? {
      assert Kids(x)[j] == x.entries[j].1;
    }
  }

  // ---------------------------------------------------------------------------
  // The wire image

  /** The node a container's children are written in: a list, or a dict for a dict. */
  function Node(x: Plain): (t: Tree)
    decreases x, 0
  {
    match x
    case PScalar(p) => TScalar(p)
    case PTuple(xs) => TList(seq(|xs|, j requires 0 <= j < |xs| => Image(xs[j])))
    case PList(xs) => TList(seq(|xs|, j requires 0 <= j < |xs| => Image(xs[j])))
    case PSet(ms) => TList(seq(|ms|, j requires 0 <= j < |ms| => Image(ms[j])))
    case PDict(es) => TDict(seq(|es|, j requires 0 <= j < |es| => (es[j].0, Image(es[j].1))))
  }

  /** The marker key a container is tagged with. */
  function Marker(x: Plain): Prim {
    match x
    case PScalar(_) => NoneVal
    case PTuple(_) => TupleKey
    case PList(_) => ListKey
    case PSet(_) => SetKey
    case PDict(_) => DictKey
  }

  /** What `serialize` emits for `x`: a scalar as itself, a container as `{marker: node}`. */
  function Image(x: Plain): (t: Tree)
    decreases x, 1
  {
    if x.PScalar? then TScalar(x.p) else TDict([(Marker(x), Node(x))])
  }

  /** A container's node has one child per child value, each the image of that value. */
  lemma NodeChildren(x: Plain)
    requires !x.PScalar?
    ensures var node := Node(x);
      (node.TList? || node.TDict?) && Arity(node) == |Kids(x)| &&
      (x.PDict? <==> node.TDict?) &&
      forall j :: 0 <= j < |Kids(x)| ==> Child(node, j) == Image(Kids(x)[j])
  {
  }

  /** The keys of a dict's node are the dict's keys; its child values are the entry values. */
  lemma PlainKeys(x: Plain)
    requires x.PDict?
    ensures Node(x).TDict? && |Node(x).entries| == |x.entries|
    ensures forall j :: 0 <= j < |x.entries| ==> Node(x).entries[j].0 == x.entries[j].0 && Kids(x)[j] == x.entries[j].1
    ensures WellFormed(x) ==> DistinctKeys(Node(x).entries)
    ensures WellFormed(x) ==> forall j :: 0 <= j < |Node(x).entries| ==> Node(x).entries[j].0 !in Markers
  {
  }

  // ---------------------------------------------------------------------------
  // Values that copy a plain value

  /**
   * `v`, read in heap `h`, is a copy of `x`: scalars are equal, a tuple
   * holds copies of the items, and a list, set or dict is an object at an
   * index at least `lo` holding copies of the children in order (a dict
   * under the same keys).
   */
  predicate Realizes(h: Heap, v: Value, x: Plain, lo: nat)
    decreases x
  {
    match x
    case PScalar(p) => v == Scalar(p)
    case PTuple(xs) =>
      v.Tup? && |v.items| == |xs| && forall j :: 0 <= j < |xs| ==> Realizes(h, v.items[j], xs[j], lo)
    case PList(xs) =>
      v.Ref? && lo <= v.id < |h| && h[v.id].ListObj? && |h[v.id].items| == |xs| &&
      forall j :: 0 <= j < |xs| ==> Realizes(h, h[v.id].items[j], xs[j], lo)
    case PSet(ms) =>
      v.Ref? && lo <= v.id < |h| && h[v.id].SetObj? && |h[v.id].members| == |ms| &&
      forall j :: 0 <= j < |ms| ==> Realizes(h, h[v.id].members[j], ms[j], lo)
    case PDict(es) =>
      v.Ref? && lo <= v.id < |h| && h[v.id].DictObj? && |h[v.id].entries| == |es| &&
      forall j :: 0 <= j < |es| ==> h[v.id].entries[j].0 == es[j].0 && Realizes(h, h[v.id].entries[j].1, es[j].1, lo)
  }

  /** A copy stays a copy while the objects at or above `lo` are untouched. */
  lemma {:induction false} RealizesFrame(h1: Heap, h2: Heap, v: Value, x: Plain, lo: nat)
    requires Realizes(h1, v, x, lo) && |h1| <= |h2|
    requires forall j :: lo <= j < |h1| ==> h2[j] == h1[j]
    ensures Realizes(h2, v, x, lo)
    decreases x
  {
    match x
    case PScalar(_) =>
    case PTuple(xs) =>
      forall j | 0 <= j < |xs| ensures Realizes(h2, v.items[j], xs[j], lo) {
        RealizesFrame(h1, h2, v.items[j], xs[j], lo);
      }
    case PList(xs) =>
      forall j | 0 <= j < |xs| ensures Realizes(h2, h2[v.id].items[j], xs[j], lo) {
        RealizesFrame(h1, h2, h1[v.id].items[j], xs[j], lo);
      }
    case PSet(ms) =>
      forall j | 0 <= j < |ms| ensures Realizes(h2, h2[v.id].members[j], ms[j], lo) {
        RealizesFrame(h1, h2, h1[v.id].members[j], ms[j], lo);
      }
    case PDict(es) =>
      forall j | 0 <= j < |es| ensures Realizes(h2, h2[v.id].entries[j].1, es[j].1, lo) {
        RealizesFrame(h1, h2, h1[v.id].entries[j].1, es[j].1, lo);
      }
  }

  /** A copy whose objects lie at or above `lo` also lies at or above any smaller bound. */
  lemma {:induction false} RealizesLower(h: Heap, v: Value, x: Plain, lo: nat, lo2: nat)
    requires Realizes(h, v, x, lo) && lo2 <= lo
    ensures Realizes(h, v, x, lo2)
    decreases x
  {
    match x
    case PScalar(_) =>
    case PTuple(xs) =>
      forall j | 0 <= j < |xs| ensures Realizes(h, v.items[j], xs[j], lo2) {
        RealizesLower(h, v.items[j], xs[j], lo, lo2);
      }
    case PList(xs) =>
      forall j | 0 <= j < |xs| ensures Realizes(h, h[v.id].items[j], xs[j], lo2) {
        RealizesLower(h, h[v.id].items[j], xs[j], lo, lo2);
      }
    case PSet(ms) =>
      forall j | 0 <= j < |ms| ensures Realizes(h, h[v.id].members[j], ms[j], lo2) {
        RealizesLower(h, h[v.id].members[j], ms[j], lo, lo2);
      }
    case PDict(es) =>
      forall j | 0 <= j < |es| ensures Realizes(h, h[v.id].entries[j].1, es[j].1, lo2) {
        RealizesLower(h, h[v.id].entries[j].1, es[j].1, lo, lo2);
      }
  }

  /** A copy names only existing objects. */
  lemma {:induction false} RealizesIn(h: Heap, v: Value, x: Plain, lo: nat)
    requires Realizes(h, v, x, lo)
    ensures ValueIn(h, v)
    decreases x
  {
    if x.PTuple? {
      forall j | 0 <= j < |x.items| ensures ValueIn(h, v.items[j]) {
        RealizesIn(h, v.items[j], x.items[j], lo);
      }
    }
  }

  // ---------------------------------------------------------------------------
  // Flat values

  /** The one value a flat plain value has: no heap object is involved. */
  function FlatValue(x: Plain): (v: Value)
    requires Flat(x)
    decreases x
  {
    if x.PScalar? then Scalar(x.p)
    else Tup(seq(|x.items|, j requires 0 <= j < |x.items| => FlatValue(x.items[j])))
  }

  function FlatValues(ms: seq<Plain>): (vs: seq<Value>)
    requires forall j :: 0 <= j < |ms| ==> Flat(ms[j])
    ensures |vs| == |ms| && forall j :: 0 <= j < |ms| ==> vs[j] == FlatValue(ms[j])
  {
    seq(|ms|, j requires 0 <= j < |ms| => FlatValue(ms[j]))
  }

  lemma {:induction false} FlatRealizes(h: Heap, x: Plain, lo: nat)
    requires Flat(x)
    ensures Realizes(h, FlatValue(x), x, lo)
    decreases x
  {
    if x.PTuple? {
      forall j | 0 <= j < |x.items| ensures Realizes(h, FlatValue(x).items[j], x.items[j], lo) {
        FlatRealizes(h, x.items[j], lo);
      }
    }
  }

  /** Distinct flat values have distinct values: a set of them keeps every member. */
  lemma {:induction false} FlatInjective(x: Plain, y: Plain)
    requires Flat(x) && Flat(y) && FlatValue(x) == FlatValue(y)
    ensures x == y
    decreases x
  {
    if x.PTuple? {
      assert |x.items| == |FlatValue(x).items| == |y.items|;
      forall j | 0 <= j < |x.items| ensures x.items[j] == y.items[j] {
        assert FlatValue(x).items[j] == FlatValue(y).items[j];
        FlatInjective(x.items[j], y.items[j]);
      }
    }
  }

  lemma {:induction false} FlatHashable(h: Heap, x: Plain)
    requires Flat(x)
    ensures Hashable(h, FlatValue(x))
    decreases x
  {
    if x.PTuple? {
      forall j | 0 <= j < |x.items| ensures Hashable(h, FlatValue(x).items[j]) {
        FlatHashable(h, x.items[j]);
      }
    }
  }
}
