/**
 * Encoding a copy of a reference-free value whose objects are all distinct
 * and not yet registered yields exactly the image of the value: no
 * `__ref__` node appears, and exactly the copy's objects get registered.
 */
module EncodePlain {
  import opened Values
  import opened Wire
  import opened Encoder
  import opened PlainValues

  // ---------------------------------------------------------------------------
  // The objects a copy is made of

  /** The children `vs` are copies of the children of `owner`, one for one. */
  predicate KidsRealized(h: Heap, vs: seq<Value>, owner: Plain) {
    |vs| == |Kids(owner)| && forall j :: 0 <= j < |vs| ==> Realizes(h, vs[j], Kids(owner)[j], 0)
  }

  /** The objects of the copy `v` of `x`, in the order the encoder meets them. */
  function Reach(h: Heap, v: Value, x: Plain): seq<ObjId>
    requires Realizes(h, v, x, 0)
    decreases x, 1
  {
    match x
    case PScalar(_) => []
    case PTuple(_) => ReachAll(h, v.items, x, 0)
    case PList(_) => [v.id] + ReachAll(h, h[v.id].items, x, 0)
    case PSet(_) => [v.id] + ReachAll(h, h[v.id].members, x, 0)
    case PDict(_) =>
      DictKids(h, v, x);
      [v.id] + ReachAll(h, EntryValues(h[v.id].entries), x, 0)
  }

  /** The objects of the copies `vs[k..]`, in order. */
  function ReachAll(h: Heap, vs: seq<Value>, owner: Plain, k: nat): seq<ObjId>
    requires KidsRealized(h, vs, owner) && k <= |vs|
    decreases owner, 0, |vs| - k
  {
    if k == |vs| then []
    else
      KidSmaller(owner, k);
      Reach(h, vs[k], Kids(owner)[k]) + ReachAll(h, vs, owner, k + 1)
  }

  lemma ReachAllStep(h: Heap, vs: seq<Value>, owner: Plain, k: nat)
    requires KidsRealized(h, vs, owner) && k < |vs|
    ensures forall i :: i in ReachAll(h, vs, owner, k) <==>
      i in Reach(h, vs[k], Kids(owner)[k]) || i in ReachAll(h, vs, owner, k + 1)
  {
  }

  lemma DictKids(h: Heap, v: Value, x: Plain)
    requires x.PDict? && Realizes(h, v, x, 0)
    ensures KidsRealized(h, EntryValues(h[v.id].entries), x)
  {
    var vs := EntryValues(h[v.id].entries);
    forall j | 0 <= j < |vs| ensures Realizes(h, vs[j], Kids(x)[j], 0) {
      assert vs[j] == h[v.id].entries[j].1 && Kids(x)[j] == x.entries[j].1;
    }
  }

  lemma NoDupSplit(a: seq<ObjId>, b: seq<ObjId>)
    requires NoDup(a + b)
    ensures NoDup(a) && NoDup(b) && forall i :: i in a ==> i !in b
  {
    forall i, j | 0 <= i < j < |a| ensures a[i] != a[j] {
      assert (a + b)[i] == a[i] && (a + b)[j] == a[j];
    }
    forall i, j | 0 <= i < j < |b| ensures b[i] != b[j] {
      assert (a + b)[|a| + i] == b[i] && (a + b)[|a| + j] == b[j];
    }
    forall x | x in a ensures x !in b {
      var i :| 0 <= i < |a| && a[i] == x;
      forall j | 0 <= j < |b| ensures b[j] != x {
        assert (a + b)[i] == a[i] && (a + b)[|a| + j] == b[j];
      }
    }
  }

  // ---------------------------------------------------------------------------
  // The node of a new container

  lemma ListContents(h: Heap, i: ObjId, st0: EncState, bound: nat)
    requires Closed(h) && i < |h| && Pending(h, st0) < bound && h[i].ListObj? && AllIn(h, h[i].items)
    ensures var items := EncSeq(h, h[i].items, 0, [], st0, bound, Ref(i));
      EncContents(h, i, st0, bound) ==
        EncOut(if items.r.Err? then Err(items.r.error) else Ok(TDict([(ListKey, TList(items.r.value))])), items.st)
  {
  }

  lemma SetContents(h: Heap, i: ObjId, st0: EncState, bound: nat)
    requires Closed(h) && i < |h| && Pending(h, st0) < bound && h[i].SetObj? && AllIn(h, h[i].members)
    ensures var items := EncSeq(h, h[i].members, 0, [], st0, bound, Ref(i));
      EncContents(h, i, st0, bound) ==
        EncOut(if items.r.Err? then Err(items.r.error) else Ok(TDict([(SetKey, TList(items.r.value))])), items.st)
  {
  }

  lemma DictContents(h: Heap, i: ObjId, st0: EncState, bound: nat)
    requires Closed(h) && i < |h| && Pending(h, st0) < bound && h[i].DictObj? && AllIn(h, EntryValues(h[i].entries))
    ensures var entries := EncEntries(h, h[i].entries, 0, [], st0, bound, Ref(i));
      EncContents(h, i, st0, bound) ==
        EncOut(if entries.r.Err? then Err(entries.r.error) else Ok(TDict([(DictKey, TDict(entries.r.value))])), entries.st)
  {
  }

  // ---------------------------------------------------------------------------
  // Every copy

  /**
   * Encoding a copy of `x` whose objects are distinct and unregistered
   * yields the image of `x` and registers exactly those objects.
   */
  lemma {:induction false} EncodeImage(h: Heap, v: Value, x: Plain, st: EncState)
    requires Closed(h) && Realizes(h, v, x, 0)
    requires NoDup(Reach(h, v, x)) && forall i :: i in Reach(h, v, x) ==> i !in st.ids
    ensures ValueIn(h, v)
    ensures var o := Enc(h, v, st);
      o.r == Ok(Image(x)) && forall i :: i in o.st.ids <==> i in st.ids || i in Reach(h, v, x)
    decreases x, 3
  {
    RealizesIn(h, v, x, 0);
    match x
    case PScalar(_) =>
    case PTuple(_) => EncodeTuple(h, v, x, st);
    case PList(_) => EncodeList(h, v, x, st);
    case PSet(_) => EncodeSet(h, v, x, st);
    case PDict(_) => EncodeDict(h, v, x, st);
  }

  lemma {:induction false} EncodeTuple(h: Heap, v: Value, x: Plain, st: EncState)
    requires x.PTuple? && Closed(h) && Realizes(h, v, x, 0)
    requires NoDup(Reach(h, v, x)) && forall i :: i in Reach(h, v, x) ==> i !in st.ids
    ensures ValueIn(h, v)
    ensures var o := Enc(h, v, st);
      o.r == Ok(Image(x)) && forall i :: i in o.st.ids <==> i in st.ids || i in Reach(h, v, x)
    decreases x, 2
  {
    RealizesIn(h, v, x, 0);
    var xs := v.items;
    assert AllIn(h, xs);
    NodeChildren(x);
    EncItems(h, xs, x, 0, [], st, Pending(h, st), v);
    assert [] + Node(x).items[0..] == Node(x).items;
  }

  lemma {:induction false} EncodeList(h: Heap, v: Value, x: Plain, st: EncState)
    requires x.PList? && Closed(h) && Realizes(h, v, x, 0)
    requires NoDup(Reach(h, v, x)) && forall i :: i in Reach(h, v, x) ==> i !in st.ids
    ensures ValueIn(h, v)
    ensures var o := Enc(h, v, st);
      o.r == Ok(Image(x)) && forall i :: i in o.st.ids <==> i in st.ids || i in Reach(h, v, x)
    decreases x, 2
  {
    RealizesIn(h, v, x, 0);
    var i := v.id;
    var xs := h[i].items;
    var rest := ReachAll(h, xs, x, 0);
    NoDupSplit([i], rest);
    assert i in Reach(h, v, x);
    assert AllIn(h, Children(h[i]));
    var st0 := Register(st, i);
    EncObjectUnfold(h, i, st);
    ListContents(h, i, st0, Pending(h, st));
    NodeChildren(x);
    EncItems(h, xs, x, 0, [], st0, Pending(h, st), Ref(i));
    assert [] + Node(x).items[0..] == Node(x).items;
  }

  lemma {:induction false} EncodeSet(h: Heap, v: Value, x: Plain, st: EncState)
    requires x.PSet? && Closed(h) && Realizes(h, v, x, 0)
    requires NoDup(Reach(h, v, x)) && forall i :: i in Reach(h, v, x) ==> i !in st.ids
    ensures ValueIn(h, v)
    ensures var o := Enc(h, v, st);
      o.r == Ok(Image(x)) && forall i :: i in o.st.ids <==> i in st.ids || i in Reach(h, v, x)
    decreases x, 2
  {
    RealizesIn(h, v, x, 0);
    var i := v.id;
    var ms := h[i].members;
    var rest := ReachAll(h, ms, x, 0);
    NoDupSplit([i], rest);
    assert i in Reach(h, v, x);
    assert AllIn(h, Children(h[i]));
    var st0 := Register(st, i);
    EncObjectUnfold(h, i, st);
    SetContents(h, i, st0, Pending(h, st));
    NodeChildren(x);
    EncItems(h, ms, x, 0, [], st0, Pending(h, st), Ref(i));
    assert [] + Node(x).items[0..] == Node(x).items;
  }

  lemma {:induction false} EncodeDict(h: Heap, v: Value, x: Plain, st: EncState)
    requires x.PDict? && Closed(h) && Realizes(h, v, x, 0)
    requires NoDup(Reach(h, v, x)) && forall i :: i in Reach(h, v, x) ==> i !in st.ids
    ensures ValueIn(h, v)
    ensures var o := Enc(h, v, st);
      o.r == Ok(Image(x)) && forall i :: i in o.st.ids <==> i in st.ids || i in Reach(h, v, x)
    decreases x, 2
  {
    RealizesIn(h, v, x, 0);
    var i := v.id;
    var es := h[i].entries;
    DictKids(h, v, x);
    var rest := ReachAll(h, EntryValues(es), x, 0);
    NoDupSplit([i], rest);
    assert i in Reach(h, v, x);
    assert AllIn(h, Children(h[i]));
    var st0 := Register(st, i);
    EncObjectUnfold(h, i, st);
    DictContents(h, i, st0, Pending(h, st));
    EncEntryImages(h, es, x, 0, [], st0, Pending(h, st), Ref(i));
    assert [] + Node(x).entries[0..] == Node(x).entries;
  }

  /**
   * The copies `vs[k..]` of the children of a tuple, list or set encode to
   * the images of those children, appended to `acc`.
   */
  lemma {:induction false} EncItems(h: Heap, vs: seq<Value>, owner: Plain, k: nat, acc: seq<Tree>, st: EncState,
                                    bound: nat, ownerV: Value)
    requires Closed(h) && (owner.PTuple? || owner.PList? || owner.PSet?)
    requires KidsRealized(h, vs, owner) && k <= |vs| && AllIn(h, vs)
    requires Pending(h, st) < bound || (Pending(h, st) == bound && ownerV == Tup(vs))
    requires NoDup(ReachAll(h, vs, owner, k)) && forall i :: i in ReachAll(h, vs, owner, k) ==> i !in st.ids
    ensures Node(owner).TList? && |Node(owner).items| == |vs|
    ensures var o := EncSeq(h, vs, k, acc, st, bound, ownerV);
      o.r == Ok(acc + Node(owner).items[k..]) &&
      forall i :: i in o.st.ids <==> i in st.ids || i in ReachAll(h, vs, owner, k)
    decreases owner, 1, |vs| - k
  {
    NodeChildren(owner);
    var imgs := Node(owner).items;
    if k < |vs| {
      var kid := Kids(owner)[k];
      KidSmaller(owner, k);
      NoDupSplit(Reach(h, vs[k], kid), ReachAll(h, vs, owner, k + 1));
      EncodeImage(h, vs[k], kid, st);
      var o := Enc(h, vs[k], st);
      EncSeqStep(h, vs, k, acc, st, bound, ownerV, Image(kid), o.st);
      EncItems(h, vs, owner, k + 1, acc + [Image(kid)], o.st, bound, ownerV);
      ReachAllStep(h, vs, owner, k);
      DropOne(imgs, k);
      AppendStep(acc, imgs[k], imgs[k + 1..]);
    } else {
      assert acc + imgs[k..] == acc;
    }
  }

  /**
   * The entries `es[k..]` of a copy of a dict, under the dict's keys,
   * encode to the entries of the dict's node.
   */
  lemma {:induction false} EncEntryImages(h: Heap, es: Entries, owner: Plain, k: nat, acc: seq<(Prim, Tree)>,
                                          st: EncState, bound: nat, ownerV: Value)
    requires Closed(h) && owner.PDict? && |es| == |owner.entries| && k <= |es|
    requires forall j :: 0 <= j < |es| ==> es[j].0 == owner.entries[j].0
    requires KidsRealized(h, EntryValues(es), owner) && AllIn(h, EntryValues(es))
    requires Pending(h, st) < bound
    requires NoDup(ReachAll(h, EntryValues(es), owner, k)) && forall i :: i in ReachAll(h, EntryValues(es), owner, k) ==> i !in st.ids
    ensures Node(owner).TDict? && |Node(owner).entries| == |es|
    ensures var o := EncEntries(h, es, k, acc, st, bound, ownerV);
      o.r == Ok(acc + Node(owner).entries[k..]) &&
      forall i :: i in o.st.ids <==> i in st.ids || i in ReachAll(h, EntryValues(es), owner, k)
    decreases owner, 1, |es| - k, 1
  {
    PlainKeys(owner);
    var node := Node(owner).entries;
    if k < |es| {
      var st1 := EntryImageStep(h, es, owner, k, acc, st, bound, ownerV);
      ReachAllStep(h, EntryValues(es), owner, k);
      EncEntryImages(h, es, owner, k + 1, acc + [node[k]], st1, bound, ownerV);
      DropOne(node, k);
      AppendStep(acc, node[k], node[k + 1..]);
    } else {
      assert acc + node[k..] == acc;
    }
  }

  /** One step of `EncEntryImages`: the next value encodes to its image, registering exactly its objects. */
  lemma {:induction false} EntryImageStep(h: Heap, es: Entries, owner: Plain, k: nat, acc: seq<(Prim, Tree)>,
                                          st: EncState, bound: nat, ownerV: Value)
    returns (st1: EncState)
    requires Closed(h) && owner.PDict? && |es| == |owner.entries| && k < |es|
    requires forall j :: 0 <= j < |es| ==> es[j].0 == owner.entries[j].0
    requires KidsRealized(h, EntryValues(es), owner) && AllIn(h, EntryValues(es))
    requires Pending(h, st) < bound
    requires NoDup(ReachAll(h, EntryValues(es), owner, k)) && forall i :: i in ReachAll(h, EntryValues(es), owner, k) ==> i !in st.ids
    ensures Node(owner).TDict? && |Node(owner).entries| == |es| && Pending(h, st1) < bound
    ensures EncEntries(h, es, k, acc, st, bound, ownerV) ==
            EncEntries(h, es, k + 1, acc + [Node(owner).entries[k]], st1, bound, ownerV)
    ensures NoDup(ReachAll(h, EntryValues(es), owner, k + 1))
    ensures forall i :: i in ReachAll(h, EntryValues(es), owner, k + 1) ==> i !in st1.ids
    ensures forall i :: i in st1.ids <==> i in st.ids || i in Reach(h, EntryValues(es)[k], Kids(owner)[k])
    decreases owner, 1, |es| - k, 0
  {
    NodeChildren(owner);
    PlainKeys(owner);
    var vs := EntryValues(es);
    var kid := Kids(owner)[k];
    KidSmaller(owner, k);
    assert vs[k] == es[k].1;
    NoDupSplit(Reach(h, vs[k], kid), ReachAll(h, vs, owner, k + 1));
    EncodeImage(h, vs[k], kid, st);
    var o := Enc(h, vs[k], st);
    st1 := o.st;
    EncEntriesNext(h, es, k, acc, st, bound, ownerV, Ok(Image(kid)), o.st);
    assert Node(owner).entries[k] == (es[k].0, Image(kid));
  }
}
