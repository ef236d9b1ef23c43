/**
 * Decoding the image of a reference-free value rebuilds it: every
 * container comes back as a new heap object holding copies of its
 * children, in order.
 */
module DecodePlain {
  import opened Values
  import opened Wire
  import opened Decoder
  import opened DecoderFacts
  import opened PlainValues

  // ---------------------------------------------------------------------------
  // Dispatch on a one-key node

  /** In a node whose only key is `key`, no other key is present. */
  lemma OnlyKey(key: Prim, n: Tree, other: Prim)
    requires other != key
    ensures Find([(key, n)], key) == 0 && !Has([(key, n)], other)
  {
  }

  /** A dict node none of whose keys is a marker has none of the markers the dispatch looks for. */
  lemma NoMarkerKeys(es: seq<(Prim, Tree)>)
    requires forall j :: 0 <= j < |es| ==> es[j].0 !in Markers
    ensures !Has(es, RefKey) && !Has(es, TypeKey) && !Has(es, SetKey) && !Has(es, TupleKey)
    ensures !Has(es, StringIOKey) && !Has(es, BytesIOKey) && !Has(es, PickleKey)
    ensures !Has(es, ListKey) && !Has(es, DictKey)
  {
  }

  lemma DispatchTuple(types: map<string, TypeDesc>, n: Tree, st: DecState)
    ensures Dec(types, TDict([(TupleKey, n)]), st) == DecTuple(types, TDict([(TupleKey, n)]), st)
  {
    OnlyKey(TupleKey, n, RefKey);
    OnlyKey(TupleKey, n, TypeKey);
    OnlyKey(TupleKey, n, SetKey);
  }

  lemma DispatchSet(types: map<string, TypeDesc>, n: Tree, st: DecState)
    ensures Dec(types, TDict([(SetKey, n)]), st) == DecSet(types, TDict([(SetKey, n)]), st)
  {
    OnlyKey(SetKey, n, RefKey);
    OnlyKey(SetKey, n, TypeKey);
  }

  lemma DispatchDictMarker(types: map<string, TypeDesc>, n: Tree, st: DecState)
    ensures Dec(types, TDict([(DictKey, n)]), st) == DecDictMarker(types, TDict([(DictKey, n)]), st)
  {
    OnlyKey(DictKey, n, RefKey);
    OnlyKey(DictKey, n, TypeKey);
    OnlyKey(DictKey, n, SetKey);
    OnlyKey(DictKey, n, TupleKey);
    OnlyKey(DictKey, n, StringIOKey);
    OnlyKey(DictKey, n, BytesIOKey);
    OnlyKey(DictKey, n, PickleKey);
    OnlyKey(DictKey, n, ListKey);
  }

  lemma DispatchPlainDict(types: map<string, TypeDesc>, es: seq<(Prim, Tree)>, st: DecState)
    requires forall j :: 0 <= j < |es| ==> es[j].0 !in Markers
    ensures Dec(types, TDict(es), st) == DecPlainDict(types, TDict(es), st)
  {
    NoMarkerKeys(es);
  }

  // ---------------------------------------------------------------------------
  // Flat values decode without touching the state

  lemma {:induction false} FlatDecodes(types: map<string, TypeDesc>, x: Plain, st: DecState)
    requires Flat(x)
    ensures Dec(types, Image(x), st) == DecOut(Ok(FlatValue(x)), st)
    decreases x, 1
  {
    if x.PTuple? {
      var node := Node(x);
      NodeChildren(x);
      DispatchTuple(types, node, st);
      OnlyKey(TupleKey, node, RefKey);
      FlatItems(types, x, 0, st);
      assert FlatValues(x.items)[..0] == [];
      assert FlatValue(x) == Tup(FlatValues(x.items));
    }
  }

  /** The items `k..` of a flat tuple decode to their values, the state unchanged. */
  lemma {:induction false} FlatItems(types: map<string, TypeDesc>, x: Plain, k: nat, st: DecState)
    requires x.PTuple? && Flat(x) && k <= |x.items|
    ensures var vs := FlatValues(x.items);
      DecEach(types, Node(x), k, vs[..k], Collect, st) == DecSeqOut(Ok(vs), st)
    decreases x, 0, |x.items| - k
  {
    var vs := FlatValues(x.items);
    var node := Node(x);
    NodeChildren(x);
    if k < |x.items| {
      KidSmaller(x, k);
      FlatDecodes(types, x.items[k], st);
      DecEachStep(types, node, k, vs[..k], Collect, st, vs[k], st, st);
      TakeOneMore(vs, k);
      FlatItems(types, x, k + 1, st);
    } else {
      assert vs[..k] == vs;
    }
  }

  // ---------------------------------------------------------------------------
  // Sets

  /**
   * Adding the distinct flat members `k..` one by one to the set at `id`,
   * which holds the first `k`, leaves it holding all of them in order.
   */
  lemma {:induction false} AddsFlat(types: map<string, TypeDesc>, x: Plain, k: nat, id: ObjId, st: DecState)
    requires x.PSet? && WellFormed(x) && k <= |x.members| && id < |st.heap|
    requires st.heap[id] == SetObj(FlatValues(x.members)[..k])
    ensures var vs := FlatValues(x.members);
      DecEach(types, Node(x), k, vs[..k], AddTo(id), st) == DecSeqOut(Ok(vs), st.(heap := st.heap[id := SetObj(vs)]))
    decreases |x.members| - k
  {
    var vs := FlatValues(x.members);
    if k < |x.members| {
      var st2 := AddStep(types, x, k, id, st);
      AddsFlat(types, x, k + 1, id, st2);
      UpdateTwice(st, id, SetObj(vs[..k + 1]), SetObj(vs));
    } else {
      assert vs[..k] == vs;
      assert st.(heap := st.heap[id := SetObj(vs)]) == st;
    }
  }

  /** One step of `AddsFlat`: the next member's value is added at the end. */
  lemma AddStep(types: map<string, TypeDesc>, x: Plain, k: nat, id: ObjId, st: DecState) returns (st2: DecState)
    requires x.PSet? && WellFormed(x) && k < |x.members| && id < |st.heap|
    requires st.heap[id] == SetObj(FlatValues(x.members)[..k])
    ensures var vs := FlatValues(x.members);
      st2 == st.(heap := st.heap[id := SetObj(vs[..k + 1])]) &&
      DecEach(types, Node(x), k, vs[..k], AddTo(id), st) == DecEach(types, Node(x), k + 1, vs[..k + 1], AddTo(id), st2)
  {
    var vs := FlatValues(x.members);
    var node := Node(x);
    NodeChildren(x);
    var v := vs[k];
    FlatDecodes(types, x.members[k], st);
    FlatHashable(st.heap, x.members[k]);
    FlatFresh(x, k);
    TakeOneMore(vs, k);
    st2 := st.(heap := st.heap[id := SetObj(vs[..k + 1])]);
    assert Deliver(st, AddTo(id), Key(node, k), v) == Ok(st2);
    DecEachStep(types, node, k, vs[..k], AddTo(id), st, v, st, st2);
  }

  lemma UpdateTwice(st: DecState, id: ObjId, a: Obj, b: Obj)
    requires id < |st.heap|
    ensures var st1 := st.(heap := st.heap[id := a]); st1.(heap := st1.heap[id := b]) == st.(heap := st.heap[id := b])
  {
  }

  /** The `k`-th member's value is not among the values of the members before it. */
  lemma FlatFresh(x: Plain, k: nat)
    requires x.PSet? && WellFormed(x) && k < |x.members|
    ensures FlatValues(x.members)[k] !in FlatValues(x.members)[..k]
  {
    var vs := FlatValues(x.members);
    if vs[k] in vs[..k] {
      var j :| 0 <= j < k && vs[..k][j] == vs[k];
      FlatInjective(x.members[j], x.members[k]);
      assert false;
    }
  }

  // ---------------------------------------------------------------------------
  // Dicts

  /** Storing entries with keys new to the dict at `id` appends them in order. */
  lemma {:induction false} PutAllAppends(st: DecState, id: ObjId, d: Entries, items: Entries)
    requires id < |st.heap| && st.heap[id] == DictObj(d) && DistinctKeys(d + items)
    ensures var st2 := PutAll(st, id, items); id < |st2.heap| && st2.heap[id] == DictObj(d + items)
    decreases |items|
  {
    if items != [] {
      var k, v := items[0].0, items[0].1;
      NextKeyFresh(d, items);
      var st1 := UpdateAt(st, id, WithEntry(At(st, id), k, v));
      assert st1.heap[id] == DictObj(d + [items[0]]);
      MoveFirst(d, items);
      PutAllAppends(st1, id, d + [items[0]], items[1..]);
    } else {
      assert d + items == d;
    }
  }

  /** The first key of `items` is not yet among the keys of `d`. */
  lemma NextKeyFresh(d: Entries, items: Entries)
    requires DistinctKeys(d + items) && items != []
    ensures Find(d, items[0].0) < 0
  {
    assert (d + items)[|d|] == items[0];
    forall j | 0 <= j < |d| ensures d[j].0 != items[0].0 {
      assert (d + items)[j] == d[j];
    }
  }

  lemma MoveFirst<T>(d: seq<T>, items: seq<T>)
    requires items != []
    ensures d + [items[0]] + items[1..] == d + items
  {
  }

  // ---------------------------------------------------------------------------
  // Every well-formed value

  /** Objects at or above `lo` are the same in `st.heap` and `st2.heap` when only `e < lo` changed in between. */
  lemma FrameAbove(st: DecState, st1: DecState, st2: DecState, e: int, lo: nat)
    requires Grows(st, st1) && GrowsExcept(st1, st2, e) && e < lo
    ensures |st.heap| <= |st2.heap| && forall j :: lo <= j < |st.heap| ==> st2.heap[j] == st.heap[j]
  {
  }

  /**
   * Decoding the image of a well-formed value succeeds and yields a copy of
   * it whose objects are all new.
   */
  lemma {:induction false} DecodeImage(types: map<string, TypeDesc>, x: Plain, st: DecState)
    requires WellFormed(x)
    ensures var o := Dec(types, Image(x), st); o.r.Ok? && Realizes(o.st.heap, o.r.value, x, |st.heap|)
    decreases x, 4
  {
    match x
    case PScalar(_) =>
    case PTuple(_) => DecodeTuple(types, x, st);
    case PList(_) => DecodeList(types, x, st);
    case PSet(_) => DecodeSet(types, x, st);
    case PDict(_) => DecodeDict(types, x, st);
  }

  lemma {:induction false} DecodeTuple(types: map<string, TypeDesc>, x: Plain, st: DecState)
    requires x.PTuple? && WellFormed(x)
    ensures var o := Dec(types, Image(x), st); o.r.Ok? && Realizes(o.st.heap, o.r.value, x, |st.heap|)
    decreases x, 3
  {
    var node := Node(x);
    NodeChildren(x);
    DispatchTuple(types, node, st);
    OnlyKey(TupleKey, node, RefKey);
    EachImages(types, x, 0, [], Collect, st, |st.heap|);
  }

  lemma {:induction false} DecodeList(types: map<string, TypeDesc>, x: Plain, st: DecState)
    requires x.PList? && WellFormed(x)
    ensures var o := Dec(types, Image(x), st); o.r.Ok? && Realizes(o.st.heap, o.r.value, x, |st.heap|)
    decreases x, 3
  {
    var node := Node(x);
    var id := |st.heap|;
    var st1 := BindNew(st, ListObj([]));
    NodeChildren(x);
    OnlyListKey(node);
    DispatchListMarker(types, Image(x), st);
    EachImages(types, x, 0, [], AppendTo(id), st1, id + 1);
    AppendsInOrder(types, node, 0, [], id, st1);
    var out := DecEach(types, node, 0, [], AppendTo(id), st1);
    assert Dec(types, node, st) == DecOut(Ok(Ref(id)), out.st);
    forall j | 0 <= j < |x.items| ensures Realizes(out.st.heap, out.st.heap[id].items[j], x.items[j], id) {
      RealizesLower(out.st.heap, out.r.value[j], x.items[j], id + 1, id);
    }
  }

  lemma {:induction false} DecodeSet(types: map<string, TypeDesc>, x: Plain, st: DecState)
    requires x.PSet? && WellFormed(x)
    ensures var o := Dec(types, Image(x), st); o.r.Ok? && Realizes(o.st.heap, o.r.value, x, |st.heap|)
    decreases x, 3
  {
    var node := Node(x);
    var id := |st.heap|;
    var st1 := BindNew(st, SetObj([]));
    var vs := FlatValues(x.members);
    NodeChildren(x);
    DispatchSet(types, node, st);
    OnlyKey(SetKey, node, RefKey);
    assert vs[..0] == [];
    AddsFlat(types, x, 0, id, st1);
    var h := st1.heap[id := SetObj(vs)];
    forall j | 0 <= j < |x.members| ensures Realizes(h, vs[j], x.members[j], id) {
      FlatRealizes(h, x.members[j], id);
    }
  }

  lemma {:induction false} DecodeDict(types: map<string, TypeDesc>, x: Plain, st: DecState)
    requires x.PDict? && WellFormed(x)
    ensures var o := Dec(types, Image(x), st); o.r.Ok? && Realizes(o.st.heap, o.r.value, x, |st.heap|)
    decreases x, 3
  {
    var node := Node(x);
    var es := x.entries;
    var id := |st.heap|;
    var st1 := BindNew(st, DictObj([]));
    var id2 := id + 1;
    DispatchDictMarker(types, node, st);
    PlainKeys(x);
    PlainDictUnfold(types, node.entries, st1);
    InnerEntries(types, x, id2, BindNew(st1, DictObj([])));
    var inner := Dec(types, node, st1);
    var items := inner.st.heap[id2].entries;
    DictMarkerStep(types, node, st, Ref(id2), inner.st, items);
    assert [] + items == items;
    PutAllAppends(inner.st, id, [], items);
    var fin := PutAll(inner.st, id, items);
    FrameAbove(inner.st, inner.st, fin, id, id2 + 1);
    forall j | 0 <= j < |es| ensures Realizes(fin.heap, items[j].1, es[j].1, id) {
      RealizesFrame(inner.st.heap, fin.heap, items[j].1, es[j].1, id2 + 1);
      RealizesLower(fin.heap, items[j].1, es[j].1, id2 + 1, id);
    }
  }

  /** `{'__dict__': n}`: when `n` decodes to a dict, its entries are copied into the dict bound first. */
  lemma DictMarkerStep(types: map<string, TypeDesc>, n: Tree, st: DecState, r: Value, s: DecState, items: Entries)
    requires Dec(types, n, BindNew(st, DictObj([]))) == DecOut(Ok(r), s) && ItemsOf(s.heap, r) == Ok(items)
    ensures DecDictMarker(types, TDict([(DictKey, n)]), st) == DecOut(Ok(Ref(|st.heap|)), PutAll(s, |st.heap|, items))
  {
    OnlyKey(DictKey, n, RefKey);
  }

  /**
   * The dict node inside `{'__dict__': …}` has no marker keys: its values
   * are decoded into a new dict at `id`, each under its key, in order.
   */
  lemma {:induction false} InnerEntries(types: map<string, TypeDesc>, x: Plain, id: ObjId, st: DecState)
    requires x.PDict? && WellFormed(x) && id + 1 == |st.heap| && st.heap[id] == DictObj([])
    ensures var out := DecEach(types, Node(x), 0, [], EntryOf(id), st); var es := x.entries;
      out.r.Ok? && id < |out.st.heap| && out.st.heap[id].DictObj? &&
      |out.st.heap[id].entries| == |es| && DistinctKeys(out.st.heap[id].entries) &&
      forall j :: 0 <= j < |es| ==>
        out.st.heap[id].entries[j].0 == es[j].0 && Realizes(out.st.heap, out.st.heap[id].entries[j].1, es[j].1, id + 1)
    decreases x, 1
  {
    var node := Node(x);
    var es := x.entries;
    NodeChildren(x);
    PlainKeys(x);
    EachImages(types, x, 0, [], EntryOf(id), st, id + 1);
    assert Keys(node.entries)[..0] == [];
    StoresEntries(types, node, 0, [], id, st);
    var out := DecEach(types, node, 0, [], EntryOf(id), st);
    EntriesMatch(out.st.heap[id].entries, node.entries, out.r.value);
  }

  /** A dict node without marker keys binds a new dict and stores each decoded value in it. */
  lemma PlainDictUnfold(types: map<string, TypeDesc>, es: seq<(Prim, Tree)>, st: DecState)
    requires forall j :: 0 <= j < |es| ==> es[j].0 !in Markers
    ensures var id := |st.heap|;
      var o := DecEach(types, TDict(es), 0, [], EntryOf(id), BindNew(st, DictObj([])));
      Dec(types, TDict(es), st) == DecOut(if o.r.Err? then Err(o.r.error) else Ok(Ref(id)), o.st)
  {
    DispatchPlainDict(types, es, st);
  }

  /** Entries with the keys of `nes` and the values `vs` pair them up position by position. */
  lemma EntriesMatch(items: Entries, nes: seq<(Prim, Tree)>, vs: seq<Value>)
    requires Keys(items) == Keys(nes) && EntryValues(items) == vs
    ensures |items| == |nes| == |vs| && forall j :: 0 <= j < |items| ==> items[j].0 == nes[j].0 && items[j].1 == vs[j]
  {
    forall j | 0 <= j < |items| ensures items[j].0 == nes[j].0 && items[j].1 == vs[j] {
      assert Keys(items)[j] == Keys(nes)[j];
      assert EntryValues(items)[j] == vs[j];
    }
  }

  /**
   * The children `k..` of a tuple, list or dict decode in order to copies of
   * the child values; `acc` already holds copies of the first `k`. Only the
   * object at the sink, below `lo`, changes besides new objects, so earlier
   * copies stay copies.
   */
  lemma {:induction false} EachImages(types: map<string, TypeDesc>, owner: Plain, k: nat, acc: seq<Value>,
                                      sink: Sink, st: DecState, lo: nat)
    requires WellFormed(owner) && !owner.PScalar? && !owner.PSet?
    requires k <= |Kids(owner)| && |acc| == k
    requires sink.AppendTo? || sink.EntryOf? || sink.Collect?
    requires !sink.Collect? ==> sink.id < lo
    requires lo <= |st.heap|
    requires forall j :: 0 <= j < k ==> Realizes(st.heap, acc[j], Kids(owner)[j], lo)
    ensures var out := DecEach(types, Node(owner), k, acc, sink, st);
      out.r.Ok? && |out.r.value| == |Kids(owner)| &&
      forall j :: 0 <= j < |Kids(owner)| ==> Realizes(out.st.heap, out.r.value[j], Kids(owner)[j], lo)
    decreases owner, 0, |Kids(owner)| - k
  {
    var node := Node(owner);
    var kids := Kids(owner);
    NodeChildren(owner);
    if k < |kids| {
      KidSmaller(owner, k);
      KidWellFormed(owner, k);
      DecodeImage(types, kids[k], st);
      var o := Dec(types, Child(node, k), st);
      var v := o.r.value;
      var e := if sink.Collect? then -1 else sink.id;
      var st2 := Deliver(o.st, sink, Key(node, k), v).value;
      DecEachStep(types, node, k, acc, sink, st, v, o.st, st2);
      FrameAbove(st, o.st, st2, e, lo);
      FrameAbove(o.st, o.st, st2, e, lo);
      var acc2 := acc + [v];
      forall j | 0 <= j < k + 1 ensures Realizes(st2.heap, acc2[j], kids[j], lo) {
        if j < k {
          RealizesFrame(st.heap, st2.heap, acc[j], kids[j], lo);
        } else {
          RealizesLower(o.st.heap, v, kids[k], |st.heap|, lo);
          RealizesFrame(o.st.heap, st2.heap, v, kids[k], lo);
        }
      }
      EachImages(types, owner, k + 1, acc2, sink, st2, lo);
    }
  }
}
