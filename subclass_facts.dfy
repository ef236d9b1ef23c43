/**
 * What a typed node leaves in the list or dict storage of the instance it
 * builds: `obj.extend(…)` fills a list subclass with the decoded
 * `__list__` items, and with a truthy `__custom_dict__` the decoded
 * `__dict__` items are assigned with `obj[key] = value`, becoming the
 * entries of a dict subclass or replacing items of a list subclass.
 */
module SubclassFacts {
  import opened Values
  import opened Wire
  import opened Decoder
  import opened DecoderFacts
  import opened ObjectFacts
  import DecodePlain
  import IterationFacts

  // ---------------------------------------------------------------------------
  // Item assignment on a list subclass

  /**
   * What position `p` of a list of length `n` holds after `obj[key] = value`
   * for every entry of `es`: the value of the last entry whose key names
   * `p`, or `d` when none does.
   */
  function LastFor(es: Entries, n: nat, p: nat, d: Value): Value
    decreases |es|
  {
    if es == [] then d
    else if ItemIndex(es[|es| - 1].0, n) == Ok(p) then es[|es| - 1].1
    else LastFor(es[..|es| - 1], n, p, d)
  }

  /** Every key of `es` names a position of a list of length `n`. */
  predicate AllIndices(es: Entries, n: nat) {
    forall j :: 0 <= j < |es| ==> ItemIndex(es[j].0, n).Ok?
  }

  /** `y` is the list-subclass instance `x` after assigning every entry of `es`, the last assignment to a position winning. */
  predicate AssignedFrom(y: Obj, x: Obj, es: Entries)
    requires x.Instance? && x.payload.ListPayload?
  {
    var xs := x.payload.items;
    y.Instance? && y.cls == x.cls && y.attrs == x.attrs && y.payload.ListPayload? &&
    |y.payload.items| == |xs| && forall p :: 0 <= p < |xs| ==> y.payload.items[p] == LastFor(es, |xs|, p, xs[p])
  }

  /** Reading `LastFor` from the front: the first entry sets the default the later ones may override. */
  lemma {:induction false} LastForCons(es: Entries, n: nat, p: nat, d: Value)
    requires es != []
    ensures LastFor(es, n, p, d) == LastFor(es[1..], n, p, if ItemIndex(es[0].0, n) == Ok(p) then es[0].1 else d)
    decreases |es|
  {
    var m := |es| - 1;
    if m > 0 && ItemIndex(es[m].0, n) != Ok(p) {
      var init := es[..m];
      assert init[0] == es[0] && init[1..] == es[1..][..m - 1];
      assert es[1..][m - 1] == es[m];
      LastForCons(init, n, p, d);
    }
  }

  /** One assignment: the item the key names is replaced, and every other position keeps its value. */
  lemma AssignStep(x: Obj, es: Entries, y: Obj, d: Obj)
    requires x.Instance? && x.payload.ListPayload? && es != []
    requires WithItem(x, es[0].0, es[0].1) == Ok(d) && AssignedFrom(y, d, es[1..])
    ensures AssignedFrom(y, x, es)
  {
    var xs, n := x.payload.items, |x.payload.items|;
    var i := ItemIndex(es[0].0, n).value;
    assert d == Instance(x.cls, x.attrs, ListPayload(xs[i := es[0].1]));
    forall p | 0 <= p < n
      ensures y.payload.items[p] == LastFor(es, n, p, xs[p])
    {
      LastForCons(es, n, p, xs[p]);
    }
  }

  /**
   * `for key, value in items: obj[key] = value` on a list-subclass instance
   * succeeds exactly when every key is an int or bool naming a position of
   * the list, and then each position holds the value of the last entry
   * naming it, the others keeping their items; the class and attributes
   * are untouched and the list keeps its length.
   */
  lemma {:induction false} SetItemsLastWins(st: DecState, id: ObjId, es: Entries)
    requires id < |st.heap| && st.heap[id].Instance? && st.heap[id].payload.ListPayload?
    ensures var out := SetItems(st, id, es); var x := st.heap[id];
      (out.r.Ok? <==> AllIndices(es, |x.payload.items|)) &&
      (out.r.Ok? ==> AssignedFrom(out.st.heap[id], x, es))
    decreases |es|
  {
    var x := st.heap[id];
    var n := |x.payload.items|;
    if es == [] {
      assert AssignedFrom(x, x, es);
    } else {
      var d := WithItem(x, es[0].0, es[0].1);
      if d.Ok? {
        var st1 := UpdateAt(st, id, d.value);
        SetItemsLastWins(st1, id, es[1..]);
        var out := SetItems(st1, id, es[1..]);
        assert AllIndices(es, n) <==> AllIndices(es[1..], n) by {
          assert forall j :: 1 <= j < |es| ==> es[j] == es[1..][j - 1];
        }
        if out.r.Ok? {
          AssignStep(x, es, out.st.heap[id], d.value);
        }
      }
    }
  }

  // ---------------------------------------------------------------------------
  // List subclasses

  /**
   * `obj.extend` with a `__list__` list node: a new list holding the
   * decoded items takes the next ordinal, and the instance at `id` gets
   * those items appended.
   */
  lemma ExtendByList(types: map<string, TypeDesc>, t: Tree, items: seq<Tree>, id: ObjId, cls: TypeDesc,
                     st: DecState)
    requires t.TDict? && Has(t.entries, ListKey) && t.entries[Find(t.entries, ListKey)].1 == TList(items)
    requires cls.layout == ListLayout && id < |st.heap| && st.heap[id].Instance? && st.heap[id].payload.ListPayload?
    ensures var o := DecExtend(types, t, id, cls, st); var x := st.heap[id]; var lid := |st.heap|;
      var each := DecEach(types, TList(items), 0, [], AppendTo(lid), BindNew(st, ListObj([])));
      o.r.Ok? ==> each.r.Ok? && |each.r.value| == |items| && lid < |o.st.heap| &&
                  o.st.heap[lid] == ListObj(each.r.value) &&
                  o.st.heap[id] == Instance(x.cls, x.attrs, ListPayload(x.payload.items + each.r.value))
  {
    var lid := |st.heap|;
    var o := Dec(types, TList(items), st);
    assert t.entries[Find(t.entries, ListKey)].1 == TList(items);
    IterationFacts.ExtendUnfold(types, t, id, cls, st);
    ListBoundBeforeItems(types, items, st);
    if o.r.Ok? {
      ExtendedFrom(o, st, id, lid, DecExtend(types, t, id, cls, st));
    }
  }

  /** The last step of `ExtendByList`, on an abstract decoding of the `__list__` node. */
  lemma ExtendedFrom(o: DecOut, st: DecState, id: ObjId, lid: ObjId, out: DecOut)
    requires id < |st.heap| == lid && st.heap[id].Instance? && st.heap[id].payload.ListPayload?
    requires Grows(st, o.st) && o.r == Ok(Ref(lid)) && lid < |o.st.heap| && o.st.heap[lid].ListObj?
    requires IterItems(o.st.heap, o.r.value).Ok? ==>
      out == DecOut(Ok(Ref(id)), UpdateAt(o.st, id, Extended(At(o.st, id), IterItems(o.st.heap, o.r.value).value)))
    ensures var x := st.heap[id]; var each := o.st.heap[lid].items;
      lid < |out.st.heap| && out.st.heap[lid] == ListObj(each) &&
      out.st.heap[id] == Instance(x.cls, x.attrs, ListPayload(x.payload.items + each))
  {
    assert IterItems(o.st.heap, o.r.value) == Ok(o.st.heap[lid].items);
    assert At(o.st, id) == st.heap[id];
  }

  /**
   * A typed node with a `__list__` list node and no truthy
   * `__custom_dict__`, the node the encoder writes for a list subclass,
   * ends, on success, with an instance of the resolved list-layout class
   * holding exactly the decoded `__list__` items, in order; the list they
   * were first decoded into holds the next ordinal's object.
   */
  lemma ListSubclassFilled(types: map<string, TypeDesc>, es: seq<(Prim, Tree)>, items: seq<Tree>, st: DecState)
    requires !Has(es, RefKey) && Has(es, TypeKey) && Has(es, DictKey)
    requires Has(es, ListKey) && es[Find(es, ListKey)].1 == TList(items)
    requires !Has(es, CustomDictKey) || !Truthy(es[Find(es, CustomDictKey)].1)
    ensures var o := Dec(types, TDict(es), st); var c := ClassFor(types, es[Find(es, TypeKey)].1, BasesNode(es));
      var id := |st.heap|;
      o.r.Ok? ==> c.Ok? && c.value.layout == ListLayout &&
                  var each := DecEach(types, TList(items), 0, [], AppendTo(id + 1),
                                      BindNew(BindNew(st, EmptyInstance(c.value)), ListObj([])));
                  each.r.Ok? && |each.r.value| == |items| && id + 1 < |o.st.heap| &&
                  o.st.heap[id].Instance? && o.st.heap[id].cls == c.value &&
                  o.st.heap[id].payload == ListPayload(each.r.value) && o.st.heap[id + 1] == ListObj(each.r.value)
  {
    TypedUnfold(types, es, st);
    var c := ClassFor(types, es[Find(es, TypeKey)].1, BasesNode(es));
    if c.Ok? {
      ListPieces(types, TDict(es), items, c.value, st);
    }
  }

  /** The steps of `DecTyped` for a list-subclass node once the class is resolved. */
  lemma ListPieces(types: map<string, TypeDesc>, t: Tree, items: seq<Tree>, cls: TypeDesc, st: DecState)
    requires t.TDict? && Has(t.entries, DictKey)
    requires Has(t.entries, ListKey) && t.entries[Find(t.entries, ListKey)].1 == TList(items)
    requires !Has(t.entries, CustomDictKey) || !Truthy(t.entries[Find(t.entries, CustomDictKey)].1)
    ensures var id := |st.heap|; var st1 := BindNew(st, EmptyInstance(cls)); var ext := DecExtend(types, t, id, cls, st1);
      var o := if ext.r.Err? then ext else DecFields(types, t, id, cls, ext.st);
      o.r.Ok? ==> cls.layout == ListLayout &&
                  var each := DecEach(types, TList(items), 0, [], AppendTo(id + 1), BindNew(st1, ListObj([])));
                  each.r.Ok? && |each.r.value| == |items| && id + 1 < |o.st.heap| &&
                  o.st.heap[id].Instance? && o.st.heap[id].cls == cls &&
                  o.st.heap[id].payload == ListPayload(each.r.value) && o.st.heap[id + 1] == ListObj(each.r.value)
  {
    var id := |st.heap|;
    var st1 := BindNew(st, EmptyInstance(cls));
    var ext := DecExtend(types, t, id, cls, st1);
    if cls.layout == ListLayout {
      ExtendByList(types, t, items, id, cls, st1);
      var each := DecEach(types, TList(items), 0, [], AppendTo(id + 1), BindNew(st1, ListObj([])));
      if ext.r.Ok? {
        assert [] + each.r.value == each.r.value;
        ListFieldsKept(types, t, id, cls, ext.st, each.r.value);
      }
    }
  }

  /** The `__dict__` part leaves a list-subclass instance holding `vs`, and the list at the next ordinal, as they were. */
  lemma ListFieldsKept(types: map<string, TypeDesc>, t: Tree, id: ObjId, cls: TypeDesc, st: DecState, vs: seq<Value>)
    requires t.TDict? && Has(t.entries, DictKey)
    requires !Has(t.entries, CustomDictKey) || !Truthy(t.entries[Find(t.entries, CustomDictKey)].1)
    requires id + 1 < |st.heap| && st.heap[id] == Instance(cls, [], ListPayload(vs)) && st.heap[id + 1] == ListObj(vs)
    ensures var o := DecFields(types, t, id, cls, st);
      id + 1 < |o.st.heap| && o.st.heap[id].Instance? && o.st.heap[id].cls == cls &&
      o.st.heap[id].payload == ListPayload(vs) && o.st.heap[id + 1] == ListObj(vs)
  {
    FilledKept(types, t, id, cls, st, id + 1);
  }

  /**
   * The `__dict__` part without a truthy `__custom_dict__` keeps the
   * instance's class and payload, and leaves every other old object as it
   * was.
   */
  lemma FilledKept(types: map<string, TypeDesc>, t: Tree, id: ObjId, cls: TypeDesc, st: DecState, other: ObjId)
    requires t.TDict? && Has(t.entries, DictKey) && id < |st.heap| && st.heap[id].Instance?
    requires !Has(t.entries, CustomDictKey) || !Truthy(t.entries[Find(t.entries, CustomDictKey)].1)
    requires other < |st.heap| && other != id
    ensures var o := DecFields(types, t, id, cls, st);
      id < |o.st.heap| && SameShell(o.st.heap[id], st.heap[id]) && o.st.heap[other] == st.heap[other]
  {
    var dictNode := t.entries[Find(t.entries, DictKey)].1;
    if dictNode.TDict? {
      AttrsKeepClass(types, dictNode, 0, [], id, st);
    }
  }

  // ---------------------------------------------------------------------------
  // Dict subclasses

  /** Storing entries with keys new to a dict-subclass instance appends them to its entries in order. */
  lemma {:induction false} PutAllFillsPayload(st: DecState, id: ObjId, d: Entries, items: Entries)
    requires id < |st.heap| && st.heap[id].Instance? && st.heap[id].payload == DictPayload(d)
    requires DistinctKeys(d + items)
    ensures var st2 := PutAll(st, id, items); var x := st.heap[id];
      id < |st2.heap| && st2.heap[id] == Instance(x.cls, x.attrs, DictPayload(d + items))
    decreases |items|
  {
    if items != [] {
      var x, k, v := st.heap[id], items[0].0, items[0].1;
      DecodePlain.NextKeyFresh(d, items);
      var st1 := UpdateAt(st, id, WithEntry(At(st, id), k, v));
      assert st1.heap[id] == Instance(x.cls, x.attrs, DictPayload(d + [items[0]]));
      DecodePlain.MoveFirst(d, items);
      PutAllFillsPayload(st1, id, d + [items[0]], items[1..]);
    } else {
      assert d + items == d;
    }
  }

  /** Keys equal to those of a sequence with distinct keys are distinct. */
  lemma SameKeysDistinct<V, W>(a: seq<(Prim, V)>, b: seq<(Prim, W)>)
    requires Keys(a) == Keys(b) && DistinctKeys(b)
    ensures DistinctKeys(a)
  {
    forall i, j | 0 <= i < j < |a|
      ensures a[i].0 != a[j].0
    {
      assert Keys(a)[i] == b[i].0 && Keys(a)[j] == b[j].0;
    }
  }

  /** The custom-dict step on a dict-layout class: decode the `__dict__` node, then store its items in the instance. */
  lemma CustomDictUnfold(types: map<string, TypeDesc>, t: Tree, id: ObjId, cls: TypeDesc, st: DecState)
    requires t.TDict? && Has(t.entries, DictKey) && id < |st.heap|
    requires Has(t.entries, CustomDictKey) && Truthy(t.entries[Find(t.entries, CustomDictKey)].1)
    requires cls.layout == DictLayout
    ensures var o := Dec(types, t.entries[Find(t.entries, DictKey)].1, st); var out := DecFields(types, t, id, cls, st);
      out.r.Ok? ==> o.r.Ok? && ItemsOf(o.st.heap, o.r.value).Ok? &&
                    out.st == PutAll(o.st, id, ItemsOf(o.st.heap, o.r.value).value)
  {
  }

  /** Storing the entries of a new dict decoded with the keys of `fs` fills the empty dict-subclass instance at `id` with them. */
  lemma FillFromInner(st: DecState, inner: DecOut, id: ObjId, fs: seq<(Prim, Tree)>)
    requires Grows(st, inner.st) && DistinctKeys(fs)
    requires id < |st.heap| && st.heap[id].Instance? && st.heap[id].payload == DictPayload([])
    requires inner.r.Ok? ==> inner.r.value == Ref(|st.heap|) && |st.heap| < |inner.st.heap| &&
                             inner.st.heap[|st.heap|].DictObj? && Keys(inner.st.heap[|st.heap|].entries) == Keys(fs)
    ensures var did := |st.heap|; var x := st.heap[id];
      inner.r.Ok? ==> var e := inner.st.heap[did].entries; var st2 := PutAll(inner.st, id, e);
                      ItemsOf(inner.st.heap, inner.r.value) == Ok(e) && did < |st2.heap| &&
                      st2.heap[did] == inner.st.heap[did] && st2.heap[id] == Instance(x.cls, x.attrs, DictPayload(e))
  {
    if inner.r.Ok? {
      var e := inner.st.heap[|st.heap|].entries;
      assert inner.st.heap[id] == st.heap[id];
      SameKeysDistinct(e, fs);
      assert [] + e == e;
      PutAllFillsPayload(inner.st, id, [], e);
    }
  }

  /**
   * The custom-dict step on a dict-subclass instance with no entries yet,
   * for a `__dict__` node without markers: the decoded plain dict takes the
   * next ordinal and its entries become the instance's, in order.
   */
  lemma CustomDictFills(types: map<string, TypeDesc>, t: Tree, fs: seq<(Prim, Tree)>, id: ObjId, cls: TypeDesc,
                        st: DecState)
    requires t.TDict? && Has(t.entries, DictKey) && t.entries[Find(t.entries, DictKey)].1 == TDict(fs)
    requires Has(t.entries, CustomDictKey) && Truthy(t.entries[Find(t.entries, CustomDictKey)].1)
    requires (forall j :: 0 <= j < |fs| ==> fs[j].0 !in Markers) && DistinctKeys(fs)
    requires cls.layout == DictLayout && id < |st.heap| && st.heap[id].Instance? && st.heap[id].payload == DictPayload([])
    ensures var o := DecFields(types, t, id, cls, st); var x := st.heap[id]; var did := |st.heap|;
      o.r.Ok? ==> did < |o.st.heap| && o.st.heap[did].DictObj? && Keys(o.st.heap[did].entries) == Keys(fs) &&
                  o.st.heap[id] == Instance(x.cls, x.attrs, DictPayload(o.st.heap[did].entries))
  {
    CustomDictUnfold(types, t, id, cls, st);
    PlainDictBoundBeforeItems(types, fs, st);
    FillFromInner(st, Dec(types, TDict(fs), st), id, fs);
  }

  /**
   * A typed node with a truthy `__custom_dict__` whose `__dict__` is a dict
   * node without markers and with distinct keys, the node the encoder
   * writes for a dict subclass, succeeds only when the class supports item
   * assignment or there is nothing to assign. For a dict-layout class it
   * ends with an instance of the resolved class with no attributes whose
   * entries are those of the decoded dict bound to the next ordinal, whose
   * keys are the node's, in order.
   */
  lemma DictSubclassFilled(types: map<string, TypeDesc>, es: seq<(Prim, Tree)>, fs: seq<(Prim, Tree)>, st: DecState)
    requires !Has(es, RefKey) && Has(es, TypeKey) && Has(es, DictKey) && es[Find(es, DictKey)].1 == TDict(fs)
    requires Has(es, CustomDictKey) && Truthy(es[Find(es, CustomDictKey)].1)
    requires (forall j :: 0 <= j < |fs| ==> fs[j].0 !in Markers) && DistinctKeys(fs)
    ensures var o := Dec(types, TDict(es), st); var c := ClassFor(types, es[Find(es, TypeKey)].1, BasesNode(es));
      var id := |st.heap|;
      o.r.Ok? ==> c.Ok? && (c.value.layout != PlainLayout || fs == []) &&
                  (c.value.layout == DictLayout ==>
                     id + 1 < |o.st.heap| && o.st.heap[id + 1].DictObj? && Keys(o.st.heap[id + 1].entries) == Keys(fs) &&
                     o.st.heap[id] == Instance(c.value, [], DictPayload(o.st.heap[id + 1].entries)))
  {
    TypedUnfold(types, es, st);
    var c := ClassFor(types, es[Find(es, TypeKey)].1, BasesNode(es));
    if c.Ok? {
      DictPieces(types, TDict(es), fs, c.value, st);
    }
  }

  /** The steps of `DecTyped` for a dict-subclass node once the class is resolved. */
  lemma DictPieces(types: map<string, TypeDesc>, t: Tree, fs: seq<(Prim, Tree)>, cls: TypeDesc, st: DecState)
    requires t.TDict? && Has(t.entries, DictKey) && t.entries[Find(t.entries, DictKey)].1 == TDict(fs)
    requires Has(t.entries, CustomDictKey) && Truthy(t.entries[Find(t.entries, CustomDictKey)].1)
    requires (forall j :: 0 <= j < |fs| ==> fs[j].0 !in Markers) && DistinctKeys(fs)
    ensures var id := |st.heap|; var st1 := BindNew(st, EmptyInstance(cls)); var ext := DecExtend(types, t, id, cls, st1);
      var o := if ext.r.Err? then ext else DecFields(types, t, id, cls, ext.st);
      o.r.Ok? ==> (cls.layout != PlainLayout || fs == []) &&
                  (cls.layout == DictLayout ==>
                     id + 1 < |o.st.heap| && o.st.heap[id + 1].DictObj? && Keys(o.st.heap[id + 1].entries) == Keys(fs) &&
                     o.st.heap[id] == Instance(cls, [], DictPayload(o.st.heap[id + 1].entries)))
  {
    var id := |st.heap|;
    var st1 := BindNew(st, EmptyInstance(cls));
    var ext := DecExtend(types, t, id, cls, st1);
    if ext.r.Ok? {
      if cls.layout == DictLayout {
        assert ext == DecOut(Ok(Ref(id)), st1);
        CustomDictFills(types, t, fs, id, cls, st1);
      } else {
        CustomDictNonEmptyNeedsStorage(types, t, fs, id, cls, ext.st);
      }
    }
  }

  /** On a class without the dict layout, assigning the items of a non-empty dict node fails unless the class is a list subclass. */
  lemma CustomDictNonEmptyNeedsStorage(types: map<string, TypeDesc>, t: Tree, fs: seq<(Prim, Tree)>, id: ObjId,
                                       cls: TypeDesc, st: DecState)
    requires t.TDict? && Has(t.entries, DictKey) && t.entries[Find(t.entries, DictKey)].1 == TDict(fs)
    requires Has(t.entries, CustomDictKey) && Truthy(t.entries[Find(t.entries, CustomDictKey)].1)
    requires (forall j :: 0 <= j < |fs| ==> fs[j].0 !in Markers) && DistinctKeys(fs)
    requires cls.layout != DictLayout && id < |st.heap|
    ensures DecFields(types, t, id, cls, st).r.Ok? && fs != [] ==> cls.layout == ListLayout
  {
    PlainDictBoundBeforeItems(types, fs, st);
  }

  // ---------------------------------------------------------------------------
  // A list subclass with a custom dict

  /** A list node with one scalar decodes to a new list holding that scalar, bound to the current ordinal. */
  lemma OneItemList(types: map<string, TypeDesc>, p: Prim, st: DecState)
    ensures Dec(types, TList([TScalar(p)]), st) ==
      DecOut(Ok(Ref(|st.heap|)), UpdateAt(BindNew(st, ListObj([])), |st.heap|, ListObj([Scalar(p)])))
  {
    var id, node := |st.heap|, TList([TScalar(p)]);
    var st1 := BindNew(st, ListObj([]));
    var st2 := UpdateAt(st1, id, ListObj([Scalar(p)]));
    assert At(st1, id) == ListObj([]) && [] + [Scalar(p)] == [Scalar(p)];
    assert Deliver(st1, AppendTo(id), Key(node, 0), Scalar(p)) == Ok(st2);
    DecEachStep(types, node, 0, [], AppendTo(id), st1, Scalar(p), st1, st2);
  }

  /** A dict node with one scalar entry under a key that is no marker decodes to a new dict holding that entry. */
  lemma OneEntryDict(types: map<string, TypeDesc>, k: Prim, p: Prim, st: DecState)
    requires k !in Markers
    ensures Dec(types, TDict([(k, TScalar(p))]), st) ==
      DecOut(Ok(Ref(|st.heap|)), UpdateAt(BindNew(st, DictObj([])), |st.heap|, DictObj([(k, Scalar(p))])))
  {
    var es := [(k, TScalar(p))];
    DecodePlain.DispatchPlainDict(types, es, st);
    OneEntryStored(types, k, p, st);
  }

  /** Storing one scalar entry in a new plain dict. */
  lemma OneEntryStored(types: map<string, TypeDesc>, k: Prim, p: Prim, st: DecState)
    ensures DecPlainDict(types, TDict([(k, TScalar(p))]), st) ==
      DecOut(Ok(Ref(|st.heap|)), UpdateAt(BindNew(st, DictObj([])), |st.heap|, DictObj([(k, Scalar(p))])))
  {
    var id, node := |st.heap|, TDict([(k, TScalar(p))]);
    var st1 := BindNew(st, DictObj([]));
    var st2 := UpdateAt(st1, id, DictObj([(k, Scalar(p))]));
    assert At(st1, id) == DictObj([]) && Put([], k, Scalar(p)) == [(k, Scalar(p))];
    assert Deliver(st1, EntryOf(id), Key(node, 0), Scalar(p)) == Ok(st2);
    DecEachStep(types, node, 0, [], EntryOf(id), st1, Scalar(p), st1, st2);
  }

  /** The registry of the example: one list subclass `L`. */
  function ListClassL(): TypeDesc {
    TypeDesc("L", ["list"], ListLayout)
  }

  /** `{'__type__': 'L', '__list__': [5], '__dict__': {0: 7}, '__custom_dict__': True}`. */
  function CustomListEntries(): seq<(Prim, Tree)> {
    [(TypeKey, TScalar(Str("L"))), (ListKey, TList([TScalar(Int(5))])),
     (DictKey, TDict([(Int(0), TScalar(Int(7)))])), (CustomDictKey, TScalar(Bool(true)))]
  }

  /** Where the markers of the example node sit. */
  lemma CustomListKeys()
    ensures var es := CustomListEntries();
      !Has(es, RefKey) && !Has(es, BasesKey) && Has(es, TypeKey) && Has(es, DictKey) &&
      Find(es, TypeKey) == 0 && Find(es, ListKey) == 1 && Find(es, DictKey) == 2 && Find(es, CustomDictKey) == 3
  {
    var es := CustomListEntries();
    assert es[0].0 == TypeKey && es[1].0 == ListKey && es[2].0 == DictKey && es[3].0 == CustomDictKey;
    assert TypeKey != ListKey && TypeKey != DictKey && ListKey != DictKey && DictKey != CustomDictKey;
    assert TypeKey != CustomDictKey && ListKey != CustomDictKey;
  }

  /** `obj.extend` on an empty list-subclass instance with a `__list__` node holding one scalar. */
  lemma ExtendByOneScalar(types: map<string, TypeDesc>, t: Tree, id: ObjId, cls: TypeDesc, p: Prim, st1: DecState)
    requires t.TDict? && Has(t.entries, ListKey) && t.entries[Find(t.entries, ListKey)].1 == TList([TScalar(p)])
    requires cls.layout == ListLayout && id < |st1.heap| && st1.heap[id] == Instance(cls, [], ListPayload([]))
    ensures var s2 := UpdateAt(BindNew(st1, ListObj([])), |st1.heap|, ListObj([Scalar(p)]));
      DecExtend(types, t, id, cls, st1) == DecOut(Ok(Ref(id)), UpdateAt(s2, id, Instance(cls, [], ListPayload([Scalar(p)]))))
  {
    OneItemList(types, p, st1);
    IterationFacts.ExtendUnfold(types, t, id, cls, st1);
    var s2 := UpdateAt(BindNew(st1, ListObj([])), |st1.heap|, ListObj([Scalar(p)]));
    assert IterItems(s2.heap, Ref(|st1.heap|)) == Ok([Scalar(p)]);
    assert At(s2, id) == Instance(cls, [], ListPayload([])) && [] + [Scalar(p)] == [Scalar(p)];
  }

  /** With a truthy `__custom_dict__` on a list-layout class, the decoded items are assigned as list items. */
  lemma CustomListUnfold(types: map<string, TypeDesc>, t: Tree, id: ObjId, cls: TypeDesc, st: DecState)
    requires t.TDict? && Has(t.entries, DictKey) && id < |st.heap|
    requires Has(t.entries, CustomDictKey) && Truthy(t.entries[Find(t.entries, CustomDictKey)].1)
    requires cls.layout == ListLayout
    ensures var o := Dec(types, t.entries[Find(t.entries, DictKey)].1, st);
      o.r.Ok? && ItemsOf(o.st.heap, o.r.value).Ok? ==>
        DecFields(types, t, id, cls, st) == SetItems(o.st, id, ItemsOf(o.st.heap, o.r.value).value)
  {
  }

  /** The custom-dict step on a list-subclass instance holding one item, for the dict node `{0: q}`: `obj[0] = q`. */
  lemma AssignFirstItem(types: map<string, TypeDesc>, t: Tree, id: ObjId, cls: TypeDesc, p: Prim, q: Prim, s3: DecState)
    requires t.TDict? && Has(t.entries, DictKey) && t.entries[Find(t.entries, DictKey)].1 == TDict([(Int(0), TScalar(q))])
    requires Has(t.entries, CustomDictKey) && Truthy(t.entries[Find(t.entries, CustomDictKey)].1)
    requires cls.layout == ListLayout && id < |s3.heap| && s3.heap[id] == Instance(cls, [], ListPayload([Scalar(p)]))
    ensures var s4 := UpdateAt(BindNew(s3, DictObj([])), |s3.heap|, DictObj([(Int(0), Scalar(q))]));
      DecFields(types, t, id, cls, s3) == DecOut(Ok(Ref(id)), UpdateAt(s4, id, Instance(cls, [], ListPayload([Scalar(q)]))))
  {
    assert Int(0) !in Markers;
    OneEntryDict(types, Int(0), q, s3);
    CustomListUnfold(types, t, id, cls, s3);
    var s4 := UpdateAt(BindNew(s3, DictObj([])), |s3.heap|, DictObj([(Int(0), Scalar(q))]));
    assert ItemsOf(s4.heap, Ref(|s3.heap|)) == Ok([(Int(0), Scalar(q))]);
    OneItemAssigned(s4, id, cls, p, q);
  }

  /** `obj[0] = q` on a list-subclass instance holding one item. */
  lemma OneItemAssigned(s: DecState, id: ObjId, cls: TypeDesc, p: Prim, q: Prim)
    requires id < |s.heap| && s.heap[id] == Instance(cls, [], ListPayload([Scalar(p)]))
    ensures SetItems(s, id, [(Int(0), Scalar(q))]) == DecOut(Ok(Ref(id)), UpdateAt(s, id, Instance(cls, [], ListPayload([Scalar(q)]))))
  {
    var es := [(Int(0), Scalar(q))];
    assert ItemIndex(Int(0), 1) == Ok(0) && [Scalar(p)][0 := Scalar(q)] == [Scalar(q)];
    assert WithItem(At(s, id), es[0].0, es[0].1) == Ok(Instance(cls, [], ListPayload([Scalar(q)])));
    assert es[1..] == [];
  }

  /** The example's class resolves to `L` itself: no bases are named. */
  lemma ClassL()
    ensures ClassFor(map["L" := ListClassL()], TScalar(Str("L")), TList([])) == Ok(ListClassL())
  {
  }

  /**
   * A typed node for a list-layout class whose `__list__` is `[p]` and
   * whose `__dict__` is `{0: q}` under a truthy `__custom_dict__` decodes to
   * an instance holding `[q]`: it is extended by `[p]`, then `obj[0] = q`
   * replaces that item. The list `[p]` was first decoded into keeps the
   * next ordinal.
   */
  lemma CustomDictReplacesItem(types: map<string, TypeDesc>, es: seq<(Prim, Tree)>, cls: TypeDesc, p: Prim, q: Prim,
                               st: DecState)
    requires !Has(es, RefKey) && Has(es, TypeKey) && Has(es, DictKey)
    requires ClassFor(types, es[Find(es, TypeKey)].1, BasesNode(es)) == Ok(cls) && cls.layout == ListLayout
    requires Has(es, ListKey) && es[Find(es, ListKey)].1 == TList([TScalar(p)])
    requires es[Find(es, DictKey)].1 == TDict([(Int(0), TScalar(q))])
    requires Has(es, CustomDictKey) && Truthy(es[Find(es, CustomDictKey)].1)
    ensures var o := Dec(types, TDict(es), st); var id := |st.heap|;
      o.r == Ok(Ref(id)) && id + 1 < |o.st.heap| &&
      o.st.heap[id] == Instance(cls, [], ListPayload([Scalar(q)])) && o.st.heap[id + 1] == ListObj([Scalar(p)])
  {
    var id, t := |st.heap|, TDict(es);
    TypedUnfold(types, es, st);
    var st1 := BindNew(st, EmptyInstance(cls));
    ExtendByOneScalar(types, t, id, cls, p, st1);
    var s2 := UpdateAt(BindNew(st1, ListObj([])), |st1.heap|, ListObj([Scalar(p)]));
    var s3 := UpdateAt(s2, id, Instance(cls, [], ListPayload([Scalar(p)])));
    assert DecExtend(types, t, id, cls, st1) == DecOut(Ok(Ref(id)), s3);
    AssignFirstItem(types, t, id, cls, p, q, s3);
    var s4 := UpdateAt(BindNew(s3, DictObj([])), |s3.heap|, DictObj([(Int(0), Scalar(q))]));
    var s5 := UpdateAt(s4, id, Instance(cls, [], ListPayload([Scalar(q)])));
    assert Dec(types, t, st) == DecOut(Ok(Ref(id)), s5);
    assert s5.heap[id + 1] == s3.heap[id + 1] == ListObj([Scalar(p)]);
  }

  /**
   * With `L` a registered list subclass, `{'__type__': 'L', '__list__': [5],
   * '__dict__': {0: 7}, '__custom_dict__': True}` decodes to `L([7])`.
   */
  lemma CustomDictOnListSubclass(st: DecState)
    ensures var o := Dec(map["L" := ListClassL()], TDict(CustomListEntries()), st); var id := |st.heap|;
      o.r == Ok(Ref(id)) && id + 1 < |o.st.heap| &&
      o.st.heap[id] == Instance(ListClassL(), [], ListPayload([Scalar(Int(7))])) &&
      o.st.heap[id + 1] == ListObj([Scalar(Int(5))])
  {
    var es := CustomListEntries();
    CustomListKeys();
    assert BasesNode(es) == TList([]);
    ClassL();
    CustomDictReplacesItem(map["L" := ListClassL()], es, ListClassL(), Int(5), Int(7), st);
  }
}
