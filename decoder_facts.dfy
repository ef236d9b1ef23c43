/**
 * What `deserialize` promises, stated about `Decoder.Dec` (which the
 * methods of `Codec.Serializer` are proved to compute): a `__ref__` node is
 * looked up before anything else, an unknown class or a value of another
 * kind is a TypeError, every container is bound to the next ordinal before
 * its items are decoded, decoded items arrive in order, and the registry
 * always binds exactly the ordinals below the counter.
 */
module DecoderFacts {
  import opened Values
  import opened Wire
  import opened Decoder

  // ---------------------------------------------------------------------------
  // Dispatch

  /** A node with `__ref__` yields the object bound to that ordinal, whatever other keys it has; nothing changes. */
  lemma RefComesFirst(types: map<string, TypeDesc>, es: seq<(Prim, Tree)>, n: int, st: DecState)
    requires Has(es, RefKey) && es[Find(es, RefKey)].1 == TScalar(Int(n))
    ensures n >= 0 && n in st.bindings ==> Dec(types, TDict(es), st) == DecOut(Ok(st.bindings[n]), st)
    ensures !(n >= 0 && n in st.bindings) ==> Dec(types, TDict(es), st) == DecOut(Err(MissingKey), st)
  {
  }

  /** A typed node naming a class that was never registered is a TypeError, raised before anything is bound. */
  lemma UnknownTypeFails(types: map<string, TypeDesc>, es: seq<(Prim, Tree)>, name: string, st: DecState)
    requires !Has(es, RefKey) && Has(es, TypeKey) && Has(es, DictKey)
    requires es[Find(es, TypeKey)].1 == TScalar(Str(name)) && name !in types
    ensures Dec(types, TDict(es), st) == DecOut(Err(UnknownType(Str(name))), st)
  {
    var t := TDict(es);
    var basesNode := if Has(es, BasesKey) then es[Find(es, BasesKey)].1 else TList([]);
    assert ClassFor(types, es[Find(es, TypeKey)].1, basesNode) == Err(UnknownType(Str(name)));
    assert Dec(types, t, st) == DecDict(types, t, st) == DecTyped(types, t, st);
  }

  /** A value that is not a scalar, list or dict is a TypeError. */
  lemma OtherNotDeserializable(types: map<string, TypeDesc>, st: DecState)
    ensures Dec(types, TOther, st) == DecOut(Err(NotDeserializable), st)
  {
  }

  /** A scalar is returned as itself and nothing is bound. */
  lemma ScalarPassesThrough(types: map<string, TypeDesc>, p: Prim, st: DecState)
    ensures Dec(types, TScalar(p), st) == DecOut(Ok(Scalar(p)), st)
  {
  }

  // ---------------------------------------------------------------------------
  // The registry

  /** The registry binds exactly the ordinals below the counter. */
  predicate DecInv(st: DecState) {
    (forall k :: k in st.bindings ==> k < st.counter) && (forall k :: 0 <= k < st.counter ==> k in st.bindings)
  }

  /** `deserialize` starts from an empty registry and counter 0, which satisfy the invariant. */
  lemma ResetInv(h: Heap)
    ensures DecInv(Reset(h)) && Reset(h).heap == h && Reset(h).counter == 0
  {
  }

  lemma {:induction false} GrowsKeepsInv(st1: DecState, st2: DecState)
    requires DecInv(st1) && Grows(st1, st2)
    ensures DecInv(st2)
  {
    forall k | k in st2.bindings
      ensures k < st2.counter
    {
      if !(st1.counter <= k < st2.counter) {
        assert k in st1.bindings && st2.bindings[k] == st1.bindings[k];
      }
    }
  }

  /** Decoding keeps the invariant: every ordinal it uses is bound, and none above the counter. */
  lemma DecKeepsInv(types: map<string, TypeDesc>, t: Tree, st: DecState)
    requires DecInv(st)
    ensures DecInv(Dec(types, t, st).st)
  {
    GrowsKeepsInv(st, Dec(types, t, st).st);
  }

  // ---------------------------------------------------------------------------
  // Lists

  /** Appending decoded items one by one leaves the list holding exactly the decoded values, in order. */
  lemma {:induction false} AppendsInOrder(types: map<string, TypeDesc>, node: Tree, k: nat, acc: seq<Value>,
                                          id: ObjId, st: DecState)
    requires (node.TList? || node.TDict?) && k <= Arity(node)
    requires id < |st.heap| && st.heap[id] == ListObj(acc)
    ensures var out := DecEach(types, node, k, acc, AppendTo(id), st);
      out.r.Ok? ==> id < |out.st.heap| && out.st.heap[id] == ListObj(out.r.value)
    decreases Arity(node) - k
  {
    if k < Arity(node) {
      var o := Dec(types, Child(node, k), st);
      if o.r.Ok? {
        assert o.st.heap[id] == ListObj(acc);
        var st2 := UpdateAt(o.st, id, ListObj(acc + [o.r.value]));
        assert Deliver(o.st, AppendTo(id), Key(node, k), o.r.value) == Ok(st2);
        DecEachStep(types, node, k, acc, AppendTo(id), st, o.r.value, o.st, st2);
        AppendsInOrder(types, node, k + 1, acc + [o.r.value], id, st2);
      }
    }
  }

  /** A list takes the current ordinal, and keeps it while its items are decoded. */
  lemma ListTakesOrdinal(types: map<string, TypeDesc>, items: seq<Tree>, st: DecState)
    ensures var o := Dec(types, TList(items), st);
      st.counter < o.st.counter && st.counter in o.st.bindings && o.st.bindings[st.counter] == Ref(|st.heap|) &&
      (o.r.Ok? ==> o.r.value == Ref(|st.heap|))
  {
  }

  /**
   * A list is bound to the current ordinal before its items are decoded,
   * and ends up holding the decoded items in order.
   */
  lemma ListBoundBeforeItems(types: map<string, TypeDesc>, items: seq<Tree>, st: DecState)
    ensures var o := Dec(types, TList(items), st); var id := |st.heap|;
      st.counter < o.st.counter && st.counter in o.st.bindings && o.st.bindings[st.counter] == Ref(id) &&
      (o.r.Ok? ==> o.r.value == Ref(id) && id < |o.st.heap| && o.st.heap[id].ListObj? &&
                   |o.st.heap[id].items| == |items| &&
                   o.st.heap[id].items == DecEach(types, TList(items), 0, [], AppendTo(id), BindNew(st, ListObj([]))).r.value)
  {
    var id := |st.heap|;
    var st1 := BindNew(st, ListObj([]));
    ListTakesOrdinal(types, items, st);
    AppendsInOrder(types, TList(items), 0, [], id, st1);
  }

  /**
   * Because the list is bound first, a reference to the ordinal it takes
   * resolves to the list itself: the list contains itself.
   */
  lemma SelfReferenceResolves(types: map<string, TypeDesc>, st: DecState)
    ensures var o := Dec(types, TList([RefNode(st.counter)]), st); var id := |st.heap|;
      o.r == Ok(Ref(id)) && o.st.heap[id] == ListObj([Ref(id)])
  {
    var id := |st.heap|;
    var st1 := BindNew(st, ListObj([]));
    var node := TList([RefNode(st.counter)]);
    assert Dec(types, RefNode(st.counter), st1) == DecOut(Ok(Ref(id)), st1);
    assert At(st1, id) == ListObj([]) && [] + [Ref(id)] == [Ref(id)];
    var st2 := UpdateAt(st1, id, ListObj([Ref(id)]));
    assert Deliver(st1, AppendTo(id), Key(node, 0), Ref(id)) == Ok(st2);
    DecEachStep(types, node, 0, [], AppendTo(id), st1, Ref(id), st1, st2);
    assert DecEach(types, node, 1, [Ref(id)], AppendTo(id), st2) == DecSeqOut(Ok([Ref(id)]), st2);
  }

  /**
   * `{'__list__': [...]}` without a type binds the decoded list twice: once
   * as the list node inside, then again under a further ordinal.
   */
  lemma ListMarkerBindsTwice(types: map<string, TypeDesc>, t: Tree, items: seq<Tree>, st: DecState)
    requires t.TDict? && Has(t.entries, ListKey) && t.entries[Find(t.entries, ListKey)].1 == TList(items)
    requires !Has(t.entries, RefKey) && !Has(t.entries, TypeKey) && !Has(t.entries, SetKey) && !Has(t.entries, TupleKey)
    requires !Has(t.entries, StringIOKey) && !Has(t.entries, BytesIOKey) && !Has(t.entries, PickleKey)
    ensures var o := Dec(types, t, st); var id := |st.heap|;
      o.r.Ok? ==> o.r.value == Ref(id) && st.counter + 1 < o.st.counter &&
                  o.st.bindings[st.counter] == Ref(id) && o.st.bindings[o.st.counter - 1] == Ref(id)
  {
    ListTakesOrdinal(types, items, st);
    MarkerRebinds(types, t, st);
  }

  /** A `__list__` node whose inner value takes the current ordinal binds that value again at the top. */
  lemma MarkerRebinds(types: map<string, TypeDesc>, t: Tree, st: DecState)
    requires t.TDict? && Has(t.entries, ListKey)
    requires !Has(t.entries, RefKey) && !Has(t.entries, TypeKey) && !Has(t.entries, SetKey) && !Has(t.entries, TupleKey)
    requires !Has(t.entries, StringIOKey) && !Has(t.entries, BytesIOKey) && !Has(t.entries, PickleKey)
    requires var inner := Dec(types, t.entries[Find(t.entries, ListKey)].1, st);
      st.counter < inner.st.counter && st.counter in inner.st.bindings && inner.st.bindings[st.counter] == Ref(|st.heap|) &&
      (inner.r.Ok? ==> inner.r.value == Ref(|st.heap|))
    ensures var o := Dec(types, t, st); var id := |st.heap|;
      o.r.Ok? ==> o.r.value == Ref(id) && st.counter + 1 < o.st.counter &&
                  o.st.bindings[st.counter] == Ref(id) && o.st.bindings[o.st.counter - 1] == Ref(id)
  {
    var inner := Dec(types, t.entries[Find(t.entries, ListKey)].1, st);
    DispatchListMarker(types, t, st);
    if inner.r.Ok? {
      RebindKeeps(inner.st, st.counter, Ref(|st.heap|));
    }
  }

  /** The `__list__` branch's own step: decode the inner list, then bind its result again. */
  lemma ListMarkerRebinds(types: map<string, TypeDesc>, items: seq<Tree>, st: DecState)
    ensures var inner := Dec(types, TList(items), st); var id := |st.heap|;
      inner.r.Ok? ==> var st2 := Bind(inner.st, inner.r.value);
        inner.r.value == Ref(id) && st.counter + 1 < st2.counter &&
        st2.bindings[st.counter] == Ref(id) && st2.bindings[st2.counter - 1] == Ref(id)
  {
    var inner := Dec(types, TList(items), st);
    ListTakesOrdinal(types, items, st);
    if inner.r.Ok? {
      RebindKeeps(inner.st, st.counter, Ref(|st.heap|));
    }
  }

  /** Binding a value already bound at `c` keeps it there and binds it once more at the top. */
  lemma RebindKeeps(s: DecState, c: int, v: Value)
    requires c < s.counter && c in s.bindings && s.bindings[c] == v
    ensures var s2 := Bind(s, v);
      c + 1 < s2.counter && s2.bindings[c] == v && s2.bindings[s2.counter - 1] == v
  {
  }

  /** The dispatch reaches the `__list__` branch on a node whose only key is `__list__`. */
  lemma OnlyListKey(x: Tree)
    ensures var es := [(ListKey, x)];
      Find(es, ListKey) == 0 && !Has(es, RefKey) && !Has(es, TypeKey) && !Has(es, SetKey) && !Has(es, TupleKey) &&
      !Has(es, StringIOKey) && !Has(es, BytesIOKey) && !Has(es, PickleKey)
  {
  }

  lemma DispatchListMarker(types: map<string, TypeDesc>, t: Tree, st: DecState)
    requires t.TDict? && Has(t.entries, ListKey)
    requires !Has(t.entries, RefKey) && !Has(t.entries, TypeKey) && !Has(t.entries, SetKey) && !Has(t.entries, TupleKey)
    requires !Has(t.entries, StringIOKey) && !Has(t.entries, BytesIOKey) && !Has(t.entries, PickleKey)
    ensures var inner := Dec(types, t.entries[Find(t.entries, ListKey)].1, st);
      Dec(types, t, st) == if inner.r.Err? then inner else DecOut(inner.r, Bind(inner.st, inner.r.value))
  {
    assert Dec(types, t, st) == DecDict(types, t, st) == DecListMarker(types, t, st);
  }

  // ---------------------------------------------------------------------------
  // Sets

  /** Adding decoded items one by one leaves the set holding exactly the decoded values, each once. */
  lemma {:induction false} AddsAll(types: map<string, TypeDesc>, node: Tree, k: nat, acc: seq<Value>,
                                   id: ObjId, st: DecState)
    requires (node.TList? || node.TDict?) && k <= Arity(node)
    requires id < |st.heap| && st.heap[id].SetObj? && NoDup(st.heap[id].members)
    requires forall x :: x in st.heap[id].members <==> x in acc
    ensures var out := DecEach(types, node, k, acc, AddTo(id), st);
      out.r.Ok? ==> id < |out.st.heap| && out.st.heap[id].SetObj? && NoDup(out.st.heap[id].members) &&
                    forall x :: x in out.st.heap[id].members <==> x in out.r.value
    decreases Arity(node) - k
  {
    if k < Arity(node) {
      var o := Dec(types, Child(node, k), st);
      if o.r.Ok? && Hashable(o.st.heap, o.r.value) {
        var ms := st.heap[id].members;
        assert o.st.heap[id] == SetObj(ms);
        var st2 := UpdateAt(o.st, id, SetObj(SetAdd(ms, o.r.value)));
        assert Deliver(o.st, AddTo(id), Key(node, k), o.r.value) == Ok(st2);
        DecEachStep(types, node, k, acc, AddTo(id), st, o.r.value, o.st, st2);
        AddsAll(types, node, k + 1, acc + [o.r.value], id, st2);
      }
    }
  }

  /** An item that cannot be hashed makes the set node fail. */
  lemma {:induction false} UnhashableItemFails(types: map<string, TypeDesc>, node: Tree, k: nat, acc: seq<Value>,
                                               id: ObjId, st: DecState)
    requires (node.TList? || node.TDict?) && k < Arity(node)
    requires var o := Dec(types, Child(node, k), st); o.r.Ok? && !Hashable(o.st.heap, o.r.value)
    ensures DecEach(types, node, k, acc, AddTo(id), st).r == Err(Unhashable)
  {
  }

  /**
   * A set node binds an empty set to the current ordinal, then adds each
   * decoded item; the set holds exactly the decoded items.
   */
  lemma SetBoundBeforeItems(types: map<string, TypeDesc>, es: seq<(Prim, Tree)>, st: DecState)
    requires !Has(es, RefKey) && !(Has(es, TypeKey) && Has(es, DictKey)) && Has(es, SetKey)
    requires es[Find(es, SetKey)].1.TList?
    ensures var o := Dec(types, TDict(es), st); var id := |st.heap|;
      st.counter in o.st.bindings && o.st.bindings[st.counter] == Ref(id) &&
      (o.r.Ok? ==> var items := DecEach(types, es[Find(es, SetKey)].1, 0, [], AddTo(id), BindNew(st, SetObj([]))).r;
                   o.r.value == Ref(id) && id < |o.st.heap| && o.st.heap[id].SetObj? && items.Ok? &&
                   forall x :: x in o.st.heap[id].members <==> x in items.value)
  {
    var id := |st.heap|;
    var st1 := BindNew(st, SetObj([]));
    AddsAll(types, es[Find(es, SetKey)].1, 0, [], id, st1);
    assert Dec(types, TDict(es), st) == DecSet(types, TDict(es), st);
  }

  // ---------------------------------------------------------------------------
  // Dicts and attributes

  /** A key not among the first `k` keys of a dict with distinct keys is not yet stored. */
  lemma FreshKey(d: Entries, es: seq<(Prim, Tree)>, k: nat)
    requires DistinctKeys(es) && k < |es| && Keys(d) == Keys(es)[..k]
    ensures Find(d, es[k].0) < 0
  {
  }

  /**
   * Storing the decoded values under the distinct keys of a dict node
   * leaves the dict holding those keys in order, with the decoded values.
   */
  lemma {:induction false} StoresEntries(types: map<string, TypeDesc>, node: Tree, k: nat, acc: seq<Value>,
                                         id: ObjId, st: DecState)
    requires node.TDict? && k <= |node.entries| && DistinctKeys(node.entries)
    requires id < |st.heap| && st.heap[id].DictObj?
    requires Keys(st.heap[id].entries) == Keys(node.entries)[..k] && EntryValues(st.heap[id].entries) == acc
    ensures var out := DecEach(types, node, k, acc, EntryOf(id), st);
      out.r.Ok? ==> id < |out.st.heap| && out.st.heap[id].DictObj? &&
                    Keys(out.st.heap[id].entries) == Keys(node.entries) && EntryValues(out.st.heap[id].entries) == out.r.value
    decreases |node.entries| - k
  {
    if k < |node.entries| {
      var o := Dec(types, Child(node, k), st);
      if o.r.Ok? {
        var d, key, v := st.heap[id].entries, node.entries[k].0, o.r.value;
        FreshKey(d, node.entries, k);
        var st2 := EntryStep(types, node, k, acc, id, st);
        TakeOneMore(Keys(node.entries), k);
        KeysSnoc(d, key, v);
        EntryValuesSnoc(d, key, v);
        StoresEntries(types, node, k + 1, acc + [v], id, st2);
      }
    } else {
      assert Keys(node.entries)[..k] == Keys(node.entries);
    }
  }

  /** One step of `StoresEntries`: the decoded value is appended under its key. */
  lemma EntryStep(types: map<string, TypeDesc>, node: Tree, k: nat, acc: seq<Value>, id: ObjId, st: DecState)
    returns (st2: DecState)
    requires node.TDict? && k < |node.entries| && id < |st.heap| && st.heap[id].DictObj?
    requires Find(st.heap[id].entries, node.entries[k].0) < 0
    requires Dec(types, Child(node, k), st).r.Ok?
    ensures var o := Dec(types, Child(node, k), st);
      id < |st2.heap| && st2.heap[id] == DictObj(st.heap[id].entries + [(node.entries[k].0, o.r.value)]) &&
      DecEach(types, node, k, acc, EntryOf(id), st) == DecEach(types, node, k + 1, acc + [o.r.value], EntryOf(id), st2)
  {
    var o := Dec(types, Child(node, k), st);
    var d, key, v := st.heap[id].entries, node.entries[k].0, o.r.value;
    assert o.st.heap[id] == DictObj(d);
    st2 := UpdateAt(o.st, id, DictObj(d + [(key, v)]));
    assert Deliver(o.st, EntryOf(id), Key(node, k), v) == Ok(st2);
    DecEachStep(types, node, k, acc, EntryOf(id), st, v, o.st, st2);
  }

  /**
   * A dict node with no marker key binds an empty dict to the current
   * ordinal, then stores each decoded value under its key.
   */
  lemma PlainDictBoundBeforeItems(types: map<string, TypeDesc>, es: seq<(Prim, Tree)>, st: DecState)
    requires forall j :: 0 <= j < |es| ==> es[j].0 !in Markers
    requires DistinctKeys(es)
    ensures var o := Dec(types, TDict(es), st); var id := |st.heap|;
      st.counter in o.st.bindings && o.st.bindings[st.counter] == Ref(id) &&
      (o.r.Ok? ==> o.r.value == Ref(id) && id < |o.st.heap| && o.st.heap[id].DictObj? &&
                   Keys(o.st.heap[id].entries) == Keys(es))
  {
    var id := |st.heap|;
    var st1 := BindNew(st, DictObj([]));
    assert Keys(es)[..0] == [];
    StoresEntries(types, TDict(es), 0, [], id, st1);
    assert !Has(es, RefKey) && !Has(es, TypeKey) && !Has(es, SetKey) && !Has(es, TupleKey);
    assert !Has(es, StringIOKey) && !Has(es, BytesIOKey) && !Has(es, PickleKey);
    assert !Has(es, ListKey) && !Has(es, DictKey);
    assert Dec(types, TDict(es), st) == DecPlainDict(types, TDict(es), st);
  }
}
