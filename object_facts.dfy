/**
 * What `_deserialize` builds for the nodes that make one object: a stream
 * or pickled object is bound to the next ordinal exactly when its payload
 * and position are valid, and a typed node binds an instance of the
 * resolved class before any of its contents are decoded, then fills in the
 * attributes of its `__dict__`.
 */
module ObjectFacts {
  import opened Values
  import opened Wire
  import opened Decoder
  import opened DecoderFacts

  // ---------------------------------------------------------------------------
  // Streams and pickled objects

  /**
   * `{'__StringIO__': x, '__StringIO_pos__': p}` decodes exactly when `x` is
   * a str or None and `p` a non-negative int: to a new StringIO holding `x`
   * at position `p`, bound to the current ordinal. On failure nothing changes.
   */
  lemma TextStreamDecodes(types: map<string, TypeDesc>, x: Tree, p: Tree, st: DecState)
    ensures var o := Dec(types, TDict([(StringIOKey, x), (StringIOPosKey, p)]), st);
      (o.r.Ok? <==> InitialText(x).Ok? && AsInt(p).Some? && AsInt(p).value >= 0) &&
      (o.r.Ok? ==> o.r.value == Ref(|st.heap|) && o.st == BindNew(st, TextStream(InitialText(x).value, AsInt(p).value))) &&
      (o.r.Err? ==> o.st == st)
  {
    var es := [(StringIOKey, x), (StringIOPosKey, p)];
    assert Find(es, StringIOKey) == 0 && Find(es, StringIOPosKey) == 1;
    assert !Has(es, RefKey) && !Has(es, TypeKey) && !Has(es, SetKey) && !Has(es, TupleKey);
  }

  /**
   * `{'__BytesIO__': x, '__BytesIO_pos__': p}` decodes exactly when `x` is a
   * hex str and `p` a non-negative int: to a new BytesIO holding those bytes
   * at position `p`, bound to the current ordinal. On failure nothing changes.
   */
  lemma ByteStreamDecodes(types: map<string, TypeDesc>, x: Tree, p: Tree, st: DecState)
    ensures var o := Dec(types, TDict([(BytesIOKey, x), (BytesIOPosKey, p)]), st);
      (o.r.Ok? <==> HexBytes(x).Ok? && AsInt(p).Some? && AsInt(p).value >= 0) &&
      (o.r.Ok? ==> o.r.value == Ref(|st.heap|) && o.st == BindNew(st, ByteStream(HexBytes(x).value, AsInt(p).value))) &&
      (o.r.Err? ==> o.st == st)
  {
    var es := [(BytesIOKey, x), (BytesIOPosKey, p)];
    assert Find(es, BytesIOKey) == 0 && Find(es, BytesIOPosKey) == 1;
    assert !Has(es, RefKey) && !Has(es, TypeKey) && !Has(es, SetKey) && !Has(es, TupleKey);
    assert !Has(es, StringIOKey);
  }

  /**
   * `{'__pickle__': x}` decodes exactly when `x` is a hex str: to a new
   * object unpickled from those bytes, bound to the current ordinal. Loading
   * is opaque here and never fails, so a corrupt image that is valid hex
   * still decodes.
   */
  lemma PickleDecodes(types: map<string, TypeDesc>, x: Tree, st: DecState)
    ensures var o := Dec(types, TDict([(PickleKey, x)]), st);
      (o.r.Ok? <==> HexBytes(x).Ok?) &&
      (o.r.Ok? ==> o.r.value == Ref(|st.heap|) && o.st == BindNew(st, Opaque(Some(HexBytes(x).value)))) &&
      (o.r.Err? ==> o.st == st)
  {
    var es := [(PickleKey, x)];
    assert Find(es, PickleKey) == 0;
    assert !Has(es, RefKey) && !Has(es, TypeKey) && !Has(es, SetKey) && !Has(es, TupleKey);
    assert !Has(es, StringIOKey) && !Has(es, BytesIOKey);
  }

  // ---------------------------------------------------------------------------
  // Typed nodes

  /** The `__bases__` node of a typed node; an absent one is an empty list. */
  function BasesNode(es: seq<(Prim, Tree)>): Tree {
    if Has(es, BasesKey) then es[Find(es, BasesKey)].1 else TList([])
  }

  /** `obj.extend(…)` keeps the instance at `id` an instance of its class, with its attributes. */
  lemma ExtendKeepsClass(types: map<string, TypeDesc>, t: Tree, id: ObjId, cls: TypeDesc, st: DecState)
    requires t.TDict? && id < |st.heap| && st.heap[id].Instance?
    ensures var o := DecExtend(types, t, id, cls, st);
      id < |o.st.heap| && o.st.heap[id].Instance? && o.st.heap[id].cls == st.heap[id].cls &&
      o.st.heap[id].attrs == st.heap[id].attrs
  {
  }

  /** `obj[key] = value` for each item keeps the instance at `id` an instance of its class. */
  lemma {:induction false} PutAllKeepsClass(st: DecState, id: ObjId, es: Entries)
    requires id < |st.heap| && st.heap[id].Instance?
    ensures var st2 := PutAll(st, id, es);
      st2.heap[id].Instance? && st2.heap[id].cls == st.heap[id].cls
    decreases |es|
  {
    if es != [] {
      var st1 := UpdateAt(st, id, WithEntry(At(st, id), es[0].0, es[0].1));
      PutAllKeepsClass(st1, id, es[1..]);
    }
  }

  /** `obj[key] = value` on a list subclass, whatever happens, keeps the instance at `id` an instance of its class. */
  lemma {:induction false} SetItemsKeepsClass(st: DecState, id: ObjId, es: Entries)
    requires id < |st.heap| && st.heap[id].Instance?
    ensures var out := SetItems(st, id, es);
      out.st.heap[id].Instance? && out.st.heap[id].cls == st.heap[id].cls
    decreases |es|
  {
    if es != [] {
      var o := WithItem(At(st, id), es[0].0, es[0].1);
      if o.Ok? {
        SetItemsKeepsClass(UpdateAt(st, id, o.value), id, es[1..]);
      }
    }
  }

  /**
   * One step of setting attributes: the child is decoded; when it decodes
   * and its key is a str it is set and the walk goes on, otherwise the walk
   * fails with the child's state.
   */
  lemma AttrEachUnfold(types: map<string, TypeDesc>, node: Tree, k: nat, acc: seq<Value>, id: ObjId, st: DecState)
    returns (o: DecOut)
    requires node.TDict? && k < |node.entries|
    ensures o == Dec(types, Child(node, k), st)
    ensures var out := DecEach(types, node, k, acc, AttrOf(id), st); var key := node.entries[k].0;
      if o.r.Ok? && key.Str? then
        out == DecEach(types, node, k + 1, acc + [o.r.value], AttrOf(id), UpdateAt(o.st, id, WithAttr(At(o.st, id), key, o.r.value)))
      else out.r.Err? && out.st == o.st
  {
    o := Dec(types, Child(node, k), st);
  }

  /** Setting the decoded attributes, whatever happens, keeps the instance at `id` an instance of its class. */
  lemma {:induction false} AttrsKeepClass(types: map<string, TypeDesc>, node: Tree, k: nat, acc: seq<Value>, id: ObjId,
                                          st: DecState)
    requires node.TDict? && k <= |node.entries| && id < |st.heap| && st.heap[id].Instance?
    ensures var out := DecEach(types, node, k, acc, AttrOf(id), st);
      id < |out.st.heap| && SameShell(out.st.heap[id], st.heap[id])
    decreases |node.entries| - k
  {
    if k < |node.entries| {
      var o := AttrEachUnfold(types, node, k, acc, id, st);
      assert o.st.heap[id] == st.heap[id];
      if o.r.Ok? && node.entries[k].0.Str? {
        var st2 := UpdateAt(o.st, id, WithAttr(At(o.st, id), node.entries[k].0, o.r.value));
        AttrsKeepClass(types, node, k + 1, acc + [o.r.value], id, st2);
      }
    }
  }

  /** `y` is an instance of the class of `x`, with the same list or dict contents. */
  predicate SameShell(y: Obj, x: Obj) {
    y.Instance? && x.Instance? && y.cls == x.cls && y.payload == x.payload
  }

  /** The `__dict__` part keeps the instance at `id` an instance of its class. */
  lemma FieldsKeepClass(types: map<string, TypeDesc>, t: Tree, id: ObjId, cls: TypeDesc, st: DecState)
    requires t.TDict? && Has(t.entries, DictKey) && id < |st.heap| && st.heap[id].Instance?
    ensures var o := DecFields(types, t, id, cls, st);
      id < |o.st.heap| && o.st.heap[id].Instance? && o.st.heap[id].cls == st.heap[id].cls
  {
    var es := t.entries;
    var flag := if Has(es, CustomDictKey) then es[Find(es, CustomDictKey)].1 else TScalar(Bool(false));
    var dictNode := es[Find(es, DictKey)].1;
    if Truthy(flag) {
      var o := Dec(types, dictNode, st);
      if o.r.Ok? && ItemsOf(o.st.heap, o.r.value).Ok? {
        var items := ItemsOf(o.st.heap, o.r.value).value;
        if cls.layout == DictLayout {
          PutAllKeepsClass(o.st, id, items);
        } else if cls.layout == ListLayout {
          SetItemsKeepsClass(o.st, id, items);
        }
      }
    } else if dictNode.TDict? {
      AttrsKeepClass(types, dictNode, 0, [], id, st);
      var o := DecEach(types, dictNode, 0, [], AttrOf(id), st);
      assert SameShell(o.st.heap[id], st.heap[id]);
    }
  }

  /**
   * A typed node binds a new instance of the resolved class to the current
   * ordinal before its `__list__` or `__dict__` contents are decoded, so a
   * `__ref__` to that ordinal inside them finds it; whatever the contents
   * do, the object stays an instance of that class, and a success yields
   * that object. A class that cannot be resolved fails with nothing bound.
   */
  lemma TypedBoundFirst(types: map<string, TypeDesc>, es: seq<(Prim, Tree)>, st: DecState)
    requires !Has(es, RefKey) && Has(es, TypeKey) && Has(es, DictKey)
    ensures var o := Dec(types, TDict(es), st); var c := ClassFor(types, es[Find(es, TypeKey)].1, BasesNode(es));
      var id := |st.heap|;
      (c.Err? ==> o == DecOut(Err(c.error), st)) &&
      (c.Ok? ==> st.counter in o.st.bindings && o.st.bindings[st.counter] == Ref(id) &&
                 id < |o.st.heap| && o.st.heap[id].Instance? && o.st.heap[id].cls == c.value &&
                 (o.r.Ok? ==> o.r.value == Ref(id)))
  {
    var c := ClassFor(types, es[Find(es, TypeKey)].1, BasesNode(es));
    TypedUnfold(types, es, st);
    if c.Ok? {
      TypedPieces(types, TDict(es), c.value, st);
    }
  }

  /** The steps of `DecTyped` once the class is resolved keep the instance bound, and of that class. */
  lemma TypedPieces(types: map<string, TypeDesc>, t: Tree, cls: TypeDesc, st: DecState)
    requires t.TDict? && Has(t.entries, DictKey)
    ensures var id := |st.heap|; var st1 := BindNew(st, EmptyInstance(cls)); var ext := DecExtend(types, t, id, cls, st1);
      var o := if ext.r.Err? then ext else DecFields(types, t, id, cls, ext.st);
      st.counter in o.st.bindings && o.st.bindings[st.counter] == Ref(id) &&
      id < |o.st.heap| && o.st.heap[id].Instance? && o.st.heap[id].cls == cls && (o.r.Ok? ==> o.r.value == Ref(id))
  {
    TypedPiecesBind(types, t, cls, st);
    var id := |st.heap|;
    var st1 := BindNew(st, EmptyInstance(cls));
    var ext := DecExtend(types, t, id, cls, st1);
    ExtendKeepsClass(types, t, id, cls, st1);
    if ext.r.Ok? {
      FieldsKeepClass(types, t, id, cls, ext.st);
    }
  }

  /** The instance bound by `DecTyped` stays bound at the ordinal it took. */
  lemma TypedPiecesBind(types: map<string, TypeDesc>, t: Tree, cls: TypeDesc, st: DecState)
    requires t.TDict? && Has(t.entries, DictKey)
    ensures var id := |st.heap|; var st1 := BindNew(st, EmptyInstance(cls)); var ext := DecExtend(types, t, id, cls, st1);
      var o := if ext.r.Err? then ext else DecFields(types, t, id, cls, ext.st);
      st.counter in o.st.bindings && o.st.bindings[st.counter] == Ref(id) && (o.r.Ok? ==> o.r.value == Ref(id))
  {
    var id := |st.heap|;
    var st1 := BindNew(st, EmptyInstance(cls));
    var ext := DecExtend(types, t, id, cls, st1);
    KeepsBinding(st1, ext.st, id, st.counter);
    ExtendYieldsInstance(types, t, id, cls, st1);
    if ext.r.Ok? {
      KeepsBinding(ext.st, DecFields(types, t, id, cls, ext.st).st, id, st.counter);
      FieldsYieldInstance(types, t, id, cls, ext.st);
    }
  }

  /** A successful `extend` step yields the instance it extended. */
  lemma ExtendYieldsInstance(types: map<string, TypeDesc>, t: Tree, id: ObjId, cls: TypeDesc, st: DecState)
    requires t.TDict? && id < |st.heap|
    ensures var o := DecExtend(types, t, id, cls, st); o.r.Ok? ==> o.r.value == Ref(id)
  {
  }

  /** A successful `__dict__` step yields the instance it filled. */
  lemma FieldsYieldInstance(types: map<string, TypeDesc>, t: Tree, id: ObjId, cls: TypeDesc, st: DecState)
    requires t.TDict? && Has(t.entries, DictKey) && id < |st.heap|
    ensures var o := DecFields(types, t, id, cls, st); o.r.Ok? ==> o.r.value == Ref(id)
  {
  }

  /** A binding below the counter survives any growth of the state. */
  lemma KeepsBinding(s1: DecState, s2: DecState, except: int, c: nat)
    requires GrowsExcept(s1, s2, except) && c in s1.bindings && c < s1.counter
    ensures c in s2.bindings && s2.bindings[c] == s1.bindings[c] && c < s2.counter
  {
  }

  /** A typed node is decoded by `DecTyped`: resolve the class, bind the instance, extend it, fill its fields. */
  lemma TypedUnfold(types: map<string, TypeDesc>, es: seq<(Prim, Tree)>, st: DecState)
    requires !Has(es, RefKey) && Has(es, TypeKey) && Has(es, DictKey)
    ensures var c := ClassFor(types, es[Find(es, TypeKey)].1, BasesNode(es)); var id := |st.heap|;
      var o := Dec(types, TDict(es), st);
      (c.Err? ==> o == DecOut(Err(c.error), st)) &&
      (c.Ok? ==> var st1 := BindNew(st, EmptyInstance(c.value)); var ext := DecExtend(types, TDict(es), id, c.value, st1);
                 o == if ext.r.Err? then ext else DecFields(types, TDict(es), id, c.value, ext.st))
  {
    assert Dec(types, TDict(es), st) == DecTyped(types, TDict(es), st);
  }

  /** One step of `StoresAttrs`: the decoded value is appended as an attribute under its str key. */
  lemma AttrStep(types: map<string, TypeDesc>, node: Tree, k: nat, acc: seq<Value>, id: ObjId, st: DecState)
    returns (st2: DecState)
    requires node.TDict? && k < |node.entries| && node.entries[k].0.Str?
    requires id < |st.heap| && st.heap[id].Instance? && Find(st.heap[id].attrs, node.entries[k].0) < 0
    requires Dec(types, Child(node, k), st).r.Ok?
    ensures var o := Dec(types, Child(node, k), st); var x := st.heap[id];
      id < |st2.heap| && st2.heap[id] == Instance(x.cls, x.attrs + [(node.entries[k].0, o.r.value)], x.payload) &&
      DecEach(types, node, k, acc, AttrOf(id), st) == DecEach(types, node, k + 1, acc + [o.r.value], AttrOf(id), st2)
  {
    var o := Dec(types, Child(node, k), st);
    var x, key, v := st.heap[id], node.entries[k].0, o.r.value;
    assert o.st.heap[id] == x;
    st2 := UpdateAt(o.st, id, Instance(x.cls, x.attrs + [(key, v)], x.payload));
    assert Deliver(o.st, AttrOf(id), Key(node, k), v) == Ok(st2);
    DecEachStep(types, node, k, acc, AttrOf(id), st, v, o.st, st2);
  }

  /**
   * Setting the decoded values of a `__dict__` node with distinct keys as
   * attributes leaves the instance with exactly those attribute names, in
   * order, holding the decoded values; its class and contents are untouched.
   */
  lemma {:induction false} StoresAttrs(types: map<string, TypeDesc>, node: Tree, k: nat, acc: seq<Value>,
                                       id: ObjId, st: DecState)
    requires node.TDict? && k <= |node.entries| && DistinctKeys(node.entries)
    requires id < |st.heap| && st.heap[id].Instance?
    requires Keys(st.heap[id].attrs) == Keys(node.entries)[..k] && EntryValues(st.heap[id].attrs) == acc
    ensures var out := DecEach(types, node, k, acc, AttrOf(id), st); var x := st.heap[id];
      out.r.Ok? ==> id < |out.st.heap| && InstanceWith(out.st.heap[id], x.cls, x.payload, Keys(node.entries), out.r.value)
    decreases |node.entries| - k
  {
    if k < |node.entries| {
      var o := AttrEachUnfold(types, node, k, acc, id, st);
      if o.r.Ok? && node.entries[k].0.Str? {
        var d, key, v := st.heap[id].attrs, node.entries[k].0, o.r.value;
        FreshKey(d, node.entries, k);
        var st2 := AttrStep(types, node, k, acc, id, st);
        TakeOneMore(Keys(node.entries), k);
        KeysSnoc(d, key, v);
        EntryValuesSnoc(d, key, v);
        StoresAttrs(types, node, k + 1, acc + [v], id, st2);
      }
    } else {
      assert Keys(node.entries)[..k] == Keys(node.entries);
    }
  }

  /** `x` is an instance of `cls` holding `payload`, with attribute names `ks` and values `vs`, in order. */
  predicate InstanceWith(x: Obj, cls: TypeDesc, payload: Payload, ks: seq<Prim>, vs: seq<Value>) {
    x.Instance? && x.cls == cls && x.payload == payload && Keys(x.attrs) == ks && EntryValues(x.attrs) == vs
  }

  /**
   * A typed node without `__list__` and without a truthy `__custom_dict__`
   * whose `__dict__` has distinct keys ends, on success, with an instance
   * of the resolved class whose attribute names are exactly those keys, all
   * str, in order, and whose list or dict contents are still empty.
   */
  lemma TypedAttrs(types: map<string, TypeDesc>, es: seq<(Prim, Tree)>, fs: seq<(Prim, Tree)>, st: DecState)
    requires !Has(es, RefKey) && Has(es, TypeKey) && Has(es, DictKey) && !Has(es, ListKey)
    requires !Has(es, CustomDictKey) || !Truthy(es[Find(es, CustomDictKey)].1)
    requires es[Find(es, DictKey)].1 == TDict(fs) && DistinctKeys(fs)
    ensures var o := Dec(types, TDict(es), st); var c := ClassFor(types, es[Find(es, TypeKey)].1, BasesNode(es));
      var id := |st.heap|;
      o.r.Ok? ==> c.Ok? && id < |o.st.heap| && o.st.heap[id].Instance? && o.st.heap[id].cls == c.value &&
                  o.st.heap[id].payload == EmptyInstance(c.value).payload &&
                  Keys(o.st.heap[id].attrs) == Keys(fs) && forall j :: 0 <= j < |fs| ==> fs[j].0.Str?
  {
    var t := TDict(es);
    TypedUnfold(types, es, st);
    var c := ClassFor(types, es[Find(es, TypeKey)].1, BasesNode(es));
    if c.Ok? {
      var id := |st.heap|;
      var st1 := BindNew(st, EmptyInstance(c.value));
      assert DecExtend(types, t, id, c.value, st1) == DecOut(Ok(Ref(id)), st1);
      assert Keys(fs)[..0] == [];
      StoresAttrs(types, TDict(fs), 0, [], id, st1);
      AttrKeysAreStr(types, TDict(fs), 0, [], id, st1);
    }
  }

  /** Setting attributes fails at the first key that is not a str: a success means every key was one. */
  lemma {:induction false} AttrKeysAreStr(types: map<string, TypeDesc>, node: Tree, k: nat, acc: seq<Value>, id: ObjId,
                                          st: DecState)
    requires node.TDict? && k <= |node.entries|
    ensures DecEach(types, node, k, acc, AttrOf(id), st).r.Ok? ==> StrKeysFrom(node.entries, k)
    decreases |node.entries| - k
  {
    if k == |node.entries| {
      assert StrKeysFrom(node.entries, k);
    } else {
      var o := AttrEachUnfold(types, node, k, acc, id, st);
      var key := node.entries[k].0;
      if o.r.Ok? && key.Str? {
        var st2 := UpdateAt(o.st, id, WithAttr(At(o.st, id), key, o.r.value));
        AttrKeysAreStr(types, node, k + 1, acc + [o.r.value], id, st2);
        StrKeysStep(node.entries, k);
      }
    }
  }

  /** A str key at `k` extends the str keys from `k + 1` on to those from `k` on. */
  lemma StrKeysStep(es: seq<(Prim, Tree)>, k: nat)
    requires k < |es| && es[k].0.Str?
    ensures StrKeysFrom(es, k + 1) ==> StrKeysFrom(es, k)
  {
  }

  /** Every key from position `k` on is a str. */
  predicate StrKeysFrom(es: seq<(Prim, Tree)>, k: nat) {
    forall j :: k <= j < |es| ==> es[j].0.Str?
  }
}
