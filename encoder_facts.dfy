/**
 * What `serialize` promises, stated about `Encoder.Enc` (which the methods
 * of `Codec.Serializer` are proved to compute): the registry check comes
 * first, scalars and tuples take no ordinal, every object is registered
 * under the next ordinal before its children are encoded, the registry
 * carries over from one call to the next, and each kind of object gets the
 * node shape the decoder dispatches on.
 */
module EncoderFacts {
  import opened Values
  import opened Wire
  import opened Encoder
  import Hex

  // ---------------------------------------------------------------------------
  // Dispatch order

  /** An object already registered encodes as a reference to its ordinal, whatever it is; nothing changes. */
  lemma RegisteredIsRef(h: Heap, i: ObjId, st: EncState)
    requires Closed(h) && i < |h| && i in st.ids
    ensures Enc(h, Ref(i), st) == EncOut(Ok(RefNode(st.ids[i])), st)
  {
  }

  /** A scalar is emitted as itself and takes no ordinal. */
  lemma ScalarPassesThrough(h: Heap, p: Prim, st: EncState)
    requires Closed(h)
    ensures Enc(h, Scalar(p), st) == EncOut(Ok(TScalar(p)), st)
  {
  }

  predicate AllScalar(xs: seq<Value>) {
    forall j :: 0 <= j < |xs| ==> xs[j].Scalar?
  }

  /** The nodes of a sequence of scalars. */
  function Leaves(xs: seq<Value>): (ts: seq<Tree>)
    requires AllScalar(xs)
    ensures |ts| == |xs| && forall j :: 0 <= j < |xs| ==> ts[j] == TScalar(xs[j].p)
  {
    if xs == [] then [] else [TScalar(xs[0].p)] + Leaves(xs[1..])
  }

  /** Scalar items are appended as leaves and the registry is left alone. */
  lemma {:induction false} ScalarItems(h: Heap, xs: seq<Value>, k: nat, acc: seq<Tree>, st: EncState,
                                       bound: nat, owner: Value)
    requires Closed(h) && AllIn(h, xs) && k <= |xs| && AllScalar(xs)
    requires Pending(h, st) < bound || (Pending(h, st) == bound && owner == Tup(xs))
    ensures EncSeq(h, xs, k, acc, st, bound, owner) == EncSeqOut(Ok(acc + Leaves(xs)[k..]), st)
    decreases |xs| - k
  {
    if k < |xs| {
      var t := TScalar(xs[k].p);
      assert Enc(h, xs[k], st) == EncOut(Ok(t), st);
      EncSeqStep(h, xs, k, acc, st, bound, owner, t, st);
      ScalarItems(h, xs, k + 1, acc + [t], st, bound, owner);
      DropOne(Leaves(xs), k);
      AppendStep(acc, t, Leaves(xs)[k + 1..]);
    } else {
      assert acc + Leaves(xs)[k..] == acc;
    }
  }

  /** A tuple is not registered: a tuple of scalars becomes `{'__tuple__': [...]}` with the registry unchanged. */
  lemma TupleTakesNoOrdinal(h: Heap, xs: seq<Value>, st: EncState)
    requires Closed(h) && AllIn(h, xs) && AllScalar(xs)
    ensures Enc(h, Tup(xs), st) == EncOut(Ok(TDict([(TupleKey, TList(Leaves(xs)))])), st)
  {
    ScalarItems(h, xs, 0, [], st, Pending(h, st), Tup(xs));
  }

  // ---------------------------------------------------------------------------
  // Registration

  /**
   * A new object is registered under the next ordinal, and the registry
   * carries over: encoding the same object again, in the same call or in a
   * later `serialize`, yields a reference to that ordinal.
   */
  lemma SerializeTwice(h: Heap, i: ObjId, st: EncState)
    requires Closed(h) && i < |h| && i !in st.ids
    ensures var o := Enc(h, Ref(i), st);
      o.st.counter > st.counter && i in o.st.ids && o.st.ids[i] == st.counter + 1 &&
      Enc(h, Ref(i), o.st) == EncOut(Ok(RefNode(st.counter + 1)), o.st)
  {
  }

  /**
   * The object is registered before its items are encoded, so a list that
   * contains itself comes out as a list whose one item is a reference to
   * the list's own ordinal, and no further ordinal is used.
   */
  lemma SelfContainingList(h: Heap, i: ObjId, st: EncState)
    requires Closed(h) && i < |h| && h[i] == ListObj([Ref(i)]) && i !in st.ids
    ensures Enc(h, Ref(i), st) == EncOut(Ok(TDict([(ListKey, TList([RefNode(st.counter + 1)]))])), Register(st, i))
  {
    var st0 := Register(st, i);
    EncObjectUnfold(h, i, st);
    var inner := RefNode(st.counter + 1);
    assert Enc(h, Ref(i), st0) == EncOut(Ok(inner), st0);
    EncSeqStep(h, [Ref(i)], 0, [], st0, Pending(h, st), Ref(i), inner, st0);
    assert EncSeq(h, [Ref(i)], 1, [inner], st0, Pending(h, st), Ref(i)) == EncSeqOut(Ok([inner]), st0);
  }

  /**
   * Streams and pickled objects have no children: each takes exactly the
   * next ordinal. An object pickle refuses is registered before the
   * failure surfaces.
   */
  lemma LeafObjects(h: Heap, i: ObjId, st: EncState)
    requires Closed(h) && i < |h| && i !in st.ids
    requires h[i].TextStream? || h[i].ByteStream? || h[i].Opaque?
    ensures Enc(h, Ref(i), st).st == Register(st, i)
    ensures h[i].TextStream? ==>
      Enc(h, Ref(i), st).r == Ok(TDict([(StringIOKey, TScalar(Str(h[i].text))), (StringIOPosKey, TScalar(Int(h[i].pos)))]))
    ensures h[i].ByteStream? ==>
      Enc(h, Ref(i), st).r == Ok(TDict([(BytesIOKey, TScalar(Str(Hex.ToHex(h[i].data)))), (BytesIOPosKey, TScalar(Int(h[i].pos)))]))
    ensures h[i] == Opaque(None) ==> Enc(h, Ref(i), st).r == Err(PickleFailure)
    ensures h[i].Opaque? && h[i].image.Some? ==>
      Enc(h, Ref(i), st).r == Ok(TDict([(PickleKey, TScalar(Str(Hex.ToHex(h[i].image.value))))]))
  {
    EncObjectUnfold(h, i, st);
  }

  /** Ordinals stay distinct and within 1..counter, from a new serializer on. */
  lemma {:induction false} EncKeepsInv(h: Heap, v: Value, st: EncState)
    requires Closed(h) && ValueIn(h, v) && EncInv(st)
    ensures EncInv(Enc(h, v, st).st)
  {
    var st2 := Enc(h, v, st).st;
    assert Extends(h, st, st2);
    forall a, b | a in st2.ids && b in st2.ids && a != b
      ensures st2.ids[a] != st2.ids[b]
    {
      if a in st.ids && b !in st.ids {
        assert st2.ids[a] == st.ids[a] <= st.counter < st2.ids[b];
      } else if b in st.ids && a !in st.ids {
        assert st2.ids[b] == st.ids[b] <= st.counter < st2.ids[a];
      }
    }
  }

  lemma FreshInv()
    ensures EncInv(EncState(map[], 0))
  {
  }

  // ---------------------------------------------------------------------------
  // Node shapes

  /** A dict's entries are encoded under the same keys in the same order. */
  lemma {:induction false} EntriesKeepKeys(h: Heap, es: Entries, k: nat, acc: seq<(Prim, Tree)>, st: EncState,
                                           bound: nat, owner: Value)
    requires Closed(h) && AllIn(h, EntryValues(es)) && k <= |es| && Pending(h, st) < bound
    requires Keys(acc) == Keys(es)[..k]
    ensures var out := EncEntries(h, es, k, acc, st, bound, owner);
      out.r.Ok? ==> Keys(out.r.value) == Keys(es)
    decreases |es| - k
  {
    if k < |es| {
      EntryIn(h, es, k);
      var o := Enc(h, es[k].1, st);
      if o.r.Ok? {
        var acc2 := acc + [(es[k].0, o.r.value)];
        EncEntriesNext(h, es, k, acc, st, bound, owner, o.r, o.st);
        KeysConcat(acc, [(es[k].0, o.r.value)]);
        TakeOneMore(Keys(es), k);
        EntriesKeepKeys(h, es, k + 1, acc2, o.st, bound, owner);
      }
    }
  }

  /** The first two entries of every typed node: the class name and the base names. */
  lemma TypedHead(cls: TypeDesc, rest: seq<(Prim, Tree)>)
    ensures var es := Typed(cls, rest).entries;
      Keys(es) == [TypeKey, BasesKey] + Keys(rest) &&
      es[0].1 == TScalar(Str(cls.name)) && es[1].1 == NameList(cls.bases)
  {
    var head := [(TypeKey, TScalar(Str(cls.name))), (BasesKey, NameList(cls.bases))];
    KeysConcat(head, rest);
    assert Keys(head) == [TypeKey, BasesKey];
  }

  // The lemmas below are about `EncContents`, the node of an object that has
  // just been registered; `EncObjectUnfold` shows that `Enc` of a new
  // object is `EncContents` after `Register`.

  /** A list becomes `{'__list__': [...]}` with one node per item. */
  lemma ListShape(h: Heap, i: ObjId, st0: EncState, bound: nat)
    requires Closed(h) && i < |h| && Pending(h, st0) < bound && h[i].ListObj?
    ensures var o := EncContents(h, i, st0, bound);
      o.r.Ok? ==> (o.r.value.TDict? && |o.r.value.entries| == 1 && o.r.value.entries[0].0 == ListKey &&
                   o.r.value.entries[0].1.TList? && |o.r.value.entries[0].1.items| == |h[i].items|)
  {
  }

  /** A set becomes `{'__set__': [...]}` with one node per member, in iteration order. */
  lemma SetShape(h: Heap, i: ObjId, st0: EncState, bound: nat)
    requires Closed(h) && i < |h| && Pending(h, st0) < bound && h[i].SetObj?
    ensures var o := EncContents(h, i, st0, bound);
      o.r.Ok? ==> (o.r.value.TDict? && |o.r.value.entries| == 1 && o.r.value.entries[0].0 == SetKey &&
                   o.r.value.entries[0].1.TList? && |o.r.value.entries[0].1.items| == |h[i].members|)
  {
  }

  /** A dict becomes `{'__dict__': {...}}` under its own keys, in order. */
  lemma DictShape(h: Heap, i: ObjId, st0: EncState, bound: nat)
    requires Closed(h) && i < |h| && Pending(h, st0) < bound && h[i].DictObj?
    ensures var o := EncContents(h, i, st0, bound);
      o.r.Ok? ==> (o.r.value.TDict? && |o.r.value.entries| == 1 && o.r.value.entries[0].0 == DictKey &&
                   o.r.value.entries[0].1.TDict? && Keys(o.r.value.entries[0].1.entries) == Keys(h[i].entries))
  {
    var es := h[i].entries;
    assert AllIn(h, Children(h[i]));
    EntriesKeepKeys(h, es, 0, [], st0, bound, Ref(i));
  }

  /**
   * An instance of a list subclass becomes a typed node carrying the class
   * name, its base names, the items under `__list__` and the attributes
   * under `__dict__`.
   */
  lemma ListSubclassShape(h: Heap, i: ObjId, st0: EncState, bound: nat)
    requires Closed(h) && i < |h| && Pending(h, st0) < bound && h[i].Instance? && h[i].payload.ListPayload?
    ensures var o := EncContents(h, i, st0, bound);
      o.r.Ok? ==> (o.r.value.TDict? && Keys(o.r.value.entries) == [TypeKey, BasesKey, ListKey, DictKey] &&
                   o.r.value.entries[0].1 == TScalar(Str(h[i].cls.name)) && o.r.value.entries[1].1 == NameList(h[i].cls.bases) &&
                   o.r.value.entries[2].1.TList? && |o.r.value.entries[2].1.items| == |h[i].payload.items| &&
                   o.r.value.entries[3].1.TDict? && Keys(o.r.value.entries[3].1.entries) == Keys(h[i].attrs))
  {
    var o := EncContents(h, i, st0, bound);
    var cls, xs, attrs := h[i].cls, h[i].payload.items, h[i].attrs;
    assert AllIn(h, Children(h[i]));
    AllInSplit(h, xs, EntryValues(attrs));
    var items := EncSeq(h, xs, 0, [], st0, bound, Ref(i));
    if items.r.Ok? {
      PendingShrinks(h, st0, items.st);
      var fields := EncEntries(h, attrs, 0, [], items.st, bound, Ref(i));
      if fields.r.Ok? {
        EntriesKeepKeys(h, attrs, 0, [], items.st, bound, Ref(i));
        var rest := [(ListKey, TList(items.r.value)), (DictKey, TDict(fields.r.value))];
        assert o.r == Ok(Typed(cls, rest));
        TypedHead(cls, rest);
        assert Keys(rest) == [ListKey, DictKey];
      }
    }
  }

  /**
   * An instance of a dict subclass becomes a typed node with its entries
   * under `__dict__` and `__custom_dict__` set to True.
   */
  lemma DictSubclassShape(h: Heap, i: ObjId, st0: EncState, bound: nat)
    requires Closed(h) && i < |h| && Pending(h, st0) < bound && h[i].Instance? && h[i].payload.DictPayload?
    ensures var o := EncContents(h, i, st0, bound);
      o.r.Ok? ==> (o.r.value.TDict? && Keys(o.r.value.entries) == [TypeKey, BasesKey, DictKey, CustomDictKey] &&
                   o.r.value.entries[0].1 == TScalar(Str(h[i].cls.name)) && o.r.value.entries[1].1 == NameList(h[i].cls.bases) &&
                   o.r.value.entries[2].1.TDict? && Keys(o.r.value.entries[2].1.entries) == Keys(h[i].payload.entries) &&
                   o.r.value.entries[3].1 == TScalar(Bool(true)))
  {
    var o := EncContents(h, i, st0, bound);
    var cls, es, attrs := h[i].cls, h[i].payload.entries, h[i].attrs;
    assert AllIn(h, Children(h[i]));
    AllInSplit(h, EntryValues(es), EntryValues(attrs));
    var entries := EncEntries(h, es, 0, [], st0, bound, Ref(i));
    if entries.r.Ok? {
      EntriesKeepKeys(h, es, 0, [], st0, bound, Ref(i));
      var rest := [(DictKey, TDict(entries.r.value)), (CustomDictKey, TScalar(Bool(true)))];
      assert o.r == Ok(Typed(cls, rest));
      TypedHead(cls, rest);
      assert Keys(rest) == [DictKey, CustomDictKey];
    }
  }

  /** Any other object with a `__dict__` becomes a typed node with its attributes under `__dict__`. */
  lemma InstanceShape(h: Heap, i: ObjId, st0: EncState, bound: nat)
    requires Closed(h) && i < |h| && Pending(h, st0) < bound && h[i].Instance? && h[i].payload.NoPayload?
    ensures var o := EncContents(h, i, st0, bound);
      o.r.Ok? ==> (o.r.value.TDict? && Keys(o.r.value.entries) == [TypeKey, BasesKey, DictKey] &&
                   o.r.value.entries[0].1 == TScalar(Str(h[i].cls.name)) && o.r.value.entries[1].1 == NameList(h[i].cls.bases) &&
                   o.r.value.entries[2].1.TDict? && Keys(o.r.value.entries[2].1.entries) == Keys(h[i].attrs))
  {
    var o := EncContents(h, i, st0, bound);
    var cls, attrs := h[i].cls, h[i].attrs;
    assert AllIn(h, Children(h[i]));
    AllInSplit(h, [], EntryValues(attrs));
    var fields := EncEntries(h, attrs, 0, [], st0, bound, Ref(i));
    if fields.r.Ok? {
      EntriesKeepKeys(h, attrs, 0, [], st0, bound, Ref(i));
      var rest := [(DictKey, TDict(fields.r.value))];
      assert o.r == Ok(Typed(cls, rest));
      TypedHead(cls, rest);
    }
  }
}
