/**
 * The encoder `Serializer.serialize` / `_serialize` as a function of the
 * heap, the value and the identity registry with its counter. Dispatch is
 * first-match in the source's order: an already registered object, a
 * scalar, a list subclass with `__dict__`, a dict subclass with `__dict__`,
 * list, dict, set, tuple, StringIO, BytesIO, any other object with
 * `__dict__`, and the pickle fallback. Every branch that registers an
 * object does so before it encodes the object's children.
 */
module Encoder {
  import opened Values
  import opened Wire
  import Hex

  /** `object_registry` keyed by identity, and `object_id_counter`. */
  datatype EncState = EncState(ids: map<ObjId, nat>, counter: nat)

  datatype EncOut = EncOut(r: Result<Tree>, st: EncState)
  datatype EncSeqOut = EncSeqOut(r: Result<seq<Tree>>, st: EncState)
  datatype EncEntriesOut = EncEntriesOut(r: Result<seq<(Prim, Tree)>>, st: EncState)

  // ---------------------------------------------------------------------------
  // Registry bookkeeping

  function Unregistered(h: Heap, ids: map<ObjId, nat>): set<ObjId> {
    set i | 0 <= i < |h| && i !in ids
  }

  /** How many heap objects may still be registered: the encoder's termination measure. */
  function Pending(h: Heap, st: EncState): nat {
    |Unregistered(h, st.ids)|
  }

  /**
   * `st2` is `st1` after zero or more registrations: old entries are kept,
   * every new entry is a heap object with a fresh ordinal above the old
   * counter, and new ordinals are distinct.
   */
  predicate Extends(h: Heap, st1: EncState, st2: EncState) {
    st1.counter <= st2.counter &&
    (forall k :: k in st1.ids ==> k in st2.ids && st2.ids[k] == st1.ids[k]) &&
    (forall k :: k in st2.ids && k !in st1.ids ==> k < |h| && st1.counter < st2.ids[k] <= st2.counter) &&
    (forall a, b :: a in st2.ids && b in st2.ids && a !in st1.ids && b !in st1.ids && a != b ==>
       st2.ids[a] != st2.ids[b])
  }

  /** Ordinals are distinct and lie in 1..counter. Holds of a new Serializer. */
  predicate EncInv(st: EncState) {
    (forall k :: k in st.ids ==> 1 <= st.ids[k] <= st.counter) &&
    (forall a, b :: a in st.ids && b in st.ids && a != b ==> st.ids[a] != st.ids[b])
  }

  /** Registering identity `i`: `object_id_counter += 1; object_registry[id(obj)] = object_id_counter`. */
  function Register(st: EncState, i: ObjId): (st2: EncState)
    requires i !in st.ids
    ensures st2.counter == st.counter + 1 && st2.ids == st.ids[i := st2.counter]
  {
    EncState(st.ids[i := st.counter + 1], st.counter + 1)
  }

  lemma RegisterExtends(h: Heap, st: EncState, i: ObjId)
    requires i < |h| && i !in st.ids
    ensures Extends(h, st, Register(st, i))
  {
  }

  lemma PendingShrinks(h: Heap, st1: EncState, st2: EncState)
    requires forall k :: k in st1.ids ==> k in st2.ids
    ensures Pending(h, st2) <= Pending(h, st1)
  {
    var u1, u2 := Unregistered(h, st1.ids), Unregistered(h, st2.ids);
    assert u2 <= u1;
    assert u1 == u2 + (u1 - u2);
  }

  lemma PendingDrops(h: Heap, st: EncState, i: ObjId)
    requires i < |h| && i !in st.ids
    ensures Pending(h, Register(st, i)) == Pending(h, st) - 1
  {
    var u1, u2 := Unregistered(h, st.ids), Unregistered(h, Register(st, i).ids);
    assert u2 == u1 - {i};
  }

  lemma ExtendsTrans(h: Heap, st1: EncState, st2: EncState, st3: EncState)
    requires Extends(h, st1, st2) && Extends(h, st2, st3)
    ensures Extends(h, st1, st3)
  {
  }

  lemma AllInSplit(h: Heap, xs: seq<Value>, ys: seq<Value>)
    requires AllIn(h, xs + ys)
    ensures AllIn(h, xs) && AllIn(h, ys)
  {
    forall j | 0 <= j < |xs| ensures ValueIn(h, xs[j]) {
      assert (xs + ys)[j] == xs[j];
    }
    forall j | 0 <= j < |ys| ensures ValueIn(h, ys[j]) {
      assert (xs + ys)[|xs| + j] == ys[j];
    }
  }

  // ---------------------------------------------------------------------------
  // The encoding

  /** `_serialize(obj)`. */
  function Enc(h: Heap, v: Value, st: EncState): (out: EncOut)
    requires Closed(h) && ValueIn(h, v)
    ensures Extends(h, st, out.st)
    decreases Pending(h, st), v, 3, 0
  {
    match v
    case Ref(i) =>
      if i in st.ids then EncOut(Ok(RefNode(st.ids[i])), st)
      else EncObject(h, i, st)
    case Scalar(p) => EncOut(Ok(TScalar(p)), st)
    case Tup(xs) =>
      var o := EncSeq(h, xs, 0, [], st, Pending(h, st), v);
      EncOut(if o.r.Err? then Err(o.r.error) else Ok(TDict([(TupleKey, TList(o.r.value))])), o.st)
  }

  /**
   * The items `xs[k..]` encoded left to right and appended to `acc`, which
   * holds the nodes of `xs[..k]`; the first error ends the walk.
   */
  function EncSeq(h: Heap, xs: seq<Value>, k: nat, acc: seq<Tree>, st: EncState, ghost bound: nat, ghost owner: Value)
    : (out: EncSeqOut)
    requires Closed(h) && AllIn(h, xs) && k <= |xs|
    requires Pending(h, st) < bound || (Pending(h, st) == bound && owner == Tup(xs))
    ensures Extends(h, st, out.st)
    ensures out.r.Ok? ==> |out.r.value| == |acc| + |xs| - k && out.r.value[..|acc|] == acc
    decreases bound, owner, 0, |xs| - k
  {
    if k == |xs| then EncSeqOut(Ok(acc), st)
    else
      var o := Enc(h, xs[k], st);
      if o.r.Err? then EncSeqOut(Err(o.r.error), o.st)
      else
        PendingShrinks(h, st, o.st);
        var out := EncSeq(h, xs, k + 1, acc + [o.r.value], o.st, bound, owner);
        ExtendsTrans(h, st, o.st, out.st);
        assert out.r.Ok? ==> out.r.value[..|acc|] == (acc + [o.r.value])[..|acc|];
        out
  }

  /** The entries `es[k..]`: keys as they are, values encoded left to right, appended to `acc`. */
  function EncEntries(h: Heap, es: Entries, k: nat, acc: seq<(Prim, Tree)>, st: EncState,
                      ghost bound: nat, ghost owner: Value)
    : (out: EncEntriesOut)
    requires Closed(h) && AllIn(h, EntryValues(es)) && k <= |es|
    requires Pending(h, st) < bound
    ensures Extends(h, st, out.st)
    decreases bound, owner, 0, |es| - k
  {
    if k == |es| then EncEntriesOut(Ok(acc), st)
    else
      assert ValueIn(h, EntryValues(es)[k]);
      var o := Enc(h, es[k].1, st);
      if o.r.Err? then EncEntriesOut(Err(o.r.error), o.st)
      else
        PendingShrinks(h, st, o.st);
        var out := EncEntries(h, es, k + 1, acc + [(es[k].0, o.r.value)], o.st, bound, owner);
        ExtendsTrans(h, st, o.st, out.st);
        out
  }

  /** One step of `EncSeq` when the item encodes. */
  lemma EncSeqStep(h: Heap, xs: seq<Value>, k: nat, acc: seq<Tree>, st: EncState, bound: nat, owner: Value,
                   t: Tree, st1: EncState)
    requires Closed(h) && AllIn(h, xs) && k < |xs|
    requires Pending(h, st) < bound || (Pending(h, st) == bound && owner == Tup(xs))
    requires Enc(h, xs[k], st) == EncOut(Ok(t), st1)
    ensures Pending(h, st1) < bound || (Pending(h, st1) == bound && owner == Tup(xs))
    ensures EncSeq(h, xs, k, acc, st, bound, owner) == EncSeq(h, xs, k + 1, acc + [t], st1, bound, owner)
  {
    PendingShrinks(h, st, st1);
  }

  /** `EncSeq` stops at an item that fails to encode. */
  lemma EncSeqStop(h: Heap, xs: seq<Value>, k: nat, acc: seq<Tree>, st: EncState, bound: nat, owner: Value,
                   e: Error, st1: EncState)
    requires Closed(h) && AllIn(h, xs) && k < |xs|
    requires Pending(h, st) < bound || (Pending(h, st) == bound && owner == Tup(xs))
    requires Enc(h, xs[k], st) == EncOut(Err(e), st1)
    ensures EncSeq(h, xs, k, acc, st, bound, owner) == EncSeqOut(Err(e), st1)
  {
  }

  lemma EntryIn(h: Heap, es: Entries, k: nat)
    requires AllIn(h, EntryValues(es)) && k < |es|
    ensures ValueIn(h, es[k].1)
  {
    assert EntryValues(es)[k] == es[k].1;
  }

  /** One step of `EncEntries`: it stops at an entry whose value fails to encode, else moves on. */
  lemma EncEntriesNext(h: Heap, es: Entries, k: nat, acc: seq<(Prim, Tree)>, st: EncState, bound: nat, owner: Value,
                       t: Result<Tree>, st1: EncState)
    requires Closed(h) && AllIn(h, EntryValues(es)) && k < |es| && Pending(h, st) < bound
    requires ValueIn(h, es[k].1) && Enc(h, es[k].1, st) == EncOut(t, st1)
    ensures t.Err? ==> EncEntries(h, es, k, acc, st, bound, owner) == EncEntriesOut(Err(t.error), st1)
    ensures t.Ok? ==> Pending(h, st1) < bound
    ensures t.Ok? ==> EncEntries(h, es, k, acc, st, bound, owner) == EncEntries(h, es, k + 1, acc + [(es[k].0, t.value)], st1, bound, owner)
  {
    if t.Ok? { PendingShrinks(h, st, st1); }
  }

  /** `{'__type__': …, '__bases__': […], …rest}`. */
  function Typed(cls: TypeDesc, rest: seq<(Prim, Tree)>): Tree {
    TDict([(TypeKey, TScalar(Str(cls.name))), (BasesKey, NameList(cls.bases))] + rest)
  }

  /** An object not yet registered: register it, then encode it by its category. */
  function EncObject(h: Heap, i: ObjId, st: EncState): (out: EncOut)
    requires Closed(h) && i < |h| && i !in st.ids
    ensures Extends(h, st, out.st)
    ensures i in out.st.ids && out.st.ids[i] == st.counter + 1
    decreases Pending(h, st), Ref(i), 2, 0
  {
    var st0 := Register(st, i);
    PendingDrops(h, st, i);
    RegisterExtends(h, st, i);
    var out := EncContents(h, i, st0, Pending(h, st));
    ExtendsTrans(h, st, st0, out.st);
    out
  }

  /** `EncObject` registers first, then encodes the contents with one object fewer pending. */
  lemma EncObjectUnfold(h: Heap, i: ObjId, st: EncState)
    requires Closed(h) && i < |h| && i !in st.ids
    ensures Pending(h, Register(st, i)) < Pending(h, st)
    ensures EncObject(h, i, st) == EncContents(h, i, Register(st, i), Pending(h, st))
  {
    PendingDrops(h, st, i);
  }

  /** The node for the registered object `i`, by its category; its children are encoded from `st0`. */
  function EncContents(h: Heap, i: ObjId, st0: EncState, ghost bound: nat): (out: EncOut)
    requires Closed(h) && i < |h| && Pending(h, st0) < bound
    ensures Extends(h, st0, out.st)
    decreases bound, Ref(i), 1, 0
  {
    assert AllIn(h, Children(h[i]));
    match h[i]
    case Instance(cls, attrs, ListPayload(xs)) =>
      AllInSplit(h, xs, EntryValues(attrs));
      var items := EncSeq(h, xs, 0, [], st0, bound, Ref(i));
      if items.r.Err? then EncOut(Err(items.r.error), items.st)
      else
        PendingShrinks(h, st0, items.st);
        var fields := EncEntries(h, attrs, 0, [], items.st, bound, Ref(i));
        ExtendsTrans(h, st0, items.st, fields.st);
        if fields.r.Err? then EncOut(Err(fields.r.error), fields.st)
        else EncOut(Ok(Typed(cls, [(ListKey, TList(items.r.value)), (DictKey, TDict(fields.r.value))])), fields.st)
    case Instance(cls, attrs, DictPayload(es)) =>
      AllInSplit(h, EntryValues(es), EntryValues(attrs));
      var entries := EncEntries(h, es, 0, [], st0, bound, Ref(i));
      if entries.r.Err? then EncOut(Err(entries.r.error), entries.st)
      else EncOut(Ok(Typed(cls, [(DictKey, TDict(entries.r.value)), (CustomDictKey, TScalar(Bool(true)))])), entries.st)
    case ListObj(xs) =>
      var items := EncSeq(h, xs, 0, [], st0, bound, Ref(i));
      if items.r.Err? then EncOut(Err(items.r.error), items.st)
      else EncOut(Ok(TDict([(ListKey, TList(items.r.value))])), items.st)
    case DictObj(es) =>
      var entries := EncEntries(h, es, 0, [], st0, bound, Ref(i));
      if entries.r.Err? then EncOut(Err(entries.r.error), entries.st)
      else EncOut(Ok(TDict([(DictKey, TDict(entries.r.value))])), entries.st)
    case SetObj(ms) =>
      var items := EncSeq(h, ms, 0, [], st0, bound, Ref(i));
      if items.r.Err? then EncOut(Err(items.r.error), items.st)
      else EncOut(Ok(TDict([(SetKey, TList(items.r.value))])), items.st)
    case TextStream(text, pos) =>
      EncOut(Ok(TDict([(StringIOKey, TScalar(Str(text))), (StringIOPosKey, TScalar(Int(pos)))])), st0)
    case ByteStream(data, pos) =>
      EncOut(Ok(TDict([(BytesIOKey, TScalar(Str(Hex.ToHex(data)))), (BytesIOPosKey, TScalar(Int(pos)))])), st0)
    case Instance(cls, attrs, NoPayload) =>
      assert EntryValues(attrs) == Children(h[i]);
      var fields := EncEntries(h, attrs, 0, [], st0, bound, Ref(i));
      if fields.r.Err? then EncOut(Err(fields.r.error), fields.st)
      else EncOut(Ok(Typed(cls, [(DictKey, TDict(fields.r.value))])), fields.st)
    case Opaque(image) =>
      if image.None? then EncOut(Err(PickleFailure), st0)
      else EncOut(Ok(TDict([(PickleKey, TScalar(Str(Hex.ToHex(image.value))))])), st0)
  }
}
