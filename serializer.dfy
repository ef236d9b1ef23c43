/**
 * The `Serializer` object itself: its type registry, its object registry
 * and its counter, updated in place by `register_type`, `serialize` and
 * `deserialize`. The objects the codec reads and builds live outside the
 * serializer, in a heap that is passed in and handed back. Every method is
 * proved to compute exactly what the `Encoder` or `Decoder` function its
 * `ensures` names computes from the state the method starts in; the
 * properties of those functions are proved in `EncoderFacts`,
 * `DecoderFacts`, `IterationFacts`, `ObjectFacts`, `SubclassFacts` and
 * `RoundTrip`.
 */
module Codec {
  import opened Values
  import opened Wire
  import opened Encoder
  import opened Decoder
  import Hex

  class Serializer {
    /** `type_registry`: class name to class. */
    var typeRegistry: map<string, TypeDesc>
    /** `object_registry` as `serialize` uses it: `id(obj)` to ordinal. */
    var identities: map<ObjId, nat>
    /** `object_registry` as `deserialize` uses it: ordinal to object. */
    var bindings: map<nat, Value>
    /** `object_id_counter`, shared by both directions. */
    var counter: nat

    function EncView(): EncState
      reads this
    {
      EncState(identities, counter)
    }

    function DecView(h: Heap): DecState
      reads this
    {
      DecState(bindings, counter, h)
    }

    constructor ()
      ensures typeRegistry == map[] && identities == map[] && bindings == map[] && counter == 0
    {
      typeRegistry := map[];
      identities := map[];
      bindings := map[];
      counter := 0;
    }

    /** `register_type(cls)`: a later class of the same name replaces an earlier one. */
    method RegisterType(cls: TypeDesc) returns (r: TypeDesc)
      modifies this
      ensures r == cls && typeRegistry == old(typeRegistry)[cls.name := cls]
      ensures identities == old(identities) && bindings == old(bindings) && counter == old(counter)
    {
      typeRegistry := typeRegistry[cls.name := cls];
      r := cls;
    }

    // -------------------------------------------------------------------------
    // serialize

    /** `serialize(obj)` / `_serialize(obj)`: the identity registry and counter carry over between calls. */
    method Serialize(h: Heap, v: Value) returns (r: Result<Tree>)
      requires Closed(h) && ValueIn(h, v)
      modifies this
      ensures EncOut(r, EncView()) == Enc(h, v, old(EncView()))
      ensures typeRegistry == old(typeRegistry) && bindings == old(bindings)
      decreases Pending(h, EncView()), v, 3, 0
    {
      match v
      case Ref(i) =>
        if i in identities {
          r := Ok(RefNode(identities[i]));
        } else {
          r := SerializeObject(h, i);
        }
      case Scalar(p) =>
        r := Ok(TScalar(p));
      case Tup(xs) =>
        var items := SerializeSeq(h, xs, Pending(h, EncView()), v);
        r := if items.Err? then Err(items.error) else Ok(TDict([(TupleKey, TList(items.value))]));
    }

    /** Register an object seen for the first time, then encode it. */
    method SerializeObject(h: Heap, i: ObjId) returns (r: Result<Tree>)
      requires Closed(h) && i < |h| && i !in identities
      modifies this
      ensures EncOut(r, EncView()) == EncObject(h, i, old(EncView()))
      ensures typeRegistry == old(typeRegistry) && bindings == old(bindings)
      decreases Pending(h, EncView()), Ref(i), 2, 0
    {
      ghost var st := EncView();
      PendingDrops(h, st, i);
      counter := counter + 1;
      identities := identities[i := counter];
      assert EncView() == Register(st, i);
      assert EncObject(h, i, st) == EncContents(h, i, Register(st, i), Pending(h, st));
      r := SerializeContents(h, i, Pending(h, st));
    }

    /** The node for the registered object `i`. */
    method SerializeContents(h: Heap, i: ObjId, ghost bound: nat) returns (r: Result<Tree>)
      requires Closed(h) && i < |h| && Pending(h, EncView()) < bound
      modifies this
      ensures EncOut(r, EncView()) == EncContents(h, i, old(EncView()), bound)
      ensures typeRegistry == old(typeRegistry) && bindings == old(bindings)
      decreases bound, Ref(i), 1, 0
    {
      assert AllIn(h, Children(h[i]));
      match h[i]
      case Instance(cls, attrs, ListPayload(xs)) =>
        AllInSplit(h, xs, EntryValues(attrs));
        ghost var st0 := EncView();
        var items := SerializeSeq(h, xs, bound, Ref(i));
        if items.Err? {
          r := Err(items.error);
        } else {
          PendingShrinks(h, st0, EncView());
          var fields := SerializeEntries(h, attrs, bound, Ref(i));
          r := if fields.Err? then Err(fields.error)
               else Ok(Typed(cls, [(ListKey, TList(items.value)), (DictKey, TDict(fields.value))]));
        }
      case Instance(cls, attrs, DictPayload(es)) =>
        AllInSplit(h, EntryValues(es), EntryValues(attrs));
        var entries := SerializeEntries(h, es, bound, Ref(i));
        r := if entries.Err? then Err(entries.error)
             else Ok(Typed(cls, [(DictKey, TDict(entries.value)), (CustomDictKey, TScalar(Bool(true)))]));
      case ListObj(xs) =>
        var items := SerializeSeq(h, xs, bound, Ref(i));
        r := if items.Err? then Err(items.error) else Ok(TDict([(ListKey, TList(items.value))]));
      case DictObj(es) =>
        var entries := SerializeEntries(h, es, bound, Ref(i));
        r := if entries.Err? then Err(entries.error) else Ok(TDict([(DictKey, TDict(entries.value))]));
      case SetObj(ms) =>
        var items := SerializeSeq(h, ms, bound, Ref(i));
        r := if items.Err? then Err(items.error) else Ok(TDict([(SetKey, TList(items.value))]));
      case TextStream(text, pos) =>
        r := Ok(TDict([(StringIOKey, TScalar(Str(text))), (StringIOPosKey, TScalar(Int(pos)))]));
      case ByteStream(data, pos) =>
        r := Ok(TDict([(BytesIOKey, TScalar(Str(Hex.ToHex(data)))), (BytesIOPosKey, TScalar(Int(pos)))]));
      case Instance(cls, attrs, NoPayload) =>
        assert EntryValues(attrs) == Children(h[i]);
        var fields := SerializeEntries(h, attrs, bound, Ref(i));
        r := if fields.Err? then Err(fields.error) else Ok(Typed(cls, [(DictKey, TDict(fields.value))]));
      case Opaque(image) =>
        r := if image.None? then Err(PickleFailure) else Ok(TDict([(PickleKey, TScalar(Str(Hex.ToHex(image.value))))]));
    }

    /** `[_serialize(item) for item in obj]`. */
    method SerializeSeq(h: Heap, xs: seq<Value>, ghost bound: nat, ghost owner: Value) returns (r: Result<seq<Tree>>)
      requires Closed(h) && AllIn(h, xs)
      requires Pending(h, EncView()) < bound || (Pending(h, EncView()) == bound && owner == Tup(xs))
      modifies this
      ensures EncSeqOut(r, EncView()) == EncSeq(h, xs, 0, [], old(EncView()), bound, owner)
      ensures typeRegistry == old(typeRegistry) && bindings == old(bindings)
      decreases bound, owner, 0
    {
      ghost var goal := EncSeq(h, xs, 0, [], EncView(), bound, owner);
      var acc: seq<Tree> := [];
      var k := 0;
      while k < |xs|
        invariant k <= |xs|
        invariant Pending(h, EncView()) < bound || (Pending(h, EncView()) == bound && owner == Tup(xs))
        invariant EncSeq(h, xs, k, acc, EncView(), bound, owner) == goal
        invariant typeRegistry == old(typeRegistry) && bindings == old(bindings)
      {
        ghost var st := EncView();
        var t := Serialize(h, xs[k]);
        assert EncOut(t, EncView()) == Enc(h, xs[k], st);
        if t.Err? {
          EncSeqStop(h, xs, k, acc, st, bound, owner, t.error, EncView());
          return Err(t.error);
        }
        EncSeqStep(h, xs, k, acc, st, bound, owner, t.value, EncView());
        acc := acc + [t.value];
        k := k + 1;
      }
      r := Ok(acc);
    }

    /** `{key: _serialize(value) for key, value in items}`. */
    method SerializeEntries(h: Heap, es: Entries, ghost bound: nat, ghost owner: Value)
      returns (r: Result<seq<(Prim, Tree)>>)
      requires Closed(h) && AllIn(h, EntryValues(es)) && Pending(h, EncView()) < bound
      modifies this
      ensures EncEntriesOut(r, EncView()) == EncEntries(h, es, 0, [], old(EncView()), bound, owner)
      ensures typeRegistry == old(typeRegistry) && bindings == old(bindings)
      decreases bound, owner, 0, 1
    {
      ghost var goal := EncEntries(h, es, 0, [], EncView(), bound, owner);
      var acc: seq<(Prim, Tree)> := [];
      var k := 0;
      while k < |es|
        invariant k <= |es| && Pending(h, EncView()) < bound
        invariant EncEntries(h, es, k, acc, EncView(), bound, owner) == goal
        invariant typeRegistry == old(typeRegistry) && bindings == old(bindings)
      {
        ghost var before := EncView();
        var t := SerializeEntry(h, es, k, acc, bound, owner);
        assert EncEntries(h, es, k, acc, before, bound, owner) == goal;
        if t.Err? {
          assert EncEntriesOut(Err(t.error), EncView()) == goal;
          return Err(t.error);
        }
        acc := acc + [(es[k].0, t.value)];
        k := k + 1;
      }
      assert EncEntries(h, es, k, acc, EncView(), bound, owner) == EncEntriesOut(Ok(acc), EncView());
      r := Ok(acc);
    }

    /** The value of entry `k`, one step of `SerializeEntries`. */
    method SerializeEntry(h: Heap, es: Entries, k: nat, ghost acc: seq<(Prim, Tree)>, ghost bound: nat, ghost owner: Value)
      returns (t: Result<Tree>)
      requires Closed(h) && AllIn(h, EntryValues(es)) && k < |es| && Pending(h, EncView()) < bound
      modifies this
      ensures t.Err? ==> EncEntries(h, es, k, acc, old(EncView()), bound, owner) == EncEntriesOut(Err(t.error), EncView())
      ensures t.Ok? ==> Pending(h, EncView()) < bound
      ensures t.Ok? ==> EncEntries(h, es, k, acc, old(EncView()), bound, owner)
                        == EncEntries(h, es, k + 1, acc + [(es[k].0, t.value)], EncView(), bound, owner)
      ensures typeRegistry == old(typeRegistry) && bindings == old(bindings)
      decreases bound, owner, 0, 0
    {
      ghost var st := EncView();
      EntryIn(h, es, k);
      t := Serialize(h, es[k].1);
      EncEntriesNext(h, es, k, acc, st, bound, owner, t, EncView());
    }

    // -------------------------------------------------------------------------
    // deserialize

    /** `deserialize(data)`: empty the object registry, zero the counter, decode. */
    method Deserialize(t: Tree, h: Heap) returns (r: Result<Value>, h2: Heap)
      modifies this
      ensures DecOut(r, DecView(h2)) == Dec(typeRegistry, t, Reset(h))
      ensures identities == map[] && typeRegistry == old(typeRegistry)
    {
      identities := map[];
      bindings := map[];
      counter := 0;
      r, h2 := DeserializeValue(t, h);
    }

    /** `_deserialize(d)`. */
    method DeserializeValue(t: Tree, h: Heap) returns (r: Result<Value>, h2: Heap)
      modifies this
      ensures DecOut(r, DecView(h2)) == Dec(typeRegistry, t, old(DecView(h)))
      ensures typeRegistry == old(typeRegistry) && identities == old(identities)
      decreases t, 3, 0
    {
      match t
      case TScalar(p) =>
        r, h2 := Ok(Scalar(p)), h;
      case TList(items) =>
        ghost var st := DecView(h);
        var id := |h|;
        BindObject(id);
        assert DecView(h + [ListObj([])]) == BindNew(st, ListObj([]));
        var vs;
        vs, h2 := DeserializeEach(t, AppendTo(id), h + [ListObj([])]);
        r := if vs.Err? then Err(vs.error) else Ok(Ref(id));
      case TDict(_) =>
        r, h2 := DeserializeDict(t, h);
      case TOther =>
        r, h2 := Err(NotDeserializable), h;
    }

    /** `object_registry[object_id_counter] = obj; object_id_counter += 1` for the object at `id`. */
    method BindObject(id: ObjId)
      modifies this
      ensures bindings == old(bindings)[old(counter) := Ref(id)] && counter == old(counter) + 1
      ensures typeRegistry == old(typeRegistry) && identities == old(identities)
    {
      bindings := bindings[counter := Ref(id)];
      counter := counter + 1;
    }

    /** `for item in node: sink(_deserialize(item))`, or the same over a dict's `(key, value)` pairs. */
    method DeserializeEach(node: Tree, sink: Sink, h: Heap) returns (r: Result<seq<Value>>, h2: Heap)
      requires node.TList? || node.TDict?
      modifies this
      ensures DecSeqOut(r, DecView(h2)) == DecEach(typeRegistry, node, 0, [], sink, old(DecView(h)))
      ensures typeRegistry == old(typeRegistry) && identities == old(identities)
      decreases node, 0, 0
    {
      ghost var types := typeRegistry;
      ghost var goal := DecEach(types, node, 0, [], sink, DecView(h));
      var acc: seq<Value> := [];
      var k := 0;
      h2 := h;
      while k < Arity(node)
        invariant k <= Arity(node)
        invariant DecEach(types, node, k, acc, sink, DecView(h2)) == goal
        invariant typeRegistry == types && identities == old(identities)
      {
        ghost var cur := DecView(h2);
        var v;
        v, h2 := DeserializeValue(Child(node, k), h2);
        assert DecOut(v, DecView(h2)) == Dec(types, Child(node, k), cur);
        if v.Err? {
          return Err(v.error), h2;
        }
        var delivered := Deliver(DecView(h2), sink, Key(node, k), v.value);
        if delivered.Err? {
          return Err(delivered.error), h2;
        }
        DecEachStep(types, node, k, acc, sink, cur, v.value, DecView(h2), delivered.value);
        h2 := delivered.value.heap;
        acc := acc + [v.value];
        k := k + 1;
      }
      r := Ok(acc);
    }

    /** A dict node, dispatched on its marker keys. */
    method DeserializeDict(t: Tree, h: Heap) returns (r: Result<Value>, h2: Heap)
      requires t.TDict?
      modifies this
      ensures DecOut(r, DecView(h2)) == DecDict(typeRegistry, t, old(DecView(h)))
      ensures typeRegistry == old(typeRegistry) && identities == old(identities)
      decreases t, 2, 0
    {
      var es := t.entries;
      if Has(es, RefKey) {
        r, h2 := Resolve(DecView(h), es[Find(es, RefKey)].1), h;
      } else if Has(es, TypeKey) && Has(es, DictKey) {
        r, h2 := DeserializeTyped(t, h);
      } else if Has(es, SetKey) {
        r, h2 := DeserializeSet(t, h);
      } else if Has(es, TupleKey) {
        r, h2 := DeserializeTuple(t, h);
      } else if Has(es, StringIOKey) || Has(es, BytesIOKey) || Has(es, PickleKey) {
        r, h2 := DeserializeLeaf(t, h);
      } else if Has(es, ListKey) {
        r, h2 := DeserializeListMarker(t, h);
      } else if Has(es, DictKey) {
        r, h2 := DeserializeDictMarker(t, h);
      } else {
        r, h2 := DeserializePlainDict(t, h);
      }
    }

    method DeserializeSet(t: Tree, h: Heap) returns (r: Result<Value>, h2: Heap)
      requires t.TDict? && Has(t.entries, SetKey)
      modifies this
      ensures DecOut(r, DecView(h2)) == DecSet(typeRegistry, t, old(DecView(h)))
      ensures typeRegistry == old(typeRegistry) && identities == old(identities)
      decreases t, 1, 0
    {
      ghost var st := DecView(h);
      var es := t.entries;
      var id := |h|;
      BindObject(id);
      h2 := h + [SetObj([])];
      assert DecView(h2) == BindNew(st, SetObj([]));
      var node := es[Find(es, SetKey)].1;
      if node.TList? {
        var vs;
        vs, h2 := DeserializeEach(node, AddTo(id), h2);
        r := if vs.Err? then Err(vs.error) else Ok(Ref(id));
      } else {
        var ps := IterPrims(node);
        if ps.Err? {
          r := Err(ps.error);
        } else {
          h2 := AddMembers(id, Scalars(ps.value), h2);
          r := Ok(Ref(id));
        }
      }
    }

    /** `for v in vs: obj.add(v)` on the set at `id`. */
    method AddMembers(id: ObjId, vs: seq<Value>, h: Heap) returns (h2: Heap)
      requires id < |h| && h[id].SetObj?
      ensures h2 == h[id := SetObj(AddAll(h[id].members, vs))]
    {
      h2 := h;
      var k := 0;
      while k < |vs|
        invariant k <= |vs| && |h2| == |h| && h2[id].SetObj? && h2 == h[id := h2[id]]
        invariant AddAll(h2[id].members, vs[k..]) == AddAll(h[id].members, vs)
      {
        assert vs[k..][0] == vs[k] && vs[k..][1..] == vs[k + 1..];
        h2 := h2[id := SetObj(SetAdd(h2[id].members, vs[k]))];
        k := k + 1;
      }
    }

    method DeserializeTuple(t: Tree, h: Heap) returns (r: Result<Value>, h2: Heap)
      requires t.TDict? && Has(t.entries, TupleKey)
      modifies this
      ensures DecOut(r, DecView(h2)) == DecTuple(typeRegistry, t, old(DecView(h)))
      ensures typeRegistry == old(typeRegistry) && identities == old(identities)
      decreases t, 1, 0
    {
      var es := t.entries;
      var node := es[Find(es, TupleKey)].1;
      if node.TList? {
        var vs;
        vs, h2 := DeserializeEach(node, Collect, h);
        r := if vs.Err? then Err(vs.error) else Ok(Tup(vs.value));
      } else {
        var ps := IterPrims(node);
        r, h2 := if ps.Err? then Err(ps.error) else Ok(Tup(Scalars(ps.value))), h;
      }
    }

    method DeserializeLeaf(t: Tree, h: Heap) returns (r: Result<Value>, h2: Heap)
      requires t.TDict?
      modifies this
      ensures DecOut(r, DecView(h2)) == DecLeaf(t, old(DecView(h)))
      ensures typeRegistry == old(typeRegistry) && identities == old(identities)
    {
      var es := t.entries;
      var id := |h|;
      var o: Result<Obj>;
      if Has(es, StringIOKey) {
        var text := InitialText(es[Find(es, StringIOKey)].1);
        var pos := SeekPos(es, StringIOPosKey);
        o := if text.Err? then Err(text.error) else if pos.Err? then Err(pos.error)
             else Ok(TextStream(text.value, pos.value));
      } else if Has(es, BytesIOKey) {
        var data := HexBytes(es[Find(es, BytesIOKey)].1);
        var pos := SeekPos(es, BytesIOPosKey);
        o := if data.Err? then Err(data.error) else if pos.Err? then Err(pos.error)
             else Ok(ByteStream(data.value, pos.value));
      } else {
        var image := HexBytes(if Has(es, PickleKey) then es[Find(es, PickleKey)].1 else TOther);
        o := if image.Err? then Err(image.error) else Ok(Opaque(Some(image.value)));
      }
      if o.Err? {
        r, h2 := Err(o.error), h;
      } else {
        BindObject(id);
        r, h2 := Ok(Ref(id)), h + [o.value];
      }
    }

    method DeserializeListMarker(t: Tree, h: Heap) returns (r: Result<Value>, h2: Heap)
      requires t.TDict? && Has(t.entries, ListKey)
      modifies this
      ensures DecOut(r, DecView(h2)) == DecListMarker(typeRegistry, t, old(DecView(h)))
      ensures typeRegistry == old(typeRegistry) && identities == old(identities)
      decreases t, 1, 0
    {
      var es := t.entries;
      r, h2 := DeserializeValue(es[Find(es, ListKey)].1, h);
      if r.Ok? {
        bindings := bindings[counter := r.value];
        counter := counter + 1;
      }
    }

    method DeserializeDictMarker(t: Tree, h: Heap) returns (r: Result<Value>, h2: Heap)
      requires t.TDict? && Has(t.entries, DictKey)
      modifies this
      ensures DecOut(r, DecView(h2)) == DecDictMarker(typeRegistry, t, old(DecView(h)))
      ensures typeRegistry == old(typeRegistry) && identities == old(identities)
      decreases t, 1, 0
    {
      ghost var st := DecView(h);
      var es := t.entries;
      var id := |h|;
      BindObject(id);
      assert DecView(h + [DictObj([])]) == BindNew(st, DictObj([]));
      var v;
      v, h2 := DeserializeValue(es[Find(es, DictKey)].1, h + [DictObj([])]);
      if v.Err? {
        r := v;
      } else {
        var items := ItemsOf(h2, v.value);
        if items.Err? {
          r := Err(items.error);
        } else {
          h2 := StoreItems(id, items.value, h2);
          r := Ok(Ref(id));
        }
      }
    }

    method DeserializePlainDict(t: Tree, h: Heap) returns (r: Result<Value>, h2: Heap)
      requires t.TDict?
      modifies this
      ensures DecOut(r, DecView(h2)) == DecPlainDict(typeRegistry, t, old(DecView(h)))
      ensures typeRegistry == old(typeRegistry) && identities == old(identities)
      decreases t, 1, 0
    {
      ghost var st := DecView(h);
      var id := |h|;
      BindObject(id);
      assert DecView(h + [DictObj([])]) == BindNew(st, DictObj([]));
      var vs;
      vs, h2 := DeserializeEach(t, EntryOf(id), h + [DictObj([])]);
      r := if vs.Err? then Err(vs.error) else Ok(Ref(id));
    }

    /** `for key, value in items: obj[key] = value` on the object at `id`. */
    method StoreItems(id: ObjId, items: Entries, h: Heap) returns (h2: Heap)
      ensures h2 == PutAll(DecView(h), id, items).heap
    {
      h2 := h;
      var k := 0;
      while k < |items|
        invariant k <= |items|
        invariant PutAll(DecView(h2), id, items[k..]) == PutAll(DecView(h), id, items)
      {
        assert items[k..][1..] == items[k + 1..];
        h2 := UpdateAt(DecView(h2), id, WithEntry(At(DecView(h2), id), items[k].0, items[k].1)).heap;
        k := k + 1;
      }
    }

    /** `for key, value in items: obj[key] = value` on a list-subclass instance, stopping at the first failure. */
    method AssignItems(id: ObjId, items: Entries, h: Heap) returns (r: Result<Value>, h2: Heap)
      ensures DecOut(r, DecView(h2)) == SetItems(DecView(h), id, items)
    {
      h2 := h;
      var k := 0;
      while k < |items|
        invariant k <= |items|
        invariant SetItems(DecView(h2), id, items[k..]) == SetItems(DecView(h), id, items)
      {
        assert items[k..][1..] == items[k + 1..];
        var o := WithItem(At(DecView(h2), id), items[k].0, items[k].1);
        if o.Err? {
          return Err(o.error), h2;
        }
        h2 := UpdateAt(DecView(h2), id, o.value).heap;
        k := k + 1;
      }
      r := Ok(Ref(id));
    }

    /** The class for a typed node: look the name up, then compose each registered base in. */
    method ResolveClass(nameNode: Tree, basesNode: Tree) returns (r: Result<TypeDesc>)
      ensures r == ClassFor(typeRegistry, nameNode, basesNode)
    {
      if !(nameNode.TScalar? && nameNode.p.Str?) || nameNode.p.s !in typeRegistry || Iterate(basesNode).Err? {
        return ClassFor(typeRegistry, nameNode, basesNode);
      }
      var name := nameNode.p.s;
      var bases := Iterate(basesNode).value;
      var cls := typeRegistry[name];
      var composed := false;
      ghost var goal := ComposeBases(typeRegistry, name, cls, false, bases, 0);
      var k := 0;
      while k < |bases|
        invariant k <= |bases|
        invariant ComposeBases(typeRegistry, name, cls, composed, bases, k) == goal
      {
        match bases[k] {
          case TScalar(Str(b)) =>
            if b in typeRegistry {
              if !composed && b == name {
                return Err(DuplicateBase);
              }
              var layout := MergeLayout(cls.layout, typeRegistry[b].layout);
              if layout.Err? {
                return Err(layout.error);
              }
              cls := TypeDesc(name, [cls.name, typeRegistry[b].name], layout.value);
              composed := true;
            }
          case TList(_) =>
            return Err(Unhashable);
          case TDict(_) =>
            return Err(Unhashable);
          case _ =>
        }
        k := k + 1;
      }
      r := Ok(cls);
    }

    method DeserializeTyped(t: Tree, h: Heap) returns (r: Result<Value>, h2: Heap)
      requires t.TDict? && Has(t.entries, TypeKey) && Has(t.entries, DictKey)
      modifies this
      ensures DecOut(r, DecView(h2)) == DecTyped(typeRegistry, t, old(DecView(h)))
      ensures typeRegistry == old(typeRegistry) && identities == old(identities)
      decreases t, 1, 0
    {
      ghost var st := DecView(h);
      var es := t.entries;
      var basesNode := if Has(es, BasesKey) then es[Find(es, BasesKey)].1 else TList([]);
      var cls := ResolveClass(es[Find(es, TypeKey)].1, basesNode);
      if cls.Err? {
        return Err(cls.error), h;
      }
      var id := |h|;
      var o := EmptyInstance(cls.value);
      BindObject(id);
      ghost var st1 := DecView(h + [o]);
      assert st1 == BindNew(st, o);
      r, h2 := DeserializeExtend(t, id, cls.value, h + [o]);
      ghost var ext := DecExtend(typeRegistry, t, id, cls.value, st1);
      assert DecOut(r, DecView(h2)) == ext;
      if r.Ok? {
        r, h2 := DeserializeFields(t, id, cls.value, h2);
      }
    }

    /** `if '__list__' in d: obj.extend(_deserialize(d['__list__']))`. */
    method DeserializeExtend(t: Tree, id: ObjId, cls: TypeDesc, h: Heap) returns (r: Result<Value>, h2: Heap)
      requires t.TDict? && id < |h|
      modifies this
      ensures DecOut(r, DecView(h2)) == DecExtend(typeRegistry, t, id, cls, old(DecView(h)))
      ensures typeRegistry == old(typeRegistry) && identities == old(identities)
      decreases t, 0, 0
    {
      var es := t.entries;
      if !Has(es, ListKey) {
        return Ok(Ref(id)), h;
      }
      if cls.layout != ListLayout {
        return Err(NoAttribute), h;
      }
      var v;
      v, h2 := DeserializeValue(es[Find(es, ListKey)].1, h);
      if v.Err? {
        return v, h2;
      }
      var items := IterItems(h2, v.value);
      if items.Err? {
        return Err(items.error), h2;
      }
      h2 := UpdateAt(DecView(h2), id, Extended(At(DecView(h2), id), items.value)).heap;
      r := Ok(Ref(id));
    }

    /** The `__dict__` part of a typed node: entries of a custom dict, or attributes. */
    method DeserializeFields(t: Tree, id: ObjId, cls: TypeDesc, h: Heap) returns (r: Result<Value>, h2: Heap)
      requires t.TDict? && Has(t.entries, DictKey) && id < |h|
      modifies this
      ensures DecOut(r, DecView(h2)) == DecFields(typeRegistry, t, id, cls, old(DecView(h)))
      ensures typeRegistry == old(typeRegistry) && identities == old(identities)
      decreases t, 0, 0
    {
      var es := t.entries;
      var flag := if Has(es, CustomDictKey) then es[Find(es, CustomDictKey)].1 else TScalar(Bool(false));
      var dictNode := es[Find(es, DictKey)].1;
      if Truthy(flag) {
        var v;
        v, h2 := DeserializeValue(dictNode, h);
        if v.Err? {
          return v, h2;
        }
        var items := ItemsOf(h2, v.value);
        if items.Err? {
          return Err(items.error), h2;
        }
        if items.value == [] {
          return Ok(Ref(id)), h2;
        }
        if cls.layout == DictLayout {
          h2 := StoreItems(id, items.value, h2);
          r := Ok(Ref(id));
        } else if cls.layout == ListLayout {
          r, h2 := AssignItems(id, items.value, h2);
        } else {
          r := Err(BadType);
        }
      } else if !dictNode.TDict? {
        r, h2 := Err(NoAttribute), h;
      } else {
        var vs;
        vs, h2 := DeserializeEach(dictNode, AttrOf(id), h);
        r := if vs.Err? then Err(vs.error) else Ok(Ref(id));
      }
    }
  }
}
