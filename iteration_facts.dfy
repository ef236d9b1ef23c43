/**
 * `for x in node` in the decoder iterates any iterable, not only a list: a
 * str yields its characters and a dict its keys, which decode to
 * themselves. A `__set__`, `__tuple__` or `__bases__` written as a str or a
 * dict therefore behaves as the list of those scalars would, and a typed
 * list extended by a decoded dict receives the dict's keys.
 */
module IterationFacts {
  import opened Values
  import opened Wire
  import opened Decoder
  import opened DecoderFacts
  import DecodePlain

  /** Scalar leaves from position `k` on decode to themselves, and a tuple collects them; nothing changes. */
  lemma {:induction false} ScalarLeavesCollect(types: map<string, TypeDesc>, ps: seq<Prim>, k: nat, acc: seq<Value>,
                                               st: DecState)
    requires k <= |ps|
    ensures DecEach(types, TList(PrimNodes(ps)), k, acc, Collect, st) == DecSeqOut(Ok(acc + Scalars(ps)[k..]), st)
    decreases |ps| - k
  {
    var node, vs := TList(PrimNodes(ps)), Scalars(ps);
    if k == |ps| {
      assert acc + vs[k..] == acc;
    } else {
      var v := vs[k];
      assert Dec(types, Child(node, k), st) == DecOut(Ok(v), st);
      DecEachStep(types, node, k, acc, Collect, st, v, st, st);
      ScalarLeavesCollect(types, ps, k + 1, acc + [v], st);
      DropOne(vs, k);
      AppendStep(acc, v, vs[k + 1..]);
    }
  }

  /** Scalar leaves from position `k` on are added one by one to the set at `id`. */
  lemma {:induction false} ScalarLeavesAdd(types: map<string, TypeDesc>, ps: seq<Prim>, k: nat, acc: seq<Value>,
                                           id: ObjId, st: DecState)
    requires k <= |ps| && id < |st.heap| && st.heap[id].SetObj?
    ensures DecEach(types, TList(PrimNodes(ps)), k, acc, AddTo(id), st) ==
      DecSeqOut(Ok(acc + Scalars(ps)[k..]), st.(heap := st.heap[id := SetObj(AddAll(st.heap[id].members, Scalars(ps)[k..]))]))
    decreases |ps| - k
  {
    var vs := Scalars(ps);
    var ms := st.heap[id].members;
    if k == |ps| {
      assert acc + vs[k..] == acc && vs[k..] == [];
      assert st.heap[id := SetObj(ms)] == st.heap;
    } else {
      var st2 := ScalarAddStep(types, ps, k, acc, id, st);
      ScalarLeavesAdd(types, ps, k + 1, acc + [vs[k]], id, st2);
      DropOne(vs, k);
      AppendStep(acc, vs[k], vs[k + 1..]);
      AddAllStep(ms, vs, k);
      DecodePlain.UpdateTwice(st, id, SetObj(SetAdd(ms, vs[k])), SetObj(AddAll(ms, vs[k..])));
    }
  }

  /** One step of `ScalarLeavesAdd`: the scalar at `k` decodes to itself and is added to the set. */
  lemma ScalarAddStep(types: map<string, TypeDesc>, ps: seq<Prim>, k: nat, acc: seq<Value>, id: ObjId, st: DecState)
    returns (st2: DecState)
    requires k < |ps| && id < |st.heap| && st.heap[id].SetObj?
    ensures var v := Scalars(ps)[k];
      st2 == st.(heap := st.heap[id := SetObj(SetAdd(st.heap[id].members, v))]) &&
      DecEach(types, TList(PrimNodes(ps)), k, acc, AddTo(id), st) ==
        DecEach(types, TList(PrimNodes(ps)), k + 1, acc + [v], AddTo(id), st2)
  {
    var node, v := TList(PrimNodes(ps)), Scalars(ps)[k];
    st2 := st.(heap := st.heap[id := SetObj(SetAdd(st.heap[id].members, v))]);
    assert Dec(types, Child(node, k), st) == DecOut(Ok(v), st);
    assert Deliver(st, AddTo(id), Key(node, k), v) == Ok(st2);
    DecEachStep(types, node, k, acc, AddTo(id), st, v, st, st2);
  }

  /** Adding the members `k..` is adding member `k`, then the rest. */
  lemma AddAllStep(ms: seq<Value>, vs: seq<Value>, k: nat)
    requires k < |vs|
    ensures AddAll(ms, vs[k..]) == AddAll(SetAdd(ms, vs[k]), vs[k + 1..])
  {
    assert vs[k..][0] == vs[k] && vs[k..][1..] == vs[k + 1..];
  }

  /**
   * `{'__tuple__': x}` with a str or dict `x` decodes as the list of its
   * characters or keys would: to the tuple of those scalars, nothing bound.
   */
  lemma TupleIteratesLikeList(types: map<string, TypeDesc>, n: Tree, st: DecState)
    requires IterPrims(n).Ok?
    ensures var ps := IterPrims(n).value; var o := Dec(types, TDict([(TupleKey, n)]), st);
      o == Dec(types, TDict([(TupleKey, TList(PrimNodes(ps)))]), st) && o == DecOut(Ok(Tup(Scalars(ps))), st)
  {
    var ps := IterPrims(n).value;
    DecodePlain.DispatchTuple(types, n, st);
    DecodePlain.DispatchTuple(types, TList(PrimNodes(ps)), st);
    ScalarLeavesCollect(types, ps, 0, [], st);
    assert [] + Scalars(ps)[0..] == Scalars(ps);
  }

  /**
   * `{'__set__': x}` with a str or dict `x` decodes as the list of its
   * characters or keys would: a new set, bound to the current ordinal,
   * holding exactly those scalars.
   */
  lemma SetIteratesLikeList(types: map<string, TypeDesc>, n: Tree, st: DecState)
    requires IterPrims(n).Ok?
    ensures var ps := IterPrims(n).value; var o := Dec(types, TDict([(SetKey, n)]), st); var id := |st.heap|;
      o == Dec(types, TDict([(SetKey, TList(PrimNodes(ps)))]), st) &&
      o.r == Ok(Ref(id)) && st.counter in o.st.bindings && o.st.bindings[st.counter] == Ref(id) &&
      id < |o.st.heap| && o.st.heap[id].SetObj? && NoDup(o.st.heap[id].members) &&
      forall x :: x in o.st.heap[id].members <==> x in Scalars(ps)
  {
    var ps := IterPrims(n).value;
    var id := |st.heap|;
    var st1 := BindNew(st, SetObj([]));
    DecodePlain.DispatchSet(types, n, st);
    DecodePlain.DispatchSet(types, TList(PrimNodes(ps)), st);
    ScalarLeavesAdd(types, ps, 0, [], id, st1);
    assert Scalars(ps)[0..] == Scalars(ps) && [] + Scalars(ps) == Scalars(ps);
    assert UpdateAt(st1, id, SetObj(AddAll([], Scalars(ps)))) == st1.(heap := st1.heap[id := SetObj(AddAll([], Scalars(ps)))]);
  }

  /** Base nodes from position `k` on that are scalars naming no registered class leave the class as it is. */
  lemma {:induction false} UnregisteredBasesSkipped(types: map<string, TypeDesc>, name: string, cls: TypeDesc,
                                                    composed: bool, bases: seq<Tree>, k: nat)
    requires k <= |bases|
    requires forall j :: k <= j < |bases| ==> bases[j].TScalar? && !(bases[j].p.Str? && bases[j].p.s in types)
    ensures ComposeBases(types, name, cls, composed, bases, k) == Ok((cls, composed))
    decreases |bases| - k
  {
    if k < |bases| {
      UnregisteredBasesSkipped(types, name, cls, composed, bases, k + 1);
    }
  }

  /**
   * A `__bases__` value is iterated: a str or dict gives the same class as
   * the list of its characters or keys, and when none of them names a
   * registered class the class is the registered one unchanged; a value
   * that is neither a list nor iterable is a TypeError.
   */
  lemma BasesIterated(types: map<string, TypeDesc>, name: string, n: Tree)
    requires name in types
    ensures var nameNode := TScalar(Str(name));
      IterPrims(n).Ok? ==> ClassFor(types, nameNode, n) == ClassFor(types, nameNode, TList(PrimNodes(IterPrims(n).value)))
    ensures var ps := IterPrims(n);
      ps.Ok? && (forall j :: 0 <= j < |ps.value| ==> !(ps.value[j].Str? && ps.value[j].s in types)) ==>
        ClassFor(types, TScalar(Str(name)), n) == Ok(types[name])
    ensures !n.TList? && IterPrims(n).Err? ==> ClassFor(types, TScalar(Str(name)), n) == Err(BadType)
  {
    var ps := IterPrims(n);
    if ps.Ok? && forall j :: 0 <= j < |ps.value| ==> !(ps.value[j].Str? && ps.value[j].s in types) {
      UnregisteredBasesSkipped(types, name, types[name], false, PrimNodes(ps.value), 0);
    }
  }

  /**
   * A typed list whose `__list__` is a dict node without markers is
   * extended by that dict's keys, in order, after its existing items.
   */
  lemma ExtendByDictKeys(types: map<string, TypeDesc>, t: Tree, es: seq<(Prim, Tree)>, id: ObjId, cls: TypeDesc,
                         st: DecState)
    requires t.TDict? && Has(t.entries, ListKey) && t.entries[Find(t.entries, ListKey)].1 == TDict(es)
    requires (forall j :: 0 <= j < |es| ==> es[j].0 !in Markers) && DistinctKeys(es)
    requires cls.layout == ListLayout && id < |st.heap| && st.heap[id].Instance? && st.heap[id].payload.ListPayload?
    ensures var o := DecExtend(types, t, id, cls, st); var x := st.heap[id];
      o.r.Ok? ==> id < |o.st.heap| &&
                  o.st.heap[id] == Instance(x.cls, x.attrs, ListPayload(x.payload.items + Scalars(Keys(es))))
  {
    PlainDictBoundBeforeItems(types, es, st);
    ExtendUnfold(types, t, id, cls, st);
    ExtendedByKeys(st, Dec(types, TDict(es), st), id, es);
  }

  /** Extending the list at `id` by what iterating a new dict with the keys of `es` yields appends those keys. */
  lemma ExtendedByKeys(st: DecState, o: DecOut, id: ObjId, es: seq<(Prim, Tree)>)
    requires Grows(st, o.st) && id < |st.heap| && st.heap[id].Instance? && st.heap[id].payload.ListPayload?
    requires o.r.Ok? ==> o.r.value == Ref(|st.heap|) && |st.heap| < |o.st.heap| && o.st.heap[|st.heap|].DictObj? &&
                         Keys(o.st.heap[|st.heap|].entries) == Keys(es)
    ensures var x := st.heap[id];
      o.r.Ok? ==> IterItems(o.st.heap, o.r.value) == Ok(Scalars(Keys(es))) &&
                  UpdateAt(o.st, id, Extended(At(o.st, id), Scalars(Keys(es)))).heap[id] ==
                    Instance(x.cls, x.attrs, ListPayload(x.payload.items + Scalars(Keys(es))))
  {
    if o.r.Ok? {
      assert o.st.heap[id] == st.heap[id];
    }
  }

  /** For a list-layout class, `extend` decodes `__list__`, iterates the result, and appends what it yields. */
  lemma ExtendUnfold(types: map<string, TypeDesc>, t: Tree, id: ObjId, cls: TypeDesc, st: DecState)
    requires t.TDict? && Has(t.entries, ListKey) && cls.layout == ListLayout && id < |st.heap|
    ensures var o := Dec(types, t.entries[Find(t.entries, ListKey)].1, st); var out := DecExtend(types, t, id, cls, st);
      o.r.Ok? && IterItems(o.st.heap, o.r.value).Ok? ==>
        out == DecOut(Ok(Ref(id)), UpdateAt(o.st, id, Extended(At(o.st, id), IterItems(o.st.heap, o.r.value).value)))
    ensures DecExtend(types, t, id, cls, st).r.Ok? ==>
      var o := Dec(types, t.entries[Find(t.entries, ListKey)].1, st); o.r.Ok? && IterItems(o.st.heap, o.r.value).Ok?
  {
  }
}
