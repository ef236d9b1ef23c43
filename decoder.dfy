/**
 * The decoder `Serializer.deserialize` / `_deserialize` as a function of
 * the type registry, the tree and the decoder state (ordinal bindings,
 * counter, heap). Scalars pass through; a list, and the dict nodes that
 * build a container, bind the new object to the current counter and then
 * increment it; a `{'__ref__': n}` node yields the object bound to `n`.
 */
module Decoder {
  import opened Values
  import opened Wire
  import Hex

  /** `object_registry` keyed by ordinal, `object_id_counter`, and the heap decoded objects live in. */
  datatype DecState = DecState(bindings: map<nat, Value>, counter: nat, heap: Heap)

  datatype DecOut = DecOut(r: Result<Value>, st: DecState)
  datatype DecSeqOut = DecSeqOut(r: Result<seq<Value>>, st: DecState)

  /** The state at the start of `deserialize`: empty registry, counter 0. */
  function Reset(h: Heap): DecState {
    DecState(map[], 0, h)
  }

  /** `obj = …` for a new object: it is appended to the heap. */
  function Alloc(st: DecState, o: Obj): (st2: DecState)
    ensures st2.heap == st.heap + [o] && st2.bindings == st.bindings && st2.counter == st.counter
  {
    st.(heap := st.heap + [o])
  }

  /** `object_registry[object_id_counter] = obj; object_id_counter += 1`. */
  function Bind(st: DecState, v: Value): (st2: DecState)
    ensures st2.bindings == st.bindings[st.counter := v] && st2.counter == st.counter + 1
    ensures st2.heap == st.heap
  {
    DecState(st.bindings[st.counter := v], st.counter + 1, st.heap)
  }

  /** A new object `o`, bound to the current ordinal: `obj = …; object_registry[object_id_counter] = obj; …`. */
  function BindNew(st: DecState, o: Obj): (st2: DecState)
    ensures st2.heap == st.heap + [o] && st2.bindings == st.bindings[st.counter := Ref(|st.heap|)]
    ensures st2.counter == st.counter + 1
  {
    Bind(Alloc(st, o), Ref(|st.heap|))
  }

  /**
   * `st2` follows `st1`: the counter did not go down, bindings below the old
   * counter are kept, new bindings are exactly the ordinals between the two
   * counters, and the heap
   * only grew, every old object except `except` being unchanged.
   */
  predicate GrowsExcept(st1: DecState, st2: DecState, except: int) {
    st1.counter <= st2.counter &&
    (forall k :: k in st1.bindings && k < st1.counter ==> k in st2.bindings && st2.bindings[k] == st1.bindings[k]) &&
    (forall k :: k in st2.bindings && (k !in st1.bindings || st2.bindings[k] != st1.bindings[k]) ==>
       st1.counter <= k < st2.counter) &&
    (forall k :: st1.counter <= k < st2.counter ==> k in st2.bindings) &&
    |st1.heap| <= |st2.heap| &&
    (forall j :: 0 <= j < |st1.heap| && j != except ==> st2.heap[j] == st1.heap[j])
  }

  predicate Grows(st1: DecState, st2: DecState) {
    GrowsExcept(st1, st2, -1)
  }

  lemma GrowsTrans(st1: DecState, st2: DecState, st3: DecState, except: int)
    requires GrowsExcept(st1, st2, except) && GrowsExcept(st2, st3, except)
    ensures GrowsExcept(st1, st3, except)
  {
  }

  /** Changes confined to an object allocated after `st1` leave every object of `st1` unchanged. */
  lemma GrowsPastEnd(st1: DecState, st2: DecState, except: int)
    requires GrowsExcept(st1, st2, except) && except >= |st1.heap|
    ensures Grows(st1, st2)
  {
  }

  lemma GrowsWeaken(st1: DecState, st2: DecState, except: int)
    requires Grows(st1, st2)
    ensures GrowsExcept(st1, st2, except)
  {
  }

  lemma BindNewGrows(st: DecState, o: Obj)
    ensures GrowsExcept(st, BindNew(st, o), |st.heap|) && Grows(st, BindNew(st, o))
  {
  }

  // ---------------------------------------------------------------------------
  // In-place updates of one heap object

  function UpdateAt(st: DecState, id: ObjId, o: Obj): (st2: DecState)
    ensures st2.bindings == st.bindings && st2.counter == st.counter
    ensures GrowsExcept(st, st2, id) && |st2.heap| == |st.heap|
    ensures id < |st.heap| ==> st2.heap[id] == o
  {
    if id < |st.heap| then st.(heap := st.heap[id := o]) else st
  }

  /** The object at `id`, or a placeholder when there is none. */
  function At(st: DecState, id: ObjId): Obj {
    if id < |st.heap| then st.heap[id] else Opaque(None)
  }

  /** `obj.append(v)` / `obj.extend(vs)` on a list or list-subclass instance. */
  function Extended(o: Obj, vs: seq<Value>): Obj {
    match o
    case ListObj(xs) => ListObj(xs + vs)
    case Instance(cls, attrs, ListPayload(xs)) => Instance(cls, attrs, ListPayload(xs + vs))
    case _ => o
  }

  /** `obj[k] = v` on a dict or dict-subclass instance. */
  function WithEntry(o: Obj, k: Prim, v: Value): Obj {
    match o
    case DictObj(es) => DictObj(Put(es, k, v))
    case Instance(cls, attrs, DictPayload(es)) => Instance(cls, attrs, DictPayload(Put(es, k, v)))
    case _ => o
  }

  /** The int a list index key stands for: an int, or a bool as 0 or 1; None for any other key. */
  function AsIndex(k: Prim): Option<int> {
    match k
    case Int(i) => Some(i)
    case Bool(b) => Some(if b then 1 else 0)
    case _ => None
  }

  /**
   * The position `obj[k]` names in a list of length `n`, a negative index
   * counting from the end; IndexError outside the list, TypeError for a key
   * that is not an int or a bool.
   */
  function ItemIndex(k: Prim, n: nat): (r: Result<nat>)
    ensures r.Ok? <==> AsIndex(k).Some? && -(n as int) <= AsIndex(k).value < n
    ensures r.Ok? ==> r.value < n && r.value % n == AsIndex(k).value % n
    ensures r.Err? ==> r.error == if AsIndex(k).Some? then OutOfRange else BadType
  {
    match AsIndex(k)
    case None => Err(BadType)
    case Some(i) =>
      if -(n as int) <= i < 0 then Ok(i + n)
      else if 0 <= i < n then Ok(i)
      else Err(OutOfRange)
  }

  /** `obj[k] = v` on a list-subclass instance: replace the item `k` names. */
  function WithItem(o: Obj, k: Prim, v: Value): Result<Obj> {
    match o
    case Instance(cls, attrs, ListPayload(xs)) =>
      (match ItemIndex(k, |xs|)
       case Ok(i) => Ok(Instance(cls, attrs, ListPayload(xs[i := v])))
       case Err(e) => Err(e))
    case _ => Err(BadType)
  }

  /** `setattr(obj, k, v)` on an instance. */
  function WithAttr(o: Obj, k: Prim, v: Value): Obj {
    match o
    case Instance(cls, attrs, payload) => Instance(cls, Put(attrs, k, v), payload)
    case _ => o
  }

  /** `obj.add(v)` on a set. */
  function WithMember(o: Obj, v: Value): Obj {
    match o
    case SetObj(ms) => SetObj(SetAdd(ms, v))
    case _ => o
  }

  // ---------------------------------------------------------------------------
  // Reading decoded objects back

  /** The values scalar leaves decode to: each scalar decodes to itself. */
  function Scalars(ps: seq<Prim>): (vs: seq<Value>)
    ensures |vs| == |ps| && forall j :: 0 <= j < |ps| ==> vs[j] == Scalar(ps[j])
  {
    seq(|ps|, j requires 0 <= j < |ps| => Scalar(ps[j]))
  }

  /**
   * What `for x in v` yields for the kinds the model iterates: items,
   * members, characters, or a dict's keys; Err where Python raises TypeError.
   */
  function IterItems(h: Heap, v: Value): Result<seq<Value>> {
    match v
    case Tup(xs) => Ok(xs)
    case Scalar(Str(s)) => Ok(Scalars(Chars(s)))
    case Scalar(_) => Err(BadType)
    case Ref(i) =>
      if i >= |h| then Err(BadType)
      else match h[i]
        case ListObj(xs) => Ok(xs)
        case SetObj(ms) => Ok(ms)
        case DictObj(es) => Ok(Scalars(Keys(es)))
        case Instance(_, _, ListPayload(xs)) => Ok(xs)
        case Instance(_, _, DictPayload(es)) => Ok(Scalars(Keys(es)))
        case _ => Err(BadType)
  }

  /** `v.items()` for a dict or dict subclass; AttributeError otherwise. */
  function ItemsOf(h: Heap, v: Value): Result<Entries> {
    match v
    case Ref(i) =>
      if i >= |h| then Err(NoAttribute)
      else
        (match h[i]
         case DictObj(es) => Ok(es)
         case Instance(_, _, DictPayload(es)) => Ok(es)
         case _ => Err(NoAttribute))
    case _ => Err(NoAttribute)
  }

  /** `for key, value in es: obj[key] = value` on the object at `id`. */
  function PutAll(st: DecState, id: ObjId, es: Entries): (st2: DecState)
    ensures st2.bindings == st.bindings && st2.counter == st.counter
    ensures GrowsExcept(st, st2, id) && |st2.heap| == |st.heap|
    decreases |es|
  {
    if es == [] then st
    else PutAll(UpdateAt(st, id, WithEntry(At(st, id), es[0].0, es[0].1)), id, es[1..])
  }

  /**
   * `for key, value in items: obj[key] = value` on the list-subclass
   * instance at `id`; the first assignment that fails stops the walk, with
   * the earlier ones done.
   */
  function SetItems(st: DecState, id: ObjId, es: Entries): (out: DecOut)
    ensures out.st.bindings == st.bindings && out.st.counter == st.counter
    ensures GrowsExcept(st, out.st, id) && |out.st.heap| == |st.heap|
    ensures out.r.Ok? ==> out.r.value == Ref(id)
    decreases |es|
  {
    if es == [] then DecOut(Ok(Ref(id)), st)
    else
      match WithItem(At(st, id), es[0].0, es[0].1)
      case Err(e) => DecOut(Err(e), st)
      case Ok(o) => SetItems(UpdateAt(st, id, o), id, es[1..])
  }

  // ---------------------------------------------------------------------------
  // Type lookup and composition

  function MergeLayout(a: Layout, b: Layout): Result<Layout> {
    if a == PlainLayout then Ok(b)
    else if b == PlainLayout || a == b then Ok(a)
    else Err(LayoutConflict)
  }

  /**
   * `for base_name in bases_names: … cls = type(type_name, (cls, base_cls), {})`
   * over the base nodes from position `k` on, starting from `cls`;
   * `composed` says whether `cls` is already a synthesized class, so that
   * naming the registered class itself as a base is a duplicate base only
   * while `cls` is still that class. The result is `cls` itself unless
   * some registered base was composed in, and then it carries `name`.
   */
  function ComposeBases(types: map<string, TypeDesc>, name: string, cls: TypeDesc, composed: bool,
                        bases: seq<Tree>, k: nat)
    : (r: Result<(TypeDesc, bool)>)
    requires k <= |bases|
    ensures r.Ok? && !r.value.1 ==> r.value.0 == cls && !composed
    ensures r.Ok? && r.value.1 ==> (composed && r.value.0 == cls) || r.value.0.name == name
    decreases |bases| - k
  {
    if k == |bases| then Ok((cls, composed))
    else
      match bases[k]
      case TScalar(Str(b)) =>
        if b !in types then ComposeBases(types, name, cls, composed, bases, k + 1)
        else if !composed && b == name then Err(DuplicateBase)
        else
          (match MergeLayout(cls.layout, types[b].layout)
           case Err(e) => Err(e)
           case Ok(layout) =>
             ComposeBases(types, name, TypeDesc(name, [cls.name, types[b].name], layout), true, bases, k + 1))
      case TList(_) => Err(Unhashable)
      case TDict(_) => Err(Unhashable)
      case _ => ComposeBases(types, name, cls, composed, bases, k + 1)
  }

  /** The class a typed node is rebuilt as, or the TypeError it raises. */
  function ClassFor(types: map<string, TypeDesc>, nameNode: Tree, basesNode: Tree): (r: Result<TypeDesc>)
    ensures (nameNode.TScalar? && nameNode.p.Str? && nameNode.p.s !in types) ==> r == Err(UnknownType(nameNode.p))
    ensures r.Ok? ==> nameNode.TScalar? && nameNode.p.Str? && nameNode.p.s in types
    ensures r.Ok? ==> r.value == types[nameNode.p.s] || r.value.name == nameNode.p.s
  {
    match nameNode
    case TScalar(Str(name)) =>
      if name !in types then Err(UnknownType(nameNode.p))
      else
        (match Iterate(basesNode)
         case Err(e) => Err(e)
         case Ok(bases) =>
           (match ComposeBases(types, name, types[name], false, bases, 0)
            case Err(e) => Err(e)
            case Ok((cls, _)) => Ok(cls)))
    case TScalar(p) => Err(UnknownType(p))
    case TList(_) => Err(Unhashable)
    case TDict(_) => Err(Unhashable)
    case TOther => Err(BadType)
  }

  function EmptyInstance(cls: TypeDesc): Obj {
    Instance(cls, [], match cls.layout
                      case PlainLayout => NoPayload
                      case ListLayout => ListPayload([])
                      case DictLayout => DictPayload([]))
  }

  // ---------------------------------------------------------------------------
  // Small nodes

  /** The integer a `__ref__` value or a seek position denotes (bool is an int in Python). */
  function AsInt(t: Tree): Option<int> {
    match t
    case TScalar(Int(n)) => Some(n)
    case TScalar(Bool(b)) => Some(if b then 1 else 0)
    case _ => None
  }

  /** `object_registry[d['__ref__']]`. */
  function Resolve(st: DecState, key: Tree): Result<Value> {
    if key.TList? || key.TDict? then Err(Unhashable)
    else match AsInt(key)
      case Some(n) => if n >= 0 && n in st.bindings then Ok(st.bindings[n]) else Err(MissingKey)
      case None => Err(MissingKey)
  }

  /** `d[posKey]` passed to `seek`. */
  function SeekPos(es: seq<(Prim, Tree)>, posKey: Prim): Result<nat> {
    var i := Find(es, posKey);
    if i < 0 then Err(MissingKey)
    else match AsInt(es[i].1)
      case Some(n) => if n < 0 then Err(BadValue) else Ok(n)
      case None => Err(BadType)
  }

  /** `bytes.fromhex(node)`. */
  function HexBytes(t: Tree): Result<seq<Byte>> {
    match t
    case TScalar(Str(s)) =>
      (match Hex.FromHex(s)
       case Some(bs) => Ok(bs)
       case None => Err(BadValue))
    case _ => Err(BadType)
  }

  /** `StringIO(node)`: a str, or None for an empty buffer. */
  function InitialText(t: Tree): Result<string> {
    match t
    case TScalar(Str(s)) => Ok(s)
    case TScalar(NoneVal) => Ok([])
    case _ => Err(BadType)
  }

  // ---------------------------------------------------------------------------
  // The decoding

  /** Where each decoded child of a node goes. */
  datatype Sink =
    | AppendTo(id: ObjId)   // obj.append(item)
    | AddTo(id: ObjId)      // obj.add(item)
    | AttrOf(id: ObjId)     // setattr(obj, key, value)
    | EntryOf(id: ObjId)    // obj[key] = value
    | Collect               // tuple([...])

  function Arity(node: Tree): nat {
    match node
    case TList(items) => |items|
    case TDict(entries) => |entries|
    case _ => 0
  }

  /** The `k`-th child of a list node, or the value of the `k`-th entry of a dict node. */
  function Child(node: Tree, k: nat): (c: Tree)
    requires (node.TList? || node.TDict?) && k < Arity(node)
    ensures c < node
  {
    if node.TList? then node.items[k] else node.entries[k].1
  }

  /** The key a child is stored under: the entry's key in a dict node, None in a list node. */
  function Key(node: Tree, k: nat): Prim
    requires (node.TList? || node.TDict?) && k < Arity(node)
  {
    if node.TList? then NoneVal else node.entries[k].0
  }

  /** Deliver one decoded child (under `key`, for dict nodes) to its sink. */
  function Deliver(st: DecState, sink: Sink, key: Prim, v: Value): (r: Result<DecState>)
    ensures r.Ok? ==> (sink.Collect? ==> r.value == st) && (!sink.Collect? ==> GrowsExcept(st, r.value, sink.id))
    ensures r.Ok? ==> |r.value.heap| == |st.heap| && r.value.bindings == st.bindings && r.value.counter == st.counter
  {
    match sink
    case AppendTo(id) => Ok(UpdateAt(st, id, Extended(At(st, id), [v])))
    case AddTo(id) =>
      if !Hashable(st.heap, v) then Err(Unhashable) else Ok(UpdateAt(st, id, WithMember(At(st, id), v)))
    case AttrOf(id) =>
      if !key.Str? then Err(BadType) else Ok(UpdateAt(st, id, WithAttr(At(st, id), key, v)))
    case EntryOf(id) => Ok(UpdateAt(st, id, WithEntry(At(st, id), key, v)))
    case Collect => Ok(st)
  }

  /** `_deserialize(d)`. */
  function Dec(types: map<string, TypeDesc>, t: Tree, st: DecState): (out: DecOut)
    ensures Grows(st, out.st)
    decreases t, 3, 0
  {
    match t
    case TScalar(p) => DecOut(Ok(Scalar(p)), st)
    case TList(items) =>
      var id := |st.heap|;
      var st1 := BindNew(st, ListObj([]));
      BindNewGrows(st, ListObj([]));
      var o := DecEach(types, t, 0, [], AppendTo(id), st1);
      GrowsTrans(st, st1, o.st, id);
      GrowsPastEnd(st, o.st, id);
      DecOut(if o.r.Err? then Err(o.r.error) else Ok(Ref(id)), o.st)
    case TDict(es) => DecDict(types, t, st)
    case TOther => DecOut(Err(NotDeserializable), st)
  }

  /**
   * Decode the children of `node` from position `k` on, in order, delivering
   * each to `sink` and appending it to `acc`; the first error ends the walk.
   */
  function DecEach(types: map<string, TypeDesc>, node: Tree, k: nat, acc: seq<Value>, sink: Sink, st: DecState)
    : (out: DecSeqOut)
    requires (node.TList? || node.TDict?) && k <= Arity(node)
    ensures GrowsExcept(st, out.st, if sink.Collect? then -1 else sink.id)
    ensures out.r.Ok? ==> |out.r.value| == |acc| + Arity(node) - k
    decreases node, 0, Arity(node) - k
  {
    if k == Arity(node) then DecSeqOut(Ok(acc), st)
    else
      var o := Dec(types, Child(node, k), st);
      var except := if sink.Collect? then -1 else sink.id;
      if o.r.Err? then DecSeqOut(Err(o.r.error), o.st)
      else
        match Deliver(o.st, sink, Key(node, k), o.r.value)
        case Err(e) => DecSeqOut(Err(e), o.st)
        case Ok(st2) =>
          GrowsTrans(st, o.st, st2, except);
          var out := DecEach(types, node, k + 1, acc + [o.r.value], sink, st2);
          GrowsTrans(st, st2, out.st, except);
          out
  }

  /** One step of `DecEach` when the child decodes and is delivered. */
  lemma DecEachStep(types: map<string, TypeDesc>, node: Tree, k: nat, acc: seq<Value>, sink: Sink,
                    st: DecState, v: Value, st1: DecState, st2: DecState)
    requires (node.TList? || node.TDict?) && k < Arity(node)
    requires Dec(types, Child(node, k), st) == DecOut(Ok(v), st1)
    requires Deliver(st1, sink, Key(node, k), v) == Ok(st2)
    ensures DecEach(types, node, k, acc, sink, st) == DecEach(types, node, k + 1, acc + [v], sink, st2)
  {
  }

  /** A dict node: dispatch on its marker keys in the source's order. */
  function DecDict(types: map<string, TypeDesc>, t: Tree, st: DecState): (out: DecOut)
    requires t.TDict?
    ensures Grows(st, out.st)
    decreases t, 2, 0
  {
    var es := t.entries;
    if Has(es, RefKey) then DecOut(Resolve(st, es[Find(es, RefKey)].1), st)
    else if Has(es, TypeKey) && Has(es, DictKey) then DecTyped(types, t, st)
    else if Has(es, SetKey) then DecSet(types, t, st)
    else if Has(es, TupleKey) then DecTuple(types, t, st)
    else if Has(es, StringIOKey) || Has(es, BytesIOKey) || Has(es, PickleKey) then DecLeaf(t, st)
    else if Has(es, ListKey) then DecListMarker(types, t, st)
    else if Has(es, DictKey) then DecDictMarker(types, t, st)
    else DecPlainDict(types, t, st)
  }

  /**
   * `{'__set__': x}`: bind an empty set, then add each decoded item of `x`.
   * A str or dict `x` yields its characters or keys, which decode to themselves.
   */
  function DecSet(types: map<string, TypeDesc>, t: Tree, st: DecState): (out: DecOut)
    requires t.TDict? && Has(t.entries, SetKey)
    ensures Grows(st, out.st)
    decreases t, 1, 0
  {
    var es := t.entries;
    var id := |st.heap|;
    var st1 := BindNew(st, SetObj([]));
    BindNewGrows(st, SetObj([]));
    var node := es[Find(es, SetKey)].1;
    if node.TList? then
      var o := DecEach(types, node, 0, [], AddTo(id), st1);
      GrowsTrans(st, st1, o.st, id);
      GrowsPastEnd(st, o.st, id);
      DecOut(if o.r.Err? then Err(o.r.error) else Ok(Ref(id)), o.st)
    else
      match IterPrims(node)
      case Err(e) => DecOut(Err(e), st1)
      case Ok(ps) =>
        var st2 := UpdateAt(st1, id, SetObj(AddAll([], Scalars(ps))));
        GrowsTrans(st, st1, st2, id);
        GrowsPastEnd(st, st2, id);
        DecOut(Ok(Ref(id)), st2)
  }

  /** `{'__tuple__': x}`: decode the items of `x`, build the tuple; nothing is bound. */
  function DecTuple(types: map<string, TypeDesc>, t: Tree, st: DecState): (out: DecOut)
    requires t.TDict? && Has(t.entries, TupleKey)
    ensures Grows(st, out.st)
    decreases t, 1, 0
  {
    var es := t.entries;
    var node := es[Find(es, TupleKey)].1;
    if node.TList? then
      var o := DecEach(types, node, 0, [], Collect, st);
      DecOut(if o.r.Err? then Err(o.r.error) else Ok(Tup(o.r.value)), o.st)
    else
      match IterPrims(node)
      case Err(e) => DecOut(Err(e), st)
      case Ok(ps) => DecOut(Ok(Tup(Scalars(ps))), st)
  }

  /** StringIO, BytesIO and pickle nodes: build the object, then bind it. */
  function DecLeaf(t: Tree, st: DecState): (out: DecOut)
    requires t.TDict?
    ensures Grows(st, out.st)
  {
    var es := t.entries;
    var id := |st.heap|;
    if Has(es, StringIOKey) then
      match InitialText(es[Find(es, StringIOKey)].1)
      case Err(e) => DecOut(Err(e), st)
      case Ok(text) =>
        (match SeekPos(es, StringIOPosKey)
         case Err(e) => DecOut(Err(e), st)
         case Ok(pos) => DecOut(Ok(Ref(id)), BindNew(st, TextStream(text, pos))))
    else if Has(es, BytesIOKey) then
      match HexBytes(es[Find(es, BytesIOKey)].1)
      case Err(e) => DecOut(Err(e), st)
      case Ok(data) =>
        (match SeekPos(es, BytesIOPosKey)
         case Err(e) => DecOut(Err(e), st)
         case Ok(pos) => DecOut(Ok(Ref(id)), BindNew(st, ByteStream(data, pos))))
    else
      var pickled := if Has(es, PickleKey) then es[Find(es, PickleKey)].1 else TOther;
      match HexBytes(pickled)
      case Err(e) => DecOut(Err(e), st)
      case Ok(image) => DecOut(Ok(Ref(id)), BindNew(st, Opaque(Some(image))))
  }

  /** `{'__list__': x}` without a type: decode `x`, then bind the result to a further ordinal. */
  function DecListMarker(types: map<string, TypeDesc>, t: Tree, st: DecState): (out: DecOut)
    requires t.TDict? && Has(t.entries, ListKey)
    ensures Grows(st, out.st)
    decreases t, 1, 0
  {
    var es := t.entries;
    var o := Dec(types, es[Find(es, ListKey)].1, st);
    if o.r.Err? then o
    else DecOut(o.r, Bind(o.st, o.r.value))
  }

  /** `{'__dict__': x}` without a type: bind an empty dict, decode `x`, copy its items in. */
  function DecDictMarker(types: map<string, TypeDesc>, t: Tree, st: DecState): (out: DecOut)
    requires t.TDict? && Has(t.entries, DictKey)
    ensures Grows(st, out.st)
    decreases t, 1, 0
  {
    var es := t.entries;
    var id := |st.heap|;
    var st1 := BindNew(st, DictObj([]));
    BindNewGrows(st, DictObj([]));
    var o := Dec(types, es[Find(es, DictKey)].1, st1);
    GrowsTrans(st, st1, o.st, id);
    GrowsPastEnd(st, o.st, id);
    if o.r.Err? then o
    else
      match ItemsOf(o.st.heap, o.r.value)
      case Err(e) => DecOut(Err(e), o.st)
      case Ok(items) =>
        var st2 := PutAll(o.st, id, items);
        GrowsTrans(st, o.st, st2, id);
        GrowsPastEnd(st, st2, id);
        DecOut(Ok(Ref(id)), st2)
  }

  /** Any other dict: bind an empty dict, then store each decoded value under its key as is. */
  function DecPlainDict(types: map<string, TypeDesc>, t: Tree, st: DecState): (out: DecOut)
    requires t.TDict?
    ensures Grows(st, out.st)
    decreases t, 1, 0
  {
    var id := |st.heap|;
    var st1 := BindNew(st, DictObj([]));
    BindNewGrows(st, DictObj([]));
    var o := DecEach(types, t, 0, [], EntryOf(id), st1);
    GrowsTrans(st, st1, o.st, id);
    GrowsPastEnd(st, o.st, id);
    DecOut(if o.r.Err? then Err(o.r.error) else Ok(Ref(id)), o.st)
  }

  /** A node with `__type__` and `__dict__`: rebuild an instance of the registered class. */
  function DecTyped(types: map<string, TypeDesc>, t: Tree, st: DecState): (out: DecOut)
    requires t.TDict? && Has(t.entries, TypeKey) && Has(t.entries, DictKey)
    ensures Grows(st, out.st)
    decreases t, 1, 0
  {
    var es := t.entries;
    var basesNode := if Has(es, BasesKey) then es[Find(es, BasesKey)].1 else TList([]);
    match ClassFor(types, es[Find(es, TypeKey)].1, basesNode)
    case Err(e) => DecOut(Err(e), st)
    case Ok(cls) =>
      var id := |st.heap|;
      var st1 := BindNew(st, EmptyInstance(cls));
      BindNewGrows(st, EmptyInstance(cls));
      var ext := DecExtend(types, t, id, cls, st1);
      GrowsTrans(st, st1, ext.st, id);
      if ext.r.Err? then
        GrowsPastEnd(st, ext.st, id);
        ext
      else
        var o := DecFields(types, t, id, cls, ext.st);
        GrowsTrans(st, ext.st, o.st, id);
        GrowsPastEnd(st, o.st, id);
        o
  }

  /**
   * The `__dict__` part of a typed node for the instance at `id`: with a
   * truthy `__custom_dict__`, decode the node and assign its items with
   * `obj[key] = value`, as entries of a dict subclass or items of a list
   * subclass; otherwise decode each value and set it as an attribute.
   */
  function DecFields(types: map<string, TypeDesc>, t: Tree, id: ObjId, cls: TypeDesc, st: DecState): (out: DecOut)
    requires t.TDict? && Has(t.entries, DictKey) && id < |st.heap|
    ensures GrowsExcept(st, out.st, id)
    decreases t, 0, 0
  {
    var es := t.entries;
    var flag := if Has(es, CustomDictKey) then es[Find(es, CustomDictKey)].1 else TScalar(Bool(false));
    var dictNode := es[Find(es, DictKey)].1;
    if Truthy(flag) then
      var o := Dec(types, dictNode, st);
      GrowsWeaken(st, o.st, id);
      if o.r.Err? then DecOut(o.r, o.st)
      else
        match ItemsOf(o.st.heap, o.r.value)
        case Err(e) => DecOut(Err(e), o.st)
        case Ok(items) =>
          if items == [] then DecOut(Ok(Ref(id)), o.st)
          else if cls.layout == DictLayout then
            var st2 := PutAll(o.st, id, items);
            GrowsTrans(st, o.st, st2, id);
            DecOut(Ok(Ref(id)), st2)
          else if cls.layout == ListLayout then
            var s := SetItems(o.st, id, items);
            GrowsTrans(st, o.st, s.st, id);
            s
          else DecOut(Err(BadType), o.st)
    else if !dictNode.TDict? then DecOut(Err(NoAttribute), st)
    else
      var o := DecEach(types, dictNode, 0, [], AttrOf(id), st);
      DecOut(if o.r.Err? then Err(o.r.error) else Ok(Ref(id)), o.st)
  }

  /** `if '__list__' in d: obj.extend(_deserialize(d['__list__']))` for the instance at `id`. */
  function DecExtend(types: map<string, TypeDesc>, t: Tree, id: ObjId, cls: TypeDesc, st: DecState): (out: DecOut)
    requires t.TDict? && id < |st.heap|
    ensures GrowsExcept(st, out.st, id)
    decreases t, 0, 0
  {
    var es := t.entries;
    if !Has(es, ListKey) then DecOut(Ok(Ref(id)), st)
    else if cls.layout != ListLayout then DecOut(Err(NoAttribute), st)
    else
      var o := Dec(types, es[Find(es, ListKey)].1, st);
      GrowsWeaken(st, o.st, id);
      if o.r.Err? then DecOut(o.r, o.st)
      else
        match IterItems(o.st.heap, o.r.value)
        case Err(e) => DecOut(Err(e), o.st)
        case Ok(items) =>
          var st2 := UpdateAt(o.st, id, Extended(At(o.st, id), items));
          DecOut(Ok(Ref(id)), st2)
  }
}
