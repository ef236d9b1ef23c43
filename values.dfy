/**
 * The object model the codec walks: Python scalars, tuples (held inline,
 * they have no identity the codec tracks), and references into a heap of
 * mutable objects. The heap is a sequence; an object's identity `id(obj)`
 * is its index.
 */
module Values {

  datatype Option<T> = None | Some(value: T)

  /** The exceptions the codec raises, grouped by cause. */
  datatype Error =
    | UnknownType(name: Prim)      // TypeError("Unknown type …")
    | NotDeserializable            // TypeError("Type … is not deserializable")
    | MissingKey                   // KeyError: unbound ordinal or absent marker
    | Unhashable                   // TypeError: unhashable type
    | BadType                      // any other TypeError on a malformed node
    | BadValue                     // ValueError: bad hex digits, negative seek
    | OutOfRange                   // IndexError: list assignment index out of range
    | NoAttribute                  // AttributeError: extend/items on the wrong kind
    | DuplicateBase                // TypeError from type(name, (cls, cls), {})
    | LayoutConflict               // TypeError: instance lay-out conflict
    | PickleFailure                // the fallback marshaller refused the object

  datatype Result<T> = Ok(value: T) | Err(error: Error)

  type ObjId = nat
  newtype Byte = b: int | 0 <= b < 256

  /** int, float (kept as its 64 bits, never interpreted), str, bool, None. */
  datatype Prim = Int(i: int) | Float(bits: bv64) | Str(s: string) | Bool(b: bool) | NoneVal

  datatype Value = Scalar(p: Prim) | Tup(items: seq<Value>) | Ref(id: ObjId)

  /** Key/value pairs of a dict or of an instance's `__dict__`, in insertion order. */
  type Entries = seq<(Prim, Value)>

  /** The built-in base whose storage a class's instances carry. */
  datatype Layout = PlainLayout | ListLayout | DictLayout

  /** A class: its `__name__`, the names of its `__bases__`, its instance layout. */
  datatype TypeDesc = TypeDesc(name: string, bases: seq<string>, layout: Layout)

  /** What an instance stores beside its attributes: list items for a list subclass, entries for a dict subclass. */
  datatype Payload = NoPayload | ListPayload(items: seq<Value>) | DictPayload(entries: Entries)

  datatype Obj =
    | ListObj(items: seq<Value>)
    | DictObj(entries: Entries)
    | SetObj(members: seq<Value>)                               // in iteration order
    | TextStream(text: string, pos: nat)                        // io.StringIO
    | ByteStream(data: seq<Byte>, pos: nat)                     // io.BytesIO
    | Instance(cls: TypeDesc, attrs: Entries, payload: Payload) // any object with a __dict__
    | Opaque(image: Option<seq<Byte>>)                          // pickle image; None if unpicklable

  type Heap = seq<Obj>

  // ---------------------------------------------------------------------------
  // Sequence steps, kept apart so that the proofs using them stay small

  lemma TakeOneMore<T>(s: seq<T>, k: nat)
    requires k < |s|
    ensures s[..k + 1] == s[..k] + [s[k]]
  {
  }

  lemma DropOne<T>(s: seq<T>, k: nat)
    requires k < |s|
    ensures s[k..] == [s[k]] + s[k + 1..]
  {
  }

  lemma AppendStep<T>(acc: seq<T>, x: T, rest: seq<T>)
    ensures acc + [x] + rest == acc + ([x] + rest)
  {
  }

  // ---------------------------------------------------------------------------
  // Dictionaries as insertion-ordered pair sequences

  /** Position of the first entry with key `k`, or -1. */
  function Find<V>(es: seq<(Prim, V)>, k: Prim): (r: int)
    ensures -1 <= r < |es|
    ensures r >= 0 ==> es[r].0 == k && forall j :: 0 <= j < r ==> es[j].0 != k
    ensures r < 0 ==> forall j :: 0 <= j < |es| ==> es[j].0 != k
  {
    if es == [] then -1
    else if es[0].0 == k then 0
    else
      var r := Find(es[1..], k);
      if r < 0 then -1 else r + 1
  }

  function Keys<V>(es: seq<(Prim, V)>): (ks: seq<Prim>)
    ensures |ks| == |es| && forall j :: 0 <= j < |es| ==> ks[j] == es[j].0
  {
    if es == [] then [] else [es[0].0] + Keys(es[1..])
  }

  lemma KeysConcat<V>(a: seq<(Prim, V)>, b: seq<(Prim, V)>)
    ensures Keys(a + b) == Keys(a) + Keys(b)
  {
    assert forall j :: 0 <= j < |a + b| ==> Keys(a + b)[j] == (Keys(a) + Keys(b))[j];
  }

  lemma KeysSnoc<V>(es: seq<(Prim, V)>, k: Prim, v: V)
    ensures Keys(es + [(k, v)]) == Keys(es) + [k]
  {
    KeysConcat(es, [(k, v)]);
  }

  predicate DistinctKeys<V>(es: seq<(Prim, V)>) {
    forall i, j :: 0 <= i < j < |es| ==> es[i].0 != es[j].0
  }

  /** `d[k] = v`: overwrite the value in place if the key is present, else append. */
  function Put<V>(es: seq<(Prim, V)>, k: Prim, v: V): (r: seq<(Prim, V)>)
    ensures Find(es, k) >= 0 ==> |r| == |es| && r[Find(es, k)] == (k, v)
    ensures Find(es, k) < 0 ==> r == es + [(k, v)]
    ensures forall j :: 0 <= j < |es| && es[j].0 != k ==> r[j] == es[j]
    ensures Keys(r) == if Find(es, k) >= 0 then Keys(es) else Keys(es) + [k]
  {
    var i := Find(es, k);
    if i >= 0 then es[i := (k, v)] else es + [(k, v)]
  }

  // ---------------------------------------------------------------------------
  // Sets as duplicate-free sequences

  predicate NoDup<T(==)>(s: seq<T>) {
    forall i, j :: 0 <= i < j < |s| ==> s[i] != s[j]
  }

  /** `s.add(v)`: no change when an equal member is present. */
  function SetAdd(ms: seq<Value>, v: Value): (r: seq<Value>)
    ensures forall x :: x in r <==> x in ms || x == v
    ensures NoDup(ms) ==> NoDup(r)
    ensures v !in ms ==> r == ms + [v]
  {
    if v in ms then ms else ms + [v]
  }

  /** `for v in vs: s.add(v)` on a set holding `ms`. */
  function AddAll(ms: seq<Value>, vs: seq<Value>): (r: seq<Value>)
    ensures forall x :: x in r <==> x in ms || x in vs
    ensures NoDup(ms) ==> NoDup(r)
    decreases |vs|
  {
    if vs == [] then ms
    else
      assert vs == [vs[0]] + vs[1..];
      AddAll(SetAdd(ms, vs[0]), vs[1..])
  }

  /**
   * Whether `hash(v)` succeeds: scalars, tuples of hashable values and
   * objects with identity hashing; lists, dicts, sets and instances of
   * list or dict subclasses are unhashable.
   */
  predicate Hashable(h: Heap, v: Value)
    decreases v
  {
    match v
    case Scalar(_) => true
    case Tup(xs) => forall j :: 0 <= j < |xs| ==> Hashable(h, xs[j])
    case Ref(i) =>
      i < |h| &&
      match h[i]
      case ListObj(_) => false
      case DictObj(_) => false
      case SetObj(_) => false
      case Instance(_, _, payload) => payload.NoPayload?
      case _ => true
  }

  // ---------------------------------------------------------------------------
  // Heap well-formedness: every reference names an existing object

  function EntryValues(es: Entries): (vs: seq<Value>)
    ensures |vs| == |es| && forall j :: 0 <= j < |es| ==> vs[j] == es[j].1
  {
    if es == [] then [] else [es[0].1] + EntryValues(es[1..])
  }

  /** Every value an object holds (list items, entry values, attributes, set members). */
  function Children(o: Obj): seq<Value> {
    match o
    case ListObj(xs) => xs
    case DictObj(es) => EntryValues(es)
    case SetObj(ms) => ms
    case Instance(_, attrs, payload) =>
      (match payload
       case NoPayload => []
       case ListPayload(xs) => xs
       case DictPayload(es) => EntryValues(es)) + EntryValues(attrs)
    case _ => []
  }

  lemma EntryValuesSnoc(es: Entries, k: Prim, v: Value)
    ensures EntryValues(es + [(k, v)]) == EntryValues(es) + [v]
  {
    var a, b := EntryValues(es + [(k, v)]), EntryValues(es) + [v];
    assert forall j :: 0 <= j < |a| ==> a[j] == b[j];
  }

  predicate ValueIn(h: Heap, v: Value)
    decreases v
  {
    match v
    case Scalar(_) => true
    case Tup(xs) => forall j :: 0 <= j < |xs| ==> ValueIn(h, xs[j])
    case Ref(i) => i < |h|
  }

  predicate AllIn(h: Heap, vs: seq<Value>) {
    forall j :: 0 <= j < |vs| ==> ValueIn(h, vs[j])
  }

  predicate Closed(h: Heap) {
    forall i :: 0 <= i < |h| ==> AllIn(h, Children(h[i]))
  }
}
