/**
 * The marker-keyed tree the encoder emits and the decoder consumes: the
 * plain Python data (scalars, lists, dicts) in which every non-scalar node
 * is a dict tagged by marker keys such as `__ref__` or `__list__`.
 */
module Wire {
  import opened Values

  /** A Python value inside the tree; TOther is anything that is not a scalar, list or dict. */
  datatype Tree =
    | TScalar(p: Prim)
    | TList(items: seq<Tree>)
    | TDict(entries: seq<(Prim, Tree)>)
    | TOther

  const RefKey := Str("__ref__")
  const TypeKey := Str("__type__")
  const BasesKey := Str("__bases__")
  const ListKey := Str("__list__")
  const DictKey := Str("__dict__")
  const CustomDictKey := Str("__custom_dict__")
  const SetKey := Str("__set__")
  const TupleKey := Str("__tuple__")
  const StringIOKey := Str("__StringIO__")
  const StringIOPosKey := Str("__StringIO_pos__")
  const BytesIOKey := Str("__BytesIO__")
  const BytesIOPosKey := Str("__BytesIO_pos__")
  const PickleKey := Str("__pickle__")

  /** Every key the decoder treats as a marker. */
  const Markers: set<Prim> := {RefKey, TypeKey, BasesKey, ListKey, DictKey, CustomDictKey, SetKey,
                               TupleKey, StringIOKey, StringIOPosKey, BytesIOKey, BytesIOPosKey, PickleKey}

  /** `{'__ref__': n}`. */
  function RefNode(n: nat): Tree {
    TDict([(RefKey, TScalar(Int(n)))])
  }

  /** `key in d`. */
  predicate Has(es: seq<(Prim, Tree)>, key: Prim) {
    Find(es, key) >= 0
  }

  /** The one-character strings that iterating the str `s` yields, in order. */
  function Chars(s: string): (cs: seq<Prim>)
    ensures |cs| == |s| && forall j :: 0 <= j < |s| ==> cs[j] == Str([s[j]])
  {
    seq(|s|, j requires 0 <= j < |s| => Str([s[j]]))
  }

  /** Leaf nodes for scalars, one per scalar. */
  function PrimNodes(ps: seq<Prim>): (ts: seq<Tree>)
    ensures |ts| == |ps| && forall j :: 0 <= j < |ps| ==> ts[j] == TScalar(ps[j])
  {
    seq(|ps|, j requires 0 <= j < |ps| => TScalar(ps[j]))
  }

  /**
   * What `for x in t` yields when `t` is not a list: the characters of a
   * str, the keys of a dict. Any other value is not iterable (TypeError).
   */
  function IterPrims(t: Tree): Result<seq<Prim>> {
    match t
    case TScalar(Str(s)) => Ok(Chars(s))
    case TDict(es) => Ok(Keys(es))
    case _ => Err(BadType)
  }

  /** What `for x in t` yields, as nodes: a list's items, or the scalars of `IterPrims`. */
  function Iterate(t: Tree): Result<seq<Tree>> {
    if t.TList? then Ok(t.items)
    else
      match IterPrims(t)
      case Ok(ps) => Ok(PrimNodes(ps))
      case Err(e) => Err(e)
  }

  /** A list of class names, as `__bases__` is written. */
  function NameList(names: seq<string>): (t: Tree)
    ensures t.TList? && |t.items| == |names|
    ensures forall j :: 0 <= j < |names| ==> t.items[j] == TScalar(Str(names[j]))
  {
    TList(seq(|names|, j requires 0 <= j < |names| => TScalar(Str(names[j]))))
  }

  /** Python truthiness of a tree value; the bits of a float are false only for +0.0 and -0.0. */
  predicate Truthy(t: Tree) {
    match t
    case TScalar(p) =>
      (match p
       case Int(n) => n != 0
       case Float(bits) => bits & 0x7FFF_FFFF_FFFF_FFFF != 0
       case Str(s) => s != []
       case Bool(b) => b
       case NoneVal => false)
    case TList(items) => items != []
    case TDict(entries) => entries != []
    case TOther => true
  }
}
