/**
 * `deserialize(serialize(x))` for reference-free values, and what happens
 * to a value that refers to itself.
 */
module RoundTrip {
  import opened Values
  import opened Wire
  import opened Encoder
  import opened Decoder
  import EncoderFacts
  import DecoderFacts
  import opened PlainValues
  import EncodePlain
  import DecodePlain
  import ObjectFacts

  /**
   * A copy of a well-formed reference-free value whose objects are distinct
   * and not yet registered encodes to a tree without references, and
   * decoding that tree, from any decoder state, yields a new copy of the
   * same value.
   */
  lemma RoundTrip(types: map<string, TypeDesc>, h: Heap, v: Value, x: Plain, st: EncState, dst: DecState)
    requires Closed(h) && WellFormed(x) && Realizes(h, v, x, 0)
    requires NoDup(EncodePlain.Reach(h, v, x)) && forall i :: i in EncodePlain.Reach(h, v, x) ==> i !in st.ids
    ensures ValueIn(h, v)
    ensures var e := Enc(h, v, st);
      e.r.Ok? && (var d := Dec(types, e.r.value, dst); d.r.Ok? && Realizes(d.st.heap, d.r.value, x, |dst.heap|))
  {
    EncodePlain.EncodeImage(h, v, x, st);
    DecodePlain.DecodeImage(types, x, dst);
  }

  /**
   * A fresh serializer starts with no object registered, so every copy whose
   * objects are distinct makes the round trip through `serialize` and
   * `deserialize` (which starts from a reset registry).
   */
  lemma FreshRoundTrip(types: map<string, TypeDesc>, h: Heap, v: Value, x: Plain, h2: Heap)
    requires Closed(h) && WellFormed(x) && Realizes(h, v, x, 0) && NoDup(EncodePlain.Reach(h, v, x))
    ensures ValueIn(h, v)
    ensures var e := Enc(h, v, EncState(map[], 0));
      e.r.Ok? && (var d := Dec(types, e.r.value, Reset(h2)); d.r.Ok? && Realizes(d.st.heap, d.r.value, x, |h2|))
  {
    RoundTrip(types, h, v, x, EncState(map[], 0), Reset(h2));
  }

  /**
   * A list containing itself does not survive the round trip: the encoder
   * numbers objects from 1 and writes `{'__list__': [{'__ref__': 1}]}`, but
   * the decoder numbers from 0, so when the inner reference is read only
   * ordinal 0 is bound and the lookup raises KeyError.
   */
  lemma SelfListLost(types: map<string, TypeDesc>, h: Heap, i: ObjId, h2: Heap)
    requires Closed(h) && i < |h| && h[i] == ListObj([Ref(i)])
    ensures var e := Enc(h, Ref(i), EncState(map[], 0));
      e.r == Ok(TDict([(ListKey, TList([RefNode(1)]))])) && Dec(types, e.r.value, Reset(h2)).r == Err(MissingKey)
  {
    EncoderFacts.SelfContainingList(h, i, EncState(map[], 0));
    var items := [RefNode(1)];
    DecoderFacts.OnlyListKey(TList(items));
    DecoderFacts.DispatchListMarker(types, TDict([(ListKey, TList(items))]), Reset(h2));
    FirstListRefUnbound(types, h2);
  }

  /** Decoding from a reset registry, a list's first item cannot refer to ordinal 1: only 0 is bound. */
  lemma FirstListRefUnbound(types: map<string, TypeDesc>, h2: Heap)
    ensures Dec(types, TList([RefNode(1)]), Reset(h2)).r == Err(MissingKey)
  {
    var items := [RefNode(1)];
    var st1 := BindNew(Reset(h2), ListObj([]));
    assert Dec(types, RefNode(1), st1) == DecOut(Err(MissingKey), st1);
    assert DecEach(types, TList(items), 0, [], AppendTo(|h2|), st1).r == Err(MissingKey);
  }

  /**
   * A StringIO, a BytesIO or a picklable object makes the round trip: its
   * node decodes, from any decoder state, to a new object equal to it (same
   * text or bytes, same position, same pickled image), bound to the next
   * ordinal.
   */
  lemma StreamRoundTrip(types: map<string, TypeDesc>, h: Heap, i: ObjId, st: EncState, dst: DecState)
    requires Closed(h) && i < |h| && i !in st.ids
    requires h[i].TextStream? || h[i].ByteStream? || (h[i].Opaque? && h[i].image.Some?)
    ensures var e := Enc(h, Ref(i), st);
      e.r.Ok? && Dec(types, e.r.value, dst) == DecOut(Ok(Ref(|dst.heap|)), BindNew(dst, h[i]))
  {
    EncoderFacts.LeafObjects(h, i, st);
    match h[i]
    case TextStream(text, pos) =>
      ObjectFacts.TextStreamDecodes(types, TScalar(Str(text)), TScalar(Int(pos)), dst);
    case ByteStream(data, pos) =>
      Hex.FromHexToHex(data);
      ObjectFacts.ByteStreamDecodes(types, TScalar(Str(Hex.ToHex(data))), TScalar(Int(pos)), dst);
    case Opaque(image) =>
      Hex.FromHexToHex(image.value);
      ObjectFacts.PickleDecodes(types, TScalar(Str(Hex.ToHex(image.value))), dst);
  }
}
