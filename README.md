# PyStandardizer `Serializer` in Dafny

The `Serializer` class turns a Python object graph into plain JSON-like data,
and turns that data back into objects. The encoder is `serialize`; the
decoder is `deserialize`. Shared and cyclic objects are written once. Every
later occurrence becomes a `{'__ref__': n}` node naming the ordinal `n` the
object was registered under. Containers are tagged by marker keys:
`__list__`, `__dict__`, `__set__`, `__tuple__`, `__type__`/`__bases__` for
instances of classes, `__StringIO__`, `__BytesIO__` and `__pickle__`. The
decoder rebuilds each class from a registry of classes filled by
`register_type`.

This project models that class and proves what it does.

- `Values` is the object model. Scalars are values. Tuples are held inline,
  because the codec never registers them. Every mutable object lives in a
  heap, which is a sequence indexed by `id(obj)`.
- `Wire` is the serialized form: scalars, lists, dicts with scalar keys, and
  anything else.
- `Hex` models `bytes.hex` and `bytes.fromhex`.
- `Encoder` and `Decoder` are the two directions as functions over an
  explicit state. The encoder state is the identity registry and the counter.
  The decoder state is the ordinal bindings, the counter and the heap.
- `Codec.Serializer` is the class itself. Its fields are updated in place.
  Each method is proved to compute exactly what the function named in its
  row of the table below computes, and its loops carry the invariants that
  connect the two.
- `EncoderFacts` and `DecoderFacts` prove what each direction promises: the
  order of its checks, who takes an ordinal and when, the shape of each node,
  the order of items, the error paths, and the invariants on the registry.
- `IterationFacts` proves that the decoder iterates any iterable where the
  source writes `for x in …`: a str yields its characters and a dict its
  keys. So `__set__`, `__tuple__` and `__bases__` given as a str or dict
  behave as the list of those scalars. A typed list extended by a dict
  receives its keys.
- `ObjectFacts` proves what the nodes that make one object build. Stream and
  pickle nodes decode exactly when their payload and position are valid. A
  typed node binds its instance before decoding its contents, then sets its
  attributes.
- `SubclassFacts` proves what a typed node leaves in a list or dict
  subclass. `__list__` items are appended in order. With a truthy
  `__custom_dict__`, the decoded items are assigned with `obj[key] = value`:
  they become a dict subclass's entries in order, or replace a list
  subclass's items by index, the last assignment to a position winning.
- `PlainValues`, `EncodePlain`, `DecodePlain` and `RoundTrip` prove the round
  trip. The values covered are reference-free: no object occurs twice, and
  nothing refers back to itself. Encoding such a value emits no `__ref__`
  node. Decoding the result, from any state, builds a fresh copy with the
  same shape.

The two directions number objects differently. The encoder increments the
counter before storing it, so its first ordinal is 1. The decoder stores the
counter before incrementing it, so its first ordinal is 0. The decoder also
binds an untyped `{'__list__': …}` twice: once for the inner list and once
for the marker node. `{'__dict__': …}` allocates two dicts, each taking an
ordinal. So a `__ref__` written by `serialize` does not, in general, name the
same object when `deserialize` reads it back.

`RoundTrip.SelfListLost` proves the simplest case. A list containing itself
encodes to `{'__list__': [{'__ref__': 1}]}`. Decoding that raises KeyError,
because only ordinal 0 is bound when the reference is read.

This is the behaviour of the code as written, and the model keeps it. The
round trip is therefore stated only for reference-free values.

## Model

| member | source | states |
|---|---|---|
| `Codec.Serializer.constructor` | Serializer.py:7-10 | A new serializer has an empty class registry, an empty object registry and counter 0. |
| `Codec.Serializer.RegisterType` | Serializer.py:13-15 | Stores the class under its name, replacing any earlier class of that name. Returns the class. Leaves the object registry and counter alone. |
| `Codec.Serializer.Serialize` | Serializer.py:25-103 | The result and the new identity registry and counter are exactly `Encoder.Enc` from the old ones. The class registry and decoder bindings are untouched. |
| `Codec.Serializer.SerializeObject` | Serializer.py:31-101 | For an object not yet registered, computes exactly `Encoder.EncObject`: the object is registered first, then its contents are encoded. |
| `Codec.Serializer.SerializeContents` | Serializer.py:31-101 | The node for a registered object is exactly `Encoder.EncContents`, branch by branch in the source's order. |
| `Codec.Serializer.SerializeSeq` | Serializer.py:38 | The loop over items computes `Encoder.EncSeq`. An error stops it at once with the state reached so far. |
| `Codec.Serializer.SerializeEntries` | Serializer.py:39 | The loop over entries computes `Encoder.EncEntries`, keeping the keys. |
| `Codec.Serializer.SerializeEntry` | Serializer.py:63 | One step of the entries loop. An error ends the fold with that error. Success advances the fold by one entry under its key. |
| `Codec.Serializer.Deserialize` | Serializer.py:105-107 | Empties the object registry and zeroes the counter before decoding. The result and new state are `Decoder.Dec` from `Decoder.Reset`. |
| `Codec.Serializer.DeserializeValue` | Serializer.py:109-187 | Computes exactly `Decoder.Dec` from the current bindings, counter and heap. |
| `Codec.Serializer.BindObject` | Serializer.py:114-115 | Binds the object to the current ordinal, then increments the counter by one. |
| `Codec.Serializer.DeserializeEach` | Serializer.py:116-117 | The loop over a node's children computes `Decoder.DecEach`, delivering each decoded item to its sink in order. |
| `Codec.Serializer.DeserializeDict` | Serializer.py:118-183 | The marker-key dispatch on a dict node computes `Decoder.DecDict`. |
| `Codec.Serializer.DeserializeSet` | Serializer.py:144-149 | Computes `Decoder.DecSet`. A list node's items are decoded and added. A str or dict node adds its characters or keys. Any other node is TypeError after the empty set was bound. |
| `Codec.Serializer.AddMembers` | Serializer.py:148-149 | The loop adding scalars one by one leaves the set exactly as `Values.AddAll` does. |
| `Codec.Serializer.DeserializeTuple` | Serializer.py:150-151 | Computes `Decoder.DecTuple`. A list node's items are decoded. A str or dict node gives the tuple of its characters or keys. Any other node is TypeError. |
| `Codec.Serializer.DeserializeLeaf` | Serializer.py:152-167 | Computes `Decoder.DecLeaf` for StringIO, BytesIO and pickle nodes. |
| `Codec.Serializer.DeserializeListMarker` | Serializer.py:168-171 | Computes `Decoder.DecListMarker`. |
| `Codec.Serializer.DeserializeDictMarker` | Serializer.py:172-177 | Computes `Decoder.DecDictMarker`. |
| `Codec.Serializer.DeserializePlainDict` | Serializer.py:178-183 | Computes `Decoder.DecPlainDict`. |
| `Codec.Serializer.StoreItems` | Serializer.py:176-177 | The store loop leaves the heap exactly as `Decoder.PutAll` does. |
| `Codec.Serializer.ResolveClass` | Serializer.py:122-130 | The loop over base names returns exactly `Decoder.ClassFor`. It iterates a list's items, a str's characters or a dict's keys. Any other `__bases__` value is TypeError. |
| `Codec.Serializer.DeserializeTyped` | Serializer.py:121-143 | Computes `Decoder.DecTyped`. |
| `Codec.Serializer.DeserializeExtend` | Serializer.py:134-135 | Computes `Decoder.DecExtend`. The decoded `__list__` value is iterated as Python does: a list's or tuple's items, a set's members, a str's characters, a dict's keys. |
| `Codec.Serializer.DeserializeFields` | Serializer.py:136-141 | Computes `Decoder.DecFields`: with a truthy `__custom_dict__` the decoded items are stored as entries of a dict subclass or assigned as items of a list subclass, otherwise they become attributes. |
| `Codec.Serializer.AssignItems` | Serializer.py:137-138 | The `obj[key] = value` loop on a list subclass leaves the result and heap exactly as `Decoder.SetItems` does, stopping at the first failing key. |
| `Encoder.Register` | Serializer.py:32-34 | Registering increments the counter and maps the identity to the new counter value. |
| `Encoder.RegisterExtends` | Serializer.py:32-34 | A registration only adds a fresh ordinal above the old counter. |
| `Encoder.Enc` | Serializer.py:26-101 | Encoding only extends the registry. Old entries are kept. New ones are heap objects with distinct ordinals in (old counter, new counter]. |
| `Encoder.EncSeq` | Serializer.py:38 | The registry only extends. On success, one node per remaining item is appended after `acc`, which is kept as a prefix. |
| `Encoder.EncEntries` | Serializer.py:39 | The registry only extends. |
| `Encoder.EncObject` | Serializer.py:31-101 | A new object gets ordinal counter + 1, and the registry only extends. |
| `Encoder.EncObjectUnfold` | Serializer.py:31-101 | Registering comes before encoding the contents, and registering shrinks the set of unregistered objects. |
| `Encoder.EncContents` | Serializer.py:35-101 | Encoding the contents only extends the registry. |
| `EncoderFacts.RegisteredIsRef` | Serializer.py:27-28 | An object already registered becomes `{'__ref__': n}` for its ordinal, whatever it is, and nothing changes. |
| `EncoderFacts.ScalarPassesThrough` | Serializer.py:29-30 | A scalar is emitted as itself and takes no ordinal. |
| `EncoderFacts.Leaves` | Serializer.py:29-30 | The nodes of scalar items are the scalars themselves, position by position. |
| `EncoderFacts.ScalarItems` | Serializer.py:38 | Scalar items are appended as leaves, and the registry is unchanged. |
| `EncoderFacts.TupleTakesNoOrdinal` | Serializer.py:70-71 | A tuple of scalars becomes `{'__tuple__': [...]}`, with the registry and counter unchanged. |
| `EncoderFacts.SerializeTwice` | Serializer.py:27-34 | A new object takes ordinal counter + 1. Encoding it again, in the same call or in a later `serialize`, yields a reference to that ordinal. |
| `EncoderFacts.SelfContainingList` | Serializer.py:51-57 | A list containing itself becomes `{'__list__': [{'__ref__': c + 1}]}`, and exactly one ordinal is used. |
| `EncoderFacts.LeafObjects` | Serializer.py:72-101 | StringIO, BytesIO and pickled objects each take exactly the next ordinal. StringIO carries its text and position. BytesIO carries its hex and position. An object that pickles carries the hex of its image. An unpicklable object fails after it was registered. |
| `EncoderFacts.EncKeepsInv` | Serializer.py:25-103 | Ordinals stay distinct and within 1..counter across any number of `serialize` calls. |
| `EncoderFacts.FreshInv` | Serializer.py:7-10 | A new serializer satisfies the ordinal invariant. |
| `EncoderFacts.EntriesKeepKeys` | Serializer.py:39 | Encoded entries keep the dict's keys in order. |
| `EncoderFacts.TypedHead` | Serializer.py:36-37 | Every typed node starts with `__type__` (the class name) and `__bases__` (the base names). |
| `EncoderFacts.ListShape` | Serializer.py:51-57 | A list becomes a one-key `__list__` node with one child per item. |
| `EncoderFacts.SetShape` | Serializer.py:65-69 | A set becomes a one-key `__set__` node with one child per member. |
| `EncoderFacts.DictShape` | Serializer.py:58-64 | A dict becomes a one-key `__dict__` node under its own keys, in order. |
| `EncoderFacts.ListSubclassShape` | Serializer.py:31-40 | A list subclass instance with a `__dict__` becomes a typed node naming its class and bases, with one `__list__` child per item and the attribute keys under `__dict__`. |
| `EncoderFacts.DictSubclassShape` | Serializer.py:41-50 | A dict subclass instance becomes a typed node with its entries under `__dict__` and `__custom_dict__` True. |
| `EncoderFacts.InstanceShape` | Serializer.py:88-96 | Any other object with a `__dict__` becomes a typed node with its attributes under `__dict__`. |
| `Values.AddAll` | Serializer.py:148-149 | Adding values to a set leaves it holding exactly the old members and the added values, each once. |
| `Decoder.Alloc` | Serializer.py:113 | A new object is appended to the heap, and the bindings are untouched. |
| `Decoder.Bind` | Serializer.py:114-115 | Binds the current ordinal and increments the counter, leaving the heap alone. |
| `Decoder.BindNew` | Serializer.py:113-115 | A new object is appended and bound to the current ordinal, and the counter increments. |
| `Decoder.UpdateAt` | Serializer.py:117 | Updating one object changes only that object. |
| `Decoder.PutAll` | Serializer.py:176-177 | Storing items changes only the target object, with bindings and counter unchanged. |
| `Decoder.ComposeBases` | Serializer.py:127-130 | Without a composition, the class is the looked-up one. With one, the result carries the node's class name. |
| `Decoder.ClassFor` | Serializer.py:122-130 | An unregistered class name is `UnknownType`. A resolved class is the registered one or a composition with the same name. |
| `Decoder.Child` | Serializer.py:116 | Each child of a node is smaller than the node. |
| `Decoder.Deliver` | Serializer.py:117 | Delivering an item changes only the sink object, never bindings or counter. |
| `Decoder.Dec` | Serializer.py:109-187 | Decoding only grows the state. Bindings below the old counter are kept. New bindings are exactly the ordinals up to the new counter. Old heap objects are unchanged. |
| `Decoder.DecEach` | Serializer.py:116-117 | Only the sink object changes among old objects. On success, one value per remaining child is produced. |
| `Decoder.DecDict` | Serializer.py:118-183 | The dispatch on marker keys only grows the state. |
| `Decoder.DecSet` | Serializer.py:144-149 | A set node only grows the state. |
| `Decoder.DecTuple` | Serializer.py:150-151 | A tuple node only grows the state. |
| `Decoder.DecLeaf` | Serializer.py:152-167 | StringIO, BytesIO and pickle nodes only grow the state. |
| `Decoder.DecListMarker` | Serializer.py:168-171 | An untyped `__list__` node only grows the state. |
| `Decoder.DecDictMarker` | Serializer.py:172-177 | An untyped `__dict__` node only grows the state. |
| `Decoder.DecPlainDict` | Serializer.py:178-183 | A dict without markers only grows the state. |
| `Decoder.DecTyped` | Serializer.py:121-143 | A typed node only grows the state. `ObjectFacts.TypedBoundFirst`, `ObjectFacts.TypedAttrs`, `SubclassFacts.ListSubclassFilled` and `SubclassFacts.DictSubclassFilled` give the instance it builds. |
| `Decoder.DecFields` | Serializer.py:136-141 | Storing fields changes only the instance among old objects. `SubclassFacts.SetItemsLastWins` and `SubclassFacts.CustomDictFills` give the contents. |
| `Decoder.ItemIndex` | Serializer.py:137-138 | `obj[key]` on a list of length n accepts exactly an int or bool key in -n..n-1 and names the position equal to it modulo n. Any other int is IndexError; any other key is TypeError. |
| `Decoder.SetItems` | Serializer.py:137-138 | Assigning items changes only the target object, keeps the bindings, counter and heap size, and a success yields the object. |
| `Decoder.DecExtend` | Serializer.py:134-135 | Extending changes only the instance among old objects. |
| `DecoderFacts.RefComesFirst` | Serializer.py:119-120 | A `__ref__` node yields the bound object, whatever other keys it has, and nothing changes. An unbound ordinal is KeyError. |
| `DecoderFacts.UnknownTypeFails` | Serializer.py:121-143 | A typed node naming an unregistered class is TypeError, raised before anything is bound. |
| `DecoderFacts.OtherNotDeserializable` | Serializer.py:184-185 | A value that is not a scalar, list or dict is TypeError. |
| `DecoderFacts.ScalarPassesThrough` | Serializer.py:110-111 | A scalar is returned as itself, and nothing is bound. |
| `DecoderFacts.ResetInv` | Serializer.py:105-107 | `deserialize` starts from an empty registry and counter 0, satisfying the registry invariant. |
| `DecoderFacts.GrowsKeepsInv` | Serializer.py:109-187 | Growing the state keeps the invariant "exactly the ordinals below the counter are bound". |
| `DecoderFacts.DecKeepsInv` | Serializer.py:109-187 | Every decode keeps that invariant. |
| `DecoderFacts.AppendsInOrder` | Serializer.py:116-117 | Appending decoded items leaves the list holding exactly the decoded values, in order. |
| `DecoderFacts.ListTakesOrdinal` | Serializer.py:112-117 | A list takes the current ordinal and keeps it, and the result is the new list. |
| `DecoderFacts.ListBoundBeforeItems` | Serializer.py:112-117 | The list is bound before its items are decoded, and it ends up holding them in order. |
| `DecoderFacts.SelfReferenceResolves` | Serializer.py:112-120 | `[{'__ref__': c}]`, at counter `c`, decodes to a list containing itself. |
| `DecoderFacts.ListMarkerBindsTwice` | Serializer.py:168-171 | An untyped `__list__` node binds the same new list at two ordinals: the inner one and a later one. |
| `DecoderFacts.MarkerRebinds` | Serializer.py:168-171 | A `__list__` node whose inner value is bound at the current ordinal binds that value again at a later ordinal. |
| `DecoderFacts.ListMarkerRebinds` | Serializer.py:169-171 | The inner list keeps its ordinal and is bound again at the top. |
| `DecoderFacts.DispatchListMarker` | Serializer.py:118-171 | With no earlier marker present, the dispatch reaches the `__list__` branch. |
| `DecoderFacts.AddsAll` | Serializer.py:148-149 | Adding decoded items leaves the set holding exactly them, each once. |
| `DecoderFacts.UnhashableItemFails` | Serializer.py:149 | An unhashable decoded item makes the set node fail. |
| `DecoderFacts.SetBoundBeforeItems` | Serializer.py:144-149 | The empty set is bound first, then holds exactly the decoded items. |
| `DecoderFacts.FreshKey` | Serializer.py:182-183 | With distinct node keys, the next key is not yet stored. |
| `DecoderFacts.StoresEntries` | Serializer.py:182-183 | The dict holds the node's keys in order, with the decoded values. |
| `DecoderFacts.EntryStep` | Serializer.py:183 | One decoded value is appended under its key. |
| `DecoderFacts.PlainDictBoundBeforeItems` | Serializer.py:178-183 | A dict without markers is bound first, then holds the node's keys in order. |
| `IterationFacts.ScalarLeavesCollect` | Serializer.py:151 | Scalar leaves decode to themselves and are collected in order. Nothing is bound. |
| `IterationFacts.ScalarLeavesAdd` | Serializer.py:148-149 | Adding decoded scalar leaves to a set is adding the scalars themselves. |
| `IterationFacts.TupleIteratesLikeList` | Serializer.py:150-151 | `{'__tuple__': x}` with a str or dict `x` decodes like the list of its characters or keys: to the tuple of those scalars, with nothing bound. |
| `IterationFacts.SetIteratesLikeList` | Serializer.py:144-149 | `{'__set__': x}` with a str or dict `x` decodes like the list of its characters or keys. The new set is bound to the current ordinal and holds exactly those scalars, each once. |
| `IterationFacts.UnregisteredBasesSkipped` | Serializer.py:127-130 | Base names that are not registered leave the class unchanged. |
| `IterationFacts.BasesIterated` | Serializer.py:123-130 | A str or dict `__bases__` resolves like the list of its characters or keys. If none names a registered class, the class is the registered one. A `__bases__` that is neither a list nor iterable is TypeError. |
| `IterationFacts.ExtendByDictKeys` | Serializer.py:134-135 | A typed list whose `__list__` is a dict without markers is extended, on success, by that dict's keys in order, after its items. |
| `ObjectFacts.TextStreamDecodes` | Serializer.py:152-157 | A StringIO node decodes exactly when its text is a str or None and its position a non-negative int. It yields a new StringIO with that text and position, bound to the current ordinal. A failure changes nothing. |
| `ObjectFacts.ByteStreamDecodes` | Serializer.py:158-163 | A BytesIO node decodes exactly when its data is valid hex and its position a non-negative int. It yields a new BytesIO with those bytes and that position, bound to the current ordinal. A failure changes nothing. |
| `ObjectFacts.PickleDecodes` | Serializer.py:164-167 | In the model, where loading never fails, a pickle node decodes exactly when its data is valid hex. It yields a new object loaded from those bytes, bound to the current ordinal. A failure changes nothing. |
| `ObjectFacts.ExtendKeepsClass` | Serializer.py:134-135 | Extending keeps the instance's class and attributes. |
| `ObjectFacts.PutAllKeepsClass` | Serializer.py:137-138 | Storing items keeps the instance's class. |
| `ObjectFacts.SetItemsKeepsClass` | Serializer.py:137-138 | Assigning list items keeps the instance's class, whether or not it succeeds. |
| `ObjectFacts.AttrsKeepClass` | Serializer.py:140-141 | Setting attributes keeps the instance's class and contents, whether or not it succeeds. |
| `ObjectFacts.FieldsKeepClass` | Serializer.py:136-141 | Either branch of the `__dict__` part keeps the instance's class. |
| `ObjectFacts.TypedBoundFirst` | Serializer.py:121-143 | A typed node binds an instance of the resolved class to the current ordinal before its contents are decoded. The object stays of that class, and a success returns it. An unresolved class fails with nothing bound. |
| `ObjectFacts.AttrStep` | Serializer.py:141 | One decoded value is appended as an attribute under its str key. |
| `ObjectFacts.StoresAttrs` | Serializer.py:140-141 | Setting the values of a `__dict__` with distinct keys leaves exactly those attribute names, in order, with the decoded values. Class and contents are unchanged. |
| `ObjectFacts.AttrKeysAreStr` | Serializer.py:141 | Setting attributes succeeds only if every key is a str. |
| `ObjectFacts.TypedAttrs` | Serializer.py:121-141 | A typed node without `__list__` or truthy `__custom_dict__`, whose `__dict__` has distinct keys, ends on success with an instance of the resolved class. The instance has exactly those attributes, all str, in order, and empty list or dict contents. |
| `SubclassFacts.SetItemsLastWins` | Serializer.py:137-138 | `obj[key] = value` for every item on a list subclass succeeds exactly when every key names a position of the list. Each position then holds the value of the last item naming it, and the others keep theirs. The length, class and attributes are unchanged. |
| `SubclassFacts.ExtendByList` | Serializer.py:134-135 | `extend` with a `__list__` list node appends the decoded items, held by a new list at the next ordinal, to the instance's items. |
| `SubclassFacts.ListSubclassFilled` | Serializer.py:121-141 | A list-subclass node without a truthy `__custom_dict__` ends, on success, with an instance of the resolved list-layout class holding exactly the decoded `__list__` items in order. |
| `SubclassFacts.PutAllFillsPayload` | Serializer.py:137-138 | Storing items with new keys in a dict-subclass instance appends them to its entries in order. |
| `SubclassFacts.CustomDictFills` | Serializer.py:136-138 | On an empty dict-subclass instance, the custom-dict step stores the entries of the decoded dict, whose keys are the node's, in order. |
| `SubclassFacts.DictSubclassFilled` | Serializer.py:121-141 | A dict-subclass node fails on a class without item assignment unless `__dict__` is empty. For a dict-layout class it ends with no attributes and the decoded dict's entries, keyed by the node's keys in order. |
| `SubclassFacts.OneItemList` | Serializer.py:112-117 | A one-scalar list node decodes to a new list holding that scalar, bound to the current ordinal. |
| `SubclassFacts.OneEntryDict` | Serializer.py:179-183 | A one-entry dict node under a non-marker key decodes to a new dict holding that entry, bound to the current ordinal. |
| `SubclassFacts.CustomDictReplacesItem` | Serializer.py:121-141 | A list subclass with `__list__` `[p]` and custom dict `{0: q}` decodes to an instance holding `[q]`. The list `[p]` keeps the next ordinal. |
| `SubclassFacts.CustomDictOnListSubclass` | Serializer.py:121-141 | `{'__type__': 'L', '__list__': [5], '__dict__': {0: 7}, '__custom_dict__': True}` decodes to `L([7])`. |
| `Hex.Digit` | Serializer.py:85 | Emits a hex digit, not whitespace, whose value is the given nibble. |
| `Hex.ToHex` | Serializer.py:85 | Two hex digits per byte. |
| `Hex.FromHexToHex` | Serializer.py:85 | `bytes.fromhex(b.hex()) == b`. |
| `Hex.FromHexRejects` | Serializer.py:159 | Text with a character that is neither hex nor whitespace is rejected. |
| `PlainValues.NodeChildren` | Serializer.py:51-71 | A container's node has one child per child value, each the child's image. |
| `PlainValues.PlainKeys` | Serializer.py:58-64 | A dict's node keeps its keys. For a well-formed dict they are distinct and not markers. |
| `PlainValues.RealizesFrame` | Serializer.py:109-187 | A copy stays a copy while the objects it uses are untouched. |
| `PlainValues.FlatInjective` | Serializer.py:144-149 | Distinct flat values have distinct values, so a set keeps every member. |
| `DecodePlain.FlatDecodes` | Serializer.py:150-151 | A tuple of scalars decodes to the same value and binds nothing. |
| `DecodePlain.AddsFlat` | Serializer.py:148-149 | Distinct flat members are added in order, and all are kept. |
| `DecodePlain.PutAllAppends` | Serializer.py:176-177 | Storing new keys appends them in order. |
| `DecodePlain.DictMarkerStep` | Serializer.py:172-177 | `{'__dict__': n}` copies the entries of the decoded `n` into the dict bound first. |
| `DecodePlain.InnerEntries` | Serializer.py:178-183 | The inner dict of a well-formed dict node holds its keys with copies of its values. |
| `DecodePlain.EachImages` | Serializer.py:116-117 | Children decode in order to copies of the child values. |
| `DecodePlain.DecodeImage` | Serializer.py:109-187 | Decoding the image of a well-formed reference-free value succeeds, from any state, with a copy whose objects are all new. |
| `EncodePlain.EncItems` | Serializer.py:38 | Copies of the items encode to their images, appended in order. |
| `EncodePlain.EncEntryImages` | Serializer.py:63 | Copies of entry values encode to the images under the same keys. |
| `EncodePlain.EncodeImage` | Serializer.py:26-103 | A copy whose objects are distinct and unregistered encodes to exactly its image, with no `__ref__`. Exactly its objects get registered. |
| `RoundTrip.RoundTrip` | Serializer.py:25-189 | Reference-free values survive encode-then-decode from any states: the decoded value is a fresh copy of the original. |
| `RoundTrip.FreshRoundTrip` | Serializer.py:7-189 | The same for a new serializer and a reset decoder. |
| `RoundTrip.SelfListLost` | Serializer.py:51-57 | A list containing itself encodes to `{'__list__': [{'__ref__': 1}]}`, and decoding that raises KeyError. |
| `RoundTrip.StreamRoundTrip` | Serializer.py:72-101 | A StringIO, a BytesIO or a picklable object encodes to a node that decodes, from any state, to an equal new object bound to the next ordinal. |
| `RoundTrip.FirstListRefUnbound` | Serializer.py:112-120 | From a reset registry, a list's first item cannot reference ordinal 1. |

## Left out

- `register_all_imported_types` (Serializer.py:17-23) walks `sys.modules` by reflection. The constructor starts with an empty class registry, and classes are added with `RegisterType`.
- Python's class machinery is reduced to a `TypeDesc` (name, base names, layout):
  - `type(name, (cls, base), {})` is modelled only by its two failures, a duplicate base and a layout conflict;
  - MRO conflicts are not modelled;
  - `cls.__new__` gives an empty instance of the layout.
- `obj[key] = value` follows the built-in layout: dict entries, list items, or TypeError for a plain instance. A class defining its own `__setitem__` is not modelled.
- Only instances with `__dict__` are subclassed. Subclasses of set, tuple, str, int and the stream types are not modelled.
- `pickle.dumps`/`pickle.loads` are opaque. An object holds its pickle image, or none when pickling fails. Loading allocates an opaque object with the image and never fails. A corrupt image that is still valid hex, on which `pickle.loads` raises UnpicklingError or EOFError, decodes in the model.
- StringIO and BytesIO are reduced to their contents and position.
- The text of TypeError/KeyError messages is not modelled. Errors are grouped by kind.
- Floats are kept as their 64-bit pattern and never compared numerically.
- Python's `1 == 1.0 == True` key equality is not modelled. Keys are equal only when they have the same kind and value.
- Dict keys are scalars only. Tuple keys are not modelled.
- Set iteration order is modelled as a fixed sequence order. The real order depends on hashes.
- The single dict `object_registry` is modelled as two fields: the encoder's identity map and the decoder's ordinal map. `deserialize` replaces the whole dict, so both are emptied. Identities and small ordinals do not collide in CPython.
- `id()` reuse after garbage collection is not modelled. Heap indices are never reused.
- The heap is passed to and returned from the serializer methods as a value, rather than updated in place.
- Concurrency is not modelled.
- Iteration where the source writes `for x in …` or `extend` covers lists, tuples, sets, str and dicts. Iterating a StringIO or BytesIO (by lines), an unpickled object or an instance defining `__iter__` is modelled as TypeError.
- A `__set__`, `__tuple__` or `__bases__` node that is a value outside the wire form (`TOther`) is treated as not iterable. JSON-like data has no other iterables.
- `Encoder.Enc`: its contract does not state that the counter grows by exactly the number of new entries. It states only that new ordinals are distinct and lie in (old counter, new counter].
- `RoundTrip.RoundTrip`: covers only reference-free values. Set members are scalars or tuples of them. Dict keys are distinct and are not marker names. Values that share or cycle objects are covered only by the single case `RoundTrip.SelfListLost`, because the two directions number ordinals differently.
