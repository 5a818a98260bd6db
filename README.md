# Bean binding of the XML serializer, modelled in Dafny

This project models `BeanBinding`, the part of the IntelliJ XML serializer
(`com.intellij.util.xmlb`) that binds one bean class to an XML element. The
binding does three things:

- **Discovery.** When it is built, it finds the class's accessors. These are the
  getter/setter properties and the public fields, minus the pseudo-property
  `class`, read-only and write-only properties, static fields and anything
  marked `@Transient`. It asks the serializer for a child binding per accessor
  and keeps the pairs in its `myPropertyBindings` table.
- **Encoding (`serialize`).** It builds an element named after the bean's tag.
  It visits the table in order of accessor name. It skips the members the
  `SerializationFilter` rejects. It appends each node a child binding returns,
  unless the binding returned the element itself.
- **Decoding (`deserialize`).** It creates a fresh bean. It sends every child of
  the element, in document order, to the first binding whose `isBoundTo`
  accepts it. The first child that no binding accepts fails the whole call.
  Otherwise every binding that received nodes deserializes its group into the
  bean.

Files and modules:

- `wrappers.dfy` (`Wrappers`): `Option` and `Result`.
- `dom.dfy` (`Dom`, `Errors`): the document tree as values, and the serializer's
  failures (`XmlSerializationException` and its causes).
- `names.dfy` (`Names`): Java's `String.compareTo`, with the comparator contract
  (antisymmetry, totality, transitivity, zero exactly on equal strings).
- `accessors.dfy` (`Accessors`): descriptor records that replace reflection, and
  `getAccessors` as the method `GetAccessors`. Specification functions and lemmas
  give the exact accessor list.
- `property_table.dfy` (`PropertyTable`): the `HashMap<Binding, Accessor>` as a
  sequence of pairs with distinct bindings. `ToMap` maps it to the map it stands
  for; `Put` is `HashMap.put`.
- `binding.dfy` (`Binding`): the child-binding capability, given as functions of
  the binding value.
- `encoding.dfy` (`Encoding`): ordering by name and the children that encoding
  appends, with their lemmas.
- `decoding.dfy` (`Decoding`): first-match routing, grouping, failure, and the
  application of the groups, with their lemmas.
- `bean_binding.dfy` (`BeanBindings`): the class `BeanBinding`. It holds the tag
  name, the filter and the table. Its methods are `InitPropertyBindings`,
  `Serialize`, `Deserialize`, `IsBoundTo` and `BoundNodeType`, and
  `CreateBeanBinding` plays the part of the Java constructor.
- `routing.dfy` (`Routing`): how the two halves meet. Children produced by
  encoding go back, on decode, to the bindings that produced them. It also holds
  the tag-override property.

External strategies are parameters of the model:

- the serializer's `createBindingByAccessor` is a function `Accessor -> B`;
- the child bindings' `serialize`, `deserialize` and `isBoundTo` are the
  functions in `ChildBindings`;
- the filter is a function `(Accessor, Bean) -> bool`;
- `Class.newInstance` is an `Option<Bean>`, where `None` means the constructor
  throws.

Two behaviours of the code are kept as written:

- Two bindings that accept the same child are not rejected when the binding is
  built. The first one in the table's iteration order wins.
  `Decoding.GroupingIgnoresBindingOrder` shows that this order matters only when
  such an ambiguity exists.
- The code wraps introspection failures and the two reflective instantiation
  failures (`InstantiationException`, `IllegalAccessException`) in one exception
  type, `XmlSerializationException`. The model keeps them apart as
  `IntrospectionFailed` and `InstantiationFailed`.

## Model

| member | source | states |
|---|---|---|
| `Accessors.GetAccessors` | util/src/com/intellij/util/xmlb/BeanBinding.java:139-174 | Fails with the introspection error exactly when bean introspection fails. Otherwise it returns the kept property accessors followed by the kept field accessors. |
| `Accessors.PropertyAccessorsSelect` | util/src/com/intellij/util/xmlb/BeanBinding.java:146-158 | The k-th property accessor wraps the k-th descriptor that passes the checks, in descriptor order. |
| `Accessors.PropertyAccessorsMembership` | util/src/com/intellij/util/xmlb/BeanBinding.java:147-157 | An accessor is on the property list iff it wraps a listed descriptor that is not named "class", has a read method and a write method, and has neither one transient. |
| `Accessors.FieldAccessorsSelect` | util/src/com/intellij/util/xmlb/BeanBinding.java:160-166 | The k-th field accessor wraps the k-th kept field, in field order. |
| `Accessors.FieldAccessorsMembership` | util/src/com/intellij/util/xmlb/BeanBinding.java:161-165 | An accessor is on the field list iff it wraps a listed field that is public, not static and not transient. |
| `Accessors.KeptIndices` | util/src/com/intellij/util/xmlb/BeanBinding.java:146-166 | The indices the discovery loops keep are increasing and in range. They are exactly the positions whose element passes the check. |
| `PropertyTable.Put` | util/src/com/intellij/util/xmlb/BeanBinding.java:41 | `HashMap.put`: the table stands for the old map updated at the binding. Its keys stay distinct. It grows by one pair exactly when the binding was new. |
| `PropertyTable.PutAllOnePairPerAccessor` | util/src/com/intellij/util/xmlb/BeanBinding.java:37-43 | If the factory gives every accessor its own binding, the table has one pair per accessor, and each binding maps to its accessor. |
| `PropertyTable.Bindings` | util/src/com/intellij/util/xmlb/BeanBinding.java:80 | The key list has the table's bindings, one per pair, in table order. |
| `BeanBindings.BeanBinding.InitPropertyBindings` | util/src/com/intellij/util/xmlb/BeanBinding.java:37-43 | Puts one pair per accessor, in turn, into the table and keeps the bindings distinct. |
| `BeanBindings.BeanBinding.constructor` | util/src/com/intellij/util/xmlb/BeanBinding.java:27-35 | The tag name is the resolved one, the table is built from the accessors, and the class invariant holds. |
| `BeanBindings.CreateBeanBinding` | util/src/com/intellij/util/xmlb/BeanBinding.java:27-43 | Fails iff introspection fails. Otherwise it gives a new valid binding that keeps the bean class, instance source, filter and child bindings it was given, and whose table is built from the discovered accessors. |
| `BeanBindings.BeanBinding.Serialize` | util/src/com/intellij/util/xmlb/BeanBinding.java:45-71 | The result is an element with the bean's tag, and `IsBoundTo` accepts it. Its children are those produced while visiting a name-sorted permutation of the table. |
| `Encoding.SortByName` | util/src/com/intellij/util/xmlb/BeanBinding.java:50-58 | The visit order is sorted by accessor name and is a permutation of the table. |
| `Encoding.InsertSorted` | util/src/com/intellij/util/xmlb/BeanBinding.java:52-58 | Inserting a pair by name keeps a name-sorted sequence sorted. |
| `Encoding.SortedPermutationsAgreeOnNames` | util/src/com/intellij/util/xmlb/BeanBinding.java:50-60 | Any two name-sorted orders of the same table visit the same names in the same order, whatever the table's iteration order. |
| `Encoding.SortedPermutationsEqual` | util/src/com/intellij/util/xmlb/BeanBinding.java:50-58 | When no two accessors share a name, any two name-sorted orders of the same table are the same sequence. |
| `Encoding.PermutationKeepsDistinctNames` | util/src/com/intellij/util/xmlb/BeanBinding.java:50 | Copying the table into a list and reordering it keeps the accessor names distinct. |
| `Encoding.EncodingIgnoresTableOrder` | util/src/com/intellij/util/xmlb/BeanBinding.java:45-71 | When the table's accessor names are distinct, every name-sorted visit of the table is the same and appends the same children, so the element does not depend on the table's iteration order. |
| `Encoding.EncodeChildrenAppend` | util/src/com/intellij/util/xmlb/BeanBinding.java:60-68 | The children of a concatenated visit are the children of the first part followed by those of the second. |
| `Encoding.EncodeChildrenGrows` | util/src/com/intellij/util/xmlb/BeanBinding.java:64-67 | The children after a prefix of the visit are a prefix of the final children, so the loop only ever appends. |
| `Encoding.PairWithoutNodeAddsNothing` | util/src/com/intellij/util/xmlb/BeanBinding.java:62-67 | Dropping a pair changes no child if the filter rejects it or its binding returned the element itself. |
| `Encoding.AcceptedPairAddsItsNode` | util/src/com/intellij/util/xmlb/BeanBinding.java:62-67 | An accepted pair whose binding returns a new node adds exactly that node, after the children of earlier pairs and before those of later ones. |
| `BeanBindings.GetTagName` | util/src/com/intellij/util/xmlb/BeanBinding.java:132-137 | The tag name is the annotation's tag name when one is present and non-empty, and the simple class name otherwise. |
| `BeanBindings.BeanBinding.IsBoundTo` | util/src/com/intellij/util/xmlb/BeanBinding.java:124-126 | On a valid binding, a node is accepted exactly when it is an element named with the class's tag name: the override when non-empty, otherwise the simple name. |
| `BeanBindings.BeanBinding.BoundNodeType` | util/src/com/intellij/util/xmlb/BeanBinding.java:124-130 | Every node the binding accepts is of the kind it reports, which is element. |
| `BeanBindings.BeanBinding.Deserialize` | util/src/com/intellij/util/xmlb/BeanBinding.java:73-107 | Fails with the instantiation error when the bean cannot be created. Otherwise it fails with the grouping's error, or returns the fresh bean after each grouped binding, listed once in an unspecified order, has deserialized its own group. |
| `Decoding.FirstMatch` | util/src/com/intellij/util/xmlb/BeanBinding.java:90-95 | Returns the first binding in list order that accepts the child. It returns none exactly when no binding accepts it. |
| `Decoding.GroupChildrenFailure` | util/src/com/intellij/util/xmlb/BeanBinding.java:86-98 | Grouping succeeds iff every child is accepted by some binding. On failure the error names the first unaccepted child in document order. |
| `Decoding.GroupChildrenFailsEarly` | util/src/com/intellij/util/xmlb/BeanBinding.java:97 | A failure on a prefix of the children is the failure of the whole call. |
| `Decoding.GroupChildrenPartition` | util/src/com/intellij/util/xmlb/BeanBinding.java:86-95 | A binding has a group iff some child goes to it. Its group is exactly those children, in document order. |
| `Decoding.RoutedToMembership` | util/src/com/intellij/util/xmlb/BeanBinding.java:90-93 | A node goes to a binding iff it is a child whose first accepting binding is that binding. |
| `Decoding.ChildInExactlyOneGroup` | util/src/com/intellij/util/xmlb/BeanBinding.java:90-95 | After a successful grouping every child is in exactly one group: the group of its first accepting binding. |
| `Decoding.GroupingIgnoresBindingOrder` | util/src/com/intellij/util/xmlb/BeanBinding.java:80-95 | If no child is accepted by two different bindings, the grouping is the same for every order of the key list. |
| `Names.CompareToAntisymmetric` | util/src/com/intellij/util/xmlb/BeanBinding.java:56 | Swapping the arguments of the name comparison negates its result. |
| `Names.CompareToZeroIffEqual` | util/src/com/intellij/util/xmlb/BeanBinding.java:56 | The name comparison is zero exactly on equal names. |
| `Names.NameLeTransitive` | util/src/com/intellij/util/xmlb/BeanBinding.java:56 | The order the comparator induces on names is transitive. |
| `Routing.PermutationKeepsDistinctKeys` | util/src/com/intellij/util/xmlb/BeanBinding.java:50 | A reordering of the table still holds each binding once. |
| `Routing.ProducedGroupsKeys` | util/src/com/intellij/util/xmlb/BeanBinding.java:62-67 | Every binding in the produced grouping is one of the visited pairs' bindings, and its group is exactly the node that pair produced. |
| `Routing.EncodedChildrenRouteBack` | util/src/com/intellij/util/xmlb/BeanBinding.java:45-98 | Grouping the encoded children gives each producing binding exactly its own node and no other binding a group, provided each node is accepted by its producer alone. |
| `Routing.SerializedElementRegroups` | util/src/com/intellij/util/xmlb/BeanBinding.java:45-98 | For a bean binding, the children `Serialize` produces are grouped by `Deserialize` back to the bindings that produced them. |
| `Routing.TagOverrideHidesSimpleName` | util/src/com/intellij/util/xmlb/BeanBinding.java:132-137 | If a non-empty tag override differs from the simple class name, the binding accepts only elements with the override's name and rejects elements named after the class. |

## Left out

- Reflection is not modelled: `Introspector.getBeanInfo`, `getFields`, annotation lookup and `Class.newInstance`. Descriptor records with flags take their place, plus an optional instance value.
- The concrete child bindings and `createBindingByAccessor` are not modelled. They are function parameters.
- The W3C `Document`, `getOwnerDocument` and node allocation are not modelled. Nodes are values, and the element is built once all its children are known.
- BeanBindings.BeanBinding.Serialize: a child binding that returns the element itself may write into that element. The model records only that nothing is appended then; the binding's own writes are not modelled.
- The Java `assert`s that the bean class is neither an array nor primitive are left out (lines 28-29). The asserts at lines 76-77 (exactly one node, and it is an element) are the `requires` of `Deserialize`.
- Child bindings and the filter never fail in this model. In the code, an exception thrown by a child binding's `serialize` (line 64), by `filter.accepts` (line 62) or by a child binding's `deserialize` (line 103) ends the call. One example is a nested bean's format error. `ChildBindings` and the filter are total functions, so `Serialize` always returns an element. `Deserialize` fails only when instantiation fails or a child has no binding. Its `Success` result relies on this.
- The text of exception messages is left out. A format error carries the offending node.
- `Deserialize` has no bean argument. The source ignores the `o` argument of `deserialize`.
- Beans are values. A child binding's `deserialize` returns the updated bean instead of changing an object in place, so aliasing between beans is not modelled.
- Any failure of the bean's no-argument constructor is `InstantiationFailed`. In the code, only `InstantiationException` and `IllegalAccessException` are wrapped (lines 112-120); any other exception the constructor throws passes through unwrapped.
- Every call to `newInstance` yields the same default bean value. Object identity of fresh instances is not modelled.
- The model's table lists pairs in insertion order, standing for the `HashMap`'s iteration order. Encoding visits the names in the same order whatever that order is (`Encoding.SortedPermutationsAgreeOnNames`), and produces the same children when the names are distinct (`Encoding.EncodingIgnoresTableOrder`). Decoding depends on it only when two bindings accept the same child (`Decoding.GroupingIgnoresBindingOrder`).
- `Collections.sort` is replaced by an insertion sort. Callers use only its result being sorted and a permutation; `Serialize` returns the order it visited and promises no tie-break.
- Names are compared character by character on Dafny `char` values. Java compares UTF-16 code units, so names with characters outside the Basic Multilingual Plane may be ordered differently.
- `CreateBeanBinding` discovers the accessors before it creates the object, because a Dafny constructor cannot fail. Java resolves the tag name first. The tag name cannot fail, so the outcome is the same.
- Full value round trip (`deserialize(serialize(x))` equals `x`) depends on what the child bindings do, and they are outside this model. The model proves the part the bean binding owns: every encoded child goes back to the binding that produced it (`Routing.SerializedElementRegroups`).
