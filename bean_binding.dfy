/**
 * `BeanBinding`: the binding of one bean class. It owns the class's tag name and
 * its table of (child binding, accessor) pairs, and encodes a bean as an element
 * with one child per included member and decodes such an element into a new bean.
 */
module BeanBindings {
  import opened Wrappers
  import opened Dom
  import opened Errors
  import opened Accessors
  import opened PropertyTable
  import opened Binding
  import opened Encoding
  import opened Decoding

  /** The `@Property` annotation's `tagName` when present and non-empty, else the simple class name. */
  function GetTagName(c: BeanClass): (name: string)
    ensures c.tagAnnotation.Some? && |c.tagAnnotation.value| != 0 ==> name == c.tagAnnotation.value
    ensures c.tagAnnotation.None? || |c.tagAnnotation.value| == 0 ==> name == c.simpleName
  {
    if c.tagAnnotation.Some? && |c.tagAnnotation.value| != 0 then c.tagAnnotation.value else c.simpleName
  }

  /** `order` lists every key of `groups` exactly once. */
  ghost predicate EnumeratesKeys<B>(order: seq<B>, groups: map<B, seq<Node>>)
  {
    && (forall k, l :: 0 <= k < l < |order| ==> order[k] != order[l])
    && (set k | 0 <= k < |order| :: order[k]) == groups.Keys
  }

  class BeanBinding<B(==), Bean> {
    const beanClass: BeanClass
    const tagName: string
    /** What `newInstance()` of the bean class yields on every call; None when it throws. */
    const newInstance: Option<Bean>
    /** The serializer's `SerializationFilter.accepts`. */
    const filter: (Accessor, Bean) -> bool
    /** The behaviour of the child bindings the serializer created. */
    const children: ChildBindings<B, Bean>
    /** `myPropertyBindings`. */
    var propertyBindings: seq<(B, Accessor)>

    ghost predicate Valid()
      reads this
    {
      tagName == GetTagName(beanClass) && DistinctKeys(propertyBindings)
    }

    /**
     * Builds the binding of `beanClass` from its discovered accessors, asking
     * `createBinding` (the serializer's `createBindingByAccessor`) for each one's binding.
     */
    constructor (beanClass: BeanClass, newInstance: Option<Bean>, filter: (Accessor, Bean) -> bool,
                 children: ChildBindings<B, Bean>, accessors: seq<Accessor>, createBinding: Accessor -> B)
      ensures Valid()
      ensures this.beanClass == beanClass && this.newInstance == newInstance
      ensures this.filter == filter && this.children == children
      ensures propertyBindings == PutAll([], accessors, createBinding)
    {
      this.beanClass := beanClass;
      this.newInstance := newInstance;
      this.filter := filter;
      this.children := children;
      tagName := GetTagName(beanClass);
      propertyBindings := [];
      new;
      InitPropertyBindings(accessors, createBinding);
    }

    /** Puts one (binding, accessor) pair per accessor into the table, as `HashMap.put` does. */
    method InitPropertyBindings(accessors: seq<Accessor>, createBinding: Accessor -> B)
      requires Valid()
      modifies this
      ensures Valid()
      ensures propertyBindings == PutAll(old(propertyBindings), accessors, createBinding)
    {
      ghost var start := propertyBindings;
      var i := 0;
      while i < |accessors|
        invariant 0 <= i <= |accessors|
        invariant Valid()
        invariant propertyBindings == PutAll(start, accessors[..i], createBinding)
      {
        var accessor := accessors[i];
        assert accessors[..i + 1][..i] == accessors[..i];
        propertyBindings := Put(propertyBindings, createBinding(accessor), accessor);
        i := i + 1;
      }
      assert accessors[..i] == accessors;
    }

    /** True exactly for an element node named with this bean's tag. */
    predicate IsBoundTo(node: Node): (bound: bool)
      reads this
      ensures Valid() ==> (bound <==> node.kind == ElementNode && node.name == GetTagName(beanClass))
    {
      node.kind == ElementNode && node.name == tagName
    }

    function BoundNodeType(): (kind: NodeKind)
      reads this
      ensures forall n :: IsBoundTo(n) ==> n.kind == kind
    {
      ElementNode
    }

    /**
     * Encodes `o`: an element with this bean's tag whose children are those the child
     * bindings produce when the table is visited in order of accessor name
     * (`visited`, a sorted permutation of the table, ties in any order), skipping
     * the pairs the filter rejects and those whose binding returned the element.
     */
    method Serialize(o: Bean) returns (r: Node, ghost visited: seq<(B, Accessor)>)
      ensures r.kind == ElementNode && r.name == tagName
      ensures IsBoundTo(r)
      ensures SortedByName(visited) && multiset(visited) == multiset(propertyBindings)
      ensures r.children == EncodeChildren(visited, o, filter, children)
    {
      var bindings := SortByName(propertyBindings);
      visited := bindings;
      var appended: seq<Node> := [];
      var i := 0;
      while i < |bindings|
        invariant 0 <= i <= |bindings|
        invariant appended == EncodeChildren(bindings[..i], o, filter, children)
      {
        var (binding, accessor) := bindings[i];
        assert bindings[..i + 1][..i] == bindings[..i];
        if !filter(accessor, o) {
          i := i + 1;
          continue;
        }
        var emitted := children.serialize(binding, o);
        if emitted.NewNode? {
          appended := appended + [emitted.node];
        }
        i := i + 1;
      }
      assert bindings[..i] == bindings;
      r := Element(tagName, appended);
    }

    /**
     * Decodes the single element `nodes[0]` into a new bean: every child goes to the
     * group of the first binding (in table order) that accepts it; the first child
     * none accepts fails the whole call; otherwise each binding that received nodes
     * deserializes its group into the new bean, in an unspecified order `order`.
     */
    method Deserialize(nodes: seq<Node>) returns (r: Result<Bean, XmlSerializationError>, ghost order: seq<B>)
      requires |nodes| == 1 && nodes[0].kind == ElementNode
      ensures newInstance.None? ==> r == Failure(InstantiationFailed)
      ensures newInstance.Some? ==>
                var grouped := GroupChildren(Bindings(propertyBindings), children.isBoundTo, nodes[0].children);
                && (grouped.Failure? ==> r == Failure(grouped.error))
                && (grouped.Success? ==>
                      EnumeratesKeys(order, grouped.value) &&
                      r == Success(ApplyGroups(newInstance.value, order, grouped.value, children.deserialize)))
    {
      order := [];
      if newInstance.None? {
        return Failure(InstantiationFailed), order;
      }
      var result := newInstance.value;
      var e := nodes[0];
      var bindings := Bindings(propertyBindings);
      var childNodes := e.children;
      var data: map<B, seq<Node>> := map[];
      var i := 0;
      while i < |childNodes|
        invariant 0 <= i <= |childNodes|
        invariant GroupChildren(bindings, children.isBoundTo, childNodes[..i]) == Success(data)
      {
        var child := childNodes[i];
        assert childNodes[..i + 1][..i] == childNodes[..i];
        var j := 0;
        while j < |bindings| && !children.isBoundTo(bindings[j], child)
          invariant 0 <= j <= |bindings|
          invariant forall k :: 0 <= k < j ==> !children.isBoundTo(bindings[k], child)
        {
          j := j + 1;
        }
        if j == |bindings| {
          assert GroupChildren(bindings, children.isBoundTo, childNodes[..i + 1]) == Failure(NoBindingFor(child));
          GroupChildrenFailsEarly(bindings, children.isBoundTo, childNodes, i + 1);
          return Failure(NoBindingFor(child)), order;
        }
        data := PutValue(data, bindings[j], child);
        i := i + 1;
      }
      assert childNodes[..i] == childNodes;
      var remaining := data.Keys;
      while remaining != {}
        invariant remaining <= data.Keys
        invariant forall b :: b in order <==> b in data && b !in remaining
        invariant forall k, l :: 0 <= k < l < |order| ==> order[k] != order[l]
        invariant result == ApplyGroups(newInstance.value, order, data, children.deserialize)
        decreases remaining
      {
        var b :| b in remaining;
        result := children.deserialize(b, result, data[b]);
        assert (order + [b])[..|order|] == order;
        order := order + [b];
        remaining := remaining - {b};
      }
      r := Success(result);
    }
  }

  /**
   * Creates the binding of `beanClass` (the Java constructor): the tag name, then the
   * table built from the discovered accessors; introspection failure is reported.
   */
  method CreateBeanBinding<B(==), Bean>(beanClass: BeanClass, newInstance: Option<Bean>, filter: (Accessor, Bean) -> bool,
                                       children: ChildBindings<B, Bean>, createBinding: Accessor -> B)
    returns (r: Result<BeanBinding<B, Bean>, XmlSerializationError>)
    ensures beanClass.beanInfo.None? <==> r == Failure(IntrospectionFailed)
    ensures beanClass.beanInfo.Some? ==> r.Success?
    ensures r.Success? ==>
              && fresh(r.value) && r.value.Valid()
              && r.value.tagName == GetTagName(beanClass)
              && r.value.beanClass == beanClass && r.value.newInstance == newInstance
              && r.value.filter == filter && r.value.children == children
              && r.value.propertyBindings
                   == PutAll([], PropertyAccessors(beanClass.beanInfo.value) + FieldAccessors(beanClass.fields), createBinding)
  {
    var accessors := GetAccessors(beanClass);
    if accessors.Failure? {
      return Failure(accessors.error);
    }
    var binding := new BeanBinding(beanClass, newInstance, filter, children, accessors.value, createBinding);
    return Success(binding);
  }
}
