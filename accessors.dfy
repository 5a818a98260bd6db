/**
 * Accessor discovery (`BeanBinding.getAccessors`). Reflection is replaced by
 * descriptor records: what `Introspector.getBeanInfo` reports about the bean's
 * properties, and what `Class.getFields` reports about its fields, each with the
 * flags the discovery step looks at.
 */
module Accessors {
  import opened Wrappers
  import opened Errors

  /** A getter or setter; `isTransient` says whether it carries the `@Transient` annotation. */
  datatype MethodInfo = MethodInfo(isTransient: bool)

  datatype PropertyDescriptor = PropertyDescriptor(name: string, readMethod: Option<MethodInfo>, writeMethod: Option<MethodInfo>)

  /**
   * A public field as `getFields` reports it. `declaringClass` tells apart a field
   * and the same-named superclass field it hides: `getFields` reports both.
   */
  datatype FieldDescriptor = FieldDescriptor(declaringClass: string, name: string, isPublic: bool, isStatic: bool, isTransient: bool)

  /** The two accessor kinds: a getter/setter pair, or a field accessed directly. */
  datatype Accessor = PropertyAccessor(property: PropertyDescriptor) | FieldAccessor(field: FieldDescriptor)
  {
    function Name(): string
    {
      match this
      case PropertyAccessor(p) => p.name
      case FieldAccessor(f) => f.name
    }
  }

  /** The class-level facts the binding needs; `beanInfo` is None when introspection throws. */
  datatype BeanClass = BeanClass(
    simpleName: string,
    tagAnnotation: Option<string>,          // the `tagName` of a `@Property` annotation on the class, if any
    beanInfo: Option<seq<PropertyDescriptor>>,
    fields: seq<FieldDescriptor>)

  /** The pseudo-property every Java bean has through `getClass()`. */
  const ClassProperty: string := "class"

  predicate IsBoundProperty(p: PropertyDescriptor)
  {
    && p.name != ClassProperty
    && p.readMethod.Some? && p.writeMethod.Some?
    && !p.readMethod.value.isTransient && !p.writeMethod.value.isTransient
  }

  predicate IsBoundField(f: FieldDescriptor)
  {
    f.isPublic && !f.isStatic && !f.isTransient
  }

  /** The indices of the elements of `xs` that `keep` accepts, in increasing order. */
  function KeptIndices<T>(xs: seq<T>, keep: T -> bool): (r: seq<nat>)
    ensures forall k :: 0 <= k < |r| ==> r[k] < |xs| && keep(xs[r[k]])
    ensures forall k, l :: 0 <= k < l < |r| ==> r[k] < r[l]
    ensures forall i :: 0 <= i < |xs| && keep(xs[i]) ==> i in r
    decreases |xs|
  {
    if xs == [] then []
    else
      var prefix := KeptIndices(xs[..|xs| - 1], keep);
      prefix + (if keep(xs[|xs| - 1]) then [|xs| - 1] else [])
  }

  /** The property accessors the discovery loop keeps, in descriptor order. */
  function PropertyAccessors(ps: seq<PropertyDescriptor>): seq<Accessor>
    decreases |ps|
  {
    if ps == [] then []
    else
      var last := ps[|ps| - 1];
      PropertyAccessors(ps[..|ps| - 1]) + (if IsBoundProperty(last) then [PropertyAccessor(last)] else [])
  }

  /** The field accessors the discovery loop keeps, in field order. */
  function FieldAccessors(fs: seq<FieldDescriptor>): seq<Accessor>
    decreases |fs|
  {
    if fs == [] then []
    else
      var last := fs[|fs| - 1];
      FieldAccessors(fs[..|fs| - 1]) + (if IsBoundField(last) then [FieldAccessor(last)] else [])
  }

  /**
   * The kept properties are exactly the bound ones, in descriptor order: the k-th
   * accessor wraps the k-th bound descriptor.
   */
  lemma {:induction false} PropertyAccessorsSelect(ps: seq<PropertyDescriptor>)
    ensures var idx := KeptIndices(ps, IsBoundProperty);
            |PropertyAccessors(ps)| == |idx| &&
            forall k :: 0 <= k < |idx| ==> PropertyAccessors(ps)[k] == PropertyAccessor(ps[idx[k]])
    decreases |ps|
  {
    if ps != [] {
      var init := ps[..|ps| - 1];
      PropertyAccessorsSelect(init);
      var idx := KeptIndices(ps, IsBoundProperty);
      var idx0 := KeptIndices(init, IsBoundProperty);
      assert idx == idx0 + (if IsBoundProperty(ps[|ps| - 1]) then [|ps| - 1] else []);
      forall k | 0 <= k < |idx0| ensures ps[idx0[k]] == init[idx0[k]] { }
    }
  }

  lemma {:induction false} FieldAccessorsSelect(fs: seq<FieldDescriptor>)
    ensures var idx := KeptIndices(fs, IsBoundField);
            |FieldAccessors(fs)| == |idx| &&
            forall k :: 0 <= k < |idx| ==> FieldAccessors(fs)[k] == FieldAccessor(fs[idx[k]])
    decreases |fs|
  {
    if fs != [] {
      var init := fs[..|fs| - 1];
      FieldAccessorsSelect(init);
      var idx := KeptIndices(fs, IsBoundField);
      var idx0 := KeptIndices(init, IsBoundField);
      assert idx == idx0 + (if IsBoundField(fs[|fs| - 1]) then [|fs| - 1] else []);
      forall k | 0 <= k < |idx0| ensures fs[idx0[k]] == init[idx0[k]] { }
    }
  }

  /** Membership, both directions: an accessor is kept iff it wraps a bound descriptor. */
  lemma {:induction false} PropertyAccessorsMembership(ps: seq<PropertyDescriptor>, a: Accessor)
    ensures a in PropertyAccessors(ps) <==> a.PropertyAccessor? && a.property in ps && IsBoundProperty(a.property)
    decreases |ps|
  {
    if ps != [] {
      PropertyAccessorsMembership(ps[..|ps| - 1], a);
      assert ps == ps[..|ps| - 1] + [ps[|ps| - 1]];
    }
  }

  lemma {:induction false} FieldAccessorsMembership(fs: seq<FieldDescriptor>, a: Accessor)
    ensures a in FieldAccessors(fs) <==> a.FieldAccessor? && a.field in fs && IsBoundField(a.field)
    decreases |fs|
  {
    if fs != [] {
      FieldAccessorsMembership(fs[..|fs| - 1], a);
      assert fs == fs[..|fs| - 1] + [fs[|fs| - 1]];
    }
  }

  /**
   * The accessors of a class: every bound property (never "class", never
   * read-only, write-only or transient), then every public, non-static,
   * non-transient field; the introspection failure is reported.
   */
  method GetAccessors(c: BeanClass) returns (r: Result<seq<Accessor>, XmlSerializationError>)
    ensures c.beanInfo.None? <==> r == Failure(IntrospectionFailed)
    ensures c.beanInfo.Some? ==> r == Success(PropertyAccessors(c.beanInfo.value) + FieldAccessors(c.fields))
  {
    if c.beanInfo.None? {
      return Failure(IntrospectionFailed);
    }
    var accessors: seq<Accessor> := [];
    var propertyDescriptors := c.beanInfo.value;
    var i := 0;
    while i < |propertyDescriptors|
      invariant 0 <= i <= |propertyDescriptors|
      invariant accessors == PropertyAccessors(propertyDescriptors[..i])
    {
      var descriptor := propertyDescriptors[i];
      assert propertyDescriptors[..i + 1][..i] == propertyDescriptors[..i];
      if descriptor.name == ClassProperty {
        i := i + 1;
        continue;
      }
      var readMethod := descriptor.readMethod;
      var writeMethod := descriptor.writeMethod;
      if readMethod.None? || writeMethod.None? {
        i := i + 1;
        continue;
      }
      if readMethod.value.isTransient || writeMethod.value.isTransient {
        i := i + 1;
        continue;
      }
      accessors := accessors + [PropertyAccessor(descriptor)];
      i := i + 1;
    }
    assert propertyDescriptors[..i] == propertyDescriptors;
    ghost var properties := accessors;
    var fields := c.fields;
    var j := 0;
    while j < |fields|
      invariant 0 <= j <= |fields|
      invariant accessors == properties + FieldAccessors(fields[..j])
    {
      var field := fields[j];
      assert fields[..j + 1][..j] == fields[..j];
      if field.isPublic && !field.isStatic && !field.isTransient {
        accessors := accessors + [FieldAccessor(field)];
      }
      j := j + 1;
    }
    assert fields[..j] == fields;
    return Success(accessors);
  }
}
