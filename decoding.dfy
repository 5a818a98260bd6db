/**
 * The decode half of the bean binding, as specification functions: routing each
 * child node to the first property binding that accepts it, grouping the nodes
 * per binding, and handing the groups to the bindings.
 */
module Decoding {
  import opened Wrappers
  import opened Dom
  import opened Errors

  /** The index of the first binding in list order whose `isBoundTo` accepts `child`. */
  function FirstMatch<B>(bindings: seq<B>, isBoundTo: (B, Node) -> bool, child: Node): (r: Option<nat>)
    ensures r.Some? ==> r.value < |bindings| && isBoundTo(bindings[r.value], child)
    ensures forall k :: 0 <= k < |bindings| && (r.None? || k < r.value) ==> !isBoundTo(bindings[k], child)
    decreases |bindings|
  {
    if bindings == [] then None
    else if isBoundTo(bindings[0], child) then Some(0)
    else match FirstMatch(bindings[1..], isBoundTo, child)
      case None => None
      case Some(k) => Some(k + 1)
  }

  /** `MultiMap.putValue`: append `child` to the group of `b`, creating the group if needed. */
  function PutValue<B>(groups: map<B, seq<Node>>, b: B, child: Node): map<B, seq<Node>>
  {
    groups[b := (if b in groups then groups[b] else []) + [child]]
  }

  /**
   * The grouping loop over `children` in document order: each child joins the group
   * of its first accepting binding; the first child no binding accepts aborts it.
   */
  function GroupChildren<B>(bindings: seq<B>, isBoundTo: (B, Node) -> bool, children: seq<Node>): Result<map<B, seq<Node>>, XmlSerializationError>
    decreases |children|
  {
    if children == [] then Success(map[])
    else
      var child := children[|children| - 1];
      match GroupChildren(bindings, isBoundTo, children[..|children| - 1])
      case Failure(e) => Failure(e)
      case Success(groups) =>
        match FirstMatch(bindings, isBoundTo, child)
        case None => Failure(NoBindingFor(child))
        case Some(k) => Success(PutValue(groups, bindings[k], child))
  }

  /** Once a prefix of the children fails to group, the whole grouping fails with the same error. */
  lemma {:induction false} GroupChildrenFailsEarly<B>(bindings: seq<B>, isBoundTo: (B, Node) -> bool, children: seq<Node>, i: nat)
    requires i <= |children|
    requires GroupChildren(bindings, isBoundTo, children[..i]).Failure?
    ensures GroupChildren(bindings, isBoundTo, children) == GroupChildren(bindings, isBoundTo, children[..i])
    decreases |children| - i
  {
    if i < |children| {
      var n := |children| - 1;
      assert children[..n][..i] == children[..i];
      GroupChildrenFailsEarly(bindings, isBoundTo, children[..n], i);
    } else {
      assert children[..i] == children;
    }
  }

  /** The children, in document order, whose first accepting binding is `b`. */
  ghost function RoutedTo<B>(bindings: seq<B>, isBoundTo: (B, Node) -> bool, children: seq<Node>, b: B): seq<Node>
    decreases |children|
  {
    if children == [] then []
    else
      var child := children[|children| - 1];
      var m := FirstMatch(bindings, isBoundTo, child);
      RoutedTo(bindings, isBoundTo, children[..|children| - 1], b)
        + (if m.Some? && bindings[m.value] == b then [child] else [])
  }

  /**
   * Grouping succeeds exactly when every child is accepted by some binding; when it
   * fails, the error names the first child in document order that none accepts.
   */
  lemma {:induction false} GroupChildrenFailure<B>(bindings: seq<B>, isBoundTo: (B, Node) -> bool, children: seq<Node>)
    ensures GroupChildren(bindings, isBoundTo, children).Success?
        <==> forall i :: 0 <= i < |children| ==> FirstMatch(bindings, isBoundTo, children[i]).Some?
    ensures GroupChildren(bindings, isBoundTo, children).Failure? ==>
              exists i :: 0 <= i < |children| && FirstMatch(bindings, isBoundTo, children[i]).None?
                && GroupChildren(bindings, isBoundTo, children).error == NoBindingFor(children[i])
                && forall j :: 0 <= j < i ==> FirstMatch(bindings, isBoundTo, children[j]).Some?
    decreases |children|
  {
    if children != [] {
      var n := |children| - 1;
      var init := children[..n];
      GroupChildrenFailure(bindings, isBoundTo, init);
      assert forall i :: 0 <= i < n ==> init[i] == children[i];
    }
  }

  /**
   * After a successful grouping, the groups partition the children: a binding has a
   * group iff some child is routed to it, and its group is exactly the children
   * routed to it, in document order.
   */
  lemma {:induction false} GroupChildrenPartition<B>(bindings: seq<B>, isBoundTo: (B, Node) -> bool, children: seq<Node>)
    requires GroupChildren(bindings, isBoundTo, children).Success?
    ensures var groups := GroupChildren(bindings, isBoundTo, children).value;
            forall b :: (b in groups <==> RoutedTo(bindings, isBoundTo, children, b) != [])
                     && (b in groups ==> groups[b] == RoutedTo(bindings, isBoundTo, children, b))
    decreases |children|
  {
    if children != [] {
      var n := |children| - 1;
      GroupChildrenPartition(bindings, isBoundTo, children[..n]);
    }
  }

  /** A child is routed to `b` iff it occurs among the children and its first accepting binding is `b`. */
  lemma {:induction false} RoutedToMembership<B>(bindings: seq<B>, isBoundTo: (B, Node) -> bool, children: seq<Node>, b: B, c: Node)
    ensures c in RoutedTo(bindings, isBoundTo, children, b)
        <==> c in children && FirstMatch(bindings, isBoundTo, c).Some? && bindings[FirstMatch(bindings, isBoundTo, c).value] == b
    decreases |children|
  {
    if children != [] {
      var n := |children| - 1;
      RoutedToMembership(bindings, isBoundTo, children[..n], b, c);
      assert children == children[..n] + [children[n]];
    }
  }

  /** Every child lands in exactly one group: the one of its first accepting binding. */
  lemma ChildInExactlyOneGroup<B>(bindings: seq<B>, isBoundTo: (B, Node) -> bool, children: seq<Node>, i: nat, b: B)
    requires GroupChildren(bindings, isBoundTo, children).Success?
    requires i < |children|
    ensures var groups := GroupChildren(bindings, isBoundTo, children).value;
            FirstMatch(bindings, isBoundTo, children[i]).Some? &&
            (b in groups && children[i] in groups[b] <==> b == bindings[FirstMatch(bindings, isBoundTo, children[i]).value])
  {
    GroupChildrenFailure(bindings, isBoundTo, children);
    GroupChildrenPartition(bindings, isBoundTo, children);
    RoutedToMembership(bindings, isBoundTo, children, b, children[i]);
  }

  /** The bean after each binding of `order` in turn has deserialized its group into it. */
  function ApplyGroups<B, Bean>(bean: Bean, order: seq<B>, groups: map<B, seq<Node>>, deserialize: (B, Bean, seq<Node>) -> Bean): Bean
    requires forall k :: 0 <= k < |order| ==> order[k] in groups
    decreases |order|
  {
    if order == [] then bean
    else
      var last := order[|order| - 1];
      deserialize(last, ApplyGroups(bean, order[..|order| - 1], groups, deserialize), groups[last])
  }

  /** No binding in the list accepts a child and another accepts it too. */
  ghost predicate Unambiguous<B>(bindings: seq<B>, isBoundTo: (B, Node) -> bool, children: seq<Node>)
  {
    forall i, k, l ::
      (0 <= i < |children| && 0 <= k < |bindings| && 0 <= l < |bindings| &&
       isBoundTo(bindings[k], children[i]) && isBoundTo(bindings[l], children[i]))
      ==> bindings[k] == bindings[l]
  }

  /**
   * When no child is accepted by two different bindings, the grouping does not
   * depend on the order of the binding list (the map's iteration order).
   */
  lemma {:induction false} GroupingIgnoresBindingOrder<B>(bindings: seq<B>, bindings': seq<B>, isBoundTo: (B, Node) -> bool, children: seq<Node>)
    requires multiset(bindings) == multiset(bindings')
    requires Unambiguous(bindings, isBoundTo, children)
    ensures GroupChildren(bindings, isBoundTo, children) == GroupChildren(bindings', isBoundTo, children)
    decreases |children|
  {
    if children != [] {
      var n := |children| - 1;
      var child := children[n];
      assert Unambiguous(bindings, isBoundTo, children[..n]) by {
        forall i | 0 <= i < n ensures children[..n][i] == children[i] { }
      }
      GroupingIgnoresBindingOrder(bindings, bindings', isBoundTo, children[..n]);
      var m := FirstMatch(bindings, isBoundTo, child);
      var m' := FirstMatch(bindings', isBoundTo, child);
      if m.Some? {
        assert bindings[m.value] in multiset(bindings');
        var l :| 0 <= l < |bindings'| && bindings'[l] == bindings[m.value];
        assert m'.Some?;
        assert bindings'[m'.value] in multiset(bindings);
        var k :| 0 <= k < |bindings| && bindings[k] == bindings'[m'.value];
        assert bindings[k] == bindings[m.value];
      }
      if m'.Some? {
        assert bindings'[m'.value] in multiset(bindings);
        var k :| 0 <= k < |bindings| && bindings[k] == bindings'[m'.value];
        assert m.Some?;
      }
    }
  }
}
