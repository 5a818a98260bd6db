/**
 * How the two halves meet: the children that encoding produces are routed back,
 * on decode, to the bindings that produced them, provided each produced node is
 * accepted by its own binding and by no other binding of the bean.
 */
module Routing {
  import opened Wrappers
  import opened Dom
  import opened Accessors
  import opened PropertyTable
  import opened Binding
  import opened Encoding
  import opened Decoding
  import opened BeanBindings

  /** Each contributing pair's binding mapped to the one node it produced. */
  ghost function ProducedGroups<B, Bean>(ps: seq<(B, Accessor)>, o: Bean, accepts: (Accessor, Bean) -> bool, cb: ChildBindings<B, Bean>): map<B, seq<Node>>
    decreases |ps|
  {
    if ps == [] then map[]
    else
      var last := ps[|ps| - 1];
      var groups := ProducedGroups(ps[..|ps| - 1], o, accepts, cb);
      var c := Contribution(last, o, accepts, cb);
      if c == [] then groups else groups[last.0 := c]
  }

  lemma {:induction false} ProducedGroupsKeys<B, Bean>(ps: seq<(B, Accessor)>, o: Bean, accepts: (Accessor, Bean) -> bool, cb: ChildBindings<B, Bean>, b: B)
    requires b in ProducedGroups(ps, o, accepts, cb)
    ensures exists i :: 0 <= i < |ps| && ps[i].0 == b && ProducedGroups(ps, o, accepts, cb)[b] == Contribution(ps[i], o, accepts, cb) != []
    decreases |ps|
  {
    var n := |ps| - 1;
    var init := ps[..n];
    if b != ps[n].0 || Contribution(ps[n], o, accepts, cb) == [] {
      ProducedGroupsKeys(init, o, accepts, cb, b);
      var i :| 0 <= i < n && init[i].0 == b && ProducedGroups(init, o, accepts, cb)[b] == Contribution(init[i], o, accepts, cb) != [];
      assert init[i] == ps[i];
    }
  }

  /** A table's permutation still has pairwise distinct bindings. */
  lemma PermutationKeepsDistinctKeys<B>(t: seq<(B, Accessor)>, v: seq<(B, Accessor)>)
    requires DistinctKeys(t) && multiset(t) == multiset(v)
    ensures DistinctKeys(v)
  {
    forall i, j | 0 <= i < j < |v| ensures v[i].0 != v[j].0 {
      assert v[i] in multiset(t);
      var p :| 0 <= p < |t| && t[p] == v[i];
      if v[i] == v[j] {
        CountOfRepeatedEntry(v, i, j);
        CountOfLoneEntry(t, p);
        assert false;
      } else {
        assert v[j] in multiset(t);
        var q :| 0 <= q < |t| && t[q] == v[j];
      }
    }
  }

  /** The binding that produced a child accepts it, and no other binding of the list does. */
  ghost predicate ClaimedOnlyByProducer<B, Bean>(bindings: seq<B>, p: (B, Accessor), o: Bean, accepts: (Accessor, Bean) -> bool, cb: ChildBindings<B, Bean>)
  {
    var c := Contribution(p, o, accepts, cb);
    c != [] ==> forall k :: 0 <= k < |bindings| ==> (cb.isBoundTo(bindings[k], c[0]) <==> bindings[k] == p.0)
  }

  /** A binding that no pair of `ps` carries gets no group. */
  lemma {:induction false} ProducedGroupsOmits<B, Bean>(ps: seq<(B, Accessor)>, o: Bean, accepts: (Accessor, Bean) -> bool, cb: ChildBindings<B, Bean>, b: B)
    requires forall i :: 0 <= i < |ps| ==> ps[i].0 != b
    ensures b !in ProducedGroups(ps, o, accepts, cb)
    decreases |ps|
  {
    if ps != [] {
      var n := |ps| - 1;
      assert forall i :: 0 <= i < n ==> ps[..n][i] == ps[i];
      ProducedGroupsOmits(ps[..n], o, accepts, cb, b);
    }
  }

  lemma ProducedNodeFindsProducer<B, Bean>(bindings: seq<B>, p: (B, Accessor), o: Bean, accepts: (Accessor, Bean) -> bool, cb: ChildBindings<B, Bean>)
    requires p.0 in bindings && ClaimedOnlyByProducer(bindings, p, o, accepts, cb)
    requires Contribution(p, o, accepts, cb) != []
    ensures var m := FirstMatch(bindings, cb.isBoundTo, Contribution(p, o, accepts, cb)[0]);
            m.Some? && bindings[m.value] == p.0
  {
  }

  lemma GroupOneMore<B>(bindings: seq<B>, isBoundTo: (B, Node) -> bool, before: seq<Node>, child: Node, groups: map<B, seq<Node>>)
    requires GroupChildren(bindings, isBoundTo, before) == Success(groups)
    requires FirstMatch(bindings, isBoundTo, child).Some?
    ensures GroupChildren(bindings, isBoundTo, before + [child])
         == Success(PutValue(groups, bindings[FirstMatch(bindings, isBoundTo, child).value], child))
  {
  }

  /** One more visited pair: its node, if any, forms a new group of its own. */
  lemma RouteBackStep<B, Bean>(bindings: seq<B>, visited: seq<(B, Accessor)>, o: Bean,
                               accepts: (Accessor, Bean) -> bool, cb: ChildBindings<B, Bean>)
    requires visited != [] && DistinctKeys(visited)
    requires visited[|visited| - 1].0 in bindings && ClaimedOnlyByProducer(bindings, visited[|visited| - 1], o, accepts, cb)
    requires var init := visited[..|visited| - 1];
             GroupChildren(bindings, cb.isBoundTo, EncodeChildren(init, o, accepts, cb)) == Success(ProducedGroups(init, o, accepts, cb))
    ensures GroupChildren(bindings, cb.isBoundTo, EncodeChildren(visited, o, accepts, cb)) == Success(ProducedGroups(visited, o, accepts, cb))
  {
    var n := |visited| - 1;
    var init := visited[..n];
    var p := visited[n];
    var c := Contribution(p, o, accepts, cb);
    var before := EncodeChildren(init, o, accepts, cb);
    var groups := ProducedGroups(init, o, accepts, cb);
    if c != [] {
      ProducedNodeFindsProducer(bindings, p, o, accepts, cb);
      GroupOneMore(bindings, cb.isBoundTo, before, c[0], groups);
      assert forall i :: 0 <= i < n ==> init[i] == visited[i];
      ProducedGroupsOmits(init, o, accepts, cb, p.0);
      assert c == [c[0]];
      assert EncodeChildren(visited, o, accepts, cb) == before + [c[0]];
      assert ProducedGroups(visited, o, accepts, cb) == groups[p.0 := c];
      assert PutValue(groups, p.0, c[0]) == groups[p.0 := [] + [c[0]]];
      assert [] + [c[0]] == c;
    } else {
      assert EncodeChildren(visited, o, accepts, cb) == before;
      assert ProducedGroups(visited, o, accepts, cb) == groups;
    }
  }

  /**
   * Grouping the children encoded from `visited` gives each contributing binding
   * exactly the node it produced, and no other binding a group.
   */
  lemma {:induction false} EncodedChildrenRouteBack<B, Bean>(bindings: seq<B>, visited: seq<(B, Accessor)>, o: Bean,
                                                           accepts: (Accessor, Bean) -> bool, cb: ChildBindings<B, Bean>)
    requires DistinctKeys(visited)
    requires forall p :: p in visited ==> p.0 in bindings && ClaimedOnlyByProducer(bindings, p, o, accepts, cb)
    ensures GroupChildren(bindings, cb.isBoundTo, EncodeChildren(visited, o, accepts, cb)) == Success(ProducedGroups(visited, o, accepts, cb))
    decreases |visited|
  {
    if visited != [] {
      var init := visited[..|visited| - 1];
      assert forall q :: q in init ==> q in visited;
      assert DistinctKeys(init);
      EncodedChildrenRouteBack(bindings, init, o, accepts, cb);
      assert visited[|visited| - 1] in visited;
      RouteBackStep(bindings, visited, o, accepts, cb);
    }
  }

  /**
   * For a bean binding: the element `Serialize` builds, handed back to `Deserialize`,
   * is grouped so that every binding that produced a node receives exactly that node.
   */
  lemma SerializedElementRegroups<B, Bean>(bb: BeanBinding<B, Bean>, visited: seq<(B, Accessor)>, o: Bean)
    requires bb.Valid()
    requires multiset(visited) == multiset(bb.propertyBindings)
    requires forall p :: p in bb.propertyBindings ==> ClaimedOnlyByProducer(Bindings(bb.propertyBindings), p, o, bb.filter, bb.children)
    ensures GroupChildren(Bindings(bb.propertyBindings), bb.children.isBoundTo, EncodeChildren(visited, o, bb.filter, bb.children))
         == Success(ProducedGroups(visited, o, bb.filter, bb.children))
  {
    var t := bb.propertyBindings;
    PermutationKeepsDistinctKeys(t, visited);
    forall p | p in visited ensures p.0 in Bindings(t) && ClaimedOnlyByProducer(Bindings(t), p, o, bb.filter, bb.children) {
      assert p in multiset(t);
      var q :| 0 <= q < |t| && t[q] == p;
      assert Bindings(t)[q] == p.0;
    }
    EncodedChildrenRouteBack(Bindings(t), visited, o, bb.filter, bb.children);
  }

  /** An explicit tag that differs from the class's simple name keeps the binding from claiming elements named after the class. */
  lemma TagOverrideHidesSimpleName<B, Bean>(bb: BeanBinding<B, Bean>, n: Node)
    requires bb.Valid()
    requires bb.beanClass.tagAnnotation.Some? && bb.beanClass.tagAnnotation.value != ""
    requires bb.beanClass.tagAnnotation.value != bb.beanClass.simpleName
    ensures bb.IsBoundTo(n) ==> n.name == bb.beanClass.tagAnnotation.value
    ensures n.name == bb.beanClass.simpleName ==> !bb.IsBoundTo(n)
  {
  }
}
