/**
 * The encode half of the bean binding, as specification functions: the order in
 * which the property bindings are visited and the children the visit appends.
 */
module Encoding {
  import opened Dom
  import opened Names
  import opened Accessors
  import opened Binding

  /** Non-decreasing by accessor name, the order the serialize comparator imposes. */
  predicate SortedByName<B>(s: seq<(B, Accessor)>)
  {
    forall i, j :: 0 <= i < j < |s| ==> NameLe(s[i].1.Name(), s[j].1.Name())
  }

  /** Every accessor name in `s` sorts no earlier than `lo`. */
  predicate NamesAtLeast<B>(lo: string, s: seq<(B, Accessor)>)
  {
    forall j :: 0 <= j < |s| ==> NameLe(lo, s[j].1.Name())
  }

  function Insert<B>(p: (B, Accessor), s: seq<(B, Accessor)>): (r: seq<(B, Accessor)>)
    ensures multiset(r) == multiset(s) + multiset{p}
    decreases |s|
  {
    if s == [] then [p]
    else if NameLe(p.1.Name(), s[0].1.Name()) then
      assert s == [s[0]] + s[1..];
      [p] + s
    else
      assert s == [s[0]] + s[1..];
      [s[0]] + Insert(p, s[1..])
  }

  lemma {:induction false} InsertLowerBound<B>(lo: string, p: (B, Accessor), s: seq<(B, Accessor)>)
    requires NamesAtLeast(lo, s) && NameLe(lo, p.1.Name())
    ensures NamesAtLeast(lo, Insert(p, s))
    decreases |s|
  {
    if s != [] && !NameLe(p.1.Name(), s[0].1.Name()) {
      assert NamesAtLeast(lo, s[1..]) by {
        forall j | 0 <= j < |s[1..]| ensures NameLe(lo, s[1..][j].1.Name()) { assert s[1..][j] == s[j + 1]; }
      }
      InsertLowerBound(lo, p, s[1..]);
    }
  }

  lemma {:induction false} InsertSorted<B>(p: (B, Accessor), s: seq<(B, Accessor)>)
    requires SortedByName(s)
    ensures SortedByName(Insert(p, s))
    decreases |s|
  {
    if s == [] {
    } else if NameLe(p.1.Name(), s[0].1.Name()) {
      forall j | 0 <= j < |s| ensures NameLe(p.1.Name(), s[j].1.Name()) {
        if j > 0 { NameLeTransitive(p.1.Name(), s[0].1.Name(), s[j].1.Name()); }
      }
    } else {
      var tail := s[1..];
      assert SortedByName(tail) by {
        forall a, b | 0 <= a < b < |tail| ensures NameLe(tail[a].1.Name(), tail[b].1.Name()) {
          assert tail[a] == s[a + 1] && tail[b] == s[b + 1];
        }
      }
      InsertSorted(p, tail);
      assert NamesAtLeast(s[0].1.Name(), tail) by {
        forall j | 0 <= j < |tail| ensures NameLe(s[0].1.Name(), tail[j].1.Name()) { assert tail[j] == s[j + 1]; }
      }
      NameLeTotal(p.1.Name(), s[0].1.Name());
      InsertLowerBound(s[0].1.Name(), p, tail);
      var rest := Insert(p, tail);
      assert Insert(p, s) == [s[0]] + rest;
      forall a, b | 0 <= a < b < |[s[0]] + rest| ensures NameLe(([s[0]] + rest)[a].1.Name(), ([s[0]] + rest)[b].1.Name()) {
        if a > 0 {
          assert ([s[0]] + rest)[a] == rest[a - 1] && ([s[0]] + rest)[b] == rest[b - 1];
        } else {
          assert ([s[0]] + rest)[b] == rest[b - 1];
        }
      }
    }
  }

  /**
   * A sort of the property bindings by accessor name (the model's stand-in for
   * `Collections.sort`); callers rely only on its two postconditions.
   */
  function SortByName<B>(s: seq<(B, Accessor)>): (r: seq<(B, Accessor)>)
    ensures SortedByName(r)
    ensures multiset(r) == multiset(s)
    decreases |s|
  {
    if s == [] then []
    else
      assert s == [s[0]] + s[1..];
      var sorted := SortByName(s[1..]);
      InsertSorted(s[0], sorted);
      Insert(s[0], sorted)
  }

  /** In a sorted sequence, an entry whose name equals the first one's ends a run of equal names. */
  lemma SortedRun<B>(y: seq<(B, Accessor)>, j: nat)
    requires SortedByName(y) && j < |y|
    requires y[j].1.Name() == y[0].1.Name()
    ensures forall k :: 0 <= k <= j ==> y[k].1.Name() == y[0].1.Name()
  {
    forall k | 0 < k < j ensures y[k].1.Name() == y[0].1.Name() {
      assert NameLe(y[0].1.Name(), y[k].1.Name());
      assert NameLe(y[k].1.Name(), y[j].1.Name());
      NameLeAntisymmetric(y[k].1.Name(), y[0].1.Name());
    }
  }

  lemma SortedWithout<B>(y: seq<(B, Accessor)>, j: nat)
    requires SortedByName(y) && j < |y|
    ensures SortedByName(y[..j] + y[j + 1..])
  {
  }

  /** Two sorted sequences holding the same pairs start with the same name. */
  lemma SortedHeadsAgree<B>(x: seq<(B, Accessor)>, y: seq<(B, Accessor)>) returns (j: nat)
    requires SortedByName(x) && SortedByName(y) && x != []
    requires multiset(x) == multiset(y)
    ensures j < |y| && y[j] == x[0]
    ensures y[0].1.Name() == x[0].1.Name()
  {
    assert x[0] in multiset(y);
    j :| 0 <= j < |y| && y[j] == x[0];
    assert y[0] in multiset(x);
    var j' :| 0 <= j' < |x| && x[j'] == y[0];
    assert NameLe(y[0].1.Name(), y[j].1.Name()) by { if j == 0 { NameLeTotal(y[0].1.Name(), y[0].1.Name()); } }
    assert NameLe(x[0].1.Name(), x[j'].1.Name()) by { if j' == 0 { NameLeTotal(x[0].1.Name(), x[0].1.Name()); } }
    NameLeAntisymmetric(y[0].1.Name(), x[0].1.Name());
  }

  /**
   * Any two orderings by name of the same bindings visit the accessor names in the
   * same order: the output order does not depend on the table's iteration order.
   */
  lemma {:induction false} SortedPermutationsAgreeOnNames<B>(x: seq<(B, Accessor)>, y: seq<(B, Accessor)>)
    requires SortedByName(x) && SortedByName(y)
    requires multiset(x) == multiset(y)
    ensures |x| == |y|
    ensures forall i :: 0 <= i < |x| ==> x[i].1.Name() == y[i].1.Name()
    decreases |x|
  {
    assert |x| == |multiset(x)| == |multiset(y)| == |y|;
    if x != [] {
      var j := SortedHeadsAgree(x, y);
      SortedRun(y, j);
      var y' := y[..j] + y[j + 1..];
      assert y == y[..j] + [y[j]] + y[j + 1..];
      assert multiset(y') == multiset(y) - multiset{y[j]};
      assert x == [x[0]] + x[1..];
      assert multiset(x[1..]) == multiset(x) - multiset{x[0]};
      SortedWithout(y, j);
      SortedWithout(x, 0);
      assert x[..0] + x[1..] == x[1..];
      SortedPermutationsAgreeOnNames(x[1..], y');
      forall i | 0 < i < |x| ensures x[i].1.Name() == y[i].1.Name() {
        assert x[i] == x[1..][i - 1];
        if i <= j {
          assert y'[i - 1] == y[i - 1];
        } else {
          assert y'[i - 1] == y[i];
        }
      }
    }
  }

  /** No two accessors in `s` share a name. */
  predicate DistinctNames<B>(s: seq<(B, Accessor)>)
  {
    forall i, j :: 0 <= i < j < |s| ==> s[i].1.Name() != s[j].1.Name()
  }

  lemma CountOfLoneEntry<T>(t: seq<T>, p: nat)
    requires p < |t|
    requires forall k :: 0 <= k < |t| && k != p ==> t[k] != t[p]
    ensures multiset(t)[t[p]] == 1
  {
    var x := t[p];
    assert t == t[..p] + [x] + t[p + 1..];
    assert x !in t[..p] by {
      forall k | 0 <= k < p ensures t[..p][k] != x { assert t[..p][k] == t[k]; }
    }
    var suffix := t[p + 1..];
    assert x !in suffix by {
      forall k | 0 <= k < |suffix| ensures suffix[k] != x { assert suffix[k] == t[p + 1 + k]; }
    }
  }

  lemma CountOfRepeatedEntry<T>(v: seq<T>, i: nat, j: nat)
    requires i < j < |v| && v[i] == v[j]
    ensures multiset(v)[v[i]] >= 2
  {
    assert v == v[..i] + [v[i]] + v[i + 1..j] + [v[j]] + v[j + 1..];
  }

  /** A reordering of a table whose accessor names are distinct still has distinct names. */
  lemma PermutationKeepsDistinctNames<B>(t: seq<(B, Accessor)>, v: seq<(B, Accessor)>)
    requires DistinctNames(t) && multiset(t) == multiset(v)
    ensures DistinctNames(v)
  {
    forall i, j | 0 <= i < j < |v| ensures v[i].1.Name() != v[j].1.Name() {
      assert v[i] in multiset(t);
      var p :| 0 <= p < |t| && t[p] == v[i];
      if v[i] == v[j] {
        CountOfRepeatedEntry(v, i, j);
        CountOfLoneEntry(t, p);
        assert false;
      } else {
        assert v[j] in multiset(t);
        var q :| 0 <= q < |t| && t[q] == v[j];
      }
    }
  }

  /**
   * When no two accessors share a name, the name order leaves no ties: any two
   * orderings by name of the same bindings are the same sequence.
   */
  lemma SortedPermutationsEqual<B>(x: seq<(B, Accessor)>, y: seq<(B, Accessor)>)
    requires SortedByName(x) && SortedByName(y)
    requires multiset(x) == multiset(y)
    requires DistinctNames(x)
    ensures x == y
  {
    SortedPermutationsAgreeOnNames(x, y);
    forall i | 0 <= i < |y| ensures x[i] == y[i] {
      assert y[i] in multiset(x);
      var k :| 0 <= k < |x| && x[k] == y[i];
      assert x[k].1.Name() == x[i].1.Name();
      assert k == i;
    }
  }

  /** The children one visited (binding, accessor) pair contributes: none if the filter rejects it or its binding returned the element itself. */
  function Contribution<B, Bean>(p: (B, Accessor), o: Bean, accepts: (Accessor, Bean) -> bool, children: ChildBindings<B, Bean>): seq<Node>
  {
    if !accepts(p.1, o) then []
    else match children.serialize(p.0, o)
      case NewNode(n) => [n]
      case SameElement => []
  }

  /** The children the serialize loop appends when it visits `ps` in order. */
  function EncodeChildren<B, Bean>(ps: seq<(B, Accessor)>, o: Bean, accepts: (Accessor, Bean) -> bool, children: ChildBindings<B, Bean>): seq<Node>
    decreases |ps|
  {
    if ps == [] then []
    else EncodeChildren(ps[..|ps| - 1], o, accepts, children) + Contribution(ps[|ps| - 1], o, accepts, children)
  }

  lemma {:induction false} EncodeChildrenAppend<B, Bean>(xs: seq<(B, Accessor)>, ys: seq<(B, Accessor)>, o: Bean, accepts: (Accessor, Bean) -> bool, children: ChildBindings<B, Bean>)
    ensures EncodeChildren(xs + ys, o, accepts, children) == EncodeChildren(xs, o, accepts, children) + EncodeChildren(ys, o, accepts, children)
    decreases |ys|
  {
    if ys == [] {
      assert xs + ys == xs;
    } else {
      var n := |ys| - 1;
      EncodeChildrenAppend(xs, ys[..n], o, accepts, children);
      var zs := xs + ys;
      assert zs[..|zs| - 1] == xs + ys[..n];
      assert zs[|zs| - 1] == ys[n];
    }
  }

  /** Each child comes after the children of the pairs visited before it: the loop only ever appends. */
  lemma EncodeChildrenGrows<B, Bean>(ps: seq<(B, Accessor)>, i: nat, o: Bean, accepts: (Accessor, Bean) -> bool, children: ChildBindings<B, Bean>)
    requires i <= |ps|
    ensures EncodeChildren(ps[..i], o, accepts, children) <= EncodeChildren(ps, o, accepts, children)
  {
    EncodeChildrenAppend(ps[..i], ps[i..], o, accepts, children);
    assert ps == ps[..i] + ps[i..];
  }

  /** A pair the filter rejects, or whose binding writes into the element itself, adds no child. */
  lemma PairWithoutNodeAddsNothing<B, Bean>(ps: seq<(B, Accessor)>, i: nat, o: Bean, accepts: (Accessor, Bean) -> bool, children: ChildBindings<B, Bean>)
    requires i < |ps|
    requires !accepts(ps[i].1, o) || children.serialize(ps[i].0, o).SameElement?
    ensures EncodeChildren(ps, o, accepts, children) == EncodeChildren(ps[..i] + ps[i + 1..], o, accepts, children)
  {
    SplitAt(ps, i, o, accepts, children);
    EncodeChildrenAppend(ps[..i], ps[i + 1..], o, accepts, children);
  }

  /** An accepted pair whose binding returns a new node adds exactly that node, between its neighbours' children. */
  lemma AcceptedPairAddsItsNode<B, Bean>(ps: seq<(B, Accessor)>, i: nat, o: Bean, accepts: (Accessor, Bean) -> bool, children: ChildBindings<B, Bean>)
    requires i < |ps|
    requires accepts(ps[i].1, o) && children.serialize(ps[i].0, o).NewNode?
    ensures EncodeChildren(ps, o, accepts, children)
         == EncodeChildren(ps[..i], o, accepts, children) + [children.serialize(ps[i].0, o).node] + EncodeChildren(ps[i + 1..], o, accepts, children)
  {
    SplitAt(ps, i, o, accepts, children);
  }

  lemma SplitAt<B, Bean>(ps: seq<(B, Accessor)>, i: nat, o: Bean, accepts: (Accessor, Bean) -> bool, children: ChildBindings<B, Bean>)
    requires i < |ps|
    ensures EncodeChildren(ps, o, accepts, children)
         == EncodeChildren(ps[..i], o, accepts, children) + Contribution(ps[i], o, accepts, children) + EncodeChildren(ps[i + 1..], o, accepts, children)
  {
    assert ps == ps[..i] + [ps[i]] + ps[i + 1..];
    EncodeChildrenAppend(ps[..i] + [ps[i]], ps[i + 1..], o, accepts, children);
    EncodeChildrenAppend(ps[..i], [ps[i]], o, accepts, children);
    assert [ps[i]][..0] == [];
  }

  /**
   * Serialization is deterministic: when the table's accessor names are distinct,
   * every name-sorted visit of the table appends the same children, whatever the
   * table's iteration order.
   */
  lemma EncodingIgnoresTableOrder<B, Bean>(t: seq<(B, Accessor)>, x: seq<(B, Accessor)>, y: seq<(B, Accessor)>,
                                           o: Bean, accepts: (Accessor, Bean) -> bool, children: ChildBindings<B, Bean>)
    requires DistinctNames(t)
    requires SortedByName(x) && multiset(x) == multiset(t)
    requires SortedByName(y) && multiset(y) == multiset(t)
    ensures x == y
    ensures EncodeChildren(x, o, accepts, children) == EncodeChildren(y, o, accepts, children)
  {
    PermutationKeepsDistinctNames(t, x);
    SortedPermutationsEqual(x, y);
  }
}
