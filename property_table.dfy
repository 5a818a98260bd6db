/**
 * The `myPropertyBindings` table, a `HashMap<Binding, Accessor>`, as a sequence of
 * (binding, accessor) pairs whose bindings are pairwise distinct. The sequence
 * order stands for the map's iteration order: the model fixes it to insertion
 * order, which `HashMap` does not promise. Encoding does not depend on it, and
 * decoding depends on it only when two bindings accept the same child.
 */
module PropertyTable {
  import opened Accessors

  predicate DistinctKeys<B(==)>(t: seq<(B, Accessor)>)
  {
    forall i, j :: 0 <= i < j < |t| ==> t[i].0 != t[j].0
  }

  /** The map the table stands for. */
  function ToMap<B(==)>(t: seq<(B, Accessor)>): map<B, Accessor>
    decreases |t|
  {
    if t == [] then map[] else ToMap(t[1..])[t[0].0 := t[0].1]
  }

  /** The key list `new ArrayList<Binding>(myPropertyBindings.keySet())`, in table order. */
  function Bindings<B>(t: seq<(B, Accessor)>): (r: seq<B>)
    ensures |r| == |t| && forall i :: 0 <= i < |t| ==> r[i] == t[i].0
    decreases |t|
  {
    if t == [] then [] else [t[0].0] + Bindings(t[1..])
  }

  lemma {:induction false} ToMapKeys<B>(t: seq<(B, Accessor)>)
    ensures ToMap(t).Keys == set i | 0 <= i < |t| :: t[i].0
    decreases |t|
  {
    if t != [] {
      ToMapKeys(t[1..]);
      assert forall i :: 1 <= i < |t| ==> t[i].0 == t[1..][i - 1].0;
    }
  }

  /**
   * `HashMap.put`: the new table stands for the old map updated at `b`, keeps its
   * keys distinct and grows by one pair exactly when `b` was absent.
   */
  function Put<B(==)>(t: seq<(B, Accessor)>, b: B, a: Accessor): (r: seq<(B, Accessor)>)
    requires DistinctKeys(t)
    ensures DistinctKeys(r)
    ensures ToMap(r) == ToMap(t)[b := a]
    ensures |r| == if b in ToMap(t) then |t| else |t| + 1
    decreases |t|
  {
    if t == [] then [(b, a)]
    else if t[0].0 == b then [(b, a)] + t[1..]
    else
      var rest := Put(t[1..], b, a);
      ToMapKeys(t[1..]);
      ToMapKeys(rest);
      assert forall i :: 0 <= i < |rest| ==> rest[i].0 != t[0].0 by {
        forall i | 0 <= i < |rest| ensures rest[i].0 != t[0].0 {
          assert rest[i].0 in ToMap(rest).Keys;
          assert forall k :: 0 <= k < |t[1..]| ==> t[1..][k].0 != t[0].0 by {
            forall k | 0 <= k < |t[1..]| ensures t[1..][k].0 != t[0].0 { assert t[1..][k] == t[k + 1]; }
          }
        }
      }
      assert ToMap(t[1..])[b := a][t[0].0 := t[0].1] == ToMap(t[1..])[t[0].0 := t[0].1][b := a];
      [t[0]] + rest
  }

  /** The table after `put(createBinding(a), a)` for every accessor `a` in turn (`initPropertyBindings`). */
  function PutAll<B(==)>(t: seq<(B, Accessor)>, accessors: seq<Accessor>, createBinding: Accessor -> B): (r: seq<(B, Accessor)>)
    requires DistinctKeys(t)
    ensures DistinctKeys(r)
    decreases |accessors|
  {
    if accessors == [] then t
    else
      var last := accessors[|accessors| - 1];
      Put(PutAll(t, accessors[..|accessors| - 1], createBinding), createBinding(last), last)
  }

  /**
   * When the binding factory yields a different binding for each accessor (it
   * builds a new object per call), the table holds exactly one pair per accessor.
   */
  lemma {:induction false} PutAllOnePairPerAccessor<B>(accessors: seq<Accessor>, createBinding: Accessor -> B)
    requires forall i, j :: 0 <= i < j < |accessors| ==> createBinding(accessors[i]) != createBinding(accessors[j])
    ensures |PutAll([], accessors, createBinding)| == |accessors|
    ensures forall i :: 0 <= i < |accessors| ==>
              var m := ToMap(PutAll([], accessors, createBinding));
              createBinding(accessors[i]) in m && m[createBinding(accessors[i])] == accessors[i]
    decreases |accessors|
  {
    ToMapKeysOfPutAll(accessors, createBinding);
    if accessors != [] {
      var n := |accessors| - 1;
      var init := accessors[..n];
      PutAllOnePairPerAccessor(init, createBinding);
      ToMapKeysOfPutAll(init, createBinding);
      assert forall k :: 0 <= k < n ==> init[k] == accessors[k];
      assert createBinding(accessors[n]) !in ToMap(PutAll([], init, createBinding));
    }
  }

  lemma {:induction false} ToMapKeysOfPutAll<B>(accessors: seq<Accessor>, createBinding: Accessor -> B)
    ensures ToMap(PutAll([], accessors, createBinding)).Keys == set k | 0 <= k < |accessors| :: createBinding(accessors[k])
    decreases |accessors|
  {
    if accessors != [] {
      var n := |accessors| - 1;
      ToMapKeysOfPutAll(accessors[..n], createBinding);
      assert forall k :: 0 <= k < n ==> accessors[..n][k] == accessors[k];
      assert (set k | 0 <= k < |accessors| :: createBinding(accessors[k]))
          == (set k | 0 <= k < n :: createBinding(accessors[..n][k])) + {createBinding(accessors[n])};
    }
  }
}
