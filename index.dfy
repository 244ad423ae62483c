/** The two pieces of state of the store, `VectorSpace` (the entries in
    insertion order) and `id_vector_map` (id to position), and the invariants
    that tie them together. */
module StoreIndex {
  import opened Base

  /** The std::invalid_argument cases of addVector and getVectorByID. */
  datatype StoreError = DuplicateId | NotFound

  /** Every mapped position is in range and holds an entry with that id, and
      every entry's id is mapped. The store keeps this in every state, also
      after loading a file that repeats an id. */
  ghost predicate Consistent(vs: seq<VectorEntry>, m: map<Id, nat>)
  {
    && (forall id :: id in m ==> m[id] < |vs| && vs[m[id]].id == id)
    && (forall i :: 0 <= i < |vs| ==> vs[i].id in m)
  }

  /** The full index invariant: Consistent, and every entry's id maps back to
      its own position. */
  ghost predicate Indexed(vs: seq<VectorEntry>, m: map<Id, nat>)
  {
    Consistent(vs, m) && forall i :: 0 <= i < |vs| ==> m[vs[i].id] == i
  }

  ghost predicate DistinctIds(vs: seq<VectorEntry>)
  {
    forall i, j :: 0 <= i < j < |vs| ==> vs[i].id != vs[j].id
  }

  /** Under the full invariant no id is stored twice. */
  lemma IndexedHasDistinctIds(vs: seq<VectorEntry>, m: map<Id, nat>)
    requires Indexed(vs, m)
    ensures DistinctIds(vs)
  {
    forall i, j | 0 <= i < j < |vs|
      ensures vs[i].id != vs[j].id
    {
      assert m[vs[i].id] == i && m[vs[j].id] == j;
    }
  }

  /** The map built by pushing the entries in order and writing
      `id_vector_map[id] = position` for each: a later entry with the same id
      overwrites the earlier position. */
  function BuildIndex(vs: seq<VectorEntry>): (r: map<Id, nat>)
    ensures forall id :: id in r ==> r[id] < |vs| && vs[r[id]].id == id
    ensures forall j :: 0 <= j < |vs| ==> vs[j].id in r && j <= r[vs[j].id]
  {
    if vs == [] then map[] else BuildIndex(vs[..|vs| - 1])[vs[|vs| - 1].id := |vs| - 1]
  }

  lemma BuildIndexAppend(vs: seq<VectorEntry>, e: VectorEntry)
    ensures BuildIndex(vs + [e]) == BuildIndex(vs)[e.id := |vs|]
  {
    assert (vs + [e])[..|vs|] == vs;
  }

  /** Appending one entry and mapping its id to the new position keeps the
      store Consistent, whether or not the id was already mapped. */
  lemma AppendKeepsConsistent(vs: seq<VectorEntry>, m: map<Id, nat>, e: VectorEntry)
    requires Consistent(vs, m)
    ensures Consistent(vs + [e], m[e.id := |vs|])
  {
    var vs', m' := vs + [e], m[e.id := |vs|];
    forall id | id in m'
      ensures m'[id] < |vs'| && vs'[m'[id]].id == id
    {
      if id != e.id {
        assert m'[id] == m[id] && vs'[m[id]] == vs[m[id]];
      }
    }
    forall i | 0 <= i < |vs'|
      ensures vs'[i].id in m'
    {
      if i < |vs| {
        assert vs'[i] == vs[i];
      }
    }
  }

  /** Appending an entry whose id is not yet mapped keeps the full invariant. */
  lemma AppendKeepsIndexed(vs: seq<VectorEntry>, m: map<Id, nat>, e: VectorEntry)
    requires Indexed(vs, m) && e.id !in m
    ensures Indexed(vs + [e], m[e.id := |vs|])
  {
    AppendKeepsConsistent(vs, m, e);
    var vs', m' := vs + [e], m[e.id := |vs|];
    forall i | 0 <= i < |vs'|
      ensures m'[vs'[i].id] == i
    {
      if i < |vs| {
        assert vs'[i] == vs[i] && vs[i].id in m;
      }
    }
  }

  lemma {:induction false} BuildIndexConsistent(vs: seq<VectorEntry>)
    ensures Consistent(vs, BuildIndex(vs))
  {
    if vs != [] {
      var init := vs[..|vs| - 1];
      BuildIndexConsistent(init);
      AppendKeepsConsistent(init, BuildIndex(init), vs[|vs| - 1]);
      assert init + [vs[|vs| - 1]] == vs;
    }
  }

  /** Rebuilding the map of entries with distinct ids gives the full invariant. */
  lemma {:induction false} BuildIndexIndexed(vs: seq<VectorEntry>)
    requires DistinctIds(vs)
    ensures Indexed(vs, BuildIndex(vs))
  {
    if vs != [] {
      var init, last := vs[..|vs| - 1], vs[|vs| - 1];
      assert DistinctIds(init);
      BuildIndexIndexed(init);
      forall j | 0 <= j < |init|
        ensures init[j].id != last.id
      {
        assert init[j] == vs[j];
      }
      AppendKeepsIndexed(init, BuildIndex(init), last);
      assert init + [last] == vs;
    }
  }

  /** Under the full invariant the map is exactly the one rebuilt from the
      entries: the map holds nothing the entries do not determine. */
  lemma {:induction false} IndexedIsBuildIndex(vs: seq<VectorEntry>, m: map<Id, nat>)
    requires Indexed(vs, m)
    ensures m == BuildIndex(vs)
  {
    IndexedHasDistinctIds(vs, m);
    BuildIndexIndexed(vs);
    var b := BuildIndex(vs);
    forall id | id in m
      ensures id in b && b[id] == m[id]
    {
      var i := m[id];
      assert vs[i].id == id;
    }
    forall id | id in b
      ensures id in m
    {
      assert vs[b[id]].id == id;
    }
  }
}
