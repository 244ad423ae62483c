/** The ShoreDB class (include/shore_db.hpp:23-47, src/shore_db.cpp:37-260):
    the entries in insertion order, the id-to-position map, the random id
    generator, k-nearest-neighbour search and the save/load pair. Files are
    byte sequences here: saving returns the bytes written, loading takes the
    bytes read. */
module ShoreDb {
  import opened Base
  import opened StoreIndex
  import opened Similarity
  import opened TopK
  import opened Serializer
  import opened IdGenerator

  class ShoreDB {
    /** VectorSpace: the entries, in insertion order. */
    var vectorSpace: seq<VectorEntry>
    /** id_vector_map: the position of each id in vectorSpace. */
    var idVectorMap: map<Id, nat>
    /** The draws of the generator seeded when the store was made. */
    const stream: Stream
    /** How many draws the generator has made so far. */
    var draws: nat

    ghost predicate Valid()
      reads this
    {
      Consistent(vectorSpace, idVectorMap)
    }

    constructor(stream: Stream)
      ensures Valid() && Indexed(vectorSpace, idVectorMap)
      ensures vectorSpace == [] && idVectorMap == map[]
      ensures this.stream == stream && draws == 0
    {
      vectorSpace := [];
      idVectorMap := map[];
      this.stream := stream;
      draws := 0;
    }

    method RandomIDGenerator() returns (id: Id)
      requires EventuallyFresh(stream, draws, idVectorMap)
      modifies this`draws
      ensures |id| == IdLength
      ensures forall i :: 0 <= i < |id| ==> id[i] in Alphabet
      ensures id !in idVectorMap
      ensures exists n: nat ::
                && draws == old(draws) + IdLength * (n + 1)
                && id == Attempt(stream, old(draws), n)
                && forall m: nat :: m < n ==> Attempt(stream, old(draws), m) in idVectorMap
    {
      id, draws := GenerateId(stream, draws, idVectorMap);
    }

    method AddVector(id: Id, data: seq<Float32>) returns (r: Result<(), StoreError>)
      requires Valid()
      modifies this`vectorSpace, this`idVectorMap
      ensures Valid()
      ensures old(id in idVectorMap) ==>
                r == Failure(DuplicateId) && vectorSpace == old(vectorSpace) && idVectorMap == old(idVectorMap)
      ensures old(id !in idVectorMap) ==>
                && r == Success(())
                && vectorSpace == old(vectorSpace) + [VectorEntry(id, data)]
                && idVectorMap == old(idVectorMap)[id := |old(vectorSpace)|]
      ensures old(Indexed(vectorSpace, idVectorMap)) ==> Indexed(vectorSpace, idVectorMap)
    {
      if id in idVectorMap {
        return Failure(DuplicateId);
      }
      var newEntry := VectorEntry(id, data);
      var newIndex := |vectorSpace|;
      AppendKeepsConsistent(vectorSpace, idVectorMap, newEntry);
      if Indexed(vectorSpace, idVectorMap) {
        AppendKeepsIndexed(vectorSpace, idVectorMap, newEntry);
      }
      vectorSpace := vectorSpace + [newEntry];
      idVectorMap := idVectorMap[id := newIndex];
      r := Success(());
    }

    /** Returns the entry itself rather than a pointer into vectorSpace. */
    method GetVectorByID(findId: Id) returns (r: Result<VectorEntry, StoreError>)
      requires Valid()
      ensures findId !in idVectorMap ==> r == Failure(NotFound)
      ensures findId in idVectorMap ==> r == Success(vectorSpace[idVectorMap[findId]]) && r.value.id == findId
    {
      if findId !in idVectorMap {
        return Failure(NotFound);
      }
      var toReturn := idVectorMap[findId];
      r := Success(vectorSpace[toReturn]);
    }

    method KNearestNeighbours(query: seq<Float32>, k: int, arith: Arithmetic)
      returns (r: Result<seq<Neighbour>, QueryError>)
      ensures |query| == 0 ==> r == Failure(EmptyQuery)
      ensures |query| != 0 && k <= 0 ==> r == Failure(NonPositiveK)
      ensures |query| != 0 && k > 0 && |vectorSpace| == 0 ==> r == Failure(EmptyVectorSpace)
      ensures |query| != 0 && k > 0 && |vectorSpace| != 0 ==>
                r.Success? && IsTopK(r.value, Scored(vectorSpace, query, arith), k)
    {
      r := NearestNeighbours(vectorSpace, query, k, arith);
    }

    method SaveToDisk() returns (file: seq<Byte>)
      requires Encodable(vectorSpace)
      ensures file == Encode(vectorSpace)
    {
      file := EncodeU64(|vectorSpace|);
      for i := 0 to |vectorSpace|
        invariant file == EncodeU64(|vectorSpace|) + EncodeEntries(vectorSpace[..i])
      {
        var entry := vectorSpace[i];
        SaveStep(vectorSpace, i);
        file := file + EncodeU64(|entry.id|) + entry.id + EncodeU64(|entry.data|) + EncodeFloats(entry.data);
      }
      assert vectorSpace[..|vectorSpace|] == vectorSpace;
    }

    /** Both fields are cleared first; on a short read the entries read before
        it stay loaded, as in the source. */
    method LoadFromFile(file: seq<Byte>) returns (r: Result<(), LoadError>)
      modifies this`vectorSpace, this`idVectorMap
      ensures Valid()
      ensures vectorSpace == Decode(file).entries && idVectorMap == BuildIndex(vectorSpace)
      ensures r.Success? <==> Decode(file).failure == None
      ensures r.Failure? ==> Decode(file).failure == Some(r.error)
    {
      vectorSpace := [];
      idVectorMap := map[];
      BuildIndexConsistent([]);
      if |file| < 8 {
        return Failure(ShortCount);
      }
      var count := DecodeLE(file[..8]);
      var rest := file[8..];
      ghost var whole := Decode(file);
      assert whole == ReadEntries(rest, count);
      assert [] + whole.entries == whole.entries;
      var i := 0;
      ghost var pending := whole;
      while i < count
        invariant 0 <= i <= count
        invariant idVectorMap == BuildIndex(vectorSpace)
        invariant pending == ReadEntries(rest, count - i)
        invariant whole == Decoding(vectorSpace + pending.entries, pending.failure)
      {
        match ReadEntry(rest) {
          case Failure(err) =>
            ReadEntriesFirstFails(rest, count - i);
            assert vectorSpace + [] == vectorSpace;
            BuildIndexConsistent(vectorSpace);
            return Failure(err);
          case Success((entry, next)) =>
            ReadEntriesStep(vectorSpace, rest, count - i, entry, next);
            BuildIndexAppend(vectorSpace, entry);
            idVectorMap := idVectorMap[entry.id := |vectorSpace|];
            vectorSpace := vectorSpace + [entry];
            pending := ReadEntries(next, count - i - 1);
            rest := next;
        }
        i := i + 1;
      }
      assert vectorSpace + [] == vectorSpace;
      BuildIndexConsistent(vectorSpace);
      r := Success(());
    }
  }

  /** One pass of saveToDisk's loop writes the next entry's bytes. */
  lemma SaveStep(vs: seq<VectorEntry>, i: nat)
    requires Encodable(vs) && i < |vs|
    ensures EncodeU64(|vs|) + EncodeEntries(vs[..i]) + EncodeU64(|vs[i].id|) + vs[i].id
              + EncodeU64(|vs[i].data|) + EncodeFloats(vs[i].data)
            == EncodeU64(|vs|) + EncodeEntries(vs[..i + 1])
  {
    var e := vs[i];
    assert vs[..i + 1] == vs[..i] + [e];
    assert EntryEncodable(e);
    var count, before := EncodeU64(|vs|), EncodeEntries(vs[..i]);
    var a, b, c, d := EncodeU64(|e.id|), e.id, EncodeU64(|e.data|), EncodeFloats(e.data);
    assert EncodeEntry(e) == a + b + c + d;
    assert count + before + a + b + c + d == count + (before + (a + b + c + d));
    EncodeEntriesAppend(vs[..i], e);
  }

  /** Loading what a save of a store under the full invariant wrote gives back
      the same entries, in the same order, and the same map, with no error. */
  lemma SaveLoadRoundTrip(vs: seq<VectorEntry>, m: map<Id, nat>)
    requires Indexed(vs, m) && Encodable(vs)
    ensures Decode(Encode(vs)) == Decoding(vs, None)
    ensures BuildIndex(Decode(Encode(vs)).entries) == m
  {
    DecodeEncode(vs);
    IndexedIsBuildIndex(vs, m);
  }

  /** A load of bytes holding distinct ids establishes the full invariant. */
  lemma LoadDistinctIsIndexed(file: seq<Byte>)
    requires DistinctIds(Decode(file).entries)
    ensures Indexed(Decode(file).entries, BuildIndex(Decode(file).entries))
  {
    BuildIndexIndexed(Decode(file).entries);
  }

  /** loadFromFile never checks that the ids it reads are distinct: a file
      that repeats an id loads without error, both entries are kept, and the
      map points the id at the later one, so the full invariant does not hold
      afterwards. */
  lemma LoadAcceptsRepeatedId()
    ensures var loaded := Decode(Encode([VectorEntry([7], []), VectorEntry([7], [])]));
            && loaded == Decoding([VectorEntry([7], []), VectorEntry([7], [])], None)
            && BuildIndex(loaded.entries) == map[[7] := 1]
            && !Indexed(loaded.entries, BuildIndex(loaded.entries))
  {
    var vs := [VectorEntry([7], []), VectorEntry([7], [])];
    Pow256Widths();
    assert Encodable(vs);
    DecodeEncode(vs);
    assert BuildIndex(vs[..1]) == map[[7] := 0];
    assert BuildIndex(vs) == map[[7] := 1];
    assert BuildIndex(vs)[vs[0].id] != 0;
  }
}
