/** vector.cpp: SimpleVectorDB, the earlier single-file version of the
    engine (vector.cpp:52-181), with the same fields and the same add, get,
    random-id and search code but no persistence, and the error-path checks
    its main function makes (vector.cpp:183-330). */
module SimpleVectorDb {
  import opened Base
  import opened StoreIndex
  import opened Similarity
  import opened TopK
  import opened IdGenerator

  class SimpleVectorDB {
    /** VectorSpace: the entries, in insertion order. */
    var vectorSpace: seq<VectorEntry>
    /** id_vector_map: the position of each id in vectorSpace. */
    var idVectorMap: map<Id, nat>
    /** The draws of the generator seeded when the store was made. */
    const stream: Stream
    /** How many draws the generator has made so far. */
    var draws: nat

    ghost predicate Valid()
      reads this
    {
      Indexed(vectorSpace, idVectorMap)
    }

    constructor(stream: Stream)
      ensures Valid()
      ensures vectorSpace == [] && idVectorMap == map[]
      ensures this.stream == stream && draws == 0
    {
      vectorSpace := [];
      idVectorMap := map[];
      this.stream := stream;
      draws := 0;
    }

    method RandomIDGenerator() returns (id: Id)
      requires EventuallyFresh(stream, draws, idVectorMap)
      modifies this`draws
      ensures |id| == IdLength
      ensures forall i :: 0 <= i < |id| ==> id[i] in Alphabet
      ensures id !in idVectorMap
      ensures exists n: nat ::
                && draws == old(draws) + IdLength * (n + 1)
                && id == Attempt(stream, old(draws), n)
                && forall m: nat :: m < n ==> Attempt(stream, old(draws), m) in idVectorMap
    {
      id, draws := GenerateId(stream, draws, idVectorMap);
    }

    method AddVector(id: Id, data: seq<Float32>) returns (r: Result<(), StoreError>)
      requires Valid()
      modifies this`vectorSpace, this`idVectorMap
      ensures Valid()
      ensures old(id in idVectorMap) ==>
                r == Failure(DuplicateId) && vectorSpace == old(vectorSpace) && idVectorMap == old(idVectorMap)
      ensures old(id !in idVectorMap) ==>
                && r == Success(())
                && vectorSpace == old(vectorSpace) + [VectorEntry(id, data)]
                && idVectorMap == old(idVectorMap)[id := |old(vectorSpace)|]
    {
      if id in idVectorMap {
        return Failure(DuplicateId);
      }
      var newEntry := VectorEntry(id, data);
      var newIndex := |vectorSpace|;
      AppendKeepsIndexed(vectorSpace, idVectorMap, newEntry);
      vectorSpace := vectorSpace + [newEntry];
      idVectorMap := idVectorMap[id := newIndex];
      r := Success(());
    }

    /** Returns the entry itself rather than a pointer into vectorSpace. */
    method GetVectorByID(findId: Id) returns (r: Result<VectorEntry, StoreError>)
      requires Valid()
      ensures findId !in idVectorMap ==> r == Failure(NotFound)
      ensures findId in idVectorMap ==> r == Success(vectorSpace[idVectorMap[findId]]) && r.value.id == findId
    {
      if findId !in idVectorMap {
        return Failure(NotFound);
      }
      var toReturn := idVectorMap[findId];
      r := Success(vectorSpace[toReturn]);
    }

    method KNearestNeighbours(query: seq<Float32>, k: int, arith: Arithmetic)
      returns (r: Result<seq<Neighbour>, QueryError>)
      ensures |query| == 0 ==> r == Failure(EmptyQuery)
      ensures |query| != 0 && k <= 0 ==> r == Failure(NonPositiveK)
      ensures |query| != 0 && k > 0 && |vectorSpace| == 0 ==> r == Failure(EmptyVectorSpace)
      ensures |query| != 0 && k > 0 && |vectorSpace| != 0 ==>
                r.Success? && IsTopK(r.value, Scored(vectorSpace, query, arith), k)
    {
      r := NearestNeighbours(vectorSpace, query, k, arith);
    }
  }

  // Bit patterns of the float literals main uses.
  const Zero: Float32 := 0x0000_0000
  const One: Float32 := 0x3F80_0000
  const PointOne: Float32 := 0x3DCC_CCCD
  const PointNine: Float32 := 0x3F66_6666

  // The ids "doc_A" .. "doc_D", byte by byte.
  const DocA: Id := [100, 111, 99, 95, 65]
  const DocB: Id := [100, 111, 99, 95, 66]
  const DocC: Id := [100, 111, 99, 95, 67]
  const DocD: Id := [100, 111, 99, 95, 68]

  /** The four documents main adds first (vector.cpp:190-197). */
  function Documents(): (r: seq<VectorEntry>)
  {
    [ VectorEntry(DocA, [One, One, Zero, Zero]),
      VectorEntry(DocB, [PointNine, PointNine, PointOne, PointOne]),
      VectorEntry(DocC, [Zero, Zero, One, One]),
      VectorEntry(DocD, [PointOne, PointOne, PointNine, PointNine]) ]
  }

  /** main's store after its first four additions, all of which succeed. */
  method AddDocuments(stream: Stream) returns (db: SimpleVectorDB)
    ensures fresh(db) && db.Valid() && db.vectorSpace == Documents()
  {
    db := new SimpleVectorDB(stream);
    var docs := Documents();
    var added := db.AddVector(DocA, [One, One, Zero, Zero]);
    assert db.vectorSpace == docs[..1];
    added := db.AddVector(DocB, [PointNine, PointNine, PointOne, PointOne]);
    assert db.vectorSpace == docs[..2];
    added := db.AddVector(DocC, [Zero, Zero, One, One]);
    assert db.vectorSpace == docs[..3];
    assert db.idVectorMap == map[DocA := 0, DocB := 1, DocC := 2];
    assert DocD !in db.idVectorMap;
    added := db.AddVector(DocD, [PointOne, PointOne, PointNine, PointNine]);
    assert db.vectorSpace == docs[..4];
  }

  /** Adding doc_A again is rejected and changes nothing (vector.cpp:209-214). */
  method CheckDuplicateRejected(stream: Stream) returns (rejected: bool, storeKept: bool)
    ensures rejected && storeKept
  {
    var db := AddDocuments(stream);
    assert db.vectorSpace[0].id == DocA;
    var again := db.AddVector(DocA, [PointOne, PointOne, PointOne, PointOne]);
    rejected := again == Failure(DuplicateId);
    storeKept := db.vectorSpace == Documents();
  }

  /** doc_A is found with the values it was added with, and an id never added
      is not found (vector.cpp:224-235). */
  method CheckLookup(stream: Stream) returns (found: bool, unknownRejected: bool)
    ensures found && unknownRejected
  {
    var db := AddDocuments(stream);
    assert db.vectorSpace[0].id == DocA;
    var got := db.GetVectorByID(DocA);
    found := got == Success(Documents()[0]);
    var unknown := db.GetVectorByID(Ascii("non_existent_doc"));
    unknownRejected := unknown == Failure(NotFound);
  }

  /** An empty query, k = 0, and a search of an empty store are each rejected
      with their own error (vector.cpp:246-272). */
  method CheckQueryArguments(stream: Stream, arith: Arithmetic)
    returns (emptyQueryRejected: bool, zeroKRejected: bool, emptyStoreRejected: bool)
    ensures emptyQueryRejected && zeroKRejected && emptyStoreRejected
  {
    var db := AddDocuments(stream);
    var search := db.KNearestNeighbours([], 3, arith);
    emptyQueryRejected := search == Failure(EmptyQuery);
    search := db.KNearestNeighbours([One, Zero, Zero, Zero], 0, arith);
    zeroKRejected := search == Failure(NonPositiveK);
    var emptyDb := new SimpleVectorDB(stream);
    search := emptyDb.KNearestNeighbours([One, Zero, Zero, Zero], 1, arith);
    emptyStoreRejected := search == Failure(EmptyVectorSpace);
  }

  /** With a zero vector stored, a search still succeeds and never returns the
      zero vector (vector.cpp:312-325). */
  method CheckZeroVectorSkipped(stream: Stream, arith: Arithmetic) returns (skipped: bool)
    ensures skipped
  {
    var db := AddDocuments(stream);
    var zeroId := Ascii("zero_vec");
    var zeroVector := [Zero, Zero, Zero, Zero];
    var query := [One, One, One, One];
    var added := db.AddVector(zeroId, zeroVector);
    assert db.vectorSpace[4] == VectorEntry(zeroId, zeroVector);
    var search := db.KNearestNeighbours(query, 3, arith);
    skipped := search.Success? && forall t :: 0 <= t < |search.value| ==> search.value[t].id != zeroId;
    assert IsZeroVector(zeroVector);
    forall t | 0 <= t < |search.value|
      ensures search.value[t].id != zeroId
    {
      TopKFromStore(search.value, db.vectorSpace, query, arith, 3, t);
    }
  }
}
