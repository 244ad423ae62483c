/** kNearestNeighbours (src/shore_db.cpp:103-151, vector.cpp:132-180): one
    linear scan that keeps at most k (score, id) pairs in a min-heap, skipping
    every entry whose scoring throws, and then drains the heap and reverses
    the drained pairs.

    The heap `top_k` is a std::priority_queue ordered by
    std::greater<std::pair<float, std::string>>, so its top is the least pair,
    pairs being compared by score first and then by id. Here it is kept as a
    sequence in ascending pair order: its multiset is what the heap holds, its
    first element is `top()`, dropping the first element is `pop()`, and
    `Push` is `push()`. */
module TopK {
  import opened Base
  import opened Similarity

  /** An element of the heap: std::pair<float, std::string>. */
  datatype HeapItem = HeapItem(score: Score, id: Id)

  /** An element of the result: std::pair<std::string, float>. */
  datatype Neighbour = Neighbour(id: Id, score: Score)

  /** The argument checks, in the order the source makes them; the first two
      throw std::invalid_argument, the last std::logic_error. */
  datatype QueryError = EmptyQuery | NonPositiveK | EmptyVectorSpace

  // ------------------------------------------------------------------- order

  /** std::string's operator<: bytes compared as unsigned char, and a proper
      prefix before the longer string. */
  predicate IdLess(a: Id, b: Id): (r: bool)
    decreases |a|
    ensures r ==> a != b
  {
    |b| > 0 && (|a| == 0 || a[0] < b[0] || (a[0] == b[0] && IdLess(a[1..], b[1..])))
  }

  /** std::pair's operator<, for scores that are not NaN. */
  predicate ItemLess(x: HeapItem, y: HeapItem): (r: bool)
    ensures r ==> x != y
  {
    x.score < y.score || (x.score == y.score && IdLess(x.id, y.id))
  }

  predicate ItemLe(x: HeapItem, y: HeapItem)
  {
    x == y || ItemLess(x, y)
  }

  /** With the irreflexivity IdLess ensures, exactly one of less, equal and
      greater holds. */
  lemma {:induction false} IdLessTrichotomy(a: Id, b: Id)
    ensures IdLess(a, b) || a == b || IdLess(b, a)
    ensures !(IdLess(a, b) && IdLess(b, a))
    decreases |a|
  {
    if |a| > 0 && |b| > 0 && a[0] == b[0] {
      IdLessTrichotomy(a[1..], b[1..]);
      if a[1..] == b[1..] {
        assert a == [a[0]] + a[1..] && b == [b[0]] + b[1..];
      }
    }
  }

  lemma {:induction false} IdLessTransitive(a: Id, b: Id, c: Id)
    requires IdLess(a, b) && IdLess(b, c)
    ensures IdLess(a, c)
    decreases |a|
  {
    if |a| > 0 && a[0] == b[0] && b[0] == c[0] {
      IdLessTransitive(a[1..], b[1..], c[1..]);
    }
  }

  lemma ItemLeTotal(x: HeapItem, y: HeapItem)
    ensures ItemLe(x, y) || ItemLe(y, x)
  {
    IdLessTrichotomy(x.id, y.id);
  }

  lemma ItemLeTransitive(x: HeapItem, y: HeapItem, z: HeapItem)
    requires ItemLe(x, y) && ItemLe(y, z)
    ensures ItemLe(x, z)
  {
    if x.score == y.score == z.score && x != y && y != z {
      IdLessTransitive(x.id, y.id, z.id);
    }
  }

  // -------------------------------------------------------------------- heap

  ghost predicate Ascending(h: seq<HeapItem>)
  {
    forall i, j :: 0 <= i < j < |h| ==> ItemLe(h[i], h[j])
  }

  /** top_k.push(x). */
  function Push(h: seq<HeapItem>, x: HeapItem): (r: seq<HeapItem>)
    ensures multiset(r) == multiset(h) + multiset{x}
    ensures |r| == |h| + 1
  {
    if h == [] || ItemLe(x, h[0]) then [x] + h
    else
      assert h == [h[0]] + h[1..];
      [h[0]] + Push(h[1..], x)
  }

  /** Pushing keeps the heap order, so the least pair stays at the top. */
  lemma {:induction false} PushAscending(h: seq<HeapItem>, x: HeapItem)
    requires Ascending(h)
    ensures Ascending(Push(h, x))
  {
    var r := Push(h, x);
    if h == [] {
    } else if ItemLe(x, h[0]) {
      forall j | 1 <= j < |r|
        ensures ItemLe(r[0], r[j])
      {
        ItemLeTransitive(x, h[0], r[j]);
      }
    } else {
      var tail := Push(h[1..], x);
      PushAscending(h[1..], x);
      ItemLeTotal(x, h[0]);
      forall j | 0 <= j < |tail|
        ensures ItemLe(h[0], tail[j])
      {
        assert tail[j] in multiset(tail);
        if tail[j] != x {
          assert tail[j] in h[1..];
        }
      }
    }
  }

  // -------------------------------------------------------------------- scan

  /** The (score, id) pair of every entry that scores against the query, in
      storage order: the pairs the scan offers to the heap. */
  function Scored(es: seq<VectorEntry>, query: seq<Float32>, arith: Arithmetic): (r: seq<HeapItem>)
  {
    if es == [] then []
    else
      var prior := Scored(es[..|es| - 1], query, arith);
      var last := es[|es| - 1];
      match CosineSimilarity(query, last.data, arith)
      case Success(s) => prior + [HeapItem(s, last.id)]
      case Failure(_) => prior
  }

  /** Scoring one more entry offers its pair, or nothing when scoring it fails. */
  lemma ScoredStep(es: seq<VectorEntry>, query: seq<Float32>, arith: Arithmetic, i: nat)
    requires i < |es|
    ensures CosineSimilarity(query, es[i].data, arith).Success? ==>
              Scored(es[..i + 1], query, arith)
              == Scored(es[..i], query, arith) + [HeapItem(CosineSimilarity(query, es[i].data, arith).value, es[i].id)]
    ensures CosineSimilarity(query, es[i].data, arith).Failure? ==>
              Scored(es[..i + 1], query, arith) == Scored(es[..i], query, arith)
  {
    assert es[..i + 1][..i] == es[..i];
  }

  /** Every offered pair is the id and the score of a stored entry that scored. */
  lemma {:induction false} ScoredFrom(es: seq<VectorEntry>, query: seq<Float32>, arith: Arithmetic, x: HeapItem)
    requires x in Scored(es, query, arith)
    ensures exists i :: 0 <= i < |es| && es[i].id == x.id && CosineSimilarity(query, es[i].data, arith) == Success(x.score)
  {
    var init := es[..|es| - 1];
    var last := es[|es| - 1];
    if x in Scored(init, query, arith) {
      ScoredFrom(init, query, arith, x);
      var i :| 0 <= i < |init| && init[i].id == x.id && CosineSimilarity(query, init[i].data, arith) == Success(x.score);
      assert es[i] == init[i];
    } else {
      assert es[|es| - 1] == last;
    }
  }

  /** Every stored entry that scores is offered, with its score. */
  lemma {:induction false} ScoredComplete(es: seq<VectorEntry>, query: seq<Float32>, arith: Arithmetic, i: nat)
    requires i < |es| && CosineSimilarity(query, es[i].data, arith).Success?
    ensures HeapItem(CosineSimilarity(query, es[i].data, arith).value, es[i].id) in Scored(es, query, arith)
  {
    var init := es[..|es| - 1];
    if i < |es| - 1 {
      assert init[i] == es[i];
      ScoredComplete(init, query, arith, i);
    }
  }

  /** The invariant of the scan once `seen` has been offered: the heap holds
      min(k, |seen|) of the offered pairs, the rest were dropped, and nothing
      dropped scores above anything kept. */
  ghost predicate Selecting(heap: seq<HeapItem>, dropped: multiset<HeapItem>, seen: seq<HeapItem>, k: nat)
  {
    && Ascending(heap)
    && |heap| == Min(k, |seen|)
    && multiset(heap) + dropped == multiset(seen)
    && forall d, j :: d in dropped && 0 <= j < |heap| ==> d.score <= heap[j].score
  }

  lemma SelectingStart(k: nat)
    ensures Selecting([], multiset{}, [], k)
  {
  }

  /** The heap is not full: the pair is pushed. */
  lemma PushKeepsSelecting(heap: seq<HeapItem>, dropped: multiset<HeapItem>, seen: seq<HeapItem>, x: HeapItem, k: nat)
    requires Selecting(heap, dropped, seen, k) && |heap| < k
    ensures Selecting(Push(heap, x), dropped, seen + [x], k)
  {
    PushAscending(heap, x);
    assert |multiset(heap) + dropped| == |multiset(heap)| + |dropped| == |seen|;
    assert |dropped| == 0;
  }

  /** After a replacement nothing dropped, the popped top included, scores
      above anything kept. */
  lemma ReplaceKeepsDominance(heap: seq<HeapItem>, dropped: multiset<HeapItem>, x: HeapItem)
    requires Ascending(heap) && |heap| > 0 && x.score > heap[0].score
    requires forall d, j :: d in dropped && 0 <= j < |heap| ==> d.score <= heap[j].score
    ensures forall d, j :: d in dropped + multiset{heap[0]} && 0 <= j < |Push(heap[1..], x)| ==> d.score <= Push(heap[1..], x)[j].score
  {
    var top, rest := heap[0], heap[1..];
    var heap' := Push(rest, x);
    forall d, j | d in dropped + multiset{top} && 0 <= j < |heap'|
      ensures d.score <= heap'[j].score
    {
      var y := heap'[j];
      assert y in multiset(heap');
      if y != x {
        assert y in multiset(rest);
        var t :| 0 <= t < |rest| && rest[t] == y;
        assert heap[t + 1] == y;
        assert ItemLe(heap[0], heap[t + 1]);
      } else {
        assert d in dropped ==> d.score <= heap[0].score;
      }
    }
  }

  lemma ReplaceKeepsContents(heap: seq<HeapItem>, dropped: multiset<HeapItem>, seen: seq<HeapItem>, x: HeapItem)
    requires |heap| > 0 && multiset(heap) + dropped == multiset(seen)
    ensures multiset(Push(heap[1..], x)) + (dropped + multiset{heap[0]}) == multiset(seen + [x])
  {
    assert heap == [heap[0]] + heap[1..];
    calc {
      multiset(Push(heap[1..], x)) + (dropped + multiset{heap[0]});
      multiset(heap[1..]) + multiset{x} + dropped + multiset{heap[0]};
      multiset(heap) + dropped + multiset{x};
    }
  }

  lemma ReplaceKeepsSelecting(heap: seq<HeapItem>, dropped: multiset<HeapItem>, seen: seq<HeapItem>, x: HeapItem, k: nat)
    requires Selecting(heap, dropped, seen, k) && 0 < |heap| == k
    requires x.score > heap[0].score
    ensures Selecting(Push(heap[1..], x), dropped + multiset{heap[0]}, seen + [x], k)
  {
    PushAscending(heap[1..], x);
    ReplaceKeepsDominance(heap, dropped, x);
    ReplaceKeepsContents(heap, dropped, seen, x);
  }

  /** The heap is full and the pair does not score above the top: the pair
      is dropped. */
  lemma SkipKeepsSelecting(heap: seq<HeapItem>, dropped: multiset<HeapItem>, seen: seq<HeapItem>, x: HeapItem, k: nat)
    requires Selecting(heap, dropped, seen, k) && 0 < |heap| == k
    requires x.score <= heap[0].score
    ensures Selecting(heap, dropped + multiset{x}, seen + [x], k)
  {
    forall j | 0 <= j < |heap|
      ensures x.score <= heap[j].score
    {
      assert ItemLe(heap[0], heap[j]) || j == 0;
    }
  }

  // ------------------------------------------------------------------ result

  function ToItem(n: Neighbour): (r: HeapItem)
  {
    HeapItem(n.score, n.id)
  }

  function Items(res: seq<Neighbour>): (r: seq<HeapItem>)
    ensures |r| == |res| && forall i :: 0 <= i < |res| ==> r[i] == ToItem(res[i])
  {
    seq(|res|, i requires 0 <= i < |res| => ToItem(res[i]))
  }

  /** What a top-k answer is: min(k, |scored|) of the scored pairs, in
      descending pair order (so by non-increasing score), and no scored pair
      left out scores above any pair returned. */
  ghost predicate IsTopK(res: seq<Neighbour>, scored: seq<HeapItem>, k: nat)
  {
    && |res| == Min(k, |scored|)
    && multiset(Items(res)) <= multiset(scored)
    && (forall i, j :: 0 <= i < j < |res| ==> ItemLe(ToItem(res[j]), ToItem(res[i])))
    && (forall x, j :: x in multiset(scored) - multiset(Items(res)) && 0 <= j < |res| ==> x.score <= res[j].score)
  }

  function Reversed<T>(s: seq<T>): (r: seq<T>)
    ensures |r| == |s|
  {
    if s == [] then [] else Reversed(s[1..]) + [s[0]]
  }

  lemma {:induction false} ReversedAt<T>(s: seq<T>, t: nat)
    requires t < |s|
    ensures Reversed(s)[t] == s[|s| - 1 - t]
  {
    if t < |s| - 1 {
      ReversedAt(s[1..], t);
    }
  }

  lemma {:induction false} ReversedMultiset<T>(s: seq<T>)
    ensures multiset(Reversed(s)) == multiset(s)
  {
    if s != [] {
      ReversedMultiset(s[1..]);
      assert s == [s[0]] + s[1..];
    }
  }

  /** Draining a finished scan min-first and reversing the drained pairs
      answers the query. */
  lemma DrainedIsTopK(heap: seq<HeapItem>, dropped: multiset<HeapItem>, scored: seq<HeapItem>, k: nat, res: seq<Neighbour>)
    requires Selecting(heap, dropped, scored, k)
    requires |res| == |heap|
    requires forall t :: 0 <= t < |res| ==> res[t] == Neighbour(heap[|heap| - 1 - t].id, heap[|heap| - 1 - t].score)
    ensures IsTopK(res, scored, k)
  {
    forall t | 0 <= t < |res|
      ensures Items(res)[t] == Reversed(heap)[t]
    {
      ReversedAt(heap, t);
    }
    assert Items(res) == Reversed(heap);
    ReversedMultiset(heap);
    assert multiset(scored) - multiset(Items(res)) == dropped;
  }

  /** std::reverse over the whole array. */
  method ReverseInPlace<T>(a: array<T>)
    modifies a
    ensures forall t :: 0 <= t < a.Length ==> a[t] == old(a[a.Length - 1 - t])
  {
    var n, i := a.Length, 0;
    while i < n / 2
      invariant 0 <= i <= n / 2
      invariant forall t :: 0 <= t < i ==> a[t] == old(a[n - 1 - t]) && a[n - 1 - t] == old(a[t])
      invariant forall t :: i <= t < n - i ==> a[t] == old(a[t])
    {
      a[i], a[n - 1 - i] := a[n - 1 - i], a[i];
      i := i + 1;
    }
  }

  /** The body of kNearestNeighbours over the store's entries. */
  method NearestNeighbours(space: seq<VectorEntry>, query: seq<Float32>, k: int, arith: Arithmetic)
    returns (r: Result<seq<Neighbour>, QueryError>)
    ensures |query| == 0 ==> r == Failure(EmptyQuery)
    ensures |query| != 0 && k <= 0 ==> r == Failure(NonPositiveK)
    ensures |query| != 0 && k > 0 && |space| == 0 ==> r == Failure(EmptyVectorSpace)
    ensures |query| != 0 && k > 0 && |space| != 0 ==> r.Success? && IsTopK(r.value, Scored(space, query, arith), k)
  {
    if |query| == 0 {
      return Failure(EmptyQuery);
    }
    if k <= 0 {
      return Failure(NonPositiveK);
    }
    if |space| == 0 {
      return Failure(EmptyVectorSpace);
    }

    var heap: seq<HeapItem> := [];
    ghost var dropped: multiset<HeapItem> := multiset{};
    SelectingStart(k);
    for i := 0 to |space|
      invariant Selecting(heap, dropped, Scored(space[..i], query, arith), k)
    {
      ghost var seen := Scored(space[..i], query, arith);
      ScoredStep(space, query, arith, i);
      var entry := space[i];
      match CosineSimilarity(query, entry.data, arith) {
        case Failure(_) =>
          // the entry is skipped and the scan goes on
        case Success(score) =>
          var item := HeapItem(score, entry.id);
          if |heap| < k {
            PushKeepsSelecting(heap, dropped, seen, item, k);
            heap := Push(heap, item);
          } else if score > heap[0].score {
            ReplaceKeepsSelecting(heap, dropped, seen, item, k);
            dropped := dropped + multiset{heap[0]};
            heap := Push(heap[1..], item);
          } else {
            SkipKeepsSelecting(heap, dropped, seen, item, k);
            dropped := dropped + multiset{item};
          }
      }
    }
    assert space[..|space|] == space;

    // drain the heap least pair first, then reverse
    ghost var full := heap;
    var result := new Neighbour[|heap|];
    var j := 0;
    while heap != []
      invariant 0 <= j <= |full| && heap == full[j..]
      invariant forall t :: 0 <= t < j ==> result[t] == Neighbour(full[t].id, full[t].score)
    {
      var top := heap[0];
      result[j] := Neighbour(top.id, top.score);
      heap := heap[1..];
      j := j + 1;
    }
    ReverseInPlace(result);
    DrainedIsTopK(full, dropped, Scored(space, query, arith), k, result[..]);
    r := Success(result[..]);
  }

  // -------------------------------------------------------- top-k properties

  /** A sub-multiset as large as the whole is the whole. */
  lemma SubMultisetOfSameSize<T>(a: multiset<T>, b: multiset<T>)
    requires a <= b && |a| == |b|
    ensures a == b
  {
    assert b == a + (b - a);
    assert |b - a| == 0;
  }

  /** With k at least the number of scoring entries, every scored pair is
      returned. */
  lemma TopKReturnsAllWhenKCovers(res: seq<Neighbour>, scored: seq<HeapItem>, k: nat)
    requires IsTopK(res, scored, k) && k >= |scored|
    ensures multiset(Items(res)) == multiset(scored)
  {
    SubMultisetOfSameSize(multiset(Items(res)), multiset(scored));
  }

  /** The first pair returned has the highest score of all scored pairs. */
  lemma TopKFirstIsBest(res: seq<Neighbour>, scored: seq<HeapItem>, k: nat, x: HeapItem)
    requires IsTopK(res, scored, k) && |res| > 0 && x in scored
    ensures x.score <= res[0].score
  {
    var items := Items(res);
    if x in multiset(items) {
      var t :| 0 <= t < |items| && items[t] == x;
      if t > 0 {
        assert ItemLe(ToItem(res[t]), ToItem(res[0]));
      }
    } else {
      assert x in multiset(scored) - multiset(items);
    }
  }

  /** Every pair returned is the id of a stored entry and the score that entry
      got. */
  lemma TopKFromStore(res: seq<Neighbour>, es: seq<VectorEntry>, query: seq<Float32>, arith: Arithmetic, k: nat, t: nat)
    requires IsTopK(res, Scored(es, query, arith), k) && t < |res|
    ensures exists i :: 0 <= i < |es| && es[i].id == res[t].id && CosineSimilarity(query, es[i].data, arith) == Success(res[t].score)
  {
    var items := Items(res);
    assert items[t] in multiset(items);
    ScoredFrom(es, query, arith, items[t]);
  }
}
