/** randomIDGenerator (src/shore_db.cpp:46-60, vector.cpp:75-89): draw 16
    characters from a 62-symbol alphabet and start over until the id is not a
    key of the index.

    The generator is a std::mt19937 seeded from the clock once, when the store
    is made; here its draws are a stream fixed at that point: draw number n
    is `stream(n)`, an index into the alphabet. */
module IdGenerator {
  import opened Base

  /** characterString of include/shore_db.hpp. */
  const AlphabetText: string := "1234567890abcdefghijklmnopqrstuvwxyzABCDEFGHIJKLMNOPQRSTUVWXYZ"

  const Alphabet: Id := Ascii(AlphabetText)

  /** id_length of include/shore_db.hpp. */
  const IdLength: nat := 16

  /** A draw of random_index_gen, whose range is 0 .. characterString.length() - 1. */
  type AlphabetIndex = i: int | 0 <= i < 62

  type Stream = nat -> AlphabetIndex

  /** The id that the 16 draws from position `from` on spell. */
  function Candidate(stream: Stream, from: nat): (id: Id)
    ensures |id| == IdLength
    ensures forall i :: 0 <= i < |id| ==> id[i] in Alphabet
  {
    seq(IdLength, i requires 0 <= i < IdLength => Alphabet[stream(from + i)])
  }

  /** The id built on the n-th pass of the retry loop started at draw `from`. */
  function Attempt(stream: Stream, from: nat, n: nat): (id: Id)
  {
    Candidate(stream, from + IdLength * n)
  }

  /** Some pass of the retry loop meets an id that is not in use. The source
      loops until one does; that it eventually does is a matter of chance. */
  ghost predicate EventuallyFresh(stream: Stream, from: nat, used: map<Id, nat>)
  {
    exists n: nat :: Attempt(stream, from, n) !in used
  }

  /** The retry loop. `next` is the generator's position afterwards. */
  method GenerateId(stream: Stream, from: nat, used: map<Id, nat>) returns (id: Id, next: nat)
    requires EventuallyFresh(stream, from, used)
    ensures |id| == IdLength
    ensures forall i :: 0 <= i < |id| ==> id[i] in Alphabet
    ensures id !in used
    ensures exists n: nat ::
              && next == from + IdLength * (n + 1)
              && id == Attempt(stream, from, n)
              && forall m: nat :: m < n ==> Attempt(stream, from, m) in used
  {
    ghost var bound: nat :| Attempt(stream, from, bound) !in used;
    var pass: nat := 0;
    next := from;
    while true
      invariant pass <= bound
      invariant next == from + IdLength * pass
      invariant forall m: nat :: m < pass ==> Attempt(stream, from, m) in used
      decreases bound - pass
    {
      id := [];
      for i := 0 to IdLength
        invariant next == from + IdLength * pass + i
        invariant id == Candidate(stream, from + IdLength * pass)[..i]
      {
        id := id + [Alphabet[stream(next)]];
        next := next + 1;
      }
      assert id == Attempt(stream, from, pass);
      if id !in used {
        return;
      }
      pass := pass + 1;
    }
  }
}
