/** Value types shared by the whole engine: ids, stored floats, entries and the
    Option/Result wrappers that stand for the C++ exceptions. */
module Base {

  /** One byte of a std::string or of the binary file (an unsigned char). */
  newtype Byte = x: int | 0 <= x < 256

  /** A vector id: the bytes held by a std::string. */
  type Id = seq<Byte>

  /** A stored float, kept as its IEEE 754 binary32 bit pattern. */
  type Float32 = bv32

  /** A similarity score. Every finite float is exactly one real number, and
      the float comparison `>` agrees with the order of the reals. */
  type Score = real

  /** VectorEntry of include/shore_db.hpp: an id and its float values. */
  datatype VectorEntry = VectorEntry(id: Id, data: seq<Float32>)

  datatype Option<+T> = None | Some(value: T)

  datatype Result<+T, +E> = Success(value: T) | Failure(error: E)

  /** The bytes of a string literal: the low byte of each character, which
      for the ASCII literals used here is the character itself. */
  function Ascii(s: string): (r: Id)
    ensures |r| == |s|
  {
    seq(|s|, i requires 0 <= i < |s| => (s[i] as int % 256) as Byte)
  }

  function Min(a: int, b: int): (r: int)
  {
    if a <= b then a else b
  }
}
