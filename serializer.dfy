/** The binary file layout written by ShoreDB::saveToDisk and read back by
    ShoreDB::loadFromFile (src/shore_db.cpp:153-260), as pure functions over
    bytes:

      u64 count
      count times: u64 idLen, idLen id bytes, u64 dataLen, dataLen 4-byte floats

    The source writes the native size_t and float; here both are fixed as
    little-endian, a u64 as 8 bytes and a float as 4. */
module Serializer {
  import opened Base

  /** 256^n: the number of values n bytes can hold. */
  function Pow256(n: nat): (p: nat)
    ensures p >= 1
  {
    if n == 0 then 1 else 256 * Pow256(n - 1)
  }

  lemma Pow256Widths()
    ensures Pow256(4) == 0x1_0000_0000
    ensures Pow256(8) == 0x1_0000_0000_0000_0000
  {
    assert Pow256(2) == 0x1_0000;
    assert Pow256(4) == 0x1_0000_0000;
    assert Pow256(6) == 0x1_0000_0000_0000;
  }

  /** Values a u64 length field (a 64-bit size_t) can hold. */
  const U64Limit: nat := 0x1_0000_0000_0000_0000

  // ---------------------------------------------------------------- integers

  /** n as `width` little-endian bytes. */
  function EncodeLE(n: nat, width: nat): (r: seq<Byte>)
    requires n < Pow256(width)
    ensures |r| == width
  {
    if width == 0 then [] else [(n % 256) as Byte] + EncodeLE(n / 256, width - 1)
  }

  /** The number that the little-endian bytes b stand for. */
  function DecodeLE(b: seq<Byte>): (n: nat)
    ensures n < Pow256(|b|)
  {
    if b == [] then 0 else b[0] as int + 256 * DecodeLE(b[1..])
  }

  lemma {:induction false} DecodeEncodeLE(n: nat, width: nat)
    requires n < Pow256(width)
    ensures DecodeLE(EncodeLE(n, width)) == n
  {
    if width > 0 {
      var r := EncodeLE(n, width);
      assert r[1..] == EncodeLE(n / 256, width - 1);
      DecodeEncodeLE(n / 256, width - 1);
    }
  }

  lemma {:induction false} EncodeDecodeLE(b: seq<Byte>)
    ensures EncodeLE(DecodeLE(b), |b|) == b
  {
    if b != [] {
      var n := DecodeLE(b);
      assert n % 256 == b[0] as int && n / 256 == DecodeLE(b[1..]);
      EncodeDecodeLE(b[1..]);
    }
  }

  /** A length field: a size_t written as 8 little-endian bytes. */
  function EncodeU64(n: nat): (r: seq<Byte>)
    requires n < U64Limit
    ensures |r| == 8
  {
    Pow256Widths();
    EncodeLE(n, 8)
  }

  lemma DecodeEncodeU64(n: nat)
    requires n < U64Limit
    ensures DecodeLE(EncodeU64(n)) == n
  {
    Pow256Widths();
    DecodeEncodeLE(n, 8);
  }

  // ------------------------------------------------------------------ floats

  /** The 4 bytes of one float in memory. */
  function EncodeFloat(x: Float32): (r: seq<Byte>)
    ensures |r| == 4
  {
    Pow256Widths();
    EncodeLE(x as nat, 4)
  }

  function DecodeFloat(b: seq<Byte>): (x: Float32)
    requires |b| == 4
  {
    Pow256Widths();
    DecodeLE(b) as Float32
  }

  lemma DecodeEncodeFloat(x: Float32)
    ensures DecodeFloat(EncodeFloat(x)) == x
  {
    Pow256Widths();
    DecodeEncodeLE(x as nat, 4);
  }

  /** The payload of a float vector: its elements back to back. */
  function EncodeFloats(data: seq<Float32>): (r: seq<Byte>)
    ensures |r| == 4 * |data|
  {
    if data == [] then [] else EncodeFloat(data[0]) + EncodeFloats(data[1..])
  }

  function DecodeFloats(b: seq<Byte>): (data: seq<Float32>)
    requires |b| % 4 == 0
    ensures |data| == |b| / 4
  {
    if b == [] then [] else [DecodeFloat(b[..4])] + DecodeFloats(b[4..])
  }

  lemma {:induction false} DecodeEncodeFloats(data: seq<Float32>)
    ensures DecodeFloats(EncodeFloats(data)) == data
  {
    if data != [] {
      var b := EncodeFloats(data);
      assert b[..4] == EncodeFloat(data[0]);
      assert b[4..] == EncodeFloats(data[1..]);
      DecodeEncodeFloat(data[0]);
      DecodeEncodeFloats(data[1..]);
    }
  }

  // ------------------------------------------------------------------ writer

  /** Every length the writer stores fits its u64 field. */
  ghost predicate EntryEncodable(e: VectorEntry)
  {
    |e.id| < U64Limit && |e.data| < U64Limit
  }

  ghost predicate Encodable(vs: seq<VectorEntry>)
  {
    |vs| < U64Limit && forall i :: 0 <= i < |vs| ==> EntryEncodable(vs[i])
  }

  /** One entry as the body of saveToDisk's loop writes it. */
  function EncodeEntry(e: VectorEntry): (r: seq<Byte>)
    requires EntryEncodable(e)
    ensures |r| == 16 + |e.id| + 4 * |e.data|
  {
    EncodeU64(|e.id|) + e.id + EncodeU64(|e.data|) + EncodeFloats(e.data)
  }

  function EncodeEntries(vs: seq<VectorEntry>): (r: seq<Byte>)
    requires forall i :: 0 <= i < |vs| ==> EntryEncodable(vs[i])
    ensures |r| >= 16 * |vs|
  {
    if vs == [] then [] else EncodeEntry(vs[0]) + EncodeEntries(vs[1..])
  }

  lemma {:induction false} EncodeEntriesAppend(vs: seq<VectorEntry>, e: VectorEntry)
    requires forall i :: 0 <= i < |vs| ==> EntryEncodable(vs[i])
    requires EntryEncodable(e)
    ensures EncodeEntries(vs + [e]) == EncodeEntries(vs) + EncodeEntry(e)
  {
    if vs == [] {
      assert [e][1..] == [];
    } else {
      assert (vs + [e])[1..] == vs[1..] + [e];
      EncodeEntriesAppend(vs[1..], e);
    }
  }

  /** The whole file written by saveToDisk. */
  function Encode(vs: seq<VectorEntry>): (r: seq<Byte>)
    requires Encodable(vs)
    ensures |r| >= 8 + 16 * |vs|
    ensures DecodeLE(r[..8]) == |vs|
  {
    DecodeEncodeU64(|vs|);
    assert (EncodeU64(|vs|) + EncodeEntries(vs))[..8] == EncodeU64(|vs|);
    EncodeU64(|vs|) + EncodeEntries(vs)
  }

  // ------------------------------------------------------------------ reader

  /** The short reads loadFromFile reports, one per field, in the order of its
      checks (src/shore_db.cpp:213, 222, 229, 235, 241). */
  datatype LoadError =
    | ShortCount        // "Failed to read Vector Space length"
    | ShortIdLength     // "Failed to read ID length"
    | ShortId           // "Failed to read ID"
    | ShortDataLength   // "Failed to read data length"
    | ShortData         // "Failed to read data"

  /** What a load leaves behind: the entries read before it stopped, and the
      short read that stopped it, if any. */
  datatype Decoding = Decoding(entries: seq<VectorEntry>, failure: Option<LoadError>)

  /** One iteration of loadFromFile's loop: the entry read from the front of b
      and the bytes after it. Each of the four reads below either fails with
      its own error or hands the remaining bytes to the next. */
  function ReadEntry(b: seq<Byte>): (r: Result<(VectorEntry, seq<Byte>), LoadError>)
  {
    if |b| < 8 then Failure(ShortIdLength) else ReadId(DecodeLE(b[..8]), b[8..])
  }

  /** The id bytes, once their length is known. */
  function ReadId(idLen: nat, b: seq<Byte>): (r: Result<(VectorEntry, seq<Byte>), LoadError>)
  {
    if |b| < idLen then Failure(ShortId) else ReadDataLength(b[..idLen], b[idLen..])
  }

  /** The data length field, once the id is known. */
  function ReadDataLength(id: Id, b: seq<Byte>): (r: Result<(VectorEntry, seq<Byte>), LoadError>)
  {
    if |b| < 8 then Failure(ShortDataLength) else ReadData(id, DecodeLE(b[..8]), b[8..])
  }

  /** The data floats, once their count is known. */
  function ReadData(id: Id, dataLen: nat, b: seq<Byte>): (r: Result<(VectorEntry, seq<Byte>), LoadError>)
  {
    if |b| < 4 * dataLen then Failure(ShortData)
    else Success((VectorEntry(id, DecodeFloats(b[..4 * dataLen])), b[4 * dataLen..]))
  }

  /** Which read fails is decided by the field the bytes run out in: the id
      length, the id, the data length or the data, checked in that order. */
  lemma ReadEntryErrors(b: seq<Byte>)
    ensures ReadEntry(b) == Failure(ShortIdLength) <==> |b| < 8
    ensures |b| >= 8 ==>
              var idEnd := 8 + DecodeLE(b[..8]);
              && (ReadEntry(b) == Failure(ShortId) <==> |b| < idEnd)
              && (ReadEntry(b) == Failure(ShortDataLength) <==> idEnd <= |b| < idEnd + 8)
              && (idEnd + 8 <= |b| ==>
                    (ReadEntry(b) == Failure(ShortData)
                     <==> |b| < idEnd + 8 + 4 * DecodeLE(b[idEnd..idEnd + 8])))
    ensures ReadEntry(b) != Failure(ShortCount)
  {
    if |b| >= 8 {
      var idEnd := 8 + DecodeLE(b[..8]);
      if idEnd + 8 <= |b| {
        assert b[8..][idEnd - 8..][..8] == b[idEnd..idEnd + 8];
      }
    }
  }

  /** A successful read takes the id length field, the id, the data length
      field and the data, in that order, from the front of the bytes, and
      leaves the rest. */
  lemma ReadEntryLayout(b: seq<Byte>)
    requires ReadEntry(b).Success?
    ensures var (e, rest) := ReadEntry(b).value;
            && |b| == 16 + |e.id| + 4 * |e.data| + |rest|
            && DecodeLE(b[..8]) == |e.id|
            && e.id == b[8..8 + |e.id|]
            && rest == b[|b| - |rest|..]
  {
  }

  /** The loop of loadFromFile, `count` iterations. */
  function ReadEntries(b: seq<Byte>, count: nat): (r: Decoding)
    ensures |r.entries| <= count
    ensures r.failure != Some(ShortCount)
  {
    if count == 0 then Decoding([], None)
    else
      match ReadEntry(b)
      case Failure(err) => Decoding([], Some(err))
      case Success((e, rest)) =>
        var d := ReadEntries(rest, count - 1);
        Decoding([e] + d.entries, d.failure)
  }

  /** One more iteration of the loop moves one entry from what is still to be
      read to what has been loaded. */
  lemma ReadEntriesStep(loaded: seq<VectorEntry>, b: seq<Byte>, count: nat, e: VectorEntry, rest: seq<Byte>)
    requires count > 0 && ReadEntry(b) == Success((e, rest))
    ensures loaded + ReadEntries(b, count).entries == (loaded + [e]) + ReadEntries(rest, count - 1).entries
    ensures ReadEntries(b, count).failure == ReadEntries(rest, count - 1).failure
  {
    var later := ReadEntries(rest, count - 1);
    assert ReadEntries(b, count) == Decoding([e] + later.entries, later.failure);
    assert loaded + ([e] + later.entries) == (loaded + [e]) + later.entries;
  }

  /** The loop stops early exactly when a read comes up short: it loads all
      `count` entries if and only if there is no error. */
  lemma {:induction false} ReadEntriesComplete(b: seq<Byte>, count: nat)
    ensures ReadEntries(b, count).failure == None <==> |ReadEntries(b, count).entries| == count
  {
    if count > 0 {
      var r := ReadEntry(b);
      if r.Success? {
        var (e, rest) := r.value;
        ReadEntriesComplete(rest, count - 1);
        ReadEntriesCons(b, count, e, rest);
      } else {
        ReadEntriesFirstFails(b, count);
      }
    }
  }

  /** loadFromFile's reading of a whole file. Bytes after the last entry are
      not looked at. */
  function Decode(b: seq<Byte>): (r: Decoding)
    ensures r.failure == Some(ShortCount) <==> |b| < 8
    ensures |b| < 8 ==> r.entries == []
    ensures |b| >= 8 ==> (r.failure == None <==> |r.entries| == DecodeLE(b[..8]))
  {
    if |b| < 8 then Decoding([], Some(ShortCount))
    else
      ReadEntriesComplete(b[8..], DecodeLE(b[..8]));
      ReadEntries(b[8..], DecodeLE(b[..8]))
  }

  // ------------------------------------------------------------- round trip

  lemma ReadEncodedEntry(e: VectorEntry, rest: seq<Byte>)
    requires EntryEncodable(e)
    ensures ReadEntry(EncodeEntry(e) + rest) == Success((e, rest))
  {
    var idLen, dataLen := |e.id|, |e.data|;
    var t3 := EncodeFloats(e.data) + rest;
    var t2 := EncodeU64(dataLen) + t3;
    var t1 := e.id + t2;
    var b := EncodeU64(idLen) + t1;
    assert b == EncodeEntry(e) + rest;
    assert b[..8] == EncodeU64(idLen) && b[8..] == t1;
    assert t1[..idLen] == e.id && t1[idLen..] == t2;
    assert t2[..8] == EncodeU64(dataLen) && t2[8..] == t3;
    assert t3[..4 * dataLen] == EncodeFloats(e.data) && t3[4 * dataLen..] == rest;
    DecodeEncodeU64(idLen);
    DecodeEncodeU64(dataLen);
    DecodeEncodeFloats(e.data);
  }

  lemma {:induction false} ReadEncodedEntries(vs: seq<VectorEntry>)
    requires forall i :: 0 <= i < |vs| ==> EntryEncodable(vs[i])
    ensures ReadEntries(EncodeEntries(vs), |vs|) == Decoding(vs, None)
  {
    if vs != [] {
      ReadEncodedEntry(vs[0], EncodeEntries(vs[1..]));
      ReadEncodedEntries(vs[1..]);
      assert [vs[0]] + vs[1..] == vs;
    }
  }

  /** Reading back what was written gives the same entries, in the same order,
      with the same ids and bit-identical values, and no error. */
  lemma DecodeEncode(vs: seq<VectorEntry>)
    requires Encodable(vs)
    ensures Decode(Encode(vs)) == Decoding(vs, None)
  {
    var b := Encode(vs);
    assert b[..8] == EncodeU64(|vs|);
    assert b[8..] == EncodeEntries(vs);
    DecodeEncodeU64(|vs|);
    ReadEncodedEntries(vs);
  }

  // -------------------------------------------------------------- truncation

  /** A proper prefix of one entry's bytes is always a short read. */
  lemma ReadTruncatedEntry(e: VectorEntry, p: seq<Byte>)
    requires EntryEncodable(e)
    requires |p| < |EncodeEntry(e)| && p == EncodeEntry(e)[..|p|]
    ensures ReadEntry(p).Failure?
  {
    var full := EncodeEntry(e);
    var idLen, dataLen := |e.id|, |e.data|;
    if |p| >= 8 {
      assert p[..8] == full[..8] == EncodeU64(idLen);
      DecodeEncodeU64(idLen);
      var b1 := p[8..];
      if |b1| >= idLen {
        var b2 := b1[idLen..];
        if |b2| >= 8 {
          assert b2[..8] == full[8 + idLen..16 + idLen] == EncodeU64(dataLen);
          DecodeEncodeU64(dataLen);
        }
      }
    }
  }

  /** A prefix that stops inside `x` is a prefix of `x`. */
  lemma PrefixWithinFirst(x: seq<Byte>, y: seq<Byte>, p: seq<Byte>)
    requires |p| < |x| && p == (x + y)[..|p|]
    ensures p == x[..|p|]
  {
  }

  /** A prefix that reaches past the end of `x` is `x` followed by a prefix of `y`. */
  lemma PrefixPastFirst(x: seq<Byte>, y: seq<Byte>, p: seq<Byte>)
    requires |x| <= |p| <= |x + y| && p == (x + y)[..|p|]
    ensures p == x + p[|x|..] && p[|x|..] == y[..|p| - |x|]
  {
  }

  /** After a whole first entry the loop goes on with the bytes behind it. */
  lemma ReadEntriesCons(b: seq<Byte>, count: nat, e: VectorEntry, rest: seq<Byte>)
    requires count > 0 && ReadEntry(b) == Success((e, rest))
    ensures ReadEntries(b, count)
            == Decoding([e] + ReadEntries(rest, count - 1).entries, ReadEntries(rest, count - 1).failure)
  {
  }

  /** A short read of the first entry stops the loop with nothing loaded. */
  lemma ReadEntriesFirstFails(b: seq<Byte>, count: nat)
    requires count > 0 && ReadEntry(b).Failure?
    ensures ReadEntries(b, count) == Decoding([], Some(ReadEntry(b).error))
  {
  }

  /** Loading after a whole first entry: the first entry, then what the rest
      of the loop loads. */
  lemma ReadEntriesAfterFirst(vs: seq<VectorEntry>, d: Decoding)
    requires |d.entries| < |vs| && d.entries == vs[1..][..|d.entries|]
    ensures [vs[0]] + d.entries == vs[..|d.entries| + 1]
  {
  }

  /** A truncated first entry: the loop fails with nothing loaded. */
  lemma ReadTruncatedFirst(vs: seq<VectorEntry>, p: seq<Byte>)
    requires |vs| > 0 && EntryEncodable(vs[0])
    requires |p| < |EncodeEntry(vs[0])| && p == EncodeEntry(vs[0])[..|p|]
    ensures ReadEntries(p, |vs|).failure.Some?
    ensures ReadEntries(p, |vs|).entries == []
  {
    ReadTruncatedEntry(vs[0], p);
    ReadEntriesFirstFails(p, |vs|);
  }

  /** A whole first entry followed by a truncated rest: the loop loads the
      first entry and then fails where the rest fails. */
  lemma ReadTruncatedAfterFirst(vs: seq<VectorEntry>, p: seq<Byte>, p': seq<Byte>)
    requires |vs| > 0 && EntryEncodable(vs[0]) && p == EncodeEntry(vs[0]) + p'
    requires ReadEntries(p', |vs| - 1).failure.Some?
    requires |ReadEntries(p', |vs| - 1).entries| < |vs| - 1
    requires ReadEntries(p', |vs| - 1).entries == vs[1..][..|ReadEntries(p', |vs| - 1).entries|]
    ensures ReadEntries(p, |vs|).failure.Some?
    ensures |ReadEntries(p, |vs|).entries| < |vs|
    ensures ReadEntries(p, |vs|).entries == vs[..|ReadEntries(p, |vs|).entries|]
  {
    ReadEncodedEntry(vs[0], p');
    var d := ReadEntries(p', |vs| - 1);
    ReadEntriesCons(p, |vs|, vs[0], p');
    ReadEntriesAfterFirst(vs, d);
  }

  lemma {:induction false} ReadTruncatedEntries(vs: seq<VectorEntry>, p: seq<Byte>)
    requires forall i :: 0 <= i < |vs| ==> EntryEncodable(vs[i])
    requires |p| < |EncodeEntries(vs)| && p == EncodeEntries(vs)[..|p|]
    ensures ReadEntries(p, |vs|).failure.Some?
    ensures |ReadEntries(p, |vs|).entries| < |vs|
    ensures ReadEntries(p, |vs|).entries == vs[..|ReadEntries(p, |vs|).entries|]
  {
    var full := EncodeEntry(vs[0]);
    var after := EncodeEntries(vs[1..]);
    assert EncodeEntries(vs) == full + after;
    if |p| < |full| {
      PrefixWithinFirst(full, after, p);
      ReadTruncatedFirst(vs, p);
    } else {
      PrefixPastFirst(full, after, p);
      var p' := p[|full|..];
      ReadTruncatedEntries(vs[1..], p');
      ReadTruncatedAfterFirst(vs, p, p');
    }
  }

  /** A file cut short anywhere is rejected, and what was loaded before the
      error is a strict prefix of the saved entries. */
  lemma DecodeTruncated(vs: seq<VectorEntry>, n: nat)
    requires Encodable(vs)
    requires n < |Encode(vs)|
    ensures Decode(Encode(vs)[..n]).failure.Some?
    ensures |Decode(Encode(vs)[..n]).entries| < |vs| || |vs| == 0
    ensures Decode(Encode(vs)[..n]).entries == vs[..|Decode(Encode(vs)[..n]).entries|]
  {
    var p := Encode(vs)[..n];
    if n >= 8 {
      PrefixPastFirst(EncodeU64(|vs|), EncodeEntries(vs), p);
      assert p[..8] == EncodeU64(|vs|);
      DecodeEncodeU64(|vs|);
      ReadTruncatedEntries(vs, p[8..]);
    }
  }
}
