/** CosineSimilarity (src/shore_db.cpp:3-35, vector.cpp:18-50). The checks
    that decide whether it throws are modelled; the float arithmetic (sums of
    products, sqrt, division) is a parameter. */
module Similarity {
  import opened Base

  /** The two runtime_error cases. */
  datatype MetricError = DimensionMismatch | ZeroMagnitude

  /** The float arithmetic of the cosine for two vectors of equal length:
      Some(dot / (magA * magB)), or None when a magnitude comes out as 0
      (for instance when the squares underflow). */
  type Arithmetic = (seq<Float32>, seq<Float32>) -> Option<Score>

  /** +0.0 or -0.0. */
  predicate IsZero(x: Float32)
  {
    x & 0x7FFF_FFFF == 0
  }

  /** Every element is a zero, so its square sum, and with it its magnitude,
      is exactly 0. The empty vector is one. */
  predicate IsZeroVector(v: seq<Float32>)
  {
    forall i :: 0 <= i < |v| ==> IsZero(v[i])
  }

  function CosineSimilarity(a: seq<Float32>, b: seq<Float32>, arith: Arithmetic): (r: Result<Score, MetricError>)
    ensures r == Failure(DimensionMismatch) <==> |a| != |b|
    ensures r == Failure(ZeroMagnitude)
            <==> |a| == |b| && (IsZeroVector(a) || IsZeroVector(b) || arith(a, b) == None)
    ensures |a| == |b| && !IsZeroVector(a) && !IsZeroVector(b) && arith(a, b).Some?
            ==> r == Success(arith(a, b).value)
    ensures r.Success? ==> arith(a, b) == Some(r.value)
  {
    if |a| != |b| then Failure(DimensionMismatch)
    else if IsZeroVector(a) || IsZeroVector(b) then Failure(ZeroMagnitude)
    else
      match arith(a, b)
      case None => Failure(ZeroMagnitude)
      case Some(s) => Success(s)
  }
}
