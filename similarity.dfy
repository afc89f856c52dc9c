/**
 * The similarity score a nearest-neighbour result carries: 1 - d*d/2 for the
 * Euclidean (L2) distance d between the stored and the query embedding.
 * For unit-length embeddings this is their cosine similarity.
 */
module Scores {

  function Similarity(distance: real): real {
    1.0 - distance * distance / 2.0
  }

  /** The score of an exact match is exactly 1. */
  lemma ExactMatchScoresOne()
    ensures Similarity(0.0) == 1.0
  {
  }

  /** Over non-negative distances the score strictly falls as the distance grows. */
  lemma SimilarityStrictlyDecreasing(d1: real, d2: real)
    requires 0.0 <= d1 < d2
    ensures Similarity(d2) < Similarity(d1)
  {
    var gap, sum := d2 - d1, d2 + d1;
    assert d2 * d2 - d1 * d1 == gap * sum;
    assert gap * sum > 0.0 by {
      assert gap > 0.0 && sum > 0.0;
      assert gap * sum >= gap * d2;
      assert gap * d2 > 0.0;
    }
  }

  /** Over non-negative distances the score never rises as the distance grows. */
  lemma SimilarityAntitone(d1: real, d2: real)
    requires 0.0 <= d1 <= d2
    ensures Similarity(d2) <= Similarity(d1)
  {
    if d1 < d2 {
      SimilarityStrictlyDecreasing(d1, d2);
    }
  }

  /** Distances between unit vectors lie in [0, 2], and there the score lies in [-1, 1]. */
  lemma SimilarityBounded(d: real)
    requires 0.0 <= d <= 2.0
    ensures -1.0 <= Similarity(d) <= 1.0
  {
    assert d * d <= 2.0 * d <= 4.0;
  }

  function Dot(a: seq<real>, b: seq<real>): real
    requires |a| == |b|
  {
    if a == [] then 0.0 else a[0] * b[0] + Dot(a[1..], b[1..])
  }

  /** The squared Euclidean distance between two embeddings. */
  function SquaredDistance(a: seq<real>, b: seq<real>): (r: real)
    requires |a| == |b|
    ensures r >= 0.0
  {
    if a == [] then 0.0
    else (a[0] - b[0]) * (a[0] - b[0]) + SquaredDistance(a[1..], b[1..])
  }

  lemma {:induction false} SquaredDistanceExpands(a: seq<real>, b: seq<real>)
    requires |a| == |b|
    ensures SquaredDistance(a, b) == Dot(a, a) - 2.0 * Dot(a, b) + Dot(b, b)
  {
    if a != [] {
      SquaredDistanceExpands(a[1..], b[1..]);
      assert (a[0] - b[0]) * (a[0] - b[0]) == a[0] * a[0] - 2.0 * (a[0] * b[0]) + b[0] * b[0];
    }
  }

  /** An embedding is at distance zero from itself. */
  lemma {:induction false} SquaredDistanceToSelf(a: seq<real>)
    ensures SquaredDistance(a, a) == 0.0
  {
    if a != [] {
      SquaredDistanceToSelf(a[1..]);
    }
  }

  /**
   * For unit-length embeddings a and b at L2 distance d (d >= 0, d*d equal to
   * their squared distance), the score is their dot product, i.e. their cosine
   * similarity.
   */
  lemma SimilarityIsCosineForUnitVectors(a: seq<real>, b: seq<real>, d: real)
    requires |a| == |b|
    requires Dot(a, a) == 1.0 && Dot(b, b) == 1.0
    requires 0.0 <= d && d * d == SquaredDistance(a, b)
    ensures Similarity(d) == Dot(a, b)
  {
    SquaredDistanceExpands(a, b);
  }

  /** Querying with a stored embedding itself gives distance 0 and so the score 1. */
  lemma SelfQueryScoresOne(a: seq<real>, d: real)
    requires 0.0 <= d && d * d == SquaredDistance(a, a)
    ensures Similarity(d) == 1.0
  {
    SquaredDistanceToSelf(a);
    if d > 0.0 {
      assert d * d > 0.0;
    }
  }
}
