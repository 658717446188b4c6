/** Signature comparison: `DuplicateFinder.calculateSimilarity`. */
module Similarity {
  import opened JavaLang

  /** `(double) matches / total`, kept as the exact pair. A `total` of 0 is
      Java's 0.0 / 0, which is NaN. */
  datatype Ratio = Ratio(matches: nat, total: nat)

  /** The number of positions below `|a|` at which `a` and `b` agree. */
  function MatchCount(a: seq<int32>, b: seq<int32>): (n: nat)
    requires |a| <= |b|
    ensures n <= |a|
    decreases |a|
  {
    if |a| == 0 then 0
    else MatchCount(a[..|a| - 1], b) + (if a[|a| - 1] == b[|a| - 1] then 1 else 0)
  }

  /** The similarity of two signatures: the share of the positions of `a`
      at which `b` agrees. */
  function Estimate(a: seq<int32>, b: seq<int32>): (r: Ratio)
    requires |a| <= |b|
    ensures r.matches <= r.total == |a|
  {
    Ratio(MatchCount(a, b), |a|)
  }

  /** The positions counted, as a set. */
  function MatchPositions(a: seq<int32>, b: seq<int32>): set<nat>
    requires |a| <= |b|
  {
    set i: nat | i < |a| && a[i] == b[i]
  }

  /** `calculateSimilarity(hash1, hash2)`: walks the positions of `hash1` and
      counts those where `hash2` holds the same value. Reading past the end
      of a shorter `hash2` throws ArrayIndexOutOfBoundsException. */
  method CalculateSimilarity(hash1: array<int32>, hash2: array<int32>) returns (r: Result<Ratio>)
    ensures r.Failure? <==> hash2.Length < hash1.Length
    ensures r.Failure? ==> r.error == IndexOutOfBounds
    ensures r.Success? ==> r.value == Estimate(hash1[..], hash2[..])
  {
    var identicalHashes := 0;
    var i := 0;
    while i < hash1.Length
      invariant 0 <= i <= hash1.Length
      invariant i <= hash2.Length
      invariant identicalHashes == MatchCount(hash1[..i], hash2[..])
    {
      if i >= hash2.Length {
        return Failure(IndexOutOfBounds);
      }
      if hash1[i] == hash2[i] {
        identicalHashes := identicalHashes + 1;
      }
      assert hash1[..i + 1][..i] == hash1[..i];
      i := i + 1;
    }
    assert hash1[..] == hash1[..hash1.Length];
    return Success(Ratio(identicalHashes, hash1.Length));
  }

  // ---------------------------------------------------------------------------
  // Properties of the count

  /** The count is the number of agreeing positions. */
  lemma {:induction false} MatchCountIsPositions(a: seq<int32>, b: seq<int32>)
    requires |a| <= |b|
    ensures MatchCount(a, b) == |MatchPositions(a, b)|
    decreases |a|
  {
    if |a| > 0 {
      var a' := a[..|a| - 1];
      MatchCountIsPositions(a', b);
      var last := |a| - 1;
      if a[last] == b[last] {
        assert MatchPositions(a, b) == MatchPositions(a', b) + {last};
      } else {
        assert MatchPositions(a, b) == MatchPositions(a', b);
      }
    }
  }

  /** Comparing `b` with `a` counts as many matches as comparing `a` with `b`. */
  lemma {:induction false} MatchCountSymmetric(a: seq<int32>, b: seq<int32>)
    requires |a| == |b|
    ensures MatchCount(a, b) == MatchCount(b, a)
    decreases |a|
  {
    if |a| > 0 {
      var a', b' := a[..|a| - 1], b[..|b| - 1];
      MatchCountPrefix(a', b);
      MatchCountPrefix(b', a);
      MatchCountSymmetric(a', b');
    }
  }

  /** Only the first `|a|` elements of `b` matter. */
  lemma {:induction false} MatchCountPrefix(a: seq<int32>, b: seq<int32>)
    requires |a| <= |b|
    ensures MatchCount(a, b) == MatchCount(a, b[..|a|])
    decreases |a|
  {
    if |a| > 0 {
      MatchCountPrefix(a[..|a| - 1], b);
      MatchCountPrefix(a[..|a| - 1], b[..|a|]);
      assert b[..|a|][..|a| - 1] == b[..|a| - 1];
    }
  }

  /** Every position matches exactly when `a` is a prefix of `b`; in
      particular a signature matches itself at every position. */
  lemma {:induction false} MatchCountFull(a: seq<int32>, b: seq<int32>)
    requires |a| <= |b|
    ensures MatchCount(a, b) == |a| <==> a == b[..|a|]
    decreases |a|
  {
    if |a| > 0 {
      var a' := a[..|a| - 1];
      MatchCountFull(a', b);
      if a == b[..|a|] {
        assert a' == b[..|a'|];
      } else if a' == b[..|a'|] {
        assert a[|a| - 1] != b[|a| - 1];
      }
    }
  }
}
