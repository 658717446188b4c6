/** MinHash signatures: `DuplicateFinder.computeMinHash`. */
module MinHash {
  import opened JavaLang

  /** The hashing the finder borrows from libraries: String.getBytes with the
      platform charset, and MurmurHash3.hash32x86 over those bytes with an
      int seed. Both are deterministic; nothing else is assumed of them. */
  datatype HashFamily = HashFamily(
    getBytes: string -> seq<bv8>,
    murmur: (seq<bv8>, int32) -> int32)

  /** Hash function number `seed` applied to a shingle. */
  function Hash(h: HashFamily, shingle: string, seed: int32): int32 {
    h.murmur(h.getBytes(shingle), seed)
  }

  /** `v` is the value slot `seed` must hold for `shingles`: at most every
      hash of a shingle under that seed, and either one of those hashes or,
      when none is smaller, Integer.MAX_VALUE. */
  ghost predicate IsSlotMin(v: int32, shingles: set<string>, h: HashFamily, seed: int32) {
    && (forall s :: s in shingles ==> v <= Hash(h, s, seed))
    && (v == INT_MAX || exists s :: s in shingles && v == Hash(h, s, seed))
  }

  /** `sig` is the MinHash signature of `shingles` with `n` hash functions. */
  ghost predicate IsSignature(sig: seq<int32>, shingles: set<string>, h: HashFamily, n: int) {
    && |sig| == n <= INT_MAX as int
    && forall i :: 0 <= i < n ==> IsSlotMin(sig[i], shingles, h, i as int32)
  }

  /** `computeMinHash(shingles, numHashes)`: every slot starts at
      Integer.MAX_VALUE and is lowered to the hash of each shingle in turn.
      The shingles are taken in an arbitrary order, as a HashSet yields them. */
  method ComputeMinHash(shingles: set<string>, numHashes: int, h: HashFamily)
    returns (minHashes: array<int32>)
    requires 0 <= numHashes <= INT_MAX as int
    ensures fresh(minHashes)
    ensures IsSignature(minHashes[..], shingles, h, numHashes)
  {
    minHashes := new int32[numHashes](_ => INT_MAX);
    var remaining := shingles;
    ghost var seen: set<string> := {};
    while remaining != {}
      invariant remaining + seen == shingles && remaining !! seen
      invariant minHashes.Length == numHashes
      invariant forall j :: 0 <= j < numHashes ==> IsSlotMin(minHashes[j], seen, h, j as int32)
      decreases remaining
    {
      var shingle :| shingle in remaining;
      var shingleBytes := h.getBytes(shingle);
      var i := 0;
      while i < numHashes
        invariant 0 <= i <= numHashes
        invariant forall j :: 0 <= j < i ==> IsSlotMin(minHashes[j], seen + {shingle}, h, j as int32)
        invariant forall j :: i <= j < numHashes ==> IsSlotMin(minHashes[j], seen, h, j as int32)
      {
        var hash := h.murmur(shingleBytes, i as int32);
        SlotMinInsert(minHashes[i], seen, shingle, h, i as int32);
        minHashes[i] := Min(minHashes[i], hash);
        i := i + 1;
      }
      remaining := remaining - {shingle};
      seen := seen + {shingle};
    }
  }

  /** Taking one more shingle into account is one more `Math.min`. */
  lemma SlotMinInsert(v: int32, seen: set<string>, s: string, h: HashFamily, seed: int32)
    requires IsSlotMin(v, seen, h, seed)
    ensures IsSlotMin(Min(v, Hash(h, s, seed)), seen + {s}, h, seed)
  {
  }

  /** A slot's value is determined by the shingles alone, so neither the
      order in which they are visited nor anything else affects it. */
  lemma SlotMinUnique(v: int32, w: int32, shingles: set<string>, h: HashFamily, seed: int32)
    requires IsSlotMin(v, shingles, h, seed) && IsSlotMin(w, shingles, h, seed)
    ensures v == w
  {
    if v != INT_MAX {
      var s :| s in shingles && v == Hash(h, s, seed);
      assert w <= v;
    }
    if w != INT_MAX {
      var s :| s in shingles && w == Hash(h, s, seed);
      assert v <= w;
    }
  }

  /** Equal shingle sets give equal signatures. */
  lemma SignatureUnique(a: seq<int32>, b: seq<int32>, shingles: set<string>, h: HashFamily, n: int)
    requires IsSignature(a, shingles, h, n) && IsSignature(b, shingles, h, n)
    ensures a == b
  {
    forall i | 0 <= i < n ensures a[i] == b[i] {
      SlotMinUnique(a[i], b[i], shingles, h, i as int32);
    }
  }

  /** The signature of the empty shingle set is all Integer.MAX_VALUE, and
      only that sequence is. */
  lemma EmptySignature(sig: seq<int32>, h: HashFamily, n: nat)
    requires n <= INT_MAX as int
    ensures IsSignature(sig, {}, h, n) <==> sig == seq(n, _ => INT_MAX)
  {
  }

  /** Adding shingles can only lower a slot. */
  lemma SlotMinMonotone(v: int32, w: int32, small: set<string>, large: set<string>, h: HashFamily, seed: int32)
    requires small <= large
    requires IsSlotMin(v, small, h, seed) && IsSlotMin(w, large, h, seed)
    ensures w <= v
  {
    if v != INT_MAX {
      var s :| s in small && v == Hash(h, s, seed);
      assert s in large;
    }
  }
}
