/** Shingle construction: `DuplicateFinder.buildShingles`. */
module Shingles {
  import opened JavaLang

  /** The `k` words from position `i` on, joined by single spaces. */
  function Shingle(words: seq<string>, i: nat, k: nat): string
    requires i + k <= |words|
  {
    Join(words[i..i + k])
  }

  /** The shingles whose first word comes before position `upTo`. */
  function WindowsBefore(words: seq<string>, k: nat, upTo: nat): set<string>
    requires upTo == 0 || upTo - 1 + k <= |words|
  {
    set i: nat | i < upTo :: Shingle(words, i, k)
  }

  /** Every window of `k` consecutive words, joined by single spaces. */
  function Windows(words: seq<string>, k: nat): set<string> {
    set i: nat | i + k <= |words| :: Shingle(words, i, k)
  }

  /** `buildShingles(text, shingleSize)`: fails with IllegalArgumentException
      on an empty text or a non-positive width; otherwise the set of every
      window of `shingleSize` words of `text.split(" ")`. */
  method BuildShingles(text: string, shingleSize: int) returns (r: Result<set<string>>)
    ensures r.Failure? <==> text == [] || shingleSize <= 0
    ensures r.Failure? ==> r.error == IllegalArgument
    ensures r.Success? ==> r.value == Windows(SplitOnSpace(text), shingleSize)
  {
    if text == [] || shingleSize <= 0 {
      return Failure(IllegalArgument);
    }
    var shingles: set<string> := {};
    var words := SplitOnSpace(text);
    if |words| < shingleSize {
      return Success(shingles);
    }
    var i := 0;
    while i <= |words| - shingleSize
      invariant 0 <= i <= |words| - shingleSize + 1
      invariant shingles == WindowsBefore(words, shingleSize, i)
    {
      shingles := shingles + {Join(words[i..i + shingleSize])};
      assert Join(words[i..i + shingleSize]) == Shingle(words, i, shingleSize);
      i := i + 1;
    }
    assert shingles == Windows(words, shingleSize);
    return Success(shingles);
  }

  /** There is no shingle when the text has fewer words than the width;
      otherwise there is at least one and at most one per starting word. */
  lemma WindowsCount(words: seq<string>, k: nat)
    requires k >= 1
    ensures Windows(words, k) == {} <==> |words| < k
    ensures |words| >= k ==> 1 <= |Windows(words, k)| <= |words| - k + 1
  {
    if |words| >= k {
      var n := |words| - k + 1;
      assert Windows(words, k) == WindowsBefore(words, k, n);
      WindowsBeforeCount(words, k, n);
      assert Shingle(words, 0, k) in Windows(words, k);
    }
  }

  lemma {:induction false} WindowsBeforeCount(words: seq<string>, k: nat, m: nat)
    requires m == 0 || m - 1 + k <= |words|
    ensures |WindowsBefore(words, k, m)| <= m
    decreases m
  {
    if m > 0 {
      WindowsBeforeCount(words, k, m - 1);
      assert WindowsBefore(words, k, m) ==
        WindowsBefore(words, k, m - 1) + {Shingle(words, m - 1, k)};
    }
  }

  /** A shingle of words that are non-empty and contain no space splits back
      into exactly its `k` words. */
  lemma ShingleWords(words: seq<string>, k: nat, i: nat)
    requires k >= 1 && i + k <= |words|
    requires forall j :: 0 <= j < |words| ==> words[j] != [] && NoSpaceIn(words[j])
    ensures SplitOnSpace(Shingle(words, i, k)) == words[i..i + k]
  {
    SplitJoin(words[i..i + k]);
  }
}
