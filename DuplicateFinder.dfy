/** The corpus orchestrator: class `DuplicateFinder`, which keeps one
    FileData per document, runs the three passes over all of them and then
    compares every pair of documents. */
module DuplicateFinder {
  import opened JavaLang
  import opened Canonicalizer
  import opened Shingles
  import opened MinHash
  import opened Similarity
  import opened Entities

  /** One line of the report: the two relative paths and their similarity. */
  datatype Comparison = Comparison(path1: string, path2: string, similarity: Ratio)

  predicate Distinct(ks: seq<string>) {
    forall i, j :: 0 <= i < j < |ks| ==> ks[i] != ks[j]
  }

  // ---------------------------------------------------------------------------
  // The pairs compareHashes visits

  /** Row `i` of the nested loops: key `i` against every later key. */
  function RowPairs(ks: seq<string>, i: nat): seq<(string, string)>
    requires i < |ks|
  {
    seq(|ks| - i - 1, d requires 0 <= d < |ks| - i - 1 => (ks[i], ks[i + 1 + d]))
  }

  /** A list without repeats has as many elements as entries. */
  lemma {:induction false} DistinctCard(ks: seq<string>)
    requires Distinct(ks)
    ensures |set k | k in ks| == |ks|
    decreases |ks|
  {
    if ks != [] {
      var init := ks[..|ks| - 1];
      DistinctCard(init);
      assert (set k | k in ks) == (set k | k in init) + {ks[|ks| - 1]};
      assert ks[|ks| - 1] !in (set k | k in init);
    }
  }

  /** A map keyed by exactly the entries of a list without repeats has as
      many keys as the list has entries. */
  lemma KeysCount<V>(m: map<string, V>, ks: seq<string>)
    requires Distinct(ks) && (forall k :: k in m <==> k in ks)
    ensures |m| == |ks|
  {
    DistinctCard(ks);
    assert m.Keys == set k | k in ks;
  }

  /** The first `rows` rows, in the order the loops visit them. */
  function PairsBefore(ks: seq<string>, rows: nat): (r: seq<(string, string)>)
    requires rows <= |ks|
    ensures forall p :: 0 <= p < |r| ==> r[p].0 in ks && r[p].1 in ks
    decreases rows
  {
    if rows == 0 then [] else PairsBefore(ks, rows - 1) + RowPairs(ks, rows - 1)
  }

  /** Every pair (ks[i], ks[j]) with i < j, row by row. */
  function AllPairs(ks: seq<string>): seq<(string, string)> {
    PairsBefore(ks, |ks|)
  }

  predicate NoDuplicates(ps: seq<(string, string)>) {
    forall p, q :: 0 <= p < q < |ps| ==> ps[p] != ps[q]
  }

  /** M keys give M * (M - 1) / 2 pairs. */
  lemma AllPairsCount(ks: seq<string>)
    ensures 2 * |AllPairs(ks)| == |ks| * (|ks| - 1)
  {
    PairsBeforeCount(ks, |ks|);
  }

  lemma {:induction false} PairsBeforeCount(ks: seq<string>, rows: nat)
    requires rows <= |ks|
    ensures 2 * |PairsBefore(ks, rows)| == rows * (2 * |ks| - rows - 1)
    decreases rows
  {
    if rows > 0 {
      PairsBeforeCount(ks, rows - 1);
      var n, m := |ks|, rows - 1;
      calc {
        2 * |PairsBefore(ks, rows)|;
        2 * |PairsBefore(ks, m)| + 2 * (n - m - 1);
        m * (2 * n - m - 1) + 2 * (n - m - 1);
        { assert m * (2 * n - m - 1) + 2 * (n - m - 1) == (m + 1) * (2 * n - m - 2); }
        rows * (2 * n - rows - 1);
      }
    }
  }

  /** `x` is key number `i` and `y` key number `j`, with `i < j` and `i`
      among the first `rows` keys. */
  ghost predicate Ordered(ks: seq<string>, x: string, y: string, rows: nat) {
    exists i, j :: 0 <= i < rows && i < j < |ks| && ks[i] == x && ks[j] == y
  }

  /** Every pair visited is two keys in increasing position, every such pair
      is visited, and with distinct keys no pair is visited twice, none in
      both orders and no key is paired with itself. */
  lemma AllPairsExactlyOnce(ks: seq<string>)
    requires Distinct(ks)
    ensures forall p :: 0 <= p < |AllPairs(ks)| ==>
      Ordered(ks, AllPairs(ks)[p].0, AllPairs(ks)[p].1, |ks|)
    ensures forall i, j :: 0 <= i < j < |ks| ==> (ks[i], ks[j]) in AllPairs(ks)
    ensures NoDuplicates(AllPairs(ks))
    ensures forall p, q :: 0 <= p < |AllPairs(ks)| && 0 <= q < |AllPairs(ks)| ==>
      AllPairs(ks)[p] != (AllPairs(ks)[q].1, AllPairs(ks)[q].0)
    ensures forall p :: 0 <= p < |AllPairs(ks)| ==> AllPairs(ks)[p].0 != AllPairs(ks)[p].1
  {
    var r := AllPairs(ks);
    PairsBeforeSound(ks, |ks|);
    PairsBeforeComplete(ks, |ks|);
    PairsBeforeNoDuplicates(ks, |ks|);
    forall p, q | 0 <= p < |r| && 0 <= q < |r| ensures r[p] != (r[q].1, r[q].0) {
      OrderedAntisymmetric(ks, r[p].0, r[p].1);
    }
    forall p | 0 <= p < |r| ensures r[p].0 != r[p].1 {
      OrderedAntisymmetric(ks, r[p].0, r[p].1);
    }
  }

  /** With distinct keys, key positions order the keys strictly. */
  lemma OrderedAntisymmetric(ks: seq<string>, x: string, y: string)
    requires Distinct(ks)
    requires Ordered(ks, x, y, |ks|)
    ensures x != y && !Ordered(ks, y, x, |ks|)
  {
    var i, j :| 0 <= i < |ks| && i < j < |ks| && ks[i] == x && ks[j] == y;
  }

  lemma {:induction false} PairsBeforeSound(ks: seq<string>, rows: nat)
    requires rows <= |ks|
    ensures forall p :: 0 <= p < |PairsBefore(ks, rows)| ==>
      Ordered(ks, PairsBefore(ks, rows)[p].0, PairsBefore(ks, rows)[p].1, rows)
    decreases rows
  {
    if rows > 0 {
      var m := rows - 1;
      PairsBeforeSound(ks, m);
      var a, b := PairsBefore(ks, m), RowPairs(ks, m);
      var r: seq<(string, string)> := a + b;
      assert PairsBefore(ks, rows) == r;
      forall p | 0 <= p < |r| ensures Ordered(ks, r[p].0, r[p].1, rows) {
        if p < |a| {
          var i, j :| 0 <= i < m && i < j < |ks| && ks[i] == a[p].0 && ks[j] == a[p].1;
          assert r[p] == a[p];
        } else {
          var d := p - |a|;
          assert r[p] == (ks[m], ks[m + 1 + d]);
          assert 0 <= m < rows && m < m + 1 + d < |ks|;
        }
      }
    }
  }

  lemma {:induction false} PairsBeforeComplete(ks: seq<string>, rows: nat)
    requires rows <= |ks|
    ensures forall i, j :: 0 <= i < rows && i < j < |ks| ==> (ks[i], ks[j]) in PairsBefore(ks, rows)
    decreases rows
  {
    if rows > 0 {
      var m := rows - 1;
      PairsBeforeComplete(ks, m);
      var a, b := PairsBefore(ks, m), RowPairs(ks, m);
      assert PairsBefore(ks, rows) == a + b;
      forall i, j | 0 <= i < rows && i < j < |ks| ensures (ks[i], ks[j]) in a + b {
        if i < m {
          assert (ks[i], ks[j]) in a;
        } else {
          assert b[j - m - 1] == (ks[i], ks[j]);
        }
      }
    }
  }

  lemma {:induction false} PairsBeforeNoDuplicates(ks: seq<string>, rows: nat)
    requires Distinct(ks)
    requires rows <= |ks|
    ensures NoDuplicates(PairsBefore(ks, rows))
    decreases rows
  {
    if rows > 0 {
      var m := rows - 1;
      PairsBeforeNoDuplicates(ks, m);
      PairsBeforeSound(ks, m);
      var a, b := PairsBefore(ks, m), RowPairs(ks, m);
      var r := a + b;
      assert PairsBefore(ks, rows) == r;
      forall p, q | 0 <= p < q < |r| ensures r[p] != r[q] {
        if q < |a| {
          assert r[p] == a[p] && r[q] == a[q];
        } else if p >= |a| {
          assert r[p].1 == ks[m + 1 + (p - |a|)] && r[q].1 == ks[m + 1 + (q - |a|)];
        } else {
          var i, j :| 0 <= i < m && i < j < |ks| && ks[i] == a[p].0 && ks[j] == a[p].1;
          assert r[p] == a[p] && r[q].0 == ks[m];
        }
      }
    }
  }

  /** Every key has a signature. */
  ghost predicate Covers(sigs: map<string, seq<int32>>, ks: seq<string>) {
    forall j :: 0 <= j < |ks| ==> ks[j] in sigs
  }

  /** All signatures have one length, as computeMinHashesForAllTexts makes
      them. */
  ghost predicate SameLength(sigs: map<string, seq<int32>>) {
    forall k1, k2 :: k1 in sigs && k2 in sigs ==> |sigs[k1]| == |sigs[k2]|
  }

  /** What row `i` of compareHashes reports: key `i` against each later key. */
  function RowReport(ks: seq<string>, sigs: map<string, seq<int32>>, i: nat): seq<Comparison>
    requires i < |ks| && Covers(sigs, ks) && SameLength(sigs)
  {
    seq(|ks| - i - 1, d requires 0 <= d < |ks| - i - 1 =>
      Comparison(ks[i], ks[i + 1 + d], Estimate(sigs[ks[i]], sigs[ks[i + 1 + d]])))
  }

  /** What the first `rows` rows of compareHashes report. */
  function ReportBefore(ks: seq<string>, sigs: map<string, seq<int32>>, rows: nat): (r: seq<Comparison>)
    requires rows <= |ks| && Covers(sigs, ks) && SameLength(sigs)
    decreases rows
  {
    if rows == 0 then [] else ReportBefore(ks, sigs, rows - 1) + RowReport(ks, sigs, rows - 1)
  }

  /** What compareHashes reports. */
  function Report(ks: seq<string>, sigs: map<string, seq<int32>>): seq<Comparison>
    requires Covers(sigs, ks) && SameLength(sigs)
  {
    ReportBefore(ks, sigs, |ks|)
  }

  /** The report holds one comparison per visited pair, in the order the
      pairs are visited, each with the similarity of the two signatures. */
  lemma ReportIsPairs(ks: seq<string>, sigs: map<string, seq<int32>>)
    requires Covers(sigs, ks) && SameLength(sigs)
    ensures |Report(ks, sigs)| == |AllPairs(ks)|
    ensures forall p :: 0 <= p < |AllPairs(ks)| ==>
      && AllPairs(ks)[p].0 in sigs && AllPairs(ks)[p].1 in sigs
      && Report(ks, sigs)[p] == Comparison(AllPairs(ks)[p].0, AllPairs(ks)[p].1,
           Estimate(sigs[AllPairs(ks)[p].0], sigs[AllPairs(ks)[p].1]))
  {
    ReportBeforeIsPairs(ks, sigs, |ks|);
  }

  /** M keys give a report of M·(M−1)/2 comparisons. */
  lemma ReportCount(ks: seq<string>, sigs: map<string, seq<int32>>)
    requires Covers(sigs, ks) && SameLength(sigs)
    ensures 2 * |Report(ks, sigs)| == |ks| * (|ks| - 1)
  {
    ReportIsPairs(ks, sigs);
    AllPairsCount(ks);
  }

  /** A corpus of M documents, listed once each, gives M·(M−1)/2 comparisons. */
  lemma CorpusReportCount(m: map<string, FileData>, ks: seq<string>, sigs: map<string, seq<int32>>)
    requires Distinct(ks) && (forall k :: k in m <==> k in ks)
    requires Covers(sigs, ks) && SameLength(sigs)
    ensures 2 * |Report(ks, sigs)| == |m| * (|m| - 1)
  {
    KeysCount(m, ks);
    ReportCount(ks, sigs);
  }

  lemma {:induction false} ReportBeforeIsPairs(ks: seq<string>, sigs: map<string, seq<int32>>, rows: nat)
    requires rows <= |ks| && Covers(sigs, ks) && SameLength(sigs)
    ensures |ReportBefore(ks, sigs, rows)| == |PairsBefore(ks, rows)|
    ensures forall p :: 0 <= p < |PairsBefore(ks, rows)| ==>
      && PairsBefore(ks, rows)[p].0 in sigs && PairsBefore(ks, rows)[p].1 in sigs
      && ReportBefore(ks, sigs, rows)[p] == Comparison(PairsBefore(ks, rows)[p].0, PairsBefore(ks, rows)[p].1,
           Estimate(sigs[PairsBefore(ks, rows)[p].0], sigs[PairsBefore(ks, rows)[p].1]))
    decreases rows
  {
    if rows > 0 {
      var m := rows - 1;
      ReportBeforeIsPairs(ks, sigs, m);
      var a, b := PairsBefore(ks, m), RowPairs(ks, m);
      var ra, rb := ReportBefore(ks, sigs, m), RowReport(ks, sigs, m);
      var ps: seq<(string, string)> := a + b;
      var rs: seq<Comparison> := ra + rb;
      assert PairsBefore(ks, rows) == ps;
      assert ReportBefore(ks, sigs, rows) == rs;
      forall p | 0 <= p < |ps|
        ensures ps[p].0 in sigs && ps[p].1 in sigs
        ensures rs[p] == Comparison(ps[p].0, ps[p].1, Estimate(sigs[ps[p].0], sigs[ps[p].1]))
      {
        if p < |a| {
          assert ps[p] == a[p] && rs[p] == ra[p];
        } else {
          var d := p - |a|;
          assert ps[p] == b[d] == (ks[m], ks[m + 1 + d]);
          assert rs[p] == rb[d];
        }
      }
    }
  }

  /** The signatures of the records whose signature is set. */
  function Signatures(records: map<string, FileData>): map<string, seq<int32>>
    reads records.Values, set k | k in records && records[k].minHash != null :: records[k].minHash
  {
    map k | k in records && records[k].minHash != null :: records[k].minHash[..]
  }

  // ---------------------------------------------------------------------------
  // Facts that tie the stages together

  /** Two documents with the same shingles are reported as identical. When
      both shingle sets are empty this still holds: both signatures are all
      Integer.MAX_VALUE and match at every position. */
  lemma SameShinglesScoreOne(a: seq<int32>, b: seq<int32>, shingles: set<string>, h: HashFamily, n: int)
    requires IsSignature(a, shingles, h, n) && IsSignature(b, shingles, h, n)
    ensures Estimate(a, b) == Ratio(n, n)
  {
    SignatureUnique(a, b, shingles, h, n);
    MatchCountFull(a, b);
  }

  /** The MinHash principle: when the smallest hash over both shingle sets
      comes from a shingle the two share, the two slots agree. */
  lemma SharedMinimumMatches(v: int32, w: int32, s1: set<string>, s2: set<string>,
                             h: HashFamily, seed: int32, m: string)
    requires IsSlotMin(v, s1, h, seed) && IsSlotMin(w, s2, h, seed)
    requires m in s1 && m in s2
    requires forall s :: s in s1 + s2 ==> Hash(h, m, seed) <= Hash(h, s, seed)
    ensures v == w == Hash(h, m, seed)
  {
    if v != INT_MAX {
      var s :| s in s1 && v == Hash(h, s, seed);
      assert s in s1 + s2;
    }
    if w != INT_MAX {
      var s :| s in s2 && w == Hash(h, s, seed);
      assert s in s1 + s2;
    }
  }

  /** The record holds the shingles of its own text at width `k`: the text
      is non-empty, `k` is positive, and the shingles are every window of `k`
      words of the text split on single spaces. */
  ghost predicate HasShingles(d: FileData, k: int)
    reads d
  {
    && d.text != [] && k > 0
    && d.shingles == Some(Windows(SplitOnSpace(d.text), k))
  }

  // ---------------------------------------------------------------------------
  // The orchestrator

  class DuplicateFinder {
    /** Relative path to the document's record. */
    var fileDataMap: map<string, FileData>
    /** The order in which the HashMap yields its keys and values. */
    var order: seq<string>

    /** `order` lists every key once, and no two keys share a record. */
    ghost predicate Valid()
      reads this
    {
      && Distinct(order)
      && (forall k :: k in fileDataMap <==> k in order)
      && (forall k1, k2 :: k1 in fileDataMap && k2 in fileDataMap && k1 != k2 ==>
            fileDataMap[k1] != fileDataMap[k2])
    }

    /** The iteration order lists each document once, so it is as long as
        the map is large. */
    lemma DocumentCount()
      requires Valid()
      ensures |order| == |fileDataMap|
    {
      KeysCount(fileDataMap, order);
    }

    /** The corpus as loadTexts leaves it: one new FileData per document,
        holding its raw text. */
    constructor (texts: map<string, string>)
      ensures Valid()
      ensures fileDataMap.Keys == texts.Keys
      ensures forall k :: k in fileDataMap ==>
        && fresh(fileDataMap[k])
        && fileDataMap[k].text == texts[k]
        && fileDataMap[k].shingles == None
        && fileDataMap[k].minHash == null
    {
      var m: map<string, FileData> := map[];
      var ks: seq<string> := [];
      var remaining := texts.Keys;
      while remaining != {}
        invariant m.Keys + remaining == texts.Keys && m.Keys !! remaining
        invariant Distinct(ks) && forall k :: k in m <==> k in ks
        invariant forall k :: k in m ==>
          && fresh(m[k])
          && m[k].text == texts[k]
          && m[k].shingles == None
          && m[k].minHash == null
        invariant forall k1, k2 :: k1 in m && k2 in m && k1 != k2 ==> m[k1] != m[k2]
        decreases remaining
      {
        var k :| k in remaining;
        var record := new FileData(texts[k]);
        m := m[k := record];
        ks := ks + [k];
        remaining := remaining - {k};
      }
      fileDataMap := m;
      order := ks;
    }

    /** `canonicalizeTexts(stopWords)`: replaces every record's text by its
        canonical form. */
    method CanonicalizeTexts(stopWords: set<string>, u: CharModel)
      requires Valid()
      modifies fileDataMap.Values`text
      ensures forall k :: k in fileDataMap ==>
        fileDataMap[k].text == Canonicalize(old(fileDataMap[k].text), stopWords, u)
    {
      var i := 0;
      while i < |order|
        invariant 0 <= i <= |order|
        invariant forall k :: k in fileDataMap ==>
          if k in order[..i] then fileDataMap[k].text == Canonicalize(old(fileDataMap[k].text), stopWords, u)
          else fileDataMap[k].text == old(fileDataMap[k].text)
      {
        assert order[..i + 1] == order[..i] + [order[i]];
        assert order[i] !in order[..i];
        var fileData := fileDataMap[order[i]];
        var canonicalizedText := Canonicalize(fileData.GetText(), stopWords, u);
        fileData.SetText(canonicalizedText);
        i := i + 1;
      }
      assert order[..i] == order;
    }

    /** `buildShinglesForAllTexts(shingleSize)`: sets every record's shingles
        from its text. buildShingles throws on an empty text or a
        non-positive width; the exception leaves the loop at the first record
        that raises it, after the records before it were updated. */
    method BuildShinglesForAllTexts(shingleSize: int) returns (outcome: Outcome)
      requires Valid()
      modifies fileDataMap.Values`shingles
      ensures outcome.Pass? <==>
        forall k :: k in fileDataMap ==> fileDataMap[k].text != [] && shingleSize > 0
      ensures outcome.Fail? ==> outcome.error == IllegalArgument
      ensures outcome.Pass? ==> forall k :: k in fileDataMap ==> HasShingles(fileDataMap[k], shingleSize)
      ensures outcome.Fail? ==> exists f ::
        && 0 <= f < |order|
        && (fileDataMap[order[f]].text == [] || shingleSize <= 0)
        && forall k :: k in fileDataMap ==>
             if k in order[..f] then HasShingles(fileDataMap[k], shingleSize)
             else fileDataMap[k].shingles == old(fileDataMap[k].shingles)
    {
      var i := 0;
      while i < |order|
        invariant 0 <= i <= |order|
        invariant forall k :: k in fileDataMap ==>
          if k in order[..i] then HasShingles(fileDataMap[k], shingleSize)
          else fileDataMap[k].shingles == old(fileDataMap[k].shingles)
      {
        assert order[..i + 1] == order[..i] + [order[i]];
        assert order[i] !in order[..i];
        var fileData := fileDataMap[order[i]];
        var shingles := BuildShingles(fileData.GetText(), shingleSize);
        if shingles.Failure? {
          return Fail(shingles.error);
        }
        fileData.SetShingles(Some(shingles.value));
        i := i + 1;
      }
      assert order[..i] == order;
      return Pass;
    }

    /** `computeMinHashesForAllTexts(numHashes)`: gives every record the
        MinHash signature of its shingles. */
    method ComputeMinHashesForAllTexts(numHashes: int, h: HashFamily)
      requires Valid()
      requires 0 <= numHashes <= INT_MAX as int
      requires forall k :: k in fileDataMap ==> fileDataMap[k].shingles.Some?
      modifies fileDataMap.Values`minHash
      ensures forall k :: k in fileDataMap ==>
        && fileDataMap[k].minHash != null
        && fresh(fileDataMap[k].minHash)
        && IsSignature(fileDataMap[k].minHash[..], fileDataMap[k].shingles.value, h, numHashes)
      ensures forall k1, k2 :: k1 in fileDataMap && k2 in fileDataMap && k1 != k2 ==>
        fileDataMap[k1].minHash != fileDataMap[k2].minHash
    {
      var i := 0;
      while i < |order|
        invariant 0 <= i <= |order|
        invariant forall k :: k in fileDataMap && k in order[..i] ==>
          && fileDataMap[k].minHash != null
          && fresh(fileDataMap[k].minHash)
          && IsSignature(fileDataMap[k].minHash[..], fileDataMap[k].shingles.value, h, numHashes)
        invariant forall k1, k2 ::
          k1 in fileDataMap && k2 in fileDataMap && k1 != k2 && k1 in order[..i] && k2 in order[..i] ==>
            fileDataMap[k1].minHash != fileDataMap[k2].minHash
      {
        assert order[..i + 1] == order[..i] + [order[i]];
        var fileData := fileDataMap[order[i]];
        var minHash := ComputeMinHash(fileData.GetShingles().value, numHashes, h);
        fileData.SetMinHash(minHash);
        i := i + 1;
      }
      assert order[..i] == order;
    }

    /** `compareFileHashes(path1, path2)`: the similarity of two records'
        signatures, which compareFileHashes prints. */
    method CompareFileHashes(path1: string, path2: string) returns (c: Comparison)
      requires path1 in fileDataMap && path2 in fileDataMap
      requires fileDataMap[path1].minHash != null && fileDataMap[path2].minHash != null
      requires fileDataMap[path1].minHash.Length <= fileDataMap[path2].minHash.Length
      ensures c == Comparison(path1, path2,
        Estimate(fileDataMap[path1].minHash[..], fileDataMap[path2].minHash[..]))
    {
      var similarity := CalculateSimilarity(fileDataMap[path1].GetMinHash(), fileDataMap[path2].GetMinHash());
      c := Comparison(path1, path2, similarity.value);
    }

    /** `compareHashes()`: every pair of keys i < j in the map's order, the
        rows in increasing i, and within a row increasing j. */
    method CompareHashes() returns (report: seq<Comparison>)
      requires Valid()
      requires forall k :: k in fileDataMap ==> fileDataMap[k].minHash != null
      requires forall k1, k2 :: k1 in fileDataMap && k2 in fileDataMap ==>
        fileDataMap[k1].minHash.Length == fileDataMap[k2].minHash.Length
      ensures Covers(Signatures(fileDataMap), order) && SameLength(Signatures(fileDataMap))
      ensures report == Report(order, Signatures(fileDataMap))
      ensures 2 * |report| == |fileDataMap| * (|fileDataMap| - 1)
    {
      ghost var sigs := Signatures(fileDataMap);
      var relativePaths := order;
      assert Covers(sigs, relativePaths) && SameLength(sigs);
      report := [];
      var i := 0;
      while i < |relativePaths|
        invariant 0 <= i <= |relativePaths|
        invariant sigs == Signatures(fileDataMap)
        invariant report == ReportBefore(relativePaths, sigs, i)
      {
        var comparisons := CompareRow(relativePaths, i, sigs);
        report := report + comparisons;
        i := i + 1;
      }
      CorpusReportCount(fileDataMap, order, sigs);
    }

    /** The inner loop of compareHashes: key `i` against every later key.
        `sigs` names the records' signatures, which the loop does not change. */
    method CompareRow(relativePaths: seq<string>, i: nat, ghost sigs: map<string, seq<int32>>)
      returns (comparisons: seq<Comparison>)
      requires i < |relativePaths|
      requires sigs == Signatures(fileDataMap)
      requires Covers(sigs, relativePaths) && SameLength(sigs)
      ensures comparisons == RowReport(relativePaths, sigs, i)
    {
      ghost var row := RowReport(relativePaths, sigs, i);
      comparisons := [];
      var j := i + 1;
      while j < |relativePaths|
        invariant i + 1 <= j <= |relativePaths|
        invariant sigs == Signatures(fileDataMap)
        invariant comparisons == row[..j - i - 1]
      {
        var c := CompareFileHashes(relativePaths[i], relativePaths[j]);
        assert row[..j - i] == row[..j - i - 1] + [c];
        comparisons := comparisons + [c];
        j := j + 1;
      }
    }

    /** `findDuplicates()`: compareHashes under its public name. */
    method FindDuplicates() returns (report: seq<Comparison>)
      requires Valid()
      requires forall k :: k in fileDataMap ==> fileDataMap[k].minHash != null
      requires forall k1, k2 :: k1 in fileDataMap && k2 in fileDataMap ==>
        fileDataMap[k1].minHash.Length == fileDataMap[k2].minHash.Length
      ensures Covers(Signatures(fileDataMap), order) && SameLength(Signatures(fileDataMap))
      ensures report == Report(order, Signatures(fileDataMap))
      ensures 2 * |report| == |fileDataMap| * (|fileDataMap| - 1)
    {
      report := CompareHashes();
    }
  }
}
