/** Text canonicalization: `DuplicateFinder.canonicalize`. */
module Canonicalizer {
  import opened JavaLang

  /** The Unicode machinery canonicalize borrows from the JDK, taken one
      character at a time: String.toLowerCase, NFD decomposition
      (java.text.Normalizer), and the regex classes \p{M} and \p{L} or \p{N}. */
  datatype CharModel = CharModel(
    toLower: char -> seq<char>,
    decompose: char -> seq<char>,
    isMark: char -> bool,
    isLetterOrDigit: char -> bool)

  /** No letter or digit lies at or below U+0020, so String.trim never
      removes one. The Unicode tables satisfy this. */
  ghost predicate WellFormed(u: CharModel) {
    forall c :: u.isLetterOrDigit(c) ==> ' ' < c
  }

  /** A character that can occur inside a canonical word. */
  predicate IsWordChar(u: CharModel, c: char) {
    u.isLetterOrDigit(c) && !IsRegexSpace(c)
  }

  /** A character the first three stages leave alone. */
  predicate IsStable(u: CharModel, c: char) {
    u.toLower(c) == [c] && u.decompose(c) == [c] && !u.isMark(c)
  }

  /** Replaces every character `c` of `s` by `f(c)`; used for lower-casing
      and for decomposition. */
  function FlatMap(s: string, f: char -> seq<char>): (r: string)
    ensures (forall i :: 0 <= i < |s| ==> f(s[i]) == [s[i]]) ==> r == s
  {
    if s == [] then [] else f(s[0]) + FlatMap(s[1..], f)
  }

  /** `replaceAll("\\p{M}", "")` */
  function StripMarks(u: CharModel, s: string): (r: string)
    ensures forall c {:trigger c in r} :: c in r <==> c in s && !u.isMark(c)
    ensures (forall i :: 0 <= i < |s| ==> !u.isMark(s[i])) ==> r == s
  {
    if s == [] then []
    else (if u.isMark(s[0]) then [] else [s[0]]) + StripMarks(u, s[1..])
  }

  /** `replaceAll("[^\\p{L}\\p{N}\\s]", " ")` */
  function BlankPunctuation(u: CharModel, s: string): (r: string)
    ensures |r| == |s|
    ensures forall i :: 0 <= i < |r| ==> u.isLetterOrDigit(r[i]) || IsRegexSpace(r[i])
    ensures forall i :: 0 <= i < |s| && (u.isLetterOrDigit(s[i]) || IsRegexSpace(s[i])) ==> r[i] == s[i]
    ensures forall i :: 0 <= i < |s| && !u.isLetterOrDigit(s[i]) && !IsRegexSpace(s[i]) ==> r[i] == ' '
    ensures (forall i :: 0 <= i < |s| ==> u.isLetterOrDigit(s[i]) || IsRegexSpace(s[i])) ==> r == s
  {
    seq(|s|, i requires 0 <= i < |s| =>
      if u.isLetterOrDigit(s[i]) || IsRegexSpace(s[i]) then s[i] else ' ')
  }

  /** `filter(word -> !stopWords.contains(word))` */
  function DropStopWords(ws: seq<string>, stopWords: set<string>): (r: seq<string>)
    ensures forall w :: w in r <==> w in ws && w !in stopWords
    ensures (forall i :: 0 <= i < |ws| ==> ws[i] !in stopWords) ==> r == ws
  {
    if ws == [] then []
    else (if ws[0] in stopWords then [] else [ws[0]]) + DropStopWords(ws[1..], stopWords)
  }

  // ---------------------------------------------------------------------------
  // The stages work piece by piece, in order

  /** Mapping a concatenation maps each part and keeps them in order. */
  lemma {:induction false} FlatMapAppend(a: string, b: string, f: char -> seq<char>)
    ensures FlatMap(a + b, f) == FlatMap(a, f) + FlatMap(b, f)
    decreases |a|
  {
    if a == [] {
      assert a + b == b;
    } else {
      assert (a + b)[0] == a[0] && (a + b)[1..] == a[1..] + b;
      calc {
        FlatMap(a + b, f);
        f(a[0]) + FlatMap(a[1..] + b, f);
        { FlatMapAppend(a[1..], b, f); }
        f(a[0]) + (FlatMap(a[1..], f) + FlatMap(b, f));
        (f(a[0]) + FlatMap(a[1..], f)) + FlatMap(b, f);
      }
    }
  }

  /** Stripping the marks of a concatenation strips each part, keeping the
      other characters in order and with their repeats. */
  lemma {:induction false} StripMarksAppend(u: CharModel, a: string, b: string)
    ensures StripMarks(u, a + b) == StripMarks(u, a) + StripMarks(u, b)
    decreases |a|
  {
    if a == [] {
      assert a + b == b;
    } else {
      var head := if u.isMark(a[0]) then [] else [a[0]];
      assert (a + b)[0] == a[0] && (a + b)[1..] == a[1..] + b;
      calc {
        StripMarks(u, a + b);
        head + StripMarks(u, a[1..] + b);
        { StripMarksAppend(u, a[1..], b); }
        head + (StripMarks(u, a[1..]) + StripMarks(u, b));
        (head + StripMarks(u, a[1..])) + StripMarks(u, b);
        StripMarks(u, a) + StripMarks(u, b);
      }
    }
  }

  /** Filtering a concatenation filters each part, keeping the other words in
      order and with their repeats. */
  lemma {:induction false} DropStopWordsAppend(a: seq<string>, b: seq<string>, stopWords: set<string>)
    ensures DropStopWords(a + b, stopWords) == DropStopWords(a, stopWords) + DropStopWords(b, stopWords)
    decreases |a|
  {
    if a == [] {
      assert a + b == b;
    } else {
      var head := if a[0] in stopWords then [] else [a[0]];
      assert (a + b)[0] == a[0] && (a + b)[1..] == a[1..] + b;
      calc {
        DropStopWords(a + b, stopWords);
        head + DropStopWords(a[1..] + b, stopWords);
        { DropStopWordsAppend(a[1..], b, stopWords); }
        head + (DropStopWords(a[1..], stopWords) + DropStopWords(b, stopWords));
        (head + DropStopWords(a[1..], stopWords)) + DropStopWords(b, stopWords);
      }
    }
  }

  /** The token stream before it is joined: lower-case, decompose, strip the
      marks, blank the punctuation, split on whitespace runs, drop stop words. */
  function Tokens(text: string, stopWords: set<string>, u: CharModel): (r: seq<string>)
    ensures forall i :: 0 <= i < |r| ==> r[i] !in stopWords
    ensures forall i, k :: 0 <= i < |r| && 0 <= k < |r[i]| ==> !IsRegexSpace(r[i][k])
  {
    var lowered := FlatMap(text, u.toLower);
    var plain := StripMarks(u, FlatMap(lowered, u.decompose));
    DropStopWords(SplitOnSpaceRuns(BlankPunctuation(u, plain)), stopWords)
  }

  /** `canonicalize(text, stopWords)`; the null reference is not modelled. */
  function Canonicalize(text: string, stopWords: set<string>, u: CharModel): (r: string)
    ensures text == [] ==> r == []
  {
    if text == [] then [] else Trim(Join(Tokens(text, stopWords, u)))
  }

  /** What a canonical text looks like: no whitespace at either end, single
      spaces between words, only word characters and spaces, every word
      non-empty and no word a stop word, and the words re-join to the text. */
  ghost predicate IsCanonical(r: string, stopWords: set<string>, u: CharModel) {
    && (r == [] || (' ' < r[0] && ' ' < r[|r| - 1]))
    && (forall k :: 0 <= k < |r| ==> r[k] == ' ' || IsWordChar(u, r[k]))
    && (forall k :: 0 <= k < |r| - 1 && r[k] == ' ' ==> r[k + 1] != ' ')
    && (r != [] ==>
          && (forall w :: w in SplitOnSpace(r) ==> w != [] && w !in stopWords)
          && Join(SplitOnSpace(r)) == r)
  }

  // ---------------------------------------------------------------------------
  // The canonical form

  lemma {:induction false} CanonicalizeIsCanonical(text: string, stopWords: set<string>, u: CharModel)
    requires WellFormed(u)
    ensures IsCanonical(Canonicalize(text, stopWords, u), stopWords, u)
  {
    if text != [] {
      TokensShape(text, stopWords, u);
      CanonicalTokens(Tokens(text, stopWords, u), stopWords, u);
    }
  }

  /** Which words survive: the output is the surviving tokens, less the
      empty one a leading blank produces, joined by single spaces, and
      splitting it on spaces gives those words back. */
  lemma {:induction false} CanonicalizeWords(text: string, stopWords: set<string>, u: CharModel)
    requires WellFormed(u)
    ensures Canonicalize(text, stopWords, u) == Join(DropLeadingEmpty(Tokens(text, stopWords, u)))
    ensures DropLeadingEmpty(Tokens(text, stopWords, u)) != [] ==>
      SplitOnSpace(Canonicalize(text, stopWords, u)) == DropLeadingEmpty(Tokens(text, stopWords, u))
  {
    var kept := Tokens(text, stopWords, u);
    var ts := DropLeadingEmpty(kept);
    CanonicalizeJoins(text, stopWords, u);
    if ts != [] {
      TokensShape(text, stopWords, u);
      DropLeadingEmptyShape(kept, stopWords, u);
      WordsHaveNoSpace(ts, u);
      SplitJoin(ts);
    }
  }

  /** The output is the surviving tokens, less a leading empty one, joined. */
  lemma {:induction false} CanonicalizeJoins(text: string, stopWords: set<string>, u: CharModel)
    requires WellFormed(u)
    ensures Canonicalize(text, stopWords, u) == Join(DropLeadingEmpty(Tokens(text, stopWords, u)))
  {
    if text == [] {
      assert Tokens(text, stopWords, u) == DropStopWords([[]], stopWords);
    } else {
      TokensShape(text, stopWords, u);
      TrimJoin(Tokens(text, stopWords, u), u);
    }
  }

  /** Words of word characters hold no space. */
  lemma WordsHaveNoSpace(ts: seq<string>, u: CharModel)
    requires WellFormed(u)
    requires forall i, k :: 0 <= i < |ts| && 0 <= k < |ts[i]| ==> IsWordChar(u, ts[i][k])
    ensures forall i :: 0 <= i < |ts| ==> NoSpaceIn(ts[i])
  {
    forall i | 0 <= i < |ts| ensures NoSpaceIn(ts[i]) {
      forall k | 0 <= k < |ts[i]| ensures ts[i][k] != ' ' {
        assert IsWordChar(u, ts[i][k]);
      }
    }
  }

  /** Joining and trimming tokens of that shape gives a canonical text. */
  lemma CanonicalTokens(kept: seq<string>, stopWords: set<string>, u: CharModel)
    requires WellFormed(u)
    requires forall i :: 0 < i < |kept| ==> kept[i] != []
    requires forall i :: 0 <= i < |kept| ==> kept[i] !in stopWords
    requires forall i, k :: 0 <= i < |kept| && 0 <= k < |kept[i]| ==> IsWordChar(u, kept[i][k])
    ensures IsCanonical(Trim(Join(kept)), stopWords, u)
  {
    TrimJoin(kept, u);
    DropLeadingEmptyShape(kept, stopWords, u);
    CanonicalJoin(DropLeadingEmpty(kept), stopWords, u);
  }

  /** The tokens without the empty one a leading space produces. */
  function DropLeadingEmpty(kept: seq<string>): (ts: seq<string>)
    ensures |ts| <= |kept|
    ensures forall i :: 0 <= i < |ts| ==> ts[i] == kept[i + |kept| - |ts|]
  {
    if kept != [] && kept[0] == [] then kept[1..] else kept
  }

  /** Dropping the leading empty token leaves only non-empty words. */
  lemma DropLeadingEmptyShape(kept: seq<string>, stopWords: set<string>, u: CharModel)
    requires forall i :: 0 < i < |kept| ==> kept[i] != []
    requires forall i :: 0 <= i < |kept| ==> kept[i] !in stopWords
    requires forall i, k :: 0 <= i < |kept| && 0 <= k < |kept[i]| ==> IsWordChar(u, kept[i][k])
    ensures forall i :: 0 <= i < |DropLeadingEmpty(kept)| ==>
      DropLeadingEmpty(kept)[i] != [] && DropLeadingEmpty(kept)[i] !in stopWords
    ensures forall i, k :: 0 <= i < |DropLeadingEmpty(kept)| && 0 <= k < |DropLeadingEmpty(kept)[i]| ==>
      IsWordChar(u, DropLeadingEmpty(kept)[i][k])
  {
    var ts := DropLeadingEmpty(kept);
    forall i | 0 <= i < |ts| ensures ts[i] != [] && ts[i] !in stopWords {
      assert ts[i] == kept[i + |kept| - |ts|];
    }
  }

  /** The tokens are made of word characters, none is a stop word, and only
      the first can be empty. */
  lemma TokensShape(text: string, stopWords: set<string>, u: CharModel)
    ensures forall i :: 0 < i < |Tokens(text, stopWords, u)| ==> Tokens(text, stopWords, u)[i] != []
    ensures forall i :: 0 <= i < |Tokens(text, stopWords, u)| ==> Tokens(text, stopWords, u)[i] !in stopWords
    ensures forall i, k :: 0 <= i < |Tokens(text, stopWords, u)| && 0 <= k < |Tokens(text, stopWords, u)[i]| ==>
      IsWordChar(u, Tokens(text, stopWords, u)[i][k])
  {
    var lowered := FlatMap(text, u.toLower);
    var plain := StripMarks(u, FlatMap(lowered, u.decompose));
    var blanked := BlankPunctuation(u, plain);
    var pieces := SplitOnSpaceRuns(blanked);
    SplitOnSpaceRunsShape(blanked, c => u.isLetterOrDigit(c) || IsRegexSpace(c));
    var kept := DropStopWords(pieces, stopWords);
    assert kept == Tokens(text, stopWords, u);
    forall i, k | 0 <= i < |kept| && 0 <= k < |kept[i]|
      ensures IsWordChar(u, kept[i][k])
    {
      assert kept[i] in pieces;
      var j :| 0 <= j < |pieces| && pieces[j] == kept[i];
    }
    forall i | 0 < i < |kept| ensures kept[i] != [] {
      if kept[i] == [] {
        KeptEmptyIsFirst(pieces, stopWords, i);
      }
    }
  }

  /** Only the first piece of a split can be empty; dropping stop words
      keeps that so: an empty word after the first would be a piece after the
      first one. */
  lemma {:induction false} KeptEmptyIsFirst(ws: seq<string>, stopWords: set<string>, i: nat)
    requires forall j :: 0 < j < |ws| ==> ws[j] != []
    requires i < |DropStopWords(ws, stopWords)|
    requires 0 < i
    ensures DropStopWords(ws, stopWords)[i] != []
  {
    var r := DropStopWords(ws, stopWords);
    var tail := DropStopWords(ws[1..], stopWords);
    assert r == (if ws[0] in stopWords then [] else [ws[0]]) + tail;
    var w := r[i];
    assert w in tail;
    assert w in ws[1..];
  }

  /** Every character of every piece satisfies `ok` and is not whitespace. */
  ghost predicate PiecesOver(ws: seq<string>, ok: char -> bool) {
    forall i, k :: 0 <= i < |ws| && 0 <= k < |ws[i]| ==> ok(ws[i][k]) && !IsRegexSpace(ws[i][k])
  }

  /** The pieces of `s.split("\\s+")` hold only characters that satisfy
      whatever every character of `s` satisfies. */
  lemma {:induction false} SplitOnSpaceRunsShape(s: string, ok: char -> bool)
    requires forall k :: 0 <= k < |s| ==> ok(s[k])
    ensures PiecesOver(SplitOnSpaceRuns(s), ok)
  {
    var ws := SplitOnSpaceRuns(s);
    if HasRegexSpace(s) {
      var raw := SpaceRunPieces(s);
      SpaceRunPiecesShape(s, ok);
      assert ws == DropTrailingEmpty(raw);
      assert ws == raw[..|ws|];
      forall i, k | 0 <= i < |ws| && 0 <= k < |ws[i]|
        ensures ok(ws[i][k]) && !IsRegexSpace(ws[i][k])
      {
        assert ws[i] == raw[i];
      }
    } else {
      assert ws == [s];
    }
  }

  lemma {:induction false} SpaceRunPiecesShape(s: string, ok: char -> bool)
    requires forall k :: 0 <= k < |s| ==> ok(s[k])
    ensures PiecesOver(SpaceRunPieces(s), ok)
    decreases |s|
  {
    if s != [] {
      var r := SpaceRunPieces(s);
      if IsRegexSpace(s[0]) {
        var d := DropRegexSpaces(s[1..]);
        SpaceRunPiecesShape(d, ok);
        assert r == [[]] + SpaceRunPieces(d);
      } else {
        SpaceRunPiecesShape(s[1..], ok);
        var rest := SpaceRunPieces(s[1..]);
        assert r == [[s[0]] + rest[0]] + rest[1..];
        forall i, k | 0 <= i < |r| && 0 <= k < |r[i]|
          ensures ok(r[i][k]) && !IsRegexSpace(r[i][k])
        {
          if i == 0 && k > 0 {
            assert r[i][k] == rest[0][k - 1];
          }
        }
      }
    }
  }

  /** Trimming the joined tokens removes exactly the space that a leading
      empty token contributes. */
  lemma {:induction false} TrimJoin(kept: seq<string>, u: CharModel)
    requires WellFormed(u)
    requires forall i :: 0 < i < |kept| ==> kept[i] != []
    requires forall i, k :: 0 <= i < |kept| && 0 <= k < |kept[i]| ==> IsWordChar(u, kept[i][k])
    ensures Trim(Join(kept)) == Join(DropLeadingEmpty(kept))
  {
    var ts := DropLeadingEmpty(kept);
    if ts != [] {
      if kept[0] == [] {
        JoinLeadingEmpty(kept);
      }
      JoinShape(ts, c => IsWordChar(u, c));
      TrimTrimmed(Join(ts));
    }
  }

  /** Joining non-empty words made of word characters, none a stop word,
      gives a canonical text. */
  lemma {:induction false} CanonicalJoin(ts: seq<string>, stopWords: set<string>, u: CharModel)
    requires WellFormed(u)
    requires forall i :: 0 <= i < |ts| ==> ts[i] != [] && ts[i] !in stopWords
    requires forall i, k :: 0 <= i < |ts| && 0 <= k < |ts[i]| ==> IsWordChar(u, ts[i][k])
    ensures IsCanonical(Join(ts), stopWords, u)
  {
    if ts != [] {
      JoinShape(ts, c => IsWordChar(u, c));
      WordsHaveNoSpace(ts, u);
      SplitJoin(ts);
    }
  }

  // ---------------------------------------------------------------------------
  // Idempotence

  /** Canonicalizing a canonical text changes nothing, provided its
      characters are already lower-case, decomposed and free of marks. */
  lemma {:induction false} CanonicalizeIdempotent(text: string, stopWords: set<string>, u: CharModel)
    requires WellFormed(u)
    requires forall c :: c in Canonicalize(text, stopWords, u) ==> IsStable(u, c)
    ensures Canonicalize(Canonicalize(text, stopWords, u), stopWords, u) == Canonicalize(text, stopWords, u)
  {
    var r := Canonicalize(text, stopWords, u);
    CanonicalizeIsCanonical(text, stopWords, u);
    if r != [] {
      TokensOfCanonical(r, stopWords, u);
      TrimTrimmed(r);
    }
  }

  /** The tokens of a canonical text of stable characters are its words. */
  lemma {:induction false} TokensOfCanonical(r: string, stopWords: set<string>, u: CharModel)
    requires r != [] && IsCanonical(r, stopWords, u)
    requires forall c :: c in r ==> IsStable(u, c)
    ensures Tokens(r, stopWords, u) == SplitOnSpace(r)
  {
    assert forall i :: 0 <= i < |r| ==> IsStable(u, r[i]);
    assert FlatMap(r, u.toLower) == r;
    assert FlatMap(r, u.decompose) == r;
    assert StripMarks(u, r) == r;
    assert BlankPunctuation(u, r) == r;
    SplitOnSpaceRunsOfCanonical(r, stopWords, u);
    var ws := SplitOnSpace(r);
    assert DropStopWords(ws, stopWords) == ws;
  }

  /** On a canonical text, splitting on whitespace runs and splitting on
      single spaces agree. */
  lemma {:induction false} SplitOnSpaceRunsOfCanonical(r: string, stopWords: set<string>, u: CharModel)
    requires IsCanonical(r, stopWords, u)
    ensures SplitOnSpaceRuns(r) == SplitOnSpace(r)
  {
    assert forall k :: 0 <= k < |r| && IsRegexSpace(r[k]) ==> r[k] == ' ';
    RunPiecesAreSpacePieces(r);
    if HasRegexSpace(r) {
      var k :| 0 <= k < |r| && IsRegexSpace(r[k]);
      assert r[k] == ' ';
    } else {
      assert ' ' !in r;
    }
  }

  lemma {:induction false} RunPiecesAreSpacePieces(s: string)
    requires forall k :: 0 <= k < |s| && IsRegexSpace(s[k]) ==> s[k] == ' '
    requires forall k :: 0 <= k < |s| - 1 && s[k] == ' ' ==> s[k + 1] != ' '
    ensures SpaceRunPieces(s) == SpacePieces(s)
    decreases |s|
  {
    if s != [] {
      RunPiecesAreSpacePieces(s[1..]);
      if IsRegexSpace(s[0]) {
        assert s[1..] == [] || !IsRegexSpace(s[1]);
        assert DropRegexSpaces(s[1..]) == s[1..];
      }
    }
  }
}
