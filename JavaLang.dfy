/** The parts of java.lang the duplicate finder relies on: 32-bit ints, the
    exceptions it can raise, and the String operations split, trim and join,
    written out with Java's own edge cases. */
module JavaLang {

  /** Java's `int`. */
  newtype int32 = x: int | -0x8000_0000 <= x < 0x8000_0000

  /** Integer.MAX_VALUE */
  const INT_MAX: int32 := 0x7fff_ffff

  /** `Math.min`: the smaller of the two. */
  function Min(a: int32, b: int32): (r: int32)
    ensures r <= a && r <= b
    ensures r == a || r == b
  {
    if a <= b then a else b
  }

  /** A Java reference that may be null. */
  datatype Option<T> = None | Some(value: T)

  /** The exceptions the core can raise. */
  datatype Error =
    | IllegalArgument   // IllegalArgumentException thrown by buildShingles
    | IndexOutOfBounds  // ArrayIndexOutOfBoundsException from reading past an array's end

  datatype Result<T> = Success(value: T) | Failure(error: Error)

  datatype Outcome = Pass | Fail(error: Error)

  /** The class `\s` of java.util.regex (without UNICODE_CHARACTER_CLASS): [ \t\n\x0B\f\r]. */
  predicate IsRegexSpace(c: char) {
    c == ' ' || c == '\t' || c == '\n' || c == '\r' || c as int == 0x0B || c as int == 0x0C
  }

  predicate HasRegexSpace(s: string) {
    exists i :: 0 <= i < |s| && IsRegexSpace(s[i])
  }

  predicate NoSpaceIn(w: string) {
    forall i :: 0 <= i < |w| ==> w[i] != ' '
  }

  /** The pieces of `s` between single ' ' separators: one more piece than separators. */
  function SpacePieces(s: string): (r: seq<string>)
    ensures |r| >= 1
    ensures forall i :: 0 <= i < |r| ==> NoSpaceIn(r[i])
  {
    if s == [] then [[]]
    else
      var rest := SpacePieces(s[1..]);
      if s[0] == ' ' then [[]] + rest else [[s[0]] + rest[0]] + rest[1..]
  }

  /** Drops the regex whitespace at the front of `s`. */
  function DropRegexSpaces(s: string): (r: string)
    ensures |r| <= |s| && r == s[|s| - |r|..]
    ensures r == [] || !IsRegexSpace(r[0])
  {
    if s != [] && IsRegexSpace(s[0]) then DropRegexSpaces(s[1..]) else s
  }

  /** The pieces of `s` between maximal runs of regex whitespace; a run at the
      start gives an empty first piece and a run at the end an empty last one. */
  function SpaceRunPieces(s: string): (r: seq<string>)
    ensures |r| >= 1
    ensures forall i, k :: 0 <= i < |r| && 0 <= k < |r[i]| ==> !IsRegexSpace(r[i][k])
    ensures forall i :: 0 < i < |r| - 1 ==> r[i] != []
    ensures s != [] && !IsRegexSpace(s[0]) ==> r[0] != []
    decreases |s|
  {
    if s == [] then [[]]
    else if IsRegexSpace(s[0]) then [[]] + SpaceRunPieces(DropRegexSpaces(s[1..]))
    else
      var rest := SpaceRunPieces(s[1..]);
      [[s[0]] + rest[0]] + rest[1..]
  }

  /** Removes the empty strings at the end of `ps`, as String.split does with limit 0. */
  function DropTrailingEmpty(ps: seq<string>): (r: seq<string>)
    ensures |r| <= |ps| && r == ps[..|r|]
    ensures r != [] ==> r[|r| - 1] != []
    ensures forall j :: |r| <= j < |ps| ==> ps[j] == []
  {
    if ps != [] && ps[|ps| - 1] == [] then DropTrailingEmpty(ps[..|ps| - 1]) else ps
  }

  /** `s.split(" ")`: when no separator occurs the result is `[s]`, even for the
      empty string; otherwise the pieces without the trailing empty ones. */
  function SplitOnSpace(s: string): (r: seq<string>)
    ensures forall i :: 0 <= i < |r| ==> NoSpaceIn(r[i])
    ensures ' ' in s && r != [] ==> r[|r| - 1] != []
  {
    if ' ' in s then DropTrailingEmpty(SpacePieces(s)) else [s]
  }

  /** `s` with every maximal run of regex whitespace replaced by one ' '. */
  function Squeeze(s: string): (r: string)
    ensures |r| <= |s|
    ensures forall k :: 0 <= k < |r| ==> r[k] == ' ' || !IsRegexSpace(r[k])
    ensures forall k :: 0 <= k < |r| - 1 && r[k] == ' ' ==> r[k + 1] != ' '
    decreases |s|
  {
    if s == [] then []
    else if IsRegexSpace(s[0]) then " " + Squeeze(DropRegexSpaces(s[1..]))
    else [s[0]] + Squeeze(s[1..])
  }

  /** Squeezing keeps every character that is not whitespace, in order. */
  lemma {:induction false} SqueezeUnspaced(s: string)
    ensures Unspaced(Squeeze(s)) == Unspaced(s)
    decreases |s|
  {
    if s != [] {
      if IsRegexSpace(s[0]) {
        var d := DropRegexSpaces(s[1..]);
        SqueezeUnspaced(d);
        UnspacedDropSpaces(s[1..]);
        assert Squeeze(s) == " " + Squeeze(d);
        assert (" " + Squeeze(d))[1..] == Squeeze(d);
      } else {
        SqueezeUnspaced(s[1..]);
        assert ([s[0]] + Squeeze(s[1..]))[1..] == Squeeze(s[1..]);
      }
    }
  }

  /** `s` without any regex whitespace. */
  function Unspaced(s: string): string
    decreases |s|
  {
    if s == [] then [] else (if IsRegexSpace(s[0]) then [] else [s[0]]) + Unspaced(s[1..])
  }

  lemma {:induction false} UnspacedDropSpaces(s: string)
    ensures Unspaced(DropRegexSpaces(s)) == Unspaced(s)
    decreases |s|
  {
    if s != [] && IsRegexSpace(s[0]) {
      UnspacedDropSpaces(s[1..]);
    }
  }

  /** `s.split("\\s+")`, with the same two rules. A leading run of whitespace
      yields a leading empty piece. */
  function SplitOnSpaceRuns(s: string): (r: seq<string>)
    ensures forall i, k :: 0 <= i < |r| && 0 <= k < |r[i]| ==> !IsRegexSpace(r[i][k])
    ensures forall i :: 0 < i < |r| ==> r[i] != []
  {
    if HasRegexSpace(s) then DropTrailingEmpty(SpaceRunPieces(s)) else [s]
  }

  /** `String.join(" ", ws)`, which is also `reduce((w1, w2) -> w1 + " " + w2).orElse("")`:
      the words left to right with one space between neighbours. */
  function Join(ws: seq<string>): (r: string)
    ensures |ws| >= 1 ==> |r| == TotalLength(ws) + |ws| - 1
    decreases |ws|
  {
    if |ws| == 0 then []
    else if |ws| == 1 then ws[0]
    else Join(ws[..|ws| - 1]) + " " + ws[|ws| - 1]
  }

  /** The number of characters in all the words together. */
  function TotalLength(ws: seq<string>): nat
    decreases |ws|
  {
    if ws == [] then 0 else TotalLength(ws[..|ws| - 1]) + |ws[|ws| - 1]|
  }

  /** How many characters up to U+0020 lead `s`. */
  function LeadingBlanks(s: string): (n: nat)
    ensures n <= |s|
    ensures forall k :: 0 <= k < n ==> s[k] <= ' '
    ensures n < |s| ==> ' ' < s[n]
  {
    if s != [] && s[0] <= ' ' then 1 + LeadingBlanks(s[1..]) else 0
  }

  /** How many characters up to U+0020 end `s`. */
  function TrailingBlanks(s: string): (n: nat)
    ensures n <= |s|
    ensures forall k :: |s| - n <= k < |s| ==> s[k] <= ' '
    ensures n < |s| ==> ' ' < s[|s| - n - 1]
  {
    if s != [] && s[|s| - 1] <= ' ' then 1 + TrailingBlanks(s[..|s| - 1]) else 0
  }

  /** `String.trim()`: skips the characters up to U+0020 from the front, then
      from the back of what is left, and returns the substring between. */
  function Trim(s: string): (r: string)
    ensures r == [] || (' ' < r[0] && ' ' < r[|r| - 1])
    ensures LeadingBlanks(s) + |r| <= |s|
    ensures r == s[LeadingBlanks(s)..LeadingBlanks(s) + |r|]
    ensures forall k :: LeadingBlanks(s) + |r| <= k < |s| ==> s[k] <= ' '
  {
    var st := LeadingBlanks(s);
    var len := |s| - TrailingBlanks(s[st..]);
    s[st..len]
  }

  // ---------------------------------------------------------------------------
  // Facts about the String operations

  lemma {:induction false} JoinAppend(a: seq<string>, b: seq<string>)
    requires |a| >= 1 && |b| >= 1
    ensures Join(a + b) == Join(a) + " " + Join(b)
    decreases |b|
  {
    if |b| == 1 {
      assert (a + b)[..|a + b| - 1] == a;
    } else {
      var b' := b[..|b| - 1];
      assert (a + b)[..|a + b| - 1] == a + b';
      JoinAppend(a, b');
    }
  }

  /** Splitting on single spaces undoes `Join`, provided every word is
      non-empty and free of spaces. */
  lemma {:induction false} SplitJoin(ws: seq<string>)
    requires |ws| >= 1
    requires forall i :: 0 <= i < |ws| ==> ws[i] != [] && NoSpaceIn(ws[i])
    ensures SplitOnSpace(Join(ws)) == ws
  {
    SpacePiecesJoin(ws);
    if |ws| == 1 {
      NoSpacePieces(ws[0]);
    } else {
      var j := Join(ws);
      var pre := Join(ws[..|ws| - 1]);
      assert j[|pre|] == ' ';
    }
  }

  lemma {:induction false} SpacePiecesJoin(ws: seq<string>)
    requires |ws| >= 1
    requires forall i :: 0 <= i < |ws| ==> NoSpaceIn(ws[i])
    ensures SpacePieces(Join(ws)) == ws
    decreases |ws|
  {
    if |ws| == 1 {
      NoSpacePieces(ws[0]);
    } else {
      var pre := ws[..|ws| - 1];
      SpacePiecesJoin(pre);
      NoSpacePieces(ws[|ws| - 1]);
      SpacePiecesAppend(Join(pre), ws[|ws| - 1]);
      assert Join(pre) + " " + ws[|ws| - 1] == Join(pre) + [' '] + ws[|ws| - 1];
    }
  }

  lemma {:induction false} NoSpacePieces(w: string)
    requires NoSpaceIn(w)
    ensures SpacePieces(w) == [w]
    decreases |w|
  {
    if w != [] {
      NoSpacePieces(w[1..]);
      assert [w[0]] + w[1..] == w;
    }
  }

  lemma {:induction false} SpacePiecesAppend(a: string, b: string)
    ensures SpacePieces(a + [' '] + b) == SpacePieces(a) + SpacePieces(b)
    decreases |a|
  {
    if a == [] {
      assert a + [' '] + b == [' '] + b;
      assert ([' '] + b)[1..] == b;
    } else {
      assert (a + [' '] + b)[1..] == a[1..] + [' '] + b;
      SpacePiecesAppend(a[1..], b);
    }
  }

  /** Joining the pieces between single spaces gives back the text. */
  lemma {:induction false} JoinSpacePieces(s: string)
    ensures Join(SpacePieces(s)) == s
    decreases |s|
  {
    if s != [] {
      JoinSpacePieces(s[1..]);
      if s[0] == ' ' {
        JoinSpacePiecesSpace(s);
      } else {
        JoinSpacePiecesChar(s);
      }
    }
  }

  /** The step of `JoinSpacePieces` for a text that starts with a space. */
  lemma {:induction false} JoinSpacePiecesSpace(s: string)
    requires s != [] && s[0] == ' '
    requires Join(SpacePieces(s[1..])) == s[1..]
    ensures Join(SpacePieces(s)) == s
  {
    var rest := SpacePieces(s[1..]);
    assert SpacePieces(s) == [[]] + rest;
    JoinCons([], rest);
    assert s == " " + s[1..];
  }

  /** The step of `JoinSpacePieces` for a text that starts with another
      character. */
  lemma {:induction false} JoinSpacePiecesChar(s: string)
    requires s != [] && s[0] != ' '
    requires Join(SpacePieces(s[1..])) == s[1..]
    ensures Join(SpacePieces(s)) == s
  {
    var rest := SpacePieces(s[1..]);
    var first := [s[0]] + rest[0];
    assert s == [s[0]] + s[1..];
    if |rest| == 1 {
      assert SpacePieces(s) == [first];
    } else {
      var tail := rest[1..];
      assert SpacePieces(s) == [first] + tail;
      assert rest == [rest[0]] + tail;
      calc {
        Join(SpacePieces(s));
        { JoinCons(first, tail); }
        first + " " + Join(tail);
        [s[0]] + (rest[0] + " " + Join(tail));
        { JoinCons(rest[0], tail); }
        [s[0]] + Join(rest);
      }
    }
  }

  /** Joining puts one space between the first word and the rest. */
  lemma {:induction false} JoinCons(w: string, ws: seq<string>)
    requires |ws| >= 1
    ensures Join([w] + ws) == w + " " + Join(ws)
  {
    JoinAppend([w], ws);
  }

  /** Leaving out trailing empty words only drops trailing spaces from the
      joined text. */
  lemma {:induction false} JoinTrailingEmpty(ps: seq<string>, n: nat)
    requires n <= |ps|
    requires forall j :: n <= j < |ps| ==> ps[j] == []
    ensures |Join(ps[..n])| <= |Join(ps)|
    ensures Join(ps[..n]) == Join(ps)[..|Join(ps[..n])|]
    ensures forall k :: |Join(ps[..n])| <= k < |Join(ps)| ==> Join(ps)[k] == ' '
    decreases |ps|
  {
    if n < |ps| {
      var q := ps[..|ps| - 1];
      assert q[..n] == ps[..n];
      JoinTrailingEmpty(q, n);
      if |ps| >= 2 {
        assert Join(ps) == Join(q) + " ";
      }
    } else {
      assert ps[..n] == ps;
    }
  }

  /** `s.split(" ")` re-joined with single spaces is `s` without its
      trailing spaces. */
  lemma {:induction false} SplitOnSpaceJoin(s: string)
    ensures |Join(SplitOnSpace(s))| <= |s|
    ensures Join(SplitOnSpace(s)) == s[..|Join(SplitOnSpace(s))|]
    ensures forall k :: |Join(SplitOnSpace(s))| <= k < |s| ==> s[k] == ' '
  {
    if ' ' in s {
      var ps := SpacePieces(s);
      JoinSpacePieces(s);
      JoinTrailingEmpty(ps, |DropTrailingEmpty(ps)|);
    }
  }

  /** The pieces between maximal whitespace runs are the pieces between
      single spaces once every run is squeezed to one space. */
  lemma {:induction false} SpaceRunPiecesSqueeze(s: string)
    ensures SpaceRunPieces(s) == SpacePieces(Squeeze(s))
    decreases |s|
  {
    if s != [] {
      if IsRegexSpace(s[0]) {
        var d := DropRegexSpaces(s[1..]);
        SpaceRunPiecesSqueeze(d);
        assert Squeeze(s) == " " + Squeeze(d);
        assert (" " + Squeeze(d))[1..] == Squeeze(d);
      } else {
        SpaceRunPiecesSqueeze(s[1..]);
        assert Squeeze(s) == [s[0]] + Squeeze(s[1..]);
        assert ([s[0]] + Squeeze(s[1..]))[1..] == Squeeze(s[1..]);
      }
    }
  }

  /** The squeezed text holds a space exactly when the text holds whitespace. */
  lemma {:induction false} SqueezeHasSpace(s: string)
    ensures ' ' in Squeeze(s) <==> HasRegexSpace(s)
    decreases |s|
  {
    if s != [] && !IsRegexSpace(s[0]) {
      SqueezeHasSpace(s[1..]);
      assert Squeeze(s) == [s[0]] + Squeeze(s[1..]);
      if HasRegexSpace(s[1..]) {
        var i :| 0 <= i < |s[1..]| && IsRegexSpace(s[1..][i]);
        assert IsRegexSpace(s[i + 1]);
      }
      if HasRegexSpace(s) {
        var i :| 0 <= i < |s| && IsRegexSpace(s[i]);
        assert s[1..][i - 1] == s[i];
      }
    } else if s != [] {
      assert IsRegexSpace(s[0]);
    }
  }

  /** `s.split("\\s+")` is `split(" ")` of the squeezed text, for every `s`. */
  lemma SplitOnSpaceRunsSqueeze(s: string)
    ensures SplitOnSpaceRuns(s) == SplitOnSpace(Squeeze(s))
  {
    SqueezeHasSpace(s);
    SpaceRunPiecesSqueeze(s);
    if !HasRegexSpace(s) {
      SqueezeNoSpace(s);
    }
  }

  /** A text without whitespace squeezes to itself. */
  lemma {:induction false} SqueezeNoSpace(s: string)
    requires !HasRegexSpace(s)
    ensures Squeeze(s) == s
    decreases |s|
  {
    if s != [] {
      assert !IsRegexSpace(s[0]);
      assert !HasRegexSpace(s[1..]);
      SqueezeNoSpace(s[1..]);
    }
  }

  /** The pieces between whitespace runs re-join to the squeezed text. */
  lemma SpaceRunPiecesJoin(s: string)
    ensures Join(SpaceRunPieces(s)) == Squeeze(s)
  {
    SpaceRunPiecesSqueeze(s);
    JoinSpacePieces(Squeeze(s));
  }

  /** A leading empty word contributes one leading space. */
  lemma JoinLeadingEmpty(ws: seq<string>)
    requires |ws| >= 2 && ws[0] == []
    ensures Join(ws) == " " + Join(ws[1..])
  {
    assert ws == [ws[0]] + ws[1..];
    JoinAppend([ws[0]], ws[1..]);
  }

  /** A text whose ends are not whitespace is its own trim, also after one
      leading space. */
  lemma TrimTrimmed(j: string)
    requires j != [] && ' ' < j[0] && ' ' < j[|j| - 1]
    ensures Trim(j) == j && Trim(" " + j) == j
  {
    assert LeadingBlanks(j) == 0 && TrailingBlanks(j) == 0;
    assert (" " + j)[1..] == j;
  }

  /** Every character of a joined string is a space or a character of one of
      the words; inside the words no two spaces meet and the ends are the
      ends of the first and last word. */
  lemma {:induction false} JoinShape(ws: seq<string>, ok: char -> bool)
    requires |ws| >= 1
    requires forall i :: 0 <= i < |ws| ==> ws[i] != [] && NoSpaceIn(ws[i])
    requires forall i, k :: 0 <= i < |ws| && 0 <= k < |ws[i]| ==> ok(ws[i][k])
    ensures var j := Join(ws);
      && |j| >= 1
      && j[0] == ws[0][0]
      && j[|j| - 1] == ws[|ws| - 1][|ws[|ws| - 1]| - 1]
      && (forall k :: 0 <= k < |j| ==> j[k] == ' ' || ok(j[k]))
      && (forall k :: 0 <= k < |j| - 1 && j[k] == ' ' ==> j[k + 1] != ' ')
    decreases |ws|
  {
    if |ws| > 1 {
      var pre := ws[..|ws| - 1];
      JoinShape(pre, ok);
      var last := ws[|ws| - 1];
      var p := Join(pre);
      var j := Join(ws);
      assert j == p + " " + last;
      forall k | 0 <= k < |j| ensures j[k] == ' ' || ok(j[k]) {
        if k < |p| {
          assert j[k] == p[k];
        } else if k > |p| {
          assert j[k] == last[k - |p| - 1];
        }
      }
      forall k | 0 <= k < |j| - 1 && j[k] == ' ' ensures j[k + 1] != ' ' {
        if k < |p| - 1 {
          assert j[k] == p[k] && j[k + 1] == p[k + 1];
        } else if k == |p| {
          assert j[k + 1] == last[0];
        }
      }
    }
  }
}
