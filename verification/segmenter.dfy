/**
 The quote segmenter of the shorts video generator (`divide_quote_into_parts`).

 The source first splits the quote with the regular expression
 `(?<=[.?!...])\s`: every whitespace character whose predecessor is one of
 `.`, `?`, `!` is a cut point; the whitespace is consumed and the punctuation
 stays at the end of the piece before it. It then appends to every piece but
 the last the FIRST punctuation character found in that piece.

 `RawSplit` models the split, `Separators` the whitespace it consumes,
 `FirstPunct` the search, and `Divide` the whole function.
 */
module Segmenter {

  datatype Option<T> = None | Some(value: T)

  datatype Result<T, E> = Success(value: T) | Failure(error: E)

  /** The failure of `re.search(...).group()` when the searched piece holds no
      sentence punctuation (the search yields None and `.group()` raises). */
  datatype SegmentError = NoPunctuation(piece: string)

  /** The character class `[.?!...]`: the repeated dots add nothing. */
  predicate IsPunct(c: char) {
    c == '.' || c == '?' || c == '!'
  }

  /** The class `\s` of a Python `str` pattern: the characters for which
      `str.isspace()` holds. */
  predicate IsSpace(c: char) {
    || ('\t' <= c <= '\r')
    || ('\U{1C}' <= c <= ' ')
    || c == '\U{85}'
    || c == '\U{A0}'
    || c == '\U{1680}'
    || ('\U{2000}' <= c <= '\U{200A}')
    || c == '\U{2028}'
    || c == '\U{2029}'
    || c == '\U{202F}'
    || c == '\U{205F}'
    || c == '\U{3000}'
  }

  /** Index `k` is where the pattern matches: a whitespace character at
      `k >= 1` whose predecessor is sentence punctuation. */
  predicate IsSplitPoint(s: string, k: int) {
    1 <= k < |s| && IsSpace(s[k]) && IsPunct(s[k - 1])
  }

  /** The split points at or after index `i`. */
  ghost function SplitPointsFrom(s: string, i: int): set<int> {
    set k | i <= k < |s| && IsSplitPoint(s, k)
  }

  /** All positions at which the source cuts the quote. */
  ghost function SplitPoints(s: string): set<int> {
    SplitPointsFrom(s, 0)
  }

  /** `last` is what follows the final split point of `s`: the character
      just before it is a split point and no split point lies inside it. */
  ghost predicate CutAtFinal(s: string, last: string) {
    && |last| < |s|
    && |s| - |last| - 1 in SplitPoints(s)
    && forall j :: j in SplitPoints(s) ==> j < |s| - |last|
  }

  predicate EndsInPunct(p: string) {
    |p| > 0 && IsPunct(p[|p| - 1])
  }

  function Last<T>(xs: seq<T>): T
    requires |xs| > 0
  {
    xs[|xs| - 1]
  }

  /** The leftmost split point at or after `from`, as the regex engine finds it. */
  function FindSplit(s: string, from: nat): (r: Option<nat>)
    decreases |s| - from
    ensures r.Some? ==> from <= r.value && IsSplitPoint(s, r.value)
    ensures forall j :: from <= j && (r.None? || j < r.value) ==> !IsSplitPoint(s, j)
  {
    if from >= |s| then None
    else if IsSplitPoint(s, from) then Some(from)
    else FindSplit(s, from + 1)
  }

  /** `re.split(r'(?<=[.?!...])\s', s)`: the pieces between the split points. */
  function RawSplit(s: string): (pieces: seq<string>)
    decreases |s|
    ensures |pieces| >= 1
    ensures forall i :: 0 <= i < |pieces| - 1 ==> EndsInPunct(pieces[i])
  {
    match FindSplit(s, 0)
    case None => [s]
    case Some(k) => [s[..k]] + RawSplit(s[k + 1..])
  }

  /** The whitespace characters `re.split` consumes, in reading order. */
  function Separators(s: string): (seps: string)
    decreases |s|
    ensures forall i :: 0 <= i < |seps| ==> IsSpace(seps[i])
  {
    match FindSplit(s, 0)
    case None => ""
    case Some(k) => [s[k]] + Separators(s[k + 1..])
  }

  /** The index of the leftmost punctuation character at or after `from`. */
  function FindPunct(p: string, from: nat): (r: Option<nat>)
    decreases |p| - from
    ensures r.Some? ==> from <= r.value < |p| && IsPunct(p[r.value])
    ensures forall j :: from <= j < |p| && (r.None? || j < r.value) ==> !IsPunct(p[j])
  {
    if from >= |p| then None
    else if IsPunct(p[from]) then Some(from)
    else FindPunct(p, from + 1)
  }

  /** `re.search(r'[.?!...]', p)`, reduced to the matched character. */
  function FirstPunct(p: string): (r: Option<char>)
    ensures r.None? <==> forall j :: 0 <= j < |p| ==> !IsPunct(p[j])
    ensures r.Some? ==> exists j :: 0 <= j < |p| && p[j] == r.value && IsPunct(p[j])
                                    && forall i :: 0 <= i < j ==> !IsPunct(p[i])
  {
    match FindPunct(p, 0)
    case None => None
    case Some(j) => Some(p[j])
  }

  /** The loop of the source: every piece but the last gets the first
      punctuation character it contains appended; a piece without one makes
      the search fail, and the first such piece aborts the loop. */
  function AttachPunct(pieces: seq<string>): (r: Result<seq<string>, SegmentError>)
    decreases |pieces|
    ensures r.Success? <==> forall i :: 0 <= i < |pieces| - 1 ==> FirstPunct(pieces[i]).Some?
    ensures r.Failure? ==> exists i :: 0 <= i < |pieces| - 1 && r.error == NoPunctuation(pieces[i])
                                        && FirstPunct(pieces[i]).None?
    ensures r.Success? ==>
              && |r.value| == |pieces|
              && (forall i :: 0 <= i < |pieces| - 1 ==> r.value[i] == pieces[i] + [FirstPunct(pieces[i]).value])
              && (|pieces| > 0 ==> Last(r.value) == Last(pieces))
  {
    if |pieces| <= 1 then Success(pieces)
    else
      match FirstPunct(pieces[0])
      case None => Failure(NoPunctuation(pieces[0]))
      case Some(c) =>
        var tail := pieces[1..];
        assert forall i :: 0 <= i < |tail| ==> tail[i] == pieces[i + 1];
        match AttachPunct(tail)
        case Failure(e) => Failure(e)
        case Success(rest) => Success([pieces[0] + [c]] + rest)
  }

  /** `divide_quote_into_parts(quote)`, with the search failure made
      explicit. It never happens: the lookbehind leaves punctuation at the end
      of every non-final piece, so the search on line 69 always finds some. */
  function Divide(quote: string): (r: Result<seq<string>, SegmentError>)
    ensures r.Success?
  {
    var pieces := RawSplit(quote);
    PiecesPunctuated(pieces);
    AttachPunct(pieces)
  }

  /** Removes the character the source appended to each non-final part. */
  function Untag(parts: seq<string>): seq<string> {
    seq(|parts|, i requires 0 <= i < |parts| =>
      if i < |parts| - 1 && |parts[i]| > 0 then parts[i][..|parts[i]| - 1] else parts[i])
  }

  /** Puts the consumed separators back between the pieces. */
  function Weave(pieces: seq<string>, seps: string): string
    requires |pieces| == |seps| + 1
    decreases |seps|
  {
    if |seps| == 0 then pieces[0]
    else pieces[0] + [seps[0]] + Weave(pieces[1..], seps[1..])
  }

  /** Python's `sep.join(pieces)`. */
  function Join(pieces: seq<string>, sep: string): string
    decreases |pieces|
  {
    if |pieces| == 0 then ""
    else if |pieces| == 1 then pieces[0]
    else pieces[0] + sep + Join(pieces[1..], sep)
  }

  // ---------------------------------------------------------------------
  // Split points of a quote versus those of the rest after its first cut
  // ---------------------------------------------------------------------

  lemma PeelSplitPoint(s: string, i: int)
    requires 0 <= i
    ensures |SplitPointsFrom(s, i)| ==
              (if IsSplitPoint(s, i) then 1 else 0) + |SplitPointsFrom(s, i + 1)|
  {
    if IsSplitPoint(s, i) {
      assert SplitPointsFrom(s, i) == {i} + SplitPointsFrom(s, i + 1);
    } else {
      assert SplitPointsFrom(s, i) == SplitPointsFrom(s, i + 1);
    }
  }

  lemma FirstSplitIsSplitPoint(s: string)
    ensures FindSplit(s, 0).Some? ==> FindSplit(s, 0).value in SplitPoints(s)
  {
  }

  lemma NoSplitPoints(s: string)
    requires FindSplit(s, 0).None?
    ensures SplitPoints(s) == {}
  {
  }

  /** A whitespace character is never punctuation, so the character right
      after a cut is never a cut itself: from the cut on, the quote and the
      rest after the cut have the same number of split points. */
  lemma {:induction false} SplitPointsOfRestCount(s: string, k: nat, j: nat)
    requires FindSplit(s, 0) == Some(k)
    requires j <= |s| - k - 1
    ensures |SplitPointsFrom(s, k + 1 + j)| == |SplitPointsFrom(s[k + 1..], j)|
    decreases |s| - j
  {
    var t := s[k + 1..];
    if j == |t| {
      assert SplitPointsFrom(s, k + 1 + j) == {};
      assert SplitPointsFrom(t, j) == {};
    } else {
      PeelSplitPoint(s, k + 1 + j);
      PeelSplitPoint(t, j);
      SplitPointsOfRestCount(s, k, j + 1);
      assert t[j] == s[k + 1 + j];
      if j == 0 {
        assert !IsPunct(s[k]);
      } else {
        assert t[j - 1] == s[k + j];
      }
    }
  }

  lemma SplitPointsAtFirst(s: string, k: nat)
    requires FindSplit(s, 0) == Some(k)
    ensures |SplitPoints(s)| == 1 + |SplitPointsFrom(s, k + 1)|
  {
    forall j | j in SplitPoints(s) ensures j == k || j in SplitPointsFrom(s, k + 1) {
      assert IsSplitPoint(s, j);
    }
    assert SplitPoints(s) == {k} + SplitPointsFrom(s, k + 1);
  }

  lemma SplitPointsOfRest(s: string, k: nat, j: int)
    requires FindSplit(s, 0) == Some(k)
    requires IsSplitPoint(s[k + 1..], j)
    ensures IsSplitPoint(s, j + k + 1)
  {
    var t := s[k + 1..];
    assert t[j] == s[j + k + 1] && t[j - 1] == s[j + k];
  }

  lemma SplitPointInRest(s: string, k: nat, j: int)
    requires FindSplit(s, 0) == Some(k)
    requires IsSplitPoint(s, j) && j != k
    ensures j > k + 1 && IsSplitPoint(s[k + 1..], j - k - 1)
  {
    assert !IsPunct(s[k]);
    var t := s[k + 1..];
    assert t[j - k - 1] == s[j] && t[j - k - 2] == s[j - 1];
  }

  // ---------------------------------------------------------------------
  // Properties of the split
  // ---------------------------------------------------------------------

  /** The split yields one piece more than there are split points. */
  lemma {:induction false} RawSplitCount(s: string)
    ensures |RawSplit(s)| == |SplitPoints(s)| + 1
    decreases |s|
  {
    match FindSplit(s, 0)
    case None =>
      NoSplitPoints(s);
    case Some(k) =>
      var t := s[k + 1..];
      RawSplitCount(t);
      SplitPointsAtFirst(s, k);
      SplitPointsOfRestCount(s, k, 0);
  }

  /** Putting the consumed whitespace back between the pieces, in order,
      gives the quote back. */
  lemma {:induction false} RawSplitRebuild(s: string)
    ensures |Separators(s)| == |RawSplit(s)| - 1
    ensures Weave(RawSplit(s), Separators(s)) == s
    decreases |s|
  {
    match FindSplit(s, 0)
    case None =>
    case Some(k) =>
      var t := s[k + 1..];
      RawSplitRebuild(t);
      assert RawSplit(s)[1..] == RawSplit(t);
      assert Separators(s)[1..] == Separators(t);
      assert s == s[..k] + [s[k]] + t;
  }

  /** When every cut is at a plain space, joining the pieces with " "
      gives the quote back. */
  lemma {:induction false} RawSplitJoin(s: string)
    requires forall k :: IsSplitPoint(s, k) ==> s[k] == ' '
    ensures Join(RawSplit(s), " ") == s
    decreases |s|
  {
    match FindSplit(s, 0)
    case None =>
    case Some(k) =>
      var t := s[k + 1..];
      forall j | IsSplitPoint(t, j) ensures t[j] == ' ' {
        SplitPointsOfRest(s, k, j);
      }
      RawSplitJoin(t);
      assert RawSplit(s)[1..] == RawSplit(t);
      assert s == s[..k] + " " + t;
  }

  /** No piece contains punctuation directly followed by whitespace. */
  lemma {:induction false} RawPiecesUnsplittable(s: string)
    ensures forall i :: 0 <= i < |RawSplit(s)| ==> SplitPoints(RawSplit(s)[i]) == {}
    decreases |s|
  {
    match FindSplit(s, 0)
    case None =>
      NoSplitPoints(s);
    case Some(k) =>
      var t := s[k + 1..];
      RawPiecesUnsplittable(t);
      var head := s[..k];
      forall j | j in SplitPoints(head) ensures false {
        assert head[j] == s[j] && head[j - 1] == s[j - 1];
        assert IsSplitPoint(s, j);
      }
      forall i | 0 <= i < |RawSplit(s)| ensures SplitPoints(RawSplit(s)[i]) == {} {
        if i > 0 {
          assert RawSplit(s)[i] == RawSplit(t)[i - 1];
        }
      }
  }

  /** The last piece is a suffix of the quote. */
  lemma {:induction false} RawSplitLastSuffix(s: string)
    ensures var last := Last(RawSplit(s));
            |last| <= |s| && last == s[|s| - |last|..]
    decreases |s|
  {
    match FindSplit(s, 0)
    case None =>
    case Some(k) =>
      var t := s[k + 1..];
      RawSplitLastSuffix(t);
      assert Last(RawSplit(s)) == Last(RawSplit(t));
  }

  /** Every split point after the first one is a split point of the rest,
      shifted. */
  lemma LaterSplitPoints(s: string, k: nat)
    requires FindSplit(s, 0) == Some(k)
    ensures forall j :: j in SplitPoints(s) && j != k ==> j - k - 1 in SplitPoints(s[k + 1..])
  {
    forall j | j in SplitPoints(s) && j != k
      ensures j - k - 1 in SplitPoints(s[k + 1..])
    {
      SplitPointInRest(s, k, j);
    }
  }

  /** When the rest after the first cut has no split point, the first cut
      is the only one. */
  lemma OnlyCut(s: string, k: nat)
    requires FindSplit(s, 0) == Some(k)
    requires SplitPoints(s[k + 1..]) == {}
    ensures SplitPoints(s) == {k}
  {
    LaterSplitPoints(s, k);
  }

  /** When the rest after the first cut has a final split point `m`, the
      quote's final split point is `m` shifted past the cut. */
  lemma FinalCutOfRest(s: string, k: nat, t: string, m: int)
    requires FindSplit(s, 0) == Some(k) && t == s[k + 1..]
    requires m in SplitPoints(t)
    requires forall i :: i in SplitPoints(t) ==> i <= m
    ensures m + k + 1 in SplitPoints(s)
    ensures forall j :: j in SplitPoints(s) ==> j <= m + k + 1
  {
    SplitPointsOfRest(s, k, m);
    LaterSplitPoints(s, k);
  }

  /** The last piece of the quote is the last piece of the rest after the
      first cut. */
  lemma RawSplitUnfold(s: string, k: nat)
    requires FindSplit(s, 0) == Some(k)
    ensures Last(RawSplit(s)) == Last(RawSplit(s[k + 1..]))
  {
  }

  /** Base case: the rest after the first cut has no split point, so its
      whole text is the last piece. */
  lemma LastCutOnly(s: string, k: nat)
    requires FindSplit(s, 0) == Some(k)
    requires SplitPoints(s[k + 1..]) == {}
    ensures CutAtFinal(s, Last(RawSplit(s)))
  {
    var t := s[k + 1..];
    RawSplitSingle(t);
    RawSplitUnfold(s, k);
    OnlyCut(s, k);
  }

  /** Step: the final cut of the rest, shifted, is the final cut of the
      quote. */
  lemma LastCutStep(s: string, k: nat, last: string)
    requires FindSplit(s, 0) == Some(k)
    requires last == Last(RawSplit(s[k + 1..]))
    requires CutAtFinal(s[k + 1..], last)
    ensures CutAtFinal(s, Last(RawSplit(s)))
  {
    var t := s[k + 1..];
    RawSplitUnfold(s, k);
    FinalCutOfRest(s, k, t, |t| - |last| - 1);
  }

  /** The last piece starts right after the final split point. */
  lemma {:induction false} RawSplitLastCut(s: string)
    requires SplitPoints(s) != {}
    ensures CutAtFinal(s, Last(RawSplit(s)))
    decreases |s|
  {
    if FindSplit(s, 0).None? {
      NoSplitPoints(s);
    }
    var k := FindSplit(s, 0).value;
    var t := s[k + 1..];
    if SplitPoints(t) == {} {
      LastCutOnly(s, k);
    } else {
      RawSplitLastCut(t);
      LastCutStep(s, k, Last(RawSplit(t)));
    }
  }

  /** The quote comes back as its only piece exactly when it has no split
      point. */
  lemma RawSplitSingle(s: string)
    ensures SplitPoints(s) == {} <==> RawSplit(s) == [s]
  {
    FirstSplitIsSplitPoint(s);
    if SplitPoints(s) != {} {
      RawSplitCount(s);
    }
  }

  // ---------------------------------------------------------------------
  // Properties of divide_quote_into_parts
  // ---------------------------------------------------------------------

  /** A piece that ends in punctuation always contains some. */
  lemma PunctFound(p: string)
    requires EndsInPunct(p)
    ensures FirstPunct(p).Some?
  {
  }

  lemma PiecesPunctuated(pieces: seq<string>)
    requires forall i :: 0 <= i < |pieces| - 1 ==> EndsInPunct(pieces[i])
    ensures forall i :: 0 <= i < |pieces| - 1 ==> FirstPunct(pieces[i]).Some?
  {
    forall i | 0 <= i < |pieces| - 1 ensures FirstPunct(pieces[i]).Some? {
      PunctFound(pieces[i]);
    }
  }

  /** One part more than there are split points; never an empty list. */
  lemma DivideCount(quote: string)
    ensures |Divide(quote).value| == |SplitPoints(quote)| + 1
  {
    RawSplitCount(quote);
  }

  /** Each non-final part is its raw piece plus one character, the first
      punctuation of that piece; so it has at least two characters and ends
      in two punctuation characters. */
  lemma DivideNonFinalParts(quote: string)
    ensures var parts := Divide(quote).value;
            var pieces := RawSplit(quote);
            |parts| == |pieces| &&
            forall i :: 0 <= i < |parts| - 1 ==>
              && FirstPunct(pieces[i]).Some?
              && parts[i] == pieces[i] + [FirstPunct(pieces[i]).value]
              && |parts[i]| >= 2
              && IsPunct(parts[i][|parts[i]| - 1])
              && IsPunct(parts[i][|parts[i]| - 2])
  {
    var parts := Divide(quote).value;
    var pieces := RawSplit(quote);
    forall i | 0 <= i < |parts| - 1
      ensures IsPunct(parts[i][|parts[i]| - 1]) && IsPunct(parts[i][|parts[i]| - 2])
    {
      var j := FindPunct(pieces[i], 0).value;
      assert parts[i][|parts[i]| - 1] == pieces[i][j];
      assert parts[i][|parts[i]| - 2] == pieces[i][|pieces[i]| - 1];
    }
  }

  /** The last part is the text after the final split point, verbatim:
      nothing is appended to it, and it is empty when the quote ends in
      punctuation followed by one whitespace character. */
  lemma DivideLastPart(quote: string)
    ensures var last := Last(Divide(quote).value);
            && |last| <= |quote|
            && last == quote[|quote| - |last|..]
            && (SplitPoints(quote) == {} <==> last == quote)
            && (SplitPoints(quote) != {} ==> CutAtFinal(quote, last))
  {
    RawSplitLastSuffix(quote);
    RawSplitSingle(quote);
    if SplitPoints(quote) != {} {
      RawSplitLastCut(quote);
    }
  }

  lemma UntagGrown(parts: seq<string>, pieces: seq<string>)
    requires |parts| == |pieces|
    requires forall i :: 0 <= i < |parts| - 1 ==> |parts[i]| >= 1 && parts[i][..|parts[i]| - 1] == pieces[i]
    requires |parts| > 0 ==> Last(parts) == Last(pieces)
    ensures Untag(parts) == pieces
  {
  }

  /** Dropping the appended character from each non-final part gives back
      the raw pieces. */
  lemma DivideUntag(quote: string)
    ensures Untag(Divide(quote).value) == RawSplit(quote)
  {
    var pieces := RawSplit(quote);
    var parts := AttachPunct(pieces).value;
    forall i | 0 <= i < |parts| - 1
      ensures |parts[i]| >= 1 && parts[i][..|parts[i]| - 1] == pieces[i]
    {
      assert parts[i] == pieces[i] + [FirstPunct(pieces[i]).value];
    }
    UntagGrown(parts, pieces);
  }

  /** Weaving the consumed whitespace back between the untagged parts, in
      order, gives back the quote. */
  lemma DivideRoundTrip(quote: string)
    ensures |Separators(quote)| == |Divide(quote).value| - 1
    ensures Weave(Untag(Divide(quote).value), Separators(quote)) == quote
  {
    DivideUntag(quote);
    RawSplitRebuild(quote);
  }

  /** When every cut is at a plain space, joining the untagged parts with " "
      gives the quote back. */
  lemma DivideSpaceJoin(quote: string)
    requires forall k :: IsSplitPoint(quote, k) ==> quote[k] == ' '
    ensures Join(Untag(Divide(quote).value), " ") == quote
  {
    DivideUntag(quote);
    RawSplitJoin(quote);
  }

  /** A quote is returned as a single part equal to itself exactly when it
      has no punctuation followed by whitespace. */
  lemma DivideSingle(quote: string)
    ensures Divide(quote) == Success([quote]) <==> SplitPoints(quote) == {}
  {
    DivideCount(quote);
    DivideLastPart(quote);
  }

  /** No raw piece can be split again. */
  lemma DividePiecesUnsplittable(quote: string)
    ensures forall i :: 0 <= i < |Divide(quote).value| ==> SplitPoints(Untag(Divide(quote).value)[i]) == {}
  {
    DivideUntag(quote);
    RawPiecesUnsplittable(quote);
  }

  lemma FindSplitAt(s: string, k: nat)
    requires IsSplitPoint(s, k)
    requires forall j :: 0 <= j < k ==> !IsSplitPoint(s, j)
    ensures FindSplit(s, 0) == Some(k)
  {
  }

  /** Two sentences, each without an inner cut, joined by one whitespace
      character have exactly one split point: the separator. */
  lemma TwoSentenceSplitPoints(a: string, sep: char, b: string)
    requires EndsInPunct(a) && FindSplit(a, 0).None?
    requires IsSpace(sep)
    requires FindSplit(b, 0).None?
    ensures SplitPoints(a + [sep] + b) == {|a|}
  {
    var q := a + [sep] + b;
    assert IsSplitPoint(q, |a|);
    forall j | 1 <= j < |q| && j != |a| ensures !IsSplitPoint(q, j) {
      if j < |a| {
        assert q[j] == a[j] && q[j - 1] == a[j - 1];
        assert !IsSplitPoint(a, j);
      } else if j == |a| + 1 {
        assert q[j - 1] == sep;
        assert !IsPunct(sep);
      } else {
        var i := j - |a| - 1;
        assert q[j] == b[i] && q[j - 1] == b[i - 1];
        assert !IsSplitPoint(b, i);
      }
    }
  }

  /** Two sentences, each without an inner cut, joined by one whitespace
      character: the first comes back with its first punctuation character
      appended, the second verbatim. */
  lemma DivideTwoSentences(a: string, sep: char, b: string)
    requires EndsInPunct(a) && FindSplit(a, 0).None?
    requires IsSpace(sep)
    requires FindSplit(b, 0).None?
    ensures FirstPunct(a).Some?
    ensures Divide(a + [sep] + b) == Success([a + [FirstPunct(a).value], b])
  {
    var q := a + [sep] + b;
    forall j | 0 <= j < |a| ensures !IsSplitPoint(q, j) {
      if IsSplitPoint(q, j) {
        assert q[j] == a[j] && q[j - 1] == a[j - 1];
        assert IsSplitPoint(a, j);
      }
    }
    assert q[|a|] == sep && q[|a| - 1] == a[|a| - 1];
    FindSplitAt(q, |a|);
    assert q[..|a|] == a && q[|a| + 1..] == b;
    assert RawSplit(q) == [a, b];
    PunctFound(a);
    var c := FirstPunct(a).value;
    var pieces := [a, b];
    assert pieces[1..] == [b];
    assert AttachPunct(pieces) == Success([a + [c]] + [b]);
    assert [a + [c]] + [b] == [a + [c], b];
  }

  // ---------------------------------------------------------------------
  // Rejoining the parts: as written versus as intended
  // ---------------------------------------------------------------------

  /** The number of characters in all the strings together. */
  function TotalLength(xs: seq<string>): nat
    decreases |xs|
  {
    if |xs| == 0 then 0 else |xs[0]| + TotalLength(xs[1..])
  }

  lemma {:induction false} WeaveLength(pieces: seq<string>, seps: string)
    requires |pieces| == |seps| + 1
    ensures |Weave(pieces, seps)| == TotalLength(pieces) + |seps|
    decreases |seps|
  {
    if |seps| > 0 {
      WeaveLength(pieces[1..], seps[1..]);
    }
  }

  lemma {:induction false} JoinSpaceLength(pieces: seq<string>)
    requires |pieces| >= 1
    ensures |Join(pieces, " ")| == TotalLength(pieces) + |pieces| - 1
    decreases |pieces|
  {
    if |pieces| > 1 {
      JoinSpaceLength(pieces[1..]);
    }
  }

  /** Growing every string but the last by one character grows the total by
      one less than the count. */
  lemma {:induction false} GrownLength(parts: seq<string>, pieces: seq<string>)
    requires |parts| == |pieces| >= 1
    requires forall i :: 0 <= i < |parts| - 1 ==> |parts[i]| == |pieces[i]| + 1
    requires |Last(parts)| == |Last(pieces)|
    ensures TotalLength(parts) == TotalLength(pieces) + |pieces| - 1
    decreases |parts|
  {
    if |parts| > 1 {
      GrownLength(parts[1..], pieces[1..]);
    }
  }

  /** The parts are as long as the raw pieces, one character more for each
      non-final one. */
  lemma DividePartLengths(quote: string)
    ensures var parts, pieces := Divide(quote).value, RawSplit(quote);
            && |parts| == |pieces|
            && (forall i :: 0 <= i < |parts| - 1 ==> |parts[i]| == |pieces[i]| + 1)
            && |Last(parts)| == |Last(pieces)|
  {
  }

  /** As written, joining the parts with " " is longer than the quote by one
      character per split point. */
  lemma DivideRejoinGrows(quote: string)
    ensures |Join(Divide(quote).value, " ")| == |quote| + |SplitPoints(quote)|
  {
    DividePartLengths(quote);
    var pieces := RawSplit(quote);
    var parts := Divide(quote).value;
    GrownLength(parts, pieces);
    JoinSpaceLength(parts);
    RawSplitRebuild(quote);
    WeaveLength(pieces, Separators(quote));
    RawSplitCount(quote);
  }

  /** So, as written, joining the parts with " " gives the quote back only
      when there was nothing to split. */
  lemma DivideRejoinFails(quote: string)
    ensures Join(Divide(quote).value, " ") == quote <==> SplitPoints(quote) == {}
  {
    DivideRejoinGrows(quote);
    DivideSingle(quote);
  }

  /** The segmenter as the comment on shorts.py line 67 describes it: the
      punctuation kept by the split is not appended a second time. */
  function DivideIntended(quote: string): (parts: seq<string>)
    ensures |parts| == |SplitPoints(quote)| + 1
    ensures |Separators(quote)| + 1 == |parts|
    ensures Weave(parts, Separators(quote)) == quote
    ensures forall i :: 0 <= i < |parts| - 1 ==> EndsInPunct(parts[i])
    ensures forall i :: 0 <= i < |parts| ==> SplitPoints(parts[i]) == {}
  {
    RawSplitCount(quote);
    RawSplitRebuild(quote);
    RawPiecesUnsplittable(quote);
    RawSplit(quote)
  }

  /** As intended, joining the parts with " " gives back every quote whose
      cuts are all at plain spaces. */
  lemma IntendedRejoins(quote: string)
    requires forall k :: IsSplitPoint(quote, k) ==> quote[k] == ' '
    ensures Join(DivideIntended(quote), " ") == quote
  {
    RawSplitJoin(quote);
  }

  /** Two sentences without inner cuts, joined by a space, do not survive
      the round trip as written, and do as intended. */
  lemma TwoSentencesRejoin(a: string, b: string)
    requires EndsInPunct(a) && FindSplit(a, 0).None?
    requires FindSplit(b, 0).None?
    ensures Join(Divide(a + [' '] + b).value, " ") != a + [' '] + b
    ensures Join(DivideIntended(a + [' '] + b), " ") == a + [' '] + b
  {
    var q := a + [' '] + b;
    TwoSentenceSplitPoints(a, ' ', b);
    assert |a| in SplitPoints(q);
    DivideRejoinFails(q);
    forall k | IsSplitPoint(q, k) ensures q[k] == ' ' {
      assert k in SplitPoints(q);
    }
    IntendedRejoins(q);
  }

  /** The quote "Believe it! Never give up." does not survive the round
      trip as written, and does as intended. */
  lemma ExampleRejoin()
    ensures Join(Divide("Believe it! Never give up.").value, " ") != "Believe it! Never give up."
    ensures Join(DivideIntended("Believe it! Never give up."), " ") == "Believe it! Never give up."
  {
    var a, b := "Believe it!", "Never give up.";
    assert a + [' '] + b == "Believe it! Never give up.";
    BelieveItSentences();
    TwoSentencesRejoin(a, b);
  }

  // ---------------------------------------------------------------------
  // Worked examples
  // ---------------------------------------------------------------------

  /** A quote without a split point comes back as its only part. */
  lemma DivideUncut(quote: string)
    requires FindSplit(quote, 0).None?
    ensures Divide(quote) == Success([quote])
  {
    assert RawSplit(quote) == [quote];
  }

  lemma BelieveItSentences()
    ensures FindSplit("Believe it!", 0) == None
    ensures FindSplit("Never give up.", 0) == None
    ensures FirstPunct("Believe it!") == Some('!')
  {
    BelieveItUncut();
    NeverGiveUpUncut();
    assert FindPunct("Believe it!", 5) == Some(10);
    assert FindPunct("Believe it!", 0) == Some(10);
  }

  lemma BelieveItUncut()
    ensures FindSplit("Believe it!", 0) == None
  {
    assert FindSplit("Believe it!", 6) == None;
    assert FindSplit("Believe it!", 3) == None;
  }

  lemma NeverGiveUpUncut()
    ensures FindSplit("Never give up.", 0) == None
  {
    assert FindSplit("Never give up.", 10) == None;
    assert FindSplit("Never give up.", 7) == None;
    assert FindSplit("Never give up.", 3) == None;
  }

  /** The punctuation that ends a sentence is written twice. */
  lemma ExampleBelieveIt()
    ensures Divide("Believe it! Never give up.") == Success(["Believe it!!", "Never give up."])
  {
    var a, b := "Believe it!", "Never give up.";
    assert a + [' '] + b == "Believe it! Never give up.";
    assert a + ['!'] == "Believe it!!";
    BelieveItSentences();
    DivideTwoSentences(a, ' ', b);
  }

  lemma ReallySentences()
    ensures FindSplit("Really?!", 0) == None
    ensures FindSplit("Yes.", 0) == None
    ensures FirstPunct("Really?!") == Some('?')
  {
    assert FindSplit("Really?!", 4) == None;
    assert FindPunct("Really?!", 0) == Some(6);
  }

  /** The first punctuation of the piece is appended, not its last one. */
  lemma ExampleMixedPunctuation()
    ensures Divide("Really?! Yes.") == Success(["Really?!?", "Yes."])
  {
    var a, b := "Really?!", "Yes.";
    assert a + [' '] + b == "Really?! Yes.";
    assert a + ['?'] == "Really?!?";
    ReallySentences();
    DivideTwoSentences(a, ' ', b);
  }

  lemma WaitSentences()
    ensures FindSplit("Wait...", 0) == None
    ensures FindSplit("what?", 0) == None
    ensures FirstPunct("Wait...") == Some('.')
  {
    assert FindPunct("Wait...", 0) == Some(4);
  }

  /** An ellipsis is three separate full stops; only the last one is
      followed by whitespace. */
  lemma ExampleEllipsis()
    ensures Divide("Wait... what?") == Success(["Wait....", "what?"])
  {
    var a, b := "Wait...", "what?";
    assert a + [' '] + b == "Wait... what?";
    assert a + ['.'] == "Wait....";
    WaitSentences();
    DivideTwoSentences(a, ' ', b);
  }

  lemma ExampleNoPunctuation()
    ensures Divide("I will win") == Success(["I will win"])
  {
    assert FindSplit("I will win", 5) == None;
    assert FindSplit("I will win", 0) == None;
    DivideUncut("I will win");
  }

  lemma ExampleOneSentence()
    ensures Divide("Done.") == Success(["Done."])
  {
    assert FindSplit("Done.", 0) == None;
    DivideUncut("Done.");
  }

  lemma ExampleEmpty()
    ensures Divide("") == Success([""])
  {
    DivideUncut("");
  }

  /** Trailing whitespace after punctuation leaves an empty last part. */
  lemma ExampleTrailingSpace()
    ensures Divide("Hi. ") == Success(["Hi..", ""])
  {
    var a, b := "Hi.", "";
    assert a + [' '] + b == "Hi. ";
    assert a + ['.'] == "Hi..";
    assert FindSplit(a, 0) == None;
    assert FindPunct(a, 0) == Some(2);
    DivideTwoSentences(a, ' ', b);
  }
}
