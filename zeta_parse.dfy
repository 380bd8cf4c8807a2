/** `parse_edits`: pull the rewritten editable region out of the model's
    output excerpt by counting and slicing on the prompt markers, then turn
    it into buffer edits with `compute_edits`.

    Strings are character sequences. The string searches the parser uses
    (`str::replace`, `match_indices`, `find`, `rfind`) are defined here
    with the contracts that say what they find. */
module ZetaParse {
  import opened Wrappers
  import opened ZetaEdits

  // The prompt markers, written in pieces so that facts about their
  // characters can be read off the pieces.
  const CursorMarker: string := "<" + ("|user" + "_cursor" + "_is_here|>")
  const StartOfFileMarker: string := "<" + ("|start" + "_of_file|>")
  const RegionStartMarker: string := "<" + ("|editable" + "_region" + "_start|>")
  const RegionEndMarker: string := "<" + ("|editable" + "_region" + "_end|>")

  /* ---------------------------------------------------------------------
     String searches
     --------------------------------------------------------------------- */

  predicate OccursAt(s: string, pat: string, i: nat)
  {
    i + |pat| <= |s| && s[i..i + |pat|] == pat
  }

  ghost predicate Occurs(s: string, pat: string)
  {
    exists i: nat :: OccursAt(s, pat, i)
  }

  /** A slice of a suffix is the slice of the whole text shifted by the
      suffix's start. */
  lemma SliceOfSuffix(s: string, d: nat, i: nat, n: nat)
    requires d + i + n <= |s|
    ensures s[d..][i..i + n] == s[d + i..d + i + n]
  {
    var a, b := s[d..][i..i + n], s[d + i..d + i + n];
    assert forall k | 0 <= k < n :: a[k] == b[k];
  }

  /** Dropping the first character keeps every later occurrence, one
      position to the left, and loses only an occurrence at 0. */
  lemma OccursTail(s: string, pat: string)
    requires s != [] && pat != []
    ensures Occurs(s[1..], pat) ==> Occurs(s, pat)
    ensures Occurs(s, pat) && !OccursAt(s, pat, 0) ==> Occurs(s[1..], pat)
  {
    if Occurs(s[1..], pat) {
      var i: nat :| OccursAt(s[1..], pat, i);
      SliceOfSuffix(s, 1, i, |pat|);
      assert OccursAt(s, pat, i + 1);
    }
    if Occurs(s, pat) && !OccursAt(s, pat, 0) {
      var i: nat :| OccursAt(s, pat, i);
      assert i > 0;
      SliceOfSuffix(s, 1, i - 1, |pat|);
      assert OccursAt(s[1..], pat, i - 1);
    }
  }

  function ShiftBy(xs: seq<nat>, d: nat): (r: seq<nat>)
    ensures |r| == |xs|
  {
    seq(|xs|, i requires 0 <= i < |xs| => xs[i] + d)
  }

  /** What `match_indices` returns for `pat` in `s`: every index is an
      occurrence, each match ends before the next begins, the first one is
      the leftmost occurrence, and there is none exactly when `pat` does not
      occur. */
  ghost predicate IsMatchList(s: string, pat: string, r: seq<nat>)
  {
    && (forall k | 0 <= k < |r| :: OccursAt(s, pat, r[k]))
    && (forall k | 0 <= k < |r| - 1 :: r[k] + |pat| <= r[k + 1])
    && (r == [] <==> !Occurs(s, pat))
    && (r != [] ==> forall j: nat | j < r[0] :: !OccursAt(s, pat, j))
  }

  /** `match_indices`: the start of every match of `pat`, scanning left to
      right and resuming after each match. Every match lies inside `s`;
      `MatchIndicesSound` states what the list is. */
  function MatchIndices(s: string, pat: string): (r: seq<nat>)
    requires pat != []
    ensures forall k | 0 <= k < |r| :: r[k] + |pat| <= |s|
    decreases |s|
  {
    if |s| < |pat| then
      []
    else if s[..|pat|] == pat then
      [0] + ShiftBy(MatchIndices(s[|pat|..], pat), |pat|)
    else
      ShiftBy(MatchIndices(s[1..], pat), 1)
  }

  /** The matches `match_indices` reports are exactly a left-to-right run
      of non-overlapping occurrences starting from the leftmost one, and
      there are none exactly when the pattern does not occur. */
  lemma {:induction false} MatchIndicesSound(s: string, pat: string)
    requires pat != []
    ensures IsMatchList(s, pat, MatchIndices(s, pat))
    decreases |s|
  {
    if |s| < |pat| {
      assert !Occurs(s, pat);
    } else if s[..|pat|] == pat {
      MatchIndicesSound(s[|pat|..], pat);
      MatchAfterMatch(s, pat, MatchIndices(s[|pat|..], pat));
    } else {
      MatchIndicesSound(s[1..], pat);
      MatchAfterMismatch(s, pat, MatchIndices(s[1..], pat));
    }
  }

  lemma MatchAfterMatch(s: string, pat: string, rest: seq<nat>)
    requires pat != [] && |pat| <= |s| && s[..|pat|] == pat
    requires IsMatchList(s[|pat|..], pat, rest)
    ensures IsMatchList(s, pat, [0] + ShiftBy(rest, |pat|))
  {
    var d := |pat|;
    var shifted := ShiftBy(rest, d);
    var r := [0] + shifted;
    assert OccursAt(s, pat, 0) by {
      assert s[0..d] == s[..d];
    }
    forall k | 0 <= k < |r| ensures OccursAt(s, pat, r[k]) {
      if k > 0 {
        var j := rest[k - 1];
        assert r[k] == shifted[k - 1] == j + d;
        assert OccursAt(s[d..], pat, j);
        SliceOfSuffix(s, d, j, d);
      }
    }
    forall k | 0 <= k < |r| - 1 ensures r[k] + d <= r[k + 1] {
      assert r[k + 1] == rest[k] + d;
      if k > 0 {
        assert r[k] == rest[k - 1] + d;
      }
    }
    assert Occurs(s, pat);
  }

  lemma MatchAfterMismatch(s: string, pat: string, rest: seq<nat>)
    requires pat != [] && |pat| <= |s| && s[..|pat|] != pat
    requires IsMatchList(s[1..], pat, rest)
    ensures IsMatchList(s, pat, ShiftBy(rest, 1))
  {
    var r := ShiftBy(rest, 1);
    assert !OccursAt(s, pat, 0);
    OccursTail(s, pat);
    assert Occurs(s, pat) <==> Occurs(s[1..], pat);
    forall k | 0 <= k < |r| ensures OccursAt(s, pat, r[k]) {
      var j := rest[k];
      assert r[k] == j + 1;
      assert OccursAt(s[1..], pat, j);
      SliceOfSuffix(s, 1, j, |pat|);
    }
    forall k | 0 <= k < |r| - 1 ensures r[k] + |pat| <= r[k + 1] {
      assert r[k] == rest[k] + 1 && r[k + 1] == rest[k + 1] + 1;
    }
    assert r == [] <==> rest == [];
    if rest != [] {
      assert r[0] == rest[0] + 1;
      forall j: nat | j < r[0] ensures !OccursAt(s, pat, j) {
        if j > 0 && j + |pat| <= |s| {
          SliceOfSuffix(s, 1, j - 1, |pat|);
          assert !OccursAt(s[1..], pat, j - 1);
        }
      }
    }
  }

  /** `str::replace`: every match, found as `match_indices` finds them, is
      replaced by `rep`. `ReplaceNoMatch` and `ReplaceRemovesMatches` state
      what it does. */
  function ReplaceAll(s: string, pat: string, rep: string): string
    requires pat != []
    decreases |s|
  {
    if |s| < |pat| then
      s
    else if s[..|pat|] == pat then
      rep + ReplaceAll(s[|pat|..], pat, rep)
    else
      [s[0]] + ReplaceAll(s[1..], pat, rep)
  }

  /** Text in which `pat` does not occur is unchanged. */
  lemma {:induction false} ReplaceNoMatch(s: string, pat: string, rep: string)
    requires pat != [] && !Occurs(s, pat)
    ensures ReplaceAll(s, pat, rep) == s
    decreases |s|
  {
    if |s| >= |pat| {
      assert !OccursAt(s, pat, 0);
      assert s[..|pat|] != pat by {
        assert s[0..|pat|] == s[..|pat|];
      }
      OccursTail(s, pat);
      ReplaceNoMatch(s[1..], pat, rep);
      Uncons(s);
    }
  }

  /** Removing `pat` takes out exactly the matches `match_indices` lists:
      the text shrinks by the pattern's length once per match. */
  lemma {:induction false} ReplaceRemovesMatches(s: string, pat: string)
    requires pat != []
    ensures |ReplaceAll(s, pat, "")| + |pat| * |MatchIndices(s, pat)| == |s|
    decreases |s|
  {
    var d := |pat|;
    if |s| >= d {
      if s[..d] == pat {
        ReplaceRemovesMatches(s[d..], pat);
        var k := |MatchIndices(s[d..], pat)|;
        assert |ReplaceAll(s, pat, "")| == |ReplaceAll(s[d..], pat, "")|;
        assert |MatchIndices(s, pat)| == k + 1;
        MulSucc(d, k);
      } else {
        ReplaceRemovesMatches(s[1..], pat);
        assert |ReplaceAll(s, pat, "")| == 1 + |ReplaceAll(s[1..], pat, "")|;
        assert |MatchIndices(s, pat)| == |MatchIndices(s[1..], pat)|;
      }
    }
  }

  lemma MulSucc(d: nat, k: nat)
    ensures d * (k + 1) == d * k + d
  {
  }

  /** The excerpt with every cursor marker removed. */
  function WithoutCursor(s: string): string
  {
    ReplaceAll(s, CursorMarker, "")
  }

  /** `str::find` for a character: the first position holding `c`. */
  function Find(s: string, c: char): (r: Option<nat>)
    ensures r.Some? ==> r.value < |s| && s[r.value] == c && forall j | 0 <= j < r.value :: s[j] != c
    ensures r.None? <==> c !in s
  {
    if s == [] then None
    else if s[0] == c then Some(0)
    else match Find(s[1..], c)
      case None => None
      case Some(i) => Some(i + 1)
  }

  /** `str::rfind`: the start of the last occurrence of `pat`. */
  function LastMatch(s: string, pat: string): (r: Option<nat>)
    requires pat != []
    ensures r.Some? ==> OccursAt(s, pat, r.value) && forall j: nat | r.value < j :: !OccursAt(s, pat, j)
    ensures r.None? <==> !Occurs(s, pat)
    decreases |s|
  {
    if |s| < |pat| then
      None
    else if s[|s| - |pat|..] == pat then
      assert OccursAt(s, pat, |s| - |pat|);
      Some(|s| - |pat|)
    else
      var init := s[..|s| - 1];
      var r := LastMatch(init, pat);
      OccursInit(s, pat);
      r
  }

  /** Dropping the last character loses only an occurrence that ends there. */
  lemma OccursInit(s: string, pat: string)
    requires s != [] && pat != [] && |pat| <= |s|
    ensures forall j: nat :: OccursAt(s[..|s| - 1], pat, j) <==> (OccursAt(s, pat, j) && j != |s| - |pat|)
  {
    forall j: nat ensures OccursAt(s[..|s| - 1], pat, j) <==> (OccursAt(s, pat, j) && j != |s| - |pat|) {
      if j + |pat| <= |s| - 1 {
        assert s[..|s| - 1][j..j + |pat|] == s[j..j + |pat|];
      }
    }
  }

  /* ---------------------------------------------------------------------
     parse_edits
     --------------------------------------------------------------------- */

  /** The failures `parse_edits` reports, in the order it checks them. */
  datatype ParseError =
    | StartMarkerCount(found: nat)
    | EndMarkerCount(found: nat)
    | StartOfFileCount(found: nat)
    | MissingNewline
    | MissingEndMarker

  /** The text between the first newline after the start marker and the
      last newline-and-end-marker, after every cursor marker is removed. A
      result is only produced when there is exactly one start marker,
      exactly one end marker and at most one start-of-file marker. */
  function ExtractNewText(output: string): (r: Result<string, ParseError>)
    ensures r.Ok? ==>
      var content := WithoutCursor(output);
      && |MatchIndices(content, RegionStartMarker)| == 1
      && |MatchIndices(content, RegionEndMarker)| == 1
      && |MatchIndices(content, StartOfFileMarker)| <= 1
  {
    var content := WithoutCursor(output);
    var starts := MatchIndices(content, RegionStartMarker);
    var ends := MatchIndices(content, RegionEndMarker);
    var sofs := MatchIndices(content, StartOfFileMarker);
    if |starts| != 1 then Err(StartMarkerCount(|starts|))
    else if |ends| != 1 then Err(EndMarkerCount(|ends|))
    else if |sofs| > 1 then Err(StartOfFileCount(|sofs|))
    else
      var fromStart := content[starts[0]..];
      match Find(fromStart, '\n')
      case None => Err(MissingNewline)
      case Some(nl) =>
        var body := fromStart[nl + 1..];
        match LastMatch(body, "\n" + RegionEndMarker)
        case None => Err(MissingEndMarker)
        case Some(e) => Ok(body[..e])
  }

  /* ---------------------------------------------------------------------
     Round trip: an excerpt laid out the way the prompt lays it out
     --------------------------------------------------------------------- */

  /** None of the markers the parser counts occurs in `s`. */
  ghost predicate NoMarkers(s: string)
  {
    !Occurs(s, StartOfFileMarker) && !Occurs(s, RegionStartMarker) && !Occurs(s, RegionEndMarker)
  }

  /** A model output excerpt: the text before the start marker (which may
      hold the start-of-file marker), the start marker, the rest of its
      line, a newline, the new region text, a newline, the end marker, and
      a trailer. */
  function Excerpt(before: string, header: string, newText: string, trailer: string): string
  {
    before + (RegionStartMarker + (header + ("\n" + (newText + ("\n" + (RegionEndMarker + trailer))))))
  }

  /** The markers all open with `<`, hold no other `<` and no newline, and
      differ from one another early on. */
  lemma MarkerShapes()
    ensures CursorMarker[0] == StartOfFileMarker[0] == RegionStartMarker[0] == RegionEndMarker[0] == '<'
    ensures '<' !in CursorMarker[1..] && '<' !in StartOfFileMarker[1..]
    ensures '<' !in RegionStartMarker[1..] && '<' !in RegionEndMarker[1..]
    ensures '\n' !in CursorMarker && '\n' !in StartOfFileMarker
    ensures '\n' !in RegionStartMarker && '\n' !in RegionEndMarker
    ensures CursorMarker[2] == 'u' && StartOfFileMarker[2] == 's'
    ensures RegionStartMarker[2] == 'e' && RegionEndMarker[2] == 'e'
    ensures RegionStartMarker[18] == 's' && RegionEndMarker[18] == 'e'
  {
    CursorTail();
    StartOfFileTail();
    RegionStartTail();
    RegionEndTail();
  }

  lemma CursorTail()
    ensures '<' !in CursorMarker[1..] && '\n' !in CursorMarker
  {
    assert CursorMarker[1..] == "|user" + "_cursor" + "_is_here|>";
  }

  lemma StartOfFileTail()
    ensures '<' !in StartOfFileMarker[1..] && '\n' !in StartOfFileMarker
  {
    assert StartOfFileMarker[1..] == "|start" + "_of_file|>";
  }

  lemma RegionStartTail()
    ensures '<' !in RegionStartMarker[1..] && '\n' !in RegionStartMarker
  {
    assert RegionStartMarker[1..] == "|editable" + "_region" + "_start|>";
  }

  lemma RegionEndTail()
    ensures '<' !in RegionEndMarker[1..] && '\n' !in RegionEndMarker
  {
    assert RegionEndMarker[1..] == "|editable" + "_region" + "_end|>";
  }

  lemma ShiftByShiftBy(xs: seq<nat>, a: nat, b: nat)
    ensures ShiftBy(ShiftBy(xs, a), b) == ShiftBy(xs, a + b)
  {
  }

  lemma ShiftByConcat(xs: seq<nat>, ys: seq<nat>, d: nat)
    ensures ShiftBy(xs + ys, d) == ShiftBy(xs, d) + ShiftBy(ys, d)
  {
  }

  /** The scan steps over a position where the pattern does not start. */
  lemma MatchStep(s: string, pat: string, k: nat)
    requires pat != [] && |pat| <= |s| && k < |pat| && s[k] != pat[k]
    ensures MatchIndices(s, pat) == ShiftBy(MatchIndices(s[1..], pat), 1)
  {
    assert s[..|pat|][k] != pat[k];
  }

  /** Too short to hold the pattern: no match. */
  lemma MatchShort(s: string, pat: string)
    requires pat != [] && |s| < |pat|
    ensures MatchIndices(s, pat) == []
  {
  }

  /** No match can start in `x` and run on into `y` when the first
      character of `y` does not occur in the pattern after its first
      character: the matches in `x + y` are those of `x` followed by those
      of `y`, moved by the length of `x`. */
  lemma {:induction false} MatchConcat(x: string, y: string, pat: string)
    requires pat != [] && (y == [] || y[0] !in pat[1..])
    ensures MatchIndices(x + y, pat) == MatchIndices(x, pat) + ShiftBy(MatchIndices(y, pat), |x|)
    decreases |x|
  {
    var d := |pat|;
    if x == [] {
      assert x + y == y;
      assert ShiftBy(MatchIndices(y, pat), 0) == MatchIndices(y, pat);
    } else if |x + y| < d {
      MatchShort(x + y, pat);
      MatchShort(x, pat);
      MatchShort(y, pat);
    } else if |x| < d {
      NoStraddle(x, y, pat);
      MatchConcat(x[1..], y, pat);
      MatchShort(x[1..], pat);
      MatchShort(x, pat);
      ConcatMiss(x, y, pat);
    } else if x[..d] == pat {
      MatchConcat(x[d..], y, pat);
      ConcatHit(x, y, pat);
    } else {
      SplitAt(x, y, d);
      MatchConcat(x[1..], y, pat);
      ConcatMiss(x, y, pat);
    }
  }

  /** The step of `MatchConcat` past a position where no match starts. */
  lemma ConcatMiss(x: string, y: string, pat: string)
    requires pat != [] && x != [] && |pat| <= |x + y| && (x + y)[..|pat|] != pat
    requires MatchIndices(x, pat) == ShiftBy(MatchIndices(x[1..], pat), 1)
    requires MatchIndices(x[1..] + y, pat)
      == MatchIndices(x[1..], pat) + ShiftBy(MatchIndices(y, pat), |x| - 1)
    ensures MatchIndices(x + y, pat) == MatchIndices(x, pat) + ShiftBy(MatchIndices(y, pat), |x|)
  {
    var my := MatchIndices(y, pat);
    Regroup1(x, y);
    assert MatchIndices(x + y, pat) == ShiftBy(MatchIndices(x[1..] + y, pat), 1);
    ShiftTail(MatchIndices(x[1..], pat), my, |x| - 1, 1, |x|);
  }

  /** The step of `MatchConcat` over a match that lies inside `x`. */
  lemma ConcatHit(x: string, y: string, pat: string)
    requires pat != [] && |pat| <= |x| && x[..|pat|] == pat
    requires MatchIndices(x[|pat|..] + y, pat)
      == MatchIndices(x[|pat|..], pat) + ShiftBy(MatchIndices(y, pat), |x| - |pat|)
    ensures MatchIndices(x + y, pat) == MatchIndices(x, pat) + ShiftBy(MatchIndices(y, pat), |x|)
  {
    var d := |pat|;
    var my := MatchIndices(y, pat);
    var a := MatchIndices(x[d..], pat);
    var r := MatchIndices(x[d..] + y, pat);
    SplitAt(x, y, d);
    assert MatchIndices(x, pat) == [0] + ShiftBy(a, d);
    assert MatchIndices(x + y, pat) == [0] + ShiftBy(r, d);
    ShiftTail(a, my, |x| - d, d, |x|);
    AssocNat([0], ShiftBy(a, d), ShiftBy(my, |x|));
  }

  /** A text shorter than the pattern, followed by text whose first
      character the pattern does not hold after its own first, does not
      start a match. */
  lemma NoStraddle(x: string, y: string, pat: string)
    requires x != [] && |x| < |pat| <= |x + y| && y[0] !in pat[1..]
    ensures (x + y)[..|pat|] != pat
  {
    assert (x + y)[..|pat|][|x|] == y[0];
    assert pat[1..][|x| - 1] == pat[|x|];
  }

  /** Moving a list of matches followed by moved matches. */
  lemma ShiftTail(a: seq<nat>, b: seq<nat>, k: nat, d: nat, n: nat)
    requires k + d == n
    ensures ShiftBy(a + ShiftBy(b, k), d) == ShiftBy(a, d) + ShiftBy(b, n)
  {
    ShiftByConcat(a, ShiftBy(b, k), d);
    ShiftByShiftBy(b, k, d);
  }

  lemma AssocNat(a: seq<nat>, b: seq<nat>, c: seq<nat>)
    ensures a + (b + c) == (a + b) + c
  {
  }

  lemma Regroup1(x: string, y: string)
    requires x != []
    ensures (x + y)[1..] == x[1..] + y
  {
  }

  lemma SplitAt(x: string, y: string, d: nat)
    requires d <= |x|
    ensures (x + y)[..d] == x[..d] && (x + y)[d..] == x[d..] + y
  {
  }

  /** Text that holds no first character of `pat` only moves the matches. */
  lemma {:induction false} MatchSkip(x: string, y: string, pat: string)
    requires pat != [] && pat[0] !in x
    ensures MatchIndices(x + y, pat) == ShiftBy(MatchIndices(y, pat), |x|)
    decreases |x|
  {
    var s := x + y;
    if x == [] {
      assert s == y;
      assert ShiftBy(MatchIndices(y, pat), 0) == MatchIndices(y, pat);
    } else if |s| < |pat| {
      MatchShort(s, pat);
      MatchShort(y, pat);
    } else {
      MatchStep(s, pat, 0);
      assert s[1..] == x[1..] + y;
      MatchSkip(x[1..], y, pat);
      ShiftByShiftBy(MatchIndices(y, pat), |x| - 1, 1);
    }
  }

  /** A marker in front either is the pattern, giving a match at 0, or
      differs from it at some index `k` before the pattern can next start. */
  lemma MatchMarker(m: string, y: string, pat: string, k: nat)
    requires pat != [] && m != []
    requires m == pat || (k < |m| && k < |pat| && m[k] != pat[k] && pat[0] !in m[1..])
    ensures MatchIndices(m + y, pat) == (if m == pat then [0] else []) + ShiftBy(MatchIndices(y, pat), |m|)
  {
    if m == pat {
      MatchSelf(y, pat);
    } else {
      MatchOther(m, y, pat, k);
    }
  }

  lemma MatchSelf(y: string, pat: string)
    requires pat != []
    ensures MatchIndices(pat + y, pat) == [0] + ShiftBy(MatchIndices(y, pat), |pat|)
  {
    var s := pat + y;
    assert s[..|pat|] == pat && s[|pat|..] == y;
  }

  lemma MatchOther(m: string, y: string, pat: string, k: nat)
    requires pat != [] && k < |m| && k < |pat| && m[k] != pat[k] && pat[0] !in m[1..]
    ensures MatchIndices(m + y, pat) == ShiftBy(MatchIndices(y, pat), |m|)
  {
    var s := m + y;
    if |s| < |pat| {
      MatchShort(s, pat);
      MatchShort(y, pat);
    } else {
      MatchStep(s, pat, k);
      assert s[1..] == m[1..] + y;
      MatchSkip(m[1..], y, pat);
      ShiftByShiftBy(MatchIndices(y, pat), |m| - 1, 1);
    }
  }

  /** No match list at all exactly when the pattern does not occur. */
  lemma NoMatches(s: string, pat: string)
    requires pat != []
    ensures MatchIndices(s, pat) == [] <==> !Occurs(s, pat)
  {
    MatchIndicesSound(s, pat);
  }

  /** Removal cannot start in `x` and run on into `y` under the same
      condition as `MatchConcat`: the pieces are rewritten separately. */
  lemma {:induction false} ReplaceConcat(x: string, y: string, pat: string, rep: string)
    requires pat != [] && (y == [] || y[0] !in pat[1..])
    ensures ReplaceAll(x + y, pat, rep) == ReplaceAll(x, pat, rep) + ReplaceAll(y, pat, rep)
    decreases |x|
  {
    var d := |pat|;
    if x == [] {
      assert x + y == y;
    } else if |x + y| < d {
    } else if |x| < d {
      NoStraddle(x, y, pat);
      ReplaceMissStep(x, y, pat, rep);
      ReplaceConcat(x[1..], y, pat, rep);
      Regroup([x[0]], x[1..], ReplaceAll(y, pat, rep));
      Uncons(x);
    } else if x[..d] == pat {
      ReplaceHitStep(x, y, pat, rep);
      ReplaceConcat(x[d..], y, pat, rep);
      Regroup(rep, ReplaceAll(x[d..], pat, rep), ReplaceAll(y, pat, rep));
    } else {
      SplitAt(x, y, d);
      ReplaceMissStep(x, y, pat, rep);
      ReplaceConcat(x[1..], y, pat, rep);
      Regroup([x[0]], ReplaceAll(x[1..], pat, rep), ReplaceAll(y, pat, rep));
    }
  }

  /** Text that holds no first character of `pat` is kept as it is. */
  lemma {:induction false} ReplaceSkip(x: string, y: string, pat: string, rep: string)
    requires pat != [] && pat[0] !in x
    ensures ReplaceAll(x + y, pat, rep) == x + ReplaceAll(y, pat, rep)
    decreases |x|
  {
    if x == [] {
      assert x + y == y;
    } else if |x + y| < |pat| {
    } else {
      assert (x + y)[..|pat|][0] != pat[0];
      ReplaceMissStep(x, y, pat, rep);
      ReplaceSkip(x[1..], y, pat, rep);
      Regroup([x[0]], x[1..], ReplaceAll(y, pat, rep));
      Uncons(x);
    }
  }

  /** A marker that differs from the pattern is kept, and the text after
      it is rewritten on its own. */
  lemma ReplaceAfterMarker(m: string, y: string, pat: string, rep: string, k: nat)
    requires pat != [] && k < |m| && k < |pat| && m[k] != pat[k] && pat[0] !in m[1..]
    ensures ReplaceAll(m + y, pat, rep) == m + ReplaceAll(y, pat, rep)
  {
    if |pat| <= |m + y| {
      assert (m + y)[..|pat|][k] != pat[k];
      ReplaceMissStep(m, y, pat, rep);
      ReplaceSkip(m[1..], y, pat, rep);
      Regroup([m[0]], m[1..], ReplaceAll(y, pat, rep));
      Uncons(m);
    }
  }

  /** The removal steps over a position where no match starts. */
  lemma ReplaceMissStep(x: string, y: string, pat: string, rep: string)
    requires pat != [] && x != [] && |pat| <= |x + y| && (x + y)[..|pat|] != pat
    ensures ReplaceAll(x + y, pat, rep) == [x[0]] + ReplaceAll(x[1..] + y, pat, rep)
  {
    Regroup1(x, y);
  }

  /** The removal replaces a match that lies inside `x`. */
  lemma ReplaceHitStep(x: string, y: string, pat: string, rep: string)
    requires pat != [] && |pat| <= |x| && x[..|pat|] == pat
    ensures ReplaceAll(x + y, pat, rep) == rep + ReplaceAll(x[|pat|..] + y, pat, rep)
    ensures ReplaceAll(x, pat, rep) == rep + ReplaceAll(x[|pat|..], pat, rep)
  {
    SplitAt(x, y, |pat|);
  }

  lemma Uncons(x: string)
    requires x != []
    ensures [x[0]] + x[1..] == x
  {
  }

  /** Removal with an empty replacement adds no character. */
  lemma {:induction false} ReplaceKeeps(s: string, pat: string, c: char)
    requires pat != [] && c !in s
    ensures c !in ReplaceAll(s, pat, "")
    decreases |s|
  {
    if |s| >= |pat| {
      if s[..|pat|] == pat {
        assert forall x | x in s[|pat|..] :: x in s;
        ReplaceKeeps(s[|pat|..], pat, c);
      } else {
        assert forall x | x in s[1..] :: x in s;
        ReplaceKeeps(s[1..], pat, c);
      }
    }
  }

  /** Removing cursor markers from an excerpt removes them from each free
      piece and leaves the region markers and newlines in place. */
  lemma CursorFreeExcerpt(before: string, header: string, newText: string, trailer: string)
    ensures WithoutCursor(Excerpt(before, header, newText, trailer))
      == Excerpt(WithoutCursor(before), WithoutCursor(header), WithoutCursor(newText), WithoutCursor(trailer))
  {
    var cm := CursorMarker;
    var tail := RegionEndMarker + trailer;
    var r1 := "\n" + tail;
    var mid := newText + r1;
    var r2 := "\n" + mid;
    var r3 := header + r2;
    var region := RegionStartMarker + r3;
    MarkerShapes();
    ReplaceAfterMarker(RegionEndMarker, trailer, cm, "", 2);
    ReplaceSkip("\n", tail, cm, "");
    ReplaceConcat(newText, r1, cm, "");
    ReplaceSkip("\n", mid, cm, "");
    ReplaceConcat(header, r2, cm, "");
    ReplaceAfterMarker(RegionStartMarker, r3, cm, "", 2);
    ReplaceConcat(before, region, cm, "");
  }

  /** Where a marker-like pattern matches in a cursor-free excerpt whose
      region pieces hold no such pattern: the matches of the text before
      the start marker, then one per region marker equal to the pattern. */
  lemma ContentMatches(b: string, h: string, n: string, t: string, pat: string, kStart: nat, kEnd: nat)
    requires pat != [] && pat[0] == '<' && '<' !in pat[1..] && '\n' !in pat
    requires !Occurs(h, pat) && !Occurs(n, pat) && !Occurs(t, pat)
    requires RegionStartMarker == pat
      || (kStart < |RegionStartMarker| && kStart < |pat| && RegionStartMarker[kStart] != pat[kStart])
    requires RegionEndMarker == pat
      || (kEnd < |RegionEndMarker| && kEnd < |pat| && RegionEndMarker[kEnd] != pat[kEnd])
    ensures var r := MatchIndices(Excerpt(b, h, n, t), pat);
      && |r| == |MatchIndices(b, pat)| + (if RegionStartMarker == pat then 1 else 0)
                + (if RegionEndMarker == pat then 1 else 0)
      && (pat == RegionStartMarker && MatchIndices(b, pat) == [] ==> r[0] == |b|)
  {
    var tail := RegionEndMarker + t;
    var r1 := "\n" + tail;
    var mid := n + r1;
    var r2 := "\n" + mid;
    var r3 := h + r2;
    var region := RegionStartMarker + r3;
    MarkerShapes();
    NoMatches(t, pat);
    NoMatches(n, pat);
    NoMatches(h, pat);
    MatchMarker(RegionEndMarker, t, pat, kEnd);
    MatchSkip("\n", tail, pat);
    MatchConcat(n, r1, pat);
    MatchSkip("\n", mid, pat);
    MatchConcat(h, r2, pat);
    MatchMarker(RegionStartMarker, r3, pat, kStart);
    MatchConcat(b, region, pat);
  }

  /** The marker checks of `parse_edits` all pass on a cursor-free
      excerpt, and the start marker is found right after `b`. */
  lemma ExcerptChecks(b: string, h: string, n: string, t: string)
    requires !Occurs(b, RegionStartMarker) && !Occurs(b, RegionEndMarker)
    requires |MatchIndices(b, StartOfFileMarker)| <= 1
    requires NoMarkers(h) && NoMarkers(n) && NoMarkers(t)
    ensures var x := Excerpt(b, h, n, t);
      && |MatchIndices(x, RegionStartMarker)| == 1
      && MatchIndices(x, RegionStartMarker)[0] == |b|
      && |MatchIndices(x, RegionEndMarker)| == 1
      && |MatchIndices(x, StartOfFileMarker)| <= 1
  {
    MarkerShapes();
    NoMatches(b, RegionStartMarker);
    NoMatches(b, RegionEndMarker);
    ContentMatches(b, h, n, t, RegionStartMarker, 0, 18);
    ContentMatches(b, h, n, t, RegionEndMarker, 18, 0);
    ContentMatches(b, h, n, t, StartOfFileMarker, 2, 2);
  }

  /** Parsing an excerpt laid out as the prompt lays it out gives back the
      new region text with its cursor markers removed: exactly the lines
      between the start marker's line and the end marker. The text before
      the start marker may hold one start-of-file marker; none of the
      pieces may hold a region marker once cursor markers are removed. */
  lemma ExtractRoundTrip(before: string, header: string, newText: string, trailer: string)
    requires '\n' !in header
    requires !Occurs(WithoutCursor(before), RegionStartMarker) && !Occurs(WithoutCursor(before), RegionEndMarker)
    requires |MatchIndices(WithoutCursor(before), StartOfFileMarker)| <= 1
    requires NoMarkers(WithoutCursor(header)) && NoMarkers(WithoutCursor(newText)) && NoMarkers(WithoutCursor(trailer))
    ensures ExtractNewText(Excerpt(before, header, newText, trailer)) == Ok(WithoutCursor(newText))
  {
    var b, h, n, t := WithoutCursor(before), WithoutCursor(header), WithoutCursor(newText), WithoutCursor(trailer);
    CursorFreeExcerpt(before, header, newText, trailer);
    ReplaceKeeps(header, CursorMarker, '\n');
    ExcerptChecks(b, h, n, t);
    ExtractAfterChecks(Excerpt(before, header, newText, trailer), Excerpt(b, h, n, t), |b|, h, n, t);
  }

  /** Once the marker counts are right, the slicing picks out the text
      between the start marker's line and the end marker. */
  lemma ExtractAfterChecks(output: string, x: string, a: nat, h: string, n: string, t: string)
    requires WithoutCursor(output) == x
    requires |MatchIndices(x, RegionStartMarker)| == 1 && MatchIndices(x, RegionStartMarker)[0] == a
    requires |MatchIndices(x, RegionEndMarker)| == 1 && |MatchIndices(x, StartOfFileMarker)| <= 1
    requires a <= |x|
    requires x[a..] == RegionStartMarker + (h + ("\n" + (n + ("\n" + (RegionEndMarker + t)))))
    requires '\n' !in h && !Occurs(t, RegionEndMarker)
    ensures ExtractNewText(output) == Ok(n)
  {
    var body := n + ("\n" + (RegionEndMarker + t));
    RegionStartTail();
    NewlineAfterStart(RegionStartMarker, h, body);
    EndMarkerAt(n, t);
    assert x[a..][|RegionStartMarker| + |h| + 1..] == body;
  }

  /** The first newline after the start marker ends its line. */
  lemma NewlineAfterStart(m: string, header: string, rest: string)
    requires '\n' !in m && '\n' !in header
    ensures Find(m + (header + ("\n" + rest)), '\n') == Some(|m| + |header|)
  {
    Regroup(m, header, "\n" + rest);
    NewlineFree(m + header, rest);
  }

  lemma Regroup(a: string, b: string, c: string)
    ensures a + (b + c) == (a + b) + c
  {
  }

  lemma NewlineFree(line: string, rest: string)
    requires '\n' !in line
    ensures Find(line + ("\n" + rest), '\n') == Some(|line|)
  {
    var s := line + ("\n" + rest);
    assert s[|line|] == '\n';
    assert forall j | 0 <= j < |line| :: s[j] == line[j];
  }

  /** The last newline-and-end-marker after the start marker's line is the
      one right after the new text, when the trailer holds no end marker. */
  lemma EndMarkerAt(n: string, t: string)
    requires !Occurs(t, RegionEndMarker)
    ensures var body := n + ("\n" + (RegionEndMarker + t));
      LastMatch(body, "\n" + RegionEndMarker) == Some(|n|) && body[..|n|] == n
  {
    RegionEndTail();
    LastLineMarker(n, RegionEndMarker, t);
  }

  /** A newline and a marker `m` followed by text without `m`: that
      newline-and-marker is the last one. */
  lemma LastLineMarker(n: string, m: string, t: string)
    requires '\n' !in m && !Occurs(t, m)
    ensures var body := n + ("\n" + (m + t));
      LastMatch(body, "\n" + m) == Some(|n|) && body[..|n|] == n
  {
    var pat := "\n" + m;
    var body := n + ("\n" + (m + t));
    Regroup("\n", m, t);
    Pieces(n, pat, t);
    assert OccursAt(body, pat, |n|);
    var r := LastMatch(body, pat);
    assert |n| <= r.value;
    if r.value != |n| {
      NoLaterMatch(n, m, t, r.value);
    }
  }

  /** Where the three parts of `a + (b + c)` sit. */
  lemma Pieces(a: string, b: string, c: string)
    ensures var s := a + (b + c);
      && s[..|a|] == a && s[|a|..|a| + |b|] == b && s[|a| + |b|..] == c
  {
  }

  /** No newline-and-marker starts after the one right after `n`. */
  lemma NoLaterMatch(n: string, m: string, t: string, j: nat)
    requires '\n' !in m && !Occurs(t, m) && |n| < j
    ensures !OccursAt(n + (("\n" + m) + t), "\n" + m, j)
  {
    var pat := "\n" + m;
    var body := n + (pat + t);
    var d := |n| + |pat|;
    Pieces(n, pat, t);
    if OccursAt(body, pat, j) {
      assert body[j] == '\n' by {
        assert body[j..j + |pat|][0] == pat[0];
      }
      if j < d {
        assert false;
      } else {
        var i := j + 1 - d;
        assert body[j + 1..j + 1 + |m|] == m by {
          assert body[j..j + |pat|][1..] == pat[1..];
        }
        SliceOfSuffix(body, d, i, |m|);
        assert OccursAt(t, m, i);
        assert false;
      }
    }
  }

  /* ---------------------------------------------------------------------
     Pieces without markers
     --------------------------------------------------------------------- */

  /** No character of `s` can start a marker. */
  predicate Plain(s: string)
  {
    '<' !in s
  }

  /** Text without `<` has no cursor marker to remove and no marker. */
  lemma PlainText(s: string)
    requires Plain(s)
    ensures WithoutCursor(s) == s && NoMarkers(s)
  {
    ReplaceSkip(s, [], CursorMarker, "");
    assert s + [] == s;
    MatchSkip(s, [], StartOfFileMarker);
    MatchSkip(s, [], RegionStartMarker);
    MatchSkip(s, [], RegionEndMarker);
    NoMatches(s, StartOfFileMarker);
    NoMatches(s, RegionStartMarker);
    NoMatches(s, RegionEndMarker);
  }

  /** Plain text around one start-of-file marker: nothing to remove, one
      start-of-file match and no region marker. */
  lemma PlainAroundStartOfFile(lead: string, gap: string)
    requires Plain(lead) && Plain(gap)
    ensures var b := lead + (StartOfFileMarker + gap);
      && WithoutCursor(b) == b
      && !Occurs(b, RegionStartMarker) && !Occurs(b, RegionEndMarker)
      && |MatchIndices(b, StartOfFileMarker)| == 1
  {
    var b := lead + (StartOfFileMarker + gap);
    MarkerShapes();
    PlainText(gap);
    ReplaceSkip(lead, StartOfFileMarker + gap, CursorMarker, "");
    ReplaceAfterMarker(StartOfFileMarker, gap, CursorMarker, "", 2);
    NoMatches(gap, StartOfFileMarker);
    NoMatches(gap, RegionStartMarker);
    NoMatches(gap, RegionEndMarker);
    MatchSkip(lead, StartOfFileMarker + gap, StartOfFileMarker);
    MatchSkip(lead, StartOfFileMarker + gap, RegionStartMarker);
    MatchSkip(lead, StartOfFileMarker + gap, RegionEndMarker);
    MatchMarker(StartOfFileMarker, gap, StartOfFileMarker, 0);
    MatchMarker(StartOfFileMarker, gap, RegionStartMarker, 2);
    MatchMarker(StartOfFileMarker, gap, RegionEndMarker, 2);
    NoMatches(b, RegionStartMarker);
    NoMatches(b, RegionEndMarker);
  }

  /** What `text_diff` guarantees of its hunks: in order, inside the old
      text, and turning the old text into the new one. */
  ghost predicate DiffSpec(diff: (string, string) -> seq<Edit>)
  {
    forall a, b :: Sorted(diff(a, b)) && AllFit(diff(a, b), |a|) && ApplyEdits(a, diff(a, b)) == b
  }

  /** `parse_edits`: the new text of the editable range
      [rangeStart, rangeEnd) of the snapshot, diffed against its old text
      and trimmed by `compute_edits`. */
  function ParseEdits(output: string, snapshot: string, rangeStart: nat, rangeEnd: nat,
                      diff: (string, string) -> seq<Edit>): (r: Result<seq<Edit>, ParseError>)
    requires rangeStart <= rangeEnd <= |snapshot|
    requires forall a, b :: AllFit(diff(a, b), |a|)
    ensures r.Err? <==> ExtractNewText(output).Err?
  {
    match ExtractNewText(output)
    case Err(error) => Err(error)
    case Ok(newText) => Ok(EditsForRegion(snapshot, rangeStart, rangeEnd, newText, diff))
  }

  /** The tail of `parse_edits`: diff the region's old text against the new
      text and trim the hunks. */
  function EditsForRegion(snapshot: string, rangeStart: nat, rangeEnd: nat, newText: string,
                          diff: (string, string) -> seq<Edit>): seq<Edit>
    requires rangeStart <= rangeEnd <= |snapshot|
    requires forall a, b :: AllFit(diff(a, b), |a|)
  {
    var oldText := snapshot[rangeStart..rangeEnd];
    var hunks := diff(oldText, newText);
    FitsWider(hunks, |oldText|, |snapshot| - rangeStart);
    ComputeEdits(snapshot, rangeStart, hunks)
  }

  lemma FitsWider(edits: seq<Edit>, len: nat, wider: nat)
    requires AllFit(edits, len) && len <= wider
    ensures AllFit(edits, wider)
  {
  }

  /** With a correct diff, the parsed edits replace exactly the editable
      range of the snapshot by the extracted new text. */
  lemma ParseEditsCorrect(output: string, snapshot: string, rangeStart: nat, rangeEnd: nat,
                          diff: (string, string) -> seq<Edit>)
    requires rangeStart <= rangeEnd <= |snapshot|
    requires DiffSpec(diff)
    ensures var r := ParseEdits(output, snapshot, rangeStart, rangeEnd, diff);
      r.Ok? ==>
        && Sorted(r.value) && AllFit(r.value, |snapshot|)
        && ApplyEdits(snapshot, r.value)
           == snapshot[..rangeStart] + ExtractNewText(output).value + snapshot[rangeEnd..]
  {
    var r := ParseEdits(output, snapshot, rangeStart, rangeEnd, diff);
    if r.Ok? {
      var newText := ExtractNewText(output).value;
      RegionEditsCorrect(snapshot, rangeStart, rangeEnd, newText, diff);
    }
  }

  lemma RegionEditsCorrect(snapshot: string, rangeStart: nat, rangeEnd: nat, newText: string,
                           diff: (string, string) -> seq<Edit>)
    requires rangeStart <= rangeEnd <= |snapshot|
    requires DiffSpec(diff)
    ensures var edits := EditsForRegion(snapshot, rangeStart, rangeEnd, newText, diff);
      && Sorted(edits) && AllFit(edits, |snapshot|)
      && ApplyEdits(snapshot, edits) == snapshot[..rangeStart] + newText + snapshot[rangeEnd..]
  {
    var oldText := snapshot[rangeStart..rangeEnd];
    var hunks := diff(oldText, newText);
    assert Sorted(hunks) && AllFit(hunks, |oldText|) && ApplyEdits(oldText, hunks) == newText;
    ComputeEditsCorrect(snapshot, rangeStart, rangeEnd, hunks, newText);
  }

  /** The end-of-buffer case: the response
      "```animals.js\n<|start_of_file|>\n<|editable_region_start|>\nlorem\nipsum\n<|editable_region_end|>\n```",
      for the two-line buffer "lorem\n" with the whole buffer editable,
      turns it into "lorem\nipsum". */
  lemma EndOfBufferExample(diff: (string, string) -> seq<Edit>, buffer: string, lead: string,
                           newText: string, trailer: string)
    requires DiffSpec(diff)
    requires buffer == "lorem\n" && lead == "```animals.js\n" && newText == "lorem\nipsum" && trailer == "\n```"
    ensures var r := ParseEdits(Excerpt(lead + (StartOfFileMarker + "\n"), "", newText, trailer), buffer, 0, |buffer|, diff);
      r.Ok? && Sorted(r.value) && AllFit(r.value, |buffer|) && ApplyEdits(buffer, r.value) == newText
  {
    var output := Excerpt(lead + (StartOfFileMarker + "\n"), "", newText, trailer);
    ExampleIsPlain(lead, newText, trailer);
    PlainAroundStartOfFile(lead, "\n");
    PlainText("");
    PlainText(newText);
    PlainText(trailer);
    ExtractRoundTrip(lead + (StartOfFileMarker + "\n"), "", newText, trailer);
    ParseEditsCorrect(output, buffer, 0, |buffer|, diff);
    WholeRange(buffer, newText);
  }

  lemma ExampleIsPlain(lead: string, newText: string, trailer: string)
    requires lead == "```animals.js\n" && newText == "lorem\nipsum" && trailer == "\n```"
    ensures Plain(lead) && Plain("\n") && Plain("") && Plain(newText) && Plain(trailer)
  {
  }

  lemma WholeRange(buffer: string, newText: string)
    ensures buffer[..0] + newText + buffer[|buffer|..] == newText
  {
    assert buffer[..0] == [] && buffer[|buffer|..] == [];
  }

  /** A cursor marker inside the region is dropped from the new text: with
      "lo" and "rem" around it,
      "<|editable_region_start|>\nlo<|user_cursor_is_here|>rem\n<|editable_region_end|>"
      gives "lorem". */
  lemma CursorInRegion(left: string, right: string)
    requires Plain(left) && Plain(right)
    ensures ExtractNewText(Excerpt("", "", left + (CursorMarker + right), "")) == Ok(left + right)
  {
    CursorRemoved(left, right);
    PlainText("");
    assert Plain(left + right);
    PlainText(left + right);
    ExtractRoundTrip("", "", left + (CursorMarker + right), "");
  }

  lemma CursorRemoved(left: string, right: string)
    requires Plain(left) && Plain(right)
    ensures WithoutCursor(left + (CursorMarker + right)) == left + right
  {
    var cm := CursorMarker;
    ReplaceSkip(left, cm + right, cm, "");
    ReplaceHitStep(cm, right, cm, "");
    assert cm[|cm|..] + right == right;
    PlainText(right);
  }
}
