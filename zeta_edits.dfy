/** Edits over buffer text, and the clean-up `compute_edits` performs on
    each hunk of `text_diff`: shift it to buffer offsets, then strip the
    common prefix and the common suffix of the replaced text and the new
    text, so that the edit only covers what really changes.

    Offsets are character offsets into a snapshot's text; anchors are
    resolved to offsets. `text_diff` itself is not modelled: its hunks are
    an input, ranges relative to the old text of the editable region. */
module ZetaEdits {

  /** Replace the characters in [start, end) by `text`. */
  datatype Edit = Edit(start: nat, end: nat, text: string)

  predicate Fits(e: Edit, len: nat)
  {
    e.start <= e.end <= len
  }

  function ApplyEdit(text: string, e: Edit): (r: string)
    requires Fits(e, |text|)
  {
    text[..e.start] + e.text + text[e.end..]
  }

  /** Ranges well formed and in order, none overlapping the next. */
  predicate Sorted(edits: seq<Edit>)
  {
    && (forall i | 0 <= i < |edits| :: edits[i].start <= edits[i].end)
    && (forall i, j | 0 <= i < j < |edits| :: edits[i].end <= edits[j].start)
  }

  predicate AllFit(edits: seq<Edit>, len: nat)
  {
    forall i | 0 <= i < |edits| :: Fits(edits[i], len)
  }

  lemma SortedPrefix(edits: seq<Edit>, n: nat)
    requires Sorted(edits) && n <= |edits|
    ensures Sorted(edits[..n])
  {
    assert forall i | 0 <= i < n :: edits[..n][i] == edits[i];
  }

  /** Apply a sorted edit list, all offsets in the original text: the last
      edit first, so that the offsets of the earlier ones stay valid. */
  function ApplyEdits(text: string, edits: seq<Edit>): string
    requires Sorted(edits) && AllFit(edits, |text|)
    decreases |edits|
  {
    if edits == [] then text
    else
      var n := |edits| - 1;
      SortedPrefix(edits, n);
      ApplyEdits(ApplyEdit(text, edits[n]), edits[..n])
  }

  /* ---------------------------------------------------------------------
     common_prefix
     --------------------------------------------------------------------- */

  /** `common_prefix`: the length of the longest common prefix of two
      character sequences. */
  function CommonPrefix(a: string, b: string): (n: nat)
    ensures n <= |a| && n <= |b|
    ensures forall i {:trigger a[i]} | 0 <= i < n :: a[i] == b[i]
    ensures n < |a| && n < |b| ==> a[n] != b[n]
  {
    if a == [] || b == [] || a[0] != b[0] then 0
    else
      var m := CommonPrefix(a[1..], b[1..]);
      assert forall i | 1 <= i < m + 1 :: a[i] == a[1..][i - 1] && b[i] == b[1..][i - 1];
      1 + m
  }

  /** `common_prefix` applied to the two reversed character iterators of
      `a[floor..]` and `b[floor..]`: the length of their longest common
      suffix. Position `i` of `a` lines up with position
      `i + |b| - |a|` of `b`. */
  function CommonSuffix(a: string, b: string, floor: nat): (n: nat)
    requires floor <= |a| && floor <= |b|
    ensures n <= |a| - floor && n <= |b| - floor
    ensures forall i | |a| - n <= i < |a| :: a[i] == b[i + |b| - |a|]
    ensures n < |a| - floor && n < |b| - floor ==> a[|a| - 1 - n] != b[|b| - 1 - n]
  {
    SuffixFrom(a, b, floor, 0)
  }

  /** The reversed scan, `k` characters matched so far. */
  function SuffixFrom(a: string, b: string, floor: nat, k: nat): (n: nat)
    requires floor + k <= |a| && floor + k <= |b|
    requires forall i | |a| - k <= i < |a| :: a[i] == b[i + |b| - |a|]
    ensures k <= n <= |a| - floor && n <= |b| - floor
    ensures forall i | |a| - n <= i < |a| :: a[i] == b[i + |b| - |a|]
    ensures n < |a| - floor && n < |b| - floor ==> a[|a| - 1 - n] != b[|b| - 1 - n]
    decreases |a| - k
  {
    if floor + k < |a| && floor + k < |b| && a[|a| - 1 - k] == b[|b| - 1 - k] then
      SuffixFrom(a, b, floor, k + 1)
    else k
  }

  /* ---------------------------------------------------------------------
     compute_edits
     --------------------------------------------------------------------- */

  /** Trim one buffer-offset edit whose replaced characters are `replaced`:
      advance the start past the common prefix, pull the end back over the
      common suffix of what remains (a saturating subtraction), and keep
      the new text in between. */
  function TrimEdit(e: Edit, replaced: string): Edit
    requires e.start <= e.end && |replaced| == e.end - e.start
  {
    var p := CommonPrefix(replaced, e.text);
    var q := CommonSuffix(replaced, e.text, p);
    var newEnd := if e.end >= q then e.end - q else 0;
    Edit(e.start + p, newEnd, e.text[p..|e.text| - q])
  }

  /** What `TrimEdit` cuts: `p` characters off the front and `q` off the
      back of both the replaced characters and the new text. The two agree
      on everything cut and differ just inside it, and the trimmed edit is
      the original with those characters removed. */
  lemma {:induction false} TrimLengths(e: Edit, replaced: string) returns (p: nat, q: nat)
    requires e.start <= e.end && |replaced| == e.end - e.start
    ensures p + q <= |replaced| && p + q <= |e.text|
    ensures var r := TrimEdit(e, replaced);
      r.start == e.start + p && r.end == e.end - q && r.text == e.text[p..|e.text| - q]
    ensures forall i {:trigger replaced[i]} | 0 <= i < p :: replaced[i] == e.text[i]
    ensures forall i | |replaced| - q <= i < |replaced| :: replaced[i] == e.text[i + |e.text| - |replaced|]
    ensures p + q < |replaced| && p + q < |e.text| ==>
      replaced[p] != e.text[p] && replaced[|replaced| - 1 - q] != e.text[|e.text| - 1 - q]
  {
    p := CommonPrefix(replaced, e.text);
    q := CommonSuffix(replaced, e.text, p);
  }

  /** The trimmed edit stays inside the range of the original one. */
  lemma TrimEditInside(e: Edit, replaced: string)
    requires e.start <= e.end && |replaced| == e.end - e.start
    ensures var r := TrimEdit(e, replaced);
      e.start <= r.start <= r.end <= e.end
  {
    var p, q := TrimLengths(e, replaced);
  }

  /** Cutting `p` agreeing characters off the front and `q` off the back of
      both the range [s, t) and the new text `u` does not change the result
      of the replacement. */
  lemma TrimmedApply(text: string, s: nat, t: nat, p: nat, q: nat, u: string)
    requires s <= t <= |text| && p + q <= t - s && p + q <= |u|
    requires forall i | s <= i < s + p :: text[i] == u[i - s]
    requires forall i | t - q <= i < t :: text[i] == u[i - t + |u|]
    ensures text[..s + p] + u[p..|u| - q] + text[t - q..] == text[..s] + u + text[t..]
  {
    var left := text[..s + p] + u[p..|u| - q] + text[t - q..];
    var right := text[..s] + u + text[t..];
    assert |left| == |right|;
    forall k | 0 <= k < |left| ensures left[k] == right[k] {
      if k < s + p {
        assert left[k] == text[k];
      } else if k < s + |u| - q {
        assert left[k] == u[k - s];
      } else {
        assert left[k] == text[k - s - |u| + t];
      }
    }
  }

  /** The edit form of `TrimmedApply`. */
  lemma TrimmedApplyEdit(text: string, e: Edit, p: nat, q: nat)
    requires Fits(e, |text|)
    requires p + q <= e.end - e.start && p + q <= |e.text|
    requires forall i | e.start <= i < e.start + p :: text[i] == e.text[i - e.start]
    requires forall i | e.end - q <= i < e.end :: text[i] == e.text[i - e.end + |e.text|]
    ensures ApplyEdit(text, Edit(e.start + p, e.end - q, e.text[p..|e.text| - q])) == ApplyEdit(text, e)
  {
    TrimmedApply(text, e.start, e.end, p, q, e.text);
  }

  /** Facts about the replaced characters `a` of an edit, read as facts
      about the buffer. */
  lemma InBuffer(text: string, e: Edit, a: string, p: nat, q: nat)
    requires Fits(e, |text|) && a == text[e.start..e.end]
    requires p + q <= |a| && p + q <= |e.text|
    requires forall i {:trigger a[i]} | 0 <= i < p :: a[i] == e.text[i]
    requires forall i | |a| - q <= i < |a| :: a[i] == e.text[i + |e.text| - |a|]
    requires p + q < |a| && p + q < |e.text| ==>
      a[p] != e.text[p] && a[|a| - 1 - q] != e.text[|e.text| - 1 - q]
    ensures forall i | e.start <= i < e.start + p :: text[i] == e.text[i - e.start]
    ensures forall i | e.end - q <= i < e.end :: text[i] == e.text[i - e.end + |e.text|]
    ensures p + q < e.end - e.start && p + q < |e.text| ==>
      text[e.start + p] != e.text[p] && text[e.end - 1 - q] != e.text[|e.text| - 1 - q]
  {
    forall i | e.start <= i < e.start + p ensures text[i] == e.text[i - e.start] {
      assert text[i] == a[i - e.start];
    }
    forall i | e.end - q <= i < e.end ensures text[i] == e.text[i - e.end + |e.text|] {
      assert text[i] == a[i - e.start];
    }
    if p + q < e.end - e.start && p + q < |e.text| {
      assert text[e.start + p] == a[p];
      assert text[e.end - 1 - q] == a[|a| - 1 - q];
    }
  }

  /** `TrimLengths` read in buffer coordinates, for an edit of `text`: the
      cut characters of the buffer agree with the cut characters of the new
      text, and the first and last characters kept differ. */
  lemma TrimInBuffer(text: string, e: Edit) returns (p: nat, q: nat)
    requires Fits(e, |text|)
    ensures p + q <= e.end - e.start && p + q <= |e.text|
    ensures TrimEdit(e, text[e.start..e.end]) == Edit(e.start + p, e.end - q, e.text[p..|e.text| - q])
    ensures forall i | e.start <= i < e.start + p :: text[i] == e.text[i - e.start]
    ensures forall i | e.end - q <= i < e.end :: text[i] == e.text[i - e.end + |e.text|]
    ensures p + q < e.end - e.start && p + q < |e.text| ==>
      text[e.start + p] != e.text[p] && text[e.end - 1 - q] != e.text[|e.text| - 1 - q]
  {
    var a := text[e.start..e.end];
    p, q := TrimLengths(e, a);
    InBuffer(text, e, a, p, q);
  }

  /** Applied to the buffer, the trimmed edit gives exactly what the
      untrimmed edit gives. */
  lemma TrimEditSound(text: string, e: Edit)
    requires Fits(e, |text|)
    ensures Fits(TrimEdit(e, text[e.start..e.end]), |text|)
    ensures ApplyEdit(text, TrimEdit(e, text[e.start..e.end])) == ApplyEdit(text, e)
  {
    var p, q := TrimInBuffer(text, e);
    TrimmedApplyEdit(text, e, p, q);
  }

  /** Nothing more can be trimmed: when both the trimmed range and its text
      are non-empty, their first characters differ and their last
      characters differ. */
  lemma TrimEditMinimal(text: string, e: Edit)
    requires Fits(e, |text|)
    ensures var r := TrimEdit(e, text[e.start..e.end]);
      r.start < r.end && r.text != [] ==>
        && text[r.start] != r.text[0]
        && text[r.end - 1] != r.text[|r.text| - 1]
  {
    var p, q := TrimInBuffer(text, e);
    EdgesDiffer(text, e, p, q);
  }

  lemma EdgesDiffer(text: string, e: Edit, p: nat, q: nat)
    requires Fits(e, |text|) && p + q <= e.end - e.start && p + q <= |e.text|
    requires p + q < e.end - e.start && p + q < |e.text| ==>
      text[e.start + p] != e.text[p] && text[e.end - 1 - q] != e.text[|e.text| - 1 - q]
    ensures var r := Edit(e.start + p, e.end - q, e.text[p..|e.text| - q]);
      r.start < r.end && r.text != [] ==>
        && text[r.start] != r.text[0]
        && text[r.end - 1] != r.text[|r.text| - 1]
  {
  }

  /** A hunk relative to the editable region, moved to buffer offsets. */
  function Shift(hunk: Edit, offset: nat): Edit
  {
    Edit(offset + hunk.start, offset + hunk.end, hunk.text)
  }

  function ShiftAll(hunks: seq<Edit>, offset: nat): seq<Edit>
  {
    seq(|hunks|, i requires 0 <= i < |hunks| => Shift(hunks[i], offset))
  }

  /** One hunk of `text_diff`, shifted by the region's start `offset` and
      trimmed against the snapshot. */
  function TrimHunk(snapshot: string, offset: nat, hunk: Edit): Edit
    requires offset <= |snapshot| && Fits(hunk, |snapshot| - offset)
  {
    var e := Shift(hunk, offset);
    TrimEdit(e, snapshot[e.start..e.end])
  }

  /** `compute_edits`: the per-hunk map over the diff's hunks. */
  function ComputeEdits(snapshot: string, offset: nat, hunks: seq<Edit>): seq<Edit>
    requires offset <= |snapshot| && AllFit(hunks, |snapshot| - offset)
  {
    seq(|hunks|, i requires 0 <= i < |hunks| => TrimHunk(snapshot, offset, hunks[i]))
  }

  /** Trimming keeps every edit inside its hunk's shifted range, so the
      edits stay sorted and in bounds. */
  lemma ComputeEditsSorted(snapshot: string, offset: nat, hunks: seq<Edit>)
    requires offset <= |snapshot| && Sorted(hunks) && AllFit(hunks, |snapshot| - offset)
    ensures var r := ComputeEdits(snapshot, offset, hunks);
      && Sorted(r) && AllFit(r, |snapshot|)
      && forall i | 0 <= i < |r| :: offset + hunks[i].start <= r[i].start && r[i].end <= offset + hunks[i].end
  {
    var r := ComputeEdits(snapshot, offset, hunks);
    forall i | 0 <= i < |r|
      ensures offset + hunks[i].start <= r[i].start <= r[i].end <= offset + hunks[i].end
    {
      var e := Shift(hunks[i], offset);
      TrimEditInside(e, snapshot[e.start..e.end]);
    }
  }

  /** Peeling the last edit of a sorted list off: the rest is sorted, lies
      before it, and still fits the text once the last edit is applied. */
  lemma EarlierFit(text: string, edits: seq<Edit>)
    requires Sorted(edits) && AllFit(edits, |text|) && edits != []
    ensures var n := |edits| - 1;
      && Sorted(edits[..n])
      && AllFit(edits[..n], |ApplyEdit(text, edits[n])|)
      && ApplyEdits(text, edits) == ApplyEdits(ApplyEdit(text, edits[n]), edits[..n])
  {
    var n := |edits| - 1;
    SortedPrefix(edits, n);
    forall i | 0 <= i < n ensures Fits(edits[..n][i], |ApplyEdit(text, edits[n])|) {
      assert edits[i].end <= edits[n].start;
    }
  }

  /** A shifted list is sorted and fits the surrounding text. */
  lemma ShiftAllFits(hunks: seq<Edit>, offset: nat, len: nat, total: nat)
    requires Sorted(hunks) && AllFit(hunks, len) && offset + len <= total
    ensures Sorted(ShiftAll(hunks, offset)) && AllFit(ShiftAll(hunks, offset), total)
  {
  }

  /** One edit of the region, shifted past `pre`, edits only the region. */
  lemma ApplyShiftedOne(pre: string, region: string, post: string, h: Edit)
    requires Fits(h, |region|)
    ensures Fits(Shift(h, |pre|), |pre + region + post|)
    ensures ApplyEdit(pre + region + post, Shift(h, |pre|)) == pre + ApplyEdit(region, h) + post
  {
    var whole := pre + region + post;
    assert whole[..|pre| + h.start] == pre + region[..h.start];
    assert whole[|pre| + h.end..] == region[h.end..] + post;
  }

  /** Applying a shifted edit list to a text with `pre` before the region
      and `post` after it edits only the region. */
  lemma {:induction false} ApplyShifted(pre: string, region: string, post: string, hunks: seq<Edit>)
    requires Sorted(hunks) && AllFit(hunks, |region|)
    ensures Sorted(ShiftAll(hunks, |pre|)) && AllFit(ShiftAll(hunks, |pre|), |pre + region + post|)
    ensures ApplyEdits(pre + region + post, ShiftAll(hunks, |pre|)) == pre + ApplyEdits(region, hunks) + post
    decreases |hunks|
  {
    ShiftAllFits(hunks, |pre|, |region|, |pre + region + post|);
    if hunks != [] {
      var n := |hunks| - 1;
      var shifted := ShiftAll(hunks, |pre|);
      EarlierFit(region, hunks);
      EarlierFit(pre + region + post, shifted);
      ApplyShiftedOne(pre, region, post, hunks[n]);
      ApplyShifted(pre, ApplyEdit(region, hunks[n]), post, hunks[..n]);
      assert shifted[..n] == ShiftAll(hunks[..n], |pre|);
    }
  }

  /** Applying the trimmed edits of a sorted list gives the same text as
      applying the untrimmed ones. */
  lemma {:induction false} ApplyTrimmed(text: string, edits: seq<Edit>, trimmed: seq<Edit>)
    requires Sorted(edits) && AllFit(edits, |text|)
    requires |trimmed| == |edits|
    requires forall i | 0 <= i < |edits| :: trimmed[i] == TrimEdit(edits[i], text[edits[i].start..edits[i].end])
    ensures Sorted(trimmed) && AllFit(trimmed, |text|)
    ensures ApplyEdits(text, trimmed) == ApplyEdits(text, edits)
    decreases |edits|
  {
    TrimmedSorted(text, edits, trimmed);
    if edits != [] {
      var n := |edits| - 1;
      var e := edits[n];
      TrimEditSound(text, e);
      EarlierFit(text, edits);
      EarlierFit(text, trimmed);
      var text' := ApplyEdit(text, e);
      TrimmedPrefix(text, edits, trimmed);
      ApplyTrimmed(text', edits[..n], trimmed[..n]);
    }
  }

  /** Trimming every edit of a sorted list keeps it sorted and in bounds. */
  lemma TrimmedSorted(text: string, edits: seq<Edit>, trimmed: seq<Edit>)
    requires Sorted(edits) && AllFit(edits, |text|)
    requires |trimmed| == |edits|
    requires forall i | 0 <= i < |edits| :: trimmed[i] == TrimEdit(edits[i], text[edits[i].start..edits[i].end])
    ensures Sorted(trimmed) && AllFit(trimmed, |text|)
  {
    forall i | 0 <= i < |edits|
      ensures edits[i].start <= trimmed[i].start <= trimmed[i].end <= edits[i].end
    {
      TrimEditInside(edits[i], text[edits[i].start..edits[i].end]);
    }
  }

  /** The earlier edits read the same characters once the last one has been
      applied, so their trimmed forms are unchanged. */
  lemma TrimmedPrefix(text: string, edits: seq<Edit>, trimmed: seq<Edit>)
    requires Sorted(edits) && AllFit(edits, |text|) && edits != []
    requires |trimmed| == |edits|
    requires forall i | 0 <= i < |edits| :: trimmed[i] == TrimEdit(edits[i], text[edits[i].start..edits[i].end])
    ensures var n := |edits| - 1;
      var text' := ApplyEdit(text, edits[n]);
      && AllFit(edits[..n], |text'|)
      && forall i | 0 <= i < n ::
        trimmed[i] == TrimEdit(edits[i], text'[edits[i].start..edits[i].end])
  {
    var n := |edits| - 1;
    var e := edits[n];
    var text' := ApplyEdit(text, e);
    EarlierFit(text, edits);
    forall i | 0 <= i < n
      ensures trimmed[i] == TrimEdit(edits[i], text'[edits[i].start..edits[i].end])
    {
      assert edits[i].end <= e.start;
      SliceBeforeEdit(text, e, edits[i].start, edits[i].end);
    }
  }

  /** An edit leaves the characters before its start where they were. */
  lemma SliceBeforeEdit(text: string, e: Edit, s: nat, t: nat)
    requires Fits(e, |text|) && s <= t <= e.start
    ensures ApplyEdit(text, e)[s..t] == text[s..t]
  {
    var r := ApplyEdit(text, e);
    assert forall k | s <= k < t :: r[k] == text[k];
  }

  /** What `compute_edits` promises: if the hunks turn the region's old text
      into the new text, the trimmed edits turn the snapshot into the
      snapshot with that region replaced by the new text. */
  lemma ComputeEditsCorrect(snapshot: string, offset: nat, regionEnd: nat, hunks: seq<Edit>, newText: string)
    requires offset <= regionEnd <= |snapshot|
    requires Sorted(hunks) && AllFit(hunks, regionEnd - offset)
    requires ApplyEdits(snapshot[offset..regionEnd], hunks) == newText
    ensures var r := ComputeEdits(snapshot, offset, hunks);
      && Sorted(r) && AllFit(r, |snapshot|)
      && ApplyEdits(snapshot, r) == snapshot[..offset] + newText + snapshot[regionEnd..]
  {
    var pre, region, post := snapshot[..offset], snapshot[offset..regionEnd], snapshot[regionEnd..];
    assert snapshot == pre + region + post;
    ApplyShifted(pre, region, post, hunks);
    var shifted := ShiftAll(hunks, offset);
    var r := ComputeEdits(snapshot, offset, hunks);
    ApplyTrimmed(snapshot, shifted, r);
  }
}
