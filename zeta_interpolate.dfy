/** `interpolate` (crates/zeta/src/zeta.rs): carry a predicted edit list
    over the edits the user made since the prediction's snapshot.

    Offsets stand for anchors: every range, the model's and the user's, is
    in the coordinates of the prediction's (old) snapshot, and the result is
    in those coordinates too, as the anchors of the source are. */
module ZetaInterpolate {
  import opened Wrappers
  import opened ZetaEdits

  /** One entry of `edits_since`: the replaced range of the old snapshot and
      the text that now stands in its place. */
  datatype UserEdit = UserEdit(oldStart: nat, oldEnd: nat, newText: string)

  predicate StartsWith(s: string, prefix: string)
  {
    |prefix| <= |s| && s[..|prefix|] == prefix
  }

  /** The user edit covers exactly the model edit's range and typed a prefix
      of its text. */
  predicate Matches(u: UserEdit, m: Edit)
  {
    u.oldStart == m.start && u.oldEnd == m.end && StartsWith(m.text, u.newText)
  }

  /** What is left of a model edit the user has partly typed: an insertion of
      the rest of its text after the replaced range, or nothing. */
  function Remainder(u: UserEdit, m: Edit): (r: seq<Edit>)
    requires Matches(u, m)
    ensures |r| <= 1
    ensures r == [] <==> u.newText == m.text
    ensures r != [] ==> r[0].start == r[0].end == m.end && u.newText + r[0].text == m.text
  {
    var suffix := m.text[|u.newText|..];
    assert m.text == u.newText + suffix;
    if suffix == [] then [] else [Edit(u.oldEnd, u.oldEnd, suffix)]
  }

  function Prepend(front: seq<Edit>, rest: Option<seq<Edit>>): Option<seq<Edit>>
  {
    match rest
    case None => None
    case Some(edits) => Some(front + edits)
  }

  /** The four rules, user edit by user edit: keep the model edits that end
      before it, turn a matching model edit into its remainder, fail on
      anything else, and keep the model edits left once the user edits
      run out. */
  function Rebase(user: seq<UserEdit>, model: seq<Edit>): (r: Option<seq<Edit>>)
    ensures r.Some? ==> |r.value| <= |model|
    decreases |user| + |model|
  {
    if user == [] then Some(model)
    else if model == [] then None
    else if model[0].end < user[0].oldStart then Prepend([model[0]], Rebase(user, model[1..]))
    else if Matches(user[0], model[0]) then
      Prepend(Remainder(user[0], model[0]), Rebase(user[1..], model[1..]))
    else None
  }

  /** `interpolate`: the rebased list, with an empty list reported as `None`. */
  function Interpolate(user: seq<UserEdit>, model: seq<Edit>): (r: Option<seq<Edit>>)
    ensures r.Some? ==> r.value != [] && |r.value| <= |model|
    ensures user == [] ==> (r.Some? <==> model != [])
  {
    match Rebase(user, model)
    case None => None
    case Some(edits) => if edits == [] then None else Some(edits)
  }

  /** The loop of `interpolate`: a cursor over the model edits, advanced past
      the edits before each user edit, then over the one it matches. */
  method InterpolateEdits(user: seq<UserEdit>, model: seq<Edit>) returns (r: Option<seq<Edit>>)
    ensures r == Interpolate(user, model)
  {
    var edits: seq<Edit> := [];
    var j := 0;
    assert user[0..] == user && model[0..] == model;
    PrependNothing(Rebase(user, model));
    for i := 0 to |user|
      invariant j <= |model|
      invariant Rebase(user, model) == Prepend(edits, Rebase(user[i..], model[j..]))
    {
      var u := user[i];
      while j < |model| && model[j].end < u.oldStart
        invariant j <= |model|
        invariant Rebase(user, model) == Prepend(edits, Rebase(user[i..], model[j..]))
      {
        KeepAdvance(user, model, i, j, edits);
        edits := edits + [model[j]];
        j := j + 1;
      }
      if j < |model| && Matches(u, model[j]) {
        MatchAdvance(user, model, i, j, edits);
        var suffix := model[j].text[|u.newText|..];
        if suffix != [] {
          edits := edits + [Edit(u.oldEnd, u.oldEnd, suffix)];
        }
        j := j + 1;
        continue;
      }
      NoRebase(user, model, i, j);
      return None;
    }
    RebaseDone(user, model[j..]);
    edits := edits + model[j..];
    if edits == [] {
      return None;
    }
    return Some(edits);
  }

  /** Once the user edits run out, the model edits left are kept. */
  lemma RebaseDone(user: seq<UserEdit>, rest: seq<Edit>)
    ensures Rebase(user[|user|..], rest) == Some(rest)
  {
    assert user[|user|..] == [];
  }

  /** The cursor steps over a model edit that ends before the user edit. */
  lemma KeepAdvance(user: seq<UserEdit>, model: seq<Edit>, i: nat, j: nat, edits: seq<Edit>)
    requires i < |user| && j < |model| && model[j].end < user[i].oldStart
    ensures Prepend(edits, Rebase(user[i..], model[j..]))
      == Prepend(edits + [model[j]], Rebase(user[i..], model[j + 1..]))
  {
    KeepStep(user[i..], model[j..]);
    assert model[j..][1..] == model[j + 1..];
    PrependTwice(edits, [model[j]], Rebase(user[i..], model[j + 1..]));
  }

  /** The user edit matches the model edit under the cursor: both move on,
      and the remainder joins the result. */
  lemma MatchAdvance(user: seq<UserEdit>, model: seq<Edit>, i: nat, j: nat, edits: seq<Edit>)
    requires i < |user| && j < |model| && !(model[j].end < user[i].oldStart)
    requires Matches(user[i], model[j])
    ensures var suffix := model[j].text[|user[i].newText|..];
      Prepend(edits, Rebase(user[i..], model[j..]))
      == Prepend(if suffix != [] then edits + [Edit(user[i].oldEnd, user[i].oldEnd, suffix)] else edits,
                 Rebase(user[i + 1..], model[j + 1..]))
  {
    assert edits + [] == edits;
    MatchStep(user[i..], model[j..]);
    assert user[i..][1..] == user[i + 1..] && model[j..][1..] == model[j + 1..];
    PrependTwice(edits, Remainder(user[i], model[j]), Rebase(user[i + 1..], model[j + 1..]));
  }

  /** A user edit that neither follows the model edit under the cursor nor
      matches it ends the rebase. */
  lemma NoRebase(user: seq<UserEdit>, model: seq<Edit>, i: nat, j: nat)
    requires i < |user| && j <= |model|
    requires !(j < |model| && model[j].end < user[i].oldStart)
    requires !(j < |model| && Matches(user[i], model[j]))
    ensures Rebase(user[i..], model[j..]) == None
  {
  }

  lemma PrependTwice(a: seq<Edit>, b: seq<Edit>, o: Option<seq<Edit>>)
    ensures Prepend(a, Prepend(b, o)) == Prepend(a + b, o)
  {
    if o.Some? {
      assert a + (b + o.value) == (a + b) + o.value;
    }
  }

  lemma PrependNothing(o: Option<seq<Edit>>)
    ensures Prepend([], o) == o
  {
    if o.Some? {
      assert [] + o.value == o.value;
    }
  }

  lemma KeepStep(user: seq<UserEdit>, model: seq<Edit>)
    requires user != [] && model != [] && model[0].end < user[0].oldStart
    ensures Rebase(user, model) == Prepend([model[0]], Rebase(user, model[1..]))
  {
  }

  lemma MatchStep(user: seq<UserEdit>, model: seq<Edit>)
    requires user != [] && model != [] && !(model[0].end < user[0].oldStart) && Matches(user[0], model[0])
    ensures Rebase(user, model) == Prepend(Remainder(user[0], model[0]), Rebase(user[1..], model[1..]))
  {
  }

  /* ---------------------------------------------------------------------
     Properties of the rebased list
     --------------------------------------------------------------------- */

  /** Every rebased edit is a model edit kept unchanged or the remainder of
      a model edit that a user edit matched. */
  ghost predicate FromModel(e: Edit, user: seq<UserEdit>, model: seq<Edit>)
  {
    || e in model
    || exists i, j | 0 <= i < |user| && 0 <= j < |model| ::
         Matches(user[i], model[j]) && e in Remainder(user[i], model[j])
  }

  lemma {:induction false} RebaseProvenance(user: seq<UserEdit>, model: seq<Edit>)
    requires Rebase(user, model).Some?
    ensures forall e | e in Rebase(user, model).value :: FromModel(e, user, model)
    decreases |user| + |model|
  {
    if user == [] || model == [] {
    } else if model[0].end < user[0].oldStart {
      RebaseProvenance(user, model[1..]);
      forall e | e in Rebase(user, model).value
        ensures FromModel(e, user, model)
      {
        if e != model[0] {
          assert e in Rebase(user, model[1..]).value;
          LaterModel(e, user, model);
        }
      }
    } else {
      RebaseProvenance(user[1..], model[1..]);
      forall e | e in Rebase(user, model).value
        ensures FromModel(e, user, model)
      {
        if e in Remainder(user[0], model[0]) {
          assert Matches(user[0], model[0]);
        } else {
          assert e in Rebase(user[1..], model[1..]).value;
          LaterBoth(e, user, model);
        }
      }
    }
  }

  lemma LaterModel(e: Edit, user: seq<UserEdit>, model: seq<Edit>)
    requires model != [] && FromModel(e, user, model[1..])
    ensures FromModel(e, user, model)
  {
    if e !in model[1..] {
      var i, j :| 0 <= i < |user| && 0 <= j < |model| - 1
        && Matches(user[i], model[1..][j]) && e in Remainder(user[i], model[1..][j]);
      assert model[1..][j] == model[j + 1];
    }
  }

  lemma LaterBoth(e: Edit, user: seq<UserEdit>, model: seq<Edit>)
    requires user != [] && model != [] && FromModel(e, user[1..], model[1..])
    ensures FromModel(e, user, model)
  {
    if e !in model[1..] {
      var i, j :| 0 <= i < |user| - 1 && 0 <= j < |model| - 1
        && Matches(user[1..][i], model[1..][j]) && e in Remainder(user[1..][i], model[1..][j]);
      assert user[1..][i] == user[i + 1] && model[1..][j] == model[j + 1];
    }
  }

  /** A rebase succeeds only when every user edit matched some model edit:
      a user edit that overlaps a prediction in any other way, or that lies
      after all of it, makes `interpolate` return `None`. */
  lemma {:induction false} RebaseNeedsMatches(user: seq<UserEdit>, model: seq<Edit>)
    requires Rebase(user, model).Some?
    ensures forall i | 0 <= i < |user| :: exists m | m in model :: Matches(user[i], m)
    decreases |user| + |model|
  {
    if user == [] {
    } else if model[0].end < user[0].oldStart {
      RebaseNeedsMatches(user, model[1..]);
      forall i | 0 <= i < |user|
        ensures exists m | m in model :: Matches(user[i], m)
      {
        var m :| m in model[1..] && Matches(user[i], m);
        assert m in model;
      }
    } else {
      RebaseNeedsMatches(user[1..], model[1..]);
      forall i | 0 <= i < |user|
        ensures exists m | m in model :: Matches(user[i], m)
      {
        if i == 0 {
          assert model[0] in model;
        } else {
          assert user[i] == user[1..][i - 1];
          var m :| m in model[1..] && Matches(user[1..][i - 1], m);
          assert m in model;
        }
      }
    }
  }

  /** Rebasing keeps a sorted prediction sorted, and no rebased edit starts
      before the first model edit. */
  lemma {:induction false} RebaseSorted(user: seq<UserEdit>, model: seq<Edit>)
    requires Sorted(model) && Rebase(user, model).Some?
    ensures Sorted(Rebase(user, model).value)
    ensures model != [] ==> forall e | e in Rebase(user, model).value :: model[0].start <= e.start
    decreases |user| + |model|
  {
    if user == [] || model == [] {
    } else {
      var tail := model[1..];
      assert Sorted(tail) by {
        assert forall i | 0 <= i < |tail| :: tail[i] == model[i + 1];
      }
      var front, rest;
      if model[0].end < user[0].oldStart {
        RebaseSorted(user, tail);
        front, rest := [model[0]], Rebase(user, tail).value;
      } else {
        RebaseSorted(user[1..], tail);
        front, rest := Remainder(user[0], model[0]), Rebase(user[1..], tail).value;
      }
      assert Rebase(user, model).value == front + rest;
      assert tail != [] ==> model[0].end <= tail[0].start;
      JoinSorted(front, rest, model[0], tail);
    }
  }

  /** A front of at most one edit inside `m`, before a sorted rest that
      starts no earlier than the next model edit. */
  lemma JoinSorted(front: seq<Edit>, rest: seq<Edit>, m: Edit, tail: seq<Edit>)
    requires |front| <= 1 && Sorted(rest) && m.start <= m.end
    requires forall e | e in front :: m.start <= e.start <= e.end <= m.end
    requires tail != [] ==> m.end <= tail[0].start
    requires tail != [] ==> forall e | e in rest :: tail[0].start <= e.start
    requires tail == [] ==> rest == []
    ensures Sorted(front + rest)
    ensures forall e | e in front + rest :: m.start <= e.start
  {
    var all := front + rest;
    forall i, j | 0 <= i < j < |all|
      ensures all[i].end <= all[j].start
    {
      if i >= |front| {
        assert all[i] == rest[i - |front|] && all[j] == rest[j - |front|];
      } else {
        assert all[i] in front && all[j] in rest;
      }
    }
    forall e | e in all
      ensures m.start <= e.start
    {
      if e in rest {
        assert tail != [];
      }
    }
  }

  /** Typing the whole prediction leaves nothing to suggest. */
  lemma {:induction false} TypedWholePrediction(user: seq<UserEdit>, model: seq<Edit>)
    requires Sorted(model) && |user| == |model|
    requires forall k | 0 <= k < |model| :: user[k] == UserEdit(model[k].start, model[k].end, model[k].text)
    ensures Rebase(user, model) == Some([])
    ensures Interpolate(user, model) == None
  {
    if model != [] {
      var tail := model[1..];
      assert Sorted(tail) by {
        assert forall i | 0 <= i < |tail| :: tail[i] == model[i + 1];
      }
      assert forall k | 0 <= k < |tail| :: user[1..][k] == user[k + 1] && tail[k] == model[k + 1];
      TypedWholePrediction(user[1..], tail);
      assert model[0].text[..|model[0].text|] == model[0].text;
      assert Matches(user[0], model[0]);
    }
  }

  /** The remainder completes what the user typed: replacing the model
      edit's range by the typed text and then inserting the remainder right
      after it yields the text the model edit would have produced. */
  lemma RemainderCompletes(text: string, u: UserEdit, m: Edit)
    requires Fits(m, |text|) && Matches(u, m)
    ensures var typed := ApplyEdit(text, Edit(m.start, m.end, u.newText));
      var at := m.start + |u.newText|;
      var rest := m.text[|u.newText|..];
      at <= |typed| && ApplyEdit(typed, Edit(at, at, rest)) == ApplyEdit(text, m)
  {
    var typed := ApplyEdit(text, Edit(m.start, m.end, u.newText));
    var at := m.start + |u.newText|;
    assert typed[..at] == text[..m.start] + u.newText;
    assert typed[at..] == text[m.end..];
    assert m.text == u.newText + m.text[|u.newText|..];
  }

  /* ---------------------------------------------------------------------
     The interpolation test, in old-snapshot offsets: the prediction
     replaces "rem" at 2..5 by "REM" and deletes 9..11 of
     "Lorem ipsum dolor".
     --------------------------------------------------------------------- */

  /** Typing "R" over 2..5 leaves the insertion of "EM" after the range. */
  lemma PartlyTypedExample(model: seq<Edit>, user: seq<UserEdit>)
    requires model == [Edit(2, 5, "REM"), Edit(9, 11, "")]
    requires user == [UserEdit(2, 5, "R")]
    ensures Interpolate(user, model) == Some([Edit(5, 5, "EM"), Edit(9, 11, "")])
  {
    assert StartsWith("REM", "R");
    assert "REM"[1..] == "EM";
    assert Remainder(user[0], model[0]) == [Edit(5, 5, "EM")];
    assert user[1..] == [] && model[1..] == [Edit(9, 11, "")];
    assert Rebase(user, model) == Some([Edit(5, 5, "EM")] + [Edit(9, 11, "")]);
    assert [Edit(5, 5, "EM")] + [Edit(9, 11, "")] == [Edit(5, 5, "EM"), Edit(9, 11, "")];
  }

  /** Before the user types anything the prediction is unchanged. */
  lemma UntouchedExample(model: seq<Edit>)
    requires model == [Edit(2, 5, "REM"), Edit(9, 11, "")]
    ensures Interpolate([], model) == Some(model)
  {
  }

  /** Typing all of "REM" over 2..5 leaves only the deletion at 9..11. */
  lemma TypedFirstExample(model: seq<Edit>, user: seq<UserEdit>)
    requires model == [Edit(2, 5, "REM"), Edit(9, 11, "")]
    requires user == [UserEdit(2, 5, "REM")]
    ensures Interpolate(user, model) == Some([Edit(9, 11, "")])
  {
    assert StartsWith("REM", "REM");
    assert Remainder(user[0], model[0]) == [];
    assert user[1..] == [] && model[1..] == [Edit(9, 11, "")];
    assert [] + [Edit(9, 11, "")] == [Edit(9, 11, "")];
    assert Rebase(user, model) == Prepend([], Rebase([], [Edit(9, 11, "")]));
  }

  /** Typing "RE" over 2..5 and then deleting past the predicted range
      (old 5..7) and the predicted deletion: the first user edit no longer
      covers exactly a predicted range. */
  lemma DivergedExample(model: seq<Edit>, user: seq<UserEdit>)
    requires model == [Edit(2, 5, "REM"), Edit(9, 11, "")]
    requires user == [UserEdit(2, 7, "RE"), UserEdit(9, 11, "")]
    ensures Interpolate(user, model) == None
  {
  }
}
