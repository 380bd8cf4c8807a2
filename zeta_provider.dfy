/** `ZetaInlineCompletionProvider` and `CurrentInlineCompletion`
    (crates/zeta/src/zeta.rs): which of two completions to show, the queue of
    at most two pending requests, accept and discard, and the window of edits
    `suggest` shows around the cursor.

    `edits_since` is the parameter `since(old, new)`, the user edits between
    two snapshots; `to_point(..).row` of a completion offset is the
    parameter `row`. Rows are `u32` in the source. */
module ZetaProvider {
  import opened Wrappers
  import opened ZetaEdits
  import opened ZetaInterpolate
  import opened ZetaHistory

  newtype u32 = x: int | 0 <= x < 0x1_0000_0000

  /** `CurrentInlineCompletion`: a completion and the buffer it is for. */
  datatype CurrentCompletion = CurrentCompletion(bufferId: nat, completion: Completion)

  /** `InlineCompletion::interpolate` against the buffer's current snapshot. */
  function InterpolateAt(c: Completion, current: Snapshot, since: (Snapshot, Snapshot) -> seq<UserEdit>)
    : Option<seq<Edit>>
  {
    Interpolate(since(c.snapshot, current), c.edits)
  }

  /** `should_replace_completion`: does `next` replace the completion `prev`
      on display? */
  function ShouldReplace(next: CurrentCompletion, prev: CurrentCompletion, current: Snapshot,
                         since: (Snapshot, Snapshot) -> seq<UserEdit>): (r: bool)
    // a completion for another buffer, or one the user has typed past, is replaced
    ensures next.bufferId != prev.bufferId ==> r
    ensures InterpolateAt(prev.completion, current, since).None? ==> r
    // otherwise a new completion that is already stale never replaces it
    ensures (next.bufferId == prev.bufferId && InterpolateAt(prev.completion, current, since).Some?
             && InterpolateAt(next.completion, current, since).None?) ==> !r
    // two single edits: replace exactly when the new one extends the old one
    ensures (&& next.bufferId == prev.bufferId
             && InterpolateAt(prev.completion, current, since).Some?
             && InterpolateAt(next.completion, current, since).Some?
             && |InterpolateAt(prev.completion, current, since).value| == 1
             && |InterpolateAt(next.completion, current, since).value| == 1) ==>
      var p := InterpolateAt(prev.completion, current, since).value[0];
      var n := InterpolateAt(next.completion, current, since).value[0];
      (r <==> n.start == p.start && n.end == p.end && StartsWith(n.text, p.text))
  {
    if next.bufferId != prev.bufferId then true
    else match InterpolateAt(prev.completion, current, since)
      case None => true
      case Some(oldEdits) =>
        match InterpolateAt(next.completion, current, since)
        case None => false
        case Some(newEdits) =>
          if |oldEdits| == 1 && |newEdits| == 1 then
            newEdits[0].start == oldEdits[0].start && newEdits[0].end == oldEdits[0].end
            && StartsWith(newEdits[0].text, oldEdits[0].text)
          else true
  }

  /** Every other case replaces: several edits on either side, with both
      completions still applicable to the same buffer. */
  lemma SeveralEditsReplace(next: CurrentCompletion, prev: CurrentCompletion, current: Snapshot,
                            since: (Snapshot, Snapshot) -> seq<UserEdit>)
    requires InterpolateAt(prev.completion, current, since).Some?
    requires InterpolateAt(next.completion, current, since).Some?
    requires |InterpolateAt(prev.completion, current, since).value| != 1
             || |InterpolateAt(next.completion, current, since).value| != 1
    ensures ShouldReplace(next, prev, current, since)
  {
  }

  /* ---------------------------------------------------------------------
     The pending-request queue
     --------------------------------------------------------------------- */

  /** The queue after a request with id `id` is started: appended when at
      most one is pending, replacing the newest when two are. */
  function Enqueue(pending: seq<nat>, id: nat): (r: seq<nat>)
    ensures |pending| <= 2 ==> |r| <= 2 && r != [] && r[|r| - 1] == id
    ensures |pending| <= 1 ==> r == pending + [id]
    ensures |pending| == 2 ==> r == [pending[0], id]
  {
    if |pending| <= 1 then pending + [id]
    else if |pending| == 2 then pending[..1] + [id]
    else pending
  }

  /** The queue after request `id` finished: it leaves the front when it is
      the front; otherwise an older request is still in front and the whole
      queue is dropped. */
  function Settled(pending: seq<nat>, id: nat): (r: seq<nat>)
    requires pending != []
    ensures |r| < |pending|
    ensures r == [] || r == pending[1..]
    ensures pending[0] == id ==> r == pending[1..]
    ensures pending[0] != id ==> r == []
  {
    if pending[0] == id then pending[1..] else []
  }

  ghost predicate Increasing(ids: seq<nat>)
  {
    forall i, j | 0 <= i < j < |ids| :: ids[i] < ids[j]
  }

  class Provider {
    /** `pending_completions`, by id, oldest first. */
    var pending: seq<nat>
    /** `next_pending_completion_id`. */
    var nextId: nat
    /** `current_completion`. */
    var current: Option<CurrentCompletion>

    /** At most two requests pending, in increasing id order, all issued. */
    ghost predicate Valid()
      reads this
    {
      && |pending| <= 2
      && Increasing(pending)
      && (forall k | 0 <= k < |pending| :: pending[k] < nextId)
    }

    constructor ()
      ensures Valid()
      ensures pending == [] && nextId == 0 && current == None
    {
      pending := [];
      nextId := 0;
      current := None;
    }

    /** `is_refreshing`. */
    function IsRefreshing(): (r: bool)
      reads this
      ensures r <==> |pending| > 0
    {
      pending != []
    }

    /** `refresh`, up to the spawned request: nothing happens while the
      current completion still applies; otherwise a request gets the next
      id and joins the queue. */
    method Refresh(snapshot: Snapshot, since: (Snapshot, Snapshot) -> seq<UserEdit>)
      modifies this
      ensures old(Valid()) ==> Valid()
      ensures current == old(current)
      ensures old(current).Some? && InterpolateAt(old(current).value.completion, snapshot, since).Some? ==>
        pending == old(pending) && nextId == old(nextId)
      ensures !(old(current).Some? && InterpolateAt(old(current).value.completion, snapshot, since).Some?) ==>
        pending == Enqueue(old(pending), old(nextId)) && nextId == old(nextId) + 1
    {
      if current.Some? {
        if InterpolateAt(current.value.completion, snapshot, since).Some? {
          return;
        }
      }
      var id := nextId;
      nextId := nextId + 1;
      if |pending| <= 1 {
        pending := pending + [id];
      } else if |pending| == 2 {
        pending := pending[..1] + [id];
      }
    }

    /** The end of a request's task: settle the queue, then show the new
      completion when there is none or it should replace the current one.
      Only a request that is still pending can finish, since dropping a
      queue entry cancels its task. */
    method Settle(id: nat, result: Option<CurrentCompletion>, snapshot: Snapshot,
                  since: (Snapshot, Snapshot) -> seq<UserEdit>, zeta: Zeta)
      requires id in pending
      modifies this, zeta
      ensures old(Valid()) ==> Valid()
      ensures pending == Settled(old(pending), id) && nextId == old(nextId)
      ensures zeta.events == old(zeta.events)
      ensures result.None? ==> current == old(current) && zeta.shownCompletions == old(zeta.shownCompletions)
      ensures result.Some? ==>
        var shown := old(current).None? || ShouldReplace(result.value, old(current).value, snapshot, since);
        && current == (if shown then result else old(current))
        && zeta.shownCompletions == (if shown then [result.value.completion] + old(zeta.shownCompletions)
                                     else old(zeta.shownCompletions))
    {
      if pending[0] == id {
        pending := pending[1..];
      } else {
        pending := [];
      }
      if result.Some? {
        var next := result.value;
        if current.Some? {
          if ShouldReplace(next, current.value, snapshot, since) {
            zeta.CompletionShown(next.completion);
            current := result;
          }
        } else {
          zeta.CompletionShown(next.completion);
          current := result;
        }
      }
    }

    /** `accept`. */
    method Accept()
      modifies this
      ensures Valid()
      ensures pending == [] && nextId == old(nextId) && current == old(current)
    {
      pending := [];
    }

    /** `discard`. */
    method Discard()
      modifies this
      ensures Valid()
      ensures pending == [] && nextId == old(nextId) && current == None
    {
      pending := [];
      current := None;
    }

    /** `suggest`: the current completion, interpolated, cut down to the edits
      near the cursor. A completion for another buffer, or one that no
      longer interpolates, is dropped. */
    method Suggest(bufferId: nat, snapshot: Snapshot, since: (Snapshot, Snapshot) -> seq<UserEdit>,
                   cursorRow: u32, row: nat -> u32)
      returns (r: Option<seq<Edit>>)
      modifies this
      ensures pending == old(pending) && nextId == old(nextId)
      ensures old(current).None? ==> r == None && current == None
      ensures (old(current).Some? && (old(current).value.bufferId != bufferId
               || InterpolateAt(old(current).value.completion, snapshot, since).None?)) ==>
        r == None && current == None
      ensures (old(current).Some? && old(current).value.bufferId == bufferId
               && InterpolateAt(old(current).value.completion, snapshot, since).Some?) ==>
        && current == old(current)
        && r.Some?
        && var edits := InterpolateAt(old(current).value.completion, snapshot, since).value;
           exists s, c, e :: 0 <= s <= c < e <= |edits| && r.value == edits[s..e]
             && IsClosest(edits, c, cursorRow, row) && IsWindow(edits, c, s, e, row)
    {
      if current.None? {
        return None;
      }
      var cur := current.value;
      if cur.bufferId != bufferId {
        current := None;
        return None;
      }
      var interpolated := InterpolateAt(cur.completion, snapshot, since);
      if interpolated.None? {
        current := None;
        return None;
      }
      var edits := interpolated.value;
      var c := ClosestEdit(edits, cursorRow, row);
      var s, e := Window(edits, c, row);
      r := Some(edits[s..e]);
    }
  }

  /* ---------------------------------------------------------------------
     suggest's window selection
     --------------------------------------------------------------------- */

  function AbsDiff(a: u32, b: u32): u32
  {
    if a >= b then a - b else b - a
  }

  /** `a - b` on `u32` rows, wrapping as a release build does. */
  function WrappingSub(a: u32, b: u32): u32
  {
    ((a as int - b as int) % 0x1_0000_0000) as u32
  }

  /** The sort key of `min_by_key`: the row distance from the cursor to the
      nearer end of the edit. */
  function Distance(e: Edit, cursorRow: u32, row: nat -> u32): u32
  {
    var fromStart := AbsDiff(cursorRow, row(e.start));
    var fromEnd := AbsDiff(cursorRow, row(e.end));
    if fromStart <= fromEnd then fromStart else fromEnd
  }

  /** `c` is where `min_by_key` stops: a nearest edit, and the first one. */
  ghost predicate IsClosest(edits: seq<Edit>, c: nat, cursorRow: u32, row: nat -> u32)
  {
    && c < |edits|
    && (forall k | 0 <= k < |edits| :: Distance(edits[c], cursorRow, row) <= Distance(edits[k], cursorRow, row))
    && (forall k | 0 <= k < c :: Distance(edits[c], cursorRow, row) < Distance(edits[k], cursorRow, row))
  }

  /** Edit `k`, before the closest edit, ends within one row of its start. */
  predicate NearBefore(edits: seq<Edit>, c: nat, k: nat, row: nat -> u32)
    requires k < c < |edits|
  {
    WrappingSub(row(edits[c].start), row(edits[k].end)) <= 1
  }

  /** Edit `k`, after the closest edit, starts within one row of its end. */
  predicate NearAfter(edits: seq<Edit>, c: nat, k: nat, row: nat -> u32)
    requires c < k < |edits|
  {
    WrappingSub(row(edits[k].start), row(edits[c].end)) <= 1
  }

  /** [s, e) is the run of edits around `c` that are near it, extended on
      each side up to the first edit that is not. */
  ghost predicate IsWindow(edits: seq<Edit>, c: nat, s: nat, e: nat, row: nat -> u32)
  {
    && s <= c < e <= |edits|
    && (forall k | s <= k < c :: NearBefore(edits, c, k, row))
    && (s > 0 ==> !NearBefore(edits, c, s - 1, row))
    && (forall k | c < k < e :: NearAfter(edits, c, k, row))
    && (e < |edits| ==> !NearAfter(edits, c, e, row))
  }

  /** `min_by_key` over the edits' distance to the cursor. */
  method ClosestEdit(edits: seq<Edit>, cursorRow: u32, row: nat -> u32) returns (c: nat)
    requires edits != []
    ensures IsClosest(edits, c, cursorRow, row)
  {
    c := 0;
    var best := Distance(edits[0], cursorRow, row);
    for k := 1 to |edits|
      invariant c < k
      invariant best == Distance(edits[c], cursorRow, row)
      invariant forall i | 0 <= i < k :: best <= Distance(edits[i], cursorRow, row)
      invariant forall i | 0 <= i < c :: best < Distance(edits[i], cursorRow, row)
    {
      var d := Distance(edits[k], cursorRow, row);
      if d < best {
        c, best := k, d;
      }
    }
  }

  /** The two loops of `suggest` that move `edit_start_ix` back and
      `edit_end_ix` forward. */
  method Window(edits: seq<Edit>, c: nat, row: nat -> u32) returns (s: nat, e: nat)
    requires c < |edits|
    ensures IsWindow(edits, c, s, e, row)
  {
    s := c;
    while s > 0 && NearBefore(edits, c, s - 1, row)
      invariant s <= c
      invariant forall k | s <= k < c :: NearBefore(edits, c, k, row)
    {
      s := s - 1;
    }
    e := c + 1;
    while e < |edits| && NearAfter(edits, c, e, row)
      invariant c < e <= |edits|
      invariant forall k | c < k < e :: NearAfter(edits, c, k, row)
    {
      e := e + 1;
    }
  }

  /** A lone edit is always shown whole. */
  lemma SingleEditWindow(edits: seq<Edit>, cursorRow: u32, row: nat -> u32, c: nat, s: nat, e: nat)
    requires |edits| == 1 && IsClosest(edits, c, cursorRow, row) && IsWindow(edits, c, s, e, row)
    ensures edits[s..e] == edits
  {
  }

  /** The window is contiguous around the closest edit and ordered as the
      completion's edits: it never skips an edit that is near. */
  lemma WindowUnique(edits: seq<Edit>, c: nat, s1: nat, e1: nat, s2: nat, e2: nat, row: nat -> u32)
    requires IsWindow(edits, c, s1, e1, row) && IsWindow(edits, c, s2, e2, row)
    ensures s1 == s2 && e1 == e2
  {
  }
}
