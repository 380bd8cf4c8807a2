/** The `Zeta` entity's history (crates/zeta/src/zeta.rs): the bounded queue
    of buffer-change events with coalescing, the list of shown completions,
    and the prompt that spends a token budget on the newest events.

    Buffer snapshots are reduced to a buffer id, a version and the text;
    `Instant`s are natural numbers of milliseconds. */
module ZetaHistory {
  import opened ZetaEdits

  /** `MAX_EVENT_COUNT`. */
  const MaxEventCount: nat := 16
  /** `BUFFER_CHANGE_GROUPING_INTERVAL`, one second. */
  const GroupingInterval: nat := 1000
  /** `BYTES_PER_TOKEN_GUESS` in `tokens_for_bytes`. */
  const BytesPerTokenGuess: nat := 3

  datatype Snapshot = Snapshot(bufferId: nat, version: nat, text: string)

  /** `Event::BufferChange`, the only kind of event. */
  datatype Event = BufferChange(oldSnapshot: Snapshot, newSnapshot: Snapshot, timestamp: nat)

  /** An `InlineCompletion`: its id, path, predicted edits (offsets of
      `snapshot`) and the snapshot it was predicted for. */
  datatype Completion = Completion(id: nat, path: string, edits: seq<Edit>, snapshot: Snapshot)

  /** `Instant::duration_since`, which is zero when `earlier` is later. */
  function Since(later: nat, earlier: nat): (d: nat)
    ensures earlier <= later ==> earlier + d == later
    ensures later < earlier ==> d == 0
  {
    if earlier <= later then later - earlier else 0
  }

  /** The new event continues the last one: it starts from the last one's
      resulting snapshot, same buffer and version, within the interval. */
  predicate Continues(last: Event, e: Event)
  {
    && Since(e.timestamp, last.timestamp) <= GroupingInterval
    && e.oldSnapshot.bufferId == last.newSnapshot.bufferId
    && e.oldSnapshot.version == last.newSnapshot.version
  }

  /** The queue after `push_event(e)`. */
  function Pushed(events: seq<Event>, e: Event): (r: seq<Event>)
    ensures r != []
    // the newest event always reflects `e`
    ensures r[|r| - 1].newSnapshot == e.newSnapshot && r[|r| - 1].timestamp == e.timestamp
    // coalescing: same length, the group keeps its starting snapshot, nothing else changes
    ensures events != [] && Continues(events[|events| - 1], e) ==>
      && |r| == |events|
      && r[..|r| - 1] == events[..|events| - 1]
      && r[|r| - 1].oldSnapshot == events[|events| - 1].oldSnapshot
    // appending: `e` is last, and what remains is the newest part of the old queue
    ensures !(events != [] && Continues(events[|events| - 1], e)) ==>
      && |r| == (if |events| + 1 >= MaxEventCount then |events| + 1 - MaxEventCount / 2 else |events| + 1)
      && r[|r| - 1] == e
      && r[..|r| - 1] == events[|events| + 1 - |r|..]
    ensures |events| < MaxEventCount ==> |r| < MaxEventCount
  {
    if events != [] && Continues(events[|events| - 1], e) then
      var last := events[|events| - 1];
      var r := events[..|events| - 1] + [BufferChange(last.oldSnapshot, e.newSnapshot, e.timestamp)];
      assert r[..|r| - 1] == events[..|events| - 1];
      r
    else
      var grown := events + [e];
      if |grown| >= MaxEventCount then
        var r := grown[MaxEventCount / 2..];
        assert r[..|r| - 1] == events[MaxEventCount / 2..];
        r
      else
        assert grown[..|grown| - 1] == events;
        grown
  }

  /** The queue after pushing every event of `es`, in order. */
  function PushedAll(events: seq<Event>, es: seq<Event>): seq<Event>
    decreases |es|
  {
    if es == [] then events else PushedAll(Pushed(events, es[0]), es[1..])
  }

  /** However many events arrive, a queue that starts below the cap stays
      below it. */
  lemma {:induction false} PushedAllBounded(events: seq<Event>, es: seq<Event>)
    requires |events| < MaxEventCount
    ensures |PushedAll(events, es)| < MaxEventCount
    ensures es != [] ==> PushedAll(events, es) != []
    decreases |es|
  {
    if es != [] {
      PushedAllBounded(Pushed(events, es[0]), es[1..]);
    }
  }

  class Zeta {
    /** `events`, oldest first. */
    var events: seq<Event>
    /** `shown_completions`, most recently shown first. */
    var shownCompletions: seq<Completion>

    ghost predicate Valid()
      reads this
    {
      |events| < MaxEventCount
    }

    constructor ()
      ensures Valid()
      ensures events == [] && shownCompletions == []
    {
      events := [];
      shownCompletions := [];
    }

    /** `clear_history`. */
    method ClearHistory()
      modifies this
      ensures Valid()
      ensures events == [] && shownCompletions == old(shownCompletions)
    {
      events := [];
    }

    /** `push_event`. */
    method PushEvent(event: Event)
      modifies this
      ensures old(Valid()) ==> Valid()
      ensures events == Pushed(old(events), event)
      ensures shownCompletions == old(shownCompletions)
    {
      if events != [] {
        var last := events[|events| - 1];
        if Continues(last, event) {
          events := events[..|events| - 1] + [BufferChange(last.oldSnapshot, event.newSnapshot, event.timestamp)];
          return;
        }
      }
      events := events + [event];
      if |events| >= MaxEventCount {
        events := events[MaxEventCount / 2..];
      }
    }

    /** `completion_shown`. */
    method CompletionShown(completion: Completion)
      modifies this
      ensures shownCompletions == [completion] + old(shownCompletions)
      ensures events == old(events)
    {
      shownCompletions := [completion] + shownCompletions;
    }
  }

  /* ---------------------------------------------------------------------
     prompt_for_events
     --------------------------------------------------------------------- */

  /** The number of bytes of the UTF-8 encoding of a character. */
  function Utf8Width(c: char): (n: nat)
    ensures 1 <= n <= 4
  {
    if c as int < 0x80 then 1
    else if c as int < 0x800 then 2
    else if c as int < 0x1_0000 then 3
    else 4
  }

  /** `str::len`: the UTF-8 length in bytes. */
  function Utf8Len(s: string): (n: nat)
    ensures |s| <= n <= 4 * |s|
  {
    if s == [] then 0 else Utf8Width(s[0]) + Utf8Len(s[1..])
  }

  /** `tokens_for_bytes`: a deliberately low estimate, one token per three
      bytes, rounded down. */
  function TokensForBytes(bytes: nat): (tokens: nat)
    ensures tokens * BytesPerTokenGuess <= bytes < (tokens + 1) * BytesPerTokenGuess
  {
    bytes / BytesPerTokenGuess
  }

  function Cost(prompt: string): nat
  {
    TokensForBytes(Utf8Len(prompt))
  }

  function TotalCost(prompts: seq<string>): nat
  {
    if prompts == [] then 0 else Cost(prompts[0]) + TotalCost(prompts[1..])
  }

  lemma {:induction false} TotalCostAppend(a: seq<string>, b: seq<string>)
    ensures TotalCost(a + b) == TotalCost(a) + TotalCost(b)
  {
    if a == [] {
      assert a + b == b;
    } else {
      assert (a + b)[0] == a[0] && (a + b)[1..] == a[1..] + b;
      TotalCostAppend(a[1..], b);
    }
  }

  /** How many of the newest prompts fit: walking from the newest, stop at
      the first whose cost exceeds what is left of the budget. */
  function Fitting(prompts: seq<string>, budget: nat): (n: nat)
    ensures n <= |prompts|
    decreases |prompts|
  {
    if prompts == [] then 0
    else
      var last := prompts[|prompts| - 1];
      if Cost(last) > budget then 0
      else 1 + Fitting(prompts[..|prompts| - 1], budget - Cost(last))
  }

  /** The chosen newest prompts cost no more than the budget. */
  lemma {:induction false} FittingWithinBudget(prompts: seq<string>, budget: nat)
    ensures TotalCost(prompts[|prompts| - Fitting(prompts, budget)..]) <= budget
    decreases |prompts|
  {
    if prompts != [] {
      var last := prompts[|prompts| - 1];
      var init := prompts[..|prompts| - 1];
      if Cost(last) <= budget {
        var m := Fitting(init, budget - Cost(last));
        assert Fitting(prompts, budget) == 1 + m;
        FittingWithinBudget(init, budget - Cost(last));
        NewestSplit(prompts, 1 + m);
      } else {
        assert prompts[|prompts|..] == [];
      }
    }
  }

  /** The `n` newest prompts cost what the `n - 1` newest before the last
      one cost, plus the last one. */
  lemma NewestSplit(prompts: seq<string>, n: nat)
    requires 0 < n <= |prompts|
    ensures var init := prompts[..|prompts| - 1];
      TotalCost(prompts[|prompts| - n..]) == TotalCost(init[|init| - (n - 1)..]) + Cost(prompts[|prompts| - 1])
  {
    var init := prompts[..|prompts| - 1];
    var last := prompts[|prompts| - 1];
    assert prompts[|prompts| - n..] == init[|init| - (n - 1)..] + [last];
    TotalCostAppend(init[|init| - (n - 1)..], [last]);
    assert TotalCost([last]) == Cost(last) + TotalCost([]);
  }

  /** The prompt text `prompt_for_events` assembles from the chosen prompts,
      oldest first: each one is followed by a blank line when the text
      after it is not empty. */
  function Assemble(prompts: seq<string>): string
  {
    if prompts == [] then ""
    else
      var rest := Assemble(prompts[1..]);
      prompts[0] + (if rest == "" then "" else "\n\n" + rest)
  }

  /** The events' prompts joined by blank lines. */
  function JoinBlankLines(prompts: seq<string>): string
  {
    if prompts == [] then ""
    else if |prompts| == 1 then prompts[0]
    else prompts[0] + "\n\n" + JoinBlankLines(prompts[1..])
  }

  /** When no event prompt is empty, the assembled prompt is the plain
      blank-line join. */
  lemma {:induction false} AssembleJoins(prompts: seq<string>)
    requires forall i | 0 <= i < |prompts| :: prompts[i] != ""
    ensures Assemble(prompts) == JoinBlankLines(prompts)
    ensures prompts != [] ==> Assemble(prompts) != ""
  {
    if prompts != [] {
      AssembleJoins(prompts[1..]);
    }
  }

  /** `prompt_for_events`, given each event's `to_prompt` text, oldest
      first: walk them newest first, stop at the first whose estimated
      tokens exceed what is left, and put each included prompt in front of
      the text so far. */
  method PromptForEvents(prompts: seq<string>, budget: nat) returns (result: string)
    ensures result == Assemble(prompts[|prompts| - Fitting(prompts, budget)..])
  {
    result := "";
    var remaining := budget;
    var i := |prompts|;
    assert prompts[..i] == prompts && prompts[i..] == [];
    while i > 0
      invariant 0 <= i <= |prompts|
      invariant Fitting(prompts, budget) == (|prompts| - i) + Fitting(prompts[..i], remaining)
      invariant result == Assemble(prompts[i..])
    {
      var eventString := prompts[i - 1];
      var eventTokens := TokensForBytes(Utf8Len(eventString));
      if eventTokens > remaining {
        FittingStop(prompts, i, remaining);
        break;
      }
      FittingStep(prompts, i, remaining);
      AssembleStep(prompts, i);
      if result != "" {
        result := "\n\n" + result;
      }
      result := eventString + result;
      remaining := remaining - eventTokens;
      i := i - 1;
    }
  }

  lemma FittingStop(prompts: seq<string>, i: nat, remaining: nat)
    requires 0 < i <= |prompts| && Cost(prompts[i - 1]) > remaining
    ensures Fitting(prompts[..i], remaining) == 0
  {
    assert prompts[..i][i - 1] == prompts[i - 1];
  }

  lemma FittingStep(prompts: seq<string>, i: nat, remaining: nat)
    requires 0 < i <= |prompts| && Cost(prompts[i - 1]) <= remaining
    ensures Fitting(prompts[..i], remaining)
      == 1 + Fitting(prompts[..i - 1], remaining - Cost(prompts[i - 1]))
  {
    assert prompts[..i][i - 1] == prompts[i - 1];
    assert prompts[..i][..i - 1] == prompts[..i - 1];
  }

  lemma AssembleStep(prompts: seq<string>, i: nat)
    requires 0 < i <= |prompts|
    ensures var rest := Assemble(prompts[i..]);
      Assemble(prompts[i - 1..]) == prompts[i - 1] + (if rest == "" then "" else "\n\n" + rest)
  {
    assert prompts[i - 1..][1..] == prompts[i..];
  }

  /** The prompt stops exactly at the first event that does not fit: the
      next older one, if any, costs more than the budget left. */
  lemma {:induction false} FittingMaximal(prompts: seq<string>, budget: nat)
    ensures var n := Fitting(prompts, budget);
      n < |prompts| ==> Cost(prompts[|prompts| - n - 1]) > budget - TotalCost(prompts[|prompts| - n..])
    decreases |prompts|
  {
    if prompts != [] {
      var last := prompts[|prompts| - 1];
      var init := prompts[..|prompts| - 1];
      if Cost(last) <= budget {
        var m := Fitting(init, budget - Cost(last));
        assert Fitting(prompts, budget) == 1 + m;
        FittingMaximal(init, budget - Cost(last));
        if m < |init| {
          NewestSplit(prompts, 1 + m);
          assert init[|init| - m - 1] == prompts[|prompts| - (1 + m) - 1];
        }
      } else {
        assert prompts[|prompts|..] == [];
      }
    }
  }
}
