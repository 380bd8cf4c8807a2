# zlt planner and Zeta edit-prediction state, in Dafny

This project models two parts of the repository and proves properties of them.

**The `zlt` merge-reconciliation planner** (`tooling/zlt/src/lib/actions.py`, `tooling/zlt/src/commands/apply.py`):
- It reads `git status --porcelain=v1` into a set of `(ours, theirs, path)` records.
- It evaluates the `ourFiles` and `acceptTheirDeletions` glob lists against every record.
- It turns delete-globs into deletions.
- It prints the plan, asks once, and applies it.
- Actions form a closed tree (`Command`, `Delete`, `Multi`, `RestoreOurs`).
- Applying an action is modelled by its trace: the argument vectors it runs, in order.
- `glob` and `fnmatch` are parameters.

**The Zeta edit-prediction state logic** (`crates/zeta/src/zeta.rs`):
- `parse_edits` extracts the new text of the editable region from a model response by counting and slicing markers.
- `compute_edits` and `common_prefix` trim the prefix and suffix that each diff hunk shares with the text it replaces.
- `interpolate` carries a prediction over the edits the user made since.
- `Zeta` holds the event queue, with coalescing and halving, and the list of shown completions.
- `prompt_for_events` and `tokens_for_bytes` fill a token budget with the newest events.
- `should_replace_completion` decides which completion to show.
- The provider's pending-request queue covers `refresh`, the end of a request, `accept`, `discard` and `is_refreshing`.
- `suggest` selects a window of edits around the cursor.

Modelling conventions:
- Snapshots are `(bufferId, version, text)`.
- Anchors are offsets into the snapshot a prediction was made for.
- `Instant`s are naturals (milliseconds).
- `text_diff` and `edits_since` are parameters. `text_diff` has a stated contract (`DiffSpec`).

Files:
- `wrappers.dfy`: `Option` and `Result`.
- `zlt_actions.dfy`: actions, status parse and rules.
- `zlt_apply.dfy`: the `apply` command.
- `zeta_edits.dfy`: edits, `common_prefix`, `compute_edits`.
- `zeta_parse.dfy`: `parse_edits`.
- `zeta_interpolate.dfy`: `interpolate`.
- `zeta_history.dfy`: the `Zeta` queue and prompt budgeting.
- `zeta_provider.dfy`: completion choice, pending queue, `suggest`.

Two behaviours of the code worth stating:
- `Apply` prints "Will perform actions:" followed by each action's own lines, unnumbered.
- `CommandAction.apply` calls `run` without checking the exit status, so a failing command does not stop the plan: the trace runs every command.

## Model

| member | source | states |
|---|---|---|
| ZltActions.Trace | tooling/zlt/src/lib/actions.py:48-81 | definition: the argument vectors applying an action runs — a command's argv, a deletion's `git rm -rf -- p`, a group's or a restore's children in order; `ApplyAction` proves the apply methods run exactly this and `RestoreOursTrace` what a restore runs |
| ZltActions.TraceAll | tooling/zlt/src/lib/actions.py:48-50 | definition: the traces of a list's actions, concatenated in list order; `TraceAllAppend` and `TraceAllAt` state that each action is applied once, in order |
| ZltActions.TraceAllAppend | tooling/zlt/src/lib/actions.py:48-50 | applying a list in two parts runs the first part's commands, then the second's |
| ZltActions.TraceAllAt | tooling/zlt/src/lib/actions.py:48-50 | every action of a group is applied exactly once, in list order: the trace is the traces before it, its own, then those after it |
| ZltActions.RestoreOursTrace | tooling/zlt/src/lib/actions.py:68-79 | `RestoreOursAction(f, True)` runs exactly `git rm -rf -- f`; `RestoreOursAction(f, False)` runs exactly `git checkout --ours -- f` then `git add -- f` |
| ZltActions.ApplyAction | tooling/zlt/src/lib/actions.py:48-63 | applying an action runs exactly its trace: a command's argv once, a deletion's `git rm -rf -- p`, a group's children in order |
| ZltActions.Describe | tooling/zlt/src/lib/actions.py:39-81 | every action prints at least one line |
| ZltActions.DescribeGroup | tooling/zlt/src/lib/actions.py:39-47 | a group of one prints what its only child prints; any other group prints "Group of N actions:" and then one indented line per single-line child, in order |
| ZltActions.DescribeIndentedLeaves | tooling/zlt/src/lib/actions.py:44-47 | the children of a group of single-line actions print one line each, prefixed by two spaces |
| ZltActions.DeletesFor | tooling/zlt/src/lib/actions.py:7-9 | one `DeleteAction` per glob match, in match order, and nothing when there is no match |
| ZltActions.DeleteFileGlob | tooling/zlt/src/lib/actions.py:7-9 | the generator's loop yields exactly `DeleteAction(m)` for each match `m`, in order |
| ZltActions.GlobActions | tooling/zlt/src/commands/apply.py:8-9 | definition: the deletions of every configured glob, glob by glob in configured order; `GlobActionsOnlyMatched` and `CollectGlobDeletes` state what they delete and that the loop builds them |
| ZltActions.GlobActionsOnlyMatched | tooling/zlt/src/commands/apply.py:8-9 | the glob phase only ever deletes paths that some configured glob matched |
| ZltActions.ParseLine | tooling/zlt/src/lib/actions.py:16-21 | definition: the record `(l[0], l[1], l[3:])` of a line of at least two characters; `ParseLineLayout` and `ParseLineFormat` state its inverse |
| ZltActions.ParseStatus | tooling/zlt/src/lib/actions.py:12-21 | definition: a failure for a non-zero exit or a line shorter than two characters, otherwise the set of the lines' records; `ReadStatus` proves the loop computes it and `RecordsOfMembers` what the set holds |
| ZltActions.ParseLineLayout | tooling/zlt/src/lib/actions.py:16-21 | a status line is the record's two codes, the skipped character at offset 2, then the path |
| ZltActions.ParseLineFormat | tooling/zlt/src/lib/actions.py:16-21 | a line `XY?path` parses to `(X, Y, path)`, whatever the separator character is |
| ZltActions.RecordsOfMembers | tooling/zlt/src/lib/actions.py:14-21 | a record is in the parsed set exactly when some status line parses to it |
| ZltActions.RecordsOfOrderFree | tooling/zlt/src/lib/actions.py:14-21 | reordering or repeating status lines does not change the record set |
| ZltActions.RecordsOfCollapse | tooling/zlt/src/lib/actions.py:14-21 | identical lines collapse: there are never more records than lines |
| ZltActions.ReadStatus | tooling/zlt/src/lib/actions.py:12-21 | a non-zero exit fails before any line is parsed; otherwise the loop builds the record set of the lines; a line shorter than two characters fails |
| ZltActions.OursActions | tooling/zlt/src/lib/actions.py:23-25 | definition: one `RestoreOursAction(path, ours == 'D')` per matching `ourFiles` glob, in glob order, none when the ours-code is a space; `OursActionsCount` states the count and the action |
| ZltActions.TheirDeletionActions | tooling/zlt/src/lib/actions.py:26-28 | definition: one deletion of the path per matching `acceptTheirDeletions` glob when the codes are `U`/`D`; `TheirDeletionActionsCount` states the count |
| ZltActions.RecordActions | tooling/zlt/src/lib/actions.py:22-28 | definition: one record's `ourFiles` actions followed by its `acceptTheirDeletions` actions; `RecordActionsOrder`, `NoMatchNoAction` and `BothListsMatch` state its properties |
| ZltActions.PlanConflicts | tooling/zlt/src/lib/actions.py:22-28 | definition: the records' actions concatenated in the visiting order; `PlanConflictsAppend` states it splits with the order and `HandleConflicts` that the generator yields it |
| ZltActions.OursActionsCount | tooling/zlt/src/lib/actions.py:23-25 | a path matching k `ourFiles` globs yields exactly k `RestoreOursAction(path, ours == 'D')`, and none when the ours-code is a space |
| ZltActions.TheirDeletionActionsCount | tooling/zlt/src/lib/actions.py:26-28 | a path matching k `acceptTheirDeletions` globs yields k deletions of itself when the codes are `U`/`D`, and none for any other code pair |
| ZltActions.RecordActionsOrder | tooling/zlt/src/lib/actions.py:22-28 | for each record every restore-ours action comes before every deletion |
| ZltActions.NoMatchNoAction | tooling/zlt/src/lib/actions.py:22-28 | a record whose path matches no glob of either list yields nothing |
| ZltActions.BothListsMatch | tooling/zlt/src/lib/actions.py:22-28 | a `UD` path matched by both lists yields a restore and then a deletion; the lists are not arbitrated |
| ZltActions.PlanConflictsAppend | tooling/zlt/src/lib/actions.py:22-28 | the plan for records taken in two runs is the plan of the first run followed by that of the second |
| ZltActions.EnumerationSize | tooling/zlt/src/lib/actions.py:22 | a visiting order that lists every record of the set exactly once is exactly as long as the set |
| ZltActions.EvaluateRules | tooling/zlt/src/lib/actions.py:23-28 | the two rule loops for one record yield its `ourFiles` actions, then its `acceptTheirDeletions` actions |
| ZltActions.HandleConflicts | tooling/zlt/src/lib/actions.py:11-28 | a status failure yields nothing; otherwise the records are visited in some enumeration of the set, each exactly once, and the output is their actions in that order |
| ZltApply.Apply | tooling/zlt/src/commands/apply.py:6-21 | the plan is the glob deletions in configured order, then the conflict actions. An empty plan prints "Nothing to do." and runs nothing. Otherwise it prints every action in order and then the prompt with the plan's length. A yes runs every action's trace in order. A no runs nothing and prints "Cancelled". A status failure escapes before anything is printed |
| ZltApply.CollectGlobDeletes | tooling/zlt/src/commands/apply.py:8-9 | the extend loop builds the glob deletions of every configured glob, in order |
| ZltApply.PrintActions | tooling/zlt/src/commands/apply.py:15-16 | the print loop writes every action's lines in list order |
| ZltApply.ApplyAll | tooling/zlt/src/commands/apply.py:18-19 | the apply loop runs every action's trace, each once, in list order |
| ZltApply.NothingToDoWhenEmpty | tooling/zlt/src/commands/apply.py:8-13 | a `git status` that exits 0 with no lines parses to the empty set, whose only visiting order is empty; with no glob matches as well, the glob deletions followed by the conflict actions form the empty plan |
| ZltApply.ApplyOnCleanTree | tooling/zlt/src/commands/apply.py:11-13 | on a clean tree with no glob matches `apply` prints only "Nothing to do.", runs nothing and ends with the nothing-to-do outcome, whatever the answer would have been |
| ZltApply.NoGlobMatches | tooling/zlt/src/commands/apply.py:8-9 | globs that match nothing contribute no action |
| ZetaEdits.CommonPrefix | crates/zeta/src/zeta.rs:837-842 | the result is the length of the longest common prefix: the prefixes agree and the next characters differ |
| ZetaEdits.CommonSuffix | crates/zeta/src/zeta.rs:773-776 | the longest common suffix that stays clear of the already trimmed prefix: the suffixes agree and the characters before them differ |
| ZetaEdits.TrimEdit | crates/zeta/src/zeta.rs:767-779 | definition: advance the start past the common prefix, pull the end back over the common suffix (saturating) and keep the text between; `TrimLengths`, `TrimEditSound` and `TrimEditMinimal` state what it cuts and that the result is equivalent and minimal |
| ZetaEdits.TrimLengths | crates/zeta/src/zeta.rs:767-779 | the trimmed prefix and suffix together fit in both the replaced text and the new text; the replaced text and the new text agree on every character cut and differ on the first and last characters kept; the trimmed hunk's range and text are the original ones with those characters removed |
| ZetaEdits.TrimEditInside | crates/zeta/src/zeta.rs:771-777 | a trimmed hunk's range lies within the original one |
| ZetaEdits.TrimEditSound | crates/zeta/src/zeta.rs:763-786 | trimming never changes what a hunk does: the trimmed hunk fits and gives the same text |
| ZetaEdits.TrimEditMinimal | crates/zeta/src/zeta.rs:767-779 | nothing more can be trimmed: a non-empty trimmed range and text differ at both ends |
| ZetaEdits.ComputeEdits | crates/zeta/src/zeta.rs:755-789 | definition: each hunk shifted by the region's offset and trimmed against the snapshot; `ComputeEditsSorted` and `ComputeEditsCorrect` state its properties |
| ZetaEdits.ComputeEditsSorted | crates/zeta/src/zeta.rs:755-789 | sorted hunks give sorted edits, each inside its hunk shifted by the region's offset |
| ZetaEdits.ApplyShifted | crates/zeta/src/zeta.rs:764-765 | shifting hunks of a region by the region's offset and applying them to the whole text changes only that region, exactly as the hunks change it |
| ZetaEdits.ApplyTrimmed | crates/zeta/src/zeta.rs:763-788 | trimming every edit of a sorted list keeps it sorted and does not change the result of applying it |
| ZetaEdits.ComputeEditsCorrect | crates/zeta/src/zeta.rs:755-789 | if the hunks turn the region's old text into the new text, the computed edits turn the snapshot into prefix + new text + suffix |
| ZetaParse.MatchIndices | crates/zeta/src/zeta.rs:705-707 | every reported match lies inside the text; `MatchIndicesSound` states which matches are reported |
| ZetaParse.MatchIndicesSound | crates/zeta/src/zeta.rs:705-707 | `match_indices` lists every occurrence, left to right and without overlap; it is empty exactly when there is none, and its first entry is the leftmost occurrence |
| ZetaParse.ReplaceAll | crates/zeta/src/zeta.rs:703 | definition: `str::replace`, scanning left to right and resuming after each match; `ReplaceNoMatch` and `ReplaceRemovesMatches` state its properties |
| ZetaParse.ReplaceNoMatch | crates/zeta/src/zeta.rs:703 | a text in which the pattern does not occur is unchanged |
| ZetaParse.ReplaceRemovesMatches | crates/zeta/src/zeta.rs:703 | removing a pattern takes out exactly the matches `match_indices` reports: the text shrinks by the pattern's length once per match |
| ZetaParse.WithoutCursor | crates/zeta/src/zeta.rs:703 | definition: the response with every cursor marker removed, the text the markers are counted in |
| ZetaParse.Find | crates/zeta/src/zeta.rs:735 | `find` returns the first index of the character, and `None` exactly when it does not occur |
| ZetaParse.LastMatch | crates/zeta/src/zeta.rs:738-740 | `rfind` returns an occurrence with none after it, and `None` exactly when there is none |
| ZetaParse.ExtractNewText | crates/zeta/src/zeta.rs:703-741 | success implies exactly one start marker, exactly one end marker and at most one start-of-file marker once cursor markers are removed |
| ZetaParse.ExtractRoundTrip | crates/zeta/src/zeta.rs:703-741 | for a response laid out as the prompt lays it out — text before the start marker holding no region marker and at most one start-of-file marker, a header line, the new text, a newline, the end marker and a trailer, where every part may hold cursor markers and any other characters but no other marker — the extracted text is exactly the new text with its cursor markers removed |
| ZetaParse.CursorInRegion | crates/zeta/src/zeta.rs:703-741 | a cursor marker inside the region's new text is dropped: the text around it comes back joined |
| ZetaParse.ParseEdits | crates/zeta/src/zeta.rs:698-753 | parsing fails exactly when the extraction fails |
| ZetaParse.ParseEditsCorrect | crates/zeta/src/zeta.rs:698-753 | with a correct diff, the parsed edits are sorted, fit the snapshot, and replace exactly the editable range by the extracted text |
| ZetaParse.EditsForRegion | crates/zeta/src/zeta.rs:743-752 | definition: diff the region's old text against the new text and compute the trimmed edits at the region's offset; `RegionEditsCorrect` states they replace exactly the region |
| ZetaParse.RegionEditsCorrect | crates/zeta/src/zeta.rs:743-752 | diffing the region's old text against the new text and trimming gives edits that replace exactly that region |
| ZetaParse.EndOfBufferExample | crates/zeta/src/zeta.rs:1412-1472 | the end-of-buffer response applied to "lorem\n" gives "lorem\nipsum" |
| ZetaInterpolate.Remainder | crates/zeta/src/zeta.rs:149-153 | a partly typed model edit leaves at most one insertion, placed at the end of its range; it holds the untyped rest of the model text, and there is none when everything was typed |
| ZetaInterpolate.Rebase | crates/zeta/src/zeta.rs:131-164 | the rebased list is never longer than the prediction |
| ZetaInterpolate.Interpolate | crates/zeta/src/zeta.rs:164-166 | a result is never empty and never longer than the prediction; with no user edits there is a result exactly when the prediction is non-empty |
| ZetaInterpolate.InterpolateEdits | crates/zeta/src/zeta.rs:123-167 | the loop over user edits with a cursor over the model edits computes exactly the four-rule rebase |
| ZetaInterpolate.RebaseProvenance | crates/zeta/src/zeta.rs:131-164 | every rebased edit is a model edit kept unchanged, or the remainder of a model edit that a user edit matched |
| ZetaInterpolate.RebaseNeedsMatches | crates/zeta/src/zeta.rs:142-161 | a rebase succeeds only when every user edit covers exactly some model edit's range with a prefix of its text; any other user edit gives `None` |
| ZetaInterpolate.RebaseSorted | crates/zeta/src/zeta.rs:131-164 | a sorted prediction stays sorted after rebasing |
| ZetaInterpolate.TypedWholePrediction | crates/zeta/src/zeta.rs:149-166 | once the user has typed the whole prediction, the rebase is empty and `interpolate` returns `None` |
| ZetaInterpolate.RemainderCompletes | crates/zeta/src/zeta.rs:149-153 | applying the typed prefix and then inserting the remainder right after it gives what the model edit gives |
| ZetaInterpolate.UntouchedExample | crates/zeta/src/zeta.rs:1262-1269 | with no user edits the prediction comes back unchanged |
| ZetaInterpolate.PartlyTypedExample | crates/zeta/src/zeta.rs:1292-1300 | typing "R" over the predicted "REM" leaves the insertion of "EM" and the later deletion (in the original snapshot's offsets) |
| ZetaInterpolate.TypedFirstExample | crates/zeta/src/zeta.rs:1312-1320 | typing all of "REM" leaves only the later deletion |
| ZetaInterpolate.DivergedExample | crates/zeta/src/zeta.rs:1342-1343 | deleting past the predicted range gives `None` |
| ZetaHistory.Since | crates/zeta/src/zeta.rs:231 | `duration_since` is the difference, or zero when the earlier instant is later |
| ZetaHistory.Pushed | crates/zeta/src/zeta.rs:217-246 | The newest event always carries the new snapshot and timestamp. Coalescing keeps the length and the group's starting snapshot and changes no other event. Otherwise the event is appended and, at 16, the oldest 8 are dropped, so the queue is the newest part of the old queue followed by the event. A queue below 16 stays below 16 |
| ZetaHistory.PushedAllBounded | crates/zeta/src/zeta.rs:241-245 | however many events arrive, a queue that starts below 16 stays below 16 |
| ZetaHistory.Zeta.constructor | crates/zeta/src/zeta.rs:208-215 | a new `Zeta` has no events and no shown completions |
| ZetaHistory.Zeta.ClearHistory | crates/zeta/src/zeta.rs:204-206 | clearing empties the events and leaves the shown completions |
| ZetaHistory.Zeta.PushEvent | crates/zeta/src/zeta.rs:217-246 | the queue becomes `Pushed(old queue, event)`, the bound below 16 is kept, and the shown completions do not change |
| ZetaHistory.Zeta.CompletionShown | crates/zeta/src/zeta.rs:791-794 | the completion goes to the front of the shown list; the events do not change |
| ZetaHistory.Utf8Len | crates/zeta/src/zeta.rs:874 | a string's UTF-8 length is between one and four bytes per character |
| ZetaHistory.TokensForBytes | crates/zeta/src/zeta.rs:1217-1222 | the estimate is the byte count divided by three, rounded down |
| ZetaHistory.Fitting | crates/zeta/src/zeta.rs:870-886 | no more events are chosen than there are |
| ZetaHistory.FittingWithinBudget | crates/zeta/src/zeta.rs:870-886 | the chosen newest events cost at most the budget in total |
| ZetaHistory.FittingMaximal | crates/zeta/src/zeta.rs:872-877 | the walk stops exactly at the first event, newest first, whose cost exceeds what is left of the budget |
| ZetaHistory.Assemble | crates/zeta/src/zeta.rs:879-882 | definition: the chosen prompts oldest first, each followed by a blank line when text follows it; `AssembleJoins` states it is the blank-line join |
| ZetaHistory.AssembleJoins | crates/zeta/src/zeta.rs:879-882 | when no event prompt is empty, the assembled prompt is the chosen prompts joined by blank lines, oldest first |
| ZetaHistory.PromptForEvents | crates/zeta/src/zeta.rs:870-886 | the loop returns the assembly of exactly the newest events that fit the budget, in chronological order |
| ZetaProvider.InterpolateAt | crates/zeta/src/zeta.rs:118-120 | definition: a completion's edits interpolated over the user edits from its snapshot to the current one; `Interpolate` states its contract |
| ZetaProvider.ShouldReplace | crates/zeta/src/zeta.rs:947-966 | It replaces when the buffers differ or the old completion no longer interpolates. Otherwise it keeps the old one when the new one does not interpolate. When both interpolate to a single edit, it replaces exactly when the ranges are equal and the new text starts with the old |
| ZetaProvider.SeveralEditsReplace | crates/zeta/src/zeta.rs:959-965 | with several edits on either side, a new completion that still interpolates replaces the old one |
| ZetaProvider.Enqueue | crates/zeta/src/zeta.rs:1120-1133 | a new request is appended when at most one is pending, and replaces the newest when two are; the queue holds at most two |
| ZetaProvider.Settled | crates/zeta/src/zeta.rs:1080-1098 | the queue always shrinks: a finished request leaves the front when it is the front; otherwise the queue is emptied |
| ZetaProvider.Provider.constructor | crates/zeta/src/zeta.rs:985-993 | a new provider has nothing pending, next id 0 and no current completion |
| ZetaProvider.Provider.IsRefreshing | crates/zeta/src/zeta.rs:1022-1024 | refreshing exactly when some request is pending |
| ZetaProvider.Provider.Refresh | crates/zeta/src/zeta.rs:1034-1133 | nothing changes while the current completion still interpolates; otherwise the request takes the next id and is enqueued; at most two pending, ids strictly increasing |
| ZetaProvider.Provider.Settle | crates/zeta/src/zeta.rs:1075-1117 | the queue is settled. A new completion is shown, recorded at the front of `shown_completions` and made current when there is none or when it should replace the current one. A failed request changes only the queue |
| ZetaProvider.Provider.Accept | crates/zeta/src/zeta.rs:1146-1148 | accepting empties the queue and keeps the current completion; the pending-queue invariant holds afterwards |
| ZetaProvider.Provider.Discard | crates/zeta/src/zeta.rs:1150-1153 | discarding empties the queue and drops the current completion; the pending-queue invariant holds afterwards |
| ZetaProvider.Provider.Suggest | crates/zeta/src/zeta.rs:1155-1214 | There is no suggestion without a current completion. A completion for another buffer, or one that no longer interpolates, is dropped. Otherwise the result is the contiguous window of edits around the first closest edit |
| ZetaProvider.ClosestEdit | crates/zeta/src/zeta.rs:1179-1185 | `min_by_key` picks an edit at minimal row distance from the cursor, and the first such edit |
| ZetaProvider.Window | crates/zeta/src/zeta.rs:1187-1207 | the window extends over the edits on each side that are within one row of the closest edit, stopping at the first that is not |
| ZetaProvider.WindowUnique | crates/zeta/src/zeta.rs:1187-1207 | the window around a given edit is unique |
| ZetaProvider.SingleEditWindow | crates/zeta/src/zeta.rs:1187-1211 | a lone edit is suggested whole |

## Left out

- Process execution, the filesystem and the terminal. `subprocess.run`, `glob(..., recursive=True)`, `click.echo`/`click.style` colours and `click.confirm` become an argv trace, an `expand` parameter, lists of lines and a boolean answer.
- `fnmatch` semantics: the match is a parameter.
- The configuration loader (`tooling/zlt/src/lib/config.py`, which runs `nix eval`) and the CLI registration in `tooling/zlt/src/zlt.py`. The configuration is plain data.
- A status line shorter than two characters raises `IndexError` in the source. The model reports it as an error result.
- The network, async and UI parts of `zeta.rs`:
  - the request, retry and response handling;
  - the `refresh` throttle timer;
  - the upsell key-value store;
  - gpui registration and subscriptions.
- `ZetaProvider.Provider.Settle` takes a request's outcome as an input. It models the update the spawned task makes when the request finishes.
- Offsets are character offsets. The source's offsets and `common_prefix` lengths are UTF-8 byte counts. Only `str::len` in `prompt_for_events` is modelled in bytes (`Utf8Len`).
- `text_diff`, `edits_since`, `unified_diff` and anchor-to-row resolution are parameters. Because `unified_diff` is a parameter, `Event::to_prompt` is not modelled, and `PromptForEvents` takes each event's prompt string as input.
- Anchors are offsets in the snapshot the prediction was made for.
  - `should_replace_completion` compares the two interpolated ranges as such offsets, where the source compares anchors.
  - `interpolate`'s result is given in old-snapshot offsets, as the anchors of the source are.
- ZetaInterpolate.RemainderCompletes: the claim that applying the rebased edits to the user's text gives what the prediction gives is proved for one partly typed edit. It is not proved for a whole list, whose proof would need a translation between old and new coordinates.
- ZetaParse.ExtractNewText: its contract states the marker counts a success implies. Which text it extracts is stated by `ExtractRoundTrip` for responses in the layout `Excerpt` describes (markers in the prompt's order, the end marker on a line of its own), not for every response that passes the marker checks.
- ZetaParse.ReplaceAll: only the two properties `parse_edits` relies on are proved, for removal (an empty replacement) and for a text without an occurrence; a non-empty replacement is characterised only by the definition.
- ZltActions.ListRepr: the `str(list)` that `CommandAction.print` uses quotes every item in single quotes without escaping, where Python's `repr` escapes backslashes and quotes and switches to double quotes for an item holding a single quote. Only a `CommandAction` prints this way, and the plans `apply` builds hold only deletions and restores, so their printed lines are not affected.
- ZetaProvider.Provider.Suggest: the suggestion's id and edit preview are not modelled. Row differences are modelled as the `u32` wrapping subtraction of a release build; a debug build would panic on underflow instead.
- `register_buffer` and `report_changes_for_buffer` are not modelled. They decide when `push_event` is called and are not part of this model.
- The other crates (`inline_completion_button`, `zed`'s registry, `language_model`, `agent_servers`, `zedless_settings`, `zedless`) are not part of this model. They hold UI, wiring, network caching or declarations without logic.
