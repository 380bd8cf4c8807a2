/** The `zlt apply` command: collect the glob deletions and the conflict
    actions, stop early when there is nothing to do, print the plan, ask
    once, and apply every action in order when the answer is yes.

    Terminal output is the list of lines written; the confirmation answer
    is an input; the commands run are the concatenated argv traces. */
module ZltApply {
  import opened Wrappers
  import opened ZltActions

  /** The configuration the command reads: `deleteFileGlobs` and `conflicts`. */
  datatype Config = Config(deleteFileGlobs: seq<string>, conflicts: ConflictRules)

  /** How the command ended. `Aborted` is the exception raised while
      reading the status, which escapes the command. */
  datatype Outcome = NothingToDo | Applied | Cancelled | Aborted(error: StatusError)

  /** What one invocation does: lines written, commands run, how it ended. */
  datatype Run = Run(output: seq<string>, executed: seq<Argv>, outcome: Outcome)

  function ConfirmPrompt(count: nat): string
  {
    "Apply " + NatToString(count) + " actions?"
  }

  /** `apply()`. `expand` is the filesystem glob, `fnmatch` the path match,
      `confirmed` the user's answer to the prompt. The ghost results name
      the action list that was planned and the iteration order of the
      status-record set. */
  method Apply(config: Config, expand: string -> seq<string>, status: GitStatus,
               fnmatch: (string, string) -> bool, confirmed: bool)
    returns (run: Run, ghost actions: seq<Action>, ghost order: seq<StatusRecord>)
    ensures ParseStatus(status).Err? ==> run == Run([], [], Aborted(ParseStatus(status).error))
    ensures ParseStatus(status).Ok? ==>
      && IsEnumeration(order, ParseStatus(status).value)
      && actions == GlobActions(config.deleteFileGlobs, expand)
                    + PlanConflicts(order, config.conflicts, fnmatch)
    ensures ParseStatus(status).Ok? && actions == [] ==>
      run == Run(["Nothing to do."], [], NothingToDo)
    ensures ParseStatus(status).Ok? && actions != [] ==>
      && run.output == ["Will perform actions:"] + DescribeAll(actions) + [ConfirmPrompt(|actions|)]
                       + (if confirmed then [] else ["Cancelled"])
      && run.executed == (if confirmed then TraceAll(actions) else [])
      && run.outcome == (if confirmed then Applied else Cancelled)
  {
    var planned := CollectGlobDeletes(config.deleteFileGlobs, expand);
    var conflictActions, visited := HandleConflicts(status, config.conflicts, fnmatch);
    if conflictActions.Err? {
      return Run([], [], Aborted(conflictActions.error)), [], [];
    }
    planned := planned + conflictActions.value;
    actions, order := planned, visited;
    if |planned| == 0 {
      return Run(["Nothing to do."], [], NothingToDo), actions, order;
    }
    var described := PrintActions(planned);
    var output := ["Will perform actions:"] + described + [ConfirmPrompt(|planned|)];
    if confirmed {
      var executed := ApplyAll(planned);
      run := Run(output, executed, Applied);
    } else {
      run := Run(output + ["Cancelled"], [], Cancelled);
    }
  }

  /** The first loop of `apply()`: extend the list with `deleteFileGlob(g)`
      for every configured glob, in order. */
  method CollectGlobDeletes(globs: seq<string>, expand: string -> seq<string>)
    returns (planned: seq<Action>)
    ensures planned == GlobActions(globs, expand)
  {
    planned := [];
    var i := 0;
    while i < |globs|
      invariant 0 <= i <= |globs|
      invariant planned == GlobActions(globs[..i], expand)
    {
      var deletes := DeleteFileGlob(expand(globs[i]));
      assert deletes == DeletesFor(expand(globs[i]));
      assert globs[..i + 1][..i] == globs[..i];
      planned := planned + deletes;
      i := i + 1;
    }
    assert globs[..i] == globs;
  }

  /** The print loop: every action's lines, in list order. */
  method PrintActions(actions: seq<Action>) returns (lines: seq<string>)
    ensures lines == DescribeAll(actions)
  {
    lines := [];
    var i := 0;
    while i < |actions|
      invariant 0 <= i <= |actions|
      invariant lines == DescribeAll(actions[..i])
    {
      assert actions[..i + 1][..i] == actions[..i];
      lines := lines + Describe(actions[i]);
      i := i + 1;
    }
    assert actions[..i] == actions;
  }

  /** The apply loop: every action applied once, in list order. */
  method ApplyAll(actions: seq<Action>) returns (executed: seq<Argv>)
    ensures executed == TraceAll(actions)
  {
    executed := [];
    var i := 0;
    while i < |actions|
      invariant 0 <= i <= |actions|
      invariant executed == TraceAll(actions[..i])
    {
      var step := ApplyAction(actions[i]);
      TraceAllAppend(actions[..i], [actions[i]]);
      assert actions[..i + 1] == actions[..i] + [actions[i]];
      assert TraceAll([actions[i]]) == Trace(actions[i]) + TraceAll([]);
      executed := executed + step;
      i := i + 1;
    }
    assert actions[..i] == actions;
  }

  /** An empty plan: a status command that succeeds with no lines leaves
      nothing to enumerate, and with no glob match the whole plan is empty. */
  lemma NothingToDoWhenEmpty(config: Config, expand: string -> seq<string>, fnmatch: (string, string) -> bool,
                             order: seq<StatusRecord>)
    requires forall g | g in config.deleteFileGlobs :: expand(g) == []
    requires ParseStatus(GitStatus(0, [])).Ok? && IsEnumeration(order, ParseStatus(GitStatus(0, [])).value)
    ensures order == []
    ensures GlobActions(config.deleteFileGlobs, expand) + PlanConflicts(order, config.conflicts, fnmatch) == []
  {
    assert ParseStatus(GitStatus(0, [])).value == {};
    EnumerationSize(order, {});
    NoGlobMatches(config.deleteFileGlobs, expand);
  }

  /** `apply()` on a clean tree: with no glob match and a status command
      that succeeds with no lines, it prints "Nothing to do." and runs
      nothing, whatever the answer to the prompt would have been. */
  method ApplyOnCleanTree(config: Config, expand: string -> seq<string>, fnmatch: (string, string) -> bool,
                          confirmed: bool)
    returns (run: Run)
    requires forall g | g in config.deleteFileGlobs :: expand(g) == []
    ensures run == Run(["Nothing to do."], [], NothingToDo)
  {
    ghost var actions: seq<Action>;
    ghost var order: seq<StatusRecord>;
    run, actions, order := Apply(config, expand, GitStatus(0, []), fnmatch, confirmed);
    NothingToDoWhenEmpty(config, expand, fnmatch, order);
  }

  lemma {:induction false} NoGlobMatches(globs: seq<string>, expand: string -> seq<string>)
    requires forall g | g in globs :: expand(g) == []
    ensures GlobActions(globs, expand) == []
  {
    if globs != [] {
      assert forall g | g in globs[..|globs| - 1] :: g in globs;
      NoGlobMatches(globs[..|globs| - 1], expand);
      assert expand(globs[|globs| - 1]) == [];
    }
  }
}
