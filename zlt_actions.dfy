/** The `zlt` merge-reconciliation planner: the remediation action tree, how
    each action describes itself and which commands it runs, the parse of
    `git status --porcelain=v1` into conflict records, and the two rule
    lists (`ourFiles`, `acceptTheirDeletions`) that turn records into actions.

    Running a command is modelled by its argument vector: the trace of an
    action is the ordered list of argument vectors it hands to
    `subprocess.run`. `fnmatch` and `glob` are oracles passed in. */
module ZltActions {
  import opened Wrappers

  /** An argument vector handed to `subprocess.run`. */
  type Argv = seq<string>

  /** The closed action tree. `Delete` is a command action with its own
      description; `RestoreOurs` is a group whose children are fixed by its
      constructor arguments and which has its own description. */
  datatype Action =
    | Command(args: Argv)
    | Delete(path: string)
    | Multi(actions: seq<Action>)
    | RestoreOurs(file: string, deletedByUs: bool)

  function DeleteArgv(path: string): Argv { ["git", "rm", "-rf", "--", path] }

  function CheckoutOursArgv(file: string): Argv { ["git", "checkout", "--ours", "--", file] }

  function AddArgv(file: string): Argv { ["git", "add", "--", file] }

  /** The sub-actions of a group, as `MultiAction.__init__` stores them. */
  function Children(a: Action): seq<Action>
    requires a.Multi? || a.RestoreOurs?
  {
    if a.Multi? then a.actions
    else if a.deletedByUs then [Delete(a.file)]
    else [Command(CheckoutOursArgv(a.file)), Command(AddArgv(a.file))]
  }

  /** A termination measure: a group is larger than all of its children. */
  function Size(a: Action): nat
  {
    match a
    case Command(_) => 1
    case Delete(_) => 1
    case RestoreOurs(_, _) => 3
    case Multi(actions) => 1 + SizeAll(actions)
  }

  function SizeAll(actions: seq<Action>): nat
  {
    if actions == [] then 0 else Size(actions[0]) + SizeAll(actions[1..])
  }

  lemma {:induction false} SizeOfChild(actions: seq<Action>, i: nat)
    requires i < |actions|
    ensures 1 <= Size(actions[i]) <= SizeAll(actions)
  {
    if i > 0 {
      SizeOfChild(actions[1..], i - 1);
    }
  }

  lemma ChildrenSmaller(a: Action)
    requires a.Multi? || a.RestoreOurs?
    ensures SizeAll(Children(a)) < Size(a)
  {
    if a.RestoreOurs? {
      var c := Children(a);
      if a.deletedByUs {
        assert SizeAll(c[1..]) == 0;
      } else {
        assert SizeAll(c[1..][1..]) == 0;
      }
    }
  }

  /* ---------------------------------------------------------------------
     apply(): the commands an action runs, in order
     --------------------------------------------------------------------- */

  /** The argument vectors `a.apply()` runs, in order. A command runs its
      argv once; a group applies its children in list order. */
  function Trace(a: Action): seq<Argv>
    decreases Size(a), 0
  {
    match a
    case Command(args) => [args]
    case Delete(path) => [DeleteArgv(path)]
    case Multi(_) => ChildrenSmaller(a); TraceAll(Children(a))
    case RestoreOurs(_, _) => ChildrenSmaller(a); TraceAll(Children(a))
  }

  /** The argument vectors of applying every action of the list in order. */
  function TraceAll(actions: seq<Action>): seq<Argv>
    decreases SizeAll(actions), 1
  {
    if actions == [] then [] else Trace(actions[0]) + TraceAll(actions[1..])
  }

  /** Applying a list in two parts is applying the whole list. */
  lemma {:induction false} TraceAllAppend(xs: seq<Action>, ys: seq<Action>)
    ensures TraceAll(xs + ys) == TraceAll(xs) + TraceAll(ys)
    decreases |xs|
  {
    if xs != [] {
      assert (xs + ys)[0] == xs[0];
      assert (xs + ys)[1..] == xs[1..] + ys;
      TraceAllAppend(xs[1..], ys);
      calc {
        TraceAll(xs + ys);
        Trace(xs[0]) + TraceAll(xs[1..] + ys);
        Trace(xs[0]) + (TraceAll(xs[1..]) + TraceAll(ys));
        (Trace(xs[0]) + TraceAll(xs[1..])) + TraceAll(ys);
      }
    } else {
      assert xs + ys == ys;
    }
  }

  /** Every action of a list is applied exactly once, and in list order:
      the trace of the list is the traces of the actions before `i`, then
      that of action `i`, then those after it. */
  lemma TraceAllAt(actions: seq<Action>, i: nat)
    requires i < |actions|
    ensures TraceAll(actions) == TraceAll(actions[..i]) + Trace(actions[i]) + TraceAll(actions[i + 1..])
  {
    var tail := [actions[i]] + actions[i + 1..];
    assert actions == actions[..i] + tail;
    TraceAllAppend(actions[..i], tail);
    assert tail[0] == actions[i];
    assert tail[1..] == actions[i + 1..];
    assert TraceAll(tail) == Trace(actions[i]) + TraceAll(actions[i + 1..]);
  }

  /** A restore-ours action for a file deleted on our side runs exactly
      `git rm -rf -- f`; otherwise exactly `git checkout --ours -- f`
      followed by `git add -- f`. */
  lemma RestoreOursTrace(file: string, deletedByUs: bool)
    ensures deletedByUs ==> Trace(RestoreOurs(file, deletedByUs)) == [DeleteArgv(file)]
    ensures !deletedByUs ==>
      Trace(RestoreOurs(file, deletedByUs)) == [CheckoutOursArgv(file), AddArgv(file)]
  {
    var a := RestoreOurs(file, deletedByUs);
    var c := Children(a);
    assert Trace(a) == TraceAll(c);
    if deletedByUs {
      assert TraceAll(c[1..]) == [];
      assert TraceAll(c) == Trace(c[0]) + TraceAll(c[1..]);
    } else {
      assert TraceAll(c[1..][1..]) == [];
      assert TraceAll(c[1..]) == Trace(c[1]) + TraceAll(c[1..][1..]);
      assert TraceAll(c) == Trace(c[0]) + TraceAll(c[1..]);
    }
  }

  /** Applying an action: commands run once (their exit status is not
      checked), groups apply their children one after the other. */
  method ApplyAction(a: Action) returns (run: seq<Argv>)
    ensures run == Trace(a)
    decreases Size(a)
  {
    match a
    case Command(args) =>
      run := [args];
    case Delete(path) =>
      run := [DeleteArgv(path)];
    case _ =>
      var children := Children(a);
      ChildrenSmaller(a);
      run := [];
      var i := 0;
      while i < |children|
        invariant 0 <= i <= |children|
        invariant run == TraceAll(children[..i])
      {
        SizeOfChild(children, i);
        var step := ApplyAction(children[i]);
        TraceAllAppend(children[..i], [children[i]]);
        assert children[..i + 1] == children[..i] + [children[i]];
        run := run + step;
        i := i + 1;
      }
      assert children[..i] == children;
  }

  /* ---------------------------------------------------------------------
     print(): one line per action, groups as a header plus indented lines
     --------------------------------------------------------------------- */

  function DigitChar(d: nat): char
    requires d < 10
  {
    "0123456789"[d]
  }

  /** Decimal rendering of a count, as an f-string renders an `int`. */
  function NatToString(n: nat): string
  {
    if n < 10 then [DigitChar(n)] else NatToString(n / 10) + [DigitChar(n % 10)]
  }

  /** Python's `str()` of a list of strings, without escaping. */
  function ListRepr(items: seq<string>): string
  {
    "[" + JoinQuoted(items) + "]"
  }

  function JoinQuoted(items: seq<string>): string
  {
    if items == [] then ""
    else if |items| == 1 then "'" + items[0] + "'"
    else "'" + items[0] + "', " + JoinQuoted(items[1..])
  }

  /** The line prefix `print("  ", end="")` puts before a sub-action's output. */
  function Indent(lines: seq<string>): seq<string>
    requires |lines| >= 1
  {
    ["  " + lines[0]] + lines[1..]
  }

  function GroupHeader(count: nat): string
  {
    "Group of " + NatToString(count) + " actions:"
  }

  /** The lines `a.print()` writes. Every action writes at least one line. */
  function Describe(a: Action): (lines: seq<string>)
    ensures |lines| >= 1
    decreases Size(a), 0
  {
    match a
    case Command(args) => ["Run command: " + ListRepr(args)]
    case Delete(path) => ["Delete: " + path]
    case RestoreOurs(file, _) => ["Restore: " + file]
    case Multi(actions) =>
      if |actions| == 1 then
        SizeOfChild(actions, 0);
        Describe(actions[0])
      else
        [GroupHeader(|actions|)] + DescribeIndented(actions)
  }

  function DescribeIndented(actions: seq<Action>): seq<string>
    decreases SizeAll(actions), 1
  {
    if actions == [] then []
    else
      SizeOfChild(actions, 0);
      Indent(Describe(actions[0])) + DescribeIndented(actions[1..])
  }

  /** A single-line action: a command, a deletion or a restore-ours. */
  predicate IsLeaf(a: Action)
  {
    !a.Multi?
  }

  /** A group of one prints exactly what its only child prints. A group of
      any other size prints the header "Group of N actions:" and then, for
      children that print one line each, exactly one indented line per
      child in list order. */
  lemma {:induction false} DescribeGroup(actions: seq<Action>)
    requires forall i | 0 <= i < |actions| :: IsLeaf(actions[i])
    ensures |actions| == 1 ==> Describe(Multi(actions)) == Describe(actions[0])
    ensures |actions| != 1 ==>
      && |Describe(Multi(actions))| == 1 + |actions|
      && Describe(Multi(actions))[0] == GroupHeader(|actions|)
      && forall i | 0 <= i < |actions| ::
           Describe(Multi(actions))[i + 1] == "  " + Describe(actions[i])[0]
  {
    if |actions| != 1 {
      DescribeIndentedLeaves(actions);
    }
  }

  lemma {:induction false} DescribeIndentedLeaves(actions: seq<Action>)
    requires forall i | 0 <= i < |actions| :: IsLeaf(actions[i])
    ensures |DescribeIndented(actions)| == |actions|
    ensures forall i | 0 <= i < |actions| ::
      DescribeIndented(actions)[i] == "  " + Describe(actions[i])[0]
  {
    if actions != [] {
      DescribeIndentedLeaves(actions[1..]);
      assert |Describe(actions[0])| == 1;
      var rest := DescribeIndented(actions[1..]);
      assert DescribeIndented(actions) == ["  " + Describe(actions[0])[0]] + rest;
      forall i | 0 <= i < |actions|
        ensures DescribeIndented(actions)[i] == "  " + Describe(actions[i])[0]
      {
        if i > 0 {
          assert actions[1..][i - 1] == actions[i];
        }
      }
    }
  }

  /** What the driver prints for a list of actions, in list order. */
  function DescribeAll(actions: seq<Action>): seq<string>
  {
    if actions == [] then []
    else DescribeAll(actions[..|actions| - 1]) + Describe(actions[|actions| - 1])
  }

  /* ---------------------------------------------------------------------
     deleteFileGlob
     --------------------------------------------------------------------- */

  /** One deletion per path a glob matched, in match order. */
  function DeletesFor(matched: seq<string>): (actions: seq<Action>)
    ensures |actions| == |matched|
    ensures forall i | 0 <= i < |matched| :: actions[i] == Delete(matched[i])
  {
    if matched == [] then []
    else DeletesFor(matched[..|matched| - 1]) + [Delete(matched[|matched| - 1])]
  }

  /** `deleteFileGlob(g)`: `matched` is what `glob(g, recursive=True)`
      returned; the generator yields one `DeleteAction` per entry. */
  method DeleteFileGlob(matched: seq<string>) returns (actions: seq<Action>)
    ensures |actions| == |matched|
    ensures forall i | 0 <= i < |matched| :: actions[i] == Delete(matched[i])
  {
    actions := [];
    var i := 0;
    while i < |matched|
      invariant 0 <= i <= |matched|
      invariant |actions| == i
      invariant forall k | 0 <= k < i :: actions[k] == Delete(matched[k])
    {
      actions := actions + [Delete(matched[i])];
      i := i + 1;
    }
  }

  /** The deletions for every configured glob, in configured order, each
      glob's deletions in match order. `expand` stands for the filesystem
      `glob`. */
  function GlobActions(globs: seq<string>, expand: string -> seq<string>): seq<Action>
  {
    if globs == [] then []
    else GlobActions(globs[..|globs| - 1], expand) + DeletesFor(expand(globs[|globs| - 1]))
  }

  /** Glob expansion only ever deletes paths some configured glob matched. */
  lemma {:induction false} GlobActionsOnlyMatched(globs: seq<string>, expand: string -> seq<string>)
    ensures forall a | a in GlobActions(globs, expand) ::
      a.Delete? && exists g | g in globs :: a.path in expand(g)
  {
    if globs != [] {
      var init := globs[..|globs| - 1];
      var last := globs[|globs| - 1];
      GlobActionsOnlyMatched(init, expand);
      forall a | a in GlobActions(globs, expand)
        ensures a.Delete? && exists g | g in globs :: a.path in expand(g)
      {
        if a in GlobActions(init, expand) {
          var g :| g in init && a.path in expand(g);
          assert g in globs;
        } else {
          var m := expand(last);
          assert a in DeletesFor(m);
          var i :| 0 <= i < |m| && DeletesFor(m)[i] == a;
          assert a.path in expand(last);
        }
      }
    }
  }

  /* ---------------------------------------------------------------------
     handleConflicts: status parse
     --------------------------------------------------------------------- */

  /** One line of `git status --porcelain=v1`: our code, their code, path. */
  datatype StatusRecord = StatusRecord(ours: char, theirs: char, path: string)

  /** The result of running `git status --porcelain=v1`: its exit code and
      its standard output split into lines. */
  datatype GitStatus = GitStatus(exitCode: int, lines: seq<string>)

  /** `check_returncode` raising, or a line too short to index (IndexError). */
  datatype StatusError = StatusCommandFailed(exitCode: int) | StatusLineTooShort

  /** The `conflicts` section of the configuration. */
  datatype ConflictRules = ConflictRules(ourFiles: seq<string>, acceptTheirDeletions: seq<string>)

  /** The fixed-width parse `(l[0], l[1], l[3:])`; offset 2 is skipped
      whatever it holds, and a slice past the end is empty. */
  function ParseLine(line: string): StatusRecord
    requires |line| >= 2
  {
    StatusRecord(line[0], line[1], if |line| >= 3 then line[3..] else "")
  }

  /** The parse loses exactly the character at offset 2. */
  lemma ParseLineLayout(line: string)
    requires |line| >= 3
    ensures [ParseLine(line).ours, ParseLine(line).theirs, line[2]] + ParseLine(line).path == line
  {
    assert line == line[..3] + line[3..];
  }

  /** A formatted line parses back to its fields, whatever the separator. */
  lemma ParseLineFormat(ours: char, theirs: char, separator: char, path: string)
    ensures ParseLine([ours, theirs, separator] + path) == StatusRecord(ours, theirs, path)
  {
    assert ([ours, theirs, separator] + path)[3..] == path;
  }

  predicate WellFormed(lines: seq<string>)
  {
    forall i | 0 <= i < |lines| :: |lines[i]| >= 2
  }

  /** The set the parse loop builds from the first lines. */
  function RecordsOf(lines: seq<string>): set<StatusRecord>
    requires WellFormed(lines)
  {
    if lines == [] then {}
    else RecordsOf(lines[..|lines| - 1]) + {ParseLine(lines[|lines| - 1])}
  }

  /** The status read: a non-zero exit fails before any line is parsed; a
      line shorter than two characters fails the whole parse. */
  function ParseStatus(status: GitStatus): Result<set<StatusRecord>, StatusError>
  {
    if status.exitCode != 0 then Err(StatusCommandFailed(status.exitCode))
    else if !WellFormed(status.lines) then Err(StatusLineTooShort)
    else Ok(RecordsOf(status.lines))
  }

  /** A record is in the parsed set exactly when some line parses to it. */
  lemma {:induction false} RecordsOfMembers(lines: seq<string>, r: StatusRecord)
    requires WellFormed(lines)
    ensures r in RecordsOf(lines) <==> exists i | 0 <= i < |lines| :: ParseLine(lines[i]) == r
  {
    if lines != [] {
      var init := lines[..|lines| - 1];
      RecordsOfMembers(init, r);
      if r in RecordsOf(init) {
        var i :| 0 <= i < |init| && ParseLine(init[i]) == r;
        assert lines[i] == init[i];
      }
      if exists i | 0 <= i < |lines| :: ParseLine(lines[i]) == r {
        var i :| 0 <= i < |lines| && ParseLine(lines[i]) == r;
        if i < |lines| - 1 {
          assert init[i] == lines[i];
        }
      }
    }
  }

  /** The record set depends only on which lines occur: reordering or
      repeating status lines does not change it. */
  lemma RecordsOfOrderFree(a: seq<string>, b: seq<string>)
    requires WellFormed(a) && WellFormed(b)
    requires forall l :: l in a <==> l in b
    ensures RecordsOf(a) == RecordsOf(b)
  {
    forall r ensures r in RecordsOf(a) <==> r in RecordsOf(b) {
      RecordsOfMembers(a, r);
      RecordsOfMembers(b, r);
      if exists i | 0 <= i < |a| :: ParseLine(a[i]) == r {
        var i :| 0 <= i < |a| && ParseLine(a[i]) == r;
        assert a[i] in b;
        var j :| 0 <= j < |b| && b[j] == a[i];
      }
      if exists j | 0 <= j < |b| :: ParseLine(b[j]) == r {
        var j :| 0 <= j < |b| && ParseLine(b[j]) == r;
        assert b[j] in a;
        var i :| 0 <= i < |a| && a[i] == b[j];
      }
    }
  }

  /** Identical lines collapse: never more records than lines. */
  lemma {:induction false} RecordsOfCollapse(lines: seq<string>)
    requires WellFormed(lines)
    ensures |RecordsOf(lines)| <= |lines|
  {
    if lines != [] {
      RecordsOfCollapse(lines[..|lines| - 1]);
    }
  }

  /* ---------------------------------------------------------------------
     handleConflicts: rule evaluation
     --------------------------------------------------------------------- */

  /** The `ourFiles` rules for one record, in rule order: a restore-ours
      action for each glob that matches while our side touched the file. */
  function OursActions(r: StatusRecord, globs: seq<string>, fnmatch: (string, string) -> bool): seq<Action>
  {
    if globs == [] then []
    else
      OursActions(r, globs[..|globs| - 1], fnmatch)
      + (if fnmatch(r.path, globs[|globs| - 1]) && r.ours != ' '
         then [RestoreOurs(r.path, r.ours == 'D')] else [])
  }

  /** The `acceptTheirDeletions` rules for one record, in rule order: a
      deletion for each glob that matches an updated-by-us, deleted-by-them
      path. */
  function TheirDeletionActions(r: StatusRecord, globs: seq<string>, fnmatch: (string, string) -> bool): seq<Action>
  {
    if globs == [] then []
    else
      TheirDeletionActions(r, globs[..|globs| - 1], fnmatch)
      + (if fnmatch(r.path, globs[|globs| - 1]) && r.ours == 'U' && r.theirs == 'D'
         then [Delete(r.path)] else [])
  }

  /** The positions of the globs of a list that match a path. */
  function MatchingGlobs(path: string, globs: seq<string>, fnmatch: (string, string) -> bool): set<nat>
  {
    set i: nat | i < |globs| && fnmatch(path, globs[i])
  }

  lemma MatchingGlobsSnoc(path: string, globs: seq<string>, fnmatch: (string, string) -> bool)
    requires globs != []
    ensures var n := |globs| - 1;
      MatchingGlobs(path, globs, fnmatch)
        == MatchingGlobs(path, globs[..n], fnmatch) + (if fnmatch(path, globs[n]) then {n} else {})
  {
    var n := |globs| - 1;
    var lhs := MatchingGlobs(path, globs, fnmatch);
    var rhs := MatchingGlobs(path, globs[..n], fnmatch) + (if fnmatch(path, globs[n]) then {n} else {});
    forall i | i in lhs ensures i in rhs {
      if i < n { assert globs[..n][i] == globs[i]; }
    }
    forall i | i in rhs ensures i in lhs {
      if i < n { assert globs[..n][i] == globs[i]; }
    }
  }

  /** A path matching k of the `ourFiles` globs yields exactly k
      restore-ours actions when our code is not ' ', and none when it is;
      each restores that path, as a deletion exactly when our code is 'D'. */
  lemma {:induction false} OursActionsCount(r: StatusRecord, globs: seq<string>, fnmatch: (string, string) -> bool)
    ensures |OursActions(r, globs, fnmatch)|
      == if r.ours == ' ' then 0 else |MatchingGlobs(r.path, globs, fnmatch)|
    ensures forall a | a in OursActions(r, globs, fnmatch) :: a == RestoreOurs(r.path, r.ours == 'D')
  {
    if globs != [] {
      var n := |globs| - 1;
      OursActionsCount(r, globs[..n], fnmatch);
      MatchingGlobsSnoc(r.path, globs, fnmatch);
      assert n !in MatchingGlobs(r.path, globs[..n], fnmatch);
    }
  }

  /** A deletion from the `acceptTheirDeletions` list needs our code 'U' and
      their code 'D'; then a path matching k of those globs yields exactly k
      deletions of itself, and any other code pair yields none. */
  lemma {:induction false} TheirDeletionActionsCount(r: StatusRecord, globs: seq<string>, fnmatch: (string, string) -> bool)
    ensures |TheirDeletionActions(r, globs, fnmatch)|
      == if r.ours == 'U' && r.theirs == 'D' then |MatchingGlobs(r.path, globs, fnmatch)| else 0
    ensures forall a | a in TheirDeletionActions(r, globs, fnmatch) :: a == Delete(r.path)
  {
    if globs != [] {
      var n := |globs| - 1;
      TheirDeletionActionsCount(r, globs[..n], fnmatch);
      MatchingGlobsSnoc(r.path, globs, fnmatch);
      assert n !in MatchingGlobs(r.path, globs[..n], fnmatch);
    }
  }

  /** Everything one record yields: its `ourFiles` actions, then its
      `acceptTheirDeletions` actions. */
  function RecordActions(r: StatusRecord, rules: ConflictRules, fnmatch: (string, string) -> bool): seq<Action>
  {
    OursActions(r, rules.ourFiles, fnmatch) + TheirDeletionActions(r, rules.acceptTheirDeletions, fnmatch)
  }

  /** For one record the `ourFiles` rules come first: every restore-ours
      action precedes every deletion, and the deletions are exactly the
      ones the `acceptTheirDeletions` rules yield. */
  lemma RecordActionsOrder(r: StatusRecord, rules: ConflictRules, fnmatch: (string, string) -> bool)
    ensures var acts := RecordActions(r, rules, fnmatch);
      var k := |OursActions(r, rules.ourFiles, fnmatch)|;
      && (forall i | 0 <= i < k :: acts[i] == RestoreOurs(r.path, r.ours == 'D'))
      && (forall i | k <= i < |acts| :: acts[i] == Delete(r.path))
      && |acts| - k == |TheirDeletionActions(r, rules.acceptTheirDeletions, fnmatch)|
  {
    var ours := OursActions(r, rules.ourFiles, fnmatch);
    var theirs := TheirDeletionActions(r, rules.acceptTheirDeletions, fnmatch);
    OursActionsCount(r, rules.ourFiles, fnmatch);
    TheirDeletionActionsCount(r, rules.acceptTheirDeletions, fnmatch);
    forall i | 0 <= i < |ours| ensures (ours + theirs)[i] == RestoreOurs(r.path, r.ours == 'D') {
      assert ours[i] in ours;
    }
    forall i | |ours| <= i < |ours + theirs| ensures (ours + theirs)[i] == Delete(r.path) {
      assert theirs[i - |ours|] in theirs;
    }
  }

  /** A record whose path matches no glob of either list yields nothing. */
  lemma NoMatchNoAction(r: StatusRecord, rules: ConflictRules, fnmatch: (string, string) -> bool)
    requires forall g | g in rules.ourFiles :: !fnmatch(r.path, g)
    requires forall g | g in rules.acceptTheirDeletions :: !fnmatch(r.path, g)
    ensures RecordActions(r, rules, fnmatch) == []
  {
    OursActionsCount(r, rules.ourFiles, fnmatch);
    TheirDeletionActionsCount(r, rules.acceptTheirDeletions, fnmatch);
    assert MatchingGlobs(r.path, rules.ourFiles, fnmatch) == {};
    assert MatchingGlobs(r.path, rules.acceptTheirDeletions, fnmatch) == {};
  }

  /** An updated-by-us, deleted-by-them path matched by one glob in each
      list yields both a restore and a deletion, in that order: the source
      does not arbitrate between the two rule lists. */
  lemma BothListsMatch(path: string, ourGlob: string, theirGlob: string, fnmatch: (string, string) -> bool)
    requires fnmatch(path, ourGlob) && fnmatch(path, theirGlob)
    ensures RecordActions(StatusRecord('U', 'D', path), ConflictRules([ourGlob], [theirGlob]), fnmatch)
      == [RestoreOurs(path, false), Delete(path)]
  {
    var r := StatusRecord('U', 'D', path);
    assert [ourGlob][..0] == [];
    assert [theirGlob][..0] == [];
    assert OursActions(r, [ourGlob], fnmatch) == [RestoreOurs(path, false)];
    assert TheirDeletionActions(r, [theirGlob], fnmatch) == [Delete(path)];
  }

  /** The actions for the records in the order the set was iterated. */
  function PlanConflicts(order: seq<StatusRecord>, rules: ConflictRules, fnmatch: (string, string) -> bool): seq<Action>
  {
    if order == [] then []
    else PlanConflicts(order[..|order| - 1], rules, fnmatch) + RecordActions(order[|order| - 1], rules, fnmatch)
  }

  /** Planning splits over the iteration order: the plan for two runs of
      records is the plan for the first followed by that for the second. */
  lemma {:induction false} PlanConflictsAppend(xs: seq<StatusRecord>, ys: seq<StatusRecord>, rules: ConflictRules, fnmatch: (string, string) -> bool)
    ensures PlanConflicts(xs + ys, rules, fnmatch) == PlanConflicts(xs, rules, fnmatch) + PlanConflicts(ys, rules, fnmatch)
    decreases |ys|
  {
    if ys != [] {
      var n := |ys| - 1;
      assert (xs + ys)[..|xs + ys| - 1] == xs + ys[..n];
      assert (xs + ys)[|xs + ys| - 1] == ys[n];
      PlanConflictsAppend(xs, ys[..n], rules, fnmatch);
    } else {
      assert xs + ys == xs;
    }
  }

  /** `order` lists every element of `s` exactly once. */
  ghost predicate IsEnumeration(order: seq<StatusRecord>, s: set<StatusRecord>)
  {
    && (forall i, j | 0 <= i < j < |order| :: order[i] != order[j])
    && (forall x :: x in order <==> x in s)
  }

  /** An enumeration of a set visits as many records as the set holds. */
  lemma {:induction false} EnumerationSize(order: seq<StatusRecord>, s: set<StatusRecord>)
    requires IsEnumeration(order, s)
    ensures |order| == |s|
    decreases |order|
  {
    if order == [] {
      assert s == {};
    } else {
      var n := |order| - 1;
      var last, init := order[n], order[..n];
      forall x ensures x in init <==> x in s - {last} {
        if x in init {
          var i :| 0 <= i < n && init[i] == x;
          assert order[i] == x;
        }
        if x in s - {last} {
          var i :| 0 <= i < |order| && order[i] == x;
          assert init[i] == x;
        }
      }
      assert forall i, j | 0 <= i < j < n :: init[i] != init[j] by {
        forall i, j | 0 <= i < j < n ensures init[i] != init[j] {
          assert init[i] == order[i] && init[j] == order[j];
        }
      }
      EnumerationSize(init, s - {last});
    }
  }

  /** The two rule loops of `handleConflicts` for one record: every
      `ourFiles` glob in order, then every `acceptTheirDeletions` glob. */
  method EvaluateRules(record: StatusRecord, rules: ConflictRules, fnmatch: (string, string) -> bool)
    returns (yielded: seq<Action>)
    ensures yielded == RecordActions(record, rules, fnmatch)
  {
    var ours: seq<Action> := [];
    var k := 0;
    while k < |rules.ourFiles|
      invariant 0 <= k <= |rules.ourFiles|
      invariant ours == OursActions(record, rules.ourFiles[..k], fnmatch)
    {
      assert rules.ourFiles[..k + 1][..k] == rules.ourFiles[..k];
      if fnmatch(record.path, rules.ourFiles[k]) && record.ours != ' ' {
        ours := ours + [RestoreOurs(record.path, record.ours == 'D')];
      }
      k := k + 1;
    }
    assert rules.ourFiles[..k] == rules.ourFiles;
    var theirs: seq<Action> := [];
    k := 0;
    while k < |rules.acceptTheirDeletions|
      invariant 0 <= k <= |rules.acceptTheirDeletions|
      invariant theirs == TheirDeletionActions(record, rules.acceptTheirDeletions[..k], fnmatch)
    {
      assert rules.acceptTheirDeletions[..k + 1][..k] == rules.acceptTheirDeletions[..k];
      if fnmatch(record.path, rules.acceptTheirDeletions[k]) && record.ours == 'U' && record.theirs == 'D' {
        theirs := theirs + [Delete(record.path)];
      }
      k := k + 1;
    }
    assert rules.acceptTheirDeletions[..k] == rules.acceptTheirDeletions;
    yielded := ours + theirs;
  }

  /** The first half of `handleConflicts`: run the status command, fail
      on a non-zero exit before parsing anything, then add one record per
      line to a set. */
  method ReadStatus(status: GitStatus) returns (result: Result<set<StatusRecord>, StatusError>)
    ensures result == ParseStatus(status)
  {
    if status.exitCode != 0 {
      return Err(StatusCommandFailed(status.exitCode));
    }
    var fileActions: set<StatusRecord> := {};
    var i := 0;
    while i < |status.lines|
      invariant 0 <= i <= |status.lines|
      invariant WellFormed(status.lines[..i])
      invariant fileActions == RecordsOf(status.lines[..i])
    {
      var l := status.lines[i];
      if |l| < 2 {
        return Err(StatusLineTooShort);
      }
      assert status.lines[..i + 1][..i] == status.lines[..i];
      fileActions := fileActions + {ParseLine(l)};
      i := i + 1;
    }
    assert status.lines[..i] == status.lines;
    result := Ok(fileActions);
  }

  lemma EnumerationStep(order: seq<StatusRecord>, all: set<StatusRecord>, remaining: set<StatusRecord>, x: StatusRecord)
    requires IsEnumeration(order, all - remaining)
    requires x in remaining
    ensures IsEnumeration(order + [x], all - (remaining - {x})) || x !in all
  {
    if x in all {
      forall i, j | 0 <= i < j < |order + [x]| ensures (order + [x])[i] != (order + [x])[j] {
        if j == |order| {
          assert order[i] in order;
        }
      }
    }
  }

  /** `handleConflicts`: reads the status (failing before anything is
      yielded), then walks the record set in some iteration order (returned
      as `order`), yielding each record's actions. */
  method HandleConflicts(status: GitStatus, rules: ConflictRules, fnmatch: (string, string) -> bool)
    returns (result: Result<seq<Action>, StatusError>, order: seq<StatusRecord>)
    ensures ParseStatus(status).Err? ==> result == Err(ParseStatus(status).error) && order == []
    ensures ParseStatus(status).Ok? ==>
      && IsEnumeration(order, ParseStatus(status).value)
      && result == Ok(PlanConflicts(order, rules, fnmatch))
  {
    order := [];
    var read := ReadStatus(status);
    if read.Err? {
      return Err(read.error), [];
    }
    var fileActions := read.value;
    var actions: seq<Action> := [];
    var remaining := fileActions;
    while remaining != {}
      invariant remaining <= fileActions
      invariant IsEnumeration(order, fileActions - remaining)
      invariant actions == PlanConflicts(order, rules, fnmatch)
      decreases |remaining|
    {
      var record :| record in remaining;
      var yielded := EvaluateRules(record, rules, fnmatch);
      actions := actions + yielded;
      EnumerationStep(order, fileActions, remaining, record);
      assert (order + [record])[..|order|] == order;
      order := order + [record];
      remaining := remaining - {record};
    }
    assert fileActions - remaining == fileActions;
    result := Ok(actions);
  }
}
