/** The pre-commit "remote is ahead" gate of GitPullReminderCheckinHandler.

    Every git command, progress indicator and dialog of the plugin is an input here:
    - a repository is a record holding the outcome of `git fetch --all`, the current
      and tracked branch as seen after the fetch, and the answer `git rev-list --count`
      gives for each range argument;
    - the progress indicator's isCanceled() is one boolean per repository and phase;
    - the Yes/No/Cancel dialog is the int it returns;
    - `git pull` is one command result per repository.
    Repositories are visited in the order of the sequence. */
module CheckinHandler {
  import opened JavaLang

  /** CheckinHandler.ReturnResult, as far as this handler produces it. */
  datatype ReturnResult = Commit | Cancel

  /** What running one git command yields: success with its joined output, failure
      with its joined error output, or an exception with its message. */
  datatype CommandResult =
    | Succeeded(output: string)
    | Failed(errorOutput: string)
    | Threw(message: string)

  /** A repository as the handler observes it. `revList(range)` is the outcome of
      `git rev-list --count <range>` in this repository. */
  datatype Repository = Repository(
    fetchOk: bool,
    currentBranch: Option<string>,
    trackedBranch: Option<string>,
    revList: string -> CommandResult)

  /** The values Messages.showYesNoCancelDialog returns for its first two buttons. */
  const YES: int := 0
  const NO: int := 1

  // ---------------------------------------------------------------------------
  // checkBehindCount
  // ---------------------------------------------------------------------------

  /** The range argument handed to rev-list: commits on the tracked branch that the
      local branch lacks. */
  function RevListRange(local: string, tracked: string): (range: string)
    ensures |range| == |local| + 2 + |tracked|
    ensures range[..|local|] == local
    ensures range[|local|..|local| + 2] == ".."
    ensures range[|local| + 2..] == tracked
  {
    local + ".." + tracked
  }

  /** checkBehindCount: 0 without a current branch, without a tracked branch, when
      rev-list fails or throws, or when its trimmed output does not parse as a Java
      int; otherwise the parsed number, which may be negative. */
  function CheckBehindCount(repo: Repository): (behind: int)
    ensures InInt32(behind)
    ensures behind != 0 ==>
      && repo.currentBranch.Some?
      && repo.trackedBranch.Some?
      && var result := repo.revList(RevListRange(repo.currentBranch.value, repo.trackedBranch.value));
      && result.Succeeded?
      && ParseInt(Trim(result.output)) == Some(behind)
  {
    match repo.currentBranch
    case None => 0
    case Some(local) =>
      match repo.trackedBranch
      case None => 0
      case Some(tracked) =>
        match repo.revList(RevListRange(local, tracked))
        case Succeeded(output) =>
          (match ParseInt(Trim(output))
           case Some(n) => n
           case None => 0)
        case Failed(_) => 0
        case Threw(_) => 0
  }

  /** The four ways checkBehindCount ends with 0 besides a count of 0 itself. */
  lemma BehindCountZeroCases(repo: Repository)
    ensures repo.currentBranch.None? ==> CheckBehindCount(repo) == 0
    ensures repo.trackedBranch.None? ==> CheckBehindCount(repo) == 0
    ensures repo.currentBranch.Some? && repo.trackedBranch.Some? ==>
      var result := repo.revList(RevListRange(repo.currentBranch.value, repo.trackedBranch.value));
      && (!result.Succeeded? ==> CheckBehindCount(repo) == 0)
      && (result.Succeeded? && ParseInt(Trim(result.output)).None? ==> CheckBehindCount(repo) == 0)
  {
  }

  /** Once rev-list has succeeded, the count is whatever its trimmed output parses to. */
  lemma BehindCountOfParsedOutput(repo: Repository, output: string, v: int)
    requires repo.currentBranch.Some? && repo.trackedBranch.Some?
    requires repo.revList(RevListRange(repo.currentBranch.value, repo.trackedBranch.value)) == Succeeded(output)
    requires ParseInt(Trim(output)) == Some(v)
    ensures CheckBehindCount(repo) == v
  {
  }

  /** When rev-list prints a count n with any padding trim removes (the usual
      trailing newline, say), checkBehindCount reports n, or 0 once n no longer fits
      in a Java int. */
  lemma BehindCountOfPrintedCount(repo: Repository, n: nat, pre: string, post: string)
    requires repo.currentBranch.Some? && repo.trackedBranch.Some?
    requires AllTrimmable(pre) && AllTrimmable(post)
    requires repo.revList(RevListRange(repo.currentBranch.value, repo.trackedBranch.value))
             == Succeeded(pre + FormatDecimal(n) + post)
    ensures CheckBehindCount(repo) == if n <= IntMax then n else 0
  {
    var output := pre + FormatDecimal(n) + post;
    TrimOfPadded(pre, FormatDecimal(n), post);
    ParseIntOfDecimal(n);
    if n <= IntMax {
      BehindCountOfParsedOutput(repo, output, n);
    }
  }

  /** Output that parses to a negative number gives a negative behind count, which
      the fetch loop then ignores. */
  lemma BehindCountCanBeNegative(repo: Repository, n: nat)
    requires repo.currentBranch.Some? && repo.trackedBranch.Some?
    requires 0 < n <= -IntMin
    requires repo.revList(RevListRange(repo.currentBranch.value, repo.trackedBranch.value))
             == Succeeded("-" + FormatDecimal(n))
    ensures CheckBehindCount(repo) == -(n as int)
    ensures !IsBehind(repo)
  {
    TrimParseOfNegated(n);
    BehindCountOfParsedOutput(repo, "-" + FormatDecimal(n), -(n as int));
  }

  // ---------------------------------------------------------------------------
  // What the fetch loop aggregates
  // ---------------------------------------------------------------------------

  /** A repository adds to the prompt when its fetch succeeded and it reports a
      strictly positive behind count. */
  predicate IsBehind(repo: Repository)
    ensures IsBehind(repo) ==> repo.currentBranch.Some? && repo.trackedBranch.Some?
  {
    repo.fetchOk && CheckBehindCount(repo) > 0
  }

  predicate AnyBehind(repos: seq<Repository>) {
    exists k | 0 <= k < |repos| :: IsBehind(repos[k])
  }

  /** "<local> <- <tracked>" for a repository with both branches. */
  function BranchInfo(repo: Repository): (info: string)
    requires repo.currentBranch.Some? && repo.trackedBranch.Some?
    ensures |info| == |repo.currentBranch.value| + 4 + |repo.trackedBranch.value|
    ensures info[..|repo.currentBranch.value|] == repo.currentBranch.value
    ensures info[|repo.currentBranch.value|..|repo.currentBranch.value| + 4] == " <- "
    ensures info[|repo.currentBranch.value| + 4..] == repo.trackedBranch.value
  {
    repo.currentBranch.value + " <- " + repo.trackedBranch.value
  }

  /** What one repository hands to the prompt: its behind count and branch text. */
  datatype Lag = Lag(count: int, branchInfo: string)

  /** The lag a repository contributes, or None when it is not behind. */
  function LagOf(repo: Repository): (lag: Option<Lag>)
    ensures lag.Some? <==> IsBehind(repo)
    ensures lag.Some? ==> lag.value.count > 0 && lag.value.branchInfo != []
  {
    if IsBehind(repo) then
      var info := BranchInfo(repo);
      assert info[|repo.currentBranch.value|] == ' ';
      Some(Lag(CheckBehindCount(repo), info))
    else None
  }

  /** The lags of the repositories, in iteration order. */
  function Lags(repos: seq<Repository>): (lags: seq<Option<Lag>>)
    ensures |lags| == |repos|
  {
    if repos == [] then [] else Lags(repos[..|repos| - 1]) + [LagOf(repos[|repos| - 1])]
  }

  /** Entry k of the lags is the lag of repository k. */
  lemma {:induction false} LagsAt(repos: seq<Repository>, k: nat)
    requires k < |repos|
    ensures Lags(repos)[k] == LagOf(repos[k])
  {
    if k < |repos| - 1 {
      LagsAt(repos[..|repos| - 1], k);
    }
  }

  /** The lags of a concatenation are the concatenated lags. */
  lemma {:induction false} LagsAppend(a: seq<Repository>, b: seq<Repository>)
    ensures Lags(a + b) == Lags(a) + Lags(b)
  {
    if b == [] {
      assert a + b == a;
    } else {
      var ab := a + b;
      assert ab[..|ab| - 1] == a + b[..|b| - 1];
      LagsAppend(a, b[..|b| - 1]);
    }
  }

  /** Every recorded lag is a positive count with a non-empty branch text. */
  predicate WellFormed(lags: seq<Option<Lag>>) {
    forall k | 0 <= k < |lags| :: lags[k].Some? ==> lags[k].value.count > 0 && lags[k].value.branchInfo != []
  }

  predicate AnyLag(lags: seq<Option<Lag>>) {
    exists k | 0 <= k < |lags| :: lags[k].Some?
  }

  /** The mathematical sum of the recorded counts. */
  function TotalCount(lags: seq<Option<Lag>>): int {
    if lags == [] then 0
    else
      var last := lags[|lags| - 1];
      TotalCount(lags[..|lags| - 1]) + (if last.Some? then last.value.count else 0)
  }

  /** The branch text of the last recorded lag, or "" when there is none. */
  function LastInfo(lags: seq<Option<Lag>>): string {
    if lags == [] then ""
    else
      var last := lags[|lags| - 1];
      if last.Some? then last.value.branchInfo else LastInfo(lags[..|lags| - 1])
  }

  /** The sum of the behind counts of the repositories that are behind. */
  function BehindSum(repos: seq<Repository>): int {
    TotalCount(Lags(repos))
  }

  /** The branch text of the last repository that is behind, or "". */
  function LastBranchInfo(repos: seq<Repository>): string {
    LastInfo(Lags(repos))
  }

  lemma LagsWellFormed(repos: seq<Repository>)
    ensures WellFormed(Lags(repos))
    ensures AnyLag(Lags(repos)) <==> AnyBehind(repos)
  {
    var lags := Lags(repos);
    forall k | 0 <= k < |lags|
      ensures lags[k].Some? ==> lags[k].value.count > 0 && lags[k].value.branchInfo != []
    {
      LagsAt(repos, k);
    }
    if AnyBehind(repos) {
      var k :| 0 <= k < |repos| && IsBehind(repos[k]);
      LagsAt(repos, k);
    }
    if AnyLag(lags) {
      var k :| 0 <= k < |lags| && lags[k].Some?;
      LagsAt(repos, k);
    }
  }

  /** A sum of positive counts is positive exactly when there is a count. */
  lemma {:induction false} TotalCountPositive(lags: seq<Option<Lag>>)
    requires WellFormed(lags)
    ensures TotalCount(lags) >= 0
    ensures TotalCount(lags) > 0 <==> AnyLag(lags)
  {
    if lags != [] {
      var init := lags[..|lags| - 1];
      assert WellFormed(init);
      TotalCountPositive(init);
      if AnyLag(init) {
        var k :| 0 <= k < |init| && init[k].Some?;
        assert lags[k].Some?;
      }
      if AnyLag(lags) && lags[|lags| - 1].None? {
        var k :| 0 <= k < |lags| && lags[k].Some?;
        assert init[k].Some?;
      }
    }
  }

  /** LastInfo picks the branch text of the last recorded lag. */
  lemma {:induction false} LastInfoIsLast(lags: seq<Option<Lag>>) returns (k: nat)
    requires AnyLag(lags)
    ensures k < |lags| && lags[k].Some?
    ensures forall j | k < j < |lags| :: lags[j].None?
    ensures LastInfo(lags) == lags[k].value.branchInfo
  {
    if lags[|lags| - 1].Some? {
      k := |lags| - 1;
    } else {
      var init := lags[..|lags| - 1];
      var w :| 0 <= w < |lags| && lags[w].Some?;
      assert init[w].Some?;
      k := LastInfoIsLast(init);
    }
  }

  /** Without any lag the branch text stays "". */
  lemma {:induction false} LastInfoOfNone(lags: seq<Option<Lag>>)
    requires !AnyLag(lags)
    ensures LastInfo(lags) == ""
  {
    if lags != [] {
      LastInfoOfNone(lags[..|lags| - 1]);
    }
  }

  /** An entry without a lag changes neither the total nor the branch text,
      wherever it stands. */
  lemma {:induction false} NoLagIgnored(before: seq<Option<Lag>>, after: seq<Option<Lag>>)
    ensures TotalCount(before + [None] + after) == TotalCount(before + after)
    ensures LastInfo(before + [None] + after) == LastInfo(before + after)
  {
    var s := before + [None] + after;
    var t := before + after;
    if after == [] {
      assert s[..|s| - 1] == t;
    } else {
      var init := after[..|after| - 1];
      assert s[..|s| - 1] == before + [None] + init;
      assert t[..|t| - 1] == before + init;
      assert s[|s| - 1] == t[|t| - 1];
      NoLagIgnored(before, init);
    }
  }

  /** Extending a prefix by one entry extends the three accumulators by that entry. */
  lemma PrefixStep(lags: seq<Option<Lag>>, i: nat)
    requires i < |lags|
    ensures TotalCount(lags[..i + 1]) == TotalCount(lags[..i]) + (if lags[i].Some? then lags[i].value.count else 0)
    ensures LastInfo(lags[..i + 1]) == if lags[i].Some? then lags[i].value.branchInfo else LastInfo(lags[..i])
    ensures AnyLag(lags[..i + 1]) == (AnyLag(lags[..i]) || lags[i].Some?)
  {
    var p := lags[..i + 1];
    assert p[..i] == lags[..i];
    if AnyLag(p) && lags[i].None? {
      var k :| 0 <= k < |p| && p[k].Some?;
      assert lags[..i][k].Some?;
    }
    if AnyLag(lags[..i]) {
      var k :| 0 <= k < i && lags[..i][k].Some?;
      assert p[k].Some?;
    }
  }

  /** The total is positive exactly when some repository is behind. */
  lemma BehindSumPositive(repos: seq<Repository>)
    ensures BehindSum(repos) >= 0
    ensures BehindSum(repos) > 0 <==> AnyBehind(repos)
  {
    LagsWellFormed(repos);
    TotalCountPositive(Lags(repos));
  }

  /** While the true total fits in a Java int, the prompt shows it exactly, and it is
      positive whenever some repository is behind. Beyond that, addAndGet wraps. */
  lemma PromptCountIsSum(repos: seq<Repository>)
    requires BehindSum(repos) <= IntMax
    ensures ToInt32(BehindSum(repos)) == BehindSum(repos)
    ensures AnyBehind(repos) ==> ToInt32(BehindSum(repos)) > 0
  {
    BehindSumPositive(repos);
  }

  /** The branch text is that of the last repository that is behind, and "" exactly
      when none is. */
  lemma LastBranchInfoIsLast(repos: seq<Repository>) returns (k: nat)
    requires AnyBehind(repos)
    ensures k < |repos| && IsBehind(repos[k])
    ensures forall j | k < j < |repos| :: !IsBehind(repos[j])
    ensures LastBranchInfo(repos) == BranchInfo(repos[k])
  {
    LagsWellFormed(repos);
    k := LastInfoIsLast(Lags(repos));
    LagsAt(repos, k);
    forall j | k < j < |repos|
      ensures !IsBehind(repos[j])
    {
      LagsAt(repos, j);
    }
  }

  lemma LastBranchInfoEmpty(repos: seq<Repository>)
    ensures LastBranchInfo(repos) == "" <==> !AnyBehind(repos)
  {
    LagsWellFormed(repos);
    if AnyBehind(repos) {
      var k := LastBranchInfoIsLast(repos);
      LagsAt(repos, k);
    } else {
      LastInfoOfNone(Lags(repos));
    }
  }

  /** A repository that is not behind (its fetch failed, or its count is zero or
      negative) changes neither the total nor the branch text, wherever it stands. */
  lemma SkippedRepositoryIgnored(before: seq<Repository>, repo: Repository, after: seq<Repository>)
    requires !IsBehind(repo)
    ensures BehindSum(before + [repo] + after) == BehindSum(before + after)
    ensures LastBranchInfo(before + [repo] + after) == LastBranchInfo(before + after)
  {
    LagsAppend(before + [repo], after);
    LagsAppend(before, [repo]);
    assert [repo][..0] == [];
    LagsAppend(before, after);
    NoLagIgnored(Lags(before), Lags(after));
  }

  // ---------------------------------------------------------------------------
  // The fetch-and-aggregate loop (the modal task of beforeCheckin)
  // ---------------------------------------------------------------------------

  /** How the fetch task ends: interrupted by cancellation after `visited`
      repositories (failed fetches included), or having visited them all with its three accumulators. */
  datatype Scan =
    | Interrupted(visited: nat)
    | Completed(hasRemoteCommits: bool, behindCount: int, branchInfo: string)

  /** The index of the first true entry, or |flags| when there is none. */
  function FirstTrue(flags: seq<bool>): (k: nat)
    ensures k <= |flags|
    ensures forall j | 0 <= j < k :: !flags[j]
    ensures k < |flags| ==> flags[k]
  {
    if flags == [] then 0
    else if flags[0] then 0
    else 1 + FirstTrue(flags[1..])
  }

  /** The body of the fetch loop for repository i, once no cancellation was seen:
      skip it if its fetch fails; otherwise, when its behind count is positive, raise the
      flag, add the count to the Java int total (wrapping as addAndGet does) and
      record its branch text. Exactly the lag of repository i enters the accumulators:
      when the running total is the wrapped value of the mathematical sum `total`,
      the new one is the wrapped value of that sum plus the lag. */
  method VisitRepository(repos: seq<Repository>, i: nat,
                         hasRemoteCommits: bool, behindCount: int, branchInfo: string, ghost total: int)
    returns (hasRemoteCommits': bool, behindCount': int, branchInfo': string)
    requires i < |repos|
    requires behindCount == ToInt32(total)
    ensures var lag := Lags(repos)[i];
      && hasRemoteCommits' == (hasRemoteCommits || lag.Some?)
      && behindCount' == ToInt32(total + if lag.Some? then lag.value.count else 0)
      && branchInfo' == if lag.Some? then lag.value.branchInfo else branchInfo
  {
    LagsAt(repos, i);
    var repo := repos[i];
    hasRemoteCommits', behindCount', branchInfo' := hasRemoteCommits, behindCount, branchInfo;
    if !repo.fetchOk {
      return;
    }
    var behind := CheckBehindCount(repo);
    if behind > 0 {
      hasRemoteCommits' := true;
      ToInt32AddCongruent(total, behind);
      behindCount' := ToInt32(behindCount + behind);
      if repo.currentBranch.Some? {
        if repo.trackedBranch.Some? {
          branchInfo' := BranchInfo(repo);
        }
      }
    }
  }

  /** The first cancellation is at i when i is the first true entry. */
  lemma FirstTrueAt(flags: seq<bool>, i: nat)
    requires i < |flags| && flags[i]
    requires forall j | 0 <= j < i :: !flags[j]
    ensures FirstTrue(flags) == i
  {
  }

  /** The first cancellation is the end when no entry is true. */
  lemma FirstTrueNone(flags: seq<bool>)
    requires forall j | 0 <= j < |flags| :: !flags[j]
    ensures FirstTrue(flags) == |flags|
  {
  }

  /** The fetch task: visit the repositories in order and stop with CANCEL as soon as
      cancellation is seen. */
  method ScanRepositories(repos: seq<Repository>, cancelled: seq<bool>) returns (scan: Scan)
    requires |cancelled| == |repos|
    ensures FirstTrue(cancelled) < |repos| ==> scan == Interrupted(FirstTrue(cancelled))
    ensures FirstTrue(cancelled) == |repos| ==>
      scan == Completed(AnyBehind(repos), ToInt32(BehindSum(repos)), LastBranchInfo(repos))
  {
    var hasRemoteCommits := false;
    var behindCount := 0;
    var branchInfo := "";
    ghost var lags := Lags(repos);
    var i := 0;
    while i < |repos|
      invariant 0 <= i <= |repos|
      invariant forall j | 0 <= j < i :: !cancelled[j]
      invariant hasRemoteCommits == AnyLag(lags[..i])
      invariant behindCount == ToInt32(TotalCount(lags[..i]))
      invariant branchInfo == LastInfo(lags[..i])
    {
      if cancelled[i] {
        FirstTrueAt(cancelled, i);
        return Interrupted(i);
      }
      PrefixStep(lags, i);
      hasRemoteCommits, behindCount, branchInfo :=
        VisitRepository(repos, i, hasRemoteCommits, behindCount, branchInfo, TotalCount(lags[..i]));
      i := i + 1;
    }
    assert lags[..i] == lags;
    FirstTrueNone(cancelled);
    LagsWellFormed(repos);
    return Completed(hasRemoteCommits, behindCount, branchInfo);
  }

  // ---------------------------------------------------------------------------
  // The dialog and the pull loop
  // ---------------------------------------------------------------------------

  datatype Decision = PullThenCommit | CommitAnyway | Abort

  /** The switch on the dialog's answer: YES pulls, NO commits, anything else
      (the Cancel button, closing the dialog) cancels. */
  function Decide(choice: int): (d: Decision)
    ensures d == PullThenCommit <==> choice == YES
    ensures d == CommitAnyway <==> choice == NO
    ensures d == Abort <==> choice != YES && choice != NO
  {
    if choice == YES then PullThenCommit
    else if choice == NO then CommitAnyway
    else Abort
  }

  /** The text the error dialog cites: the command's error output or the exception's
      message. */
  function ErrorText(outcome: CommandResult): (text: string)
    requires !outcome.Succeeded?
    ensures outcome == Failed(text) || outcome == Threw(text)
  {
    match outcome
    case Failed(e) => e
    case Threw(m) => m
  }

  /** The fail-fast policy of the pull loop. `pulled` repositories, a prefix, were
      pulled and refreshed; the loop stopped at the first cancellation, failure or
      exception; an error is shown exactly when it stopped on a failure or exception;
      the verdict is COMMIT exactly when every repository was pulled. */
  predicate FailFast(cancelled: seq<bool>, outcomes: seq<CommandResult>,
                     result: ReturnResult, pulled: nat, error: Option<string>)
    requires |cancelled| == |outcomes|
  {
    && pulled <= |outcomes|
    && (forall j | 0 <= j < pulled :: !cancelled[j] && outcomes[j].Succeeded?)
    && (pulled < |outcomes| ==> cancelled[pulled] || !outcomes[pulled].Succeeded?)
    && (result == Commit <==> pulled == |outcomes|)
    && error == (if pulled < |outcomes| && !cancelled[pulled]
                 then Some(ErrorText(outcomes[pulled])) else None)
  }

  /** executePullAndCommit: pull the repositories in order, stopping at the first
      cancellation, failure or exception, without undoing earlier pulls. */
  method ExecutePullAndCommit(cancelled: seq<bool>, outcomes: seq<CommandResult>)
    returns (result: ReturnResult, pulled: nat, error: Option<string>)
    requires |cancelled| == |outcomes|
    ensures FailFast(cancelled, outcomes, result, pulled, error)
  {
    var pullSuccess := true;
    error := None;
    pulled := 0;
    while pulled < |outcomes|
      invariant pulled <= |outcomes|
      invariant forall j | 0 <= j < pulled :: !cancelled[j] && outcomes[j].Succeeded?
    {
      if cancelled[pulled] {
        pullSuccess := false;
        break;
      }
      var outcome := outcomes[pulled];
      if !outcome.Succeeded? {
        pullSuccess := false;
        error := Some(ErrorText(outcome));
        break;
      }
      pulled := pulled + 1;
    }
    if pullSuccess {
      result := Commit;
    } else {
      result := Cancel;
    }
  }

  /** showPullConfirmDialog after the dialog has answered `choice`. */
  method ShowPullConfirmDialog(choice: int, cancelled: seq<bool>, outcomes: seq<CommandResult>)
    returns (result: ReturnResult, pulled: nat, error: Option<string>)
    requires |cancelled| == |outcomes|
    ensures choice == YES ==> FailFast(cancelled, outcomes, result, pulled, error)
    ensures choice != YES ==> pulled == 0 && error == None
    ensures choice != YES ==> (result == Commit <==> choice == NO)
  {
    match Decide(choice)
    case PullThenCommit =>
      result, pulled, error := ExecutePullAndCommit(cancelled, outcomes);
    case CommitAnyway =>
      result, pulled, error := Commit, 0, None;
    case Abort =>
      result, pulled, error := Cancel, 0, None;
  }

  // ---------------------------------------------------------------------------
  // beforeCheckin
  // ---------------------------------------------------------------------------

  /** The dialog's content: the total behind count and the branch text. */
  datatype Prompt = Prompt(behindCount: int, branchInfo: string)

  /** Everything one run of the gate makes observable: the verdict, how many
      repositories the fetch task visited (failed fetches included), the prompt it showed, how many repositories it pulled
      and the pull error it reported. */
  datatype GateRun = GateRun(
    result: ReturnResult,
    visited: nat,
    prompt: Option<Prompt>,
    pulled: nat,
    pullError: Option<string>)

  /** beforeCheckin. `hasProject` is false when the panel has no project;
      `fetchCancelled` and `pullCancelled` are what the two progress indicators
      report before each repository; `choice` is the dialog's answer and `pulls` the
      outcome of `git pull` in each repository. */
  method BeforeCheckin(hasProject: bool, repos: seq<Repository>, fetchCancelled: seq<bool>,
                       choice: int, pullCancelled: seq<bool>, pulls: seq<CommandResult>)
    returns (run: GateRun)
    requires |fetchCancelled| == |repos| && |pullCancelled| == |repos| && |pulls| == |repos|
    // No project or no repository: commit at once.
    ensures !hasProject || repos == [] ==> run == GateRun(Commit, 0, None, 0, None)
    // Cancellation during the fetch phase: cancel, with nothing shown and nothing pulled.
    ensures hasProject && FirstTrue(fetchCancelled) < |repos| ==>
      run == GateRun(Cancel, FirstTrue(fetchCancelled), None, 0, None)
    // No repository behind: commit without a prompt.
    ensures hasProject && FirstTrue(fetchCancelled) == |repos| && !AnyBehind(repos) ==>
      run == GateRun(Commit, |repos|, None, 0, None)
    // Some repository behind: one prompt with the wrapped total and the last branch text.
    ensures hasProject && FirstTrue(fetchCancelled) == |repos| && AnyBehind(repos) ==>
      && run.visited == |repos|
      && run.prompt == Some(Prompt(ToInt32(BehindSum(repos)), LastBranchInfo(repos)))
      && (choice == YES ==> FailFast(pullCancelled, pulls, run.result, run.pulled, run.pullError))
      && (choice != YES ==> run.pulled == 0 && run.pullError == None)
      && (choice != YES ==> (run.result == Commit <==> choice == NO))
  {
    if !hasProject {
      return GateRun(Commit, 0, None, 0, None);
    }
    if repos == [] {
      return GateRun(Commit, 0, None, 0, None);
    }
    var scan := ScanRepositories(repos, fetchCancelled);
    if scan.Interrupted? {
      return GateRun(Cancel, scan.visited, None, 0, None);
    }
    if scan.hasRemoteCommits {
      var result, pulled, error := ShowPullConfirmDialog(choice, pullCancelled, pulls);
      return GateRun(result, |repos|, Some(Prompt(scan.behindCount, scan.branchInfo)), pulled, error);
    }
    return GateRun(Commit, |repos|, None, 0, None);
  }
}
