# Git Pull Reminder: the pre-commit gate

Git Pull Reminder is an IntelliJ plugin. It hooks into the commit dialog through
`GitPullReminderCheckinHandler.beforeCheckin`. Before every commit it works through
these steps:

- It fetches each Git repository of the project.
- It counts the commits each current branch lacks from its tracked branch. The count
  comes from `git rev-list --count <local>..<tracked>`.
- When some repository is behind, it asks the user whether to pull first, to commit
  anyway, or to cancel. Pulling stops at the first failure.

The handler returns COMMIT or CANCEL, and that verdict decides whether the commit
goes ahead.

The project has two modules:

- `JavaLang` (`java_lang.dfy`) models the Java behaviour the handler relies on:
  - the 32-bit `int` and the wrap-around of `AtomicInteger.addAndGet`;
  - `String.trim`;
  - `Integer.parseInt` in radix 10.
- `CheckinHandler` (`checkin_handler.dfy`) models the gate itself:
  - `checkBehindCount`;
  - the fetch loop and the verdict of `beforeCheckin`;
  - the answer switch of `showPullConfirmDialog`;
  - the fail-fast pull loop of `executePullAndCommit`.

The functions are pure. The two loops are methods with `while` loops, each proved
against a specification function or predicate.

Everything the plugin asks of Git, the IDE or the user becomes an input:

- A `Repository` holds:
  - whether `git fetch --all` succeeded;
  - the current and tracked branch after `repository.update()`;
  - the result `git rev-list --count` gives for each range argument.
- Each progress indicator's `isCanceled()` is one boolean per repository.
- The dialog's answer is an `int`.
- `git pull` gives one `CommandResult` per repository.

Three behaviours of the code are easy to miss:

- A behind count can be negative. `checkBehindCount` returns whatever
  `Integer.parseInt` reads, and only the `behind > 0` test in the fetch loop filters
  it out.
- The count shown in the prompt is the 32-bit (`addAndGet`) sum of the positive
  counts only.
- The branch text is set only by a repository that is behind. It is the text of the
  last such repository, and it stays `""` when none is behind.

## Model

Source paths are relative to the repository root.

| member | source | states |
|---|---|---|
| JavaLang.ToInt32 | src/main/java/com/github/zhenyuan/gitpullreminder/GitPullReminderCheckinHandler.java:87 | The result is always a Java int. A value already in the int range is left unchanged. |
| JavaLang.ToInt32AddCongruent | src/main/java/com/github/zhenyuan/gitpullreminder/GitPullReminderCheckinHandler.java:87 | Wrapping a running total after every `addAndGet` equals wrapping the mathematical total once. |
| JavaLang.Trim | src/main/java/com/github/zhenyuan/gitpullreminder/GitPullReminderCheckinHandler.java:155 | `String.trim` never lengthens its input, and its result neither starts nor ends with a character `<= ' '`. |
| JavaLang.TrimStartDropsPrefix | src/main/java/com/github/zhenyuan/gitpullreminder/GitPullReminderCheckinHandler.java:155 | The leading half of `trim` removes a prefix made only of characters `<= ' '`. It stops at a character above `' '`. |
| JavaLang.TrimEndDropsSuffix | src/main/java/com/github/zhenyuan/gitpullreminder/GitPullReminderCheckinHandler.java:155 | The trailing half of `trim` removes a suffix made only of characters `<= ' '`. It stops at a character above `' '`. |
| JavaLang.TrimIsInfix | src/main/java/com/github/zhenyuan/gitpullreminder/GitPullReminderCheckinHandler.java:155 | `trim` returns a contiguous slice of its input. The slice has no trimmable character at either end, and only trimmable characters are removed around it. |
| JavaLang.TrimOfPadded | src/main/java/com/github/zhenyuan/gitpullreminder/GitPullReminderCheckinHandler.java:155 | Surrounding a trimmed string with any trimmable padding and then trimming gives that string back. |
| JavaLang.TrimIdempotent | src/main/java/com/github/zhenyuan/gitpullreminder/GitPullReminderCheckinHandler.java:155 | Trimming twice is the same as trimming once. |
| JavaLang.ParseDigits | src/main/java/com/github/zhenyuan/gitpullreminder/GitPullReminderCheckinHandler.java:156 | The digit loop's value for a run of k digits is below 10^k. |
| JavaLang.ParseInt | src/main/java/com/github/zhenyuan/gitpullreminder/GitPullReminderCheckinHandler.java:156 | `Integer.parseInt` either fails or returns a value in the Java int range. |
| JavaLang.ParseIntAccepts | src/main/java/com/github/zhenyuan/gitpullreminder/GitPullReminderCheckinHandler.java:156 | For every string, `parseInt` succeeds if and only if the string is an optional `+` or `-` followed by a non-empty run of ASCII digits whose signed value is a Java int. The result is then that signed value. |
| JavaLang.ParseDigitsLeadingZero | src/main/java/com/github/zhenyuan/gitpullreminder/GitPullReminderCheckinHandler.java:156 | A leading zero does not change the value of a digit run, so `007` reads as 7. |
| JavaLang.ParseDigitsAccepts | src/main/java/com/github/zhenyuan/gitpullreminder/GitPullReminderCheckinHandler.java:156 | The digit loop succeeds if and only if every character is an ASCII decimal digit. |
| JavaLang.ParsedIsTrimmed | src/main/java/com/github/zhenyuan/gitpullreminder/GitPullReminderCheckinHandler.java:155-156 | Any string `parseInt` accepts is non-empty and has no trimmable first or last character. So the `trim()` before it matters only for padding. |
| JavaLang.FormatDecimal | src/main/java/com/github/zhenyuan/gitpullreminder/GitPullReminderCheckinHandler.java:149-156 | A count as `git rev-list --count` prints it: a non-empty run of digits that starts with `0` only for zero. |
| JavaLang.ParseIntOfDecimal | src/main/java/com/github/zhenyuan/gitpullreminder/GitPullReminderCheckinHandler.java:156 | Round trip: parsing a printed count returns that count when it fits in an int. It fails (NumberFormatException) otherwise. |
| JavaLang.ParseIntOfNegated | src/main/java/com/github/zhenyuan/gitpullreminder/GitPullReminderCheckinHandler.java:156 | A leading `-` gives the negated value, down to `Integer.MIN_VALUE`. Parsing fails below that. |
| JavaLang.ParseIntOfPlus | src/main/java/com/github/zhenyuan/gitpullreminder/GitPullReminderCheckinHandler.java:156 | A leading `+` is accepted and does not change the value. |
| JavaLang.TrimParseOfNegated | src/main/java/com/github/zhenyuan/gitpullreminder/GitPullReminderCheckinHandler.java:155-156 | A printed negative number survives trim-then-parse unchanged. |
| CheckinHandler.RevListRange | src/main/java/com/github/zhenyuan/gitpullreminder/GitPullReminderCheckinHandler.java:151 | The rev-list argument splits back into the local branch name, `..` and the tracked branch name. |
| CheckinHandler.CheckBehindCount | src/main/java/com/github/zhenyuan/gitpullreminder/GitPullReminderCheckinHandler.java:137-163 | The count is always an int. A non-zero count requires all of these: a current branch, a tracked branch, a successful rev-list over exactly the range `local..tracked`, and output that trims and parses to that count. |
| CheckinHandler.BehindCountZeroCases | src/main/java/com/github/zhenyuan/gitpullreminder/GitPullReminderCheckinHandler.java:137-163 | The count is 0 in each of these cases: no current branch, no tracked branch, rev-list failed or threw, or the trimmed output does not parse. |
| CheckinHandler.BehindCountOfParsedOutput | src/main/java/com/github/zhenyuan/gitpullreminder/GitPullReminderCheckinHandler.java:148-156 | Once rev-list succeeds, the count is exactly the parsed value of its trimmed output. |
| CheckinHandler.BehindCountOfPrintedCount | src/main/java/com/github/zhenyuan/gitpullreminder/GitPullReminderCheckinHandler.java:149-156 | When rev-list prints a count n with any whitespace padding, the handler reads n. If n exceeds `Integer.MAX_VALUE` it reads 0 instead. |
| CheckinHandler.BehindCountCanBeNegative | src/main/java/com/github/zhenyuan/gitpullreminder/GitPullReminderCheckinHandler.java:84-85 | Output such as `-3` gives a negative count. The `behind > 0` test then keeps that repository out of the prompt. |
| CheckinHandler.IsBehind | src/main/java/com/github/zhenyuan/gitpullreminder/GitPullReminderCheckinHandler.java:76-85 | A repository that is behind, meaning its fetch succeeded and its count is positive, has both a current and a tracked branch. So the null checks at lines 90-94 always pass for it. |
| CheckinHandler.BranchInfo | src/main/java/com/github/zhenyuan/gitpullreminder/GitPullReminderCheckinHandler.java:93 | The branch text splits back into the local branch name, ` <- ` and the tracked branch name. |
| CheckinHandler.LagOf | src/main/java/com/github/zhenyuan/gitpullreminder/GitPullReminderCheckinHandler.java:76-95 | A repository adds a count and a branch text if and only if its fetch succeeded and its count is positive. The count it adds is positive and the text is non-empty. |
| CheckinHandler.Lags | src/main/java/com/github/zhenyuan/gitpullreminder/GitPullReminderCheckinHandler.java:68-97 | There is one lag per repository, in iteration order. |
| CheckinHandler.LagsAt | src/main/java/com/github/zhenyuan/gitpullreminder/GitPullReminderCheckinHandler.java:68-97 | Entry k of the lags is the lag of repository k. |
| CheckinHandler.LagsAppend | src/main/java/com/github/zhenyuan/gitpullreminder/GitPullReminderCheckinHandler.java:68-97 | The lags of two concatenated repository lists are the two lists of lags concatenated. |
| CheckinHandler.LagsWellFormed | src/main/java/com/github/zhenyuan/gitpullreminder/GitPullReminderCheckinHandler.java:76-95 | Every recorded contribution is positive with a non-empty branch text. There is some contribution if and only if some repository is behind. |
| CheckinHandler.TotalCountPositive | src/main/java/com/github/zhenyuan/gitpullreminder/GitPullReminderCheckinHandler.java:85-87 | A sum of positive contributions is never negative. It is positive if and only if there is at least one contribution. |
| CheckinHandler.LastInfoIsLast | src/main/java/com/github/zhenyuan/gitpullreminder/GitPullReminderCheckinHandler.java:89-95 | The branch text kept is that of the last contribution: no later entry contributes. |
| CheckinHandler.LastInfoOfNone | src/main/java/com/github/zhenyuan/gitpullreminder/GitPullReminderCheckinHandler.java:60 | With no contribution, the branch text keeps its initial value `""`. |
| CheckinHandler.NoLagIgnored | src/main/java/com/github/zhenyuan/gitpullreminder/GitPullReminderCheckinHandler.java:76-80 | An entry without a contribution, wherever it stands, changes neither the total nor the branch text. |
| CheckinHandler.BehindSumPositive | src/main/java/com/github/zhenyuan/gitpullreminder/GitPullReminderCheckinHandler.java:84-87 | The true total of behind counts is never negative. It is positive if and only if some repository is behind. |
| CheckinHandler.PromptCountIsSum | src/main/java/com/github/zhenyuan/gitpullreminder/GitPullReminderCheckinHandler.java:87 | While the true total fits in an int, the prompt shows it exactly. When some repository is behind, the count shown is then positive. |
| CheckinHandler.LastBranchInfoIsLast | src/main/java/com/github/zhenyuan/gitpullreminder/GitPullReminderCheckinHandler.java:89-95 | The prompt's branch text is `local <- tracked` of the last repository that is behind. |
| CheckinHandler.LastBranchInfoEmpty | src/main/java/com/github/zhenyuan/gitpullreminder/GitPullReminderCheckinHandler.java:60 | The branch text is `""` if and only if no repository is behind. |
| CheckinHandler.SkippedRepositoryIgnored | src/main/java/com/github/zhenyuan/gitpullreminder/GitPullReminderCheckinHandler.java:76-80 | A repository that is not behind affects neither the total nor the branch text, wherever it stands. This covers a failed fetch and a count that is zero or negative. |
| CheckinHandler.FirstTrue | src/main/java/com/github/zhenyuan/gitpullreminder/GitPullReminderCheckinHandler.java:68-72 | The position of the first cancellation: no earlier repository saw one. The end of the sequence means there was no cancellation. |
| CheckinHandler.FirstTrueAt | src/main/java/com/github/zhenyuan/gitpullreminder/GitPullReminderCheckinHandler.java:68-72 | When repository i sees cancellation and none before it did, the first cancellation is at i. |
| CheckinHandler.FirstTrueNone | src/main/java/com/github/zhenyuan/gitpullreminder/GitPullReminderCheckinHandler.java:68-72 | When no repository sees cancellation, the first cancellation is the end of the list. |
| CheckinHandler.VisitRepository | src/main/java/com/github/zhenyuan/gitpullreminder/GitPullReminderCheckinHandler.java:74-96 | The loop body adds exactly the repository's lag to the three accumulators. A failed fetch or a count that is not positive adds nothing. Otherwise the flag is raised, the wrapped total becomes the wrapped value of the true sum plus the count, and the branch text becomes that repository's. |
| CheckinHandler.ScanRepositories | src/main/java/com/github/zhenyuan/gitpullreminder/GitPullReminderCheckinHandler.java:62-99 | If cancellation comes before the end, the fetch task stops at the first cancellation. Otherwise it finishes with three values: "some repository is behind", the int-wrapped sum of positive counts, and the branch text of the last repository behind. |
| CheckinHandler.Decide | src/main/java/com/github/zhenyuan/gitpullreminder/GitPullReminderCheckinHandler.java:189-196 | YES, and only YES, pulls. NO, and only NO, commits. Every other answer cancels. |
| CheckinHandler.ErrorText | src/main/java/com/github/zhenyuan/gitpullreminder/GitPullReminderCheckinHandler.java:222-245 | The text the error dialog cites is the payload of the failed pull: its error output, or the exception's message. |
| CheckinHandler.ExecutePullAndCommit | src/main/java/com/github/zhenyuan/gitpullreminder/GitPullReminderCheckinHandler.java:202-257 | Pulls run in order over a prefix that all succeeded, and stop at the first cancellation, failure or exception. Earlier pulls are not undone. An error is reported exactly when a failure or exception stopped the loop. The result is COMMIT if and only if every repository was pulled. |
| CheckinHandler.ShowPullConfirmDialog | src/main/java/com/github/zhenyuan/gitpullreminder/GitPullReminderCheckinHandler.java:168-197 | YES gives the fail-fast pull outcome. Any other answer pulls nothing, and it commits if and only if the answer is NO. |
| CheckinHandler.BeforeCheckin | src/main/java/com/github/zhenyuan/gitpullreminder/GitPullReminderCheckinHandler.java:45-110 | The outcome of each case: (1) no project or no repository commits at once; (2) cancellation while fetching cancels, with nothing shown or pulled; (3) no repository behind commits with no dialog; (4) otherwise one prompt shows the wrapped total and the last branch text, and the answer decides as in `showPullConfirmDialog`. |

## Left out

- The IntelliJ platform is outside the model: progress indicators and their texts, modal tasks, threads and `invokeLater`. So are the wording of the dialogs (the Chinese message text), logging and the success message shown after pulling.
- The `Atomic*` holders only carry values out of the task closures, so they are plain local variables here.
- `GitPullReminderCheckinHandlerFactory.java` and `build.gradle.kts` are not part of this model.
- `fetchRemote` is only a boolean per repository. The branches a `Repository` holds are those seen after the fetch's `repository.update()`.
- In the pull loop, an exception from `repository.update()` after a successful pull is indistinguishable from an exception thrown by the pull. Both are a `Threw` outcome for that repository.
- The values 0 and 1 of `Messages.YES` and `Messages.NO` come from IntelliJ's `Messages` class, which is not part of this model.
- Git commands have no timeouts here, and a command's output is taken as a single joined string.
- JavaLang.ParseInt: accepts only the ASCII digits `0`-`9`. Java's `Character.digit` also accepts other Unicode decimal digits, such as Arabic-Indic ones.
- Java strings are UTF-16 code-unit sequences; here a string is a sequence of Dafny `char`, and `trim` compares each with `' '`.
- `ReturnResult.CLOSE_WINDOW` is never produced by this handler and is not modelled.
