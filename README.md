# E2B Neovim config troubleshooter: a Dafny model

`e2b_nvim_test.py` mirrors a local Neovim configuration into a fresh E2B
cloud sandbox. It installs Neovim there, starts a headless plugin restore in
the background and waits for it to finish. It then runs a series of
diagnostic commands. Finally it asks the operator whether to kill the
sandbox. This project models the script's own logic, with everything the
SDK, the file system, the clock and the terminal supply given as inputs.
It proves what that logic promises:

- **Collecting files** (`collect_files`), in `collector.dfy`. A directory
  tree datatype stands in for `os.walk`. The method keeps an explicit stack of
  directories and is proved equal to a recursive top-down walk.
  - Pruned directories and skipped names never show up in the result.
  - Each readable file is uploaded under `NVIM_CONFIG_REMOTE/relpath` with all
    of its bytes.
  - Each unreadable file gets a warning instead, and the walk goes on.
- **Running one command** (`run_cmd`), in `runner.dfy`:
  - the combined output is returned untruncated;
  - a non-zero exit is either returned or re-raised, as `allow_fail` says;
  - long output is elided for display: the first 40 and last 40 lines are
    kept, and the marker counts exactly the hidden lines.
- **Waiting for the sentinel** (the poll loop of `main`), in `poller.dfy`.
  The `while ... else` loop is proved equal to a recursive specification:
  - completion is reported only after a check that printed `DONE`;
  - a timeout is reported only at or past the deadline;
  - errors from either probe command never end the loop.
- **Uploading, the phase sequence and the teardown** of `main`, in
  `orchestrator.dfy`:
  - a `Sandbox` class records the files written into it and whether it is
    still running;
  - the upload writes each file once, in order, and prints a progress line
    every 20 files and after the last one;
  - the `finally` block asks exactly once when the sandbox exists, and kills
    it only on `y`/`Y`;
  - the exception `main` ends with is a `kill()` error if there is one, else
    the body's error.
- **Helpers**: `text.dfy` holds the Python string operations the script relies
  on (`strip`, `split`, `join`, `lower`, `in`, `str(int)`). `config.dfy` holds
  the constants.

## Model

| member | source | states |
|---|---|---|
| `Text.StripSpec` | e2b_nvim_test.py:81-83 | `strip()` keeps exactly the part between leading and trailing whitespace; it is empty exactly when the text is blank, and otherwise starts and ends with a non-space |
| `Text.TrimStartSpec` | e2b_nvim_test.py:81 | leading-whitespace removal drops only whitespace and stops at the first non-space |
| `Text.TrimEndSpec` | e2b_nvim_test.py:81 | trailing-whitespace removal drops only whitespace and stops at the last non-space |
| `Text.JoinSplit` | e2b_nvim_test.py:83-89 | joining the pieces of `split(sep)` with `sep` restores the text |
| `Text.SplitJoin` | e2b_nvim_test.py:44-45 | splitting a join of separator-free components gives the components back |
| `Text.ContainsAt` | e2b_nvim_test.py:204 | `sub in s` holds exactly when `sub` occurs at some position of `s` |
| `Text.ParseNatToString` | e2b_nvim_test.py:86 | the decimal rendering of a count reads back as that count |
| `Collector.ReadFiles` | e2b_nvim_test.py:38-52 | the loop over one directory's files gives exactly the entries and warnings of its non-excluded files, in listing order |
| `Collector.CollectFiles` | e2b_nvim_test.py:31-54 | the returned list and the warnings are exactly those of the top-down walk with pruning, in walk order |
| `Collector.WalkSound` | e2b_nvim_test.py:34-40 | every file the walk visits is in the tree at its relative path, and no component of that path is an excluded name |
| `Collector.WalkComplete` | e2b_nvim_test.py:34-40 | every file in the tree whose path has no excluded component is visited |
| `Collector.CollectedExactly` | e2b_nvim_test.py:34-40 | a file is read if and only if it is in the tree and no component of its relative path is in `SKIP_PATTERNS` |
| `Collector.CollectedEntry` | e2b_nvim_test.py:42-50 | an entry is returned if and only if it is a readable admitted file, with its full contents, under `NVIM_CONFIG_REMOTE + "/" + relpath` |
| `Collector.CollectedSkip` | e2b_nvim_test.py:47-52 | a warning names a relative path if and only if it is an unreadable admitted file, with that file's error |
| `Collector.NothingLost` | e2b_nvim_test.py:47-53 | every visited file ends in exactly one of the list and the warnings, so an unreadable file never stops collection |
| `Collector.EntryPathComponents` | e2b_nvim_test.py:36-45 | every returned path starts with `NVIM_CONFIG_REMOTE/`, and no `/`-separated component after it is an excluded name |
| `Runner.RunCmd` | e2b_nvim_test.py:57-98 | a finished command returns stdout followed by stderr, untruncated, and shows the display lines and the exit-code line. A non-zero exit shows its text and returns it when `allow_fail`, or re-raises it otherwise. Any other SDK error escapes, and only these cases raise |
| `Runner.DisplayBlank` | e2b_nvim_test.py:81-91 | `(no output)` is printed if and only if the combined output is blank |
| `Runner.DisplayWhole` | e2b_nvim_test.py:81-89 | output of at most 80 lines is printed whole: the shown lines joined are the stripped output |
| `Runner.DisplayElided` | e2b_nvim_test.py:83-87 | over 80 lines, exactly 83 lines are shown: the first 40, a marker between blank lines, and the last 40. The lines are the shown head, then the hidden lines, then the shown tail, and the marker is built from the number of hidden lines |
| `Runner.MarkerCount` | e2b_nvim_test.py:86 | the marker line is the fixed prefix, the decimal count and the fixed suffix, and its digits parse back to the count |
| `Poller.Poll` | e2b_nvim_test.py:199-222 | the loop, with its `break` and `else`, yields exactly the recursive specification's outcome and progress lines |
| `Poller.StartOfMonotone` | e2b_nvim_test.py:201 | the clock never goes back from one tick to a later one |
| `Poller.LinesOfIndex` | e2b_nvim_test.py:209-220 | the progress lines of ticks `k..n-1` are one per tick, in tick order |
| `Poller.PollStops` | e2b_nvim_test.py:199-222 | each run passes some ticks that started before the deadline, none of which saw `DONE`, and prints one progress line for each. It then stops at the deadline test or on the sentinel |
| `Poller.PollCompleted` | e2b_nvim_test.py:201-206 | a reported completion comes from the first check that printed `DONE`; that check started before the deadline, and the time reported is when it returned |
| `Poller.PollTimedOut` | e2b_nvim_test.py:201-222 | a timeout is reported only with elapsed time at or past `max_wait`, after checks that all started before it and none of which printed `DONE`; it is the end of the last tick that ran, so below `max_wait` plus that tick's cost |
| `Poller.PollCompletes` | e2b_nvim_test.py:201-208 | the loop completes if and only if some check started before the deadline prints `DONE`; failing checks never end it |
| `Poller.PollProgress` | e2b_nvim_test.py:209-220 | one progress line follows each check without `DONE`, in order, stamped with the time after the sleep, with the stripped count (`"0"` for empty output), or no count when the query raised |
| `Poller.FailuresIgnored` | e2b_nvim_test.py:202-220 | the outcome and the progress times depend only on whether each check saw `DONE` and on how long the commands took, not on what else they printed or raised |
| `Orchestrator.Sandbox.constructor` | e2b_nvim_test.py:113 | a new sandbox is running, has the requested timeout, holds no uploaded files and has not yet prompted |
| `Orchestrator.Sandbox.Write` | e2b_nvim_test.py:169 | a write appends exactly that file to the sandbox's files |
| `Orchestrator.Sandbox.Kill` | e2b_nvim_test.py:345 | killing stops the sandbox and leaves its files as they were |
| `Orchestrator.StopAtFirst` | e2b_nvim_test.py:168-169 | the scan for the failing write stops at the first write that raises, or at the end |
| `Orchestrator.StopFirst` | e2b_nvim_test.py:168-169 | the upload stops at the first write that raises, with every earlier write done; it fails if and only if some write raises |
| `Orchestrator.Upload` | e2b_nvim_test.py:168-171 | each file is written once, in order, up to the first failing write, whose error escapes; the counts printed are `Reported` of the writes done |
| `Orchestrator.ReportedExactly` | e2b_nvim_test.py:170-171 | a count is printed if and only if it is a multiple of 20 or the total, and at most the number written |
| `Orchestrator.ReportedIncreasing` | e2b_nvim_test.py:168-171 | the printed counts strictly increase, so each is printed once |
| `Orchestrator.ReportedBelow` | e2b_nvim_test.py:170 | before the last file, one line is printed per 20 files |
| `Orchestrator.ReportedCount` | e2b_nvim_test.py:170-171 | a full upload prints ⌈n/20⌉ progress lines, the last one reporting the total |
| `Orchestrator.PhaseErrorFirst` | e2b_nvim_test.py:66-73 | with `allow_fail` left true, a run of commands fails if and only if one raises a non-exit SDK error, and then with the first such error |
| `Orchestrator.RunAllowingFailure` | e2b_nvim_test.py:66-73 | a `run_cmd` call as `main` makes it, raises exactly on a non-exit SDK error, with that error's text; a non-zero exit is swallowed |
| `Orchestrator.RunPhase` | e2b_nvim_test.py:118-162 | consecutive `run_cmd` calls stop at, and raise, exactly the phase's first SDK error |
| `Orchestrator.DecideKill` | e2b_nvim_test.py:343-350 | the sandbox is killed if and only if a line was typed whose stripped text is `y` or `Y`; end of input and an interrupt leave it running |
| `Orchestrator.Teardown` | e2b_nvim_test.py:340-350 | the operator is asked exactly once and the decision follows the answer. On a kill the sandbox stops, unless `kill()` raises, and then that error escapes. Otherwise nothing changes |
| `Orchestrator.BodyErrorCauses` | e2b_nvim_test.py:116-339 | the body succeeds if and only if no SDK call, no upload write and no background launch raises; a non-zero exit or a poll timeout is never fatal |
| `Orchestrator.UploadedPrefix` | e2b_nvim_test.py:164-171 | only a prefix of the collected files reaches the sandbox, and all of them when the body succeeds |
| `Orchestrator.Body` | e2b_nvim_test.py:116-327 | the steps run in order up to the first error, which is the body's error. The sandbox receives exactly the uploaded prefix, and the poll runs only once everything before it succeeded |
| `Orchestrator.Run` | e2b_nvim_test.py:101-350 | if creation fails, `main` raises that error with no prompt. Otherwise the operator is prompted exactly once, by the one teardown, and `main` ends with the kill error, else the body's error, else cleanly. The sandbox is left running unless it was killed on request |

## Left out

- The SDK, the file system, the terminal and the clock are inputs:
  - `Env` supplies each command's result, each write's error, the launch and
    creation errors, the poll ticks, the typed answer and the kill error;
  - the tree given to `CollectFiles` supplies the local directory.
  - The commands' own texts, labels, per-call timeouts and the remote
    effects of the commands are not modelled.
- Banners, phase headers, the summary and the teardown messages are not
  modelled. Only `run_cmd`'s output lines, the poll's progress lines and the
  upload's progress counts are.
- The upload's elapsed time (lines 166, 173-174) and its float formatting
  are not modelled. The poll clock is whole seconds given by each tick's
  command durations and the 10-second sleep; `:.0f` and `int()` rounding of
  real time are not modelled.
- `os.walk` details beyond the listing are not modelled. Symbolic links are
  not distinguished (`followlinks` is off, so a link to a directory is listed
  but not entered). A directory that cannot be listed is a `Locked` node that
  yields nothing, and the order of a listing is the given child order.
- `Text.Lower`: lower-cases only ASCII letters. Only `Y` and `y` lower-case
  to `y`, so the kill decision is not affected.
- `Orchestrator.Teardown`: when `kill()` raises, the sandbox is recorded as
  still running; whether the remote kill took effect is not modelled.
- A `KeyboardInterrupt` raised inside the body is not distinguished from an
  `Exception`. Both run the `finally` block and end `main` with an error; the
  `except` clause only adds a message.
- The background Neovim job runs concurrently with the poll. Its progress is
  seen only through what the checks print, which the ticks supply.
- The sandbox's automatic expiry after `SANDBOX_TIMEOUT` seconds is not
  modelled; the timeout is only recorded.
- Behaviour of the code worth stating explicitly:
  - A completion reports the time when the successful check returned,
    which can be past `max_wait`.
  - A timeout carries the actual elapsed time (at least `max_wait`), while
    the message prints `max_wait`. That time is the end of the last tick that
    ran, so it is below `max_wait` plus that tick's cost (both commands and
    the sleep), not below `max_wait + interval` (`Poller.PollTimedOut`).
  - The elision marker's count `len(lines) - 80` is exactly the number of
    hidden lines, so it does not misreport (`Runner.DisplayElided`).
