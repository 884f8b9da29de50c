/** `main` (e2b_nvim_test.py:101-350): collect the local configuration,
    create a sandbox, run the setup commands, upload the files, verify them,
    launch the headless plugin restore and supervise it, run the report
    commands, and in every case once the sandbox exists ask whether to kill
    it. */
module Orchestrator {
  import opened Text
  import opened Config
  import opened Collector
  import opened Runner
  import opened Poller

  /** The remote sandbox as far as the script changes it: the files written
      into it, in order, and whether it is still running; `prompts` counts
      how often the operator has been asked whether to kill it. */
  class Sandbox {
    var written: seq<Entry>
    var running: bool
    var prompts: nat
    const timeout: nat

    /** `Sandbox.create(timeout=...)` when it succeeds. */
    constructor (timeout: nat)
      ensures this.timeout == timeout && written == [] && running && prompts == 0
    {
      this.timeout := timeout;
      written := [];
      running := true;
      prompts := 0;
    }

    /** `sbx.files.write(path, data)` when it succeeds. */
    method Write(e: Entry)
      modifies this
      ensures written == old(written) + [e] && running == old(running) && prompts == old(prompts)
    {
      written := written + [e];
    }

    /** `sbx.kill()` when it succeeds. */
    method Kill()
      modifies this
      ensures !running && written == old(written) && prompts == old(prompts)
    {
      running := false;
    }
  }

  // ---------------------------------------------------------------- upload

  /** The index of the first write at or after `i` that raises, or `n` when
      none of the writes `i..n-1` does. */
  function StopAt(writeError: nat -> Option<string>, n: nat, i: nat): (s: nat)
    requires i <= n
    ensures i <= s <= n
    decreases n - i
  {
    if i == n || writeError(i).Some? then i else StopAt(writeError, n, i + 1)
  }

  /** How many of `n` uploads succeed before one raises. */
  function Stop(writeError: nat -> Option<string>, n: nat): nat {
    StopAt(writeError, n, 0)
  }

  /** The exception the upload loop lets escape, if any. */
  function UploadError(writeError: nat -> Option<string>, n: nat): Option<string> {
    var s := Stop(writeError, n);
    if s < n then writeError(s) else None
  }

  lemma {:induction false} StopAtFirst(writeError: nat -> Option<string>, n: nat, i: nat)
    requires i <= n
    ensures var s := StopAt(writeError, n, i);
            && i <= s <= n
            && (forall j :: i <= j < s ==> writeError(j).None?)
            && (s < n ==> writeError(s).Some?)
    decreases n - i
  {
    if i < n && writeError(i).None? {
      StopAtFirst(writeError, n, i + 1);
    }
  }

  /** The upload stops at the first write that raises: every write before it
      succeeded, and the upload fails exactly when some write raises. */
  lemma StopFirst(writeError: nat -> Option<string>, n: nat)
    ensures var s := Stop(writeError, n);
            && s <= n
            && (forall j :: 0 <= j < s ==> writeError(j).None?)
            && (s < n ==> writeError(s).Some?)
            && (UploadError(writeError, n).None? <==> forall j :: 0 <= j < n ==> writeError(j).None?)
  {
    StopAtFirst(writeError, n, 0);
  }

  /** The counts printed by the progress lines of an upload of `total`
      files after `done` of them were written. */
  function Reported(total: nat, done: nat): seq<nat> {
    if done == 0 then []
    else Reported(total, done - 1) + (if done % 20 == 0 || done == total then [done] else [])
  }

  /** A count is printed exactly when it is a multiple of 20 or the total. */
  lemma {:induction false} ReportedExactly(total: nat, done: nat)
    ensures forall c :: c in Reported(total, done) <==> 1 <= c <= done && (c % 20 == 0 || c == total)
  {
    if done > 0 {
      ReportedExactly(total, done - 1);
    }
  }

  /** Progress counts are printed in increasing order, each once. */
  lemma {:induction false} ReportedIncreasing(total: nat, done: nat)
    ensures forall i, j :: 0 <= i < j < |Reported(total, done)| ==> Reported(total, done)[i] < Reported(total, done)[j]
  {
    if done > 0 {
      ReportedIncreasing(total, done - 1);
      ReportedExactly(total, done - 1);
      var p := Reported(total, done - 1);
      var r := Reported(total, done);
      forall i, j | 0 <= i < j < |r|
        ensures r[i] < r[j]
      {
        assert r[i] == p[i] && p[i] in p;
        if j < |p| {
          assert r[j] == p[j] && p[i] < p[j];
        } else {
          assert r == p + [done] && p[i] <= done - 1;
        }
      }
    }
  }

  lemma {:induction false} ReportedBelow(total: nat, done: nat)
    requires done < total
    ensures |Reported(total, done)| == done / 20
  {
    if done > 0 {
      ReportedBelow(total, done - 1);
    }
  }

  /** A complete upload of `total` files prints one line per 20 files, and
      one more for a last partial batch; the last line reports the total. */
  lemma ReportedCount(total: nat)
    ensures |Reported(total, total)| == (total + 19) / 20
    ensures total > 0 ==> Reported(total, total)[|Reported(total, total)| - 1] == total
  {
    if total > 0 {
      ReportedBelow(total, total - 1);
    }
  }

  /** The upload loop: each file is written once, in order, until a write
      raises; a progress line follows every 20th write and the last one. */
  method Upload(sbx: Sandbox, files: seq<Entry>, writeError: nat -> Option<string>)
    returns (err: Option<string>, reported: seq<nat>)
    modifies sbx
    ensures var s := Stop(writeError, |files|);
            && sbx.written == old(sbx.written) + files[..s]
            && sbx.running == old(sbx.running)
            && sbx.prompts == old(sbx.prompts)
            && err == UploadError(writeError, |files|)
            && reported == Reported(|files|, s)
  {
    reported := [];
    var i := 0;
    while i < |files|
      invariant i <= |files|
      invariant Stop(writeError, |files|) == StopAt(writeError, |files|, i)
      invariant sbx.written == old(sbx.written) + files[..i]
      invariant sbx.running == old(sbx.running)
      invariant sbx.prompts == old(sbx.prompts)
      invariant reported == Reported(|files|, i)
    {
      if writeError(i).Some? {
        err := writeError(i);
        return;
      }
      sbx.Write(files[i]);
      assert files[..i + 1] == files[..i] + [files[i]];
      if (i + 1) % 20 == 0 || i + 1 == |files| {
        reported := reported + [i + 1];
      }
      i := i + 1;
    }
    assert files[..i] == files;
    err := None;
  }

  // ---------------------------------------------------------------- phases

  /** The error of the first of `count` calls from call `from` on that
      raises something other than `CommandExitException`, which stops the
      phase; `run_cmd` is always called with `allow_fail` left true, so a
      non-zero exit never does. */
  function PhaseError(results: nat -> SdkResult, from: nat, count: nat): Option<string>
    decreases count
  {
    if count == 0 then None
    else if results(from).SdkError? then Some(results(from).text)
    else PhaseError(results, from + 1, count - 1)
  }

  /** A phase fails exactly when one of its calls raises an SDK error, and
      then with the text of the first such call. */
  lemma {:induction false} PhaseErrorFirst(results: nat -> SdkResult, from: nat, count: nat)
    ensures PhaseError(results, from, count).None?
            <==> forall i :: from <= i < from + count ==> !results(i).SdkError?
    ensures PhaseError(results, from, count).Some? ==>
              exists i :: from <= i < from + count
                && results(i) == SdkError(PhaseError(results, from, count).value)
                && forall j :: from <= j < i ==> !results(j).SdkError?
    decreases count
  {
    if count > 0 && !results(from).SdkError? {
      PhaseErrorFirst(results, from + 1, count - 1);
    }
  }

  /** `run_cmd(sbx, cmd, label)` as `main` calls it, with `allow_fail`
      left true: the only exception that escapes is an SDK error other than
      a non-zero exit. */
  method RunAllowingFailure(result: SdkResult) returns (err: Option<string>)
    ensures err == if result.SdkError? then Some(result.text) else None
  {
    var outcome, _ := RunCmd(result, true);
    err := if outcome.Raised? then Some(outcome.error) else None;
  }

  /** A run of consecutive `run_cmd` calls with `allow_fail` true. */
  method RunPhase(results: nat -> SdkResult, from: nat, count: nat) returns (err: Option<string>)
    ensures err == PhaseError(results, from, count)
  {
    var i := 0;
    while i < count
      invariant i <= count
      invariant PhaseError(results, from, count) == PhaseError(results, from + i, count - i)
    {
      err := RunAllowingFailure(results(from + i));
      if err.Some? {
        return;
      }
      assert PhaseError(results, from + i, count - i) == PhaseError(results, from + i + 1, count - i - 1);
      i := i + 1;
    }
    err := None;
  }

  // -------------------------------------------------------------- teardown

  /** What `input(...)` does: returns a line, or raises `EOFError` or
      `KeyboardInterrupt`. */
  datatype Answer = Typed(line: string) | Eof | Interrupted

  datatype Decision = KillSandbox | LeaveRunning

  /** `input(...).strip().lower() == "y"`; end of input and an interrupt
      leave the sandbox running. */
  function Decide(a: Answer): Decision {
    if a.Typed? && Lower(Strip(a.line)) == "y" then KillSandbox else LeaveRunning
  }

  /** The sandbox is killed exactly when the answer, without surrounding
      whitespace, is `y` or `Y`. */
  lemma DecideKill(a: Answer)
    ensures Decide(a) == KillSandbox <==> a.Typed? && (Strip(a.line) == "y" || Strip(a.line) == "Y")
  {
    if a.Typed? {
      var s := Strip(a.line);
      if Lower(s) == "y" {
        assert |s| == 1 && Lower(s)[0] == LowerChar(s[0]) == 'y';
        assert s == [s[0]];
      }
    }
  }

  /** The `finally` block: ask once, then kill or leave the sandbox. An error
      from `kill()` is not caught and escapes. */
  method Teardown(sbx: Sandbox, answer: Answer, killError: Option<string>)
    returns (decision: Decision, err: Option<string>)
    modifies sbx
    ensures decision == Decide(answer)
    ensures err == (if decision == KillSandbox then killError else None)
    ensures sbx.written == old(sbx.written)
    ensures sbx.running == (old(sbx.running) && !(decision == KillSandbox && killError.None?))
    ensures sbx.prompts == old(sbx.prompts) + 1
  {
    sbx.prompts := sbx.prompts + 1;
    decision := Decide(answer);
    err := None;
    if decision == KillSandbox {
      if killError.Some? {
        err := killError;
        return;
      }
      sbx.Kill();
    }
  }

  // ------------------------------------------------------------------ main

  /** Everything outside the script that `main` depends on. `results(i)` is
      what the i-th `run_cmd` call of the body gets from the SDK: calls 0-6
      set the sandbox up, 7-8 verify the upload, 9-18 report. */
  datatype Env = Env(
    config: Node,
    createError: Option<string>,
    results: nat -> SdkResult,
    writeError: nat -> Option<string>,
    launchError: Option<string>,
    ticks: nat -> Tick,
    answer: Answer,
    killError: Option<string>)

  /** How `main` ends: normally, or with the exception it lets escape. */
  datatype Exit = Clean | Aborted(error: string)

  const SetupCalls: nat := 7
  const VerifyCalls: nat := 2
  const ReportCalls: nat := 10

  /** The setup phase, the upload, the verify phase and the background
      launch all succeed, so that the poll loop runs. */
  predicate Launched(env: Env, n: nat) {
    && PhaseError(env.results, 0, SetupCalls).None?
    && UploadError(env.writeError, n).None?
    && PhaseError(env.results, SetupCalls, VerifyCalls).None?
    && env.launchError.None?
  }

  /** The exception the `try` body raises, if any: the first failing step. */
  function BodyError(env: Env, n: nat): Option<string> {
    var setup := PhaseError(env.results, 0, SetupCalls);
    var upload := UploadError(env.writeError, n);
    var verify := PhaseError(env.results, SetupCalls, VerifyCalls);
    if setup.Some? then setup
    else if upload.Some? then upload
    else if verify.Some? then verify
    else if env.launchError.Some? then env.launchError
    else PhaseError(env.results, SetupCalls + VerifyCalls, ReportCalls)
  }

  /** The files that reach the sandbox. */
  function Uploaded(env: Env, files: seq<Entry>): seq<Entry> {
    if PhaseError(env.results, 0, SetupCalls).Some? then []
    else
      var s := StopAt(env.writeError, |files|, 0);
      files[..s]
  }

  /** The body succeeds exactly when no SDK call raises: a non-zero exit
      and a poll that times out are reported, not fatal. */
  lemma BodyErrorCauses(env: Env, n: nat)
    ensures BodyError(env, n).None?
            <==> && (forall i :: 0 <= i < SetupCalls + VerifyCalls + ReportCalls ==> !env.results(i).SdkError?)
                 && (forall j :: 0 <= j < n ==> env.writeError(j).None?)
                 && env.launchError.None?
  {
    PhaseErrorFirst(env.results, 0, SetupCalls);
    PhaseErrorFirst(env.results, SetupCalls, VerifyCalls);
    PhaseErrorFirst(env.results, SetupCalls + VerifyCalls, ReportCalls);
    StopFirst(env.writeError, n);
  }

  /** Only a prefix of the collected files is ever written, and all of them
      when the body succeeds. */
  lemma UploadedPrefix(env: Env, files: seq<Entry>)
    ensures var u := Uploaded(env, files);
            && |u| <= |files| && u == files[..|u|]
            && (BodyError(env, |files|).None? ==> u == files)
  {
    StopFirst(env.writeError, |files|);
  }

  /** How `main` ends once the sandbox exists: an error from `kill()` in the
      `finally` replaces the body's; otherwise the body's error is re-raised. */
  function ExitOf(bodyError: Option<string>, decision: Decision, killError: Option<string>): Exit {
    if decision == KillSandbox && killError.Some? then Aborted(killError.value)
    else if bodyError.Some? then Aborted(bodyError.value)
    else Clean
  }

  /** The `try` body from the locale setup to the last report. */
  method Body(sbx: Sandbox, env: Env, files: seq<Entry>) returns (err: Option<string>, poll: Option<PollOutcome>)
    modifies sbx
    ensures err == BodyError(env, |files|)
    ensures sbx.written == old(sbx.written) + Uploaded(env, files)
    ensures sbx.running == old(sbx.running)
    ensures sbx.prompts == old(sbx.prompts)
    ensures poll == if Launched(env, |files|) then Some(PollSpec(MaxWait, env.ticks).outcome) else None
  {
    poll := None;
    err := RunPhase(env.results, 0, SetupCalls);
    if err.Some? {
      return;
    }
    var reported;
    err, reported := Upload(sbx, files, env.writeError);
    if err.Some? {
      return;
    }
    err := RunPhase(env.results, SetupCalls, VerifyCalls);
    if err.Some? {
      return;
    }
    if env.launchError.Some? {
      err := env.launchError;
      return;
    }
    var outcome, progress := Poll(MaxWait, env.ticks);
    poll := Some(outcome);
    err := RunPhase(env.results, SetupCalls + VerifyCalls, ReportCalls);
  }

  /** `main`: the teardown prompt is shown exactly once when the sandbox was
      created and never otherwise; the sandbox is left running unless it was
      killed on request; the exit is the kill error, else the body's error. */
  method Run(env: Env) returns (exit: Exit, uploaded: seq<Entry>, prompts: nat, running: bool, poll: Option<PollOutcome>)
    ensures var files := Entries(Collected(env.config));
            && prompts == (if env.createError.None? then 1 else 0)
            && (env.createError.Some? ==>
                  exit == Aborted(env.createError.value) && uploaded == [] && !running && poll == None)
            && (env.createError.None? ==>
                  && exit == ExitOf(BodyError(env, |files|), Decide(env.answer), env.killError)
                  && uploaded == Uploaded(env, files)
                  && running == !(Decide(env.answer) == KillSandbox && env.killError.None?)
                  && poll == if Launched(env, |files|) then Some(PollSpec(MaxWait, env.ticks).outcome) else None)
  {
    var files, skipped := CollectFiles(env.config);
    if env.createError.Some? {
      exit, uploaded, prompts, running, poll := Aborted(env.createError.value), [], 0, false, None;
      return;
    }
    var sbx := new Sandbox(SandboxTimeout);
    var bodyError;
    bodyError, poll := Body(sbx, env, files);
    var decision, killError := Teardown(sbx, env.answer, env.killError);
    exit := ExitOf(bodyError, decision, killError);
    uploaded, running, prompts := sbx.written, sbx.running, sbx.prompts;
  }
}
