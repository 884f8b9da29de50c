/** The sentinel poll loop of `main` (e2b_nvim_test.py:198-222): after the
    headless plugin restore is launched in the background, check every tick
    whether it has written its sentinel file, stop as soon as a check prints
    `DONE`, and otherwise sleep, then report progress, until `max_wait`
    seconds have gone by. Errors from either command never end the loop. */
module Poller {
  import opened Text

  /** `max_wait`, in seconds. */
  const MaxWait: int := 540

  /** The `time.sleep` between a check and the progress query, in seconds. */
  const Interval: nat := 10

  /** One short command of the loop: its stdout, or the exception it raised. */
  datatype Probe = Answered(stdout: string) | Failed(error: string)

  /** What one tick of the loop observes: the sentinel check and how many
      seconds it took, then the progress query and how many seconds it took.
      The clock is modelled as whole seconds that only ever advance. */
  datatype Tick = Tick(check: Probe, checkSecs: nat, progress: Probe, progressSecs: nat)

  datatype PollOutcome = Completed(elapsed: int) | TimedOut(elapsed: int)

  /** One progress line: seconds elapsed after the sleep, and the stripped
      plugin count when the progress query answered. */
  datatype Progress = Progress(elapsed: int, cloned: Option<string>)

  datatype PollRun = PollRun(outcome: PollOutcome, progress: seq<Progress>)

  /** `"DONE" in (check.stdout or "")`; a check that raised never counts. */
  predicate SentinelSeen(p: Probe) {
    p.Answered? && Contains(p.stdout, "DONE")
  }

  /** The progress line printed after the sleep at `elapsed` seconds:
      `(progress.stdout or "0").strip()`, or no count when the query raised. */
  function ProgressLine(elapsed: int, p: Probe): Progress {
    match p
    case Answered(out) => Progress(elapsed, Some(Strip(if out == "" then "0" else out)))
    case Failed(_) => Progress(elapsed, None)
  }

  function TickCost(t: Tick): nat {
    t.checkSecs + Interval + t.progressSecs
  }

  /** The clock reading, relative to the start, when tick `k` begins. */
  function StartOf(ticks: nat -> Tick, k: nat): nat {
    if k == 0 then 0 else StartOf(ticks, k - 1) + TickCost(ticks(k - 1))
  }

  /** The loop from tick `k` on, with `elapsed` seconds gone: the `while`
      test, the check and its `break`, the sleep, the progress line. */
  function PollFrom(maxWait: int, ticks: nat -> Tick, k: nat, elapsed: int): PollRun
    decreases maxWait - elapsed
  {
    if elapsed >= maxWait then PollRun(TimedOut(elapsed), [])
    else
      var t := ticks(k);
      if SentinelSeen(t.check) then PollRun(Completed(elapsed + t.checkSecs), [])
      else
        var slept := elapsed + t.checkSecs + Interval;
        var rest := PollFrom(maxWait, ticks, k + 1, slept + t.progressSecs);
        PollRun(rest.outcome, [ProgressLine(slept, t.progress)] + rest.progress)
  }

  /** The whole supervision, from the moment `start_time` is taken. */
  function PollSpec(maxWait: int, ticks: nat -> Tick): PollRun {
    PollFrom(maxWait, ticks, 0, 0)
  }

  /** The `while ... else` loop: completion is reported from inside the loop
      at the `break`, the timeout only when the `while` test fails. */
  method Poll(maxWait: int, ticks: nat -> Tick) returns (outcome: PollOutcome, progress: seq<Progress>)
    ensures PollRun(outcome, progress) == PollSpec(maxWait, ticks)
  {
    var elapsed := 0;
    var k := 0;
    progress := [];
    var completed := false;
    outcome := TimedOut(0);
    while elapsed < maxWait
      invariant elapsed >= 0
      invariant PollSpec(maxWait, ticks).outcome == PollFrom(maxWait, ticks, k, elapsed).outcome
      invariant PollSpec(maxWait, ticks).progress == progress + PollFrom(maxWait, ticks, k, elapsed).progress
      invariant !completed
      decreases maxWait - elapsed
    {
      var t := ticks(k);
      if SentinelSeen(t.check) {
        outcome := Completed(elapsed + t.checkSecs);
        completed := true;
        break;
      }
      var slept := elapsed + t.checkSecs + Interval;
      ghost var next := PollFrom(maxWait, ticks, k + 1, slept + t.progressSecs);
      assert PollFrom(maxWait, ticks, k, elapsed).progress == [ProgressLine(slept, t.progress)] + next.progress;
      progress := progress + [ProgressLine(slept, t.progress)];
      elapsed := slept + t.progressSecs;
      k := k + 1;
    }
    if !completed {
      outcome := TimedOut(elapsed);
    }
  }

  /** The clock never runs backwards from one tick to a later one. */
  lemma {:induction false} StartOfMonotone(ticks: nat -> Tick, j: nat, n: nat)
    requires j <= n
    ensures StartOf(ticks, j) <= StartOf(ticks, n)
    decreases n
  {
    if j < n {
      StartOfMonotone(ticks, j, n - 1);
    }
  }

  /** The clock reading when tick `j`'s sleep ends. */
  function SleptAt(ticks: nat -> Tick, j: nat): int {
    StartOf(ticks, j) + ticks(j).checkSecs + Interval
  }

  /** The progress line tick `j` prints after its sleep. */
  function LineOf(ticks: nat -> Tick, j: nat): Progress {
    ProgressLine(SleptAt(ticks, j), ticks(j).progress)
  }

  /** The progress lines of ticks `k..n-1`. */
  function LinesOf(ticks: nat -> Tick, k: nat, n: nat): seq<Progress>
    decreases n - k
  {
    if n <= k then [] else [LineOf(ticks, k)] + LinesOf(ticks, k + 1, n)
  }

  lemma {:induction false} LinesOfIndex(ticks: nat -> Tick, k: nat, n: nat)
    requires k <= n
    ensures |LinesOf(ticks, k, n)| == n - k
    ensures forall j :: k <= j < n ==> LinesOf(ticks, k, n)[j - k] == LineOf(ticks, j)
    decreases n - k
  {
    if k < n {
      LinesOfIndex(ticks, k + 1, n);
    }
  }

  /** The run `r` of the loop entered at tick `k` passes ticks `k..n-1`, each
      started before the deadline with no sentinel and printing its progress
      line, and stops at tick `n`: on the `while` test when tick `n` would
      start at or after the deadline, otherwise on the sentinel. */
  ghost predicate StopsAt(maxWait: int, ticks: nat -> Tick, k: nat, n: nat, r: PollRun) {
    && k <= n
    && (forall j :: k <= j < n ==> Passed(maxWait, ticks, j))
    && r.progress == LinesOf(ticks, k, n)
    && if StartOf(ticks, n) >= maxWait then r.outcome == TimedOut(StartOf(ticks, n))
       else SentinelSeen(ticks(n).check) && r.outcome == Completed(StartOf(ticks, n) + ticks(n).checkSecs)
  }

  /** One tick that starts before the deadline without the sentinel prints
      its progress line and hands over to the next tick. */
  lemma PollStep(maxWait: int, ticks: nat -> Tick, k: nat)
    requires StartOf(ticks, k) < maxWait && !SentinelSeen(ticks(k).check)
    ensures var rest := PollFrom(maxWait, ticks, k + 1, StartOf(ticks, k + 1));
            PollFrom(maxWait, ticks, k, StartOf(ticks, k)) == PollRun(rest.outcome, [LineOf(ticks, k)] + rest.progress)
  {
    var t := ticks(k);
    var slept := StartOf(ticks, k) + t.checkSecs + Interval;
    assert StartOf(ticks, k + 1) == slept + t.progressSecs;
    assert SleptAt(ticks, k) == slept;
  }

  lemma StopsStep(maxWait: int, ticks: nat -> Tick, k: nat, n: nat, rest: PollRun)
    requires StartOf(ticks, k) < maxWait && !SentinelSeen(ticks(k).check)
    requires StopsAt(maxWait, ticks, k + 1, n, rest)
    ensures StopsAt(maxWait, ticks, k, n, PollRun(rest.outcome, [LineOf(ticks, k)] + rest.progress))
  {
    assert LinesOf(ticks, k, n) == [LineOf(ticks, k)] + LinesOf(ticks, k + 1, n);
  }

  /** Tick `j` starts before the deadline and its check does not see the
      sentinel, so the loop goes on past it. */
  predicate Passed(maxWait: int, ticks: nat -> Tick, j: nat) {
    !SentinelSeen(ticks(j).check) && StartOf(ticks, j) < maxWait
  }

  lemma {:induction false} PollStops(maxWait: int, ticks: nat -> Tick, k: nat)
    ensures exists n: nat :: StopsAt(maxWait, ticks, k, n, PollFrom(maxWait, ticks, k, StartOf(ticks, k)))
    decreases maxWait - StartOf(ticks, k)
  {
    var r := PollFrom(maxWait, ticks, k, StartOf(ticks, k));
    if StartOf(ticks, k) >= maxWait || SentinelSeen(ticks(k).check) {
      assert StopsAt(maxWait, ticks, k, k, r);
    } else {
      PollStep(maxWait, ticks, k);
      var rest := PollFrom(maxWait, ticks, k + 1, StartOf(ticks, k + 1));
      PollStops(maxWait, ticks, k + 1);
      var n: nat :| StopsAt(maxWait, ticks, k + 1, n, rest);
      StopsStep(maxWait, ticks, k, n, rest);
    }
  }

  /** A reported completion comes from the first check that printed `DONE`,
      started before the deadline; the reported time is when it returned. */
  lemma PollCompleted(maxWait: int, ticks: nat -> Tick, t: int)
    requires PollSpec(maxWait, ticks).outcome == Completed(t)
    ensures exists k: nat ::
              && SentinelSeen(ticks(k).check)
              && StartOf(ticks, k) < maxWait
              && t == StartOf(ticks, k) + ticks(k).checkSecs
              && (forall j :: 0 <= j < k ==> !SentinelSeen(ticks(j).check))
  {
    PollStops(maxWait, ticks, 0);
    var n: nat :| StopsAt(maxWait, ticks, 0, n, PollSpec(maxWait, ticks));
    forall j | 0 <= j < n
      ensures !SentinelSeen(ticks(j).check)
    {
      assert Passed(maxWait, ticks, j);
    }
    assert SentinelSeen(ticks(n).check) && StartOf(ticks, n) < maxWait;
  }

  /** A timeout is reported only once `max_wait` seconds have gone by, with
      no check before it having printed `DONE`. The time reported is when the
      last check's tick ended: that tick started before the deadline, so the
      time is below `max_wait` plus that tick's cost. */
  lemma PollTimedOut(maxWait: int, ticks: nat -> Tick, t: int)
    requires PollSpec(maxWait, ticks).outcome == TimedOut(t)
    ensures t >= maxWait
    ensures exists n: nat ::
              && t == StartOf(ticks, n)
              && (n > 0 ==> t < maxWait + TickCost(ticks(n - 1)))
              && (forall j :: 0 <= j < n ==> !SentinelSeen(ticks(j).check) && StartOf(ticks, j) < maxWait)
  {
    PollStops(maxWait, ticks, 0);
    var n: nat :| StopsAt(maxWait, ticks, 0, n, PollSpec(maxWait, ticks));
    forall j | 0 <= j < n
      ensures !SentinelSeen(ticks(j).check) && StartOf(ticks, j) < maxWait
    {
      assert Passed(maxWait, ticks, j);
    }
  }

  /** The loop reports completion exactly when some check that starts before
      the deadline prints `DONE`: a check or progress query that raised never
      ends the loop early. */
  lemma PollCompletes(maxWait: int, ticks: nat -> Tick)
    ensures PollSpec(maxWait, ticks).outcome.Completed?
            <==> exists k: nat :: SentinelSeen(ticks(k).check) && StartOf(ticks, k) < maxWait
  {
    var r := PollSpec(maxWait, ticks);
    PollStops(maxWait, ticks, 0);
    var n: nat :| StopsAt(maxWait, ticks, 0, n, r);
    if exists k: nat :: SentinelSeen(ticks(k).check) && StartOf(ticks, k) < maxWait {
      var k: nat :| SentinelSeen(ticks(k).check) && StartOf(ticks, k) < maxWait;
      assert k < n ==> Passed(maxWait, ticks, k);
      if n <= k {
        StartOfMonotone(ticks, n, k);
      }
    }
  }

  /** One progress line follows each check that did not print `DONE`, in
      order, stamped with the time after the sleep. */
  lemma PollProgress(maxWait: int, ticks: nat -> Tick)
    ensures var r := PollSpec(maxWait, ticks);
            forall j :: 0 <= j < |r.progress| ==>
              && !SentinelSeen(ticks(j).check)
              && r.progress[j] == ProgressLine(SleptAt(ticks, j), ticks(j).progress)
  {
    PollStops(maxWait, ticks, 0);
    var r := PollSpec(maxWait, ticks);
    var n: nat :| StopsAt(maxWait, ticks, 0, n, r);
    LinesOfIndex(ticks, 0, n);
    forall j | 0 <= j < |r.progress|
      ensures !SentinelSeen(ticks(j).check)
      ensures r.progress[j] == ProgressLine(SleptAt(ticks, j), ticks(j).progress)
    {
      assert Passed(maxWait, ticks, j);
      assert r.progress[j] == LineOf(ticks, j);
    }
  }

  /** Two runs whose checks agree on `DONE` and whose commands take the same
      time have the same outcome and print progress at the same times,
      whatever the commands printed otherwise or raised. */
  lemma {:induction false} FailuresIgnored(maxWait: int, a: nat -> Tick, b: nat -> Tick, k: nat, elapsed: int)
    requires forall j :: SentinelSeen(a(j).check) == SentinelSeen(b(j).check)
    requires forall j :: a(j).checkSecs == b(j).checkSecs && a(j).progressSecs == b(j).progressSecs
    ensures var ra := PollFrom(maxWait, a, k, elapsed);
            var rb := PollFrom(maxWait, b, k, elapsed);
            && ra.outcome == rb.outcome
            && |ra.progress| == |rb.progress|
            && forall j :: 0 <= j < |ra.progress| ==> ra.progress[j].elapsed == rb.progress[j].elapsed
    decreases maxWait - elapsed
  {
    if elapsed < maxWait && !SentinelSeen(a(k).check) {
      var next := elapsed + a(k).checkSecs + Interval + a(k).progressSecs;
      FailuresIgnored(maxWait, a, b, k + 1, next);
    }
  }
}
