/** The queue protocol around one job. Every statement of the queue locks and changes one row, and
    the sweeps treat each row on its own, so the history of a job does not depend on the others:
    workers, the reaper, the scheduler and a cancelling caller interleave freely on it. */
module Queue {
  import opened Basics
  import opened Jobs

  type Worker = nat

  /** The stored row. */
  datatype Row = Row(state: State, attempt: nat, maxAttempts: nat, runAfter: int,
                     leasedUntil: Option<int>, leasedBy: Option<Worker>)

  /** One line of the transition log. */
  datatype Entry = Entry(from: State, to: State, event: Event, attempt: nat)

  /** The row, the attempt each worker read when it claimed the job, the log and the number of
      dead letters. A worker runs one job at a time and holds at most one such snapshot. */
  datatype System = System(row: Row, held: map<Worker, nat>, log: seq<Entry>, deadLetters: nat, now: int)

  datatype Outcome = Done | Broke(retryable: bool)

  datatype Step =
    | Claim(claimant: Worker)
    | Heartbeat(holder: Worker)
    | Report(reporter: Worker, outcome: Outcome)
    | Crash(crashed: Worker)
    | Cancel
    | ReleaseBackoff
    | ReapLease
    | Wait(millis: nat)

  /** What never changes about a job: how long a claim leases it and its jitter seed. */
  datatype Config = Config(kind: JobKind, seed: Byte)

  const REAP_BACKOFF: nat := 30_000

  function Initial(config: Config, runAfter: int, now: int): (s: System) {
    System(Row(Queued, 0, Policy(config.kind).maxAttempts, runAfter, None, None), map[], [], 0, now)
  }

  /** The row moves to `next` and gives up its lease, and the log says so in the same statement. */
  function Moved(s: System, next: State, event: Event, attempt: nat, runAfter: int): (t: System) {
    s.(row := s.row.(state := next, leasedUntil := None, leasedBy := None, runAfter := runAfter),
       log := s.log + [Entry(s.row.state, next, event, attempt)],
       deadLetters := if next.DeadLettered? then 1 else s.deadLetters)
  }

  /** The worker runs its jobs one after the other, so it claims only when it holds no snapshot; that
      is what makes a report be judged by the attempt that is running (`EarlierSnapshotOverruns`). */
  function DoClaim(c: Config, s: System, w: Worker): (t: System) {
    if s.row.state.Queued? && s.row.runAfter <= s.now && w !in s.held then
      s.(row := s.row.(state := Running, attempt := s.row.attempt + 1,
                       leasedUntil := Some(s.now + Lease(c.kind)), leasedBy := Some(w)),
         held := s.held[w := s.row.attempt + 1],
         log := s.log + [Entry(Queued, Running, Claimed, s.row.attempt + 1)])
    else s
  }

  function DoHeartbeat(c: Config, s: System, w: Worker): (t: System) {
    if w in s.held && s.row.state.Running? && s.row.leasedBy == Some(w) then
      s.(row := s.row.(leasedUntil := Some(s.now + Lease(c.kind))))
    else s
  }

  function ReportEvent(attempt: nat, maxAttempts: nat, outcome: Outcome): (e: Event) {
    match outcome
    case Done => Completed
    case Broke(retryable) => EventForFailure(attempt, maxAttempts, retryable)
  }

  /** A worker reports on the snapshot it holds. The row must still be leased to it; otherwise the
      report is refused and nothing is written. Either way the worker drops the snapshot. */
  function DoReport(c: Config, s: System, w: Worker, outcome: Outcome): (t: System) {
    if w !in s.held then s
    else
      var attempt := s.held[w];
      var dropped := s.(held := s.held - {w});
      if s.row.state.Running? && s.row.leasedBy == Some(w) then
        var event := ReportEvent(attempt, s.row.maxAttempts, outcome);
        match TryTransition(Running, event)
        case None => dropped
        case Some(next) =>
          var runAfter := if event.TransientFailure? then s.now + DelayFor(Policy(c.kind), attempt, c.seed) else s.row.runAfter;
          Moved(dropped, next, event, attempt, runAfter)
      else dropped
  }

  function DoCancel(s: System): (t: System) {
    match TryTransition(s.row.state, CancelRequested)
    case None => s
    case Some(next) => Moved(s, next, CancelRequested, s.row.attempt, s.row.runAfter)
  }

  /** The scheduler writes no log entry. */
  function DoRelease(s: System): (t: System) {
    if s.row.state.Retrying? && s.row.runAfter <= s.now then s.(row := s.row.(state := Queued)) else s
  }

  function DoReap(s: System): (t: System) {
    if s.row.state.Running? && s.row.leasedUntil.Some? && s.row.leasedUntil.value < s.now then
      if s.row.attempt >= s.row.maxAttempts then
        Moved(s, DeadLettered, AttemptsExhausted, s.row.attempt, s.now + REAP_BACKOFF)
      else Moved(s, Retrying, LeaseExpired, s.row.attempt, s.now + REAP_BACKOFF)
    else s
  }

  function Apply(c: Config, s: System, step: Step): (t: System) {
    match step
    case Claim(w) => DoClaim(c, s, w)
    case Heartbeat(w) => DoHeartbeat(c, s, w)
    case Report(w, outcome) => DoReport(c, s, w, outcome)
    case Crash(w) => s.(held := s.held - {w})
    case Cancel => DoCancel(s)
    case ReleaseBackoff => DoRelease(s)
    case ReapLease => DoReap(s)
    case Wait(millis) => s.(now := s.now + millis)
  }

  function Run(c: Config, s: System, steps: seq<Step>): (t: System) {
    if steps == [] then s else Apply(c, Run(c, s, steps[..|steps| - 1]), steps[|steps| - 1])
  }

  // ---- What every step keeps ---------------------------------------------------------------

  /** How many claims the log records. */
  function Claims(log: seq<Entry>): (n: nat) {
    if log == [] then 0
    else Claims(log[..|log| - 1]) + if log[|log| - 1].event.Claimed? then 1 else 0
  }

  /** One state follows another in the log; only the scheduler's release goes unrecorded. */
  predicate Follows(before: State, after: State) {
    before == after || (before == Retrying && after == Queued)
  }

  ghost predicate LogFits(log: seq<Entry>, current: State) {
    && (forall k :: 0 <= k < |log| ==> TryTransition(log[k].from, log[k].event) == Some(log[k].to))
    && (forall k :: 0 <= k < |log| - 1 ==> Follows(log[k].to, log[k + 1].from))
    && Follows(if log == [] then Queued else log[|log| - 1].to, current)
    && (log != [] ==> log[0].from == Queued)
  }

  ghost predicate Inv(c: Config, s: System) {
    && s.row.maxAttempts == Policy(c.kind).maxAttempts
    && s.row.attempt <= s.row.maxAttempts
    && (s.row.state.Queued? || s.row.state.Retrying? ==> s.row.attempt < s.row.maxAttempts)
    && (s.row.state.Running? <==> s.row.leasedBy.Some?)
    && (s.row.state.Running? <==> s.row.leasedUntil.Some?)
    && (s.row.state.Running? ==> s.row.attempt >= 1)
    && (s.row.leasedUntil.Some? ==> s.row.leasedUntil.value <= s.now + Lease(c.kind))
    && (forall w :: w in s.held && s.row.leasedBy == Some(w) ==> s.held[w] == s.row.attempt)
    && (s.row.state.DeadLettered? ==> s.row.attempt == s.row.maxAttempts)
    && s.deadLetters == (if s.row.state.DeadLettered? then 1 else 0)
    && LogFits(s.log, s.row.state)
    && Claims(s.log) == s.row.attempt
  }

  lemma LogGrows(s: System, e: Entry)
    requires LogFits(s.log, s.row.state)
    requires e.from == s.row.state && TryTransition(e.from, e.event) == Some(e.to)
    ensures LogFits(s.log + [e], e.to)
    ensures Claims(s.log + [e]) == Claims(s.log) + if e.event.Claimed? then 1 else 0
  {
    assert (s.log + [e])[..|s.log|] == s.log;
  }

  lemma ApplyKeeps(c: Config, s: System, step: Step)
    requires Inv(c, s)
    ensures Inv(c, Apply(c, s, step))
  {
    hide LogFits, Claims, DelayFor, Policy, Lease;
    var t := Apply(c, s, step);
    if t.log == s.log {
      assert step.ReleaseBackoff? || t.row.state == s.row.state;
      ReleaseFits(s.log);
    } else {
      LogGrows(s, t.log[|t.log| - 1]);
    }
  }

  lemma ReleaseFits(log: seq<Entry>)
    ensures LogFits(log, Retrying) ==> LogFits(log, Queued)
  {
  }

  // ---- What each statement does ------------------------------------------------------------

  /** A queued job whose time has come is claimed: one more attempt, leased to the claimant from now
      on, on record, and held by it. No other job is, and a worker that holds one claims none. */
  lemma ClaimExactly(c: Config, s: System, w: Worker)
    ensures var t := Apply(c, s, Claim(w));
            if s.row.state == Queued && s.row.runAfter <= s.now && w !in s.held then
              && t.row == Row(Running, s.row.attempt + 1, s.row.maxAttempts, s.row.runAfter, Some(s.now + Lease(c.kind)), Some(w))
              && t.held == s.held[w := s.row.attempt + 1]
              && t.log == s.log + [Entry(Queued, Running, Claimed, s.row.attempt + 1)]
              && t.deadLetters == s.deadLetters && t.now == s.now
            else t == s
  {
  }

  /** The holder of a running job gets its lease again from now on; nobody else changes anything. */
  lemma HeartbeatExactly(c: Config, s: System, w: Worker)
    ensures var t := Apply(c, s, Heartbeat(w));
            if w in s.held && s.row.state == Running && s.row.leasedBy == Some(w) then
              t == s.(row := s.row.(leasedUntil := Some(s.now + Lease(c.kind))))
            else t == s
  {
  }

  /** A job that is not finished is cancelled, with its lease given up and on record; a finished one
      is not. The workers keep their snapshots. */
  lemma CancelExactly(c: Config, s: System)
    ensures var t := Apply(c, s, Cancel);
            if s.row.state in {Queued, Running, Retrying} then
              && t.row == Row(Cancelled, s.row.attempt, s.row.maxAttempts, s.row.runAfter, None, None)
              && t.log == s.log + [Entry(s.row.state, Cancelled, CancelRequested, s.row.attempt)]
              && t.held == s.held && t.deadLetters == s.deadLetters && t.now == s.now
            else t == s
  {
  }

  /** A job whose backoff is over goes back on the queue; nothing else changes. */
  lemma ReleaseExactly(c: Config, s: System)
    ensures var t := Apply(c, s, ReleaseBackoff);
            if s.row.state == Retrying && s.row.runAfter <= s.now then t == s.(row := s.row.(state := Queued))
            else t == s
  {
  }

  /** A running job whose lease has run out is taken back, with the same attempt and on record: to be
      retried half a minute later, or to the dead letters when that was its last attempt. */
  lemma ReapExactly(c: Config, s: System)
    ensures var t, lost := Apply(c, s, ReapLease), s.row.state == Running && s.row.leasedUntil.Some? && s.row.leasedUntil.value < s.now;
            && (lost && s.row.attempt < s.row.maxAttempts ==>
                  && t.row == Row(Retrying, s.row.attempt, s.row.maxAttempts, s.now + 30_000, None, None)
                  && t.log == s.log + [Entry(Running, Retrying, LeaseExpired, s.row.attempt)]
                  && t.deadLetters == s.deadLetters && t.held == s.held && t.now == s.now)
            && (lost && s.row.attempt >= s.row.maxAttempts ==>
                  && t.row == Row(DeadLettered, s.row.attempt, s.row.maxAttempts, s.now + 30_000, None, None)
                  && t.log == s.log + [Entry(Running, DeadLettered, AttemptsExhausted, s.row.attempt)]
                  && t.deadLetters == 1 && t.held == s.held && t.now == s.now)
            && (!lost ==> t == s)
  {
  }

  /** A crash loses the worker's snapshot and nothing that is stored; waiting only passes time. */
  lemma CrashAndWaitExactly(c: Config, s: System, w: Worker, millis: nat)
    ensures Apply(c, s, Crash(w)) == s.(held := s.held - {w})
    ensures Apply(c, s, Wait(millis)) == s.(now := s.now + millis)
  {
  }

  // ---- No job is lost ----------------------------------------------------------------------

  /** The steps of time, the sweeps and one worker; no cancellation. */
  predicate Recovers(step: Step, w: Worker) {
    step.Wait? || step.ReapLease? || step.ReleaseBackoff? || step == Claim(w) || step == Report(w, Done)
  }

  lemma RunConcat(c: Config, s: System, a: seq<Step>, b: seq<Step>)
    ensures Run(c, s, a + b) == Run(c, Run(c, s, a), b)
  {
    hide Apply;
    if b == [] {
      assert a + b == a;
    } else {
      RunConcat(c, s, a, b[..|b| - 1]);
      assert (a + b)[..|a + b| - 1] == a + b[..|b| - 1];
    }
  }

  lemma TwoSteps(c: Config, s: System, first: Step, second: Step)
    ensures Run(c, s, [first, second]) == Apply(c, Apply(c, s, first), second)
  {
    hide Apply;
    assert [first, second][..1] == [first] && [first][..0] == [];
    assert Run(c, s, [first]) == Apply(c, s, first);
  }

  function Until(s: System, time: int): (millis: nat) {
    if time > s.now then time - s.now else 0
  }

  /** Whatever has become of its workers, an unfinished job can be brought to its end: the sweeps take
      it back once its lease and its backoff are over, and any idle worker can then finish it, unless
      it had no attempt left and is with the dead letters. */
  lemma AbandonedJobFinishes(c: Config, s: System, w: Worker) returns (steps: seq<Step>)
    requires Inv(c, s) && w !in s.held && !IsTerminal(s.row.state)
    ensures forall k :: 0 <= k < |steps| ==> Recovers(steps[k], w)
    ensures Run(c, s, steps).row.state == Succeeded
            || (Run(c, s, steps).row.state == DeadLettered && s.row.state == Running && s.row.attempt == s.row.maxAttempts)
  {
    hide Run, LogFits, Claims, Policy, Lease, DelayFor;
    match s.row.state {
      case Queued => steps := FinishQueued(c, s, w);
      case Retrying => steps := FinishRetrying(c, s, w);
      case Running =>
        var wait := Wait(Until(s, s.row.leasedUntil.value + 1));
        var t := Apply(c, Apply(c, s, wait), ReapLease);
        TwoSteps(c, s, wait, ReapLease);
        ApplyKeeps(c, s, wait);
        ApplyKeeps(c, Apply(c, s, wait), ReapLease);
        ReapExactly(c, Apply(c, s, wait));
        if s.row.attempt >= s.row.maxAttempts {
          steps := [wait, ReapLease];
        } else {
          var rest := FinishRetrying(c, t, w);
          RunConcat(c, s, [wait, ReapLease], rest);
          steps := [wait, ReapLease] + rest;
        }
    }
  }

  lemma FinishQueued(c: Config, s: System, w: Worker) returns (steps: seq<Step>)
    requires Inv(c, s) && w !in s.held && s.row.state == Queued
    ensures forall k :: 0 <= k < |steps| ==> Recovers(steps[k], w)
    ensures Run(c, s, steps).row.state == Succeeded
  {
    hide Run, LogFits, Claims, Policy, Lease, DelayFor;
    var wait := Wait(Until(s, s.row.runAfter));
    var ready := Apply(c, s, wait);
    var claimed := Apply(c, ready, Claim(w));
    ClaimExactly(c, ready, w);
    assert Apply(c, claimed, Report(w, Done)).row.state == Succeeded;
    steps := [wait, Claim(w)] + [Report(w, Done)];
    TwoSteps(c, s, wait, Claim(w));
    RunConcat(c, s, [wait, Claim(w)], [Report(w, Done)]);
    OneStep(c, claimed, Report(w, Done));
  }

  lemma OneStep(c: Config, s: System, step: Step)
    ensures Run(c, s, [step]) == Apply(c, s, step)
  {
    hide Apply;
    assert [step][..0] == [];
  }

  lemma FinishRetrying(c: Config, s: System, w: Worker) returns (steps: seq<Step>)
    requires Inv(c, s) && w !in s.held && s.row.state == Retrying
    ensures forall k :: 0 <= k < |steps| ==> Recovers(steps[k], w)
    ensures Run(c, s, steps).row.state == Succeeded
  {
    hide Run, LogFits, Claims, Policy, Lease, DelayFor;
    var wait := Wait(Until(s, s.row.runAfter));
    var t := Apply(c, Apply(c, s, wait), ReleaseBackoff);
    TwoSteps(c, s, wait, ReleaseBackoff);
    ApplyKeeps(c, s, wait);
    ApplyKeeps(c, Apply(c, s, wait), ReleaseBackoff);
    ReleaseExactly(c, Apply(c, s, wait));
    var rest := FinishQueued(c, t, w);
    RunConcat(c, s, [wait, ReleaseBackoff], rest);
    steps := [wait, ReleaseBackoff] + rest;
  }

  // ---- What the log leaves out -------------------------------------------------------------

  /** The state the log ends in. */
  function LoggedState(log: seq<Entry>): (state: State) {
    if log == [] then Queued else log[|log| - 1].to
  }

  /** No release is logged, and before the first claim nothing but an ending is. */
  ghost predicate LogSilence(s: System) {
    && (forall k :: 0 <= k < |s.log| ==> !s.log[k].event.BackoffElapsed?)
    && (s.row.state.Running? || s.row.state.Retrying? ==> s.row.attempt > 0)
    && (s.row.state.Queued? && s.row.attempt == 0 ==> s.log == [])
  }

  lemma ApplyKeepsSilence(c: Config, s: System, step: Step)
    requires LogSilence(s)
    ensures LogSilence(Apply(c, s, step))
  {
    hide DelayFor, Policy, Lease;
  }

  lemma {:induction false} RunKeepsSilence(c: Config, runAfter: int, now: int, steps: seq<Step>)
    ensures LogSilence(Run(c, Initial(c, runAfter, now), steps))
  {
    hide Apply, LogSilence;
    if steps == [] {
      assert LogSilence(Initial(c, runAfter, now)) by {
        NothingLogged(c, runAfter, now);
      }
    } else {
      RunKeepsSilence(c, runAfter, now, steps[..|steps| - 1]);
      ApplyKeepsSilence(c, Run(c, Initial(c, runAfter, now), steps[..|steps| - 1]), steps[|steps| - 1]);
    }
  }

  lemma NothingLogged(c: Config, runAfter: int, now: int)
    ensures LogSilence(Initial(c, runAfter, now))
  {
  }

  /** In every run of a job, the log ends in the job's state unless the job is back on the queue
      after an attempt: the one change that is not logged is the scheduler's release. */
  lemma LogExactly(c: Config, runAfter: int, now: int, steps: seq<Step>)
    ensures var t := Run(c, Initial(c, runAfter, now), steps);
            LoggedState(t.log) == t.row.state <==> !(t.row.state.Queued? && t.row.attempt > 0)
  {
    hide Run, Claims;
    InitialHolds(c, runAfter, now);
    RunKeeps(c, Initial(c, runAfter, now), steps);
    RunKeepsSilence(c, runAfter, now, steps);
  }

  /** A claim, a transient failure, the wait and the release: the job is on the queue, and the log
      says it is retrying. */
  lemma ReleaseNotLogged(c: Config, now: int)
    ensures var steps := [Claim(0), Report(0, Broke(true)), Wait(Policy(c.kind).maxBackoff), ReleaseBackoff];
            var t := Run(c, Initial(c, now, now), steps);
            t.row.state == Queued && LoggedState(t.log) == Retrying
  {
    hide DelayFor, Policy, Lease;
    var wait := Policy(c.kind).maxBackoff;
    var steps := [Claim(0), Report(0, Broke(true)), Wait(wait), ReleaseBackoff];
    assert steps[..3] == [Claim(0), Report(0, Broke(true)), Wait(wait)];
    assert steps[..3][..2] == [Claim(0), Report(0, Broke(true))];
    assert [Claim(0), Report(0, Broke(true))][..1] == [Claim(0)] && [Claim(0)][..0] == [];
    var s0 := Initial(c, now, now);
    var s1 := DoClaim(c, s0, 0);
    var s2 := DoReport(c, s1, 0, Broke(true));
    assert Run(c, s0, [Claim(0)]) == s1;
    assert Run(c, s0, steps[..3][..2]) == s2;
    JitterBounds(Policy(c.kind), 1, c.seed);
    assert s2.row.state == Retrying && s2.row.runAfter <= now + wait;
    assert Run(c, s0, steps[..3]) == s2.(now := s2.now + wait);
  }

  // ---- Whole runs --------------------------------------------------------------------------

  lemma InitialHolds(c: Config, runAfter: int, now: int)
    ensures Inv(c, Initial(c, runAfter, now))
  {
  }

  /** Whatever workers, reaper, scheduler and caller do in whatever order, the invariant holds. */
  lemma {:induction false} RunKeeps(c: Config, s: System, steps: seq<Step>)
    requires Inv(c, s)
    ensures Inv(c, Run(c, s, steps))
  {
    hide Inv, Apply;
    if steps != [] {
      RunKeeps(c, s, steps[..|steps| - 1]);
      ApplyKeeps(c, Run(c, s, steps[..|steps| - 1]), steps[|steps| - 1]);
    }
  }

  /** A job is claimed at most as often as its policy allows, and goes to the dead letters, once,
      only when every attempt has been used. */
  lemma AttemptsBounded(c: Config, runAfter: int, now: int, steps: seq<Step>)
    ensures var t := Run(c, Initial(c, runAfter, now), steps);
            && Claims(t.log) <= Policy(c.kind).maxAttempts
            && t.deadLetters <= 1
            && (t.row.state.DeadLettered? ==> Claims(t.log) == Policy(c.kind).maxAttempts && t.deadLetters == 1)
            && LogFits(t.log, t.row.state)
  {
    hide Apply, Claims, LogFits;
    InitialHolds(c, runAfter, now);
    RunKeeps(c, Initial(c, runAfter, now), steps);
  }

  /** Strictly falls whenever the row changes its state. */
  function Measure(row: Row): (m: int) {
    if IsTerminal(row.state) then 0
    else
      4 * (row.maxAttempts - row.attempt)
      + if row.state.Running? then 3 else if row.state.Retrying? then 2 else 1
  }

  lemma ApplyDescends(c: Config, s: System, step: Step)
    requires Inv(c, s)
    ensures var t := Apply(c, s, step);
            && 0 <= Measure(t.row) <= Measure(s.row)
            && (t.row.state != s.row.state || t.log != s.log ==> Measure(t.row) < Measure(s.row))
  {
    hide LogFits, Claims, DelayFor, Policy, Lease;
  }

  /** How many steps of a run change the row's state. */
  function Changes(c: Config, s: System, steps: seq<Step>): (n: nat) {
    if steps == [] then 0
    else
      var before := Run(c, s, steps[..|steps| - 1]);
      Changes(c, s, steps[..|steps| - 1])
      + if Apply(c, before, steps[|steps| - 1]).row.state != before.row.state then 1 else 0
  }

  lemma {:induction false} ChangesDescend(c: Config, s: System, steps: seq<Step>)
    requires Inv(c, s)
    ensures Changes(c, s, steps) + Measure(Run(c, s, steps).row) <= Measure(s.row)
    ensures Measure(Run(c, s, steps).row) >= 0
  {
    hide Inv, Apply, Measure;
    if steps == [] {
      ApplyDescends(c, s, Crash(0));
      CrashKeepsRow(c, s);
    } else {
      var front := steps[..|steps| - 1];
      ChangesDescend(c, s, front);
      RunKeeps(c, s, front);
      ApplyDescends(c, Run(c, s, front), steps[|steps| - 1]);
    }
  }

  lemma CrashKeepsRow(c: Config, s: System)
    ensures Apply(c, s, Crash(0)).row == s.row
  {
  }

  /** However long the run, the job changes state at most four times per attempt and once more. */
  lemma ChangesBounded(c: Config, runAfter: int, now: int, steps: seq<Step>)
    ensures Changes(c, Initial(c, runAfter, now), steps) <= 4 * Policy(c.kind).maxAttempts + 1
  {
    hide Changes, Inv, Run;
    InitialHolds(c, runAfter, now);
    ChangesDescend(c, Initial(c, runAfter, now), steps);
  }

  /** A finished job stays finished: row, log and dead letters never change again. */
  lemma {:induction false} FinishedStays(c: Config, s: System, steps: seq<Step>)
    requires Inv(c, s) && IsTerminal(s.row.state)
    ensures var t := Run(c, s, steps); t.row == s.row && t.log == s.log && t.deadLetters == s.deadLetters
  {
    hide LogFits, Claims, DelayFor, Policy, Lease;
    if steps != [] {
      FinishedStays(c, s, steps[..|steps| - 1]);
      RunKeeps(c, s, steps[..|steps| - 1]);
    }
  }

  /** A job that waits for `runAfter` on its `attempt`, or was cancelled while it did. */
  predicate Waiting(before: Row, row: Row) {
    && row.attempt == before.attempt && row.runAfter == before.runAfter
    && (row.state == before.state || row.state == Cancelled)
  }

  lemma WaitsOneStep(c: Config, s: System, step: Step, before: Row)
    requires before.state.Queued? || before.state.Retrying?
    requires s.now < before.runAfter ==> Waiting(before, s.row)
    ensures Apply(c, s, step).now < before.runAfter ==> Waiting(before, Apply(c, s, step).row)
    ensures Apply(c, s, step).now >= s.now
  {
    hide DelayFor, Policy, Lease;
  }

  /** A waiting job is not claimed before its time: until then it can only be cancelled. */
  lemma {:induction false} WaitsItsTime(c: Config, s: System, steps: seq<Step>)
    requires s.row.state.Queued? || s.row.state.Retrying?
    ensures Run(c, s, steps).now < s.row.runAfter ==> Waiting(s.row, Run(c, s, steps).row)
    ensures Run(c, s, steps).now >= s.now
  {
    hide Apply;
    if steps != [] {
      WaitsItsTime(c, s, steps[..|steps| - 1]);
      WaitsOneStep(c, Run(c, s, steps[..|steps| - 1]), steps[|steps| - 1], s.row);
    }
  }

  /** The lease of `before` is still its holder's, perhaps renewed. */
  predicate StillLeased(before: Row, row: Row) {
    && row.state.Running? && row.leasedBy == before.leasedBy && row.attempt == before.attempt
    && before.leasedUntil.Some? && row.leasedUntil.Some? && row.leasedUntil.value >= before.leasedUntil.value
  }

  /** Anything but a cancellation and the holder's own report. */
  predicate LeavesLease(step: Step, w: Worker) {
    !step.Cancel? && !(step.Report? && step.reporter == w)
  }

  lemma LeaseOneStep(c: Config, s: System, step: Step, before: Row, w: Worker)
    requires Inv(c, s) && before.leasedBy == Some(w) && before.leasedUntil.Some? && LeavesLease(step, w)
    requires s.now <= before.leasedUntil.value ==> StillLeased(before, s.row)
    ensures Apply(c, s, step).now <= before.leasedUntil.value ==> StillLeased(before, Apply(c, s, step).row)
    ensures Apply(c, s, step).now >= s.now
  {
    hide LogFits, Claims, DelayFor, Policy, Lease;
  }

  /** A live lease is exclusive: whatever anyone else does, and whether or not the holder renews it,
      the row stays with the holder until it reports, the job is cancelled or the lease runs out. */
  lemma {:induction false} LeaseHolds(c: Config, s: System, steps: seq<Step>, w: Worker)
    requires Inv(c, s) && s.row.leasedBy == Some(w)
    requires forall k :: 0 <= k < |steps| ==> LeavesLease(steps[k], w)
    ensures s.row.leasedUntil.Some?
    ensures Run(c, s, steps).now <= s.row.leasedUntil.value ==> StillLeased(s.row, Run(c, s, steps).row)
    ensures Run(c, s, steps).now >= s.now
  {
    hide LogFits, Claims, Apply, Lease, Policy;
    if steps != [] {
      LeaseHolds(c, s, steps[..|steps| - 1], w);
      RunKeeps(c, s, steps[..|steps| - 1]);
      LeaseOneStep(c, Run(c, s, steps[..|steps| - 1]), steps[|steps| - 1], s.row, w);
    }
  }

  /** A worker whose lease was taken away cannot report: nothing but its own snapshot goes. */
  lemma StaleReportRefused(c: Config, s: System, w: Worker, outcome: Outcome)
    requires s.row.leasedBy != Some(w)
    ensures Apply(c, s, Report(w, outcome)) == s.(held := s.held - {w})
  {
    assert w !in s.held ==> s.held - {w} == s.held;
  }

  /** The holder's report is always a legal move and is judged by the attempt really running. */
  lemma HolderReports(c: Config, s: System, w: Worker, outcome: Outcome)
    requires Inv(c, s) && s.row.leasedBy == Some(w) && w in s.held
    ensures var t := Apply(c, s, Report(w, outcome));
            && t.log == s.log + [Entry(Running, t.row.state, ReportEvent(s.row.attempt, s.row.maxAttempts, outcome), s.row.attempt)]
            && t.row.leasedBy == None && t.row.leasedUntil == None
            && t.row.attempt == s.row.attempt && t.row.maxAttempts == s.row.maxAttempts
            && t.held == s.held - {w} && t.now == s.now
            && t.deadLetters == (if t.row.state == DeadLettered then 1 else s.deadLetters)
            && (t.row.state != Retrying ==> t.row.runAfter == s.row.runAfter)
            && (outcome.Done? <==> t.row.state == Succeeded)
            && (outcome == Broke(false) <==> t.row.state == Failed)
            && (outcome == Broke(true) && s.row.attempt == s.row.maxAttempts <==> t.row.state == DeadLettered)
            && (outcome == Broke(true) && s.row.attempt < s.row.maxAttempts <==> t.row.state == Retrying)
            && (t.row.state == Retrying ==>
                  && s.now < t.row.runAfter <= s.now + Policy(c.kind).maxBackoff
                  && 3 * Nominal(Policy(c.kind), s.row.attempt) <= 4 * (t.row.runAfter - s.now))
  {
    JitterBounds(Policy(c.kind), s.row.attempt, c.seed);
  }

  /** The snapshot must be the worker's latest claim. A worker that still held an earlier one could
      put the job back on the queue with no attempt left. */
  lemma EarlierSnapshotOverruns(c: Config, s: System, w: Worker)
    requires s.row.state.Running? && s.row.leasedBy == Some(w) && w in s.held
    requires s.row.attempt == s.row.maxAttempts && s.held[w] < s.row.attempt
    ensures var t := Apply(c, s, Report(w, Broke(true)));
            t.row.state == Retrying && t.row.attempt == t.row.maxAttempts
  {
  }
}
