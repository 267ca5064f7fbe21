/** The analysis state machine, the failure policy and the backoff schedule of a job. */
module Jobs {
  import opened Basics

  datatype State = Queued | Running | Retrying | Succeeded | Failed | Cancelled | DeadLettered

  datatype Event =
    | Claimed | Completed | TransientFailure | PermanentFailure
    | BackoffElapsed | CancelRequested | AttemptsExhausted | LeaseExpired

  datatype Status = PendingStatus | RunningStatus | SucceededStatus | FailedStatus

  predicate IsTerminal(s: State) {
    s.Succeeded? || s.Failed? || s.Cancelled? || s.DeadLettered?
  }

  predicate IsCancellable(s: State) {
    s.Queued? || s.Running? || s.Retrying?
  }

  function Reported(s: State): (status: Status) {
    match s
    case Queued => PendingStatus
    case Running => RunningStatus
    case Retrying => RunningStatus
    case Succeeded => SucceededStatus
    case Failed => FailedStatus
    case Cancelled => FailedStatus
    case DeadLettered => FailedStatus
  }

  /** The whole transition table; anything absent is refused. */
  function TryTransition(s: State, e: Event): (next: Option<State>) {
    match (s, e)
    case (Queued, Claimed) => Some(Running)
    case (Queued, CancelRequested) => Some(Cancelled)
    case (Queued, PermanentFailure) => Some(Failed)
    case (Running, Completed) => Some(Succeeded)
    case (Running, TransientFailure) => Some(Retrying)
    case (Running, LeaseExpired) => Some(Retrying)
    case (Running, PermanentFailure) => Some(Failed)
    case (Running, CancelRequested) => Some(Cancelled)
    case (Running, AttemptsExhausted) => Some(DeadLettered)
    case (Retrying, BackoffElapsed) => Some(Queued)
    case (Retrying, AttemptsExhausted) => Some(DeadLettered)
    case (Retrying, CancelRequested) => Some(Cancelled)
    case (Retrying, PermanentFailure) => Some(Failed)
    case _ => None
  }

  /** An event leads to one state, from whichever state accepts it: the whole table by its columns. */
  lemma EventsExactly(s: State, e: Event)
    ensures TryTransition(s, Claimed) == if s == Queued then Some(Running) else None
    ensures TryTransition(s, Completed) == if s == Running then Some(Succeeded) else None
    ensures e in {TransientFailure, LeaseExpired} ==> TryTransition(s, e) == if s == Running then Some(Retrying) else None
    ensures TryTransition(s, BackoffElapsed) == if s == Retrying then Some(Queued) else None
    ensures TryTransition(s, AttemptsExhausted) == if s in {Running, Retrying} then Some(DeadLettered) else None
    ensures TryTransition(s, PermanentFailure) == if s in {Queued, Running, Retrying} then Some(Failed) else None
    ensures TryTransition(s, CancelRequested) == if s in {Queued, Running, Retrying} then Some(Cancelled) else None
  {
  }

  /** Nothing leaves a terminal state, everything else can be cancelled, and a caller is told the
      run has finished exactly when it has. */
  lemma TerminalExactly(s: State)
    ensures IsTerminal(s) <==> forall e :: TryTransition(s, e).None?
    ensures IsCancellable(s) <==> TryTransition(s, CancelRequested) == Some(Cancelled)
    ensures IsTerminal(s) <==> Reported(s) in {SucceededStatus, FailedStatus}
  {
    if !IsTerminal(s) {
      assert TryTransition(s, CancelRequested).Some?;
    }
  }

  /** Only success is reported as success, only work not begun as pending, and a job that waits for a
      retry as running. */
  lemma ReportedExactly(s: State)
    ensures Reported(s) == SucceededStatus <==> s == Succeeded
    ensures Reported(s) == PendingStatus <==> s == Queued
    ensures Reported(s) == RunningStatus <==> s == Running || s == Retrying
    ensures Reported(s) == FailedStatus <==> s == Failed || s == Cancelled || s == DeadLettered
  {
  }

  /** The event a failed attempt produces. */
  function EventForFailure(attempt: nat, maxAttempts: nat, retryable: bool): (e: Event) {
    if !retryable then PermanentFailure
    else if attempt >= maxAttempts then AttemptsExhausted
    else TransientFailure
  }

  // ---- Job kinds and backoff ---------------------------------------------------------------

  datatype JobKind = Analysis | Extraction | Retention | Simulation

  /** Durations in milliseconds. */
  datatype RetryPolicy = RetryPolicy(maxAttempts: nat, base: nat, maxBackoff: nat)

  function Policy(kind: JobKind): (p: RetryPolicy)
    ensures p.maxAttempts >= 2 && 0 < p.base <= p.maxBackoff <= MILLIS_LIMIT
  {
    match kind
    case Analysis => RetryPolicy(3, 30_000, 900_000)
    case Extraction => RetryPolicy(5, 5_000, 300_000)
    case Simulation => RetryPolicy(2, 15_000, 300_000)
    case Retention => RetryPolicy(2, 60_000, 3_600_000)
  }

  function Lease(kind: JobKind): (millis: nat)
    ensures millis > 0
  {
    match kind
    case Analysis => 1_200_000
    case Extraction => 300_000
    case Retention => 1_800_000
    case Simulation => 900_000
  }

  /** Below this many milliseconds no 64-bit product in the jitter overflows. */
  const MILLIS_LIMIT: nat := 0x80_0000_0000_0000

  function Power2(n: nat): (p: nat)
    ensures p > 0
  {
    if n == 0 then 1 else 2 * Power2(n - 1)
  }

  /** The delay without jitter: doubling from the base up to the ceiling. */
  function Nominal(p: RetryPolicy, attempt: nat): (millis: nat)
    ensures millis <= p.maxBackoff
  {
    var exponent := if attempt == 0 then 0 else if attempt - 1 < 16 then attempt - 1 else 16;
    var scaled := p.base * Power2(exponent);
    if scaled < p.maxBackoff then scaled else p.maxBackoff
  }

  /** The delay starts at the base, doubles from attempt to attempt, sixteen times at most, and never
      passes the ceiling. */
  lemma NominalDoubles(p: RetryPolicy, attempt: nat)
    ensures Nominal(p, 0) == Nominal(p, 1) == if p.base < p.maxBackoff then p.base else p.maxBackoff
    ensures 1 <= attempt <= 16 ==>
              Nominal(p, attempt + 1) == if 2 * Nominal(p, attempt) < p.maxBackoff then 2 * Nominal(p, attempt) else p.maxBackoff
    ensures attempt >= 17 ==> Nominal(p, attempt) == Nominal(p, 17)
  {
    assert Power2(0) == 1;
    if 1 <= attempt <= 16 {
      assert Power2(attempt) == 2 * Power2(attempt - 1);
      DoubledProduct(p.base, Power2(attempt - 1));
    }
  }

  lemma DoubledProduct(a: nat, b: nat)
    ensures a * (2 * b) == 2 * (a * b)
  {
  }

  lemma CeilingReached(p: RetryPolicy)
    requires p.maxBackoff <= 64 * p.base
    ensures Nominal(p, 17) == p.maxBackoff
  {
    assert Power2(16) == 1_024 * 64 by {
      assert Power2(4) == 16 && Power2(8) == 256 && Power2(12) == 4_096;
    }
  }

  /** A claim leases an analysis for twenty minutes, an extraction for five, a retention sweep for half
      an hour and a simulation for a quarter: longer than the first wait of each. */
  lemma LeaseOfEachKind(kind: JobKind)
    ensures 3 * Lease(Analysis) == 60 * 60_000 && 12 * Lease(Extraction) == 60 * 60_000
    ensures 2 * Lease(Retention) == 60 * 60_000 && 4 * Lease(Simulation) == 60 * 60_000
    ensures Lease(kind) > Policy(kind).base
  {
  }

  /** The nominal waits between the attempts of a job of each kind. */
  function Schedule(kind: JobKind): (waits: seq<nat>) {
    seq(Policy(kind).maxAttempts - 1, k requires k >= 0 => Nominal(Policy(kind), k + 1))
  }

  lemma FirstWaits(p: RetryPolicy)
    requires 8 * p.base <= p.maxBackoff
    ensures Nominal(p, 1) == p.base && Nominal(p, 2) == 2 * p.base && Nominal(p, 3) == 4 * p.base && Nominal(p, 4) == 8 * p.base
  {
    hide Nominal;
    NominalDoubles(p, 0);
    NominalDoubles(p, 1);
    NominalDoubles(p, 2);
    NominalDoubles(p, 3);
  }

  lemma ScheduleOfEachKind()
    ensures Schedule(Analysis) == [30_000, 60_000]
    ensures Schedule(Extraction) == [5_000, 10_000, 20_000, 40_000]
    ensures Schedule(Simulation) == [15_000]
    ensures Schedule(Retention) == [60_000]
    ensures Nominal(Policy(Analysis), 17) == 15 * 60_000 && Nominal(Policy(Retention), 17) == 60 * 60_000
    ensures Nominal(Policy(Extraction), 17) == 5 * 60_000 && Nominal(Policy(Simulation), 17) == 5 * 60_000
  {
    hide Nominal;
    FirstWaits(Policy(Analysis));
    FirstWaits(Policy(Extraction));
    FirstWaits(Policy(Simulation));
    FirstWaits(Policy(Retention));
    CeilingReached(Policy(Analysis));
    CeilingReached(Policy(Extraction));
    CeilingReached(Policy(Simulation));
    CeilingReached(Policy(Retention));
  }

  function Jittered(millis: nat, seed: Byte): (delay: nat) {
    var spread := millis / 2;
    var offset := seed * spread / 256;
    var jittered := millis - spread / 2 + offset / 2;
    if jittered > 1 then jittered else 1
  }

  /** `delay_for`, with the last byte of the job's identifier as seed. */
  function DelayFor(p: RetryPolicy, attempt: nat, seed: Byte): (delay: nat) {
    Jittered(Nominal(p, attempt), seed)
  }

  lemma OffsetBelowSpread(seed: Byte, spread: nat)
    ensures 0 <= seed * spread / 256 <= spread
  {
    assert seed * spread <= 256 * spread;
  }

  lemma OffsetMonotone(seed: Byte, x: nat, y: nat)
    requires x <= y
    ensures seed * x / 256 <= seed * y / 256
  {
    assert seed * x <= seed * y;
  }

  /** The jitter takes at most a quarter off and never adds: three quarters of the nominal delay
      at least, the nominal delay at most, hence never above the ceiling. Only where the nominal
      delay is nothing does a job wait longer, one millisecond. */
  lemma JitterBounds(p: RetryPolicy, attempt: nat, seed: Byte)
    ensures var n, d := Nominal(p, attempt), DelayFor(p, attempt, seed);
            && 3 * n <= 4 * d && n <= p.maxBackoff && d >= 1
            && (if n > 0 then d <= n else d == 1)
    ensures 0 < p.base && 0 < p.maxBackoff ==> Nominal(p, attempt) > 0
  {
    hide Power2;
    var power := Power2(if attempt == 0 then 0 else if attempt - 1 < 16 then attempt - 1 else 16);
    assert p.base > 0 ==> p.base * power >= 1;
    OffsetBelowSpread(seed, Nominal(p, attempt) / 2);
  }

  lemma OffsetStep(seed: Byte, later: Byte, spread: nat)
    requires seed < later && spread >= 512
    ensures later * spread / 256 >= seed * spread / 256 + 2
  {
    var small: nat, large: nat := seed, later;
    ProductStep(small, large, spread);
    TwoMore(small * spread, large * spread);
  }

  lemma ProductStep(a: nat, b: nat, k: nat)
    requires a < b
    ensures b * k >= a * k + k
  {
    var d := b - a - 1;
    assert b * k == (a + 1 + d) * k == a * k + k + d * k;
  }

  lemma TwoMore(a: nat, b: nat)
    requires b >= a + 512
    ensures b / 256 >= a / 256 + 2
  {
  }

  /** The lowest seed takes a quarter off, and where a second or more is waited every seed waits a
      time of its own: no two jobs of different seeds come back together. */
  lemma SeedsApart(p: RetryPolicy, attempt: nat, seed: Byte, later: Byte)
    ensures Nominal(p, attempt) >= 1 ==> DelayFor(p, attempt, 0) == Nominal(p, attempt) - Nominal(p, attempt) / 4
    ensures Nominal(p, attempt) >= 1_024 && seed < later ==> DelayFor(p, attempt, seed) < DelayFor(p, attempt, later)
  {
    var n := Nominal(p, attempt);
    hide Nominal;
    assert n / 2 / 2 == n / 4;
    if n >= 1_024 && seed < later {
      OffsetStep(seed, later, n / 2);
      OffsetBelowSpread(seed, n / 2);
      OffsetBelowSpread(later, n / 2);
    }
  }

  lemma {:induction false} Power2Monotone(a: nat, b: nat)
    requires a <= b
    ensures Power2(a) <= Power2(b)
    decreases b
  {
    if a < b {
      Power2Monotone(a, b - 1);
    }
  }

  lemma ProductMonotone(k: nat, x: nat, y: nat)
    requires x <= y
    ensures k * x <= k * y
  {
  }

  lemma JitteredMonotone(m: nat, n: nat, seed: Byte)
    requires m <= n
    ensures Jittered(m, seed) <= Jittered(n, seed)
  {
    OffsetMonotone(seed, m / 2, n / 2);
  }

  /** A later attempt of the same job never waits less. */
  lemma DelayMonotone(p: RetryPolicy, a: nat, b: nat, seed: Byte)
    requires a <= b
    ensures DelayFor(p, a, seed) <= DelayFor(p, b, seed)
  {
    var ea := if a == 0 then 0 else if a - 1 < 16 then a - 1 else 16;
    var eb := if b == 0 then 0 else if b - 1 < 16 then b - 1 else 16;
    hide Power2, Jittered;
    Power2Monotone(ea, eb);
    ProductMonotone(p.base, Power2(ea), Power2(eb));
    JitteredMonotone(Nominal(p, a), Nominal(p, b), seed);
  }
}
