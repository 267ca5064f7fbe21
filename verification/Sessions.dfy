/** Refresh-token rotation: what the policy decides about a presented token, and what the store then
    does to the rows of the session's family. */
module Sessions {
  import opened Basics

  datatype ClientKind = Web | Ios | Android

  /** Lifetimes in milliseconds. */
  datatype Policy = Policy(access: nat, refresh: nat, grace: nat)

  function ForClient(kind: ClientKind): (p: Policy)
    ensures 0 < p.grace < p.access < p.refresh
  {
    match kind
    case Web => Policy(900_000, 43_200_000, 30_000)
    case Ios => Policy(1_800_000, 2_592_000_000, 60_000)
    case Android => Policy(1_800_000, 2_592_000_000, 60_000)
  }

  /** Half a day of refreshing on the web and a month on a phone, and twice the grace there. */
  lemma LifetimesOfEachClient(kind: ClientKind)
    ensures var p, minute := ForClient(kind), 60 * 1_000;
            if kind == Web then 4 * p.access == 60 * minute && p.refresh == 12 * 60 * minute && 2 * p.grace == minute
            else 2 * p.access == 60 * minute && p.refresh == 30 * 24 * 60 * minute && p.grace == minute
  {
  }

  /** What the policy sees: the family's current generation, the rest from the presented row. */
  datatype SessionState = SessionState(generation: int, refreshExpiresAt: int, revokedAt: Option<int>, rotatedAt: Option<int>)

  datatype Outcome = Rotate | ReplayWithinGrace | ReuseDetected | Expired | Revoked

  function EvaluateRefresh(p: Policy, s: SessionState, presented: int, now: int): (o: Outcome) {
    if s.revokedAt.Some? then Revoked
    else if now >= s.refreshExpiresAt then Expired
    else if presented == s.generation then Rotate
    else if presented > s.generation then ReuseDetected
    else if presented == s.generation - 1 && s.rotatedAt.Some? && now < s.rotatedAt.value + p.grace then ReplayWithinGrace
    else ReuseDetected
  }

  // ---- The rows of one family --------------------------------------------------------------

  /** One row per generation. A token is found by its hash, which belongs to one row, so it is named
      by that row's generation. */
  datatype Row = Row(generation: nat, accessExpiresAt: int, refreshExpiresAt: int,
                     supersededAt: Option<int>, revokedAt: Option<int>)

  /** `coalesce(max(generation), 0)` */
  function MaxGeneration(rows: seq<Row>): (g: nat) {
    if rows == [] then 0
    else
      var rest := MaxGeneration(rows[..|rows| - 1]);
      if rows[|rows| - 1].generation > rest then rows[|rows| - 1].generation else rest
  }

  /** A row that is neither superseded nor revoked. */
  function LiveRow(rows: seq<Row>): (k: Option<nat>)
    ensures k.Some? ==> k.value < |rows|
  {
    if rows == [] then None
    else
      var last := rows[|rows| - 1];
      if last.supersededAt.None? && last.revokedAt.None? then Some(|rows| - 1)
      else LiveRow(rows[..|rows| - 1])
  }

  function RevokeRow(row: Row, now: int): (r: Row) {
    if row.revokedAt.Some? then row else row.(revokedAt := Some(now))
  }

  function RevokeFamily(rows: seq<Row>, now: int): (revoked: seq<Row>) {
    seq(|rows|, k requires 0 <= k < |rows| => RevokeRow(rows[k], now))
  }

  function RevokeExcept(rows: seq<Row>, keep: nat, now: int): (revoked: seq<Row>) {
    seq(|rows|, k requires 0 <= k < |rows| => if rows[k].generation == keep then rows[k] else RevokeRow(rows[k], now))
  }

  /** What the hourly purge leaves: it deletes the rows whose refresh token expired before `cutoff`. */
  function Retained(rows: seq<Row>, cutoff: int): (rest: seq<Row>) {
    if rows == [] then []
    else (if rows[0].refreshExpiresAt < cutoff then [] else [rows[0]]) + Retained(rows[1..], cutoff)
  }

  /** The row a presented token belongs to. */
  function Find(rows: seq<Row>, token: nat): (k: Option<nat>)
    ensures k.Some? ==> k.value < |rows|
  {
    if rows == [] then None
    else if rows[|rows| - 1].generation == token then Some(|rows| - 1)
    else Find(rows[..|rows| - 1], token)
  }

  datatype Refreshed = Refreshed(rows: seq<Row>, issued: bool)

  function NewRow(p: Policy, generation: nat, now: int): (r: Row) {
    Row(generation, now + p.access, now + p.refresh, None, None)
  }

  /** Supersedes one row and adds the next generation; a caller who is no longer a member of the
      company loses the family instead. */
  function RotateOnto(p: Policy, rows: seq<Row>, supersede: nat, current: nat, member: bool, now: int): (r: Refreshed)
    requires supersede < |rows|
  {
    if !member then Refreshed(RevokeFamily(rows, now), false)
    else
      Refreshed(rows[supersede := rows[supersede].(supersededAt := Some(now))] + [NewRow(p, current + 1, now)], true)
  }

  function StateOf(rows: seq<Row>, k: nat): (s: SessionState)
    requires k < |rows|
  {
    SessionState(MaxGeneration(rows), rows[k].refreshExpiresAt, rows[k].revokedAt, rows[k].supersededAt)
  }

  function Decide(p: Policy, rows: seq<Row>, k: nat, now: int): (o: Outcome)
    requires k < |rows|
  {
    EvaluateRefresh(p, StateOf(rows, k), rows[k].generation, now)
  }

  function Refresh(p: Policy, rows: seq<Row>, token: nat, member: bool, now: int): (r: Refreshed) {
    match Find(rows, token)
    case None => Refreshed(rows, false)
    case Some(k) =>
      match Decide(p, rows, k, now)
      case ReuseDetected => Refreshed(RevokeFamily(rows, now), false)
      case Expired => Refreshed(rows, false)
      case Revoked => Refreshed(rows, false)
      case ReplayWithinGrace =>
        (match LiveRow(rows)
         case None => Refreshed(rows, false)
         case Some(live) => RotateOnto(p, rows, live, MaxGeneration(rows), member, now))
      case Rotate => RotateOnto(p, rows, k, MaxGeneration(rows), member, now)
  }

  /** Whether the access token of a row authenticates. */
  predicate Authenticates(row: Row, member: bool, now: int) {
    row.revokedAt.None? && row.supersededAt.None? && row.accessExpiresAt > now && member
  }

  // ---- Runs --------------------------------------------------------------------------------

  /** Everything that happens to the rows of a family. A password change revokes all rows but one of
      the user's; a `keep` the family does not have stands for a session of another family, or none. */
  datatype Step =
    | Present(token: nat, member: bool)
    | SignOut
    | ChangePassword(keep: nat)
    | Purge(age: nat)
    | Wait(millis: nat)

  datatype System = System(rows: seq<Row>, now: int)

  function SignIn(p: Policy, now: int): (s: System) {
    System([NewRow(p, 0, now)], now)
  }

  function Apply(p: Policy, s: System, step: Step): (t: System) {
    match step
    case Present(token, member) => s.(rows := Refresh(p, s.rows, token, member, s.now).rows)
    case SignOut => s.(rows := RevokeFamily(s.rows, s.now))
    case ChangePassword(keep) => s.(rows := RevokeExcept(s.rows, keep, s.now))
    case Purge(age) => s.(rows := Retained(s.rows, s.now - age))
    case Wait(millis) => s.(now := s.now + millis)
  }

  function Run(p: Policy, s: System, steps: seq<Step>): (t: System) {
    if steps == [] then s else Apply(p, Run(p, s, steps[..|steps| - 1]), steps[|steps| - 1])
  }

  /** The whole family is revoked. */
  predicate AllRevoked(rows: seq<Row>) {
    forall k :: 0 <= k < |rows| ==> rows[k].revokedAt.Some?
  }

  /** The newest generation is revoked, or nothing is left. */
  predicate Dead(rows: seq<Row>) {
    rows == [] || rows[|rows| - 1].revokedAt.Some?
  }

  function Newest(rows: seq<Row>): (g: nat)
    requires rows != []
  {
    rows[|rows| - 1].generation
  }

  // ---- What every step keeps ---------------------------------------------------------------

  /** The rows are consecutive generations; all but the newest are superseded, each when its
      successor was issued, and none expires before an older one. */
  ghost predicate Inv(p: Policy, s: System) {
    && (forall k :: 0 <= k < |s.rows| ==> s.rows[k].generation == s.rows[0].generation + k)
    && (forall k :: 0 <= k < |s.rows| ==> (s.rows[k].supersededAt.Some? <==> k < |s.rows| - 1))
    && (forall k :: 0 <= k < |s.rows| - 1 ==> Succeeds(p, s.rows[k], s.rows[k + 1]))
    && (forall k :: 0 <= k < |s.rows| - 1 ==> s.rows[k].supersededAt.Some? && s.rows[k].supersededAt.value <= s.now)
    && (s.rows != [] ==> s.rows[|s.rows| - 1].refreshExpiresAt <= s.now + p.refresh)
  }

  predicate Succeeds(p: Policy, older: Row, newer: Row) {
    && older.supersededAt.Some?
    && newer.refreshExpiresAt == older.supersededAt.value + p.refresh
    && newer.accessExpiresAt == older.supersededAt.value + p.access
    && older.refreshExpiresAt <= newer.refreshExpiresAt
  }

  ghost predicate Consecutive(rows: seq<Row>) {
    forall k :: 0 <= k < |rows| ==> rows[k].generation == rows[0].generation + k
  }

  lemma {:induction false} MaxOfGenerations(rows: seq<Row>)
    requires rows != [] && Consecutive(rows)
    ensures MaxGeneration(rows) == Newest(rows)
  {
    if |rows| > 1 {
      MaxOfGenerations(rows[..|rows| - 1]);
    } else {
      assert rows[..0] == [];
    }
  }

  /** The row of a generation, when the family still has it. */
  function At(rows: seq<Row>, g: nat): (row: Option<Row>) {
    if rows != [] && rows[0].generation <= g < rows[0].generation + |rows| then Some(rows[g - rows[0].generation]) else None
  }

  lemma {:induction false} FindExactly(rows: seq<Row>, token: nat)
    requires Consecutive(rows)
    ensures Find(rows, token) == if At(rows, token).Some? then Some(token - rows[0].generation) else None
  {
    if rows != [] {
      FindExactly(rows[..|rows| - 1], token);
    }
  }

  lemma {:induction false} NoneLive(rows: seq<Row>)
    requires forall k :: 0 <= k < |rows| ==> rows[k].supersededAt.Some?
    ensures LiveRow(rows).None?
  {
    if rows != [] {
      NoneLive(rows[..|rows| - 1]);
    }
  }

  /** The newest generation superseded by one more. */
  function Extended(p: Policy, rows: seq<Row>, now: int): (t: seq<Row>)
    requires rows != []
  {
    var newest := |rows| - 1;
    rows[newest := rows[newest].(supersededAt := Some(now))] + [NewRow(p, rows[newest].generation + 1, now)]
  }

  /** A token still buys a new pair when it is the newest, or the one before it within the grace. */
  predicate Fresh(p: Policy, s: System, k: nat)
    requires k < |s.rows|
  {
    || k == |s.rows| - 1
    || (k == |s.rows| - 2 && s.rows[k].supersededAt.Some? && s.now < s.rows[k].supersededAt.value + p.grace)
  }

  /** What a presentation does, for every token in every reachable state. It is the presented row's
      own revocation that answers Revoked, and the newest row's that keeps a retry from rotating. */
  lemma RefreshExactly(p: Policy, s: System, k: nat, member: bool)
    requires Inv(p, s) && k < |s.rows|
    ensures Refresh(p, s.rows, s.rows[k].generation, member, s.now) ==
            if s.rows[k].revokedAt.Some? || s.now >= s.rows[k].refreshExpiresAt then Refreshed(s.rows, false)
            else if !Fresh(p, s, k) then Refreshed(RevokeFamily(s.rows, s.now), false)
            else if Dead(s.rows) then Refreshed(s.rows, false)
            else if member then Refreshed(Extended(p, s.rows, s.now), true)
            else Refreshed(RevokeFamily(s.rows, s.now), false)
  {
    hide MaxGeneration, RevokeFamily, Find, Succeeds;
    MaxOfGenerations(s.rows);
    FindExactly(s.rows, s.rows[k].generation);
    NoneLive(s.rows[..|s.rows| - 1]);
  }

  lemma UnknownToken(p: Policy, s: System, token: nat, member: bool)
    requires Inv(p, s) && At(s.rows, token).None?
    ensures Refresh(p, s.rows, token, member, s.now) == Refreshed(s.rows, false)
  {
    hide Find;
    FindExactly(s.rows, token);
  }

  /** Rows marked as revoked and otherwise unchanged; a row revoked before keeps its time. */
  ghost predicate OnlyRevokes(before: seq<Row>, after: seq<Row>) {
    && |after| == |before|
    && forall k :: 0 <= k < |after| ==>
         after[k] == before[k].(revokedAt := after[k].revokedAt) && (before[k].revokedAt.Some? ==> after[k] == before[k])
  }

  lemma RevokesMark(rows: seq<Row>, keep: nat, now: int)
    ensures OnlyRevokes(rows, rows)
    ensures OnlyRevokes(rows, RevokeFamily(rows, now)) && AllRevoked(RevokeFamily(rows, now))
    ensures OnlyRevokes(rows, RevokeExcept(rows, keep, now))
  {
  }

  lemma {:induction false} LaterExpireLater(p: Policy, s: System, j: nat, k: nat)
    requires Inv(p, s) && j <= k < |s.rows|
    ensures s.rows[j].refreshExpiresAt <= s.rows[k].refreshExpiresAt
    decreases k
  {
    if j < k {
      LaterExpireLater(p, s, j, k - 1);
      assert Succeeds(p, s.rows[k - 1], s.rows[k - 1 + 1]);
    }
  }

  lemma {:induction false} RetainedAll(rows: seq<Row>, cutoff: int)
    requires forall k :: 0 <= k < |rows| ==> rows[k].refreshExpiresAt >= cutoff
    ensures Retained(rows, cutoff) == rows
  {
    if rows != [] {
      RetainedAll(rows[1..], cutoff);
    }
  }

  /** The purge drops the oldest generations and no others. */
  lemma {:induction false} RetainedIsSuffix(rows: seq<Row>, cutoff: int) returns (n: nat)
    requires forall j, k :: 0 <= j <= k < |rows| ==> rows[j].refreshExpiresAt <= rows[k].refreshExpiresAt
    ensures n <= |rows| && Retained(rows, cutoff) == rows[n..]
    ensures forall k :: 0 <= k < |rows| ==> (k < n <==> rows[k].refreshExpiresAt < cutoff)
  {
    if rows == [] {
      n := 0;
    } else if rows[0].refreshExpiresAt < cutoff {
      n := RetainedIsSuffix(rows[1..], cutoff);
      n := n + 1;
    } else {
      n := 0;
      RetainedAll(rows, cutoff);
    }
  }

  lemma PurgeIsSuffix(p: Policy, s: System, age: nat) returns (n: nat)
    requires Inv(p, s)
    ensures n <= |s.rows| && Retained(s.rows, s.now - age) == s.rows[n..]
    ensures forall k :: 0 <= k < n ==> s.rows[k].refreshExpiresAt < s.now
  {
    hide Inv, Retained;
    forall j, k | 0 <= j <= k < |s.rows| ensures s.rows[j].refreshExpiresAt <= s.rows[k].refreshExpiresAt {
      LaterExpireLater(p, s, j, k);
    }
    n := RetainedIsSuffix(s.rows, s.now - age);
  }

  lemma ExtendKeeps(p: Policy, s: System)
    requires Inv(p, s) && s.rows != []
    ensures Inv(p, s.(rows := Extended(p, s.rows, s.now)))
  {
    var rows, t := s.rows, Extended(p, s.rows, s.now);
    var newest := |rows| - 1;
    assert t[newest] == rows[newest].(supersededAt := Some(s.now)) && t[newest + 1] == NewRow(p, rows[newest].generation + 1, s.now);
    forall k | 0 <= k < newest
      ensures t[k] == rows[k] && Succeeds(p, t[k], t[k + 1])
    {
      assert Succeeds(p, rows[k], rows[k + 1]);
    }
  }

  lemma MarkKeeps(p: Policy, s: System, t: System)
    requires Inv(p, s) && OnlyRevokes(s.rows, t.rows) && t.now >= s.now
    ensures Inv(p, t)
  {
    forall k | 0 <= k < |t.rows| - 1
      ensures Succeeds(p, t.rows[k], t.rows[k + 1])
    {
      assert Succeeds(p, s.rows[k], s.rows[k + 1]);
    }
  }

  lemma SuffixKeeps(p: Policy, s: System, n: nat)
    requires Inv(p, s) && n <= |s.rows|
    ensures Inv(p, s.(rows := s.rows[n..]))
  {
    var t := s.rows[n..];
    forall k | 0 <= k < |t| - 1
      ensures Succeeds(p, t[k], t[k + 1])
    {
      assert Succeeds(p, s.rows[n + k], s.rows[n + k + 1]);
    }
  }

  /** Every step revokes rows, drops expired ones from the old end, or adds a generation to a family
      whose newest is not revoked. */
  lemma StepShapes(p: Policy, s: System, step: Step) returns (n: nat)
    requires Inv(p, s)
    ensures var t := Apply(p, s, step);
            && t.now >= s.now
            && (|| OnlyRevokes(s.rows, t.rows)
                || (&& n <= |s.rows| && t == s.(rows := s.rows[n..])
                    && forall k :: 0 <= k < n ==> s.rows[k].refreshExpiresAt < s.now)
                || (!Dead(s.rows) && t == s.(rows := Extended(p, s.rows, s.now))))
  {
    hide RevokeFamily, RevokeExcept, Retained, Extended, Refresh, OnlyRevokes, Find, Inv;
    n := 0;
    RevokesMark(s.rows, if step.ChangePassword? then step.keep else 0, s.now);
    if step.Purge? {
      n := PurgeIsSuffix(p, s, step.age);
    } else if step.Present? {
      PresentShapes(p, s, step.token, step.member);
    }
  }

  lemma PresentShapes(p: Policy, s: System, token: nat, member: bool)
    requires Inv(p, s)
    ensures var r := Refresh(p, s.rows, token, member, s.now);
            || (!r.issued && (r.rows == s.rows || r.rows == RevokeFamily(s.rows, s.now)))
            || (r.issued && !Dead(s.rows) && r.rows == Extended(p, s.rows, s.now))
  {
    hide RevokeFamily, Extended, Refresh, Succeeds, Fresh;
    if At(s.rows, token).None? {
      UnknownToken(p, s, token, member);
    } else {
      RefreshExactly(p, s, token - s.rows[0].generation, member);
    }
  }

  lemma ApplyKeeps(p: Policy, s: System, step: Step)
    requires Inv(p, s)
    ensures Inv(p, Apply(p, s, step)) && Apply(p, s, step).now >= s.now
  {
    hide Apply, Inv, Extended, OnlyRevokes;
    var t := Apply(p, s, step);
    var n := StepShapes(p, s, step);
    if OnlyRevokes(s.rows, t.rows) {
      MarkKeeps(p, s, t);
    } else if !Dead(s.rows) && t == s.(rows := Extended(p, s.rows, s.now)) {
      ExtendKeeps(p, s);
    } else {
      SuffixKeeps(p, s, n);
    }
  }

  lemma SignInKeeps(p: Policy, now: int)
    ensures Inv(p, SignIn(p, now)) && !Dead(SignIn(p, now).rows)
  {
  }

  lemma {:induction false} RunKeeps(p: Policy, s: System, steps: seq<Step>)
    requires Inv(p, s)
    ensures Inv(p, Run(p, s, steps)) && Run(p, s, steps).now >= s.now
  {
    hide Inv, Apply;
    if steps != [] {
      var front, last := steps[..|steps| - 1], steps[|steps| - 1];
      RunKeeps(p, s, front);
      ApplyKeeps(p, Run(p, s, front), last);
    }
  }

  // ---- Signing out, changing the password, purging -----------------------------------------

  /** Signing out revokes every row and changes nothing else about any: those not revoked before are
      revoked now. */
  lemma SignOutExactly(p: Policy, s: System)
    ensures var t := Apply(p, s, SignOut);
            && |t.rows| == |s.rows| && t.now == s.now
            && forall k :: 0 <= k < |t.rows| ==>
                 t.rows[k] == s.rows[k].(revokedAt := if s.rows[k].revokedAt.None? then Some(s.now) else s.rows[k].revokedAt)
  {
  }

  /** After signing out, whatever the state and in every run: every row is revoked, no pair is issued,
      no access token authenticates and every presentation answers Revoked. */
  lemma SignedOutForGood(p: Policy, s: System, steps: seq<Step>, k: nat, member: bool)
    requires Inv(p, s)
    ensures var u := Apply(p, s, SignOut);
            var t := Run(p, u, steps);
            && (forall j :: 0 <= j < |t.rows| ==> t.rows[j].revokedAt.Some?)
            && Issues(p, u, steps) == 0
            && (k < |t.rows| ==> !Authenticates(t.rows[k], member, t.now) && Decide(p, t.rows, k, t.now) == Revoked)
  {
    hide Run, Inv, Issues, Authenticates, Decide;
    SignOutExactly(p, s);
    ApplyKeeps(p, s, SignOut);
    RevokedForever(p, Apply(p, s, SignOut), steps, k, member);
  }

  /** A password change revokes, in the same way, every row but the kept one. */
  lemma ChangePasswordExactly(p: Policy, s: System, keep: nat)
    ensures var t := Apply(p, s, ChangePassword(keep));
            && |t.rows| == |s.rows| && t.now == s.now
            && forall k :: 0 <= k < |t.rows| ==>
                 t.rows[k] == if s.rows[k].generation == keep then s.rows[k]
                              else s.rows[k].(revokedAt := if s.rows[k].revokedAt.None? then Some(s.now) else s.rows[k].revokedAt)
  {
  }

  /** A purge keeps exactly the rows that did not expire before its cutoff, in their order. */
  lemma PurgeExactly(p: Policy, s: System, age: nat) returns (n: nat)
    requires Inv(p, s)
    ensures n <= |s.rows| && Apply(p, s, Purge(age)) == s.(rows := s.rows[n..])
    ensures forall k :: 0 <= k < |s.rows| ==> (k < n <==> s.rows[k].refreshExpiresAt < s.now - age)
  {
    hide Inv, Retained;
    forall j, k | 0 <= j <= k < |s.rows| ensures s.rows[j].refreshExpiresAt <= s.rows[k].refreshExpiresAt {
      LaterExpireLater(p, s, j, k);
    }
    n := RetainedIsSuffix(s.rows, s.now - age);
  }

  /** What sign-in and each refresh issue: a pair whose tokens live as long as the policy says. */
  lemma NewestLives(p: Policy, s: System, token: nat, member: bool)
    requires Inv(p, s) && Refresh(p, s.rows, token, member, s.now).issued
    ensures var t := Refresh(p, s.rows, token, member, s.now).rows;
            && s.rows != [] && |t| == |s.rows| + 1 && t[|s.rows|].revokedAt.None?
            && t[|s.rows|].accessExpiresAt == s.now + p.access && t[|s.rows|].refreshExpiresAt == s.now + p.refresh
    ensures SignIn(p, s.now).rows == [Row(0, s.now + p.access, s.now + p.refresh, None, None)]
  {
    hide Inv, Refresh;
    PresentShapes(p, s, token, member);
  }

  // ---- Safety over whole runs --------------------------------------------------------------

  predicate RowKeeps(before: Row, after: Row) {
    && after.generation == before.generation
    && after.accessExpiresAt == before.accessExpiresAt && after.refreshExpiresAt == before.refreshExpiresAt
    && (before.supersededAt.Some? ==> after.supersededAt == before.supersededAt)
    && (before.revokedAt.Some? ==> after.revokedAt == before.revokedAt)
  }

  /** Rows that are still there say what they said: their expiry never changes, they are superseded
      once and revoked once. Rows that are gone do not come back. */
  ghost predicate Keeps(before: seq<Row>, after: seq<Row>) {
    && (after != [] ==> before != [] && Newest(after) >= Newest(before))
    && (forall g: nat :: At(before, g).Some? && At(after, g).Some? ==> RowKeeps(At(before, g).value, At(after, g).value))
    && (forall g: nat :: At(after, g).Some? && At(before, g).None? ==> before != [] && g > Newest(before))
  }

  lemma StepKeepsRows(p: Policy, s: System, step: Step)
    requires Inv(p, s)
    ensures Keeps(s.rows, Apply(p, s, step).rows)
  {
    hide Apply, Inv, OnlyRevokes, Extended, Keeps;
    var t := Apply(p, s, step);
    var n := StepShapes(p, s, step);
    if OnlyRevokes(s.rows, t.rows) {
      MarkKeepsRows(p, s, t.rows);
    } else if !Dead(s.rows) && t == s.(rows := Extended(p, s.rows, s.now)) {
      ExtendKeepsRows(p, s);
    } else {
      SuffixKeepsRows(p, s, n);
    }
  }

  lemma MarkKeepsRows(p: Policy, s: System, after: seq<Row>)
    requires Inv(p, s) && OnlyRevokes(s.rows, after)
    ensures Keeps(s.rows, after)
  {
    hide Succeeds;
  }

  lemma ExtendKeepsRows(p: Policy, s: System)
    requires Inv(p, s) && s.rows != []
    ensures Keeps(s.rows, Extended(p, s.rows, s.now))
  {
    hide Succeeds;
  }

  lemma SuffixKeepsRows(p: Policy, s: System, n: nat)
    requires Inv(p, s) && n <= |s.rows|
    ensures Keeps(s.rows, s.rows[n..])
  {
    hide Succeeds;
  }

  /** Over every run a generation's expiry never changes, and it is rotated away and revoked at most
      once. */
  lemma {:induction false} RotatedAwayOnce(p: Policy, s: System, steps: seq<Step>)
    requires Inv(p, s)
    ensures Keeps(s.rows, Run(p, s, steps).rows)
  {
    hide Inv, Apply, RowKeeps;
    if steps == [] {
      KeepsItself(p, s);
    } else {
      var front, last := steps[..|steps| - 1], steps[|steps| - 1];
      RotatedAwayOnce(p, s, front);
      RunKeeps(p, s, front);
      StepKeepsRows(p, Run(p, s, front), last);
      RunKeeps(p, s, steps);
      KeepsThrough(p, s, Run(p, s, front), Run(p, s, steps));
    }
  }

  lemma KeepsItself(p: Policy, s: System)
    requires Inv(p, s)
    ensures Keeps(s.rows, s.rows)
  {
  }

  lemma KeepsThrough(p: Policy, a: System, b: System, c: System)
    requires Inv(p, a) && Inv(p, b) && Inv(p, c)
    requires Keeps(a.rows, b.rows) && Keeps(b.rows, c.rows)
    ensures Keeps(a.rows, c.rows)
  {
    hide Succeeds;
    forall g: nat | At(a.rows, g).Some? && At(c.rows, g).Some?
      ensures RowKeeps(At(a.rows, g).value, At(c.rows, g).value)
    {
      assert At(b.rows, g).Some?;
    }
  }

  /** A presentation by a member leaves the whole family revoked exactly when it was already, or when
      the token is neither revoked nor expired and no longer fresh: two or more generations old, or
      one generation old past the grace. */
  lemma ReuseTearsDown(p: Policy, s: System, k: nat)
    requires Inv(p, s) && k < |s.rows|
    ensures k < |s.rows| - 1 ==> s.rows[k].supersededAt.Some?
    ensures AllRevoked(Apply(p, s, Present(s.rows[k].generation, true)).rows)
       <==> (|| AllRevoked(s.rows)
             || (&& s.rows[k].revokedAt.None? && s.now < s.rows[k].refreshExpiresAt
                 && (k < |s.rows| - 2 || (k == |s.rows| - 2 && s.now >= s.rows[k].supersededAt.value + p.grace))))
  {
    hide Refresh, RevokeFamily, Succeeds;
    RefreshExactly(p, s, k, true);
    RevokesMark(s.rows, 0, s.now);
    if s.rows != [] {
      assert Extended(p, s.rows, s.now)[|s.rows|].revokedAt.None?;
    }
  }

  lemma DeadStep(p: Policy, s: System, step: Step)
    requires Inv(p, s) && Dead(s.rows)
    ensures Dead(Apply(p, s, step).rows) && (AllRevoked(s.rows) ==> AllRevoked(Apply(p, s, step).rows))
    ensures step.Present? ==> !Refresh(p, s.rows, step.token, step.member, s.now).issued
  {
    hide Apply, Refresh, Extended, Inv;
    var n := StepShapes(p, s, step);
    if step.Present? {
      PresentShapes(p, s, step.token, step.member);
    }
  }

  /** Once the newest generation is revoked, by whatever step, no run issues anything again and no
      access token authenticates; once the whole family is, every presentation of a row that is left
      answers Revoked. */
  lemma {:induction false} RevokedForever(p: Policy, s: System, steps: seq<Step>, k: nat, member: bool)
    requires Inv(p, s) && Dead(s.rows)
    ensures var t := Run(p, s, steps);
            && Dead(t.rows) && Issues(p, s, steps) == 0
            && (k < |t.rows| ==> !Authenticates(t.rows[k], member, t.now))
            && (AllRevoked(s.rows) ==> AllRevoked(t.rows) && (k < |t.rows| ==> Decide(p, t.rows, k, t.now) == Revoked))
  {
    hide Inv, Apply, Dead, AllRevoked, Refresh, Decide, Authenticates;
    if steps != [] {
      var front, last := steps[..|steps| - 1], steps[|steps| - 1];
      RevokedForever(p, s, front, k, member);
      RunKeeps(p, s, front);
      DeadStep(p, Run(p, s, front), last);
    }
    RunKeeps(p, s, steps);
    if k < |Run(p, s, steps).rows| {
      DeadAnswers(p, Run(p, s, steps), k, member);
    }
  }

  lemma DeadAnswers(p: Policy, t: System, k: nat, member: bool)
    requires Inv(p, t) && Dead(t.rows) && k < |t.rows|
    ensures !Authenticates(t.rows[k], member, t.now)
    ensures AllRevoked(t.rows) ==> Decide(p, t.rows, k, t.now) == Revoked
  {
    hide MaxGeneration;
  }

  /** At most one access token of a family authenticates: the newest, when it is not revoked. */
  lemma OnlyNewestAuthenticates(p: Policy, s: System, k: nat, member: bool)
    requires Inv(p, s) && k < |s.rows|
    ensures Authenticates(s.rows[k], member, s.now)
       <==> k == |s.rows| - 1 && !Dead(s.rows) && s.rows[k].accessExpiresAt > s.now && member
  {
  }

  /** How many pairs are issued. */
  function Issues(p: Policy, s: System, steps: seq<Step>): (n: nat) {
    if steps == [] then 0
    else
      var before, last := Run(p, s, steps[..|steps| - 1]), steps[|steps| - 1];
      Issues(p, s, steps[..|steps| - 1])
      + if last.Present? && Refresh(p, before.rows, last.token, last.member, before.now).issued then 1 else 0
  }

  /** Every pair is a generation of its own: the newest one's number counts the pairs, as long as
      the family has not been purged. */
  lemma {:induction false} PairsAreGenerations(p: Policy, s: System, steps: seq<Step>)
    requires Inv(p, s)
    ensures var t := Run(p, s, steps);
            t.rows != [] ==> s.rows != [] && Newest(t.rows) == Newest(s.rows) + Issues(p, s, steps)
  {
    hide Inv, Apply, Refresh;
    if steps != [] {
      var front, last := steps[..|steps| - 1], steps[|steps| - 1];
      PairsAreGenerations(p, s, front);
      RunKeeps(p, s, front);
      OnePair(p, Run(p, s, front), last);
    }
  }

  lemma OnePair(p: Policy, s: System, step: Step)
    requires Inv(p, s)
    ensures var t := Apply(p, s, step);
            t.rows != [] ==>
              && s.rows != []
              && Newest(t.rows) == Newest(s.rows)
                 + if step.Present? && Refresh(p, s.rows, step.token, step.member, s.now).issued then 1 else 0
  {
    hide Refresh, RevokeFamily, Retained, Inv;
    if step.Present? {
      PresentShapes(p, s, step.token, step.member);
      RevokesMark(s.rows, 0, s.now);
    } else if step.Purge? {
      var n := PurgeIsSuffix(p, s, step.age);
    } else {
      RevokesMark(s.rows, if step.ChangePassword? then step.keep else 0, s.now);
    }
  }

  /** Deleting expired rows never changes whether a presentation issues a pair. */
  lemma PurgeIsInvisible(p: Policy, s: System, age: nat, token: nat, member: bool)
    requires Inv(p, s)
    ensures Refresh(p, Retained(s.rows, s.now - age), token, member, s.now).issued
         == Refresh(p, s.rows, token, member, s.now).issued
  {
    hide Refresh, RevokeFamily, Extended, Retained, Succeeds;
    var n := PurgeIsSuffix(p, s, age);
    SuffixKeeps(p, s, n);
    var t := s.(rows := s.rows[n..]);
    if At(s.rows, token).None? {
      UnknownToken(p, s, token, member);
      UnknownToken(p, t, token, member);
    } else {
      var k := token - s.rows[0].generation;
      RefreshExactly(p, s, k, member);
      if k < n {
        UnknownToken(p, t, token, member);
      } else {
        assert t.rows[k - n] == s.rows[k];
        RefreshExactly(p, t, k - n, member);
      }
    }
  }

  // ---- How often one token can be used -----------------------------------------------------

  /** The token is found, not revoked and not expired. */
  predicate Usable(s: System, token: nat) {
    var row := At(s.rows, token);
    row.Some? && row.value.revokedAt.None? && s.now < row.value.refreshExpiresAt
  }

  /** How often the token is presented while it is usable. */
  function Uses(p: Policy, s: System, steps: seq<Step>, token: nat): (n: nat) {
    if steps == [] then 0
    else
      var before, last := Run(p, s, steps[..|steps| - 1]), steps[|steps| - 1];
      Uses(p, s, steps[..|steps| - 1], token) + if last.Present? && last.token == token && Usable(before, token) then 1 else 0
  }

  /** How often a token can still be presented without tearing the family down. */
  function Remaining(rows: seq<Row>, token: nat): (n: nat) {
    if rows == [] || token + 1 < Newest(rows) then 0 else if token + 1 == Newest(rows) then 1 else 2
  }

  lemma OneUse(p: Policy, s: System, step: Step, token: nat)
    requires Inv(p, s) && !Dead(s.rows)
    ensures var t := Apply(p, s, step);
            || Dead(t.rows)
            || Remaining(t.rows, token) + (if step.Present? && step.token == token && Usable(s, token) then 1 else 0)
               <= Remaining(s.rows, token)
  {
    hide Apply, Succeeds;
    OnePair(p, s, step);
    if step.Present? && step.token == token && Usable(s, token) {
      UsedUp(p, s, token, step.member);
    }
  }

  lemma UsedUp(p: Policy, s: System, token: nat, member: bool)
    requires Inv(p, s) && !Dead(s.rows) && Usable(s, token)
    ensures var t := Apply(p, s, Present(token, member));
            Dead(t.rows) || Remaining(t.rows, token) + 1 <= Remaining(s.rows, token)
  {
    hide Refresh, RevokeFamily, Succeeds;
    RefreshExactly(p, s, token - s.rows[0].generation, member);
    RevokesMark(s.rows, 0, s.now);
  }

  lemma {:induction false} UsesBounded(p: Policy, s: System, steps: seq<Step>, token: nat)
    requires Inv(p, s)
    ensures Uses(p, s, steps, token) + Remaining(Run(p, s, steps).rows, token) <= 2 || Dead(Run(p, s, steps).rows)
  {
    hide Inv, Apply, Dead, Remaining, Usable;
    if steps == [] {
      RemainingBounded(s.rows, token);
    } else {
      var front, last := steps[..|steps| - 1], steps[|steps| - 1];
      var before := Run(p, s, front);
      UsesBounded(p, s, front, token);
      RunKeeps(p, s, front);
      if Dead(before.rows) {
        DeadStep(p, before, last);
      } else {
        OneUse(p, before, last, token);
      }
    }
  }

  lemma RemainingBounded(rows: seq<Row>, token: nat)
    ensures Remaining(rows, token) <= 2
  {
  }

  // ---- Whole families, and password changes ------------------------------------------------

  /** The revoked rows are the oldest ones, or all. */
  ghost predicate OldestRevoked(rows: seq<Row>) {
    forall j, k :: 0 <= j < k < |rows| && rows[k].revokedAt.Some? ==> rows[j].revokedAt.Some?
  }

  /** A password change keeps the newest row of the family or none of it. It keeps an older one only
      if the session was refreshed between the request's authentication and the update. */
  predicate KeepsNewestOrNone(rows: seq<Row>, keep: nat) {
    rows == [] || keep == Newest(rows) || At(rows, keep).None?
  }

  predicate NoStaleKeep(p: Policy, s: System, steps: seq<Step>) {
    steps == []
    || (&& NoStaleKeep(p, s, steps[..|steps| - 1])
        && var last := steps[|steps| - 1];
           last.ChangePassword? ==> KeepsNewestOrNone(Run(p, s, steps[..|steps| - 1]).rows, last.keep))
  }

  lemma OldestStep(p: Policy, s: System, step: Step)
    requires Inv(p, s) && OldestRevoked(s.rows)
    requires step.ChangePassword? ==> KeepsNewestOrNone(s.rows, step.keep)
    ensures OldestRevoked(Apply(p, s, step).rows)
  {
    hide Refresh, Retained, Succeeds;
    if step.Present? {
      PresentShapes(p, s, step.token, step.member);
      RevokesMark(s.rows, 0, s.now);
    } else if step.Purge? {
      var n := PurgeIsSuffix(p, s, step.age);
    }
  }

  lemma {:induction false} OldestRun(p: Policy, s: System, steps: seq<Step>)
    requires Inv(p, s) && OldestRevoked(s.rows) && NoStaleKeep(p, s, steps)
    ensures OldestRevoked(Run(p, s, steps).rows)
  {
    hide Inv, Apply, OldestRevoked, KeepsNewestOrNone;
    if steps != [] {
      var front, last := steps[..|steps| - 1], steps[|steps| - 1];
      OldestRun(p, s, front);
      RunKeeps(p, s, front);
      OldestStep(p, Run(p, s, front), last);
    }
  }

  /** Whoever holds it, one token is worth at most two presentations: by the third while it is neither
      revoked nor expired, in any run from sign-in and with anything in between, the family issues
      nothing more, and the whole of it is revoked unless a password change kept an outdated row. The
      retry inside the grace window counts as one, because it moves the family on. */
  lemma ThirdUseTearsDown(p: Policy, now: int, steps: seq<Step>, token: nat)
    requires Uses(p, SignIn(p, now), steps, token) >= 3
    ensures Dead(Run(p, SignIn(p, now), steps).rows)
    ensures NoStaleKeep(p, SignIn(p, now), steps) ==> AllRevoked(Run(p, SignIn(p, now), steps).rows)
  {
    hide Run, Uses, NoStaleKeep, Inv, Remaining;
    SignInKeeps(p, now);
    UsesBounded(p, SignIn(p, now), steps, token);
    if NoStaleKeep(p, SignIn(p, now), steps) {
      OldestRun(p, SignIn(p, now), steps);
    }
  }

  /** Three presentations at once: the first and the second each buy a pair, the third is a use too and
      revokes all three rows. */
  lemma ThirdUseHappens(p: Policy, now: int)
    requires p.refresh > 0 && p.grace > 0
    ensures var steps := [Present(0, true), Present(0, true), Present(0, true)];
            && Uses(p, SignIn(p, now), steps, 0) == 3 && Issues(p, SignIn(p, now), steps) == 2
            && |Run(p, SignIn(p, now), steps).rows| == 3 && AllRevoked(Run(p, SignIn(p, now), steps).rows)
  {
    hide Refresh, Run, Uses, Issues, RevokeFamily, Extended;
    var present, s0 := Present(0, true), SignIn(p, now);
    var s1 := AfterFirstRefresh(p, now);
    FirstRefresh(p, now);
    var s2 := s1.(rows := Extended(p, s1.rows, now));
    assert [present] == [] + [present] && [present, present] == [present] + [present];
    assert [present, present, present] == [present, present] + [present];
    OneMoreStep(p, s0, [], present, 0);
    OneMoreStep(p, s0, [present], present, 0);
    OneMoreStep(p, s0, [present, present], present, 0);
    FirstTwoRefreshes(p, now);
    ExtendKeeps(p, s1);
    RefreshExactly(p, s2, 0, true);
    RevokesMark(s2.rows, 0, now);
  }

  lemma OneMoreStep(p: Policy, s: System, steps: seq<Step>, last: Step, token: nat)
    ensures Run(p, s, []) == s && Uses(p, s, [], token) == 0 && Issues(p, s, []) == 0
    ensures var before := Run(p, s, steps);
            && Run(p, s, steps + [last]) == Apply(p, before, last)
            && Uses(p, s, steps + [last], token)
               == Uses(p, s, steps, token) + (if last.Present? && last.token == token && Usable(before, token) then 1 else 0)
            && Issues(p, s, steps + [last])
               == Issues(p, s, steps)
                  + (if last.Present? && Refresh(p, before.rows, last.token, last.member, before.now).issued then 1 else 0)
  {
    assert (steps + [last])[..|steps|] == steps;
  }

  lemma FirstTwoRefreshes(p: Policy, now: int)
    requires p.refresh > 0 && p.grace > 0
    ensures var first, second := SignIn(p, now), AfterFirstRefresh(p, now);
            && |second.rows| == 2 && |Extended(p, second.rows, now)| == 3
            && Refresh(p, first.rows, 0, true, now) == Refreshed(second.rows, true)
            && Refresh(p, second.rows, 0, true, now) == Refreshed(Extended(p, second.rows, now), true)
            && Usable(first, 0) && Usable(second, 0) && Usable(second.(rows := Extended(p, second.rows, now)), 0)
            && !Fresh(p, second.(rows := Extended(p, second.rows, now)), 0)
            && Extended(p, second.rows, now)[0].generation == 0
  {
    hide Refresh;
    FirstRefresh(p, now);
    SignInKeeps(p, now);
    RefreshExactly(p, SignIn(p, now), 0, true);
    RefreshExactly(p, AfterFirstRefresh(p, now), 0, true);
  }

  /** After a password change that kept generation `kept`: everything is revoked, or exactly the
      generations before it are. */
  ghost predicate SplitAt(rows: seq<Row>, kept: nat) {
    AllRevoked(rows) || forall k :: 0 <= k < |rows| ==> (rows[k].revokedAt.Some? <==> rows[k].generation < kept)
  }

  lemma SplitStep(p: Policy, s: System, step: Step, kept: nat)
    requires Inv(p, s) && SplitAt(s.rows, kept) && !step.ChangePassword?
    ensures SplitAt(Apply(p, s, step).rows, kept)
  {
    hide Refresh, Retained, Succeeds;
    if step.Present? {
      PresentShapes(p, s, step.token, step.member);
      RevokesMark(s.rows, 0, s.now);
    } else if step.Purge? {
      var n := PurgeIsSuffix(p, s, step.age);
    }
  }

  lemma {:induction false} SplitRun(p: Policy, s: System, steps: seq<Step>, kept: nat)
    requires Inv(p, s) && SplitAt(s.rows, kept)
    requires forall i :: 0 <= i < |steps| ==> !steps[i].ChangePassword?
    ensures SplitAt(Run(p, s, steps).rows, kept)
  {
    hide Inv, Apply, SplitAt;
    if steps != [] {
      var front, last := steps[..|steps| - 1], steps[|steps| - 1];
      SplitRun(p, s, front, kept);
      RunKeeps(p, s, front);
      SplitStep(p, Run(p, s, front), last, kept);
    }
  }

  /** After a password change on the newest generation, reuse of a token still tears the family down
      exactly when the token was issued no earlier than the kept one: older tokens were revoked with
      the change, are answered Revoked and no longer give a thief away. */
  lemma ReuseAfterPasswordChange(p: Policy, s: System, steps: seq<Step>, k: nat)
    requires Inv(p, s) && !Dead(s.rows)
    requires forall i :: 0 <= i < |steps| ==> !steps[i].ChangePassword?
    requires k < |Run(p, Apply(p, s, ChangePassword(Newest(s.rows))), steps).rows|
    ensures var t, kept := Run(p, Apply(p, s, ChangePassword(Newest(s.rows))), steps), Newest(s.rows);
            (AllRevoked(Apply(p, t, Present(t.rows[k].generation, true)).rows)
             <==> (|| AllRevoked(t.rows)
                   || (t.rows[k].generation >= kept && t.now < t.rows[k].refreshExpiresAt && !Fresh(p, t, k))))
  {
    hide Run, Apply, Inv;
    var u := Apply(p, s, ChangePassword(Newest(s.rows)));
    ApplyKeeps(p, s, ChangePassword(Newest(s.rows)));
    ChangeSplits(p, s);
    SplitRun(p, u, steps, Newest(s.rows));
    RunKeeps(p, u, steps);
    ReuseTearsDown(p, Run(p, u, steps), k);
  }

  lemma ChangeSplits(p: Policy, s: System)
    requires Inv(p, s) && !Dead(s.rows)
    ensures SplitAt(Apply(p, s, ChangePassword(Newest(s.rows))).rows, Newest(s.rows))
  {
    hide Succeeds;
  }

  function AfterFirstRefresh(p: Policy, now: int): (s: System) {
    System(Extended(p, SignIn(p, now).rows, now), now)
  }

  lemma FirstRefresh(p: Policy, now: int)
    requires p.refresh > 0
    ensures Apply(p, SignIn(p, now), Present(0, true)) == AfterFirstRefresh(p, now)
    ensures Inv(p, AfterFirstRefresh(p, now)) && |AfterFirstRefresh(p, now).rows| == 2
  {
    hide Refresh;
    SignInKeeps(p, now);
    RefreshExactly(p, SignIn(p, now), 0, true);
    ExtendKeeps(p, SignIn(p, now));
  }

  /** Sign in, refresh once, change the password: the family is partly revoked. The old token is
      answered without effect, although it is unexpired, and the newest goes on issuing. */
  lemma PasswordChangeKeepsNewest(p: Policy, now: int)
    requires p.refresh > 0
    ensures var t := Run(p, SignIn(p, now), [Present(0, true), ChangePassword(1)]);
            && |t.rows| == 2 && t.rows[0].revokedAt.Some? && t.rows[1].revokedAt.None?
            && Refresh(p, t.rows, 0, true, t.now + p.grace) == Refreshed(t.rows, false)
            && Refresh(p, t.rows, 1, true, t.now).issued
  {
    hide Refresh;
    var s := AfterFirstRefresh(p, now);
    TwoSteps(p, SignIn(p, now), Present(0, true), ChangePassword(1));
    FirstRefresh(p, now);
    var t := Apply(p, s, ChangePassword(1));
    ApplyKeeps(p, s, ChangePassword(1));
    RefreshExactly(p, t, 1, true);
    var later := Apply(p, t, Wait(p.grace));
    ApplyKeeps(p, t, Wait(p.grace));
    RefreshExactly(p, later, 0, true);
  }

  /** Had the session been refreshed between the authentication of the request and the change, the
      outdated row is the one that is kept: neither token of the family issues anything again, and
      inside the grace the kept one can be presented without effect any number of times. */
  lemma OutdatedKeepEndsFamily(p: Policy, now: int, steps: seq<Step>)
    requires p.refresh > 0
    ensures var t := Run(p, SignIn(p, now), [Present(0, true), ChangePassword(0)]);
            && |t.rows| == 2 && t.rows[0].revokedAt.None? && t.rows[1].revokedAt.Some?
            && Issues(p, t, steps) == 0
            && (p.grace > 0 ==> Refresh(p, t.rows, 0, true, t.now) == Refreshed(t.rows, false))
  {
    hide Refresh, Issues;
    var s := AfterFirstRefresh(p, now);
    TwoSteps(p, SignIn(p, now), Present(0, true), ChangePassword(0));
    FirstRefresh(p, now);
    ApplyKeeps(p, s, ChangePassword(0));
    RevokedForever(p, Apply(p, s, ChangePassword(0)), steps, 0, true);
    RefreshExactly(p, Apply(p, s, ChangePassword(0)), 0, true);
  }

  lemma TwoSteps(p: Policy, s: System, first: Step, second: Step)
    ensures Run(p, s, [first, second]) == Apply(p, Apply(p, s, first), second)
  {
    hide Apply;
    assert [first, second][..1] == [first] && [first][..0] == [];
    assert Run(p, s, [first]) == Apply(p, s, first);
  }
}
