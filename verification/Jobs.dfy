/** The jobs table and its guarded updates (job_service.py), and one runner's sweep
    (job_runner_service.py). Each SQL statement is one atomic step on the table. */
module Jobs {
  import opened Common
  import opened Keyset

  type JobId = nat
  type RunnerId = nat

  /** The five statuses of the lifecycle, and any other text: the column is an unrestricted string of at
      most 32 characters. */
  datatype Status = Pending | Suspended | Running | Completed | Error | Other(text: string)

  const STATUS_WIDTH := 32

  function StatusOf(text: string): Status {
    if text == "PENDING" then Pending
    else if text == "SUSPENDED" then Suspended
    else if text == "RUNNING" then Running
    else if text == "COMPLETED" then Completed
    else if text == "ERROR" then Error
    else Other(text)
  }

  /** The column's text. */
  function StatusText(s: Status): string {
    match s
    case Pending => "PENDING"
    case Suspended => "SUSPENDED"
    case Running => "RUNNING"
    case Completed => "COMPLETED"
    case Error => "ERROR"
    case Other(text) => text
  }

  /** Reading a text and writing it back gives the text, and no text of the lifecycle hides in Other. */
  lemma StatusOfText(text: string)
    ensures StatusText(StatusOf(text)) == text
    ensures StatusOf(text).Other? <==> text !in {"PENDING", "SUSPENDED", "RUNNING", "COMPLETED", "ERROR"}
  {
  }

  predicate Storable(s: Status) { s.Other? ==> |s.text| <= STATUS_WIDTH }

  predicate Terminal(s: Status) { s == Completed || s == Error }

  /** By its text. */
  lemma TerminalText(text: string)
    ensures Terminal(StatusOf(text)) <==> text == "COMPLETED" || text == "ERROR"
  {
  }

  datatype Job = Job(status: Status, runner: Option<RunnerId>, startedAt: Option<Time>, maxSeconds: int,
                     detail: Option<string>, details: string)

  type Table = map<JobId, Job>

  predicate IdLess(a: JobId, b: JobId) { a < b }

  lemma IdOrderTotal()
    ensures StrictTotal(IdLess)
  {
  }

  function PendingIds(rows: Table): set<JobId> {
    set id | id in rows && rows[id].status == Pending
  }

  /** Rows counted against a runner's max_concurrent_jobs. */
  function RunningOf(rows: Table, runner: RunnerId): set<JobId> {
    set id | id in rows && rows[id].status == Running && rows[id].runner == Some(runner)
  }

  // ---------------------------------------------------------------- the statements

  /** SELECT id WHERE status = PENDING ORDER BY id LIMIT n. */
  function Candidates(rows: Table, limit: nat): seq<JobId> {
    IdOrderTotal();
    Smallest(IdLess, PendingIds(rows), limit)
  }

  /** UPDATE ... WHERE id IN ids AND status = PENDING. */
  function ClaimUpdate(rows: Table, ids: seq<JobId>, runner: RunnerId, now: Time): Table {
    map id | id in rows ::
      if id in ids && rows[id].status == Pending
      then rows[id].(status := Running, runner := Some(runner), startedAt := Some(now))
      else rows[id]
  }

  /** The rows that update touches. */
  function ClaimHits(rows: Table, ids: seq<JobId>): set<JobId> {
    set id | id in ids && id in rows && rows[id].status == Pending
  }

  /** WHERE id AND runner_id = own AND status = RUNNING. */
  predicate OwnsRun(rows: Table, id: JobId, runner: RunnerId) {
    id in rows && rows[id].status == Running && rows[id].runner == Some(runner)
  }

  function CompleteUpdate(rows: Table, id: JobId, runner: RunnerId, status: Status, detail: Option<string>,
                          details: Option<string>): Table {
    if OwnsRun(rows, id, runner)
    then rows[id := rows[id].(status := status, detail := detail, details := details.GetOr(rows[id].details))]
    else rows
  }

  predicate Overdue(j: Job, now: Time) {
    j.status == Running && j.startedAt.Some? && j.startedAt.value < now - j.maxSeconds * SECOND
  }

  const RECOVERY_DETAIL := "dead-runner/timeout recovery: run exceeded max_seconds_for_run"

  function RecoverUpdate(rows: Table, now: Time): Table {
    map id | id in rows ::
      if Overdue(rows[id], now) then rows[id].(status := Error, detail := Some(RECOVERY_DETAIL)) else rows[id]
  }

  // ---------------------------------------------------------------- what they achieve

  /** A claim of any candidate list moves only rows that are still PENDING at the update, whatever was
      selected earlier, and raises the runner's RUNNING rows by no more than the list's length. */
  lemma ClaimIsGuarded(rows: Table, ids: seq<JobId>, runner: RunnerId, now: Time)
    ensures var after := ClaimUpdate(rows, ids, runner, now);
      && after.Keys == rows.Keys
      && (forall id :: id in rows && after[id] != rows[id] ==>
          rows[id].status == Pending && after[id].status == Running)
      && RunningOf(after, runner) == RunningOf(rows, runner) + ClaimHits(rows, ids)
      && |RunningOf(after, runner)| <= |RunningOf(rows, runner)| + |ids|
  {
    var after := ClaimUpdate(rows, ids, runner, now);
    assert RunningOf(after, runner) == RunningOf(rows, runner) + ClaimHits(rows, ids);
    HitsSize(rows, ids);
    UnionSize(RunningOf(rows, runner), ClaimHits(rows, ids));
  }

  lemma HitsSize(rows: Table, ids: seq<JobId>)
    ensures |ClaimHits(rows, ids)| <= |ids|
  {
    ElementsSize(ids);
    SubsetSize(ClaimHits(rows, ids), Elements(ids));
  }

  lemma UnionSize<T>(a: set<T>, b: set<T>)
    ensures |a + b| <= |a| + |b|
    ensures a !! b ==> |a + b| == |a| + |b|
  {
    assert a + b == a + (b - a);
    SubsetSize(b - a, b);
  }

  lemma {:induction false} ElementsSize<T>(q: seq<T>)
    ensures |Elements(q)| <= |q|
  {
    if q != [] {
      ElementsSize(q[1..]);
      assert Elements(q) == {q[0]} + Elements(q[1..]);
    }
  }

  /** Two runners that selected overlapping candidates never both get a row: whichever update comes
      second finds none of the first one's rows PENDING. */
  lemma ConcurrentClaimsDisjoint(rows: Table, ids1: seq<JobId>, r1: RunnerId, t1: Time, ids2: seq<JobId>)
    ensures ClaimHits(rows, ids1) !! ClaimHits(ClaimUpdate(rows, ids1, r1, t1), ids2)
  {
  }

  /** Deadline recovery leaves no overdue row, touches only overdue rows, and repeated at the same
      instant it changes nothing. */
  lemma RecoveryIsCompleteAndIdempotent(rows: Table, now: Time)
    ensures var after := RecoverUpdate(rows, now);
      && after.Keys == rows.Keys
      && (forall id :: id in after ==> !Overdue(after[id], now))
      && (forall id :: id in rows ==>
          if Overdue(rows[id], now) then after[id].status == Error else after[id] == rows[id])
      && RecoverUpdate(after, now) == after
  {
    var after := RecoverUpdate(rows, now);
    assert forall id :: id in after ==> !Overdue(after[id], now);
    assert RecoverUpdate(after, now) == after;
  }

  /** What recovery reaches, exactly: it changes a row if and only if the row is RUNNING and more than its limit has
      passed since its start; then it makes it ERROR and leaves owner, start and limit. So a run within its
      deadline is spared. */
  lemma RecoveryReachesExactly(rows: Table, now: Time, id: JobId)
    requires id in rows
    ensures var j, after := rows[id], RecoverUpdate(rows, now);
      && id in after
      && (after[id] != j <==>
           j.status == Running && j.startedAt.Some? && now - j.startedAt.value > j.maxSeconds * SECOND)
      && (after[id] != j ==>
          after[id] == Job(Error, j.runner, j.startedAt, j.maxSeconds, Some(RECOVERY_DETAIL), j.details))
  {
  }

  /** The bound the request schemas put on max_seconds_for_run. */
  predicate LimitsPositive(rows: Table) { forall id :: id in rows ==> rows[id].maxSeconds >= 1 }

  /** A claim made no earlier than the recovery before it leaves nothing that was overdue then, and like the
      recovery it leaves terminal rows alone. */
  lemma ClaimAfterRecovery(rows: Table, ids: seq<JobId>, runner: RunnerId, recoverAt: Time, claimAt: Time)
    ensures var after := ClaimUpdate(RecoverUpdate(rows, recoverAt), ids, runner, claimAt);
      && (recoverAt <= claimAt && LimitsPositive(rows) ==> forall id :: id in after ==> !Overdue(after[id], recoverAt))
      && (forall id :: id in rows && Terminal(rows[id].status) ==> id in after && after[id] == rows[id])
  {
    RecoveryIsCompleteAndIdempotent(rows, recoverAt);
  }

  /** How many more jobs a runner may take. */
  function Room(rows: Table, runner: RunnerId, max: nat): nat {
    if max > |RunningOf(rows, runner)| then max - |RunningOf(rows, runner)| else 0
  }

  /** What the count is for: claiming the candidates there is room for never takes a runner above its
      maximum (or above what it already had), and fills it exactly when enough jobs are PENDING. */
  lemma RoomIsExact(rows: Table, runner: RunnerId, max: nat, now: Time)
    ensures var after := ClaimUpdate(rows, Candidates(rows, Room(rows, runner, max)), runner, now);
      && (|RunningOf(rows, runner)| >= max ==> after == rows)
      && (|RunningOf(rows, runner)| < max ==> |RunningOf(after, runner)| <= max)
      && (|RunningOf(rows, runner)| < max ==>
          (|RunningOf(after, runner)| == max <==> |PendingIds(rows)| >= Room(rows, runner, max)))
  {
    var room := Room(rows, runner, max);
    var ids := Candidates(rows, room);
    IdOrderTotal();
    SmallestMeetsOrderLimit(IdLess, PendingIds(rows), room);
    if room > 0 {
      ClaimIsGuarded(rows, ids, runner, now);
      ListedHits(rows, ids);
      UnionSize(RunningOf(rows, runner), ClaimHits(rows, ids));
    }
  }

  /** Distinct PENDING ids are all hit. */
  lemma ListedHits(rows: Table, ids: seq<JobId>)
    requires Ascending(IdLess, ids) && forall id :: id in ids ==> id in PendingIds(rows)
    ensures |ClaimHits(rows, ids)| == |ids|
  {
    IdOrderTotal();
    AscendingNoDuplicates(IdLess, ids);
    assert ClaimHits(rows, ids) == Elements(ids);
  }

  /** The candidates are the smallest PENDING ids, in order, as many as there are up to the limit. */
  lemma CandidatesAreSmallest(rows: Table, limit: nat)
    ensures var ids := Candidates(rows, limit);
      && (forall i, j :: 0 <= i < j < |ids| ==> ids[i] < ids[j])
      && (forall id :: id in ids ==> id in rows && rows[id].status == Pending)
      && (forall id, other :: id in ids && other in rows && rows[other].status == Pending && other !in ids ==>
          id < other)
      && |ids| == if limit <= |PendingIds(rows)| then limit else |PendingIds(rows)|
  {
    IdOrderTotal();
    var ids := Candidates(rows, limit);
    SmallestMeetsOrderLimit(IdLess, PendingIds(rows), limit);
    forall i, j | 0 <= i < j < |ids| ensures ids[i] < ids[j] { assert IdLess(ids[i], ids[j]); }
    forall id | id in ids ensures id in PendingIds(rows) {}
    forall id, other | id in ids && other in rows && rows[other].status == Pending && other !in ids ensures id < other {
      assert other in PendingIds(rows);
      assert IdLess(other, id) ==> other in ids;
    }
  }

  /** A claim of the smallest PENDING ids, in order, as many as there are up to the limit: each becomes RUNNING, owned
      and started now, and keeps its other columns; no other row changes. */
  ghost predicate SmallestClaimed(was: Table, rows: Table, claimed: seq<JobId>, limit: nat, runner: RunnerId,
                                  now: Time) {
    && |claimed| == (if limit <= |PendingIds(was)| then limit else |PendingIds(was)|)
    && (forall i, j :: 0 <= i < j < |claimed| ==> claimed[i] < claimed[j])
    && (forall id :: id in claimed ==> id in was && was[id].status == Pending)
    && (forall id, other :: id in claimed && other in PendingIds(was) && other !in claimed ==> id < other)
    && rows.Keys == was.Keys
    && (forall id :: id in was ==>
          rows[id] == if id !in claimed then was[id]
                      else Job(Running, Some(runner), Some(now), was[id].maxSeconds, was[id].detail, was[id].details))
  }

  lemma ClaimsSmallest(rows: Table, limit: nat, runner: RunnerId, now: Time)
    ensures var ids := Candidates(rows, limit);
      SmallestClaimed(rows, ClaimUpdate(rows, ids, runner, now), ids, limit, runner, now)
  {
    CandidatesAreSmallest(rows, limit);
  }

  // ---------------------------------------------------------------- the service

  /** What a job body ends with: a returned JobRun, whose status the model type leaves open, or a raised
      exception. */
  datatype Outcome = Returned(status: string, detail: Option<string>) | Raised(kind: string, text: string)

  function OutcomeStatus(o: Outcome): Status { if o.Returned? then StatusOf(o.status) else Error }

  function OutcomeDetail(o: Outcome): Option<string> {
    if o.Returned? then o.detail else Some(o.kind + ": " + o.text)
  }

  /** A member of a partial update: absent, null, or a value. */
  datatype Patch<+T> = Unset | Null | Set(value: T)

  datatype JobError = JobNotFound(id: JobId) | PermissionScope | NotNullViolation | ValueTooLong

  class JobService {
    var rows: Table

    constructor ()
      ensures rows == map[]
    {
      rows := map[];
    }

    method Create(id: JobId, status: Status, maxSeconds: int, detail: Option<string>, details: string, inScope: bool)
      returns (r: Result<Job, JobError>)
      requires id !in rows && (status == Pending || status == Suspended)
      modifies this
      ensures inScope ==>
        r == Ok(Job(status, None, None, maxSeconds, detail, details)) && rows == old(rows)[id := r.value]
      ensures !inScope ==> r == Err(PermissionScope) && rows == old(rows)
    {
      var job := Job(status, None, None, maxSeconds, detail, details);
      if !inScope {
        return Err(PermissionScope);
      }
      rows := rows[id := job];
      return Ok(job);
    }

    /** Claim-on-insert when the runner can run the job now, a PENDING row otherwise. */
    method CreateRunnerOwned(id: JobId, runner: RunnerId, runNow: bool, maxSeconds: int, detail: Option<string>,
                             details: string, now: Time)
      requires id !in rows
      modifies this
      ensures rows.Keys == old(rows).Keys + {id} && forall k :: k in old(rows) ==> rows[k] == old(rows)[k]
      ensures rows[id].runner == Some(runner) && rows[id].maxSeconds == maxSeconds
      ensures rows[id].detail == detail && rows[id].details == details
      ensures runNow <==> OwnsRun(rows, id, runner)
      ensures runNow ==> rows[id].startedAt == Some(now)
      ensures !runNow ==> id in PendingIds(rows) && rows[id].startedAt == None
    {
      rows := rows[id := Job(if runNow then Running else Pending, Some(runner), if runNow then Some(now) else None,
                             maxSeconds, detail, details)];
    }

    /** A client's partial update: the given columns are overwritten whatever the row's status. A null is a
        value for detail, is ignored for the job's details, and violates a constraint elsewhere. */
    method Update(id: JobId, status: Patch<Status>, detail: Patch<string>, maxSeconds: Patch<int>,
                  details: Patch<string>)
      returns (r: Result<Job, JobError>)
      requires status.Set? ==> status.value == Pending || status.value == Suspended
      modifies this
      ensures id !in old(rows) ==> r == Err(JobNotFound(id))
      ensures id in old(rows) && (status.Null? || maxSeconds.Null?) ==> r == Err(NotNullViolation)
      ensures id in old(rows) && !status.Null? && !maxSeconds.Null? ==> r.Ok?
      ensures r.Err? ==> rows == old(rows)
      ensures r.Ok? ==> rows == old(rows)[id := r.value]
      ensures r.Ok? ==> r.value.status == (if status.Set? then status.value else old(rows)[id].status)
      ensures r.Ok? ==>
        r.value.detail == (if detail.Unset? then old(rows)[id].detail
                             else if detail.Set? then Some(detail.value) else None)
      ensures r.Ok? ==> r.value.maxSeconds == (if maxSeconds.Set? then maxSeconds.value else old(rows)[id].maxSeconds)
      ensures r.Ok? ==> r.value.details == (if details.Set? then details.value else old(rows)[id].details)
      ensures r.Ok? ==> r.value.runner == old(rows)[id].runner && r.value.startedAt == old(rows)[id].startedAt
    {
      if id !in rows {
        return Err(JobNotFound(id));
      }
      if status.Null? || maxSeconds.Null? {
        return Err(NotNullViolation);
      }
      var job := rows[id];
      if status.Set? { job := job.(status := status.value); }
      if !detail.Unset? { job := job.(detail := if detail.Set? then Some(detail.value) else None); }
      if maxSeconds.Set? { job := job.(maxSeconds := maxSeconds.value); }
      if details.Set? { job := job.(details := details.value); }
      rows := rows[id := job];
      return Ok(job);
    }

    method Delete(id: JobId) returns (r: Result<(), JobError>)
      modifies this
      ensures r == if id in old(rows) then Ok(()) else Err(JobNotFound(id))
      ensures rows == old(rows) - {id}
    {
      if id !in rows {
        assert rows == rows - {id};
        return Err(JobNotFound(id));
      }
      rows := rows - {id};
      return Ok(());
    }

    method CountRunning(runner: RunnerId) returns (n: nat)
      ensures n == |RunningOf(rows, runner)|
    {
      n := |RunningOf(rows, runner)|;
    }

    /** Select, then update what is still PENDING, returning the claimed ids in id order. */
    method ClaimPending(runner: RunnerId, limit: int, now: Time) returns (claimed: seq<JobId>)
      modifies this
      ensures limit <= 0 ==> claimed == [] && rows == old(rows)
      ensures limit > 0 ==>
        claimed == Candidates(old(rows), limit) && rows == ClaimUpdate(old(rows), claimed, runner, now)
      ensures limit > 0 ==> SmallestClaimed(old(rows), rows, claimed, limit, runner, now)
    {
      if limit <= 0 {
        return [];
      }
      var ids := Candidates(rows, limit);
      ClaimsSmallest(rows, limit, runner, now);
      rows := ClaimUpdate(rows, ids, runner, now);
      return ids;
    }

    /** The race guard: nothing is written unless the row is still RUNNING and owned by the caller. A status
        too long for its column fails the update of such a row. */
    method Complete(id: JobId, runner: RunnerId, outcome: Outcome, details: Option<string>)
      returns (r: Result<bool, JobError>)
      modifies this
      ensures !OwnsRun(old(rows), id, runner) ==> r == Ok(false) && rows == old(rows)
      ensures OwnsRun(old(rows), id, runner) ==>
        r == if outcome.Returned? && |outcome.status| > 32 then Err(ValueTooLong) else Ok(true)
      ensures r.Err? ==> rows == old(rows)
      ensures r == Ok(true) ==> id in rows
      ensures r == Ok(true) && outcome.Raised? ==>
        rows[id].status == Error && rows[id].detail == Some(outcome.kind + ": " + outcome.text)
      ensures r == Ok(true) && outcome.Returned? ==>
        StatusText(rows[id].status) == outcome.status && rows[id].detail == outcome.detail
      ensures r == Ok(true) ==>
        rows.Keys == old(rows).Keys && forall k :: k in rows && k != id ==> rows[k] == old(rows)[k]
      ensures r == Ok(true) ==> rows[id].details == (if details.Some? then details.value else old(rows)[id].details)
      ensures r.Ok? ==>
        rows == CompleteUpdate(old(rows), id, runner, OutcomeStatus(outcome), OutcomeDetail(outcome), details)
    {
      var status, detail;
      match outcome {
        case Raised(kind, text) => status, detail := Error, Some(kind + ": " + text);
        case Returned(st, d) => status, detail := StatusOf(st), d;
      }
      if outcome.Returned? { StatusOfText(outcome.status); }
      if !(id in rows && rows[id].runner == Some(runner) && rows[id].status == Running) {
        return Ok(false);
      }
      if !Storable(status) {
        return Err(ValueTooLong);
      }
      var job := rows[id].(status := status, detail := detail);
      if details.Some? { job := job.(details := details.value); }
      rows := rows[id := job];
      return Ok(true);
    }

    method RecoverDeadRunners(now: Time) returns (count: nat)
      modifies this
      ensures rows == RecoverUpdate(old(rows), now)
      ensures count == |set id | id in old(rows) && Overdue(old(rows)[id], now)|
      ensures forall id :: id in rows ==> !Overdue(rows[id], now)
      ensures rows.Keys == old(rows).Keys
      ensures forall id :: id in rows ==> var j := old(rows)[id];
        (rows[id] != j <==> j.status == Running && j.startedAt.Some? && now - j.startedAt.value > j.maxSeconds * SECOND)
    {
      var hits := set id | id in rows && Overdue(rows[id], now);
      RecoveryIsCompleteAndIdempotent(rows, now);
      rows := rows + map id | id in hits :: rows[id].(status := Error, detail := Some(RECOVERY_DETAIL));
      count := |hits|;
    }
  }

  // ---------------------------------------------------------------- one runner

  /** An in-memory task: when it was started, the limit of the row it was claimed with, and whether its
      cancellation has been requested. */
  datatype LiveTask = LiveTask(startedAt: Time, maxSeconds: int, cancelled: bool)

  predicate TaskOverdue(t: LiveTask, now: Time) { now - t.startedAt > t.maxSeconds * SECOND }

  function OverdueIn(live: map<JobId, LiveTask>, among: set<JobId>, now: Time): set<JobId> {
    set id | id in among && id in live && TaskOverdue(live[id], now)
  }

  /** The tasks after the cancellation phase. */
  function Cancelled(live: map<JobId, LiveTask>, now: Time): map<JobId, LiveTask> {
    map id | id in live :: if TaskOverdue(live[id], now) then live[id].(cancelled := true) else live[id]
  }

  /** Which tasks it cancels, exactly: those that have run longer than their own limit. */
  lemma CancelsExactly(live: map<JobId, LiveTask>, now: Time, id: JobId)
    requires id in live
    ensures var t, after := live[id], Cancelled(live, now);
      && after.Keys == live.Keys && after[id].startedAt == t.startedAt && after[id].maxSeconds == t.maxSeconds
      && (after[id].cancelled <==> t.cancelled || t.startedAt + t.maxSeconds * SECOND < now)
  {
  }

  /** Each id of the list has a fresh task with its row's limit; the other tasks are as they were. starts
      gives the clock read of each start. */
  ghost predicate Started(was: map<JobId, LiveTask>, live: map<JobId, LiveTask>, rows: Table, ids: seq<JobId>,
                          starts: JobId -> Time) {
    && live.Keys == was.Keys + (set id | id in ids)
    && forall id :: id in live ==>
         if id in ids then id in rows && live[id] == LiveTask(starts(id), rows[id].maxSeconds, false)
         else live[id] == was[id]
  }

  class JobRunner {
    const runnerId: RunnerId
    const maxConcurrent: nat
    var live: map<JobId, LiveTask>

    constructor (id: RunnerId, max: nat)
      ensures runnerId == id && maxConcurrent == max && live == map[]
    {
      runnerId, maxConcurrent, live := id, max, map[];
    }

    /** Requests cancellation of exactly the tasks that have run longer than their limit. */
    method CancelOverdueLiveTasks(now: Time) returns (cancelled: nat)
      modifies this`live
      ensures live == Cancelled(old(live), now)
      ensures cancelled == |OverdueIn(old(live), old(live).Keys, now)|
    {
      cancelled := 0;
      var todo := live.Keys;
      ghost var done: set<JobId> := {};
      while todo != {}
        invariant done !! todo && done + todo == old(live).Keys == live.Keys
        invariant forall id :: id in todo ==> live[id] == old(live)[id]
        invariant forall id :: id in done ==> live[id] == Cancelled(old(live), now)[id]
        invariant cancelled == |OverdueIn(old(live), done, now)|
        decreases |todo|
      {
        var id :| id in todo;
        ghost var before := OverdueIn(old(live), done, now);
        if TaskOverdue(live[id], now) {
          live := live[id := live[id].(cancelled := true)];
          cancelled := cancelled + 1;
          assert OverdueIn(old(live), done + {id}, now) == before + {id};
        } else {
          assert OverdueIn(old(live), done + {id}, now) == before;
        }
        done, todo := done + {id}, todo - {id};
      }
      assert done == old(live).Keys;
    }

    /** Claims the smallest PENDING ids there is room for and starts a task for each of them. */
    method ClaimAndRun(db: JobService, now: Time, starts: JobId -> Time) returns (n: nat)
      modifies this`live, db
      ensures var ids := Candidates(old(db.rows), Room(old(db.rows), runnerId, maxConcurrent));
        n == |ids| && db.rows == ClaimUpdate(old(db.rows), ids, runnerId, now)
        && Started(old(live), live, db.rows, ids, starts)
      ensures |RunningOf(db.rows, runnerId)| <= maxConcurrent || db.rows == old(db.rows)
    {
      var running := db.CountRunning(runnerId);
      var capacity := if maxConcurrent > running then maxConcurrent - running else 0;
      ghost var before := db.rows;
      RoomIsExact(before, runnerId, maxConcurrent, now);
      if capacity <= 0 {
        assert Candidates(before, 0) == [];
        return 0;
      }
      var claimed := db.ClaimPending(runnerId, capacity, now);
      StartRuns(db.rows, claimed, starts);
      return |claimed|;
    }

    /** for job in claimed: self._start_run(job). */
    method StartRuns(rows: Table, claimed: seq<JobId>, starts: JobId -> Time)
      requires forall id :: id in claimed ==> id in rows
      modifies this`live
      ensures Started(old(live), live, rows, claimed, starts)
      ensures forall id :: id in claimed ==> id in live && live[id] == LiveTask(starts(id), rows[id].maxSeconds, false)
      ensures forall id :: id in old(live) && id !in claimed ==> id in live && live[id] == old(live)[id]
    {
      for i := 0 to |claimed|
        invariant Started(old(live), live, rows, claimed[..i], starts)
      {
        var id := claimed[i];
        assert claimed[..i + 1] == claimed[..i] + [id];
        assert id in claimed;
        live := live[id := LiveTask(starts(id), rows[id].maxSeconds, false)];
      }
      assert claimed[..|claimed|] == claimed;
    }

    /** One sweep: recovery, then cancellation, then a claim on what recovery left, each with its own clock
        read. If the rows' limits are positive and the clock does not go back, nothing overdue at the recovery is left;
        a runner within its capacity stays within it. */
    method SweepOnce(db: JobService, recoverAt: Time, cancelAt: Time, claimAt: Time, starts: JobId -> Time)
      returns (recovered: nat, claimed: nat)
      modifies this`live, db
      ensures recovered == |set id | id in old(db.rows) && Overdue(old(db.rows)[id], recoverAt)|
      ensures var middle := RecoverUpdate(old(db.rows), recoverAt);
        var ids := Candidates(middle, Room(middle, runnerId, maxConcurrent));
        claimed == |ids| && db.rows == ClaimUpdate(middle, ids, runnerId, claimAt)
        && Started(Cancelled(old(live), cancelAt), live, db.rows, ids, starts)
      ensures forall id ::
        id in old(db.rows) && Terminal(old(db.rows)[id].status) ==> id in db.rows && db.rows[id] == old(db.rows)[id]
      ensures forall id :: id in old(db.rows) && old(db.rows)[id].status == Running ==>
        var j := old(db.rows)[id];
        id in db.rows && var late := j.startedAt.Some? && recoverAt - j.startedAt.value > j.maxSeconds * SECOND;
        if late then db.rows[id].status == Error else db.rows[id] == j
      ensures recoverAt <= claimAt && LimitsPositive(old(db.rows)) ==>
        forall id :: id in db.rows ==> !Overdue(db.rows[id], recoverAt)
      ensures |RunningOf(old(db.rows), runnerId)| <= maxConcurrent ==> |RunningOf(db.rows, runnerId)| <= maxConcurrent
    {
      ghost var before := db.rows;
      recovered := db.RecoverDeadRunners(recoverAt);
      ghost var middle := db.rows;
      SubsetSize(RunningOf(middle, runnerId), RunningOf(before, runnerId));
      var _ := CancelOverdueLiveTasks(cancelAt);
      claimed := ClaimAndRun(db, claimAt, starts);
      ClaimAfterRecovery(before, Candidates(middle, Room(middle, runnerId, maxConcurrent)), runnerId, recoverAt,
                         claimAt);
    }
  }
}
