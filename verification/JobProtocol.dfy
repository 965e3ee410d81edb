/** The job runner protocol: any number of runners, crashes, recoveries and clients interleaving their
    statements on one jobs table (job_service.py, job_runner_service.py).

    A run is any sequence of steps; a step that is not possible in a state leaves it unchanged, so every
    statement below holds for all sequences. A claim is three separate statements (count, select,
    guarded update), and nothing but the guard protects it: no row lock is modelled. Each phase of a sweep
    is a transaction that commits, as the sweep's documentation says. */
module JobProtocol {
  import opened Common
  import opened Keyset
  import opened Jobs

  datatype Phase = Idle | Counted(capacity: nat) | Chosen(ids: seq<JobId>)

  /** One runner process: its capacity, where its sweep stands, and its in-memory tasks. */
  datatype Runner = Runner(max: nat, phase: Phase, tasks: multiset<JobId>)

  datatype Event =
    | Created(id: JobId, status: Status)
    | BornClaimed(id: JobId, runner: RunnerId)
    | ClientWrote(id: JobId, status: Status)
    | Claimed(ids: set<JobId>, runner: RunnerId)
    | Finished(id: JobId, runner: RunnerId, status: Status)
    | Recovered(ids: set<JobId>)
    | Removed(ids: set<JobId>)

  /** issued and booted hold every job id and runner id ever used; log is the history. */
  datatype State = State(rows: Table, runners: map<RunnerId, Runner>, issued: set<JobId>, booted: set<RunnerId>,
                         log: seq<Event>)

  datatype Step =
    | ClientCreate(cid: JobId, suspended: bool, maxSeconds: int)
    | ClientStatus(id: JobId, suspend: bool)
    | ClientLimit(lid: JobId, limit: int)
    | Remove(ids: set<JobId>)
    | Boot(runner: RunnerId, max: nat)
    | Crash(crashed: RunnerId)
    | RunnerCreate(rid: JobId, owner: RunnerId, runNow: bool, maxRun: int, at: Time)
    | Count(counter: RunnerId)
    | Select(selector: RunnerId)
    | Claim(claimer: RunnerId, now: Time)
    | Finish(finisher: RunnerId, fid: JobId, outcome: Outcome)
    | Recover(instant: Time)

  const INITIAL: State := State(map[], map[], {}, {}, [])

  function WithRunner(s: State, r: RunnerId, x: Runner): State { s.(runners := s.runners[r := x]) }

  function ClaimedRows(s: State, r: RunnerId, now: Time): State
    requires r in s.runners && s.runners[r].phase.Chosen?
  {
    var ids := s.runners[r].phase.ids;
    var hits := ClaimHits(s.rows, ids);
    WithRunner(s, r, s.runners[r].(phase := Idle, tasks := s.runners[r].tasks + multiset(hits)))
      .(rows := ClaimUpdate(s.rows, ids, r, now), log := s.log + [Claimed(hits, r)])
  }

  function OverdueIds(rows: Table, now: Time): set<JobId> {
    set id | id in rows && Overdue(rows[id], now)
  }

  function Apply(s: State, step: Step): State {
    match step
    case ClientCreate(id, suspended, maxSeconds) =>
      if id in s.issued then s
      else s.(rows := s.rows[id := Job(if suspended then Suspended else Pending, None, None, maxSeconds, None, "")],
              issued := s.issued + {id}, log := s.log + [Created(id, if suspended then Suspended else Pending)])
    case ClientStatus(id, suspend) =>
      if id !in s.rows then s
      else s.(rows := s.rows[id := s.rows[id].(status := if suspend then Suspended else Pending)],
              log := s.log + [ClientWrote(id, if suspend then Suspended else Pending)])
    case ClientLimit(id, limit) =>
      if id !in s.rows then s else s.(rows := s.rows[id := s.rows[id].(maxSeconds := limit)])
    case Remove(ids) =>
      s.(rows := s.rows - ids, log := s.log + [Removed(ids * s.rows.Keys)])
    case Boot(r, max) =>
      if r in s.booted then s
      else WithRunner(s, r, Runner(max, Idle, multiset{})).(booted := s.booted + {r})
    case Crash(r) =>
      s.(runners := s.runners - {r})
    case RunnerCreate(id, r, runNow, maxRun, at) =>
      if id in s.issued || r !in s.runners then s
      else s.(rows := s.rows[id :=
        Job(if runNow then Running else Pending, Some(r), if runNow then Some(at) else None, maxRun, None, "")],
              issued := s.issued + {id}, log := s.log + [if runNow then BornClaimed(id, r) else Created(id, Pending)])
    case Count(r) =>
      if r in s.runners && s.runners[r].phase.Idle? then
        var running := |RunningOf(s.rows, r)|;
        WithRunner(s, r, s.runners[r].(phase :=
        Counted(if s.runners[r].max > running then s.runners[r].max - running else 0)))
      else s
    case Select(r) =>
      if r in s.runners && s.runners[r].phase.Counted? then
        WithRunner(s, r, s.runners[r].(phase := Chosen(Candidates(s.rows, s.runners[r].phase.capacity))))
      else s
    case Claim(r, now) =>
      if r in s.runners && s.runners[r].phase.Chosen? then ClaimedRows(s, r, now) else s
    case Finish(r, id, outcome) =>
      if r in s.runners && id in s.runners[r].tasks then
        var done := WithRunner(s, r, s.runners[r].(tasks := s.runners[r].tasks - multiset{id}));
        if OwnsRun(s.rows, id, r) && Storable(OutcomeStatus(outcome))
        then done.(rows := CompleteUpdate(s.rows, id, r, OutcomeStatus(outcome), OutcomeDetail(outcome), None),
                   log := s.log + [Finished(id, r, OutcomeStatus(outcome))])
        else done
      else s
    case Recover(now) =>
      s.(rows := RecoverUpdate(s.rows, now), log := s.log + [Recovered(OverdueIds(s.rows, now))])
  }

  function Run(steps: seq<Step>): State {
    if steps == [] then INITIAL else Apply(Run(steps[..|steps| - 1]), steps[|steps| - 1])
  }

  // ---------------------------------------------------------------- rows and owners

  /** What every step keeps, whatever job bodies return. */
  ghost predicate RowInv(s: State) {
    && s.rows.Keys <= s.issued
    && s.runners.Keys <= s.booted
    && (forall id :: id in s.rows && s.rows[id].status == Running ==>
        s.rows[id].runner.Some? && s.rows[id].startedAt.Some?)
    && (forall id :: id in s.rows && s.rows[id].runner.Some? ==> s.rows[id].runner.value in s.booted)
  }

  lemma StepKeepsRows(s: State, step: Step)
    requires RowInv(s)
    ensures RowInv(Apply(s, step))
  {
  }

  lemma RunSnoc(steps: seq<Step>, step: Step)
    ensures Run(steps + [step]) == Apply(Run(steps), step)
  {
    assert (steps + [step])[..|steps|] == steps;
  }

  lemma {:induction false} RunKeepsRows(steps: seq<Step>)
    ensures RowInv(Run(steps))
  {
    if steps != [] {
      RunKeepsRows(steps[..|steps| - 1]);
      StepKeepsRows(Run(steps[..|steps| - 1]), steps[|steps| - 1]);
    }
  }

  // ---------------------------------------------------------------- the life of one job

  /** Where one job stands according to the history alone: Waiting is PENDING, Resting is SUSPENDED or a
      status outside the lifecycle. Broken is for a history no job can have. */
  datatype Life = Unborn | Waiting | Resting | InRun(owner: RunnerId) | Done | Gone | Broken

  predicate Alive(l: Life) { l == Waiting || l == Resting || l.InRun? || l == Done }

  /** A row with this status and owner. */
  function Standing(status: Status, owner: Option<RunnerId>): Life {
    match status
    case Pending => Waiting
    case Running => if owner.Some? then InRun(owner.value) else Broken
    case Completed => Done
    case Error => Done
    case _ => Resting
  }

  function Advance(l: Life, e: Event, id: JobId): Life {
    match e
    case Created(i, st) => if i != id then l else if l == Unborn then Standing(st, None) else Broken
    case BornClaimed(i, r) => if i != id then l else if l == Unborn then InRun(r) else Broken
    case ClientWrote(i, st) => if i != id then l else if Alive(l) then Standing(st, None) else Broken
    case Claimed(ids, r) => if id !in ids then l else if l == Waiting then InRun(r) else Broken
    case Finished(i, r, st) => if i != id then l else if l == InRun(r) then Standing(st, Some(r)) else Broken
    case Recovered(ids) => if id !in ids then l else if l.InRun? then Done else Broken
    case Removed(ids) => if id !in ids then l else if Alive(l) then Gone else Broken
  }

  function LifeOf(log: seq<Event>, id: JobId): Life {
    if log == [] then Unborn else Advance(LifeOf(log[..|log| - 1], id), log[|log| - 1], id)
  }

  /** Where the job stands according to its row. */
  function LifeOfRow(s: State, id: JobId): Life {
    if id in s.rows then Standing(s.rows[id].status, s.rows[id].runner)
    else if id in s.issued then Gone
    else Unborn
  }

  lemma LogGrows(log: seq<Event>, e: Event, id: JobId)
    ensures LifeOf(log + [e], id) == Advance(LifeOf(log, id), e, id)
  {
    assert (log + [e])[..|log|] == log;
  }

  /** What a step adds to the history. */
  function EventOf(s: State, step: Step): Option<Event> {
    match step
    case ClientCreate(id, suspended, _) =>
      if id in s.issued then None else Some(Created(id, if suspended then Suspended else Pending))
    case ClientStatus(id, suspend) =>
      if id !in s.rows then None else Some(ClientWrote(id, if suspend then Suspended else Pending))
    case Remove(ids) => Some(Removed(ids * s.rows.Keys))
    case RunnerCreate(id, r, runNow, _, _) =>
      if id in s.issued || r !in s.runners then None
        else Some(if runNow then BornClaimed(id, r) else Created(id, Pending))
    case Claim(r, _) =>
      if r in s.runners && s.runners[r].phase.Chosen? then Some(Claimed(ClaimHits(s.rows, s.runners[r].phase.ids), r))
        else None
    case Finish(r, id, outcome) =>
      if LetThrough(s, r, id, outcome) then Some(Finished(id, r, OutcomeStatus(outcome))) else None
    case Recover(now) => Some(Recovered(OverdueIds(s.rows, now)))
    case _ => None
  }

  /** The completion of a live task finds its row RUNNING and its own, and writes it. */
  predicate LetThrough(s: State, r: RunnerId, id: JobId, outcome: Outcome) {
    r in s.runners && id in s.runners[r].tasks && OwnsRun(s.rows, id, r) && Storable(OutcomeStatus(outcome))
  }

  lemma LogsItsEvent(s: State, step: Step)
    ensures Apply(s, step).log == if EventOf(s, step).Some? then s.log + [EventOf(s, step).value] else s.log
  {
  }

  predicate ByClient(step: Step) { step.ClientCreate? || step.ClientStatus? || step.ClientLimit? || step.Remove? }

  lemma RowMovesByClient(s: State, step: Step, id: JobId)
    requires RowInv(s) && ByClient(step)
    ensures LifeOfRow(Apply(s, step), id) ==
      if EventOf(s, step).Some? then Advance(LifeOfRow(s, id), EventOf(s, step).value, id) else LifeOfRow(s, id)
  {
  }

  lemma RowMovesByRunner(s: State, step: Step, id: JobId)
    requires RowInv(s) && !ByClient(step)
    ensures LifeOfRow(Apply(s, step), id) ==
      if EventOf(s, step).Some? then Advance(LifeOfRow(s, id), EventOf(s, step).value, id) else LifeOfRow(s, id)
  {
  }

  /** The row moves as the event says, whatever bodies return. */
  lemma RowMoves(s: State, step: Step, id: JobId)
    requires RowInv(s)
    ensures LifeOfRow(Apply(s, step), id) ==
      if EventOf(s, step).Some? then Advance(LifeOfRow(s, id), EventOf(s, step).value, id) else LifeOfRow(s, id)
  {
    if ByClient(step) { RowMovesByClient(s, step, id); } else { RowMovesByRunner(s, step, id); }
  }

  /** One step and one job: the history and the row move together. */
  lemma StepKeepsLife(s: State, step: Step, id: JobId)
    requires RowInv(s) && LifeOf(s.log, id) == LifeOfRow(s, id)
    ensures LifeOf(Apply(s, step).log, id) == LifeOfRow(Apply(s, step), id)
  {
    LogsItsEvent(s, step);
    RowMoves(s, step, id);
    if EventOf(s, step).Some? { LogGrows(s.log, EventOf(s, step).value, id); }
  }

  lemma NoBrokenRow(s: State, id: JobId)
    requires RowInv(s)
    ensures LifeOfRow(s, id) != Broken
  {
  }

  /** In every reachable state the history tells where every row stands, and none is broken. */
  lemma {:induction false} RunKeepsLife(steps: seq<Step>, id: JobId)
    ensures LifeOf(Run(steps).log, id) == LifeOfRow(Run(steps), id) != Broken
  {
    if steps == [] {
      assert Run(steps) == INITIAL;
    } else {
      var before := steps[..|steps| - 1];
      RunKeepsLife(before, id);
      RunKeepsRows(before);
      StepKeepsLife(Run(before), steps[|steps| - 1], id);
      StepKeepsRows(Run(before), steps[|steps| - 1]);
      NoBrokenRow(Run(steps), id);
    }
  }

  // ---------------------------------------------------------------- reading the history

  predicate Claims(e: Event, id: JobId) {
    (e.Claimed? && id in e.ids) || (e.BornClaimed? && e.id == id)
  }

  /** A terminal status is written: by a completion or by deadline recovery. */
  predicate Ends(e: Event, id: JobId) {
    (e.Finished? && e.id == id && Terminal(e.status)) || (e.Recovered? && id in e.ids)
  }

  predicate Writes(e: Event, id: JobId) { e.ClientWrote? && e.id == id }

  predicate Completes(e: Event, id: JobId) { e.Finished? && e.id == id }

  /** The job is put back to PENDING: by a client or by a completion that returned PENDING. */
  predicate Requeues(e: Event, id: JobId) { (Writes(e, id) || Completes(e, id)) && e.status == Pending }

  lemma {:induction false} PrefixUnbroken(log: seq<Event>, id: JobId, n: nat)
    requires n <= |log| && LifeOf(log, id) != Broken
    ensures LifeOf(log[..n], id) != Broken
    decreases |log|
  {
    if n < |log| {
      PrefixUnbroken(log[..|log| - 1], id, n);
      assert log[..|log| - 1][..n] == log[..n];
    } else {
      assert log[..n] == log;
    }
  }

  lemma LifeStep(log: seq<Event>, id: JobId, n: nat)
    requires n < |log|
    ensures LifeOf(log[..n + 1], id) == Advance(LifeOf(log[..n], id), log[n], id)
  {
    assert log[..n + 1] == log[..n] + [log[n]];
    LogGrows(log[..n], log[n], id);
  }

  /** Until something requeues it, a claimed job is not waiting again. */
  lemma {:induction false} NotWaitingAgain(log: seq<Event>, id: JobId, i: nat, j: nat)
    requires i < j <= |log| && LifeOf(log, id) != Broken && Claims(log[i], id)
    requires forall k :: i < k < j ==> !Requeues(log[k], id)
    ensures var l := LifeOf(log[..j], id); l == Resting || l.InRun? || l == Done || l == Gone
    decreases j - i
  {
    PrefixUnbroken(log, id, j);
    LifeStep(log, id, j - 1);
    if j > i + 1 { NotWaitingAgain(log, id, i, j - 1); }
  }

  /** Until a client writes it, a job with a terminal status keeps it or is removed. */
  lemma {:induction false} StaysDone(log: seq<Event>, id: JobId, i: nat, j: nat)
    requires i < j <= |log| && LifeOf(log, id) != Broken && Ends(log[i], id)
    requires forall k :: i < k < j ==> !Writes(log[k], id)
    ensures var l := LifeOf(log[..j], id); l == Done || l == Gone
    decreases j - i
  {
    PrefixUnbroken(log, id, j);
    LifeStep(log, id, j - 1);
    if j > i + 1 { StaysDone(log, id, i, j - 1); }
  }

  /** If a job is in a run of r, the history holds the claim by r that started it; since then it was neither
      claimed nor ended nor written, and any completion left it RUNNING. */
  lemma {:induction false} RunHasClaim(log: seq<Event>, id: JobId, r: RunnerId, n: nat) returns (i: nat)
    requires n <= |log| && LifeOf(log[..n], id) == InRun(r)
    ensures i < n && Claims(log[i], id) && log[i].runner == r
    ensures forall k :: i < k < n ==> Untouched(log[k], id)
    decreases n
  {
    assert log[..0] == [];
    assert n > 0;
    LifeStep(log, id, n - 1);
    if Claims(log[n - 1], id) {
      i := n - 1;
    } else {
      i := RunHasClaim(log, id, r, n - 1);
    }
  }

  predicate Untouched(e: Event, id: JobId) {
    !Claims(e, id) && !Ends(e, id) && !Writes(e, id) && (Completes(e, id) ==> e.status == Running)
  }

  // ---------------------------------------------------------------- what recovery and completion write

  /** In every reachable state a recovery changes exactly the RUNNING rows whose limit has run out since their start,
      and makes them ERROR: a run within its deadline goes on, whatever runners crash. */
  lemma RecoverySparesTheRest(steps: seq<Step>, now: Time, id: JobId)
    requires id in Run(steps).rows
    ensures var j, t := Run(steps).rows[id], Apply(Run(steps), Recover(now));
      && id in t.rows && (j.status == Running ==> j.startedAt.Some?)
      && (t.rows[id] != j <==> j.status == Running && now - j.startedAt.value > j.maxSeconds * SECOND)
      && (t.rows[id] != j ==> t.rows[id].status == Error && t.rows[id].runner == j.runner)
  {
    RunKeepsRows(steps);
    RecoveryReachesExactly(Run(steps).rows, now, id);
  }

  /** A claim makes exactly those rows that it chose and that still wait RUNNING, owned and started at its instant, and
      starts a task for each. */
  lemma ClaimWritesExactly(s: State, r: RunnerId, now: Time, id: JobId)
    requires r in s.runners && s.runners[r].phase.Chosen? && id in s.rows
    ensures var j, t := s.rows[id], Apply(s, Claim(r, now));
      var hit := id in s.runners[r].phase.ids && j.status == Pending;
      && t.rows.Keys == s.rows.Keys && r in t.runners && t.runners[r].phase == Idle
      && t.rows[id] == (if hit then j.(status := Running, runner := Some(r), startedAt := Some(now)) else j)
      && t.runners[r].tasks[id] == s.runners[r].tasks[id] + if hit then 1 else 0
  {
  }

  /** In every reachable state the end of a live task whose row is still RUNNING and its runner's writes what the body
      ended with: the status text it returned, if the column takes it, or ERROR and the exception's text. Any other
      row stays as it is. */
  lemma CompletionWritesExactly(steps: seq<Step>, r: RunnerId, id: JobId, outcome: Outcome)
    requires var s := Run(steps); r in s.runners && id in s.runners[r].tasks && id in s.rows
    ensures var j, t := Run(steps).rows[id], Apply(Run(steps), Finish(r, id, outcome));
      var writes := j.status == Running && j.runner == Some(r) && (outcome.Returned? ==> |outcome.status| <= 32);
      && id in t.rows
      && (!writes ==> t.rows == Run(steps).rows)
      && (writes && outcome.Raised? ==>
            t.rows[id] == j.(status := Error, detail := Some(outcome.kind + ": " + outcome.text)))
      && (writes && outcome.Returned? ==>
            StatusText(t.rows[id].status) == outcome.status && t.rows[id].detail == outcome.detail)
      && (forall k :: k in Run(steps).rows && k != id ==> k in t.rows && t.rows[k] == Run(steps).rows[k])
  {
    if outcome.Returned? { StatusOfText(outcome.status); }
  }

  // ---------------------------------------------------------------- the lifecycle theorems

  /** However many runners selected a job, between two claims of it something put it back to PENDING. So
      between two client writes it is claimed at most once, unless a completion returned PENDING. */
  lemma ClaimedOncePerClientWrite(steps: seq<Step>, id: JobId, i: nat, j: nat)
    requires var log := Run(steps).log; i < j < |log| && Claims(log[i], id) && Claims(log[j], id)
    ensures exists k :: i < k < j && Requeues(Run(steps).log[k], id)
    ensures (forall k :: i < k < j && Completes(Run(steps).log[k], id) ==> Run(steps).log[k].status != Pending)
      ==> exists k :: i < k < j && Writes(Run(steps).log[k], id)
  {
    RunKeepsLife(steps, id);
    RequeueBetween(Run(steps).log, id, i, j);
  }

  lemma RequeueBetween(log: seq<Event>, id: JobId, i: nat, j: nat)
    requires LifeOf(log, id) != Broken && i < j < |log| && Claims(log[i], id) && Claims(log[j], id)
    ensures exists k :: i < k < j && Requeues(log[k], id)
  {
    if forall k :: i < k < j ==> !Requeues(log[k], id) {
      NotWaitingAgain(log, id, i, j);
      LifeStep(log, id, j);
      PrefixUnbroken(log, id, j + 1);
      assert false;
    }
  }

  /** Between two client writes a job receives at most one terminal status, whatever bodies return. */
  lemma EndedOncePerClientWrite(steps: seq<Step>, id: JobId, i: nat, j: nat)
    requires var log := Run(steps).log; i < j < |log| && Ends(log[i], id) && Ends(log[j], id)
    ensures exists k :: i < k < j && Writes(Run(steps).log[k], id)
  {
    RunKeepsLife(steps, id);
    WriteBetween(Run(steps).log, id, i, j);
  }

  lemma WriteBetween(log: seq<Event>, id: JobId, i: nat, j: nat)
    requires LifeOf(log, id) != Broken && i < j < |log| && Ends(log[i], id) && Ends(log[j], id)
    ensures exists k :: i < k < j && Writes(log[k], id)
  {
    if forall k :: i < k < j ==> !Writes(log[k], id) {
      StaysDone(log, id, i, j);
      LifeStep(log, id, j);
      PrefixUnbroken(log, id, j + 1);
      assert false;
    }
  }

  /** A completion, whatever status it writes, is written by the runner whose claim started the run: since
      that claim the job was neither claimed nor ended nor written by a client. The only other way to a
      terminal status is deadline recovery (Ends). */
  lemma FinishedByItsClaimer(steps: seq<Step>, j: nat) returns (i: nat)
    requires j < |Run(steps).log| && Run(steps).log[j].Finished?
    ensures var log := Run(steps).log; var id := log[j].id;
      && i < j && Claims(log[i], id) && log[i].runner == log[j].runner
      && (forall k :: i < k < j ==> Untouched(log[k], id))
  {
    var log := Run(steps).log;
    var id := log[j].id;
    RunKeepsLife(steps, id);
    PrefixUnbroken(log, id, j + 1);
    LifeStep(log, id, j);
    i := RunHasClaim(log, id, log[j].runner, j);
  }

  predicate RunnerStep(step: Step) {
    step.Boot? || step.Crash? || step.RunnerCreate? || step.Count? || step.Select? || step.Claim? || step.Finish?
    || step.Recover?
  }

  /** No sequence of runner steps ever changes a terminal row, whatever bodies return. */
  lemma {:induction false} TerminalRowsAreFinal(steps: seq<Step>, more: seq<Step>, id: JobId)
    requires forall i :: 0 <= i < |more| ==> RunnerStep(more[i])
    requires var s := Run(steps); id in s.rows && Terminal(s.rows[id].status)
    ensures var s, t := Run(steps), Run(steps + more); id in t.rows && t.rows[id] == s.rows[id]
    decreases |more|
  {
    if more == [] {
      assert steps + more == steps;
    } else {
      var init, last := more[..|more| - 1], more[|more| - 1];
      TerminalRowsAreFinal(steps, init, id);
      assert steps + more == (steps + init) + [last];
      RunSnoc(steps + init, last);
      RunKeepsRows(steps + init);
      assert RunnerStep(last);
      TerminalRowStays(Run(steps + init), last, id);
    }
  }

  lemma TerminalRowStays(s: State, step: Step, id: JobId)
    requires RowInv(s) && RunnerStep(step) && id in s.rows && Terminal(s.rows[id].status)
    ensures id in Apply(s, step).rows && Apply(s, step).rows[id] == s.rows[id]
  {
  }

  // ---------------------------------------------------------------- which completions let a job be claimed again

  /** Neither a client write nor a completion of the job. */
  predicate LeavesAlone(steps: seq<Step>, id: JobId) {
    forall i :: 0 <= i < |steps| ==>
      !(steps[i].ClientStatus? && steps[i].id == id) && !(steps[i].Finish? && steps[i].fid == id)
  }

  /** Running more after steps claims the job. */
  ghost predicate Reclaims(steps: seq<Step>, more: seq<Step>, id: JobId) {
    exists k :: |Run(steps).log| <= k < |Run(steps + more).log| && Claims(Run(steps + more).log[k], id)
  }

  /** The exact condition, from every reachable state and for every status a body may return: a completion
      that is let through can be followed by a second claim of its job, with no client write and no other completion
      of it, if and only if the status it writes is PENDING. */
  lemma ReclaimedIffPending(steps: seq<Step>, r: RunnerId, id: JobId, outcome: Outcome)
    requires LetThrough(Run(steps), r, id, outcome)
    ensures OutcomeStatus(outcome) == Pending <==>
      exists more :: LeavesAlone(more, id) && Reclaims(steps + [Finish(r, id, outcome)], more, id)
  {
    var all := steps + [Finish(r, id, outcome)];
    FinishedRow(steps, r, id, outcome);
    if OutcomeStatus(outcome) == Pending {
      var more := PendingIsReclaimed(all, id);
      assert LeavesAlone(more, id) && Reclaims(all, more, id);
    } else {
      forall more | LeavesAlone(more, id) ensures !Reclaims(all, more, id) { NeverClaimed(all, more, id); }
    }
  }

  lemma FinishedRow(steps: seq<Step>, r: RunnerId, id: JobId, outcome: Outcome)
    requires LetThrough(Run(steps), r, id, outcome)
    ensures var t := Run(steps + [Finish(r, id, outcome)]);
      id in t.issued && id in t.rows && t.rows[id].status == OutcomeStatus(outcome)
  {
    RunSnoc(steps, Finish(r, id, outcome));
    RunKeepsRows(steps);
  }

  lemma PendingIsReclaimed(steps: seq<Step>, id: JobId) returns (more: seq<Step>)
    requires id in PendingIds(Run(steps).rows)
    ensures LeavesAlone(more, id) && Reclaims(steps, more, id)
  {
    RunKeepsRows(steps);
    var f := FreshId(Run(steps).booted);
    var n := |PendingIds(Run(steps).rows)|;
    more := RoundOf(f, n);
    FreshRunnerClaims(steps, f, n, id);
  }

  /** A new runner process with room for n jobs sweeps once. */
  function RoundOf(r: RunnerId, n: nat): seq<Step> { [Boot(r, n), Count(r), Select(r), Claim(r, 0)] }

  lemma {:induction false} FreshId(used: set<nat>) returns (r: nat)
    ensures r !in used && forall b :: b in used ==> b < r
    decreases |used|
  {
    if used == {} {
      r := 0;
    } else {
      var b :| b in used;
      var rest := FreshId(used - {b});
      r := if rest > b then rest else b + 1;
      assert used == (used - {b}) + {b};
    }
  }

  lemma FreshRunnerClaims(steps: seq<Step>, f: RunnerId, n: nat, id: JobId)
    requires var s := Run(steps); RowInv(s) && f !in s.booted && id in PendingIds(s.rows) && n == |PendingIds(s.rows)|
    ensures var s, t := Run(steps), Run(steps + RoundOf(f, n));
      |t.log| == |s.log| + 1 && Claims(t.log[|s.log|], id)
  {
    RunSnoc(steps, Boot(f, n));
    RunSnoc(steps + [Boot(f, n)], Count(f));
    RunSnoc(steps + [Boot(f, n)] + [Count(f)], Select(f));
    RunSnoc(steps + [Boot(f, n)] + [Count(f)] + [Select(f)], Claim(f, 0));
    assert steps + RoundOf(f, n) == steps + [Boot(f, n)] + [Count(f)] + [Select(f)] + [Claim(f, 0)];
    var chosen := Run(steps + [Boot(f, n)] + [Count(f)] + [Select(f)]);
    FreshRunnerChooses(Run(steps), f, n, chosen);
    assert EventOf(chosen, Claim(f, 0)) == Some(Claimed(ClaimHits(chosen.rows, chosen.runners[f].phase.ids), f));
    LogsItsEvent(chosen, Claim(f, 0));
  }

  lemma FreshRunnerChooses(s: State, f: RunnerId, n: nat, t: State)
    requires RowInv(s) && f !in s.booted && n == |PendingIds(s.rows)|
    requires t == Apply(Apply(Apply(s, Boot(f, n)), Count(f)), Select(f))
    ensures t.rows == s.rows && t.log == s.log && f in t.runners && t.runners[f].phase.Chosen?
    ensures forall id :: id in PendingIds(s.rows) ==> id in ClaimHits(s.rows, t.runners[f].phase.ids)
  {
    assert RunningOf(s.rows, f) == {};
    AllCandidates(s.rows, n);
  }

  lemma AllCandidates(rows: Table, n: nat)
    requires n == |PendingIds(rows)|
    ensures forall id :: id in PendingIds(rows) ==> id in Candidates(rows, n)
  {
    IdOrderTotal();
    SmallestMeetsOrderLimit(IdLess, PendingIds(rows), n);
    AscendingNoDuplicates(IdLess, Candidates(rows, n));
    SameSizeSameSet(Elements(Candidates(rows, n)), PendingIds(rows));
  }

  /** A job that exists or existed and is not PENDING. */
  predicate NotPending(s: State, id: JobId) { id in s.issued && (id in s.rows ==> s.rows[id].status != Pending) }

  lemma StepKeepsNotPending(s: State, step: Step, id: JobId)
    requires RowInv(s) && NotPending(s, id) && LeavesAlone([step], id)
    ensures NotPending(Apply(s, step), id)
    ensures EventOf(s, step).Some? ==> !Claims(EventOf(s, step).value, id)
  {
    assert !([step][0].ClientStatus? && [step][0].id == id) && !([step][0].Finish? && [step][0].fid == id);
  }

  lemma {:induction false} NeverClaimed(steps: seq<Step>, more: seq<Step>, id: JobId)
    requires NotPending(Run(steps), id) && LeavesAlone(more, id)
    ensures NotPending(Run(steps + more), id) && !Reclaims(steps, more, id)
    decreases |more|
  {
    if more == [] {
      assert steps + more == steps;
    } else {
      var init, last := more[..|more| - 1], more[|more| - 1];
      assert forall i :: 0 <= i < |init| ==> init[i] == more[i];
      NeverClaimed(steps, init, id);
      assert steps + more == (steps + init) + [last];
      RunSnoc(steps + init, last);
      RunKeepsRows(steps + init);
      StepKeepsNotPending(Run(steps + init), last, id);
      LogsItsEvent(Run(steps + init), last);
      NoNewClaim(Run(steps).log, Run(steps + init).log, Run(steps + more).log, EventOf(Run(steps + init), last), id);
    }
  }

  lemma NoNewClaim(start: seq<Event>, before: seq<Event>, after: seq<Event>, e: Option<Event>, id: JobId)
    requires after == if e.Some? then before + [e.value] else before
    requires e.Some? ==> !Claims(e.value, id)
    requires !exists k :: |start| <= k < |before| && Claims(before[k], id)
    ensures !exists k :: |start| <= k < |after| && Claims(after[k], id)
  {
  }

  /** JobRun.status is an unrestricted string in the code. A body that returns PENDING puts its job back
      in the queue, and it is claimed a second time without any client write. */
  lemma NonTerminalOutcomeReclaims()
    ensures Run(RECLAIM).log == [Created(0, Pending), Claimed({0}, 7), Finished(0, 7, Pending), Claimed({0}, 7)]
  {
    var start := [Boot(7, 1), ClientCreate(0, false, 60)];
    var claimed := start + RoundBy7(0);
    var back := claimed + [Finish(7, 0, Returned("PENDING", None))];
    OneJobOneRunner();
    ClaimRound(start, 0);
    RunSnoc(claimed, Finish(7, 0, Returned("PENDING", None)));
    JobGoesBack(Run(claimed));
    ClaimRound(back, 1);
    assert RECLAIM == back + RoundBy7(1);
  }

  function RoundBy7(now: Time): seq<Step> { [Count(7), Select(7), Claim(7, now)] }

  const RECLAIM := [Boot(7, 1), ClientCreate(0, false, 60), Count(7), Select(7), Claim(7, 0),
                    Finish(7, 0, Returned("PENDING", None)), Count(7), Select(7), Claim(7, 1)]

  /** Job 0 alone and PENDING, and runner 7 idle with room for one job. */
  predicate Ready(s: State) {
    s.rows.Keys == {0} && s.rows[0].status == Pending && 7 in s.runners && s.runners[7] == Runner(1, Idle, multiset{})
  }

  lemma OneJobOneRunner()
    ensures var s := Run([Boot(7, 1), ClientCreate(0, false, 60)]); Ready(s) && s.log == [Created(0, Pending)]
  {
    RunSnoc([], Boot(7, 1));
    RunSnoc([Boot(7, 1)], ClientCreate(0, false, 60));
    assert [] + [Boot(7, 1)] == [Boot(7, 1)];
    assert [Boot(7, 1)] + [ClientCreate(0, false, 60)] == [Boot(7, 1), ClientCreate(0, false, 60)];
  }

  lemma JobGoesBack(s: State)
    requires s.rows.Keys == {0} && OwnsRun(s.rows, 0, 7) && 7 in s.runners
    requires s.runners[7] == Runner(1, Idle, multiset{0})
    ensures var t := Apply(s, Finish(7, 0, Returned("PENDING", None)));
      Ready(t) && t.log == s.log + [Finished(0, 7, Pending)]
  {
    assert multiset{0} - multiset{0} == multiset{};
  }

  /** Count, select and claim of the job by the runner. */
  lemma ClaimRound(prefix: seq<Step>, now: Time)
    requires Ready(Run(prefix))
    ensures var s, t := Run(prefix), Run(prefix + RoundBy7(now));
      && t.log == s.log + [Claimed({0}, 7)]
      && t.rows.Keys == {0} && OwnsRun(t.rows, 0, 7)
      && 7 in t.runners && t.runners[7] == Runner(1, Idle, multiset{0})
  {
    RunSnoc(prefix, Count(7));
    RunSnoc(prefix + [Count(7)], Select(7));
    RunSnoc(prefix + [Count(7)] + [Select(7)], Claim(7, now));
    assert prefix + RoundBy7(now) == prefix + [Count(7)] + [Select(7)] + [Claim(7, now)];
    var chosen := Run(prefix + [Count(7)] + [Select(7)]);
    JobIsChosen(Run(prefix), Run(prefix + [Count(7)]), chosen);
    JobIsClaimed(chosen, now);
  }

  lemma JobIsChosen(s: State, a: State, b: State)
    requires Ready(s) && a == Apply(s, Count(7)) && b == Apply(a, Select(7))
    ensures b.rows == s.rows && b.log == s.log && 7 in b.runners && b.runners[7] == Runner(1, Chosen([0]), multiset{})
  {
    assert RunningOf(s.rows, 7) == {};
    assert PendingIds(a.rows) == {0};
    OnlyCandidate(a.rows);
  }

  lemma JobIsClaimed(b: State, now: Time)
    requires b.rows.Keys == {0} && b.rows[0].status == Pending && 7 in b.runners
    requires b.runners[7] == Runner(1, Chosen([0]), multiset{})
    ensures var t := Apply(b, Claim(7, now));
      && t.log == b.log + [Claimed({0}, 7)] && t.rows.Keys == {0} && OwnsRun(t.rows, 0, 7)
      && 7 in t.runners && t.runners[7] == Runner(1, Idle, multiset{0})
  {
    assert ClaimHits(b.rows, [0]) == {0};
    assert multiset({0}) == multiset{0};
  }

  lemma OnlyCandidate(rows: Table)
    requires PendingIds(rows) == {0}
    ensures Candidates(rows, 1) == [0]
  {
    IdOrderTotal();
    SmallestMeetsOrderLimit(IdLess, {0}, 1);
    assert Candidates(rows, 1)[0] in Candidates(rows, 1);
  }

  // ---------------------------------------------------------------- deadlines

  /** In every reachable state a RUNNING row has an owner and a start time, so recovery can reach every
      orphan: after any recovery at now, no RUNNING row started before now minus its limit. */
  lemma RecoveryReachesOrphans(steps: seq<Step>, now: Time, id: JobId)
    requires var s := Run(steps + [Recover(now)]); id in s.rows && s.rows[id].status == Running
    ensures var j := Run(steps + [Recover(now)]).rows[id];
      j.runner.Some? && j.startedAt.Some? && j.startedAt.value >= now - j.maxSeconds * SECOND
  {
    RunSnoc(steps, Recover(now));
    RunKeepsRows(steps + [Recover(now)]);
    RecoveryIsCompleteAndIdempotent(Run(steps).rows, now);
  }

  /** A RUNNING row whose runner has crashed. */
  predicate Orphan(s: State, id: JobId) {
    && id in s.rows && s.rows[id].status == Running && s.rows[id].runner.Some?
    && s.rows[id].runner.value in s.booted && s.rows[id].runner.value !in s.runners
  }

  /** A crash changes no row, and orphans exactly the RUNNING rows of the runner that crashed. */
  lemma CrashOrphansExactly(steps: seq<Step>, r: RunnerId, id: JobId)
    requires r in Run(steps).runners
    ensures var s, t := Run(steps), Apply(Run(steps), Crash(r));
      && t.rows == s.rows && t.runners == s.runners - {r} && t.log == s.log
      && (Orphan(t, id) <==> Orphan(s, id) || (id in s.rows && OwnsRun(s.rows, id, r)))
  {
    RunKeepsRows(steps);
  }

  /** What clients write: a new row waits or rests without an owner, with its own limit; a new status or limit changes
      that column of that row alone, whatever the row's status; a removal takes the rows themselves. */
  lemma ClientsWriteExactly(s: State, id: JobId, flag: bool, limit: int, ids: set<JobId>)
    ensures id !in s.issued ==>
      var job := Job(if flag then Suspended else Pending, None, None, limit, None, "");
      Apply(s, ClientCreate(id, flag, limit)).rows == s.rows[id := job]
    ensures id in s.issued ==> Apply(s, ClientCreate(id, flag, limit)) == s
    ensures id in s.rows ==>
      && Apply(s, ClientStatus(id, flag)).rows
         == s.rows[id := s.rows[id].(status := if flag then Suspended else Pending)]
      && Apply(s, ClientLimit(id, limit)).rows == s.rows[id := s.rows[id].(maxSeconds := limit)]
    ensures forall k :: k in Apply(s, Remove(ids)).rows <==> k in s.rows && k !in ids
    ensures forall k :: k in Apply(s, Remove(ids)).rows ==> Apply(s, Remove(ids)).rows[k] == s.rows[k]
  {
  }

  /** What a runner inserts: a row it owns, RUNNING and started at that instant, or PENDING. */
  lemma RunnersInsertExactly(s: State, id: JobId, r: RunnerId, runNow: bool, limit: int, at: Time)
    requires id !in s.issued && r in s.runners
    ensures var t := Apply(s, RunnerCreate(id, r, runNow, limit, at));
      && t.rows == s.rows[id := if runNow then Job(Running, Some(r), Some(at), limit, None, "")
                                else Job(Pending, Some(r), None, limit, None, "")]
      && t.issued == s.issued + {id} && t.runners == s.runners
  {
  }

  /** No client rewrites the job's status or limit; it may still be removed. */
  predicate Unattended(steps: seq<Step>, id: JobId) {
    forall i :: 0 <= i < |steps| ==>
      !(steps[i].ClientStatus? && steps[i].id == id) && !(steps[i].ClientLimit? && steps[i].lid == id)
  }

  predicate RecoveredIn(steps: seq<Step>, j: Job) {
    exists i :: 0 <= i < |steps| && steps[i].Recover? && Overdue(j, steps[i].instant)
  }

  /** Whatever else runs, an orphan nobody rewrites keeps its row until a recovery ends it, and the first
      recovery past its deadline does: from then on it is ERROR, or removed. */
  lemma {:induction false} OrphanLeavesRunning(steps: seq<Step>, more: seq<Step>, id: JobId)
    requires Orphan(Run(steps), id) && Unattended(more, id)
    ensures var s, t := Run(steps), Run(steps + more);
      id in t.rows ==>
        t.rows[id].status == Error || (Orphan(t, id) && t.rows[id] == s.rows[id] && !RecoveredIn(more, s.rows[id]))
    decreases |more|
  {
    if more == [] {
      assert steps + more == steps;
    } else {
      var init, last := more[..|more| - 1], more[|more| - 1];
      assert forall i :: 0 <= i < |init| ==> init[i] == more[i];
      OrphanLeavesRunning(steps, init, id);
      assert steps + more == (steps + init) + [last];
      RunSnoc(steps + init, last);
      OrphanLast(steps, init, last, more, id);
    }
  }

  lemma OrphanLast(steps: seq<Step>, init: seq<Step>, last: Step, more: seq<Step>, id: JobId)
    requires Orphan(Run(steps), id) && Unattended(more, id) && more == init + [last]
    requires var s, t := Run(steps), Run(steps + init);
      id in t.rows ==>
        t.rows[id].status == Error || (Orphan(t, id) && t.rows[id] == s.rows[id] && !RecoveredIn(init, s.rows[id]))
    ensures var s, t := Run(steps), Apply(Run(steps + init), last);
      id in t.rows ==>
        t.rows[id].status == Error || (Orphan(t, id) && t.rows[id] == s.rows[id] && !RecoveredIn(more, s.rows[id]))
  {
    var j := Run(steps).rows[id];
    RunKeepsRows(steps);
    RunKeepsRows(steps + init);
    IssuedStays(steps, init, id);
    assert last == more[|more| - 1];
    OrphanStep(Run(steps), Run(steps + init), last, id);
    if !RecoveredIn(init, j) && !(last.Recover? && Overdue(j, last.instant)) { NotRecovered(init, last, more, j); }
  }

  lemma NotRecovered(init: seq<Step>, last: Step, more: seq<Step>, j: Job)
    requires more == init + [last] && !RecoveredIn(init, j) && !(last.Recover? && Overdue(j, last.instant))
    ensures !RecoveredIn(more, j)
  {
  }

  lemma OrphanStep(start: State, s: State, step: Step, id: JobId)
    requires RowInv(s) && id in start.rows && id in start.issued && id in s.issued
    requires id in s.rows ==> s.rows[id].status == Error || (Orphan(s, id) && s.rows[id] == start.rows[id])
    requires !(step.ClientStatus? && step.id == id) && !(step.ClientLimit? && step.lid == id)
    ensures id in Apply(s, step).rows ==> id in s.rows
    ensures var t := Apply(s, step); id in t.rows && t.rows[id].status != Error ==>
      Orphan(s, id) && Orphan(t, id) && t.rows[id] == start.rows[id]
      && !(step.Recover? && Overdue(start.rows[id], step.instant))
  {
  }

  lemma StepKeepsIssued(s: State, step: Step)
    ensures s.issued <= Apply(s, step).issued
  {
  }

  lemma {:induction false} IssuedStays(steps: seq<Step>, more: seq<Step>, id: JobId)
    requires id in Run(steps).issued
    ensures id in Run(steps + more).issued
    decreases |more|
  {
    if more == [] {
      assert steps + more == steps;
    } else {
      var init, last := more[..|more| - 1], more[|more| - 1];
      IssuedStays(steps, init, id);
      assert steps + more == (steps + init) + [last];
      RunSnoc(steps + init, last);
      StepKeepsIssued(Run(steps + init), last);
    }
  }
}
