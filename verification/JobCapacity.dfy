/** How many RUNNING rows a runner can come to own, over every run of the job runner protocol
    (job_runner_service._claim_and_run, job_service.create_runner_owned). */
module JobCapacity {
  import opened Common
  import opened Keyset
  import opened Jobs
  import opened JobProtocol

  // ---------------------------------------------------------------- the outlook of a runner

  /** The rows a runner is about to claim that still exist: whatever their status now, a client may put them
      back to PENDING before the claim. */
  function ChosenRows(s: State, r: RunnerId): set<JobId>
    requires r in s.runners
  {
    if s.runners[r].phase.Chosen? then set id | id in s.runners[r].phase.ids && id in s.rows else {}
  }

  function Held(s: State, r: RunnerId): set<JobId>
    requires r in s.runners
  {
    RunningOf(s.rows, r) + ChosenRows(s, r)
  }

  /** What its RUNNING rows, its chosen rows and the room it has counted come to. */
  function Outlook(s: State, r: RunnerId): nat
    requires r in s.runners
  {
    |Held(s, r)| + if s.runners[r].phase.Counted? then s.runners[r].phase.capacity else 0
  }

  /** A claim-on-insert that takes effect. */
  predicate InsertsRun(s: State, step: Step) {
    step.RunnerCreate? && step.runNow && step.rid !in s.issued && step.owner in s.runners
  }

  predicate NoInserts(steps: seq<Step>) {
    forall i :: 0 <= i < |steps| ==> !(steps[i].RunnerCreate? && steps[i].runNow)
  }

  ghost predicate ChosenIssued(s: State) {
    forall r :: r in s.runners && s.runners[r].phase.Chosen? ==>
      forall id :: id in s.runners[r].phase.ids ==> id in s.issued
  }

  lemma StepKeepsChosen(s: State, step: Step)
    requires RowInv(s) && ChosenIssued(s)
    ensures ChosenIssued(Apply(s, step))
  {
    if step.Select? && step.selector in s.runners && s.runners[step.selector].phase.Counted? {
      CandidatesPending(s.rows, s.runners[step.selector].phase.capacity);
    }
  }

  lemma CandidatesPending(rows: Table, limit: nat)
    ensures var ids := Candidates(rows, limit);
      && (forall id :: id in ids ==> id in PendingIds(rows))
      && |ids| == |Elements(ids)| == if limit <= |PendingIds(rows)| then limit else |PendingIds(rows)|
  {
    IdOrderTotal();
    SmallestMeetsOrderLimit(IdLess, PendingIds(rows), limit);
    AscendingNoDuplicates(IdLess, Candidates(rows, limit));
  }

  lemma {:induction false} RunKeepsChosen(steps: seq<Step>)
    ensures RowInv(Run(steps)) && ChosenIssued(Run(steps))
  {
    RunKeepsRows(steps);
    if steps != [] {
      RunKeepsChosen(steps[..|steps| - 1]);
      StepKeepsChosen(Run(steps[..|steps| - 1]), steps[|steps| - 1]);
    }
  }

  // ---------------------------------------------------------------- what a step does to it

  /** Every step but a claim or a claim-on-insert of the runner itself can only take rows out of its RUNNING set. */
  lemma RunningShrinks(s: State, step: Step, r: RunnerId)
    requires !(InsertsRun(s, step) && step.owner == r)
    requires !(step.Claim? && step.claimer == r && r in s.runners)
    ensures RunningOf(Apply(s, step).rows, r) <= RunningOf(s.rows, r)
  {
  }

  /** A runner's outlook, if within its maximum, stays there, whatever bodies return and whatever anyone does
      between its count and its claim. */
  lemma StepKeepsOutlook(s: State, step: Step, r: RunnerId)
    requires RowInv(s) && ChosenIssued(s) && r in s.runners && r in Apply(s, step).runners
    requires !(InsertsRun(s, step) && step.owner == r) && Outlook(s, r) <= s.runners[r].max
    ensures var t := Apply(s, step); t.runners[r].max == s.runners[r].max && Outlook(t, r) <= t.runners[r].max
  {
    var t := Apply(s, step);
    if step.Claim? && step.claimer == r {
      OwnClaim(s, step, r);
    } else if step.Select? && step.selector == r {
      OwnSelect(s, step, r);
    } else {
      RunningShrinks(s, step, r);
      if step.Count? && step.counter == r {
        assert RunningOf(t.rows, r) == RunningOf(s.rows, r);
        assert s.runners[r].phase.Idle? ==> Held(t, r) == RunningOf(s.rows, r) && Held(s, r) == RunningOf(s.rows, r);
      } else {
        HeldShrinks(s, step, r);
        SubsetSize(Held(t, r), Held(s, r));
      }
    }
  }

  lemma HeldShrinks(s: State, step: Step, r: RunnerId)
    requires RowInv(s) && ChosenIssued(s) && r in s.runners && r in Apply(s, step).runners
    requires !(InsertsRun(s, step) && step.owner == r)
    requires !(step.Claim? && step.claimer == r) && !(step.Select? && step.selector == r)
    requires !(step.Count? && step.counter == r)
    ensures var t := Apply(s, step); t.runners[r].phase == s.runners[r].phase && t.runners[r].max == s.runners[r].max
    ensures Held(Apply(s, step), r) <= Held(s, r)
  {
    RunningShrinks(s, step, r);
  }

  lemma OwnClaim(s: State, step: Step, r: RunnerId)
    requires r in s.runners && step.Claim? && step.claimer == r
    ensures var t := Apply(s, step);
      r in t.runners && t.runners[r].max == s.runners[r].max && Outlook(t, r) <= Outlook(s, r)
  {
    if s.runners[r].phase.Chosen? {
      var t := Apply(s, step);
      ClaimIsGuarded(s.rows, s.runners[r].phase.ids, r, step.now);
      assert ClaimHits(s.rows, s.runners[r].phase.ids) <= ChosenRows(s, r);
      assert Held(t, r) == RunningOf(t.rows, r);
      SubsetSize(Held(t, r), Held(s, r));
    }
  }

  lemma OwnSelect(s: State, step: Step, r: RunnerId)
    requires r in s.runners && step.Select? && step.selector == r
    ensures var t := Apply(s, step);
      r in t.runners && t.runners[r].max == s.runners[r].max && Outlook(t, r) <= Outlook(s, r)
  {
    if s.runners[r].phase.Counted? {
      var t := Apply(s, step);
      var ids := t.runners[r].phase.ids;
      CandidatesPending(s.rows, s.runners[r].phase.capacity);
      SubsetSize(ChosenRows(t, r), Elements(ids));
      UnionSize(RunningOf(s.rows, r), ChosenRows(t, r));
      assert Held(s, r) == RunningOf(s.rows, r);
    }
  }

  lemma NewRowNotHeld(s: State, r: RunnerId, id: JobId)
    requires RowInv(s) && ChosenIssued(s) && r in s.runners && id !in s.issued
    ensures id !in Held(s, r) && id !in s.rows && (s.runners[r].phase.Chosen? ==> id !in s.runners[r].phase.ids)
  {
  }

  /** A claim-on-insert adds one to the outlook of its runner. */
  lemma InsertAddsOne(s: State, step: Step)
    requires RowInv(s) && ChosenIssued(s) && InsertsRun(s, step)
    ensures var t := Apply(s, step); t.runners == s.runners && Outlook(t, step.owner) == Outlook(s, step.owner) + 1
  {
    NewRowNotHeld(s, step.owner, step.rid);
    RowAddsOne(s, Apply(s, step), step.owner, step.rid);
  }

  /** t is s with one more RUNNING row of r. */
  ghost predicate OneMoreRow(s: State, t: State, r: RunnerId, id: JobId) {
    && id !in s.rows && id in t.rows && t.rows == s.rows[id := t.rows[id]]
    && t.rows[id].status == Running && t.rows[id].runner == Some(r)
  }

  lemma RowRuns(s: State, t: State, r: RunnerId, id: JobId)
    requires OneMoreRow(s, t, r, id)
    ensures RunningOf(t.rows, r) == RunningOf(s.rows, r) + {id}
  {
  }

  lemma RowNotChosen(s: State, t: State, r: RunnerId, id: JobId)
    requires OneMoreRow(s, t, r, id) && r in s.runners && t.runners == s.runners
    requires s.runners[r].phase.Chosen? ==> id !in s.runners[r].phase.ids
    ensures ChosenRows(t, r) == ChosenRows(s, r)
  {
  }

  lemma RowAddsOne(s: State, t: State, r: RunnerId, id: JobId)
    requires OneMoreRow(s, t, r, id) && r in s.runners && t.runners == s.runners && id !in Held(s, r)
    requires s.runners[r].phase.Chosen? ==> id !in s.runners[r].phase.ids
    ensures Outlook(t, r) == Outlook(s, r) + 1
  {
    RowRuns(s, t, r, id);
    RowNotChosen(s, t, r, id);
    assert Held(t, r) == Held(s, r) + {id};
  }

  // ---------------------------------------------------------------- capacity over runs

  /** The claims-on-insert of a run find room in their runner's outlook. */
  ghost predicate InsertsHaveRoom(steps: seq<Step>) {
    forall i :: 0 <= i < |steps| ==> RoomAt(Run(steps[..i]), steps[i])
  }

  predicate RoomAt(s: State, step: Step) { InsertsRun(s, step) ==> Outlook(s, step.owner) < s.runners[step.owner].max }

  ghost predicate WithinCapacity(s: State) { forall r :: r in s.runners ==> Outlook(s, r) <= s.runners[r].max }

  lemma StepKeepsCapacity(s: State, step: Step)
    requires RowInv(s) && ChosenIssued(s) && WithinCapacity(s) && RoomAt(s, step)
    ensures WithinCapacity(Apply(s, step))
  {
    forall r | r in Apply(s, step).runners ensures Outlook(Apply(s, step), r) <= Apply(s, step).runners[r].max {
      if r !in s.runners {
        NewRunnerHoldsNothing(s, step, r);
      } else if InsertsRun(s, step) && step.owner == r {
        InsertAddsOne(s, step);
      } else {
        StepKeepsOutlook(s, step, r);
      }
    }
  }

  lemma NewRunnerHoldsNothing(s: State, step: Step, r: RunnerId)
    requires RowInv(s) && r !in s.runners && r in Apply(s, step).runners
    ensures Outlook(Apply(s, step), r) == 0
  {
    assert Held(Apply(s, step), r) == {};
  }

  lemma RunningWithin(s: State, r: RunnerId)
    requires r in s.runners
    ensures |RunningOf(s.rows, r)| <= Outlook(s, r)
  {
    SubsetSize(RunningOf(s.rows, r), Held(s, r));
  }

  /** In every reachable state a runner owns at most max_concurrent_jobs RUNNING rows, whatever bodies return
      and whatever happens between its count and its claim, provided each claim-on-insert, the one step that does
      not look at the count, found room. */
  lemma {:induction false} CapacityHolds(steps: seq<Step>)
    requires InsertsHaveRoom(steps)
    ensures WithinCapacity(Run(steps))
    ensures forall r :: r in Run(steps).runners ==> |RunningOf(Run(steps).rows, r)| <= Run(steps).runners[r].max
  {
    if steps != [] {
      var before := steps[..|steps| - 1];
      forall i | 0 <= i < |before| ensures RoomAt(Run(before[..i]), before[i]) {
        assert RoomAt(Run(steps[..i]), steps[i]) && steps[..i] == before[..i];
      }
      CapacityHolds(before);
      RunKeepsChosen(before);
      assert RoomAt(Run(steps[..|before|]), steps[|before|]);
      StepKeepsCapacity(Run(before), steps[|steps| - 1]);
    }
    forall r | r in Run(steps).runners ensures |RunningOf(Run(steps).rows, r)| <= Run(steps).runners[r].max {
      RunningWithin(Run(steps), r);
    }
  }

  /** A runner that may have crashed meanwhile. */
  ghost predicate Bounded(s: State, r: RunnerId, max: nat) {
    && r in s.booted && |RunningOf(s.rows, r)| <= max
    && (r in s.runners ==> s.runners[r].max == max && Outlook(s, r) <= max)
  }

  lemma StepKeepsBounded(s: State, step: Step, r: RunnerId, max: nat)
    requires RowInv(s) && ChosenIssued(s) && Bounded(s, r, max) && !(step.RunnerCreate? && step.runNow)
    ensures Bounded(Apply(s, step), r, max)
  {
    BootedOnce(s, step, r);
    if r in Apply(s, step).runners {
      StepKeepsOutlook(s, step, r);
      RunningWithin(Apply(s, step), r);
    } else {
      RunningShrinksBy(s, step, r);
    }
  }

  lemma BootedOnce(s: State, step: Step, r: RunnerId)
    requires r in s.booted
    ensures r in Apply(s, step).booted && (r in Apply(s, step).runners ==> r in s.runners)
  {
  }

  lemma RunningShrinksBy(s: State, step: Step, r: RunnerId)
    requires !(step.RunnerCreate? && step.runNow) && r !in Apply(s, step).runners
    ensures |RunningOf(Apply(s, step).rows, r)| <= |RunningOf(s.rows, r)|
  {
    RunningShrinks(s, step, r);
    SubsetSize(RunningOf(Apply(s, step).rows, r), RunningOf(s.rows, r));
  }

  lemma {:induction false} StaysBounded(steps: seq<Step>, more: seq<Step>, r: RunnerId, max: nat)
    requires Bounded(Run(steps), r, max) && NoInserts(more)
    ensures Bounded(Run(steps + more), r, max)
    decreases |more|
  {
    if more == [] {
      assert steps + more == steps;
    } else {
      var init, last := more[..|more| - 1], more[|more| - 1];
      assert forall i :: 0 <= i < |init| ==> init[i] == more[i];
      StaysBounded(steps, init, r, max);
      assert steps + more == (steps + init) + [last];
      RunSnoc(steps + init, last);
      RunKeepsChosen(steps + init);
      StepKeepsBounded(Run(steps + init), last, r, max);
    }
  }

  ghost predicate StaysWithin(steps: seq<Step>, r: RunnerId, max: nat) {
    forall more :: NoInserts(more) ==> |RunningOf(Run(steps + more).rows, r)| <= max
  }

  /** The exact condition, in every reachable state: a runner stays within its maximum through every
      continuation without claims-on-insert if and only if its outlook is within it. */
  lemma CapacityExactly(steps: seq<Step>, r: RunnerId)
    requires r in Run(steps).runners
    ensures Outlook(Run(steps), r) <= Run(steps).runners[r].max <==> StaysWithin(steps, r, Run(steps).runners[r].max)
  {
    var s := Run(steps);
    RunKeepsChosen(steps);
    if Outlook(s, r) <= s.runners[r].max {
      RunningWithin(s, r);
      forall more | NoInserts(more) ensures |RunningOf(Run(steps + more).rows, r)| <= s.runners[r].max {
        StaysBounded(steps, more, r, s.runners[r].max);
      }
    } else {
      var more := OutlookIsReached(steps, r);
      assert NoInserts(more) && |RunningOf(Run(steps + more).rows, r)| > s.runners[r].max;
    }
  }

  /** So a claim-on-insert keeps the capacity safe exactly when it finds room. */
  lemma InsertKeepsCapacityExactly(steps: seq<Step>, step: Step)
    requires InsertsRun(Run(steps), step) && Outlook(Run(steps), step.owner) <= Run(steps).runners[step.owner].max
    ensures StaysWithin(steps + [step], step.owner, Run(steps).runners[step.owner].max) <==> RoomAt(Run(steps), step)
  {
    RunKeepsChosen(steps);
    RunSnoc(steps, step);
    InsertAddsOne(Run(steps), step);
    CapacityExactly(steps + [step], step.owner);
  }

  // ---------------------------------------------------------------- the outlook is reached

  /** Some continuation without claims-on-insert makes the runner own as many RUNNING rows as its outlook. */
  lemma OutlookIsReached(steps: seq<Step>, r: RunnerId) returns (more: seq<Step>)
    requires r in Run(steps).runners
    ensures NoInserts(more) && |RunningOf(Run(steps + more).rows, r)| == Outlook(Run(steps), r)
  {
    match Run(steps).runners[r].phase {
      case Idle => more := IdleIsReached(steps, r);
      case Chosen(ids) => more := ChosenIsReached(steps, r, ids);
      case Counted(c) => more := CountedIsReached(steps, r, c);
    }
  }

  lemma IdleIsReached(steps: seq<Step>, r: RunnerId) returns (more: seq<Step>)
    requires r in Run(steps).runners && Run(steps).runners[r].phase.Idle?
    ensures NoInserts(more) && |RunningOf(Run(steps + more).rows, r)| == Outlook(Run(steps), r)
  {
    more := [];
    assert steps + more == steps;
    assert Held(Run(steps), r) == RunningOf(Run(steps).rows, r);
  }

  lemma ChosenIsReached(steps: seq<Step>, r: RunnerId, ids: seq<JobId>) returns (more: seq<Step>)
    requires r in Run(steps).runners && Run(steps).runners[r].phase == Chosen(ids)
    ensures NoInserts(more) && |RunningOf(Run(steps + more).rows, r)| == Outlook(Run(steps), r)
  {
    more := Requeue(ids) + [Claim(r, 0)];
    ChosenAreClaimed(steps, r, ids);
  }

  /** First clients create enough jobs for the counted room, then the runner selects and claims them. */
  lemma CountedIsReached(steps: seq<Step>, r: RunnerId, c: nat) returns (more: seq<Step>)
    requires r in Run(steps).runners && Run(steps).runners[r].phase == Counted(c)
    ensures NoInserts(more) && |RunningOf(Run(steps + more).rows, r)| == Outlook(Run(steps), r)
  {
    RunKeepsRows(steps);
    var f := FreshId(Run(steps).issued);
    var filling := NewJobs(f, c);
    var ids := RoomIsFilled(steps, r, f, c);
    var claiming := ChosenIsReached(steps + filling + [Select(r)], r, ids);
    more := JoinedSteps(steps, filling, Select(r), claiming);
    CountedOutlook(Run(steps), r, c);
  }

  lemma JoinedSteps(steps: seq<Step>, first: seq<Step>, step: Step, last: seq<Step>) returns (more: seq<Step>)
    requires NoInserts(first) && NoInserts(last) && !step.RunnerCreate?
    ensures NoInserts(more) && steps + more == steps + first + [step] + last
  {
    more := first + [step] + last;
  }

  lemma CountedOutlook(s: State, r: RunnerId, c: nat)
    requires r in s.runners && s.runners[r].phase == Counted(c)
    ensures Outlook(s, r) == |RunningOf(s.rows, r)| + c
  {
    assert Held(s, r) == RunningOf(s.rows, r);
  }

  /** A client puts jobs back to PENDING. */
  function Requeue(ids: seq<JobId>): (steps: seq<Step>)
    ensures NoInserts(steps)
  {
    if ids == [] then [] else Requeue(ids[..|ids| - 1]) + [ClientStatus(ids[|ids| - 1], false)]
  }

  lemma {:induction false} Requeued(steps: seq<Step>, ids: seq<JobId>)
    ensures var s, t := Run(steps), Run(steps + Requeue(ids));
      && t.runners == s.runners && t.rows.Keys == s.rows.Keys
      && forall id :: id in s.rows ==> t.rows[id] == if id in ids then s.rows[id].(status := Pending) else s.rows[id]
    decreases |ids|
  {
    if ids == [] {
      assert steps + Requeue(ids) == steps;
    } else {
      var init, last := ids[..|ids| - 1], ids[|ids| - 1];
      assert ids == init + [last];
      Requeued(steps, init);
      assert steps + Requeue(ids) == (steps + Requeue(init)) + [ClientStatus(last, false)];
      RunSnoc(steps + Requeue(init), ClientStatus(last, false));
    }
  }

  lemma ChosenAreClaimed(steps: seq<Step>, r: RunnerId, ids: seq<JobId>)
    requires r in Run(steps).runners && Run(steps).runners[r].phase == Chosen(ids)
    ensures RunningOf(Run(steps + (Requeue(ids) + [Claim(r, 0)])).rows, r) == Held(Run(steps), r)
  {
    Requeued(steps, ids);
    RunSnoc(steps + Requeue(ids), Claim(r, 0));
    assert steps + (Requeue(ids) + [Claim(r, 0)]) == (steps + Requeue(ids)) + [Claim(r, 0)];
    AllAreClaimed(Run(steps), Run(steps + Requeue(ids)), r, ids);
  }

  lemma AllAreClaimed(s: State, t: State, r: RunnerId, ids: seq<JobId>)
    requires r in s.runners && s.runners[r].phase == Chosen(ids) && t.runners == s.runners && t.rows.Keys == s.rows.Keys
    requires forall id ::
      id in s.rows ==> t.rows[id] == if id in ids then s.rows[id].(status := Pending) else s.rows[id]
    ensures RunningOf(Apply(t, Claim(r, 0)).rows, r) == Held(s, r)
  {
    ClaimIsGuarded(t.rows, ids, r, 0);
    assert ClaimHits(t.rows, ids) == ChosenRows(s, r);
    assert RunningOf(t.rows, r) == RunningOf(s.rows, r) - ChosenRows(s, r);
    assert RunningOf(Apply(t, Claim(r, 0)).rows, r) == RunningOf(t.rows, r) + ChosenRows(s, r);
  }

  /** Clients create c jobs with fresh ids. */
  function NewJobs(f: JobId, c: nat): (steps: seq<Step>)
    ensures NoInserts(steps)
  {
    if c == 0 then [] else NewJobs(f, c - 1) + [ClientCreate(f + c - 1, false, 60)]
  }

  /** t is s with c more PENDING jobs; ids from f on are still free. */
  ghost predicate HasMore(s: State, t: State, r: RunnerId, c: nat, f: JobId) {
    && t.runners == s.runners && RunningOf(t.rows, r) == RunningOf(s.rows, r)
    && |PendingIds(t.rows)| == |PendingIds(s.rows)| + c && forall id :: id in t.issued ==> id < f
  }

  lemma NoneMore(s: State, r: RunnerId, f: JobId)
    requires forall id :: id in s.issued ==> id < f
    ensures HasMore(s, s, r, 0, f)
  {
  }

  lemma NewJobsSnoc(steps: seq<Step>, f: JobId, c: nat)
    requires c > 0
    ensures steps + NewJobs(f, c) == steps + NewJobs(f, c - 1) + [ClientCreate(f + c - 1, false, 60)]
  {
  }

  lemma {:induction false} Filled(steps: seq<Step>, r: RunnerId, f: JobId, c: nat)
    requires HasMore(Run(steps), Run(steps), r, 0, f)
    ensures HasMore(Run(steps), Run(steps + NewJobs(f, c)), r, c, f + c)
    decreases c
  {
    if c == 0 {
      assert steps + NewJobs(f, c) == steps;
    } else {
      Filled(steps, r, f, c - 1);
      NewJobsSnoc(steps, f, c);
      FilledSnoc(steps, steps + NewJobs(f, c - 1), steps + NewJobs(f, c), r, c - 1, f + c - 1);
    }
  }

  lemma FilledSnoc(steps: seq<Step>, before: seq<Step>, after: seq<Step>, r: RunnerId, c: nat, id: JobId)
    requires HasMore(Run(steps), Run(before), r, c, id)
    requires after == before + [ClientCreate(id, false, 60)]
    ensures HasMore(Run(steps), Run(after), r, c + 1, id + 1)
  {
    RunSnoc(before, ClientCreate(id, false, 60));
    RunKeepsRows(before);
    OneMore(Run(steps), Run(before), r, c, id);
  }

  lemma OneMore(s: State, t: State, r: RunnerId, c: nat, id: JobId)
    requires HasMore(s, t, r, c, id) && RowInv(t)
    ensures HasMore(s, Apply(t, ClientCreate(id, false, 60)), r, c + 1, id + 1)
  {
    assert id !in t.issued;
    NewJobAdds(t, id, r);
  }

  lemma NewJobAdds(s: State, id: JobId, r: RunnerId)
    requires RowInv(s) && id !in s.issued
    ensures var t := Apply(s, ClientCreate(id, false, 60));
      && t.runners == s.runners && RunningOf(t.rows, r) == RunningOf(s.rows, r) && t.issued == s.issued + {id}
      && |PendingIds(t.rows)| == |PendingIds(s.rows)| + 1
  {
    var t := Apply(s, ClientCreate(id, false, 60));
    assert id !in PendingIds(s.rows);
    assert PendingIds(t.rows) == PendingIds(s.rows) + {id};
  }

  lemma RoomIsFilled(steps: seq<Step>, r: RunnerId, f: JobId, c: nat) returns (ids: seq<JobId>)
    requires r in Run(steps).runners && Run(steps).runners[r].phase == Counted(c)
    requires forall id :: id in Run(steps).issued ==> id < f
    ensures var t := Run(steps + NewJobs(f, c) + [Select(r)]);
      && r in t.runners && t.runners[r].phase == Chosen(ids) && Outlook(t, r) == |RunningOf(Run(steps).rows, r)| + c
  {
    NoneMore(Run(steps), r, f);
    Filled(steps, r, f, c);
    RunSnoc(steps + NewJobs(f, c), Select(r));
    ids := SelectsAll(Run(steps), Run(steps + NewJobs(f, c)), r, c, f + c);
  }

  lemma SelectsAll(s: State, u: State, r: RunnerId, c: nat, f: JobId) returns (ids: seq<JobId>)
    requires r in s.runners && s.runners[r].phase == Counted(c) && HasMore(s, u, r, c, f)
    ensures var t := Apply(u, Select(r));
      && r in t.runners && t.runners[r].phase == Chosen(ids) && Outlook(t, r) == |RunningOf(s.rows, r)| + c
  {
    var t := Apply(u, Select(r));
    ids := Candidates(u.rows, c);
    CandidatesPending(u.rows, c);
    assert ChosenRows(t, r) == Elements(ids);
    UnionSize(RunningOf(u.rows, r), Elements(ids));
  }

  // ---------------------------------------------------------------- inserts without room

  /** A runner that boots and then inserts n jobs of its own to run at once. */
  function Inserts(r: RunnerId, max: nat, n: nat): seq<Step> {
    if n == 0 then [Boot(r, max)] else Inserts(r, max, n - 1) + [RunnerCreate(n, r, true, 60, 0)]
  }

  /** The runner with n RUNNING rows, ids above n still free. */
  ghost predicate HasRunning(s: State, r: RunnerId, max: nat, n: nat) {
    && r in s.runners && s.runners[r].max == max && |RunningOf(s.rows, r)| == n
    && forall id :: id in s.issued ==> id <= n
  }

  /** Nothing stops it at its maximum: n inserts give it n RUNNING rows, for every n. */
  lemma {:induction false} ClaimOnInsertExceeds(r: RunnerId, max: nat, n: nat)
    ensures HasRunning(Run(Inserts(r, max, n)), r, max, n)
  {
    if n == 0 {
      BootsEmpty(r, max);
    } else {
      ClaimOnInsertExceeds(r, max, n - 1);
      RunSnoc(Inserts(r, max, n - 1), RunnerCreate(n, r, true, 60, 0));
      RunKeepsRows(Inserts(r, max, n - 1));
      InsertRunsOne(Run(Inserts(r, max, n - 1)), r, max, n - 1);
    }
  }

  lemma BootsEmpty(r: RunnerId, max: nat)
    ensures HasRunning(Run([Boot(r, max)]), r, max, 0)
  {
    assert [Boot(r, max)] == [] + [Boot(r, max)];
    RunSnoc([], Boot(r, max));
    assert RunningOf(INITIAL.rows, r) == {};
  }

  lemma InsertRunsOne(s: State, r: RunnerId, max: nat, n: nat)
    requires RowInv(s) && HasRunning(s, r, max, n)
    ensures HasRunning(Apply(s, RunnerCreate(n + 1, r, true, 60, 0)), r, max, n + 1)
  {
    var t := Apply(s, RunnerCreate(n + 1, r, true, 60, 0));
    RowRuns(s, t, r, n + 1);
    assert n + 1 !in RunningOf(s.rows, r);
  }
}
