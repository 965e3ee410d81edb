/** Any number of processes refreshing one federated session: waiting for the row lock or giving up,
    re-checking under it, calling the IdP, committing, failing and crashing, with revocations in between. */
module TokenRaces {
  import opened Common
  import opened TokenExpiry
  import opened TokenRotation

  type Pid = nat

  /** A request between its first statement and the end of its transaction. What a lock holder has seen is
      the committed row. */
  datatype Process = Waiting(path: Path) | Holding(seen: Rows) | Answered(seen: Rows, answer: Answer)

  /** What happens to refresh tokens: sent to the IdP; a new one returned; that one committed, or gone with
      its transaction. */
  datatype Event = Presented(pid: Pid, token: Token) | Returned(pid: Pid, token: Token)
    | Kept(pid: Pid, token: Token) | Dropped(pid: Pid, token: Token)

  datatype State = State(rows: Option<Rows>, lock: Option<Pid>, procs: map<Pid, Process>, started: set<Pid>,
                         unissued: Token, log: seq<Event>)

  datatype Step =
    | Start(pid: Pid, path: Path)
    | Acquire(pid: Pid, now: Time, recheck: Time)
    | Timeout(pid: Pid)
    | Answer(pid: Pid, answer: TokenRotation.Answer)
    | Commit(pid: Pid, r1: Time, r2: Time)
    | Abort(pid: Pid)
    | RevokeAccess(now: Time)
    | Delete

  function Begin(rows: Rows): State { State(Some(rows), None, map[], {}, rows.refreshToken + 1, []) }

  /** The answer carries a refresh token other than the one presented. */
  predicate Rotates(seen: Rows, answer: TokenRotation.Answer) {
    answer.Ok? && answer.value.refreshToken.Some? && answer.value.refreshToken.value != seen.refreshToken
  }

  predicate IsIn(s: State, p: Pid) { p in s.procs }

  /** One step; one that cannot happen changes nothing. The IdP never reissues an old token; it may return
      the presented one. Deleting the row waits for the lock; revoking the access row does not. */
  function Apply(cfg: IdpConfig, s: State, step: Step): State {
    match step
    case Start(p, path) =>
      if p in s.started then s else s.(procs := s.procs[p := Waiting(path)], started := s.started + {p})
    case Acquire(p, now, recheck) =>
      if !IsIn(s, p) || !s.procs[p].Waiting? || s.lock.Some? then s
      else if CallsIdp(s.procs[p].path, s.rows, now, recheck)
        then s.(lock := Some(p), procs := s.procs[p := Holding(s.rows.value)])
      else s.(procs := s.procs - {p})
    case Timeout(p) => if !IsIn(s, p) || !s.procs[p].Waiting? then s else s.(procs := s.procs - {p})
    case Answer(p, answer) =>
      if !IsIn(s, p) || !s.procs[p].Holding? then s
      else
        var seen := s.procs[p].seen;
        var asked := s.(procs := s.procs[p := Answered(seen, answer)],
                        log := s.log + [Presented(p, seen.refreshToken)]);
        if !Rotates(seen, answer) then asked
        else if answer.value.refreshToken.value < s.unissued then s
        else asked.(unissued := answer.value.refreshToken.value + 1,
                    log := asked.log + [Returned(p, answer.value.refreshToken.value)])
    case Commit(p, r1, r2) =>
      if !IsIn(s, p) || !s.procs[p].Answered? then s
      else
        var written := Rewritten(cfg, s.procs[p].seen, s.procs[p].answer, r1, r2);
        if written.Err? then s
        else s.(rows := Some(written.value), lock := None, procs := s.procs - {p},
                log := if Rotates(s.procs[p].seen, s.procs[p].answer)
                then s.log + [Kept(p, written.value.refreshToken)] else s.log)
    case Abort(p) =>
      if !IsIn(s, p) then s
      else s.(lock := if s.lock == Some(p) then None else s.lock, procs := s.procs - {p},
              log := if s.procs[p].Answered? && Rotates(s.procs[p].seen, s.procs[p].answer)
                then s.log + [Dropped(p, s.procs[p].answer.value.refreshToken.value)] else s.log)
    case RevokeAccess(now) => if s.rows.None? then s else s.(rows := Some(s.rows.value.(accessExpires := now)))
    case Delete => if s.lock.Some? then s else s.(rows := None)
  }

  function Run(cfg: IdpConfig, rows: Rows, steps: seq<Step>): State {
    if steps == [] then Begin(rows) else Apply(cfg, Run(cfg, rows, steps[..|steps| - 1]), steps[|steps| - 1])
  }

  // ---------------------------------------------------------------- the ledger of one row

  /** The refresh token last committed, the one last returned by the IdP, whether that one is still in a
      transaction, and whether it went down with one. */
  datatype Ledger = Ledger(held: Token, latest: Token, inFlight: bool, lost: bool)

  function Enter(l: Ledger, e: Event): Ledger {
    match e
    case Presented(_, _) => l
    case Returned(_, t) => l.(latest := t, inFlight := true, lost := false)
    case Kept(_, t) => l.(held := t, inFlight := false)
    case Dropped(_, _) => l.(inFlight := false, lost := true)
  }

  function LedgerOf(initial: Token, log: seq<Event>): Ledger {
    if log == [] then Ledger(initial, initial, false, false)
      else Enter(LedgerOf(initial, log[..|log| - 1]), log[|log| - 1])
  }

  lemma LedgerSnoc(initial: Token, log: seq<Event>, e: Event)
    ensures LedgerOf(initial, log + [e]) == Enter(LedgerOf(initial, log), e)
  {
    assert (log + [e])[..|log|] == log;
  }

  /** Every entry follows from the ones before it: what is presented is what is held, nothing being in
      flight; what is kept or dropped is what was last returned. */
  ghost predicate WellKept(initial: Token, log: seq<Event>) {
    forall i :: 0 <= i < |log| ==> Follows(LedgerOf(initial, log[..i]), log[i])
  }

  ghost predicate Follows(l: Ledger, e: Event) {
    match e
    case Presented(_, t) => t == l.held && !l.inFlight
    case Returned(_, t) => !l.inFlight && t != l.held
    case Kept(_, t) => l.inFlight && t == l.latest
    case Dropped(_, t) => l.inFlight && t == l.latest
  }

  lemma WellKeptSnoc(initial: Token, log: seq<Event>, e: Event)
    requires WellKept(initial, log) && Follows(LedgerOf(initial, log), e)
    ensures WellKept(initial, log + [e])
  {
    var grown := log + [e];
    forall i | 0 <= i < |grown| ensures Follows(LedgerOf(initial, grown[..i]), grown[i]) {
      assert grown[..i] == log[..i];
      if i == |log| { assert log[..i] == log; }
    }
  }

  // ---------------------------------------------------------------- the invariant

  ghost predicate LockHeld(s: State) {
    && s.procs.Keys <= s.started
    && (s.lock.Some? ==> s.lock.value in s.procs && !s.procs[s.lock.value].Waiting? && s.rows.Some?)
    && (forall p :: p in s.procs && !s.procs[p].Waiting? ==>
        s.lock == Some(p) && s.procs[p].seen.refreshToken == s.rows.value.refreshToken)
  }

  /** The new refresh token in the hands of the lock holder, if it has one. */
  function NewToken(s: State): Option<Token> {
    if s.lock.Some? && s.lock.value in s.procs && s.procs[s.lock.value].Answered?
       && Rotates(s.procs[s.lock.value].seen, s.procs[s.lock.value].answer)
    then s.procs[s.lock.value].answer.value.refreshToken
    else None
  }

  ghost predicate Balanced(l: Ledger) {
    if l.inFlight then l.held != l.latest && !l.lost else l.held == l.latest <==> !l.lost
  }

  ghost predicate Accounted(initial: Token, s: State) {
    var l := LedgerOf(initial, s.log);
    && WellKept(initial, s.log) && Balanced(l)
    && (s.rows.Some? ==> s.rows.value.refreshToken == l.held)
    && l.held < s.unissued && l.latest < s.unissued
    && NewToken(s) == if l.inFlight then Some(l.latest) else None
  }

  ghost predicate Inv(initial: Token, s: State) { LockHeld(s) && Accounted(initial, s) }

  lemma AnswerKeepsLock(cfg: IdpConfig, s: State, p: Pid, answer: TokenRotation.Answer)
    requires LockHeld(s) && p in s.procs && s.procs[p].Holding?
    ensures LockHeld(Apply(cfg, s, Answer(p, answer)))
  {
  }

  lemma AnswerIsEntered(cfg: IdpConfig, initial: Token, s: State, p: Pid, answer: TokenRotation.Answer, t: State)
    requires Inv(initial, s) && p in s.procs && s.procs[p].Holding? && t == Apply(cfg, s, Answer(p, answer)) && t != s
    ensures var l := LedgerOf(initial, s.log);
      && WellKept(initial, t.log)
      && LedgerOf(initial, t.log) ==
           if Rotates(s.procs[p].seen, answer)
             then l.(latest := answer.value.refreshToken.value, inFlight := true, lost := false) else l
  {
    var asking := Presented(p, s.procs[p].seen.refreshToken);
    Entered(initial, s.log, asking);
    if Rotates(s.procs[p].seen, answer) {
      Entered(initial, s.log + [asking], Returned(p, answer.value.refreshToken.value));
    }
  }

  lemma AnswerKeepsInv(cfg: IdpConfig, initial: Token, s: State, p: Pid, answer: TokenRotation.Answer)
    requires Inv(initial, s) && p in s.procs && s.procs[p].Holding?
    ensures Inv(initial, Apply(cfg, s, Answer(p, answer)))
  {
    var t := Apply(cfg, s, Answer(p, answer));
    AnswerKeepsLock(cfg, s, p, answer);
    if t != s { AnswerIsEntered(cfg, initial, s, p, answer, t); }
  }

  lemma Entered(initial: Token, log: seq<Event>, e: Event)
    requires WellKept(initial, log) && Follows(LedgerOf(initial, log), e)
    ensures WellKept(initial, log + [e]) && LedgerOf(initial, log + [e]) == Enter(LedgerOf(initial, log), e)
  {
    WellKeptSnoc(initial, log, e);
    LedgerSnoc(initial, log, e);
  }

  lemma CommitKeepsLock(cfg: IdpConfig, s: State, p: Pid, r1: Time, r2: Time)
    requires LockHeld(s) && p in s.procs && s.procs[p].Answered?
    ensures LockHeld(Apply(cfg, s, Commit(p, r1, r2)))
  {
  }

  /** The lock holder's answer is the token in flight. */
  lemma AnswerInFlight(initial: Token, s: State, p: Pid)
    requires Inv(initial, s) && p in s.procs && s.procs[p].Answered?
    ensures s.lock == Some(p) && s.rows.Some? && s.procs[p].seen.refreshToken == LedgerOf(initial, s.log).held
    ensures var l := LedgerOf(initial, s.log);
      && (l.inFlight <==> Rotates(s.procs[p].seen, s.procs[p].answer))
      && (l.inFlight ==> s.procs[p].answer.value.refreshToken == Some(l.latest))
  {
  }

  lemma CommitIsEntered(cfg: IdpConfig, initial: Token, s: State, p: Pid, r1: Time, r2: Time, t: State)
    requires Inv(initial, s) && p in s.procs && s.procs[p].Answered? && t == Apply(cfg, s, Commit(p, r1, r2)) && t != s
    ensures var l := LedgerOf(initial, s.log);
      && WellKept(initial, t.log)
      && LedgerOf(initial, t.log) == if l.inFlight then l.(held := l.latest, inFlight := false) else l
  {
    AnswerInFlight(initial, s, p);
    var l := LedgerOf(initial, s.log);
    if l.inFlight { Entered(initial, s.log, Kept(p, l.latest)); }
  }

  lemma CommitWrites(cfg: IdpConfig, initial: Token, s: State, p: Pid, r1: Time, r2: Time, t: State)
    requires Inv(initial, s) && p in s.procs && s.procs[p].Answered? && t == Apply(cfg, s, Commit(p, r1, r2)) && t != s
    ensures var l := LedgerOf(initial, s.log);
      && t.rows.Some? && t.rows.value.refreshToken == (if l.inFlight then l.latest else l.held)
      && t.lock == None && t.unissued == s.unissued
  {
    AnswerInFlight(initial, s, p);
  }

  lemma CommitKeepsInv(cfg: IdpConfig, initial: Token, s: State, p: Pid, r1: Time, r2: Time)
    requires Inv(initial, s) && p in s.procs && s.procs[p].Answered?
    ensures Inv(initial, Apply(cfg, s, Commit(p, r1, r2)))
  {
    var t := Apply(cfg, s, Commit(p, r1, r2));
    CommitKeepsLock(cfg, s, p, r1, r2);
    if t != s {
      CommitIsEntered(cfg, initial, s, p, r1, r2, t);
      CommitWrites(cfg, initial, s, p, r1, r2, t);
    }
  }

  lemma AbortKeepsInv(cfg: IdpConfig, initial: Token, s: State, p: Pid)
    requires Inv(initial, s) && p in s.procs
    ensures Inv(initial, Apply(cfg, s, Abort(p)))
  {
    if s.procs[p].Answered? && Rotates(s.procs[p].seen, s.procs[p].answer) {
      var t := s.procs[p].answer.value.refreshToken.value;
      Entered(initial, s.log, Dropped(p, t));
    }
  }

  lemma StepKeepsInv(cfg: IdpConfig, initial: Token, s: State, step: Step)
    requires Inv(initial, s)
    ensures Inv(initial, Apply(cfg, s, step))
  {
    match step
    case Answer(p, answer) => if p in s.procs && s.procs[p].Holding? { AnswerKeepsInv(cfg, initial, s, p, answer); }
    case Commit(p, r1, r2) => if p in s.procs && s.procs[p].Answered? { CommitKeepsInv(cfg, initial, s, p, r1, r2); }
    case Abort(p) => if p in s.procs { AbortKeepsInv(cfg, initial, s, p); }
    case _ => QuietStepKeepsInv(cfg, initial, s, step);
  }

  lemma QuietStepKeepsInv(cfg: IdpConfig, initial: Token, s: State, step: Step)
    requires Inv(initial, s) && !step.Answer? && !step.Commit? && !step.Abort?
    ensures Inv(initial, Apply(cfg, s, step))
  {
    var t := Apply(cfg, s, step);
    assert t.log == s.log && t.unissued == s.unissued;
    assert LockHeld(t);
    assert NewToken(t) == NewToken(s);
  }

  lemma {:induction false} RunKeepsInv(cfg: IdpConfig, rows: Rows, steps: seq<Step>)
    ensures Inv(rows.refreshToken, Run(cfg, rows, steps))
  {
    if steps != [] {
      RunKeepsInv(cfg, rows, steps[..|steps| - 1]);
      StepKeepsInv(cfg, rows.refreshToken, Run(cfg, rows, steps[..|steps| - 1]), steps[|steps| - 1]);
    }
  }

  // ---------------------------------------------------------------- results

  /** The row lock excludes: in every reachable state at most one process is past it. */
  lemma OneRefreshAtATime(cfg: IdpConfig, rows: Rows, steps: seq<Step>, p: Pid, q: Pid)
    requires var s := Run(cfg, rows, steps);
      p in s.procs && !s.procs[p].Waiting? && q in s.procs && !s.procs[q].Waiting?
    ensures p == q
  {
    RunKeepsInv(cfg, rows, steps);
  }

  predicate NothingDropped(log: seq<Event>) { forall i :: 0 <= i < |log| ==> !log[i].Dropped? }

  lemma {:induction false} NothingDroppedNothingLost(initial: Token, log: seq<Event>)
    requires NothingDropped(log)
    ensures !LedgerOf(initial, log).lost
  {
    if log != [] {
      assert forall i :: 0 <= i < |log| - 1 ==> log[..|log| - 1][i] == log[i];
      NothingDroppedNothingLost(initial, log[..|log| - 1]);
    }
  }

  /** Section 6 of RFC 6749: in every interleaving, each IdP refresh presents the refresh token last
      committed for the row, with no other refresh in flight. That is the token the IdP last returned (or
      the first one held) exactly when that last return did not go down with its transaction. */
  lemma PresentsTheLatest(cfg: IdpConfig, rows: Rows, steps: seq<Step>, i: nat)
    requires i < |Run(cfg, rows, steps).log| && Run(cfg, rows, steps).log[i].Presented?
    ensures var log := Run(cfg, rows, steps).log; var l := LedgerOf(rows.refreshToken, log[..i]);
      && !l.inFlight && log[i].token == l.held
      && (log[i].token == l.latest <==> !l.lost)
      && (NothingDropped(log[..i]) ==> log[i].token == l.latest)
  {
    RunKeepsInv(cfg, rows, steps);
    var log := Run(cfg, rows, steps).log;
    assert Follows(LedgerOf(rows.refreshToken, log[..i]), log[i]);
    LostIsNotHeld(rows.refreshToken, log, i);
    if NothingDropped(log[..i]) { NothingDroppedNothingLost(rows.refreshToken, log[..i]); }
  }

  lemma {:induction false} LostIsNotHeld(initial: Token, log: seq<Event>, i: nat)
    requires i <= |log| && WellKept(initial, log)
    ensures Balanced(LedgerOf(initial, log[..i]))
  {
    if i > 0 {
      LostIsNotHeld(initial, log, i - 1);
      assert log[..i] == log[..i - 1] + [log[i - 1]];
      LedgerSnoc(initial, log[..i - 1], log[i - 1]);
      assert Follows(LedgerOf(initial, log[..i - 1]), log[i - 1]);
    }
  }

  /** A step that loses a rotated token: it ends, uncommitted, a request whose answer rotates. */
  predicate Loses(s: State, step: Step) {
    step.Abort? && step.pid in s.procs && s.procs[step.pid].Answered?
    && Rotates(s.procs[step.pid].seen, s.procs[step.pid].answer)
  }

  /** A step in which the IdP returns a new refresh token. */
  predicate Returns(s: State, step: Step) {
    && step.Answer? && step.pid in s.procs && s.procs[step.pid].Holding?
    && Rotates(s.procs[step.pid].seen, step.answer) && step.answer.value.refreshToken.value >= s.unissued
  }

  ghost predicate LosesAt(cfg: IdpConfig, rows: Rows, steps: seq<Step>, i: nat)
    requires i < |steps|
  {
    Loses(Run(cfg, rows, steps[..i]), steps[i])
  }

  ghost predicate ReturnsAt(cfg: IdpConfig, rows: Rows, steps: seq<Step>, i: nat)
    requires i < |steps|
  {
    Returns(Run(cfg, rows, steps[..i]), steps[i])
  }

  ghost predicate QuietAfter(cfg: IdpConfig, rows: Rows, steps: seq<Step>, i: nat) {
    forall j :: i < j < |steps| ==> !ReturnsAt(cfg, rows, steps, j)
  }

  /** Some step of the run lost a rotated token and the IdP has returned none since. */
  ghost predicate LostTheLatest(cfg: IdpConfig, rows: Rows, steps: seq<Step>) {
    exists i :: 0 <= i < |steps| && LosesAt(cfg, rows, steps, i) && QuietAfter(cfg, rows, steps, i)
  }

  lemma LedgerOfAnswer(cfg: IdpConfig, initial: Token, s: State, p: Pid, answer: TokenRotation.Answer)
    requires p in s.procs && s.procs[p].Holding?
    ensures LedgerOf(initial, Apply(cfg, s, Answer(p, answer)).log).lost
      <==> LedgerOf(initial, s.log).lost && !Returns(s, Answer(p, answer))
  {
    var asking := Presented(p, s.procs[p].seen.refreshToken);
    LogOfAnswer(cfg, s, p, answer, asking);
    AskThenReturn(initial, s.log, asking,
                  Returned(p, if Returns(s, Answer(p, answer)) then answer.value.refreshToken.value else 0));
  }

  lemma LogOfAnswer(cfg: IdpConfig, s: State, p: Pid, answer: TokenRotation.Answer, asking: Event)
    requires p in s.procs && s.procs[p].Holding? && asking == Presented(p, s.procs[p].seen.refreshToken)
    ensures var log := Apply(cfg, s, Answer(p, answer)).log;
      if Returns(s, Answer(p, answer)) then log == s.log + [asking] + [Returned(p, answer.value.refreshToken.value)]
      else log == s.log + [asking] || log == s.log
  {
  }

  lemma AskThenReturn(initial: Token, log: seq<Event>, asking: Event, returned: Event)
    requires asking.Presented? && returned.Returned?
    ensures LedgerOf(initial, log + [asking]).lost == LedgerOf(initial, log).lost
    ensures !LedgerOf(initial, log + [asking] + [returned]).lost
  {
    LedgerSnoc(initial, log, asking);
    LedgerSnoc(initial, log + [asking], returned);
  }

  lemma LedgerOfEnd(cfg: IdpConfig, initial: Token, s: State, step: Step)
    requires step.Commit? || step.Abort?
    ensures LedgerOf(initial, Apply(cfg, s, step).log).lost <==> Loses(s, step) || LedgerOf(initial, s.log).lost
  {
    if step.pid in s.procs && s.procs[step.pid].Answered? && s.procs[step.pid].answer.Ok?
      && s.procs[step.pid].answer.value.refreshToken.Some? {
      LedgerSnoc(initial, s.log, Kept(step.pid, s.procs[step.pid].answer.value.refreshToken.value));
      LedgerSnoc(initial, s.log, Dropped(step.pid, s.procs[step.pid].answer.value.refreshToken.value));
    }
  }

  /** The history records a loss for exactly those steps. */
  lemma LedgerOfStep(cfg: IdpConfig, initial: Token, s: State, step: Step)
    ensures LedgerOf(initial, Apply(cfg, s, step).log).lost
      <==> Loses(s, step) || (LedgerOf(initial, s.log).lost && !Returns(s, step))
  {
    match step
    case Answer(p, answer) => if p in s.procs && s.procs[p].Holding? { LedgerOfAnswer(cfg, initial, s, p, answer); }
    case Commit(_, _, _) => LedgerOfEnd(cfg, initial, s, step);
    case Abort(_) => LedgerOfEnd(cfg, initial, s, step);
    case _ =>
  }

  lemma {:induction false} LostExactly(cfg: IdpConfig, rows: Rows, steps: seq<Step>)
    ensures LedgerOf(rows.refreshToken, Run(cfg, rows, steps).log).lost <==> LostTheLatest(cfg, rows, steps)
  {
    if steps == [] {
      assert Run(cfg, rows, steps) == Begin(rows);
    } else {
      var init, last := steps[..|steps| - 1], steps[|steps| - 1];
      LostExactly(cfg, rows, init);
      LedgerOfStep(cfg, rows.refreshToken, Run(cfg, rows, init), last);
      LostSnoc(cfg, rows, steps, init);
    }
  }

  lemma LostSnoc(cfg: IdpConfig, rows: Rows, steps: seq<Step>, init: seq<Step>)
    requires steps != [] && init == steps[..|steps| - 1]
    ensures var s, last := Run(cfg, rows, init), steps[|steps| - 1];
      LostTheLatest(cfg, rows, steps) <==> Loses(s, last) || (LostTheLatest(cfg, rows, init) && !Returns(s, last))
  {
    var m := |init|;
    assert steps[..m] == init && steps[m] == steps[|steps| - 1];
    if Loses(Run(cfg, rows, init), steps[m]) { assert LosesAt(cfg, rows, steps, m) && QuietAfter(cfg, rows, steps, m); }
    forall i | 0 <= i < m
      ensures LosesAt(cfg, rows, steps, i) == LosesAt(cfg, rows, init, i)
      ensures QuietAfter(cfg, rows, steps, i) <==> QuietAfter(cfg, rows, init, i) && !ReturnsAt(cfg, rows, steps, m)
    {
      assert steps[..i] == init[..i];
      QuietSnoc(cfg, rows, steps, init, i);
    }
  }

  lemma QuietSnoc(cfg: IdpConfig, rows: Rows, steps: seq<Step>, init: seq<Step>, i: nat)
    requires steps != [] && init == steps[..|steps| - 1] && i < |init|
    ensures QuietAfter(cfg, rows, steps, i) <==> QuietAfter(cfg, rows, init, i) && !ReturnsAt(cfg, rows, steps, |init|)
  {
    forall j | i < j < |init| ensures ReturnsAt(cfg, rows, steps, j) == ReturnsAt(cfg, rows, init, j) {
      assert steps[..j] == init[..j];
    }
  }

  /** No rotated token is lost: whenever the lock is free the row holds the token the IdP last returned,
      unless some request whose answer rotated ended uncommitted and the IdP has returned no token since;
      and then it does not. */
  lemma RowHoldsTheLatest(cfg: IdpConfig, rows: Rows, steps: seq<Step>)
    requires var s := Run(cfg, rows, steps); s.rows.Some? && s.lock.None?
    ensures var s := Run(cfg, rows, steps);
      s.rows.value.refreshToken == LedgerOf(rows.refreshToken, s.log).latest <==> !LostTheLatest(cfg, rows, steps)
  {
    RunKeepsInv(cfg, rows, steps);
    LostExactly(cfg, rows, steps);
  }

  /** A request whose answer rotates but carries no access token can only end by losing the token. */
  lemma NoAccessTokenCannotCommit(cfg: IdpConfig, s: State, p: Pid, r1: Time, r2: Time)
    requires p in s.procs && s.procs[p].Answered? && Rotates(s.procs[p].seen, s.procs[p].answer)
    ensures Discards(s.procs[p].answer) ==> Apply(cfg, s, Commit(p, r1, r2)) == s
    ensures Loses(s, Abort(p))
  {
  }

  function LostTokenRun(answer: TokenRotation.Answer, user: UserId, now: Time): seq<Step> {
    [Start(1, ExplicitGrant(user)), Acquire(1, now, now), Answer(1, answer), Abort(1),
     Start(2, ExplicitGrant(user)), Acquire(2, now, now), Answer(2, Err(IdpError))]
  }

  /** A token is lost: from any row in good standing, a rotating answer without an access token, or a crash
      after any rotating answer, leaves the old token in the row, and the next refresh presents it. */
  lemma LostTokenIsPresentedAgain(cfg: IdpConfig, rows: Rows, answer: TokenRotation.Answer, now: Time)
    requires rows.refreshExpires > now && Rotates(rows, answer) && answer.value.refreshToken.value > rows.refreshToken
    ensures var s := Run(cfg, rows, LostTokenRun(answer, rows.creator, now));
      var rotated := answer.value.refreshToken.value;
      && s.rows == Some(rows)
      && s.log == [Presented(1, rows.refreshToken), Returned(1, rotated), Dropped(1, rotated),
                   Presented(2, rows.refreshToken)]
      && LedgerOf(rows.refreshToken, s.log).latest == rotated
  {
    var run, first, rotated := LostTokenRun(answer, rows.creator, now), rows.refreshToken,
      answer.value.refreshToken.value;
    FirstRequestLoses(cfg, rows, answer, now);
    SecondRequestPresents(cfg, rows, run[..4], rows.creator, now, run);
    LostLedger(first, rotated, Run(cfg, rows, run).log);
  }

  lemma SecondRequestPresents(cfg: IdpConfig, rows: Rows, lost: seq<Step>, user: UserId, now: Time, run: seq<Step>)
    requires var s := Run(cfg, rows, lost);
      s.rows == Some(rows) && rows.refreshExpires > now && rows.creator == user
      && s.lock == None && s.procs == map[] && s.started == {1}
    requires run == lost + [Start(2, ExplicitGrant(user)), Acquire(2, now, now), Answer(2, Err(IdpError))]
    ensures var s, t := Run(cfg, rows, lost), Run(cfg, rows, run);
      t.rows == Some(rows) && t.log == s.log + [Presented(2, rows.refreshToken)]
  {
    var start, acquire, answer := Start(2, ExplicitGrant(user)), Acquire(2, now, now), Answer(2, Err(IdpError));
    RunSnoc(cfg, rows, lost, start);
    RunSnoc(cfg, rows, lost + [start], acquire);
    RunSnoc(cfg, rows, lost + [start] + [acquire], answer);
    assert run == lost + [start] + [acquire] + [answer];
  }

  lemma LostLedger(first: Token, rotated: Token, log: seq<Event>)
    requires log == [Presented(1, first), Returned(1, rotated), Dropped(1, rotated)] + [Presented(2, first)]
    ensures LedgerOf(first, log).latest == rotated
  {
    LedgerSnoc(first, [], Presented(1, first));
    LedgerSnoc(first, [Presented(1, first)], Returned(1, rotated));
    LedgerSnoc(first, [Presented(1, first)] + [Returned(1, rotated)], Dropped(1, rotated));
    LedgerSnoc(first, [Presented(1, first)] + [Returned(1, rotated)] + [Dropped(1, rotated)], Presented(2, first));
    assert [] + [Presented(1, first)] == [Presented(1, first)];
    assert log == [Presented(1, first)] + [Returned(1, rotated)] + [Dropped(1, rotated)] + [Presented(2, first)];
  }

  lemma FirstRequestLoses(cfg: IdpConfig, rows: Rows, answer: TokenRotation.Answer, now: Time)
    requires rows.refreshExpires > now && Rotates(rows, answer) && answer.value.refreshToken.value > rows.refreshToken
    ensures var s := Run(cfg, rows, LostTokenRun(answer, rows.creator, now)[..4]);
      var rotated := answer.value.refreshToken.value;
      && s.rows == Some(rows) && s.lock == None && s.procs == map[] && s.started == {1}
      && s.log == [Presented(1, rows.refreshToken), Returned(1, rotated), Dropped(1, rotated)]
  {
    var run := LostTokenRun(answer, rows.creator, now);
    RunSnoc(cfg, rows, [], run[0]);
    RunSnoc(cfg, rows, [run[0]], run[1]);
    RunSnoc(cfg, rows, [run[0]] + [run[1]], run[2]);
    RunSnoc(cfg, rows, [run[0]] + [run[1]] + [run[2]], run[3]);
    assert [] + [run[0]] == [run[0]];
    assert run[..4] == [run[0]] + [run[1]] + [run[2]] + [run[3]];
  }

  lemma RunSnoc(cfg: IdpConfig, rows: Rows, steps: seq<Step>, step: Step)
    ensures Run(cfg, rows, steps + [step]) == Apply(cfg, Run(cfg, rows, steps), step)
  {
    assert (steps + [step])[..|steps|] == steps;
  }

  /** A request that has not run before begins by waiting, whatever others hold. */
  lemma StartsWaiting(cfg: IdpConfig, s: State, p: Pid, path: Path)
    requires p !in s.started
    ensures Apply(cfg, s, Start(p, path)) == s.(procs := s.procs[p := Waiting(path)], started := s.started + {p})
  {
  }

  /** Who gets past the lock: a waiter that finds it free, the row there and its own, the refresh token good and, on
      the cookie path, the access row run out. Finding it held changes nothing; the others end there. */
  lemma AcquireExactly(cfg: IdpConfig, s: State, p: Pid, now: Time, recheck: Time)
    requires p in s.procs && s.procs[p].Waiting?
    ensures var t := Apply(cfg, s, Acquire(p, now, recheck)); var path := s.procs[p].path;
      var asks := s.rows.Some? && s.rows.value.refreshExpires > now
        && (path.ExplicitGrant? ==> s.rows.value.creator == path.user)
        && (path.CookiePath? ==> s.rows.value.accessExpires <= recheck);
      && t.rows == s.rows && t.log == s.log
      && (s.lock.Some? ==> t == s)
      && (s.lock.None? && asks ==> t.lock == Some(p) && t.procs == s.procs[p := Holding(s.rows.value)])
      && (s.lock.None? && !asks ==> t.lock == None && t.procs == s.procs - {p})
  {
  }

  /** A deleted session is over: with the lock free the row goes, and whatever runs on, it does not come back and no
      token is presented, returned, kept or dropped again. While the lock is held the deletion waits. */
  lemma {:induction false} DeletedSessionIsOver(cfg: IdpConfig, rows: Rows, steps: seq<Step>, more: seq<Step>)
    ensures var s := Run(cfg, rows, steps);
      && (s.lock.Some? ==> Apply(cfg, s, Delete) == s)
      && (s.lock.None? ==> var t := Continue(cfg, Apply(cfg, s, Delete), more); t.rows.None? && t.log == s.log)
    decreases |more|
  {
    RunKeepsInv(cfg, rows, steps);
    var s := Run(cfg, rows, steps);
    if s.lock.None? { GoneStaysGone(cfg, Apply(cfg, s, Delete), more); }
  }

  lemma {:induction false} GoneStaysGone(cfg: IdpConfig, s: State, more: seq<Step>)
    requires s.rows.None? && s.lock.None? && forall p :: p in s.procs ==> s.procs[p].Waiting?
    ensures var t := Continue(cfg, s, more);
      t.rows.None? && t.lock.None? && t.log == s.log && forall p :: p in t.procs ==> t.procs[p].Waiting?
  {
    if more != [] { GoneStaysGone(cfg, s, more[..|more| - 1]); }
  }

  /** A revoked access row is refreshed by the next request on the cookie path, if the grant is still good. */
  lemma RevokedAccessIsRefreshed(cfg: IdpConfig, s: State, at: Time, p: Pid, now: Time, recheck: Time)
    requires s.rows.Some? && s.rows.value.refreshExpires > now && recheck >= at
    requires s.lock.None? && p in s.procs && s.procs[p] == Waiting(CookiePath)
    ensures var t := Apply(cfg, Apply(cfg, s, Step.RevokeAccess(at)), Acquire(p, now, recheck));
      && t.lock == Some(p) && t.log == s.log
      && t.rows == Some(s.rows.value.(accessExpires := at))
  {
  }

  /** What a commit writes, in every reachable state: an answer with an access token, column by column, into the row
      that was presented, and the lock is free again; an answer without one cannot commit. */
  lemma CommitExactly(cfg: IdpConfig, rows: Rows, steps: seq<Step>, p: Pid, r1: Time, r2: Time)
    requires var s := Run(cfg, rows, steps); p in s.procs && s.procs[p].Answered?
    ensures var s := Run(cfg, rows, steps);
      var t := Apply(cfg, s, Commit(p, r1, r2)); var answer := s.procs[p].answer;
      && s.rows.Some? && s.rows.value.refreshToken == s.procs[p].seen.refreshToken && s.lock == Some(p)
      && (t == s <==> answer.Err? || answer.value.accessToken.None?)
      && (t != s ==> t.rows.Some? && t.lock == None && t.procs == s.procs - {p})
      && (t != s ==> AnswerWritten(cfg, s.procs[p].seen, answer.value, r1, r2, t.rows.value))
  {
    RunKeepsInv(cfg, rows, steps);
    RewrittenExactly(cfg, Run(cfg, rows, steps).procs[p].seen, Run(cfg, rows, steps).procs[p].answer, r1, r2);
  }

  /** A step changes the tokens of the row only as the commit of the process that holds the lock. */
  lemma OnlyTheHolderWrites(cfg: IdpConfig, rows: Rows, steps: seq<Step>, step: Step)
    requires var s := Run(cfg, rows, steps); var t := Apply(cfg, s, step);
      s.rows.Some? && t.rows.Some? &&
      (t.rows.value.refreshToken != s.rows.value.refreshToken || t.rows.value.accessToken != s.rows.value.accessToken
        || t.rows.value.refreshExpires != s.rows.value.refreshExpires)
    ensures step.Commit? && Run(cfg, rows, steps).lock == Some(step.pid)
  {
    RunKeepsInv(cfg, rows, steps);
  }

  ghost predicate Inert(s: State, p: Pid) {
    && s.lock != Some(p) && (p in s.procs ==> s.procs[p].Waiting?)
    && forall i :: 0 <= i < |s.log| ==> s.log[i].pid != p
  }

  lemma StepKeepsInert(cfg: IdpConfig, s: State, step: Step, p: Pid)
    requires Inert(s, p) && Apply(cfg, s, step).lock != Some(p)
    ensures Inert(Apply(cfg, s, step), p)
  {
  }

  /** A process that never holds the lock, however often it tries, never presents, keeps or drops a token. */
  lemma {:induction false} WithoutLockInert(cfg: IdpConfig, rows: Rows, steps: seq<Step>, p: Pid)
    requires forall i :: 0 <= i <= |steps| ==> Run(cfg, rows, steps[..i]).lock != Some(p)
    ensures Inert(Run(cfg, rows, steps), p)
  {
    if steps != [] {
      var before := steps[..|steps| - 1];
      forall i | 0 <= i <= |before|
        ensures Run(cfg, rows, before[..i]).lock != Some(p)
      {
        assert before[..i] == steps[..i];
      }
      assert steps[..|steps|] == steps;
      WithoutLockInert(cfg, rows, before, p);
      StepKeepsInert(cfg, Run(cfg, rows, before), steps[|steps| - 1], p);
    }
  }

  /** A process that waits, or has not begun, has left no trace yet. */
  ghost predicate WaitersInert(s: State) {
    && s.procs.Keys <= s.started
    && forall p :: p !in s.started || (p in s.procs && s.procs[p].Waiting?) ==> Inert(s, p)
  }

  lemma StepKeepsWaitersInert(cfg: IdpConfig, s: State, step: Step)
    requires WaitersInert(s)
    ensures WaitersInert(Apply(cfg, s, step))
  {
  }

  lemma {:induction false} RunKeepsWaitersInert(cfg: IdpConfig, rows: Rows, steps: seq<Step>)
    ensures WaitersInert(Run(cfg, rows, steps))
  {
    if steps != [] {
      RunKeepsWaitersInert(cfg, rows, steps[..|steps| - 1]);
      StepKeepsWaitersInert(cfg, Run(cfg, rows, steps[..|steps| - 1]), steps[|steps| - 1]);
    }
  }

  /** It is over for this process. */
  predicate Ended(s: State, p: Pid) { p in s.started && p !in s.procs }

  lemma StepKeepsEnded(cfg: IdpConfig, s: State, step: Step, p: Pid)
    requires Ended(s, p) && Inert(s, p)
    ensures Ended(Apply(cfg, s, step), p) && Inert(Apply(cfg, s, step), p)
  {
  }

  /** A waiter that times out writes nothing: its timeout changes neither rows nor lock nor history, and
      neither before nor ever after does the process present, keep or drop a token or hold the lock. */
  lemma {:induction false} TimedOutWaiterIsInert(cfg: IdpConfig, rows: Rows, steps: seq<Step>, p: Pid, more: seq<Step>)
    requires var s := Run(cfg, rows, steps); p in s.procs && s.procs[p].Waiting?
    ensures var s := Run(cfg, rows, steps); Run(cfg, rows, steps + [Timeout(p)]) == s.(procs := s.procs - {p})
    ensures var t := Run(cfg, rows, steps + [Timeout(p)] + more); Ended(t, p) && Inert(t, p)
    decreases |more|
  {
    RunSnoc(cfg, rows, steps, Timeout(p));
    if more == [] {
      RunKeepsWaitersInert(cfg, rows, steps);
      assert steps + [Timeout(p)] + more == steps + [Timeout(p)];
    } else {
      var init, last := more[..|more| - 1], more[|more| - 1];
      TimedOutWaiterIsInert(cfg, rows, steps, p, init);
      assert steps + [Timeout(p)] + more == (steps + [Timeout(p)] + init) + [last];
      RunSnoc(cfg, rows, steps + [Timeout(p)] + init, last);
      StepKeepsEnded(cfg, Run(cfg, rows, steps + [Timeout(p)] + init), last, p);
    }
  }

  // ---------------------------------------------------------------- one refresh serves the waiters

  predicate LeavesAccessRow(step: Step) { !step.Commit? && !step.RevokeAccess? && !step.Delete? }

  function Continue(cfg: IdpConfig, s: State, steps: seq<Step>): State {
    if steps == [] then s else Apply(cfg, Continue(cfg, s, steps[..|steps| - 1]), steps[|steps| - 1])
  }

  lemma {:induction false} AccessRowStays(cfg: IdpConfig, s: State, steps: seq<Step>)
    requires forall i :: 0 <= i < |steps| ==> LeavesAccessRow(steps[i])
    ensures Continue(cfg, s, steps).rows == s.rows
  {
    if steps != [] {
      var before := steps[..|steps| - 1];
      assert forall i :: 0 <= i < |before| ==> before[i] == steps[i];
      AccessRowStays(cfg, s, before);
      assert LeavesAccessRow(steps[|steps| - 1]);
    }
  }

  /** After process q commits a refresh, a cookie-path waiter that then gets the lock with the row still in
      place goes to the IdP exactly when the grant is good and the clock has reached the refreshed access expiry,
      which is what RowExpiry makes of the answer at r2. So an expires_in above the drift tolerance serves every
      waiter until then, and one at or below it serves none. */
  lemma OneRefreshServesWaiters(cfg: IdpConfig, s: State, q: Pid, r1: Time, r2: Time, between: seq<Step>, p: Pid,
                                now: Time, recheck: Time)
    requires q in s.procs && s.procs[q].Answered? && Rewritten(cfg, s.procs[q].seen, s.procs[q].answer, r1, r2).Ok?
    requires forall i :: 0 <= i < |between| ==> LeavesAccessRow(between[i])
    requires var w := Continue(cfg, Apply(cfg, s, Commit(q, r1, r2)), between);
      w.lock.None? && p in w.procs && w.procs[p] == Waiting(CookiePath)
    ensures var w := Continue(cfg, Apply(cfg, s, Commit(q, r1, r2)), between);
      var t := Apply(cfg, w, Acquire(p, now, recheck));
      var life := s.procs[q].answer.value.accessLife;
      && t.log == w.log && t.rows == w.rows
      && (t.lock == Some(p)
          <==> Refreshable(w.rows, None, now) && recheck >= RowExpiry(life, cfg.accessFallback, cfg.drift, r2))
      && (t.lock != Some(p) ==> p !in t.procs)
  {
    AccessRowStays(cfg, Apply(cfg, s, Commit(q, r1, r2)), between);
    CommittedExpiry(cfg, s, q, r1, r2);
    WaiterAsks(cfg, Continue(cfg, Apply(cfg, s, Commit(q, r1, r2)), between), p, now, recheck);
  }

  lemma CommittedExpiry(cfg: IdpConfig, s: State, q: Pid, r1: Time, r2: Time)
    requires q in s.procs && s.procs[q].Answered? && Rewritten(cfg, s.procs[q].seen, s.procs[q].answer, r1, r2).Ok?
    ensures var rows := Apply(cfg, s, Commit(q, r1, r2)).rows; var life := s.procs[q].answer.value.accessLife;
      rows.Some? ==> rows.value.accessExpires == RowExpiry(life, cfg.accessFallback, cfg.drift, r2)
  {
  }

  lemma WaiterAsks(cfg: IdpConfig, w: State, p: Pid, now: Time, recheck: Time)
    requires w.lock.None? && p in w.procs && w.procs[p] == Waiting(CookiePath)
    ensures var t := Apply(cfg, w, Acquire(p, now, recheck));
      && t.log == w.log && t.rows == w.rows
      && (t.lock == Some(p) <==> Refreshable(w.rows, None, now) && recheck >= w.rows.value.accessExpires)
      && (t.lock != Some(p) ==> p !in t.procs)
  {
  }

  /** The same in the IdP's terms: for an answer that advertises a lifetime of x seconds. */
  lemma LifetimeServesWaiters(cfg: IdpConfig, life: Lifetime, r2: Time, recheck: Time)
    requires Positive(life.expiresIn)
    ensures var x := life.expiresIn.value.Floor;
      recheck >= RowExpiry(life, cfg.accessFallback, cfg.drift, r2)
      <==> recheck >= r2 && recheck - r2 >= (x - cfg.drift) * SECOND
  {
  }

  // ---------------------------------------------------------------- one request, step by step

  /** A request's whole life when nothing else happens: the transaction commits if it can and rolls back
      otherwise. */
  function RequestSteps(p: Pid, path: Path, clock: Clocks, answer: TokenRotation.Answer): seq<Step> {
    [Start(p, path), Acquire(p, clock.now, clock.recheck), Answer(p, answer), Commit(p, clock.r1, clock.r2), Abort(p)]
  }

  /** The tokens a process presents in a stretch of history. */
  function PresentedBy(log: seq<Event>, p: Pid): seq<Token> {
    if log == [] then []
    else
      var last := log[|log| - 1];
      PresentedBy(log[..|log| - 1], p) + if last.Presented? && last.pid == p then [last.token] else []
  }

  lemma PresentedSnoc(log: seq<Event>, e: Event, p: Pid)
    ensures PresentedBy(log + [e], p) == PresentedBy(log, p) + if e.Presented? && e.pid == p then [e.token] else []
  {
    assert (log + [e])[..|log|] == log;
  }

  /** The protocol and the service agree: from any state with the lock free, any rows, answer and clock reads, a
      request taken step by step ends with exactly the rows and the presented tokens that the methods of
      AuthService specify for it (AttemptOf), and with the lock free again. */
  lemma RequestRefinesService(cfg: IdpConfig, s: State, p: Pid, path: Path, clock: Clocks, answer: TokenRotation.Answer)
    requires s.lock.None? && p !in s.started && p !in s.procs
    requires s.rows.Some? && Rotates(s.rows.value, answer) ==> answer.value.refreshToken.value >= s.unissued
    ensures var t := Continue(cfg, s, RequestSteps(p, path, clock, answer));
      var attempt := AttemptOf(cfg, s.rows, path, clock, answer);
      && t.rows == (if attempt.result.Ok? then Some(attempt.result.value) else s.rows)
      && PresentedBy(t.log, p) == PresentedBy(s.log, p) + attempt.presented
      && t.lock == None && t.procs == s.procs
  {
    var steps := RequestSteps(p, path, clock, answer);
    var a := Apply(cfg, s, steps[0]);
    var b := Apply(cfg, a, steps[1]);
    var c := Apply(cfg, b, steps[2]);
    var d := Apply(cfg, c, steps[3]);
    UnfoldFive(cfg, s, steps, a, b, c, d);
    assert a.procs - {p} == s.procs;
    if CallsIdp(path, s.rows, clock.now, clock.recheck) {
      CalledRequest(cfg, s, b, p, clock, answer, c, d);
    }
  }

  lemma UnfoldFive(cfg: IdpConfig, s: State, steps: seq<Step>, a: State, b: State, c: State, d: State)
    requires |steps| == 5 && a == Apply(cfg, s, steps[0]) && b == Apply(cfg, a, steps[1])
    requires c == Apply(cfg, b, steps[2])
    requires d == Apply(cfg, c, steps[3])
    ensures Continue(cfg, s, steps) == Apply(cfg, d, steps[4])
  {
    assert steps[..4][..3] == steps[..3] && steps[..3][..2] == steps[..2] && steps[..2][..1] == steps[..1]
      && steps[..1][..0] == [];
    assert Continue(cfg, s, steps[..1]) == a;
    assert Continue(cfg, s, steps[..2]) == b;
    assert Continue(cfg, s, steps[..3]) == c;
    assert Continue(cfg, s, steps[..4]) == d;
  }

  /** A request that has the lock and goes on to the IdP. */
  ghost predicate Locked(s: State, b: State, p: Pid, answer: TokenRotation.Answer) {
    && s.lock.None? && p !in s.procs && s.rows.Some? && b.rows == s.rows && b.log == s.log && b.unissued == s.unissued
    && b.lock == Some(p) && p in b.procs && b.procs[p] == Holding(s.rows.value) && b.procs - {p} == s.procs
    && (Rotates(s.rows.value, answer) ==> answer.value.refreshToken.value >= s.unissued)
  }

  /** What follows the question in the history. */
  function Aftermath(seen: Rows, answer: TokenRotation.Answer, p: Pid, committed: bool): seq<Event> {
    if !Rotates(seen, answer) then []
    else
      var token := answer.value.refreshToken.value;
      [Returned(p, token), if committed then Kept(p, token) else Dropped(p, token)]
  }

  lemma CalledRequest(cfg: IdpConfig, s: State, b: State, p: Pid, clock: Clocks, answer: TokenRotation.Answer, c: State,
                      d: State)
    requires Locked(s, b, p, answer)
    requires c == Apply(cfg, b, Answer(p, answer)) && d == Apply(cfg, c, Commit(p, clock.r1, clock.r2))
    ensures var t := Apply(cfg, d, Abort(p)); var written := Rewritten(cfg, s.rows.value, answer, clock.r1, clock.r2);
      && t.rows == (if written.Ok? then Some(written.value) else s.rows)
      && PresentedBy(t.log, p) == PresentedBy(s.log, p) + [s.rows.value.refreshToken]
      && t.lock == None && t.procs == s.procs
  {
    var seen := s.rows.value;
    AskedRequest(cfg, s, b, p, answer, c);
    EndedRequest(cfg, s, c, p, clock, answer, d);
    OnlyTheQuestion(s.log, seen, answer, p, Rewritten(cfg, seen, answer, clock.r1, clock.r2).Ok?);
  }

  /** The answer has come and the transaction is still open. */
  ghost predicate Open(s: State, c: State, p: Pid, answer: TokenRotation.Answer)
    requires s.rows.Some?
  {
    && c.rows == s.rows && c.lock == Some(p) && p in c.procs && c.procs[p] == Answered(s.rows.value, answer)
       && c.procs - {p} == s.procs
    && c.log == s.log + [Presented(p, s.rows.value.refreshToken)]
         + if Rotates(s.rows.value, answer) then [Returned(p, answer.value.refreshToken.value)] else []
  }

  lemma AskedRequest(cfg: IdpConfig, s: State, b: State, p: Pid, answer: TokenRotation.Answer, c: State)
    requires Locked(s, b, p, answer) && c == Apply(cfg, b, Answer(p, answer))
    ensures Open(s, c, p, answer)
  {
    assert c.procs - {p} == b.procs - {p};
    assert s.log + [Presented(p, s.rows.value.refreshToken)] + [] == s.log + [Presented(p, s.rows.value.refreshToken)];
  }

  lemma EndedRequest(cfg: IdpConfig, s: State, c: State, p: Pid, clock: Clocks, answer: TokenRotation.Answer, d: State)
    requires s.lock.None? && p !in s.procs && s.rows.Some? && Open(s, c, p, answer)
    requires d == Apply(cfg, c, Commit(p, clock.r1, clock.r2))
    ensures var t := Apply(cfg, d, Abort(p)); var written := Rewritten(cfg, s.rows.value, answer, clock.r1, clock.r2);
      && t.rows == (if written.Ok? then Some(written.value) else s.rows) && t.lock == None && t.procs == s.procs
      && t.log == s.log + [Presented(p, s.rows.value.refreshToken)] + Aftermath(s.rows.value, answer, p, written.Ok?)
  {
    var asked := s.log + [Presented(p, s.rows.value.refreshToken)];
    assert asked + [] == asked;
    assert forall x: Event, y: Event :: asked + [x] + [y] == asked + [x, y];
  }

  lemma OnlyTheQuestion(log: seq<Event>, seen: Rows, answer: TokenRotation.Answer, p: Pid, committed: bool)
    ensures PresentedBy(log + [Presented(p, seen.refreshToken)] + Aftermath(seen, answer, p, committed), p) ==
      PresentedBy(log, p) + [seen.refreshToken]
  {
    var asked, after := log + [Presented(p, seen.refreshToken)], Aftermath(seen, answer, p, committed);
    PresentedSnoc(log, Presented(p, seen.refreshToken), p);
    if after == [] {
      assert asked + after == asked;
    } else {
      PresentedSnoc(asked, after[0], p);
      PresentedSnoc(asked + [after[0]], after[1], p);
      assert asked + after == asked + [after[0]] + [after[1]];
    }
  }
}
