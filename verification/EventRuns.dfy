/** Event rows and stored bodies over whole runs: creates that commit or roll back, lost rows, deleted
    conversations, sweeps, the store cleanup that follows their commit, and backfills. */
module EventRuns {
  import opened Common
  import opened Calendar
  import opened Partitions
  import opened Events

  /** What a create was given, and whether its store write succeeded. */
  datatype Written = Written(conversation: ConversationId, kind: string, body: Body, at: Time, stored: bool)

  /** The table and the store, with a history beside them: pending counts the days dropped whose store
      cleanup is still to come, exposed holds the events whose row went in while their day was pending,
      struck those whose object a cleanup deleted. */
  datatype State = State(table: EventTable, store: Store, conversations: set<ConversationId>,
                         written: map<EventId, Written>,
                         pending: multiset<Day>, exposed: set<EventId>, struck: set<EventId>)

  datatype Step =
    | AddConversation(added: ConversationId)
    | DropConversation(removed: ConversationId)
    | Create(id: EventId, event: Written, commits: bool)
    | LoseRows(lost: set<EventId>)
    | Sweep(now: Time, preallocateDays: nat, retentionDays: int)
    | Cleanup(day: Day, deleted: set<ObjectKey>)
    | Backfill(after: EventTable)

  const INITIAL := State(Table({}, false, map[]), map[], {}, map[], multiset{}, {}, {})

  function KeyOf(id: EventId, w: Written): ObjectKey { ObjectKey(id, DayOf(w.at)) }

  function RowOf(cfg: Config, w: Written): EventRow { RowFor(cfg, w.conversation, w.kind, w.body) }

  function EnvelopeOf(w: Written): Stored { EnvelopeFor(w.conversation, w.kind, w.at, w.body) }

  function IdsOf(keys: set<ObjectKey>): set<EventId> { set k | k in keys :: k.id }

  /** Rows of an event table that are no longer there. */
  function Losing(t: EventTable, ids: set<EventId>): EventTable { t.(rows := t.rows - ids) }

  function RowsOf(t: EventTable, c: ConversationId): set<EventId> {
    set id | id in t.rows && t.rows[id].value.conversation == c
  }

  /** The events a new table has a row for and the old one has not, on pending days. */
  function NewlyExposed(s: State, t: EventTable): set<EventId> {
    set id | id in t.rows && id !in s.table.rows && DayOf(t.rows[id].at) in s.pending
  }

  /** One step; a step that cannot happen changes nothing. Create draws a fresh id; its body reaches the
      store before the transaction commits, so a rollback leaves an object without a row. Backfill names the
      table it leaves, as EventService.Backfill specifies it. Cleanup deletes objects of its day, all of
      them unless it fails on the way. */
  ghost function Apply(cfg: Config, s: State, step: Step): State {
    match step
    case AddConversation(c) => s.(conversations := s.conversations + {c})
    case DropConversation(c) => s.(conversations := s.conversations - {c}, table := Losing(s.table, RowsOf(s.table, c)))
    case Create(id, w, commits) =>
      if id in s.written || w.conversation !in s.conversations || Route(s.table, w.at).Err? then s
      else Created(cfg, s, id, w, commits)
    case LoseRows(ids) => s.(table := Losing(s.table, ids))
    case Sweep(now, n, retentionDays) =>
      if Blocked(s.table, DayOf(now), n) then s
      else s.(table := Swept(s.table, DayOf(now), n, CutoffDay(now, retentionDays)),
              pending := s.pending
              + multiset(Expired(s.table.dated + Window(DayOf(now), n), CutoffDay(now, retentionDays))))
    case Cleanup(day, deleted) =>
      if day !in s.pending || !(deleted <= ObjectsOf(s.store, day)) then s
      else s.(store := s.store - deleted, pending := s.pending - multiset{day}, struck := s.struck + IdsOf(deleted))
    case Backfill(after) =>
      if !Restorable(cfg, s.table, s.conversations, s.store) || !IsBackfilled(cfg, s.table, s.store, after) then s
      else s.(table := after, exposed := s.exposed + NewlyExposed(s, after))
  }

  function Created(cfg: Config, s: State, id: EventId, w: Written, commits: bool): State
    requires Route(s.table, w.at).Ok?
  {
    var grown := Insert(s.table, id, w.at, RowOf(cfg, w)).value;
    s.(table := if commits then grown else s.table,
       store := if w.stored then s.store[KeyOf(id, w) := EnvelopeOf(w)] else s.store,
       written := s.written[id := w],
       exposed := if commits then s.exposed + NewlyExposed(s, grown) else s.exposed)
  }

  ghost function Run(cfg: Config, steps: seq<Step>): State {
    if steps == [] then INITIAL else Apply(cfg, Run(cfg, steps[..|steps| - 1]), steps[|steps| - 1])
  }

  // ---------------------------------------------------------------- the invariant

  /** Every row is the one create built from what it was given, lies where routing puts it, and keeps its
      conversation; on a pending day, or without its object, it is exposed. */
  ghost predicate RowsFaithful(cfg: Config, s: State) {
    && Laid(s.table)
    && forall id :: id in s.table.rows ==>
         && id in s.written && s.table.rows[id].at == s.written[id].at
            && s.table.rows[id].value == RowOf(cfg, s.written[id])
         && s.written[id].conversation in s.conversations
         && (DayOf(s.written[id].at) in s.pending || id in s.struck ==> id in s.exposed)
  }

  /** The store holds exactly the envelopes of the events whose write succeeded and that no cleanup struck,
      each under its own key. */
  ghost predicate StoreFaithful(s: State) {
    && s.struck <= s.written.Keys
    && (forall k :: k in s.store ==>
          && k.id in s.written && k == KeyOf(k.id, s.written[k.id]) && s.store[k] == EnvelopeOf(s.written[k.id])
          && s.written[k.id].stored && k.id !in s.struck)
    && (forall id :: id in s.written && s.written[id].stored && id !in s.struck ==> KeyOf(id, s.written[id]) in s.store)
  }

  ghost predicate Inv(cfg: Config, s: State) { RowsFaithful(cfg, s) && StoreFaithful(s) }

  lemma CreateKeepsInv(cfg: Config, s: State, id: EventId, w: Written, commits: bool)
    requires Inv(cfg, s) && id !in s.written && w.conversation in s.conversations && Route(s.table, w.at).Ok?
    ensures Inv(cfg, Created(cfg, s, id, w, commits))
  {
    var t := Created(cfg, s, id, w, commits);
    InsertKeepsLaid(s.table, id, w.at, RowOf(cfg, w));
    assert id !in s.table.rows;
    assert RowsFaithful(cfg, t);
    forall k | k in s.store ensures k != KeyOf(id, w) { assert k.id in s.written; }
  }

  lemma RowsShrink(cfg: Config, s: State, t: State)
    requires RowsFaithful(cfg, s) && Laid(t.table) && t.written == s.written && t.struck == s.struck
    requires t.exposed == s.exposed
    requires forall id :: id in t.table.rows ==> id in s.table.rows && t.table.rows[id] == s.table.rows[id]
    requires forall id :: id in t.table.rows ==> s.written[id].conversation in t.conversations
    requires forall id ::
      id in t.table.rows && DayOf(t.table.rows[id].at) in t.pending ==> DayOf(t.table.rows[id].at) in s.pending
    ensures RowsFaithful(cfg, t)
  {
  }

  /** A sweep leaves no row on a day it dropped, even when the day was of its own window. */
  lemma SweepClears(table: EventTable, today: Day, n: nat, cutoff: Day)
    requires Laid(table) && !Blocked(table, today, n)
    ensures var after := Swept(table, today, n, cutoff);
      && Laid(after)
      && (forall id :: id in after.rows ==> id in table.rows && after.rows[id] == table.rows[id])
      && (forall id :: id in table.rows ==>
            (id !in after.rows <==> DayOf(table.rows[id].at) in Expired(table.dated + Window(today, n), cutoff)))
  {
    var after := Swept(table, today, n, cutoff);
    forall id | id in table.rows
      ensures id !in after.rows <==> DayOf(table.rows[id].at) in Expired(table.dated + Window(today, n), cutoff)
      ensures id in after.rows ==> Accepts(after, after.rows[id].slot, after.rows[id].at)
    {
      assert Accepts(table, table.rows[id].slot, table.rows[id].at);
      if table.rows[id].slot == Default && DayOf(table.rows[id].at) in Window(today, n) {
        assert DefaultHolds(table, DayOf(table.rows[id].at));
      }
    }
  }

  lemma CleanupKeepsInv(cfg: Config, s: State, day: Day, deleted: set<ObjectKey>)
    requires Inv(cfg, s) && day in s.pending && deleted <= ObjectsOf(s.store, day)
    ensures Inv(cfg, Apply(cfg, s, Cleanup(day, deleted)))
  {
    var t := Apply(cfg, s, Cleanup(day, deleted));
    forall id | id in IdsOf(deleted)
      ensures id in s.written && DayOf(s.written[id].at) == day && KeyOf(id, s.written[id]) in deleted
    {
      var k :| k in deleted && k.id == id;
      assert k in s.store;
    }
    forall k | k in t.store ensures k.id !in t.struck { assert k in s.store; }
  }

  /** What backfill puts back for a stored object is the row create built for it. */
  lemma RebuildsWhatWasWritten(cfg: Config, s: State, k: ObjectKey)
    requires StoreFaithful(s) && k in s.store
    ensures Rebuild(cfg, k, s.store[k]) == Ok(Some((s.written[k.id].at, RowOf(cfg, s.written[k.id]))))
  {
    RebuildInvertsStore(cfg, k.id, s.written[k.id].conversation, s.written[k.id].kind, s.written[k.id].body,
                        s.written[k.id].at);
  }

  /** The rows of a backfilled table: those that were there and one, as written, for every stored object
      that had none. */
  lemma BackfilledRows(cfg: Config, s: State, after: EventTable)
    requires Inv(cfg, s) && IsBackfilled(cfg, s.table, s.store, after)
    ensures forall id ::
      id in after.rows <==> id in s.table.rows || (id in s.written && KeyOf(id, s.written[id]) in s.store)
    ensures forall id :: id in after.rows && id !in s.table.rows ==>
      && Route(s.table, s.written[id].at).Ok?
      && after.rows[id] == Row(s.written[id].at, RowOf(cfg, s.written[id]), Route(s.table, s.written[id].at).value)
  {
    forall k | k in s.store ensures k.id !in s.table.rows ==> k in Missing(cfg, s.table, s.store) {
      RebuildsWhatWasWritten(cfg, s, k);
    }
    forall id | id in after.rows && id !in s.table.rows
      ensures id in s.written && KeyOf(id, s.written[id]) in s.store && Route(s.table, s.written[id].at).Ok?
      ensures after.rows[id] == Row(s.written[id].at, RowOf(cfg, s.written[id]), Route(s.table, s.written[id].at).value)
    {
      var k :| k in Missing(cfg, s.table, s.store) && k.id == id;
      RebuildsWhatWasWritten(cfg, s, k);
    }
    forall id | id in s.written && KeyOf(id, s.written[id]) in s.store ensures id in after.rows {
      if id !in s.table.rows { assert KeyOf(id, s.written[id]) in Missing(cfg, s.table, s.store); }
    }
  }

  lemma BackfilledIsLaid(cfg: Config, s: State, after: EventTable)
    requires Inv(cfg, s) && IsBackfilled(cfg, s.table, s.store, after)
    ensures Laid(after)
  {
    BackfilledRows(cfg, s, after);
    forall id | id in after.rows ensures Accepts(after, after.rows[id].slot, after.rows[id].at) {
      if id in s.table.rows { assert Accepts(s.table, s.table.rows[id].slot, s.table.rows[id].at); }
    }
  }

  lemma BackfillKeepsInv(cfg: Config, s: State, after: EventTable)
    requires Inv(cfg, s) && Restorable(cfg, s.table, s.conversations, s.store)
    requires IsBackfilled(cfg, s.table, s.store, after)
    ensures Inv(cfg, Apply(cfg, s, Backfill(after)))
  {
    BackfilledRows(cfg, s, after);
    BackfilledIsLaid(cfg, s, after);
    RestorableExactly(cfg, s);
  }

  /** Backfill goes through exactly when every stored event without a row still has its conversation and a
      partition to go to. */
  lemma RestorableExactly(cfg: Config, s: State)
    requires Inv(cfg, s)
    ensures Restorable(cfg, s.table, s.conversations, s.store) <==>
      forall k :: k in s.store && k.id !in s.table.rows ==>
        s.written[k.id].conversation in s.conversations && Route(s.table, s.written[k.id].at).Ok?
  {
    forall k | k in s.store && k.id !in s.table.rows
      ensures k in Missing(cfg, s.table, s.store)
      ensures RestoreOne(cfg, s.table, s.conversations, k, s.store[k]).Ok? <==>
        s.written[k.id].conversation in s.conversations && Route(s.table, s.written[k.id].at).Ok?
    {
      RebuildsWhatWasWritten(cfg, s, k);
    }
  }

  lemma StepKeepsInv(cfg: Config, s: State, step: Step)
    requires Inv(cfg, s)
    ensures Inv(cfg, Apply(cfg, s, step))
  {
    var t := Apply(cfg, s, step);
    match step
    case Create(id, w, commits) =>
      if id !in s.written && w.conversation in s.conversations && Route(s.table, w.at).Ok? {
        CreateKeepsInv(cfg, s, id, w, commits);
      }
    case Sweep(now, n, retentionDays) =>
      if !Blocked(s.table, DayOf(now), n) {
        SweepClears(s.table, DayOf(now), n, CutoffDay(now, retentionDays));
        RowsShrink(cfg, s, t);
      }
    case Cleanup(day, deleted) =>
      if day in s.pending && deleted <= ObjectsOf(s.store, day) { CleanupKeepsInv(cfg, s, day, deleted); }
    case Backfill(after) =>
      if t != s { BackfillKeepsInv(cfg, s, after); }
    case _ =>
      forall id | id in t.table.rows ensures Accepts(t.table, t.table.rows[id].slot, t.table.rows[id].at) {
        assert Accepts(s.table, s.table.rows[id].slot, s.table.rows[id].at);
      }
      RowsShrink(cfg, s, t);
  }

  lemma {:induction false} RunKeepsInv(cfg: Config, steps: seq<Step>)
    ensures Inv(cfg, Run(cfg, steps))
  {
    if steps != [] {
      RunKeepsInv(cfg, steps[..|steps| - 1]);
      StepKeepsInv(cfg, Run(cfg, steps[..|steps| - 1]), steps[|steps| - 1]);
    }
  }

  /** In every reachable state the store holds one object per event. */
  lemma StoreIsUnique(cfg: Config, steps: seq<Step>)
    ensures UniqueIds(Run(cfg, steps).store)
  {
    RunKeepsInv(cfg, steps);
  }

  // ---------------------------------------------------------------- rows and bodies stay aligned

  /** What get_body answers for any row of any reachable state: the JSON value create was given, unless the
      body is not served from the row and its store write failed or a cleanup struck its object. */
  lemma BodiesResolve(cfg: Config, steps: seq<Step>, id: EventId)
    requires id in Run(cfg, steps).table.rows
    ensures var s := Run(cfg, steps); id in s.written && var w := s.written[id];
      ReadBody(s.table, s.store, true, w.conversation, id) ==
        if (w.stored && id !in s.struck) || Inline(cfg, w.body) then Ok(w.body) else Err(BodyNotFound)
  {
    RunKeepsInv(cfg, steps);
    var s := Run(cfg, steps);
    var w := s.written[id];
    BodyRoundTrip(cfg, s.table, s.store, true, id, w.conversation, w.kind, w.body, w.at, w.stored && id !in s.struck);
  }

  /** Every answer of get_body, for any conversation and id, with a store or without: an event is found through its own
      conversation only, and then its body or that there is none. */
  lemma GetBodyExactly(cfg: Config, steps: seq<Step>, hasStore: bool, c: ConversationId, id: EventId)
    ensures var s := Run(cfg, steps);
      && (id in s.table.rows ==> id in s.written)
      && ReadBody(s.table, s.store, hasStore, c, id) ==
           if id !in s.table.rows || s.written[id].conversation != c then Err(EventNotFound)
           else if Inline(cfg, s.written[id].body) || (hasStore && s.written[id].stored && id !in s.struck)
           then Ok(s.written[id].body)
           else Err(BodyNotFound)
  {
    RunKeepsInv(cfg, steps);
    var s := Run(cfg, steps);
    ScopeExactly(s.table, s.store, hasStore, c, id);
    if id in s.table.rows && s.written[id].conversation == c {
      var w := s.written[id];
      BodyRoundTrip(cfg, s.table, s.store, hasStore, id, c, w.kind, w.body, w.at,
                    hasStore && w.stored && id !in s.struck);
    }
  }

  /** What a reachable row holds of what create was given: all of it, but for a body over the cap, which is a
      stub. */
  lemma RowHolds(cfg: Config, steps: seq<Step>, id: EventId)
    requires id in Run(cfg, steps).table.rows
    ensures var s := Run(cfg, steps);
      && id in s.written && s.table.rows[id].at == s.written[id].at
      && var row, w := s.table.rows[id].value, s.written[id];
         && row.conversation == w.conversation && row.kind == w.kind && row.size == cfg.size(w.body)
         && (row.size <= cfg.cap ==> row.body == w.body)
         && (row.size > cfg.cap ==> row.body == map["_truncated" := Bool(true),
                                                    "original_size_bytes" := Num(row.size as real),
                                                    "preview" := Text(cfg.preview(w.body))])
  {
    RunKeepsInv(cfg, steps);
  }

  /** What a create leaves: a row if it commits, an object if the store takes it, whether or not it commits; and
      nothing else changes. */
  lemma CreateLeaves(cfg: Config, steps: seq<Step>, id: EventId, w: Written, commits: bool)
    requires var s := Run(cfg, steps);
      id !in s.written && w.conversation in s.conversations && Route(s.table, w.at).Ok?
    ensures var s, t := Run(cfg, steps), Apply(cfg, Run(cfg, steps), Create(id, w, commits));
      && id !in s.table.rows && (id in t.table.rows <==> commits)
      && t.table.rows.Keys - {id} == s.table.rows.Keys
         && (forall k :: k in s.table.rows ==> t.table.rows[k] == s.table.rows[k])
      && ObjectKey(id, DayOf(w.at)) !in s.store
      && t.store == if !w.stored then s.store else s.store[ObjectKey(id, DayOf(w.at)) :=
           Envelope(Some(w.conversation), Some(w.kind), Iso(w.at), Some(w.body))]
  {
    RunKeepsInv(cfg, steps);
  }

  /** Step i inserted a row for the event, by a create that commits or by a backfill, on a day dropped but not
      yet cleaned. */
  ghost predicate InsertedWhilePending(cfg: Config, steps: seq<Step>, i: nat, id: EventId)
    requires i < |steps|
  {
    var s, t := Run(cfg, steps[..i]), Run(cfg, steps[..i + 1]);
    Inserts(steps[i]) && id in NewlyExposed(s, t.table)
  }

  predicate Inserts(step: Step) { step.Create? || step.Backfill? }

  /** Some step of the run did. */
  ghost predicate EverInsertedWhilePending(cfg: Config, steps: seq<Step>, id: EventId) {
    exists i :: 0 <= i < |steps| && InsertedWhilePending(cfg, steps, i, id)
  }

  lemma SameInsertion(cfg: Config, steps: seq<Step>, init: seq<Step>, i: nat, id: EventId)
    requires steps != [] && init == steps[..|steps| - 1] && i < |init|
    ensures InsertedWhilePending(cfg, steps, i, id) <==> InsertedWhilePending(cfg, init, i, id)
  {
    assert steps[..i] == init[..i] && steps[..i + 1] == init[..i + 1];
  }

  lemma InsertedSnoc(cfg: Config, steps: seq<Step>, init: seq<Step>, id: EventId)
    requires steps != [] && init == steps[..|steps| - 1]
    ensures EverInsertedWhilePending(cfg, steps, id) <==>
      EverInsertedWhilePending(cfg, init, id) || InsertedWhilePending(cfg, steps, |init|, id)
  {
    forall i: nat | i < |init|
      ensures InsertedWhilePending(cfg, steps, i, id) <==> InsertedWhilePending(cfg, init, i, id)
    {
      SameInsertion(cfg, steps, init, i, id);
    }
  }

  /** The exposed events are those. */
  lemma {:induction false} ExposedExactly(cfg: Config, steps: seq<Step>, id: EventId)
    ensures id in Run(cfg, steps).exposed <==> EverInsertedWhilePending(cfg, steps, id)
  {
    if steps != [] {
      var init := steps[..|steps| - 1];
      ExposedExactly(cfg, init, id);
      InsertedSnoc(cfg, steps, init, id);
      ExposedByStep(cfg, Run(cfg, init), steps[|init|], id);
      assert steps[..|init|] == init && steps[..|init| + 1] == steps;
    }
  }

  lemma ExposedByStep(cfg: Config, s: State, step: Step, id: EventId)
    ensures var t := Apply(cfg, s, step);
      id in t.exposed <==> id in s.exposed || (Inserts(step) && id in NewlyExposed(s, t.table))
  {
  }

  /** Every cleanup that runs deletes all objects of its day. */
  ghost predicate CleanupsSucceed(cfg: Config, steps: seq<Step>) {
    forall i :: 0 <= i < |steps| ==> CleansFully(Run(cfg, steps[..i]), steps[i])
  }

  predicate CleansFully(s: State, step: Step) { step.Cleanup? ==> step.deleted == ObjectsOf(s.store, step.day) }

  /** An event whose store write, if it succeeded, awaits its day's cleanup, or has lost its object to it. */
  predicate Doomed(s: State, id: EventId) {
    id in s.written && (s.written[id].stored ==> DayOf(s.written[id].at) in s.pending || id in s.struck)
  }

  ghost predicate ExposedAreDoomed(s: State) { forall id :: id in s.exposed ==> Doomed(s, id) }

  lemma CleanupDooms(cfg: Config, s: State, step: Step, id: EventId)
    requires Inv(cfg, s) && step.Cleanup? && CleansFully(s, step) && Doomed(s, id)
    ensures Doomed(Apply(cfg, s, step), id)
  {
    if s.written[id].stored && id !in s.struck {
      assert KeyOf(id, s.written[id]).id == id && KeyOf(id, s.written[id]).day == DayOf(s.written[id].at);
      assert KeyOf(id, s.written[id]) in s.store;
    }
  }

  lemma StaysDoomed(cfg: Config, s: State, step: Step, id: EventId)
    requires Inv(cfg, s) && !step.Cleanup? && Doomed(s, id)
    ensures Doomed(Apply(cfg, s, step), id)
  {
  }

  lemma InsertDooms(cfg: Config, s: State, step: Step, id: EventId)
    requires Inv(cfg, s) && Inv(cfg, Apply(cfg, s, step)) && id in Apply(cfg, s, step).exposed && id !in s.exposed
    ensures Doomed(Apply(cfg, s, step), id)
  {
    ExposedByStep(cfg, s, step, id);
  }

  lemma StepKeepsDoomed(cfg: Config, s: State, step: Step)
    requires Inv(cfg, s) && ExposedAreDoomed(s) && CleansFully(s, step)
    ensures ExposedAreDoomed(Apply(cfg, s, step))
  {
    StepKeepsInv(cfg, s, step);
    forall id | id in Apply(cfg, s, step).exposed ensures Doomed(Apply(cfg, s, step), id) {
      if id !in s.exposed {
        InsertDooms(cfg, s, step, id);
      } else if step.Cleanup? {
        CleanupDooms(cfg, s, step, id);
      } else {
        StaysDoomed(cfg, s, step, id);
      }
    }
  }

  lemma {:induction false} RunKeepsDoomed(cfg: Config, steps: seq<Step>)
    requires CleanupsSucceed(cfg, steps)
    ensures ExposedAreDoomed(Run(cfg, steps))
  {
    if steps != [] {
      var last := |steps| - 1;
      var init := steps[..last];
      assert CleansFully(Run(cfg, steps[..last]), steps[last]);
      forall i | 0 <= i < last ensures CleansFully(Run(cfg, init[..i]), init[i]) {
        assert init[..i] == steps[..i] && CleansFully(Run(cfg, steps[..i]), steps[i]);
      }
      RunKeepsDoomed(cfg, init);
      RunKeepsInv(cfg, init);
      StepKeepsDoomed(cfg, Run(cfg, init), steps[last]);
    }
  }

  /** Alignment, exactly: once its day awaits no cleanup, a surviving event resolves to its body if that is served
      from its row, or else if and only if its store write succeeded and its row was never inserted between the
      commit of a sweep that dropped its day and the cleanup of that day. */
  lemma SurvivorResolvesExactly(cfg: Config, steps: seq<Step>, id: EventId)
    requires CleanupsSucceed(cfg, steps)
    requires var s := Run(cfg, steps); id in s.table.rows && DayOf(s.table.rows[id].at) !in s.pending
    ensures var s := Run(cfg, steps); id in s.written && var w := s.written[id];
      ReadBody(s.table, s.store, true, w.conversation, id) ==
        if Inline(cfg, w.body) || (w.stored && !EverInsertedWhilePending(cfg, steps, id)) then Ok(w.body)
        else Err(BodyNotFound)
  {
    RunKeepsInv(cfg, steps);
    RunKeepsDoomed(cfg, steps);
    BodiesResolve(cfg, steps, id);
    ExposedExactly(cfg, steps, id);
  }

  /** Whether or not cleanups succeed, and while they are still to come: an event never inserted on a pending
      day resolves to its body for as long as its row survives, if its store write succeeded. */
  lemma SurvivorsResolve(cfg: Config, steps: seq<Step>, id: EventId)
    requires id in Run(cfg, steps).table.rows
    requires !EverInsertedWhilePending(cfg, steps, id)
    ensures var s := Run(cfg, steps); id in s.written && (s.written[id].stored ==>
      ReadBody(s.table, s.store, true, s.written[id].conversation, id) == Ok(s.written[id].body))
  {
    RunKeepsInv(cfg, steps);
    BodiesResolve(cfg, steps, id);
    ExposedExactly(cfg, steps, id);
  }

  /** No row is inserted between the commit of a sweep and the end of its cleanup. */
  ghost predicate SweepsUndisturbed(cfg: Config, steps: seq<Step>) {
    forall i :: 0 <= i < |steps| && Inserts(steps[i]) ==> Run(cfg, steps[..i]).pending == multiset{}
  }

  /** When no insert comes between a sweep and its cleanup, no body is lost: every surviving event whose store
      write succeeded resolves to it. */
  lemma UndisturbedSweepsLoseNothing(cfg: Config, steps: seq<Step>, id: EventId)
    requires SweepsUndisturbed(cfg, steps) && id in Run(cfg, steps).table.rows
    ensures var s := Run(cfg, steps); id in s.written && (s.written[id].stored ==>
      ReadBody(s.table, s.store, true, s.written[id].conversation, id) == Ok(s.written[id].body))
  {
    forall i | 0 <= i < |steps| ensures !InsertedWhilePending(cfg, steps, i, id) {
      if Inserts(steps[i]) { assert Run(cfg, steps[..i]).pending == multiset{}; }
    }
    SurvivorsResolve(cfg, steps, id);
  }

  /** A sweep removes exactly the rows of the days it drops, and leaves the store alone. */
  lemma SweepDropsExactly(cfg: Config, steps: seq<Step>, now: Time, n: nat, retentionDays: int)
    requires !Blocked(Run(cfg, steps).table, DayOf(now), n)
    ensures var s := Run(cfg, steps); var t := Apply(cfg, s, Sweep(now, n, retentionDays));
      var dropped := Expired(s.table.dated + Window(DayOf(now), n), CutoffDay(now, retentionDays));
      && t.store == s.store && t.pending == s.pending + multiset(dropped)
      && forall id :: id in s.table.rows ==>
           if DayOf(s.table.rows[id].at) in dropped then id !in t.table.rows
           else id in t.table.rows && t.table.rows[id] == s.table.rows[id]
  {
    RunKeepsInv(cfg, steps);
    SweepClears(Run(cfg, steps).table, DayOf(now), n, CutoffDay(now, retentionDays));
  }

  /** What a cleanup that succeeds does to reading: the events of its day that are not served from their row
      lose their body, and no other event reads differently. */
  lemma CleanupRemovesExactly(cfg: Config, steps: seq<Step>, day: Day, id: EventId)
    requires day in Run(cfg, steps).pending && id in Run(cfg, steps).table.rows
    ensures id in Run(cfg, steps).written
    ensures var s := Run(cfg, steps); var w := s.written[id];
      var t := Apply(cfg, s, Cleanup(day, ObjectsOf(s.store, day)));
      && t.table == s.table && t.store == StoreWithout(s.store, {day}) && t.pending == s.pending - multiset{day}
      && ReadBody(t.table, t.store, true, w.conversation, id) ==
           if DayOf(w.at) == day && !Inline(cfg, w.body) then Err(BodyNotFound)
           else ReadBody(s.table, s.store, true, w.conversation, id)
  {
    RunKeepsInv(cfg, steps);
    var s := Run(cfg, steps);
    var w := s.written[id];
    BodiesResolve(cfg, steps, id);
    CleanAll(cfg, s, day);
    if DayOf(w.at) == day {
      CleanedRowReads(cfg, s.table, StoreWithout(s.store, {day}), id, w);
    } else {
      OtherDayReads(s.table, s.store, day, id, w.conversation);
    }
  }

  lemma CleanAll(cfg: Config, s: State, day: Day)
    requires day in s.pending
    ensures var t := Apply(cfg, s, Cleanup(day, ObjectsOf(s.store, day)));
      t.table == s.table && t.store == StoreWithout(s.store, {day})
  {
  }

  lemma OtherDayReads(table: EventTable, store: Store, day: Day, id: EventId, c: ConversationId)
    requires id in table.rows && DayOf(table.rows[id].at) != day
    ensures ReadBody(table, StoreWithout(store, {day}), true, c, id) == ReadBody(table, store, true, c, id)
  {
  }

  lemma CleanedRowReads(cfg: Config, table: EventTable, store: Store, id: EventId, w: Written)
    requires id in table.rows && table.rows[id].at == w.at && table.rows[id].value == RowOf(cfg, w)
    requires KeyOf(id, w) !in store
    ensures ReadBody(table, store, true, w.conversation, id)
      == if Inline(cfg, w.body) then Ok(w.body) else Err(BodyNotFound)
  {
    BodyRoundTrip(cfg, table, store, true, id, w.conversation, w.kind, w.body, w.at, false);
  }

  /** Nothing but a cleanup of its own day changes what a surviving row's body reads as. */
  lemma OthersDoNotDisturb(cfg: Config, steps: seq<Step>, step: Step, id: EventId, c: ConversationId)
    requires id in Run(cfg, steps).table.rows && id in Apply(cfg, Run(cfg, steps), step).table.rows
    requires step.Cleanup? ==> step.day != DayOf(Run(cfg, steps).table.rows[id].at)
    ensures var s := Run(cfg, steps); var t := Apply(cfg, s, step);
      ReadBody(t.table, t.store, true, c, id) == ReadBody(s.table, s.store, true, c, id)
  {
    RunKeepsInv(cfg, steps);
    SurvivorKeepsRow(cfg, Run(cfg, steps), step, id);
    SurvivorKeepsObject(cfg, Run(cfg, steps), step, id);
  }

  lemma SurvivorKeepsRow(cfg: Config, s: State, step: Step, id: EventId)
    requires Inv(cfg, s) && id in s.table.rows && id in Apply(cfg, s, step).table.rows
    ensures var t := Apply(cfg, s, step);
      t.table.rows[id].value == s.table.rows[id].value && t.table.rows[id].at == s.table.rows[id].at
  {
  }

  lemma SurvivorKeepsObject(cfg: Config, s: State, step: Step, id: EventId)
    requires Inv(cfg, s) && id in s.table.rows
    requires step.Cleanup? ==> step.day != DayOf(s.table.rows[id].at)
    ensures var t := Apply(cfg, s, step); var key := ObjectKey(id, DayOf(s.table.rows[id].at));
      (key in t.store <==> key in s.store) && (key in s.store ==> t.store[key] == s.store[key])
  {
    var key := ObjectKey(id, DayOf(s.table.rows[id].at));
    if step.Create? { assert step.id !in s.written ==> KeyOf(step.id, step.event) != key; }
  }

  /** The window is real: an event created on a dropped day before that day's cleanup keeps its row but
      loses its body, whatever the body, as soon as it is over the cap. */
  lemma CreateBeforeCleanupLosesBody(cfg: Config, body: Body)
    requires cfg.size(body) > cfg.cap
    ensures var s := Run(cfg, LossyRun(body));
      && 0 in s.table.rows && 0 in s.written && s.written[0].stored && s.written[0].body == body
      && ReadBody(s.table, s.store, true, 0, 0) == Err(BodyNotFound)
  {
    DroppedDayPending(cfg);
    var start := [AddConversation(0), Sweep(0, 1, 1), Sweep(2 * DAY, 1, 1)];
    var create := Create(0, Written(0, "note", body, 0, true), true);
    var clean := Cleanup(EPOCH_DAY, {ObjectKey(0, EPOCH_DAY)});
    RunSnoc(cfg, start, create);
    RunSnoc(cfg, start + [create], clean);
    assert LossyRun(body) == start + [create] + [clean];
    assert ObjectKey(0, EPOCH_DAY) in ObjectsOf(Run(cfg, start + [create]).store, EPOCH_DAY);
    BodiesResolve(cfg, LossyRun(body), 0);
    assert 0 in IdsOf({ObjectKey(0, EPOCH_DAY)}) by { assert ObjectKey(0, EPOCH_DAY).id == 0; }
  }

  lemma DroppedDayPending(cfg: Config)
    ensures var s := Run(cfg, [AddConversation(0), Sweep(0, 1, 1), Sweep(2 * DAY, 1, 1)]);
      && 0 in s.conversations && s.written == map[] && s.store == map[] && s.table.rows == map[] && s.table.hasDefault
      && EPOCH_DAY in s.pending && EPOCH_DAY !in s.table.dated
  {
    var known := [AddConversation(0)];
    var first := known + [Sweep(0, 1, 1)];
    assert [AddConversation(0), Sweep(0, 1, 1), Sweep(2 * DAY, 1, 1)] == first + [Sweep(2 * DAY, 1, 1)];
    assert [] + known == known;
    RunSnoc(cfg, [], AddConversation(0));
    RunSnoc(cfg, known, Sweep(0, 1, 1));
    RunSnoc(cfg, first, Sweep(2 * DAY, 1, 1));
    assert Run(cfg, known) == INITIAL.(conversations := {0});
    FirstSweep(cfg, Run(cfg, known));
    SecondSweep(cfg, Run(cfg, first));
  }

  lemma FirstSweep(cfg: Config, s: State)
    requires s == INITIAL.(conversations := {0})
    ensures Apply(cfg, s, Sweep(0, 1, 1)) == s.(table := FRESH_TABLE)
  {
    assert CutoffDay(0, 1) == EPOCH_DAY - 1;
    OneDay(EPOCH_DAY);
    assert Expired({} + Window(EPOCH_DAY, 1), EPOCH_DAY - 1) == {};
    assert Minus(FRESH_TABLE, {}) == FRESH_TABLE;
  }

  /** The table after its first sweep, at instant 0 with a window of one day. */
  const FRESH_TABLE: EventTable := Table({EPOCH_DAY}, true, map[])

  lemma OneDay(day: Day)
    ensures Window(day, 1) == {day}
  {
    assert forall d :: d in Window(day, 1) <==> d == day;
  }

  lemma SecondSweep(cfg: Config, s: State)
    requires s == INITIAL.(conversations := {0}, table := FRESH_TABLE)
    ensures var t := Apply(cfg, s, Sweep(2 * DAY, 1, 1));
      t.table == Table({EPOCH_DAY + 2}, true, map[]) && EPOCH_DAY in t.pending
      && t == s.(table := t.table, pending := t.pending)
  {
    var today := EPOCH_DAY + 2;
    assert DayOf(2 * DAY) == today && CutoffDay(2 * DAY, 1) == EPOCH_DAY + 1;
    OneDay(today);
    assert Expired({EPOCH_DAY} + Window(today, 1), EPOCH_DAY + 1) == {EPOCH_DAY};
    var laid: EventTable := Table({EPOCH_DAY, today}, true, map[]);
    assert Minus(laid, {EPOCH_DAY}) == laid.(dated := {today});
  }

  lemma RunSnoc(cfg: Config, steps: seq<Step>, step: Step)
    ensures Run(cfg, steps + [step]) == Apply(cfg, Run(cfg, steps), step)
  {
    assert (steps + [step])[..|steps|] == steps;
  }

  function LossyRun(body: Body): seq<Step> {
    [AddConversation(0), Sweep(0, 1, 1), Sweep(2 * DAY, 1, 1), Create(0, Written(0, "note", body, 0, true), true),
     Cleanup(EPOCH_DAY, {ObjectKey(0, EPOCH_DAY)})]
  }

  // ---------------------------------------------------------------- backfill reconstructs

  /** After any run, a backfill that goes through leaves every existing row as it was and inserts exactly
      the stored events that had none, each with the timestamp, conversation, kind, size and body-or-stub
      that create built; what it restores reads back in full. */
  lemma BackfillReconstructs(cfg: Config, steps: seq<Step>, after: EventTable)
    requires var s := Run(cfg, steps);
      Restorable(cfg, s.table, s.conversations, s.store) && IsBackfilled(cfg, s.table, s.store, after)
    ensures var s := Run(cfg, steps);
      && (forall id :: id in s.table.rows ==> id in after.rows && after.rows[id] == s.table.rows[id])
      && (forall id :: id in after.rows && id !in s.table.rows <==>
            id !in s.table.rows && id in s.written && s.written[id].stored && id !in s.struck)
      && (forall id :: id in after.rows && id !in s.table.rows ==>
            && after.rows[id].at == s.written[id].at
            && after.rows[id].value == RowFor(cfg, s.written[id].conversation, s.written[id].kind, s.written[id].body)
            && ReadBody(after, s.store, true, s.written[id].conversation, id) == Ok(s.written[id].body))
  {
    RunKeepsInv(cfg, steps);
    var s := Run(cfg, steps);
    BackfilledRows(cfg, s, after);
    forall id | id in s.written && KeyOf(id, s.written[id]) in s.store
      ensures s.written[id].stored && id !in s.struck
    {
    }
    forall id | id in after.rows && id !in s.table.rows
      ensures ReadBody(after, s.store, true, s.written[id].conversation, id) == Ok(s.written[id].body)
    {
      var w := s.written[id];
      BodyRoundTrip(cfg, after, s.store, true, id, w.conversation, w.kind, w.body, w.at, true);
    }
  }

  /** Rows that were lost while their objects stayed come back as they were. */
  lemma LostRowsComeBack(cfg: Config, steps: seq<Step>, ids: set<EventId>, after: EventTable)
    requires var t := Apply(cfg, Run(cfg, steps), LoseRows(ids));
      Restorable(cfg, t.table, t.conversations, t.store) && IsBackfilled(cfg, t.table, t.store, after)
    ensures var s, t := Run(cfg, steps), Apply(cfg, Run(cfg, steps), LoseRows(ids));
      && t.table.rows.Keys == s.table.rows.Keys - ids && t.store == s.store
      && (forall id :: id in s.table.rows ==> id in s.written)
      && (forall id :: id in s.table.rows && (id !in ids || (s.written[id].stored && id !in s.struck)) ==>
            id in after.rows && after.rows[id].at == s.table.rows[id].at
            && after.rows[id].value == s.table.rows[id].value)
  {
    var s, t := Run(cfg, steps), Apply(cfg, Run(cfg, steps), LoseRows(ids));
    RunKeepsInv(cfg, steps);
    StepKeepsInv(cfg, s, LoseRows(ids));
    forall id | id in s.table.rows && (id !in ids || (s.written[id].stored && id !in s.struck))
      ensures id in after.rows && after.rows[id].at == s.table.rows[id].at
      ensures after.rows[id].value == s.table.rows[id].value
    {
      RowComesBack(cfg, s, ids, t, after, id);
    }
  }

  lemma RowComesBack(cfg: Config, s: State, ids: set<EventId>, t: State, after: EventTable, id: EventId)
    requires Inv(cfg, s) && Inv(cfg, t) && t == s.(table := Losing(s.table, ids))
    requires IsBackfilled(cfg, t.table, t.store, after)
    requires id in s.table.rows && (id !in ids || (s.written[id].stored && id !in s.struck))
    ensures id in after.rows && after.rows[id].at == s.table.rows[id].at
    ensures after.rows[id].value == s.table.rows[id].value
  {
    BackfilledRows(cfg, t, after);
    if id in t.table.rows { assert after.rows[id] == t.table.rows[id]; }
  }

  /** A second backfill right after the first finds nothing missing and is bound to go through. */
  lemma SecondBackfillRestoresNothing(cfg: Config, steps: seq<Step>, after: EventTable)
    requires var s := Run(cfg, steps);
      Restorable(cfg, s.table, s.conversations, s.store) && IsBackfilled(cfg, s.table, s.store, after)
    ensures var s := Run(cfg, steps);
      && UniqueIds(s.store) && Missing(cfg, after, s.store) == {} && Restorable(cfg, after, s.conversations, s.store)
      && forall again :: IsBackfilled(cfg, after, s.store, again) ==> again.rows == after.rows
  {
    RunKeepsInv(cfg, steps);
    NothingMissingAfter(cfg, Run(cfg, steps), after);
  }

  lemma NothingMissingAfter(cfg: Config, s: State, after: EventTable)
    requires Inv(cfg, s) && IsBackfilled(cfg, s.table, s.store, after)
    ensures Missing(cfg, after, s.store) == {}
    ensures forall again :: IsBackfilled(cfg, after, s.store, again) ==> again.rows == after.rows
  {
    BackfilledRows(cfg, s, after);
    forall k | k in s.store ensures k.id in after.rows { assert k == KeyOf(k.id, s.written[k.id]); }
    assert Missing(cfg, after, s.store) == {};
    forall again | IsBackfilled(cfg, after, s.store, again) ensures again.rows == after.rows {
      NothingMissingNothingAdded(cfg, after, s.store, again);
    }
  }

  lemma NothingMissingNothingAdded(cfg: Config, table: EventTable, store: Store, again: EventTable)
    requires Missing(cfg, table, store) == {} && IsBackfilled(cfg, table, store, again)
    ensures again.rows == table.rows
  {
    assert (set k | k in Missing(cfg, table, store) :: k.id) == {};
  }

  /** Exactly when a backfill fails after any run: some stored event without a row lost its conversation,
      or there is nowhere to put it because no sweep has yet made a DEFAULT partition. */
  lemma BackfillFailsExactly(cfg: Config, steps: seq<Step>)
    ensures var s := Run(cfg, steps);
      !Restorable(cfg, s.table, s.conversations, s.store) <==>
        exists id :: id in s.written && s.written[id].stored && id !in s.struck && id !in s.table.rows
          && (s.written[id].conversation !in s.conversations || Route(s.table, s.written[id].at).Err?)
  {
    RunKeepsInv(cfg, steps);
    var s := Run(cfg, steps);
    RestorableExactly(cfg, s);
    forall k | k in s.store ensures k.id in s.written && s.written[k.id].stored && k.id !in s.struck {}
    forall id | id in s.written && s.written[id].stored && id !in s.struck
      ensures KeyOf(id, s.written[id]) in s.store
    {
    }
  }

  // ---------------------------------------------------------------- promises that fail, at inputs the code receives

  /** A first sweep, and then a create on that day or any other. */
  function SweptThenCreated(at: Time, body: Body, stored: bool): seq<Step> {
    [AddConversation(0), Sweep(0, 1, 1), Create(0, Written(0, "note", body, at, stored), true)]
  }

  lemma AfterCreate(cfg: Config, at: Time, body: Body, stored: bool)
    ensures var s := Run(cfg, SweptThenCreated(at, body, stored)); var w := Written(0, "note", body, at, stored);
      && s.table == Insert(FRESH_TABLE, 0, at, RowOf(cfg, w)).value && s.conversations == {0}
         && s.written == map[0 := w]
      && s.store == (if stored then map[ObjectKey(0, DayOf(at)) := EnvelopeOf(w)] else map[]) && s.struck == {}
  {
    var known := [AddConversation(0)];
    var first := known + [Sweep(0, 1, 1)];
    var create := Create(0, Written(0, "note", body, at, stored), true);
    assert [] + known == known;
    RunSnoc(cfg, [], AddConversation(0));
    RunSnoc(cfg, known, Sweep(0, 1, 1));
    RunSnoc(cfg, first, create);
    assert SweptThenCreated(at, body, stored) == first + [create];
    assert Run(cfg, known) == INITIAL.(conversations := {0});
    FirstSweep(cfg, Run(cfg, known));
  }

  /** A sweep is refused: an event dated one day beyond the window went to DEFAULT, and the next day's sweep
      cannot create its partition. Nothing is created or dropped. */
  lemma EarlyEventBlocksTheSweep(cfg: Config, body: Body, stored: bool)
    ensures var s := Run(cfg, SweptThenCreated(DAY, body, stored));
      && Blocked(s.table, DayOf(DAY), 1)
      && Apply(cfg, s, Sweep(DAY, 1, 1)) == s
  {
    AfterCreate(cfg, DAY, body, stored);
    var t := Run(cfg, SweptThenCreated(DAY, body, stored)).table;
    OneDay(EPOCH_DAY + 1);
    assert t.rows[0].slot == Default;
    assert DefaultHolds(t, EPOCH_DAY + 1);
  }

  /** A backfill fails: the conversation of a stored event was deleted, which took the row and left the
      object. */
  lemma DeletedConversationStopsBackfill(cfg: Config, body: Body)
    ensures var s := Run(cfg, SweptThenCreated(0, body, true) + [DropConversation(0)]);
      && s.table.rows == map[] && ObjectKey(0, EPOCH_DAY) in s.store
      && !Restorable(cfg, s.table, s.conversations, s.store)
  {
    var before := SweptThenCreated(0, body, true);
    AfterCreate(cfg, 0, body, true);
    RunSnoc(cfg, before, DropConversation(0));
    var s := Run(cfg, before + [DropConversation(0)]);
    assert RowsOf(Run(cfg, before).table, 0) == {0};
    BackfillFailsExactly(cfg, before + [DropConversation(0)]);
    assert 0 in s.written && s.written[0].stored && 0 !in s.struck && 0 !in s.table.rows
      && s.written[0].conversation !in s.conversations;
  }

  /** A body that the row holds in full is not served: it is within the cap, carries a true marker of its
      own, and its store write failed. */
  lemma OwnMarkerHidesBody(cfg: Config, at: Time)
    requires cfg.size(OWN_MARKER) <= cfg.cap
    ensures var s := Run(cfg, SweptThenCreated(at, OWN_MARKER, false));
      && 0 in s.table.rows && s.table.rows[0].value.body == OWN_MARKER
      && ReadBody(s.table, s.store, true, 0, 0) == Err(BodyNotFound)
  {
    AfterCreate(cfg, at, OWN_MARKER, false);
    assert OWN_MARKER[MARKER] == Bool(true);
  }

  const OWN_MARKER: Body := map[MARKER := Bool(true)]
}
