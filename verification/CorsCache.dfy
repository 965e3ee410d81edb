/** The in-memory allow-list cache of cors_service.py. */
module CorsCache {
  import opened Common

  type Origins = set<string>

  const TTL: Time := 30 * SECOND

  /** A cached set with the clock read taken before the query that filled it. readAt is bookkeeping for
      the proofs: the instant of that query. */
  datatype Entry = Entry(origins: Origins, stamp: Time, readAt: Time)

  /** What a read beginning now is served from the cache. */
  function Hit(cache: Option<Entry>, now: Time): Option<Origins> {
    if cache.Some? && now - cache.value.stamp < TTL then Some(cache.value.origins) else None
  }

  // ---------------------------------------------------------------- one process, no interleaving

  datatype CorsError = Conflict(origin: string) | NotFound(id: nat)

  class CorsService {
    var rows: map<nat, string>
    var cache: Option<Entry>

    constructor ()
      ensures rows == map[] && cache == None
    {
      rows, cache := map[], None;
    }

    method ResetCorsCache()
      modifies this`cache
      ensures cache == None
    {
      cache := None;
    }

    method CreateAllowedOrigin(id: nat, origin: string) returns (r: Result<nat, CorsError>)
      requires id !in rows
      modifies this
      ensures r.Ok? <==> origin !in old(rows).Values
      ensures r.Ok? ==> r.value == id && rows == old(rows)[id := origin] && cache == None
      ensures r.Err? ==> r.error == Conflict(origin) && rows == old(rows) && cache == old(cache)
    {
      if origin in rows.Values {
        return Err(Conflict(origin));
      }
      rows := rows[id := origin];
      ResetCorsCache();
      return Ok(id);
    }

    method DeleteAllowedOrigin(id: nat) returns (r: Result<(), CorsError>)
      modifies this
      ensures r.Ok? <==> id in old(rows)
      ensures r.Ok? ==> rows == old(rows) - {id} && cache == None
      ensures r.Err? ==> r.error == NotFound(id) && rows == old(rows) && cache == old(cache)
    {
      if id !in rows {
        return Err(NotFound(id));
      }
      rows := rows - {id};
      ResetCorsCache();
      return Ok(());
    }

    /** Without interleaving a read returns the table's set unless the cache is fresh, and it never
        changes a fresh entry. */
    method GetAllowedOriginsCached(now: Time) returns (origins: Origins)
      modifies this`cache
      ensures old(cache).Some? && now - old(cache).value.stamp < 30 * SECOND ==>
        origins == old(cache).value.origins && cache == old(cache)
      ensures !(old(cache).Some? && now - old(cache).value.stamp < 30 * SECOND) ==>
        origins == rows.Values && cache == Some(Entry(rows.Values, now, now))
    {
      var cached := Hit(cache, now);
      if cached.Some? {
        return cached.value;
      }
      origins := rows.Values;
      cache := Some(Entry(origins, now, now));
    }
  }

  // ---------------------------------------------------------------- interleavings

  /** The committed table over time: versions[i] is in force from its instant to the next one's. */
  datatype Version = Version(since: Time, origins: Origins)

  /** A read that missed the cache: before its query, and between its query and the cache write. */
  datatype Pending = Querying(began: Time) | Queried(entry: Entry)

  datatype Returned = Returned(origins: Origins, began: Time, ended: Time)

  datatype State = State(clock: Time, versions: seq<Version>, cache: Option<Entry>, calls: map<nat, Pending>,
                         log: seq<Returned>)

  /** Time passes; a read begins, queries, or finishes; a mutation resets the cache before its
      transaction commits; a transaction commits. All orders are possible. */
  datatype Step =
    | Tick(d: nat)
    | Begin(call: nat)
    | Query(call: nat)
    | Finish(call: nat)
    | Reset
    | Commit(origins: Origins)

  function Initial(origins: Origins): State { State(0, [Version(0, origins)], None, map[], []) }

  function Current(s: State): Origins
    requires s.versions != []
  {
    s.versions[|s.versions| - 1].origins
  }

  function Apply(s: State, step: Step): (t: State)
    requires s.versions != []
    ensures t.versions != []
  {
    match step
    case Tick(d) => s.(clock := s.clock + d)
    case Begin(c) =>
      var hit := Hit(s.cache, s.clock);
      if c in s.calls then s
      else if hit.Some? then s.(log := s.log + [Returned(hit.value, s.clock, s.clock)])
      else s.(calls := s.calls[c := Querying(s.clock)])
    case Query(c) =>
      if c in s.calls && s.calls[c].Querying?
      then s.(calls := s.calls[c := Queried(Entry(Current(s), s.calls[c].began, s.clock))])
      else s
    case Finish(c) =>
      if c in s.calls && s.calls[c].Queried? then
        var e := s.calls[c].entry;
        s.(cache := Some(e), calls := s.calls - {c}, log := s.log + [Returned(e.origins, e.stamp, s.clock)])
      else s
    case Reset => s.(cache := None)
    case Commit(o) => s.(versions := s.versions + [Version(s.clock, o)])
  }

  function Run(s: State, steps: seq<Step>): (t: State)
    requires s.versions != []
    ensures t.versions != []
    decreases |steps|
  {
    if steps == [] then s else Run(Apply(s, steps[0]), steps[1..])
  }

  ghost predicate CommittedAt(versions: seq<Version>, t: Time, origins: Origins) {
    exists i :: 0 <= i < |versions| && versions[i].origins == origins && versions[i].since <= t
                && (i + 1 < |versions| ==> t <= versions[i + 1].since)
  }

  ghost predicate EntryOk(s: State, e: Entry) {
    e.stamp <= e.readAt <= s.clock && CommittedAt(s.versions, e.readAt, e.origins)
  }

  ghost predicate BoundedlyStale(s: State, r: Returned) {
    r.ended <= s.clock && exists t :: r.began - TTL < t <= r.ended && CommittedAt(s.versions, t, r.origins)
  }

  ghost predicate Inv(s: State) {
    && s.versions != []
    && (forall i :: 0 <= i < |s.versions| ==> s.versions[i].since <= s.clock)
    && (s.cache.Some? ==> EntryOk(s, s.cache.value))
    && (forall c :: c in s.calls && s.calls[c].Querying? ==> s.calls[c].began <= s.clock)
    && (forall c :: c in s.calls && s.calls[c].Queried? ==> EntryOk(s, s.calls[c].entry))
    && (forall k :: 0 <= k < |s.log| ==> BoundedlyStale(s, s.log[k]))
  }

  lemma CommittedKeeps(s: State, o: Origins, t: Time, origins: Origins)
    requires CommittedAt(s.versions, t, origins) && t <= s.clock
    ensures CommittedAt(s.versions + [Version(s.clock, o)], t, origins)
  {
    var grown := s.versions + [Version(s.clock, o)];
    var i :| 0 <= i < |s.versions| && s.versions[i].origins == origins && s.versions[i].since <= t
             && (i + 1 < |s.versions| ==> t <= s.versions[i + 1].since);
    assert grown[i] == s.versions[i];
    assert t <= grown[i + 1].since by {
      if i + 1 < |s.versions| { assert grown[i + 1] == s.versions[i + 1]; }
    }
  }

  lemma StepKeepsInv(s: State, step: Step)
    requires Inv(s)
    ensures Inv(Apply(s, step))
  {
    var t := Apply(s, step);
    match step
    case Commit(o) =>
      if s.cache.Some? { CommittedKeeps(s, o, s.cache.value.readAt, s.cache.value.origins); }
      forall c | c in t.calls && t.calls[c].Queried? ensures EntryOk(t, t.calls[c].entry) {
        CommittedKeeps(s, o, s.calls[c].entry.readAt, s.calls[c].entry.origins);
      }
      forall k | 0 <= k < |t.log| ensures BoundedlyStale(t, t.log[k]) {
        var at :| s.log[k].began - TTL < at <= s.log[k].ended && CommittedAt(s.versions, at, s.log[k].origins);
        CommittedKeeps(s, o, at, s.log[k].origins);
      }
    case Query(c) =>
      assert s.versions[|s.versions| - 1].origins == Current(s);
      assert CommittedAt(s.versions, s.clock, Current(s));
      forall d | d in t.calls && t.calls[d].Queried? ensures EntryOk(t, t.calls[d].entry) {
        if d != c { assert t.calls[d] == s.calls[d]; }
      }
      LogKeeps(s, t);
    case Begin(c) =>
      LogKeeps(s, t);
      if Hit(s.cache, s.clock).Some? && c !in s.calls {
        var r := Returned(s.cache.value.origins, s.clock, s.clock);
        assert r.began - TTL < s.cache.value.readAt <= r.ended;
        assert BoundedlyStale(t, r);
      }
    case Finish(c) =>
      LogKeeps(s, t);
      if c in s.calls && s.calls[c].Queried? {
        var e := s.calls[c].entry;
        assert EntryOk(s, e) && EntryOk(t, e);
        assert BoundedlyStale(t, Returned(e.origins, e.stamp, s.clock));
      }
    case Tick(d) =>
      LogKeeps(s, t);
    case Reset =>
      LogKeeps(s, t);
  }

  lemma LogKeeps(s: State, t: State)
    requires Inv(s) && t.versions == s.versions && t.clock >= s.clock
    ensures forall k :: 0 <= k < |s.log| ==> BoundedlyStale(t, s.log[k])
  {
  }

  lemma {:induction false} RunKeepsInv(s: State, steps: seq<Step>)
    requires Inv(s)
    ensures Inv(Run(s, steps))
    decreases |steps|
  {
    if steps != [] {
      StepKeepsInv(s, steps[0]);
      RunKeepsInv(Apply(s, steps[0]), steps[1..]);
    }
  }

  /** Bounded staleness: in every interleaving of reads, slow concurrent fills, resets and commits, each
      returned set was the committed set at an instant less than 30 s before the call began, or during
      the call. */
  lemma BoundedStaleness(origins: Origins, steps: seq<Step>, k: nat)
    requires k < |Run(Initial(origins), steps).log|
    ensures var s := Run(Initial(origins), steps);
      exists t :: s.log[k].began - 30 * SECOND < t <= s.log[k].ended && CommittedAt(s.versions, t, s.log[k].origins)
  {
    RunKeepsInv(Initial(origins), steps);
    assert BoundedlyStale(Run(Initial(origins), steps), Run(Initial(origins), steps).log[k]);
  }

  // ---------------------------------------------------------------- when a change is visible at once

  predicate NoCommit(steps: seq<Step>) {
    forall i :: 0 <= i < |steps| ==> !steps[i].Commit?
  }

  /** No fresh entry, cached or about to be cached, differs from the committed set. */
  ghost predicate Coherent(s: State)
    requires s.versions != []
  {
    && (s.cache.Some? && s.clock - s.cache.value.stamp < TTL ==> s.cache.value.origins == Current(s))
    && (forall c :: c in s.calls && s.calls[c].Queried? && s.clock - s.calls[c].entry.stamp < TTL
          ==> s.calls[c].entry.origins == Current(s))
  }

  ghost predicate ServesCurrent(s: State, origins: Origins) {
    Hit(s.cache, s.clock).Some? ==> Hit(s.cache, s.clock).value == origins
  }

  lemma {:induction false} CoherentServes(s: State, steps: seq<Step>)
    requires s.versions != [] && Coherent(s) && NoCommit(steps)
    ensures Current(Run(s, steps)) == Current(s) && ServesCurrent(Run(s, steps), Current(s))
    decreases |steps|
  {
    if steps != [] {
      var t := Apply(s, steps[0]);
      assert !steps[0].Commit?;
      forall c | c in t.calls && t.calls[c].Queried? && t.clock - t.calls[c].entry.stamp < TTL
        ensures t.calls[c].entry.origins == Current(t)
      {
        if c in s.calls && s.calls[c].Queried? { assert t.calls[c] == s.calls[c]; }
      }
      CoherentServes(t, steps[1..]);
    }
  }

  /** A change is visible to every later read, whatever happens next short of another commit, exactly
      when at its commit no fresh fill of an older set is cached or in flight. */
  lemma VisibleAtOnceIffCoherent(s: State)
    requires s.versions != []
    ensures Coherent(s) <==> forall steps :: NoCommit(steps) ==> ServesCurrent(Run(s, steps), Current(s))
  {
    if Coherent(s) {
      forall steps | NoCommit(steps) ensures ServesCurrent(Run(s, steps), Current(s)) { CoherentServes(s, steps); }
    } else if s.cache.Some? && s.clock - s.cache.value.stamp < TTL && s.cache.value.origins != Current(s) {
      assert !ServesCurrent(Run(s, []), Current(s)) && NoCommit([]);
    } else {
      var c :| c in s.calls && s.calls[c].Queried? && s.clock - s.calls[c].entry.stamp < TTL
               && s.calls[c].entry.origins != Current(s);
      var steps := [Finish(c)];
      assert steps[1..] == [];
      assert Run(s, steps) == Apply(s, Finish(c));
      assert !ServesCurrent(Run(s, steps), Current(s)) && NoCommit(steps);
    }
  }

  /** What a read gets: the cached set at once while that is fresh, and otherwise the set its own query saw, however
      long it takes; it leaves that in the cache with the clock read of its beginning. */
  lemma ReadReturns(s: State, c: nat, untilQuery: nat, untilReturn: nat)
    requires s.versions != [] && c !in s.calls
    ensures var t := Apply(s, Begin(c));
      if s.cache.Some? && s.clock - s.cache.value.stamp < 30 * SECOND
      then t == s.(log := s.log + [Returned(s.cache.value.origins, s.clock, s.clock)])
      else
        var u := Apply(Apply(Apply(Apply(t, Tick(untilQuery)), Query(c)), Tick(untilReturn)), Finish(c));
        && u.cache == Some(Entry(Current(s), s.clock, s.clock + untilQuery)) && u.calls == s.calls
        && u.log == s.log + [Returned(Current(s), s.clock, s.clock + untilQuery + untilReturn)]
  {
    assert s.calls - {c} == s.calls;
  }

  /** Were the cache reset after the commit, a change would be visible at once unless a fill were in flight. */
  lemma ResetAfterCommitIsCoherent(s: State, origins: Origins)
    requires s.versions != [] && forall c :: c in s.calls ==> s.calls[c].Querying?
    ensures var t := Apply(Apply(s, Commit(origins)), Reset);
      Current(t) == origins && forall steps :: NoCommit(steps) ==> ServesCurrent(Run(t, steps), origins)
  {
    VisibleAtOnceIffCoherent(Apply(Apply(s, Commit(origins)), Reset));
  }

  /** The module's comment promises that a mutation takes effect immediately. The reset comes before the
      commit, so a fill in between brings the old set back: here a read that begins after the commit of
      {"b"} is still answered {"a"}. */
  lemma ResetBeforeCommitLosesTheChange()
    ensures var before := Run(Initial({"a"}), [Reset, Begin(0), Query(0), Finish(0), Commit({"b"})]);
      Current(before) == {"b"} && Hit(before.cache, before.clock) == Some({"a"})
  {
    var s0 := Initial({"a"});
    var s1 := Apply(s0, Reset);
    var s2 := Apply(s1, Begin(0));
    var s3 := Apply(s2, Query(0));
    var s4 := Apply(s3, Finish(0));
    var s5 := Apply(s4, Commit({"b"}));
    var steps := [Reset, Begin(0), Query(0), Finish(0), Commit({"b"})];
    assert steps[1..] == [Begin(0), Query(0), Finish(0), Commit({"b"})];
    assert steps[1..][1..] == [Query(0), Finish(0), Commit({"b"})];
    assert steps[1..][1..][1..] == [Finish(0), Commit({"b"})];
    assert steps[1..][1..][1..][1..] == [Commit({"b"})];
    assert steps[1..][1..][1..][1..][1..] == [];
    assert Run(s4, [Commit({"b"})]) == s5;
    assert Run(s2, [Query(0), Finish(0), Commit({"b"})]) == Run(s3, [Finish(0), Commit({"b"})]) == s5;
    assert Run(s0, steps) == Run(s1, steps[1..]) == s5;
  }
}
