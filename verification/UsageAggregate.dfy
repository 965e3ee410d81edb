/** Per-minute usage roll-up (llm_usage_service.aggregate_minute and aggregate_behind_now). */
module UsageAggregate {
  import opened Common

  /** The summed columns; accumulated_cost is held as an integer number of millionths. */
  datatype Metrics = Metrics(prompt: int, completion: int, cacheRead: int, cacheWrite: int,
                             reasoning: int, contextWindow: int, perTurn: int, cost: int)

  datatype Raw = Raw(creator: nat, createdAt: Time, metrics: Metrics)

  datatype Row = Row(invocations: nat, sums: Metrics)

  datatype Slot = Slot(creator: nat, minute: Time)

  const NOTHING: Row := Row(0, Metrics(0, 0, 0, 0, 0, 0, 0, 0))

  function AddMetrics(a: Metrics, b: Metrics): Metrics {
    Metrics(a.prompt + b.prompt, a.completion + b.completion, a.cacheRead + b.cacheRead, a.cacheWrite + b.cacheWrite,
            a.reasoning + b.reasoning, a.contextWindow + b.contextWindow, a.perTurn + b.perTurn, a.cost + b.cost)
  }

  function Plus(a: Row, b: Row): Row {
    Row(a.invocations + b.invocations, AddMetrics(a.sums, b.sums))
  }

  lemma PlusAssoc(a: Row, b: Row, c: Row)
    ensures Plus(Plus(a, b), c) == Plus(a, Plus(b, c))
  {
  }

  lemma PlusComm(a: Row, b: Row)
    ensures Plus(a, b) == Plus(b, a)
  {
  }

  lemma PlusNothing(a: Row)
    ensures Plus(a, NOTHING) == a && Plus(NOTHING, a) == a
  {
  }

  /** One raw row's contribution. */
  function One(r: Raw): Row { Row(1, r.metrics) }

  /** minute.replace(second=0, microsecond=0). */
  function StartOf(t: Time): Time { t - t % MINUTE }

  predicate During(r: Raw, start: Time) { start <= r.createdAt < start + MINUTE }

  /** COUNT(*) and the SUMs over a creator's rows of one minute. */
  function Rolled(raw: seq<Raw>, start: Time, creator: nat): Row {
    if raw == [] then NOTHING
    else
      var r := raw[|raw| - 1];
      var before := Rolled(raw[..|raw| - 1], start, creator);
      if r.creator == creator && During(r, start) then Plus(before, One(r)) else before
  }

  /** The same over all creators and a set of minutes. */
  function RolledWithin(raw: seq<Raw>, minutes: set<Time>): Row {
    if raw == [] then NOTHING
    else
      var r := raw[|raw| - 1];
      var before := RolledWithin(raw[..|raw| - 1], minutes);
      if StartOf(r.createdAt) in minutes then Plus(before, One(r)) else before
  }

  predicate Used(raw: seq<Raw>, start: Time, creator: nat) {
    Rolled(raw, start, creator).invocations > 0
  }

  // ---------------------------------------------------------------- the columns of a rolled row

  /** The creator's rows created in the minute. */
  function RowsIn(raw: seq<Raw>, start: Time, creator: nat): seq<Raw> {
    if raw == [] then []
    else
      var r := raw[|raw| - 1];
      RowsIn(raw[..|raw| - 1], start, creator)
        + if r.creator == creator && start <= r.createdAt < start + MINUTE then [r] else []
  }

  function Prompt(m: Metrics): int { m.prompt }

  function Completion(m: Metrics): int { m.completion }

  function CacheRead(m: Metrics): int { m.cacheRead }

  function CacheWrite(m: Metrics): int { m.cacheWrite }

  function Reasoning(m: Metrics): int { m.reasoning }

  function ContextWindow(m: Metrics): int { m.contextWindow }

  function PerTurn(m: Metrics): int { m.perTurn }

  function Cost(m: Metrics): int { m.cost }

  /** SUM(column). */
  function Sum(rows: seq<Raw>, column: Metrics -> int): int {
    if rows == [] then 0 else Sum(rows[..|rows| - 1], column) + column(rows[|rows| - 1].metrics)
  }

  /** A row that counts these rows and sums each of their columns into its own. */
  predicate SumsColumns(row: Row, rows: seq<Raw>) {
    && row.invocations == |rows|
    && row.sums.prompt == Sum(rows, Prompt)
    && row.sums.completion == Sum(rows, Completion)
    && row.sums.cacheRead == Sum(rows, CacheRead)
    && row.sums.cacheWrite == Sum(rows, CacheWrite)
    && row.sums.reasoning == Sum(rows, Reasoning)
    && row.sums.contextWindow == Sum(rows, ContextWindow)
    && row.sums.perTurn == Sum(rows, PerTurn)
    && row.sums.cost == Sum(rows, Cost)
  }

  lemma SumNext(rows: seq<Raw>, r: Raw, column: Metrics -> int)
    ensures Sum(rows + [r], column) == Sum(rows, column) + column(r.metrics)
  {
    assert (rows + [r])[..|rows|] == rows;
  }

  lemma OneMoreRow(row: Row, rows: seq<Raw>, r: Raw)
    requires SumsColumns(row, rows)
    ensures SumsColumns(Plus(row, One(r)), rows + [r])
  {
    SumNext(rows, r, Prompt);
    SumNext(rows, r, Completion);
    SumNext(rows, r, CacheRead);
    SumNext(rows, r, CacheWrite);
    SumNext(rows, r, Reasoning);
    SumNext(rows, r, ContextWindow);
    SumNext(rows, r, PerTurn);
    SumNext(rows, r, Cost);
  }

  /** The roll-up of a creator's minute counts the creator's rows of that minute and sums each column by itself. */
  lemma {:induction false} RolledColumns(raw: seq<Raw>, start: Time, creator: nat)
    ensures SumsColumns(Rolled(raw, start, creator), RowsIn(raw, start, creator))
  {
    if raw != [] {
      var init, r := raw[..|raw| - 1], raw[|raw| - 1];
      RolledColumns(init, start, creator);
      if r.creator == creator && start <= r.createdAt < start + MINUTE {
        OneMoreRow(Rolled(init, start, creator), RowsIn(init, start, creator), r);
      } else {
        assert RowsIn(raw, start, creator) == RowsIn(init, start, creator);
      }
    }
  }

  /** In every run, each slot a roll writes holds the count and the column sums of the creator's rows of the minute,
      and a slot it does not write stays. */
  lemma RollWritesColumns(ops: seq<Op>, m: Time, k: Slot)
    ensures var s, t := Exec(ops), Exec(ops + [Roll(m)]);
      if k.minute == StartOf(m) && RowsIn(s.raw, k.minute, k.creator) != []
      then k in t.rows && SumsColumns(t.rows[k], RowsIn(s.raw, k.minute, k.creator))
      else (k in t.rows <==> k in s.rows) && (k in t.rows ==> t.rows[k] == s.rows[k])
  {
    assert (ops + [Roll(m)])[..|ops|] == ops;
    RolledColumns(Exec(ops).raw, k.minute, k.creator);
    UpsertSlot(Exec(ops).raw, Exec(ops).rows, StartOf(m), k);
  }

  // ---------------------------------------------------------------- the tables

  class UsageTables {
    var raw: seq<Raw>
    var rows: map<Slot, Row>

    constructor ()
      ensures raw == [] && rows == map[]
    {
      raw, rows := [], map[];
    }

    /** record_usage appends one row; an insert that fails is swallowed and returns nothing. */
    method Record(r: Raw, inserts: bool) returns (recorded: Option<Raw>)
      modifies this`raw
      ensures inserts ==> recorded == Some(r) && raw == old(raw) + [r]
      ensures !inserts ==> recorded == None && raw == old(raw)
    {
      if !inserts {
        return None;
      }
      raw := raw + [r];
      return Some(r);
    }

    /** The GROUP BY upsert: one fresh row per creator with usage in the minute, everything else kept.
        Returns how many aggregated rows the minute now has. */
    method AggregateMinute(minute: Time) returns (count: nat)
      modifies this`rows
      ensures rows == Upsert(raw, old(rows), StartOf(minute))
      ensures count == |SlotsWithin(rows, StartOf(minute))|
      ensures MinuteRolled(raw, old(rows), rows, StartOf(minute))
    {
      var start := StartOf(minute);
      var groups := GroupByCreator(raw, start);
      GroupsAreUpsert(raw, rows, start, groups);
      UpsertColumns(raw, rows, start);
      rows := Overlay(rows, start, groups);
      count := |SlotsWithin(rows, start)|;
    }
  }

  /** Slots whose minute lies in [start, start + 60 s). */
  function SlotsWithin(rows: map<Slot, Row>, start: Time): set<Slot> {
    set k | k in rows && start <= k.minute < start + MINUTE
  }

  /** SELECT creator_id, COUNT, SUMs ... WHERE created_at in the minute GROUP BY creator_id. */
  method GroupByCreator(raw: seq<Raw>, start: Time) returns (groups: map<nat, Row>)
    ensures forall c: nat :: c in groups <==> Used(raw, start, c)
    ensures forall c: nat :: c in groups ==> groups[c] == Rolled(raw, start, c)
  {
    groups := map[];
    for i := 0 to |raw|
      invariant forall c: nat :: c in groups <==> Used(raw[..i], start, c)
      invariant forall c: nat :: c in groups ==> groups[c] == Rolled(raw[..i], start, c)
    {
      var r := raw[i];
      ghost var seen := raw[..i];
      assert raw[..i + 1] == seen + [r];
      RolledNext(seen, r, start);
      if During(r, start) {
        UnusedIsNothing(seen, start, r.creator);
        var sofar := if r.creator in groups then groups[r.creator] else NOTHING;
        groups := groups[r.creator := Plus(sofar, One(r))];
      }
    }
    assert raw[..|raw|] == raw;
  }

  /** The minute's slots with the groups' rows. */
  function SlotsOf(start: Time, groups: map<nat, Row>): map<Slot, Row> {
    map c | c in groups :: Slot(c, start) := groups[c]
  }

  /** ON CONFLICT DO UPDATE: the groups replace or extend the minute's rows. */
  function Overlay(rows: map<Slot, Row>, start: Time, groups: map<nat, Row>): map<Slot, Row> {
    rows + SlotsOf(start, groups)
  }

  function Creators(raw: seq<Raw>, start: Time): set<nat> { set r | r in raw && During(r, start) :: r.creator }

  function RolledBy(raw: seq<Raw>, start: Time, creators: set<nat>): map<nat, Row> {
    map c | c in creators :: Rolled(raw, start, c)
  }

  lemma GroupsAreUpsert(raw: seq<Raw>, rows: map<Slot, Row>, start: Time, groups: map<nat, Row>)
    requires forall c: nat :: c in groups <==> Used(raw, start, c)
    requires forall c: nat :: c in groups ==> groups[c] == Rolled(raw, start, c)
    ensures Overlay(rows, start, groups) == Upsert(raw, rows, start)
  {
    forall c: nat ensures c in groups <==> c in Creators(raw, start) { CreatorsAreUsed(raw, start, c); }
    assert groups == RolledBy(raw, start, Creators(raw, start));
  }

  /** Each creator with rows in the minute has one slot for it, which counts those rows and sums their columns; every
      other slot is as it was. */
  ghost predicate MinuteRolled(raw: seq<Raw>, was: map<Slot, Row>, after: map<Slot, Row>, start: Time) {
    && (forall c: nat :: RowsIn(raw, start, c) != [] ==>
          Slot(c, start) in after && SumsColumns(after[Slot(c, start)], RowsIn(raw, start, c)))
    && (forall k: Slot :: k.minute != start || RowsIn(raw, k.minute, k.creator) == [] ==>
          (k in after <==> k in was) && (k in after ==> after[k] == was[k]))
  }

  lemma UpsertColumns(raw: seq<Raw>, rows: map<Slot, Row>, start: Time)
    ensures MinuteRolled(raw, rows, Upsert(raw, rows, start), start)
  {
    forall k: Slot | k.minute != start || RowsIn(raw, k.minute, k.creator) == []
      ensures var after := Upsert(raw, rows, start); (k in after <==> k in rows) && (k in after ==> after[k] == rows[k])
    {
      RolledColumns(raw, start, k.creator);
      UpsertSlot(raw, rows, start, k);
    }
    forall c: nat | RowsIn(raw, start, c) != []
      ensures Slot(c, start) in Upsert(raw, rows, start)
      ensures SumsColumns(Upsert(raw, rows, start)[Slot(c, start)], RowsIn(raw, start, c))
    {
      RolledColumns(raw, start, c);
      UpsertSlot(raw, rows, start, Slot(c, start));
    }
  }

  lemma CreatorsAreUsed(raw: seq<Raw>, start: Time, c: nat)
    ensures Used(raw, start, c) <==> c in Creators(raw, start)
  {
    UsedIffRow(raw, start, c);
  }

  lemma RolledNext(seen: seq<Raw>, r: Raw, start: Time)
    ensures forall c: nat :: Rolled(seen + [r], start, c) ==
                             (if r.creator == c && During(r, start) then Plus(Rolled(seen, start, c), One(r))
                             else Rolled(seen, start, c))
  {
    assert (seen + [r])[..|seen|] == seen;
  }

  lemma {:induction false} UnusedIsNothing(raw: seq<Raw>, start: Time, c: nat)
    ensures !Used(raw, start, c) ==> Rolled(raw, start, c) == NOTHING
  {
    if raw != [] { UnusedIsNothing(raw[..|raw| - 1], start, c); }
  }

  // ---------------------------------------------------------------- runs

  datatype State = State(raw: seq<Raw>, rows: map<Slot, Row>)

  /** Retention drops the raw rows of some days with their partitions; the aggregate is kept independently. */
  datatype Op = Insert(r: Raw) | Roll(minute: Time) | Drop(days: set<int>)

  function Upsert(raw: seq<Raw>, rows: map<Slot, Row>, start: Time): map<Slot, Row> {
    Overlay(rows, start, RolledBy(raw, start, Creators(raw, start)))
  }

  function Keep(raw: seq<Raw>, days: set<int>): seq<Raw> {
    if raw == [] then []
    else Keep(raw[..|raw| - 1], days) + if raw[|raw| - 1].createdAt / DAY in days then [] else [raw[|raw| - 1]]
  }

  function Exec(ops: seq<Op>): State {
    if ops == [] then State([], map[])
    else
      var s := Exec(ops[..|ops| - 1]);
      match ops[|ops| - 1]
      case Insert(r) => s.(raw := s.raw + [r])
      case Roll(m) => s.(rows := Upsert(s.raw, s.rows, StartOf(m)))
      case Drop(days) => s.(raw := Keep(s.raw, days))
  }

  /** Reference reading of one slot, without any table: the creator's sums at the last roll of that
      minute which saw a row of the creator. */
  function Expected(ops: seq<Op>, k: Slot): Option<Row> {
    if ops == [] then None
    else
      var before := ops[..|ops| - 1];
      match ops[|ops| - 1]
      case Roll(m) =>
        if StartOf(m) == k.minute && Used(Exec(before).raw, k.minute, k.creator)
        then Some(Rolled(Exec(before).raw, k.minute, k.creator))
        else Expected(before, k)
      case _ => Expected(before, k)
  }

  lemma {:induction false} UsedIffRow(raw: seq<Raw>, start: Time, c: nat)
    ensures Used(raw, start, c) <==> exists r :: r in raw && During(r, start) && r.creator == c
  {
    if raw != [] {
      var init, last := raw[..|raw| - 1], raw[|raw| - 1];
      UsedIffRow(init, start, c);
      assert raw == init + [last];
      if Used(init, start, c) {
        var r :| r in init && During(r, start) && r.creator == c;
        assert r in raw;
      }
      if last.creator == c && During(last, start) { assert last in raw; }
    }
  }

  lemma UpsertSlot(raw: seq<Raw>, rows: map<Slot, Row>, start: Time, k: Slot)
    ensures var after := Upsert(raw, rows, start);
      if k.minute == start && Used(raw, start, k.creator)
      then k in after && after[k] == Rolled(raw, start, k.creator)
      else (k in after <==> k in rows) && (k in after ==> after[k] == rows[k])
  {
    CreatorsAreUsed(raw, start, k.creator);
    var grown := SlotsOf(start, RolledBy(raw, start, Creators(raw, start)));
    assert k in grown <==> k.minute == start && k.creator in Creators(raw, start) by {
      if k.minute == start && k.creator in Creators(raw, start) { assert k == Slot(k.creator, start); }
    }
  }

  /** The aggregate refines the raw log over every run: each slot holds exactly its expected row, so
      there is at most one row per creator and minute and no row for no usage. */
  lemma {:induction false} AggregateRefinesLog(ops: seq<Op>, k: Slot)
    ensures var rows := Exec(ops).rows;
      Expected(ops, k) == if k in rows then Some(rows[k]) else None
  {
    if ops != [] {
      var before := ops[..|ops| - 1];
      AggregateRefinesLog(before, k);
      match ops[|ops| - 1]
      case Roll(m) => UpsertSlot(Exec(before).raw, Exec(before).rows, StartOf(m), k);
      case _ =>
    }
  }

  /** Rolling a minute twice in a row changes nothing the second time, and a late row is absorbed by
      the next roll of its minute. */
  lemma RollIdempotent(ops: seq<Op>, m: Time)
    ensures Exec(ops + [Roll(m)] + [Roll(m)]) == Exec(ops + [Roll(m)])
  {
    var once, twice := ops + [Roll(m)], ops + [Roll(m)] + [Roll(m)];
    assert once[..|once| - 1] == ops && twice[..|twice| - 1] == once;
    var s := Exec(ops);
    var r1 := Upsert(s.raw, s.rows, StartOf(m));
    var r2 := Upsert(s.raw, r1, StartOf(m));
    forall k
      ensures k in r1 <==> k in r2
    {
      UpsertSlot(s.raw, s.rows, StartOf(m), k); UpsertSlot(s.raw, r1, StartOf(m), k);
    }
    forall k | k in r1
      ensures r1[k] == r2[k]
    {
      UpsertSlot(s.raw, s.rows, StartOf(m), k); UpsertSlot(s.raw, r1, StartOf(m), k);
    }
    assert r1 == r2;
  }

  /** In every run, what a roll counts are the slots of that very minute. */
  lemma CountsTheMinute(ops: seq<Op>, m: Time, k: Slot)
    ensures k in SlotsWithin(Exec(ops).rows, StartOf(m)) <==> k in Exec(ops).rows && k.minute == StartOf(m)
  {
    StartIsAligned(m);
    if k in Exec(ops).rows {
      SlotsAreAligned(ops, k);
      SameMinute(k.minute, StartOf(m));
    }
  }

  lemma {:induction false} SlotsAreAligned(ops: seq<Op>, k: Slot)
    requires k in Exec(ops).rows
    ensures k.minute % MINUTE == 0
  {
    var before := ops[..|ops| - 1];
    if ops[|ops| - 1].Roll? {
      StartIsAligned(ops[|ops| - 1].minute);
      UpsertSlot(Exec(before).raw, Exec(before).rows, StartOf(ops[|ops| - 1].minute), k);
    }
    if k in Exec(before).rows { SlotsAreAligned(before, k); }
  }

  lemma SameMinute(a: Time, b: Time)
    requires a % MINUTE == 0 && b % MINUTE == 0
    ensures a <= b < a + MINUTE ==> a == b
    ensures b <= a < b + MINUTE ==> a == b
  {
  }

  // ---------------------------------------------------------------- order and conservation

  lemma {:induction false} RolledAppend(a: seq<Raw>, b: seq<Raw>, start: Time, c: nat)
    ensures Rolled(a + b, start, c) == Plus(Rolled(a, start, c), Rolled(b, start, c))
  {
    var ra := Rolled(a, start, c);
    if b == [] {
      assert a + b == a;
      PlusNothing(ra);
    } else {
      var init, r := b[..|b| - 1], b[|b| - 1];
      assert (a + b)[..|a + b| - 1] == a + init && (a + b)[|a + b| - 1] == r;
      RolledAppend(a, init, start, c);
      PlusAssoc(ra, Rolled(init, start, c), One(r));
    }
  }

  lemma {:induction false} RolledSwap(x: seq<Raw>, y: seq<Raw>, r: Raw, start: Time, c: nat)
    ensures Rolled(x + [r] + y, start, c) == Rolled(x + y + [r], start, c)
  {
    var rx, ry, one := Rolled(x, start, c), Rolled(y, start, c), Rolled([r], start, c);
    RolledAppend(x + [r], y, start, c);
    RolledAppend(x, [r], start, c);
    RolledAppend(x + y, [r], start, c);
    RolledAppend(x, y, start, c);
    PlusAssoc(rx, one, ry);
    PlusComm(one, ry);
    PlusAssoc(rx, ry, one);
  }

  /** The roll-up depends on the rows only as a multiset, not on their order. */
  lemma {:induction false} RolledOrderIrrelevant(a: seq<Raw>, b: seq<Raw>, start: Time, c: nat)
    requires multiset(a) == multiset(b)
    ensures Rolled(a, start, c) == Rolled(b, start, c)
    decreases |a|
  {
    if a == [] {
      assert |b| == |multiset(b)|;
    } else {
      var last := a[|a| - 1];
      assert last in multiset(b);
      var i :| 0 <= i < |b| && b[i] == last;
      WithoutOne(a, b, i);
      RolledOrderIrrelevant(a[..|a| - 1], b[..i] + b[i + 1..], start, c);
      MoveLast(a[..|a| - 1], b[..i], b[i + 1..], last, start, c);
    }
  }

  lemma WithoutOne(a: seq<Raw>, b: seq<Raw>, i: nat)
    requires a != [] && multiset(a) == multiset(b) && i < |b| && b[i] == a[|a| - 1]
    ensures a == a[..|a| - 1] + [a[|a| - 1]] && b == b[..i] + [a[|a| - 1]] + b[i + 1..]
    ensures multiset(a[..|a| - 1]) == multiset(b[..i] + b[i + 1..])
  {
    WithoutAt(b, i);
    WithoutAt(a, |a| - 1);
    assert a[..|a| - 1] + a[|a|..] == a[..|a| - 1];
  }

  lemma WithoutAt<T>(b: seq<T>, i: nat)
    requires i < |b|
    ensures b == b[..i] + [b[i]] + b[i + 1..]
    ensures multiset(b[..i] + b[i + 1..]) == multiset(b) - multiset{b[i]}
  {
    assert b == b[..i] + [b[i]] + b[i + 1..];
    assert multiset(b) == multiset(b[..i]) + multiset{b[i]} + multiset(b[i + 1..]);
  }

  lemma MoveLast(init: seq<Raw>, x: seq<Raw>, y: seq<Raw>, last: Raw, start: Time, c: nat)
    requires Rolled(init, start, c) == Rolled(x + y, start, c)
    ensures Rolled(init + [last], start, c) == Rolled(x + [last] + y, start, c)
  {
    RolledSwap(x, y, last, start, c);
    RolledAppend(init, [last], start, c);
    RolledAppend(x + y, [last], start, c);
  }

  /** The sum of the rows of a map, in no particular order. */
  ghost function Total<K(!new)>(m: map<K, Row>): Row
    decreases |m|
  {
    if m == map[] then NOTHING
    else
      var c :| c in m;
      Plus(m[c], Total(m - {c}))
  }

  lemma {:induction false} TotalPick<K(!new)>(m: map<K, Row>, c: K)
    requires c in m
    ensures Total(m) == Plus(m[c], Total(m - {c}))
    decreases |m|
  {
    var d :| d in m && Total(m) == Plus(m[d], Total(m - {d}));
    if c != d {
      TotalPick(m - {d}, c);
      TotalPick(m - {c}, d);
      assert m - {d} - {c} == m - {c} - {d};
      SwapTwo(m[c], m[d], Total(m - {c} - {d}));
    }
  }

  lemma SwapTwo(a: Row, b: Row, rest: Row)
    ensures Plus(b, Plus(a, rest)) == Plus(a, Plus(b, rest))
  {
    PlusAssoc(b, a, rest);
    PlusComm(b, a);
    PlusAssoc(a, b, rest);
  }

  lemma TotalAdd<K(!new)>(m: map<K, Row>, c: K, x: Row)
    requires c in m
    ensures Total(m[c := Plus(m[c], x)]) == Plus(Total(m), x)
  {
    var grown := m[c := Plus(m[c], x)];
    TotalPick(m, c);
    TotalPick(grown, c);
    assert grown - {c} == m - {c};
    var rest := Total(m - {c});
    PlusAssoc(m[c], x, rest);
    PlusComm(x, rest);
    PlusAssoc(m[c], rest, x);
  }

  lemma {:induction false} TotalNothing<K(!new)>(m: map<K, Row>)
    requires forall c :: c in m ==> m[c] == NOTHING
    ensures Total(m) == NOTHING
    decreases |m|
  {
    if m != map[] {
      var c :| c in m;
      var rest := m - {c};
      TotalNothing(rest);
      TotalPick(m, c);
      PlusNothing(NOTHING);
    }
  }

  function SlotOf(r: Raw): Slot { Slot(r.creator, StartOf(r.createdAt)) }

  function RolledSlots(raw: seq<Raw>, keys: set<Slot>): map<Slot, Row> {
    map k | k in keys :: Rolled(raw, k.minute, k.creator)
  }

  /** The aggregated rows of some minutes. */
  function RowsWithin(rows: map<Slot, Row>, minutes: set<Time>): map<Slot, Row> {
    map k | k in rows && k.minute in minutes :: rows[k]
  }

  lemma DuringIsStart(r: Raw, start: Time)
    requires start % MINUTE == 0
    ensures During(r, start) <==> StartOf(r.createdAt) == start
  {
    var t := r.createdAt;
    assert t == (t / MINUTE) * MINUTE + t % MINUTE && start == (start / MINUTE) * MINUTE;
  }

  /** One more raw row adds itself to its own slot alone. */
  lemma SlotsNext(seen: seq<Raw>, r: Raw, keys: set<Slot>)
    requires forall k :: k in keys ==> k.minute % MINUTE == 0
    ensures var before := RolledSlots(seen, keys);
      RolledSlots(seen + [r], keys)
      == if SlotOf(r) in keys then before[SlotOf(r) := Plus(before[SlotOf(r)], One(r))] else before
  {
    assert (seen + [r])[..|seen|] == seen;
    forall k | k in keys
      ensures (r.creator == k.creator && During(r, k.minute)) <==> k == SlotOf(r)
    {
      DuringIsStart(r, k.minute);
    }
  }

  /** Conservation: the sums of the slots of some minutes add up to the raw totals of those minutes. */
  lemma {:induction false} TotalsConserved(raw: seq<Raw>, minutes: set<Time>, keys: set<Slot>)
    requires forall k :: k in keys ==> k.minute in minutes && k.minute % MINUTE == 0
    requires forall r :: r in raw && StartOf(r.createdAt) in minutes ==> SlotOf(r) in keys
    ensures Total(RolledSlots(raw, keys)) == RolledWithin(raw, minutes)
    decreases |raw|
  {
    if raw == [] {
      TotalNothing(RolledSlots(raw, keys));
    } else {
      var init, r := raw[..|raw| - 1], raw[|raw| - 1];
      assert raw == init + [r];
      TotalsConserved(init, minutes, keys);
      SlotsNext(init, r, keys);
      if SlotOf(r) in keys { TotalAdd(RolledSlots(init, keys), SlotOf(r), One(r)); }
    }
  }

  // ---------------------------------------------------------------- conservation over runs with retention

  /** Every row ever inserted, whether or not retention has removed it since. */
  function Ever(ops: seq<Op>): seq<Raw> {
    if ops == [] then []
    else Ever(ops[..|ops| - 1]) + if ops[|ops| - 1].Insert? then [ops[|ops| - 1].r] else []
  }

  /** Retention has not dropped the minute's day. */
  predicate Intact(ops: seq<Op>, start: Time) {
    forall i :: 0 <= i < |ops| && ops[i].Drop? ==> start / DAY !in ops[i].days
  }

  /** The minute was rolled while retention had not dropped its day, and has had no insert since. */
  predicate Settled(ops: seq<Op>, start: Time) {
    if ops == [] then false
    else
      var before := ops[..|ops| - 1];
      match ops[|ops| - 1]
      case Insert(r) => !During(r, start) && Settled(before, start)
      case Roll(m) => (StartOf(m) == start && Intact(before, start)) || Settled(before, start)
      case Drop(_) => Settled(before, start)
  }

  lemma DayOfMinute(r: Raw, start: Time)
    requires start % MINUTE == 0 && During(r, start)
    ensures r.createdAt / DAY == start / DAY
  {
    var minutes := start / MINUTE;
    assert start == minutes * MINUTE && r.createdAt / MINUTE == minutes;
    assert r.createdAt / DAY == (r.createdAt / MINUTE) / 1440 && start / DAY == minutes / 1440;
  }

  lemma {:induction false} KeepRolled(raw: seq<Raw>, days: set<int>, start: Time, c: nat)
    requires start % MINUTE == 0
    ensures Rolled(Keep(raw, days), start, c) == if start / DAY in days then NOTHING else Rolled(raw, start, c)
  {
    if raw != [] {
      var init, r := raw[..|raw| - 1], raw[|raw| - 1];
      KeepRolled(init, days, start, c);
      if During(r, start) { DayOfMinute(r, start); }
      if r.createdAt / DAY in days {
        assert Keep(raw, days) == Keep(init, days);
      } else {
        assert Keep(raw, days)[..|Keep(raw, days)| - 1] == Keep(init, days);
      }
    }
  }

  /** Retention takes the raw rows of the dropped days, all of them and no others, and no aggregated row. */
  lemma RetentionDropsExactly(ops: seq<Op>, days: set<int>)
    ensures var s, t := Exec(ops), Exec(ops + [Drop(days)]);
      t.rows == s.rows && forall r :: multiset(t.raw)[r] == if r.createdAt / DAY in days then 0 else multiset(s.raw)[r]
  {
    assert (ops + [Drop(days)])[..|ops|] == ops;
    var raw := Exec(ops).raw;
    forall r ensures multiset(Keep(raw, days))[r] == if r.createdAt / DAY in days then 0 else multiset(raw)[r] {
      KeepCounts(raw, days, r);
    }
  }

  lemma {:induction false} KeepCounts(raw: seq<Raw>, days: set<int>, r: Raw)
    ensures multiset(Keep(raw, days))[r] == if r.createdAt / DAY in days then 0 else multiset(raw)[r]
  {
    if raw != [] {
      var init, last := raw[..|raw| - 1], raw[|raw| - 1];
      KeepCounts(init, days, r);
      assert raw == init + [last];
      assert multiset(raw) == multiset(init) + multiset{last};
    }
  }

  lemma {:induction false} KeepSubset(raw: seq<Raw>, days: set<int>)
    ensures forall r :: r in Keep(raw, days) ==> r in raw
  {
    if raw != [] { KeepSubset(raw[..|raw| - 1], days); }
  }

  lemma {:induction false} RawIsEver(ops: seq<Op>)
    ensures forall r :: r in Exec(ops).raw ==> r in Ever(ops)
  {
    if ops != [] {
      RawIsEver(ops[..|ops| - 1]);
      if ops[|ops| - 1].Drop? { KeepSubset(Exec(ops[..|ops| - 1]).raw, ops[|ops| - 1].days); }
    }
  }

  lemma {:induction false} IntactRolls(ops: seq<Op>, start: Time, c: nat)
    requires start % MINUTE == 0 && Intact(ops, start)
    ensures Rolled(Exec(ops).raw, start, c) == Rolled(Ever(ops), start, c)
  {
    if ops != [] {
      var before := ops[..|ops| - 1];
      IntactRolls(before, start, c);
      match ops[|ops| - 1]
      case Insert(r) =>
        RolledAppend(Exec(before).raw, [r], start, c);
        RolledAppend(Ever(before), [r], start, c);
      case Roll(_) => assert Ever(ops) == Ever(before);
      case Drop(b) =>
        assert Ever(ops) == Ever(before);
        KeepRolled(Exec(before).raw, b, start, c);
    }
  }

  /** A slot exists only for a creator who had rows in its minute. */
  lemma {:induction false} SlotsWereUsed(ops: seq<Op>, k: Slot)
    requires k in Exec(ops).rows
    ensures Used(Ever(ops), k.minute, k.creator)
  {
    var before := ops[..|ops| - 1];
    match ops[|ops| - 1]
    case Insert(r) =>
      SlotsWereUsed(before, k);
      RolledAppend(Ever(before), [r], k.minute, k.creator);
    case Roll(m) =>
      UpsertSlot(Exec(before).raw, Exec(before).rows, StartOf(m), k);
      assert Ever(ops) == Ever(before);
      if k in Exec(before).rows { SlotsWereUsed(before, k); } else { UsedEver(before, k.minute, k.creator); }
    case Drop(_) =>
      assert Ever(ops) == Ever(before);
      SlotsWereUsed(before, k);
  }

  lemma UsedEver(ops: seq<Op>, start: Time, c: nat)
    requires Used(Exec(ops).raw, start, c)
    ensures Used(Ever(ops), start, c)
  {
    RawIsEver(ops);
    UsedIffRow(Exec(ops).raw, start, c);
    UsedIffRow(Ever(ops), start, c);
  }

  /** A slot of a settled minute holds what its creator ever used in it, and its raw rows are all there or all gone. */
  ghost predicate HoldsAll(ops: seq<Op>, k: Slot) {
    var s, ever := Exec(ops), Rolled(Ever(ops), k.minute, k.creator);
    && (k in s.rows <==> Used(Ever(ops), k.minute, k.creator)) && (k in s.rows ==> s.rows[k] == ever)
    && (Rolled(s.raw, k.minute, k.creator) == ever || !Used(s.raw, k.minute, k.creator))
  }

  lemma {:induction false} SettledSlots(ops: seq<Op>, k: Slot)
    requires k.minute % MINUTE == 0 && Settled(ops, k.minute)
    ensures HoldsAll(ops, k)
  {
    var before := ops[..|ops| - 1];
    match ops[|ops| - 1]
    case Insert(r) =>
      SettledSlots(before, k);
      InsertElsewhere(Exec(before).raw, r, k);
      InsertElsewhere(Ever(before), r, k);
    case Roll(m) =>
      assert Ever(ops) == Ever(before);
      UpsertSlot(Exec(before).raw, Exec(before).rows, StartOf(m), k);
      if Settled(before, k.minute) {
        SettledSlots(before, k);
      } else {
        IntactRolls(before, k.minute, k.creator);
        if k in Exec(before).rows { SlotsWereUsed(before, k); }
      }
    case Drop(days) =>
      assert Ever(ops) == Ever(before);
      SettledSlots(before, k);
      KeepRolled(Exec(before).raw, days, k.minute, k.creator);
  }

  lemma InsertElsewhere(raw: seq<Raw>, r: Raw, k: Slot)
    requires !During(r, k.minute)
    ensures Rolled(raw + [r], k.minute, k.creator) == Rolled(raw, k.minute, k.creator)
  {
    RolledNext(raw, r, k.minute);
  }

  /** In every run of inserts, rolls and retention, the aggregated rows of any set of settled minutes sum to all
      rows ever inserted in those minutes, also when retention has removed them since. */
  lemma SettledMinutesConserve(ops: seq<Op>, minutes: set<Time>)
    requires forall start :: start in minutes ==> start % MINUTE == 0 && Settled(ops, start)
    ensures Total(RowsWithin(Exec(ops).rows, minutes)) == RolledWithin(Ever(ops), minutes)
  {
    var raw, settled := Ever(ops), RowsWithin(Exec(ops).rows, minutes);
    forall k: Slot | k.minute in minutes ensures HoldsAll(ops, k) { SettledSlots(ops, k); }
    assert settled == RolledSlots(raw, settled.Keys);
    forall r | r in raw && StartOf(r.createdAt) in minutes ensures SlotOf(r) in settled {
      DuringIsStart(r, StartOf(r.createdAt));
      UsedIffRow(raw, StartOf(r.createdAt), r.creator);
    }
    TotalsConserved(raw, minutes, settled.Keys);
  }

  /** In particular right after a roll, in a run without retention, the minute's aggregated rows sum to its rows. */
  lemma FreshMinuteConserves(ops: seq<Op>, m: Time)
    requires forall i :: 0 <= i < |ops| ==> !ops[i].Drop?
    ensures var s := Exec(ops + [Roll(m)]); var minute := {StartOf(m)};
      Total(RowsWithin(s.rows, minute)) == RolledWithin(s.raw, minute)
  {
    var all := ops + [Roll(m)];
    assert all[..|all| - 1] == ops;
    StartIsAligned(m);
    SettledMinutesConserve(all, {StartOf(m)});
    NothingDropped(all);
  }

  lemma StartIsAligned(m: Time)
    ensures StartOf(m) % MINUTE == 0
  {
    assert m == (m / MINUTE) * MINUTE + m % MINUTE;
  }

  lemma {:induction false} NothingDropped(ops: seq<Op>)
    requires forall i :: 0 <= i < |ops| ==> !ops[i].Drop?
    ensures Exec(ops).raw == Ever(ops)
  {
    if ops != [] { NothingDropped(ops[..|ops| - 1]); }
  }

  /** A row that comes in after the creator's rows of its minute were dropped unsettles the minute: in every run,
      the next roll replaces what the slot held by the late row alone. */
  lemma LateRowReplacesDroppedOnes(ops: seq<Op>, r: Raw)
    requires !Used(Exec(ops).raw, StartOf(r.createdAt), r.creator)
    ensures var late := ops + [Insert(r)];
      && !Settled(late, StartOf(r.createdAt))
      && Expected(late + [Roll(r.createdAt)], SlotOf(r)) == Some(One(r))
  {
    var late, start := ops + [Insert(r)], StartOf(r.createdAt);
    var all := late + [Roll(r.createdAt)];
    assert late[..|late| - 1] == ops;
    InItsMinute(r);
    OnlyRowOfMinute(Exec(ops).raw, r, start);
    ExpectedAfterRoll(late, r.createdAt, SlotOf(r), all);
  }

  lemma InItsMinute(r: Raw)
    ensures During(r, StartOf(r.createdAt))
  {
    StartIsAligned(r.createdAt);
    DuringIsStart(r, StartOf(r.createdAt));
  }

  lemma OnlyRowOfMinute(raw: seq<Raw>, r: Raw, start: Time)
    requires During(r, start) && !Used(raw, start, r.creator)
    ensures Rolled(raw + [r], start, r.creator) == One(r)
  {
    UnusedIsNothing(raw, start, r.creator);
    RolledNext(raw, r, start);
    PlusNothing(One(r));
  }

  lemma ExpectedAfterRoll(ops: seq<Op>, m: Time, k: Slot, all: seq<Op>)
    requires all == ops + [Roll(m)] && StartOf(m) == k.minute && Used(Exec(ops).raw, k.minute, k.creator)
    ensures Expected(all, k) == Some(Rolled(Exec(ops).raw, k.minute, k.creator))
  {
    assert all[..|all| - 1] == ops;
  }

  // ---------------------------------------------------------------- which minutes are rolled

  /** aggregate_behind_now: the minute containing now - lag. */
  function Target(now: Time, lagMinutes: int): Time { StartOf(now - lagMinutes * MINUTE) }

  /** A given minute is rolled by exactly the sweeps of the 60 seconds that begin when it has been over for the lag
      less one minute; with the loop's lag of one, when it ends. */
  lemma TargetWindow(now: Time, lagMinutes: int, start: Time)
    requires start % MINUTE == 0
    ensures Target(now, lagMinutes) == start <==> start + lagMinutes * MINUTE <= now < start + (lagMinutes + 1) * MINUTE
  {
    var t := now - lagMinutes * MINUTE;
    assert t == (t / MINUTE) * MINUTE + t % MINUTE;
    assert start == (start / MINUTE) * MINUTE;
  }

  lemma TargetIsOver(now: Time, lagMinutes: int)
    requires lagMinutes >= 1
    ensures Target(now, lagMinutes) % MINUTE == 0 && Target(now, lagMinutes) + MINUTE <= now
  {
    var t := now - lagMinutes * MINUTE;
    assert t == (t / MINUTE) * MINUTE + t % MINUTE;
    assert Target(now, lagMinutes) == (t / MINUTE) * MINUTE;
  }

  ghost predicate Sweeps(times: seq<Time>, gap: Time) {
    forall i :: 0 <= i < |times| - 1 ==> times[i] <= times[i + 1] <= times[i] + gap
  }

  /** Sweeps at most 60 s apart roll every minute between the first and the last target. */
  lemma {:induction false} NoMinuteSkipped(times: seq<Time>, start: Time)
    requires times != [] && Sweeps(times, MINUTE) && start % MINUTE == 0
    requires Target(times[0], 1) <= start <= Target(times[|times| - 1], 1)
    ensures exists i :: 0 <= i < |times| && Target(times[i], 1) == start
    decreases |times|
  {
    if Target(times[0], 1) < start {
      var rest := times[1..];
      assert times[0] <= times[1] <= times[0] + MINUTE;
      NextTarget(times[0], times[1], start);
      forall i | 0 <= i < |rest| - 1 ensures rest[i] <= rest[i + 1] <= rest[i] + MINUTE {
        assert times[i + 1] <= times[i + 2] <= times[i + 1] + MINUTE;
      }
      NoMinuteSkipped(rest, start);
      var i :| 0 <= i < |rest| && Target(rest[i], 1) == start;
      assert Target(times[i + 1], 1) == start;
    }
  }

  /** From one sweep to the next, at most 60 s later, the target does not jump over a minute. */
  lemma NextTarget(now: Time, later: Time, start: Time)
    requires now <= later <= now + MINUTE && start % MINUTE == 0 && Target(now, 1) < start
    ensures Target(later, 1) <= start
  {
    TargetIsOver(now, 1);
    TargetIsOver(later, 1);
    TargetWindow(now, 1, Target(now, 1));
    TargetWindow(later, 1, Target(later, 1));
    var p, q, r := Target(now, 1) / MINUTE, start / MINUTE, Target(later, 1) / MINUTE;
    assert Target(now, 1) == p * MINUTE && start == q * MINUTE && Target(later, 1) == r * MINUTE;
    assert p + 1 <= q;
    assert Target(later, 1) < Target(now, 1) + 2 * MINUTE;
    assert r < p + 2;
  }

  /** The 60 s bound is sharp: with any larger gap, however small the excess, a minute can be skipped.
      The app loop sleeps 60 s after each sweep, so its gap is always larger by the work time. */
  lemma LargerGapSkips(excess: Time)
    requires excess >= 1
    ensures var times := [2 * MINUTE - 1, 3 * MINUTE - 1 + excess];
      Sweeps(times, MINUTE + excess) && Target(times[0], 1) == 0 && Target(times[1], 1) >= 2 * MINUTE
  {
    var t := 2 * MINUTE - 1 + excess;
    assert t == (t / MINUTE) * MINUTE + t % MINUTE;
    assert t / MINUTE >= 2;
    TargetWindow(2 * MINUTE - 1, 1, 0);
  }
}
