/** Daily range partitions and the house-cleaning sweep. event_service.py, job_service.py and
    llm_usage_service.py share this algorithm; the table is any keyed collection of dated rows. */
module Partitions {
  import opened Common
  import opened Calendar
  import opened Codecs
  import opened Keyset

  /** Where PostgreSQL physically put a row. */
  datatype Slot = Dated(day: Day) | Default

  datatype Row<+V> = Row(at: Time, value: V, slot: Slot)

  datatype Table<K(==), V> = Table(dated: set<Day>, hasDefault: bool, rows: map<K, Row<V>>)

  datatype PartitionError = DefaultHoldsRowOf(day: Day) | NoPartitionFor(day: Day)

  // ---------------------------------------------------------------- PostgreSQL

  /** A partition's bounds: a dated partition takes its day, DEFAULT takes what no dated one takes. */
  predicate Accepts<K, V>(t: Table<K, V>, slot: Slot, at: Time) {
    match slot
    case Dated(d) => d in t.dated && DayOf(at) == d
    case Default => t.hasDefault && DayOf(at) !in t.dated
  }

  function Route<K, V>(t: Table<K, V>, at: Time): Result<Slot, PartitionError> {
    var day := DayOf(at);
    if day in t.dated then Ok(Dated(day)) else if t.hasDefault then Ok(Default) else Err(NoPartitionFor(day))
  }

  function Insert<K(==), V>(t: Table<K, V>, k: K, at: Time, v: V): Result<Table<K, V>, PartitionError> {
    match Route(t, at)
    case Ok(slot) => Ok(t.(rows := t.rows[k := Row(at, v, slot)]))
    case Err(e) => Err(e)
  }

  predicate DefaultHolds<K, V>(t: Table<K, V>, day: Day) {
    exists k :: k in t.rows && t.rows[k].slot == Default && DayOf(t.rows[k].at) == day
  }

  /** CREATE TABLE ... PARTITION OF is refused while DEFAULT holds a row of the day. */
  function Create<K(==), V>(t: Table<K, V>, day: Day): Result<Table<K, V>, PartitionError> {
    if DefaultHolds(t, day) then Err(DefaultHoldsRowOf(day)) else Ok(t.(dated := t.dated + {day}))
  }

  function Drop<K(==), V>(t: Table<K, V>, day: Day): Table<K, V> {
    t.(dated := t.dated - {day}, rows := map k | k in t.rows && t.rows[k].slot != Dated(day) :: t.rows[k])
  }

  /** Every row lies in a partition whose bounds admit it. */
  ghost predicate Laid<K(!new), V>(t: Table<K, V>) {
    forall k :: k in t.rows ==> Accepts(t, t.rows[k].slot, t.rows[k].at)
  }

  /** With a DEFAULT partition, exactly one partition accepts an instant: the one a row is routed to. */
  lemma RoutesToExactlyOne<K, V>(t: Table<K, V>, at: Time, slot: Slot)
    requires t.hasDefault
    ensures Accepts(t, slot, at) <==> Route(t, at) == Ok(slot)
  {
  }

  // ---------------------------------------------------------------- the sweep

  predicate InWindow(d: Day, today: Day, n: nat) { today <= d < today + n }

  /** today and the n - 1 days after it. */
  function Window(today: Day, n: nat): set<Day> { set d | today <= d < today + n && InWindow(d, today, n) }

  /** Some day of the window lacks a partition and has a row in DEFAULT. */
  ghost predicate Blocked<K(!new), V>(t: Table<K, V>, today: Day, n: nat) {
    exists d :: d in Window(today, n) && d !in t.dated && DefaultHolds(t, d)
  }

  function Expired(days: set<Day>, cutoff: Day): set<Day> { set d | d in days && d < cutoff }

  /** The table without the partitions of some days, and without the rows in them. */
  function Minus<K(==), V>(t: Table<K, V>, gone: set<Day>): Table<K, V> {
    t.(dated := t.dated - gone,
       rows := map k | k in t.rows && !(t.rows[k].slot.Dated? && t.rows[k].slot.day in gone) :: t.rows[k])
  }

  /** The table after a sweep that goes through. */
  function Swept<K(==), V>(t: Table<K, V>, today: Day, n: nat, cutoff: Day): Table<K, V> {
    Minus(t.(dated := t.dated + Window(today, n), hasDefault := true), Expired(t.dated + Window(today, n), cutoff))
  }

  function CutoffDay(now: Time, retentionDays: int): Day { DayOf(now - retentionDays * DAY) }

  predicate DayLess(a: Day, b: Day) { a < b }

  function Earliest(days: set<Day>): (day: Day)
    requires days != {}
    ensures day in days
  {
    assert StrictTotal(DayLess);
    Least(DayLess, days)
  }

  /** The day a listed partition is taken for: its name is printed and parsed. */
  method DayOfName(name: string, day: Day) returns (parsed: Option<Day>)
    requires FourDigitYear(day)
    ensures parsed == Some(day)
  {
    PartitionNameRoundTrip(name, day);
    parsed := ReadPartitionName(PartitionName(name, day));
  }

  /** Goes over the dated partitions by name (DEFAULT, whose name is no day, is skipped) and drops those of a
      day before the cutoff. */
  method DropExpired<K(==), V>(t: Table<K, V>, name: string, cutoff: Day)
    returns (result: Table<K, V>, dropped: set<Day>)
    requires forall d :: d in t.dated ==> FourDigitYear(d)
    ensures dropped == Expired(t.dated, cutoff)
    ensures result == Minus(t, Expired(t.dated, cutoff))
  {
    result, dropped := t, {};
    assert Minus(t, {}) == t;
    var todo: set<Day> := t.dated;
    while todo != {}
      invariant todo <= t.dated
      invariant dropped == Expired(t.dated - todo, cutoff)
      invariant result == Minus(t, dropped)
      decreases |todo|
    {
      var day := Earliest(todo);
      var parsed := DayOfName(name, day);
      ExpiredStep(t.dated, todo, day, cutoff);
      if parsed.Some? && parsed.value < cutoff {
        DropOne(t, dropped, day);
        result := Drop(result, parsed.value);
        dropped := dropped + {parsed.value};
      }
      todo := todo - {day};
    }
    assert t.dated - {} == t.dated;
  }

  lemma ExpiredStep(days: set<Day>, todo: set<Day>, day: Day, cutoff: Day)
    requires day in todo && todo <= days
    ensures var before := Expired(days - todo, cutoff);
      Expired(days - (todo - {day}), cutoff) == if day < cutoff then before + {day} else before
  {
  }

  lemma DropOne<K, V>(t: Table<K, V>, gone: set<Day>, day: Day)
    ensures Drop(Minus(t, gone), day) == Minus(t, gone + {day})
  {
    var a, b := Drop(Minus(t, gone), day), Minus(t, gone + {day});
    assert a.dated == b.dated;
    assert a.rows == b.rows;
  }

  // ---------------------------------------------------------------- what a sweep achieves

  /** The exact failure: on a well-laid table a sweep fails if and only if DEFAULT holds a row dated inside
      the window. (The usage service's comment expects such rows to be picked up instead.) */
  lemma BlockedExactly<K(!new), V>(t: Table<K, V>, today: Day, n: nat)
    requires Laid(t)
    ensures Blocked(t, today, n) <==>
      exists k :: k in t.rows && t.rows[k].slot == Default && today <= DayOf(t.rows[k].at) < today + n
  {
    if k :| k in t.rows && t.rows[k].slot == Default && today <= DayOf(t.rows[k].at) < today + n {
      assert Accepts(t, t.rows[k].slot, t.rows[k].at);
      assert DefaultHolds(t, DayOf(t.rows[k].at));
      assert DayOf(t.rows[k].at) in Window(today, n);
    }
  }

  /** A blocked sweep unblocks by itself once the clock has passed the offending days. */
  lemma UnblockedLater<K(!new), V>(t: Table<K, V>, today: Day, n: nat)
    requires Laid(t) && forall k :: k in t.rows && t.rows[k].slot == Default ==> DayOf(t.rows[k].at) < today
    ensures !Blocked(t, today, n)
  {
    BlockedExactly(t, today, n);
  }

  /** After a sweep every day of the window has a partition, no dated partition is older than the cutoff,
      every row is where routing would put it, and the rows gone are exactly those of the expired days
      that had a partition. */
  lemma SweepResult<K(!new), V>(t: Table<K, V>, now: Time, n: nat, retentionDays: int)
    requires Laid(t) && retentionDays >= 0 && !Blocked(t, DayOf(now), n)
    ensures var cutoff := CutoffDay(now, retentionDays); var after := Swept(t, DayOf(now), n, cutoff);
      && after.hasDefault && Laid(after)
      && cutoff == DayOf(now) - retentionDays
      && (forall d :: d in after.dated <==> (d in t.dated || DayOf(now) <= d < DayOf(now) + n) && d >= cutoff)
      && (forall k :: k in t.rows ==>
            if DayOf(t.rows[k].at) in t.dated && DayOf(t.rows[k].at) < cutoff then k !in after.rows
            else k in after.rows && after.rows[k] == t.rows[k])
      && (forall k :: k in after.rows ==> k in t.rows)
  {
    CutoffBeforeToday(now, retentionDays);
    var cutoff := CutoffDay(now, retentionDays);
    var after := Swept(t, DayOf(now), n, cutoff);
    forall k | k in t.rows
      ensures if DayOf(t.rows[k].at) in t.dated && DayOf(t.rows[k].at) < cutoff then k !in after.rows
              else k in after.rows && after.rows[k] == t.rows[k]
      ensures k in after.rows ==> Accepts(after, after.rows[k].slot, after.rows[k].at)
    {
      assert Accepts(t, t.rows[k].slot, t.rows[k].at);
      if t.rows[k].slot == Default && DayOf(t.rows[k].at) in Window(DayOf(now), n) {
        assert DefaultHolds(t, DayOf(t.rows[k].at));
      }
    }
  }

  lemma CutoffBeforeToday(now: Time, retentionDays: int)
    requires retentionDays >= 0
    ensures CutoffDay(now, retentionDays) == DayOf(now) - retentionDays
  {
    var t := now - retentionDays * DAY;
    assert now == (now / DAY) * DAY + now % DAY;
    assert t == (now / DAY - retentionDays) * DAY + now % DAY;
    DivUnique(t, DAY, now / DAY - retentionDays, now % DAY);
  }

  lemma DivUnique(n: int, k: int, q: int, r: int)
    requires k == DAY && n == q * k + r && 0 <= r < k
    ensures n / k == q
  {
  }

  /** A sweep never drops what it created, and repeating it at the same instant is never blocked, creates
      nothing, drops nothing and changes nothing. */
  lemma SweepIdempotent<K(!new), V>(t: Table<K, V>, now: Time, n: nat, retentionDays: int)
    requires Laid(t) && retentionDays >= 0 && !Blocked(t, DayOf(now), n)
    ensures var cutoff := CutoffDay(now, retentionDays); var after := Swept(t, DayOf(now), n, cutoff);
      && (forall d :: d in Window(DayOf(now), n) ==> d >= cutoff)
      && !Blocked(after, DayOf(now), n)
      && (forall d :: d in Window(DayOf(now), n) ==> d in after.dated)
      && (forall d :: d in after.dated + Window(DayOf(now), n) ==> d >= cutoff)
      && Swept(after, DayOf(now), n, cutoff) == after
  {
    SweepResult(t, now, n, retentionDays);
    CutoffBeforeToday(now, retentionDays);
    var cutoff := CutoffDay(now, retentionDays);
    var after := Swept(t, DayOf(now), n, cutoff);
    var again := Swept(after, DayOf(now), n, cutoff);
    assert again.dated == after.dated;
    assert again.rows == after.rows;
  }

  lemma InsertKeepsLaid<K(!new), V>(t: Table<K, V>, k: K, at: Time, v: V)
    requires Laid(t) && Insert(t, k, at, v).Ok?
    ensures Laid(Insert(t, k, at, v).value)
  {
    var u := Insert(t, k, at, v).value;
    forall j | j in u.rows ensures Accepts(u, u.rows[j].slot, u.rows[j].at) {
      if j != k { assert Accepts(t, t.rows[j].slot, t.rows[j].at); }
    }
  }
}
