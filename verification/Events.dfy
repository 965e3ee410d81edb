/** Event rows, their truncation stubs and their stored bodies (event_service.py, event_store.py). */
module Events {
  import opened Common
  import opened Calendar
  import opened Keyset
  import opened Partitions
  import Codecs
  import Housekeeping

  // ---------------------------------------------------------------- bodies

  /** JSON values up to equality: the JSONB column keeps neither key order nor spacing. */
  datatype Json =
    | Null
    | Bool(b: bool)
    | Num(n: real)
    | Text(s: string)
    | Array(items: seq<Json>)
    | Object(fields: map<string, Json>)

  type Body = map<string, Json>

  const MARKER := "_truncated"

  /** Python truth of a JSON value. */
  predicate Truthy(j: Json) {
    match j
    case Null => false
    case Bool(b) => b
    case Num(n) => n != 0.0
    case Text(s) => s != ""
    case Array(items) => items != []
    case Object(fields) => fields != map[]
  }

  /** The six false values. */
  lemma FalsyExactly(j: Json)
    ensures !Truthy(j) <==> j in {Null, Bool(false), Num(0.0), Text(""), Array([]), Object(map[])}
  {
  }

  /** The body cap and the serializer: its output length and the decoded first 4096 bytes of its output. */
  datatype Config = Config(cap: nat, size: Body -> nat, preview: Body -> string)

  function StubOrPayload(cfg: Config, body: Body): Body {
    if cfg.size(body) <= cfg.cap then body
    else map[MARKER := Bool(true), "original_size_bytes" := Num(cfg.size(body) as real),
             "preview" := Text(cfg.preview(body))]
  }

  /** A body over the cap leaves in its row a stub that says so, its size and a preview of it, and nothing else. */
  lemma StubTells(cfg: Config, body: Body)
    ensures var kept := StubOrPayload(cfg, body);
      if cfg.size(body) <= cfg.cap then kept == body
      else
        && kept.Keys == {"_truncated", "original_size_bytes", "preview"} && kept["_truncated"] == Bool(true)
        && kept["original_size_bytes"] == Num(cfg.size(body) as real) && kept["preview"] == Text(cfg.preview(body))
  {
  }

  predicate MarkedTruncated(body: Body) { MARKER in body && Truthy(body[MARKER]) }

  /** Bodies served from their row: within the cap and not themselves carrying a true marker. */
  predicate Inline(cfg: Config, body: Body) { cfg.size(body) <= cfg.cap && !MarkedTruncated(body) }

  // ---------------------------------------------------------------- rows and objects

  type EventId = nat
  type ConversationId = nat

  datatype EventRow = EventRow(conversation: ConversationId, kind: string, body: Body, size: nat)

  type EventTable = Table<EventId, EventRow>

  datatype ObjectKey = ObjectKey(id: EventId, day: Day)

  datatype Stamp = NoStamp | Iso(t: Time) | BadStamp

  /** A stored object as the readers see it: not JSON, JSON but no object, or an envelope whose members
      may be missing or of the wrong type. */
  datatype Stored = NotJson | NotObject
    | Envelope(conversation: Option<ConversationId>, kind: Option<string>, timestamp: Stamp, body: Option<Body>)

  type Store = map<ObjectKey, Stored>

  datatype EventError =
    | ConversationNotFound
    | PermissionScope
    | EventNotFound
    | BodyNotFound
    | AttributeFault
    | NoPartition(day: Day)
    | BadEnvelope(id: EventId)
    | ForeignKey(conversation: ConversationId)

  /** The row create builds. */
  function RowFor(cfg: Config, conversation: ConversationId, kind: string, body: Body): EventRow {
    EventRow(conversation, kind, StubOrPayload(cfg, body), cfg.size(body))
  }

  /** The envelope create stores: always the full body. */
  function EnvelopeFor(conversation: ConversationId, kind: string, t: Time, body: Body): Stored {
    Envelope(Some(conversation), Some(kind), Iso(t), Some(body))
  }

  /** _event_from_envelope: nothing for what is not an envelope, an error for a conversation id or a
      timestamp that does not parse. */
  function Rebuild(cfg: Config, key: ObjectKey, stored: Stored): Result<Option<(Time, EventRow)>, EventError> {
    match stored
    case NotJson => Ok(None)
    case NotObject => Ok(None)
    case Envelope(conversation, kind, timestamp, body) =>
      if timestamp == BadStamp || conversation.None? then Err(BadEnvelope(key.id))
      else
        var b := if body.Some? then body.value else map[];
        var t := if timestamp.Iso? then timestamp.t else DayStart(key.day);
        var k := if kind.Some? then kind.value else "backfill";
        Ok(Some((t, RowFor(cfg, conversation.value, k, b))))
  }

  /** get_body, in terms of the table and the store. An object that is JSON but not an object has no get. */
  function ReadBody(table: EventTable, store: Store, hasStore: bool, conversation: ConversationId,
                    id: EventId): Result<Body, EventError> {
    if id !in table.rows || table.rows[id].value.conversation != conversation then Err(EventNotFound)
    else
      var row := table.rows[id];
      if !MarkedTruncated(row.value.body) then Ok(row.value.body)
      else
        var key := ObjectKey(id, DayOf(row.at));
        if !hasStore || key !in store then Err(BodyNotFound)
        else match store[key]
          case Envelope(_, _, _, Some(full)) => Ok(full)
          case NotObject => Err(AttributeFault)
          case _ => Err(BodyNotFound)
  }

  /** An event is found through its own conversation only. */
  lemma ScopeExactly(table: EventTable, store: Store, hasStore: bool, conversation: ConversationId, id: EventId)
    ensures ReadBody(table, store, hasStore, conversation, id) == Err(EventNotFound) <==>
      id !in table.rows || table.rows[id].value.conversation != conversation
  {
  }

  /** What a truncated row's body reads as when the object under its key is not what create stored. */
  lemma ForeignObjects(table: EventTable, store: Store, id: EventId)
    requires id in table.rows && MarkedTruncated(table.rows[id].value.body)
    requires ObjectKey(id, DayOf(table.rows[id].at)) in store
    ensures var r := ReadBody(table, store, true, table.rows[id].value.conversation, id);
      var stored := store[ObjectKey(id, DayOf(table.rows[id].at))];
      && (r.Ok? <==> stored.Envelope? && stored.body.Some?) && (r.Ok? ==> stored.body == Some(r.value))
      && (r == Err(AttributeFault) <==> stored == NotObject)
      && (r == Err(BodyNotFound) <==> stored == NotJson || (stored.Envelope? && stored.body.None?))
  {
  }

  // ---------------------------------------------------------------- backfill, object by object

  /** One stored object's outcome against a table: skipped, inserted, or an error that aborts. */
  function RestoreOne(cfg: Config, table: EventTable, conversations: set<ConversationId>, key: ObjectKey,
                      stored: Stored): Result<EventTable, EventError> {
    if key.id in table.rows then Ok(table)
    else match Rebuild(cfg, key, stored)
      case Err(e) => Err(e)
      case Ok(None) => Ok(table)
      case Ok(Some((t, row))) =>
        if row.conversation !in conversations then Err(ForeignKey(row.conversation))
        else match Insert(table, key.id, t, row)
          case Ok(grown) => Ok(grown)
          case Err(_) => Err(NoPartition(DayOf(t)))
  }

  predicate Rebuilds(cfg: Config, store: Store, k: ObjectKey)
    requires k in store
  {
    Rebuild(cfg, k, store[k]) != Ok(None)
  }

  /** No object of the same event under an earlier day is an envelope. */
  predicate IsFirst(cfg: Config, store: Store, k: ObjectKey) {
    forall j :: j in store && j.id == k.id && j.day < k.day ==> !Rebuilds(cfg, store, j)
  }

  /** The stored objects a backfill acts on: for each event without a row, its earliest envelope. */
  function Missing(cfg: Config, table: EventTable, store: Store): set<ObjectKey> {
    set k | k in store && k.id !in table.rows && Rebuilds(cfg, store, k) && IsFirst(cfg, store, k)
  }

  /** Every missing object can be inserted. */
  ghost predicate Restorable(cfg: Config, table: EventTable, conversations: set<ConversationId>, store: Store) {
    forall k :: k in Missing(cfg, table, store) ==> RestoreOne(cfg, table, conversations, k, store[k]).Ok?
  }

  ghost predicate UniqueIds(store: Store) {
    forall j, k :: j in store && k in store && j.id == k.id ==> j == k
  }

  /** The table after a backfill that goes through. */
  ghost predicate IsBackfilled(cfg: Config, table: EventTable, store: Store, after: EventTable) {
    && after.dated == table.dated && after.hasDefault == table.hasDefault
    && after.rows.Keys == table.rows.Keys + (set k | k in Missing(cfg, table, store) :: k.id)
    && (forall id :: id in table.rows ==> after.rows[id] == table.rows[id])
    && (forall k :: k in Missing(cfg, table, store) ==>
          && Rebuild(cfg, k, store[k]).Ok?
          && var (t, row) := Rebuild(cfg, k, store[k]).value.value;
             Route(table, t).Ok? && after.rows[k.id] == Row(t, row, Route(table, t).value))
  }

  /** The objects under one day's prefix. */
  function ObjectsOf(store: Store, day: Day): set<ObjectKey> { set k | k in store && k.day == day }

  /** The key text of an object. */
  function KeyText(k: ObjectKey): string
    requires Codecs.IsUuid(k.id) && IsDay(k.day)
  {
    Codecs.ObjectKey(k.id, k.day)
  }

  /** What a prefix deletion takes: on key texts, the prefix of a day selects exactly the day's objects. */
  lemma PrefixSelectsTheDay(store: Store, day: Day)
    requires IsDay(day) && forall k :: k in store ==> Codecs.IsUuid(k.id) && IsDay(k.day)
    ensures (set k | k in store && Codecs.IsoDate(day) + "/" <= KeyText(k)) == ObjectsOf(store, day)
  {
    forall k | k in store ensures Codecs.IsoDate(day) + "/" <= KeyText(k) <==> k.day == day {
      Codecs.DayPrefixExact(k.id, k.day, day);
    }
  }

  /** The store without the objects of some days. */
  function StoreWithout(store: Store, days: set<Day>): Store { map k | k in store && k.day !in days :: store[k] }

  class EventService {
    const cfg: Config
    const hasStore: bool
    var table: EventTable
    var store: Store
    var conversations: set<ConversationId>

    constructor (cfg: Config, hasStore: bool)
      ensures this.cfg == cfg && this.hasStore == hasStore
      ensures table == Table({}, true, map[]) && store == map[] && conversations == {}
    {
      this.cfg, this.hasStore, table, store, conversations := cfg, hasStore, Table({}, true, map[]), map[], {};
    }

    /** Row first, then the body, best effort: a store failure never fails the call. */
    method Create(id: EventId, conversation: ConversationId, kind: string, body: Body, timestamp: Time, inScope: bool,
                  storeUp: bool)
      returns (r: Result<EventRow, EventError>)
      requires id !in table.rows
      modifies this
      ensures r.Ok? <==> conversation in conversations && inScope && Route(old(table), timestamp).Ok?
      ensures conversation !in conversations ==> r == Err(ConversationNotFound)
      ensures conversation in conversations && !inScope ==> r == Err(PermissionScope)
      ensures conversation in conversations && inScope && r.Err? ==> r == Err(NoPartition(DayOf(timestamp)))
      ensures r.Ok? ==> r.value == RowFor(cfg, conversation, kind, body)
      ensures r.Ok? ==> Insert(old(table), id, timestamp, r.value) == Ok(table)
      ensures r.Ok? ==> store == if hasStore && storeUp
        then old(store)[ObjectKey(id, DayOf(timestamp)) := EnvelopeFor(conversation, kind, timestamp, body)]
        else old(store)
      ensures r.Err? ==> table == old(table) && store == old(store)
      ensures conversations == old(conversations)
    {
      if conversation !in conversations {
        return Err(ConversationNotFound);
      }
      var row := EventRow(conversation, kind, StubOrPayload(cfg, body), cfg.size(body));
      if !inScope {
        return Err(PermissionScope);
      }
      var inserted := Insert(table, id, timestamp, row);
      if inserted.Err? {
        return Err(NoPartition(DayOf(timestamp)));
      }
      table := inserted.value;
      if hasStore && storeUp {
        var envelope := Envelope(Some(conversation), Some(kind), Iso(timestamp), Some(body));
        store := store[ObjectKey(id, DayOf(timestamp)) := envelope];
      }
      return Ok(row);
    }

    method GetBody(conversation: ConversationId, id: EventId) returns (r: Result<Body, EventError>)
      ensures r == ReadBody(table, store, hasStore, conversation, id)
    {
      if id !in table.rows || table.rows[id].value.conversation != conversation {
        return Err(EventNotFound);
      }
      var body := table.rows[id].value.body;
      if !(MARKER in body && Truthy(body[MARKER])) {
        return Ok(body);
      }
      var key := ObjectKey(id, DayOf(table.rows[id].at));
      if !hasStore || key !in store {
        return Err(BodyNotFound);
      }
      match store[key] {
        case Envelope(_, _, _, Some(full)) => return Ok(full);
        case NotObject => return Err(AttributeFault);
        case _ => return Err(BodyNotFound);
      }
    }

    /** delete_day: unlinks the objects of the day one by one and counts them. */
    method DeleteDay(day: Day) returns (removed: nat)
      modifies this`store
      ensures store == StoreWithout(old(store), {day})
      ensures removed == |ObjectsOf(old(store), day)|
    {
      var todo := ObjectsOf(store, day);
      removed := 0;
      assert store == store - {};
      while todo != {}
        invariant todo <= ObjectsOf(old(store), day)
        invariant store == old(store) - (ObjectsOf(old(store), day) - todo)
        invariant removed + |todo| == |ObjectsOf(old(store), day)|
        decreases |todo|
      {
        var entry: ObjectKey :| entry in todo;
        store := store - {entry};
        removed := removed + 1;
        todo := todo - {entry};
      }
    }

    /** The aligned sweep: the partitions first, in one transaction; after the commit the objects of each
        dropped day, where a failing day is logged and passed over. */
    method EnsurePartitions(preallocateDays: nat, retentionDays: int, now: Time, failing: set<Day>)
      returns (r: Result<(seq<Day>, set<Day>), PartitionError>)
      requires forall d :: d in table.dated + Window(DayOf(now), preallocateDays) ==> FourDigitYear(d)
      modifies this
      ensures r.Err? <==> Blocked(old(table), DayOf(now), preallocateDays)
      ensures r.Err? ==> table == old(table) && store == old(store)
      ensures r.Ok? ==> table == Swept(old(table), DayOf(now), preallocateDays, CutoffDay(now, retentionDays))
      ensures r.Ok? ==>
        r.value.1 == Expired(old(table).dated + Window(DayOf(now), preallocateDays), CutoffDay(now, retentionDays))
      ensures r.Ok? ==> store == if hasStore then StoreWithout(old(store), r.value.1 - failing) else old(store)
      ensures conversations == old(conversations)
    {
      var swept := Housekeeping.SweepTable(table, "events", preallocateDays, retentionDays, now);
      if swept.Err? {
        return Err(swept.error);
      }
      var dropped := swept.value.2;
      table := swept.value.0;
      if hasStore {
        var todo := dropped;
        while todo != {}
          invariant todo <= dropped && table == swept.value.0 && conversations == old(conversations)
          invariant store == StoreWithout(old(store), dropped - todo - failing)
          decreases |todo|
        {
          var day: Day :| day in todo;
          if day !in failing {
            var _ := DeleteDay(day);
          }
          todo := todo - {day};
        }
      }
      return Ok((swept.value.1, dropped));
    }

    /** Goes over the stored objects by day and id, inserting what has no row; one transaction, so an object
        that cannot be inserted undoes everything. It goes through precisely when every missing object can be
        inserted, and then restores precisely those. */
    method Backfill() returns (r: Result<nat, EventError>)
      modifies this`table
      ensures r.Err? ==> table == old(table)
      ensures !hasStore ==> r == Ok(0) && table == old(table)
      ensures hasStore ==> (r.Ok? <==> Restorable(cfg, old(table), conversations, store))
      ensures hasStore && r.Ok? ==>
        IsBackfilled(cfg, old(table), store, table) && r.value == |Missing(cfg, old(table), store)|
    {
      if !hasStore {
        return Ok(0);
      }
      var restored := 0;
      var work := table;
      var todo := store.Keys;
      ghost var before, known, objects := table, conversations, store;
      NothingYet(cfg, before, known, objects);
      while todo != {}
        invariant table == before && conversations == known && store == objects
        invariant Progress(cfg, before, known, objects, todo, work, restored)
        decreases |todo|
      {
        var key := FirstKey(todo);
        var step := RestoreOne(cfg, work, conversations, key, store[key]);
        MoreProgress(cfg, before, known, objects, todo, key, work, restored, step);
        if step.Err? {
          return Err(step.error);
        }
        if key.id !in work.rows && key.id in step.value.rows {
          restored := restored + 1;
        }
        work := step.value;
        todo := todo - {key};
      }
      NothingLeft(cfg, before, known, objects, work, restored);
      table := work;
      return Ok(restored);
    }
  }

  // ---------------------------------------------------------------- the loop

  /** The objects already gone over. */
  function Beside(store: Store, todo: set<ObjectKey>): Store { map k | k in store && k !in todo :: store[k] }

  /** Where the loop stands: what comes before todo has been restored as far as it was missing. */
  ghost predicate Progress(cfg: Config, table: EventTable, conversations: set<ConversationId>, store: Store,
                           todo: set<ObjectKey>,
                           work: EventTable, restored: nat)
  {
    && todo <= store.Keys && InOrder(Beside(store, todo), todo)
    && IsBackfilled(cfg, table, Beside(store, todo), work) && restored == |Missing(cfg, table, Beside(store, todo))|
    && Restorable(cfg, table, conversations, Beside(store, todo))
  }

  lemma NothingYet(cfg: Config, table: EventTable, conversations: set<ConversationId>, store: Store)
    ensures Progress(cfg, table, conversations, store, store.Keys, table, 0)
  {
    assert Beside(store, store.Keys) == map[];
    assert Missing(cfg, table, map[]) == {};
  }

  lemma NothingLeft(cfg: Config, table: EventTable, conversations: set<ConversationId>, store: Store, work: EventTable,
                    restored: nat)
    requires Progress(cfg, table, conversations, store, {}, work, restored)
    ensures Restorable(cfg, table, conversations, store)
    ensures IsBackfilled(cfg, table, store, work) && restored == |Missing(cfg, table, store)|
  {
    assert Beside(store, {}) == store;
  }

  lemma MoreProgress(cfg: Config, table: EventTable, conversations: set<ConversationId>, store: Store,
                     todo: set<ObjectKey>, key: ObjectKey,
                     work: EventTable, restored: nat, step: Result<EventTable, EventError>)
    requires Progress(cfg, table, conversations, store, todo, work, restored) && todo != {} && key == FirstKey(todo)
    requires step == RestoreOne(cfg, work, conversations, key, store[key])
    ensures step.Err? ==> !Restorable(cfg, table, conversations, store)
    ensures step.Ok? ==> Progress(cfg, table, conversations, store, todo - {key}, step.value,
                                  restored + if key.id !in work.rows && key.id in step.value.rows then 1 else 0)
  {
    var done, next := Beside(store, todo), Beside(store, todo - {key});
    KeyPrecedes(store, todo, key, done, next);
    BackfillStep(cfg, table, conversations, store, done, key, work, next, step);
    MissingGrows(cfg, table, done, key, store[key]);
  }

  lemma KeyPrecedes(store: Store, todo: set<ObjectKey>, key: ObjectKey, done: Store, next: Store)
    requires todo <= store.Keys && todo != {} && key == FirstKey(todo)
    requires done == Beside(store, todo) && next == Beside(store, todo - {key}) && InOrder(done, todo)
    ensures Preceding(store, done, key) && next == done[key := store[key]] && InOrder(next, todo - {key})
  {
    forall j | j in store && j.id == key.id && j.day < key.day
      ensures j in done
    {
      assert j in todo ==> key.day <= j.day;
    }
  }

  // ---------------------------------------------------------------- the order of the objects

  /** Both stores list their objects by day and then by id. */
  predicate KeyBefore(a: ObjectKey, b: ObjectKey) { a.day < b.day || (a.day == b.day && a.id < b.id) }

  /** That is the order of the key texts. */
  lemma ListingOrder(j: ObjectKey, k: ObjectKey)
    requires Codecs.IsUuid(j.id) && IsDay(j.day) && Codecs.IsUuid(k.id) && IsDay(k.day)
    ensures Codecs.TextLess(KeyText(j), KeyText(k)) <==> KeyBefore(j, k)
  {
    Codecs.ObjectKeyOrder(j.id, j.day, k.id, k.day);
  }

  function FirstKey(keys: set<ObjectKey>): (k: ObjectKey)
    requires keys != {}
    ensures k in keys && forall j :: j in keys && j.id == k.id ==> k.day <= j.day
    ensures forall j :: j in keys ==> j == k || KeyBefore(k, j)
  {
    assert StrictTotal(KeyBefore);
    Least(KeyBefore, keys)
  }

  /** Everything done comes before everything still to do. */
  ghost predicate InOrder(done: Store, todo: set<ObjectKey>) {
    forall j, k :: j in done && k in todo ==> KeyBefore(j, k)
  }

  /** Where a backfill stands: done is what precedes key in the store. */
  ghost predicate Preceding(store: Store, done: Store, key: ObjectKey) {
    && key in store && key !in done
    && (forall k :: k in done ==> k in store && done[k] == store[k])
    && (forall k :: k in done && k.id == key.id ==> k.day < key.day)
    && (forall j :: j in store && j.id == key.id && j.day < key.day ==> j in done)
  }

  lemma EarliestEnvelope(cfg: Config, store: Store, id: EventId, some: ObjectKey) returns (k: ObjectKey)
    requires some in store && some.id == id && Rebuilds(cfg, store, some)
    ensures k in store && k.id == id && Rebuilds(cfg, store, k) && IsFirst(cfg, store, k)
  {
    var all := set j | j in store && j.id == id && Rebuilds(cfg, store, j);
    assert some in all;
    k := FirstKey(all);
    forall j | j in store && j.id == id && j.day < k.day ensures !Rebuilds(cfg, store, j) {
      assert Rebuilds(cfg, store, j) ==> j in all;
    }
  }

  // ---------------------------------------------------------------- one more object

  /** One more object taken into account: an object that fails makes the whole store unrestorable, one that
      goes through extends the backfilled table by exactly what it adds. */
  ghost predicate Extends(cfg: Config, table: EventTable, conversations: set<ConversationId>, store: Store,
                          key: ObjectKey,
                          work: EventTable, next: Store, step: Result<EventTable, EventError>)
  {
    && (step.Err? ==> !Restorable(cfg, table, conversations, store))
    && (step.Ok? ==> IsBackfilled(cfg, table, next, step.value) && Restorable(cfg, table, conversations, next))
    && (step.Ok? ==> (key.id !in work.rows && key.id in step.value.rows <==> key in Missing(cfg, table, next)))
  }

  lemma BackfillStep(cfg: Config, table: EventTable, conversations: set<ConversationId>, store: Store, done: Store,
                     key: ObjectKey,
                     work: EventTable, next: Store, step: Result<EventTable, EventError>)
    requires Preceding(store, done, key)
    requires IsBackfilled(cfg, table, done, work) && Restorable(cfg, table, conversations, done)
    requires next == done[key := store[key]] && step == RestoreOne(cfg, work, conversations, key, store[key])
    ensures Extends(cfg, table, conversations, store, key, work, next, step)
  {
    WorkHasRow(cfg, table, store, done, key, work, next);
    if key in Missing(cfg, table, next) {
      InsertedObject(cfg, table, conversations, store, done, key, work, next, step);
    } else {
      SkippedObject(cfg, table, conversations, store, done, key, work, next, step);
    }
  }

  lemma InsertedObject(cfg: Config, table: EventTable, conversations: set<ConversationId>, store: Store, done: Store,
                       key: ObjectKey,
                       work: EventTable, next: Store, step: Result<EventTable, EventError>)
    requires Preceding(store, done, key) && key.id !in work.rows && key in Missing(cfg, table, next)
    requires IsBackfilled(cfg, table, done, work) && Restorable(cfg, table, conversations, done)
    requires next == done[key := store[key]] && step == RestoreOne(cfg, work, conversations, key, store[key])
    ensures Extends(cfg, table, conversations, store, key, work, next, step)
  {
    SameRouting(cfg, table, work, conversations, key, store[key]);
    if step.Ok? {
      RestoredRow(cfg, table, store, done, key, work, conversations, next, step.value);
      RestorableGrows(cfg, table, conversations, store, done, key);
    } else {
      MissingOfStore(cfg, table, store, done, key, next);
    }
  }

  lemma MissingOfStore(cfg: Config, table: EventTable, store: Store, done: Store, key: ObjectKey, next: Store)
    requires Preceding(store, done, key) && next == done[key := store[key]] && key in Missing(cfg, table, next)
    ensures key in Missing(cfg, table, store)
  {
    forall j | j in store && j.id == key.id && j.day < key.day ensures !Rebuilds(cfg, store, j) {
      assert j in next && !Rebuilds(cfg, next, j);
    }
  }

  /** The event has a row by now exactly when it had one at the start or an earlier object was restored. */
  lemma WorkHasRow(cfg: Config, table: EventTable, store: Store, done: Store, key: ObjectKey, work: EventTable,
                   next: Store)
    requires Preceding(store, done, key) && IsBackfilled(cfg, table, done, work) && next == done[key := store[key]]
    ensures key.id in work.rows <==> key.id in table.rows || !IsFirst(cfg, next, key)
  {
    if key.id !in table.rows {
      if key.id in work.rows {
        var k :| k in Missing(cfg, table, done) && k.id == key.id;
        assert k in next && k.day < key.day && Rebuilds(cfg, next, k);
      }
      if !IsFirst(cfg, next, key) {
        var j :| j in next && j.id == key.id && j.day < key.day && Rebuilds(cfg, next, j);
        assert Rebuilds(cfg, done, j);
        var k := EarliestEnvelope(cfg, done, key.id, j);
        assert k in Missing(cfg, table, done);
      }
    }
  }

  lemma MissingGrows(cfg: Config, table: EventTable, done: Store, key: ObjectKey, stored: Stored)
    requires key !in done && forall k :: k in done && k.id == key.id ==> k.day < key.day
    ensures var was, now := Missing(cfg, table, done), Missing(cfg, table, done[key := stored]);
      key !in was && (now == if key in now then was + {key} else was) && |now| == |was| + if key in now then 1 else 0
  {
    var was, now := Missing(cfg, table, done), Missing(cfg, table, done[key := stored]);
    forall k ensures k in was <==> k in now && k != key { StaysMissing(cfg, table, done, key, stored, k); }
    OneElementMore(was, now, key);
  }

  lemma OneElementMore<T(!new)>(was: set<T>, now: set<T>, key: T)
    requires forall k :: k in was <==> k in now && k != key
    ensures key !in was && (now == if key in now then was + {key} else was)
    ensures |now| == |was| + if key in now then 1 else 0
  {
    assert was == now - {key};
    assert key in now ==> now == was + {key};
  }

  lemma StaysMissing(cfg: Config, table: EventTable, done: Store, key: ObjectKey, stored: Stored, k: ObjectKey)
    requires key !in done && forall j :: j in done && j.id == key.id ==> j.day < key.day
    ensures k in Missing(cfg, table, done) <==> k in Missing(cfg, table, done[key := stored]) && k != key
  {
    if k in done { FirstStays(cfg, done, key, stored, k); }
  }

  lemma FirstStays(cfg: Config, done: Store, key: ObjectKey, stored: Stored, k: ObjectKey)
    requires key !in done && k in done && forall j :: j in done && j.id == key.id ==> j.day < key.day
    ensures var next := done[key := stored];
      (IsFirst(cfg, done, k) <==> IsFirst(cfg, next, k)) && (Rebuilds(cfg, done, k) <==> Rebuilds(cfg, next, k))
  {
    var next := done[key := stored];
    forall j | j in done ensures Rebuilds(cfg, done, j) <==> Rebuilds(cfg, next, j) {}
    if IsFirst(cfg, next, k) {
      forall j | j in done && j.id == k.id && j.day < k.day
        ensures !Rebuilds(cfg, done, j)
      {
        assert j in next && !Rebuilds(cfg, next, j);
      }
    }
  }

  lemma SkippedObject(cfg: Config, table: EventTable, conversations: set<ConversationId>, store: Store, done: Store,
                      key: ObjectKey,
                      work: EventTable, next: Store, step: Result<EventTable, EventError>)
    requires Preceding(store, done, key) && next == done[key := store[key]] && key !in Missing(cfg, table, next)
    requires key.id in work.rows <==> key.id in table.rows || !IsFirst(cfg, next, key)
    requires IsBackfilled(cfg, table, done, work) && Restorable(cfg, table, conversations, done)
    requires step == RestoreOne(cfg, work, conversations, key, store[key])
    ensures Extends(cfg, table, conversations, store, key, work, next, step)
  {
    MissingGrows(cfg, table, done, key, store[key]);
    assert Missing(cfg, table, next) == Missing(cfg, table, done);
    forall k | k in Missing(cfg, table, next) ensures next[k] == done[k] {}
    assert step == Ok(work);
  }

  /** Inserting other rows changes neither the routing nor the fate of an object whose event is absent. */
  lemma SameRouting(cfg: Config, table: EventTable, work: EventTable, conversations: set<ConversationId>,
                    key: ObjectKey, stored: Stored)
    requires work.dated == table.dated && work.hasDefault == table.hasDefault
    requires key.id in work.rows <==> key.id in table.rows
    ensures RestoreOne(cfg, work, conversations, key, stored).Ok?
      <==> RestoreOne(cfg, table, conversations, key, stored).Ok?
    ensures forall t :: Route(work, t) == Route(table, t)
  {
  }

  lemma RestoredRow(cfg: Config, table: EventTable, store: Store, done: Store, key: ObjectKey, work: EventTable,
                    conversations: set<ConversationId>, next: Store, after: EventTable)
    requires IsBackfilled(cfg, table, done, work) && Preceding(store, done, key) && next == done[key := store[key]]
    requires key in Missing(cfg, table, next) && key.id !in work.rows
    requires RestoreOne(cfg, work, conversations, key, store[key]) == Ok(after)
    ensures IsBackfilled(cfg, table, next, after) && key.id in after.rows
  {
    MissingGrows(cfg, table, done, key, store[key]);
    OneRowMore(cfg, table, store, key, work, conversations, after);
    var (t, row) := Rebuild(cfg, key, store[key]).value.value;
    RowAdded(cfg, table, done, key, store[key], work, next, after, Row(t, row, Route(table, t).value));
  }

  lemma RowAdded(cfg: Config, table: EventTable, done: Store, key: ObjectKey, stored: Stored, work: EventTable,
                 next: Store, after: EventTable, row: Row<EventRow>)
    requires IsBackfilled(cfg, table, done, work) && key !in done && next == done[key := stored] && key.id !in work.rows
    requires Missing(cfg, table, next) == Missing(cfg, table, done) + {key}
    requires after == work.(rows := work.rows[key.id := row])
    requires Rebuild(cfg, key, stored).Ok? && Rebuild(cfg, key, stored).value.Some?
    requires var (t, r) := Rebuild(cfg, key, stored).value.value;
      Route(table, t).Ok? && row == Row(t, r, Route(table, t).value)
    ensures IsBackfilled(cfg, table, next, after)
  {
    var was, now := Missing(cfg, table, done), Missing(cfg, table, next);
    assert (set k | k in now :: k.id) == (set k | k in was :: k.id) + {key.id};
    forall k | k in was ensures k.id in work.rows && k.id != key.id && next[k] == done[k] {}
  }

  lemma OneRowMore(cfg: Config, table: EventTable, store: Store, key: ObjectKey, work: EventTable,
                   conversations: set<ConversationId>,
                   after: EventTable)
    requires key in store && key.id !in work.rows && key.id !in table.rows && Rebuilds(cfg, store, key)
    requires work.dated == table.dated && work.hasDefault == table.hasDefault
    requires RestoreOne(cfg, work, conversations, key, store[key]) == Ok(after)
    ensures Rebuild(cfg, key, store[key]).Ok?
    ensures var (t, row) := Rebuild(cfg, key, store[key]).value.value;
      Route(table, t).Ok? && after == work.(rows := work.rows[key.id := Row(t, row, Route(table, t).value)])
  {
    SameRouting(cfg, table, work, conversations, key, store[key]);
  }

  lemma RestorableGrows(cfg: Config, table: EventTable, conversations: set<ConversationId>, store: Store, done: Store,
                        key: ObjectKey)
    requires Restorable(cfg, table, conversations, done) && Preceding(store, done, key)
    requires RestoreOne(cfg, table, conversations, key, store[key]).Ok?
    ensures Restorable(cfg, table, conversations, done[key := store[key]])
  {
    var next := done[key := store[key]];
    MissingGrows(cfg, table, done, key, store[key]);
    forall k | k in Missing(cfg, table, next) ensures RestoreOne(cfg, table, conversations, k, next[k]).Ok? {
      if k != key { assert k in Missing(cfg, table, done) && next[k] == done[k]; }
    }
  }

  // ---------------------------------------------------------------- body round trip

  /** get_body after create: the JSON value comes back whenever the store write succeeded; when it failed
      (or there is no store) it comes back exactly for the bodies served from their row. */
  lemma BodyRoundTrip(cfg: Config, table: EventTable, store: Store, hasStore: bool, id: EventId,
                      conversation: ConversationId, kind: string, body: Body, t: Time, stored: bool)
    requires id in table.rows && table.rows[id].at == t && table.rows[id].value == RowFor(cfg, conversation, kind, body)
    requires stored ==>
      hasStore && ObjectKey(id, DayOf(t)) in store
      && store[ObjectKey(id, DayOf(t))] == EnvelopeFor(conversation, kind, t, body)
    requires !stored ==> !hasStore || ObjectKey(id, DayOf(t)) !in store
    ensures ReadBody(table, store, hasStore, conversation, id)
      == if stored || Inline(cfg, body) then Ok(body) else Err(BodyNotFound)
  {
    var stub := StubOrPayload(cfg, body);
    if cfg.size(body) > cfg.cap { assert stub[MARKER] == Bool(true); }
  }

  /** An envelope that lacks members is read as create would have stored it with an empty body, the kind
      "backfill", at midnight of its key's day, so that its row finds its object again; without a conversation, or
      with a timestamp that does not parse, it is an error, and what is no envelope is passed over. */
  lemma RebuildDefaults(cfg: Config, key: ObjectKey, stored: Stored)
    ensures var r := Rebuild(cfg, key, stored);
      && (r == Ok(None) <==> !stored.Envelope?)
      && (r.Err? <==> stored.Envelope? && (stored.conversation.None? || stored.timestamp.BadStamp?))
      && (r.Err? ==> r.error == BadEnvelope(key.id))
    ensures stored.Envelope? && stored.conversation.Some? && !stored.timestamp.BadStamp? ==>
      var t := if stored.timestamp.Iso? then stored.timestamp.t else DayStart(key.day);
      && DayOf(DayStart(key.day)) == key.day
      && Rebuild(cfg, key, stored) == Rebuild(cfg, key,
           EnvelopeFor(stored.conversation.value, stored.kind.GetOr("backfill"), t, stored.body.GetOr(map[])))
  {
    MidnightIsOnItsDay(key.day);
  }

  lemma MidnightIsOnItsDay(day: Day)
    ensures DayOf(DayStart(day)) == day
  {
  }

  /** Rebuilding from the stored envelope gives the row create built under the same cap. */
  lemma RebuildInvertsStore(cfg: Config, id: EventId, conversation: ConversationId, kind: string, body: Body, t: Time)
    ensures Rebuild(cfg, ObjectKey(id, DayOf(t)), EnvelopeFor(conversation, kind, t, body))
      == Ok(Some((t, RowFor(cfg, conversation, kind, body))))
  {
  }
}
