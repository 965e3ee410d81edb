/** The partition manager as it runs: ensure_partitions with its loops and its transaction. */
module Housekeeping {
  import opened Common
  import opened Calendar
  import opened Codecs
  import opened Partitions

  /** One sweep over the table's partitions: allocates the missing days of the window, ensures DEFAULT,
      drops what is older than the cutoff. Returns the new table with what was created and dropped, or the
      refused CREATE. */
  method SweepTable<K(==, !new), V>(table: Table<K, V>, name: string, preallocateDays: nat, retentionDays: int,
                                    now: Time)
    returns (r: Result<(Table<K, V>, seq<Day>, set<Day>), PartitionError>)
    requires forall d :: d in table.dated + Window(DayOf(now), preallocateDays) ==> FourDigitYear(d)
    ensures r.Err? <==> Blocked(table, DayOf(now), preallocateDays)
    ensures r.Ok? ==> r.value.0 == Swept(table, DayOf(now), preallocateDays, CutoffDay(now, retentionDays))
    ensures r.Ok? ==> (forall d :: d in r.value.1 <==> d in Window(DayOf(now), preallocateDays) && d !in table.dated)
    ensures r.Ok? ==>
      r.value.2 == Expired(table.dated + Window(DayOf(now), preallocateDays), CutoffDay(now, retentionDays))
  {
    var today := DayOf(now);
    var work, created := table, [];
    for offset := 0 to preallocateDays
      invariant work == table.(dated := table.dated + Window(today, offset))
      invariant forall d :: d in created <==> d in Window(today, offset) && d !in table.dated
      invariant !Blocked(table, today, offset)
    {
      var day := today + offset;
      assert Window(today, offset + 1) == Window(today, offset) + {day};
      if day !in work.dated {
        assert DefaultHolds(work, day) == DefaultHolds(table, day);
        var made := Create(work, day);
        if made.Err? {
          assert day in Window(today, preallocateDays);
          return Err(made.error);
        }
        work := made.value;
        created := created + [day];
      }
    }
    work := work.(hasDefault := true);
    var result, dropped := DropExpired(work, name, CutoffDay(now, retentionDays));
    return Ok((result, created, dropped));
  }

  class PartitionManager<K(==, !new), V> {
    const name: string
    var table: Table<K, V>

    constructor (name: string)
      ensures this.name == name && table == Table({}, false, map[])
    {
      this.name, table := name, Table({}, false, map[]);
    }

    /** One transaction, so a refused CREATE leaves everything as it was. */
    method EnsurePartitions(preallocateDays: nat, retentionDays: int, now: Time)
      returns (r: Result<(seq<Day>, set<Day>), PartitionError>)
      requires forall d :: d in table.dated + Window(DayOf(now), preallocateDays) ==> FourDigitYear(d)
      modifies this
      ensures r.Err? <==> Blocked(old(table), DayOf(now), preallocateDays)
      ensures r.Err? ==> table == old(table)
      ensures r.Ok? ==> table == Swept(old(table), DayOf(now), preallocateDays, CutoffDay(now, retentionDays))
      ensures r.Ok? ==>
        (forall d :: d in r.value.0 <==> d in Window(DayOf(now), preallocateDays) && d !in old(table).dated)
      ensures r.Ok? ==>
        r.value.1 == Expired(old(table).dated + Window(DayOf(now), preallocateDays), CutoffDay(now, retentionDays))
    {
      var swept := SweepTable(table, name, preallocateDays, retentionDays, now);
      match swept {
        case Err(e) => return Err(e);
        case Ok((after, created, dropped)) =>
          table := after;
          return Ok((created, dropped));
      }
    }
  }
}
