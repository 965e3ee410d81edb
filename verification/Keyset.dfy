/** Keyset pagination: pages of an ordered query taken one after the other while the table
    changes in between (event_service.search_events, job_service.search, cors_service.list_allowed_origins). */
module Keyset {
  import opened Common

  ghost predicate StrictTotal<K(!new)>(less: (K, K) -> bool) {
    && (forall a :: !less(a, a))
    && (forall a, b :: a != b ==> less(a, b) || less(b, a))
    && (forall a, b, c :: less(a, b) && less(b, c) ==> less(a, c))
  }

  /** Event rows are ordered by (timestamp, id). */
  datatype Key = Key(ts: Time, id: nat)

  predicate KeyLess(a: Key, b: Key) {
    a.ts < b.ts || (a.ts == b.ts && a.id < b.id)
  }

  lemma KeyOrderTotal()
    ensures StrictTotal(KeyLess)
  {
  }

  // ---------------------------------------------------------------- ORDER BY ... LIMIT n

  predicate IsLeast<K(==)>(less: (K, K) -> bool, s: set<K>, m: K) {
    m in s && forall x :: x in s ==> x == m || less(m, x)
  }

  lemma {:induction false} LeastExists<K(!new)>(less: (K, K) -> bool, s: set<K>)
    requires StrictTotal(less) && s != {}
    ensures exists m :: IsLeast(less, s, m)
    decreases |s|
  {
    var a :| a in s;
    var rest := s - {a};
    assert s == rest + {a};
    if rest == {} {
      assert IsLeast(less, s, a);
    } else {
      LeastExists(less, rest);
      var r :| IsLeast(less, rest, r);
      if less(a, r) {
        assert IsLeast(less, s, a);
      } else {
        assert IsLeast(less, s, r);
      }
    }
  }

  function Least<K(==, !new)>(less: (K, K) -> bool, s: set<K>): (m: K)
    requires StrictTotal(less) && s != {}
    ensures IsLeast(less, s, m)
  {
    LeastExists(less, s);
    var m :| m in s && IsLeast(less, s, m);
    m
  }

  /** The first n keys of s in ascending order. */
  function Smallest<K(==, !new)>(less: (K, K) -> bool, s: set<K>, n: nat): seq<K>
    requires StrictTotal(less)
    decreases n
  {
    if n == 0 || s == {} then []
    else
      var m := Least(less, s);
      [m] + Smallest(less, s - {m}, n - 1)
  }

  ghost predicate Ascending<K(!new)>(less: (K, K) -> bool, q: seq<K>) {
    forall i, j :: 0 <= i < j < |q| ==> less(q[i], q[j])
  }

  lemma AscendingJoin<K(!new)>(less: (K, K) -> bool, p: seq<K>, q: seq<K>)
    requires Ascending(less, p) && Ascending(less, q) && forall x, y :: x in p && y in q ==> less(x, y)
    ensures Ascending(less, p + q)
  {
    var out := p + q;
    forall i, j | 0 <= i < j < |out| ensures less(out[i], out[j]) {
      if i < |p| <= j { assert out[i] in p && out[j] in q; }
    }
  }

  lemma ConsClosed<K(!new)>(less: (K, K) -> bool, s: set<K>, m: K, rest: seq<K>)
    requires m in s && forall x, y :: x in s - {m} && y in rest && less(x, y) ==> x in rest
    requires forall x :: x in s ==> !less(x, m)
    ensures forall x, y :: x in s && y in [m] + rest && less(x, y) ==> x in [m] + rest
  {
  }

  /** Smallest is what ORDER BY / LIMIT promises: ascending, drawn from the set, as many as the
      limit allows, and downward closed in the set. */
  lemma {:induction false} SmallestMeetsOrderLimit<K(!new)>(less: (K, K) -> bool, s: set<K>, n: nat)
    requires StrictTotal(less)
    ensures var q := Smallest(less, s, n);
      && Ascending(less, q)
      && (forall x :: x in q ==> x in s)
      && |q| == (if n <= |s| then n else |s|)
      && (forall x, y :: x in s && y in q && less(x, y) ==> x in q)
    decreases n
  {
    if n != 0 && s != {} {
      var m := Least(less, s);
      var rest := Smallest(less, s - {m}, n - 1);
      SmallestMeetsOrderLimit(less, s - {m}, n - 1);
      assert forall y :: y in rest ==> less(m, y);
      AscendingJoin(less, [m], rest);
      ConsClosed(less, s, m, rest);
    }
  }

  /** An ascending sequence is determined by its elements. */
  lemma {:induction false} AscendingUnique<K(!new)>(less: (K, K) -> bool, p: seq<K>, q: seq<K>)
    requires StrictTotal(less) && Ascending(less, p) && Ascending(less, q)
    requires forall x :: x in p <==> x in q
    ensures p == q
    decreases |p|
  {
    assert p != [] ==> p[0] in p && p[0] in q;
    assert q != [] ==> q[0] in q && q[0] in p;
    if p != [] {
      var i :| 0 <= i < |q| && q[i] == p[0];
      var j :| 0 <= j < |p| && p[j] == q[0];
      assert i == 0;
      forall x ensures x in p[1..] <==> x in q[1..] {
        if x in p[1..] {
          var k :| 0 <= k < |p[1..]| && p[1..][k] == x;
          assert p[k + 1] == x && less(p[0], x) && x in q;
          var l :| 0 <= l < |q| && q[l] == x;
          assert q[1..][l - 1] == x;
        }
        if x in q[1..] {
          var k :| 0 <= k < |q[1..]| && q[1..][k] == x;
          assert q[k + 1] == x && less(q[0], x) && x in p;
          var l :| 0 <= l < |p| && p[l] == x;
          assert p[1..][l - 1] == x;
        }
      }
      AscendingUnique(less, p[1..], q[1..]);
      assert p == [p[0]] + p[1..] && q == [q[0]] + q[1..];
    }
  }

  // ---------------------------------------------------------------- one page

  predicate Beyond<K>(less: (K, K) -> bool, cursor: Option<K>, k: K) {
    cursor.None? || less(cursor.value, k)
  }

  function After<K(==)>(less: (K, K) -> bool, rows: set<K>, cursor: Option<K>): set<K> {
    set k | k in rows && Beyond(less, cursor, k)
  }

  datatype Page<K> = Page(items: seq<K>, next: Option<K>)

  /** One query. Without lookahead (events, jobs) the cursor is offered whenever the page is full;
      with lookahead (CORS origins) limit + 1 rows are read and the cursor is offered only when the
      extra row exists. */
  function Search<K(==, !new)>(less: (K, K) -> bool, rows: set<K>, cursor: Option<K>, limit: nat,
                               lookahead: bool): Page<K>
    requires StrictTotal(less) && limit >= 1
  {
    var found := Smallest(less, After(less, rows, cursor), if lookahead then limit + 1 else limit);
    if lookahead then
      if |found| > limit then Page(found[..limit], Some(found[limit - 1])) else Page(found, None)
    else
      Page(found, if |found| == limit then Some(found[limit - 1]) else None)
  }

  lemma SearchPage<K(!new)>(less: (K, K) -> bool, rows: set<K>, cursor: Option<K>, limit: nat, lookahead: bool)
    requires StrictTotal(less) && limit >= 1
    ensures var p := Search(less, rows, cursor, limit, lookahead);
      var after := After(less, rows, cursor);
      && Ascending(less, p.items)
      && (forall x :: x in p.items ==> x in after)
      && (forall x, y :: x in after && y in p.items && less(x, y) ==> x in p.items)
      && (p.next.Some? <==> if lookahead then |after| > limit else |after| >= limit)
      && (p.next.Some? ==> |p.items| == limit <= |after| && p.next.value == p.items[limit - 1])
      && (p.next.None? ==> |after| <= limit && forall x :: x in after ==> x in p.items)
  {
    var after := After(less, rows, cursor);
    var n := if lookahead then limit + 1 else limit;
    var found := Smallest(less, after, n);
    var p := Search(less, rows, cursor, limit, lookahead);
    SmallestMeetsOrderLimit(less, after, n);
    if p.next.None? {
      AscendingNoDuplicates(less, found);
      SameSizeSameSet(Elements(found), after);
    } else {
      forall x | x in p.items ensures x in found {
        var i :| 0 <= i < |p.items| && p.items[i] == x;
        assert found[i] == x;
      }
      forall x, y | x in after && y in p.items && less(x, y) ensures x in p.items {
        assert x in found;
        var i :| 0 <= i < |found| && found[i] == x;
        var j :| 0 <= j < |p.items| && p.items[j] == y;
        assert found[j] == y;
        assert !less(found[j], found[i]);
        assert i < j;
        assert p.items[i] == x;
      }
    }
  }

  /** A page of events, spelled out: by timestamp and then by id, after the cursor, with nothing skipped, and a cursor
      on its last row when it is full. */
  lemma EventPage(rows: set<Key>, cursor: Option<Key>, limit: nat)
    requires limit >= 1
    ensures var p := Search(KeyLess, rows, cursor, limit, false);
      && |p.items| <= limit
      && (forall i, j :: 0 <= i < j < |p.items| ==> Earlier(p.items[i], p.items[j]))
      && (forall k :: k in p.items ==> k in rows && (cursor.Some? ==> Earlier(cursor.value, k)))
      && (forall k :: k in rows && k !in p.items && (cursor.Some? ==> Earlier(cursor.value, k)) ==>
            |p.items| == limit && forall x :: x in p.items ==> Earlier(x, k))
      && p.next == if |p.items| == limit then Some(p.items[limit - 1]) else None
  {
    SearchPage(KeyLess, rows, cursor, limit, false);
    var p := Search(KeyLess, rows, cursor, limit, false);
    SmallestMeetsOrderLimit(KeyLess, After(KeyLess, rows, cursor), limit);
    forall i, j | 0 <= i < j < |p.items| ensures Earlier(p.items[i], p.items[j]) {
      assert KeyLess(p.items[i], p.items[j]);
    }
    forall k | k in rows && k !in p.items && (cursor.Some? ==> Earlier(cursor.value, k))
      ensures |p.items| == limit && forall x :: x in p.items ==> Earlier(x, k)
    {
      assert k in After(KeyLess, rows, cursor);
      forall x | x in p.items ensures Earlier(x, k) { assert KeyLess(k, x) ==> k in p.items; }
    }
  }

  /** a's timestamp is before b's, or the same and its id smaller. */
  predicate Earlier(a: Key, b: Key) { a.ts <= b.ts && (a.ts == b.ts ==> a.id < b.id) }

  function Elements<K(==)>(q: seq<K>): set<K> { set x | x in q }

  lemma LastIsNew<K(!new)>(less: (K, K) -> bool, init: seq<K>, last: K)
    requires StrictTotal(less) && Ascending(less, init + [last])
    ensures Ascending(less, init) && last !in init
  {
    var q := init + [last];
    forall i, j | 0 <= i < j < |init| ensures less(init[i], init[j]) { assert q[i] == init[i] && q[j] == init[j]; }
    forall i | 0 <= i < |init| ensures init[i] != last { assert less(q[i], q[|init|]); }
  }

  lemma ElementsSnoc<K>(init: seq<K>, last: K)
    requires last !in init
    ensures |Elements(init + [last])| == |Elements(init)| + 1
  {
    assert Elements(init + [last]) == Elements(init) + {last};
  }

  lemma {:induction false} AscendingNoDuplicates<K(!new)>(less: (K, K) -> bool, q: seq<K>)
    requires StrictTotal(less) && Ascending(less, q)
    ensures |Elements(q)| == |q|
    decreases |q|
  {
    if q != [] {
      var init, last := q[..|q| - 1], q[|q| - 1];
      assert q == init + [last];
      LastIsNew(less, init, last);
      AscendingNoDuplicates(less, init);
      ElementsSnoc(init, last);
    }
  }

  lemma SameSizeSameSet<K>(a: set<K>, b: set<K>)
    requires a <= b && |a| == |b|
    ensures a == b
  {
    assert |b - a| == |b| - |a|;
  }

  // ---------------------------------------------------------------- a whole scan

  /** The pages a client receives when it follows cursors, page i being read from snapshots[i]: the
      table may change arbitrarily between pages. The scan stops at the first absent cursor. */
  function Scan<K(==, !new)>(less: (K, K) -> bool, snapshots: seq<set<K>>, cursor: Option<K>, limit: nat,
                             lookahead: bool): seq<Page<K>>
    requires StrictTotal(less) && limit >= 1
    decreases |snapshots|
  {
    if snapshots == [] then []
    else
      var p := Search(less, snapshots[0], cursor, limit, lookahead);
      [p] + if p.next.None? then [] else Scan(less, snapshots[1..], p.next, limit, lookahead)
  }

  function Items<K>(pages: seq<Page<K>>): seq<K> {
    if pages == [] then [] else pages[0].items + Items(pages[1..])
  }

  ghost predicate Finished<K(!new)>(pages: seq<Page<K>>) {
    pages != [] && pages[|pages| - 1].next.None?
  }

  lemma ItemsHead<K(!new)>(p: Page<K>, rest: seq<Page<K>>)
    ensures Items([p] + rest) == p.items + Items(rest)
  {
    assert ([p] + rest)[1..] == rest;
  }

  /** What lies beyond the last key of a page lies above the whole page. */
  lemma AboveThePage<K(!new)>(less: (K, K) -> bool, items: seq<K>, last: K, later: seq<K>)
    requires StrictTotal(less) && Ascending(less, items) && items != [] && last == items[|items| - 1]
    requires forall y :: y in later ==> less(last, y)
    ensures forall x, y :: x in items && y in later ==> less(x, y)
  {
    forall x, y | x in items && y in later ensures less(x, y) {
      var i :| 0 <= i < |items| && items[i] == x;
      assert i < |items| - 1 ==> less(x, last);
    }
  }

  /** A page followed by what is read from its own cursor on. */
  lemma PageThenTail<K(!new)>(less: (K, K) -> bool, cursor: Option<K>, items: seq<K>, last: K, later: seq<K>)
    requires StrictTotal(less) && Ascending(less, items) && items != [] && last == items[|items| - 1]
    requires forall x :: x in items ==> Beyond(less, cursor, x)
    requires Ascending(less, later) && forall y :: y in later ==> Beyond(less, Some(last), y)
    ensures Ascending(less, items + later) && forall x :: x in items + later ==> Beyond(less, cursor, x)
  {
    assert forall y :: y in later ==> less(last, y);
    AboveThePage(less, items, last, later);
    AscendingJoin(less, items, later);
    assert last in items;
  }

  /** Whatever happens to the table between pages, the emitted keys strictly increase, so no key is
      emitted twice, and every emitted key lies beyond the starting cursor. */
  lemma {:induction false} ScanAscending<K(!new)>(less: (K, K) -> bool, snapshots: seq<set<K>>, cursor: Option<K>,
                                                  limit: nat, lookahead: bool)
    requires StrictTotal(less) && limit >= 1
    ensures var out := Items(Scan(less, snapshots, cursor, limit, lookahead));
      Ascending(less, out) && forall x :: x in out ==> Beyond(less, cursor, x)
    decreases |snapshots|
  {
    if snapshots != [] {
      var p := Search(less, snapshots[0], cursor, limit, lookahead);
      SearchPage(less, snapshots[0], cursor, limit, lookahead);
      var tail := if p.next.None? then [] else Scan(less, snapshots[1..], p.next, limit, lookahead);
      ItemsHead(p, tail);
      if p.next.Some? {
        ScanAscending(less, snapshots[1..], p.next, limit, lookahead);
        PageThenTail(less, cursor, p.items, p.next.value, Items(tail));
      } else {
        assert p.items + [] == p.items;
      }
    }
  }

  /** Every key on page i was in the table when page i was read. */
  lemma {:induction false} ScanSound<K(!new)>(less: (K, K) -> bool, snapshots: seq<set<K>>, cursor: Option<K>,
                                              limit: nat, lookahead: bool, i: nat, x: K)
    requires StrictTotal(less) && limit >= 1
    requires var pages := Scan(less, snapshots, cursor, limit, lookahead); i < |pages| && x in pages[i].items
    ensures i < |snapshots| && x in snapshots[i]
    decreases i
  {
    SearchPage(less, snapshots[0], cursor, limit, lookahead);
    if i > 0 {
      var p := Search(less, snapshots[0], cursor, limit, lookahead);
      var pages := Scan(less, snapshots, cursor, limit, lookahead);
      assert pages[1..] == Scan(less, snapshots[1..], p.next, limit, lookahead);
      ScanSound(less, snapshots[1..], p.next, limit, lookahead, i - 1, x);
    }
  }

  /** A key beyond the cursor that is in the table at every page read of a finished scan is emitted;
      by ScanAscending it is emitted exactly once. */
  lemma {:induction false} ScanComplete<K(!new)>(less: (K, K) -> bool, snapshots: seq<set<K>>, cursor: Option<K>,
                                                 limit: nat, lookahead: bool, x: K)
    requires StrictTotal(less) && limit >= 1
    requires Beyond(less, cursor, x)
    requires var pages := Scan(less, snapshots, cursor, limit, lookahead);
      Finished(pages) && forall i :: 0 <= i < |pages| && i < |snapshots| ==> x in snapshots[i]
    ensures x in Items(Scan(less, snapshots, cursor, limit, lookahead))
    decreases |snapshots|
  {
    var pages := Scan(less, snapshots, cursor, limit, lookahead);
    var p := Search(less, snapshots[0], cursor, limit, lookahead);
    SearchPage(less, snapshots[0], cursor, limit, lookahead);
    assert x in snapshots[0] && x in After(less, snapshots[0], cursor);
    var tail := pages[1..];
    assert pages == [p] + tail;
    ItemsHead(p, tail);
    if x !in p.items {
      assert p.next.Some?;
      assert p.next.value in p.items;
      assert less(p.next.value, x);
      assert forall i :: 0 <= i < |tail| && i < |snapshots[1..]| ==> snapshots[1..][i] == snapshots[i + 1];
      ScanComplete(less, snapshots[1..], p.next, limit, lookahead, x);
    }
  }

  function Repeat<K>(rows: set<K>, n: nat): seq<set<K>> {
    seq(n, _ => rows)
  }

  /** On a table that does not change, the scan finishes within (matching rows / limit) + 1 pages and
      the pages concatenate to all matching rows in order, for every limit of at least one. */
  lemma {:induction false} StaticScan<K(!new)>(less: (K, K) -> bool, rows: set<K>, cursor: Option<K>, limit: nat,
                                               lookahead: bool, n: nat)
    requires StrictTotal(less) && limit >= 1
    requires n * limit > |After(less, rows, cursor)|
    ensures var pages := Scan(less, Repeat(rows, n), cursor, limit, lookahead);
      var after := After(less, rows, cursor);
      Finished(pages) && Items(pages) == Smallest(less, after, |after|)
  {
    var snaps := Repeat(rows, n);
    StaticScanFinishes(less, rows, cursor, limit, lookahead, n);
    var pages := Scan(less, snaps, cursor, limit, lookahead);
    var after := After(less, rows, cursor);
    ScanAscending(less, snaps, cursor, limit, lookahead);
    SmallestMeetsOrderLimit(less, after, |after|);
    var whole := Smallest(less, after, |after|);
    AscendingNoDuplicates(less, whole);
    SameSizeSameSet(Elements(whole), after);
    forall x ensures x in Items(pages) <==> x in whole {
      if x in Items(pages) {
        var i := PageOf(pages, x);
        ScanSound(less, snaps, cursor, limit, lookahead, i, x);
        assert x in after;
        assert x in (set y | y in whole);
      }
      if x in whole {
        ScanPagesBounded(less, snaps, cursor, limit, lookahead);
        ScanComplete(less, snaps, cursor, limit, lookahead, x);
      }
    }
    AscendingUnique(less, Items(pages), whole);
  }

  lemma {:induction false} ScanPagesBounded<K(!new)>(less: (K, K) -> bool, snapshots: seq<set<K>>, cursor: Option<K>,
                                                     limit: nat, lookahead: bool)
    requires StrictTotal(less) && limit >= 1
    ensures |Scan(less, snapshots, cursor, limit, lookahead)| <= |snapshots|
    decreases |snapshots|
  {
    if snapshots != [] {
      var p := Search(less, snapshots[0], cursor, limit, lookahead);
      if p.next.Some? { ScanPagesBounded(less, snapshots[1..], p.next, limit, lookahead); }
    }
  }

  lemma {:induction false} PageOf<K(!new)>(pages: seq<Page<K>>, x: K) returns (i: nat)
    requires x in Items(pages)
    ensures i < |pages| && x in pages[i].items
    decreases |pages|
  {
    if x in pages[0].items {
      i := 0;
    } else {
      var j := PageOf(pages[1..], x);
      i := j + 1;
    }
  }

  lemma NextPageShrinks<K(!new)>(less: (K, K) -> bool, rows: set<K>, cursor: Option<K>, limit: nat, lookahead: bool)
    requires StrictTotal(less) && limit >= 1
    ensures var p := Search(less, rows, cursor, limit, lookahead);
      p.next.Some? ==> |After(less, rows, p.next)| + limit <= |After(less, rows, cursor)|
  {
    var p := Search(less, rows, cursor, limit, lookahead);
    SearchPage(less, rows, cursor, limit, lookahead);
    if p.next.Some? {
      var after := After(less, rows, cursor);
      var emitted := Elements(p.items);
      AscendingNoDuplicates(less, p.items);
      assert p.next.value in p.items;
      forall k | k in After(less, rows, p.next) ensures k in after - emitted {
        assert less(p.next.value, k);
        if k in p.items {
          var i :| 0 <= i < |p.items| && p.items[i] == k;
        }
      }
      SubsetSize(After(less, rows, p.next), after - emitted);
    }
  }

  lemma {:induction false} StaticScanFinishes<K(!new)>(less: (K, K) -> bool, rows: set<K>, cursor: Option<K>,
                                                       limit: nat, lookahead: bool, n: nat)
    requires StrictTotal(less) && limit >= 1
    requires n * limit > |After(less, rows, cursor)|
    ensures Finished(Scan(less, Repeat(rows, n), cursor, limit, lookahead))
    decreases n
  {
    var snaps := Repeat(rows, n);
    assert n != 0;
    assert snaps[0] == rows && snaps[1..] == Repeat(rows, n - 1);
    var p := Search(less, rows, cursor, limit, lookahead);
    NextPageShrinks(less, rows, cursor, limit, lookahead);
    if p.next.Some? {
      assert (n - 1) * limit == n * limit - limit;
      StaticScanFinishes(less, rows, p.next, limit, lookahead, n - 1);
      FinishedTail(p, Scan(less, Repeat(rows, n - 1), p.next, limit, lookahead));
    }
  }

  lemma FinishedTail<K(!new)>(p: Page<K>, tail: seq<Page<K>>)
    requires Finished(tail)
    ensures Finished([p] + tail)
  {
    var pages := [p] + tail;
    assert pages[|pages| - 1] == tail[|tail| - 1];
  }

  lemma {:induction false} SubsetSize<K>(a: set<K>, b: set<K>)
    requires a <= b
    ensures |a| <= |b|
  {
    assert b == a + (b - a);
  }
}
