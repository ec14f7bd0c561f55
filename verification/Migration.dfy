/** The migration of audit rows from immudb to PostgreSQL, in windows of a day and pages of 999 rows. */
module Migration {
  import opened Options

  const DAY := 86400000
  const PAGE := 999

  /** A row of the source; ids are numbered by their order in the database. */
  datatype Row = Row(id: int, epochtime: int, data: string)

  /** A row of the target: the source row and the time that was made of it. */
  datatype Stored = Stored(row: Row, time: string)

  ghost predicate UniqueIds(rows: set<Row>) {
    forall a, b | a in rows && b in rows && a.id == b.id :: a == b
  }

  /** The rows that a query ranges over: a window of time, and the ids behind the last one seen. */
  function Matching(rows: set<Row>, start: int, end: int, lastId: Option<int>): set<Row> {
    set r | r in rows && r.epochtime <= start && r.epochtime > end && (lastId.Some? ==> r.id > lastId.value)
  }

  /** Strictly ascending ids. */
  ghost predicate Ascending(page: seq<Row>) {
    forall i, j | 0 <= i < j < |page| :: page[i].id < page[j].id
  }

  ghost function SetOf(page: seq<Row>): set<Row> {
    set r | r in page
  }

  /** `order by id limit`: the first rows in the order of their ids. */
  ghost predicate IsPage(page: seq<Row>, rows: set<Row>, limit: nat) {
    && Ascending(page) && SetOf(page) <= rows && |page| <= limit
    && (|page| < limit ==> SetOf(page) == rows)
    && forall r, p | r in rows && r !in SetOf(page) && p in page :: p.id < r.id
  }

  lemma SmallestExists(rows: set<Row>)
    requires rows != {}
    ensures exists r :: r in rows && forall s | s in rows :: r.id <= s.id
  {
    var r :| r in rows;
    if rows == {r} {
      assert forall s | s in rows :: r.id <= s.id;
    } else {
      SmallestExists(rows - {r});
      var m :| m in rows - {r} && forall s | s in rows - {r} :: m.id <= s.id;
      assert forall s | s in rows :: (if r.id <= m.id then r else m).id <= s.id;
    }
  }

  /** The database answers a query. */
  method Query(rows: set<Row>, start: int, end: int, lastId: Option<int>) returns (page: seq<Row>)
    requires UniqueIds(rows)
    ensures IsPage(page, Matching(rows, start, end, lastId), PAGE)
    ensures forall r | r in page ::
      r in rows && end < r.epochtime <= start && (lastId.Some? ==> lastId.value < r.id)
    ensures |page| < 999 ==>
      forall r | r in rows && end < r.epochtime <= start && (lastId.Some? ==> lastId.value < r.id) :: r in page
  {
    InMatching(rows, start, end, lastId);
    hide Matching;
    MatchingUnique(rows, start, end, lastId);
    var all := Matching(rows, start, end, lastId);
    var left := all;
    page := [];
    while |page| < PAGE && left != {}
      invariant left <= all && |page| <= PAGE && Ascending(page) && SetOf(page) == all - left
      invariant forall r, p | r in left && p in page :: p.id < r.id
      decreases left
    {
      SmallestExists(left);
      var r :| r in left && forall s | s in left :: r.id <= s.id;
      SetOfPush(page, r);
      page := page + [r];
      left := left - {r};
    }
  }

  lemma MatchingUnique(rows: set<Row>, start: int, end: int, lastId: Option<int>)
    requires UniqueIds(rows)
    ensures UniqueIds(Matching(rows, start, end, lastId))
  {
  }

  lemma InMatching(rows: set<Row>, start: int, end: int, lastId: Option<int>)
    ensures forall r :: r in Matching(rows, start, end, lastId) <==>
      r in rows && end < r.epochtime <= start && (lastId.Some? ==> lastId.value < r.id)
  {
  }

  lemma SetOfPush(page: seq<Row>, r: Row)
    ensures SetOf(page + [r]) == SetOf(page) + {r}
  {
  }

  /** The rows behind a page are those behind its last id. */
  lemma BehindPage(rows: set<Row>, start: int, end: int, lastId: Option<int>, page: seq<Row>)
    requires UniqueIds(rows) && IsPage(page, Matching(rows, start, end, lastId), PAGE) && page != []
    ensures var last := page[|page| - 1].id; var rest := Matching(rows, start, end, Some(last));
      && rest == Matching(rows, start, end, lastId) - SetOf(page) && rest < Matching(rows, start, end, lastId)
  {
  }

  /** The target after rows have been inserted where their id was free. */
  ghost predicate Inserted(before: map<int, Stored>, after: map<int, Stored>, rows: set<Row>, time: Row -> string) {
    && (forall id | id in before :: id in after && after[id] == before[id])
    && (forall r | r in rows :: r.id in after && (r.id !in before ==> after[r.id] == Stored(r, time(r))))
    && forall id | id in after && id !in before :: after[id].row in rows && after[id].row.id == id
  }

  lemma InsertedNothing(m: map<int, Stored>, time: Row -> string)
    ensures Inserted(m, m, {}, time)
  {
  }

  lemma InsertedMore(a: map<int, Stored>, b: map<int, Stored>, page: seq<Row>, i: nat, time: Row -> string)
    requires i < |page| && Ascending(page) && Inserted(a, b, SetOf(page[..i]), time)
    ensures var r := page[i];
      Inserted(a, if r.id in b then b else b[r.id := Stored(r, time(r))], SetOf(page[..i + 1]), time)
  {
    hide Inserted;
    var r := page[i];
    assert page[..i + 1] == page[..i] + [r];
    SetOfPush(page[..i], r);
    InsertedOne(b, r, time);
    AscendingUnique(page, i);
    InsertedOn(a, b, if r.id in b then b else b[r.id := Stored(r, time(r))], SetOf(page[..i]), {r}, time);
  }

  lemma InsertedOne(b: map<int, Stored>, r: Row, time: Row -> string)
    ensures Inserted(b, if r.id in b then b else b[r.id := Stored(r, time(r))], {r}, time)
  {
  }

  lemma AscendingUnique(page: seq<Row>, i: nat)
    requires Ascending(page) && i < |page|
    ensures UniqueIds(SetOf(page[..i]) + {page[i]})
  {
    forall a, b | a in page[..i] + [page[i]] && b in page[..i] + [page[i]] && a.id == b.id ensures a == b {
      assert page[..i] + [page[i]] == page[..i + 1];
      var j, k :| 0 <= j <= i && 0 <= k <= i && a == page[j] && b == page[k];
    }
  }

  /** What was there stays as it was, and each row is there, with its time if its id was free. */
  lemma InsertedIs(a: map<int, Stored>, b: map<int, Stored>, page: seq<Row>, time: Row -> string)
    requires Inserted(a, b, SetOf(page), time)
    ensures forall id :: id in b <==> id in a || exists r :: r in page && r.id == id
    ensures forall id | id in a :: b[id] == a[id]
    ensures forall r | r in page && r.id !in a :: b[r.id] == Stored(r, time(r))
  {
    forall id | id in b && id !in a ensures exists r :: r in page && r.id == id {
      assert b[id].row in SetOf(page);
    }
    forall r | r in page ensures r.id in b && (r.id !in a ==> b[r.id] == Stored(r, time(r))) {
      assert r in SetOf(page);
    }
  }

  lemma InsertedOn(a: map<int, Stored>, b: map<int, Stored>, c: map<int, Stored>, r: set<Row>, s: set<Row>,
                   time: Row -> string)
    requires Inserted(a, b, r, time) && Inserted(b, c, s, time) && UniqueIds(r + s)
    ensures Inserted(a, c, r + s, time)
  {
  }

  /** How many whole days fit between the end and the start. */
  function WindowCount(starttime: int, endtime: int): nat {
    if starttime < endtime then 0 else (starttime - endtime) / DAY
  }

  /** The rows in the whole days before the start. */
  function Migrated(source: set<Row>, starttime: int, endtime: int): set<Row> {
    Matching(source, starttime, starttime - WindowCount(starttime, endtime) * DAY, None)
  }

  /** These are the rows behind the last whole day that fits, up to the start. */
  lemma MigratedIs(source: set<Row>, starttime: int, endtime: int, days: nat, r: Row)
    requires if starttime < endtime then days == 0 else days * DAY <= starttime - endtime < (days + 1) * DAY
    ensures r in Migrated(source, starttime, endtime) <==>
      r in source && starttime - days * DAY < r.epochtime <= starttime
  {
    if starttime >= endtime { assert days == (starttime - endtime) / DAY; }
  }

  ghost predicate NoRepeat(pages: seq<Row>) {
    forall i, j | 0 <= i < j < |pages| :: pages[i] != pages[j]
  }

  lemma NoWindow(source: set<Row>, start: int)
    ensures Matching(source, start, start, None) == {}
  {
  }

  /** A window goes on where the ones before it end. */
  lemma Tiles(source: set<Row>, from: int, start: int, end: int)
    requires end <= start <= from
    ensures Matching(source, from, start, None) + Matching(source, start, end, None) ==
      Matching(source, from, end, None)
    ensures Matching(source, from, start, None) !! Matching(source, start, end, None)
  {
  }

  lemma Apart(pages: seq<Row>, window: seq<Row>)
    requires NoRepeat(pages) && Ascending(window) && SetOf(pages) !! SetOf(window)
    ensures NoRepeat(pages + window) && SetOf(pages + window) == SetOf(pages) + SetOf(window)
  {
    var all := pages + window;
    forall i, j | 0 <= i < j < |all| ensures all[i] != all[j] {
      if i < |pages| <= j { assert all[i] in SetOf(pages) && all[j] in SetOf(window); }
    }
  }

  lemma Windows(starttime: int, endtime: int, k: nat)
    requires starttime - (k + 1) * DAY < endtime && (k > 0 ==> starttime - k * DAY >= endtime)
    ensures k == WindowCount(starttime, endtime)
  {
  }

  /** A second run changes nothing. */
  lemma SecondRun(a: map<int, Stored>, b: map<int, Stored>, c: map<int, Stored>, rows: set<Row>, time: Row -> string)
    requires Inserted(a, b, rows, time) && Inserted(b, c, rows, time)
    ensures c == b
  {
    assert forall id | id in b :: id in c;
    assert forall id | id in c :: id in b && c[id] == b[id];
    assert c.Keys == b.Keys;
    assert c == b;
  }

  /** All the rows between the end and the start are migrated, whatever the source, exactly when the time between them
      is a whole number of days (or there is none); otherwise those of the last part of a day are left out. */
  lemma CompleteIff(starttime: int, endtime: int)
    ensures (forall source: set<Row> | UniqueIds(source) ::
               Migrated(source, starttime, endtime) == Matching(source, starttime, endtime, None))
            <==> starttime <= endtime || (starttime - endtime) % DAY == 0
  {
    var k := WindowCount(starttime, endtime);
    if starttime > endtime && (starttime - endtime) % DAY != 0 {
      var row := Row(0, endtime + 1, "");
      assert starttime - k * DAY > endtime;
      assert row in Matching({row}, starttime, endtime, None) && row !in Migrated({row}, starttime, endtime);
      assert UniqueIds({row});
    }
  }

  class Target {
    var rows: map<int, Stored>
    /** The rows given to INSERT, in order. */
    ghost var log: seq<Row>
    /** What `fromisoformat`, `localtime` and `astimezone` make of a row. */
    const time: Row -> string

    constructor (rows: map<int, Stored>, time: Row -> string)
      ensures this.rows == rows && this.time == time && log == []
    {
      this.rows, this.time, log := rows, time, [];
    }

    /** `insertData`: INSERT with ON CONFLICT DO NOTHING, row by row. */
    method InsertData(result: seq<Row>)
      requires Ascending(result)
      modifies this
      ensures Inserted(old(rows), rows, SetOf(result), time) && log == old(log) + result
      ensures forall id :: id in rows <==> id in old(rows) || exists r :: r in result && r.id == id
      ensures forall id | id in old(rows) :: rows[id] == old(rows)[id]
      ensures forall r | r in result && r.id !in old(rows) :: rows[r.id] == Stored(r, time(r))
    {
      hide Inserted, Ascending;
      InsertedNothing(rows, time);
      var i := 0;
      assert SetOf(result[..0]) == {};
      while i < |result|
        invariant i <= |result| && Inserted(old(rows), rows, SetOf(result[..i]), time) && log == old(log) + result[..i]
      {
        var item := result[i];
        InsertedMore(old(rows), rows, result, i, time);
        if item.id !in rows { rows := rows[item.id := Stored(item, time(item))]; }
        log := log + [item];
        i := i + 1;
      }
      assert result[..i] == result;
      InsertedIs(old(rows), rows, result, time);
    }

    /** `nextBatch`: the pages behind lastId. No row is skipped or given to INSERT twice. */
    method NextBatch(source: set<Row>, start: int, end: int, lastId: int) returns (ghost page: seq<Row>)
      requires UniqueIds(source)
      modifies this
      ensures Inserted(old(rows), rows, Matching(source, start, end, Some(lastId)), time)
      ensures log == old(log) + page && Ascending(page) && SetOf(page) == Matching(source, start, end, Some(lastId))
      decreases Matching(source, start, end, Some(lastId))
    {
      hide Matching, Inserted;
      var result := Query(source, start, end, Some(lastId));
      page := result;
      if |result| == 0 {
        InsertedNothing(rows, time);
        assert SetOf(result) == {};
        return;
      }
      page := Pages(source, start, end, Some(lastId), result);
    }

    /** What `run` and `nextBatch` do with a page that is not empty. */
    method Pages(source: set<Row>, start: int, end: int, lastId: Option<int>, result: seq<Row>)
      returns (ghost page: seq<Row>)
      requires UniqueIds(source) && IsPage(result, Matching(source, start, end, lastId), PAGE) && result != []
      modifies this
      ensures Inserted(old(rows), rows, Matching(source, start, end, lastId), time)
      ensures log == old(log) + page && Ascending(page) && SetOf(page) == Matching(source, start, end, lastId)
      decreases Matching(source, start, end, lastId), 0
    {
      hide Matching, Inserted;
      BehindPage(source, start, end, lastId, result);
      MatchingUnique(source, start, end, lastId);
      var last := result[|result| - 1].id;
      ghost var before := rows;
      InsertData(result);
      ghost var between := rows;
      var rest := NextBatch(source, start, end, last);
      assert Matching(source, start, end, lastId) == SetOf(result) + SetOf(rest);
      InsertedOn(before, between, rows, SetOf(result), SetOf(rest), time);
      page := result + rest;
      InOrder(result, rest, last);
    }

    /** `run`: one window of time. */
    method RunWindow(source: set<Row>, start: int, end: int) returns (ghost page: seq<Row>)
      requires UniqueIds(source)
      modifies this
      ensures Inserted(old(rows), rows, Matching(source, start, end, None), time)
      ensures log == old(log) + page && Ascending(page) && SetOf(page) == Matching(source, start, end, None)
      ensures forall r :: r in page <==> r in source && end < r.epochtime <= start
    {
      InMatching(source, start, end, None);
      hide Matching, Inserted;
      var result := Query(source, start, end, None);
      page := result;
      if |result| == 0 {
        InsertedNothing(rows, time);
        assert SetOf(result) == {};
        return;
      }
      page := Pages(source, start, end, None, result);
    }

    /** The loop of `main`: windows of a day, as long as a whole one fits. */
    method Migrate(source: set<Row>, starttime: int, endtime: int) returns (ghost pages: seq<Row>)
      requires UniqueIds(source)
      modifies this
      ensures Inserted(old(rows), rows, Migrated(source, starttime, endtime), time)
      ensures log == old(log) + pages && SetOf(pages) == Migrated(source, starttime, endtime) && NoRepeat(pages)
      ensures forall id :: id in rows <==> id in old(rows) || exists r :: r in pages && r.id == id
      ensures forall id | id in old(rows) :: rows[id] == old(rows)[id]
      ensures forall r | r in pages && r.id !in old(rows) :: rows[r.id] == Stored(r, time(r))
    {
      hide Matching, Inserted, WindowCount, NoRepeat, Ascending;
      var start, et := starttime, starttime - DAY;
      ghost var k: nat := 0;
      pages := [];
      InsertedNothing(rows, time);
      NoWindow(source, starttime);
      NothingRepeats();
      while et >= endtime
        invariant start == starttime - k * DAY && et == start - DAY && (k > 0 ==> start >= endtime)
        invariant Inserted(old(rows), rows, Matching(source, starttime, start, None), time)
        invariant log == old(log) + pages && NoRepeat(pages) && SetOf(pages) == Matching(source, starttime, start, None)
        decreases et - endtime
      {
        ghost var between := rows;
        var window := RunWindow(source, start, et);
        Tiles(source, starttime, start, et);
        MatchingUnique(source, starttime, et, None);
        InsertedOn(old(rows), between, rows, Matching(source, starttime, start, None),
          Matching(source, start, et, None), time);
        Apart(pages, window);
        pages := pages + window;
        start := et;
        et := start - DAY;
        k := k + 1;
      }
      Windows(starttime, endtime, k);
      InsertedIs(old(rows), rows, pages, time);
    }

    /** After a run, a second one adds nothing. */
    method MigrateTwice(source: set<Row>, starttime: int, endtime: int) returns (once: map<int, Stored>)
      requires UniqueIds(source)
      modifies this
      ensures Inserted(old(rows), once, Migrated(source, starttime, endtime), time) && rows == once
    {
      hide Inserted, Migrated;
      var first := Migrate(source, starttime, endtime);
      once := rows;
      var second := Migrate(source, starttime, endtime);
      SecondRun(old(rows), once, rows, Migrated(source, starttime, endtime), time);
    }
  }

  lemma NothingRepeats()
    ensures NoRepeat([]) && SetOf([]) == {}
  {
  }

  lemma InOrder(result: seq<Row>, rest: seq<Row>, last: int)
    requires Ascending(result) && Ascending(rest) && result != [] && last == result[|result| - 1].id
    requires forall r | r in SetOf(rest) :: r.id > last
    ensures Ascending(result + rest) && SetOf(result + rest) == SetOf(result) + SetOf(rest)
  {
  }
}
