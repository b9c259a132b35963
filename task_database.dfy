/**
 * The database's creation callback, which fills a new, empty table with eight sample
 * tasks, and what the list queries return on that table.
 */
module TaskDatabase {
  import opened TaskData
  import opened Strings
  import opened Preferences
  import opened TaskQuery
  import opened TaskDao

  /** The sample tasks in insertion order, none with an id yet; `created[i]` is the clock when the i-th is built. */
  function SeedTasks(created: seq<int>): (tasks: seq<Task>)
    requires |created| == 8
    ensures |tasks| == 8
    ensures forall i :: 0 <= i < 8 ==> tasks[i].id == UNASSIGNED_ID && tasks[i].created == created[i]
  {
    [ NewTask("Wash the dishes", created[0]),
      NewTask("Do the laundry", created[1]),
      NewTask("Buy groceries", created[2], important := true),
      NewTask("Prepare food", created[3], completed := true),
      NewTask("Call mom", created[4]),
      NewTask("Visit grandma", created[5], completed := true),
      NewTask("Repair my bike", created[6]),
      NewTask("Call Elon Musk", created[7]) ]
  }

  /** Exactly one sample task, "Buy groceries", is important. */
  lemma OneImportantSeed(created: seq<int>)
    requires |created| == 8
    ensures forall i :: 0 <= i < 8 ==> (SeedTasks(created)[i].important <==> i == 2)
    ensures SeedTasks(created)[2].name == "Buy groceries"
  {
  }

  /** Exactly two sample tasks, "Prepare food" and "Visit grandma", are completed. */
  lemma TwoCompletedSeeds(created: seq<int>)
    requires |created| == 8
    ensures forall i :: 0 <= i < 8 ==> (SeedTasks(created)[i].completed <==> i == 3 || i == 5)
    ensures SeedTasks(created)[3].name == "Prepare food" && SeedTasks(created)[5].name == "Visit grandma"
  {
  }

  /** The table holding the first `n` sample tasks, the i-th under the generated key `base + i`. */
  ghost function SeededTable(base: int, created: seq<int>, n: nat): map<int, Task>
    requires |created| == 8 && n <= 8
  {
    if n == 0 then map[]
    else var t := SeedTasks(created)[n - 1]; SeededTable(base, created, n - 1)[base + n - 1 := t.(id := base + n - 1)]
  }

  /** The keys of that table are `base` to `base + n - 1`, and the row under `base + i` is sample task `i`. */
  lemma {:induction false} SeededTableRows(base: int, created: seq<int>, n: nat)
    requires |created| == 8 && n <= 8
    ensures SeededTable(base, created, n).Keys == KeyRange(base, n)
    ensures forall i :: 0 <= i < n ==>
      SeededTable(base, created, n)[base + i] == SeedTasks(created)[i].(id := base + i)
  {
    if n > 0 {
      SeededTableRows(base, created, n - 1);
    }
  }

  /** The eight sample tasks under the keys `base` to `base + 7`, sample task `i` under `base + i`. */
  ghost predicate IsSeeded(rows: map<int, Task>, base: int, created: seq<int>) {
    && |created| == 8 && base > UNASSIGNED_ID
    && rows.Keys == KeyRange(base, 8)
    && forall i :: 0 <= i < 8 ==> rows[base + i] == SeedTasks(created)[i].(id := base + i)
  }

  /** The table `onCreate` leaves is seeded. */
  lemma SeededTableIsSeeded(base: int, created: seq<int>)
    requires |created| == 8 && base > UNASSIGNED_ID
    ensures IsSeeded(SeededTable(base, created, 8), base, created)
  {
    SeededTableRows(base, created, 8);
  }

  /**
   * `Callback.onCreate`: eight inserts into the new, empty table, in the listed order. Each
   * task is built with id 0, so each gets the next generated key: eight consecutive fresh ids,
   * starting at the table's next key.
   */
  method OnCreate(dao: TaskTable, created: seq<int>) returns (ids: seq<int>)
    requires dao.Valid() && dao.rows == map[] && |created| == 8
    modifies dao
    ensures dao.Valid() && dao.rows == SeededTable(old(dao.nextId), created, 8)
    ensures dao.nextId == old(dao.nextId) + 8
    ensures ids == [old(dao.nextId), old(dao.nextId) + 1, old(dao.nextId) + 2, old(dao.nextId) + 3,
                    old(dao.nextId) + 4, old(dao.nextId) + 5, old(dao.nextId) + 6, old(dao.nextId) + 7]
  {
    ghost var base := dao.nextId;
    var id0 := InsertSeed(dao, created, base, 0);
    var id1 := InsertSeed(dao, created, base, 1);
    var id2 := InsertSeed(dao, created, base, 2);
    var id3 := InsertSeed(dao, created, base, 3);
    var id4 := InsertSeed(dao, created, base, 4);
    var id5 := InsertSeed(dao, created, base, 5);
    var id6 := InsertSeed(dao, created, base, 6);
    var id7 := InsertSeed(dao, created, base, 7);
    ids := [id0, id1, id2, id3, id4, id5, id6, id7];
  }

  /** One of the eight inserts: sample task `n` gets the next generated key, `base + n`. */
  method InsertSeed(dao: TaskTable, created: seq<int>, ghost base: int, n: nat) returns (id: int)
    requires dao.Valid() && |created| == 8 && n < 8
    requires dao.rows == SeededTable(base, created, n) && dao.nextId == base + n
    modifies dao
    ensures dao.Valid() && dao.rows == SeededTable(base, created, n + 1) && dao.nextId == base + n + 1
    ensures id == base + n
  {
    id := dao.Insert(SeedTasks(created)[n]);
  }

  /** The `n` consecutive keys from `lo` on. */
  function KeyRange(lo: int, n: nat): (keys: set<int>)
    ensures forall k :: k in keys <==> lo <= k < lo + n
    ensures |keys| == n
  {
    if n == 0 then {} else
      var below := KeyRange(lo, n - 1);
      assert lo + n - 1 !in below;
      below + {lo + n - 1}
  }

  /** The row of the seeded table stored under key `k` is sample task `k - base`. */
  lemma SeededRow(rows: map<int, Task>, base: int, created: seq<int>, t: Task)
    requires IsSeeded(rows, base, created) && t in rows.Values
    ensures base <= t.id < base + 8 && t == SeedTasks(created)[t.id - base].(id := t.id)
  {
    var k :| k in rows && rows[k] == t;
    assert rows[base + (k - base)] == SeedTasks(created)[k - base].(id := k);
  }

  /** The seeded table is well keyed. */
  lemma SeededWellKeyed(rows: map<int, Task>, base: int, created: seq<int>)
    requires IsSeeded(rows, base, created)
    ensures WellKeyed(rows)
  {
    forall k | k in rows ensures rows[k].id == k && k != UNASSIGNED_ID {
      assert rows[base + (k - base)] == SeedTasks(created)[k - base].(id := k);
    }
  }

  /** Every name contains the empty query. */
  lemma EmptyQueryMatches(t: Task)
    ensures Contains(t.name, "")
  {
    assert "" <= t.name;
  }

  /** With an empty query and completed tasks shown, every seeded row matches. */
  lemma SeededAllMatch(rows: map<int, Task>, base: int, created: seq<int>)
    requires IsSeeded(rows, base, created)
    ensures MatchingIds(rows, "", false) == KeyRange(base, 8)
  {
    forall k | k in rows ensures Selected(rows[k], "", false) {
      EmptyQueryMatches(rows[k]);
    }
  }

  /** The completed seeded rows are the ones under `base + 3` and `base + 5`, named "Prepare food" and "Visit grandma". */
  lemma SeededCompleted(rows: map<int, Task>, base: int, created: seq<int>)
    requires IsSeeded(rows, base, created)
    ensures forall k :: k in rows ==> (rows[k].completed <==> k == base + 3 || k == base + 5)
    ensures forall t :: t in rows.Values && (t.name == "Prepare food" || t.name == "Visit grandma") ==> t.completed
  {
    TwoCompletedSeeds(created);
    forall k | k in rows ensures rows[k].completed <==> k == base + 3 || k == base + 5 {
      assert rows[base + (k - base)] == SeedTasks(created)[k - base].(id := k);
    }
    forall t | t in rows.Values && (t.name == "Prepare food" || t.name == "Visit grandma") ensures t.completed {
      SeededRow(rows, base, created, t);
    }
  }

  /** With an empty query and completed tasks hidden, six seeded rows match: all but keys `base + 3` and `base + 5`. */
  lemma SeededActiveMatch(rows: map<int, Task>, base: int)
    requires rows.Keys == KeyRange(base, 8)
    requires forall k :: k in rows ==> (rows[k].completed <==> k == base + 3 || k == base + 5)
    ensures MatchingIds(rows, "", true) == KeyRange(base, 8) - {base + 3, base + 5}
  {
    forall k | k in rows ensures Selected(rows[k], "", true) <==> !rows[k].completed {
      EmptyQueryMatches(rows[k]);
    }
  }

  /** Removing two distinct members of a set makes it two smaller. */
  lemma RemoveTwo(keys: set<int>, a: int, b: int)
    requires a in keys && b in keys && a != b
    ensures |keys - {a, b}| == |keys| - 2
  {
    var less := keys - {a};
    assert |less| == |keys| - 1;
    assert keys - {a, b} == less - {b};
  }

  /** The only important seeded row is "Buy groceries", under key `base + 2`. */
  lemma SeededImportant(rows: map<int, Task>, base: int, created: seq<int>)
    requires IsSeeded(rows, base, created)
    ensures base + 2 in rows && rows[base + 2].important && rows[base + 2].name == "Buy groceries"
    ensures forall t :: t in rows.Values && t.important ==> t.name == "Buy groceries"
  {
    OneImportantSeed(created);
    forall t | t in rows.Values && t.important ensures t.name == "Buy groceries" {
      SeededRow(rows, base, created, t);
    }
  }

  /** The listing with every row shown, on any well-keyed table of eight rows whose only important task is "Buy groceries". */
  lemma ListShowsAllOf(rows: map<int, Task>, base: int, sortOrder: SortOrder)
    requires WellKeyed(rows) && rows.Keys == KeyRange(base, 8)
    requires MatchingIds(rows, "", false) == rows.Keys
    requires base + 2 in rows && rows[base + 2].important && rows[base + 2].name == "Buy groceries"
    requires forall t :: t in rows.Values && t.important ==> t.name == "Buy groceries"
    ensures var r := GetTasks(rows, "", sortOrder, false);
      |r| == 8 && r[0].name == "Buy groceries"
  {
    var r := GetTasks(rows, "", sortOrder, false);
    GetTasksOncePerMatch(rows, "", sortOrder, false);
    assert |r| == |KeyRange(base, 8)| == 8;
    var groceries := rows[base + 2];
    EmptyQueryMatches(groceries);
    ShowCompletedListsEveryMatch(rows, "", sortOrder, groceries);
    var j :| 0 <= j < |r| && r[j] == groceries;
    assert j == 0 || Precedes(sortOrder, r[0], r[j]);
    assert r[0] in rows.Values && r[0].important;
  }

  /**
   * On the seeded table, the empty query with completed tasks shown lists all eight tasks,
   * "Buy groceries" first, whatever the sort order.
   */
  lemma SeededListShowsAll(rows: map<int, Task>, base: int, created: seq<int>, sortOrder: SortOrder)
    requires IsSeeded(rows, base, created)
    ensures var r := GetTasks(rows, "", sortOrder, false);
      |r| == 8 && r[0].name == "Buy groceries"
  {
    SeededWellKeyed(rows, base, created);
    SeededAllMatch(rows, base, created);
    SeededImportant(rows, base, created);
    ListShowsAllOf(rows, base, sortOrder);
  }

  /** The listing with completed rows hidden, on any well-keyed table of eight rows of which exactly two are completed. */
  lemma ListHidesCompletedOf(rows: map<int, Task>, base: int, sortOrder: SortOrder)
    requires WellKeyed(rows) && rows.Keys == KeyRange(base, 8)
    requires forall k :: k in rows ==> (rows[k].completed <==> k == base + 3 || k == base + 5)
    requires forall t :: t in rows.Values && (t.name == "Prepare food" || t.name == "Visit grandma") ==> t.completed
    ensures var r := GetTasks(rows, "", sortOrder, true);
      && |r| == 6
      && (forall t :: t in r ==> !t.completed)
      && (forall t :: t in r ==> t.name != "Prepare food" && t.name != "Visit grandma")
  {
    var r := GetTasks(rows, "", sortOrder, true);
    GetTasksOncePerMatch(rows, "", sortOrder, true);
    SeededActiveMatch(rows, base);
    RemoveTwo(KeyRange(base, 8), base + 3, base + 5);
    assert |r| == 6;
    forall t | t in r ensures !t.completed {
      assert Selected(t, "", true);
    }
  }

  /**
   * On the seeded table, the empty query with completed tasks hidden lists the six tasks
   * that are not completed, so neither "Prepare food" nor "Visit grandma".
   */
  lemma SeededListHidesCompleted(rows: map<int, Task>, base: int, created: seq<int>, sortOrder: SortOrder)
    requires IsSeeded(rows, base, created)
    ensures var r := GetTasks(rows, "", sortOrder, true);
      && |r| == 6
      && (forall t :: t in r ==> !t.completed)
      && (forall t :: t in r ==> t.name != "Prepare food" && t.name != "Visit grandma")
  {
    SeededWellKeyed(rows, base, created);
    SeededCompleted(rows, base, created);
    ListHidesCompletedOf(rows, base, sortOrder);
  }
}
