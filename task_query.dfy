/**
 * The read side of the task table: the two list queries of `TaskDao` and `getTasks`,
 * which picks one of them by sort order. Both queries select with the same WHERE clause
 * and order by `important DESC` and then by the name or by the creation time.
 */
module TaskQuery {
  import opened TaskData
  import opened Strings
  import opened Preferences

  /**
   * The table's invariant: every row is stored under its own id, and no row has the
   * unassigned id 0 (Room replaces 0 by a generated key on insert).
   */
  ghost predicate WellKeyed(table: map<int, Task>) {
    forall k :: k in table ==> table[k].id == k && k != UNASSIGNED_ID
  }

  /**
   * The WHERE clause as written in both queries:
   * `(completed != :hideCompleted OR completed = 0) AND name LIKE '%' || :searchQuery || '%'`,
   * with LIKE read as a plain substring test.
   */
  predicate Selected(t: Task, searchQuery: string, hideCompleted: bool) {
    (t.completed != hideCompleted || !t.completed) && Contains(t.name, searchQuery)
  }

  /** The WHERE clause keeps a task iff completed tasks are shown or it is not completed, and its name contains the query. */
  lemma SelectedIff(t: Task, searchQuery: string, hideCompleted: bool)
    ensures Selected(t, searchQuery, hideCompleted) <==>
      (!hideCompleted || !t.completed) && exists i :: OccursAt(t.name, searchQuery, i)
  {
  }

  /** The secondary ORDER BY key: `name` for BY_NAME, `created` for BY_DATE, ascending. */
  predicate KeyLe(order: SortOrder, a: Task, b: Task) {
    match order
    case ByName => LexLe(a.name, b.name)
    case ByDate => a.created <= b.created
  }

  /** `a` may come before `b` under `ORDER BY important DESC, <key>`. */
  predicate Precedes(order: SortOrder, a: Task, b: Task) {
    (a.important && !b.important) || (a.important == b.important && KeyLe(order, a, b))
  }

  lemma PrecedesTotal(order: SortOrder, a: Task, b: Task)
    ensures Precedes(order, a, b) || Precedes(order, b, a)
  {
    if order == ByName { LexLeTotal(a.name, b.name); }
  }

  lemma PrecedesTransitive(order: SortOrder, a: Task, b: Task, c: Task)
    requires Precedes(order, a, b) && Precedes(order, b, c)
    ensures Precedes(order, a, c)
  {
    if order == ByName && a.important == b.important == c.important {
      LexLeTransitive(a.name, b.name, c.name);
    }
  }

  /** A list obeys the ORDER BY: every element may come before every later one. */
  ghost predicate Sorted(order: SortOrder, s: seq<Task>) {
    forall i, j :: 0 <= i < j < |s| ==> Precedes(order, s[i], s[j])
  }

  /** The rows that pass the WHERE clause, in their original order. */
  function Select(rows: seq<Task>, searchQuery: string, hideCompleted: bool): (r: seq<Task>)
    ensures multiset(r) <= multiset(rows)
    ensures forall t :: t in r <==> t in rows && Selected(t, searchQuery, hideCompleted)
  {
    if rows == [] then []
    else
      assert rows == [rows[0]] + rows[1..];
      (if Selected(rows[0], searchQuery, hideCompleted) then [rows[0]] else [])
        + Select(rows[1..], searchQuery, hideCompleted)
  }

  /** A task that may precede the head of a sorted list may precede all of it. */
  lemma PrecedesSorted(order: SortOrder, t: Task, s: seq<Task>)
    requires Sorted(order, s) && s != [] && Precedes(order, t, s[0])
    ensures forall x :: x in s ==> Precedes(order, t, x)
  {
    forall x | x in s ensures Precedes(order, t, x) {
      var j :| 0 <= j < |s| && s[j] == x;
      if j > 0 { PrecedesTransitive(order, t, s[0], s[j]); }
    }
  }

  /** Putting in front of a sorted list an element that may precede all of it keeps it sorted. */
  lemma ConsSorted(order: SortOrder, h: Task, s: seq<Task>)
    requires Sorted(order, s) && forall x :: x in s ==> Precedes(order, h, x)
    ensures Sorted(order, [h] + s)
  {
    var r := [h] + s;
    forall i, j | 0 <= i < j < |r| ensures Precedes(order, r[i], r[j]) {
      if i == 0 {
        assert r[j] == s[j - 1];
        assert s[j - 1] in s;
      } else {
        assert r[i] == s[i - 1] && r[j] == s[j - 1];
      }
    }
  }

  /** Places `t` into a sorted list after every element it must not precede. */
  function InsertInOrder(order: SortOrder, t: Task, s: seq<Task>): (r: seq<Task>)
    requires Sorted(order, s)
    ensures Sorted(order, r)
    ensures multiset(r) == multiset(s) + multiset{t}
  {
    if s == [] then [t]
    else if Precedes(order, t, s[0]) then
      PrecedesSorted(order, t, s);
      ConsSorted(order, t, s);
      [t] + s
    else
      var rest := InsertInOrder(order, t, s[1..]);
      InsertHeadPrecedes(order, t, s, rest);
      ConsSorted(order, s[0], rest);
      assert s == [s[0]] + s[1..];
      [s[0]] + rest
  }

  /** The head of a sorted list may precede everything of its tail with `t` inserted, when `t` cannot precede the head. */
  lemma InsertHeadPrecedes(order: SortOrder, t: Task, s: seq<Task>, rest: seq<Task>)
    requires Sorted(order, s) && s != [] && !Precedes(order, t, s[0])
    requires multiset(rest) == multiset(s[1..]) + multiset{t}
    ensures forall x :: x in rest ==> Precedes(order, s[0], x)
  {
    PrecedesTotal(order, t, s[0]);
    forall x | x in rest ensures Precedes(order, s[0], x) {
      assert x in multiset(rest);
      if x != t {
        assert x in multiset(s[1..]);
        var j :| 0 <= j < |s[1..]| && s[1..][j] == x;
        assert s[j + 1] == x;
      }
    }
  }

  /** An insertion sort: one of the orders the ORDER BY allows (ties are left in no promised order). */
  function SortTasks(order: SortOrder, s: seq<Task>): (r: seq<Task>)
    ensures Sorted(order, r)
    ensures multiset(r) == multiset(s)
  {
    if s == [] then []
    else
      assert s == [s[0]] + s[1..];
      InsertInOrder(order, s[0], SortTasks(order, s[1..]))
  }

  lemma {:induction false} MinExists(keys: set<int>)
    requires keys != {}
    ensures exists m :: m in keys && forall j :: j in keys ==> m <= j
    decreases |keys|
  {
    NonEmptyHasElement(keys);
    var x :| x in keys;
    var others := keys - {x};
    if !exists y :: y in others {
      assert forall j :: j in keys ==> x <= j by {
        forall j | j in keys ensures x <= j {
          assert j !in others;
        }
      }
    } else {
      MinExists(others);
      var m :| m in others && forall j :: j in others ==> m <= j;
      var least := if x < m then x else m;
      assert forall j :: j in keys ==> j == x || j in others;
      assert least in keys && forall j :: j in keys ==> least <= j;
    }
  }

  lemma NonEmptyHasElement(keys: set<int>)
    requires keys != {}
    ensures exists x :: x in keys
  {
    if forall x :: x !in keys {
      assert false;
    }
  }

  function MinKey(keys: set<int>): (m: int)
    requires keys != {}
    ensures m in keys && forall j :: j in keys ==> m <= j
  {
    MinExists(keys);
    var m :| m in keys && forall j :: j in keys ==> m <= j;
    m
  }

  /** The rows of the table in ascending id order: the order in which the table is scanned. */
  function Rows(table: map<int, Task>): (r: seq<Task>)
    ensures forall t :: t in r <==> t in table.Values
    decreases |table|
  {
    if table == map[] then []
    else
      var k := MinKey(table.Keys);
      var rest := table - {k};
      assert rest.Keys == table.Keys - {k};
      assert |rest| < |table|;
      assert forall t :: t in table.Values <==> t == table[k] || t in rest.Values by {
        forall t | t in table.Values ensures t == table[k] || t in rest.Values {
          var j :| j in table && table[j] == t;
          if j != k { assert rest[j] == t; }
        }
      }
      [table[k]] + Rows(rest)
  }

  /** `getTasksSortedByName`: the WHERE clause, then `ORDER BY important DESC, name`. */
  function GetTasksSortedByName(table: map<int, Task>, searchQuery: string, hideCompleted: bool): (r: seq<Task>)
    ensures Sorted(ByName, r)
    ensures multiset(r) == multiset(Select(Rows(table), searchQuery, hideCompleted))
  {
    SortTasks(ByName, Select(Rows(table), searchQuery, hideCompleted))
  }

  /** `getTasksSortedByDateCreated`: the WHERE clause, then `ORDER BY important DESC, created`. */
  function GetTasksSortedByDateCreated(table: map<int, Task>, searchQuery: string, hideCompleted: bool): (r: seq<Task>)
    ensures Sorted(ByDate, r)
    ensures multiset(r) == multiset(Select(Rows(table), searchQuery, hideCompleted))
  {
    SortTasks(ByDate, Select(Rows(table), searchQuery, hideCompleted))
  }

  /**
   * `getTasks`: the list the screen shows for a query, a sort order and the hide-completed flag.
   * It holds exactly the table's tasks that pass the WHERE clause, in an order the ORDER BY allows.
   */
  function GetTasks(table: map<int, Task>, searchQuery: string, sortOrder: SortOrder, hideCompleted: bool): (r: seq<Task>)
    ensures Sorted(sortOrder, r)
    ensures forall t :: t in r <==> t in table.Values && Selected(t, searchQuery, hideCompleted)
  {
    var r := match sortOrder
      case ByDate => GetTasksSortedByDateCreated(table, searchQuery, hideCompleted)
      case ByName => GetTasksSortedByName(table, searchQuery, hideCompleted);
    assert forall t :: t in r <==> t in multiset(Select(Rows(table), searchQuery, hideCompleted));
    r
  }

  /** `getTasks` dispatches on the sort order: BY_DATE runs the created-ordered query, BY_NAME the name-ordered one. */
  lemma GetTasksDispatch(table: map<int, Task>, searchQuery: string, hideCompleted: bool)
    ensures GetTasks(table, searchQuery, ByDate, hideCompleted) == GetTasksSortedByDateCreated(table, searchQuery, hideCompleted)
    ensures GetTasks(table, searchQuery, ByName, hideCompleted) == GetTasksSortedByName(table, searchQuery, hideCompleted)
  {
  }

  /** The two queries select the same tasks, each as often: only the order differs. */
  lemma SortOrderDoesNotChangeSelection(table: map<int, Task>, searchQuery: string, hideCompleted: bool)
    ensures multiset(GetTasks(table, searchQuery, ByName, hideCompleted))
         == multiset(GetTasks(table, searchQuery, ByDate, hideCompleted))
  {
  }

  /** With completed tasks shown, every task whose name contains the query is listed, completed or not. */
  lemma ShowCompletedListsEveryMatch(table: map<int, Task>, searchQuery: string, sortOrder: SortOrder, t: Task)
    requires t in table.Values && Contains(t.name, searchQuery)
    ensures t in GetTasks(table, searchQuery, sortOrder, false)
  {
  }

  /** With completed tasks hidden, no completed task is listed. */
  lemma HideCompletedListsNoCompleted(table: map<int, Task>, searchQuery: string, sortOrder: SortOrder)
    ensures forall t :: t in GetTasks(table, searchQuery, sortOrder, true) ==> !t.completed
  {
  }

  /** Whatever the sort order, every important task comes before every task that is not important. */
  lemma ImportantFirst(table: map<int, Task>, searchQuery: string, sortOrder: SortOrder, hideCompleted: bool)
    ensures var r := GetTasks(table, searchQuery, sortOrder, hideCompleted);
      forall i, j :: 0 <= i < j < |r| && r[j].important ==> r[i].important
  {
  }

  /** Among tasks of equal importance, names ascend under BY_NAME and creation times under BY_DATE. */
  lemma SecondaryKeyAscends(table: map<int, Task>, searchQuery: string, sortOrder: SortOrder, hideCompleted: bool)
    ensures var r := GetTasks(table, searchQuery, sortOrder, hideCompleted);
      forall i, j :: 0 <= i < j < |r| && r[i].important == r[j].important ==>
        match sortOrder
        case ByName => LexLe(r[i].name, r[j].name)
        case ByDate => r[i].created <= r[j].created
  {
  }

  /** The ids of the tasks of a list. */
  function IdsOf(s: seq<Task>): set<int> {
    set t | t in s :: t.id
  }

  /** The ids of the rows that pass the WHERE clause. */
  function MatchingIds(table: map<int, Task>, searchQuery: string, hideCompleted: bool): set<int> {
    set k | k in table && Selected(table[k], searchQuery, hideCompleted)
  }

  /** Scanning a well-keyed table yields each task at most once. */
  lemma {:induction false} RowsAtMostOnce(table: map<int, Task>)
    requires WellKeyed(table)
    ensures forall t :: multiset(Rows(table))[t] <= 1
    decreases |table|
  {
    if table != map[] {
      var k := MinKey(table.Keys);
      var rest := table - {k};
      assert rest.Keys == table.Keys - {k};
      assert |rest| < |table|;
      RowsAtMostOnce(rest);
      forall j | j in rest ensures rest[j] != table[k] {
        assert rest[j].id == j && table[k].id == k;
      }
      assert table[k] !in Rows(rest);
      assert Rows(table) == [table[k]] + Rows(rest);
    }
  }

  /** An element found at two positions occurs at least twice. */
  lemma RepeatedElement(s: seq<Task>, i: int, j: int)
    requires 0 <= i < j < |s|
    ensures s[i] == s[j] ==> multiset(s)[s[i]] >= 2
  {
    assert s == s[..j] + s[j..];
    assert s[i] == s[..j][i];
    assert s[j] == s[j..][0];
  }

  /** A list with pairwise distinct ids has as many ids as elements. */
  lemma {:induction false} DistinctIdsCount(s: seq<Task>)
    requires forall i, j :: 0 <= i < j < |s| ==> s[i].id != s[j].id
    ensures |IdsOf(s)| == |s|
  {
    if s != [] {
      DistinctIdsCount(s[1..]);
      assert IdsOf(s) == {s[0].id} + IdsOf(s[1..]) by {
        assert s == [s[0]] + s[1..];
      }
      assert s[0].id !in IdsOf(s[1..]) by {
        forall t | t in s[1..] ensures t.id != s[0].id {
          var j :| 0 <= j < |s[1..]| && s[1..][j] == t;
          assert s[j + 1] == t;
        }
      }
    }
  }

  /**
   * On a well-keyed table the list is a permutation of the matching rows: every task that
   * passes the WHERE clause appears exactly once and nothing else appears.
   */
  lemma {:induction false} GetTasksOncePerMatch(table: map<int, Task>, searchQuery: string, sortOrder: SortOrder, hideCompleted: bool)
    requires WellKeyed(table)
    ensures var r := GetTasks(table, searchQuery, sortOrder, hideCompleted);
      && (forall i, j :: 0 <= i < j < |r| ==> r[i].id != r[j].id)
      && IdsOf(r) == MatchingIds(table, searchQuery, hideCompleted)
      && |r| == |MatchingIds(table, searchQuery, hideCompleted)|
  {
    var r := GetTasks(table, searchQuery, sortOrder, hideCompleted);
    var selected := Select(Rows(table), searchQuery, hideCompleted);
    assert multiset(r) == multiset(selected);
    RowsAtMostOnce(table);
    assert forall t :: multiset(r)[t] <= 1 by {
      forall t ensures multiset(r)[t] <= 1 {
        assert multiset(selected)[t] <= multiset(Rows(table))[t];
      }
    }
    forall i, j | 0 <= i < j < |r| ensures r[i].id != r[j].id {
      assert r[i] in table.Values && r[j] in table.Values;
      var ki :| ki in table && table[ki] == r[i];
      var kj :| kj in table && table[kj] == r[j];
      RepeatedElement(r, i, j);
    }
    assert IdsOf(r) == MatchingIds(table, searchQuery, hideCompleted) by {
      forall k | k in MatchingIds(table, searchQuery, hideCompleted) ensures k in IdsOf(r) {
        assert table[k] in r;
      }
      forall t | t in r ensures t.id in MatchingIds(table, searchQuery, hideCompleted) {
        var k :| k in table && table[k] == t;
      }
    }
    DistinctIdsCount(r);
  }
}
