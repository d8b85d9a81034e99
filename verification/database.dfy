/**
 * The data-access layer: the `tasks` table as the MySQL pool sees it, the SQL
 * statements the server issues against it, and the Database object's own
 * operations (query, getOne, the startup check, table creation and seeding).
 */
module Database {
  import opened Wrappers
  import opened Tasks

  const TableName := "tasks"

  /**
   * Stands for the engine's error for a statement against a table that has not been
   * created; the engine's own text also names the schema (`Table '<schema>.tasks' doesn't exist`).
   */
  const NoSuchTable := "Table 'tasks' doesn't exist"

  /**
   * Stands for the engine's error for `UPDATE tasks SET  WHERE id = ?`, the statement
   * an empty patch produces; the engine's own text goes on to quote the statement.
   */
  const EmptySetClause := "You have an error in your SQL syntax"

  /** The titles seeded by the server's startup check. */
  const SampleTasks: seq<string> := [
    "Aprender a desplegar en Railway",
    "Configurar MySQL en la nube",
    "Crear API REST con Express",
    "Conectar React con backend remoto"
  ]

  /** The outcome of the startup check: ready to serve, or a fatal error (the process exits). */
  datatype Startup = Ready | Fatal(message: string)

  /**
   * `getOne`: the first row of a query's result, `None` for an empty result; a failed
   * query's error is passed on unchanged (`query` rethrows it).
   */
  function GetOne(results: Result<seq<Task>, string>): (r: Result<Option<Task>, string>)
    ensures r.Failure? <==> results.Failure?
    ensures r.Failure? ==> r.error == results.error
    ensures r.Success? ==> (r.value.None? <==> results.value == [])
    ensures r.Success? && r.value.Some? ==> r.value.value == results.value[0]
  {
    match results
    case Failure(e) => Failure(e)
    case Success(rows) => if rows == [] then Success(None) else Success(Some(rows[0]))
  }

  /** The startup check's test on the `SHOW TABLES` listing: create the table unless one is named `tasks`. */
  function NeedsCreate(tables: seq<string>): (r: bool)
    ensures r <==> TableName !in tables
  {
    |tables| == 0 || !(exists i :: 0 <= i < |tables| && tables[i] == TableName)
  }

  /** Some row of `rows` has exactly this title. */
  predicate HasTitle(rows: map<int, Task>, title: string)
  {
    exists id :: id in rows && rows[id].title == title
  }

  /** `s` lists every row of `rows` exactly once, each as stored. */
  predicate IsListingOf(s: seq<Task>, rows: map<int, Task>)
  {
    && (forall i :: 0 <= i < |s| ==> s[i].id in rows && rows[s[i].id] == s[i])
    && (forall id :: id in rows ==> exists i :: 0 <= i < |s| && s[i].id == id)
    && (forall i, j :: 0 <= i < j < |s| ==> s[i].id != s[j].id)
  }

  /** `ORDER BY created_at DESC`: creation times never increase along `s`. */
  predicate NewestFirst(s: seq<Task>)
  {
    forall i, j :: 0 <= i < j < |s| ==> s[i].createdAt >= s[j].createdAt
  }

  /**
   * In a newest-first listing, a row created strictly later than another comes
   * before it.
   */
  lemma NewerListedFirst(s: seq<Task>, rows: map<int, Task>, older: int, newer: int)
    requires IsListingOf(s, rows) && NewestFirst(s)
    requires older in rows && newer in rows && rows[older].createdAt < rows[newer].createdAt
    ensures exists i, j :: 0 <= i < j < |s| && s[i] == rows[newer] && s[j] == rows[older]
  {
    var i :| 0 <= i < |s| && s[i].id == newer;
    var j :| 0 <= j < |s| && s[j].id == older;
    assert s[i] == rows[newer] && s[j] == rows[older];
    assert i < j;
  }

  /**
   * A row after `UPDATE tasks SET <present fields> WHERE id = ?` at time `now`: the
   * present fields are replaced, the id and creation time are kept, and `updated_at`
   * (ON UPDATE CURRENT_TIMESTAMP) moves to `now` only when some column value changed.
   */
  function Patched(t: Task, p: Patch, now: nat): (u: Task)
    ensures u.id == t.id && u.createdAt == t.createdAt
    ensures u.title == (if p.title.Some? then p.title.value else t.title)
    ensures u.completed == (if p.completed.Some? then p.completed.value else t.completed)
    ensures u.updatedAt == (if u.title != t.title || u.completed != t.completed then now else t.updatedAt)
  {
    var title := if p.title.Some? then p.title.value else t.title;
    var completed := if p.completed.Some? then p.completed.value else t.completed;
    var changed := title != t.title || completed != t.completed;
    t.(title := title, completed := completed, updatedAt := if changed then now else t.updatedAt)
  }

  /** Every row of `before` is still in `after`, unchanged. */
  predicate Extends(before: map<int, Task>, after: map<int, Task>)
  {
    forall id :: id in before ==> id in after && after[id] == before[id]
  }

  /** A set of integers inside the half-open range [lo, hi) has at most hi - lo elements. */
  lemma {:induction false} RangeBound(s: set<int>, lo: int, hi: int)
    requires forall x :: x in s ==> lo <= x < hi
    ensures |s| <= if hi - lo < 0 then 0 else hi - lo
    decreases hi - lo
  {
    if hi <= lo {
      assert s == {} by { forall x | x in s ensures false { } }
    } else {
      var s' := s - {hi - 1};
      RangeBound(s', lo, hi - 1);
      assert |s| <= |s'| + 1;
    }
  }

  /** The contents of the `tasks` table: rows by id, the AUTO_INCREMENT counter and the clock. */
  datatype TableState = TableState(rows: map<int, Task>, nextId: int, clock: nat)

  /**
   * What the engine keeps true of the table: every row is stored under its own id,
   * ids lie below the AUTO_INCREMENT counter (so an id is never handed out twice),
   * timestamps are not in the future and `updated_at` is not before `created_at`,
   * and a larger id never has an earlier creation time.
   */
  ghost predicate WellFormed(st: TableState)
  {
    && 1 <= st.nextId
    && (forall id :: id in st.rows ==>
          1 <= id < st.nextId && st.rows[id].id == id && st.rows[id].createdAt <= st.rows[id].updatedAt <= st.clock)
    && (forall a, b :: a in st.rows && b in st.rows && a < b ==> st.rows[a].createdAt <= st.rows[b].createdAt)
  }

  /** The table after `INSERT INTO tasks (title) VALUES (?)` succeeds. */
  function InsertRow(st: TableState, title: string): (r: TableState)
    ensures r.nextId == st.nextId + 1 && r.clock == st.clock + 1
    ensures r.rows.Keys == st.rows.Keys + {st.nextId}
    ensures r.rows[st.nextId].title == title && !r.rows[st.nextId].completed
    ensures forall id :: id in st.rows && id != st.nextId ==> r.rows[id] == st.rows[id]
    ensures WellFormed(st) ==> st.nextId !in st.rows && WellFormed(r)
  {
    var now := st.clock + 1;
    TableState(st.rows[st.nextId := Task(st.nextId, title, false, now, now)], st.nextId + 1, now)
  }

  /** One round of the seeding loop on a healthy store: insert `title` unless a row already has it. */
  function SeedStep(st: TableState, title: string): (r: TableState)
    ensures HasTitle(r.rows, title)
    ensures HasTitle(st.rows, title) ==> r == st
    ensures WellFormed(st) ==>
      && WellFormed(r)
      && SeededFrom(st.rows, st.nextId, r.rows, r.nextId, [title])
      && st.nextId <= r.nextId <= st.nextId + 1
  {
    if HasTitle(st.rows, title) then st
    else
      var r := InsertRow(st, title);
      assert r.rows[st.nextId].title == title;
      r
  }

  /** The whole seeding loop on a healthy store: the titles are taken in order. */
  function SeedAll(st: TableState, titles: seq<string>): (r: TableState)
    ensures st.rows.Keys <= r.rows.Keys
    ensures |titles| > 0 ==> HasTitle(r.rows, titles[|titles| - 1])
    decreases |titles|
  {
    if |titles| == 0 then st
    else SeedStep(SeedAll(st, titles[..|titles| - 1]), titles[|titles| - 1])
  }

  /**
   * Seeding keeps every existing row as it was, adds at most one row per title (each
   * with a fresh id, a seeded title and `completed` false), and afterwards every
   * title is present.
   */
  lemma {:induction false} SeedAllAdds(st: TableState, titles: seq<string>)
    requires WellFormed(st)
    ensures var r := SeedAll(st, titles);
      && WellFormed(r)
      && SeededFrom(st.rows, st.nextId, r.rows, r.nextId, titles)
      && st.nextId <= r.nextId <= st.nextId + |titles|
      && (forall t :: t in titles ==> HasTitle(r.rows, t))
    decreases |titles|
  {
    if |titles| > 0 {
      var init := titles[..|titles| - 1];
      var last := titles[|titles| - 1];
      SeedAllAdds(st, init);
      var m := SeedAll(st, init);
      var r := SeedStep(m, last);
      SeededTrans(st.rows, st.nextId, m.rows, m.nextId, r.rows, r.nextId, init, [last]);
      assert init + [last] == titles;
      forall t | t in titles ensures HasTitle(r.rows, t) {
        if t in init {
          HasTitleKept(m.rows, r.rows, t);
        }
      }
    }
  }

  /** Seeding a table that already holds every title changes nothing. */
  lemma {:induction false} SeedAllPresent(st: TableState, titles: seq<string>)
    requires forall t :: t in titles ==> HasTitle(st.rows, t)
    ensures SeedAll(st, titles) == st
    decreases |titles|
  {
    if |titles| > 0 {
      var init := titles[..|titles| - 1];
      assert forall t :: t in init ==> t in titles;
      SeedAllPresent(st, init);
    }
  }

  /** Seeding is idempotent: a second run adds no rows and changes nothing. */
  lemma SeedAllTwice(st: TableState, titles: seq<string>)
    requires WellFormed(st)
    ensures SeedAll(SeedAll(st, titles), titles) == SeedAll(st, titles)
  {
    SeedAllAdds(st, titles);
    SeedAllPresent(SeedAll(st, titles), titles);
  }

  /** Seeding adds at most as many rows as there are titles. */
  lemma SeedAllBound(st: TableState, titles: seq<string>)
    requires WellFormed(st)
    ensures |SeedAll(st, titles).rows| <= |st.rows| + |titles|
  {
    SeedAllAdds(st, titles);
    var r := SeedAll(st, titles);
    AddedBound(st.rows, r.rows, st.nextId, r.nextId);
  }

  /**
   * The database behind the connection pool, reduced to the `tasks` table: whether
   * it exists, its rows by id, the AUTO_INCREMENT counter and the clock that stamps
   * `created_at` and `updated_at`.
   */
  class Database {
    var hasTable: bool
    var rows: map<int, Task>
    var nextId: int
    var clock: nat

    function State(): TableState
      reads this
    {
      TableState(rows, nextId, clock)
    }

    ghost predicate Valid()
      reads this
    {
      && WellFormed(State())
      && (!hasTable ==> rows == map[] && nextId == 1)
    }

    /** A database in which the `tasks` table has not been created yet. */
    constructor ()
      ensures Valid() && !hasTable && rows == map[] && nextId == 1 && clock == 0
    {
      hasTable, rows, nextId, clock := false, map[], 1, 0;
    }

    /** `CREATE TABLE IF NOT EXISTS tasks (...)`: creates an empty table when it is missing, else does nothing. */
    method CreateTableIfNotExists(fault: Option<string>) returns (r: Result<(), string>)
      requires Valid()
      modifies this
      ensures Valid()
      ensures fault.Some? ==> r == Failure(fault.value)
      ensures fault.None? ==> r.Success? && hasTable
      ensures rows == old(rows) && nextId == old(nextId) && clock == old(clock)
      ensures fault.Some? ==> hasTable == old(hasTable)
    {
      if fault.Some? {
        return Failure(fault.value);
      }
      hasTable := true;
      r := Success(());
    }

    /** `SELECT * FROM tasks WHERE id = ?`: the row with that id, if any. */
    method SelectById(id: int, fault: Option<string>) returns (r: Result<seq<Task>, string>)
      requires Valid()
      ensures fault.Some? ==> r == Failure(fault.value)
      ensures fault.None? && !hasTable ==> r == Failure(NoSuchTable)
      ensures r.Success? <==> fault.None? && hasTable
      ensures r.Success? ==> (r.value == [] <==> id !in rows)
      ensures r.Success? && id in rows ==> r.value == [rows[id]]
    {
      if fault.Some? {
        return Failure(fault.value);
      }
      if !hasTable {
        return Failure(NoSuchTable);
      }
      r := Success(if id in rows then [rows[id]] else []);
    }

    /** `SELECT * FROM tasks ORDER BY created_at DESC`: every row once, newest first. */
    method SelectAllNewestFirst(fault: Option<string>) returns (r: Result<seq<Task>, string>)
      requires Valid()
      ensures fault.Some? ==> r == Failure(fault.value)
      ensures fault.None? && !hasTable ==> r == Failure(NoSuchTable)
      ensures r.Success? <==> fault.None? && hasTable
      ensures r.Success? ==> IsListingOf(r.value, rows) && NewestFirst(r.value)
    {
      if fault.Some? {
        return Failure(fault.value);
      }
      if !hasTable {
        return Failure(NoSuchTable);
      }
      var out: seq<Task> := [];
      var k := nextId - 1;
      while k > 0
        invariant 0 <= k < nextId
        invariant CollectedAbove(out, rows, k)
      {
        ListingStep(out, rows, k);
        if k in rows {
          out := out + [rows[k]];
        }
        k := k - 1;
      }
      ListingDone(out, rows);
      r := Success(out);
    }

    /** `SELECT id FROM tasks WHERE title = ?`: the ids of the rows with exactly that title. */
    method SelectIdsByTitle(title: string, fault: Option<string>) returns (r: Result<seq<int>, string>)
      requires Valid()
      ensures fault.Some? ==> r == Failure(fault.value)
      ensures fault.None? && !hasTable ==> r == Failure(NoSuchTable)
      ensures r.Success? <==> fault.None? && hasTable
      ensures r.Success? ==> forall id :: id in r.value <==> id in rows && rows[id].title == title
    {
      if fault.Some? {
        return Failure(fault.value);
      }
      if !hasTable {
        return Failure(NoSuchTable);
      }
      var ids: seq<int> := [];
      var k := 1;
      while k < nextId
        invariant 1 <= k <= nextId
        invariant forall id :: id in ids <==> 1 <= id < k && id in rows && rows[id].title == title
      {
        if k in rows && rows[k].title == title {
          ids := ids + [k];
        }
        k := k + 1;
      }
      r := Success(ids);
    }

    /**
     * `INSERT INTO tasks (title) VALUES (?)`: a new row with the next AUTO_INCREMENT id,
     * `completed` at its default FALSE and both timestamps at the current time.
     */
    method Insert(title: string, fault: Option<string>) returns (r: Result<int, string>)
      requires Valid()
      modifies this
      ensures Valid() && hasTable == old(hasTable)
      ensures fault.Some? ==> r == Failure(fault.value)
      ensures fault.None? && !hasTable ==> r == Failure(NoSuchTable)
      ensures r.Success? <==> fault.None? && hasTable
      ensures r.Failure? ==> rows == old(rows) && nextId == old(nextId) && clock == old(clock)
      ensures r.Success? ==>
        && r.value == old(nextId) && r.value !in old(rows)
        && nextId == old(nextId) + 1 && clock == old(clock) + 1
        && rows == old(rows)[r.value := Task(r.value, title, false, clock, clock)]
    {
      if fault.Some? {
        return Failure(fault.value);
      }
      if !hasTable {
        return Failure(NoSuchTable);
      }
      var id := nextId;
      clock := clock + 1;
      rows := rows[id := Task(id, title, false, clock, clock)];
      nextId := nextId + 1;
      r := Success(id);
    }

    /**
     * `UPDATE tasks SET <fields of p> = ? WHERE id = ?`; the result is the number of
     * rows matched (the pool reports found rows). A patch with no field yields an
     * empty SET clause, which the engine rejects as a syntax error.
     */
    method Update(id: int, p: Patch, fault: Option<string>) returns (r: Result<nat, string>)
      requires Valid()
      modifies this
      ensures Valid() && hasTable == old(hasTable) && nextId == old(nextId)
      ensures fault.Some? ==> r == Failure(fault.value)
      ensures fault.None? && p == Patch(None, None) ==> r == Failure(EmptySetClause)
      ensures fault.None? && p != Patch(None, None) && !hasTable ==> r == Failure(NoSuchTable)
      ensures r.Success? <==> fault.None? && p != Patch(None, None) && hasTable
      ensures r.Failure? || id !in rows ==> rows == old(rows) && clock == old(clock)
      ensures r.Success? ==> r.value == (if id in old(rows) then 1 else 0)
      ensures r.Success? && id in old(rows) ==>
        clock == old(clock) + 1 && rows == old(rows)[id := Patched(old(rows)[id], p, clock)]
    {
      if fault.Some? {
        return Failure(fault.value);
      }
      if p == Patch(None, None) {
        return Failure(EmptySetClause);
      }
      if !hasTable {
        return Failure(NoSuchTable);
      }
      if id !in rows {
        return Success(0);
      }
      clock := clock + 1;
      rows := rows[id := Patched(rows[id], p, clock)];
      r := Success(1);
    }

    /** `DELETE FROM tasks WHERE id = ?`; the result is the number of rows removed. */
    method Delete(id: int, fault: Option<string>) returns (r: Result<nat, string>)
      requires Valid()
      modifies this
      ensures Valid() && hasTable == old(hasTable) && nextId == old(nextId) && clock == old(clock)
      ensures fault.Some? ==> r == Failure(fault.value)
      ensures fault.None? && !hasTable ==> r == Failure(NoSuchTable)
      ensures r.Success? <==> fault.None? && hasTable
      ensures r.Failure? ==> rows == old(rows)
      ensures r.Success? ==> r.value == (if id in old(rows) then 1 else 0) && rows == old(rows) - {id}
    {
      if fault.Some? {
        return Failure(fault.value);
      }
      if !hasTable {
        return Failure(NoSuchTable);
      }
      r := Success(if id in rows then 1 else 0);
      rows := rows - {id};
    }

    /**
     * One round of the seeding loop, as statements `step` and `step + 1`: look for a row
     * with exactly this title and insert one only when there is none.
     */
    method SeedOne(title: string, outage: Outage, step: nat) returns (next: nat, err: Option<string>)
      requires Valid()
      modifies this
      ensures Valid() && hasTable == old(hasTable) && step < next <= step + 2
      ensures err.Some? ==> (outage.FailsAt? && err.value == outage.message) || (!hasTable && err.value == NoSuchTable)
      ensures outage == Healthy && hasTable ==> err.None?
      ensures err.None? ==> State() == SeedStep(old(State()), title)
      ensures err.Some? ==> State() == old(State())
    {
      var found := SelectIdsByTitle(title, FaultAt(outage, step));
      next := step + 1;
      if found.Failure? {
        return next, Some(found.error);
      }
      if |found.value| != 0 {
        var w := found.value[0];
        assert w in found.value;
        assert w in rows && rows[w].title == title;
        return next, None;
      }
      assert !HasTitle(rows, title);
      var ins := Insert(title, FaultAt(outage, next));
      next := next + 1;
      if ins.Failure? {
        return next, Some(ins.error);
      }
      err := None;
    }

    /**
     * The seeding loop: for each title, in order, look for a row with exactly that
     * title and insert one only when there is none. Statements are numbered from
     * `first`; the first failing statement ends the loop and its error is returned.
     * `done` counts the titles handled before that.
     */
    method SeedTitles(samples: seq<string>, outage: Outage, first: nat) returns (next: nat, done: nat, err: Option<string>)
      requires Valid()
      modifies this
      ensures Valid() && hasTable == old(hasTable) && next >= first
      ensures done <= |samples| && State() == SeedAll(old(State()), samples[..done])
      ensures err.None? ==> done == |samples|
      ensures err.Some? ==> (outage.FailsAt? && err.value == outage.message) || (!hasTable && err.value == NoSuchTable)
      ensures outage == Healthy && hasTable ==> err.None?
    {
      next, done, err := first, 0, None;
      while done < |samples|
        invariant done <= |samples| && next >= first && err.None?
        invariant Valid() && hasTable == old(hasTable)
        invariant State() == SeedAll(old(State()), samples[..done])
      {
        var e;
        next, e := SeedOne(samples[done], outage, next);
        if e.Some? {
          err := e;
          break;
        }
        assert samples[..done + 1][..done] == samples[..done];
        done := done + 1;
      }
    }

    /**
     * The seeding loop with its outcome summarised: on success the table is the
     * seeding of `samples` into the old table, so each of them is present; in any case
     * existing rows are kept, at most one row per title is added, and a table that
     * already held every title is left as it was.
     */
    method Seed(samples: seq<string>, outage: Outage, first: nat) returns (next: nat, err: Option<string>)
      requires Valid()
      modifies this
      ensures Valid() && hasTable == old(hasTable) && next >= first
      ensures err.None? ==> State() == SeedAll(old(State()), samples)
      ensures err.None? ==> forall t :: t in samples ==> HasTitle(rows, t)
      ensures err.Some? ==> (outage.FailsAt? && err.value == outage.message) || (!hasTable && err.value == NoSuchTable)
      ensures outage == Healthy && hasTable ==> err.None?
      ensures SeededFrom(old(rows), old(nextId), rows, nextId, samples)
      ensures |rows| <= |old(rows)| + |samples|
      ensures (forall t :: t in samples ==> HasTitle(old(rows), t)) ==> State() == old(State())
    {
      var done;
      next, done, err := SeedTitles(samples, outage, first);
      var seeded := samples[..done];
      SeedAllAdds(old(State()), seeded);
      SeedAllBound(old(State()), seeded);
      if forall t :: t in samples ==> HasTitle(old(rows), t) {
        SeedAllPresent(old(State()), seeded);
      }
      assert samples[..|samples|] == samples;
    }

    /**
     * `insertSampleData`: seed the sample titles; an error is logged and swallowed,
     * leaving the titles handled before it seeded.
     */
    method InsertSampleData(outage: Outage, first: nat) returns (next: nat)
      requires Valid()
      modifies this
      ensures Valid() && hasTable == old(hasTable) && next >= first
      ensures outage == Healthy && hasTable ==> State() == SeedAll(old(State()), SampleTasks)
      ensures outage == Healthy && hasTable ==> forall t :: t in SampleTasks ==> HasTitle(rows, t)
      ensures SeededFrom(old(rows), old(nextId), rows, nextId, SampleTasks)
      ensures |rows| <= |old(rows)| + |SampleTasks|
      ensures (forall t :: t in SampleTasks ==> HasTitle(old(rows), t)) ==> State() == old(State())
    {
      var err;
      next, err := Seed(SampleTasks, outage, first);
    }

    /** `createTable`: create the table if it is missing, then seed it; an error is logged and swallowed. */
    method CreateTable(outage: Outage, first: nat) returns (next: nat)
      requires Valid()
      modifies this
      ensures Valid() && next > first
      ensures FaultAt(outage, first).None? ==> hasTable
      ensures outage == Healthy ==> forall t :: t in SampleTasks ==> HasTitle(rows, t)
      ensures SeededFrom(old(rows), old(nextId), rows, nextId, SampleTasks)
      ensures FaultAt(outage, first).Some? ==>
        && hasTable == old(hasTable) && rows == old(rows) && nextId == old(nextId) && clock == old(clock)
        && next == first + 1
    {
      var created := CreateTableIfNotExists(FaultAt(outage, first));
      next := first + 1;
      if created.Failure? {
        return;
      }
      next := InsertSampleData(outage, next);
    }

    /**
     * `testConnection`, run once at startup: take a connection, list the databases and
     * the tables, and create (and seed) the `tasks` table when it is not listed. A
     * failure before the table check is fatal; one inside table creation is not.
     */
    method TestConnection(outage: Outage) returns (r: Startup)
      requires Valid()
      modifies this
      ensures Valid()
      ensures r.Fatal? <==> outage.FailsAt? && outage.step < 3
      ensures r.Fatal? ==> r.message == outage.message && hasTable == old(hasTable) && rows == old(rows)
      ensures old(hasTable) ==> hasTable && rows == old(rows) && nextId == old(nextId)
      ensures outage == Healthy ==> hasTable && (!old(hasTable) ==> forall t :: t in SampleTasks ==> HasTitle(rows, t))
      ensures Extends(old(rows), rows)
    {
      // Step 0 takes a connection from the pool, step 1 lists the databases, step 2 the tables.
      var f := FaultAt(outage, 0);
      if f.Some? {
        return Fatal(f.value);
      }
      f := FaultAt(outage, 1);
      if f.Some? {
        return Fatal(f.value);
      }
      f := FaultAt(outage, 2);
      if f.Some? {
        return Fatal(f.value);
      }
      var tables := if hasTable then [TableName] else [];
      if NeedsCreate(tables) {
        var _ := CreateTable(outage, 3);
      }
      r := Ready;
    }
  }

  /**
   * The state of the newest-first scan after visiting every id above `k`: `out`
   * holds exactly the rows with those ids, as stored, in descending id order.
   */
  ghost predicate CollectedAbove(out: seq<Task>, rows: map<int, Task>, k: int)
  {
    && (forall i :: 0 <= i < |out| ==> out[i].id in rows && rows[out[i].id] == out[i] && out[i].id > k)
    && (forall i, j :: 0 <= i < j < |out| ==> out[i].id > out[j].id)
    && (forall id :: id in rows && id > k ==> exists i :: 0 <= i < |out| && out[i].id == id)
  }

  lemma ListingStep(out: seq<Task>, rows: map<int, Task>, k: int)
    requires CollectedAbove(out, rows, k)
    requires forall id :: id in rows ==> rows[id].id == id
    ensures k in rows ==> CollectedAbove(out + [rows[k]], rows, k - 1)
    ensures k !in rows ==> CollectedAbove(out, rows, k - 1)
  {
    if k in rows {
      var out' := out + [rows[k]];
      forall id | id in rows && id > k - 1 ensures exists i :: 0 <= i < |out'| && out'[i].id == id {
        if id == k {
          assert out'[|out|].id == id;
        } else {
          var i :| 0 <= i < |out| && out[i].id == id;
          assert out'[i].id == id;
        }
      }
    }
  }

  lemma ListingDone(out: seq<Task>, rows: map<int, Task>)
    requires CollectedAbove(out, rows, 0)
    requires forall id :: id in rows ==> id >= 1
    requires forall a, b :: a in rows && b in rows && a < b ==> rows[a].createdAt <= rows[b].createdAt
    ensures IsListingOf(out, rows) && NewestFirst(out)
  {
    forall i, j | 0 <= i < j < |out| ensures out[i].createdAt >= out[j].createdAt {
      assert rows[out[j].id] == out[j] && rows[out[i].id] == out[i];
    }
  }

  /**
   * `after` is `before` plus rows added by seeding `titles`: old rows are kept as they
   * were, and each added row has a fresh id in [beforeNext, afterNext), one of the
   * titles, and `completed` false.
   */
  ghost predicate SeededFrom(before: map<int, Task>, beforeNext: int, after: map<int, Task>, afterNext: int, titles: seq<string>)
  {
    && Extends(before, after)
    && (forall id :: id in after && id !in before ==>
          beforeNext <= id < afterNext && after[id].title in titles && !after[id].completed)
  }

  lemma SeededTrans(r0: map<int, Task>, n0: int, r1: map<int, Task>, n1: int, r2: map<int, Task>, n2: int,
                    ts1: seq<string>, ts2: seq<string>)
    requires n0 <= n1 <= n2
    requires SeededFrom(r0, n0, r1, n1, ts1) && SeededFrom(r1, n1, r2, n2, ts2)
    ensures SeededFrom(r0, n0, r2, n2, ts1 + ts2)
  {
  }

  lemma HasTitleKept(before: map<int, Task>, after: map<int, Task>, title: string)
    requires Extends(before, after) && HasTitle(before, title)
    ensures HasTitle(after, title)
  {
    var w :| w in before && before[w].title == title;
    assert w in after && after[w].title == title;
  }

  /** Rows added to `before` with ids in [lo, hi) number at most hi - lo. */
  lemma AddedBound(before: map<int, Task>, after: map<int, Task>, lo: int, hi: int)
    requires Extends(before, after)
    requires forall id :: id in after && id !in before ==> lo <= id < hi
    requires lo <= hi
    ensures |after| <= |before| + (hi - lo)
  {
    var added := after.Keys - before.Keys;
    RangeBound(added, lo, hi);
    assert after.Keys == before.Keys + added by {
      forall id | id in before.Keys ensures id in after.Keys { assert id in before; }
    }
    assert before.Keys !! added;
    assert |after.Keys| == |before.Keys| + |added|;
  }
}
