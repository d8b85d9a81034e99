/**
 * The older single-file server: its own `tasks` table (no `updated_at`, `completed`
 * a 0/1 integer) and four `/tasks` handlers. Unlike the router it does not trim or
 * re-read titles, overwrites both columns on update and reports affected-row
 * counts instead of 404. Every handler issues one statement, numbered 0.
 */
module LegacyServer {
  import opened Wrappers
  import opened Tasks
  import Text
  import Database
  import Routes

  const TitleMissing := "El título es obligatorio"

  /** The driver's refusal to bind `undefined`, raised before the statement is sent. */
  const BindUndefined := "Bind parameters must not contain undefined. To pass SQL NULL specify JS null"

  /** A JSON request value as the handler sees it (`undefined` when the field is absent). */
  datatype JsValue = Undefined | Null | Bool(b: bool) | Number(n: int) | Str(s: string)

  /** JavaScript truthiness of a JSON value. */
  predicate Truthy(v: JsValue)
  {
    match v
    case Undefined => false
    case Null => false
    case Bool(b) => b
    case Number(n) => n != 0
    case Str(s) => s != ""
  }

  /**
   * `completed ? 1 : 0`: the TINYINT written for a request's `completed`. The client
   * reads the stored number back by truthiness and recovers what was meant.
   */
  function CompletedFlag(v: JsValue): (r: int)
    ensures r == 0 || r == 1
    ensures Truthy(Number(r)) == Truthy(v)
  {
    if Truthy(v) then 1 else 0
  }

  /** The POST check `!title`: an absent title and the empty string are refused. */
  predicate LegacyAcceptsTitle(title: Option<string>)
  {
    title.Some? && title.value != ""
  }

  /**
   * Every title the router accepts, this server accepts too, but not conversely:
   * a blank title passes here and is stored as sent.
   */
  lemma LegacyAcceptsMore(title: Option<string>)
    ensures Routes.AcceptableTitle(title) ==> LegacyAcceptsTitle(title)
    ensures LegacyAcceptsTitle(Some("   ")) && !Routes.AcceptableTitle(Some("   "))
  {
    if title.Some? && title.value == "" {
      assert Text.Trim(title.value) == "";
    }
    Routes.BlankTitlesRejected();
  }

  /** A row of this server's table. */
  datatype LegacyRow = LegacyRow(id: int, title: string, completed: int, createdAt: nat)

  /** JSON response bodies. */
  datatype Body =
    | RowsBody(rows: seq<LegacyRow>)
    | CreatedBody(id: int, title: string, completed: int)
    | UpdatedBody(updated: nat)
    | DeletedBody(deleted: nat)
    | ErrorBody(error: string)

  datatype Response = Response(status: int, body: Body)

  /** The rows of `rows` whose ids lie in `1 .. k - 1`, in id order: the engine's scan. */
  function RowsBelow(rows: map<int, LegacyRow>, k: int): (r: seq<LegacyRow>)
    ensures k <= 1 ==> r == []
    ensures |r| <= if k <= 1 then 0 else k - 1
    ensures forall i :: 0 <= i < |r| ==> r[i] in rows.Values
    decreases k
  {
    if k <= 1 then []
    else RowsBelow(rows, k - 1) + (if k - 1 in rows then [rows[k - 1]] else [])
  }

  /** `s` lists every row of `rows` exactly once, each as stored. */
  predicate IsLegacyListingOf(s: seq<LegacyRow>, rows: map<int, LegacyRow>)
  {
    && (forall i :: 0 <= i < |s| ==> s[i].id in rows && rows[s[i].id] == s[i])
    && (forall id :: id in rows ==> exists i :: 0 <= i < |s| && s[i].id == id)
    && (forall i, j :: 0 <= i < j < |s| ==> s[i].id != s[j].id)
  }

  /** The scan below `k` holds exactly the rows with ids in `1 .. k - 1`, each once. */
  lemma {:induction false} RowsBelowListing(rows: map<int, LegacyRow>, k: int)
    requires forall id :: id in rows ==> rows[id].id == id
    ensures forall i :: 0 <= i < |RowsBelow(rows, k)| ==>
      && RowsBelow(rows, k)[i].id in rows && rows[RowsBelow(rows, k)[i].id] == RowsBelow(rows, k)[i]
      && 1 <= RowsBelow(rows, k)[i].id < k
    ensures forall id :: id in rows && 1 <= id < k ==>
      exists i :: 0 <= i < |RowsBelow(rows, k)| && RowsBelow(rows, k)[i].id == id
    ensures forall i, j :: 0 <= i < j < |RowsBelow(rows, k)| ==> RowsBelow(rows, k)[i].id < RowsBelow(rows, k)[j].id
  {
    if k > 1 {
      RowsBelowListing(rows, k - 1);
      var prev := RowsBelow(rows, k - 1);
      var s := RowsBelow(rows, k);
      assert s == prev + (if k - 1 in rows then [rows[k - 1]] else []);
      forall id | id in rows && 1 <= id < k
        ensures exists i :: 0 <= i < |s| && s[i].id == id
      {
        if id < k - 1 {
          var i :| 0 <= i < |prev| && prev[i].id == id;
          assert s[i] == prev[i];
        } else {
          assert s[|prev|] == rows[k - 1];
        }
      }
    }
  }

  /** The table behind the connection pool. */
  class LegacyStore {
    var hasTable: bool
    var rows: map<int, LegacyRow>
    var nextId: int
    var clock: nat

    ghost predicate Valid()
      reads this
    {
      && 1 <= nextId
      && (forall id :: id in rows ==>
            && 1 <= id < nextId && rows[id].id == id
            && (rows[id].completed == 0 || rows[id].completed == 1)
            && rows[id].createdAt <= clock)
      && (!hasTable ==> rows == map[] && nextId == 1)
    }

    constructor ()
      ensures Valid() && !hasTable && clock == 0
    {
      hasTable := false;
      rows := map[];
      nextId := 1;
      clock := 0;
    }

    /**
     * Startup: `CREATE TABLE IF NOT EXISTS tasks`. A second run changes nothing; a
     * failure is only logged, and is returned here as that log line's message.
     */
    method CreateTableIfMissing(outage: Outage) returns (logged: Option<string>)
      requires Valid()
      modifies this
      ensures Valid() && rows == old(rows) && nextId == old(nextId) && clock == old(clock)
      ensures logged == FaultAt(outage, 0)
      ensures hasTable == (old(hasTable) || logged.None?)
    {
      logged := FaultAt(outage, 0);
      if logged.None? {
        hasTable := true;
      }
    }

    /** GET `/tasks`: every row, in whatever order the engine scans them. */
    method List(outage: Outage) returns (resp: Response)
      requires Valid()
      ensures resp.status == 200 <==> !FailsAtStep(outage, 0) && hasTable
      ensures resp.status == 200 ==> resp.body.RowsBody? && IsLegacyListingOf(resp.body.rows, rows)
      ensures resp.status != 200 ==>
        resp == Response(500, ErrorBody(if FailsAtStep(outage, 0) then outage.message else Database.NoSuchTable))
    {
      if FaultAt(outage, 0).Some? {
        return Response(500, ErrorBody(outage.message));
      }
      if !hasTable {
        return Response(500, ErrorBody(Database.NoSuchTable));
      }
      var all := RowsBelow(rows, nextId);
      RowsBelowListing(rows, nextId);
      resp := Response(200, RowsBody(all));
    }

    /**
     * POST `/tasks`: refuse a falsy title with 400; otherwise insert it as sent, with
     * `completed` at its default 0, and answer with the new id and the request's own
     * title (the row is not read back).
     */
    method Create(title: Option<string>, outage: Outage) returns (resp: Response)
      requires Valid()
      modifies this
      ensures Valid() && hasTable == old(hasTable)
      ensures !LegacyAcceptsTitle(title) ==> resp == Response(400, ErrorBody(TitleMissing))
      ensures LegacyAcceptsTitle(title) && FailsAtStep(outage, 0) ==> resp == Response(500, ErrorBody(outage.message))
      ensures LegacyAcceptsTitle(title) && !FailsAtStep(outage, 0) && !hasTable ==>
        resp == Response(500, ErrorBody(Database.NoSuchTable))
      ensures resp.status != 201 ==> rows == old(rows) && nextId == old(nextId) && clock == old(clock)
      ensures resp.status == 201 <==> LegacyAcceptsTitle(title) && !FailsAtStep(outage, 0) && hasTable
      ensures resp.status == 201 ==>
        && resp == Response(201, CreatedBody(old(nextId), title.value, 0))
        && old(nextId) !in old(rows)
        && rows == old(rows)[old(nextId) := LegacyRow(old(nextId), title.value, 0, clock)]
        && nextId == old(nextId) + 1 && clock == old(clock) + 1
    {
      if title.None? || title.value == "" {
        return Response(400, ErrorBody(TitleMissing));
      }
      if FaultAt(outage, 0).Some? {
        return Response(500, ErrorBody(outage.message));
      }
      if !hasTable {
        return Response(500, ErrorBody(Database.NoSuchTable));
      }
      var id := nextId;
      clock := clock + 1;
      rows := rows[id := LegacyRow(id, title.value, 0, clock)];
      nextId := nextId + 1;
      resp := Response(201, CreatedBody(id, title.value, 0));
    }

    /**
     * PUT `/tasks/:id`: overwrite both the title and `completed` (coerced to 0/1) of
     * the row with that id, and answer with the number of rows matched: 1, or 0 for
     * an unknown id. An absent title cannot be bound and fails the request.
     */
    method Update(id: int, title: Option<string>, completed: JsValue, outage: Outage) returns (resp: Response)
      requires Valid()
      modifies this
      ensures Valid() && hasTable == old(hasTable) && nextId == old(nextId) && clock == old(clock)
      ensures title.None? ==> resp == Response(500, ErrorBody(BindUndefined))
      ensures title.Some? && FailsAtStep(outage, 0) ==> resp == Response(500, ErrorBody(outage.message))
      ensures title.Some? && !FailsAtStep(outage, 0) && !hasTable ==> resp == Response(500, ErrorBody(Database.NoSuchTable))
      ensures resp.status == 200 <==> title.Some? && !FailsAtStep(outage, 0) && hasTable
      ensures resp.status == 200 ==> resp.body == UpdatedBody(if id in old(rows) then 1 else 0)
      ensures resp.status == 200 && id in old(rows) ==>
        rows == old(rows)[id := LegacyRow(id, title.value, CompletedFlag(completed), old(rows)[id].createdAt)]
      ensures resp.status != 200 || id !in old(rows) ==> rows == old(rows)
    {
      if title.None? {
        return Response(500, ErrorBody(BindUndefined));
      }
      if FaultAt(outage, 0).Some? {
        return Response(500, ErrorBody(outage.message));
      }
      if !hasTable {
        return Response(500, ErrorBody(Database.NoSuchTable));
      }
      if id in rows {
        rows := rows[id := LegacyRow(id, title.value, CompletedFlag(completed), rows[id].createdAt)];
        resp := Response(200, UpdatedBody(1));
      } else {
        resp := Response(200, UpdatedBody(0));
      }
    }

    /** DELETE `/tasks/:id`: remove the row with that id and answer with how many went (1 or 0). */
    method Delete(id: int, outage: Outage) returns (resp: Response)
      requires Valid()
      modifies this
      ensures Valid() && hasTable == old(hasTable) && nextId == old(nextId) && clock == old(clock)
      ensures FailsAtStep(outage, 0) ==> resp == Response(500, ErrorBody(outage.message))
      ensures !FailsAtStep(outage, 0) && !hasTable ==> resp == Response(500, ErrorBody(Database.NoSuchTable))
      ensures resp.status == 200 <==> !FailsAtStep(outage, 0) && hasTable
      ensures resp.status == 200 ==>
        && resp.body == DeletedBody(if id in old(rows) then 1 else 0)
        && rows == old(rows) - {id}
      ensures resp.status != 200 ==> rows == old(rows)
    {
      if FaultAt(outage, 0).Some? {
        return Response(500, ErrorBody(outage.message));
      }
      if !hasTable {
        return Response(500, ErrorBody(Database.NoSuchTable));
      }
      resp := Response(200, DeletedBody(if id in rows then 1 else 0));
      rows := rows - {id};
    }
  }
}
