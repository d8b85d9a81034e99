/**
 * The client's top-level component: the list of tasks it shows, the loading flag,
 * the error banner and the two status lights, and the handlers that keep the list
 * in step with the server. Every HTTP request is an input to the handler that
 * makes it: the reply (the response's data, or the error axios raised).
 */
module App {
  import opened Wrappers
  import opened Tasks
  import opened Database

  /** The body of an error response, as far as the client looks at it. */
  datatype ErrorResponse = ErrorResponse(status: nat, error: Option<string>)

  /**
   * An axios error: its `code`, the server's response if one came back, whether a
   * request went out at all, and the error's own message.
   */
  datatype HttpError = HttpError(code: string, response: Option<ErrorResponse>, request: bool, message: string)

  /** What an awaited request yields: its response data, or the error it raised. */
  datatype Reply<T> = Ok(data: T) | Fail(err: HttpError)

  datatype Status = Checking | Connected | Disconnected

  const Aborted := "ECONNABORTED"
  /** The opening shared by both timeout banners. */
  const TimeoutLead := "Timeout: "
  const DatabaseDown := "Base de datos desconectada"
  const AddFailed := "No se pudo agregar la tarea. Verifica la conexión."
  const UpdateFailed := "No se pudo actualizar la tarea."
  const DeleteFailed := "No se pudo eliminar la tarea."

  /** The kinds of failure the error banner distinguishes. */
  datatype FailureKind = TimedOut | EndpointMissing | Answered | NoAnswer | Other

  /** `err.response?.data?.error || fallback`: the server's own error text when it sent a non-empty one. */
  function ServerMessage(response: Option<ErrorResponse>, fallback: string): (m: string)
    ensures m == fallback || (response.Some? && response.value.error == Some(m) && m != "")
    ensures response.Some? && response.value.error.Some? && response.value.error.value != "" ==>
      m == response.value.error.value
    ensures fallback != "" ==> m != ""
  {
    if response.Some? && response.value.error.Some? && response.value.error.value != "" then
      response.value.error.value
    else
      fallback
  }

  /** The decimal digits of `n`, most significant first. */
  function NatToString(n: nat): (s: string)
    ensures |s| >= 1
    ensures forall i :: 0 <= i < |s| ==> '0' <= s[i] <= '9'
    decreases n
  {
    if n < 10 then ["0123456789"[n]]
    else NatToString(n / 10) + ["0123456789"[n % 10]]
  }

  /** The number a non-empty string of decimal digits denotes, read most significant first. */
  function ParseDigits(s: string): nat
    requires forall i :: 0 <= i < |s| ==> '0' <= s[i] <= '9'
  {
    if s == [] then 0
    else 10 * ParseDigits(s[..|s| - 1]) + ((s[|s| - 1] as int) - ('0' as int))
  }

  /** The status number in a banner reads back as the status it came from. */
  lemma {:induction false} NatToStringRoundTrip(n: nat)
    ensures ParseDigits(NatToString(n)) == n
    decreases n
  {
    if n >= 10 {
      var s := NatToString(n / 10);
      var d := "0123456789"[n % 10];
      assert (s + [d])[..|s|] == s;
      NatToStringRoundTrip(n / 10);
    }
  }

  /**
   * The health check's classification of a failure, in precedence order: a timeout,
   * then any error response, then a request that got no answer, then anything else.
   */
  function HealthFailureKind(e: HttpError): (k: FailureKind)
    ensures k != EndpointMissing
    ensures k == TimedOut <==> e.code == Aborted
    ensures k == Answered <==> e.code != Aborted && e.response.Some?
    ensures k == NoAnswer <==> e.code != Aborted && e.response.None? && e.request
    ensures k == Other <==> e.code != Aborted && e.response.None? && !e.request
  {
    if e.code == Aborted then TimedOut
    else if e.response.Some? then Answered
    else if e.request then NoAnswer
    else Other
  }

  /**
   * The listing request's classification of a failure, in precedence order: a
   * timeout, then a 404, then no response at all, then any other error response.
   */
  function FetchFailureKind(e: HttpError): (k: FailureKind)
    ensures k != Other
    ensures k == TimedOut <==> e.code == Aborted
    ensures k == EndpointMissing <==> e.code != Aborted && e.response.Some? && e.response.value.status == 404
    ensures k == NoAnswer <==> e.code != Aborted && e.response.None?
    ensures k == Answered <==> e.code != Aborted && e.response.Some? && e.response.value.status != 404
  {
    if e.code == Aborted then TimedOut
    else if e.response.Some? && e.response.value.status == 404 then EndpointMissing
    else if e.response.None? then NoAnswer
    else Answered
  }

  /** `Error <status>: <server error or fallback>`, the banner for an error response. */
  function StatusBanner(r: ErrorResponse, fallback: string): string
  {
    "Error " + NatToString(r.status) + ": " + ServerMessage(Some(r), fallback)
  }

  /** The banner the health check shows for a failure. */
  function HealthFailureMessage(e: HttpError, apiUrl: string): (m: string)
    ensures m != ""
  {
    if e.code == Aborted then TimeoutLead + "El backend no responde en " + apiUrl
    else if e.response.Some? then StatusBanner(e.response.value, "Error del servidor")
    else if e.request then "No se pudo conectar con el backend en " + apiUrl + ". Verifica que esté desplegado."
    else "Error: " + e.message
  }

  /** The banner the listing request shows for a failure. */
  function FetchFailureMessage(e: HttpError, apiUrl: string): (m: string)
    ensures m != ""
  {
    if e.code == Aborted then TimeoutLead + "El servidor está tardando demasiado."
    else if e.response.Some? && e.response.value.status == 404 then
      "Endpoint no encontrado. " + "Verifica la configuración del backend."
    else if e.response.None? then "No se puede conectar con el servidor en " + apiUrl
    else StatusBanner(e.response.value, "Error desconocido")
  }

  /**
   * How a reader tells the kind of failure from the banner's first letters:
   * `Timeout`, `No se ...`, `Endpoint`, `Error:` and `Error <status>` all differ there.
   */
  function ReadBanner(m: string): FailureKind
  {
    if |m| == 0 then Other
    else if m[0] == 'T' then TimedOut
    else if m[0] == 'N' then NoAnswer
    else if |m| > 1 && m[1] == 'n' then EndpointMissing
    else if |m| > 5 && m[5] == ':' then Other
    else Answered
  }

  /** The health-check banner always tells which kind of failure happened. */
  lemma HealthBannerRoundTrip(e: HttpError, apiUrl: string)
    ensures ReadBanner(HealthFailureMessage(e, apiUrl)) == HealthFailureKind(e)
  {
    var m := HealthFailureMessage(e, apiUrl);
    if e.code != Aborted && e.response.Some? {
      var digits := NatToString(e.response.value.status);
      assert m[5] == ' ' && m[6] == digits[0];
    }
  }

  /** The listing banner always tells which kind of failure happened. */
  lemma FetchBannerRoundTrip(e: HttpError, apiUrl: string)
    ensures ReadBanner(FetchFailureMessage(e, apiUrl)) == FetchFailureKind(e)
  {
    var m := FetchFailureMessage(e, apiUrl);
    if e.code == Aborted {
      assert m[0] == 'T';
    } else if e.response.Some? && e.response.value.status == 404 {
      assert m[0] == 'E' && m[1] == 'n';
    } else if e.response.None? {
      assert m[0] == 'N';
    } else {
      var digits := NatToString(e.response.value.status);
      assert m == "Error " + digits + ": " + ServerMessage(e.response, "Error desconocido");
      assert m[0] == 'E' && m[1] == 'r' && m[5] == ' ' && m[6] == digits[0];
    }
  }

  /** `tasks.map(task => task.id === id ? row : task)`. */
  function ReplaceById(ts: seq<Task>, id: int, row: Task): (r: seq<Task>)
    ensures |r| == |ts|
    ensures forall i :: 0 <= i < |ts| && ts[i].id != id ==> r[i] == ts[i]
    ensures forall i :: 0 <= i < |ts| && ts[i].id == id ==> r[i] == row
  {
    seq(|ts|, i requires 0 <= i < |ts| => if ts[i].id == id then row else ts[i])
  }

  /** `tasks.filter(task => task.id !== id)`. */
  function WithoutId(ts: seq<Task>, id: int): (r: seq<Task>)
    ensures |r| <= |ts|
    decreases |ts|
  {
    if ts == [] then []
    else if ts[0].id == id then WithoutId(ts[1..], id)
    else [ts[0]] + WithoutId(ts[1..], id)
  }

  /** A task survives removal by id exactly when it is in the list and has another id. */
  lemma {:induction false} WithoutIdMembers(ts: seq<Task>, id: int, t: Task)
    ensures t in WithoutId(ts, id) <==> t in ts && t.id != id
    decreases |ts|
  {
    if ts != [] {
      WithoutIdMembers(ts[1..], id, t);
      assert ts == [ts[0]] + ts[1..];
    }
  }

  /** Removing by id drops every copy of the rows with that id and keeps every copy of the others. */
  lemma {:induction false} WithoutIdCounts(ts: seq<Task>, id: int)
    ensures forall t :: multiset(WithoutId(ts, id))[t] == if t.id == id then 0 else multiset(ts)[t]
    decreases |ts|
  {
    if ts != [] {
      WithoutIdCounts(ts[1..], id);
      assert ts == [ts[0]] + ts[1..];
    }
  }

  /** Removing by id keeps the survivors in their order: it distributes over concatenation. */
  lemma {:induction false} WithoutIdAppend(a: seq<Task>, b: seq<Task>, id: int)
    ensures WithoutId(a + b, id) == WithoutId(a, id) + WithoutId(b, id)
    decreases |a|
  {
    if a == [] {
      assert a + b == b;
    } else {
      var h := a[0];
      assert (a + b)[0] == h && (a + b)[1..] == a[1..] + b;
      WithoutIdAppend(a[1..], b, id);
      if h.id == id {
        assert WithoutId(a + b, id) == WithoutId(a[1..] + b, id);
        assert WithoutId(a, id) == WithoutId(a[1..], id);
      } else {
        assert WithoutId(a + b, id) == [h] + WithoutId(a[1..] + b, id);
        assert WithoutId(a, id) == [h] + WithoutId(a[1..], id);
      }
    }
  }

  /** Deleting the same id twice leaves the list as deleting it once. */
  lemma {:induction false} WithoutIdIdempotent(ts: seq<Task>, id: int)
    ensures WithoutId(WithoutId(ts, id), id) == WithoutId(ts, id)
    decreases |ts|
  {
    if ts != [] {
      WithoutIdIdempotent(ts[1..], id);
    }
  }

  /** A row that was just replaced is removed as completely as the one it replaced. */
  lemma {:induction false} WithoutIdAfterReplace(ts: seq<Task>, id: int, row: Task)
    requires row.id == id
    ensures WithoutId(ReplaceById(ts, id, row), id) == WithoutId(ts, id)
    decreases |ts|
  {
    if ts != [] {
      WithoutIdAfterReplace(ts[1..], id, row);
      assert ReplaceById(ts, id, row)[1..] == ReplaceById(ts[1..], id, row);
    }
  }

  /** No two entries of `s` share an id. */
  ghost predicate DistinctIds(s: seq<Task>)
  {
    forall i, j :: 0 <= i < j < |s| ==> s[i].id != s[j].id
  }

  /**
   * Putting `h` in front of a list with distinct ids in newest-first order keeps it
   * so when `h` differs in id from, and is no older than, every entry.
   */
  lemma ConsOrdered(h: Task, t: seq<Task>)
    requires DistinctIds(t) && NewestFirst(t)
    requires forall x :: x in t ==> x.id != h.id && x.createdAt <= h.createdAt
    ensures DistinctIds([h] + t) && NewestFirst([h] + t)
  {
    var r := [h] + t;
    forall i, j | 0 <= i < j < |r| ensures r[i].id != r[j].id && r[i].createdAt >= r[j].createdAt {
      assert r[j] == t[j - 1] && r[j] in t;
      if i > 0 {
        assert r[i] == t[i - 1];
      }
    }
  }

  /** The tail of a list with distinct ids in newest-first order is one too, and its head dominates it. */
  lemma TailOrdered(s: seq<Task>)
    requires s != [] && DistinctIds(s) && NewestFirst(s)
    ensures DistinctIds(s[1..]) && NewestFirst(s[1..])
    ensures forall x :: x in s[1..] ==> x.id != s[0].id && x.createdAt <= s[0].createdAt
  {
    var t := s[1..];
    forall x | x in t ensures x.id != s[0].id && x.createdAt <= s[0].createdAt {
      var k :| 0 <= k < |t| && t[k] == x;
      assert s[k + 1] == x;
    }
    forall i, j | 0 <= i < j < |t| ensures t[i].id != t[j].id && t[i].createdAt >= t[j].createdAt {
      assert s[i + 1] == t[i] && s[j + 1] == t[j];
    }
  }

  /** Filtering keeps distinct ids distinct and a newest-first order newest first. */
  lemma {:induction false} WithoutIdKeepsOrder(ts: seq<Task>, id: int)
    requires DistinctIds(ts) && NewestFirst(ts)
    ensures DistinctIds(WithoutId(ts, id)) && NewestFirst(WithoutId(ts, id))
    decreases |ts|
  {
    if ts != [] {
      var h, tail := ts[0], ts[1..];
      assert ts == [h] + tail;
      TailOrdered(ts);
      WithoutIdKeepsOrder(tail, id);
      if h.id != id {
        forall x | x in WithoutId(tail, id) ensures x in tail {
          WithoutIdMembers(tail, id, x);
        }
        ConsOrdered(h, WithoutId(tail, id));
      }
    }
  }

  /**
   * The client's bookkeeping matches the server. If the list on screen is the
   * server's newest-first listing, then prepending a freshly created row (a new id,
   * created after every other row) gives the listing of the table with that row.
   */
  lemma AddKeepsListing(s: seq<Task>, rows: map<int, Task>, row: Task)
    requires IsListingOf(s, rows) && NewestFirst(s)
    requires row.id !in rows
    requires forall id :: id in rows ==> rows[id].createdAt < row.createdAt
    ensures IsListingOf([row] + s, rows[row.id := row]) && NewestFirst([row] + s)
  {
    var r := [row] + s;
    var after := rows[row.id := row];
    assert DistinctIds(s);
    forall x | x in s ensures x.id != row.id && x.createdAt <= row.createdAt {
      var k :| 0 <= k < |s| && s[k] == x;
    }
    ConsOrdered(row, s);
    assert forall i :: 0 < i < |r| ==> r[i] == s[i - 1];
    forall id | id in after ensures exists i :: 0 <= i < |r| && r[i].id == id {
      if id != row.id {
        var k :| 0 <= k < |s| && s[k].id == id;
        assert r[k + 1] == s[k];
      } else {
        assert r[0].id == id;
      }
    }
    assert DistinctIds(r);
  }

  /**
   * Replacing the entry of an updated row by the server's copy (same id, same
   * creation time) gives the listing of the updated table.
   */
  lemma UpdateKeepsListing(s: seq<Task>, rows: map<int, Task>, row: Task)
    requires IsListingOf(s, rows) && NewestFirst(s)
    requires row.id in rows && row.createdAt == rows[row.id].createdAt
    ensures IsListingOf(ReplaceById(s, row.id, row), rows[row.id := row])
    ensures NewestFirst(ReplaceById(s, row.id, row))
  {
    var r := ReplaceById(s, row.id, row);
    var after := rows[row.id := row];
    assert SameIdsAndTimes(r, s) by {
      forall i | 0 <= i < |r| ensures r[i].id == s[i].id && r[i].createdAt == s[i].createdAt {
        if s[i].id == row.id {
          assert r[i] == row;
        } else {
          assert r[i] == s[i];
        }
      }
    }
    forall i | 0 <= i < |r| ensures r[i].id in after && after[r[i].id] == r[i] {
      if s[i].id == row.id {
        assert r[i] == row;
      } else {
        assert r[i] == s[i];
      }
    }
    assert DistinctIds(s);
    SameIdsKeepOrder(r, s);
    forall id | id in after ensures exists i :: 0 <= i < |r| && r[i].id == id {
      var k :| 0 <= k < |s| && s[k].id == id;
      assert r[k].id == id;
    }
  }

  /** `a` and `b` agree, entry by entry, on ids and creation times. */
  ghost predicate SameIdsAndTimes(a: seq<Task>, b: seq<Task>)
  {
    |a| == |b| && forall i :: 0 <= i < |a| ==> a[i].id == b[i].id && a[i].createdAt == b[i].createdAt
  }

  /** Distinct ids and newest-first order depend only on ids and creation times. */
  lemma SameIdsKeepOrder(a: seq<Task>, b: seq<Task>)
    requires SameIdsAndTimes(a, b) && DistinctIds(b) && NewestFirst(b)
    ensures DistinctIds(a) && NewestFirst(a)
  {
    forall i, j | 0 <= i < j < |a| ensures a[i].id != a[j].id && a[i].createdAt >= a[j].createdAt {
      assert b[i].id != b[j].id && b[i].createdAt >= b[j].createdAt;
    }
  }

  /** Filtering out a deleted row gives the listing of the table without it. */
  lemma DeleteKeepsListing(s: seq<Task>, rows: map<int, Task>, id: int)
    requires IsListingOf(s, rows) && NewestFirst(s)
    ensures IsListingOf(WithoutId(s, id), rows - {id}) && NewestFirst(WithoutId(s, id))
  {
    var r := WithoutId(s, id);
    assert DistinctIds(s);
    WithoutIdKeepsOrder(s, id);
    assert DistinctIds(r);
    var after := rows - {id};
    forall i | 0 <= i < |r| ensures r[i].id in after && after[r[i].id] == r[i] {
      WithoutIdMembers(s, id, r[i]);
      var k :| 0 <= k < |s| && s[k] == r[i];
    }
    forall x | x in after ensures exists i :: 0 <= i < |r| && r[i].id == x {
      var k :| 0 <= k < |s| && s[k].id == x;
      WithoutIdMembers(s, id, s[k]);
      var i :| 0 <= i < |r| && r[i] == s[k];
    }
  }

  /** The state of the component. */
  class AppState {
    var tasks: seq<Task>
    var loading: bool
    var error: string
    var backendStatus: Status
    var dbStatus: Status
    /**
     * The backend address the banners cite: the module constant `API_URL`. The
     * component's `apiUrl` state starts equal to it and differs only after
     * `handleChangeBackendUrl`, which is not part of this model.
     */
    const apiUrl: string

    /** The initial render: no tasks, loading, no error, both lights checking. */
    constructor (apiUrl: string)
      ensures this.apiUrl == apiUrl
      ensures tasks == [] && loading && error == "" && backendStatus == Checking && dbStatus == Checking
    {
      this.apiUrl := apiUrl;
      tasks := [];
      loading := true;
      error := "";
      backendStatus := Checking;
      dbStatus := Checking;
    }

    /**
     * `checkSystemStatus`: ask `/health`. Any answer means the backend is up (true);
     * the database light follows the answer's `database` field. An exception turns
     * both lights off, shows the classified banner and yields false.
     */
    method CheckSystemStatus(health: Reply<string>) returns (healthy: bool)
      modifies this`backendStatus, this`dbStatus, this`error
      ensures healthy <==> health.Ok?
      ensures healthy ==> backendStatus == Connected
      ensures healthy ==>
        if health.data == "connected" then dbStatus == Connected && error == ""
        else dbStatus == Disconnected && error == DatabaseDown
      ensures !healthy ==>
        && backendStatus == Disconnected && dbStatus == Disconnected
        && error == HealthFailureMessage(health.err, apiUrl)
    {
      backendStatus := Checking;
      match health
      case Ok(database) =>
        if database == "connected" {
          dbStatus := Connected;
          backendStatus := Connected;
          error := "";
        } else {
          dbStatus := Disconnected;
          backendStatus := Connected;
          error := DatabaseDown;
        }
        healthy := true;
      case Fail(e) =>
        error := HealthFailureMessage(e, apiUrl);
        backendStatus := Disconnected;
        dbStatus := Disconnected;
        healthy := false;
    }

    /**
     * `fetchTasks`: check health first and only then request `/tasks`. Returns whether
     * the listing was requested. The list changes only when the listing arrives, and
     * loading is off afterwards whatever happened.
     */
    method FetchTasks(health: Reply<string>, listing: Reply<seq<Task>>) returns (requested: bool)
      modifies this`tasks, this`loading, this`backendStatus, this`dbStatus, this`error
      ensures !loading
      ensures requested <==> health.Ok?
      ensures !requested ==>
        && tasks == old(tasks)
        && backendStatus == Disconnected && dbStatus == Disconnected
        && error == HealthFailureMessage(health.err, apiUrl)
      ensures requested ==> backendStatus == Connected
      ensures requested ==> (dbStatus == Connected <==> health.data == "connected")
      ensures requested && listing.Ok? ==>
        tasks == listing.data && error == (if health.data == "connected" then "" else DatabaseDown)
      ensures requested && listing.Fail? ==>
        tasks == old(tasks) && error == FetchFailureMessage(listing.err, apiUrl)
    {
      loading := true;
      error := "";
      var healthy := CheckSystemStatus(health);
      if !healthy {
        loading := false;
        return false;
      }
      requested := true;
      if listing.Ok? {
        tasks := listing.data;
      } else {
        error := FetchFailureMessage(listing.err, apiUrl);
      }
      loading := false;
    }

    /** `handleAddTask`: on success put the created row first; on failure keep the list and report. */
    method HandleAddTask(reply: Reply<Task>) returns (r: Result<Task, string>)
      modifies this`tasks
      ensures reply.Ok? ==> r == Success(reply.data) && tasks == [reply.data] + old(tasks)
      ensures reply.Fail? ==> r == Failure(ServerMessage(reply.err.response, AddFailed)) && tasks == old(tasks)
    {
      match reply
      case Ok(row) =>
        tasks := [row] + tasks;
        r := Success(row);
      case Fail(e) =>
        r := Failure(ServerMessage(e.response, AddFailed));
    }

    /** `handleUpdateTask`: on success replace the entries with that id by the server's row. */
    method HandleUpdateTask(id: int, reply: Reply<Task>) returns (r: Result<Task, string>)
      modifies this`tasks
      ensures reply.Ok? ==> r == Success(reply.data) && tasks == ReplaceById(old(tasks), id, reply.data)
      ensures reply.Fail? ==> r == Failure(ServerMessage(reply.err.response, UpdateFailed)) && tasks == old(tasks)
    {
      match reply
      case Ok(row) =>
        tasks := ReplaceById(tasks, id, row);
        r := Success(row);
      case Fail(e) =>
        r := Failure(ServerMessage(e.response, UpdateFailed));
    }

    /** `handleDeleteTask`: on success drop the entries with that id, keeping the rest in order. */
    method HandleDeleteTask(id: int, reply: Reply<()>) returns (r: Result<(), string>)
      modifies this`tasks
      ensures reply.Ok? ==> r == Success(()) && tasks == WithoutId(old(tasks), id)
      ensures reply.Fail? ==> r == Failure(ServerMessage(reply.err.response, DeleteFailed)) && tasks == old(tasks)
    {
      match reply
      case Ok(_) =>
        tasks := WithoutId(tasks, id);
        r := Success(());
      case Fail(e) =>
        r := Failure(ServerMessage(e.response, DeleteFailed));
    }

    /**
     * `handleRefresh`: clear the banner and fetch again. The old banner never
     * survives: afterwards it is empty or the one this round of requests produced.
     */
    method HandleRefresh(health: Reply<string>, listing: Reply<seq<Task>>)
      modifies this`tasks, this`loading, this`backendStatus, this`dbStatus, this`error
      ensures !loading
      ensures health.Fail? ==>
        && tasks == old(tasks)
        && backendStatus == Disconnected && dbStatus == Disconnected
        && error == HealthFailureMessage(health.err, apiUrl)
      ensures health.Ok? ==> backendStatus == Connected
      ensures health.Ok? ==> (dbStatus == Connected <==> health.data == "connected")
      ensures health.Ok? && listing.Ok? ==>
        tasks == listing.data && error == (if health.data == "connected" then "" else DatabaseDown)
      ensures health.Ok? && listing.Fail? ==> tasks == old(tasks) && error == FetchFailureMessage(listing.err, apiUrl)
    {
      error := "";
      var _ := FetchTasks(health, listing);
    }
  }
}
