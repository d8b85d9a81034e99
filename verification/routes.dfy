/**
 * The `/tasks` router: five request handlers over the `tasks` table. Each handler
 * issues its statements in order (numbered from 0 for the outage model). GET `/`
 * and POST `/` turn any store error into a 500 response carrying the error's
 * message; the three `/:id` handlers are modelled up to the end of their `try`
 * block, and their catch block is `IdRouteCatch`.
 */
module Routes {
  import opened Wrappers
  import opened Tasks
  import Text
  import opened Database

  const TitleRequired := "El título es requerido"
  const NotFound := "Tarea no encontrada"
  const ServerError := "Error del servidor"
  const DeletedMessage := "Tarea eliminada correctamente"

  /** The TypeError raised by reading `newTask.id` when the re-select found nothing. */
  const NullTaskId := "Cannot read properties of null (reading 'id')"

  /** JSON response bodies. */
  datatype Body =
    | TaskBody(task: Task)
    | TaskListBody(tasks: seq<Task>)
    | NullBody
    | ErrorBody(error: string)
    | ServerErrorBody(error: string, message: string)
    | DeletedBody(message: string, deletedTask: Task)

  datatype Response = Response(status: int, body: Body)

  /**
   * How a request ends: a JSON response was sent, or the handler's promise rejected
   * with an error that nothing in the handler turned into a response.
   */
  datatype Outcome = Answered(response: Response) | Rejected(error: string)

  /**
   * The ReferenceError raised by reading `id` in the catch block of the `/:id`
   * handlers: `id` is declared with `const` inside the `try` block and is not in scope there.
   */
  const IdNotDefined := "id is not defined"

  /** The POST validation: a title is present and not blank once trimmed. */
  predicate AcceptableTitle(title: Option<string>): (ok: bool)
    ensures ok ==> title.Some? && |title.value| > 0
  {
    title.Some? && Text.Trim(title.value) != ""
  }

  /** GET `/`: every task, newest first; any error is a 500 with a generic label and the message. */
  method ListTasks(db: Database, outage: Outage) returns (resp: Response)
    requires db.Valid()
    ensures resp.status == 200 <==> !FailsAtStep(outage, 0) && db.hasTable
    ensures resp.status == 200 ==>
      resp.body.TaskListBody? && IsListingOf(resp.body.tasks, db.rows) && NewestFirst(resp.body.tasks)
    ensures resp.status != 200 ==>
      && resp.status == 500
      && resp.body == ServerErrorBody(ServerError, if FailsAtStep(outage, 0) then outage.message else NoSuchTable)
  {
    var all := db.SelectAllNewestFirst(FaultAt(outage, 0));
    match all
    case Success(tasks) => resp := Response(200, TaskListBody(tasks));
    case Failure(e) => resp := Response(500, ServerErrorBody(ServerError, e));
  }

  /**
   * GET `/:id`, its `try` block: the task with that id, or 404 when there is none. A
   * store error is thrown out of the block, to the catch that `IdRouteCatch` models.
   */
  method GetTask(db: Database, id: int, outage: Outage) returns (r: Result<Response, string>)
    requires db.Valid()
    ensures FailsAtStep(outage, 0) ==> r == Failure(outage.message)
    ensures !FailsAtStep(outage, 0) && !db.hasTable ==> r == Failure(NoSuchTable)
    ensures !FailsAtStep(outage, 0) && db.hasTable ==>
      r == Success(if id in db.rows then Response(200, TaskBody(db.rows[id])) else Response(404, ErrorBody(NotFound)))
  {
    var selected := db.SelectById(id, FaultAt(outage, 0));
    match GetOne(selected)
    case Failure(e) => r := Failure(e);
    case Success(None) => r := Success(Response(404, ErrorBody(NotFound)));
    case Success(Some(task)) => r := Success(Response(200, TaskBody(task)));
  }

  /**
   * The catch block of the three `/:id` handlers as written: its log line reads `id`,
   * which is out of scope, so the error it caught is replaced by a ReferenceError
   * and no response is sent.
   */
  function IdRouteCatch(tried: Result<Response, string>): (o: Outcome)
    ensures tried.Success? ==> o == Answered(tried.value)
    ensures tried.Failure? ==> o.Rejected? && o.error == IdNotDefined
  {
    match tried
    case Success(resp) => Answered(resp)
    case Failure(_) => Rejected(IdNotDefined)
  }

  /**
   * The same catch block with `id` declared before `try`, as the other handlers'
   * catch blocks work: every caught error is answered with 500 and its message.
   */
  function IdRouteCatchScoped(tried: Result<Response, string>): (o: Outcome)
    ensures o.Answered?
    ensures tried.Success? ==> o.response == tried.value
    ensures tried.Failure? ==> o.response == Response(500, ErrorBody(tried.error))
  {
    match tried
    case Success(resp) => Answered(resp)
    case Failure(e) => Answered(Response(500, ErrorBody(e)))
  }

  /**
   * The two catch blocks agree exactly when the `try` block answered by itself; as
   * written, every error it throws goes unanswered, and with `id` in scope every one
   * is answered.
   */
  lemma ScopedCatchAnswers(tried: Result<Response, string>)
    ensures IdRouteCatch(tried) == IdRouteCatchScoped(tried) <==> tried.Success?
    ensures tried.Failure? ==> IdRouteCatch(tried).Rejected?
    ensures IdRouteCatchScoped(tried).Answered?
  {
  }

  /**
   * POST `/`: reject a missing or blank title with 400; otherwise insert the trimmed
   * title and answer 201 with the row re-read by its new id. The insert and the
   * re-select are separate statements: when only the second fails the row stays.
   */
  method CreateTask(db: Database, title: Option<string>, outage: Outage) returns (resp: Response)
    requires db.Valid()
    modifies db
    ensures db.Valid() && db.hasTable == old(db.hasTable)
    ensures !AcceptableTitle(title) || FailsAtStep(outage, 0) || !db.hasTable ==>
      db.rows == old(db.rows) && db.nextId == old(db.nextId) && db.clock == old(db.clock)
    ensures !AcceptableTitle(title) ==> resp == Response(400, ErrorBody(TitleRequired))
    ensures AcceptableTitle(title) && FailsAtStep(outage, 0) ==> resp == Response(500, ErrorBody(outage.message))
    ensures AcceptableTitle(title) && !FailsAtStep(outage, 0) && !db.hasTable ==>
      resp == Response(500, ErrorBody(NoSuchTable))
    ensures AcceptableTitle(title) && !FailsAtStep(outage, 0) && db.hasTable ==>
      && db.nextId == old(db.nextId) + 1 && db.clock == old(db.clock) + 1
      && db.rows == old(db.rows)[old(db.nextId) := Task(old(db.nextId), Text.Trim(title.value), false, db.clock, db.clock)]
      && resp == if FailsAtStep(outage, 1) then Response(500, ErrorBody(outage.message))
                 else Response(201, TaskBody(db.rows[old(db.nextId)]))
    ensures resp.status == 201 ==>
      && resp.body.TaskBody?
      && resp.body.task.title == Text.Trim(title.value) && !resp.body.task.completed
      && resp.body.task.createdAt == resp.body.task.updatedAt
      && (forall id :: id in old(db.rows) ==> id < resp.body.task.id)
      && (forall id :: id in old(db.rows) ==> old(db.rows)[id].createdAt < resp.body.task.createdAt)
  {
    if title.None? || Text.Trim(title.value) == "" {
      return Response(400, ErrorBody(TitleRequired));
    }
    var inserted := db.Insert(Text.Trim(title.value), FaultAt(outage, 0));
    if inserted.Failure? {
      return Response(500, ErrorBody(inserted.error));
    }
    var selected := db.SelectById(inserted.value, FaultAt(outage, 1));
    match GetOne(selected)
    case Failure(e) => resp := Response(500, ErrorBody(e));
    case Success(None) => resp := Response(500, ErrorBody(NullTaskId));
    case Success(Some(task)) => resp := Response(201, TaskBody(task));
  }

  /**
   * PUT `/:id`, its `try` block: 404 for an unknown id; otherwise set exactly the
   * fields present in the body (the title verbatim) and answer with the row re-read.
   * A body with neither field makes an empty SET clause, which the engine rejects;
   * that error and any store error are thrown out of the block.
   */
  method UpdateTask(db: Database, id: int, patch: Patch, outage: Outage) returns (r: Result<Response, string>)
    requires db.Valid()
    modifies db
    ensures db.Valid() && db.hasTable == old(db.hasTable) && db.nextId == old(db.nextId)
    ensures db.rows.Keys == old(db.rows).Keys
    ensures FailsAtStep(outage, 0) ==> r == Failure(outage.message)
    ensures !FailsAtStep(outage, 0) && !db.hasTable ==> r == Failure(NoSuchTable)
    ensures r == Success(Response(404, ErrorBody(NotFound))) <==> !FailsAtStep(outage, 0) && db.hasTable && id !in old(db.rows)
    ensures FailsAtStep(outage, 0) || !db.hasTable || id !in old(db.rows) || FailsAtStep(outage, 1) || patch == Patch(None, None) ==>
      db.rows == old(db.rows) && db.clock == old(db.clock)
    ensures !FailsAtStep(outage, 0) && db.hasTable && id in old(db.rows) ==>
      r == if FailsAtStep(outage, 1) then Failure(outage.message)
           else if patch == Patch(None, None) then Failure(EmptySetClause)
           else if FailsAtStep(outage, 2) then Failure(outage.message)
           else Success(Response(200, TaskBody(db.rows[id])))
    ensures !FailsAtStep(outage, 0) && db.hasTable && id in old(db.rows) && !FailsAtStep(outage, 1) && patch != Patch(None, None) ==>
      && db.clock == old(db.clock) + 1
      && db.rows == old(db.rows)[id := Patched(old(db.rows)[id], patch, db.clock)]
      && (db.rows[id].title != old(db.rows)[id].title || db.rows[id].completed != old(db.rows)[id].completed ==>
            db.rows[id].updatedAt > old(db.rows)[id].updatedAt)
  {
    var found := db.SelectById(id, FaultAt(outage, 0));
    var task := GetOne(found);
    if task.Failure? {
      return Failure(task.error);
    }
    if task.value.None? {
      return Success(Response(404, ErrorBody(NotFound)));
    }
    var updated := db.Update(id, patch, FaultAt(outage, 1));
    if updated.Failure? {
      return Failure(updated.error);
    }
    var reread := db.SelectById(id, FaultAt(outage, 2));
    match GetOne(reread)
    case Failure(e) => r := Failure(e);
    case Success(None) => r := Success(Response(200, NullBody));
    case Success(Some(t)) => r := Success(Response(200, TaskBody(t)));
  }

  /**
   * DELETE `/:id`, its `try` block: 404 for an unknown id; otherwise remove exactly
   * that row and answer with a confirmation holding the row as it was before the
   * delete. Store errors are thrown out of the block.
   */
  method DeleteTask(db: Database, id: int, outage: Outage) returns (r: Result<Response, string>)
    requires db.Valid()
    modifies db
    ensures db.Valid() && db.hasTable == old(db.hasTable) && db.nextId == old(db.nextId) && db.clock == old(db.clock)
    ensures FailsAtStep(outage, 0) ==> r == Failure(outage.message)
    ensures !FailsAtStep(outage, 0) && !db.hasTable ==> r == Failure(NoSuchTable)
    ensures !FailsAtStep(outage, 0) && db.hasTable ==>
      r == if id !in old(db.rows) then Success(Response(404, ErrorBody(NotFound)))
           else if FailsAtStep(outage, 1) then Failure(outage.message)
           else Success(Response(200, DeletedBody(DeletedMessage, old(db.rows)[id])))
    ensures r.Success? && r.value.status == 200 ==> db.rows == old(db.rows) - {id}
    ensures !(r.Success? && r.value.status == 200) ==> db.rows == old(db.rows)
  {
    var found := db.SelectById(id, FaultAt(outage, 0));
    var task := GetOne(found);
    if task.Failure? {
      return Failure(task.error);
    }
    if task.value.None? {
      return Success(Response(404, ErrorBody(NotFound)));
    }
    var deleted := db.Delete(id, FaultAt(outage, 1));
    if deleted.Failure? {
      return Failure(deleted.error);
    }
    r := Success(Response(200, DeletedBody(DeletedMessage, task.value.value)));
  }

  /**
   * A failing statement in GET, PUT or DELETE `/:id` leaves the request unanswered as
   * written, where the catch block evidently means to answer 500 with the message:
   * the store fails on GET, PUT sends an empty body for an existing row, and the
   * DELETE statement fails after the row was found.
   */
  method UnansweredErrorsScenario(db: Database) returns (get: Result<Response, string>, put: Result<Response, string>, del: Result<Response, string>)
    requires db.Valid() && db.hasTable && 1 in db.rows
    modifies db
    ensures IdRouteCatch(get) == Rejected(IdNotDefined)
    ensures IdRouteCatchScoped(get) == Answered(Response(500, ErrorBody("boom")))
    ensures IdRouteCatch(put) == Rejected(IdNotDefined)
    ensures IdRouteCatchScoped(put) == Answered(Response(500, ErrorBody(EmptySetClause)))
    ensures IdRouteCatch(del) == Rejected(IdNotDefined)
    ensures IdRouteCatchScoped(del) == Answered(Response(500, ErrorBody("boom")))
  {
    get := GetTask(db, 1, FailsAt(0, "boom"));
    put := UpdateTask(db, 1, Patch(None, None), Healthy);
    del := DeleteTask(db, 1, FailsAt(1, "boom"));
  }

  /** The empty title and a whitespace-only title are both rejected by POST. */
  lemma BlankTitlesRejected()
    ensures !AcceptableTitle(Some("")) && !AcceptableTitle(Some("   "))
  {
    Text.TrimEmptyIffBlank("   ");
  }

  /** Surrounding whitespace does not make a title blank. */
  lemma PaddedTitleAccepted()
    ensures AcceptableTitle(Some(" Buy milk "))
  {
    var s := " Buy milk ";
    assert !Text.IsSpace(s[1]);
    Text.TrimEmptyIffBlank(s);
  }

  /**
   * Create "Buy milk", mark it completed, delete it, read it back and delete it again,
   * with the store healthy throughout.
   */
  method LifecycleScenario(db: Database)
    returns (created: Response, completed: Response, deleted: Response, reread: Response, deletedAgain: Response)
    requires db.Valid() && db.hasTable
    modifies db
    ensures created.status == 201 && created.body.TaskBody?
    ensures created.body.task.title == "Buy milk" && !created.body.task.completed
    ensures completed.status == 200 && completed.body.TaskBody?
    ensures completed.body.task.completed && completed.body.task.title == "Buy milk"
    ensures completed.body.task.id == created.body.task.id
    ensures deleted.status == 200 && deleted.body.DeletedBody? && deleted.body.deletedTask == completed.body.task
    ensures reread == Response(404, ErrorBody(NotFound)) && deletedAgain == Response(404, ErrorBody(NotFound))
    ensures db.rows == old(db.rows) && db.nextId == old(db.nextId) + 1
  {
    ghost var rows0 := db.rows;
    Text.TrimStartKeeps("Buy milk");
    Text.TrimEndKeeps("Buy milk");
    assert Text.Trim("Buy milk") == "Buy milk";
    created := CreateTask(db, Some("Buy milk"), Healthy);
    var id := created.body.task.id;
    assert id !in rows0 && id in db.rows;
    var tried := UpdateTask(db, id, Patch(None, Some(true)), Healthy);
    completed := IdRouteCatchScoped(tried).response;
    assert db.rows == rows0[id := completed.body.task];
    tried := DeleteTask(db, id, Healthy);
    deleted := IdRouteCatchScoped(tried).response;
    assert db.rows == rows0 by { RemovingNewRowRestores(rows0, id, completed.body.task); }
    tried := GetTask(db, id, Healthy);
    reread := IdRouteCatchScoped(tried).response;
    tried := DeleteTask(db, id, Healthy);
    deletedAgain := IdRouteCatchScoped(tried).response;
  }

  /** Adding a row under a fresh id and then deleting it leaves the table as it was. */
  lemma RemovingNewRowRestores(rows: map<int, Task>, id: int, t: Task)
    requires id !in rows
    ensures rows[id := t] - {id} == rows
  {
  }
}
