# To-do list: task table, REST handlers and client state, in Dafny

This project models the working core of a small full-stack to-do application.
- **Backend.** An Express server exposes a MySQL `tasks` table through a `/tasks` router. An older single-file variant of the same server is modelled too.
- **Startup and setup.** The server checks for the table at startup and seeds sample tasks. A one-off deployment script creates the database and table and seeds its own samples.
- **Frontend.** A React client keeps a copy of the task list in step with the server. It also renders the list, edits single tasks and submits new ones.

Each source file becomes one module:

| module | file | form |
|---|---|---|
| `Database` | `backend/database/database.js` and the `tasks` table it drives | class `Database` over a `map<int, Task>`, an AUTO_INCREMENT counter and a clock; seeding specified by the functions `SeedStep`/`SeedAll` |
| `Routes` | `backend/tasks/tasks.routes.js` | one method per handler, issuing statements against `Database` |
| `LegacyServer` | `backend/index.js` | class `LegacyStore` with its own table shape (`completed` as 0/1, no `updated_at`) |
| `RailwaySetup` | `backend/database/setup-railway.js` | a `Server` class (databases, open connections) and the setup method |
| `App` | `frontend/src/App.js` | class `AppState` with the component's state; the list transforms are functions |
| `TaskList` | `frontend/src/components/TaskList.js` | pure functions: sections, counts, percentage, the screen shown |
| `TaskItem` | `frontend/src/components/TaskItem.js` | class `TaskItem` with the card's state fields |
| `TaskForm` | `frontend/src/components/TaskForm.js` | class `TaskForm` with the form's state fields |

`Wrappers` (Option, Result), `Text` (JavaScript's `String.prototype.trim`) and `Tasks` are shared helpers. `Tasks` holds the `Task` row, the `Patch` of a PUT body and the `Outage` store-fault model.

**Store faults.** A request issues its SQL statements in order, numbered from 0. An `Outage` either is `Healthy` or makes statement number `step` fail with a given message. This is how the model shows what happens when a later statement fails: if the re-select after an INSERT fails, the answer is 500 but the row stays. A statement against a table that has not been created fails with the engine's "doesn't exist" message.

**Time.** `created_at` and `updated_at` come from a logical clock. It advances by one on every INSERT and on every UPDATE that matches a row, even one that changes no value (the row's `updated_at` then stays as it was); DELETE does not move it.

**Client handlers.** The client's awaited HTTP calls are inputs to the handler: a `Reply` holds either the response data or the axios error. `TaskItem` and `TaskForm` split their awaited handlers into two steps. A `Begin…`/`Submit` step runs up to the call and returns what it sends. A `…Settled` step runs the rest once the call has succeeded or failed. This makes "loading while the call is out" visible.

## Model

| member | source | states |
|---|---|---|
| `Text.TrimStart` | backend/tasks/tasks.routes.js:49 | the result is a suffix of the input, what was cut is all whitespace, and it does not start with whitespace |
| `Text.TrimEnd` | backend/tasks/tasks.routes.js:49 | the result is a prefix of the input, what was cut is all whitespace, and it does not end with whitespace |
| `Text.Trim` | backend/tasks/tasks.routes.js:49 | the trimmed title is no longer than the input and starts and ends with a non-whitespace character (or is empty) |
| `Text.TrimIsSlice` | backend/tasks/tasks.routes.js:55 | the stored title is a contiguous piece of the sent one, with only whitespace cut at either end |
| `Text.TrimEmptyIffBlank` | backend/tasks/tasks.routes.js:49 | `title.trim() === ''` holds exactly when the title is whitespace only, the empty title included |
| `Text.TrimIdempotent` | frontend/src/components/TaskItem.js:28 | trimming a trimmed title changes nothing |
| `Database.GetOne` | backend/database/database.js:146-149 | `getOne` yields the first row, null exactly for an empty result, and passes a failed query's error on unchanged |
| `Database.NeedsCreate` | backend/database/database.js:55-60 | the table is created exactly when no listed table is named `tasks` |
| `Database.NewerListedFirst` | backend/tasks/tasks.routes.js:10 | in a listing ordered by `created_at DESC`, a row created later appears before one created earlier |
| `Database.Patched` | backend/database/database.js:89 | an UPDATE replaces only the fields given and keeps the id and creation time; `updated_at` moves to the statement's time exactly when a value changed |
| `Database.InsertRow` | backend/database/database.js:119-122 | INSERT adds exactly one key, the next id, holding the title with `completed` false; the counter and the clock move by one; other rows are kept; a well-formed table stays well-formed |
| `Database.SeedStep` | backend/database/database.js:113-123 | after one round the title is present; a title already present leaves the table unchanged; a well-formed table stays well-formed and gains at most one row, with a fresh id and `completed` false |
| `Database.SeedAll` | backend/database/database.js:112-124 | seeding never drops a row id, and the last title handled is present afterwards |
| `Database.SeedAllAdds` | backend/database/database.js:105-124 | seeding keeps every existing row, adds only rows with a sample title and `completed` false under fresh ids, and leaves every sample title present |
| `Database.SeedAllPresent` | backend/database/database.js:118 | seeding a table that already holds every sample title changes nothing |
| `Database.SeedAllTwice` | backend/database/database.js:112-124 | seeding twice gives the same table as seeding once |
| `Database.SeedAllBound` | backend/database/database.js:105-124 | seeding adds at most as many rows as there are sample titles |
| `Database.Database.constructor` | backend/database/database.js:84-90 | a fresh database has no `tasks` table and no rows |
| `Database.Database.CreateTableIfNotExists` | backend/database/database.js:83-93 | `CREATE TABLE IF NOT EXISTS` creates an empty table when missing and never touches existing rows; a failure changes nothing |
| `Database.Database.SelectById` | backend/tasks/tasks.routes.js:28 | `SELECT … WHERE id = ?` yields exactly the row with that id, or no row; store errors pass through |
| `Database.Database.SelectAllNewestFirst` | backend/tasks/tasks.routes.js:10 | `ORDER BY created_at DESC` lists every row once, as stored, newest first |
| `Database.Database.SelectIdsByTitle` | backend/database/database.js:113-116 | `SELECT id … WHERE title = ?` yields exactly the ids of the rows with that title |
| `Database.Database.Insert` | backend/database/database.js:119-122 | INSERT adds exactly one row under the next AUTO_INCREMENT id, with `completed` FALSE and both timestamps now; nothing else changes |
| `Database.Database.Update` | backend/tasks/tasks.routes.js:88-93 | UPDATE sets only the given fields of that row and reports the matched count; an empty SET clause is a syntax error |
| `Database.Database.Delete` | backend/tasks/tasks.routes.js:119 | DELETE removes exactly the row with that id and reports how many went |
| `Database.Database.SeedOne` | backend/database/database.js:113-123 | one check-then-insert round is `SeedStep` when its statements succeed and changes nothing when one fails |
| `Database.Database.SeedTitles` | backend/database/database.js:112-124 | the loop leaves the table as the seeding of the titles handled so far; the first failing statement stops it with that error |
| `Database.Database.Seed` | backend/database/database.js:104-129 | on success the table is the seeding of the samples; in any case old rows are kept, every added row has a sample title and a fresh id, at most as many rows are added as there are samples, and a table holding every title is unchanged |
| `Database.Database.InsertSampleData` | backend/database/database.js:103-130 | seeding with its error swallowed: a healthy store ends with every sample title present; seeding never removes or alters a row |
| `Database.Database.CreateTable` | backend/database/database.js:81-101 | create the table if missing, then seed; a failed CREATE is swallowed and leaves the table flag, rows, counter and clock as they were |
| `Database.Database.TestConnection` | backend/database/database.js:41-79 | a failure in the connection, database listing or table listing is fatal; otherwise a missing table is created and seeded and an existing one is left as it was |
| `Routes.ListTasks` | backend/tasks/tasks.routes.js:7-20 | 200 with every row once, newest first; otherwise 500 with `Error del servidor` and the store's message |
| `Routes.GetTask` | backend/tasks/tasks.routes.js:24-36 | the `try` block: 200 with exactly the row with that id, 404 `Tarea no encontrada` when there is none; a store error is thrown on to the catch block |
| `Routes.CreateTask` | backend/tasks/tasks.routes.js:44-66 | missing or blank title: 400 and no row; otherwise the trimmed title is inserted under a fresh id with `completed` false, and 201 returns that row, created after every existing row |
| `Routes.UpdateTask` | backend/tasks/tasks.routes.js:70-99 | the `try` block: 404 exactly for an unknown id, with no change; otherwise only the fields present change (title verbatim), other rows untouched, the clock advances so `updated_at` moves forward when a value changed, and the re-read row is answered; an empty body throws the engine's syntax error, a store error is thrown on |
| `Routes.DeleteTask` | backend/tasks/tasks.routes.js:108-125 | the `try` block: unknown id: 404; otherwise exactly that row is removed and the answer carries the row as it was before; a store error is thrown on and the table is then unchanged |
| `Routes.IdRouteCatch` | backend/tasks/tasks.routes.js:37-40 | the catch block as written: an answer from the `try` block goes out unchanged; every thrown error becomes the ReferenceError `id is not defined` and no response is sent |
| `Routes.IdRouteCatchScoped` | backend/tasks/tasks.routes.js:62-65 | the catch block with `id` in scope, as POST's works: always answers, with the `try` block's answer or with 500 and the error's message |
| `Routes.ScopedCatchAnswers` | backend/tasks/tasks.routes.js:100-103 | the two catch blocks agree exactly when the `try` block answered; as written every error goes unanswered |
| `Routes.UnansweredErrorsScenario` | backend/tasks/tasks.routes.js:126-129 | a failing lookup on GET, an empty PUT body and a failing DELETE statement each leave the request unanswered as written, and get 500 with the message once `id` is in scope |
| `Routes.AcceptableTitle` | backend/tasks/tasks.routes.js:49 | a title the router accepts is present and non-empty |
| `Routes.BlankTitlesRejected` | backend/tasks/tasks.routes.js:49-52 | the empty title and a whitespace-only title are both refused |
| `Routes.PaddedTitleAccepted` | backend/tasks/tasks.routes.js:49-55 | a title with surrounding spaces is accepted |
| `Routes.LifecycleScenario` | backend/tasks/tasks.routes.js:44-130 | create, complete, delete, re-read and delete again: 201, 200, 200, 404, 404, and the table ends as it began apart from the used id (no error is thrown, so the catch blocks play no part) |
| `LegacyServer.CompletedFlag` | backend/index.js:92 | `completed ? 1 : 0` writes 0 or 1, and the stored number has the request value's truthiness |
| `LegacyServer.LegacyAcceptsMore` | backend/index.js:74 | the old server accepts every title the router accepts, and also a whitespace-only one |
| `LegacyServer.LegacyAcceptsTitle` | backend/index.js:74 | `!title` refuses an absent title and the empty string, and nothing else |
| `LegacyServer.RowsBelow` | backend/index.js:64 | the scan below `k` is empty for `k <= 1`, holds at most `k - 1` rows, and every row it lists is stored |
| `LegacyServer.RowsBelowListing` | backend/index.js:64 | the unordered scan lists every row once, as stored (the model scans in id order) |
| `LegacyServer.LegacyStore.constructor` | backend/index.js:30-38 | the pool starts with no table and no rows |
| `LegacyServer.LegacyStore.CreateTableIfMissing` | backend/index.js:41-55 | CREATE TABLE IF NOT EXISTS at startup: rows untouched, a failure only logged |
| `LegacyServer.LegacyStore.List` | backend/index.js:62-69 | 200 with every row once, else 500 with the store's message |
| `LegacyServer.LegacyStore.Create` | backend/index.js:72-82 | a falsy title is 400; otherwise the title is stored as sent with `completed` 0 and echoed with the new id, without re-reading |
| `LegacyServer.LegacyStore.Update` | backend/index.js:85-98 | overwrites both columns (completed coerced to 0/1) and answers the matched count, 0 for an unknown id, never 404; an absent title is a 500 |
| `LegacyServer.LegacyStore.Delete` | backend/index.js:101-110 | removes the row and answers 1 or 0 deleted, never 404 |
| `RailwaySetup.Server.constructor` | backend/database/setup-railway.js:9-15 | a server with the given databases and no open connection |
| `RailwaySetup.SetupRailwayDatabase` | backend/database/setup-railway.js:5-89 | every error is passed on; the connection is closed either way; the database is created only when not listed; on success the table exists and holds every sample title; rows are only added, at most four; a re-run on a seeded table changes nothing |
| `RailwaySetup.ConfigureAndSeed` | backend/database/setup-railway.js:17-82 | the statements inside the error handler: preparation, the seeding loop, the two statistics queries, the first failure ending the run |
| `RailwaySetup.PrepareDatabase` | backend/database/setup-railway.js:19-46 | `CREATE DATABASE` only when the name is not listed, then `USE`, then `CREATE TABLE IF NOT EXISTS`; no row changes |
| `App.ServerMessage` | frontend/src/App.js:140 | the server's own error text when it sent a non-empty one, otherwise the fallback |
| `App.NatToString` | frontend/src/App.js:77 | the status in a banner is written as at least one decimal digit |
| `App.NatToStringRoundTrip` | frontend/src/App.js:118 | the digits written for a status read back as that status |
| `App.HealthFailureMessage` | frontend/src/App.js:74-82 | the health check always shows a non-empty banner |
| `App.FetchFailureMessage` | frontend/src/App.js:111-119 | the listing request always shows a non-empty banner |
| `App.HealthFailureKind` | frontend/src/App.js:74-82 | each kind holds exactly when its condition does, in App.js's precedence: timeout first, then an error response, then a request without an answer, then anything else |
| `App.FetchFailureKind` | frontend/src/App.js:111-119 | each kind holds exactly when its condition does, in App.js's precedence: timeout first, then 404, then no response, then any other error response |
| `App.HealthBannerRoundTrip` | frontend/src/App.js:74-82 | the health-check banner always tells which kind of failure occurred |
| `App.FetchBannerRoundTrip` | frontend/src/App.js:111-119 | the listing banner always tells which kind of failure occurred |
| `App.ReplaceById` | frontend/src/App.js:151-153 | the map keeps the length, puts the server's row at every entry with that id and keeps every other entry in place |
| `App.WithoutId` | frontend/src/App.js:168 | the filter never makes the list longer |
| `App.WithoutIdMembers` | frontend/src/App.js:168 | a task survives the delete filter exactly when it is in the list and has another id |
| `App.WithoutIdCounts` | frontend/src/App.js:168 | the filter drops every copy of the deleted id and keeps every copy of the others |
| `App.WithoutIdAppend` | frontend/src/App.js:168 | the filter keeps the survivors in their order (it distributes over concatenation) |
| `App.WithoutIdIdempotent` | frontend/src/App.js:168 | deleting the same id twice leaves the list as deleting it once |
| `App.WithoutIdAfterReplace` | frontend/src/App.js:151-153 | replacing by id changes nothing but the entries with that id |
| `App.WithoutIdKeepsOrder` | frontend/src/App.js:168 | the filter keeps distinct ids distinct and newest-first order newest first |
| `App.AddKeepsListing` | frontend/src/App.js:136 | prepending the created row to the server's listing gives the server's listing after the insert |
| `App.UpdateKeepsListing` | frontend/src/App.js:151-153 | replacing by id with the updated row gives the server's listing after the update |
| `App.DeleteKeepsListing` | frontend/src/App.js:168 | filtering out the deleted id gives the server's listing after the delete |
| `App.AppState.constructor` | frontend/src/App.js:44-49 | no tasks, loading, no error, both lights checking |
| `App.AppState.CheckSystemStatus` | frontend/src/App.js:52-88 | true exactly when `/health` answers; the backend light is then on and the database light follows the answer; an exception turns both off and shows the classified banner |
| `App.AppState.FetchTasks` | frontend/src/App.js:91-123 | `/tasks` is requested only after a healthy check; a failed check leaves the list unchanged; loading is off at the end whatever happened |
| `App.AppState.HandleAddTask` | frontend/src/App.js:131-143 | success prepends the server's row to the unchanged list; failure keeps the list and reports the server's message or the fallback |
| `App.AppState.HandleUpdateTask` | frontend/src/App.js:146-160 | success replaces the entries with that id by the server's row; failure keeps the list |
| `App.AppState.HandleDeleteTask` | frontend/src/App.js:163-174 | success drops the entries with that id, keeping the rest in order; failure keeps the list |
| `App.AppState.HandleRefresh` | frontend/src/App.js:177-181 | clears the banner and fetches again: afterwards the lights, the banner and the list are exactly as `FetchTasks` leaves them, so the banner is empty after a healthy check with a connected database and a listing |
| `TaskList.Pending` | frontend/src/components/TaskList.js:47 | the pending section holds only uncompleted tasks and is no longer than the list |
| `TaskList.Completed` | frontend/src/components/TaskList.js:48 | the completed section holds only completed tasks and is no longer than the list |
| `TaskList.Percentage` | frontend/src/components/TaskList.js:105 | the percentage is never negative and is 0 for an empty list |
| `TaskList.Partition` | frontend/src/components/TaskList.js:47-48 | every task lands in exactly one section, so the two counts add up to the total |
| `TaskList.PendingMembers` | frontend/src/components/TaskList.js:47 | a task is pending exactly when it is in the list and not completed |
| `TaskList.CompletedMembers` | frontend/src/components/TaskList.js:48 | a task is in the completed section exactly when it is in the list and completed |
| `TaskList.PendingKeepsOrder` | frontend/src/components/TaskList.js:47 | the pending section keeps the list's order |
| `TaskList.CompletedKeepsOrder` | frontend/src/components/TaskList.js:48 | the completed section keeps the list's order |
| `TaskList.PercentageRounds` | frontend/src/components/TaskList.js:103-107 | the percentage is 100·completed/total rounded half up, lies in 0..100, is 0 with nothing done and 100 with everything done |
| `TaskList.Render` | frontend/src/components/TaskList.js:7-44 | loading wins over an error, an error over an empty list, and the empty screen shows exactly for an empty list |
| `TaskList.ListViewConsistent` | frontend/src/components/TaskList.js:50-107 | on the list screen a section shows exactly when it has tasks, the counts add up and the percentage is in 0..100 |
| `TaskItem.ShowsEdited` | frontend/src/components/TaskItem.js:146 | the "edited" label shows exactly when the two timestamps differ |
| `TaskItem.EditedLabelTracksChanges` | frontend/src/components/TaskItem.js:146-150 | a new row has no "edited" label; an update that changes a value adds it; one that changes nothing keeps it as it was |
| `TaskItem.SavedTitleTrimmed` | frontend/src/components/TaskItem.js:28 | the title a save sends is non-empty and already trimmed |
| `TaskItem.TaskItem.constructor` | frontend/src/components/TaskItem.js:9-12 | a card starts in view mode with its fields from the task |
| `TaskItem.TaskItem.Edit` | frontend/src/components/TaskItem.js:14-17 | enter edit mode with the title reset to the task's |
| `TaskItem.TaskItem.ChangeTitle` | frontend/src/components/TaskItem.js:102 | typing replaces the edited title |
| `TaskItem.TaskItem.BeginSave` | frontend/src/components/TaskItem.js:19-30 | a blank title sends nothing and changes nothing; otherwise loading starts and the trimmed title goes out with the current flag |
| `TaskItem.TaskItem.SaveSettled` | frontend/src/components/TaskItem.js:31-37 | edit mode ends only on success; loading ends either way |
| `TaskItem.TaskItem.Cancel` | frontend/src/components/TaskItem.js:40-44 | title and flag are restored from the task and edit mode ends |
| `TaskItem.TaskItem.BeginToggle` | frontend/src/components/TaskItem.js:46-53 | the flag flips at once and only the new value is sent |
| `TaskItem.TaskItem.ToggleSettled` | frontend/src/components/TaskItem.js:54-58 | on failure the flag is set back to the opposite of what was sent |
| `TaskItem.TaskItem.ToggleComplete` | frontend/src/components/TaskItem.js:46-59 | the whole toggle: the flag ends flipped on success and back at its old value on failure |
| `TaskItem.TaskItem.Delete` | frontend/src/components/TaskItem.js:61-64 | the task's id is sent for deletion only when the user confirms |
| `TaskForm.TaskForm.constructor` | frontend/src/components/TaskForm.js:6-8 | empty title, not loading, no error |
| `TaskForm.TaskForm.Submit` | frontend/src/components/TaskForm.js:10-19 | a blank title only sets the error; otherwise loading starts, the error clears and the title is handed on as typed |
| `TaskForm.TaskForm.SubmitSettled` | frontend/src/components/TaskForm.js:21-30 | success clears the title and the error; failure keeps the title and shows a fixed error; loading ends either way |
| `TaskForm.TaskForm.KeyPress` | frontend/src/components/TaskForm.js:33-37 | Enter submits only when no submission is in progress |
| `TaskForm.TaskForm.Change` | frontend/src/components/TaskForm.js:45-48 | typing replaces the title and clears any error |
| `TaskForm.FormMatchesServerCheck` | frontend/src/components/TaskForm.js:13 | the form hands on exactly the titles the create route accepts |

## Left out

- MySQL I/O is left out: the pool, connections, SQL text, SSL, the timeouts and `connection.release`. The table is a map plus a counter, and each statement is atomic.
- Environment configuration (dotenv, `process.env`, `API_URL` selection, axios defaults and interceptors) is left out: it is configuration, not behaviour. `apiUrl` is a constructor parameter of `AppState`.
- Process and server plumbing is left out: `process.exit` (modelled as the `Fatal` outcome of `TestConnection` and the `Failure` of `SetupRailwayDatabase`), Express routing, JSON body parsing, CORS and `app.listen`.
- Logging through `console` is left out where it only prints: it has no effect on state. `CreateTableIfMissing` returns its logged message instead. Two kinds of log line have an effect and are modelled. The catch block of the three `/:id` routes is `Routes.IdRouteCatch`. POST's success log reads `newTask.id`, which throws when the re-select finds no row; that becomes the 500 with `NullTaskId` in `Routes.CreateTask`.
- What a client receives when a `/:id` route's promise rejects is left out: Express 4 sends nothing and reports an unhandled rejection, Express 5 sends its default error page. The model stops at `Rejected` with the error.
- React rendering is left out: JSX, icons, CSS classes, `alert`, `window.confirm` (a boolean parameter), `window.open`, `window.location.reload`, and the `disabled` and `maxLength` attributes of the inputs.
- `handleChangeBackendUrl` and `window.prompt` are left out: they only re-point the HTTP client and then refresh, which `HandleRefresh` models.
- `formatDate` is left out: it depends on the wall clock and on locale formatting.
- The `/health` endpoint's server code is not part of this model. Its answer is an input (`Reply<string>`, the `database` field).
- Concurrency is left out. This covers the check-then-act races in PUT, DELETE and seeding; the stale `tasks` closure in the client handlers; and requests that overlap or time out while others run. Each handler is atomic.
- Component remounting and props changing under a mounted `TaskItem` are left out.
- Floating point in `Math.round(completed / total * 100)` is left out: the ratio is an exact fraction, rounded half up.
- TIMESTAMP granularity is left out: the clock is logical and strictly increasing, so two rows never share a creation time. Two updates within one second, which MySQL would not tell apart from no update for the "edited" label, are not modelled.
- The `utf8mb4_unicode_ci` collation is left out: title comparison in seeding is exact, not case- or accent-insensitive.
- `VARCHAR(255)` length limits are left out.
- JSON values other than a string or an absent field for `title` (null, numbers, objects) are left out. For the legacy `completed` field the integer, boolean, null and string scalars are modelled; fractional numbers are left out.
- The router's `completed` is modelled as an optional boolean. Any other JSON value is left out: `null` would store NULL, and a string such as `"x"` would fail in strict SQL mode.
- Route ids arrive as strings from `req.params` and are compared by MySQL after conversion; the model takes them as integers.
- InnoDB's AUTO_INCREMENT counter after a server restart is left out: the counter never goes back.
- `setup-railway.js` connects once without choosing a database, then switches to `DB_NAME`. The model takes the `tasks` table inside that database as the given `Database` object and requires that table not to exist when the database does not.
- `App.AppState.HandleUpdateTask`: the router can answer 200 with a `null` body when the row vanishes between the update and the re-read. The client's reply is modelled as a task, so that case is not covered.
- `RailwaySetup.SetupRailwayDatabase`: the model assumes the engine accepts `USE <database>` sent through `connection.execute` (backend/database/setup-railway.js:33). mysql2's `execute` uses the prepared-statement protocol, and MySQL does not list `USE` among the statements it prepares: it answers ER_UNSUPPORTED_PS (1295). If so, the script as written stops at that step on every healthy server, and the clause `outage == Healthy ==> r.Success?` describes the script with `USE` sent through `query`.
- `RailwaySetup.PrepareDatabase`: the `USE` step fails only through the outage model; the engine's refusal of `USE` as a prepared statement, described in the previous line, is not modelled.
- `Database.Patched`: `updated_at` is declared `ON UPDATE CURRENT_TIMESTAMP`. MySQL applies this only when some column value actually changes, so an update that writes the same values leaves the timestamp as it was; the model follows that rule rather than refreshing the column on every UPDATE.
- `LegacyServer.RowsBelowListing`: `SELECT * FROM tasks` without `ORDER BY` promises no order. The model returns the rows in id order and states only that each row is listed once.

## Findings

| source | as written | input that shows it | evidently intended | confidence | as-written member | corrected member |
|---|---|---|---|---|---|---|
| backend/tasks/tasks.routes.js:37-40 | the catch block logs `${id}`, but `id` is declared with `const` inside `try`, so the log line throws a ReferenceError and no response is sent | `GET /tasks/1` while the lookup fails | answer 500 with `{ error: message }`, as POST does | not executed | `Routes.IdRouteCatch` | `Routes.IdRouteCatchScoped` |
| backend/tasks/tasks.routes.js:100-103 | the same out-of-scope `id` in PUT's catch block | `PUT /tasks/1` with body `{}` for an existing row: the empty SET clause is a syntax error | answer 500 with the engine's message | not executed | `Routes.IdRouteCatch` | `Routes.IdRouteCatchScoped` |
| backend/tasks/tasks.routes.js:126-129 | the same out-of-scope `id` in DELETE's catch block | `DELETE /tasks/1` when the DELETE statement fails after the row was found | answer 500 with the error's message | not executed | `Routes.IdRouteCatch` | `Routes.IdRouteCatchScoped` |
