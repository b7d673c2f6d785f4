# Task API route handlers — a Dafny model

This project models the five route handlers of a small HTTP task API
(`src/routes.js`): list (`GET /tasks`), create (`POST /tasks`), replace
(`PUT /tasks/:id`), delete (`DELETE /tasks/:id`) and complete
(`PATCH /tasks/:id/complete`). Each handler is a pure function from the
current "tasks" table, the request (path `id`, `search` query parameter,
parsed body) and the readings of `Date.now()` to an `Outcome`: either a
response (status and payload) with the table it leaves, or an exception
thrown before the table was touched.

Modules, leaf first:

- `Wrappers` (`wrappers.dfy`): `Option`, standing for JavaScript `null`.
- `Js` (`js.dfy`): the JSON values a body property can hold, JavaScript
  truthiness (ToBoolean, section 7.1.2 of ECMA-262) and the two exceptions
  the handlers can throw.
- `Tasks` (`tasks.dfy`): the `Task` record, the `Fields` record handed to
  `update`, the table as `seq<Task>`, its id set and the unique-id predicate.
- `Database` (`database.dfy`): the store's four operations with the
  semantics the handlers rely on. The store's own source is not part of this
  model, so these are stated assumptions: `select` with the null filter
  returns the whole table, with `{ id }` the records whose id equals it
  (exact match), in table order; `insert` appends; `update` gives the first
  record with that id the new fields and keeps its id and place; `delete`
  removes that record. A missing id makes `update` and `delete` no-ops.
- `Routes` (`routes.dfy`): the handlers; `Handle`, which maps each entry
  of the `routes` array to its handler as written (DELETE included); and
  `HandleIntended`, the same routes with DELETE as evidently intended.
- `Lifecycle` (`lifecycle.dfy`): what holds across requests and runs of
  requests through `Handle`.

Details the model keeps from the code:

- The presence test is `!title && !description` on JavaScript values, so
  `""`, `0`, `false`, `null` and a missing property all count as absent.
- A null or undefined `req.body` makes the destructuring in POST and PUT
  throw a `TypeError`; PUT destructures the body before it validates, and
  validates before it looks the id up, so a bad body gives 400 even for an
  unknown id.
- PUT replaces `title` and `description` wholesale (a field missing from the
  body becomes `Undefined`), keeps `completed_at` and `created_at`, and sets
  `updated_at` from one reading of the clock.
- POST reads the clock twice (`created_at`, then `updated_at`); PATCH reads it
  twice (`completed_at`, then `updated_at`). `Clock(first, second)` holds the
  two readings.
- GET filters only when `search` is truthy: `?search=` lists every task.
- DELETE as written reads `selectedTask`, which it never declares, so it
  always throws a `ReferenceError`; see Findings.

## Model

| member | source | states |
|---|---|---|
| Database.Select | src/routes.js:14-21 | the null filter returns the whole table; the filter `{ id }` keeps exactly the records with that id; never longer than the table |
| Database.SelectById | src/routes.js:69-73 | selecting by id is empty exactly when no record has the id, and otherwise its first element (`selectedTask`) is the record a lookup by that key finds |
| Database.SelectUnique | src/routes.js:14-21 | on a table with unique ids, selecting by an id yields that single record or the empty list |
| Database.Insert | src/routes.js:49 | the table grows by the new record at the end; the id set gains its id; no other key's lookup changes; a fresh id keeps ids unique |
| Database.Update | src/routes.js:75-81 | length and id set unchanged; the key now finds the record with the new fields and the same id; every other position holds the record it held before; every other key finds what it found before; unique ids stay unique |
| Database.Delete | src/routes.js:96 | a present id shrinks the table by one: the records before its position stay in place and the ones after move up one, in order; the id disappears when ids are unique; every other key finds what it found before; an absent id changes nothing |
| Routes.List | src/routes.js:8-25 | always 200 with the table unchanged; with no or empty `search` the listing is the whole table, otherwise exactly the tasks with that id (one or none when ids are unique) |
| Routes.Create | src/routes.js:26-53 | a null body throws; 400 with the required-fields message and no change exactly when both fields are falsy; otherwise 201 and exactly one task appended with the fresh id, the given fields, `completed_at` null and the two clock readings, every other key unaffected |
| Routes.Replace | src/routes.js:54-85 | a null body throws; 400 exactly when both fields are falsy, whatever the id; then 404 exactly when the id is absent; 400 and 404 change nothing; 204 gives the task the body's fields, its old `completed_at` and `created_at`, `updated_at` = now, and leaves every other position of the table as it was |
| Routes.RemoveAsWritten | src/routes.js:86-100 | the handler as written always throws a `ReferenceError` |
| Routes.Remove | src/routes.js:86-100 | the evidently intended DELETE: 404 with no change exactly when the id is absent, otherwise 204 with that task removed and every other task kept, in order |
| Routes.Complete | src/routes.js:101-123 | 404 with no change exactly when the id is absent; otherwise 204 with `completed_at` set to the first clock reading, `updated_at` to the second, title, description and `created_at` kept, every other position of the table as it was |
| Routes.Handle | src/routes.js:7-124 | DELETE always throws, and POST and PUT throw exactly on a null body; statuses are among 200, 201, 204, 400, 404; 200, 400 and 404 never change the table; only POST can change its length |
| Routes.HandleIntended | src/routes.js:86-100 | with DELETE as evidently intended: only POST and PUT can throw, and only on a null body; DELETE answers 204 exactly when the id is stored; every other route behaves as in `Handle` |
| Lifecycle.HandleStep | src/routes.js:7-124 | with a fresh id and a clock that does not run backwards, any request keeps ids unique and every task's timestamps ordered (created ≤ completed ≤ updated), and adds no id but the fresh one |
| Lifecycle.HandleIntendedStep | src/routes.js:86-100 | the same step invariant holds with DELETE as evidently intended |
| Lifecycle.CreateStep | src/routes.js:29-51 | with a fresh id and a non-decreasing clock, POST keeps the table valid, dates nothing after the second reading, and adds only the fresh id |
| Lifecycle.ReplaceStep | src/routes.js:57-83 | PUT keeps the table valid and its id set unchanged, and dates nothing after its one clock reading |
| Lifecycle.RemoveStep | src/routes.js:86-100 | the intended DELETE keeps the table valid, dates nothing after the clock, and adds no id |
| Lifecycle.CompleteStep | src/routes.js:104-121 | PATCH keeps the table valid and its id set unchanged, dates nothing after its second reading, and completes an existing task no earlier than its last update before the request |
| Lifecycle.HandleKeepsHistory | src/routes.js:75-119 | across any request, a task still stored keeps its `created_at`, is never reopened once completed, and its `updated_at` never decreases |
| Lifecycle.RunPreservesValid | src/routes.js:7-124 | any sequence of requests with never-repeating fresh ids and a non-decreasing clock keeps the table valid and holds only initial or handed-out ids |
| Lifecycle.CompleteTwice | src/routes.js:107-121 | completing a task twice answers 204 and leaves it completed at the second call's reading, with its creation time intact |
| Lifecycle.BuyMilk | src/routes.js:8-123 | creating "buy milk" answers 201 and lists an open task with that title; completing it answers 204; searching by its id finds exactly that task, now completed |
| Lifecycle.RemoveAsWrittenNeverDeletes | src/routes.js:90-96 | for an existing task the handler as written leaves the table unchanged, while the intended handler answers 204 and removes one record |
| Lifecycle.RemoveAsWrittenCounterexample | src/routes.js:90-96 | on the one-task table `[a]`, DELETE `/tasks/a` as written throws a `ReferenceError`, while the intended handler answers 204 and empties the table |

## Left out

- The store's implementation and its file persistence are not part of this model; the four operations carry the semantics listed above, and a failed file write is not modelled.
- Database.Select: filters by exact id equality; the store's source, which decides between exact and substring matching, is not part of this model; a substring match is the other plausible reading.
- `buildRoutePath`, the dispatcher, query-string parsing and JSON body parsing are not part of this model: the path `id`, the `search` parameter and the parsed body arrive as inputs, and what the dispatcher does with a thrown exception is not modelled.
- `res.writeHead`, `res.end` and `JSON.stringify`: only the status code and the payload (task list, message text or nothing) are modelled.
- `randomUUID()` and `Date.now()` are parameters: `Env.uuid` and the `Clock` readings.
- Routes.Create: does not require the id to be fresh, as the source does not check it; uniqueness of ids is proved under freshness in the `Lifecycle` lemmas.
- Lifecycle.HandleKeepsHistory: states that `updated_at` never decreases rather than strictly increases, because `Date.now()` has millisecond resolution and two requests in the same millisecond read the same value.
- Lifecycle.HandleStep: assumes the clock never runs backwards; `Date.now()` is a wall clock and gives no such guarantee, so the timestamp ordering is not a promise of the code.
- Lifecycle.RunPreservesValid: runs requests through `Handle`, the routes as written; with DELETE as intended, `HandleIntendedStep` gives the same invariant one request at a time, without a run-level induction of its own.
- JSON numbers are exact reals; rounding to doubles (a literal such as `1e-400` parsing to `0`, and so falsy) is not modelled.

## Findings

| source | as written | input that shows it | evidently intended | confidence | as-written member | corrected member |
|---|---|---|---|---|---|---|
| src/routes.js:90-96 | the DELETE handler tests `selectedTask`, which is never declared in its scope, so it throws a `ReferenceError` before `database.delete` and never removes anything | `DELETE /tasks/a` on a table holding a task with id `a` | look the task up with `select` as PUT and PATCH do, answer 404 when absent, otherwise delete it and answer 204 | high; not executed | Routes.RemoveAsWritten (shown by Lifecycle.RemoveAsWrittenCounterexample) | Routes.Remove (dispatched by Routes.HandleIntended) |
