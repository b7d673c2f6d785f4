/** The five route handlers of src/routes.js, each a pure function from the
    current table, the request and the readings of `Date.now()` to the
    response status and the table afterwards. */
module Routes {

  import opened Wrappers
  import opened Js
  import opened Tasks
  import opened Database

  /** `req.body` as the handlers destructure it: a null or undefined body,
      or anything else, whose `title` and `description` properties are read
      (a JSON body that is not an object has neither, so both are `Undefined`). */
  datatype Body = Nullish | Object(title: Value, description: Value)

  /** The readings of `Date.now()` a handler takes, in evaluation order. */
  datatype Clock = Clock(first: Timestamp, second: Timestamp)

  datatype Payload = NoContent | Listing(tasks: Table) | Message(text: string)

  datatype Response = Response(status: nat, payload: Payload)

  /** What one request does: a response and the table it leaves, or an
      exception thrown before the table was touched. */
  datatype Outcome = Replied(response: Response, store: Table) | Threw(error: Error)

  /** The table after the request. */
  function After(o: Outcome, store: Table): Table {
    if o.Replied? then o.store else store
  }

  const RequiredMessage: string := "title and description is required"

  /** The presence rule of POST and PUT: at least one field is truthy. */
  predicate HasContent(title: Value, description: Value) {
    Truthy(title) || Truthy(description)
  }

  /** The filter GET hands to `select`: `{ id: search }` when `search` is
      truthy, the null filter otherwise. */
  function SearchFilter(search: Option<string>): Option<string> {
    if search.Some? && Truthy(Str(search.value)) then Some(search.value) else None
  }

  /** GET /tasks */
  function List(store: Table, search: Option<string>): (o: Outcome)
    ensures o.Replied? && o.store == store
    ensures o.response.status == 200 && o.response.payload.Listing?
    ensures search.None? || search.value == "" ==> o.response.payload.tasks == store
    ensures search.Some? && search.value != "" ==>
      forall t :: t in o.response.payload.tasks <==> t in store && t.id == search.value
    ensures UniqueIds(store) && search.Some? && search.value != "" ==>
      o.response.payload.tasks == if search.value in Ids(store) then [Lookup(store, search.value).value] else []
  {
    SelectFiltered(store, SearchFilter(search));
    Replied(Response(200, Listing(Select(store, SearchFilter(search)))), store)
  }

  /** POST /tasks, with `uuid` the value `randomUUID()` returns. */
  function Create(store: Table, body: Body, uuid: string, clock: Clock): (o: Outcome)
    ensures o.Threw? <==> body.Nullish?
    ensures o.Replied? ==> o.response.status in {201, 400}
    ensures o.Replied? ==> (o.response.status == 400 <==> !HasContent(body.title, body.description))
    ensures o.Replied? && o.response.status == 400 ==>
      o.store == store && o.response.payload == Message(RequiredMessage)
    ensures o.Replied? && o.response.status == 201 ==>
      var t := Task(uuid, body.title, body.description, None, clock.first, clock.second);
      && o.response.payload == NoContent
      && |o.store| == |store| + 1 && o.store[..|store|] == store && o.store[|store|] == t
      && Ids(o.store) == Ids(store) + {uuid}
      && (uuid !in Ids(store) ==> Lookup(o.store, uuid) == Some(t) && (UniqueIds(store) ==> UniqueIds(o.store)))
      && (forall other :: other != uuid ==> Lookup(o.store, other) == Lookup(store, other))
  {
    match body
    case Nullish => Threw(TypeError("req.body"))
    case Object(title, description) =>
      if !Truthy(title) && !Truthy(description) then
        Replied(Response(400, Message(RequiredMessage)), store)
      else
        var task := Task(uuid, title, description, None, clock.first, clock.second);
        Replied(Response(201, NoContent), Insert(store, task))
  }

  /** PUT /tasks/:id, with `now` the one reading of `Date.now()`. */
  function Replace(store: Table, id: string, body: Body, now: Timestamp): (o: Outcome)
    ensures o.Threw? <==> body.Nullish?
    ensures o.Replied? ==> o.response.status in {204, 400, 404}
    ensures o.Replied? ==> (o.response.status == 400 <==> !HasContent(body.title, body.description))
    ensures o.Replied? && HasContent(body.title, body.description) ==>
      (o.response.status == 404 <==> id !in Ids(store))
    ensures o.Replied? && o.response.status != 204 ==> o.store == store
    ensures o.Replied? && o.response.status == 204 ==>
      && id in Ids(store)
      && (var prior := Lookup(store, id).value;
          Lookup(o.store, id) == Some(Task(id, body.title, body.description, prior.completedAt, prior.createdAt, now)))
      && (forall other :: other != id ==> Lookup(o.store, other) == Lookup(store, other))
      && |o.store| == |store| && Ids(o.store) == Ids(store)
      && (UniqueIds(store) ==> UniqueIds(o.store))
      && (forall i | 0 <= i < |store| && Some(i) != IndexOf(store, id) :: o.store[i] == store[i])
  {
    match body
    case Nullish => Threw(TypeError("req.body"))
    case Object(title, description) =>
      if !Truthy(title) && !Truthy(description) then
        Replied(Response(400, Message(RequiredMessage)), store)
      else
        var selected := Select(store, Some(id));
        SelectById(store, id);
        if |selected| == 0 then
          Replied(Response(404, NoContent), store)
        else
          var prior := selected[0];
          var fields := Fields(title, description, prior.completedAt, prior.createdAt, now);
          Replied(Response(204, NoContent), Update(store, id, fields))
  }

  /** DELETE /tasks/:id as written: the existence test reads `selectedTask`,
      which this handler never declares, so it throws before `delete`. */
  function RemoveAsWritten(store: Table, id: string): (o: Outcome)
    ensures o.Threw? && o.error.ReferenceError?
  {
    Threw(ReferenceError("selectedTask"))
  }

  /** DELETE /tasks/:id as evidently intended: look the task up the way PUT
      and PATCH do, answer 404 when it is absent, delete it otherwise. */
  function Remove(store: Table, id: string): (o: Outcome)
    ensures o.Replied?
    ensures o.response.status in {204, 404} && o.response.payload == NoContent
    ensures o.response.status == 404 <==> id !in Ids(store)
    ensures o.response.status == 404 ==> o.store == store
    ensures o.response.status == 204 ==>
      && |o.store| == |store| - 1
      && (forall other :: other != id ==> Lookup(o.store, other) == Lookup(store, other))
      && (UniqueIds(store) ==> UniqueIds(o.store) && Ids(o.store) == Ids(store) - {id})
      && (var k := IndexOf(store, id).value;
          o.store[..k] == store[..k] && o.store[k..] == store[k + 1..])
  {
    var selected := Select(store, Some(id));
    SelectById(store, id);
    if |selected| == 0 then
      Replied(Response(404, NoContent), store)
    else
      Replied(Response(204, NoContent), Delete(store, id))
  }

  /** PATCH /tasks/:id/complete; `clock.first` is read for `completed_at`,
      `clock.second` for `updated_at`. */
  function Complete(store: Table, id: string, clock: Clock): (o: Outcome)
    ensures o.Replied?
    ensures o.response.status in {204, 404} && o.response.payload == NoContent
    ensures o.response.status == 404 <==> id !in Ids(store)
    ensures o.response.status == 404 ==> o.store == store
    ensures o.response.status == 204 ==>
      && (var prior := Lookup(store, id).value;
          Lookup(o.store, id) == Some(Task(id, prior.title, prior.description, Some(clock.first), prior.createdAt, clock.second)))
      && (forall other :: other != id ==> Lookup(o.store, other) == Lookup(store, other))
      && |o.store| == |store| && Ids(o.store) == Ids(store)
      && (UniqueIds(store) ==> UniqueIds(o.store))
      && (forall i | 0 <= i < |store| && Some(i) != IndexOf(store, id) :: o.store[i] == store[i])
  {
    var selected := Select(store, Some(id));
    SelectById(store, id);
    if |selected| == 0 then
      Replied(Response(404, NoContent), store)
    else
      var prior := selected[0];
      var fields := Fields(prior.title, prior.description, Some(clock.first), prior.createdAt, clock.second);
      Replied(Response(204, NoContent), Update(store, id, fields))
  }

  /** The entries of the `routes` array, by method and path. */
  datatype Route = GetTasks | PostTasks | PutTask | DeleteTask | PatchComplete

  /** What the dispatcher hands a handler: the `:id` path parameter, the
      `search` query parameter and the parsed body. */
  datatype Request = Request(id: string, search: Option<string>, body: Body)

  /** The outside world a request sees: the value `randomUUID()` returns and
      the readings of `Date.now()`. */
  datatype Env = Env(uuid: string, clock: Clock)

  /** Runs the handler the `routes` array registers for `route`, DELETE
      included as written. */
  function Handle(route: Route, req: Request, env: Env, store: Table): (o: Outcome)
    ensures o.Threw? <==> route == DeleteTask || ((route == PostTasks || route == PutTask) && req.body.Nullish?)
    ensures o.Replied? ==> o.response.status in {200, 201, 204, 400, 404}
    ensures o.Replied? && o.response.status in {200, 400, 404} ==> o.store == store
    ensures route != PostTasks ==> |After(o, store)| == |store|
  {
    match route
    case GetTasks => List(store, req.search)
    case PostTasks => Create(store, req.body, env.uuid, env.clock)
    case PutTask => Replace(store, req.id, req.body, env.clock.first)
    case DeleteTask => RemoveAsWritten(store, req.id)
    case PatchComplete => Complete(store, req.id, env.clock)
  }

  /** The same routes with DELETE as evidently intended. */
  function HandleIntended(route: Route, req: Request, env: Env, store: Table): (o: Outcome)
    ensures o.Threw? <==> (route == PostTasks || route == PutTask) && req.body.Nullish?
    ensures o.Replied? ==> o.response.status in {200, 201, 204, 400, 404}
    ensures o.Replied? && o.response.status in {200, 400, 404} ==> o.store == store
    ensures route == DeleteTask ==> (o.response.status == 204 <==> req.id in Ids(store))
    ensures route != DeleteTask ==> o == Handle(route, req, env, store)
  {
    if route == DeleteTask then Remove(store, req.id) else Handle(route, req, env, store)
  }
}
