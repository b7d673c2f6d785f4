/** What holds of the table across requests: ids stay unique, a task keeps
    its id and creation time, a completed task stays completed, and the
    timestamps of a task stay ordered, given fresh ids from `randomUUID()`
    and a clock that does not run backwards. */
module Lifecycle {

  import opened Wrappers
  import opened Js
  import opened Tasks
  import opened Database
  import opened Routes

  /** The timestamps of one task are ordered: created, then completed, then
      last updated. */
  predicate WellFormed(t: Task) {
    && t.createdAt <= t.updatedAt
    && (t.completedAt.Some? ==> t.createdAt <= t.completedAt.value <= t.updatedAt)
  }

  predicate Valid(store: Table) {
    UniqueIds(store) && forall t | t in store :: WellFormed(t)
  }

  /** No stored task was touched after `time`. */
  predicate NotAfter(store: Table, time: Timestamp) {
    forall t | t in store :: t.updatedAt <= time
  }

  /** Successive readings of the clock do not decrease. */
  predicate Ticks(clock: Clock) {
    clock.first <= clock.second
  }

  /** A record that survives a change which kept every other key's lookup
      came from the old table. */
  lemma SurvivorsFromBefore(store: Table, after: Table, id: string)
    requires UniqueIds(after)
    requires forall other :: other != id ==> Lookup(after, other) == Lookup(store, other)
    ensures forall t :: t in after && t.id != id ==> t in store
  {
    forall t | t in after && t.id != id ensures t in store {
      var i :| 0 <= i < |after| && after[i] == t;
      LookupUnique(after, i);
      assert Lookup(store, t.id) == Some(t);
    }
  }

  /** What a step must leave behind: a valid table, nothing touched after
      `time`, and no id outside `ids`. */
  predicate StepResult(after: Table, time: Timestamp, ids: set<string>) {
    Valid(after) && NotAfter(after, time) && Ids(after) <= ids
  }

  /** One request keeps the table valid, touches nothing after the clock's
      last reading, and introduces no id but the fresh one. */
  lemma HandleStep(route: Route, req: Request, env: Env, store: Table)
    requires Valid(store) && env.uuid !in Ids(store)
    requires Ticks(env.clock) && NotAfter(store, env.clock.first)
    ensures StepResult(After(Handle(route, req, env, store), store), env.clock.second, Ids(store) + {env.uuid})
  {
    match route
    case GetTasks =>
    case PostTasks => CreateStep(store, req.body, env.uuid, env.clock);
    case PutTask => ReplaceStep(store, req.id, req.body, env.clock.first);
    case DeleteTask =>
    case PatchComplete => CompleteStep(store, req.id, env.clock);
  }

  /** The same holds with DELETE as evidently intended. */
  lemma HandleIntendedStep(route: Route, req: Request, env: Env, store: Table)
    requires Valid(store) && env.uuid !in Ids(store)
    requires Ticks(env.clock) && NotAfter(store, env.clock.first)
    ensures StepResult(After(HandleIntended(route, req, env, store), store), env.clock.second, Ids(store) + {env.uuid})
  {
    if route == DeleteTask {
      RemoveStep(store, req.id, env.clock);
    } else {
      HandleStep(route, req, env, store);
    }
  }

  lemma CreateStep(store: Table, body: Body, uuid: string, clock: Clock)
    requires Valid(store) && uuid !in Ids(store)
    requires Ticks(clock) && NotAfter(store, clock.first)
    ensures StepResult(After(Create(store, body, uuid, clock), store), clock.second, Ids(store) + {uuid})
  {
  }

  /** After an update of `id` that kept every other key, the table is valid
      when the record now under `id` is well formed and recent enough. */
  lemma UpdatedStep(store: Table, after: Table, id: string, time: Timestamp)
    requires Valid(store) && NotAfter(store, time) && UniqueIds(after)
    requires Ids(after) == Ids(store)
    requires forall other :: other != id ==> Lookup(after, other) == Lookup(store, other)
    requires id in Ids(after) ==> WellFormed(Lookup(after, id).value) && Lookup(after, id).value.updatedAt <= time
    ensures StepResult(after, time, Ids(store))
  {
    SurvivorsFromBefore(store, after, id);
    forall t | t in after && t.id == id
      ensures WellFormed(t) && t.updatedAt <= time
    {
      var i :| 0 <= i < |after| && after[i] == t;
      LookupUnique(after, i);
    }
  }

  /** PUT, with `now` its one clock reading, keeps the table valid and its id
      set, and dates nothing after `now`. */
  lemma ReplaceStep(store: Table, id: string, body: Body, now: Timestamp)
    requires Valid(store) && NotAfter(store, now)
    ensures var after := After(Replace(store, id, body, now), store);
      StepResult(after, now, Ids(store)) && Ids(after) == Ids(store)
  {
    var o := Replace(store, id, body, now);
    if o.Replied? && o.response.status == 204 {
      UpdatedStep(store, o.store, id, now);
    }
  }

  /** PATCH keeps the table valid and its id set, and the task it completes
      is completed no earlier than its last update before the request. */
  lemma CompleteStep(store: Table, id: string, clock: Clock)
    requires Valid(store) && Ticks(clock) && NotAfter(store, clock.first)
    ensures var after := After(Complete(store, id, clock), store);
      && StepResult(after, clock.second, Ids(store))
      && Ids(after) == Ids(store)
      && (id in Ids(store) ==>
            Lookup(after, id).value.completedAt.Some?
            && Lookup(store, id).value.updatedAt <= Lookup(after, id).value.completedAt.value)
  {
    var o := Complete(store, id, clock);
    if o.response.status == 204 {
      UpdatedStep(store, o.store, id, clock.second);
    }
  }

  /** The intended DELETE keeps the table valid and adds no id. */
  lemma RemoveStep(store: Table, id: string, clock: Clock)
    requires Valid(store) && Ticks(clock) && NotAfter(store, clock.first)
    ensures StepResult(After(Remove(store, id), store), clock.second, Ids(store))
  {
    var o := Remove(store, id);
    if o.response.status == 204 {
      SurvivorsFromBefore(store, o.store, id);
    }
  }

  /** Across any request, a task that is still stored keeps its creation
      time, is never reopened once completed, and is never dated back. */
  lemma HandleKeepsHistory(route: Route, req: Request, env: Env, store: Table, id: string)
    requires UniqueIds(store) && env.uuid !in Ids(store)
    requires Ticks(env.clock) && NotAfter(store, env.clock.first)
    requires id in Ids(store)
    ensures var after := After(Handle(route, req, env, store), store);
      id in Ids(after) ==>
        var before, now := Lookup(store, id).value, Lookup(after, id).value;
        && now.createdAt == before.createdAt
        && (before.completedAt.Some? ==> now.completedAt.Some?)
        && before.updatedAt <= now.updatedAt
  {
    var before := Lookup(store, id).value;
    assert before.updatedAt <= env.clock.first;
    match route
    case GetTasks =>
    case PostTasks =>
    case PutTask =>
    case DeleteTask =>
    case PatchComplete =>
  }

  /** A sequence of requests, each with its own fresh id and clock readings. */
  datatype Step = Step(route: Route, req: Request, env: Env)

  function Run(store: Table, steps: seq<Step>): Table
    decreases |steps|
  {
    if |steps| == 0 then store
    else
      var s := steps[0];
      Run(After(Handle(s.route, s.req, s.env, store), store), steps[1..])
  }

  function Uuids(steps: seq<Step>): set<string> {
    set s | s in steps :: s.env.uuid
  }

  /** What the environment guarantees a run: `randomUUID()` never repeats
      and never returns a stored id, and `Date.now()` never runs backwards. */
  predicate Schedule(store: Table, steps: seq<Step>) {
    && (forall i, j | 0 <= i < j < |steps| :: steps[i].env.uuid != steps[j].env.uuid)
    && (forall i | 0 <= i < |steps| :: steps[i].env.uuid !in Ids(store) && Ticks(steps[i].env.clock))
    && (forall i | 0 <= i < |steps| - 1 :: steps[i].env.clock.second <= steps[i + 1].env.clock.first)
    && (|steps| > 0 ==> NotAfter(store, steps[0].env.clock.first))
  }

  /** Any run of requests under such a schedule leaves a valid table whose
      ids are the initial ones or ids handed out during the run. */
  lemma {:induction false} RunPreservesValid(store: Table, steps: seq<Step>)
    requires Valid(store) && Schedule(store, steps)
    ensures Valid(Run(store, steps))
    ensures Ids(Run(store, steps)) <= Ids(store) + Uuids(steps)
    decreases |steps|
  {
    if |steps| > 0 {
      var s := steps[0];
      var next := After(Handle(s.route, s.req, s.env, store), store);
      HandleStep(s.route, s.req, s.env, store);
      var rest := steps[1..];
      assert forall i | 0 <= i < |rest| :: rest[i] == steps[i + 1];
      forall i | 0 <= i < |rest| ensures rest[i].env.uuid !in Ids(next) {
        assert steps[0].env.uuid != steps[i + 1].env.uuid;
      }
      assert Schedule(next, rest);
      RunPreservesValid(next, rest);
      assert forall x :: x in steps <==> x == s || x in rest;
      assert Uuids(steps) == {s.env.uuid} + Uuids(rest);
    }
  }

  /** Completing a task twice leaves it completed, at the second reading. */
  lemma CompleteTwice(store: Table, id: string, c1: Clock, c2: Clock)
    requires id in Ids(store)
    ensures var once := Complete(store, id, c1).store;
      var twice := Complete(once, id, c2);
      && twice.response.status == 204
      && Lookup(twice.store, id).value.completedAt == Some(c2.first)
      && Lookup(twice.store, id).value.createdAt == Lookup(store, id).value.createdAt
  {
  }

  /** The walk-through: create "buy milk", see it open in the listing,
      complete it, and find it completed when searching by its id. */
  lemma BuyMilk(store: Table, uuid: string, c1: Clock, c2: Clock)
    requires Valid(store) && uuid !in Ids(store) && uuid != ""
    ensures var post := Create(store, Object(Str("buy milk"), Undefined), uuid, c1);
      && post.Replied? && post.response.status == 201
      && (var listed := List(post.store, None).response.payload.tasks;
          exists t | t in listed :: t.id == uuid && t.title == Str("buy milk") && t.completedAt == None)
      && (var patch := Complete(post.store, uuid, c2);
          && patch.response.status == 204
          && (var found := List(patch.store, Some(uuid)).response.payload.tasks;
              |found| == 1 && found[0].id == uuid && found[0].completedAt == Some(c2.first)))
  {
  }

  /** DELETE as written never changes the table and never answers, while
      the intended handler removes an existing task. */
  lemma RemoveAsWrittenNeverDeletes(store: Table, id: string)
    requires id in Ids(store)
    ensures After(RemoveAsWritten(store, id), store) == store
    ensures Remove(store, id).response.status == 204
    ensures |After(Remove(store, id), store)| == |store| - 1
  {
  }

  /** A one-task table on which the two DELETE handlers disagree. */
  lemma RemoveAsWrittenCounterexample()
    ensures var t := Task("a", Str("x"), Undefined, None, 0, 0);
      && RemoveAsWritten([t], "a") == Threw(ReferenceError("selectedTask"))
      && Remove([t], "a") == Replied(Response(204, NoContent), [])
  {
  }
}
