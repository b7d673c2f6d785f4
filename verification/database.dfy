/** The store behind the handlers, reduced to the one table they use. The
    store's own source is not part of this model; its four operations are
    given the semantics the handlers rely on: `select` filters by exact id,
    `insert` appends, `update` replaces every field but the id of the first
    record with that id, `delete` removes that record. */
module Database {

  import opened Wrappers
  import opened Tasks

  lemma IdsCons(table: Table)
    requires |table| > 0
    ensures Ids(table) == {table[0].id} + Ids(table[1..])
  {
    assert forall t :: t in table <==> t == table[0] || t in table[1..];
  }

  /** Position of the first record carrying `id`. */
  function IndexOf(table: Table, id: string): (r: Option<nat>)
    ensures r.Some? ==> r.value < |table| && table[r.value].id == id
    ensures r.Some? ==> forall j :: 0 <= j < r.value ==> table[j].id != id
    ensures r.None? <==> id !in Ids(table)
  {
    if |table| == 0 then None
    else
      IdsCons(table);
      if table[0].id == id then Some(0)
      else
        match IndexOf(table[1..], id)
        case None => None
        case Some(k) => Some(k + 1)
  }

  /** A position holding `id` with no earlier one is the position `IndexOf` finds. */
  lemma IndexOfFirst(table: Table, id: string, k: nat)
    requires k < |table| && table[k].id == id
    requires forall j :: 0 <= j < k ==> table[j].id != id
    ensures IndexOf(table, id) == Some(k)
  {
    assert table[k] in table;
  }

  /** `IndexOf` depends on nothing but the sequence of ids. */
  lemma IndexOfSameIds(a: Table, b: Table)
    requires |a| == |b|
    requires forall j :: 0 <= j < |a| ==> a[j].id == b[j].id
    ensures forall id :: IndexOf(a, id) == IndexOf(b, id)
    ensures Ids(a) == Ids(b)
  {
    forall id
      ensures IndexOf(a, id) == IndexOf(b, id)
    {
      match IndexOf(a, id)
      case Some(k) => IndexOfFirst(b, id, k);
      case None =>
    }
    forall x | x in Ids(a) ensures x in Ids(b) {
      assert IndexOf(b, x).Some?;
    }
    forall x | x in Ids(b) ensures x in Ids(a) {
      assert IndexOf(a, x).Some?;
    }
  }

  /** The record a lookup by key finds: the first one with that id. */
  function Lookup(table: Table, id: string): (r: Option<Task>)
    ensures r.Some? ==> r.value in table && r.value.id == id
    ensures r.None? <==> id !in Ids(table)
  {
    match IndexOf(table, id)
    case None => None
    case Some(k) => Some(table[k])
  }

  /** With unique ids, every stored record is the one its key finds. */
  lemma LookupUnique(table: Table, i: nat)
    requires UniqueIds(table)
    requires i < |table|
    ensures Lookup(table, table[i].id) == Some(table[i])
  {
    IndexOfFirst(table, table[i].id, i);
  }

  /** Whether a record passes the filter `{ id }` (`None` is the null filter). */
  predicate Matches(t: Task, filter: Option<string>) {
    filter.None? || t.id == filter.value
  }

  /** `select("tasks", filter)`: the matching records, in table order. */
  function Select(table: Table, filter: Option<string>): (r: Table)
    ensures filter.None? ==> r == table
    ensures forall t :: t in r <==> t in table && Matches(t, filter)
    ensures |r| <= |table|
  {
    if |table| == 0 then []
    else
      assert forall t :: t in table <==> t == table[0] || t in table[1..];
      (if Matches(table[0], filter) then [table[0]] else []) + Select(table[1..], filter)
  }

  /** Selecting by id is empty exactly when the id is absent, and otherwise
      starts with the record a lookup finds. */
  lemma {:induction false} SelectById(table: Table, id: string)
    ensures Select(table, Some(id)) == [] <==> id !in Ids(table)
    ensures Select(table, Some(id)) != [] ==> Select(table, Some(id))[0] == Lookup(table, id).value
    decreases |table|
  {
    if |table| > 0 {
      IdsCons(table);
      if table[0].id != id {
        SelectById(table[1..], id);
        assert Select(table, Some(id)) == Select(table[1..], Some(id));
        if id in Ids(table[1..]) {
          var k := IndexOf(table[1..], id).value;
          IndexOfFirst(table, id, k + 1);
        }
      } else {
        IndexOfFirst(table, id, 0);
      }
    }
  }

  /** With unique ids, selecting by id yields that one record or nothing. */
  lemma {:induction false} SelectUnique(table: Table, id: string)
    requires UniqueIds(table)
    ensures Select(table, Some(id)) == if id in Ids(table) then [Lookup(table, id).value] else []
    decreases |table|
  {
    SelectById(table, id);
    if |table| > 0 {
      IdsCons(table);
      if table[0].id == id {
        assert forall j :: 0 <= j < |table| - 1 ==> table[1..][j].id == table[j + 1].id;
        assert id !in Ids(table[1..]);
        SelectById(table[1..], id);
        IndexOfFirst(table, id, 0);
      } else {
        SelectUnique(table[1..], id);
        if id in Ids(table[1..]) {
          var k := IndexOf(table[1..], id).value;
          IndexOfFirst(table, id, k + 1);
        }
      }
    }
  }

  /** Selecting with a filter on a table with unique ids yields at most the
      one record the filter names. */
  lemma SelectFiltered(table: Table, filter: Option<string>)
    ensures UniqueIds(table) && filter.Some? ==>
      Select(table, filter) == if filter.value in Ids(table) then [Lookup(table, filter.value).value] else []
  {
    if UniqueIds(table) && filter.Some? {
      SelectUnique(table, filter.value);
    }
  }

  /** `insert("tasks", t)`: the table grows by `t` at the end. */
  function Insert(table: Table, t: Task): (r: Table)
    ensures |r| == |table| + 1 && r[..|table|] == table && r[|table|] == t
    ensures Ids(r) == Ids(table) + {t.id}
    ensures UniqueIds(table) && t.id !in Ids(table) ==> UniqueIds(r)
    ensures t.id !in Ids(table) ==> Lookup(r, t.id) == Some(t)
    ensures forall other :: other != t.id ==> Lookup(r, other) == Lookup(table, other)
  {
    InsertFacts(table, t);
    table + [t]
  }

  lemma InsertFacts(table: Table, t: Task)
    ensures Ids(table + [t]) == Ids(table) + {t.id}
    ensures t.id !in Ids(table) ==> Lookup(table + [t], t.id) == Some(t)
    ensures forall other :: other != t.id ==> Lookup(table + [t], other) == Lookup(table, other)
  {
    var r := table + [t];
    assert forall x :: x in r <==> x in table || x == t;
    assert r[|table|] in r;
    forall other | other != t.id
      ensures Lookup(r, other) == Lookup(table, other)
    {
      match IndexOf(table, other)
      case Some(k) => IndexOfFirst(r, other, k);
      case None =>
    }
    if t.id !in Ids(table) {
      forall j | 0 <= j < |table| ensures table[j].id != t.id {
        assert table[j] in table;
      }
      IndexOfFirst(r, t.id, |table|);
    }
  }

  /** `update("tasks", id, fields)`: the record with that id now carries
      `fields` and keeps its id and its place; a missing id changes nothing. */
  function Update(table: Table, id: string, f: Fields): (r: Table)
    ensures |r| == |table| && Ids(r) == Ids(table)
    ensures Lookup(r, id) == if id in Ids(table) then Some(Keyed(id, f)) else None
    ensures forall other :: other != id ==> Lookup(r, other) == Lookup(table, other)
    ensures UniqueIds(table) ==> UniqueIds(r)
    ensures forall i | 0 <= i < |table| && Some(i) != IndexOf(table, id) :: r[i] == table[i]
  {
    match IndexOf(table, id)
    case None => table
    case Some(k) =>
      IndexOfSameIds(table, table[k := Keyed(id, f)]);
      table[k := Keyed(id, f)]
  }

  /** `delete("tasks", id)`: the record with that id is gone and every other
      key still finds what it found before; a missing id changes nothing. */
  function Delete(table: Table, id: string): (r: Table)
    ensures id !in Ids(table) ==> r == table
    ensures id in Ids(table) ==> |r| == |table| - 1
    ensures Ids(r) <= Ids(table)
    ensures forall other :: other != id ==> Lookup(r, other) == Lookup(table, other)
    ensures UniqueIds(table) ==> UniqueIds(r) && Ids(r) == Ids(table) - {id}
    ensures id in Ids(table) ==>
      var k := IndexOf(table, id).value;
      r[..k] == table[..k] && r[k..] == table[k + 1..]
  {
    match IndexOf(table, id)
    case None => table
    case Some(k) =>
      RemoveAtFacts(table, k);
      table[..k] + table[k + 1..]
  }

  lemma RemoveAtFacts(table: Table, k: nat)
    requires k < |table|
    requires IndexOf(table, table[k].id) == Some(k)
    ensures var r := table[..k] + table[k + 1..];
      && Ids(r) <= Ids(table)
      && (forall other :: other != table[k].id ==> Lookup(r, other) == Lookup(table, other))
      && (UniqueIds(table) ==> UniqueIds(r) && Ids(r) == Ids(table) - {table[k].id})
  {
    var r := table[..k] + table[k + 1..];
    RemoveAtShape(table, k);
    forall other | other != table[k].id
      ensures Lookup(r, other) == Lookup(table, other)
    {
      RemoveAtLookup(table, k, other);
    }
    if UniqueIds(table) {
      RemoveAtUnique(table, k);
    }
  }

  /** Where each surviving record sits after removing position `k`. */
  lemma RemoveAtShape(table: Table, k: nat)
    requires k < |table|
    ensures var r := table[..k] + table[k + 1..];
      && |r| == |table| - 1
      && (forall i :: 0 <= i < k ==> r[i] == table[i])
      && (forall i :: k <= i < |r| ==> r[i] == table[i + 1])
      && Ids(r) <= Ids(table)
  {
    var r := table[..k] + table[k + 1..];
    assert forall x :: x in r ==> x in table;
  }

  lemma RemoveAtLookup(table: Table, k: nat, other: string)
    requires k < |table| && table[k].id != other
    ensures Lookup(table[..k] + table[k + 1..], other) == Lookup(table, other)
  {
    var r := table[..k] + table[k + 1..];
    RemoveAtShape(table, k);
    match IndexOf(table, other)
    case Some(m) =>
      if m < k {
        IndexOfFirst(r, other, m);
      } else {
        IndexOfFirst(r, other, m - 1);
      }
    case None =>
  }

  lemma RemoveAtUnique(table: Table, k: nat)
    requires k < |table| && UniqueIds(table)
    ensures var r := table[..k] + table[k + 1..];
      UniqueIds(r) && Ids(r) == Ids(table) - {table[k].id}
  {
    var r := table[..k] + table[k + 1..];
    RemoveAtShape(table, k);
    forall i, j | 0 <= i < j < |r| ensures r[i].id != r[j].id {
      var i' := if i < k then i else i + 1;
      var j' := if j < k then j else j + 1;
      assert r[i] == table[i'] && r[j] == table[j'];
    }
    forall x | x in Ids(table) - {table[k].id} ensures x in Ids(r) {
      var j := IndexOf(table, x).value;
      assert j != k;
      if j < k {
        assert r[j] == table[j];
      } else {
        assert r[j - 1] == table[j];
      }
    }
    forall x | x in Ids(r) ensures x != table[k].id {
      var m := IndexOf(r, x).value;
      var m' := if m < k then m else m + 1;
      assert r[m] == table[m'];
    }
  }
}
