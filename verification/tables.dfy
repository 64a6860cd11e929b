/**
 * A database table behind a Spring Data `JpaRepository` whose primary key is an
 * IDENTITY column: rows keyed by id, plus the next id the database will hand out.
 * Ids are handed out in increasing order, so ascending id order is insertion order;
 * the model takes it as the order in which `findAll` lists rows.
 */
module Tables {
  import opened Wrappers

  type Id = nat

  datatype Table<T> = Table(rows: map<Id, T>, next: Id)

  /** Every stored id was handed out before `next`. */
  ghost predicate Valid<T>(t: Table<T>) {
    forall id :: id in t.rows ==> id < t.next
  }

  /** `findById`. */
  function Find<T>(t: Table<T>, id: Id): (r: Option<T>)
    ensures r.Some? <==> id in t.rows
    ensures r.Some? ==> r.value == t.rows[id]
  {
    if id in t.rows then Some(t.rows[id]) else None
  }

  /** `save` of a new entity: the row gets the next generated id. */
  function Insert<T>(t: Table<T>, v: T): (r: (Table<T>, Id))
    ensures Valid(t) ==> Valid(r.0) && r.1 !in t.rows
    ensures r.0.rows == t.rows[r.1 := v]
    ensures r.1 < r.0.next
  {
    (Table(t.rows[t.next := v], t.next + 1), t.next)
  }

  /** `save` of an entity that already has a row. */
  function Store<T>(t: Table<T>, id: Id, v: T): (r: Table<T>)
    requires id in t.rows
    ensures Valid(t) ==> Valid(r)
    ensures r.rows.Keys == t.rows.Keys && r.rows[id] == v
    ensures forall k :: k in t.rows && k != id ==> r.rows[k] == t.rows[k]
  {
    t.(rows := t.rows[id := v])
  }

  /** `deleteById` / `delete`: the id is never handed out again. */
  function Remove<T>(t: Table<T>, id: Id): (r: Table<T>)
    ensures Valid(t) ==> Valid(r)
    ensures r.rows.Keys == t.rows.Keys - {id}
    ensures forall k :: k in r.rows ==> r.rows[k] == t.rows[k]
    ensures r.next == t.next
  {
    t.(rows := t.rows - {id})
  }

  ghost predicate Ascending(ids: seq<Id>) {
    forall i, j :: 0 <= i < j < |ids| ==> ids[i] < ids[j]
  }

  /** The ids below `hi` whose rows satisfy `keep`, in ascending order. */
  function IdsWhereBelow<T>(rows: map<Id, T>, keep: T -> bool, hi: nat): (ids: seq<Id>)
    ensures forall i :: 0 <= i < |ids| ==> ids[i] in rows && ids[i] < hi && keep(rows[ids[i]])
    ensures forall id :: id in rows && id < hi && keep(rows[id]) ==> id in ids
    ensures Ascending(ids)
    decreases hi
  {
    if hi == 0 then []
    else
      var below := IdsWhereBelow(rows, keep, hi - 1);
      var top := hi - 1;
      if top in rows && keep(rows[top]) then below + [top] else below
  }

  /** The ids of the rows that satisfy `keep`, in store order. */
  function IdsWhere<T>(t: Table<T>, keep: T -> bool): (ids: seq<Id>)
    ensures forall i :: 0 <= i < |ids| ==> ids[i] in t.rows && keep(t.rows[ids[i]])
    ensures Valid(t) ==> forall id :: id in t.rows && keep(t.rows[id]) ==> id in ids
    ensures Ascending(ids)
  {
    IdsWhereBelow(t.rows, keep, t.next)
  }

  /** The rows that satisfy `keep`, with their ids, in store order: `findAll()` followed by
      `stream().filter(keep)`, or a derived query with a `where` clause. */
  function RowsWhere<T>(t: Table<T>, keep: T -> bool): (rs: seq<(Id, T)>)
    ensures forall i :: 0 <= i < |rs| ==> rs[i].0 in t.rows && rs[i].1 == t.rows[rs[i].0] && keep(rs[i].1)
    ensures Valid(t) ==> forall id :: id in t.rows && keep(t.rows[id]) ==> exists i :: 0 <= i < |rs| && rs[i].0 == id
    ensures forall i, j :: 0 <= i < j < |rs| ==> rs[i].0 < rs[j].0
  {
    var ids := IdsWhere(t, keep);
    var rs := seq(|ids|, i requires 0 <= i < |ids| => (ids[i], t.rows[ids[i]]));
    assert forall id :: id in ids ==> exists i :: 0 <= i < |rs| && rs[i].0 == id by {
      forall id | id in ids
        ensures exists i :: 0 <= i < |rs| && rs[i].0 == id
      {
        var i :| 0 <= i < |ids| && ids[i] == id;
        assert rs[i].0 == id;
      }
    }
    rs
  }

  /** `findAll()`: every row, in store order. */
  function All<T>(t: Table<T>): (rs: seq<(Id, T)>)
    ensures forall i :: 0 <= i < |rs| ==> rs[i].0 in t.rows && rs[i].1 == t.rows[rs[i].0]
    ensures Valid(t) ==> forall id :: id in t.rows ==> exists i :: 0 <= i < |rs| && rs[i].0 == id
    ensures forall i, j :: 0 <= i < j < |rs| ==> rs[i].0 < rs[j].0
  {
    RowsWhere(t, _ => true)
  }

  lemma AscendingDistinct(ids: seq<Id>, i: nat, j: nat)
    requires Ascending(ids) && i < j < |ids|
    ensures ids[i] != ids[j]
  {
  }

  /** An ascending sequence that holds `x` and nothing else has exactly one element. */
  lemma AscendingSingleton(ids: seq<Id>, x: Id)
    requires Ascending(ids)
    requires x in ids
    requires forall i :: 0 <= i < |ids| ==> ids[i] == x
    ensures ids == [x]
  {
    if |ids| > 1 {
      AscendingDistinct(ids, 0, 1);
      assert false;
    }
  }
}
