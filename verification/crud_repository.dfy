/**
 * backend/Repository/CrudRepository/CrudRepository.cs: a keyed table of
 * entities.  `rows` is what the `DbSet` enumerates (so `FindAll` is
 * `ToList`), and `keyOf` reads the entity's primary key.
 */
module CrudRepository {
  import opened Wrappers
  import opened Int64
  import opened Exceptions
  import Linq

  /** No two rows share a primary key. */
  predicate DistinctKeys<T>(rows: seq<T>, keyOf: T -> Long) {
    forall i, j :: 0 <= i < j < |rows| ==> keyOf(rows[i]) != keyOf(rows[j])
  }

  /** The primary keys present in the table. */
  ghost function Keys<T>(rows: seq<T>, keyOf: T -> Long): set<Long> {
    set x | x in rows :: keyOf(x)
  }

  /** The row with primary key `id`, if any (`DbSet.Find`). */
  function FindByKey<T(!new)>(rows: seq<T>, keyOf: T -> Long, id: Long): (r: Option<T>)
    ensures r.Some? ==> r.value in rows && keyOf(r.value) == id
    ensures r.None? <==> id !in Keys(rows, keyOf)
  {
    var r := Linq.FirstOrDefault(rows, (x: T) => keyOf(x) == id);
    assert r.None? ==> forall x :: x in rows ==> keyOf(x) != id by {
      if r.None? {
        forall x | x in rows ensures keyOf(x) != id {
          var i :| 0 <= i < |rows| && rows[i] == x;
        }
      }
    }
    r
  }

  /** With distinct keys, the row found for a key is the only row with it. */
  lemma FindByKeyUnique<T(!new)>(rows: seq<T>, keyOf: T -> Long, i: int)
    requires DistinctKeys(rows, keyOf) && 0 <= i < |rows|
    ensures FindByKey(rows, keyOf, keyOf(rows[i])) == Some(rows[i])
  {
  }

  /** The table without the row keyed `id`. */
  function RemoveKey<T(==,!new)>(rows: seq<T>, keyOf: T -> Long, id: Long): (r: seq<T>)
    ensures forall x :: x in r <==> x in rows && keyOf(x) != id
    ensures Linq.IsSubsequence(r, rows)
  {
    Linq.Where(rows, (x: T) => keyOf(x) != id)
  }

  /** The table with the row keyed like `entity` replaced by `entity`. */
  function ReplaceKey<T>(rows: seq<T>, keyOf: T -> Long, entity: T): (r: seq<T>)
    ensures |r| == |rows|
    ensures forall i :: 0 <= i < |rows| ==> r[i] == if keyOf(rows[i]) == keyOf(entity) then entity else rows[i]
  {
    if rows == [] then []
    else [if keyOf(rows[0]) == keyOf(entity) then entity else rows[0]] + ReplaceKey(rows[1..], keyOf, entity)
  }

  lemma ReplaceKeyKeepsKeys<T>(rows: seq<T>, keyOf: T -> Long, entity: T)
    requires keyOf(entity) in Keys(rows, keyOf)
    ensures Keys(ReplaceKey(rows, keyOf, entity), keyOf) == Keys(rows, keyOf)
    ensures DistinctKeys(rows, keyOf) ==> DistinctKeys(ReplaceKey(rows, keyOf, entity), keyOf)
  {
  }

  lemma RemoveKeyKeepsDistinct<T(!new)>(rows: seq<T>, keyOf: T -> Long, id: Long)
    requires DistinctKeys(rows, keyOf)
    ensures DistinctKeys(RemoveKey(rows, keyOf, id), keyOf)
    ensures Keys(RemoveKey(rows, keyOf, id), keyOf) == Keys(rows, keyOf) - {id}
  {
    var r := RemoveKey(rows, keyOf, id);
    var distinct := (a: T, b: T) => keyOf(a) != keyOf(b);
    assert Linq.SortedBy(rows, distinct);
    Linq.SubsequenceKeepsOrder(r, rows, distinct);
  }

  class CrudRepository<T(==,!new)> {
    const keyOf: T -> Long
    var rows: seq<T>

    ghost predicate Valid()
      reads this
    {
      DistinctKeys(rows, keyOf)
    }

    constructor (keyOf: T -> Long)
      ensures Valid() && this.keyOf == keyOf && rows == []
    {
      this.keyOf := keyOf;
      rows := [];
    }

    /** `FindAll`: every stored entity, in table order. */
    method FindAll() returns (r: seq<T>)
      ensures forall x :: x in r <==> x in rows
      ensures |r| == |rows|
      ensures multiset(r) == multiset(rows)
    {
      r := rows;
    }

    /** `FindById`: the stored entity with that key, or null. */
    function FindById(id: Long): (r: Option<T>)
      reads this
      ensures r.Some? ==> r.value in rows && keyOf(r.value) == id
      ensures r.None? <==> id !in Keys(rows, keyOf)
    {
      FindByKey(rows, keyOf, id)
    }

    /** `FindOrThrow`: the entity, or EntityNotFoundException. */
    method FindOrThrow(id: Long) returns (r: Result<T>)
      ensures r.Ok? <==> id in Keys(rows, keyOf)
      ensures r.Ok? ==> r.value in rows && keyOf(r.value) == id
      ensures r.Err? ==> r.failure == Disprz(EntityNotFound, "Entity with id " + LongToString(id) + " not found")
    {
      var found := FindById(id);
      if found.Some? {
        r := Ok(found.value);
      } else {
        r := Err(Disprz(EntityNotFound, "Entity with id " + LongToString(id) + " not found"));
      }
    }

    /**
     * `Create`: `Add` then `SaveChanges`.  Adding a second entity with a key
     * already in the table makes the ORM throw, which is not a DisprzException.
     */
    method Create(entity: T) returns (r: Result<T>)
      requires Valid()
      modifies this
      ensures Valid()
      ensures old(keyOf(entity) in Keys(rows, keyOf)) ==> r.Err? && r.failure.Unexpected? && rows == old(rows)
      ensures old(keyOf(entity) !in Keys(rows, keyOf)) ==>
        && r == Ok(entity)
        && rows == old(rows) + [entity]
        && FindById(keyOf(entity)) == Some(entity)
        && Keys(rows, keyOf) == old(Keys(rows, keyOf)) + {keyOf(entity)}
    {
      if FindById(keyOf(entity)).Some? {
        r := Err(Unexpected("another instance with the same key value is already being tracked"));
      } else {
        rows := rows + [entity];
        r := Ok(entity);
        FindByKeyUnique(rows, keyOf, |rows| - 1);
      }
    }

    /**
     * `Update`: `SaveChanges` persists the edits made to the tracked entity
     * with that key.  An entity whose key is not in the table is not tracked,
     * so nothing is written.
     */
    method Update(entity: T) returns (r: T)
      requires Valid()
      modifies this
      ensures Valid()
      ensures r == entity
      ensures rows == ReplaceKey(old(rows), keyOf, entity)
      ensures Keys(rows, keyOf) == old(Keys(rows, keyOf))
      ensures old(keyOf(entity) in Keys(rows, keyOf)) ==> FindById(keyOf(entity)) == Some(entity)
    {
      var updated := ReplaceKey(rows, keyOf, entity);
      if FindById(keyOf(entity)).Some? {
        ReplaceKeyKeepsKeys(rows, keyOf, entity);
        var i :| 0 <= i < |updated| && keyOf(updated[i]) == keyOf(entity);
        FindByKeyUnique(updated, keyOf, i);
      } else {
        assert updated == rows;
      }
      rows := updated;
      r := entity;
    }

    /**
     * `Delete`: `Remove` then `SaveChanges`.  Removing a key the table does
     * not hold affects no row and the ORM throws.
     */
    method Delete(entity: T) returns (r: Outcome)
      requires Valid()
      modifies this
      ensures Valid()
      ensures old(keyOf(entity) in Keys(rows, keyOf)) ==>
        && r == Pass
        && rows == RemoveKey(old(rows), keyOf, keyOf(entity))
        && Keys(rows, keyOf) == old(Keys(rows, keyOf)) - {keyOf(entity)}
      ensures old(keyOf(entity) !in Keys(rows, keyOf)) ==> r.Fail? && r.failure.Unexpected? && rows == old(rows)
    {
      if FindById(keyOf(entity)).Some? {
        RemoveKeyKeepsDistinct(rows, keyOf, keyOf(entity));
        rows := RemoveKey(rows, keyOf, keyOf(entity));
        r := Pass;
      } else {
        r := Fail(Unexpected("expected to affect 1 row but affected 0 rows"));
      }
    }
  }
}
