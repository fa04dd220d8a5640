/**
 * backend/Service/UserService.cs: the user use cases over the users table.
 * `GenerateId` is a parameter: the caller supplies the new id.
 */
module UserService {
  import opened Wrappers
  import opened Int64
  import opened Exceptions
  import opened Models
  import opened MappingProfile
  import Crud = CrudRepository

  /** The primary key of `users`. */
  const UserKey: User -> Long := (u: User) => u.id

  function UserNotFoundMessage(id: Long): string {
    "Entity with id " + LongToString(id) + " not found"
  }

  /** `Update`: fetch the user, merge the request into it, save. */
  function UpdatePlan(rows: seq<User>, id: Long, request: UserRequest): (r: Result<User>)
    ensures r.Err? <==> forall u :: u in rows ==> u.id != id
    ensures r.Err? ==> r.failure == Disprz(EntityNotFound, UserNotFoundMessage(id))
    ensures r.Ok? ==> exists u :: u in rows && u.id == id && r.value == MergeUser(u, request)
    ensures r.Ok? ==> r.value.id == id
  {
    match Crud.FindByKey(rows, UserKey, id)
    case None => Err(Disprz(EntityNotFound, UserNotFoundMessage(id)))
    case Some(u) => Ok(MergeUser(u, request))
  }

  /** An update with a null password keeps the stored password. */
  lemma NullPasswordKept(rows: seq<User>, id: Long, request: UserRequest)
    requires Crud.DistinctKeys(rows, UserKey)
    requires request.password.None?
    requires UpdatePlan(rows, id, request).Ok?
    ensures forall u :: u in rows && u.id == id ==> UpdatePlan(rows, id, request).value.password == u.password
  {
  }

  class UserService {
    const repository: Crud.CrudRepository<User>

    ghost predicate Valid()
      reads this, repository
    {
      repository.Valid() && forall u :: repository.keyOf(u) == u.id
    }

    constructor (repository: Crud.CrudRepository<User>)
      requires repository.Valid() && forall u :: repository.keyOf(u) == u.id
      ensures this.repository == repository && Valid()
    {
      this.repository := repository;
    }

    /** `Index`: every user. */
    method Index() returns (r: seq<User>)
      ensures forall u :: u in r <==> u in repository.rows
      ensures |r| == |repository.rows|
      ensures multiset(r) == multiset(repository.rows)
    {
      r := repository.FindAll();
    }

    /** `Fetch`: the user with that id, or EntityNotFoundException. */
    method Fetch(id: Long) returns (r: Result<User>)
      requires Valid()
      ensures r.Ok? <==> exists u :: u in repository.rows && u.id == id
      ensures r.Ok? ==> r.value in repository.rows && r.value.id == id
      ensures r.Err? ==> r.failure == Disprz(EntityNotFound, UserNotFoundMessage(id))
    {
      r := repository.FindOrThrow(id);
    }

    /** `Create`: map the request onto a new user, give it the generated id, store it. */
    method Create(request: UserRequest, generatedId: Long) returns (r: Result<User>)
      requires Valid()
      requires generatedId != 0 && generatedId !in Crud.Keys(repository.rows, repository.keyOf)
      modifies repository
      ensures Valid()
      ensures r == Ok(UserFromRequest(request).(id := generatedId))
      ensures repository.rows == old(repository.rows) + [r.value]
      ensures Crud.Keys(repository.rows, repository.keyOf) == old(Crud.Keys(repository.rows, repository.keyOf)) + {generatedId}
    {
      var user := UserFromRequest(request).(id := generatedId);
      r := repository.Create(user);
    }

    /** `Update`: a missing id writes nothing; otherwise the merged user replaces the stored one. */
    method Update(id: Long, request: UserRequest) returns (r: Result<User>)
      requires Valid()
      modifies repository
      ensures Valid()
      ensures r == UpdatePlan(old(repository.rows), id, request)
      ensures repository.rows == if r.Ok? then Crud.ReplaceKey(old(repository.rows), repository.keyOf, r.value)
                                 else old(repository.rows)
      ensures Crud.Keys(repository.rows, repository.keyOf) == old(Crud.Keys(repository.rows, repository.keyOf))
    {
      var fetched := Fetch(id);
      if fetched.Err? {
        return Err(fetched.failure);
      }
      Crud.FindByKeyUnique(repository.rows, UserKey, IndexOf(repository.rows, fetched.value));
      var merged := MergeUser(fetched.value, request);
      var saved := repository.Update(merged);
      r := Ok(saved);
    }

    /** `Delete`: a missing id gives NotFound and removes nothing; otherwise exactly that user goes. */
    method Delete(id: Long) returns (r: Outcome)
      requires Valid()
      modifies repository
      ensures Valid()
      ensures r.Pass? <==> old(exists u :: u in repository.rows && u.id == id)
      ensures r.Fail? ==> r.failure == Disprz(EntityNotFound, UserNotFoundMessage(id))
                          && repository.rows == old(repository.rows)
      ensures r.Pass? ==> repository.rows == Crud.RemoveKey(old(repository.rows), repository.keyOf, id)
      ensures r.Pass? ==> Crud.Keys(repository.rows, repository.keyOf) == old(Crud.Keys(repository.rows, repository.keyOf)) - {id}
    {
      var fetched := Fetch(id);
      if fetched.Err? {
        return Fail(fetched.failure);
      }
      r := repository.Delete(fetched.value);
    }
  }

  /** The position of a row known to be in the table. */
  function IndexOf(rows: seq<User>, u: User): (i: int)
    requires u in rows
    ensures 0 <= i < |rows| && rows[i] == u
  {
    if rows[0] == u then 0 else 1 + IndexOf(rows[1..], u)
  }
}
