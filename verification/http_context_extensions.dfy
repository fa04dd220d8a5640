/**
 * backend/Security/Extensions/HttpContextExtensions.cs: the typed read of
 * the resolved user id from the request's `Items`.
 */
module HttpContextExtensions {
  import opened Wrappers
  import opened Int64
  import opened Http

  /** `GetUserId`: `Items[UserId]` when it is present and holds a `long`, else null. */
  function GetUserId(items: map<string, Boxed>): (r: Option<Long>)
    ensures r.Some? <==> UserIdKey in items && items[UserIdKey].BoxedLong?
    ensures r.Some? ==> items[UserIdKey] == BoxedLong(r.value)
  {
    if UserIdKey in items && items[UserIdKey].BoxedLong? then Some(items[UserIdKey].l) else None
  }

  /** Reading from the context itself changes nothing in it. */
  method GetUserIdOf(ctx: HttpContext) returns (r: Option<Long>)
    ensures r == GetUserId(ctx.items)
  {
    r := GetUserId(ctx.items);
  }

  /** What the filter stores is what the read returns. */
  lemma StoredIdIsRead(items: map<string, Boxed>, id: Long)
    ensures GetUserId(items[UserIdKey := BoxedLong(id)]) == Some(id)
  {
  }

  /** An absent key, and in particular an empty `Items`, gives null. */
  lemma AbsentKeyGivesNone(items: map<string, Boxed>)
    requires UserIdKey !in items
    ensures GetUserId(items) == None
    ensures GetUserId(map[]) == None
  {
  }

  /** A value of another runtime type under the key gives null. */
  lemma OtherTypeGivesNone(items: map<string, Boxed>, v: Boxed)
    requires !v.BoxedLong?
    ensures GetUserId(items[UserIdKey := v]) == None
  {
  }

  /** Entries under other keys never change the result. */
  lemma OtherKeysIgnored(items: map<string, Boxed>, key: string, v: Boxed)
    requires key != UserIdKey
    ensures GetUserId(items[key := v]) == GetUserId(items)
    ensures GetUserId(items - {key}) == GetUserId(items)
  {
  }
}
