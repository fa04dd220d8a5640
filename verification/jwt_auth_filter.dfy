/**
 * backend/Security/Filters/JwtAuthFilter.cs: the authorization filter that
 * turns the authenticated principal's subject claim into the request's
 * user id.  The choice is a pure decision; the filter then writes it into
 * `Items` or throws.
 */
module JwtAuthFilter {
  import opened Wrappers
  import opened Int64
  import opened Exceptions
  import opened Http
  import opened HttpContextExtensions
  import Linq

  /** `JwtRegisteredClaimNames.Sub`, the subject claim of section 4.1.2 of RFC 7519. */
  const SubClaimType: string := "sub"
  /** `ClaimTypes.NameIdentifier`. */
  const NameIdentifierClaimType: string := "http://schemas.xmlsoap.org/ws/2005/05/identity/claims/nameidentifier"

  const NotAuthenticatedMessage := "Token invalid or missing"
  const MissingSubjectMessage := "Authenticated user missing numeric 'sub' claim"

  function AsciiLower(c: char): char {
    if 'A' <= c <= 'Z' then (c as int + 32) as char else c
  }

  /** Claim types compare ordinally, ignoring (ASCII) case. */
  predicate SameClaimType(a: string, b: string) {
    |a| == |b| && forall i :: 0 <= i < |a| ==> AsciiLower(a[i]) == AsciiLower(b[i])
  }

  /** `user.FindFirst(type)?.Value`. */
  function FindFirst(user: ClaimsPrincipal, claimType: string): (r: Option<string>)
    ensures r.None? <==> forall c :: c in user.claims ==> !SameClaimType(c.claimType, claimType)
    ensures r.Some? ==> exists i :: (0 <= i < |user.claims| && SameClaimType(user.claims[i].claimType, claimType)
      && user.claims[i].value == r.value
      && forall j :: 0 <= j < i ==> !SameClaimType(user.claims[j].claimType, claimType))
  {
    var found := Linq.FirstOrDefault(user.claims, (c: Claim) => SameClaimType(c.claimType, claimType));
    assert found.None? ==> forall c :: c in user.claims ==> !SameClaimType(c.claimType, claimType) by {
      if found.None? {
        forall c | c in user.claims ensures !SameClaimType(c.claimType, claimType) {
          var i :| 0 <= i < |user.claims| && user.claims[i] == c;
        }
      }
    }
    if found.Some? then Some(found.value.value) else None
  }

  /** The `sub` value, or the `NameIdentifier` value when there is no `sub` claim. */
  function Subject(user: ClaimsPrincipal): (r: Option<string>)
    ensures r.None? <==> forall c :: c in user.claims ==>
      !SameClaimType(c.claimType, SubClaimType) && !SameClaimType(c.claimType, NameIdentifierClaimType)
    ensures r.Some? ==> exists c :: (c in user.claims && c.value == r.value
      && (SameClaimType(c.claimType, SubClaimType) || SameClaimType(c.claimType, NameIdentifierClaimType)))
  {
    var sub := FindFirst(user, SubClaimType);
    if sub.Some? then sub else FindFirst(user, NameIdentifierClaimType)
  }

  /** What the filter does with a request. */
  datatype Decision = AllowAnonymous | Resolve(userId: Long) | Reject(failure: Failure)

  /** The decision chain of `OnAuthorizationAsync`. */
  function Decide(allowsAnonymous: bool, user: Option<ClaimsPrincipal>): (d: Decision)
    ensures d.Reject? ==> d.failure.Disprz? && StatusCode(d.failure.kind) == 401
    ensures d.AllowAnonymous? <==> allowsAnonymous
    ensures d.Resolve? <==> (!allowsAnonymous && user.Some? && user.value.isAuthenticated
      && Subject(user.value).Some? && TryParseLong(Subject(user.value).value).Some?)
    ensures d.Resolve? ==> TryParseLong(Subject(user.value).value) == Some(d.userId)
    ensures !allowsAnonymous && (user.None? || !user.value.isAuthenticated)
      ==> d == Reject(Disprz(InvalidCredentials, NotAuthenticatedMessage))
    ensures !allowsAnonymous && user.Some? && user.value.isAuthenticated
      && (Subject(user.value).None? || TryParseLong(Subject(user.value).value).None?)
      ==> d == Reject(Disprz(MalformedJwt, MissingSubjectMessage))
  {
    if allowsAnonymous then AllowAnonymous
    else if user.None? || !user.value.isAuthenticated then
      Reject(Disprz(InvalidCredentials, NotAuthenticatedMessage))
    else
      var sub := Subject(user.value);
      if sub.None? || sub.value == "" then Reject(Disprz(MalformedJwt, MissingSubjectMessage))
      else match TryParseLong(sub.value)
        case None => Reject(Disprz(MalformedJwt, MissingSubjectMessage))
        case Some(id) => Resolve(id)
  }

  /**
   * `OnAuthorizationAsync`: on success the parsed id is stored under
   * `UserId`; a rejection is the exception the filter throws.
   */
  method OnAuthorization(ctx: HttpContext) returns (r: Outcome)
    modifies ctx`items
    ensures var d := Decide(ctx.endpointAllowsAnonymous, ctx.user);
      && (r.Pass? <==> !d.Reject?)
      && (d.Reject? ==> r == Fail(d.failure) && ctx.items == old(ctx.items))
      && (d.AllowAnonymous? ==> ctx.items == old(ctx.items))
      && (d.Resolve? ==> ctx.items == old(ctx.items)[UserIdKey := BoxedLong(d.userId)]
                         && GetUserId(ctx.items) == Some(d.userId))
  {
    var d := Decide(ctx.endpointAllowsAnonymous, ctx.user);
    match d
    case AllowAnonymous =>
      r := Pass;
    case Reject(f) =>
      r := Fail(f);
    case Resolve(id) =>
      ctx.items := ctx.items[UserIdKey := BoxedLong(id)];
      StoredIdIsRead(old(ctx.items), id);
      r := Pass;
  }

  /** An anonymous endpoint is let through whoever is asking. */
  lemma AnonymousEndpointAllowed(user: Option<ClaimsPrincipal>)
    ensures Decide(true, user) == AllowAnonymous
  {
  }

  /** An unauthenticated principal is rejected with 401 "Token invalid or missing". */
  lemma UnauthenticatedRejected(user: Option<ClaimsPrincipal>)
    requires user.None? || !user.value.isAuthenticated
    ensures Decide(false, user) == Reject(Disprz(InvalidCredentials, NotAuthenticatedMessage))
  {
  }

  /** Claims appended after the first match of a type do not change the match. */
  lemma FindFirstIgnoresLaterClaims(user: ClaimsPrincipal, extra: seq<Claim>, claimType: string)
    requires FindFirst(user, claimType).Some?
    ensures FindFirst(ClaimsPrincipal(user.isAuthenticated, user.claims + extra), claimType) == FindFirst(user, claimType)
  {
    var claims := user.claims + extra;
    var i :| 0 <= i < |user.claims| && SameClaimType(user.claims[i].claimType, claimType)
      && user.claims[i].value == FindFirst(user, claimType).value
      && forall j :: 0 <= j < i ==> !SameClaimType(user.claims[j].claimType, claimType);
    var w := FindFirst(ClaimsPrincipal(user.isAuthenticated, claims), claimType);
    assert claims[i] == user.claims[i];
    var k :| 0 <= k < |claims| && SameClaimType(claims[k].claimType, claimType)
      && claims[k].value == w.value
      && forall j :: 0 <= j < k ==> !SameClaimType(claims[j].claimType, claimType);
    assert k == i;
  }

  /** A `sub` claim decides alone: `NameIdentifier` is consulted only when there is none. */
  lemma SubjectPrefersSub(user: ClaimsPrincipal, extra: seq<Claim>)
    requires FindFirst(user, SubClaimType).Some?
    ensures Subject(user) == FindFirst(user, SubClaimType)
    ensures FindFirst(ClaimsPrincipal(user.isAuthenticated, user.claims + extra), SubClaimType) == FindFirst(user, SubClaimType)
  {
    FindFirstIgnoresLaterClaims(user, extra, SubClaimType);
  }

  /** An authenticated principal whose subject parses to `v` is resolved to `v`. */
  lemma ResolveWhenNumeric(user: ClaimsPrincipal, v: Long)
    requires user.isAuthenticated
    requires Subject(user).Some? && TryParseLong(Subject(user).value) == Some(v)
    ensures Decide(false, Some(user)) == Resolve(v)
  {
  }

  /**
   * An empty or non-numeric first `sub` is rejected as a malformed token,
   * and no claim added after it, a numeric `NameIdentifier` included, changes that.
   */
  lemma BadSubNoFallback(user: ClaimsPrincipal, extra: seq<Claim>)
    requires user.isAuthenticated
    requires FindFirst(user, SubClaimType).Some? && TryParseLong(FindFirst(user, SubClaimType).value).None?
    ensures Decide(false, Some(user)) == Reject(Disprz(MalformedJwt, MissingSubjectMessage))
    ensures Decide(false, Some(ClaimsPrincipal(true, user.claims + extra))) == Reject(Disprz(MalformedJwt, MissingSubjectMessage))
  {
    SubjectPrefersSub(user, extra);
    SubjectPrefersSub(ClaimsPrincipal(true, user.claims + extra), []);
  }

  /** Without a `sub` claim the first `NameIdentifier` claim decides: its number, or a malformed token. */
  lemma NameIdentifierFallback(user: ClaimsPrincipal)
    requires user.isAuthenticated
    requires FindFirst(user, SubClaimType).None? && FindFirst(user, NameIdentifierClaimType).Some?
    ensures var nameId := FindFirst(user, NameIdentifierClaimType).value;
      Decide(false, Some(user)) == match TryParseLong(nameId)
        case Some(v) => Resolve(v)
        case None => Reject(Disprz(MalformedJwt, MissingSubjectMessage))
  {
  }

  /** A principal whose only claim is a `NameIdentifier` holding a printed id resolves to that id. */
  lemma NameIdentifierOnlyResolves(nameId: Long)
    ensures var user := ClaimsPrincipal(true, [Claim(NameIdentifierClaimType, LongToString(nameId))]);
      Decide(false, Some(user)) == Resolve(nameId)
  {
    var user := ClaimsPrincipal(true, [Claim(NameIdentifierClaimType, LongToString(nameId))]);
    assert !SameClaimType(NameIdentifierClaimType, SubClaimType);
    assert SameClaimType(user.claims[0].claimType, NameIdentifierClaimType);
    assert Subject(user) == Some(LongToString(nameId));
    ParseLongToString(nameId);
  }

  /** An authenticated principal with neither claim is rejected as a malformed token. */
  lemma NoSubjectRejected(user: ClaimsPrincipal)
    requires user.isAuthenticated
    requires forall c :: c in user.claims ==> !SameClaimType(c.claimType, SubClaimType) && !SameClaimType(c.claimType, NameIdentifierClaimType)
    ensures Decide(false, Some(user)) == Reject(Disprz(MalformedJwt, MissingSubjectMessage))
  {
  }

  /** `sub` = "123" resolves to user 123, whose id is then what `GetUserId` reads. */
  lemma NumericSubResolves(items: map<string, Boxed>)
    ensures Decide(false, Some(ClaimsPrincipal(true, [Claim(SubClaimType, "123")]))) == Resolve(123)
    ensures GetUserId(items[UserIdKey := BoxedLong(123)]) == Some(123)
  {
    var user := ClaimsPrincipal(true, [Claim(SubClaimType, "123")]);
    assert SameClaimType(user.claims[0].claimType, SubClaimType);
    assert Subject(user) == Some("123");
    ParseExamples();
  }
}
