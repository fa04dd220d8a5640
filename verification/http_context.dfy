/**
 * The parts of an ASP.NET `HttpContext` the core reads and writes: the
 * per-request `Items` dictionary, the authenticated principal, whether the
 * matched endpoint allows anonymous access, and the response.
 */
module Http {
  import opened Wrappers
  import opened Int64

  /** A value stored in `Items` (a `Dictionary<object, object?>`), by runtime type. */
  datatype Boxed = BoxedLong(l: Long) | BoxedInt(i: int) | BoxedString(s: string) | BoxedOther

  /** `HttpContextItemKeys.UserId`. */
  const UserIdKey: string := "UserId"

  datatype Claim = Claim(claimType: string, value: string)

  /** A `ClaimsPrincipal`: `Identity.IsAuthenticated` and the claims it carries. */
  datatype ClaimsPrincipal = ClaimsPrincipal(isAuthenticated: bool, claims: seq<Claim>)

  /** `APIErrorDto`: the JSON body written for a failed request. */
  datatype ApiErrorDto = ApiErrorDto(message: string, statusCode: int)

  class HttpContext {
    var items: map<string, Boxed>
    var user: Option<ClaimsPrincipal>
    var endpointAllowsAnonymous: bool
    var statusCode: int
    var contentType: Option<string>
    /** The documents written to the response body, in order. */
    var body: seq<ApiErrorDto>

    /** A request as it reaches the pipeline: nothing stored, status 200, empty body. */
    constructor (user: Option<ClaimsPrincipal>, endpointAllowsAnonymous: bool)
      ensures this.user == user && this.endpointAllowsAnonymous == endpointAllowsAnonymous
      ensures items == map[] && statusCode == 200 && contentType == None && body == []
    {
      this.user := user;
      this.endpointAllowsAnonymous := endpointAllowsAnonymous;
      items := map[];
      statusCode := 200;
      contentType := None;
      body := [];
    }
  }
}
