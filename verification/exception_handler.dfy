/**
 * backend/Exceptions/GlobalExceptionHandler.cs: the middleware that turns a
 * failure of the rest of the pipeline into a JSON error response.
 */
module ExceptionHandler {
  import opened Wrappers
  import opened Exceptions
  import opened Http

  const UnexpectedMessage := "An unexpected error occurred."
  const JsonContentType := "application/json"

  /**
   * The (status, message) pair `InvokeAsync` chooses: a DisprzException keeps
   * its own, anything else becomes 500 with a fixed text.
   */
  function ErrorResponse(f: Failure): (dto: ApiErrorDto)
    ensures f.Disprz? ==> dto.statusCode == StatusCode(f.kind) && dto.message == f.message
    ensures f.Unexpected? ==> dto.statusCode == 500 && dto.message == UnexpectedMessage
  {
    match f
    case Disprz(kind, message) => ApiErrorDto(message, StatusCode(kind))
    case Unexpected(_) => ApiErrorDto(UnexpectedMessage, 500)
  }

  /** The line logged for a failure. */
  function LogLine(f: Failure): string {
    match f
    case Disprz(_, message) => "Handled Disprz exception: " + message
    case Unexpected(_) => "Unhandled exception"
  }

  /** An exception that is not a DisprzException never shows its own text. */
  lemma UnexpectedDetailHidden(detail1: string, detail2: string)
    ensures ErrorResponse(Unexpected(detail1)) == ErrorResponse(Unexpected(detail2))
    ensures ErrorResponse(Unexpected(detail1)) == ApiErrorDto(UnexpectedMessage, 500)
  {
  }

  /** Every error response carries an error status (4xx or 500). */
  lemma ErrorStatusIsError(f: Failure)
    ensures 400 <= ErrorResponse(f).statusCode <= 500
    ensures ErrorResponse(f).statusCode == 500 <==> f.Unexpected? || f.kind in {EntitySave, EntityUpdate, EntityDelete}
  {
  }

  /** Each subclass keeps its own status code. */
  lemma StatusPerKind(message: string)
    ensures ErrorResponse(Disprz(BadRequest, message)).statusCode == 400
    ensures ErrorResponse(Disprz(Conflict, message)).statusCode == 409
    ensures ErrorResponse(Disprz(EntityNotFound, message)).statusCode == 404
    ensures ErrorResponse(Disprz(InvalidCredentials, message)).statusCode == 401
    ensures ErrorResponse(Disprz(MalformedJwt, message)).statusCode == 401
    ensures ErrorResponse(Disprz(UnauthorizedAccess, message)).statusCode == 403
  {
  }

  class GlobalExceptionHandler {
    /** The lines written to the logger, in order. */
    var log: seq<string>

    constructor ()
      ensures log == []
    {
      log := [];
    }

    /** `HandleExceptionAsync`: content type, status, then the body document. */
    static method HandleException(ctx: HttpContext, statusCode: int, message: string)
      modifies ctx`contentType, ctx`statusCode, ctx`body
      ensures ctx.contentType == Some(JsonContentType)
      ensures ctx.statusCode == statusCode
      ensures ctx.body == old(ctx.body) + [ApiErrorDto(message, statusCode)]
      ensures ctx.body[|ctx.body| - 1].statusCode == ctx.statusCode
    {
      ctx.contentType := Some(JsonContentType);
      ctx.statusCode := statusCode;
      ctx.body := ctx.body + [ApiErrorDto(message, statusCode)];
    }

    /**
     * `InvokeAsync`, given how the next delegate ended: `Pass` when it
     * returned, `Fail(f)` when it threw `f`.
     */
    method InvokeAsync(ctx: HttpContext, next: Outcome)
      modifies this, ctx`contentType, ctx`statusCode, ctx`body
      ensures next.Pass? ==>
        && log == old(log)
        && ctx.contentType == old(ctx.contentType)
        && ctx.statusCode == old(ctx.statusCode)
        && ctx.body == old(ctx.body)
      ensures next.Fail? ==>
        && log == old(log) + [LogLine(next.failure)]
        && ctx.contentType == Some(JsonContentType)
        && ctx.statusCode == ErrorResponse(next.failure).statusCode
        && ctx.body == old(ctx.body) + [ErrorResponse(next.failure)]
    {
      match next
      case Pass =>
      case Fail(f) =>
        log := log + [LogLine(f)];
        var dto := ErrorResponse(f);
        HandleException(ctx, dto.statusCode, dto.message);
    }
  }
}
