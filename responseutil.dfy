/**
 * The JSON envelope every endpoint answers with
 * (pkg/util/responseutil/responseutil.go). Whether the service runs in
 * production mode is a parameter; writing the reply is left to the caller.
 */
module ResponseUtil {

  import opened Wrappers
  import opened Errors
  import opened PkgError

  /** `model.ResponseBody`: the payload and pagination are nil (`None`) or present. */
  datatype ResponseBody<D, P> = ResponseBody(
    status: string,
    code: string,
    data: Option<D>,
    errorMessage: Option<string>,
    errorRemark: Option<string>,
    pagination: Option<P>)

  /** The HTTP status and the body `ctx.JSON` is asked to send. */
  datatype Reply<D, P> = Reply(httpStatus: int, body: ResponseBody<D, P>)

  const StatusOK: int := 200

  /** The success envelope: fixed status and code, data and pagination passed through, no error fields. */
  function CreateSuccessResponse<D, P>(data: Option<D>, pagination: Option<P>): (b: ResponseBody<D, P>)
    ensures b.status == "SUCCESS" && b.code == "0000"
    ensures b.data == data && b.pagination == pagination
    ensures b.errorMessage.None? && b.errorRemark.None?
  {
    ResponseBody("SUCCESS", "0000", data, None, None, pagination)
  }

  /**
   * The error envelope: the error's code and message and no data. The cause's
   * text is added as the remark outside production, and only when there is a cause.
   */
  function CreateErrorResponse<D, P>(err: CustomError, isProduction: bool): (b: ResponseBody<D, P>)
    ensures b.status == "ERROR" && b.code == err.code && b.errorMessage == Some(err.msg)
    ensures b.data.None? && b.pagination.None?
    ensures b.errorRemark.Some? <==> !isProduction && err.cause.Some?
    ensures b.errorRemark.Some? ==> b.errorRemark.value == Message(err.cause.value)
  {
    var body := ResponseBody("ERROR", err.code, None, Some(err.msg), None, None);
    if !isProduction && err.cause.Some? then body.(errorRemark := Some(Message(err.cause.value))) else body
  }

  /** `SendSuccessReponse`: HTTP 200 with the success envelope. */
  function SendSuccessResponse<D, P>(data: Option<D>, pagination: Option<P>): (r: Reply<D, P>)
    ensures r.httpStatus == StatusOK && r.body == CreateSuccessResponse(data, pagination)
    ensures r.body.status == "SUCCESS" && r.body.data == data && r.body.pagination == pagination
  {
    Reply(StatusOK, CreateSuccessResponse(data, pagination))
  }

  /** `SendErrorResponse`: the error's own HTTP status with the error envelope. */
  function SendErrorResponse<D, P>(err: CustomError, isProduction: bool): (r: Reply<D, P>)
    ensures r.httpStatus == err.httpCode && r.body == CreateErrorResponse(err, isProduction)
    ensures r.body.status == "ERROR" && r.body.code == err.code
  {
    Reply(err.httpCode, CreateErrorResponse(err, isProduction))
  }

  /** The statuses the catalog fixes: system errors are 500, invalid parameters 400, a missing employee a client error; attaching a cause changes none of them. */
  lemma CatalogStatuses<D, P>(cat: Catalog, cause: Error, isProduction: bool)
    requires cat.Valid()
    ensures SendErrorResponse<D, P>(cat.systemError.WithError(cause), isProduction).httpStatus == 500
    ensures SendErrorResponse<D, P>(cat.systemError, isProduction).httpStatus == 500
    ensures SendErrorResponse<D, P>(cat.invalidParams.WithError(cause), isProduction).httpStatus == 400
    ensures 400 <= SendErrorResponse<D, P>(cat.employeeNotFound.WithError(cause), isProduction).httpStatus < 500
  {
  }

  /** In production the envelope is the same whatever the cause: nothing of it leaks. */
  lemma ProductionHidesCause<D, P>(err: CustomError, cause: Error)
    ensures CreateErrorResponse<D, P>(err.WithError(cause), true) == CreateErrorResponse<D, P>(err.(cause := None), true)
  {
  }

  /** Outside production the envelope of an error with a cause carries that cause's text. */
  lemma DiagnosticModeShowsCause<D, P>(err: CustomError, cause: Error)
    ensures CreateErrorResponse<D, P>(err.WithError(cause), false).errorRemark == Some(Message(cause))
  {
  }
}
