/** The application's error middleware: every failure becomes one JSON error envelope. */
module ErrorHandler {
  import opened Wrappers
  import opened HttpExceptions

  /** The JSON body `{ success, status, message }`. */
  datatype ErrorBody = ErrorBody(success: bool, status: int, message: string)

  /** The HTTP status the response is sent with, and its body. */
  datatype ErrorResponse = ErrorResponse(status: int, body: ErrorBody)

  /**
    * `err.status || 500`: the exception's own status when it has one that is
    * not zero, 500 otherwise. The body repeats that status, reports failure
    * and passes the message through unchanged.
    */
  function HandleError(err: Exception): (r: ErrorResponse)
    ensures !r.body.success
    ensures r.body.status == r.status
    ensures r.body.message == err.Message()
    ensures r.status != 0
    ensures err.Status().Some? && err.Status().value != 0 ==> r.status == err.Status().value
    ensures err.Status().None? || err.Status() == Some(0) ==> r.status == 500
  {
    var status := match err.Status()
      case Some(s) => if s != 0 then s else 500
      case None => 500;
    ErrorResponse(status, ErrorBody(false, status, err.Message()))
  }

  /** A missing record answers 404 with the not-found message. */
  lemma NotFoundAnswers404(id: int)
    ensures HandleError(RecordNotFoundException(id)).status == 404
    ensures HandleError(RecordNotFoundException(id)).body.message == RecordNotFoundException(id).message
  {
  }

  /** A rejected constraint answers 400 with the store message's last line. */
  lemma ValidationAnswers400(err: StoreError)
    requires err.KnownRequestError?
    ensures HandleError(ValidationRecordException(err)).status == 400
  {
  }

  /** An error the store throws straight through has no status and answers 500. */
  lemma StoreErrorAnswers500(err: StoreError)
    ensures HandleError(StoreException(err)).status == 500
    ensures HandleError(StoreException(err)).body.message == err.message
  {
  }
}
