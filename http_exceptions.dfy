/**
  * The exceptions the services raise: an `HttpException` carries a status and
  * a message; an error raised by the store client carries a message only, so
  * it reaches the error handler without a status.
  */
module HttpExceptions {
  import opened Wrappers
  import opened Strings
  import opened Numbers

  /** Errors thrown by the store client. None of them has a `status`. */
  datatype StoreError =
    /** The store understood the request and refused it (a constraint violation, a missing row to update). */
    | KnownRequestError(message: string)
    /** A find-or-throw query matched no row. */
    | NotFoundError(message: string)
    /** The store refused to run the query at all (for instance a skip that is not an integer). */
    | ValidationError(message: string)

  datatype Exception =
    | HttpException(status: int, message: string)
    | StoreException(cause: StoreError)
  {
    /** `err.status`: set for an `HttpException`, undefined for a store error. */
    function Status(): Option<int>
    {
      if HttpException? then Some(status) else None
    }

    /** `err.message` */
    function Message(): string
    {
      if HttpException? then message else cause.message
    }
  }

  /** The outcome of a service call: its value, or the exception it throws. */
  datatype Result<T> = Ok(value: T) | Err(error: Exception)

  const NotFoundPrefix := "Record with id "
  const NotFoundSuffix := " not found"

  /**
    * `new RecordNotFoundException(id)`: status 404 and the message
    * "Record with id <id> not found", from which the id can be read back.
    */
  function RecordNotFoundException(id: int): (e: Exception)
    ensures e.HttpException? && e.status == 404
    ensures |e.message| > |NotFoundPrefix| + |NotFoundSuffix|
    ensures e.message[..|NotFoundPrefix|] == NotFoundPrefix
    ensures e.message[|e.message| - |NotFoundSuffix|..] == NotFoundSuffix
    ensures ParseInt(e.message[|NotFoundPrefix|..|e.message| - |NotFoundSuffix|]) == Int(id)
  {
    var m := NotFoundPrefix + IntToString(id) + NotFoundSuffix;
    ParseIntRoundTrip(id);
    assert m[|NotFoundPrefix|..|m| - |NotFoundSuffix|] == IntToString(id);
    HttpException(404, m)
  }

  /** Two not-found exceptions are equal only when they name the same id. */
  lemma RecordNotFoundIsInjective(a: int, b: int)
    requires RecordNotFoundException(a) == RecordNotFoundException(b)
    ensures a == b
  {
    var m := RecordNotFoundException(a).message;
    assert Int(a) == ParseInt(m[|NotFoundPrefix|..|m| - |NotFoundSuffix|]) == Int(b);
  }

  /**
    * `new ValidationRecordException(err)` for an error the store client knows:
    * status 400 and the last line of the store's message (the text after its
    * last line break, or the whole message when it has none).
    */
  function ValidationRecordException(err: StoreError): (e: Exception)
    requires err.KnownRequestError?
    ensures e.HttpException? && e.status == 400
    ensures '\n' !in e.message
    ensures |e.message| <= |err.message| && err.message[|err.message| - |e.message|..] == e.message
    ensures |e.message| < |err.message| ==> err.message[|err.message| - |e.message| - 1] == '\n'
    ensures '\n' !in err.message ==> e.message == err.message
  {
    HttpException(400, LastLine(err.message))
  }
}
