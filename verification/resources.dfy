/**
 * The values that flow between the repositories, the remote data sources and
 * the observers: the `Resource` container posted to a LiveData, and the
 * `RemoteOperationResult` a remote call answers with.
 */
module Resources {
  import opened Wrappers

  /** A few of the library's `RemoteOperationResult.ResultCode` values; the rest by number. */
  datatype ResultCode =
    | OK
    | FORBIDDEN
    | SHARE_NOT_FOUND
    | SHARE_WRONG_PARAMETER
    | UNKNOWN_ERROR
    | OtherCode(ordinal: nat)

  /** A Java/Kotlin throwable, by class name and message. */
  datatype Exception = Exception(className: string, message: string)

  /**
   * `Resource<T>`: a value in flight (Loading), delivered (Success) or failed
   * (Error). Every state may carry data; an Error carries the result code, the
   * HTTP phrase as its message and the exception of the failed call.
   */
  datatype Resource<+T> =
    | Loading(data: Option<T>)
    | Success(data: Option<T>)
    | Error(code: ResultCode, data: Option<T>, msg: Option<string>, exception: Option<Exception>)
  {
    /** `code` as a nullable field: only an Error has one. */
    function Code(): Option<ResultCode> {
      if Error? then Some(code) else None
    }

    function Msg(): Option<string> {
      if Error? then msg else None
    }

    function Exc(): Option<Exception> {
      if Error? then exception else None
    }

    predicate IsTerminal() {
      Success? || Error?
    }
  }

  /**
   * The answer of one remote call: whether it succeeded, its payload, its
   * result code, the HTTP status phrase and the exception, if any.
   */
  datatype RemoteResult<+T> = RemoteResult(
    isSuccess: bool,
    data: T,
    code: ResultCode,
    httpPhrase: Option<string>,
    exception: Option<Exception>)
}
