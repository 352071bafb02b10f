/**
 * `GetPublicSharesUsecase.run`: reshapes the repository's result for the
 * public shares of a file into a `UseCaseResult`.
 */
module GetPublicSharesUsecase {
  import opened Wrappers
  import Resources

  /** `UseCaseResult<T>`: success with data, or error with code, data, message and exception. */
  datatype UseCaseResult<+T> =
    | Success(data: Option<T>)
    | Error(code: Option<Resources.ResultCode>, data: Option<T>, msg: Option<string>,
            exception: Option<Resources.Exception>)

  /**
   * Anything but a Success (an Error, and also a Loading still in flight)
   * becomes an Error carrying the result's code, data, message and exception
   * unchanged; a Success becomes a Success with exactly its data.
   */
  function Run<T>(dataResult: Resources.Resource<T>): (r: UseCaseResult<T>)
    ensures r.Error? <==> !dataResult.Success?
    ensures r.data == dataResult.data
    ensures r.Error? ==>
      r.code == dataResult.Code() && r.msg == dataResult.Msg() && r.exception == dataResult.Exc()
    ensures dataResult.Error? ==>
      r == Error(Some(dataResult.code), dataResult.data, dataResult.msg, dataResult.exception)
    ensures dataResult.Loading? ==> r == Error(None, dataResult.data, None, None)
  {
    if !dataResult.Success? then
      Error(dataResult.Code(), dataResult.data, dataResult.Msg(), dataResult.Exc())
    else
      Success(dataResult.data)
  }
}
