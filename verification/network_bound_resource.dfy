/**
 * The cache-then-refresh engine (`NetworkBoundResource`) that backs every
 * share query, reduced to what its observers can see of one run: the states
 * posted, whether the remote call was made, and how often the local store was
 * read. The engine's implementation is not part of this model; this is the
 * contract its use in the repository and its tests pin down.
 */
module NetworkBoundResource {
  import opened Wrappers
  import opened Resources

  /** How the run's one remote call ended. */
  datatype FetchOutcome =
    | Fetched
    | FetchFailed(code: ResultCode, msg: Option<string>, exception: Option<Exception>)

  /** What the remote call's answer means to the engine. */
  function OutcomeOf<T>(answer: RemoteResult<T>): (o: FetchOutcome)
    ensures o.Fetched? <==> answer.isSuccess
    ensures o.FetchFailed? ==> o.code == answer.code && o.msg == answer.httpPhrase && o.exception == answer.exception
  {
    if answer.isSuccess then Fetched else FetchFailed(answer.code, answer.httpPhrase, answer.exception)
  }

  /** One run as observed: the states posted, whether the network was asked, local-store reads. */
  datatype Run<L> = Run(posted: seq<Resource<L>>, fetched: bool, localReads: nat)

  /**
   * A run over a store whose query first yields `cached` and, after the
   * answer has been written back, yields `reread`.
   */
  function Emissions<L>(cached: Option<L>, shouldFetch: bool, outcome: FetchOutcome, reread: Option<L>): (run: Run<L>)
    // Loading, carrying the cached value, is always posted first; exactly one terminal state follows
    ensures |run.posted| == 2 && run.posted[0] == Loading(cached) && run.posted[1].IsTerminal()
    ensures run.fetched == shouldFetch
    // a failed fetch ends in Error with the last cached value; the store is read only once
    ensures run.posted[1].Error? <==> shouldFetch && outcome.FetchFailed?
    ensures run.posted[1].Error? ==>
      run.posted[1] == Error(outcome.code, cached, outcome.msg, outcome.exception) && run.localReads == 1
    // a successful fetch ends in Success with what the store holds after the write-back,
    // read a second time
    ensures shouldFetch && outcome.Fetched? ==> run.posted[1] == Success(reread) && run.localReads == 2
    // without a fetch the cached value is served as it is
    ensures !shouldFetch ==> run.posted[1] == Success(cached) && run.localReads == 1
  {
    if !shouldFetch then
      Run([Loading(cached), Success(cached)], false, 1)
    else
      match outcome
      case Fetched => Run([Loading(cached), Success(reread)], true, 2)
      case FetchFailed(code, msg, exception) => Run([Loading(cached), Error(code, cached, msg, exception)], true, 1)
  }
}
