/**
 * `OCShareRepository`: keeps the local share store in step with the server.
 * Queries go through the cache-then-refresh engine; insert, update and delete
 * call the server first and touch the store only when the call succeeds.
 *
 * The background executor is not modelled: every operation runs to its end
 * in one call, and the server's answer to the one remote call it makes is a
 * parameter (`answer`). The remote call itself is returned as `call`.
 */
module ShareRepository {
  import opened Wrappers
  import opened Resources
  import opened Shares
  import opened ShareStore
  import opened NetworkBoundResource
  import opened LiveData

  /** `RemoteShare.INIT_EXPIRATION_DATE_IN_MILLIS`: no expiration date. */
  const INIT_EXPIRATION_DATE_IN_MILLIS: int := 0

  /** The requests sent to `RemoteSharesDataSource`, with their arguments. */
  datatype RemoteCall =
    | GetSharesCall(filePath: string, reshares: bool, subfiles: bool)
    | InsertShareCall(filePath: string, shareType: ShareType, shareWith: string, permissions: int,
                      name: string, password: string, expirationTimeInMillis: int, publicUpload: bool)
    | UpdateShareCall(remoteId: int, name: string, nullablePassword: Option<string>, expirationDateInMillis: int,
                      permissions: int, publicUpload: bool)
    | DeleteShareCall(remoteId: int)

  /** A call that either returns its LiveData or throws before doing anything. */
  datatype Invocation<T> = Returned(liveData: MutableLiveData<T>) | Threw(exception: Exception)

  /** What `insertPrivateShare` throws for a share type it does not accept. */
  function IllegalShareType(t: Option<ShareType>): Exception
  {
    Exception("IllegalArgumentException", "Illegal share type " + ShareTypeText(t))
  }

  /** What Kotlin's `first()` throws on an empty list. */
  const EmptyListException: Exception := Exception("NoSuchElementException", "List is empty.")

  /** The Error state a failed remote call is reported with (`notifyError`, and `deleteShare` inline). */
  function ErrorOf<T>(answer: RemoteResult<T>): (r: Resource<()>)
    ensures r.Error? && r.data == None
    ensures r.code == answer.code && r.msg == answer.httpPhrase && r.exception == answer.exception
  {
    Error(answer.code, None, answer.httpPhrase, answer.exception)
  }

  /** The refresh policy: the server is always asked, whatever is cached, `null` included. */
  function ShouldFetchFromNetwork(data: Option<seq<ShareEntity>>): (fetch: bool)
    ensures fetch
  {
    true
  }

  class OCShareRepository {
    const localSharesDataSource: LocalSharesDataSource
    /** The account every stored share is stamped with. */
    const accountName: string

    constructor (localSharesDataSource: LocalSharesDataSource, accountName: string)
      ensures this.localSharesDataSource == localSharesDataSource && this.accountName == accountName
    {
      this.localSharesDataSource := localSharesDataSource;
      this.accountName := accountName;
    }

    // -------------------------------------------------------------------------
    // Private shares
    // -------------------------------------------------------------------------

    /** The file's USER, GROUP and FEDERATED shares of this account, refreshed from the server. */
    method GetPrivateShares(filePath: string, answer: RemoteResult<seq<RemoteShare>>)
      returns (result: MutableLiveData<Resource<seq<ShareEntity>>>, call: RemoteCall)
      modifies localSharesDataSource
      ensures fresh(result)
      ensures call == GetSharesCall(filePath, true, false)
      ensures localSharesDataSource.shares == RefreshedStore(old(localSharesDataSource.shares), filePath, answer)
      ensures result.posted == Emissions(
        Some(Query(old(localSharesDataSource.shares), filePath, accountName, PrivateShareTypes)),
        ShouldFetchFromNetwork(Some(Query(old(localSharesDataSource.shares), filePath, accountName, PrivateShareTypes))),
        OutcomeOf(answer),
        Some(Query(localSharesDataSource.shares, filePath, accountName, PrivateShareTypes))).posted
    {
      var storeReads;
      result, call, storeReads := GetShares(filePath, PrivateShareTypes, answer);
    }

    /**
     * Creates a share with a user, a group or a federated recipient. Any other
     * share type, `null` included, throws before anything is posted or sent.
     */
    method InsertPrivateShare(filePath: string, shareType: Option<ShareType>, shareeName: string, permissions: int,
                              answer: RemoteResult<seq<RemoteShare>>)
      returns (outcome: Invocation<Resource<()>>, call: Option<RemoteCall>)
      modifies localSharesDataSource
      ensures !IsPrivateShareType(shareType) ==>
        && outcome == Threw(IllegalShareType(shareType))
        && call == None
        && localSharesDataSource.shares == old(localSharesDataSource.shares)
      ensures IsPrivateShareType(shareType) ==>
        && outcome.Returned? && fresh(outcome.liveData)
        && call == Some(InsertShareCall(filePath, shareType.value, shareeName, permissions,
                                        "", "", INIT_EXPIRATION_DATE_IN_MILLIS, false))
        && InsertedAs(answer, outcome.liveData.posted, old(localSharesDataSource.shares))
    {
      if !IsPrivateShareType(shareType) {
        return Threw(IllegalShareType(shareType)), None;
      }
      var result, c := InsertShare(filePath, shareType.value, shareeName, permissions,
                                   "", "", INIT_EXPIRATION_DATE_IN_MILLIS, false, answer);
      outcome, call := Returned(result), Some(c);
    }

    method UpdatePrivateShare(remoteId: int, permissions: int, answer: RemoteResult<seq<RemoteShare>>)
      returns (result: MutableLiveData<Resource<()>>, call: RemoteCall, thrown: Option<Exception>)
      modifies localSharesDataSource
      ensures fresh(result)
      ensures call == UpdateShareCall(remoteId, "", Some(""), INIT_EXPIRATION_DATE_IN_MILLIS, permissions, false)
      ensures UpdatedAs(answer, result.posted, thrown, old(localSharesDataSource.shares))
    {
      result, call, thrown := UpdateShare(remoteId, permissions, "", Some(""), INIT_EXPIRATION_DATE_IN_MILLIS, false, answer);
    }

    // -------------------------------------------------------------------------
    // Public shares
    // -------------------------------------------------------------------------

    /** The file's PUBLIC_LINK shares of this account, refreshed from the server. */
    method GetPublicShares(filePath: string, answer: RemoteResult<seq<RemoteShare>>)
      returns (result: MutableLiveData<Resource<seq<ShareEntity>>>, call: RemoteCall)
      modifies localSharesDataSource
      ensures fresh(result)
      ensures call == GetSharesCall(filePath, true, false)
      ensures localSharesDataSource.shares == RefreshedStore(old(localSharesDataSource.shares), filePath, answer)
      ensures result.posted == Emissions(
        Some(Query(old(localSharesDataSource.shares), filePath, accountName, PublicShareTypes)),
        ShouldFetchFromNetwork(Some(Query(old(localSharesDataSource.shares), filePath, accountName, PublicShareTypes))),
        OutcomeOf(answer),
        Some(Query(localSharesDataSource.shares, filePath, accountName, PublicShareTypes))).posted
    {
      var storeReads;
      result, call, storeReads := GetShares(filePath, PublicShareTypes, answer);
    }

    method InsertPublicShare(filePath: string, permissions: int, name: string, password: string,
                             expirationTimeInMillis: int, publicUpload: bool, answer: RemoteResult<seq<RemoteShare>>)
      returns (result: MutableLiveData<Resource<()>>, call: RemoteCall)
      modifies localSharesDataSource
      ensures fresh(result)
      ensures call == InsertShareCall(filePath, PUBLIC_LINK, "", permissions, name, password,
                                      expirationTimeInMillis, publicUpload)
      ensures InsertedAs(answer, result.posted, old(localSharesDataSource.shares))
    {
      result, call := InsertShare(filePath, PUBLIC_LINK, "", permissions, name, password,
                                  expirationTimeInMillis, publicUpload, answer);
    }

    method UpdatePublicShare(remoteId: int, name: string, password: Option<string>, expirationDateInMillis: int,
                             permissions: int, publicUpload: bool, answer: RemoteResult<seq<RemoteShare>>)
      returns (result: MutableLiveData<Resource<()>>, call: RemoteCall, thrown: Option<Exception>)
      modifies localSharesDataSource
      ensures fresh(result)
      ensures call == UpdateShareCall(remoteId, name, password, expirationDateInMillis, permissions, publicUpload)
      ensures UpdatedAs(answer, result.posted, thrown, old(localSharesDataSource.shares))
    {
      result, call, thrown := UpdateShare(remoteId, permissions, name, password, expirationDateInMillis,
                                          publicUpload, answer);
    }

    // -------------------------------------------------------------------------
    // Common
    // -------------------------------------------------------------------------

    /** The store after a refresh with `answer`: written back on success, untouched on failure. */
    ghost function RefreshedStore(before: seq<ShareEntity>, filePath: string, answer: RemoteResult<seq<RemoteShare>>)
      : seq<ShareEntity>
    {
      if answer.isSuccess then Refresh(before, filePath, accountName, StampedEntities(answer.data, accountName))
      else before
    }

    /**
     * A share query: Loading with the cached rows of the scope, then the
     * refresh (always attempted, with reshares and without subfiles), then
     * Success with the re-read rows or Error with the cached ones.
     */
    method GetShares(filePath: string, shareTypes: set<ShareType>, answer: RemoteResult<seq<RemoteShare>>)
      returns (result: MutableLiveData<Resource<seq<ShareEntity>>>, call: RemoteCall, storeReads: nat)
      modifies localSharesDataSource
      ensures fresh(result)
      ensures call == GetSharesCall(filePath, true, false)
      ensures localSharesDataSource.shares == RefreshedStore(old(localSharesDataSource.shares), filePath, answer)
      // the posted states, the fetch and the number of store reads are those of the engine's run
      ensures var run := Emissions(
        Some(Query(old(localSharesDataSource.shares), filePath, accountName, shareTypes)),
        ShouldFetchFromNetwork(Some(Query(old(localSharesDataSource.shares), filePath, accountName, shareTypes))),
        OutcomeOf(answer),
        Some(Query(localSharesDataSource.shares, filePath, accountName, shareTypes)));
        result.posted == run.posted && run.fetched && storeReads == run.localReads
      // when the server answers with the file's shares, the final state shows exactly those of the queried types
      ensures answer.isSuccess && (forall r :: r in answer.data ==> r.path == filePath) ==>
        result.posted[1] == Success(Some(Filter(StampedEntities(answer.data, accountName),
                                                Matching(filePath, accountName, shareTypes))))
    {
      result := new MutableLiveData();
      // loadFromDb(): the first value of the live query
      var cached := localSharesDataSource.GetSharesAsLiveData(filePath, accountName, shareTypes);
      storeReads := 1;
      result.PostValue(Loading(Some(cached)));
      // createCall()
      call := GetSharesCall(filePath, true, false);
      if answer.isSuccess {
        SaveCallResult(filePath, answer.data);
        var reread := localSharesDataSource.GetSharesAsLiveData(filePath, accountName, shareTypes);
        storeReads := storeReads + 1;
        result.PostValue(Success(Some(reread)));
        if forall r :: r in answer.data ==> r.path == filePath {
          QueryAfterRefresh(old(localSharesDataSource.shares), filePath, accountName, shareTypes,
                            StampedEntities(answer.data, accountName));
        }
      } else {
        result.PostValue(Error(answer.code, Some(cached), answer.httpPhrase, answer.exception));
      }
    }

    /**
     * The write-back of a refresh: the server's shares, stamped with the
     * account, replace the store's; an empty answer first deletes the
     * file's rows for the account.
     */
    method SaveCallResult(filePath: string, item: seq<RemoteShare>)
      modifies localSharesDataSource
      ensures localSharesDataSource.shares
           == Refresh(old(localSharesDataSource.shares), filePath, accountName, StampedEntities(item, accountName))
    {
      var sharesForFileFromServer := StampedEntities(item, accountName);
      if sharesForFileFromServer == [] {
        localSharesDataSource.DeleteSharesForFile(filePath, accountName);
      }
      localSharesDataSource.ReplaceShares(sharesForFileFromServer);
    }

    /** What an insertion posts and leaves in the store, for the answer it got. */
    ghost predicate InsertedAs(answer: RemoteResult<seq<RemoteShare>>, posted: seq<Resource<()>>,
                               before: seq<ShareEntity>)
      reads localSharesDataSource
    {
      if answer.isSuccess then
        && posted == [Loading(None), Success(None)]
        && localSharesDataSource.shares == before + StampedEntities(answer.data, accountName)
      else
        && posted == [Loading(None), ErrorOf(answer)]
        && localSharesDataSource.shares == before
    }

    /**
     * Posts Loading, sends the creation request and, on success, stores every
     * returned share stamped with the account and posts Success; on failure
     * posts the Error and leaves the store alone.
     */
    method InsertShare(filePath: string, shareType: ShareType, shareWith: string, permissions: int,
                       name: string, password: string, expirationTimeInMillis: int, publicUpload: bool,
                       answer: RemoteResult<seq<RemoteShare>>)
      returns (result: MutableLiveData<Resource<()>>, call: RemoteCall)
      modifies localSharesDataSource
      ensures fresh(result)
      ensures call == InsertShareCall(filePath, shareType, shareWith, permissions, name, password,
                                      expirationTimeInMillis, publicUpload)
      ensures InsertedAs(answer, result.posted, old(localSharesDataSource.shares))
    {
      result := new MutableLiveData();
      result.PostValue(Loading(None));
      call := InsertShareCall(filePath, shareType, shareWith, permissions, name, password,
                              expirationTimeInMillis, publicUpload);
      if answer.isSuccess {
        var newShareFromServer := StampedEntities(answer.data, accountName);
        localSharesDataSource.Insert(newShareFromServer);
        result.PostValue(Success(None));
      } else {
        NotifyError(result, answer);
      }
    }

    /**
     * What an update posts, throws and leaves in the store. A successful
     * answer without shares makes `first()` throw on the worker: nothing
     * after Loading is posted and the store is untouched.
     */
    ghost predicate UpdatedAs(answer: RemoteResult<seq<RemoteShare>>, posted: seq<Resource<()>>,
                              thrown: Option<Exception>, before: seq<ShareEntity>)
      reads localSharesDataSource
    {
      if !answer.isSuccess then
        && posted == [Loading(None), ErrorOf(answer)] && thrown == None
        && localSharesDataSource.shares == before
      else if answer.data == [] then
        && posted == [Loading(None)] && thrown == Some(EmptyListException)
        && localSharesDataSource.shares == before
      else
        && posted == [Loading(None), Success(None)] && thrown == None
        && localSharesDataSource.shares == Upsert(before, StampedEntities(answer.data, accountName)[0])
    }

    /**
     * Posts Loading, sends the update request and, on success, writes only the
     * first returned share, stamped with the account, and posts Success; on
     * failure posts the Error and leaves the store alone.
     */
    method UpdateShare(remoteId: int, permissions: int, name: string, password: Option<string>,
                       expirationDateInMillis: int, publicUpload: bool, answer: RemoteResult<seq<RemoteShare>>)
      returns (result: MutableLiveData<Resource<()>>, call: RemoteCall, thrown: Option<Exception>)
      modifies localSharesDataSource
      ensures fresh(result)
      ensures call == UpdateShareCall(remoteId, name, password, expirationDateInMillis, permissions, publicUpload)
      ensures UpdatedAs(answer, result.posted, thrown, old(localSharesDataSource.shares))
    {
      result := new MutableLiveData();
      result.PostValue(Loading(None));
      call := UpdateShareCall(remoteId, name, password, expirationDateInMillis, permissions, publicUpload);
      thrown := None;
      if answer.isSuccess {
        var updatedShareForFileFromServer := StampedEntities(answer.data, accountName);
        if updatedShareForFileFromServer == [] {
          thrown := Some(EmptyListException);
          return;
        }
        localSharesDataSource.Update(updatedShareForFileFromServer[0]);
        result.PostValue(Success(None));
      } else {
        NotifyError(result, answer);
      }
    }

    /**
     * Posts Loading, sends the deletion request and, on success, removes the
     * rows with that server id and posts Success; on failure posts the Error
     * and leaves the store alone.
     */
    method DeleteShare(remoteId: int, answer: RemoteResult<seq<RemoteShare>>)
      returns (result: MutableLiveData<Resource<()>>, call: RemoteCall)
      modifies localSharesDataSource
      ensures fresh(result)
      ensures call == DeleteShareCall(remoteId)
      ensures answer.isSuccess ==>
        && result.posted == [Loading(None), Success(None)]
        && localSharesDataSource.shares == DeleteRemoteId(old(localSharesDataSource.shares), remoteId)
      ensures !answer.isSuccess ==>
        && result.posted == [Loading(None), ErrorOf(answer)]
        && localSharesDataSource.shares == old(localSharesDataSource.shares)
    {
      result := new MutableLiveData();
      result.PostValue(Loading(None));
      call := DeleteShareCall(remoteId);
      if answer.isSuccess {
        localSharesDataSource.DeleteShare(remoteId);
        result.PostValue(Success(None));
      } else {
        result.PostValue(Error(answer.code, None, answer.httpPhrase, answer.exception));
      }
    }

    /** Posts the Error for a failed remote call: its code, its HTTP phrase as message, its exception. */
    method NotifyError(result: MutableLiveData<Resource<()>>, answer: RemoteResult<seq<RemoteShare>>)
      modifies result
      ensures result.posted == old(result.posted) + [ErrorOf(answer)]
    {
      result.PostValue(Error(answer.code, None, answer.httpPhrase, answer.exception));
    }
  }
}
