/**
 * The local share store (`LocalSharesDataSource`) as the repository sees it:
 * rows of `ShareEntity`, a live query by file, account and share type, and
 * the writes the repository issues. The store's own implementation is not
 * part of this model; each write is specified by a function on the rows.
 */
module ShareStore {
  import opened Shares

  /** The row selections the store's queries and deletions are made of. */
  datatype RowFilter =
    | InFile(path: string, account: string)
    | NotInFile(path: string, account: string)
    | OutsideScopesOf(incoming: seq<ShareEntity>)
    | NotRemoteId(id: int)
    | Matching(path: string, account: string, types: set<ShareType>)

  /** The (file, account) scope a row belongs to. */
  predicate InScope(e: ShareEntity, path: string, account: string)
  {
    e.path == path && e.accountOwner == account
  }

  predicate Keeps(f: RowFilter, e: ShareEntity)
  {
    match f
    case InFile(p, a) => InScope(e, p, a)
    case NotInFile(p, a) => !InScope(e, p, a)
    case OutsideScopesOf(incoming) => forall n :: n in incoming ==> !InScope(e, n.path, n.accountOwner)
    case NotRemoteId(id) => e.remoteId != id
    case Matching(p, a, types) => InScope(e, p, a) && e.shareType in types
  }

  /** The rows `f` keeps, in store order. */
  function Filter(rows: seq<ShareEntity>, f: RowFilter): (r: seq<ShareEntity>)
    ensures forall e :: e in r <==> e in rows && Keeps(f, e)
    ensures |r| <= |rows|
  {
    if rows == [] then []
    else (if Keeps(f, rows[0]) then [rows[0]] else []) + Filter(rows[1..], f)
  }

  lemma {:induction false} FilterAppend(a: seq<ShareEntity>, b: seq<ShareEntity>, f: RowFilter)
    ensures Filter(a + b, f) == Filter(a, f) + Filter(b, f)
  {
    if a == [] {
      assert a + b == b;
    } else {
      assert (a + b)[1..] == a[1..] + b;
      FilterAppend(a[1..], b, f);
    }
  }

  /** A filter that keeps every row changes nothing. */
  lemma {:induction false} FilterKeepsAll(rows: seq<ShareEntity>, f: RowFilter)
    requires forall e :: e in rows ==> Keeps(f, e)
    ensures Filter(rows, f) == rows
  {
    if rows != [] {
      FilterKeepsAll(rows[1..], f);
    }
  }

  lemma {:induction false} FilterIdempotent(rows: seq<ShareEntity>, f: RowFilter)
    ensures Filter(Filter(rows, f), f) == Filter(rows, f)
  {
    if rows != [] {
      var rest := Filter(rows[1..], f);
      FilterIdempotent(rows[1..], f);
      if Keeps(f, rows[0]) {
        assert Filter(rows, f) == [rows[0]] + rest;
        assert ([rows[0]] + rest)[1..] == rest;
      } else {
        assert Filter(rows, f) == rest;
      }
    }
  }

  /** A filter that keeps no row leaves nothing. */
  lemma {:induction false} FilterKeepsNone(rows: seq<ShareEntity>, f: RowFilter)
    requires forall e :: e in rows ==> !Keeps(f, e)
    ensures Filter(rows, f) == []
  {
    if rows != [] {
      FilterKeepsNone(rows[1..], f);
    }
  }

  // ---------------------------------------------------------------------------
  // The store's operations, as functions of the rows before.
  // ---------------------------------------------------------------------------

  /** `getSharesAsLiveData(filePath, accountOwner, shareTypes)`. */
  function Query(rows: seq<ShareEntity>, path: string, account: string, types: set<ShareType>): (r: seq<ShareEntity>)
    ensures forall e :: e in r <==> e in rows && InScope(e, path, account) && e.shareType in types
  {
    Filter(rows, Matching(path, account, types))
  }

  /** `deleteSharesForFile(filePath, accountOwner)`: the scope's rows go, every other row stays. */
  function DeleteForFile(rows: seq<ShareEntity>, path: string, account: string): (r: seq<ShareEntity>)
    ensures forall e :: e in r ==> !InScope(e, path, account)
    ensures forall e :: e in rows && !InScope(e, path, account) ==> e in r
    ensures forall e :: e in r ==> e in rows
  {
    Filter(rows, NotInFile(path, account))
  }

  /**
   * `replaceShares(incoming)`: every row in the (file, account) scope of an
   * incoming share is dropped, then the incoming shares are added. An empty
   * `incoming` drops nothing.
   */
  function Replace(rows: seq<ShareEntity>, incoming: seq<ShareEntity>): (r: seq<ShareEntity>)
    ensures forall e :: e in r <==>
      e in incoming || (e in rows && forall n :: n in incoming ==> !InScope(e, n.path, n.accountOwner))
  {
    Filter(rows, OutsideScopesOf(incoming)) + incoming
  }

  /** `deleteShare(remoteId)`: the rows with that server id go, every other row stays. */
  function DeleteRemoteId(rows: seq<ShareEntity>, id: int): (r: seq<ShareEntity>)
    ensures forall e :: e in r ==> e.remoteId != id
    ensures forall e :: e in r <==> e in rows && e.remoteId != id
  {
    Filter(rows, NotRemoteId(id))
  }

  /** The rows with the share's server id, each replaced by the share. */
  function ReplaceById(rows: seq<ShareEntity>, share: ShareEntity): (r: seq<ShareEntity>)
    ensures |r| == |rows|
    ensures forall e :: e in r ==> e == share || (e in rows && e.remoteId != share.remoteId)
    ensures forall e :: e in rows && e.remoteId != share.remoteId ==> e in r
    ensures (exists e :: e in rows && e.remoteId == share.remoteId) ==> share in r
  {
    if rows == [] then []
    else [if rows[0].remoteId == share.remoteId then share else rows[0]] + ReplaceById(rows[1..], share)
  }

  /**
   * `update(share)`: the rows with the share's server id become the share; if
   * there is none, the share is added.
   */
  function Upsert(rows: seq<ShareEntity>, share: ShareEntity): (r: seq<ShareEntity>)
    ensures share in r
    ensures forall e :: e in r ==> e == share || (e in rows && e.remoteId != share.remoteId)
    ensures forall e :: e in rows && e.remoteId != share.remoteId ==> e in r
  {
    if exists e :: e in rows && e.remoteId == share.remoteId then ReplaceById(rows, share)
    else rows + [share]
  }

  /**
   * The write-back of a refresh (`saveCallResult`): an empty answer first
   * deletes the file's rows for the account, then the answer replaces its scopes.
   */
  function Refresh(rows: seq<ShareEntity>, path: string, account: string, fromServer: seq<ShareEntity>): seq<ShareEntity>
  {
    Replace(if fromServer == [] then DeleteForFile(rows, path, account) else rows, fromServer)
  }

  // ---------------------------------------------------------------------------
  // What a refresh does to the store.
  // ---------------------------------------------------------------------------

  /** Replacing with nothing drops nothing: without the explicit delete, stale rows would stay. */
  lemma ReplaceWithNothing(rows: seq<ShareEntity>)
    ensures Replace(rows, []) == rows
  {
    FilterKeepsAll(rows, OutsideScopesOf([]));
  }

  /**
   * An empty answer removes every row of (path, account) and no other row.
   */
  lemma RefreshEmptyEvicts(rows: seq<ShareEntity>, path: string, account: string)
    ensures Refresh(rows, path, account, []) == DeleteForFile(rows, path, account)
    ensures forall e :: e in Refresh(rows, path, account, []) <==> e in rows && !InScope(e, path, account)
  {
    ReplaceWithNothing(DeleteForFile(rows, path, account));
  }

  /**
   * Full replace: when the server's shares all belong to (path, account), the
   * scope holds exactly those shares afterwards, in server order, and every
   * row of another scope is untouched.
   */
  lemma RefreshReplacesScope(rows: seq<ShareEntity>, path: string, account: string, fromServer: seq<ShareEntity>)
    requires forall e :: e in fromServer ==> InScope(e, path, account)
    ensures Filter(Refresh(rows, path, account, fromServer), InFile(path, account)) == fromServer
    ensures forall e :: !InScope(e, path, account) ==>
      (e in Refresh(rows, path, account, fromServer) <==> e in rows)
  {
    var base := if fromServer == [] then DeleteForFile(rows, path, account) else rows;
    var kept := Filter(base, OutsideScopesOf(fromServer));
    assert Refresh(rows, path, account, fromServer) == kept + fromServer;
    KeptLeavesScope(base, path, account, fromServer);
    FilterAppend(kept, fromServer, InFile(path, account));
    FilterKeepsNone(kept, InFile(path, account));
    FilterKeepsAll(fromServer, InFile(path, account));
  }

  /** What a refresh keeps of the old rows lies outside the refreshed scope. */
  lemma KeptLeavesScope(base: seq<ShareEntity>, path: string, account: string, fromServer: seq<ShareEntity>)
    requires forall e :: e in fromServer ==> InScope(e, path, account)
    requires fromServer == [] ==> forall e :: e in base ==> !InScope(e, path, account)
    ensures forall e :: e in Filter(base, OutsideScopesOf(fromServer)) ==> !InScope(e, path, account)
  {
    if fromServer != [] {
      assert fromServer[0] in fromServer;
    }
  }

  /**
   * What the live query shows after a refresh: the server's shares of the
   * queried types, in server order.
   */
  lemma QueryAfterRefresh(rows: seq<ShareEntity>, path: string, account: string, types: set<ShareType>,
                          fromServer: seq<ShareEntity>)
    requires forall e :: e in fromServer ==> InScope(e, path, account)
    ensures Query(Refresh(rows, path, account, fromServer), path, account, types)
         == Filter(fromServer, Matching(path, account, types))
    ensures forall e ::
      e in Query(Refresh(rows, path, account, fromServer), path, account, types) <==>
      e in fromServer && e.shareType in types
  {
    var base := if fromServer == [] then DeleteForFile(rows, path, account) else rows;
    var kept := Filter(base, OutsideScopesOf(fromServer));
    assert Refresh(rows, path, account, fromServer) == kept + fromServer;
    KeptLeavesScope(base, path, account, fromServer);
    FilterAppend(kept, fromServer, Matching(path, account, types));
    FilterKeepsNone(kept, Matching(path, account, types));
  }

  /** Refreshing twice with the same answer gives the same store as once: no duplicate rows. */
  lemma RefreshIdempotent(rows: seq<ShareEntity>, path: string, account: string, fromServer: seq<ShareEntity>)
    ensures Refresh(Refresh(rows, path, account, fromServer), path, account, fromServer)
         == Refresh(rows, path, account, fromServer)
  {
    if fromServer == [] {
      EmptyRefreshIdempotent(rows, path, account);
    } else {
      ReplaceIdempotent(rows, fromServer);
    }
  }

  lemma EmptyRefreshIdempotent(rows: seq<ShareEntity>, path: string, account: string)
    ensures Refresh(Refresh(rows, path, account, []), path, account, []) == Refresh(rows, path, account, [])
  {
    var d := DeleteForFile(rows, path, account);
    RefreshEmptyEvicts(rows, path, account);
    RefreshEmptyEvicts(d, path, account);
    FilterIdempotent(rows, NotInFile(path, account));
  }

  lemma ReplaceIdempotent(rows: seq<ShareEntity>, incoming: seq<ShareEntity>)
    ensures Replace(Replace(rows, incoming), incoming) == Replace(rows, incoming)
  {
    var o := OutsideScopesOf(incoming);
    var kept := Filter(rows, o);
    assert A: Replace(rows, incoming) == kept + incoming;
    assert B: Replace(kept + incoming, incoming) == Filter(kept + incoming, o) + incoming;
    FilterAppend(kept, incoming, o);
    FilterIdempotent(rows, o);
    IncomingLeavesOwnScope(incoming);
    FilterKeepsNone(incoming, o);
    assert Filter(kept + incoming, o) == kept;
  }

  /** Every incoming share lies in its own scope, so the replace filter drops it. */
  lemma IncomingLeavesOwnScope(incoming: seq<ShareEntity>)
    ensures forall e :: e in incoming ==> !Keeps(OutsideScopesOf(incoming), e)
  {
    forall e | e in incoming
      ensures !Keeps(OutsideScopesOf(incoming), e)
    {
      assert InScope(e, e.path, e.accountOwner);
    }
  }

  /**
   * The store (`LocalSharesDataSource`). Each write replaces the rows by the
   * function above of the rows before; nothing else changes.
   */
  class LocalSharesDataSource {
    var shares: seq<ShareEntity>

    constructor (initial: seq<ShareEntity>)
      ensures shares == initial
    {
      shares := initial;
    }

    /** The current value of `getSharesAsLiveData(filePath, accountOwner, shareTypes)`. */
    function GetSharesAsLiveData(filePath: string, accountOwner: string, shareTypes: set<ShareType>)
      : (current: seq<ShareEntity>)
      reads this
      ensures forall e :: e in current <==>
        e in shares && e.path == filePath && e.accountOwner == accountOwner && e.shareType in shareTypes
    {
      Query(shares, filePath, accountOwner, shareTypes)
    }

    method DeleteSharesForFile(filePath: string, accountOwner: string)
      modifies this
      ensures shares == DeleteForFile(old(shares), filePath, accountOwner)
    {
      shares := DeleteForFile(shares, filePath, accountOwner);
    }

    method ReplaceShares(incoming: seq<ShareEntity>)
      modifies this
      ensures shares == Replace(old(shares), incoming)
    {
      shares := Replace(shares, incoming);
    }

    method Insert(incoming: seq<ShareEntity>)
      modifies this
      ensures shares == old(shares) + incoming
    {
      shares := shares + incoming;
    }

    method Update(share: ShareEntity)
      modifies this
      ensures shares == Upsert(old(shares), share)
    {
      shares := Upsert(shares, share);
    }

    method DeleteShare(remoteId: int)
      modifies this
      ensures shares == DeleteRemoteId(old(shares), remoteId)
    {
      shares := DeleteRemoteId(shares, remoteId);
    }
  }
}
