/**
 * Share records: what the server answers with (`RemoteShare`), what the local
 * store keeps (`OCShareEntity`), and the mapping between the two that the
 * repository applies before every write.
 */
module Shares {
  import opened Wrappers

  datatype ShareType = USER | GROUP | PUBLIC_LINK | FEDERATED

  /** The share types a private-share query or insertion is scoped to. */
  const PrivateShareTypes: set<ShareType> := {USER, GROUP, FEDERATED}

  /** The share types a public-share query is scoped to. */
  const PublicShareTypes: set<ShareType> := {PUBLIC_LINK}

  /** A share as parsed from the server's answer. */
  datatype RemoteShare = RemoteShare(
    id: int,
    path: string,
    shareType: ShareType,
    shareWith: string,
    permissions: int,
    name: string)

  /** A row of the local share store; `remoteId` is the server's identifier. */
  datatype ShareEntity = ShareEntity(
    remoteId: int,
    path: string,
    accountOwner: string,
    shareType: ShareType,
    shareWith: string,
    permissions: int,
    name: string)

  /**
   * `OCShareEntity.fromRemoteShare`: copies the server's fields. The owner is
   * not known to the parser and is left empty; callers stamp it.
   */
  function FromRemoteShare(r: RemoteShare): (e: ShareEntity)
    ensures e.remoteId == r.id && e.path == r.path && e.shareType == r.shareType
    ensures e.shareWith == r.shareWith && e.permissions == r.permissions && e.name == r.name
  {
    ShareEntity(r.id, r.path, "", r.shareType, r.shareWith, r.permissions, r.name)
  }

  /**
   * `shares.map { fromRemoteShare(it).also { it.accountOwner = accountName } }`:
   * every server share becomes an entity owned by `account`, in server order.
   */
  function StampedEntities(remote: seq<RemoteShare>, account: string): (es: seq<ShareEntity>)
    ensures |es| == |remote|
    ensures forall i :: 0 <= i < |es| ==>
      es[i] == FromRemoteShare(remote[i]).(accountOwner := account)
    ensures forall e :: e in es ==> e.accountOwner == account
  {
    seq(|remote|, i requires 0 <= i < |remote| => FromRemoteShare(remote[i]).(accountOwner := account))
  }

  /** The guard of `insertPrivateShare`: the type is USER, GROUP or FEDERATED (not null). */
  function IsPrivateShareType(t: Option<ShareType>): (accepted: bool)
    ensures accepted <==> t == Some(USER) || t == Some(GROUP) || t == Some(FEDERATED)
  {
    t.Some? && t.value in PrivateShareTypes
  }

  /** Kotlin's string template of a nullable share type. */
  function ShareTypeText(t: Option<ShareType>): string
  {
    match t
    case None => "null"
    case Some(USER) => "USER"
    case Some(GROUP) => "GROUP"
    case Some(PUBLIC_LINK) => "PUBLIC_LINK"
    case Some(FEDERATED) => "FEDERATED"
  }
}
