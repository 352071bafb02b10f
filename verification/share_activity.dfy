/**
 * The two decisions of the share screen (`ShareActivity`) that are not UI:
 * which permissions a new private share gets, and which sharee a search
 * suggestion names.
 */
module ShareActivity {
  import opened Wrappers
  import opened Shares

  /** The permission constants of `RemoteShare`, by name; their bit values are the library's. */
  datatype PermissionConstant =
    | READ_PERMISSION_FLAG
    | FEDERATED_PERMISSIONS_FOR_FOLDER_AFTER_OC9
    | FEDERATED_PERMISSIONS_FOR_FILE_AFTER_OC9
    | FEDERATED_PERMISSIONS_FOR_FOLDER_UP_TO_OC9
    | FEDERATED_PERMISSIONS_FOR_FILE_UP_TO_OC9
    | MAXIMUM_PERMISSIONS_FOR_FOLDER
    | MAXIMUM_PERMISSIONS_FOR_FILE
  {
    predicate IsFederated() {
      || FEDERATED_PERMISSIONS_FOR_FOLDER_AFTER_OC9? || FEDERATED_PERMISSIONS_FOR_FILE_AFTER_OC9?
      || FEDERATED_PERMISSIONS_FOR_FOLDER_UP_TO_OC9? || FEDERATED_PERMISSIONS_FOR_FILE_UP_TO_OC9?
    }

    predicate IsAfterOC9() {
      FEDERATED_PERMISSIONS_FOR_FOLDER_AFTER_OC9? || FEDERATED_PERMISSIONS_FOR_FILE_AFTER_OC9?
    }

    predicate IsForFolder() {
      || FEDERATED_PERMISSIONS_FOR_FOLDER_AFTER_OC9? || FEDERATED_PERMISSIONS_FOR_FOLDER_UP_TO_OC9?
      || MAXIMUM_PERMISSIONS_FOR_FOLDER?
    }
  }

  /** The file being shared, as far as the decision needs it. */
  datatype SharedFile = SharedFile(isSharedWithMe: bool, isFolder: bool)

  /** The account's server version (`null` is `None`), as far as the decision needs it. */
  datatype ServerVersion = ServerVersion(isNotReshareableFederatedSupported: bool)

  /**
   * `getAppropiatePermissions`: a file shared with the current user gets only
   * the read flag, whatever the share type; otherwise a federated share gets a
   * federated constant (the after-OC9 one only on a known server that supports
   * non-reshareable federated shares), any other share the maximum; the
   * folder/file variant follows the file.
   */
  function GetAppropiatePermissions(file: SharedFile, shareType: Option<ShareType>,
                                    serverVersion: Option<ServerVersion>): (p: PermissionConstant)
    ensures p == READ_PERMISSION_FLAG <==> file.isSharedWithMe
    ensures p.IsFederated() <==> !file.isSharedWithMe && shareType == Some(FEDERATED)
    ensures p.IsAfterOC9() <==>
      && !file.isSharedWithMe && shareType == Some(FEDERATED)
      && serverVersion.Some? && serverVersion.value.isNotReshareableFederatedSupported
    ensures !file.isSharedWithMe ==> (p.IsForFolder() <==> file.isFolder)
  {
    var isFederated := Some(FEDERATED) == shareType;
    if file.isSharedWithMe then
      READ_PERMISSION_FLAG
    else if isFederated then
      if serverVersion.Some? && serverVersion.value.isNotReshareableFederatedSupported then
        if file.isFolder then FEDERATED_PERMISSIONS_FOR_FOLDER_AFTER_OC9
        else FEDERATED_PERMISSIONS_FOR_FILE_AFTER_OC9
      else
        if file.isFolder then FEDERATED_PERMISSIONS_FOR_FOLDER_UP_TO_OC9
        else FEDERATED_PERMISSIONS_FOR_FILE_UP_TO_OC9
    else
      if file.isFolder then MAXIMUM_PERMISSIONS_FOR_FOLDER
      else MAXIMUM_PERMISSIONS_FOR_FILE
  }

  /** `String.lastIndexOf(c)`: the last position of `c`, or -1. */
  function LastIndexOf(s: string, c: char): (i: int)
    ensures -1 <= i < |s|
    ensures i >= 0 ==> s[i] == c
    ensures forall j :: i < j < |s| ==> s[j] != c
  {
    if s == [] then -1
    else if s[|s| - 1] == c then |s| - 1
    else LastIndexOf(s[..|s| - 1], c)
  }

  /**
   * The sharee named by a search suggestion (`onNewIntent`): the text of the
   * intent's data string after its last '/', or all of it when it has none.
   * That is the longest suffix without a '/'.
   */
  function ShareWith(dataString: string): (shareWith: string)
    ensures |shareWith| <= |dataString| && shareWith == dataString[|dataString| - |shareWith|..]
    ensures '/' !in shareWith
    ensures |shareWith| < |dataString| ==> dataString[|dataString| - |shareWith| - 1] == '/'
  {
    dataString[LastIndexOf(dataString, '/') + 1..]
  }
}
