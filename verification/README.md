# ownCloud Android: share cache and display helpers in Dafny

This project models the part of the ownCloud Android client that keeps the
local cache of a file's shares in step with the server. It also models a few
pure helpers the app uses around it.

- **Shares** (`shares.dfy`): the share types, the server's share record, the
  store's row, and the mapping that stamps every server share with the
  account before it is written.
- **Share store** (`share_store.dfy`): the local share store, as pure
  functions on a sequence of rows plus a `LocalSharesDataSource` class whose
  methods reassign that sequence. It covers scoped queries, the refresh
  write-back (an empty answer evicts the file's rows; otherwise each returned
  share's file scope is replaced), insert, upsert by server id, and delete by
  server id.
- **Engine** (`network_bound_resource.dfy`): the cache-then-refresh engine,
  as the contract its observers see. Loading carries the cached value. A
  successful fetch ends in Success with what the store holds after the
  write-back. A failed fetch ends in Error with the cached value.
- **Repository** (`share_repository.dfy`, `live_data.dfy`): the class
  `OCShareRepository`. It has the private- and public-share queries, the
  insert/update guards and defaults, the shared insert/update/delete paths,
  and error reporting. Each result is a `MutableLiveData` whose posted states
  are recorded in order.
- **Use case** (`public_shares_usecase.dfy`): `GetPublicSharesUsecase.run`,
  which turns a repository result into a `UseCaseResult`.
- **Share screen** (`share_activity.dfy`): the permissions a new private share
  gets, and the sharee a search suggestion names.
- **Display helpers** (`display_utils.dfy`): path trimming, MIME pretty-printing
  (Java `split` semantics included), the size-suffix choice of
  `bytesToHumanReadable` over a 64-bit `long`, and the host splitting of
  `convertIdn`. The `convertIdn` part has both an as-written and a corrected
  version (see Findings).
- **Admin flag** (`dhamma.dfy`): the `Dhamma` admin toggle.

The background executor, the server and the IDN converter are not run.
Instead, the server's answer to a call is a parameter of the operation, and
the remote call the operation makes is returned as a value.

## Model

| member | source | states |
|---|---|---|
| Shares.FromRemoteShare | owncloudDomain/src/main/java/com/owncloud/android/domain/sharing/shares/OCShareRepository.kt:284-285 | a stored row carries the server's id, path, type, sharee, permissions and name unchanged |
| Shares.StampedEntities | owncloudDomain/src/main/java/com/owncloud/android/domain/sharing/shares/OCShareRepository.kt:284-287 | one row per server share, in server order, each the mapped share owned by the account |
| ShareStore.Filter | owncloudDomain/src/main/java/com/owncloud/android/domain/sharing/shares/OCShareRepository.kt:298-301 | a row survives exactly when it was present and the filter keeps it; never grows |
| ShareStore.FilterAppend | owncloudDomain/src/main/java/com/owncloud/android/domain/sharing/shares/OCShareRepository.kt:293 | filtering distributes over concatenation of row lists |
| ShareStore.FilterIdempotent | owncloudDomain/src/main/java/com/owncloud/android/domain/sharing/shares/OCShareRepository.kt:293 | filtering twice by the same filter is filtering once |
| ShareStore.Query | owncloudDomain/src/main/java/com/owncloud/android/domain/sharing/shares/OCShareRepository.kt:298-301 | the live query yields exactly the stored rows of that file and account whose type is among the requested ones |
| ShareStore.DeleteForFile | owncloudDomain/src/main/java/com/owncloud/android/domain/sharing/shares/OCShareRepository.kt:289-291 | no row of the file and account is left; every other row stays |
| ShareStore.Replace | owncloudDomain/src/main/java/com/owncloud/android/domain/sharing/shares/OCShareRepository.kt:293 | a row is present afterwards exactly when it is incoming, or it was stored and lies outside the (file, account) scope of every incoming share |
| ShareStore.LocalSharesDataSource.GetSharesAsLiveData | owncloudDomain/src/main/java/com/owncloud/android/domain/sharing/shares/OCShareRepository.kt:298-301 | the live query's current value holds exactly the stored rows of that file and account whose type is requested |
| ShareStore.KeptLeavesScope | owncloudDomain/src/main/java/com/owncloud/android/domain/sharing/shares/OCShareRepository.kt:289-293 | no old row that a refresh keeps lies in the refreshed file's scope |
| ShareStore.DeleteRemoteId | owncloudDomain/src/main/java/com/owncloud/android/domain/sharing/shares/OCShareRepository.kt:258 | exactly the rows with that server id are removed |
| ShareStore.ReplaceById | owncloudDomain/src/main/java/com/owncloud/android/domain/sharing/shares/OCShareRepository.kt:236 | rows with the share's server id become the share, others stay, the length is kept |
| ShareStore.Upsert | owncloudDomain/src/main/java/com/owncloud/android/domain/sharing/shares/OCShareRepository.kt:236 | the share is present afterwards; the only rows removed are the old ones with its server id |
| ShareStore.ReplaceWithNothing | owncloudDomain/src/main/java/com/owncloud/android/domain/sharing/shares/OCShareRepository.kt:289-293 | replacing with an empty list changes nothing, which is why an empty answer needs the explicit delete |
| ShareStore.RefreshEmptyEvicts | owncloudDomain/src/main/java/com/owncloud/android/domain/sharing/shares/OCShareRepository.kt:289-293 | an empty server answer removes exactly the file's rows for the account |
| ShareStore.RefreshReplacesScope | owncloudDomain/src/main/java/com/owncloud/android/domain/sharing/shares/OCShareRepository.kt:283-294 | after a refresh with the file's shares, the file's rows for the account are exactly the server's; rows of other files or accounts are untouched |
| ShareStore.QueryAfterRefresh | owncloudDomain/src/main/java/com/owncloud/android/domain/sharing/shares/OCShareRepository.kt:283-301 | after a refresh, the query shows exactly the server's shares of the requested types |
| ShareStore.RefreshIdempotent | owncloudDomain/src/main/java/com/owncloud/android/domain/sharing/shares/OCShareRepository.kt:283-294 | writing back the same server answer twice leaves the store as writing it once |
| ShareStore.EmptyRefreshIdempotent | owncloudDomain/src/main/java/com/owncloud/android/domain/sharing/shares/OCShareRepository.kt:289-293 | evicting a file's rows twice is evicting them once |
| ShareStore.ReplaceIdempotent | owncloudDomain/src/main/java/com/owncloud/android/domain/sharing/shares/OCShareRepository.kt:293 | replacing with the same shares twice is replacing once |
| ShareStore.LocalSharesDataSource.DeleteSharesForFile | owncloudDomain/src/main/java/com/owncloud/android/domain/sharing/shares/OCShareRepository.kt:290 | the stored rows become the old rows without the file's rows for the account |
| ShareStore.LocalSharesDataSource.ReplaceShares | owncloudDomain/src/main/java/com/owncloud/android/domain/sharing/shares/OCShareRepository.kt:293 | the stored rows become the old rows with the incoming shares' scopes replaced |
| ShareStore.LocalSharesDataSource.Insert | owncloudDomain/src/main/java/com/owncloud/android/domain/sharing/shares/OCShareRepository.kt:200 | the incoming rows are appended to the old ones |
| ShareStore.LocalSharesDataSource.Update | owncloudDomain/src/main/java/com/owncloud/android/domain/sharing/shares/OCShareRepository.kt:236 | the stored rows become the upsert of the share by server id |
| ShareStore.LocalSharesDataSource.DeleteShare | owncloudDomain/src/main/java/com/owncloud/android/domain/sharing/shares/OCShareRepository.kt:258 | the stored rows lose exactly those with that server id |
| NetworkBoundResource.OutcomeOf | owncloudDomain/src/main/java/com/owncloud/android/domain/sharing/shares/OCShareRepository.kt:303-304 | a call counts as fetched exactly when the remote result is a success; a failure keeps its code, HTTP phrase and exception |
| NetworkBoundResource.Emissions | owncloudDomain/src/test/java/com/owncloud/android/domain/capabilities/OCCapabilityRepositoryTest.kt:79-101 | Loading with the cached value, then exactly one terminal state: Error with the cached value after a failed fetch (one store read), Success with the re-read value after a successful one (two reads) |
| LiveData.MutableLiveData.PostValue | owncloudDomain/src/main/java/com/owncloud/android/domain/sharing/shares/OCShareRepository.kt:181 | a posted state is appended to what observers have seen |
| ShareRepository.ErrorOf | owncloudDomain/src/main/java/com/owncloud/android/domain/sharing/shares/OCShareRepository.kt:314-325 | the reported Error carries the remote result's code, its HTTP phrase as message, its exception, and no data |
| ShareRepository.ShouldFetchFromNetwork | owncloudDomain/src/main/java/com/owncloud/android/domain/sharing/shares/OCShareRepository.kt:296 | the server is asked whatever is cached, null included |
| ShareRepository.OCShareRepository.GetPrivateShares | owncloudDomain/src/main/java/com/owncloud/android/domain/sharing/shares/OCShareRepository.kt:48-57 | a query scoped to USER, GROUP and FEDERATED shares, with the engine's emissions and the refreshed store |
| Shares.IsPrivateShareType | owncloudDomain/src/main/java/com/owncloud/android/domain/sharing/shares/OCShareRepository.kt:66 | the insertion guard accepts exactly USER, GROUP and FEDERATED, and not null |
| ShareRepository.OCShareRepository.InsertPrivateShare | owncloudDomain/src/main/java/com/owncloud/android/domain/sharing/shares/OCShareRepository.kt:59-76 | a type other than USER, GROUP or FEDERATED (null included) throws IllegalArgumentException before any call or store change; otherwise the insertion with empty name and password, no expiration and no public upload |
| ShareRepository.OCShareRepository.UpdatePrivateShare | owncloudDomain/src/main/java/com/owncloud/android/domain/sharing/shares/OCShareRepository.kt:78-83 | an update request with the given permissions and the defaults for everything else |
| ShareRepository.OCShareRepository.GetPublicShares | owncloudDomain/src/main/java/com/owncloud/android/domain/sharing/shares/OCShareRepository.kt:89-94 | a query scoped to PUBLIC_LINK shares, with the engine's emissions and the refreshed store |
| ShareRepository.OCShareRepository.InsertPublicShare | owncloudDomain/src/main/java/com/owncloud/android/domain/sharing/shares/OCShareRepository.kt:96-113 | a PUBLIC_LINK insertion with an empty sharee and the caller's name, password, expiration and upload flag |
| ShareRepository.OCShareRepository.UpdatePublicShare | owncloudDomain/src/main/java/com/owncloud/android/domain/sharing/shares/OCShareRepository.kt:115-131 | an update request carrying all of the caller's arguments, a null password included |
| ShareRepository.OCShareRepository.GetShares | owncloudDomain/src/main/java/com/owncloud/android/domain/sharing/shares/OCShareRepository.kt:277-306 | always fetches (the refresh policy), with reshares and without subfiles; the store is refreshed only on success; the posted states and the store reads (one, or two around a successful fetch) are the engine's; a successful answer for the file shows exactly its shares of the queried types |
| ShareRepository.OCShareRepository.SaveCallResult | owncloudDomain/src/main/java/com/owncloud/android/domain/sharing/shares/OCShareRepository.kt:283-294 | the write-back is the refresh with the server's shares stamped with the account |
| ShareRepository.OCShareRepository.InsertShare | owncloudDomain/src/main/java/com/owncloud/android/domain/sharing/shares/OCShareRepository.kt:170-207 | Loading, then Success with every returned share appended to the store, or the Error with the store untouched |
| ShareRepository.OCShareRepository.UpdateShare | owncloudDomain/src/main/java/com/owncloud/android/domain/sharing/shares/OCShareRepository.kt:209-243 | Loading, then Success with only the first returned share upserted, or the Error with the store untouched; an empty success list throws with only Loading posted |
| ShareRepository.OCShareRepository.DeleteShare | owncloudDomain/src/main/java/com/owncloud/android/domain/sharing/shares/OCShareRepository.kt:245-271 | Loading, then Success with the rows of that server id removed, or the Error with the store untouched |
| ShareRepository.OCShareRepository.NotifyError | owncloudDomain/src/main/java/com/owncloud/android/domain/sharing/shares/OCShareRepository.kt:314-325 | exactly one Error state is appended, built from the remote result |
| GetPublicSharesUsecase.Run | owncloudDomain/src/main/java/com/owncloud/android/domain/sharing/shares/usecases/GetPublicSharesUsecase.kt:32-45 | the result is an Error exactly when the repository result is not a Success; the data is passed through; code, message and exception are copied |
| ShareActivity.GetAppropiatePermissions | owncloudApp/src/main/java/com/owncloud/android/presentation/sharing/shares/ShareActivity.kt:316-342 | read-only exactly for a file shared with the user; a federated constant exactly for a federated share otherwise; the after-OC9 one exactly when the server is known and supports it; folder variant exactly for folders |
| ShareActivity.LastIndexOf | owncloudApp/src/main/java/com/owncloud/android/presentation/sharing/shares/ShareActivity.kt:137 | the last position of the character, or -1 when it does not occur |
| ShareActivity.ShareWith | owncloudApp/src/main/java/com/owncloud/android/presentation/sharing/shares/ShareActivity.kt:137 | the sharee is the longest suffix of the data string without '/', preceded by '/' when it is not the whole string |
| Dhamma.Dhamma.IsAdmin | owncloudApp/src/main/java/com/owncloud/android/Dhamma.java:9-11 | reports the flag, which a toggle's returned value always matches |
| Dhamma.Dhamma.ToggleAdmin | owncloudApp/src/main/java/com/owncloud/android/Dhamma.java:14-16 | the flag is flipped and the new value is returned |
| Dhamma.Dhamma.ToggleTwice | owncloudApp/src/main/java/com/owncloud/android/Dhamma.java:11-16 | two toggles restore the flag, returning first its negation and then its old value |
| DisplayUtils.GetPathWithoutLastSlash | owncloudApp/src/main/java/com/owncloud/android/utils/DisplayUtils.java:235-242 | the path loses its trailing separator exactly when it is longer than one character and ends with one; otherwise it is unchanged |
| DisplayUtils.IndexOf | owncloudApp/src/main/java/com/owncloud/android/utils/DisplayUtils.java:173 | the first occurrence of the pattern, or -1 when there is none |
| DisplayUtils.SplitAll | owncloudApp/src/main/java/com/owncloud/android/utils/DisplayUtils.java:126 | at least one piece, none containing the separator |
| DisplayUtils.JoinSplitAll | owncloudApp/src/main/java/com/owncloud/android/utils/DisplayUtils.java:126 | joining the pieces with the separator gives the text back |
| DisplayUtils.DropTrailingEmpty | owncloudApp/src/main/java/com/owncloud/android/utils/DisplayUtils.java:126 | a prefix of the pieces that ends in a non-empty piece, and everything dropped is empty |
| DisplayUtils.JavaSplit | owncloudApp/src/main/java/com/owncloud/android/utils/DisplayUtils.java:126 | no separator gives the text itself; otherwise no piece holds the separator and the last piece kept is non-empty |
| DisplayUtils.ToUpperCase | owncloudApp/src/main/java/com/owncloud/android/utils/DisplayUtils.java:127 | same length; ASCII lower-case letters are raised and other characters kept |
| DisplayUtils.ConvertMIMEtoPrettyPrint | owncloudApp/src/main/java/com/owncloud/android/utils/DisplayUtils.java:122-130 | a mapped type gets its table name (nine entries, as listed at lines 65-78) |
| DisplayUtils.PrettyPrintBySubtype | owncloudApp/src/main/java/com/owncloud/android/utils/DisplayUtils.java:122-130 | an unmapped type is its upper-cased subtype plus " file", or "Unknown type" when it has no '/' or only '/' follows the first |
| DisplayUtils.SplitBySubtype | owncloudApp/src/main/java/com/owncloud/android/utils/DisplayUtils.java:126-127 | Java's split leaves a second piece exactly when there is a subtype, and that piece is the subtype |
| DisplayUtils.SomePieceNonEmpty | owncloudApp/src/main/java/com/owncloud/android/utils/DisplayUtils.java:126 | some piece is non-empty exactly when the text has a character other than the separator |
| DisplayUtils.SecondPieceKept | owncloudApp/src/main/java/com/owncloud/android/utils/DisplayUtils.java:126 | after dropping trailing empties a second piece remains exactly when a later piece is non-empty, and it is the original second piece |
| DisplayUtils.BytesToHumanReadable | owncloudApp/src/main/java/com/owncloud/android/utils/DisplayUtils.java:90-113 | "pending" exactly for a negative size; otherwise the unit is the largest power of 1024 not above the size (bytes for sizes below 1024), never past EB, with the matching suffix and scale, and the integer part of the size in that unit |
| DisplayUtils.DivisionStep | owncloudApp/src/main/java/com/owncloud/android/utils/DisplayUtils.java:95-98 | dividing by 1024 and moving to the next suffix keeps the integer part of the size in the new unit |
| DisplayUtils.UnitBounds | owncloudApp/src/main/java/com/owncloud/android/utils/DisplayUtils.java:95-100 | when the loop stops below 1024 units, the size lies between the unit and the next power of 1024 |
| DisplayUtils.LongBelow1024To7 | owncloudApp/src/main/java/com/owncloud/android/utils/DisplayUtils.java:95 | a 64-bit size never reaches a seventh division, so both tables are indexed within bounds |
| DisplayUtils.LeadingDots | owncloudApp/src/main/java/com/owncloud/android/utils/DisplayUtils.java:163-168 | the number of dots a URL starts with |
| DisplayUtils.HostSpan | owncloudApp/src/main/java/com/owncloud/android/utils/DisplayUtils.java:170-182 | the host starts just past the first "//" (by `IndexOf`), else just past the first '@', else at 0; it holds no '/' and is followed by '/' or the end |
| DisplayUtils.ConvertIdn | owncloudApp/src/main/java/com/owncloud/android/utils/DisplayUtils.java:161-186 | all leading dots are kept and only the host of the rest is passed through the converter |
| DisplayUtils.ConvertIdnIdentity | owncloudApp/src/main/java/com/owncloud/android/utils/DisplayUtils.java:161-186 | with converters that change nothing the URL comes back unchanged |
| DisplayUtils.AsWrittenHostSpan | owncloudApp/src/main/java/com/owncloud/android/utils/DisplayUtils.java:170-182 | the host cut as computed, in bounds of the dot-less text whenever it does not throw |
| DisplayUtils.HostStart | owncloudApp/src/main/java/com/owncloud/android/utils/DisplayUtils.java:171-176 | as written: past the first "//" of `url` when the dot-less text has one, else past the first '@' of `url`, else 0 |
| DisplayUtils.AsWrittenAfterDots | owncloudApp/src/main/java/com/owncloud/android/utils/DisplayUtils.java:178-185 | throws StringIndexOutOfBoundsException exactly when the cut is out of bounds; otherwise the dots, the text before the cut and the text after it are kept, and what lies between is the converter's output for the cut |
| DisplayUtils.ConvertIdnAsWritten | owncloudApp/src/main/java/com/owncloud/android/utils/DisplayUtils.java:161-186 | never returns for two leading dots; strips one leading dot; otherwise converts the host as computed |
| DisplayUtils.AsWrittenAgreesWithoutDots | owncloudApp/src/main/java/com/owncloud/android/utils/DisplayUtils.java:161-186 | without a leading dot, the code as written gives the corrected result |
| DisplayUtils.AsWrittenDotShiftsHost | owncloudApp/src/main/java/com/owncloud/android/utils/DisplayUtils.java:170-185 | with one leading dot before `user@host`, the as-written result is `.user@` + the host's first letter + the conversion of the rest, where the corrected one is `.user@` + the conversion of all of `host`; an empty host throws |

## Left out

- The user interface is not modelled: the share screen's dialogs, fragments and intents, and everything of `ShareActivity` except the two decisions above. `OnBackPressedReceiver` is not part of this model.
- The executors and threading are not modelled, and neither is LiveData coalescing. Each operation runs to its end in one call, and `posted` lists every state posted, in order.
- The live query's later re-emissions are not modelled: the database LiveData changing after the terminal state.
- The first `getShares` in `OCShareRepository.kt` (lines 137-164) is not modelled. It repeats the logic of the second copy over the undeclared names `OCShare`, `localShareDataSource` and `remoteShareDataSource`, so leaving it out loses no behaviour.
- The repository refers to its store by two names (`localShareDataSource` and `localSharesDataSource`). The model treats them as the one store passed to the constructor. Likewise `insertShare` maps the server's shares with `OCShare.fromRemoteShare` (line 198), a type the file never imports, while `updateShare` (line 233) and `getShares` use `OCShareEntity.fromRemoteShare`. The model uses the one `FromRemoteShare` for all three.
- The local store's implementation (a Room DAO) is not part of this model. `replaceShares` is modelled as replacing each incoming share's file-and-account scope. `update` is modelled as an upsert by server id.
- `OCShareEntity.fromRemoteShare` is not part of this model. It is modelled as a field copy, with the owner set by the caller.
- The permission constants are names, not their bit values. `AccountUtils.getServerVersion` is a parameter.
- `getShare(remoteId)` is not modelled. It is a plain lookup outside the refresh logic.
- The capability and sharee repositories, the view models and the test files are not modelled. Two capability-repository tests are cited only for the engine contract they pin down.
- NetworkBoundResource's own source is not part of this model. `Emissions` states the contract that `getShares` and the tests rely on.
- `NetworkBoundResource.Emissions`: the Error's message is taken to be the remote result's HTTP phrase, as in `notifyError`. This is the only message the repository ever reports.
- `ShareRepository.OCShareRepository.UpdateShare`: a successful answer with no shares makes `first()` throw on the worker. No terminal state follows Loading then, so the engine's "exactly one terminal" does not apply.
- `GetPublicSharesUsecase.Run` takes the repository's `Resource` directly, not the LiveData that holds it. Reading the LiveData's current value is not modelled.
- `ShareActivity.ShareWith`: a null data string (the `!!`) throws before the extraction. That case is not modelled.
- `DisplayUtils.ToUpperCase`: locale-dependent upper-casing is modelled as ASCII upper-casing.
- `DisplayUtils.BytesToHumanReadable`: the size is divided as an integer. The real method converts the `long` to a `double`, and above 2^53 rounding can move a size just below a power of 1024 onto the next suffix. Rounding to the scale with `BigDecimal` and the text formatting are not modelled, and neither is the localized "pending" string.
- `DisplayUtils.ConvertIdn`: `java.net.IDN` is not modelled. Its two conversions are parameters (`IdnConverter`), and the `toASCII` flag chooses between them. They are taken to be total, so the IllegalArgumentException `IDN.toASCII` throws for a host that fails ToASCII (section 4.1 of RFC 3490, for example a label over 63 characters) is not modelled, in `ConvertIdn` or in `ConvertIdnAsWritten`.
- `DisplayUtils.ConvertIdnAsWritten`: a loop that never ends is reported as `NeverReturns`, and a `StringIndexOutOfBoundsException` as `Threw`.
- The other `DisplayUtils` helpers (dates, seasonal icon, colours, avatars) are not modelled. They depend on the clock, the locale or Android.

## Findings

| source | as written | input that shows it | evidently intended | confidence | as-written member | corrected member |
|---|---|---|---|---|---|---|
| owncloudApp/src/main/java/com/owncloud/android/utils/DisplayUtils.java:165-168 | each turn of the dot loop sets `urlNoDots = url.substring(1)`, so the loop strips at most one dot | "..example.com": after one turn `urlNoDots` still starts with '.' and every further turn leaves it unchanged, so the call never returns | strip every leading dot from `urlNoDots` | not executed; the loop body is read directly | DisplayUtils.ConvertIdnAsWritten | DisplayUtils.ConvertIdn |
| owncloudApp/src/main/java/com/owncloud/android/utils/DisplayUtils.java:171-182 | after one leading dot is stripped, the host bounds are found in `url` but cut from `urlNoDots`, one character shorter | ".user@host" hands the converter "ost" instead of "host"; ".a@" starts the cut past its end and throws StringIndexOutOfBoundsException | find the host in `urlNoDots` | not executed; follows from the index arithmetic | DisplayUtils.AsWrittenDotShiftsHost | DisplayUtils.ConvertIdn |
