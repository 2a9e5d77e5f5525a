# Umewarden: what its state machines and codecs keep

Umewarden is a self-hosted password vault (`server/`) with a desktop client
(`client/`). This project models the parts of both whose correctness rests on
state, interleaving or arithmetic, and proves what they promise. Each part is
one or a few modules:

| part | modules |
|---|---|
| anonymous WebSocket subscriptions: two shared maps, separately locked steps, any number of connections | `AnonymousHub` |
| notification frames: length prefix and packed timestamp | `Framing` |
| vault tables, the handlers that change them, their runs, the class with the same operations on mutable tables | `VaultTables`, `VaultHandlers`, `VaultLaws`, `VaultStore` |
| what each request does to the rows, and that it does nothing to anybody else's | `VaultRequests`, `VaultIsolation` |
| what a sync shows, what deletions leave, what bulk requests do, the attachment quota | `VaultSync`, `VaultDeletion`, `VaultBulk`, `VaultQuota` |
| security stamps, refresh tokens, the enabled flag, login through an approved request | `Session`, `SessionLaws`, `SessionTheorems`, `SessionEffects` |
| layered configuration, the value in force, its saved file, restart | `ConfigStore`, `ConfigValues` |
| rewriting JSON keys | `JsonKeys` |
| calendar, timestamps | `Calendar`, `Timestamps` |
| Base32 secrets | `Base32` |
| Base64, encrypted strings, encryption, items | `Base64`, `EncStrings`, `Encryption`, `ItemCodec` |
| string pieces, sequences, bytes, options and results | `Text`, `Sequences`, `Octets`, `Wrappers` |

Conventions. Where the source updates fields, tables or buffers step by step
there is a method (in a class where there is an object) proved equal to a
function on values, and the theorems are about those functions and about whole
runs of them. Identifiers, stamps and tokens are drawn fresh from a counter.
Cryptographic primitives, UTF-8 and Unicode case mappings are parameters of
which only laws are known. Handlers are atomic; in the WebSocket table every
separately locked step is a step of its own.

What came out different from what one may expect, each stated exactly:

- A bulk move that names no cipher moves the whole vault of the user, and then
  reports failure (`VaultBulk.MoveSucceeds`, `SelectionIsTheRequest`,
  `EmptySelectionMovesAll`).
- The attachment limit holds after every accepted upload because SQLite, the only
  database the server is built with (server/Cargo.toml:24-30), refuses an integer
  sum beyond `i64`; the request then ends. The code's own fallback, which saturates
  such a sum, would not keep the limit: over a database with unbounded sums it is
  passed exactly when `VaultQuota.QuotaBroken` says, for one by a single uploaded
  byte after large announcements (`LargestLimitBroken`).
- A creation through the sharing path cleans up after a refusal but not after a
  panic over data that is not an object: the empty row stays
  (`VaultLaws.CreateSharedExact`, `EmptyRowStays`).
- The packed timestamp garbles the nanoseconds of a leap second
  (`Framing.TimestampRoundTrip`).
- An `=` next to a vertical tab at an end of a Base32 text changes the outcome,
  because trimming and filtering disagree on what whitespace is
  (`Base32.EqualsSignIgnored`, `ShieldedTab`).
- `+2.…` parses as an encrypted string and prints as `2.…`
  (`EncStrings.DisplayParse`, `OtherSpellings`).
- A comment in server/src/config.rs (line 118) says that of duplicate keys in the
  saved file the last counts; the code refuses the file (line 191), and start-up
  then goes on as if there were none (`ConfigStore.RefusedForRepetition`).
- Deleting the saved configuration validates nothing, so a later start can fail, and
  for no other reason (`ConfigStore.ForgetIsUnchecked`, `RefusedOnlyAfterDeletion`);
  an update from the admin page drops saved values of settings that are not editable
  (`ConfigStore.AdminUpdateForgets`).
- A login does not use an approved request up (`SessionTheorems.RequestsAreReusable`).
- A stamp's exception is kept in whole seconds, so "two minutes" is 120 on the
  clock's second counter (`SessionTheorems.ReplacedStampDies`).
- A JSON object is read differently from its parsed and rewritten value exactly when,
  for some key, the spelling used last is not the one that came up latest and the two
  values they end with convert differently (`JsonKeys.ReadingAgrees`, `KeysDecide`).

## Model

| member | source | states |
|---|---|---|
| AnonymousHub.Subscriptions.DropGuard | server/src/api/notifications.rs:110-119 | closing runs retain, remove-if-empty and release, and does to the two maps what their composition says |
| AnonymousHub.Subscriptions.TryReserve | server/src/api/notifications.rs:499-507 | a slot is taken, or refused at the limit with the counters as they were |
| AnonymousHub.Subscriptions.Open | server/src/api/notifications.rs:204-218 | registration takes a slot and then subscribes; a refusal subscribes nobody |
| AnonymousHub.OpenThenDropRestores | server/src/api/notifications.rs:204-218 | a connection that opens and closes undisturbed leaves both maps as they were |
| AnonymousHub.OpenExact | server/src/api/notifications.rs:204-218 | opening is refused exactly at 25 connections of the address; a refusal subscribes nobody and counts nothing |
| AnonymousHub.StepKeepsInvariant | server/src/api/notifications.rs:499-520 | every separately locked step of any connection keeps counters, lists and leftovers accounted for |
| AnonymousHub.CountersAreLiveReservations | server/src/api/notifications.rs:499-507 | in every interleaving an address's counter is its number of live reservations, at most 25, and a refusal means exactly that the limit is reached |
| AnonymousHub.SubscribersAreTheOpenConnections | server/src/api/notifications.rs:110-116 | in every interleaving the listed subscribers of a token are exactly its open connections, once each |
| AnonymousHub.OnlyOwnSubscriberRemoved | server/src/api/notifications.rs:110-116 | a subscriber leaves a list only in the retain step of its own connection |
| AnonymousHub.LeftoversHaveAnOwner | server/src/api/notifications.rs:509-520 | a zero counter or an empty list exists only while some closing connection has its remove step still to run |
| AnonymousHub.QuiescentTablesEmpty | server/src/api/notifications.rs:110-119 | when no connection is left, whatever the interleaving was, both maps are empty |
| AnonymousHub.CanAlwaysClose | server/src/api/notifications.rs:110-119 | from every state of every run all connections can close, each on its own in at most five steps, and then both maps are empty |
| Framing.LengthPrefix | server/src/api/notifications.rs:267-295 | the loop that writes seven bits a byte produces the prefix and then the payload |
| Framing.LengthRoundTrip | server/src/api/notifications.rs:267-295 | the prefix of any size reads back as that size, leaving what follows |
| Framing.PrefixFree | server/src/api/notifications.rs:267-295 | no prefix of one size begins the prefix of another |
| Framing.StreamRoundTrip | server/src/api/notifications.rs:267-295 | any concatenation of frames splits back into its payloads |
| Framing.StreamInjective | server/src/api/notifications.rs:267-295 | two different lists of payloads never give the same stream |
| Framing.TimestampRoundTrip | server/src/api/notifications.rs:297-306 | the packed timestamp reads back exactly when seconds fit 34 bits and nanoseconds 30 |
| VaultTables.MoveKeeps | server/src/db/models/cipher.rs:422-451 | moving a cipher among its owner's folders succeeds, is what the folder query then answers, and touches no other cipher's rows |
| VaultTables.OnlyFolder | server/src/db/models/cipher.rs:509-520 | under the invariant the first folder row found is the only one |
| VaultTables.DeleteCiphersStep | server/src/db/models/cipher.rs:389-409 | deleting ciphers one after the other is deleting them at once |
| VaultTables.DeleteFoldersStep | server/src/db/models/folder.rs:100-117 | the same for folders |
| VaultLaws.UpdateKeeps | server/src/api/core/ciphers.rs:348-480 | an update either changes nothing and names its error, or stores every column of the row as the request gives it, the folder and the favorite, keeps type and deletion date, and changes nothing else |
| VaultLaws.EditExact | server/src/api/core/ciphers.rs:585-611 | an edit succeeds exactly on an own, current copy with acceptable data, then stores all of it, column by column, and otherwise does nothing |
| VaultLaws.CreateExact | server/src/api/core/ciphers.rs:328-339 | a creation succeeds exactly with acceptable data and stores it, column by column, under a fresh identifier |
| VaultLaws.CreateSharedExact | server/src/api/core/ciphers.rs:298-323 | the create path that saves an empty row first succeeds exactly with acceptable data and then leaves what a creation without that row leaves; a refusal leaves no trace of the row, and it stays exactly when filling it panics |
| VaultLaws.EmptyRowStays | server/src/api/core/ciphers.rs:298-323 | (example) a login whose data is not an object fails and leaves its bare name and type in an empty vault |
| VaultLaws.PartialKeeps | server/src/api/core/ciphers.rs:624-652 | a partial update succeeds exactly for an own cipher and an own folder or none, then sets folder and favorite and nothing else, and otherwise changes nothing |
| VaultRequests.OwnersOnly | server/src/api/core/ciphers.rs:1382-1475 | deleting, soft-deleting, restoring, archiving and unarchiving succeed exactly for the owner of the cipher; a refusal does nothing |
| VaultRequests.OwnersActionsExact | server/src/api/core/ciphers.rs:1382-1475 | (helper) what each of them changes: one row or one archive date |
| VaultRequests.UnarchiveUndoesArchive | server/src/api/core/ciphers.rs:1554-1616 | taking a cipher out of the archive restores the tables |
| VaultRequests.ShareExact | server/src/api/core/ciphers.rs:738-780 | sharing without a collection is an edit, for a bulk request without the check on staleness |
| VaultRequests.FirstFailureNamed | server/src/api/core/ciphers.rs:348-440 | a refused edit answers for the first of nine checks that fails |
| VaultRequests.PartialRefusalNamed | server/src/api/core/ciphers.rs:624-640 | (helper) so does a refused partial update |
| VaultRequests.RotationRefusalNamed | server/src/api/core/accounts.rs:683-727 | a rotation refused before it begins answers for the first of seven checks that fails, and does nothing |
| VaultRequests.NothingToActOn | server/src/api/core/ciphers.rs:1255-1269 | (helper) a bulk move to a folder that is not the user's and the deletion of nobody do nothing |
| VaultRequests.FolderActionsExact | server/src/api/core/folders.rs:48-108 | a folder is made for the user under an unused identifier, and renamed or dropped by its owner only |
| VaultRequests.EachExact | server/src/api/core/ciphers.rs:1435-1454 | a list of actions is done one on top of the other up to the first that fails, whose outcome is the answer |
| VaultIsolation.OthersUntouched | server/src/db/models/cipher.rs:475-489 | whatever a user asks about his own vault, granted or refused, every other user's folders and ciphers, with all that is rendered of them, stay as they are |
| VaultIsolation.QuietVault | server/src/db/models/cipher.rs:475-489 | over any stretch of any run in which only others ask about their own vaults, a user's vault stays as it is |
| VaultLaws.MoveEachKeeps | server/src/api/core/ciphers.rs:1270-1282 | a bulk move never stops half-way and puts exactly the listed ciphers into the target |
| VaultLaws.HandleKeeps | server/src/api/core/ciphers.rs:500-541 | every request, successful or not, keeps the invariant, reuses no identifier and changes no owner |
| VaultLaws.ReachableInvariant | server/src/api/core/ciphers.rs:348-480 | the invariant holds in every state of every run from an empty vault |
| VaultLaws.OneFolderOfTheOwner | server/src/db/models/cipher.rs:422-451 | in every reachable state a cipher is in at most one folder, of the cipher's owner |
| VaultLaws.OwnersNeverChange | server/src/api/core/ciphers.rs:394-400 | over any stretch of a run ciphers and folders keep their owners, and a cipher that is new has an identifier never used before |
| VaultSync.BuildSyncData | server/src/api/core/ciphers.rs:1682-1708 | the index built by the loops: last folder per cipher, favorites, archive dates, attachments grouped in order |
| VaultSync.FoldersAgree | server/src/db/models/cipher.rs:316-320 | for any placement rows the index and the query give the same folder exactly when the user's folders hold the cipher at most once |
| VaultSync.ViewsAgree | server/src/db/models/cipher.rs:142-162 | for any tables the two renderings are equal exactly when there is at most one folder and the cipher is the user's own or has no attachment |
| VaultSync.DirectViewExact | server/src/db/models/cipher.rs:142-162 | a direct rendering shows every attachment on the cipher, a folder of the user's that holds it if there is one, the user's own marks, and editability exactly for the owner |
| VaultSync.OnInOrder | server/src/db/models/attachment.rs:142-150 | (helper) attachments come in table order |
| VaultSync.SyncShowsTheTables | server/src/api/core/ciphers.rs:124-133 | in every reachable state a sync shows each of the user's ciphers as a direct request would |
| VaultSync.TwoFoldersDisagree | server/src/db/models/folder.rs:211-221 | without the invariant the index and the query disagree: a concrete case |
| VaultDeletion.DeletedCipherIsGone | server/src/db/models/cipher.rs:389-402 | after a permanent delete by the owner no row names the cipher and every other cipher is rendered as before |
| VaultDeletion.DeletedFolderIsGone | server/src/db/models/folder.rs:100-110 | after a folder delete by its owner no row names it, and its ciphers differ only in having no folder |
| VaultDeletion.PurgeEmptiesOneVault | server/src/api/core/ciphers.rs:1319-1341 | a purge with the right password leaves the user nothing, no dangling row, and every other vault as it was; with a wrong one nothing happens |
| VaultDeletion.RemovedUserIsGone | server/src/db/models/user.rs:321-334 | after an account is deleted no cipher, folder, favorite, device or two-factor row names the user, his invitation is taken back, and others' rows are there unchanged |
| VaultDeletion.RemovedUserIsNotMissed | server/src/db/models/user.rs:321-334 | other users' ciphers are rendered as before |
| VaultDeletion.RestoreUndoesSoftDelete | server/src/api/core/ciphers.rs:1382-1475 | restoring undoes a soft delete but for the revision date and takes the cipher out of the trash purge's reach |
| VaultDeletion.TrashPurgeExact | server/src/db/models/cipher.rs:412-420 | the trash purge takes exactly the ciphers whose deletion date is before its date and shows in no other |
| VaultDeletion.NeverDangling | server/src/db/models/cipher.rs:389-409 | in no state of any run does a placement, favorite or attachment name a missing cipher or folder |
| VaultBulk.MoveSucceeds | server/src/api/core/ciphers.rs:1255-1306 | a bulk move reports success exactly when the target is valid and each of the user's ciphers named was named once and no other was; naming none succeeds only for an empty vault |
| VaultBulk.MoveReaches | server/src/api/core/ciphers.rs:1270-1282 | whatever it reports, a bulk move to a valid target puts exactly the ciphers named there, all of them if none is named, and changes nothing else |
| VaultBulk.SelectionIsTheRequest | server/src/db/models/cipher.rs:529-538 | (helper) the selection is what was named exactly when something was named or there is nothing to name |
| VaultBulk.EmptySelectionMovesAll | server/src/db/models/cipher.rs:529-538 | naming nothing moves every cipher of a non-empty vault and then fails |
| VaultBulk.ImportFoldersExact | server/src/api/core/ciphers.rs:512-527 | each folder entry becomes the user's own folder of that id or a fresh folder of that name; existing folders stay |
| VaultBulk.LastRelation | server/src/api/core/ciphers.rs:529-534 | the relation map answers with the last relation of each key, and with nothing exactly when there is none |
| VaultBulk.ImportSucceeds | server/src/api/core/ciphers.rs:500-548 | an import succeeds exactly when every item passes on its own; relations and folders cannot make it fail, and an item unreadable beforehand makes it do nothing |
| VaultBulk.ImportExact | server/src/api/core/ciphers.rs:512-541 | a successful import adds exactly one cipher per item, every column as the item gives it, in the folder of the last relation for it or in none, and changes nothing older |
| VaultBulk.ImportStops | server/src/api/core/ciphers.rs:536-541 | an import stops at the first item not accepted, with the folders and the items before it stored |
| VaultBulk.RotationSucceeds | server/src/api/core/accounts.rs:683-727 | rotation succeeds exactly when the account checks pass, the supplied cipher and folder ids are the user's as sets, and every entry is acceptable on its own |
| VaultBulk.RotationExact | server/src/api/core/accounts.rs:752-773 | after a rotation the same rows exist, each of the user's has every column as the last entry for it gives it and keeps type and deletion date, his favorites and archive dates are those of the last entries that give one, and nobody else's row changed |
| VaultBulk.RotationStops | server/src/api/core/accounts.rs:764-773 | the rotation of ciphers stops at the first entry not accepted, with those before it rotated |
| VaultBulk.FoldersStop | server/src/api/core/accounts.rs:752-763 | so does the renaming of folders |
| VaultBulk.RotationMissesNothing | server/src/api/core/accounts.rs:701-718 | every cipher and folder of the user has a last entry, so none is left with old data |
| VaultQuota.StoredAfter | server/src/api/core/ciphers.rs:952-987 | an accepted upload changes the stored sum by the actual size less the announced one |
| VaultQuota.AnnouncementCounts | server/src/api/core/ciphers.rs:822-848 | an announcement counts in full before anything is stored |
| VaultQuota.TwoStepsAreOne | server/src/api/core/ciphers.rs:952-973 | announcing and uploading leaves the row and the sum of a one-step upload of the actual size, whatever was announced |
| VaultQuota.RemovalUndoesUpload | server/src/api/core/ciphers.rs:1515-1551 | removing a freshly stored attachment leaves the tables as before the upload |
| VaultQuota.AnnounceExact | server/src/api/core/ciphers.rs:822-848 | an announcement succeeds exactly for an own cipher and a size that fits, and adds the one row |
| VaultQuota.UploadExact | server/src/api/core/ciphers.rs:876-973 | an announced upload succeeds exactly on the user's own cipher, with room and within a mebibyte of the announced size; then the row has the actual size; a size farther off takes the row away, any other refusal does nothing |
| VaultQuota.LegacyExact | server/src/api/core/ciphers.rs:895-987 | a one-step upload succeeds exactly on the user's own cipher with a name, a key and room, and adds the one row |
| VaultQuota.RemoveExact | server/src/api/core/ciphers.rs:1515-1551 | a removal succeeds exactly for an attachment on the user's own cipher named, and takes that row |
| VaultQuota.UploadRefusalNamed | server/src/api/core/ciphers.rs:876-973 | a refused upload answers for the first check that fails, of cipher, size, owner, limit and announced size |
| VaultQuota.NothingAnnounced | server/src/api/core/ciphers.rs:876-973 | (helper) an upload to an attachment nobody announced finds nothing and does nothing |
| VaultQuota.AnnounceRefusalNamed | server/src/api/core/ciphers.rs:822-848 | (helper) so does a refused announcement |
| VaultQuota.RemovalRefusalNamed | server/src/api/core/ciphers.rs:1515-1551 | (helper) so does a refused removal |
| VaultQuota.RoomIsTheLimit | server/src/api/core/ciphers.rs:903-939 | where nothing overflows there is room exactly when something is left of the limit and the sum after the upload is within it |
| VaultQuota.QuotaHolds | server/src/api/core/ciphers.rs:903-939 | after every accepted upload the stored sizes are within the limit, whatever was announced before: always over a database that refuses sums beyond i64, as SQLite does, and otherwise when the prior sum fits |
| VaultQuota.LegacyQuotaHolds | server/src/api/core/ciphers.rs:895-939 | a one-step upload is within the limit for any prior sum |
| VaultQuota.SumRefusedExactly | server/src/db/models/attachment.rs:152-168 | an upload fails over the sum itself exactly when the database refuses sums beyond i64, the announced and stored sizes exceed it and a limit is set |
| VaultQuota.QuotaBroken | server/src/db/models/attachment.rs:152-168 | exactly when an announced upload can pass the limit, over all sizes: only over a database with unbounded sums, through the saturating fallback, under a condition on prior sum, limit and announced size |
| VaultQuota.LargestLimitBroken | server/src/config.rs:986-992 | over such a database and under the largest limit the configuration accepts, an upload of one byte is accepted beyond the limit: a concrete case |
| VaultStore.Store.MoveToFolder | server/src/db/models/cipher.rs:422-451 | the statements on the placement table do what the function on tables says |
| VaultStore.Store.SetFavorite | server/src/db/models/favorite.rs:34-68 | inserting or deleting after reading the old status sets the status |
| VaultStore.Store.UpdateFromData | server/src/api/core/ciphers.rs:348-480 | check by check and field by field, the update of the row and the tables |
| VaultStore.Store.StoreUpload | server/src/api/core/ciphers.rs:876-1003 | the upload path statement by statement, with its partial effects |
| VaultStore.Store.DeleteCipher | server/src/db/models/cipher.rs:389-402 | placements, each attachment, favorites, then the row: the same as deleting all at once |
| VaultStore.Store.DeleteFolder | server/src/db/models/folder.rs:100-110 | (helper of Serve) placements in the folder, then the folder |
| VaultStore.Store.SaveAttachment | server/src/db/models/attachment.rs:83-103 | (helper of Serve) replacing by primary key |
| VaultStore.Store.Archive | server/src/db/models/archive.rs:36-55 | (helper of Serve) replacing the user's archive date of a cipher of his |
| VaultStore.Store.PurgeVault | server/src/api/core/ciphers.rs:1319-1341 | the two loops delete exactly the user's ciphers and folders |
| VaultStore.Store.RemoveUser | server/src/db/models/user.rs:321-334 | the deletion sequence of an account |
| VaultStore.Store.MoveSelected | server/src/api/core/ciphers.rs:1255-1306 | the loop of a bulk move, stopping at a failure |
| VaultStore.Store.Import | server/src/api/core/ciphers.rs:500-541 | folder loop, relation map and cipher loop of an import |
| VaultStore.Store.RotateCiphers | server/src/api/core/accounts.rs:764-773 | the rotation loop over a copy of the rows, which stays in step with the table |
| VaultStore.Store.Serve | server/src/api/core/ciphers.rs:500-541 | any request on the mutable tables does what the function on values does, so the laws about runs apply; the invariant is kept |
| Session.Sessions.RotateTokens | server/src/db/models/device.rs:252-261 | the loop gives each of the user's devices a token of its own and changes nothing else |
| Session.Sessions.SetPassword | server/src/db/models/user.rs:183-206 | the exception is made for the stamp that was current, before the stamp is replaced |
| Session.Sessions.CheckStamp | server/src/auth.rs:502-541 | the stamp check with its order and its one side effect |
| Session.Sessions.PasswordLogin | server/src/api/identity.rs:119-247 | a login is one step of the session machine |
| Session.Sessions.GetDevice | server/src/api/identity.rs:464-477 | an existing device is returned as it is, a new one gets a fresh token |
| Session.Sessions.DisableUser | server/src/api/admin.rs:425-437 | disabling replaces the stamp, clears the flag and deletes the devices |
| Session.Sessions.Operate | server/src/api/core/accounts.rs:493-525 | an operation of an authenticated user is one step of the session machine |
| Session.Sessions.PurgeOldRequests | server/src/db/models/auth_request.rs:170-177 | the loop removes exactly the requests older than fifteen minutes |
| Session.Sessions.Handle | server/src/auth.rs:791-821 | every event on the mutable tables is one step of the session machine |
| SessionLaws.StepEvolves | server/src/db/models/user.rs:208-228 | what any step can do to stamps, exceptions, tokens and devices; a new stamp comes with new tokens |
| SessionLaws.StepRequests | server/src/api/core/accounts.rs:1439-1478 | what any step can do to a request: nothing, ask it anew, approve a pending one, delete it |
| SessionLaws.ReachableInvariant | server/src/api/identity.rs:464-477 | in every state of every run tokens are distinct, devices belong to enabled users, exceptions end within two minutes, requests are pending or approved |
| SessionTheorems.StampRule | server/src/auth.rs:516-541 | (helper) exactly which requests pass the stamp check, and exactly when it forgets an exception |
| SessionEffects.PasswordLoginExact | server/src/api/identity.rs:119-184 | a login without a request gets tokens exactly for an enabled, verified user with his password and second factor |
| SessionEffects.RequestLoginExact | server/src/api/identity.rs:149-176 | a login with a request gets them exactly with an approved request of the user, asked less than five minutes ago, from its address with its code |
| SessionEffects.ApiKeyLoginExact | server/src/api/identity.rs:340-400 | a login by API key succeeds exactly for an enabled user with that key, and yields no refresh token |
| SessionEffects.RefreshExact | server/src/auth.rs:791-821 | a refresh succeeds exactly with a token some device holds, in a password session, for that device |
| SessionEffects.LoginOpensOwnSession | server/src/api/identity.rs:232-247 | a login opens the session of the user and device it names, adding the device if it was not there, and changes nothing else |
| SessionEffects.TokensWork | server/src/auth.rs:502-541 | tokens handed out pass the stamp check on every route, and the refresh token is the device's |
| SessionEffects.OperationsExact | server/src/api/core/accounts.rs:493-525 | an operation is granted exactly when its claims pass and what it demands is shown: the password, a proof, a pending request of the user |
| SessionEffects.RegisterExact | server/src/api/core/accounts.rs:243-340 | registration succeeds exactly where it is allowed, for a new user or an invited one without a password |
| SessionEffects.AdministrationExact | server/src/api/admin.rs:398-450 | disabling, enabling, deauthorizing and deleting succeed exactly for an existing user |
| SessionEffects.RowsExact | server/src/db/models/user.rs:183-228 | every column of every user's row after every step: which steps set the password, the flag, the API key, the exception, and exactly which replace the stamp |
| SessionEffects.PasswordInForce | server/src/api/identity.rs:177-185 | over every run, after a password was set and until another is, a login without a request succeeds with that password and no other |
| SessionEffects.OldStampAfterPassword | server/src/api/core/accounts.rs:493-525 | claims from before a password change pass exactly on four routes and for 120 seconds, while the user's row stays as it left it |
| SessionEffects.RoutesAfterPassword | server/src/api/core/accounts.rs:493-525 | (helper) of the operations these routes allow the key rotation and reads |
| SessionEffects.RouteNames | server/src/auth.rs:516-541 | (helper) the handler names by which an exception lists operations |
| SessionEffects.AskExact | server/src/api/core/accounts.rs:1359-1395 | a request is asked exactly from a device of the user of the kind named, and is blank |
| SessionEffects.AnswerExact | server/src/api/core/accounts.rs:1439-1478 | an approval writes the key, the hash, the device and the moment into the request, a refusal deletes it, and neither touches anything else |
| SessionEffects.PurgeExact | server/src/db/models/auth_request.rs:170-177 | (helper) exactly the requests older than fifteen minutes go |
| SessionEffects.OtherRequests | server/src/api/core/accounts.rs:1439-1478 | no other step touches a request |
| SessionEffects.DevicesExact | server/src/db/models/device.rs:252-261 | every device after every step: one may be added by a login, all of a user's go in four kinds of step, tokens change exactly with the stamp, kinds never |
| SessionTheorems.ReplacedStampDies | server/src/auth.rs:516-541 | over every run, a stamp replaced at t is accepted later only on a listed route and at most 120 seconds of the clock's second counter after t |
| SessionTheorems.LostTokenIsDead | server/src/auth.rs:791-813 | a refresh token its device lost is never exchanged again |
| SessionTheorems.ResetKillsTokens | server/src/db/models/device.rs:252-261 | after any step that changed a user's stamp none of the tokens his devices held is exchanged; users who kept their stamp keep their devices' rows |
| SessionTheorems.StampChangeOnDevices | server/src/db/models/device.rs:252-261 | over every run, a step that replaces a user's stamp or removes him leaves all devices of all others as they are and adds none; his own are all gone after a disabling, deauthorization, deletion or new stamp, and otherwise all there with the same kinds and fresh tokens |
| SessionTheorems.DisabledUserHasNoSession | server/src/api/admin.rs:425-437 | at every moment of every run a disabled user has no device, passes no request, refreshes nothing and gets no tokens |
| SessionTheorems.RequestsAreFrozen | server/src/api/core/accounts.rs:1448-1478 | a request keeps its question, once approved keeps everything, once deleted does not come back |
| SessionTheorems.ApprovedOnce | server/src/api/core/accounts.rs:1448-1468 | a request found approved was approved in exactly one step, by an authenticated device of its user |
| SessionTheorems.LoginWasApproved | server/src/api/identity.rs:149-176 | a session opened through a request was asked for from the same address with the same code less than five minutes before and approved in between by a device of the same user |
| SessionTheorems.PurgeIsSafe | server/src/db/models/auth_request.rs:170-177 | (helper) no purge removes a request that a login, then or later, would accept |
| SessionTheorems.RequestsAreReusable | server/src/api/identity.rs:149-176 | (helper) after a login the same request is accepted again until its five minutes are over, and not after |
| ConfigStore.Config.MergeLayers | server/src/config.rs:279-299 | the field-by-field merge is the override of one layer by the other, with the overridden names in table order |
| ConfigStore.Config.BuildItems | server/src/config.rs:301-320 | the build loop with automatic and generated values, and the last touches |
| ConfigStore.Config.UpdateConfig | server/src/config.rs:1294-1327 | an update on the object does what the function on states does, with its three ways to fail |
| ConfigStore.Config.UpdateConfigPartial | server/src/config.rs:1329-1336 | a partial update on the object merges onto the saved layer and updates |
| ConfigStore.Config.DeleteUser | server/src/config.rs:1372-1394 | deleting the saved configuration on the object |
| Text.TrimEndExact | server/src/config.rs:310 | trimming a character, the slash of the domain, takes it off the end, all of it and nothing else |
| ConfigStore.MergeAssociative | server/src/config.rs:279-299 | (helper) merging layers is associative |
| ConfigStore.OverridesExact | server/src/config.rs:279-299 | a name is reported exactly when both layers set it |
| ConfigStore.OverridesInOrder | server/src/config.rs:279-299 | (helper) the report is in table order |
| ConfigStore.FileRoundTrip | server/src/config.rs:180-201 | the saved file reads back as the layer that was saved |
| ConfigValues.BuildIsRight | server/src/config.rs:301-306 | the build loop finds values of which each is right: the value given, else the default, else what is computed from those before it and the zero values of the others |
| ConfigValues.OnlyOneRight | server/src/config.rs:301-306 | there is only one such assignment |
| ConfigValues.BuildExact | server/src/config.rs:301-320 | the configuration is that assignment but for four settings: the flag says whether the domain was set, the domain loses the slashes at its end, the whitelist is tidied, the request filter falls back |
| ConfigValues.SettingExact | server/src/config.rs:75-90 | a setting that is not generated and none of the four has the value somebody set, else its default or nothing |
| ConfigValues.ValueInForce | server/src/config.rs:1270-1292 | in every state of every run such a setting has the saved value, else the environment's, else its default or nothing |
| ConfigValues.UpdateExact | server/src/config.rs:1294-1327 | an update is refused exactly by validation and then changes nothing; otherwise what was sent, or its editable part, is saved and in force, and in the file if the write succeeds |
| ConfigValues.PartialExact | server/src/config.rs:1329-1336 | (helper) a partial update is an update with the saved values and the new ones over them |
| ConfigValues.ForgetExact | server/src/config.rs:1372-1394 | deleting the saved configuration leaves the environment alone in force |
| ConfigValues.LoadExact | server/src/config.rs:1270-1292 | start-up takes the environment and the file, and fails exactly if the result is invalid and validation is on |
| ConfigStore.RefusedForRepetition | server/src/config.rs:180-201 | a hand-edited file is refused exactly when it repeats a known name that has a value; otherwise it sets exactly the names it gives values, to those values |
| ConfigStore.ApplyCoherent | server/src/config.rs:1294-1336 | every operation keeps configuration and overrides those of the two layers, even if its write fails; a successful one makes the file agree |
| ConfigStore.FileLeftBehind | server/src/config.rs:1313-1327 | the file disagrees with memory exactly after an accepted change whose write failed |
| ConfigStore.RestartIsTheSame | server/src/config.rs:1270-1292 | after any run with successful writes a restart gives the same layers, configuration and overrides, or is refused exactly when start-up validation refuses them |
| ConfigStore.RefusedOnlyAfterDeletion | server/src/config.rs:1270-1394 | in any run, a configuration that start-up would refuse was left by a deletion of the saved one, over an environment invalid alone, and nothing has changed it since |
| ConfigStore.ForgetIsUnchecked | server/src/config.rs:1372-1394 | deleting the saved configuration always succeeds, and the next start does exactly when the environment alone is valid |
| ConfigStore.PartialIsOneMoreLayer | server/src/config.rs:1329-1336 | a partial update is the new layer on top of environment and saved layer |
| ConfigStore.PartialChangesOnly | server/src/config.rs:1329-1336 | a partial update changes a plain setting only by naming it, an automatic or generated one only by naming it or one before it, the request filter also through the deprecated setting it falls back to, and the domain flag only by naming the domain |
| ConfigStore.ComputedFromEarlier | server/src/config.rs:301-320 | two layers give any setting the same value if they agree on its own entry, unless it is always generated, and build the settings before it alike, unless it is plain; the request filter needs the deprecated setting to agree as well |
| ConfigStore.DomainSetExact | server/src/config.rs:301-308 | two layers give the domain flag the same value exactly when both or neither set the domain |
| ConfigStore.AdminUpdateForgets | server/src/config.rs:1299-1301 | after an update from the admin page no non-editable setting is saved, and the saved layer is what was sent exactly when it named only editable ones |
| JsonKeys.ConvertJson | server/src/util.rs:696-737 | the recursive rewrite with its loops computes the function |
| JsonKeys.VisitMap | server/src/util.rs:554-565 | the deserializer's map visitor computes the same function on the members it is given |
| JsonKeys.VisitSeq | server/src/util.rs:567-577 | and so does its sequence visitor |
| JsonKeys.ObjectExact | server/src/util.rs:696-737 | a rewritten object has one member for each processed key, with the conversion of the last source member of that key |
| JsonKeys.ReadSide | server/src/util.rs:554-565 | the members of a rewritten object come in the order in which their processed keys first came up |
| JsonKeys.ArrayExact | server/src/util.rs:696-737 | an array keeps its length and order with each element rewritten, and anything else that is no object stays |
| JsonKeys.KeyExact | server/src/util.rs:583-588 | a key that is no spelling of ssn has its first character lowered and the rest left alone |
| JsonKeys.SsnExact | server/src/util.rs:583-588 | every spelling of ssn becomes ssn |
| JsonKeys.AsciiKey | server/src/util.rs:346-352 | (helper) a leading ASCII capital becomes its small letter, a leading small letter leaves the key alone |
| JsonKeys.ProcessKeyTwice | server/src/util.rs:583-588 | processing a key twice is processing it once, the ssn case included |
| JsonKeys.NoCapitals | server/src/util.rs:696-737 | no key of a result, at any depth, starts with an ASCII capital |
| JsonKeys.Idempotent | server/src/util.rs:696-737 | rewriting twice is rewriting once |
| JsonKeys.UnchangedExactly | server/src/util.rs:696-737 | a value is left alone exactly when each of its keys, at any depth, starts with its own lower case and is no other spelling of ssn |
| JsonKeys.LeavesKept | server/src/util.rs:696-737 | every leaf of a result is an unchanged leaf of the source |
| JsonKeys.LeavesAllKept | server/src/util.rs:696-737 | no leaf is lost when no two keys of an object fall together |
| JsonKeys.ReadingAgrees | server/src/util.rs:554-565 | for every text, reading an object equals rewriting the parsed object, members and order, exactly when for each processed key the two members they take its value from convert alike: the last one, and the last one in the spelling that came up latest |
| JsonKeys.KeysDecide | server/src/util.rs:554-565 | on keys alone: they agree for all values exactly when those two members are the same for each processed key |
| JsonKeys.OneSpellingAgrees | server/src/util.rs:554-565 | in particular when no key comes in two spellings, repeated or not |
| JsonKeys.RepetitionDiffers | server/src/util.rs:554-565 | (example) a text that repeats a key around another spelling reads differently |
| Calendar.CountsDays | client/src-tauri/src/bitwarden/models.rs:246-255 | the formula, with truncating division, is the step-by-step count of days from 1970-01-01 for every date, before and after |
| Calendar.StrictlyMonotone | client/src-tauri/src/bitwarden/models.rs:246-255 | a later date has a larger number |
| Calendar.Injective | client/src-tauri/src/bitwarden/models.rs:246-255 | different dates have different numbers |
| Timestamps.ParseFormat | client/src-tauri/src/bitwarden/models.rs:228-244 | every well-formed timestamp parses to its moment, whatever fraction it carries |
| Timestamps.OrderPreserved | client/src-tauri/src/bitwarden/models.rs:228-244 | parsing preserves chronological order, both ways |
| Timestamps.NumberRead | client/src-tauri/src/bitwarden/models.rs:228-244 | every 64-bit number is read back from its digits with any sign, and none beyond |
| Timestamps.OthersRefused | client/src-tauri/src/bitwarden/models.rs:228-244 | (helper) anything else is no number, and a text without a time is no timestamp |
| Base32.DecodeText | client/src-tauri/src/crypto/totp.rs:100-135 | the loop over a 64-bit buffer decodes as the specification on bits does, errors included |
| Base32.ByteAt | client/src-tauri/src/crypto/totp.rs:117-132 | output byte k is bits 8k to 8k+7 of the concatenated five-bit groups |
| Base32.RoundTrip | client/src-tauri/src/crypto/totp.rs:100-135 | decoding inverts the encoding of section 6 of RFC 4648 on every non-empty byte string, with any amount of padding |
| Base32.WhitespaceIgnored | client/src-tauri/src/crypto/totp.rs:103-108 | an ASCII whitespace character anywhere does not change the outcome |
| Base32.CaseIgnored | client/src-tauri/src/crypto/totp.rs:103-108 | the case of ASCII letters does not change the outcome |
| Base32.DecodesExactly | client/src-tauri/src/crypto/totp.rs:100-135 | a text decodes exactly when cleaning leaves something and nothing but letters of the alphabet |
| Base32.WhiteExact | client/src-tauri/src/crypto/totp.rs:103-108 | (helper) the twenty-five characters that trimming removes |
| Base32.LeadByte | client/src-tauri/src/crypto/totp.rs:117-125 | (helper) the character an error names is the first byte of the UTF-8 form |
| Base32.EqualsSignIgnored | client/src-tauri/src/crypto/totp.rs:103-108 | exactly when an inserted '=' changes the outcome: a condition on the text alone |
| Base32.ShieldedTab | client/src-tauri/src/crypto/totp.rs:103-108 | (example) a vertical tab before two letters is trimmed away; behind an '=' it is refused |
| Base64.DecodeEncode | client/src-tauri/src/crypto/keys.rs:150-152 | strict Base64 decoding undoes encoding on every byte string |
| Base64.QuadExact | client/src-tauri/src/crypto/keys.rs:150-152 | three bytes are four digits to the base of 64, in the letters of the standard alphabet |
| Base64.GroupExact | client/src-tauri/src/crypto/keys.rs:150-152 | group i of an encoding stands for bytes 3i to 3i + 2 |
| Base64.LastExact | client/src-tauri/src/crypto/keys.rs:150-152 | (helper) one or two bytes that are left are padded |
| Base64.EncodeDecode | client/src-tauri/src/crypto/keys.rs:150-152 | only encodings decode: padding is canonical and cut-off bits are zero |
| EncStrings.ParseDisplay | client/src-tauri/src/crypto/keys.rs:140-148 | parsing undoes printing for type 2 with a MAC and type 0 without one, and rejects every other printed value |
| EncStrings.DisplayParse | client/src-tauri/src/crypto/keys.rs:30-72 | whatever parses is one of these, and prints back to itself exactly when its type is spelled in the usual way |
| EncStrings.OtherSpellings | client/src-tauri/src/crypto/keys.rs:35-37 | another spelling of the type is accepted |
| Encryption.PadUnpad | client/src-tauri/src/crypto/keys.rs:88-96 | only padded texts unpad, so padding is unambiguous |
| Encryption.PadExact | client/src-tauri/src/crypto/keys.rs:88-96 | padding adds one to sixteen bytes that say how many, up to a multiple of sixteen |
| Encryption.OneBlock | client/src-tauri/src/crypto/keys.rs:111-125 | (helper) a single block is mixed with the IV and encrypted |
| Encryption.ChainExact | client/src-tauri/src/crypto/keys.rs:111-125 | a longer text continues where the shorter one ended, with its last ciphertext block in place of the IV |
| Encryption.EncryptExact | client/src-tauri/src/crypto/keys.rs:74-97 | (helper) type, IV, and a tag over IV and ciphertext under the MAC key |
| Encryption.TagIsChecked | client/src-tauri/src/crypto/keys.rs:99-138 | what carries a wrong tag does not decrypt, nor what is not whole blocks |
| Encryption.UntaggedDecrypts | client/src-tauri/src/crypto/keys.rs:99-138 | the older type without a tag decrypts to what its blocks hold |
| Encryption.CbcDecryptEncrypt | client/src-tauri/src/crypto/keys.rs:111-125 | block chaining decrypts what it encrypted, given only that the block cipher inverts |
| Encryption.DecryptEncrypt | client/src-tauri/src/crypto/keys.rs:74-138 | decryption undoes encryption under any IV |
| Encryption.EncryptDecrypt | client/src-tauri/src/crypto/keys.rs:74-97 | what decrypts under a MAC is the encryption of its plaintext under its IV |
| Encryption.DecryptStrEncryptStr | client/src-tauri/src/crypto/keys.rs:279-285 | every string survives encryption to text and back |
| Encryption.EncryptStrDecryptStr | client/src-tauri/src/crypto/keys.rs:279-285 | a text of the usual type that decrypts is the encryption of its plaintext |
| Encryption.UnwrapWrapped | client/src-tauri/src/crypto/keys.rs:258-277 | the account keys survive wrapping and unwrapping |
| Encryption.UnwrapExact | client/src-tauri/src/crypto/keys.rs:258-277 | keys are taken apart exactly from 64 bytes, the encryption key first |
| ItemCodec.ItemRoundTrip | client/src-tauri/src/bitwarden/models.rs:268-329 | the client reads back of an item name, notes, kind, login, addresses with match rules, and fields without their links |
| ItemCodec.OwnIvs | client/src-tauri/src/bitwarden/models.rs:268-329 | every string of an item goes into the field that bears its name, encrypted under an IV of its own |
| ItemCodec.CheckboxesInClear | client/src-tauri/src/bitwarden/models.rs:321-329 | (helper) the value of a checkbox is sent in clear |
| ItemCodec.ShownFieldByField | client/src-tauri/src/bitwarden/models.rs:95-138 | what is shown was decrypted from the field of its name, and its kind is that of the type number |
| ItemCodec.UrisRead | client/src-tauri/src/bitwarden/models.rs:140-185 | addresses come one by one with the rule of their number; an unknown number or none means the domain |
| ItemCodec.FieldsRead | client/src-tauri/src/bitwarden/models.rs:187-217 | custom fields come one by one with the type of their number, without links |
| ItemCodec.DatesExact | client/src-tauri/src/bitwarden/models.rs:95-138 | the dates shown are the server's in seconds; an absent or unreadable creation date is the revision's, and that, if unreadable, zero |
| ItemCodec.FieldsSurvive | client/src-tauri/src/bitwarden/models.rs:187-217 | encrypted and decrypted, the fields come back whole exactly when none was linked |
| ItemCodec.AllOrNothing | client/src-tauri/src/bitwarden/models.rs:95-138 | an item is shown exactly when its type is known and every one of its strings decrypts |

## Left out

- HTTP routing, templates, mail, push, icons, admin pages, JavaScript, rate limiting, file storage of attachments: I/O or interface code.
- Database failures, and overlapping handlers other than on the WebSocket table: a handler is one step.
- SQL foreign keys and their `ON DELETE CASCADE` (archive rows of a deleted cipher or user): tables are maps and row sequences, and no claim is made about archive rows after a delete.
- Requests of a deleted account: the code does not delete them, and no claim is made about their rows.
- VaultSync.ViewsAgree: rows and attachments are taken in one table order by both queries; the order SQL returns rows in is not modelled.
- VaultLaws.UpdateKeeps: key and name changes of attachments sent along with an update (`attachments2`) depend on hash order and are not modelled, nor is the removal of `response` keys inside stored data or the user's revision date.
- VaultLaws.EditExact: `attachments2` changes are saved before the type and data of the item are checked, so an edit that fails there does nothing only if it sends none.
- VaultStore.Store.UpdateFromData: the same parts of the update are missing.
- VaultHandlers.UpdateFromData: times are in milliseconds, and the note limit compares the model's characters where the source compares bytes.
- VaultBulk.RotationSucceeds: the checks on the account (password, key derivation settings, key pair, recovery data) enter as four flags.
- Saving a user with a malformed mail address, which the source refuses: users are taken to have well-formed addresses; lookups by mail address are lookups by user.
- SessionTheorems.ReplacedStampDies: a token's own expiry and signature are not modelled; the claims a request presents are arbitrary.
- Session.Sessions.PasswordLogin: mail verification and two-factor providers are one flag each; the renewal of the password hash at login, which touches no stamp or token, is not a step.
- Session.Sessions.Operate: a code sent by mail in place of the password is accepted or not by a flag; changes of profile, avatar, hint and mail address carry no session state and are not told apart.
- Timestamps.OrderPreserved: the parser's sums are on unbounded integers, so overflow for years beyond those of well-formed timestamps is not modelled.
- HOTP truncation and otpauth parsing around the Base32 decoder: they would only add easy members.
- Memory clearing of secrets, key derivation, the desktop daemon, autofill, the KDBX placeholder.
- ConfigStore.Build: the table of settings is a parameter; types of values in a saved file are not checked, and reading the environment is not modelled.
- ConfigStore.FileLeftBehind: a write that fails is taken to leave the old file whole, and a failed removal to leave the file.
- ConfigStore.RefusedOnlyAfterDeletion: validation is a function of the configuration alone; the source's also tries to open the log file for writing.
- JsonKeys.VisitMap: the source reads keys as borrowed text, so a key written with escapes is an error there; here every key is plain.
- JsonKeys.VisitSeq: `LowerCase<T>` flattens its content, so a sequence at the top does not reach this visitor through it.
- JsonKeys.ReadingAgrees: an object keeps insertion order, as serde_json does when built with `indexmap` (its entry in server/Cargo.lock lists it; server/Cargo.toml does not ask for it); without it a parsed object would be rewritten in the order of its keys, and the condition would be another.
