# Verification of erp-api's core algorithms

A Dafny model of six parts of the erp-api backend and the properties they are built for: the
query compiler behind every list endpoint, the authentication and session state machine, the
nested-set rebuild, the permission catalogue sync, the bulk reconcile, and the browser's
single-flight token refresh. `dafny verify dfyconfig.toml` checks the project.

| files | part |
|---|---|
| `NestedSetForest`, `NestedSet` | numbering a parent table that may be cyclic: the forest it unfolds to, and the recursive walk over node objects |
| `SessionStore`, `SessionStoreService` | the `session:<jti>` keys and the `user_sessions:<user>` index: values and their invariant, and the object that updates them |
| `Auth`, `AuthService`, `AuthGuard`, `AuthRuns`, `AuthLaws` | the tables of the auth service, each call as one step, the service object that takes those steps, the admission decision, what every run keeps, and what becomes of tokens, sessions, passwords and blocks |
| `SingleFlight` | `fetchWithAuth` calls of one page, interleaved freely, against the rotating tokens of `Auth` |
| `PermissionScan`, `UiPermissionScan`, `PermissionSync` | the balanced-text scanner and its search loop; the scan of views and manifests; the two-plane diff on the soft-deleted catalogue |
| `BulkReconcile` | create, update and soft-delete to a desired state |
| `Schema`, `FilterStrings`, `WhereTree`, `QueryCompiler`, `QueryMeaning`, `QueryStrings`, `SelectTree`, `Pagination` | the query parameters, what they compile to, and what that selects |

## Assumptions

- Each service call is one atomic step. The service reads and writes in separate round trips, so
  the run properties are for runs in which calls do not interleave; the page of `SingleFlight` and
  the concurrent sub-steps of the bulk reconcile are interleaved.
- Drawn jtis and refresh tokens never repeat; passwords and token hashes compare as their
  plain texts do; a user has one credential row (`createInitialCredential` is called for a user
  without one); time is whole seconds on one clock that never goes back.
- IAM's answer is an input of the call and is about the user that was asked for. Operators may
  also disable, soft-delete and block at any time; they do not revive a deleted credential.
- Saving a list of entities writes whole rows, in list order; `preload` merges onto the row as stored.
- An expired Redis key stays in the map and answers every read as absent.
- A condition on a relation path is read on the rows joined along that path. What a single SQL
  operator tests is left open: the where-clause theorems hold for every interpretation.
- Query: what a where tree contains is stated for schemas in which no property is both a column
  and a relation (`Separated`); the keys of `s` are distinct and come split at their dots.
- While the page of `SingleFlight` runs, nobody else redeems the refresh tokens it holds.
- Trimming knows blank, tab, newline and carriage return.

## Where the code differs from what is said about it

- `sync-permissions.script.ts:61-65` says that a plane's sync never touches the other plane's
  rows. The upsert's conflict key has no plane, so it does: an api permission whose key has a
  code-owned ui row revives that row, and the ui pass of the same run deletes it again.
  `PermissionSync.RunIsExact` gives the exact condition.
- `sync-permissions.script.ts:72-77` says that manual rows are never matched for an update. The
  upsert does match them: resource, action, an explicit name and the deletion columns are
  overwritten, and a deleted manual row comes back. `PermissionSync.ManualUntouchedIff` and
  `PermissionSync.ManualRevivedIff` say exactly when, `PermissionSync.RunKeeps` what stays.
- The lock after five failures guards logins only. `changePassword` compares a password without
  asking for blocks and without a history row, so the bound of five does not cover it:
  `AuthRuns.GuessingIsUnboundedIff` and `AuthRuns.AtMostFiveAndChanges`.
- `refresh` looks a credential up without asking whether it is deleted, which login does: a
  soft-deleted user with an unspent token still gets sessions (`AuthRuns.DeletedOnlyRefreshes`).
- The balanced-text scanner says that it respects quoted strings, but takes any quote after a
  backslash for an escaped one: a literal that ends in an escaped backslash is not seen to close
  (`PermissionScan.LiteralClosesIff`, `PermissionScan.LiteralCallIff`).
- "Rows already deleted keep their stamp" and "created rows are live" hold for items that leave the
  deletion columns alone; `preload` and `create` write whatever an item carries
  (`BulkReconcile.KeepsFirstStampIff`, `BulkReconcile.RevivedIff`, `BulkReconcile.CreatedLiveIff`).
- Two conditions on one path mean their conjunction, except where one of them is empty or reads
  "null" or "undefined": alone it asks for NULL, but merged first it is compared literally.
  `QueryMeaning.OverlapLosesAll` shows the lost rows, `QueryMeaning.AndIsFaithfulIff` the condition.
- A condition on a bare JSON column is passed over. Among `s` and filters it asks nothing; among
  alternatives it leaves a branch that matches every row (`QueryMeaning.BareIsLeftOutIff`).
- An alternative that names `is_deleted` or `deleted_at` lifts the guard for its own branch only.
- The pagination metadata reports the raw `page` parameter, not the clamped one, and a
  `QUERY_MAX_LIMIT` strictly between zero and one gives pages of size zero
  (`Pagination.ReportsServedPageIff`, `Pagination.LimitIsPositiveIff`).

## Model

| member | source | states |
|---|---|---|
| `NestedSet.RebuildNestedSet` | libs/common/src/utils/nested-set/rebuild-nested-set.util.ts:25-58 | succeeds if and only if every parent chain reaches a root; then the nodes carry the numbering of their forest; otherwise the error lists exactly the ids whose chain never reaches a root (missing parent or cycle) |
| `NestedSet.Walk.Visit` | libs/common/src/utils/nested-set/rebuild-nested-set.util.ts:36-44 | one recursive visit terminates on any parent table, cyclic ones too, and numbers exactly the forest below its parent, in input order, from the shared counter |
| `NestedSet.Walk.VisitChild` | libs/common/src/utils/nested-set/rebuild-nested-set.util.ts:38-43 | a turn of the sibling loop numbers the child around the numbering of its whole subtree |
| `NestedSet.NextChildIsNew` | libs/common/src/utils/nested-set/rebuild-nested-set.util.ts:36-44 | the next child is never visited already, which is why the recursion ends although nothing tests the visited set |
| `NestedSet.GroupByParent` | libs/common/src/utils/nested-set/rebuild-nested-set.util.ts:26-31 | under every parent the map lists its children in input order |
| `NestedSet.RebuildNestedSetFor` | libs/common/src/utils/nested-set/rebuild-nested-set.util.ts:70-92 | as the rebuild, through mirrors; when it fails no entity has changed |
| `NestedSet.WriteBack` | libs/common/src/utils/nested-set/rebuild-nested-set.util.ts:82-89 | every entity receives the numbers of the mirror with its id |
| `NestedSetForest.WalkVisitsRooted` | libs/common/src/utils/nested-set/rebuild-nested-set.util.ts:36-48 | the walk from the roots visits an id if and only if its parent chain ends in a root |
| `NestedSetForest.NumberedAncestry` | libs/common/src/utils/nested-set/rebuild-nested-set.util.ts:36-46 | interval containment is exactly strict ancestry in the parent table, and two intervals are nested or disjoint |
| `NestedSetForest.NumberedWidth` | libs/common/src/utils/nested-set/rebuild-nested-set.util.ts:36-46 | rgt = lft + 2 * (number of descendants) + 1 |
| `NestedSetForest.NumberedCovers` | libs/common/src/utils/nested-set/rebuild-nested-set.util.ts:33-46 | the values used are exactly 1..2n |
| `NestedSetForest.NumberedInjective` | libs/common/src/utils/nested-set/rebuild-nested-set.util.ts:33-46 | no value is used twice |
| `NestedSetForest.NumberedSiblings` | libs/common/src/utils/nested-set/rebuild-nested-set.util.ts:26-44 | siblings keep input order: the earlier one closes before the later one opens |
| `NestedSetForest.NumberedUnique` | libs/common/src/utils/nested-set/rebuild-nested-set.util.ts:33-46 | parents and input order determine the numbering, so a second rebuild changes nothing |
| `SessionStoreService.SessionStoreService.Create` | libs/common/src/services/session-store.service.ts:63-72 | the new key and the new index member, nothing else |
| `SessionStoreService.SessionStoreService.Get` | libs/common/src/services/session-store.service.ts:74-82 | answers the blob of a live key and nothing for a dead one |
| `SessionStoreService.SessionStoreService.Revoke` | libs/common/src/services/session-store.service.ts:89-97 | the key goes, and so does its index member if the session was live |
| `SessionStoreService.SessionStoreService.ListActiveSessions` | libs/common/src/services/session-store.service.ts:127-157 | returns each live indexed session exactly once with its blob and remaining lifetime, and prunes exactly the dead members |
| `SessionStoreService.SessionStoreService.CountActiveSessions` | libs/common/src/services/session-store.service.ts:159-161 | counts the live indexed sessions |
| `SessionStoreService.SessionStoreService.InvalidateAllForUser` | libs/common/src/services/session-store.service.ts:165-176 | removes the listed keys and the whole index entry, and returns how many |
| `SessionStoreService.SessionStoreService.RefreshPermissionsForUser` | libs/common/src/services/session-store.service.ts:183-200 | rewrites the grants of every listed session in place and keeps each expiry |
| `SessionStoreService.SessionStoreService.SetMustChangePasswordForUser` | libs/common/src/services/session-store.service.ts:206-223 | rewrites the flag of every listed session in place and keeps each expiry |
| `SessionStore.DoCoherent` | libs/common/src/services/session-store.service.ts:63-223 | every store call keeps the invariant that ties the per-user index to the keys |
| `SessionStore.ListedIsOwned` | libs/common/src/services/session-store.service.ts:127-157 | under that invariant the index lists exactly the live sessions whose blob names the user |
| `SessionStore.PruneDropsDead` | libs/common/src/services/session-store.service.ts:142-145 | pruning drops exactly the dead members of that one user and touches no key |
| `SessionStore.InvalidateEndsExactly` | libs/common/src/services/session-store.service.ts:165-176 | after invalidation a session lives if and only if it lived before and belongs to somebody else; survivors are unchanged, and exactly that user's index is emptied |
| `SessionStore.DeadStaysDead` | libs/common/src/services/session-store.service.ts:89-97 | no call revives a used jti that is dead, moves an expiry, or changes an owner |
| `SessionStore.CreateAddsExactly` | libs/common/src/services/session-store.service.ts:63-72 | creating adds exactly the key, with its lifetime, and the index member |
| `SessionStore.SurvivesIff` | libs/common/src/services/session-store.service.ts:63-223 | a live session survives a call if and only if the call does not revoke it, end its owner's sessions or let its time run out |
| `SessionStore.BlobAfter` | libs/common/src/services/session-store.service.ts:183-223 | a surviving blob changes only by a rewrite for its owner, in exactly the rewritten part |
| `SessionStore.RevokeEndsExactly` | libs/common/src/services/session-store.service.ts:89-97 | revoking ends exactly the named session, drops it from its owner's index and leaves every other key and member as it is |
| `AuthRuns.IndexAgreesWithScan` | libs/common/src/services/session-store.service.ts:63-157 | in every reachable state of the whole service the index agrees with a scan of every key |
| `AuthRuns.InvalidateAllEndsExactly` | libs/common/src/services/session-store.service.ts:165-176 | in every run, ending the sessions of a user ends all of theirs and nobody else's |
| `AuthRuns.DeadForever` | libs/common/src/services/session-store.service.ts:89-97 | over any run a jti that was drawn and is not live stays dead; while it lives, owner and expiry never change |
| `AuthService.AuthService.FindCredential` | apps/auth/src/modules/auth/services/auth.service.ts:93-95 | finds the one live credential with the username, or shows there is none |
| `AuthService.AuthService.Login` | apps/auth/src/modules/auth/services/auth.service.ts:87-205 | the whole new state and the answer of a login, on every branch |
| `AuthService.AuthService.Refresh` | apps/auth/src/modules/auth/services/auth.service.ts:207-270 | the token is spent before the later checks; whole new state and answer on every branch |
| `AuthService.AuthService.Logout` | apps/auth/src/modules/auth/services/auth.service.ts:272-287 | ends the session and revokes the token, each if given |
| `AuthService.AuthService.SetCredential` | apps/auth/src/modules/auth/services/auth.service.ts:290-321 | creates or overwrites the credential and leaves flag and sessions alone; refused if the username is taken |
| `AuthService.AuthService.CreateInitialCredential` | apps/auth/src/modules/auth/services/auth.service.ts:326-346 | a first credential, flagged for change; refused if the username is taken |
| `AuthService.AuthService.ResetPassword` | apps/auth/src/modules/auth/services/auth.service.ts:353-385 | overwrites or creates the credential, flagged, and flags every live session of the user |
| `AuthService.AuthService.ChangePassword` | apps/auth/src/modules/auth/services/auth.service.ts:389-421 | clears the flag on the credential and on every live session; refused on each failed check without a change |
| `AuthService.AuthService.IssueTokens` | apps/auth/src/modules/auth/services/auth.service.ts:423-488 | one refresh-token row and one session, with the flag it was given |
| `AuthService.AuthService.LockAfterTooManyFailures` | apps/auth/src/modules/auth/services/auth.service.ts:512-547 | blocks for thirty minutes, as the two counts decide |
| `AuthService.AuthService.RecordLoginAttempt` | apps/auth/src/modules/auth/services/auth.service.ts:549-574 | appends one history row dated now |
| `AuthService.AuthService.AdminRevoke` | apps/auth/src/modules/auth/services/sessions.service.ts:127-149 | kills a live session and revokes every unrevoked token of its owner; unknown or expired sessions are not found |
| `AuthRuns.StepInv` | apps/auth/src/modules/auth/services/auth.service.ts:87-547 | every service call keeps: index coherent, live sessions owned by a credential, flags in agreement, usernames unique among live credentials |
| `AuthRuns.RunInv` | apps/auth/src/modules/auth/services/auth.service.ts:87-547 | the same in every state of every run |
| `AuthRuns.IssuedIffEntitled` | apps/auth/src/modules/auth/services/auth.service.ts:108-167 | in every reachable state, a login or refresh issues a session for a user if and only if they are active, unblocked, unexpired, active at IAM, and bring the password or an unspent token; the session carries the lifetime and the flag |
| `AuthLaws.IssuedIsRedeemableIff` | apps/auth/src/modules/auth/services/auth.service.ts:207-287 | an issued token belongs to its user and can be redeemed if and only if it has not expired and no step since redeemed it, logged out with it or was an admin revoke of a live session of its owner |
| `AuthLaws.TokenKept` | apps/auth/src/modules/auth/services/auth.service.ts:207-287 | a token row keeps owner and expiry, and stays unrevoked exactly as long as no step ends it |
| `AuthLaws.IssuedIsLiveIff` | apps/auth/src/modules/auth/services/auth.service.ts:461-475 | an issued session is live if and only if it has not expired and no step since logged it out, revoked it or ended all sessions of its owner |
| `AuthLaws.GrantsAreLast` | libs/common/src/services/session-store.service.ts:183-200 | a live session carries exactly the grants last given to it, by its issue or by a permission refresh of its owner |
| `AuthLaws.BlobStep` | libs/common/src/services/session-store.service.ts:183-223 | no step but a permission refresh of its owner changes the grants of a session, and none its owner, profile or last day |
| `AuthLaws.LoginAnswers` | apps/auth/src/modules/auth/services/auth.service.ts:93-205 | what a login of a live credential answers, each refusal with its exact condition |
| `AuthLaws.LastPassword` | apps/auth/src/modules/auth/services/auth.service.ts:290-421 | a credential holds exactly the password last set, created, reset or changed |
| `AuthLaws.LoginComparesLast` | apps/auth/src/modules/auth/services/auth.service.ts:121-135 | a login compares with exactly that password |
| `AuthLaws.SavesIff` | apps/auth/src/modules/auth/services/auth.service.ts:290-385 | saving a credential succeeds if and only if its row is deleted or nobody else holds the username; then the row is as asked and no other changes |
| `AuthLaws.ChangesIff` | apps/auth/src/modules/auth/services/auth.service.ts:389-421 | a password change succeeds if and only if the new password is confirmed and the current one of an undeleted credential is given; then exactly password and flag of that row change |
| `AuthLaws.LogoutEndsExactly` | apps/auth/src/modules/auth/services/auth.service.ts:272-287 | a logout ends exactly the session it names |
| `AuthLaws.AdminRevokeEndsExactly` | apps/auth/src/modules/auth/services/sessions.service.ts:127-139 | an admin revoke succeeds if and only if the session is live, ends exactly that one, and otherwise changes nothing |
| `AuthLaws.HistoryIsExact` | apps/auth/src/modules/auth/services/auth.service.ts:524-529 | the windowed count is exactly the number of failed logins of the user in the window |
| `AuthLaws.BlockedIff` | apps/auth/src/modules/auth/services/auth.service.ts:497-540 | in every reachable state a user is blocked if and only if an operator's block is still on, or a wrong password less than thirty minutes ago made five failed logins in fifteen minutes |
| `AuthRuns.DeletedOnlyRefreshes` | apps/auth/src/modules/auth/services/auth.service.ts:224-229 | a soft-deleted credential gets no session by login, and by refresh gets one under the same conditions as an undeleted one |
| `AuthRuns.FlagPersists` | apps/auth/src/modules/auth/services/auth.service.ts:353-421 | once set, the flag goes away only by that user's own successful change |
| `AuthRuns.ResetShutsOut` | libs/common/src/guards/auth.guard.ts:86-110 | from a reset until the next successful change, no session of the user, old or new, is admitted to a guarded route |
| `AuthRuns.GuardFollowsCredential` | libs/common/src/guards/auth.guard.ts:86-126 | in every reachable state a live session is admitted to a guarded route if and only if its owner's credential is not flagged and the account not expired |
| `AuthGuard.AdmissionIff` | libs/common/src/guards/auth.guard.ts:55-127 | which requests are not decided here, which are admitted, and as whom with which grants |
| `AuthGuard.RefusalIs` | libs/common/src/guards/auth.guard.ts:73-110 | why a request is refused |
| `AuthRuns.LockIff` | apps/auth/src/modules/auth/services/auth.service.ts:512-540 | the cheap total count never suppresses a lock that the windowed count asks for |
| `AuthRuns.HistoryCovers` | apps/auth/src/modules/auth/services/auth.service.ts:125-133 | every wrong-password comparison by login is in the windowed count |
| `AuthRuns.LockedHalfHour` | apps/auth/src/modules/auth/services/auth.service.ts:497-547 | a failure that makes five in the window is followed by thirty minutes without a comparison by login, a session or a token issued for the user |
| `AuthRuns.AtMostFive` | apps/auth/src/modules/auth/services/auth.service.ts:108-135 | at most five wrong-password comparisons by login per user in any half-open 15-minute window of any run |
| `AuthRuns.AtMostFivePerWindow` | apps/auth/src/modules/auth/services/auth.service.ts:108-135 | hence at most 5k by login in k such windows |
| `AuthRuns.AtMostFiveAndChanges` | apps/auth/src/modules/auth/services/auth.service.ts:389-412 | all comparisons of a user in such a window, by login and by password change: at most five and the failed changes |
| `AuthRuns.ChangeComparesFreely` | apps/auth/src/modules/auth/services/auth.service.ts:399-412 | with an undeleted credential, a wrong guess in a password change is compared whatever the blocks say, and leaves the state as it was |
| `AuthRuns.GuessingIsUnboundedIff` | apps/auth/src/modules/auth/services/auth.service.ts:389-412 | after any run, any number of wrong-password comparisons can follow within the same second if and only if the user has an undeleted credential |
| `AuthRuns.RedeemedOnce` | apps/auth/src/modules/auth/services/auth.service.ts:207-222 | a refresh token is redeemed at most once, even if a later check fails |
| `AuthRuns.RevokedForever` | apps/auth/src/modules/auth/services/auth.service.ts:207-287 | a token row keeps its owner, and a revoked row never changes again |
| `AuthRuns.AdminRevokeIsFinal` | apps/auth/src/modules/auth/services/sessions.service.ts:127-139 | after an admin revoke only tokens issued later can be redeemed for that user |
| `AuthRuns.TokensConserved` | apps/auth/src/modules/auth/services/auth.service.ts:207-270 | a user's unrevoked tokens never outnumber their successful logins |
| `SingleFlight.EventKeeps` | apps/iam/public/js/auth-guard.service.js:29-55 | every event of the page or the server keeps the page invariant |
| `SingleFlight.RunKeeps` | apps/iam/public/js/auth-guard.service.js:29-55 | the invariant holds in every state of every interleaving of any number of calls |
| `SingleFlight.AtMostOneOutstanding` | apps/iam/public/js/auth-guard.service.js:38-42 | at most one refresh is outstanding, and a waiting call waits for it or for a settled one |
| `SingleFlight.SendsAtMostTwice` | apps/iam/public/js/auth-guard.service.js:29-55 | a call sends its request once or twice |
| `SingleFlight.NeverPresentsRotated` | apps/iam/public/js/auth-guard.service.js:38-42 | while refreshes succeed, a refresh that starts presents a token the server has not rotated away |
| `SingleFlight.PresentsEachOnce` | apps/iam/public/js/auth-guard.service.js:38-42 | while refreshes succeed, no token is presented twice |
| `SingleFlight.SendsTwiceIff` | apps/iam/public/js/auth-guard.service.js:29-55 | over any run a call sends twice if and only if its first answer was a 401 and the flight it then waited for settled ok |
| `SingleFlight.UnauthorizedEndsIff` | apps/iam/public/js/auth-guard.service.js:36-55 | after a 401 a call is sent again if and only if the awaited flight settled ok, and ends with an expired session if and only if it failed |
| `SingleFlight.OtherAnswerReturns` | apps/iam/public/js/auth-guard.service.js:36-36 | a call whose first answer is no 401 returns after one send |
| `SingleFlight.FirstAnswerStarts` | apps/iam/public/js/auth-guard.service.js:36-42 | a 401 starts a refresh with the cookie if and only if none is pending; any other answer starts none |
| `SingleFlight.FlightAccounted` | apps/iam/public/js/auth-guard.service.js:38-48 | a flight settles ok only if the server issued a token for it, and fails only if the server refused it or its answer was lost |
| `SingleFlight.SettlingTakesToken` | apps/iam/public/js/auth-guard.service.js:38-42 | when an answer settles the page is free again and holds the token that the server issued |
| `SingleFlight.LosingFails` | apps/iam/public/js/auth-guard.service.js:38-48 | a lost answer fails the flight, frees the page and leaves its token |
| `PermissionScan.ExtractBalancedArgs` | libs/database/src/scripts/permission-sync-scan.util.ts:143-162 | the loop computes the text up to the parenthesis that closes the call, or all the rest |
| `PermissionScan.ArgsInvertPrint` | libs/database/src/scripts/permission-sync-scan.util.ts:143-162 | for every well-formed argument text, wherever it stands in a file, the scanner returns exactly that text |
| `PermissionScan.LiteralClosesIff` | libs/database/src/scripts/permission-sync-scan.util.ts:147-153 | wherever a literal stands, the scanner is inside it through its whole body and leaves it at its closing quote if and only if the body does not end in a backslash |
| `PermissionScan.LiteralCallIff` | libs/database/src/scripts/permission-sync-scan.util.ts:143-162 | a call whose argument is one literal is read rightly if and only if the literal does not end in a backslash; otherwise the scanner runs to the end of the text |
| `PermissionScan.EscapedBackslashIsMissed` | libs/database/src/scripts/permission-sync-scan.util.ts:149-149 | the shortest such literal, one escaped backslash, is missed |
| `PermissionScan.FindCall` | libs/database/src/scripts/permission-sync-scan.util.ts:196-200 | one turn finds the next marker, the text of its call and where to go on |
| `PermissionScan.ScanCalls` | libs/database/src/scripts/permission-sync-scan.util.ts:194-200 | the search ends on every input, unterminated calls included, and returns the calls in order |
| `PermissionScan.ScanFindsAll` | libs/database/src/scripts/permission-sync-scan.util.ts:194-200 | on a file made of clean gaps and well-formed calls it finds every call, nothing else, each with exactly its text |
| `PermissionScan.FileRoundTrip` | libs/database/src/scripts/permission-sync-scan.util.ts:194-200 | the same for the decorator's own marker, on a whole printed file |
| `PermissionSync.Catalog.SyncPlane` | libs/database/src/scripts/sync-permissions.script.ts:66-149 | the row every key ends with, and exactly which keys are added, removed and unchanged |
| `PermissionSync.Catalog.UpsertAll` | libs/database/src/scripts/sync-permissions.script.ts:102-138 | every scanned key is inserted or updated in place, all others untouched |
| `PermissionSync.Catalog.DeleteAll` | libs/database/src/scripts/sync-permissions.script.ts:140-146 | exactly the removed keys are soft-deleted; no row goes away |
| `PermissionSync.Catalog.Run` | libs/database/src/scripts/sync-permissions.script.ts:167-208 | the api plane, then the ui plane |
| `PermissionSync.RunIsExact` | libs/database/src/scripts/sync-permissions.script.ts:66-181 | a run leaves the live code-owned rows equal to the scanned keys without a manual row, if and only if no api-only key has a code-owned row on the ui plane |
| `PermissionSync.RunKeeps` | libs/database/src/scripts/sync-permissions.script.ts:66-181 | on any table: no row is removed, no manual row is deleted or loses its mark, planes stay, and every scanned key outside the exception is live |
| `PermissionSync.ManualUntouchedIff` | libs/database/src/scripts/sync-permissions.script.ts:111-126 | a manual row is left exactly as it was if and only if no scan declares its key |
| `PermissionSync.ManualRevivedIff` | libs/database/src/scripts/sync-permissions.script.ts:111-126 | a deleted manual row comes back if and only if a scan declares its key, and stays manual |
| `PermissionSync.RunRecords` | libs/database/src/scripts/sync-permissions.script.ts:102-137 | every scanned key ends with the scanned resource and action, with its old name unless a scan gives one; new rows are code-owned, on the plane that declared them first |
| `PermissionSync.UndeclaredRow` | libs/database/src/scripts/sync-permissions.script.ts:140-146 | a live code-owned row no scan declares is stamped with the date and the reason of its plane and keeps the rest; any other undeclared row stays |
| `PermissionSync.NewRowIs` | libs/database/src/scripts/sync-permissions.script.ts:102-137 | a new row is live, dated now, and named by a scan or else by the placeholder |
| `PermissionSync.PrefixesMakeRunExact` | libs/database/src/scripts/sync-permissions.script.ts:66-181 | where planes and scans follow the page: and component: prefixes, a run is exact, leaves every scanned key live, and keeps planes following prefixes |
| `UiPermissionScan.ScanUiPermissions` | libs/database/src/scripts/permission-sync-scan.util.ts:236-277 | the scan of views and manifests yields every declared key once, with its last declaration |
| `UiPermissionScan.ScanManifest` | libs/database/src/scripts/permission-sync-scan.util.ts:351-413 | pages in order, each followed by its components, malformed entries left out, components grouped with an accepted page |
| `UiPermissionScan.SplitIff` | libs/database/src/scripts/permission-sync-scan.util.ts:79-94 | a permission is split into prefix and action if and only if it is one well-formed pair |
| `UiPermissionScan.DeclaredAreUi` | libs/database/src/scripts/permission-sync-scan.util.ts:302-342 | whatever views and manifests contain, only well-formed page: and component: permissions are declared |
| `UiPermissionScan.DeclaredIff` | libs/database/src/scripts/permission-sync-scan.util.ts:236-342 | the scan declares exactly the literals of the views and the well-formed entries of the manifests, each for its own service |
| `UiPermissionScan.LiteralIff` | libs/database/src/scripts/permission-sync-scan.util.ts:40-40 | the literal pattern finds exactly the well-formed page: and component: permissions |
| `UiPermissionScan.ResourceIs` | libs/database/src/scripts/permission-sync-scan.util.ts:79-94 | every page is a resource of its own, with or without view_; any other permission is grouped by its prefix |
| `UiPermissionScan.EntryNameIs` | libs/database/src/scripts/permission-sync-scan.util.ts:289-296 | an entry is named if and only if its name has text in both languages |
| `UiPermissionScan.ComponentIsGrouped` | libs/database/src/scripts/permission-sync-scan.util.ts:390-410 | a component is declared under the resource of its page, or under its own if the page was refused |
| `UiPermissionScan.ManifestWins` | libs/database/src/scripts/permission-sync-scan.util.ts:268-270 | on a key collision the manifest of the service has the last word |
| `UiPermissionScan.ScannedRunIsExact` | libs/database/src/scripts/sync-permissions.script.ts:151-181 | with the scanned ui permissions, a run is exact and keeps planes following prefixes, if no decorated permission has a ui prefix and the planes followed the prefixes before |
| `PermissionSync.SecondRunIsIdle` | libs/database/src/scripts/sync-permissions.script.ts:66-181 | a second run with the same scans changes timestamps only |
| `PermissionSync.KeyTextInjective` | libs/database/src/scripts/sync-permissions.script.ts:85-100 | comparing the key texts is comparing the keys |
| `BulkReconcile.Repository.UpdateBulk` | libs/common/src/utils/base-operations/base-service-operations.util.ts:499-575 | the row every id ends with, whatever the order in which the concurrent sub-steps run; an empty batch changes nothing |
| `BulkReconcile.Repository.LoadAndDelete` | libs/common/src/utils/base-operations/base-service-operations.util.ts:554-562 | loading for update and soft-deleting commute, item by item, because their ids are disjoint |
| `BulkReconcile.Repository.SaveUpdated` | libs/common/src/utils/base-operations/base-service-operations.util.ts:653-674 | each existing id ends with the last item sent for it merged on; items without a row are dropped |
| `BulkReconcile.Repository.DeleteBulk` | libs/common/src/utils/base-operations/base-service-operations.util.ts:692-727 | stamps the given rows that are still live and no others |
| `BulkReconcile.CategorizeIncomingData` | libs/common/src/utils/base-operations/base-service-operations.util.ts:603-624 | items without id, items with id, and the set of sent ids |
| `BulkReconcile.UnsentChangesIff` | libs/common/src/utils/base-operations/base-service-operations.util.ts:520-543 | a row that is not sent changes if and only if deletions are reconciled, it is undeleted and it has every value of the filter; then it ends deleted |
| `BulkReconcile.InScopeIff` | libs/common/src/utils/base-operations/base-service-operations.util.ts:520-531 | to be in scope is to be undeleted and to have every value of the filter |
| `BulkReconcile.LastItemDecides` | libs/common/src/utils/base-operations/base-service-operations.util.ts:653-674 | of several items for one id the last decides |
| `BulkReconcile.EachIsCreated` | libs/common/src/utils/base-operations/base-service-operations.util.ts:629-648 | every item without an id is created, in order |
| `BulkReconcile.ScopeAfter` | libs/common/src/utils/base-operations/base-service-operations.util.ts:499-575 | which ids are live and in scope afterwards, for any items: those that move rows in or out of scope, those that carry deletion columns, and skipDelete included |
| `BulkReconcile.ReconcilesScopeIff` | libs/common/src/utils/base-operations/base-service-operations.util.ts:499-575 | in scope afterwards = (in scope and sent) plus created, if and only if nothing sent creates a dead row or moves a row in or out of scope |
| `BulkReconcile.ReconcilesScope` | libs/common/src/utils/base-operations/base-service-operations.util.ts:499-575 | in particular if the items leave the filter columns and the deletion columns alone |
| `BulkReconcile.KeepsFirstStampIff` | libs/common/src/utils/base-operations/base-service-operations.util.ts:653-727 | a row already deleted keeps its first stamp if and only if nothing sent for it changes the stamp |
| `BulkReconcile.RevivedIff` | libs/common/src/utils/base-operations/base-service-operations.util.ts:653-674 | a deleted row comes back if and only if what is sent for it says so |
| `BulkReconcile.KeepsFirstStamp` | libs/common/src/utils/base-operations/base-service-operations.util.ts:714-723 | if nothing sent carries the stamp: deleted rows keep theirs, no row disappears, and a live row dies if and only if it is in scope and not sent |
| `BulkReconcile.SentColumns` | libs/common/src/utils/base-operations/base-service-operations.util.ts:653-674 | column by column: a sent row takes what was sent and keeps the rest, and who asked is recorded |
| `BulkReconcile.UnsentColumns` | libs/common/src/utils/base-operations/base-service-operations.util.ts:679-727 | a row not sent keeps every column, except for the stamp if it is dropped |
| `BulkReconcile.CreatedColumns` | libs/common/src/utils/base-operations/base-service-operations.util.ts:629-648 | created rows carry the scope even against their own data, and are signed by who asked |
| `BulkReconcile.CreatedLiveIff` | libs/common/src/utils/base-operations/base-service-operations.util.ts:629-648 | a created row is live if and only if neither its data nor the filter declares it deleted |
| `BulkReconcile.ResendIsIdle` | libs/common/src/utils/base-operations/base-service-operations.util.ts:499-575 | resending just the surviving ids deletes nothing and moves nothing in or out of scope |
| `FilterStrings.ParseFilterStrings` | libs/common/src/utils/base-operations/typeorm-query-builder.util.ts:802-848 | skips malformed strings, refuses at the first unknown operator, keeps the order of the rest |
| `FilterStrings.ParseAllMeans` | libs/common/src/utils/base-operations/typeorm-query-builder.util.ts:802-848 | a list is refused if and only if some string has an unknown operator, and otherwise yields exactly the filters its strings parse to |
| `FilterStrings.CutIsParsed` | libs/common/src/utils/base-operations/typeorm-query-builder.util.ts:814-845 | a string with two separators is skipped where field or operator are blank, refused where no operator is written so, and otherwise read as field, operator and all the rest as value |
| `FilterStrings.UncutIsSkipped` | libs/common/src/utils/base-operations/typeorm-query-builder.util.ts:816-817 | a string without two separators is skipped |
| `FilterStrings.ListRefusedIff` | libs/common/src/utils/base-operations/typeorm-query-builder.util.ts:831-838 | a list is refused if and only if a string gives field and operator and no operator is written so |
| `FilterStrings.UnknownTextIsRefused` | libs/common/src/utils/base-operations/typeorm-query-builder.util.ts:831-838 | a written filter is refused, with its field, if and only if its operator text is none |
| `FilterStrings.TrimIs` | libs/common/src/utils/base-operations/typeorm-query-builder.util.ts:824-826 | trimming cuts off the blanks at both ends, all of them and nothing else |
| `FilterStrings.ListRoundTripIff` | libs/common/src/utils/base-operations/typeorm-query-builder.util.ts:802-848 | a list of printed filters parses back to the list if and only if no field has a separator in it or a bar at its end |
| `FilterStrings.JoinSplit` | libs/common/src/utils/base-operations/typeorm-query-builder.util.ts:814-823 | splitting at the separator and joining again loses nothing |
| `FilterStrings.RoundTripIff` | libs/common/src/utils/base-operations/typeorm-query-builder.util.ts:802-848 | a trimmed non-empty field, any operator and any value round-trip if and only if the field has no separator in it and no bar at its end |
| `FilterStrings.BarFreeRoundTrip` | libs/common/src/utils/base-operations/typeorm-query-builder.util.ts:802-848 | in particular every field without a bar round-trips, with values that contain or start with a bar |
| `Pagination.LimitIsPositiveIff` | libs/common/src/utils/base-operations/typeorm-query-builder.util.ts:226-270 | the page size is positive for every query if and only if QUERY_MAX_LIMIT is not strictly between zero and one |
| `Pagination.ReportsServedPageIff` | libs/common/src/utils/base-operations/base-service-operations.util.ts:315-316 | the reported page is the served one if and only if the parameter is no number, zero, a positive whole number or plus infinity |
| `Pagination.LimitMeans` | libs/common/src/utils/base-operations/typeorm-query-builder.util.ts:226-270 | the page size in terms of the limit parameter, the default of ten and the cap |
| `Pagination.ResponseMeans` | libs/common/src/utils/http-success/json-api.util.ts:79-100 | total, page count, first, last, prev and next of every response |
| `Pagination.OffsetServes` | libs/common/src/utils/base-operations/typeorm-query-builder.util.ts:244-247 | with an offset the window starts at the offset |
| `Pagination.ServesPage` | libs/common/src/utils/base-operations/base-service-operations.util.ts:382-393 | page p at a granted limit holds exactly its slice, the same limit is granted again, and prev and next point to the neighbours |
| `Pagination.PagesCover` | libs/common/src/utils/base-operations/base-service-operations.util.ts:382-393 | pages 1..total_pages concatenate to the result; each is non-empty and within the cap |
| `Pagination.Crawl` | libs/common/src/utils/http-success/json-api.util.ts:79-100 | following next from page 1 visits every page once and collects the whole result |
| `SelectTree.PathAddsImplied` | libs/common/src/utils/base-operations/typeorm-query-builder.util.ts:1298-1365 | one path adds exactly itself and what the relations on it bring along |
| `SelectTree.BuiltSelects` | libs/common/src/utils/base-operations/typeorm-query-builder.util.ts:1280-1294 | a list of paths is refused if and only if one is invalid, and otherwise selects exactly what its paths imply |
| `SelectTree.BuildAll` | libs/common/src/utils/base-operations/typeorm-query-builder.util.ts:1280-1294 | the loop computes that tree |
| `SelectTree.ParseAndValidateFields` | libs/common/src/utils/base-operations/typeorm-query-builder.util.ts:1265-1296 | with the root keys added: refused if and only if a field is invalid, otherwise exactly the wanted columns |
| `SelectTree.OrderDoesNotMatter` | libs/common/src/utils/base-operations/typeorm-query-builder.util.ts:1265-1365 | reordering or repeating fields selects the same columns |
| `SelectTree.MoreFieldsSelectMore` | libs/common/src/utils/base-operations/typeorm-query-builder.util.ts:1265-1365 | asking for more never removes a column |
| `SelectTree.SelectsRequested` | libs/common/src/utils/base-operations/typeorm-query-builder.util.ts:1265-1365 | every requested path is selected, with the root keys and the keys of each relation on it |
| `SelectTree.ImpliedIff` | libs/common/src/utils/base-operations/typeorm-query-builder.util.ts:1344-1356 | a path brings exactly itself, all columns of the relations it passes through, and the keys of the relation that owns its last column |
| `SelectTree.SelectedIff` | libs/common/src/utils/base-operations/typeorm-query-builder.util.ts:1265-1365 | what a list of fields selects, in these terms |
| `SelectTree.AmbiguousIsDropped` | libs/common/src/utils/base-operations/typeorm-query-builder.util.ts:1331-1333 | a property that is both column and relation: asking for it and then for a column behind it loses the latter |
| `SelectTree.HonoursFieldsIff` | libs/common/src/utils/base-operations/typeorm-query-builder.util.ts:1298-1365 | every list of valid fields is accepted and selects each of them if and only if no property is both a column and a relation |
| `WhereTree.MeaningIsLeaves` | libs/common/src/utils/base-operations/typeorm-query-builder.util.ts:355-388 | a where tree means exactly the conjunction of its leaves |
| `WhereTree.MergeLeaves` | libs/common/src/utils/base-operations/typeorm-query-builder.util.ts:355-388 | deepMerge keeps each leaf of either tree, and conjoins two on the same path |
| `WhereTree.MergeIsConjunction` | libs/common/src/utils/base-operations/typeorm-query-builder.util.ts:355-388 | deepMerge means AND, for every operator semantics and every row |
| `WhereTree.SetLeaf` | libs/common/src/utils/base-operations/typeorm-query-builder.util.ts:514-531 | setNestedValue sets that leaf and leaves the others |
| `WhereTree.TransformLeaf` | libs/common/src/utils/base-operations/typeorm-query-builder.util.ts:1071-1096 | transformNullValues turns exactly the null-like leaves into IS NULL, at any depth |
| `WhereTree.NullishIff` | libs/common/src/utils/base-operations/typeorm-query-builder.util.ts:1041-1044 | the null-like literals are null and undefined, in any case, with blanks around them |
| `Schema.ValidPathIff` | libs/common/src/utils/base-operations/typeorm-query-builder.util.ts:1393-1425 | a path is valid if and only if relations lead along it to an entity that has its last part as column |
| `QueryCompiler.BuildSearchWhereClause` | libs/common/src/utils/base-operations/typeorm-query-builder.util.ts:472-512 | refused if and only if some condition is neither on a valid path nor on a JSON column, or asks inside JSON for an operator that does not exist there; otherwise, where no property is both column and relation, the tree holds exactly the fold of the conditions |
| `QueryCompiler.BuildFilterWhereClause` | libs/common/src/utils/base-operations/typeorm-query-builder.util.ts:850-897 | the same for filters, several on one field included |
| `QueryCompiler.BuildOrWhereClause` | libs/common/src/utils/base-operations/typeorm-query-builder.util.ts:737-785 | one tree per alternative, refused if and only if one is invalid |
| `QueryCompiler.Compile` | libs/common/src/utils/base-operations/base-service-operations.util.ts:300-313 | the clause of a paginated read, from search, filters, alternatives, exclusions and the soft-delete guard; refused if and only if some condition is invalid by the schema |
| `QueryMeaning.AndMeans` | libs/common/src/utils/base-operations/typeorm-query-builder.util.ts:323-334 | the conjunctive part selects exactly the rows that meet every search condition and filter, where no condition loses its meaning by standing beside another |
| `QueryMeaning.OverlapBreaks` | libs/common/src/utils/base-operations/typeorm-query-builder.util.ts:328-329 | a null-like value beside another condition on its path: the compiled tree rejects a row that meets every condition |
| `QueryMeaning.OverlapLosesAll` | libs/common/src/utils/base-operations/typeorm-query-builder.util.ts:328-329 | with the ordinary reading of NULL, such an overlap rejects every row that meets the conditions |
| `QueryMeaning.EmptyBesideIsNull` | libs/common/src/utils/base-operations/typeorm-query-builder.util.ts:328-329 | for example an empty value in s beside an $isnull filter: the rows with NULL are not selected |
| `QueryMeaning.UnbackedBreaks` | libs/common/src/utils/base-operations/typeorm-query-builder.util.ts:364-367 | an empty operator object replaced by conditions none of which asks for NULL: the tree selects a row whose cell is not NULL |
| `QueryMeaning.AndIsFaithfulIff` | libs/common/src/utils/base-operations/typeorm-query-builder.util.ts:323-334 | the conjunctive part is faithful for all operator semantics and rows if and only if no null-like value has company on its path, and an empty operator object only company that asks for NULL itself |
| `QueryMeaning.OrBranchMeans` | libs/common/src/utils/base-operations/typeorm-query-builder.util.ts:737-785 | an alternative means its condition; one on a bare JSON column is always true |
| `QueryMeaning.BareIsLeftOutIff` | libs/common/src/utils/base-operations/typeorm-query-builder.util.ts:737-760 | passing over an alternative on a bare JSON column is the same as leaving it out of the list if and only if none, or all, of the alternatives are such |
| `QueryMeaning.BranchMeans` | libs/common/src/utils/base-operations/typeorm-query-builder.util.ts:337-353 | combining: every branch means the conjunctive part and its alternative |
| `QueryMeaning.ExclusionMeans` | libs/common/src/utils/base-operations/typeorm-query-builder.util.ts:1707-1720 | the exclusion means: and the primary key is not in the list, in every branch |
| `QueryMeaning.GuardMeans` | libs/common/src/utils/base-operations/base-service-operations.util.ts:302-313 | the spread guard adds "not soft-deleted" for exactly the columns the condition does not name |
| `QueryMeaning.SearchLeafAsks` | libs/common/src/utils/base-operations/typeorm-query-builder.util.ts:533-595 | a search condition is compiled to what it asks: its value, or all of its operators, or NULL |
| `QueryMeaning.FilterLeafAsks` | libs/common/src/utils/base-operations/typeorm-query-builder.util.ts:985-1034 | a filter is compiled to what its operator asks |
| `QueryMeaning.QuerySelects` | libs/common/src/utils/base-operations/base-service-operations.util.ts:300-313 | the whole clause selects exactly the rows that meet every search condition and filter, are not excluded, meet some alternative if there are any, and are live as far as that branch does not name the soft-delete columns |
| `QueryMeaning.QuerySelectsLive` | libs/common/src/utils/base-operations/base-service-operations.util.ts:300-313 | if no condition names is_deleted or deleted_at, the same in the client's own terms and with every selected row live |
| `QueryStrings.CompileRequest` | libs/common/src/utils/base-operations/typeorm-query-builder.util.ts:689-720 | the clause from the filter and or strings; refused if and only if a string gives an operator that is none, or a condition is invalid |
| `QueryStrings.RequestRoundTrip` | libs/common/src/utils/base-operations/typeorm-query-builder.util.ts:802-848 | a printed request stands for the query it was printed from |
| `QueryStrings.RequestSelects` | libs/common/src/utils/base-operations/base-service-operations.util.ts:300-313 | from strings to rows: the clause compiled for a printed request selects exactly the live rows the client asked for |

## Left out

- AuthService.AuthService.CreateInitialCredential: does not cover a user who already has a row, because the table would then hold two credentials of one user and lookups by user would be ambiguous.
- Races between the separate round trips of two service calls: each call is one step.
- `scanKeys` and the platform-wide session list of `SessionsService.findActive`: a cursor loop and slicing over Redis; the full scan appears as the reference set of `SessionStore.ListedIsOwned`.
- The security log, and the IP address and user agent of a login: written, never read by these paths.
- Cryptography, JWT signing, cookies, CSRF tokens and duration parsing: taken as inputs.
- Date and enumeration validation of conditions, the shape checks of `between`, and the SQL text of JSON conditions: conditions are taken as already validated.
- Update in place of where and select objects: both trees are values here; merged trees share subtrees in the code, but every later merge copies before it writes.
- QueryCompiler.BuildSearchWhereClause: says nothing about the tree where a property is both column and relation, because the code may then set a key inside an operator object; the same holds for the other builders.
- Reading `s` as JSON and stripping dangerous keys; sorting; relation selection.
- `_findAllEntities` with alternatives: it spreads an array into an object, so the clause property is for the paginated read.
- Fractional and string forms of `offset`, what the database does with an infinite number of rows to skip, `get_count_only` and `ignore_limit`.
- The pattern match inside a decorator call, reading manifests as JSON and walking the file system: the quoted strings of a view and the entries of a manifest are inputs.
- Failing saves, database constraints other than the unique live username, and cascades.
- The admin pages, exception filters, transports, logging, bootstrap, migrations and storage: no property of the kind modelled here.
