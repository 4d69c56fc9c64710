# Authentication service: admin protocol, settings, notifications and sessions

A Dafny model of the stateful logic behind the admin pages of the authentication service, with proofs about whole
runs of it.

* **Admin protocol** (`AdminProtocol`, `AdminRuns`, `AdminProvenance`, `AdminAccounts`, `AdminActions`,
  `AdminReplies`, `AdminCsrf`, `AdminGui`, `AdminServer`). `AdminProtocol` gives one function per request handler over
  the account rows and the Redis keyspaces with their expiries. `AdminGui` holds the Redis client, the account table,
  the account service and the handlers as classes, each handler proved to take its protocol step, so that serving any
  list of requests walks a run. The other modules prove what every run keeps: exactly when a session opens, single use
  of tokens, row invariants, who may change a row and exactly when, what every column then holds, conservation of
  recovery codes, stability of CSRF tokens. `AdminServer` states these on the handlers themselves, started cold.
* **System settings** (`SettingsRegistry`, `Settings`, `SettingsRuns`): the deployed registry, the three resolvers
  as the loops they are, and their agreement over every history of updates and resets.
* **API key expiry warnings** (`ApiKeyNotifications`, `ApiKeySchedule`): one check over the table, the lead time and
  at-most-once bounds of a schedule of checks, and the worker that runs the schedule.
* **User sessions and group revocation** (`SessionStore`, `SessionRuns`, `GroupRevocation`): session hashes and index
  sets with their separate expiries, runs over the stores of all apps, and revoking one person across a session group.
* **Lists and forms** (`SessionList`, `OidcClients`, `Pagination`, `AppForm`, `Text`, `Strconv`): the session list,
  the two OIDC client branches, the application form round trip, scope lists and HTML escaping.

`dafny verify dfyconfig.toml` checks the project.

## Assumptions

* One request is one atomic step; Redis and database operations succeed unless a parameter says otherwise (sending
  and marking a warning, the warning query, listing an app).  A Redis key is readable strictly before its expiry.
* Random values are parameters.  "No token drawn twice" (`AdminRuns.Fresh`) covers session ids, temporary tokens,
  CSRF tokens, link tokens and challenge ids; six-digit codes, secrets and recovery codes may repeat.
* bcrypt, TOTP, WebAuthn verification, `time.ParseDuration`, `strconv.ParseFloat`, RFC 3339 parsing and lower-casing
  are function parameters.  `AppForm` assumes only how four default durations read.
* A text value of a form is the value after `strings.TrimSpace` where the handler trims first.  Strings are sequences
  of characters, so the minimum password length counts characters where the program counts bytes.
* A session id is never reused, and the session a user spares when revoking the others is the user's own.  The empty
  spared id is `None`.
* The session list is computed from the sessions as fetched; Redis may return them in another order next time.
* Stored JSON lists of recovery codes are lists, or `None` when they do not parse.

## Where the code and its comments differ

* Completeness of a revocation: the user index is extended by logins only, while each token rotation extends the
  session itself.  A run is punctual when no rotation runs past the index and no login under a shorter lifetime pulls
  the index before an older session.  `GroupRevocation.GroupRevocableIffPunctual` shows that exactly the punctual runs
  keep revocations complete; `SessionRuns.LateRotationSurvivesRevocation` is one that is not punctual.
* CSRF stability holds under an unchanged session lifetime (`AdminCsrf.StableUnderOneLifetime`);
  `AdminCsrf.StableIffTokenOutlives` gives the exact condition and `AdminCsrf.ShortenedLifetimeReplacesToken` a run
  outside it.
* The 7-day warning reports six days except at the exact instant (`ApiKeySchedule.SevenDayWarningInTime`).
* A comment at internal/admin/gui_handler.go:1022 says that switching the overrides off clears them all; the stored
  CAPTCHA secret is kept and brings that override back (`AppForm.OverrideOffSticksIff`).
* The e-mail branch of the login stores its temporary token before it finds that the account has no address, and a
  link is deleted before its account is looked up.  Both refusals leave a trace only in states that no run from an
  empty Redis over sound rows reaches (`AdminAccounts.RefusalsChangeNothing`).

## Model

| member | source | states |
|---|---|---|
| AdminProvenance.SessionProvenance | internal/admin/gui_handler.go:102-213 | In every run from an empty Redis with no token drawn twice, a session cookie the server honours was opened by exactly one earlier event, which entitled that admin (see `Entitled`: password with 2FA off; or parked password login plus a valid second factor within ten minutes; or a signed passkey challenge; or a link mailed while links were on), within the configured lifetime and with no logout since |
| AdminProvenance.HonouredIff | internal/admin/account_service.go:117-133 | A cookie is honoured for an admin if and only if one earlier event that entitled that admin opened it, within the configured lifetime, nobody logged it out since, and the account exists |
| AdminProvenance.OpensIffEntitled | internal/admin/gui_handler.go:102-213 | In every run with no token drawn twice, an event opens a session for an admin if and only if it entitles that admin: a password login with 2FA off; or a non-empty code with a temporary token that a password login of that admin parked less than ten minutes ago and that opened none since, the code being on the row, or the newest unused mailed one under five minutes old, or TOTP-valid for the secret on the row; or a signed, unspent challenge under five minutes old; or the newest unfollowed link under ten minutes old |
| AdminReplies.LoginReply | internal/admin/gui_handler.go:102-213 | A password login with 2FA on is sent to its second factor unless a code cannot be mailed; a login without the right password is refused |
| AdminReplies.ResendReply | internal/admin/gui_handler.go:3862-3877 | A new code is mailed if and only if the token is parked, unspent and under ten minutes old, and its account has an address |
| AdminReplies.PageReply | internal/middleware/gui_auth.go:28-49 | A page is served, and a logout carried out, if and only if some earlier entitled event keeps the cookie open |
| AdminReplies.OtherwiseRefused | internal/admin/gui_handler.go:3778-3858 | A second factor, passkey answer or link that opens no session, and a page or logout without one, is refused: there is no third answer |
| AdminReplies.OpenReplies | internal/admin/gui_handler.go:5365-5401 | A link request is answered alike whether or not a link was mailed; a challenge is issued to everybody not rate-limited |
| AdminProvenance.OpeningIsEntitled | internal/admin/gui_handler.go:3778-3858 | Whatever event opens a session draws its token and entitles its admin in the exact sense of `OpensIffEntitled` |
| AdminProvenance.SingleUse | internal/admin/account_service.go:107-114 | No temporary token, magic link or passkey challenge opens two sessions in one run |
| AdminProvenance.EmailCodeSingleUse | internal/admin/account_service.go:340-352 | Between two logins of one admin on e-mailed codes the second code was mailed to that admin, less than five minutes before its use; so no mailed code serves twice |
| AdminProvenance.StaysGone | internal/admin/account_service.go:107-114 | A drawn token that has left its keyspace never returns in the rest of the run |
| AdminProvenance.LogoutIsFinal | internal/admin/gui_handler.go:217-227 | After a logout the cookie is not honoured at any later point of the run |
| AdminProvenance.OnlyNewestLink | internal/redis/redis.go:694-710 | A magic link opens a session only while no newer link was mailed to the same admin |
| AdminProvenance.LinksStayIndexed | internal/redis/redis.go:694-728 | At every point of a run the reverse entry of an admin names that admin's live link, and both expire together |
| AdminProvenance.ReverseStaysIndexed | internal/redis/redis.go:694-728 | With no token drawn twice, every live reverse entry names a live link of its admin, so following or replacing a link takes its reverse entry along |
| AdminProvenance.TempOrigin | internal/admin/account_service.go:72-84 | Every stored temporary token was parked by an earlier password login of its admin with 2FA on, opened no session since, and expires ten minutes after it |
| AdminProvenance.EmailCodeOrigin | internal/admin/account_service.go:311-337 | Every stored e-mail code was mailed to its admin, who had an address, by an earlier login or resend, no other was mailed and none used since, and it expires five minutes after it |
| AdminProvenance.ChallengeOrigin | internal/webauthn/service.go:725-762 | Every stored passkey challenge was issued by an earlier begin request and expires five minutes after it |
| AdminProvenance.LinkOrigin | internal/admin/gui_handler.go:5365-5401 | Every stored link token was mailed earlier to an admin with links on, and expires ten minutes after it |
| AdminAccounts.AccountsStaySound | internal/admin/account_repository.go:94-122 | Along every run each row keeps: 2FA on means TOTP with a secret or e-mail with an address and no secret, with at most eight recovery codes; 2FA off means no secret; magic link on means an address |
| AdminAccounts.StepKeepsSound | internal/admin/account_repository.go:83-122 | Each single step keeps those row invariants |
| AdminAccounts.OnlyOwnerChangesRow | internal/middleware/csrf.go:48-66 | A step changes a row only as a request with its owner's live session and that session's CSRF token, or by removing one of its recovery codes at a login; it adds and removes no row |
| AdminAccounts.RowChangeTracesToLogin | internal/middleware/gui_auth.go:28-49 | In a run, whoever changes a row holds a session that an earlier entitled login of that admin opened and that was not logged out, or is spending a recovery code at an entitled login |
| AdminAccounts.SecretWasConfirmed | internal/admin/gui_handler.go:4017-4052 | A TOTP secret in force was generated by an authenticated request of its admin and then confirmed by a valid code for that secret less than ten minutes later |
| AdminAccounts.RecoveryCodesConserved | internal/admin/account_service.go:355-390 | Between two issues the issued codes are, as a multiset, the codes left plus the codes spent, and the codes left keep the issued order |
| AdminAccounts.AtMostEightPerIssue | internal/admin/account_service.go:236-252 | At most eight recovery logins succeed between one issue of codes and the next |
| AdminAccounts.StepCodes | internal/admin/account_service.go:355-390 | Without an issue, a step either removes the first occurrence of the submitted code, exactly when a recovery login succeeds, or leaves the codes alone |
| AdminActions.AcceptedIffWarranted | internal/admin/account_service.go:192-442 | A request with a live session and its CSRF token is accepted if and only if it is warranted, by the row and the run before it: a new address not taken; the current password, a replacement typed twice of at least eight characters; a valid code for the secret generated last, less than ten minutes ago; the password, for switching 2FA off and for new codes; an address, for e-mail 2FA and links |
| AdminActions.AcceptedIsPerformed | internal/admin/account_repository.go:83-122 | An accepted request writes exactly what it is for, leaves every other column of the row and every other row alone, and answers accordingly |
| AdminActions.StrangersAreRefused | internal/middleware/csrf.go:48-66 | Without a live session and its CSRF token a state-changing request is refused |
| AdminActions.ColumnHistory | internal/admin/account_repository.go:83-122 | After any run a column holds what the last accepted request for it left, or its starting value |
| AdminActions.PasswordHistory | internal/admin/account_service.go:424-442 | The password hash in force is the starting one or that of the last accepted change, which carried the password then in force and a replacement typed twice of at least eight characters, and changed nothing else |
| AdminActions.WeakeningNeedsPassword | internal/admin/account_service.go:278-289 | 2FA goes off, and codes are replaced outside the setup of a factor, only at a request of the admin carrying the password in force |
| AdminActions.AddressesStayDistinct | internal/admin/account_repository.go:83-85 | No two rows ever come to share a non-empty address |
| AdminAccounts.RefusalsChangeNothing | internal/admin/gui_handler.go:102-213 | In every run from an empty Redis over sound rows, a refused request leaves the whole state as it was |
| AdminAccounts.RefusalChangesNothing | internal/admin/gui_handler.go:102-213 | From any state whatever, a refused step changes nothing but in two cases, which no such run meets: an e-mail login without an address has stored its temporary token and nothing else, and a link to a missing account has been deleted in both directions and nothing else |
| AdminCsrf.CsrfTokenIsStable | internal/admin/account_service.go:144-178 | Once a page served a token that outlives its session, every later point of the run at which the session lives serves that token again and accepts it and no other |
| AdminCsrf.StableUnderOneLifetime | internal/admin/account_service.go:144-178 | While nothing reconfigures the session lifetime, once a page served a token every later point of the run at which the session lives serves that token again and accepts it and no other |
| AdminCsrf.TokensOutlive | internal/admin/account_service.go:447-453 | While the configured session lifetime does not change, every CSRF token outlives its session |
| AdminCsrf.StableIffTokenOutlives | internal/admin/account_service.go:144-164 | A token is accepted for the rest of its session's life if and only if its expiry is not before the session's; otherwise there is an instant at which the session lives and a new token replaces it |
| AdminCsrf.ShortenedLifetimeReplacesToken | internal/admin/account_service.go:447-453 | A run with the lifetime cut to one hour between login and first page: an hour later the session is still honoured and a page serves it another token |
| AdminCsrf.AcceptedTokenWasDrawn | internal/middleware/csrf.go:34-45 | The token on file for a session was drawn by a page request of that very session while it was live |
| AdminRuns.StepSessions | internal/admin/account_service.go:54-67 | A step adds a session only with an answer that opens one, with the configured lifetime, and removes one only by logging out |
| AdminServer.HonouredCookie | internal/admin/gui_handler.go:102-213 | The handlers, served any requests from a cold start: a cookie that ValidateSession then accepts was handed out by exactly one answer, to an admin that request entitled, and no later answer ended it |
| AdminServer.AnswersAreJust | internal/admin/gui_handler.go:102-213 | The handlers open a session for an admin if and only if the request entitles that admin, and refuse a logged-in request if and only if it is not warranted |
| AdminServer.SessionsOpened | internal/admin/gui_handler.go:3778-3858 | In the answers the handlers give, no two opened sessions stem from one temporary token, magic link or passkey challenge |
| AdminServer.RowsAfter | internal/admin/account_repository.go:83-122 | The handlers keep the account rows sound and neither add nor remove one |
| AdminServer.CodesAfter | internal/admin/account_service.go:355-390 | If none of the answers issues new codes to the admin, the codes on the row at the start are, as a multiset, those the row still holds, in order, and those the answers let through |
| AdminServer.RecoveryLogins | internal/admin/account_service.go:236-252 | After each answer that issues codes to an admin, the handlers let at most eight recovery codes of that admin through before the next such answer |
| AdminServer.RefusedLast | internal/admin/gui_handler.go:102-213 | After any requests over sound rows, a request the handlers refuse leaves the service as it was just before |
| AdminServer.TokenAfter | internal/admin/account_service.go:144-178 | While the lifetime is not reconfigured: if the handlers served the session a page with a token and the session is still honoured, the service accepts exactly that token and serves it again |
| AdminGui.GUIHandler.ServeAll | internal/admin/gui_handler.go:102-213 | Serving any list of requests on the stores, one after the other, walks the run of the protocol state by state and gives its answers; each handler takes exactly the protocol step of its request |
| AdminGui.AccountService.VerifyRecoveryCode | internal/admin/account_service.go:355-390 | The loop that splices the code list removes exactly the first occurrence; a miss, 2FA off or unreadable codes change nothing |
| AdminGui.AccountService.EnableTOTP | internal/admin/account_service.go:236-252 | Moves the live parked secret to the row with eight codes and drops it from Redis; without one, nothing changes |
| AdminGui.RedisClient.SetAdminMagicLinkToken | internal/redis/redis.go:694-710 | Drops the admin's live previous link and stores the new one in both directions |
| AdminGui.RedisClient.DeleteAdminMagicLinkToken | internal/redis/redis.go:719-728 | Drops the link and, if it was live, its owner's reverse entry |
| AdminGui.AccountRepository.GetByUsernameOrEmail | internal/admin/account_repository.go:36-42 | The least id among the rows whose user name or address matches |
| AdminGui.AccountRepository.UpdateEmail | internal/admin/account_repository.go:83-85 | Refused exactly when another row has the address; else changes that column of that row |
| SettingsRuns.ResolversAgreeOnEveryHistory | internal/admin/settings_service.go:252-413 | After any sequence of updates and resets the served value, the overview and the category page all give: environment, else last accepted update since the last reset, else default |
| SettingsRuns.DeployedResolversAgree | internal/admin/settings_service.go:135-187 | The same for every key of the deployed registry: the served value and the overview are the effective value, and every category page agrees with the overview |
| SettingsRuns.TableIsHistory | internal/admin/settings_repository.go:52-67 | After any sequence of requests the row of a setting is exactly its last acceptable value since its last reset, under the registry's category: a numeral of a 64-bit integer, a casing of true or false, what the parsers accept, or any text |
| SettingsRuns.OnlyKnownKeys | internal/admin/settings_service.go:367-388 | No row is ever stored for a key outside the registry |
| SettingsRuns.ReachableTablesFit | internal/admin/settings_repository.go:52-62 | In every reachable table each stored row has its definition's category, although the upsert never rewrites it |
| SettingsRuns.PagesAgreeIffCategoriesFit | internal/admin/settings_service.go:252-329 | For any table, category pages and overview agree everywhere if and only if every stored row has its definition's category |
| SettingsRuns.SettingAgreesIff | internal/admin/settings_service.go:332-364 | One setting resolves alike by category and by key if and only if its row fits |
| SettingsRuns.ValueAgreesIff | internal/admin/settings_service.go:393-413 | The served value agrees with the overview if and only if the row fits, the environment decides, or the row repeats the default |
| SettingsRuns.UpdateKeepsStaleCategory | internal/admin/settings_repository.go:52-62 | For a row stored under another category an accepted update shows on the overview but is not served; resetting and updating again is |
| SettingsRuns.OverviewIsPermutation | internal/admin/settings_service.go:252-285 | For any table the sections of the overview, flattened, hold each registry setting exactly once |
| SettingsRuns.SectionsArePages | internal/admin/settings_service.go:263-328 | Each section is non-empty and equals the category page of its slug whenever the stored rows fit |
| SettingsRegistry.DeployedRegistryIsWellFormed | internal/admin/settings_service.go:112-187 | The deployed keys are distinct, the slugs are distinct, and every definition's category is listed |
| Settings.Find | internal/admin/settings_service.go:190-197 | A definition of the key if there is one |
| Settings.SettingsService.GetSettingDefinition | internal/admin/settings_service.go:190-197 | The loop returns the first definition of the key |
| Settings.SettingsService.UpdateSetting | internal/admin/settings_service.go:367-379 | Accepted exactly for a known key and an acceptable value of its type; then the table is upserted, else unchanged |
| Settings.ValidIffAcceptable | internal/admin/settings_service.go:416-439 | The validator accepts exactly: for integers a sign or none, leading zeros or none, and the digits of a number of 64 bits; for booleans a casing of true or false; for floats and durations what the parser accepts; any text |
| Settings.WrittenNumbersAcceptable | internal/admin/settings_service.go:416-422 | Every written 64-bit number is accepted for an integer setting; no text that ends in something else than a digit is |
| Settings.RequestsAcceptedIff | internal/admin/settings_service.go:367-388 | An update is accepted exactly for a known key and an acceptable value, a reset exactly for a known key; then the value is there, or gone, and every other row is as before |
| Settings.ResolvedShows | internal/admin/settings_service.go:332-364 | A resolved setting tells its source and its stored value, and shows its value except a sensitive one from the environment |
| Settings.SettingsService.ResetSetting | internal/admin/settings_service.go:382-388 | Accepted exactly for a known key; then its row is gone, else nothing changes |
| Settings.SettingsService.GetResolvedValue | internal/admin/settings_service.go:393-413 | The served value, looked up among the rows of the definition's category |
| Settings.SettingsService.ResolveCategorySettings | internal/admin/settings_service.go:288-329 | For a listed slug, its definitions in registry order resolved against rows of that category; None otherwise |
| Settings.SettingsService.ResolveAllByCategory | internal/admin/settings_service.go:252-285 | The non-empty categories in display order, each with its definitions in registry order resolved by key |
| Settings.SettingsRepository.UpsertSetting | internal/admin/settings_repository.go:52-62 | Inserts, or rewrites the value only |
| Settings.SettingsRepository.GetSettingsByCategory | internal/admin/settings_repository.go:29-35 | Exactly the rows of the category, each once |
| Settings.SettingsRepository.GetAllSettings | internal/admin/settings_repository.go:20-26 | Exactly the stored rows, each once |
| ApiKeySchedule.OneDayWarningInTime | internal/admin/apikey_notification.go:117-130 | Under checks at most `gap` apart that send, a key unmarked with two days or more left gets its 1-day mail from the first check below two days, at least two days less `gap` ahead, none earlier; it says one day exactly when a day or more is left, so always for gaps up to a day |
| ApiKeySchedule.SevenDayWarningInTime | internal/admin/apikey_notification.go:104-115 | A key unmarked with more than seven days left gets its 7-day mail from the first check that finds it in the window, more than seven days less the gap ahead; the mail says seven only at the exact instant |
| ApiKeySchedule.SentAccounting | internal/admin/apikey_notification.go:104-130 | Over any checks, revocations included, mails of a kind equal failed marks plus one if the mark got set |
| ApiKeySchedule.SentExactly | internal/admin/apikey_notification.go:83-135 | A check sends a mail of a kind if and only if it runs, the key is not revoked and expires inside the window, fewer than eight or two days are left, the kind is unmarked and delivery succeeds; the mail names key, kind and days left cut off toward zero; the mark is set exactly when setting it succeeds |
| ApiKeySchedule.SilentOutsideWindow | internal/admin/repository.go:1116-1124 | A revoked key, one without expiry, an expired one and one expiring past the window get no mail and keep their marks |
| ApiKeySchedule.AtMostOnce | internal/admin/apikey_notification.go:104-130 | So at most one mail of a kind plus one per failed mark, and none for a key already marked |
| ApiKeySchedule.Worker | internal/admin/apikey_notification.go:64-79 | One check after the other over the whole table, while keys are revoked from outside: every row is where its history puts it, the mails for it are those of its history in order, and the counters add up to the mails sent |
| ApiKeySchedule.Outbox | internal/admin/apikey_notification.go:64-79 | In the outbox the worker fills: at most one mail of a kind for a key plus one per failed mark, the warning of each kind for every key that regular checks see before and after it falls due, and nothing for a key revoked or otherwise outside the window at every check |
| ApiKeySchedule.BothInOneRun | internal/admin/apikey_notification.go:104-130 | An unmarked key with under two days left gets both mails from the same check |
| ApiKeyNotifications.ApiKeyNotificationService.RunCheck | internal/admin/apikey_notification.go:83-135 | Every selected key gets its due mails and marks, every other row is untouched, and the counter equals the mails sent |
| ApiKeyNotifications.ApiKeyNotificationService.Warn | internal/admin/apikey_notification.go:104-115 | One kind: sent when due, unmarked and delivered; marked only if the mark succeeds; counted when sent |
| ApiKeyNotifications.ApiKeyRepository.GetKeysExpiringWithin | internal/admin/repository.go:1116-1124 | Exactly the keys not revoked that expire after the query clock and no later than seven days after the cutoff clock, each once |
| GroupRevocation.GroupRevocation | internal/admin/gui_handler.go:5769-5841 | After any legal run of logins, rotations and revocations, and any wait, revoking a person across the group blacklists every account of that person for exactly the given lifetime (for good if it is zero), ends all their sessions if the run was punctual, and changes no session or blacklisting of anybody else |
| GroupRevocation.GroupRevocableIffPunctual | internal/admin/gui_handler.go:5769-5841 | For every directory with unique e-mails: a legal run is punctual if and only if at every point of it, for everyone and at every later instant, revoking a person across the group leaves that person no session |
| GroupRevocation.RevokeAfter | internal/admin/gui_handler.go:5769-5841 | The handler itself, on the keys that any legal requests left behind, gives that guarantee |
| GroupRevocation.RevokeFromEitherApp | internal/admin/gui_handler.go:5812-5841 | The handler leaves the same keys whichever of two apps of the group the person is revoked from |
| GroupRevocation.GUIHandler.SessionRevokeAllForUser | internal/admin/gui_handler.go:5769-5802 | With both ids given, every targeted account of the group is revoked and nothing else changes; otherwise refused with no change |
| GroupRevocation.GUIHandler.RevokeSessionsInPeerApps | internal/admin/gui_handler.go:5812-5841 | The loop over peers, in any order, revokes exactly the same-e-mail account of each other app of the group |
| GroupRevocation.TargetsAreThePerson | internal/admin/gui_handler.go:5812-5841 | The accounts reached are the named one and, in the other apps of its group, exactly those with its non-empty e-mail |
| GroupRevocation.TargetsSymmetric | internal/admin/gui_handler.go:5812-5841 | The accounts reached do not depend on which app of the group the person is named in |
| GroupRevocation.SessionRedis.ServeAll | internal/redis/redis.go:228-413 | Serving any list of requests on empty keys walks the run |
| GroupRevocation.SessionRedis.CreateSession | internal/redis/redis.go:259-296 | A login writes the hash, restarts an expired index and extends both indexes; blacklisting is not ended here |
| GroupRevocation.SessionRedis.DeleteAllUserSessions | internal/redis/redis.go:385-413 | The sessions the live index leads to are gone but for the spared one, with their app-index ids; the index is deleted, or rebuilt without expiry for the spared one; the rest is unchanged |
| GroupRevocation.SessionRedis.GetUserSessionIDs | internal/redis/redis.go:357-381 | The live sessions the live index leads to; only that index changes, losing no id of a live session, gaining none, and keeping its expiry |
| GroupRevocation.SessionRedis.RefreshSession | internal/session/service.go:66-122 | A rotation slides the expiry of a live hash and of nothing else |
| GroupRevocation.SessionRedis.DeleteSession | internal/redis/redis.go:338-353 | Deletes the hash and its id from both indexes |
| SessionRuns.RevocableIffPunctual | internal/redis/redis.go:385-413 | A legal run is punctual (every login and rotation in time) if and only if at every point of it, in every app and at every later instant, revoking any user leaves that user no session |
| SessionRuns.PunctualIffCovered | internal/redis/redis.go:326-329 | A legal run is punctual if and only if at every point every live session is in its user's index and expires no later than the index |
| SessionRuns.LateRotationSurvivesRevocation | internal/redis/redis.go:326-329 | A legal run with one late rotation, hence not punctual, after which revoking the user leaves the session alive |
| SessionRuns.BlacklistedIff | internal/redis/redis.go:228-252 | At any point of a run a user is blacklisted if and only if the lifetime of a blacklisting lasts that no later login cleared and no later blacklisting replaced |
| SessionStore.LoginLives | internal/redis/redis.go:259-296 | A login opens a session of the user for exactly its lifetime, indexed for a day longer, and touches no other session; it ends blacklisting only through the session service |
| SessionStore.RotationSlides | internal/redis/redis.go:326-329 | A rotation gives a live session the new data and a full lifetime from now, never revives a dead one, and touches no other session |
| SessionStore.DeletedIsGone | internal/redis/redis.go:338-353 | A deleted session is gone for every later instant and from both indexes; every other session stays |
| SessionStore.SparedSessionStays | internal/redis/redis.go:385-413 | Revoking all but one leaves, of the sessions the index led to, only the spared one, which the rebuilt index leads to as long as it lives |
| SessionStore.CoveredIffRevocable | internal/redis/redis.go:357-413 | A store has every live session covered by its user's index if and only if revoking any user at any later instant leaves no session |
| SessionStore.StepKeepsCoveredIff | internal/redis/redis.go:259-413 | An operation, sparing revocations included, keeps every live session covered if and only if it is in time: no rotation past the index's expiry and no login that moves the index before an older session |
| SessionStore.RotationInTimeWithinADay | internal/redis/redis.go:259-329 | Under one lifetime a rotation is in time if and only if at most a day has passed since the login that last wrote the index |
| SessionStore.LoginInTimeUnderOneLifetime | internal/redis/redis.go:259-296 | Under one lifetime a login is always in time |
| SessionStore.RevocationLeavesUnindexed | internal/redis/redis.go:385-413 | Revoking a user in one app leaves exactly the sessions the index did not lead to, deletes the index, and blacklists the user for exactly the given lifetime |
| SessionStore.RevocationSparesOthers | internal/redis/redis.go:385-413 | Other users of the app keep sessions, index and blacklist state |
| SessionList.Browse | internal/admin/gui_handler.go:5519-5666 | The pages that successive requests return, up to the count they announce, hold together each collected session as often as collected if it passes both filters, else never, most recent first; the next page is empty |
| SessionList.SortedIsRecentFirst | internal/admin/gui_handler.go:5932-5942 | The result of the exchange sort is most recent first, unparsable times as the zero time, and a permutation of its input |
| SessionList.SortedKeepsSorted | internal/admin/gui_handler.go:5932-5942 | A list already in order, equal times included, is left alone, so sorting twice is sorting once |
| SessionList.PassesIff | internal/admin/gui_handler.go:5592-5599 | A session passes when its address contains the one term and its IP address the other, whatever the case of either |
| SessionList.CollectedInOrder | internal/admin/gui_handler.go:5549-5563 | Session k of app i stands behind all sessions of the apps before it, with its user's address and its app |
| SessionList.SortSessionsByLastActive | internal/admin/gui_handler.go:5932-5942 | The in-place loops leave exactly that result |
| SessionList.List | internal/admin/gui_handler.go:5519-5666 | The page asked for, cut from the one sorted list of the collected sessions passing both filters, with its total and page count |
| SessionList.Collect | internal/admin/gui_handler.go:5549-5563 | All sessions of the readable apps, app after app |
| SessionList.PagesShowMatchesOnce | internal/admin/gui_handler.go:5637-5655 | Over the pages of that list each collected session appears as often as collected if it passes both filters, else never; later pages are empty |
| SessionList.FilteredCounts | internal/admin/gui_handler.go:5584-5613 | The filter keeps each passing session as often as it was collected and drops the others |
| Pagination.PagesCoverList | internal/admin/gui_handler.go:5642-5655 | Pages 1 to the page count concatenate to the list, none of them is empty, and every later one is |
| Pagination.PageOfMap | internal/admin/gui_handler_oidc.go:128-150 | Slicing then copying rows equals copying rows then slicing |
| OidcClients.ListForApp | internal/admin/gui_handler_oidc.go:116-150 | The one-app branch shows the page of the rows of that app's clients, with their number |
| OidcClients.ListForAllApps | internal/admin/gui_handler_oidc.go:151-191 | The all-apps branch shows the page of the rows of all listable apps, with their number |
| OidcClients.OIDCClientList | internal/admin/gui_handler_oidc.go:100-206 | The handler shows the page of the filtered app, or of all apps, with the announced page count; an unknown app shows nothing |
| OidcClients.ClientsInOrder | internal/admin/gui_handler_oidc.go:158-179 | Client k of app i stands behind all clients of the listable apps before it |
| OidcClients.BranchesAgree | internal/admin/gui_handler_oidc.go:116-192 | On the clients of one app both branches show the same page, for every page number |
| OidcClients.AnnouncedPagesShowEverything | internal/admin/gui_handler_oidc.go:192-206 | The announced pages, at least one, hold all rows, none is empty unless there are no rows, and later pages are empty |
| AppForm.EditThenSaveIsNoOp | internal/admin/gui_handler.go:830-1060 | For every application the forms can store, saving the untouched form changes no lockout, delay, CAPTCHA or password rule nor token lifetime in force, and a second save changes no stored field |
| AppForm.SavedIsClean | internal/admin/gui_handler.go:970-1060 | Whatever is typed into the form, the stored texts are trimmed and not blank and the numbers are in range |
| AppForm.TypedLockoutTakesEffect | internal/admin/gui_handler.go:970-1012 | The lockout and delay policy typed under an override is in force field by field, with the default where a text is blank or does not parse; without the override the defaults are |
| AppForm.TypedCaptchaTakesEffect | internal/admin/gui_handler.go:1012-1022 | A typed secret key replaces the stored one, which otherwise stays; the rest of the CAPTCHA policy is as typed, or the default without the override |
| AppForm.TypedPolicyTakesEffect | internal/admin/gui_handler.go:1040-1060 | Password policy, lifetimes, 2FA switches and name are as typed, with the default, or off, where a text is no number in range |
| AppForm.DurationsOfTyped | internal/bruteforce/service.go:42-132 | The lockout durations in force are the entries of the typed list that parse, in order, whatever blanks stand around them |
| AppForm.NamelessFormIsRefused | internal/admin/gui_handler.go:944-968 | A form without a name changes nothing |
| AppForm.LockoutUnchanged | internal/bruteforce/service.go:42-132 | The lockout fields after an untouched save resolve to the same rule, and are stable under another save |
| AppForm.CaptchaUnchanged | internal/admin/repository.go:355-359 | The CAPTCHA fields, secret key included, after an untouched save resolve to the same rule, and are stable |
| AppForm.PolicyUnchanged | internal/user/password_policy.go:17-28 | The stored password policy and lifetimes after an untouched save are the resolved ones |
| AppForm.RequirementSurvivesIff | web/templates/partials/app_form.tmpl:145-147 | An untouched save keeps the 2FA requirement if and only if 2FA is on or not required |
| AppForm.OverrideOffSticksIff | internal/admin/repository.go:355-359 | Switching the overrides off clears lockout and delay; the CAPTCHA override is back on the next page if and only if a secret key is stored |
| Strconv.AtoiItoa | internal/admin/gui_handler.go:893-977 | Reading a written 64-bit integer gives it back |
| Strconv.AtoiReadsNumerals | internal/admin/gui_handler.go:977-1058 | Read are exactly the numerals of 64-bit integers (a fitting sign or none, leading zeros or none, the digits), each as its number |
| Text.SplitScopes | web/renderer.go:238-251 | The loop yields the trimmed non-empty comma-free parts |
| Text.ScopesOfJoin | web/renderer.go:238-251 | Splitting a joined list of scopes gives the list back, in order |
| Text.ScopesOfTyped | web/renderer.go:238-251 | A typed comma list yields its non-empty entries in order, whatever blanks stand around them |
| Text.TrimPadded | web/renderer.go:238-251 | Trimming takes off exactly the blanks around a trimmed text |
| Text.ScopesStable | web/renderer.go:238-251 | Splitting, joining and splitting again changes nothing |
| Text.EscapeIsCharacterwise | internal/admin/gui_handler.go:4925-4932 | The five passes equal one character-by-character map |
| Text.EscapedHasNoMarkup | internal/admin/gui_handler.go:4925-4932 | No raw angle bracket or quote is left |
| Text.EscapeRoundTrip | internal/admin/gui_handler.go:4925-4932 | Reading the entities back recovers the text, so escaping is injective |

## Left out

- Interleaving inside a handler: validate-then-consume is two Redis calls, and the single-use results are about
  handlers run one at a time.
- Pages, fragments, cookies, redirects, status codes, rate limiting beyond a "blocked" flag, and route wiring.
- Last-login timestamps, account creation by the setup command, and deletion of accounts (no page does it).
- Passkey registration, rename and deletion: the credential table may change arbitrarily between steps.
- API keys created, deleted or given another expiry between two checks of the schedule; revocation is covered.
- The shape of a recovery code and of the other random values.
- The time a warning mark records: the model keeps only whether the column is set.
- The order in which settings rows are read: no result depends on it.
- Database errors of the settings reads; `GetResolvedValue` falls back to the default on them.
- Setting labels, descriptions and hints, and the system information page.
- Revocation of a single session, expiry-driven group revocation and its `session_meta` keys, refresh-token
  rotation checks, and the access-token blacklist per token.
- Session status labels, formatted times and application names of the session list.
- SessionList.List: page arithmetic is on unbounded integers, because overflow of an enormous page number is not the
  point; the same holds for the OIDC client list.
- Text fields of the application form that are only trimmed and stored, and switches copied as they are.
- The role swap with its compensation, IP rules with their cache, brute-force lockout itself, OIDC and SSO flows.
- formatUptime, formatTimeAgo and the other display helpers: they would only add easy members.
