/** The admin login, second-factor, magic-link, passkey and my-account protocol, one atomic step a
    request.

    Random draws (session ids, temporary tokens, CSRF tokens, magic-link tokens, challenge ids, e-mail
    codes, TOTP secrets, recovery codes) are fields of the event that makes them; bcrypt, TOTP and
    WebAuthn verification are the fields of `Env`. */
module AdminProtocol {
  import opened Wrappers
  import opened TtlStore

  // Accounts are read "first match" in primary-key order; only that order of the ids matters.
  type AdminId = nat

  // A hex- or UUID-encoded random value is never empty.
  type Token = t: string | t != "" witness "t"

  const RECOVERY_CODE_COUNT: nat := 8

  type CodeBatch = c: seq<string> | |c| == RECOVERY_CODE_COUNT witness seq(RECOVERY_CODE_COUNT, _ => "")

  const TEMP_SESSION_TTL: nat := 600
  const TEMP_SECRET_TTL: nat := 600
  const EMAIL_CODE_TTL: nat := 300
  const MAGIC_LINK_TTL: nat := 600
  const CHALLENGE_TTL: nat := 300
  const DEFAULT_SESSION_HOURS: nat := 8
  const SECONDS_PER_HOUR: nat := 3600
  const MIN_PASSWORD_LENGTH: nat := 8

  const METHOD_TOTP := "totp"
  const METHOD_EMAIL := "email"

  /** A row of admin_accounts.  `recoveryCodes` is None when the stored JSON does not parse
      (a row on which two-factor was never enabled holds NULL). */
  datatype Account = Account(
    username: string,
    email: string,
    passwordHash: string,
    twoFAEnabled: bool,
    twoFAMethod: string,
    twoFASecret: string,
    recoveryCodes: Option<seq<string>>,
    magicLinkEnabled: bool,
    backupEmail: string,
    backupEmailVerified: bool)

  type Accounts = map<AdminId, Account>

  /** The Redis keyspaces the protocol uses, and the server clock in seconds. */
  datatype Store = Store(
    now: nat,
    sessions: TtlMap<string, AdminId>,
    csrf: TtlMap<string, string>,
    tempSessions: TtlMap<string, AdminId>,
    tempSecrets: TtlMap<AdminId, string>,
    emailCodes: TtlMap<AdminId, string>,
    magicLinks: TtlMap<string, AdminId>,
    magicLinkUsers: TtlMap<AdminId, string>,
    challenges: TtlMap<string, string>)

  /** `passkeys` maps a stored WebAuthn credential to its admin; `sessionHours` is the configured
      ADMIN_SESSION_EXPIRATION_HOURS. */
  datatype State = State(accounts: Accounts, store: Store, passkeys: map<string, AdminId>, sessionHours: int) {
    ghost function WithStore(store': Store): State { this.(store := store') }
    ghost function WithAccount(admin: AdminId, account: Account): State {
      this.(accounts := accounts[admin := account])
    }
    ghost function WithSessions(m: TtlMap<string, AdminId>): State { WithStore(store.(sessions := m)) }
    ghost function WithCsrf(m: TtlMap<string, string>): State { WithStore(store.(csrf := m)) }
    ghost function WithTempSessions(m: TtlMap<string, AdminId>): State { WithStore(store.(tempSessions := m)) }
    ghost function WithTempSecrets(m: TtlMap<AdminId, string>): State { WithStore(store.(tempSecrets := m)) }
    ghost function WithEmailCodes(m: TtlMap<AdminId, string>): State { WithStore(store.(emailCodes := m)) }
    ghost function WithChallenges(m: TtlMap<string, string>): State { WithStore(store.(challenges := m)) }
    ghost function WithLinks(links: TtlMap<string, AdminId>, users: TtlMap<AdminId, string>): State {
      WithStore(store.(magicLinks := links, magicLinkUsers := users))
    }
  }

  /** Library verdicts: bcrypt (hash, password), TOTP (code, secret, time), WebAuthn
      (challenge, response) giving the credential that signed. */
  datatype Env = Env(
    passwordMatches: (string, string) -> bool,
    totpValid: (string, string, nat) -> bool,
    assertion: (string, string) -> Option<string>)

  /** State-changing requests of a logged-in admin.  `newHash` is None when bcrypt refuses the new password. */
  datatype Action =
    | UpdateEmail(email: string)
    | ChangePassword(current: string, replacement: string, confirmation: string, newHash: Option<string>)
    | GenerateTOTP(secret: Token)
    | VerifyTOTP(code: string, codes: CodeBatch)
    | EnableEmail2FA(codes: CodeBatch)
    | Disable2FA(password: string)
    | RegenerateCodes(password: string, codes: CodeBatch)
    | ToggleMagicLink
    | SetBackupEmail(email: string)
    | RemoveBackupEmail

  /** One request, or one change of the surroundings (time, configuration, registered passkeys).  `factor` is the
      form's own `method` field. */
  datatype Event =
    | Tick(seconds: nat)
    | Configure(hours: int)
    | ReplacePasskeys(table: map<string, AdminId>)
    | Login(limited: bool, username: string, password: string, draw: Token, emailCode: string)
    | TwoFAVerify(tempToken: string, code: string, factor: string, useRecovery: bool, draw: Token)
    | TwoFAResend(tempToken: string, emailCode: string)
    | PasskeyBegin(limited: bool, draw: Token, challenge: string)
    | PasskeyFinish(limited: bool, challengeId: string, credential: string, draw: Token)
    | MagicRequest(limited: bool, email: string, draw: Token)
    | MagicVerify(token: string, draw: Token)
    | Page(cookie: string, draw: Token)
    | Logout(cookie: string, draw: Token)
    | Post(cookie: string, csrf: string, action: Action)

  datatype Response =
    | Silent
    | Rejected
    | Accepted
    | SessionOpened(sid: string, admin: AdminId)
    | SecondFactor(tempToken: string, twoFAMethod: string)
    | ChallengeIssued(challengeId: string)
    | LinkNotice
    | PageServed(csrf: string)
    | LoggedOut
    | CodesShown(codes: seq<string>)

  // ----- account lookups -----

  lemma LeastExists(s: set<nat>, bound: nat)
    requires bound in s
    ensures exists m :: m in s && forall x :: x in s ==> m <= x
    decreases bound
  {
    if x :| x in s && x < bound { LeastExists(s, x); }
  }

  /** `First` of a query ordered by primary key. */
  ghost function First(s: set<nat>): (r: Option<nat>)
    ensures r.None? <==> s == {}
    ensures r.Some? ==> r.value in s && forall x :: x in s ==> r.value <= x
  {
    if s == {} then None
    else
      var y :| y in s;
      LeastExists(s, y);
      var m :| m in s && forall x :: x in s ==> m <= x;
      Some(m)
  }

  ghost function ByUsernameOrEmail(accounts: Accounts, identifier: string): set<AdminId> {
    set id | id in accounts && (accounts[id].username == identifier || accounts[id].email == identifier)
  }

  ghost function ByEmail(accounts: Accounts, email: string): set<AdminId> {
    set id | id in accounts && accounts[id].email == email
  }

  /** The admin whose password check succeeds for this login form. */
  ghost function Authenticated(env: Env, accounts: Accounts, identifier: string, password: string): (r: Option<AdminId>)
    ensures r.Some? ==> r.value in accounts
    ensures r.Some? ==> env.passwordMatches(accounts[r.value].passwordHash, password)
    ensures r.Some? ==> accounts[r.value].username == identifier || accounts[r.value].email == identifier
  {
    var id := First(ByUsernameOrEmail(accounts, identifier));
    if id.Some? && env.passwordMatches(accounts[id.value].passwordHash, password) then id else None
  }

  /** The account behind a live temporary token. */
  ghost function TempOwner(s: State, tempToken: string): (r: Option<AdminId>)
    ensures r.Some? ==> r.value in s.accounts
  {
    var id := Get(s.store.tempSessions, tempToken, s.store.now);
    if tempToken != "" && id.Some? && id.value in s.accounts then id else None
  }

  /** The account behind a live session cookie. */
  ghost function SessionOwner(s: State, cookie: string): (r: Option<AdminId>)
    ensures r.Some? ==> r.value in s.accounts
  {
    var id := Get(s.store.sessions, cookie, s.store.now);
    if cookie != "" && id.Some? && id.value in s.accounts then id else None
  }

  // ----- building blocks of the steps -----

  function SessionTtl(hours: int): nat {
    (if hours <= 0 then DEFAULT_SESSION_HOURS else hours) * SECONDS_PER_HOUR
  }

  ghost function OpenSession(s: State, admin: AdminId, sid: string): (State, Response) {
    (s.WithSessions(Put(s.store.sessions, sid, admin, SessionTtl(s.sessionHours), s.store.now)),
     SessionOpened(sid, admin))
  }

  /** A code goes out only to an account that has an address. */
  ghost function MailCode(s: State, admin: AdminId, code: string): State
    requires admin in s.accounts
  {
    if s.accounts[admin].email == "" then s
    else s.WithEmailCodes(Put(s.store.emailCodes, admin, code, EMAIL_CODE_TTL, s.store.now))
  }

  /** The codes without the first occurrence of `code`; None if it does not occur. */
  function RemoveFirst(codes: seq<string>, code: string): Option<seq<string>> {
    if codes == [] then None
    else if codes[0] == code then Some(codes[1..])
    else
      match RemoveFirst(codes[1..], code)
      case None => None
      case Some(rest) => Some([codes[0]] + rest)
  }

  ghost function StoreMagicLink(s: State, admin: AdminId, token: string): State {
    var previous := Get(s.store.magicLinkUsers, admin, s.store.now);
    var kept := if previous.Some? && previous.value != "" then Drop(s.store.magicLinks, previous.value)
                else s.store.magicLinks;
    s.WithLinks(Put(kept, token, admin, MAGIC_LINK_TTL, s.store.now),
                Put(s.store.magicLinkUsers, admin, token, MAGIC_LINK_TTL, s.store.now))
  }

  ghost function DropMagicLink(s: State, token: string): State {
    var owner := Get(s.store.magicLinks, token, s.store.now);
    s.WithLinks(Drop(s.store.magicLinks, token),
                if owner.Some? then Drop(s.store.magicLinkUsers, owner.value) else s.store.magicLinkUsers)
  }

  /** The stable CSRF token of a session, created on first use. */
  ghost function EnsureCsrf(s: State, sid: string, draw: string): (r: (State, string))
    ensures r.0 == s.WithCsrf(r.0.store.csrf)
  {
    var existing := Get(s.store.csrf, sid, s.store.now);
    if existing.Some? && existing.value != "" then (s, existing.value)
    else
      (s.WithCsrf(Put(s.store.csrf, sid, draw, SessionTtl(s.sessionHours), s.store.now)), draw)
  }

  ghost predicate CsrfAccepts(s: State, sid: string, token: string) {
    sid != "" && token != "" && Get(s.store.csrf, sid, s.store.now) == Some(token)
  }

  // ----- one function a handler -----

  /** Parks a password-checked login until the second factor arrives; mails a code if that is the method. */
  ghost function ParkLogin(s: State, admin: AdminId, e: Event): (r: (State, Response))
    requires e.Login? && admin in s.accounts
    ensures r.0 == s.WithTempSessions(r.0.store.tempSessions).WithEmailCodes(r.0.store.emailCodes)
    ensures r.0.store.tempSessions == Put(s.store.tempSessions, e.draw, admin, TEMP_SESSION_TTL, s.store.now)
    ensures r.0.store.emailCodes ==
            if s.accounts[admin].twoFAMethod == METHOD_EMAIL && s.accounts[admin].email != ""
            then Put(s.store.emailCodes, admin, e.emailCode, EMAIL_CODE_TTL, s.store.now) else s.store.emailCodes
  {
    var parked := s.WithTempSessions(Put(s.store.tempSessions, e.draw, admin, TEMP_SESSION_TTL, s.store.now));
    if s.accounts[admin].twoFAMethod != METHOD_EMAIL then (parked, SecondFactor(e.draw, s.accounts[admin].twoFAMethod))
    else if s.accounts[admin].email == "" then (parked, Rejected)
    else (MailCode(parked, admin, e.emailCode), SecondFactor(e.draw, METHOD_EMAIL))
  }

  ghost function LoginStep(env: Env, s: State, e: Event): (r: (State, Response))
    requires e.Login?
    ensures r.0 == s.WithTempSessions(r.0.store.tempSessions).WithEmailCodes(r.0.store.emailCodes)
                  .WithSessions(r.0.store.sessions)
  {
    var admin := Authenticated(env, s.accounts, e.username, e.password);
    if e.limited || e.username == "" || e.password == "" || admin.None? then (s, Rejected)
    else if s.accounts[admin.value].twoFAEnabled then ParkLogin(s, admin.value, e)
    else OpenSession(s, admin.value, e.draw)
  }

  ghost function UseRecoveryCode(s: State, admin: AdminId, code: string): (r: Option<State>)
    requires admin in s.accounts
    ensures r.Some? ==> r.value == State(r.value.accounts, s.store, s.passkeys, s.sessionHours)
  {
    var account := s.accounts[admin];
    if !account.twoFAEnabled || account.recoveryCodes.None? then None
    else
      var rest := RemoveFirst(account.recoveryCodes.value, code);
      if rest.None? then None else Some(s.WithAccount(admin, account.(recoveryCodes := rest)))
  }

  ghost function UseEmailCode(s: State, admin: AdminId, code: string): (r: Option<State>)
    ensures r.Some? ==> r.value == s.WithEmailCodes(r.value.store.emailCodes)
  {
    if Get(s.store.emailCodes, admin, s.store.now) == Some(code)
    then Some(s.WithEmailCodes(Drop(s.store.emailCodes, admin)))
    else None
  }

  ghost predicate TotpAccepts(env: Env, s: State, admin: AdminId, code: string)
    requires admin in s.accounts
  {
    && s.accounts[admin].twoFAEnabled && s.accounts[admin].twoFASecret != ""
    && env.totpValid(code, s.accounts[admin].twoFASecret, s.store.now)
  }

  /** The verifier the submitted form selects: None when it refuses, else the state with the code used up. */
  ghost function CheckSecondFactor(env: Env, s: State, admin: AdminId, e: Event): (r: Option<State>)
    requires e.TwoFAVerify? && admin in s.accounts
    ensures r.Some? ==>
              r.value == State(r.value.accounts, s.store, s.passkeys, s.sessionHours)
                         .WithEmailCodes(r.value.store.emailCodes)
  {
    if e.useRecovery then UseRecoveryCode(s, admin, e.code)
    else if e.factor == METHOD_EMAIL then UseEmailCode(s, admin, e.code)
    else if TotpAccepts(env, s, admin, e.code) then Some(s)
    else None
  }

  /** A passed check consumes the temporary token and opens the session. */
  ghost function TwoFAVerifyStep(env: Env, s: State, e: Event): (r: (State, Response))
    requires e.TwoFAVerify?
    ensures r.0 == State(r.0.accounts, s.store, s.passkeys, s.sessionHours).WithTempSessions(r.0.store.tempSessions)
                  .WithEmailCodes(r.0.store.emailCodes).WithSessions(r.0.store.sessions)
  {
    var admin := TempOwner(s, e.tempToken);
    if e.code == "" || admin.None? then (s, Rejected)
    else
      var checked := CheckSecondFactor(env, s, admin.value, e);
      if checked.None? then (s, Rejected)
      else OpenSession(checked.value.WithTempSessions(Drop(s.store.tempSessions, e.tempToken)), admin.value, e.draw)
  }

  ghost function TwoFAResendStep(s: State, e: Event): (r: (State, Response))
    requires e.TwoFAResend?
    ensures r.0 == s.WithEmailCodes(r.0.store.emailCodes)
  {
    var admin := TempOwner(s, e.tempToken);
    if admin.None? || s.accounts[admin.value].email == "" then (s, Rejected)
    else (MailCode(s, admin.value, e.emailCode), Accepted)
  }

  ghost function PasskeyBeginStep(s: State, e: Event): (r: (State, Response))
    requires e.PasskeyBegin?
    ensures r.0 == s.WithChallenges(r.0.store.challenges)
  {
    if e.limited then (s, Rejected)
    else
      (s.WithChallenges(Put(s.store.challenges, e.draw, e.challenge, CHALLENGE_TTL, s.store.now)),
       ChallengeIssued(e.draw))
  }

  /** The admin whose registered credential signed the challenge. */
  ghost function Signer(env: Env, s: State, challengeId: string, response: string): Option<AdminId> {
    var challenge := Get(s.store.challenges, challengeId, s.store.now);
    if challenge.None? then None
    else
      var credential := env.assertion(challenge.value, response);
      if credential.Some? && credential.value in s.passkeys then Some(s.passkeys[credential.value]) else None
  }

  ghost function PasskeyFinishStep(env: Env, s: State, e: Event): (r: (State, Response))
    requires e.PasskeyFinish?
    ensures r.0 == s.WithChallenges(r.0.store.challenges).WithSessions(r.0.store.sessions)
  {
    var admin := Signer(env, s, e.challengeId, e.credential);
    if e.limited || e.challengeId == "" || e.credential == "" || admin.None? then (s, Rejected)
    else OpenSession(s.WithChallenges(Drop(s.store.challenges, e.challengeId)), admin.value, e.draw)
  }

  /** `email` is the form value after trimming.  The answer does not tell whether a link was sent. */
  ghost function MagicRequestStep(s: State, e: Event): (r: (State, Response))
    requires e.MagicRequest?
    ensures r.0 == s.WithLinks(r.0.store.magicLinks, r.0.store.magicLinkUsers)
  {
    var admin := First(ByEmail(s.accounts, e.email));
    if e.limited || e.email == "" then (s, Rejected)
    else if admin.None? || !s.accounts[admin.value].magicLinkEnabled then (s, LinkNotice)
    else (StoreMagicLink(s, admin.value, e.draw), LinkNotice)
  }

  ghost function MagicVerifyStep(s: State, e: Event): (r: (State, Response))
    requires e.MagicVerify?
    ensures r.0 == s.WithLinks(r.0.store.magicLinks, r.0.store.magicLinkUsers).WithSessions(r.0.store.sessions)
  {
    var admin := Get(s.store.magicLinks, e.token, s.store.now);
    if e.token == "" || admin.None? then (s, Rejected)
    else if admin.value in s.accounts then OpenSession(DropMagicLink(s, e.token), admin.value, e.draw)
    else (DropMagicLink(s, e.token), Rejected)
  }

  /** A GET behind the session and CSRF middleware. */
  ghost function PageStep(s: State, cookie: string, draw: string): (r: (State, Response))
    ensures r.0 == s.WithCsrf(r.0.store.csrf)
  {
    if SessionOwner(s, cookie).None? then (s, Rejected)
    else (EnsureCsrf(s, cookie, draw).0, PageServed(EnsureCsrf(s, cookie, draw).1))
  }

  /** Logging out is a GET, so the middleware runs first; the CSRF entry is left behind. */
  ghost function LogoutStep(s: State, e: Event): (r: (State, Response))
    requires e.Logout?
    ensures r.0 == s.WithCsrf(r.0.store.csrf).WithSessions(r.0.store.sessions)
  {
    if SessionOwner(s, e.cookie).None? then (s, Rejected)
    else (PageStep(s, e.cookie, e.draw).0.WithSessions(Drop(s.store.sessions, e.cookie)), LoggedOut)
  }

  ghost predicate EmailTaken(accounts: Accounts, admin: AdminId, email: string) {
    exists id :: id in accounts && id != admin && accounts[id].email == email
  }

  ghost function ActionStep(env: Env, s: State, admin: AdminId, action: Action): (r: (State, Response))
    requires admin in s.accounts
    ensures r.0 == State(r.0.accounts, s.store, s.passkeys, s.sessionHours).WithTempSecrets(r.0.store.tempSecrets)
  {
    var account := s.accounts[admin];
    match action
    case UpdateEmail(email) =>
      if email == "" || EmailTaken(s.accounts, admin, email) then (s, Rejected)
      else (s.WithAccount(admin, account.(email := email)), Accepted)
    case ChangePassword(current, replacement, confirmation, newHash) =>
      if current == "" || |replacement| < MIN_PASSWORD_LENGTH || replacement != confirmation
         || !env.passwordMatches(account.passwordHash, current) || newHash.None?
      then (s, Rejected)
      else (s.WithAccount(admin, account.(passwordHash := newHash.value)), Accepted)
    case GenerateTOTP(secret) =>
      (s.WithTempSecrets(Put(s.store.tempSecrets, admin, secret, TEMP_SECRET_TTL, s.store.now)), Accepted)
    case VerifyTOTP(code, codes) =>
      var secret := Get(s.store.tempSecrets, admin, s.store.now);
      if code == "" || secret.None? || !env.totpValid(code, secret.value, s.store.now) then (s, Rejected)
      else
        var enabled := account.(twoFAEnabled := true, twoFAMethod := METHOD_TOTP, twoFASecret := secret.value,
                                recoveryCodes := Some(codes));
        (s.WithAccount(admin, enabled).WithTempSecrets(Drop(s.store.tempSecrets, admin)), CodesShown(codes))
    case EnableEmail2FA(codes) =>
      if account.email == "" then (s, Rejected)
      else
        (s.WithAccount(admin, account.(twoFAEnabled := true, twoFAMethod := METHOD_EMAIL, twoFASecret := "",
                                        recoveryCodes := Some(codes))),
         CodesShown(codes))
    case Disable2FA(password) =>
      if password == "" || !env.passwordMatches(account.passwordHash, password) then (s, Rejected)
      else
        (s.WithAccount(admin, account.(twoFAEnabled := false, twoFAMethod := "", twoFASecret := "",
                                        recoveryCodes := Some([]))),
         Accepted)
    case RegenerateCodes(password, codes) =>
      if password == "" || !account.twoFAEnabled || !env.passwordMatches(account.passwordHash, password)
      then (s, Rejected)
      else (s.WithAccount(admin, account.(recoveryCodes := Some(codes))), CodesShown(codes))
    case ToggleMagicLink =>
      if !account.magicLinkEnabled && account.email == "" then (s, Rejected)
      else (s.WithAccount(admin, account.(magicLinkEnabled := !account.magicLinkEnabled)), Accepted)
    case SetBackupEmail(email) =>
      if email == "" then (s, Rejected)
      else (s.WithAccount(admin, account.(backupEmail := email, backupEmailVerified := false)), Accepted)
    case RemoveBackupEmail =>
      (s.WithAccount(admin, account.(backupEmail := "", backupEmailVerified := false)), Accepted)
  }

  ghost function PostStep(env: Env, s: State, e: Event): (r: (State, Response))
    requires e.Post?
    ensures r.0 == State(r.0.accounts, s.store, s.passkeys, s.sessionHours).WithTempSecrets(r.0.store.tempSecrets)
  {
    var admin := SessionOwner(s, e.cookie);
    if admin.None? || !CsrfAccepts(s, e.cookie, e.csrf) then (s, Rejected)
    else ActionStep(env, s, admin.value, e.action)
  }

  ghost function Step(env: Env, s: State, e: Event): (State, Response) {
    match e
    case Tick(seconds) => (s.WithStore(s.store.(now := s.store.now + seconds)), Silent)
    case Configure(hours) => (s.(sessionHours := hours), Silent)
    case ReplacePasskeys(table) => (s.(passkeys := table), Silent)
    case Login(_, _, _, _, _) => LoginStep(env, s, e)
    case TwoFAVerify(_, _, _, _, _) => TwoFAVerifyStep(env, s, e)
    case TwoFAResend(_, _) => TwoFAResendStep(s, e)
    case PasskeyBegin(_, _, _) => PasskeyBeginStep(s, e)
    case PasskeyFinish(_, _, _, _) => PasskeyFinishStep(env, s, e)
    case MagicRequest(_, _, _) => MagicRequestStep(s, e)
    case MagicVerify(_, _) => MagicVerifyStep(s, e)
    case Page(cookie, draw) => PageStep(s, cookie, draw)
    case Logout(_, _) => LogoutStep(s, e)
    case Post(_, _, _) => PostStep(env, s, e)
  }
}
