/** The services and handlers behind the admin pages, in the layers the program has: a Redis client and
    an account table, the account service over them, and the request handlers over the service.  Every
    handler is proved to take exactly the protocol step of its event. */
module AdminGui {
  import opened Wrappers
  import opened TtlStore
  import opened AdminProtocol
  import opened AdminRuns

  /** The Redis keyspaces of the admin pages; writes and deletes are reliable. */
  class RedisClient {
    var now: nat
    var sessions: TtlMap<string, AdminId>
    var csrf: TtlMap<string, string>
    var tempSessions: TtlMap<string, AdminId>
    var tempSecrets: TtlMap<AdminId, string>
    var emailCodes: TtlMap<AdminId, string>
    var magicLinks: TtlMap<string, AdminId>
    var magicLinkUsers: TtlMap<AdminId, string>
    var challenges: TtlMap<string, string>

    ghost function View(): Store
      reads this
    {
      Store(now, sessions, csrf, tempSessions, tempSecrets, emailCodes, magicLinks, magicLinkUsers, challenges)
    }

    constructor ()
      ensures View() == Store(0, map[], map[], map[], map[], map[], map[], map[], map[])
    {
      now := 0;
      sessions, csrf, tempSessions, tempSecrets := map[], map[], map[], map[];
      emailCodes, magicLinks, magicLinkUsers, challenges := map[], map[], map[], map[];
    }

    /** Invalidates the link mailed before, if it is still live, then stores the new one both ways. */
    method SetAdminMagicLinkToken(admin: AdminId, token: string, ttl: nat)
      modifies `magicLinks, `magicLinkUsers
      ensures var previous := Get(old(magicLinkUsers), admin, now);
              magicLinks == Put(if previous.Some? && previous.value != "" then Drop(old(magicLinks), previous.value)
                                else old(magicLinks), token, admin, ttl, now)
      ensures magicLinkUsers == Put(old(magicLinkUsers), admin, token, ttl, now)
    {
      var previous := Get(magicLinkUsers, admin, now);
      if previous.Some? && previous.value != "" {
        magicLinks := Drop(magicLinks, previous.value);
      }
      magicLinks := Put(magicLinks, token, admin, ttl, now);
      magicLinkUsers := Put(magicLinkUsers, admin, token, ttl, now);
    }

    method DeleteAdminMagicLinkToken(token: string)
      modifies `magicLinks, `magicLinkUsers
      ensures magicLinks == Drop(old(magicLinks), token)
      ensures var owner := Get(old(magicLinks), token, now);
              magicLinkUsers == if owner.Some? then Drop(old(magicLinkUsers), owner.value) else old(magicLinkUsers)
    {
      var owner := Get(magicLinks, token, now);
      if owner.Some? {
        magicLinkUsers := Drop(magicLinkUsers, owner.value);
      }
      magicLinks := Drop(magicLinks, token);
    }
  }

  /** The admin_accounts table. */
  class AccountRepository {
    var rows: Accounts

    constructor (rows: Accounts)
      ensures this.rows == rows
    {
      this.rows := rows;
    }

    /** The first, in primary-key order, of the rows whose ids are listed. */
    static method FirstOf(ids: set<AdminId>) returns (r: Option<AdminId>)
      ensures r == First(ids)
    {
      r := None;
      var rest := ids;
      while rest != {}
        invariant rest <= ids
        invariant r.None? ==> rest == ids
        invariant r.Some? ==> r.value in ids && forall x :: x in ids ==> x in rest || r.value <= x
        decreases rest
      {
        var x :| x in rest;
        if r.None? || x < r.value {
          r := Some(x);
        }
        rest := rest - {x};
      }
    }

    method GetByUsernameOrEmail(identifier: string) returns (r: Option<AdminId>)
      ensures r == First(ByUsernameOrEmail(rows, identifier))
    {
      r := FirstOf(set id | id in rows && (rows[id].username == identifier || rows[id].email == identifier));
    }

    method GetByEmail(email: string) returns (r: Option<AdminId>)
      ensures r == First(ByEmail(rows, email))
    {
      r := FirstOf(set id | id in rows && rows[id].email == email);
    }

    method GetByID(id: AdminId) returns (r: Option<Account>)
      ensures r == if id in rows then Some(rows[id]) else None
    {
      r := if id in rows then Some(rows[id]) else None;
    }

    /** UPDATE ... WHERE id: no matching row is not an error. */
    method Update(id: AdminId, row: Account)
      modifies this
      ensures rows == if id in old(rows) then old(rows)[id := row] else old(rows)
    {
      if id in rows {
        rows := rows[id := row];
      }
    }

    /** Refused when another row holds the address (unique index). */
    method UpdateEmail(id: AdminId, email: string) returns (ok: bool)
      requires id in rows
      modifies this
      ensures ok <==> !EmailTaken(old(rows), id, email)
      ensures rows == if ok then old(rows)[id := old(rows)[id].(email := email)] else old(rows)
    {
      ok := forall other :: other in rows && other != id ==> rows[other].email != email;
      if ok {
        Update(id, rows[id].(email := email));
      }
    }

    method Enable2FA(id: AdminId, twoFAMethod: string, secret: string, codes: seq<string>)
      requires id in rows
      modifies this
      ensures rows == old(rows)[id := old(rows)[id].(twoFAEnabled := true, twoFAMethod := twoFAMethod,
                                                     twoFASecret := secret, recoveryCodes := Some(codes))]
    {
      Update(id, rows[id].(twoFAEnabled := true, twoFAMethod := twoFAMethod, twoFASecret := secret,
                           recoveryCodes := Some(codes)));
    }

    method Disable2FA(id: AdminId)
      requires id in rows
      modifies this
      ensures rows == old(rows)[id := old(rows)[id].(twoFAEnabled := false, twoFAMethod := "", twoFASecret := "",
                                                     recoveryCodes := Some([]))]
    {
      Update(id, rows[id].(twoFAEnabled := false, twoFAMethod := "", twoFASecret := "", recoveryCodes := Some([])));
    }

    method UpdateRecoveryCodes(id: AdminId, codes: seq<string>)
      requires id in rows
      modifies this
      ensures rows == old(rows)[id := old(rows)[id].(recoveryCodes := Some(codes))]
    {
      Update(id, rows[id].(recoveryCodes := Some(codes)));
    }
  }

  class AccountService {
    const repo: AccountRepository
    const redis: RedisClient
    const env: Env
    var sessionHours: int
    var passkeys: map<string, AdminId>

    constructor (env: Env, rows: Accounts, hours: int)
      ensures fresh(repo) && fresh(redis) && this.env == env
      ensures View() == State(rows, Store(0, map[], map[], map[], map[], map[], map[], map[], map[]), map[], hours)
    {
      this.env := env;
      repo := new AccountRepository(rows);
      redis := new RedisClient();
      sessionHours, passkeys := hours, map[];
    }

    ghost function View(): State
      reads this, repo, redis
    {
      State(repo.rows, redis.View(), passkeys, sessionHours)
    }

    // ----- sessions -----

    method Authenticate(identifier: string, password: string) returns (r: Option<AdminId>)
      ensures r == Authenticated(env, repo.rows, identifier, password)
    {
      r := repo.GetByUsernameOrEmail(identifier);
      if r.Some? && !env.passwordMatches(repo.rows[r.value].passwordHash, password) {
        r := None;
      }
    }

    method CreateSession(admin: AdminId, draw: string) returns (sid: string)
      modifies redis`sessions
      ensures sid == draw
      ensures redis.sessions == Put(old(redis.sessions), sid, admin, SessionTtl(sessionHours), redis.now)
    {
      sid := draw;
      redis.sessions := Put(redis.sessions, sid, admin, SessionTtl(sessionHours), redis.now);
    }

    method Create2FATempSession(admin: AdminId, draw: string) returns (tempToken: string)
      modifies redis`tempSessions
      ensures tempToken == draw
      ensures redis.tempSessions == Put(old(redis.tempSessions), tempToken, admin, TEMP_SESSION_TTL, redis.now)
    {
      tempToken := draw;
      redis.tempSessions := Put(redis.tempSessions, tempToken, admin, TEMP_SESSION_TTL, redis.now);
    }

    method Validate2FATempSession(tempToken: string) returns (r: Option<AdminId>)
      ensures r == TempOwner(View(), tempToken)
    {
      if tempToken == "" { return None; }
      r := Get(redis.tempSessions, tempToken, redis.now);
      if r.Some? {
        var account := repo.GetByID(r.value);
        if account.None? { r := None; }
      }
    }

    /** Validates, then deletes the token, so that it cannot be replayed. */
    method Consume2FATempSession(tempToken: string) returns (r: Option<AdminId>)
      modifies redis`tempSessions
      ensures r == old(TempOwner(View(), tempToken))
      ensures redis.tempSessions
              == if r.Some? then Drop(old(redis.tempSessions), tempToken) else old(redis.tempSessions)
    {
      r := Validate2FATempSession(tempToken);
      if r.Some? {
        redis.tempSessions := Drop(redis.tempSessions, tempToken);
      }
    }

    method ValidateSession(cookie: string) returns (r: Option<AdminId>)
      ensures r == SessionOwner(View(), cookie)
    {
      if cookie == "" { return None; }
      r := Get(redis.sessions, cookie, redis.now);
      if r.Some? {
        var account := repo.GetByID(r.value);
        if account.None? { r := None; }
      }
    }

    method GenerateCSRFToken(sid: string, draw: string) returns (token: string)
      modifies redis`csrf
      ensures (View(), token) == EnsureCsrf(old(View()), sid, draw)
    {
      var existing := Get(redis.csrf, sid, redis.now);
      if existing.Some? && existing.value != "" {
        return existing.value;
      }
      token := draw;
      redis.csrf := Put(redis.csrf, sid, token, SessionTtl(sessionHours), redis.now);
    }

    method ValidateCSRFToken(sid: string, token: string) returns (ok: bool)
      ensures ok <==> CsrfAccepts(View(), sid, token)
    {
      if sid == "" || token == "" { return false; }
      var stored := Get(redis.csrf, sid, redis.now);
      ok := stored.Some? && stored.value == token;
    }

    // ----- second factors -----

    method GenerateAndSendEmail2FACode(admin: AdminId, code: string) returns (ok: bool)
      requires admin in repo.rows
      modifies redis`emailCodes
      ensures ok <==> repo.rows[admin].email != ""
      ensures View() == MailCode(old(View()), admin, code)
    {
      if repo.rows[admin].email == "" { return false; }
      redis.emailCodes := Put(redis.emailCodes, admin, code, EMAIL_CODE_TTL, redis.now);
      ok := true;
    }

    method VerifyEmail2FACode(admin: AdminId, code: string) returns (ok: bool)
      modifies redis`emailCodes
      ensures ok <==> UseEmailCode(old(View()), admin, code).Some?
      ensures View() == UseEmailCode(old(View()), admin, code).GetOr(old(View()))
    {
      var stored := Get(redis.emailCodes, admin, redis.now);
      ok := stored.Some? && stored.value == code;
      if ok {
        redis.emailCodes := Drop(redis.emailCodes, admin);
      }
    }

    method VerifyTOTPCode(admin: AdminId, code: string) returns (ok: bool)
      requires admin in repo.rows
      ensures ok <==> TotpAccepts(env, View(), admin, code)
    {
      var account := repo.rows[admin];
      ok := account.twoFAEnabled && account.twoFASecret != "" && env.totpValid(code, account.twoFASecret, redis.now);
    }

    /** Looks the code up and splices its first occurrence out of the stored list. */
    method VerifyRecoveryCode(admin: AdminId, code: string) returns (ok: bool)
      requires admin in repo.rows
      modifies repo
      ensures ok <==> UseRecoveryCode(old(View()), admin, code).Some?
      ensures View() == UseRecoveryCode(old(View()), admin, code).GetOr(old(View()))
    {
      var account := repo.rows[admin];
      if !account.twoFAEnabled || account.recoveryCodes.None? { return false; }
      var stored := account.recoveryCodes.value;
      var codes := stored;
      var found := false;
      for i := 0 to |stored|
        invariant !found && codes == stored
        invariant code !in stored[..i]
      {
        if codes[i] == code {
          codes := codes[..i] + codes[i + 1..];
          found := true;
          RemoveFirstAt(stored, i, code);
          break;
        }
      }
      if !found {
        assert stored[..|stored|] == stored;
        RemoveFirstAbsent(stored, code);
        return false;
      }
      repo.UpdateRecoveryCodes(admin, codes);
      ok := true;
    }

    static method GenerateRecoveryCodes(count: nat, random: seq<string>) returns (codes: seq<string>)
      requires |random| == count
      ensures codes == random
    {
      var filled := new string[count];
      for i := 0 to count
        invariant filled[..i] == random[..i]
      {
        filled[i] := random[i];
      }
      codes := filled[..];
    }

    // ----- two-factor life cycle -----

    method VerifyTOTPSetup(admin: AdminId, code: string) returns (ok: bool)
      ensures var secret := Get(redis.tempSecrets, admin, redis.now);
              ok <==> secret.Some? && env.totpValid(code, secret.value, redis.now)
    {
      var secret := Get(redis.tempSecrets, admin, redis.now);
      ok := secret.Some? && env.totpValid(code, secret.value, redis.now);
    }

    method EnableTOTP(admin: AdminId, random: CodeBatch) returns (r: Option<seq<string>>)
      requires admin in repo.rows
      modifies repo, redis`tempSecrets
      ensures r == if Get(old(redis.tempSecrets), admin, redis.now).Some? then Some(random) else None
      ensures var account := old(repo.rows)[admin];
              repo.rows == if r.None? then old(repo.rows)
                           else old(repo.rows)[admin := account.(twoFAEnabled := true, twoFAMethod := METHOD_TOTP,
                                  twoFASecret := Get(old(redis.tempSecrets), admin, redis.now).value,
                                  recoveryCodes := Some(random))]
      ensures redis.tempSecrets == if r.None? then old(redis.tempSecrets) else Drop(old(redis.tempSecrets), admin)
    {
      var secret := Get(redis.tempSecrets, admin, redis.now);
      if secret.None? { return None; }
      var codes := GenerateRecoveryCodes(RECOVERY_CODE_COUNT, random);
      repo.Enable2FA(admin, METHOD_TOTP, secret.value, codes);
      redis.tempSecrets := Drop(redis.tempSecrets, admin);
      r := Some(codes);
    }

    method EnableEmail2FA(admin: AdminId, random: CodeBatch) returns (r: Option<seq<string>>)
      requires admin in repo.rows
      modifies repo
      ensures r == if old(repo.rows)[admin].email != "" then Some(random) else None
      ensures repo.rows == if r.None? then old(repo.rows)
                           else old(repo.rows)[admin := old(repo.rows)[admin].(twoFAEnabled := true,
                                  twoFAMethod := METHOD_EMAIL, twoFASecret := "", recoveryCodes := Some(random))]
    {
      if repo.rows[admin].email == "" { return None; }
      var codes := GenerateRecoveryCodes(RECOVERY_CODE_COUNT, random);
      repo.Enable2FA(admin, METHOD_EMAIL, "", codes);
      r := Some(codes);
    }

    method Disable2FA(admin: AdminId, password: string) returns (ok: bool)
      requires admin in repo.rows
      modifies repo
      ensures ok <==> env.passwordMatches(old(repo.rows)[admin].passwordHash, password)
      ensures repo.rows == if !ok then old(repo.rows)
                           else old(repo.rows)[admin := old(repo.rows)[admin].(twoFAEnabled := false,
                                  twoFAMethod := "", twoFASecret := "", recoveryCodes := Some([]))]
    {
      ok := env.passwordMatches(repo.rows[admin].passwordHash, password);
      if ok { repo.Disable2FA(admin); }
    }

    method RegenerateRecoveryCodes(admin: AdminId, password: string, random: CodeBatch) returns (r: Option<seq<string>>)
      requires admin in repo.rows
      modifies repo
      ensures r.Some? <==> old(repo.rows)[admin].twoFAEnabled
                           && env.passwordMatches(old(repo.rows)[admin].passwordHash, password)
      ensures r.Some? ==> r.value == random
      ensures repo.rows == if r.None? then old(repo.rows)
                           else old(repo.rows)[admin := old(repo.rows)[admin].(recoveryCodes := Some(random))]
    {
      var account := repo.rows[admin];
      if !account.twoFAEnabled || !env.passwordMatches(account.passwordHash, password) { return None; }
      var codes := GenerateRecoveryCodes(RECOVERY_CODE_COUNT, random);
      repo.UpdateRecoveryCodes(admin, codes);
      r := Some(codes);
    }
  }

  /** The request handlers of the admin pages, with the session and CSRF middleware in front of them. */
  class GUIHandler {
    const service: AccountService

    constructor (service: AccountService)
      ensures this.service == service
    {
      this.service := service;
    }

    method LoginSubmit(e: Event) returns (answer: Response)
      requires e.Login?
      modifies service.redis
      ensures (service.View(), answer) == LoginStep(service.env, old(service.View()), e)
    {
      if e.limited || e.username == "" || e.password == "" { return Rejected; }
      var admin := service.Authenticate(e.username, e.password);
      if admin.None? { return Rejected; }
      var account := service.repo.rows[admin.value];
      if account.twoFAEnabled {
        var tempToken := service.Create2FATempSession(admin.value, e.draw);
        if account.twoFAMethod == METHOD_EMAIL {
          var sent := service.GenerateAndSendEmail2FACode(admin.value, e.emailCode);
          if !sent { return Rejected; }
        }
        return SecondFactor(tempToken, account.twoFAMethod);
      }
      var sid := service.CreateSession(admin.value, e.draw);
      answer := SessionOpened(sid, admin.value);
    }

    /** The form picks the verifier, whatever method the account is enrolled with. */
    method TwoFAVerifySubmit(e: Event) returns (answer: Response)
      requires e.TwoFAVerify?
      modifies service.redis, service.repo
      ensures (service.View(), answer) == TwoFAVerifyStep(service.env, old(service.View()), e)
    {
      if e.tempToken == "" || e.code == "" { return Rejected; }
      var admin := service.Validate2FATempSession(e.tempToken);
      if admin.None? { return Rejected; }
      var ok;
      if e.useRecovery {
        ok := service.VerifyRecoveryCode(admin.value, e.code);
      } else if e.factor == METHOD_EMAIL {
        ok := service.VerifyEmail2FACode(admin.value, e.code);
      } else {
        ok := service.VerifyTOTPCode(admin.value, e.code);
      }
      if !ok { return Rejected; }
      assert Some(service.View()) == CheckSecondFactor(service.env, old(service.View()), admin.value, e);
      var consumed := service.Consume2FATempSession(e.tempToken);
      var sid := service.CreateSession(admin.value, e.draw);
      answer := SessionOpened(sid, admin.value);
    }

    method TwoFAResendEmail(e: Event) returns (answer: Response)
      requires e.TwoFAResend?
      modifies service.redis
      ensures (service.View(), answer) == TwoFAResendStep(old(service.View()), e)
    {
      var admin := service.Validate2FATempSession(e.tempToken);
      if admin.None? { return Rejected; }
      var sent := service.GenerateAndSendEmail2FACode(admin.value, e.emailCode);
      answer := if sent then Accepted else Rejected;
    }

    method PasskeyLoginBegin(e: Event) returns (answer: Response)
      requires e.PasskeyBegin?
      modifies service.redis
      ensures (service.View(), answer) == PasskeyBeginStep(old(service.View()), e)
    {
      if e.limited { return Rejected; }
      var redis := service.redis;
      redis.challenges := Put(redis.challenges, e.draw, e.challenge, CHALLENGE_TTL, redis.now);
      answer := ChallengeIssued(e.draw);
    }

    method PasskeyLoginFinish(e: Event) returns (answer: Response)
      requires e.PasskeyFinish?
      modifies service.redis
      ensures (service.View(), answer) == PasskeyFinishStep(service.env, old(service.View()), e)
    {
      if e.limited || e.challengeId == "" || e.credential == "" { return Rejected; }
      var redis := service.redis;
      var challenge := Get(redis.challenges, e.challengeId, redis.now);
      if challenge.None? { return Rejected; }
      var signer := service.env.assertion(challenge.value, e.credential);
      if signer.None? || signer.value !in service.passkeys { return Rejected; }
      redis.challenges := Drop(redis.challenges, e.challengeId);
      var sid := service.CreateSession(service.passkeys[signer.value], e.draw);
      answer := SessionOpened(sid, service.passkeys[signer.value]);
    }

    /** The answer is the same whether or not a link was sent. */
    method MagicLinkLoginRequest(e: Event) returns (answer: Response)
      requires e.MagicRequest?
      modifies service.redis
      ensures (service.View(), answer) == MagicRequestStep(old(service.View()), e)
    {
      if e.limited || e.email == "" { return Rejected; }
      var admin := service.repo.GetByEmail(e.email);
      if admin.Some? {
        var account := service.repo.rows[admin.value];
        if account.magicLinkEnabled && account.email != "" {
          service.redis.SetAdminMagicLinkToken(admin.value, e.draw, MAGIC_LINK_TTL);
        }
      }
      answer := LinkNotice;
    }

    method MagicLinkLoginVerify(e: Event) returns (answer: Response)
      requires e.MagicVerify?
      modifies service.redis
      ensures (service.View(), answer) == MagicVerifyStep(old(service.View()), e)
    {
      if e.token == "" { return Rejected; }
      var admin := Get(service.redis.magicLinks, e.token, service.redis.now);
      if admin.None? { return Rejected; }
      service.redis.DeleteAdminMagicLinkToken(e.token);
      var account := service.repo.GetByID(admin.value);
      if account.None? { return Rejected; }
      var sid := service.CreateSession(admin.value, e.draw);
      answer := SessionOpened(sid, admin.value);
    }

    /** The middleware chain of a GET: session cookie, then the stable CSRF token for the page. */
    method ServePage(cookie: string, draw: string) returns (answer: Response)
      modifies service.redis`csrf
      ensures (service.View(), answer) == PageStep(old(service.View()), cookie, draw)
    {
      var admin := service.ValidateSession(cookie);
      if admin.None? { return Rejected; }
      var token := service.GenerateCSRFToken(cookie, draw);
      answer := PageServed(token);
    }

    method Logout(e: Event) returns (answer: Response)
      requires e.Logout?
      modifies service.redis
      ensures (service.View(), answer) == LogoutStep(old(service.View()), e)
    {
      var served := ServePage(e.cookie, e.draw);
      if served.Rejected? { return Rejected; }
      service.redis.sessions := Drop(service.redis.sessions, e.cookie);
      answer := LoggedOut;
    }

    // ----- my account -----

    method MyAccountChangePassword(admin: AdminId, action: Action) returns (answer: Response)
      requires action.ChangePassword? && admin in service.repo.rows
      modifies service.repo
      ensures (service.View(), answer) == ActionStep(service.env, old(service.View()), admin, action)
    {
      if action.current == "" || action.replacement == "" { return Rejected; }
      if |action.replacement| < MIN_PASSWORD_LENGTH || action.replacement != action.confirmation { return Rejected; }
      var account := service.repo.rows[admin];
      if !service.env.passwordMatches(account.passwordHash, action.current) || action.newHash.None? { return Rejected; }
      service.repo.Update(admin, account.(passwordHash := action.newHash.value));
      answer := Accepted;
    }

    method MyAccount2FAGenerateTOTP(admin: AdminId, action: Action) returns (answer: Response)
      requires action.GenerateTOTP? && admin in service.repo.rows
      modifies service.redis
      ensures (service.View(), answer) == ActionStep(service.env, old(service.View()), admin, action)
    {
      var redis := service.redis;
      redis.tempSecrets := Put(redis.tempSecrets, admin, action.secret, TEMP_SECRET_TTL, redis.now);
      answer := Accepted;
    }

    method MyAccount2FAVerifyTOTP(admin: AdminId, action: Action) returns (answer: Response)
      requires action.VerifyTOTP? && admin in service.repo.rows
      modifies service.repo, service.redis
      ensures (service.View(), answer) == ActionStep(service.env, old(service.View()), admin, action)
    {
      if action.code == "" { return Rejected; }
      var ok := service.VerifyTOTPSetup(admin, action.code);
      if !ok { return Rejected; }
      var codes := service.EnableTOTP(admin, action.codes);
      answer := if codes.Some? then CodesShown(codes.value) else Rejected;
    }

    method MyAccount2FAEnableEmail(admin: AdminId, action: Action) returns (answer: Response)
      requires action.EnableEmail2FA? && admin in service.repo.rows
      modifies service.repo
      ensures (service.View(), answer) == ActionStep(service.env, old(service.View()), admin, action)
    {
      var codes := service.EnableEmail2FA(admin, action.codes);
      answer := if codes.Some? then CodesShown(codes.value) else Rejected;
    }

    method MyAccount2FADisable(admin: AdminId, action: Action) returns (answer: Response)
      requires action.Disable2FA? && admin in service.repo.rows
      modifies service.repo
      ensures (service.View(), answer) == ActionStep(service.env, old(service.View()), admin, action)
    {
      if action.password == "" { return Rejected; }
      var ok := service.Disable2FA(admin, action.password);
      answer := if ok then Accepted else Rejected;
    }

    method MyAccount2FARegenerateCodes(admin: AdminId, action: Action) returns (answer: Response)
      requires action.RegenerateCodes? && admin in service.repo.rows
      modifies service.repo
      ensures (service.View(), answer) == ActionStep(service.env, old(service.View()), admin, action)
    {
      if action.password == "" { return Rejected; }
      var codes := service.RegenerateRecoveryCodes(admin, action.password, action.codes);
      answer := if codes.Some? then CodesShown(codes.value) else Rejected;
    }

    method MyAccountMagicLinkToggle(admin: AdminId, action: Action) returns (answer: Response)
      requires action.ToggleMagicLink? && admin in service.repo.rows
      modifies service.repo
      ensures (service.View(), answer) == ActionStep(service.env, old(service.View()), admin, action)
    {
      var account := service.repo.rows[admin];
      var newState := !account.magicLinkEnabled;
      if newState && account.email == "" { return Rejected; }
      service.repo.Update(admin, account.(magicLinkEnabled := newState));
      answer := Accepted;
    }

    /** The three handlers that set or clear an address. */
    method MyAccountAddresses(admin: AdminId, action: Action) returns (answer: Response)
      requires action.UpdateEmail? || action.SetBackupEmail? || action.RemoveBackupEmail?
      requires admin in service.repo.rows
      modifies service.repo
      ensures (service.View(), answer) == ActionStep(service.env, old(service.View()), admin, action)
    {
      var account := service.repo.rows[admin];
      match action
      case UpdateEmail(email) =>
        if email == "" { return Rejected; }
        var ok := service.repo.UpdateEmail(admin, email);
        answer := if ok then Accepted else Rejected;
      case SetBackupEmail(email) =>
        if email == "" { return Rejected; }
        service.repo.Update(admin, account.(backupEmail := email, backupEmailVerified := false));
        answer := Accepted;
      case RemoveBackupEmail =>
        service.repo.Update(admin, account.(backupEmail := "", backupEmailVerified := false));
        answer := Accepted;
    }

    /** The middleware chain of a state-changing request, then the handler its route names. */
    method Post(e: Event) returns (answer: Response)
      requires e.Post?
      modifies service.repo, service.redis
      ensures (service.View(), answer) == PostStep(service.env, old(service.View()), e)
    {
      hide ActionStep;
      var admin := service.ValidateSession(e.cookie);
      if admin.None? { return Rejected; }
      var genuine := service.ValidateCSRFToken(e.cookie, e.csrf);
      if !genuine { return Rejected; }
      match e.action
      case ChangePassword(_, _, _, _) => answer := MyAccountChangePassword(admin.value, e.action);
      case GenerateTOTP(_) => answer := MyAccount2FAGenerateTOTP(admin.value, e.action);
      case VerifyTOTP(_, _) => answer := MyAccount2FAVerifyTOTP(admin.value, e.action);
      case EnableEmail2FA(_) => answer := MyAccount2FAEnableEmail(admin.value, e.action);
      case Disable2FA(_) => answer := MyAccount2FADisable(admin.value, e.action);
      case RegenerateCodes(_, _) => answer := MyAccount2FARegenerateCodes(admin.value, e.action);
      case ToggleMagicLink => answer := MyAccountMagicLinkToggle(admin.value, e.action);
      case _ => answer := MyAccountAddresses(admin.value, e.action);
    }

    /** The requests of somebody who is not logged in. */
    method ServeLogin(e: Event) returns (answer: Response)
      requires e.Login? || e.TwoFAVerify? || e.TwoFAResend? || e.PasskeyBegin? || e.PasskeyFinish? || e.MagicRequest?
               || e.MagicVerify?
      modifies service, service.repo, service.redis
      ensures (service.View(), answer) == Step(service.env, old(service.View()), e)
    {
      hide LoginStep, TwoFAVerifyStep, TwoFAResendStep, PasskeyBeginStep, PasskeyFinishStep, MagicRequestStep;
      hide MagicVerifyStep, PageStep, LogoutStep, PostStep;
      match e
      case Login(_, _, _, _, _) => answer := LoginSubmit(e);
      case TwoFAVerify(_, _, _, _, _) => answer := TwoFAVerifySubmit(e);
      case TwoFAResend(_, _) => answer := TwoFAResendEmail(e);
      case PasskeyBegin(_, _, _) => answer := PasskeyLoginBegin(e);
      case PasskeyFinish(_, _, _, _) => answer := PasskeyLoginFinish(e);
      case MagicRequest(_, _, _) => answer := MagicLinkLoginRequest(e);
      case MagicVerify(_, _) => answer := MagicLinkLoginVerify(e);
    }

    /** One event of a run, carried out on the stores. */
    method Serve(e: Event) returns (answer: Response)
      modifies service, service.repo, service.redis
      ensures (service.View(), answer) == Step(service.env, old(service.View()), e)
    {
      hide LoginStep, TwoFAVerifyStep, TwoFAResendStep, PasskeyBeginStep, PasskeyFinishStep, MagicRequestStep;
      hide MagicVerifyStep, PageStep, LogoutStep, PostStep;
      match e
      case Tick(seconds) =>
        service.redis.now := service.redis.now + seconds;
        answer := Silent;
      case Configure(hours) =>
        service.sessionHours := hours;
        answer := Silent;
      case ReplacePasskeys(table) =>
        service.passkeys := table;
        answer := Silent;
      case Page(cookie, draw) => answer := ServePage(cookie, draw);
      case Logout(_, _) => answer := Logout(e);
      case Post(_, _, _) => answer := Post(e);
      case _ => answer := ServeLogin(e);
    }

    /** The handlers, served one event after the other, walk the run. */
    method ServeAll(events: seq<Event>) returns (answers: seq<Response>)
      modifies service, service.repo, service.redis
      ensures |answers| == |events|
      ensures var r := Run(service.env, old(service.View()), events);
              service.View() == r.At(|events|) && forall i :: 0 <= i < |events| ==> answers[i] == r.Answer(i)
    {
      hide Step;
      ghost var r := Run(service.env, service.View(), events);
      answers := [];
      for n := 0 to |events|
        invariant |answers| == n
        invariant service.View() == r.At(n)
        invariant forall i :: 0 <= i < n ==> answers[i] == r.Answer(i)
      {
        var answer := Serve(events[n]);
        answers := answers + [answer];
      }
    }
  }

  lemma {:induction false} RemoveFirstAt(codes: seq<string>, i: nat, code: string)
    requires i < |codes| && codes[i] == code && code !in codes[..i]
    ensures RemoveFirst(codes, code) == Some(codes[..i] + codes[i + 1..])
  {
    if i > 0 {
      assert codes[1..][..i - 1] == codes[..i][1..];
      assert codes[0] in codes[..i];
      RemoveFirstAt(codes[1..], i - 1, code);
      assert [codes[0]] + (codes[1..][..i - 1] + codes[1..][i..]) == codes[..i] + codes[i + 1..];
    } else {
      assert codes[..0] + codes[1..] == codes[1..];
    }
  }

  lemma {:induction false} RemoveFirstAbsent(codes: seq<string>, code: string)
    requires code !in codes
    ensures RemoveFirst(codes, code) == None
  {
    if codes != [] { RemoveFirstAbsent(codes[1..], code); }
  }
}
