/** Runs of the admin protocol, and how one step changes each Redis keyspace. */
module AdminRuns {
  import opened Wrappers
  import opened TtlStore
  import opened AdminProtocol

  /** A finite run: the events applied one after the other to a starting state. */
  datatype Run = Run(env: Env, start: State, events: seq<Event>) {
    ghost function At(i: nat): State
      requires i <= |events|
    {
      if i == 0 then start else Step(env, At(i - 1), events[i - 1]).0
    }

    ghost function Answer(i: nat): Response
      requires i < |events|
    {
      Step(env, At(i), events[i]).1
    }

    ghost function Now(i: nat): nat
      requires i <= |events|
    {
      At(i).store.now
    }
  }

  /** The unique random token an event draws, if it draws one. */
  function Drawn(e: Event): Option<string> {
    match e
    case Login(_, _, _, draw, _) => Some(draw)
    case TwoFAVerify(_, _, _, _, draw) => Some(draw)
    case PasskeyBegin(_, draw, _) => Some(draw)
    case PasskeyFinish(_, _, _, draw) => Some(draw)
    case MagicRequest(_, _, draw) => Some(draw)
    case MagicVerify(_, draw) => Some(draw)
    case Page(_, draw) => Some(draw)
    case Logout(_, draw) => Some(draw)
    case _ => None
  }

  /** No random token is ever drawn twice. */
  ghost predicate Fresh(events: seq<Event>) {
    forall i, j :: 0 <= i < j < |events| && Drawn(events[i]).Some? ==> Drawn(events[i]) != Drawn(events[j])
  }

  /** Redis is empty at the start; the accounts are arbitrary. */
  ghost predicate ColdStart(s: State) {
    && s.store.sessions == map[] && s.store.csrf == map[]
    && s.store.tempSessions == map[] && s.store.tempSecrets == map[]
    && s.store.emailCodes == map[]
    && s.store.magicLinks == map[] && s.store.magicLinkUsers == map[]
    && s.store.challenges == map[]
  }

  // ----- the clock -----

  lemma StepClock(env: Env, s: State, e: Event)
    ensures s.store.now <= Step(env, s, e).0.store.now
  {
    hide LoginStep, TwoFAVerifyStep, TwoFAResendStep, PasskeyBeginStep, PasskeyFinishStep, MagicRequestStep;
    hide MagicVerifyStep, PageStep, LogoutStep, PostStep;
  }

  lemma {:induction false} ClockMonotone(r: Run, i: nat, j: nat)
    requires i <= j <= |r.events|
    ensures r.Now(i) <= r.Now(j)
    decreases j
  {
    hide Step;
    if i < j {
      ClockMonotone(r, i, j - 1);
      StepClock(r.env, r.At(j - 1), r.events[j - 1]);
    }
  }

  // ----- one step, keyspace by keyspace -----

  lemma ActionAnswers(env: Env, s: State, admin: AdminId, action: Action)
    requires admin in s.accounts
    ensures var answer := ActionStep(env, s, admin, action).1;
            answer.Rejected? || answer.Accepted? || answer.CodesShown?
  {
  }

  lemma PostAnswers(env: Env, s: State, e: Event)
    requires e.Post?
    ensures var answer := PostStep(env, s, e).1;
            answer.Rejected? || answer.Accepted? || answer.CodesShown?
  {
    hide ActionStep;
    if SessionOwner(s, e.cookie).Some? {
      ActionAnswers(env, s, SessionOwner(s, e.cookie).value, e.action);
    }
  }

  /** Sessions appear only under an answer that opens one and disappear only by logging out. */
  lemma StepSessions(env: Env, s: State, e: Event)
    ensures var (s', answer) := Step(env, s, e);
            s'.store.sessions ==
            if answer.SessionOpened? then
              Put(s.store.sessions, answer.sid, answer.admin, SessionTtl(s.sessionHours), s.store.now)
            else if e.Logout? && answer.LoggedOut? then Drop(s.store.sessions, e.cookie)
            else s.store.sessions
    ensures var answer := Step(env, s, e).1;
            answer.SessionOpened? ==> Drawn(e) == Some(answer.sid) && !e.Logout?
  {
    hide PostStep;
    if e.Post? { PostAnswers(env, s, e); }
  }

  lemma ActionRows(env: Env, s: State, admin: AdminId, action: Action)
    requires admin in s.accounts
    ensures ActionStep(env, s, admin, action).0.accounts.Keys == s.accounts.Keys
  {
  }

  lemma VerifyRows(env: Env, s: State, e: Event)
    requires e.TwoFAVerify?
    ensures TwoFAVerifyStep(env, s, e).0.accounts.Keys == s.accounts.Keys
  {
  }

  /** No row appears or vanishes. */
  lemma StepRows(env: Env, s: State, e: Event)
    ensures Step(env, s, e).0.accounts.Keys == s.accounts.Keys
  {
    hide LoginStep, TwoFAVerifyStep, TwoFAResendStep, PasskeyBeginStep, PasskeyFinishStep, MagicRequestStep;
    hide MagicVerifyStep, PageStep, LogoutStep;
    hide ActionStep;
    if e.TwoFAVerify? { VerifyRows(env, s, e); }
    if e.Post? && SessionOwner(s, e.cookie).Some? { ActionRows(env, s, SessionOwner(s, e.cookie).value, e.action); }
  }

  lemma {:induction false} SameRows(r: Run, n: nat)
    requires n <= |r.events|
    ensures r.At(n).accounts.Keys == r.start.accounts.Keys
    decreases n
  {
    hide Step;
    if n > 0 {
      SameRows(r, n - 1);
      StepRows(r.env, r.At(n - 1), r.events[n - 1]);
    }
  }

  // ----- what a request means, read off the rows and the keys -----

  /** The admin is the first row, by id, with this user name or address. */
  ghost predicate Names(accounts: Accounts, identifier: string, admin: AdminId) {
    && admin in accounts && (accounts[admin].username == identifier || accounts[admin].email == identifier)
    && forall other :: other in accounts && other < admin ==>
         accounts[other].username != identifier && accounts[other].email != identifier
  }

  /** The admin is the first row, by id, with this address. */
  ghost predicate HasAddress(accounts: Accounts, email: string, admin: AdminId) {
    && admin in accounts && accounts[admin].email == email
    && forall other :: other in accounts && other < admin ==> accounts[other].email != email
  }

  /** A login form that names the admin and carries the admin's password. */
  ghost predicate PasswordLogin(env: Env, s: State, e: Event, admin: AdminId) {
    && e.Login? && !e.limited && e.username != "" && e.password != ""
    && Names(s.accounts, e.username, admin)
    && env.passwordMatches(s.accounts[admin].passwordHash, e.password)
  }

  lemma AuthenticatedIff(env: Env, accounts: Accounts, identifier: string, password: string, admin: AdminId)
    ensures Authenticated(env, accounts, identifier, password) == Some(admin) <==>
            Names(accounts, identifier, admin) && env.passwordMatches(accounts[admin].passwordHash, password)
  {
    var found := First(ByUsernameOrEmail(accounts, identifier));
    assert Names(accounts, identifier, admin) ==> admin in ByUsernameOrEmail(accounts, identifier);
    if found == Some(admin) {
      forall other | other in accounts && other < admin
        ensures accounts[other].username != identifier && accounts[other].email != identifier
      {
        assert other !in ByUsernameOrEmail(accounts, identifier);
      }
    }
  }

  lemma FirstByEmailIff(accounts: Accounts, email: string, admin: AdminId)
    ensures First(ByEmail(accounts, email)) == Some(admin) <==> HasAddress(accounts, email, admin)
  {
    var found := First(ByEmail(accounts, email));
    assert HasAddress(accounts, email, admin) ==> admin in ByEmail(accounts, email);
    if found == Some(admin) {
      forall other | other in accounts && other < admin ensures accounts[other].email != email {
        assert other !in ByEmail(accounts, email);
      }
    }
  }

  /** The token is a live temporary token of the admin. */
  ghost predicate Parked(s: State, tempToken: string, admin: AdminId) {
    tempToken != "" && Get(s.store.tempSessions, tempToken, s.store.now) == Some(admin) && admin in s.accounts
  }

  /** The password login that parks a temporary token. */
  ghost predicate Parks(env: Env, s: State, e: Event, admin: AdminId) {
    PasswordLogin(env, s, e, admin) && s.accounts[admin].twoFAEnabled
  }

  /** Event e, in state s, mails `code` to the admin. */
  ghost predicate Mails(env: Env, s: State, e: Event, admin: AdminId, code: string) {
    && admin in s.accounts && s.accounts[admin].email != ""
    && ((Parks(env, s, e, admin) && s.accounts[admin].twoFAMethod == METHOD_EMAIL && e.emailCode == code)
        || (e.TwoFAResend? && Parked(s, e.tempToken, admin) && e.emailCode == code))
  }

  /** The second factor of the submitted form is right for the admin, who holds the temporary token. */
  ghost predicate PassesFactor(env: Env, s: State, e: Event, admin: AdminId)
    requires e.TwoFAVerify? && admin in s.accounts
  {
    var account := s.accounts[admin];
    if e.useRecovery then
      account.twoFAEnabled && account.recoveryCodes.Some? && e.code in account.recoveryCodes.value
    else if e.factor == METHOD_EMAIL then Get(s.store.emailCodes, admin, s.store.now) == Some(e.code)
    else account.twoFAEnabled && account.twoFASecret != "" && env.totpValid(e.code, account.twoFASecret, s.store.now)
  }

  /** A registered credential of the admin signed the live challenge. */
  ghost predicate Signs(env: Env, s: State, challengeId: string, response: string, admin: AdminId) {
    var challenge := Get(s.store.challenges, challengeId, s.store.now);
    && challenge.Some?
    && var credential := env.assertion(challenge.value, response);
       credential.Some? && credential.value in s.passkeys && s.passkeys[credential.value] == admin
  }

  /** Event e, in state s, must open a session for the admin. */
  ghost predicate Opens(env: Env, s: State, e: Event, admin: AdminId) {
    match e
    case Login(_, _, _, _, _) => PasswordLogin(env, s, e, admin) && !s.accounts[admin].twoFAEnabled
    case TwoFAVerify(tempToken, code, _, _, _) =>
      code != "" && Parked(s, tempToken, admin) && PassesFactor(env, s, e, admin)
    case PasskeyFinish(limited, challengeId, credential, _) =>
      !limited && challengeId != "" && credential != "" && Signs(env, s, challengeId, credential, admin)
    case MagicVerify(token, _) =>
      token != "" && Get(s.store.magicLinks, token, s.store.now) == Some(admin) && admin in s.accounts
    case _ => false
  }

  lemma {:induction false} RemoveFirstFinds(codes: seq<string>, code: string)
    ensures RemoveFirst(codes, code).Some? <==> code in codes
  {
    if codes != [] { RemoveFirstFinds(codes[1..], code); }
  }

  lemma LoginOpensIff(env: Env, s: State, e: Event, admin: AdminId)
    requires e.Login?
    ensures LoginStep(env, s, e).1 == SessionOpened(e.draw, admin) <==> Opens(env, s, e, admin)
  {
    AuthenticatedIff(env, s.accounts, e.username, e.password, admin);
    hide Authenticated, Names;
  }

  lemma VerifyOpensIff(env: Env, s: State, e: Event, admin: AdminId)
    requires e.TwoFAVerify?
    ensures TwoFAVerifyStep(env, s, e).1 == SessionOpened(e.draw, admin) <==> Opens(env, s, e, admin)
  {
    if admin in s.accounts && s.accounts[admin].recoveryCodes.Some? {
      RemoveFirstFinds(s.accounts[admin].recoveryCodes.value, e.code);
    }
  }

  lemma FinishOpensIff(env: Env, s: State, e: Event, admin: AdminId)
    requires e.PasskeyFinish?
    ensures PasskeyFinishStep(env, s, e).1 == SessionOpened(e.draw, admin) <==> Opens(env, s, e, admin)
  {
  }

  lemma LinkOpensIff(s: State, e: Event, env: Env, admin: AdminId)
    requires e.MagicVerify?
    ensures MagicVerifyStep(s, e).1 == SessionOpened(e.draw, admin) <==> Opens(env, s, e, admin)
  {
    hide DropMagicLink;
  }

  /** A session opens for exactly the requests that must open one, under the token they drew. */
  lemma StepOpensIff(env: Env, s: State, e: Event, admin: AdminId)
    ensures Drawn(e).Some? && Step(env, s, e).1 == SessionOpened(Drawn(e).value, admin) <==> Opens(env, s, e, admin)
  {
    hide LoginStep, TwoFAVerifyStep, TwoFAResendStep, PasskeyBeginStep, PasskeyFinishStep, MagicRequestStep;
    hide MagicVerifyStep, PageStep, LogoutStep, PostStep;
    hide Opens;
    match e
    case Login(_, _, _, _, _) => LoginOpensIff(env, s, e, admin);
    case TwoFAVerify(_, _, _, _, _) => VerifyOpensIff(env, s, e, admin);
    case PasskeyFinish(_, _, _, _) => FinishOpensIff(env, s, e, admin);
    case MagicVerify(_, _) => LinkOpensIff(s, e, env, admin);
    case _ =>
      OthersOpenNothing(env, s, e);
      OpensKinds(env, s, e, admin);
  }

  lemma OpensKinds(env: Env, s: State, e: Event, admin: AdminId)
    ensures Opens(env, s, e, admin) ==> e.Login? || e.TwoFAVerify? || e.PasskeyFinish? || e.MagicVerify?
  {
  }

  lemma OthersOpenNothing(env: Env, s: State, e: Event)
    requires !e.Login? && !e.TwoFAVerify? && !e.PasskeyFinish? && !e.MagicVerify?
    ensures !Step(env, s, e).1.SessionOpened?
  {
    hide LoginStep, TwoFAVerifyStep, PasskeyFinishStep, MagicVerifyStep, PostStep;
    if e.Post? { PostAnswers(env, s, e); }
  }

  // ----- the temporary tokens -----

  /** Event e spends the temporary token on a session. */
  ghost predicate SpendsTemp(env: Env, s: State, e: Event, t: string) {
    e.TwoFAVerify? && e.tempToken == t && Step(env, s, e).1.SessionOpened?
  }

  lemma VerifyTemp(env: Env, s: State, e: Event)
    requires e.TwoFAVerify?
    ensures var (s', answer) := TwoFAVerifyStep(env, s, e);
            s'.store.tempSessions
            == if answer.SessionOpened? then Drop(s.store.tempSessions, e.tempToken) else s.store.tempSessions
  {
  }

  lemma LoginTemp(env: Env, s: State, e: Event, admin: AdminId)
    requires e.Login?
    ensures Parks(env, s, e, admin) ==>
              LoginStep(env, s, e).0.store.tempSessions
              == Put(s.store.tempSessions, e.draw, admin, TEMP_SESSION_TTL, s.store.now)
    ensures (forall a: AdminId :: !Parks(env, s, e, a)) ==>
              LoginStep(env, s, e).0.store.tempSessions == s.store.tempSessions
  {
    AuthenticatedIff(env, s.accounts, e.username, e.password, admin);
    var found := Authenticated(env, s.accounts, e.username, e.password);
    if found.Some? {
      AuthenticatedIff(env, s.accounts, e.username, e.password, found.value);
      assert !e.limited && e.username != "" && e.password != "" && s.accounts[found.value].twoFAEnabled ==>
        Parks(env, s, e, found.value);
    }
    hide ParkLogin, Authenticated, Names;
  }

  /** A step parks the token of a password login with two-factor on, drops the token it spends, and leaves all others
      alone. */
  lemma StepTemp(env: Env, s: State, e: Event, admin: AdminId)
    ensures var after := Step(env, s, e).0.store.tempSessions;
            && (Parks(env, s, e, admin) ==>
                  after == Put(s.store.tempSessions, e.draw, admin, TEMP_SESSION_TTL, s.store.now))
            && ((forall a: AdminId :: !Parks(env, s, e, a)) ==>
                  after == if e.TwoFAVerify? && Step(env, s, e).1.SessionOpened?
                           then Drop(s.store.tempSessions, e.tempToken) else s.store.tempSessions)
  {
    hide LoginStep, TwoFAVerifyStep, TwoFAResendStep, PasskeyBeginStep, PasskeyFinishStep, MagicRequestStep;
    hide MagicVerifyStep, PageStep, LogoutStep, PostStep;
    if e.Login? { LoginTemp(env, s, e, admin); }
    if e.TwoFAVerify? { VerifyTemp(env, s, e); }
    hide Parks;
    assert !e.Login? ==> forall a: AdminId :: !Parks(env, s, e, a) by {
      forall a: AdminId ensures Parks(env, s, e, a) ==> e.Login? { ParksIsLogin(env, s, e, a); }
    }
  }

  lemma ParksIsLogin(env: Env, s: State, e: Event, a: AdminId)
    ensures Parks(env, s, e, a) ==> e.Login?
  {
  }

  // ----- the mailed codes -----

  /** Event e opens a session on a mailed code of the admin. */
  ghost predicate SpendsCode(env: Env, s: State, e: Event, admin: AdminId) {
    && e.TwoFAVerify? && !e.useRecovery && e.factor == METHOD_EMAIL
    && Step(env, s, e).1 == SessionOpened(e.draw, admin)
  }

  /** Event e mails some code to the admin. */
  ghost predicate MailsTo(env: Env, s: State, e: Event, admin: AdminId) {
    (e.Login? || e.TwoFAResend?) && Mails(env, s, e, admin, e.emailCode)
  }

  lemma LoginCodes(env: Env, s: State, e: Event, admin: AdminId)
    requires e.Login?
    ensures MailsTo(env, s, e, admin) ==>
              admin in LoginStep(env, s, e).0.store.emailCodes
              && LoginStep(env, s, e).0.store.emailCodes[admin] == Entry(e.emailCode, s.store.now + EMAIL_CODE_TTL)
    ensures !MailsTo(env, s, e, admin) ==> SameAt(s.store.emailCodes, LoginStep(env, s, e).0.store.emailCodes, admin)
  {
    var found := Authenticated(env, s.accounts, e.username, e.password);
    AuthenticatedIff(env, s.accounts, e.username, e.password, admin);
    if found.Some? { AuthenticatedIff(env, s.accounts, e.username, e.password, found.value); }
    hide ParkLogin, Authenticated, Names;
  }

  lemma ResendCodes(env: Env, s: State, e: Event, admin: AdminId)
    requires e.TwoFAResend?
    ensures MailsTo(env, s, e, admin) ==>
              admin in TwoFAResendStep(s, e).0.store.emailCodes
              && TwoFAResendStep(s, e).0.store.emailCodes[admin] == Entry(e.emailCode, s.store.now + EMAIL_CODE_TTL)
    ensures !MailsTo(env, s, e, admin) ==> SameAt(s.store.emailCodes, TwoFAResendStep(s, e).0.store.emailCodes, admin)
  {
  }

  lemma VerifyCodes(env: Env, s: State, e: Event, admin: AdminId)
    requires e.TwoFAVerify?
    ensures var (s', answer) := TwoFAVerifyStep(env, s, e);
            if !e.useRecovery && e.factor == METHOD_EMAIL && answer == SessionOpened(e.draw, admin)
            then admin !in s'.store.emailCodes
            else SameAt(s.store.emailCodes, s'.store.emailCodes, admin)
  {
  }

  ghost predicate SameAt<K, V>(m: TtlMap<K, V>, m': TtlMap<K, V>, k: K) {
    (k in m <==> k in m') && (k in m ==> m[k] == m'[k])
  }

  /** A step stores the code it mails to the admin, drops the one the admin uses, and otherwise leaves the admin's code
      alone. */
  lemma StepCodesOnFile(env: Env, s: State, e: Event, admin: AdminId)
    ensures var after := Step(env, s, e).0.store.emailCodes;
            && (MailsTo(env, s, e, admin) ==>
                  admin in after && after[admin] == Entry(e.emailCode, s.store.now + EMAIL_CODE_TTL))
            && (SpendsCode(env, s, e, admin) ==> admin !in after)
            && (!MailsTo(env, s, e, admin) && !SpendsCode(env, s, e, admin) ==>
                  SameAt(s.store.emailCodes, after, admin))
  {
    hide LoginStep, TwoFAVerifyStep, TwoFAResendStep, PasskeyBeginStep, PasskeyFinishStep, MagicRequestStep;
    hide MagicVerifyStep, PageStep, LogoutStep, PostStep;
    hide Mails;
    if e.Login? { LoginCodes(env, s, e, admin); }
    if e.TwoFAVerify? { VerifyCodes(env, s, e, admin); }
    if e.TwoFAResend? { ResendCodes(env, s, e, admin); }
  }

  // ----- the passkey challenges -----

  /** Event e spends the challenge on a session. */
  ghost predicate SpendsChallenge(env: Env, s: State, e: Event, id: string) {
    e.PasskeyFinish? && e.challengeId == id && Step(env, s, e).1.SessionOpened?
  }

  ghost predicate IssuesChallenge(e: Event, id: string) {
    e.PasskeyBegin? && !e.limited && e.draw == id
  }

  lemma BeginChallenges(s: State, e: Event, id: string)
    requires e.PasskeyBegin?
    ensures var after := PasskeyBeginStep(s, e).0.store.challenges;
            if IssuesChallenge(e, id) then
              id in after && after[id] == Entry(e.challenge, s.store.now + CHALLENGE_TTL)
            else SameAt(s.store.challenges, after, id)
  {
    BeginPuts(s, e);
    hide PasskeyBeginStep;
  }

  lemma BeginPuts(s: State, e: Event)
    requires e.PasskeyBegin?
    ensures PasskeyBeginStep(s, e).0.store.challenges
            == if e.limited then s.store.challenges
               else Put(s.store.challenges, e.draw, e.challenge, CHALLENGE_TTL, s.store.now)
  {
    hide Put;
  }

  lemma FinishChallenges(env: Env, s: State, e: Event, id: string)
    requires e.PasskeyFinish?
    ensures var (s', answer) := PasskeyFinishStep(env, s, e);
            if e.challengeId == id && answer.SessionOpened? then id !in s'.store.challenges
            else SameAt(s.store.challenges, s'.store.challenges, id)
  {
  }

  lemma StepChallenges(env: Env, s: State, e: Event, id: string)
    ensures var after := Step(env, s, e).0.store.challenges;
            if IssuesChallenge(e, id) then
              id in after && after[id] == Entry(e.challenge, s.store.now + CHALLENGE_TTL)
            else if SpendsChallenge(env, s, e, id) then id !in after
            else SameAt(s.store.challenges, after, id)
  {
    hide LoginStep, TwoFAVerifyStep, TwoFAResendStep, PasskeyBeginStep, PasskeyFinishStep, MagicRequestStep;
    hide MagicVerifyStep, PageStep, LogoutStep, PostStep;
    if e.PasskeyBegin? { BeginChallenges(s, e, id); }
    if e.PasskeyFinish? { FinishChallenges(env, s, e, id); }
  }

  // ----- the magic links -----

  /** Event e, in state s, mails a magic link to an admin who has them switched on. */
  ghost predicate MailsLink(s: State, e: Event, token: string, admin: AdminId) {
    && e.MagicRequest? && !e.limited && e.draw == token
    && e.email != "" && HasAddress(s.accounts, e.email, admin) && s.accounts[admin].magicLinkEnabled
  }

  /** Event e takes the link back or spends it: a newer link goes to its admin, or it is followed while live. */
  ghost predicate RetiresLink(s: State, e: Event, token: string) {
    || (e.MagicVerify? && e.token == token && Get(s.store.magicLinks, token, s.store.now).Some?)
    || (e.MagicRequest? && exists admin: AdminId ::
          MailsLink(s, e, e.draw, admin) && Get(s.store.magicLinkUsers, admin, s.store.now) == Some(token))
  }

  /** The links once the admin's live previous one is dropped. */
  ghost function WithoutPrevious(s: State, admin: AdminId): TtlMap<string, AdminId> {
    var previous := Get(s.store.magicLinkUsers, admin, s.store.now);
    if previous.Some? && previous.value != "" then Drop(s.store.magicLinks, previous.value) else s.store.magicLinks
  }

  lemma StoredLinks(s: State, admin: AdminId, token: string)
    ensures StoreMagicLink(s, admin, token).store.magicLinks
            == Put(WithoutPrevious(s, admin), token, admin, MAGIC_LINK_TTL, s.store.now)
  {
    hide Put, Drop;
  }

  lemma RequestMails(s: State, e: Event, admin: AdminId)
    requires e.MagicRequest? && MailsLink(s, e, e.draw, admin)
    ensures MagicRequestStep(s, e).0.store.magicLinks
            == Put(WithoutPrevious(s, admin), e.draw, admin, MAGIC_LINK_TTL, s.store.now)
  {
    FirstByEmailIff(s.accounts, e.email, admin);
    StoredLinks(s, admin, e.draw);
    hide Put, Drop, First, ByEmail, HasAddress, StoreMagicLink, WithoutPrevious;
  }

  lemma RequestMailsNone(s: State, e: Event)
    requires e.MagicRequest? && forall admin: AdminId :: !MailsLink(s, e, e.draw, admin)
    ensures MagicRequestStep(s, e).0 == s
  {
    var found := First(ByEmail(s.accounts, e.email));
    if found.Some? {
      FirstByEmailIff(s.accounts, e.email, found.value);
      assert !MailsLink(s, e, e.draw, found.value);
    }
    hide First, ByEmail, HasAddress, StoreMagicLink;
  }

  lemma OneAddressee(s: State, e: Event, a: AdminId, b: AdminId)
    requires e.MagicRequest? && MailsLink(s, e, e.draw, a) && MailsLink(s, e, e.draw, b)
    ensures a == b
  {
  }

  lemma RequestLinks(s: State, e: Event, token: Token)
    requires e.MagicRequest?
    ensures var after := MagicRequestStep(s, e).0.store.magicLinks;
            && (forall admin: AdminId :: MailsLink(s, e, token, admin) ==>
                  token in after && after[token] == Entry(admin, s.store.now + MAGIC_LINK_TTL))
            && ((forall admin: AdminId :: !MailsLink(s, e, token, admin)) ==>
                  if RetiresLink(s, e, token) then token !in after else SameAt(s.store.magicLinks, after, token))
  {
    hide MagicRequestStep, HasAddress;
    if admin: AdminId :| MailsLink(s, e, e.draw, admin) {
      RequestMails(s, e, admin);
      forall other: AdminId | MailsLink(s, e, e.draw, other) ensures other == admin {
        OneAddressee(s, e, admin, other);
      }
    } else {
      RequestMailsNone(s, e);
    }
  }

  lemma VerifyLinks(s: State, e: Event, token: Token)
    requires e.MagicVerify?
    ensures var after := MagicVerifyStep(s, e).0.store.magicLinks;
            if RetiresLink(s, e, token) then token !in after else SameAt(s.store.magicLinks, after, token)
  {
    DroppedLinks(s, e.token);
    hide DropMagicLink;
  }

  lemma DroppedLinks(s: State, token: string)
    ensures DropMagicLink(s, token).store.magicLinks == Drop(s.store.magicLinks, token)
  {
  }

  /** A step stores the link it mails, removes the one it retires, and leaves every other alone. */
  lemma StepLinks(env: Env, s: State, e: Event, token: Token)
    ensures var after := Step(env, s, e).0.store.magicLinks;
            && (forall admin: AdminId :: MailsLink(s, e, token, admin) ==>
                  token in after && after[token] == Entry(admin, s.store.now + MAGIC_LINK_TTL))
            && ((forall admin: AdminId :: !MailsLink(s, e, token, admin)) ==>
                  if RetiresLink(s, e, token) then token !in after else SameAt(s.store.magicLinks, after, token))
  {
    hide LoginStep, TwoFAVerifyStep, TwoFAResendStep, PasskeyBeginStep, PasskeyFinishStep, MagicRequestStep;
    hide MagicVerifyStep, PageStep, LogoutStep, PostStep;
    if e.MagicRequest? { RequestLinks(s, e, token); }
    if e.MagicVerify? { VerifyLinks(s, e, token); }
  }

  /** Seen from one token: the step mails it, retires it, or leaves it alone. */
  lemma LinkStep(env: Env, s: State, e: Event, token: Token)
    ensures var (before, after) := (s.store.magicLinks, Step(env, s, e).0.store.magicLinks);
            || (token in after && MailsLink(s, e, token, after[token].value)
                && after[token].expiry == s.store.now + MAGIC_LINK_TTL)
            || (RetiresLink(s, e, token) && token !in after)
            || (!RetiresLink(s, e, token) && SameAt(before, after, token))
  {
    hide Step, HasAddress;
    StepLinks(env, s, e, token);
  }

  lemma RequestReverse(s: State, e: Event, admin: AdminId)
    requires e.MagicRequest?
    ensures var after := MagicRequestStep(s, e).0.store.magicLinkUsers;
            SameAt(s.store.magicLinkUsers, after, admin)
            || (admin in after && MailsLink(s, e, after[admin].value, admin))
  {
    FirstByEmailIff(s.accounts, e.email, admin);
    hide First, ByEmail, HasAddress;
  }

  lemma VerifyReverse(s: State, e: Event, admin: AdminId)
    requires e.MagicVerify?
    ensures var after := MagicVerifyStep(s, e).0.store.magicLinkUsers;
            SameAt(s.store.magicLinkUsers, after, admin) || admin !in after
  {
    VerifyUsers(s, e);
    hide MagicVerifyStep, DropMagicLink;
  }

  lemma VerifyUsers(s: State, e: Event)
    requires e.MagicVerify?
    ensures var owner := Get(s.store.magicLinks, e.token, s.store.now);
            MagicVerifyStep(s, e).0.store.magicLinkUsers
            == if e.token == "" || owner.None? then s.store.magicLinkUsers
               else Drop(s.store.magicLinkUsers, owner.value)
  {
    DroppedUsers(s, e.token);
    hide Drop, Put, DropMagicLink;
  }

  lemma DroppedUsers(s: State, token: string)
    ensures var owner := Get(s.store.magicLinks, token, s.store.now);
            DropMagicLink(s, token).store.magicLinkUsers
            == if owner.Some? then Drop(s.store.magicLinkUsers, owner.value) else s.store.magicLinkUsers
  {
    hide Drop;
  }

  /** The reverse entry of an admin changes when that admin is mailed a link, or goes. */
  lemma StepReverse(env: Env, s: State, e: Event, admin: AdminId)
    ensures var after := Step(env, s, e).0.store.magicLinkUsers;
            || SameAt(s.store.magicLinkUsers, after, admin) || admin !in after
            || MailsLink(s, e, after[admin].value, admin)
  {
    hide LoginStep, TwoFAVerifyStep, TwoFAResendStep, PasskeyBeginStep, PasskeyFinishStep, MagicRequestStep;
    hide MagicVerifyStep, PageStep, LogoutStep, PostStep;
    hide HasAddress;
    if e.MagicRequest? { RequestReverse(s, e, admin); }
    if e.MagicVerify? { VerifyReverse(s, e, admin); }
  }
}
