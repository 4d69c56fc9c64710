/** What runs keep about the account rows: the two-factor invariants, who may change a row, where a
    TOTP secret comes from, and the conservation of recovery codes. */
module AdminAccounts {
  import opened Wrappers
  import opened TtlStore
  import opened AdminProtocol
  import opened AdminRuns
  import opened AdminProvenance

  // ----- row invariants -----

  ghost predicate SoundAccount(a: Account) {
    && (a.twoFAEnabled ==>
          && (a.twoFAMethod == METHOD_TOTP || a.twoFAMethod == METHOD_EMAIL)
          && (a.twoFAMethod == METHOD_TOTP ==> a.twoFASecret != "")
          && (a.twoFAMethod == METHOD_EMAIL ==> a.email != "" && a.twoFASecret == "")
          && a.recoveryCodes.Some? && |a.recoveryCodes.value| <= RECOVERY_CODE_COUNT)
    && (!a.twoFAEnabled ==> a.twoFASecret == "" && a.twoFAMethod == "")
    && (a.magicLinkEnabled ==> a.email != "")
  }

  /** Every row is sound, and a pending TOTP secret is never empty. */
  ghost predicate Sound(s: State) {
    && (forall id :: id in s.accounts ==> SoundAccount(s.accounts[id]))
    && (forall id :: id in s.store.tempSecrets ==> s.store.tempSecrets[id].value != "")
  }

  lemma {:induction false} RemoveFirstShrinks(codes: seq<string>, code: string)
    ensures var rest := RemoveFirst(codes, code);
            rest.Some? ==> |rest.value| + 1 == |codes| && multiset(codes) == multiset(rest.value) + multiset{code}
  {
    if codes != [] {
      assert codes == [codes[0]] + codes[1..];
      if codes[0] != code {
        RemoveFirstShrinks(codes[1..], code);
      }
    }
  }

  lemma VerifyAccounts(env: Env, s: State, e: Event)
    requires e.TwoFAVerify?
    ensures var (s', answer) := TwoFAVerifyStep(env, s, e);
            || s'.accounts == s.accounts
            || (e.useRecovery && answer.SessionOpened? && answer.admin in s.accounts
                && var account := s.accounts[answer.admin];
                   && account.twoFAEnabled && account.recoveryCodes.Some?
                   && var rest := RemoveFirst(account.recoveryCodes.value, e.code);
                      && rest.Some?
                      && s'.accounts == s.accounts[answer.admin := account.(recoveryCodes := rest)])
  {
  }

  lemma ActionKeepsSound(env: Env, s: State, admin: AdminId, action: Action)
    requires Sound(s) && admin in s.accounts
    ensures Sound(ActionStep(env, s, admin, action).0)
  {
  }

  /** Every step keeps every row sound. */
  lemma StepKeepsSound(env: Env, s: State, e: Event)
    requires Sound(s)
    ensures Sound(Step(env, s, e).0)
  {
    hide LoginStep, TwoFAVerifyStep, TwoFAResendStep, PasskeyBeginStep, PasskeyFinishStep, MagicRequestStep;
    hide MagicVerifyStep, PageStep, LogoutStep;
    hide ActionStep;
    match e
    case TwoFAVerify(_, code, _, _, _) =>
      VerifyAccounts(env, s, e);
      var answer := TwoFAVerifyStep(env, s, e).1;
      if answer.SessionOpened? && answer.admin in s.accounts && s.accounts[answer.admin].recoveryCodes.Some? {
        RemoveFirstShrinks(s.accounts[answer.admin].recoveryCodes.value, code);
      }
    case Post(cookie, _, action) =>
      var admin := SessionOwner(s, cookie);
      if admin.Some? { ActionKeepsSound(env, s, admin.value, action); }
    case _ =>
  }

  lemma {:induction false} AccountsStaySound(r: Run, n: nat)
    requires Sound(r.start) && n <= |r.events|
    ensures Sound(r.At(n))
    decreases n
  {
    hide Step;
    if n > 0 {
      AccountsStaySound(r, n - 1);
      StepKeepsSound(r.env, r.At(n - 1), r.events[n - 1]);
    }
  }

  // ----- who may change a row -----

  /** Event i is a request carrying the admin's live session and that session's CSRF token. */
  ghost predicate ActsAs(s: State, e: Event, admin: AdminId) {
    e.Post? && SessionOwner(s, e.cookie) == Some(admin) && CsrfAccepts(s, e.cookie, e.csrf)
  }

  /** Event i used up one recovery code of the admin to open a session. */
  ghost predicate SpendsRecoveryCode(env: Env, s: State, e: Event, admin: AdminId) {
    e.TwoFAVerify? && e.useRecovery && Step(env, s, e).1 == SessionOpened(e.draw, admin)
  }

  lemma ActionTouchesOneRow(env: Env, s: State, admin: AdminId, action: Action)
    requires admin in s.accounts
    ensures var s' := ActionStep(env, s, admin, action).0;
            && s'.accounts.Keys == s.accounts.Keys
            && forall id :: id in s.accounts && id != admin ==> s'.accounts[id] == s.accounts[id]
  {
  }

  /** A row changes only by its owner's authenticated request or by spending one of its recovery codes;
      no row is added or removed. */
  lemma OnlyOwnerChangesRow(env: Env, s: State, e: Event, id: AdminId)
    requires id in s.accounts
    ensures var s' := Step(env, s, e).0;
            && s'.accounts.Keys == s.accounts.Keys
            && (s'.accounts[id] == s.accounts[id] || ActsAs(s, e, id)
                || (SpendsRecoveryCode(env, s, e, id)
                    && s'.accounts[id] == s.accounts[id].(recoveryCodes := s'.accounts[id].recoveryCodes)))
  {
    hide LoginStep, TwoFAVerifyStep, TwoFAResendStep, PasskeyBeginStep, PasskeyFinishStep, MagicRequestStep;
    hide MagicVerifyStep, PageStep, LogoutStep;
    hide ActionStep;
    match e
    case TwoFAVerify(_, _, _, _, _) =>
      VerifyAccounts(env, s, e);
      StepSessions(env, s, e);
    case Post(cookie, _, action) =>
      var admin := SessionOwner(s, cookie);
      if admin.Some? { ActionTouchesOneRow(env, s, admin.value, action); }
    case _ =>
  }

  /** Whoever changes a row logged in for it: the event that changes it either spends a recovery code at a
      login entitled to that admin, or carries a session cookie that an earlier entitled login opened for that
      admin and that has not been logged out since. */
  lemma RowChangeTracesToLogin(r: Run, i: nat, admin: AdminId) returns (j: nat)
    requires ColdStart(r.start) && Fresh(r.events) && i < |r.events| && admin in r.At(i).accounts
    requires admin in r.At(i + 1).accounts ==> r.At(i + 1).accounts[admin] != r.At(i).accounts[admin]
    ensures j <= i && Entitled(r, j, admin)
    ensures if j == i then SpendsRecoveryCode(r.env, r.At(i), r.events[i], admin)
            else && ActsAs(r.At(i), r.events[i], admin)
                 && r.Answer(j) == SessionOpened(r.events[i].cookie, admin)
                 && forall k :: j < k < i ==> !LogsOut(r, k, r.events[i].cookie)
  {
    hide Step;
    var s, e := r.At(i), r.events[i];
    OnlyOwnerChangesRow(r.env, s, e, admin);
    if ActsAs(s, e, admin) {
      j := SessionProvenance(r, i, e.cookie, admin);
    } else {
      OpeningIsEntitled(r, i, e.draw, admin);
      j := i;
    }
  }

  // ----- where a TOTP secret comes from -----

  ghost predicate GeneratesSecret(r: Run, j: nat, admin: AdminId, secret: string)
    requires j < |r.events|
  {
    var e := r.events[j];
    ActsAs(r.At(j), e, admin) && e.action.GenerateTOTP? && e.action.secret == secret
  }

  ghost predicate ConfirmsSecret(r: Run, j: nat, admin: AdminId, secret: string)
    requires j < |r.events|
  {
    var e := r.events[j];
    ActsAs(r.At(j), e, admin) && e.action.VerifyTOTP? && r.env.totpValid(e.action.code, secret, r.Now(j))
  }

  /** Event e replaces or uses up the secret the admin is setting up. */
  ghost predicate TouchesSecret(env: Env, s: State, e: Event, admin: AdminId) {
    && ActsAs(s, e, admin)
    && (e.action.GenerateTOTP? || (e.action.VerifyTOTP? && !Step(env, s, e).1.Rejected?))
  }

  lemma ActionSecrets(env: Env, s: State, admin: AdminId, action: Action, other: AdminId)
    requires admin in s.accounts
    ensures var (s', answer) := ActionStep(env, s, admin, action);
            if other == admin && action.GenerateTOTP? then
              admin in s'.store.tempSecrets
              && s'.store.tempSecrets[admin] == Entry(action.secret, s.store.now + TEMP_SECRET_TTL)
            else if other == admin && action.VerifyTOTP? && !answer.Rejected? then admin !in s'.store.tempSecrets
            else SameAt(s.store.tempSecrets, s'.store.tempSecrets, other)
  {
  }

  lemma StepSecretsOnFile(env: Env, s: State, e: Event, admin: AdminId)
    ensures var after := Step(env, s, e).0.store.tempSecrets;
            if !TouchesSecret(env, s, e, admin) then SameAt(s.store.tempSecrets, after, admin)
            else if e.action.GenerateTOTP? then
              admin in after && after[admin] == Entry(e.action.secret, s.store.now + TEMP_SECRET_TTL)
            else admin !in after
  {
    hide LoginStep, TwoFAVerifyStep, TwoFAResendStep, PasskeyBeginStep, PasskeyFinishStep, MagicRequestStep;
    hide MagicVerifyStep, PageStep, LogoutStep;
    hide ActionStep;
    if e.Post? && SessionOwner(s, e.cookie).Some? {
      ActionSecrets(env, s, SessionOwner(s, e.cookie).value, e.action, admin);
    }
  }

  /** The admin generated the secret at event g and has neither replaced nor confirmed it before event n. */
  ghost predicate SecretPending(r: Run, g: nat, n: nat, admin: AdminId, secret: string)
    requires g < |r.events| && n <= |r.events|
  {
    && GeneratesSecret(r, g, admin, secret)
    && forall k :: g < k < n ==> !TouchesSecret(r.env, r.At(k), r.events[k], admin)
  }

  lemma {:induction false} PendingOrigin(r: Run, n: nat, admin: AdminId) returns (g: nat)
    requires ColdStart(r.start) && n <= |r.events| && admin in r.At(n).store.tempSecrets
    ensures g < n && SecretPending(r, g, n, admin, r.At(n).store.tempSecrets[admin].value)
    ensures r.At(n).store.tempSecrets[admin].expiry == r.Now(g) + TEMP_SECRET_TTL
    decreases n
  {
    hide Step;
    StepSecretsOnFile(r.env, r.At(n - 1), r.events[n - 1], admin);
    if TouchesSecret(r.env, r.At(n - 1), r.events[n - 1], admin) {
      g := n - 1;
    } else {
      g := PendingOrigin(r, n - 1, admin);
    }
  }

  lemma {:induction false} PendingStays(r: Run, g: nat, n: nat, admin: AdminId, secret: string)
    requires g < n <= |r.events| && SecretPending(r, g, n, admin, secret)
    ensures admin in r.At(n).store.tempSecrets
    ensures r.At(n).store.tempSecrets[admin] == Entry(secret, r.Now(g) + TEMP_SECRET_TTL)
    decreases n
  {
    hide Step;
    StepSecretsOnFile(r.env, r.At(n - 1), r.events[n - 1], admin);
    if g == n - 1 {
      assert TouchesSecret(r.env, r.At(g), r.events[g], admin);
    } else {
      PendingStays(r, g, n - 1, admin, secret);
      assert !TouchesSecret(r.env, r.At(n - 1), r.events[n - 1], admin);
    }
  }

  lemma ActionSecret(env: Env, s: State, admin: AdminId, action: Action)
    requires admin in s.accounts
    ensures var account := ActionStep(env, s, admin, action).0.accounts[admin];
            || account.twoFASecret == s.accounts[admin].twoFASecret
            || account.twoFASecret == ""
            || (action.VerifyTOTP? && env.totpValid(action.code, account.twoFASecret, s.store.now)
                && Get(s.store.tempSecrets, admin, s.store.now) == Some(account.twoFASecret))
  {
  }

  lemma StepSecretOfRow(env: Env, s: State, e: Event, admin: AdminId)
    requires admin in s.accounts
    ensures admin in Step(env, s, e).0.accounts
    ensures var secret := Step(env, s, e).0.accounts[admin].twoFASecret;
            || secret == s.accounts[admin].twoFASecret
            || secret == ""
            || (ActsAs(s, e, admin) && e.action.VerifyTOTP? && env.totpValid(e.action.code, secret, s.store.now)
                && Get(s.store.tempSecrets, admin, s.store.now) == Some(secret))
  {
    hide Step;
    OnlyOwnerChangesRow(env, s, e, admin);
    if ActsAs(s, e, admin) {
      StepOfAction(env, s, e, admin);
      hide ActionStep;
      ActionSecret(env, s, admin, e.action);
    }
  }

  lemma StepOfAction(env: Env, s: State, e: Event, admin: AdminId)
    requires ActsAs(s, e, admin)
    ensures admin in s.accounts && Step(env, s, e) == ActionStep(env, s, admin, e.action)
  {
    hide LoginStep, TwoFAVerifyStep, TwoFAResendStep, PasskeyBeginStep, PasskeyFinishStep, MagicRequestStep;
    hide MagicVerifyStep, PageStep, LogoutStep;
    hide ActionStep;
  }

  /** A secret in force was generated by its owner and confirmed by a valid code within ten minutes. */
  lemma {:induction false} SecretWasConfirmed(r: Run, n: nat, admin: AdminId) returns (g: nat, c: nat)
    requires ColdStart(r.start) && admin in r.start.accounts && r.start.accounts[admin].twoFASecret == ""
    requires n <= |r.events| && admin in r.At(n).accounts && r.At(n).accounts[admin].twoFASecret != ""
    ensures g < c < n
    ensures GeneratesSecret(r, g, admin, r.At(n).accounts[admin].twoFASecret)
    ensures ConfirmsSecret(r, c, admin, r.At(n).accounts[admin].twoFASecret)
    ensures r.Now(c) < r.Now(g) + TEMP_SECRET_TTL
    decreases n
  {
    hide Step;
    SameRows(r, n - 1);
    StepSecretOfRow(r.env, r.At(n - 1), r.events[n - 1], admin);
    if r.At(n - 1).accounts[admin].twoFASecret == r.At(n).accounts[admin].twoFASecret {
      g, c := SecretWasConfirmed(r, n - 1, admin);
    } else {
      c := n - 1;
      g := PendingOrigin(r, n - 1, admin);
    }
  }

  // ----- conservation of recovery codes -----

  /** Event i replaces the admin's recovery codes: enabling, disabling or regenerating. */
  ghost predicate Issues(env: Env, s: State, e: Event, admin: AdminId) {
    && ActsAs(s, e, admin) && !Step(env, s, e).1.Rejected?
    && (e.action.VerifyTOTP? || e.action.EnableEmail2FA? || e.action.Disable2FA? || e.action.RegenerateCodes?)
  }

  /** The recovery codes the admin spent in events m..n, oldest first. */
  ghost function Spent(r: Run, m: nat, n: nat, admin: AdminId): seq<string>
    requires m <= n <= |r.events|
    decreases n
  {
    if m == n then []
    else if SpendsRecoveryCode(r.env, r.At(n - 1), r.events[n - 1], admin)
    then Spent(r, m, n - 1, admin) + [r.events[n - 1].code]
    else Spent(r, m, n - 1, admin)
  }

  /** `part` keeps the order of `whole`. */
  ghost predicate IsSubsequence(part: seq<string>, whole: seq<string>) {
    if part == [] then true
    else if whole == [] then false
    else if part[0] == whole[0] then IsSubsequence(part[1..], whole[1..])
    else IsSubsequence(part, whole[1..])
  }

  lemma ActionCodes(env: Env, s: State, admin: AdminId, action: Action)
    requires admin in s.accounts
    ensures var (s', answer) := ActionStep(env, s, admin, action);
            || answer.Rejected?
            || action.VerifyTOTP? || action.EnableEmail2FA? || action.Disable2FA? || action.RegenerateCodes?
            || s'.accounts[admin].recoveryCodes == s.accounts[admin].recoveryCodes
    ensures ActionStep(env, s, admin, action).1.Rejected? ==> ActionStep(env, s, admin, action).0 == s
  {
  }

  lemma StepCodes(env: Env, s: State, e: Event, admin: AdminId)
    requires admin in s.accounts && !Issues(env, s, e, admin)
    ensures admin in Step(env, s, e).0.accounts
    ensures var after := Step(env, s, e).0.accounts[admin].recoveryCodes;
            if SpendsRecoveryCode(env, s, e, admin)
            then s.accounts[admin].recoveryCodes.Some? && after.Some?
                 && after == RemoveFirst(s.accounts[admin].recoveryCodes.value, e.code)
            else after == s.accounts[admin].recoveryCodes
  {
    OnlyOwnerChangesRow(env, s, e, admin);
    hide Step;
    if ActsAs(s, e, admin) {
      StepOfAction(env, s, e, admin);
      ActionCodes(env, s, admin, e.action);
    } else if SpendsRecoveryCode(env, s, e, admin) {
      RecoverySpends(env, s, e, admin);
    }
  }

  lemma RecoverySpends(env: Env, s: State, e: Event, admin: AdminId)
    requires SpendsRecoveryCode(env, s, e, admin)
    ensures admin in s.accounts && s.accounts[admin].recoveryCodes.Some?
    ensures var rest := RemoveFirst(s.accounts[admin].recoveryCodes.value, e.code);
            rest.Some? && Step(env, s, e).0.accounts == s.accounts[admin := s.accounts[admin].(recoveryCodes := rest)]
  {
    hide LoginStep, TwoFAResendStep, PasskeyBeginStep, PasskeyFinishStep, MagicRequestStep, MagicVerifyStep;
    hide PageStep, LogoutStep, PostStep;
  }

  lemma {:induction false} SubsequenceRefl(s: seq<string>)
    ensures IsSubsequence(s, s)
  {
    if s != [] { SubsequenceRefl(s[1..]); }
  }

  lemma {:induction false} SubsequenceTail(part: seq<string>, whole: seq<string>)
    requires part != [] && IsSubsequence(part, whole)
    ensures IsSubsequence(part[1..], whole)
    decreases whole
  {
    if part[0] != whole[0] { SubsequenceTail(part, whole[1..]); }
    if |part| > 1 && part[1] == whole[0] { SubsequenceTail(part[1..], whole[1..]); }
  }

  lemma {:induction false} SubsequenceTrans(a: seq<string>, b: seq<string>, c: seq<string>)
    requires IsSubsequence(a, b) && IsSubsequence(b, c)
    ensures IsSubsequence(a, c)
    decreases c
  {
    if a != [] {
      if b[0] != c[0] {
        SubsequenceTrans(a, b, c[1..]);
        SubsequenceSkip(a, c);
      } else if a[0] == b[0] {
        SubsequenceTrans(a[1..], b[1..], c[1..]);
      } else {
        SubsequenceTrans(a, b[1..], c[1..]);
      }
    }
  }

  lemma SubsequenceSkip(a: seq<string>, c: seq<string>)
    requires a != [] && c != [] && IsSubsequence(a, c[1..])
    ensures IsSubsequence(a, c)
  {
    SubsequenceTail(a, c[1..]);
  }

  lemma {:induction false} RemoveFirstKeepsOrder(codes: seq<string>, code: string)
    ensures var rest := RemoveFirst(codes, code);
            rest.Some? ==> IsSubsequence(rest.value, codes)
  {
    if codes != [] {
      if codes[0] == code {
        if codes[1..] != [] {
          SubsequenceRefl(codes[1..]);
          SubsequenceSkip(codes[1..], codes);
        }
      } else {
        RemoveFirstKeepsOrder(codes[1..], code);
        var rest := RemoveFirst(codes[1..], code);
        if rest.Some? {
          assert ([codes[0]] + rest.value)[1..] == rest.value;
        }
      }
    }
  }

  /** Between two issues the codes at hand are those issued minus those spent, in the issued order. */
  lemma {:induction false} RecoveryCodesConserved(r: Run, m: nat, n: nat, admin: AdminId)
    requires m <= n <= |r.events| && admin in r.At(m).accounts && r.At(m).accounts[admin].recoveryCodes.Some?
    requires forall i :: m <= i < n ==> !Issues(r.env, r.At(i), r.events[i], admin)
    ensures admin in r.At(n).accounts && r.At(n).accounts[admin].recoveryCodes.Some?
    ensures var issued := r.At(m).accounts[admin].recoveryCodes.value;
            var left := r.At(n).accounts[admin].recoveryCodes.value;
            && multiset(issued) == multiset(left) + multiset(Spent(r, m, n, admin))
            && |issued| == |left| + |Spent(r, m, n, admin)|
            && IsSubsequence(left, issued)
    decreases n
  {
    hide Step;
    var issued := r.At(m).accounts[admin].recoveryCodes.value;
    if m == n {
      SubsequenceRefl(issued);
    } else {
      RecoveryCodesConserved(r, m, n - 1, admin);
      var before := r.At(n - 1).accounts[admin].recoveryCodes.value;
      StepCodes(r.env, r.At(n - 1), r.events[n - 1], admin);
      var left := r.At(n).accounts[admin].recoveryCodes.value;
      if SpendsRecoveryCode(r.env, r.At(n - 1), r.events[n - 1], admin) {
        var code := r.events[n - 1].code;
        RemoveFirstShrinks(before, code);
        RemoveFirstKeepsOrder(before, code);
        SubsequenceTrans(left, before, issued);
      }
    }
  }

  lemma ActionIssues(env: Env, s: State, admin: AdminId, action: Action)
    requires admin in s.accounts && !ActionStep(env, s, admin, action).1.Rejected?
    requires action.VerifyTOTP? || action.EnableEmail2FA? || action.Disable2FA? || action.RegenerateCodes?
    ensures var codes := ActionStep(env, s, admin, action).0.accounts[admin].recoveryCodes;
            codes.Some? && |codes.value| == if action.Disable2FA? then 0 else RECOVERY_CODE_COUNT
  {
  }

  /** At most eight recovery logins succeed on one issue of codes. */
  lemma AtMostEightPerIssue(r: Run, i: nat, n: nat, admin: AdminId)
    requires i < n <= |r.events| && Issues(r.env, r.At(i), r.events[i], admin)
    requires forall k :: i < k < n ==> !Issues(r.env, r.At(k), r.events[k], admin)
    ensures |Spent(r, i + 1, n, admin)| <= RECOVERY_CODE_COUNT
  {
    hide Step;
    hide ActionStep;
    StepOfAction(r.env, r.At(i), r.events[i], admin);
    ActionIssues(r.env, r.At(i), admin, r.events[i].action);
    OnlyOwnerChangesRow(r.env, r.At(i), r.events[i], admin);
    RecoveryCodesConserved(r, i + 1, n, admin);
  }

  // ----- refusals -----

  lemma ActionRefusal(env: Env, s: State, admin: AdminId, action: Action)
    requires admin in s.accounts && ActionStep(env, s, admin, action).1.Rejected?
    ensures ActionStep(env, s, admin, action).0 == s
  {
  }

  /** An e-mail login that cannot be sent its code: only the temporary token was stored. */
  ghost predicate ParkedUnsent(env: Env, s: State, e: Event, s': State) {
    && e.Login? && !e.limited
    && var admin := Authenticated(env, s.accounts, e.username, e.password);
       && admin.Some?
       && var a := s.accounts[admin.value];
          && a.twoFAEnabled && a.twoFAMethod == METHOD_EMAIL && a.email == ""
          && s' == s.WithTempSessions(Put(s.store.tempSessions, e.draw, admin.value, TEMP_SESSION_TTL, s.store.now))
  }

  /** A link to a vanished account: only the link was spent. */
  ghost predicate SpentOnNobody(s: State, e: Event, s': State) {
    && e.MagicVerify?
    && var admin := Get(s.store.magicLinks, e.token, s.store.now);
       admin.Some? && admin.value !in s.accounts && s' == DropMagicLink(s, e.token)
  }

  /** One refused step, from any state at all, leaves everything as it was but for two cases: an e-mail login that
      cannot be sent its code has already parked a temporary token, and a link to a vanished account is spent.
      `RefusalsChangeNothing` shows that no run over sound rows meets either. */
  lemma RefusalChangesNothing(env: Env, s: State, e: Event)
    requires Step(env, s, e).1.Rejected?
    ensures var s' := Step(env, s, e).0;
            s' == s || ParkedUnsent(env, s, e, s') || SpentOnNobody(s, e, s')
  {
    hide ActionStep, CheckSecondFactor, DropMagicLink, StoreMagicLink, EnsureCsrf;
    if e.Post? && SessionOwner(s, e.cookie).Some? && CsrfAccepts(s, e.cookie, e.csrf) {
      ActionRefusal(env, s, SessionOwner(s, e.cookie).value, e.action);
    }
  }

  /** Refused at the end of a run from a cold start over sound rows, a request changes nothing. */
  lemma RefusedAfter(r: Run, e: Event)
    requires ColdStart(r.start) && Sound(r.start)
    requires Step(r.env, r.At(|r.events|), e).1.Rejected?
    ensures Step(r.env, r.At(|r.events|), e).0 == r.At(|r.events|)
  {
    hide Step, DropMagicLink;
    var n := |r.events|;
    var s := r.At(n);
    RefusalChangesNothing(r.env, s, e);
    AccountsStaySound(r, n);
    if SpentOnNobody(s, e, Step(r.env, s, e).0) {
      var j := LinkOrigin(r, n, e.token);
      SameRows(r, n);
      SameRows(r, j);
      assert false;
    }
  }

  /** In a run from a cold start over sound rows, a refused request changes nothing. */
  lemma RefusalsChangeNothing(r: Run, i: nat)
    requires ColdStart(r.start) && Sound(r.start) && i < |r.events| && r.Answer(i).Rejected?
    ensures r.At(i + 1) == r.At(i)
  {
    hide Step;
    var upTo := Run(r.env, r.start, r.events[..i]);
    SamePrefix(r, i, i);
    RefusedAfter(upTo, r.events[i]);
  }

  lemma {:induction false} SamePrefix(r: Run, i: nat, n: nat)
    requires n <= i <= |r.events|
    ensures Run(r.env, r.start, r.events[..i]).At(n) == r.At(n)
  {
    hide Step;
    if n > 0 { SamePrefix(r, i, n - 1); }
  }
}
