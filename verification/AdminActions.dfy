/** The requests of a logged-in admin, read off the rows and the events of a run: which are accepted, what each
    writes, and what a column therefore holds after any run. */
module AdminActions {
  import opened Wrappers
  import opened TtlStore
  import opened AdminProtocol
  import opened AdminRuns
  import opened AdminAccounts

  /** Event i is a request with the admin's live session and that session's CSRF token. */
  ghost predicate ActsAt(r: Run, i: nat, admin: AdminId)
    requires i < |r.events|
  {
    ActsAs(r.At(i), r.events[i], admin)
  }

  ghost function Row(r: Run, i: nat, admin: AdminId): Account
    requires i <= |r.events| && admin in r.At(i).accounts
  {
    r.At(i).accounts[admin]
  }

  // ----- which requests are accepted -----

  /** What the request at event i needs from the admin's row and from the run before it. */
  ghost predicate Warranted(r: Run, i: nat, admin: AdminId)
    requires i < |r.events| && r.events[i].Post? && admin in r.At(i).accounts
  {
    var row := Row(r, i, admin);
    match r.events[i].action
    case UpdateEmail(email) =>
      email != "" && forall other :: other in r.At(i).accounts && other != admin ==> Row(r, i, other).email != email
    case ChangePassword(current, replacement, confirmation, newHash) =>
      && current != "" && r.env.passwordMatches(row.passwordHash, current)
      && replacement == confirmation && |replacement| >= MIN_PASSWORD_LENGTH && newHash.Some?
    case GenerateTOTP(_) => true
    case VerifyTOTP(code, _) =>
      code != "" && exists g :: 0 <= g < i && r.events[g].Post? && r.events[g].action.GenerateTOTP?
                                && SecretPending(r, g, i, admin, r.events[g].action.secret)
                                && r.Now(i) < r.Now(g) + TEMP_SECRET_TTL
                                && r.env.totpValid(code, r.events[g].action.secret, r.Now(i))
    case EnableEmail2FA(_) => row.email != ""
    case Disable2FA(password) => password != "" && r.env.passwordMatches(row.passwordHash, password)
    case RegenerateCodes(password, _) =>
      password != "" && row.twoFAEnabled && r.env.passwordMatches(row.passwordHash, password)
    case ToggleMagicLink => row.magicLinkEnabled || row.email != ""
    case SetBackupEmail(email) => email != ""
    case RemoveBackupEmail => true
  }

  lemma ActionAccepts(env: Env, s: State, admin: AdminId, action: Action)
    requires admin in s.accounts
    ensures var row := s.accounts[admin];
            !ActionStep(env, s, admin, action).1.Rejected? <==>
            match action
            case UpdateEmail(email) =>
              email != "" && forall other :: other in s.accounts && other != admin ==> s.accounts[other].email != email
            case ChangePassword(current, replacement, confirmation, newHash) =>
              && current != "" && env.passwordMatches(row.passwordHash, current)
              && replacement == confirmation && |replacement| >= MIN_PASSWORD_LENGTH && newHash.Some?
            case GenerateTOTP(_) => true
            case VerifyTOTP(code, _) =>
              var secret := Get(s.store.tempSecrets, admin, s.store.now);
              code != "" && secret.Some? && env.totpValid(code, secret.value, s.store.now)
            case EnableEmail2FA(_) => row.email != ""
            case Disable2FA(password) => password != "" && env.passwordMatches(row.passwordHash, password)
            case RegenerateCodes(password, _) =>
              password != "" && row.twoFAEnabled && env.passwordMatches(row.passwordHash, password)
            case ToggleMagicLink => row.magicLinkEnabled || row.email != ""
            case SetBackupEmail(email) => email != ""
            case RemoveBackupEmail => true
  {
  }

  /** A request of the admin is accepted exactly when it is warranted. */
  lemma AcceptedIffWarranted(r: Run, i: nat, admin: AdminId)
    requires ColdStart(r.start) && i < |r.events| && ActsAt(r, i, admin)
    ensures admin in r.At(i).accounts && (!r.Answer(i).Rejected? <==> Warranted(r, i, admin))
  {
    var s, action := r.At(i), r.events[i].action;
    StepOfAction(r.env, s, r.events[i], admin);
    hide Step, ActionStep;
    ActionAccepts(r.env, s, admin, action);
    if action.VerifyTOTP? { PendingIff(r, i, admin, action.code); }
    hide SecretPending;
  }

  lemma PendingIff(r: Run, i: nat, admin: AdminId, code: string)
    requires ColdStart(r.start) && i < |r.events|
    ensures var secret := Get(r.At(i).store.tempSecrets, admin, r.Now(i));
            secret.Some? && r.env.totpValid(code, secret.value, r.Now(i)) <==>
            exists g :: 0 <= g < i && r.events[g].Post? && r.events[g].action.GenerateTOTP?
                        && SecretPending(r, g, i, admin, r.events[g].action.secret)
                        && r.Now(i) < r.Now(g) + TEMP_SECRET_TTL
                        && r.env.totpValid(code, r.events[g].action.secret, r.Now(i))
  {
    hide Step;
    var secret := Get(r.At(i).store.tempSecrets, admin, r.Now(i));
    if secret.Some? { var g := PendingOrigin(r, i, admin); }
    if g :| 0 <= g < i && r.events[g].Post? && r.events[g].action.GenerateTOTP?
            && SecretPending(r, g, i, admin, r.events[g].action.secret)
            && r.Now(i) < r.Now(g) + TEMP_SECRET_TTL
            && r.env.totpValid(code, r.events[g].action.secret, r.Now(i))
    {
      PendingStays(r, g, i, admin, r.events[g].action.secret);
    }
  }

  /** Without a live session of somebody and its CSRF token, a state-changing request is refused. */
  lemma StrangersAreRefused(r: Run, i: nat)
    requires i < |r.events| && r.events[i].Post? && forall admin :: !ActsAt(r, i, admin)
    ensures r.Answer(i).Rejected?
  {
    var s, e := r.At(i), r.events[i];
    hide LoginStep, TwoFAVerifyStep, TwoFAResendStep, PasskeyBeginStep, PasskeyFinishStep, MagicRequestStep;
    hide MagicVerifyStep, PageStep, LogoutStep;
    hide ActionStep;
    if SessionOwner(s, e.cookie).Some? { assert !ActsAt(r, i, SessionOwner(s, e.cookie).value); }
  }

  // ----- what an accepted request writes -----

  /** The groups of columns that requests write; recovery codes are accounted for separately. */
  datatype Column = UserName | Address | Password | TwoFactor | LinkFlag | Backup

  const BLANK := Account("", "", "", false, "", "", None, false, "", false)

  /** The row with every other column blanked out. */
  function Only(row: Account, column: Column): Account {
    match column
    case UserName => BLANK.(username := row.username)
    case Address => BLANK.(email := row.email)
    case Password => BLANK.(passwordHash := row.passwordHash)
    case TwoFactor =>
      BLANK.(twoFAEnabled := row.twoFAEnabled, twoFAMethod := row.twoFAMethod, twoFASecret := row.twoFASecret)
    case LinkFlag => BLANK.(magicLinkEnabled := row.magicLinkEnabled)
    case Backup => BLANK.(backupEmail := row.backupEmail, backupEmailVerified := row.backupEmailVerified)
  }

  /** The columns an action is for. */
  predicate Targets(action: Action, column: Column) {
    match column
    case UserName => false
    case Address => action.UpdateEmail?
    case Password => action.ChangePassword?
    case TwoFactor => action.VerifyTOTP? || action.EnableEmail2FA? || action.Disable2FA?
    case LinkFlag => action.ToggleMagicLink?
    case Backup => action.SetBackupEmail? || action.RemoveBackupEmail?
  }

  /** What an accepted action leaves in its own columns and answers. */
  ghost predicate Performed(action: Action, row: Account, row': Account, secret: string, answer: Response) {
    match action
    case UpdateEmail(email) => row'.email == email && answer == Accepted
    case ChangePassword(_, _, _, newHash) => newHash.Some? && row'.passwordHash == newHash.value && answer == Accepted
    case GenerateTOTP(_) => answer == Accepted
    case VerifyTOTP(_, codes) =>
      && row'.twoFAEnabled && row'.twoFAMethod == METHOD_TOTP && row'.twoFASecret == secret
      && row'.recoveryCodes == Some(codes) && answer == CodesShown(codes)
    case EnableEmail2FA(codes) =>
      && row'.twoFAEnabled && row'.twoFAMethod == METHOD_EMAIL && row'.twoFASecret == ""
      && row'.recoveryCodes == Some(codes) && answer == CodesShown(codes)
    case Disable2FA(_) =>
      && !row'.twoFAEnabled && row'.twoFAMethod == "" && row'.twoFASecret == ""
      && row'.recoveryCodes == Some([]) && answer == Accepted
    case RegenerateCodes(_, codes) => row'.recoveryCodes == Some(codes) && answer == CodesShown(codes)
    case ToggleMagicLink => row'.magicLinkEnabled == !row.magicLinkEnabled && answer == Accepted
    case SetBackupEmail(email) => row'.backupEmail == email && !row'.backupEmailVerified && answer == Accepted
    case RemoveBackupEmail => row'.backupEmail == "" && !row'.backupEmailVerified && answer == Accepted
  }

  predicate IssuesCodes(action: Action) {
    action.VerifyTOTP? || action.EnableEmail2FA? || action.Disable2FA? || action.RegenerateCodes?
  }

  lemma ActionPerforms(env: Env, s: State, admin: AdminId, action: Action)
    requires admin in s.accounts && !ActionStep(env, s, admin, action).1.Rejected?
    ensures var (s', answer) := ActionStep(env, s, admin, action);
            && s'.accounts == s.accounts[admin := s'.accounts[admin]]
            && Performed(action, s.accounts[admin], s'.accounts[admin],
                         Get(s.store.tempSecrets, admin, s.store.now).GetOr(""), answer)
            && (forall column :: !Targets(action, column) ==>
                  Only(s'.accounts[admin], column) == Only(s.accounts[admin], column))
            && (!IssuesCodes(action) ==> s'.accounts[admin].recoveryCodes == s.accounts[admin].recoveryCodes)
  {
  }

  /** Request i did what it is for; a TOTP setup put `secret` on the row, pending since an earlier request. */
  ghost predicate Did(r: Run, i: nat, admin: AdminId, secret: string)
    requires i < |r.events| && r.events[i].Post? && admin in r.At(i).accounts && admin in r.At(i + 1).accounts
  {
    && Performed(r.events[i].action, Row(r, i, admin), Row(r, i + 1, admin), secret, r.Answer(i))
    && (r.events[i].action.VerifyTOTP? ==> exists g :: 0 <= g < i && SecretPending(r, g, i, admin, secret))
  }

  lemma SecretIsPending(r: Run, i: nat, admin: AdminId)
    requires ColdStart(r.start) && i < |r.events| && admin in r.At(i).accounts
    requires Get(r.At(i).store.tempSecrets, admin, r.Now(i)).Some?
    ensures var secret := Get(r.At(i).store.tempSecrets, admin, r.Now(i)).value;
            exists g :: 0 <= g < i && SecretPending(r, g, i, admin, secret)
  {
    hide Step;
    var g := PendingOrigin(r, i, admin);
  }

  /** An accepted request does what it is for, leaves every other column of the row as it was, and changes no other
      row. */
  lemma AcceptedIsPerformed(r: Run, i: nat, admin: AdminId)
    requires ColdStart(r.start) && i < |r.events| && ActsAt(r, i, admin) && !r.Answer(i).Rejected?
    ensures admin in r.At(i).accounts && admin in r.At(i + 1).accounts
    ensures r.At(i + 1).accounts == r.At(i).accounts[admin := Row(r, i + 1, admin)]
    ensures exists secret :: Did(r, i, admin, secret)
    ensures forall column :: !Targets(r.events[i].action, column) ==>
              Only(Row(r, i + 1, admin), column) == Only(Row(r, i, admin), column)
    ensures !IssuesCodes(r.events[i].action) ==> Row(r, i + 1, admin).recoveryCodes == Row(r, i, admin).recoveryCodes
  {
    var s, action := r.At(i), r.events[i].action;
    StepOfAction(r.env, s, r.events[i], admin);
    hide Step, ActionStep, Only, Targets, Performed, SecretPending;
    ActionPerforms(r.env, s, admin, action);
    ActionAccepts(r.env, s, admin, action);
    var secret := Get(s.store.tempSecrets, admin, s.store.now);
    if action.VerifyTOTP? { SecretIsPending(r, i, admin); }
    assert Did(r, i, admin, secret.GetOr(""));
  }

  // ----- what a column holds after a run -----

  /** Event k is an accepted request of the admin for the column. */
  ghost predicate Writes(r: Run, k: nat, admin: AdminId, column: Column)
    requires k < |r.events|
  {
    ActsAt(r, k, admin) && !r.Answer(k).Rejected? && Targets(r.events[k].action, column)
  }

  lemma UnwrittenStays(r: Run, i: nat, admin: AdminId, column: Column)
    requires ColdStart(r.start) && i < |r.events| && admin in r.At(i).accounts && !Writes(r, i, admin, column)
    ensures admin in r.At(i + 1).accounts && Only(Row(r, i + 1, admin), column) == Only(Row(r, i, admin), column)
  {
    hide Step;
    OnlyOwnerChangesRow(r.env, r.At(i), r.events[i], admin);
    if ActsAt(r, i, admin) && !r.Answer(i).Rejected? {
      AcceptedIsPerformed(r, i, admin);
    } else if ActsAt(r, i, admin) {
      RefusalChangesNothing(r.env, r.At(i), r.events[i]);
    }
  }

  /** A column holds what the last accepted request for it left there, or its starting value if there was none. */
  lemma {:induction false} ColumnHistory(r: Run, n: nat, admin: AdminId, column: Column) returns (last: Option<nat>)
    requires ColdStart(r.start) && n <= |r.events| && admin in r.start.accounts
    ensures admin in r.At(n).accounts
    ensures last.Some? ==> last.value < n && Writes(r, last.value, admin, column)
    ensures forall k :: (if last.Some? then last.value + 1 else 0) <= k < n ==> !Writes(r, k, admin, column)
    ensures last.Some? ==> admin in r.At(last.value + 1).accounts
    ensures Only(Row(r, n, admin), column)
            == Only(if last.Some? then Row(r, last.value + 1, admin) else r.start.accounts[admin], column)
    decreases n
  {
    hide Step, Only, Writes;
    if n == 0 {
      last := None;
    } else {
      last := ColumnHistory(r, n - 1, admin, column);
      if Writes(r, n - 1, admin, column) {
        last := Some(n - 1);
        SameRows(r, n);
      } else {
        UnwrittenStays(r, n - 1, admin, column);
      }
    }
  }

  /** The password hash in force is the starting one, or the one of the last accepted change of password.  That change
      carried the password in force before it and a replacement, typed twice, of at least eight characters, and it
      changed nothing else on the row. */
  lemma PasswordHistory(r: Run, n: nat, admin: AdminId) returns (last: Option<nat>)
    requires ColdStart(r.start) && n <= |r.events| && admin in r.start.accounts
    ensures admin in r.At(n).accounts
    ensures last.None? ==> Row(r, n, admin).passwordHash == r.start.accounts[admin].passwordHash
    ensures last.Some? ==>
              var k := last.value;
              && k < n && Writes(r, k, admin, Password) && admin in r.At(k).accounts && admin in r.At(k + 1).accounts
              && var action := r.events[k].action;
                 && action.ChangePassword? && action.newHash.Some?
                 && r.env.passwordMatches(Row(r, k, admin).passwordHash, action.current)
                 && action.replacement == action.confirmation && |action.replacement| >= 8
                 && Row(r, k + 1, admin) == Row(r, k, admin).(passwordHash := action.newHash.value)
                 && Row(r, n, admin).passwordHash == action.newHash.value
    ensures forall k :: (if last.Some? then last.value + 1 else 0) <= k < n ==> !Writes(r, k, admin, Password)
  {
    hide Step;
    last := ColumnHistory(r, n, admin, Password);
    if last.Some? {
      AcceptedIffWarranted(r, last.value, admin);
      AcceptedIsPerformed(r, last.value, admin);
      OtherColumnsSame(r.events[last.value].action, Row(r, last.value, admin), Row(r, last.value + 1, admin));
    }
  }

  lemma OtherColumnsSame(action: Action, row: Account, row': Account)
    requires action.ChangePassword? && row'.recoveryCodes == row.recoveryCodes
    requires forall column :: !Targets(action, column) ==> Only(row', column) == Only(row, column)
    ensures row' == row.(passwordHash := row'.passwordHash)
  {
    assert Only(row', UserName) == Only(row, UserName) && Only(row', Address) == Only(row, Address);
    assert Only(row', TwoFactor) == Only(row, TwoFactor) && Only(row', LinkFlag) == Only(row, LinkFlag);
    assert Only(row', Backup) == Only(row, Backup);
  }

  /** Two-factor goes off, and codes are replaced outside the setup of a factor, only at a request of the admin that
      carries the password in force. */
  lemma WeakeningNeedsPassword(r: Run, i: nat, admin: AdminId)
    requires ColdStart(r.start) && i < |r.events| && admin in r.At(i).accounts
    ensures admin in r.At(i + 1).accounts
    ensures Row(r, i, admin).twoFAEnabled && !Row(r, i + 1, admin).twoFAEnabled ==>
              && ActsAt(r, i, admin) && r.events[i].action.Disable2FA?
              && r.env.passwordMatches(Row(r, i, admin).passwordHash, r.events[i].action.password)
    ensures Row(r, i, admin).recoveryCodes != Row(r, i + 1, admin).recoveryCodes ==>
              || SpendsRecoveryCode(r.env, r.At(i), r.events[i], admin)
              || (&& ActsAt(r, i, admin)
                  && (r.events[i].action.VerifyTOTP? || r.events[i].action.EnableEmail2FA?
                      || (&& (r.events[i].action.RegenerateCodes? || r.events[i].action.Disable2FA?)
                          && r.env.passwordMatches(Row(r, i, admin).passwordHash, r.events[i].action.password))))
  {
    hide Step;
    OnlyOwnerChangesRow(r.env, r.At(i), r.events[i], admin);
    if ActsAt(r, i, admin) {
      AcceptedIffWarranted(r, i, admin);
      if r.Answer(i).Rejected? {
        RefusalChangesNothing(r.env, r.At(i), r.events[i]);
      } else {
        AcceptedIsPerformed(r, i, admin);
        if !Targets(r.events[i].action, TwoFactor) {
          assert Only(Row(r, i + 1, admin), TwoFactor) == Only(Row(r, i, admin), TwoFactor);
        }
      }
    }
  }

  /** No two rows ever share a non-empty address. */
  ghost predicate DistinctAddresses(accounts: Accounts) {
    forall a, b :: a in accounts && b in accounts && a != b && accounts[a].email != "" ==>
      accounts[a].email != accounts[b].email
  }

  lemma {:induction false} AddressesStayDistinct(r: Run, n: nat)
    requires ColdStart(r.start) && n <= |r.events| && DistinctAddresses(r.start.accounts)
    ensures DistinctAddresses(r.At(n).accounts)
    decreases n
  {
    hide Step;
    if n > 0 {
      AddressesStayDistinct(r, n - 1);
      AddressStep(r, n - 1);
    }
  }

  lemma AddressStep(r: Run, i: nat)
    requires ColdStart(r.start) && i < |r.events| && DistinctAddresses(r.At(i).accounts)
    ensures DistinctAddresses(r.At(i + 1).accounts)
  {
    hide Step;
    SameRows(r, i);
    SameRows(r, i + 1);
    forall a, b | a in r.At(i).accounts && b in r.At(i).accounts && a != b && Row(r, i + 1, a).email != ""
      ensures Row(r, i + 1, a).email != Row(r, i + 1, b).email
    {
      AddressOf(r, i, a);
      AddressOf(r, i, b);
      if ActsAt(r, i, a) && ActsAt(r, i, b) { assert false; }
    }
  }

  lemma AddressOf(r: Run, i: nat, admin: AdminId)
    requires ColdStart(r.start) && i < |r.events| && admin in r.At(i).accounts
    ensures admin in r.At(i + 1).accounts
    ensures || Row(r, i + 1, admin).email == Row(r, i, admin).email
            || (&& ActsAt(r, i, admin) && r.events[i].action == UpdateEmail(Row(r, i + 1, admin).email)
                && forall other :: other in r.At(i).accounts && other != admin ==>
                     Row(r, i, other).email != Row(r, i + 1, admin).email)
  {
    hide Step;
    if Writes(r, i, admin, Address) {
      AcceptedIffWarranted(r, i, admin);
      AcceptedIsPerformed(r, i, admin);
    } else {
      UnwrittenStays(r, i, admin, Address);
    }
  }
}
