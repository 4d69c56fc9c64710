/** What the other requests are answered, read off the rows and the events of a run. */
module AdminReplies {
  import opened Wrappers
  import opened AdminProtocol
  import opened AdminRuns
  import opened AdminProvenance

  /** A password login with two-factor on is sent to the second factor, unless the code cannot be mailed; one without
      the right password is refused. */
  lemma LoginReply(r: Run, i: nat)
    requires i < |r.events| && r.events[i].Login?
    ensures forall admin: AdminId :: Parks(r.env, r.At(i), r.events[i], admin) ==>
              var row := r.At(i).accounts[admin];
              r.Answer(i) == if row.twoFAMethod == METHOD_EMAIL && row.email == "" then Rejected
                             else SecondFactor(r.events[i].draw, row.twoFAMethod)
    ensures (forall admin: AdminId :: !PasswordLogin(r.env, r.At(i), r.events[i], admin)) ==> r.Answer(i).Rejected?
  {
    var s, e := r.At(i), r.events[i];
    var found := Authenticated(r.env, s.accounts, e.username, e.password);
    forall admin: AdminId
      ensures found == Some(admin) <==>
              Names(s.accounts, e.username, admin) && r.env.passwordMatches(s.accounts[admin].passwordHash, e.password)
    {
      AuthenticatedIff(r.env, s.accounts, e.username, e.password, admin);
    }
    hide Authenticated, Names;
    if found.Some? && !e.limited && e.username != "" && e.password != "" {
      assert PasswordLogin(r.env, s, e, found.value);
    }
  }

  /** The admin's password login parked the token less than ten minutes ago, it is unspent, and the row has an
      address. */
  ghost predicate MayResend(r: Run, i: nat, tempToken: string, admin: AdminId)
    requires i < |r.events|
  {
    && admin in r.At(i).accounts && r.At(i).accounts[admin].email != ""
    && exists j :: 0 <= j < i && ParksLogin(r, j, tempToken, admin) && TempUnspent(r, j, i, tempToken)
                   && r.Now(i) < r.Now(j) + TEMP_SESSION_TTL
  }

  lemma ResendReply(r: Run, i: nat)
    requires ColdStart(r.start) && Fresh(r.events) && i < |r.events| && r.events[i].TwoFAResend?
    ensures r.Answer(i)
            == if exists admin: AdminId :: MayResend(r, i, r.events[i].tempToken, admin) then Accepted else Rejected
  {
    var s, e := r.At(i), r.events[i];
    ResendStep(r.env, s, e);
    hide Step;
    forall admin: AdminId
      ensures MayResend(r, i, e.tempToken, admin) <==>
              Parked(s, e.tempToken, admin) && admin in s.accounts && s.accounts[admin].email != ""
    {
      ParkedIff(r, i, e.tempToken, admin);
    }
  }

  lemma ResendStep(env: Env, s: State, e: Event)
    requires e.TwoFAResend?
    ensures Step(env, s, e).1
            == if exists admin: AdminId ::
                    Parked(s, e.tempToken, admin) && admin in s.accounts && s.accounts[admin].email != ""
               then Accepted else Rejected
  {
    hide LoginStep, TwoFAVerifyStep, PasskeyBeginStep, PasskeyFinishStep, MagicRequestStep, MagicVerifyStep;
    hide PageStep, LogoutStep, PostStep;
    var admin := TempOwner(s, e.tempToken);
    if admin.Some? { assert Parked(s, e.tempToken, admin.value); }
  }

  /** A challenge goes to everybody not rate-limited; the answer to a link request tells nothing. */
  lemma OpenReplies(r: Run, i: nat)
    requires i < |r.events|
    ensures r.events[i].PasskeyBegin? ==>
              r.Answer(i) == if r.events[i].limited then Rejected else ChallengeIssued(r.events[i].draw)
    ensures r.events[i].MagicRequest? ==>
              r.Answer(i) == if r.events[i].limited || r.events[i].email == "" then Rejected else LinkNotice
  {
    hide LoginStep, TwoFAVerifyStep, TwoFAResendStep, PasskeyFinishStep, MagicVerifyStep, PageStep;
    hide LogoutStep, PostStep;
  }

  /** A second factor, a passkey answer or a link that opens no session is refused, and so is a page or a logout without
      a session: there is no third answer. */
  lemma OtherwiseRefused(r: Run, i: nat)
    requires i < |r.events|
    ensures r.events[i].TwoFAVerify? || r.events[i].PasskeyFinish? || r.events[i].MagicVerify? ==>
              r.Answer(i).SessionOpened? || r.Answer(i).Rejected?
    ensures r.events[i].Page? ==> r.Answer(i).PageServed? || r.Answer(i).Rejected?
    ensures r.events[i].Logout? ==> r.Answer(i).LoggedOut? || r.Answer(i).Rejected?
  {
    hide LoginStep, TwoFAResendStep, PasskeyBeginStep, MagicRequestStep, PostStep;
  }

  /** Some earlier entitled event keeps the cookie open at event i. */
  ghost predicate Honoured(r: Run, i: nat, cookie: string)
    requires i < |r.events|
  {
    exists admin: AdminId, j :: 0 <= j < i && OpenSince(r, j, i, cookie, admin) && Entitled(r, j, admin)
  }

  /** Pages are served, and logouts carried out, for exactly the cookies that an entitled event keeps open. */
  lemma PageReply(r: Run, i: nat)
    requires ColdStart(r.start) && Fresh(r.events) && i < |r.events|
    ensures r.events[i].Page? ==> (r.Answer(i).PageServed? <==> Honoured(r, i, r.events[i].cookie))
    ensures r.events[i].Logout? ==> (r.Answer(i).LoggedOut? <==> Honoured(r, i, r.events[i].cookie))
  {
    if r.events[i].Page? || r.events[i].Logout? {
      var cookie := r.events[i].cookie;
      PageStepReply(r.env, r.At(i), r.events[i]);
      hide Step, Entitled, OpenSince;
      var owner := SessionOwner(r.At(i), cookie);
      if owner.Some? { HonouredIff(r, i, cookie, owner.value); }
      if admin: AdminId, j :| 0 <= j < i && OpenSince(r, j, i, cookie, admin) && Entitled(r, j, admin) {
        HonouredIff(r, i, cookie, admin);
      }
    }
  }

  lemma PageStepReply(env: Env, s: State, e: Event)
    requires e.Page? || e.Logout?
    ensures e.Page? ==> (Step(env, s, e).1.PageServed? <==> SessionOwner(s, e.cookie).Some?)
    ensures e.Logout? ==> (Step(env, s, e).1.LoggedOut? <==> SessionOwner(s, e.cookie).Some?)
  {
    hide LoginStep, TwoFAVerifyStep, TwoFAResendStep, PasskeyBeginStep, PasskeyFinishStep, MagicRequestStep;
    hide MagicVerifyStep, PostStep;
  }
}
