/** Where every admin session comes from, and that tokens are used once: statements about whole runs. */
module AdminProvenance {
  import opened Wrappers
  import opened TtlStore
  import opened AdminProtocol
  import opened AdminRuns

  // ----- where each stored token came from, and how long it stands -----

  /** Event j is a password login of an admin with two-factor on, drawing temporary token t. */
  ghost predicate ParksLogin(r: Run, j: nat, t: string, admin: AdminId)
    requires j < |r.events|
  {
    r.events[j].Login? && r.events[j].draw == t && Parks(r.env, r.At(j), r.events[j], admin)
  }

  /** No event strictly between j and n opened a session on the temporary token. */
  ghost predicate TempUnspent(r: Run, j: nat, n: nat, t: string)
    requires n <= |r.events|
  {
    forall k :: j < k < n ==> !SpendsTemp(r.env, r.At(k), r.events[k], t)
  }

  /** One step: a token is new because of a login that parks it, or stays unless it is spent. */
  lemma TempStep(env: Env, s: State, e: Event, t: string)
    ensures var (before, after) := (s.store.tempSessions, Step(env, s, e).0.store.tempSessions);
            || (e.Login? && e.draw == t && t in after && Parks(env, s, e, after[t].value)
                && after[t].expiry == s.store.now + TEMP_SESSION_TTL)
            || (SpendsTemp(env, s, e, t) && t !in after)
            || (SameAt(before, after, t) && !SpendsTemp(env, s, e, t))
  {
    hide Step, Parks;
    if admin: AdminId :| Parks(env, s, e, admin) {
      StepTemp(env, s, e, admin);
      ParksIsLogin(env, s, e, admin);
    } else {
      StepTemp(env, s, e, 0);
    }
  }

  lemma {:induction false} TempOrigin(r: Run, n: nat, t: string) returns (j: nat)
    requires ColdStart(r.start) && n <= |r.events| && t in r.At(n).store.tempSessions
    ensures j < n && ParksLogin(r, j, t, r.At(n).store.tempSessions[t].value)
    ensures r.At(n).store.tempSessions[t].expiry == r.Now(j) + TEMP_SESSION_TTL
    ensures TempUnspent(r, j, n, t)
    decreases n
  {
    hide Step, Parks;
    var s, e := r.At(n - 1), r.events[n - 1];
    TempStep(r.env, s, e, t);
    var entry := r.At(n).store.tempSessions[t];
    if e.Login? && e.draw == t && Parks(r.env, s, e, entry.value) && entry.expiry == s.store.now + TEMP_SESSION_TTL {
      j := n - 1;
    } else {
      j := TempOrigin(r, n - 1, t);
    }
  }

  /** A parked token stays on file until it is spent. */
  lemma {:induction false} TempStays(r: Run, j: nat, n: nat, t: string, admin: AdminId)
    requires Fresh(r.events) && j < n <= |r.events| && ParksLogin(r, j, t, admin) && TempUnspent(r, j, n, t)
    ensures t in r.At(n).store.tempSessions
    ensures r.At(n).store.tempSessions[t] == Entry(admin, r.Now(j) + TEMP_SESSION_TTL)
    decreases n
  {
    hide Step, Parks, SpendsTemp;
    if j == n - 1 {
      StepTemp(r.env, r.At(j), r.events[j], admin);
    } else {
      TempStays(r, j, n - 1, t, admin);
      assert !SpendsTemp(r.env, r.At(n - 1), r.events[n - 1], t);
      TempStep(r.env, r.At(n - 1), r.events[n - 1], t);
    }
  }

  ghost predicate MailedAt(r: Run, j: nat, admin: AdminId, code: string)
    requires j < |r.events|
  {
    Mails(r.env, r.At(j), r.events[j], admin, code)
  }

  /** No event strictly between k and n mailed the admin another code or opened a session on one. */
  ghost predicate CodeStands(r: Run, k: nat, n: nat, admin: AdminId)
    requires n <= |r.events|
  {
    forall m :: k < m < n ==>
      !MailsTo(r.env, r.At(m), r.events[m], admin) && !SpendsCode(r.env, r.At(m), r.events[m], admin)
  }

  lemma {:induction false} EmailCodeOrigin(r: Run, n: nat, admin: AdminId) returns (j: nat)
    requires ColdStart(r.start) && n <= |r.events| && admin in r.At(n).store.emailCodes
    ensures j < n && MailedAt(r, j, admin, r.At(n).store.emailCodes[admin].value)
    ensures r.At(n).store.emailCodes[admin].expiry == r.Now(j) + EMAIL_CODE_TTL
    ensures CodeStands(r, j, n, admin)
    decreases n
  {
    hide Step, Mails;
    StepCodesOnFile(r.env, r.At(n - 1), r.events[n - 1], admin);
    if MailsTo(r.env, r.At(n - 1), r.events[n - 1], admin) {
      j := n - 1;
    } else {
      j := EmailCodeOrigin(r, n - 1, admin);
    }
  }

  /** A mailed code stays on file until it is used or another is mailed. */
  lemma {:induction false} CodeStays(r: Run, k: nat, n: nat, admin: AdminId, code: string)
    requires k < n <= |r.events| && MailedAt(r, k, admin, code) && CodeStands(r, k, n, admin)
    ensures admin in r.At(n).store.emailCodes
    ensures r.At(n).store.emailCodes[admin] == Entry(code, r.Now(k) + EMAIL_CODE_TTL)
    decreases n
  {
    hide Step;
    if k == n - 1 {
      assert MailsTo(r.env, r.At(k), r.events[k], admin) && r.events[k].emailCode == code;
    } else {
      CodeStays(r, k, n - 1, admin, code);
      assert !MailsTo(r.env, r.At(n - 1), r.events[n - 1], admin);
    }
    hide Mails;
    StepCodesOnFile(r.env, r.At(n - 1), r.events[n - 1], admin);
  }

  ghost predicate LinkMailedAt(r: Run, j: nat, token: string, admin: AdminId)
    requires j < |r.events|
  {
    MailsLink(r.At(j), r.events[j], token, admin)
  }

  /** No event strictly between j and n followed the link or mailed its admin another one. */
  ghost predicate LinkStands(r: Run, j: nat, n: nat, token: string, admin: AdminId)
    requires n <= |r.events|
  {
    forall k :: j < k < n ==>
      && !(r.events[k].MagicVerify? && r.events[k].token == token)
      && !(r.events[k].MagicRequest? && LinkMailedAt(r, k, r.events[k].draw, admin))
  }

  lemma {:induction false} LinkOrigin(r: Run, n: nat, token: string) returns (j: nat)
    requires ColdStart(r.start) && n <= |r.events| && token in r.At(n).store.magicLinks
    ensures token != ""
    ensures j < n && LinkMailedAt(r, j, token, r.At(n).store.magicLinks[token].value)
    ensures r.At(n).store.magicLinks[token].expiry == r.Now(j) + MAGIC_LINK_TTL
    decreases n
  {
    hide Step, HasAddress;
    LinksStayIndexed(r, n);
    var s, e := r.At(n - 1), r.events[n - 1];
    LinkStep(r.env, s, e, token);
    var entry := r.At(n).store.magicLinks[token];
    if MailsLink(s, e, token, entry.value) && entry.expiry == s.store.now + MAGIC_LINK_TTL {
      j := n - 1;
    } else {
      j := LinkOrigin(r, n - 1, token);
    }
  }

  /** The reverse entry of an admin names a link that was mailed to that admin. */
  lemma {:induction false} ReverseOrigin(r: Run, n: nat, admin: AdminId) returns (j: nat)
    requires ColdStart(r.start) && n <= |r.events| && admin in r.At(n).store.magicLinkUsers
    ensures j < n && LinkMailedAt(r, j, r.At(n).store.magicLinkUsers[admin].value, admin)
    decreases n
  {
    hide Step, HasAddress;
    StepReverse(r.env, r.At(n - 1), r.events[n - 1], admin);
    var before := r.At(n - 1).store.magicLinkUsers;
    if admin in before && before[admin] == r.At(n).store.magicLinkUsers[admin] {
      j := ReverseOrigin(r, n - 1, admin);
    } else {
      j := n - 1;
    }
  }

  /** A mailed link stays on file until it is followed or its admin is mailed another. */
  lemma {:induction false} LinkStays(r: Run, j: nat, n: nat, token: string, admin: AdminId)
    requires ColdStart(r.start) && Fresh(r.events) && j < n <= |r.events|
    requires LinkMailedAt(r, j, token, admin) && LinkStands(r, j, n, token, admin)
    ensures token != "" && token in r.At(n).store.magicLinks
    ensures r.At(n).store.magicLinks[token] == Entry(admin, r.Now(j) + MAGIC_LINK_TTL)
    decreases n
  {
    hide Step;
    var s, e := r.At(n - 1), r.events[n - 1];
    if j < n - 1 {
      LinkStays(r, j, n - 1, token, admin);
      if RetiresLink(s, e, token) {
        var other: AdminId :| MailsLink(s, e, e.draw, other)
                              && Get(s.store.magicLinkUsers, other, s.store.now) == Some(token);
        var j' := ReverseOrigin(r, n - 1, other);
        assert false;
      }
    }
    hide HasAddress;
    StepLinks(r.env, s, e, token);
  }

  /** Event j issued the passkey challenge `challenge` under `id`. */
  ghost predicate ChallengedAt(r: Run, j: nat, id: string, challenge: string)
    requires j < |r.events|
  {
    IssuesChallenge(r.events[j], id) && r.events[j].challenge == challenge
  }

  /** No event strictly between j and n opened a session on the challenge. */
  ghost predicate ChallengeStands(r: Run, j: nat, n: nat, id: string)
    requires n <= |r.events|
  {
    forall k :: j < k < n ==> !SpendsChallenge(r.env, r.At(k), r.events[k], id)
  }

  lemma {:induction false} ChallengeOrigin(r: Run, n: nat, id: string) returns (j: nat)
    requires ColdStart(r.start) && n <= |r.events| && id in r.At(n).store.challenges
    ensures j < n && ChallengedAt(r, j, id, r.At(n).store.challenges[id].value)
    ensures r.At(n).store.challenges[id].expiry == r.Now(j) + CHALLENGE_TTL
    ensures ChallengeStands(r, j, n, id)
    decreases n
  {
    hide Step;
    StepChallenges(r.env, r.At(n - 1), r.events[n - 1], id);
    if IssuesChallenge(r.events[n - 1], id) {
      j := n - 1;
    } else {
      j := ChallengeOrigin(r, n - 1, id);
    }
  }

  lemma ChallengeKept(env: Env, s: State, e: Event, id: string)
    requires !IssuesChallenge(e, id) && !SpendsChallenge(env, s, e, id)
    ensures SameAt(s.store.challenges, Step(env, s, e).0.store.challenges, id)
  {
    hide Step;
    StepChallenges(env, s, e, id);
  }

  lemma NotReissued(r: Run, j: nat, k: nat, id: string)
    requires Fresh(r.events) && j < k < |r.events| && IssuesChallenge(r.events[j], id)
    ensures !IssuesChallenge(r.events[k], id)
  {
    assert Drawn(r.events[j]) != Drawn(r.events[k]);
  }

  /** An issued challenge stays on file until it opens a session. */
  lemma {:induction false} ChallengeStays(r: Run, j: nat, n: nat, id: string, challenge: string)
    requires Fresh(r.events) && j < n <= |r.events| && ChallengedAt(r, j, id, challenge) && ChallengeStands(r, j, n, id)
    ensures id in r.At(n).store.challenges
    ensures r.At(n).store.challenges[id] == Entry(challenge, r.Now(j) + CHALLENGE_TTL)
    decreases n
  {
    hide Step, SpendsChallenge;
    if j == n - 1 {
      StepChallenges(r.env, r.At(j), r.events[j], id);
    } else {
      ChallengeStays(r, j, n - 1, id, challenge);
      NotReissued(r, j, n - 1, id);
      hide IssuesChallenge, Fresh;
      assert !SpendsChallenge(r.env, r.At(n - 1), r.events[n - 1], id);
      ChallengeKept(r.env, r.At(n - 1), r.events[n - 1], id);
    }
  }

  // ----- what entitles an admin to a session -----

  /** Some valid second factor for this admin: the submitted form, not the account, picks which. */
  ghost predicate PassesSecondFactor(r: Run, i: nat, admin: AdminId)
    requires i < |r.events| && r.events[i].TwoFAVerify?
  {
    var e := r.events[i];
    var s := r.At(i);
    && admin in s.accounts
    && if e.useRecovery then
         && s.accounts[admin].twoFAEnabled && s.accounts[admin].recoveryCodes.Some?
         && e.code in s.accounts[admin].recoveryCodes.value
       else if e.factor == METHOD_EMAIL then
         exists k :: 0 <= k < i && MailedAt(r, k, admin, e.code) && CodeStands(r, k, i, admin)
                     && r.Now(i) < r.Now(k) + EMAIL_CODE_TTL
       else
         && s.accounts[admin].twoFAEnabled && s.accounts[admin].twoFASecret != ""
         && r.env.totpValid(e.code, s.accounts[admin].twoFASecret, r.Now(i))
  }

  /** Event i entitles the admin to a full session. */
  ghost predicate Entitled(r: Run, i: nat, admin: AdminId)
    requires i < |r.events|
  {
    match r.events[i]
    case Login(_, _, _, _, _) =>
      PasswordLogin(r.env, r.At(i), r.events[i], admin) && !r.At(i).accounts[admin].twoFAEnabled
    case TwoFAVerify(tempToken, code, _, _, _) =>
      && code != "" && PassesSecondFactor(r, i, admin)
      && exists j :: 0 <= j < i && ParksLogin(r, j, tempToken, admin) && TempUnspent(r, j, i, tempToken)
                     && r.Now(i) < r.Now(j) + TEMP_SESSION_TTL
    case PasskeyFinish(limited, challengeId, credential, _) =>
      && !limited && credential != ""
      && exists j :: 0 <= j < i && r.events[j].PasskeyBegin? && r.Now(i) < r.Now(j) + CHALLENGE_TTL
                     && ChallengedAt(r, j, challengeId, r.events[j].challenge) && ChallengeStands(r, j, i, challengeId)
                     && SignsFor(r, i, r.events[j].challenge, credential, admin)
    case MagicVerify(token, _) =>
      exists j :: 0 <= j < i && LinkMailedAt(r, j, token, admin) && LinkStands(r, j, i, token, admin)
                  && r.Now(i) < r.Now(j) + MAGIC_LINK_TTL
    case _ => false
  }

  /** The response answers the challenge with a credential registered to the admin at event i. */
  ghost predicate SignsFor(r: Run, i: nat, challenge: string, response: string, admin: AdminId)
    requires i < |r.events|
  {
    var signer := r.env.assertion(challenge, response);
    signer.Some? && signer.value in r.At(i).passkeys && r.At(i).passkeys[signer.value] == admin
  }

  lemma FactorIff(r: Run, i: nat, admin: AdminId)
    requires ColdStart(r.start) && i < |r.events| && r.events[i].TwoFAVerify? && admin in r.At(i).accounts
    ensures PassesFactor(r.env, r.At(i), r.events[i], admin) <==> PassesSecondFactor(r, i, admin)
  {
    hide Step, Mails, CodeStands;
    var e := r.events[i];
    if !e.useRecovery && e.factor == METHOD_EMAIL {
      if Get(r.At(i).store.emailCodes, admin, r.Now(i)) == Some(e.code) { var k := EmailCodeOrigin(r, i, admin); }
      if PassesSecondFactor(r, i, admin) {
        var k :| 0 <= k < i && MailedAt(r, k, admin, e.code) && CodeStands(r, k, i, admin)
                 && r.Now(i) < r.Now(k) + EMAIL_CODE_TTL;
        CodeStays(r, k, i, admin, e.code);
      }
    }
  }

  lemma ParkedIff(r: Run, i: nat, t: string, admin: AdminId)
    requires ColdStart(r.start) && Fresh(r.events) && i < |r.events|
    ensures Parked(r.At(i), t, admin) <==>
            exists j :: 0 <= j < i && ParksLogin(r, j, t, admin) && TempUnspent(r, j, i, t)
                        && r.Now(i) < r.Now(j) + TEMP_SESSION_TTL
  {
    hide Step, TempUnspent;
    if Parked(r.At(i), t, admin) { var j := TempOrigin(r, i, t); }
    if j :| 0 <= j < i && ParksLogin(r, j, t, admin) && TempUnspent(r, j, i, t)
            && r.Now(i) < r.Now(j) + TEMP_SESSION_TTL
    {
      TempStays(r, j, i, t, admin);
      SameRows(r, i);
      SameRows(r, j);
    }
  }

  lemma SignsIff(r: Run, i: nat, id: string, response: string, admin: AdminId)
    requires ColdStart(r.start) && Fresh(r.events) && i < |r.events|
    ensures Signs(r.env, r.At(i), id, response, admin) <==>
            exists j :: 0 <= j < i && r.events[j].PasskeyBegin? && r.Now(i) < r.Now(j) + CHALLENGE_TTL
                        && ChallengedAt(r, j, id, r.events[j].challenge) && ChallengeStands(r, j, i, id)
                        && SignsFor(r, i, r.events[j].challenge, response, admin)
  {
    hide Step, ChallengeStands;
    if Signs(r.env, r.At(i), id, response, admin) {
      var j := ChallengeOrigin(r, i, id);
      assert ChallengedAt(r, j, id, r.events[j].challenge);
    }
    if j :| 0 <= j < i && r.events[j].PasskeyBegin? && r.Now(i) < r.Now(j) + CHALLENGE_TTL
            && ChallengedAt(r, j, id, r.events[j].challenge) && ChallengeStands(r, j, i, id)
            && SignsFor(r, i, r.events[j].challenge, response, admin)
    {
      ChallengeStays(r, j, i, id, r.events[j].challenge);
    }
  }

  lemma LinkIff(r: Run, i: nat, token: string, admin: AdminId)
    requires ColdStart(r.start) && Fresh(r.events) && i < |r.events|
    ensures token != "" && Get(r.At(i).store.magicLinks, token, r.Now(i)) == Some(admin) <==>
            exists j :: 0 <= j < i && LinkMailedAt(r, j, token, admin) && LinkStands(r, j, i, token, admin)
                        && r.Now(i) < r.Now(j) + MAGIC_LINK_TTL
  {
    hide Step, HasAddress;
    if Get(r.At(i).store.magicLinks, token, r.Now(i)) == Some(admin) {
      var j := LinkOrigin(r, i, token);
      LiveLinkStands(r, j, i, token, admin);
    }
    if j :| 0 <= j < i && LinkMailedAt(r, j, token, admin) && LinkStands(r, j, i, token, admin)
            && r.Now(i) < r.Now(j) + MAGIC_LINK_TTL
    {
      LinkStays(r, j, i, token, admin);
    }
  }

  /** A session opens, under the token the request drew, exactly when the request entitles the admin to it. */
  lemma OpensIffEntitled(r: Run, i: nat, admin: AdminId)
    requires ColdStart(r.start) && Fresh(r.events) && i < |r.events|
    ensures Drawn(r.events[i]).Some? && r.Answer(i) == SessionOpened(Drawn(r.events[i]).value, admin) <==>
            Entitled(r, i, admin)
  {
    StepOpensIff(r.env, r.At(i), r.events[i], admin);
    hide Step, PasswordLogin, LinkStands, TempUnspent, ChallengeStands, CodeStands, SignsFor, Signs, ParksLogin;
    match r.events[i]
    case TwoFAVerify(tempToken, code, _, _, _) =>
      ParkedIff(r, i, tempToken, admin);
      hide Parked;
      if admin in r.At(i).accounts { FactorIff(r, i, admin); }
      ParkedHasRow(r.At(i), tempToken, admin);
      hide PassesFactor, PassesSecondFactor;
    case PasskeyFinish(_, challengeId, credential, _) =>
      SignsIff(r, i, challengeId, credential, admin);
      assert forall j :: 0 <= j < i ==> !IssuesChallenge(r.events[j], "");
    case MagicVerify(token, _) =>
      LinkIff(r, i, token, admin);
      if token != "" && Get(r.At(i).store.magicLinks, token, r.Now(i)) == Some(admin) {
        var j := LinkOrigin(r, i, token);
        SameRows(r, i);
        SameRows(r, j);
      }
    case _ =>
  }

  lemma ParkedHasRow(s: State, t: string, admin: AdminId)
    ensures Parked(s, t, admin) ==> admin in s.accounts
  {
  }

  lemma OpeningIsEntitled(r: Run, i: nat, sid: string, admin: AdminId)
    requires ColdStart(r.start) && Fresh(r.events) && i < |r.events| && r.Answer(i) == SessionOpened(sid, admin)
    ensures Drawn(r.events[i]) == Some(sid) && Entitled(r, i, admin)
  {
    hide Step, Entitled;
    StepSessions(r.env, r.At(i), r.events[i]);
    OpensIffEntitled(r, i, admin);
  }

  /** Event k ends session `sid`. */
  ghost predicate LogsOut(r: Run, k: nat, sid: string)
    requires k < |r.events|
  {
    r.events[k].Logout? && r.events[k].cookie == sid && r.Answer(k).LoggedOut?
  }

  lemma {:induction false} SessionOrigin(r: Run, n: nat, sid: string) returns (j: nat)
    requires ColdStart(r.start) && n <= |r.events| && sid in r.At(n).store.sessions
    ensures j < n && r.Answer(j) == SessionOpened(sid, r.At(n).store.sessions[sid].value)
    ensures r.At(n).store.sessions[sid].expiry == r.Now(j) + SessionTtl(r.At(j).sessionHours)
    ensures forall k :: j < k < n ==> !LogsOut(r, k, sid)
    decreases n
  {
    hide Step;
    StepSessions(r.env, r.At(n - 1), r.events[n - 1]);
    if r.Answer(n - 1).SessionOpened? && r.Answer(n - 1).sid == sid {
      j := n - 1;
    } else {
      j := SessionOrigin(r, n - 1, sid);
    }
  }

  /** Every session the server honours was opened by one earlier event, which entitled its admin, within
      the configured lifetime and with no logout since. */
  lemma SessionProvenance(r: Run, n: nat, cookie: string, admin: AdminId) returns (j: nat)
    requires ColdStart(r.start) && Fresh(r.events)
    requires n <= |r.events| && SessionOwner(r.At(n), cookie) == Some(admin)
    ensures j < n && r.Answer(j) == SessionOpened(cookie, admin)
    ensures Entitled(r, j, admin)
    ensures r.Now(n) < r.Now(j) + SessionTtl(r.At(j).sessionHours)
    ensures forall k :: j < k < n ==> !LogsOut(r, k, cookie)
    ensures forall k :: 0 <= k < |r.events| && r.Answer(k).SessionOpened? && r.Answer(k).sid == cookie ==> k == j
  {
    hide Step;
    j := SessionOrigin(r, n, cookie);
    OpeningIsEntitled(r, j, cookie, admin);
    StepSessions(r.env, r.At(j), r.events[j]);
    forall k | 0 <= k < |r.events| && r.Answer(k).SessionOpened? && r.Answer(k).sid == cookie
      ensures k == j
    {
      StepSessions(r.env, r.At(k), r.events[k]);
    }
  }

  /** Event j opened the session, it has not expired at n, nobody logged it out, and the account still exists. */
  ghost predicate OpenSince(r: Run, j: nat, n: nat, cookie: string, admin: AdminId)
    requires j < n <= |r.events|
  {
    && r.Answer(j) == SessionOpened(cookie, admin)
    && r.Now(n) - r.Now(j) < (if r.At(j).sessionHours <= 0 then 8 else r.At(j).sessionHours) * 3600
    && (forall k :: j < k < n ==> !LogsOut(r, k, cookie))
    && admin in r.At(n).accounts
  }

  /** A session stays on file until its logout. */
  lemma {:induction false} SessionRemains(r: Run, j: nat, n: nat, sid: string, admin: AdminId)
    requires Fresh(r.events) && j < n <= |r.events| && r.Answer(j) == SessionOpened(sid, admin)
    requires forall k :: j < k < n ==> !LogsOut(r, k, sid)
    ensures sid != "" && sid in r.At(n).store.sessions
    ensures r.At(n).store.sessions[sid] == Entry(admin, r.Now(j) + SessionTtl(r.At(j).sessionHours))
    decreases n
  {
    hide Step;
    StepSessions(r.env, r.At(j), r.events[j]);
    if j < n - 1 {
      SessionRemains(r, j, n - 1, sid, admin);
      assert !LogsOut(r, n - 1, sid);
      StepSessions(r.env, r.At(n - 1), r.events[n - 1]);
    }
  }

  /** The server honours a cookie exactly while one earlier event that entitled its admin keeps it open. */
  lemma HonouredIff(r: Run, n: nat, cookie: string, admin: AdminId)
    requires ColdStart(r.start) && Fresh(r.events) && n <= |r.events|
    ensures SessionOwner(r.At(n), cookie) == Some(admin) <==>
            exists j :: 0 <= j < n && OpenSince(r, j, n, cookie, admin) && Entitled(r, j, admin)
  {
    hide Step, Entitled;
    if SessionOwner(r.At(n), cookie) == Some(admin) {
      var j := SessionProvenance(r, n, cookie, admin);
      assert OpenSince(r, j, n, cookie, admin);
    }
    if j :| 0 <= j < n && OpenSince(r, j, n, cookie, admin) && Entitled(r, j, admin) {
      SessionRemains(r, j, n, cookie, admin);
    }
  }

  // ----- single use -----

  /** The keyspaces whose keys are fresh random tokens. */
  datatype Keyspace = Sessions | TempTokens | MagicLinks | Challenges

  ghost function Keys(s: State, space: Keyspace): set<string> {
    match space
    case Sessions => s.store.sessions.Keys
    case TempTokens => s.store.tempSessions.Keys
    case MagicLinks => s.store.magicLinks.Keys
    case Challenges => s.store.challenges.Keys
  }

  lemma StepInserts(env: Env, s: State, e: Event, space: Keyspace, t: string)
    requires t in Keys(Step(env, s, e).0, space)
    requires t != ""
    ensures t in Keys(s, space) || Drawn(e) == Some(t)
  {
    hide Step, Parks, HasAddress;
    match space
    case Sessions => StepSessions(env, s, e);
    case TempTokens => TempStep(env, s, e, t);
    case MagicLinks => StepLinks(env, s, e, t);
    case Challenges => StepChallenges(env, s, e, t);
  }

  /** A token that was drawn and is gone never comes back. */
  lemma {:induction false} StaysGone(r: Run, drawn: nat, m: nat, n: nat, space: Keyspace, t: string)
    requires Fresh(r.events) && drawn < m <= n <= |r.events|
    requires Drawn(r.events[drawn]) == Some(t) && t !in Keys(r.At(m), space)
    ensures t !in Keys(r.At(n), space)
    decreases n
  {
    hide Step;
    if m < n {
      StaysGone(r, drawn, m, n - 1, space, t);
      if t in Keys(r.At(n), space) {
        StepInserts(r.env, r.At(n - 1), r.events[n - 1], space, t);
      }
    }
  }

  /** The stored token a login event spends, if it spends one. */
  function Spends(e: Event): Option<(Keyspace, string)> {
    match e
    case TwoFAVerify(tempToken, _, _, _, _) => Some((TempTokens, tempToken))
    case MagicVerify(token, _) => Some((MagicLinks, token))
    case PasskeyFinish(_, challengeId, _, _) => Some((Challenges, challengeId))
    case _ => None
  }

  lemma StepSpends(env: Env, s: State, e: Event)
    requires Step(env, s, e).1.SessionOpened? && Spends(e).Some?
    ensures var (space, t) := Spends(e).value;
            t in Keys(s, space) && t !in Keys(Step(env, s, e).0, space)
  {
    hide LoginStep, TwoFAResendStep, PasskeyBeginStep, MagicRequestStep, PageStep, LogoutStep;
    hide PostStep;
  }

  /** Every token in the store was drawn by an earlier event. */
  lemma KeyWasDrawn(r: Run, n: nat, space: Keyspace, t: string) returns (j: nat)
    requires ColdStart(r.start) && n <= |r.events| && t in Keys(r.At(n), space)
    ensures j < n && Drawn(r.events[j]) == Some(t)
  {
    hide Step;
    match space
    case Sessions =>
      j := SessionOrigin(r, n, t);
      StepSessions(r.env, r.At(j), r.events[j]);
    case TempTokens => j := TempOrigin(r, n, t);
    case MagicLinks => j := LinkOrigin(r, n, t);
    case Challenges => j := ChallengeOrigin(r, n, t);
  }

  /** No temporary token, magic link or passkey challenge ever opens two sessions. */
  lemma SingleUse(r: Run, i: nat, j: nat)
    requires ColdStart(r.start) && Fresh(r.events) && i < j < |r.events|
    requires r.Answer(i).SessionOpened? && r.Answer(j).SessionOpened? && Spends(r.events[i]).Some?
    ensures Spends(r.events[i]) != Spends(r.events[j])
  {
    hide Step;
    if Spends(r.events[i]) == Spends(r.events[j]) {
      var (space, t) := Spends(r.events[i]).value;
      StepSpends(r.env, r.At(i), r.events[i]);
      StepSpends(r.env, r.At(j), r.events[j]);
      var drawn := KeyWasDrawn(r, i, space, t);
      StaysGone(r, drawn, i + 1, j, space, t);
      assert false;
    }
  }

  /** No mailed code serves twice: between two logins of an admin on e-mailed codes, the second code was mailed, and
      less than five minutes before its use. */
  lemma EmailCodeSingleUse(r: Run, i: nat, j: nat, admin: AdminId) returns (k: nat)
    requires i < j < |r.events|
    requires SpendsCode(r.env, r.At(i), r.events[i], admin) && SpendsCode(r.env, r.At(j), r.events[j], admin)
    ensures i < k < j && MailedAt(r, k, admin, r.events[j].code) && r.Now(j) < r.Now(k) + EMAIL_CODE_TTL
  {
    hide Step, Mails;
    StepCodesOnFile(r.env, r.At(i), r.events[i], admin);
    StepOpensIff(r.env, r.At(j), r.events[j], admin);
    k := CodeMailedSince(r, i + 1, j, admin);
  }

  /** A code on file at n and absent at m was mailed in between. */
  lemma {:induction false} CodeMailedSince(r: Run, m: nat, n: nat, admin: AdminId) returns (k: nat)
    requires m <= n <= |r.events|
    requires admin !in r.At(m).store.emailCodes && admin in r.At(n).store.emailCodes
    ensures m <= k < n && MailedAt(r, k, admin, r.At(n).store.emailCodes[admin].value)
    ensures r.At(n).store.emailCodes[admin].expiry == r.Now(k) + EMAIL_CODE_TTL
    decreases n
  {
    hide Step, Mails;
    StepCodesOnFile(r.env, r.At(n - 1), r.events[n - 1], admin);
    if MailsTo(r.env, r.At(n - 1), r.events[n - 1], admin) {
      k := n - 1;
    } else {
      k := CodeMailedSince(r, m, n - 1, admin);
    }
  }

  /** Logging out is final: the cookie is never honoured again. */
  lemma LogoutIsFinal(r: Run, i: nat, n: nat, sid: string)
    requires ColdStart(r.start) && Fresh(r.events) && i < n <= |r.events| && LogsOut(r, i, sid)
    ensures SessionOwner(r.At(n), sid) == None
  {
    hide Step;
    StepSessions(r.env, r.At(i), r.events[i]);
    if SessionOwner(r.At(i), sid).Some? {
      var drawn := KeyWasDrawn(r, i, Sessions, sid);
      StaysGone(r, drawn, i + 1, n, Sessions, sid);
    } else {
      StepLogsOut(r.env, r.At(i), r.events[i]);
      assert false;
    }
  }

  lemma StepLogsOut(env: Env, s: State, e: Event)
    requires e.Logout? && Step(env, s, e).1.LoggedOut?
    ensures SessionOwner(s, e.cookie).Some?
  {
    hide LoginStep, TwoFAVerifyStep, TwoFAResendStep, PasskeyBeginStep, PasskeyFinishStep, MagicRequestStep;
    hide MagicVerifyStep, PageStep, PostStep;
  }

  // ----- only the newest magic link works -----

  /** A live link is the one its admin's reverse entry names, and both expire together. */
  ghost predicate LinksIndexed(s: State) {
    forall t :: t in s.store.magicLinks && s.store.now < s.store.magicLinks[t].expiry ==>
      var link := s.store.magicLinks[t];
      link.value in s.store.magicLinkUsers && s.store.magicLinkUsers[link.value] == Entry(t, link.expiry)
  }

  lemma StoreKeepsIndex(s: State, admin: AdminId, token: Token)
    requires LinksIndexed(s) && "" !in s.store.magicLinks
    ensures LinksIndexed(StoreMagicLink(s, admin, token)) && "" !in StoreMagicLink(s, admin, token).store.magicLinks
  {
  }

  lemma DropKeepsIndex(s: State, token: string)
    requires LinksIndexed(s) && "" !in s.store.magicLinks
    ensures LinksIndexed(DropMagicLink(s, token)) && "" !in DropMagicLink(s, token).store.magicLinks
  {
  }

  lemma StepLinksIndexed(env: Env, s: State, e: Event)
    requires LinksIndexed(s)
    requires "" !in s.store.magicLinks
    ensures LinksIndexed(Step(env, s, e).0)
    ensures "" !in Step(env, s, e).0.store.magicLinks
  {
    hide LoginStep, TwoFAVerifyStep, TwoFAResendStep, PasskeyBeginStep, PasskeyFinishStep, PageStep;
    hide LogoutStep, PostStep;
    hide StoreMagicLink, DropMagicLink;
    match e
    case MagicRequest(_, email, draw) =>
      var admin := First(ByEmail(s.accounts, email));
      if admin.Some? { StoreKeepsIndex(s, admin.value, draw); }
    case MagicVerify(token, _) => DropKeepsIndex(s, token);
    case _ =>
  }

  lemma {:induction false} LinksStayIndexed(r: Run, n: nat)
    requires ColdStart(r.start) && n <= |r.events|
    ensures LinksIndexed(r.At(n)) && "" !in r.At(n).store.magicLinks
    decreases n
  {
    hide Step;
    if n > 0 {
      LinksStayIndexed(r, n - 1);
      StepLinksIndexed(r.env, r.At(n - 1), r.events[n - 1]);
    }
  }

  /** A live reverse entry names a link of its admin, and both expire together. */
  ghost predicate ReverseIndexed(s: State) {
    forall admin :: admin in s.store.magicLinkUsers && s.store.now < s.store.magicLinkUsers[admin].expiry ==>
      var entry := s.store.magicLinkUsers[admin];
      entry.value in s.store.magicLinks && s.store.magicLinks[entry.value] == Entry(admin, entry.expiry)
  }

  lemma StoreKeepsReverse(s: State, admin: AdminId, token: Token)
    requires ReverseIndexed(s) && forall a :: a in s.store.magicLinkUsers ==> s.store.magicLinkUsers[a].value != token
    ensures ReverseIndexed(StoreMagicLink(s, admin, token))
  {
  }

  lemma DropKeepsReverse(s: State, token: string)
    requires ReverseIndexed(s) && Get(s.store.magicLinks, token, s.store.now).Some?
    ensures ReverseIndexed(DropMagicLink(s, token))
  {
  }

  lemma StepReverseIndexed(env: Env, s: State, e: Event)
    requires ReverseIndexed(s)
    requires e.MagicRequest? ==> forall a :: a in s.store.magicLinkUsers ==> s.store.magicLinkUsers[a].value != e.draw
    ensures ReverseIndexed(Step(env, s, e).0)
  {
    hide LoginStep, TwoFAVerifyStep, TwoFAResendStep, PasskeyBeginStep, PasskeyFinishStep, PageStep;
    hide LogoutStep, PostStep;
    hide StoreMagicLink, DropMagicLink;
    match e
    case MagicRequest(_, email, draw) =>
      var admin := First(ByEmail(s.accounts, email));
      if admin.Some? { StoreKeepsReverse(s, admin.value, draw); }
    case MagicVerify(token, _) =>
      if Get(s.store.magicLinks, token, s.store.now).Some? { DropKeepsReverse(s, token); }
    case _ =>
  }

  /** The reverse entries follow the links: following or replacing a link takes its reverse entry along. */
  lemma {:induction false} ReverseStaysIndexed(r: Run, n: nat)
    requires ColdStart(r.start) && Fresh(r.events) && n <= |r.events|
    ensures ReverseIndexed(r.At(n))
    decreases n
  {
    hide Step, HasAddress;
    if n > 0 {
      ReverseStaysIndexed(r, n - 1);
      var s, e := r.At(n - 1), r.events[n - 1];
      if e.MagicRequest? {
        forall a | a in s.store.magicLinkUsers ensures s.store.magicLinkUsers[a].value != e.draw {
          var j := ReverseOrigin(r, n - 1, a);
          assert Drawn(r.events[j]) != Drawn(e);
        }
      }
      hide ReverseIndexed;
      StepReverseIndexed(r.env, s, e);
    }
  }

  /** A live link stands: nobody followed it, and its admin was mailed no other since. */
  lemma LiveLinkStands(r: Run, j: nat, i: nat, token: string, admin: AdminId)
    requires ColdStart(r.start) && Fresh(r.events) && j < i < |r.events| && LinkMailedAt(r, j, token, admin)
    requires Get(r.At(i).store.magicLinks, token, r.Now(i)) == Some(admin)
    ensures LinkStands(r, j, i, token, admin)
  {
    hide Step, HasAddress;
    forall k | j < k < i
      ensures !(r.events[k].MagicVerify? && r.events[k].token == token)
      ensures !(r.events[k].MagicRequest? && LinkMailedAt(r, k, r.events[k].draw, admin))
    {
      LinkPersists(r, j, k, i, token);
      LinksStayIndexed(r, k);
      ClockMonotone(r, k, i);
      if RetiresLink(r.At(k), r.events[k], token) {
        LinkStep(r.env, r.At(k), r.events[k], token);
        StaysGone(r, j, k + 1, i, MagicLinks, token);
        assert false;
      }
    }
  }

  /** A link opens a session only while it is the newest one mailed to its admin. */
  lemma OnlyNewestLink(r: Run, i: nat, j: nat, k: nat, admin: AdminId)
    requires ColdStart(r.start) && Fresh(r.events) && j < k < i < |r.events|
    requires r.events[i].MagicVerify? && r.Answer(i).SessionOpened?
    requires r.events[j].MagicRequest? && r.events[j].draw == r.events[i].token
    requires LinkMailedAt(r, j, r.events[i].token, admin)
    ensures r.events[k].MagicRequest? ==> !LinkMailedAt(r, k, r.events[k].draw, admin)
  {
    hide Step, HasAddress;
    var token := r.events[i].token;
    var owner := r.Answer(i).admin;
    StepSessions(r.env, r.At(i), r.events[i]);
    StepOpensIff(r.env, r.At(i), r.events[i], owner);
    LinkPersists(r, j, j + 1, i, token);
    StepLinks(r.env, r.At(j), r.events[j], token);
    LiveLinkStands(r, j, i, token, admin);
  }

  /** A link present at i was present, unchanged, ever since it was drawn. */
  lemma {:induction false} LinkPersists(r: Run, j: nat, k: nat, i: nat, token: string)
    requires Fresh(r.events) && j < k <= i < |r.events| && Drawn(r.events[j]) == Some(token)
    requires token in r.At(i).store.magicLinks
    ensures token in r.At(k).store.magicLinks && r.At(k).store.magicLinks[token] == r.At(i).store.magicLinks[token]
    decreases i
  {
    hide Step, HasAddress;
    if k < i {
      LinkStep(r.env, r.At(i - 1), r.events[i - 1], token);
      LinkPersists(r, j, k, i - 1, token);
    }
  }
}
