/** What the handlers guarantee when they serve any requests from a cold start: a new service over any account
    rows, with empty Redis keyspaces. */
module AdminServer {
  import opened Wrappers
  import opened AdminProtocol
  import opened AdminRuns
  import opened AdminProvenance
  import opened AdminAccounts
  import opened AdminActions
  import opened AdminCsrf
  import opened AdminGui

  /** The run that a new service goes through. */
  ghost function ColdRun(env: Env, rows: Accounts, hours: int, events: seq<Event>): (r: Run)
    ensures ColdStart(r.start) && r.start.accounts == rows && r.env == env && r.events == events
  {
    var store := Store(0, map[], map[], map[], map[], map[], map[], map[], map[]);
    Run(env, State(rows, store, map[], hours), events)
  }

  method ServeCold(env: Env, rows: Accounts, hours: int, events: seq<Event>)
    returns (service: AccountService, answers: seq<Response>)
    ensures fresh(service) && fresh(service.repo) && fresh(service.redis) && service.env == env
    ensures |answers| == |events|
    ensures var r := ColdRun(env, rows, hours, events);
            service.View() == r.At(|events|) && forall i :: 0 <= i < |events| ==> answers[i] == r.Answer(i)
  {
    service := new AccountService(env, rows, hours);
    var handler := new GUIHandler(service);
    answers := handler.ServeAll(events);
  }

  /** Answer k ended the session of the cookie. */
  predicate EndsSession(events: seq<Event>, answers: seq<Response>, k: nat, cookie: string)
    requires k < |events| == |answers|
  {
    events[k].Logout? && events[k].cookie == cookie && answers[k].LoggedOut?
  }

  /** A cookie that the service honours after the requests was handed out by exactly one of the answers, to an admin
      whom that request entitled, and no later answer ended the session. */
  method HonouredCookie(env: Env, rows: Accounts, hours: int, events: seq<Event>, cookie: string)
    returns (admin: Option<AdminId>, answers: seq<Response>, ghost origin: nat)
    requires Fresh(events)
    ensures |answers| == |events|
    ensures admin.Some? ==>
            && origin < |events| && answers[origin] == SessionOpened(cookie, admin.value)
            && Entitled(ColdRun(env, rows, hours, events), origin, admin.value)
            && (forall k :: 0 <= k < |events| && answers[k].SessionOpened? && answers[k].sid == cookie ==> k == origin)
            && (forall k :: origin < k < |events| ==> !EndsSession(events, answers, k, cookie))
  {
    hide Step, Entitled;
    var service;
    service, answers := ServeCold(env, rows, hours, events);
    admin := service.ValidateSession(cookie);
    origin := 0;
    if admin.Some? {
      ghost var r := ColdRun(env, rows, hours, events);
      origin := SessionProvenance(r, |events|, cookie, admin.value);
      forall k | origin < k < |events| ensures !EndsSession(events, answers, k, cookie) {
        assert !LogsOut(r, k, cookie);
      }
    }
  }

  /** An answer opens a session for an admin exactly when the request entitles the admin to it, and a request of a
      logged-in admin is refused exactly when it is not warranted. */
  method AnswersAreJust(env: Env, rows: Accounts, hours: int, events: seq<Event>) returns (answers: seq<Response>)
    requires Fresh(events)
    ensures |answers| == |events|
    ensures forall i, admin: AdminId :: 0 <= i < |events| ==>
              (Drawn(events[i]).Some? && answers[i] == SessionOpened(Drawn(events[i]).value, admin) <==>
               Entitled(ColdRun(env, rows, hours, events), i, admin))
    ensures forall i, admin: AdminId ::
              0 <= i < |events| && ActsAt(ColdRun(env, rows, hours, events), i, admin) ==>
                (answers[i].Rejected? <==> !Warranted(ColdRun(env, rows, hours, events), i, admin))
  {
    hide Step, Entitled, Warranted;
    var service;
    service, answers := ServeCold(env, rows, hours, events);
    ghost var r := ColdRun(env, rows, hours, events);
    forall i, admin: AdminId | 0 <= i < |events|
      ensures Drawn(events[i]).Some? && answers[i] == SessionOpened(Drawn(events[i]).value, admin) <==>
              Entitled(r, i, admin)
    {
      OpensIffEntitled(r, i, admin);
    }
    forall i, admin: AdminId | 0 <= i < |events| && ActsAt(r, i, admin)
      ensures answers[i].Rejected? <==> !Warranted(r, i, admin)
    {
      AcceptedIffWarranted(r, i, admin);
    }
  }

  /** No two sessions that the answers open stem from one temporary token, magic link or passkey challenge. */
  method SessionsOpened(env: Env, rows: Accounts, hours: int, events: seq<Event>) returns (answers: seq<Response>)
    requires Fresh(events)
    ensures |answers| == |events|
    ensures forall i, j ::
              (0 <= i < j < |events| && answers[i].SessionOpened? && answers[j].SessionOpened?
               && Spends(events[i]).Some?)
              ==> Spends(events[i]) != Spends(events[j])
  {
    hide Step;
    var service;
    service, answers := ServeCold(env, rows, hours, events);
    forall i, j | 0 <= i < j < |events| && answers[i].SessionOpened? && answers[j].SessionOpened?
                  && Spends(events[i]).Some?
      ensures Spends(events[i]) != Spends(events[j])
    {
      SingleUse(ColdRun(env, rows, hours, events), i, j);
    }
  }

  /** Sound rows stay sound, and no row appears or vanishes. */
  method RowsAfter(env: Env, rows: Accounts, hours: int, events: seq<Event>) returns (after: Accounts)
    requires forall id :: id in rows ==> SoundAccount(rows[id])
    ensures after.Keys == rows.Keys
    ensures forall id :: id in after ==> SoundAccount(after[id])
  {
    hide Step, SoundAccount;
    var service, answers := ServeCold(env, rows, hours, events);
    ghost var r := ColdRun(env, rows, hours, events);
    AccountsStaySound(r, |events|);
    SameRows(r, |events|);
    after := service.repo.rows;
  }

  /** The recovery codes that the answers let through for the admin, oldest first. */
  function CodesTaken(events: seq<Event>, answers: seq<Response>, admin: AdminId): seq<string>
    requires |events| == |answers|
  {
    if events == [] then []
    else
      var n := |events| - 1;
      var e := events[n];
      CodesTaken(events[..n], answers[..n], admin)
      + if e.TwoFAVerify? && e.useRecovery && answers[n] == SessionOpened(e.draw, admin) then [e.code] else []
  }

  /** Answer k gave the admin new recovery codes, or none: the request passed, and its cookie was handed out to that
      admin by an earlier answer. */
  predicate IssuedTo(events: seq<Event>, answers: seq<Response>, k: nat, admin: AdminId)
    requires k < |events| == |answers|
  {
    && events[k].Post? && !answers[k].Rejected?
    && (events[k].action.VerifyTOTP? || events[k].action.EnableEmail2FA? || events[k].action.Disable2FA?
        || events[k].action.RegenerateCodes?)
    && exists j :: 0 <= j < k && answers[j] == SessionOpened(events[k].cookie, admin)
  }

  predicate NoneIssued(events: seq<Event>, answers: seq<Response>, from: nat, to: nat, admin: AdminId)
    requires to <= |events| == |answers|
  {
    forall k :: from <= k < to ==> !IssuedTo(events, answers, k, admin)
  }

  ghost predicate Answers(r: Run, answers: seq<Response>) {
    |answers| == |r.events| && forall i :: 0 <= i < |answers| ==> answers[i] == r.Answer(i)
  }

  lemma IssueShows(r: Run, answers: seq<Response>, k: nat, admin: AdminId)
    requires ColdStart(r.start) && Answers(r, answers) && k < |r.events|
    requires Issues(r.env, r.At(k), r.events[k], admin)
    ensures IssuedTo(r.events, answers, k, admin)
  {
    hide Step;
    var j := SessionOrigin(r, k, r.events[k].cookie);
    assert answers[j] == SessionOpened(r.events[k].cookie, admin);
  }

  lemma ShownIsIssue(r: Run, answers: seq<Response>, k: nat, admin: AdminId)
    requires ColdStart(r.start) && Fresh(r.events) && Answers(r, answers) && k < |r.events|
    requires IssuedTo(r.events, answers, k, admin)
    ensures Issues(r.env, r.At(k), r.events[k], admin)
  {
    hide Step;
    var e := r.events[k];
    PassedPost(r.env, r.At(k), e);
    var owner := SessionOwner(r.At(k), e.cookie).value;
    var j := SessionProvenance(r, k, e.cookie, owner);
  }

  lemma PassedPost(env: Env, s: State, e: Event)
    requires e.Post? && !Step(env, s, e).1.Rejected?
    ensures SessionOwner(s, e.cookie).Some? && CsrfAccepts(s, e.cookie, e.csrf)
  {
    hide LoginStep, TwoFAVerifyStep, TwoFAResendStep, PasskeyBeginStep, PasskeyFinishStep, MagicRequestStep;
    hide MagicVerifyStep, PageStep, LogoutStep;
  }

  lemma TakenExtends(events: seq<Event>, answers: seq<Response>, m: nat, n: nat, admin: AdminId)
    requires m < n <= |events| == |answers|
    ensures var e := events[n - 1];
            CodesTaken(events[m..n], answers[m..n], admin)
            == CodesTaken(events[m..n - 1], answers[m..n - 1], admin)
               + if e.TwoFAVerify? && e.useRecovery && answers[n - 1] == SessionOpened(e.draw, admin) then [e.code]
                 else []
  {
    assert events[m..n][..n - 1 - m] == events[m..n - 1] && answers[m..n][..n - 1 - m] == answers[m..n - 1];
  }

  lemma {:induction false} TakenIsSpent(r: Run, m: nat, n: nat, answers: seq<Response>, admin: AdminId)
    requires m <= n <= |r.events| && Answers(r, answers)
    ensures CodesTaken(r.events[m..n], answers[m..n], admin) == Spent(r, m, n, admin)
    decreases n
  {
    hide Step;
    if m == n {
      assert r.events[m..n] == [];
    } else {
      hide CodesTaken, SpendsRecoveryCode, Answers;
      TakenIsSpent(r, m, n - 1, answers, admin);
      TakenExtends(r.events, answers, m, n, admin);
      SpendsShows(r, answers, n - 1, admin);
    }
  }

  lemma SpendsShows(r: Run, answers: seq<Response>, i: nat, admin: AdminId)
    requires Answers(r, answers) && i < |r.events|
    ensures |answers| == |r.events|
    ensures SpendsRecoveryCode(r.env, r.At(i), r.events[i], admin) <==>
            r.events[i].TwoFAVerify? && r.events[i].useRecovery && answers[i] == SessionOpened(r.events[i].draw, admin)
  {
    hide Step;
    assert answers[i] == r.Answer(i);
  }

  /** While the answers issue no new ones, an admin's recovery codes are conserved: those on the row at the start are,
      as a multiset, those still on it and those the answers let through, and the row keeps their order. */
  method CodesAfter(env: Env, rows: Accounts, hours: int, events: seq<Event>, admin: AdminId)
    returns (left: Option<seq<string>>, answers: seq<Response>)
    requires admin in rows && rows[admin].recoveryCodes.Some?
    ensures |answers| == |events|
    ensures NoneIssued(events, answers, 0, |events|, admin) ==>
              && left.Some?
              && multiset(rows[admin].recoveryCodes.value)
                 == multiset(left.value) + multiset(CodesTaken(events, answers, admin))
              && IsSubsequence(left.value, rows[admin].recoveryCodes.value)
  {
    hide Step, Issues, IssuedTo;
    var service;
    service, answers := ServeCold(env, rows, hours, events);
    ghost var r := ColdRun(env, rows, hours, events);
    SameRows(r, |events|);
    left := service.repo.rows[admin].recoveryCodes;
    if NoneIssued(events, answers, 0, |events|, admin) {
      forall k | 0 <= k < |events| ensures !Issues(env, r.At(k), events[k], admin) {
        if Issues(env, r.At(k), events[k], admin) { IssueShows(r, answers, k, admin); }
      }
      RecoveryCodesConserved(r, 0, |events|, admin);
      TakenIsSpent(r, 0, |events|, answers, admin);
      assert events[0..|events|] == events && answers[0..|answers|] == answers;
    }
  }

  /** If answer i issued codes and none before n did again, at most eight were let through in between. */
  predicate AtMostEight(events: seq<Event>, answers: seq<Response>, i: nat, n: nat, admin: AdminId)
    requires i < n <= |events| == |answers|
  {
    IssuedTo(events, answers, i, admin) && NoneIssued(events, answers, i + 1, n, admin)
    ==> |CodesTaken(events[i + 1..n], answers[i + 1..n], admin)| <= RECOVERY_CODE_COUNT
  }

  lemma IssueBounds(r: Run, answers: seq<Response>, i: nat, n: nat, admin: AdminId)
    requires ColdStart(r.start) && Fresh(r.events) && Answers(r, answers) && i < n <= |r.events|
    ensures AtMostEight(r.events, answers, i, n, admin)
  {
    hide Step, Issues, IssuedTo, Spent, CodesTaken;
    if IssuedTo(r.events, answers, i, admin) && NoneIssued(r.events, answers, i + 1, n, admin) {
      ShownIsIssue(r, answers, i, admin);
      forall k | i < k < n ensures !Issues(r.env, r.At(k), r.events[k], admin) {
        if Issues(r.env, r.At(k), r.events[k], admin) { IssueShows(r, answers, k, admin); }
      }
      AtMostEightPerIssue(r, i, n, admin);
      TakenIsSpent(r, i + 1, n, answers, admin);
    }
  }

  /** After each issue the answers let at most eight recovery codes of the admin through before the next issue. */
  method RecoveryLogins(env: Env, rows: Accounts, hours: int, events: seq<Event>, admin: AdminId)
    returns (answers: seq<Response>)
    requires Fresh(events)
    ensures |answers| == |events|
    ensures forall i, n :: 0 <= i < n <= |events| ==> AtMostEight(events, answers, i, n, admin)
  {
    hide Step, AtMostEight;
    var service;
    service, answers := ServeCold(env, rows, hours, events);
    forall i, n | 0 <= i < n <= |events| ensures AtMostEight(events, answers, i, n, admin) {
      IssueBounds(ColdRun(env, rows, hours, events), answers, i, n, admin);
    }
  }

  /** When the rows are sound, a refused request changed nothing: the service is as it was just before it. */
  method RefusedLast(env: Env, rows: Accounts, hours: int, events: seq<Event>, last: Event)
    returns (service: AccountService, ghost before: State, answer: Response)
    requires forall id :: id in rows ==> SoundAccount(rows[id])
    ensures fresh(service) && fresh(service.repo) && fresh(service.redis)
    ensures before == ColdRun(env, rows, hours, events).At(|events|)
    ensures answer.Rejected? ==> service.View() == before
  {
    hide Step, SoundAccount, First;
    var answers;
    service, answers := ServeCold(env, rows, hours, events);
    before := service.View();
    var handler := new GUIHandler(service);
    answer := handler.Serve(last);
    if answer.Rejected? {
      RefusedAfter(ColdRun(env, rows, hours, events), last);
    }
  }

  predicate ServesPage(e: Event, answer: Response, cookie: string) {
    e.Page? && e.cookie == cookie && answer.PageServed?
  }

  /** While the lifetime is not reconfigured: if any answer served a page of the session with a token, and the session
      is still honoured at the end, the service accepts exactly that token and serves it again. */
  method TokenAfter(env: Env, rows: Accounts, hours: int, events: seq<Event>, cookie: string, sent: string, draw: Token)
    returns (answers: seq<Response>, honoured: bool, accepted: bool, next: string)
    requires Fresh(events) && forall k :: 0 <= k < |events| ==> !events[k].Configure?
    ensures |answers| == |events|
    ensures honoured ==>
              forall i :: 0 <= i < |events| && ServesPage(events[i], answers[i], cookie) ==>
                (accepted <==> sent == answers[i].csrf) && next == answers[i].csrf
  {
    hide Step;
    var service;
    service, answers := ServeCold(env, rows, hours, events);
    ghost var r := ColdRun(env, rows, hours, events);
    var admin := service.ValidateSession(cookie);
    honoured := admin.Some?;
    accepted := service.ValidateCSRFToken(cookie, sent);
    next := service.GenerateCSRFToken(cookie, draw);
    forall i | 0 <= i < |events| && ServesPage(events[i], answers[i], cookie) && honoured
      ensures (accepted <==> sent == answers[i].csrf) && next == answers[i].csrf
    {
      StableUnderOneLifetime(r, i, |events|, cookie, answers[i].csrf);
    }
  }
}
