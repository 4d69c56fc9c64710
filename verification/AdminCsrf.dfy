/** The CSRF token of a session is stable for as long as the session lives. */
module AdminCsrf {
  import opened Wrappers
  import opened TtlStore
  import opened AdminProtocol
  import opened AdminRuns
  import opened AdminProvenance

  lemma PageCsrf(s: State, cookie: string, draw: string)
    ensures var after := PageStep(s, cookie, draw).0.store.csrf;
            || after == s.store.csrf
            || (&& SessionOwner(s, cookie).Some?
                && (Get(s.store.csrf, cookie, s.store.now).None? || s.store.csrf[cookie].value == "")
                && after == Put(s.store.csrf, cookie, draw, SessionTtl(s.sessionHours), s.store.now))
  {
  }

  lemma LogoutCsrf(s: State, e: Event)
    requires e.Logout?
    ensures LogoutStep(s, e).0.store.csrf == PageStep(s, e.cookie, e.draw).0.store.csrf
  {
    hide EnsureCsrf;
  }

  /** CSRF entries are written only for a live session that has no token, and never removed. */
  lemma StepCsrf(env: Env, s: State, e: Event, sid: string)
    ensures var after := Step(env, s, e).0.store.csrf;
            || (sid !in s.store.csrf && sid !in after)
            || (sid in s.store.csrf && sid in after && s.store.csrf[sid] == after[sid])
            || (&& (e.Page? || e.Logout?) && e.cookie == sid && SessionOwner(s, sid).Some?
                && (Get(s.store.csrf, sid, s.store.now).None? || s.store.csrf[sid].value == "")
                && sid in after && after[sid] == Entry(Drawn(e).value, s.store.now + SessionTtl(s.sessionHours)))
  {
    hide LoginStep, TwoFAVerifyStep, TwoFAResendStep, PasskeyBeginStep, PasskeyFinishStep, MagicRequestStep;
    hide MagicVerifyStep, PageStep, LogoutStep, PostStep;
    if e.Page? || e.Logout? { PageCsrf(s, e.cookie, e.draw); }
    if e.Logout? { LogoutCsrf(s, e); }
  }

  lemma StepServes(env: Env, s: State, e: Event)
    requires e.Page? && Step(env, s, e).1.PageServed?
    ensures SessionOwner(s, e.cookie).Some? && Step(env, s, e).1.csrf != ""
    ensures Get(Step(env, s, e).0.store.csrf, e.cookie, s.store.now) == Some(Step(env, s, e).1.csrf)
    ensures Step(env, s, e).0.store.sessions == s.store.sessions
  {
    hide LoginStep, TwoFAVerifyStep, TwoFAResendStep, PasskeyBeginStep, PasskeyFinishStep, MagicRequestStep;
    hide MagicVerifyStep, LogoutStep, PostStep;
  }

  /** The token on file lasts at least as long as the session. */
  ghost predicate TokenOutlives(s: State, sid: string) {
    sid in s.store.csrf && sid in s.store.sessions && s.store.sessions[sid].expiry <= s.store.csrf[sid].expiry
  }

  /** A session present at n was there, with the same owner and expiry, ever since it was opened. */
  lemma {:induction false} SessionPersists(r: Run, j: nat, k: nat, n: nat, sid: string)
    requires Fresh(r.events) && j < k <= n <= |r.events| && Drawn(r.events[j]) == Some(sid)
    requires sid in r.At(n).store.sessions
    ensures sid in r.At(k).store.sessions && r.At(k).store.sessions[sid] == r.At(n).store.sessions[sid]
    decreases n
  {
    hide Step;
    if k < n {
      StepSessions(r.env, r.At(n - 1), r.events[n - 1]);
      SessionPersists(r, j, k, n - 1, sid);
    }
  }

  /** From a page that served `token` on, while the session lives: the entry is unchanged. */
  lemma {:induction false} EntryUnchanged(r: Run, m: nat, n: nat, sid: string)
    requires ColdStart(r.start) && Fresh(r.events) && m <= n <= |r.events|
    requires TokenOutlives(r.At(m), sid) && r.At(m).store.csrf[sid].value != ""
    requires sid in r.At(n).store.sessions && r.Now(n) < r.At(n).store.sessions[sid].expiry
    ensures sid in r.At(n).store.csrf && r.At(n).store.csrf[sid] == r.At(m).store.csrf[sid]
    ensures r.At(n).store.sessions[sid] == r.At(m).store.sessions[sid]
    decreases n
  {
    hide Step;
    var j := KeyWasDrawn(r, m, Sessions, sid);
    SessionPersists(r, j, m, n, sid);
    if m < n {
      SessionPersists(r, j, n - 1, n, sid);
      ClockMonotone(r, n - 1, n);
      EntryUnchanged(r, m, n - 1, sid);
      StepCsrf(r.env, r.At(n - 1), r.events[n - 1], sid);
    }
  }

  /** Once a page has served a token that outlives its session, then for as long as the session lives the
      middleware keeps serving that token, and accepts that token and no other. */
  lemma CsrfTokenIsStable(r: Run, i: nat, n: nat, sid: string, token: string)
    requires ColdStart(r.start) && Fresh(r.events) && i < n <= |r.events|
    requires r.events[i].Page? && r.events[i].cookie == sid && r.Answer(i) == PageServed(token)
    requires TokenOutlives(r.At(i + 1), sid)
    requires SessionOwner(r.At(n), sid).Some?
    ensures forall draw :: EnsureCsrf(r.At(n), sid, draw) == (r.At(n), token)
    ensures forall t :: CsrfAccepts(r.At(n), sid, t) <==> t == token
  {
    hide Step;
    StepServes(r.env, r.At(i), r.events[i]);
    EntryUnchanged(r, i + 1, n, sid);
  }

  /** While the configured lifetime does not change, every token outlives its session. */
  lemma {:induction false} TokensOutlive(r: Run, n: nat, sid: string)
    requires ColdStart(r.start) && Fresh(r.events) && n <= |r.events|
    requires forall i, k :: 0 <= i <= |r.events| && 0 <= k <= |r.events| ==>
               r.At(i).sessionHours == r.At(k).sessionHours
    requires sid in r.At(n).store.csrf && sid in r.At(n).store.sessions
    ensures TokenOutlives(r.At(n), sid)
    decreases n
  {
    hide Step;
    StepCsrf(r.env, r.At(n - 1), r.events[n - 1], sid);
    StepSessions(r.env, r.At(n - 1), r.events[n - 1]);
    var j := SessionOrigin(r, n, sid);
    ClockMonotone(r, j, n - 1);
    if sid in r.At(n - 1).store.csrf && r.At(n - 1).store.csrf[sid] == r.At(n).store.csrf[sid] {
      if sid in r.At(n - 1).store.sessions && r.At(n - 1).store.sessions[sid] == r.At(n).store.sessions[sid] {
        TokensOutlive(r, n - 1, sid);
      } else {
        CsrfNeedsSession(r, n - 1, sid);
        assert false;
      }
    }
  }

  lemma StepHours(env: Env, s: State, e: Event)
    requires !e.Configure?
    ensures Step(env, s, e).0.sessionHours == s.sessionHours
  {
    hide LoginStep, TwoFAVerifyStep, TwoFAResendStep, PasskeyBeginStep, PasskeyFinishStep, MagicRequestStep;
    hide MagicVerifyStep, PageStep, LogoutStep, PostStep;
  }

  lemma {:induction false} HoursUnchanged(r: Run, n: nat)
    requires n <= |r.events| && forall k :: 0 <= k < |r.events| ==> !r.events[k].Configure?
    ensures r.At(n).sessionHours == r.start.sessionHours
    decreases n
  {
    hide Step;
    if n > 0 {
      HoursUnchanged(r, n - 1);
      StepHours(r.env, r.At(n - 1), r.events[n - 1]);
    }
  }

  /** While the lifetime is not reconfigured: once a page has served a token, then for as long as the session lives
      the middleware keeps serving that token, and accepts that token and no other. */
  lemma StableUnderOneLifetime(r: Run, i: nat, n: nat, sid: string, token: string)
    requires ColdStart(r.start) && Fresh(r.events) && i < n <= |r.events|
    requires forall k :: 0 <= k < |r.events| ==> !r.events[k].Configure?
    requires r.events[i].Page? && r.events[i].cookie == sid && r.Answer(i) == PageServed(token)
    requires SessionOwner(r.At(n), sid).Some?
    ensures forall draw :: EnsureCsrf(r.At(n), sid, draw) == (r.At(n), token)
    ensures forall t :: CsrfAccepts(r.At(n), sid, t) <==> t == token
  {
    hide Step;
    forall k | 0 <= k <= |r.events| ensures r.At(k).sessionHours == r.start.sessionHours { HoursUnchanged(r, k); }
    StepServes(r.env, r.At(i), r.events[i]);
    TokensOutlive(r, i + 1, sid);
    CsrfTokenIsStable(r, i, n, sid, token);
  }

  /** A CSRF entry is only ever written for a session already drawn. */
  lemma {:induction false} CsrfOrigin(r: Run, n: nat, sid: string) returns (j: nat)
    requires ColdStart(r.start) && n <= |r.events| && sid in r.At(n).store.csrf
    ensures j < n && Drawn(r.events[j]) == Some(sid)
    decreases n
  {
    hide Step;
    StepCsrf(r.env, r.At(n - 1), r.events[n - 1], sid);
    if sid in r.At(n - 1).store.csrf {
      j := CsrfOrigin(r, n - 1, sid);
    } else {
      j := KeyWasDrawn(r, n - 1, Sessions, sid);
    }
  }

  /** A session id that already has a CSRF entry is not drawn again. */
  lemma CsrfNeedsSession(r: Run, n: nat, sid: string)
    requires ColdStart(r.start) && Fresh(r.events) && n < |r.events| && sid in r.At(n).store.csrf
    ensures Drawn(r.events[n]) != Some(sid)
  {
    hide Step;
    var j := CsrfOrigin(r, n, sid);
  }

  /** A token that is accepted was drawn for that very session, by a page request it was live for. */
  lemma {:induction false} AcceptedTokenWasDrawn(r: Run, n: nat, sid: string, token: string) returns (k: nat)
    requires ColdStart(r.start) && n <= |r.events|
    requires sid in r.At(n).store.csrf && r.At(n).store.csrf[sid].value == token
    ensures k < n && (r.events[k].Page? || r.events[k].Logout?) && r.events[k].cookie == sid
    ensures Drawn(r.events[k]) == Some(token) && SessionOwner(r.At(k), sid).Some?
    ensures r.At(n).store.csrf[sid].expiry == r.Now(k) + SessionTtl(r.At(k).sessionHours)
    decreases n
  {
    hide Step;
    StepCsrf(r.env, r.At(n - 1), r.events[n - 1], sid);
    if sid in r.At(n - 1).store.csrf && r.At(n - 1).store.csrf[sid] == r.At(n).store.csrf[sid] {
      k := AcceptedTokenWasDrawn(r, n - 1, sid, token);
    } else {
      k := n - 1;
    }
  }

  ghost function After(env: Env, s: State, seconds: nat): State {
    Step(env, s, Tick(seconds)).0
  }

  /** Stable through the whole life of the session exactly when the token outlives it: with a shorter
      lifetime (the configuration changed in between) the token dies first and is replaced. */
  lemma StableIffTokenOutlives(env: Env, s: State, sid: string, token: string)
    requires SessionOwner(s, sid).Some? && CsrfAccepts(s, sid, token)
    ensures TokenOutlives(s, sid) <==>
            forall seconds: nat :: SessionOwner(After(env, s, seconds), sid).Some? ==>
              CsrfAccepts(After(env, s, seconds), sid, token)
    ensures !TokenOutlives(s, sid) ==>
            var late := After(env, s, s.store.csrf[sid].expiry - s.store.now);
            && SessionOwner(late, sid).Some? && forall draw :: EnsureCsrf(late, sid, draw).1 == draw
  {
    if !TokenOutlives(s, sid) {
      var wait := s.store.csrf[sid].expiry - s.store.now;
      assert SessionOwner(After(env, s, wait), sid).Some? && !CsrfAccepts(After(env, s, wait), sid, token);
    }
  }

  lemma RootLogsIn(env: Env, s: State)
    requires s.accounts.Keys == {0} && s.accounts[0].username == "root" && !s.accounts[0].twoFAEnabled
    requires env.passwordMatches(s.accounts[0].passwordHash, "pw")
    ensures Step(env, s, Login(false, "root", "pw", "sid", "")) == OpenSession(s, 0, "sid")
  {
    assert ByUsernameOrEmail(s.accounts, "root") == {0};
  }

  lemma PageServes(env: Env, s: State, sid: string, draw: Token)
    requires sid != "" && sid in s.store.sessions && s.store.now < s.store.sessions[sid].expiry
    requires s.store.sessions[sid].value in s.accounts && Get(s.store.csrf, sid, s.store.now).None?
    ensures Step(env, s, Page(sid, draw))
            == (s.WithCsrf(Put(s.store.csrf, sid, draw, SessionTtl(s.sessionHours), s.store.now)), PageServed(draw))
  {
    hide LoginStep, TwoFAVerifyStep, TwoFAResendStep, PasskeyBeginStep, PasskeyFinishStep, MagicRequestStep;
    hide MagicVerifyStep, LogoutStep, PostStep;
  }

  lemma SurroundingsStep(env: Env, s: State)
    ensures forall hours :: Step(env, s, Configure(hours)) == (s.(sessionHours := hours), Silent)
    ensures forall seconds: nat ::
              Step(env, s, Tick(seconds)) == (s.WithStore(s.store.(now := s.store.now + seconds)), Silent)
  {
    hide LoginStep, TwoFAVerifyStep, TwoFAResendStep, PasskeyBeginStep, PasskeyFinishStep, MagicRequestStep;
    hide MagicVerifyStep, PageStep, LogoutStep, PostStep;
  }

  ghost function ShorteningRun(env: Env, root: Account): Run {
    var store := Store(0, map[], map[], map[], map[], map[], map[], map[], map[]);
    Run(env, State(map[0 := root], store, map[], 8),
        [Login(false, "root", "pw", "sid", ""), Configure(1), Page("sid", "first"), Tick(3600), Page("sid", "second")])
  }

  /** A run that gets there: the lifetime is shortened between the login and the first page, and an hour later the
      session lives on with another token. */
  lemma ShortenedLifetimeReplacesToken(env: Env, root: Account)
    requires env.passwordMatches(root.passwordHash, "pw") && !root.twoFAEnabled && root.username == "root"
    ensures var r := ShorteningRun(env, root);
            && ColdStart(r.start) && Fresh(r.events)
            && r.Answer(2) == PageServed("first") && !TokenOutlives(r.At(3), "sid")
            && r.Answer(4) == PageServed("second") && SessionOwner(r.At(5), "sid") == Some(0)
  {
    var r := ShorteningRun(env, root);
    hide Step;
    var s1 := r.start.WithSessions(map["sid" := Entry(0, 28800)]);
    var s3 := s1.(sessionHours := 1).WithCsrf(map["sid" := Entry("first", 3600)]);
    RootLogsIn(env, r.start);
    SurroundingsStep(env, s1);
    assert r.At(1) == s1;
    assert r.At(2) == s1.(sessionHours := 1);
    PageServes(env, r.At(2), "sid", "first");
    assert r.At(3) == s3;
    SurroundingsStep(env, s3);
    assert r.At(4) == s3.WithStore(s3.store.(now := 3600));
    PageServes(env, r.At(4), "sid", "second");
    assert r.At(5).store.sessions == s1.store.sessions && r.At(5).store.now == 3600;
  }
}
