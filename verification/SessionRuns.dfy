/** Runs of user sessions: operations on the stores of all apps, under one clock. */
module SessionRuns {
  import opened Wrappers
  import opened SessionStore

  datatype System = System(apps: map<AppId, AppStore>, now: nat) {
    function Store(app: AppId): AppStore {
      StoreOf(apps, app)
    }
  }

  datatype Request =
    | At(app: AppId, op: Op)
    | Pass(seconds: nat)

  function Handled(s: System, request: Request): System {
    match request
    case At(app, op) => s.(apps := s.apps[app := Performed(s.Store(app), op, s.now)])
    case Pass(seconds) => s.(now := s.now + seconds)
  }

  /** The stores after the requests, from empty ones. */
  function Run(requests: seq<Request>): System {
    if requests == [] then System(map[], 0)
    else Handled(Run(requests[..|requests| - 1]), requests[|requests| - 1])
  }

  ghost predicate LegalAt(s: System, request: Request) {
    request.At? ==> Allowed(s.Store(request.app), request.op)
  }

  ghost predicate PunctualAt(s: System, request: Request) {
    request.At? ==> InTime(s.Store(request.app), request.op, s.now)
  }

  ghost predicate Legal(requests: seq<Request>) {
    forall i :: 0 <= i < |requests| ==> LegalAt(Run(requests[..i]), requests[i])
  }

  /** Every login and rotation comes in time. */
  ghost predicate Punctual(requests: seq<Request>) {
    forall i :: 0 <= i < |requests| ==> PunctualAt(Run(requests[..i]), requests[i])
  }

  ghost predicate AllOwnIds(s: System) {
    forall app :: OwnIds(s.Store(app))
  }

  ghost predicate AllCovered(s: System) {
    forall app :: Covered(s.Store(app), s.now)
  }

  lemma RequestKeepsOwnIds(s: System, request: Request)
    requires AllOwnIds(s) && LegalAt(s, request)
    ensures AllOwnIds(Handled(s, request))
  {
    hide OwnIds, Performed;
    if request.At? { StepKeepsOwnIds(s.Store(request.app), request.op, s.now); }
    forall app ensures OwnIds(Handled(s, request).Store(app)) {
      assert OwnIds(s.Store(app));
    }
  }

  lemma StaysCovered(s: AppStore, now: nat, later: nat)
    requires Covered(s, now) && now <= later
    ensures Covered(s, later)
  {
    forall sid | s.Exists(sid, later) ensures CoveredSession(s, sid) {
      assert s.Exists(sid, now);
    }
  }

  /** A request keeps every store covered exactly when it is punctual. */
  lemma RequestKeepsCoveredIff(s: System, request: Request)
    requires AllOwnIds(s) && AllCovered(s) && LegalAt(s, request)
    ensures AllCovered(Handled(s, request)) <==> PunctualAt(s, request)
  {
    hide OwnIds, Covered, Performed, InTime, Allowed;
    var s' := Handled(s, request);
    forall app | request.Pass? ensures Covered(s'.Store(app), s'.now) {
      StaysCovered(s.Store(app), s.now, s'.now);
    }
    if request.At? {
      StepKeepsCoveredIff(s.Store(request.app), request.op, s.now);
      assert Covered(s'.Store(request.app), s.now) <==> PunctualAt(s, request);
      forall app | app != request.app ensures Covered(s'.Store(app), s.now) {
        assert s'.Store(app) == s.Store(app);
      }
    }
  }

  lemma EmptyRun()
    ensures AllOwnIds(Run([])) && AllCovered(Run([]))
  {
  }

  /** After any legal run every index names its own user's sessions. */
  lemma {:induction false} RunsOwnIds(requests: seq<Request>, i: nat)
    requires Legal(requests) && i <= |requests|
    ensures AllOwnIds(Run(requests[..i]))
  {
    hide LegalAt, Handled, AllOwnIds;
    if i == 0 {
      EmptyRun();
    } else {
      RunsOwnIds(requests, i - 1);
      assert requests[..i][..i - 1] == requests[..i - 1];
      RequestKeepsOwnIds(Run(requests[..i - 1]), requests[i - 1]);
    }
  }

  lemma {:induction false} PunctualCovers(requests: seq<Request>, i: nat)
    requires Legal(requests) && Punctual(requests) && i <= |requests|
    ensures AllCovered(Run(requests[..i]))
  {
    hide LegalAt, PunctualAt, Handled, AllCovered, AllOwnIds;
    if i == 0 {
      EmptyRun();
    } else {
      PunctualCovers(requests, i - 1);
      RunsOwnIds(requests, i - 1);
      assert requests[..i][..i - 1] == requests[..i - 1];
      RequestKeepsCoveredIff(Run(requests[..i - 1]), requests[i - 1]);
    }
  }

  /** A legal run is punctual exactly when every store is covered at every point of it. */
  lemma PunctualIffCovered(requests: seq<Request>)
    requires Legal(requests)
    ensures Punctual(requests) <==> forall i :: 0 <= i <= |requests| ==> AllCovered(Run(requests[..i]))
  {
    hide LegalAt, PunctualAt, Handled, AllCovered, AllOwnIds;
    if Punctual(requests) {
      forall i | 0 <= i <= |requests| ensures AllCovered(Run(requests[..i])) { PunctualCovers(requests, i); }
    }
    if forall i :: 0 <= i <= |requests| ==> AllCovered(Run(requests[..i])) {
      forall i | 0 <= i < |requests| ensures PunctualAt(Run(requests[..i]), requests[i]) {
        RunsOwnIds(requests, i);
        assert requests[..i + 1][..i] == requests[..i];
        assert AllCovered(Run(requests[..i + 1]));
        RequestKeepsCoveredIff(Run(requests[..i]), requests[i]);
      }
    }
  }

  /** From this state on, revoking anyone in any app leaves no session of that user. */
  ghost predicate Revocable(s: System) {
    forall app, user, ttl: nat, later: nat :: s.now <= later ==> RevokesAll(s.Store(app), user, ttl, later)
  }

  lemma CoveredIffAllRevocable(s: System)
    ensures AllCovered(s) <==> Revocable(s)
  {
    hide Covered, RevokesAll;
    forall app
      ensures Covered(s.Store(app), s.now) <==>
              forall user, ttl: nat, later: nat :: s.now <= later ==> RevokesAll(s.Store(app), user, ttl, later)
    {
      CoveredIffRevocable(s.Store(app), s.now);
    }
  }

  /** In a legal run revocations are complete at every point, for everyone and ever after, exactly when the run is
      punctual. */
  lemma RevocableIffPunctual(requests: seq<Request>)
    requires Legal(requests)
    ensures Punctual(requests) <==> forall i :: 0 <= i <= |requests| ==> Revocable(Run(requests[..i]))
  {
    hide Punctual, Legal, AllCovered, Revocable;
    PunctualIffCovered(requests);
    forall i | 0 <= i <= |requests| ensures AllCovered(Run(requests[..i])) <==> Revocable(Run(requests[..i])) {
      CoveredIffAllRevocable(Run(requests[..i]));
    }
  }

  /** Log in, rotate late, wait. */
  function LateRotation(app: AppId, user: UserId, data: string): seq<Request> {
    [At(app, Create("s", user, data, 100 * HOUR, true)), Pass(90 * HOUR),
     At(app, Rotate("s", data, 100 * HOUR)), Pass(40 * HOUR)]
  }

  const HOUR: nat := 3600

  function LoggedIn(user: UserId, data: string): AppStore {
    Cleared(Created(EMPTY, "s", user, data, 100 * HOUR, 0), user)
  }

  lemma LateRotationRuns(app: AppId, user: UserId, data: string)
    ensures var requests := LateRotation(app, user, data);
            var rotated := Rotated(LoggedIn(user, data), "s", data, 100 * HOUR, 90 * HOUR);
            && Run(requests[..0]) == System(map[], 0)
            && Run(requests[..1]) == System(map[app := LoggedIn(user, data)], 0)
            && Run(requests[..2]) == System(map[app := LoggedIn(user, data)], 90 * HOUR)
            && Run(requests[..3]) == System(map[app := rotated], 90 * HOUR)
            && Run(requests) == System(map[app := rotated], 130 * HOUR)
  {
    var requests := LateRotation(app, user, data);
    var rotated := Rotated(LoggedIn(user, data), "s", data, 100 * HOUR, 90 * HOUR);
    hide Rotated, Created, Cleared;
    assert requests[..1][..0] == requests[..0] && requests[..2][..1] == requests[..1];
    assert requests[..3][..2] == requests[..2] && requests[..|requests| - 1] == requests[..3];
    assert map[app := LoggedIn(user, data)][app := rotated] == map[app := rotated];
  }

  lemma LateRotationLeavesIndex(user: UserId, data: string)
    ensures var store := Rotated(LoggedIn(user, data), "s", data, 100 * HOUR, 90 * HOUR);
            && !InTime(LoggedIn(user, data), Rotate("s", data, 100 * HOUR), 90 * HOUR)
            && store.SessionsOf(user, 130 * HOUR) == {"s"} && store.Indexed(user, 130 * HOUR) == {}
  {
  }

  /** A run that is not: the session outlives its index and the revocation. */
  lemma LateRotationSurvivesRevocation(app: AppId, user: UserId, data: string)
    ensures var requests := LateRotation(app, user, data);
            var s := Run(requests);
            && Legal(requests) && !Punctual(requests)
            && Revoked(s.Store(app), user, 0, s.now).SessionsOf(user, s.now) == {"s"}
  {
    var requests := LateRotation(app, user, data);
    LateRotationRuns(app, user, data);
    LateRotationLeavesIndex(user, data);
    var s := Run(requests);
    RevocationLeavesUnindexed(s.Store(app), user, 0, s.now);
    hide Revoked, Run, Rotated, InTime;
    assert FreshSid(EMPTY, "s");
    assert Legal(requests) by {
      forall i | 0 <= i < |requests| ensures LegalAt(Run(requests[..i]), requests[i]) {}
    }
    assert !PunctualAt(Run(requests[..2]), requests[2]);
  }

  // ----- how long a blacklisting lasts -----

  /** The request blacklists the user in the app, for so many seconds. */
  predicate Blacklists(request: Request, app: AppId, user: UserId) {
    && request.At? && request.app == app
    && (request.op.RevokeAll? || request.op.Blacklist?) && request.op.user == user
  }

  /** The request is a login of the user that ends blacklisting. */
  predicate Clears(request: Request, app: AppId, user: UserId) {
    request.At? && request.app == app && request.op.Create? && request.op.clears && request.op.user == user
  }

  /** Request i is the last before request n that decides whether the user is blacklisted, and it blacklists. */
  ghost predicate Decides(requests: seq<Request>, i: nat, n: nat, app: AppId, user: UserId)
    requires i < n <= |requests|
  {
    && Blacklists(requests[i], app, user)
    && forall k :: i < k < n ==> !Blacklists(requests[k], app, user) && !Clears(requests[k], app, user)
  }

  /** The lifetime that request i gave reaches beyond the instant. */
  ghost predicate Reaches(requests: seq<Request>, i: nat, app: AppId, user: UserId, instant: nat)
    requires i < |requests| && Blacklists(requests[i], app, user)
  {
    requests[i].op.blacklistTtl == 0 || instant < Run(requests[..i]).now + requests[i].op.blacklistTtl
  }

  lemma BlacklistStep(s: System, request: Request, app: AppId, user: UserId, instant: nat)
    requires s.now <= instant
    ensures Blacklists(request, app, user) ==>
              (IsBlacklisted(Handled(s, request).Store(app), user, instant) <==>
               request.op.blacklistTtl == 0 || instant < s.now + request.op.blacklistTtl)
    ensures Clears(request, app, user) ==> !IsBlacklisted(Handled(s, request).Store(app), user, instant)
    ensures !Blacklists(request, app, user) && !Clears(request, app, user) ==>
              (IsBlacklisted(Handled(s, request).Store(app), user, instant) <==>
               IsBlacklisted(s.Store(app), user, instant))
  {
  }

  lemma ClockOf(s: System, request: Request)
    ensures s.now <= Handled(s, request).now
  {
  }

  lemma {:induction false} TimePasses(requests: seq<Request>, i: nat, n: nat)
    requires i <= n <= |requests|
    ensures Run(requests[..i]).now <= Run(requests[..n]).now
    decreases n
  {
    hide Run, Handled;
    if i < n {
      TimePasses(requests, i, n - 1);
      RunStep(requests, n);
      ClockOf(Run(requests[..n - 1]), requests[n - 1]);
    }
  }

  lemma DecidesExtends(requests: seq<Request>, i: nat, n: nat, app: AppId, user: UserId)
    requires i < n - 1 && n <= |requests|
    ensures Decides(requests, i, n, app, user) <==>
            Decides(requests, i, n - 1, app, user)
            && !Blacklists(requests[n - 1], app, user) && !Clears(requests[n - 1], app, user)
  {
  }

  lemma OneDecides(requests: seq<Request>, i: nat, j: nat, n: nat, app: AppId, user: UserId)
    requires i < n <= |requests| && j < n && Decides(requests, i, n, app, user) && Decides(requests, j, n, app, user)
    ensures i == j
  {
  }

  /** Request i, or none, decides whether the user is blacklisted at an instant not before request n. */
  ghost predicate IsDecider(requests: seq<Request>, i: Option<nat>, n: nat, app: AppId, user: UserId, instant: nat)
    requires n <= |requests|
  {
    var blacklisted := IsBlacklisted(Run(requests[..n]).Store(app), user, instant);
    match i
    case None => !blacklisted && forall k :: 0 <= k < n ==> !Decides(requests, k, n, app, user)
    case Some(k) =>
      k < n && Decides(requests, k, n, app, user) && (blacklisted <==> Reaches(requests, k, app, user, instant))
  }

  lemma {:induction false} Decider(requests: seq<Request>, n: nat, app: AppId, user: UserId, instant: nat)
    returns (i: Option<nat>)
    requires n <= |requests| && Run(requests[..n]).now <= instant
    ensures IsDecider(requests, i, n, app, user, instant)
    decreases n
  {
    if n == 0 {
      i := None;
    } else {
      hide Run, IsDecider, Blacklists, Clears;
      TimePasses(requests, n - 1, n);
      i := Decider(requests, n - 1, app, user, instant);
      if Blacklists(requests[n - 1], app, user) {
        NewDecider(requests, n, app, user, instant);
        i := Some(n - 1);
      } else if Clears(requests[n - 1], app, user) {
        NoDecider(requests, n, app, user, instant);
        i := None;
      } else {
        SameDecider(requests, i, n, app, user, instant);
      }
    }
  }

  lemma NewDecider(requests: seq<Request>, n: nat, app: AppId, user: UserId, instant: nat)
    requires 0 < n <= |requests| && Run(requests[..n]).now <= instant && Blacklists(requests[n - 1], app, user)
    ensures IsDecider(requests, Some(n - 1), n, app, user, instant)
  {
    hide Run, Handled, IsBlacklisted, Decides;
    RunStep(requests, n);
    TimePasses(requests, n - 1, n);
    BlacklistStep(Run(requests[..n - 1]), requests[n - 1], app, user, instant);
    DecidesLast(requests, n, app, user);
  }

  lemma NoDecider(requests: seq<Request>, n: nat, app: AppId, user: UserId, instant: nat)
    requires 0 < n <= |requests| && Run(requests[..n]).now <= instant && Clears(requests[n - 1], app, user)
    ensures IsDecider(requests, None, n, app, user, instant)
  {
    hide Run, Handled, Blacklists, Clears, IsBlacklisted, Decides;
    RunStep(requests, n);
    TimePasses(requests, n - 1, n);
    BlacklistStep(Run(requests[..n - 1]), requests[n - 1], app, user, instant);
    DecidesLast(requests, n, app, user);
    forall k | 0 <= k < n - 1 ensures !Decides(requests, k, n, app, user) {
      DecidesExtends(requests, k, n, app, user);
    }
  }

  lemma SameDecider(requests: seq<Request>, i: Option<nat>, n: nat, app: AppId, user: UserId, instant: nat)
    requires 0 < n <= |requests| && Run(requests[..n]).now <= instant
    requires IsDecider(requests, i, n - 1, app, user, instant)
    requires !Blacklists(requests[n - 1], app, user) && !Clears(requests[n - 1], app, user)
    ensures IsDecider(requests, i, n, app, user, instant)
  {
    hide Run, Handled, Blacklists, Clears, IsBlacklisted, Decides;
    RunStep(requests, n);
    TimePasses(requests, n - 1, n);
    BlacklistStep(Run(requests[..n - 1]), requests[n - 1], app, user, instant);
    DecidesLast(requests, n, app, user);
    forall k | 0 <= k < n - 1
      ensures Decides(requests, k, n, app, user) <==> Decides(requests, k, n - 1, app, user)
    {
      DecidesExtends(requests, k, n, app, user);
    }
  }

  lemma RunStep(requests: seq<Request>, n: nat)
    requires 0 < n <= |requests|
    ensures Run(requests[..n]) == Handled(Run(requests[..n - 1]), requests[n - 1])
  {
    assert requests[..n][..n - 1] == requests[..n - 1];
  }

  lemma DecidesLast(requests: seq<Request>, n: nat, app: AppId, user: UserId)
    requires 0 < n <= |requests|
    ensures Decides(requests, n - 1, n, app, user) <==> Blacklists(requests[n - 1], app, user)
    ensures Decides(requests, n - 1, n, app, user) ==> !Clears(requests[n - 1], app, user)
  {
  }

  /** A user is blacklisted exactly while the lifetime of a blacklisting lasts that no later login cleared and no later
      blacklisting replaced. */
  lemma BlacklistedIff(requests: seq<Request>, n: nat, app: AppId, user: UserId)
    requires n <= |requests|
    ensures var s := Run(requests[..n]);
            IsBlacklisted(s.Store(app), user, s.now) <==>
            exists i :: 0 <= i < n && Decides(requests, i, n, app, user) && Reaches(requests, i, app, user, s.now)
  {
    hide Run, Blacklists, Clears, IsBlacklisted, Decides;
    var last := Decider(requests, n, app, user, Run(requests[..n]).now);
    forall i | 0 <= i < n && Decides(requests, i, n, app, user) ensures last == Some(i) {
      if last.Some? && last.value != i { OneDecides(requests, last.value, i, n, app, user); }
    }
  }
}
