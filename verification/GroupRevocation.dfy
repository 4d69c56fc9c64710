/** Revoking a user from the admin pages: all sessions of the user in one app, and of the same person in every
    other app of the session group. */
module GroupRevocation {
  import opened Wrappers
  import opened SessionStore
  import opened SessionRuns

  type GroupId = string

  datatype User = User(app: AppId, email: string)

  /** The tables the handler reads: users, and the group each app belongs to (at most one). */
  datatype Directory = Directory(users: map<UserId, User>, groupOf: map<AppId, GroupId>)

  /** The unique index on (email, app_id). */
  ghost predicate UniqueEmails(dir: Directory) {
    forall u, v :: u in dir.users && v in dir.users && dir.users[u] == dir.users[v] ==> u == v
  }

  /** UUIDs are never empty. */
  ghost predicate NamedUsers(dir: Directory) {
    "" !in dir.users
  }

  ghost predicate IsAccount(dir: Directory, user: UserId, app: AppId, email: string) {
    user in dir.users && dir.users[user] == User(app, email)
  }

  /** The user with this e-mail in an app. */
  ghost function Lookup(dir: Directory, app: AppId, email: string): (r: Option<UserId>)
    ensures r.Some? ==> IsAccount(dir, r.value, app, email)
    ensures r.None? ==> forall u :: !IsAccount(dir, u, app, email)
  {
    if u :| IsAccount(dir, u, app, email) then Some(u) else None
  }

  /** Two apps in the same session group. */
  ghost predicate Grouped(dir: Directory, a: AppId, b: AppId) {
    a in dir.groupOf && b in dir.groupOf && dir.groupOf[a] == dir.groupOf[b]
  }

  /** The peer account of `user` that a revocation from `app` reaches in `peer`. */
  ghost function PeerAccount(dir: Directory, app: AppId, user: UserId, peer: AppId): Option<UserId> {
    if peer != app && Grouped(dir, app, peer) && user in dir.users && dir.users[user].email != ""
    then Lookup(dir, peer, dir.users[user].email) else None
  }

  /** Every account a revocation reaches: one per app. */
  ghost function Targets(dir: Directory, app: AppId, user: UserId): map<AppId, UserId> {
    (map peer | peer in dir.groupOf && PeerAccount(dir, app, user, peer).Some? ::
       PeerAccount(dir, app, user, peer).value)
    [app := user]
  }

  /** The stores once the targeted account of each app is revoked. */
  ghost function RevokedIn(apps: map<AppId, AppStore>, targets: map<AppId, UserId>, ttl: nat, now: nat)
    : map<AppId, AppStore>
  {
    map app | app in apps.Keys + targets.Keys ::
      if app in targets then Revoked(StoreOf(apps, app), targets[app], ttl, now) else apps[app]
  }

  // ----- the Redis client and the handler -----

  class SessionRedis {
    var now: nat
    var apps: map<AppId, AppStore>

    constructor ()
      ensures now == 0 && apps == map[]
    {
      now, apps := 0, map[];
    }

    function View(): System
      reads this
    {
      System(apps, now)
    }

    /** The hash with its expiry, then both indexes. */
    method CreateSession(app: AppId, sid: SessionId, user: UserId, data: string, ttl: nat)
      modifies `apps
      ensures apps == old(apps)[app := Created(StoreOf(old(apps), app), sid, user, data, ttl, now)]
    {
      var store := StoreOf(apps, app);
      store := store.(sessions := store.sessions[sid := Session(user, data, now + ttl)]);
      var index := store.IndexOf(user);
      var expiry := Some(now + ttl + INDEX_GRACE);
      store := store.(userIndex := store.userIndex[user := Index(index.Live(now) + {sid}, expiry)]);
      store := store.(appIndex := Index(store.appIndex.Live(now) + {sid}, expiry));
      apps := apps[app := store];
    }

    method ClearUserTokenBlacklist(app: AppId, user: UserId)
      modifies `apps
      ensures apps == old(apps)[app := Cleared(StoreOf(old(apps), app), user)]
      ensures forall other, t: nat :: IsBlacklisted(StoreOf(apps, app), other, t) <==>
                other != user && IsBlacklisted(StoreOf(old(apps), app), other, t)
    {
      var store := StoreOf(apps, app);
      apps := apps[app := store.(blacklist := store.blacklist - {user})];
    }

    /** A token rotation: only a live session is rewritten, and only its own expiry slides. */
    method RefreshSession(app: AppId, sid: SessionId, data: string, ttl: nat) returns (ok: bool)
      modifies `apps
      ensures ok <==> StoreOf(old(apps), app).Exists(sid, now)
      ensures apps == old(apps)[app := Rotated(StoreOf(old(apps), app), sid, data, ttl, now)]
    {
      var store := StoreOf(apps, app);
      ok := store.Exists(sid, now);
      if ok {
        store := store.(sessions := store.sessions[sid := store.sessions[sid].(data := data)]);
        store := store.(sessions := store.sessions[sid := store.sessions[sid].(expiry := now + ttl)]);
        assert store == Rotated(StoreOf(old(apps), app), sid, data, ttl, now);
      }
      apps := apps[app := store];
    }

    method DeleteSession(app: AppId, sid: SessionId, user: UserId)
      modifies `apps
      ensures apps == old(apps)[app := Deleted(StoreOf(old(apps), app), sid, user)]
    {
      var store := StoreOf(apps, app);
      store := store.(sessions := store.sessions - {sid});
      if user in store.userIndex {
        store := store.(userIndex := store.userIndex[user := store.userIndex[user].Remove({sid})]);
      }
      store := store.(appIndex := store.appIndex.Remove({sid}));
      apps := apps[app := store];
    }

    /** The live sessions the user's index leads to; ids that name no live session are dropped from the index. */
    method GetUserSessionIDs(app: AppId, user: UserId) returns (ids: set<SessionId>)
      modifies `apps
      ensures ids == StoreOf(old(apps), app).Indexed(user, now)
      ensures apps.Keys == old(apps).Keys + {app}
      ensures forall a :: a in apps && a != app ==> apps[a] == old(apps)[a]
      ensures var s, s' := StoreOf(old(apps), app), apps[app];
              s'.sessions == s.sessions && s'.appIndex == s.appIndex && s'.blacklist == s.blacklist
              && s'.userIndex - {user} == s.userIndex - {user} && s'.userIndex.Keys == s.userIndex.Keys
      ensures var index, index' := StoreOf(old(apps), app).IndexOf(user), apps[app].IndexOf(user);
              index'.expiry == index.expiry && index'.ids <= index.ids && ids <= index'.ids
              && forall sid :: sid in index.ids && StoreOf(old(apps), app).Exists(sid, now) ==> sid in index'.ids
    {
      var store := StoreOf(apps, app);
      ids := {};
      var index := store.IndexOf(user);
      var rest := index.Live(now);
      while rest != {}
        invariant rest <= store.IndexOf(user).Live(now)
        invariant ids == set sid | sid in store.IndexOf(user).Live(now) && sid !in rest && store.Exists(sid, now)
        invariant index.expiry == store.IndexOf(user).expiry && index.ids <= store.IndexOf(user).ids
        invariant forall sid :: sid in store.IndexOf(user).ids && store.Exists(sid, now) ==> sid in index.ids
        decreases rest
      {
        var sid :| sid in rest;
        if store.Exists(sid, now) {
          ids := ids + {sid};
        } else {
          index := index.Remove({sid});
        }
        rest := rest - {sid};
      }
      if user in store.userIndex {
        apps := apps[app := store.(userIndex := store.userIndex[user := index])];
      } else {
        apps := apps[app := store];
      }
    }

    /** The hashes of the listed sessions but `keep`, and their places in the app's index. */
    static method DeleteEach(before: AppStore, ids: set<SessionId>, keep: Option<SessionId>) returns (store: AppStore)
      ensures store == before.(sessions := before.sessions - (ids - Kept(keep)),
                               appIndex := before.appIndex.Remove(ids - Kept(keep)))
    {
      store := before;
      var rest := ids;
      ghost var gone: set<SessionId> := {};
      while rest != {}
        invariant gone == ids - rest - Kept(keep) && rest <= ids
        invariant store == before.(sessions := before.sessions - gone, appIndex := before.appIndex.Remove(gone))
        decreases rest
      {
        var sid :| sid in rest;
        rest := rest - {sid};
        if keep != Some(sid) {
          assert before.sessions - (gone + {sid}) == before.sessions - gone - {sid};
          assert before.appIndex.ids - (gone + {sid}) == before.appIndex.ids - gone - {sid};
          store := store.(sessions := store.sessions - {sid}, appIndex := store.appIndex.Remove({sid}));
          gone := gone + {sid};
        }
      }
      assert gone == ids - Kept(keep);
    }

    /** All sessions of the user but `keep`, the caller's own; the index is rebuilt for that one. */
    method DeleteAllUserSessions(app: AppId, user: UserId, keep: Option<SessionId>)
      modifies `apps
      ensures apps == old(apps)[app := AllDeleted(StoreOf(old(apps), app), user, keep, now)]
    {
      ghost var before := StoreOf(apps, app);
      var ids := GetUserSessionIDs(app, user);
      ghost var cleaned := apps[app];
      var store := DeleteEach(apps[app], ids, keep);
      store := store.(userIndex := store.userIndex - {user});
      if keep.Some? {
        store := store.(userIndex := store.userIndex[user := Index({keep.value}, None)]);
        PutAfterRemove(before.userIndex, cleaned.userIndex, user, Index({keep.value}, None));
      }
      assert store == AllDeleted(before, user, keep, now);
      apps := apps[app := store];
    }

    method BlacklistAllUserTokens(app: AppId, user: UserId, ttl: nat)
      modifies `apps
      ensures apps == old(apps)[app := Blacklisted(StoreOf(old(apps), app), user, ttl, now)]
      ensures BlacklistedFor(StoreOf(apps, app), user, ttl, now)
    {
      apps := apps[app := Blacklisted(StoreOf(apps, app), user, ttl, now)];
    }

    method Revoke(app: AppId, user: UserId, ttl: nat)
      modifies `apps
      ensures apps == old(apps)[app := Revoked(StoreOf(old(apps), app), user, ttl, now)]
    {
      DeleteAllUserSessions(app, user, None);
      BlacklistAllUserTokens(app, user, ttl);
    }

    /** One request of a run, carried out on the keys. */
    method Serve(request: Request)
      modifies this
      ensures View() == Handled(old(View()), request)
    {
      match request
      case Pass(seconds) => now := now + seconds;
      case At(app, op) =>
        match op
        case Create(sid, user, data, ttl, clears) =>
          CreateSession(app, sid, user, data, ttl);
          if clears { ClearUserTokenBlacklist(app, user); }
        case Rotate(sid, data, ttl) => var ok := RefreshSession(app, sid, data, ttl);
        case Delete(sid, user) => DeleteSession(app, sid, user);
        case RevokeAll(user, blacklistTtl) => Revoke(app, user, blacklistTtl);
        case RevokeOthers(user, current) => DeleteAllUserSessions(app, user, Some(current));
        case Blacklist(user, blacklistTtl) => BlacklistAllUserTokens(app, user, blacklistTtl);
    }

    /** Serving requests on empty keys walks the run. */
    method ServeAll(requests: seq<Request>)
      requires View() == Run([])
      modifies this
      ensures View() == Run(requests)
    {
      for n := 0 to |requests|
        invariant View() == Run(requests[..n])
      {
        assert requests[..n + 1][..n] == requests[..n];
        Serve(requests[n]);
      }
      assert requests[..|requests|] == requests;
    }
  }

  class Repository {
    const dir: Directory

    constructor (dir: Directory)
      ensures this.dir == dir
    {
      this.dir := dir;
    }

    /** The apps of a group, each once, in whatever order the table yields them. */
    method GetAppsInSessionGroup(group: GroupId) returns (ids: seq<AppId>)
      ensures forall a :: a in ids <==> a in dir.groupOf && dir.groupOf[a] == group
      ensures forall i, j :: 0 <= i < j < |ids| ==> ids[i] != ids[j]
    {
      ids := [];
      var rest := dir.groupOf.Keys;
      while rest != {}
        invariant rest <= dir.groupOf.Keys
        invariant forall a :: a in ids <==> a in dir.groupOf && a !in rest && dir.groupOf[a] == group
        invariant forall i, j :: 0 <= i < j < |ids| ==> ids[i] != ids[j]
        decreases rest
      {
        var a :| a in rest;
        if dir.groupOf[a] == group {
          assert forall i :: 0 <= i < |ids| ==> ids[i] in ids;
          ids := ids + [a];
        }
        rest := rest - {a};
      }
    }

    /** "" when the person has no account in the app. */
    method GetUserIDByEmailAndApp(app: AppId, email: string) returns (user: UserId)
      requires UniqueEmails(dir) && NamedUsers(dir)
      ensures user == Lookup(dir, app, email).GetOr("")
      ensures user == "" <==> Lookup(dir, app, email).None?
    {
      user := "";
      var rest := dir.users.Keys;
      while rest != {}
        invariant rest <= dir.users.Keys
        invariant user == "" ==> forall u :: u in dir.users && u !in rest ==> dir.users[u] != User(app, email)
        invariant user != "" ==> IsAccount(dir, user, app, email)
        decreases rest
      {
        var u :| u in rest;
        if dir.users[u] == User(app, email) {
          user := u;
        }
        rest := rest - {u};
      }
    }
  }

  class GUIHandler {
    const redis: SessionRedis
    const repo: Repository

    constructor (redis: SessionRedis, repo: Repository)
      ensures this.redis == redis && this.repo == repo
    {
      this.redis, this.repo := redis, repo;
    }

    method RevokeSessionsInPeerApps(app: AppId, user: UserId, ttl: nat)
      requires UniqueEmails(repo.dir) && NamedUsers(repo.dir)
      modifies redis`apps
      ensures redis.apps == RevokedIn(old(redis.apps), Targets(repo.dir, app, user) - {app}, ttl, redis.now)
    {
      ghost var before := redis.apps;
      ghost var all := Targets(repo.dir, app, user) - {app};
      NoTargets(before, ttl, redis.now);
      if app !in repo.dir.groupOf || user !in repo.dir.users || repo.dir.users[user].email == "" {
        assert all == map[];
        return;
      }
      var peers := repo.GetAppsInSessionGroup(repo.dir.groupOf[app]);
      var email := repo.dir.users[user].email;
      ghost var done: map<AppId, UserId> := map[];
      for i := 0 to |peers|
        invariant redis.apps == RevokedIn(before, done, ttl, redis.now)
        invariant Reached(all, done, peers, i)
      {
        hide RevokedIn, UniqueEmails, NamedUsers, Targets, Reached;
        PeerTarget(repo.dir, app, user, peers[i]);
        ReachedStep(all, done, peers, i);
        if peers[i] != app {
          var peerUser := repo.GetUserIDByEmailAndApp(peers[i], email);
          if peerUser != "" {
            AddTarget(before, done, peers[i], peerUser, ttl, redis.now);
            redis.Revoke(peers[i], peerUser, ttl);
            done := done[peers[i] := peerUser];
          }
        }
      }
      ReachedAll(all, done, peers);
    }

    /** Revokes the account and every same-person account of the group. */
    method SessionRevokeAllForUser(app: AppId, user: UserId, ttl: nat) returns (ok: bool)
      requires UniqueEmails(repo.dir) && NamedUsers(repo.dir)
      modifies redis`apps
      ensures ok <==> app != "" && user != ""
      ensures redis.apps == if ok then RevokedIn(old(redis.apps), Targets(repo.dir, app, user), ttl, redis.now)
                            else old(redis.apps)
    {
      if app == "" || user == "" { return false; }
      ghost var before := redis.apps;
      redis.Revoke(app, user, ttl);
      RevokeSessionsInPeerApps(app, user, ttl);
      FirstTarget(before, Targets(repo.dir, app, user), app, ttl, redis.now);
      ok := true;
    }
  }

  lemma PutAfterRemove<K, V>(m: map<K, V>, m': map<K, V>, k: K, v: V)
    requires m' - {k} == m - {k}
    ensures (m' - {k})[k := v] == m[k := v]
  {
    assert forall x :: x in m[k := v] && x != k ==> x in m - {k} && (m - {k})[x] == m[x];
  }

  lemma NoTargets(apps: map<AppId, AppStore>, ttl: nat, now: nat)
    ensures RevokedIn(apps, map[], ttl, now) == apps
  {
  }

  /** The peers before position i that are among `all` are done, and no others. */
  ghost predicate Reached(all: map<AppId, UserId>, done: map<AppId, UserId>, peers: seq<AppId>, i: nat)
    requires i <= |peers|
  {
    && (forall a :: a in done <==> a in all && a in peers[..i])
    && (forall a :: a in done ==> done[a] == all[a])
  }

  lemma ReachedStep(all: map<AppId, UserId>, done: map<AppId, UserId>, peers: seq<AppId>, i: nat)
    requires i < |peers| && Reached(all, done, peers, i)
    requires forall j :: 0 <= j < i ==> peers[j] != peers[i]
    ensures peers[i] !in done
    ensures Reached(all, if peers[i] in all then done[peers[i] := all[peers[i]]] else done, peers, i + 1)
  {
    assert peers[..i + 1] == peers[..i] + [peers[i]];
  }

  lemma ReachedAll(all: map<AppId, UserId>, done: map<AppId, UserId>, peers: seq<AppId>)
    requires Reached(all, done, peers, |peers|) && forall a :: a in all ==> a in peers
    ensures done == all
  {
    assert peers[..|peers|] == peers;
  }

  /** Whether and where a revocation reaches one app of the group. */
  lemma PeerTarget(dir: Directory, app: AppId, user: UserId, peer: AppId)
    requires Grouped(dir, app, peer) && user in dir.users && dir.users[user].email != ""
    ensures var all := Targets(dir, app, user) - {app};
            var found := Lookup(dir, peer, dir.users[user].email);
            && (peer in all <==> peer != app && found.Some?)
            && (peer in all ==> all[peer] == found.value)
  {
  }

  lemma AddTarget(apps: map<AppId, AppStore>, done: map<AppId, UserId>, app: AppId, user: UserId, ttl: nat, now: nat)
    requires app !in done
    ensures var so := RevokedIn(apps, done, ttl, now);
            so[app := Revoked(StoreOf(so, app), user, ttl, now)] == RevokedIn(apps, done[app := user], ttl, now)
  {
    hide Revoked;
  }

  lemma FirstTarget(apps: map<AppId, AppStore>, targets: map<AppId, UserId>, app: AppId, ttl: nat, now: nat)
    requires app in targets
    ensures RevokedIn(apps[app := Revoked(StoreOf(apps, app), targets[app], ttl, now)], targets - {app}, ttl, now)
            == RevokedIn(apps, targets, ttl, now)
  {
    hide Revoked;
  }

  // ----- the guarantees -----

  /** The accounts of the person who is `user` in `app`: that one, and in the other apps of the group those with the
      same non-empty e-mail. */
  ghost predicate SamePerson(dir: Directory, app: AppId, user: UserId, peer: AppId, account: UserId) {
    || (peer == app && account == user)
    || (&& peer != app && app in dir.groupOf && peer in dir.groupOf && dir.groupOf[peer] == dir.groupOf[app]
        && user in dir.users && account in dir.users && dir.users[user].email != ""
        && dir.users[account] == User(peer, dir.users[user].email))
  }

  /** The accounts reached are exactly the person's. */
  lemma TargetsAreThePerson(dir: Directory, app: AppId, user: UserId, peer: AppId, account: UserId)
    requires UniqueEmails(dir)
    ensures var targets := Targets(dir, app, user);
            (peer in targets && targets[peer] == account) <==> SamePerson(dir, app, user, peer, account)
  {
    if SamePerson(dir, app, user, peer, account) && peer != app {
      assert IsAccount(dir, account, peer, dir.users[user].email);
    }
  }

  /** The account is blacklisted, and the sessions left to it are those its index no longer led to. */
  lemma TargetRevoked(apps: map<AppId, AppStore>, targets: map<AppId, UserId>, ttl: nat, now: nat, app: AppId)
    requires app in targets
    ensures var s, s' := StoreOf(apps, app), StoreOf(RevokedIn(apps, targets, ttl, now), app);
            && s'.SessionsOf(targets[app], now) == s.SessionsOf(targets[app], now) - s.Indexed(targets[app], now)
            && (s'.SessionsOf(targets[app], now) == {} <==> RevokesAll(s, targets[app], ttl, now))
            && BlacklistedFor(s', targets[app], ttl, now)
  {
    RevocationLeavesUnindexed(StoreOf(apps, app), targets[app], ttl, now);
    hide Revoked;
  }

  /** One user of one app keeps sessions and blacklist state. */
  ghost predicate Untouched(s: AppStore, s': AppStore, user: UserId, now: nat) {
    && s'.SessionsOf(user, now) == s.SessionsOf(user, now)
    && (forall sid :: sid in s.SessionsOf(user, now) ==> s'.sessions[sid] == s.sessions[sid])
    && forall later: nat :: IsBlacklisted(s', user, later) <==> IsBlacklisted(s, user, later)
  }

  lemma OthersUntouched(apps: map<AppId, AppStore>, targets: map<AppId, UserId>, ttl: nat, now: nat,
                        app: AppId, other: UserId)
    requires OwnIds(StoreOf(apps, app))
    requires app in targets ==> targets[app] != other
    ensures Untouched(StoreOf(apps, app), StoreOf(RevokedIn(apps, targets, ttl, now), app), other, now)
  {
    if app in targets {
      OwnIdsMeansSound(StoreOf(apps, app), now);
      RevocationSparesOthers(StoreOf(apps, app), targets[app], other, ttl, now);
    }
    hide Revoked;
  }

  /** The account is blacklisted for exactly the given time, and without sessions if `complete`. */
  ghost predicate Ended(s: AppStore, account: UserId, ttl: nat, complete: bool, now: nat) {
    BlacklistedFor(s, account, ttl, now) && (complete ==> s.SessionsOf(account, now) == {})
  }

  /** Every account of the person has ended, and nobody else's is touched. */
  ghost predicate PersonRevoked(dir: Directory, app: AppId, user: UserId, before: System, after: System, ttl: nat,
                                complete: bool)
  {
    forall peer, account ::
      if SamePerson(dir, app, user, peer, account) then Ended(after.Store(peer), account, ttl, complete, after.now)
      else Untouched(before.Store(peer), after.Store(peer), account, after.now)
  }

  lemma AccountRevoked(dir: Directory, requests: seq<Request>, app: AppId, user: UserId, ttl: nat, now: nat,
                       peer: AppId, account: UserId)
    requires UniqueEmails(dir) && Legal(requests) && Run(requests).now <= now
    ensures var s := Run(requests);
            var after := StoreOf(RevokedIn(s.apps, Targets(dir, app, user), ttl, now), peer);
            if SamePerson(dir, app, user, peer, account) then Ended(after, account, ttl, Punctual(requests), now)
            else Untouched(s.Store(peer), after, account, now)
  {
    hide RevokedIn, Targets, SamePerson, Untouched, RevokesAll, Legal, Punctual;
    var s := Run(requests);
    assert requests[..|requests|] == requests;
    TargetsAreThePerson(dir, app, user, peer, account);
    if SamePerson(dir, app, user, peer, account) {
      TargetRevoked(s.apps, Targets(dir, app, user), ttl, now, peer);
      if Punctual(requests) {
        RevocableIffPunctual(requests);
        assert Revocable(Run(requests[..|requests|]));
        assert RevokesAll(s.Store(peer), account, ttl, now);
      }
    } else {
      RunsOwnIds(requests, |requests|);
      assert OwnIds(s.Store(peer));
      OthersUntouched(s.apps, Targets(dir, app, user), ttl, now, peer, account);
    }
  }

  /** After any legal run, and any wait, revoking a person across the group blacklists every account of that person,
      ends all their sessions if the run was punctual, and touches nobody else. */
  lemma GroupRevocation(dir: Directory, requests: seq<Request>, app: AppId, user: UserId, ttl: nat, wait: nat)
    requires UniqueEmails(dir) && Legal(requests)
    ensures var s := Run(requests);
            var before := System(s.apps, s.now + wait);
            var after := System(RevokedIn(s.apps, Targets(dir, app, user), ttl, s.now + wait), s.now + wait);
            PersonRevoked(dir, app, user, before, after, ttl, Punctual(requests))
  {
    hide RevokedIn, Targets, SamePerson, Untouched, Ended, Legal, Punctual, Run;
    var s := Run(requests);
    var now := s.now + wait;
    var after := System(RevokedIn(s.apps, Targets(dir, app, user), ttl, now), now);
    forall peer, account
      ensures if SamePerson(dir, app, user, peer, account) then
                Ended(after.Store(peer), account, ttl, Punctual(requests), now)
              else Untouched(System(s.apps, now).Store(peer), after.Store(peer), account, now)
    {
      AccountRevoked(dir, requests, app, user, ttl, now, peer, account);
    }
  }

  /** From this state on, revoking anyone of the directory, from any app, ends that person's sessions everywhere. */
  ghost predicate GroupRevocable(dir: Directory, s: System) {
    forall app, user, ttl: nat, later: nat :: s.now <= later ==> EndsSessions(s, dir, app, user, ttl, later)
  }

  ghost predicate EndsSessions(s: System, dir: Directory, app: AppId, user: UserId, ttl: nat, now: nat) {
    forall peer, account :: SamePerson(dir, app, user, peer, account) ==>
      StoreOf(RevokedIn(s.apps, Targets(dir, app, user), ttl, now), peer).SessionsOf(account, now) == {}
  }

  lemma GroupRevocableIff(dir: Directory, s: System)
    requires UniqueEmails(dir)
    ensures GroupRevocable(dir, s) <==> Revocable(s)
  {
    hide RevokedIn, Targets, SamePerson, RevokesAll;
    if Revocable(s) {
      forall app, user, ttl: nat, later: nat | s.now <= later ensures EndsSessions(s, dir, app, user, ttl, later) {
        forall peer, account | SamePerson(dir, app, user, peer, account)
          ensures StoreOf(RevokedIn(s.apps, Targets(dir, app, user), ttl, later), peer).SessionsOf(account, later) == {}
        {
          TargetsAreThePerson(dir, app, user, peer, account);
          TargetRevoked(s.apps, Targets(dir, app, user), ttl, later, peer);
          assert RevokesAll(s.Store(peer), account, ttl, later);
        }
      }
    }
    if GroupRevocable(dir, s) {
      forall app, user, ttl: nat, later: nat | s.now <= later ensures RevokesAll(s.Store(app), user, ttl, later) {
        assert EndsSessions(s, dir, app, user, ttl, later);
        Named(dir, app, user);
        TargetsAreThePerson(dir, app, user, app, user);
        TargetRevoked(s.apps, Targets(dir, app, user), ttl, later, app);
      }
    }
  }

  lemma Named(dir: Directory, app: AppId, user: UserId)
    ensures SamePerson(dir, app, user, app, user)
  {
  }

  /** In a legal run, whatever the directory, group revocations are complete at every point, for everyone and ever
      after, exactly when the run is punctual. */
  lemma GroupRevocableIffPunctual(dir: Directory, requests: seq<Request>)
    requires UniqueEmails(dir) && Legal(requests)
    ensures Punctual(requests) <==> forall i :: 0 <= i <= |requests| ==> GroupRevocable(dir, Run(requests[..i]))
  {
    hide Punctual, Legal, GroupRevocable, Revocable, UniqueEmails;
    RevocableIffPunctual(requests);
    forall i | 0 <= i <= |requests|
      ensures GroupRevocable(dir, Run(requests[..i])) <==> Revocable(Run(requests[..i]))
    {
      GroupRevocableIff(dir, Run(requests[..i]));
    }
  }

  /** The same person named by the account in app A or in app B of a group: the same accounts are reached. */
  lemma TargetsSymmetric(dir: Directory, a: AppId, userA: UserId, b: AppId, userB: UserId, email: string)
    requires UniqueEmails(dir) && Grouped(dir, a, b) && email != ""
    requires IsAccount(dir, userA, a, email) && IsAccount(dir, userB, b, email)
    ensures Targets(dir, a, userA) == Targets(dir, b, userB)
  {
    var ta, tb := Targets(dir, a, userA), Targets(dir, b, userB);
    forall app ensures (app in ta <==> app in tb) && (app in ta ==> ta[app] == tb[app]) {
      if app in ta {
        TargetsAreThePerson(dir, a, userA, app, ta[app]);
        TargetsAreThePerson(dir, b, userB, app, ta[app]);
      }
      if app in tb {
        TargetsAreThePerson(dir, a, userA, app, tb[app]);
        TargetsAreThePerson(dir, b, userB, app, tb[app]);
      }
    }
  }

  // ----- the guarantees on the handler -----

  /** The handler, on the keys that any legal requests left behind. */
  method RevokeAfter(dir: Directory, requests: seq<Request>, app: AppId, user: UserId, ttl: nat)
    returns (before: System, after: System)
    requires UniqueEmails(dir) && NamedUsers(dir) && Legal(requests) && app != "" && user != ""
    ensures before == Run(requests)
    ensures PersonRevoked(dir, app, user, before, after, ttl, Punctual(requests))
    ensures after == System(RevokedIn(before.apps, Targets(dir, app, user), ttl, before.now), before.now)
  {
    hide PersonRevoked, RevokedIn, Targets, Legal, Punctual, UniqueEmails, NamedUsers;
    var redis := new SessionRedis();
    redis.ServeAll(requests);
    before := redis.View();
    var repo := new Repository(dir);
    var handler := new GUIHandler(redis, repo);
    var ok := handler.SessionRevokeAllForUser(app, user, ttl);
    after := redis.View();
    GroupRevocation(dir, requests, app, user, ttl, 0);
  }

  /** From whichever of the two apps the person is revoked, the handler leaves the same keys. */
  method RevokeFromEitherApp(dir: Directory, requests: seq<Request>, a: AppId, userA: UserId, b: AppId, userB: UserId,
                             email: string, ttl: nat)
    returns (fromA: System, fromB: System)
    requires UniqueEmails(dir) && NamedUsers(dir) && Legal(requests) && a != "" && b != ""
    requires Grouped(dir, a, b) && email != "" && IsAccount(dir, userA, a, email) && IsAccount(dir, userB, b, email)
    ensures fromA == fromB && PersonRevoked(dir, a, userA, Run(requests), fromA, ttl, Punctual(requests))
  {
    hide PersonRevoked, Legal, Punctual;
    var beforeA, beforeB;
    TargetsSymmetric(dir, a, userA, b, userB, email);
    beforeA, fromA := RevokeAfter(dir, requests, a, userA, ttl);
    beforeB, fromB := RevokeAfter(dir, requests, b, userB, ttl);
  }
}
