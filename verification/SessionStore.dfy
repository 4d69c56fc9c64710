/** User sessions in Redis: a hash a session, an index set a user and an index set an app, each with its own
    expiry.  Time is in seconds. */
module SessionStore {
  import opened Wrappers

  type AppId = string
  type UserId = string
  type SessionId = string

  const INDEX_GRACE: nat := 24 * 3600

  /** The session hash; the fields that play no part in revocation are one opaque value. */
  datatype Session = Session(user: UserId, data: string, expiry: nat)

  /** A Redis set; None is no expiry. */
  datatype Index = Index(ids: set<SessionId>, expiry: Option<nat>) {
    function Live(now: nat): set<SessionId> {
      if expiry.None? || now < expiry.value then ids else {}
    }

    predicate Outlasts(instant: nat) {
      expiry.None? || instant <= expiry.value
    }

    /** SADD then EXPIRE: an expired set starts again from nothing. */
    function Add(sid: SessionId, ttl: nat, now: nat): Index {
      Index(Live(now) + {sid}, Some(now + ttl + INDEX_GRACE))
    }

    function Remove(gone: set<SessionId>): Index {
      this.(ids := ids - gone)
    }
  }

  const NO_INDEX := Index({}, Some(0))

  /** The keys of one app.  A user is blacklisted until an instant, or for good (None). */
  datatype AppStore = AppStore(
    sessions: map<SessionId, Session>,
    userIndex: map<UserId, Index>,
    appIndex: Index,
    blacklist: map<UserId, Option<nat>>)
  {
    function IndexOf(user: UserId): Index {
      if user in userIndex then userIndex[user] else NO_INDEX
    }

    predicate Exists(sid: SessionId, now: nat) {
      sid in sessions && now < sessions[sid].expiry
    }

    /** The live sessions of a user. */
    function SessionsOf(user: UserId, now: nat): set<SessionId> {
      set sid | sid in sessions && now < sessions[sid].expiry && sessions[sid].user == user
    }

    /** The sessions the user's index leads to. */
    function Indexed(user: UserId, now: nat): set<SessionId> {
      set sid | sid in IndexOf(user).Live(now) && Exists(sid, now)
    }
  }

  const EMPTY := AppStore(map[], map[], NO_INDEX, map[])

  // ----- the operations, as functions of one app's store -----

  /** The hash and both indexes. */
  function Created(s: AppStore, sid: SessionId, user: UserId, data: string, ttl: nat, now: nat): AppStore {
    s.(sessions := s.sessions[sid := Session(user, data, now + ttl)],
       userIndex := s.userIndex[user := s.IndexOf(user).Add(sid, ttl, now)],
       appIndex := s.appIndex.Add(sid, ttl, now))
  }

  /** The end of any blacklisting of the user. */
  function Cleared(s: AppStore, user: UserId): AppStore {
    s.(blacklist := s.blacklist - {user})
  }

  /** A token rotation slides the hash's expiry; the indexes keep theirs. */
  function Rotated(s: AppStore, sid: SessionId, data: string, ttl: nat, now: nat): AppStore {
    if s.Exists(sid, now) then s.(sessions := s.sessions[sid := Session(s.sessions[sid].user, data, now + ttl)]) else s
  }

  function Deleted(s: AppStore, sid: SessionId, user: UserId): AppStore {
    s.(sessions := s.sessions - {sid},
       userIndex := if user in s.userIndex then s.userIndex[user := s.userIndex[user].Remove({sid})] else s.userIndex,
       appIndex := s.appIndex.Remove({sid}))
  }

  /** Deletes the sessions the user's index leads to, but for `keep`, and rebuilds the index without an expiry if
      one is kept.  None is the empty id, which names no session. */
  function AllDeleted(s: AppStore, user: UserId, keep: Option<SessionId>, now: nat): AppStore {
    var gone := s.Indexed(user, now) - Kept(keep);
    s.(sessions := s.sessions - gone,
       userIndex := if keep.None? then s.userIndex - {user} else s.userIndex[user := Index(Kept(keep), None)],
       appIndex := s.appIndex.Remove(gone))
  }

  function Kept(keep: Option<SessionId>): set<SessionId> {
    if keep.Some? then {keep.value} else {}
  }

  /** SET with no expiry when the lifetime is zero. */
  function Blacklisted(s: AppStore, user: UserId, ttl: nat, now: nat): AppStore {
    s.(blacklist := s.blacklist[user := if ttl == 0 then None else Some(now + ttl)])
  }

  predicate IsBlacklisted(s: AppStore, user: UserId, now: nat) {
    user in s.blacklist && (s.blacklist[user].None? || now < s.blacklist[user].value)
  }

  function Revoked(s: AppStore, user: UserId, ttl: nat, now: nat): AppStore {
    Blacklisted(AllDeleted(s, user, None, now), user, ttl, now)
  }

  function StoreOf(apps: map<AppId, AppStore>, app: AppId): AppStore {
    if app in apps then apps[app] else EMPTY
  }

  // ----- what revoking one user in one app does -----

  /** An index leads only to sessions of its own user. */
  ghost predicate IndexSound(s: AppStore, now: nat) {
    forall user, sid :: sid in s.Indexed(user, now) ==> s.sessions[sid].user == user
  }

  /** Sessions survive a revocation exactly when the index no longer led to them. */
  lemma RevocationLeavesUnindexed(s: AppStore, user: UserId, ttl: nat, now: nat)
    ensures Revoked(s, user, ttl, now).SessionsOf(user, now) == s.SessionsOf(user, now) - s.Indexed(user, now)
    ensures user !in Revoked(s, user, ttl, now).userIndex
    ensures BlacklistedFor(Revoked(s, user, ttl, now), user, ttl, now)
  {
  }

  /** From now on the user is blacklisted for exactly `ttl` seconds, or for good if that is zero. */
  ghost predicate BlacklistedFor(s: AppStore, user: UserId, ttl: nat, now: nat) {
    forall later: nat :: now <= later ==> (IsBlacklisted(s, user, later) <==> ttl == 0 || later < now + ttl)
  }

  lemma RevocationSparesOthers(s: AppStore, user: UserId, other: UserId, ttl: nat, now: nat)
    requires IndexSound(s, now) && other != user
    ensures var s' := Revoked(s, user, ttl, now);
            && s'.SessionsOf(other, now) == s.SessionsOf(other, now)
            && (forall sid :: sid in s.SessionsOf(other, now) ==> s'.sessions[sid] == s.sessions[sid])
            && s'.Indexed(other, now) == s.Indexed(other, now)
            && (forall later: nat :: IsBlacklisted(s', other, later) <==> IsBlacklisted(s, other, later))
  {
    var s' := Revoked(s, user, ttl, now);
    forall sid | sid in s.SessionsOf(other, now) ensures sid in s'.SessionsOf(other, now) {
      assert sid !in s.Indexed(user, now);
    }
    forall sid | sid in s.Indexed(other, now) ensures sid in s'.Indexed(other, now) {
      assert s.sessions[sid].user == other;
      assert sid !in s.Indexed(user, now);
    }
  }

  // ----- one operation -----

  /** Each login and rotation carries the session lifetime in force when it happens.  A login through the session
      service ends blacklisting (`clears`); one through OIDC does not. */
  datatype Op =
    | Create(sid: SessionId, user: UserId, data: string, ttl: nat, clears: bool)
    | Rotate(sid: SessionId, data: string, ttl: nat)
    | Delete(sid: SessionId, user: UserId)
    | RevokeAll(user: UserId, blacklistTtl: nat)
    | RevokeOthers(user: UserId, current: SessionId)
    | Blacklist(user: UserId, blacklistTtl: nat)

  function Performed(s: AppStore, op: Op, now: nat): AppStore {
    match op
    case Create(sid, user, data, ttl, clears) =>
      var created := Created(s, sid, user, data, ttl, now);
      if clears then Cleared(created, user) else created
    case Rotate(sid, data, ttl) => Rotated(s, sid, data, ttl, now)
    case Delete(sid, user) => Deleted(s, sid, user)
    case RevokeAll(user, blacklistTtl) => Revoked(s, user, blacklistTtl, now)
    case RevokeOthers(user, current) => AllDeleted(s, user, Some(current), now)
    case Blacklist(user, blacklistTtl) => Blacklisted(s, user, blacklistTtl, now)
  }

  // ----- what each operation does to one session -----

  /** The session is that user's, carries the data, and lives for exactly `ttl` seconds. */
  ghost predicate LivesFor(s: AppStore, sid: SessionId, user: UserId, data: string, ttl: nat, now: nat) {
    && sid in s.sessions && s.sessions[sid].user == user && s.sessions[sid].data == data
    && forall later: nat :: now <= later ==>
         (s.Exists(sid, later) <==> later < now + ttl) && (sid in s.SessionsOf(user, later) <==> later < now + ttl)
  }

  /** All sessions but these stay exactly as they were. */
  ghost predicate OthersKept(s: AppStore, s': AppStore, except: set<SessionId>) {
    forall sid :: sid !in except ==>
      (sid in s'.sessions <==> sid in s.sessions) && (sid in s.sessions ==> s'.sessions[sid] == s.sessions[sid])
  }

  /** A login opens a session of the user for its lifetime, indexed for a day longer; if it clears, the user is no
      longer blacklisted, and otherwise nobody's blacklisting changes. */
  lemma LoginLives(s: AppStore, sid: SessionId, user: UserId, data: string, ttl: nat, clears: bool, now: nat)
    ensures var s' := Performed(s, Create(sid, user, data, ttl, clears), now);
            && LivesFor(s', sid, user, data, ttl, now) && OthersKept(s, s', {sid})
            && (forall later: nat :: sid in s'.IndexOf(user).Live(later) <==> later < now + ttl + 24 * 3600)
            && (forall later: nat :: sid in s'.appIndex.Live(later) <==> later < now + ttl + 24 * 3600)
            && (forall other, t: nat :: IsBlacklisted(s', other, t) <==>
                  IsBlacklisted(s, other, t) && !(clears && other == user))
  {
  }

  /** A rotation gives a live session the new data and a full lifetime from now, and no other session a thing; a session
      that is not live stays so. */
  lemma RotationSlides(s: AppStore, sid: SessionId, data: string, ttl: nat, now: nat)
    ensures var s' := Performed(s, Rotate(sid, data, ttl), now);
            && OthersKept(s, s', {sid})
            && if s.Exists(sid, now) then LivesFor(s', sid, s.sessions[sid].user, data, ttl, now)
               else forall later: nat :: now <= later ==> !s'.Exists(sid, later)
  {
  }

  /** A deleted session is gone, from the user's index and the app's too; every other session stays. */
  lemma DeletedIsGone(s: AppStore, sid: SessionId, user: UserId, now: nat)
    ensures var s' := Performed(s, Delete(sid, user), now);
            && OthersKept(s, s', {sid})
            && (forall t: nat :: !s'.Exists(sid, t)) && (forall u, t: nat :: sid !in s'.SessionsOf(u, t))
            && sid !in s'.IndexOf(user).ids && sid !in s'.appIndex.ids
            && (forall other :: other != sid ==> (other in s'.IndexOf(user).ids <==> other in s.IndexOf(user).ids))
  {
  }

  /** Revoking all but one session: of the sessions the index led to only the spared one is left, the rest of the app is
      untouched, and the index leads to the spared one as long as it lives. */
  lemma SparedSessionStays(s: AppStore, user: UserId, current: SessionId, now: nat)
    ensures var s' := Performed(s, RevokeOthers(user, current), now);
            && OthersKept(s, s', s.Indexed(user, now) - {current})
            && (forall sid :: sid in s.Indexed(user, now) - {current} ==>
                  sid !in s'.sessions && sid !in s'.appIndex.ids)
            && (forall later: nat :: s'.Indexed(user, later) == if s.Exists(current, later) then {current} else {})
            && (forall other, t: nat :: IsBlacklisted(s', other, t) <==> IsBlacklisted(s, other, t))
  {
    var s' := Performed(s, RevokeOthers(user, current), now);
    forall later: nat ensures s'.Indexed(user, later) == if s.Exists(current, later) then {current} else {} {
      assert s'.Exists(current, later) <==> s.Exists(current, later);
    }
  }

  /** A session id is a fresh UUID: neither stored nor left behind in an index. */
  ghost predicate FreshSid(s: AppStore, sid: SessionId) {
    sid !in s.sessions && forall user :: user in s.userIndex ==> sid !in s.userIndex[user].ids
  }

  /** New sessions get fresh ids, and the session a user keeps is the user's own. */
  ghost predicate Allowed(s: AppStore, op: Op) {
    && (op.Create? ==> FreshSid(s, op.sid))
    && (op.RevokeOthers? && op.current in s.sessions ==> s.sessions[op.current].user == op.user)
  }

  /** Every live session is in its user's index and expires no later than the index does. */
  ghost predicate Covered(s: AppStore, now: nat) {
    forall sid :: s.Exists(sid, now) ==> CoveredSession(s, sid)
  }

  ghost predicate CoveredSession(s: AppStore, sid: SessionId)
    requires sid in s.sessions
  {
    var index := s.IndexOf(s.sessions[sid].user);
    sid in index.ids && index.Outlasts(s.sessions[sid].expiry)
  }

  /** Ids in a user's index that still name a stored session name one of that user. */
  ghost predicate OwnIds(s: AppStore) {
    forall user, sid :: user in s.userIndex && sid in s.userIndex[user].ids && sid in s.sessions ==>
      s.sessions[sid].user == user
  }

  /** The two ways coverage can be lost: a rotation past the index's expiry, and a login under a lifetime so much
      shorter than before that the index now expires ahead of an older session. */
  ghost predicate InTime(s: AppStore, op: Op, now: nat) {
    match op
    case Rotate(sid, _, ttl) => s.Exists(sid, now) ==> s.IndexOf(s.sessions[sid].user).Outlasts(now + ttl)
    case Create(_, user, _, ttl, _) =>
      forall sid :: sid in s.SessionsOf(user, now) ==> s.sessions[sid].expiry <= now + ttl + INDEX_GRACE
    case _ => true
  }

  lemma StepKeepsOwnIds(s: AppStore, op: Op, now: nat)
    requires OwnIds(s) && Allowed(s, op)
    ensures OwnIds(Performed(s, op, now))
  {
  }

  lemma OwnIdsMeansSound(s: AppStore, now: nat)
    requires OwnIds(s)
    ensures IndexSound(s, now)
  {
  }

  lemma StepKeepsCovered(s: AppStore, op: Op, now: nat)
    requires Covered(s, now) && OwnIds(s) && Allowed(s, op) && InTime(s, op, now)
    ensures Covered(Performed(s, op, now), now)
  {
    var s' := Performed(s, op, now);
    forall sid | s'.Exists(sid, now) ensures CoveredSession(s', sid) {
      match op
      case RevokeAll(user, _) => assert s.Exists(sid, now) && sid !in s.Indexed(user, now);
      case RevokeOthers(user, current) =>
        assert s.Exists(sid, now) && (sid == current || sid !in s.Indexed(user, now));
      case Create(created, user, _, _, _) =>
        if sid != created {
          assert s.Exists(sid, now);
          assert s.sessions[sid].user == user ==> sid in s.SessionsOf(user, now);
        }
      case _ => assert s.Exists(sid, now);
    }
  }

  /** An operation keeps the store covered exactly when it comes in time. */
  lemma StepKeepsCoveredIff(s: AppStore, op: Op, now: nat)
    requires Covered(s, now) && OwnIds(s) && Allowed(s, op)
    ensures Covered(Performed(s, op, now), now) <==> InTime(s, op, now)
  {
    if InTime(s, op, now) {
      StepKeepsCovered(s, op, now);
    } else if op.Rotate? {
      assert Performed(s, op, now).Exists(op.sid, now) && !CoveredSession(Performed(s, op, now), op.sid);
    } else {
      var sid :| sid in s.SessionsOf(op.user, now) && s.sessions[sid].expiry > now + op.ttl + INDEX_GRACE;
      assert Performed(s, op, now).Exists(sid, now) && !CoveredSession(Performed(s, op, now), sid);
    }
  }

  /** Under one lifetime a login is always in time. */
  lemma LoginInTimeUnderOneLifetime(s: AppStore, op: Op, now: nat)
    requires op.Create?
    requires forall sid :: sid in s.sessions ==> s.sessions[sid].expiry <= now + op.ttl
    ensures InTime(s, op, now)
  {
  }

  /** Under one lifetime a rotation is in time exactly while no more than a day has passed since the login that
      last wrote the index. */
  lemma RotationInTimeWithinADay(s: AppStore, op: Op, now: nat, lastLogin: nat)
    requires op.Rotate? && s.Exists(op.sid, now)
    requires s.IndexOf(s.sessions[op.sid].user).expiry == Some(lastLogin + op.ttl + INDEX_GRACE)
    ensures InTime(s, op, now) <==> now <= lastLogin + INDEX_GRACE
  {
  }

  /** Revoking the user at this instant leaves no session of the user. */
  ghost predicate RevokesAll(s: AppStore, user: UserId, ttl: nat, now: nat) {
    Revoked(s, user, ttl, now).SessionsOf(user, now) == {}
  }

  /** A store is covered exactly when revoking any of its users, at any later instant, leaves no session. */
  lemma CoveredIffRevocable(s: AppStore, now: nat)
    ensures Covered(s, now) <==> forall user, ttl: nat, later: nat :: now <= later ==> RevokesAll(s, user, ttl, later)
  {
    if Covered(s, now) {
      forall user, ttl: nat, later: nat | now <= later ensures RevokesAll(s, user, ttl, later) {
        RevocationLeavesUnindexed(s, user, ttl, later);
        forall sid | sid in s.SessionsOf(user, later) ensures sid in s.Indexed(user, later) {
          assert s.Exists(sid, now);
        }
      }
    } else {
      var sid :| s.Exists(sid, now) && !CoveredSession(s, sid);
      var user := s.sessions[sid].user;
      var index := s.IndexOf(user);
      var later := if sid in index.ids && now < index.expiry.value then index.expiry.value else now;
      RevocationLeavesUnindexed(s, user, 0, later);
      assert sid in s.SessionsOf(user, later) && sid !in s.Indexed(user, later);
      assert sid in Revoked(s, user, 0, later).SessionsOf(user, later);
      hide Revoked;
      assert !RevokesAll(s, user, 0, later);
    }
  }
}
