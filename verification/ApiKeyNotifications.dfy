/** Expiry warnings for API keys: one periodic check, and what a whole schedule of checks guarantees.
    Instants and durations are in nanoseconds. */
module ApiKeyNotifications {
  import opened Wrappers

  const HOUR: int := 3_600_000_000_000
  const DAY: int := 24 * HOUR
  const WINDOW_DAYS: int := 7

  type KeyId = nat

  datatype Kind = SevenDay | OneDay

  /** The columns the check reads and writes; a set `notified` column is one that is not NULL. */
  datatype ApiKey = ApiKey(id: KeyId, expiresAt: Option<int>, revoked: bool, notified7: bool, notified1: bool) {
    predicate Notified(kind: Kind) {
      if kind.SevenDay? then notified7 else notified1
    }

    function Mark(kind: Kind): ApiKey {
      if kind.SevenDay? then this.(notified7 := true) else this.(notified1 := true)
    }
  }

  datatype Mail = Mail(id: KeyId, kind: Kind, daysLeft: int)

  /** One check: its three clock reads (cutoff, query, loop), whether a recipient is configured and the query
      succeeds, and which sends and marks succeed. */
  datatype Check = Check(
    cutoffClock: int,
    queryClock: int,
    now: int,
    configured: bool,
    queryOk: bool,
    delivers: (KeyId, Kind) -> bool,
    marks: (KeyId, Kind) -> bool)

  /** Whole days, truncated toward zero. */
  function WholeDays(duration: int): int {
    if duration >= 0 then duration / DAY else -(-duration / DAY)
  }

  /** The days left at which a kind of warning becomes due. */
  function DueDays(kind: Kind): int {
    if kind.SevenDay? then 7 else 1
  }

  predicate Selected(check: Check, key: ApiKey) {
    && !key.revoked && key.expiresAt.Some?
    && check.queryClock < key.expiresAt.value <= check.cutoffClock + WINDOW_DAYS * DAY
  }

  /** The mail of one kind that a check sends for a selected key, if any. */
  function MailOf(check: Check, key: ApiKey, kind: Kind): Option<Mail> {
    if key.expiresAt.None? then None
    else
      var daysLeft := WholeDays(key.expiresAt.value - check.now);
      if daysLeft <= DueDays(kind) && !key.Notified(kind) && check.delivers(key.id, kind)
      then Some(Mail(key.id, kind, daysLeft)) else None
  }

  /** The key after a check: a kind is marked when its mail went out and the mark succeeded. */
  function Marked(check: Check, key: ApiKey, kind: Kind, before: ApiKey): ApiKey {
    if MailOf(check, before, kind).Some? && check.marks(key.id, kind) then key.Mark(kind) else key
  }

  function AfterCheck(check: Check, key: ApiKey): ApiKey {
    Marked(check, Marked(check, key, SevenDay, key), OneDay, key)
  }

  function AsSeq(mail: Option<Mail>): seq<Mail> {
    if mail.Some? then [mail.value] else []
  }

  function MailsOf(check: Check, key: ApiKey): seq<Mail> {
    AsSeq(MailOf(check, key, SevenDay)) + AsSeq(MailOf(check, key, OneDay))
  }

  predicate Runs(check: Check) {
    check.configured && check.queryOk
  }

  /** A row of the table after a check, and the mails sent for it. */
  function RowAfter(check: Check, key: ApiKey): ApiKey {
    if Runs(check) && Selected(check, key) then AfterCheck(check, key) else key
  }

  function RowMails(check: Check, key: ApiKey): seq<Mail> {
    if Runs(check) && Selected(check, key) then MailsOf(check, key) else []
  }

  /** The mails for one key, in the order sent. */
  function MailsFor(mails: seq<Mail>, id: KeyId): seq<Mail> {
    if mails == [] then []
    else
      var rest := MailsFor(mails[..|mails| - 1], id);
      if mails[|mails| - 1].id == id then rest + [mails[|mails| - 1]] else rest
  }

  lemma {:induction false} MailsForAppend(a: seq<Mail>, b: seq<Mail>, id: KeyId)
    ensures MailsFor(a + b, id) == MailsFor(a, id) + MailsFor(b, id)
    decreases |b|
  {
    if b == [] {
      assert a + b == a;
    } else {
      assert (a + b)[..|a + b| - 1] == a + b[..|b| - 1];
      MailsForAppend(a, b[..|b| - 1], id);
    }
  }

  lemma MailsForRow(check: Check, key: ApiKey, id: KeyId)
    ensures MailsFor(MailsOf(check, key), id) == if key.id == id then MailsOf(check, key) else []
  {
    var a, b := AsSeq(MailOf(check, key, SevenDay)), AsSeq(MailOf(check, key, OneDay));
    MailsForAppend(a, b, id);
  }

  // ----- the service -----

  class ApiKeyRepository {
    var keys: map<KeyId, ApiKey>

    constructor (keys: map<KeyId, ApiKey>)
      ensures this.keys == keys
    {
      this.keys := keys;
    }

    ghost predicate Valid()
      reads this
    {
      forall id :: id in keys ==> keys[id].id == id
    }

    /** The active keys inside the window, each once, in no particular order. */
    method GetKeysExpiringWithin(check: Check) returns (found: seq<ApiKey>)
      requires Valid()
      ensures Listed(check, keys, found)
      ensures forall key :: key in found <==>
                && key.id in keys && keys[key.id] == key && !key.revoked && key.expiresAt.Some?
                && check.queryClock < key.expiresAt.value <= check.cutoffClock + 7 * DAY
    {
      found := [];
      var rest := keys.Keys;
      while rest != {}
        invariant rest <= keys.Keys
        invariant forall i :: 0 <= i < |found| ==>
                    found[i].id in keys && found[i].id !in rest && keys[found[i].id] == found[i]
                    && Selected(check, found[i])
        invariant forall id :: id in keys && id !in rest && Selected(check, keys[id]) ==> keys[id] in found
        invariant forall i, j :: 0 <= i < j < |found| ==> found[i].id != found[j].id
        decreases rest
      {
        var id :| id in rest;
        if Selected(check, keys[id]) {
          found := found + [keys[id]];
        }
        rest := rest - {id};
      }
    }

    method MarkNotified(id: KeyId, kind: Kind, ok: bool)
      requires Valid() && id in keys
      modifies this
      ensures Valid()
      ensures keys == if ok then old(keys)[id := old(keys)[id].Mark(kind)] else old(keys)
    {
      if ok {
        keys := keys[id := keys[id].Mark(kind)];
      }
    }
  }

  class ApiKeyNotificationService {
    const repo: ApiKeyRepository
    var outbox: seq<Mail>

    constructor (repo: ApiKeyRepository)
      ensures this.repo == repo && outbox == []
    {
      this.repo := repo;
      outbox := [];
    }

    /** One kind of warning for one key: send it if it is due, then mark it. */
    method Warn(check: Check, key: ApiKey, kind: Kind, sent: nat) returns (sent': nat)
      requires repo.Valid() && key.id in repo.keys && key.expiresAt.Some?
      modifies repo, this`outbox
      ensures repo.Valid()
      ensures outbox == old(outbox) + AsSeq(MailOf(check, key, kind))
      ensures sent' == sent + |AsSeq(MailOf(check, key, kind))|
      ensures repo.keys == old(repo.keys)[key.id := Marked(check, old(repo.keys)[key.id], kind, key)]
    {
      sent' := sent;
      var daysLeft := WholeDays(key.expiresAt.value - check.now);
      if daysLeft <= DueDays(kind) && !key.Notified(kind) {
        if check.delivers(key.id, kind) {
          outbox := outbox + [Mail(key.id, kind, daysLeft)];
          repo.MarkNotified(key.id, kind, check.marks(key.id, kind));
          sent' := sent' + 1;
        }
      }
    }

    method WarnKey(check: Check, key: ApiKey, sent: nat) returns (sent': nat)
      requires repo.Valid() && key.id in repo.keys && repo.keys[key.id] == key && key.expiresAt.Some?
      modifies repo, this`outbox
      ensures repo.Valid()
      ensures outbox == old(outbox) + MailsOf(check, key) && sent' == sent + |MailsOf(check, key)|
      ensures repo.keys == old(repo.keys)[key.id := AfterCheck(check, key)]
    {
      sent' := Warn(check, key, SevenDay, sent);
      sent' := Warn(check, key, OneDay, sent');
    }

    /** One check: every selected key gets its due mails and marks, every other row is untouched, and `sent`
        counts the mails. */
    method RunCheck(check: Check) returns (sent: nat)
      requires repo.Valid()
      modifies repo, this`outbox
      ensures repo.Valid() && repo.keys.Keys == old(repo.keys.Keys)
      ensures forall id :: id in repo.keys ==> repo.keys[id] == RowAfter(check, old(repo.keys)[id])
      ensures |old(outbox)| <= |outbox| && outbox[..|old(outbox)|] == old(outbox)
      ensures sent == |outbox| - |old(outbox)|
      ensures forall id :: MailsFor(outbox[|old(outbox)|..], id)
                == if id in old(repo.keys) then RowMails(check, old(repo.keys)[id]) else []
    {
      sent := 0;
      assert outbox[|outbox|..] == [];
      if !check.configured || !check.queryOk { return; }
      var found := repo.GetKeysExpiringWithin(check);
      ghost var table := repo.keys;
      assert Listed(check, table, found);
      hide MailsFor, RowAfter, RowMails, Done, Listed, Ids;
      ghost var mails;
      sent, mails := WarnEach(check, found);
      assert outbox[|old(outbox)|..] == mails;
      DoneAll(check, table, repo.keys, mails, found);
    }

    method WarnEach(check: Check, found: seq<ApiKey>) returns (sent: nat, ghost mails: seq<Mail>)
      requires repo.Valid() && Listed(check, repo.keys, found)
      modifies repo, this`outbox
      ensures repo.Valid() && Done(check, old(repo.keys), repo.keys, mails, Ids(found, |found|))
      ensures outbox == old(outbox) + mails && sent == |mails|
    {
      hide Done, Listed, Selected, Marked, AfterCheck, MailOf, MailsOf, MailsFor, RowAfter, RowMails, Ids;
      sent, mails := 0, [];
      ghost var table := repo.keys;
      DoneNone(check, table, found);
      for n := 0 to |found|
        invariant repo.Valid() && Done(check, table, repo.keys, mails, Ids(found, n))
        invariant outbox == old(outbox) + mails && sent == |mails|
      {
        DoneStep(check, table, repo.keys, mails, found, n);
        sent := WarnKey(check, found[n], sent);
        Regroup(old(outbox), mails, MailsOf(check, found[n]));
        mails := mails + MailsOf(check, found[n]);
      }
    }
  }

  lemma DoneNone(check: Check, table: map<KeyId, ApiKey>, found: seq<ApiKey>)
    ensures Done(check, table, table, [], Ids(found, 0))
  {
  }

  lemma Regroup(a: seq<Mail>, b: seq<Mail>, c: seq<Mail>)
    ensures (a + b) + c == a + (b + c)
  {
  }

  ghost function Ids(found: seq<ApiKey>, n: nat): set<KeyId>
    requires n <= |found|
  {
    set i | 0 <= i < n :: found[i].id
  }

  /** The table and the mails once the keys in `ids` have been handled. */
  ghost predicate Done(check: Check, table: map<KeyId, ApiKey>, keys: map<KeyId, ApiKey>, mails: seq<Mail>,
                       ids: set<KeyId>)
  {
    && keys.Keys == table.Keys && ids <= table.Keys
    && (forall id :: id in table ==> keys[id] == if id in ids then AfterCheck(check, table[id]) else table[id])
    && MailsDone(check, table, mails, ids)
  }

  ghost predicate MailsDone(check: Check, table: map<KeyId, ApiKey>, mails: seq<Mail>, ids: set<KeyId>)
    requires ids <= table.Keys
  {
    forall id :: MailsFor(mails, id) == if id in ids then MailsOf(check, table[id]) else []
  }

  ghost predicate Listed(check: Check, table: map<KeyId, ApiKey>, found: seq<ApiKey>) {
    && (forall i :: 0 <= i < |found| ==>
          found[i].id in table && table[found[i].id] == found[i] && Selected(check, found[i]))
    && (forall id :: id in table && Selected(check, table[id]) ==> table[id] in found)
    && (forall i, j :: 0 <= i < j < |found| ==> found[i].id != found[j].id)
  }

  lemma DoneStep(check: Check, table: map<KeyId, ApiKey>, keys: map<KeyId, ApiKey>, mails: seq<Mail>,
                 found: seq<ApiKey>, n: nat)
    requires n < |found| && Listed(check, table, found) && Done(check, table, keys, mails, Ids(found, n))
    ensures var key := found[n];
            && key.id in keys && keys[key.id] == key && key.expiresAt.Some?
            && Done(check, table, keys[key.id := AfterCheck(check, key)], mails + MailsOf(check, key),
                    Ids(found, n + 1))
  {
    hide AfterCheck, MailsOf, MailsDone;
    var key := found[n];
    assert Ids(found, n + 1) == Ids(found, n) + {key.id};
    MailsDoneStep(check, table, mails, Ids(found, n), key);
  }

  lemma MailsDoneStep(check: Check, table: map<KeyId, ApiKey>, mails: seq<Mail>, ids: set<KeyId>, key: ApiKey)
    requires ids <= table.Keys && MailsDone(check, table, mails, ids)
    requires key.id in table && table[key.id] == key && key.id !in ids
    ensures MailsDone(check, table, mails + MailsOf(check, key), ids + {key.id})
  {
    hide MailsOf;
    forall id ensures MailsFor(mails + MailsOf(check, key), id)
                      == MailsFor(mails, id) + if id == key.id then MailsOf(check, key) else []
    {
      MailsForAppend(mails, MailsOf(check, key), id);
      MailsForRow(check, key, id);
    }
    hide MailsFor;
  }

  lemma DoneAll(check: Check, table: map<KeyId, ApiKey>, keys: map<KeyId, ApiKey>, mails: seq<Mail>, found: seq<ApiKey>)
    requires Runs(check) && Listed(check, table, found) && Done(check, table, keys, mails, Ids(found, |found|))
    requires forall id :: id in table ==> table[id].id == id
    ensures keys.Keys == table.Keys && forall id :: id in table ==> keys[id] == RowAfter(check, table[id])
    ensures forall id :: MailsFor(mails, id) == if id in table then RowMails(check, table[id]) else []
  {
    hide AfterCheck, MailsOf, MailsFor;
    forall id | id in table && Selected(check, table[id]) ensures id in Ids(found, |found|) {
      assert table[id] in found;
    }
  }
}
