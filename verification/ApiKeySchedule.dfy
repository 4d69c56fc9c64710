/** What a schedule of checks guarantees for one key: at most one warning of each kind, and how early it comes. */
module ApiKeySchedule {
  import opened Wrappers
  import opened ApiKeyNotifications

  /** One key under a sequence of checks.  Nothing but the checks writes its marks, and its expiry is fixed;
      it may be revoked at any time. */
  datatype History = History(start: ApiKey, checks: seq<Check>, revoked: nat -> bool) {
    /** The row as the i-th check finds it. */
    ghost function At(i: nat): ApiKey
      requires i <= |checks|
    {
      if i == 0 then start.(revoked := revoked(0))
      else RowAfter(checks[i - 1], At(i - 1)).(revoked := revoked(i))
    }

    ghost function Sent(i: nat, kind: Kind): Option<Mail>
      requires i < |checks|
    {
      if Runs(checks[i]) && Selected(checks[i], At(i)) then MailOf(checks[i], At(i), kind) else None
    }

    /** The i-th check sent the mail but could not set the mark. */
    ghost predicate MarkFailed(i: nat, kind: Kind)
      requires i < |checks|
    {
      Sent(i, kind).Some? && !checks[i].marks(start.id, kind)
    }

    ghost function SentBy(n: nat, kind: Kind): nat
      requires n <= |checks|
    {
      if n == 0 then 0 else SentBy(n - 1, kind) + if Sent(n - 1, kind).Some? then 1 else 0
    }

    ghost function FailedMarksBy(n: nat, kind: Kind): nat
      requires n <= |checks|
    {
      if n == 0 then 0 else FailedMarksBy(n - 1, kind) + if MarkFailed(n - 1, kind) then 1 else 0
    }
  }

  // ----- exactly which mails are sent -----

  /** The key is active and has an expiry after the query's clock and no later than seven days after the cutoff's. */
  predicate InWindow(check: Check, revoked: bool, expiresAt: Option<int>) {
    && !revoked && expiresAt.Some?
    && check.queryClock < expiresAt.value <= check.cutoffClock + 7 * DAY
  }

  /** `days` is `left` in whole days, cut off toward zero. */
  predicate IsDaysLeft(left: int, days: int) {
    if left >= 0 then days * DAY <= left < (days + 1) * DAY else (days - 1) * DAY < left <= days * DAY
  }

  lemma WholeDaysIs(left: int, due: nat)
    ensures IsDaysLeft(left, WholeDays(left))
    ensures WholeDays(left) <= due <==> left < (due + 1) * DAY
  {
  }

  /** A check sends a mail of a kind for a key exactly when it runs, the key is in its window, fewer than eight or two
      days are left, the kind is not marked, and delivery succeeds; the mail names the key, the kind and the days left.
      The mark is then set exactly when setting it succeeds, and otherwise keeps its value. */
  lemma SentExactly(h: History, i: nat, kind: Kind)
    requires i < |h.checks|
    ensures var (check, key) := (h.checks[i], h.At(i));
            && key.id == h.start.id && key.expiresAt == h.start.expiresAt && key.revoked == h.revoked(i)
            && (h.Sent(i, kind).Some? <==>
                && check.configured && check.queryOk && InWindow(check, h.revoked(i), h.start.expiresAt)
                && h.start.expiresAt.value - check.now < (if kind.SevenDay? then 8 else 2) * DAY
                && !key.Notified(kind) && check.delivers(h.start.id, kind))
            && (h.Sent(i, kind).Some? ==>
                  var mail := h.Sent(i, kind).value;
                  mail.id == h.start.id && mail.kind == kind
                  && IsDaysLeft(h.start.expiresAt.value - check.now, mail.daysLeft))
            && (h.At(i + 1).Notified(kind) <==>
                  key.Notified(kind) || (h.Sent(i, kind).Some? && check.marks(h.start.id, kind)))
  {
    RowKeepsKey(h, i);
    StepRow(h, i, kind);
    if h.start.expiresAt.Some? { WholeDaysIs(h.start.expiresAt.value - h.checks[i].now, DueDays(kind)); }
    hide RowAfter, WholeDays;
  }

  /** A revoked key, a key without expiry, an expired one and one that expires past the window get no mail, and their
      marks keep their value. */
  lemma SilentOutsideWindow(h: History, i: nat, kind: Kind)
    requires i < |h.checks| && !InWindow(h.checks[i], h.revoked(i), h.start.expiresAt)
    ensures h.Sent(i, kind).None? && h.At(i + 1).Notified(kind) == h.At(i).Notified(kind)
  {
    SentExactly(h, i, kind);
    hide RowAfter, WholeDays;
  }

  /** A key outside the window of each of the first n checks has got no mail at all. */
  lemma NothingOutsideWindow(h: History, n: nat)
    requires n <= |h.checks|
    requires forall i :: 0 <= i < n ==> !InWindow(h.checks[i], h.revoked(i), h.start.expiresAt)
    ensures MailsBy(h, n) == []
  {
    hide InWindow;
    forall i | 0 <= i < n ensures RowMails(h.checks[i], h.At(i)) == [] { NoRowMails(h, i); }
    NoneAdded(h, n);
  }

  lemma {:induction false} NoneAdded(h: History, n: nat)
    requires n <= |h.checks| && forall i :: 0 <= i < n ==> RowMails(h.checks[i], h.At(i)) == []
    ensures MailsBy(h, n) == []
  {
    hide RowMails, RowAfter;
    if n > 0 { NoneAdded(h, n - 1); }
  }

  lemma NoRowMails(h: History, i: nat)
    requires i < |h.checks| && !InWindow(h.checks[i], h.revoked(i), h.start.expiresAt)
    ensures RowMails(h.checks[i], h.At(i)) == []
  {
    RowKeepsKey(h, i);
    NotRevokedAt(h, i);
    hide RowAfter;
  }

  lemma StepRow(h: History, i: nat, kind: Kind)
    requires i < |h.checks| && h.At(i).id == h.start.id
    ensures h.At(i + 1).id == h.start.id && h.At(i + 1).expiresAt == h.At(i).expiresAt
    ensures h.At(i + 1).Notified(kind) <==> h.At(i).Notified(kind) || (h.Sent(i, kind).Some? && !h.MarkFailed(i, kind))
    ensures h.Sent(i, kind).Some? ==> !h.At(i).Notified(kind)
  {
  }

  lemma {:induction false} RowKeepsKey(h: History, i: nat)
    requires i <= |h.checks|
    ensures h.At(i).id == h.start.id && h.At(i).expiresAt == h.start.expiresAt
  {
    if i > 0 {
      RowKeepsKey(h, i - 1);
      StepRow(h, i - 1, SevenDay);
    }
  }

  /** Every mail is accounted for: it set the mark, once, or its mark failed. */
  lemma {:induction false} SentAccounting(h: History, n: nat, kind: Kind)
    requires n <= |h.checks|
    ensures h.SentBy(n, kind) == h.FailedMarksBy(n, kind)
                                 + if h.At(n).Notified(kind) && !h.start.Notified(kind) then 1 else 0
    ensures h.start.Notified(kind) ==> h.At(n).Notified(kind)
  {
    if n > 0 {
      SentAccounting(h, n - 1, kind);
      RowKeepsKey(h, n - 1);
      StepRow(h, n - 1, kind);
    }
  }

  /** At most one warning of each kind, plus one for each mark that failed; none for a key already marked. */
  lemma AtMostOnce(h: History, n: nat, kind: Kind)
    requires n <= |h.checks|
    ensures h.SentBy(n, kind) <= 1 + h.FailedMarksBy(n, kind)
    ensures h.start.Notified(kind) ==> h.SentBy(n, kind) == 0
  {
    SentAccounting(h, n, kind);
    if h.start.Notified(kind) { NoneOnceMarked(h, n, kind); }
  }

  lemma {:induction false} NoneOnceMarked(h: History, n: nat, kind: Kind)
    requires n <= |h.checks| && h.start.Notified(kind)
    ensures h.SentBy(n, kind) == 0 && h.At(n).Notified(kind)
  {
    if n > 0 {
      NoneOnceMarked(h, n - 1, kind);
      RowKeepsKey(h, n - 1);
      StepRow(h, n - 1, kind);
    }
  }

  // ----- lead time -----

  /** Check k runs, finds the key active, sends, and reads its clocks in order, within five days. */
  ghost predicate Steady(h: History, k: nat)
    requires k < |h.checks|
  {
    var c := h.checks[k];
    && Runs(c) && !h.revoked(k)
    && c.delivers(h.start.id, SevenDay) && c.delivers(h.start.id, OneDay)
    && c.cutoffClock <= c.queryClock <= c.now <= c.cutoffClock + 5 * DAY
  }

  /** Check k + 1 follows check k within `gap`, both on the clock that sets the cutoff and on the clock that
      counts the days. */
  ghost predicate Follows(h: History, k: nat, gap: int)
    requires k + 1 < |h.checks|
  {
    var c, d := h.checks[k], h.checks[k + 1];
    && c.cutoffClock <= d.cutoffClock <= c.cutoffClock + gap
    && c.now <= d.now <= c.now + gap
  }

  /** Checks i..j are steady and follow one another within `gap`. */
  ghost predicate Regular(h: History, i: nat, j: nat, gap: int) {
    && i <= j < |h.checks|
    && h.start.expiresAt.Some?
    && (forall k :: i <= k <= j ==> Steady(h, k))
    && (forall k :: i <= k < j ==> Follows(h, k, gap))
  }

  /** The time left when the i-th check counts the days. */
  ghost function Left(h: History, i: nat): int
    requires i < |h.checks| && h.start.expiresAt.Some?
  {
    h.start.expiresAt.value - h.checks[i].now
  }

  /** The time left when the i-th check fixes its cutoff. */
  ghost function LeftAtCutoff(h: History, i: nat): int
    requires i < |h.checks| && h.start.expiresAt.Some?
  {
    h.start.expiresAt.value - h.checks[i].cutoffClock
  }

  lemma DaysBelow(left: int, days: nat)
    requires left >= 0
    ensures WholeDays(left) <= days <==> left < (days + 1) * DAY
    ensures WholeDays(left) >= days <==> left >= days * DAY
  {
  }

  /** The first of checks i..j that has less than `bound` left, given that check i has at least that. */
  lemma {:induction false} FirstBelow(h: History, i: nat, j: nat, gap: int, bound: int) returns (m: nat)
    requires Regular(h, i, j, gap) && Left(h, i) >= bound && Left(h, j) < bound
    ensures i < m <= j && bound - gap <= Left(h, m) < bound && Left(h, m - 1) >= bound
    decreases j
  {
    assert Follows(h, j - 1, gap);
    if Left(h, j - 1) >= bound {
      m := j;
    } else {
      m := FirstBelow(h, i, j - 1, gap, bound);
    }
  }

  lemma {:induction false} FirstInWindow(h: History, i: nat, j: nat, gap: int) returns (m: nat)
    requires Regular(h, i, j, gap)
    requires LeftAtCutoff(h, i) > WINDOW_DAYS * DAY && LeftAtCutoff(h, j) <= WINDOW_DAYS * DAY
    ensures i < m <= j && WINDOW_DAYS * DAY - gap < LeftAtCutoff(h, m) <= WINDOW_DAYS * DAY
    ensures LeftAtCutoff(h, m - 1) > WINDOW_DAYS * DAY
    decreases j
  {
    assert Follows(h, j - 1, gap);
    if LeftAtCutoff(h, j - 1) > WINDOW_DAYS * DAY {
      m := j;
    } else {
      m := FirstInWindow(h, i, j - 1, gap);
    }
  }

  /** A check with two days or more left sends no 1-day warning. */
  lemma TooEarlyForOneDay(h: History, k: nat)
    requires k < |h.checks| && h.start.expiresAt.Some? && Left(h, k) >= 2 * DAY
    ensures h.Sent(k, OneDay).None?
  {
    RowKeepsKey(h, k);
    DaysBelow(Left(h, k), 1);
  }

  lemma {:induction false} UnmarkedWhileEarly(h: History, i: nat, k: nat, j: nat, gap: int)
    requires Regular(h, i, j, gap) && i <= k <= j && !h.At(i).notified1
    requires forall n :: i <= n < k ==> Left(h, n) >= 2 * DAY
    ensures !h.At(k).notified1
    decreases k
  {
    if i < k {
      UnmarkedWhileEarly(h, i, k - 1, j, gap);
      RowKeepsKey(h, k - 1);
      TooEarlyForOneDay(h, k - 1);
      StepRow(h, k - 1, OneDay);
    }
  }

  /** A key unmarked at check i with two days or more left, and below two days by check j, is warned in between,
      by the first check that finds it below two days: at least two days less one gap ahead.  So with checks at
      most a day apart the mail has at least a day's notice, and says one day. */
  lemma OneDayWarningInTime(h: History, i: nat, j: nat, gap: int) returns (m: nat)
    requires Regular(h, i, j, gap) && gap < 2 * DAY
    requires !h.At(i).notified1 && Left(h, i) >= 2 * DAY && Left(h, j) < 2 * DAY
    ensures i < m <= j && h.Sent(m, OneDay).Some?
    ensures 2 * DAY - gap <= Left(h, m) < 2 * DAY
    ensures forall k :: i <= k < m ==> h.Sent(k, OneDay).None?
    ensures h.Sent(m, OneDay).value.daysLeft == 1 <==> Left(h, m) >= DAY
  {
    m := FirstBelow(h, i, j, gap, 2 * DAY);
    forall k | i <= k < m ensures Left(h, k) >= 2 * DAY {
      EarlierHasMoreLeft(h, i, k, m - 1, j, gap);
    }
    forall k | i <= k < m ensures h.Sent(k, OneDay).None? { TooEarlyForOneDay(h, k); }
    UnmarkedWhileEarly(h, i, m, j, gap);
    RowKeepsKey(h, m);
    DaysBelow(Left(h, m), 1);
    NotRevokedAt(h, m);
    assert Steady(h, m);
  }

  lemma NotRevokedAt(h: History, m: nat)
    requires m <= |h.checks|
    ensures h.At(m).revoked == h.revoked(m)
  {
  }

  lemma {:induction false} EarlierHasMoreLeft(h: History, i: nat, k: nat, m: nat, j: nat, gap: int)
    requires Regular(h, i, j, gap) && i <= k <= m <= j
    ensures Left(h, k) >= Left(h, m) && LeftAtCutoff(h, k) >= LeftAtCutoff(h, m)
    decreases m
  {
    if k < m {
      EarlierHasMoreLeft(h, i, k, m - 1, j, gap);
      assert Follows(h, m - 1, gap);
    }
  }

  /** Outside the window nothing is sent and nothing is marked. */
  lemma {:induction false} UntouchedOutsideWindow(h: History, i: nat, k: nat, j: nat, gap: int, kind: Kind)
    requires Regular(h, i, j, gap) && i <= k <= j
    requires forall n :: i <= n < k ==> LeftAtCutoff(h, n) > WINDOW_DAYS * DAY
    ensures h.At(k).Notified(kind) == h.At(i).Notified(kind)
    decreases k
  {
    if i < k {
      UntouchedOutsideWindow(h, i, k - 1, j, gap, kind);
      RowKeepsKey(h, k - 1);
      assert LeftAtCutoff(h, k - 1) > WINDOW_DAYS * DAY;
      assert h.Sent(k - 1, kind).None?;
      StepRow(h, k - 1, kind);
    }
  }

  /** A key unmarked at check i with more than seven days left, and inside the window by check j, is warned by
      the first check that finds it inside: more than seven days less one gap ahead.  The mail says seven days
      only when the check lands on the exact instant, and six otherwise. */
  lemma SevenDayWarningInTime(h: History, i: nat, j: nat, gap: int) returns (m: nat)
    requires Regular(h, i, j, gap) && gap <= DAY
    requires !h.At(i).notified7
    requires LeftAtCutoff(h, i) > WINDOW_DAYS * DAY && LeftAtCutoff(h, j) <= WINDOW_DAYS * DAY
    ensures i < m <= j && h.Sent(m, SevenDay).Some?
    ensures WINDOW_DAYS * DAY - gap < LeftAtCutoff(h, m) <= WINDOW_DAYS * DAY
    ensures forall k :: i <= k < m ==> h.Sent(k, SevenDay).None?
    ensures h.Sent(m, SevenDay).value.daysLeft == 7 <==> Left(h, m) == WINDOW_DAYS * DAY
    ensures h.checks[m].now == h.checks[m].cutoffClock ==> h.Sent(m, SevenDay).value.daysLeft >= 6
  {
    m := FirstInWindow(h, i, j, gap);
    forall k | i <= k < m ensures LeftAtCutoff(h, k) > WINDOW_DAYS * DAY && h.Sent(k, SevenDay).None? {
      EarlierHasMoreLeft(h, i, k, m - 1, j, gap);
      RowKeepsKey(h, k);
    }
    UntouchedOutsideWindow(h, i, m, j, gap, SevenDay);
    RowKeepsKey(h, m);
    NotRevokedAt(h, m);
    assert Steady(h, m);
    DaysBelow(Left(h, m), 7);
    DaysBelow(Left(h, m), 6);
  }

  /** An unmarked key first seen with less than two days left gets both warnings from the same check. */
  lemma BothInOneRun(check: Check, key: ApiKey)
    requires Runs(check) && Selected(check, key) && check.queryClock <= check.now
    requires !key.notified7 && !key.notified1 && key.expiresAt.value - check.now < 2 * DAY
    requires check.delivers(key.id, SevenDay) && check.delivers(key.id, OneDay)
    ensures var days := WholeDays(key.expiresAt.value - check.now);
            RowMails(check, key) == [Mail(key.id, SevenDay, days), Mail(key.id, OneDay, days)]
  {
    if key.expiresAt.value - check.now >= 0 { DaysBelow(key.expiresAt.value - check.now, 1); }
  }

  // ----- the worker -----

  /** The history of one row of a table. */
  ghost function HistoryOf(table: map<KeyId, ApiKey>, checks: seq<Check>, revoked: (KeyId, nat) -> bool, id: KeyId)
    : History
    requires id in table
  {
    History(table[id], checks, (n: nat) => revoked(id, n))
  }

  /** The mails of the first n checks for the key, in order. */
  ghost function MailsBy(h: History, n: nat): seq<Mail>
    requires n <= |h.checks|
  {
    if n == 0 then [] else MailsBy(h, n - 1) + RowMails(h.checks[n - 1], h.At(n - 1))
  }

  function CountKind(mails: seq<Mail>, kind: Kind): nat {
    if mails == [] then 0
    else CountKind(mails[..|mails| - 1], kind) + if mails[|mails| - 1].kind == kind then 1 else 0
  }

  lemma {:induction false} CountKindAppend(a: seq<Mail>, b: seq<Mail>, kind: Kind)
    ensures CountKind(a + b, kind) == CountKind(a, kind) + CountKind(b, kind)
    decreases |b|
  {
    if b == [] {
      assert a + b == a;
    } else {
      assert (a + b)[..|a + b| - 1] == a + b[..|b| - 1];
      CountKindAppend(a, b[..|b| - 1], kind);
    }
  }

  lemma CountRowMails(h: History, i: nat, kind: Kind)
    requires i < |h.checks|
    ensures CountKind(RowMails(h.checks[i], h.At(i)), kind) == if h.Sent(i, kind).Some? then 1 else 0
    ensures h.Sent(i, kind).Some? ==> h.Sent(i, kind).value in RowMails(h.checks[i], h.At(i))
  {
    var check, key := h.checks[i], h.At(i);
    CountKindAppend(AsSeq(MailOf(check, key, SevenDay)), AsSeq(MailOf(check, key, OneDay)), kind);
    CountOne(MailOf(check, key, SevenDay), kind);
    CountOne(MailOf(check, key, OneDay), kind);
  }

  lemma CountOne(mail: Option<Mail>, kind: Kind)
    ensures CountKind(AsSeq(mail), kind) == if mail.Some? && mail.value.kind == kind then 1 else 0
  {
    assert mail.Some? ==> AsSeq(mail)[..0] == [];
  }

  lemma {:induction false} MailsByCount(h: History, n: nat, kind: Kind)
    requires n <= |h.checks|
    ensures CountKind(MailsBy(h, n), kind) == h.SentBy(n, kind)
  {
    hide RowMails, RowAfter, MailOf, Selected;
    if n > 0 {
      MailsByCount(h, n - 1, kind);
      CountRowMails(h, n - 1, kind);
      CountKindAppend(MailsBy(h, n - 1), RowMails(h.checks[n - 1], h.At(n - 1)), kind);
    }
  }

  lemma {:induction false} MailsByHolds(h: History, n: nat, m: nat, kind: Kind)
    requires m < n <= |h.checks| && h.Sent(m, kind).Some?
    ensures h.Sent(m, kind).value in MailsBy(h, n)
    decreases n
  {
    hide RowMails, RowAfter, MailOf, Selected;
    CountRowMails(h, m, kind);
    if m < n - 1 { MailsByHolds(h, n - 1, m, kind); }
  }

  /** Rows and mails are where their histories put them after n checks. */
  ghost predicate Followed(table: map<KeyId, ApiKey>, checks: seq<Check>, revoked: (KeyId, nat) -> bool,
                           keys: map<KeyId, ApiKey>, mails: seq<Mail>, n: nat)
    requires n <= |checks|
  {
    && keys.Keys == table.Keys
    && (forall id :: id in table ==> keys[id] == HistoryOf(table, checks, revoked, id).At(n))
    && (forall id :: MailsFor(mails, id)
                     == if id in table then MailsBy(HistoryOf(table, checks, revoked, id), n) else [])
  }

  /** The rows as the next check finds them: keys are revoked from outside. */
  function WithRevoked(keys: map<KeyId, ApiKey>, revoked: (KeyId, nat) -> bool, n: nat): map<KeyId, ApiKey> {
    map id | id in keys :: keys[id].(revoked := revoked(id, n))
  }

  lemma FollowedStart(table: map<KeyId, ApiKey>, checks: seq<Check>, revoked: (KeyId, nat) -> bool)
    ensures Followed(table, checks, revoked, WithRevoked(table, revoked, 0), [], 0)
  {
  }

  lemma FollowedStep(table: map<KeyId, ApiKey>, checks: seq<Check>, revoked: (KeyId, nat) -> bool,
                     keys: map<KeyId, ApiKey>, mails: seq<Mail>, n: nat, keys': map<KeyId, ApiKey>, sent: seq<Mail>)
    requires n < |checks| && Followed(table, checks, revoked, keys, mails, n)
    requires keys'.Keys == keys.Keys && forall id :: id in keys ==> keys'[id] == RowAfter(checks[n], keys[id])
    requires forall id :: MailsFor(sent, id) == if id in keys then RowMails(checks[n], keys[id]) else []
    ensures Followed(table, checks, revoked, WithRevoked(keys', revoked, n + 1), mails + sent, n + 1)
  {
    hide RowAfter, RowMails, MailsFor;
    forall id ensures MailsFor(mails + sent, id) == MailsFor(mails, id) + MailsFor(sent, id) {
      MailsForAppend(mails, sent, id);
    }
  }

  /** The worker: one check after the other, while keys are revoked from outside.  Every row and its mails follow
      its history, and the counters add up to the mails sent. */
  method Worker(service: ApiKeyNotificationService, checks: seq<Check>, revoked: (KeyId, nat) -> bool)
    returns (sent: nat)
    requires service.repo.Valid()
    modifies service.repo, service`outbox
    ensures service.repo.Valid() && |old(service.outbox)| <= |service.outbox|
    ensures service.outbox[..|old(service.outbox)|] == old(service.outbox)
    ensures sent == |service.outbox| - |old(service.outbox)|
    ensures Followed(old(service.repo.keys), checks, revoked, service.repo.keys,
                     service.outbox[|old(service.outbox)|..], |checks|)
  {
    hide Followed, RowAfter, RowMails, MailsFor;
    ghost var table := service.repo.keys;
    ghost var mails: seq<Mail> := [];
    sent := 0;
    FollowedStart(table, checks, revoked);
    service.repo.keys := WithRevoked(service.repo.keys, revoked, 0);
    for n := 0 to |checks|
      invariant service.repo.Valid() && Followed(table, checks, revoked, service.repo.keys, mails, n)
      invariant service.outbox == old(service.outbox) + mails && sent == |mails|
    {
      ghost var keys, outbox := service.repo.keys, service.outbox;
      var count := service.RunCheck(checks[n]);
      ghost var chunk := service.outbox[|outbox|..];
      FollowedStep(table, checks, revoked, keys, mails, n, service.repo.keys, chunk);
      service.repo.keys := WithRevoked(service.repo.keys, revoked, n + 1);
      assert service.outbox == outbox + chunk;
      mails := mails + chunk;
      sent := sent + count;
    }
    assert service.outbox[|old(service.outbox)|..] == mails;
  }

  /** Check i finds the key too early for a warning of this kind, and check j finds it due. */
  ghost predicate DueBetween(h: History, i: nat, j: nat, gap: int, kind: Kind) {
    && Regular(h, i, j, gap) && !h.At(i).Notified(kind)
    && match kind
       case OneDay => gap < 2 * DAY && Left(h, i) >= 2 * DAY && Left(h, j) < 2 * DAY
       case SevenDay =>
         gap <= DAY && LeftAtCutoff(h, i) > WINDOW_DAYS * DAY && LeftAtCutoff(h, j) <= WINDOW_DAYS * DAY
  }

  /** A mail of this kind is there, and with checks at most a day apart a 1-day mail says one day. */
  ghost predicate Warned(mails: seq<Mail>, kind: Kind, gap: int) {
    exists mail :: mail in mails && mail.kind == kind && (kind.OneDay? && gap <= DAY ==> mail.daysLeft == 1)
  }

  lemma DueIsWarned(h: History, i: nat, j: nat, gap: int, kind: Kind)
    requires DueBetween(h, i, j, gap, kind)
    ensures Warned(MailsBy(h, |h.checks|), kind, gap)
  {
    hide RowMails, RowAfter, Selected, MailsBy;
    var m: nat;
    if kind.OneDay? { m := OneDayWarningInTime(h, i, j, gap); } else { m := SevenDayWarningInTime(h, i, j, gap); }
    MailsByHolds(h, |h.checks|, m, kind);
  }

  /** What lands in the outbox when the worker runs over any table: for each key at most one mail of a kind plus one
      for each failed mark, the warning of every key that regular checks see before and after it falls due, and nothing
      for a key that is revoked or otherwise outside the window at every check. */
  method Outbox(table: map<KeyId, ApiKey>, checks: seq<Check>, revoked: (KeyId, nat) -> bool)
    returns (outbox: seq<Mail>)
    requires forall id :: id in table ==> table[id].id == id
    ensures forall id, kind :: id in table ==>
              CountKind(MailsFor(outbox, id), kind)
              <= 1 + HistoryOf(table, checks, revoked, id).FailedMarksBy(|checks|, kind)
    ensures forall id, i: nat, j: nat, gap: int, kind ::
              id in table && DueBetween(HistoryOf(table, checks, revoked, id), i, j, gap, kind)
              ==> Warned(MailsFor(outbox, id), kind, gap)
    ensures forall id ::
              (id in table ==>
                 forall i :: 0 <= i < |checks| ==> !InWindow(checks[i], revoked(id, i), table[id].expiresAt))
              ==> MailsFor(outbox, id) == []
  {
    var repo := new ApiKeyRepository(table);
    var service := new ApiKeyNotificationService(repo);
    var sent := Worker(service, checks, revoked);
    outbox := service.outbox;
    assert outbox[0..] == outbox;
    hide MailsFor, DueBetween, Warned;
    forall id, kind | id in table
      ensures CountKind(MailsFor(outbox, id), kind)
              <= 1 + HistoryOf(table, checks, revoked, id).FailedMarksBy(|checks|, kind)
    {
      var h := HistoryOf(table, checks, revoked, id);
      MailsByCount(h, |checks|, kind);
      AtMostOnce(h, |checks|, kind);
    }
    forall id, i: nat, j: nat, gap: int, kind |
      id in table && DueBetween(HistoryOf(table, checks, revoked, id), i, j, gap, kind)
      ensures Warned(MailsFor(outbox, id), kind, gap)
    {
      DueIsWarned(HistoryOf(table, checks, revoked, id), i, j, gap, kind);
    }
    forall id |
      id in table ==> forall i :: 0 <= i < |checks| ==> !InWindow(checks[i], revoked(id, i), table[id].expiresAt)
      ensures MailsFor(outbox, id) == []
    {
      if id in table { NothingOutsideWindow(HistoryOf(table, checks, revoked, id), |checks|); }
    }
  }
}
