/** The session list of the admin pages: collect, filter, sort by last activity, paginate. */
module SessionList {
  import opened Wrappers
  import opened Pagination

  const PAGE_SIZE: nat := 20

  /** A session as Redis returns it. */
  datatype Raw = Raw(sessionId: string, userId: string, ip: string, userAgent: string, createdAt: string,
                     lastActive: string)

  datatype Item = Item(raw: Raw, email: string, appId: string)

  /** strings.ToLower, and time.Parse(RFC3339) as an instant relative to Go's zero time. */
  datatype Lib = Lib(lower: string -> string, parse: string -> Option<int>)

  const ZERO_TIME: int := 0

  /** A timestamp that does not parse counts as the zero time. */
  function Activity(lib: Lib, item: Item): int {
    lib.parse(item.raw.lastActive).GetOr(ZERO_TIME)
  }

  // ----- sorting -----

  /** In order of last activity, latest first; a time that does not parse is Go's zero time, instant 0. */
  ghost predicate MostRecentFirst(lib: Lib, s: seq<Item>) {
    forall i, j :: 0 <= i < j < |s| ==> NotBefore(lib.parse(s[i].raw.lastActive), lib.parse(s[j].raw.lastActive))
  }

  ghost predicate NotBefore(a: Option<int>, b: Option<int>) {
    match (a, b)
    case (Some(x), Some(y)) => x >= y
    case (Some(x), None) => x >= 0
    case (None, Some(y)) => 0 >= y
    case (None, None) => true
  }

  /** Positions below i hold the most recent items in order, and position i the most recent of i..j. */
  ghost predicate Settled(lib: Lib, s: seq<Item>, i: nat, j: nat) {
    && i <= |s| && j <= |s|
    && (forall x, y :: 0 <= x < i && x < y < |s| ==> Activity(lib, s[x]) >= Activity(lib, s[y]))
    && (forall y :: i < y < j && i < |s| ==> Activity(lib, s[i]) >= Activity(lib, s[y]))
  }

  function Exchanged(lib: Lib, s: seq<Item>, i: nat, j: nat): seq<Item>
    requires i < j < |s|
  {
    if Activity(lib, s[j]) > Activity(lib, s[i]) then s[i := s[j]][j := s[i]] else s
  }

  lemma ExchangeSettles(lib: Lib, s: seq<Item>, i: nat, j: nat)
    requires i < j < |s| && Settled(lib, s, i, j)
    ensures Settled(lib, Exchanged(lib, s, i, j), i, j + 1)
  {
    var t := Exchanged(lib, s, i, j);
    hide Activity;
    forall x, y | 0 <= x < i && x < y < |t| ensures Activity(lib, t[x]) >= Activity(lib, t[y]) {
      assert t[x] == s[x] && t[y] == s[if t == s then y else if y == i then j else if y == j then i else y];
    }
  }

  lemma ExchangePermutes(lib: Lib, s: seq<Item>, i: nat, j: nat)
    requires i < j < |s|
    ensures multiset(Exchanged(lib, s, i, j)) == multiset(s)
  {
  }

  lemma SettledRow(lib: Lib, s: seq<Item>, i: nat)
    requires i <= |s|
    ensures i < |s| ==> Settled(lib, s, i, |s|) == Settled(lib, s, i + 1, i + 1)
    ensures Settled(lib, s, 0, 0)
    ensures i < |s| && Settled(lib, s, i, i) ==> Settled(lib, s, i, i + 1)
    ensures i == |s| && Settled(lib, s, i, i) ==> MostRecentFirst(lib, s)
  {
  }

  method ExchangeIfLater(lib: Lib, a: array<Item>, i: nat, j: nat)
    requires i < j < a.Length
    modifies a
    ensures a[..] == Exchanged(lib, old(a[..]), i, j)
  {
    if Activity(lib, a[j]) > Activity(lib, a[i]) {
      a[i], a[j] := a[j], a[i];
    }
  }

  /** Row i of the sort: position i exchanged with each position before j in turn. */
  function RowSorted(lib: Lib, s: seq<Item>, i: nat, j: nat): (r: seq<Item>)
    requires i < j <= |s|
    ensures |r| == |s|
  {
    if j == i + 1 then s else Exchanged(lib, RowSorted(lib, s, i, j - 1), i, j - 1)
  }

  /** The list after its first n rows. */
  function RowsSorted(lib: Lib, s: seq<Item>, n: nat): (r: seq<Item>)
    requires n <= |s|
    ensures |r| == |s|
  {
    if n == 0 then s else RowSorted(lib, RowsSorted(lib, s, n - 1), n - 1, |s|)
  }

  function Sorted(lib: Lib, s: seq<Item>): seq<Item> {
    RowsSorted(lib, s, |s|)
  }

  lemma {:induction false} RowSettles(lib: Lib, s: seq<Item>, i: nat, j: nat)
    requires i < j <= |s| && Settled(lib, s, i, i + 1)
    ensures Settled(lib, RowSorted(lib, s, i, j), i, j)
    ensures multiset(RowSorted(lib, s, i, j)) == multiset(s)
  {
    hide Settled, Exchanged;
    if j > i + 1 {
      RowSettles(lib, s, i, j - 1);
      ExchangeSettles(lib, RowSorted(lib, s, i, j - 1), i, j - 1);
      ExchangePermutes(lib, RowSorted(lib, s, i, j - 1), i, j - 1);
    }
  }

  lemma {:induction false} RowsSettle(lib: Lib, s: seq<Item>, n: nat)
    requires n <= |s|
    ensures Settled(lib, RowsSorted(lib, s, n), n, n)
    ensures multiset(RowsSorted(lib, s, n)) == multiset(s)
  {
    hide Settled, RowSorted;
    if n == 0 {
      SettledRow(lib, s, 0);
    } else {
      RowsSettle(lib, s, n - 1);
      SettledRow(lib, RowsSorted(lib, s, n - 1), n - 1);
      RowSettles(lib, RowsSorted(lib, s, n - 1), n - 1, |s|);
      SettledRow(lib, RowsSorted(lib, s, n), n - 1);
    }
  }

  /** The exchange sort orders the list by activity, most recent first, and loses and adds nothing. */
  lemma SortedIsRecentFirst(lib: Lib, s: seq<Item>)
    ensures MostRecentFirst(lib, Sorted(lib, s)) && multiset(Sorted(lib, s)) == multiset(s)
  {
    RowsSettle(lib, s, |s|);
    SettledRow(lib, Sorted(lib, s), |s|);
  }

  lemma {:induction false} RowKeepsSorted(lib: Lib, s: seq<Item>, i: nat, j: nat)
    requires i < j <= |s| && MostRecentFirst(lib, s)
    ensures RowSorted(lib, s, i, j) == s
  {
    if j > i + 1 { RowKeepsSorted(lib, s, i, j - 1); }
  }

  lemma {:induction false} RowsKeepSorted(lib: Lib, s: seq<Item>, n: nat)
    requires n <= |s| && MostRecentFirst(lib, s)
    ensures RowsSorted(lib, s, n) == s
  {
    if n > 0 {
      RowsKeepSorted(lib, s, n - 1);
      RowKeepsSorted(lib, s, n - 1, |s|);
    }
  }

  /** A list in order already is left alone, items of equal time included; so sorting twice is sorting once. */
  lemma SortedKeepsSorted(lib: Lib, s: seq<Item>)
    ensures MostRecentFirst(lib, s) ==> Sorted(lib, s) == s
    ensures Sorted(lib, Sorted(lib, s)) == Sorted(lib, s)
  {
    if MostRecentFirst(lib, s) { RowsKeepSorted(lib, s, |s|); }
    SortedIsRecentFirst(lib, s);
    RowsKeepSorted(lib, Sorted(lib, s), |s|);
  }

  /** Exchange sort in place. */
  method SortSessionsByLastActive(lib: Lib, items: array<Item>)
    modifies items
    ensures items[..] == Sorted(lib, old(items[..]))
    ensures MostRecentFirst(lib, items[..])
    ensures multiset(items[..]) == multiset(old(items[..]))
  {
    hide Exchanged, MostRecentFirst;
    ghost var given := items[..];
    for i := 0 to items.Length
      invariant items[..] == RowsSorted(lib, given, i)
    {
      for j := i + 1 to items.Length
        invariant items[..] == RowSorted(lib, RowsSorted(lib, given, i), i, j)
      {
        ExchangeIfLater(lib, items, i, j);
      }
    }
    SortedIsRecentFirst(lib, given);
  }

  // ----- filtering -----

  /** strings.Contains. */
  predicate Contains(s: string, sub: string) {
    exists i :: 0 <= i <= |s| - |sub| && OccursAt(s, sub, i)
  }

  predicate OccursAt(s: string, sub: string, i: nat)
    requires i + |sub| <= |s|
  {
    s[i..i + |sub|] == sub
  }

  /** Both filters; an empty one lets everything through.  `search` and `ip` are already in lower case. */
  predicate Passes(lib: Lib, item: Item, search: string, ip: string) {
    && (search == "" || Contains(lib.lower(item.email), search))
    && (ip == "" || Contains(lib.lower(item.raw.ip), ip))
  }

  /** The text holds the search term somewhere. */
  ghost predicate Finds(text: string, term: string) {
    exists before, after :: text == before + term + after
  }

  lemma ContainsIff(s: string, sub: string)
    ensures Contains(s, sub) <==> Finds(s, sub)
  {
    if i :| 0 <= i <= |s| - |sub| && OccursAt(s, sub, i) {
      assert s == s[..i] + sub + s[i + |sub|..];
    }
    if before, after :| s == before + sub + after {
      assert OccursAt(s, sub, |before|);
    }
  }

  /** The user's address holds the one term and the IP address the other, whatever the case of either. */
  ghost predicate Matches(lib: Lib, item: Item, search: string, ip: string) {
    Finds(lib.lower(item.email), search) && Finds(lib.lower(item.raw.ip), ip)
  }

  lemma PassesIff(lib: Lib, item: Item, search: string, ip: string)
    ensures Passes(lib, item, search, ip) <==> Matches(lib, item, search, ip)
  {
    ContainsIff(lib.lower(item.email), search);
    ContainsIff(lib.lower(item.raw.ip), ip);
    assert lib.lower(item.email) == "" + "" + lib.lower(item.email);
    assert lib.lower(item.raw.ip) == "" + "" + lib.lower(item.raw.ip);
  }

  function ToItem(emails: map<string, string>, appId: string, raw: Raw): Item {
    Item(raw, if raw.userId in emails then emails[raw.userId] else "", appId)
  }

  function Collected(apps: seq<string>, fetched: map<string, seq<Raw>>, emails: map<string, string>): seq<Item> {
    if apps == [] then []
    else
      var app := apps[|apps| - 1];
      Collected(apps[..|apps| - 1], fetched, emails)
      + if app in fetched then Map((raw: Raw) => ToItem(emails, app, raw), fetched[app]) else []
  }

  /** The items of each app, or none if its sessions cannot be read. */
  function PartsOf(apps: seq<string>, fetched: map<string, seq<Raw>>, emails: map<string, string>): seq<seq<Item>> {
    seq(|apps|, i requires 0 <= i < |apps| =>
      if apps[i] in fetched then ItemsOf(emails, apps[i], fetched[apps[i]]) else [])
  }

  function ItemsOf(emails: map<string, string>, app: string, sessions: seq<Raw>): seq<Item> {
    seq(|sessions|, i requires 0 <= i < |sessions| =>
      Item(sessions[i], if sessions[i].userId in emails then emails[sessions[i].userId] else "", app))
  }

  lemma {:induction false} MapIsItemsOf(emails: map<string, string>, app: string, sessions: seq<Raw>)
    ensures Map((raw: Raw) => ToItem(emails, app, raw), sessions) == ItemsOf(emails, app, sessions)
  {
  }

  /** The collected sessions stand app after app, each with its user's address and its app. */
  lemma {:induction false} CollectedInOrder(apps: seq<string>, fetched: map<string, seq<Raw>>,
                                            emails: map<string, string>)
    ensures InOrder(PartsOf(apps, fetched, emails), Collected(apps, fetched, emails))
  {
    if apps != [] {
      var init, app := apps[..|apps| - 1], apps[|apps| - 1];
      CollectedInOrder(init, fetched, emails);
      var last := if app in fetched then ItemsOf(emails, app, fetched[app]) else [];
      if app in fetched { MapIsItemsOf(emails, app, fetched[app]); }
      assert Collected(apps, fetched, emails) == Collected(init, fetched, emails) + last;
      hide Map, ItemsOf, Collected, InOrder, ToItem;
      InOrderSnoc(PartsOf(init, fetched, emails), Collected(init, fetched, emails), last);
      assert PartsOf(apps, fetched, emails) == PartsOf(init, fetched, emails) + [last];
    }
  }

  function Filtered(lib: Lib, items: seq<Item>, search: string, ip: string): seq<Item> {
    if items == [] then []
    else
      Filtered(lib, items[..|items| - 1], search, ip)
      + if Passes(lib, items[|items| - 1], search, ip) then [items[|items| - 1]] else []
  }

  /** Filtering keeps each passing item as often as it was collected and drops every other. */
  lemma {:induction false} FilteredCounts(lib: Lib, items: seq<Item>, search: string, ip: string, x: Item)
    ensures multiset(Filtered(lib, items, search, ip))[x]
            == if Matches(lib, x, search, ip) then multiset(items)[x] else 0
  {
    PassesIff(lib, x, search, ip);
    if items != [] {
      var rest := items[..|items| - 1];
      FilteredCounts(lib, rest, search, ip, x);
      assert items == rest + [items[|items| - 1]];
    }
  }

  // ----- the list -----

  method ToItems(emails: map<string, string>, app: string, sessions: seq<Raw>) returns (items: seq<Item>)
    ensures items == Map((raw: Raw) => ToItem(emails, app, raw), sessions)
  {
    items := [];
    for i := 0 to |sessions|
      invariant items == Map((raw: Raw) => ToItem(emails, app, raw), sessions[..i])
    {
      assert sessions[..i + 1] == sessions[..i] + [sessions[i]];
      MapAppend((raw: Raw) => ToItem(emails, app, raw), sessions[..i], [sessions[i]]);
      items := items + [ToItem(emails, app, sessions[i])];
    }
    assert sessions[..|sessions|] == sessions;
  }

  /** Sessions of all listed apps, app after app; an app whose sessions cannot be read is skipped. */
  method Collect(apps: seq<string>, fetched: map<string, seq<Raw>>, emails: map<string, string>)
    returns (items: seq<Item>)
    ensures items == Collected(apps, fetched, emails)
  {
    items := [];
    for k := 0 to |apps|
      invariant items == Collected(apps[..k], fetched, emails)
    {
      var app := apps[k];
      assert apps[..k + 1][..k] == apps[..k];
      if app in fetched {
        var copied := ToItems(emails, app, fetched[app]);
        items := items + copied;
      }
    }
    assert apps[..|apps|] == apps;
  }

  method Filter(lib: Lib, all: seq<Item>, search: string, ip: string) returns (items: seq<Item>)
    ensures items == Filtered(lib, all, search, ip)
  {
    items := [];
    for i := 0 to |all|
      invariant items == Filtered(lib, all[..i], search, ip)
    {
      assert all[..i + 1][..i] == all[..i];
      if Passes(lib, all[i], search, ip) {
        items := items + [all[i]];
      }
    }
    assert all[..|all|] == all;
  }

  /** The whole list the pages are cut from. */
  function Listed(lib: Lib, apps: seq<string>, fetched: map<string, seq<Raw>>, emails: map<string, string>,
                  search: string, ip: string): seq<Item>
  {
    Sorted(lib, Filtered(lib, Collected(apps, fetched, emails), search, ip))
  }

  /** One page of the sorted matching sessions. */
  method List(lib: Lib, apps: seq<string>, fetched: map<string, seq<Raw>>, emails: map<string, string>,
              search: string, ip: string, page: int)
    returns (pageItems: seq<Item>, total: nat, totalPages: nat)
    ensures pageItems == Page(Listed(lib, apps, fetched, emails, search, ip), page, PAGE_SIZE)
    ensures total == |Listed(lib, apps, fetched, emails, search, ip)|
    ensures totalPages == TotalPages(total, PAGE_SIZE)
  {
    var n := if page < 1 then 1 else page;
    var all := Collect(apps, fetched, emails);
    var items := Filter(lib, all, search, ip);
    hide Filtered, Collected, MostRecentFirst, Sorted;
    var a := new Item[|items|](i requires 0 <= i < |items| => items[i]);
    assert a[..] == items;
    SortSessionsByLastActive(lib, a);
    total := a.Length;
    totalPages := TotalPages(total, PAGE_SIZE);
    var start := (n - 1) * PAGE_SIZE;
    var end := start + PAGE_SIZE;
    if start > total { start := total; }
    if end > total { end := total; }
    pageItems := a[start..end];
  }

  lemma ListedIsRecentFirst(lib: Lib, apps: seq<string>, fetched: map<string, seq<Raw>>, emails: map<string, string>,
                            search: string, ip: string)
    ensures MostRecentFirst(lib, Listed(lib, apps, fetched, emails, search, ip))
  {
    SortedIsRecentFirst(lib, Filtered(lib, Collected(apps, fetched, emails), search, ip));
  }

  /** The pages up to the page count hold together each collected session exactly as often as it was collected if it
      passes both filters, never otherwise; pages past the last are empty. */
  lemma PagesShowMatchesOnce(lib: Lib, apps: seq<string>, fetched: map<string, seq<Raw>>, emails: map<string, string>,
                             search: string, ip: string, x: Item)
    ensures var listed := Listed(lib, apps, fetched, emails, search, ip);
            var n := TotalPages(|listed|, PAGE_SIZE);
            && multiset(Pages(listed, n, PAGE_SIZE))[x]
               == (if Matches(lib, x, search, ip) then multiset(Collected(apps, fetched, emails))[x] else 0)
            && forall page :: page > n ==> Page(listed, page, PAGE_SIZE) == []
  {
    PagesCoverList(Listed(lib, apps, fetched, emails, search, ip), PAGE_SIZE);
    SortedIsRecentFirst(lib, Filtered(lib, Collected(apps, fetched, emails), search, ip));
    FilteredCounts(lib, Collected(apps, fetched, emails), search, ip, x);
  }

  /** Paging through: the pages that successive requests return, up to the page count they announce, hold together
      each collected session exactly as often as it was collected if it passes both filters, never otherwise, most
      recent first; the page after them is empty. */
  method Browse(lib: Lib, apps: seq<string>, fetched: map<string, seq<Raw>>, emails: map<string, string>,
                search: string, ip: string)
    returns (shown: seq<Item>, beyond: seq<Item>)
    ensures MostRecentFirst(lib, shown) && beyond == []
    ensures forall x :: multiset(shown)[x]
                        == if Matches(lib, x, search, ip) then multiset(Collected(apps, fetched, emails))[x] else 0
  {
    hide Listed, Page, TotalPages, MostRecentFirst, Matches, Collected;
    ghost var listed := Listed(lib, apps, fetched, emails, search, ip);
    var first, total, totalPages := List(lib, apps, fetched, emails, search, ip, 1);
    shown := [];
    for page := 1 to totalPages + 1
      invariant shown == Pages(listed, page - 1, PAGE_SIZE)
    {
      var items, again, count := List(lib, apps, fetched, emails, search, ip, page);
      shown := shown + items;
    }
    PagesCoverList(listed, PAGE_SIZE);
    ListedIsRecentFirst(lib, apps, fetched, emails, search, ip);
    var again, count;
    beyond, again, count := List(lib, apps, fetched, emails, search, ip, totalPages + 1);
    forall x ensures multiset(shown)[x]
                     == if Matches(lib, x, search, ip) then multiset(Collected(apps, fetched, emails))[x] else 0
    {
      PagesShowMatchesOnce(lib, apps, fetched, emails, search, ip, x);
    }
  }
}
