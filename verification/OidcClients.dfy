/** The OIDC client list: two branches that must show the same thing.  `C` is a stored client, `R` the row shown
    for it, and `toRow` the copying of its fields. */
module OidcClients {
  import opened Wrappers
  import opened Pagination

  const PAGE_SIZE: nat := 15

  /** The clients of every app whose listing succeeds, app after app. */
  function AllClients<C>(apps: seq<string>, listing: map<string, seq<C>>): seq<C> {
    if apps == [] then []
    else AllClients(apps[..|apps| - 1], listing) + if apps[|apps| - 1] in listing then listing[apps[|apps| - 1]] else []
  }

  /** The clients of each app, or none if its listing fails. */
  function PartsOf<C>(apps: seq<string>, listing: map<string, seq<C>>): seq<seq<C>> {
    seq(|apps|, i requires 0 <= i < |apps| => if apps[i] in listing then listing[apps[i]] else [])
  }

  lemma {:induction false} ClientsInOrder<C>(apps: seq<string>, listing: map<string, seq<C>>)
    ensures InOrder(PartsOf(apps, listing), AllClients(apps, listing))
  {
    if apps != [] {
      var init := apps[..|apps| - 1];
      ClientsInOrder(init, listing);
      var last := if apps[|apps| - 1] in listing then listing[apps[|apps| - 1]] else [];
      InOrderSnoc(PartsOf(init, listing), AllClients(init, listing), last);
      assert PartsOf(apps, listing) == PartsOf(init, listing) + [last];
    }
  }

  /** One app: slice the clients, then turn the slice into rows. */
  method ListForApp<C, R>(toRow: C -> R, clients: seq<C>, page: int) returns (items: seq<R>, total: nat)
    ensures total == |clients|
    ensures items == Page(Map(toRow, clients), page, PAGE_SIZE)
  {
    var n := if page < 1 then 1 else page;
    total := |clients|;
    var start := (n - 1) * PAGE_SIZE;
    var end := start + PAGE_SIZE;
    if start > total { start := total; }
    if end > total { end := total; }
    var slice := clients[start..end];
    items := [];
    for i := 0 to |slice|
      invariant items == Map(toRow, slice[..i])
    {
      assert slice[..i + 1] == slice[..i] + [slice[i]];
      items := items + [toRow(slice[i])];
    }
    assert slice[..|slice|] == slice == Page(clients, page, PAGE_SIZE);
    PageOfMap(toRow, clients, page, PAGE_SIZE);
  }

  /** All apps: turn everything into rows, then slice.  An app whose listing fails is skipped. */
  method ListForAllApps<C, R>(toRow: C -> R, apps: seq<string>, listing: map<string, seq<C>>, page: int)
    returns (items: seq<R>, total: nat)
    ensures total == |AllClients(apps, listing)|
    ensures items == Page(Map(toRow, AllClients(apps, listing)), page, PAGE_SIZE)
  {
    var n := if page < 1 then 1 else page;
    items := RowsOfApps(toRow, apps, listing);
    ghost var rows := items;
    total := |items|;
    var start := (n - 1) * PAGE_SIZE;
    var end := start + PAGE_SIZE;
    if start > total {
      items := [];
    } else {
      if end > total { end := total; }
      items := items[start..end];
    }
    assert items == Page(rows, page, PAGE_SIZE);
  }

  method RowsOfApps<C, R>(toRow: C -> R, apps: seq<string>, listing: map<string, seq<C>>) returns (items: seq<R>)
    ensures items == Map(toRow, AllClients(apps, listing))
  {
    items := [];
    for k := 0 to |apps|
      invariant items == Map(toRow, AllClients(apps[..k], listing))
    {
      assert apps[..k + 1][..k] == apps[..k];
      if apps[k] in listing {
        var clients := listing[apps[k]];
        ghost var before := AllClients(apps[..k], listing);
        for i := 0 to |clients|
          invariant items == Map(toRow, before) + Map(toRow, clients[..i])
        {
          assert clients[..i + 1] == clients[..i] + [clients[i]];
          items := items + [toRow(clients[i])];
        }
        assert clients[..|clients|] == clients;
        MapAppend(toRow, before, clients);
      }
    }
    assert apps[..|apps|] == apps;
  }

  /** At least one page is always announced. */
  function AnnouncedPages(total: nat): nat {
    if TotalPages(total, PAGE_SIZE) < 1 then 1 else TotalPages(total, PAGE_SIZE)
  }

  /** Filtering the list to one app shows the pages of the unfiltered list of that app alone. */
  lemma BranchesAgree<C, R>(toRow: C -> R, app: string, listing: map<string, seq<C>>, page: int)
    requires app in listing
    ensures Page(Map(toRow, AllClients([app], listing)), page, PAGE_SIZE)
            == Page(Map(toRow, listing[app]), page, PAGE_SIZE)
    ensures Page(Map(toRow, listing[app]), page, PAGE_SIZE) == Map(toRow, Page(listing[app], page, PAGE_SIZE))
  {
    assert [app][..0] == [] && AllClients([], listing) == [];
    assert AllClients([app], listing) == listing[app];
    PageOfMap(toRow, listing[app], page, PAGE_SIZE);
  }

  /** The pages announced, put end to end, are all the rows; there is at least one, none but the only page of an empty
      list is empty, and every later page is. */
  lemma AnnouncedPagesShowEverything<R>(rows: seq<R>)
    ensures Pages(rows, AnnouncedPages(|rows|), PAGE_SIZE) == rows
    ensures AnnouncedPages(|rows|) >= 1 && (rows == [] ==> AnnouncedPages(|rows|) == 1)
    ensures rows != [] ==> forall page :: 1 <= page <= AnnouncedPages(|rows|) ==> Page(rows, page, PAGE_SIZE) != []
    ensures forall page :: page > AnnouncedPages(|rows|) ==> Page(rows, page, PAGE_SIZE) == []
  {
    PagesCoverList(rows, PAGE_SIZE);
    PagesArePrefix(rows, AnnouncedPages(|rows|), PAGE_SIZE);
    CeilCovers(|rows|, PAGE_SIZE);
  }

  /** The handler: one app if the filter names one that lists its clients, all apps otherwise. */
  method OIDCClientList<C, R>(toRow: C -> R, apps: seq<string>, listing: map<string, seq<C>>, appFilter: string,
                              page: int)
    returns (shown: Option<seq<R>>, totalPages: nat)
    ensures shown.None? <==> appFilter != "" && appFilter !in listing
    ensures shown.Some? ==>
              var rows := Map(toRow, if appFilter != "" then listing[appFilter] else AllClients(apps, listing));
              shown.value == Page(rows, page, PAGE_SIZE) && totalPages == AnnouncedPages(|rows|)
  {
    var items, total;
    if appFilter != "" {
      if appFilter !in listing { return None, 0; }
      items, total := ListForApp(toRow, listing[appFilter], page);
    } else {
      items, total := ListForAllApps(toRow, apps, listing, page);
    }
    return Some(items), AnnouncedPages(total);
  }
}
