/** When the three resolvers agree, what a history of updates and resets leaves behind, and that the
    overview loses no setting. */
module SettingsRuns {
  import opened Wrappers
  import opened SettingsRegistry
  import opened Settings

  // ----- agreement of the resolvers -----

  /** A row stored under the key carries the definition's own category. */
  ghost predicate RowFits(table: Table, def: Definition) {
    def.key in table ==> table[def.key].category == def.category
  }

  ghost predicate CategoriesFit(registry: seq<Definition>, table: Table) {
    forall def :: def in registry ==> RowFits(table, def)
  }

  /** One setting resolves alike by category and by key exactly when its row, if any, fits. */
  lemma SettingAgreesIff(env: map<string, string>, def: Definition, table: Table)
    ensures Resolve(env, def, RowIn(table, def.key, def.category)) == Resolve(env, def, RowOf(table, def.key))
            <==> RowFits(table, def)
  {
  }

  /** The value alone also agrees when the environment decides or the row repeats the default. */
  lemma ValueAgreesIff(env: map<string, string>, def: Definition, table: Table)
    ensures Resolve(env, def, RowIn(table, def.key, def.category)).value
            == Resolve(env, def, RowOf(table, def.key)).value
            <==> RowFits(table, def) || Getenv(env, def.envVar) != "" || table[def.key].value == def.defaultValue
  {
  }

  lemma {:induction false} PageAgreesIff(env: map<string, string>, registry: seq<Definition>, table: Table,
                                         slug: string)
    ensures PageSettings(env, registry, table, slug) == OverviewSettings(env, registry, table, slug)
            <==> forall def :: def in registry && def.category == slug ==> RowFits(table, def)
  {
    if registry != [] {
      PageAgreesIff(env, registry[1..], table, slug);
      SettingAgreesIff(env, registry[0], table);
      var page := PageSettings(env, registry[1..], table, slug);
      var overview := OverviewSettings(env, registry[1..], table, slug);
      assert registry == [registry[0]] + registry[1..];
      if registry[0].category == slug {
        var p := Resolve(env, registry[0], RowIn(table, registry[0].key, slug));
        var o := Resolve(env, registry[0], RowOf(table, registry[0].key));
        assert ([p] + page)[1..] == page && ([o] + overview)[1..] == overview;
        assert ([p] + page)[0] == p && ([o] + overview)[0] == o;
      }
    }
  }

  ghost predicate PageAgrees(env: map<string, string>, registry: seq<Definition>, table: Table, slug: string) {
    PageSettings(env, registry, table, slug) == OverviewSettings(env, registry, table, slug)
  }

  /** Every category page shows what the overview shows exactly when every stored row fits. */
  lemma PagesAgreeIffCategoriesFit(env: map<string, string>, registry: seq<Definition>, table: Table)
    ensures (forall slug :: PageAgrees(env, registry, table, slug)) <==> CategoriesFit(registry, table)
  {
    forall slug
      ensures PageAgrees(env, registry, table, slug)
              <==> forall def :: def in registry && def.category == slug ==> RowFits(table, def)
    {
      PageAgreesIff(env, registry, table, slug);
    }
    hide PageAgrees;
    if forall slug :: PageAgrees(env, registry, table, slug) {
      forall def | def in registry ensures RowFits(table, def) {
        assert PageAgrees(env, registry, table, def.category);
      }
    }
  }

  lemma {:induction false} FindsItself(registry: seq<Definition>, i: nat)
    requires i < |registry|
    requires forall j, k :: 0 <= j < k < |registry| ==> registry[j].key != registry[k].key
    ensures Find(registry, registry[i].key) == Some(registry[i])
  {
    if i > 0 {
      FindsItself(registry[1..], i - 1);
      assert registry[0].key != registry[i].key;
    }
  }

  // ----- histories of updates and resets -----

  datatype Op = Update(key: string, value: string) | Reset(key: string)

  /** The table after one request; a refused request changes nothing. */
  function Apply(parsers: Parsers, registry: seq<Definition>, table: Table, op: Op): Table {
    match op
    case Update(key, value) => Updated(parsers, registry, table, key, value).GetOr(table)
    case Reset(key) => ResetTo(registry, table, key).GetOr(table)
  }

  function ApplyAll(parsers: Parsers, registry: seq<Definition>, ops: seq<Op>): Table {
    if ops == [] then map[]
    else Apply(parsers, registry, ApplyAll(parsers, registry, ops[..|ops| - 1]), ops[|ops| - 1])
  }

  /** The value of the last accepted update of the setting since its last reset. */
  ghost function LastAccepted(parsers: Parsers, def: Definition, ops: seq<Op>): Option<string> {
    if ops == [] then None
    else
      var earlier := LastAccepted(parsers, def, ops[..|ops| - 1]);
      match ops[|ops| - 1]
      case Update(key, value) => if key == def.key && Acceptable(parsers, def.typ, value) then Some(value) else earlier
      case Reset(key) => if key == def.key then None else earlier
  }

  ghost predicate DistinctKeys(registry: seq<Definition>) {
    forall i, j :: 0 <= i < j < |registry| ==> registry[i].key != registry[j].key
  }

  /** After any history the table holds, for each setting, exactly the last accepted value since its last
      reset, under the definition's category, and that value is valid for the declared type. */
  lemma {:induction false} TableIsHistory(parsers: Parsers, registry: seq<Definition>, ops: seq<Op>, i: nat)
    requires DistinctKeys(registry) && i < |registry|
    ensures var def := registry[i];
            var table := ApplyAll(parsers, registry, ops);
            var last := LastAccepted(parsers, def, ops);
            && RowOf(table, def.key) == (if last.Some? then Some(Row(def.key, last.value, def.category)) else None)
            && (last.Some? ==> Acceptable(parsers, def.typ, last.value))
  {
    hide Acceptable, ValidValue;
    if ops != [] {
      TableIsHistory(parsers, registry, ops[..|ops| - 1], i);
      var op := ops[|ops| - 1];
      FindsItself(registry, i);
      if op.key == registry[i].key {
        assert Find(registry, op.key) == Some(registry[i]);
        if op.Update? { ValidIffAcceptable(parsers, registry[i].typ, op.value); }
      }
    }
  }

  /** No row is ever stored for a key outside the registry. */
  lemma {:induction false} OnlyKnownKeys(parsers: Parsers, registry: seq<Definition>, ops: seq<Op>, key: string)
    requires key in ApplyAll(parsers, registry, ops)
    ensures Find(registry, key).Some?
  {
    var before := ApplyAll(parsers, registry, ops[..|ops| - 1]);
    if key in before { OnlyKnownKeys(parsers, registry, ops[..|ops| - 1], key); }
  }

  /** In every reachable table all stored rows fit, so the three resolvers agree. */
  lemma ReachableTablesFit(parsers: Parsers, registry: seq<Definition>, ops: seq<Op>)
    requires DistinctKeys(registry)
    ensures CategoriesFit(registry, ApplyAll(parsers, registry, ops))
  {
    forall def | def in registry ensures RowFits(ApplyAll(parsers, registry, ops), def) {
      var i :| 0 <= i < |registry| && registry[i] == def;
      TableIsHistory(parsers, registry, ops, i);
    }
  }

  /** The environment value if there is one, else the last accepted update since the last reset, else the default. */
  ghost function Effective(env: map<string, string>, parsers: Parsers, def: Definition, ops: seq<Op>): string {
    if def.envVar in env && env[def.envVar] != "" then env[def.envVar]
    else LastAccepted(parsers, def, ops).GetOr(def.defaultValue)
  }

  /** After any history, the program, the category page and the overview all show the environment value if
      there is one, else the last accepted update since the last reset, else the default. */
  lemma ResolversAgreeOnEveryHistory(env: map<string, string>, parsers: Parsers, registry: seq<Definition>,
                                     ops: seq<Op>, i: nat)
    requires DistinctKeys(registry) && i < |registry|
    ensures var def := registry[i];
            var table := ApplyAll(parsers, registry, ops);
            && ServedValue(env, registry, table, def.key) == Effective(env, parsers, def, ops)
            && Resolve(env, def, RowOf(table, def.key)).value == Effective(env, parsers, def, ops)
            && forall slug :: PageAgrees(env, registry, table, slug)
  {
    FindsItself(registry, i);
    TableIsHistory(parsers, registry, ops, i);
    ReachableTablesFit(parsers, registry, ops);
    PagesAgreeIffCategoriesFit(env, registry, ApplyAll(parsers, registry, ops));
  }

  /** The deployed registry meets the condition. */
  lemma DeployedResolversAgree(env: map<string, string>, parsers: Parsers, ops: seq<Op>, i: nat)
    requires i < |REGISTRY|
    ensures var def := REGISTRY[i];
            var table := ApplyAll(parsers, REGISTRY, ops);
            && ServedValue(env, REGISTRY, table, def.key) == Effective(env, parsers, def, ops)
            && Resolve(env, def, RowOf(table, def.key)).value == Effective(env, parsers, def, ops)
            && forall slug :: PageAgrees(env, REGISTRY, table, slug)
  {
    hide ApplyAll, ServedValue, Effective, Find, Resolve, PageAgrees;
    DeployedRegistryIsWellFormed();
    ResolversAgreeOnEveryHistory(env, parsers, REGISTRY, ops, i);
  }

  // ----- a row whose category is out of date -----

  /** Updating never repairs a row stored under another category (say, by a release that grouped the setting
      differently): the overview shows the new value, the program keeps the default.  Resetting first does. */
  lemma UpdateKeepsStaleCategory(env: map<string, string>, parsers: Parsers, registry: seq<Definition>,
                                 table: Table, i: nat, value: string)
    requires DistinctKeys(registry) && i < |registry| && !RowFits(table, registry[i])
    requires Acceptable(parsers, registry[i].typ, value) && Getenv(env, registry[i].envVar) == ""
    ensures var def := registry[i];
            var updated := Apply(parsers, registry, table, Update(def.key, value));
            && !RowFits(updated, def)
            && Resolve(env, def, RowOf(updated, def.key)).value == value
            && ServedValue(env, registry, updated, def.key) == def.defaultValue
    ensures var def := registry[i];
            var repaired := Apply(parsers, registry, Apply(parsers, registry, table, Reset(def.key)),
                                  Update(def.key, value));
            RowFits(repaired, def) && ServedValue(env, registry, repaired, def.key) == value
  {
    FindsItself(registry, i);
    ValidIffAcceptable(parsers, registry[i].typ, value);
    hide Acceptable, ValidValue;
  }

  // ----- the overview loses nothing -----

  function ResolveEach(env: map<string, string>, registry: seq<Definition>, table: Table): (r: seq<Resolved>)
    ensures |r| == |registry|
    ensures forall i :: 0 <= i < |r| ==> r[i] == Resolve(env, registry[i], RowOf(table, registry[i].key))
  {
    if registry == [] then []
    else [Resolve(env, registry[0], RowOf(table, registry[0].key))] + ResolveEach(env, registry[1..], table)
  }

  function Flatten(views: seq<CategoryView>): seq<Resolved> {
    if views == [] then [] else views[0].settings + Flatten(views[1..])
  }

  function Slugs(categories: seq<Category>): set<string> {
    set i | 0 <= i < |categories| :: categories[i].slug
  }

  /** The settings, in registry order, whose category is among `slugs`. */
  ghost function Among(env: map<string, string>, registry: seq<Definition>, table: Table, slugs: set<string>)
    : seq<Resolved>
  {
    if registry == [] then []
    else
      var rest := Among(env, registry[1..], table, slugs);
      if registry[0].category in slugs then [Resolve(env, registry[0], RowOf(table, registry[0].key))] + rest else rest
  }

  lemma {:induction false} AmongSplits(env: map<string, string>, registry: seq<Definition>, table: Table,
                                       slug: string, slugs: set<string>)
    requires slug !in slugs
    ensures multiset(Among(env, registry, table, {slug} + slugs))
            == multiset(OverviewSettings(env, registry, table, slug)) + multiset(Among(env, registry, table, slugs))
    decreases |registry|
  {
    if registry != [] {
      AmongSplits(env, registry[1..], table, slug, slugs);
      AmongStep(env, registry, table, {slug} + slugs);
      AmongStep(env, registry, table, slugs);
      OverviewStep(env, registry, table, slug);
      hide Among, OverviewSettings, Resolve;
    }
  }

  lemma AmongStep(env: map<string, string>, registry: seq<Definition>, table: Table, slugs: set<string>)
    requires registry != []
    ensures var rest := multiset(Among(env, registry[1..], table, slugs));
            multiset(Among(env, registry, table, slugs))
            == if registry[0].category in slugs
               then multiset{Resolve(env, registry[0], RowOf(table, registry[0].key))} + rest
               else rest
  {
    ConsMultiset(Resolve(env, registry[0], RowOf(table, registry[0].key)), Among(env, registry[1..], table, slugs));
  }

  lemma OverviewStep(env: map<string, string>, registry: seq<Definition>, table: Table, slug: string)
    requires registry != []
    ensures var rest := multiset(OverviewSettings(env, registry[1..], table, slug));
            multiset(OverviewSettings(env, registry, table, slug))
            == if registry[0].category == slug
               then multiset{Resolve(env, registry[0], RowOf(table, registry[0].key))} + rest
               else rest
  {
    ConsMultiset(Resolve(env, registry[0], RowOf(table, registry[0].key)),
                 OverviewSettings(env, registry[1..], table, slug));
  }

  lemma ConsMultiset(x: Resolved, rest: seq<Resolved>)
    ensures multiset([x] + rest) == multiset{x} + multiset(rest)
  {
  }

  lemma {:induction false} AmongAll(env: map<string, string>, registry: seq<Definition>, table: Table,
                                    slugs: set<string>)
    requires forall i :: 0 <= i < |registry| ==> registry[i].category in slugs
    ensures Among(env, registry, table, slugs) == ResolveEach(env, registry, table)
  {
    if registry != [] { AmongAll(env, registry[1..], table, slugs); }
  }

  lemma {:induction false} FlattenOverview(env: map<string, string>, registry: seq<Definition>,
                                           categories: seq<Category>, table: Table)
    requires forall i, j :: 0 <= i < j < |categories| ==> categories[i].slug != categories[j].slug
    ensures multiset(Flatten(Overview(env, registry, categories, table)))
            == multiset(Among(env, registry, table, Slugs(categories)))
  {
    if categories == [] {
      AmongNone(env, registry, table);
    } else {
      var rest := categories[1..];
      FlattenOverview(env, registry, rest, table);
      SlugsSplit(categories);
      AmongSplits(env, registry, table, categories[0].slug, Slugs(rest));
      var settings := OverviewSettings(env, registry, table, categories[0].slug);
      var tail := Overview(env, registry, rest, table);
      FlattenCons(CategoryView(categories[0], settings), tail);
      hide Among, OverviewSettings, Slugs, Flatten, Resolve;
      assert [] + tail == tail;
    }
  }

  lemma FlattenCons(view: CategoryView, tail: seq<CategoryView>)
    ensures Flatten([view] + tail) == view.settings + Flatten(tail)
  {
    assert ([view] + tail)[1..] == tail;
  }

  lemma SlugsSplit(categories: seq<Category>)
    requires categories != []
    requires forall i, j :: 0 <= i < j < |categories| ==> categories[i].slug != categories[j].slug
    ensures Slugs(categories) == {categories[0].slug} + Slugs(categories[1..])
    ensures categories[0].slug !in Slugs(categories[1..])
  {
    var rest := categories[1..];
    forall s | s in Slugs(categories) ensures s in {categories[0].slug} + Slugs(rest) {
      var i :| 0 <= i < |categories| && categories[i].slug == s;
      if i > 0 { assert rest[i - 1].slug == s; }
    }
    forall s | s in Slugs(rest) ensures s in Slugs(categories) {
      var i :| 0 <= i < |rest| && rest[i].slug == s;
      assert categories[i + 1].slug == s;
    }
  }

  lemma {:induction false} AmongNone(env: map<string, string>, registry: seq<Definition>, table: Table)
    ensures Among(env, registry, table, Slugs([])) == []
  {
    if registry != [] { AmongNone(env, registry[1..], table); }
  }

  /** The overview holds every setting of the registry exactly once, whatever the table. */
  lemma OverviewIsPermutation(env: map<string, string>, registry: seq<Definition>, categories: seq<Category>,
                              table: Table)
    requires WellFormed(registry, categories)
    ensures multiset(Flatten(Overview(env, registry, categories, table))) == multiset(ResolveEach(env, registry, table))
  {
    FlattenOverview(env, registry, categories, table);
    forall i | 0 <= i < |registry| ensures registry[i].category in Slugs(categories) {
      assert Listed(registry[i].category, categories);
    }
    AmongAll(env, registry, table, Slugs(categories));
  }

  /** Each section of the overview is its category page, in every reachable state. */
  lemma {:induction false} SectionsArePages(env: map<string, string>, registry: seq<Definition>,
                                            categories: seq<Category>,
                                            table: Table, k: nat)
    requires CategoriesFit(registry, table) && k < |Overview(env, registry, categories, table)|
    ensures var view := Overview(env, registry, categories, table)[k];
            && view.meta in categories && view.settings != []
            && view.settings == PageSettings(env, registry, table, view.meta.slug)
  {
    var settings := OverviewSettings(env, registry, table, categories[0].slug);
    FirstSection(env, registry, categories, table);
    hide Overview, OverviewSettings, PageSettings, CategoriesFit, Resolve;
    if settings == [] {
      SectionsArePages(env, registry, categories[1..], table, k);
    } else if k == 0 {
      PagesAgreeIffCategoriesFit(env, registry, table);
      assert PageAgrees(env, registry, table, categories[0].slug);
    } else {
      SectionsArePages(env, registry, categories[1..], table, k - 1);
      assert forall c :: c in categories[1..] ==> c in categories;
    }
  }

  lemma FirstSection(env: map<string, string>, registry: seq<Definition>, categories: seq<Category>, table: Table)
    requires Overview(env, registry, categories, table) != []
    ensures categories != []
    ensures var settings := OverviewSettings(env, registry, table, categories[0].slug);
            var rest := Overview(env, registry, categories[1..], table);
            Overview(env, registry, categories, table)
            == if settings == [] then rest else [CategoryView(categories[0], settings)] + rest
  {
    hide OverviewSettings;
  }
}
