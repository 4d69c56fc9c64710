/** System settings: the stored overrides, the three ways the service resolves a setting, and the
    validation of updates.  The priority is environment, then database, then default. */
module Settings {
  import opened Wrappers
  import opened SettingsRegistry
  import Strconv

  /** A row of system_settings; `key` is the primary key. */
  datatype Row = Row(key: string, value: string, category: string)

  type Table = map<string, Row>

  datatype Source = FromEnv | FromDb | FromDefault

  datatype Resolved = Resolved(
    definition: Definition,
    value: string,
    rawValue: string,
    source: Source,
    dbValue: Option<string>)

  datatype CategoryView = CategoryView(meta: Category, settings: seq<Resolved>)

  /** What strconv.ParseFloat and time.ParseDuration accept. */
  datatype Parsers = Parsers(isFloat: string -> bool, isDuration: string -> bool)

  function Getenv(env: map<string, string>, name: string): string {
    if name in env then env[name] else ""
  }

  // ----- the pure parts of the service -----

  function Resolve(env: map<string, string>, def: Definition, row: Option<Row>): (r: Resolved)
    ensures r.value == if Getenv(env, def.envVar) != "" then Getenv(env, def.envVar)
                       else if row.Some? then row.value.value else def.defaultValue
  {
    var stored := if row.Some? then Some(row.value.value) else None;
    var envValue := Getenv(env, def.envVar);
    if envValue != "" then
      Resolved(def, envValue, if def.sensitive then "" else envValue, FromEnv, stored)
    else if row.Some? then
      Resolved(def, row.value.value, row.value.value, FromDb, stored)
    else
      Resolved(def, def.defaultValue, def.defaultValue, FromDefault, stored)
  }

  /** The page tells where the value comes from, shows the stored value if there is one, and shows the value in the
      field, except a sensitive one that the environment supplies. */
  lemma ResolvedShows(env: map<string, string>, def: Definition, row: Option<Row>)
    ensures var r := Resolve(env, def, row);
            var fromEnv := def.envVar in env && env[def.envVar] != "";
            && r.definition == def
            && (r.source == FromEnv <==> fromEnv) && (r.source == FromDb <==> !fromEnv && row.Some?)
            && (r.dbValue.Some? <==> row.Some?) && (row.Some? ==> r.dbValue.value == row.value.value)
            && (r.rawValue == r.value || (def.sensitive && fromEnv && r.rawValue == ""))
            && (def.sensitive && fromEnv ==> r.rawValue == "")
            && (fromEnv ==> r.value == env[def.envVar])
  {
  }

  function LowerAscii(c: char): char {
    if 'A' <= c <= 'Z' then (c as int + 32) as char else c
  }

  function ToLower(s: string): string {
    seq(|s|, i requires 0 <= i < |s| => LowerAscii(s[i]))
  }

  predicate ValidValue(parsers: Parsers, typ: SettingType, value: string) {
    match typ
    case IntType => Strconv.Atoi(value).Some?
    case BoolType => ToLower(value) == "true" || ToLower(value) == "false"
    case FloatType => parsers.isFloat(value)
    case DurationType => parsers.isDuration(value)
    case StringType => true
  }

  /** The value is a casing of the word. */
  predicate Spells(value: string, word: string) {
    |value| == |word| && forall i :: 0 <= i < |word| ==> value[i] == word[i] || value[i] as int == word[i] as int - 32
  }

  /** What each type takes: numerals of 64-bit integers, casings of the two truth values, what the parsers read, or any
      text. */
  ghost predicate Acceptable(parsers: Parsers, typ: SettingType, value: string) {
    && (typ.IntType? ==> exists n :: Strconv.INT_MIN <= n <= Strconv.INT_MAX && Strconv.Numeral(value, n))
    && (typ.BoolType? ==> Spells(value, "true") || Spells(value, "false"))
    && (typ.FloatType? ==> parsers.isFloat(value))
    && (typ.DurationType? ==> parsers.isDuration(value))
  }

  lemma SpellsIff(value: string, word: string)
    requires forall i :: 0 <= i < |word| ==> 'a' <= word[i] <= 'z'
    ensures ToLower(value) == word <==> Spells(value, word)
  {
    if ToLower(value) == word {
      forall i | 0 <= i < |word| ensures value[i] == word[i] || value[i] as int == word[i] as int - 32 {
        assert ToLower(value)[i] == LowerAscii(value[i]);
      }
    }
  }

  /** The validator accepts exactly the acceptable values. */
  lemma ValidIffAcceptable(parsers: Parsers, typ: SettingType, value: string)
    ensures ValidValue(parsers, typ, value) <==> Acceptable(parsers, typ, value)
  {
    SpellsIff(value, "true");
    SpellsIff(value, "false");
    hide ToLower, Spells;
    if typ.IntType? {
      forall n ensures Strconv.Atoi(value) == Some(n) <==>
                       Strconv.Numeral(value, n) && Strconv.INT_MIN <= n <= Strconv.INT_MAX
      {
        Strconv.AtoiReadsNumerals(value, n);
      }
      if Strconv.Atoi(value).Some? { assert Strconv.Numeral(value, Strconv.Atoi(value).value); }
    }
  }

  /** A written 64-bit number is always an acceptable integer; a text without a digit at its end never is. */
  lemma WrittenNumbersAcceptable(parsers: Parsers, n: int, text: string)
    requires text == "" || !Strconv.IsDigit(text[|text| - 1])
    ensures Strconv.INT_MIN <= n <= Strconv.INT_MAX ==> Acceptable(parsers, IntType, Strconv.Itoa(n))
    ensures !Acceptable(parsers, IntType, text)
  {
    if Strconv.INT_MIN <= n <= Strconv.INT_MAX { Strconv.AtoiItoa(n); }
    ValidIffAcceptable(parsers, IntType, Strconv.Itoa(n));
    forall m ensures !Strconv.Numeral(text, m) {
      var digits := Strconv.DigitsOf(Strconv.Abs(m));
      assert Strconv.IsDigit(digits[|digits| - 1]);
    }
  }

  /** The first definition of the key. */
  function Find(registry: seq<Definition>, key: string): (r: Option<Definition>)
    ensures r.Some? ==> r.value in registry && r.value.key == key
    ensures r.None? ==> forall def :: def in registry ==> def.key != key
  {
    if registry == [] then None
    else if registry[0].key == key then Some(registry[0])
    else Find(registry[1..], key)
  }

  /** The stored row a reader of one category sees under a key. */
  function RowIn(table: Table, key: string, category: string): Option<Row> {
    if key in table && table[key].category == category then Some(table[key]) else None
  }

  function RowOf(table: Table, key: string): Option<Row> {
    if key in table then Some(table[key]) else None
  }

  // ----- the three resolvers, as functions of the table -----

  /** The value served to the program. */
  function ServedValue(env: map<string, string>, registry: seq<Definition>, table: Table, key: string): string {
    match Find(registry, key)
    case None => ""
    case Some(def) => Resolve(env, def, RowIn(table, key, def.category)).value
  }

  /** The settings of one category page, in registry order. */
  function PageSettings(env: map<string, string>, registry: seq<Definition>, table: Table, slug: string)
    : seq<Resolved>
  {
    if registry == [] then []
    else
      var rest := PageSettings(env, registry[1..], table, slug);
      if registry[0].category != slug then rest
      else [Resolve(env, registry[0], RowIn(table, registry[0].key, slug))] + rest
  }

  /** The settings of one category on the overview page, in registry order. */
  function OverviewSettings(env: map<string, string>, registry: seq<Definition>, table: Table, slug: string)
    : seq<Resolved>
  {
    if registry == [] then []
    else
      var rest := OverviewSettings(env, registry[1..], table, slug);
      if registry[0].category != slug then rest
      else [Resolve(env, registry[0], RowOf(table, registry[0].key))] + rest
  }

  /** The overview: the non-empty categories in display order. */
  function Overview(env: map<string, string>, registry: seq<Definition>, categories: seq<Category>, table: Table)
    : seq<CategoryView>
  {
    if categories == [] then []
    else
      var settings := OverviewSettings(env, registry, table, categories[0].slug);
      (if settings == [] then [] else [CategoryView(categories[0], settings)])
      + Overview(env, registry, categories[1..], table)
  }

  // ----- the two writes, as functions of the table -----

  /** INSERT ... ON CONFLICT (key) DO UPDATE of the value only: a stored row keeps its category. */
  function Upsert(table: Table, key: string, value: string, category: string): Table {
    table[key := if key in table then table[key].(value := value) else Row(key, value, category)]
  }

  function Updated(parsers: Parsers, registry: seq<Definition>, table: Table, key: string, value: string)
    : Option<Table>
  {
    match Find(registry, key)
    case None => None
    case Some(def) =>
      if ValidValue(parsers, def.typ, value) then Some(Upsert(table, key, value, def.category)) else None
  }

  function ResetTo(registry: seq<Definition>, table: Table, key: string): Option<Table> {
    if Find(registry, key).Some? then Some(table - {key}) else None
  }

  /** An update is accepted exactly for a key of the registry and a value its type takes, and a reset exactly for a key
      of the registry; then the value is there, or gone, and every other row is as it was. */
  lemma RequestsAcceptedIff(parsers: Parsers, registry: seq<Definition>, table: Table, key: string, value: string)
    ensures Updated(parsers, registry, table, key, value).Some? <==>
            Find(registry, key).Some? && Acceptable(parsers, Find(registry, key).value.typ, value)
    ensures ResetTo(registry, table, key).Some? <==> exists def :: def in registry && def.key == key
    ensures var updated := Updated(parsers, registry, table, key, value);
            updated.Some? ==>
              && key in updated.value && updated.value[key].value == value && updated.value.Keys == table.Keys + {key}
              && forall k :: k in table && k != key ==> updated.value[k] == table[k]
    ensures var reset := ResetTo(registry, table, key);
            reset.Some? ==>
              && reset.value.Keys == table.Keys - {key} && forall k :: k in reset.value ==> reset.value[k] == table[k]
  {
    var found := Find(registry, key);
    if found.Some? { ValidIffAcceptable(parsers, found.value.typ, value); }
    hide Acceptable, ValidValue;
  }

  // ----- the loops of the service refine these functions -----

  class SettingsRepository {
    var rows: Table

    constructor ()
      ensures rows == map[]
    {
      rows := map[];
    }

    ghost predicate Valid()
      reads this
    {
      forall key :: key in rows ==> rows[key].key == key
    }

    /** The stored rows, each once; the ORDER BY of the query plays no part in what follows. */
    method GetAllSettings() returns (settings: seq<Row>)
      requires Valid()
      ensures forall row :: row in settings <==> row.key in rows && rows[row.key] == row
      ensures forall i, j :: 0 <= i < j < |settings| ==> settings[i].key != settings[j].key
    {
      settings := [];
      var rest := rows.Keys;
      while rest != {}
        invariant rest <= rows.Keys
        invariant forall row :: row in settings <==> row.key in rows && row.key !in rest && rows[row.key] == row
        invariant forall i, j :: 0 <= i < j < |settings| ==> settings[i].key != settings[j].key
        decreases rest
      {
        var key :| key in rest;
        assert forall i :: 0 <= i < |settings| ==> settings[i] in settings;
        settings := settings + [rows[key]];
        rest := rest - {key};
      }
    }

    method GetSettingsByCategory(category: string) returns (settings: seq<Row>)
      requires Valid()
      ensures forall row :: row in settings <==> row.key in rows && rows[row.key] == row && row.category == category
      ensures forall i, j :: 0 <= i < j < |settings| ==> settings[i].key != settings[j].key
    {
      var all := GetAllSettings();
      settings := [];
      for i := 0 to |all|
        invariant forall row :: row in settings <==> row in all[..i] && row.category == category
        invariant forall j, k :: 0 <= j < k < |settings| ==> settings[j].key != settings[k].key
      {
        if all[i].category == category {
          forall j | 0 <= j < |settings| ensures settings[j].key != all[i].key {
            assert settings[j] in settings;
            assert settings[j] in all[..i];
          }
          settings := settings + [all[i]];
        }
      }
      assert all[..|all|] == all;
    }

    method UpsertSetting(key: string, value: string, category: string)
      requires Valid()
      modifies this
      ensures Valid()
      ensures rows == Upsert(old(rows), key, value, category)
    {
      if key in rows {
        rows := rows[key := rows[key].(value := value)];
      } else {
        rows := rows[key := Row(key, value, category)];
      }
    }

    method DeleteSetting(key: string)
      requires Valid()
      modifies this
      ensures Valid()
      ensures rows == old(rows) - {key}
    {
      rows := rows - {key};
    }
  }

  class SettingsService {
    const repo: SettingsRepository
    const env: map<string, string>
    const parsers: Parsers
    const registry: seq<Definition>
    const categories: seq<Category>

    constructor (env: map<string, string>, parsers: Parsers, registry: seq<Definition>, categories: seq<Category>)
      ensures fresh(repo) && repo.Valid() && repo.rows == map[]
      ensures this.env == env && this.parsers == parsers
      ensures this.registry == registry && this.categories == categories
    {
      this.env, this.parsers, this.registry, this.categories := env, parsers, registry, categories;
      repo := new SettingsRepository();
    }

    method GetSettingDefinition(key: string) returns (def: Option<Definition>)
      ensures def == Find(registry, key)
    {
      for i := 0 to |registry|
        invariant Find(registry, key) == Find(registry[i..], key)
      {
        if registry[i].key == key {
          return Some(registry[i]);
        }
      }
      def := None;
    }

    /** Loads rows into a map keyed by setting key. */
    static method Index(rows: seq<Row>) returns (m: map<string, Row>)
      requires forall i, j :: 0 <= i < j < |rows| ==> rows[i].key != rows[j].key
      ensures forall row :: row in rows <==> row.key in m && m[row.key] == row
      ensures forall key :: key in m ==> m[key].key == key
    {
      m := map[];
      for i := 0 to |rows|
        invariant forall row :: row in rows[..i] <==> row.key in m && m[row.key] == row
        invariant forall key :: key in m ==> m[key].key == key
      {
        FreshKey(m, rows, i);
        m := m[rows[i].key := rows[i]];
      }
      assert rows[..|rows|] == rows;
    }

    method UpdateSetting(key: string, value: string) returns (ok: bool)
      requires repo.Valid()
      modifies repo
      ensures repo.Valid()
      ensures var updated := Updated(parsers, registry, old(repo.rows), key, value);
              (ok <==> updated.Some?) && repo.rows == updated.GetOr(old(repo.rows))
      ensures ok <==> Find(registry, key).Some? && Acceptable(parsers, Find(registry, key).value.typ, value)
    {
      var def := GetSettingDefinition(key);
      if def.None? { return false; }
      ValidIffAcceptable(parsers, def.value.typ, value);
      if !ValidValue(parsers, def.value.typ, value) { return false; }
      repo.UpsertSetting(key, value, def.value.category);
      ok := true;
    }

    method ResetSetting(key: string) returns (ok: bool)
      requires repo.Valid()
      modifies repo
      ensures repo.Valid()
      ensures var reset := ResetTo(registry, old(repo.rows), key);
              (ok <==> reset.Some?) && repo.rows == reset.GetOr(old(repo.rows))
    {
      var def := GetSettingDefinition(key);
      if def.None? { return false; }
      repo.DeleteSetting(key);
      ok := true;
    }

    /** The value the program runs with: looked up among the rows of the definition's category. */
    method GetResolvedValue(key: string) returns (value: string)
      requires repo.Valid()
      ensures value == ServedValue(env, registry, repo.rows, key)
    {
      var def := GetSettingDefinition(key);
      if def.None? { return ""; }
      var v := Getenv(env, def.value.envVar);
      if v != "" { return v; }
      var rows := repo.GetSettingsByCategory(def.value.category);
      for i := 0 to |rows|
        invariant forall j :: 0 <= j < i ==> rows[j].key != key
      {
        if rows[i].key == key {
          assert rows[i] in rows;
          return rows[i].value;
        }
      }
      StoredRowIsListed(rows, repo.rows, key, def.value.category);
      value := def.value.defaultValue;
    }

    static lemma FreshKey(m: map<string, Row>, rows: seq<Row>, n: nat)
      requires n < |rows|
      requires forall i, j :: 0 <= i < j < |rows| ==> rows[i].key != rows[j].key
      requires forall row :: row in rows[..n] <==> row.key in m && m[row.key] == row
      requires forall key :: key in m ==> m[key].key == key
      ensures rows[n].key !in m
    {
      forall key | key in m ensures key != rows[n].key {
        assert m[key] in rows[..n];
      }
    }

    static lemma StoredRowIsListed(rows: seq<Row>, table: Table, key: string, category: string)
      requires forall row :: row in rows <==> row.key in table && table[row.key] == row && row.category == category
      requires forall k :: k in table ==> table[k].key == k
      ensures RowIn(table, key, category).Some? ==> exists i :: 0 <= i < |rows| && rows[i].key == key
    {
      if RowIn(table, key, category).Some? { assert table[key] in rows; }
    }

    /** One category page; None for an unknown slug. */
    method ResolveCategorySettings(slug: string) returns (view: Option<CategoryView>)
      requires repo.Valid()
      ensures view.Some? <==> exists i :: 0 <= i < |categories| && categories[i].slug == slug
      ensures view.Some? ==> view.value.meta in categories && view.value.meta.slug == slug
      ensures view.Some? ==> view.value.settings == PageSettings(env, registry, repo.rows, slug)
    {
      var meta: Option<Category> := None;
      for i := 0 to |categories|
        invariant meta.None? && forall j :: 0 <= j < i ==> categories[j].slug != slug
      {
        if categories[i].slug == slug {
          meta := Some(categories[i]);
          break;
        }
      }
      if meta.None? { return None; }
      var rows := repo.GetSettingsByCategory(slug);
      var dbMap := Index(rows);
      var settings := [];
      for i := 0 to |registry|
        invariant PageSettings(env, registry, repo.rows, slug)
                  == settings + PageSettings(env, registry[i..], repo.rows, slug)
      {
        assert registry[i..][1..] == registry[i + 1..];
        if registry[i].category == slug {
          var key := registry[i].key;
          SameRow(dbMap, rows, repo.rows, key, slug);
          settings := settings + [Resolve(env, registry[i], RowOf(dbMap, key))];
        }
      }
      view := Some(CategoryView(meta.value, settings));
    }

    static lemma SameRow(dbMap: map<string, Row>, rows: seq<Row>, table: Table, key: string, category: string)
      requires forall row :: row in rows <==> row.key in dbMap && dbMap[row.key] == row
      requires forall k :: k in dbMap ==> dbMap[k].key == k
      requires forall k :: k in table ==> table[k].key == k
      requires forall row :: row in rows <==> row.key in table && table[row.key] == row && row.category == category
      ensures RowOf(dbMap, key) == RowIn(table, key, category)
    {
      if key in dbMap { assert dbMap[key] in rows; }
      if key in table { assert table[key].category == category ==> table[key] in rows; }
    }

    static function Group(grouped: map<string, seq<Resolved>>, slug: string): seq<Resolved> {
      if slug in grouped then grouped[slug] else []
    }

    /** Each list so far, followed by what the definitions from i on add to its section, is the whole section. */
    ghost predicate Grouping(dbMap: map<string, Row>, grouped: map<string, seq<Resolved>>, i: nat)
      requires i <= |registry|
    {
      && (forall slug :: OverviewSettings(env, registry, dbMap, slug)
                         == Group(grouped, slug) + OverviewSettings(env, registry[i..], dbMap, slug))
      && (forall slug :: slug in grouped ==> grouped[slug] != [])
    }

    lemma GroupingStep(dbMap: map<string, Row>, grouped: map<string, seq<Resolved>>, i: nat)
      requires i < |registry| && Grouping(dbMap, grouped, i)
      ensures var slug := registry[i].category;
              var resolved := Resolve(env, registry[i], RowOf(dbMap, registry[i].key));
              Grouping(dbMap, grouped[slug := Group(grouped, slug) + [resolved]], i + 1)
    {
      var slug := registry[i].category;
      var resolved := Resolve(env, registry[i], RowOf(dbMap, registry[i].key));
      hide OverviewSettings, Resolve, Group, RowOf;
      var extended := Group(grouped, slug) + [resolved];
      assert extended != [];
      var grouped' := grouped[slug := extended];
      forall s ensures OverviewSettings(env, registry, dbMap, s)
                       == Group(grouped', s) + OverviewSettings(env, registry[i + 1..], dbMap, s)
      {
        GroupGrows(dbMap, grouped, i, s);
      }
    }

    lemma GroupGrows(dbMap: map<string, Row>, grouped: map<string, seq<Resolved>>, i: nat, s: string)
      requires i < |registry|
      ensures var slug := registry[i].category;
              var resolved := Resolve(env, registry[i], RowOf(dbMap, registry[i].key));
              Group(grouped, s) + OverviewSettings(env, registry[i..], dbMap, s)
              == Group(grouped[slug := Group(grouped, slug) + [resolved]], s)
                 + OverviewSettings(env, registry[i + 1..], dbMap, s)
    {
      var resolved := Resolve(env, registry[i], RowOf(dbMap, registry[i].key));
      hide OverviewSettings, Resolve, Group, RowOf;
      SectionStep(dbMap, i, s);
      Appended(grouped, registry[i].category, resolved, s);
      assert forall a: seq<Resolved>, b, c :: (a + b) + c == a + (b + c);
    }

    lemma SectionStep(dbMap: map<string, Row>, i: nat, slug: string)
      requires i < |registry|
      ensures OverviewSettings(env, registry[i..], dbMap, slug)
              == (if registry[i].category != slug then []
                  else [Resolve(env, registry[i], RowOf(dbMap, registry[i].key))])
                 + OverviewSettings(env, registry[i + 1..], dbMap, slug)
    {
      assert registry[i..][1..] == registry[i + 1..];
    }

    lemma GroupingStart(dbMap: map<string, Row>)
      ensures Grouping(dbMap, map[], 0)
    {
      assert registry[0..] == registry;
    }

    /** Resolves the whole registry, appending each setting to its category's list. */
    method GroupByCategory(dbMap: map<string, Row>) returns (grouped: map<string, seq<Resolved>>)
      ensures forall slug :: Group(grouped, slug) == OverviewSettings(env, registry, dbMap, slug)
      ensures forall slug :: slug in grouped ==> grouped[slug] != []
    {
      grouped := map[];
      GroupingStart(dbMap);
      for i := 0 to |registry|
        invariant Grouping(dbMap, grouped, i)
      {
        hide Grouping, Resolve, OverviewSettings;
        GroupingStep(dbMap, grouped, i);
        var slug := registry[i].category;
        var resolved := Resolve(env, registry[i], RowOf(dbMap, registry[i].key));
        grouped := grouped[slug := Group(grouped, slug) + [resolved]];
      }
    }

    static lemma Appended(grouped: map<string, seq<Resolved>>, slug: string, resolved: Resolved, s: string)
      ensures Group(grouped[slug := Group(grouped, slug) + [resolved]], s)
              == Group(grouped, s) + if s == slug then [resolved] else []
    {
    }

    /** The overview page: every category, looked up among all rows by key alone. */
    method ResolveAllByCategory() returns (views: seq<CategoryView>)
      requires repo.Valid()
      ensures views == Overview(env, registry, categories, repo.rows)
    {
      var rows := repo.GetAllSettings();
      var dbMap := Index(rows);
      SameTable(dbMap, rows, repo.rows);
      var grouped := GroupByCategory(dbMap);
      hide OverviewSettings;
      views := [];
      for i := 0 to |categories|
        invariant Overview(env, registry, categories, repo.rows)
                  == views + Overview(env, registry, categories[i..], repo.rows)
      {
        assert categories[i..][1..] == categories[i + 1..];
        assert Group(grouped, categories[i].slug) == OverviewSettings(env, registry, repo.rows, categories[i].slug);
        if categories[i].slug in grouped {
          views := views + [CategoryView(categories[i], grouped[categories[i].slug])];
        }
      }
    }

    static lemma SameTable(dbMap: map<string, Row>, rows: seq<Row>, table: Table)
      requires forall row :: row in rows <==> row.key in dbMap && dbMap[row.key] == row
      requires forall k :: k in dbMap ==> dbMap[k].key == k
      requires forall k :: k in table ==> table[k].key == k
      requires forall row :: row in rows <==> row.key in table && table[row.key] == row
      ensures dbMap == table
    {
      forall k ensures (k in dbMap <==> k in table) && (k in dbMap ==> dbMap[k] == table[k]) {
        if k in dbMap { assert dbMap[k] in rows; }
        if k in table { assert table[k] in rows; }
      }
    }
  }
}
