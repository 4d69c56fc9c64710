/** The known system settings and their categories, as deployed. */
module SettingsRegistry {

  datatype SettingType = StringType | IntType | BoolType | FloatType | DurationType

  datatype Definition = Definition(
    key: string,
    envVar: string,
    category: string,
    typ: SettingType,
    defaultValue: string,
    sensitive: bool)

  datatype Category = Category(slug: string, title: string, icon: string)

  const CATEGORY_META: seq<Category> := [
    Category("general", "General", "bi-gear"),
    Category("jwt", "JWT & Tokens", "bi-shield-lock"),
    Category("admin", "Admin Session", "bi-person-lock"),
    Category("cors", "CORS", "bi-globe"),
    Category("trusted_device", "Trusted Devices", "bi-device-hdd"),
    Category("log_retention", "Log Retention", "bi-archive"),
    Category("log_cleanup", "Log Cleanup", "bi-trash"),
    Category("log_behavior", "Log Behavior", "bi-toggles"),
    Category("oauth_redirect", "OAuth Redirects", "bi-box-arrow-up-right")]

  /** Every setting is read from the environment variable of its own name, and none is sensitive. */
  function Plain(key: string, category: string, typ: SettingType, defaultValue: string): Definition {
    Definition(key, key, category, typ, defaultValue, false)
  }

  const REGISTRY: seq<Definition> := [
    Plain("APP_NAME", "general", StringType, "Auth API"),
    Plain("ACCESS_TOKEN_EXPIRATION_MINUTES", "jwt", IntType, "15"),
    Plain("REFRESH_TOKEN_EXPIRATION_HOURS", "jwt", IntType, "720"),
    Plain("ADMIN_SESSION_EXPIRATION_HOURS", "admin", IntType, "8"),
    Plain("CORS_ALLOWED_ORIGINS", "cors", StringType,
          "http://localhost:3000,http://localhost:5173,http://localhost:5174,"
          + "http://localhost:5175,http://localhost:8080"),
    Plain("CORS_ALLOWED_METHODS", "cors", StringType, "GET,POST,PUT,DELETE,OPTIONS,HEAD"),
    Plain("CORS_ALLOWED_HEADERS", "cors", StringType,
          "Origin,Content-Type,Content-Length,Accept-Encoding,X-CSRF-Token,Authorization,"
          + "Accept,Cache-Control,X-Requested-With,X-App-ID"),
    Plain("CORS_EXPOSE_HEADERS", "cors", StringType,
          "Content-Length,Access-Control-Allow-Origin,Access-Control-Allow-Headers,Content-Type"),
    Plain("CORS_MAX_AGE_HOURS", "cors", IntType, "12"),
    Plain("CORS_ALLOW_CREDENTIALS", "cors", BoolType, "true"),
    Plain("LOG_RETENTION_CRITICAL", "log_retention", IntType, "365"),
    Plain("LOG_RETENTION_IMPORTANT", "log_retention", IntType, "180"),
    Plain("LOG_RETENTION_INFORMATIONAL", "log_retention", IntType, "90"),
    Plain("LOG_CLEANUP_ENABLED", "log_cleanup", BoolType, "true"),
    Plain("LOG_CLEANUP_INTERVAL", "log_cleanup", DurationType, "24h"),
    Plain("LOG_CLEANUP_BATCH_SIZE", "log_cleanup", IntType, "1000"),
    Plain("LOG_ARCHIVE_BEFORE_CLEANUP", "log_cleanup", BoolType, "false"),
    Plain("LOG_TOKEN_REFRESH", "log_behavior", BoolType, "false"),
    Plain("LOG_PROFILE_ACCESS", "log_behavior", BoolType, "false"),
    Plain("LOG_SAMPLE_TOKEN_REFRESH", "log_behavior", FloatType, "0.01"),
    Plain("LOG_SAMPLE_PROFILE_ACCESS", "log_behavior", FloatType, "0.01"),
    Plain("LOG_DISABLED_EVENTS", "log_behavior", StringType, ""),
    Plain("LOG_ANOMALY_DETECTION_ENABLED", "log_behavior", BoolType, "true"),
    Plain("LOG_ANOMALY_NEW_IP", "log_behavior", BoolType, "true"),
    Plain("LOG_ANOMALY_NEW_USER_AGENT", "log_behavior", BoolType, "true"),
    Plain("LOG_ANOMALY_GEO_CHANGE", "log_behavior", BoolType, "false"),
    Plain("LOG_ANOMALY_UNUSUAL_TIME", "log_behavior", BoolType, "false"),
    Plain("LOG_ANOMALY_SESSION_WINDOW", "log_behavior", DurationType, "720h"),
    Plain("TRUSTED_DEVICE_COOKIE_SAMESITE", "trusted_device", StringType, "none"),
    Plain("ALLOWED_REDIRECT_DOMAINS", "oauth_redirect", StringType, ""),
    Plain("DEFAULT_REDIRECT_URI", "oauth_redirect", StringType, "")]

  ghost predicate Listed(slug: string, categories: seq<Category>) {
    exists j :: 0 <= j < |categories| && categories[j].slug == slug
  }

  /** No two definitions share a key, no two categories share a slug, and every definition's category is listed. */
  ghost predicate WellFormed(registry: seq<Definition>, categories: seq<Category>) {
    && (forall i, j :: 0 <= i < j < |registry| ==> registry[i].key != registry[j].key)
    && (forall i, j :: 0 <= i < j < |categories| ==> categories[i].slug != categories[j].slug)
    && (forall i :: 0 <= i < |registry| ==> Listed(registry[i].category, categories))
  }

  /** Tells the deployed keys apart by their length and one character. */
  function Position(key: string): int {
    match |key|
    case 8 => 0
    case 17 => 17
    case 18 => if key[4] == '_' then 8 else if key[4] == 'P' then 18 else 23
    case 19 => if key[4] == '_' then 7 else if key[4] == 'C' then 13 else 21
    case 20 => if key[13] == 'O' then 4 else if key[13] == 'M' then 5 else if key[13] == 'H' then 6
               else if key[13] == 'N' then 14 else 30
    case 22 => if key[4] == '_' then 9 else if key[4] == 'R' then 10 else if key[4] == 'C' then 15 else 25
    case 23 => 11
    case 24 => if key[4] == 'S' then 19 else if key[4] == 'A' then 26 else 29
    case 25 => 20
    case 26 => if key[12] == 'B' then 16 else if key[12] == 'N' then 24 else 27
    case 27 => 12
    case 29 => 22
    case 30 => if key[0] == 'R' then 2 else if key[0] == 'A' then 3 else 28
    case 31 => 1
    case _ => -1
  }

  function SlugPosition(key: string): int {
    match |key|
    case 3 => 1
    case 4 => 3
    case 5 => 2
    case 7 => 0
    case 11 => 6
    case 12 => 7
    case 13 => 5
    case 14 => if key[0] == 't' then 4 else 8
    case _ => -1
  }

  lemma Definitions0To5(i: nat)
    requires 0 <= i < 5
    ensures Position(REGISTRY[i].key) == i && Listed(REGISTRY[i].category, CATEGORY_META)
  {
    if i == 0 { assert REGISTRY[0].key == "APP_NAME"; assert CATEGORY_META[0].slug == REGISTRY[0].category; }
    if i == 1 {
      assert REGISTRY[1].key == "ACCESS_TOKEN_EXPIRATION_MINUTES";
      assert CATEGORY_META[1].slug == REGISTRY[1].category;
    }
    if i == 2 {
      assert REGISTRY[2].key == "REFRESH_TOKEN_EXPIRATION_HOURS";
      assert CATEGORY_META[1].slug == REGISTRY[2].category;
    }
    if i == 3 {
      assert REGISTRY[3].key == "ADMIN_SESSION_EXPIRATION_HOURS";
      assert CATEGORY_META[2].slug == REGISTRY[3].category;
    }
    if i == 4 {
      assert REGISTRY[4].key == "CORS_ALLOWED_ORIGINS";
      assert CATEGORY_META[3].slug == REGISTRY[4].category;
    }
  }

  lemma Definitions5To10(i: nat)
    requires 5 <= i < 10
    ensures Position(REGISTRY[i].key) == i && Listed(REGISTRY[i].category, CATEGORY_META)
  {
    if i == 5 {
      assert REGISTRY[5].key == "CORS_ALLOWED_METHODS";
      assert CATEGORY_META[3].slug == REGISTRY[5].category;
    }
    if i == 6 {
      assert REGISTRY[6].key == "CORS_ALLOWED_HEADERS";
      assert CATEGORY_META[3].slug == REGISTRY[6].category;
    }
    if i == 7 { assert REGISTRY[7].key == "CORS_EXPOSE_HEADERS"; assert CATEGORY_META[3].slug == REGISTRY[7].category; }
    if i == 8 { assert REGISTRY[8].key == "CORS_MAX_AGE_HOURS"; assert CATEGORY_META[3].slug == REGISTRY[8].category; }
    if i == 9 {
      assert REGISTRY[9].key == "CORS_ALLOW_CREDENTIALS";
      assert CATEGORY_META[3].slug == REGISTRY[9].category;
    }
  }

  lemma Definitions10To15(i: nat)
    requires 10 <= i < 15
    ensures Position(REGISTRY[i].key) == i && Listed(REGISTRY[i].category, CATEGORY_META)
  {
    if i == 10 {
      assert REGISTRY[10].key == "LOG_RETENTION_CRITICAL";
      assert CATEGORY_META[5].slug == REGISTRY[10].category;
    }
    if i == 11 {
      assert REGISTRY[11].key == "LOG_RETENTION_IMPORTANT";
      assert CATEGORY_META[5].slug == REGISTRY[11].category;
    }
    if i == 12 {
      assert REGISTRY[12].key == "LOG_RETENTION_INFORMATIONAL";
      assert CATEGORY_META[5].slug == REGISTRY[12].category;
    }
    if i == 13 {
      assert REGISTRY[13].key == "LOG_CLEANUP_ENABLED";
      assert CATEGORY_META[6].slug == REGISTRY[13].category;
    }
    if i == 14 {
      assert REGISTRY[14].key == "LOG_CLEANUP_INTERVAL";
      assert CATEGORY_META[6].slug == REGISTRY[14].category;
    }
  }

  lemma Definitions15To20(i: nat)
    requires 15 <= i < 20
    ensures Position(REGISTRY[i].key) == i && Listed(REGISTRY[i].category, CATEGORY_META)
  {
    if i == 15 {
      assert REGISTRY[15].key == "LOG_CLEANUP_BATCH_SIZE";
      assert CATEGORY_META[6].slug == REGISTRY[15].category;
    }
    if i == 16 {
      assert REGISTRY[16].key == "LOG_ARCHIVE_BEFORE_CLEANUP";
      assert CATEGORY_META[6].slug == REGISTRY[16].category;
    }
    if i == 17 {
      assert REGISTRY[17].key == "LOG_TOKEN_REFRESH";
      assert CATEGORY_META[7].slug == REGISTRY[17].category;
    }
    if i == 18 {
      assert REGISTRY[18].key == "LOG_PROFILE_ACCESS";
      assert CATEGORY_META[7].slug == REGISTRY[18].category;
    }
    if i == 19 {
      assert REGISTRY[19].key == "LOG_SAMPLE_TOKEN_REFRESH";
      assert CATEGORY_META[7].slug == REGISTRY[19].category;
    }
  }

  lemma Definitions20To25(i: nat)
    requires 20 <= i < 25
    ensures Position(REGISTRY[i].key) == i && Listed(REGISTRY[i].category, CATEGORY_META)
  {
    if i == 20 {
      assert REGISTRY[20].key == "LOG_SAMPLE_PROFILE_ACCESS";
      assert CATEGORY_META[7].slug == REGISTRY[20].category;
    }
    if i == 21 {
      assert REGISTRY[21].key == "LOG_DISABLED_EVENTS";
      assert CATEGORY_META[7].slug == REGISTRY[21].category;
    }
    if i == 22 {
      assert REGISTRY[22].key == "LOG_ANOMALY_DETECTION_ENABLED";
      assert CATEGORY_META[7].slug == REGISTRY[22].category;
    }
    if i == 23 {
      assert REGISTRY[23].key == "LOG_ANOMALY_NEW_IP";
      assert CATEGORY_META[7].slug == REGISTRY[23].category;
    }
    if i == 24 {
      assert REGISTRY[24].key == "LOG_ANOMALY_NEW_USER_AGENT";
      assert CATEGORY_META[7].slug == REGISTRY[24].category;
    }
  }

  lemma Definitions25To31(i: nat)
    requires 25 <= i < 31
    ensures Position(REGISTRY[i].key) == i && Listed(REGISTRY[i].category, CATEGORY_META)
  {
    if i == 25 {
      assert REGISTRY[25].key == "LOG_ANOMALY_GEO_CHANGE";
      assert CATEGORY_META[7].slug == REGISTRY[25].category;
    }
    if i == 26 {
      assert REGISTRY[26].key == "LOG_ANOMALY_UNUSUAL_TIME";
      assert CATEGORY_META[7].slug == REGISTRY[26].category;
    }
    if i == 27 {
      assert REGISTRY[27].key == "LOG_ANOMALY_SESSION_WINDOW";
      assert CATEGORY_META[7].slug == REGISTRY[27].category;
    }
    if i == 28 {
      assert REGISTRY[28].key == "TRUSTED_DEVICE_COOKIE_SAMESITE";
      assert CATEGORY_META[4].slug == REGISTRY[28].category;
    }
    if i == 29 {
      assert REGISTRY[29].key == "ALLOWED_REDIRECT_DOMAINS";
      assert CATEGORY_META[8].slug == REGISTRY[29].category;
    }
    if i == 30 {
      assert REGISTRY[30].key == "DEFAULT_REDIRECT_URI";
      assert CATEGORY_META[8].slug == REGISTRY[30].category;
    }
  }

  lemma Slugs(i: nat)
    requires i < |CATEGORY_META|
    ensures SlugPosition(CATEGORY_META[i].slug) == i
  {
    if i == 0 { assert CATEGORY_META[0].slug == "general"; }
    if i == 1 { assert CATEGORY_META[1].slug == "jwt"; }
    if i == 2 { assert CATEGORY_META[2].slug == "admin"; }
    if i == 3 { assert CATEGORY_META[3].slug == "cors"; }
    if i == 4 { assert CATEGORY_META[4].slug == "trusted_device"; }
    if i == 5 { assert CATEGORY_META[5].slug == "log_retention"; }
    if i == 6 { assert CATEGORY_META[6].slug == "log_cleanup"; }
    if i == 7 { assert CATEGORY_META[7].slug == "log_behavior"; }
    if i == 8 { assert CATEGORY_META[8].slug == "oauth_redirect"; }
  }

  lemma WellFormedByPosition(registry: seq<Definition>, categories: seq<Category>)
    requires forall i :: 0 <= i < |registry| ==> Position(registry[i].key) == i
    requires forall i :: 0 <= i < |categories| ==> SlugPosition(categories[i].slug) == i
    requires forall i :: 0 <= i < |registry| ==> Listed(registry[i].category, categories)
    ensures WellFormed(registry, categories)
  {
    hide Position, SlugPosition;
  }

  lemma DeployedRegistryIsWellFormed()
    ensures WellFormed(REGISTRY, CATEGORY_META)
  {
    hide Position, SlugPosition, Listed;
    forall i | 0 <= i < |REGISTRY|
      ensures Position(REGISTRY[i].key) == i && Listed(REGISTRY[i].category, CATEGORY_META)
    {
      if i < 5 { Definitions0To5(i); }
      else if i < 10 { Definitions5To10(i); }
      else if i < 15 { Definitions10To15(i); }
      else if i < 20 { Definitions15To20(i); }
      else if i < 25 { Definitions20To25(i); }
      else { Definitions25To31(i); }
    }
    forall i | 0 <= i < |CATEGORY_META| ensures SlugPosition(CATEGORY_META[i].slug) == i { Slugs(i); }
    WellFormedByPosition(REGISTRY, CATEGORY_META);
  }
}
