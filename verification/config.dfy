/**
 * The database URL the backend connects to: `DATABASE_URL` from the
 * environment, or a local SQLite file, with the `postgres://` scheme some
 * hosts hand out rewritten to the `postgresql://` scheme SQLAlchemy expects.
 */
module Config {
  import opened Results
  import Text

  const DefaultDatabaseUrl := "sqlite:///./wine_notes.db"
  const LegacyScheme := "postgres://"
  const PostgresqlScheme := "postgresql://"

  /** `os.getenv("DATABASE_URL", default)` followed by the scheme rewrite. */
  function DatabaseUrl(env: Option<string>): (url: string)
    ensures env.None? ==> url == DefaultDatabaseUrl
    ensures env.Some? && Text.StartsWith(env.value, LegacyScheme) ==>
      url == PostgresqlScheme + env.value[|LegacyScheme|..]
    ensures env.Some? && !Text.StartsWith(env.value, LegacyScheme) ==> url == env.value
  {
    var url := env.GetOr(DefaultDatabaseUrl);
    assert DefaultDatabaseUrl[..|LegacyScheme|] != LegacyScheme by {
      assert DefaultDatabaseUrl[0] != LegacyScheme[0];
    }
    if Text.StartsWith(url, LegacyScheme) then
      Text.ReplaceFirstAtStart(url, LegacyScheme, PostgresqlScheme);
      Text.ReplaceFirst(url, LegacyScheme, PostgresqlScheme)
    else url
  }

  /** The rewritten URL never needs rewriting again. */
  lemma RewriteIsStable(env: Option<string>)
    ensures DatabaseUrl(Some(DatabaseUrl(env))) == DatabaseUrl(env)
  {
    var url := DatabaseUrl(env);
    if env.Some? && Text.StartsWith(env.value, LegacyScheme) {
      assert url[..|LegacyScheme|][8] == 'q' != LegacyScheme[8];
    } else if env.None? {
      assert url[..|LegacyScheme|][0] == 's' != LegacyScheme[0];
    }
  }
}
