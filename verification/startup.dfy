/** The database settings read at start-up: which configuration value is
    used, when it is read as a `postgres://` URL, and the Npgsql connection
    string such a URL becomes.  The URL itself arrives already split into
    the parts `System.Uri` exposes; how `System.Uri` splits and unescapes it
    is not modelled. */
module Startup {
  import opened Common
  import opened Text

  /** Where the chosen value came from. */
  datatype Source = EnvDatabaseUrl | ConfigDatabaseUrl | ConfigConnectionString
  {
    function Label(): string
    {
      match this
      case EnvDatabaseUrl => "env:DATABASE_URL"
      case ConfigDatabaseUrl => "config:Database:Url"
      case ConfigConnectionString => "config:ConnectionStrings:DefaultConnection"
    }
  }

  /** `databaseUrl ?? configuredDatabaseUrl ?? configuredConnectionString`
      together with the source label: the first value that is present wins,
      even when it is empty; the label names the connection string when
      both earlier values are absent, whether or not it is present. */
  function Choose(env: Option<string>, url: Option<string>, conn: Option<string>): (r: (Option<string>, Source))
    ensures env.Some? ==> r == (env, EnvDatabaseUrl)
    ensures env.None? && url.Some? ==> r == (url, ConfigDatabaseUrl)
    ensures env.None? && url.None? ==> r == (conn, ConfigConnectionString)
    ensures r.0.Some? <==> env.Some? || url.Some? || conn.Some?
  {
    if env.Some? then (env, EnvDatabaseUrl)
    else if url.Some? then (url, ConfigDatabaseUrl)
    else (conn, ConfigConnectionString)
  }

  /** `string.IsNullOrWhiteSpace`. */
  predicate NullOrWhiteSpace(s: Option<string>)
  {
    s.None? || NetBlank(s.value)
  }

  /** `s.StartsWith(p, StringComparison.OrdinalIgnoreCase)`, with the case
      mapping of `Text.UpperChar`. */
  predicate StartsWithIgnoreCase(s: string, p: string)
  {
    |p| <= |s| && forall i | 0 <= i < |p| :: UpperChar(s[i]) == UpperChar(p[i])
  }

  /** The value names a PostgreSQL URL. */
  predicate IsUrl(s: string)
  {
    StartsWithIgnoreCase(s, "postgres://") || StartsWithIgnoreCase(s, "postgresql://")
  }

  /** An upper-case scheme is a URL as well. */
  lemma UpperSchemeIsUrl(rest: string)
    ensures IsUrl("POSTGRES://" + rest) && IsUrl("PostgreSQL://" + rest)
  {
    SameUpperPrefix("POSTGRES://", "postgres://", rest);
    SameUpperPrefix("PostgreSQL://", "postgresql://", rest);
  }

  lemma SameUpperPrefix(p: string, q: string, rest: string)
    requires |p| == |q| && forall i | 0 <= i < |p| :: UpperChar(p[i]) == UpperChar(q[i])
    ensures StartsWithIgnoreCase(p + rest, q)
  {
    assert forall i | 0 <= i < |p| :: (p + rest)[i] == p[i];
  }

  /** A plain key/value connection string is never read as a URL. */
  lemma KeyValueIsNotUrl(rest: string)
    ensures !IsUrl("Host=" + rest)
  {
    assert UpperChar(("Host=" + rest)[0]) != UpperChar('p');
  }

  /** The parts of the URL the conversion reads: `UserInfo`, `Host`, `Port`
      (-1 when the URL gives none, as for every scheme `System.Uri` has no
      default port for) and `AbsolutePath`. */
  datatype UriParts = UriParts(userInfo: string, host: string, port: int, absolutePath: string)

  /** `new Uri(value)`: the parts, or the message of the exception. */
  datatype Parsed = Parts(parts: UriParts) | Malformed(message: string)

  const DefaultPort := 5432

  /** The user: the user info up to its first ':'. */
  function UserOf(userInfo: string): (user: string)
    ensures ':' !in user
    ensures ':' !in userInfo ==> user == userInfo
    ensures ':' in userInfo ==> user == userInfo[..IndexOf(userInfo, ':')]
  {
    Split(userInfo, ':')[0]
  }

  /** The password: the piece between the first and the second ':', or ""
      without a ':'. */
  function PasswordOf(userInfo: string): (password: string)
    ensures ':' !in password
    ensures ':' !in userInfo ==> password == ""
    ensures ':' in userInfo ==>
      var rest := userInfo[IndexOf(userInfo, ':') + 1..];
      password == UserOf(rest)
  {
    var pieces := Split(userInfo, ':');
    if |pieces| > 1 then pieces[1] else ""
  }

  /** With at most one ':' the user and the password are the whole user
      info; anything after a second ':' is what is lost. */
  lemma UserInfoRoundTrip(userInfo: string)
    requires ':' in userInfo
    requires ':' !in userInfo[IndexOf(userInfo, ':') + 1..]
    ensures UserOf(userInfo) + ":" + PasswordOf(userInfo) == userInfo
  {
    var k := IndexOf(userInfo, ':');
    assert userInfo == userInfo[..k] + ":" + userInfo[k + 1..];
  }

  /** The port written into the connection string. */
  function PortOf(u: UriParts): (p: int)
    ensures p > 0
    ensures u.port > 0 ==> p == u.port
    ensures u.port <= 0 ==> p == DefaultPort
  {
    if u.port > 0 then u.port else DefaultPort
  }

  /** The settings `ConvertPostgresUrl` writes, one `Key=Value` each: the
      host, the port, the path without its '/'s, the user, the password and
      the two fixed TLS settings. */
  function Settings(u: UriParts): (r: seq<string>)
    ensures |r| == 7
  {
    ["Host=" + u.host, "Port=" + IntToString(PortOf(u)), "Database=" + TrimChar(u.absolutePath, '/'),
     "Username=" + UserOf(u.userInfo), "Password=" + PasswordOf(u.userInfo),
     "SSL Mode=Require", "Trust Server Certificate=true"]
  }

  /** The connection string: the settings joined by ';'. */
  function ConnectionString(u: UriParts): string
  {
    Join(Settings(u), ';')
  }

  /** Host, path and user info without ';' give a connection string whose
      ';'-separated pieces are exactly the seven settings, in order: nothing
      from the URL leaks into a neighbouring key. */
  lemma ConnectionStringSettings(u: UriParts)
    requires ';' !in u.host && ';' !in u.absolutePath && ';' !in u.userInfo
    ensures Split(ConnectionString(u), ';') == Settings(u)
  {
    SettingsFreeOfSemicolon(u);
    SplitJoin(Settings(u), ';');
  }

  lemma NotInConcat(a: string, b: string, c: char)
    requires c !in a && c !in b
    ensures c !in a + b
  {
  }

  lemma SettingsFreeOfSemicolon(u: UriParts)
    requires ';' !in u.host && ';' !in u.absolutePath && ';' !in u.userInfo
    ensures forall i | 0 <= i < 7 :: ';' !in Settings(u)[i]
  {
    var n := IntToString(PortOf(u));
    var db := TrimChar(u.absolutePath, '/');
    NumeralFree(PortOf(u), ';');
    TrimFree(u.absolutePath, ';');
    UserOfIsPiece(u.userInfo, ';');
    KeysFree();
    NotInConcat("Host=", u.host, ';');
    NotInConcat("Port=", n, ';');
    NotInConcat("Database=", db, ';');
    NotInConcat("Username=", UserOf(u.userInfo), ';');
    NotInConcat("Password=", PasswordOf(u.userInfo), ';');
  }

  lemma KeysFree()
    ensures ';' !in "Host=" && ';' !in "Port=" && ';' !in "Database=" && ';' !in "Username="
    ensures ';' !in "Password=" && ';' !in "SSL Mode=Require" && ';' !in "Trust Server Certificate=true"
  {
  }

  lemma NumeralFree(p: nat, c: char)
    requires !IsDigit(c)
    ensures c !in IntToString(p)
  {
    assert AllDigits(NatToString(p));
  }

  lemma TrimFree(s: string, c: char)
    requires c !in s
    ensures c !in TrimChar(s, '/')
  {
    var t := TrimStartChar(s, '/');
    assert c !in t;
  }

  /** The user and the password are taken from the user info. */
  lemma UserOfIsPiece(userInfo: string, c: char)
    requires c !in userInfo
    ensures c !in UserOf(userInfo) && c !in PasswordOf(userInfo)
  {
    if ':' in userInfo {
      var k := IndexOf(userInfo, ':');
      var rest := userInfo[k + 1..];
      if ':' in rest {
        var j := IndexOf(rest, ':');
        assert PasswordOf(userInfo) == rest[..j];
      }
    }
  }

  /** What start-up ends in: the connection string in use, with where it
      came from and whether it was converted, or the exception that stops
      the application. */
  datatype Startup = Configured(connection: string, source: Source, isUrl: bool) | InvalidOperation(message: string)

  const NotConfigured :=
    "Database not configured. Set DATABASE_URL or configure Database:Url/ConnectionStrings:DefaultConnection in appsettings."

  /** `ConvertPostgresUrl`: a URL that `System.Uri` rejects becomes an
      `InvalidOperationException` carrying its message. */
  function ConvertPostgresUrl(parsed: Parsed): (r: Startup)
    ensures parsed.Malformed? ==> r == InvalidOperation("Failed to parse DATABASE_URL: " + parsed.message)
    ensures parsed.Parts? ==> r.Configured? && r.connection == ConnectionString(parsed.parts)
  {
    match parsed
    case Malformed(message) => InvalidOperation("Failed to parse DATABASE_URL: " + message)
    case Parts(u) => Configured(ConnectionString(u), EnvDatabaseUrl, true)
  }

  /** The database block of start-up.  `parse` is `new Uri`, used only on a
      value that is a URL. */
  function Configure(env: Option<string>, url: Option<string>, conn: Option<string>,
                     parse: string -> Parsed): (r: Startup)
    ensures var (raw, source) := Choose(env, url, conn);
      && (NullOrWhiteSpace(raw) ==> r == InvalidOperation(NotConfigured))
      && (!NullOrWhiteSpace(raw) && !IsUrl(raw.value) ==> r == Configured(raw.value, source, false))
      && (!NullOrWhiteSpace(raw) && IsUrl(raw.value) ==>
            match parse(raw.value)
            case Malformed(m) => r == InvalidOperation("Failed to parse DATABASE_URL: " + m)
            case Parts(u) => r == Configured(ConnectionString(u), source, true))
  {
    var (raw, source) := Choose(env, url, conn);
    if NullOrWhiteSpace(raw) then InvalidOperation(NotConfigured)
    else if !IsUrl(raw.value) then Configured(raw.value, source, false)
    else
      match ConvertPostgresUrl(parse(raw.value))
      case InvalidOperation(m) => InvalidOperation(m)
      case Configured(c, _, _) => Configured(c, source, true)
  }

  /** A blank `DATABASE_URL` stops start-up even when the configuration file
      holds a usable value: a present value never falls through. */
  lemma BlankEnvironmentShadowsConfig(env: string, url: Option<string>, conn: Option<string>,
                                      parse: string -> Parsed)
    requires NetBlank(env)
    ensures Configure(Some(env), url, conn, parse) == InvalidOperation(NotConfigured)
  {
  }

  /** A configured value that is not a URL is used exactly as written. */
  lemma PlainValueVerbatim(env: Option<string>, url: Option<string>, conn: Option<string>,
                           parse: string -> Parsed)
    requires Configure(env, url, conn, parse).Configured? && !Configure(env, url, conn, parse).isUrl
    ensures var raw := Choose(env, url, conn).0;
      raw.Some? && Configure(env, url, conn, parse).connection == raw.value
  {
  }
}
