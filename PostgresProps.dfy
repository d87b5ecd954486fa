/**
 * PostgresProps: the database connection settings and the values derived from
 * them (the JDBC user, password, port and URL).
 */
module PostgresProps {
  import opened Wrappers
  import opened JavaStrings
  import Decimal

  /** The port used when none, or no valid one, is configured. */
  const DefaultPort: int := 5432
  /** The database used when none is configured. */
  const DefaultDatabase: string := "postgres"
  const UrlPrefix: string := "jdbc:postgresql://"

  /** The settings; every one of them may be unset (null). */
  datatype PostgresProps = PostgresProps(
    psqlPath: Option<string>,
    superuser: Option<string>,
    superpass: Option<string>,
    database: Option<string>,
    host: Option<string>,
    port: Option<string>,
    username: Option<string>,
    password: Option<string>)
  {
    /** effectiveUsername: the dedicated user unless it is null or blank, then the superuser. */
    function EffectiveUsername(): (r: Option<string>)
      ensures NullOrBlank(username) ==> r == superuser
      ensures !NullOrBlank(username) ==> r == username
    {
      if NullOrBlank(username) then superuser else username
    }

    /** effectivePassword: the dedicated password unless it is null or blank, then the superuser's. */
    function EffectivePassword(): (r: Option<string>)
      ensures NullOrBlank(password) ==> r == superpass
      ensures !NullOrBlank(password) ==> r == password
    {
      if NullOrBlank(password) then superpass else password
    }

    /** resolvePort: Integer.parseInt of the trimmed port; 5432 when the port is null,
        blank, or not an int. */
    function ResolvePort(): (p: int)
      ensures Decimal.IntMin <= p <= Decimal.IntMax
      ensures NullOrBlank(port) ==> p == DefaultPort
      ensures !NullOrBlank(port) && Decimal.ParseInt(Trim(port.value)).Some? ==> p == Decimal.ParseInt(Trim(port.value)).value
      ensures !NullOrBlank(port) && Decimal.ParseInt(Trim(port.value)).None? ==> p == DefaultPort
    {
      if NullOrBlank(port) then DefaultPort
      else
        match Decimal.ParseInt(Trim(port.value))
        case Some(n) => n
        case None => DefaultPort
    }

    /** The database name in the URL: "postgres" when it is null or blank. */
    function DatabaseName(): (db: string)
      ensures NullOrBlank(database) ==> db == DefaultDatabase
      ensures !NullOrBlank(database) ==> db == database.value
    {
      if NullOrBlank(database) then DefaultDatabase else database.value
    }

    /** jdbcUrl: "jdbc:postgresql://host:port/db"; string concatenation writes a null
        host as "null". */
    function JdbcUrl(): (url: string)
    {
      UrlPrefix + NullText(host) + ":" + Decimal.LongToString(ResolvePort()) + "/" + DatabaseName()
    }
  }

  /** What string concatenation writes for a possibly null string. */
  function NullText(s: Option<string>): (r: string)
    ensures s.Some? ==> r == s.value
    ensures s.None? ==> r == "null"
  {
    match s
    case Some(v) => v
    case None => "null"
  }

  /** A new PostgresProps: host "localhost", port "5432", everything else null. */
  function Defaults(): (p: PostgresProps)
    ensures p.host == Some("localhost") && p.port == Some("5432")
    ensures p.database.None? && p.username.None? && p.password.None?
  {
    PostgresProps(None, None, None, None, Some("localhost"), Some("5432"), None, None)
  }

  /** The URL is made of the prefix, the host, the port and the database, and the
      port part reads back as the resolved port. */
  lemma JdbcUrlParts(p: PostgresProps)
    ensures exists portText ::
      && p.JdbcUrl() == UrlPrefix + NullText(p.host) + ":" + portText + "/" + p.DatabaseName()
      && Decimal.ParseInt(portText) == Some(p.ResolvePort())
  {
    Decimal.ParseIntOfLongToString(p.ResolvePort());
    assert p.JdbcUrl() == UrlPrefix + NullText(p.host) + ":" + Decimal.LongToString(p.ResolvePort()) + "/" + p.DatabaseName();
  }

  /** A port written as an int, with or without surrounding blanks, resolves to that int. */
  lemma ResolvePortOfWritten(p: PostgresProps, n: int, pad: string)
    requires Decimal.IntMin <= n <= Decimal.IntMax
    requires forall i | 0 <= i < |pad| :: pad[i] == ' '
    requires p.port == Some(pad + Decimal.LongToString(n) + pad)
    ensures p.ResolvePort() == n
  {
    var digits := Decimal.LongToString(n);
    var s := pad + digits + pad;
    assert s[|pad|] == digits[0];
    assert !IsWhitespace(digits[0]) by {
      if digits[0] != '-' {
        Decimal.ParseIntOfLongToString(n);
        assert Decimal.IsDigit(digits[0]);
      }
    }
    assert !IsBlank(s);
    TrimPadded(pad, digits);
    Decimal.ParseIntOfLongToString(n);
  }

  /** Trimming removes spaces put around text that does not start or end with one. */
  lemma TrimPadded(pad: string, t: string)
    requires forall i | 0 <= i < |pad| :: pad[i] == ' '
    requires t != [] && !Trimmable(t[0]) && !Trimmable(t[|t| - 1])
    ensures Trim(pad + t + pad) == t
  {
    TrimStartPadded(pad, t + pad);
    assert pad + t + pad == pad + (t + pad);
    TrimEndPadded(t, pad);
  }

  lemma {:induction false} TrimStartPadded(pad: string, t: string)
    requires forall i | 0 <= i < |pad| :: pad[i] == ' '
    requires t != [] && !Trimmable(t[0])
    ensures TrimStart(pad + t) == t
    decreases |pad|
  {
    if pad != [] {
      assert (pad + t)[1..] == pad[1..] + t;
      TrimStartPadded(pad[1..], t);
    }
  }

  lemma {:induction false} TrimEndPadded(t: string, pad: string)
    requires forall i | 0 <= i < |pad| :: pad[i] == ' '
    requires t != [] && !Trimmable(t[|t| - 1])
    ensures TrimEnd(t + pad) == t
    decreases |pad|
  {
    if pad != [] {
      var last := |pad| - 1;
      assert (t + pad)[..|t + pad| - 1] == t + pad[..last];
      TrimEndPadded(t, pad[..last]);
    } else {
      assert t + pad == t;
    }
  }

  lemma DefaultPortText()
    ensures Decimal.LongToString(DefaultPort) == "5432"
  {
  }

  /** A port of "5432" resolves to 5432. */
  lemma DefaultPortResolves(p: PostgresProps)
    requires p.port == Some("5432")
    ensures p.ResolvePort() == DefaultPort
  {
    DefaultPortText();
    assert "" + Decimal.LongToString(DefaultPort) + "" == "5432";
    ResolvePortOfWritten(p, DefaultPort, "");
  }

  /** With no dedicated credentials the superuser's are used, and the default
      settings connect to localhost:5432/postgres. */
  lemma DefaultsConnectLocally(superuser: string, superpass: string)
    ensures var p := Defaults().(superuser := Some(superuser), superpass := Some(superpass));
      && p.EffectiveUsername() == Some(superuser)
      && p.EffectivePassword() == Some(superpass)
      && p.JdbcUrl() == "jdbc:postgresql://localhost:5432/postgres"
  {
    var p := Defaults().(superuser := Some(superuser), superpass := Some(superpass));
    DefaultPortResolves(p);
    DefaultPortText();
    assert p.DatabaseName() == "postgres";
  }
}
