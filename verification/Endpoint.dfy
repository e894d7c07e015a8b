/** The database endpoint: how the launcher prints it as a URL, and the three parsers that read it. */
module Endpoint {
  import opened Wrappers
  import opened Text
  import opened Url
  import Decimal

  datatype Endpoint = Endpoint(user: ByteText, password: ByteText, host: string, port: int, name: ByteText)

  const POSTGRESQL := "postgresql"
  const SCHEME := POSTGRESQL + "+psycopg"
  const DEFAULT_PORT := 5432
  const DEFAULT := Endpoint("nexahr", "", "localhost", DEFAULT_PORT, "nexahr")

  function UserInfo(e: Endpoint): string {
    if e.password == "" then Quote(e.user) else Quote(e.user) + [':'] + Quote(e.password)
  }

  function Authority(e: Endpoint): string {
    UserInfo(e) + ['@'] + (e.host + [':'] + Decimal.IntToString(e.port))
  }

  /** Endpoint.url */
  function Print(e: Endpoint): string {
    SCHEME + "://" + Authority(e) + "/" + Quote(e.name)
  }

  function DropSlashes(s: string): string {
    if s != [] && s[0] == '/' then DropSlashes(s[1..]) else s
  }

  function Or(s: string, default: string): string {
    if s == "" then default else s
  }

  /** What each reader makes of the parts: the fields decoded, with its own defaults for what is
      missing. A port that is absent or zero is the default one. */
  datatype Reading = Reading(user: string, password: string, host: string, port: nat, name: string)

  function Read(p: Parts, port: Option<nat>, user: string, host: string, name: string): Reading {
    Reading(
      Unquote(Or(UserName(p.netloc), user)),
      Unquote(Password(p.netloc)),
      Or(HostName(p.netloc), host),
      if port.Some? && port.value != 0 then port.value else DEFAULT_PORT,
      Or(Unquote(DropSlashes(Or(p.path, "/"))), name))
  }

  predicate HasSubstring(s: string, t: string) {
    exists i :: 0 <= i <= |s| && StartsWith(s[i..], t)
  }

  /** Endpoint.parse. None says the text is no PostgreSQL address; a bad port counts as that too. */
  function Parse(url: string): Result<Option<Reading>, UrlError> {
    if url == "" || !HasSubstring(url, "://") then Ok(None)
    else
      match UrlSplit(url)
      case Err(e) => Err(e)
      case Ok(p) =>
        if !StartsWith(p.scheme, "postgres") then Ok(None)
        else if Port(p.netloc).Err? then Ok(None)
        else Ok(Some(Read(p, Port(p.netloc).value, "nexahr", "localhost", "nexahr")))
  }

  /** Target of the database script: other defaults, and a bad port or scheme is an error. */
  function ParseTarget(url: string): Result<Reading, UrlError> {
    match UrlSplit(ReplaceFirst(url, SCHEME + "://", POSTGRESQL + "://"))
    case Err(e) => Err(e)
    case Ok(p) =>
      if p.scheme != POSTGRESQL && p.scheme != "postgres" then Err(UnsupportedScheme)
      else if Port(p.netloc).Err? then Err(BadPort)
      else Ok(Read(p, Port(p.netloc).value, "postgres", "127.0.0.1", "postgres"))
  }

  // ----- what was printed is what is read -----

  predicate HostChars(h: string) {
    forall i :: 0 <= i < |h| ==> Alphanumeric(h[i]) || h[i] == '-' || h[i] == '.' || h[i] == '_'
  }

  predicate LowerCase(h: string) {
    forall i :: 0 <= i < |h| ==> !('A' <= h[i] <= 'Z')
  }

  function Fields(e: Endpoint): (r: Option<Reading>) {
    if e.port >= 0 then Some(Reading(e.user, e.password, e.host, e.port, e.name)) else None
  }

  /** Text made of characters that end neither an authority nor any part of one. */
  predicate Plain(s: string) {
    forall i :: 0 <= i < |s| ==>
      ' ' < s[i] < 127 as char && s[i] !in {':', '@', '/', '?', '#', '[', ']'}
  }

  lemma PortText(port: int)
    ensures Plain(Decimal.IntToString(port)) && Decimal.IntToString(port) != ""
    ensures var p := Decimal.IntToString(port);
            if port < 0 then !Decimal.AllDigits(p)
            else Decimal.AllDigits(p) && Decimal.StringToNat(p) == port
  {
    if port >= 0 {
      Decimal.NatRoundTrip(port);
    } else {
      assert Decimal.IntToString(port)[0] == '-';
    }
  }

  lemma HostReads(left: string, host: string, port: string)
    requires !Has(host, '@') && !Has(host, ':') && !Has(host, '%') && !Has(port, '@')
    ensures var n := left + ['@'] + (host + [':'] + port);
            && HostInfo(n) == host + [':'] + port && HostName(n) == Lower(host) && Rest(HostInfo(n), ':') == port
            && AfterLast(n, '@') == |left| + 1 && n[..|left|] == left
  {
    assert !Has(host + [':'] + port, '@') by {
      forall i | 0 <= i < |host + [':'] + port| ensures (host + [':'] + port)[i] != '@' {
        assert i < |host| ==> host[i] != '@';
        assert i > |host| ==> port[i - |host| - 1] != '@';
      }
    }
    RightPartition(left, '@', host + [':'] + port);
    Partition(host, ':', port);
    NoPartition(host, '%');
  }

  lemma UserReads(e: Endpoint)
    ensures Head(UserInfo(e), ':') == Quote(e.user) && Rest(UserInfo(e), ':') == Quote(e.password)
  {
    QuoteRoundTrip(e.user);
    if e.password == "" {
      NoPartition(Quote(e.user), ':');
    } else {
      Partition(Quote(e.user), ':', Quote(e.password));
    }
  }

  lemma AuthorityReads(e: Endpoint)
    requires HostChars(e.host)
    ensures var n := Authority(e);
            && UserName(n) == Quote(e.user) && Password(n) == Quote(e.password)
            && HostName(n) == Lower(e.host)
            && Port(n) == (if 0 <= e.port <= 65535 then Ok(Some(e.port)) else Err(BadPort))
  {
    PortText(e.port);
    HostReads(UserInfo(e), e.host, Decimal.IntToString(e.port));
    UserReads(e);
  }

  /** Characters that neither end an authority nor are dropped from a URL. */
  predicate AuthorityChars(s: string) {
    forall i :: 0 <= i < |s| ==>
      ' ' < s[i] < 127 as char && s[i] != '/' && s[i] != '?' && s[i] != '#' && s[i] != '[' && s[i] != ']'
  }

  predicate Printing(s: string) {
    forall i :: 0 <= i < |s| ==> ' ' < s[i] < 127 as char
  }

  lemma JoinClean(x: string, c: char, y: string)
    requires AuthorityChars(x) && AuthorityChars(y) && AuthorityChars([c])
    ensures AuthorityChars(x + [c] + y)
  {
  }

  lemma {:induction false} QuoteIsClean(s: ByteText)
    ensures AuthorityChars(Quote(s))
  {
    hide Quote;
    QuoteRoundTrip(s);
  }

  lemma PortIsClean(port: int)
    ensures AuthorityChars(Decimal.IntToString(port))
  {
  }

  lemma AuthorityIsClean(e: Endpoint)
    requires HostChars(e.host)
    ensures AuthorityChars(Authority(e))
  {
    QuoteIsClean(e.user);
    QuoteIsClean(e.password);
    PortIsClean(e.port);
    JoinClean(Quote(e.user), ':', Quote(e.password));
    JoinClean(e.host, ':', Decimal.IntToString(e.port));
    JoinClean(UserInfo(e), '@', e.host + [':'] + Decimal.IntToString(e.port));
  }

  lemma {:induction false} AuthorityEndsAt(authority: string, rest: string)
    requires AuthorityChars(authority) && rest != [] && rest[0] == '/'
    ensures AuthorityEnd(authority + rest) == |authority|
  {
    var k := AuthorityEnd(authority + rest);
    assert (authority + rest)[|authority|] == '/';
  }

  lemma SplitAuthorityReads(scheme: string, authority: string, path: string)
    requires AuthorityChars(authority)
    requires path != [] && path[0] == '/' && !Has(path, '#') && !Has(path, '?')
    ensures SplitAuthority(scheme, "//" + (authority + path)) == Ok(Parts(scheme, authority, path))
  {
    var rest := "//" + (authority + path);
    AuthorityEndsAt(authority, path);
    assert rest[2..] == authority + path;
    assert rest[2..2 + |authority|] == authority;
    assert rest[2 + |authority|..] == path;
    NoPartition(path, '#');
    NoPartition(path, '?');
  }

  predicate SchemeChars(s: string) {
    forall i :: 0 <= i < |s| ==> SchemeChar(s[i]) && !('A' <= s[i] <= 'Z')
  }

  predicate GoodScheme(s: string) {
    s != "" && 'a' <= s[0] <= 'z' && SchemeChars(s)
  }

  lemma SplitSchemeReads(scheme: string, rest: string)
    requires GoodScheme(scheme)
    ensures SplitScheme(scheme + [':'] + rest) == SplitAuthority(scheme, rest)
  {
    var u := scheme + [':'] + rest;
    Partition(scheme, ':', rest);
    assert u[..|scheme|] == scheme && u[|scheme| + 1..] == rest;
    assert HasScheme(u) by {
      forall j | 0 <= j < |scheme| ensures SchemeChar(u[j]) {
        assert u[j] == scheme[j];
      }
    }
    assert Lower(scheme) == scheme;
  }

  lemma SplitReads(scheme: string, authority: string, path: string)
    requires GoodScheme(scheme) && AuthorityChars(authority)
    requires path != [] && path[0] == '/' && Printing(path) && !Has(path, '#') && !Has(path, '?')
    ensures UrlSplit(scheme + [':'] + ("//" + (authority + path))) == Ok(Parts(scheme, authority, path))
  {
    var rest := "//" + (authority + path);
    assert Printing(rest);
    NothingToDrop(scheme + [':'] + rest);
    SplitSchemeReads(scheme, rest);
    SplitAuthorityReads(scheme, authority, path);
  }

  function Path(e: Endpoint): string {
    "/" + Quote(e.name)
  }

  lemma PathReads(e: Endpoint)
    ensures Path(e)[0] == '/' && Printing(Path(e)) && !Has(Path(e), '#') && !Has(Path(e), '?')
    ensures DropSlashes(Path(e)) == Quote(e.name) && Unquote(Quote(e.name)) == e.name
  {
    hide Quote, Unquote;
    QuoteRoundTrip(e.name);
    var q := Quote(e.name);
    assert Path(e)[1..] == q;
    assert DropSlashes(q) == q;
  }

  lemma {:induction false} UnquoteOfPlain(s: string)
    requires !Has(s, '%')
    ensures Unquote(s) == s
  {
    if s == [] {
    } else {
      UnquoteOfPlain(s[1..]);
    }
  }

  /** What any reader makes of a printed endpoint: the five fields, its defaults in place of an empty
      user, host or name, the host in lower case, and the default port in place of zero or none. */
  lemma PartsRead(e: Endpoint, scheme: string, netloc: string, port: Option<nat>, user: string, host: string, name: string)
    requires UserName(netloc) == Quote(e.user) && Password(netloc) == Quote(e.password)
    requires HostName(netloc) == Lower(e.host) && !Has(user, '%')
    ensures Read(Parts(scheme, netloc, Path(e)), port, user, host, name)
         == Reading(Or(e.user, user), e.password, Or(Lower(e.host), host),
                    if port == None || port == Some(0) then DEFAULT_PORT else port.value, Or(e.name, name))
  {
    QuoteRoundTrip(e.user);
    QuoteRoundTrip(e.password);
    UnquoteOfPlain(user);
    PathReads(e);
  }

  lemma SchemesAreGood()
    ensures GoodScheme(SCHEME) && GoodScheme(POSTGRESQL) && StartsWith(SCHEME, "postgres")
  {
  }

  lemma DefaultsArePlain()
    ensures !Has("nexahr", '%') && !Has("postgres", '%') && |"nexahr"| > 0 && |"localhost"| > 0
  {
  }

  lemma PrintShape(e: Endpoint)
    ensures Print(e) == SCHEME + [':'] + ("//" + (Authority(e) + Path(e)))
  {
  }

  lemma SchemePrints(scheme: string, rest: string)
    requires GoodScheme(scheme) && Printing(rest)
    ensures Printing(scheme + [':'] + ("//" + rest))
  {
  }

  /** Nothing in a printed endpoint is white space, so it survives stripping and splitting into lines. */
  lemma PrintedIsPrinting(e: Endpoint)
    requires HostChars(e.host)
    ensures Printing(Print(e)) && NoSpace(Print(e)) && Print(e) != ""
  {
    PrintShape(e);
    AuthorityIsClean(e);
    PathReads(e);
    SchemesAreGood();
    SchemePrints(SCHEME, Authority(e) + Path(e));
    PrintingHasNoSpace(Print(e));
  }

  lemma PrintingHasNoSpace(s: string)
    requires Printing(s)
    ensures NoSpace(s)
  {
  }

  lemma PrintedSplits(e: Endpoint, scheme: string)
    requires HostChars(e.host) && GoodScheme(scheme)
    ensures UrlSplit(scheme + [':'] + ("//" + (Authority(e) + Path(e)))) == Ok(Parts(scheme, Authority(e), Path(e)))
  {
    AuthorityIsClean(e);
    PathReads(e);
    SplitReads(scheme, Authority(e), Path(e));
  }

  lemma HasSeparator(scheme: string, rest: string)
    ensures HasSubstring(scheme + [':'] + ("//" + rest), "://")
  {
    var s := scheme + [':'] + ("//" + rest);
    assert s[|scheme|..][..3] == "://";
    assert StartsWith(s[|scheme|..], "://");
  }

  lemma ParsePrinted(e: Endpoint)
    requires HostChars(e.host)
    ensures Parse(Print(e)) == Ok(
              if 0 <= e.port <= 65535 then
                Some(Reading(Or(e.user, "nexahr"), e.password, Or(Lower(e.host), "localhost"),
                             if e.port == 0 then DEFAULT_PORT else e.port, Or(e.name, "nexahr")))
              else None)
  {
    PrintShape(e);
    SchemesAreGood();
    DefaultsArePlain();
    HasSeparator(SCHEME, Authority(e) + Path(e));
    PrintedSplits(e, SCHEME);
    AuthorityReads(e);
    if 0 <= e.port <= 65535 {
      PartsRead(e, SCHEME, Authority(e), Some(e.port), "nexahr", "localhost", "nexahr");
    }
  }

  /** Whatever the scheme, Endpoint.parse takes an address as PostgreSQL's exactly when its scheme begins with
      postgres and its port is in range; it then does not depend on the rest of the scheme. */
  lemma SchemeDecides(e: Endpoint, scheme: string)
    requires HostChars(e.host) && GoodScheme(scheme)
    ensures var url := scheme + [':'] + ("//" + (Authority(e) + Path(e)));
            && Parse(url).Ok?
            && (Parse(url).value.Some? <==> StartsWith(scheme, "postgres") && 0 <= e.port <= 65535)
            && (Parse(url).value.Some? ==> Parse(url) == Parse(Print(e)))
  {
    hide UrlSplit, Read, Port, Print, Authority, Path, HasSubstring, StartsWith, Or, GoodScheme, HostChars, UserName,
      Password, HostName, Quote;
    HasSeparator(scheme, Authority(e) + Path(e));
    PrintedSplits(e, scheme);
    AuthorityReads(e);
    ParsePrinted(e);
    DefaultsArePlain();
    if 0 <= e.port <= 65535 {
      PartsRead(e, scheme, Authority(e), Some(e.port), "nexahr", "localhost", "nexahr");
    }
  }

  /** Endpoint.parse gives back exactly the endpoint that was printed if, and only if, its user, host
      and name are not empty, its host is in lower case, and its port is between 1 and 65535. User,
      password and name may hold any bytes at all. */
  lemma ParseRoundTrip(e: Endpoint)
    requires HostChars(e.host)
    ensures Parse(Print(e)) == Ok(Fields(e)) && Fields(e).Some? <==>
            e.user != "" && e.host != "" && LowerCase(e.host) && e.name != "" && 1 <= e.port <= 65535
  {
    ParsePrinted(e);
    LowerIsIdentity(e.host);
    DefaultsArePlain();
  }

  lemma LowerIsIdentity(h: string)
    ensures Lower(h) == h <==> LowerCase(h)
    ensures Lower(h) == "" <==> h == ""
  {
  }

  lemma TargetPrinted(e: Endpoint)
    requires HostChars(e.host)
    ensures ParseTarget(Print(e)) ==
            if 0 <= e.port <= 65535 then
              Ok(Reading(Or(e.user, "postgres"), e.password, Or(Lower(e.host), "127.0.0.1"),
                         if e.port == 0 then DEFAULT_PORT else e.port, Or(e.name, "postgres")))
            else Err(BadPort)
  {
    SchemesAreGood();
    DefaultsArePlain();
    PrefixReplaced(e);
    PrintedSplits(e, POSTGRESQL);
    AuthorityReads(e);
    hide UrlSplit, Read, Port, Print;
    if 0 <= e.port <= 65535 {
      PartsRead(e, POSTGRESQL, Authority(e), Some(e.port), "postgres", "127.0.0.1", "postgres");
    }
  }

  lemma DefaultsDiffer()
    ensures "nexahr" != "postgres" && "localhost" != "127.0.0.1" && "postgres" != "" && "127.0.0.1" != ""
  {
    assert "nexahr"[0] != "postgres"[0] && "localhost"[0] != "127.0.0.1"[0];
  }

  /** The database script's reader gives back the same endpoint under exactly the same conditions. */
  lemma TargetRoundTrip(e: Endpoint)
    requires HostChars(e.host)
    ensures Fields(e).Some? && ParseTarget(Print(e)) == Ok(Fields(e).value) <==>
            e.user != "" && e.host != "" && LowerCase(e.host) && e.name != "" && 1 <= e.port <= 65535
  {
    TargetPrinted(e);
    LowerIsIdentity(e.host);
    DefaultsDiffer();
  }

  /** The two readers agree on a printed endpoint exactly when user, host and name are not empty, for there
      their defaults differ; on a port out of range neither gives anything. */
  lemma ReadersOfUrlAgree(e: Endpoint)
    requires HostChars(e.host)
    ensures if 0 <= e.port <= 65535 then
              ParseTarget(Print(e)).Ok? &&
              (Parse(Print(e)) == Ok(Some(ParseTarget(Print(e)).value)) <==> e.user != "" && e.host != "" && e.name != "")
            else Parse(Print(e)) == Ok(None) && ParseTarget(Print(e)) == Err(BadPort)
  {
    ParsePrinted(e);
    TargetPrinted(e);
    LowerIsIdentity(e.host);
    DefaultsDiffer();
  }

  lemma PrefixReplaced(e: Endpoint)
    ensures ReplaceFirst(Print(e), SCHEME + "://", POSTGRESQL + "://")
         == POSTGRESQL + [':'] + ("//" + (Authority(e) + Path(e)))
  {
    Replaced(Authority(e) + Path(e));
    PrintShape(e);
  }

  // ----- an address written without a port -----

  function BareAuthority(e: Endpoint): string {
    UserInfo(e) + ['@'] + e.host
  }

  /** The endpoint as someone writes it who leaves the port out. */
  function PrintBare(e: Endpoint): string {
    SCHEME + [':'] + ("//" + (BareAuthority(e) + Path(e)))
  }

  lemma BareHostReads(left: string, host: string)
    requires !Has(host, '@') && !Has(host, ':') && !Has(host, '%')
    ensures var n := left + ['@'] + host;
            && HostInfo(n) == host && HostName(n) == Lower(host) && Port(n) == Ok(None)
            && AfterLast(n, '@') == |left| + 1 && n[..|left|] == left
  {
    RightPartition(left, '@', host);
    NoPartition(host, ':');
    NoPartition(host, '%');
  }

  lemma BareAuthorityReads(e: Endpoint)
    requires HostChars(e.host)
    ensures var n := BareAuthority(e);
            && UserName(n) == Quote(e.user) && Password(n) == Quote(e.password)
            && HostName(n) == Lower(e.host) && Port(n) == Ok(None)
  {
    BareHostReads(UserInfo(e), e.host);
    UserReads(e);
    hide HostName, Port, UserInfo;
  }

  lemma BareAuthorityIsClean(e: Endpoint)
    requires HostChars(e.host)
    ensures AuthorityChars(BareAuthority(e))
  {
    QuoteIsClean(e.user);
    QuoteIsClean(e.password);
    JoinClean(Quote(e.user), ':', Quote(e.password));
    JoinClean(UserInfo(e), '@', e.host);
  }

  lemma BareSplits(e: Endpoint, scheme: string)
    requires HostChars(e.host) && GoodScheme(scheme)
    ensures UrlSplit(scheme + [':'] + ("//" + (BareAuthority(e) + Path(e)))) == Ok(Parts(scheme, BareAuthority(e), Path(e)))
  {
    BareAuthorityIsClean(e);
    PathReads(e);
    SplitReads(scheme, BareAuthority(e), Path(e));
  }

  lemma {:induction false} Replaced(rest: string)
    ensures ReplaceFirst(SCHEME + [':'] + ("//" + rest), SCHEME + "://", POSTGRESQL + "://")
         == POSTGRESQL + [':'] + ("//" + rest)
  {
    var s := SCHEME + [':'] + ("//" + rest);
    assert s == (SCHEME + "://") + rest;
    assert s[..|SCHEME + "://"|] == SCHEME + "://" && s[|SCHEME + "://"|..] == rest;
  }

  lemma PrefixOfBareReplaced(e: Endpoint)
    ensures ReplaceFirst(PrintBare(e), SCHEME + "://", POSTGRESQL + "://")
         == POSTGRESQL + [':'] + ("//" + (BareAuthority(e) + Path(e)))
  {
    Replaced(BareAuthority(e) + Path(e));
    assert PrintBare(e) == SCHEME + [':'] + ("//" + (BareAuthority(e) + Path(e)));
  }

  lemma ParseBare(e: Endpoint)
    requires HostChars(e.host)
    ensures Parse(PrintBare(e))
         == Ok(Some(Reading(Or(e.user, "nexahr"), e.password, Or(Lower(e.host), "localhost"), 5432, Or(e.name, "nexahr"))))
  {
    SchemesAreGood();
    DefaultsArePlain();
    BareAuthorityReads(e);
    HasSeparator(SCHEME, BareAuthority(e) + Path(e));
    BareSplits(e, SCHEME);
    hide UrlSplit, Read, Port, BareAuthority, Path;
    PartsRead(e, SCHEME, BareAuthority(e), None, "nexahr", "localhost", "nexahr");
  }

  lemma ParseTargetBare(e: Endpoint)
    requires HostChars(e.host)
    ensures ParseTarget(PrintBare(e))
         == Ok(Reading(Or(e.user, "postgres"), e.password, Or(Lower(e.host), "127.0.0.1"), 5432, Or(e.name, "postgres")))
  {
    SchemesAreGood();
    DefaultsArePlain();
    BareAuthorityReads(e);
    PrefixOfBareReplaced(e);
    BareSplits(e, POSTGRESQL);
    hide UrlSplit, Read, Port, PrintBare, BareAuthority, Path;
    PartsRead(e, POSTGRESQL, BareAuthority(e), None, "postgres", "127.0.0.1", "postgres");
  }

  /** With no port in the address, both readers of URLs take the usual port of PostgreSQL, and the rest as
      they do from any address. */
  lemma NoPortMeansUsual(e: Endpoint)
    requires HostChars(e.host)
    ensures Parse(PrintBare(e))
         == Ok(Some(Reading(Or(e.user, "nexahr"), e.password, Or(Lower(e.host), "localhost"), 5432, Or(e.name, "nexahr"))))
    ensures ParseTarget(PrintBare(e))
         == Ok(Reading(Or(e.user, "postgres"), e.password, Or(Lower(e.host), "127.0.0.1"), 5432, Or(e.name, "postgres")))
  {
    ParseBare(e);
    ParseTargetBare(e);
  }
}
