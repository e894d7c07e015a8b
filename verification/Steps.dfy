/** The third reader of the database address: two regular expressions over the settings file's text,
    written out as the searches they perform. Both are deterministic: each repeated group is followed
    by a character it cannot match, so backing up never helps. */
module Steps {
  import opened Wrappers
  import opened Text
  import opened Endpoint
  import EnvFile
  import Url
  import Decimal

  function SkipSpace(s: string): string {
    s[TextStart(s)..]
  }

  function TokenLength(s: string): (k: nat)
    ensures k <= |s|
    ensures forall i :: 0 <= i < k ==> !IsSpace(s[i])
    ensures k < |s| ==> IsSpace(s[k])
  {
    Span(s, c => !IsSpace(c))
  }

  /** \s*key\s*=\s*(\S+), matched from the start of s. */
  function UrlAt(s: string, key: string): Option<string> {
    var a := SkipSpace(s);
    if !StartsWith(a, key) then None else UrlAfterKey(a[|key|..])
  }

  function UrlAfterKey(s: string): Option<string> {
    var b := SkipSpace(s);
    if b == "" || b[0] != '=' then None
    else
      var c := SkipSpace(b[1..]);
      if c == "" then None else Some(c[..TokenLength(c)])
  }

  /** The leftmost match that starts a line. */
  function SearchUrl(s: string, key: string, lineStart: bool): Option<string>
    decreases |s|
  {
    if lineStart && UrlAt(s, key).Some? then UrlAt(s, key)
    else if s == "" then None
    else SearchUrl(s[1..], key, s[0] == '\n')
  }

  datatype HostPort = HostPort(host: string, port: nat)

  predicate HostChar(c: char) {
    c != '/' && c != ':' && c != '@'
  }

  function HostLength(s: string): (k: nat)
    ensures k <= |s|
    ensures forall i :: 0 <= i < k ==> HostChar(s[i])
    ensures k < |s| ==> !HostChar(s[k])
  {
    Span(s, HostChar)
  }

  function DigitLength(s: string): (k: nat)
    ensures k <= |s|
    ensures Decimal.AllDigits(s[..k])
    ensures k < |s| ==> !Decimal.IsDigit(s[k])
  {
    Span(s, Decimal.IsDigit)
  }

  /** @([^/:@]+)(?::(\d+))?/, matched from the start of s; no port means the usual one. */
  function HostPortAt(s: string): Option<HostPort> {
    if s == "" || s[0] != '@' then None
    else
      var t := s[1..];
      var k := HostLength(t);
      if k == 0 then None else PortAfter(t[..k], t[k..])
  }

  function PortAfter(host: string, s: string): Option<HostPort> {
    if s == "" then None
    else if s[0] == '/' then Some(HostPort(host, DEFAULT_PORT))
    else if s[0] != ':' then None
    else
      var k := DigitLength(s[1..]);
      if 0 < k && k + 1 < |s| && s[k + 1] == '/'
      then Some(HostPort(host, Decimal.StringToNat(s[1..][..k])))
      else None
  }

  function SearchHostPort(s: string): Option<HostPort> {
    if HostPortAt(s).Some? then HostPortAt(s)
    else if s == "" then None
    else SearchHostPort(s[1..])
  }

  const NOWHERE := HostPort("localhost", DEFAULT_PORT)

  /** database_endpoint */
  function DatabaseEndpoint(text: string): HostPort {
    match SearchUrl(text, EnvFile.DATABASE_URL, true)
    case None => NOWHERE
    case Some(url) => SearchHostPort(url).GetOr(NOWHERE)
  }

  // ----- the host and port of a printed endpoint -----

  lemma {:induction false} SearchSkips(x: string, rest: string)
    requires !Has(x, '@')
    ensures SearchHostPort(x + rest) == SearchHostPort(rest)
  {
    if x == "" {
      assert x + rest == rest;
    } else {
      assert x[0] != '@';
      assert (x + rest)[1..] == x[1..] + rest;
      SearchSkips(x[1..], rest);
    }
  }

  lemma HostLengthIs(host: string, rest: string)
    requires (forall i :: 0 <= i < |host| ==> HostChar(host[i])) && rest != "" && !HostChar(rest[0])
    ensures HostLength(host + rest) == |host|
  {
    var k := HostLength(host + rest);
    assert (host + rest)[|host|] == rest[0];
  }

  lemma PortReads(host: string, port: int, path: string)
    requires path != "" && path[0] == '/'
    ensures PortAfter(host, [':'] + (Decimal.IntToString(port) + path))
         == if port >= 0 then Some(HostPort(host, port)) else None
  {
    var p := Decimal.IntToString(port);
    var s := p + path;
    var k := DigitLength(s);
    assert ([':'] + s)[1..] == s;
    PortText(port);
    assert s[|p|] == '/';
    if port >= 0 {
      assert k == |p| && s[..k] == p;
      assert ([':'] + s)[k + 1] == '/';
    } else {
      assert s[0] == p[0] == '-';
      assert k == 0;
    }
  }

  lemma HostPortReads(host: string, port: int, path: string)
    requires HostChars(host) && path != "" && path[0] == '/'
    ensures var s := ['@'] + (host + ([':'] + (Decimal.IntToString(port) + path)));
            HostPortAt(s) == if host != "" && port >= 0 then Some(HostPort(host, port)) else None
  {
    var tail := [':'] + (Decimal.IntToString(port) + path);
    var s := ['@'] + (host + tail);
    assert s[1..] == host + tail;
    HostLengthIs(host, tail);
    assert (host + tail)[..|host|] == host && (host + tail)[|host|..] == tail;
    PortReads(host, port, path);
  }

  lemma PrintedParts(e: Endpoint)
    ensures Print(e) == (SCHEME + "://" + UserInfo(e))
                        + (['@'] + (e.host + ([':'] + (Decimal.IntToString(e.port) + Path(e)))))
  {
    Rebracketed(SCHEME, UserInfo(e), e.host, Decimal.IntToString(e.port), Url.Quote(e.name));
  }

  lemma Rebracketed(scheme: string, user: string, host: string, port: string, name: string)
    ensures scheme + "://" + (user + ['@'] + (host + [':'] + port)) + "/" + name
         == (scheme + "://" + user) + (['@'] + (host + ([':'] + (port + ("/" + name)))))
  {
  }

  lemma NoneIn(x: string, y: string, c: char)
    requires !Has(x, c) && !Has(y, c)
    ensures !Has(x + y, c)
  {
  }

  lemma NoAtBefore(e: Endpoint)
    ensures !Has(SCHEME + "://" + UserInfo(e), '@')
  {
    assert !Has(SCHEME + "://", '@');
    Url.QuoteRoundTrip(e.user);
    Url.QuoteRoundTrip(e.password);
    NoneIn(Url.Quote(e.user), [':'], '@');
    NoneIn(Url.Quote(e.user) + [':'], Url.Quote(e.password), '@');
    NoneIn(SCHEME + "://", UserInfo(e), '@');
  }

  lemma NoAtAfter(e: Endpoint)
    requires HostChars(e.host)
    ensures !Has(e.host + ([':'] + (Decimal.IntToString(e.port) + Path(e))), '@')
  {
    PortText(e.port);
    Url.QuoteRoundTrip(e.name);
    NoneIn("/", Url.Quote(e.name), '@');
    NoneIn(Decimal.IntToString(e.port), Path(e), '@');
    NoneIn([':'], Decimal.IntToString(e.port) + Path(e), '@');
    NoneIn(e.host, [':'] + (Decimal.IntToString(e.port) + Path(e)), '@');
  }

  lemma NothingInNothing()
    ensures SearchHostPort("") == None
  {
  }

  /** From a printed endpoint this reader finds the host and port it was printed with if, and only if,
      there is a host and the port is not negative. User, password and name make no difference. */
  lemma HostPortRoundTrip(e: Endpoint)
    requires HostChars(e.host)
    ensures SearchHostPort(Print(e)) == if e.host != "" && e.port >= 0 then Some(HostPort(e.host, e.port)) else None
  {
    hide Print, UserInfo, HostPortAt;
    PrintedParts(e);
    NoAtBefore(e);
    var tail := e.host + ([':'] + (Decimal.IntToString(e.port) + Path(e)));
    var s := ['@'] + tail;
    SearchSkips(SCHEME + "://" + UserInfo(e), s);
    HostPortReads(e.host, e.port, Path(e));
    NoAtAfter(e);
    assert s[1..] == tail && tail + "" == tail;
    SearchSkips(tail, "");
    NothingInNothing();
  }

  lemma BareHostReads(host: string, path: string)
    requires HostChars(host) && path != "" && path[0] == '/'
    ensures HostPortAt(['@'] + (host + path)) == if host != "" then Some(HostPort(host, 5432)) else None
  {
    var s := ['@'] + (host + path);
    assert s[1..] == host + path;
    HostLengthIs(host, path);
    assert (host + path)[..|host|] == host && (host + path)[|host|..] == path;
  }

  /** This reader, too, takes the usual port when the address has none. */
  lemma NoPortMeansUsualHere(e: Endpoint)
    requires HostChars(e.host)
    ensures SearchHostPort(PrintBare(e)) == if e.host != "" then Some(HostPort(e.host, 5432)) else None
  {
    var left, tail := SCHEME + "://" + UserInfo(e), e.host + Path(e);
    BareParts(SCHEME, UserInfo(e), e.host, Path(e));
    assert PrintBare(e) == left + (['@'] + tail);
    hide PrintBare, UserInfo, HostPortAt;
    NoAtBefore(e);
    SearchSkips(left, ['@'] + tail);
    BareHostReads(e.host, Path(e));
    Url.QuoteRoundTrip(e.name);
    NoneIn("/", Url.Quote(e.name), '@');
    NoneIn(e.host, Path(e), '@');
    assert (['@'] + tail)[1..] == tail && tail + "" == tail;
    SearchSkips(tail, "");
    NothingInNothing();
  }

  lemma BareParts(scheme: string, user: string, host: string, path: string)
    ensures scheme + [':'] + ("//" + ((user + ['@'] + host) + path)) == (scheme + "://" + user) + (['@'] + (host + path))
  {
  }

  // ----- finding the address in the file -----

  lemma SkipSpaceOver(line: string, rest: string)
    ensures SkipSpace(line + ['\n'] + rest)
         == if Strip(line) == "" then SkipSpace(rest) else SkipSpace(line) + ['\n'] + rest
    ensures Strip(line) != "" ==> SkipSpace(line) != ""
  {
    EnvFile.StripEnds(line);
    if Strip(line) == "" {
      StartAfterBlank(line, rest, TextStart(rest));
    } else {
      assert TextStart(line) < |line|;
      StartWithin(line, rest, TextStart(line));
    }
  }

  lemma StartAfterBlank(line: string, rest: string, k: nat)
    requires forall i :: 0 <= i < |line| ==> IsSpace(line[i])
    requires k <= |rest| && (forall i :: 0 <= i < k ==> IsSpace(rest[i])) && (k < |rest| ==> !IsSpace(rest[k]))
    ensures SkipSpace(line + ['\n'] + rest) == rest[k..]
  {
    var s := line + ['\n'] + rest;
    assert IsSpace('\n');
    StartIs(s, |line| + 1 + k);
  }

  lemma StartWithin(line: string, rest: string, k: nat)
    requires k < |line| && !IsSpace(line[k]) && forall i :: 0 <= i < k ==> IsSpace(line[i])
    ensures SkipSpace(line + ['\n'] + rest) == line[k..] + ['\n'] + rest
  {
    StartIs(line + ['\n'] + rest, k);
  }

  lemma {:induction false} StartIs(s: string, k: nat)
    requires k <= |s| && (forall i :: 0 <= i < k ==> IsSpace(s[i])) && (k < |s| ==> !IsSpace(s[k]))
    ensures TextStart(s) == k
  {
  }

  lemma {:induction false} SearchSkipsLine(line: string, rest: string, key: string)
    requires EnvFile.Unbroken(line)
    ensures SearchUrl(line + ['\n'] + rest, key, false) == SearchUrl(rest, key, true)
  {
    var s := line + ['\n'] + rest;
    if line == "" {
      assert s[1..] == rest;
    } else {
      assert s[1..] == line[1..] + ['\n'] + rest && s[0] == line[0] != '\n';
      SearchSkipsLine(line[1..], rest, key);
    }
  }

  lemma PrefixOfLine(a: string, rest: string, key: string)
    requires NoSpace(key)
    ensures StartsWith(a + ['\n'] + rest, key) <==> StartsWith(a, key)
  {
    var s := a + ['\n'] + rest;
    assert s[|a|] == '\n' && IsSpace('\n');
    assert |key| <= |a| ==> s[..|key|] == a[..|key|];
    assert |a| < |key| <= |s| ==> s[..|key|][|a|] == '\n';
  }

  /** A bare key, with text after it that lets it match: blank lines, then a line that starts with =. */
  predicate Completes(line: string, key: string, rest: string) {
    Strip(line) == key && StartsWith(SkipSpace(rest), "=")
  }

  /** What a setting's key must be for the searches below. */
  predicate Searchable(key: string) {
    EnvFile.GoodKey(key) && key != "" && NoSpace(key)
  }

  /** A line whose first word character starts left, then c: stripping leaves left, c, and the rest
      without its last white space. */
  lemma {:induction false} StripFrom(line: string, left: string, c: char, value: string)
    requires SkipSpace(line) == left + [c] + value && !IsSpace(c)
    ensures Strip(line) == left + [c] + value[..TextEnd(value)]
  {
    StripOfSkipped(line);
    StartsAtWord(line);
    assert SkipSpace(line)[0] == (left + [c] + value)[0];
    EnvFile.JoinedEnds(left, c, value, TextEnd(value));
  }

  lemma StartsAtWord(s: string)
    ensures SkipSpace(s) != "" ==> !IsSpace(SkipSpace(s)[0])
  {
  }

  /** White space at the start makes no difference. */
  lemma StripOfSkipped(s: string)
    ensures Strip(SkipSpace(s)) == Strip(s)
  {
  }

  lemma EqualsSets(line: string, key: string, gap: string, shown: string)
    requires Searchable(key) && (forall i :: 0 <= i < |gap| ==> IsSpace(gap[i]))
    requires Strip(line) == key + gap + ['='] + shown
    ensures EnvFile.Sets(line, key)
  {
    var left := key + gap;
    assert !Has(left, '=') by {
      assert !IsSpace('=');
    }
    Partition(left, '=', shown);
    StripIs(left, 0, |key|);
    EnvFile.NotComment(key);
    EnvFile.NotComment(left + ['='] + shown);
  }

  /** key, then white space, then =: stripped, that line sets the key. */
  lemma KeyThenEquals(line: string, key: string, gap: string, value: string)
    requires Searchable(key) && (forall i :: 0 <= i < |gap| ==> IsSpace(gap[i]))
    requires SkipSpace(line) == key + gap + ['='] + value
    ensures EnvFile.Sets(line, key)
  {
    StripFrom(line, key + gap, '=', value);
    EqualsSets(line, key, gap, value[..TextEnd(value)]);
  }

  lemma GapThenEquals(line: string, key: string, t: string)
    requires Searchable(key) && SkipSpace(line) == key + t
    requires SkipSpace(t) != "" && SkipSpace(t)[0] == '='
    ensures EnvFile.Sets(line, key)
  {
    var gap, u := t[..TextStart(t)], SkipSpace(t);
    assert key + t == key + gap + ['='] + u[1..];
    KeyThenEquals(line, key, gap, u[1..]);
  }

  lemma NeedsEquals(s: string)
    requires SkipSpace(s) == "" || SkipSpace(s)[0] != '='
    ensures UrlAfterKey(s) == None
  {
  }

  lemma NothingAfterKey(line: string, key: string, t: string, rest: string)
    requires Searchable(key) && SkipSpace(line) == key + t
    requires !EnvFile.Sets(line, key) && !Completes(line, key, rest)
    ensures UrlAfterKey(t + ['\n'] + rest) == None
  {
    var s := t + ['\n'] + rest;
    SkipSpaceOver(t, rest);
    if Strip(t) == "" {
      EnvFile.StripEnds(t);
      BareLine(line, key, t);
      EqualsFirst(SkipSpace(rest));
    } else {
      if SkipSpace(t)[0] == '=' {
        GapThenEquals(line, key, t);
      }
      assert SkipSpace(s)[0] == SkipSpace(t)[0];
    }
    NeedsEquals(s);
  }

  lemma KeyIsSearchable()
    ensures Searchable(EnvFile.DATABASE_URL)
  {
    EnvFile.KeyIsGood();
    assert EnvFile.DATABASE_URL[0] == 'D';
  }

  /** No match starts at a line that is not blank, does not set the key, and is not completed by the
      lines after it. */
  lemma NoMatchAt(line: string, rest: string, key: string)
    requires Searchable(key)
    requires Strip(line) != "" && !EnvFile.Sets(line, key) && !Completes(line, key, rest)
    ensures UrlAt(line + ['\n'] + rest, key) == None
  {
    SkipSpaceOver(line, rest);
    var a := SkipSpace(line);
    PrefixOfLine(a, rest, key);
    if StartsWith(a, key) {
      AfterPrefix(a, key, rest);
      NothingAfterKey(line, key, a[|key|..], rest);
    }
  }

  lemma AfterPrefix(a: string, key: string, rest: string)
    requires StartsWith(a, key)
    ensures a == key + a[|key|..] && (a + ['\n'] + rest)[|key|..] == a[|key|..] + ['\n'] + rest
  {
  }

  lemma EqualsFirst(s: string)
    ensures StartsWith(s, "=") <==> s != "" && s[0] == '='
  {
  }

  lemma BareLine(line: string, key: string, gap: string)
    requires key != "" && NoSpace(key) && (forall i :: 0 <= i < |gap| ==> IsSpace(gap[i]))
    requires SkipSpace(line) == key + gap
    ensures Strip(line) == key
  {
    var k := TextStart(line);
    assert line[k..k + |key|] == key;
    assert line[k + |key| - 1] == key[|key| - 1];
    forall i | k + |key| <= i < |line| ensures IsSpace(line[i]) {
      assert line[i] == line[k..][i - k] == gap[i - k - |key|];
    }
    StripIs(line, k, k + |key|);
  }

  lemma MatchAt(url: string, rest: string, key: string)
    requires NoSpace(url) && url != "" && Searchable(key)
    ensures UrlAt(EnvFile.Setting(key, url) + ['\n'] + rest, key) == Some(url)
  {
    var tail := url + (['\n'] + rest);
    assert !IsSpace(tail[0]);
    hide *;
    SettingThenBreak(key, url, rest);
    KeyAt(key, ['='] + tail);
    EqualsAt(tail);
    TokenAt(url, rest);
  }

  lemma SettingThenBreak(key: string, url: string, rest: string)
    ensures EnvFile.Setting(key, url) + ['\n'] + rest == key + (['='] + (url + (['\n'] + rest)))
  {
  }

  lemma KeyAt(key: string, t: string)
    requires Searchable(key)
    ensures UrlAt(key + t, key) == UrlAfterKey(t)
  {
  }

  lemma EqualsAt(tail: string)
    requires tail != "" && !IsSpace(tail[0])
    ensures UrlAfterKey(['='] + tail) == Some(tail[..TokenLength(tail)])
  {
  }

  lemma TokenAt(url: string, rest: string)
    requires NoSpace(url)
    ensures var tail := url + (['\n'] + rest); TokenLength(tail) == |url| && tail[..|url|] == url
  {
    var tail := url + (['\n'] + rest);
    var k := TokenLength(tail);
    assert tail[|url|] == '\n' && IsSpace('\n');
    assert forall i :: 0 <= i < |url| ==> tail[i] == url[i];
  }

  // ----- lines completed by later ones -----

  predicate CompletedAt(lines: seq<string>, i: nat, key: string)
    requires i < |lines|
  {
    Completes(lines[i], key, EnvFile.Written(lines[i + 1..]))
  }

  /** The first number below n that satisfies p, or n. */
  function First(n: nat, p: nat -> bool): (i: nat)
    ensures i <= n && (i < n ==> p(i))
    ensures forall j: nat :: j < i ==> !p(j)
  {
    if n == 0 then 0
    else
      var i := First(n - 1, p);
      if i < n - 1 || p(n - 1) then i else n
  }

  function CompletedIn(lines: seq<string>, key: string): nat -> bool {
    (i: nat) => i < |lines| && CompletedAt(lines, i, key)
  }

  /** The first of the first n lines that later lines complete, or n. */
  function FirstCompleted(lines: seq<string>, n: nat, key: string): (i: nat)
    ensures i <= n
  {
    First(n, CompletedIn(lines, key))
  }

  lemma FirstCompletedIs(lines: seq<string>, n: nat, key: string)
    requires n <= |lines|
    ensures var i := FirstCompleted(lines, n, key);
            (i < n ==> CompletedAt(lines, i, key)) && forall j: nat :: j < i ==> !CompletedAt(lines, j, key)
  {
    hide CompletedAt;
    var i := FirstCompleted(lines, n, key);
    assert i < n ==> CompletedIn(lines, key)(i);
    forall j: nat | j < i ensures !CompletedAt(lines, j, key) {
      assert !CompletedIn(lines, key)(j);
    }
  }

  /** At a completed line the match goes on with the lines after it. */
  lemma CompletedMatch(line: string, rest: string, key: string)
    requires Searchable(key) && Completes(line, key, rest)
    ensures UrlAt(line + ['\n'] + rest, key) == UrlAfterKey(rest)
  {
    hide UrlAfterKey;
    var a := SkipSpace(line);
    SkipSpaceOver(line, rest);
    BareShape(line, key);
    PrefixOfLine(a, rest, key);
    AfterPrefix(a, key, rest);
    var t := a[|key|..];
    BlankSkipped(t, rest);
  }

  lemma BareShape(line: string, key: string)
    requires key != "" && Strip(line) == key
    ensures var a := SkipSpace(line); StartsWith(a, key) && Strip(a[|key|..]) == ""
  {
    var k, b := TextStart(line), TextEnd(line);
    var a := SkipSpace(line);
    assert line[k..b] == key && a[..|key|] == key;
    var t := a[|key|..];
    forall i | 0 <= i < |t| ensures IsSpace(t[i]) {
      assert t[i] == line[b + i];
    }
    EnvFile.StripEnds(t);
  }

  lemma BlankSkipped(blank: string, rest: string)
    requires Strip(blank) == ""
    ensures UrlAfterKey(blank + ['\n'] + rest) == UrlAfterKey(rest)
  {
    SkipSpaceOver(blank, rest);
  }

  /** The search goes past a line that neither sets the key nor is completed by the lines after it. */
  lemma {:induction false} PassesLine(line: string, rest: string, key: string)
    requires EnvFile.Unbroken(line) && Searchable(key)
    requires !EnvFile.Sets(line, key) && !Completes(line, key, rest)
    ensures SearchUrl(line + ['\n'] + rest, key, true) == SearchUrl(rest, key, true)
  {
    SearchSkipsLine(line, rest, key);
    if Strip(line) == "" {
      SkipSpaceOver(line, rest);
    } else {
      NoMatchAt(line, rest, key);
    }
    hide Strip, SkipSpace, Completes, EnvFile.Sets, UrlAfterKey;
    SearchAtStart(line + ['\n'] + rest, key);
    SearchAtStart(rest, key);
  }

  lemma {:induction false} SearchAtStart(s: string, key: string)
    ensures SearchUrl(s, key, true) == if UrlAt(s, key).Some? then UrlAt(s, key) else SearchUrl(s, key, false)
  {
    hide UrlAt;
  }

  lemma CompletedInTail(lines: seq<string>, i: nat, key: string)
    requires i + 1 < |lines|
    ensures lines[1..][i] == lines[i + 1] && CompletedAt(lines[1..], i, key) == CompletedAt(lines, i + 1, key)
  {
    hide Completes;
    assert lines[1..][i + 1..] == lines[i + 2..];
  }

  /** When no line before line k sets the key or is completed by later lines, the search comes to line k. */
  lemma {:induction false} SearchReaches(lines: seq<string>, k: nat, key: string)
    requires EnvFile.AllUnbroken(lines) && k <= |lines| && Searchable(key)
    requires forall i: nat :: i < k ==> !EnvFile.Sets(lines[i], key) && !CompletedAt(lines, i, key)
    ensures SearchUrl(EnvFile.Written(lines), key, true) == SearchUrl(EnvFile.Written(lines[k..]), key, true)
  {
    if k == 0 {
      assert lines[0..] == lines;
    } else {
      assert !CompletedAt(lines, 0, key);
      PassesLine(lines[0], EnvFile.Written(lines[1..]), key);
      hide SearchUrl, CompletedAt, EnvFile.Sets, EnvFile.Unbroken, Searchable;
      assert lines[1..][k - 1..] == lines[k..];
      forall i: nat | i < k - 1 ensures !EnvFile.Sets(lines[1..][i], key) && !CompletedAt(lines[1..], i, key) {
        CompletedInTail(lines, i, key);
      }
      SearchReaches(lines[1..], k - 1, key);
    }
  }

  /** Every line stands somewhere in the text. */
  lemma {:induction false} WordsStay(lines: seq<string>, m: nat) returns (p: nat)
    requires m < |lines|
    ensures p + |lines[m]| <= |EnvFile.Written(lines)|
    ensures EnvFile.Written(lines)[p..p + |lines[m]|] == lines[m]
  {
    if m == 0 {
      p := 0;
    } else {
      var q := WordsStay(lines[1..], m - 1);
      var head, rest := lines[0] + ['\n'], EnvFile.Written(lines[1..]);
      p := |head| + q;
      assert EnvFile.Written(lines) == head + rest;
      assert (head + rest)[p..p + |lines[m]|] == rest[q..q + |lines[m]|];
    }
  }

  lemma TwoWords(s: string, i: nat, j: nat)
    requires i < j < |s| && !IsSpace(s[i]) && !IsSpace(s[j])
    requires StartsWith(SkipSpace(s), "=")
    ensures UrlAfterKey(s).Some?
  {
    var b := SkipSpace(s);
    EqualsFirst(b);
    var k := TextStart(s);
    assert k <= i;
    var c := b[1..];
    assert c[j - k - 1] == s[j];
    assert TextStart(c) < |c|;
  }

  /** A completed line has a value when a setting follows somewhere below it. */
  lemma {:induction false} CompletedHasValue(rest: seq<string>, m: nat, key: string, value: string)
    requires m < |rest| && rest[m] == EnvFile.Setting(key, value) && Searchable(key)
    requires StartsWith(SkipSpace(EnvFile.Written(rest)), "=")
    ensures UrlAfterKey(EnvFile.Written(rest)).Some?
  {
    hide *;
    var p := WordsStay(rest, m);
    var s := EnvFile.Written(rest);
    SettingAt(s, p, key, value);
    TwoWords(s, p, p + |key|);
  }

  lemma SettingAt(s: string, p: nat, key: string, value: string)
    requires Searchable(key) && p + |EnvFile.Setting(key, value)| <= |s|
    requires s[p..p + |EnvFile.Setting(key, value)|] == EnvFile.Setting(key, value)
    ensures p + |key| < |s| && key != "" && !IsSpace(s[p]) && !IsSpace(s[p + |key|])
  {
    var line := EnvFile.Setting(key, value);
    assert !IsSpace('=') && !IsSpace(key[0]);
    assert s[p] == s[p..p + |line|][0] == line[0] == key[0];
    assert s[p + |key|] == s[p..p + |line|][|key|] == line[|key|] == '=';
  }

  /** What the search takes from a file whose line k is the first to set the key: the value on that
      line, or, when a line above it is completed by later ones, the word after their =. */
  lemma {:induction false} SearchTakes(lines: seq<string>, k: nat, url: string, key: string)
    requires EnvFile.AllUnbroken(lines) && k < |lines| && NoSpace(url) && url != "" && Searchable(key)
    requires lines[k] == EnvFile.Setting(key, url)
    requires forall i :: 0 <= i < k ==> !EnvFile.Sets(lines[i], key)
    ensures var i := FirstCompleted(lines, k, key);
            && SearchUrl(EnvFile.Written(lines), key, true)
               == (if i == k then Some(url) else UrlAfterKey(EnvFile.Written(lines[i + 1..])))
            && (i < k ==> UrlAfterKey(EnvFile.Written(lines[i + 1..])).Some?)
  {
    FirstCompletedIs(lines, k, key);
    hide UrlAfterKey, UrlAt, FirstCompleted, CompletedIn;
    var i := FirstCompleted(lines, k, key);
    var line, rest := lines[i], EnvFile.Written(lines[i + 1..]);
    assert lines[i..][0] == line && lines[i..][1..] == lines[i + 1..];
    assert EnvFile.Written(lines[i..]) == line + ['\n'] + rest;
    if i == k {
      MatchAt(url, rest, key);
    } else {
      assert lines[i + 1..][k - i - 1] == lines[k];
      assert CompletedAt(lines, i, key);
      CompletedHasValue(lines[i + 1..], k - i - 1, key, url);
      CompletedMatch(line, rest, key);
    }
    SearchReaches(lines, i, key);
  }

  // ----- an applied endpoint -----

  /** The host and port on a completed line above the address, if there is one. */
  function Hidden(lines: seq<string>, k: nat): Option<HostPort>
    requires k <= |lines|
  {
    var i := FirstCompleted(lines, k, EnvFile.DATABASE_URL);
    if i == k then None
    else
      match UrlAfterKey(EnvFile.Written(lines[i + 1..]))
      case None => None
      case Some(word) => Some(SearchHostPort(word).GetOr(NOWHERE))
  }

  /** What this reader says after an endpoint is applied to any settings file. With no completed line
      above the address it is the endpoint's host and port, or nowhere if there is no host or the port
      is negative; else it is what the completed line gives. So it is the applied host and port exactly
      when no line above is completed, or the completed one happens to give the same. */
  lemma AppliedIsFound(lines: seq<string>, e: Endpoint)
    requires EnvFile.AllUnbroken(lines) && HostChars(e.host)
    ensures var k := EnvFile.Find(lines, EnvFile.DATABASE_URL);
            var after := EnvFile.WriteKey(lines, EnvFile.DATABASE_URL, Print(e));
            var got := DatabaseEndpoint(EnvFile.Written(after));
            && (Hidden(after, k).None? <==> FirstCompleted(after, k, EnvFile.DATABASE_URL) == k)
            && got == Hidden(after, k).GetOr(if e.host != "" && e.port >= 0 then HostPort(e.host, e.port) else NOWHERE)
            && (e.host != "" && e.port >= 0 ==>
                  (got == HostPort(e.host, e.port) <==>
                   Hidden(after, k).None? || Hidden(after, k) == Some(HostPort(e.host, e.port))))
  {
    var key := EnvFile.DATABASE_URL;
    var k := EnvFile.Find(lines, key);
    var after := EnvFile.WriteKey(lines, key, Print(e));
    hide Hidden, DatabaseEndpoint, Print, SearchHostPort, FirstCompleted, EnvFile.Written, EnvFile.Find, EnvFile.Setting;
    EnvFile.KeyIsGood();
    PrintedIsPrinting(e);
    EnvFile.RewrittenIs(lines, key, Print(e));
    EnvFile.FindIs(lines, key, k);
    AddressTakes(after, k, Print(e));
    HostPortRoundTrip(e);
  }

  lemma {:induction false} AddressTakes(lines: seq<string>, k: nat, url: string)
    requires EnvFile.AllUnbroken(lines) && k < |lines| && NoSpace(url) && url != ""
    requires lines[k] == EnvFile.Setting(EnvFile.DATABASE_URL, url)
    requires forall i :: 0 <= i < k ==> !EnvFile.Sets(lines[i], EnvFile.DATABASE_URL)
    ensures Hidden(lines, k).None? <==> FirstCompleted(lines, k, EnvFile.DATABASE_URL) == k
    ensures DatabaseEndpoint(EnvFile.Written(lines)) == Hidden(lines, k).GetOr(SearchHostPort(url).GetOr(NOWHERE))
  {
    KeyIsSearchable();
    hide UrlAfterKey, SearchUrl, SearchHostPort;
    SearchTakes(lines, k, url, EnvFile.DATABASE_URL);
  }

  lemma MatchAcrossLines(rest: string, key: string)
    requires Searchable(key)
    ensures UrlAt(key + ['\n'] + ("=x" + ['\n'] + rest), key) == Some("x")
  {
    var tail := "x" + (['\n'] + rest);
    assert NoSpace("x") && !IsSpace('x');
    hide *;
    Reassociate(key, rest);
    KeyAt(key, ['\n'] + (['='] + tail));
    BreakSkipped(tail);
    EqualsAt(tail);
    TokenAt("x", rest);
  }

  lemma Reassociate(key: string, rest: string)
    ensures key + ['\n'] + ("=x" + ['\n'] + rest) == key + (['\n'] + (['='] + ("x" + (['\n'] + rest))))
  {
  }

  lemma BreakSkipped(tail: string)
    ensures UrlAfterKey(['\n'] + (['='] + tail)) == UrlAfterKey(['='] + tail)
  {
  }

  lemma NoSettingYet()
    ensures EnvFile.Find([EnvFile.DATABASE_URL, "=x"], EnvFile.DATABASE_URL) == 2
  {
    var key := EnvFile.DATABASE_URL;
    EnvFile.KeyIsGood();
    StripOfNoSpace("=x");
    assert Head("=x", '=') == "";
    assert Strip("") == "";
    assert !EnvFile.Sets(key, key) && !EnvFile.Sets("=x", key);
    EnvFile.FindIs([key, "=x"], key, 2);
  }

  /** Once an endpoint that survives the URL is applied, the launcher's reader and the script's agree on
      it, and this reader joins them exactly when no completed line above the address says otherwise. */
  lemma ReadersAgree(lines: seq<string>, e: Endpoint)
    requires EnvFile.AllUnbroken(lines) && HostChars(e.host) && LowerCase(e.host)
    requires e.user != "" && e.host != "" && e.name != "" && 1 <= e.port <= 65535
    ensures var k := EnvFile.Find(lines, EnvFile.DATABASE_URL);
            var after := EnvFile.WriteKey(lines, EnvFile.DATABASE_URL, Print(e));
            var read := EnvFile.SplitLines(EnvFile.Written(after));
            var r := Reading(e.user, e.password, e.host, e.port, e.name);
            && EnvFile.Current(read) == Ok(r)
            && ParseTarget(EnvFile.ReadKey(read, EnvFile.DATABASE_URL)) == Ok(r)
            && (DatabaseEndpoint(EnvFile.Written(after)) == HostPort(r.host, r.port) <==>
                Hidden(after, k).None? || Hidden(after, k) == Some(HostPort(r.host, r.port)))
  {
    hide Hidden, DatabaseEndpoint, EnvFile.WriteKey, EnvFile.Written;
    EnvFile.KeyIsGood();
    PrintedIsPrinting(e);
    StripOfNoSpace(Print(e));
    EnvFile.WriteMeans(lines, EnvFile.DATABASE_URL, Print(e), EnvFile.DATABASE_URL);
    EnvFile.ApplyThenCurrent(lines, e);
    TargetRoundTrip(e);
    AppliedIsFound(lines, e);
  }

  lemma {:induction false} HiddenByMatch(line: string, key: string)
    requires Searchable(key)
    ensures SearchUrl(EnvFile.Written([key, "=x", line]), key, true) == Some("x")
  {
    var rest := EnvFile.Written([line]);
    assert [key, "=x", line][1..] == ["=x", line] && ["=x", line][1..] == [line];
    assert EnvFile.Written(["=x", line]) == "=x" + ['\n'] + rest;
    MatchAcrossLines(rest, key);
  }

  lemma NoHostInX()
    ensures SearchHostPort("x") == None
  {
  }

  lemma ThreeLines(key: string, value: string)
    requires EnvFile.Find([key, "=x"], key) == 2
    ensures EnvFile.WriteKey([key, "=x"], key, value) == [key, "=x", EnvFile.Setting(key, value)]
  {
  }

  /** The exception is real: in this file the applied endpoint is the current one for the launcher, yet
      this reader does not see it, whatever the endpoint. */
  lemma CompletedLineHides(e: Endpoint)
    requires HostChars(e.host)
    ensures var key := EnvFile.DATABASE_URL;
            var after := EnvFile.WriteKey([key, "=x"], key, Print(e));
            EnvFile.ReadKey(after, key) == Print(e) && DatabaseEndpoint(EnvFile.Written(after)) == NOWHERE
  {
    var key := EnvFile.DATABASE_URL;
    EnvFile.KeyIsGood();
    KeyIsSearchable();
    NoSettingYet();
    ThreeLines(key, Print(e));
    PrintedIsPrinting(e);
    StripOfNoSpace(Print(e));
    EnvFile.WrittenReads([key, "=x"], key, Print(e));
    HiddenByMatch(EnvFile.Setting(key, Print(e)), key);
    NoHostInX();
  }
}
