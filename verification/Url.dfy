/** URLs as the launcher and the scripts read and write them: percent-encoding (section 2.1 of
    RFC 3986) and urllib's urlsplit. Text is taken as UTF-8 bytes, one character a byte. */
module Url {
  import opened Wrappers
  import opened Text
  import Decimal

  type ByteText = s: string | forall i :: 0 <= i < |s| ==> s[i] < 256 as char

  predicate Alphanumeric(c: char) {
    'a' <= c <= 'z' || 'A' <= c <= 'Z' || '0' <= c <= '9'
  }

  predicate Unreserved(c: char) {
    Alphanumeric(c) || c == '-' || c == '.' || c == '_' || c == '~'
  }

  function HexChar(d: nat): (c: char)
    requires d < 16
    ensures IsHex(c) && HexValue(c) == d && Alphanumeric(c)
  {
    if d < 10 then '0' + d as char else 'A' + (d - 10) as char
  }

  predicate IsHex(c: char) {
    '0' <= c <= '9' || 'a' <= c <= 'f' || 'A' <= c <= 'F'
  }

  function HexValue(c: char): nat
    requires IsHex(c)
  {
    if c <= '9' then (c - '0') as nat else if c <= 'F' then 10 + (c - 'A') as nat else 10 + (c - 'a') as nat
  }

  /** quote(s, safe="") */
  function Quote(s: ByteText): string {
    if s == [] then []
    else
      (if Unreserved(s[0]) then [s[0]] else ['%', HexChar(s[0] as nat / 16), HexChar(s[0] as nat % 16)])
      + Quote(s[1..])
  }

  /** unquote(s): a percent sign without two hex digits after it stands for itself. */
  function Unquote(s: string): string {
    if s == [] then []
    else if |s| >= 3 && s[0] == '%' && IsHex(s[1]) && IsHex(s[2]) then
      [(16 * HexValue(s[1]) + HexValue(s[2])) as char] + Unquote(s[3..])
    else [s[0]] + Unquote(s[1..])
  }

  predicate Quoted(s: string) {
    forall i :: 0 <= i < |s| ==> Unreserved(s[i]) || s[i] == '%'
  }

  lemma {:induction false} QuoteRoundTrip(s: ByteText)
    ensures Unquote(Quote(s)) == s && Quoted(Quote(s)) && (Quote(s) == [] <==> s == [])
  {
    if s == [] {
    } else {
      QuoteRoundTrip(s[1..]);
      var q := Quote(s);
      if Unreserved(s[0]) {
        assert q[1..] == Quote(s[1..]);
      } else {
        assert q[3..] == Quote(s[1..]);
        assert 16 * (s[0] as nat / 16) + s[0] as nat % 16 == s[0] as nat;
      }
    }
  }

  // ----- urlsplit -----

  datatype Parts = Parts(scheme: string, netloc: string, path: string)

  datatype UrlError = BadBrackets | BadPort | UnsupportedScheme

  predicate SchemeChar(c: char) {
    Alphanumeric(c) || c == '+' || c == '-' || c == '.'
  }

  function DropControls(s: string): string {
    if s != [] && s[0] <= ' ' then DropControls(s[1..]) else s
  }

  function DropBreaks(s: string): string {
    if s == [] then []
    else (if s[0] == '\t' || s[0] == '\n' || s[0] == '\r' then [] else [s[0]]) + DropBreaks(s[1..])
  }

  lemma {:induction false} NothingToDrop(s: string)
    requires forall i :: 0 <= i < |s| ==> s[i] > ' '
    ensures DropControls(s) == s && DropBreaks(s) == s
  {
    if s == [] {
    } else {
      NothingToDrop(s[1..]);
    }
  }

  predicate HasScheme(url: string) {
    var i := IndexOf(url, ':');
    && 0 < i < |url| && ('a' <= LowerChar(url[0]) <= 'z')
    && forall j :: 0 <= j < i ==> SchemeChar(url[j])
  }

  /** Where the authority ends: at the first of / ? #. */
  function AuthorityEnd(s: string): (k: nat)
    ensures k <= |s|
    ensures forall i :: 0 <= i < k ==> s[i] != '/' && s[i] != '?' && s[i] != '#'
    ensures k < |s| ==> s[k] == '/' || s[k] == '?' || s[k] == '#'
  {
    if s == [] || s[0] == '/' || s[0] == '?' || s[0] == '#' then 0 else 1 + AuthorityEnd(s[1..])
  }

  function SplitAuthority(scheme: string, rest: string): Result<Parts, UrlError> {
    var k := if StartsWith(rest, "//") then 2 + AuthorityEnd(rest[2..]) else 0;
    var netloc := if k == 0 then "" else rest[2..k];
    if Has(netloc, '[') || Has(netloc, ']') then Err(BadBrackets)
    else Ok(Parts(scheme, netloc, Head(Head(rest[k..], '#'), '?')))
  }

  function SplitScheme(u: string): Result<Parts, UrlError> {
    var i := IndexOf(u, ':');
    if HasScheme(u) then SplitAuthority(Lower(u[..i]), u[i + 1..]) else SplitAuthority("", u)
  }

  /** urlsplit, keeping the parts the readers use. Authorities with brackets are not modelled: they
      count as an error. */
  function UrlSplit(url: string): Result<Parts, UrlError> {
    SplitScheme(DropBreaks(DropControls(url)))
  }

  /** user and password: the text before the last @, split at its first colon. */
  function UserName(netloc: string): string {
    var k := AfterLast(netloc, '@');
    if k == 0 then "" else Head(netloc[..k - 1], ':')
  }

  function Password(netloc: string): string {
    var k := AfterLast(netloc, '@');
    if k == 0 then "" else Rest(netloc[..k - 1], ':')
  }

  function HostInfo(netloc: string): string {
    netloc[AfterLast(netloc, '@')..]
  }

  /** The host in lower case, but for a zone after a percent sign. */
  function HostName(netloc: string): string {
    var h := Head(HostInfo(netloc), ':');
    var k := IndexOf(h, '%');
    Lower(h[..k]) + h[k..]
  }

  /** No port, a port in range, or an error. */
  function Port(netloc: string): Result<Option<nat>, UrlError> {
    var p := Rest(HostInfo(netloc), ':');
    if p == "" then Ok(None)
    else if !Decimal.AllDigits(p) then Err(BadPort)
    else if Decimal.StringToNat(p) > 65535 then Err(BadPort)
    else Ok(Some(Decimal.StringToNat(p)))
  }
}
