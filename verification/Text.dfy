/** Searching, splitting and stripping text, as Python's str methods do. */
module Text {

  predicate Has(s: string, c: char) {
    exists i :: 0 <= i < |s| && s[i] == c
  }

  /** Where c first stands, or the length. */
  function IndexOf(s: string, c: char): (k: nat)
    ensures k <= |s|
    ensures forall i :: 0 <= i < k ==> s[i] != c
    ensures k < |s| ==> s[k] == c
  {
    if s == [] || s[0] == c then 0 else 1 + IndexOf(s[1..], c)
  }

  /** The part before the first c (all of it if there is none), and the part after. */
  function Head(s: string, c: char): string {
    s[..IndexOf(s, c)]
  }

  function Rest(s: string, c: char): string {
    var k := IndexOf(s, c);
    if k < |s| then s[k + 1..] else ""
  }

  lemma {:induction false} Partition(x: string, c: char, y: string)
    requires !Has(x, c)
    ensures var s := x + [c] + y; Has(s, c) && IndexOf(s, c) == |x| && Head(s, c) == x && Rest(s, c) == y
  {
    var s := x + [c] + y;
    assert s[|x|] == c;
    var k := IndexOf(s, c);
  }

  lemma {:induction false} NoPartition(x: string, c: char)
    requires !Has(x, c)
    ensures IndexOf(x, c) == |x| && Head(x, c) == x && Rest(x, c) == ""
  {
  }

  /** Where the text after the last c starts; 0 if there is no c. */
  function AfterLast(s: string, c: char): (k: nat)
    ensures k <= |s|
    ensures forall i :: k <= i < |s| ==> s[i] != c
    ensures k > 0 ==> s[k - 1] == c
  {
    if s == [] then 0
    else if s[|s| - 1] == c then |s|
    else AfterLast(s[..|s| - 1], c)
  }

  lemma {:induction false} RightPartition(x: string, c: char, y: string)
    requires !Has(y, c)
    ensures var s := x + [c] + y; AfterLast(s, c) == |x| + 1 && s[..|x|] == x && s[|x| + 1..] == y
  {
    var s := x + [c] + y;
    var k := AfterLast(s, c);
    assert s[|x|] == c;
  }

  predicate StartsWith(s: string, p: string) {
    |p| <= |s| && s[..|p|] == p
  }

  /** s.replace(p, q, 1) */
  function ReplaceFirst(s: string, p: string, q: string): string {
    if StartsWith(s, p) then q + s[|p|..]
    else if s == [] then s
    else [s[0]] + ReplaceFirst(s[1..], p, q)
  }

  function LowerChar(c: char): char {
    if 'A' <= c <= 'Z' then 'a' + (c - 'A') else c
  }

  function Lower(s: string): (r: string)
    ensures |r| == |s| && forall i :: 0 <= i < |s| ==> r[i] == LowerChar(s[i])
  {
    seq(|s|, i requires 0 <= i < |s| => LowerChar(s[i]))
  }

  /** str.isspace, and the same class as \s in a regular expression. */
  predicate IsSpace(c: char) {
    IsBreak(c) || c == '\t' || c == 31 as char || c == ' ' || c == 160 as char || c == 0x1680 as char
    || 0x2000 as char <= c <= 0x200A as char || c == 0x202F as char || c == 0x205F as char || c == 0x3000 as char
  }

  /** The characters at which str.splitlines ends a line. */
  predicate IsBreak(c: char) {
    '\n' <= c <= '\r' || 28 as char <= c <= 30 as char || c == 133 as char || c == 0x2028 as char
    || c == 0x2029 as char
  }

  /** How many leading elements satisfy p. */
  function Span<T>(s: seq<T>, p: T -> bool): (k: nat)
    ensures k <= |s|
    ensures forall i :: 0 <= i < k ==> p(s[i])
    ensures k < |s| ==> !p(s[k])
  {
    if s == [] || !p(s[0]) then 0 else 1 + Span(s[1..], p)
  }

  /** Where the last white space begins. */
  function TextEnd(s: string): (k: nat)
    ensures k <= |s|
    ensures forall i :: k <= i < |s| ==> IsSpace(s[i])
    ensures k > 0 ==> !IsSpace(s[k - 1])
  {
    if s == [] || !IsSpace(s[|s| - 1]) then |s| else TextEnd(s[..|s| - 1])
  }

  /** Where the first white space ends. */
  function TextStart(s: string): (k: nat)
    ensures k <= |s|
    ensures forall i :: 0 <= i < k ==> IsSpace(s[i])
    ensures k < |s| ==> !IsSpace(s[k])
  {
    if s == [] || !IsSpace(s[0]) then 0 else 1 + TextStart(s[1..])
  }

  function Strip(s: string): string {
    if TextStart(s) < |s| then s[TextStart(s)..TextEnd(s)] else ""
  }

  /** Stripping is settled by where the first and the last other character are. */
  lemma {:induction false} StripIs(s: string, a: nat, b: nat)
    requires a < b <= |s| && !IsSpace(s[a]) && !IsSpace(s[b - 1])
    requires forall i :: 0 <= i < a || b <= i < |s| ==> IsSpace(s[i])
    ensures TextStart(s) == a && TextEnd(s) == b && Strip(s) == s[a..b]
  {
  }

  predicate NoSpace(s: string) {
    forall i :: 0 <= i < |s| ==> !IsSpace(s[i])
  }

  lemma StripOfNoSpace(s: string)
    requires NoSpace(s)
    ensures Strip(s) == s
  {
  }
}
