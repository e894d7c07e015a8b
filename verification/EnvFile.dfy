/** The launcher's settings file: one key=value line per setting, read by a scan and rewritten with one
    line changed. Text is as Python holds it, with every line ending already turned into '\n'. */
module EnvFile {
  import opened Wrappers
  import opened Text
  import opened Url
  import opened Endpoint

  const DATABASE_URL := "DATABASE_URL"

  predicate Unbroken(s: string) {
    forall i :: 0 <= i < |s| ==> !IsBreak(s[i])
  }

  predicate AllUnbroken(lines: seq<string>) {
    forall i :: 0 <= i < |lines| ==> Unbroken(lines[i])
  }

  function LineLength(s: string): (k: nat)
    ensures k <= |s| && Unbroken(s[..k]) && (k < |s| ==> IsBreak(s[k]))
  {
    Span(s, c => !IsBreak(c))
  }

  /** str.splitlines */
  function SplitLines(s: string): (lines: seq<string>)
    ensures AllUnbroken(lines)
    decreases |s|
  {
    var k := LineLength(s);
    if s == [] then []
    else if k == |s| then [s]
    else [s[..k]] + SplitLines(s[k + 1..])
  }

  /** The lines joined by '\n', and a last '\n'. */
  function Written(lines: seq<string>): string {
    if lines == [] then "" else lines[0] + ['\n'] + Written(lines[1..])
  }

  /** What the file is written with is what the next reader splits it into. */
  lemma {:induction false} WrittenSplits(lines: seq<string>)
    requires AllUnbroken(lines)
    ensures SplitLines(Written(lines)) == lines
  {
    if lines == [] {
    } else {
      WrittenSplits(lines[1..]);
      var s := Written(lines);
      assert s[|lines[0]|] == '\n';
      assert LineLength(s) == |lines[0]|;
      assert s[..|lines[0]|] == lines[0] && s[|lines[0]| + 1..] == Written(lines[1..]);
    }
  }

  // ----- one line -----

  /** The line gives the key a value: it is no comment, and what stands before its first = is the key. */
  predicate Sets(line: string, key: string) {
    var s := Strip(line);
    !StartsWith(s, "#") && Has(s, '=') && Strip(Head(s, '=')) == key
  }

  function ValueOf(line: string): string {
    Strip(Rest(Strip(line), '='))
  }

  function Setting(key: string, value: string): string {
    key + ['='] + value
  }

  /** The keys a line can name at all. */
  predicate GoodKey(key: string) {
    Strip(key) == key && Unbroken(key) && !Has(key, '=') && !StartsWith(key, "#")
  }

  lemma StripEnds(s: string)
    ensures var t := Strip(s); t == [] || (!IsSpace(t[0]) && !IsSpace(t[|t| - 1]))
    ensures Unbroken(s) ==> Unbroken(Strip(s))
    ensures (forall i :: 0 <= i < |s| ==> IsSpace(s[i])) <==> Strip(s) == []
  {
  }

  lemma StripTwice(s: string)
    ensures Strip(Strip(s)) == Strip(s)
  {
    StripEnds(s);
    StripOfStripped(Strip(s));
  }

  lemma StripOfStripped(t: string)
    requires t == [] || (!IsSpace(t[0]) && !IsSpace(t[|t| - 1]))
    ensures Strip(t) == t
  {
    if t != [] {
      StripIs(t, 0, |t|);
      assert t[0..|t|] == t;
    }
  }

  /** White space at the end makes no difference. */
  lemma {:induction false} StripOfPrefix(s: string)
    ensures Strip(s[..TextEnd(s)]) == Strip(s)
  {
    var a, b := TextStart(s), TextEnd(s);
    if a < |s| {
      assert a < b;
      StripIs(s[..b], a, b);
      assert s[..b][a..b] == s[a..b];
    } else {
      assert b == 0;
    }
  }

  lemma {:induction false} StripJoin(x: string, c: char, y: string)
    requires Strip(x) == x && !IsSpace(c)
    ensures Strip(x + [c] + y) == x + [c] + y[..TextEnd(y)]
  {
    StripEnds(x);
    JoinedEnds(x, c, y, TextEnd(y));
  }

  lemma JoinedEnds(x: string, c: char, y: string, k: nat)
    requires (x == [] || !IsSpace(x[0])) && !IsSpace(c)
    requires k <= |y| && (k > 0 ==> !IsSpace(y[k - 1])) && forall i :: k <= i < |y| ==> IsSpace(y[i])
    ensures Strip(x + [c] + y) == x + [c] + y[..k]
  {
    var s, b := x + [c] + y, |x| + 1 + k;
    assert s[..b] == x + [c] + y[..k];
    StripIs(s, 0, b);
  }

  lemma NotComment(s: string)
    ensures StartsWith(s, "#") <==> s != [] && s[0] == '#'
  {
  }

  /** A written line reads back as it was meant: it names the key and holds the value. */
  lemma SettingReads(key: string, value: string)
    requires GoodKey(key)
    ensures Sets(Setting(key, value), key) && ValueOf(Setting(key, value)) == Strip(value)
  {
    var v := value[..TextEnd(value)];
    StripJoin(key, '=', value);
    Partition(key, '=', v);
    StripOfPrefix(value);
    NotComment(key);
    NotComment(key + ['='] + v);
  }

  lemma OnlyGoodKeysAreSet(line: string, key: string)
    requires Unbroken(line) && Sets(line, key)
    ensures GoodKey(key)
  {
    var s := Strip(line);
    StripEnds(line);
    HeadShape(s);
    var h := Head(s, '=');
    StripEnds(h);
    StripTwice(h);
    NotComment(s);
    NotComment(key);
  }

  /** What stands before the = of a stripped line has no = in it, and starts as the line does. */
  lemma HeadShape(s: string)
    requires s == [] || !IsSpace(s[0])
    ensures var h := Head(s, '=');
            && !Has(Strip(h), '=') && (Unbroken(s) ==> Unbroken(h))
            && (Strip(h) != [] ==> s != [] && Strip(h)[0] == s[0])
  {
  }

  // ----- the whole file -----

  function Find(lines: seq<string>, key: string): (k: nat)
    ensures k <= |lines|
  {
    Span(lines, Misses(key))
  }

  function Misses(key: string): string -> bool {
    line => !Sets(line, key)
  }

  function ReadKey(lines: seq<string>, key: string): string {
    var k := Find(lines, key);
    if k < |lines| then ValueOf(lines[k]) else ""
  }

  /** The sequence with x in place of the element at k, or at the end if there is none. */
  function Put<T>(s: seq<T>, k: nat, x: T): seq<T>
    requires k <= |s|
  {
    if k < |s| then s[k := x] else s + [x]
  }

  function WriteKey(lines: seq<string>, key: string, value: string): seq<string> {
    Put(lines, Find(lines, key), Setting(key, value))
  }

  lemma {:induction false} SpanIs<T>(s: seq<T>, p: T -> bool, k: nat)
    requires k <= |s| && (forall i :: 0 <= i < k ==> p(s[i])) && (k < |s| ==> !p(s[k]))
    ensures Span(s, p) == k
  {
  }

  lemma {:induction false} PutKeepsPlace<T>(s: seq<T>, p: T -> bool, x: T)
    requires !p(x)
    ensures Span(Put(s, Span(s, p), x), p) == Span(s, p)
  {
    SpanIs(Put(s, Span(s, p), x), p, Span(s, p));
  }

  /** Putting in x moves no search that x and what it replaces both leave alone. */
  lemma {:induction false} PutKeepsOthers<T>(s: seq<T>, q: T -> bool, k: nat, x: T)
    requires k <= |s| && q(x) && (k < |s| ==> q(s[k]))
    ensures Span(Put(s, k, x), q) == if Span(s, q) < |s| then Span(s, q) else |Put(s, k, x)|
  {
    SpanIs(Put(s, k, x), q, if Span(s, q) < |s| then Span(s, q) else |Put(s, k, x)|);
  }

  lemma SetsOneKey(line: string, key: string, other: string)
    requires Sets(line, key) && other != key
    ensures !Sets(line, other)
  {
  }

  /** The file after a write, as its next reader sees it. */
  function Rewritten(lines: seq<string>, key: string, value: string): seq<string> {
    SplitLines(Written(WriteKey(lines, key, value)))
  }

  lemma RewrittenIs(lines: seq<string>, key: string, value: string)
    requires AllUnbroken(lines) && Unbroken(key) && Unbroken(value)
    ensures Rewritten(lines, key, value) == WriteKey(lines, key, value)
    ensures AllUnbroken(WriteKey(lines, key, value))
  {
    assert Unbroken(Setting(key, value));
    WrittenSplits(WriteKey(lines, key, value));
  }

  lemma FindIs(lines: seq<string>, key: string, k: nat)
    ensures k == Find(lines, key) <==>
            && k <= |lines| && (k < |lines| ==> Sets(lines[k], key))
            && (forall i :: 0 <= i < k ==> !Sets(lines[i], key))
  {
  }

  lemma WrittenReads(lines: seq<string>, key: string, value: string)
    requires GoodKey(key)
    ensures ReadKey(WriteKey(lines, key, value), key) == Strip(value)
    ensures Find(WriteKey(lines, key, value), key) == Find(lines, key)
  {
    SettingReads(key, value);
    PutKeepsPlace(lines, Misses(key), Setting(key, value));
  }

  lemma OthersRead(lines: seq<string>, key: string, value: string, other: string)
    requires GoodKey(key) && other != key
    ensures ReadKey(WriteKey(lines, key, value), other) == ReadKey(lines, other)
  {
    SettingReads(key, value);
    var k := Find(lines, key);
    SetsOneKey(Setting(key, value), key, other);
    if k < |lines| {
      assert !Misses(key)(lines[k]);
      SetsOneKey(lines[k], key, other);
    }
    PutKeepsOthers(lines, Misses(other), k, Setting(key, value));
    assert Find(lines, other) < |lines| ==> !Misses(other)(lines[Find(lines, other)]);
  }

  /** After a write the key reads as the stripped value, every other key reads as before, every other
      line is the one it was, and writing the same again changes nothing. */
  lemma WriteMeans(lines: seq<string>, key: string, value: string, other: string)
    requires AllUnbroken(lines) && GoodKey(key) && Unbroken(value)
    ensures var after := Rewritten(lines, key, value);
            && ReadKey(after, key) == Strip(value)
            && (other != key ==> ReadKey(after, other) == ReadKey(lines, other))
            && |lines| <= |after| <= |lines| + 1
            && (forall i :: 0 <= i < |lines| && i != Find(lines, key) ==> after[i] == lines[i])
            && Written(WriteKey(after, key, value)) == Written(WriteKey(lines, key, value))
  {
    hide ReadKey, Written, SplitLines, Setting, Find;
    RewrittenIs(lines, key, value);
    WrittenReads(lines, key, value);
    if other != key {
      OthersRead(lines, key, value, other);
    }
    assert WriteKey(WriteKey(lines, key, value), key, value) == WriteKey(lines, key, value);
  }

  lemma FindStep(lines: seq<string>, key: string, i: nat)
    requires i <= Find(lines, key) && i < |lines|
    ensures Find(lines, key) == i <==> Sets(lines[i], key)
  {
  }

  /** Which keys can be stored: exactly the stripped ones with no = in them that are no comment. For
      any other key nothing is ever read back. */
  lemma ReadableKeys(lines: seq<string>, key: string, value: string)
    requires AllUnbroken(lines) && Unbroken(value) && Strip(value) != ""
    ensures ReadKey(Rewritten(lines, key, value), key) == Strip(value) <==> GoodKey(key)
  {
    if GoodKey(key) {
      WriteMeans(lines, key, value, key);
    } else {
      var after := Rewritten(lines, key, value);
      var k := Find(after, key);
      FindIs(after, key, k);
      if k < |after| {
        OnlyGoodKeysAreSet(after[k], key);
      }
    }
  }

  // ----- any run of writes -----

  datatype Assignment = Assignment(key: string, value: string)

  predicate Writable(a: Assignment) {
    GoodKey(a.key) && Unbroken(a.value)
  }

  function AfterWrites(lines: seq<string>, run: seq<Assignment>): seq<string> {
    if run == [] then lines
    else
      var before := AfterWrites(lines, run[..|run| - 1]);
      Rewritten(before, run[|run| - 1].key, run[|run| - 1].value)
  }

  /** The last value given to the key, if any was. */
  function LastValue(run: seq<Assignment>, key: string): Option<string> {
    if run == [] then None
    else if run[|run| - 1].key == key then Some(run[|run| - 1].value)
    else LastValue(run[..|run| - 1], key)
  }

  /** Over any run of writes the file behaves as a map: each key reads as the last value written to
      it, and as at the start if none was. Lines that set none of the written keys stay in place. */
  lemma {:induction false} FileIsAMap(lines: seq<string>, run: seq<Assignment>, key: string)
    requires AllUnbroken(lines) && forall i :: 0 <= i < |run| ==> Writable(run[i])
    ensures AllUnbroken(AfterWrites(lines, run)) && |lines| <= |AfterWrites(lines, run)|
    ensures ReadKey(AfterWrites(lines, run), key)
         == (var v := LastValue(run, key); if v.Some? then Strip(v.value) else ReadKey(lines, key))
    ensures forall i :: 0 <= i < |lines| && (forall j :: 0 <= j < |run| ==> !Sets(lines[i], run[j].key)) ==>
              AfterWrites(lines, run)[i] == lines[i]
  {
    if run == [] {
    } else {
      var earlier, a := run[..|run| - 1], run[|run| - 1];
      FileIsAMap(lines, earlier, key);
      var before := AfterWrites(lines, earlier);
      WriteMeans(before, a.key, a.value, key);
      forall i | 0 <= i < |lines| && (forall j :: 0 <= j < |run| ==> !Sets(lines[i], run[j].key))
        ensures AfterWrites(lines, run)[i] == lines[i]
      {
        assert forall j :: 0 <= j < |earlier| ==> earlier[j] == run[j];
        assert before[i] == lines[i] && a == run[|run| - 1];
        FindIs(before, a.key, Find(before, a.key));
      }
    }
  }

  // ----- the database address -----

  const DEFAULTS := Reading(DEFAULT.user, DEFAULT.password, DEFAULT.host, DEFAULT_PORT, DEFAULT.name)

  function Current(lines: seq<string>): Result<Reading, UrlError> {
    match Parse(ReadKey(lines, DATABASE_URL))
    case Ok(Some(r)) => Ok(r)
    case Ok(None) => Ok(DEFAULTS)
    case Err(e) => Err(e)
  }

  lemma KeyIsGood()
    ensures GoodKey(DATABASE_URL) && NoSpace(DATABASE_URL)
  {
    assert NoSpace(DATABASE_URL);
    StripOfNoSpace(DATABASE_URL);
  }

  /** Whatever the file held, the endpoint that was applied is the current one if, and only if, it
      survives the URL: user, host and name not empty, host in lower case, port in 1..65535. */
  lemma ApplyThenCurrent(lines: seq<string>, e: Endpoint)
    requires AllUnbroken(lines) && HostChars(e.host)
    ensures var now := Current(Rewritten(lines, DATABASE_URL, Print(e)));
            now.Ok? && (Some(now.value) == Fields(e) <==>
              e.user != "" && e.host != "" && LowerCase(e.host) && e.name != "" && 1 <= e.port <= 65535)
  {
    KeyIsGood();
    PrintedIsPrinting(e);
    StripOfNoSpace(Print(e));
    WriteMeans(lines, DATABASE_URL, Print(e), DATABASE_URL);
    ParsePrinted(e);
    ParseRoundTrip(e);
  }

  class EnvFile {
    /** The file's text, if there is a file. */
    var content: Option<string>

    constructor (content: Option<string>)
      ensures this.content == content
    {
      this.content := content;
    }

    function Lines(): (lines: seq<string>)
      reads this
      ensures AllUnbroken(lines)
    {
      if content.Some? then SplitLines(content.value) else []
    }

    method ReadSetting(key: string) returns (value: string)
      ensures value == ReadKey(Lines(), key)
    {
      if content.None? {
        return "";
      }
      var lines := SplitLines(content.value);
      for i := 0 to |lines|
        invariant i <= Find(lines, key)
      {
        FindStep(lines, key, i);
        var stripped := Strip(lines[i]);
        if !StartsWith(stripped, "#") {
          if Has(stripped, '=') && Strip(Head(stripped, '=')) == key {
            return Strip(Rest(stripped, '='));
          }
        }
      }
      return "";
    }

    method WriteSetting(key: string, value: string)
      modifies this
      ensures content == Some(Written(WriteKey(old(Lines()), key, value)))
      ensures GoodKey(key) && Unbroken(value) ==> ReadKey(Lines(), key) == Strip(value)
      ensures GoodKey(key) && Unbroken(value) ==>
                forall other :: other != key ==> ReadKey(Lines(), other) == ReadKey(old(Lines()), other)
    {
      var lines := Lines();
      ghost var before := lines;
      var replaced := false;
      var i := 0;
      while i < |lines|
        invariant i <= |lines| && !replaced && lines == before
        invariant i <= Find(lines, key)
      {
        FindStep(lines, key, i);
        var stripped := Strip(lines[i]);
        if Has(stripped, '=') && !StartsWith(stripped, "#") && Strip(Head(stripped, '=')) == key {
          lines := lines[i := Setting(key, value)];
          replaced := true;
          break;
        }
        i := i + 1;
      }
      if !replaced {
        lines := lines + [Setting(key, value)];
      }
      content := Some(Written(lines));
      if GoodKey(key) && Unbroken(value) {
        forall other ensures ReadKey(Lines(), key) == Strip(value)
                          && (other != key ==> ReadKey(Lines(), other) == ReadKey(before, other)) {
          WriteMeans(before, key, value, other);
        }
        WriteMeans(before, key, value, key);
      }
    }

    method CurrentEndpoint() returns (r: Result<Reading, UrlError>)
      ensures r == Current(Lines())
    {
      var url := ReadSetting(DATABASE_URL);
      match Parse(url) {
        case Ok(Some(found)) => r := Ok(found);
        case Ok(None) => r := Ok(DEFAULTS);
        case Err(e) => r := Err(e);
      }
    }

    method ApplyEndpoint(e: Endpoint)
      requires HostChars(e.host)
      modifies this
      ensures Current(Lines()).Ok?
      ensures Some(Current(Lines()).value) == Fields(e) <==>
                e.user != "" && e.host != "" && LowerCase(e.host) && e.name != "" && 1 <= e.port <= 65535
      ensures forall other :: other != DATABASE_URL ==> ReadKey(Lines(), other) == ReadKey(old(Lines()), other)
    {
      KeyIsGood();
      PrintedIsPrinting(e);
      ApplyThenCurrent(Lines(), e);
      WriteSetting(DATABASE_URL, Print(e));
    }
  }
}
