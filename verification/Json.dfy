/** The canonical text of a JSON value: json.dumps with sort_keys=True, ensure_ascii=False and
    separators=(",", ":"), as section 3 to 7 of RFC 8259 lay the notation out.

    A Value is what the program holds: objects are Python dicts, so their fields have an order.
    A Json is what it means: objects are maps. The main theorem says that two values print alike
    exactly when they mean the same. */
module Json {
  import Decimal

  datatype Value =
    | Null
    | Bool(b: bool)
    | Int(n: int)
    | Str(s: string)
    | List(items: seq<Value>)
    | Dict(fields: seq<Field>)

  datatype Field = Field(key: string, value: Value)

  datatype Json =
    | JNull
    | JBool(b: bool)
    | JInt(n: int)
    | JStr(s: string)
    | JList(items: seq<Json>)
    | JObject(fields: map<string, Json>)

  function Keys(fs: seq<Field>): set<string> {
    if fs == [] then {} else {fs[0].key} + Keys(fs[1..])
  }

  /** A Python dict has each key once, at every depth. */
  ghost predicate DistinctKeys(v: Value) {
    match v
    case List(items) => forall x | x in items :: DistinctKeys(x)
    case Dict(fs) => DistinctFields(fs)
    case _ => true
  }

  ghost predicate DistinctFields(fs: seq<Field>) {
    fs == [] ||
    (fs[0].key !in Keys(fs[1..]) && DistinctKeys(fs[0].value) && DistinctFields(fs[1..]))
  }

  /** A document: a value whose dicts have distinct keys. */
  type Doc = v: Value | DistinctKeys(v) witness Null

  // ----- meaning -----

  function Meaning(v: Value): Json {
    match v
    case Null => JNull
    case Bool(b) => JBool(b)
    case Int(n) => JInt(n)
    case Str(s) => JStr(s)
    case List(items) => JList(MeaningOfItems(items))
    case Dict(fs) => JObject(MeaningOfFields(fs))
  }

  function MeaningOfItems(items: seq<Value>): (r: seq<Json>)
    ensures |r| == |items|
    ensures forall i :: 0 <= i < |items| ==> r[i] == Meaning(items[i])
  {
    if items == [] then [] else [Meaning(items[0])] + MeaningOfItems(items[1..])
  }

  function MeaningOfFields(fs: seq<Field>): (r: map<string, Json>)
    ensures r.Keys == Keys(fs)
  {
    if fs == [] then map[]
    else MeaningOfFields(fs[1..])[fs[0].key := Meaning(fs[0].value)]
  }

  lemma {:induction false} AbsentKey(k: string, fs: seq<Field>)
    requires forall i :: 0 <= i < |fs| ==> fs[i].key != k
    ensures k !in Keys(fs)
  {
    if fs == [] {
    } else {
      AbsentKey(k, fs[1..]);
    }
  }

  lemma {:induction false} DistinctByIndex(fs: seq<Field>)
    requires forall i, j :: 0 <= i < j < |fs| ==> fs[i].key != fs[j].key
    requires forall i :: 0 <= i < |fs| ==> DistinctKeys(fs[i].value)
    ensures DistinctFields(fs)
  {
    if fs == [] {
    } else {
      AbsentKey(fs[0].key, fs[1..]);
      DistinctByIndex(fs[1..]);
    }
  }

  /** Two dicts built with the same keys in the same places mean the same exactly when their
      values do, place by place. */
  lemma {:induction false} SameKeys(fs: seq<Field>, gs: seq<Field>)
    requires |fs| == |gs| && DistinctFields(fs) && DistinctFields(gs)
    requires forall i :: 0 <= i < |fs| ==> fs[i].key == gs[i].key
    ensures MeaningOfFields(fs) == MeaningOfFields(gs) <==>
            forall i :: 0 <= i < |fs| ==> Meaning(fs[i].value) == Meaning(gs[i].value)
  {
    if fs == [] {
    } else {
      SameKeys(fs[1..], gs[1..]);
      var m, n := MeaningOfFields(fs), MeaningOfFields(gs);
      var k := fs[0].key;
      if m == n {
        assert MeaningOfFields(fs[1..]) == m - {k} == n - {k} == MeaningOfFields(gs[1..]);
        assert m[k] == n[k];
        forall i | 0 <= i < |fs| ensures Meaning(fs[i].value) == Meaning(gs[i].value) {
          if i > 0 {
            assert fs[i] == fs[1..][i - 1] && gs[i] == gs[1..][i - 1];
          }
        }
      }
    }
  }

  /** A dict means the map from its keys to what stands under them. */
  lemma {:induction false} FieldMeans(fs: seq<Field>, i: nat)
    requires DistinctFields(fs) && i < |fs|
    ensures fs[i].key in Keys(fs) && MeaningOfFields(fs)[fs[i].key] == Meaning(fs[i].value)
  {
    if i == 0 {
    } else {
      FieldMeans(fs[1..], i - 1);
    }
  }

  lemma {:induction false} KeyIsListed(fs: seq<Field>, k: string)
    requires k in Keys(fs)
    ensures exists i :: 0 <= i < |fs| && fs[i].key == k
  {
    if fs[0].key == k {
    } else {
      KeyIsListed(fs[1..], k);
      var i :| 0 <= i < |fs[1..]| && fs[1..][i].key == k;
      assert fs[i + 1].key == k;
    }
  }

  // ----- sorting the keys -----

  /** Python's order on str: by code point, a prefix first. */
  predicate Less(a: string, b: string) {
    b != [] && (a == [] || a[0] < b[0] || (a[0] == b[0] && Less(a[1..], b[1..])))
  }

  lemma {:induction false} LessTotal(a: string, b: string)
    ensures Less(a, b) || a == b || Less(b, a)
    ensures !(Less(a, b) && Less(b, a)) && !Less(a, a)
  {
    if a == [] {
    } else {
      LessTotal(a[1..], a[1..]);
      if b != [] {
        LessTotal(a[1..], b[1..]);
        assert a == [a[0]] + a[1..] && b == [b[0]] + b[1..];
      }
    }
  }

  lemma {:induction false} LessTransitive(a: string, b: string, c: string)
    requires Less(a, b) && Less(b, c)
    ensures Less(a, c)
  {
    if a == [] || a[0] != b[0] || b[0] != c[0] {
    } else {
      LessTransitive(a[1..], b[1..], c[1..]);
    }
  }

  function SortKeys(v: Value): Value {
    match v
    case List(items) => List(SortKeysInItems(items))
    case Dict(fs) => Dict(SortFields(fs))
    case _ => v
  }

  function SortKeysInItems(items: seq<Value>): (r: seq<Value>)
    ensures |r| == |items|
    ensures forall i :: 0 <= i < |items| ==> r[i] == SortKeys(items[i])
  {
    if items == [] then [] else [SortKeys(items[0])] + SortKeysInItems(items[1..])
  }

  function SortFields(fs: seq<Field>): seq<Field> {
    if fs == [] then [] else Insert(Field(fs[0].key, SortKeys(fs[0].value)), SortFields(fs[1..]))
  }

  function Insert(f: Field, gs: seq<Field>): seq<Field> {
    if gs == [] || Less(f.key, gs[0].key) then [f] + gs else [gs[0]] + Insert(f, gs[1..])
  }

  /** Every dict, at every depth, lists its fields in increasing key order. */
  ghost predicate Sorted(v: Value) {
    match v
    case List(items) => forall x | x in items :: Sorted(x)
    case Dict(fs) => SortedFields(fs)
    case _ => true
  }

  ghost predicate SortedFields(fs: seq<Field>) {
    fs == [] ||
    ((forall k | k in Keys(fs[1..]) :: Less(fs[0].key, k)) && Sorted(fs[0].value) && SortedFields(fs[1..]))
  }

  lemma {:induction false} KeysCons(f: Field, fs: seq<Field>)
    ensures Keys([f] + fs) == {f.key} + Keys(fs)
    ensures MeaningOfFields([f] + fs) == MeaningOfFields(fs)[f.key := Meaning(f.value)]
  {
  }

  lemma {:induction false} InsertKeepsMeaning(f: Field, gs: seq<Field>)
    requires f.key !in Keys(gs)
    ensures Keys(Insert(f, gs)) == {f.key} + Keys(gs)
    ensures MeaningOfFields(Insert(f, gs)) == MeaningOfFields(gs)[f.key := Meaning(f.value)]
  {
    if gs == [] || Less(f.key, gs[0].key) {
      KeysCons(f, gs);
    } else {
      assert gs == [gs[0]] + gs[1..];
      KeysCons(gs[0], gs[1..]);
      InsertKeepsMeaning(f, gs[1..]);
      KeysCons(gs[0], Insert(f, gs[1..]));
    }
  }

  lemma {:induction false} InsertKeepsOrder(f: Field, gs: seq<Field>)
    requires SortedFields(gs) && Sorted(f.value) && f.key !in Keys(gs)
    ensures SortedFields(Insert(f, gs))
  {
    var r := Insert(f, gs);
    if gs == [] || Less(f.key, gs[0].key) {
      assert r[1..] == gs;
      forall k | k in Keys(gs) ensures Less(f.key, k) {
        if k != gs[0].key {
          LessTransitive(f.key, gs[0].key, k);
        }
      }
    } else {
      assert r[1..] == Insert(f, gs[1..]);
      assert f.key != gs[0].key;
      LessTotal(f.key, gs[0].key);
      InsertKeepsOrder(f, gs[1..]);
      InsertKeepsMeaning(f, gs[1..]);
    }
  }

  lemma {:induction false} SortKeysKeepsMeaning(v: Value)
    requires DistinctKeys(v)
    ensures Sorted(SortKeys(v)) && Meaning(SortKeys(v)) == Meaning(v)
    decreases v, 0
  {
    match v
    case List(items) =>
      forall i | 0 <= i < |items|
        ensures Sorted(SortKeys(items[i])) && Meaning(SortKeys(items[i])) == Meaning(items[i])
      {
        SortKeysKeepsMeaning(items[i]);
      }
      assert MeaningOfItems(SortKeysInItems(items)) == MeaningOfItems(items);
    case Dict(fs) => SortFieldsKeepsMeaning(fs);
    case _ =>
  }

  lemma {:induction false} SortFieldsKeepsMeaning(fs: seq<Field>)
    requires DistinctFields(fs)
    ensures SortedFields(SortFields(fs)) && Keys(SortFields(fs)) == Keys(fs)
    ensures MeaningOfFields(SortFields(fs)) == MeaningOfFields(fs)
    decreases fs, 0
  {
    if fs == [] {
    } else {
      SortKeysKeepsMeaning(fs[0].value);
      SortFieldsKeepsMeaning(fs[1..]);
      InsertKeepsOrder(Field(fs[0].key, SortKeys(fs[0].value)), SortFields(fs[1..]));
      InsertKeepsMeaning(Field(fs[0].key, SortKeys(fs[0].value)), SortFields(fs[1..]));
    }
  }

  /** A value with sorted keys is the only one of its kind with its meaning. */
  lemma {:induction false} SortedIsUnique(v: Value, w: Value)
    requires Sorted(v) && Sorted(w) && Meaning(v) == Meaning(w)
    ensures v == w
    decreases v, 0
  {
    match v
    case List(items) =>
      assert w.List?;
      forall i | 0 <= i < |items| ensures items[i] == w.items[i] {
        assert Meaning(v).items[i] == Meaning(w).items[i];
        SortedIsUnique(items[i], w.items[i]);
      }
    case Dict(fs) => SortedFieldsAreUnique(fs, w.fields);
    case _ =>
  }

  lemma {:induction false} SortedFieldsAreUnique(fs: seq<Field>, gs: seq<Field>)
    requires SortedFields(fs) && SortedFields(gs) && MeaningOfFields(fs) == MeaningOfFields(gs)
    ensures fs == gs
    decreases fs, 0
  {
    var m := MeaningOfFields(fs);
    assert fs != [] ==> fs[0].key in m;
    assert gs != [] ==> gs[0].key in m;
    if fs == [] {
    } else {
      assert fs[0].key in m && gs[0].key in m;
      LessTotal(fs[0].key, gs[0].key);
      LessTotal(fs[0].key, fs[0].key);
      assert fs[0].key == gs[0].key;
      SortedIsUnique(fs[0].value, gs[0].value);
      assert MeaningOfFields(fs[1..]) == m - {fs[0].key} == MeaningOfFields(gs[1..]);
      SortedFieldsAreUnique(fs[1..], gs[1..]);
      assert fs == [fs[0]] + fs[1..] && gs == [gs[0]] + gs[1..];
    }
  }

  // ----- printing -----

  function HexDigit(d: nat): (c: char)
    requires d < 16
    ensures c < 'g' && c != '\"' && c != '\\'
  {
    if d < 10 then '0' + d as char else 'a' + (d - 10) as char
  }

  /** The string escapes of section 7 of RFC 8259, as the encoder chooses them. */
  function EscapeChar(c: char): (r: string)
    ensures |r| > 0 && r[0] != '\"'
  {
    if c == '\"' then "\\\""
    else if c == '\\' then "\\\\"
    else if c == '\n' then "\\n"
    else if c == '\r' then "\\r"
    else if c == '\t' then "\\t"
    else if c == 8 as char then "\\b"
    else if c == 12 as char then "\\f"
    else if c < ' ' then "\\u00" + [HexDigit(c as nat / 16), HexDigit(c as nat % 16)]
    else [c]
  }

  /** The escaped characters of s, then the rest of the text. */
  function EmitChars(s: string, rest: string): string {
    if s == [] then rest else EscapeChar(s[0]) + EmitChars(s[1..], rest)
  }

  function EmitString(s: string, rest: string): string {
    "\"" + EmitChars(s, "\"" + rest)
  }

  /** The text of v, then the rest of the text. */
  function Emit(v: Value, rest: string): string {
    match v
    case Null => "null" + rest
    case Bool(b) => (if b then "true" else "false") + rest
    case Int(n) => Decimal.IntToString(n) + rest
    case Str(s) => EmitString(s, rest)
    case List(items) => "[" + EmitItems(items, "]" + rest)
    case Dict(fs) => "{" + EmitFields(fs, "}" + rest)
  }

  function EmitItems(items: seq<Value>, rest: string): string {
    if items == [] then rest
    else Emit(items[0], if |items| == 1 then rest else "," + EmitItems(items[1..], rest))
  }

  function EmitFields(fs: seq<Field>, rest: string): string {
    if fs == [] then rest
    else
      var after := if |fs| == 1 then rest else "," + EmitFields(fs[1..], rest);
      EmitString(fs[0].key, ":" + Emit(fs[0].value, after))
  }

  /** json.dumps(v, sort_keys=True, ensure_ascii=False, separators=(",", ":")) */
  function Dumps(v: Value): string {
    Emit(SortKeys(v), "")
  }

  // ----- the printed text determines the value -----

  lemma EscapeCharSplits(c: char, d: char, r: string, s: string)
    requires EscapeChar(c) + r == EscapeChar(d) + s
    ensures c == d && r == s
  {
    var x, y := EscapeChar(c) + r, EscapeChar(d) + s;
    assert x[0] == y[0];
    assert x[0] == '\\' ==> x[1] == y[1];
    if x[0] == '\\' && x[1] == 'u' {
      assert x[4] == y[4] && x[5] == y[5];
      assert c as nat / 16 == d as nat / 16;
      assert c as nat % 16 == d as nat % 16;
    }
    assert c == d;
    assert r == x[|EscapeChar(c)|..] && s == y[|EscapeChar(c)|..];
  }

  lemma {:induction false} EmitCharsSplits(a: string, b: string, r: string, s: string)
    requires r != [] && s != [] && r[0] == s[0] == '\"'
    requires EmitChars(a, r) == EmitChars(b, s)
    ensures a == b && r == s
  {
    if a == [] || b == [] {
    } else {
      EscapeCharSplits(a[0], b[0], EmitChars(a[1..], r), EmitChars(b[1..], s));
      EmitCharsSplits(a[1..], b[1..], r, s);
      assert a == [a[0]] + a[1..] && b == [b[0]] + b[1..];
    }
  }

  lemma EmitStringSplits(a: string, b: string, r: string, s: string)
    requires EmitString(a, r) == EmitString(b, s)
    ensures a == b && r == s
  {
    var x, y := EmitChars(a, "\"" + r), EmitChars(b, "\"" + s);
    assert x == EmitString(a, r)[1..] && y == EmitString(b, s)[1..];
    EmitCharsSplits(a, b, "\"" + r, "\"" + s);
    assert r == ("\"" + r)[1..] && s == ("\"" + s)[1..];
  }

  /** What may follow a value in a printed text. */
  predicate Stops(r: string) {
    r == [] || r[0] in {',', ']', '}'}
  }

  lemma IntSplits(m: int, n: int, r: string, s: string)
    requires Decimal.IntToString(m) + r == Decimal.IntToString(n) + s && Stops(r) && Stops(s)
    ensures m == n && r == s
  {
    var x, y := Decimal.IntToString(m), Decimal.IntToString(n);
    assert (x + r)[0] == (y + s)[0];
    assert m < 0 <==> x[0] == '-';
    assert n < 0 <==> y[0] == '-';
    if m < 0 {
      assert (x + r)[1..] == x[1..] + r && (y + s)[1..] == y[1..] + s;
      Decimal.DigitRunSplits(x[1..], y[1..], r, s);
      assert x == "-" + x[1..] && y == "-" + y[1..];
    } else {
      Decimal.DigitRunSplits(x, y, r, s);
    }
    Decimal.IntToStringInjective(m, n);
  }

  /** The first character of a printed value tells its kind. */
  function Kind(c: char): nat {
    if c == 'n' then 0 else if c == 't' then 1 else if c == 'f' then 2 else if c == '\"' then 3
    else if c == '[' then 4 else if c == '{' then 5 else 6
  }

  function KindOf(v: Value): nat {
    match v
    case Null => 0
    case Bool(b) => if b then 1 else 2
    case Str(_) => 3
    case List(_) => 4
    case Dict(_) => 5
    case Int(_) => 6
  }

  lemma {:induction false} EmitStart(v: Value, rest: string)
    ensures var x := Emit(v, rest); x != [] && Kind(x[0]) == KindOf(v) && !Stops(x)
  {
  }

  lemma {:induction false} EmitSplits(v: Value, w: Value, r: string, s: string)
    requires Emit(v, r) == Emit(w, s) && Stops(r) && Stops(s)
    ensures v == w && r == s
    decreases v, 1
  {
    var x, y := Emit(v, r), Emit(w, s);
    EmitStart(v, r);
    EmitStart(w, s);
    match v
    case Null => assert r == x[4..] && s == y[4..];
    case Bool(b) => assert b ==> r == x[4..] && s == y[4..]; assert !b ==> r == x[5..] && s == y[5..];
    case Int(m) => IntSplits(m, w.n, r, s);
    case Str(a) => EmitStringSplits(a, w.s, r, s);
    case List(items) =>
      assert x[1..] == EmitItems(items, "]" + r) && y[1..] == EmitItems(w.items, "]" + s);
      EmitItemsSplits(items, w.items, "]" + r, "]" + s);
      assert r == ("]" + r)[1..] && s == ("]" + s)[1..];
    case Dict(fs) =>
      assert x[1..] == EmitFields(fs, "}" + r) && y[1..] == EmitFields(w.fields, "}" + s);
      EmitFieldsSplits(fs, w.fields, "}" + r, "}" + s);
      assert r == ("}" + r)[1..] && s == ("}" + s)[1..];
  }

  lemma {:induction false} EmitItemsSplits(v: seq<Value>, w: seq<Value>, r: string, s: string)
    requires r != [] && s != [] && r[0] == s[0] == ']'
    requires EmitItems(v, r) == EmitItems(w, s)
    ensures v == w && r == s
    decreases v, 0
  {
    if v == [] || w == [] {
      if v != [] { EmitStart(v[0], if |v| == 1 then r else "," + EmitItems(v[1..], r)); }
      if w != [] { EmitStart(w[0], if |w| == 1 then s else "," + EmitItems(w[1..], s)); }
    } else {
      var x := if |v| == 1 then r else "," + EmitItems(v[1..], r);
      var y := if |w| == 1 then s else "," + EmitItems(w[1..], s);
      EmitSplits(v[0], w[0], x, y);
      assert x[0] == y[0];
      if |v| > 1 {
        assert x[1..] == EmitItems(v[1..], r) && y[1..] == EmitItems(w[1..], s);
        EmitItemsSplits(v[1..], w[1..], r, s);
      }
      assert v == [v[0]] + v[1..] && w == [w[0]] + w[1..];
    }
  }

  lemma {:induction false} FieldsStart(fs: seq<Field>, rest: string)
    ensures fs != [] ==> var x := EmitFields(fs, rest); x != [] && x[0] == '\"'
  {
  }

  lemma {:induction false} EmitFieldsSplits(v: seq<Field>, w: seq<Field>, r: string, s: string)
    requires r != [] && s != [] && r[0] == s[0] == '}'
    requires EmitFields(v, r) == EmitFields(w, s)
    ensures v == w && r == s
    decreases v, 0
  {
    FieldsStart(v, r);
    FieldsStart(w, s);
    hide Emit, EmitString;
    if v == [] || w == [] {
    } else {
      var x := if |v| == 1 then r else "," + EmitFields(v[1..], r);
      var y := if |w| == 1 then s else "," + EmitFields(w[1..], s);
      var x', y' := Emit(v[0].value, x), Emit(w[0].value, y);
      EmitStringSplits(v[0].key, w[0].key, ":" + x', ":" + y');
      assert x' == (":" + x')[1..] && y' == (":" + y')[1..];
      EmitSplits(v[0].value, w[0].value, x, y);
      assert x[0] == y[0];
      if |v| > 1 {
        assert x[1..] == EmitFields(v[1..], r) && y[1..] == EmitFields(w[1..], s);
        EmitFieldsSplits(v[1..], w[1..], r, s);
      }
      assert v == [v[0]] + v[1..] && w == [w[0]] + w[1..];
    }
  }

  /** Equal texts exactly for equal meanings: the order of a dict's keys never shows, and two
      documents that differ in anything else never print alike. */
  lemma {:induction false} DumpsIsCanonical(v: Doc, w: Doc)
    ensures Dumps(v) == Dumps(w) <==> Meaning(v) == Meaning(w)
  {
    SortKeysKeepsMeaning(v);
    SortKeysKeepsMeaning(w);
    if Dumps(v) == Dumps(w) {
      EmitSplits(SortKeys(v), SortKeys(w), [], []);
    }
    if Meaning(v) == Meaning(w) {
      SortedIsUnique(SortKeys(v), SortKeys(w));
    }
  }
}
