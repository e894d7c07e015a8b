/** A reader of JSON texts by the grammar of RFC 8259, and the proof that it reads back what is printed:
    which characters stand for what is fixed here from the reader's side. It takes integers (section 6,
    without fraction or exponent), strings (section 7, surrogate escapes aside), arrays and objects
    (sections 4 and 5), with no white space between them. Of a repeated name the last value counts. */
module JsonReader {
  import opened Wrappers
  import opened Json
  import opened Text
  import Decimal

  /** What was read, and the text after it. */
  type Reading<T> = Option<(T, string)>

  predicate Next(s: string, c: char) {
    s != "" && s[0] == c
  }

  function HexValue(c: char): Option<nat> {
    if '0' <= c <= '9' then Some((c - '0') as nat)
    else if 'a' <= c <= 'f' then Some((c - 'a') as nat + 10)
    else if 'A' <= c <= 'F' then Some((c - 'A') as nat + 10)
    else None
  }

  /** The four digits after \u, and the character with that code. */
  function ReadHex(s: string): (r: Reading<char>)
    ensures r.Some? ==> |r.value.1| < |s|
  {
    if |s| < 4 then None
    else
      var (a, b, c, d) := (HexValue(s[0]), HexValue(s[1]), HexValue(s[2]), HexValue(s[3]));
      if a.None? || b.None? || c.None? || d.None? then None
      else
        var code := ((a.value * 16 + b.value) * 16 + c.value) * 16 + d.value;
        if code < 0xD800 then Some((code as char, s[4..]))
        else if 0xE000 <= code < 0x10000 then Some((code as char, s[4..]))
        else None
  }

  /** The character an escape stands for; s begins after the backslash. */
  function ReadEscape(s: string): (r: Reading<char>)
    ensures r.Some? ==> |r.value.1| < |s|
  {
    if s == "" then None
    else
      match s[0]
      case '\"' => Some(('\"', s[1..]))
      case '\\' => Some(('\\', s[1..]))
      case '/' => Some(('/', s[1..]))
      case 'b' => Some((0x08 as char, s[1..]))
      case 'f' => Some((0x0C as char, s[1..]))
      case 'n' => Some((0x0A as char, s[1..]))
      case 'r' => Some((0x0D as char, s[1..]))
      case 't' => Some((0x09 as char, s[1..]))
      case 'u' => ReadHex(s[1..])
      case _ => None
  }

  /** One character of a string. */
  function ReadChar(s: string): (r: Reading<char>)
    ensures r.Some? ==> |r.value.1| < |s|
  {
    if s == "" || s[0] == '\"' || s[0] < 0x20 as char then None
    else if s[0] == '\\' then ReadEscape(s[1..])
    else Some((s[0], s[1..]))
  }

  /** The characters up to the closing quotation mark. */
  function ReadChars(s: string): (r: Reading<string>)
    ensures r.Some? ==> |r.value.1| < |s|
    decreases |s|
  {
    if s != "" && s[0] == '\"' then Some(("", s[1..]))
    else
      match ReadChar(s)
      case None => None
      case Some((c, after)) =>
        match ReadChars(after)
        case None => None
        case Some((cs, rest)) => Some(([c] + cs, rest))
  }

  /** An integer: no leading zeros, and not the start of a fraction or an exponent. */
  function ReadNatural(s: string): (r: Reading<nat>)
    ensures r.Some? ==> |r.value.1| < |s|
  {
    var k := Span(s, Decimal.IsDigit);
    if k == 0 || (s[0] == '0' && k > 1) || (k < |s| && s[k] in {'.', 'e', 'E'}) then None
    else Some((Decimal.StringToNat(s[..k]), s[k..]))
  }

  function ReadNumber(s: string): (r: Reading<int>)
    ensures r.Some? ==> |r.value.1| < |s|
  {
    if s != "" && s[0] == '-' then
      match ReadNatural(s[1..])
      case None => None
      case Some((n, rest)) => Some((0 - n, rest))
    else
      match ReadNatural(s)
      case None => None
      case Some((n, rest)) => Some((n as int, rest))
  }

  function ReadValue(s: string): (r: Reading<Json>)
    ensures r.Some? ==> |r.value.1| < |s|
    decreases |s|, 0
  {
    if s == "" then None
    else
      match s[0]
      case 'n' => if StartsWith(s, "null") then Some((JNull, s[4..])) else None
      case 't' => if StartsWith(s, "true") then Some((JBool(true), s[4..])) else None
      case 'f' => if StartsWith(s, "false") then Some((JBool(false), s[5..])) else None
      case '\"' =>
        (match ReadChars(s[1..])
         case None => None
         case Some((cs, rest)) => Some((JStr(cs), rest)))
      case '[' =>
        if Next(s[1..], ']') then Some((JList([]), s[2..]))
        else
          (match ReadItems(s[1..])
           case None => None
           case Some((xs, rest)) => Some((JList(xs), rest)))
      case '{' =>
        if Next(s[1..], '}') then Some((JObject(map[]), s[2..]))
        else
          (match ReadFields(s[1..])
           case None => None
           case Some((m, rest)) => Some((JObject(m), rest)))
      case _ =>
        match ReadNumber(s)
        case None => None
        case Some((n, rest)) => Some((JInt(n), rest))
  }

  /** One or more items, and the closing bracket. */
  function ReadItems(s: string): (r: Reading<seq<Json>>)
    ensures r.Some? ==> |r.value.1| < |s|
    decreases |s|, 1
  {
    match ReadValue(s)
    case None => None
    case Some((x, after)) =>
      if Next(after, ']') then Some(([x], after[1..]))
      else if Next(after, ',') then
        match ReadItems(after[1..])
        case None => None
        case Some((xs, rest)) => Some(([x] + xs, rest))
      else None
  }

  /** A name and a colon. */
  function ReadName(s: string): (r: Reading<string>)
    ensures r.Some? ==> |r.value.1| < |s|
  {
    if !Next(s, '\"') then None
    else
      match ReadChars(s[1..])
      case None => None
      case Some((k, after)) => if Next(after, ':') then Some((k, after[1..])) else None
  }

  /** One or more members, and the closing brace. */
  function ReadFields(s: string): (r: Reading<map<string, Json>>)
    ensures r.Some? ==> |r.value.1| < |s|
    decreases |s|, 1
  {
    match ReadName(s)
    case None => None
    case Some((k, rest)) =>
      match ReadValue(rest)
      case None => None
      case Some((x, after)) =>
        if Next(after, '}') then Some((map[k := x], after[1..]))
        else if Next(after, ',') then
          match ReadFields(after[1..])
          case None => None
          case Some((m, last)) => Some((map[k := x] + m, last))
        else None
  }

  /** A whole text. */
  function Load(s: string): Option<Json> {
    match ReadValue(s)
    case None => None
    case Some((v, rest)) => if rest == "" then Some(v) else None
  }

  // ----- reading what was printed -----

  lemma CharReadsBack(c: char, t: string)
    ensures var s := EscapeChar(c) + t; s != "" && s[0] != '\"' && ReadChar(s) == Some((c, t))
  {
    var e, s := EscapeChar(c), EscapeChar(c) + t;
    assert s[|e|..] == t;
    assert s[0] == e[0];
    if |e| > 1 {
      assert s[1] == e[1] && s[1..][0] == s[1];
      assert s[1..][1..] == s[2..];
      if |e| > 2 {
        HexReadsBack(c, s[2..], t);
      }
    }
  }

  lemma HexReadsBack(c: char, s: string, t: string)
    requires c < ' ' && s == ['0', '0', HexDigit(c as nat / 16), HexDigit(c as nat % 16)] + t
    ensures ReadHex(s) == Some((c, t))
  {
    assert HexValue(HexDigit(c as nat / 16)) == Some(c as nat / 16);
    assert HexValue(HexDigit(c as nat % 16)) == Some(c as nat % 16);
    assert s[4..] == t;
  }

  lemma {:induction false} CharsReadBack(s: string, rest: string)
    ensures ReadChars(EmitChars(s, "\"" + rest)) == Some((s, rest))
  {
    if s == "" {
      assert ("\"" + rest)[1..] == rest;
    } else {
      CharsReadBack(s[1..], rest);
      CharReadsBack(s[0], EmitChars(s[1..], "\"" + rest));
      hide ReadChar, EscapeChar;
      assert [s[0]] + s[1..] == s;
    }
  }

  lemma {:induction false} DigitsSpan(d: string, rest: string)
    requires Decimal.AllDigits(d) && Stops(rest)
    ensures Span(d + rest, Decimal.IsDigit) == |d|
  {
    assert forall i :: 0 <= i < |d| ==> (d + rest)[i] == d[i];
    assert rest != "" ==> (d + rest)[|d|] == rest[0];
  }

  lemma {:induction false} NaturalReadsBack(n: nat, rest: string)
    requires Stops(rest)
    ensures ReadNatural(Decimal.NatToString(n) + rest) == Some((n, rest))
    ensures Decimal.IsDigit(Decimal.NatToString(n)[0])
  {
    var d := Decimal.NatToString(n);
    DigitsSpan(d, rest);
    Decimal.NatRoundTrip(n);
    Decimal.NoLeadingZero(n);
    assert (d + rest)[..|d|] == d && (d + rest)[|d|..] == rest;
  }

  lemma NumberReadsBack(n: int, rest: string)
    requires Stops(rest)
    ensures var s := Decimal.IntToString(n) + rest;
            ReadNumber(s) == Some((n, rest)) && (s[0] == '-' || Decimal.IsDigit(s[0]))
  {
    var s := Decimal.IntToString(n) + rest;
    hide ReadNatural, Decimal.NatToString;
    if n < 0 {
      NaturalReadsBack(-n, rest);
      assert s[1..] == Decimal.NatToString(-n) + rest;
    } else {
      NaturalReadsBack(n, rest);
    }
  }

  lemma {:induction false} ValueReadsBack(v: Value, rest: string)
    requires DistinctKeys(v) && Stops(rest)
    ensures ReadValue(Emit(v, rest)) == Some((Meaning(v), rest))
    decreases v, 1
  {
    var s := Emit(v, rest);
    match v
    case Null => assert s[4..] == rest;
    case Bool(b) => assert b ==> s[4..] == rest; assert !b ==> s[5..] == rest;
    case Int(n) => NumberReadsBack(n, rest);
    case Str(cs) =>
      CharsReadBack(cs, rest);
      assert s[1..] == EmitChars(cs, "\"" + rest);
    case List(items) =>
      if items != [] {
        ItemsReadBack(items, rest);
      }
      ListReadsBack(items, rest);
    case Dict(fs) =>
      if fs != [] {
        FieldsReadBack(fs, rest);
      }
      DictReadsBack(fs, rest);
  }

  lemma {:induction false} ListReadsBack(items: seq<Value>, rest: string)
    requires items != [] ==> ReadItems(EmitItems(items, "]" + rest)) == Some((MeaningOfItems(items), rest))
    ensures ReadValue("[" + EmitItems(items, "]" + rest)) == Some((JList(MeaningOfItems(items)), rest))
  {
    var s := "[" + EmitItems(items, "]" + rest);
    assert s[1..] == EmitItems(items, "]" + rest);
    if items == [] {
      assert s[2..] == rest;
    } else {
      EmitStart(items[0], if |items| == 1 then "]" + rest else "," + EmitItems(items[1..], "]" + rest));
    }
    hide Emit, ReadItems;
  }

  lemma {:induction false} NoFields(rest: string)
    ensures EmitFields([], rest) == rest && MeaningOfFields([]) == map[]
  {
  }

  lemma {:induction false} DictReadsBack(fs: seq<Field>, rest: string)
    requires fs != [] ==> ReadFields(EmitFields(fs, "}" + rest)) == Some((MeaningOfFields(fs), rest))
    ensures ReadValue("{" + EmitFields(fs, "}" + rest)) == Some((JObject(MeaningOfFields(fs)), rest))
  {
    hide Emit, EmitString, ReadFields, ReadItems, ReadChars, ReadNumber, MeaningOfFields;
    FieldsStart(fs, "}" + rest);
    var text := EmitFields(fs, "}" + rest);
    var s := "{" + text;
    assert s[0] == '{' && s[1..] == text;
    if fs == [] {
      NoFields("}" + rest);
      assert s[2..] == rest;
    } else {
      hide EmitFields;
    }
  }

  lemma {:induction false} ItemsReadBack(items: seq<Value>, rest: string)
    requires items != [] && forall x | x in items :: DistinctKeys(x)
    ensures ReadItems(EmitItems(items, "]" + rest)) == Some((MeaningOfItems(items), rest))
    decreases items, 0
  {
    var closing := "]" + rest;
    var after := if |items| == 1 then closing else "," + EmitItems(items[1..], closing);
    ValueReadsBack(items[0], after);
    hide Emit, Meaning, ReadValue, DistinctKeys;
    if |items| == 1 {
      assert items == [items[0]] && EmitItems(items, closing) == Emit(items[0], closing);
      assert closing[0] == ']' && closing[1..] == rest;
      assert MeaningOfItems(items) == [Meaning(items[0])];
    } else {
      assert after[1..] == EmitItems(items[1..], closing);
      ItemsReadBack(items[1..], rest);
    }
  }

  lemma {:induction false} FieldsReadBack(fs: seq<Field>, rest: string)
    requires fs != [] && DistinctFields(fs)
    ensures ReadFields(EmitFields(fs, "}" + rest)) == Some((MeaningOfFields(fs), rest))
    decreases fs, 0
  {
    var closing := "}" + rest;
    var after := if |fs| == 1 then closing else "," + EmitFields(fs[1..], closing);
    var value := Emit(fs[0].value, after);
    NameReadsBack(fs[0].key, value);
    ValueReadsBack(fs[0].value, after);
    if |fs| == 1 {
      hide *;
      OneField(fs, rest, value);
    } else {
      FieldsReadBack(fs[1..], rest);
      hide *;
      MoreFields(fs, rest, value);
    }
  }

  lemma {:induction false} OneField(fs: seq<Field>, rest: string, value: string)
    requires |fs| == 1 && DistinctFields(fs) && value == Emit(fs[0].value, "}" + rest)
    requires ReadName(EmitString(fs[0].key, ":" + value)) == Some((fs[0].key, value))
    requires ReadValue(value) == Some((Meaning(fs[0].value), "}" + rest))
    ensures ReadFields(EmitFields(fs, "}" + rest)) == Some((MeaningOfFields(fs), rest))
  {
    hide Emit, EmitString, ReadName, ReadValue, Meaning;
    assert EmitFields(fs, "}" + rest) == EmitString(fs[0].key, ":" + value);
    assert ("}" + rest)[1..] == rest && fs[1..] == [];
  }

  lemma {:induction false} MoreFields(fs: seq<Field>, rest: string, value: string)
    requires |fs| > 1 && DistinctFields(fs)
    requires value == Emit(fs[0].value, "," + EmitFields(fs[1..], "}" + rest))
    requires ReadName(EmitString(fs[0].key, ":" + value)) == Some((fs[0].key, value))
    requires ReadValue(value) == Some((Meaning(fs[0].value), "," + EmitFields(fs[1..], "}" + rest)))
    requires ReadFields(EmitFields(fs[1..], "}" + rest)) == Some((MeaningOfFields(fs[1..]), rest))
    ensures ReadFields(EmitFields(fs, "}" + rest)) == Some((MeaningOfFields(fs), rest))
  {
    hide Emit, EmitString, ReadName, ReadValue, Meaning;
    var more := EmitFields(fs[1..], "}" + rest);
    assert EmitFields(fs, "}" + rest) == EmitString(fs[0].key, ":" + value);
    assert ("," + more)[1..] == more;
    var k, m := fs[0].key, MeaningOfFields(fs[1..]);
    assert map[k := Meaning(fs[0].value)] + m == m[k := Meaning(fs[0].value)];
  }

  lemma NameReadsBack(k: string, value: string)
    ensures ReadName(EmitString(k, ":" + value)) == Some((k, value))
  {
    var s := EmitString(k, ":" + value);
    CharsReadBack(k, ":" + value);
    assert s[1..] == EmitChars(k, "\"" + (":" + value));
    assert (":" + value)[1..] == value;
  }

  lemma {:induction false} SortedIsDistinct(v: Value)
    requires Sorted(v)
    ensures DistinctKeys(v)
    decreases v, 0
  {
    match v
    case List(items) =>
      forall x | x in items ensures DistinctKeys(x) {
        SortedIsDistinct(x);
      }
    case Dict(fs) => SortedFieldsAreDistinct(fs);
    case _ =>
  }

  lemma {:induction false} SortedFieldsAreDistinct(fs: seq<Field>)
    requires SortedFields(fs)
    ensures DistinctFields(fs)
    decreases fs, 0
  {
    if fs == [] {
    } else {
      LessTotal(fs[0].key, fs[0].key);
      SortedIsDistinct(fs[0].value);
      SortedFieldsAreDistinct(fs[1..]);
    }
  }

  /** The printed text of any document reads back as what the document means. */
  lemma {:induction false} DumpsReadsBack(v: Doc)
    ensures Load(Dumps(v)) == Some(Meaning(v))
  {
    SortKeysKeepsMeaning(v);
    SortedIsDistinct(SortKeys(v));
    ValueReadsBack(SortKeys(v), "");
  }
}
