/** Settings kept as text in a table and laid over the running configuration: what is validated, how it
    is written and read back, and when a saved value takes effect. The session does not flush by
    itself, so a query sees changed rows but not added ones. */
module Integrations {
  import opened Wrappers
  import opened OrmSession
  import opened Numerals
  import Decimal

  datatype Kind = TextKind | NumberKind | FlagKind

  datatype Field = Field(kind: Kind, minimum: Option<int>, maximum: Option<int>)

  datatype Value = Number(n: int) | Flag(b: bool) | Words(s: string)

  datatype Invalid = NotAFlag | NotANumber | TooSmall | TooLarge

  // ----- one value -----

  function Parse(kind: Kind, raw: string): Option<Value> {
    match kind
    case NumberKind =>
      var n := ParseInt(raw);
      if n.Some? then Some(Number(n.value)) else None
    case FlagKind => Some(Flag(raw == "true"))
    case TextKind => Some(Words(raw))
  }

  function Serialise(v: Value): string {
    match v
    case Flag(b) => if b then "true" else "false"
    case Number(n) => Decimal.IntToString(n)
    case Words(s) => s
  }

  function AsNumber(v: Value): Option<int> {
    match v
    case Number(n) => Some(n)
    case Flag(b) => Some(if b then 1 else 0)
    case Words(s) => ParseInt(s)
  }

  function Validated(f: Field, v: Value): Result<Value, Invalid> {
    match f.kind
    case FlagKind =>
      if v.Flag? then Ok(v)
      else if v == Words("true") then Ok(Flag(true))
      else if v == Words("false") then Ok(Flag(false))
      else Err(NotAFlag)
    case TextKind => Ok(v)
    case NumberKind =>
      var n := AsNumber(v);
      if n.None? then Err(NotANumber)
      else if f.minimum.Some? && n.value < f.minimum.value then Err(TooSmall)
      else if f.maximum.Some? && n.value > f.maximum.value then Err(TooLarge)
      else Ok(Number(n.value))
  }

  // ----- what a field makes of what is sent -----

  /** The number that was sent, or that the text sent denotes; on is one and off is zero. */
  ghost predicate Amounts(sent: Value, n: int) {
    match sent
    case Number(m) => n == m
    case Flag(b) => n == if b then 1 else 0
    case Words(s) => Denotes(s, n)
  }

  /** What a field takes, and as what: a flag, or its name in text, as that flag; a number within both
      bounds as itself; and anything at all in a text field, unchanged. */
  ghost predicate Means(f: Field, sent: Value, kept: Value) {
    match f.kind
    case FlagKind => kept.Flag? && (sent == kept || sent == Words(if kept.b then "true" else "false"))
    case TextKind => kept == sent
    case NumberKind =>
      && kept.Number? && Amounts(sent, kept.n)
      && (f.minimum.Some? ==> f.minimum.value <= kept.n) && (f.maximum.Some? ==> kept.n <= f.maximum.value)
  }

  ghost predicate Takes(f: Field, sent: Value) {
    exists kept :: Means(f, sent, kept)
  }

  lemma AsNumberMeans(sent: Value, n: int)
    ensures AsNumber(sent) == Some(n) <==> Amounts(sent, n)
  {
    if sent.Words? {
      ParseIntMeans(sent.s, n);
    }
  }

  /** Validation is exact: it gives a value exactly when the field takes what was sent as that value, and
      each refusal has its one reason. */
  lemma ValidatedMeans(f: Field, sent: Value)
    ensures forall kept :: Validated(f, sent) == Ok(kept) <==> Means(f, sent, kept)
    ensures Validated(f, sent).Ok? <==> Takes(f, sent)
    ensures Validated(f, sent) == Err(NotAFlag) <==> f.kind.FlagKind? && !Takes(f, sent)
    ensures Validated(f, sent) == Err(NotANumber) <==> f.kind.NumberKind? && forall n :: !Amounts(sent, n)
    ensures Validated(f, sent) == Err(TooSmall) <==>
            f.kind.NumberKind? && f.minimum.Some? && exists n :: Amounts(sent, n) && n < f.minimum.value
  {
    hide AsNumber, Amounts;
    forall n ensures AsNumber(sent) == Some(n) <==> Amounts(sent, n) {
      AsNumberMeans(sent, n);
    }
    assert Validated(f, sent).Ok? ==> Means(f, sent, Validated(f, sent).value);
  }

  /** How a value is written down. */
  ghost predicate Writes(text: string, v: Value) {
    match v
    case Flag(b) => text == if b then "true" else "false"
    case Number(n) => Denotes(text, n) && Plain(text)
    case Words(s) => text == s
  }

  /** What a stored text gives a field. One that cannot be read gives the default, as none does. */
  ghost predicate Gives(f: Field, default: Value, stored: Option<string>, v: Value) {
    match stored
    case None => v == default
    case Some(text) =>
      match f.kind
      case TextKind => v == Words(text)
      case FlagKind => v == Flag(text == "true")
      case NumberKind => if exists n :: Denotes(text, n) then v.Number? && Denotes(text, v.n) else v == default
  }

  /** What a field shows once what was sent to it is saved: what it means, but that a text field shows text. */
  ghost predicate Shows(f: Field, sent: Value, v: Value) {
    if f.kind.TextKind? then v.Words? && Writes(v.s, sent) else Means(f, sent, v)
  }

  lemma StoredShows(f: Field, sent: Value)
    requires Validated(f, sent).Ok?
    ensures Takes(f, sent)
    ensures var kept := Validated(f, sent).value; Means(f, sent, kept) && Writes(Serialise(kept), kept)
    ensures var read := Parse(f.kind, Serialise(Validated(f, sent).value));
            read.Some? && Shows(f, sent, read.value)
  {
    ValidatedMeans(f, sent);
    var kept := Validated(f, sent).value;
    hide Validated, Means, ParseInt, Denotes;
    if kept.Number? {
      IntRoundTrip(kept.n);
    }
    KindOfKept(f, sent, kept);
  }

  lemma KindOfKept(f: Field, sent: Value, kept: Value)
    requires Means(f, sent, kept)
    ensures if f.kind.TextKind? then kept == sent else (f.kind.FlagKind? ==> kept.Flag?) && (f.kind.NumberKind? ==> kept.Number?)
  {
  }

  predicate OfKind(v: Value, kind: Kind) {
    match kind
    case NumberKind => v.Number?
    case FlagKind => v.Flag?
    case TextKind => v.Words?
  }

  predicate Within(f: Field, v: Value) {
    f.kind.NumberKind? ==> v.Number? && (f.minimum.Some? ==> f.minimum.value <= v.n)
                                     && (f.maximum.Some? ==> v.n <= f.maximum.value)
  }

  /** Reading undoes writing on a validated value if, and only if, the value has the field's own kind.
      Numbers and flags always do; a text field keeps a number or flag as it came and reads back text. */
  lemma SerialiseRoundTrip(f: Field, raw: Value)
    requires Validated(f, raw).Ok?
    ensures var v := Validated(f, raw).value;
            && (Parse(f.kind, Serialise(v)) == Some(v) <==> OfKind(v, f.kind))
            && (OfKind(v, f.kind) <==> (f.kind.TextKind? ==> raw.Words?))
            && Parse(f.kind, Serialise(v)).Some? && Within(f, Parse(f.kind, Serialise(v)).value)
  {
    hide ParseInt, Denotes, Plain, Decimal.IntToString;
    var v := Validated(f, raw).value;
    if v.Number? {
      IntRoundTrip(v.n);
    }
  }

  // ----- the table and the session -----

  type Fields = map<string, Field>

  type Values = map<string, Value>

  /** effective_values: the stored value where there is one that can be read, else the default. */
  function Effective(fields: Fields, defaults: Values, seen: map<string, string>): (r: Values)
    requires fields.Keys == defaults.Keys
  {
    map k | k in fields :: EffectiveAt(fields[k], defaults[k], k, seen)
  }

  function EffectiveAt(f: Field, default: Value, k: string, seen: map<string, string>): Value {
    if k in seen then Parse(f.kind, seen[k]).GetOr(default) else default
  }

  /** The stored text, where there is one. */
  function At(rows: map<string, string>, k: string): Option<string> {
    if k in rows then Some(rows[k]) else None
  }

  lemma EffectiveMeans(f: Field, default: Value, k: string, seen: map<string, string>)
    ensures Gives(f, default, At(seen, k), EffectiveAt(f, default, k, seen))
  {
    if k in seen && f.kind.NumberKind? {
      var text := seen[k];
      hide ParseInt, Denotes;
      forall n ensures ParseInt(text) == Some(n) <==> Denotes(text, n) {
        ParseIntMeans(text, n);
      }
    }
  }

  /** One entry of a request. */
  datatype Entry = Entry(key: string, value: Value)

  predicate Writable(fields: Fields, allowed: Option<set<string>>, key: string) {
    key in fields && (allowed.Some? ==> key in allowed.value)
  }

  function SaveOne(
      fields: Fields, allowed: Option<set<string>>, s: Session<string>, e: Entry): Result<Session<string>, Invalid> {
    if !Writable(fields, allowed, e.key) then Ok(s)
    else
      match Validated(fields[e.key], e.value)
      case Err(why) => Err(why)
      case Ok(v) =>
        Ok(s.Put(e.key, Serialise(v)))
  }

  function Saved(
      fields: Fields, allowed: Option<set<string>>, s: Session<string>, values: seq<Entry>): Result<Session<string>, Invalid> {
    if values == [] then Ok(s)
    else
      match Saved(fields, allowed, s, values[..|values| - 1])
      case Err(why) => Err(why)
      case Ok(earlier) => SaveOne(fields, allowed, earlier, values[|values| - 1])
  }

  /** The text a request stores under a key, if it stores any. */
  function Stores(fields: Fields, allowed: Option<set<string>>, values: seq<Entry>, key: string): Option<string> {
    if values == [] then None
    else
      var e := values[|values| - 1];
      if e.key == key && Writable(fields, allowed, key) && Validated(fields[key], e.value).Ok?
      then Some(Serialise(Validated(fields[key], e.value).value))
      else Stores(fields, allowed, values[..|values| - 1], key)
  }

  predicate AllValid(fields: Fields, allowed: Option<set<string>>, values: seq<Entry>) {
    forall i :: 0 <= i < |values| && Writable(fields, allowed, values[i].key) ==>
      Validated(fields[values[i].key], values[i].value).Ok?
  }

  lemma {:induction false} SaveStores(
      fields: Fields, allowed: Option<set<string>>, s: Session<string>, values: seq<Entry>, key: string)
    requires s.Clean()
    ensures Saved(fields, allowed, s, values).Ok? <==> AllValid(fields, allowed, values)
    ensures Saved(fields, allowed, s, values).Ok? ==>
              var after := Saved(fields, allowed, s, values).value;
              var text := Stores(fields, allowed, values, key);
              && after.rows == s.rows
              && (key in after.changed <==> text.Some? && key in s.rows)
              && (key in after.added <==> text.Some? && key !in s.rows)
              && (key in after.changed ==> after.changed[key] == text.value)
              && (key in after.added ==> after.added[key] == text.value)
  {
    if values == [] {
    } else {
      var earlier, e := values[..|values| - 1], values[|values| - 1];
      SaveStores(fields, allowed, s, earlier, key);
      assert forall i :: 0 <= i < |earlier| ==> earlier[i] == values[i];
      assert values == earlier + [e];
      AllValidSplits(fields, allowed, earlier, e);
    }
  }

  /** What a request last says of a key. */
  function LastSent(values: seq<Entry>, key: string): Option<Value> {
    if values == [] then None
    else if values[|values| - 1].key == key then Some(values[|values| - 1].value)
    else LastSent(values[..|values| - 1], key)
  }

  /** Each entry for an editable key is one that its field takes. */
  ghost predicate Sound(fields: Fields, allowed: Option<set<string>>, values: seq<Entry>) {
    forall i :: 0 <= i < |values| && values[i].key in fields && (allowed == None || values[i].key in allowed.value) ==>
      Takes(fields[values[i].key], values[i].value)
  }

  lemma SoundIsValid(fields: Fields, allowed: Option<set<string>>, values: seq<Entry>)
    ensures Sound(fields, allowed, values) <==> AllValid(fields, allowed, values)
  {
    hide Validated, Takes;
    forall f, sent ensures Validated(f, sent).Ok? <==> Takes(f, sent) {
      ValidatedMeans(f, sent);
    }
  }

  /** The text a field stores for what was sent. */
  ghost predicate Keeps(f: Field, sent: Value, text: string) {
    exists kept :: Means(f, sent, kept) && Writes(text, kept)
  }

  lemma {:induction false} StoresLastSent(fields: Fields, allowed: Option<set<string>>, values: seq<Entry>, key: string)
    requires AllValid(fields, allowed, values)
    ensures var text, sent := Stores(fields, allowed, values, key), LastSent(values, key);
            && (text.Some? <==> key in fields && (allowed == None || key in allowed.value) && sent.Some?)
            && (text.Some? ==> Keeps(fields[key], sent.value, text.value)
                               && Parse(fields[key].kind, text.value).Some?
                               && Shows(fields[key], sent.value, Parse(fields[key].kind, text.value).value))
  {
    if values == [] {
    } else {
      var earlier, e := values[..|values| - 1], values[|values| - 1];
      assert values == earlier + [e];
      AllValidSplits(fields, allowed, earlier, e);
      assert AllValid(fields, allowed, [e]) ==> [e][0] == e;
      StoresLastSent(fields, allowed, earlier, key);
      if e.key == key && Writable(fields, allowed, key) {
        StoredShows(fields[key], e.value);
      }
    }
  }

  /** A save goes through exactly when every entry for an editable key is one that its field takes. It then
      holds what was last sent for each such key, as its field means it, among the changed rows if the key
      was stored before and among the added ones if not; of any other key it holds nothing. */
  lemma {:induction false} SaveMeans(
      fields: Fields, allowed: Option<set<string>>, s: Session<string>, values: seq<Entry>, key: string)
    requires s.Clean()
    ensures Saved(fields, allowed, s, values).Ok? <==> Sound(fields, allowed, values)
    ensures Saved(fields, allowed, s, values).Ok? ==>
              var after, sent := Saved(fields, allowed, s, values).value, LastSent(values, key);
              var written := key in fields && (allowed == None || key in allowed.value) && sent.Some?;
              && after.rows == s.rows
              && (key in after.changed <==> written && key in s.rows)
              && (key in after.added <==> written && key !in s.rows)
              && (key in after.changed ==> Keeps(fields[key], sent.value, after.changed[key]))
              && (key in after.added ==> Keeps(fields[key], sent.value, after.added[key]))
  {
    SoundIsValid(fields, allowed, values);
    SaveStores(fields, allowed, s, values, key);
    if AllValid(fields, allowed, values) {
      StoresLastSent(fields, allowed, values, key);
    }
  }

  lemma AllValidSplits(fields: Fields, allowed: Option<set<string>>, earlier: seq<Entry>, e: Entry)
    ensures AllValid(fields, allowed, earlier + [e]) <==>
            (AllValid(fields, allowed, earlier) && AllValid(fields, allowed, [e]))
  {
    var all := earlier + [e];
    assert all[|earlier|] == e;
    assert forall i :: 0 <= i < |earlier| ==> all[i] == earlier[i];
  }

  lemma {:induction false} GoesThrough(
      fields: Fields, allowed: Option<set<string>>, s: Session<string>, values: seq<Entry>)
    ensures Saved(fields, allowed, s, values).Ok? <==> Sound(fields, allowed, values)
  {
    SoundIsValid(fields, allowed, values);
    OkWhenValid(fields, allowed, s, values);
  }

  lemma {:induction false} OkWhenValid(
      fields: Fields, allowed: Option<set<string>>, s: Session<string>, values: seq<Entry>)
    ensures Saved(fields, allowed, s, values).Ok? <==> AllValid(fields, allowed, values)
  {
    if values == [] {
    } else {
      var earlier, e := values[..|values| - 1], values[|values| - 1];
      OkWhenValid(fields, allowed, s, earlier);
      assert values == earlier + [e];
      AllValidSplits(fields, allowed, earlier, e);
      assert AllValid(fields, allowed, [e]) <==> (Writable(fields, allowed, e.key) ==> Validated(fields[e.key], e.value).Ok?) by {
        assert [e][0] == e;
      }
    }
  }

  /** What a request that went through did to the row of one key. */
  ghost predicate Became(
      fields: Fields, allowed: Option<set<string>>, values: seq<Entry>,
      before: map<string, string>, after: map<string, string>, key: string) {
    if key in fields && (allowed == None || key in allowed.value) && LastSent(values, key).Some?
    then key in after && Keeps(fields[key], LastSent(values, key).value, after[key])
    else At(after, key) == At(before, key)
  }

  lemma {:induction false} SavedBecame(
      fields: Fields, allowed: Option<set<string>>, s: Session<string>, values: seq<Entry>, key: string)
    requires s.Clean() && Saved(fields, allowed, s, values).Ok?
    ensures Became(fields, allowed, values, s.rows, Saved(fields, allowed, s, values).value.Flush().rows, key)
  {
    SaveMeans(fields, allowed, s, values, key);
  }

  // ----- the panel: requests against the table and the running settings -----

  datatype Panel = Panel(rows: map<string, string>, settings: Values)

  /** refresh, on what a query of the session returns. */
  function Refreshed(fields: Fields, defaults: Values, seen: map<string, string>, settings: Values): Values
    requires fields.Keys == defaults.Keys
  {
    settings + Effective(fields, defaults, seen)
  }

  /** One request: save, refresh, commit. A request with an invalid entry is rolled back. */
  function Updated(fields: Fields, defaults: Values, allowed: Option<set<string>>, p: Panel, values: seq<Entry>): Panel
    requires fields.Keys == defaults.Keys
  {
    match Saved(fields, allowed, Session(p.rows, map[], map[]), values)
    case Err(_) => p
    case Ok(s) => Panel(s.Flush().rows, Refreshed(fields, defaults, s.Seen(), p.settings))
  }

  lemma {:induction false} UpdatedRows(
      fields: Fields, defaults: Values, allowed: Option<set<string>>, p: Panel, values: seq<Entry>, key: string)
    requires fields.Keys == defaults.Keys && AllValid(fields, allowed, values)
    ensures var q := Updated(fields, defaults, allowed, p, values);
            var text := Stores(fields, allowed, values, key);
            && (key in q.rows <==> text.Some? || key in p.rows)
            && (key in q.rows ==> q.rows[key] == if text.Some? then text.value else p.rows[key])
            && (key in fields ==>
                  key in q.settings
                  && q.settings[key] == EffectiveAt(fields[key], defaults[key], key, if key in p.rows then q.rows else map[]))
            && (key !in fields ==> (key in q.settings <==> key in p.settings)
                                   && (key in p.settings ==> q.settings[key] == p.settings[key]))
  {
    SaveStores(fields, allowed, Session(p.rows, map[], map[]), values, key);
  }

  lemma {:induction false} StoresWhenWritable(
      fields: Fields, allowed: Option<set<string>>, values: seq<Entry>, key: string)
    requires AllValid(fields, allowed, values)
    ensures var text := Stores(fields, allowed, values, key);
            && (text.Some? <==> Writable(fields, allowed, key) && exists i :: 0 <= i < |values| && values[i].key == key)
            && (text.Some? ==> key in fields && Parse(fields[key].kind, text.value).Some?
                               && Within(fields[key], Parse(fields[key].kind, text.value).value))
  {
    if values == [] {
    } else {
      var earlier, e := values[..|values| - 1], values[|values| - 1];
      assert values == earlier + [e];
      AllValidSplits(fields, allowed, earlier, e);
      assert AllValid(fields, allowed, [e]) ==> [e][0] == e;
      StoresWhenWritable(fields, allowed, earlier, key);
      if e.key == key && Writable(fields, allowed, key) {
        SerialiseRoundTrip(fields[key], e.value);
      }
    }
  }

  /** When a request takes effect. What it last sends for a key is what the panel shows from then on, as the
      field means it. The running setting is that value at once if the key was stored before; for a key
      stored for the first time it is the default until the next refresh, because the query does not see
      the added row. */
  lemma {:induction false} TakesEffect(
      fields: Fields, defaults: Values, allowed: Option<set<string>>, p: Panel, values: seq<Entry>, key: string)
    requires fields.Keys == defaults.Keys && Sound(fields, allowed, values)
    requires key in fields && (allowed == None || key in allowed.value) && LastSent(values, key).Some?
    ensures var q := Updated(fields, defaults, allowed, p, values);
            var saved := Effective(fields, defaults, q.rows)[key];
            && Shows(fields[key], LastSent(values, key).value, saved)
            && key in q.settings
            && q.settings[key] == (if key in p.rows then saved else defaults[key])
            && (q.settings[key] == saved <==> key in p.rows || saved == defaults[key])
            && Refreshed(fields, defaults, q.rows, q.settings)[key] == saved
  {
    SoundIsValid(fields, allowed, values);
    StoresLastSent(fields, allowed, values, key);
    hide Shows, Keeps, Parse, Stores;
    UpdatedRows(fields, defaults, allowed, p, values, key);
  }

  // ----- runs -----

  datatype Event = Update(allowed: Option<set<string>>, values: seq<Entry>) | Refresh

  function Step(fields: Fields, defaults: Values, p: Panel, e: Event): Panel
    requires fields.Keys == defaults.Keys
  {
    match e
    case Update(allowed, values) => Updated(fields, defaults, allowed, p, values)
    case Refresh => p.(settings := Refreshed(fields, defaults, p.rows, p.settings))
  }

  function Run(fields: Fields, defaults: Values, p: Panel, run: seq<Event>): Panel
    requires fields.Keys == defaults.Keys
  {
    if run == [] then p else Step(fields, defaults, Run(fields, defaults, p, run[..|run| - 1]), run[|run| - 1])
  }

  predicate RowsWithin(fields: Fields, rows: map<string, string>) {
    forall k :: k in fields && k in rows && Parse(fields[k].kind, rows[k]).Some? ==>
      Within(fields[k], Parse(fields[k].kind, rows[k]).value)
  }

  predicate SettingsWithin(fields: Fields, settings: Values) {
    forall k :: k in fields && k in settings ==> Within(fields[k], settings[k])
  }

  predicate OthersUnmoved(fields: Fields, before: Values, after: Values) {
    && (forall k :: k in before && k !in fields ==> k in after && after[k] == before[k])
    && (forall k :: k in after && k !in fields ==> k in before)
  }

  lemma StepKeepsBounds(fields: Fields, defaults: Values, p: Panel, e: Event)
    requires fields.Keys == defaults.Keys && SettingsWithin(fields, defaults)
    requires RowsWithin(fields, p.rows) && SettingsWithin(fields, p.settings)
    ensures var q := Step(fields, defaults, p, e);
            && RowsWithin(fields, q.rows) && SettingsWithin(fields, q.settings)
            && OthersUnmoved(fields, p.settings, q.settings)
  {
    if e.Update? && AllValid(fields, e.allowed, e.values) {
      var q := Step(fields, defaults, p, e);
      forall k ensures k in fields && k in q.rows && Parse(fields[k].kind, q.rows[k]).Some? ==>
                         Within(fields[k], Parse(fields[k].kind, q.rows[k]).value)
               ensures k in fields && k in q.settings ==> Within(fields[k], q.settings[k])
               ensures k !in fields ==> (k in q.settings <==> k in p.settings)
                                        && (k in p.settings ==> q.settings[k] == p.settings[k])
      {
        UpdatedRows(fields, defaults, e.allowed, p, e.values, k);
        StoresWhenWritable(fields, e.allowed, e.values, k);
      }
    } else if e.Update? {
      SaveStores(fields, e.allowed, Session(p.rows, map[], map[]), e.values, "");
    }
  }

  /** Over any run of requests and refreshes, whatever they ask for: a bounded setting stays within its
      bounds if the defaults and the stored rows were, and no setting outside the table of fields moves. */
  lemma {:induction false} RunKeepsBounds(fields: Fields, defaults: Values, p: Panel, run: seq<Event>)
    requires fields.Keys == defaults.Keys && SettingsWithin(fields, defaults)
    requires RowsWithin(fields, p.rows) && SettingsWithin(fields, p.settings)
    ensures var q := Run(fields, defaults, p, run);
            && RowsWithin(fields, q.rows) && SettingsWithin(fields, q.settings)
            && OthersUnmoved(fields, p.settings, q.settings)
  {
    if run == [] {
    } else {
      RunKeepsBounds(fields, defaults, p, run[..|run| - 1]);
      StepKeepsBounds(fields, defaults, Run(fields, defaults, p, run[..|run| - 1]), run[|run| - 1]);
    }
  }

  /** The text the run last stored under the key, counting only requests that went through. */
  function LastStored(fields: Fields, run: seq<Event>, key: string): Option<string> {
    if run == [] then None
    else
      var e := run[|run| - 1];
      if e.Update? && AllValid(fields, e.allowed, e.values) && Stores(fields, e.allowed, e.values, key).Some?
      then Stores(fields, e.allowed, e.values, key)
      else LastStored(fields, run[..|run| - 1], key)
  }

  /** What was last sent for the key by a request that its form allowed to set it, counting only requests of
      which every entry was sound. */
  ghost function LastSentInRun(fields: Fields, run: seq<Event>, key: string): Option<Value>
    requires key in fields
  {
    if run == [] then None
    else
      var e := run[|run| - 1];
      if e.Update? && Sound(fields, e.allowed, e.values) && (e.allowed == None || key in e.allowed.value)
         && LastSent(e.values, key).Some?
      then LastSent(e.values, key)
      else LastSentInRun(fields, run[..|run| - 1], key)
  }

  lemma {:induction false} LastStoredWasSent(fields: Fields, run: seq<Event>, key: string)
    requires key in fields
    ensures var last, sent := LastStored(fields, run, key), LastSentInRun(fields, run, key);
            && (last.Some? <==> sent.Some?)
            && (last.Some? ==> Parse(fields[key].kind, last.value).Some?
                               && Shows(fields[key], sent.value, Parse(fields[key].kind, last.value).value))
  {
    if run == [] {
    } else {
      var e := run[|run| - 1];
      LastStoredWasSent(fields, run[..|run| - 1], key);
      if e.Update? {
        SoundIsValid(fields, e.allowed, e.values);
        if AllValid(fields, e.allowed, e.values) {
          StoresLastSent(fields, e.allowed, e.values, key);
        }
      }
    }
  }

  /** After any run and one more refresh, each setting is what was last sent for it, as its field means it;
      what the table gave at first if nothing was; and the default if there is neither. */
  lemma {:induction false} LastSavedWins(fields: Fields, defaults: Values, p: Panel, run: seq<Event>, key: string)
    requires fields.Keys == defaults.Keys && key in fields
    ensures var q, sent := Run(fields, defaults, p, run + [Refresh]), LastSentInRun(fields, run, key);
            && key in q.settings
            && (sent.Some? ==> Shows(fields[key], sent.value, q.settings[key]))
            && (sent.None? ==> Gives(fields[key], defaults[key], At(p.rows, key), q.settings[key]))
  {
    assert (run + [Refresh])[..|run|] == run;
    hide Shows, Gives, Parse;
    RowsAfterRun(fields, defaults, p, run, key);
    LastStoredWasSent(fields, run, key);
    EffectiveMeans(fields[key], defaults[key], key, p.rows);
  }

  lemma {:induction false} RowsAfterRun(fields: Fields, defaults: Values, p: Panel, run: seq<Event>, key: string)
    requires fields.Keys == defaults.Keys && key in fields
    ensures var rows := Run(fields, defaults, p, run).rows;
            var last := LastStored(fields, run, key);
            && (last.Some? ==> key in rows && rows[key] == last.value && Parse(fields[key].kind, last.value).Some?)
            && (last.None? ==> (key in rows <==> key in p.rows) && (key in rows ==> rows[key] == p.rows[key]))
  {
    if run == [] {
    } else {
      var earlier, e := run[..|run| - 1], run[|run| - 1];
      RowsAfterRun(fields, defaults, p, earlier, key);
      var before := Run(fields, defaults, p, earlier);
      if e.Update? {
        SaveStores(fields, e.allowed, Session(before.rows, map[], map[]), e.values, key);
        if AllValid(fields, e.allowed, e.values) {
          UpdatedRows(fields, defaults, e.allowed, before, e.values, key);
          StoresWhenWritable(fields, e.allowed, e.values, key);
        }
      }
    }
  }

  class IntegrationSettings {
    const fields: Fields
    const defaults: Values
    var session: Session<string>
    var settings: Values

    ghost predicate Valid()
      reads this
    {
      fields.Keys == defaults.Keys
    }

    constructor (fields: Fields, defaults: Values, rows: map<string, string>, settings: Values)
      requires fields.Keys == defaults.Keys
      ensures Valid() && this.fields == fields && this.defaults == defaults
      ensures session == Session(rows, map[], map[]) && this.settings == settings
    {
      this.fields, this.defaults, this.session, this.settings := fields, defaults, Session(rows, map[], map[]), settings;
    }

    method EffectiveValues() returns (values: Values)
      requires Valid()
      ensures values == Effective(fields, defaults, session.Seen())
      ensures forall k | k in fields :: Gives(fields[k], defaults[k], At(session.Seen(), k), values[k])
    {
      values := defaults;
      var seen := session.Seen();
      var left := seen.Keys;
      while left != {}
        invariant left <= seen.Keys && values.Keys == fields.Keys
        invariant forall k :: k in fields ==>
                    values[k] == if k in left then defaults[k] else EffectiveAt(fields[k], defaults[k], k, seen)
        decreases |left|
      {
        var key :| key in left;
        left := left - {key};
        if key in fields {
          var parsed := Parse(fields[key].kind, seen[key]);
          if parsed.Some? {
            values := values[key := parsed.value];
          }
        }
      }
      forall k | k in fields ensures Gives(fields[k], defaults[k], At(seen, k), values[k]) {
        EffectiveMeans(fields[k], defaults[k], k, seen);
      }
    }

    method Refresh()
      requires Valid()
      modifies this`settings
      ensures settings == Refreshed(fields, defaults, session.Seen(), old(settings))
    {
      var values := EffectiveValues();
      settings := settings + values;
    }

    method Save(values: seq<Entry>, allowed: Option<set<string>>) returns (error: Option<Invalid>)
      modifies this`session
      ensures error.Some? ==> Saved(fields, allowed, old(session), values) == Err(error.value)
      ensures error.Some? ==> session.rows == old(session).rows
      ensures error.None? ==> Saved(fields, allowed, old(session), values) == Ok(session)
      ensures error.None? <==> Sound(fields, allowed, values)
      ensures old(session).Clean() && error.None? ==>
                forall key :: Became(fields, allowed, values, old(session).rows, session.Flush().rows, key)
    {
      var i := 0;
      while i < |values|
        invariant i <= |values| && Saved(fields, allowed, old(session), values[..i]) == Ok(session)
        invariant session.rows == old(session).rows
      {
        var e := values[i];
        assert values[..i + 1][..i] == values[..i];
        if Writable(fields, allowed, e.key) {
          match Validated(fields[e.key], e.value) {
            case Err(why) => {
              FirstErrorStays(fields, allowed, old(session), values, i + 1);
              GoesThrough(fields, allowed, old(session), values);
              return Some(why);
            }
            case Ok(v) =>
              if e.key in session.rows {
                session := session.(changed := session.changed[e.key := Serialise(v)]);
              } else {
                session := session.(added := session.added[e.key := Serialise(v)]);
              }
          }
        }
        i := i + 1;
      }
      assert values[..i] == values;
      error := None;
      GoesThrough(fields, allowed, old(session), values);
      if old(session).Clean() {
        forall key ensures Became(fields, allowed, values, old(session).rows, session.Flush().rows, key) {
          SavedBecame(fields, allowed, old(session), values, key);
        }
      }
    }

    /** The request handler around save: commit and refresh, or roll back. */
    method Update(values: seq<Entry>, allowed: Option<set<string>>) returns (error: Option<Invalid>)
      requires Valid() && session.Clean()
      modifies this
      ensures Valid() && session.Clean()
      ensures Panel(session.rows, settings)
           == Updated(fields, defaults, allowed, Panel(old(session).rows, old(settings)), values)
      ensures error.None? <==> Sound(fields, allowed, values)
      ensures error.Some? ==> session == old(session) && settings == old(settings)
      ensures error.None? ==> forall key :: Became(fields, allowed, values, old(session).rows, session.rows, key)
    {
      SoundIsValid(fields, allowed, values);
      SaveStores(fields, allowed, session, values, "");
      assert session == Session(session.rows, map[], map[]);
      error := Save(values, allowed);
      if error.Some? {
        session := Session(session.rows, map[], map[]);
        return;
      }
      Refresh();
      session := session.Flush();
    }
  }

  lemma {:induction false} FirstErrorStays(
      fields: Fields, allowed: Option<set<string>>, s: Session<string>, values: seq<Entry>, i: nat)
    requires i <= |values| && Saved(fields, allowed, s, values[..i]).Err?
    ensures Saved(fields, allowed, s, values) == Saved(fields, allowed, s, values[..i])
  {
    if i == |values| {
      assert values[..i] == values;
    } else {
      assert values[..|values| - 1][..i] == values[..i];
      FirstErrorStays(fields, allowed, s, values[..|values| - 1], i);
    }
  }
}
