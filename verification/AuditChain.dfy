/** The hash-chained audit log: what a row's hash covers, the walk that checks a chain, and what an
    accepted chain proves about its rows. */
module AuditChain {
  import opened Wrappers
  import Decimal
  import Json
  import JsonReader

  /** The content of a log entry: every hashed column but the link. */
  datatype Content = Content(
    actor: int,
    event: string,
    record: Option<int>,
    oldValue: Json.Doc,
    newValue: Json.Doc)

  /** A stored row. Neither the id nor the creation time is hashed. */
  datatype Row = Row(id: int, content: Content, prevHash: string, entryHash: string)

  const GENESIS: string := Decimal.Zeros(64)

  /** The six fields a row's hash covers, in the order the program lists them. */
  function Fields(c: Content, prev: string): (fs: seq<Json.Field>)
    ensures Json.DistinctFields(fs)
  {
    var fs := [
      Json.Field("actor_user_id", Json.Int(c.actor)),
      Json.Field("event_type", Json.Str(c.event)),
      Json.Field("evaluation_record_id", if c.record.Some? then Json.Int(c.record.value) else Json.Null),
      Json.Field("old_value", c.oldValue),
      Json.Field("new_value", c.newValue),
      Json.Field("prev_hash", Json.Str(prev))];
    assert |fs[0].key| == 13 && |fs[1].key| == 10 && |fs[2].key| == 20;
    assert |fs[3].key| == |fs[4].key| == |fs[5].key| == 9;
    assert fs[3].key[0] == 'o' && fs[4].key[0] == 'n' && fs[5].key[0] == 'p';
    Json.DistinctByIndex(fs);
    fs
  }

  function Canonical(c: Content, prev: string): string {
    Json.Dumps(Json.Dict(Fields(c, prev)))
  }

  /** Equal as JSON values: dict key order aside, the same content. */
  ghost predicate Same(a: Content, b: Content) {
    && a.actor == b.actor && a.event == b.event && a.record == b.record
    && Json.Meaning(a.oldValue) == Json.Meaning(b.oldValue)
    && Json.Meaning(a.newValue) == Json.Meaning(b.newValue)
  }

  /** The canonical text is equal exactly for the same content over the same previous hash. */
  lemma CanonicalIsExact(a: Content, b: Content, p: string, q: string)
    ensures Canonical(a, p) == Canonical(b, q) <==> Same(a, b) && p == q
  {
    hide Json.Dumps, Json.Meaning;
    var fs, gs := Fields(a, p), Fields(b, q);
    Json.DumpsIsCanonical(Json.Dict(fs), Json.Dict(gs));
    FieldsAreExact(a, b, p, q);
  }

  /** What the hashed text says to any reader of JSON: an object with these six names, each with its own
      column's value. */
  function Payload(c: Content, prev: string): map<string, Json.Json> {
    map[
      "actor_user_id" := Json.JInt(c.actor),
      "event_type" := Json.JStr(c.event),
      "evaluation_record_id" := if c.record.Some? then Json.JInt(c.record.value) else Json.JNull,
      "old_value" := Json.Meaning(c.oldValue),
      "new_value" := Json.Meaning(c.newValue),
      "prev_hash" := Json.JStr(prev)]
  }

  /** The text a row's hash covers, read by the grammar of JSON alone, gives back the row's columns. */
  lemma CanonicalReads(c: Content, prev: string)
    ensures JsonReader.Load(Canonical(c, prev)) == Some(Json.JObject(Payload(c, prev)))
  {
    hide JsonReader.Load, Json.Dumps, Json.MeaningOfFields, Json.MeaningOfItems, Json.Keys, Json.DistinctFields;
    var fs := Fields(c, prev);
    JsonReader.DumpsReadsBack(Json.Dict(fs));
    KeysAre(c, prev);
    FieldsAre(c, prev);
    var m := Json.MeaningOfFields(fs);
    forall i | 0 <= i < |fs| ensures fs[i].key in m && m[fs[i].key] == Json.Meaning(fs[i].value) {
      Json.FieldMeans(fs, i);
    }
    hide Fields;
    forall k | k in m ensures k in Payload(c, prev) {
      Json.KeyIsListed(fs, k);
    }
    assert m == Payload(c, prev);
  }

  lemma KeysAre(c: Content, prev: string)
    ensures var fs := Fields(c, prev);
            && |fs| == 6 && fs[0].key == "actor_user_id" && fs[1].key == "event_type"
            && fs[2].key == "evaluation_record_id" && fs[3].key == "old_value" && fs[4].key == "new_value"
            && fs[5].key == "prev_hash"
  {
  }

  lemma FieldsAre(c: Content, prev: string)
    ensures var fs := Fields(c, prev);
            && |fs| == 6 && fs[0].value == Json.Int(c.actor) && fs[1].value == Json.Str(c.event)
            && fs[2].value == (if c.record.Some? then Json.Int(c.record.value) else Json.Null)
            && fs[3].value == c.oldValue && fs[4].value == c.newValue && fs[5].value == Json.Str(prev)
  {
  }

  lemma KeysAreFixed(a: Content, b: Content, p: string, q: string)
    ensures |Fields(a, p)| == |Fields(b, q)|
    ensures forall i :: 0 <= i < |Fields(a, p)| ==> Fields(a, p)[i].key == Fields(b, q)[i].key
  {
  }

  ghost predicate SameValues(fs: seq<Json.Field>, gs: seq<Json.Field>)
    requires |fs| == |gs| == 6
  {
    && Json.Meaning(fs[0].value) == Json.Meaning(gs[0].value) && Json.Meaning(fs[1].value) == Json.Meaning(gs[1].value)
    && Json.Meaning(fs[2].value) == Json.Meaning(gs[2].value) && Json.Meaning(fs[3].value) == Json.Meaning(gs[3].value)
    && Json.Meaning(fs[4].value) == Json.Meaning(gs[4].value) && Json.Meaning(fs[5].value) == Json.Meaning(gs[5].value)
  }

  lemma AllSix(fs: seq<Json.Field>, gs: seq<Json.Field>)
    requires |fs| == |gs| == 6
    ensures SameValues(fs, gs) <==>
            forall i :: 0 <= i < |fs| ==> Json.Meaning(fs[i].value) == Json.Meaning(gs[i].value)
  {
  }

  lemma FieldsAreExact(a: Content, b: Content, p: string, q: string)
    ensures Json.Meaning(Json.Dict(Fields(a, p))) == Json.Meaning(Json.Dict(Fields(b, q))) <==> Same(a, b) && p == q
  {
    hide Fields, Json.MeaningOfFields, Json.MeaningOfItems;
    var fs, gs := Fields(a, p), Fields(b, q);
    FieldsAre(a, p);
    FieldsAre(b, q);
    KeysAreFixed(a, b, p, q);
    Json.SameKeys(fs, gs);
    AllSix(fs, gs);
  }

  function Contents(log: seq<Row>): (cs: seq<Content>)
    ensures |cs| == |log| && forall i :: 0 <= i < |log| ==> cs[i] == log[i].content
  {
    if log == [] then [] else Contents(log[..|log| - 1]) + [log[|log| - 1].content]
  }

  // ----- the walk -----

  /** SHA-256 (FIPS 180-4) of the UTF-8 text, as lower-case hex; left abstract. */
  type Sha = string -> string

  /** What collision resistance is taken to mean: different texts have different hashes, and no
      text hashes to the constant the chain starts from. */
  ghost predicate CollisionFree(sha: Sha) {
    && (forall x, y :: sha(x) == sha(y) ==> x == y)
    && (forall x :: sha(x) != GENESIS)
  }

  function HashOf(sha: Sha, c: Content, prev: string): string {
    sha(Canonical(c, prev))
  }

  datatype Reason = LinkBroken | ContentEdited | AnchorMismatch

  datatype Verdict = Verdict(
    ok: bool,
    checked: nat,
    brokenAt: Option<int>,
    reason: Option<Reason>,
    full: bool,
    anchorLogId: Option<int>,
    anchorVerifiedAt: Option<int>)

  /** The hash row i must carry as its link. */
  function Expected(rows: seq<Row>, start: Option<string>, i: nat): Option<string>
    requires i <= |rows|
  {
    if i == 0 then start else Some(rows[i - 1].entryHash)
  }

  predicate Linked(rows: seq<Row>, start: Option<string>, i: nat)
    requires i < |rows|
  {
    Some(rows[i].prevHash) == Expected(rows, start, i)
  }

  predicate Intact(sha: Sha, row: Row) {
    HashOf(sha, row.content, row.prevHash) == row.entryHash
  }

  predicate Good(sha: Sha, rows: seq<Row>, start: Option<string>, i: nat)
    requires i < |rows|
  {
    Linked(rows, start, i) && Intact(sha, rows[i])
  }

  predicate Accepted(sha: Sha, rows: seq<Row>, start: Option<string>) {
    forall i: nat :: i < |rows| ==> Good(sha, rows, start, i)
  }

  /** The position of the first bad row, or the number of rows if there is none. */
  function FirstBad(sha: Sha, rows: seq<Row>, start: Option<string>): (k: nat)
    ensures k <= |rows|
    ensures forall i: nat :: i < k ==> Good(sha, rows, start, i)
    ensures k < |rows| ==> !Good(sha, rows, start, k)
  {
    if rows == [] || !Good(sha, rows, start, 0) then 0
    else
      GoodInRest(sha, rows, start);
      FirstBad(sha, rows[1..], Some(rows[0].entryHash)) + 1
  }

  lemma GoodInRest(sha: Sha, rows: seq<Row>, start: Option<string>)
    requires rows != []
    ensures forall i: nat :: 1 <= i < |rows| ==>
              Good(sha, rows, start, i) == Good(sha, rows[1..], Some(rows[0].entryHash), i - 1)
  {
  }

  /** What a walk over rows that starts from the given link reports. */
  function Report(sha: Sha, rows: seq<Row>, start: Option<string>, full: bool,
                  anchorLogId: Option<int>, anchorVerifiedAt: Option<int>): (v: Verdict)
    ensures v.ok <==> Accepted(sha, rows, start)
  {
    var k := FirstBad(sha, rows, start);
    if k == |rows| then
      Verdict(true, |rows|, None, None, full, anchorLogId, anchorVerifiedAt)
    else
      var reason := if Linked(rows, start, k) then ContentEdited else LinkBroken;
      Verdict(false, k + 1, Some(rows[k].id), Some(reason), full, anchorLogId, anchorVerifiedAt)
  }

  lemma {:induction false} FirstBadIs(sha: Sha, rows: seq<Row>, start: Option<string>, k: nat)
    requires k <= |rows|
    requires forall i: nat :: i < k ==> Good(sha, rows, start, i)
    requires k < |rows| ==> !Good(sha, rows, start, k)
    ensures FirstBad(sha, rows, start) == k
  {
  }

  method Walk(sha: Sha, rows: seq<Row>, start: Option<string>, full: bool,
              anchorLogId: Option<int>, anchorVerifiedAt: Option<int>)
    returns (v: Verdict)
    ensures v == Report(sha, rows, start, full, anchorLogId, anchorVerifiedAt)
  {
    var checked := 0;
    var expected := start;
    while checked < |rows|
      invariant 0 <= checked <= |rows|
      invariant expected == Expected(rows, start, checked)
      invariant forall i: nat :: i < checked ==> Good(sha, rows, start, i)
    {
      var row := rows[checked];
      checked := checked + 1;
      var recomputed := HashOf(sha, row.content, row.prevHash);
      if Some(row.prevHash) != expected {
        FirstBadIs(sha, rows, start, checked - 1);
        return Verdict(false, checked, Some(row.id), Some(LinkBroken), full, anchorLogId, anchorVerifiedAt);
      }
      if recomputed != row.entryHash {
        FirstBadIs(sha, rows, start, checked - 1);
        return Verdict(false, checked, Some(row.id), Some(ContentEdited), full, anchorLogId, anchorVerifiedAt);
      }
      expected := Some(row.entryHash);
    }
    FirstBadIs(sha, rows, start, |rows|);
    return Verdict(true, checked, None, None, full, anchorLogId, anchorVerifiedAt);
  }

  // ----- the log as the database lists it, and the ledger of full checks -----

  /** Rows come back in id order, and an id is a primary key. */
  predicate Ordered(log: seq<Row>) {
    forall i, j :: 0 <= i < j < |log| ==> log[i].id < log[j].id
  }

  function LastHash(log: seq<Row>): string {
    if log == [] then GENESIS else log[|log| - 1].entryHash
  }

  function NewRow(sha: Sha, prev: string, id: int, c: Content): Row {
    Row(id, c, prev, HashOf(sha, c, prev))
  }

  datatype Check = Check(
    id: int,
    ok: bool,
    logId: Option<int>,
    entryHash: Option<string>,
    verifiedRows: nat,
    brokenAt: Option<int>,
    reason: Option<Reason>,
    verifiedAt: int)

  predicate IsAnchor(c: Check) {
    c.ok && c.logId.Some?
  }

  /** The newest successful check that names a row. */
  function LatestAnchor(checks: seq<Check>): (a: Option<Check>)
    ensures a.Some? ==> a.value in checks && IsAnchor(a.value)
  {
    if checks == [] then None
    else
      var last := checks[|checks| - 1];
      if IsAnchor(last) then Some(last) else LatestAnchor(checks[..|checks| - 1])
  }

  ghost predicate NewestAt(checks: seq<Check>, i: nat) {
    i < |checks| && IsAnchor(checks[i]) && forall j :: i < j < |checks| ==> !IsAnchor(checks[j])
  }

  /** There is none only if no check qualifies; otherwise it is one that no later one follows. */
  lemma {:induction false} LatestAnchorIsNewest(checks: seq<Check>)
    ensures LatestAnchor(checks).None? <==> forall i :: 0 <= i < |checks| ==> !IsAnchor(checks[i])
    ensures LatestAnchor(checks).Some? ==>
              exists i: nat :: NewestAt(checks, i) && checks[i] == LatestAnchor(checks).value
  {
    if checks == [] {
    } else {
      var n := |checks| - 1;
      var earlier, last := checks[..n], checks[n];
      assert checks == earlier + [last];
      LatestAnchorIsNewest(earlier);
      if IsAnchor(last) {
        assert NewestAt(checks, n);
      } else if LatestAnchor(earlier).Some? {
        var i: nat :| NewestAt(earlier, i) && earlier[i] == LatestAnchor(earlier).value;
        assert NewestAt(checks, i);
      }
    }
  }

  /** The stored hash of the row with this id. */
  function HashAt(log: seq<Row>, id: int): Option<string> {
    if log == [] then None
    else if log[0].id == id then Some(log[0].entryHash)
    else HashAt(log[1..], id)
  }

  /** The rows with a greater id. */
  function After(log: seq<Row>, id: int): seq<Row> {
    if log == [] then []
    else (if log[0].id > id then [log[0]] else []) + After(log[1..], id)
  }

  /** In an ordered log the row at position i is found by its id, and what follows it is a suffix. */
  lemma {:induction false} Lookup(log: seq<Row>, i: nat)
    requires Ordered(log) && i < |log|
    ensures HashAt(log, log[i].id) == Some(log[i].entryHash)
    ensures After(log, log[i].id) == log[i + 1..]
  {
    if i > 0 {
      Lookup(log[1..], i - 1);
    } else {
      AllAfter(log[1..], log[0].id);
    }
  }

  lemma {:induction false} AllAfter(log: seq<Row>, id: int)
    requires forall r | r in log :: r.id > id
    ensures After(log, id) == log
  {
    if log == [] {
    } else {
      AllAfter(log[1..], id);
    }
  }

  // ----- the three forms of verify_chain -----

  function FullVerdict(sha: Sha, log: seq<Row>): Verdict {
    Report(sha, log, Some(GENESIS), true, None, None)
  }

  function Tail(log: seq<Row>, limit: nat): seq<Row> {
    if limit < |log| then log[|log| - limit..] else log
  }

  function WindowVerdict(sha: Sha, log: seq<Row>, limit: nat): Verdict {
    var rows := Tail(log, limit);
    Report(sha, rows, Some(if rows == [] then GENESIS else rows[0].prevHash), false, None, None)
  }

  function FastVerdict(sha: Sha, log: seq<Row>, checks: seq<Check>): Verdict {
    match LatestAnchor(checks)
    case None => FullVerdict(sha, log)
    case Some(a) =>
      var id := a.logId.value;
      if HashAt(log, id) != a.entryHash then
        Verdict(false, 0, Some(id), Some(AnchorMismatch), false, Some(id), Some(a.verifiedAt))
      else
        Report(sha, After(log, id), a.entryHash, false, Some(id), Some(a.verifiedAt))
  }
}
