/** The log together with its ledger of full checks: log_event, verify_chain and
    record_full_verification as operations on the two tables, and every run of them. */
module AuditLedger {
  import opened Wrappers
  import opened AuditChain
  import opened AuditTampering

  datatype Tables = Tables(log: seq<Row>, checks: seq<Check>, nextLogId: int, nextCheckId: int)

  const EMPTY := Tables([], [], 1, 1)

  /** Appends one entry. Ids come from a sequence, which may skip. */
  function Logged(sha: Sha, t: Tables, c: Content, skip: nat): Tables {
    var id := t.nextLogId + skip;
    t.(log := t.log + [NewRow(sha, LastHash(t.log), id, c)], nextLogId := id + 1)
  }

  lemma LoggedIs(sha: Sha, t: Tables, c: Content, skip: nat)
    ensures var u := Logged(sha, t, c, skip);
            && |u.log| == |t.log| + 1 && u.log[..|t.log|] == t.log
            && u.log[|t.log|].content == c && Intact(sha, u.log[|t.log|])
            && t.nextLogId <= u.log[|t.log|].id < u.nextLogId
            && u.log[|t.log|].prevHash == (if t.log == [] then GENESIS else t.log[|t.log| - 1].entryHash)
            && u.checks == t.checks && u.nextCheckId == t.nextCheckId
  {
    hide HashOf;
  }

  datatype Entry = Entry(content: Content, skip: nat)

  function LoggedAll(sha: Sha, t: Tables, entries: seq<Entry>): Tables {
    if entries == [] then t
    else
      var e := entries[|entries| - 1];
      Logged(sha, LoggedAll(sha, t, entries[..|entries| - 1]), e.content, e.skip)
  }

  /** The row the newest successful check names, if any. */
  function PreviousAnchorId(checks: seq<Check>): Option<int> {
    if checks == [] then None
    else if checks[|checks| - 1].ok then checks[|checks| - 1].logId
    else PreviousAnchorId(checks[..|checks| - 1])
  }

  function NewCheck(id: int, v: Verdict, head: Row, now: int): Check {
    Check(id, v.ok, Some(head.id), if v.ok then Some(head.entryHash) else None,
          v.checked, v.brokenAt, v.reason, now)
  }

  function Advanced(checks: seq<Check>, v: Verdict, head: Row): bool {
    var previous := PreviousAnchorId(checks);
    v.ok && (previous.None? || head.id > previous.value)
  }

  /** The session's view of both tables. */
  class Store {
    const sha: Sha
    var tables: Tables

    constructor (sha: Sha)
      ensures tables == EMPTY && this.sha == sha
    {
      this.sha := sha;
      tables := EMPTY;
    }

    /** One row more: what the caller gave, linked to the head, under a later id. */
    method LogEvent(c: Content, skip: nat)
      modifies this
      ensures |tables.log| == |old(tables).log| + 1 && tables.log[..|old(tables).log|] == old(tables).log
      ensures var row, before := tables.log[|old(tables).log|], old(tables).log;
              && row.content == c && Intact(sha, row) && old(tables).nextLogId <= row.id < tables.nextLogId
              && row.prevHash == if before == [] then GENESIS else before[|before| - 1].entryHash
      ensures tables.checks == old(tables).checks && tables.nextCheckId == old(tables).nextCheckId
      ensures tables == Logged(sha, old(tables), c, skip)
      ensures Accepted(sha, old(tables.log), ROOT) ==> Accepted(sha, tables.log, ROOT)
    {
      LogKeepsChain(sha, tables, c, skip);
      LoggedIs(sha, tables, c, skip);
      hide Accepted, HashOf, Intact;
      var prev := if tables.log == [] then GENESIS else tables.log[|tables.log| - 1].entryHash;
      var entry := HashOf(sha, c, prev);
      var id := tables.nextLogId + skip;
      tables := tables.(log := tables.log + [Row(id, c, prev, entry)], nextLogId := id + 1);
    }

    method VerifyChain(limit: Option<nat>, sinceAnchor: bool) returns (r: Result<Verdict, string>)
      ensures r.Err? <==> sinceAnchor && limit.Some?
      ensures sinceAnchor && limit.None? ==> r == Ok(FastVerdict(sha, tables.log, tables.checks))
      ensures !sinceAnchor && limit.Some? ==> r == Ok(WindowVerdict(sha, tables.log, limit.value))
      ensures !sinceAnchor && limit.None? ==> r == Ok(FullVerdict(sha, tables.log))
    {
      if sinceAnchor && limit.Some? {
        return Err("since_anchor and limit exclude each other");
      }
      var anchor := if sinceAnchor then LatestAnchor(tables.checks) else None;
      if anchor.Some? {
        var a := anchor.value;
        var stored := HashAt(tables.log, a.logId.value);
        if stored != a.entryHash {
          return Ok(Verdict(false, 0, a.logId, Some(AnchorMismatch), false, a.logId, Some(a.verifiedAt)));
        }
        var v := Walk(sha, After(tables.log, a.logId.value), a.entryHash, false, a.logId, Some(a.verifiedAt));
        return Ok(v);
      }
      if limit.None? {
        var v := Walk(sha, tables.log, Some(GENESIS), true, None, None);
        return Ok(v);
      }
      var rows := Tail(tables.log, limit.value);
      var start := if rows == [] then GENESIS else rows[0].prevHash;
      var v := Walk(sha, rows, Some(start), false, None, None);
      return Ok(v);
    }

    method RecordFullVerification(now: int) returns (v: Verdict, advanced: bool)
      modifies this
      ensures v == FullVerdict(sha, old(tables.log))
      ensures (tables, advanced) == Recorded(sha, old(tables), [], now)
      ensures tables.log == old(tables.log)
    {
      hide HashOf, FirstBad;
      v := Walk(sha, tables.log, Some(GENESIS), true, None, None);
      if tables.log == [] {
        return v, false;
      }
      var head := tables.log[|tables.log| - 1];
      var check := Check(tables.nextCheckId, v.ok, Some(head.id), if v.ok then Some(head.entryHash) else None,
                         v.checked, v.brokenAt, v.reason, now);
      var previous := PreviousAnchorId(tables.checks);
      tables := tables.(checks := tables.checks + [check], nextCheckId := tables.nextCheckId + 1);
      advanced := v.ok && (previous.None? || head.id > previous.value);
    }
  }

  /** record_full_verification. The head is read first and the chain walked after, so entries that
      other transactions commit in between are walked but not named by the anchor. */
  function Recorded(sha: Sha, t: Tables, during: seq<Entry>, now: int): (Tables, bool) {
    var u := LoggedAll(sha, t, during);
    if t.log == [] then (u, false)
    else
      var head := t.log[|t.log| - 1];
      var v := FullVerdict(sha, u.log);
      (u.(checks := u.checks + [NewCheck(u.nextCheckId, v, head, now)], nextCheckId := u.nextCheckId + 1),
       Advanced(u.checks, v, head))
  }

  // ----- runs -----

  datatype Step = Log(entry: Entry) | Record(during: seq<Entry>, now: int)

  function Apply(sha: Sha, t: Tables, step: Step): Tables {
    match step
    case Log(e) => Logged(sha, t, e.content, e.skip)
    case Record(during, now) => Recorded(sha, t, during, now).0
  }

  function Run(sha: Sha, steps: seq<Step>): Tables {
    if steps == [] then EMPTY else Apply(sha, Run(sha, steps[..|steps| - 1]), steps[|steps| - 1])
  }

  predicate Names(log: seq<Row>, c: Check, i: nat)
    requires i < |log|
  {
    c.logId == Some(log[i].id) && c.entryHash == Some(log[i].entryHash)
  }

  ghost predicate Anchored(log: seq<Row>, c: Check) {
    exists i: nat :: i < |log| && Names(log, c, i)
  }

  /** Every recorded check passed and still matches a row, and anchors never move back. */
  ghost predicate Inv(sha: Sha, t: Tables) {
    && Accepted(sha, t.log, ROOT)
    && Ordered(t.log)
    && (forall r | r in t.log :: r.id < t.nextLogId)
    && (forall c | c in t.checks :: c.ok && Anchored(t.log, c))
    && (forall i, j :: 0 <= i < j < |t.checks| ==> t.checks[i].logId.value <= t.checks[j].logId.value)
  }

  lemma LogKeepsChain(sha: Sha, t: Tables, c: Content, skip: nat)
    ensures Accepted(sha, t.log, ROOT) ==> Accepted(sha, Logged(sha, t, c, skip).log, ROOT)
  {
    if Accepted(sha, t.log, ROOT) {
      var u := Logged(sha, t, c, skip);
      forall i: nat | i < |u.log| ensures Good(sha, u.log, ROOT, i) {
        if i < |t.log| {
          assert Good(sha, t.log, ROOT, i);
        }
      }
    }
  }

  lemma LogKeepsInv(sha: Sha, t: Tables, c: Content, skip: nat)
    requires Inv(sha, t)
    ensures Inv(sha, Logged(sha, t, c, skip))
  {
    LogKeepsChain(sha, t, c, skip);
    var u := Logged(sha, t, c, skip);
    forall k | k in u.checks ensures k.ok && Anchored(u.log, k) {
      var i: nat :| i < |t.log| && Names(t.log, k, i);
      assert Names(u.log, k, i);
    }
  }

  lemma {:induction false} LogAllKeepsInv(sha: Sha, t: Tables, entries: seq<Entry>)
    requires Inv(sha, t)
    ensures var u := LoggedAll(sha, t, entries);
            && Inv(sha, u) && u.checks == t.checks && u.nextCheckId == t.nextCheckId
            && |u.log| == |t.log| + |entries|
            && forall i: nat :: i < |t.log| ==> u.log[i] == t.log[i]
  {
    if entries == [] {
    } else {
      var e := entries[|entries| - 1];
      LogAllKeepsInv(sha, t, entries[..|entries| - 1]);
      var u := LoggedAll(sha, t, entries[..|entries| - 1]);
      LogKeepsInv(sha, u, e.content, e.skip);
    }
  }

  lemma LastCheckDecides(sha: Sha, t: Tables)
    requires Inv(sha, t) && t.checks != []
    ensures var last := t.checks[|t.checks| - 1];
            LatestAnchor(t.checks) == Some(last) && PreviousAnchorId(t.checks) == last.logId && last.logId.Some?
  {
  }

  lemma AddCheckKeepsInv(sha: Sha, u: Tables, check: Check, i: nat)
    requires Inv(sha, u) && i < |u.log| && Names(u.log, check, i) && check.ok
    requires forall c | c in u.checks :: c.logId.value <= u.log[i].id
    ensures Inv(sha, u.(checks := u.checks + [check], nextCheckId := u.nextCheckId + 1))
  {
  }

  lemma AnchorIsNoLater(log: seq<Row>, c: Check)
    requires Ordered(log) && Anchored(log, c)
    ensures log != [] && c.logId.Some? && c.logId.value <= log[|log| - 1].id
  {
  }

  lemma RecordKeepsInv(sha: Sha, t: Tables, during: seq<Entry>, now: int)
    requires Inv(sha, t)
    ensures var r := Recorded(sha, t, during, now).0;
            && Inv(sha, r) && |r.log| == |t.log| + |during|
            && (t.log != [] ==> r.checks != [] && Names(r.log, r.checks[|r.checks| - 1], |t.log| - 1))
  {
    hide Accepted, Ordered, FirstBad, HashOf, LoggedAll;
    LogAllKeepsInv(sha, t, during);
    var u := LoggedAll(sha, t, during);
    if t.log != [] {
      var head := t.log[|t.log| - 1];
      forall c | c in u.checks ensures c.logId.value <= head.id {
        AnchorIsNoLater(t.log, c);
      }
      AddCheckKeepsInv(sha, u, NewCheck(u.nextCheckId, FullVerdict(sha, u.log), head, now), |t.log| - 1);
    }
  }

  lemma {:induction false} RunKeepsInv(sha: Sha, steps: seq<Step>)
    ensures Inv(sha, Run(sha, steps))
  {
    if steps == [] {
    } else {
      RunKeepsInv(sha, steps[..|steps| - 1]);
      var t := Run(sha, steps[..|steps| - 1]);
      match steps[|steps| - 1]
      case Log(e) => LogKeepsInv(sha, t, e.content, e.skip);
      case Record(during, now) => RecordKeepsInv(sha, t, during, now);
    }
  }

  /** In every run from empty tables every recorded check is ok, anchors never move back, and the
      fast check passes: it never reports a mismatch. */
  lemma {:induction false} EveryRunStaysGreen(sha: Sha, steps: seq<Step>)
    ensures var t := Run(sha, steps);
            && (forall c | c in t.checks :: c.ok && c.brokenAt == None)
            && (forall i, j :: 0 <= i < j < |t.checks| ==>
                  t.checks[i].logId.GetOr(0) <= t.checks[j].logId.GetOr(0))
            && FullVerdict(sha, t.log).ok && FastVerdict(sha, t.log, t.checks).ok
  {
    var t := Run(sha, steps);
    RunKeepsInv(sha, steps);
    ChecksNameNoBreak(sha, steps);
    if t.checks != [] {
      LastCheckDecides(sha, t);
      var last := t.checks[|t.checks| - 1];
      var i: nat :| i < |t.log| && Names(t.log, last, i);
      FastAgreesWithFull(sha, t.log, t.checks, i);
    }
  }

  lemma {:induction false} ChecksNameNoBreak(sha: Sha, steps: seq<Step>)
    ensures forall c | c in Run(sha, steps).checks :: c.brokenAt == None
  {
    if steps == [] {
    } else {
      var before := steps[..|steps| - 1];
      ChecksNameNoBreak(sha, before);
      RunKeepsInv(sha, before);
      var t := Run(sha, before);
      match steps[|steps| - 1]
      case Log(_) =>
      case Record(during, _) => LogAllKeepsInv(sha, t, during);
    }
  }

  /** What `advanced` compares: the head against the row the last check named. */
  lemma AdvancedIs(sha: Sha, u: Tables, during: seq<Entry>, now: int)
    requires Inv(sha, u) && u.log != []
    ensures Recorded(sha, u, during, now).1 <==>
            u.checks == [] || u.log[|u.log| - 1].id > u.checks[|u.checks| - 1].logId.GetOr(0)
  {
    if u.checks != [] {
      LastCheckDecides(sha, u);
    }
    LogAllKeepsInv(sha, u, during);
    hide Accepted, Ordered, Anchored, LatestAnchor, LoggedAll, FirstBad;
    var after := LoggedAll(sha, u, during);
    assert FullVerdict(sha, after.log).ok;
  }

  lemma AdvancedBeyond(sha: Sha, u: Tables, during: seq<Entry>, now: int, i: nat)
    requires Inv(sha, u) && u.checks != []
    requires i < |u.log| && Names(u.log, u.checks[|u.checks| - 1], i)
    ensures Recorded(sha, u, during, now).1 <==> i + 1 < |u.log|
  {
    OnlyLastIsHead(u.log, i);
    AdvancedIs(sha, u, during, now);
    hide Recorded, Accepted, Anchored, Ordered, LoggedAll;
  }

  lemma OnlyLastIsHead(log: seq<Row>, i: nat)
    requires Ordered(log) && i < |log|
    ensures log[|log| - 1].id > log[i].id <==> i + 1 < |log|
  {
  }

  /** The first recorded check of a log with entries advances. From then on
      `advanced` says exactly that something was logged since the previous recorded check read the
      head of the log. */
  lemma {:induction false} AdvancedMeansSomethingWasLogged(
      sha: Sha, t: Tables, during: seq<Entry>, now: int, between: seq<Entry>, during': seq<Entry>, now': int)
    requires Inv(sha, t) && t.log != []
    ensures var u := LoggedAll(sha, Recorded(sha, t, during, now).0, between);
            Recorded(sha, u, during', now').1 <==> |during| + |between| > 0
    ensures t.checks == [] ==> Recorded(sha, t, during, now).1
  {
    AdvancedIs(sha, t, during, now);
    RecordKeepsInv(sha, t, during, now);
    var r := Recorded(sha, t, during, now).0;
    LogAllKeepsInv(sha, r, between);
    var u := LoggedAll(sha, r, between);
    AdvancedBeyond(sha, u, during', now', |t.log| - 1);
  }
}
