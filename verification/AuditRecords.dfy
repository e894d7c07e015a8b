/** What the two tables hold: the log the entries that were given, in their order, and the ledger of checks
    what each check found, on logs that pass and on logs that do not. */
module AuditRecords {
  import opened Wrappers
  import opened AuditChain
  import opened AuditTampering
  import opened AuditLedger

  // ----- the contents of the log -----

  /** What a run was given to log, the entries that came in during a check included. */
  function Given(entries: seq<Entry>): (cs: seq<Content>)
    ensures |cs| == |entries| && forall i :: 0 <= i < |entries| ==> cs[i] == entries[i].content
  {
    if entries == [] then [] else Given(entries[..|entries| - 1]) + [entries[|entries| - 1].content]
  }

  function AllGiven(steps: seq<Step>): seq<Content> {
    if steps == [] then []
    else
      AllGiven(steps[..|steps| - 1])
      + match steps[|steps| - 1] {
          case Log(e) => [e.content]
          case Record(during, _) => Given(during)
        }
  }

  lemma {:induction false} LoggedAllContents(sha: Sha, t: Tables, entries: seq<Entry>)
    ensures var u := LoggedAll(sha, t, entries);
            && Contents(u.log) == Contents(t.log) + Given(entries)
            && u.checks == t.checks && u.nextCheckId == t.nextCheckId
  {
    if entries == [] {
      Reassociated(Contents(t.log), [], []);
    } else {
      var n := |entries| - 1;
      var e := entries[n];
      LastEntry(sha, t, entries);
      hide *;
      LoggedAllContents(sha, t, entries[..n]);
      LoggedContents(sha, LoggedAll(sha, t, entries[..n]), e.content, e.skip);
      Reassociated(Contents(t.log), Given(entries[..n]), [e.content]);
    }
  }

  lemma {:induction false} LastEntry(sha: Sha, t: Tables, entries: seq<Entry>)
    requires entries != []
    ensures var n := |entries| - 1;
            && LoggedAll(sha, t, entries) == Logged(sha, LoggedAll(sha, t, entries[..n]), entries[n].content, entries[n].skip)
            && Given(entries) == Given(entries[..n]) + [entries[n].content]
  {
  }

  lemma Reassociated<T>(a: seq<T>, b: seq<T>, c: seq<T>)
    ensures a + b + c == a + (b + c) && a + [] == a
  {
  }

  lemma LoggedContents(sha: Sha, t: Tables, c: Content, skip: nat)
    ensures var u := Logged(sha, t, c, skip);
            Contents(u.log) == Contents(t.log) + [c] && u.checks == t.checks && u.nextCheckId == t.nextCheckId
  {
    LoggedIs(sha, t, c, skip);
    hide Logged;
  }

  /** Over any run the log holds exactly the entries given, in the order they were given. */
  lemma {:induction false} LogHoldsTheEntries(sha: Sha, steps: seq<Step>)
    ensures Contents(Run(sha, steps).log) == AllGiven(steps)
  {
    if steps == [] {
    } else {
      var n := |steps| - 1;
      LogHoldsTheEntries(sha, steps[..n]);
      var t := Run(sha, steps[..n]);
      match steps[n] {
        case Log(e) =>
          LoggedAllContents(sha, t, [e]);
          assert [e][..0] == [] && LoggedAll(sha, t, []) == t;
          assert LoggedAll(sha, t, [e]) == Logged(sha, t, e.content, e.skip);
          assert Given([e]) == [e.content];
        case Record(during, now) =>
          LoggedAllContents(sha, t, during);
      }
    }
  }

  // ----- what a check records -----

  lemma {:induction false} AddedCheckDecides(checks: seq<Check>, c: Check)
    ensures LatestAnchor(checks + [c]) == if IsAnchor(c) then Some(c) else LatestAnchor(checks)
  {
    assert (checks + [c])[..|checks|] == checks;
  }

  /** A recorded check adds one row, naming the head that was read before the walk, and nothing else. If
      the log it walked passes, the row is the newest anchor and carries the head's hash. If not, the row
      says so, carries no hash, names the first bad row, its reason and its position, the anchor stays
      where it was, and nothing advances. */
  lemma {:induction false} RecordedMeans(sha: Sha, t: Tables, during: seq<Entry>, now: int)
    requires t.log != []
    ensures var walked := LoggedAll(sha, t, during).log;
            var (u, advanced) := Recorded(sha, t, during, now);
            && u.log == walked && |u.checks| == |t.checks| + 1 && u.checks[..|t.checks|] == t.checks
            && var c, head := u.checks[|t.checks|], t.log[|t.log| - 1];
               && c.logId == Some(head.id) && c.id == t.nextCheckId < u.nextCheckId && c.verifiedAt == now
               && (Accepted(sha, walked, ROOT) ==>
                     && LatestAnchor(u.checks) == Some(c) && c.ok && c.entryHash == Some(head.entryHash)
                     && c.verifiedRows == |walked| && c.brokenAt == None && c.reason == None
                     && (advanced <==> PreviousAnchorId(t.checks).None? || head.id > PreviousAnchorId(t.checks).value))
               && (!Accepted(sha, walked, ROOT) ==>
                     && LatestAnchor(u.checks) == LatestAnchor(t.checks) && !advanced
                     && !c.ok && c.entryHash == None && FirstBreak(sha, walked, c))
  {
    LoggedAllContents(sha, t, during);
    var walked := LoggedAll(sha, t, during);
    var u := Recorded(sha, t, during, now).0;
    var c := u.checks[|t.checks|];
    AddedCheckDecides(t.checks, c);
    hide LoggedAll, LatestAnchor, Accepted, Linked, PreviousAnchorId;
    assert FullVerdict(sha, walked.log).ok == Accepted(sha, walked.log, ROOT);
    if !c.ok {
      var k := FullBreak(sha, walked.log);
      assert BreaksAt(sha, walked.log, c, k);
    }
  }

  /** The check names the first bad row, the reason, and how many rows were looked at. */
  ghost predicate FirstBreak(sha: Sha, log: seq<Row>, c: Check) {
    exists k: nat :: BreaksAt(sha, log, c, k)
  }

  ghost predicate BreaksAt(sha: Sha, log: seq<Row>, c: Check, k: nat) {
    && k < |log| && GoodUpTo(sha, log, k) && !Good(sha, log, ROOT, k)
    && c.verifiedRows == k + 1 && c.brokenAt == Some(log[k].id)
    && c.reason == Some(if Linked(log, ROOT, k) then ContentEdited else LinkBroken)
  }

  lemma FullBreak(sha: Sha, log: seq<Row>) returns (k: nat)
    requires !Accepted(sha, log, ROOT)
    ensures k < |log| && GoodUpTo(sha, log, k) && !Good(sha, log, ROOT, k)
    ensures FullVerdict(sha, log) == Verdict(false, k + 1, Some(log[k].id),
                                             Some(if Linked(log, ROOT, k) then ContentEdited else LinkBroken),
                                             true, None, None)
  {
    hide Good, Linked;
    k := FirstBad(sha, log, ROOT);
  }

  /** On an empty log nothing is recorded. */
  lemma {:induction false} NothingRecorded(sha: Sha, t: Tables, during: seq<Entry>, now: int)
    requires t.log == []
    ensures Recorded(sha, t, during, now) == (LoggedAll(sha, t, during), false)
    ensures Recorded(sha, t, during, now).0.checks == t.checks
  {
    LoggedAllContents(sha, t, during);
  }

  // ----- runs over logs that anyone may rewrite -----

  datatype WildStep = Honest(step: Step) | Rewrite(log: seq<Row>)

  function WildRun(sha: Sha, steps: seq<WildStep>): Tables {
    if steps == [] then EMPTY
    else
      var t := WildRun(sha, steps[..|steps| - 1]);
      match steps[|steps| - 1]
      case Honest(step) => Apply(sha, t, step)
      case Rewrite(log) => t.(log := log)
  }

  /** Step k recorded this check, over a log that passed, with the head it read. */
  ghost predicate PassedAt(sha: Sha, steps: seq<WildStep>, c: Check, k: nat) {
    && k < |steps| && steps[k].Honest? && steps[k].step.Record?
    && var t := WildRun(sha, steps[..k]);
       && t.log != [] && Accepted(sha, LoggedAll(sha, t, steps[k].step.during).log, ROOT)
       && c.logId == Some(t.log[|t.log| - 1].id) && c.entryHash == Some(t.log[|t.log| - 1].entryHash)
  }

  lemma PassedStays(sha: Sha, steps: seq<WildStep>, last: WildStep, c: Check, k: nat)
    requires PassedAt(sha, steps, c, k)
    ensures PassedAt(sha, steps + [last], c, k)
  {
    hide Accepted, LoggedAll;
    assert (steps + [last])[..k] == steps[..k];
  }

  /** Whatever is rewritten in between, every anchor was recorded by a check of a log that passed, and
      carries the id and hash of the head that log had when the check began. */
  lemma {:induction false} AnchorsPassed(sha: Sha, steps: seq<WildStep>, i: nat)
    requires i < |WildRun(sha, steps).checks| && IsAnchor(WildRun(sha, steps).checks[i])
    ensures exists k: nat :: PassedAt(sha, steps, WildRun(sha, steps).checks[i], k)
  {
    if steps == [] {
      assert false;
    } else {
      var n := |steps| - 1;
      var earlier, last := steps[..n], steps[n];
      assert steps == earlier + [last];
      var t, u := WildRun(sha, earlier), WildRun(sha, steps);
      var c := u.checks[i];
      StepKeepsChecks(sha, t, last);
      if i < |t.checks| {
        AnchorsPassed(sha, earlier, i);
        var k: nat :| PassedAt(sha, earlier, c, k);
        PassedStays(sha, earlier, last, c, k);
      } else {
        RecordedMeans(sha, t, last.step.during, last.step.now);
        hide Accepted, LoggedAll, Recorded;
        assert PassedAt(sha, steps, c, n);
      }
    }
  }

  lemma StepKeepsChecks(sha: Sha, t: Tables, last: WildStep)
    ensures var u := match last case Honest(step) => Apply(sha, t, step) case Rewrite(log) => t.(log := log);
            && |t.checks| <= |u.checks| <= |t.checks| + 1 && u.checks[..|t.checks|] == t.checks
            && (|u.checks| > |t.checks| ==> last.Honest? && last.step.Record? && t.log != [])
  {
    if last.Honest? && last.step.Record? {
      if t.log == [] {
        NothingRecorded(sha, t, last.step.during, last.step.now);
      } else {
        RecordedMeans(sha, t, last.step.during, last.step.now);
      }
    }
  }

  // ----- what the windows report -----

  /** Row k of a window that starts at row n is sound: intact, and linked to the row before it there. */
  predicate SoundIn(sha: Sha, log: seq<Row>, n: nat, k: nat)
    requires n <= k < |log|
  {
    Intact(sha, log[k]) && (k > n ==> Linked(log, ROOT, k))
  }

  /** The window is never called full, and like the other forms it counts the rows it looked at and names
      the first that is not sound. */
  lemma WindowReports(sha: Sha, log: seq<Row>, limit: nat)
    ensures var v, n := WindowVerdict(sha, log, limit), if limit < |log| then |log| - limit else 0;
            && !v.full && v.anchorLogId == None && v.anchorVerifiedAt == None
            && (v.ok ==> v.checked == |log| - n && v.brokenAt == None && v.reason == None)
            && (!v.ok ==> exists k: nat :: WindowBreaks(sha, log, n, k, v))
  {
    var n := if limit < |log| then |log| - limit else 0;
    var rows := Tail(log, limit);
    assert rows == log[n..];
    if rows != [] {
      WindowFrom(sha, log, n, WindowVerdict(sha, log, limit));
    }
  }

  lemma WindowFrom(sha: Sha, log: seq<Row>, n: nat, v: Verdict)
    requires n < |log| && v == Report(sha, log[n..], Some(log[n].prevHash), false, None, None)
    ensures v.ok ==> v.checked == |log| - n && v.brokenAt == None && v.reason == None
    ensures !v.ok ==> exists k: nat :: WindowBreaks(sha, log, n, k, v)
  {
    var j := FirstBad(sha, log[n..], Some(log[n].prevHash));
    hide Good, Linked, FirstBad, SoundIn, Accepted;
    if j < |log| - n {
      forall k: nat | n <= k < n + j ensures SoundIn(sha, log, n, k) {
        RowInWindow(sha, log, n, k);
      }
      RowInWindow(sha, log, n, n + j);
      assert WindowBreaks(sha, log, n, n + j, v);
    }
  }

  lemma RowInWindow(sha: Sha, log: seq<Row>, n: nat, k: nat)
    requires n <= k < |log|
    ensures var start := Some(log[n].prevHash);
            && Good(sha, log[n..], start, k - n) == SoundIn(sha, log, n, k)
            && Linked(log[n..], start, k - n) == (k > n ==> Linked(log, ROOT, k))
  {
    hide Intact;
    assert log[n..][k - n] == log[k];
    assert k > n ==> log[n..][k - n - 1] == log[k - 1];
  }

  ghost predicate WindowBreaks(sha: Sha, log: seq<Row>, n: nat, k: nat, v: Verdict) {
    && n <= k < |log| && (forall i: nat :: n <= i < k ==> SoundIn(sha, log, n, i)) && !SoundIn(sha, log, n, k)
    && v.checked == k - n + 1 && v.brokenAt == Some(log[k].id)
    && v.reason == Some(if k > n && !Linked(log, ROOT, k) then LinkBroken else ContentEdited)
  }

  /** With no check to start from, the since-anchor form is the full form, and says so. */
  lemma NoAnchorMeansFull(sha: Sha, log: seq<Row>, checks: seq<Check>)
    requires forall i :: 0 <= i < |checks| ==> !IsAnchor(checks[i])
    ensures FastVerdict(sha, log, checks) == FullVerdict(sha, log)
    ensures FastVerdict(sha, log, checks).full && FastVerdict(sha, log, checks).anchorLogId == None
  {
    LatestAnchorIsNewest(checks);
  }
}
