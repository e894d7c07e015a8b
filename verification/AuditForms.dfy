/** Which form of the check sees what. The full form knows only the log; the since-anchor form also knows
    the hash that the newest anchor remembers, and looks at nothing before it. */
module AuditForms {
  import opened Wrappers
  import opened AuditChain
  import opened AuditTampering
  import opened AuditLedger

  /** The newest anchor names row i of the log. */
  predicate Anchors(checks: seq<Check>, log: seq<Row>, i: nat) {
    i < |log| && LatestAnchor(checks).Some? && Names(log, LatestAnchor(checks).value, i)
  }

  function FastReport(a: Check, ok: bool, checked: nat, brokenAt: Option<int>, reason: Option<Reason>): Verdict {
    Verdict(ok, checked, brokenAt, reason, false, a.logId, Some(a.verifiedAt))
  }

  // ----- one broken row -----

  /** The fast form on a log with one bad row at most, after the anchor's row or before it. */
  lemma {:induction false} FastAt(sha: Sha, log: seq<Row>, checks: seq<Check>, i: nat, m: nat, reason: Reason)
    requires Ordered(log) && Anchors(checks, log, i) && OnlyBreak(sha, log, m, reason)
    ensures FastVerdict(sha, log, checks) == (
              var a := LatestAnchor(checks).value;
              if i < m < |log| then FastReport(a, false, m - i, Some(log[m].id), Some(reason))
              else FastReport(a, true, |log| - i - 1, None, None))
  {
    FastIs(sha, log, checks, i);
    FirstBadAfter(sha, log, i, m, reason);
    hide FirstBad, Linked, OnlyBreak, FastVerdict, LatestAnchor, Ordered;
  }

  lemma FirstBadAfter(sha: Sha, log: seq<Row>, i: nat, m: nat, reason: Reason)
    requires i < |log| && OnlyBreak(sha, log, m, reason)
    ensures var rest, start := log[i + 1..], Some(log[i].entryHash);
            && FirstBad(sha, rest, start) == (if i < m < |log| then m - i - 1 else |rest|)
            && (i < m < |log| ==> reason == if Linked(rest, start, m - i - 1) then ContentEdited else LinkBroken)
  {
    hide Good, Linked, FirstBad;
    var rest, start, k := log[i + 1..], Some(log[i].entryHash), if i < m < |log| then m - i - 1 else |log| - i - 1;
    forall j: nat | j < k ensures Good(sha, rest, start, j) {
      ShiftedRow(sha, log, i + 1, i + 1 + j);
    }
    if k < |rest| {
      ShiftedRow(sha, log, i + 1, m);
    }
    FirstBadIs(sha, rest, start, k);
  }

  lemma {:induction false} NoSuchRow(log: seq<Row>, id: int)
    requires forall k :: 0 <= k < |log| ==> log[k].id != id
    ensures HashAt(log, id) == None
  {
    if log == [] {
    } else {
      NoSuchRow(log[1..], id);
    }
  }

  /** The fast form when the anchor's row is gone, or carries another hash. */
  lemma {:induction false} FastMismatch(sha: Sha, log: seq<Row>, checks: seq<Check>, id: int)
    requires LatestAnchor(checks).Some?
    requires LatestAnchor(checks).value.logId == Some(id) && HashAt(log, id) != LatestAnchor(checks).value.entryHash
    ensures FastVerdict(sha, log, checks)
         == FastReport(LatestAnchor(checks).value, false, 0, Some(id), Some(AnchorMismatch))
  {
  }

  /** An edit is seen by the fast form exactly when it comes after the anchor's row. */
  lemma {:induction false} EditByForms(sha: Sha, log: seq<Row>, checks: seq<Check>, i: nat, k: nat, c: Content)
    requires CollisionFree(sha) && Ordered(log) && Accepted(sha, log, ROOT) && Anchors(checks, log, i)
    requires k < |log| && !Same(c, log[k].content)
    ensures FastVerdict(sha, Edited(log, k, c), checks) == (
              var a := LatestAnchor(checks).value;
              if k <= i then FastReport(a, true, |log| - i - 1, None, None)
              else FastReport(a, false, k - i, Some(log[k].id), Some(ContentEdited)))
  {
    EditBreaks(sha, log, k, c);
    FastAt(sha, Edited(log, k, c), checks, i, k, ContentEdited);
  }

  /** An edit with its own hash recomputed: at the anchor's row it is a mismatch, after it it is seen at
      the successor if there is one, and before it it is not seen. So on the last row, where the full form
      sees nothing, the fast form does exactly when the anchor names that row. */
  lemma {:induction false} RehashByForms(sha: Sha, log: seq<Row>, checks: seq<Check>, i: nat, k: nat, c: Content)
    requires CollisionFree(sha) && Ordered(log) && Accepted(sha, log, ROOT) && Anchors(checks, log, i)
    requires k < |log| && !Same(c, log[k].content)
    ensures FastVerdict(sha, Forged(sha, log, k, c), checks) == (
              var a := LatestAnchor(checks).value;
              if k == i then FastReport(a, false, 0, Some(log[i].id), Some(AnchorMismatch))
              else if k < i || k + 1 == |log| then FastReport(a, true, |log| - i - 1, None, None)
              else FastReport(a, false, k + 1 - i, Some(log[k + 1].id), Some(LinkBroken)))
  {
    var bad := Forged(sha, log, k, c);
    ForgeryBreaks(sha, log, k, c);
    hide HashOf, LatestAnchor, OnlyBreak, FastVerdict;
    if k == i {
      Lookup(bad, i);
      FastMismatch(sha, bad, checks, log[i].id);
    } else {
      FastAt(sha, bad, checks, i, k + 1, LinkBroken);
    }
  }

  lemma OthersDiffer(log: seq<Row>, k: nat)
    requires Ordered(log) && k < |log|
    ensures forall j :: 0 <= j < |log| && j != k ==> log[j].id != log[k].id
  {
  }

  lemma AnchorsMove(checks: seq<Check>, log: seq<Row>, i: nat, k: nat)
    requires Anchors(checks, log, i) && k < |log| && k != i
    ensures Anchors(checks, Without(log, k), if k < i then i - 1 else i)
  {
    WithoutIs(log, k);
    hide Without, LatestAnchor, Ordered;
  }

  /** A deletion likewise: at the anchor's row a mismatch, after it seen at the successor if there is one,
      and before it not seen. */
  lemma {:induction false} DeletionByForms(sha: Sha, log: seq<Row>, checks: seq<Check>, i: nat, k: nat)
    requires CollisionFree(sha) && Ordered(log) && Accepted(sha, log, ROOT) && Anchors(checks, log, i)
    requires k < |log|
    ensures FastVerdict(sha, Without(log, k), checks) == (
              var a := LatestAnchor(checks).value;
              if k == i then FastReport(a, false, 0, Some(log[i].id), Some(AnchorMismatch))
              else if k < i then FastReport(a, true, |log| - i - 1, None, None)
              else if k + 1 == |log| then FastReport(a, true, |log| - i - 2, None, None)
              else FastReport(a, false, k - i, Some(log[k + 1].id), Some(LinkBroken)))
  {
    var bad := Without(log, k);
    DeletionBreaks(sha, log, k);
    WithoutIs(log, k);
    OthersDiffer(log, k);
    if k != i {
      AnchorsMove(checks, log, i, k);
    }
    hide HashOf, LatestAnchor, OnlyBreak, FastVerdict, Without, Ordered, Accepted;
    if k == i {
      NoSuchRow(bad, log[i].id);
      FastMismatch(sha, bad, checks, log[i].id);
    } else {
      FastAt(sha, bad, checks, if k < i then i - 1 else i, k, LinkBroken);
    }
  }

  // ----- logs that pass the full form -----

  lemma {:induction false} SameContentsSameHash(sha: Sha, a: seq<Row>, b: seq<Row>, i: nat)
    requires Accepted(sha, a, ROOT) && Accepted(sha, b, ROOT) && i < |a| && i < |b|
    requires forall k :: 0 <= k <= i ==> Same(a[k].content, b[k].content)
    ensures a[i].entryHash == b[i].entryHash
  {
    if i == 0 {
    } else {
      SameContentsSameHash(sha, a, b, i - 1);
    }
    assert Good(sha, a, ROOT, i) && Good(sha, b, ROOT, i);
    CanonicalIsExact(a[i].content, b[i].content, a[i].prevHash, b[i].prevHash);
  }

  /** A log replaced by any other that passes the full form: rewritten, cut off, or both. The fast form
      accepts it exactly when everything up to the anchor's row is there and reads as it did; otherwise
      it answers with a mismatch. */
  lemma {:induction false} FastIsExact(sha: Sha, before: seq<Row>, now: seq<Row>, checks: seq<Check>, i: nat)
    requires CollisionFree(sha) && Ordered(now)
    requires Accepted(sha, before, ROOT) && Accepted(sha, now, ROOT) && Anchors(checks, before, i)
    ensures FastVerdict(sha, now, checks).ok <==>
              && i < |now| && now[i].id == before[i].id
              && forall k :: 0 <= k <= i ==> Same(now[k].content, before[k].content)
    ensures !FastVerdict(sha, now, checks).ok ==>
              FastVerdict(sha, now, checks)
              == FastReport(LatestAnchor(checks).value, false, 0, Some(before[i].id), Some(AnchorMismatch))
  {
    hide HashOf, LatestAnchor, Good;
    var a := LatestAnchor(checks).value;
    if HashAt(now, before[i].id) == a.entryHash {
      AnchoredPastIsUnchanged(sha, before, now, i, a);
      SameContentsSameHash(sha, now, before, i);
      FastAgreesWithFull(sha, now, checks, i);
    } else {
      FastMismatch(sha, now, checks, before[i].id);
      if i < |now| && now[i].id == before[i].id
         && forall k :: 0 <= k <= i ==> Same(now[k].content, before[k].content) {
        SameContentsSameHash(sha, now, before, i);
        Lookup(now, i);
        assert false;
      }
    }
  }

  // ----- rows cut off the end -----

  lemma ShortenedIsAccepted(sha: Sha, log: seq<Row>, n: nat)
    requires Accepted(sha, log, ROOT) && n <= |log|
    ensures Accepted(sha, log[..n], ROOT)
  {
    forall k: nat | k < n ensures Good(sha, log[..n], ROOT, k) {
      assert Good(sha, log, ROOT, k);
    }
  }

  /** Any number of rows deleted from the end. The full form and every window pass; the fast form passes
      exactly when the anchor's row is still there, and answers with a mismatch when it is not. */
  lemma {:induction false} ShorteningByForms(sha: Sha, log: seq<Row>, checks: seq<Check>, i: nat, n: nat, limit: nat)
    requires Ordered(log) && Accepted(sha, log, ROOT) && Anchors(checks, log, i) && n <= |log|
    ensures FullVerdict(sha, log[..n]).ok && WindowVerdict(sha, log[..n], limit).ok
    ensures FastVerdict(sha, log[..n], checks) == (
              var a := LatestAnchor(checks).value;
              if i < n then FastReport(a, true, n - i - 1, None, None)
              else FastReport(a, false, 0, Some(log[i].id), Some(AnchorMismatch)))
  {
    var short := log[..n];
    ShortenedIsAccepted(sha, log, n);
    WindowMeans(sha, short, limit);
    hide HashOf, LatestAnchor, Good, FastVerdict;
    if i < n {
      FastAt(sha, short, checks, i, n, LinkBroken);
    } else {
      NoSuchRow(short, log[i].id);
      FastMismatch(sha, short, checks, log[i].id);
    }
  }

  /** But the next recorded check takes whatever passes the full form for granted: it anchors the head it
      finds, further back though that may be, and from then on both forms pass. On an emptied log it
      records nothing, and the fast form keeps answering as before. */
  lemma RecordingAcceptsTheLog(sha: Sha, t: Tables, now: int)
    requires Ordered(t.log) && Accepted(sha, t.log, ROOT)
    ensures var u := Recorded(sha, t, [], now).0;
            u.log == t.log && if t.log == [] then u == t
            else Anchors(u.checks, u.log, |u.log| - 1) && FullVerdict(sha, u.log).ok && FastVerdict(sha, u.log, u.checks).ok
  {
    var u := Recorded(sha, t, [], now).0;
    if t.log != [] {
      assert FullVerdict(sha, t.log).ok;
      assert LatestAnchor(u.checks) == Some(u.checks[|u.checks| - 1]);
      FastAt(sha, u.log, u.checks, |u.log| - 1, |u.log|, LinkBroken);
    }
  }

  /** So a shortening that the fast form did report is silenced by the next recorded check, whose anchor
      names an earlier row than the one before it and does not count as an advance. */
  lemma RecordingSilencesShortening(sha: Sha, t: Tables, i: nat, n: nat, now: int)
    requires Ordered(t.log) && Accepted(sha, t.log, ROOT) && Anchors(t.checks, t.log, i) && 0 < n <= i
    requires PreviousAnchorId(t.checks) == Some(t.log[i].id)
    ensures var short := t.(log := t.log[..n]);
            var (u, advanced) := Recorded(sha, short, [], now);
            && FastVerdict(sha, short.log, short.checks).reason == Some(AnchorMismatch)
            && FastVerdict(sha, u.log, u.checks).ok && FullVerdict(sha, u.log).ok
            && Anchors(u.checks, t.log, n - 1) && !advanced
  {
    var short := t.(log := t.log[..n]);
    ShorteningByForms(sha, t.log, t.checks, i, n, 0);
    ShortenedIsAccepted(sha, t.log, n);
    RecordingAcceptsTheLog(sha, short, now);
  }
}
