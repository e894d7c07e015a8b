/** What the three checks prove about a log, for any log, whoever rewrote it. */
module AuditTampering {
  import opened Wrappers
  import opened AuditChain

  const ROOT: Option<string> := Some(GENESIS)

  // ----- accepted chains are determined by their last hash -----

  ghost predicate GoodUpTo(sha: Sha, log: seq<Row>, n: nat)
    requires n <= |log|
  {
    forall k: nat :: k < n ==> Good(sha, log, ROOT, k)
  }

  /** The same in everything a chain is made of. */
  ghost predicate Alike(x: Row, y: Row) {
    Same(x.content, y.content) && x.prevHash == y.prevHash && x.entryHash == y.entryHash
  }

  lemma EqualHashEqualRow(sha: Sha, x: Row, y: Row)
    requires CollisionFree(sha) && Intact(sha, x) && Intact(sha, y) && x.entryHash == y.entryHash
    ensures Alike(x, y) && x.prevHash == y.prevHash
    ensures x.entryHash != GENESIS
  {
    CanonicalIsExact(x.content, y.content, x.prevHash, y.prevHash);
  }

  lemma GoodRow(sha: Sha, log: seq<Row>, i: nat)
    requires CollisionFree(sha) && i < |log| && GoodUpTo(sha, log, i + 1)
    ensures Intact(sha, log[i]) && log[i].entryHash != GENESIS
    ensures log[i].prevHash == if i == 0 then GENESIS else log[i - 1].entryHash
    ensures i > 0 ==> log[i - 1].entryHash != GENESIS && GoodUpTo(sha, log, i)
  {
    assert Good(sha, log, ROOT, i) && (i > 0 ==> Good(sha, log, ROOT, i - 1));
  }

  /** Backward induction: two accepted chains whose rows i and j carry the same hash have the same
      length up to there, and the same contents, links and hashes row by row. */
  lemma {:induction false} SameHashSamePast(sha: Sha, a: seq<Row>, b: seq<Row>, i: nat, j: nat)
    requires CollisionFree(sha)
    requires i < |a| && j < |b| && a[i].entryHash == b[j].entryHash
    requires GoodUpTo(sha, a, i + 1) && GoodUpTo(sha, b, j + 1)
    ensures i == j
    ensures forall k :: 0 <= k <= i ==> Alike(a[k], b[k])
    decreases i + j
  {
    hide *;
    GoodRow(sha, a, i);
    GoodRow(sha, b, j);
    EqualHashEqualRow(sha, a[i], b[j]);
    assert i == 0 <==> j == 0;
    if i == 0 {
    } else {
      SameHashSamePast(sha, a, b, i - 1, j - 1);
    }
  }

  /** An accepted chain never repeats a hash. */
  lemma HashesAreDistinct(sha: Sha, log: seq<Row>, i: nat, j: nat)
    requires CollisionFree(sha) && Accepted(sha, log, ROOT)
    requires i < |log| && j < |log| && log[i].entryHash == log[j].entryHash
    ensures i == j
  {
    SameHashSamePast(sha, log, log, i, j);
  }

  /** A full check passed on one log and an anchor was taken at row i. Whatever was rewritten since,
      if the log now passes and the row the anchor names still carries the anchor's hash, then that
      row is at the same place and everything up to it reads as it did then. */
  lemma {:induction false} AnchoredPastIsUnchanged(sha: Sha, before: seq<Row>, now: seq<Row>, i: nat, anchor: Check)
    requires CollisionFree(sha) && Ordered(now)
    requires FullVerdict(sha, before).ok && i < |before|
    requires anchor.logId == Some(before[i].id) && anchor.entryHash == Some(before[i].entryHash)
    requires FullVerdict(sha, now).ok && HashAt(now, before[i].id) == anchor.entryHash
    ensures i < |now| && now[i].id == before[i].id
    ensures forall k :: 0 <= k <= i ==> Same(now[k].content, before[k].content)
  {
    var j := PositionOf(now, before[i].id);
    hide Good, Same, CollisionFree, HashAt;
    SameHashSamePast(sha, now, before, j, i);
  }

  lemma {:induction false} PositionOf(log: seq<Row>, id: int) returns (j: nat)
    requires HashAt(log, id).Some?
    ensures j < |log| && log[j].id == id && HashAt(log, id) == Some(log[j].entryHash)
  {
    if log[0].id == id {
      j := 0;
    } else {
      j := PositionOf(log[1..], id);
      j := j + 1;
    }
  }

  /** To change row k unseen, every hash from k on must be rewritten too. */
  lemma RewriteChangesEveryLaterHash(sha: Sha, a: seq<Row>, b: seq<Row>, k: nat, j: nat)
    requires CollisionFree(sha) && Accepted(sha, a, ROOT) && Accepted(sha, b, ROOT)
    requires k <= j < |a| && j < |b| && !Same(a[k].content, b[k].content)
    ensures a[j].entryHash != b[j].entryHash
  {
    if a[j].entryHash == b[j].entryHash {
      SameHashSamePast(sha, a, b, j, j);
    }
  }

  // ----- where the walk stops -----

  /** Row m alone is bad, and the only thing wrong with it is its content or its link; with m past the
      end no row is. */
  ghost predicate OnlyBreak(sha: Sha, log: seq<Row>, m: nat, reason: Reason) {
    && (forall k: nat :: k < |log| && k != m ==> Good(sha, log, ROOT, k))
    && (m < |log| ==> !Good(sha, log, ROOT, m) && reason == if Linked(log, ROOT, m) then ContentEdited else LinkBroken)
  }

  lemma ReportAt(sha: Sha, log: seq<Row>, m: nat, reason: Reason)
    requires OnlyBreak(sha, log, m, reason)
    ensures FullVerdict(sha, log) ==
            if m < |log| then Verdict(false, m + 1, Some(log[m].id), Some(reason), true, None, None)
            else Verdict(true, |log|, None, None, true, None, None)
  {
    hide Good, Linked;
    FirstBadIs(sha, log, ROOT, if m < |log| then m else |log|);
  }

  function Edited(log: seq<Row>, k: nat, c: Content): seq<Row>
    requires k < |log|
  {
    log[k := log[k].(content := c)]
  }

  lemma EditBreaks(sha: Sha, log: seq<Row>, k: nat, c: Content)
    requires CollisionFree(sha) && Accepted(sha, log, ROOT) && k < |log| && !Same(c, log[k].content)
    ensures OnlyBreak(sha, Edited(log, k, c), k, ContentEdited)
  {
    var bad := Edited(log, k, c);
    CanonicalIsExact(c, log[k].content, log[k].prevHash, log[k].prevHash);
    assert Good(sha, log, ROOT, k);
    forall i: nat | i < |bad| && i != k ensures Good(sha, bad, ROOT, i) {
      assert Good(sha, log, ROOT, i);
    }
  }

  /** Editing the content of row k is reported at row k, as an edit. */
  lemma EditIsFound(sha: Sha, log: seq<Row>, k: nat, c: Content)
    requires CollisionFree(sha) && Accepted(sha, log, ROOT) && k < |log| && !Same(c, log[k].content)
    ensures FullVerdict(sha, Edited(log, k, c))
         == Verdict(false, k + 1, Some(log[k].id), Some(ContentEdited), true, None, None)
  {
    EditBreaks(sha, log, k, c);
    ReportAt(sha, Edited(log, k, c), k, ContentEdited);
  }

  /** An edit that only reorders the keys of a dict is no edit. */
  lemma ReorderingKeysIsAccepted(sha: Sha, log: seq<Row>, k: nat, c: Content)
    requires Accepted(sha, log, ROOT) && k < |log| && Same(c, log[k].content)
    ensures FullVerdict(sha, Edited(log, k, c)) == FullVerdict(sha, log)
  {
    var other := Edited(log, k, c);
    forall i: nat | i < |log| ensures Good(sha, other, ROOT, i) {
      assert Good(sha, log, ROOT, i);
      CanonicalIsExact(c, log[k].content, log[k].prevHash, log[k].prevHash);
    }
    FirstBadIs(sha, other, ROOT, |log|);
    FirstBadIs(sha, log, ROOT, |log|);
  }

  /** Row k with another content and the hash that goes with it. */
  function Forged(sha: Sha, log: seq<Row>, k: nat, c: Content): seq<Row>
    requires k < |log|
  {
    log[k := Row(log[k].id, c, log[k].prevHash, HashOf(sha, c, log[k].prevHash))]
  }

  lemma ForgeryBreaks(sha: Sha, log: seq<Row>, k: nat, c: Content)
    requires CollisionFree(sha) && Accepted(sha, log, ROOT) && k < |log| && !Same(c, log[k].content)
    ensures OnlyBreak(sha, Forged(sha, log, k, c), k + 1, LinkBroken)
    ensures Forged(sha, log, k, c)[k].entryHash != log[k].entryHash
  {
    var bad := Forged(sha, log, k, c);
    CanonicalIsExact(c, log[k].content, log[k].prevHash, log[k].prevHash);
    assert Good(sha, log, ROOT, k);
    assert bad[k].entryHash != log[k].entryHash;
    forall i: nat | i < |bad| && i != k + 1 ensures Good(sha, bad, ROOT, i) {
      assert Good(sha, log, ROOT, i);
    }
    assert k + 1 < |log| ==> Good(sha, log, ROOT, k + 1);
  }

  /** Editing row k and recomputing its own hash is reported at its successor; when it has none,
      the full form does not report it. */
  lemma EditAndRehashIsFound(sha: Sha, log: seq<Row>, k: nat, c: Content)
    requires CollisionFree(sha) && Accepted(sha, log, ROOT) && k < |log| && !Same(c, log[k].content)
    ensures FullVerdict(sha, Forged(sha, log, k, c)) ==
            if k + 1 < |log| then Verdict(false, k + 2, Some(log[k + 1].id), Some(LinkBroken), true, None, None)
            else Verdict(true, |log|, None, None, true, None, None)
  {
    ForgeryBreaks(sha, log, k, c);
    ReportAt(sha, Forged(sha, log, k, c), k + 1, LinkBroken);
  }

  function Without(log: seq<Row>, k: nat): seq<Row>
    requires k < |log|
  {
    log[..k] + log[k + 1..]
  }

  lemma WithoutIs(log: seq<Row>, k: nat)
    requires k < |log|
    ensures var bad := Without(log, k);
            && |bad| == |log| - 1
            && (forall j :: 0 <= j < k ==> bad[j] == log[j]) && (forall j :: k <= j < |bad| ==> bad[j] == log[j + 1])
            && (Ordered(log) ==> Ordered(bad))
  {
  }

  /** Every row but the one after the gap stays as good as it was. */
  lemma OthersStayGood(sha: Sha, log: seq<Row>, k: nat, i: nat)
    requires Accepted(sha, log, ROOT) && k < |log| && i < |Without(log, k)| && i != k
    ensures Good(sha, Without(log, k), ROOT, i)
  {
    WithoutIs(log, k);
    assert Good(sha, log, ROOT, if i < k then i else i + 1);
    hide Without, Intact, Ordered;
  }

  lemma GapIsSeen(sha: Sha, log: seq<Row>, k: nat)
    requires CollisionFree(sha) && Accepted(sha, log, ROOT) && k + 1 < |log|
    ensures k < |Without(log, k)| && !Linked(Without(log, k), ROOT, k)
  {
    WithoutIs(log, k);
    hide Without, Intact, Ordered;
    assert GoodUpTo(sha, log, k + 2);
    GoodRow(sha, log, k + 1);
    if k > 0 && log[k - 1].entryHash == log[k].entryHash {
      HashesAreDistinct(sha, log, k - 1, k);
      assert false;
    }
  }

  lemma DeletionBreaks(sha: Sha, log: seq<Row>, k: nat)
    requires CollisionFree(sha) && Accepted(sha, log, ROOT) && k < |log|
    ensures OnlyBreak(sha, Without(log, k), k, LinkBroken)
  {
    var bad := Without(log, k);
    forall i: nat | i < |bad| && i != k ensures Good(sha, bad, ROOT, i) {
      OthersStayGood(sha, log, k, i);
    }
    if k + 1 < |log| {
      GapIsSeen(sha, log, k);
    }
    hide Without, Linked, Intact;
  }

  /** Deleting row k is reported at its successor; when it has none, the full form does not report it. */
  lemma DeletionIsFound(sha: Sha, log: seq<Row>, k: nat)
    requires CollisionFree(sha) && Accepted(sha, log, ROOT) && k < |log|
    ensures FullVerdict(sha, Without(log, k)) ==
            if k + 1 < |log| then Verdict(false, k + 1, Some(log[k + 1].id), Some(LinkBroken), true, None, None)
            else Verdict(true, k, None, None, true, None, None)
  {
    DeletionBreaks(sha, log, k);
    ReportAt(sha, Without(log, k), k, LinkBroken);
  }

  // ----- the fast forms against the full one -----

  /** A walk over a log, cut anywhere: the part after the cut is walked from the hash before it. */
  lemma {:induction false} WalkSplits(sha: Sha, log: seq<Row>, n: nat)
    requires 0 < n <= |log| && GoodUpTo(sha, log, n)
    ensures FirstBad(sha, log, ROOT) == n + FirstBad(sha, log[n..], Some(log[n - 1].entryHash))
    ensures var k := FirstBad(sha, log, ROOT); k < |log| ==>
              Linked(log, ROOT, k) == Linked(log[n..], Some(log[n - 1].entryHash), k - n)
  {
    hide HashOf, Linked, Good, FirstBad;
    var rest, start := log[n..], Some(log[n - 1].entryHash);
    var k := FirstBad(sha, rest, start);
    ShiftedRows(sha, log, n);
    FirstBadIs(sha, log, ROOT, n + k);
    if k < |rest| {
      ShiftedRow(sha, log, n, n + k);
    }
  }

  lemma ShiftedRows(sha: Sha, log: seq<Row>, n: nat)
    requires 0 < n <= |log|
    ensures forall i: nat :: n <= i < |log| ==>
              Good(sha, log, ROOT, i) == Good(sha, log[n..], Some(log[n - 1].entryHash), i - n)
  {
  }

  lemma ShiftedRow(sha: Sha, log: seq<Row>, n: nat, i: nat)
    requires 0 < n <= i < |log|
    ensures Good(sha, log, ROOT, i) == Good(sha, log[n..], Some(log[n - 1].entryHash), i - n)
    ensures Linked(log, ROOT, i) == Linked(log[n..], Some(log[n - 1].entryHash), i - n)
  {
  }

  lemma {:induction false} FastIs(sha: Sha, log: seq<Row>, checks: seq<Check>, i: nat)
    requires Ordered(log) && i < |log| && LatestAnchor(checks).Some?
    requires var a := LatestAnchor(checks).value;
             a.logId == Some(log[i].id) && a.entryHash == Some(log[i].entryHash)
    ensures var a, h := LatestAnchor(checks).value, log[i].entryHash;
            FastVerdict(sha, log, checks) == Report(sha, log[i + 1..], Some(h), false, a.logId, Some(a.verifiedAt))
  {
    hide Report, LatestAnchor;
    Lookup(log, i);
  }

  /** With the rows up to a matching anchor as they should be, the fast check and the full one give
      the same verdict at the same row for the same reason, and count the same rows but for the
      prefix. */
  lemma {:induction false} FastAgreesWithFull(sha: Sha, log: seq<Row>, checks: seq<Check>, i: nat)
    requires Ordered(log) && i < |log| && GoodUpTo(sha, log, i + 1)
    requires LatestAnchor(checks).Some?
    requires var a := LatestAnchor(checks).value;
             a.logId == Some(log[i].id) && a.entryHash == Some(log[i].entryHash)
    ensures var fast, full := FastVerdict(sha, log, checks), FullVerdict(sha, log);
            && fast.ok == full.ok && fast.brokenAt == full.brokenAt && fast.reason == full.reason
            && full.checked == fast.checked + i + 1
  {
    FastIs(sha, log, checks, i);
    hide FastVerdict, Good, Linked, FirstBad;
    WalkSplits(sha, log, i + 1);
  }

  /** Whatever the prefix holds: if the fast check passes and the full one fails, the first break is
      at or before the anchor's row. */
  lemma {:induction false} FastPassesFullFails(sha: Sha, log: seq<Row>, checks: seq<Check>)
    requires Ordered(log)
    requires FastVerdict(sha, log, checks).ok && !FullVerdict(sha, log).ok
    ensures LatestAnchor(checks).Some?
    ensures FullVerdict(sha, log).brokenAt.value <= LatestAnchor(checks).value.logId.value
  {
    hide HashOf, Good, LatestAnchor, HashAt, After;
    var a := LatestAnchor(checks).value;
    var k := FirstBad(sha, log, ROOT);
    if log[k].id > a.logId.value {
      if a.entryHash.Some? {
        var j := PositionOf(log, a.logId.value);
        Lookup(log, j);
        FastAgreesWithFull(sha, log, checks, j);
      } else {
        NoLinkFromNothing(sha, log, a.logId.value, k);
      }
    }
  }

  /** A check row without a hash matches only a missing row, and then accepts no row at all. */
  lemma {:induction false} NoLinkFromNothing(sha: Sha, log: seq<Row>, id: int, k: nat)
    requires k < |log| && log[k].id > id
    ensures !Accepted(sha, After(log, id), None)
  {
    AfterIsNonEmpty(log, id, k);
    var rest := After(log, id);
    assert !Good(sha, rest, None, 0);
  }

  lemma {:induction false} AfterIsNonEmpty(log: seq<Row>, id: int, k: nat)
    requires k < |log| && log[k].id > id
    ensures After(log, id) != []
  {
    if k == 0 {
    } else {
      AfterIsNonEmpty(log[1..], id, k - 1);
    }
  }

  /** A window check passes exactly when every row in it is intact and linked to the row before it
      in the window; so a full pass implies a pass for every window. */
  lemma WindowMeans(sha: Sha, log: seq<Row>, limit: nat)
    ensures var n := if limit < |log| then |log| - limit else 0;
            WindowVerdict(sha, log, limit).ok <==>
              (forall i: nat :: n <= i < |log| ==> Intact(sha, log[i]) && (i > n ==> Linked(log, ROOT, i)))
    ensures FullVerdict(sha, log).ok ==> WindowVerdict(sha, log, limit).ok
    ensures FullVerdict(sha, log).ok <==>
              WindowVerdict(sha, log, |log|).ok && (log == [] || log[0].prevHash == GENESIS)
  {
    WindowIsLocal(sha, log, limit);
    WindowIsLocal(sha, log, |log|);
    assert FullVerdict(sha, log).ok <==>
      forall i: nat :: i < |log| ==> Good(sha, log, ROOT, i);
  }

  lemma WindowIsLocal(sha: Sha, log: seq<Row>, limit: nat)
    ensures var n := if limit < |log| then |log| - limit else 0;
            WindowVerdict(sha, log, limit).ok <==>
              (forall i: nat :: n <= i < |log| ==> Intact(sha, log[i]) && (i > n ==> Linked(log, ROOT, i)))
  {
    var n := if limit < |log| then |log| - limit else 0;
    var rows := Tail(log, limit);
    var start := Some(if rows == [] then GENESIS else rows[0].prevHash);
    assert rows == log[n..];
    forall i: nat | n <= i < |log|
      ensures Good(sha, rows, start, i - n) <==> Intact(sha, log[i]) && (i > n ==> Linked(log, ROOT, i))
    {
      assert rows[i - n] == log[i];
      if i > n { assert rows[i - n - 1] == log[i - 1]; }
    }
    if Accepted(sha, rows, start) {
      forall i: nat | n <= i < |log| ensures Intact(sha, log[i]) && (i > n ==> Linked(log, ROOT, i)) {
        assert Good(sha, rows, start, i - n);
      }
    } else {
      var j: nat :| j < |rows| && !Good(sha, rows, start, j);
      assert rows[j] == log[n + j];
    }
  }
}
