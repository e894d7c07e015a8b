/** Progress of the outbox: a measure every good sweep lowers, so that repeated sweeps leave every
    row sent or abandoned; and the one way a row can escape the attempt cap. */
module DeliveryProgress {
  import opened Wrappers
  import opened Delivery
  import opened DeliveryRuns

  /** The attempts a row may still cost. One that is at or over the cap already, left there by failures
      of an unexpected kind or by a cap since lowered, costs one more. */
  function Left(s: Settings, r: Row): nat {
    if !r.Unresolved() then 0
    else if r.attempts < s.maxAttempts then s.maxAttempts - r.attempts
    else 1
  }

  function Measure(s: Settings, rows: seq<Row>): nat {
    if rows == [] then 0 else Measure(s, rows[..|rows| - 1]) + Left(s, rows[|rows| - 1])
  }

  lemma {:induction false} MeasureUpdate(s: Settings, rows: seq<Row>, i: nat, r: Row)
    requires i < |rows|
    ensures Measure(s, rows[i := r]) + Left(s, rows[i]) == Measure(s, rows) + Left(s, r)
  {
    var n := |rows| - 1;
    if i < n {
      MeasureUpdate(s, rows[..n], i, r);
      assert rows[i := r][..n] == rows[..n][i := r];
    } else {
      assert rows[i := r][..n] == rows[..n];
    }
  }

  ghost predicate NeverCrashes(w: World) {
    forall i: nat :: !w.send(i).Crashed?
  }

  /** Every unresolved row is due and has a channel, and sends fail only with DeliveryError. */
  ghost predicate GoodSweep(s: Settings, rows: seq<Row>, w: World) {
    && NeverCrashes(w)
    && w.configured != {}
    && forall i :: 0 <= i < |rows| && rows[i].Unresolved() ==>
         IsDue(s, rows[i], w.now) && rows[i].channel in w.configured
  }

  lemma ProcessLowersLeft(s: Settings, w: World, i: nat, r: Row)
    requires s.Valid() && NeverCrashes(w) && r.Unresolved() && r.channel in w.configured
    ensures Left(s, Process(s, w, i, r).0) + 1 <= Left(s, r)
  {
    assert !w.send(i).Crashed?;
  }

  /** Each row of a batch costs the measure at least one. */
  lemma {:induction false} BatchLowersMeasure(s: Settings, w: World, rows: seq<Row>, batch: seq<nat>)
    requires s.Valid() && NeverCrashes(w)
    requires Distinct(batch) && Within(batch, |rows|)
    requires forall k :: 0 <= k < |batch| ==> rows[batch[k]].Unresolved() && rows[batch[k]].channel in w.configured
    ensures Measure(s, ProcessAll(s, w, rows, batch)) + |batch| <= Measure(s, rows)
    decreases |batch|
  {
    if batch == [] {
    } else {
      var rest, last := batch[..|batch| - 1], batch[|batch| - 1];
      BatchLowersMeasure(s, w, rows, rest);
      ProcessAllIsRowWise(s, w, rows, rest);
      assert last !in rest;
      var before := ProcessAll(s, w, rows, rest);
      MeasureUpdate(s, before, last, Process(s, w, last, before[last]).0);
      ProcessLowersLeft(s, w, last, rows[last]);
    }
  }

  ghost function Open(rows: seq<Row>): set<nat> {
    set i: nat | i < |rows| && rows[i].Unresolved()
  }

  function Min(a: nat, b: nat): nat {
    if a <= b then a else b
  }

  lemma AnswerSize(rows: seq<Row>, answer: seq<nat>, n: nat)
    requires IsAnswer(rows, answer, n)
    ensures |answer| == Min(n, |Open(rows)|)
  {
    DistinctSize(answer);
    assert Elements(answer) <= Open(rows);
    SubsetSize(Elements(answer), Open(rows));
    if |answer| < n {
      assert Elements(answer) == Open(rows);
    }
  }

  lemma {:induction false} AllDue(s: Settings, rows: seq<Row>, answer: seq<nat>, now: int)
    requires Within(answer, |rows|)
    requires forall k :: 0 <= k < |answer| ==> IsDue(s, rows[answer[k]], now)
    ensures DueOnly(s, rows, answer, now) == answer
  {
    if answer == [] {
    } else {
      AllDue(s, rows, answer[1..], now);
    }
  }

  /** Whatever state the table is in, a good sweep lowers the measure by at least the smaller of the batch
      size and the number of unresolved rows. */
  lemma {:induction false} SweepLowersMeasure(s: Settings, w: World, rows: seq<Row>, answer: seq<nat>, size: nat)
    requires s.Valid() && size >= 1 && GoodSweep(s, rows, w)
    requires IsAnswer(rows, answer, WINDOW * size)
    ensures Measure(s, Swept(s, w, rows, answer, size)) + Min(size, |Open(rows)|) <= Measure(s, rows)
  {
    AnswerSize(rows, answer, WINDOW * size);
    AllDue(s, rows, answer, w.now);
    BatchIsChosenFrom(s, rows, answer, w.now, size);
    var batch := Batch(s, rows, answer, w.now, size);
    assert |batch| == Min(size, |Open(rows)|);
    assert forall k :: 0 <= k < |batch| ==> batch[k] == answer[k];
    BatchLowersMeasure(s, w, rows, batch);
  }

  /** A run of good sweeps. */
  ghost predicate GoodRun(s: Settings, rows: seq<Row>, events: seq<Event>)
    decreases |events|
  {
    events == [] ||
    (&& events[0].Sweep? && MayHappen(rows, events[0]) && GoodSweep(s, rows, events[0].w)
     && GoodRun(s, Step(s, rows, events[0]), events[1..]))
  }

  /** Any backlog empties: after as many good sweeps as the measure says, and so after finitely many,
      every row is sent or abandoned, those over the cap included. */
  lemma {:induction false} GoodRunsResolveEverything(s: Settings, rows: seq<Row>, events: seq<Event>)
    requires s.Valid() && GoodRun(s, rows, events)
    requires |events| >= Measure(s, rows)
    ensures Legal(s, rows, events)
    ensures forall r | r in Play(s, rows, events) :: r.status == Sent || r.status == Abandoned
    decreases |events|
  {
    if events == [] {
      NothingLeft(s, rows);
    } else {
      var e := events[0];
      SweepLowersMeasure(s, e.w, rows, e.answer, e.size);
      var next := Step(s, rows, e);
      if Open(rows) == {} {
        NothingCosts(s, rows);
        NothingSelected(s, e.w, rows, e.answer, e.size);
      } else {
        assert |Open(rows)| >= 1;
      }
      GoodRunsResolveEverything(s, next, events[1..]);
    }
  }

  lemma {:induction false} NothingLeft(s: Settings, rows: seq<Row>)
    requires Measure(s, rows) == 0
    ensures forall r | r in rows :: !r.Unresolved()
  {
    if rows == [] {
    } else {
      var n := |rows| - 1;
      NothingLeft(s, rows[..n]);
      assert rows == rows[..n] + [rows[n]];
    }
  }

  lemma {:induction false} NothingCosts(s: Settings, rows: seq<Row>)
    requires Open(rows) == {}
    ensures Measure(s, rows) == 0
  {
    if rows == [] {
    } else {
      var n := |rows| - 1;
      assert n !in Open(rows);
      assert Open(rows[..n]) <= Open(rows);
      NothingCosts(s, rows[..n]);
    }
  }

  lemma NothingSelected(s: Settings, w: World, rows: seq<Row>, answer: seq<nat>, size: nat)
    requires Open(rows) == {} && IsAnswer(rows, answer, WINDOW * size)
    ensures Swept(s, w, rows, answer, size) == rows
  {
    AnswerSize(rows, answer, WINDOW * size);
    assert answer == [];
  }

  // ----- every row gets all its tries -----

  /** What the attempt count of a row says about its state, when only transient refusals happen. */
  predicate Spent(s: Settings, r: Row) {
    match r.status
    case Abandoned => r.attempts == s.maxAttempts
    case Sent => 1 <= r.attempts <= s.maxAttempts
    case _ => r.attempts < s.maxAttempts
  }

  ghost predicate AllSpent(s: Settings, rows: seq<Row>) {
    forall i :: 0 <= i < |rows| ==> Spent(s, rows[i])
  }

  /** Sends are delivered or refused for now, and no waiting row has lost its notification. */
  ghost predicate Transient(rows: seq<Row>, w: World) {
    && (forall i: nat :: !w.send(i).Crashed? && (w.send(i).Refused? ==> w.send(i).retryable))
    && forall i :: 0 <= i < |rows| && rows[i].Unresolved() ==> rows[i].notification in w.notifications
  }

  ghost predicate TransientRun(s: Settings, rows: seq<Row>, events: seq<Event>)
    requires Legal(s, rows, events)
    decreases |events|
  {
    events == [] ||
    ((events[0].Sweep? ==> Transient(rows, events[0].w)) && TransientRun(s, Step(s, rows, events[0]), events[1..]))
  }

  lemma SweepKeepsSpent(s: Settings, w: World, rows: seq<Row>, answer: seq<nat>, size: nat)
    requires s.Valid() && AllSpent(s, rows) && Transient(rows, w) && IsAnswer(rows, answer, WINDOW * size)
    ensures AllSpent(s, Swept(s, w, rows, answer, size))
  {
    BatchIsChosenFrom(s, rows, answer, w.now, size);
    ProcessAllIsRowWise(s, w, rows, Batch(s, rows, answer, w.now, size));
    forall i | 0 <= i < |rows| ensures rows[i].Unresolved() ==> Spent(s, Process(s, w, i, rows[i]).0) {
      assert Spent(s, rows[i]) && !w.send(i).Crashed?;
    }
  }

  /** Over any run of enqueues and sweeps in which refusals are transient, a row is abandoned only
      after exactly the allowed number of attempts, and no row is ever tried more often. */
  lemma {:induction false} AbandonedAfterAllTries(s: Settings, rows: seq<Row>, events: seq<Event>)
    requires s.Valid() && AllSpent(s, rows) && Legal(s, rows, events) && TransientRun(s, rows, events)
    ensures AllSpent(s, Play(s, rows, events))
    decreases |events|
  {
    if events == [] {
    } else {
      var e := events[0];
      match e {
        case Sweep(w, size, answer) => SweepKeepsSpent(s, w, rows, answer, size);
        case Enqueue(added) => assert forall i :: 0 <= i < |added| ==> IsFresh(added[i]);
      }
      AbandonedAfterAllTries(s, Step(s, rows, e), events[1..]);
    }
  }

  // ----- the branch without a cap -----

  function Unlucky(now: int): World {
    World(now, {Email, Sms}, {0}, (i: nat) => Crashed("unexpected"))
  }

  /** A channel that always fails unexpectedly keeps a row in the queue for ever: for every n there is
      a run after which it has been tried n times, whatever the cap, and still waits. Each try comes
      as soon as the backoff lets it. */
  lemma {:induction false} NoCapWhenCrashing(s: Settings, r: Row, n: nat) returns (events: seq<Event>)
    requires r.Unresolved() && r.notification == 0
    ensures Legal(s, [r], events) && |events| == n
    ensures var after := Play(s, [r], events)[0]; after.Unresolved() && after.attempts == r.attempts + n
    ensures |AttemptTimes(s, [r], events, 0)| == n
    ensures r.lastAttemptAt.Some? ==>
              forall k: nat :: k < n ==>
                AttemptTimes(s, [r], events, 0)[k] == r.lastAttemptAt.value + Waits(s, r.attempts, k)
    decreases n
  {
    events := [];
    if n == 0 {
    } else {
      var now := if r.lastAttemptAt.None? then 0 else r.lastAttemptAt.value + RetryDelay(s, r.attempts);
      var e, next := TriedOnce(s, r, now);
      var rest := NoCapWhenCrashing(s, next, n - 1);
      hide Legal, Play, AttemptTimes, Attempts, MayHappen, Step, RetryDelay, IsDue, Swept, Batch, Process;
      events := [e] + rest;
      OneEventFirst(s, [r], [next], e, rest);
      var times := AttemptTimes(s, [next], rest, 0);
      assert AttemptTimes(s, [r], events, 0) == [now] + times;
      if r.lastAttemptAt.Some? {
        WaitsOneMore(s, r.attempts, r.lastAttemptAt.value, now, times);
      }
    }
  }

  lemma {:induction false} WaitsOneMore(s: Settings, a: nat, last: int, now: int, times: seq<int>)
    requires now == last + RetryDelay(s, a)
    requires forall k: nat :: k < |times| ==> times[k] == now + Waits(s, a + 1, k)
    ensures forall k: nat :: k < |times| + 1 ==> ([now] + times)[k] == last + Waits(s, a, k)
  {
    hide RetryDelay;
  }

  lemma {:induction false} OneEventFirst(s: Settings, rows: seq<Row>, next: seq<Row>, e: Event, rest: seq<Event>)
    requires rows != [] && MayHappen(rows, e) && Step(s, rows, e) == next && Legal(s, next, rest)
    requires Attempts(s, rows, e, 0)
    ensures Legal(s, rows, [e] + rest) && Play(s, rows, [e] + rest) == Play(s, next, rest)
    ensures AttemptTimes(s, rows, [e] + rest, 0) == [e.w.now] + AttemptTimes(s, next, rest, 0)
  {
  }

  lemma TriedOnce(s: Settings, r: Row, now: int) returns (e: Event, next: Row)
    requires r.Unresolved() && r.notification == 0 && IsDue(s, r, now)
    ensures e.Sweep? && e.w.now == now && MayHappen([r], e) && Step(s, [r], e) == [next] && Attempts(s, [r], e, 0)
    ensures next.Unresolved() && next.notification == 0
    ensures next.attempts == r.attempts + 1 && next.lastAttemptAt == Some(now)
  {
    e := Sweep(Unlucky(now), 1, [0]);
    next := Process(s, Unlucky(now), 0, r).0;
    assert r.channel.Email? || r.channel.Sms?;
    assert IsAnswer([r], [0], WINDOW);
    assert Batch(s, [r], [0], now, 1) == [0];
  }

  /** The backoff bound is exact: there is a run in which the n-th attempt on a fresh row comes base *
      (2^n - 1) minutes after its first, and no later. */
  lemma BackoffIsTight(s: Settings, r: Row, n: nat) returns (events: seq<Event>)
    requires IsFresh(r) && r.notification == 0
    ensures Legal(s, [r], events) && |AttemptTimes(s, [r], events, 0)| == n + 1
    ensures AttemptTimes(s, [r], events, 0)[n]
         == AttemptTimes(s, [r], events, 0)[0] + MINUTE * (s.retryBaseMinutes * (Pow2(n) - 1))
  {
    var first, next := TriedOnce(s, r, 0);
    var rest := NoCapWhenCrashing(s, next, n);
    hide Legal, AttemptTimes, Attempts, MayHappen, Step, RetryDelay;
    events := [first] + rest;
    OneEventFirst(s, [r], [next], first, rest);
    if n > 0 {
      WaitsFromTheFirst(s, n);
    } else {
      assert Pow2(0) - 1 == 0;
    }
  }
}
