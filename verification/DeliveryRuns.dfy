/** What the outbox guarantees: about one sweep, and over whole runs of sweeps. */
module DeliveryRuns {
  import opened Wrappers
  import opened Delivery

  // ----- one sweep -----

  /** A sweep leaves every sent or abandoned row alone, and never changes whom, how, or about what
      any row is. A row it does change is unresolved, due, and on a configured channel. */
  lemma SweepFrame(s: Settings, w: World, rows: seq<Row>, answer: seq<nat>, size: nat, i: nat)
    requires IsAnswer(rows, answer, WINDOW * size) && i < |rows|
    ensures var after := Swept(s, w, rows, answer, size)[i];
            && after.recipient == rows[i].recipient && after.channel == rows[i].channel
            && after.notification == rows[i].notification && after.createdAt == rows[i].createdAt
            && (after != rows[i] ==>
                  rows[i].Unresolved() && IsDue(s, rows[i], w.now) && rows[i].channel in w.configured)
  {
    BatchIsChosenFrom(s, rows, answer, w.now, size);
    ProcessAllIsRowWise(s, w, rows, Batch(s, rows, answer, w.now, size));
  }

  ghost function Elements(xs: seq<nat>): set<nat> {
    set x | x in xs
  }

  lemma {:induction false} DistinctSize(xs: seq<nat>)
    requires Distinct(xs)
    ensures |Elements(xs)| == |xs|
  {
    if xs == [] {
    } else {
      var rest := xs[..|xs| - 1];
      DistinctSize(rest);
      assert Elements(xs) == Elements(rest) + {xs[|xs| - 1]};
    }
  }

  lemma SubsetSize(a: set<nat>, b: set<nat>)
    requires a <= b
    ensures |a| <= |b|
  {
    assert b == a + (b - a);
  }

  ghost function AsOldAs(rows: seq<Row>, i: nat): set<nat>
    requires i < |rows|
  {
    set j: nat | j < |rows| && j != i && rows[j].Unresolved() && rows[j].createdAt <= rows[i].createdAt
  }

  ghost function DueAsOldAs(s: Settings, rows: seq<Row>, now: int, i: nat): set<nat>
    requires i < |rows|
  {
    set j | j in AsOldAs(rows, i) && IsDue(s, rows[j], now)
  }

  lemma InAnswer(rows: seq<Row>, answer: seq<nat>, n: nat, i: nat)
    requires IsAnswer(rows, answer, n)
    requires i < |rows| && rows[i].Unresolved() && |AsOldAs(rows, i)| < n
    ensures i in answer
  {
    if i !in answer {
      DistinctSize(answer);
      SubsetSize(Elements(answer), AsOldAs(rows, i));
      assert false;
    }
  }

  /** What the candidate window buys. A due row is selected if fewer than four batches of unresolved rows
      are no younger than it, and fewer than one batch of these are due, whatever order the database gives
      to rows created together. */
  lemma EarlyDueRowIsSelected(s: Settings, rows: seq<Row>, answer: seq<nat>, now: int, size: nat, i: nat)
    requires IsAnswer(rows, answer, WINDOW * size)
    requires i < |rows| && rows[i].Unresolved() && IsDue(s, rows[i], now)
    requires |AsOldAs(rows, i)| < WINDOW * size && |DueAsOldAs(s, rows, now, i)| < size
    ensures i in Batch(s, rows, answer, now, size)
  {
    hide IsDue;
    InAnswer(rows, answer, WINDOW * size, i);
    var p :| 0 <= p < |answer| && answer[p] == i;
    var before := answer[..p];
    DueOnlyCounts(s, rows, answer, now, p);
    DueOnlyIsChosenFrom(s, rows, before, now);
    DistinctSize(DueOnly(s, rows, before, now));
    forall j | j in before ensures j in AsOldAs(rows, i) {
      var q :| 0 <= q < p && before[q] == j;
      assert answer[q] == j;
    }
    SubsetSize(Elements(DueOnly(s, rows, before, now)), DueAsOldAs(s, rows, now, i));
    BatchIsInOrder(s, rows, answer, now, size, p);
  }

  /** The unresolved rows older than row i. */
  ghost function Older(rows: seq<Row>, i: nat): set<nat>
    requires i < |rows|
  {
    set j: nat | j < |rows| && rows[j].Unresolved() && rows[j].createdAt < rows[i].createdAt
  }

  ghost function DueOlder(s: Settings, rows: seq<Row>, now: int, i: nat): set<nat>
    requires i < |rows|
  {
    set j | j in Older(rows, i) && IsDue(s, rows[j], now)
  }

  /** A candidate has every older unresolved row before it in the answer. */
  lemma OlderComeFirst(rows: seq<Row>, answer: seq<nat>, n: nat, p: nat)
    requires IsAnswer(rows, answer, n) && p < |answer|
    ensures Older(rows, answer[p]) <= Elements(answer[..p])
  {
    var i := answer[p];
    forall j | j in Older(rows, i) ensures j in answer[..p] {
      assert i in answer && j in answer;
      var q :| 0 <= q < |answer| && answer[q] == j;
      assert q < p;
      assert answer[..p][q] == j;
    }
  }

  /** The other half: a row is not selected when four batches of unresolved rows are older than it, or one
      batch of due ones. */
  lemma LateRowIsNotSelected(s: Settings, rows: seq<Row>, answer: seq<nat>, now: int, size: nat, i: nat)
    requires IsAnswer(rows, answer, WINDOW * size) && i < |rows|
    requires |Older(rows, i)| >= WINDOW * size || |DueOlder(s, rows, now, i)| >= size
    ensures i !in Batch(s, rows, answer, now, size)
  {
    hide IsDue;
    BatchIsChosenFrom(s, rows, answer, now, size);
    if i in answer && IsDue(s, rows[i], now) {
      var p :| 0 <= p < |answer| && answer[p] == i;
      var before := answer[..p];
      OlderComeFirst(rows, answer, WINDOW * size, p);
      DistinctSize(before);
      SubsetSize(Older(rows, i), Elements(before));
      DueOnlyIsChosenFrom(s, rows, before, now);
      DistinctSize(DueOnly(s, rows, before, now));
      SubsetSize(DueOlder(s, rows, now, i), Elements(DueOnly(s, rows, before, now)));
      DueOnlyCounts(s, rows, answer, now, p);
      BatchIsInOrder(s, rows, answer, now, size, p);
    }
  }

  function Counter(o: Outcome, t: Tally): nat {
    match t
    case CountSent => o.sent
    case CountFailed => o.failed
    case CountAbandoned => o.abandoned
    case Skipped => 0
  }

  ghost function Hits(batch: seq<nat>, p: nat -> bool): set<nat> {
    set i | i in batch && p(i)
  }

  lemma HitsOneMore(batch: seq<nat>, p: nat -> bool)
    requires Distinct(batch) && batch != []
    ensures var rest, last := batch[..|batch| - 1], batch[|batch| - 1];
            Distinct(rest) && |Hits(batch, p)| == |Hits(rest, p)| + if p(last) then 1 else 0
  {
    var rest, last := batch[..|batch| - 1], batch[|batch| - 1];
    assert batch == rest + [last];
    assert last !in rest;
    assert Hits(batch, p) == Hits(rest, p) + if p(last) then {last} else {};
  }

  /** The counters count distinct selected rows by what became of them. */
  lemma {:induction false} CountersCountRows(s: Settings, w: World, rows: seq<Row>, batch: seq<nat>, t: Tally)
    requires Distinct(batch) && Within(batch, |rows|) && t != Skipped
    ensures Counter(Counted(s, w, rows, batch), t)
         == |Hits(batch, (i: nat) => i < |rows| && Process(s, w, i, rows[i]).1 == t)|
    decreases |batch|
  {
    var p := (i: nat) => i < |rows| && Process(s, w, i, rows[i]).1 == t;
    if batch == [] {
    } else {
      HitsOneMore(batch, p);
      CountersCountRows(s, w, rows, batch[..|batch| - 1], t);
    }
  }

  /** Together the counters count exactly the selected rows whose channel is configured. */
  lemma {:induction false} CountersAddUp(s: Settings, w: World, rows: seq<Row>, batch: seq<nat>)
    requires Distinct(batch) && Within(batch, |rows|)
    ensures Counted(s, w, rows, batch).Total()
         == |Hits(batch, (i: nat) => i < |rows| && rows[i].channel in w.configured)|
    decreases |batch|
  {
    var p := (i: nat) => i < |rows| && rows[i].channel in w.configured;
    if batch == [] {
    } else {
      HitsOneMore(batch, p);
      CountersAddUp(s, w, rows, batch[..|batch| - 1]);
    }
  }

  /** The counter a row adds to is the state it ends in: sent, abandoned, or to be tried again. */
  lemma TallyIsTheFinalState(s: Settings, w: World, i: nat, r: Row)
    requires r.channel in w.configured
    ensures var (after, t) := Process(s, w, i, r);
            && (t == CountSent <==> after.status == Sent)
            && (t == CountFailed <==> after.status == Failed)
            && (t == CountAbandoned <==> after.status == Abandoned)
  {
  }

  // ----- the attempt cap -----

  /** On its last allowed attempt a row is resolved exactly when the channel did not fail in an
      unexpected way: that branch alone ignores the cap. */
  lemma CapHoldsUnlessCrashed(s: Settings, w: World, i: nat, r: Row)
    requires r.channel in w.configured && r.notification in w.notifications
    requires r.attempts + 1 >= s.maxAttempts
    ensures Process(s, w, i, r).0.Unresolved() <==> w.send(i).Crashed?
  {
  }

  // ----- runs -----

  datatype Event = Enqueue(added: seq<Row>) | Sweep(w: World, size: nat, answer: seq<nat>)

  ghost predicate MayHappen(rows: seq<Row>, e: Event) {
    match e
    case Enqueue(added) => forall r | r in added :: IsFresh(r)
    case Sweep(_, size, answer) => size >= 1 && IsAnswer(rows, answer, WINDOW * size)
  }

  function Step(s: Settings, rows: seq<Row>, e: Event): (r: seq<Row>)
    requires MayHappen(rows, e)
    ensures |r| >= |rows|
  {
    match e
    case Enqueue(added) => rows + added
    case Sweep(w, size, answer) => Swept(s, w, rows, answer, size)
  }

  ghost predicate Legal(s: Settings, rows: seq<Row>, events: seq<Event>)
    decreases |events|
  {
    events == [] || (MayHappen(rows, events[0]) && Legal(s, Step(s, rows, events[0]), events[1..]))
  }

  ghost function Play(s: Settings, rows: seq<Row>, events: seq<Event>): (r: seq<Row>)
    requires Legal(s, rows, events)
    ensures |r| >= |rows|
    decreases |events|
  {
    if events == [] then rows else Play(s, Step(s, rows, events[0]), events[1..])
  }

  /** Whether this event tries to send row i. */
  ghost predicate Attempts(s: Settings, rows: seq<Row>, e: Event, i: nat)
    requires MayHappen(rows, e) && i < |rows|
  {
    e.Sweep? && e.w.configured != {} && i in Batch(s, rows, e.answer, e.w.now, e.size)
    && rows[i].channel in e.w.configured && rows[i].notification in e.w.notifications
  }

  /** The times at which a run tries to send row i. */
  ghost function AttemptTimes(s: Settings, rows: seq<Row>, events: seq<Event>, i: nat): seq<int>
    requires Legal(s, rows, events) && i < |rows|
    decreases |events|
  {
    if events == [] then []
    else
      (if Attempts(s, rows, events[0], i) then [events[0].w.now] else [])
      + AttemptTimes(s, Step(s, rows, events[0]), events[1..], i)
  }

  /** What one event does to the bookkeeping of row i. */
  lemma StepCountsAttempts(s: Settings, rows: seq<Row>, e: Event, i: nat)
    requires MayHappen(rows, e) && i < |rows|
    ensures var r, after := rows[i], Step(s, rows, e)[i];
            if Attempts(s, rows, e, i)
            then after.attempts == r.attempts + 1 && after.lastAttemptAt == Some(e.w.now)
                 && r.Unresolved() && IsDue(s, r, e.w.now)
            else after.attempts == r.attempts && after.lastAttemptAt == r.lastAttemptAt
  {
    if e.Sweep? {
      BatchIsChosenFrom(s, rows, e.answer, e.w.now, e.size);
      ProcessAllIsRowWise(s, e.w, rows, Batch(s, rows, e.answer, e.w.now, e.size));
    }
  }

  /** The waits before the next n + 1 attempts of a row with a attempts behind it. */
  function Waits(s: Settings, a: nat, n: nat): nat
    decreases n
  {
    RetryDelay(s, a) + if n == 0 then 0 else Waits(s, a + 1, n - 1)
  }

  lemma {:induction false} WaitsAreGeometric(s: Settings, a: nat, n: nat)
    requires a >= 1
    ensures Waits(s, a, n) == MINUTE * (s.retryBaseMinutes * (Pow2(a - 1) * (Pow2(n + 1) - 1)))
    decreases n
  {
    if n == 0 {
      assert Pow2(1) == 2;
    } else {
      WaitsAreGeometric(s, a + 1, n - 1);
      var p, q := Pow2(a - 1), Pow2(n);
      assert Pow2(a) == 2 * p && Pow2(n + 1) == 2 * q;
      hide Pow2;
      Distribute(s.retryBaseMinutes, p, 2 * p * (q - 1));
      Doubled(p, q);
    }
  }

  lemma Doubled(p: int, q: int)
    ensures p + 2 * p * (q - 1) == p * (2 * q - 1)
  {
  }

  lemma {:induction false} WaitsFromTheFirst(s: Settings, n: nat)
    requires n > 0
    ensures Waits(s, 1, n - 1) == MINUTE * (s.retryBaseMinutes * (Pow2(n) - 1))
  {
    WaitsAreGeometric(s, 1, n - 1);
    assert Pow2(0) * (Pow2(n) - 1) == Pow2(n) - 1;
  }

  lemma Distribute(b: int, x: int, y: int)
    ensures b * x + b * y == b * (x + y)
  {
  }

  /** The life of one row over a run: its value before and after each event, and when it was tried. */
  datatype Life = Life(values: seq<Row>, tries: seq<Option<int>>)

  ghost predicate Lived(s: Settings, l: Life) {
    && |l.values| == |l.tries| + 1
    && forall k {:trigger l.tries[k]} :: 0 <= k < |l.tries| ==> LifeStep(s, l.values[k], l.values[k + 1], l.tries[k])
  }

  predicate LifeStep(s: Settings, r: Row, after: Row, try: Option<int>) {
    match try
    case None => after.attempts == r.attempts && after.lastAttemptAt == r.lastAttemptAt
    case Some(now) => IsDue(s, r, now) && after.attempts == r.attempts + 1 && after.lastAttemptAt == try
  }

  function Times(tries: seq<Option<int>>): seq<int> {
    if tries == [] then []
    else (if tries[0].Some? then [tries[0].value] else []) + Times(tries[1..])
  }

  lemma Later(s: Settings, l: Life)
    requires Lived(s, l) && l.tries != []
    ensures Lived(s, Life(l.values[1..], l.tries[1..]))
  {
  }

  /** With its last attempt at `last`, a row's n-th further attempt waits out all the delays up to it.
      The clocks of the sweeps need not be monotone. */
  lemma {:induction false} FurtherTriesWait(s: Settings, l: Life, last: int, n: nat)
    requires Lived(s, l) && l.values[0].lastAttemptAt == Some(last) && n < |Times(l.tries)|
    ensures Times(l.tries)[n] >= last + Waits(s, l.values[0].attempts, n)
    decreases |l.tries|
  {
    Later(s, l);
    var rest := Life(l.values[1..], l.tries[1..]);
    assert LifeStep(s, l.values[0], l.values[1], l.tries[0]);
    if l.tries[0].None? {
      FurtherTriesWait(s, rest, last, n);
    } else if n == 0 {
    } else {
      FurtherTriesWait(s, rest, l.tries[0].value, n - 1);
    }
  }

  lemma {:induction false} TriesWait(s: Settings, l: Life, n: nat)
    requires Lived(s, l) && l.values[0].attempts == 0 && n + 1 < |Times(l.tries)|
    ensures Times(l.tries)[n + 1] >= Times(l.tries)[0] + Waits(s, 1, n)
    decreases |l.tries|
  {
    Later(s, l);
    var rest := Life(l.values[1..], l.tries[1..]);
    assert LifeStep(s, l.values[0], l.values[1], l.tries[0]);
    if l.tries[0].None? {
      TriesWait(s, rest, n);
    } else {
      FurtherTriesWait(s, rest, l.tries[0].value, n);
    }
  }

  lemma {:induction false} RowLivesThroughRun(s: Settings, rows: seq<Row>, events: seq<Event>, i: nat) returns (l: Life)
    requires Legal(s, rows, events) && i < |rows|
    ensures Lived(s, l) && l.values[0] == rows[i] && Times(l.tries) == AttemptTimes(s, rows, events, i)
    decreases |events|
  {
    l := Life([rows[i]], []);
    if events == [] {
    } else {
      StepCountsAttempts(s, rows, events[0], i);
      var rest := RowLivesThroughRun(s, Step(s, rows, events[0]), events[1..], i);
      var try := if Attempts(s, rows, events[0], i) then Some(events[0].w.now) else None;
      l := Prepended(s, rows[i], try, rest);
    }
  }

  lemma Prepended(s: Settings, r: Row, try: Option<int>, rest: Life) returns (l: Life)
    requires Lived(s, rest) && LifeStep(s, r, rest.values[0], try)
    ensures Lived(s, l) && l.values[0] == r
    ensures Times(l.tries) == (if try.Some? then [try.value] else []) + Times(rest.tries)
  {
    l := Life([r] + rest.values, [try] + rest.tries);
    forall k | 0 <= k < |l.tries| ensures LifeStep(s, l.values[k], l.values[k + 1], l.tries[k]) {
      if k > 0 {
        assert LifeStep(s, rest.values[k - 1], rest.values[k], rest.tries[k - 1]);
      }
    }
    assert l.tries[1..] == rest.tries;
  }

  lemma {:induction false} GeometricTries(s: Settings, l: Life, n: nat)
    requires Lived(s, l) && l.values[0].attempts == 0 && n < |Times(l.tries)|
    ensures Times(l.tries)[n] >= Times(l.tries)[0] + MINUTE * (s.retryBaseMinutes * (Pow2(n) - 1))
  {
    if n > 0 {
      TriesWait(s, l, n - 1);
      WaitsFromTheFirst(s, n);
    } else {
      assert Pow2(0) - 1 == 0;
    }
  }

  /** In every run, the n-th attempt on a row (counted from 0) comes at least base * (2^n - 1) minutes
      after its first. */
  lemma {:induction false} BackoffOverRuns(s: Settings, rows: seq<Row>, events: seq<Event>, i: nat, n: nat)
    requires Legal(s, rows, events) && i < |rows| && rows[i].attempts == 0
    requires n < |AttemptTimes(s, rows, events, i)|
    ensures AttemptTimes(s, rows, events, i)[n]
         >= AttemptTimes(s, rows, events, i)[0] + MINUTE * (s.retryBaseMinutes * (Pow2(n) - 1))
  {
    var l := RowLivesThroughRun(s, rows, events, i);
    GeometricTries(s, l, n);
  }

  /** In every run a sent or abandoned row stays exactly as it is. */
  lemma {:induction false} ResolvedIsFinal(s: Settings, rows: seq<Row>, events: seq<Event>, i: nat)
    requires Legal(s, rows, events) && i < |rows| && !rows[i].Unresolved()
    ensures Play(s, rows, events)[i] == rows[i] && AttemptTimes(s, rows, events, i) == []
    decreases |events|
  {
    if events == [] {
    } else {
      var next := Step(s, rows, events[0]);
      StepCountsAttempts(s, rows, events[0], i);
      if events[0].Sweep? {
        SweepFrame(s, events[0].w, rows, events[0].answer, events[0].size, i);
      }
      ResolvedIsFinal(s, next, events[1..], i);
    }
  }

  lemma {:induction false} FirstEvent(s: Settings, rows: seq<Row>, events: seq<Event>, i: nat)
    requires Legal(s, rows, events) && events != [] && i < |rows|
    ensures MayHappen(rows, events[0])
    ensures var next := Step(s, rows, events[0]);
            && Legal(s, next, events[1..]) && Play(s, rows, events) == Play(s, next, events[1..])
            && AttemptTimes(s, rows, events, i)
               == (if Attempts(s, rows, events[0], i) then [events[0].w.now] else [])
                  + AttemptTimes(s, next, events[1..], i)
  {
  }

  lemma Reassociated(a: seq<int>, b: seq<int>, c: seq<int>)
    ensures a + (b + c) == (a + b) + c
  {
  }

  lemma {:induction false} RunCutAfterFirst(s: Settings, rows: seq<Row>, events: seq<Event>, k: nat, i: nat)
    requires Legal(s, rows, events) && 0 < k <= |events| && i < |rows|
    requires var next := Step(s, rows, events[0]);
             && Legal(s, next, events[1..][..k - 1])
             && Legal(s, Play(s, next, events[1..][..k - 1]), events[1..][k - 1..])
    ensures var next := Step(s, rows, events[0]);
            && Legal(s, rows, events[..k])
            && Play(s, rows, events[..k]) == Play(s, next, events[1..][..k - 1])
            && events[k..] == events[1..][k - 1..]
            && AttemptTimes(s, rows, events[..k], i)
               == (if Attempts(s, rows, events[0], i) then [events[0].w.now] else [])
                  + AttemptTimes(s, next, events[1..][..k - 1], i)
  {
    hide MayHappen, Step, Attempts;
    assert events[..k][1..] == events[1..][..k - 1] && events[..k][0] == events[0];
  }

  /** A run may be cut anywhere: what holds of a first event holds of every later one. */
  lemma {:induction false} RunSplits(s: Settings, rows: seq<Row>, events: seq<Event>, k: nat, i: nat)
    requires Legal(s, rows, events) && k <= |events| && i < |rows|
    ensures Legal(s, rows, events[..k]) && Legal(s, Play(s, rows, events[..k]), events[k..])
    ensures Play(s, rows, events) == Play(s, Play(s, rows, events[..k]), events[k..])
    ensures AttemptTimes(s, rows, events, i)
         == AttemptTimes(s, rows, events[..k], i) + AttemptTimes(s, Play(s, rows, events[..k]), events[k..], i)
    decreases k
  {
    if k == 0 {
      assert events[..0] == [] && events[0..] == events;
    } else {
      FirstEvent(s, rows, events, i);
      hide *;
      RunSplits(s, Step(s, rows, events[0]), events[1..], k - 1, i);
      RunCutAfterFirst(s, rows, events, k, i);
      Reassociated(if Attempts(s, rows, events[0], i) then [events[0].w.now] else [],
                   AttemptTimes(s, Step(s, rows, events[0]), events[1..][..k - 1], i),
                   AttemptTimes(s, Play(s, rows, events[..k]), events[k..], i));
    }
  }

  lemma {:induction false} RefusalIsFinal(s: Settings, rows: seq<Row>, events: seq<Event>, i: nat)
    requires Legal(s, rows, events) && events != [] && i < |rows|
    requires Attempts(s, rows, events[0], i)
    requires var answered := events[0].w.send(i); answered.Refused? && !answered.retryable
    ensures var after := Step(s, rows, events[0])[i];
            && after.status == Abandoned && StartOf(after.lastError, events[0].w.send(i).message)
            && Play(s, rows, events)[i] == after
            && AttemptTimes(s, rows, events, i) == [events[0].w.now]
  {
    var e := events[0];
    SweptRowEndsAs(s, e.w, rows, e.answer, e.size, i);
    ResolvedIsFinal(s, Step(s, rows, e), events[1..], i);
  }

  /** A permanent refusal ends a row's story. If the attempt that event k of a run makes on row i meets
      one, the row is abandoned by that sweep, with what the refusal said, and is so at the end of the
      run; and that attempt was its last. */
  lemma {:induction false} PermanentRefusalIsFinal(s: Settings, rows: seq<Row>, events: seq<Event>, i: nat, k: nat)
    requires Legal(s, rows, events) && k < |events| && i < |rows|
    requires Legal(s, rows, events[..k]) && MayHappen(Play(s, rows, events[..k]), events[k])
    requires Attempts(s, Play(s, rows, events[..k]), events[k], i)
    requires var answered := events[k].w.send(i); answered.Refused? && !answered.retryable
    ensures var after := Step(s, Play(s, rows, events[..k]), events[k])[i];
            && after.status == Abandoned && StartOf(after.lastError, events[k].w.send(i).message)
            && Play(s, rows, events)[i] == after
    ensures AttemptTimes(s, rows, events, i) == AttemptTimes(s, rows, events[..k], i) + [events[k].w.now]
  {
    hide MayHappen, Step, Attempts, StartOf, Legal, Play, AttemptTimes;
    RunSplits(s, rows, events, k, i);
    assert events[k..][0] == events[k];
    RefusalIsFinal(s, Play(s, rows, events[..k]), events[k..], i);
  }

  // ----- a closed queue -----

  /** The older unresolved rows on channels that are gone. */
  ghost function Blockers(rows: seq<Row>, i: nat, gone: set<Channel>): set<nat>
    requires i < |rows|
  {
    set j | j in Older(rows, i) && rows[j].channel in gone
  }

  /** The channels stay gone, and no sweep's window is wider than n. */
  ghost predicate StayGone(events: seq<Event>, gone: set<Channel>, n: nat) {
    forall k :: 0 <= k < |events| && events[k].Sweep? ==>
      events[k].w.configured !! gone && WINDOW * events[k].size <= n
  }

  lemma StepKeepsBlocked(s: Settings, rows: seq<Row>, e: Event, i: nat, gone: set<Channel>)
    requires MayHappen(rows, e) && i < |rows|
    requires e.Sweep? ==> e.w.configured !! gone && WINDOW * e.size <= |Blockers(rows, i, gone)|
    ensures Step(s, rows, e)[i] == rows[i] && !Attempts(s, rows, e, i)
    ensures Blockers(rows, i, gone) <= Blockers(Step(s, rows, e), i, gone)
  {
    if e.Sweep? {
      SubsetSize(Blockers(rows, i, gone), Older(rows, i));
      LateRowIsNotSelected(s, rows, e.answer, e.w.now, e.size, i);
      BatchIsChosenFrom(s, rows, e.answer, e.w.now, e.size);
      ProcessAllIsRowWise(s, e.w, rows, Batch(s, rows, e.answer, e.w.now, e.size));
      forall j | j in Blockers(rows, i, gone) ensures Step(s, rows, e)[j] == rows[j] {
        SweepFrame(s, e.w, rows, e.answer, e.size, j);
      }
    }
  }

  /** Why rows that wait for ever are a danger: behind as many older ones as the window holds, on channels
      that stay unconfigured, a row is never tried and never changes, over every run, due as it may be. */
  lemma {:induction false} StarvedForEver(s: Settings, rows: seq<Row>, events: seq<Event>, i: nat, gone: set<Channel>)
    requires Legal(s, rows, events) && i < |rows| && StayGone(events, gone, |Blockers(rows, i, gone)|)
    ensures Play(s, rows, events)[i] == rows[i] && AttemptTimes(s, rows, events, i) == []
    decreases |events|
  {
    if events == [] {
    } else {
      var next := Step(s, rows, events[0]);
      StepKeepsBlocked(s, rows, events[0], i, gone);
      SubsetSize(Blockers(rows, i, gone), Blockers(next, i, gone));
      assert StayGone(events[1..], gone, |Blockers(next, i, gone)|);
      StarvedForEver(s, next, events[1..], i, gone);
    }
  }
}
