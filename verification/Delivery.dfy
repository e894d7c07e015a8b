/** The delivery outbox: rows that wait to be sent, and the sweep that sends them, with exponential
    backoff, an attempt cap, and permanent failures told apart from transient ones. */
module Delivery {
  import opened Wrappers

  datatype Channel = Email | Sms
  datatype Status = Pending | Sent | Failed | Abandoned

  /** One outbox row. A row is known by its place in the table; times are in microseconds. */
  datatype Row = Row(
    notification: nat,
    channel: Channel,
    recipient: string,
    status: Status,
    attempts: nat,
    lastAttemptAt: Option<int>,
    lastError: Option<string>,
    sentAt: Option<int>,
    createdAt: int)
  {
    predicate Unresolved() {
      status == Pending || status == Failed
    }
  }

  predicate IsFresh(r: Row) {
    r.status == Pending && r.attempts == 0 && r.lastAttemptAt == None
  }

  /** The part of a user that decides where notifications go. */
  datatype User = User(
    active: bool,
    email: Option<string>,
    phone: Option<string>,
    notifyByEmail: bool,
    notifyBySms: bool)

  /** The address on this channel, if there is one and the user asked for the channel. */
  function RecipientFor(u: User, kind: Channel): Option<string> {
    var (wanted, address) := if kind == Email then (u.notifyByEmail, u.email) else (u.notifyBySms, u.phone);
    if wanted && address.Some? && address.value != "" then address else None
  }

  /** The user asked to be reached on this channel, and the address given for it is this one: the e-mail
      address for e-mail, the telephone number for SMS. An empty address is none. */
  predicate AsksFor(u: User, kind: Channel, address: string) {
    && address != ""
    && (kind == Email ==> u.notifyByEmail && u.email == Some(address))
    && (kind == Sms ==> u.notifyBySms && u.phone == Some(address))
  }

  const MINUTE := 60_000_000
  const ERROR_MAX := 500
  const WINDOW := 4

  datatype Settings = Settings(retryBaseMinutes: nat, maxAttempts: nat, batchSize: nat) {
    predicate Valid() {
      maxAttempts >= 1 && batchSize >= 1
    }
  }

  /** What a channel's send does: return, raise DeliveryError, or raise anything else. */
  datatype SendResult = Delivered(at: int) | Refused(message: string, retryable: bool) | Crashed(message: string)

  /** What one sweep finds outside its table. */
  datatype World = World(
    now: int,
    configured: set<Channel>,
    notifications: set<nat>,
    send: nat -> SendResult)

  function Pow2(n: nat): (p: nat)
    ensures p >= 1
  {
    if n == 0 then 1 else 2 * Pow2(n - 1)
  }

  function RetryDelay(s: Settings, attempts: nat): nat {
    MINUTE * (s.retryBaseMinutes * Pow2(if attempts >= 1 then attempts - 1 else 0))
  }

  predicate IsDue(s: Settings, r: Row, now: int) {
    r.lastAttemptAt.None? || r.lastAttemptAt.value + RetryDelay(s, r.attempts) <= now
  }

  function Truncated(m: string): string {
    if |m| <= ERROR_MAX then m else m[..ERROR_MAX]
  }

  const ORPHANED := "the notification no longer exists"
  const UNEXPECTED := "unexpected error: "

  datatype Tally = Skipped | CountSent | CountFailed | CountAbandoned

  /** What a sweep does to a row it has selected, and which counter it adds to. */
  function Process(s: Settings, w: World, i: nat, r: Row): (Row, Tally) {
    if r.channel !in w.configured then (r, Skipped)
    else if r.notification !in w.notifications then
      (r.(status := Abandoned, lastError := Some(ORPHANED)), CountAbandoned)
    else
      var tried := r.(attempts := r.attempts + 1, lastAttemptAt := Some(w.now));
      match w.send(i)
      case Delivered(at) =>
        (tried.(status := Sent, sentAt := Some(at), lastError := None), CountSent)
      case Refused(m, retryable) =>
        var noted := tried.(lastError := Some(Truncated(m)));
        if !retryable || noted.attempts >= s.maxAttempts
        then (noted.(status := Abandoned), CountAbandoned)
        else (noted.(status := Failed), CountFailed)
      case Crashed(m) =>
        (tried.(lastError := Some(Truncated(UNEXPECTED + m)), status := Failed), CountFailed)
  }

  // ----- selection -----

  predicate Distinct(xs: seq<nat>) {
    forall i, j :: 0 <= i < j < |xs| ==> xs[i] != xs[j]
  }

  predicate Within(xs: seq<nat>, n: nat) {
    forall k :: 0 <= k < |xs| ==> xs[k] < n
  }

  /** A correct answer to: unresolved rows, oldest first, at most n of them. Rows created at the
      same instant may come in any order. */
  ghost predicate IsAnswer(rows: seq<Row>, answer: seq<nat>, n: nat) {
    && Distinct(answer)
    && |answer| <= n
    && Within(answer, |rows|)
    && (forall i | i in answer :: rows[i].Unresolved())
    && (forall p, q :: 0 <= p < q < |answer| ==> rows[answer[p]].createdAt <= rows[answer[q]].createdAt)
    && (forall i: nat | i < |rows| && rows[i].Unresolved() && i !in answer ::
          |answer| == n && forall j | j in answer :: rows[j].createdAt <= rows[i].createdAt)
  }

  function DueOnly(s: Settings, rows: seq<Row>, answer: seq<nat>, now: int): seq<nat>
    requires Within(answer, |rows|)
  {
    if answer == [] then []
    else
      (if IsDue(s, rows[answer[0]], now) then [answer[0]] else []) + DueOnly(s, rows, answer[1..], now)
  }

  function Take(xs: seq<nat>, n: nat): seq<nat> {
    if |xs| <= n then xs else xs[..n]
  }

  /** The rows a sweep works on, in order. */
  function Batch(s: Settings, rows: seq<Row>, answer: seq<nat>, now: int, size: nat): seq<nat>
    requires Within(answer, |rows|)
  {
    Take(DueOnly(s, rows, answer, now), size)
  }

  // ----- the sweep -----

  function ProcessAll(s: Settings, w: World, rows: seq<Row>, batch: seq<nat>): (r: seq<Row>)
    requires Within(batch, |rows|)
    ensures |r| == |rows|
    decreases |batch|
  {
    if batch == [] then rows
    else
      var last := batch[|batch| - 1];
      var before := ProcessAll(s, w, rows, batch[..|batch| - 1]);
      before[last := Process(s, w, last, before[last]).0]
  }

  datatype Outcome = Outcome(sent: nat, failed: nat, abandoned: nat) {
    function Add(t: Tally): Outcome {
      match t
      case Skipped => this
      case CountSent => this.(sent := sent + 1)
      case CountFailed => this.(failed := failed + 1)
      case CountAbandoned => this.(abandoned := abandoned + 1)
    }

    function Total(): nat {
      sent + failed + abandoned
    }
  }

  function Counted(s: Settings, w: World, rows: seq<Row>, batch: seq<nat>): Outcome
    requires Within(batch, |rows|)
    decreases |batch|
  {
    if batch == [] then Outcome(0, 0, 0)
    else
      var last := batch[|batch| - 1];
      Counted(s, w, rows, batch[..|batch| - 1]).Add(Process(s, w, last, rows[last]).1)
  }

  function Swept(s: Settings, w: World, rows: seq<Row>, answer: seq<nat>, size: nat): (r: seq<Row>)
    requires Within(answer, |rows|)
    ensures |r| == |rows|
  {
    if w.configured == {} then rows
    else
      BatchIsChosenFrom(s, rows, answer, w.now, size);
      ProcessAll(s, w, rows, Batch(s, rows, answer, w.now, size))
  }

  lemma {:induction false} DueOnlyIsChosenFrom(s: Settings, rows: seq<Row>, answer: seq<nat>, now: int)
    requires Within(answer, |rows|)
    ensures Within(DueOnly(s, rows, answer, now), |rows|)
    ensures forall i | i in DueOnly(s, rows, answer, now) :: i in answer && IsDue(s, rows[i], now)
    ensures forall i | i in answer && IsDue(s, rows[i], now) :: i in DueOnly(s, rows, answer, now)
    ensures Distinct(answer) ==> Distinct(DueOnly(s, rows, answer, now))
  {
    if answer == [] {
    } else {
      DueOnlyIsChosenFrom(s, rows, answer[1..], now);
      if Distinct(answer) {
        assert Distinct(answer[1..]);
      }
    }
  }

  lemma BatchIsChosenFrom(s: Settings, rows: seq<Row>, answer: seq<nat>, now: int, size: nat)
    requires Within(answer, |rows|)
    ensures var b := Batch(s, rows, answer, now, size);
            && |b| <= size && Within(b, |rows|)
            && (forall i | i in b :: i in answer && IsDue(s, rows[i], now))
            && (Distinct(answer) ==> Distinct(b))
  {
    DueOnlyIsChosenFrom(s, rows, answer, now);
  }

  lemma {:induction false} DueOnlyAppends(s: Settings, rows: seq<Row>, a: seq<nat>, b: seq<nat>, now: int)
    requires Within(a, |rows|) && Within(b, |rows|)
    ensures Within(a + b, |rows|)
    ensures DueOnly(s, rows, a + b, now) == DueOnly(s, rows, a, now) + DueOnly(s, rows, b, now)
  {
    if a == [] {
      assert a + b == b;
    } else {
      assert (a + b)[1..] == a[1..] + b;
      DueOnlyAppends(s, rows, a[1..], b, now);
    }
  }

  lemma {:induction false} DueOnlyOne(s: Settings, rows: seq<Row>, i: nat, now: int)
    requires i < |rows|
    ensures DueOnly(s, rows, [i], now) == if IsDue(s, rows[i], now) then [i] else []
  {
  }

  /** Which of the first p candidates are due. */
  ghost function DueBefore(s: Settings, rows: seq<Row>, answer: seq<nat>, now: int, p: nat): set<nat>
    requires Within(answer, |rows|) && p <= |answer|
  {
    set j: nat | j < p && IsDue(s, rows[answer[j]], now)
  }

  lemma DueBeforeOneMore(s: Settings, rows: seq<Row>, answer: seq<nat>, now: int, p: nat)
    requires Within(answer, |rows|) && p < |answer|
    ensures |DueBefore(s, rows, answer, now, p + 1)|
         == |DueBefore(s, rows, answer, now, p)| + if IsDue(s, rows[answer[p]], now) then 1 else 0
  {
    hide IsDue;
    var earlier := DueBefore(s, rows, answer, now, p);
    assert DueBefore(s, rows, answer, now, p + 1)
        == if IsDue(s, rows[answer[p]], now) then earlier + {p} else earlier;
  }

  lemma {:induction false} DueOnlyCounts(s: Settings, rows: seq<Row>, answer: seq<nat>, now: int, p: nat)
    requires Within(answer, |rows|) && p <= |answer|
    ensures |DueOnly(s, rows, answer[..p], now)| == |DueBefore(s, rows, answer, now, p)|
  {
    if p == 0 {
    } else {
      hide DueOnly, IsDue, DueBefore;
      DueOnlyCounts(s, rows, answer, now, p - 1);
      var last := answer[p - 1];
      assert answer[..p] == answer[..p - 1] + [last];
      DueOnlyAppends(s, rows, answer[..p - 1], [last], now);
      DueOnlyOne(s, rows, last, now);
      DueBeforeOneMore(s, rows, answer, now, p - 1);
    }
  }

  /** The batch is the first due candidates in the order of the answer: one that is due comes in the
      place given by how many due ones are before it, if the batch reaches that far, and else not at all. */
  lemma BatchIsInOrder(s: Settings, rows: seq<Row>, answer: seq<nat>, now: int, size: nat, p: nat)
    requires Distinct(answer) && Within(answer, |rows|) && p < |answer| && IsDue(s, rows[answer[p]], now)
    ensures var b, place := Batch(s, rows, answer, now, size), |DueBefore(s, rows, answer, now, p)|;
            && (answer[p] in b <==> place < size)
            && (place < size ==> place < |b| && b[place] == answer[p])
  {
    var due, before := DueOnly(s, rows, answer, now), DueOnly(s, rows, answer[..p], now);
    assert answer == answer[..p] + ([answer[p]] + answer[p + 1..]);
    DueOnlyAppends(s, rows, answer[..p], [answer[p]] + answer[p + 1..], now);
    assert ([answer[p]] + answer[p + 1..])[1..] == answer[p + 1..];
    DueOnlyCounts(s, rows, answer, now, p);
    DueOnlyIsChosenFrom(s, rows, answer, now);
    assert due[|before|] == answer[p];
  }

  /** A sweep never works on a row twice, so each row ends as Process leaves it, or as it was. */
  lemma {:induction false} ProcessAllIsRowWise(s: Settings, w: World, rows: seq<Row>, batch: seq<nat>)
    requires Distinct(batch) && Within(batch, |rows|)
    ensures forall i: nat :: i < |rows| ==>
              ProcessAll(s, w, rows, batch)[i] == if i in batch then Process(s, w, i, rows[i]).0 else rows[i]
    decreases |batch|
  {
    if batch == [] {
    } else {
      ProcessAllIsRowWise(s, w, rows, batch[..|batch| - 1]);
      assert batch == batch[..|batch| - 1] + [batch[|batch| - 1]];
    }
  }

  // ----- what an attempt comes to -----

  /** Trying again cannot help: there is nothing left to send, the refusal is permanent, or it comes on
      the last allowed attempt. */
  predicate Hopeless(s: Settings, w: World, i: nat, r: Row) {
    || r.notification !in w.notifications
    || (w.send(i).Refused? && (!w.send(i).retryable || r.attempts + 1 >= s.maxAttempts))
  }

  predicate GetsThrough(w: World, i: nat, r: Row) {
    r.notification in w.notifications && w.send(i).Delivered?
  }

  /** The start of a message, as much as the column takes. */
  predicate StartOf(kept: Option<string>, message: string) {
    kept.Some? && kept.value <= message && |kept.value| == if |message| < 500 then |message| else 500
  }

  /** How a row on a configured channel stands once a sweep has worked on it. */
  predicate EndsAs(s: Settings, w: World, i: nat, r: Row, after: Row) {
    && after.notification == r.notification && after.channel == r.channel
    && after.recipient == r.recipient && after.createdAt == r.createdAt
    && (after.status == Abandoned <==> Hopeless(s, w, i, r))
    && (after.status == Sent <==> GetsThrough(w, i, r))
    && after.status != Pending
    && (GetsThrough(w, i, r) ==> after.sentAt == Some(w.send(i).at) && after.lastError == None)
    && (!GetsThrough(w, i, r) ==> after.sentAt == r.sentAt)
    && (if r.notification !in w.notifications
        then after.lastError == Some(ORPHANED) && after.attempts == r.attempts && after.lastAttemptAt == r.lastAttemptAt
        else after.attempts == r.attempts + 1 && after.lastAttemptAt == Some(w.now)
             && (w.send(i).Refused? ==> StartOf(after.lastError, w.send(i).message))
             && (w.send(i).Crashed? ==> StartOf(after.lastError, UNEXPECTED + w.send(i).message)))
  }

  /** A sweep abandons a selected row exactly when trying again cannot help, marks it sent exactly when the
      channel took it, and leaves every other for a later try; what it writes beside the status is fixed too.
      A row that is not selected, or whose channel is gone, stays as it was. */
  lemma SweptRowEndsAs(s: Settings, w: World, rows: seq<Row>, answer: seq<nat>, size: nat, i: nat)
    requires IsAnswer(rows, answer, WINDOW * size) && i < |rows|
    ensures var after, selected := Swept(s, w, rows, answer, size)[i], i in Batch(s, rows, answer, w.now, size);
            if selected && rows[i].channel in w.configured then EndsAs(s, w, i, rows[i], after) else after == rows[i]
  {
    BatchIsChosenFrom(s, rows, answer, w.now, size);
    ProcessAllIsRowWise(s, w, rows, Batch(s, rows, answer, w.now, size));
  }

  /** The outbox table and the sweep over it. */
  class Outbox {
    const settings: Settings
    var rows: seq<Row>

    constructor (settings: Settings)
      ensures rows == [] && this.settings == settings
    {
      this.settings := settings;
      rows := [];
    }

    /** enqueue_for: one fresh row for each configured channel on which the user wants to be reached
        and can be; nothing for a type that stays inside, or a missing or inactive user. */
    method EnqueueFor(notification: nat, outbound: bool, user: Option<User>, configured: set<Channel>, now: int)
      returns (created: nat)
      modifies this
      ensures |rows| == |old(rows)| + created && rows[..|old(rows)|] == old(rows)
      ensures forall i :: |old(rows)| <= i < |rows| ==>
                IsFresh(rows[i]) && rows[i].notification == notification && rows[i].createdAt == now
                && rows[i].channel in configured
                && user.Some? && AsksFor(user.value, rows[i].channel, rows[i].recipient)
      ensures forall i, j :: |old(rows)| <= i < j < |rows| ==> rows[i].channel != rows[j].channel
      ensures outbound && user.Some? && user.value.active ==>
                forall kind, address | kind in configured && AsksFor(user.value, kind, address) ::
                  exists i :: |old(rows)| <= i < |rows| && rows[i].channel == kind && rows[i].recipient == address
      ensures !outbound || user.None? || !user.value.active ==> created == 0
    {
      created := 0;
      if !outbound || configured == {} || user.None? || !user.value.active {
        return;
      }
      var left := configured;
      while left != {}
        invariant left <= configured
        invariant |rows| == |old(rows)| + created && rows[..|old(rows)|] == old(rows)
        invariant forall i :: |old(rows)| <= i < |rows| ==>
                IsFresh(rows[i]) && rows[i].notification == notification && rows[i].createdAt == now
                && rows[i].channel in configured - left
                && AsksFor(user.value, rows[i].channel, rows[i].recipient)
        invariant forall i, j :: |old(rows)| <= i < j < |rows| ==> rows[i].channel != rows[j].channel
        invariant forall kind, address | kind in configured - left && AsksFor(user.value, kind, address) ::
                  exists i :: |old(rows)| <= i < |rows| && rows[i].channel == kind && rows[i].recipient == address
        decreases |left|
      {
        var kind :| kind in left;
        left := left - {kind};
        var recipient := RecipientFor(user.value, kind);
        if recipient.None? {
          continue;
        }
        ghost var was := rows;
        rows := rows + [Row(notification, kind, recipient.value, Pending, 0, None, None, None, now)];
        created := created + 1;
        assert rows[|was|].channel == kind && rows[|was|].recipient == recipient.value;
        assert forall i :: 0 <= i < |was| ==> rows[i] == was[i];
      }
    }

    /** One pass of the sweep's loop over a selected row. */
    method Deliver(w: World, i: nat, delivery: Row) returns (after: Row, tally: Tally)
      ensures (after, tally) == Process(settings, w, i, delivery)
      ensures if delivery.channel in w.configured then EndsAs(settings, w, i, delivery, after) else after == delivery
    {
      after := delivery;
      if after.channel !in w.configured {
        return after, Skipped;
      }
      if after.notification !in w.notifications {
        after := after.(status := Abandoned, lastError := Some(ORPHANED));
        return after, CountAbandoned;
      }
      after := after.(attempts := after.attempts + 1, lastAttemptAt := Some(w.now));
      match w.send(i) {
        case Refused(m, retryable) =>
          after := after.(lastError := Some(Truncated(m)));
          if !retryable || after.attempts >= settings.maxAttempts {
            after := after.(status := Abandoned);
            tally := CountAbandoned;
          } else {
            after := after.(status := Failed);
            tally := CountFailed;
          }
        case Crashed(m) =>
          after := after.(status := Failed);
          after := after.(lastError := Some(Truncated(UNEXPECTED + m)));
          tally := CountFailed;
        case Delivered(at) =>
          after := after.(status := Sent, sentAt := Some(at), lastError := None);
          tally := CountSent;
      }
    }

    /** run_delivery_sweep. `answer` is what the database returns for the candidate query. */
    method Sweep(w: World, limit: Option<nat>, answer: seq<nat>) returns (outcome: Outcome)
      requires settings.Valid()
      requires IsAnswer(rows, answer, WINDOW * Size(limit))
      modifies this
      ensures rows == Swept(settings, w, old(rows), answer, Size(limit))
      ensures forall i :: 0 <= i < |rows| ==>
                if i in Batch(settings, old(rows), answer, w.now, Size(limit)) && old(rows)[i].channel in w.configured
                then EndsAs(settings, w, i, old(rows)[i], rows[i])
                else rows[i] == old(rows)[i]
      ensures w.configured == {} ==> outcome == Outcome(0, 0, 0)
      ensures w.configured != {} ==>
                var batch := Batch(settings, old(rows), answer, w.now, Size(limit));
                Within(batch, |old(rows)|) && outcome == Counted(settings, w, old(rows), batch)
    {
      outcome := Outcome(0, 0, 0);
      if w.configured == {} {
        return;
      }
      ghost var was := rows;
      var batch := Batch(settings, rows, answer, w.now, Size(limit));
      BatchIsChosenFrom(settings, rows, answer, w.now, Size(limit));
      for k := 0 to |batch|
        invariant rows == ProcessAll(settings, w, was, batch[..k])
        invariant outcome == Counted(settings, w, was, batch[..k])
      {
        ProcessAllIsRowWise(settings, w, was, batch[..k]);
        var i := batch[k];
        assert rows[i] == was[i];
        assert batch[..k + 1][..k] == batch[..k];
        var after, tally := Deliver(w, i, rows[i]);
        rows := rows[i := after];
        outcome := outcome.Add(tally);
      }
      assert batch[..|batch|] == batch;
      forall i | 0 <= i < |rows|
        ensures if i in batch && was[i].channel in w.configured then EndsAs(settings, w, i, was[i], rows[i])
                else rows[i] == was[i]
      {
        SweptRowEndsAs(settings, w, was, answer, Size(limit), i);
      }
    }

    /** `limit or batch_size`: an absent or zero limit means the configured size. */
    function Size(limit: Option<nat>): (size: nat)
      ensures limit == None || limit == Some(0) ==> size == settings.batchSize
      ensures limit.Some? && limit.value > 0 ==> size == limit.value
    {
      if limit.Some? && limit.value != 0 then limit.value else settings.batchSize
    }
  }
}
