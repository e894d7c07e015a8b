/** Any number of transactions calling log_event at once. Each call is three steps (take the
    advisory lock, read the last hash, insert), the lock lasts until the transaction ends, and a
    transaction sees what is committed plus its own rows. */
module AuditProtocol {
  import opened Wrappers
  import opened AuditChain
  import opened AuditTampering

  type Table = map<nat, Row>

  datatype Phase = Idle | Locked | HasRead(prev: string)

  datatype Txn = Txn(phase: Phase, pending: Table)

  const FRESH := Txn(Idle, map[])

  datatype State = State(committed: Table, txns: map<nat, Txn>, holder: Option<nat>, nextId: nat) {
    function Of(t: nat): Txn {
      if t in txns then txns[t] else FRESH
    }

    function Visible(t: nat): Table {
      committed + Of(t).pending
    }

    /** The committed rows, in id order. */
    function Log(): seq<Row> {
      Listing(committed, nextId)
    }
  }

  const START := State(map[], map[], None, 1)

  /** The rows with ids below n, in id order. */
  function Listing(m: Table, n: nat): seq<Row> {
    if n == 0 then []
    else Listing(m, n - 1) + (if n - 1 in m then [m[n - 1]] else [])
  }

  datatype Action =
    | Lock(t: nat)
    | ReadLast(t: nat)
    | Insert(t: nat, c: Content)
    | Commit(t: nat)
    | Rollback(t: nat)

  predicate MayLock(s: State, t: nat, locking: bool) {
    !locking || s.holder == None || s.holder == Some(t)
  }

  function Released(s: State, t: nat): Option<nat> {
    if s.holder == Some(t) then None else s.holder
  }

  /** The state after one step, or None when the step cannot be taken now. With `locking` off the
      lock is never waited for. */
  function Next(sha: Sha, locking: bool, s: State, a: Action): Option<State> {
    var x := s.Of(a.t);
    match a
    case Lock(t) =>
      if x.phase == Idle && MayLock(s, t, locking)
      then Some(s.(txns := s.txns[t := x.(phase := Locked)], holder := Some(t)))
      else None
    case ReadLast(t) =>
      if x.phase == Locked
      then Some(s.(txns := s.txns[t := x.(phase := HasRead(LastHash(Listing(s.Visible(t), s.nextId))))]))
      else None
    case Insert(t, c) =>
      if x.phase.HasRead?
      then
        var row := NewRow(sha, x.phase.prev, s.nextId, c);
        Some(s.(txns := s.txns[t := Txn(Idle, x.pending[s.nextId := row])], nextId := s.nextId + 1))
      else None
    case Commit(t) =>
      if x.phase == Idle
      then Some(s.(committed := s.Visible(t), txns := s.txns[t := FRESH], holder := Released(s, t)))
      else None
    case Rollback(t) =>
      Some(s.(txns := s.txns[t := FRESH], holder := Released(s, t)))
  }

  function Run(sha: Sha, locking: bool, actions: seq<Action>): Option<State> {
    if actions == [] then Some(START)
    else
      var before := Run(sha, locking, actions[..|actions| - 1]);
      if before.None? then None else Next(sha, locking, before.value, actions[|actions| - 1])
  }

  // ----- listing a table -----

  predicate Below(m: Table, n: nat) {
    forall id | id in m :: id < n && m[id].id == id
  }

  lemma {:induction false} ListingIsOrdered(m: Table, n: nat)
    requires forall id | id in m :: m[id].id == id
    ensures Ordered(Listing(m, n))
    ensures forall r | r in Listing(m, n) :: 0 <= r.id < n && r.id in m && m[r.id] == r
    ensures forall id | id in m && id < n :: m[id] in Listing(m, n)
  {
    if n == 0 {
    } else {
      ListingIsOrdered(m, n - 1);
    }
  }

  lemma {:induction false} ListingAgrees(m: Table, k: Table, n: nat)
    requires forall id | id < n :: (id in m <==> id in k) && (id in m ==> m[id] == k[id])
    ensures Listing(m, n) == Listing(k, n)
  {
    if n == 0 {
    } else {
      ListingAgrees(m, k, n - 1);
    }
  }

  /** A table whose ids all come after another's lists after it. */
  lemma {:induction false} ListingAppends(m: Table, k: Table, n: nat)
    requires forall i, j | i in m && j in k :: i < j
    ensures Listing(m + k, n) == Listing(m, n) + Listing(k, n)
  {
    if n == 0 {
    } else {
      ListingAppends(m, k, n - 1);
      if n - 1 in m {
        NothingBelow(k, n);
      }
    }
  }

  lemma {:induction false} NothingBelow(k: Table, n: nat)
    requires forall j | j in k :: n <= j
    ensures Listing(k, n) == []
  {
    if n == 0 {
    } else {
      NothingBelow(k, n - 1);
    }
  }

  // ----- the invariant -----

  ghost predicate Inv(sha: Sha, s: State) {
    && Below(s.committed, s.nextId)
    && Accepted(sha, s.Log(), ROOT)
    && (forall t: nat | s.holder != Some(t) :: s.Of(t) == FRESH)
    && (s.holder.Some? ==> HolderInv(sha, s, s.holder.value))
  }

  ghost predicate HolderInv(sha: Sha, s: State, t: nat) {
    var seen := Listing(s.Visible(t), s.nextId);
    && Below(s.Of(t).pending, s.nextId)
    && (forall i, j | i in s.committed && j in s.Of(t).pending :: i < j)
    && Accepted(sha, seen, ROOT)
    && (s.Of(t).phase.HasRead? ==> s.Of(t).phase.prev == LastHash(seen))
  }

  lemma AppendKeepsAccepted(sha: Sha, rows: seq<Row>, id: int, c: Content)
    requires Accepted(sha, rows, ROOT)
    ensures Accepted(sha, rows + [NewRow(sha, LastHash(rows), id, c)], ROOT)
  {
    var more := rows + [NewRow(sha, LastHash(rows), id, c)];
    forall i: nat | i < |more| ensures Good(sha, more, ROOT, i) {
      if i < |rows| {
        assert Good(sha, rows, ROOT, i);
      }
    }
  }

  /** The new row comes last in what its transaction sees. */
  lemma InsertIsListedLast(m: Table, n: nat, row: Row)
    requires forall id | id in m :: id < n
    ensures Listing(m[n := row], n + 1) == Listing(m, n) + [row]
  {
    ListingAgrees(m[n := row], m, n);
  }

  lemma InsertKeepsInv(sha: Sha, s: State, t: nat, c: Content)
    requires Inv(sha, s) && Next(sha, true, s, Insert(t, c)).Some?
    ensures Inv(sha, Next(sha, true, s, Insert(t, c)).value)
  {
    hide Accepted, NewRow, Listing, LastHash;
    var s' := Next(sha, true, s, Insert(t, c)).value;
    var row := NewRow(sha, s.Of(t).phase.prev, s.nextId, c);
    NewRowCarriesId(sha, s.Of(t).phase.prev, s.nextId, c);
    assert s.holder == Some(t);
    assert s'.Visible(t) == s.Visible(t)[s.nextId := row];
    InsertIsListedLast(s.Visible(t), s.nextId, row);
    AppendKeepsAccepted(sha, Listing(s.Visible(t), s.nextId), s.nextId, c);
    LogGrowsNotYet(s.committed, s.nextId);
  }

  lemma NewRowCarriesId(sha: Sha, prev: string, id: int, c: Content)
    ensures NewRow(sha, prev, id, c).id == id
  {
  }

  lemma LogGrowsNotYet(m: Table, n: nat)
    requires n !in m
    ensures Listing(m, n + 1) == Listing(m, n)
  {
  }

  lemma NextKeepsInv(sha: Sha, s: State, a: Action)
    requires Inv(sha, s) && Next(sha, true, s, a).Some?
    ensures Inv(sha, Next(sha, true, s, a).value)
  {
    hide Accepted, Below, Listing, LastHash;
    match a
    case Insert(t, c) => InsertKeepsInv(sha, s, t, c);
    case Lock(t) => LockKeepsInv(sha, s, t);
    case ReadLast(t) => assert Next(sha, true, s, a).value.Visible(t) == s.Visible(t);
    case Commit(t) => CommitKeepsInv(sha, s, t);
    case Rollback(t) =>
  }

  lemma LockKeepsInv(sha: Sha, s: State, t: nat)
    requires Inv(sha, s) && Next(sha, true, s, Lock(t)).Some?
    ensures Inv(sha, Next(sha, true, s, Lock(t)).value)
  {
    hide Accepted, Listing;
    var s' := Next(sha, true, s, Lock(t)).value;
    assert s.committed + map[] == s.committed;
    assert s'.Visible(t) == s.Visible(t);
  }

  lemma CommitKeepsInv(sha: Sha, s: State, t: nat)
    requires Inv(sha, s) && Next(sha, true, s, Commit(t)).Some?
    ensures Inv(sha, Next(sha, true, s, Commit(t)).value)
  {
    hide Accepted, Listing;
    assert s.committed + map[] == s.committed;
  }

  lemma {:induction false} RunKeepsInv(sha: Sha, actions: seq<Action>)
    requires Run(sha, true, actions).Some?
    ensures Inv(sha, Run(sha, true, actions).value)
  {
    if actions != [] {
      RunKeepsInv(sha, actions[..|actions| - 1]);
      NextKeepsInv(sha, Run(sha, true, actions[..|actions| - 1]).value, actions[|actions| - 1]);
    } else {
      assert START.Log() == [];
    }
  }

  /** The main theorem: however the steps of however many transactions interleave, the committed
      rows in id order are a chain the full walk accepts. */
  lemma {:induction false} EveryInterleavingIsAccepted(sha: Sha, actions: seq<Action>)
    requires Run(sha, true, actions).Some?
    ensures var log := Run(sha, true, actions).value.Log();
            Ordered(log) && FullVerdict(sha, log).ok && FullVerdict(sha, log).checked == |log|
  {
    RunKeepsInv(sha, actions);
    var s := Run(sha, true, actions).value;
    ListingIsOrdered(s.committed, s.nextId);
  }

  /** What one step does to the committed log: a commit appends exactly the transaction's own rows,
      in order; nothing else touches it. So the log is append-only, and a rollback leaves only a
      gap in the ids. */
  lemma StepsOnlyAppend(sha: Sha, s: State, a: Action)
    requires Inv(sha, s) && Next(sha, true, s, a).Some?
    ensures Next(sha, true, s, a).value.Log()
         == s.Log() + (if a.Commit? then Listing(s.Of(a.t).pending, s.nextId) else [])
  {
    var s' := Next(sha, true, s, a).value;
    match a
    case Insert(t, _) =>
      assert s.nextId !in s.committed;
    case Commit(t) =>
      ListingAppends(s.committed, s.Of(t).pending, s.nextId);
    case _ =>
  }

  /** The rows a transaction has waiting are its own entries in call order. */
  lemma InsertQueuesTheEntry(sha: Sha, s: State, t: nat, c: Content)
    requires Inv(sha, s) && Next(sha, true, s, Insert(t, c)).Some?
    ensures var s' := Next(sha, true, s, Insert(t, c)).value;
            var before, after := Listing(s.Of(t).pending, s.nextId), Listing(s'.Of(t).pending, s'.nextId);
            |after| == |before| + 1 && after[..|before|] == before && after[|before|].content == c
  {
    var s' := Next(sha, true, s, Insert(t, c)).value;
    ListingAgrees(s'.Of(t).pending, s.Of(t).pending, s.nextId);
  }

  // ----- what a run comes to -----

  /** The log as its readers should see it, and what each transaction has still to publish. */
  datatype Story = Story(log: seq<Content>, queues: map<nat, seq<Content>>) {
    function Queue(t: nat): seq<Content> {
      if t in queues then queues[t] else []
    }
  }

  /** The run told without ids, hashes, locks or tables: an entry waits with its transaction, a commit
      publishes what waits, in order, and a rollback forgets it. */
  function Told(actions: seq<Action>): Story {
    if actions == [] then Story([], map[])
    else
      var before := Told(actions[..|actions| - 1]);
      match actions[|actions| - 1]
      case Insert(t, c) => before.(queues := before.queues[t := before.Queue(t) + [c]])
      case Commit(t) => Story(before.log + before.Queue(t), before.queues[t := []])
      case Rollback(t) => before.(queues := before.queues[t := []])
      case _ => before
  }

  lemma {:induction false} NothingListed(n: nat)
    ensures Listing(map[], n) == []
  {
    if n == 0 {
    } else {
      NothingListed(n - 1);
    }
  }

  function Waiting(s: State, t: nat): seq<Row> {
    Listing(s.Of(t).pending, s.nextId)
  }

  /** A step changes what waits with its own transaction, and with no other. */
  lemma StepMovesQueue(sha: Sha, s: State, a: Action, t: nat)
    requires Inv(sha, s) && Next(sha, true, s, a).Some?
    ensures var s' := Next(sha, true, s, a).value;
            Contents(Waiting(s', t)) ==
            if t != a.t then Contents(Waiting(s, t))
            else
              match a
              case Insert(_, c) => Contents(Waiting(s, t)) + [c]
              case Commit(_) => []
              case Rollback(_) => []
              case _ => Contents(Waiting(s, t))
  {
    if a.Insert? {
      InsertMovesQueue(sha, s, a.t, a.c, t);
    } else {
      NothingListed(s.nextId);
      hide Inv, LastHash, Listing;
    }
  }

  lemma InsertMovesQueue(sha: Sha, s: State, u: nat, c: Content, t: nat)
    requires Inv(sha, s) && Next(sha, true, s, Insert(u, c)).Some?
    ensures Contents(Waiting(Next(sha, true, s, Insert(u, c)).value, t))
         == Contents(Waiting(s, t)) + if t == u then [c] else []
  {
    var s' := Next(sha, true, s, Insert(u, c)).value;
    if t == u {
      InsertQueuesTheEntry(sha, s, u, c);
      hide Inv, Next, Listing;
    } else {
      assert s.Of(t) == FRESH && s'.Of(t) == FRESH;
      hide Inv, Next, Listing;
      NothingListed(s.nextId);
      NothingListed(s'.nextId);
    }
  }

  /** What the protocol is for: after any interleaving, the committed log reads as the entries of the
      transactions that committed, in the order they committed, each one's in the order it logged them;
      nothing of a transaction that rolled back or is still open is in it, and nothing is lost. */
  lemma {:induction false} LogTellsTheStory(sha: Sha, actions: seq<Action>)
    requires Run(sha, true, actions).Some?
    ensures var s := Run(sha, true, actions).value;
            && Contents(s.Log()) == Told(actions).log
            && forall t: nat :: Contents(Waiting(s, t)) == Told(actions).Queue(t)
  {
    if actions == [] {
      NothingListed(1);
    } else {
      var earlier, a := actions[..|actions| - 1], actions[|actions| - 1];
      LogTellsTheStory(sha, earlier);
      RunKeepsInv(sha, earlier);
      var s, s' := Run(sha, true, earlier).value, Run(sha, true, actions).value;
      hide Inv, Next, Listing, Waiting;
      LogMoves(sha, s, a);
      forall t: nat ensures Contents(Waiting(s', t)) == Told(actions).Queue(t) {
        StepMovesQueue(sha, s, a, t);
      }
    }
  }

  lemma LogMoves(sha: Sha, s: State, a: Action)
    requires Inv(sha, s) && Next(sha, true, s, a).Some?
    ensures Contents(Next(sha, true, s, a).value.Log())
         == Contents(s.Log()) + if a.Commit? then Contents(Waiting(s, a.t)) else []
  {
    StepsOnlyAppend(sha, s, a);
    hide Inv, Next, Listing;
  }

  lemma OneMore(sha: Sha, actions: seq<Action>, s: State, a: Action) returns (s': State)
    requires Run(sha, false, actions) == Some(s) && Next(sha, false, s, a).Some?
    ensures Run(sha, false, actions + [a]) == Some(s') == Next(sha, false, s, a)
  {
    s' := Next(sha, false, s, a).value;
    assert (actions + [a])[..|actions|] == actions;
  }

  /** With nobody waiting for the lock, both transactions read the hash of the empty log. */
  lemma BothRead(sha: Sha) returns (actions: seq<Action>, s: State)
    ensures Run(sha, false, actions) == Some(s) && s.committed == map[] && s.nextId == 1
    ensures s.Of(1) == s.Of(2) == Txn(HasRead(GENESIS), map[])
  {
    var s1 := OneMore(sha, [], START, Lock(1));
    var s2 := OneMore(sha, [] + [Lock(1)], s1, ReadLast(1));
    var s3 := OneMore(sha, [] + [Lock(1)] + [ReadLast(1)], s2, Lock(2));
    s := OneMore(sha, [] + [Lock(1)] + [ReadLast(1)] + [Lock(2)], s3, ReadLast(2));
    actions := [] + [Lock(1)] + [ReadLast(1)] + [Lock(2)] + [ReadLast(2)];
  }

  /** Without the lock the same steps can fork the chain: two transactions read the same last hash,
      both commit, and the full walk stops at the second row. */
  lemma LockIsNeeded(sha: Sha, c: Content, d: Content) returns (actions: seq<Action>)
    requires CollisionFree(sha)
    ensures Run(sha, false, actions).Some?
    ensures FullVerdict(sha, Run(sha, false, actions).value.Log()).brokenAt == Some(2)
  {
    hide Canonical, Listing;
    var s;
    actions, s := BothRead(sha);
    var first, second := NewRow(sha, GENESIS, 1, c), NewRow(sha, GENESIS, 2, d);
    s := OneMore(sha, actions, s, Insert(1, c));
    s := OneMore(sha, actions + [Insert(1, c)], s, Insert(2, d));
    s := OneMore(sha, actions + [Insert(1, c)] + [Insert(2, d)], s, Commit(1));
    s := OneMore(sha, actions + [Insert(1, c)] + [Insert(2, d)] + [Commit(1)], s, Commit(2));
    actions := actions + [Insert(1, c)] + [Insert(2, d)] + [Commit(1)] + [Commit(2)];
    ForkIsRejected(sha, s, first, second);
  }

  lemma ForkIsRejected(sha: Sha, s: State, first: Row, second: Row)
    requires CollisionFree(sha) && Intact(sha, first) && first.prevHash == second.prevHash == GENESIS
    requires second.id == 2 && s.nextId == 3
    requires s.committed.Keys == {1, 2} && s.committed[1] == first && s.committed[2] == second
    ensures FullVerdict(sha, s.Log()).brokenAt == Some(2)
  {
    assert 0 !in s.committed && 1 in s.committed && 2 in s.committed;
    assert Listing(s.committed, 0) == [];
    assert Listing(s.committed, 1) == [];
    assert Listing(s.committed, 2) == Listing(s.committed, 1) + [first];
    var log := s.Log();
    assert log == [first, second];
    assert Good(sha, log, ROOT, 0) && !Linked(log, ROOT, 1);
    FirstBadIs(sha, log, ROOT, 1);
  }
}
