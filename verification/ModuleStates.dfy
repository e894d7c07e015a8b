/** The switches of the optional modules: a table read through a snapshot that a session takes once and
    drops whenever a flush writes to the table. */
module ModuleStates {
  import opened Wrappers
  import opened OrmSession

  /** Module key to its default. */
  type Modules = map<string, bool>

  datatype State = State(committed: map<string, bool>, session: Session<bool>, snapshot: Option<map<string, bool>>)

  function Start(rows: map<string, bool>): State {
    State(rows, Session(rows, map[], map[]), None)
  }

  datatype Op = Read | Write(key: string, enabled: bool) | Flush | Commit | Rollback

  /** The rows as the session reads them: the snapshot, taken now if there is none. */
  function Stored(s: State): map<string, bool> {
    s.snapshot.GetOr(s.session.Seen())
  }

  /** A flush with anything to write drops the snapshot. */
  function Flushed(s: State): State {
    if s.session.Clean() then s else s.(session := s.session.Flush(), snapshot := None)
  }

  function Next(s: State, op: Op): State {
    match op
    case Read => s.(snapshot := Some(Stored(s)))
    case Write(key, enabled) => s.(session := s.session.Put(key, enabled))
    case Flush => Flushed(s)
    case Commit => var f := Flushed(s); f.(committed := f.session.rows)
    case Rollback => s.(session := Session(s.committed, map[], map[]))
  }

  function Run(s: State, run: seq<Op>): State {
    if run == [] then s else Next(Run(s, run[..|run| - 1]), run[|run| - 1])
  }

  /** A switch as stored, with the default filled in. */
  function Switch(modules: Modules, rows: map<string, bool>, key: string): Result<bool, string> {
    if key !in modules then Err(key)
    else Ok(if key in rows then rows[key] else modules[key])
  }

  /** What stored_module_state answers, and what a fresh read of the table would. */
  ghost predicate Fresh(modules: Modules, s: State) {
    forall key :: Switch(modules, Stored(s), key) == Switch(modules, s.session.rows, key)
  }

  ghost predicate Inv(s: State) {
    s.session.Clean() && s.snapshot.Some? ==> s.snapshot.value == s.session.rows
  }

  lemma CleanSeesRows(s: Session<bool>)
    requires s.Clean()
    ensures s.Seen() == s.rows
  {
  }

  lemma PutIsNotClean(s: Session<bool>, key: string, enabled: bool)
    ensures !s.Put(key, enabled).Clean()
  {
    var t := s.Put(key, enabled);
    assert key in t.changed || key in t.added;
  }

  lemma NextKeepsInv(s: State, op: Op)
    requires Inv(s)
    requires op.Rollback? ==> s.snapshot.Some? ==> s.snapshot.value == s.committed
    ensures Inv(Next(s, op))
  {
  }

  /** With no rollback, in every state of every run where no write is pending, the snapshot answers
      every key as a fresh read of the table would. */
  lemma {:induction false} SnapshotIsFresh(modules: Modules, rows: map<string, bool>, run: seq<Op>)
    requires forall i :: 0 <= i < |run| ==> !run[i].Rollback?
    ensures var s := Run(Start(rows), run); Inv(s) && (s.session.Clean() ==> Fresh(modules, s))
  {
    if run == [] {
    } else {
      var earlier := run[..|run| - 1];
      SnapshotIsFresh(modules, rows, earlier);
      NextKeepsInv(Run(Start(rows), earlier), run[|run| - 1]);
    }
    var s := Run(Start(rows), run);
    if s.session.Clean() {
      CleanSeesRows(s.session);
    }
  }

  function RowAt(rows: map<string, bool>, key: string): Option<bool> {
    if key in rows then Some(rows[key]) else None
  }

  /** Wherever the state keeps rows, this key's is the one given, or none. */
  ghost predicate Holds(s: State, key: string, row: Option<bool>) {
    && RowAt(s.committed, key) == row && RowAt(s.session.rows, key) == row
    && key !in s.session.changed && key !in s.session.added
    && (s.snapshot.Some? ==> RowAt(s.snapshot.value, key) == row)
  }

  lemma StepHolds(s: State, op: Op, key: string, row: Option<bool>)
    requires Holds(s, key, row) && (op.Write? ==> op.key != key)
    ensures Holds(Next(s, op), key, row)
  {
  }

  /** A switch that a run never sets answers, in every state of it, as its row did at the start; one that
      has no row answers with its module's own default. */
  lemma {:induction false} NeverSetKeepsItsDefault(modules: Modules, rows: map<string, bool>, run: seq<Op>, key: string)
    requires key in modules && forall i :: 0 <= i < |run| && run[i].Write? ==> run[i].key != key
    ensures Holds(Run(Start(rows), run), key, RowAt(rows, key))
    ensures Switch(modules, Stored(Run(Start(rows), run)), key) == Ok(if key in rows then rows[key] else modules[key])
  {
    if run == [] {
    } else {
      NeverSetKeepsItsDefault(modules, rows, run[..|run| - 1], key);
      StepHolds(Run(Start(rows), run[..|run| - 1]), run[|run| - 1], key, RowAt(rows, key));
      hide Next;
    }
  }

  // ----- any run, rollbacks included -----

  /** The state before step i of a run. */
  function At(rows: map<string, bool>, run: seq<Op>, i: nat): State
    requires i <= |run|
  {
    Run(Start(rows), run[..i])
  }

  predicate Drops(s: State, op: Op) {
    (op.Flush? || op.Commit?) && !s.session.Clean()
  }

  /** Step i is the read that took the snapshot now held: nothing has dropped it since. */
  ghost predicate Took(rows: map<string, bool>, run: seq<Op>, i: nat) {
    && i < |run| && run[i].Read? && At(rows, run, i).snapshot.None?
    && forall j :: i < j < |run| ==> !Drops(At(rows, run, j), run[j])
  }

  /** Two tables set every module alike. */
  ghost predicate Agree(modules: Modules, a: map<string, bool>, b: map<string, bool>) {
    forall key | key in modules :: Switch(modules, a, key) == Switch(modules, b, key)
  }

  lemma {:induction false} TookOneMore(rows: map<string, bool>, run: seq<Op>, op: Op, i: nat)
    ensures Took(rows, run + [op], i) <==>
            if i < |run| then Took(rows, run, i) && !Drops(Run(Start(rows), run), op)
            else i == |run| && op.Read? && Run(Start(rows), run).snapshot.None?
  {
    var more := run + [op];
    AtOneMore(rows, run, op);
    hide At, Run, Drops;
    assert more[|run|] == op && forall j :: 0 <= j < |run| ==> more[j] == run[j];
  }

  lemma {:induction false} AtOneMore(rows: map<string, bool>, run: seq<Op>, op: Op)
    ensures At(rows, run + [op], |run|) == Run(Start(rows), run)
    ensures forall j: nat :: j < |run| ==> At(rows, run + [op], j) == At(rows, run, j)
  {
    hide Run;
    var more := run + [op];
    assert more[..|run|] == run;
    forall j: nat | j < |run| ensures At(rows, more, j) == At(rows, run, j) {
      assert more[..j] == run[..j];
    }
  }

  /** A snapshot is held exactly when some read took it, and it is what that read saw. */
  lemma {:induction false} HeldSnapshot(rows: map<string, bool>, run: seq<Op>)
    ensures var s := Run(Start(rows), run);
            && (s.snapshot.Some? <==> exists i: nat :: Took(rows, run, i))
            && forall i: nat :: Took(rows, run, i) ==> s.snapshot == Some(At(rows, run, i).session.Seen())
  {
    if run == [] {
    } else {
      var n := |run| - 1;
      var earlier, op := run[..n], run[n];
      assert run == earlier + [op];
      HeldSnapshot(rows, earlier);
      hide Took, Drops;
      var s := Run(Start(rows), earlier);
      forall i: nat ensures Took(rows, run, i) <==>
            if i < n then Took(rows, earlier, i) && !Drops(s, op) else i == n && op.Read? && s.snapshot.None?
        ensures i < n ==> At(rows, run, i) == At(rows, earlier, i)
      {
        TookOneMore(rows, earlier, op, i);
        assert i < n ==> run[..i] == earlier[..i];
      }
      NextSnapshot(s, op);
      if s.snapshot.Some? {
        var i: nat :| Took(rows, earlier, i);
        TookBefore(rows, earlier, i);
        assert Took(rows, run, i) <==> !Drops(s, op);
      }
      assert op.Read? && s.snapshot.None? ==> Took(rows, run, n);
    }
  }

  lemma TookBefore(rows: map<string, bool>, run: seq<Op>, i: nat)
    requires Took(rows, run, i)
    ensures i < |run|
  {
  }

  lemma NextSnapshot(s: State, op: Op)
    ensures Next(s, op).snapshot ==
            if Drops(s, op) then None else if op.Read? then Some(Stored(s)) else s.snapshot
  {
  }

  /** The whole truth about the snapshot. In every state of every run where no write is pending, it
      answers as a fresh read would exactly when no read holds it, or the rows that read saw set
      every module as the table does now. */
  lemma {:induction false} FreshExactlyWhen(modules: Modules, rows: map<string, bool>, run: seq<Op>)
    requires Run(Start(rows), run).session.Clean()
    ensures var s := Run(Start(rows), run);
            Fresh(modules, s) <==>
            forall i: nat :: Took(rows, run, i) ==> Agree(modules, At(rows, run, i).session.Seen(), s.session.rows)
  {
    var s := Run(Start(rows), run);
    HeldSnapshot(rows, run);
    CleanSeesRows(s.session);
    FreshMeansAgree(modules, s);
  }

  lemma FreshMeansAgree(modules: Modules, s: State)
    ensures Fresh(modules, s) <==> Agree(modules, Stored(s), s.session.rows)
  {
  }

  /** So a rollback, which restores the committed rows, leaves fresh answers exactly when no snapshot
      is held or what its read saw agrees with them. */
  lemma {:induction false} RollbackIsFreshExactlyWhen(modules: Modules, rows: map<string, bool>, run: seq<Op>)
    ensures Fresh(modules, Run(Start(rows), run + [Rollback])) <==>
            forall i: nat :: Took(rows, run, i) ==>
              Agree(modules, At(rows, run, i).session.Seen(), Run(Start(rows), run).committed)
  {
    var s, more := Run(Start(rows), run), run + [Rollback];
    assert more[..|run|] == run;
    FreshExactlyWhen(modules, rows, more);
    forall i: nat ensures Took(rows, more, i) <==> Took(rows, run, i)
                  ensures i < |run| ==> At(rows, more, i) == At(rows, run, i) {
      TookOneMore(rows, run, Rollback, i);
      assert i < |run| ==> more[..i] == run[..i];
    }
  }

  // ----- when a rollback is safe, by looking at the transaction -----

  /** A transaction starts: nothing is pending, and a snapshot, if any, shows the committed rows. */
  ghost predicate Untouched(s: State) {
    s.session == Session(s.committed, map[], map[]) && Inv(s)
  }

  predicate Inside(run: seq<Op>) {
    forall i :: 0 <= i < |run| ==> !run[i].Commit? && !run[i].Rollback?
  }

  predicate Wrote(run: seq<Op>) {
    exists i :: 0 <= i < |run| && run[i].Write?
  }

  /** A write waits for the next flush. */
  predicate Waiting(run: seq<Op>) {
    run != [] && (run[|run| - 1].Write? || (!run[|run| - 1].Flush? && Waiting(run[..|run| - 1])))
  }

  /** Some read follows the first write, and no flush that had something to write follows that read. */
  predicate LateRead(run: seq<Op>) {
    if run == [] then false
    else
      var earlier, op := run[..|run| - 1], run[|run| - 1];
      if op.Flush? && Waiting(earlier) then false
      else LateRead(earlier) || (op.Read? && Wrote(earlier))
  }

  lemma {:induction false} InsideTransaction(s: State, run: seq<Op>)
    requires Untouched(s) && Inside(run)
    ensures var t := Run(s, run);
            && t.committed == s.committed && Inv(t)
            && (!Wrote(run) ==> t.session == s.session) && (Waiting(run) ==> !t.session.Clean())
            && (t.snapshot.Some? && !LateRead(run) ==> t.snapshot.value == s.committed)
  {
    if run == [] {
    } else {
      var n := |run| - 1;
      var earlier, op := run[..n], run[n];
      InsideTransaction(s, earlier);
      var t := Run(s, earlier);
      NextKeepsInv(t, op);
      CleanSeesRows(s.session);
      if op.Write? {
        PutIsNotClean(t.session, op.key, op.enabled);
      }
      assert Wrote(earlier) ==> Wrote(run);
      assert op.Write? ==> Wrote(run);
    }
  }

  /** Ending a transaction. A commit always leaves fresh answers, and a rollback does unless a late read
      took a snapshot: a transaction that does not read switches after writing one is always safe. */
  lemma {:induction false} EndOfTransaction(modules: Modules, s: State, run: seq<Op>)
    requires Untouched(s) && Inside(run)
    ensures var done := Next(Run(s, run), Commit); Untouched(done) && Fresh(modules, done)
    ensures !LateRead(run) ==>
              var undone := Next(Run(s, run), Rollback); Untouched(undone) && Fresh(modules, undone)
  {
    InsideTransaction(s, run);
    var t := Run(s, run);
    CleanSeesRows(Next(t, Commit).session);
    CleanSeesRows(Next(t, Rollback).session);
    if t.session.Clean() {
      CleanHasNothing(t.session);
    }
  }

  lemma CleanHasNothing(s: Session<bool>)
    requires s.Clean()
    ensures s == Session(s.rows, map[], map[])
  {
  }

  lemma {:induction false} RunOfFour(s: State, a: Op, b: Op, c: Op, d: Op)
    ensures Run(s, [a, b, c]) == Next(Next(Next(s, a), b), c)
    ensures Run(s, [a, b, c, d]) == Next(Next(Next(Next(s, a), b), c), d)
  {
    hide Next;
    assert [a, b, c, d][..3] == [a, b, c] && [a, b, c][..2] == [a, b] && [a, b][..1] == [a] && [a][..0] == [];
    assert Run(s, [a]) == Next(s, a);
    assert Run(s, [a, b]) == Next(Next(s, a), b);
  }

  /** With a late read it depends on the values. Written, read before any flush and rolled back, the
      snapshot shows the pending change of a stored switch, but not a switch stored for the first time. */
  lemma PendingReadLeavesStale(modules: Modules, rows: map<string, bool>, key: string, enabled: bool)
    requires key in modules
    ensures LateRead([Write(key, enabled), Read])
    ensures Fresh(modules, Run(Start(rows), [Write(key, enabled), Read, Rollback])) <==>
            key !in rows || rows[key] == enabled
  {
    var w, r := Write(key, enabled), Op.Read;
    assert LateRead([w, r]) by {
      assert [w, r][..1] == [w] && [w][0].Write?;
    }
    RunOfFour(Start(rows), w, r, Rollback, Read);
    var end := Next(Next(Next(Start(rows), w), r), Rollback);
    assert Next(Start(rows), w).session.Seen() == if key in rows then rows[key := enabled] else rows;
    FreshMeansAgree(modules, end);
    if key in rows {
      assert Switch(modules, Stored(end), key) == Ok(enabled);
    }
  }

  /** Written, flushed, read and rolled back, it shows the value that was undone in either case. */
  lemma FlushedReadLeavesStale(modules: Modules, rows: map<string, bool>, key: string, enabled: bool)
    requires key in modules
    ensures Fresh(modules, Run(Start(rows), [Write(key, enabled), Flush, Read, Rollback])) <==>
            Switch(modules, rows, key) == Ok(enabled)
  {
    var w, f, r, start := Write(key, enabled), Op.Flush, Op.Read, Start(rows);
    PutIsNotClean(start.session, key, enabled);
    RunOfFour(start, w, f, r, Rollback);
    var flushed := Next(Next(start, w), f);
    assert flushed.session.rows == rows[key := enabled];
    CleanSeesRows(flushed.session);
    var end := Next(Next(flushed, r), Rollback);
    FreshMeansAgree(modules, end);
    assert Switch(modules, Stored(end), key) == Ok(enabled);
  }

  // ----- what the writes come to -----

  /** The table as its users think of it: what is committed, and what this transaction has made of it. */
  datatype Table = Table(committed: map<string, bool>, current: map<string, bool>)

  function TableNext(t: Table, op: Op): Table {
    match op
    case Write(key, enabled) => t.(current := t.current[key := enabled])
    case Commit => t.(committed := t.current)
    case Rollback => t.(current := t.committed)
    case _ => t
  }

  function TableRun(t: Table, run: seq<Op>): Table {
    if run == [] then t else TableNext(TableRun(t, run[..|run| - 1]), run[|run| - 1])
  }

  /** Changed and added rows, flushes and snapshots come to a plain table: over any run, what is
      committed is the same, and what is pending, once flushed, is what was last written. */
  lemma {:induction false} SessionIsATable(rows: map<string, bool>, run: seq<Op>)
    ensures var s, t := Run(Start(rows), run), TableRun(Table(rows, rows), run);
            s.session.Valid() && s.committed == t.committed && s.session.Flush().rows == t.current
  {
    if run == [] {
    } else {
      var earlier, op := run[..|run| - 1], run[|run| - 1];
      SessionIsATable(rows, earlier);
      SessionStep(Run(Start(rows), earlier), TableRun(Table(rows, rows), earlier), op);
    }
  }

  lemma SessionStep(s: State, t: Table, op: Op)
    requires s.session.Valid() && s.committed == t.committed && s.session.Flush().rows == t.current
    ensures var s', t' := Next(s, op), TableNext(t, op);
            s'.session.Valid() && s'.committed == t'.committed && s'.session.Flush().rows == t'.current
  {
    match op {
      case Write(key, enabled) => PutThenFlush(s.session, key, enabled);
      case Rollback => NothingToFlush(s.committed);
      case Read =>
      case _ =>
        NothingToFlush(s.session.Flush().rows);
        if s.session.Clean() {
          CleanHasNothing(s.session);
        }
    }
  }

  lemma NothingToFlush(rows: map<string, bool>)
    ensures Session(rows, map[], map[]).Valid() && Session(rows, map[], map[]).Flush().rows == rows
  {
  }

  class ModuleSession {
    const modules: Modules
    var committed: map<string, bool>
    var session: Session<bool>
    var snapshot: Option<map<string, bool>>

    function Now(): State
      reads this
    {
      State(committed, session, snapshot)
    }

    constructor (modules: Modules, rows: map<string, bool>)
      ensures this.modules == modules && Now() == Start(rows) && session.Valid()
    {
      this.modules, committed, session, snapshot := modules, rows, Session(rows, map[], map[]), None;
    }

    method StoredStates() returns (states: map<string, bool>)
      modifies this`snapshot
      ensures states == Stored(old(Now())) && Now() == Next(old(Now()), Read)
    {
      if snapshot.None? {
        snapshot := Some(session.Seen());
      }
      states := snapshot.value;
    }

    method StoredModuleState(key: string) returns (r: Result<bool, string>)
      modifies this`snapshot
      ensures key !in modules ==> r == Err(key)
      ensures key in modules ==> var states := Stored(old(Now()));
                                 r == Ok(if key in states then states[key] else modules[key])
      ensures Inv(old(Now())) && old(session).Clean() ==> r == Switch(modules, session.rows, key)
      ensures Now() == (if key in modules then Next(old(Now()), Read) else old(Now()))
    {
      if session.Clean() {
        CleanSeesRows(session);
      }
      if key !in modules {
        return Err(key);
      }
      var states := StoredStates();
      r := Ok(if key in states then states[key] else modules[key]);
    }

    /** Whatever else is pending: once flushed, the switch has this value and no other has changed. */
    method SetModule(key: string, enabled: bool)
      requires session.Valid()
      modifies this`session
      ensures session.Valid() && session.Flush().rows == old(session).Flush().rows[key := enabled]
      ensures Now() == Next(old(Now()), Write(key, enabled))
    {
      PutThenFlush(session, key, enabled);
      if key in session.rows {
        session := session.(changed := session.changed[key := enabled]);
      } else {
        session := session.(added := session.added[key := enabled]);
      }
    }

    method FlushSession()
      modifies this`session, this`snapshot
      ensures Now() == Next(old(Now()), Flush)
    {
      var touched := session.changed.Keys + session.added.Keys;
      assert session.Clean() <==> touched == {};
      if touched != {} {
        session := session.Flush();
        snapshot := None;
      }
    }
  }
}
