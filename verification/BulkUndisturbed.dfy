/** Bulk creation with nobody else at work: what was previewed is what happens, and doing it again
    does nothing. */
module BulkUndisturbed {
  import opened Wrappers
  import opened EvaluationDb
  import opened BulkEvaluation

  function Nobody(k: nat, db: Db): Db {
    db
  }

  /** No stored code is one the sequence has still to give. */
  ghost predicate CodesComeFromSequence(db: Db) {
    forall id, n: nat | id in db.records && n >= db.nextCode :: db.records[id].code != Code(n)
  }

  ghost predicate Ready(db: Db, people: seq<int>) {
    && Valid(db) && CodesComeFromSequence(db)
    && (forall i :: 0 <= i < |people| ==> people[i] in db.people)
    && (forall i, j :: 0 <= i < j < |people| ==> people[i] != people[j])
  }

  ghost function RunAlone(stamps: Stamps, db: Db, people: seq<int>): Progress
    requires Ready(db, people)
  {
    HandleAll(stamps, db.access, db, PlanAll(db, people), Nobody)
  }

  /** The person gets a record: planned so, and their access row meets its own checks. */
  ghost predicate Wins(db: Db, person: int)
    requires person in db.people
  {
    PlanOne(db, person).outcome == Created && ChecksHold(db.access[person])
  }

  ghost function ExpectedOutcome(db: Db, person: int): Outcome
    requires person in db.people
  {
    var planned := PlanOne(db, person).outcome;
    if planned == Created && !Wins(db, person) then BlockedConflict else planned
  }

  // ----- the state after some of the people -----

  ghost predicate SameBut(db: Db, now: Db, people: seq<int>, mine: set<nat>)
    requires forall i :: 0 <= i < |people| ==> people[i] in db.people
  {
    && now.people == db.people && now.users == db.users && now.access == db.access
    && now.nextId >= db.nextId && now.nextCode >= db.nextCode
    && now.records.Keys == db.records.Keys + mine
    && (forall id | id in db.records :: id !in mine && now.records[id] == db.records[id])
    && (forall id | id in mine :: id < now.nextId && Accounted(db, people, now.nextCode, now.records[id]))
  }

  /** A row the run inserted: for one of the people who win, with a code drawn since. */
  ghost predicate Accounted(db: Db, people: seq<int>, nextCode: nat, r: Record)
    requires forall i :: 0 <= i < |people| ==> people[i] in db.people
  {
    && (exists n: nat :: db.nextCode <= n < nextCode && r.code == Code(n))
    && (exists i :: 0 <= i < |people| && people[i] == r.subject && Wins(db, people[i]))
  }

  lemma AccountedStays(db: Db, people: seq<int>, person: int, nextCode: nat, later: nat, r: Record)
    requires (forall i :: 0 <= i < |people| ==> people[i] in db.people) && person in db.people
    requires Accounted(db, people, nextCode, r) && nextCode <= later
    ensures Accounted(db, people + [person], later, r)
  {
    var i :| 0 <= i < |people| && people[i] == r.subject && Wins(db, people[i]);
    assert (people + [person])[i] == people[i];
  }

  ghost predicate Kept(stamps: Stamps, db: Db, person: int, got: Plan, now: Db)
    requires person in db.people
  {
    && got.outcome == ExpectedOutcome(db, person)
    && (Wins(db, person) ==>
          && got.evaluationId.Some? && got.evaluationId.value in now.records
          && var r := now.records[got.evaluationId.value];
             && StartsAs(r, stamps, person, db.access[person]) && got.evaluationCode == Some(r.code)
             && got.person == person && got.assignee == Some(Scorer(r.seats))
             && (got.managerPath <==> r.seats.supervisor == None))
    && (!Wins(db, person) ==> got == PlanOne(db, person).(outcome := ExpectedOutcome(db, person)))
  }

  /** The one insertion the database sees for a planned person is refused exactly when the access
      row breaks its own checks. */
  lemma RejectedOnlyByChecks(db: Db, now: Db, people: seq<int>, mine: set<nat>, person: int, stamps: Stamps)
    requires Ready(db, people) && SameBut(db, now, people, mine)
    requires person in db.people && person !in people && PlanOne(db, person).outcome == Created
    ensures person in db.access
    ensures RecordRejected(now, NewRecord(stamps, person, db.access[person], Code(now.nextCode)), None)
            <==> !ChecksHold(db.access[person])
  {
    var seats := db.access[person];
    assert !SubjectTriggerRaises(db.users, person, seats);
    forall id | id in now.records ensures !(now.records[id].subject == person && now.records[id].IsOpen()) {
      if id in db.records {
        assert FindOpen(db.records, person, db.nextId).None?;
      }
    }
    assert !HasOpenRecord(now.records, person, None);
    forall id | id in now.records ensures now.records[id].code != Code(now.nextCode) {
      if id in mine {
        assert Accounted(db, people, now.nextCode, now.records[id]);
        var n: nat :| db.nextCode <= n < now.nextCode && now.records[id].code == Code(n);
        if Code(n) == Code(now.nextCode) {
          CodesDiffer(n, now.nextCode);
        }
      }
    }
    assert !CodeTaken(now.records, Code(now.nextCode), None);
  }

  lemma OneMorePerson(stamps: Stamps, db: Db, people: seq<int>, person: int, g: Progress)
    requires Ready(db, people + [person]) && Ready(db, people) && person in db.people && !g.raised
    requires Valid(g.db) && SameBut(db, g.db, people, g.mine)
    ensures var h := Handle(stamps, db.access, g, PlanOne(db, person), Nobody);
            && !h.raised && Valid(h.db) && SameBut(db, h.db, people + [person], h.mine)
            && h.plans == g.plans + [h.plans[|g.plans|]] && Kept(stamps, db, person, h.plans[|g.plans|], h.db)
            && forall id | id in g.db.records :: id in h.db.records && h.db.records[id] == g.db.records[id]
  {
    var p := PlanOne(db, person);
    var more := people + [person];
    assert more[|people|] == person;
    forall i | 0 <= i < |people| ensures people[i] != person {
      assert more[i] == people[i];
    }
    if p.outcome == Created {
      RejectedOnlyByChecks(db, g.db, people, g.mine, person, stamps);
      InsertAlone(stamps, db, people, person, g);
    } else {
      assert SameBut(db, g.db, more, g.mine) by {
        StillMine(db, g.db, g.db, people, person, g.mine);
      }
    }
  }

  /** Rows already inserted stay accounted for as the sequences move on. */
  lemma StillMine(db: Db, now: Db, later: Db, people: seq<int>, person: int, mine: set<nat>)
    requires forall i :: 0 <= i < |people| ==> people[i] in db.people
    requires person in db.people && SameBut(db, now, people, mine)
    requires later == now.(nextId := later.nextId, nextCode := later.nextCode)
    requires later.nextId >= now.nextId && later.nextCode >= now.nextCode
    ensures SameBut(db, later, people + [person], mine)
  {
    forall id | id in mine ensures Accounted(db, people + [person], later.nextCode, later.records[id]) {
      AccountedStays(db, people, person, now.nextCode, later.nextCode, now.records[id]);
    }
  }

  /** An accepted insertion adds one row of ours. */
  lemma NewRowIsMine(db: Db, tried: Db, people: seq<int>, person: int, mine: set<nat>, id: nat, row: Record, n: nat)
    requires (forall i :: 0 <= i < |people| ==> people[i] in db.people) && person in db.people
    requires SameBut(db, tried, people + [person], mine)
    requires id !in tried.records && id < tried.nextId
    requires db.nextCode <= n < tried.nextCode && row.code == Code(n)
    requires row.subject == person && Wins(db, person)
    ensures SameBut(db, tried.(records := tried.records[id := row]), people + [person], mine + {id})
  {
    assert Accounted(db, people + [person], tried.nextCode, row) by {
      assert (people + [person])[|people|] == person;
    }
    hide Accounted, Wins;
  }

  function Drawn(db: Db): Db {
    db.(nextCode := db.nextCode + 1)
  }

  lemma HandleAlone(stamps: Stamps, access: map<int, Seats>, g: Progress, p: Plan)
    requires !g.raised && p.outcome == Created && p.person in access && Keyed(g.db)
    ensures var a := Attempt(Drawn(g.db), NewRecord(stamps, p.person, access[p.person], Code(g.db.nextCode)));
            Handle(stamps, access, g, p, Nobody) ==
            Progress(Insert(a), if a.Rejected() then g.mine else g.mine + {g.db.nextId},
                     g.plans + [Done(p, a)], g.attempts + [Some(a)], false)
  {
  }

  /** What the two ends of an insertion say about the plan they leave. */
  lemma DoneIsKept(stamps: Stamps, db: Db, person: int, now: Db)
    requires person in db.people && person in db.access && PlanOne(db, person).outcome == Created
    requires var a := Attempt(Drawn(now), NewRecord(stamps, person, db.access[person], Code(now.nextCode)));
             a.Rejected() <==> !Wins(db, person)
    ensures var a := Attempt(Drawn(now), NewRecord(stamps, person, db.access[person], Code(now.nextCode)));
            Kept(stamps, db, person, Done(PlanOne(db, person), a), Insert(a))
  {
  }

  lemma AttemptIsMine(db: Db, people: seq<int>, person: int, now: Db, mine: set<nat>, a: Attempt)
    requires (forall i :: 0 <= i < |people| ==> people[i] in db.people) && person in db.people
    requires SameBut(db, now, people, mine) && a.before == Drawn(now) && now.nextId !in now.records
    requires a.row.subject == person && a.row.code == Code(now.nextCode) && (!a.Rejected() ==> Wins(db, person))
    ensures SameBut(db, Insert(a), people + [person], if a.Rejected() then mine else mine + {now.nextId})
  {
    hide RecordRejected, Wins, Accounted;
    var tried := Drawn(now).(nextId := now.nextId + 1);
    StillMine(db, now, tried, people, person, mine);
    if !a.Rejected() {
      NewRowIsMine(db, tried, people, person, mine, now.nextId, a.row, now.nextCode);
    }
  }

  lemma ValidIsKeyed(db: Db)
    requires Valid(db)
    ensures Keyed(db)
  {
  }

  /** Alone, an insertion meets a valid state and leaves one. */
  lemma AttemptIsValid(now: Db, a: Attempt)
    requires Valid(now) && a.before == Drawn(now)
    ensures Valid(Insert(a))
    ensures forall id | id in now.records :: id in Insert(a).records && Insert(a).records[id] == now.records[id]
  {
    if !a.Rejected() {
      InsertRecordKeepsValid(a.before, a.row);
    }
  }

  lemma InsertAlone(stamps: Stamps, db: Db, people: seq<int>, person: int, g: Progress)
    requires (forall i :: 0 <= i < |people| ==> people[i] in db.people) && !g.raised
    requires Valid(g.db) && SameBut(db, g.db, people, g.mine)
    requires person in db.people && person in db.access && PlanOne(db, person).outcome == Created
    requires RecordRejected(g.db, NewRecord(stamps, person, db.access[person], Code(g.db.nextCode)), None)
             <==> !ChecksHold(db.access[person])
    ensures var h := Handle(stamps, db.access, g, PlanOne(db, person), Nobody);
            && !h.raised && Valid(h.db) && SameBut(db, h.db, people + [person], h.mine)
            && h.plans == g.plans + [h.plans[|g.plans|]] && Kept(stamps, db, person, h.plans[|g.plans|], h.db)
            && forall id | id in g.db.records :: id in h.db.records && h.db.records[id] == g.db.records[id]
  {
    ValidIsKeyed(g.db);
    hide Valid, Keyed, RecordRejected, PlanOne, SameBut, Kept, ChecksHold;
    var row := NewRecord(stamps, person, db.access[person], Code(g.db.nextCode));
    var a := Attempt(Drawn(g.db), row);
    SameRejection(g.db, row);
    assert a.Rejected() <==> !Wins(db, person);
    DoneIsKept(stamps, db, person, g.db);
    DrawnIsKeyed(g.db);
    AttemptIsValid(g.db, a);
    AttemptIsMine(db, people, person, g.db, g.mine, a);
    PlannedFor(db, person);
    hide Handle, Insert, Done, NewRecord, Wins;
    HandleAlone(stamps, db.access, g, PlanOne(db, person));
  }

  /** Drawing a code changes nothing the database checks. */
  lemma SameRejection(db: Db, r: Record)
    ensures RecordRejected(Drawn(db), r, None) <==> RecordRejected(db, r, None)
  {
  }

  lemma PlannedFor(db: Db, person: int)
    requires person in db.people && PlanOne(db, person).outcome == Created
    ensures person in db.access
    ensures PlanOne(db, person)
         == Plan(person, Created, None, None, Some(Scorer(db.access[person])), db.access[person].supervisor.None?)
  {
  }

  ghost predicate AllKept(stamps: Stamps, db: Db, people: seq<int>, g: Progress)
    requires forall i :: 0 <= i < |people| ==> people[i] in db.people
  {
    |g.plans| == |people| && forall i :: 0 <= i < |people| ==> Kept(stamps, db, people[i], g.plans[i], g.db)
  }

  lemma AllKeptOneMore(stamps: Stamps, db: Db, people: seq<int>, person: int, g: Progress, h: Progress)
    requires forall i :: 0 <= i < |people| ==> people[i] in db.people
    requires person in db.people && AllKept(stamps, db, people, g)
    requires |h.plans| == |people| + 1 && h.plans == g.plans + [h.plans[|people|]]
    requires Kept(stamps, db, person, h.plans[|people|], h.db)
    requires forall id | id in g.db.records :: id in h.db.records && h.db.records[id] == g.db.records[id]
    ensures AllKept(stamps, db, people + [person], h)
  {
  }

  lemma {:induction false} RunAloneKeepsPlan(stamps: Stamps, db: Db, people: seq<int>)
    requires Ready(db, people)
    ensures var g := RunAlone(stamps, db, people);
            !g.raised && Valid(g.db) && SameBut(db, g.db, people, g.mine) && AllKept(stamps, db, people, g)
    decreases |people|
  {
    if people == [] {
    } else {
      var n := |people| - 1;
      var before, person := people[..n], people[n];
      assert people == before + [person];
      RunAloneKeepsPlan(stamps, db, before);
      var g := RunAlone(stamps, db, before);
      OneMorePerson(stamps, db, before, person, g);
      RunAloneUnfolds(stamps, db, before, person);
      AllKeptOneMore(stamps, db, before, person, g, RunAlone(stamps, db, people));
    }
  }

  lemma RunAloneUnfolds(stamps: Stamps, db: Db, people: seq<int>, person: int)
    requires Ready(db, people) && Ready(db, people + [person]) && person in db.people
    ensures RunAlone(stamps, db, people + [person])
         == Handle(stamps, db.access, RunAlone(stamps, db, people), PlanOne(db, person), Nobody)
  {
    var plans := PlanAll(db, people + [person]);
    assert plans[|people|] == PlanOne(db, person) by {
      assert (people + [person])[|people|] == person;
    }
    assert plans[..|people|] == PlanAll(db, people) by {
      forall i | 0 <= i < |people| ensures plans[i] == PlanOne(db, people[i]) {
        assert (people + [person])[i] == people[i];
      }
    }
  }

  /** The preview foresees the database. For an active person whose chain is alive and meets its checks
      it promises a record exactly when the insertion would be accepted; and it reports an open record
      exactly when there is one, by its id. */
  lemma PlanForeseesDatabase(stamps: Stamps, db: Db, person: int)
    requires Ready(db, [person]) && person in db.people && db.people[person].active && person in db.access
    requires !SomeSeatInactive(db.users, db.access[person]) && ChecksHold(db.access[person])
    ensures PlanOne(db, person).outcome == Created <==>
            !RecordRejected(db, NewRecord(stamps, person, db.access[person], Code(db.nextCode)), None)
    ensures forall id :: PlanOne(db, person).evaluationId == Some(id) <==>
                         id in db.records && db.records[id].subject == person && db.records[id].IsOpen()
  {
    var found := FindOpen(db.records, person, db.nextId);
    if found.None? {
      assert SameBut(db, db, [], {});
      assert Ready(db, []);
      RejectedOnlyByChecks(db, db, [], {}, person, stamps);
    } else {
      assert HasOpenRecord(db.records, person, None);
    }
  }

  /** What execute reports is what plan previewed, person by person, but that a person whose access
      row breaks its own checks is reported as a conflict; and every record created is scored by the
      assignee the preview named. */
  lemma ExecuteMatchesPlan(stamps: Stamps, db: Db, people: seq<int>, i: nat)
    requires Ready(db, people) && i < |people|
    ensures var g, planned := RunAlone(stamps, db, people), PlanOne(db, people[i]);
            && (g.plans[i].outcome == planned.outcome <==>
                  (planned.outcome == Created ==> ChecksHold(db.access[people[i]])))
            && (g.plans[i].outcome == Created ==>
                  && g.plans[i].evaluationId.Some? && g.plans[i].evaluationId.value in g.db.records
                  && Some(Scorer(g.db.records[g.plans[i].evaluationId.value].seats)) == planned.assignee)
  {
    RunAloneKeepsPlan(stamps, db, people);
    assert Kept(stamps, db, people[i], RunAlone(stamps, db, people).plans[i], RunAlone(stamps, db, people).db);
  }

  /** Running again over the same people creates nothing; whoever got a record is now skipped, and
      the report points at that record. */
  lemma SecondRunCreatesNothing(stamps: Stamps, db: Db, cohort: Cohort, people: seq<int>)
    requires Ready(db, people) && IsCohort(db, cohort, people)
    ensures var g := RunAlone(stamps, db, people);
            && Ready(g.db, people) && IsCohort(g.db, cohort, people)
            && RunAlone(stamps, g.db, people).mine == {}
            && forall i :: 0 <= i < |people| && g.plans[i].outcome == Created ==>
                 PlanOne(g.db, people[i]).outcome == SkippedAlreadyOpen
                 && PlanOne(g.db, people[i]).evaluationId == g.plans[i].evaluationId
  {
    hide Valid, PlanOne, Wins, Kept, SameBut;
    RunAloneKeepsPlan(stamps, db, people);
    var g := RunAlone(stamps, db, people);
    CodesStillComeFromSequence(db, people, g);
    forall i | 0 <= i < |people| ensures !Wins(g.db, people[i])
      ensures g.plans[i].outcome == Created ==>
                PlanOne(g.db, people[i]).outcome == SkippedAlreadyOpen
                && PlanOne(g.db, people[i]).evaluationId == g.plans[i].evaluationId
    {
      PlannedAgain(stamps, db, people, g, i);
    }
    RunAloneKeepsPlan(stamps, g.db, people);
    NobodyWins(g.db, RunAlone(stamps, g.db, people), people);
  }

  lemma NobodyWins(db: Db, h: Progress, people: seq<int>)
    requires (forall i :: 0 <= i < |people| ==> people[i] in db.people) && SameBut(db, h.db, people, h.mine)
    requires forall i :: 0 <= i < |people| ==> !Wins(db, people[i])
    ensures h.mine == {}
  {
  }

  lemma CodesStillComeFromSequence(db: Db, people: seq<int>, g: Progress)
    requires Ready(db, people) && SameBut(db, g.db, people, g.mine)
    ensures CodesComeFromSequence(g.db)
  {
    forall id, n: nat | id in g.db.records && n >= g.db.nextCode ensures g.db.records[id].code != Code(n) {
      if id in g.mine {
        assert Accounted(db, people, g.db.nextCode, g.db.records[id]);
        var m: nat :| db.nextCode <= m < g.db.nextCode && g.db.records[id].code == Code(m);
        if Code(m) == Code(n) {
          CodesDiffer(m, n);
        }
      }
    }
  }

  lemma PlannedAgain(stamps: Stamps, db: Db, people: seq<int>, g: Progress, i: nat)
    requires Ready(db, people) && Valid(g.db) && SameBut(db, g.db, people, g.mine)
    requires i < |people| && |g.plans| == |people| && Kept(stamps, db, people[i], g.plans[i], g.db)
    ensures !Wins(g.db, people[i])
    ensures g.plans[i].outcome == Created ==>
              PlanOne(g.db, people[i]).outcome == SkippedAlreadyOpen
              && PlanOne(g.db, people[i]).evaluationId == g.plans[i].evaluationId
  {
    var person := people[i];
    var found := FindOpen(g.db.records, person, g.db.nextId);
    if Wins(db, person) {
      var id := g.plans[i].evaluationId.value;
      assert id in g.db.records && g.db.records[id].subject == person && g.db.records[id].IsOpen();
      assert found.Some?;
      assert found.value == id;
    }
  }
}
