/** Bulk creation of evaluation records for a cohort: plan decides, execute inserts, each insertion
    under its own savepoint and with other transactions free to commit in between. */
module BulkEvaluation {
  import opened Wrappers
  import opened EvaluationDb
  import Decimal

  datatype Outcome =
    | Created
    | SkippedAlreadyOpen
    | BlockedInactive
    | BlockedNoAccessRow
    | BlockedInactiveSeat
    | BlockedConflict

  datatype Plan = Plan(
    person: int,
    outcome: Outcome,
    evaluationId: Option<nat>,
    evaluationCode: Option<string>,
    assignee: Option<int>,
    managerPath: bool)

  /** The stamps every record of one run gets. */
  datatype Stamps = Stamps(period: Option<int>, scheme: Option<int>, framework: int, hrPeople: set<int>)

  datatype Cohort = Cohort(orgUnit: Option<string>, onlyManagers: Option<bool>, contractEndsBefore: Option<int>) {
    /** Every filter that is set must hold; inactive people stay in. */
    predicate Includes(p: Person) {
      && (orgUnit.Some? && orgUnit.value != "" ==> p.orgUnit == orgUnit.value)
      && (onlyManagers.Some? ==> p.isManager == onlyManagers.value)
      && (contractEndsBefore.Some? ==> p.contractEnd <= contractEndsBefore.value)
    }
  }

  /** The people of a cohort, each once. */
  ghost predicate IsCohort(db: Db, cohort: Cohort, people: seq<int>) {
    && (forall p :: p in people <==> p in db.people && cohort.Includes(db.people[p]))
    && (forall i, j :: 0 <= i < j < |people| ==> people[i] != people[j])
  }

  // ----- plan -----

  /** The open record of a person, with the greatest id below n. */
  function FindOpen(records: map<nat, Record>, person: int, n: nat): (id: Option<nat>)
    ensures id.Some? ==> id.value in records && records[id.value].subject == person && records[id.value].IsOpen()
    ensures id.None? ==> forall i | i in records && i < n :: records[i].subject == person ==> !records[i].IsOpen()
  {
    if n == 0 then None
    else if n - 1 in records && records[n - 1].subject == person && records[n - 1].IsOpen() then Some(n - 1)
    else FindOpen(records, person, n - 1)
  }

  predicate SomeSeatInactive(users: map<int, User>, s: Seats) {
    exists u | u in SeatIds(s) :: u !in users || !users[u].active
  }

  function Blocked(person: int, outcome: Outcome): Plan {
    Plan(person, outcome, None, None, None, false)
  }

  /** The order of the tests matters: an open record is reported even for someone inactive. */
  function PlanOne(db: Db, person: int): Plan
    requires person in db.people
  {
    var existing := FindOpen(db.records, person, db.nextId);
    if existing.Some? then
      Plan(person, SkippedAlreadyOpen, existing, Some(db.records[existing.value].code), None, false)
    else if !db.people[person].active then Blocked(person, BlockedInactive)
    else if person !in db.access then Blocked(person, BlockedNoAccessRow)
    else if SomeSeatInactive(db.users, db.access[person]) then Blocked(person, BlockedInactiveSeat)
    else
      var seats := db.access[person];
      Plan(person, Created, None, None, Some(Scorer(seats)), seats.supervisor.None?)
  }

  function PlanAll(db: Db, people: seq<int>): (plans: seq<Plan>)
    requires forall i :: 0 <= i < |people| ==> people[i] in db.people
    ensures |plans| == |people|
    ensures forall i :: 0 <= i < |people| ==> plans[i] == PlanOne(db, people[i])
  {
    if people == [] then [] else [PlanOne(db, people[0])] + PlanAll(db, people[1..])
  }

  predicate Alive(users: map<int, User>, u: int) {
    u in users && users[u].active
  }

  /** Every filled seat belongs to someone active. */
  predicate Staffed(users: map<int, User>, s: Seats) {
    && Alive(users, s.ceo)
    && (s.supervisor.Some? ==> Alive(users, s.supervisor.value))
    && (s.deputy.Some? ==> Alive(users, s.deputy.value))
  }

  /** When each outcome is previewed, and what comes with it. An open record is reported even for someone
      inactive, by its id and code; a promised record names the lowest filled seat as who scores first. */
  lemma PlanMeans(db: Db, person: int)
    requires Keyed(db) && person in db.people
    ensures var p, open := PlanOne(db, person), HasOpenRecord(db.records, person, None);
            var active, seated := db.people[person].active, person in db.access;
            && p.person == person
            && (p.outcome == SkippedAlreadyOpen <==> open)
            && (p.outcome == BlockedInactive <==> !open && !active)
            && (p.outcome == BlockedNoAccessRow <==> !open && active && !seated)
            && (p.outcome == BlockedInactiveSeat <==>
                  !open && active && seated && !Staffed(db.users, db.access[person]))
            && (p.outcome == Created <==> !open && active && seated && Staffed(db.users, db.access[person]))
    ensures forall id :: PlanOne(db, person).evaluationId == Some(id) <==>
                         id in db.records && db.records[id].subject == person && db.records[id].IsOpen()
    ensures var p := PlanOne(db, person);
            && (p.evaluationId.Some? ==> p.evaluationCode == Some(db.records[p.evaluationId.value].code))
            && (p.evaluationId.None? ==> p.evaluationCode == None)
            && (p.outcome != Created ==> p.assignee == None && !p.managerPath)
            && (p.outcome == Created ==>
                  var s := db.access[person];
                  && (p.managerPath <==> s.supervisor == None)
                  && p.assignee == if s.supervisor.Some? then s.supervisor
                                   else if s.deputy.Some? then s.deputy else Some(s.ceo))
  {
    var found := FindOpen(db.records, person, db.nextId);
    if found.Some? {
      assert HasOpenRecord(db.records, person, None);
    }
    if person in db.access {
      SeatsAlive(db.users, db.access[person]);
    }
  }

  lemma SeatsAlive(users: map<int, User>, s: Seats)
    ensures SomeSeatInactive(users, s) <==> !Staffed(users, s)
  {
    if !Staffed(users, s) {
      var u := if !Alive(users, s.ceo) then s.ceo
               else if s.supervisor.Some? && !Alive(users, s.supervisor.value) then s.supervisor.value
               else s.deputy.value;
      assert u in SeatIds(s);
    }
  }

  // ----- execute -----

  function Code(n: nat): string {
    "EVL-" + Decimal.Padded(n, 4)
  }

  /** What a code looks like: a fixed prefix and the number, in four digits or as many as it needs. */
  lemma CodeSays(n: nat)
    ensures var code := Code(n);
            && |code| >= 8 && code[..4] == "EVL-" && Decimal.AllDigits(code[4..])
            && Decimal.StringToNat(code[4..]) == n && (|code| > 8 ==> code[4] != '0')
  {
    var s := Decimal.NatToString(n);
    assert Code(n)[..4] == "EVL-" && Code(n)[4..] == Decimal.Padded(n, 4);
    Decimal.PaddedReads(n, 4);
    Decimal.NoLeadingZero(n);
    Decimal.PaddedIs(n, 4);
    hide Decimal.Padded, Decimal.NatToString, Decimal.StringToNat;
    if |Code(n)| > 8 {
      assert Code(n)[4] == s[0];
    }
  }

  lemma CodesDiffer(m: nat, n: nat)
    requires Code(m) == Code(n)
    ensures m == n
  {
    assert Decimal.Padded(m, 4) == Code(m)[4..] && Decimal.Padded(n, 4) == Code(n)[4..];
    Decimal.PaddedInjective(m, n, 4);
  }

  function NewRecord(stamps: Stamps, person: int, seats: Seats, code: string): Record {
    Record(code, person, seats, None, person in stamps.hrPeople, stamps.period, stamps.scheme, stamps.framework, Draft)
  }

  /** A record as the run must leave it: at the very start of its path, with nobody from HR on it, the HR
      review skipped for HR's own people and for no one else, and the seats and stamps it is due. */
  predicate StartsAs(r: Record, stamps: Stamps, person: int, seats: Seats) {
    && r.subject == person && r.seats == seats
    && r.status == Draft && r.hrUser == None && (r.hrReviewSkipped <==> person in stamps.hrPeople)
    && r.period == stamps.period && r.scheme == stamps.scheme && r.framework == stamps.framework
  }

  /** What other transactions may have committed by now: any state the keys and indexes allow, in which
      our own, still uncommitted, rows are as we left them and the sequences have not gone back. Anything
      else they ask for does not happen. Separation is not asked of them: overlapping transactions can
      break it. */
  function Interfered(db: Db, mine: set<nat>, other: Db): Db {
    if Keyed(other) && other.nextId >= db.nextId && other.nextCode >= db.nextCode
       && (forall id | id in mine :: id in db.records ==> id in other.records && other.records[id] == db.records[id])
    then other
    else db
  }

  /** One insertion under a savepoint: the state it met, the row, and the id it drew. */
  datatype Attempt = Attempt(before: Db, row: Record) {
    predicate Rejected() {
      RecordRejected(before, row, None)
    }
  }

  /** The outcome of a run, or of its remainder: `raised` when an access row had gone. */
  datatype Progress = Progress(db: Db, mine: set<nat>, plans: seq<Plan>, attempts: seq<Option<Attempt>>, raised: bool)

  function Insert(a: Attempt): Db {
    if a.Rejected() then a.before.(nextId := a.before.nextId + 1)
    else a.before.(records := a.before.records[a.before.nextId := a.row], nextId := a.before.nextId + 1)
  }

  function Done(p: Plan, a: Attempt): Plan {
    if a.Rejected() then p.(outcome := BlockedConflict)
    else p.(evaluationId := Some(a.before.nextId), evaluationCode := Some(a.row.code))
  }

  /** One planned person. `others` gives the state other transactions try to leave at each step. */
  function Handle(stamps: Stamps, access: map<int, Seats>, g: Progress, p: Plan, others: (nat, Db) -> Db): Progress {
    var k := |g.plans|;
    if g.raised || (p.outcome == Created && p.person !in access) then
      g.(plans := g.plans + [p], attempts := g.attempts + [None], raised := true)
    else if p.outcome != Created then
      g.(plans := g.plans + [p], attempts := g.attempts + [None])
    else
      var drawn := g.db.(nextCode := g.db.nextCode + 1);
      var met := Interfered(drawn, g.mine, others(k, drawn));
      var a := Attempt(met, NewRecord(stamps, p.person, access[p.person], Code(g.db.nextCode)));
      Progress(Insert(a), if a.Rejected() then g.mine else g.mine + {met.nextId},
               g.plans + [Done(p, a)], g.attempts + [Some(a)], false)
  }

  function HandleAll(stamps: Stamps, access: map<int, Seats>, db: Db, plans: seq<Plan>, others: (nat, Db) -> Db): (g: Progress)
    ensures |g.plans| == |g.attempts| == |plans|
  {
    if plans == [] then Progress(db, {}, [], [], false)
    else
      var n := |plans| - 1;
      Handle(stamps, access, HandleAll(stamps, access, db, plans[..n], others), plans[n], others)
  }

  /** The session that runs execute: the database as it sees it, the rows it has inserted, and the
      plans it overwrites as it goes. */
  class Session {
    var db: Db
    var mine: set<nat>
    var plans: seq<Plan>

    constructor (db: Db, plans: seq<Plan>)
      ensures this.db == db && mine == {} && this.plans == plans
    {
      this.db := db;
      mine := {};
      this.plans := plans;
    }

    /** One planned person: draw a code, insert under a savepoint, and write down what happened. */
    method CreateOne(stamps: Stamps, seats: Seats, k: nat, others: (nat, Db) -> Db) returns (ghost a: Attempt)
      requires k < |plans|
      modifies this
      ensures var drawn := old(db).(nextCode := old(db).nextCode + 1);
              a == Attempt(Interfered(drawn, old(mine), others(k, drawn)),
                           NewRecord(stamps, old(plans)[k].person, seats, Code(old(db).nextCode)))
      ensures StartsAs(a.row, stamps, old(plans)[k].person, seats) && a.row.code == Code(old(db).nextCode)
      ensures db == Insert(a)
      ensures mine == if a.Rejected() then old(mine) else old(mine) + {a.before.nextId}
      ensures plans == old(plans)[k := Done(old(plans)[k], a)]
    {
      var p := plans[k];
      var code := Code(db.nextCode);
      db := db.(nextCode := db.nextCode + 1);
      db := Interfered(db, mine, others(k, db));
      var record := NewRecord(stamps, p.person, seats, code);
      a := Attempt(db, record);
      var id := db.nextId;
      var rejected := RecordRejected(db, record, None);
      db := db.(nextId := id + 1);
      if rejected {
        plans := plans[k := p.(outcome := BlockedConflict)];
      } else {
        db := db.(records := db.records[id := record]);
        mine := mine + {id};
        plans := plans[k := p.(evaluationId := Some(id), evaluationCode := Some(code))];
      }
    }

    method Execute(stamps: Stamps, access: map<int, Seats>, others: (nat, Db) -> Db) returns (raised: bool)
      requires mine == {} && Keyed(db)
      modifies this
      ensures var g := HandleAll(stamps, access, old(db), old(plans), others);
              db == g.db && mine == g.mine && plans == g.plans && raised == g.raised
              && Faithful(stamps, access, old(plans), g)
    {
      hide Faithful, Keyed, Handle, RecordRejected, Interfered, Insert, NewRecord, Done, Code, StartsAs;
      ghost var was := plans;
      ghost var g := Progress(db, {}, [], [], false);
      raised := false;
      for k := 0 to |plans|
        invariant |plans| == |was| && forall j :: k <= j < |was| ==> plans[j] == was[j]
        invariant g == HandleAll(stamps, access, old(db), was[..k], others)
        invariant db == g.db && mine == g.mine && plans[..k] == g.plans && raised == g.raised
      {
        assert was[..k + 1][..k] == was[..k] && plans[k] == was[k];
        var p := plans[k];
        label L:
        ghost var next := Handle(stamps, access, g, p, others);
        HandleIs(stamps, access, g, p, others);
        if raised || (p.outcome == Created && p.person !in access) {
          raised := true;
          PrefixGrows(plans, k, p);
        } else if p.outcome == Created {
          ghost var a := CreateOne(stamps, access[p.person], k, others);
          PrefixGrows(old@L(plans), k, Done(p, a));
        } else {
          PrefixGrows(plans, k, p);
        }
        g := next;
      }
      assert was[..|was|] == was;
      ExecuteAmongOthers(stamps, access, old(db), was, others);
    }

    /** How many people met each outcome. */
    method Summarise() returns (counts: map<Outcome, nat>)
      ensures forall o :: o in counts <==> exists k :: 0 <= k < |plans| && plans[k].outcome == o
      ensures forall o | o in counts :: counts[o] == CountOf(plans, o)
    {
      counts := map[];
      for k := 0 to |plans|
        invariant forall o :: o in counts <==> exists j :: 0 <= j < k && plans[j].outcome == o
        invariant forall o :: CountOf(plans[..k], o) == if o in counts then counts[o] else 0
      {
        var o := plans[k].outcome;
        assert plans[..k + 1][..k] == plans[..k];
        counts := counts[o := (if o in counts then counts[o] else 0) + 1];
      }
      assert plans[..|plans|] == plans;
    }
  }

  /** What handling one person comes to, given the attempt. */
  lemma HandleIs(stamps: Stamps, access: map<int, Seats>, g: Progress, p: Plan, others: (nat, Db) -> Db)
    ensures var next, drawn := Handle(stamps, access, g, p, others), g.db.(nextCode := g.db.nextCode + 1);
            if g.raised || p.outcome != Created || p.person !in access then
              && next.db == g.db && next.mine == g.mine && next.plans == g.plans + [p]
              && (next.raised <==> g.raised || (p.outcome == Created && p.person !in access))
            else
              var a := Attempt(Interfered(drawn, g.mine, others(|g.plans|, drawn)),
                               NewRecord(stamps, p.person, access[p.person], Code(g.db.nextCode)));
              && next.db == Insert(a) && next.plans == g.plans + [Done(p, a)] && !next.raised
              && next.mine == if a.Rejected() then g.mine else g.mine + {a.before.nextId}
  {
    hide RecordRejected, Interfered, Insert, NewRecord, Done, Code;
  }

  lemma PrefixGrows<T>(s: seq<T>, k: nat, x: T)
    requires k < |s|
    ensures s[k := x][..k + 1] == s[..k] + [x]
    ensures s[k] == x ==> s[k := x] == s
  {
  }

  function CountOf(plans: seq<Plan>, o: Outcome): nat {
    if plans == [] then 0
    else CountOf(plans[..|plans| - 1], o) + if plans[|plans| - 1].outcome == o then 1 else 0
  }

  // ----- with anyone else at work -----

  lemma InsertKeepsKeyed(a: Attempt)
    requires Keyed(a.before)
    ensures Keyed(Insert(a))
  {
    if !a.Rejected() {
      InsertRecordKeepsKeyed(a.before, a.row);
    }
  }

  /** The whole story of a run among others. Every state an insertion meets, and the last one, keeps its
      keys and indexes: nobody ever has two open records. What is inserted is a record at the start of its
      path with the seats and stamps due. A planned row becomes a conflict exactly when the database
      rejected it; every other planned row is there at the end, as inserted, and is what its plan now
      names. Rows that were not planned are left as they were. */
  ghost predicate Faithful(stamps: Stamps, access: map<int, Seats>, plans: seq<Plan>, g: Progress) {
    && Keyed(g.db)
    && |g.plans| == |g.attempts| == |plans|
    && (forall id | id in g.mine :: id in g.db.records && id < g.db.nextId)
    && forall k :: 0 <= k < |plans| ==> RowFaithful(stamps, access, plans[k], g.plans[k], g.attempts[k], g)
  }

  ghost predicate RowFaithful(
      stamps: Stamps, access: map<int, Seats>, planned: Plan, got: Plan, attempt: Option<Attempt>, g: Progress) {
    match attempt
    case None => got == planned && (planned.outcome == Created ==> g.raised)
    case Some(a) =>
      && planned.outcome == Created && planned.person in access && Keyed(a.before)
      && StartsAs(a.row, stamps, planned.person, access[planned.person])
      && (exists n: nat :: a.row.code == Code(n))
      && (got.outcome == BlockedConflict <==> a.Rejected())
      && (!a.Rejected() ==>
            && got == planned.(evaluationId := Some(a.before.nextId), evaluationCode := Some(a.row.code))
            && a.before.nextId in g.mine
            && a.before.nextId in g.db.records && g.db.records[a.before.nextId] == a.row)
  }

  lemma LaterRowsKeepEarlierOnes(
      stamps: Stamps, access: map<int, Seats>,
      planned: Plan, got: Plan, attempt: Option<Attempt>, g: Progress, h: Progress)
    requires RowFaithful(stamps, access, planned, got, attempt, g)
    requires g.mine <= h.mine && (g.raised ==> h.raised)
    requires forall id | id in g.mine && id in g.db.records :: id in h.db.records && h.db.records[id] == g.db.records[id]
    ensures RowFaithful(stamps, access, planned, got, attempt, h)
  {
  }

  lemma DrawnIsKeyed(db: Db)
    requires Keyed(db)
    ensures Keyed(db.(nextCode := db.nextCode + 1)) && db.nextId !in db.records
  {
  }

  lemma HandleKeepsMine(stamps: Stamps, access: map<int, Seats>, g: Progress, p: Plan, others: (nat, Db) -> Db)
    requires Keyed(g.db) && forall id | id in g.mine :: id in g.db.records && id < g.db.nextId
    ensures var h := Handle(stamps, access, g, p, others);
            && Keyed(h.db) && g.mine <= h.mine && (g.raised ==> h.raised)
            && (forall id | id in g.mine :: id in h.db.records && h.db.records[id] == g.db.records[id])
            && (forall id | id in h.mine :: id in h.db.records && id < h.db.nextId)
            && |h.plans| == |g.plans| + 1 && |h.attempts| == |g.attempts| + 1
            && RowFaithful(stamps, access, p, h.plans[|g.plans|], h.attempts[|g.attempts|], h)
  {
    hide RecordRejected, Keyed;
    var h := Handle(stamps, access, g, p, others);
    if h.attempts[|g.attempts|].Some? {
      var drawn := g.db.(nextCode := g.db.nextCode + 1);
      DrawnIsKeyed(g.db);
      var a := h.attempts[|g.attempts|].value;
      InsertKeepsKeyed(a);
    }
  }

  /** With other transactions free to commit, between the steps, anything that keys and indexes allow. */
  lemma {:induction false} ExecuteAmongOthers(
      stamps: Stamps, access: map<int, Seats>, db: Db, plans: seq<Plan>, others: (nat, Db) -> Db)
    requires Keyed(db)
    ensures Faithful(stamps, access, plans, HandleAll(stamps, access, db, plans, others))
  {
    if plans == [] {
    } else {
      var n := |plans| - 1;
      var g := HandleAll(stamps, access, db, plans[..n], others);
      ExecuteAmongOthers(stamps, access, db, plans[..n], others);
      HandleKeepsMine(stamps, access, g, plans[n], others);
      var h := HandleAll(stamps, access, db, plans, others);
      forall k | 0 <= k < |plans| ensures RowFaithful(stamps, access, plans[k], h.plans[k], h.attempts[k], h) {
        if k < n {
          assert plans[..n][k] == plans[k] && h.plans[k] == g.plans[k] && h.attempts[k] == g.attempts[k];
          assert RowFaithful(stamps, access, plans[k], g.plans[k], g.attempts[k], g);
          LaterRowsKeepEarlierOnes(stamps, access, plans[k], g.plans[k], g.attempts[k], g, h);
        }
      }
    }
  }
}
