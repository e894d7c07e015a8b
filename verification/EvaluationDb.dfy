/** The evaluation tables and what the database enforces on them: foreign keys, checks, the partial
    unique index on open records, and the two halves of the self-evaluation trigger. */
module EvaluationDb {
  import opened Wrappers

  datatype Person = Person(fullName: string, orgUnit: string, isManager: bool, active: bool, contractEnd: int)

  datatype User = User(personnelId: Option<int>, active: bool)

  /** The chain: either lower seat may be empty. */
  datatype Seats = Seats(supervisor: Option<int>, deputy: Option<int>, ceo: int)

  datatype Status = Draft | Submitted | HrApproved | DeputyApproved | Finalized | Cancelled

  datatype Record = Record(
    code: string,
    subject: int,
    seats: Seats,
    hrUser: Option<int>,
    hrReviewSkipped: bool,
    period: Option<int>,
    scheme: Option<int>,
    framework: int,
    status: Status)
  {
    predicate IsOpen() {
      status != Finalized && status != Cancelled
    }
  }

  /** evaluation_access has one row per person, so it is a map from the person. */
  datatype Db = Db(
    people: map<int, Person>,
    users: map<int, User>,
    access: map<int, Seats>,
    records: map<nat, Record>,
    nextId: nat,
    nextCode: nat)

  // ----- the shape of a chain -----

  function SeatIds(s: Seats): set<int> {
    {s.ceo} + (if s.supervisor.Some? then {s.supervisor.value} else {})
            + (if s.deputy.Some? then {s.deputy.value} else {})
  }

  /** The filled seats, from the bottom of the chain up. */
  function Filled(s: Seats): (us: seq<int>)
    ensures us != [] && us[|us| - 1] == s.ceo
    ensures forall u :: u in us <==> u in SeatIds(s)
  {
    (if s.supervisor.Some? then [s.supervisor.value] else [])
    + (if s.deputy.Some? then [s.deputy.value] else []) + [s.ceo]
  }

  /** Who gives the first score: the lowest seat that is filled. */
  function Scorer(s: Seats): (u: int)
    ensures u in SeatIds(s) && u == Filled(s)[0]
  {
    if s.supervisor.Some? then s.supervisor.value
    else if s.deputy.Some? then s.deputy.value
    else s.ceo
  }

  predicate HrFinalizes(s: Seats, hrReviewSkipped: bool) {
    s.supervisor.None? && s.deputy.None? && !hrReviewSkipped
  }

  function FinalApprover(r: Record): Option<int> {
    if HrFinalizes(r.seats, r.hrReviewSkipped) then r.hrUser else Some(r.seats.ceo)
  }

  predicate SingleDecider(r: Record) {
    Some(Scorer(r.seats)) == FinalApprover(r)
  }

  // ----- what the database checks on a row -----

  /** The two CHECK constraints on a chain; a supervisor who is also the CEO is allowed. */
  predicate ChecksHold(s: Seats) {
    && (s.supervisor.None? || s.deputy.None? || s.supervisor != s.deputy)
    && (s.deputy.None? || s.deputy.value != s.ceo)
  }

  /** The subject-side trigger raises: a user on one of the seats is linked to the person. */
  predicate SubjectTriggerRaises(users: map<int, User>, person: int, s: Seats) {
    exists u | u in SeatIds(s) :: u in users && users[u].personnelId == Some(person)
  }

  /** The user-side trigger raises: the user already sits on a seat of the person to be linked. */
  predicate UserTriggerRaises(db: Db, user: int, link: Option<int>) {
    link.Some? &&
    ((link.value in db.access && user in SeatIds(db.access[link.value])) ||
     (exists id | id in db.records :: db.records[id].subject == link.value && user in SeatIds(db.records[id].seats)))
  }

  predicate SeatsExist(db: Db, s: Seats) {
    SeatIds(s) <= db.users.Keys
  }

  predicate HasOpenRecord(records: map<nat, Record>, person: int, but: Option<nat>) {
    exists id | id in records :: Some(id) != but && records[id].subject == person && records[id].IsOpen()
  }

  predicate CodeTaken(records: map<nat, Record>, code: string, but: Option<nat>) {
    exists id | id in records :: Some(id) != but && records[id].code == code
  }

  /** Writing this record, as a new row or over row `but`, violates something. */
  predicate RecordRejected(db: Db, r: Record, but: Option<nat>) {
    || r.subject !in db.people || !SeatsExist(db, r.seats)
    || (r.hrUser.Some? && r.hrUser.value !in db.users)
    || !ChecksHold(r.seats)
    || SubjectTriggerRaises(db.users, r.subject, r.seats)
    || (r.IsOpen() && HasOpenRecord(db.records, r.subject, but))
    || CodeTaken(db.records, r.code, but)
  }

  predicate AccessRejected(db: Db, person: int, s: Seats) {
    || person !in db.people || !SeatsExist(db, s)
    || !ChecksHold(s)
    || SubjectTriggerRaises(db.users, person, s)
  }

  /** Somebody's row refers to this user. */
  predicate UserReferenced(db: Db, user: int) {
    || (exists p | p in db.access :: user in SeatIds(db.access[p]))
    || (exists id | id in db.records ::
          user in SeatIds(db.records[id].seats) || db.records[id].hrUser == Some(user))
  }

  predicate PersonReferenced(db: Db, person: int) {
    || person in db.access
    || (exists u | u in db.users :: db.users[u].personnelId == Some(person))
    || (exists id | id in db.records :: db.records[id].subject == person)
  }

  // ----- statements -----

  datatype Statement =
    | InsertPerson(person: int, p: Person)
    | UpdatePerson(person: int, p: Person)
    | DeletePerson(person: int)
    | InsertUser(user: int, u: User)
    | LinkUser(user: int, link: Option<int>)
    | SetUserActive(user: int, active: bool)
    | DeleteUser(user: int)
    | WriteAccess(person: int, seats: Seats)
    | DeleteAccess(person: int)
    | InsertRecord(r: Record)
    | UpdateRecord(id: nat, r: Record)
    | DeleteRecord(id: nat)

  /** The state after one statement, or None when the database raises. An update of no row is no
      error. The user-side trigger fires on inserts and on updates that set the link. */
  function Execute(db: Db, st: Statement): Option<Db> {
    match st
    case InsertPerson(person, p) =>
      if person in db.people then None else Some(db.(people := db.people[person := p]))
    case UpdatePerson(person, p) =>
      if person !in db.people then Some(db) else Some(db.(people := db.people[person := p]))
    case DeletePerson(person) =>
      if PersonReferenced(db, person) then None else Some(db.(people := db.people - {person}))
    case InsertUser(user, u) =>
      if user in db.users || (u.personnelId.Some? && u.personnelId.value !in db.people)
         || UserTriggerRaises(db, user, u.personnelId)
      then None
      else Some(db.(users := db.users[user := u]))
    case LinkUser(user, link) =>
      if user !in db.users then Some(db)
      else if (link.Some? && link.value !in db.people) || UserTriggerRaises(db, user, link) then None
      else Some(db.(users := db.users[user := db.users[user].(personnelId := link)]))
    case SetUserActive(user, active) =>
      if user !in db.users then Some(db)
      else Some(db.(users := db.users[user := db.users[user].(active := active)]))
    case DeleteUser(user) =>
      if UserReferenced(db, user) then None else Some(db.(users := db.users - {user}))
    case WriteAccess(person, seats) =>
      if AccessRejected(db, person, seats) then None
      else Some(db.(access := db.access[person := seats]))
    case DeleteAccess(person) => Some(db.(access := db.access - {person}))
    case InsertRecord(r) =>
      if RecordRejected(db, r, None) then None
      else Some(db.(records := db.records[db.nextId := r], nextId := db.nextId + 1))
    case UpdateRecord(id, r) =>
      if id !in db.records then Some(db)
      else if RecordRejected(db, r, Some(id)) then None
      else Some(db.(records := db.records[id := r]))
    case DeleteRecord(id) => Some(db.(records := db.records - {id}))
  }

  function Run(db: Db, script: seq<Statement>): Db
    decreases |script|
  {
    if script == [] then db
    else
      var before := Run(db, script[..|script| - 1]);
      Execute(before, script[|script| - 1]).GetOr(before)
  }

  // ----- what every reachable state keeps -----

  predicate ReferencesExist(db: Db) {
    && (forall p | p in db.access :: p in db.people && SeatsExist(db, db.access[p]))
    && (forall id | id in db.records ::
          && db.records[id].subject in db.people && SeatsExist(db, db.records[id].seats)
          && (db.records[id].hrUser.Some? ==> db.records[id].hrUser.value in db.users))
    && (forall u | u in db.users && db.users[u].personnelId.Some? :: db.users[u].personnelId.value in db.people)
  }

  /** No account linked to a person sits on any of that person's seats. */
  predicate NobodyJudgesThemselves(db: Db) {
    && (forall p | p in db.access :: !SubjectTriggerRaises(db.users, p, db.access[p]))
    && (forall id | id in db.records ::
          !SubjectTriggerRaises(db.users, db.records[id].subject, db.records[id].seats))
  }

  predicate OneOpenEach(db: Db) {
    forall i, j | i in db.records && j in db.records && i != j && db.records[i].IsOpen() && db.records[j].IsOpen() ::
      db.records[i].subject != db.records[j].subject
  }

  predicate CodesAreUnique(db: Db) {
    forall i, j | i in db.records && j in db.records && i != j :: db.records[i].code != db.records[j].code
  }

  /** What foreign keys, unique indexes and the sequence keep, however transactions overlap. */
  predicate Keyed(db: Db) {
    && ReferencesExist(db) && OneOpenEach(db) && CodesAreUnique(db)
    && forall id | id in db.records :: id < db.nextId
  }

  /** With what the triggers keep as long as statements see each other. */
  predicate Valid(db: Db) {
    Keyed(db) && NobodyJudgesThemselves(db)
  }

  /** A user's link may change to any value the user-side trigger lets through. */
  lemma LinkKeepsSeparation(db: Db, user: int, u: User)
    requires NobodyJudgesThemselves(db) && !UserTriggerRaises(db, user, u.personnelId)
    ensures NobodyJudgesThemselves(db.(users := db.users[user := u]))
  {
  }

  /** Changing a user without touching the link, or removing one, cannot break separation. */
  lemma OtherUserChangesKeepSeparation(db: Db, users': map<int, User>)
    requires NobodyJudgesThemselves(db)
    requires forall x | x in users' :: x in db.users && users'[x].personnelId == db.users[x].personnelId
    ensures NobodyJudgesThemselves(db.(users := users'))
  {
  }

  lemma WriteRecordKeepsKeyed(db: Db, id: nat, r: Record)
    requires Keyed(db) && !RecordRejected(db, r, Some(id)) && id < db.nextId
    ensures Keyed(db.(records := db.records[id := r]))
  {
  }

  lemma InsertRecordKeepsKeyed(db: Db, r: Record)
    requires Keyed(db) && !RecordRejected(db, r, None)
    ensures Keyed(db.(records := db.records[db.nextId := r], nextId := db.nextId + 1))
  {
    assert !RecordRejected(db, r, Some(db.nextId));
    WriteRecordKeepsKeyed(db.(nextId := db.nextId + 1), db.nextId, r);
  }

  lemma WriteRecordKeepsValid(db: Db, id: nat, r: Record)
    requires Valid(db) && !RecordRejected(db, r, Some(id)) && id < db.nextId
    ensures Valid(db.(records := db.records[id := r]))
  {
  }

  lemma UpdateRecordKeepsValid(db: Db, id: nat, r: Record)
    requires Valid(db) && !RecordRejected(db, r, Some(id)) && id in db.records
    ensures Valid(db.(records := db.records[id := r]))
  {
  }

  lemma InsertRecordKeepsValid(db: Db, r: Record)
    requires Valid(db) && !RecordRejected(db, r, None)
    ensures Valid(db.(records := db.records[db.nextId := r], nextId := db.nextId + 1))
  {
    assert !RecordRejected(db, r, Some(db.nextId));
    WriteRecordKeepsValid(db.(nextId := db.nextId + 1), db.nextId, r);
  }

  lemma UserStatementKeepsValid(db: Db, st: Statement)
    requires st.InsertUser? || st.LinkUser? || st.SetUserActive? || st.DeleteUser?
    requires Valid(db) && Execute(db, st).Some?
    ensures Valid(Execute(db, st).value)
  {
    match st
    case InsertUser(user, u) => LinkKeepsSeparation(db, user, u);
    case LinkUser(user, link) =>
      if user in db.users { LinkKeepsSeparation(db, user, db.users[user].(personnelId := link)); }
    case SetUserActive(user, active) =>
      if user in db.users {
        OtherUserChangesKeepSeparation(db, db.users[user := db.users[user].(active := active)]);
      }
    case DeleteUser(user) =>
      OtherUserChangesKeepSeparation(db, db.users - {user});
      DeleteUserKeepsReferences(db, user);
  }

  lemma DeleteUserKeepsReferences(db: Db, user: int)
    requires ReferencesExist(db) && !UserReferenced(db, user)
    ensures ReferencesExist(db.(users := db.users - {user}))
  {
  }

  /** Whatever statements are sent, in whatever order, and however many are refused. */
  lemma ExecuteKeepsValid(db: Db, st: Statement)
    requires Valid(db) && Execute(db, st).Some?
    ensures Valid(Execute(db, st).value)
  {
    hide Valid, RecordRejected;
    match st
    case InsertRecord(r) => InsertRecordKeepsValid(db, r);
    case UpdateRecord(id, r) => if id in db.records { UpdateRecordKeepsValid(db, id, r); }
    case InsertUser(_, _) => UserStatementKeepsValid(db, st);
    case LinkUser(_, _) => UserStatementKeepsValid(db, st);
    case SetUserActive(_, _) => UserStatementKeepsValid(db, st);
    case DeleteUser(_) => UserStatementKeepsValid(db, st);
    case DeleteRecord(_) => RowStatementKeepsValid(db, st);
    case WriteAccess(_, _) => RowStatementKeepsValid(db, st);
    case DeleteAccess(_) => RowStatementKeepsValid(db, st);
    case _ => PersonStatementKeepsValid(db, st);
  }

  lemma PersonStatementKeepsValid(db: Db, st: Statement)
    requires st.InsertPerson? || st.UpdatePerson? || st.DeletePerson?
    requires Valid(db) && Execute(db, st).Some?
    ensures Valid(Execute(db, st).value)
  {
    hide SubjectTriggerRaises, UserTriggerRaises;
  }

  lemma RowStatementKeepsValid(db: Db, st: Statement)
    requires st.WriteAccess? || st.DeleteAccess? || st.DeleteRecord?
    requires Valid(db) && Execute(db, st).Some?
    ensures Valid(Execute(db, st).value)
  {
    hide SubjectTriggerRaises, UserTriggerRaises;
  }

  lemma {:induction false} RunKeepsValid(db: Db, script: seq<Statement>)
    requires Valid(db)
    ensures Valid(Run(db, script))
    decreases |script|
  {
    if script == [] {
    } else {
      var before := Run(db, script[..|script| - 1]);
      RunKeepsValid(db, script[..|script| - 1]);
      if Execute(before, script[|script| - 1]).Some? {
        ExecuteKeepsValid(before, script[|script| - 1]);
      }
    }
  }

  /** After any serial run of statements, the account that scores a record is never linked to the
      person the record is about, and no person has two open records. */
  lemma {:induction false} EveryRunIsSeparated(db: Db, script: seq<Statement>, id: nat)
    requires Valid(db) && id in Run(db, script).records
    ensures var after := Run(db, script);
            var r := after.records[id];
            && Scorer(r.seats) in after.users
            && after.users[Scorer(r.seats)].personnelId != Some(r.subject)
            && (r.IsOpen() ==> !HasOpenRecord(after.records, r.subject, Some(id)))
  {
    RunKeepsValid(db, script);
    var after := Run(db, script);
    var r := after.records[id];
    assert Scorer(r.seats) in SeatIds(r.seats);
    assert !SubjectTriggerRaises(after.users, r.subject, r.seats);
  }

  // ----- the guards refuse nothing else -----

  /** The user-side trigger refuses exactly the links that would let someone judge themselves. */
  lemma LinkGuardIsExact(db: Db, user: int, u: User)
    requires NobodyJudgesThemselves(db)
    ensures UserTriggerRaises(db, user, u.personnelId) <==>
            !NobodyJudgesThemselves(db.(users := db.users[user := u]))
  {
    var linked := db.(users := db.users[user := u]);
    if UserTriggerRaises(db, user, u.personnelId) {
      var p := u.personnelId.value;
      if p in db.access && user in SeatIds(db.access[p]) {
        assert SubjectTriggerRaises(linked.users, p, linked.access[p]);
      } else {
        var id :| id in db.records && db.records[id].subject == p && user in SeatIds(db.records[id].seats);
        assert SubjectTriggerRaises(linked.users, linked.records[id].subject, linked.records[id].seats);
      }
    } else {
      LinkKeepsSeparation(db, user, u);
    }
  }

  /** The database refuses a record, as a new row or over an old one, exactly when the chain breaks its
      checks or the table with it would not be valid. */
  lemma RecordGuardIsExact(db: Db, id: nat, r: Record)
    requires Valid(db) && id < db.nextId
    ensures RecordRejected(db, r, Some(id)) <==>
            !ChecksHold(r.seats) || !Valid(db.(records := db.records[id := r]))
  {
    var after := db.(records := db.records[id := r]);
    if RecordRejected(db, r, Some(id)) {
      assert after.records[id] == r;
      if r.IsOpen() && HasOpenRecord(db.records, r.subject, Some(id)) {
        var other :| other in db.records && Some(other) != Some(id) && db.records[other].subject == r.subject
                     && db.records[other].IsOpen();
        assert after.records[other] == db.records[other];
      }
      if CodeTaken(db.records, r.code, Some(id)) {
        var other :| other in db.records && Some(other) != Some(id) && db.records[other].code == r.code;
        assert after.records[other] == db.records[other];
      }
    } else {
      WriteRecordKeepsValid(db, id, r);
    }
  }

  /** And an access row exactly when its chain breaks its checks or would let someone judge themselves,
      or names someone who is not there. */
  lemma AccessGuardIsExact(db: Db, person: int, s: Seats)
    requires Valid(db)
    ensures AccessRejected(db, person, s) <==> !ChecksHold(s) || !Valid(db.(access := db.access[person := s]))
  {
  }

  /** A new account is refused exactly when there is one already or the tables with it would not be valid. */
  lemma UserGuardIsExact(db: Db, user: int, u: User)
    requires Valid(db)
    ensures Execute(db, InsertUser(user, u)).None? <==>
            user in db.users || !Valid(db.(users := db.users[user := u]))
  {
    LinkGuardIsExact(db, user, u);
    hide UserTriggerRaises, NobodyJudgesThemselves;
    if user !in db.users && !UserTriggerRaises(db, user, u.personnelId) {
      OthersStillExist(db, user, u);
    }
  }

  lemma OthersStillExist(db: Db, user: int, u: User)
    requires Keyed(db)
    ensures Keyed(db.(users := db.users[user := u])) <==> u.personnelId.Some? ==> u.personnelId.value in db.people
  {
    var after := db.(users := db.users[user := u]);
    assert after.users[user] == u;
  }

  /** A person or an account is refused deletion exactly when some row would be left referring to it. */
  lemma DeleteGuardsAreExact(db: Db, id: int)
    requires Valid(db)
    ensures Execute(db, DeleteUser(id)).None? <==> !ReferencesExist(db.(users := db.users - {id}))
    ensures Execute(db, DeletePerson(id)).None? <==> !ReferencesExist(db.(people := db.people - {id}))
  {
    if !UserReferenced(db, id) {
      DeleteUserKeepsReferences(db, id);
    }
    if UserReferenced(db, id) {
      LeftBehind(db, id);
    }
    DeletedPerson(db, id);
  }

  lemma LeftBehind(db: Db, user: int)
    requires UserReferenced(db, user)
    ensures !ReferencesExist(db.(users := db.users - {user}))
  {
    var after := db.(users := db.users - {user});
    assert forall s: Seats :: user in SeatIds(s) ==> !SeatsExist(after, s);
  }

  lemma DeletedPerson(db: Db, person: int)
    requires ReferencesExist(db)
    ensures PersonReferenced(db, person) <==> !ReferencesExist(db.(people := db.people - {person}))
  {
    var after := db.(people := db.people - {person});
    assert forall s: Seats :: SeatsExist(after, s) <==> SeatsExist(db, s);
  }

  // ----- what an accepted statement writes -----

  /** The two tables differ at this key at most, and there the second holds this row, or none. */
  ghost predicate NowHolds<K(!new), R>(before: map<K, R>, after: map<K, R>, key: K, row: Option<R>) {
    && (forall k | k != key :: (k in after <==> k in before) && (k in before ==> after[k] == before[k]))
    && (key in after <==> row.Some?) && (row.Some? ==> after[key] == row.value)
  }

  ghost predicate PersonWritten(db: Db, after: Db, person: int, row: Option<Person>) {
    && NowHolds(db.people, after.people, person, row)
    && after.users == db.users && after.access == db.access && after.records == db.records
    && after.nextId == db.nextId && after.nextCode == db.nextCode
  }

  ghost predicate UserWritten(db: Db, after: Db, user: int, row: Option<User>) {
    && NowHolds(db.users, after.users, user, row)
    && after.people == db.people && after.access == db.access && after.records == db.records
    && after.nextId == db.nextId && after.nextCode == db.nextCode
  }

  ghost predicate AccessWritten(db: Db, after: Db, person: int, row: Option<Seats>) {
    && NowHolds(db.access, after.access, person, row)
    && after.people == db.people && after.users == db.users && after.records == db.records
    && after.nextId == db.nextId && after.nextCode == db.nextCode
  }

  ghost predicate RecordWritten(db: Db, after: Db, id: nat, row: Option<Record>) {
    && NowHolds(db.records, after.records, id, row)
    && after.people == db.people && after.users == db.users && after.access == db.access
    && after.nextId >= db.nextId && after.nextCode == db.nextCode
  }

  /** An accepted statement leaves the one row it names as it asks, and every other row of every table as it
      was. An update of a row that is not there leaves everything. A new record gets an id never used. */
  lemma StatementWrites(db: Db, st: Statement)
    requires Keyed(db) && Execute(db, st).Some?
    ensures var after := Execute(db, st).value;
            match st
            case InsertPerson(person, p) => person !in db.people && PersonWritten(db, after, person, Some(p))
            case UpdatePerson(person, p) =>
              PersonWritten(db, after, person, if person in db.people then Some(p) else None)
            case DeletePerson(person) => PersonWritten(db, after, person, None)
            case InsertUser(user, u) => user !in db.users && UserWritten(db, after, user, Some(u))
            case LinkUser(user, link) =>
              UserWritten(db, after, user, if user in db.users then Some(User(link, db.users[user].active)) else None)
            case SetUserActive(user, active) =>
              UserWritten(db, after, user, if user in db.users then Some(User(db.users[user].personnelId, active)) else None)
            case DeleteUser(user) => UserWritten(db, after, user, None)
            case WriteAccess(person, seats) => AccessWritten(db, after, person, Some(seats))
            case DeleteAccess(person) => AccessWritten(db, after, person, None)
            case InsertRecord(r) =>
              db.nextId !in db.records && after.nextId == db.nextId + 1 && RecordWritten(db, after, db.nextId, Some(r))
            case UpdateRecord(id, r) =>
              RecordWritten(db, after, id, if id in db.records then Some(r) else None) && after.nextId == db.nextId
            case DeleteRecord(id) => RecordWritten(db, after, id, None) && after.nextId == db.nextId
  {
    hide UserTriggerRaises, RecordRejected, AccessRejected, UserReferenced, PersonReferenced, ReferencesExist;
  }

  // ----- both halves are needed, one after the other -----

  /** Two statements of different transactions, each checked against the state before both: a link, and
      an access row. */
  lemma UncoordinatedHalves(db: Db, user: int, link: int, person: int, s: Seats)
    requires Valid(db) && user in db.users
    requires Execute(db, LinkUser(user, Some(link))).Some? && Execute(db, WriteAccess(person, s)).Some?
    ensures var both := db.(users := db.users[user := db.users[user].(personnelId := Some(link))],
                            access := db.access[person := s]);
            NobodyJudgesThemselves(both) <==> !(link == person && user in SeatIds(s))
  {
    var u := db.users[user].(personnelId := Some(link));
    LinkKeepsSeparation(db, user, u);
    var linked := db.(users := db.users[user := u]);
    var both := linked.(access := db.access[person := s]);
    assert !SubjectTriggerRaises(db.users, person, s);
    if link == person && user in SeatIds(s) {
      assert user in linked.users && linked.users[user].personnelId == Some(person);
      assert SubjectTriggerRaises(linked.users, person, s);
      assert both.access[person] == s;
    } else {
      assert !SubjectTriggerRaises(linked.users, person, s);
      forall p | p in both.access ensures !SubjectTriggerRaises(both.users, p, both.access[p]) {
        assert p != person ==> !SubjectTriggerRaises(linked.users, p, linked.access[p]);
      }
    }
  }

  /** A link, and a record inserted or updated. */
  lemma UncoordinatedRecord(db: Db, user: int, link: int, id: nat, r: Record)
    requires Valid(db) && user in db.users && Execute(db, LinkUser(user, Some(link))).Some?
    requires if id in db.records then Execute(db, UpdateRecord(id, r)).Some?
             else id == db.nextId && Execute(db, InsertRecord(r)).Some?
    ensures var both := db.(users := db.users[user := db.users[user].(personnelId := Some(link))],
                            records := db.records[id := r]);
            NobodyJudgesThemselves(both) <==> !(link == r.subject && user in SeatIds(r.seats))
  {
    var u := db.users[user].(personnelId := Some(link));
    LinkKeepsSeparation(db, user, u);
    var linked := db.(users := db.users[user := u]);
    var both := linked.(records := db.records[id := r]);
    assert !SubjectTriggerRaises(db.users, r.subject, r.seats);
    hide Valid, Keyed, RecordRejected, Execute, UserTriggerRaises;
    assert both.records[id] == r;
    if link == r.subject && user in SeatIds(r.seats) {
      assert user in linked.users && linked.users[user].personnelId == Some(r.subject);
      assert SubjectTriggerRaises(linked.users, r.subject, r.seats);
    } else {
      assert !SubjectTriggerRaises(linked.users, r.subject, r.seats);
      forall i | i in both.records
        ensures !SubjectTriggerRaises(both.users, both.records[i].subject, both.records[i].seats)
      {
        assert i != id ==> both.records[i] == linked.records[i];
      }
    }
  }

  /** It can happen: one person, one account, and two statements each accepted on its own. */
  lemma SeparationCanBreak() returns (db: Db, link: Statement, write: Statement)
    ensures Valid(db) && link == LinkUser(7, Some(1)) && write == WriteAccess(1, Seats(None, None, 7))
    ensures Execute(db, link).Some? && Execute(db, write).Some?
    ensures Execute(Execute(db, link).value, write).None? && Execute(Execute(db, write).value, link).None?
    ensures !NobodyJudgesThemselves(Execute(db, link).value.(access := Execute(db, write).value.access))
  {
    var s := Seats(None, None, 7);
    db := Db(map[1 := Person("", "", false, true, 0)], map[7 := User(None, true)], map[], map[], 1, 1);
    link, write := LinkUser(7, Some(1)), WriteAccess(1, s);
    assert SeatIds(s) == {7};
    var linked := Execute(db, link).value;
    assert SubjectTriggerRaises(linked.users, 1, s);
    UncoordinatedHalves(db, 7, 1, 1, s);
  }

  /** First scorer and final approver are one person exactly when the CEO also sits on the lowest filled
      seat, or scores a chain with no lower seat whose record HR does not review or has itself been
      claimed by the CEO's account. The checks leave the CEO the supervisor's seat only; rows older than
      the checks may have the CEO as deputy. */
  lemma SingleDeciderMeans(r: Record)
    ensures SingleDecider(r) <==>
              || r.seats.supervisor == Some(r.seats.ceo)
              || (r.seats.supervisor.None? && r.seats.deputy == Some(r.seats.ceo))
              || (r.seats.supervisor.None? && r.seats.deputy.None?
                  && (r.hrReviewSkipped || r.hrUser == Some(r.seats.ceo)))
    ensures ChecksHold(r.seats) ==> r.seats.deputy != Some(r.seats.ceo)
  {
  }
}
