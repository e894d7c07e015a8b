/** Archiving the final PDF: any number of transactions check, render, insert or re-read, and commit
    or abort, in any interleaving, over a table with one unique column. */
module Documents {
  import opened Wrappers

  type Bytes = seq<bv8>
  type Sha = Bytes -> string

  datatype Document = Document(id: nat, record: nat, bytes: Bytes, sha256: string)

  /** A row is seen by everyone once committed, and before that only by the transaction that owns it. */
  datatype Stored = Stored(doc: Document, owner: Option<nat>)

  /** How far a transaction's current call has come. */
  datatype Call = Idle | Checked(record: nat) | Rendered(record: nat, bytes: Bytes) | Conflicted(record: nat)

  datatype Fate = Open | Committed | Aborted

  datatype Txn = Txn(fate: Fate, call: Call, returned: map<nat, Option<Document>>)

  datatype State = State(rows: map<nat, Stored>, txns: map<nat, Txn>, nextId: nat)

  const START := State(map[], map[], 1)

  predicate Sees(r: Stored, t: nat) {
    r.owner == None || r.owner == Some(t)
  }

  /** get_document: a row for the record, as this transaction sees the table. */
  ghost function GetDocument(s: State, t: nat, record: nat): (d: Option<Document>)
    ensures d.Some? ==> d.value.record == record
                        && exists id :: id in s.rows && s.rows[id].doc == d.value && Sees(s.rows[id], t)
    ensures d.None? ==> forall id | id in s.rows && Sees(s.rows[id], t) :: s.rows[id].doc.record != record
  {
    if exists id :: id in s.rows && Sees(s.rows[id], t) && s.rows[id].doc.record == record then
      var id :| id in s.rows && Sees(s.rows[id], t) && s.rows[id].doc.record == record;
      Some(s.rows[id].doc)
    else None
  }

  predicate CommittedRow(s: State, record: nat) {
    exists id | id in s.rows :: s.rows[id].owner == None && s.rows[id].doc.record == record
  }

  predicate RivalRow(s: State, t: nat, record: nat) {
    exists id | id in s.rows :: !Sees(s.rows[id], t) && s.rows[id].doc.record == record
  }

  predicate OwnRow(s: State, t: nat, record: nat) {
    exists id | id in s.rows :: s.rows[id].owner == Some(t) && s.rows[id].doc.record == record
  }

  datatype Step =
    | Begin(t: nat)
    | Check(t: nat, record: nat)
    | Render(t: nat, bytes: Bytes)
    | GiveUp(t: nat)
    | InsertRow(t: nat)
    | Reread(t: nat)
    | Commit(t: nat)
    | Abort(t: nat)

  function Finish(s: State, t: nat, x: Txn, record: nat, d: Option<Document>): State {
    s.(txns := s.txns[t := x.(call := Idle, returned := x.returned[record := d])])
  }

  /** The next state, or None when the step cannot be taken now. An insert waits while another
      transaction holds an uncommitted row for the record. */
  ghost function Next(sha: Sha, s: State, step: Step): Option<State> {
    if step.Begin? then
      if step.t in s.txns then None else Some(s.(txns := s.txns[step.t := Txn(Open, Idle, map[])]))
    else if step.t !in s.txns || s.txns[step.t].fate != Open then None
    else
      var x := s.txns[step.t];
      match step
      case Check(t, record) =>
        if !x.call.Idle? then None
        else
          var existing := GetDocument(s, t, record);
          if existing.Some? then Some(Finish(s, t, x, record, existing))
          else Some(s.(txns := s.txns[t := x.(call := Checked(record))]))
      case GiveUp(t) =>
        if x.call.Checked? then Some(Finish(s, t, x, x.call.record, None)) else None
      case Render(t, bytes) =>
        if x.call.Checked? then Some(s.(txns := s.txns[t := x.(call := Rendered(x.call.record, bytes))])) else None
      case InsertRow(t) =>
        if !x.call.Rendered? || RivalRow(s, t, x.call.record) then None
        else if CommittedRow(s, x.call.record) || OwnRow(s, t, x.call.record) then
          Some(s.(txns := s.txns[t := x.(call := Conflicted(x.call.record))], nextId := s.nextId + 1))
        else
          var doc := Document(s.nextId, x.call.record, x.call.bytes, sha(x.call.bytes));
          var stored := s.(rows := s.rows[s.nextId := Stored(doc, Some(t))], nextId := s.nextId + 1);
          Some(Finish(stored, t, x, x.call.record, Some(doc)))
      case Reread(t) =>
        if x.call.Conflicted? then Some(Finish(s, t, x, x.call.record, GetDocument(s, t, x.call.record))) else None
      case Commit(t) =>
        if x.call.Idle?
        then Some(State(Settled(s.rows, t), s.txns[t := x.(fate := Committed)], s.nextId))
        else None
      case Abort(t) =>
        Some(State(Dropped(s.rows, t), s.txns[t := x.(fate := Aborted, call := Idle)], s.nextId))
      case Begin(_) => None
  }

  function Settled(rows: map<nat, Stored>, t: nat): map<nat, Stored> {
    map id | id in rows :: if rows[id].owner == Some(t) then rows[id].(owner := None) else rows[id]
  }

  function Dropped(rows: map<nat, Stored>, t: nat): map<nat, Stored> {
    map id | id in rows && rows[id].owner != Some(t) :: rows[id]
  }

  ghost function Run(sha: Sha, steps: seq<Step>): Option<State> {
    if steps == [] then Some(START)
    else
      var before := Run(sha, steps[..|steps| - 1]);
      if before.None? then None else Next(sha, before.value, steps[|steps| - 1])
  }

  // ----- what every reachable state keeps -----

  /** At most one row per record, counting uncommitted ones; ids and hashes are the rows' own. */
  ghost predicate TableInv(sha: Sha, s: State) {
    && (forall i, j | i in s.rows && j in s.rows && i != j :: s.rows[i].doc.record != s.rows[j].doc.record)
    && (forall i | i in s.rows ::
          && i == s.rows[i].doc.id < s.nextId
          && s.rows[i].doc.sha256 == sha(s.rows[i].doc.bytes)
          && (s.rows[i].owner.Some? ==>
                s.rows[i].owner.value in s.txns && s.txns[s.rows[i].owner.value].fate == Open))
  }

  /** A document a live or committed transaction returned is a row it sees; once committed, a row
      everyone sees. A transaction that met a conflict can read the row that caused it. */
  ghost predicate TxnInv(s: State, t: nat)
    requires t in s.txns
  {
    var x := s.txns[t];
    && (forall record | record in x.returned && x.returned[record].Some? && x.fate != Aborted ::
          var d := x.returned[record].value;
          && d.record == record && d.id in s.rows && s.rows[d.id].doc == d
          && (if x.fate == Committed then s.rows[d.id].owner == None else Sees(s.rows[d.id], t)))
    && (x.call.Conflicted? && x.fate == Open ==> CommittedRow(s, x.call.record))
    && (x.fate == Open && (x.call.Checked? || x.call.Rendered?) ==> !OwnRow(s, t, x.call.record))
  }

  ghost predicate Inv(sha: Sha, s: State) {
    TableInv(sha, s) && forall t | t in s.txns :: TxnInv(s, t)
  }

  /** A step leaves other transactions' promises standing as long as it only adds rows, turns its own
      rows public, or drops its own. */
  lemma OthersKeep(s: State, s': State, t: nat, u: nat)
    requires u in s.txns && u in s'.txns && u != t && s'.txns[u] == s.txns[u] && TxnInv(s, u)
    requires forall id | id in s.rows && s.rows[id].owner != Some(t) :: id in s'.rows && s'.rows[id] == s.rows[id]
    requires forall id | id in s'.rows && s'.rows[id].owner == Some(u) :: id in s.rows && s.rows[id] == s'.rows[id]
    ensures TxnInv(s', u)
  {
  }

  /** Steps that leave the rows alone and close nobody. */
  lemma QuietStepKeepsTable(sha: Sha, s: State, s': State, t: nat)
    requires TableInv(sha, s) && s'.rows == s.rows && s'.nextId >= s.nextId
    requires forall u | u in s.txns :: u in s'.txns && (s.txns[u].fate == Open ==> s'.txns[u].fate == Open)
    ensures TableInv(sha, s')
  {
  }

  lemma InsertKeepsTable(sha: Sha, s: State, s': State, t: nat, doc: Document)
    requires TableInv(sha, s) && t in s.txns && t in s'.txns && s'.txns[t].fate == Open
    requires forall u | u in s.txns && u != t :: u in s'.txns && s'.txns[u] == s.txns[u]
    requires !CommittedRow(s, doc.record) && !OwnRow(s, t, doc.record) && !RivalRow(s, t, doc.record)
    requires doc.id == s.nextId && doc.sha256 == sha(doc.bytes)
    requires s'.rows == s.rows[s.nextId := Stored(doc, Some(t))] && s'.nextId == s.nextId + 1
    ensures TableInv(sha, s')
  {
  }

  lemma EndKeepsTable(sha: Sha, s: State, s': State, t: nat)
    requires TableInv(sha, s) && t in s.txns
    requires forall u | u in s.txns && u != t :: u in s'.txns && s'.txns[u] == s.txns[u]
    requires s'.rows == Settled(s.rows, t) || s'.rows == Dropped(s.rows, t)
    requires s'.nextId == s.nextId
    ensures TableInv(sha, s')
  {
    forall id | id in s'.rows ensures s'.rows[id].doc == s.rows[id].doc {}
  }

  lemma StepKeepsTable(sha: Sha, s: State, step: Step)
    requires Inv(sha, s) && Next(sha, s, step).Some?
    ensures TableInv(sha, Next(sha, s, step).value)
  {
    var s' := Next(sha, s, step).value;
    match step
    case Commit(t) => EndKeepsTable(sha, s, s', t);
    case Abort(t) => EndKeepsTable(sha, s, s', t);
    case InsertRow(t) =>
      if s'.txns[t].call.Conflicted? {
        QuietStepKeepsTable(sha, s, s', t);
      } else {
        var record := s.txns[t].call.record;
        InsertKeepsTable(sha, s, s', t, s'.txns[t].returned[record].value);
      }
    case _ => QuietStepKeepsTable(sha, s, s', step.t);
  }

  lemma StepKeepsOwn(sha: Sha, s: State, step: Step)
    requires Inv(sha, s) && Next(sha, s, step).Some?
    ensures step.t in Next(sha, s, step).value.txns && TxnInv(Next(sha, s, step).value, step.t)
  {
    var s' := Next(sha, s, step).value;
    if step.t in s.txns {
      assert TxnInv(s, step.t);
    }
    if step.InsertRow? && s'.txns[step.t].call.Conflicted? {
      assert CommittedRow(s, s.txns[step.t].call.record);
      var id :| id in s.rows && s.rows[id].owner == None && s.rows[id].doc.record == s.txns[step.t].call.record;
      assert s'.rows[id] == s.rows[id];
    }
  }

  lemma StepKeepsInv(sha: Sha, s: State, step: Step)
    requires Inv(sha, s) && Next(sha, s, step).Some?
    ensures Inv(sha, Next(sha, s, step).value)
  {
    var s' := Next(sha, s, step).value;
    StepKeepsTable(sha, s, step);
    StepKeepsOwn(sha, s, step);
    forall u | u in s'.txns && u != step.t ensures TxnInv(s', u) {
      OthersKeep(s, s', step.t, u);
    }
  }

  lemma {:induction false} RunKeepsInv(sha: Sha, steps: seq<Step>)
    requires Run(sha, steps).Some?
    ensures Inv(sha, Run(sha, steps).value)
  {
    if steps == [] {
    } else {
      RunKeepsInv(sha, steps[..|steps| - 1]);
      StepKeepsInv(sha, Run(sha, steps[..|steps| - 1]).value, steps[|steps| - 1]);
    }
  }

  /** In every interleaving: one row per record at most, and a committed transaction that returned a
      document returned the row that stands for that record, with its hash. */
  lemma {:induction false} EveryInterleavingAgrees(sha: Sha, steps: seq<Step>)
    requires Run(sha, steps).Some?
    ensures var s := Run(sha, steps).value;
            && (forall i, j | i in s.rows && j in s.rows && s.rows[i].doc.record == s.rows[j].doc.record :: i == j)
            && (forall t, record | t in s.txns && s.txns[t].fate == Committed
                  && record in s.txns[t].returned && s.txns[t].returned[record].Some? ::
                  var d := s.txns[t].returned[record].value;
                  && d.id in s.rows && s.rows[d.id] == Stored(d, None)
                  && d.record == record && d.sha256 == sha(d.bytes))
  {
    RunKeepsInv(sha, steps);
    var s := Run(sha, steps).value;
    forall t, record | t in s.txns && s.txns[t].fate == Committed
                  && record in s.txns[t].returned && s.txns[t].returned[record].Some?
      ensures var d := s.txns[t].returned[record].value;
                  && d.id in s.rows && s.rows[d.id] == Stored(d, None)
                  && d.record == record && d.sha256 == sha(d.bytes)
    {
      assert TxnInv(s, t);
    }
  }

  lemma {:induction false} StepKeepsCommitted(sha: Sha, steps: seq<Step>, s: State, step: Step, id: nat)
    requires Run(sha, steps) == Some(s) && Next(sha, s, step).Some?
    requires id in s.rows && s.rows[id].owner == None
    ensures id in Next(sha, s, step).value.rows && Next(sha, s, step).value.rows[id] == s.rows[id]
  {
    RunKeepsInv(sha, steps);
    assert id < s.nextId;
  }

  /** A committed row is never changed or removed by anything that happens later. */
  lemma {:induction false} CommittedRowsAreForever(sha: Sha, steps: seq<Step>, more: seq<Step>, id: nat)
    requires Run(sha, steps + more).Some? && Run(sha, steps).Some?
    requires id in Run(sha, steps).value.rows && Run(sha, steps).value.rows[id].owner == None
    ensures id in Run(sha, steps + more).value.rows
    ensures Run(sha, steps + more).value.rows[id] == Run(sha, steps).value.rows[id]
    decreases |more|
  {
    if more == [] {
      assert steps + more == steps;
    } else {
      var n := |more| - 1;
      assert (steps + more)[..|steps + more| - 1] == steps + more[..n];
      var before := Run(sha, steps + more[..n]);
      assert before.Some? && Run(sha, steps + more) == Next(sha, before.value, more[n]);
      CommittedRowsAreForever(sha, steps, more[..n], id);
      StepKeepsCommitted(sha, steps + more[..n], before.value, more[n], id);
    }
  }

  /** An insert that the unique column refused is never answered with nothing: the re-read finds the
      row that won. */
  lemma {:induction false} RereadFindsTheWinner(sha: Sha, steps: seq<Step>, t: nat)
    requires Run(sha, steps).Some? && t in Run(sha, steps).value.txns
    requires Run(sha, steps).value.txns[t].fate == Open && Run(sha, steps).value.txns[t].call.Conflicted?
    ensures var s := Run(sha, steps).value;
            var d := GetDocument(s, t, s.txns[t].call.record);
            d.Some? && exists id :: id in s.rows && s.rows[id] == Stored(d.value, None)
  {
    RunKeepsInv(sha, steps);
    var s := Run(sha, steps).value;
    assert TxnInv(s, t);
    var id :| id in s.rows && s.rows[id].owner == None && s.rows[id].doc.record == s.txns[t].call.record;
    var d := GetDocument(s, t, s.txns[t].call.record);
    assert Sees(s.rows[id], t);
    assert s.rows[id] == Stored(d.value, None);
  }

  // ----- where the bytes come from -----

  /** Step k is where transaction t, having found nothing archived for the record, rendered these bytes. */
  ghost predicate RenderedAt(sha: Sha, steps: seq<Step>, k: nat, t: nat, record: nat, bytes: Bytes) {
    && k < |steps| && steps[k] == Render(t, bytes) && Run(sha, steps[..k]).Some?
    && t in Run(sha, steps[..k]).value.txns && Run(sha, steps[..k]).value.txns[t].call == Checked(record)
  }

  ghost predicate RenderedBy(sha: Sha, steps: seq<Step>, t: nat, record: nat, bytes: Bytes) {
    exists k: nat :: RenderedAt(sha, steps, k, t, record, bytes)
  }

  /** The row's owner rendered it; for a committed row, some transaction that has committed. */
  ghost predicate RowTraced(sha: Sha, steps: seq<Step>, s: State, r: Stored) {
    exists t :: RenderedBy(sha, steps, t, r.doc.record, r.doc.bytes)
                && (if r.owner.Some? then r.owner == Some(t) else t in s.txns && s.txns[t].fate == Committed)
  }

  ghost predicate Traced(sha: Sha, steps: seq<Step>, s: State) {
    && (forall id | id in s.rows :: RowTraced(sha, steps, s, s.rows[id]))
    && (forall t | t in s.txns && s.txns[t].call.Rendered? ::
          RenderedBy(sha, steps, t, s.txns[t].call.record, s.txns[t].call.bytes))
  }

  lemma {:induction false} StillRendered(sha: Sha, steps: seq<Step>, step: Step, t: nat, record: nat, bytes: Bytes)
    requires RenderedBy(sha, steps, t, record, bytes)
    ensures RenderedBy(sha, steps + [step], t, record, bytes)
  {
    var k: nat :| RenderedAt(sha, steps, k, t, record, bytes);
    assert (steps + [step])[..k] == steps[..k];
    assert RenderedAt(sha, steps + [step], k, t, record, bytes);
  }

  lemma {:induction false} RowStaysTraced(sha: Sha, steps: seq<Step>, step: Step, s: State, s': State, r: Stored)
    requires RowTraced(sha, steps, s, r)
    requires forall t | t in s.txns && s.txns[t].fate == Committed :: t in s'.txns && s'.txns[t].fate == Committed
    ensures RowTraced(sha, steps + [step], s', r)
  {
    var t :| RenderedBy(sha, steps, t, r.doc.record, r.doc.bytes)
             && (if r.owner.Some? then r.owner == Some(t) else t in s.txns && s.txns[t].fate == Committed);
    StillRendered(sha, steps, step, t, r.doc.record, r.doc.bytes);
  }

  /** Where a row after a step comes from: it was there, its owner has just committed it, or it has just been
      inserted with the bytes rendered. No commit is undone. */
  lemma StepMakesRows(sha: Sha, s: State, step: Step, id: nat)
    requires Next(sha, s, step).Some? && id in Next(sha, s, step).value.rows
    ensures var s' := Next(sha, s, step).value;
            var r := s'.rows[id];
            && (forall t | t in s.txns && s.txns[t].fate == Committed :: t in s'.txns && s'.txns[t].fate == Committed)
            && ((id in s.rows && s.rows[id] == r)
                || (id in s.rows && s.rows[id] == Stored(r.doc, Some(step.t)) && r.owner == None
                    && step.t in s'.txns && s'.txns[step.t].fate == Committed)
                || (r.owner == Some(step.t) && step.t in s.txns
                    && s.txns[step.t].call == Rendered(r.doc.record, r.doc.bytes)))
  {
  }

  lemma {:induction false} StepKeepsRowsTraced(sha: Sha, steps: seq<Step>, step: Step, s: State, id: nat)
    requires Run(sha, steps) == Some(s) && Traced(sha, steps, s) && Next(sha, s, step).Some?
    requires id in Next(sha, s, step).value.rows
    ensures RowTraced(sha, steps + [step], Next(sha, s, step).value, Next(sha, s, step).value.rows[id])
  {
    var s' := Next(sha, s, step).value;
    var r := s'.rows[id];
    StepMakesRows(sha, s, step, id);
    hide Next, Run, RenderedBy;
    if id in s.rows && s.rows[id] == r {
      RowStaysTraced(sha, steps, step, s, s', r);
    } else {
      assert id in s.rows ==> RowTraced(sha, steps, s, s.rows[id]);
      StillRendered(sha, steps, step, step.t, r.doc.record, r.doc.bytes);
    }
  }

  lemma {:induction false} StepKeepsCallsTraced(sha: Sha, steps: seq<Step>, step: Step, s: State, t: nat)
    requires Run(sha, steps) == Some(s) && Traced(sha, steps, s) && Next(sha, s, step).Some?
    requires t in Next(sha, s, step).value.txns && Next(sha, s, step).value.txns[t].call.Rendered?
    ensures var call := Next(sha, s, step).value.txns[t].call; RenderedBy(sha, steps + [step], t, call.record, call.bytes)
  {
    var call := Next(sha, s, step).value.txns[t].call;
    if t in s.txns && s.txns[t].call == call {
      StillRendered(sha, steps, step, t, call.record, call.bytes);
    } else {
      assert step == Render(t, call.bytes) && s.txns[t].call == Checked(call.record);
      assert (steps + [step])[..|steps|] == steps;
      assert RenderedAt(sha, steps + [step], |steps|, t, call.record, call.bytes);
    }
  }

  /** In every interleaving, the bytes of every row are bytes that a transaction rendered for that record
      after finding nothing archived: its owner, or for a committed row one that has committed. */
  lemma {:induction false} BytesWereRendered(sha: Sha, steps: seq<Step>)
    requires Run(sha, steps).Some?
    ensures Traced(sha, steps, Run(sha, steps).value)
  {
    if steps == [] {
    } else {
      var earlier, step := steps[..|steps| - 1], steps[|steps| - 1];
      BytesWereRendered(sha, earlier);
      var s, s' := Run(sha, earlier).value, Run(sha, steps).value;
      assert steps == earlier + [step];
      forall id | id in s'.rows ensures RowTraced(sha, steps, s', s'.rows[id]) {
        StepKeepsRowsTraced(sha, earlier, step, s, id);
      }
      forall t | t in s'.txns && s'.txns[t].call.Rendered?
        ensures RenderedBy(sha, steps, t, s'.txns[t].call.record, s'.txns[t].call.bytes)
      {
        StepKeepsCallsTraced(sha, earlier, step, s, t);
      }
    }
  }

  // ----- one call, step by step -----

  predicate OneEach(table: seq<Document>) {
    forall i, j :: 0 <= i < j < |table| ==> table[i].record != table[j].record
  }

  /** The table as one session sees it while archive_final_pdf runs. */
  class Archive {
    const sha: Sha
    var table: seq<Document>

    constructor (sha: Sha)
      ensures table == [] && this.sha == sha
    {
      this.sha := sha;
      table := [];
    }

    method Get(record: nat) returns (d: Option<Document>)
      ensures d.Some? ==> d.value in table && d.value.record == record
      ensures d.None? ==> forall i :: 0 <= i < |table| ==> table[i].record != record
    {
      for i := 0 to |table|
        invariant forall j :: 0 <= j < i ==> table[j].record != record
      {
        if table[i].record == record {
          return Some(table[i]);
        }
      }
      return None;
    }

    /** `rendered` is what the renderer makes, None when it raises; `rivals` are the rows that other
        sessions commit while it works. Nothing already in the table changes, at most one row is
        added for this record, and nothing is returned only when there was nothing to return. */
    method ArchiveFinalPdf(record: nat, id: nat, available: bool, rendered: Option<Bytes>, rivals: seq<Document>)
      returns (d: Option<Document>)
      requires OneEach(table) && OneEach(table + rivals)
      modifies this
      ensures OneEach(table) && old(table) <= table
      ensures d.Some? ==> d.value in table && d.value.record == record
      ensures d.None? <==> (!available || rendered.None?) && forall i :: 0 <= i < |old(table)| ==> old(table)[i].record != record
      ensures table == old(table)
           || table == old(table) + rivals
           || (rendered.Some? && d == Some(Document(id, record, rendered.value, sha(rendered.value)))
               && table == old(table) + rivals + [d.value])
      ensures (exists i :: 0 <= i < |old(table)| && old(table)[i].record == record) ==> table == old(table)
    {
      d := Get(record);
      if d.Some? || !available || rendered.None? {
        return;
      }
      var document := Document(id, record, rendered.value, sha(rendered.value));
      table := table + rivals;
      var taken := Get(record);
      if taken.Some? {
        return taken;
      }
      table := table + [document];
      return Some(document);
    }
  }
}
