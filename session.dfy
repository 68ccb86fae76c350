/**
 * A council Session's hooks on the Topic Assignment records it refers to:
 * before each save, a transferred topic's forward assignment is put back to
 * "Pending Review" (`update_forward_assignments_status`); on submission every
 * row's decision is written to its Topic Assignment, and a postponed topic gets
 * a new Topic Assignment that the row forwards to (`process_session_assignments`,
 * `create_postponed_assignment`).
 */
module Session {
  import opened Wrappers
  import opened SessionRows
  import opened TopicAssignments

  const TRANSFERRED := "Transferred"
  const POSTPONED := "Postponed"
  const PENDING_REVIEW := "Pending Review"
  const ACCEPTED := "Accepted"

  /* ---------- Forward-assignment status on save ---------- */

  /** The edited rows followed by the added rows of a saved session. */
  function ChangedRows(current: seq<Row>, previous: seq<Row>): seq<Row>
  {
    var c := DetectChanges(false, current, Some(previous)).value;
    c.edited + c.added
  }

  /** The forward assignments of the transferred rows among `changed`. */
  function TransferTargets(changed: seq<Row>): set<string>
  {
    set r | r in changed && r.decisionType == TRANSFERRED :: r.forwardAssignment
  }

  /** The store after visiting `changed` in order: a transferred row's forward
      assignment is written "Pending Review" unless it already reads so. */
  function MarkPendingReview(records: map<string, TopicAssignment>, changed: seq<Row>, now: nat)
    : (m: map<string, TopicAssignment>)
    ensures m.Keys == records.Keys
  {
    if changed == [] then records
    else MarkRow(MarkPendingReview(records, changed[..|changed| - 1], now), changed[|changed| - 1], now)
  }

  /** The effect of one changed row on the Topic Assignments. */
  function MarkRow(records: map<string, TopicAssignment>, row: Row, now: nat): (r: map<string, TopicAssignment>)
    ensures r.Keys == records.Keys
    ensures forall k :: k in records && k != row.forwardAssignment ==> r[k] == records[k]
    ensures row.decisionType == TRANSFERRED && row.forwardAssignment in records ==>
      r[row.forwardAssignment].status == PENDING_REVIEW
    ensures row.decisionType != TRANSFERRED || StatusOf(records, row.forwardAssignment) == Some(PENDING_REVIEW) ==>
      r == records
  {
    if row.decisionType == TRANSFERRED && StatusOf(records, row.forwardAssignment) != Some(PENDING_REVIEW)
    then WithStatus(records, row.forwardAssignment, PENDING_REVIEW, now)
    else records
  }

  /** Visiting one more changed row is one more step. */
  lemma MarkOneMore(records: map<string, TopicAssignment>, changed: seq<Row>, i: nat, now: nat)
    requires i < |changed|
    ensures MarkPendingReview(records, changed[..i + 1], now)
         == MarkRow(MarkPendingReview(records, changed[..i], now), changed[i], now)
  {
    assert changed[..i + 1][..i] == changed[..i];
  }

  /** Reference definition, record by record: a target whose status is not
      "Pending Review" is written once; every other record is left alone. */
  function PendingReviewMarked(records: map<string, TopicAssignment>, targets: set<string>, now: nat)
    : map<string, TopicAssignment>
  {
    map k | k in records ::
      if k in targets && records[k].status != PENDING_REVIEW
      then records[k].(status := PENDING_REVIEW, modified := now)
      else records[k]
  }

  lemma {:induction false} MarkPendingReviewPointwise(
    records: map<string, TopicAssignment>, changed: seq<Row>, now: nat)
    ensures MarkPendingReview(records, changed, now)
         == PendingReviewMarked(records, TransferTargets(changed), now)
  {
    if changed != [] {
      var front, row := changed[..|changed| - 1], changed[|changed| - 1];
      MarkPendingReviewPointwise(records, front, now);
      TransferTargetsOneMore(changed);
      MarkRowStep(records, TransferTargets(front), row, now);
    }
  }

  /** The targets of the changed rows grow by the last row's forward assignment
      when that row is transferred. */
  lemma TransferTargetsOneMore(changed: seq<Row>)
    requires changed != []
    ensures var row := changed[|changed| - 1];
      TransferTargets(changed)
        == TransferTargets(changed[..|changed| - 1])
         + if row.decisionType == TRANSFERRED then {row.forwardAssignment} else {}
  {
    assert changed == changed[..|changed| - 1] + [changed[|changed| - 1]];
  }

  /** One more changed row on top of the record-by-record rule is the rule
      with that row's forward assignment added to the targets when the row is
      transferred. */
  lemma MarkRowStep(records: map<string, TopicAssignment>, targets: set<string>, row: Row, now: nat)
    ensures var added := if row.decisionType == TRANSFERRED then {row.forwardAssignment} else {};
      MarkRow(PendingReviewMarked(records, targets, now), row, now)
        == PendingReviewMarked(records, targets + added, now)
  {
    var added := if row.decisionType == TRANSFERRED then {row.forwardAssignment} else {};
    var m := MarkRow(PendingReviewMarked(records, targets, now), row, now);
    var want := PendingReviewMarked(records, targets + added, now);
    assert m.Keys == records.Keys == want.Keys;
    forall k | k in m ensures m[k] == want[k] {
    }
    assert m == want;
  }

  /** What the save hook guarantees: every transferred changed row's forward
      assignment reads "Pending Review"; records that are no such target, and
      records that already read "Pending Review", are not written; no record
      appears or disappears and only `status` (and the timestamp) can change. */
  lemma MarkPendingReviewEffect(records: map<string, TopicAssignment>, changed: seq<Row>, now: nat)
    ensures var m := MarkPendingReview(records, changed, now);
      && m.Keys == records.Keys
      && (forall r :: r in changed && r.decisionType == TRANSFERRED && r.forwardAssignment in records ==>
            m[r.forwardAssignment].status == PENDING_REVIEW)
      && (forall k :: k in records && k !in TransferTargets(changed) ==> m[k] == records[k])
      && (forall k :: k in records && records[k].status == PENDING_REVIEW ==> m[k] == records[k])
      && (forall k :: k in records ==>
            m[k] == records[k] || m[k] == records[k].(status := PENDING_REVIEW, modified := now))
  {
    MarkPendingReviewPointwise(records, changed, now);
  }

  /** Running the save hook a second time writes nothing, whatever the clock. */
  lemma MarkPendingReviewIdempotent(
    records: map<string, TopicAssignment>, changed: seq<Row>, now: nat, later: nat)
    ensures MarkPendingReview(MarkPendingReview(records, changed, now), changed, later)
         == MarkPendingReview(records, changed, now)
  {
    var once := MarkPendingReview(records, changed, now);
    MarkPendingReviewPointwise(records, changed, now);
    MarkPendingReviewPointwise(once, changed, later);
    var twice := MarkPendingReview(once, changed, later);
    assert twice.Keys == once.Keys;
    forall k | k in once ensures twice[k] == once[k] {
    }
  }

  /* ---------- Decisions on submit ---------- */

  /** `create_postponed_assignment`: the new record copies the row's title,
      description, council and topic and starts as an accepted draft. */
  function NewPostponed(row: Row, now: nat): (doc: TopicAssignment)
    ensures doc.status == ACCEPTED && !doc.submitted && doc.modified == now
    ensures doc.decision == "" && doc.decisionType == ""
    ensures && doc.title == row.title && doc.description == row.description
            && doc.council == row.council && doc.topic == row.topic
  {
    TopicAssignment(
      title := row.title, description := row.description, council := row.council,
      topic := row.topic, status := ACCEPTED, decision := "", decisionType := "",
      submitted := false, modified := now)
  }

  /** A fetched record after the row's decision is copied onto it, saved and submitted. */
  function Decided(doc: TopicAssignment, row: Row, now: nat): TopicAssignment
  {
    doc.(decision := row.decision, decisionType := row.decisionType, submitted := true, modified := now)
  }

  /** The store, the naming counter and the processed rows. */
  datatype Processed = Processed(records: map<string, TopicAssignment>, nextId: nat, rows: seq<Row>)

  /** One iteration of the submit loop: the referenced record is fetched first;
      a postponed row then gets a new record and forwards to it; finally the
      fetched record receives the decision. */
  function ProcessRow(records: map<string, TopicAssignment>, nextId: nat, row: Row, now: nat): (q: Processed)
    ensures |q.rows| == 1 && q.rows[0] == row.(forwardAssignment := q.rows[0].forwardAssignment)
    ensures row.decisionType != POSTPONED ==> q.rows[0] == row && q.nextId == nextId
  {
    var postponed := row.decisionType == POSTPONED;
    var forward := NameFor(nextId);
    var created := if postponed then records[forward := NewPostponed(row, now)] else records;
    var decided :=
      if row.topicAssignment in records
      then created[row.topicAssignment := Decided(records[row.topicAssignment], row, now)]
      else created;
    Processed(decided, if postponed then nextId + 1 else nextId, [Forwarded(row, nextId)])
  }

  /** A row as the submit loop leaves it: a postponed row forwards to the
      record created under the counter's name `nextId`. */
  function Forwarded(row: Row, nextId: nat): Row
  {
    if row.decisionType == POSTPONED then row.(forwardAssignment := NameFor(nextId)) else row
  }

  /** The submit loop over `rows`, in order. */
  function Process(records: map<string, TopicAssignment>, nextId: nat, rows: seq<Row>, now: nat): (p: Processed)
    ensures |p.rows| == |rows|
  {
    if rows == [] then Processed(records, nextId, [])
    else
      var p := Process(records, nextId, rows[..|rows| - 1], now);
      var q := ProcessRow(p.records, p.nextId, rows[|rows| - 1], now);
      Processed(q.records, q.nextId, p.rows + q.rows)
  }

  function CountPostponed(rows: seq<Row>): nat
  {
    if rows == [] then 0
    else CountPostponed(rows[..|rows| - 1]) + (if rows[|rows| - 1].decisionType == POSTPONED then 1 else 0)
  }

  function TopicAssignmentsOf(rows: seq<Row>): set<string>
  {
    set r | r in rows :: r.topicAssignment
  }

  predicate DistinctTopicAssignments(rows: seq<Row>)
  {
    forall i, j :: 0 <= i < j < |rows| ==> rows[i].topicAssignment != rows[j].topicAssignment
  }

  /** Only postponed rows change, and only in the record they forward to. */
  lemma {:induction false} ProcessRows(records: map<string, TopicAssignment>, nextId: nat, rows: seq<Row>, now: nat)
    ensures var p := Process(records, nextId, rows, now);
      && |p.rows| == |rows|
      && forall i :: 0 <= i < |rows| ==>
           p.rows[i] == if rows[i].decisionType == POSTPONED
                        then rows[i].(forwardAssignment := p.rows[i].forwardAssignment)
                        else rows[i]
  {
    if rows != [] {
      var front := rows[..|rows| - 1];
      ProcessRows(records, nextId, front, now);
      var p := Process(records, nextId, front, now);
      var all := Process(records, nextId, rows, now).rows;
      assert all == p.rows + [Forwarded(rows[|rows| - 1], p.nextId)];
      forall i | 0 <= i < |front| ensures all[i] == p.rows[i] && rows[i] == front[i] {
      }
    }
  }

  /** One new record per postponed row, and the counter stays ahead of every
      name in the store. */
  lemma {:induction false} ProcessAddsOnePerPostponed(
    records: map<string, TopicAssignment>, nextId: nat, rows: seq<Row>, now: nat)
    requires FreshFrom(records, nextId)
    ensures var p := Process(records, nextId, rows, now);
      && p.nextId == nextId + CountPostponed(rows)
      && FreshFrom(p.records, p.nextId)
      && records.Keys <= p.records.Keys
      && |p.records| == |records| + CountPostponed(rows)
  {
    if rows != [] {
      var front, row := rows[..|rows| - 1], rows[|rows| - 1];
      ProcessAddsOnePerPostponed(records, nextId, front, now);
      var p := Process(records, nextId, front, now);
      ProcessRowAdds(p.records, p.nextId, row, now);
    }
  }

  /** One iteration adds a record exactly for a postponed row, under the
      counter's free name. */
  lemma ProcessRowAdds(records: map<string, TopicAssignment>, nextId: nat, row: Row, now: nat)
    requires FreshFrom(records, nextId)
    ensures var q := ProcessRow(records, nextId, row, now);
      var added := if row.decisionType == POSTPONED then 1 else 0;
      && q.nextId == nextId + added
      && FreshFrom(q.records, q.nextId)
      && records.Keys <= q.records.Keys
      && |q.records| == |records| + added
  {
    var q := ProcessRow(records, nextId, row, now);
    if row.decisionType == POSTPONED {
      var created := records[NameFor(nextId) := NewPostponed(row, now)];
      FreshAfterInsert(records, nextId, NewPostponed(row, now));
      assert |created| == |records| + 1;
      assert q.records.Keys == created.Keys;
    } else {
      assert q.records.Keys == records.Keys;
    }
  }

  /** A record no row refers to is not touched. */
  lemma {:induction false} ProcessLeavesOthers(
    records: map<string, TopicAssignment>, nextId: nat, rows: seq<Row>, now: nat)
    requires FreshFrom(records, nextId)
    ensures var p := Process(records, nextId, rows, now);
      forall k :: k in records && k !in TopicAssignmentsOf(rows) ==> k in p.records && p.records[k] == records[k]
  {
    if rows != [] {
      var front, row := rows[..|rows| - 1], rows[|rows| - 1];
      ProcessLeavesOthers(records, nextId, front, now);
      ProcessAddsOnePerPostponed(records, nextId, front, now);
      var p := Process(records, nextId, front, now);
      var q := Process(records, nextId, rows, now);
      assert q.records == ProcessRow(p.records, p.nextId, row, now).records;
      assert TopicAssignmentsOf(rows) == TopicAssignmentsOf(front) + {row.topicAssignment};
      assert NameFor(p.nextId) !in p.records;
      forall k | k in records && k !in TopicAssignmentsOf(rows)
        ensures k in q.records && q.records[k] == records[k]
      {
        ProcessRowKeeps(p.records, p.nextId, row, now, k);
      }
    }
  }


  /** Every row's Topic Assignment ends up with the row's decision and decision
      type, submitted, and otherwise as it was before. */
  lemma {:induction false} ProcessRecordsDecisions(
    records: map<string, TopicAssignment>, nextId: nat, rows: seq<Row>, now: nat)
    requires FreshFrom(records, nextId)
    requires forall r :: r in rows ==> r.topicAssignment in records
    requires DistinctTopicAssignments(rows)
    ensures var p := Process(records, nextId, rows, now);
      forall i :: 0 <= i < |rows| ==>
        rows[i].topicAssignment in p.records &&
        p.records[rows[i].topicAssignment] == Decided(records[rows[i].topicAssignment], rows[i], now)
  {
    if rows != [] {
      var front, row := rows[..|rows| - 1], rows[|rows| - 1];
      ProcessRecordsDecisions(records, nextId, front, now);
      ProcessLeavesOthers(records, nextId, front, now);
      ProcessAddsOnePerPostponed(records, nextId, front, now);
      var p := Process(records, nextId, front, now);
      var q := Process(records, nextId, rows, now);
      assert q.records == ProcessRow(p.records, p.nextId, row, now).records;
      LastRefersToOwnRecord(rows);
      assert NameFor(p.nextId) !in p.records;
      forall i | 0 <= i < |rows|
        ensures rows[i].topicAssignment in q.records
        ensures q.records[rows[i].topicAssignment] == Decided(records[rows[i].topicAssignment], rows[i], now)
      {
        if i < |front| {
          assert rows[i] == front[i];
          ProcessRowKeeps(p.records, p.nextId, row, now, rows[i].topicAssignment);
        } else {
          ProcessRowDecides(p.records, p.nextId, row, now);
        }
      }
    }
  }

  /** With distinct references, no earlier row refers to the last row's record. */
  lemma LastRefersToOwnRecord(rows: seq<Row>)
    requires rows != [] && DistinctTopicAssignments(rows)
    ensures rows[|rows| - 1].topicAssignment !in TopicAssignmentsOf(rows[..|rows| - 1])
  {
    var front, row := rows[..|rows| - 1], rows[|rows| - 1];
    forall r | r in front ensures r.topicAssignment != row.topicAssignment {
      var i :| 0 <= i < |front| && front[i] == r;
      assert rows[i] == r;
    }
  }

  /** One iteration decides the row's own record. */
  lemma ProcessRowDecides(records: map<string, TopicAssignment>, nextId: nat, row: Row, now: nat)
    requires row.topicAssignment in records && NameFor(nextId) !in records
    ensures row.topicAssignment in ProcessRow(records, nextId, row, now).records
    ensures ProcessRow(records, nextId, row, now).records[row.topicAssignment]
         == Decided(records[row.topicAssignment], row, now)
  {
  }

  /** One iteration leaves every other existing record alone. */
  lemma ProcessRowKeeps(records: map<string, TopicAssignment>, nextId: nat, row: Row, now: nat, k: string)
    requires k in records && k != row.topicAssignment && NameFor(nextId) !in records
    ensures k in ProcessRow(records, nextId, row, now).records
    ensures ProcessRow(records, nextId, row, now).records[k] == records[k]
  {
  }


  /** A postponed row forwards to a record that did not exist before: a copy
      of the row made by `NewPostponed`. */
  lemma {:induction false} ProcessCreatesPostponed(
    records: map<string, TopicAssignment>, nextId: nat, rows: seq<Row>, now: nat)
    requires FreshFrom(records, nextId)
    requires forall r :: r in rows ==> r.topicAssignment in records
    ensures var p := Process(records, nextId, rows, now);
      && |p.rows| == |rows|
      && forall i :: 0 <= i < |rows| && rows[i].decisionType == POSTPONED ==>
           && p.rows[i].forwardAssignment !in records
           && p.rows[i].forwardAssignment in p.records
           && p.records[p.rows[i].forwardAssignment] == NewPostponed(rows[i], now)
  {
    ProcessRows(records, nextId, rows, now);
    if rows != [] {
      var front, row := rows[..|rows| - 1], rows[|rows| - 1];
      ProcessCreatesPostponed(records, nextId, front, now);
      ProcessAddsOnePerPostponed(records, nextId, front, now);
      var p := Process(records, nextId, front, now);
      assert NameFor(p.nextId) !in records && NameFor(p.nextId) !in p.records;
      var q := Process(records, nextId, rows, now);
      forall i | 0 <= i < |front| && rows[i].decisionType == POSTPONED
        ensures q.rows[i].forwardAssignment !in records
        ensures q.records[q.rows[i].forwardAssignment] == NewPostponed(rows[i], now)
      {
        assert q.rows[i] == p.rows[i] && rows[i] == front[i];
      }
    }
  }

  /** Different postponed rows forward to different new records. */
  lemma {:induction false} ProcessForwardsDistinct(
    records: map<string, TopicAssignment>, nextId: nat, rows: seq<Row>, now: nat)
    requires FreshFrom(records, nextId)
    requires forall r :: r in rows ==> r.topicAssignment in records
    ensures var p := Process(records, nextId, rows, now);
      forall i, j :: 0 <= i < j < |rows| && rows[i].decisionType == POSTPONED && rows[j].decisionType == POSTPONED ==>
        p.rows[i].forwardAssignment != p.rows[j].forwardAssignment
  {
    if rows != [] {
      var front, row := rows[..|rows| - 1], rows[|rows| - 1];
      ProcessForwardsDistinct(records, nextId, front, now);
      ProcessCreatesPostponed(records, nextId, front, now);
      ProcessAddsOnePerPostponed(records, nextId, front, now);
      var p := Process(records, nextId, front, now);
      var q := Process(records, nextId, rows, now);
      assert q.rows == p.rows + [Forwarded(row, p.nextId)];
      assert NameFor(p.nextId) !in p.records;
      forall i, j | 0 <= i < j < |rows| && rows[i].decisionType == POSTPONED && rows[j].decisionType == POSTPONED
        ensures q.rows[i].forwardAssignment != q.rows[j].forwardAssignment
      {
        assert rows[i] == front[i] && q.rows[i] == p.rows[i];
        if j < |front| {
          assert rows[j] == front[j] && q.rows[j] == p.rows[j];
        }
      }
    }
  }

  /** The submit loop over one more row is one more iteration. */
  lemma ProcessOneMore(records: map<string, TopicAssignment>, nextId: nat, rows: seq<Row>, i: nat, now: nat)
    requires i < |rows|
    ensures var p := Process(records, nextId, rows[..i], now);
      var q := ProcessRow(p.records, p.nextId, rows[i], now);
      Process(records, nextId, rows[..i + 1], now) == Processed(q.records, q.nextId, p.rows + q.rows)
  {
    assert rows[..i + 1][..i] == rows[..i];
  }

  /** Fetching, optionally inserting a postponed copy, saving and submitting
      leaves the store as one iteration of the submit loop describes. */
  lemma StoreCallsMatchProcessRow(records: map<string, TopicAssignment>, nextId: nat, row: Row, now: nat)
    requires row.topicAssignment in records
    requires FreshFrom(records, nextId)
    ensures var ta, doc := row.topicAssignment, records[row.topicAssignment];
      var created := if row.decisionType == POSTPONED then records[NameFor(nextId) := NewPostponed(row, now)] else records;
      var saved := created[ta := doc.(decision := row.decision, decisionType := row.decisionType).(modified := now)];
      saved[ta := saved[ta].(submitted := true, modified := now)] == ProcessRow(records, nextId, row, now).records
  {
    assert NameFor(nextId) != row.topicAssignment;
  }

  /** The rows after one more iteration: the processed row replaces the next input row. */
  lemma RowsOneMore(done: seq<Row>, rows: seq<Row>, next: seq<Row>)
    requires |done| < |rows| && |next| == 1
    ensures (done + rows[|done|..])[|done| := next[0]] == (done + next) + rows[|done| + 1..]
  {
  }

  /** The loop of `update_forward_assignments_status` over the edited and added rows. */
  method MarkForwardAssignments(changed: seq<Row>, store: Store, now: nat)
    requires store.Valid()
    modifies store`records
    ensures store.Valid()
    ensures store.records == MarkPendingReview(old(store.records), changed, now)
  {
    ghost var records0 := store.records;
    var i := 0;
    while i < |changed|
      invariant 0 <= i <= |changed|
      invariant store.Valid()
      invariant store.records == MarkPendingReview(records0, changed[..i], now)
    {
      MarkOneMore(records0, changed, i, now);
      MarkForwardAssignment(changed[i], store, now);
      i := i + 1;
    }
    assert changed[..i] == changed;
  }

  /** One pass of that loop: a transferred row moves its forward assignment to
      Pending Review unless it is there already. */
  method MarkForwardAssignment(assignment: Row, store: Store, now: nat)
    requires store.Valid()
    modifies store`records
    ensures store.Valid()
    ensures store.records == MarkRow(old(store.records), assignment, now)
  {
    if assignment.decisionType == TRANSFERRED {
      var oldStatus := StatusOf(store.records, assignment.forwardAssignment);
      if oldStatus != Some(PENDING_REVIEW) {
        store.SetStatus(assignment.forwardAssignment, PENDING_REVIEW, now);
      }
    }
  }

  /** The loop of `detect_assignments_changes` over the current rows' dictionary
      (`keys` in iteration order, `current` and `previous` keyed by row name). */
  method CollectEdited(keys: seq<string>, current: map<string, Row>, previous: map<string, Row>)
    returns (edited: seq<Row>)
    requires forall k :: k in keys ==> k in current
    requires forall k :: k in current ==> current[k].name == k
    ensures edited == Select(ValuesAt(keys, current), EditedSince(previous))
  {
    ghost var items := ValuesAt(keys, current);
    edited := [];
    var i := 0;
    while i < |keys|
      invariant 0 <= i <= |keys|
      invariant edited == Select(items[..i], EditedSince(previous))
    {
      var rowName := keys[i];
      var assignmentDoc := current[rowName];
      assert items[..i + 1] == items[..i] + [assignmentDoc];
      if rowName in previous && !assignmentDoc.isNew {
        var oldAssignmentDoc := previous[rowName];
        if oldAssignmentDoc.modified != assignmentDoc.modified {
          edited := edited + [assignmentDoc];
        }
      }
      i := i + 1;
    }
    assert items[..i] == items;
  }

  /* ---------- The session document ---------- */

  class Session {
    var isNew: bool
    /** The revision saved before the current change, if any. */
    var before: Option<seq<Row>>
    /** The session's topic rows. */
    var assignments: seq<Row>

    constructor (isNew: bool, before: Option<seq<Row>>, assignments: seq<Row>)
      ensures this.isNew == isNew && this.before == before && this.assignments == assignments
    {
      this.isNew := isNew;
      this.before := before;
      this.assignments := assignments;
    }

    /** `detect_assignments_changes`. */
    method DetectAssignmentsChanges() returns (r: Option<Changes>)
      requires isNew || before.Some?
      ensures r == DetectChanges(isNew, assignments, before)
    {
      if isNew {
        return None;
      }
      var oldAssignments := ByName(before.value);
      var currentAssignments := ByName(assignments);
      var deleted := Select(before.value, NameNotIn(currentAssignments.Keys));
      var added := Select(assignments, FlaggedNew);
      var edited := CollectEdited(KeyOrder(assignments), currentAssignments, oldAssignments);
      r := Some(Changes(edited, added, deleted));
    }

    /** `update_forward_assignments_status`, run before every save of a session
        that has been saved before. */
    method UpdateForwardAssignmentsStatus(store: Store, now: nat)
      requires !isNew && before.Some?
      requires store.Valid()
      modifies store`records
      ensures store.Valid()
      ensures store.records == MarkPendingReview(old(store.records), ChangedRows(assignments, before.value), now)
    {
      var changes := DetectAssignmentsChanges();
      var changedAssignments := changes.value.edited + changes.value.added;
      MarkForwardAssignments(changedAssignments, store, now);
    }

    /** `create_postponed_assignment`: inserts an accepted draft copied from the row. */
    method CreatePostponedAssignment(sessionAssignment: Row, store: Store, now: nat) returns (name: string)
      requires store.Valid()
      modifies store
      ensures store.Valid()
      ensures name == NameFor(old(store.nextId)) && name !in old(store.records)
      ensures store.records == old(store.records)[name := NewPostponed(sessionAssignment, now)]
      ensures store.nextId == old(store.nextId) + 1
      ensures var doc := store.records[name];
        && doc.status == ACCEPTED && !doc.submitted
        && doc.title == sessionAssignment.title && doc.description == sessionAssignment.description
        && doc.council == sessionAssignment.council && doc.topic == sessionAssignment.topic
    {
      name := store.Insert(NewPostponed(sessionAssignment, now));
    }

    /** One pass of the submit loop over row `i`: fetch the row's Topic
        Assignment; for a postponed row create the new record and forward the
        row to it; copy the decision onto the fetched record, save and submit it. */
    method ProcessSessionAssignment(i: nat, store: Store, now: nat)
      requires i < |assignments|
      requires store.Valid()
      requires assignments[i].topicAssignment in store.records
      requires !store.records[assignments[i].topicAssignment].submitted
      modifies this`assignments, store
      ensures store.Valid()
      ensures var q := ProcessRow(old(store.records), old(store.nextId), old(assignments[i]), now);
        store.records == q.records && store.nextId == q.nextId && assignments == old(assignments)[i := q.rows[0]]
    {
      var sessionAssignment := assignments[i];
      StoreCallsMatchProcessRow(store.records, store.nextId, sessionAssignment, now);
      var sessionAssignmentDoc := store.records[sessionAssignment.topicAssignment];
      if sessionAssignment.decisionType == POSTPONED {
        var docAssignment := CreatePostponedAssignment(sessionAssignment, store, now);
        assignments := assignments[i := sessionAssignment.(forwardAssignment := docAssignment)];
      }
      store.Save(sessionAssignment.topicAssignment,
        sessionAssignmentDoc.(decision := sessionAssignment.decision, decisionType := sessionAssignment.decisionType),
        now);
      store.Submit(sessionAssignment.topicAssignment, now);
    }

    /** `process_session_assignments`, run when the session is submitted. Every
        row must refer to its own existing draft Topic Assignment: fetching a
        missing record, and saving or submitting a submitted one, raise. */
    method ProcessSessionAssignments(store: Store, now: nat)
      requires store.Valid()
      requires forall r :: r in assignments ==>
        r.topicAssignment in store.records && !store.records[r.topicAssignment].submitted
      requires DistinctTopicAssignments(assignments)
      modifies this`assignments, store
      ensures store.Valid()
      ensures Processed(store.records, store.nextId, assignments)
           == Process(old(store.records), old(store.nextId), old(assignments), now)
    {
      var sessionAssignments := assignments;
      ghost var records0, next0 := store.records, store.nextId;
      ghost var p := Processed(records0, next0, []);
      var i := 0;
      while i < |sessionAssignments|
        invariant 0 <= i <= |sessionAssignments|
        invariant p == Process(records0, next0, sessionAssignments[..i], now)
        invariant store.Valid() && store.records == p.records && store.nextId == p.nextId
        invariant assignments == p.rows + sessionAssignments[i..]
      {
        ProcessOneMore(records0, next0, sessionAssignments, i, now);
        ProcessLeavesOthers(records0, next0, sessionAssignments[..i], now);
        ProcessRows(records0, next0, sessionAssignments[..i], now);
        ghost var q := ProcessRow(p.records, p.nextId, sessionAssignments[i], now);
        RowsOneMore(p.rows, sessionAssignments, q.rows);
        ProcessSessionAssignment(i, store, now);
        p := Processed(q.records, q.nextId, p.rows + q.rows);
        i := i + 1;
      }
      assert sessionAssignments[..i] == sessionAssignments;
    }
  }
}
