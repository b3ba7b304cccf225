/**
 * Manual rep assignments (`/api/rep-assignments`). An assignment links a
 * registration to a rep; a manual assignment replaces every assignment the
 * registration already has, or creates one when it has none. The bulk form
 * does the same for a list of registrations, one after the other, and
 * reports for each whether it updated or created.
 */
module RepAssignments {
  import opened Values
  import opened Tables
  import opened Schema

  /** The body of `POST /assign`. */
  datatype AssignRequest = AssignRequest(registrationId: Value, repId: Value, assignedBy: Value)

  /** The body of `POST /bulk-assign`. */
  datatype BulkRequest = BulkRequest(registrationIds: Value, repId: Value, assignedBy: Value)

  datatype AssignError =
    | IdsRequired
    | RegistrationIdsRequired
    | RepIdRequired
    | AssignmentNotFound
    | ServerError

  function Status(e: AssignError): int {
    match e
    case IdsRequired => 400
    case RegistrationIdsRequired => 400
    case RepIdRequired => 400
    case AssignmentNotFound => 404
    case ServerError => 500
  }

  /** What a manual assignment writes besides the registration: the rep, who assigned, and when. */
  datatype Grant = Grant(repId: Value, assignedBy: Value, now: int)

  /** One entry of the bulk answer's `results`. */
  datatype Action = Updated | Created

  datatype BulkResult = BulkResult(registrationId: Value, action: Action)

  // ---------------------------------------------------------------------------
  // The upsert both handlers perform

  /** `WHERE registration_id = ?` */
  function ForRegistration(registrationId: Value): Row<Assignment> -> bool {
    (a: Row<Assignment>) => Matches(a.data.registrationId, registrationId)
  }

  predicate HasAssignment(rows: seq<Row<Assignment>>, registrationId: Value) {
    exists i :: 0 <= i < |rows| && ForRegistration(registrationId)(rows[i])
  }

  /** `SET rep_id = ?, assignment_type = 'manual', assigned_by = ?, assigned_at = CURRENT_TIMESTAMP` */
  function Reassign(g: Grant): Assignment -> Assignment {
    (d: Assignment) =>
      d.(repId := Bind(g.repId), assignmentType := Manual, assignedBy := Bind(Or(g.assignedBy, Null)), assignedAt := g.now)
  }

  /** The row `INSERT INTO rep_assignments` adds for a registration without one. */
  function Inserted(registrationId: Value, g: Grant): Assignment {
    Assignment(Bind(registrationId), Bind(g.repId), Manual, Bind(Or(g.assignedBy, Null)), g.now)
  }

  function ActionFor(rows: seq<Row<Assignment>>, registrationId: Value): Action {
    if First(rows, ForRegistration(registrationId)).Some? then Updated else Created
  }

  /** The table after the upsert of one registration. */
  function UpsertRows(rows: seq<Row<Assignment>>, next: int, registrationId: Value, g: Grant): seq<Row<Assignment>> {
    if ActionFor(rows, registrationId) == Updated then Update(rows, ForRegistration(registrationId), Reassign(g))
    else rows + [Row(next, Inserted(registrationId, g))]
  }

  function NextAfter(next: int, action: Action): int {
    if action == Created then next + 1 else next
  }

  /** Look for an assignment of the registration; rewrite every one found, else insert one. */
  method Upsert(db: Database, registrationId: Value, g: Grant) returns (action: Action)
    requires db.AssignmentsValid()
    modifies db`assignments, db`nextAssignmentId
    ensures db.AssignmentsValid()
    ensures action == ActionFor(old(db.assignments), registrationId)
    ensures db.assignments == UpsertRows(old(db.assignments), old(db.nextAssignmentId), registrationId, g)
    ensures db.nextAssignmentId == NextAfter(old(db.nextAssignmentId), action)
  {
    var existing := First(db.assignments, ForRegistration(registrationId));
    if existing.Some? {
      UpdateKeyed(db.assignments, ForRegistration(registrationId), Reassign(g), db.nextAssignmentId);
      db.assignments := Update(db.assignments, ForRegistration(registrationId), Reassign(g));
      action := Updated;
    } else {
      InsertKeyed(db.assignments, db.nextAssignmentId, Inserted(registrationId, g));
      db.assignments := db.assignments + [Row(db.nextAssignmentId, Inserted(registrationId, g))];
      db.nextAssignmentId := db.nextAssignmentId + 1;
      action := Created;
    }
  }

  /** Every assignment of the registration names the rep, as a manual one. */
  ghost predicate AllPointTo(rows: seq<Row<Assignment>>, registrationId: Value, g: Grant) {
    forall i :: 0 <= i < |rows| && ForRegistration(registrationId)(rows[i]) ==>
      rows[i].data.repId == Bind(g.repId) && rows[i].data.assignmentType == Manual
  }

  /**
   * For a registration id that is not null, the upsert leaves the
   * registration assigned, and only to the rep; an update rewrites in place
   * and adds no row, a create appends exactly one; the assignments of every
   * other registration are kept as they were.
   */
  lemma UpsertSpec(rows: seq<Row<Assignment>>, next: int, registrationId: Value, g: Grant)
    requires Bind(registrationId) != Null
    ensures var after := UpsertRows(rows, next, registrationId, g);
      && HasAssignment(after, registrationId)
      && AllPointTo(after, registrationId, g)
      && (ActionFor(rows, registrationId) == Updated <==> HasAssignment(rows, registrationId))
      && (ActionFor(rows, registrationId) == Updated ==> |after| == |rows|)
      && (ActionFor(rows, registrationId) == Created ==> after == rows + [Row(next, Inserted(registrationId, g))])
      && forall i :: 0 <= i < |rows| && !ForRegistration(registrationId)(rows[i]) ==> after[i] == rows[i]
  {
    var after := UpsertRows(rows, next, registrationId, g);
    if ActionFor(rows, registrationId) == Updated {
      var k := FirstIndex(rows, ForRegistration(registrationId));
      assert ForRegistration(registrationId)(after[k]);
    } else {
      assert ForRegistration(registrationId)(after[|rows|]);
    }
  }

  // ---------------------------------------------------------------------------
  // POST /assign

  /** `POST /assign`: both ids are required; then the upsert, with type `manual`. */
  method Assign(db: Database, q: AssignRequest, now: int) returns (r: Result<(), AssignError>)
    requires db.AssignmentsValid()
    modifies db`assignments, db`nextAssignmentId
    ensures db.AssignmentsValid()
    ensures r.Err? <==> !Truthy(q.registrationId) || !Truthy(q.repId)
    ensures r.Err? ==> r.error == IdsRequired
    ensures r.Err? ==> db.assignments == old(db.assignments) && db.nextAssignmentId == old(db.nextAssignmentId)
    ensures r.Ok? ==>
      db.assignments == UpsertRows(old(db.assignments), old(db.nextAssignmentId), q.registrationId,
                                   Grant(q.repId, q.assignedBy, now))
    ensures r.Ok? ==>
      db.nextAssignmentId == NextAfter(old(db.nextAssignmentId), ActionFor(old(db.assignments), q.registrationId))
  {
    if !Truthy(q.registrationId) || !Truthy(q.repId) {
      return Err(IdsRequired);
    }
    var _ := Upsert(db, q.registrationId, Grant(q.repId, q.assignedBy, now));
    r := Ok(());
  }

  // ---------------------------------------------------------------------------
  // DELETE /:id

  /** `DELETE /:id`: removes the assignment with the id; none answers not found. */
  method DeleteAssignment(db: Database, id: int) returns (r: Result<(), AssignError>)
    requires db.AssignmentsValid()
    modifies db`assignments
    ensures db.AssignmentsValid()
    ensures db.assignments == Delete(old(db.assignments), IdIs(id))
    ensures !HasId(db.assignments, id)
    ensures r.Err? <==> !HasId(old(db.assignments), id)
    ensures r.Err? ==> r.error == AssignmentNotFound && db.assignments == old(db.assignments)
    ensures r.Ok? ==> |db.assignments| == |old(db.assignments)| - 1
  {
    var rows := db.assignments;
    CountWhereById(rows, IdIs(id), id, db.nextAssignmentId);
    var changes := CountWhere(rows, IdIs(id));
    DeleteKeyed(rows, IdIs(id), 0, db.nextAssignmentId);
    db.assignments := Delete(rows, IdIs(id));
    assert forall i :: 0 <= i < |db.assignments| ==> db.assignments[i] in db.assignments;
    if changes == 0 {
      CountWhereZero(rows, IdIs(id));
      DeleteNoMatch(rows, IdIs(id));
      return Err(AssignmentNotFound);
    }
    r := Ok(());
  }

  // ---------------------------------------------------------------------------
  // POST /bulk-assign

  /** The table and the results so far while the bulk assignment runs. */
  datatype Batch = Batch(rows: seq<Row<Assignment>>, next: int, results: seq<BulkResult>)

  /** One iteration: the upsert of `registrationId` and its entry in `results`. */
  function Step(b: Batch, registrationId: Value, g: Grant): Batch {
    var action := ActionFor(b.rows, registrationId);
    Batch(UpsertRows(b.rows, b.next, registrationId, g), NextAfter(b.next, action),
          b.results + [BulkResult(registrationId, action)])
  }

  /** The ids processed in order, starting from `b`. */
  function Bulk(b: Batch, ids: seq<Value>, g: Grant): (r: Batch)
    ensures |r.results| == |b.results| + |ids|
  {
    if ids == [] then b else Step(Bulk(b, ids[..|ids| - 1], g), ids[|ids| - 1], g)
  }

  /** `!registration_ids || !Array.isArray(registration_ids) || registration_ids.length === 0` fails. */
  predicate IdsListed(v: Value) {
    Truthy(v) && IsArray(v) && |v.items| > 0
  }

  /**
   * `POST /bulk-assign`: a non-empty array of registration ids and a rep id
   * are required; then each id in turn is upserted and reported.
   */
  method BulkAssign(db: Database, q: BulkRequest, now: int) returns (r: Result<seq<BulkResult>, AssignError>)
    requires db.AssignmentsValid()
    modifies db`assignments, db`nextAssignmentId
    ensures db.AssignmentsValid()
    ensures r == Err(RegistrationIdsRequired) <==> !IdsListed(q.registrationIds)
    ensures r == Err(RepIdRequired) <==> IdsListed(q.registrationIds) && !Truthy(q.repId)
    ensures r.Ok? || r == Err(RegistrationIdsRequired) || r == Err(RepIdRequired)
    ensures r.Err? ==> db.assignments == old(db.assignments) && db.nextAssignmentId == old(db.nextAssignmentId)
    ensures r.Ok? ==>
      var b := Bulk(Batch(old(db.assignments), old(db.nextAssignmentId), []), q.registrationIds.items,
                    Grant(q.repId, q.assignedBy, now));
      db.assignments == b.rows && db.nextAssignmentId == b.next && r.value == b.results
  {
    if !Truthy(q.registrationIds) || !IsArray(q.registrationIds) || |q.registrationIds.items| == 0 {
      return Err(RegistrationIdsRequired);
    }
    if !Truthy(q.repId) {
      return Err(RepIdRequired);
    }
    var results := UpsertAll(db, q.registrationIds.items, Grant(q.repId, q.assignedBy, now));
    r := Ok(results);
  }

  /** The loop of `POST /bulk-assign`: `for (const regId of registration_ids)`. */
  method UpsertAll(db: Database, ids: seq<Value>, g: Grant) returns (results: seq<BulkResult>)
    requires db.AssignmentsValid()
    modifies db`assignments, db`nextAssignmentId
    ensures db.AssignmentsValid()
    ensures Batch(db.assignments, db.nextAssignmentId, results)
         == Bulk(Batch(old(db.assignments), old(db.nextAssignmentId), []), ids, g)
  {
    ghost var start := Batch(db.assignments, db.nextAssignmentId, []);
    results := [];
    var i := 0;
    while i < |ids|
      invariant 0 <= i <= |ids|
      invariant db.AssignmentsValid()
      invariant Batch(db.assignments, db.nextAssignmentId, results) == Bulk(start, ids[..i], g)
    {
      var regId := ids[i];
      BulkSnoc(start, ids, i, g);
      var action := Upsert(db, regId, g);
      results := results + [BulkResult(regId, action)];
      i := i + 1;
    }
    assert ids[..i] == ids;
  }

  lemma BulkSnoc(b: Batch, ids: seq<Value>, i: int, g: Grant)
    requires 0 <= i < |ids|
    ensures Bulk(b, ids[..i + 1], g) == Step(Bulk(b, ids[..i], g), ids[i], g)
  {
    assert ids[..i + 1][..i] == ids[..i];
  }

  /** One result per id, in the order of the ids. */
  lemma {:induction false} BulkResultsInOrder(b: Batch, ids: seq<Value>, g: Grant)
    ensures Bulk(b, ids, g).results[..|b.results|] == b.results
    ensures forall k :: 0 <= k < |ids| ==> Bulk(b, ids, g).results[|b.results| + k].registrationId == ids[k]
  {
    if ids != [] {
      var init := ids[..|ids| - 1];
      BulkResultsInOrder(b, init, g);
      var before := Bulk(b, init, g);
      var x := ids[|ids| - 1];
      assert Bulk(b, ids, g) == Step(before, x, g);
      StepResults(before, x, g);
      var rs := before.results + [BulkResult(x, ActionFor(before.rows, x))];
      forall k | 0 <= k < |ids|
        ensures rs[|b.results| + k].registrationId == ids[k]
      {
        if k < |init| {
          assert init[k] == ids[k];
        }
      }
    }
  }

  /**
   * An upsert leaves a registration with an assignment exactly when it had
   * one before or is the registration upserted.
   */
  lemma UpsertAssigns(rows: seq<Row<Assignment>>, next: int, x: Value, g: Grant, y: Value)
    ensures HasAssignment(UpsertRows(rows, next, x, g), y) <==> HasAssignment(rows, y) || Matches(Bind(x), y)
  {
    var after := UpsertRows(rows, next, x, g);
    if ActionFor(rows, x) == Updated {
      var k := FirstIndex(rows, ForRegistration(x));
      assert rows[k].data.registrationId == Bind(x);
      assert forall i :: 0 <= i < |rows| ==> after[i].data.registrationId == rows[i].data.registrationId;
      if Matches(Bind(x), y) {
        assert ForRegistration(y)(rows[k]);
      }
    } else {
      assert forall i :: 0 <= i < |rows| ==> after[i] == rows[i];
      if Matches(Bind(x), y) {
        assert ForRegistration(y)(after[|rows|]);
      }
    }
  }

  /** Some id of the list names the registration `y`. */
  predicate Names(ids: seq<Value>, y: Value) {
    exists j :: 0 <= j < |ids| && Matches(Bind(ids[j]), y)
  }

  lemma NamesSnoc(ids: seq<Value>, y: Value)
    requires ids != []
    ensures Names(ids, y) <==> Names(ids[..|ids| - 1], y) || Matches(Bind(ids[|ids| - 1]), y)
  {
    var init := ids[..|ids| - 1];
    assert forall j :: 0 <= j < |init| ==> init[j] == ids[j];
  }

  /** After the ids a registration has an assignment iff it had one or some id names it. */
  lemma {:induction false} BulkAssigns(b: Batch, ids: seq<Value>, g: Grant, y: Value)
    ensures HasAssignment(Bulk(b, ids, g).rows, y) <==> HasAssignment(b.rows, y) || Names(ids, y)
  {
    if ids != [] {
      var init := ids[..|ids| - 1];
      BulkAssigns(b, init, g, y);
      var before := Bulk(b, init, g);
      UpsertAssigns(before.rows, before.next, ids[|ids| - 1], g, y);
      NamesSnoc(ids, y);
    }
  }

  /**
   * The k-th result reads "created" exactly when the registration had no
   * assignment before the request and no earlier id in the list names it.
   */
  lemma BulkCreated(rows: seq<Row<Assignment>>, next: int, ids: seq<Value>, g: Grant, k: int)
    requires 0 <= k < |ids|
    ensures Bulk(Batch(rows, next, []), ids, g).results[k].action == Created <==>
      !HasAssignment(rows, ids[k]) && forall j :: 0 <= j < k ==> !Matches(Bind(ids[j]), ids[k])
  {
    var b := Batch(rows, next, []);
    BulkPrefix(b, ids, g, k);
    BulkAssigns(b, ids[..k], g, ids[k]);
    assert forall j :: 0 <= j < k ==> ids[..k][j] == ids[j];
    var before := Bulk(b, ids[..k], g).rows;
    assert ActionFor(before, ids[k]) == Created <==> !HasAssignment(before, ids[k]);
  }

  /** The k-th result is the action the upsert took on the table left by the ids before it. */
  lemma {:induction false} BulkPrefix(b: Batch, ids: seq<Value>, g: Grant, k: int)
    requires 0 <= k < |ids|
    ensures Bulk(b, ids, g).results[|b.results| + k]
         == BulkResult(ids[k], ActionFor(Bulk(b, ids[..k], g).rows, ids[k]))
  {
    var init := ids[..|ids| - 1];
    var before := Bulk(b, init, g);
    var x := ids[|ids| - 1];
    StepResults(before, x, g);
    if k < |init| {
      BulkPrefix(b, init, g, k);
      assert init[..k] == ids[..k];
      assert init[k] == ids[k];
    } else {
      assert init == ids[..k];
    }
  }

  lemma StepResults(b: Batch, x: Value, g: Grant)
    ensures Step(b, x, g).results == b.results + [BulkResult(x, ActionFor(b.rows, x))]
  {
  }

  /**
   * After the bulk assignment every assignment of every listed registration
   * names the rep, as a manual one.
   */
  lemma {:induction false} BulkAllPointTo(b: Batch, ids: seq<Value>, g: Grant)
    ensures forall k :: 0 <= k < |ids| ==> AllPointTo(Bulk(b, ids, g).rows, ids[k], g)
  {
    if ids != [] {
      var init := ids[..|ids| - 1];
      var x := ids[|ids| - 1];
      BulkAllPointTo(b, init, g);
      var before := Bulk(b, init, g);
      assert Bulk(b, ids, g) == Step(before, x, g);
      forall k | 0 <= k < |ids|
        ensures AllPointTo(Step(before, x, g).rows, ids[k], g)
      {
        if k < |init| {
          assert init[k] == ids[k];
        }
        StepPointsTo(before, x, g, ids[k]);
      }
    }
  }

  /** One more upsert keeps the registrations pointing to the rep, and adds its own. */
  lemma StepPointsTo(b: Batch, x: Value, g: Grant, y: Value)
    requires AllPointTo(b.rows, y, g) || y == x
    ensures AllPointTo(Step(b, x, g).rows, y, g)
  {
    if y == x {
      if Bind(x) != Null {
        UpsertSpec(b.rows, b.next, x, g);
      } else {
        NullMatchesNothing(Step(b, x, g).rows, x);
      }
    } else {
      UpsertKeepsPointing(b.rows, b.next, x, g, y);
    }
  }

  /** A later upsert for the same rep keeps a registration pointing to that rep. */
  lemma UpsertKeepsPointing(rows: seq<Row<Assignment>>, next: int, x: Value, g: Grant, y: Value)
    requires AllPointTo(rows, y, g)
    ensures AllPointTo(UpsertRows(rows, next, x, g), y, g)
  {
    var after := UpsertRows(rows, next, x, g);
    if ActionFor(rows, x) == Created {
      assert forall i :: 0 <= i < |rows| ==> after[i] == rows[i];
    }
  }

  /** `registration_id = NULL` matches no row. */
  lemma NullMatchesNothing(rows: seq<Row<Assignment>>, x: Value)
    requires Bind(x) == Null
    ensures forall i :: 0 <= i < |rows| ==> !ForRegistration(x)(rows[i])
  {
  }
}
