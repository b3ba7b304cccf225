/**
 * The institution reps of a conference (`/api/reps`): each rep has a
 * referral code that registrants quote to be assigned to them. Creating a
 * rep draws a code from a UUID and redraws, at most ten times, while the
 * code is taken; editing a rep never touches its conference or its code;
 * a rep with assignments cannot be deleted.
 *
 * `uuidv4()` is the oracle `uuid`: `uuid(k)` is the text of the k-th draw.
 */
module Reps {
  import opened Values
  import opened Tables
  import opened Schema

  /** The body of `POST /`. */
  datatype RepRequest = RepRequest(conferenceId: Value, name: Value, email: Value, phone: Value, institution: Value)

  /** The body of `PUT /:id`. */
  datatype RepEdit = RepEdit(name: Value, email: Value, phone: Value, institution: Value)

  datatype RepError =
    | AllFieldsRequired
    | RepNotFound
    | InvalidReferralCode
    | NoRepForInstitution
    | HasAssignments
    | ServerError

  function Status(e: RepError): int {
    match e
    case AllFieldsRequired => 400
    case RepNotFound => 404
    case InvalidReferralCode => 404
    case NoRepForInstitution => 404
    case HasAssignments => 400
    case ServerError => 500
  }

  // ---------------------------------------------------------------------------
  // Referral codes

  /** `s.replace(/-/g, '')` */
  function StripHyphens(s: string): string {
    if s == [] then [] else (if s[0] == '-' then [] else [s[0]]) + StripHyphens(s[1..])
  }

  /** `generateReferralCode` applied to one UUID draw. */
  function ReferralCode(uuid: string): string {
    Upper(Prefix(StripHyphens(uuid), 8))
  }

  predicate IsLowerHex(c: char) {
    '0' <= c <= '9' || 'a' <= c <= 'f'
  }

  predicate IsUpperHex(c: char) {
    '0' <= c <= '9' || 'A' <= c <= 'F'
  }

  /** The text of a version-4 UUID: 32 lower-case hex digits in groups 8-4-4-4-12. */
  predicate UuidShape(u: string) {
    && |u| == 36
    && forall i :: 0 <= i < 36 ==>
         if i == 8 || i == 13 || i == 18 || i == 23 then u[i] == '-' else IsLowerHex(u[i])
  }

  lemma {:induction false} StripHyphensSpec(s: string)
    ensures |StripHyphens(s)| <= |s|
    ensures forall i :: 0 <= i < |StripHyphens(s)| ==> StripHyphens(s)[i] != '-'
  {
    if s != [] {
      StripHyphensSpec(s[1..]);
    }
  }

  /** A run of `n` leading characters without a hyphen survives the stripping unchanged. */
  lemma {:induction false} StripHyphensKeepsPrefix(s: string, n: nat)
    requires n <= |s| && forall i :: 0 <= i < n ==> s[i] != '-'
    ensures StripHyphens(s) == s[..n] + StripHyphens(s[n..])
  {
    if n > 0 {
      StripHyphensKeepsPrefix(s[1..], n - 1);
      assert s[1..][n - 1..] == s[n..];
      assert [s[0]] + s[1..][..n - 1] == s[..n];
    }
  }

  /**
   * Any code is at most eight characters, holds no hyphen and no lower-case
   * letter; the code of a well-formed UUID is exactly its first eight hex
   * digits in upper case.
   */
  lemma ReferralCodeSpec(uuid: string)
    ensures |ReferralCode(uuid)| <= 8
    ensures forall i :: 0 <= i < |ReferralCode(uuid)| ==>
      ReferralCode(uuid)[i] != '-' && !IsAsciiLower(ReferralCode(uuid)[i])
    ensures UuidShape(uuid) ==>
      && ReferralCode(uuid) == Upper(uuid[..8])
      && |ReferralCode(uuid)| == 8
      && forall i :: 0 <= i < 8 ==> IsUpperHex(ReferralCode(uuid)[i])
  {
    var stripped := StripHyphens(uuid);
    StripHyphensSpec(uuid);
    var code := ReferralCode(uuid);
    forall i | 0 <= i < |code|
      ensures code[i] != '-'
    {
      assert Prefix(stripped, 8)[i] == stripped[i];
    }
    if UuidShape(uuid) {
      StripHyphensKeepsPrefix(uuid, 8);
      assert stripped[..8] == uuid[..8];
      forall i | 0 <= i < 8
        ensures IsUpperHex(code[i])
      {
        assert IsLowerHex(uuid[i]);
      }
    }
  }

  /** `SELECT id FROM institution_reps WHERE referral_code = ?` */
  function HasCode(code: string): Row<Rep> -> bool {
    (p: Row<Rep>) => p.data.referralCode == code
  }

  predicate CodeTaken(reps: seq<Row<Rep>>, code: string) {
    exists i :: 0 <= i < |reps| && HasCode(code)(reps[i])
  }

  /**
   * The draw whose code the create inserts, searching from draw `from`: the
   * first of draws `from`..9 whose code is free, else draw 10, which is
   * inserted without a check.
   */
  function CodeDraw(reps: seq<Row<Rep>>, uuid: nat -> string, from: nat): nat
    requires from <= 10
    decreases 10 - from
  {
    if from == 10 then 10
    else if !CodeTaken(reps, ReferralCode(uuid(from))) then from
    else CodeDraw(reps, uuid, from + 1)
  }

  /**
   * The retry loop draws at most ten times more: every draw before the one
   * chosen collided, and a draw chosen before the tenth redraw is free.
   */
  lemma {:induction false} CodeDrawSpec(reps: seq<Row<Rep>>, uuid: nat -> string, from: nat)
    requires from <= 10
    ensures from <= CodeDraw(reps, uuid, from) <= 10
    ensures forall j :: from <= j < CodeDraw(reps, uuid, from) ==> CodeTaken(reps, ReferralCode(uuid(j)))
    ensures CodeDraw(reps, uuid, from) < 10 ==> !CodeTaken(reps, ReferralCode(uuid(CodeDraw(reps, uuid, from))))
    decreases 10 - from
  {
    if from < 10 && CodeTaken(reps, ReferralCode(uuid(from))) {
      CodeDrawSpec(reps, uuid, from + 1);
    }
  }

  /** The code the create inserts. */
  function ChosenCode(reps: seq<Row<Rep>>, uuid: nat -> string): string {
    ReferralCode(uuid(CodeDraw(reps, uuid, 0)))
  }

  /** The inserted code is free unless the first ten draws all collided. */
  lemma ChosenCodeFresh(reps: seq<Row<Rep>>, uuid: nat -> string)
    ensures CodeTaken(reps, ChosenCode(reps, uuid)) ==>
      forall j :: 0 <= j < 10 ==> CodeTaken(reps, ReferralCode(uuid(j)))
  {
    CodeDrawSpec(reps, uuid, 0);
  }

  // ---------------------------------------------------------------------------
  // POST /

  predicate HasRequired(q: RepRequest) {
    Truthy(q.conferenceId) && Truthy(q.name) && Truthy(q.email) && Truthy(q.phone) && Truthy(q.institution)
  }

  /** The row the create inserts. */
  function NewRep(q: RepRequest, code: string, now: int): Rep {
    Rep(Bind(q.conferenceId), Bind(q.name), Bind(q.email), Bind(q.phone), Bind(q.institution), code, now)
  }

  /** The collision loop: redraw while the code is taken, at most ten times. */
  method DrawReferralCode(reps: seq<Row<Rep>>, uuid: nat -> string) returns (referralCode: string)
    ensures referralCode == ChosenCode(reps, uuid)
  {
    referralCode := ReferralCode(uuid(0));
    var attempts := 0;
    while attempts < 10
      invariant 0 <= attempts <= 10
      invariant referralCode == ReferralCode(uuid(attempts))
      invariant CodeDraw(reps, uuid, attempts) == CodeDraw(reps, uuid, 0)
    {
      var existing := First(reps, HasCode(referralCode));
      if existing.None? {
        break;
      }
      referralCode := ReferralCode(uuid(attempts + 1));
      attempts := attempts + 1;
    }
  }

  /**
   * `POST /`: every field is required; the new rep takes the drawn code and
   * is read back by id.
   */
  method CreateRep(db: Database, q: RepRequest, uuid: nat -> string, now: int)
    returns (r: Result<Row<Rep>, RepError>)
    requires db.RepsValid()
    modifies db`reps, db`nextRepId
    ensures db.RepsValid()
    ensures r.Err? <==> !HasRequired(q)
    ensures r.Err? ==> r.error == AllFieldsRequired && db.reps == old(db.reps) && db.nextRepId == old(db.nextRepId)
    ensures r.Ok? ==> r.value == Row(old(db.nextRepId), NewRep(q, ChosenCode(old(db.reps), uuid), now))
    ensures r.Ok? ==> db.reps == old(db.reps) + [r.value] && db.nextRepId == old(db.nextRepId) + 1
  {
    if !HasRequired(q) {
      return Err(AllFieldsRequired);
    }
    var referralCode := DrawReferralCode(db.reps, uuid);
    var id := db.nextRepId;
    var row := Row(id, NewRep(q, referralCode, now));
    InsertKeyed(db.reps, id, row.data);
    db.reps := db.reps + [row];
    db.nextRepId := id + 1;
    FirstById(db.reps, IdIs(id), |db.reps| - 1, db.nextRepId);
    var newRep := First(db.reps, IdIs(id));
    r := Ok(newRep.value);
  }

  // ---------------------------------------------------------------------------
  // Lookups

  /** `GET /:id` */
  function GetRep(reps: seq<Row<Rep>>, id: int): (r: Result<Row<Rep>, RepError>)
    ensures r.Err? <==> !HasId(reps, id)
    ensures r.Err? ==> r.error == RepNotFound
    ensures r.Ok? ==> r.value in reps && r.value.id == id
  {
    match First(reps, IdIs(id))
    case None => Err(RepNotFound)
    case Some(p) => Ok(p)
  }

  /** `GET /referral/:code` */
  function RepByCode(reps: seq<Row<Rep>>, code: string): (r: Result<Row<Rep>, RepError>)
    ensures r.Err? <==> !CodeTaken(reps, code)
    ensures r.Err? ==> r.error == InvalidReferralCode
    ensures r.Ok? ==> exists i :: FirstSelected(reps, HasCode(code), i) && r.value == reps[i]
  {
    match First(reps, HasCode(code))
    case None => Err(InvalidReferralCode)
    case Some(p) =>
      var i := FirstIndex(reps, HasCode(code));
      assert FirstSelected(reps, HasCode(code), i);
      Ok(p)
  }

  /** `WHERE conference_id = ? AND institution = ?` */
  function AtInstitution(conferenceId: int, institution: string): Row<Rep> -> bool {
    (p: Row<Rep>) => Matches(p.data.conferenceId, Num(conferenceId)) && Matches(p.data.institution, Str(institution))
  }

  /** `GET /conference/:conferenceId/institution/:institution`: the first rep when several match. */
  function RepForInstitution(reps: seq<Row<Rep>>, conferenceId: int, institution: string)
    : (r: Result<Row<Rep>, RepError>)
    ensures r.Err? <==> forall i :: 0 <= i < |reps| ==> !AtInstitution(conferenceId, institution)(reps[i])
    ensures r.Err? ==> r.error == NoRepForInstitution
    ensures r.Ok? ==> exists i :: FirstSelected(reps, AtInstitution(conferenceId, institution), i) && r.value == reps[i]
  {
    match First(reps, AtInstitution(conferenceId, institution))
    case None => Err(NoRepForInstitution)
    case Some(p) =>
      var i := FirstIndex(reps, AtInstitution(conferenceId, institution));
      assert FirstSelected(reps, AtInstitution(conferenceId, institution), i);
      Ok(p)
  }

  /**
   * A rep created with a code drawn before the tenth redraw is the one its
   * code looks up: the code is free, so the new row is the only one with it.
   */
  lemma CreatedRepFoundByCode(reps: seq<Row<Rep>>, uuid: nat -> string, id: int, q: RepRequest, now: int)
    requires CodeDraw(reps, uuid, 0) < 10
    ensures RepByCode(reps + [Row(id, NewRep(q, ChosenCode(reps, uuid), now))], ChosenCode(reps, uuid))
         == Ok(Row(id, NewRep(q, ChosenCode(reps, uuid), now)))
  {
    CodeDrawSpec(reps, uuid, 0);
    var code := ChosenCode(reps, uuid);
    var after := reps + [Row(id, NewRep(q, code, now))];
    assert forall i :: 0 <= i < |reps| ==> after[i] == reps[i] && !HasCode(code)(after[i]);
    assert HasCode(code)(after[|reps|]);
    assert FirstIndex(after, HasCode(code)) == |reps|;
  }

  /** `WHERE conference_id = ?` */
  function OfConference(conferenceId: int): Row<Rep> -> bool {
    (p: Row<Rep>) => Matches(p.data.conferenceId, Num(conferenceId))
  }

  /** `ORDER BY institution, name` */
  function InstitutionThenName(): (Row<Rep>, Row<Rep>) -> bool {
    (a: Row<Rep>, b: Row<Rep>) =>
      SqlCmp(a.data.institution, b.data.institution) < 0
      || (SqlCmp(a.data.institution, b.data.institution) == 0 && SqlCmp(a.data.name, b.data.name) <= 0)
  }

  lemma InstitutionThenNameTotal()
    ensures TotalPreorder(InstitutionThenName())
  {
    forall a: Row<Rep>, b: Row<Rep>
      ensures InstitutionThenName()(a, b) || InstitutionThenName()(b, a)
    {
      SqlCmpAntisymmetric(a.data.institution, b.data.institution);
      SqlCmpAntisymmetric(a.data.name, b.data.name);
    }
    forall a: Row<Rep>, b: Row<Rep>, c: Row<Rep> | InstitutionThenName()(a, b) && InstitutionThenName()(b, c)
      ensures InstitutionThenName()(a, c)
    {
      SqlCmpAntisymmetric(a.data.institution, b.data.institution);
      SqlCmpAntisymmetric(b.data.institution, c.data.institution);
      SqlCmpAntisymmetric(a.data.institution, c.data.institution);
      SqlCmpTransitive(a.data.institution, b.data.institution, c.data.institution);
      if SqlCmp(a.data.institution, c.data.institution) == 0 {
        SqlCmpTransitive(a.data.name, b.data.name, c.data.name);
      }
    }
  }

  /** `GET /conference/:conferenceId`: the conference's reps by institution, then by name. */
  function ListReps(reps: seq<Row<Rep>>, conferenceId: int): (r: seq<Row<Rep>>)
    ensures SortedBy(r, InstitutionThenName())
    ensures multiset(r) == multiset(Where(reps, OfConference(conferenceId)))
  {
    InstitutionThenNameTotal();
    OrderBy(Where(reps, OfConference(conferenceId)), InstitutionThenName())
  }

  /** The list holds exactly the reps of the conference. */
  lemma ListRepsScope(reps: seq<Row<Rep>>, conferenceId: int, p: Row<Rep>)
    ensures p in ListReps(reps, conferenceId) <==> p in reps && Matches(p.data.conferenceId, Num(conferenceId))
  {
    var r := ListReps(reps, conferenceId);
    var w := Where(reps, OfConference(conferenceId));
    assert p in r <==> p in multiset(r);
    assert p in w <==> p in multiset(w);
  }

  // ---------------------------------------------------------------------------
  // PUT /:id

  predicate EditComplete(q: RepEdit) {
    Truthy(q.name) && Truthy(q.email) && Truthy(q.phone) && Truthy(q.institution)
  }

  /** `SET name = ?, email = ?, phone = ?, institution = ?` */
  function Edit(q: RepEdit): Rep -> Rep {
    (d: Rep) => d.(name := Bind(q.name), email := Bind(q.email), phone := Bind(q.phone), institution := Bind(q.institution))
  }

  /**
   * `PUT /:id`: every field is required; the UPDATE changes the four
   * contact columns of the rep with the id; no changed row answers not
   * found, otherwise the rep is read back.
   */
  method UpdateRep(db: Database, id: int, q: RepEdit) returns (r: Result<Row<Rep>, RepError>)
    requires db.RepsValid()
    modifies db`reps
    ensures db.RepsValid()
    ensures r == Err(AllFieldsRequired) <==> !EditComplete(q)
    ensures r == Err(RepNotFound) <==> EditComplete(q) && !HasId(old(db.reps), id)
    ensures r.Ok? || r == Err(AllFieldsRequired) || r == Err(RepNotFound)
    ensures !EditComplete(q) ==> db.reps == old(db.reps)
    ensures EditComplete(q) ==> db.reps == Update(old(db.reps), IdIs(id), Edit(q))
    ensures r.Ok? ==>
      exists i :: 0 <= i < |old(db.reps)| && old(db.reps)[i].id == id && r.value == Row(id, Edit(q)(old(db.reps)[i].data))
  {
    if !EditComplete(q) {
      return Err(AllFieldsRequired);
    }
    var rows := db.reps;
    CountWhereById(rows, IdIs(id), id, db.nextRepId);
    var changes := CountWhere(rows, IdIs(id));
    UpdateKeyed(rows, IdIs(id), Edit(q), db.nextRepId);
    db.reps := Update(rows, IdIs(id), Edit(q));
    if changes == 0 {
      return Err(RepNotFound);
    }
    ghost var i :| 0 <= i < |rows| && rows[i].id == id;
    FirstById(db.reps, IdIs(id), i, db.nextRepId);
    var updatedRep := First(db.reps, IdIs(id));
    r := Ok(updatedRep.value);
  }

  /**
   * An edit leaves every rep's conference, referral code and creation time
   * as they were, so a lookup by referral code answers the same rep before
   * and after, with its new contact details.
   */
  lemma {:induction false} EditKeepsReferral(rows: seq<Row<Rep>>, id: int, q: RepEdit, code: string)
    ensures var after := Update(rows, IdIs(id), Edit(q));
      && (forall i :: 0 <= i < |rows| ==>
            && after[i].data.conferenceId == rows[i].data.conferenceId
            && after[i].data.referralCode == rows[i].data.referralCode
            && after[i].data.createdAt == rows[i].data.createdAt)
      && RepByCode(after, code).Ok? == RepByCode(rows, code).Ok?
      && (RepByCode(rows, code).Ok? ==> RepByCode(after, code).value.id == RepByCode(rows, code).value.id)
  {
    var after := Update(rows, IdIs(id), Edit(q));
    assert forall i :: 0 <= i < |rows| ==> (HasCode(code)(after[i]) <==> HasCode(code)(rows[i]));
    assert FirstIndex(after, HasCode(code)) == FirstIndex(rows, HasCode(code));
  }

  // ---------------------------------------------------------------------------
  // DELETE /:id

  /** `SELECT id FROM rep_assignments WHERE rep_id = ?` */
  function AssignedTo(id: int): Row<Assignment> -> bool {
    (a: Row<Assignment>) => Matches(a.data.repId, Num(id))
  }

  predicate HasAssignmentsFor(assignments: seq<Row<Assignment>>, id: int) {
    exists i :: 0 <= i < |assignments| && AssignedTo(id)(assignments[i])
  }

  /**
   * `DELETE /:id`: refused while an assignment names the rep; otherwise the
   * rep goes, and a missing rep answers not found.
   */
  method DeleteRep(db: Database, id: int) returns (r: Result<(), RepError>)
    requires db.RepsValid()
    modifies db`reps
    ensures db.RepsValid()
    ensures r == Err(HasAssignments) <==> HasAssignmentsFor(db.assignments, id)
    ensures r == Err(RepNotFound) <==> !HasAssignmentsFor(db.assignments, id) && !HasId(old(db.reps), id)
    ensures r.Ok? || r == Err(HasAssignments) || r == Err(RepNotFound)
    ensures HasAssignmentsFor(db.assignments, id) ==> db.reps == old(db.reps)
    ensures !HasAssignmentsFor(db.assignments, id) ==> db.reps == Delete(old(db.reps), IdIs(id)) && !HasId(db.reps, id)
  {
    CountWhereZero(db.assignments, AssignedTo(id));
    var assignments := CountWhere(db.assignments, AssignedTo(id));
    if assignments > 0 {
      return Err(HasAssignments);
    }
    var rows := db.reps;
    CountWhereById(rows, IdIs(id), id, db.nextRepId);
    var changes := CountWhere(rows, IdIs(id));
    DeleteKeyed(rows, IdIs(id), 0, db.nextRepId);
    db.reps := Delete(rows, IdIs(id));
    assert forall i :: 0 <= i < |db.reps| ==> db.reps[i] in db.reps;
    if changes == 0 {
      return Err(RepNotFound);
    }
    r := Ok(());
  }
}
