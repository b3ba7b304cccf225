/**
 * Conference registration of backend/routes/registrations.js: the public
 * register with its ordered checks, the attendee code, and the rep the new
 * registration is assigned to; the admin list per conference, check-in, and
 * QR verification.
 */
module Registrations {
  import opened Values
  import opened Tables
  import opened Schema

  /** The body of `POST /register`. */
  datatype RegistrationRequest = RegistrationRequest(
    conferenceId: Value,
    fullname: Value,
    email: Value,
    phone: Value,
    age: Value,
    dateOfBirth: Value,
    state: Value,
    organization: Value,
    isStudent: Value,
    institution: Value,
    isRegisteredVoter: Value,
    voterState: Value,
    attendanceType: Value,
    referralCode: Value,
    consent: Value)

  /**
   * `ServerError` is the 500 of a verify whose QR text parses to `null`,
   * which the handler then destructures.
   */
  datatype RegistrationError =
    | MissingFields
    | ConsentRequired
    | ConferenceUnavailable
    | AlreadyRegistered
    | AttendeeCodeRequired
    | RegistrationNotFound
    | AlreadyCheckedIn(checkinTime: Option<int>)
    | QrDataRequired
    | InvalidQrFormat
    | ServerError

  function Status(e: RegistrationError): int {
    match e
    case ConferenceUnavailable => 404
    case RegistrationNotFound => 404
    case ServerError => 500
    case _ => 400
  }

  // ---------------------------------------------------------------------------
  // POST /register: the checks

  /** Every required field is truthy, and at least one of age and date of birth. */
  predicate HasRequired(q: RegistrationRequest) {
    && Truthy(q.conferenceId) && Truthy(q.fullname) && Truthy(q.email) && Truthy(q.phone)
    && (Truthy(q.age) || Truthy(q.dateOfBirth)) && Truthy(q.state) && Truthy(q.attendanceType)
  }

  /** `FROM conferences WHERE id = ? AND status = 'published'` */
  function PublishedConference(conferenceId: Value): Row<Conference> -> bool {
    (c: Row<Conference>) => Matches(Num(c.id), conferenceId) && Matches(c.data.status, Str("published"))
  }

  predicate PublishedIn(confs: seq<Row<Conference>>, conferenceId: Value) {
    exists i :: 0 <= i < |confs| && PublishedConference(conferenceId)(confs[i])
  }

  /** `FROM registrations WHERE conference_id = ? AND email = ?` */
  function SameAttendee(conferenceId: Value, email: Value): Row<Registration> -> bool {
    (g: Row<Registration>) => Matches(g.data.conferenceId, conferenceId) && Matches(g.data.email, email)
  }

  predicate RegisteredIn(regs: seq<Row<Registration>>, conferenceId: Value, email: Value) {
    exists i :: 0 <= i < |regs| && SameAttendee(conferenceId, email)(regs[i])
  }

  /** The rejection the handler answers with, if any. */
  function Rejection(confs: seq<Row<Conference>>, regs: seq<Row<Registration>>, q: RegistrationRequest)
    : Option<RegistrationError>
  {
    if !HasRequired(q) then Some(MissingFields)
    else if !Truthy(q.consent) then Some(ConsentRequired)
    else if First(confs, PublishedConference(q.conferenceId)).None? then Some(ConferenceUnavailable)
    else if First(regs, SameAttendee(q.conferenceId, q.email)).Some? then Some(AlreadyRegistered)
    else None
  }

  /**
   * The checks in the order the handler makes them: missing fields first,
   * then consent, then a published conference with that id, then an earlier
   * registration of the same email for it; a request passing all four is
   * accepted.
   */
  lemma RejectionSpec(confs: seq<Row<Conference>>, regs: seq<Row<Registration>>, q: RegistrationRequest)
    ensures var r := Rejection(confs, regs, q);
      && (r == Some(MissingFields) <==> !HasRequired(q))
      && (r == Some(ConsentRequired) <==> HasRequired(q) && !Truthy(q.consent))
      && (r == Some(ConferenceUnavailable) <==>
            HasRequired(q) && Truthy(q.consent) && !PublishedIn(confs, q.conferenceId))
      && (r == Some(AlreadyRegistered) <==>
            HasRequired(q) && Truthy(q.consent) && PublishedIn(confs, q.conferenceId)
            && RegisteredIn(regs, q.conferenceId, q.email))
      && (r == None <==>
            HasRequired(q) && Truthy(q.consent) && PublishedIn(confs, q.conferenceId)
            && !RegisteredIn(regs, q.conferenceId, q.email))
  {
  }

  /** The handler's checks, in order, each answering as soon as it fails. */
  method CheckRequest(db: Database, q: RegistrationRequest) returns (rejection: Option<RegistrationError>)
    ensures rejection == Rejection(db.conferences, db.registrations, q)
  {
    if !(Truthy(q.conferenceId) && Truthy(q.fullname) && Truthy(q.email) && Truthy(q.phone)
         && (Truthy(q.age) || Truthy(q.dateOfBirth)) && Truthy(q.state) && Truthy(q.attendanceType)) {
      return Some(MissingFields);
    }
    if !Truthy(q.consent) {
      return Some(ConsentRequired);
    }
    var conferences := First(db.conferences, PublishedConference(q.conferenceId));
    if conferences.None? {
      return Some(ConferenceUnavailable);
    }
    var existing := First(db.registrations, SameAttendee(q.conferenceId, q.email));
    if existing.Some? {
      return Some(AlreadyRegistered);
    }
    return None;
  }

  // ---------------------------------------------------------------------------
  // POST /register: the new row

  /**
   * `NG${conference_id}${Date.now()}` followed by five characters of the
   * base-36 text of `Math.random()` (`random`), upper-cased.
   */
  function AttendeeCode(conferenceId: Value, nowMs: nat, random: string): string {
    "NG" + ToText(conferenceId) + NatToString(nowMs) + Upper(Substr(random, 2, 5))
  }

  /**
   * The code starts with "NG" and the conference id as text; what follows is
   * at least one digit and at most five random characters, none of them a
   * lower-case letter.
   */
  lemma AttendeeCodeSpec(conferenceId: Value, nowMs: nat, random: string)
    ensures var code := AttendeeCode(conferenceId, nowMs, random);
      && |code| <= 2 + |ToText(conferenceId)| + |NatToString(nowMs)| + 5
      && |code| >= 2 + |ToText(conferenceId)| + 1
      && code[..2] == "NG" && code[2..2 + |ToText(conferenceId)|] == ToText(conferenceId)
      && forall i :: 2 + |ToText(conferenceId)| <= i < |code| ==> !IsAsciiLower(code[i])
  {
    var head := "NG" + ToText(conferenceId);
    var tail := NatToString(nowMs) + Upper(Substr(random, 2, 5));
    assert AttendeeCode(conferenceId, nowMs, random) == head + tail;
    assert forall i :: 0 <= i < |tail| ==> !IsAsciiLower(tail[i]);
  }

  /** The URL the QR image is served under. */
  function QrUrl(attendeeCode: string): string {
    "/uploads/qrcodes/" + attendeeCode + ".png"
  }

  /** The row the INSERT stores: booleans as 0 or 1, falsy optional fields as NULL, not checked in. */
  function NewRegistration(q: RegistrationRequest, attendeeCode: string, now: int): Registration {
    Registration(
      Bind(q.conferenceId), Bind(q.fullname), Bind(q.email), Bind(q.phone),
      Bind(Or(q.age, Null)), Bind(Or(q.dateOfBirth, Null)), Bind(q.state), Bind(Or(q.organization, Null)),
      Flag(q.isStudent), Bind(Or(q.institution, Null)), Flag(q.isRegisteredVoter), Bind(Or(q.voterState, Null)),
      Bind(q.attendanceType), Bind(Or(q.referralCode, Null)),
      QrUrl(attendeeCode), attendeeCode, 0, None, now)
  }

  /**
   * A registered (conference, email) pair blocks every later request for the
   * same pair that passes the earlier checks.
   */
  lemma DuplicateRejected(confs: seq<Row<Conference>>, regs: seq<Row<Registration>>, q: RegistrationRequest,
                          id: int, code: string, now: int, q2: RegistrationRequest)
    requires Rejection(confs, regs, q).None?
    requires HasRequired(q2) && Truthy(q2.consent)
    requires Bind(q2.conferenceId) == Bind(q.conferenceId) && Bind(q2.email) == Bind(q.email)
    ensures Rejection(confs, regs + [Row(id, NewRegistration(q, code, now))], q2) == Some(AlreadyRegistered)
  {
    RejectionSpec(confs, regs, q);
    RejectionSpec(confs, regs + [Row(id, NewRegistration(q, code, now))], q2);
    var i :| 0 <= i < |confs| && PublishedConference(q.conferenceId)(confs[i]);
    assert PublishedConference(q2.conferenceId)(confs[i]);
    var after := regs + [Row(id, NewRegistration(q, code, now))];
    assert SameAttendee(q2.conferenceId, q2.email)(after[|regs|]);
  }

  /** The stored row: 0/1 flags, NULL for falsy optional fields, and the code and QR path it was given. */
  lemma NewRegistrationSpec(q: RegistrationRequest, code: string, now: int)
    ensures var g := NewRegistration(q, code, now);
      && (g.isStudent == 1 <==> Truthy(q.isStudent)) && (g.isStudent == 0 || g.isStudent == 1)
      && (g.isRegisteredVoter == 1 <==> Truthy(q.isRegisteredVoter))
      && (g.isRegisteredVoter == 0 || g.isRegisteredVoter == 1)
      && (!Truthy(q.age) ==> g.age == Null) && (!Truthy(q.dateOfBirth) ==> g.dateOfBirth == Null)
      && (!Truthy(q.organization) ==> g.organization == Null)
      && (!Truthy(q.institution) ==> g.institution == Null)
      && (!Truthy(q.referralCode) ==> g.referralCode == Null)
      && g.attendeeCode == code && g.qrCodePath == "/uploads/qrcodes/" + code + ".png"
      && g.checkedIn == 0 && g.checkinTime == None
  {
  }

  // ---------------------------------------------------------------------------
  // POST /register: the rep assignment

  /** `FROM institution_reps WHERE referral_code = ? AND conference_id = ?` */
  function ReferralMatches(code: Value, conferenceId: Value): Row<Rep> -> bool {
    (p: Row<Rep>) => Matches(Str(p.data.referralCode), code) && Matches(p.data.conferenceId, conferenceId)
  }

  /** `FROM institution_reps WHERE conference_id = ? AND institution = ?` */
  function InstitutionMatches(conferenceId: Value, institution: Value): Row<Rep> -> bool {
    (p: Row<Rep>) => Matches(p.data.conferenceId, conferenceId) && Matches(p.data.institution, institution)
  }

  /** The rep a registration is assigned to and how. */
  datatype Assigned = Assigned(repId: int, kind: AssignmentType)

  predicate ReferralFound(reps: seq<Row<Rep>>, q: RegistrationRequest) {
    Truthy(q.referralCode)
    && exists i :: 0 <= i < |reps| && ReferralMatches(q.referralCode, q.conferenceId)(reps[i])
  }

  predicate InstitutionFound(reps: seq<Row<Rep>>, q: RegistrationRequest) {
    Truthy(q.isStudent) && Truthy(q.institution)
    && exists i :: 0 <= i < |reps| && InstitutionMatches(q.conferenceId, q.institution)(reps[i])
  }

  /**
   * The assignment the handler resolves: a referral code naming a rep of the
   * same conference wins; otherwise a student with an institution goes to the
   * first rep of that conference and institution; otherwise nobody.
   */
  function Resolution(reps: seq<Row<Rep>>, q: RegistrationRequest): Option<Assigned> {
    var byCode := if Truthy(q.referralCode) then First(reps, ReferralMatches(q.referralCode, q.conferenceId)) else None;
    if byCode.Some? then Some(Assigned(byCode.value.id, Referral))
    else if Truthy(q.isStudent) && Truthy(q.institution) then
      match First(reps, InstitutionMatches(q.conferenceId, q.institution))
      case Some(p) => Some(Assigned(p.id, Auto))
      case None => None
    else None
  }

  /**
   * The order of resolution: a referral match wins; an institution match
   * counts only without one, and only for a student with an institution;
   * the rep chosen is the first match in table order; the type is never
   * manual.
   */
  lemma ResolutionSpec(reps: seq<Row<Rep>>, q: RegistrationRequest)
    ensures var r := Resolution(reps, q);
      && ((r.Some? && r.value.kind == Referral) <==> ReferralFound(reps, q))
      && ((r.Some? && r.value.kind == Auto) <==> !ReferralFound(reps, q) && InstitutionFound(reps, q))
      && (r.None? <==> !ReferralFound(reps, q) && !InstitutionFound(reps, q))
      && (r.Some? ==> r.value.kind != Manual)
      && (r.Some? && r.value.kind == Referral ==> exists i ::
            FirstSelected(reps, ReferralMatches(q.referralCode, q.conferenceId), i) && reps[i].id == r.value.repId)
      && (r.Some? && r.value.kind == Auto ==> exists i ::
            FirstSelected(reps, InstitutionMatches(q.conferenceId, q.institution), i) && reps[i].id == r.value.repId)
  {
    var byCode := FirstIndex(reps, ReferralMatches(q.referralCode, q.conferenceId));
    if Truthy(q.referralCode) && byCode < |reps| {
      assert FirstSelected(reps, ReferralMatches(q.referralCode, q.conferenceId), byCode);
    } else {
      var byInstitution := FirstIndex(reps, InstitutionMatches(q.conferenceId, q.institution));
      if Truthy(q.isStudent) && Truthy(q.institution) && byInstitution < |reps| {
        assert FirstSelected(reps, InstitutionMatches(q.conferenceId, q.institution), byInstitution);
      }
    }
  }

  /** The assignment rows the register inserts: none, or one naming the new registration. */
  function AssignmentRows(res: Option<Assigned>, registrationId: int, now: int, nextId: int): seq<Row<Assignment>> {
    match res
    case None => []
    case Some(a) => [Row(nextId, Assignment(Num(registrationId), Num(a.repId), a.kind, Null, now))]
  }

  /**
   * The assignment step of the register: try the referral code, then the
   * institution, and insert one assignment when a rep was found.
   */
  method AssignRep(db: Database, q: RegistrationRequest, registrationId: int, now: int)
    requires db.AssignmentsValid() && db.RepsValid()
    modifies db`assignments, db`nextAssignmentId
    ensures db.AssignmentsValid()
    ensures db.assignments == old(db.assignments)
      + AssignmentRows(Resolution(db.reps, q), registrationId, now, old(db.nextAssignmentId))
    ensures db.nextAssignmentId == old(db.nextAssignmentId) + |AssignmentRows(Resolution(db.reps, q), 0, now, 0)|
  {
    var assignedRepId := Null;
    var assignmentType: Option<AssignmentType> := None;
    if Truthy(q.referralCode) {
      var repByCode := First(db.reps, ReferralMatches(q.referralCode, q.conferenceId));
      if repByCode.Some? {
        assignedRepId := Num(repByCode.value.id);
        assignmentType := Some(Referral);
      }
    }
    if !Truthy(assignedRepId) && Truthy(q.isStudent) && Truthy(q.institution) {
      var repByInstitution := First(db.reps, InstitutionMatches(q.conferenceId, q.institution));
      if repByInstitution.Some? {
        assignedRepId := Num(repByInstitution.value.id);
        assignmentType := Some(Auto);
      }
    }
    if Truthy(assignedRepId) {
      var assignment := Assignment(Num(registrationId), assignedRepId, assignmentType.value, Null, now);
      InsertKeyed(db.assignments, db.nextAssignmentId, assignment);
      db.assignments := db.assignments + [Row(db.nextAssignmentId, assignment)];
      db.nextAssignmentId := db.nextAssignmentId + 1;
    }
  }

  // ---------------------------------------------------------------------------
  // POST /register: the handler

  /** The success answer: the registration read back and the QR code URL. */
  datatype Registered = Registered(registration: Row<Registration>, qrCodeUrl: string)

  /**
   * `POST /register`. `nowMs` is `Date.now()`, `random` the base-36 text of
   * `Math.random()`, `now` the CURRENT_TIMESTAMP of the inserts. A rejection
   * changes nothing; a success inserts one registration and at most one
   * assignment that names it.
   */
  method Register(db: Database, q: RegistrationRequest, now: int, nowMs: nat, random: string)
    returns (r: Result<Registered, RegistrationError>)
    requires db.RegistrationsValid() && db.AssignmentsValid() && db.RepsValid()
    modifies db`registrations, db`nextRegistrationId, db`assignments, db`nextAssignmentId
    ensures db.RegistrationsValid() && db.AssignmentsValid()
    ensures r.Err? <==> Rejection(db.conferences, old(db.registrations), q).Some?
    ensures r.Err? ==> r.error == Rejection(db.conferences, old(db.registrations), q).value
    ensures r.Err? ==> db.registrations == old(db.registrations) && db.nextRegistrationId == old(db.nextRegistrationId)
    ensures r.Err? ==> db.assignments == old(db.assignments) && db.nextAssignmentId == old(db.nextAssignmentId)
    ensures r.Ok? ==>
      db.registrations == old(db.registrations)
        + [Row(old(db.nextRegistrationId), NewRegistration(q, AttendeeCode(q.conferenceId, nowMs, random), now))]
    ensures r.Ok? ==> db.nextRegistrationId == old(db.nextRegistrationId) + 1
    ensures r.Ok? ==> r.value == Registered(
      Row(old(db.nextRegistrationId), NewRegistration(q, AttendeeCode(q.conferenceId, nowMs, random), now)),
      QrUrl(AttendeeCode(q.conferenceId, nowMs, random)))
    ensures r.Ok? ==>
      db.assignments == old(db.assignments)
        + AssignmentRows(Resolution(db.reps, q), old(db.nextRegistrationId), now, old(db.nextAssignmentId))
    ensures r.Ok? ==>
      db.nextAssignmentId == old(db.nextAssignmentId) + |AssignmentRows(Resolution(db.reps, q), 0, now, 0)|
  {
    var rejection := CheckRequest(db, q);
    if rejection.Some? {
      return Err(rejection.value);
    }
    var attendeeCode := AttendeeCode(q.conferenceId, nowMs, random);
    var qrUrl := QrUrl(attendeeCode);

    var id := InsertRegistration(db, NewRegistration(q, attendeeCode, now));
    AssignRep(db, q, id, now);
    var registration := ReadRegistration(db, id);
    r := Ok(Registered(registration, qrUrl));
  }

  /** `INSERT INTO registrations`: the new row takes the next id. */
  method InsertRegistration(db: Database, data: Registration) returns (id: int)
    requires db.RegistrationsValid()
    modifies db`registrations, db`nextRegistrationId
    ensures db.RegistrationsValid()
    ensures id == old(db.nextRegistrationId)
    ensures db.registrations == old(db.registrations) + [Row(id, data)]
    ensures db.nextRegistrationId == id + 1
  {
    id := db.nextRegistrationId;
    InsertKeyed(db.registrations, id, data);
    db.registrations := db.registrations + [Row(id, data)];
    db.nextRegistrationId := id + 1;
  }

  /** `SELECT * FROM registrations WHERE id = ?` for the row just inserted, the last one. */
  method ReadRegistration(db: Database, id: int) returns (registration: Row<Registration>)
    requires db.RegistrationsValid() && db.registrations != []
    requires db.registrations[|db.registrations| - 1].id == id
    ensures registration == db.registrations[|db.registrations| - 1]
  {
    FirstById(db.registrations, IdIs(id), |db.registrations| - 1, db.nextRegistrationId);
    var found := First(db.registrations, IdIs(id));
    registration := found.value;
  }

  // ---------------------------------------------------------------------------
  // GET /conference/:conferenceId

  /**
   * `WHERE conference_id = ?`, and `AND checked_in = ?` when the query has a
   * `checked_in` value: 1 for the text "true", 0 for anything else.
   */
  function ListFilter(conferenceId: int, checkedIn: Value): Row<Registration> -> bool {
    (g: Row<Registration>) =>
      Matches(g.data.conferenceId, Num(conferenceId))
      && (checkedIn == Undefined || g.data.checkedIn == (if checkedIn == Str("true") then 1 else 0))
  }

  /** `ORDER BY created_at DESC` */
  function NewestFirst(): (Row<Registration>, Row<Registration>) -> bool {
    (a: Row<Registration>, b: Row<Registration>) => a.data.createdAt >= b.data.createdAt
  }

  lemma NewestFirstTotal()
    ensures TotalPreorder(NewestFirst())
  {
  }

  /** The conference's registrations, newest first, narrowed by the check-in state when asked. */
  function ListForConference(rows: seq<Row<Registration>>, conferenceId: int, checkedIn: Value)
    : (r: seq<Row<Registration>>)
    ensures forall i, j :: 0 <= i < j < |r| ==> r[i].data.createdAt >= r[j].data.createdAt
    ensures multiset(r) == multiset(Where(rows, ListFilter(conferenceId, checkedIn)))
  {
    NewestFirstTotal();
    OrderBy(Where(rows, ListFilter(conferenceId, checkedIn)), NewestFirst())
  }

  /**
   * Without `checked_in` every registration of the conference is listed;
   * "true" lists the checked-in ones, any other value the others.
   */
  lemma ListForConferenceScope(rows: seq<Row<Registration>>, conferenceId: int, checkedIn: Value,
                               g: Row<Registration>)
    ensures g in ListForConference(rows, conferenceId, checkedIn) <==>
      && g in rows && Matches(g.data.conferenceId, Num(conferenceId))
      && (checkedIn == Str("true") ==> g.data.checkedIn == 1)
      && (checkedIn != Undefined && checkedIn != Str("true") ==> g.data.checkedIn == 0)
  {
    var r := ListForConference(rows, conferenceId, checkedIn);
    var w := Where(rows, ListFilter(conferenceId, checkedIn));
    assert g in r <==> g in multiset(r);
    assert g in w <==> g in multiset(w);
  }

  // ---------------------------------------------------------------------------
  // POST /checkin

  /** `WHERE attendee_code = ?` */
  function CodeIs(code: Value): Row<Registration> -> bool {
    (g: Row<Registration>) => Matches(Str(g.data.attendeeCode), code)
  }

  /** `SET checked_in = 1, checkin_time = CURRENT_TIMESTAMP` */
  function CheckIn(now: int): Registration -> Registration {
    (d: Registration) => d.(checkedIn := 1, checkinTime := Some(now))
  }

  /** The answer of a check-in. */
  function CheckinOutcome(rows: seq<Row<Registration>>, code: Value, now: int): Result<Row<Registration>, RegistrationError> {
    if !Truthy(code) then Err(AttendeeCodeRequired)
    else
      match First(rows, CodeIs(code))
      case None => Err(RegistrationNotFound)
      case Some(g) =>
        if g.data.checkedIn != 0 then Err(AlreadyCheckedIn(g.data.checkinTime))
        else Ok(Row(g.id, CheckIn(now)(g.data)))
  }

  /** The table after a check-in: only a successful one writes, to every row with the code. */
  function CheckinRows(rows: seq<Row<Registration>>, code: Value, now: int): seq<Row<Registration>> {
    if CheckinOutcome(rows, code, now).Ok? then Update(rows, CodeIs(code), CheckIn(now)) else rows
  }

  /**
   * `POST /checkin`: refuse a falsy code, an unknown code and a registration
   * already checked in (answering its check-in time); otherwise mark the
   * rows with the code as checked in now and answer the first of them.
   */
  method Checkin(db: Database, code: Value, now: int) returns (r: Result<Row<Registration>, RegistrationError>)
    requires db.RegistrationsValid()
    modifies db`registrations
    ensures db.RegistrationsValid()
    ensures r == CheckinOutcome(old(db.registrations), code, now)
    ensures db.registrations == CheckinRows(old(db.registrations), code, now)
  {
    if !Truthy(code) {
      return Err(AttendeeCodeRequired);
    }
    var rows := db.registrations;
    var registrations := First(rows, CodeIs(code));
    if registrations.None? {
      return Err(RegistrationNotFound);
    }
    var registration := registrations.value;
    if registration.data.checkedIn != 0 {
      return Err(AlreadyCheckedIn(registration.data.checkinTime));
    }
    var updated := MarkCheckedIn(db, code, now);
    r := Ok(updated);
  }

  /**
   * The UPDATE of a successful check-in followed by the re-read by code:
   * answers the registration the check-in reports.
   */
  method MarkCheckedIn(db: Database, code: Value, now: int) returns (updated: Row<Registration>)
    requires db.RegistrationsValid() && CheckinOutcome(db.registrations, code, now).Ok?
    modifies db`registrations
    ensures db.RegistrationsValid()
    ensures db.registrations == CheckinRows(old(db.registrations), code, now)
    ensures updated == CheckinOutcome(old(db.registrations), code, now).value
  {
    var rows := db.registrations;
    CheckinWrites(rows, code, now, db.nextRegistrationId);
    var written := Update(rows, CodeIs(code), CheckIn(now));
    db.registrations := written;
    var found := First(written, CodeIs(code));
    updated := found.value;
  }

  /** On the success path the UPDATE keeps the keys and the re-read finds the answered row. */
  lemma CheckinWrites(rows: seq<Row<Registration>>, code: Value, now: int, next: int)
    requires Keyed(rows, next) && CheckinOutcome(rows, code, now).Ok?
    ensures var after := Update(rows, CodeIs(code), CheckIn(now));
      && Keyed(after, next)
      && CheckinRows(rows, code, now) == after
      && First(after, CodeIs(code)) == Some(CheckinOutcome(rows, code, now).value)
  {
    UpdateKeyed(rows, CodeIs(code), CheckIn(now), next);
    FirstAfterUpdate(rows, CodeIs(code), CheckIn(now));
  }

  /**
   * Check-in moves a registration from "not checked in" to "checked in" and
   * nowhere else: the rows with the code gain the flag and the time, every
   * other row and column is kept, and a second check-in with the same code is
   * refused with the time of the first.
   */
  lemma {:induction false} CheckinOnce(rows: seq<Row<Registration>>, code: Value, now: int, later: int)
    requires CheckinOutcome(rows, code, now).Ok?
    ensures var after := CheckinRows(rows, code, now);
      && |after| == |rows|
      && (forall i :: 0 <= i < |rows| && CodeIs(code)(rows[i]) ==>
            after[i].id == rows[i].id && after[i].data == rows[i].data.(checkedIn := 1, checkinTime := Some(now)))
      && (forall i :: 0 <= i < |rows| && !CodeIs(code)(rows[i]) ==> after[i] == rows[i])
      && CheckinOutcome(after, code, later) == Err(AlreadyCheckedIn(Some(now)))
      && CheckinRows(after, code, later) == after
  {
    var after := CheckinRows(rows, code, now);
    var k := FirstIndex(rows, CodeIs(code));
    assert FirstIndex(after, CodeIs(code)) == k;
  }

  // ---------------------------------------------------------------------------
  // POST /verify

  /**
   * `POST /verify`: `parseJson` stands for `JSON.parse` applied to the text
   * of `qr_data` (None when it throws). Nothing is written.
   */
  function Verify(rows: seq<Row<Registration>>, qrData: Value, parseJson: string -> Option<Value>)
    : (r: Result<Row<Registration>, RegistrationError>)
    ensures r == Err(QrDataRequired) <==> !Truthy(qrData)
    ensures r == Err(InvalidQrFormat) <==> Truthy(qrData) && parseJson(ToText(qrData)).None?
    ensures r == Err(ServerError) <==> Truthy(qrData) && parseJson(ToText(qrData)) == Some(Null)
    ensures r.Ok? ==> exists v :: parseJson(ToText(qrData)) == Some(v) && r.value in rows && CodeIs(Field(v, "attendee_code"))(r.value)
    ensures r == Err(RegistrationNotFound) <==> Truthy(qrData) && exists v ::
      (parseJson(ToText(qrData)) == Some(v) && v != Null
       && forall i :: 0 <= i < |rows| ==> !CodeIs(Field(v, "attendee_code"))(rows[i]))
  {
    if !Truthy(qrData) then Err(QrDataRequired)
    else
      match parseJson(ToText(qrData))
      case None => Err(InvalidQrFormat)
      case Some(data) =>
        if data == Null then Err(ServerError)
        else
          match First(rows, CodeIs(Field(data, "attendee_code")))
          case None => Err(RegistrationNotFound)
          case Some(g) => Ok(g)
  }

  /** The payload the register encodes in the QR image. */
  function QrPayload(attendeeCode: string, conferenceId: Value, email: Value): Value {
    Obj([("attendee_code", Str(attendeeCode)), ("conference_id", conferenceId), ("email", email)])
  }

  /**
   * Scanning the QR code of a registration finds a registration with that
   * attendee code: verify answers a row of the table whose code is the one
   * the payload carries.
   */
  lemma VerifyFindsIssuedCode(rows: seq<Row<Registration>>, k: int, qrText: string,
                              parseJson: string -> Option<Value>, conferenceId: Value, email: Value)
    requires 0 <= k < |rows| && qrText != ""
    requires parseJson(qrText) == Some(QrPayload(rows[k].data.attendeeCode, conferenceId, email))
    ensures Verify(rows, Str(qrText), parseJson).Ok?
    ensures Verify(rows, Str(qrText), parseJson).value.data.attendeeCode == rows[k].data.attendeeCode
  {
    var v := QrPayload(rows[k].data.attendeeCode, conferenceId, email);
    var fields := v.fields;
    assert fields[2].0 != "attendee_code" by { assert fields[2].0[0] != "attendee_code"[0]; }
    assert fields[..2][1].0 != "attendee_code" by { assert fields[..2][1].0[0] != "attendee_code"[0]; }
    assert fields[..2][..1] == fields[..1];
    calc {
      Field(v, "attendee_code");
      FieldIn(fields, "attendee_code");
      FieldIn(fields[..2], "attendee_code");
      FieldIn(fields[..1], "attendee_code");
      Str(rows[k].data.attendeeCode);
    }
    assert CodeIs(Field(v, "attendee_code"))(rows[k]);
  }
}
