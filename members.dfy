/**
 * Member sign-up of backend/routes/members.js: the public registration with
 * its required fields and duplicate-email check, the admin list and count,
 * and the Yes/No formatting of the CSV export.
 */
module Members {
  import opened Values
  import opened Tables
  import opened Schema

  /** The body of `POST /api/members/register`. */
  datatype MemberRequest = MemberRequest(
    fullName: Value,
    phone: Value,
    email: Value,
    age: Value,
    gender: Value,
    state: Value,
    lga: Value,
    occupation: Value,
    isRegisteredVoter: Value,
    notRegisteredReason: Value)

  datatype MemberError = MissingFields | EmailTaken

  /** Both rejections answer 400. */
  function Status(e: MemberError): int {
    400
  }

  /** Every required field is truthy: an age of 0 counts as missing. */
  predicate HasRequired(q: MemberRequest) {
    && Truthy(q.fullName) && Truthy(q.phone) && Truthy(q.email) && Truthy(q.age)
    && Truthy(q.gender) && Truthy(q.state) && Truthy(q.lga)
  }

  /** `WHERE email = ?` */
  function EmailIs(email: Value): Row<Member> -> bool {
    (r: Row<Member>) => Matches(r.data.email, email)
  }

  predicate EmailTakenIn(rows: seq<Row<Member>>, email: Value) {
    exists i :: 0 <= i < |rows| && Matches(rows[i].data.email, email)
  }

  /** The row the INSERT stores: falsy optional texts become NULL and the voter flag 0 or 1. */
  function NewMember(q: MemberRequest, now: int): Member {
    Member(Bind(q.fullName), Bind(q.phone), Bind(q.email), Bind(q.age), Bind(q.gender),
           Bind(q.state), Bind(q.lga), Bind(Or(q.occupation, Null)), Flag(q.isRegisteredVoter),
           Bind(Or(q.notRegisteredReason, Null)), now)
  }

  /** The rejection the handler answers with, if any: the field check comes before the duplicate check. */
  function Rejection(rows: seq<Row<Member>>, q: MemberRequest): (r: Option<MemberError>)
    ensures r == Some(MissingFields) <==> !HasRequired(q)
    ensures r == Some(EmailTaken) <==> HasRequired(q) && EmailTakenIn(rows, q.email)
    ensures r == None <==> HasRequired(q) && !EmailTakenIn(rows, q.email)
  {
    var existing := Where(rows, EmailIs(q.email));
    if !HasRequired(q) then Some(MissingFields)
    else if |existing| > 0 then
      assert existing[0] in rows && EmailIs(q.email)(existing[0]);
      Some(EmailTaken)
    else
      assert forall i :: 0 <= i < |rows| ==> rows[i] in rows && rows[i] !in existing;
      None
  }

  /**
   * `POST /register`: on success exactly one row is appended; on a rejection
   * the members table is unchanged.
   */
  method Register(db: Database, q: MemberRequest, now: int) returns (r: Result<(), MemberError>)
    requires db.MembersValid()
    modifies db`members, db`nextMemberId
    ensures db.MembersValid()
    ensures r.Err? <==> Rejection(old(db.members), q).Some?
    ensures r.Err? ==> r.error == Rejection(old(db.members), q).value
    ensures r.Err? ==> db.members == old(db.members) && db.nextMemberId == old(db.nextMemberId)
    ensures r.Ok? ==> db.members == old(db.members) + [Row(old(db.nextMemberId), NewMember(q, now))]
    ensures r.Ok? ==> db.nextMemberId == old(db.nextMemberId) + 1
  {
    if !(Truthy(q.fullName) && Truthy(q.phone) && Truthy(q.email) && Truthy(q.age)
         && Truthy(q.gender) && Truthy(q.state) && Truthy(q.lga)) {
      return Err(MissingFields);
    }
    var existing := Where(db.members, EmailIs(q.email));
    if |existing| > 0 {
      return Err(EmailTaken);
    }
    InsertKeyed(db.members, db.nextMemberId, NewMember(q, now));
    db.members := db.members + [Row(db.nextMemberId, NewMember(q, now))];
    db.nextMemberId := db.nextMemberId + 1;
    r := Ok(());
  }

  /**
   * A stored member keeps its required fields truthy, and its email blocks any
   * later request with the same email, so an email is registered at most once.
   */
  lemma RegisteredEmailBlocks(rows: seq<Row<Member>>, id: int, q: MemberRequest, now: int, q2: MemberRequest)
    requires Rejection(rows, q).None?
    requires HasRequired(q2) && Bind(q2.email) == Bind(q.email)
    ensures Rejection(rows + [Row(id, NewMember(q, now))], q2) == Some(EmailTaken)
    ensures Truthy(NewMember(q, now).age) && NewMember(q, now).email != Null
    ensures NewMember(q, now).isRegisteredVoter == 0 || NewMember(q, now).isRegisteredVoter == 1
  {
    var after := rows + [Row(id, NewMember(q, now))];
    assert Matches(after[|rows|].data.email, q2.email);
  }

  // ---------------------------------------------------------------------------
  // GET / and GET /count

  /** `ORDER BY created_at DESC` */
  function NewestFirst(): (Row<Member>, Row<Member>) -> bool {
    (a: Row<Member>, b: Row<Member>) => a.data.createdAt >= b.data.createdAt
  }

  lemma NewestFirstTotal()
    ensures TotalPreorder(NewestFirst())
  {
  }

  /** The member list: every row exactly once, newest first. */
  function ListMembers(rows: seq<Row<Member>>): (r: seq<Row<Member>>)
    ensures multiset(r) == multiset(rows)
    ensures forall i, j :: 0 <= i < j < |r| ==> r[i].data.createdAt >= r[j].data.createdAt
  {
    NewestFirstTotal();
    OrderBy(rows, NewestFirst())
  }

  /** `SELECT COUNT(*)`: the count is the length of the member list. */
  function Count(rows: seq<Row<Member>>): (c: nat)
    ensures c == |ListMembers(rows)|
  {
    var listed := ListMembers(rows);
    assert |multiset(listed)| == |multiset(rows)|;
    |rows|
  }

  // ---------------------------------------------------------------------------
  // GET /export: the record handed to the CSV writer

  datatype ExportRecord = ExportRecord(
    id: int,
    fullName: Value,
    phone: Value,
    email: Value,
    age: Value,
    gender: Value,
    state: Value,
    lga: Value,
    occupation: Value,
    isRegisteredVoter: string,
    notRegisteredReason: Value,
    createdAt: int)

  /** The row with `is_registered_voter` written as "Yes" or "No". */
  function Export(m: Row<Member>): (r: ExportRecord)
    ensures r.isRegisteredVoter == "Yes" || r.isRegisteredVoter == "No"
    ensures r.isRegisteredVoter == "Yes" <==> m.data.isRegisteredVoter != 0
  {
    var d := m.data;
    ExportRecord(m.id, d.fullName, d.phone, d.email, d.age, d.gender, d.state, d.lga, d.occupation,
                 if d.isRegisteredVoter != 0 then "Yes" else "No", d.notRegisteredReason, d.createdAt)
  }

  /** Reading an exported record back: "Yes" is 1, anything else 0. */
  function Import(r: ExportRecord): Row<Member> {
    Row(r.id, Member(r.fullName, r.phone, r.email, r.age, r.gender, r.state, r.lga, r.occupation,
                     if r.isRegisteredVoter == "Yes" then 1 else 0, r.notRegisteredReason, r.createdAt))
  }

  /** Formatting loses nothing for a row whose voter flag is 0 or 1, as every registered row's is. */
  lemma ExportRoundTrip(m: Row<Member>)
    requires m.data.isRegisteredVoter == 0 || m.data.isRegisteredVoter == 1
    ensures Import(Export(m)) == m
  {
  }

}
